/** The parts of Go's `path/filepath` and `strings` that name derivation relies
    on, written out for a Unix host (the only separator is '/', there is no
    volume name): `Base`, `Ext` and `TrimSuffix`. */
module PathNames {

  predicate NoSlash(s: string) {
    forall i | 0 <= i < |s| :: s[i] != '/'
  }

  predicate AllSlashes(s: string) {
    forall i | 0 <= i < |s| :: s[i] == '/'
  }

  function TrimTrailingSlashes(p: string): (q: string)
    ensures q <= p
    ensures q == [] || q[|q| - 1] != '/'
    ensures forall i | |q| <= i < |p| :: p[i] == '/'
  {
    if p != [] && p[|p| - 1] == '/' then TrimTrailingSlashes(p[..|p| - 1]) else p
  }

  /** Index of the last '/' in q, or -1 when there is none. */
  function LastSlash(q: string): (i: int)
    ensures -1 <= i < |q|
    ensures 0 <= i ==> q[i] == '/'
    ensures forall j | i < j < |q| :: q[j] != '/'
  {
    if q == [] then -1
    else if q[|q| - 1] == '/' then |q| - 1
    else LastSlash(q[..|q| - 1])
  }

  /** filepath.Base: the last element of p once trailing slashes are dropped;
      "." for the empty path and "/" for a path of slashes only. */
  function Base(p: string): (b: string)
    ensures b != ""
    ensures b == "/" || NoSlash(b)
  {
    if p == "" then "."
    else
      var q := TrimTrailingSlashes(p);
      var e := q[LastSlash(q) + 1..];
      if e == "" then "/" else e
  }

  /** p is pre + elem + tail, where elem is a non-empty slash-free element
      that starts p or follows a '/', and tail consists of slashes only. */
  ghost predicate SplitsAt(p: string, pre: string, elem: string, tail: string) {
    && p == pre + elem + tail
    && (pre == "" || pre[|pre| - 1] == '/')
    && elem != ""
    && NoSlash(elem)
    && AllSlashes(tail)
  }

  lemma {:induction false} TrimSlashTail(x: string, t: string)
    requires x != [] && x[|x| - 1] != '/'
    requires AllSlashes(t)
    ensures TrimTrailingSlashes(x + t) == x
  {
    if t != [] {
      assert (x + t)[..|x + t| - 1] == x + t[..|t| - 1];
      TrimSlashTail(x, t[..|t| - 1]);
    } else {
      assert x + t == x;
    }
  }

  lemma {:induction false} LastSlashPastElement(x: string, y: string)
    requires NoSlash(y)
    ensures LastSlash(x + y) == LastSlash(x)
  {
    if y != [] {
      assert (x + y)[..|x + y| - 1] == x + y[..|y| - 1];
      LastSlashPastElement(x, y[..|y| - 1]);
    } else {
      assert x + y == x;
    }
  }

  lemma LastSlashOfDirectory(pre: string)
    requires pre == "" || pre[|pre| - 1] == '/'
    ensures LastSlash(pre) == |pre| - 1
  {
  }

  /** Whenever p splits as pre + elem + tail, Base(p) is elem. */
  lemma BaseOfSplit(p: string, pre: string, elem: string, tail: string)
    requires SplitsAt(p, pre, elem, tail)
    ensures Base(p) == elem
  {
    assert (pre + elem)[|pre + elem| - 1] == elem[|elem| - 1];
    TrimSlashTail(pre + elem, tail);
    LastSlashPastElement(pre, elem);
    LastSlashOfDirectory(pre);
    assert (pre + elem)[|pre|..] == elem;
  }

  /** Base picks out exactly the last element: "." for the empty path, "/"
      for slashes only, and otherwise the element of the (unique, by
      BaseOfSplit) split of p. */
  lemma BaseIsLastElement(p: string)
    ensures p == "" ==> Base(p) == "."
    ensures p != "" && AllSlashes(p) ==> Base(p) == "/"
    ensures !AllSlashes(p) ==> exists pre, tail :: SplitsAt(p, pre, Base(p), tail)
  {
    if p != "" && AllSlashes(p) {
      assert TrimTrailingSlashes(p) == [];
    }
    if !AllSlashes(p) {
      var pre, tail := BaseSplit(p);
    }
  }

  lemma TrimKeepsElement(p: string)
    requires !AllSlashes(p)
    ensures TrimTrailingSlashes(p) != []
  {
    if TrimTrailingSlashes(p) == [] {
      assert AllSlashes(p);
    }
  }

  /** A path that is not all slashes splits around the part of its
      trimmed form after the last slash. */
  lemma SplitAfterSlash(p: string)
    requires !AllSlashes(p)
    ensures var q := TrimTrailingSlashes(p);
            var k := LastSlash(q);
            SplitsAt(p, q[..k + 1], q[k + 1..], p[|q|..])
  {
    SplitPieces(p);
    SplitConcat(p);
  }

  /** The pieces around the last slash: the part before ends in '/' (or is
      empty), the element is non-empty and slash-free, the tail all slashes. */
  lemma SplitPieces(p: string)
    requires !AllSlashes(p)
    ensures var q := TrimTrailingSlashes(p);
            var k := LastSlash(q);
            && (q[..k + 1] == "" || q[..k + 1][k] == '/')
            && q[k + 1..] != ""
            && NoSlash(q[k + 1..])
            && AllSlashes(p[|q|..])
  {
    DirectoryPiece(p);
    ElementPiece(p);
    TailPiece(p);
  }

  lemma DirectoryPiece(p: string)
    ensures var q := TrimTrailingSlashes(p);
            var k := LastSlash(q);
            q[..k + 1] == "" || q[..k + 1][k] == '/'
  {
  }

  lemma ElementPiece(p: string)
    requires !AllSlashes(p)
    ensures var q := TrimTrailingSlashes(p);
            var k := LastSlash(q);
            q[k + 1..] != "" && NoSlash(q[k + 1..])
  {
    ElementNotEmpty(p);
    AfterLastSlash(TrimTrailingSlashes(p));
  }

  lemma ElementNotEmpty(p: string)
    requires !AllSlashes(p)
    ensures var q := TrimTrailingSlashes(p);
            LastSlash(q) + 1 < |q|
  {
    TrimKeepsElement(p);
  }

  lemma AfterLastSlash(q: string)
    ensures NoSlash(q[LastSlash(q) + 1..])
  {
    NoSlashPast(q, LastSlash(q));
  }

  lemma NoSlashPast(q: string, k: int)
    requires -1 <= k < |q|
    requires forall j | k < j < |q| :: q[j] != '/'
    ensures NoSlash(q[k + 1..])
  {
    var elem := q[k + 1..];
    forall i | 0 <= i < |elem|
      ensures elem[i] != '/'
    {
      assert elem[i] == q[k + 1 + i];
    }
  }

  lemma TailPiece(p: string)
    ensures var q := TrimTrailingSlashes(p);
            AllSlashes(p[|q|..])
  {
    var q := TrimTrailingSlashes(p);
    var tail := p[|q|..];
    forall i | 0 <= i < |tail|
      ensures tail[i] == '/'
    {
      assert tail[i] == p[|q| + i];
    }
  }

  /** The three pieces put back together give the path. */
  lemma SplitConcat(p: string)
    ensures var q := TrimTrailingSlashes(p);
            var k := LastSlash(q);
            p == q[..k + 1] + q[k + 1..] + p[|q|..]
  {
    var q := TrimTrailingSlashes(p);
    CutTwice(p, q, LastSlash(q));
  }

  lemma CutTwice(p: string, q: string, k: int)
    requires q <= p && -1 <= k < |q|
    ensures p == q[..k + 1] + q[k + 1..] + p[|q|..]
  {
    assert q[..k + 1] + q[k + 1..] == q;
    assert q + p[|q|..] == p;
  }

  lemma BaseSplit(p: string) returns (pre: string, tail: string)
    requires !AllSlashes(p)
    ensures SplitsAt(p, pre, Base(p), tail)
  {
    var q := TrimTrailingSlashes(p);
    var k := LastSlash(q);
    BaseOfTrimmed(p);
    SplitAfterSlash(p);
    pre, tail := q[..k + 1], p[|q|..];
  }

  /** For a path that is not all slashes, Base is the part of the trimmed
      path after its last slash, and that part is not empty. */
  lemma BaseOfTrimmed(p: string)
    requires !AllSlashes(p)
    ensures var q := TrimTrailingSlashes(p);
            && q != [] && q[|q| - 1] != '/'
            && LastSlash(q) + 1 < |q|
            && Base(p) == q[LastSlash(q) + 1..]
  {
    var q := TrimTrailingSlashes(p);
    TrimKeepsElement(p);
    var k := LastSlash(q);
    assert p != "";
    assert k + 1 < |q|;
    assert q[k + 1..] != "";
  }

  /** Index of the last '.' in p[..i] that is not followed by a '/', or -1. */
  function LastDot(p: string, i: nat): (k: int)
    requires i <= |p|
    ensures -1 <= k < i
    ensures 0 <= k ==> p[k] == '.'
    ensures 0 <= k ==> forall j | k < j < i :: p[j] != '.' && p[j] != '/'
  {
    if i == 0 || p[i - 1] == '/' then -1
    else if p[i - 1] == '.' then i - 1
    else LastDot(p, i - 1)
  }

  /** filepath.Ext: the suffix of p from the last '.' in its final element,
      or "" when the final element has no '.'. */
  function Ext(p: string): (e: string)
    ensures e != "" ==> e[0] == '.' && |e| <= |p| && p[|p| - |e|..] == e
    ensures forall j | 1 <= j < |e| :: e[j] != '.' && e[j] != '/'
  {
    var k := LastDot(p, |p|);
    if k < 0 then "" else p[k..]
  }

  /** strings.TrimSuffix. */
  function TrimSuffix(s: string, suffix: string): (r: string)
    ensures |suffix| <= |s| && s[|s| - |suffix|..] == suffix ==> r + suffix == s
    ensures !(|suffix| <= |s| && s[|s| - |suffix|..] == suffix) ==> r == s
  {
    if |suffix| <= |s| && s[|s| - |suffix|..] == suffix then s[..|s| - |suffix|] else s
  }

  lemma {:induction false} LastDotSkips(p: string, i: nat, j: nat)
    requires j <= i <= |p|
    requires forall m | j <= m < i :: p[m] != '.' && p[m] != '/'
    ensures LastDot(p, i) == LastDot(p, j)
    decreases i - j
  {
    if i > j {
      LastDotSkips(p, i - 1, j);
    }
  }

  lemma {:induction false} LastDotPrefix(p: string, q: string, i: nat)
    requires i <= |p| && i <= |q|
    requires p[..i] == q[..i]
    ensures LastDot(p, i) == LastDot(q, i)
  {
    if i > 0 {
      assert p[i - 1] == p[..i][i - 1] == q[..i][i - 1] == q[i - 1];
      assert p[..i - 1] == p[..i][..i - 1];
      assert q[..i - 1] == q[..i][..i - 1];
      LastDotPrefix(p, q, i - 1);
    }
  }

  /** An extension glued onto anything is still the extension. */
  lemma ExtOfExtended(x: string, e: string)
    requires e != "" && e[0] == '.'
    requires forall j | 1 <= j < |e| :: e[j] != '.' && e[j] != '/'
    ensures Ext(x + e) == e
  {
    var p := x + e;
    LastDotSkips(p, |p|, |x| + 1);
    assert p[|x|] == '.';
    assert p[|x|..] == e;
  }

  /** Appending characters that are neither '.' nor '/' to a name without
      an extension leaves it without one. */
  lemma ExtOfPlainAppend(x: string, y: string)
    requires Ext(x) == ""
    requires forall j | 0 <= j < |y| :: y[j] != '.' && y[j] != '/'
    ensures Ext(x + y) == ""
  {
    var p := x + y;
    LastDotSkips(p, |p|, |x|);
    assert p[..|x|] == x[..|x|];
    LastDotPrefix(p, x, |x|);
  }
}
