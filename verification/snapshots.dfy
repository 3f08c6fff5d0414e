/** The two snapshots the web front end polls: the active downloads,
    oldest start first (`getActiveDownloads`), and the history records,
    newest completion first (`getHistory`). Each collects a map's values in
    Go's unspecified iteration order and then sorts them. */
module Snapshots {
  import opened HistoryStore
  import opened ActiveRegistry

  /** key is non-decreasing along s. */
  ghost predicate SortedBy<T>(s: seq<T>, key: T -> int) {
    forall i, j | 0 <= i < j < |s| :: key(s[i]) <= key(s[j])
  }

  function Insert<T>(x: T, s: seq<T>, key: T -> int): (r: seq<T>)
    requires SortedBy(s, key)
    ensures SortedBy(r, key)
    ensures multiset(r) == multiset(s) + multiset{x}
    ensures |r| == |s| + 1
    ensures r[0] == x || (s != [] && r[0] == s[0])
  {
    if s == [] || key(x) <= key(s[0]) then
      ConsSorted(x, s, key);
      [x] + s
    else
      TailSorted(s, key);
      var rest := Insert(x, s[1..], key);
      InsertBehindHead(x, s, rest, key);
      [s[0]] + rest
  }

  lemma TailSorted<T>(s: seq<T>, key: T -> int)
    requires SortedBy(s, key) && s != []
    ensures SortedBy(s[1..], key)
  {
    forall i, j | 0 <= i < j < |s[1..]|
      ensures key(s[1..][i]) <= key(s[1..][j])
    {
      assert s[1..][i] == s[i + 1] && s[1..][j] == s[j + 1];
    }
  }

  /** When x goes behind the head of s, the head stays in front of the
      rest with x inserted. */
  lemma InsertBehindHead<T>(x: T, s: seq<T>, rest: seq<T>, key: T -> int)
    requires SortedBy(s, key) && s != [] && key(s[0]) < key(x)
    requires SortedBy(rest, key)
    requires multiset(rest) == multiset(s[1..]) + multiset{x}
    requires rest != [] && (rest[0] == x || (s[1..] != [] && rest[0] == s[1..][0]))
    ensures SortedBy([s[0]] + rest, key)
    ensures multiset([s[0]] + rest) == multiset(s) + multiset{x}
  {
    assert key(s[0]) <= key(rest[0]);
    ConsSorted(s[0], rest, key);
    assert s == [s[0]] + s[1..];
  }

  /** Putting an element no larger than the head in front of a sorted
      sequence keeps it sorted. */
  lemma ConsSorted<T>(y: T, rest: seq<T>, key: T -> int)
    requires SortedBy(rest, key)
    requires rest == [] || key(y) <= key(rest[0])
    ensures SortedBy([y] + rest, key)
  {
    var r := [y] + rest;
    forall i, j | 0 <= i < j < |r|
      ensures key(r[i]) <= key(r[j])
    {
      if i == 0 {
        assert r[j] == rest[j - 1];
        assert key(rest[0]) <= key(rest[j - 1]) || j - 1 == 0;
      } else {
        assert r[i] == rest[i - 1] && r[j] == rest[j - 1];
      }
    }
  }

  /** Insertion sort: a permutation of s, ordered by key. */
  function SortBy<T>(s: seq<T>, key: T -> int): (r: seq<T>)
    ensures SortedBy(r, key)
    ensures multiset(r) == multiset(s)
  {
    if s == [] then []
    else
      assert s == [s[0]] + s[1..];
      Insert(s[0], SortBy(s[1..], key), key)
  }

  predicate Distinct<K(==)>(ks: seq<K>) {
    forall i, j | 0 <= i < j < |ks| :: ks[i] != ks[j]
  }

  /** ks lists every key of m exactly once. */
  ghost predicate IsKeyOrder<K, V>(ks: seq<K>, m: map<K, V>) {
    && Distinct(ks)
    && (forall i | 0 <= i < |ks| :: ks[i] in m)
    && (forall k | k in m :: k in ks)
  }

  function ValuesAlong<K, V>(m: map<K, V>, ks: seq<K>): (vs: seq<V>)
    requires forall i | 0 <= i < |ks| :: ks[i] in m
    ensures |vs| == |ks|
    ensures forall i | 0 <= i < |ks| :: vs[i] == m[ks[i]]
  {
    if ks == [] then [] else [m[ks[0]]] + ValuesAlong(m, ks[1..])
  }

  /** r holds the values of m, one per key, in some order. */
  ghost predicate IsPermutationOfValues<K(!new), V>(r: seq<V>, m: map<K, V>) {
    exists ks :: IsKeyOrder(ks, m) && multiset(r) == multiset(ValuesAlong(m, ks))
  }

  /** `for _, v := range m { out = append(out, v) }`: the keys are visited
      in an order the model leaves open. */
  method CollectValues<K(!new), V>(m: map<K, V>) returns (vs: seq<V>, ghost ks: seq<K>)
    ensures IsKeyOrder(ks, m)
    ensures vs == ValuesAlong(m, ks)
    ensures IsPermutationOfValues(vs, m)
    ensures forall k | k in m :: m[k] in vs
  {
    vs, ks := [], [];
    var todo := m.Keys;
    while todo != {}
      invariant todo <= m.Keys
      invariant Collected(m, todo, ks)
      invariant vs == ValuesAlong(m, ks)
      decreases todo
    {
      var k :| k in todo;
      CollectStep(m, todo, ks, k);
      ValuesAlongSnoc(m, ks, k);
      vs, ks := vs + [m[k]], ks + [k];
      todo := todo - {k};
    }
    assert IsKeyOrder(ks, m);
    ValuesAlongKeyOrder(m, ks);
  }

  /** ks lists, once each, exactly the keys of m that are no longer in todo. */
  ghost predicate Collected<K, V>(m: map<K, V>, todo: set<K>, ks: seq<K>) {
    && Distinct(ks)
    && (forall i | 0 <= i < |ks| :: ks[i] in m && ks[i] !in todo)
    && (forall k | k in m && k !in todo :: k in ks)
  }

  lemma CollectStep<K, V>(m: map<K, V>, todo: set<K>, ks: seq<K>, k: K)
    requires Collected(m, todo, ks) && todo <= m.Keys && k in todo
    ensures Collected(m, todo - {k}, ks + [k])
  {
    var ks' := ks + [k];
    forall i, j | 0 <= i < j < |ks'|
      ensures ks'[i] != ks'[j]
    {
      if j == |ks| {
        assert ks'[i] == ks[i] && ks[i] !in todo;
      } else {
        assert ks'[i] == ks[i] && ks'[j] == ks[j];
      }
    }
    forall i | 0 <= i < |ks'|
      ensures ks'[i] in m && ks'[i] !in todo - {k}
    {
      if i < |ks| {
        assert ks'[i] == ks[i];
      }
    }
    forall x | x in m && x !in todo - {k}
      ensures x in ks'
    {
      if x != k {
        assert x in ks;
        var i :| 0 <= i < |ks| && ks[i] == x;
        assert ks'[i] == x;
      } else {
        assert ks'[|ks|] == k;
      }
    }
  }

  lemma ValuesAlongSnoc<K, V>(m: map<K, V>, ks: seq<K>, k: K)
    requires forall i | 0 <= i < |ks| :: ks[i] in m
    requires k in m
    ensures ValuesAlong(m, ks + [k]) == ValuesAlong(m, ks) + [m[k]]
  {
    var ks' := ks + [k];
    assert forall i | 0 <= i < |ks'| :: ks'[i] in m;
    var l, r := ValuesAlong(m, ks'), ValuesAlong(m, ks) + [m[k]];
    assert |l| == |r|;
    forall i | 0 <= i < |l|
      ensures l[i] == r[i]
    {
      if i < |ks| {
        assert ks'[i] == ks[i];
      }
    }
  }

  /** Reading the values of m along an order of its keys yields each value of m. */
  lemma ValuesAlongKeyOrder<K(!new), V>(m: map<K, V>, ks: seq<K>)
    requires IsKeyOrder(ks, m)
    ensures IsPermutationOfValues(ValuesAlong(m, ks), m)
    ensures forall k | k in m :: m[k] in ValuesAlong(m, ks)
  {
    var vs := ValuesAlong(m, ks);
    forall k | k in m ensures m[k] in vs {
      var i :| 0 <= i < |ks| && ks[i] == k;
      assert vs[i] == m[k];
    }
  }

  function StartedAt(e: Entry): int { e.startedAt }

  /** Newest first is ascending order of the negated completion time. */
  function Age(rec: Record): int { -rec.downloaded }

  /** getActiveDownloads: every active entry once, oldest start first. */
  method ActiveDownloads(reg: Registry) returns (snapshot: seq<Entry>)
    ensures IsPermutationOfValues(snapshot, reg.active)
    ensures forall i, j | 0 <= i < j < |snapshot| :: snapshot[i].startedAt <= snapshot[j].startedAt
  {
    var vs, ks := CollectValues(reg.active);
    snapshot := SortBy(vs, StartedAt);
    assert SortedBy(snapshot, StartedAt);
  }

  /** getHistory: every record of the URL index once, newest first. */
  method HistoryList(h: History) returns (records: seq<Record>)
    ensures IsPermutationOfValues(records, h.downloads)
    ensures forall i, j | 0 <= i < j < |records| :: records[i].downloaded >= records[j].downloaded
  {
    var vs, ks := CollectValues(h.downloads);
    records := SortBy(vs, Age);
    assert SortedBy(records, Age);
  }
}
