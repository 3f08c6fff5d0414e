/** Fingerprinting: the file name a URL is stored under (`filenameFromURL`)
    and the rename applied when that name is already taken on disk
    (inside both `downloadFile` variants). */
module Naming {
  import opened Wrappers
  import opened Encoding
  import opened PathNames

  /** A SHA-256 digest. */
  type Digest = d: seq<byte> | |d| == 32 witness seq(32, _ => 0 as byte)

  /** What `urlHash` returns: 16 lower-case hexadecimal characters. */
  type HashName = s: string | |s| == 16 && forall i | 0 <= i < |s| :: IsLowerHex(s[i])
    witness "0000000000000000"

  /** The library services the core calls but that are not modelled, as
      total functions fixed for the life of the process:
      - sha256: crypto/sha256 applied to the bytes of a string;
      - parsePath: url.Parse, None when it reports an error, otherwise the
        Path field of the parsed URL;
      - join: filepath.Join(outputDir, ·) for the configured output directory. */
  datatype Env = Env(
    sha256: string -> Digest,
    parsePath: string -> Option<string>,
    join: string -> string)

  /** urlHash: the first 8 bytes of the URL's SHA-256, hex-encoded. The hex
      text decodes back to exactly those 8 bytes. */
  function UrlHash(env: Env, u: string): (h: HashName)
    ensures HexDecode(h) == Some(env.sha256(u)[..8])
  {
    HexRoundTrip(env.sha256(u)[..8]);
    HexEncode(env.sha256(u)[..8])
  }

  /** Base names that `filenameFromURL` refuses to use. */
  predicate Degenerate(name: string) {
    name == "" || name == "." || name == "/"
  }

  /** filenameFromURL: the last element of the URL's path, or the URL's hash
      when the URL does not parse or the element is degenerate. The name is
      never degenerate and never contains a separator. */
  function FilenameFromURL(env: Env, u: string): (name: string)
    ensures !Degenerate(name)
    ensures NoSlash(name)
  {
    match env.parsePath(u)
    case None => UrlHash(env, u)
    case Some(path) =>
      var b := Base(path);
      if Degenerate(b) then UrlHash(env, u) else b
  }

  /** The derived name, stated against the URL's path directly: the last
      element of the path when there is one other than ".", the hash
      otherwise (unparseable URL, empty path, slashes only, or a final "."). */
  lemma FilenameIsLastElement(env: Env, u: string, pre: string, elem: string, tail: string)
    requires env.parsePath(u) == Some(pre + elem + tail)
    requires SplitsAt(pre + elem + tail, pre, elem, tail)
    ensures elem != "." ==> FilenameFromURL(env, u) == elem
    ensures elem == "." ==> FilenameFromURL(env, u) == UrlHash(env, u)
  {
    BaseOfSplit(pre + elem + tail, pre, elem, tail);
  }

  lemma FilenameFallsBackToHash(env: Env, u: string)
    ensures env.parsePath(u).None? ==> FilenameFromURL(env, u) == UrlHash(env, u)
    ensures env.parsePath(u).Some? && AllSlashes(env.parsePath(u).value) ==>
              FilenameFromURL(env, u) == UrlHash(env, u)
  {
    BaseIsLastElement(if env.parsePath(u).Some? then env.parsePath(u).value else "");
  }

  /** The collision rename `base_hash.ext`: the hash goes between the name
      and its extension. The result keeps the extension, is 17 characters
      longer, and deleting the inserted "_" + hash gives the name back. */
  function Disambiguate(name: string, hash: HashName): (r: string)
    ensures |r| == |name| + 17
    ensures r != name
    ensures Ext(r) == Ext(name)
    ensures var cut := |name| - |Ext(name)|;
            && 0 <= cut
            && r[cut..cut + 17] == "_" + hash
            && r[..cut] + r[cut + 17..] == name
  {
    InsertHashKeepsExt(name, hash);
    TrimSuffix(name, Ext(name)) + "_" + hash + Ext(name)
  }

  lemma InsertHashKeepsExt(name: string, hash: HashName)
    ensures var ext := Ext(name);
            var base := TrimSuffix(name, ext);
            var r := base + "_" + hash + ext;
            && base + ext == name
            && Ext(r) == ext
            && r[..|base|] == base
            && r[|base|..|base| + 17] == "_" + hash
            && r[|base| + 17..] == ext
  {
    var ext := Ext(name);
    var base := TrimSuffix(name, ext);
    var mid := "_" + hash;
    assert base + "_" + hash + ext == base + mid + ext;
    ExtSplitsName(name);
    HashKeepsExt(name, mid);
    ConcatSlices(base, mid, ext);
  }

  /** Cutting the extension off a name and putting it back gives the name. */
  lemma ExtSplitsName(name: string)
    ensures TrimSuffix(name, Ext(name)) + Ext(name) == name
  {
  }

  /** Inserting characters other than '.' and '/' between a name's base and
      its extension leaves the extension as it was. */
  lemma HashKeepsExt(name: string, mid: string)
    requires forall j | 0 <= j < |mid| :: mid[j] != '.' && mid[j] != '/'
    ensures Ext(TrimSuffix(name, Ext(name)) + mid + Ext(name)) == Ext(name)
  {
    var ext := Ext(name);
    var base := TrimSuffix(name, ext);
    if ext == "" {
      assert base == name;
      ExtOfPlainAppend(name, mid);
      assert base + mid + ext == name + mid;
    } else {
      ExtOfExtended(base + mid, ext);
    }
  }

  lemma ConcatSlices(a: string, b: string, c: string)
    ensures var r := a + b + c;
            && r[..|a|] == a
            && r[|a|..|a| + |b|] == b
            && r[|a| + |b|..] == c
  {
  }

  /** The name a transfer writes to: the derived name, unless a file of that
      name already exists in the output directory, in which case the
      disambiguated one. */
  function OutputName(env: Env, disk: set<string>, u: string): (name: string)
    ensures env.join(FilenameFromURL(env, u)) !in disk ==> name == FilenameFromURL(env, u)
    ensures env.join(FilenameFromURL(env, u)) in disk ==>
              && name != FilenameFromURL(env, u)
              && |name| == |FilenameFromURL(env, u)| + 17
              && Ext(name) == Ext(FilenameFromURL(env, u))
    ensures env.join(FilenameFromURL(env, u)) in disk ==>
              name == Disambiguate(FilenameFromURL(env, u), UrlHash(env, u))
  {
    var name := FilenameFromURL(env, u);
    if env.join(name) in disk then Disambiguate(name, UrlHash(env, u)) else name
  }
}
