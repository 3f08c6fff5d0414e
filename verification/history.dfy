/** The history store: two indices over the completed downloads, URL to
    record (`Downloads`) and derived file name to URL (`DownloadedFiles`),
    with loading, the legacy migration and the dedup test. */
module HistoryStore {
  import opened Wrappers
  import opened Naming

  /** DownloadRecord. `downloaded` is the completion time (any clock
      reading that orders instants), `filename` the final output path. */
  datatype Record = Record(url: string, filename: string, downloaded: int, size: int)

  datatype History = History(downloads: map<string, Record>, files: map<string, string>)

  const Empty := History(map[], map[])

  /** What reading and decoding the history file produced. A field that is
      absent or null in the JSON decodes as an empty map. */
  datatype HistoryFile =
    | Missing
    | Unreadable
    | Malformed
    | Decoded(downloads: map<string, Record>, files: map<string, string>)

  datatype LoadError = ReadFailed | DecodeFailed

  /** The dedup test shared by the web and CLI front ends: the URL itself
      was downloaded, or some download already produced its file name. */
  predicate IsDuplicate(env: Env, h: History, u: string) {
    u in h.downloads || FilenameFromURL(env, u) in h.files
  }

  /** The file-name index is exactly what the legacy migration rebuilds
      from `downloads`: one key per derived name, each pointing at a URL
      that derives it. Which URL wins when several share a name is left
      open, as Go's map iteration order is. */
  ghost predicate IsMigratedIndex(env: Env, downloads: map<string, Record>, files: map<string, string>) {
    && files.Keys == (set u | u in downloads :: FilenameFromURL(env, u))
    && forall f | f in files :: files[f] in downloads && FilenameFromURL(env, files[f]) == f
  }

  /** The two indices agree: every indexed name points at a downloaded URL
      that derives it, and every downloaded URL's name is indexed. */
  ghost predicate Consistent(env: Env, h: History) {
    && (forall f | f in h.files :: h.files[f] in h.downloads && FilenameFromURL(env, h.files[f]) == f)
    && (forall u | u in h.downloads :: FilenameFromURL(env, u) in h.files)
  }

  /** The migration loop of loadHistory: every URL of `downloads`, in an
      arbitrary order, is entered under its derived name. */
  method Migrate(env: Env, downloads: map<string, Record>) returns (files: map<string, string>)
    ensures IsMigratedIndex(env, downloads, files)
  {
    files := map[];
    var todo := downloads.Keys;
    while todo != {}
      invariant todo <= downloads.Keys
      invariant files.Keys == (set u | u in downloads && u !in todo :: FilenameFromURL(env, u))
      invariant forall f | f in files :: files[f] in downloads && FilenameFromURL(env, files[f]) == f
      decreases todo
    {
      var u :| u in todo;
      files := files[FilenameFromURL(env, u) := u];
      todo := todo - {u};
    }
  }

  /** loadHistory: a missing file is an empty history that needs no save;
      read and decode failures are errors; a decoded file with URL records
      but no file-name index gets the index rebuilt and must be saved;
      anything else is returned as decoded. */
  method Load(env: Env, file: HistoryFile) returns (r: Result<(History, bool), LoadError>)
    ensures file.Missing? ==> r == Success((Empty, false))
    ensures file.Unreadable? ==> r == Failure(ReadFailed)
    ensures file.Malformed? ==> r == Failure(DecodeFailed)
    ensures file.Decoded? && (|file.files| != 0 || |file.downloads| == 0) ==>
              r == Success((History(file.downloads, file.files), false))
    ensures file.Decoded? && |file.files| == 0 && |file.downloads| > 0 ==>
              && r.Success?
              && r.value.0.downloads == file.downloads
              && IsMigratedIndex(env, file.downloads, r.value.0.files)
              && r.value.1
  {
    match file {
      case Missing => return Success((Empty, false));
      case Unreadable => return Failure(ReadFailed);
      case Malformed => return Failure(DecodeFailed);
      case Decoded(downloads, files) =>
        if |files| == 0 && |downloads| > 0 {
          var rebuilt := Migrate(env, downloads);
          return Success((History(downloads, rebuilt), true));
        }
        return Success((History(downloads, files), false));
    }
  }

  /** A migrated history is consistent. */
  lemma MigratedIsConsistent(env: Env, downloads: map<string, Record>, files: map<string, string>)
    requires IsMigratedIndex(env, downloads, files)
    ensures Consistent(env, History(downloads, files))
  {
    forall u | u in downloads
      ensures FilenameFromURL(env, u) in files
    {
      assert FilenameFromURL(env, u) in (set v | v in downloads :: FilenameFromURL(env, v));
    }
  }

  /** Recording a completion: the URL's record is (re)written and its
      derived name indexed to it; every other entry of both indices stays. */
  function RecordCompletion(h: History, u: string, name: string, path: string, size: int, now: int): (h': History)
    ensures h'.downloads.Keys == h.downloads.Keys + {u}
    ensures h'.files.Keys == h.files.Keys + {name}
    ensures h'.downloads[u] == Record(u, path, now, size)
    ensures h'.files[name] == u
    ensures forall v | v in h.downloads && v != u :: h'.downloads[v] == h.downloads[v]
    ensures forall f | f in h.files && f != name :: h'.files[f] == h.files[f]
  {
    History(h.downloads[u := Record(u, path, now, size)], h.files[name := u])
  }

  /** Recording a URL under its own derived name keeps the indices consistent. */
  lemma RecordingKeepsConsistent(env: Env, h: History, u: string, path: string, size: int, now: int)
    requires Consistent(env, h)
    ensures Consistent(env, RecordCompletion(h, u, FilenameFromURL(env, u), path, size, now))
  {
  }

  /** Once recorded, a URL is a duplicate. */
  lemma RecordedIsDuplicate(env: Env, h: History, u: string, name: string, path: string, size: int, now: int)
    ensures IsDuplicate(env, RecordCompletion(h, u, name, path, size, now), u)
  {
  }

  /** Recording never makes a duplicate stop being one. */
  lemma RecordingKeepsDuplicates(env: Env, h: History, v: string, u: string, name: string, path: string, size: int, now: int)
    requires IsDuplicate(env, h, v)
    ensures IsDuplicate(env, RecordCompletion(h, u, name, path, size, now), v)
  {
  }

  /** In a consistent history the URL test is subsumed by the file-name
      test: a URL is a duplicate exactly when its derived name is indexed. */
  lemma DuplicateByName(env: Env, h: History, u: string)
    requires Consistent(env, h)
    ensures IsDuplicate(env, h, u) <==> FilenameFromURL(env, u) in h.files
  {
  }
}
