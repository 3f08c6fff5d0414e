/** The web front end's registry of active downloads (`WebDownloader.downloads`
    and `nextID`) and the locked operations on it: start, the progress and
    output-path updates made by a running transfer, completion and cancel.
    Each operation is one atomic step, as each runs entirely under the lock. */
module ActiveRegistry {
  import opened Wrappers
  import opened Encoding
  import opened PathNames
  import opened Naming
  import opened HistoryStore
  import opened Transfer

  /** ActiveDownload without its cancel function. Progress, Total and Speed
      are whatever the transfer last reported; OutputPath is "" until the
      output file has been created. */
  datatype Entry = Entry(
    id: string,
    url: string,
    filename: string,
    progress: int,
    total: int,
    speed: int,
    startedAt: int,
    outputPath: string)

  datatype Registry = Registry(active: map<string, Entry>, nextID: nat)

  const Initial := Registry(map[], 0)

  /** What the background goroutine of a started download captured: its ID,
      the URL and the derived (pre-rename) file name. */
  datatype Job = Job(id: string, url: string, name: string)

  datatype StartOutcome = Accepted(job: Job) | AlreadyDownloaded(name: string)

  const IdPrefix := "dl-"

  /** The ID `fmt.Sprintf("dl-%d", n)`. */
  function IdFor(n: nat): (id: string)
    ensures |id| > |IdPrefix| && id[..|IdPrefix|] == IdPrefix
    ensures AllDigits(id[|IdPrefix|..])
  {
    IdPrefix + Decimal(n)
  }

  /** Reads the number back out of an ID; None for a string not of the form
      "dl-" followed by digits. */
  function ParseId(id: string): Option<nat> {
    if |id| > |IdPrefix| && id[..|IdPrefix|] == IdPrefix && AllDigits(id[|IdPrefix|..])
    then Some(ParseDecimal(id[|IdPrefix|..]))
    else None
  }

  lemma ParseIdFor(n: nat)
    ensures ParseId(IdFor(n)) == Some(n)
  {
    assert IdFor(n)[|IdPrefix|..] == Decimal(n);
    DecimalRoundTrip(n);
  }

  /** An ID issued by this registry so far: "dl-n" with 1 <= n <= nextID. */
  predicate Issued(nextID: nat, id: string) {
    ParseId(id).Some? && 1 <= ParseId(id).value <= nextID
  }

  /** Every entry is filed under its own ID, and every ID has been issued. */
  ghost predicate WellFormed(reg: Registry) {
    KeyedById(reg.active) && forall id | id in reg.active :: Issued(reg.nextID, id)
  }

  ghost predicate KeyedById(active: map<string, Entry>) {
    forall id | id in active :: active[id].id == id
  }

  /** startDownload: rejects a duplicate without touching the registry;
      otherwise bumps nextID, files a fresh entry for the URL under the
      derived name and returns the job to launch. */
  function Start(env: Env, h: History, reg: Registry, u: string, now: int): (r: (Registry, StartOutcome))
    ensures r.1.AlreadyDownloaded? <==> IsDuplicate(env, h, u)
    ensures r.1.AlreadyDownloaded? ==> r.0 == reg && r.1.name == FilenameFromURL(env, u)
    ensures r.1.Accepted? ==>
              && r.0.nextID == reg.nextID + 1
              && r.1.job == Job(IdFor(r.0.nextID), u, FilenameFromURL(env, u))
              && r.0.active.Keys == reg.active.Keys + {r.1.job.id}
              && r.0.active[r.1.job.id] == Entry(r.1.job.id, u, FilenameFromURL(env, u), 0, 0, 0, now, "")
              && forall id | id in reg.active && id != r.1.job.id :: r.0.active[id] == reg.active[id]
  {
    var name := FilenameFromURL(env, u);
    if u in h.downloads || name in h.files then (reg, AlreadyDownloaded(name))
    else
      var n := reg.nextID + 1;
      var id := IdFor(n);
      (Registry(reg.active[id := Entry(id, u, name, 0, 0, 0, now, "")], n), Accepted(Job(id, u, name)))
  }

  /** A started download gets an ID no entry has: every entry's ID was
      issued at or below the old nextID, the new one is numbered above it. */
  lemma StartIdIsFresh(env: Env, h: History, reg: Registry, u: string, now: int)
    requires WellFormed(reg)
    ensures var r := Start(env, h, reg, u, now);
            r.1.Accepted? ==> r.1.job.id !in reg.active && !Issued(reg.nextID, r.1.job.id)
  {
    var r := Start(env, h, reg, u, now);
    if r.1.Accepted? {
      var id := r.1.job.id;
      ParseIdFor(reg.nextID + 1);
      assert ParseId(id) == Some(reg.nextID + 1);
      assert id in reg.active ==> Issued(reg.nextID, id);
    }
  }

  lemma StartKeepsWellFormed(env: Env, h: History, reg: Registry, u: string, now: int)
    requires WellFormed(reg)
    ensures WellFormed(Start(env, h, reg, u, now).0)
  {
    var (reg', out) := Start(env, h, reg, u, now);
    if out.Accepted? {
      ParseIdFor(reg'.nextID);
      forall id | id in reg'.active
        ensures reg'.active[id].id == id && Issued(reg'.nextID, id)
      {
        if id != out.job.id {
          assert reg'.active[id] == reg.active[id];
          assert Issued(reg.nextID, id);
        }
      }
    }
  }

  /** updateProgress: overwrites Progress, Total and Speed of the named
      entry and nothing else; an unknown ID (say, a cancelled download)
      changes nothing. */
  function UpdateProgress(reg: Registry, id: string, progress: int, total: int, speed: int): (reg': Registry)
    ensures id !in reg.active ==> reg' == reg
    ensures id in reg.active ==>
              && reg'.nextID == reg.nextID
              && reg'.active.Keys == reg.active.Keys
              && reg'.active[id] == reg.active[id].(progress := progress, total := total, speed := speed)
              && forall other | other in reg.active && other != id :: reg'.active[other] == reg.active[other]
  {
    if id in reg.active
    then reg.(active := reg.active[id := reg.active[id].(progress := progress, total := total, speed := speed)])
    else reg
  }

  /** The bookkeeping a web transfer does once its file is created: record
      the output path and show its base name, then report zero progress of
      the advertised length. Unknown IDs are left alone. */
  function AttachOutput(reg: Registry, id: string, path: string, contentLength: int): (reg': Registry)
    ensures id !in reg.active ==> reg' == reg
    ensures id in reg.active ==>
              && reg'.nextID == reg.nextID
              && reg'.active.Keys == reg.active.Keys
              && reg'.active[id] == reg.active[id].(outputPath := path, filename := Base(path),
                                                    progress := 0, total := contentLength, speed := 0)
              && forall other | other in reg.active && other != id :: reg'.active[other] == reg.active[other]
  {
    if id in reg.active then
      var e := reg.active[id];
      UpdateProgress(reg.(active := reg.active[id := e.(outputPath := path, filename := Base(path))]),
                     id, 0, contentLength, 0)
    else reg
  }

  /** The goroutine's deferred delete: the job's entry is gone afterwards,
      whether or not it was still there, and nothing else changes. */
  function Release(reg: Registry, id: string): (reg': Registry)
    ensures reg'.nextID == reg.nextID
    ensures reg'.active.Keys == reg.active.Keys - {id}
    ensures forall other | other in reg'.active :: reg'.active[other] == reg.active[other]
  {
    reg.(active := reg.active - {id})
  }

  /** The goroutine's epilogue: a successful transfer records the URL under
      the final path and the derived name; a failed one leaves history
      alone. Either way the job's entry is gone afterwards (it may already
      have been cancelled) and nothing else in the registry changes. */
  function Complete(h: History, reg: Registry, job: Job, result: Result<Done, TransferError>, now: int)
    : (r: (History, Registry))
    ensures r.1.nextID == reg.nextID
    ensures r.1.active.Keys == reg.active.Keys - {job.id}
    ensures forall id | id in r.1.active :: r.1.active[id] == reg.active[id]
    ensures result.Failure? ==> r.0 == h
    ensures result.Success? ==>
              r.0 == RecordCompletion(h, job.url, job.name, result.value.path, result.value.size, now)
  {
    var h' := match result
      case Failure(_) => h
      case Success(done) => RecordCompletion(h, job.url, job.name, done.path, done.size, now);
    (h', Release(reg, job.id))
  }

  /** cancelDownload: an unknown ID changes nothing; a known one loses its
      entry, and its partial file (if one was created) is removed from disk.
      No other entry changes. */
  function Cancel(reg: Registry, disk: set<string>, id: string): (r: (Registry, set<string>))
    ensures id !in reg.active ==> r == (reg, disk)
    ensures id in reg.active ==>
              && r.0.nextID == reg.nextID
              && r.0.active.Keys == reg.active.Keys - {id}
              && (forall other | other in r.0.active :: r.0.active[other] == reg.active[other])
              && (reg.active[id].outputPath != "" ==> r.1 == disk - {reg.active[id].outputPath})
              && (reg.active[id].outputPath == "" ==> r.1 == disk)
  {
    if id in reg.active then
      var path := reg.active[id].outputPath;
      (Release(reg, id), if path != "" then disk - {path} else disk)
    else (reg, disk)
  }
}
