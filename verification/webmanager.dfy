/** The web front end's download manager as a sequential state machine.
    A started download's goroutine is a running job that moves in two
    events: `Opened` (request, status check, output-name choice, create,
    and the locked output-path update) and `Finished` (the end of the copy,
    the locked history write and the deferred registry delete). Every
    other mutation is one locked section and one event. */
module WebManager {
  import opened Wrappers
  import opened Naming
  import opened HistoryStore
  import opened Transfer
  import opened ActiveRegistry
  import opened Snapshots

  /** The manager's state: the history, the registry, the paths present on
      disk, the goroutines that have not finished yet, by ID, and the output
      path of each goroutine that has created its file. */
  datatype Web = Web(
    history: History,
    registry: Registry,
    disk: set<string>,
    running: map<string, Job>,
    outputs: map<string, string>)

  datatype Event =
      /** POST /api/download */
    | Submit(url: string, now: int)
      /** a goroutine's transfer gets its response and, on status 200,
          chooses its output name against the current disk and creates it */
    | Opened(id: string, fetch: Fetch, created: bool)
      /** a running transfer reports progress */
    | Progress(id: string, progress: int, total: int, speed: int)
      /** a goroutine's copy ends with the given outcome */
    | Finished(id: string, copy: Copy, now: int)
      /** POST /api/cancel */
    | CancelRequest(id: string)

  /** startWebServer's initial state, from a loaded history. */
  function Init(h: History, disk: set<string>): Web {
    Web(h, Initial, disk, map[], map[])
  }

  /** Whether an open outcome gets as far as a created file. */
  predicate OpensFile(fetch: Fetch, created: bool) {
    fetch.Response? && fetch.status == StatusOK && created
  }

  /** One event. A goroutine opens once and then finishes once; an event
      for a goroutine that is not at that point is ignored. */
  function Step(env: Env, w: Web, e: Event): (w': Web)
    ensures !e.Finished? ==> w'.history == w.history
    ensures !e.Submit? ==> w'.running.Keys <= w.running.Keys && w'.registry.nextID == w.registry.nextID
  {
    match e
    case Submit(u, now) =>
      var (reg', out) := Start(env, w.history, w.registry, u, now);
      w.(registry := reg', running := if out.Accepted? then w.running[out.job.id := out.job] else w.running)
    case Opened(id, fetch, created) =>
      if id !in w.running || id in w.outputs then w
      else
        var job := w.running[id];
        var (head, disk') := OpenOutput(env, w.disk, job.url, fetch, created);
        if head.Failure? then
          w.(registry := Release(w.registry, id), running := w.running - {id})
        else
          w.(registry := AttachOutput(w.registry, id, head.value, fetch.contentLength),
             disk := disk', outputs := w.outputs[id := head.value])
    case Progress(id, progress, total, speed) =>
      w.(registry := UpdateProgress(w.registry, id, progress, total, speed))
    case Finished(id, copy, now) =>
      if id !in w.running || id !in w.outputs then w
      else
        var job := w.running[id];
        var copied := CopyBody(w.disk, w.outputs[id], copy);
        var completed := Complete(w.history, w.registry, job, copied.0, now);
        Web(completed.0, completed.1, copied.1, w.running - {id}, w.outputs - {id})
    case CancelRequest(id) =>
      var (reg', disk') := Cancel(w.registry, w.disk, id);
      w.(registry := reg', disk := disk')
  }

  /** The manager's invariant: the registry is well formed; every running
      job is filed under its own issued ID and carries its URL's derived
      name; every active entry belongs to a running job for the same URL,
      so no entry can outlive its goroutine; only running jobs have output
      files; and an entry shows its job's output path once there is one. */
  ghost predicate Inv(env: Env, w: Web) {
    && WellFormed(w.registry)
    && JobsNamed(env, w.running)
    && JobsIssued(w.running, w.registry.nextID)
    && EntriesOwned(w.registry.active, w.running)
    && w.outputs.Keys <= w.running.Keys
    && EntriesShowOutput(w.registry.active, w.outputs)
  }

  ghost predicate JobsNamed(env: Env, running: map<string, Job>) {
    forall id | id in running :: running[id].id == id && running[id].name == FilenameFromURL(env, running[id].url)
  }

  ghost predicate JobsIssued(running: map<string, Job>, nextID: nat) {
    forall id | id in running :: Issued(nextID, id)
  }

  ghost predicate EntriesOwned(active: map<string, Entry>, running: map<string, Job>) {
    && active.Keys <= running.Keys
    && forall id | id in active :: active[id].url == running[id].url
  }

  ghost predicate EntriesShowOutput(active: map<string, Entry>, outputs: map<string, string>) {
    forall id | id in active :: active[id].outputPath == if id in outputs then outputs[id] else ""
  }

  lemma InitSatisfiesInv(env: Env, h: History, disk: set<string>)
    ensures Inv(env, Init(h, disk))
  {
  }

  lemma StepKeepsInv(env: Env, w: Web, e: Event)
    requires Inv(env, w)
    ensures Inv(env, Step(env, w, e))
  {
    match e
    case Submit(u, now) => SubmitKeepsInv(env, w, u, now);
    case Opened(id, fetch, created) => OpenedKeepsInv(env, w, id, fetch, created);
    case Progress(id, p, t, s) => ProgressKeepsInv(env, w, id, p, t, s);
    case Finished(id, copy, now) => FinishedKeepsInv(env, w, id, copy, now);
    case CancelRequest(id) => CancelKeepsInv(env, w, id);
  }

  lemma SubmitKeepsInv(env: Env, w: Web, u: string, now: int)
    requires Inv(env, w)
    ensures Inv(env, Step(env, w, Submit(u, now)))
  {
    var started := Start(env, w.history, w.registry, u, now);
    StepSubmit(env, w, u, now);
    if started.1.Accepted? {
      AcceptedKeepsInv(env, w, u, now);
    }
  }

  lemma StepSubmit(env: Env, w: Web, u: string, now: int)
    ensures var started := Start(env, w.history, w.registry, u, now);
            Step(env, w, Submit(u, now)) ==
              if started.1.Accepted?
              then w.(registry := started.0, running := w.running[started.1.job.id := started.1.job])
              else w
  {
  }

  lemma AcceptedKeepsInv(env: Env, w: Web, u: string, now: int)
    requires Inv(env, w)
    requires Start(env, w.history, w.registry, u, now).1.Accepted?
    ensures var started := Start(env, w.history, w.registry, u, now);
            Inv(env, w.(registry := started.0, running := w.running[started.1.job.id := started.1.job]))
  {
    var started := Start(env, w.history, w.registry, u, now);
    var reg' := started.0;
    var job := started.1.job;
    var entry := Entry(job.id, u, FilenameFromURL(env, u), 0, 0, 0, now, "");
    assert reg'.active == w.registry.active[job.id := entry];
    StartKeepsWellFormed(env, w.history, w.registry, u, now);
    StartIdIsFresh(env, w.history, w.registry, u, now);
    ParseIdFor(reg'.nextID);
    assert job.id !in w.running;
    AddedJobKeepsNamesAndIds(env, w.running, w.registry.nextID, job);
    AddedEntryKeepsOwnership(w.registry.active, w.running, w.outputs, job, entry);
  }

  lemma AddedJobKeepsNamesAndIds(env: Env, running: map<string, Job>, nextID: nat, job: Job)
    requires JobsNamed(env, running) && JobsIssued(running, nextID)
    requires job.name == FilenameFromURL(env, job.url)
    requires job.id == IdFor(nextID + 1) && ParseId(job.id) == Some(nextID + 1)
    ensures JobsNamed(env, running[job.id := job])
    ensures JobsIssued(running[job.id := job], nextID + 1)
  {
    var running' := running[job.id := job];
    forall id | id in running'
      ensures Issued(nextID + 1, id)
    {
      if id != job.id {
        assert Issued(nextID, id);
      }
    }
  }

  lemma AddedEntryKeepsOwnership(active: map<string, Entry>, running: map<string, Job>, outputs: map<string, string>,
                                 job: Job, entry: Entry)
    requires EntriesOwned(active, running) && EntriesShowOutput(active, outputs)
    requires outputs.Keys <= running.Keys && job.id !in running
    requires entry.url == job.url && entry.outputPath == ""
    ensures EntriesOwned(active[job.id := entry], running[job.id := job])
    ensures EntriesShowOutput(active[job.id := entry], outputs)
    ensures outputs.Keys <= running[job.id := job].Keys
  {
  }

  lemma OpenedKeepsInv(env: Env, w: Web, id: string, fetch: Fetch, created: bool)
    requires Inv(env, w)
    ensures Inv(env, Step(env, w, Opened(id, fetch, created)))
  {
    if id in w.running && id !in w.outputs {
      var w' := Step(env, w, Opened(id, fetch, created));
      if OpensFile(fetch, created) {
        var path := env.join(OutputName(env, w.disk, w.running[id].url));
        assert w' == w.(registry := AttachOutput(w.registry, id, path, fetch.contentLength),
                        disk := w.disk + {path}, outputs := w.outputs[id := path]);
        OutputAttachedKeepsInv(env, w, id, path, fetch.contentLength);
      } else {
        assert w' == w.(registry := Release(w.registry, id), running := w.running - {id});
        ReleasedKeepsInv(env, w, id);
      }
    }
  }

  /** A goroutine that has created its file records it both as its output
      and in its entry. */
  lemma OutputAttachedKeepsInv(env: Env, w: Web, id: string, path: string, contentLength: int)
    requires Inv(env, w)
    requires id in w.running
    ensures Inv(env, w.(registry := AttachOutput(w.registry, id, path, contentLength),
                        disk := w.disk + {path}, outputs := w.outputs[id := path]))
  {
    var reg' := AttachOutput(w.registry, id, path, contentLength);
    var outputs' := w.outputs[id := path];
    forall k | k in reg'.active
      ensures reg'.active[k].id == k && Issued(reg'.nextID, k)
      ensures reg'.active[k].url == w.running[k].url
      ensures reg'.active[k].outputPath == if k in outputs' then outputs'[k] else ""
    {
      assert k in w.registry.active;
      if k != id {
        assert reg'.active[k] == w.registry.active[k];
      }
    }
    assert WellFormed(reg');
    assert EntriesOwned(reg'.active, w.running);
    assert EntriesShowOutput(reg'.active, outputs');
  }

  /** A goroutine that ends before creating its file takes its entry along. */
  lemma ReleasedKeepsInv(env: Env, w: Web, id: string)
    requires Inv(env, w)
    requires id !in w.outputs
    ensures Inv(env, w.(registry := Release(w.registry, id), running := w.running - {id}))
  {
    var reg' := Release(w.registry, id);
    var running' := w.running - {id};
    assert WellFormed(reg');
    assert JobsNamed(env, running');
    assert JobsIssued(running', reg'.nextID);
    assert EntriesOwned(reg'.active, running');
    assert EntriesShowOutput(reg'.active, w.outputs);
  }

  lemma ProgressKeepsInv(env: Env, w: Web, id: string, progress: int, total: int, speed: int)
    requires Inv(env, w)
    ensures Inv(env, Step(env, w, Progress(id, progress, total, speed)))
  {
    var reg' := UpdateProgress(w.registry, id, progress, total, speed);
    StepProgress(env, w, id, progress, total, speed);
    forall other | other in reg'.active
      ensures && reg'.active[other].id == w.registry.active[other].id
              && reg'.active[other].url == w.registry.active[other].url
              && reg'.active[other].outputPath == w.registry.active[other].outputPath
    {
      assert other in w.registry.active;
    }
    ReshapedEntriesKeepInv(env, w, reg');
  }

  lemma StepProgress(env: Env, w: Web, id: string, progress: int, total: int, speed: int)
    ensures Step(env, w, Progress(id, progress, total, speed)) ==
              w.(registry := UpdateProgress(w.registry, id, progress, total, speed))
  {
  }

  /** Changing entries' progress fields, but not their IDs, URLs or output
      paths, nor the key set or nextID, keeps the invariant. */
  lemma ReshapedEntriesKeepInv(env: Env, w: Web, reg': Registry)
    requires Inv(env, w)
    requires reg'.nextID == w.registry.nextID
    requires reg'.active.Keys == w.registry.active.Keys
    requires forall id | id in reg'.active ::
               && reg'.active[id].id == w.registry.active[id].id
               && reg'.active[id].url == w.registry.active[id].url
               && reg'.active[id].outputPath == w.registry.active[id].outputPath
    ensures Inv(env, w.(registry := reg'))
  {
    assert WellFormed(reg');
    assert EntriesOwned(reg'.active, w.running);
    assert EntriesShowOutput(reg'.active, w.outputs);
  }

  lemma FinishedKeepsInv(env: Env, w: Web, id: string, copy: Copy, now: int)
    requires Inv(env, w)
    ensures Inv(env, Step(env, w, Finished(id, copy, now)))
  {
    if id in w.running && id in w.outputs {
      StepFinished(env, w, id, copy, now);
      var c := CopyBody(w.disk, w.outputs[id], copy);
      var d := Complete(w.history, w.registry, w.running[id], c.0, now);
      FinishedJobKeepsInv(env, w, id, d.0, d.1, c.1);
    }
  }

  /** A goroutine that has ended, with its entry, job and output all gone
      and nothing else in the registry changed, keeps the invariant
      whatever it did to history and disk. */
  lemma FinishedJobKeepsInv(env: Env, w: Web, id: string, h': History, reg': Registry, disk': set<string>)
    requires Inv(env, w)
    requires reg'.nextID == w.registry.nextID
    requires reg'.active.Keys == w.registry.active.Keys - {id}
    requires forall other | other in reg'.active :: reg'.active[other] == w.registry.active[other]
    ensures Inv(env, Web(h', reg', disk', w.running - {id}, w.outputs - {id}))
  {
    ShrunkRegistryWellFormed(w.registry, reg', id);
    RemovedJobKeepsJobs(env, w.running, reg'.nextID, id);
    RemovedJobKeepsEntries(w.registry.active, reg'.active, w.running, w.outputs, id);
  }

  lemma ShrunkRegistryWellFormed(reg: Registry, reg': Registry, id: string)
    requires WellFormed(reg)
    requires reg'.nextID == reg.nextID
    requires reg'.active.Keys == reg.active.Keys - {id}
    requires forall other | other in reg'.active :: reg'.active[other] == reg.active[other]
    ensures WellFormed(reg')
  {
  }

  lemma RemovedJobKeepsJobs(env: Env, running: map<string, Job>, nextID: nat, id: string)
    requires JobsNamed(env, running) && JobsIssued(running, nextID)
    ensures JobsNamed(env, running - {id}) && JobsIssued(running - {id}, nextID)
  {
  }

  lemma RemovedJobKeepsEntries(active: map<string, Entry>, active': map<string, Entry>,
                               running: map<string, Job>, outputs: map<string, string>, id: string)
    requires EntriesOwned(active, running) && EntriesShowOutput(active, outputs)
    requires active'.Keys == active.Keys - {id}
    requires forall other | other in active' :: active'[other] == active[other]
    ensures EntriesOwned(active', running - {id}) && EntriesShowOutput(active', outputs - {id})
  {
  }

  /** What a goroutine's finish does once its file is open: the copy's
      outcome decides the disk, the epilogue the history and registry. */
  lemma StepFinished(env: Env, w: Web, id: string, copy: Copy, now: int)
    requires id in w.running && id in w.outputs
    ensures var c := CopyBody(w.disk, w.outputs[id], copy);
            var d := Complete(w.history, w.registry, w.running[id], c.0, now);
            Step(env, w, Finished(id, copy, now)) == Web(d.0, d.1, c.1, w.running - {id}, w.outputs - {id})
  {
  }

  lemma CancelKeepsInv(env: Env, w: Web, id: string)
    requires Inv(env, w)
    ensures Inv(env, Step(env, w, CancelRequest(id)))
  {
    var (reg', disk') := Cancel(w.registry, w.disk, id);
    StepCancel(env, w, id);
    assert WellFormed(reg');
    assert JobsIssued(w.running, reg'.nextID);
    assert EntriesOwned(reg'.active, w.running);
    assert EntriesShowOutput(reg'.active, w.outputs);
  }

  /** Finishing keeps the two history indices consistent, because every
      job records its URL under that URL's own derived name. */
  lemma StepKeepsConsistent(env: Env, w: Web, e: Event)
    requires Inv(env, w) && Consistent(env, w.history)
    ensures Consistent(env, Step(env, w, e).history)
  {
    if e.Finished? && e.id in w.running && e.id in w.outputs {
      var job := w.running[e.id];
      var (result, _) := CopyBody(w.disk, w.outputs[e.id], e.copy);
      if result.Success? {
        RecordingKeepsConsistent(env, w.history, job.url, result.value.path, result.value.size, e.now);
      }
    }
  }

  /** Once an issued ID is no longer active (it finished or was cancelled)
      no later event brings it back: new IDs are numbered above every
      issued one. */
  lemma GoneStaysGone(env: Env, w: Web, e: Event, id: string)
    requires Inv(env, w)
    requires Issued(w.registry.nextID, id) && id !in w.registry.active
    ensures Issued(Step(env, w, e).registry.nextID, id)
    ensures id !in Step(env, w, e).registry.active
  {
    if e.Submit? {
      StartIdIsFresh(env, w.history, w.registry, e.url, e.now);
      ParseIdFor(w.registry.nextID + 1);
    }
  }

  /** A goroutine's open: on status 200 with a created file, the output
      name is chosen against the disk as it is at that moment, the file is
      on disk from then on, and the entry shows it with zero progress of
      the advertised length; otherwise the goroutine ends, its entry goes,
      and neither history nor disk changes. */
  lemma OpenedCreatesOutput(env: Env, w: Web, id: string, fetch: Fetch, created: bool)
    requires Inv(env, w)
    requires id in w.running && id !in w.outputs
    ensures var w' := Step(env, w, Opened(id, fetch, created));
            var path := env.join(OutputName(env, w.disk, w.running[id].url));
            && w'.history == w.history
            && (OpensFile(fetch, created) ==>
                  && path in w'.disk
                  && w'.outputs[id] == path
                  && (id in w.registry.active ==>
                        && w'.registry.active[id].outputPath == path
                        && w'.registry.active[id].progress == 0
                        && w'.registry.active[id].total == fetch.contentLength))
            && (!OpensFile(fetch, created) ==>
                  id !in w'.running && id !in w'.registry.active && w'.disk == w.disk)
  {
  }

  /** Two running jobs deriving the same name: once the first has created
      its file under that name, the second opens under a different name,
      whichever of them finishes first. */
  lemma SecondOpenIsRenamed(env: Env, w: Web, id1: string, id2: string, fetch1: Fetch, fetch2: Fetch)
    requires id1 in w.running && id2 in w.running && id1 != id2
    requires id1 !in w.outputs && id2 !in w.outputs
    requires FilenameFromURL(env, w.running[id1].url) == FilenameFromURL(env, w.running[id2].url)
    requires env.join(FilenameFromURL(env, w.running[id1].url)) !in w.disk
    requires OpensFile(fetch1, true) && OpensFile(fetch2, true)
    ensures var name := FilenameFromURL(env, w.running[id1].url);
            var w1 := Step(env, w, Opened(id1, fetch1, true));
            var w2 := Step(env, w1, Opened(id2, fetch2, true));
            && w2.outputs[id1] == env.join(name)
            && w2.outputs[id2] == env.join(OutputName(env, w1.disk, w.running[id2].url))
            && OutputName(env, w1.disk, w.running[id2].url) != name
  {
  }

  /** After a cancel the ID is gone from the registry, and with it from
      every snapshot; the partial file recorded for it is gone from disk. */
  lemma CancelRemoves(env: Env, w: Web, id: string)
    ensures var w' := Step(env, w, CancelRequest(id));
            && id !in w'.registry.active
            && (id in w.registry.active && w.registry.active[id].outputPath != "" ==>
                  w.registry.active[id].outputPath !in w'.disk)
  {
  }

  lemma StepCancel(env: Env, w: Web, id: string)
    ensures var cancelled := Cancel(w.registry, w.disk, id);
            Step(env, w, CancelRequest(id)) == w.(registry := cancelled.0, disk := cancelled.1)
  {
  }

  /** Cancelling an active download whose goroutine has created its file
      removes that file (unless its path is empty, which the code skips). */
  lemma CancelRemovesCreatedFile(env: Env, w: Web, id: string)
    requires Inv(env, w)
    requires id in w.registry.active && id in w.outputs && w.outputs[id] != ""
    ensures w.outputs[id] !in Step(env, w, CancelRequest(id)).disk
  {
    CancelRemoves(env, w, id);
  }

  /** The completion goroutine does not check for cancellation: when the
      copy completes although the download was cancelled after its file
      was created, the file is gone from disk while history records the
      URL with that path. */
  lemma CancelledCopyStillRecorded(env: Env, w: Web, id: string, size: nat, now: int)
    requires Inv(env, w)
    requires id in w.registry.active && id in w.outputs && w.outputs[id] != ""
    ensures var w1 := Step(env, w, CancelRequest(id));
            var w2 := Step(env, w1, Finished(id, Copied(size), now));
            var u := w.running[id].url;
            && w.outputs[id] !in w2.disk
            && u in w2.history.downloads
            && w2.history.downloads[u].filename == w.outputs[id]
  {
    var path := w.outputs[id];
    var job := w.running[id];
    var cancelled := Cancel(w.registry, w.disk, id);
    var w1 := w.(registry := cancelled.0, disk := cancelled.1);
    StepCancel(env, w, id);
    assert w.registry.active[id].outputPath == path;
    assert path !in w1.disk;
    StepFinished(env, w1, id, Copied(size), now);
    var copied := CopyBody(w1.disk, path, Copied(size));
    assert copied == (Success(Done(path, size)), w1.disk);
    var completed := Complete(w1.history, w1.registry, job, copied.0, now);
    assert completed.0 == RecordCompletion(w.history, job.url, job.name, path, size, now);
  }

  /** A snapshot of a well-formed registry lists only active IDs. */
  lemma SnapshotOnlyActive(reg: Registry, snapshot: seq<Entry>, id: string)
    requires WellFormed(reg)
    requires IsPermutationOfValues(snapshot, reg.active)
    requires id !in reg.active
    ensures forall i | 0 <= i < |snapshot| :: snapshot[i].id != id
  {
    var ks :| IsKeyOrder(ks, reg.active) && multiset(snapshot) == multiset(ValuesAlong(reg.active, ks));
    forall i | 0 <= i < |snapshot|
      ensures snapshot[i].id != id
    {
      ListedEntryIsActive(reg, ks, snapshot[i]);
    }
  }

  lemma ListedEntryIsActive(reg: Registry, ks: seq<string>, e: Entry)
    requires KeyedById(reg.active)
    requires forall i | 0 <= i < |ks| :: ks[i] in reg.active
    requires e in multiset(ValuesAlong(reg.active, ks))
    ensures e.id in reg.active
  {
    ValueIsActive(reg.active, ks, ValuesAlong(reg.active, ks), e);
  }

  lemma ValueIsActive(active: map<string, Entry>, ks: seq<string>, vs: seq<Entry>, e: Entry)
    requires KeyedById(active)
    requires |vs| == |ks|
    requires forall i | 0 <= i < |ks| :: ks[i] in active && vs[i] == active[ks[i]]
    requires e in multiset(vs)
    ensures e.id in active
  {
    assert e in vs;
    var k :| 0 <= k < |vs| && vs[k] == e;
    assert e == active[ks[k]];
  }

  /** Every active download ends: it has a running goroutine, and whatever
      the outcome, the goroutine's next event removes the entry unless it
      opens its file, after which its finish removes it. */
  lemma FinishRemovesEntry(env: Env, w: Web, id: string, fetch: Fetch, created: bool, copy: Copy, now: int)
    requires Inv(env, w)
    requires id in w.registry.active
    ensures id in w.running
    ensures id in w.outputs ==> id !in Step(env, w, Finished(id, copy, now)).registry.active
    ensures id !in w.outputs && !OpensFile(fetch, created) ==>
              id !in Step(env, w, Opened(id, fetch, created)).registry.active
    ensures id !in w.outputs && OpensFile(fetch, created) ==>
              var w1 := Step(env, w, Opened(id, fetch, created));
              id in w1.outputs && id !in Step(env, w1, Finished(id, copy, now)).registry.active
  {
    assert id in w.running;
    if id in w.outputs {
      FinishedJobLeavesRegistry(env, w, id, copy, now);
    } else if OpensFile(fetch, created) {
      var path := env.join(OutputName(env, w.disk, w.running[id].url));
      var w1 := w.(registry := AttachOutput(w.registry, id, path, fetch.contentLength),
                   disk := w.disk + {path}, outputs := w.outputs[id := path]);
      assert Step(env, w, Opened(id, fetch, created)) == w1;
      FinishedJobLeavesRegistry(env, w1, id, copy, now);
    } else {
      assert Step(env, w, Opened(id, fetch, created)) == w.(registry := Release(w.registry, id), running := w.running - {id});
    }
  }

  lemma FinishedJobLeavesRegistry(env: Env, w: Web, id: string, copy: Copy, now: int)
    requires id in w.running && id in w.outputs && w.running[id].id == id
    ensures id !in Step(env, w, Finished(id, copy, now)).registry.active
  {
    StepFinished(env, w, id, copy, now);
  }

  /** A failed transfer leaves history unchanged: a failed open adds no
      file, and a failed copy removes the file it created. */
  lemma FailedTransferLeavesNoTrace(env: Env, w: Web, id: string, fetch: Fetch, created: bool, now: int)
    requires id in w.running
    ensures id !in w.outputs && !OpensFile(fetch, created) ==>
              var w' := Step(env, w, Opened(id, fetch, created));
              w'.history == w.history && w'.disk == w.disk
    ensures id in w.outputs ==>
              var w' := Step(env, w, Finished(id, CopyFailed, now));
              w'.history == w.history && w'.disk <= w.disk && w.outputs[id] !in w'.disk
  {
  }

  /** A successful transfer makes its URL a duplicate, so a later submit of
      the same URL is rejected and leaves the registry alone. */
  lemma FinishedUrlIsRejected(env: Env, w: Web, id: string, size: nat, now: int, later: int)
    requires id in w.running && id in w.outputs
    ensures var w' := Step(env, w, Finished(id, Copied(size), now));
            var w'' := Step(env, w', Submit(w.running[id].url, later));
            && IsDuplicate(env, w'.history, w.running[id].url)
            && w''.registry == w'.registry
            && w''.running == w'.running
  {
    var job := w.running[id];
    var path := w.outputs[id];
    StepFinished(env, w, id, Copied(size), now);
    var copied := CopyBody(w.disk, path, Copied(size));
    assert copied.0 == Success(Done(path, size));
    var completed := Complete(w.history, w.registry, job, copied.0, now);
    var w' := Web(completed.0, completed.1, copied.1, w.running - {id}, w.outputs - {id});
    assert completed.0 == RecordCompletion(w.history, job.url, job.name, path, size, now);
    RecordedIsDuplicate(env, w.history, job.url, job.name, path, size, now);
    var started := Start(env, w'.history, w'.registry, job.url, later);
    assert started.0 == w'.registry && started.1.AlreadyDownloaded?;
  }

  /** Two submits of the same new URL before either finishes are both
      accepted, under different IDs: dedup only consults history. */
  lemma RacingSubmitsBothAccepted(env: Env, w: Web, u: string, t1: int, t2: int)
    requires !IsDuplicate(env, w.history, u)
    ensures var (r1, o1) := Start(env, w.history, w.registry, u, t1);
            var (r2, o2) := Start(env, w.history, r1, u, t2);
            && o1.Accepted? && o2.Accepted?
            && o1.job.id != o2.job.id
            && o1.job.id in r2.active && o2.job.id in r2.active
  {
    var n := w.registry.nextID;
    ParseIdFor(n + 1);
    ParseIdFor(n + 2);
  }
}
