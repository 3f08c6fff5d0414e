/** The CLI front end's batch loop in `main`: URLs are handled one after
    another, each skipped by the same dedup test as the web front end
    (unless forced), downloaded, and recorded in history on success. */
module Cli {
  import opened Wrappers
  import opened Naming
  import opened HistoryStore
  import opened Transfer
  import opened ActiveRegistry

  /** What happens when the loop downloads one URL: the request, create and
      copy outcomes and the clock reading at completion. */
  datatype Attempt = Attempt(fetch: Fetch, created: bool, copy: Copy, now: int)

  datatype Status =
    | Blank
    | SkipSameUrl(filename: string)
    | SkipAlreadyHave(name: string)
    | Failed(error: TransferError)
    | Saved(path: string, size: nat)

  predicate IsSkip(st: Status) {
    st.SkipSameUrl? || st.SkipAlreadyHave?
  }

  /** One iteration of the loop over an already cleaned URL: an empty URL
      is passed over; a duplicate is skipped (URL test first) unless
      forced; otherwise the transfer runs and a success is recorded under
      the derived name. */
  function Step(env: Env, h: History, disk: set<string>, force: bool, u: string, a: Attempt)
    : (r: (History, set<string>, Status))
    ensures u == "" ==> r == (h, disk, Blank)
    ensures u != "" ==> !r.2.Blank?
    ensures u != "" && !IsSkip(r.2) ==>
              && (r.2.Saved? <==> a.fetch.Response? && a.fetch.status == StatusOK && a.created && a.copy.Copied?)
              && r.1 == DownloadFile(env, disk, u, a.fetch, a.created, a.copy).1
    ensures u != "" ==> (IsSkip(r.2) <==> !force && IsDuplicate(env, h, u))
    ensures r.2.SkipSameUrl? <==> u != "" && !force && u in h.downloads
    ensures IsSkip(r.2) ==> r.0 == h && r.1 == disk
    ensures r.2.Failed? ==> r.0 == h && r.1 <= disk
    ensures r.2.Saved? ==>
              && r.2.path == env.join(OutputName(env, disk, u))
              && a.copy == Copied(r.2.size)
              && r.1 == disk + {r.2.path}
              && r.0 == RecordCompletion(h, u, FilenameFromURL(env, u), r.2.path, r.2.size, a.now)
  {
    if u == "" then (h, disk, Blank)
    else if u in h.downloads && !force then (h, disk, SkipSameUrl(h.downloads[u].filename))
    else
      var name := FilenameFromURL(env, u);
      if name in h.files && !force then (h, disk, SkipAlreadyHave(name))
      else
        var (result, disk') := DownloadFile(env, disk, u, a.fetch, a.created, a.copy);
        match result
        case Failure(e) => (h, disk', Failed(e))
        case Success(done) =>
          (RecordCompletion(h, u, name, done.path, done.size, a.now), disk', Saved(done.path, done.size))
  }

  /** The whole batch, in order. */
  function Run(env: Env, h: History, disk: set<string>, force: bool, urls: seq<string>, attempts: seq<Attempt>)
    : (r: (History, set<string>, seq<Status>))
    requires |urls| == |attempts|
    ensures |r.2| == |urls|
    ensures h.downloads.Keys <= r.0.downloads.Keys && h.files.Keys <= r.0.files.Keys
    decreases |urls|
  {
    if urls == [] then (h, disk, [])
    else
      var first := Step(env, h, disk, force, urls[0], attempts[0]);
      var rest := Run(env, first.0, first.1, force, urls[1..], attempts[1..]);
      StepAddsKeys(env, h, disk, force, urls[0], attempts[0]);
      (rest.0, rest.1, [first.2] + rest.2)
  }

  /** The batch adds to the URL index exactly the URLs it saved. */
  lemma {:induction false} RunRecordsSavedUrls(env: Env, h: History, disk: set<string>, force: bool,
                                               urls: seq<string>, attempts: seq<Attempt>)
    requires |urls| == |attempts|
    ensures var r := Run(env, h, disk, force, urls, attempts);
            r.0.downloads.Keys == h.downloads.Keys + (set k | 0 <= k < |urls| && r.2[k].Saved? :: urls[k])
    decreases |urls|
  {
    if urls != [] {
      var first := Step(env, h, disk, force, urls[0], attempts[0]);
      var rest := Run(env, first.0, first.1, force, urls[1..], attempts[1..]);
      RunUnfold(env, h, disk, force, urls, attempts);
      StepAddsKeys(env, h, disk, force, urls[0], attempts[0]);
      RunRecordsSavedUrls(env, first.0, first.1, force, urls[1..], attempts[1..]);
      SavedUrlsSplit(urls, [first.2] + rest.2);
    }
  }

  /** The batch adds to the file-name index exactly the names derived from
      the URLs it saved. */
  lemma {:induction false} RunRecordsSavedNames(env: Env, h: History, disk: set<string>, force: bool,
                                                urls: seq<string>, attempts: seq<Attempt>)
    requires |urls| == |attempts|
    ensures var r := Run(env, h, disk, force, urls, attempts);
            r.0.files.Keys == h.files.Keys + (set k | 0 <= k < |urls| && r.2[k].Saved? :: FilenameFromURL(env, urls[k]))
    decreases |urls|
  {
    if urls != [] {
      var first := Step(env, h, disk, force, urls[0], attempts[0]);
      var rest := Run(env, first.0, first.1, force, urls[1..], attempts[1..]);
      RunUnfold(env, h, disk, force, urls, attempts);
      StepAddsKeys(env, h, disk, force, urls[0], attempts[0]);
      RunRecordsSavedNames(env, first.0, first.1, force, urls[1..], attempts[1..]);
      SavedNamesSplit(env, urls, [first.2] + rest.2);
    }
  }

  /** One iteration adds a URL and its derived name to the indices exactly
      when it saves that URL. */
  lemma StepAddsKeys(env: Env, h: History, disk: set<string>, force: bool, u: string, a: Attempt)
    ensures var r := Step(env, h, disk, force, u, a);
            && r.0.downloads.Keys == h.downloads.Keys + (if r.2.Saved? then {u} else {})
            && r.0.files.Keys == h.files.Keys + (if r.2.Saved? then {FilenameFromURL(env, u)} else {})
  {
  }

  /** The saved URLs of a batch: its first URL, if saved, and those of
      the rest of the batch. */
  lemma SavedUrlsSplit(urls: seq<string>, sts: seq<Status>)
    requires |urls| == |sts| > 0
    ensures (set k | 0 <= k < |urls| && sts[k].Saved? :: urls[k])
            == (if sts[0].Saved? then {urls[0]} else {})
               + (set k | 0 <= k < |urls| - 1 && sts[1..][k].Saved? :: urls[1..][k])
  {
    var tail := set k | 0 <= k < |urls| - 1 && sts[1..][k].Saved? :: urls[1..][k];
    forall k | 0 <= k < |urls| && sts[k].Saved? && k > 0
      ensures urls[k] in tail
    {
      assert sts[1..][k - 1].Saved? && urls[k] == urls[1..][k - 1];
    }
    forall x | x in tail
      ensures exists k | 0 <= k < |urls| :: sts[k].Saved? && x == urls[k]
    {
      var k :| 0 <= k < |urls| - 1 && sts[1..][k].Saved? && x == urls[1..][k];
      assert sts[k + 1].Saved? && x == urls[k + 1];
    }
  }

  /** The derived names of the saved URLs of a batch, split the same way. */
  lemma SavedNamesSplit(env: Env, urls: seq<string>, sts: seq<Status>)
    requires |urls| == |sts| > 0
    ensures (set k | 0 <= k < |urls| && sts[k].Saved? :: FilenameFromURL(env, urls[k]))
            == (if sts[0].Saved? then {FilenameFromURL(env, urls[0])} else {})
               + (set k | 0 <= k < |urls| - 1 && sts[1..][k].Saved? :: FilenameFromURL(env, urls[1..][k]))
  {
    var tail := set k | 0 <= k < |urls| - 1 && sts[1..][k].Saved? :: FilenameFromURL(env, urls[1..][k]);
    forall k | 0 <= k < |urls| && sts[k].Saved? && k > 0
      ensures FilenameFromURL(env, urls[k]) in tail
    {
      assert sts[1..][k - 1].Saved? && urls[k] == urls[1..][k - 1];
    }
    forall x | x in tail
      ensures exists k | 0 <= k < |urls| :: sts[k].Saved? && x == FilenameFromURL(env, urls[k])
    {
      var k :| 0 <= k < |urls| - 1 && sts[1..][k].Saved? && x == FilenameFromURL(env, urls[1..][k]);
      assert sts[k + 1].Saved? && urls[1..][k] == urls[k + 1];
    }
  }

  lemma RunUnfold(env: Env, h: History, disk: set<string>, force: bool, urls: seq<string>, attempts: seq<Attempt>)
    requires |urls| == |attempts| && urls != []
    ensures var first := Step(env, h, disk, force, urls[0], attempts[0]);
            var rest := Run(env, first.0, first.1, force, urls[1..], attempts[1..]);
            Run(env, h, disk, force, urls, attempts) == (rest.0, rest.1, [first.2] + rest.2)
  {
  }

  /** The CLI and the web front end agree: without force a non-empty URL is
      skipped exactly when startDownload would reject it, and a successful
      download is recorded exactly as the web goroutine records it. */
  lemma AgreesWithWeb(env: Env, h: History, disk: set<string>, reg: Registry, u: string, a: Attempt, t: int)
    requires u != ""
    ensures var cli := Step(env, h, disk, false, u, a);
            var web := Start(env, h, reg, u, t);
            && (IsSkip(cli.2) <==> web.1.AlreadyDownloaded?)
            && (cli.2.Saved? && web.1.Accepted? ==>
                  cli.0 == Complete(h, reg, web.1.job, Success(Done(cli.2.path, cli.2.size)), a.now).0)
  {
  }

  /** Once a URL is a duplicate it stays one for the rest of the batch, and
      without force every later occurrence of it is skipped. */
  lemma {:induction false} DuplicateStaysSkipped(env: Env, h: History, disk: set<string>, force: bool,
                                                 urls: seq<string>, attempts: seq<Attempt>, v: string)
    requires |urls| == |attempts|
    requires IsDuplicate(env, h, v)
    ensures IsDuplicate(env, Run(env, h, disk, force, urls, attempts).0, v)
    ensures !force && v != "" ==>
              forall k | 0 <= k < |urls| && urls[k] == v :: IsSkip(Run(env, h, disk, force, urls, attempts).2[k])
    decreases |urls|
  {
    if urls != [] {
      var first := Step(env, h, disk, force, urls[0], attempts[0]);
      StepKeepsDuplicate(env, h, disk, force, urls[0], attempts[0], v);
      DuplicateStaysSkipped(env, first.0, first.1, force, urls[1..], attempts[1..], v);
      RunUnfold(env, h, disk, force, urls, attempts);
    }
  }

  lemma StepKeepsDuplicate(env: Env, h: History, disk: set<string>, force: bool, u: string, a: Attempt, v: string)
    requires IsDuplicate(env, h, v)
    ensures IsDuplicate(env, Step(env, h, disk, force, u, a).0, v)
    ensures !force && v != "" && u == v ==> IsSkip(Step(env, h, disk, force, u, a).2)
  {
    var r := Step(env, h, disk, force, u, a);
    if r.2.Saved? {
      RecordingKeepsDuplicates(env, h, v, u, FilenameFromURL(env, u), r.2.path, r.2.size, a.now);
    }
  }

  /** Without force, a URL saved once in a batch is skipped at every later
      position of the same batch. */
  lemma {:induction false} NoRedownloadInBatch(env: Env, h: History, disk: set<string>,
                                               urls: seq<string>, attempts: seq<Attempt>, i: nat, j: nat)
    requires |urls| == |attempts|
    requires i < j < |urls| && urls[i] == urls[j]
    requires Run(env, h, disk, false, urls, attempts).2[i].Saved?
    ensures IsSkip(Run(env, h, disk, false, urls, attempts).2[j])
    decreases i
  {
    var first := Step(env, h, disk, false, urls[0], attempts[0]);
    RunStatusAt(env, h, disk, false, urls, attempts, i);
    RunStatusAt(env, h, disk, false, urls, attempts, j);
    if i == 0 {
      SavedIsDuplicate(env, h, disk, false, urls[0], attempts[0]);
      DuplicateStaysSkipped(env, first.0, first.1, false, urls[1..], attempts[1..], urls[0]);
      assert urls[1..][j - 1] == urls[0];
    } else {
      NoRedownloadInBatch(env, first.0, first.1, urls[1..], attempts[1..], i - 1, j - 1);
    }
  }

  /** The k-th status of a batch: the first iteration's, or the (k-1)-th of
      the rest of the batch run from the state the first one leaves. */
  lemma RunStatusAt(env: Env, h: History, disk: set<string>, force: bool,
                    urls: seq<string>, attempts: seq<Attempt>, k: nat)
    requires |urls| == |attempts| && k < |urls|
    ensures var first := Step(env, h, disk, force, urls[0], attempts[0]);
            var rest := Run(env, first.0, first.1, force, urls[1..], attempts[1..]);
            Run(env, h, disk, force, urls, attempts).2[k] == if k == 0 then first.2 else rest.2[k - 1]
  {
    RunUnfold(env, h, disk, force, urls, attempts);
  }

  lemma SavedIsDuplicate(env: Env, h: History, disk: set<string>, force: bool, u: string, a: Attempt)
    ensures var r := Step(env, h, disk, force, u, a);
            r.2.Saved? ==> IsDuplicate(env, r.0, u)
  {
    var r := Step(env, h, disk, force, u, a);
    if r.2.Saved? {
      RecordedIsDuplicate(env, h, u, FilenameFromURL(env, u), r.2.path, r.2.size, a.now);
    }
  }
}
