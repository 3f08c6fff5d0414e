/** The transfer executor shared by the CLI and the web front end
    (`downloadFile` and `WebDownloader.downloadFile`), with the network and
    the byte stream replaced by their outcomes. The disk is the set of paths
    that exist. */
module Transfer {
  import opened Wrappers
  import opened Naming

  /** Outcome of building and sending the GET request. */
  datatype Fetch = NoResponse | Response(status: int, contentLength: int)

  /** Outcome of streaming the body into the created file; a cancelled
      context surfaces here as a failure. */
  datatype Copy = Copied(size: nat) | CopyFailed

  datatype TransferError = RequestFailed | BadStatus(status: int) | CreateFailed | WriteFailed

  /** A finished transfer: the final output path and the bytes written. */
  datatype Done = Done(path: string, size: nat)

  const StatusOK := 200

  /** The first half of a transfer, up to and including `os.Create`:
      request, status check, output-name choice and create. On success the
      created (still empty) file is on disk; on failure nothing changes. */
  function OpenOutput(env: Env, disk: set<string>, u: string, fetch: Fetch, created: bool)
    : (r: (Result<string, TransferError>, set<string>))
    ensures r.0.Success? <==> fetch.Response? && fetch.status == StatusOK && created
    ensures r.0.Success? ==> r.0.value == env.join(OutputName(env, disk, u)) && r.1 == disk + {r.0.value}
    ensures r.0.Failure? ==> r.1 == disk
    ensures fetch.NoResponse? ==> r.0 == Failure(RequestFailed)
    ensures fetch.Response? && fetch.status != StatusOK ==> r.0 == Failure(BadStatus(fetch.status))
    ensures fetch.Response? && fetch.status == StatusOK && !created ==> r.0 == Failure(CreateFailed)
  {
    match fetch
    case NoResponse => (Failure(RequestFailed), disk)
    case Response(status, _) =>
      if status != StatusOK then (Failure(BadStatus(status)), disk)
      else
        var path := env.join(OutputName(env, disk, u));
        if created then (Success(path), disk + {path}) else (Failure(CreateFailed), disk)
  }

  /** The second half: streaming the body into the created file. A failed
      copy removes the partial file; a completed one leaves the disk as it
      is and reports the bytes written. */
  function CopyBody(disk: set<string>, path: string, copy: Copy): (r: (Result<Done, TransferError>, set<string>))
    ensures r.0.Success? <==> copy.Copied?
    ensures r.0.Success? ==> r.0.value == Done(path, copy.size) && r.1 == disk
    ensures r.0.Failure? ==> r.0.error == WriteFailed && path !in r.1 && r.1 + {path} == disk + {path}
  {
    match copy
    case Copied(size) => (Success(Done(path, size)), disk)
    case CopyFailed => (Failure(WriteFailed), disk - {path})
  }

  /** One whole transfer, the two halves back to back. Returns the result
      and the disk afterwards. A successful transfer adds exactly its
      output file; a failed one never leaves a new file behind. */
  function DownloadFile(env: Env, disk: set<string>, u: string, fetch: Fetch, created: bool, copy: Copy)
    : (r: (Result<Done, TransferError>, set<string>))
    ensures r.0.Success? <==> fetch.Response? && fetch.status == StatusOK && created && copy.Copied?
    ensures r.0.Success? ==>
              && r.0.value == Done(env.join(OutputName(env, disk, u)), copy.size)
              && r.1 == disk + {r.0.value.path}
    ensures r.0.Failure? ==> r.1 <= disk
    ensures fetch.NoResponse? ==> r == (Failure(RequestFailed), disk)
    ensures fetch.Response? && fetch.status != StatusOK ==> r == (Failure(BadStatus(fetch.status)), disk)
  {
    var first := OpenOutput(env, disk, u, fetch, created);
    match first.0
    case Failure(e) => (Failure(e), first.1)
    case Success(path) => CopyBody(first.1, path, copy)
  }

  /** Two URLs deriving the same name: once the first has been written
      under that name, the second is written under a different one. */
  lemma SameNameIsRenamed(env: Env, disk: set<string>, u1: string, u2: string, size: nat, fetch2: Fetch, created2: bool, copy2: Copy)
    requires FilenameFromURL(env, u1) == FilenameFromURL(env, u2)
    requires env.join(FilenameFromURL(env, u1)) !in disk
    ensures var first := DownloadFile(env, disk, u1, Response(StatusOK, -1), true, Copied(size));
            var second := DownloadFile(env, first.1, u2, fetch2, created2, copy2);
            && first.0 == Success(Done(env.join(FilenameFromURL(env, u1)), size))
            && OutputName(env, first.1, u2) != FilenameFromURL(env, u1)
            && (second.0.Success? ==> second.0.value.path == env.join(OutputName(env, first.1, u2)))
  {
  }
}
