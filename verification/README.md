# Download manager bookkeeping, modelled in Dafny

This project models the bookkeeping core of a small Go download utility (`main.go`). The utility fetches URLs over HTTP, saves each body to a file, and records every download in a JSON history. Two indices back that history: URL → record (`Downloads`) and derived file name → URL (`DownloadedFiles`). Both indices serve to refuse re-downloads. There are two front ends. A CLI handles a batch of URLs one after another. A web UI runs downloads concurrently in a registry of active downloads, which can be polled, cancelled and listed.

The model covers:

* **Fingerprinting** (`naming.dfy`, with `encoding.dfy` and `pathnames.dfy`):
  * `urlHash` is the hex encoding of the first 8 bytes of SHA-256.
  * `filenameFromURL` is the last path element, with the hash as the fallback.
  * The on-disk collision rename is `base_hash.ext`.
  * Go's `filepath.Base`, `filepath.Ext`, `strings.TrimSuffix`, `hex.EncodeToString` and `%d` are written out for a Unix host. This lets the rename's properties be proved instead of assumed.
* **History store** (`history.dfy`):
  * loading, including the legacy migration that rebuilds the file-name index;
  * the dedup test;
  * recording a completion;
  * the consistency of the two indices.
* **Transfer** (`transfer.dfy`): both `downloadFile` variants, with the network outcome, the create outcome and the copy outcome given as inputs. The disk is the set of paths that exist.
* **Active registry** (`registry.dfy`): `startDownload`, `updateProgress`, the output-path update a web transfer makes, the goroutine's completion, and `cancelDownload`. Each is a pure state transition with frame conditions.
* **Snapshots** (`snapshots.dfy`): `getActiveDownloads` (oldest first) and `getHistory` (newest first). Each is a permutation of a map's values, sorted.
* **Web manager** (`webmanager.dfy`): the web front end as a sequential state machine over five events: submit, open, progress, finish and cancel. Each goroutine is a running job that opens once and finishes once.
  * The open event fetches, chooses the output name against the disk as it is at that moment, creates the file, and records its path in the entry.
  * The finish event ends the copy, writes history if the copy completed, and removes the entry.
  * Every locked section of the Go code lies inside one event. Some events merge steps that the Go code runs without the lock; "Left out" lists them.
  * The invariant ties registry entries to running jobs, to issued IDs and to their output files.
* **CLI loop** (`cli.dfy`): one iteration of the batch loop and the whole batch.

Library services that the model does not reimplement are fields of `Naming.Env`:

* SHA-256;
* `url.Parse`, reduced to "error, or the URL's path";
* `filepath.Join(outputDir, ·)`.

The clock is an integer parameter `now`.

Three behaviours of the code that are easy to miss, which the model keeps:

* `filepath.Base` never returns `""`, so the `filename == ""` test in `filenameFromURL` (main.go:172) can never be true. `PathNames.Base` proves this.
* A job cancelled after its copy already succeeded still writes its history record. The completion goroutine does not check for cancellation (main.go:399-413). `WebManager.CancelledCopyStillRecorded` shows the cancelled file gone from disk while history records its path.
* Two racing submits of the same new URL are both accepted (`WebManager.RacingSubmitsBothAccepted`).

## Model

| member | source | states |
|---|---|---|
| Encoding.HexEncode | main.go:152-155 | the hex text of n bytes is exactly 2n characters, all lower-case hex digits |
| Encoding.HexRoundTrip | main.go:152-155 | decoding the hex text of any byte string gives that byte string back |
| Encoding.HexDecodeInverse | main.go:152-155 | any text that decodes is the encoding of what it decodes to |
| Encoding.EvenHexDecodes | main.go:152-155 | every even-length text of lower-case hex digits decodes and re-encodes to itself, so with HexEncode and HexDecodeInverse the encoding is a bijection onto exactly those texts |
| Encoding.Decimal | main.go:382 | the numeral is non-empty and all digits; it starts with '0' only for 0, and 0 prints as "0" |
| Encoding.DecimalRoundTrip | main.go:382 | parsing the numeral printed for n gives n |
| Encoding.DecimalInjective | main.go:382 | two numbers print the same numeral exactly when they are equal |
| PathNames.Base | main.go:171-172 | Base never returns the empty string, and it contains a separator only when it is "/" itself |
| PathNames.BaseOfSplit | main.go:171 | when a path is prefix (empty or ending in '/'), a non-empty slash-free element, then slashes only, Base returns that element |
| PathNames.BaseIsLastElement | main.go:171-172 | Base of "" is "."; of a path of slashes only it is "/"; any other path splits around its Base as in BaseOfSplit |
| PathNames.Ext | main.go:200 | the extension is empty or a suffix of the name that starts with '.' and contains no other '.' and no '/' |
| PathNames.TrimSuffix | main.go:201 | removing a suffix that is present leaves the part before it; a suffix that is absent leaves the string unchanged |
| PathNames.ExtOfExtended | main.go:202 | anything followed by an extension has that extension |
| PathNames.ExtOfPlainAppend | main.go:202 | appending characters other than '.' and '/' to a name without an extension leaves it without one |
| Naming.UrlHash | main.go:152-155 | the hash is 16 lower-case hex characters and decodes back to exactly the first 8 bytes of the URL's SHA-256 |
| Naming.FilenameFromURL | main.go:165-177 | the derived name is never "", "." or "/", and never contains a separator |
| Naming.FilenameIsLastElement | main.go:165-177 | when the URL parses to a path whose last element is e, the name is e; when e is ".", the name is the URL's hash |
| Naming.FilenameFallsBackToHash | main.go:166-174 | an unparseable URL, or one whose path is empty or all slashes, gets the URL's hash as its name |
| Naming.Disambiguate | main.go:199-203 | the renamed file is 17 characters longer, differs from the original, keeps its extension, holds "_" + hash just before the extension, and deleting those 17 characters gives the original |
| Naming.InsertHashKeepsExt | main.go:200-202 | base + ext is the original name, and inserting "_" + hash between them keeps the extension |
| Naming.OutputName | main.go:195-203 | a name not on disk is used unchanged; a name already on disk is replaced by its base, "_" and the URL's hash, then its extension, which is a different name, 17 characters longer, with the same extension |
| HistoryStore.Migrate | main.go:131-139 | the rebuilt index has exactly one key per derived name of a downloaded URL, and each key maps to a downloaded URL that derives it |
| HistoryStore.Load | main.go:106-142 | a missing file gives an empty history with no save needed; read and decode errors are errors; URL records without a file-name index are migrated and flagged for saving; anything else is returned unchanged with no save needed |
| HistoryStore.MigratedIsConsistent | main.go:131-139 | after migration the two indices agree in both directions |
| HistoryStore.RecordCompletion | main.go:404-411 | the URL's record holds the final path, completion time and size; the derived name maps to the URL; every other entry of both indices is unchanged |
| HistoryStore.RecordingKeepsConsistent | main.go:404-411 | recording a URL under its own derived name keeps the indices consistent |
| HistoryStore.RecordedIsDuplicate | main.go:366-376 | a URL is a duplicate once it has been recorded |
| HistoryStore.RecordingKeepsDuplicates | main.go:404-411 | recording never makes a duplicate stop being one |
| HistoryStore.DuplicateByName | main.go:366-376 | in a consistent history a URL is a duplicate exactly when its derived name is indexed |
| Transfer.OpenOutput | main.go:308-336 | the file is opened exactly on status 200 with a successful create, under the output name chosen against the current disk, and the disk gains exactly that path; a request error, a non-200 status and a failed create are reported as such and leave the disk unchanged |
| Transfer.CopyBody | main.go:354-362 | the copy succeeds exactly when the body was copied in full, reporting the output path and byte count with the disk unchanged; a failed copy reports a write error and removes the output file, touching no other path |
| Transfer.DownloadFile | main.go:179-229 | success happens exactly on status 200 with a created file and a completed copy; a success adds exactly its output file and reports the copied size; a failure leaves no new file on disk; request errors and bad statuses leave the disk unchanged |
| Transfer.SameNameIsRenamed | main.go:324-331 | once one URL has been written under a name, a second URL that derives the same name is written under a different name |
| ActiveRegistry.IdFor | main.go:382 | an ID is "dl-" followed by a non-empty run of digits |
| ActiveRegistry.ParseIdFor | main.go:381-382 | the number of ID "dl-n" reads back as n |
| ActiveRegistry.Start | main.go:365-390 | the start is rejected exactly when the URL or its derived name is in history, and a rejection leaves the registry unchanged; an accepted start raises nextID by one, returns "dl-" + nextID, and adds exactly one entry (its URL, the pre-rename name, start time, zero progress) without touching the others |
| ActiveRegistry.StartIdIsFresh | main.go:380-383 | the ID of an accepted start is not already in the registry and was never issued before |
| ActiveRegistry.StartKeepsWellFormed | main.go:380-390 | after a start, every entry is still filed under its own ID and every ID is still numbered between 1 and nextID |
| ActiveRegistry.UpdateProgress | main.go:271-279 | an unknown ID changes nothing; a known one has only its progress, total and speed replaced |
| ActiveRegistry.AttachOutput | main.go:338-352 | a known entry gets its output path, Base of that path as its file name, and zero progress of the advertised length; nothing else changes, and an unknown ID changes nothing |
| ActiveRegistry.Release | main.go:393-397 | the entry is gone whether or not it was there; nextID and every other entry are unchanged |
| ActiveRegistry.Complete | main.go:392-413 | the job's entry is removed whatever the outcome, and nothing else in the registry changes; a failure leaves history unchanged; a success records the URL with the final path and the pre-rename name |
| ActiveRegistry.Cancel | main.go:419-431 | an unknown ID changes nothing; a known one loses only its entry, and its partial file is removed from disk if it had one |
| Snapshots.Insert | main.go:265-267 | inserting into a sorted sequence keeps it sorted and adds exactly that element |
| Snapshots.SortBy | main.go:265-267 | the result is a permutation of the input, sorted by the key |
| Snapshots.CollectValues | main.go:260-263 | the collected values are a permutation of the map's values, one per key in some order of its keys, so every value appears |
| Snapshots.ValuesAlongKeyOrder | main.go:260-263 | reading a map's values along an order of its keys that lists each key once yields a permutation of its values that contains each of them |
| Snapshots.ActiveDownloads | main.go:256-269 | the snapshot is a permutation of the registry's entries, ordered by start time with the oldest first |
| Snapshots.HistoryList | main.go:433-446 | the list is a permutation of the URL index's records, ordered by completion time with the newest first |
| WebManager.Step | main.go:365-431 | only a finish event changes history; apart from a submit, no event adds a running job or issues an ID |
| WebManager.InitSatisfiesInv | main.go:609-614 | the server's initial state satisfies the manager invariant |
| WebManager.StepKeepsInv | main.go:365-431 | every event preserves the invariant: entries are filed under issued IDs, every entry belongs to a running job for the same URL, only running jobs have output files, and an entry shows its job's output path once there is one |
| WebManager.SubmitKeepsInv | main.go:365-390 | a submit preserves the invariant |
| WebManager.ProgressKeepsInv | main.go:271-279 | a progress report preserves the invariant |
| WebManager.OpenedKeepsInv | main.go:324-352 | a goroutine's open preserves the invariant, whether it creates its file or ends |
| WebManager.ReshapedEntriesKeepInv | main.go:271-279 | changing entry fields other than ID, URL and output path, with the key set and nextID unchanged, preserves the invariant |
| WebManager.FinishedKeepsInv | main.go:392-413 | a goroutine finishing preserves the invariant |
| WebManager.CancelKeepsInv | main.go:419-431 | a cancel preserves the invariant |
| WebManager.StepKeepsConsistent | main.go:404-411 | no event breaks the agreement between the two history indices |
| WebManager.GoneStaysGone | main.go:380-383 | an issued ID that is no longer active never becomes active again |
| WebManager.CancelRemoves | main.go:419-431 | after a cancel the ID is not active, and its recorded partial file is not on disk |
| WebManager.CancelRemovesCreatedFile | main.go:419-431 | cancelling an active download whose goroutine has created its file removes that file from disk |
| WebManager.CancelledCopyStillRecorded | main.go:399-413 | a copy that completes after its download was cancelled leaves the file gone from disk, yet history records the URL with that path |
| WebManager.OpenedCreatesOutput | main.go:324-352 | a successful open puts the file chosen against the current disk on disk, and the entry shows that path with zero progress of the advertised length; a failed open removes the job and its entry and leaves history and disk unchanged |
| WebManager.SecondOpenIsRenamed | main.go:324-336 | when two running jobs derive the same name, the first to open gets that name and the second gets a different one |
| WebManager.SnapshotOnlyActive | main.go:256-269 | a snapshot of the registry contains no entry with an inactive ID, so a cancelled download is never listed |
| WebManager.ListedEntryIsActive | main.go:260-263 | every entry collected from the registry carries the ID of an active download |
| WebManager.FinishRemovesEntry | main.go:392-402 | every active entry has a running goroutine; a failed open removes the entry, and after a successful open the finish removes it whatever the copy's outcome |
| WebManager.FinishedJobLeavesRegistry | main.go:393-397 | a finished job's ID is absent from the registry afterwards |
| WebManager.FailedTransferLeavesNoTrace | main.go:399-402 | a failed open leaves history and disk unchanged; a failed copy leaves history unchanged and removes the file it created without adding any |
| WebManager.FinishedUrlIsRejected | main.go:366-376 | after a successful transfer of a URL, submitting that URL again is rejected and changes neither the registry nor the running jobs |
| WebManager.RacingSubmitsBothAccepted | main.go:365-390 | two submits of the same new URL before either finishes are both accepted, under different IDs |
| Cli.Step | main.go:753-795 | an empty URL is passed over and no other URL is; without force, a URL is skipped exactly when it is a duplicate, and skipped by URL exactly when it is in the URL index; a skip changes nothing; otherwise the URL is saved exactly on status 200 with a created file and a completed copy, and the disk is what the transfer leaves; a failure adds nothing to history or disk; a save adds exactly its output file and records the URL under its derived name with the transfer's path and size |
| Cli.Run | main.go:753-795 | the batch yields one status per URL, and the history indices only gain keys |
| Cli.RunRecordsSavedUrls | main.go:782-787 | the URL index gains exactly the URLs the batch saved |
| Cli.RunRecordsSavedNames | main.go:788 | the file-name index gains exactly the derived names of the URLs the batch saved |
| Cli.StepAddsKeys | main.go:782-788 | one iteration adds its URL and derived name to the indices exactly when it saves the URL |
| Cli.RunUnfold | main.go:753 | a batch is its first iteration followed by the rest of the batch |
| Cli.AgreesWithWeb | main.go:762-773 | without force, the CLI skips a URL exactly when startDownload would reject it, and it records a success exactly as the web completion does |
| Cli.StepKeepsDuplicate | main.go:762-788 | one iteration never makes a duplicate stop being one, and it skips that URL when not forced |
| Cli.SavedIsDuplicate | main.go:782-788 | a URL the CLI has just saved is a duplicate |
| Cli.DuplicateStaysSkipped | main.go:753-795 | once a URL is a duplicate it stays one for the rest of the batch, and without force every later occurrence of it is skipped |
| Cli.NoRedownloadInBatch | main.go:753-795 | without force, a URL saved at one position of a batch is skipped at every later position |

## Left out

- HTTP: building and sending the request, status text, response streaming (`http.DefaultClient.Do`, `io.Copy`, `TeeReader`). The model takes their outcomes as the inputs `Fetch` and `Copy`. Cancelling a context shows up as a failed request or a failed copy; the model forces neither.
- The filesystem: `os.Stat` succeeds exactly when the path is in the disk set, and other Stat errors are not distinguished. `os.Create`'s outcome is an input. `Remove` and a successful write are set difference and set union. `MkdirAll` is not modelled.
- JSON encoding and decoding of the history file, and `saveHistory`. Library serialisation is not modelled; `HistoryFile` is what decoding produced, with absent or null fields as empty maps. A failed save is logged by the CLI (main.go:790-792, 707-709) and silently ignored by the web goroutine (main.go:412); either way the in-memory state is unaffected.
- SHA-256, `url.Parse` and `filepath.Join`: these are uninterpreted functions in `Naming.Env`.
- Transfer.SameNameIsRenamed and WebManager.SecondOpenIsRenamed compare output names, not paths: `Env.join` is not assumed injective, so the model does not promise that two different names give two different files.
- The request outcome `Fetch` is not linked to `Env.parsePath`. In Go, `http.NewRequestWithContext` parses the URL too (main.go:180-183, 309-312), so a URL that fails to parse is never saved; the model allows a response for it.
- Go strings are byte strings, and an unescaped URL path may hold invalid UTF-8; here `string` is a sequence of characters. `Base` and `Ext` split only at the ASCII characters '/' and '.', so no property depends on the difference.
- Goroutines, the two `RWMutex`es, `context` cancellation, `setCurrentDownload` and the signal-driven `cleanupCurrentDownload`: this is concurrency plumbing. Each locked section lies inside one event of `WebManager.Step`.
- WebManager.Step: the `Opened` event merges one goroutine's `os.Stat`, `os.Create`, output-path update and first progress report. The race in which two goroutines deriving the same name both `Stat` before either `Create`s, so that both write to one path, is not modelled; in the model the second open always sees the first file.
- WebManager.Step: the `Submit` event merges `startDownload`'s history check and its registry insertion, which are two separate locked sections. A finish between them has the same effect as a finish after the submit.
- WebManager.Step: the `Finished` event merges the end of `io.Copy`, the history section and the deferred removal of the entry. A cancel between those steps is modelled only as a cancel before the whole event, which has the same effect on disk, history and registry.
- `WebProgressWriter.Write` (throughput as a float division over elapsed time), `ProgressWriter`, `printProgress` and `formatBytes`: these are float arithmetic and display output. Progress values arrive as plain inputs to `UpdateProgress`.
- The HTML/JS page, the HTTP handlers, flag parsing, reading URLs from stdin, the whitespace cleanup of URLs, the `-list` mode and all console output: these are front-end glue. `Cli.Step` takes an already cleaned URL.
- The unused helper `keys` (main.go:157-163).
- Integer widths: `nextID` (Go `int`), sizes and progress (`int64`) are unbounded integers, because overflow needs more than 2^63 downloads or bytes. Times are integers ordered like `time.Time`.
- Snapshots.ActiveDownloads: Go's `sort.Slice` is not stable, so equal start times may come out in any order. The model fixes one such order, and its contract allows any.
