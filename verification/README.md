# WiscFS in Dafny

WiscFS is an AFSv1-style distributed file system: clients cache whole files, write to the local
copy and send it to the server on close; a per-path logical clock on the server tells a client
whether its copy is still current. Under it lies a fault-injecting FUSE layer that is configured
by an INI file. This project models that system and proves what it promises.

Three parts, each in the form its source has:

* **The caching protocol.** `Protocol` is a state machine over one path: any number of clients,
  every remote call a separate step, an upload split where others can see it (rename, clock
  increment, the client's own entry). Ghost history (versions, their authors, the version each
  copy stems from, removals) feeds an inductive invariant. `Runs` draws the consequences for
  whole runs, `Sessions` the refinement to one plain local file, and `Necessity` shows for each
  hypothesis a run of the code that goes wrong without it, and exactly when it does. `GrpcServer`
  and `CacheClient` hold the server, the `Cache` objects and the handlers as classes and methods;
  `Calls` proves that any sequence of handler calls by any clients is, on every path, a run of
  that machine.
* **Transfer and replacement.** `Transfer` has the chunking loops with their 32-bit counters and
  proves upload, download and round trip exact; `AtomicReplace` interleaves uploads message by
  message on one disk, with crashes and with leftover temporary files. `StatusText` has the text
  form of the status cache.
* **The configuration.** `Ini` gives the text its meaning, `IniParser` is the parser on
  NUL-terminated buffers, in place, proved to have that meaning. `IniRoundTrip` says what
  documents of every kind of line mean without reference to the parser, and that parsing their
  text gives this back; `IniCoverage` that every text of complete lines is such a document.
  `InjectionQueue` is the queue the option handler builds, proved to be a map.

`Bytes` and `CText` hold positioned writes, the cut that `fputs` makes at a zero byte, and the
library functions on text. `dafny verify dfyconfig.toml` checks everything.

Assumptions, taken from POSIX.1-2017 System Interfaces and the deployment: `pwrite` writes all it
is given, `rename` is atomic, remote calls succeed unless an action says otherwise, uploads of the
same path do not overlap, a client finishes one call on a path before it starts the next, and the
path hash has no collisions. The protocol's rename stores the client's copy and nothing else; that
needs a server that started without temporary files and has not stopped in the middle of an
upload, and paths none of which is the `.TMP` of another. Both are hypotheses of the lemmas that
derive it, `AtomicReplace.ExactWithoutCrash` for uploads interleaved message by message and
`Calls.NoTempsBetweenCalls` for the handlers; `AtomicReplace.ReplacedExactlyIff` says what happens
without them. The remaining hypotheses of the protocol theorems are the predicate
`Protocol.Disciplined`: no close of a dirty empty file, no failed upload, removal only while no
client holds an entry.

What the proofs bring out about the code:

* A fetch does not advance the entry's clock (src/Cache.cpp:171). An entry's clock is therefore not
  the version it holds but the number of the client's own last upload, a lower bound; that makes
  the hit condition exact (`Runs.CacheHitIff`) and safe (`Runs.ClockIsUploadCount`).
* The rename comes before the clock increment (src/grpc-server.cpp:338-344). An open in between is
  a hit on the version just replaced (`Necessity.HitBetweenRenameAndBump`); `Runs.HitIsNewestIff`
  says from the run alone when a hit is on the newest version: in the gap of any upload but the
  first, never. Close-to-open therefore holds with "served" meaning the current file or, during
  that gap, its predecessor; uploads acknowledged before the call are always seen.
* Re-opening a dirty path may fetch over unsent writes (`Necessity.DirtyReopenLosesWrite`);
  `Runs.ReopenKeepsWritesIff` says exactly when, and `Runs.WritesReachServer` that without a fetch
  in between the writes arrive.
* Closing a dirty empty file stores an uninitialised clock; a failed upload still clears the dirty
  bit; removal restarts the clock under other clients' entries; a leftover temporary file shows
  through a shorter upload. Each has a concrete run and an if-and-only-if.
* The option handler returns -1 for an unknown section (src/unreliablefs_errinj.c:296), which the
  parser reads as accepted. `strchr` finds the terminator of its first argument, so an empty line
  takes the comment branch (src/conf.c:169).
* The comment on the status file (src/Cache.cpp:232-238) describes two fields; the code writes and
  reads four, and the model follows the code. The writer sits behind an early return
  (src/Cache.cpp:178), so the round trip is about the code behind it.

## Model

| member | source | states |
|---|---|---|
| Protocol.InitInv | src/Cache.cpp:43-46 | at start-up, with or without a file on the server, the invariant holds |
| Protocol.StepInv | src/cppWrapper.cpp:74-111 | every step of every handler and remote call keeps the clock/version invariant under the stated hypotheses |
| Protocol.ReachableInv | src/cppWrapper.cpp:74-416 | the invariant holds in every reachable state, over any clients, interleavings and delete/re-create cycles |
| Protocol.FetchInv | src/Cache.cpp:97-174 | a fetch keeps the invariant although it stores the snapshot's clock and not the server's |
| Protocol.SwapInv | src/grpc-server.cpp:334-343 | the rename of an upload keeps the invariant while the clock still lags behind |
| Protocol.BumpInv | src/grpc-server.cpp:344-347 | the clock increment brings clock and version count together again |
| Protocol.CreateInv | src/grpc-server.cpp:268-284 | createEmptyFile keeps the invariant, whether or not the file exists |
| Protocol.RemoveInv | src/grpc-server.cpp:254-266 | removal while nobody holds an entry keeps the invariant although the clock restarts at 0 |
| Protocol.OpenOutcome | src/cppWrapper.cpp:74-111 | open from any state: nothing changes without a file on the server or with an entry as recent as its clock; otherwise the cut file is fetched and the entry keeps dirty bit and clock, or starts clean with clock 0 |
| Protocol.CreateOutcome | src/cppWrapper.cpp:246-287 | create from any state: the same, a missing file being created empty and fetched, over an old entry too |
| Protocol.UnlinkOutcome | src/cppWrapper.cpp:182-201 | unlink from any state: an entry goes together with the cached file, without an entry that file stays; the server's file and clock are gone |
| Protocol.WriteOutcome | src/cppWrapper.cpp:301-333 | write from any state: positioned bytes, an existing entry becomes dirty with its clock, none is made |
| Protocol.CloseWithoutUploadOutcome | src/cppWrapper.cpp:358-369 | a failed or empty close: clean entry with the uninitialised clock, copy and server unchanged |
| Runs.ClockIsUploadCount | src/grpc-server.cpp:344-347 | in every reachable state the server clock is the number of counted uploads since the last removal, and entry clock <= version of the copy <= server clock (one more during the copy's own upload); a clean copy is that version whole if it is the client's own last upload, and cut at its first zero byte otherwise |
| Runs.CountedIsUploads | src/grpc-server.cpp:344-347 | the uploads the clock counts are, in order, those read off the run's actions |
| Runs.CacheHitIff | src/cppWrapper.cpp:83-101 | an open is served without a fetch if and only if the client has an entry and nothing was uploaded or the most recent counted upload was its own |
| Runs.HitIsNewestIff | src/Cache.cpp:49-53 | a hit is on the newest version if and only if no rename waits to be counted, or nothing has been uploaded before and the client fetched since that rename |
| Runs.CloseToOpen | src/cppWrapper.cpp:74-111 | when an open or create of a path that is not dirty returns, the copy is of a version served at some moment of the call, the cut of it if this or an earlier call fetched it and all of it if it is the client's own last upload, and not older than any upload counted before the attribute request; across removals |
| Runs.ReturnIsServed | src/cppWrapper.cpp:88-105 | the step with which an open returns, hit or fetch, leaves exactly what the client holds of a served version; after a fetch that is the cut of the server's file |
| Runs.HistoryGrows | src/grpc-server.cpp:334-349 | within one incarnation versions are only appended and the clock never falls |
| Runs.LastCloserWins | src/cppWrapper.cpp:354-370 | however sessions overlap, the server's file is byte for byte the whole copy of the client that uploaded last, and the clock grew by the number of uploads |
| Runs.FlushOnClose | src/cppWrapper.cpp:335-370 | after a write no close of that client finishes before its whole copy became the server's file; without a fetch since, that file is the old copy with this and all later writes applied in order |
| Runs.WritesReachServer | src/cppWrapper.cpp:301-370 | whatever others do, with no fetch by the client between a write and its upload the uploaded file is the copy before the write with it and the client's later writes applied in order |
| Runs.ReopenKeepsWritesIff | src/cppWrapper.cpp:74-111 | re-opening a dirty path is a hit if and only if nothing was uploaded or the most recent counted upload was the client's own; otherwise the unsent copy survives only if it is what the fetch stores |
| Runs.FlushOnce | src/cppWrapper.cpp:380-416 | between two uploads by one client there is a write by it, so further flushes and releases send nothing |
| Necessity.EmptyCloseServesStale | src/cppWrapper.cpp:358-369 | a run in which closing a dirty empty file makes the client miss a later, acknowledged upload |
| Necessity.CloseSyncsClockIffNonEmpty | src/cppWrapper.cpp:358-369 | a close leaves the entry's clock equal to the server's for every value of the uninitialised variable if and only if the file is not empty |
| Necessity.FailedUploadLosesWrite | src/cppWrapper.cpp:363-369 | a run in which a failed upload leaves a clean entry and a write that no later close sends |
| Necessity.FailedCloseKeepsInvIff | src/cppWrapper.cpp:363-369 | a failed close keeps the invariant if and only if the uninitialised clock is the client's own last version and the copy is still that of its version |
| Necessity.FailedCloseServesStaleIff | src/cppWrapper.cpp:363-369 | after a failed close the client's opens read what never reached the server if and only if the uninitialised clock is not behind the server's and the copy is neither the file nor its cut |
| Necessity.FailedWriteStaysUnsent | src/cppWrapper.cpp:392-395 | after a failed close no run uploads the copy until the client writes again |
| Necessity.RemovalServesStaleIff | src/cppWrapper.cpp:182-201 | removal and re-creation serve another clean client stale contents if and only if it has an entry and a copy that is not empty |
| Necessity.RemovalThenUploadServesStaleIff | src/Cache.cpp:49-53 | after the first upload of the new file they still do if and only if the other client had itself uploaded the removed one and its copy is not the new contents |
| Necessity.DirtyReopenLosesWrite | src/cppWrapper.cpp:97-101 | a run in which re-opening a dirty path replaces the unsent write with another client's upload |
| Necessity.RemovalUnderEntryServesStale | src/grpc-server.cpp:254-266 | a run in which removal and re-creation make another client's old entry look current |
| Necessity.HitBetweenRenameAndBump | src/grpc-server.cpp:338-347 | a run in which an open between rename and clock increment hits on the replaced version, and only until the increment |
| Sessions.SessionsRefinePlainFile | src/cppWrapper.cpp:301-370 | after any sequence of non-overlapping sessions over any clients the server's file is one plain local file with the same positioned writes in order |
| Sessions.SessionsReadPlainFile | src/cppWrapper.cpp:74-111 | what every session reads, after each of its writes, is what it would read from that plain file |
| Sessions.SessionsFromStartUp | src/cppWrapper.cpp:301-370 | the same from start-up, on any file without zero bytes or on none |
| Sessions.SessionRuns | src/cppWrapper.cpp:74-416 | one session takes the server's file where it takes the plain file and leaves nobody dirty |
| Sessions.OpenRuns | src/cppWrapper.cpp:246-287 | open and create, hit or miss, show exactly the server's zero-free file, or fail exactly where there is none to open |
| Sessions.WritesRun | src/cppWrapper.cpp:301-333 | a session's writes change only this client's copy and dirty bit, the copy by the positioned writes in order |
| Sessions.CloseDirtyRuns | src/cppWrapper.cpp:335-370 | flush and release of a dirty copy upload it once: server file equals copy, clock plus one, entry clean and current, whatever other clients hold, and they keep it |
| Transfer.RequestCount | src/grpc-client.cpp:223-236 | an upload sends size/CHUNK_SIZE + 1 messages, the last one empty for a multiple of the chunk size |
| Transfer.UploadInRangeIff | src/grpc-client.cpp:223-231 | the counters of the splitting loop stay within 32 bits if and only if the size is below 1365 chunks |
| Transfer.SplitUpload | src/grpc-client.cpp:213-237 | the splitting loop on 32-bit counters, without overflow and with legal positions, sends exactly those messages |
| Transfer.UploadExact | src/grpc-server.cpp:295-321 | for every buffer and every leftover, the receive loop over the client's messages yields the buffer followed only by the leftover beyond its end |
| Transfer.ReceivedIs | src/grpc-server.cpp:295-321 | over any messages all are written in order, unless the first brings no bytes and ends the loop |
| Transfer.UploadExactIff | src/grpc-server.cpp:300-310 | the upload is exact if and only if the leftover is not longer than the buffer |
| Transfer.DownloadExact | src/grpc-client.cpp:62-71 | the concatenation of the server's replies is the file, for every length |
| Transfer.ReplyCount | src/grpc-server.cpp:111-131 | a download sends length/min(CHUNK_SIZE, length) replies, rounded up |
| Transfer.DownloadInRangeIff | src/grpc-server.cpp:115-131 | the counter of the sending loop stays within 32 bits if and only if the file has at most 1365 chunks |
| Transfer.UploadThenDownload | src/grpc-server.cpp:72-145 | downloading after an upload over no longer leftover returns the uploaded buffer |
| Transfer.SendFile | src/grpc-server.cpp:111-131 | the sending loop on 32-bit counters, without overflow, sends exactly those replies, each claiming a full piece |
| Transfer.Reassemble | src/grpc-client.cpp:62-80 | the receiving loop concatenates the replies up to the first negative byte count and returns the last error |
| AtomicReplace.AtomicReplacement | src/grpc-server.cpp:295-343 | in every state of every message-level interleaving of uploads to different paths, crashes included, each path holds its first contents or one whole uploaded buffer with what lay beyond its end in the temporary file |
| AtomicReplace.ReplacedExactlyIff | src/grpc-server.cpp:295-343 | it holds exactly one complete buffer, never a mixture, if and only if that upload found no longer temporary file |
| AtomicReplace.ExactWithoutCrash | src/grpc-server.cpp:295-343 | from a server without temporary files of the targets, as long as it does not stop, every path holds its first contents or exactly one complete buffer in every state of every interleaving |
| AtomicReplace.LeftoverMakesMixture | src/grpc-server.cpp:303-310 | a stop after the message of a three-byte upload, then a one-byte upload: the file is a mixture of the two |
| AtomicReplace.CommitOk | src/grpc-server.cpp:334-343 | the rename puts the complete buffer in place and disturbs no other upload in progress |
| AtomicReplace.MessageOk | src/grpc-server.cpp:295-321 | one positioned write keeps every temporary file a prefix of its buffer over its leftover |
| GrpcServer.Server.GetFileAttributes | src/grpc-server.cpp:22-70 | status and clock of the path; no path's file or clock changes, though an unknown path gets clock 0 |
| GrpcServer.Server.GetFileContents | src/grpc-server.cpp:72-145 | the replies for the path's contents, one empty reply for an empty file, one error reply for a missing one |
| GrpcServer.Server.CreateEmptyFile | src/grpc-server.cpp:268-284 | an existing file is left as it is, a missing one becomes empty, other paths keep their state |
| GrpcServer.Server.RemoveFile | src/grpc-server.cpp:254-266 | file and clock are gone, even if there was no file; other paths keep their state |
| GrpcServer.Server.ReceiveInto | src/grpc-server.cpp:295-321 | the receive loop on a 32-bit counter and any messages: the temporary file of the first one's path, the path of the last one read, the byte count and the early end behind an empty first message |
| GrpcServer.Server.PutFileContents | src/grpc-server.cpp:286-352 | receive, rename to the path of the last message, count once, reply with the new clock; also the call without messages |
| GrpcServer.RequestsCarryAll | src/grpc-server.cpp:319-320 | the server counts exactly as many bytes as the client's buffer has |
| CacheClient.Cache.constructor | src/Cache.cpp:32-47 | a snapshot of the entry, or clean with clock 0 |
| CacheClient.Cache.UpdateCache | src/Cache.cpp:85-94 | the fields are written back over an existing entry only |
| CacheClient.Cache.SetDirtyBit | src/Cache.cpp:63-67 | dirty bit 1 in the object and in an existing entry |
| CacheClient.Cache.ResetDirtyBit | src/Cache.cpp:69-73 | dirty bit 0 in the object and in an existing entry |
| CacheClient.Cache.SyncClock | src/Cache.cpp:79-83 | the clock in the object and in an existing entry |
| CacheClient.Cache.CommitFileCache | src/Cache.cpp:97-174 | the cached file is the buffer cut at its first zero byte, the entry the object's own dirty bit and clock |
| CacheClient.Cache.DeleteEntry | src/Cache.cpp:206-215 | file and entry are deleted; a missing file is an error that keeps the entry |
| CacheClient.FetchContents | src/grpc-client.cpp:46-87 | the reassembled buffer is the server's file; -1 if there is none |
| CacheClient.Open | src/cppWrapper.cpp:74-111 | as `Protocol.OpenOutcome`, stated on the handler's own state; in particular an open that fails because the server has no file changes nothing; server and other paths keep theirs; result and errors |
| CacheClient.Create | src/cppWrapper.cpp:246-287 | as `Protocol.CreateOutcome`: what the entry keeps, also over a removed file, and the created file |
| CacheClient.Write | src/cppWrapper.cpp:301-333 | a positioned write to the copy, and the dirty bit of an existing entry, whose clock stays |
| CacheClient.Upload | src/grpc-client.cpp:213-249 | splitting and receiving together: the server's file is the buffer over the leftover, counted once, all bytes acknowledged |
| CacheClient.Flush | src/cppWrapper.cpp:335-370 | nothing if clean; otherwise the whole copy is uploaded unless empty, the dirty bit cleared and the clock stored, uninitialised if empty |
| CacheClient.Close | src/cppWrapper.cpp:335-416 | flush then release upload at most once; a dirty non-empty file is then on the server, counted once, its entry clean and current |
| CacheClient.Unlink | src/cppWrapper.cpp:182-201 | the cached file goes with the entry and stays without one; the server's file and clock are gone; a failed local delete changes nothing |
| Calls.Dispatch | src/unreliablefs.c:21-39 | every handler changes its path as the call's effect says and leaves no temporary file that was not there |
| Calls.Perform | src/unreliablefs.c:21-39 | the same for the world of all clients and the server: one step of it, every other client and path untouched |
| Calls.NoTempsBetweenCalls | src/grpc-server.cpp:295-343 | over any sequence of calls by any clients on paths that are no temporary file's, no temporary file exists between two calls |
| Calls.CallIsRun | src/cppWrapper.cpp:74-416 | open, create, write, flush (clean, dirty and empty) and unlink (also where the local delete fails) are each a run of the protocol's actions with exactly the handler's effect |
| Calls.CallsAreRuns | src/cppWrapper.cpp:74-416 | over any such sequence the calls on every path are a run of the protocol that shows what server and clients hold after each call, and a legal one if no call closes an empty dirty file or removes under an entry |
| Calls.CallsFromStartUp | src/cppWrapper.cpp:74-416 | from start-up that run starts in an initial state, so that everything proved of legal runs holds of the handlers |
| Bytes.CutIsIdentityIffZeroFree | src/Cache.cpp:107-111 | storing with fputs loses nothing if and only if the contents have no zero byte |
| StatusText.StatusRoundTrip | src/Cache.cpp:187-193 | for every map without separators in paths and hashes and every enumeration order, the written text reads back as the same map |
| StatusText.ParseOfLine | src/Cache.cpp:245-260 | one written line gives back path, hash, dirty bit and clock |
| StatusText.TextFormat | src/Cache.cpp:192 | the written line is path, hash, dirty bit, clock, in this order between semicolons |
| StatusText.FieldsRead | src/Cache.cpp:245-260 | how any line with three separators is read, the clock from all that is left, failing where either number does |
| StatusText.BareLineReads | src/Cache.cpp:245-260 | a line without separators is taken for all four fields, because erasing up to npos + 1 erases nothing |
| StatusText.BadLineFails | src/Cache.cpp:255-258 | one line that stoi rejects makes reading fail, whatever came before and comes behind |
| StatusText.WriteStatus | src/Cache.cpp:187-193 | the writer loop produces that text, line by line |
| StatusText.GetStatusCache | src/Cache.cpp:239-264 | the reader loop, erasing fields one after the other, computes that reading of any text, failing where stoi throws |
| CText.StoiOfToString | src/Cache.cpp:255-258 | reading a printed integer gives it back, over the whole range of int |
| CText.NumbersRead | src/unreliablefs_errinj.c:328-331 | atoi and stoi on white space, sign, digits and any rest: the signed value of the digits; without digits 0 and an exception; out of range only stoi fails |
| CText.ValueIsDecimal | src/unreliablefs_errinj.c:328-331 | that value is decimal, each digit counting for ten to the number of digits behind it |
| CText.EveryTextReads | src/unreliablefs_errinj.c:328-331 | every text has this form, so both conversions are known on all texts |
| CText.AtoiOfToString | src/unreliablefs_errinj.c:328-331 | atoi reads every printed integer back |
| Ini.PiecesConserveText | src/conf.c:265-288 | the pieces of repeated reads concatenate to the whole input |
| Ini.PieceShape | src/conf.c:275-284 | each piece has 1 to 199 characters and a newline at most at its end |
| Ini.RunState | src/conf.c:136-234 | over any input the section is the first 49 characters of the latest closed header and the name to continue the first 49 of the latest name since |
| Ini.ErrorIsFirstBadLine | src/conf.c:176-225 | the result is the number of the first malformed or rejected line, 0 if there is none |
| Ini.CallsIndependent | src/conf.c:230-233 | parsing goes on after errors: the calls do not depend on what the handler answers |
| IniRoundTrip.ParseOfPrint | src/conf.c:136-234 | for every document of headers, pairs with either separator, continuation, comment, blank, unclosed and bare lines, with white space and inline comments anywhere and a byte order mark or none, parsing its text makes exactly the calls it means in order (a continuation: section, first 49 characters of the last name, stripped line), and the result is its first malformed or rejected line |
| IniRoundTrip.NoBadIff | src/conf.c:176-225 | the result is 0 if and only if no line is malformed and the handler accepts every option |
| IniCoverage.EveryLineIsWritten | src/conf.c:157-228 | every line that fits the buffer is one of these lines, in either context |
| IniCoverage.EveryTextIsDocument | src/conf.c:136-234 | every text of complete lines that fit, without zero characters, is the text of a document, so its parse is known |
| IniParser.RStripAt | src/conf.c:47-54 | in place: the string becomes its stripped self, stays terminated, nothing else changes |
| IniParser.LSkipAt | src/conf.c:56-62 | the index of the first character other than white space, in bounds |
| IniParser.StopAt | src/conf.c:64-82 | the index of the first sought character or inline comment, or of the terminator, in bounds |
| IniParser.CopyTruncated | src/conf.c:84-94 | the destination holds the source truncated to size - 1 characters, terminated |
| IniParser.StringReader.ReadLine | src/conf.c:265-288 | the next piece, terminated, and the reader advanced by it; false at the end or without room |
| IniParser.FindStart | src/conf.c:159-167 | byte order mark, trailing and leading white space are skipped as the meaning says |
| IniParser.HeaderAt | src/conf.c:180-196 | a closed header sets the truncated section and clears the previous name; an unclosed one changes neither |
| IniParser.PairAt | src/conf.c:197-211 | the name and the value, cut at an inline comment, are left as two terminated strings in the one line buffer |
| IniParser.HandleLine | src/conf.c:157-228 | one turn of the loop takes buffers and queue from one state of the meaning to the next, all buffers in bounds and terminated |
| IniParser.ParseStream | src/conf.c:97-241 | for any text, the loop over the buffers ends with the queue standing for the reported options and the first bad line as result |
| IniParser.PrintedConfiguration | src/unreliablefs_errinj.c:254-270 | for the text of any document the queue stands for exactly the options it means, and the result is 0 if and only if no line is malformed and every option of a known type is known |
| InjectionQueue.TypeByName | src/unreliablefs_errinj.c:242-252 | the type with that name, -1 exactly if no type has it |
| InjectionQueue.OneEntryPerType | src/unreliablefs_errinj.c:300-318 | the queue has at most one entry per type, and one exactly for each type mentioned |
| InjectionQueue.MentionedInOrder | src/unreliablefs_errinj.c:315-318 | the entries stand in the order in which their types were first mentioned |
| InjectionQueue.RejectedIff | src/unreliablefs_errinj.c:320-337 | an option of a known type is rejected if and only if no value given for it ever changes that type's configuration |
| InjectionQueue.UpdatedRepresents | src/unreliablefs_errinj.c:300-335 | one call keeps the queue equal to the map from types, in order of first mention, to the last value of every option |
| InjectionQueue.UnknownRepresents | src/unreliablefs_errinj.c:293-297 | an unknown section leaves that map as it is |
| InjectionQueue.Queue.OptionHandler | src/unreliablefs_errinj.c:289-338 | after any calls the queue stands for their fold; the entry of the type holds the value in its option's field, numbers as atoi reads them, a new entry comes last, the others are untouched; 0 exactly for an unknown option of a known type, -1 exactly for an unknown type, otherwise 1 |
| InjectionQueue.Queue.Drain | src/unreliablefs_errinj.c:272-287 | the queue ends empty |

## Left out

- gRPC itself, protobuf, deadlines, channels and SayHello; remote calls are atomic server steps. A failed upload is the action `CloseFailed`, which legal runs do not take.
- Path handling in src/Utility.cpp and SHA-256: paths are opaque and the cached file's name is a free constructor of the path.
- truncate, ftruncate, rename, mknod, xattr, lock and utimens: they bypass the dirty bit or the server, so they are not steps of the protocol.
- Overlapping uploads of one path: both would share one temporary file; `Protocol.Enabled` and `AtomicReplace.Enabled` exclude them.
- Recovery of the clocks after a server restart: they are only in memory. Crashes are part of the atomic-replacement model only.
- Protocol.SwapInv: the rename stores the exact copy; a leftover temporary file, which only a stopped server leaves, is part of `AtomicReplace` and `CacheClient.Flush`.
- Runs.LastCloserWins: the same; `AtomicReplace.ExactWithoutCrash` and `Calls.CallsAreRuns` derive it.
- Errors of open, pwrite, rename and fopen, a cancelled call, and descriptor details such as close(dup(...)).
- Overflow of the logical clock: clocks are unbounded integers.
- Transfer.SendFile: files of more than 1365 chunks are excluded, because the loop's counter overflows for them (`Transfer.DownloadInRangeIff`), which is undefined in the original.
- GrpcServer.Server.GetFileContents: the same bound on the file sent.
- CacheClient.FetchContents: the same bound on the file fetched.
- CacheClient.Open: the same bound on the file fetched.
- CacheClient.Create: the same bound on the file fetched.
- CacheClient.Upload: copies of 1365 chunks or more are excluded, because the splitting loop's counter overflows for them (`Transfer.UploadInRangeIff`), which is undefined in the original; an empty copy is never uploaded.
- CacheClient.Flush: the same bound on the copy.
- CacheClient.Close: the same bound on the copy.
- GrpcServer.Server.ReceiveInto: a message whose size exceeds its buffer, for which the original reads out of bounds, and more bytes than an int counts.
- GrpcServer.Server.PutFileContents: the same messages.
- CacheClient.Write: the file is open, so a cached file exists; a write without an open handle, which opens first, is not modelled.
- CText.Atoi: values beyond 64 bits, for which the C library function is undefined.
- IniCoverage.EveryTextIsDocument: lines of 200 characters or more, which the reader cuts, zero characters, and a last line without newline; `Ini.RunState`, `Ini.ErrorIsFirstBadLine` and `IniParser.ParseStream` cover these too.
- IniParser.ParseStream: proved with the option handler and the string reader; fgets reads the same lines, and `Ini` is stated for any handler.
- The heap and realloc variants of the parser, section callbacks and options without value, which are off by default.
- Regular expressions, random draws, errno tables, signals and sleeping of the fault injection, and the gate in src/unreliablefs_ops.c: they depend on libraries, chance and time outside the model.
- Stat fields, timestamps, directory listing, mkdir and rmdir, FUSE option parsing and scripts: they pass values through to the operating system and touch no state modelled here.
