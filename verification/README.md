# Victauri, verified models

Victauri lets a test suite or an agent drive a Tauri application and look inside it. This project
models the parts of it whose promises are hardest to see from the code, and proves them in Dafny:

- the console capture: the launcher that writes two byte streams as records into rotating files,
  and the follower that reads them while they are renamed under it (`Capture*`, `Rotation*`);
- the lock-free rate limiter and the throttle of its refusal log (`TokenBucket`, `RefusalLog`);
- the insertion of one entry into a JSONC configuration file that keeps every comment
  (`Json*`, `Jsonc*`, `KeyOrder`);
- the blanking of comments and literals in Rust source, and the patch built on it (`Rust*`);
- recorded CSS selectors, as the page writes them and as test generation reads them (`Css*`);
- the MCP bridge: which requests are answered, what may be sent again, when the client is told to
  refresh (`Bridge*`, `Handshake`);
- the time-travel recorder (`Recording`, `Recorder*`);
- the comparison of frontend and backend state (`StateCompare*`).

Protocols are state machines over atomic steps, and the theorems are about every interleaving.
Text transformations are functions on byte strings, and the loops of the source are methods proved
equal to them. A byte is written as the character with its code; a number in JSON is its text.

`dafny verify dfyconfig.toml` checks everything.

## How the parts hang together

*Console capture.* `CaptureSplit` cuts a stream into fragments, `CaptureRecord` writes each as one
line of JSON, `CaptureModel` puts the lines into a bounded file, and `CaptureWriter` is the object
that does it with loops and fields. Removing, renaming and opening may each fail on their own; a file
keeps its records when it loses its name. `CaptureComplete` and `CaptureLog` are about what is
written, `CaptureText` about what the records say, `CaptureDisk` about what can still be read: every rotation removes the file the one before it
moved aside, so a capture keeps its last two files. `CaptureFile` is one read of such a file.
`Rotation` puts launcher and follower side by side, step by step; `CaptureFollowed` shows that the
writer takes the launcher's steps, so that what the follower prints is what came in on the streams.
The follower's theorem needs three assumptions, stated as predicates:

- `FreshHead`: the first 256 bytes of a new file differ from those of every older file within their common length.
- `HeadKnown`: the follower has seen a non-empty head before its file is rotated away.
- `OldGone`: a full file goes to a timestamped name, which the follower never looks at, only when no
  `.jsonl.1` was left in place.

`RotationLosses` says when the follower reports a loss. The comment at
crates/victauri-cli/src/logs.rs:926-928 has it that lines are lost when the capture rotates twice between two
polls. Once is enough if the follower was still reading `.jsonl.1`; the exact condition is that no file is
rotated away before the follower has come to it.

None of the three assumptions is idle. For each, `RotationLimits` shows that records are lost without a word from the
follower whenever the launcher's steps lead to such files, and `RotationInputs` gives lines that lead
the writer there, rotating when its own size test tells it to. The comment at
crates/victauri-cli/src/logs.rs:923-925 says that a new file's first record has a timestamp and so
differs. The code compares 256 bytes. If `serde_json` keeps its maps sorted, as the comment at
crates/victauri-cli/src/jsonc.rs:218-219 has it and as the records are written here, the timestamp comes
after the text, and a first line that long which repeats has the same head (`RotationHeads`). With
`serde_json`'s `preserve_order` feature, which Cargo.lock leaves open, the timestamp would come first and
only records of the same millisecond could share a head.

The exit record can be lost. If a full file was moved to `.jsonl.1` and no new one could be opened, the
capture goes on in the moved file and stops; an exit record that does not fit makes it rotate again,
which removes that very file. `ExitRecordIsThere` says that this is the only way,
`FailedOpenLosesCapture` that it takes all that was captured.

*JSONC.* `JsonTree` keeps every gap of a strict JSON text; writing a tree and reading text are
inverse. `JsoncBlank` is the two passes of the blanker as one automaton each, with one byte of
lookahead. `JsoncSeams` says where a text may be cut without a pass noticing, `JsoncFixed` that strict
JSON passes unchanged, `JsoncTwice` for which texts a second blanking changes something. From these, `JsoncInsertOutcome` decides every call of `insert_server`. The one
document it cannot extend although it is valid JSONC is an empty target object with a comma between its braces,
`{,}`: it is refused exactly then.

*Objects and runs.* `RecorderRuns` and `BridgeRuns` are state machines over every interleaving; the
classes `EventRecorder` and `Server` carry the state of the machine they stand for, and every method
takes it to the next one. One request the bridge leaves without a response is
`notifications/initialized` with an id: it is taken for the notification.

*Depth.* `verify_state` stops at depth 128. Two values that are equal can then still be reported, as
`DeepEqualValuesFail` shows with `5` and `5.0`; `PassesExactlyWhen` says for which values this happens.

## Model

| member | source | states |
|---|---|---|
| CaptureSplit.SplitKeeps | crates/victauri-cli/src/run.rs:268-287 | The fragments of a chunk and what stays pending are the pending bytes and the chunk, to the byte, newlines included. |
| CaptureSplit.SplitOk | crates/victauri-cli/src/run.rs:268-287 | No fragment holds a newline or exceeds the line limit; one that does not end a line is exactly full; what stays pending is below the limit. |
| CaptureSplit.SplitTwice | crates/victauri-cli/src/run.rs:268-287 | Unless some complete line is a full number of records long, any boundary between two chunks cuts the stream as if there were none. |
| CaptureSplit.BoundaryMatters | crates/victauri-cli/src/run.rs:274-286 | If some complete line is a full number of records long, there is a boundary that changes the cuts. |
| CaptureRecord.LineReads | crates/victauri-cli/src/run.rs:316-317 | The line written for a stream parses as JSON to exactly its stream, text and time. |
| CaptureRecord.ExitReads | crates/victauri-cli/src/run.rs:321-332 | The exit record parses to the summary, the time and the last stderr lines in order. |
| CaptureRecord.LineIsRecord | crates/victauri-cli/src/run.rs:297-318 | Any stored line, at six bytes of JSON for each of its own, is one newline-terminated line and shorter than what the reader takes at once. |
| CaptureRecord.ExitIsRecord | crates/victauri-cli/src/run.rs:321-332 | So is the exit record with its twelve longest lines. |
| CaptureWriter.Capture.Feed | crates/victauri-cli/src/run.rs:268-287 | The two nested loops hand over exactly the fragments of the specification, in order, and leave exactly its pending bytes; the other stream is untouched. |
| CaptureWriter.Capture.FlushPartial | crates/victauri-cli/src/run.rs:290-295 | A line that was never finished is recorded if there is one, and nothing stays pending. |
| CaptureWriter.Capture.Record | crates/victauri-cli/src/run.rs:297-318 | Nothing once stopped; otherwise the stored text becomes one record, and a non-blank stderr line is remembered. |
| CaptureWriter.Capture.RecordLine | crates/victauri-cli/src/run.rs:274-279 | A complete line is recorded in full parts and a last one. |
| CaptureWriter.Capture.WriteRecord | crates/victauri-cli/src/run.rs:334-357 | Rotates when the bound would be passed; when it cannot, writes only an exit record, or stops with one note. |
| CaptureWriter.Capture.RemoveFile | crates/victauri-cli/src/run.rs:362-363 | Out of the files, exactly those of that name lose it, and none loses a record. |
| CaptureWriter.Capture.Rename | crates/victauri-cli/src/run.rs:364-370 | The file gets the new name, which a file that had it loses; it fails when the file has no name left or the system will not. |
| CaptureWriter.Capture.Rotate | crates/victauri-cli/src/run.rs:361-381 | The old `.jsonl.1` goes even if nothing else succeeds; the full file moves to that name or to a timestamped one; and it is the file written to until a new one is opened. |
| CaptureWriter.Capture.RecordExit | crates/victauri-cli/src/run.rs:321-332 | Both unfinished lines are flushed before the exit record is written. |
| CaptureWriter.Capture.constructor | crates/victauri-cli/src/run.rs:241-263 | A capture counts what its file already holds, and finds the files of earlier captures beside it. |
| CaptureTheorems.NothingLost | crates/victauri-cli/src/run.rs:268-295 | For any chunking and any interleaving of the streams, flushes and exit, the fragments handed over and the pending bytes are that stream's input. |
| CaptureTheorems.PendingOfRun | crates/victauri-cli/src/run.rs:233-234 | Over any run, what one stream has pending depends on that stream alone. |
| CaptureTheorems.RunBounded | crates/victauri-cli/src/run.rs:334-357 | Over any run, whatever the system answers, a file that started within its bound exceeds it by at most one stop note and one exit record. |
| CaptureTheorems.OnlyExitWhenStopped | crates/victauri-cli/src/run.rs:297-300 | Once stopped, a capture stays stopped and no event but the exit writes anything. |
| CaptureComplete.EverythingIsWritten | crates/victauri-cli/src/run.rs:334-381 | While writes succeed and it has not stopped, the history of the capture grows by one record for every fragment, in order, whatever rotations do to the files. |
| CaptureDisk.RotationTakes | crates/victauri-cli/src/run.rs:361-381 | A rotation, whatever fails in it, takes names only: from `.jsonl.1` when the system removes it, and from the file whose name the full one gets; every record stays in its file. |
| CaptureDisk.WhatIsOnDisk | crates/victauri-cli/src/run.rs:334-381 | Over every run in which rotations and writes succeed: the number of rotations follows from the sizes of the records; the disk holds what earlier captures left, the last moved file, full to within one exit record, and the current one, which end the history; and it holds the whole history if and only if there was no rotation, or one that found no `.jsonl.1` with records. |
| CaptureDisk.ExitRecordIsThere | crates/victauri-cli/src/run.rs:321-381 | Over every run, whatever the system answers to rotations, the exit record is the last of a file that has a name, except when the file is `.jsonl.1` itself, the record does not fit and the removal succeeds; then and only then it has none. |
| CaptureDisk.FailedOpenLosesCapture | crates/victauri-cli/src/run.rs:361-381 | It happens: after a rotation that moved the file and opened none, an exit record that does not fit removes all that was captured. |
| CaptureComplete.RunReadable | crates/victauri-cli/src/run.rs:334-357 | Every record of every run is a single line no longer than one read. |
| CaptureLog.ExitCarriesLast | crates/victauri-cli/src/run.rs:310-332 | Over any run of a fresh capture that has not stopped, the exit record carries the last twelve non-blank lines of all that stderr handed over, its unfinished line included. |
| CaptureLog.InputIsWritten | crates/victauri-cli/src/run.rs:268-357 | While writes succeed and it has not stopped, the history gains exactly one record for each fragment and exit of the run, in order, and the fragments of each stream among them, with what is pending, are that stream's input to the byte. |
| CaptureLog.EntriesAreHanded | crates/victauri-cli/src/run.rs:268-295 | Stream by stream, the entries behind the records are the fragments handed over. |
| CaptureText.StoredIsKept | crates/victauri-cli/src/run.rs:301-308 | A text within the limit is stored as it is; a longer one as its longest prefix of whole characters within the limit, at most three bytes short of it, and the mark. |
| CaptureText.HistoryTells | crates/victauri-cli/src/run.rs:297-318 | Over any run, the k-th new record, read back as JSON, has the stream, the time and the text, so kept, of the k-th line handed over, or says how the app ended. |
| CaptureText.ExitTells | crates/victauri-cli/src/run.rs:310-332 | Read back, the exit record carries the texts kept of the last twelve lines of stderr that are not blank. |
| CaptureText.StreamReadsBack | crates/victauri-cli/src/run.rs:268-318 | Of lines without escape sequences: what the new records of a stream say, one after another, and what is pending is the stream's input without its line breaks. |
| CaptureText.PrintedTells | crates/victauri-cli/src/logs.rs:941-985 | If no poll reports a loss, each record the follower prints is an earlier one or says what the line in its place said. |
| CaptureText.PrintedReadsBack | crates/victauri-cli/src/logs.rs:941-985 | End to end, of such lines: a follower that attached at the end and has printed all there was has printed each stream, but for line breaks and what is pending. |
| CaptureFile.ReadOpenCapture | crates/victauri-cli/src/logs.rs:996-1036 | One read returns the complete lines of its window and the offset just past them. |
| CaptureFile.ReadLines | crates/victauri-cli/src/logs.rs:1019-1034 | The loop over chunks returns the lines that parse and the bytes all complete lines take. |
| CaptureFile.CompleteLinesCover | crates/victauri-cli/src/logs.rs:1019-1034 | The complete lines are, end to end, exactly the bytes consumed. |
| CaptureFile.LinesAreRecords | crates/victauri-cli/src/logs.rs:1019-1034 | Each of them is one newline-terminated record. |
| CaptureFile.NoLineLeft | crates/victauri-cli/src/logs.rs:1019-1034 | What is not consumed holds no newline. |
| CaptureFile.ReadAtBoundary | crates/victauri-cli/src/logs.rs:996-1036 | A read at a record boundary returns the records that follow it, as many as one window takes and no fewer, stops at a boundary, and returns none only at the end of the file. |
| CaptureAttach.TailReadShows | crates/victauri-cli/src/logs.rs:999-1017 | The first read of a long capture shows exactly the records that start after the first byte of its last 32 MB, through the end that was measured. |
| CaptureAttach.FirstReadShows | crates/victauri-cli/src/logs.rs:996-1036 | The first read of a shorter one shows its records from the first on, as many as one window takes and no fewer. |
| RotationTheorems.FollowerIsFaithful | crates/victauri-cli/src/logs.rs:915-985 | In every interleaving of the writer's append, remove, rename and create with the follower's open, head and read steps, each poll returns consecutive records as written, never before where the last one ended, and after a gap only if it says that lines were lost. |
| RotationTheorems.PrintedInOrder | crates/victauri-cli/src/logs.rs:941-985 | What is printed is a strictly increasing selection of what was written: in order, nothing twice. |
| RotationTheorems.NoLossNoGap | crates/victauri-cli/src/logs.rs:941-985 | If no poll reports a loss, what was printed is exactly what was written since attaching. |
| RotationTheorems.NothingSkipped | crates/victauri-cli/src/logs.rs:941-985 | The same for whole runs, from any attached state: without a reported loss, what is printed is one stretch of what is written, from where the follower attached. |
| RotationLosses.LossIffMissed | crates/victauri-cli/src/logs.rs:941-985 | In every interleaving a poll reports a loss if and only if it found a new file under the capture's name and, under `.jsonl.1`, nothing, nothing it could read, or another file than its own; so reading on, reading the rest from `.jsonl.1` and returning nothing are all silent. |
| RotationLosses.LossMovesOn | crates/victauri-cli/src/logs.rs:966-977 | Between the start and the end of a poll that reports a loss, the follower went to a newer file. |
| RotationLosses.NothingLost | crates/victauri-cli/src/logs.rs:923-985 | While `.jsonl.1` can be read and no file is rotated away before the follower has come to it, no poll reports a loss and nothing is lost. |
| RotationLosses.OneRotationLoses | crates/victauri-cli/src/logs.rs:923-929 | One rotation between two polls is not enough for that: a follower that read on in `.jsonl.1` and had not come to the newest file loses it to one rotation before its next poll, and says so. |
| CaptureFollowed.RunReaches | crates/victauri-cli/src/run.rs:334-381 | Any run of the capture writer is a run of the launcher in the rotation protocol, step for step, and ends with the same files under the same names. |
| CaptureFollowed.SameHistory | crates/victauri-cli/src/run.rs:334-381 | However a follower's steps are put between, files, names and everything written stay those of the writer. |
| CaptureFollowed.PrintedIsInput | crates/victauri-cli/src/logs.rs:941-985 | End to end: while writes succeed and the capture has not stopped, and if no poll reports a loss, what the follower prints is a stretch, from where it attached, of the records of the entries of the run; and the entries of each stream, with what is pending, are its input to the byte. |
| RotationTheorems.RunKeeps | crates/victauri-cli/src/logs.rs:941-985 | The invariant that ties cursor, names and files together holds after every legal run. |
| RotationTheorems.AttachAtBoundary | crates/victauri-cli/src/logs.rs:996-1036 | The first read leaves its offset at a record boundary, also when it starts in the middle of a long file. |
| RotationTheorems.FollowerCatchesUp | crates/victauri-cli/src/logs.rs:958-985 | Once the launcher writes nothing more, finitely many polls bring the follower to the end of the newest file. |
| RotationTheorems.QuietPollAdvances | crates/victauri-cli/src/logs.rs:958-985 | A poll of a quiet capture that is not at the end gets further. |
| RotationProof.StepKeeps | crates/victauri-cli/src/logs.rs:941-985 | Every single step of either side keeps the invariant. |
| RotationProof.OtherHeadDiffers | crates/victauri-cli/src/logs.rs:915-921 | Under the head assumptions, the head comparison tells every other file from the one being read. |
| RotationProof.OwnHeadMatches | crates/victauri-cli/src/logs.rs:912-921 | It recognises the file being read, however much that file has grown. |
| RotationProof.ReadKeeps | crates/victauri-cli/src/logs.rs:958-968 | A read whose offset does not advance has drained its file. |
| RotationLimits.EqualHeadsLoseSilently | crates/victauri-cli/src/logs.rs:886-888 | Whatever steps of the launcher lead from a file that was read in part to a new one that starts with as many bytes and the same head: the rest of the first and the start of the second are skipped, and nothing is reported. |
| RotationInputs.RepeatedLineLosesSilently | crates/victauri-cli/src/logs.rs:886-888 | It happens to the records of lines: a long line, other lines until the capture is full, and the same long line, which opens the next file because it no longer fits. |
| RotationHeads.LongLinesShareHead | crates/victauri-cli/src/run.rs:316-317 | Two records of one line of 256 encoded bytes or more have one head and one length, whatever their times, as long as these have as many digits. |
| RotationLimits.UnknownHeadLosesSilently | crates/victauri-cli/src/logs.rs:915-918 | Whatever steps rotate a file away before the follower has seen its head: all of that file is skipped, and nothing is reported. |
| RotationInputs.FirstFileLostSilently | crates/victauri-cli/src/logs.rs:915-918 | It happens: a follower attaches to an empty capture, and lines fill the file until one opens the next, before it polls. |
| RotationLimits.LeftoverOldLosesSilently | crates/victauri-cli/src/run.rs:361-370 | Whatever steps move a file past a `.jsonl.1` that stays: the follower that had read the latter skips the whole file between, and reports nothing. |
| RotationInputs.FileAsideLostSilently | crates/victauri-cli/src/run.rs:361-370 | It happens: `.jsonl.1` can be neither removed nor replaced, and lines fill the file after it until that is moved to a name with the time. |
| TokenBucket.NeverOverGrants | crates/victauri-core/src/security.rs:69-130 | For any number of threads in any interleaving, tokens never exceed the maximum, and the tokens granted, held and about to be added stay within the maximum plus what the elapsed time has earned. |
| TokenBucket.RunKeeps | crates/victauri-core/src/security.rs:69-130 | Exact conservation over every run: granted, held, in flight and discarded tokens are the initial ones plus those issued. |
| TokenBucket.StepKeeps | crates/victauri-core/src/security.rs:69-130 | Every atomic step of every thread keeps that account. |
| TokenBucket.MovesForward | crates/victauri-core/src/security.rs:102-117 | Each successful exchange of the refill time moves it strictly forward. |
| TokenBucket.MoveMeansUntouched | crates/victauri-core/src/security.rs:102-117 | A refill exchange that succeeds proves that no other thread refilled since the time was read: there is no ABA. |
| TokenBucket.WindowBound | crates/victauri-core/src/security.rs:69-130 | In any part of a run the grants are bounded by the bucket and the time of that part. |
| TokenBucket.UndisturbedCall | crates/victauri-core/src/security.rs:69-130 | A call that no other thread overtakes does what the plain sequential bucket does, and ends by taking a token exactly when that returns true. |
| TokenBucket.CallEarnsAndTakes | crates/victauri-core/src/security.rs:69-130 | Tokens come back: a call no other thread overtakes, in whatever steps and with whatever spurious failures, finds the whole tokens earned since the last refill, is granted if and only if the bucket then holds one, leaves the rest, and moves the refill time if and only if a token was earned; on 64 bits, wrapping as they do. |
| TokenBucket.CallIsGrantedIff | crates/victauri-core/src/security.rs:69-130 | While nothing reaches 2^64: it is granted exactly when the tokens and what was earned since make at least one. |
| TokenBucket.NeverUnderIssues | crates/victauri-core/src/security.rs:99-130 | For any number of threads in any interleaving, refills issue all that time earned up to the last of them, less than one token missing for each. |
| RefusalLog.RefusalsAreAccounted | crates/victauri-core/src/middleware.rs:43-56 | In every interleaving each refusal is reported, counted as suppressed, or still inside the call: none is lost or counted twice. |
| RefusalLog.ClaimsAreSpaced | crates/victauri-core/src/middleware.rs:43-53 | Two log lines are at least the interval apart. |
| RefusalLog.LoggedWhenDue | crates/victauri-core/src/middleware.rs:43-56 | A refusal no other thread overtakes is logged if and only if there was no line yet or ten seconds have passed since the last; its line covers all that were not logged since, and otherwise it is one more of them. |
| RefusalLog.StepKeeps | crates/victauri-core/src/middleware.rs:43-56 | Every atomic step keeps the account of refusals. |
| Json.DecodeEncode | crates/victauri-cli/src/jsonc.rs:228-231 | A string written as `serde_json` writes it reads back as itself. |
| JsonTreeFacts.ReadWritten | crates/victauri-cli/src/jsonc.rs:297-304 | The strict reader reads every written tree back, gaps and all, and stops exactly behind it. |
| JsonTreeFacts.WriteRead | crates/victauri-cli/src/jsonc.rs:297-304 | Whatever the reader accepts is the writing of the tree it returns. |
| JsoncBlankLoops.BlankJsonc | crates/victauri-cli/src/jsonc.rs:28-103 | The two in-place passes compute the specified blanking and keep the length. |
| JsoncBlankLoops.UncommentLoop | crates/victauri-cli/src/jsonc.rs:40-76 | The first pass leaves the buffer as the text with its comments blanked. |
| JsoncBlankLoops.UncommaLoop | crates/victauri-cli/src/jsonc.rs:79-100 | The second pass leaves it with exactly the trailing commas blanked. |
| JsoncTokens.BlankCleans | crates/victauri-cli/src/jsonc.rs:28-103 | For any tokens, strings, commas and comments in any order, blanking replaces each comment and each comma before a closing bracket by spaces and leaves every other piece as it is. |
| JsoncTokens.SamePlaces | crates/victauri-cli/src/jsonc.rs:24-27 | Every piece of the text starts at the same offset afterwards. |
| JsoncUtf8.BlankUtf8 | crates/victauri-cli/src/jsonc.rs:101-103 | Valid UTF-8 stays valid, so the fallback to an empty string is never taken. |
| JsoncFixed.StrictUnchanged | crates/victauri-cli/src/jsonc.rs:28-103 | Text that is strict JSON already is left alone. |
| JsoncTwice.BlankTwiceIff | crates/victauri-cli/src/jsonc.rs:28-103 | Blanking twice is blanking once if and only if, in the text without its comments and outside strings, no comma stands before a trailing comma. |
| JsoncFixed.BlankIdempotent | crates/victauri-cli/src/jsonc.rs:28-103 | So it is whenever the result is strict JSON. |
| JsoncFixed.BlankNotIdempotent | crates/victauri-cli/src/jsonc.rs:79-100 | It is not for `[1,,]`: the first of two trailing commas goes only the second time. |
| JsoncSeams.BraceIsCode | crates/victauri-cli/src/jsonc.rs:28-103 | A brace of the blanked text that is outside strings is, in the text, outside strings and comments. |
| JsoncSeams.BlankAfterBrace | crates/victauri-cli/src/jsonc.rs:28-103 | Whatever is put behind an opening brace is blanked independently of what came before. |
| JsoncScan.SkipsOneValue | crates/victauri-cli/src/jsonc.rs:127-160 | On every well-formed value before a delimiter, skipping stops exactly at its end. |
| JsoncScan.FindsLast | crates/victauri-cli/src/jsonc.rs:165-187 | The search ends at the value of the last member whose decoded name is the key, and finds nothing exactly when there is none. |
| JsoncScan.LastNamedIs | crates/victauri-cli/src/jsonc.rs:163-165 | No member after the one found has that name. |
| JsoncScanLoops.SkipWsFrom | crates/victauri-cli/src/jsonc.rs:106-111 | The index loop leaves what the specification leaves. |
| JsoncScanLoops.SkipStringFrom | crates/victauri-cli/src/jsonc.rs:114-124 | The same for a string with its escapes. |
| JsoncScanLoops.SkipValueFrom | crates/victauri-cli/src/jsonc.rs:127-160 | The same for any value. |
| JsoncScanLoops.SkipContainerFrom | crates/victauri-cli/src/jsonc.rs:130-151 | The same for a container, by counting brackets outside strings. |
| JsoncScanLoops.MemberValueOffset | crates/victauri-cli/src/jsonc.rs:165-187 | The offset returned is that of the value the search specifies. |
| JsoncPretty.PrettyWritten | crates/victauri-cli/src/jsonc.rs:231-269 | What is printed is, byte for byte, the writing of one tree. |
| JsoncPrettyMeans.PrettyRoundTrips | crates/victauri-cli/src/jsonc.rs:231-269 | For every value and any whitespace as unit, base and line break, reading what was printed gives the value back and stops behind it. |
| JsoncPrettyMeans.PrettyDocument | crates/victauri-cli/src/jsonc.rs:231-269 | Also as a document of its own. |
| KeyOrder.SortedKeys | crates/victauri-cli/src/jsonc.rs:248-254 | The written keys are each key exactly once, the well-known ones first, the rest in order. |
| JsoncInsertTheorems.SpliceIntoRoot | crates/victauri-cli/src/jsonc.rs:324-357 | Without a member of that name the splice adds the servers object to the root, or is unreadable exactly because of a stray comma. |
| JsoncInsertTheorems.SpliceIntoMember | crates/victauri-cli/src/jsonc.rs:324-357 | With one, the splice adds the entry to the last member of that name and changes nothing else. |
| JsoncInsertSite.SpliceBefore | crates/victauri-cli/src/jsonc.rs:350-356 | Behind the brace of an object with members, the blanked result is the old object with one member more in front. |
| JsoncInsertSite.SpliceInto | crates/victauri-cli/src/jsonc.rs:338-349 | In an empty object, whatever comments it holds, the blanked result is that object with the one member, or cannot be read because of a stray comma. |
| JsoncInsertOutcome.InsertOutcome | crates/victauri-cli/src/jsonc.rs:275-374 | Decides every call: it writes if and only if the entry is wanted and no comma stands between the braces of an empty target; says "already present" if and only if it is; the refusal for an unexpected shape is unreachable. |
| JsoncInsertOutcome.WrittenIsPlus | crates/victauri-cli/src/jsonc.rs:358-373 | What is written reads as the document there was plus exactly the one entry. |
| JsoncInsertOutcome.TextIsKept | crates/victauri-cli/src/jsonc.rs:322-356 | The result is all of the old text, byte order mark included, around one new line right behind an opening brace, or behind all that stands between the two of an empty object, of which only what trimming takes away entirely is left out. The line holds the name and a text that reads as the entry, or the key and one that reads as an object of just the entry; behind it comes a comma, or a line break, the indentation of the brace's line and the closing brace. |
| JsoncInsertLayout.NewLineIs | crates/victauri-cli/src/jsonc.rs:192-216 | In terms of the text's bytes: if no line break of the text has a carriage return, the inserted text has none; if one has, every line feed in it follows one. Before the key stand a line break, the spaces and tabs that the brace's line starts with, and one unit: a tab, or the run of the first line after the first that is indented and not blank, or two spaces. |
| JsoncInsertLayout.DetectIndentIs | crates/victauri-cli/src/jsonc.rs:192-207 | That unit, on any text. |
| JsoncInsertLayout.LineIndentIs | crates/victauri-cli/src/jsonc.rs:210-216 | That run, at any place. |
| JsoncInsertOutcome.InsertTwice | crates/victauri-cli/src/jsonc.rs:308-311 | A second insertion of the same name leaves the file alone. |
| JsoncInsertOutcome.FreshMeans | crates/victauri-cli/src/jsonc.rs:281-295 | With no document to start from, the new one holds exactly the entry; it ends with a line break and has no carriage return. |
| JsoncInsertOutcome.DocumentIsNotBlank | crates/victauri-cli/src/jsonc.rs:290-295 | A document is never taken for an empty file. |
| RustCodeLoops.RustCodeOnly | crates/victauri-cli/src/main.rs:2316-2419 | The in-place scan computes the specified blanking. |
| RustCodeLoops.RegionFrom | crates/victauri-cli/src/main.rs:2329-2413 | The branches and loops of one turn find where the comment or literal at an index ends. |
| RustCodeFacts.PlacesKept | crates/victauri-cli/src/main.rs:2311-2315 | The length and every line break stay; a byte changes only to a space. |
| RustCodeFacts.NoQuoteLeft | crates/victauri-cli/src/main.rs:2316-2419 | No double quote is left, on any input. |
| RustCodeFacts.NoOpenerLeft | crates/victauri-cli/src/main.rs:2316-2419 | No comment opener is left, on any input. |
| RustCodeFacts.Idempotent | crates/victauri-cli/src/main.rs:2316-2419 | A second pass changes nothing. |
| RustCodeFacts.StaysUtf8 | crates/victauri-cli/src/main.rs:2416-2419 | Valid UTF-8 stays valid, also with unterminated literals, so the fallback is never taken. |
| RustCodeFacts.CharSizeIs | crates/victauri-cli/src/main.rs:2400-2405 | The size read off a character's first byte is the length of that character in UTF-8. |
| RustPieces.CodeOnlyOfPieces | crates/victauri-cli/src/main.rs:2311-2419 | For any source made of code, comments nested to any depth, strings, raw strings with any number of hashes, character literals and quotes that open none, exactly the comments and literals become spaces; raw identifiers, identifiers that end in `r` and lifetimes of any letters stay code. |
| RustPieces.BlockEnds | crates/victauri-cli/src/main.rs:2337-2354 | A block comment ends at the mark that closes the outermost of the comments nested in it. |
| RustPatch.PatchesTheOne | crates/victauri-cli/src/main.rs:2426-2433 | A patch is made if and only if exactly one builder call lies in code. |
| RustPatch.PatchWraps | crates/victauri-cli/src/main.rs:2434-2450 | It writes, byte for byte, the text before that call, the call wrapped, all that follows, a line break if none ends it, and the snippet line by line in the line breaks of the text. |
| CssRoundTrip.SelectorRoundTrips | crates/victauri-core/src/codegen.rs:365-404 | Every selector the observer records is read back as what was recorded, whatever markers its quoted values contain; NUL becomes the replacement character. |
| CssRoundTrip.SelectorsAreUnambiguous | crates/victauri-core/src/codegen.rs:336-338 | No two different recordings without NUL are written alike. |
| CssRoundTrip.StringReads | crates/victauri-core/src/codegen.rs:413-429 | A serialized string is decoded to itself, up to its own closing quote and no further. |
| CssRoundTrip.IdentRoundTrips | crates/victauri-core/src/codegen.rs:432-443 | A serialized non-empty identifier is decoded to itself. |
| CssRoundTrip.IdentStarts | crates/victauri-plugin/src/js_bridge.rs:4523-4540 | What is written for a non-empty text starts as an identifier may: no digit first or behind a first hyphen, and no hyphen alone. |
| CssRoundTrip.WithoutNulIs | crates/victauri-core/src/codegen.rs:470-474 | Decoding is exact if and only if there is no NUL. |
| CssRoundTrip.OthersStayCss | crates/victauri-core/src/codegen.rs:392-404 | A tag of any kind, custom elements included, with a name, with classes or alone stays plain CSS. |
| CssLoops.DecodeString | crates/victauri-core/src/codegen.rs:413-429 | The loop decodes what the specification decodes. |
| CssLoops.DecodeIdent | crates/victauri-core/src/codegen.rs:432-443 | The same for identifiers. |
| CssLoops.EscapeFrom | crates/victauri-core/src/codegen.rs:447-475 | One escape, of up to six digits and one space, is consumed exactly. |
| Bridge.NeverSentTwice | crates/victauri-cli/src/bridge.rs:652-659 | Whatever discovery and the backend answer, a tool call is sent at most four times, and never again after an attempt that may have reached the app. |
| Bridge.OtherMethodsMayRepeat | crates/victauri-cli/src/bridge.rs:652-659 | Other methods are sent again after such an attempt. |
| BridgeRuns.EveryRequestAnswered | crates/victauri-cli/src/bridge.rs:269-380 | Over every interleaving of input loop, request tasks and forwarder: every request read is in one of at most 32 tasks or was dealt with exactly once, and then a response without a method and with exactly its id was written, if and only if it is not `notifications/initialized`. |
| BridgeRuns.PostedOnce | crates/victauri-cli/src/bridge.rs:826-967 | In every such run all that is posted for a message is posted in one go of at most four attempts, and a tool call is not posted again after an attempt that may have reached the app. |
| BridgeRuns.BackendIsHeard | crates/victauri-cli/src/bridge.rs:826-967 | In every such run, what is written for a request that was posted is what the backend answered to the last attempt, in that sense. |
| BridgeRuns.OneWayInOrder | crates/victauri-cli/src/bridge.rs:383-415 | In every such run the forwarder takes notifications and client responses in the order they were read, passes over none but those that found 1024 waiting, and deals with each it took exactly once. |
| Bridge.ForwardAnswers | crates/victauri-cli/src/bridge.rs:826-967 | A forwarded request never ends as merely accepted, and the lines relayed always contain its answer. |
| Bridge.RequestAnswered | crates/victauri-cli/src/bridge.rs:418-451 | So do the lines of every forwarded request, also when no backend is found. |
| Bridge.BackendIsRelayed | crates/victauri-cli/src/bridge.rs:826-967 | The lines written for a request, by the last attempt to post it: the body of a 2xx answer as it is if it holds the response, that body and one error under the id if it does not, one error for any other answer or for a tool call that may have run, and else what is known without a backend. |
| Bridge.AttemptsAre | crates/victauri-cli/src/bridge.rs:856-967 | Attempts are made one after another exactly as long as the session is gone, or nothing can have run and a backend is found again, up to four. |
| BridgeRuns.NothingElseAnswered | crates/victauri-cli/src/bridge.rs:294-415 | In every such run, all that is written for a notification or a client's response is notices with a method, and nothing at all for one that was queued, forwarded or dropped, whatever the backend answers to it. |
| BridgeRuns.RunKeeps | crates/victauri-cli/src/bridge.rs:203-265 | The invariant holds after every run: one permit is out per task, the queue stays within its bound and in order, and every message read is in exactly one place. |
| Bridge.BatchIsAnswered | crates/victauri-cli/src/bridge.rs:481-507 | A batch is answered as section 6 of the JSON-RPC 2.0 specification says: one error for each element that is owed one, in order and under its id, and never an empty array. |
| Bridge.OwedAtHolds | crates/victauri-cli/src/bridge.rs:492-506 | Owed are exactly the elements that are neither notifications nor responses. |
| Bridge.OwedAtAscends | crates/victauri-cli/src/bridge.rs:492-506 | Each is listed once, in order. |
| BridgeServer.Forward | crates/victauri-cli/src/bridge.rs:826-967 | The retry loop makes the attempts of the specification and ends as it does. |
| BridgeServer.RejectBatch | crates/victauri-cli/src/bridge.rs:481-507 | The loop over a batch builds the specified answer. |
| BridgeServer.Server.HandleMessage | crates/victauri-cli/src/bridge.rs:269-380 | Lines, queue, permits, cached handshake and ready flag after one message: answered here, queued while there is room, spawned under a permit, or refused when none is left; and it is the step of the state machine. |
| BridgeServer.Server.AnswerRequest | crates/victauri-cli/src/bridge.rs:356-361 | A spawned task writes the lines of its request together and returns the permit. |
| BridgeServer.Server.TakeOneWay | crates/victauri-cli/src/bridge.rs:217-224 | The forwarder receives the message that has waited longest. |
| BridgeServer.Server.ForwardOneWay | crates/victauri-cli/src/bridge.rs:399-415 | Posts it as the retry loop does, and writes nothing to the client whatever comes of it. |
| Handshake.NeverTooEarly | crates/victauri-cli/src/bridge.rs:724-755 | In every interleaving of poller and input loop no refresh is announced before the client is ready. |
| Handshake.NeverForgotten | crates/victauri-cli/src/bridge.rs:334-344 | Whenever both are between steps with the backend up and the client ready, a refresh was announced since the backend last came up. |
| Handshake.ComingUpIsAnnounced | crates/victauri-cli/src/bridge.rs:746-755 | In any state, a backend that comes up is announced to a client that is ready, once, and polling goes on. |
| Handshake.GettingReadyIsAnswered | crates/victauri-cli/src/bridge.rs:334-344 | In any state with the backend up, a client that gets ready is told, once, and the input loop reads on. |
| Handshake.StepKeeps | crates/victauri-cli/src/bridge.rs:724-755 | Every step of either task keeps the invariant behind both. |
| Recording.AppendFollows | crates/victauri-core/src/recording.rs:276-293 | Below saturation the retained events are the end of everything recorded, under their own numbers, and as many as the capacity allows. |
| Recording.WindowIsExact | crates/victauri-core/src/recording.rs:524-544 | A window holds exactly what is left of the half-open range, under its own numbers and in either order of its ends, and `dropped` is exactly what was evicted from it. |
| Recording.CheckpointWindowIsExact | crates/victauri-core/src/recording.rs:497-544 | The same between two checkpoints, for which there is a window if and only if both are there, and the same one in either order. |
| Recording.ImportNumbersAhead | crates/victauri-core/src/recording.rs:593-627 | An import keeps the newest entries within the caps, and below saturation numbers past every event and not before any checkpoint. |
| Recording.AppendNumbersAhead | crates/victauri-core/src/recording.rs:276-293 | Which goes on as long as the counter does. |
| Recording.SaturationRepeats | crates/victauri-core/src/recording.rs:279-282 | At the largest index the counter stands still and events share a number. |
| RecorderRuns.GenerationsAreUnique | crates/victauri-core/src/recording.rs:155-157 | Over every interleaving of starts, stops, imports and records, hostile imports included, no two recordings share a generation, although imports draw theirs before they take the lock. |
| RecorderRuns.RecordsOnlyItsOwn | crates/victauri-core/src/recording.rs:265-274 | In every reachable state, an event recorded under a generation goes into the recording it was issued for or nowhere. |
| RecorderRuns.StopsOnlyItsOwn | crates/victauri-core/src/recording.rs:361-368 | A stop under a generation ends the recording it was issued for or nothing. |
| RecorderRuns.TokenReachesItsOwn | crates/victauri-core/src/recording.rs:117-120 | Over any run that records only under one generation, with any starts, stops and imports between, no other recording, earlier or later, receives an event. |
| RecorderRuns.TokenEndsItsOwn | crates/victauri-core/src/recording.rs:361-368 | Over any run that stops only under one generation, and in which no import replaces an active recording unasked, no other recording ends, even one that reuses the session id. |
| RecorderRuns.SessionIdsRepeat | crates/victauri-core/src/recording.rs:350-357 | A stop under a session id can end another recording that reuses it. |
| RecorderRuns.NothingDiscarded | crates/victauri-core/src/recording.rs:574-591 | Over any run in which imports wait for an idle recorder, an active recording goes on until it is stopped and kept as the last session: no start and no import discards it. |
| RecorderRuns.ImportDiscards | crates/victauri-core/src/recording.rs:570-573 | An import that does not wait can discard one: it is then neither active nor the last session. |
| RecorderRuns.WindowsAreExact | crates/victauri-core/src/recording.rs:497-544 | After every run, windows of a started recording, active or the last one stopped, are exact against its whole history, as long as that recording has at most 2^64 - 1 events; imports and other recordings in the run may saturate. |
| RecorderRuns.NumbersStayAhead | crates/victauri-core/src/recording.rs:593-627 | After every run, as long as its counter has not reached the end, the active recording, imported or not, numbers its next event past every event it holds and not before any checkpoint. |
| RecorderRuns.RunKeeps | crates/victauri-core/src/recording.rs:117-120 | The invariant over recorder, last session, imports under way and histories holds after every run, without conditions. |
| Recorder.EventRecorder.StartSession | crates/victauri-core/src/recording.rs:184-201 | Refused while one is active; otherwise a fresh recording under a fresh generation. As for every method here, the state the recorder stands for goes to the next of the state machine, and its invariant holds. |
| Recorder.EventRecorder.StopIfGeneration | crates/victauri-core/src/recording.rs:361-368 | Ends the recording of that generation and keeps it as the last session, or changes nothing. |
| Recorder.EventRecorder.StopIfSession | crates/victauri-core/src/recording.rs:350-357 | The same by session id. |
| Recorder.EventRecorder.RecordEvent | crates/victauri-core/src/recording.rs:253-258 | Appends to the active recording, if there is one. |
| Recorder.EventRecorder.RecordEventIf | crates/victauri-core/src/recording.rs:265-274 | Appends only into the recording of that generation, and says whether it did. |
| Recorder.EventRecorder.AppendEvent | crates/victauri-core/src/recording.rs:276-293 | The next index, and the oldest event let go when full. |
| Recorder.EventRecorder.Checkpoint | crates/victauri-core/src/recording.rs:303-331 | At the current index; refused without a recording or with an id already taken. |
| Recorder.FindCheckpoint | crates/victauri-core/src/recording.rs:516-529 | The search returns the index of the first checkpoint of that id, or nothing when there is none. |
| Recorder.EventsWithin | crates/victauri-core/src/recording.rs:537-541 | The filter keeps exactly the events of the half-open range, in order. |
| Recorder.EventRecorder.Window | crates/victauri-core/src/recording.rs:497-544 | The window of the active recording, else of the last session, found by these loops; for a started recording of fewer than 2^64 events it is exact against everything ever recorded into it, and there is one if and only if both checkpoints are there. |
| Recorder.EventRecorder.ImportedSession | crates/victauri-core/src/recording.rs:593-627 | The loops that trim a session leave exactly its newest entries. |
| Recorder.EventRecorder.ImportIfIdle | crates/victauri-core/src/recording.rs:582-591 | Installs the import only when idle, and draws a generation either way; the two steps of the state machine. |
| Recorder.EventRecorder.Import | crates/victauri-core/src/recording.rs:570-573 | Installs it whatever is active; the two steps of the state machine. |
| Recorder.EventRecorder.Finish | crates/victauri-core/src/recording.rs:224-237 | The active recording becomes the last session. |
| StateCompareFacts.PassesExactlyWhen | crates/victauri-core/src/verification.rs:28-162 | The check passes if and only if the values are strictly equal and containers at the depth limit are identical. |
| StateCompareFacts.EqualValuesPass | crates/victauri-core/src/verification.rs:28-162 | Strictly equal values whose containers all lie above the limit pass. |
| StateCompareFacts.DeepEqualValuesFail | crates/victauri-core/src/verification.rs:43-48 | At the limit, `[5]` and `[5.0]` are equal and still reported. |
| StateCompareFacts.EqualToItself | crates/victauri-core/src/verification.rs:672-686 | Every value is strictly equal to itself. |
| StateCompareFacts.NumbersSymmetric | crates/victauri-core/src/verification.rs:657-670 | Equality of numbers does not depend on the side. |
| StateComparePaths.ReportsAreTheParts | crates/victauri-core/src/verification.rs:50-162 | Reported are exactly the places where the two values part, each under the path that leads there in both, with what stands there on either side, nothing for what is missing, and a note in place of what lies too deep. |
| StateCompareSwap.SidesSwap | crates/victauri-core/src/verification.rs:50-162 | With the sides swapped, the same paths are reported, each as often. |
| StateCompareLoop.Walker.CompareValues | crates/victauri-core/src/verification.rs:50-162 | The walk appends exactly the specified divergences to those already collected. |
| StateCompareLoop.Walker.CompareObjects | crates/victauri-core/src/verification.rs:85-119 | Members in key order, then those only the backend has. |
| StateCompareLoop.Walker.CompareArrays | crates/victauri-core/src/verification.rs:120-147 | Items by index, to the end of the longer array. |
| StateCompareLoop.VerifyState | crates/victauri-core/src/verification.rs:28-41 | Passes exactly when the walk finds nothing. |

## Left out

- Weak memory: the atomics of the rate limiter, the refusal log and the bridge's flags are sequentially consistent here.
- A rename to a timestamped name while a `.jsonl.1` is left in place is outside the rotation theorem; `LeftoverOldLosesSilently` shows what it does.
- Partial writes: a write to the capture happens whole or not at all.
- Parsing of capture records into log entries, and the choice of level: the follower's theorem is about lines; that each line written parses is `CaptureRecord.LineReads` and `ExitReads`.
- `strip_ansi` and lossy UTF-8 decoding are one arbitrary function from raw lines to text.
- `serde_json`'s recursion limit of 128 and the range of its numbers: the JSON reader here accepts any depth, and a number is its text. A document or entry nested deeper than the limit is refused by the program.
- The order of keys under `serde_json`'s `preserve_order` feature: objects are written and walked in sorted order here.
- Other programs that rename or remove files in the directory of a capture.
- Messages and results of the bridge: a reply is its id and whether it is a result or an error; the texts are not modelled.
- The bridge's session id and backend handshake, its HTTP and event-stream parsing, and the ten seconds it waits for tasks and forwarder after its input ends.
- Generation numbers are unbounded; after 2^64 recordings the program's would repeat.
- Recorder.EventRecorder.Window: takes one step, where the program lets go of one lock before it takes the other; `RecorderRuns.WindowsAreExact` is about what it finds under either.
- Timestamps, labels and exports of the recorder, and `events_since`, `events_between` and the replay sequence.
- Float arithmetic of the state comparison is over real numbers, without rounding; severities of divergences are not modelled.
- `json_values_equal` and the other assertion conditions of `verification.rs`.
- `escape_rust_str` and the emitted test code: they rest on Unicode tables.
- `optional_wiring_snippet`: the patch takes the snippet as given.
- BlankUtf8: states validity of the result, not that each character of a string is kept; that is `BlankCleans`.
- Everything that only adds easy members: discovery, templates, TOML edits, the registry, snapshots.
