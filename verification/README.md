# RunOnMine verification

A Dafny model of the parts of RunOnMine whose correctness is hardest to see from the code, with
proofs for all inputs, all runs and all interleavings. `dafny verify dfyconfig.toml` checks the
whole project.

| Component | Modules | Central result |
|---|---|---|
| Secret redaction of child output | `Redaction`, `Streaming`, `Overlaps`, `LogText`, `LogLines`, `LogReader` | However the stream is cut, both readers write the leftmost, longest-first redaction of the whole stream |
| Shared output budget | `OutputBudget`, `RunOnce` | Under every interleaving no byte of the budget is lost or spent twice, and the truncation flag is exact |
| Connector supervisor | `RestartPolicies`, `Supervisor` | Against every environment: one child at a time, states in order, a bounded number of starts |
| Versioned binary store | `ActivationStack`, `VersionStore` | At every crash point versions are whole and immutable; activations form a stack |
| Configuration | `ConfigValidation`, `ConfigTransaction`, `ConfigConcurrency` | The validators mean what they should, transactions end in a known state, no update is lost |
| Command-line quoting | `CommandLine`, `PosixQuoting`, `WindowsQuoting` | Reading a rendered command gives back its arguments |
| Encodings | `Encodings`, `AuditMac`, `Approval` | What is hashed determines every field |
| Release provenance | `Provenance` | The two-root threshold, exactly, in any order of signatures; only the selected asset of a signed manifest resolves |
| Binary versions | `StringOrder`, `BinaryVersions` | Parsing inverts printing; the order is total |

## How things are modelled

- **Bytes, not text.** Redaction is modelled on bytes, before the lossy UTF-8 decoding. For
  one-shot commands the decoding is an arbitrary function applied piece by piece, as in the
  source; for log events it is left out.
- **Environments are parameters.** A chunked stream is a list of reads that may end in an error. A
  schedule is a list of atomic steps. The supervisor gets a script of spawns, ticks, kills and
  waits; a script that breaks off is a run that has not got further. File-system steps get a fate:
  they work, they fail, or the process dies right before them.
- **Cryptography and parsers are arbitrary functions.** SHA-256, HMAC, BLAKE3, Ed25519, base64,
  JSON and TOML are function parameters. Nothing is assumed about them unless a clause says so (a
  lossless TOML); the version store does not even need a collision-free digest.
- **Widths are explicit.** Counters that saturate at 32 bits, durations that saturate at
  `Duration::MAX` and 64-bit length prefixes are written out. The saturation of the Windows
  quoting's backslash counter cannot be reached, because a string has at most `isize::MAX` bytes,
  and is not modelled.
- **Objects stay objects.** The log reader, the version store, the configuration store and the
  running hash are classes whose methods update their fields. Loops stay loops.

## What the proofs brought to light

- `update_with_activation` and `update_with_rollback` promise the old configuration on an error.
  That fails for a fault after the rename (syncing the directory, restricting the mode): the error
  comes with the new file. It also fails without any fault: a load refuses files over 1048576 bytes
  and a save does not check the size. A file that leaves out defaulted tables can be short enough
  to load and too long once it is printed again, for instance one with 64 connectors of 256 short
  rules each; restoring it after a failed activation leaves a file that every later load refuses
  (`RestoredTooLong`), and a successful update can do the same. `ErrorRestoresIff` and
  `LoadsBackIff` give the exact conditions, and `CompositionIff` carries them to concurrent callers.
- Activating and rolling back a binary version can report an error after the rename as well; the
  contracts of `Activate` and `Rollback` say so.
- A failure to restrict a new staging directory leaves it behind without cleanup (`AddVersion`);
  such leftovers are skipped when versions are listed.
- If the existing configuration cannot be loaded, an update fails without calling the rollback.
  That is right, since the mutation has not run, and it is why the rollback runs "at most once".
- A `max_restarts` of `u32::MAX` is no limit: the saturating counter cannot exceed it. The bound
  needs a limit below that, and `BoundReached` shows it.
- Backoff equals ideal exponential backoff beyond restart 32 as well when the multiplier is one or
  when the maximum has been reached; `DelayIdealExactly` states when.
- The buffer bound and the no-newline claim of the drain rely on the secret size limit not
  exceeding the event size limit; both are 16 KiB.
- The comment on `redact_prefix` says that no partial secret is emitted. That holds at the
  boundary it speaks of. An occurrence that begins inside another one that is replaced can keep
  its end: with the secrets `ab` and `bc`, the `c` of `abc` stays (`SomeByteStays`). Whether that
  can happen is decided by the secrets alone. No byte ever stays if and only if every join of two
  secrets that run into each other is made of secrets (`NoByteStaysIff`), and one marker always
  covers an occurrence if and only if every such join is itself a secret (`OneMarkerIff`).
- The truncation flag is exact unless the budget is used up exactly and a stream ends in an empty
  request (`FlagRightIff`). The readers of `run_once` are proved never to make an empty request.

## Model

| member | source | states |
|---|---|---|
| Redaction.NewSecret | crates/runonmine-connectors/src/process.rs:29-44 | A value becomes a secret exactly when it is not empty, not longer than 16 KiB and free of NUL, CR and LF, and it is then kept unchanged; which check rejects a value is part of the result. |
| Redaction.MakeRedactorComplete | crates/runonmine-connectors/src/process.rs:282-297 | Collecting, sorting and deduplicating loses and invents nothing: the redactor holds exactly the secrets of the arguments and of the environment, longest first, no two neighbours equal. |
| Redaction.SortIsStable | crates/runonmine-connectors/src/process.rs:294 | Sorting keeps every occurrence, and secrets of one length in the order in which the command names them; with longest first that determines the sorted list. |
| Redaction.MarkerReads | crates/runonmine-connectors/src/process.rs:19 | The marker is the text [REDACTED], byte by byte. |
| Redaction.OverlapLen | crates/runonmine-connectors/src/process.rs:337-344 | The look-ahead is the length of the longest secret minus one, zero without secrets, and below the secret size limit. |
| Redaction.MatchAtComplete | crates/runonmine-connectors/src/process.rs:354-358 | The first listed secret that matches at a position is the longest of all secrets that occur there; no match means that none occurs there. |
| Redaction.RedactIsLeftmostLongest | crates/runonmine-connectors/src/process.rs:349-368 | The one-shot pass writes the leftmost, longest-first redaction, defined from the set of secrets alone, by spans and without an algorithm. |
| Redaction.LeftmostLongestUnique | crates/runonmine-connectors/src/process.rs:349-368 | That definition leaves no choice: any two such redactions of one stream are equal. |
| Redaction.OccurrenceHidden | crates/runonmine-connectors/src/process.rs:294-297 | The first byte of every occurrence of every secret, overlapping ones and prefixes of others included, lies in a span that is replaced by the marker; the occurrence is replaced whole unless it begins inside an earlier replaced one. |
| Overlaps.OneMarkerIff | crates/runonmine-connectors/src/process.rs:346-368 | Every occurrence of every secret in every stream is replaced by a single marker if and only if joining two secrets, where the end of one is the beginning of the other, always gives a secret. |
| Overlaps.NoByteStaysIff | crates/runonmine-connectors/src/process.rs:346-368 | No byte of any occurrence of any secret in any stream is passed through if and only if every such join is used up by taking the longest secret off its front again and again; that is decided by the secrets alone. |
| Overlaps.SomeByteStays | crates/runonmine-connectors/src/process.rs:346-348 | With the secrets ab and bc a byte of an occurrence does stay. |
| Overlaps.HiddenByTwo | crates/runonmine-connectors/src/process.rs:349-368 | With the secrets ab, bc and c no byte stays, although one marker is not always enough. |
| Overlaps.HiddenByOne | crates/runonmine-connectors/src/process.rs:349-368 | With the secrets abc, ab and bc one marker is always enough, although ab still runs into bc. |
| Streaming.RedactPrefix | crates/runonmine-connectors/src/process.rs:349-368 | The loop over `cursor` writes and consumes what walking the window up to the safe prefix prescribes, consuming past it only for a secret that crosses it. |
| Streaming.WalkAgrees | crates/runonmine-connectors/src/process.rs:353-366 | Walking a window of the stream gives the same bytes as walking the stream, as long as the window shows the same secret at every position of the safe prefix. |
| Streaming.CutFits | crates/runonmine-connectors/src/process.rs:403-434 | With `overlap_len` bytes of look-ahead, or with a newline at the cut, no secret that begins before the cut reaches past what has been read. |
| Streaming.CutSettles | crates/runonmine-connectors/src/process.rs:426-431 | A cut made under either rule keeps everything written so far right for every possible continuation of the stream. |
| Streaming.EndSettles | crates/runonmine-connectors/src/process.rs:417-424 | At the end of the stream, redacting the rest of the buffer completes the redaction of the whole stream and consumes the buffer. |
| Streaming.ReadRedacted | crates/runonmine-connectors/src/process.rs:403-434 | For every secret set, byte stream and chunking into reads, the appended pieces together are the one-shot redaction of the whole stream, none of them is empty, and there is no output exactly after a read error. |
| LogText.LineCut | crates/runonmine-connectors/src/supervisor.rs:627-656 | Cutting after the first newline consumes exactly the line, and its newline is the last byte written and the only one. |
| LogText.EmitLogText | crates/runonmine-connectors/src/supervisor.rs:658-680 | The loop cuts the text into the pieces of the greedy split, which is the only one (next row). |
| LogText.PiecesGreedyIff | crates/runonmine-connectors/src/supervisor.rs:658-680 | A list of pieces is what is sent if and only if it is the greedy split of the text, defined without the search: a text that fits is one piece; otherwise the first piece ends at the greatest character boundary from 1 to 16384, or is the whole text if there is none; and so on with the rest. |
| LogText.PiecesFull | crates/runonmine-connectors/src/supervisor.rs:663-672 | Every piece of UTF-8 text but the last has 16381 to 16384 bytes. |
| LogText.TrimEndMeans | crates/runonmine-connectors/src/supervisor.rs:653 | Trimming removes all CR and LF at the end and nothing else. |
| LogText.LeadingBits | crates/runonmine-connectors/src/supervisor.rs:664-667 | Which bytes continue a character and which begin one of how many bytes, by their leading bits. |
| LogText.PiecesJoin | crates/runonmine-connectors/src/supervisor.rs:658-680 | The pieces of any text are not empty and their concatenation is the text. |
| LogText.PiecesUtf8 | crates/runonmine-connectors/src/supervisor.rs:663-672 | The pieces of UTF-8 text are UTF-8 and at most 16 KiB long. |
| LogText.PiecesBounded | crates/runonmine-connectors/src/supervisor.rs:663-672 | A piece exceeds 16 KiB only if the text has four continuation bytes in a row, which UTF-8 never has. |
| LogText.WalkCalm | crates/runonmine-connectors/src/process.rs:349-368 | Redaction creates no run of four continuation bytes, so the size bound holds for whatever part of a redacted UTF-8 stream is sent. |
| LogText.Utf8Cut | crates/runonmine-connectors/src/supervisor.rs:663-672 | Cutting UTF-8 at a character boundary leaves UTF-8 on both sides. |
| LogText.Utf8BoundaryNear | crates/runonmine-connectors/src/supervisor.rs:664-667 | Among any four neighbouring positions of UTF-8 there is a boundary, so the backwards search ends before it reaches its start. |
| LogReader.LineReader.constructor | crates/runonmine-connectors/src/supervisor.rs:594-607 | A new reader has read, kept and sent nothing, and satisfies the reader invariant. |
| LogReader.LineReader.Feed | crates/runonmine-connectors/src/supervisor.rs:617-619 | Appending what was read keeps the invariant: what has been sent is right whatever is read next. |
| LogReader.LineReader.SafePrefix | crates/runonmine-connectors/src/supervisor.rs:633-652 | The three cut rules, exactly: right after the first newline if it is within reach, otherwise the greatest cut that keeps full look-ahead and fits an event; stopping means that no newline is pending and that the buffer is bounded. |
| LogReader.LineReader.DrainOnce | crates/runonmine-connectors/src/supervisor.rs:652-655 | One turn of the drain keeps the invariant and shortens the buffer, so the drain terminates; a cut at a newline removes exactly the line and sends exactly the events of its redaction. |
| LogReader.LineReader.DrainPendingLog | crates/runonmine-connectors/src/supervisor.rs:627-656 | After every drain no newline is pending, at most 16 KiB plus the overlap are, and what has been sent is still right; while all lines are short, what has been sent is the events of the whole lines read so far. |
| LogReader.LineReader.Flush | crates/runonmine-connectors/src/supervisor.rs:609-616 | At the end of the stream the buffer is emptied, its redaction is sent as the last line, and everything sent is, up to CR and LF, the redaction of everything read. |
| LogLines.LineAlone | crates/runonmine-connectors/src/supervisor.rs:640-655 | Cut at its newline, a line is redacted as if it were alone, whatever follows it in the buffer. |
| LogLines.OneEventPerLine | crates/runonmine-connectors/src/supervisor.rs:652-680 | When every redacted and trimmed line fits into an event, there is exactly one event for each line whose text is not empty. |
| LogReader.ReadLines | crates/runonmine-connectors/src/supervisor.rs:594-625 | For every chunking the events are, once CR and LF are erased from both, the one-shot redaction of the whole stream; after a read error they are a beginning of the redaction of every continuation. No event is empty or holds a newline, and none exceeds 16 KiB if the stream has no four continuation bytes in a row. When every line fits into an event, the events are exactly those of the trimmed redactions of the lines, in order, and after an error those of the ended lines. |
| OutputBudget.StepKeepsInv | crates/runonmine-connectors/src/output.rs:20-43 | Every atomic step of `reserve`, by any of any number of readers, keeps the invariant that ties the budget, the flag and each reader's output together; a compare-exchange may fail spuriously and the flag is stored later than the exchange. |
| OutputBudget.Conserved | crates/runonmine-connectors/src/output.rs:20-43 | In every state any interleaving reaches, bytes taken plus bytes remaining equal the maximum. |
| OutputBudget.Completed | crates/runonmine-connectors/src/output.rs:20-48 | When all readers are done, each kept a prefix of its own stream, together they kept the minimum of the maximum and of what was asked for, a loss is always flagged, and the flag is exact unless the budget is used up exactly and a stream ends in an empty request. |
| OutputBudget.NeverStuck | crates/runonmine-connectors/src/output.rs:20-43 | From every state any interleaving reaches there is a continuation in which all readers finish. |
| OutputBudget.FalseAlarm | crates/runonmine-connectors/src/output.rs:20-43 | For every budget that is used up exactly and every stream that ends in an empty request there is a complete run that raises the flag although nothing is lost. |
| OutputBudget.FlagRightIff | crates/runonmine-connectors/src/output.rs:20-48 | The flag is right in every complete run if and only if what is asked for differs from the maximum or no stream ends in an empty request. |
| RunOnce.Collect | crates/runonmine-connectors/src/process.rs:170-189 | The two readers keep a prefix each, together as much as the budget allows, with an exact flag, for every complete interleaving and for no other schedule. |
| RunOnce.RunCommand | crates/runonmine-connectors/src/process.rs:150-201 | End to end: for any chunking of both pipes and any interleaving of the two readers, what is kept of each pipe is a prefix of its redaction as the pieces are decoded one by one, together the two fill the budget as far as they can, and the truncation flag tells exactly whether anything was lost. Which error is returned for bad limits, a failed spawn, a failed wait or a failed pipe, and the success, exit code and timeout reported, are given exactly. |
| RestartPolicies.DelayBounded | crates/runonmine-connectors/src/supervisor.rs:127-146 | For every valid policy the delay lies between the initial and the maximum backoff and never decreases with the restart count. |
| RestartPolicies.DelayIdealExactly | crates/runonmine-connectors/src/supervisor.rs:140-146 | The delay never exceeds ideal exponential backoff, and equals it if and only if the power fits into 32 bits or the largest usable factor already reaches the maximum. |
| RestartPolicies.FittingPower | crates/runonmine-connectors/src/supervisor.rs:140-142 | A power that fits into 32 bits is never changed by the cap on the exponent or by saturation. |
| RestartPolicies.DelayOfCounter | crates/runonmine-connectors/src/supervisor.rs:140-146 | Counting restarts in 32 bits changes no delay. |
| RestartPolicies.ValidateMeans | crates/runonmine-connectors/src/supervisor.rs:127-138 | A policy is valid exactly when its backoff bounds are positive and in order, and multiplier, health interval, threshold and shutdown timeout are not zero. |
| Supervisor.TerminateChild | crates/runonmine-connectors/src/supervisor.rs:535-555 | Cleanup is complete exactly when a poll saw the exit before an error or the deadline; every other end of the kill reports an orphan risk. |
| Supervisor.MonitorChild | crates/runonmine-connectors/src/supervisor.rs:454-533 | The monitoring ends at the first event that calls for it, with the outcome that event calls for; saturation of the failure counter never changes a verdict; the exit was seen or an orphan risk is reported. |
| Supervisor.WaitBackoff | crates/runonmine-connectors/src/supervisor.rs:557-583 | The announced attempt and delay are those of the restart count, how the wait ends decides how the run goes on, and the announced attempt never exceeds the next start; what the delay is in milliseconds is the next row. |
| Supervisor.AnnouncedDelay | crates/runonmine-connectors/src/supervisor.rs:557-583 | In every allowed trace, every announced delay is, in whole milliseconds, the initial backoff times the multiplier to the power of the current streak of restarts less one, capped at the maximum, while that power fits into 32 bits or the maximum has been reached; it never exceeds that, and always lies within the bounds of the policy. |
| Supervisor.DelaysNeverFall | crates/runonmine-connectors/src/supervisor.rs:557-583 | In every allowed trace, between two announcements with no stable outcome in between the delay never falls. |
| Supervisor.FinishChild | crates/runonmine-connectors/src/supervisor.rs:368-445 | An outcome leads to a backoff exactly when it is restartable and the policy permits one more restart with the updated count, and to the terminal state it calls for otherwise; an orphan risk is never restarted. |
| Supervisor.SpawnFailed | crates/runonmine-connectors/src/supervisor.rs:300-331 | A failed spawn uses up one restart and leads to a backoff exactly while the policy permits it, and to a terminal state otherwise. |
| Supervisor.PlayRound | crates/runonmine-connectors/src/supervisor.rs:286-365 | One turn of the loop keeps the loop invariant, records exactly what the environment did, and continues, ends or waits exactly as the policy, the counter and the script say; the counter afterwards is given too. |
| Supervisor.OutcomeCounted | crates/runonmine-connectors/src/supervisor.rs:387-445 | The arithmetic of the bound: a stable outcome earns a new allowance of restarts, any other uses one up. |
| Supervisor.RunSupervisor | crates/runonmine-connectors/src/supervisor.rs:273-366 | For every script of the environment: rounds are played exactly until one ends the run or breaks off; every published state is allowed and justified by what came before it; with a limit m below u32::MAX and s stable outcomes there are at most 1 + m*(s+1) start attempts; a terminal state is published exactly when the last round played ended the run, and it reports an orphan risk exactly when the exit of the last child was not seen; starts, spawns, exits and outcomes are those of the rounds played. |
| Supervisor.BoundReached | crates/runonmine-connectors/src/supervisor.rs:298-332 | Spawns that keep failing reach m + 1 start attempts, and without a limit below u32::MAX there is no bound. |
| Supervisor.BoundAttained | crates/runonmine-connectors/src/supervisor.rs:387-445 | The bound cannot be lowered: for every limit m of at least one and every s there is a script with s stable outcomes and exactly 1 + m*(s+1) start attempts. |
| Supervisor.SpawnedThenRunning | crates/runonmine-connectors/src/supervisor.rs:297-342 | In every allowed trace a spawn comes right after the start it belongs to, and a successful one is followed at once by Running with the same attempt. |
| Supervisor.SpawnOnlyAfterExit | crates/runonmine-connectors/src/supervisor.rs:298-365 | In every allowed trace, between two spawns the exit of the earlier child was seen. |
| Supervisor.StatesInOrder | crates/runonmine-connectors/src/supervisor.rs:273-366 | The published states follow Starting, optional Running, Backoff, repeated, with no Backoff announcing an attempt above the next Starting, and a terminal state is the last one. |
| ActivationStack.PushKeeps | crates/runonmine-connectors/src/versioned_binary.rs:253-267 | Activating with a fresh id pushes onto the history and keeps it consistent. |
| ActivationStack.PopKeeps | crates/runonmine-connectors/src/versioned_binary.rs:126-136 | Popping the history gives exactly the manifest that was active before the activation on top. |
| ActivationStack.UsableIffTop | crates/runonmine-connectors/src/versioned_binary.rs:126-131 | The comparison `rollback` makes passes for the token on top and for no other; a buried token becomes usable again only when everything above it has been popped, a popped one never. |
| ActivationStack.PushPop | crates/runonmine-connectors/src/versioned_binary.rs:115-136 | Activating and rolling that activation back restores the active manifest and the stack; only the memory of the token and of its id remains. |
| ActivationStack.FlatRefinesStack | crates/runonmine-connectors/src/versioned_binary.rs:115-136 | Over every run, one flat manifest with tokens behaves like a stack of activations. |
| ActivationStack.PoppedStaysPopped | crates/runonmine-connectors/src/versioned_binary.rs:126-136 | Over every later run, the token of an activation that was rolled back never passes the comparison again. |
| VersionStore.ImmutableGrows | crates/runonmine-connectors/src/versioned_binary.rs:194-251 | A sound next state that keeps the versions of the present one extends the record of immutable states. |
| VersionStore.WholeThroughout | crates/runonmine-connectors/src/versioned_binary.rs:194-306 | Opened on a disk whose versions and manifest are in order, the store leaves it so at every recorded moment; field by field that is the next row. |
| VersionStore.NamesAreDigests | crates/runonmine-connectors/src/versioned_binary.rs:194-306 | In every recorded state of a store opened on an empty disk, or on one where this holds: every version directory is named by the 64 hexadecimal digits of the digest of the binary it holds and has a receipt of 1 to 65536 bytes, and the active manifest, if any, names one of them. |
| VersionStore.FilesOkMeans | crates/runonmine-connectors/src/versioned_binary.rs:282-306 | The check of a version directory, field by field: a name of 64 lower-case hexadecimal digits that is the digest of the binary, and a receipt of 1 to 65536 bytes. |
| VersionStore.TamperingShows | crates/runonmine-connectors/src/versioned_binary.rs:282-306 | Whatever replaces or removes the files of a version, it verifies afterwards exactly if the binary still has the digest that is its name and the receipt still has 1 to 65536 bytes; if it is the active one, resolving is refused otherwise; other versions are not affected. |
| VersionStore.VersionedBinaryStore.constructor | crates/runonmine-connectors/src/versioned_binary.rs:57-64 | A store can be opened on any disk and is then valid, with no activation of its own. |
| VersionStore.VersionedBinaryStore.Stage | crates/runonmine-connectors/src/versioned_binary.rs:228-235 | Staging touches only its own staging directory at every step and succeeds exactly when every step works and the copy still has the digest that was computed before it. |
| VersionStore.VersionedBinaryStore.AddVersion | crates/runonmine-connectors/src/versioned_binary.rs:225-250 | A new version directory appears exactly when every step up to the rename works and the copy has the digest; the answer is Ok exactly when the sync and the final check work too; exactly when the staging directory stays behind is stated, which includes an error of restricting it. |
| VersionStore.VersionedBinaryStore.Prepare | crates/runonmine-connectors/src/versioned_binary.rs:194-251 | At every crash point, and for a source that changes between hash and copy, version directories are only added, only whole, with the digest as name and a bounded receipt, and never altered; the answer is Ok exactly under a condition given for every fate of every step. |
| VersionStore.VersionedBinaryStore.VerifyVersionFiles | crates/runonmine-connectors/src/versioned_binary.rs:282-306 | The checks one by one accept exactly the directories whose name is a well-formed id and the digest of the binary, with a receipt within its bounds. |
| VersionStore.VersionedBinaryStore.VerifyVersion | crates/runonmine-connectors/src/versioned_binary.rs:274-306 | A version is accepted exactly when its files verify and its receipt is the given one; its binary then has its id as digest. |
| VersionStore.VersionedBinaryStore.SwitchActive | crates/runonmine-connectors/src/versioned_binary.rs:328-350 | Replacing or removing the active manifest keeps every recorded state sound and the manifest equal to the top of the history. |
| VersionStore.VersionedBinaryStore.Activate | crates/runonmine-connectors/src/versioned_binary.rs:253-267 | The activation is pushed exactly when the version verifies, the old manifest can be read and the rename happens, and then the binary has the id as digest; the answer is Ok exactly when the sync after it works too; otherwise the disk is unchanged. |
| VersionStore.VersionedBinaryStore.Rollback | crates/runonmine-connectors/src/versioned_binary.rs:126-136 | The token on top is popped and the previous manifest restored; any other token, also one from elsewhere that does not name the active manifest, fails and changes nothing. |
| VersionStore.VersionedBinaryStore.ResolveActive | crates/runonmine-connectors/src/versioned_binary.rs:138-146 | The active version is the top of the history, with a binary whose digest is its id, and is refused exactly when it does not verify; that never happens to a version this store activated, nor on a disk that was in order when it was opened. |
| VersionStore.VersionedBinaryStore.ListVersions | crates/runonmine-connectors/src/versioned_binary.rs:148-172 | Leftover staging directories are skipped; the list is refused exactly when some version does not verify, and otherwise every binary has its id as digest and every version is listed once, in increasing order of the ids. |
| ConfigValidation.ValidatePorts | crates/runonmine-core/src/config.rs:747-776 | The loop with a set of seen ports accepts exactly when the auxiliary ports of enabled connectors are pairwise distinct. |
| ConfigValidation.ValidateSingletons | crates/runonmine-core/src/config.rs:778-804 | Counting accepts exactly when no two connectors of a singleton kind count; a disabled OpenAI tunnel counts, a disabled connector of another kind does not. |
| ConfigValidation.CountMeaning | crates/runonmine-core/src/config.rs:778-804 | A count of at most one means that no two connectors of the kind count. |
| ConfigValidation.ValidateConnectors | crates/runonmine-core/src/config.rs:664-679 | The whole loop-based validation accepts exactly what the quantified reading allows: size, each connector's settings and ports, unique ids, distinct ports, singletons; the next rows give that over the fields. |
| ConfigValidation.ConnectorsOkMeans | crates/runonmine-core/src/config.rs:664-804 | A list is accepted if and only if it has at most 64 connectors, each acceptable by itself, and any two of them are compatible: different ids, no shared port if both are enabled, not both of one kind if both count. |
| ConfigValidation.ConnectorOkMeans | crates/runonmine-core/src/config.rs:806-899 | A connector is acceptable by itself if and only if its single fields are, it has a Quick setting exactly if it is a Quick tunnel, a named setting, an owner and a public URL exactly if it is an OAuth tunnel, an OpenAI setting exactly if it is an OpenAI tunnel, and no port of it is 0 or the agent's. |
| ConfigValidation.PairMeans | crates/runonmine-core/src/config.rs:747-804 | Two acceptable connectors are compatible exactly when ids differ, ports do not clash and they do not both count for one kind, kind by kind. |
| ConfigValidation.ReservedPortRejected | crates/runonmine-core/src/config.rs:951-956 | A list in which some connector, enabled or not, uses port 0 or the agent's port is rejected. |
| ConfigValidation.ValidateSettings | crates/runonmine-core/src/config.rs:806-899 | The checks of one connector, kind by kind, accept exactly the acceptable ones. |
| ConfigValidation.Validate | crates/runonmine-core/src/config.rs:521-529 | The whole validation accepts exactly the valid configurations. |
| ConfigValidation.ConfigOkMeans | crates/runonmine-core/src/config.rs:521-603 | A configuration is valid if and only if it has version 1, is bound to 127.0.0.1 on a port other than 0, has acceptable limits, browser settings and connectors and at most 256 allowed roots. |
| ConfigValidation.SelectionKeepsValid | crates/runonmine-core/src/config.rs:664-679 | Validity carries over to any selection of the connectors in order, with any of them disabled. |
| ConfigValidation.RemovalKeepsValid | crates/runonmine-core/src/config.rs:664-679 | Removing any connector keeps a valid list valid. |
| ConfigValidation.DisablingKeepsValid | crates/runonmine-core/src/config.rs:747-804 | Disabling any connector keeps a valid list valid. |
| ConfigValidation.ClearLegacyUrls | crates/runonmine-core/src/config.rs:406-416 | Clearing reports a change exactly when the configuration changed, and clears the runtime URL of Quick connectors only. |
| ConfigValidation.ValidIsCleared | crates/runonmine-core/src/config.rs:371-376 | A valid configuration has nothing to clear, so clearing leaves it as it is. |
| ConfigTransaction.ConfigStore.constructor | crates/runonmine-core/src/config.rs:444-454 | A transaction starts with the file as it is and with nothing called or written. |
| ConfigTransaction.ConfigStore.Save | crates/runonmine-core/src/config.rs:505-519 | Nothing invalid is ever written, and the file is replaced exactly when the rename happens. |
| ConfigTransaction.ConfigStore.Restore | crates/runonmine-core/src/config.rs:325-344 | Restoring writes the snapshot, or removes the file if there was none, unless it fails before the rename. |
| ConfigTransaction.ConfigStore.UpdateWithRollback | crates/runonmine-core/src/config.rs:444-466 | It succeeds exactly when nothing fails; the rollback runs once, before the unlock, exactly when the mutation ran and the transaction failed; the file changes exactly when the save renames. |
| ConfigTransaction.ConfigStore.UpdateWithActivation | crates/runonmine-core/src/config.rs:472-503 | For every placement of a failure: on Ok the activation ran once, after the save, and the rollback never; on an error after a successful load the rollback ran once, after the restore and before the unlock; the resulting file is given exactly, and every configuration written is valid. |
| ConfigTransaction.LoadsBackIff | crates/runonmine-core/src/config.rs:392-404 | When a load gives a configuration for what was saved; with a lossless TOML a saved configuration loads back if and only if its text has at most 1048576 bytes. |
| ConfigTransaction.ErrorRestoresIff | crates/runonmine-core/src/config.rs:472-503 | After an error every later load sees what it saw before if and only if the new file never reached the disk, or was left behind by a fault and loads as the original did, or the original was restored and there was none or its text comes back; with a lossless TOML the last two are equality and a text within the limit. |
| ConfigTransaction.RestoredTooLong | crates/runonmine-core/src/config.rs:392-404 | With no fault but the failing activation, a restored configuration whose text is too long is refused by every later load. |
| ConfigTransaction.LateSaveFaultLeavesFile | crates/runonmine-core/src/config.rs:505-519 | A concrete case of the failing family: a fault after the rename reports an error with a new file on disk. |
| ConfigConcurrency.StepKeepsInv | crates/runonmine-core/src/config.rs:472-503 | Every step of every caller, activating ones included, keeps mutual exclusion, a snapshot that is the one the holder found, and the file equal to the sequential replay of the log or to what the holder has tentatively saved. |
| ConfigConcurrency.StepKeepsOrder | crates/runonmine-core/src/config.rs:261-303 | Every step keeps the log equal to the order in which the lock was taken, restricted to the callers that touched the file. |
| ConfigConcurrency.NoLostUpdate | crates/runonmine-core/src/config.rs:436-503 | For any number of concurrent callers, with and without activation, and every interleaving, the file is what the callers that touched it make of the initial file one after the other, each once, in the order in which the run gave them the lock; every configuration ever written is valid, whoever was told Ok has committed, and exactly these have when there is no fault past a save. |
| ConfigConcurrency.ToldByItsSteps | crates/runonmine-core/src/config.rs:472-503 | In every run a caller is told Ok exactly when its configuration was committed by a save that worked and, if it activates, by an activation that worked; it restores only after a failed activation, and has committed against its answer only by a fault past its save. |
| ConfigConcurrency.CompositionIff | crates/runonmine-core/src/config.rs:436-503 | With a lossless TOML the file reads as the composition of the committed callers alone if and only if no caller restored a snapshot whose text is too long to be loaded again. |
| PosixQuoting.PosixRoundTrip | crates/runonmine-connectors/src/openai.rs:346-365 | Splitting the rendered command by the quoting rules of sections 2.2.1 and 2.2.2 of the POSIX.1-2017 Shell Command Language gives back every argument vector, empty arguments and quotes included. |
| PosixQuoting.ReadArgument | crates/runonmine-connectors/src/openai.rs:354-365 | One quoted argument is read back as exactly one word, whatever follows it. |
| PosixQuoting.QuotedMeans | crates/runonmine-connectors/src/openai.rs:354-365 | An argument is left as it is exactly if it is not empty and made of letters, digits and the eight harmless signs; otherwise single quotes around it are all that is added, unless it holds one itself. |
| CommandLine.RenderThen | crates/runonmine-connectors/src/openai.rs:346-352 | One more argument adds one space and the argument quoted. |
| PosixQuoting.OutsideQuotes | crates/runonmine-connectors/src/openai.rs:354-365 | How the reader takes unquoted text, after section 2.2.1 of the POSIX.1-2017 Shell Command Language: a backslash keeps the next character, and any other character with a meaning for the shell is not read as a word. |
| WindowsQuoting.QuoteCommandArgument | crates/runonmine-connectors/src/openai.rs:367-394 | The loop that holds back backslashes computes the quoting function. |
| WindowsQuoting.ReadBody | crates/runonmine-connectors/src/openai.rs:377-394 | Reading a quoted body by the Microsoft C runtime rules gives back the held backslashes and the argument. |
| WindowsQuoting.WindowsRoundTrip | crates/runonmine-connectors/src/openai.rs:346-394 | Reading the rendered command by the Microsoft C runtime argument rules gives back every argument vector. |
| WindowsQuoting.BodyOfPath | crates/runonmine-connectors/src/openai.rs:377-394 | For text without a double quote, quoting doubles the trailing backslashes and changes nothing else. |
| WindowsQuoting.QuotedMeans | crates/runonmine-connectors/src/openai.rs:367-375 | An argument is left as it is exactly if it is not empty and holds no white space and no double quote. |
| Common.WhitespaceMeans | crates/runonmine-connectors/src/openai.rs:372 | White space is 25 code points, given one by one. |
| WindowsQuoting.RenderedCommandIff | crates/runonmine-connectors/src/openai.rs:346-352 | With the runtime's different rule for the program name, the started program sees the executable and its arguments if and only if the path holds no double quote and is not a path that needs quoting and ends in a backslash. |
| Encodings.PrefixedSplit | crates/runonmine-core/src/audit_mac.rs:148-151 | A length-prefixed value can be read off the front of whatever follows it, for lengths below 2^64. |
| Encodings.WordSplit | crates/runonmine-core/src/audit_mac.rs:94 | A 64-bit number can be read off the front of whatever follows it, in either byte order. |
| Encodings.DigitAt | crates/runonmine-core/src/audit_mac.rs:94 | Which byte of a number stands where, in either byte order. |
| Encodings.Hasher.UpdatePrefixed | crates/runonmine-core/src/audit_mac.rs:148-151 | Feeding the length and then the value appends exactly the length-prefixed value to what was fed before. |
| AuditMac.RecordMac | crates/runonmine-core/src/audit_mac.rs:83-99 | The record MAC is the MAC of the record encoding: domain, sequence, then the length-prefixed previous hash, record hash and payload. |
| AuditMac.TailMac | crates/runonmine-core/src/audit_mac.rs:101-117 | The tail MAC is the MAC of the tail encoding: domain, length-prefixed anchor, sequence, then the length-prefixed record hash and record MAC. |
| AuditMac.RecordLayout | crates/runonmine-core/src/audit_mac.rs:83-99 | Where each field of a record lies among the bytes under its MAC. |
| AuditMac.TailLayout | crates/runonmine-core/src/audit_mac.rs:101-117 | Where each field of a tail lies among the bytes under its MAC. |
| AuditMac.SequenceBytes | crates/runonmine-core/src/audit_mac.rs:94 | The sequence number stands most significant byte first. |
| Encodings.AsciiAt | crates/runonmine-core/src/audit_mac.rs:12-13 | A domain is the codes of its characters. |
| AuditMac.RecordBytesInjective | crates/runonmine-core/src/audit_mac.rs:83-99 | The bytes under the record MAC determine all four fields. |
| AuditMac.TailBytesInjective | crates/runonmine-core/src/audit_mac.rs:101-117 | The bytes under the tail MAC determine all four fields. |
| AuditMac.RecordIsNotTail | crates/runonmine-core/src/audit_mac.rs:12-13 | No byte string is both a record's and a tail's. |
| Approval.Fingerprint | crates/runonmine-core/src/approval.rs:74-87 | The fingerprint is the hash of the domain and the length-prefixed kind, client id and subject. |
| Approval.FingerprintLayout | crates/runonmine-core/src/approval.rs:74-87 | Where kind, client id and subject lie among the bytes under the fingerprint, each after its length in eight bytes, least significant first. |
| Approval.FingerprintBytesInjective | crates/runonmine-core/src/approval.rs:74-87 | The bytes under the fingerprint determine the principal. |
| Approval.FromStorageIff | crates/runonmine-core/src/approval.rs:102-122 | A stored row is read as a principal if and only if it is the row that principal is stored as and no OAuth field is empty; so reading inverts storing for exactly these, and every other row is refused. |
| Approval.StoredRows | crates/runonmine-core/src/approval.rs:46-122 | The rows that are read: the kind is one of five names, and an OAuth row alone has the two other columns, not empty. |
| Provenance.ValidateManifest | crates/runonmine-connectors/src/provenance.rs:242-274 | The manifest is accepted exactly when version, provider, repository, commit, sequence and number of assets are as required and asset names are pairwise distinct; the checks are made one by one. |
| Provenance.CheckSignatures | crates/runonmine-connectors/src/provenance.rs:212-234 | The loop accepts exactly when signature ids are pairwise distinct, every entry bearing a trusted id verifies, and both of the provider's roots are present. |
| Provenance.VerifyEnvelope | crates/runonmine-connectors/src/provenance.rs:189-240 | The envelope is accepted, with its manifest and its own bytes as evidence, exactly when sizes, version, signature count, manifest, threshold and encoding are right. |
| Provenance.AcceptedIsSigned | crates/runonmine-connectors/src/provenance.rs:189-274 | An accepted manifest was signed by both roots of the provider and has version 1, that provider and its repository, a commit of 40 hexadecimal digits, a sequence of at least 1, and 1 to 16 assets of different names. |
| Provenance.FindAsset | crates/runonmine-connectors/src/provenance.rs:163-169 | The search finds an asset of the name, and none only if there is none. |
| Provenance.FromVerifiedManifest | crates/runonmine-connectors/src/installer.rs:185-219 | The artifact is made exactly when tag, URL, size, format and archive entry and digest pass, and carries exactly the asset, tag, digest and evidence it is given. |
| Provenance.SelectArtifact | crates/runonmine-connectors/src/provenance.rs:163-187 | An artifact is returned if and only if it is the asset of the manifest that the platform selects by name, format and archive entry, with tag, URL, size and digest in order. |
| Provenance.AcceptanceIgnoresOrder | crates/runonmine-connectors/src/provenance.rs:212-234 | Envelopes that differ only in the order of their signatures are accepted alike, with the same manifest. |
| Provenance.ResolveEnvelope | crates/runonmine-connectors/src/provenance.rs:151-187 | A resolve returns an artifact if and only if the envelope is accepted with some manifest of the wanted tag, and the artifact is the asset of that manifest that the platform selects by name, format and archive entry, with tag, URL, size and digest in order. |
| Provenance.VerifyInstallProvenance | crates/runonmine-connectors/src/provenance.rs:134-149 | Evidence verifies for a tag and a digest exactly when it resolves for that tag to the selected asset of the manifest and that asset has the digest. |
| Provenance.OneManifest | crates/runonmine-connectors/src/provenance.rs:242-248 | An envelope is accepted for one provider only and carries one manifest. |
| Provenance.EvidenceReverifiesIff | crates/runonmine-connectors/src/provenance.rs:134-187 | The evidence of an accepted resolve is the envelope itself, and re-verifies for its own tag and digest and for no other. |
| Provenance.ResolvedIsTheSignedAsset | crates/runonmine-connectors/src/provenance.rs:151-187 | A resolved artifact is the asset that the platform selects by name, format and archive entry from a manifest that both roots of the provider signed, and the only asset of that name; size, digest, tag and URL are that asset's, and the tag is the wanted one. |
| BinaryVersions.ParseDisplayIff | crates/runonmine-connectors/src/binary.rs:114-152 | Parsing what was printed gives the version back if and only if its components fit into 64 bits and its prerelease suffix, if any, is not empty and plain; parsing accepts only such versions. |
| BinaryVersions.ParseIff | crates/runonmine-connectors/src/binary.rs:114-181 | A text is parsed as a version if and only if it spells it: white space on either side, any number of the letter v, three numbers within 64 bits with any leading zeros, separated by dots, and possibly a dash and a suffix of plain characters. |
| BinaryVersions.LowerMeans | crates/runonmine-connectors/src/binary.rs:154-165 | Which versions come first: the lower major, then minor, then patch; of the same three a prerelease comes before the release, and prereleases are in the order of their suffixes. |
| BinaryVersions.SuffixCharMeans | crates/runonmine-connectors/src/binary.rs:173-181 | The characters of a suffix, by their codes. |
| StringOrder.LessMeans | crates/runonmine-connectors/src/binary.rs:154-165 | The first different character decides the order of two strings, and a proper beginning comes first. |
| BinaryVersions.VersionOrder | crates/runonmine-connectors/src/binary.rs:154-165 | The order is total, antisymmetric and transitive, and equal means identical. |

## Left out

- Lossy UTF-8 decoding of log events: the model stops at the bytes handed to it.
- Tokio scheduling, real timers, process groups and pipes: replaced by scripts, schedules and lists of reads.
- RunOnce.RunCommand: takes the lossy decoding as a function that makes something of every non-empty text, takes the child's exit and the timeout as an answer of the environment, and does not model the environment block, working directory or process group of the child.
- LogReader.ReadLines: for a line longer than one event it states the redaction up to line ends and the size bound, because where such a line is cut depends on how the reads cut the stream.
- File permissions, symlink checks and the contents of lock files: operating-system facts; a failing check is a step that fails.
- VersionStore.VersionedBinaryStore.Rollback: is not stated for a token from elsewhere that names the active manifest, because its previous manifest can then be anything.
- VersionStore.VersionedBinaryStore.Activate: takes the fresh activation id as a parameter, because a random UUID being new is a fact about the generator.
- ConfigValidation.ValidateConnectors: takes the outcome of the field-level string checks (identity, policy rules, paths, host names, tunnel ids) as one Boolean per connector.
- `validate_limits` and `validate_browser`: one Boolean each.
- `load_or_create`, `migrate_legacy_quick_runtime_urls` and owner reconciliation in `config.rs`.
- ConfigTransaction.ConfigStore.UpdateWithActivation: does not model what the caller's own activation and rollback do to outside state, because they are closures; it states when and how often they run.
- Provenance.ResolveEnvelope: takes the platform table, the checks of release tags, URLs and archive entry names and the digest parser as functions.
- PosixQuoting.PosixRoundTrip: covers splitting into words. Plain arguments are rendered without quotes, so a shell that runs the line would take a first word such as `A=b` for an assignment and `if` for a reserved word; neither is part of the reader.
- NUL characters in arguments: the readers treat them as ordinary characters, whereas an operating system ends the line there.
- How the tunnel client itself splits its command option: its source is not part of this model, and the public quoting rules stand in for it.
- `BinaryCompatibility::accepts` and the version ranges of the managed binaries.
- Startup grace, the health checks themselves and the events sent beside the published states: the health result is part of the script, the rest does not influence a decision.
- Desktop UI, CLI dispatch, service installation, browser control, network proxies, policy engine and OAuth store.
