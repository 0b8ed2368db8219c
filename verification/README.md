# Verification of the Aegis SSH broker

Aegis SSH lets programs run commands on remote hosts through a local broker. This
project models the parts of the broker whose correctness is hardest to see from the
code, and proves what they promise:

- **The audit log** (`Audit*.dfy`). A log file that rotates through numbered backups by
  a commit protocol over hard links. The directory is a map from names to files, each
  link, rename, remove and create is one step, and every call may fail, take effect
  without returning, or be the last thing the process does. `AuditRotation` holds the
  invariants of every directory before and after the commit point, `AuditLogger` the
  logger itself, `AuditReplay` the reference definition of what a log should be,
  `AuditGaps` what a log reads as once it has been opened with changing configurations,
  and `AuditRuns` whole runs of one process after the other. The main results are the
  atomicity of rotation and recovery and the conservation of records over whole runs.
- **The redactor** (`Policy*.dfy`). The bounded streaming redactor, proved equal to the
  one-shot redaction for every way of cutting a text into writes; two scanners for a URL
  that reaches the boundary, proved to find the same place; and the placeholder engine,
  a small printer and parser whose counts are those of the markers it renders.
  `PolicyPass` says what one pattern makes of a text from beginning to end.
- **The approval store** (`Approval*.dfy`). A state machine whose events are the critical
  sections of the store's mutex, with single use and binding over every interleaving,
  and the store with its command buffers, which refines the machine and scrubs every
  buffer that leaves it.
- **The broker's calls** (`BrokerService.dfy`, `BrokerOutcomes.dfy`). All calls in
  progress as one scheduled system: under the enforcing policy each execution of a risky
  command comes from one approval, with exactly its command, limits and one of its
  aliases; each call takes on exactly the work that was asked for, and what it reports
  and warns of is what happened.
- **Responses and frames** (`BrokerJson.dfy`, `BrokerResponse.dfy`, `BrokerBatch.dfy`,
  `BrokerDecode.dfy`, `BrokerFrame.dfy`). The size arithmetic that makes a response fit
  one frame, with no final measurement, what a JSON reader finds in it, and the reading
  of a frame from a connection that delivers it in any pieces.
- **The SSH connection cache** (`SshCache.dfy`). Dialling, pruning, evicting and closing
  in any order, with no connection lost.

Conventions. A nondeterministic choice in a method (`:|`, `:= *`) stands for the
environment: an outcome of a system call, the size of a read, an iteration order. Ghost
fields and parameters name what the proofs talk about and have no counterpart in the
program. Sections of a mutex are single steps. Times are nanoseconds.

What the proofs brought out:

- A log need not read as the newest of its records. Opening it with fewer backups
  removes the excess in the order in which the directory lists it; interrupted, that can
  leave a file behind a missing one, and opening it next with more backups keeps the gap
  (`AuditGaps.InterruptedRemovalLeavesAGap`; `AuditLog.DirectoryWithAGap` shows the
  directory). What is read is always some of the records,
  once each and in order, and, where records can be told apart, it is the newest of them
  if and only if no file stands behind a missing one (`AuditGaps.SuffixIffSolid`,
  `AuditLog.LogReadsBack`). No file stands behind one if every opening that was left
  unfinished is followed by one that finishes with no more backups than it had asked for
  (`Lowest(ops, done) == None` in `AuditRuns.Run`, explained by `AuditRuns.LowestMeans`).
- With one configuration that never happens: whatever fails and wherever the process
  stops, once an operation succeeds the files hold the newest records, at least one more
  than there are backups or all there are (the last clause of `AuditRuns.Run`). The
  program is such a case: it always asks for three backups (internal/app/app.go:566).
- Refusing a request does not stop a caller that has its code; only a waiter reads the
  decision, and follows it (`ApprovalSpec.WaitersHeedDecisions`,
  `ApprovalSpec.DeniedIsStillConsumable`). `ConsumeSucceedsIff` gives the exact
  condition, in which the decision does not occur.
- The test for a safe placeholder prefix asks that the text does not contain the prefix.
  What scanning needs is that the text does not contain the prefix without its last
  zero, no more and no less (`PolicyTokens.ScansBackIff`): a text that contains it can
  pass the test (`PolicyTokens.PrefixAbsenceIsNotEnough`). This is a fact about the test.
  Whether any text can get there is another matter, since the program draws the
  digest in the prefix from a hash of that very text.
- A single result can be marked truncated although nothing was cut, exactly when it was
  one byte too long (`BrokerResponse.MarkedButWhole`). In a batch that is cut, every
  result that had output is marked, and it is whole exactly if it needed no more than its
  part of the room (`BrokerBatch.CutButWhole`).
- The loop that retries batch fitting with less room never needs to: the first attempt
  always fits (`BrokerBatch.MarshalBatchExecuteResult`, `rounds == 0`).

## Model

| member | source | states |
|---|---|---|
| AuditLines.KeptLength | internal/audit/logger.go:360-401 | The simple rule of tail repair: keep up to and including the last newline, everything after it holds none |
| AuditLines.KeptLengthUnique | internal/audit/logger.go:360-401 | That rule determines the length |
| AuditLines.TornLineDropped | internal/audit/logger.go:360-401 | After whole lines and any part of another line, repair leaves exactly the whole lines, and the last one too if it was complete |
| AuditLines.RepairedTwice | internal/audit/logger.go:360-401 | Repairing again changes nothing |
| AuditReplay.RotationNeeded | internal/audit/logger.go:350-358 | The overflow-free test means: a file that is not empty would outgrow the limit |
| AuditReplay.ReplayKeepsSuffix | internal/audit/logger.go:224-276 | With one configuration, reading the files of the reference log from oldest to current gives a suffix of all records, in at most backups + 1 files, and all of them until the backups are full (every log that was opened with one configuration is such a log: `KeptIsUniform`) |
| AuditReplay.NewestRecordsSurvive | internal/audit/logger.go:483-514 | In that log the newest backups + 1 records are always there |
| AuditReplay.ReplayBoundsFiles | internal/audit/logger.go:350-358 | In that log no file outgrows the size limit unless it holds a single record |
| AuditReplay.ReplayFillsFiles | internal/audit/logger.go:350-358 | In that log no file is given up early: the first line of the next one had no room in it |
| AuditReplay.KeptIsUniform | internal/audit/logger.go:224-276 | A history of records and removals under one configuration, interrupted or not, gives the log of its records alone: there is never anything to remove |
| AuditReplay.KeptIsNewest | internal/audit/logger.go:224-276 | So such a history keeps a suffix of the records, the newest backups + 1 among them, in at most backups + 1 files, none of them empty, none given up early, and each within the limit unless it holds a single record |
| AuditReplay.SubsequenceDistinct | internal/audit/logger.go:203-222 | A subsequence of distinct attempted records is free of duplicates |
| AuditReplay.SubsequenceMeans | internal/audit/logger.go:203-222 | What a subsequence is: its elements stand at increasing places of the other sequence |
| AuditReplay.AccountedStep | internal/audit/logger.go:203-222 | Accounting goes on whether a write is acknowledged, lost, or kept without acknowledgement |
| AuditGaps.ChangedHolds | internal/audit/logger.go:224-276 | Recording, removing a backup and finishing a removal each keep this: the files before the first gap hold the newest records, and what is behind it comes from before a lost one |
| AuditGaps.HistoryHolds | internal/audit/logger.go:172-276 | So every log keeps it, whatever configurations it was opened with and wherever a removal was interrupted |
| AuditGaps.HeldIsSubsequence | internal/audit/logger.go:224-276 | A log therefore reads as some of its records, once each and in order |
| AuditGaps.SuffixIffSolid | internal/audit/logger.go:798-838 | It reads as the newest of its records if and only if no file stands behind a gap (for records that can be told apart) |
| AuditGaps.ChangedPacked | internal/audit/logger.go:798-838 | Gaps come only from removals, beyond the backups that are spared, and finishing a removal of all but as few backups closes them |
| AuditGaps.TrimsKeep | internal/audit/logger.go:798-838 | A removal, interrupted anywhere, touches no record in the history and leaves gaps only beyond the backups it spares |
| AuditGaps.TrimsToTheEnd | internal/audit/logger.go:798-838 | Finished, it leaves no gap if there was none among those |
| AuditGaps.InterruptedRemovalLeavesAGap | internal/audit/logger.go:798-838 | An opening without backups that stops after removing the first of two backups, and one with two backups that finishes: the second of three records is missing between the first and the third |
| AuditRotation.QuietStarts | internal/audit/logger.go:483-514 | A directory without staging names is a valid start of a rotation |
| AuditRotation.MarkerCreated | internal/audit/logger.go:516-519 | Creating the marker keeps the invariant from before the commit |
| AuditRotation.SourceStaged | internal/audit/logger.go:520-526 | So does linking a slot to its source name |
| AuditRotation.MissingStaged | internal/audit/logger.go:527-529 | So does creating the marker of a missing slot |
| AuditRotation.NewStaged | internal/audit/logger.go:531-533 | So does creating and filling the new file |
| AuditRotation.ProofLinked | internal/audit/logger.go:534-536 | Linking the proof completes the staging: every slot can be restored and proof and new file are one |
| AuditRotation.WorkLinked | internal/audit/logger.go:546-548 | Linking a work name keeps every slot restorable |
| AuditRotation.WorkRenamed | internal/audit/logger.go:549-551 | Renaming it over a guarded slot does too, also when both are links to one file and the rename does nothing |
| AuditRotation.ShiftLinked | internal/audit/logger.go:540-553 | While shifting, the slots above the target stay shifted and those below untouched when a work name is linked |
| AuditRotation.ShiftRenamed | internal/audit/logger.go:540-553 | Renaming it shifts one slot more |
| AuditRotation.GapShifted | internal/audit/logger.go:555-557 | A slot whose source was missing is shifted by removing it |
| AuditRotation.CommitPublishes | internal/audit/logger.go:559-565 | Renaming the new file over the current one turns the invariant from before the commit into the one after it: slots hold the new line and the old slots moved up by one |
| AuditRotation.SlotRestored | internal/audit/logger.go:570-590 | During rollback, clearing, linking and renaming a work name restores one slot, whatever an interrupted rollback left of it |
| AuditRotation.WorkCleared | internal/audit/logger.go:575-580 | Removing a leftover work name harms nothing |
| AuditRotation.NothingStagedAbove | internal/audit/logger.go:540-567 | Nothing is staged above the limit that rollback visits |
| AuditRotation.StagingWithinReach | internal/audit/logger.go:652-704 | Nothing is staged beyond the highest index that recovery and cleanup visit |
| AuditRotation.SweptAll | internal/audit/logger.go:687-699 | Once every index has been swept only new file, proof and marker can be left |
| AuditRotation.StagingRemoved | internal/audit/logger.go:687-699 | Removing any staging name other than the marker keeps a restored or published directory what it is |
| AuditRotation.MarkerRemoved | internal/audit/logger.go:700-703 | Removing the marker last makes the directory quiet |
| AuditRotation.QuietMeansAtomic | internal/audit/logger.go:483-704 | A quiet directory holds every slot exactly as before or exactly shifted by one with the new line in front, the latter if and only if the commit rename took effect; files of the start keep their bytes |
| AuditRotation.OutcomesExclude | internal/audit/logger.go:607-650 | No directory satisfies the invariants of both sides of the commit, so names alone tell recovery which side it is on |
| AuditLog.RestoredRepresents | internal/audit/logger.go:568-605 | After rollback the directory holds the log it held before |
| AuditLog.PublishedRepresents | internal/audit/logger.go:540-566 | After the commit it holds the rotated log |
| AuditLog.RemovedRepresents | internal/audit/logger.go:817-829 | Removing one backup empties just that file of the log |
| AuditLog.CutRepresents | internal/audit/logger.go:830-832 | Once nothing stands beyond the backups the log ends there |
| AuditLog.RepairRepresents | internal/audit/logger.go:360-401 | Repairing, or failing to, does not change which log a directory holds |
| AuditLog.AppendRepresents | internal/audit/logger.go:253-276 | After any part of a line was written the directory holds the log with the line if all of it was written, and without it otherwise |
| AuditLog.TruncateUndoes | internal/audit/logger.go:257-266 | Truncating to the old size undoes a partial write byte for byte |
| AuditLog.RotationKeeps | internal/audit/logger.go:483-514 | A rotation in flight, interrupted anywhere, stands for the old log before the commit and the log with the line after it |
| AuditLog.ReadBackReads | internal/audit/logger.go:224-276 | The bytes of the files from the oldest backup to the current file are those of the records the view holds |
| AuditLog.SolidIsContiguous | internal/audit/logger.go:798-838 | Whether a log has a gap can be seen from which slots hold a file |
| AuditLog.LogReadsBack | internal/audit/logger.go:224-276 | Together: a settled directory reads back, byte for byte, as some of the records in order; as the newest of them if no backup stands behind a missing one, and only then |
| AuditLog.KeptOnDisk | internal/audit/logger.go:224-276 | With one configuration a settled directory holds the newest records, backups + 1 or more of them or all, without a gap, nothing beyond the backups, no file above the limit unless it holds a single record, and no file that was left while the next record had room in it |
| AuditLog.DirectoryWithAGap | internal/audit/logger.go:798-838 | The directory which that interrupted removal leaves: settled and whole, the first backup missing before the second, and read back as the first and the third record |
| AuditLogger.Logger.LinkMetadata | internal/audit/logger.go:706-711 | A link exists afterwards or nothing changed; an existing target refuses it |
| AuditLogger.Logger.RenameMetadata | internal/audit/logger.go:713-718 | A rename happened or nothing changed; success means it happened |
| AuditLogger.Logger.RenamePublish | internal/audit/logger.go:559-561 | The commit rename: a reported failure means no effect, a stop may come after it |
| AuditLogger.Logger.RemoveMetadataIfExists | internal/audit/logger.go:720-729 | The name is gone on success; a missing name is no error |
| AuditLogger.Logger.CreateRotationNewFile | internal/audit/logger.go:745-765 | The new file holds exactly the line on success and some part of it otherwise; everything else is untouched |
| AuditLogger.Logger.WriteAll | internal/audit/logger.go:987-1002 | On success all of the data was appended, otherwise some beginning of it |
| AuditLogger.Logger.PrepareRotation | internal/audit/logger.go:516-538 | On success everything is staged and no slot changed; otherwise the directory is restorable |
| AuditLogger.Logger.ShiftSlot | internal/audit/logger.go:541-558 | One slot moves up by one, or the directory stays restorable |
| AuditLogger.Logger.ApplyRotation | internal/audit/logger.go:540-566 | Whether the commit rename took effect decides which invariant holds |
| AuditLogger.Logger.RestoreSlot | internal/audit/logger.go:570-601 | One slot is back; run again after an interruption it gives the same result |
| AuditLogger.Logger.RollbackRotation | internal/audit/logger.go:568-605 | On success every slot is as before and no staging name is left; otherwise it can be run again |
| AuditLogger.Logger.CleanupRotationStaging | internal/audit/logger.go:687-704 | On success no staging name is left; interrupted anywhere it can be run again, and slots are untouched |
| AuditLogger.Logger.RotationLimit | internal/audit/logger.go:652-685 | The highest staged slot, and whether anything but the marker is staged |
| AuditLogger.Logger.RecoverRotation | internal/audit/logger.go:607-650 | From every directory a rotation, rollback, cleanup or recovery can leave: keeps its invariant, ends quiet on success, and succeeds when no call fails |
| AuditLogger.Logger.Preflight | internal/audit/logger.go:487-503 | Which slots hold a file, and the highest that does |
| AuditLogger.Logger.Rotate | internal/audit/logger.go:483-514 | However it ends the directory is recoverable to the old slots or holds the shifted ones; success means shifted and quiet |
| AuditLogger.Logger.Transact | internal/audit/logger.go:504-514 | Staging, applying and cleaning up with their rollbacks keep the invariant of a rotation in flight |
| AuditLogger.Logger.RepairTrailingPartialLine | internal/audit/logger.go:360-401 | Scanning back in chunks of 4096 bytes cuts the file just where the simple rule says, for every length and newline position |
| AuditLogger.Logger.OpenAuditFile | internal/audit/logger.go:922-953 | The current file exists on success; nothing else changes |
| AuditLogger.Logger.Append | internal/audit/logger.go:253-276 | The log is the old one or has the line at its end; success means it has; a failed truncation leaves at most a torn line |
| AuditLogger.Logger.WriteLocked | internal/audit/logger.go:224-276 | One record, by appending or rotating, is recorded at most once and surely on success |
| AuditLogger.Logger.AcquireLock | internal/audit/logger.go:278-294 | Opening and locking the lock file, and the synchronization if it was created; succeeds whenever no call fails |
| AuditLogger.Logger.ReleaseLock | internal/audit/logger.go:295-302 | Success only if the operation, the unlocking and the closing succeed; the latter two can turn a finished operation into an error |
| AuditLogger.Logger.Write | internal/audit/logger.go:203-222 | The same with the lock around it; a directory sync that failed before is retried, so that none is outstanding after a success; succeeds whenever no call fails |
| AuditLogger.Logger.RemoveExcess | internal/audit/logger.go:817-829 | One excess backup is removed or nothing happened, and the history says which |
| AuditLogger.Logger.CleanupExcessBackups | internal/audit/logger.go:798-838 | Only slots beyond the backup count go, in any order, and all of them on success; the log loses exactly their records |
| AuditLogger.Logger.Initialize | internal/audit/logger.go:172-201 | Opening a directory some process left, under whatever configuration, recovers and repairs it and removes exactly the excess |
| AuditRuns.Run | internal/audit/logger.go:144-276 | Whole runs from an empty directory, of processes with any configurations in turn and with failures and stops anywhere: the records of the writes that succeeded are a subsequence of the recorded ones, and these of the attempted ones, all three equal when no call fails; each record is on record under the size and backups that the last opening before its write asked for (10485760 bytes if it named none), and only options in range open; after an operation that succeeds the directory reads, byte for byte, as some of the recorded ones in order, the newest of them if no backup stands behind a missing one and only then, which is so if no unfinished opening is pending; with one configuration it always holds the newest records, backups + 1 or more of them or all, without a gap and none beyond the backups, in files of at most the size asked for or of a single record |
| AuditRuns.LowestMeans | internal/audit/logger.go:172-201 | When an opening is pending, in terms of the operations and of which succeeded: it did not finish, and none did afterwards with as few backups; the fewest backups of a pending one bound the gaps from below |
| AuditRuns.AlikeMeans | internal/app/app.go:566-566 | What one configuration is: no two openings ask for different options |
| AuditRuns.TracedMore | internal/audit/logger.go:144-276 | One operation more, and each entry still comes from one operation: a record from its write, under the last opening before it, a removal from an opening that wants no more backups |
| AuditRuns.Operate | internal/audit/logger.go:144-222 | One opening or write keeps that accounting, adds its record to the acknowledged ones exactly if it is a write that succeeds, moves the bound on gaps as its own outcome says, and keeps a log with one configuration one |
| AuditRuns.OpenOne | internal/audit/logger.go:144-170 | A new process opens what the last one left: no record of the history changes, only excess backups go, where gaps can be is known, and it succeeds when no call fails |
| AuditRuns.OpeningKeepsGaps | internal/audit/logger.go:172-201 | The fewest backups of an unfinished opening bound the gaps from below until an opening with as few finishes |
| AuditSelection.Search | internal/audit/logger.go:458-458 | The first position whose key is not below the given one |
| AuditSelection.Insert | internal/audit/logger.go:457-469 | One turn keeps the selection of the smallest keys seen so far |
| AuditSelection.SelectionUnique | internal/audit/logger.go:448-481 | The smallest 32 keys in order are unique, so no iteration order matters |
| AuditSelection.LessIsByteOrder | internal/audit/logger.go:458-458 | The order of keys: the first byte that differs decides, and otherwise the length |
| AuditSelection.ShortenedMeans | internal/audit/logger.go:470-480 | Each shortened key has the count of the last key shortened to it, and there are no others |
| AuditSelection.BoundedRedactions | internal/audit/logger.go:448-481 | For every iteration order the 32 smallest keys are kept, and the shortened map has for each of their shortened forms the count of the last key that has it |
| PolicyUrl.SameEnd | internal/policy/redactor.go:504-535 | Overlapping scheme matches end at the same place |
| PolicyUrl.TerminatorsAre | internal/policy/redactor.go:573-581 | The seven characters that end an authority |
| PolicyUrl.OpenAuthorityUnique | internal/policy/redactor.go:476-535 | At most one authority reaches the boundary unterminated |
| PolicyUrl.AuthorityOfPrefix | internal/policy/redactor.go:476-502 | Bytes from the boundary on do not matter |
| PolicyUrl.FindScheme | internal/policy/redactor.go:49-49 | The leftmost match of the scheme expression |
| PolicyUrl.UrlAuthorityAtBoundary | internal/policy/redactor.go:476-502 | The scan by expressions finds the authority that reaches the boundary, or that there is none |
| PolicyUrl.UrlAuthorityAtBoundaryBytes | internal/policy/redactor.go:504-535 | The scan by bytes finds the same |
| PolicyUrl.UrlCredentialAfterBoundary | internal/policy/redactor.go:549-571 | True exactly when a URL that begins before the boundary has a colon and then its first at sign not before it |
| PolicyStream.InspectionLimit | internal/policy/redactor.go:169-175 | 256 bytes behind the public limit, or the public limit itself if an integer could not count these |
| PolicyStream.RedactString | internal/policy/redactor.go:81-96 | One-shot redaction as the reference |
| PolicyStream.OneShotMeans | internal/policy/redactor.go:81-96 | The engine is given the text up to 256 bytes behind the limit, and told whether the text is longer than the limit and whether some URL that begins before the limit has its credential across it |
| PolicyStream.WatchedMeans | internal/policy/redactor.go:730-746 | What the byte automaton knows: resolved after the first terminator or at sign, colon seen, and a credential exactly when one crosses the boundary |
| PolicyStream.WatchOfMore | internal/policy/redactor.go:704-728 | More bytes go on from where the automaton was, at the same authority |
| PolicyStream.TailCompletes | internal/policy/redactor.go:766-786 | The buffered part and the watched part together answer for the whole text |
| PolicyStream.StreamRedactor.Write | internal/policy/redactor.go:674-702 | Buffer, truncation flag and automaton are those of everything written so far |
| PolicyStream.StreamRedactor.Take | internal/policy/redactor.go:683-700 | Cut anywhere into a part that is buffered and one that is dropped, the buffer and the automaton are those of the text with both |
| PolicyStream.StreamRedactor.ObserveDroppedUrlBytes | internal/policy/redactor.go:704-728 | The automaton after dropping bytes is that of the longer text |
| PolicyStream.StreamRedactor.ObserveUrlAuthorityByte | internal/policy/redactor.go:730-746 | One step of the automaton |
| PolicyStream.StreamRedactor.GrowBuffer | internal/policy/redactor.go:748-764 | Capacity suffices, never shrinks and never exceeds the inspection limit |
| PolicyStream.StreamRedactor.WithMaxBytes | internal/policy/redactor.go:648-672 | Changes the limit only before the first write and before closing |
| PolicyStream.StreamRedactor.Close | internal/policy/redactor.go:766-786 | The result is that of the one-shot redaction of everything written; closing again changes nothing |
| PolicyStream.StreamedAndOneShot | internal/policy/redactor.go:674-786 | For every input and every split into writes, empty ones included, streaming and one-shot results are equal and the buffer never exceeds the limit |
| PolicyTokens.ValueOfItoa | internal/policy/redactor.go:289-299 | Reading back a printed index gives the index |
| PolicyTokens.DigestAhead | internal/policy/redactor.go:229-246 | The inside of a prefix, but for its last zero, can be spelled only by plain characters |
| PolicyTokens.NoPrefixAmongCharacters | internal/policy/redactor.go:258-270 | In text whose plain parts do not spell the prefix without its last zero, no prefix begins at a plain character |
| PolicyTokens.ParsedPlaceholder | internal/policy/redactor.go:268-285 | A printed placeholder is parsed as itself, with its exact end |
| PolicyTokens.ScanInvertsEncode | internal/policy/redactor.go:258-287 | Scanning printed text gives back exactly its characters and placeholders, as long as its plain parts do not spell the prefix without its last zero |
| PolicyTokens.CharactersArePlain | internal/policy/redactor.go:225-246 | Wherever placeholders are put into a text that does not contain the prefix without its last zero, its plain parts do not spell that either |
| PolicyTokens.ScansBackIff | internal/policy/redactor.go:229-331 | A text is scanned back wherever any placeholders are put into it if and only if it does not contain the prefix without its last zero |
| PolicyTokens.OnePlaceholderIff | internal/policy/redactor.go:229-331 | One placeholder at every place of the text is enough to tell |
| PolicyTokens.PrefixAbsenceIsNotEnough | internal/policy/redactor.go:229-246 | That the whole prefix does not occur is not that condition: for every prefix, a text that passes the test and swallows a placeholder |
| PolicyPlaceholder.SwallowedMeans | internal/policy/redactor.go:258-287 | Exactly the placeholders in a match become inactive, and the counts follow, with no zero entries |
| PolicyPlaceholder.ReplacedPlaced | internal/policy/redactor.go:248-256 | After replacing a match each active placeholder still stands in the text exactly once and no inactive one does |
| PolicyPlaceholder.ReplacedPlain | internal/policy/redactor.go:248-256 | That hypothesis survives at the seams of a replacement |
| PolicyPlaceholder.RenderingAgrees | internal/policy/redactor.go:301-331 | Rendering what was scanned is rendering the tokens |
| PolicyPlaceholder.PlaceholderShown | internal/policy/redactor.go:319-328 | Wherever a placeholder stands it shows the marker of its category if it is active, and nothing otherwise |
| PolicyPlaceholder.CharacterShown | internal/policy/redactor.go:301-331 | A character shows itself |
| PolicyPlaceholder.RenderingShows | internal/policy/redactor.go:301-331 | A rendering is cut into parts, one for each token in order: the character, the marker of an active placeholder, nothing for an inactive one |
| PolicyPlaceholder.RenderIsExact | internal/policy/redactor.go:301-331 | Rendering scanned text is rendering the tokens it was printed from |
| PolicyPlaceholder.CountsAreMarkers | internal/policy/redactor.go:157-166 | The count of every category is the number of places where the text shows its marker |
| PolicyPlaceholder.RedactionState.constructor | internal/policy/redactor.go:225-227 | A fresh state is consistent, for every text that can be scanned back |
| PolicyPlaceholder.RedactionState.NewPlaceholder | internal/policy/redactor.go:289-299 | The next placeholder, active and counted |
| PolicyPlaceholder.RedactionState.ConsumePlaceholders | internal/policy/redactor.go:258-287 | The scanning loop swallows what scanning finds |
| PolicyPlaceholder.RedactionState.Open | internal/policy/redactor.go:249-254 | A match takes its placeholders out of the books and gets a new one |
| PolicyPlaceholder.RedactionState.Protect | internal/policy/redactor.go:248-256 | Every match gives way to its kept front, a placeholder of its own and what follows; everything between is unchanged and the state stays consistent |
| PolicyPlaceholder.RedactionState.Render | internal/policy/redactor.go:301-331 | Characters are copied and each placeholder shows its marker exactly if active (`PlaceholderShown`, `RenderingShows`) |
| PolicyPlaceholder.RedactionState.Result | internal/policy/redactor.go:157-166 | The rendered text is the characters and the markers of the active placeholders in their places, and the count of each category is the number of its markers, with no zero entries |
| PolicyPass.RedactPass | internal/policy/redactor.go:225-331 | One pattern on a fresh text, from beginning to end: each match shows what is kept of its front, the marker and what follows it, everything else is as it was, and the one count is that of the matches |
| PolicyPass.DoneRenders | internal/policy/redactor.go:248-256 | Up to each match the rendered tokens are the text with the matches before it replaced |
| ApprovalSpec.NormalizeAliases | internal/approval/store.go:347-361 | Exactly the non-empty aliases, once each |
| ApprovalSpec.NormalizedLists | internal/approval/store.go:347-361 | They come in the order of first appearance |
| ApprovalSpec.ListsUnique | internal/approval/store.go:347-361 | These three facts determine the list |
| ApprovalSpec.CodeMatchesIsEquality | internal/approval/store.go:254-260 | Padding the code and comparing lengths is equality of codes |
| ApprovalSpec.CleanedStep | internal/approval/store.go:298-305 | Looking at one more record drops it exactly if it expired and is not the excepted one |
| ApprovalSpec.StepKeepsInvariant | internal/approval/store.go:81-305 | Every critical section keeps the store's invariant: unused records are what was created, no two records or grants share a creation, at most 256 records |
| ApprovalSpec.SingleUseAndBinding | internal/approval/store.go:81-305 | Over every interleaving no creation is handed out twice, what is handed out is what was asked for, and the map holds at most 256 records |
| ApprovalSpec.StepGrants | internal/approval/store.go:188-276 | Only consuming and waiting hand out, each what its own record holds |
| ApprovalSpec.ConsumeSucceedsIff | internal/approval/store.go:235-276 | In any state, consuming succeeds exactly before expiry, unused, with the right code of full length; the decision plays no part |
| ApprovalSpec.WaitSucceedsIff | internal/approval/store.go:213-231 | A waiter goes ahead exactly if its record is there and approved |
| ApprovalSpec.DecisionReachesWaiter | internal/approval/store.go:160-231 | What is decided about a live, unused, undecided record reaches whoever waits: its approval if it was allowed, a refusal otherwise, and nothing a second time |
| ApprovalSpec.DecidedOnce | internal/approval/store.go:174-176 | The first decision stands |
| ApprovalSpec.NotedStep | internal/approval/store.go:160-186 | One event more, and each unused record still says whether its approval was allowed or refused |
| ApprovalSpec.WaitersHeedDecisions | internal/approval/store.go:160-231 | Over every interleaving: a waiter is told to go ahead exactly if somebody has allowed its approval, and refused exactly if somebody has refused it |
| ApprovalSpec.WaitedForWasAllowed | internal/approval/store.go:160-231 | An approval that a waiter was handed had been allowed before, and nobody refuses it, before or after |
| ApprovalSpec.CreateSucceedsIff | internal/approval/store.go:81-121 | A creation is accepted exactly for an acceptable request, with fewer than 256 records that have not expired and a fresh identifier |
| ApprovalSpec.CreatedIsUsable | internal/approval/store.go:81-121 | From its creation on an approval can be used with its code for five minutes, and then it has expired |
| ApprovalSpec.WrongCodeLeavesUsable | internal/approval/store.go:254-260 | A wrong code costs nothing: the right one still works |
| ApprovalSpec.ConsumedIsUsed | internal/approval/store.go:235-276 | What was consumed answers every further use, decision and revocation as used until it expires |
| ApprovalSpec.RevokedIsUnknown | internal/approval/store.go:280-296 | What was revoked is unknown to everybody, and revoking it again is no error |
| ApprovalSpec.ExpiredIsUnknown | internal/approval/store.go:160-276 | At its expiry or later an approval answers as expired and its record goes |
| ApprovalSpec.OthersExpire | internal/approval/store.go:298-307 | Creating and consuming drop exactly the other records that have expired |
| ApprovalSpec.ListedAreLive | internal/approval/store.go:123-145 | Listing drops exactly what has expired |
| ApprovalSpec.GoneIsNeverGranted | internal/approval/store.go:160-305 | Once no unused record of a creation is left it is never handed out |
| ApprovalSpec.RemovalsMakeGone | internal/approval/store.go:160-296 | Revoking, a delivered refusal and expiry at a use leave none |
| ApprovalSpec.DeniedIsStillConsumable | internal/approval/store.go:160-276 | Every acceptable request that is created and then refused is still handed to a consumer with the code, until it expires |
| ApprovalStore.ZeroBytes | internal/approval/store.go:363-367 | All bytes are zero afterwards |
| ApprovalStore.Store.Discard | internal/approval/store.go:170-174 | The record leaves the map and its buffer is zero |
| ApprovalStore.Store.CleanupLocked | internal/approval/store.go:298-305 | Exactly the expired records but one leave, in any order, with buffers zeroed |
| ApprovalStore.Store.CloneApproval | internal/approval/store.go:340-345 | A snapshot shares no buffer with the store |
| ApprovalStore.Store.CreateBatch | internal/approval/store.go:81-121 | Refines the machine's step; the store keeps one copy of the command and hands out another |
| ApprovalStore.Store.AddRecord | internal/approval/store.go:105-120 | The record is added under a free identifier with a buffer of its own |
| ApprovalStore.Store.Get | internal/approval/store.go:147-158 | Refines the machine's step; the snapshot is a copy |
| ApprovalStore.Store.Decide | internal/approval/store.go:160-186 | Refines the machine's step, whose decision reaches the waiters as it was made (`ApprovalSpec.DecisionReachesWaiter`); the waiters' channel is closed at most once |
| ApprovalStore.Store.WaitRegister | internal/approval/store.go:188-198 | Refines the machine's step |
| ApprovalStore.Store.WaitTimeout | internal/approval/store.go:204-212 | Refines the machine's step, zeroing the buffer |
| ApprovalStore.Store.WaitWake | internal/approval/store.go:213-231 | Refines the machine's step; on success the copy handed over is what was asked for and the stored buffer is zero |
| ApprovalStore.Store.Consume | internal/approval/store.go:235-276 | Refines the machine's step with all its error cases; on success a copy is handed over |
| ApprovalStore.Store.Bury | internal/approval/store.go:265-275 | A tombstone keeps only the expiry, and the buffer is zero |
| ApprovalStore.Store.Revoke | internal/approval/store.go:280-296 | Refines the machine's step, zeroing the buffer |
| ApprovalStore.ByAgeSorts | internal/approval/store.go:143-143 | Sorting by age keeps every entry |
| ApprovalStore.Store.List | internal/approval/store.go:123-145 | Every unused record once, by age, the command only on request and then as a copy |
| ApprovalStore.Dispatch | internal/approval/store.go:81-305 | Any event refines the machine's step, and hands out bytes exactly when the machine grants |
| ApprovalStore.Drive | internal/approval/store.go:81-305 | Over every interleaving the store's state is the machine's, every success hands over the bytes of one creation, and no two the same creation |
| BrokerService.CreatedApart | internal/approval/store.go:347-361 | Every approval's aliases are distinct |
| BrokerService.ExecuteKeeps | internal/broker/service.go:218-271 | A single execution request keeps the invariant, whether it fails, runs or asks for approval |
| BrokerService.ExecuteBatchKeeps | internal/broker/service.go:274-367 | So does a batch |
| BrokerService.ExecuteApprovedKeeps | internal/broker/service.go:381-405 | So does consuming an approval, which binds the call to it |
| BrokerService.WakeKeeps | internal/broker/service.go:407-489 | So does being woken with a decision |
| BrokerService.WaitingKeeps | internal/broker/service.go:252-271 | So do announcing, withdrawing, registering, timing out and giving up |
| BrokerService.TakeKeeps | internal/broker/service.go:333-344 | So does a worker that receives the next alias from the channel |
| BrokerService.ReportKeeps | internal/broker/service.go:540-556 | So does the final record, after which the worker is free |
| BrokerService.ClearKeeps | internal/broker/service.go:501-515 | So does the preflight record, without which an approved job does not go on |
| BrokerService.RemoteKeeps | internal/broker/service.go:516-518 | An execution is entered for exactly its call, alias and evidence |
| BrokerService.StepKeeps | internal/broker/service.go:218-556 | Every step of every call keeps the invariant |
| BrokerService.RiskyExecutionsAreApproved | internal/broker/service.go:218-556 | Under the enforcing policy, over all interleavings: each execution of a risky command comes from one created approval with exactly its command, limits and one of its aliases, after its own preflight record was written; no approval leads to two executions on one alias |
| BrokerService.OncePerAlias | internal/broker/service.go:432-489 | Two executions under one approval are on two aliases |
| BrokerService.ReportsAreTrue | internal/broker/service.go:333-366 | A job was executed exactly once if its call reports it ran, and never otherwise |
| BrokerService.StoreMoves | internal/broker/service.go:218-489 | The store goes through its own steps only, and nobody but its own users decides |
| BrokerService.UnrecordedApprovalsNeverExecute | internal/broker/service.go:256-259 | An approval withdrawn because its creation could not be recorded, while its record is still there and unused, never leads to an execution |
| BrokerService.StepManned | internal/broker/service.go:326-356 | Every step keeps as many jobs under way as there are workers that have received one |
| BrokerService.AtMostThirtyTwo | internal/broker/service.go:326-356 | No call ever works on more hosts at a time than it has workers, of which there are at most 32 |
| BrokerService.ActiveSet | internal/broker/service.go:333-356 | How changing one job changes the number of jobs under way |
| BrokerService.BusySet | internal/broker/service.go:333-356 | How giving one worker a job or taking it changes the number of busy workers |
| BrokerService.FilterAliases | internal/broker/service.go:291-304 | Trimming and dropping within one array gives exactly the normalized aliases |
| BrokerService.BatchKeepsItsAliases | internal/broker/service.go:313-325 | What is put up for approval, under the enforcing policy only, is the batch as it would have run: its trimmed aliases, each once and in order of first appearance, its command, its limits or the configured ones, and its categories; the caller then waits for that very approval, or is offered it |
| BrokerService.RequestIsPutUp | internal/broker/service.go:241-249 | The same for a single request, which is announced first |
| BrokerOutcomes.BatchRunsItsAliases | internal/broker/service.go:274-356 | A batch that needs no approval runs on exactly its trimmed, non-empty aliases, each once and in order of first appearance, with its command, its limits or the configured ones, and as many workers as asked for, at most 32 |
| BrokerOutcomes.RequestRunsAtOnce | internal/broker/service.go:218-271 | A single request that needs none starts on its one alias |
| BrokerOutcomes.RequestIsInvalidIff | internal/broker/service.go:559-564 | Which single requests are refused before anything happens |
| BrokerOutcomes.BatchIsInvalidIff | internal/broker/service.go:274-312 | Which batches are |
| BrokerOutcomes.WokenRunsWhatWasApproved | internal/broker/service.go:407-478 | A call woken with an approval runs exactly what was created: a batch on every alias of it, a single request on its first |
| BrokerOutcomes.ConsumedRunsWhatWasApproved | internal/broker/service.go:381-405 | So does a call that used the code, on the first alias |
| BrokerOutcomes.ConsumedOrRefused | internal/broker/service.go:381-405 | A call with a code runs exactly if the approval is there, live and unused and the code is its own, and is refused otherwise |
| BrokerOutcomes.RegisteredListens | internal/approval/store.go:188-199 | A waiting call goes on to listen for the same approval with the same work ahead, exactly if its record is there |
| BrokerOutcomes.GivingUpIsDenied | internal/approval/store.go:200-212 | A call that gives up is answered as denied; only the end of the approval's time removes its record |
| BrokerOutcomes.TakeTells | internal/broker/service.go:333-344 | A free worker takes the next alias, and is done with it if its secret is not there |
| BrokerOutcomes.FinishedMeansAllDone | internal/broker/service.go:333-356 | Over every interleaving: once all aliases were sent and no worker is busy, every alias the call stands for ran, had no secret, or could not be recorded |
| BrokerOutcomes.JobTellsWhatHappened | internal/broker/service.go:491-557 | A job that goes through carries the outcome of its command, and a warning unless both of its records were written |
| BrokerOutcomes.WarnedIffUnrecorded | internal/broker/service.go:501-556 | Over every interleaving: a job that ran carries no warning exactly if its preflight and its final record are both in the audit log |
| BrokerOutcomes.WaitersAreRecorded | internal/broker/service.go:252-260 | Nobody waits for the approval of a single request before its creation is in the audit log |
| BrokerOutcomes.AnnouncedOrWithdrawn | internal/broker/service.go:252-270 | Nor is it offered: without that record it is withdrawn |
| BrokerOutcomes.WaitersHeedDecisions | internal/broker/service.go:407-445 | Over every interleaving: a waiting call runs when it is woken exactly if somebody has allowed its approval, and is answered as denied otherwise |
| BrokerOutcomes.NobodyRefusesWhatRuns | internal/broker/service.go:407-445 | A call that was woken and runs had been allowed before, and nobody refuses it, before or after |
| BrokerFrame.JudgedOnce | internal/broker/frame.go:13-67 | Exactly one verdict fits a stream |
| BrokerFrame.JudgedLine | internal/broker/frame.go:50-66 | The verdict once a line within the limit was seen |
| BrokerFrame.JudgedNoLine | internal/broker/frame.go:16-49 | The verdict when none was: too large beyond the limit, invalid otherwise |
| BrokerFrame.Reader.Fill | internal/broker/frame.go:13-14 | A fetch brings some more bytes, any number, and loses none |
| BrokerFrame.Reader.ReadSlice | internal/broker/frame.go:28-28 | Through the next newline, or a full buffer, or the rest |
| BrokerFrame.ReadLine | internal/broker/frame.go:16-49 | The loop over slices and buffers gives the first line, if it is within the limit, and leaves what follows it; otherwise its refusal is the verdict |
| BrokerFrame.ReadSingleFrame | internal/broker/frame.go:13-67 | However the bytes arrive: success with x if and only if the stream is x, one newline, end of stream, with x free of newlines and at most the limit; too large if and only if a longer stream has no newline within limit + 1 bytes; invalid otherwise |
| BrokerFrame.WriteAll | internal/broker/frame.go:69-83 | Success means all was written; never anything else than a beginning of the data |
| BrokerFrame.Transfer | internal/broker/frame.go:13-83 | What was written as a frame is read back as it was |
| BrokerJson.ValidStays | internal/broker/server.go:524-529 | Normalizing changes a string exactly if it was not valid |
| BrokerJson.RepairedAs | internal/broker/server.go:524-529 | Normalizing keeps the scalar values in their order and makes each run of stray bytes one U+FFFD |
| BrokerJson.RepairedUnique | internal/broker/server.go:524-529 | There is one text that does |
| BrokerJson.StrayRunIsOne | internal/broker/server.go:524-529 | A run of stray bytes between scalar values becomes one U+FFFD, and the parts around it are normalized by themselves |
| BrokerJson.RepairedAround | internal/broker/server.go:524-529 | A scalar value stays where it is |
| BrokerJson.RuneSizeIsExact | internal/broker/server.go:627-638 | The size of a character is that of its escape (section 7 of RFC 8259 and the encoder's HTML escapes) |
| BrokerJson.SizesAreExact | internal/broker/server.go:602-638 | The size of a text is that of its escaped bytes, none of which is a control character |
| BrokerJson.JsonEscapedContentSize | internal/broker/server.go:602-611 | The exact size, or one past the limit once it is exceeded |
| BrokerJson.JsonPrefix | internal/broker/server.go:613-625 | The longest prefix within the budget, cut after a whole character of the bytes |
| BrokerResponse.ResponseSize | internal/broker/server.go:511-522 | The size of an encoded response is its size without output plus that of the two fields |
| BrokerResponse.ShareIsFair | internal/broker/server.go:569-584 | The budgets add up to the smaller of need and room; nobody gets less than half the room or its need; when both need more the first stream gets the odd byte |
| BrokerResponse.CappedShare | internal/broker/server.go:566-568 | Measuring no further than one past the room changes no budget |
| BrokerResponse.Divide | internal/broker/server.go:572-583 | The code's budgets are those shares |
| BrokerResponse.FitsWithin | internal/broker/server.go:537-597 | Field names, quotes and kept text never exceed the room |
| BrokerResponse.FitsAll | internal/broker/server.go:540-597 | Everything is kept exactly if everything has room |
| BrokerResponse.LongestUnique | internal/broker/server.go:613-625 | There is one place to cut |
| BrokerResponse.FitExecuteOutput | internal/broker/server.go:540-597 | Prefixes of both streams, each the longest within its share |
| BrokerResponse.MarshalExecuteResult | internal/broker/server.go:474-509 | The outputs are repaired, and marked if that was needed; a result that then fits is sent as it is; otherwise only its output is cut, to the longest prefixes, and it is marked; if even the rest does not fit it is refused |
| BrokerResponse.RawTooLong | internal/broker/server.go:483-487 | Output too long unescaped does not fit escaped either |
| BrokerResponse.ShortenedFits | internal/broker/server.go:497-508 | The response that is never measured again fits the frame |
| BrokerResponse.MarkedButWhole | internal/broker/server.go:489-508 | A single cut result has lost nothing exactly if it was one byte too long and unmarked before |
| BrokerResponse.MarshalWithinFrame | internal/broker/server.go:474-509 | Everything sent fits the frame; refusal happens exactly if nothing could; an unmarked result is the whole valid result |
| BrokerResponse.ResponseIsOneLine | internal/broker/server.go:368-383 | No output can put a newline into a response |
| BrokerDecode.CharacterReadsBack | internal/broker/server.go:627-638 | A JSON reader takes every character from its escape, whatever follows it |
| BrokerDecode.ContentReadsBack | internal/broker/server.go:602-638 | Any text is read back as it was, up to its closing quote |
| BrokerDecode.ResponseReadsBack | internal/broker/server.go:511-522 | Read back by their names, the outputs in a response are those of the result, and the truncation mark is the result's |
| BrokerDecode.BatchLayout | internal/broker/server.go:409-459 | A batch response lists its results under their name with commas between them |
| BrokerResponse.Deliver | internal/broker/server.go:368-383 | From the result to the other end of the socket the encoded response arrives as it is |
| BrokerBatch.EmptyAll | internal/broker/server.go:423-429 | All outputs emptied, and marked where there was one |
| BrokerBatch.FitAll | internal/broker/server.go:441-445 | Each output cut to its part of the room |
| BrokerBatch.PartsFit | internal/broker/server.go:437-445 | Equal parts of the room give a response that fits |
| BrokerBatch.CutButWhole | internal/broker/server.go:423-445 | In a cut batch every result that had output is marked; its output is whole exactly if it needed no more than its part of the room |
| BrokerBatch.Shrink | internal/broker/server.go:446-458 | A first response that fits is sent; whatever is sent fits or is the bare one |
| BrokerBatch.MarshalBatchExecuteResult | internal/broker/server.go:409-459 | The outputs are repaired as in a single result; what is sent fits; a response that fits is sent whole; otherwise every output is cut to an equal part, anything cut is marked, and the first attempt succeeds |
| SshCache.Client.Enter | internal/sshclient/client.go:136-152 | Exactly the idle connections are closed and dropped, then the key is looked up |
| SshCache.Client.Finish | internal/sshclient/client.go:178-191 | A connection of an older generation or a second one is closed, otherwise it is cached |
| SshCache.Client.Evict | internal/sshclient/client.go:194-203 | Only that very connection leaves the cache |
| SshCache.Client.Close | internal/sshclient/client.go:204-215 | All cached connections are closed, the cache is empty and the generation is new |
| SshCache.EnterKeepsRecent | internal/sshclient/client.go:136-152 | Entering keeps exactly the connections used within the last minute, closes the others, and hands out the one for the key if it is among them |
| SshCache.RecentIsUsedAgain | internal/sshclient/client.go:146-152 | A connection used within the last minute is used again, and nobody dials |
| SshCache.OtherwiseDials | internal/sshclient/client.go:146-160 | Otherwise the caller dials, in the present generation |
| SshCache.FinishUsesTheCached | internal/sshclient/client.go:178-191 | After dialling a caller uses what is cached under its key, closes its own connection if that is another, and fails exactly if the cache was closed meanwhile |
| SshCache.DiallersFailAfterClose | internal/sshclient/client.go:136-183 | Who entered before the cache was closed gets no connection afterwards, and what it opens is closed |
| SshCache.BrokenIsEvicted | internal/sshclient/client.go:82-130 | A connection that is given up is closed and leaves the cache; nothing else changes |
| SshCache.StepKeeps | internal/sshclient/client.go:82-215 | Every step of every caller keeps the cache's invariant |
| SshCache.NoConnectionIsLost | internal/sshclient/client.go:132-215 | Over every interleaving each connection whose getClient returned is cached or closed, under one key at most, and what is cached began dialling in the present generation |
| SshCache.OpenIsCached | internal/sshclient/client.go:82-215 | When every call has come to rest the open connections are exactly the cached ones |
| SshCache.CloseClosesAll | internal/sshclient/client.go:204-215 | Closing leaves nothing open but what is still being dialled |
| SshCache.ClosedForGood | internal/sshclient/client.go:178-183 | What had been opened before closing is never cached afterwards |
| SshCache.Perform | internal/sshclient/client.go:82-215 | Each step of a caller on the cache itself is the machine's step |
| SshCache.Drive | internal/sshclient/client.go:82-215 | Over every interleaving the cache's fields are the machine's, and every connection that no getClient still holds is closed or in the map |

## Left out

- File permissions, owners, symbolic links, umask and real file handles: metadata files are taken to validate, and the file lock to exclude other processes.
- Power loss that drops unsynced data: calls that completed persist; a synchronization can fail and is retried, but never loses anything.
- A commit rename that reports failure after taking effect, which the protocol rules out by assumption (internal/audit/logger.go:559).
- Directory listings in `CleanupExcessBackups` are sets of slots; backups whose names have leading zeros are not among them.
- AuditRuns.Run: processes follow one another; two that are alive at once and take turns under the lock are modelled only if they agree on the configuration, as one.
- Encoding of an audit event into a line, other than the bounded selection of redaction counts: a line is any bytes that end in their only newline.
- The regular expressions, address parsing and digests: matches are given as places in the text, the engine behind both redactors is any function of its four inputs, and the digest is any 32 hexadecimal digits for which the text can be scanned back.
- The text of the markers (internal/policy/redactor.go:178): any function of the category.
- PolicyPlaceholder.RedactionState.Protect: assumes that a match splits no placeholder and that what it keeps of its front holds none; the replacement of validated addresses and of trailing prefixes, which use the same placeholders, is not modelled.
- PolicyUrl.FindScheme: letters are ASCII; the two other characters Go folds to ASCII letters are left out, the byte scan does not know them either.
- The final shortening of redacted text to the public limit and its UTF-8 repair, which are part of the engine.
- PolicyStream.StreamRedactor.WithMaxBytes: the branches that trim a buffer are not there, since the limit can change only while the buffer is empty.
- 64-bit overflow of times, sizes and generations, which none of the modelled limits reaches; the inspection limit's own guard against it is modelled.
- The generation of identifiers and codes: they are drawn by the environment, which may also fail.
- Categories of an approval are a set; their sorting is not modelled.
- ApprovalStore.Store.WaitWake: a waiter may wake at any time rather than only when its channel was closed, which allows more runs than the code has.
- Changes of the risk policy and of the vault during a run; a batch reads the policy twice.
- The overall status of a batch and the contents of results, redacted output and audit events; an execution is an entry in a history.
- Secrets and their zeroing, request identifiers and clocks of the broker.
- BrokerFrame.Reader.Fill: reads that return nothing and no error, and reads that return data together with an error.
- Deadlines, sockets, protocol decoding and the dispatch of requests.
- BrokerDecode.ResponseReadsBack: takes the encoded fields around the output as they are, and assumes that none of those behind it has the name of an output.
- BrokerResponse.Deliver: strings are given as what decoding finds in them (scalar values and stray bytes); the fields around the output are given in encoded form and free of newlines.
- SSH handshakes, host keys and authentication: dialling succeeds or fails as the environment decides.
- The command analyzer: any function from commands to categories that may fail.
