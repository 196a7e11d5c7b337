# RigSignal: durable pipelines and decision cores, modelled in Dafny

RigSignal is a telemetry agent. This project models the parts of it whose promises are hard to
keep and proves them for all inputs, all runs and all crash points.

- **The durable log tailer** (`Lines`, `Tailer`, `Bulk`, `TailerRuns`, `TailerGaps`, `TailerDriver`). A
  checkpoint (device, inode, offset) and at most one batch in flight; steps are append to any generation,
  rotate, poll, ship, acknowledge or release, crash and restart. The class `RemoteConnectionsTailer` is
  proved equal to a step function; the runs of that function, over every file system and cluster
  behaviour the model admits, give at most one document to any line and exactly one to each wanted line
  the checkpoint moved over.
- **The spool** (`SpoolText`, `SpoolDirectory`, `SpoolNames`, `RecoveryText`, `RecoveryState`,
  `RecoveryReader`, `Recovery`, `SpoolBooks`, `SpoolCrash`, `SpoolWriter`). A directory is a map from
  names to bytes, and `Directory.past` holds it as it was after every single operation, the writes of a
  padding one by one, so a process that dies leaves some element of that history. Padding,
  reservation, publication, startup recovery and the per-dataset writer are methods over it.
  Recovery is classified file by file in every directory it passes through, then over any number of
  starts; the writer's conservation law is about the finals its directory has gained; and a writer
  that dies anywhere is composed with the recovery that follows.
- **The D3 detector** (`D3Journal`, `D3Precursor`, `D3State`): the two-source journal merge, the
  clock-regression test, the precursor, and the baseline/pending state machine over histories of runs.
- **The handshake** (`JsonText`, `JsonScan`, `JsonWalk`, `Digest`): JSON text as a concrete syntax
  tree with every spacing and escaping, the bounded scanner and the duplicate-key walker on its
  printed bytes, and the canonical digest preimage of the accepted versions.
- **Delivery health and overlays** (`Health`, `DeepMerge`), **template ownership** (`Dominance`) and
  **the base64 encoder** (`Base64`).

Faults are nondeterministic: each file or network operation of the source that can fail may fail in
the model, and clocks are parameters or arbitrary choices. A process crash is modelled, a power loss
is not.

Assumptions, all in the definitions: SHA-256 is collision-free (`Tailer.Digest` is its preimage);
generations (device and inode) are not reused and only grow; the predecessor the checkpoint names
stays findable (`TailerRuns.Enabled`); a bulk response has one item per action, in order
(`Bulk.ZeroFailuresIsAcknowledgement` needs it and `Bulk.ShortResponseOverstates` shows what happens
otherwise); JSON validity, line parsing and RFC 3339 checks are pure functions of the bytes.

What turned out not to hold, with the exact condition under which it does:

- that every generation that stood at the log path is read: it is read if and only if some poll landed on
  it while it stood there, and is never stored from otherwise (`TailerGaps.MissedExactly`);
  `TailerGaps.GenerationMissed` is a run that misses one with a wanted line in it;
- that a recovered file has one final: it has one if and only if no start ended, by a crash or a refused
  disposal, between publishing its records and disposing of it (`RecoveryState.ExactlyOneFinal`);
  `Recovery.RepublicationHappens` is a directory that ends with two;
- that a failed padding costs nothing: it does if and only if it left the file alone
  (`SpoolWriter.FailedPadExactly`); stopped between truncation and final newline it loses the last record
  as a line (`SpoolText.TornPaddingDropsLast`), and the next document joins it;
- that a failed write costs nothing: it does if and only if no part of the document reached the stream
  (`SpoolWriter.FailedWriteExactly`);
- that `deep_merge` is associative: it is exactly when no middle leaf hides a lower object that the upper layer
  does not cover (`DeepMerge.MergeAssociatesExactly`);
- that dominance is reflexive: it is exactly on values whose dimensions and dynamic templates are well formed
  (`Dominance.ReflexiveExactly`).

The docstring of `_simulation_settings` and of `simulation_outcome` speaks of four generated settings;
the code strips six, and so does the model.

## Model

| member | source | states |
|---|---|---|
| Lines.SplitConcat | src/remote_connections.rs:222-312 | splitting a file at a line boundary and gluing the two splits gives the one-pass split |
| Lines.SplitDrop | src/remote_connections.rs:222-312 | dropping the first k lines of a range leaves exactly the split of what follows them |
| Tailer.IdentityInjective | src/remote_connections.rs:489-505 | two lines with one id are the same position of the same generation, whatever their bytes |
| Tailer.RemoteConnectionsTailer.WithPaths | src/remote_connections.rs:81-103 | a new process knows the checkpoint file and nothing else |
| Tailer.RemoteConnectionsTailer.Persist | src/remote_connections.rs:342-368 | a checkpoint write either replaces the saved state or leaves it; it may fail after replacing it |
| Tailer.RemoteConnectionsTailer.FindRotated | src/remote_connections.rs:314-340 | finds the checkpoint's generation among the siblings if and only if it is there |
| Tailer.RemoteConnectionsTailer.Poll | src/remote_connections.rs:107-188 | one poll is the step function: at most one batch in flight, first poll at the log's end, truncation restarts at zero, a rotated generation is drained before the new one; the recursion ends |
| Tailer.RemoteConnectionsTailer.ReadBatch | src/remote_connections.rs:222-312 | hands out the wanted lines of the batch under one token, or commits lines nobody wants |
| Tailer.RemoteConnectionsTailer.TakeLines | src/remote_connections.rs:237-284 | the byte loop takes the longest run of complete lines that keeps to the batch limits |
| Tailer.RemoteConnectionsTailer.AckSuccess | src/remote_connections.rs:190-214 | moves the checkpoint to the batch's end; a failed write leaves memory and batch as they were |
| Tailer.RemoteConnectionsTailer.Nack | src/remote_connections.rs:218-220 | releases the batch and nothing else |
| Bulk.CountResponse | src/shipper.rs:1085-1124 | the failure count is the number of items that do not count as delivered; the totals add up, modulo the word size when a response fails more items than there are actions |
| Bulk.ZeroFailuresIsAcknowledgement | src/shipper.rs:1090-1116 | with one item per action, zero failures if and only if every document was acknowledged |
| Bulk.ShortResponseOverstates | src/shipper.rs:1090-1116 | a response with too few items acknowledges too little, yet counts zero failures exactly when the items it has succeeded |
| Bulk.ApplyEffect | src/shipper.rs:1127-1181 | a keyed create request never stores an id twice, and an item that counts as delivered has its document stored |
| TailerRuns.BatchIsSplit | src/remote_connections.rs:222-312 | a batch is the split of the bytes it spans, at most 100 lines, and at most 256 KiB unless it is one line |
| TailerRuns.BatchesRefineSplit | src/remote_connections.rs:222-312 | over successive acknowledged batches, with any growing file, read sizes and short reads, the lines handed out are the one-pass split of the committed range |
| TailerRuns.ReadMoves | src/remote_connections.rs:222-312 | a read hands out a batch at the checkpoint that covers every wanted line of its bytes, or moves over bytes without one |
| TailerRuns.PollMoves | src/remote_connections.rs:107-188 | every move of the checkpoint by a poll is legitimate: log end, over committed bytes, or from a drained generation to the next one |
| TailerRuns.DeliveredIsCommitted | src/main.rs:1447-1474 | when the driver counts no failure, every wanted line of the batch is in the index |
| TailerRuns.StepKeepsInv | src/main.rs:1447-1474 | every step of the environment, the agent and a crash keeps the invariant of checkpoint, batch and index |
| TailerRuns.ExactlyOnce | src/remote_connections.rs:107-312 | in every run no line has two documents, and every wanted line the durable checkpoint moved over has exactly one |
| TailerRuns.TrailIsSplit | src/remote_connections.rs:107-312 | what the durable checkpoint moved over is the split of whole generations, each up to what was its end when it was left |
| TailerRuns.EachLeftAtItsEnd | src/remote_connections.rs:140-188 | in every run a generation is only ever left at a moment when it had been read to its end |
| TailerRuns.TrailStartsAtEof | src/remote_connections.rs:107-135 | that trail starts at the end of the log as a first poll found it |
| TailerRuns.MismatchUnreachable | src/remote_connections.rs:190-214 | while a batch is in flight the checkpoint has its generation and start, so the generation-mismatch error cannot occur |
| TailerRuns.OldGenerationDrainedFirst | src/remote_connections.rs:140-188 | no line of a new generation is handed out before the checkpoint reached the old one's end |
| TailerRuns.ReplayIsSame | src/remote_connections.rs:216-312 | releasing a batch and polling again on unchanged files gives the same ids and token |
| TailerGaps.ReadExactlyIfVisited | src/remote_connections.rs:107-188 | in every run a generation has been read if and only if some poll landed on it at the log path |
| TailerGaps.MissedExactly | src/remote_connections.rs:140-188 | a generation off the log path is read, before or in any continuation, if and only if a poll landed on it while it was there; otherwise none of it is ever stored |
| TailerGaps.GenerationMissed | src/remote_connections.rs:140-188 | a run whose middle generation holds a wanted line, comes and goes between two polls, and is not stored |
| TailerGaps.SkippedForever | src/remote_connections.rs:140-188 | a generation nothing refers to any more is never stored from again, in any continuation |
| TailerDriver.Turn | src/main.rs:1447-1474 | one turn of the loop polls, ships, and acknowledges or releases; afterwards a batch is in flight only if its acknowledgement was not written |
| TailerDriver.PollShape | src/remote_connections.rs:107-188 | a batch handed out has at most 100 events and its first one names the batch in flight, which starts at the checkpoint |
| TailerDriver.TurnIsThreeSteps | src/main.rs:1447-1474 | a turn with a batch is three steps of a run: poll, ship, settle |
| RecoveryReader.ReadRecoveryLine | src/shipper.rs:772-822 | however the buffered reader slices the file: the next line of the split, oversize exactly above 1 MiB, unterminated exactly for a final fragment |
| SpoolText.PadSpoolFinal | src/shipper.rs:863-891 | accepts exactly long files and non-empty newline-ended ones, and then the file is at the reader's floor; every write on the way, and a failed pad, leaves the file whole or torn at its last record |
| SpoolText.PaddingPreserves | src/shipper.rs:863-891 | padding keeps the line count and every line but the last, adds only trailing spaces to that one, and is idempotent |
| SpoolText.PaddingKeepsDocs | src/shipper.rs:863-891 | padding keeps the records of a file |
| SpoolText.TornPaddingDropsLast | src/shipper.rs:873-889 | padding stopped half way loses the last record as a complete line, and only that one |
| SpoolDirectory.Directory.Reserve | src/shipper.rs:690-713 | takes the first free number at or above the counter, never touches an existing file, and fails to end only when every number up to the largest u32 is taken |
| SpoolDirectory.Directory.Publish | src/shipper.rs:377-419 | a published file appears under a name that was free, with the source's bytes; a failure leaves everything but perhaps an empty reservation |
| SpoolNames.NamesAreDistinct | src/shipper.rs:386-389 | files of different role, dataset, time or number have different names, whatever the slugs contain |
| SpoolNames.RolesAreReadOff | src/shipper.rs:830-850 | recovery takes exactly the active files for stranded ones and reads their slug off; staging and quarantine files are told apart |
| Recovery.WriteRecord | src/shipper.rs:596-613 | staging one record leaves everything outside staging alone at every moment |
| Recovery.StageGoodLines | src/shipper.rs:587-616 | stages exactly the complete valid lines, and notices exactly the malformed or partial files |
| Recovery.PadStage | src/shipper.rs:618-629 | a staged file is published only padded to the floor |
| Recovery.PublishStage | src/shipper.rs:630-661 | publishes the staged records under a fresh final, with the quarantine name reserved first when one is needed |
| Recovery.DisposeSource | src/shipper.rs:662-673 | the source goes away only into its quarantine or after its records are published; a refusal leaves it beside its published records |
| Recovery.RecoverStrandedFile | src/shipper.rs:568-682 | in every directory passed through each stranded file is unpublished, published once with its source still there, or disposed of; success makes exactly one final for the records and keeps a spoilt file |
| Recovery.RemoveOrphans | src/shipper.rs:532-544 | dropping staging files touches nothing else |
| Recovery.RecoverStrandedFiles | src/shipper.rs:528-556 | so it is at every point where recovery of the whole directory may stop, with no other final or quarantine added; when it finishes every stranded file is settled with one final for its records, and nothing is stranded |
| RecoveryText.StagedRecords | src/shipper.rs:587-629 | the padded final holds exactly the complete valid records of its source |
| RecoveryState.NewFinalIsRescue | src/shipper.rs:587-661 | every non-empty final recovery adds, up to any moment, holds the records of the stranded file of its dataset, at the reader's floor |
| RecoveryState.PassedKeepsFloor | src/shipper.rs:618-629 | recovery keeps every published final at the reader's floor at every moment |
| Recovery.Start | src/shipper.rs:528-556 | one start leaves a directory recovery passes through, wherever the process stops |
| Recovery.Starts | src/shipper.rs:528-682 | any number of real starts, each stopped anywhere: nothing is lost, the finals of every dataset are accounted for, and once one finishes everything stranded is rescued |
| RecoveryState.ChainAccounted | src/shipper.rs:558-566 | over any chain of starts a dataset gains one final for each interrupted start and one when its file is gone, all with the same rescued records; and a spoilt file is in quarantine once |
| RecoveryState.ExactlyOneFinal | src/shipper.rs:558-566 | the records of a recovered file have exactly one final if and only if no start ended, by a crash or a refused disposal, between publishing them and disposing of the file, spoilt files included |
| RecoveryState.ChainKeeps | src/shipper.rs:528-682 | over any chain of starts every stranded file is untouched, or its records are in a final and a spoilt file is in quarantine byte for byte |
| Recovery.Republication | src/shipper.rs:558-566 | a start that ends between publication and disposal and one that finishes give two finals with the same records, spoilt files included |
| Recovery.RepublicationHappens | src/shipper.rs:558-566 | a concrete directory for which that happens |
| SpoolWriter.SpoolWriter.constructor | src/shipper.rs:133-193 | a writer starts with conservation established, on a recovered directory whose finals are not its own |
| SpoolWriter.NothingStrandedIsBlank | src/shipper.rs:174-177 | an active file recovery left in place holds no record |
| SpoolWriter.SpoolWriter.EnsureSpool | src/shipper.rs:264-270 | opening with truncation never hits a file that holds a record |
| SpoolWriter.SpoolWriter.Append | src/shipper.rs:217-229 | adds one document to its dataset's history and stream, and to no other |
| SpoolWriter.SpoolWriter.PadActive | src/shipper.rs:338-349 | a refused pad leaves the dataset's records where they were; a process that dies between its writes leaves a prefix of them |
| SpoolWriter.SpoolWriter.PublishClosed | src/shipper.rs:350-357 | publication moves the active records into a fresh final at the end of the dataset's order; a failure keeps the file open for append |
| SpoolWriter.SpoolWriter.ClosePublishAndReplace | src/shipper.rs:317-365 | rotation conserves every document in the finals the directory has gained and the active files, whether it succeeds or fails at any point |
| SpoolWriter.SpoolWriter.RotateIfNeeded | src/shipper.rs:272-285 | size and age rotation conserve every document |
| SpoolWriter.SpoolWriter.WriteLine | src/shipper.rs:217-230 | one document joins its dataset's history, and the rotation it may set off conserves every document |
| SpoolWriter.SpoolWriter.WriteDocs | src/shipper.rs:195-240 | each dataset's history grows by its documents of the batch in order, or by a prefix of them when a step fails |
| SpoolWriter.SpoolWriter.RotateStaleFiles | src/shipper.rs:242-262 | timed rotation writes no document, loses none, and adds no final but those it publishes |
| SpoolWriter.SpoolWriter.FinalizeAll | src/shipper.rs:297-315 | when it succeeds, the finals the directory has gained for each dataset hold exactly the documents written, in order and once each |
| SpoolBooks.KeepAll | src/shipper.rs:195-419 | work on one dataset keeps the conservation law of every other |
| SpoolBooks.DrainKeeps | src/shipper.rs:217-229 | moving any part of the buffer to the file keeps conservation |
| SpoolBooks.PublishKeeps | src/shipper.rs:377-419 | publication keeps conservation, with the new final last in numbered order |
| SpoolBooks.ReservationKeeps | src/shipper.rs:377-419 | an abandoned reservation keeps conservation |
| SpoolWriter.TornPaddingLosesADocument | src/shipper.rs:886-889 | after a torn pad the next document joins the torn line, so conservation fails |
| SpoolWriter.FailedPadExactly | src/shipper.rs:338-349 | after a failed pad the next document is one more record if and only if the pad left the file alone |
| SpoolWriter.FailedWriteExactly | src/shipper.rs:217-229 | after a failed write the next document is one more record if and only if no part of the failed one reached the stream |
| SpoolCrash.ConservedLeaves | src/shipper.rs:195-240 | a directory under the conservation law holds of every dataset a prefix of its documents, in order and once each |
| SpoolCrash.PadStepLeaves | src/shipper.rs:886-889 | so does a directory left between two writes of a padding |
| SpoolCrash.CrashThenRecovery | src/shipper.rs:172-177 | whatever moment a writer died at, a finished recovery leaves the documents complete on disk in the dataset's finals, in order and once each |
| SpoolWriter.DieAndRecover | src/shipper.rs:172-177 | the same of a real writer and a real recovery |
| D3Journal.UniqueTail | src/detectors/d3.rs:438-463 | the counting loops keep exactly the surplus of the tail over the kernel source |
| D3Journal.StableMerge | src/detectors/d3.rs:499-525 | the two-pointer loop is the stable merge |
| D3Journal.CombinePrior | src/detectors/d3.rs:438-463 | each record text occurs max(kernel count, tail count) times; no tail, no evidence |
| D3Journal.MergeIsMultisetMax | src/detectors/d3.rs:438-525 | the merge is the multiset maximum of its sources |
| D3Journal.MergeInterleaves | src/detectors/d3.rs:499-525 | kernel list and surplus tail list stay subsequences in order |
| D3Journal.SurplusIsSubsequence | src/detectors/d3.rs:438-463 | the surplus keeps the tail's order |
| D3Journal.CombinedIsStablySorted | src/detectors/d3.rs:499-525 | sorted sources merge into a sorted list, kernel first among equals |
| D3Journal.TimestampsRegress | src/detectors/d3.rs:1484-1498 | with its early exits, flags exactly when the summed backward movement exceeds 100 ms |
| D3Journal.DroppingRowsNeverAdds | src/detectors/d3.rs:1484-1498 | dropping rows never adds backward movement |
| D3Journal.FlaggedWindowFlagsJournal | src/detectors/d3.rs:1431-1441 | a flagged precursor window means a flagged journal |
| D3Journal.MergeNeverFlagged | src/detectors/d3.rs:499-525 | merging two sorted sources never raises the flag |
| D3Precursor.TerminalExactly | src/detectors/d3.rs:1453-1463 | a tail is terminal exactly when nothing recovers after its last reset, or it ends in an SMU failure |
| D3Precursor.LateRecoverySilences | src/detectors/d3.rs:1431-1478 | a recovery logged after everything else silences the precursor |
| D3Precursor.OldRowsHaveNoSay | src/detectors/d3.rs:1431-1441 | rows older than the window change nothing, not even the timing test |
| D3Precursor.ReliableJournalHasReliableWindow | src/detectors/d3.rs:1480-1482 | a journal with reliable timing has a reliable window |
| D3State.Detector.Evaluate | src/detectors/d3.rs:1195-1355 | the verdict and the pending finding it leaves; the baseline is never touched |
| D3State.Detector.Run | src/detectors/d3.rs:1032-1125 | one run against the state file, refusals and failed saves leaving it alone |
| D3State.ProposalsAreValid | src/detectors/d3.rs:1391-1409 | what any operation proposes to save passes validation |
| D3State.EverySavedStateValidates | src/detectors/d3.rs:1160-1193 | in every history every saved state passes validation when reloaded |
| D3State.BaselineChangesByResetOrLearn | src/detectors/d3.rs:1032-1125 | a baseline goes only by a reset and comes only by learning when there is none |
| D3State.RecoveriesNeverOutnumberAbsences | src/detectors/d3.rs:1195-1355 | recovered verdicts never outnumber earlier bus-absent ones |
| D3State.PendingRecordsAbsence | src/detectors/d3.rs:1240-1290 | a pending finding is the record of one earlier absence that still stands |
| D3State.RecoveryConsumesAbsence | src/detectors/d3.rs:1195-1355 | each recovery consumes a pending finding of a different boot |
| D3State.DiagnosisIsAboutOneDevice | src/detectors/d3.rs:1195-1355 | past the hardware and absence guards exactly one device matches, and it sits at the baseline slot |
| JsonScan.ScanStringLoop | src/handshake.rs:1218-1275 | the string loop finds the same end as the character-by-character reading, decoded bytes counted |
| JsonScan.ScanJson | src/handshake.rs:1158-1217 | the scanner loop accepts what the token-by-token reading accepts |
| JsonScan.ScanPrinted | src/handshake.rs:1218-1275 | scanning a printed string ends right after it unless its decoded UTF-8 length exceeds 4096 |
| JsonScan.ScannerAcceptsWithinBounds | src/handshake.rs:1158-1217 | a printed document is accepted if and only if nesting is at most 32, tokens at most 4096 and each decoded string at most 4096 bytes |
| JsonWalk.DuplicateParser.Value | src/handshake.rs:1027-1042 | the cursor ends where the value ends, or the walk refuses |
| JsonWalk.DuplicateParser.Object | src/handshake.rs:1043-1077 | the member loop with its set of seen keys walks the object as specified |
| JsonWalk.DuplicateParser.Array | src/handshake.rs:1078-1102 | the element loop walks the array as specified |
| JsonWalk.DuplicateParser.String | src/handshake.rs:1103-1111 | a string is bounded, delimited and decoded |
| JsonWalk.CheckedJsonStage | src/handshake.rs:997-1006 | a body passes if the scan, the deserializer and the walk of the whole text accept it |
| JsonWalk.DecodePrinted | src/handshake.rs:1103-1111 | decoding a printed string gives its characters back however each was escaped (section 7 of RFC 8259) |
| JsonWalk.WalkerRefusesRepeats | src/handshake.rs:997-1157 | the walk consumes a printed document exactly unless a string is too long or a protected key repeats, after unescaping, at its protected path |
| JsonWalk.RootRepeatIsTopLevel | src/handshake.rs:1128-1142 | at the root stage only a second `cluster_uuid` of the outermost object counts |
| JsonWalk.StageAccepts | src/handshake.rs:997-1006 | scan and walk together accept a printed document if and only if it keeps the three bounds and repeats no protected key |
| Digest.VersionsAreNumbers | src/handshake.rs:1293-1299 | the valid versions are the decimal forms of 1 up to the largest u32, each number in one form only |
| Digest.CanonicalLists | src/handshake.rs:1277-1287 | sort and dedup list every value once, in byte order |
| Digest.SortedIsTheSet | src/handshake.rs:1285-1286 | a strictly sorted list is determined by what it holds |
| Digest.FrameOf | src/handshake.rs:1300-1308 | the buffer is the tag, the count and each entry behind its length |
| Digest.FrameInjective | src/handshake.rs:1300-1308 | the frame determines its list |
| Digest.AcceptedSet | src/handshake.rs:1277-1292 | accepts exactly 1 to 256 valid versions, frames their canonical list, and tells whether the agent's own version is among them |
| Digest.PreimageIsTheSet | src/handshake.rs:1277-1308 | two accepted lists have one preimage if and only if they name the same versions |
| Health.EsDeliveryHealth.RecordFailure | src/main.rs:141-171 | one failure moves the locked state and prints as specified |
| Health.EsDeliveryHealth.RecordSuccess | src/main.rs:176-182 | one success ends the outage and reports it only if it was announced |
| Health.EsDeliveryHealth.Observe | src/main.rs:233-238 | a rejected document makes a delivery a failure |
| Health.StateIsTheStreak | src/main.rs:101-183 | in any order of deliveries the state is exactly the streak of failures since the last success |
| Health.WarningDescribesTheStreak | src/main.rs:141-171 | a warning names the first failure of its streak and counts the streak |
| Health.RecoveryCountsTheStreak | src/main.rs:176-182 | a success prints a recovery exactly when its streak was warned about, and counts all of it |
| Health.SpeaksExactlyWhenDue | src/main.rs:141-171 | a failure is warned about exactly when none was before, the clock is behind the last warning, or 60 s passed since |
| Health.WarningsAreRateLimited | src/main.rs:101-183 | warnings number at most 1 + backward clock steps + forward movement / 60 |
| Health.WarningsAreApart | src/main.rs:141-171 | while the clock runs forward two warnings are 60 s apart, across outages |
| Health.RecoveriesFollowWarnings | src/main.rs:101-183 | recoveries never outnumber warnings |
| DeepMerge.DeepMergeInto | src/main.rs:434-452 | the loop over the overlay's members gives the merge, in whatever order they come |
| DeepMerge.OverlayWins | src/main.rs:434-452 | at every path the overlay decides where it has a value, the base where it leaves the path open, and nothing stays under an overlay leaf |
| DeepMerge.MergeIsIdempotent | src/main.rs:434-452 | merging a layer with itself changes nothing |
| DeepMerge.MergeAbsorbs | src/main.rs:434-452 | applying a layer again, above or below, changes nothing |
| DeepMerge.CoveredLayerVanishes | src/main.rs:434-452 | a layer leaves no trace exactly when the one above covers it |
| DeepMerge.MergeAssociatesExactly | src/main.rs:434-452 | both groupings of three layers agree if and only if no middle leaf hides an object the upper layer does not cover |
| DeepMerge.LayersFoldEitherWay | src/main.rs:1364-1392 | layers that agree on which paths are objects fold in either grouping |
| DeepMerge.GroupingMatters | src/main.rs:434-452 | a concrete triple for which the groupings differ |
| Dominance.NamedLoop | tools/asset_adapters.py:408-418 | the dictionary loop accepts exactly lists of one-member objects with different names |
| Dominance.DominanceIsTransitive | tools/asset_adapters.py:378-431 | dominance is transitive on all values at every path |
| Dominance.ReflexiveExactly | tools/asset_adapters.py:378-431 | a value is dominated by itself if and only if its dimensions and dynamic templates are well formed |
| Dominance.DeclarationsSurvive | tools/asset_adapters.py:378-431 | whatever the expected value declares at a path survives there in the live one, `managed_by` excepted |
| Dominance.AdditionKeepsDominance | tools/asset_adapters.py:378-431 | a member added anywhere to a dominating live object keeps it dominating |
| Dominance.InsertionKeepsDominance | tools/asset_adapters.py:408-425 | a dynamic template inserted at any position under a new name keeps the list dominating |
| Dominance.SimulationSettings | tools/asset_adapters.py:330-349 | the pops remove every generated setting in both spellings, in any order of the set |
| Dominance.PopWithout | tools/asset_adapters.py:330-349 | popping one more path is removing one more, so the order of the pops does not matter |
| Dominance.WithoutAt | tools/asset_adapters.py:330-349 | nothing is left at or below a generated path, and every other path keeps its value |
| Dominance.SimulationOutcome | tools/asset_adapters.py:352-375 | malformed responses are refused; otherwise mappings, stripped settings and aliases |
| Dominance.SimulationOutcomeDominates | tools/asset_adapters.py:434-436 | the oracle compares the two outcomes |
| Dominance.OutcomesAreOrdered | tools/asset_adapters.py:352-436 | outcomes are preordered, reflexively exactly when well formed |
| Base64.EncodeBase64 | src/shipper.rs:948-970 | the loop encodes chunk by chunk; four characters for every three bytes or part of them; every alphabet index is below 64 |
| Base64.ChunkRoundTrip | src/shipper.rs:948-970 | one chunk decodes to itself, padding included |
| Base64.RoundTrip | src/shipper.rs:948-970 | decoding by section 4 of RFC 4648 returns the input |

## Left out

- Tailer.RemoteConnectionsTailer.Poll: sees one snapshot of the directory; a change between the stat, the listing and the read of one poll is not modelled.
- Tailer.RemoteConnectionsTailer.WithPaths: does not model reading and parsing the checkpoint file or the peer key, nor the refusal to start on an unreadable or malformed checkpoint; the saved state is read as it was written.
- TailerRuns.ExactlyOnce: is safety, not progress; a rotated file without a final newline, a line longer than the read window and a failing checkpoint write stall by design.
- TailerRuns.TrailIsSplit: does not cover truncation of the log, a generation only grows; bytes appended to a generation after it was left are not read.
- Bulk.CountResponse: a response that fails more items than there are actions wraps `succeeded`, as release builds do; the panic of debug builds is not modelled.
- A crash inside a poll is modelled as a crash after a poll that handed nothing out.
- SpoolDirectory.Directory.Reserve: reports `Spinning` where the source loops without end, with the counter at its maximum and every name taken.
- SpoolWriter.SpoolWriter.PadActive: takes, in a writer that goes on, pads that succeed or leave the file alone; a torn pad is in the directory's past, where the process dies, and `SpoolWriter.FailedPadExactly` says what it costs a writer that goes on.
- SpoolWriter.SpoolWriter.PublishClosed: does not model re-opening failing after a failed publication.
- SpoolCrash.CrashThenRecovery: is about datasets whose complete lines on disk are valid JSON of at most 1 MiB, as the writer's are; documents only in a buffer die with the process.
- SpoolWriter.SpoolWriter.Append: does not model, in a writer that goes on, a write that fails inside the buffered writer; `SpoolWriter.FailedWriteExactly` says what it costs.
- The spool lock, quarantine pruning, `dataset_slug` and the millisecond clock: the lock is held, slugs are given, and milliseconds are arbitrary.
- D3State.Detector.Run: takes parsed snapshots and journals; the parsers of snapshots, inventories, journals and state files, the state lock, and the wording of diagnoses are not part of this model.
- D3State.RecoveriesNeverOutnumberAbsences: counts answers computed; a process that dies after the save and before the answer is emitted (src/detectors/d3.rs:1115-1125) is not an event of a history, so an absence that was saved may not have been reported.
- D3State.Detector.Evaluate: takes the precursor's answer and the link-down scan as functions; the precursor itself is `D3Precursor`, over rows already marked by the text tests.
- The precursor: its counters and its truncated and suppressed remarks beyond the firing condition are not modelled.
- JsonWalk.CheckedJsonStage: takes the deserializer's verdict as a parameter; its string decoding is section 7 of RFC 8259.
- JsonScan.ScannerAcceptsWithinBounds: is about printed trees; on other bytes the scanner is only proved equal to its token-by-token reading, where a leading plus in a `\u` escape is accepted.
- The SHA-256 that digests the frame, the handshake's HTTP requests, reasons and report.
- Health.EsDeliveryHealth.RecordFailure: attempts are unbounded numbers.
- DeepMerge.DeepMergeInto: builds the merged map as a value; the source rewrites the owned base map in place.
- Dominance.SimulationSettings: pops on a value instead of a deep copy shared by a cursor; NaN and infinite numbers are excluded, numbers compare by value.
- The other adapters of `tools/asset_adapters.py`, TLS, command line, collectors, session counter, redaction, lock retry and log escaping: no hard state.
