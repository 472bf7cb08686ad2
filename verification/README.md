# CohBit-Copilot: a verified model of its governed patch machinery

CohBit-Copilot moves patches through gates, seals them with receipts, applies and rolls them back on disk, tracks
review obligations across audits and logs sessions in a shared ledger. This project models those machines in Dafny,
one module for each source file, and proves what they keep over every input, every order of calls and every
interleaving.

- `Rationals` (src/types.ts): fractions and the admissibility law `V(post) + s <= V(pre) + d + a`. The partner is the
  real number a fraction denotes.
- `LowestTerms` and `Receipts` (src/receipt.ts): the gcd loop, lowest terms, the `|`-joined print of a receipt, its hash,
  the builder and the verifier.
- `Gates` (src/gates.ts): the mutable gate record. Each gate method equals a step function on the record's value; the
  theorems are about every sequence of steps, in any order.
- `Obligations` (src/atlas_integration.ts): reconciliation, the lifecycle table, persisting and reloading.
- `AtomicWrites` (src/atomic_write.ts) and `Workspace` (src/fs.ts): a disk whose operations can fail at will and which
  records, as ghost state, every state it passes through, so a crash is any point of that trace.
- `LedgerLock` (src/ledger_lock.ts): the lock-file protocol for any number of concurrent calls in any number of processes,
  each open, write, close, read, probe and unlink a separate step. Lock files are inodes, so a write can land in an
  unlinked file.
- `Ledger` (src/ledger.ts) and `LockedLedger`: the append-only log, its two readers, and both together with the lock.
- `DepGraph` (src/dep_graph.ts), `Proposer` (src/proposer.ts), `PatchBuilder` (src/patch_builder.ts): dependency closure,
  single-occurrence replacement and idempotent import insertion.
- `Text` and `Wrappers`: the JavaScript string operations used, and option and result types.

SHA-256, JSON, UTF-8 lengths and dates are function parameters. The digest is assumed injective, and the JSON codec
faithful, only in the lemmas that say so. Integers are exact and denominators are at least 1.

## What is false of the code, and exactly when it is true

- Receipts are not uniquely decodable if string fields may hold `|`, `:` and, say, `d`: moving `|d:` from one field to
  the next does not change the print (`ShiftedPrintAlike`). Over any given alphabet of the string fields they
  are, exactly when it is not `Ambiguous`: it lacks `|`, or `:`, or else all of `d p f a t` and one of the letters and digits it takes
  to hold `|s:x|e:x|z:x|u:x|c:` for some fraction `x` (`DecodableIffUnambiguous`; which digits print a fraction is
  `FractionOverIff`).
- Equal zeros over different denominators print differently (`ZerosPrintDifferently`), because `gcd` answers 1 when an
  argument is 0; with an injective digest they hash differently, in whatever field of a receipt (`ZerosHashDifferently`).
- A RECEIPTED record can still be rolled back. It is exactly when a later test call, whatever its results, is followed
  at once by a rollback call (`RolledBackAfterReceipt`). The transition table of docs/gate_lifecycle.md gives RECEIPTED no
  successor; in the code every status has failure successors, since a call in the wrong status still sets a status.
- A lock whose writer has vanished is stolen by separate read, probe and unlink steps, and two live calls can then hold
  it at once (`StolenTwice`). Over all interleavings exclusion holds exactly when no call runs in a process that may
  vanish (`ExclusionIffImmortal`). A process vanishes here when its liveness probe fails; the code's probe also fails
  for live processes of other users.
- Nor does a lock file go away whose call failed to write, close or remove it: it stays, and while no process vanishes
  no later call acquires. Otherwise the path is occupied exactly while a call owns the lock (`PathOccupied`,
  `AcquiresIffFree`).
- A ledger line holding `null` stops all three readers with an exception, although the header promises no panic on
  corruption; nothing else does (`ReadersFailIffNull`).
- Rolling back restores every content view, but restores the files themselves exactly when none of the touched files was
  present and empty: such files are deleted (`ApplyThenRollback`). An application that fails half way restores every
  view too, but the files exactly when every path it had applied was there: others stay behind, empty (`ApplyPatch`).
- A repeated audit reports no change exactly when memory held no stale record before the first audit, since a hit in
  memory ignores content changes (`ReauditOutcomes`). It persists the very same map exactly when memory, besides, held
  only obligations of the findings, each with the transition it is found with (`PersistsSameIffUpToDate`). A persisted obligation survives an audit by a fresh process exactly when
  its finding is found again (`SurvivesIffRefound`).
- "Found once" means one place to replace, in every file, exactly for blocks that are not empty and do not overlap
  themselves: `aa` is counted once in `aaa` but matches twice (`CountIsUniqueIffNoOverlap`). The empty block is replaced
  exactly in files of no or two characters (`EmptyBlockOutcome`).
- A replacement text is inserted verbatim exactly when it holds no `$` pattern (`VerbatimIffLiteral`). Inserting an
  import is idempotent, on every file and under all scopes, exactly for statements without such a pattern
  (`IdempotentIffLiteral`); patterns in the rest of the file do no harm to that, though they are expanded
  (`InsertedText`).
- Deduplicating edges by a key joined with an arrow loses edges exactly when paths may contain the arrow
  (`LosslessIffNoArrow`).

## Model

| member | source | states |
|---|---|---|
| Rationals.CmpMeaning | src/types.ts:11-31 | comparison, order and equality of fractions are those of the numbers they denote |
| Rationals.AddSubMeaning | src/types.ts:15-21 | sum and difference denote the sum and difference |
| Rationals.AdmissibilityLaw | src/types.ts:62-66 | the check holds exactly when V(post) + s <= V(pre) + d + a on the denoted numbers |
| Rationals.AdmissibilityIgnoresRepresentation | src/types.ts:11-66 | replacing any argument by an equal fraction does not change the verdict |
| Rationals.AdmissibilityTelescopes | src/types.ts:59-66 | a chain of admissible steps is itself admissible with the summed spend, defect and authority |
| LowestTerms.Gcd | src/receipt.ts:27-33 | the loop ends with the greatest common divisor of nonzero arguments, and 1 if one is zero |
| LowestTerms.EuclidIsGcd | src/receipt.ts:27-33 | Euclid's recursion yields a common divisor that every common divisor divides |
| LowestTerms.LowestTermsUnique | src/receipt.ts:20-25 | positive fractions are equal exactly when their lowest terms are |
| LowestTerms.CanonicalRationalIff | src/receipt.ts:20-25 | two fractions print alike exactly when they are equal and nonzero, or the very same zero |
| LowestTerms.PrintsItsValue | src/receipt.ts:20-25 | the print is that of a fraction with positive denominator which equals the given one |
| Text.DecimalReadsBack | src/receipt.ts:24 | a printed integer reads back digit by digit, has no leading zero, and a minus sign exactly if negative |
| LowestTerms.ZerosPrintDifferently | src/receipt.ts:28 | zeros over different denominators are equal but print differently |
| LowestTerms.FractionOverIff | src/receipt.ts:20-33 | some fraction prints over an alphabet exactly when it has the slash and two digits in lowest terms, or zero and another digit |
| Receipts.ReceiptIsFlat | src/receipt.ts:36-58 | the nested joins print one flat list of thirteen tagged segments |
| Receipts.ReceiptUniquelyDecodable | src/receipt.ts:20-58 | over every unambiguous alphabet, so whenever the fields lack the separator or the colon, receipts print alike exactly when their content is the same |
| Receipts.DecodableIffUnambiguous | src/receipt.ts:36-58 | for every alphabet, printing is uniquely decodable over it exactly when it is not ambiguous |
| Receipts.ShiftedPrintAlike | src/receipt.ts:36-58 | a separator and tag moved between any two adjacent string fields leave the print as it was |
| Receipts.MiddlePrintsAlike | src/receipt.ts:36-58 | all that is printed between the last two string fields can stand in either of them, and the print is the same |
| Receipts.HashBindsContent | src/receipt.ts:64-71 | with an injective digest and an unambiguous alphabet, equal hashes mean equal content |
| Receipts.ZerosHashDifferently | src/receipt.ts:20-71 | with an injective digest, receipts that differ in the denominator of a zero, in whichever fraction, hash differently |
| Receipts.BuildReceipt | src/receipt.ts:98-142 | a built receipt carries all inputs, obeys the law within the envelope, and its id is the hash of the finished receipt |
| Receipts.BuildReceiptOutcome | src/receipt.ts:98-112 | the builder succeeds exactly on lawful inputs within the envelope, and each error names the check that failed |
| Receipts.VerifyMeaning | src/receipt.ts:146-168 | for every receipt and hash: verified exactly if the print hashes to it, admissible exactly if the law holds, never signed |
| Receipts.VerifierAcceptsExactlyBuilt | src/receipt.ts:146-168 | verification accepts built receipts under their ids and, with an injective digest, only their content |
| Gates.GateRecord.Propose | src/gates.ts:76-108 | a new record is PROPOSED with one event and no evidence |
| Gates.GateRecord.AddEvent | src/gates.ts:52-55 | appends one event and overwrites the status, always |
| Gates.GateRecord.DoReview | src/gates.ts:114-137 | one review call, in any status |
| Gates.GateRecord.DoAuthorize | src/gates.ts:154-209 | one authorization call, in any status, with its four refusals |
| Gates.GateRecord.DoApply | src/gates.ts:221-241 | one apply call, in any status |
| Gates.GateRecord.DoRunTests | src/gates.ts:247-267 | one test call, in any status |
| Gates.GateRecord.DoRollback | src/gates.ts:337-354 | one rollback call, in any status |
| Gates.GateRecord.DoCommitReceipt | src/gates.ts:360-398 | one commit call, in any status; a failed build goes back to APPLIED |
| Gates.RunPipeline | src/gates.ts:491-551 | the record ends as the gate calls in order leave it, RECEIPTED exactly under the stated conditions |
| Gates.PipelineOutcome | src/gates.ts:491-551 | the exact condition of each of the five final statuses, for every configuration |
| Gates.PipelineIsRun | src/gates.ts:491-551 | the pipeline is a run of gate calls, so all results on runs apply to it |
| Gates.StepIsEdge | src/gates.ts:52-425 | every call appends exactly one event, along an allowed status change |
| Gates.StatusStep | src/gates.ts:114-398 | the status each call leads to, from every status, with its exact condition |
| Gates.LiveIff | src/gates.ts:114-398 | a record is live exactly when every call advanced it, and its status is then determined by their number |
| Gates.EvidenceOfCalls | src/gates.ts:114-241 | for every list of calls, review, authorization and snapshot are exactly those of the first, second and third call, under the stated conditions |
| Gates.ReceiptOfCalls | src/gates.ts:360-398 | for every list of calls there is a receipt exactly if a call sealed it after rounds of passed tests, and it carries that call's terms |
| Gates.ReceiptStates | src/gates.ts:381-382 | every reachable receipt records, as states before and after, the first modified file's hash in the table before and in the table after the patch, the empty name's if there is no file, zeros if there is none |
| Gates.AuthorizedIsCommitted | src/gates.ts:499-548 | the receipt shown to the authorization gate has the terms of the committed one, up to the states and an envelope of a tenth |
| Gates.RunIsWalk | src/gates.ts:52-425 | every timeline is a walk from PROPOSED, and the status is its last entry |
| Gates.LiveWalk | src/gates.ts:114-267 | a live status determines the whole timeline up to the number of test rounds |
| Gates.ReceiptedTimeline | src/gates.ts:114-425 | up to RECEIPTED the timeline is review, authorization and one or more apply-and-test rounds; nothing live follows |
| Gates.DeadStaysDead | src/gates.ts:114-425 | once the status has left the live ones no sequence of calls brings it back |
| Gates.ReachableEvidence | src/gates.ts:114-425 | which evidence each status guarantees, in every reachable state |
| Gates.FieldsWrittenOnce | src/gates.ts:128-396 | review, authorization, snapshot and receipt never change once written, over any run |
| Gates.ReceiptIsBacked | src/gates.ts:374-398 | every reachable receipt has an approved review, an authorization, passed tests, the proposal's terms, and verifies under its own id |
| Gates.RolledBackAfterReceipt | src/gates.ts:247-354 | a receipted record gets rolled back exactly when a test call is followed at once by a rollback call |
| AtomicWrites.AtomicWriteFile | src/atomic_write.ts:202-260 | at every moment the target holds its complete old or complete new content; success means new content and no temp file, failure means no change |
| AtomicWrites.WriteTemps | src/atomic_write.ts:296-328 | all temp files are written, exactly when no fault occurs, or the failure is undone and no target was touched |
| AtomicWrites.RenameTemps | src/atomic_write.ts:330-367 | the renames complete a prefix of the batch, the whole of it exactly when no fault occurs |
| AtomicWrites.AtomicApplyBatch | src/atomic_write.ts:290-370 | some k writes happened, all of them exactly when no fault occurs, at every moment a prefix of them; results are k successes and then one failure unless all succeeded; temp files are gone if cleanup succeeds |
| AtomicWrites.WrittenMeaning | src/atomic_write.ts:330-343 | after the first k writes each target holds its last content and all other files are untouched |
| Workspace.ReadPreState | src/fs.ts:261-271 | the pre-state holds the view of every path of the proposal, each once |
| Workspace.AllPatchedMeaning | src/fs.ts:274-301 | after a proposal each path is as the last entry for it says, and all others are untouched |
| Workspace.Restore | src/fs.ts:303-314 | every applied file is written back, going on after failures, so that each failed write costs at most one path |
| Workspace.ApplyPatch | src/fs.ts:213-338 | all entries apply, exactly when no fault occurs and every delete finds its file, with exact hashes and snapshot; or all views come back but at most one for each failed restoring write, and every file exactly when the paths applied so far were there; other files are untouched |
| Workspace.FailureUndone | src/fs.ts:303-319 | why restoring the applied files undoes a partly applied proposal, repeated paths included |
| Workspace.FilesUndone | src/fs.ts:303-319 | the restoring writes bring back the files, not only the views, exactly when every path applied so far was there |
| Workspace.RollbackWorkspace | src/fs.ts:345-395 | every fault costs at most one path, and each path is reported restored or failed; without faults everything is restored as last recorded, and verified exactly when the recorded hashes fit; no warnings means every hash matches |
| Workspace.HashRestoredIsRestored | src/fs.ts:371-379 | with an injective digest, matching hashes are restored contents |
| Workspace.ApplyThenRollback | src/fs.ts:213-395 | without faults apply then rollback is the identity on views, and on files exactly when no touched file was empty; with faults too on views, if the rollback reports no warning and the digest is injective |
| Workspace.FilesBack | src/fs.ts:345-395 | the exact condition under which files, not only views, come back |
| LedgerLock.RunKeepsLockInv | src/ledger_lock.ts:94-165 | the owner's lock file is in place and names it, in every interleaving without vanished writers |
| LedgerLock.MutualExclusion | src/ledger_lock.ts:94-165 | at most one call is between acquire and release, and the lock file names its process |
| LedgerLock.PathOccupied | src/ledger_lock.ts:94-165 | there is a lock file exactly while a call owns it, unless a call failed to write, close or release it: that one file then stays for good |
| LedgerLock.AcquiresIffFree | src/ledger_lock.ts:103-128 | a trying call acquires in three steps exactly when nobody owns the lock and no lock file was abandoned |
| LedgerLock.ReleaseReadsFirst | src/ledger_lock.ts:110-121 | a release unlinks only a lock file that names its process, and otherwise ends leaving it alone |
| LedgerLock.CompletesWhenFree | src/ledger_lock.ts:174-181 | with a free lock a call can append its whole line and leaves the lock free |
| LedgerLock.CanAlwaysEnd | src/ledger_lock.ts:94-181 | from every state every call can end by four steps of its own, whatever fails |
| LedgerLock.StolenTwice | src/ledger_lock.ts:130-146 | an interleaving in which two live calls hold the lock after a holder vanished |
| LedgerLock.ExclusionIffImmortal | src/ledger_lock.ts:94-165 | exclusion over all interleavings holds exactly when no call runs in a process that may vanish |
| LedgerLock.RunKeepsLedgerInv | src/ledger_lock.ts:174-181 | the ledger is what the calls contributed, in acquisition order, failed appends included |
| LedgerLock.OrderIsAcquirers | src/ledger_lock.ts:94-165 | over every interleaving, the acquisition order holds exactly the calls that ever held the lock |
| LedgerLock.OrderGrows | src/ledger_lock.ts:94-165 | the acquisition order only grows at its end |
| LedgerLock.LedgerIsWholeLines | src/ledger_lock.ts:174-181 | without failed appends the ledger is whole lines in acquisition order and part of the holder's line |
| LockedLedger.ConcurrentAppendsReadBack | src/ledger_lock.ts:174-181 | reading the ledger yields exactly the events of the calls that ever acquired the lock, each once, in acquisition order |
| Ledger.LedgerFile.AppendSessionEvent | src/ledger.ts:64-68 | appends the encoded event and a line end |
| Ledger.LedgerFile.LoadSessionEvents | src/ledger.ts:126-145 | exactly the session's events, by time, in log order at equal times; or the failure on null |
| Ledger.LedgerFile.SummarizeSession | src/ledger.ts:148-162 | the latest event's fields and the number of events, nothing for a session without events; or the failure on null |
| Ledger.LedgerFile.LoadRecentSessions | src/ledger.ts:80-123 | as many summaries as limit and log allow, latest first, earlier started sessions first among equals, nothing left out being later; or the failure on null |
| Ledger.GroupLines | src/ledger.ts:82-100 | grouping keeps first-appearance order and gives each session exactly its events |
| Ledger.RecentMeaning | src/ledger.ts:103-122 | what the recent sessions are, in terms of the events of the log and their times |
| Ledger.LedgerReadsBack | src/ledger.ts:64-78 | reading back yields exactly the appended events in order, whatever other lines are corrupted |
| Ledger.SortByAscends | src/ledger.ts:105-107 | sorting by time yields an ascending list of the same length |
| Ledger.SortByStable | src/ledger.ts:105-122 | sorting puts every element somewhere, by key, and keeps the order of equal keys |
| Ledger.SortEndsWithLatest | src/ledger.ts:105-108 | the sorted list ends with the latest event, the last written among equal times |
| Ledger.ReadersAgree | src/ledger.ts:80-162 | the unlimited recent sessions hold exactly one summary for every nonempty session id, the one summarizeSession gives |
| Ledger.SummaryIsLatest | src/ledger.ts:148-162 | a summary reports the session's latest event and the number of its events |
| Ledger.SummaryMeaning | src/ledger.ts:148-162 | a summary exists exactly for a session with events, and reports the last of the latest of them and their number |
| Ledger.ReadersFailIffNull | src/ledger.ts:84-92 | the readers fail exactly when a visible line parses to null |
| Obligations.ObligationStore.ReconcileFinding | src/atlas_integration.ts:770-871 | one finding: memory hit, preserved, re-opened, carried forward or new |
| Obligations.ObligationStore.Reconcile | src/atlas_integration.ts:755-875 | the new store, counters that are the numbers of outcomes, and as the n-th listed record the one stored for the n-th finding with an obligation |
| Obligations.ObligationStore.TransitionObligation | src/atlas_integration.ts:897-928 | moves along the table or changes nothing |
| Obligations.MoveAllowedIff | src/atlas_integration.ts:897-928 | which moves are allowed, target by target, and what each leaves behind |
| Obligations.ObligationStore.CloseObligationWithReceipt | src/atlas_integration.ts:934-947 | succeeds exactly for an obligation under review and one of three decisions, names the receipt and leaves all others; otherwise changes nothing |
| Obligations.ObligationStore.PersistObligationStore | src/atlas_integration.ts:690-720 | the file becomes exactly the in-memory store |
| Obligations.ReconciledMeaning | src/atlas_integration.ts:770-871 | memory grows by the found ids; records in memory stay, new ones come from the first finding with their id |
| Obligations.OutcomesMeaning | src/atlas_integration.ts:770-871 | the outcome of every finding in terms of the state before the run |
| Obligations.FirstFindingFate | src/atlas_integration.ts:787-871 | an obligation not in memory: new, preserved, re-opened exactly if its content is known to have changed, or carried over, with every field of its record |
| Obligations.ReauditOutcomes | src/atlas_integration.ts:690-875 | after persist, restart and reload nothing is new, and nothing changed exactly if no record in memory was stale before the first audit |
| Obligations.PersistsSameIffUpToDate | src/atlas_integration.ts:690-875 | the second audit persists the identical map exactly when memory held only obligations of the findings, none stale and each with the transition it is found with |
| Obligations.ReauditFixpoint | src/atlas_integration.ts:690-875 | from an empty memory a second audit finds nothing new or changed and persists the identical map |
| Obligations.AuditsSettle | src/atlas_integration.ts:690-875 | after any history, an audit by a new process settles the file: a second one leaves it as it is |
| Obligations.SurvivesIffRefound | src/atlas_integration.ts:690-710 | a persisted obligation survives exactly when it is found again |
| Obligations.EveryLifeLawful | src/atlas_integration.ts:690-947 | every history in memory, on disk and loaded is linked, follows the table or re-opens on changed content, and has a closing time exactly if resolved |
| Obligations.ClosedIsFinal | src/atlas_integration.ts:789-917 | nothing follows resolved, and only resolved follows false positive |
| Obligations.HistoryGrows | src/atlas_integration.ts:789-925 | no operation rewrites a history kept in memory; each adds at most one entry |
| DepGraph.BuildDependencyGraph | src/dep_graph.ts:112-143 | the two adjacencies list exactly the kept edges, forwards and backwards, without repeats |
| DepGraph.Transposes | src/dep_graph.ts:131-140 | the adjacencies are transposes of each other |
| DepGraph.ReachableIffDepends | src/dep_graph.ts:131-172 | paths in the reverse adjacency are chains of edges read backwards |
| DepGraph.LosslessIffNoArrow | src/dep_graph.ts:116-128 | deduplication loses no edge exactly over alphabets without the arrow |
| DepGraph.FindAffectedFiles | src/dep_graph.ts:152-172 | exactly the other files that depend on the given one, directly or through others, sorted and without repeats; on every graph, what the reverse adjacency leads to |
| DepGraph.SortStrings | src/dep_graph.ts:171 | sorts a list without repeats strictly, keeping its elements |
| DepGraph.LexLeIff | src/dep_graph.ts:171 | the sorting order is decided by the first character that differs |
| Proposer.ProposalIsExact | src/proposer.ts:80-142 | a proposal is within permissions and budget and changes exactly the first match |
| Proposer.ReplacementOutcome | src/proposer.ts:80-116 | for nonempty blocks, each of the six refusals and the proposal exactly under its condition: one first match, no other after it, permissions and budget |
| Proposer.EmptyBlockOutcome | src/proposer.ts:103-116 | the empty block is replaced exactly in files of no or two characters |
| Proposer.OccurrencesMeaning | src/proposer.ts:103 | the count is 0 without a match and 1 exactly if no match follows the first |
| Proposer.ExpandPieces | src/proposer.ts:112 | what each of the four replacement patterns stands for |
| Proposer.CountIsUniqueIffNoOverlap | src/proposer.ts:103-110 | one counted occurrence means one match, in every text, exactly for blocks that are not empty and do not overlap themselves |
| Proposer.VerbatimIffLiteral | src/proposer.ts:112 | replacement text is inserted as written exactly when it holds no replacement pattern |
| PatchBuilder.FindLastImport | src/patch_builder.ts:95-101 | the last import line, or -1 if there is none |
| PatchBuilder.DoInsertImportIfAbsent | src/patch_builder.ts:69-120 | the four refusals in order, or the replacement of the whole file |
| PatchBuilder.InsertedText | src/patch_builder.ts:69-120 | each refusal and the insertion exactly under its condition; the old text is cut after its last import line and the statement put there on its own line; without replacement patterns nothing else changes, and otherwise each part is expanded |
| PatchBuilder.ImportLineIff | src/patch_builder.ts:97-99 | which lines count as imports, up to surrounding white space |
| PatchBuilder.PresentIff | src/patch_builder.ts:86-91 | a statement is present exactly if the text holds it somewhere, up to the length and kind of white space |
| PatchBuilder.CollapseRun | src/patch_builder.ts:87 | a run of white space becomes one blank |
| PatchBuilder.ContainedIsPresent | src/patch_builder.ts:86-91 | a text that contains the statement, in whatever surroundings, has it present after normalization |
| PatchBuilder.InsertIsIdempotent | src/patch_builder.ts:69-120 | a statement without a replacement pattern is reported as present on the result of its insertion, for every file and scope |
| PatchBuilder.PatternBreaksIdempotence | src/patch_builder.ts:113-119 | every statement with a replacement pattern, inserted after one import line, is not found again |
| PatchBuilder.IdempotentIffLiteral | src/patch_builder.ts:69-120 | insertion is idempotent over all files and scopes exactly for statements without a replacement pattern |

## Left out

- Gates.GateRecord.DoApply: the snapshot's list of file contents, which the gate always leaves empty, so that a rollback at the gate restores no file; restoring is proved in Workspace.
- AtomicWrites.AtomicApplyBatch: assumes fresh, pairwise different temp names, which the source draws at random; a name that collides with a file would overwrite it.
- Workspace.ApplyPatch: assumes fresh temp names and that a read fails only for a missing file; path, symlink and binary checks have already passed; stat and read-back after a successful write do not fail.
- Workspace.RollbackWorkspace: assumes fresh temp names, as applying does, and that reading back fails only for a missing file.
- LedgerLock.MutualExclusion: each call releases once; calling a release handle twice, which the exit handlers may do, can unlink the lock of another call in the same process.
- LedgerLock.LedgerIsWholeLines: a failed append leaves part of a line, and the next line is glued to it; the claim is for runs without one.
- Ledger.LedgerFile.LoadRecentSessions: timestamps are valid dates and the limit is not negative.
- PatchBuilder.DoInsertImportIfAbsent: the file is read once, though the source reads it again for the proposal; the target path is not empty.
- Obligations.ObligationStore.Reconcile: records are values, so the history list that a carried-forward record shares with the loaded store is not; that list is never consulted again in the same process.
- Timestamps and event details of gates, reason texts that quote hashes, and byte counts of write results: opaque or dropped.
- Strings are sequences of characters, not UTF-16 units, which matters only to the order of characters outside the basic plane and to the length of such texts.
- Object keys that name prototype members (`constructor`, `__proto__`) in adjacency and obligation tables.
- The dashboard, ageing, escalation and report counters of src/atlas_integration.ts: flat sums over the store that would add only easy members.
- Failure classification, language receipts, path safety, scope checks, import extraction, test runners and the Rust kernels: foreign calls, regular expressions and library path rules.
- The atlas entry stored after a receipt: best effort, it does not affect the record.
- Wall-clock waiting and the timeout length in the lock: any attempt may time out at any retry.
