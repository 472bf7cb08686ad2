/** The obligation store: reconciliation with a persisted run, the lifecycle table, and what survives a re-audit
    (src/atlas_integration.ts). Ids, hashes, timestamps and JSON text are opaque. */
module Obligations {
  import opened Wrappers

  datatype LifecycleStatus =
    | OPEN | UNDER_REVIEW | ACCEPTED_RISK | NEEDS_REPAIR | FALSE_POSITIVE | RESOLVED | DEFERRED

  datatype HistoryEntry = HistoryEntry(source: LifecycleStatus, target: LifecycleStatus, at: string, reason: string)

  datatype RepairObligation = RepairObligation(
    repairId: string, linkedReceiptId: string, transitionId: string, failureReason: string,
    requiredAction: string, createdAt: string)

  datatype Finding = Finding(findingId: string, file: string, line: int, riskKind: string, priority: string)

  /** A finding with its typed transition (by id), its verifier route and, if it needs review, an obligation. */
  datatype EnrichedFinding = EnrichedFinding(
    finding: Finding, transition: Option<string>, verifier: string, repairObligation: Option<RepairObligation>)

  datatype ObligationRecord = ObligationRecord(
    obligation: RepairObligation, finding: Finding, transition: Option<string>, verifier: string,
    currentStatus: LifecycleStatus, statusHistory: seq<HistoryEntry>, closedBy: Option<string>,
    closedAt: Option<string>, contentEvidenceHash: string)

  datatype PersistedEntry = PersistedEntry(
    obligation: RepairObligation, finding: Finding, transitionId: Option<string>, currentStatus: LifecycleStatus,
    statusHistory: seq<HistoryEntry>, closedBy: Option<string>, closedAt: Option<string>,
    contentEvidenceHash: string)

  type Memory = map<string, ObligationRecord>
  type Persisted = map<string, PersistedEntry>

  // ----- Reconciliation -----

  const CREATED := "Created by v8.1 audit enrichment."
  const REOPENED := "Content evidence changed. Re-opened for re-review."

  datatype Outcome = Skipped | New | Existing | Changed | ClosedPreserved

  function CurrentHash(hashes: map<string, string>, e: EnrichedFinding): string {
    if e.finding.file in hashes then hashes[e.finding.file] else ""
  }

  predicate IsClosed(status: LifecycleStatus) {
    status == RESOLVED || status == FALSE_POSITIVE
  }

  /** The persisted evidence hash is set, the current one too, and they differ. */
  predicate Stale(entryHash: string, currentHash: string) {
    entryHash != "" && entryHash != currentHash && currentHash != ""
  }

  function Lookup(previous: Option<Persisted>, id: string): Option<PersistedEntry> {
    if previous.Some? && id in previous.value then Some(previous.value[id]) else None
  }

  /** What happens to a finding that is not in memory yet. */
  function FreshOutcome(previous: Option<Persisted>, hashes: map<string, string>, e: EnrichedFinding): Outcome
    requires e.repairObligation.Some?
  {
    match Lookup(previous, e.repairObligation.value.repairId)
    case None => New
    case Some(entry) =>
      if IsClosed(entry.currentStatus) then ClosedPreserved
      else if Stale(entry.contentEvidenceHash, CurrentHash(hashes, e)) then Changed
      else Existing
  }

  function FreshRecord(previous: Option<Persisted>, hashes: map<string, string>, e: EnrichedFinding, now: string)
    : ObligationRecord
    requires e.repairObligation.Some?
  {
    match Lookup(previous, e.repairObligation.value.repairId)
    case None =>
      ObligationRecord(
        e.repairObligation.value, e.finding, e.transition, e.verifier, OPEN,
        [HistoryEntry(OPEN, OPEN, now, CREATED)], None, None, CurrentHash(hashes, e))
    case Some(entry) =>
      if !IsClosed(entry.currentStatus) && Stale(entry.contentEvidenceHash, CurrentHash(hashes, e)) then
        ObligationRecord(
          e.repairObligation.value, e.finding, e.transition, e.verifier, UNDER_REVIEW,
          entry.statusHistory
          + [HistoryEntry(entry.currentStatus, UNDER_REVIEW, now, REOPENED)],
          None, None, CurrentHash(hashes, e))
      else
        ObligationRecord(
          entry.obligation, entry.finding, e.transition, e.verifier, entry.currentStatus, entry.statusHistory,
          entry.closedBy, entry.closedAt, entry.contentEvidenceHash)
  }

  /** The in-memory store after one finding. A record already in memory is kept, whatever its content hash. */
  function ReconcileOne(memory: Memory, previous: Option<Persisted>, hashes: map<string, string>, e: EnrichedFinding,
                        now: string): Memory
  {
    if e.repairObligation.None? || e.repairObligation.value.repairId in memory then memory
    else memory[e.repairObligation.value.repairId := FreshRecord(previous, hashes, e, now)]
  }

  function OutcomeOf(memory: Memory, previous: Option<Persisted>, hashes: map<string, string>, e: EnrichedFinding)
    : Outcome
  {
    if e.repairObligation.None? then Skipped
    else if e.repairObligation.value.repairId in memory then Existing
    else FreshOutcome(previous, hashes, e)
  }

  function Reconciled(memory: Memory, previous: Option<Persisted>, hashes: map<string, string>,
                      es: seq<EnrichedFinding>, now: string): Memory
  {
    if es == [] then memory
    else
      ReconcileOne(Reconciled(memory, previous, hashes, es[..|es| - 1], now), previous, hashes, es[|es| - 1], now)
  }

  function Outcomes(memory: Memory, previous: Option<Persisted>, hashes: map<string, string>,
                    es: seq<EnrichedFinding>, now: string): (outcomes: seq<Outcome>)
    ensures |outcomes| == |es|
  {
    if es == [] then []
    else
      var front := es[..|es| - 1];
      Outcomes(memory, previous, hashes, front, now)
      + [OutcomeOf(Reconciled(memory, previous, hashes, front, now), previous, hashes, es[|es| - 1])]
  }

  function ToEntry(r: ObligationRecord): PersistedEntry {
    PersistedEntry(r.obligation, r.finding, r.transition, r.currentStatus, r.statusHistory, r.closedBy, r.closedAt,
                   r.contentEvidenceHash)
  }

  function ToPersisted(memory: Memory): Persisted {
    map id | id in memory :: ToEntry(memory[id])
  }

  datatype ReconciliationResult = ReconciliationResult(
    newCount: nat, existingCount: nat, changedCount: nat, closedPreserved: nat, duplicatesPrevented: nat)

  /** The counters are the multiplicities of the outcomes; only new findings are not duplicates. */
  predicate Counts(result: ReconciliationResult, outcomes: seq<Outcome>) {
    var m := multiset(outcomes);
    && result.newCount == m[New] && result.existingCount == m[Existing] && result.changedCount == m[Changed]
    && result.closedPreserved == m[ClosedPreserved]
    && result.duplicatesPrevented == m[Existing] + m[Changed] + m[ClosedPreserved]
  }

  /** The counters after one more finding. */
  function Count(r: ReconciliationResult, outcome: Outcome): ReconciliationResult {
    match outcome
    case Skipped => r
    case New => r.(newCount := r.newCount + 1)
    case Existing => r.(existingCount := r.existingCount + 1, duplicatesPrevented := r.duplicatesPrevented + 1)
    case Changed => r.(changedCount := r.changedCount + 1, duplicatesPrevented := r.duplicatesPrevented + 1)
    case ClosedPreserved =>
      r.(closedPreserved := r.closedPreserved + 1, duplicatesPrevented := r.duplicatesPrevented + 1)
  }

  lemma CountsStep(r: ReconciliationResult, outcomes: seq<Outcome>, outcome: Outcome)
    requires Counts(r, outcomes)
    ensures Counts(Count(r, outcome), outcomes + [outcome])
    ensures var r' := Count(r, outcome);
            r'.newCount + r'.duplicatesPrevented
            == r.newCount + r.duplicatesPrevented + (if outcome == Skipped then 0 else 1)
  {
  }

  // ----- Transitions -----

  function ValidFrom(source: LifecycleStatus): set<LifecycleStatus> {
    match source
    case OPEN => {UNDER_REVIEW, DEFERRED, RESOLVED}
    case UNDER_REVIEW => {ACCEPTED_RISK, NEEDS_REPAIR, FALSE_POSITIVE, RESOLVED, DEFERRED}
    case ACCEPTED_RISK => {RESOLVED, DEFERRED}
    case NEEDS_REPAIR => {RESOLVED, DEFERRED}
    case FALSE_POSITIVE => {RESOLVED}
    case RESOLVED => {}
    case DEFERRED => {OPEN, UNDER_REVIEW, RESOLVED}
  }

  predicate CanTransition(memory: Memory, id: string, target: LifecycleStatus) {
    id in memory && target in ValidFrom(memory[id].currentStatus)
  }

  function Moved(r: ObligationRecord, target: LifecycleStatus, reason: string, closedByRef: string, now: string)
    : ObligationRecord
  {
    r.(currentStatus := target,
       statusHistory := r.statusHistory + [HistoryEntry(r.currentStatus, target, now, reason)],
       closedBy := if closedByRef != "" then Some(closedByRef) else r.closedBy,
       closedAt := if target == RESOLVED then Some(now) else r.closedAt)
  }

  function Transitioned(memory: Memory, id: string, target: LifecycleStatus, reason: string, closedByRef: string,
                        now: string): Memory
  {
    if CanTransition(memory, id, target) then memory[id := Moved(memory[id], target, reason, closedByRef, now)]
    else memory
  }

  /** The status a review decision closes with. */
  function DecisionStatus(decision: string): Option<LifecycleStatus> {
    if decision == "accepted_risk" then Some(ACCEPTED_RISK)
    else if decision == "false_positive" then Some(FALSE_POSITIVE)
    else if decision == "needs_repair" then Some(NEEDS_REPAIR)
    else None
  }

  function Closed(memory: Memory, id: string, receiptId: string, decision: string, now: string): Memory {
    match DecisionStatus(decision)
    case None => memory
    case Some(target) => Transitioned(memory, id, target, "Closed via review receipt", receiptId, now)
  }

  /** Which moves are allowed, by their target; and what a move leaves behind. */
  lemma MoveAllowedIff(memory: Memory, id: string, target: LifecycleStatus, reason: string, ref: string, now: string)
    requires id in memory
    ensures var s, memory' := memory[id].currentStatus, Transitioned(memory, id, target, reason, ref, now);
            var allowed := match target
                           case OPEN => s == DEFERRED
                           case UNDER_REVIEW => s == OPEN || s == DEFERRED
                           case ACCEPTED_RISK | NEEDS_REPAIR | FALSE_POSITIVE => s == UNDER_REVIEW
                           case RESOLVED => s != RESOLVED
                           case DEFERRED => s != RESOLVED && s != FALSE_POSITIVE && s != DEFERRED;
            && (CanTransition(memory, id, target) <==> allowed)
            && (!allowed ==> memory' == memory)
            && (allowed ==>
                  && id in memory' && memory'[id].currentStatus == target && memory' - {id} == memory - {id}
                  && memory'[id].statusHistory == memory[id].statusHistory + [HistoryEntry(s, target, now, reason)]
                  && memory'[id].closedBy == (if ref == "" then memory[id].closedBy else Some(ref))
                  && memory'[id].closedAt == (if target == RESOLVED then Some(now) else memory[id].closedAt)
                  && memory'[id].contentEvidenceHash == memory[id].contentEvidenceHash
                  && memory'[id].obligation == memory[id].obligation && memory'[id].finding == memory[id].finding
                  && memory'[id].transition == memory[id].transition && memory'[id].verifier == memory[id].verifier)
  {
  }

  // ----- The store as the program keeps it -----

  /** The ids of the findings that have an obligation, one for each such finding, in order. */
  function ObligationIds(es: seq<EnrichedFinding>): seq<string> {
    if es == [] then []
    else
      var last := es[|es| - 1].repairObligation;
      ObligationIds(es[..|es| - 1]) + if last.None? then [] else [last.value.repairId]
  }

  /** The n-th record listed is the one stored under the n-th id. */
  predicate ListedFor(listed: seq<ObligationRecord>, ids: seq<string>, memory: Memory) {
    |listed| == |ids| && forall n | 0 <= n < |ids| :: ids[n] in memory && listed[n] == memory[ids[n]]
  }

  /** The state of the reconciliation loop after n findings. */
  ghost predicate Progress(start: Memory, memory: Memory, listed: seq<ObligationRecord>, result: ReconciliationResult,
                           previous: Option<Persisted>, hashes: map<string, string>, es: seq<EnrichedFinding>, n: nat,
                           now: string)
  {
    && n <= |es|
    && memory == Reconciled(start, previous, hashes, es[..n], now)
    && Counts(result, Outcomes(start, previous, hashes, es[..n], now))
    && |listed| == result.newCount + result.duplicatesPrevented
    && ListedFor(listed, ObligationIds(es[..n]), memory)
  }

  lemma ProgressStart(start: Memory, previous: Option<Persisted>, hashes: map<string, string>,
                      es: seq<EnrichedFinding>, now: string)
    ensures Progress(start, start, [], ReconciliationResult(0, 0, 0, 0, 0), previous, hashes, es, 0, now)
  {
  }

  lemma ReconciledStep(memory: Memory, previous: Option<Persisted>, hashes: map<string, string>,
                       es: seq<EnrichedFinding>, n: nat, now: string)
    requires n < |es|
    ensures var m, e := Reconciled(memory, previous, hashes, es[..n], now), es[n];
            && Reconciled(memory, previous, hashes, es[..n + 1], now) == ReconcileOne(m, previous, hashes, e, now)
            && Outcomes(memory, previous, hashes, es[..n + 1], now)
               == Outcomes(memory, previous, hashes, es[..n], now) + [OutcomeOf(m, previous, hashes, e)]
            && ObligationIds(es[..n + 1])
               == if e.repairObligation.None? then ObligationIds(es[..n])
                  else ObligationIds(es[..n]) + [e.repairObligation.value.repairId]
  {
    hide ReconcileOne, OutcomeOf;
    assert es[..n + 1][..n] == es[..n];
  }

  lemma OneListed(memory: Memory, previous: Option<Persisted>, hashes: map<string, string>, e: EnrichedFinding,
                  now: string, listed: seq<ObligationRecord>, ids: seq<string>)
    requires ListedFor(listed, ids, memory)
    ensures var memory' := ReconcileOne(memory, previous, hashes, e, now);
            && ListedFor(listed, ids, memory')
            && (OutcomeOf(memory, previous, hashes, e) == Skipped <==> e.repairObligation.None?)
            && (e.repairObligation.Some? ==>
                  var id := e.repairObligation.value.repairId;
                  id in memory' && ListedFor(listed + [memory'[id]], ids + [id], memory'))
  {
  }

  lemma ProgressStep(start: Memory, memory: Memory, listed: seq<ObligationRecord>, result: ReconciliationResult,
                     previous: Option<Persisted>, hashes: map<string, string>, es: seq<EnrichedFinding>, n: nat,
                     now: string)
    requires n < |es| && Progress(start, memory, listed, result, previous, hashes, es, n, now)
    ensures var e, memory' := es[n], ReconcileOne(memory, previous, hashes, es[n], now);
            && (e.repairObligation.Some? ==> e.repairObligation.value.repairId in memory')
            && Progress(start, memory',
                        if e.repairObligation.None? then listed
                        else listed + [memory'[e.repairObligation.value.repairId]],
                        Count(result, OutcomeOf(memory, previous, hashes, e)), previous, hashes, es, n + 1, now)
  {
    hide ReconcileOne, OutcomeOf, Counts, Count, ListedFor, ObligationIds, Reconciled, Outcomes;
    ReconciledStep(start, previous, hashes, es, n, now);
    CountsStep(result, Outcomes(start, previous, hashes, es[..n], now), OutcomeOf(memory, previous, hashes, es[n]));
    OneListed(memory, previous, hashes, es[n], now, listed, ObligationIds(es[..n]));
  }

  lemma ProgressEnd(start: Memory, memory: Memory, listed: seq<ObligationRecord>, result: ReconciliationResult,
                    previous: Option<Persisted>, hashes: map<string, string>, es: seq<EnrichedFinding>, now: string)
    requires Progress(start, memory, listed, result, previous, hashes, es, |es|, now)
    ensures memory == Reconciled(start, previous, hashes, es, now)
    ensures Counts(result, Outcomes(start, previous, hashes, es, now))
    ensures |listed| == result.newCount + result.duplicatesPrevented
    ensures ListedFor(listed, ObligationIds(es), memory)
  {
    hide Counts, ListedFor;
    assert es[..|es|] == es;
  }

  class ObligationStore {
    var records: Memory
    /** The persisted file, if there is one. */
    var file: Option<Persisted>

    constructor (file: Option<Persisted>)
      ensures records == map[] && this.file == file
    {
      records := map[];
      this.file := file;
    }

    /** The body of the reconciliation loop; the record it lists, if the finding has an obligation. */
    method ReconcileFinding(e: EnrichedFinding, hashes: map<string, string>, previous: Option<Persisted>, now: string)
      returns (listed: Option<ObligationRecord>, outcome: Outcome)
      modifies this`records
      ensures records == ReconcileOne(old(records), previous, hashes, e, now)
      ensures outcome == OutcomeOf(old(records), previous, hashes, e)
      ensures listed == if e.repairObligation.None? then None else Some(records[e.repairObligation.value.repairId])
    {
      if e.repairObligation.None? {
        return None, Skipped;
      }
      var id := e.repairObligation.value.repairId;
      if id in records {
        return Some(records[id]), Existing;
      }
      var record := FreshRecord(previous, hashes, e, now);
      records := records[id := record];
      match Lookup(previous, id)
      case None => return Some(record), New;
      case Some(entry) =>
        if IsClosed(entry.currentStatus) {
          return Some(record), ClosedPreserved;
        } else if Stale(entry.contentEvidenceHash, CurrentHash(hashes, e)) {
          return Some(record), Changed;
        }
        return Some(record), Existing;
    }

    method Reconcile(enriched: seq<EnrichedFinding>, hashes: map<string, string>, previous: Option<Persisted>,
                     now: string)
      returns (listed: seq<ObligationRecord>, result: ReconciliationResult)
      modifies this`records
      ensures records == Reconciled(old(records), previous, hashes, enriched, now)
      ensures Counts(result, Outcomes(old(records), previous, hashes, enriched, now))
      ensures |listed| == result.newCount + result.duplicatesPrevented
      ensures ListedFor(listed, ObligationIds(enriched), records)
    {
      hide Progress;
      result := ReconciliationResult(0, 0, 0, 0, 0);
      listed := [];
      ProgressStart(records, previous, hashes, enriched, now);
      for n := 0 to |enriched|
        invariant Progress(old(records), records, listed, result, previous, hashes, enriched, n, now)
      {
        ghost var before := records;
        var one, outcome := ReconcileFinding(enriched[n], hashes, previous, now);
        ProgressStep(old(records), before, listed, result, previous, hashes, enriched, n, now);
        result := Count(result, outcome);
        if one.Some? {
          listed := listed + [one.value];
        }
      }
      ProgressEnd(old(records), records, listed, result, previous, hashes, enriched, now);
    }

    method TransitionObligation(id: string, target: LifecycleStatus, reason: string, closedByRef: string, now: string)
      returns (ok: bool)
      modifies this`records
      ensures ok == CanTransition(old(records), id, target)
      ensures !ok ==> records == old(records)
      ensures records == Transitioned(old(records), id, target, reason, closedByRef, now)
    {
      if id !in records {
        return false;
      }
      var record := records[id];
      if target !in ValidFrom(record.currentStatus) {
        return false;
      }
      records := records[id := Moved(record, target, reason, closedByRef, now)];
      return true;
    }

    method CloseObligationWithReceipt(id: string, receiptId: string, decision: string, now: string) returns (ok: bool)
      modifies this`records
      ensures records == Closed(old(records), id, receiptId, decision, now)
      ensures ok <==> && decision in {"accepted_risk", "false_positive", "needs_repair"}
                      && id in old(records) && old(records)[id].currentStatus == UNDER_REVIEW
      ensures !ok ==> records == old(records)
      ensures ok ==> && id in records
                     && (decision == "accepted_risk" ==> records[id].currentStatus == ACCEPTED_RISK)
                     && (decision == "false_positive" ==> records[id].currentStatus == FALSE_POSITIVE)
                     && (decision == "needs_repair" ==> records[id].currentStatus == NEEDS_REPAIR)
                     && records[id].closedAt == old(records)[id].closedAt
                     && (receiptId != "" ==> records[id].closedBy == Some(receiptId))
                     && records - {id} == old(records) - {id}
    {
      var status := DecisionStatus(decision);
      if status.None? {
        return false;
      }
      ok := TransitionObligation(id, status.value, "Closed via review receipt", receiptId, now);
    }

    method PersistObligationStore()
      modifies this`file
      ensures file == Some(ToPersisted(records))
    {
      file := Some(map id | id in records :: ToEntry(records[id]));
    }
  }

  // ----- What a reconciliation does, finding by finding -----

  predicate HasId(e: EnrichedFinding, id: string) {
    e.repairObligation.Some? && e.repairObligation.value.repairId == id
  }

  /** The i-th finding is the first one with its obligation id. */
  predicate IsFirst(es: seq<EnrichedFinding>, i: nat) {
    && i < |es| && es[i].repairObligation.Some?
    && forall j | 0 <= j < i :: !HasId(es[j], es[i].repairObligation.value.repairId)
  }

  function Found(es: seq<EnrichedFinding>): set<string> {
    set i | 0 <= i < |es| && es[i].repairObligation.Some? :: es[i].repairObligation.value.repairId
  }

  lemma FoundFront(es: seq<EnrichedFinding>)
    requires es != []
    ensures var front, last := es[..|es| - 1], es[|es| - 1];
            && Found(es) == Found(front) + (if last.repairObligation.Some? then {last.repairObligation.value.repairId}
                                            else {})
            && (forall i: nat | i < |front| :: IsFirst(es, i) <==> IsFirst(front, i))
            && (IsFirst(es, |front|) <==>
                  last.repairObligation.Some? && last.repairObligation.value.repairId !in Found(front))
  {
  }

  lemma FoundAt(es: seq<EnrichedFinding>)
    ensures forall i: nat | i < |es| && es[i].repairObligation.Some? ::
              es[i].repairObligation.value.repairId in Found(es)
  {
  }

  lemma NothingFound()
    ensures Found([]) == {} && forall i :: !IsFirst([], i)
  {
  }

  /** Memory only grows, by the ids found; records in memory stay, and each new one is made from the first finding
      with its id. */
  lemma {:induction false} ReconciledMeaning(memory: Memory, previous: Option<Persisted>, hashes: map<string, string>,
                                             es: seq<EnrichedFinding>, now: string)
    ensures var m := Reconciled(memory, previous, hashes, es, now);
            && m.Keys == memory.Keys + Found(es)
            && (forall id | id in memory :: m[id] == memory[id])
            && (forall i: nat | IsFirst(es, i) && es[i].repairObligation.value.repairId !in memory ::
                  m[es[i].repairObligation.value.repairId] == FreshRecord(previous, hashes, es[i], now))
  {
    hide FreshRecord, Found;
    if es == [] {
      NothingFound();
    } else {
      var front := es[..|es| - 1];
      ReconciledMeaning(memory, previous, hashes, front, now);
      FoundFront(es);
      FoundAt(es);
      var m := Reconciled(memory, previous, hashes, es, now);
      forall i: nat | IsFirst(es, i) && es[i].repairObligation.value.repairId !in memory
        ensures m[es[i].repairObligation.value.repairId] == FreshRecord(previous, hashes, es[i], now)
      {
        if i < |front| {
          assert IsFirst(front, i) && front[i] == es[i];
        }
      }
    }
  }

  /** The outcome of each finding, from the state before the whole reconciliation. */
  lemma {:induction false} OutcomesMeaning(memory: Memory, previous: Option<Persisted>, hashes: map<string, string>,
                                           es: seq<EnrichedFinding>, now: string)
    ensures forall i: nat | i < |es| ::
              Outcomes(memory, previous, hashes, es, now)[i]
              == if es[i].repairObligation.None? then Skipped
                 else if es[i].repairObligation.value.repairId in memory || !IsFirst(es, i) then Existing
                 else FreshOutcome(previous, hashes, es[i])
  {
    hide FreshRecord, FreshOutcome, IsFirst, Found;
    if es != [] {
      var front := es[..|es| - 1];
      OutcomesMeaning(memory, previous, hashes, front, now);
      ReconciledMeaning(memory, previous, hashes, front, now);
      FoundFront(es);
    }
  }

  /** A record that is what was persisted, with the transition and verifier of the finding. */
  predicate CarriedOver(r: ObligationRecord, entry: PersistedEntry, e: EnrichedFinding) {
    r == ObligationRecord(entry.obligation, entry.finding, e.transition, e.verifier, entry.currentStatus,
                          entry.statusHistory, entry.closedBy, entry.closedAt, entry.contentEvidenceHash)
  }

  /** An obligation found for the first time and not in memory, by what was persisted for it. Nothing: it is new and
      open. A closed entry is preserved. Another is re-opened for review exactly when its file's content is known to
      have changed, and carried over otherwise. */
  lemma FirstFindingFate(memory: Memory, previous: Option<Persisted>, hashes: map<string, string>,
                         es: seq<EnrichedFinding>, now: string, i: nat, o: RepairObligation)
    requires i < |es| && es[i].repairObligation == Some(o) && o.repairId !in memory
    requires forall j, o' | 0 <= j < i && es[j].repairObligation == Some(o') :: o'.repairId != o.repairId
    ensures o.repairId in Reconciled(memory, previous, hashes, es, now)
    ensures var e, r := es[i], Reconciled(memory, previous, hashes, es, now)[o.repairId];
            var outcome := Outcomes(memory, previous, hashes, es, now)[i];
            if previous.None? || o.repairId !in previous.value then
              && outcome == New && r.currentStatus == OPEN
              && r.statusHistory == [HistoryEntry(OPEN, OPEN, now, CREATED)]
              && r.obligation == o && r.finding == e.finding && r.transition == e.transition && r.verifier == e.verifier
              && r.closedBy == None && r.closedAt == None
              && (e.finding.file in hashes ==> r.contentEvidenceHash == hashes[e.finding.file])
              && (e.finding.file !in hashes ==> r.contentEvidenceHash == "")
            else
              var entry := previous.value[o.repairId];
              if entry.currentStatus == RESOLVED || entry.currentStatus == FALSE_POSITIVE then
                outcome == ClosedPreserved && CarriedOver(r, entry, e)
              else if && e.finding.file in hashes && hashes[e.finding.file] != "" && entry.contentEvidenceHash != ""
                      && hashes[e.finding.file] != entry.contentEvidenceHash then
                && outcome == Changed
                && r == ObligationRecord(
                     o, e.finding, e.transition, e.verifier, UNDER_REVIEW,
                     entry.statusHistory + [HistoryEntry(entry.currentStatus, UNDER_REVIEW, now, REOPENED)],
                     None, None, hashes[e.finding.file])
              else
                outcome == Existing && CarriedOver(r, entry, e)
  {
    hide Reconciled, Outcomes;
    ReconciledMeaning(memory, previous, hashes, es, now);
    OutcomesMeaning(memory, previous, hashes, es, now);
    FoundAt(es);
    assert IsFirst(es, i);
  }

  // ----- Re-audit -----

  /** The same findings seen again: only the creation times of the obligations may differ. */
  predicate SeenAgain(es: seq<EnrichedFinding>, es': seq<EnrichedFinding>) {
    && |es| == |es'|
    && forall i | 0 <= i < |es| ::
         && es'[i].finding == es[i].finding && es'[i].transition == es[i].transition
         && (es'[i].repairObligation.Some? <==> es[i].repairObligation.Some?)
         && (es[i].repairObligation.Some? ==>
               es'[i].repairObligation.value
               == es[i].repairObligation.value.(createdAt := es'[i].repairObligation.value.createdAt))
  }

  /** The i-th finding is the first with its id, and memory holds an unclosed record for it that carries evidence of
      other content than is known now. */
  predicate StaleAt(m: Memory, hashes: map<string, string>, es: seq<EnrichedFinding>, i: nat) {
    && IsFirst(es, i) && es[i].repairObligation.value.repairId in m
    && var r := m[es[i].repairObligation.value.repairId];
       && r.currentStatus != RESOLVED && r.currentStatus != FALSE_POSITIVE && r.contentEvidenceHash != ""
       && es[i].finding.file in hashes && hashes[es[i].finding.file] !in {"", r.contentEvidenceHash}
  }

  /** No found record in memory is stale, and each has the transition it is found with. */
  ghost predicate UpToDate(memory: Memory, hashes: map<string, string>, es: seq<EnrichedFinding>) {
    forall i: nat | IsFirst(es, i) && es[i].repairObligation.value.repairId in memory ::
      && !StaleAt(memory, hashes, es, i)
      && memory[es[i].repairObligation.value.repairId].transition == es[i].transition
  }

  lemma SeenAgainSame(es: seq<EnrichedFinding>, es': seq<EnrichedFinding>)
    requires SeenAgain(es, es')
    ensures Found(es) == Found(es') && forall i: nat :: IsFirst(es, i) <==> IsFirst(es', i)
  {
  }

  /** The first audit neither makes nor repairs a stale record. */
  lemma StaleBefore(memory: Memory, previous: Option<Persisted>, hashes: map<string, string>,
                    es: seq<EnrichedFinding>, now: string, i: nat)
    ensures StaleAt(Reconciled(memory, previous, hashes, es, now), hashes, es, i) <==> StaleAt(memory, hashes, es, i)
  {
    ReconciledMeaning(memory, previous, hashes, es, now);
  }

  lemma StaleInRange(memory: Memory, hashes: map<string, string>, es: seq<EnrichedFinding>, i: nat)
    requires StaleAt(memory, hashes, es, i)
    ensures i < |es|
  {
  }

  lemma ReauditOne(m: Memory, hashes: map<string, string>, es: seq<EnrichedFinding>, es': seq<EnrichedFinding>, i: nat)
    requires SeenAgain(es, es') && i < |es| && Found(es) <= m.Keys
    ensures !IsFirst(es, i) ==> !StaleAt(m, hashes, es, i)
    ensures IsFirst(es, i) ==>
              var outcome := FreshOutcome(Some(ToPersisted(m)), hashes, es'[i]);
              outcome != New && (outcome == Changed <==> StaleAt(m, hashes, es, i))
  {
    FoundAt(es);
  }

  /** Re-audit. Persisting, restarting with an empty memory, reloading and auditing the same findings again finds
      nothing new; and nothing changed exactly when memory held no stale record before the first audit. */
  lemma ReauditOutcomes(memory: Memory, previous: Option<Persisted>, hashes: map<string, string>,
                        es: seq<EnrichedFinding>, es': seq<EnrichedFinding>, now: string, now': string)
    requires SeenAgain(es, es')
    ensures var m := Reconciled(memory, previous, hashes, es, now);
            var again := Outcomes(map[], Some(ToPersisted(m)), hashes, es', now');
            && New !in again
            && (Changed !in again <==> forall i: nat :: !StaleAt(memory, hashes, es, i))
  {
    hide StaleAt, FreshOutcome, Reconciled;
    var m := Reconciled(memory, previous, hashes, es, now);
    var reloaded := Some(ToPersisted(m));
    var again := Outcomes(map[], reloaded, hashes, es', now');
    ReconciledMeaning(memory, previous, hashes, es, now);
    OutcomesMeaning(map[], reloaded, hashes, es', now');
    SeenAgainSame(es, es');
    forall i: nat | i < |es| ensures again[i] != New && (again[i] == Changed <==> StaleAt(memory, hashes, es, i)) {
      ReauditOne(m, hashes, es, es', i);
      StaleBefore(memory, previous, hashes, es, now, i);
    }
    if i: nat :| StaleAt(memory, hashes, es, i) {
      StaleInRange(memory, hashes, es, i);
      assert again[i] == Changed;
    }
  }

  lemma StaleInMemory(memory: Memory, hashes: map<string, string>, es: seq<EnrichedFinding>, i: nat)
    requires IsFirst(es, i)
    ensures StaleAt(memory, hashes, es, i) ==> es[i].repairObligation.value.repairId in memory
  {
  }

  lemma {:induction false} FirstWith(es: seq<EnrichedFinding>, id: string) returns (i: nat)
    requires id in Found(es)
    ensures IsFirst(es, i) && es[i].repairObligation.value.repairId == id
  {
    var front := es[..|es| - 1];
    FoundFront(es);
    if id in Found(front) {
      i := FirstWith(front, id);
    } else {
      i := |front|;
    }
  }

  /** A reloaded record comes back as it was persisted exactly when it is not stale and its transition is the one it
      is found with; a stale one has a longer history. */
  lemma CarriedForward(m: Memory, hashes: map<string, string>, es: seq<EnrichedFinding>, es': seq<EnrichedFinding>,
                       now': string, i: nat)
    requires SeenAgain(es, es') && IsFirst(es, i) && es[i].repairObligation.value.repairId in m
    ensures var r := m[es[i].repairObligation.value.repairId];
            ToEntry(FreshRecord(Some(ToPersisted(m)), hashes, es'[i], now')) == ToEntry(r)
            <==> !StaleAt(m, hashes, es, i) && r.transition == es[i].transition
  {
  }

  lemma FreshTransition(previous: Option<Persisted>, hashes: map<string, string>, e: EnrichedFinding, now: string)
    requires e.repairObligation.Some?
    ensures FreshRecord(previous, hashes, e, now).transition == e.transition
  {
  }

  /** The second audit persists the very map the first one did exactly when, before the first audit, memory held only
      obligations of the findings, none stale and each with the transition it is found with. */
  lemma PersistsSameIffUpToDate(memory: Memory, previous: Option<Persisted>, hashes: map<string, string>,
                                es: seq<EnrichedFinding>, es': seq<EnrichedFinding>, now: string, now': string)
    requires SeenAgain(es, es')
    ensures var first := ToPersisted(Reconciled(memory, previous, hashes, es, now));
            ToPersisted(Reconciled(map[], Some(first), hashes, es', now')) == first
            <==> memory.Keys <= Found(es) && UpToDate(memory, hashes, es)
  {
    hide FreshRecord, Reconciled, Found, StaleAt;
    var m := Reconciled(memory, previous, hashes, es, now);
    var first := ToPersisted(m);
    var m' := Reconciled(map[], Some(first), hashes, es', now');
    ReconciledMeaning(memory, previous, hashes, es, now);
    ReconciledMeaning(map[], Some(first), hashes, es', now');
    SeenAgainSame(es, es');
    FoundAt(es);
    assert first.Keys == memory.Keys + Found(es) && ToPersisted(m').Keys == Found(es);
    forall i: nat | IsFirst(es, i)
      ensures var id := es[i].repairObligation.value.repairId;
              && id in m' && id in m
              && (ToEntry(m'[id]) == ToEntry(m[id]) <==>
                    (id in memory ==> !StaleAt(memory, hashes, es, i) && memory[id].transition == es[i].transition))
    {
      CarriedForward(m, hashes, es, es', now', i);
      StaleBefore(memory, previous, hashes, es, now, i);
      FreshTransition(previous, hashes, es[i], now);
      StaleInMemory(memory, hashes, es, i);
    }
    if memory.Keys <= Found(es) && UpToDate(memory, hashes, es) {
      forall id | id in Found(es) ensures ToEntry(m'[id]) == first[id] {
        var i := FirstWith(es, id);
      }
      assert ToPersisted(m') == first;
    } else if memory.Keys <= Found(es) {
      var i: nat :| IsFirst(es, i) && es[i].repairObligation.value.repairId in memory
        && !(&& !StaleAt(memory, hashes, es, i)
             && memory[es[i].repairObligation.value.repairId].transition == es[i].transition);
      var id := es[i].repairObligation.value.repairId;
      assert ToPersisted(m')[id] != first[id];
    }
  }

  /** Re-audit is a fixpoint for a process that starts with an empty memory: no new, no changed, and the second
      audit persists the very map the first one did. */
  lemma ReauditFixpoint(previous: Option<Persisted>, hashes: map<string, string>, es: seq<EnrichedFinding>,
                        es': seq<EnrichedFinding>, now: string, now': string)
    requires SeenAgain(es, es')
    ensures var first := ToPersisted(Reconciled(map[], previous, hashes, es, now));
            && (forall o | o in Outcomes(map[], Some(first), hashes, es', now') :: o != New && o != Changed)
            && ToPersisted(Reconciled(map[], Some(first), hashes, es', now')) == first
  {
    ReauditOutcomes(map[], previous, hashes, es, es', now, now');
    PersistsSameIffUpToDate(map[], previous, hashes, es, es', now, now');
  }

  /** What a run keeps on disk: an obligation persisted earlier survives a restart, audit and persist exactly when
      its finding is found again. */
  lemma SurvivesIffRefound(stored: Persisted, hashes: map<string, string>, es: seq<EnrichedFinding>, now: string,
                           id: string)
    ensures id in ToPersisted(Reconciled(map[], Some(stored), hashes, es, now)) <==> id in Found(es)
  {
  }

  // ----- The life of an obligation, over every interleaving -----

  /** A step of a life: from the lifecycle table, or a content-change reopening of one that is not closed. */
  predicate LawfulEntry(h: HistoryEntry) {
    h.target in ValidFrom(h.source) || (h.target == UNDER_REVIEW && !IsClosed(h.source))
  }

  /** A history starts open, each step starts where the one before it ended, the last ends at the current status, and
      the closing time is set exactly when the status is resolved. */
  predicate LawfulLife(status: LifecycleStatus, history: seq<HistoryEntry>, closedAt: Option<string>) {
    && history != [] && history[0].source == OPEN && history[0].target == OPEN
    && (forall k | 0 < k < |history| :: history[k].source == history[k - 1].target && LawfulEntry(history[k]))
    && history[|history| - 1].target == status
    && (closedAt.Some? <==> status == RESOLVED)
  }

  predicate LawfulMemory(memory: Memory) {
    forall id | id in memory ::
      LawfulLife(memory[id].currentStatus, memory[id].statusHistory, memory[id].closedAt)
  }

  predicate LawfulPersisted(stored: Option<Persisted>) {
    stored.Some? ==>
      forall id | id in stored.value ::
        LawfulLife(stored.value[id].currentStatus, stored.value[id].statusHistory, stored.value[id].closedAt)
  }

  /** The process memory, the file, and the copy of the file last loaded. */
  datatype World = World(memory: Memory, file: Option<Persisted>, loaded: Option<Persisted>)

  datatype Op =
    | ReconcileOp(es: seq<EnrichedFinding>, hashes: map<string, string>, usePrevious: bool, now: string)
    | TransitionOp(id: string, target: LifecycleStatus, reason: string, closedByRef: string, now: string)
    | CloseOp(id: string, receiptId: string, decision: string, now: string)
    | PersistOp
    | LoadOp
    | RestartOp

  function WorldStep(w: World, op: Op): World {
    match op
    case ReconcileOp(es, hashes, usePrevious, now) =>
      w.(memory := Reconciled(w.memory, if usePrevious then w.loaded else None, hashes, es, now))
    case TransitionOp(id, target, reason, closedByRef, now) =>
      w.(memory := Transitioned(w.memory, id, target, reason, closedByRef, now))
    case CloseOp(id, receiptId, decision, now) => w.(memory := Closed(w.memory, id, receiptId, decision, now))
    case PersistOp => w.(file := Some(ToPersisted(w.memory)))
    case LoadOp => w.(loaded := w.file)
    case RestartOp => w.(memory := map[], loaded := None)
  }

  function WorldRun(ops: seq<Op>): World {
    if ops == [] then World(map[], None, None) else WorldStep(WorldRun(ops[..|ops| - 1]), ops[|ops| - 1])
  }

  /** A process started anew, on what the last one left: load, audit, persist. */
  function Audit(es: seq<EnrichedFinding>, hashes: map<string, string>, now: string): seq<Op> {
    [RestartOp, LoadOp, ReconcileOp(es, hashes, true, now), PersistOp]
  }

  lemma {:induction false} WorldAppend(ops: seq<Op>, more: seq<Op>, op: Op)
    ensures WorldRun(ops + (more + [op])) == WorldStep(WorldRun(ops + more), op)
  {
    var all := ops + (more + [op]);
    assert all == (ops + more) + [op];
    assert all[..|all| - 1] == ops + more;
  }

  lemma AuditMeaning(ops: seq<Op>, es: seq<EnrichedFinding>, hashes: map<string, string>, now: string)
    ensures WorldRun(ops + Audit(es, hashes, now)).file
         == Some(ToPersisted(Reconciled(map[], WorldRun(ops).file, hashes, es, now)))
  {
    hide Reconciled, WorldRun;
    assert ops + [] == ops;
    WorldAppend(ops, [], RestartOp);
    WorldAppend(ops, [RestartOp], LoadOp);
    WorldAppend(ops, [RestartOp, LoadOp], ReconcileOp(es, hashes, true, now));
    WorldAppend(ops, [RestartOp, LoadOp, ReconcileOp(es, hashes, true, now)], PersistOp);
    assert [] + [RestartOp] == [RestartOp] && [RestartOp] + [LoadOp] == [RestartOp, LoadOp];
    assert [RestartOp, LoadOp] + [ReconcileOp(es, hashes, true, now)]
        == [RestartOp, LoadOp, ReconcileOp(es, hashes, true, now)];
    assert [RestartOp, LoadOp, ReconcileOp(es, hashes, true, now)] + [PersistOp] == Audit(es, hashes, now);
  }

  /** After any history of the process and the file, one audit settles the file: auditing the same findings again leaves
      it as it is. */
  lemma AuditsSettle(ops: seq<Op>, es: seq<EnrichedFinding>, es': seq<EnrichedFinding>, hashes: map<string, string>,
                     now: string, now': string)
    requires SeenAgain(es, es')
    ensures var once := ops + Audit(es, hashes, now);
            WorldRun(once + Audit(es', hashes, now')).file == WorldRun(once).file
  {
    hide Reconciled, WorldRun, Audit;
    AuditMeaning(ops, es, hashes, now);
    AuditMeaning(ops + Audit(es, hashes, now), es', hashes, now');
    ReauditFixpoint(WorldRun(ops).file, hashes, es, es', now, now');
  }

  lemma FreshRecordLawful(previous: Option<Persisted>, hashes: map<string, string>, e: EnrichedFinding, now: string)
    requires e.repairObligation.Some? && LawfulPersisted(previous)
    ensures var r := FreshRecord(previous, hashes, e, now);
            LawfulLife(r.currentStatus, r.statusHistory, r.closedAt)
  {
  }

  lemma {:induction false} ReconciledLawful(memory: Memory, previous: Option<Persisted>, hashes: map<string, string>,
                                            es: seq<EnrichedFinding>, now: string)
    requires LawfulMemory(memory) && LawfulPersisted(previous)
    ensures LawfulMemory(Reconciled(memory, previous, hashes, es, now))
  {
    hide FreshRecord, LawfulPersisted, LawfulLife;
    if es != [] {
      ReconciledLawful(memory, previous, hashes, es[..|es| - 1], now);
      if es[|es| - 1].repairObligation.Some? {
        FreshRecordLawful(previous, hashes, es[|es| - 1], now);
      }
    }
  }

  lemma TransitionedLawful(memory: Memory, id: string, target: LifecycleStatus, reason: string, closedByRef: string,
                           now: string)
    requires LawfulMemory(memory)
    ensures LawfulMemory(Transitioned(memory, id, target, reason, closedByRef, now))
  {
  }

  /** Over every interleaving of reconciling, transitions, closing, persisting, loading and restarting, every record in
      memory, on disk and loaded has a lawful life. */
  lemma {:induction false} EveryLifeLawful(ops: seq<Op>)
    ensures var w := WorldRun(ops);
            LawfulMemory(w.memory) && LawfulPersisted(w.file) && LawfulPersisted(w.loaded)
  {
    hide Reconciled, Transitioned, LawfulLife;
    if ops != [] {
      var w, op := WorldRun(ops[..|ops| - 1]), ops[|ops| - 1];
      EveryLifeLawful(ops[..|ops| - 1]);
      match op
      case ReconcileOp(es, hashes, usePrevious, now) =>
        ReconciledLawful(w.memory, if usePrevious then w.loaded else None, hashes, es, now);
      case TransitionOp(id, target, reason, closedByRef, now) =>
        TransitionedLawful(w.memory, id, target, reason, closedByRef, now);
      case CloseOp(id, receiptId, decision, now) =>
        if DecisionStatus(decision).Some? {
          TransitionedLawful(w.memory, id, DecisionStatus(decision).value, "Closed via review receipt", receiptId, now);
        }
      case PersistOp =>
      case LoadOp =>
      case RestartOp =>
    }
  }

  /** What a lawful life rules out: nothing follows resolved, and only resolved follows false positive. */
  lemma ClosedIsFinal(status: LifecycleStatus, history: seq<HistoryEntry>, closedAt: Option<string>, k: nat)
    requires LawfulLife(status, history, closedAt) && k < |history|
    ensures history[k].target == RESOLVED ==> k == |history| - 1
    ensures history[k].target == FALSE_POSITIVE && k + 1 < |history| ==>
              k + 2 == |history| && history[k + 1].target == RESOLVED && closedAt.Some?
  {
    if k + 1 < |history| {
      assert LawfulEntry(history[k + 1]);
      if k + 2 < |history| {
        assert LawfulEntry(history[k + 2]);
      }
    }
  }

  /** Histories in memory only grow: an operation that keeps a record extends its history by at most one entry. */
  lemma HistoryGrows(w: World, op: Op, id: string)
    requires id in w.memory && id in WorldStep(w, op).memory
    ensures var h, h' := w.memory[id].statusHistory, WorldStep(w, op).memory[id].statusHistory;
            h <= h' && |h'| <= |h| + 1
  {
    if op.ReconcileOp? {
      ReconciledMeaning(w.memory, if op.usePrevious then w.loaded else None, op.hashes, op.es, op.now);
    }
  }
}
