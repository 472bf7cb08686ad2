/** The governed patch lifecycle: a mutable gate record and the gate calls that drive it (src/gates.ts).
    Timestamps and event details are not modelled; the proposal id is chosen by the caller. */
module Gates {
  import opened Rationals
  import opened Receipts
  import opened Wrappers

  datatype GateStatus =
    | PROPOSED | REVIEW_PASSED | REVIEW_REJECTED | AUTHORIZED | AUTHORIZATION_DENIED | APPLIED
    | APPLY_FAILED | TESTS_PASSED | TESTS_FAILED | ROLLED_BACK | ROLLBACK_FAILED | RECEIPTED

  datatype GateName =
    ProposalGate | ReviewGate | AuthorizeGate | ApplyGate | PostApplyTestGate | RollbackGate | ReceiptGate

  datatype GateEvent = GateEvent(gate: GateName, status: GateStatus)

  datatype PatchProposal = PatchProposal(
    proposalId: string, description: string, estimatedSpend: Rational64, estimatedDefect: Rational64,
    requiredAuthority: Rational64, policyHash: string)

  datatype ReviewResult = ReviewResult(proposalId: string, reviewer: string, approved: bool, comments: string)

  /** A table of file hashes, in the enumeration order of its keys. */
  type HashTable = seq<(string, string)>

  datatype ApplySnapshot = ApplySnapshot(
    filesModified: seq<string>, prePatchHashes: HashTable, postPatchHashes: HashTable)

  datatype TestResult = TestResult(name: string, passed: bool)

  datatype AuthorizationInput = AuthorizationInput(
    domainId: string, valuationPre: Rational64, valuationPost: Rational64, memoryBudget: int)

  /** The foreign parts: the digest and the byte length of a receipt's JSON text. */
  datatype Env = Env(sha: string -> string, mass: CohBitReceipt -> nat)

  function Zeros(n: nat): (s: string)
    ensures |s| == n && forall c | c in s :: c == '0'
  {
    if n == 0 then "" else Zeros(n - 1) + "0"
  }

  /** A hash that is not known: 64 zero digits. */
  const ZEROS: string := Zeros(64)

  function Lookup(table: HashTable, key: string): string {
    if table == [] then ZEROS
    else if table[0].0 == key then table[0].1
    else Lookup(table[1..], key)
  }

  function FirstFile(files: seq<string>): string {
    if files == [] then "" else files[0]
  }

  /** The hash a receipt records for the state before the patch: that of the first modified file. */
  function FromState(snapshot: Option<ApplySnapshot>): string {
    if snapshot.None? then ZEROS else Lookup(snapshot.value.prePatchHashes, FirstFile(snapshot.value.filesModified))
  }

  function ToState(snapshot: Option<ApplySnapshot>): string {
    if snapshot.None? then ZEROS else Lookup(snapshot.value.postPatchHashes, FirstFile(snapshot.value.filesModified))
  }

  predicate AllPassed(results: seq<TestResult>) {
    forall i | 0 <= i < |results| :: results[i].passed
  }

  // ----- The value of a record, and one gate call on it -----

  datatype Gate = Gate(
    proposal: PatchProposal, status: GateStatus, review: Option<ReviewResult>, authorization: Option<GmiStatus>,
    applySnapshot: Option<ApplySnapshot>, testResults: Option<seq<TestResult>>, rollbackApplied: bool,
    receipt: Option<CohBitReceipt>, timeline: seq<GateEvent>)
  {
    function AddEvent(gate: GateName, status: GateStatus): Gate {
      this.(timeline := timeline + [GateEvent(gate, status)], status := status)
    }
  }

  datatype Call =
    | Review(reviewer: string, approved: bool, comments: string)
    | Authorize(auth: AuthorizationInput, evidence: CohBitReceipt)
    | Apply(snapshot: ApplySnapshot)
    | RunTests(results: seq<TestResult>)
    | Rollback
    | CommitReceipt(pre: Rational64, post: Rational64, domainId: string, actionHash: string)

  function Proposed(proposal: PatchProposal): Gate {
    Gate(proposal, PROPOSED, None, None, None, None, false, None, []).AddEvent(ProposalGate, PROPOSED)
  }

  function CommitInput(g: Gate, pre: Rational64, post: Rational64, domainId: string, actionHash: string)
    : BuilderInput
  {
    BuilderInput(pre, post, g.proposal.estimatedSpend, g.proposal.estimatedDefect, g.proposal.requiredAuthority,
                 Rational64(1, 1), FromState(g.applySnapshot), ToState(g.applySnapshot), "0.1.0", domainId,
                 g.proposal.policyHash, actionHash, ZEROS)
  }

  function ReviewStep(g: Gate, reviewer: string, approved: bool, comments: string): Gate {
    if g.status != PROPOSED then g.AddEvent(ReviewGate, REVIEW_REJECTED)
    else
      var reviewed := g.(review := Some(ReviewResult(g.proposal.proposalId, reviewer, approved, comments)));
      reviewed.AddEvent(ReviewGate, if approved then REVIEW_PASSED else REVIEW_REJECTED)
  }

  function AuthorizeStep(env: Env, g: Gate, auth: AuthorizationInput, evidence: CohBitReceipt): Gate {
    var w := evidence.wedge;
    if || g.status != REVIEW_PASSED
       || w.policyHash != g.proposal.policyHash
       || !IsAdmissible(auth.valuationPre, auth.valuationPost, w.spend, w.defect, w.authority)
       || env.mass(evidence) > auth.memoryBudget
    then g.AddEvent(AuthorizeGate, AUTHORIZATION_DENIED)
    else
      g.(authorization := Some(GmiStatus(0, evidence.bitId, true, false, true))).AddEvent(AuthorizeGate, AUTHORIZED)
  }

  function ApplyStep(g: Gate, snapshot: ApplySnapshot): Gate {
    if g.status != AUTHORIZED then g.AddEvent(ApplyGate, APPLY_FAILED)
    else g.(applySnapshot := Some(snapshot)).AddEvent(ApplyGate, APPLIED)
  }

  function RunTestsStep(g: Gate, results: seq<TestResult>): Gate {
    if g.status != APPLIED then g.AddEvent(PostApplyTestGate, TESTS_FAILED)
    else
      g.(testResults := Some(results))
       .AddEvent(PostApplyTestGate, if AllPassed(results) then TESTS_PASSED else TESTS_FAILED)
  }

  function RollbackStep(g: Gate): Gate {
    if g.status != TESTS_FAILED || g.applySnapshot.None? then g.AddEvent(RollbackGate, ROLLBACK_FAILED)
    else g.(rollbackApplied := true).AddEvent(RollbackGate, ROLLED_BACK)
  }

  function CommitStep(env: Env, g: Gate, pre: Rational64, post: Rational64, domainId: string, actionHash: string)
    : Gate
  {
    if g.status != TESTS_PASSED then g.AddEvent(ReceiptGate, ROLLBACK_FAILED)
    else
      match BuildReceipt(env.sha, CommitInput(g, pre, post, domainId, actionHash))
      case Err(_) => g.AddEvent(ReceiptGate, APPLIED)
      case Ok(receipt) => g.(receipt := Some(receipt)).AddEvent(ReceiptGate, RECEIPTED)
  }

  function Step(env: Env, g: Gate, call: Call): Gate {
    match call
    case Review(reviewer, approved, comments) => ReviewStep(g, reviewer, approved, comments)
    case Authorize(auth, evidence) => AuthorizeStep(env, g, auth, evidence)
    case Apply(snapshot) => ApplyStep(g, snapshot)
    case RunTests(results) => RunTestsStep(g, results)
    case Rollback => RollbackStep(g)
    case CommitReceipt(pre, post, domainId, actionHash) => CommitStep(env, g, pre, post, domainId, actionHash)
  }

  // ----- The record as the program keeps it -----

  class GateRecord {
    const proposal: PatchProposal
    var status: GateStatus
    var review: Option<ReviewResult>
    var authorization: Option<GmiStatus>
    var applySnapshot: Option<ApplySnapshot>
    var testResults: Option<seq<TestResult>>
    var rollbackApplied: bool
    var receipt: Option<CohBitReceipt>
    var timeline: seq<GateEvent>

    ghost function Contents(): Gate
      reads this
    {
      Gate(proposal, status, review, authorization, applySnapshot, testResults, rollbackApplied, receipt, timeline)
    }

    constructor Propose(proposal: PatchProposal)
      ensures Contents() == Proposed(proposal)
    {
      this.proposal := proposal;
      status := PROPOSED;
      review, authorization, applySnapshot, testResults := None, None, None, None;
      rollbackApplied := false;
      receipt := None;
      timeline := [];
      new;
      AddEvent(ProposalGate, PROPOSED);
    }

    method AddEvent(gate: GateName, newStatus: GateStatus)
      modifies this`timeline, this`status
      ensures Contents() == old(Contents()).AddEvent(gate, newStatus)
    {
      timeline := timeline + [GateEvent(gate, newStatus)];
      status := newStatus;
    }

    method DoReview(reviewer: string, approved: bool, comments: string)
      modifies this
      ensures Contents() == ReviewStep(old(Contents()), reviewer, approved, comments)
    {
      if status != PROPOSED {
        AddEvent(ReviewGate, REVIEW_REJECTED);
        return;
      }
      review := Some(ReviewResult(proposal.proposalId, reviewer, approved, comments));
      if approved {
        AddEvent(ReviewGate, REVIEW_PASSED);
      } else {
        AddEvent(ReviewGate, REVIEW_REJECTED);
      }
    }

    method DoAuthorize(env: Env, auth: AuthorizationInput, evidence: CohBitReceipt)
      modifies this
      ensures Contents() == AuthorizeStep(env, old(Contents()), auth, evidence)
    {
      if status != REVIEW_PASSED {
        AddEvent(AuthorizeGate, AUTHORIZATION_DENIED);
        return;
      }
      if evidence.wedge.policyHash != proposal.policyHash {
        AddEvent(AuthorizeGate, AUTHORIZATION_DENIED);
        return;
      }
      var admissible := IsAdmissible(auth.valuationPre, auth.valuationPost, evidence.wedge.spend,
                                     evidence.wedge.defect, evidence.wedge.authority);
      if !admissible {
        AddEvent(AuthorizeGate, AUTHORIZATION_DENIED);
        return;
      }
      if env.mass(evidence) > auth.memoryBudget {
        AddEvent(AuthorizeGate, AUTHORIZATION_DENIED);
        return;
      }
      authorization := Some(GmiStatus(0, evidence.bitId, true, false, admissible));
      AddEvent(AuthorizeGate, AUTHORIZED);
    }

    method DoApply(snapshot: ApplySnapshot)
      modifies this
      ensures Contents() == ApplyStep(old(Contents()), snapshot)
    {
      if status != AUTHORIZED {
        AddEvent(ApplyGate, APPLY_FAILED);
        return;
      }
      applySnapshot := Some(snapshot);
      AddEvent(ApplyGate, APPLIED);
    }

    method DoRunTests(results: seq<TestResult>)
      modifies this
      ensures Contents() == RunTestsStep(old(Contents()), results)
    {
      if status != APPLIED {
        AddEvent(PostApplyTestGate, TESTS_FAILED);
        return;
      }
      testResults := Some(results);
      if AllPassed(results) {
        AddEvent(PostApplyTestGate, TESTS_PASSED);
      } else {
        AddEvent(PostApplyTestGate, TESTS_FAILED);
      }
    }

    method DoRollback()
      modifies this
      ensures Contents() == RollbackStep(old(Contents()))
    {
      if status != TESTS_FAILED {
        AddEvent(RollbackGate, ROLLBACK_FAILED);
        return;
      }
      if applySnapshot == None {
        AddEvent(RollbackGate, ROLLBACK_FAILED);
        return;
      }
      rollbackApplied := true;
      AddEvent(RollbackGate, ROLLED_BACK);
    }

    method DoCommitReceipt(env: Env, pre: Rational64, post: Rational64, domainId: string, actionHash: string)
      modifies this
      ensures Contents() == CommitStep(env, old(Contents()), pre, post, domainId, actionHash)
    {
      if status != TESTS_PASSED {
        AddEvent(ReceiptGate, ROLLBACK_FAILED);
        return;
      }
      var result := BuildReceipt(env.sha, BuilderInput(
        pre, post, proposal.estimatedSpend, proposal.estimatedDefect, proposal.requiredAuthority,
        Rational64(1, 1), FromState(applySnapshot), ToState(applySnapshot), "0.1.0", domainId, proposal.policyHash,
        actionHash, ZEROS));
      match result
      case Err(_) =>
        AddEvent(ReceiptGate, APPLIED);
      case Ok(built) =>
        receipt := Some(built);
        AddEvent(ReceiptGate, RECEIPTED);
    }
  }

  // ----- The full pipeline -----

  datatype PipelineConfig = PipelineConfig(
    proposal: PatchProposal, reviewer: string, reviewApproved: bool, reviewComments: string,
    authorization: AuthorizationInput, apply: ApplySnapshot, testResults: seq<TestResult>, domainId: string,
    actionHash: string)

  /** The provisional receipt shown to the authorization gate. */
  function ProvisionalReceipt(config: PipelineConfig): CohBitReceipt {
    var hashes := config.apply.prePatchHashes;
    CohBitReceipt("", config.authorization.valuationPre, config.authorization.valuationPost, Wedge(
      "0.1.0", config.domainId, config.proposal.policyHash, if hashes == [] then ZEROS else hashes[0].1,
      config.actionHash, ZEROS, config.proposal.estimatedSpend, config.proposal.estimatedDefect,
      Rational64(1, 10), config.proposal.requiredAuthority, ZEROS))
  }

  /** V(post) + s <= V(pre) + d + a, on the denoted numbers. */
  ghost predicate Lawful(config: PipelineConfig) {
    Value(config.authorization.valuationPost) + Value(config.proposal.estimatedSpend)
    <= Value(config.authorization.valuationPre) + Value(config.proposal.estimatedDefect)
       + Value(config.proposal.requiredAuthority)
  }

  ghost predicate Cleared(env: Env, config: PipelineConfig) {
    && config.reviewApproved && Lawful(config)
    && env.mass(ProvisionalReceipt(config)) <= config.authorization.memoryBudget
  }

  /** The gate calls of the pipeline in order, stopping at the first rejection. */
  ghost function PipelineRun(env: Env, config: PipelineConfig): Gate {
    var auth := config.authorization;
    var g1 := ReviewStep(Proposed(config.proposal), config.reviewer, config.reviewApproved, config.reviewComments);
    if g1.status != REVIEW_PASSED then g1 else
    var g2 := AuthorizeStep(env, g1, auth, ProvisionalReceipt(config));
    if g2.status != AUTHORIZED then g2 else
    var g3 := RunTestsStep(ApplyStep(g2, config.apply), config.testResults);
    if g3.status == TESTS_FAILED then RollbackStep(g3) else
    CommitStep(env, g3, auth.valuationPre, auth.valuationPost, config.domainId, config.actionHash)
  }

  lemma FullEnvelope()
    ensures Value(Rational64(1, 1)) == 1.0
  {
  }

  lemma CommitOutcome(env: Env, g: Gate, pre: Rational64, post: Rational64, domainId: string, actionHash: string)
    requires g.status == TESTS_PASSED
    ensures var p, g' := g.proposal, CommitStep(env, g, pre, post, domainId, actionHash);
            var lawful := Value(post) + Value(p.estimatedSpend)
                       <= Value(pre) + Value(p.estimatedDefect) + Value(p.requiredAuthority);
            && (g'.status == RECEIPTED <==> lawful && Value(p.estimatedDefect) <= 1.0)
            && (g'.status == APPLIED <==> !lawful || Value(p.estimatedDefect) > 1.0)
  {
    hide BuildReceipt, Value;
    BuildReceiptOutcome(env.sha, CommitInput(g, pre, post, domainId, actionHash));
    FullEnvelope();
  }

  /** Where the pipeline ends, for every configuration. */
  lemma PipelineOutcome(env: Env, config: PipelineConfig)
    ensures var end := PipelineRun(env, config).status;
            var passed, within := AllPassed(config.testResults), Value(config.proposal.estimatedDefect) <= 1.0;
            && (end == RECEIPTED <==> Cleared(env, config) && passed && within)
            && (end == APPLIED <==> Cleared(env, config) && passed && !within)
            && (end == ROLLED_BACK <==> Cleared(env, config) && !passed)
            && (end == AUTHORIZATION_DENIED <==> config.reviewApproved && !Cleared(env, config))
            && (end == REVIEW_REJECTED <==> !config.reviewApproved)
  {
    var auth, p := config.authorization, config.proposal;
    AdmissibilityLaw(auth.valuationPre, auth.valuationPost, p.estimatedSpend, p.estimatedDefect, p.requiredAuthority);
    if Cleared(env, config) && AllPassed(config.testResults) {
      var g1 := ReviewStep(Proposed(p), config.reviewer, config.reviewApproved, config.reviewComments);
      var g3 := RunTestsStep(ApplyStep(AuthorizeStep(env, g1, auth, ProvisionalReceipt(config)), config.apply),
                             config.testResults);
      CommitOutcome(env, g3, auth.valuationPre, auth.valuationPost, config.domainId, config.actionHash);
    }
  }

  method RunPipeline(env: Env, config: PipelineConfig) returns (record: GateRecord)
    ensures fresh(record)
    ensures record.Contents() == PipelineRun(env, config)
    ensures record.status == RECEIPTED
       <==> Cleared(env, config) && AllPassed(config.testResults) && Value(config.proposal.estimatedDefect) <= 1.0
  {
    PipelineOutcome(env, config);
    var auth := config.authorization;
    record := new GateRecord.Propose(config.proposal);
    record.DoReview(config.reviewer, config.reviewApproved, config.reviewComments);
    if record.status != REVIEW_PASSED {
      return;
    }
    var evidence := ProvisionalReceipt(config);
    record.DoAuthorize(env, auth, evidence);
    if record.status != AUTHORIZED {
      return;
    }
    record.DoApply(config.apply);
    if record.status != APPLIED {
      return;
    }
    record.DoRunTests(config.testResults);
    if record.status == TESTS_FAILED {
      record.DoRollback();
      return;
    }
    record.DoCommitReceipt(env, auth.valuationPre, auth.valuationPost, config.domainId, config.actionHash);
  }

  function Run(env: Env, g: Gate, calls: seq<Call>): Gate {
    if calls == [] then g else Step(env, Run(env, g, calls[..|calls| - 1]), calls[|calls| - 1])
  }

  lemma Extend(env: Env, g: Gate, calls: seq<Call>, call: Call) returns (longer: seq<Call>)
    ensures longer == calls + [call]
    ensures Run(env, g, longer) == Step(env, Run(env, g, calls), call)
  {
    longer := calls + [call];
    assert longer[..|calls|] == calls;
  }

  /** The pipeline is one run of gate calls, so everything proved of runs holds of it. */
  lemma PipelineIsRun(env: Env, config: PipelineConfig) returns (calls: seq<Call>)
    ensures Run(env, Proposed(config.proposal), calls) == PipelineRun(env, config)
  {
    hide BuildReceipt, ProvisionalReceipt, IsAdmissible, AllPassed;
    var auth, start := config.authorization, Proposed(config.proposal);
    calls := [];
    calls := Extend(env, start, calls, Review(config.reviewer, config.reviewApproved, config.reviewComments));
    if config.reviewApproved {
      calls := Extend(env, start, calls, Authorize(auth, ProvisionalReceipt(config)));
      if Run(env, start, calls).status == AUTHORIZED {
        calls := Extend(env, start, calls, Apply(config.apply));
        calls := Extend(env, start, calls, RunTests(config.testResults));
        if Run(env, start, calls).status == TESTS_FAILED {
          calls := Extend(env, start, calls, Rollback);
        } else {
          calls := Extend(env, start, calls, CommitReceipt(auth.valuationPre, auth.valuationPost, config.domainId,
                                                           config.actionHash));
        }
      }
    }
  }

  // ----- Every sequence of calls, in any order -----

  const LIVE: set<GateStatus> := {PROPOSED, REVIEW_PASSED, AUTHORIZED, APPLIED, TESTS_PASSED}

  /** The status changes a call can make. Every call appends one event, in the wrong status too. */
  predicate Edge(a: GateStatus, b: GateStatus) {
    || (b !in LIVE && b != RECEIPTED)
    || (a == PROPOSED && b == REVIEW_PASSED)
    || (a == REVIEW_PASSED && b == AUTHORIZED)
    || (a == AUTHORIZED && b == APPLIED)
    || (a == APPLIED && b == TESTS_PASSED)
    || (a == TESTS_PASSED && (b == APPLIED || b == RECEIPTED))
  }

  function Statuses(timeline: seq<GateEvent>): (s: seq<GateStatus>)
    ensures |s| == |timeline|
  {
    seq(|timeline|, i requires 0 <= i < |timeline| => timeline[i].status)
  }

  lemma StepIsEdge(env: Env, g: Gate, call: Call)
    ensures var g' := Step(env, g, call);
            && Edge(g.status, g'.status)
            && |g'.timeline| == |g.timeline| + 1
            && g'.timeline[..|g.timeline|] == g.timeline
            && g'.timeline[|g.timeline|].status == g'.status
            && g'.timeline[|g.timeline|].gate == match call
                 case Review(_, _, _) => ReviewGate
                 case Authorize(_, _) => AuthorizeGate
                 case Apply(_) => ApplyGate
                 case RunTests(_) => PostApplyTestGate
                 case Rollback => RollbackGate
                 case CommitReceipt(_, _, _, _) => ReceiptGate
  {
  }

  predicate Walk(s: seq<GateStatus>) {
    && s != [] && s[0] == PROPOSED
    && forall i | 0 < i < |s| :: Edge(s[i - 1], s[i])
  }

  lemma {:induction false} RunIsWalk(env: Env, proposal: PatchProposal, calls: seq<Call>)
    ensures var g := Run(env, Proposed(proposal), calls);
            Walk(Statuses(g.timeline)) && g.timeline[|g.timeline| - 1].status == g.status
            && |g.timeline| == |calls| + 1
  {
    hide Step;
    if calls != [] {
      var front := calls[..|calls| - 1];
      RunIsWalk(env, proposal, front);
      var g := Run(env, Proposed(proposal), front);
      StepIsEdge(env, g, calls[|calls| - 1]);
      var s, s' := Statuses(g.timeline), Statuses(Run(env, Proposed(proposal), calls).timeline);
      assert s == s'[..|s|];
    }
  }

  /** n rounds of applying and passing the tests. */
  function Rounds(n: nat): seq<GateStatus> {
    if n == 0 then [] else Rounds(n - 1) + [APPLIED, TESTS_PASSED]
  }

  function HappyPath(n: nat): seq<GateStatus> {
    [PROPOSED, REVIEW_PASSED, AUTHORIZED] + Rounds(n)
  }

  /** A live status determines the timeline up to the number of rounds. */
  lemma {:induction false} LiveWalk(s: seq<GateStatus>) returns (n: nat)
    requires Walk(s) && s[|s| - 1] in LIVE
    ensures s[|s| - 1] !in {APPLIED, TESTS_PASSED} ==> n == 0
    ensures s[|s| - 1] == PROPOSED ==> s == [PROPOSED]
    ensures s[|s| - 1] == REVIEW_PASSED ==> s == [PROPOSED, REVIEW_PASSED]
    ensures s[|s| - 1] == AUTHORIZED ==> s == HappyPath(0)
    ensures s[|s| - 1] == APPLIED ==> s == HappyPath(n) + [APPLIED]
    ensures s[|s| - 1] == TESTS_PASSED ==> n >= 1 && s == HappyPath(n)
  {
    n := 0;
    if |s| > 1 {
      var front := s[..|s| - 1];
      assert Edge(s[|s| - 2], s[|s| - 1]);
      n := LiveWalk(front);
      assert s == front + [s[|s| - 1]];
      assert Rounds(0) == [];
      if s[|s| - 1] == TESTS_PASSED {
        assert HappyPath(n + 1) == HappyPath(n) + [APPLIED] + [TESTS_PASSED];
        n := n + 1;
      }
      if s[|s| - 1] in {REVIEW_PASSED, AUTHORIZED} {
        n := 0;
      }
    }
  }

  lemma {:induction false} NeverBackToLive(s: seq<GateStatus>, k: nat)
    requires Walk(s) && k < |s| && s[k] !in LIVE
    ensures forall i | k < i < |s| :: s[i] !in LIVE && s[i] != RECEIPTED
    decreases |s| - k
  {
    if k + 1 < |s| {
      assert Edge(s[k], s[k + 1]);
      NeverBackToLive(s, k + 1);
    }
  }

  /** In every run, whatever the order of calls: the timeline up to a RECEIPTED event is the happy path with one
      or more test rounds, and every event after it is a failure or a rollback. */
  lemma ReceiptedTimeline(env: Env, proposal: PatchProposal, calls: seq<Call>, k: nat) returns (n: nat)
    ensures var s := Statuses(Run(env, Proposed(proposal), calls).timeline);
            k < |s| && s[k] == RECEIPTED ==>
              && n >= 1 && s[..k + 1] == HappyPath(n) + [RECEIPTED]
              && forall i | k < i < |s| :: s[i] !in LIVE && s[i] != RECEIPTED
  {
    hide Step;
    n := 0;
    RunIsWalk(env, proposal, calls);
    var s := Statuses(Run(env, Proposed(proposal), calls).timeline);
    if k < |s| && s[k] == RECEIPTED {
      assert k > 0 && Edge(s[k - 1], s[k]);
      n := LiveWalk(s[..k]);
      assert s[..k + 1] == s[..k] + [s[k]];
      NeverBackToLive(s, k);
    }
  }

  lemma {:induction false} RunAppend(env: Env, g: Gate, calls: seq<Call>, more: seq<Call>)
    ensures Run(env, g, calls + more) == Run(env, Run(env, g, calls), more)
    ensures Run(env, g, calls).timeline <= Run(env, g, calls + more).timeline
  {
    hide Step;
    if more == [] {
      assert calls + more == calls;
    } else {
      var all, front := calls + more, more[..|more| - 1];
      assert all[..|all| - 1] == calls + front;
      RunAppend(env, g, calls, front);
      StepIsEdge(env, Run(env, g, calls + front), more[|more| - 1]);
    }
  }

  /** Leaving the live statuses is final, for every later call. */
  lemma DeadStaysDead(env: Env, proposal: PatchProposal, calls: seq<Call>, more: seq<Call>)
    requires Run(env, Proposed(proposal), calls).status !in LIVE
    requires more != []
    ensures Run(env, Proposed(proposal), calls + more).status !in LIVE + {RECEIPTED}
  {
    hide Step;
    RunIsWalk(env, proposal, calls);
    RunIsWalk(env, proposal, calls + more);
    RunAppend(env, Proposed(proposal), calls, more);
    var g' := Run(env, Proposed(proposal), calls + more);
    var s := Statuses(g'.timeline);
    assert s[|calls|] == Run(env, Proposed(proposal), calls).status;
    NeverBackToLive(s, |calls|);
    assert s[|s| - 1] == g'.status;
  }

  // ----- The evidence behind each field -----

  /** The first call was not a review, so nothing was ever reviewed. */
  predicate NothingReviewed(g: Gate) {
    g.review.None? && g.status !in LIVE && g.status != RECEIPTED
  }

  /** The receipt is addressed by its own hash, carries the proposal's terms and the snapshot's states, obeys the law
      within the full envelope, and verifies. */
  predicate Receipted(env: Env, proposal: PatchProposal, snapshot: Option<ApplySnapshot>, r: CohBitReceipt) {
    && r.bitId == HashReceipt(env.sha, r)
    && r.wedge.fromState == FromState(snapshot) && r.wedge.toState == ToState(snapshot)
    && r.wedge.spend == proposal.estimatedSpend
    && r.wedge.defect == proposal.estimatedDefect
    && r.wedge.authority == proposal.requiredAuthority
    && r.wedge.policyHash == proposal.policyHash
    && IsAdmissible(r.valuationPre, r.valuationPost, r.wedge.spend, r.wedge.defect, r.wedge.authority)
    && r.wedge.prescribedEnvelope == Rational64(1, 1) && !DefectTooLarge(r.wedge.defect, Rational64(1, 1))
    && VerifyGmiStatus(env.sha, r, r.bitId).hashVerified
    && VerifyGmiStatus(env.sha, r, r.bitId).transitionAdmissible
  }

  /** What holds of the evidence fields in every reachable state. */
  predicate Evidence(env: Env, g: Gate) {
    && (g.review.None? <==> g.status == PROPOSED || NothingReviewed(g))
    && (g.status in {REVIEW_PASSED, AUTHORIZED, APPLIED, TESTS_PASSED, RECEIPTED} ==>
          g.review.Some? && g.review.value.approved)
    && (g.status in {PROPOSED, REVIEW_PASSED} ==> g.authorization.None?)
    && (g.status in {PROPOSED, REVIEW_PASSED, AUTHORIZED} ==> g.applySnapshot.None?)
    && (g.status in {AUTHORIZED, APPLIED, TESTS_PASSED, RECEIPTED} ==> g.authorization.Some?)
    && (g.status in {APPLIED, TESTS_PASSED, RECEIPTED} ==> g.applySnapshot.Some?)
    && (g.status in {TESTS_PASSED, RECEIPTED} ==> g.testResults.Some? && AllPassed(g.testResults.value))
    && (g.status in LIVE ==> g.receipt.None? && !g.rollbackApplied)
    && (g.status == RECEIPTED ==> g.receipt.Some? && !g.rollbackApplied)
    && (g.authorization.Some? ==> g.review.Some? && g.review.value.approved)
    && (g.applySnapshot.Some? ==> g.authorization.Some?)
    && (g.receipt.Some? ==>
          && g.applySnapshot.Some?
          && g.testResults.Some? && AllPassed(g.testResults.value)
          && Receipted(env, g.proposal, g.applySnapshot, g.receipt.value))
    && (g.rollbackApplied ==> g.applySnapshot.Some?)
  }

  predicate WrittenOnce(g: Gate, g': Gate) {
    && g'.proposal == g.proposal
    && (g.review.Some? ==> g'.review == g.review)
    && (g.authorization.Some? ==> g'.authorization == g.authorization)
    && (g.applySnapshot.Some? ==> g'.applySnapshot == g.applySnapshot)
    && (g.receipt.Some? ==> g'.receipt == g.receipt && g'.testResults == g.testResults)
  }

  lemma CommitKeepsEvidence(env: Env, g: Gate, pre: Rational64, post: Rational64, domainId: string, actionHash: string)
    requires Evidence(env, g)
    ensures Evidence(env, CommitStep(env, g, pre, post, domainId, actionHash))
    ensures WrittenOnce(g, CommitStep(env, g, pre, post, domainId, actionHash))
  {
    hide CanonicalReceipt;
  }

  /** One call keeps the evidence invariant and never rewrites a field that is already written. */
  lemma StepKeepsEvidence(env: Env, g: Gate, call: Call)
    requires Evidence(env, g)
    ensures Evidence(env, Step(env, g, call))
    ensures WrittenOnce(g, Step(env, g, call))
  {
    hide CommitStep, IsAdmissible, AllPassed, Receipted;
    if call.CommitReceipt? {
      CommitKeepsEvidence(env, g, call.pre, call.post, call.domainId, call.actionHash);
    }
  }

  lemma {:induction false} ReachableEvidence(env: Env, proposal: PatchProposal, calls: seq<Call>)
    ensures Evidence(env, Run(env, Proposed(proposal), calls))
    ensures Run(env, Proposed(proposal), calls).proposal == proposal
  {
    hide Step;
    if calls != [] {
      var front := calls[..|calls| - 1];
      ReachableEvidence(env, proposal, front);
      StepKeepsEvidence(env, Run(env, Proposed(proposal), front), calls[|calls| - 1]);
    }
  }

  /** Between any two points of any run, review, authorization, snapshot and receipt are write-once. */
  lemma {:induction false} FieldsWrittenOnce(env: Env, proposal: PatchProposal, calls: seq<Call>, more: seq<Call>)
    ensures WrittenOnce(Run(env, Proposed(proposal), calls), Run(env, Proposed(proposal), calls + more))
  {
    hide Step, Evidence;
    if more == [] {
      assert calls + more == calls;
    } else {
      var all, front := calls + more, more[..|more| - 1];
      assert all[..|all| - 1] == calls + front;
      FieldsWrittenOnce(env, proposal, calls, front);
      ReachableEvidence(env, proposal, calls + front);
      StepKeepsEvidence(env, Run(env, Proposed(proposal), calls + front), more[|more| - 1]);
    }
  }

  /** Every reachable receipt is backed by the whole chain of evidence. */
  lemma ReceiptIsBacked(env: Env, proposal: PatchProposal, calls: seq<Call>)
    ensures var g := Run(env, Proposed(proposal), calls);
            g.receipt.Some? ==>
              && g.review.Some? && g.review.value.approved && g.authorization.Some? && g.applySnapshot.Some?
              && g.testResults.Some? && AllPassed(g.testResults.value)
              && Receipted(env, proposal, g.applySnapshot, g.receipt.value)
  {
    ReachableEvidence(env, proposal, calls);
  }

  /** The hash stands in the table under the first file's name, or under the empty name if there is no file: at its
      first place there, or as 64 zero digits if it has none. */
  predicate HashOfFirst(table: HashTable, files: seq<string>, hash: string) {
    && (forall i | 0 <= i < |table| && table[i].0 == (if files == [] then "" else files[0])
                   && (forall j | 0 <= j < i :: table[j].0 != table[i].0) :: hash == table[i].1)
    && ((forall i | 0 <= i < |table| :: table[i].0 != if files == [] then "" else files[0]) ==>
          |hash| == 64 && forall c | c in hash :: c == '0')
  }

  lemma {:induction false} LookupFirst(table: HashTable, key: string)
    ensures forall i | 0 <= i < |table| && table[i].0 == key && (forall j | 0 <= j < i :: table[j].0 != key) ::
              Lookup(table, key) == table[i].1
    ensures (forall i | 0 <= i < |table| :: table[i].0 != key) ==> Lookup(table, key) == ZEROS
  {
    if table != [] {
      LookupFirst(table[1..], key);
      forall i | 0 <= i < |table| && table[i].0 == key && (forall j | 0 <= j < i :: table[j].0 != key)
        ensures Lookup(table, key) == table[i].1
      {
        if i > 0 {
          assert table[1..][i - 1] == table[i] && table[0].0 != key;
          assert forall j | 0 <= j < i - 1 :: table[1..][j] == table[j + 1];
        }
      }
      if forall i | 0 <= i < |table| :: table[i].0 != key {
        assert forall i | 0 <= i < |table| - 1 :: table[1..][i] == table[i + 1];
        assert table[0].0 != key;
      }
    }
  }

  lemma LookupIsHashOfFirst(table: HashTable, files: seq<string>)
    ensures HashOfFirst(table, files, Lookup(table, FirstFile(files)))
  {
    LookupFirst(table, FirstFile(files));
  }

  /** Every reachable receipt records the hash of the first modified file before the patch and the one after it. */
  lemma ReceiptStates(env: Env, proposal: PatchProposal, calls: seq<Call>)
    ensures var g := Run(env, Proposed(proposal), calls);
            g.receipt.Some? ==>
              && g.applySnapshot.Some?
              && var snapshot, w := g.applySnapshot.value, g.receipt.value.wedge;
                 && HashOfFirst(snapshot.prePatchHashes, snapshot.filesModified, w.fromState)
                 && HashOfFirst(snapshot.postPatchHashes, snapshot.filesModified, w.toState)
  {
    hide Run, HashOfFirst;
    ReachableEvidence(env, proposal, calls);
    var g := Run(env, Proposed(proposal), calls);
    if g.receipt.Some? {
      LookupIsHashOfFirst(g.applySnapshot.value.prePatchHashes, g.applySnapshot.value.filesModified);
      LookupIsHashOfFirst(g.applySnapshot.value.postPatchHashes, g.applySnapshot.value.filesModified);
    }
  }

  // ----- Which calls lead where -----

  ghost predicate LawHolds(pre: Rational64, post: Rational64, s: Rational64, d: Rational64, a: Rational64) {
    Value(post) + Value(s) <= Value(pre) + Value(d) + Value(a)
  }

  /** The call is an authorization with evidence for the proposal's policy, lawful and within the budget. */
  ghost predicate Clears(env: Env, proposal: PatchProposal, call: Call)
    requires call.Authorize?
  {
    && call.evidence.wedge.policyHash == proposal.policyHash
    && LawHolds(call.auth.valuationPre, call.auth.valuationPost, call.evidence.wedge.spend,
                call.evidence.wedge.defect, call.evidence.wedge.authority)
    && env.mass(call.evidence) <= call.auth.memoryBudget
  }

  /** The call commits a lawful receipt within the full envelope. */
  ghost predicate Seals(proposal: PatchProposal, call: Call)
    requires call.CommitReceipt?
  {
    && Value(proposal.estimatedDefect) <= 1.0
    && LawHolds(call.pre, call.post, proposal.estimatedSpend, proposal.estimatedDefect, proposal.requiredAuthority)
  }

  /** What the i-th call must be for the record to stay live: an approving review, a clearing authorization, an
      application, and then in turn passed tests and commits that fail. */
  ghost predicate Advances(env: Env, proposal: PatchProposal, call: Call, i: nat) {
    if i == 0 then call.Review? && call.approved
    else if i == 1 then call.Authorize? && Clears(env, proposal, call)
    else if i == 2 then call.Apply?
    else if i % 2 == 1 then call.RunTests? && forall t | t in call.results :: t.passed
    else call.CommitReceipt? && !Seals(proposal, call)
  }

  function LiveStatus(i: nat): GateStatus {
    if i == 0 then PROPOSED
    else if i == 1 then REVIEW_PASSED
    else if i == 2 then AUTHORIZED
    else if i % 2 == 1 then APPLIED
    else TESTS_PASSED
  }

  lemma CommitSeals(env: Env, g: Gate, call: Call)
    requires call.CommitReceipt? && g.status == TESTS_PASSED
    ensures Step(env, g, call).status == if Seals(g.proposal, call) then RECEIPTED else APPLIED
    ensures Seals(g.proposal, call) ==>
              var g' := Step(env, g, call);
              && g'.receipt.Some? && g'.receipt.value.valuationPre == call.pre
              && g'.receipt.value.valuationPost == call.post && g'.receipt.value.wedge.domainId == call.domainId
              && g'.receipt.value.wedge.actionHash == call.actionHash
  {
    hide Value, IsAdmissible, HashReceipt, DefectTooLarge;
    CommitOutcome(env, g, call.pre, call.post, call.domainId, call.actionHash);
  }

  lemma AuthorizeClears(env: Env, g: Gate, call: Call)
    requires call.Authorize? && g.status == REVIEW_PASSED
    ensures Step(env, g, call).status == if Clears(env, g.proposal, call) then AUTHORIZED else AUTHORIZATION_DENIED
    ensures Clears(env, g.proposal, call) ==>
              Step(env, g, call).authorization == Some(GmiStatus(0, call.evidence.bitId, true, false, true))
  {
    var w := call.evidence.wedge;
    AdmissibilityLaw(call.auth.valuationPre, call.auth.valuationPost, w.spend, w.defect, w.authority);
  }

  lemma PassedIffAll(results: seq<TestResult>)
    ensures AllPassed(results) <==> forall t | t in results :: t.passed
  {
  }

  /** Where each call leads, by the status it finds. */
  lemma StatusStep(env: Env, g: Gate, call: Call)
    ensures Step(env, g, call).status == match call
              case Review(_, approved, _) =>
                if g.status == PROPOSED && approved then REVIEW_PASSED else REVIEW_REJECTED
              case Authorize(_, _) =>
                if g.status == REVIEW_PASSED && Clears(env, g.proposal, call) then AUTHORIZED else AUTHORIZATION_DENIED
              case Apply(_) => if g.status == AUTHORIZED then APPLIED else APPLY_FAILED
              case RunTests(results) =>
                if g.status == APPLIED && forall t | t in results :: t.passed then TESTS_PASSED else TESTS_FAILED
              case Rollback =>
                if g.status == TESTS_FAILED && g.applySnapshot.Some? then ROLLED_BACK else ROLLBACK_FAILED
              case CommitReceipt(_, _, _, _) =>
                if g.status != TESTS_PASSED then ROLLBACK_FAILED
                else if Seals(g.proposal, call) then RECEIPTED else APPLIED
  {
    hide Clears, Seals, IsAdmissible, AllPassed, BuildReceipt;
    match call
    case Authorize(_, _) =>
      if g.status == REVIEW_PASSED { AuthorizeClears(env, g, call); }
    case CommitReceipt(_, _, _, _) =>
      if g.status == TESTS_PASSED { CommitSeals(env, g, call); }
    case RunTests(results) => PassedIffAll(results);
    case _ =>
  }

  lemma AdvanceStep(env: Env, g: Gate, call: Call, i: nat)
    requires g.status == LiveStatus(i)
    ensures var g' := Step(env, g, call);
            if Advances(env, g.proposal, call, i) then g'.status == LiveStatus(i + 1) else g'.status !in LIVE
  {
    hide Clears, Seals, Step;
    StatusStep(env, g, call);
  }

  /** A record is live exactly when every call so far advanced it, and then the number of calls determines its
      status. */
  lemma {:induction false} LiveIff(env: Env, proposal: PatchProposal, calls: seq<Call>)
    ensures var g := Run(env, Proposed(proposal), calls);
            && (g.status in LIVE <==> forall i: nat | i < |calls| :: Advances(env, proposal, calls[i], i))
            && (g.status in LIVE ==> g.status == LiveStatus(|calls|))
  {
    hide Step, Advances;
    if calls != [] {
      var front, n := calls[..|calls| - 1], |calls| - 1;
      LiveIff(env, proposal, front);
      ReachableEvidence(env, proposal, front);
      var g := Run(env, Proposed(proposal), front);
      assert (forall i: nat | i < |calls| :: Advances(env, proposal, calls[i], i))
        <==> (forall i: nat | i < |front| :: Advances(env, proposal, front[i], i))
             && Advances(env, proposal, calls[n], n) by {
        assert forall i: nat | i < |front| :: front[i] == calls[i];
      }
      if g.status in LIVE {
        AdvanceStep(env, g, calls[n], n);
      } else {
        StepIsEdge(env, g, calls[n]);
      }
    }
  }

  /** The k-th call is the one that commits: every call before it advanced the record, through tests, and it seals. */
  ghost predicate SealedAt(env: Env, proposal: PatchProposal, calls: seq<Call>, k: nat) {
    && k < |calls| && k >= 4 && k % 2 == 0 && calls[k].CommitReceipt? && Seals(proposal, calls[k])
    && forall i: nat | i < k :: Advances(env, proposal, calls[i], i)
  }

  /** The status in which each gate acts, by the calls made so far. */
  lemma ActingStatus(env: Env, proposal: PatchProposal, calls: seq<Call>)
    ensures var g, n := Run(env, Proposed(proposal), calls), |calls|;
            && g.proposal == proposal
            && (g.status == PROPOSED <==> n == 0)
            && (g.status == REVIEW_PASSED <==> n == 1 && Advances(env, proposal, calls[0], 0))
            && (g.status == AUTHORIZED <==>
                  n == 2 && Advances(env, proposal, calls[0], 0) && Advances(env, proposal, calls[1], 1))
            && (g.status == TESTS_PASSED <==>
                  n >= 4 && n % 2 == 0 && forall i: nat | i < n :: Advances(env, proposal, calls[i], i))
  {
    hide Run, Advances;
    LiveIff(env, proposal, calls);
    ReachableEvidence(env, proposal, calls);
  }

  /** What one call writes. */
  lemma FieldsStep(env: Env, g: Gate, call: Call)
    ensures var g' := Step(env, g, call);
            && g'.review == (if call.Review? && g.status == PROPOSED then
                 Some(ReviewResult(g.proposal.proposalId, call.reviewer, call.approved, call.comments)) else g.review)
            && g'.authorization == (if call.Authorize? && g.status == REVIEW_PASSED
                                       && Clears(env, g.proposal, call) then
                 Some(GmiStatus(0, call.evidence.bitId, true, false, true)) else g.authorization)
            && g'.applySnapshot == (if call.Apply? && g.status == AUTHORIZED then Some(call.snapshot)
                                    else g.applySnapshot)
            && g'.testResults == (if call.RunTests? && g.status == APPLIED then Some(call.results) else g.testResults)
            && (g'.rollbackApplied <==>
                  g.rollbackApplied || (call.Rollback? && g.status == TESTS_FAILED && g.applySnapshot.Some?))
            && (!(call.CommitReceipt? && g.status == TESTS_PASSED && Seals(g.proposal, call)) ==>
                  g'.receipt == g.receipt)
  {
    hide Clears, Seals, BuildReceipt, IsAdmissible, AllPassed;
    if call.Authorize? && g.status == REVIEW_PASSED { AuthorizeClears(env, g, call); }
    if call.CommitReceipt? && g.status == TESTS_PASSED { CommitSeals(env, g, call); }
  }

  /** For every list of calls the evidence is exactly what the calls say: the review is that of the first call, the
      authorization that of a second one which clears an approved review, the snapshot that of a third one. */
  lemma {:induction false} EvidenceOfCalls(env: Env, proposal: PatchProposal, calls: seq<Call>)
    ensures var g, n := Run(env, Proposed(proposal), calls), |calls|;
            && g.review == (if n >= 1 && calls[0].Review? then
                 Some(ReviewResult(proposal.proposalId, calls[0].reviewer, calls[0].approved, calls[0].comments))
               else None)
            && g.authorization == (if n >= 2 && Advances(env, proposal, calls[0], 0)
                                      && Advances(env, proposal, calls[1], 1) then
                 Some(GmiStatus(0, calls[1].evidence.bitId, true, false, true))
               else None)
            && g.applySnapshot == (if n >= 3 && Advances(env, proposal, calls[0], 0)
                                      && Advances(env, proposal, calls[1], 1) && calls[2].Apply? then
                 Some(calls[2].snapshot)
               else None)
  {
    hide Step, Clears, Seals;
    if calls != [] {
      var front, n := calls[..|calls| - 1], |calls| - 1;
      EvidenceOfCalls(env, proposal, front);
      ActingStatus(env, proposal, front);
      FieldsStep(env, Run(env, Proposed(proposal), front), calls[n]);
    }
  }

  lemma SealedFront(env: Env, proposal: PatchProposal, calls: seq<Call>, k: nat)
    requires calls != [] && k < |calls| - 1
    ensures SealedAt(env, proposal, calls, k) <==> SealedAt(env, proposal, calls[..|calls| - 1], k)
  {
    hide Seals, Advances;
    var front := calls[..|calls| - 1];
    assert forall i: nat | i <= k :: front[i] == calls[i];
  }

  lemma NoReceiptYet(env: Env, g: Gate)
    requires Evidence(env, g) && g.status == TESTS_PASSED
    ensures g.receipt.None?
  {
  }

  lemma SealedInRange(env: Env, proposal: PatchProposal, calls: seq<Call>, k: nat)
    ensures SealedAt(env, proposal, calls, k) ==> k < |calls| && calls[k].CommitReceipt?
  {
  }

  lemma SealedLast(env: Env, proposal: PatchProposal, calls: seq<Call>)
    requires calls != []
    ensures var front, n := calls[..|calls| - 1], |calls| - 1;
            SealedAt(env, proposal, calls, n)
            <==> && calls[n].CommitReceipt? && Seals(proposal, calls[n]) && n >= 4 && n % 2 == 0
                 && forall i: nat | i < n :: Advances(env, proposal, front[i], i)
  {
    hide Seals, Advances;
    var front := calls[..|calls| - 1];
    assert forall i: nat | i < |front| :: front[i] == calls[i];
  }

  predicate Carries(receipt: Option<CohBitReceipt>, call: Call)
    requires call.CommitReceipt?
  {
    && receipt.Some? && receipt.value.valuationPre == call.pre && receipt.value.valuationPost == call.post
    && receipt.value.wedge.domainId == call.domainId && receipt.value.wedge.actionHash == call.actionHash
  }

  lemma RunLast(env: Env, g: Gate, calls: seq<Call>)
    requires calls != []
    ensures Run(env, g, calls) == Step(env, Run(env, g, calls[..|calls| - 1]), calls[|calls| - 1])
  {
  }

  lemma SealingStep(env: Env, proposal: PatchProposal, calls: seq<Call>)
    requires calls != []
    ensures var n := |calls| - 1;
            var g, g' := Run(env, Proposed(proposal), calls[..n]), Run(env, Proposed(proposal), calls);
            if SealedAt(env, proposal, calls, n) then
              calls[n].CommitReceipt? && g.receipt.None? && Carries(g'.receipt, calls[n])
            else g'.receipt == g.receipt
  {
    hide Run, Step, Seals, Advances, SealedAt, Evidence;
    var front, n := calls[..|calls| - 1], |calls| - 1;
    var g := Run(env, Proposed(proposal), front);
    RunLast(env, Proposed(proposal), calls);
    ActingStatus(env, proposal, front);
    FieldsStep(env, g, calls[n]);
    SealedLast(env, proposal, calls);
    if SealedAt(env, proposal, calls, n) {
      CommitSeals(env, g, calls[n]);
      ReachableEvidence(env, proposal, front);
      NoReceiptYet(env, g);
    }
  }

  lemma CarriesSome(receipt: Option<CohBitReceipt>, call: Call)
    requires call.CommitReceipt? && Carries(receipt, call)
    ensures receipt.Some?
  {
  }

  /** For every list of calls there is a receipt exactly if some call sealed it, after rounds of passed tests and
      failed commits; and it carries that call's valuations, domain and action. */
  lemma {:induction false} ReceiptOfCalls(env: Env, proposal: PatchProposal, calls: seq<Call>)
    ensures var g := Run(env, Proposed(proposal), calls);
            && (g.receipt.Some? <==> exists k: nat :: SealedAt(env, proposal, calls, k))
            && (forall k: nat | SealedAt(env, proposal, calls, k) ::
                  calls[k].CommitReceipt? && Carries(g.receipt, calls[k]))
  {
    hide Step, Seals, Advances, Carries, SealedAt;
    forall k: nat ensures SealedAt(env, proposal, calls, k) ==> k < |calls| && calls[k].CommitReceipt? {
      SealedInRange(env, proposal, calls, k);
    }
    if calls != [] {
      hide Run;
      var front, n := calls[..|calls| - 1], |calls| - 1;
      ReceiptOfCalls(env, proposal, front);
      SealingStep(env, proposal, calls);
      forall k: nat | k < n ensures SealedAt(env, proposal, calls, k) <==> SealedAt(env, proposal, front, k) {
        SealedFront(env, proposal, calls, k);
      }
      forall k: nat ensures SealedAt(env, proposal, front, k) ==> k < n {
        SealedInRange(env, proposal, front, k);
      }
      if SealedAt(env, proposal, calls, n) {
        CarriesSome(Run(env, Proposed(proposal), calls).receipt, calls[n]);
      }
    }
  }

  /** What the pipeline showed to the authorization gate is what it commits, up to the two states and the envelope,
      which is ten times wider in the end. */
  lemma AuthorizedIsCommitted(env: Env, config: PipelineConfig)
    ensures var g, p, hashes := PipelineRun(env, config), ProvisionalReceipt(config), config.apply.prePatchHashes;
            && (g.status == RECEIPTED ==>
                  && g.receipt.Some?
                  && var r := g.receipt.value;
                     && p.valuationPre == r.valuationPre && p.valuationPost == r.valuationPost
                     && p.wedge == r.wedge.(fromState := p.wedge.fromState, toState := p.wedge.toState,
                                            prescribedEnvelope := p.wedge.prescribedEnvelope)
                     && Value(r.wedge.prescribedEnvelope) == 10.0 * Value(p.wedge.prescribedEnvelope))
            && (hashes != [] ==> p.wedge.fromState == hashes[0].1)
            && (hashes == [] ==> p.wedge.fromState == Zeros(64)) && p.wedge.toState == Zeros(64) && p.bitId == ""
  {
    hide IsAdmissible, HashReceipt, AllPassed;
  }

  // ----- A receipt does not rule out a rollback -----

  /** Somewhere in the calls a test run is followed at once by a rollback. */
  predicate TestsThenRollback(calls: seq<Call>) {
    exists i | 0 < i < |calls| :: calls[i - 1].RunTests? && calls[i].Rollback?
  }

  lemma DeadStep(env: Env, g: Gate, call: Call)
    requires g.status !in LIVE && g.applySnapshot.Some?
    ensures var g' := Step(env, g, call);
            && g'.status !in LIVE && g'.receipt == g.receipt && g'.applySnapshot == g.applySnapshot
            && (g'.status == TESTS_FAILED <==> call.RunTests?)
            && (g'.rollbackApplied <==> g.rollbackApplied || (g.status == TESTS_FAILED && call.Rollback?))
  {
  }

  lemma {:induction false} RolledBackLater(env: Env, g: Gate, calls: seq<Call>)
    requires g.status == RECEIPTED && g.applySnapshot.Some? && !g.rollbackApplied
    ensures Run(env, g, calls).rollbackApplied <==> TestsThenRollback(calls)
    ensures Run(env, g, calls).receipt == g.receipt && Run(env, g, calls).applySnapshot.Some?
    ensures Run(env, g, calls).status !in LIVE
    ensures Run(env, g, calls).status == TESTS_FAILED <==> calls != [] && calls[|calls| - 1].RunTests?
  {
    hide Step;
    if calls != [] {
      var n := |calls| - 1;
      var front := calls[..n];
      RolledBackLater(env, g, front);
      DeadStep(env, Run(env, g, front), calls[n]);
      if TestsThenRollback(front) {
        var i :| 0 < i < |front| && front[i - 1].RunTests? && front[i].Rollback?;
        assert calls[i - 1].RunTests? && calls[i].Rollback?;
      }
      if TestsThenRollback(calls) && !TestsThenRollback(front) {
        var i :| 0 < i < |calls| && calls[i - 1].RunTests? && calls[i].Rollback?;
        assert i == n;
      }
    }
  }

  /** A receipted record keeps its receipt and ends up rolled back as well exactly when a later test call, of any
      outcome, is followed at once by a rollback call. */
  lemma RolledBackAfterReceipt(env: Env, proposal: PatchProposal, calls: seq<Call>, more: seq<Call>)
    ensures var g, g' := Run(env, Proposed(proposal), calls), Run(env, Proposed(proposal), calls + more);
            g.status == RECEIPTED ==>
              g'.receipt == g.receipt && g'.receipt.Some? && (g'.rollbackApplied <==> TestsThenRollback(more))
  {
    hide Step;
    var g := Run(env, Proposed(proposal), calls);
    if g.status == RECEIPTED {
      ReachableEvidence(env, proposal, calls);
      RunAppend(env, Proposed(proposal), calls, more);
      RolledBackLater(env, g, more);
    }
  }
}
