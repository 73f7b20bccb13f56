/**
 * The mutation planner: one decision per record, with every payload that takes
 * part in a contradiction suppressed. No two actionable records contradict.
 */
module ApplyPolicy {
  import opened Orders
  import opened Words
  import opened Facts
  import opened Ledger
  import opened Conflicts
  import opened ConflictScan
  import opened ContradictionScan
  import opened Store
  import opened Worlds

  const AUTOMATIC_PROOF_CONFIDENCE: U16 := 9000
  const CORROBORATED_RUN_CONFIDENCE: U16 := 8000
  const CORROBORATED_RUN_FLOOR: nat := 2
  const FUNCTION_CANDIDATE_STATIC_CONFIDENCE: U16 := 7500

  datatype Policy = Policy(allowFunctionRecovery: bool, allowUnreachableComments: bool)
  datatype Action = NoAction | AddCallReference | AddJumpReference | CreateFunction | CommentProvenUnreachable
  datatype Reason =
    | Actionable | Contradicted | BelowTrustThreshold | DisabledByConfiguration
    | UnsupportedTargetKind | UnsupportedPayloadKind | NonActionableReachability
  datatype Decision = Decision(payload: Payload, action: Action, reason: Reason)
  datatype Plan = Plan(decisions: seq<Decision>, contradictionSuppressed: nat, belowTrustThreshold: nat,
                       disabledByConfiguration: nat)

  predicate StrongProof(e: Evidence) {
    (e.proof.StaticProof? || e.proof.SymbolicProof? || e.proof.UserAsserted?) &&
    e.confidence >= AUTOMATIC_PROOF_CONFIDENCE
  }

  predicate HasStrongProof(r: Record) {
    exists i :: 0 <= i < |r.observations| && StrongProof(r.observations[i])
  }

  function ConfidentRuns(r: Record, confidence: U16): set<U64> {
    set e | e in r.observations && e.confidence >= confidence && e.scope.runId.Some? :: e.scope.runId.value
  }

  function ConfidentProducers(r: Record, confidence: U16): set<Bytes> {
    set e | e in r.observations && e.confidence >= confidence :: e.producer
  }

  /** Distinct explicit runs and producers among sufficiently confident observations. */
  predicate IsCorroborated(r: Record, minimumRuns: nat, minimumProducers: nat, minimumConfidence: U16) {
    && minimumConfidence <= MAX_CONFIDENCE
    && |ConfidentRuns(r, minimumConfidence)| >= minimumRuns
    && |ConfidentProducers(r, minimumConfidence)| >= minimumProducers
  }

  predicate AutomaticallyActionable(r: Record) {
    HasStrongProof(r) || IsCorroborated(r, CORROBORATED_RUN_FLOOR, 1, CORROBORATED_RUN_CONFIDENCE)
  }

  predicate CandidateProof(e: Evidence) {
    e.proof.StaticProof? && e.confidence >= FUNCTION_CANDIDATE_STATIC_CONFIDENCE
  }

  predicate HasCandidateProof(r: Record) {
    exists i :: 0 <= i < |r.observations| && CandidateProof(r.observations[i])
  }

  predicate FunctionCandidateActionable(r: Record) {
    HasCandidateProof(r) || IsCorroborated(r, CORROBORATED_RUN_FLOOR, 1, CORROBORATED_RUN_CONFIDENCE)
  }

  function Classify(r: Record, contradicted: bool, policy: Policy): Decision {
    var p := r.payload;
    if contradicted then Decision(p, NoAction, Contradicted)
    else if p.CodeTarget? then
      if !(p.targetKind.Call? || p.targetKind.Jump? || p.targetKind.TableEntry?) then
        Decision(p, NoAction, UnsupportedTargetKind)
      else if !AutomaticallyActionable(r) then Decision(p, NoAction, BelowTrustThreshold)
      else Decision(p, if p.targetKind.Call? then AddCallReference else AddJumpReference, Actionable)
    else if p.FunctionCandidate? then
      if !policy.allowFunctionRecovery then Decision(p, NoAction, DisabledByConfiguration)
      else if !FunctionCandidateActionable(r) then Decision(p, NoAction, BelowTrustThreshold)
      else Decision(p, CreateFunction, Actionable)
    else if p.BranchReachability? then
      if !p.state.ProvenUnreachable? then Decision(p, NoAction, NonActionableReachability)
      else if !policy.allowUnreachableComments then Decision(p, NoAction, DisabledByConfiguration)
      else if !AutomaticallyActionable(r) then Decision(p, NoAction, BelowTrustThreshold)
      else Decision(p, CommentProvenUnreachable, Actionable)
    else Decision(p, NoAction, UnsupportedPayloadKind)
  }

  /** Acting requires the trust level of the payload's kind, and nothing else acts. */
  lemma {:induction false} ActionNeedsTrust(r: Record, contradicted: bool, policy: Policy)
    ensures var d := Classify(r, contradicted, policy);
            && (d.action.NoAction? <==> !d.reason.Actionable?)
            && (d.reason.Actionable? ==>
                  !contradicted &&
                  if r.payload.FunctionCandidate?
                  then FunctionCandidateActionable(r) && policy.allowFunctionRecovery
                  else AutomaticallyActionable(r) &&
                       (r.payload.BranchReachability? ==>
                          policy.allowUnreachableComments && r.payload.state.ProvenUnreachable?))
  {
    hide AutomaticallyActionable, FunctionCandidateActionable;
  }

  // ---- what every decision must be ----------------------------------------------------------------------

  /** What acting on a payload means. */
  function ActionOf(p: Payload): Action {
    match p
    case CodeTarget(_, _, Call, _) => AddCallReference
    case CodeTarget(_, _, Jump, _) => AddJumpReference
    case CodeTarget(_, _, TableEntry, _) => AddJumpReference
    case FunctionCandidate(_, _, _) => CreateFunction
    case BranchReachability(_, _, ProvenUnreachable) => CommentProvenUnreachable
    case _ => NoAction
  }

  /** The configuration switch a payload's action has, if any, is on. */
  predicate Enabled(p: Payload, policy: Policy) {
    (p.FunctionCandidate? ==> policy.allowFunctionRecovery) &&
    (p.BranchReachability? ==> policy.allowUnreachableComments)
  }

  /** Two different explicit runs observed it with a confidence of at least 8000. */
  ghost predicate SeenTwice(r: Record) {
    exists e, f :: e in r.observations && f in r.observations && e.confidence >= 8000 && f.confidence >= 8000 &&
      e.scope.runId.Some? && f.scope.runId.Some? && e.scope.runId != f.scope.runId
  }

  /** A static or symbolic proof or the user asserts it with a confidence of at least 9000. */
  ghost predicate Proved(r: Record) {
    exists e :: e in r.observations && e.proof in {StaticProof, SymbolicProof, UserAsserted} && e.confidence >= 9000
  }

  /** A static proof with a confidence of at least 7500, which is enough for a function. */
  ghost predicate CandidateProved(r: Record) {
    exists e :: e in r.observations && e.proof == StaticProof && e.confidence >= 7500
  }

  ghost predicate Trusted(r: Record) {
    SeenTwice(r) || if r.payload.FunctionCandidate? then CandidateProved(r) else Proved(r)
  }

  ghost predicate RightDecision(r: Record, contradicted: bool, policy: Policy, d: Decision) {
    var p := r.payload;
    var supported := !ActionOf(p).NoAction?;
    && d.payload == p
    && d.action == (if d.reason.Actionable? then ActionOf(p) else NoAction)
    && (d.reason == Actionable <==> !contradicted && supported && Enabled(p, policy) && Trusted(r))
    && (d.reason == Contradicted <==> contradicted)
    && (d.reason == DisabledByConfiguration <==> !contradicted && supported && !Enabled(p, policy))
    && (d.reason == BelowTrustThreshold <==> !contradicted && supported && Enabled(p, policy) && !Trusted(r))
    && (d.reason == UnsupportedTargetKind <==> !contradicted && !supported && p.CodeTarget?)
    && (d.reason == NonActionableReachability <==> !contradicted && !supported && p.BranchReachability?)
  }

  lemma {:induction false} TwoOfMany<T>(s: set<T>)
    ensures |s| >= 2 <==> exists x, y :: x in s && y in s && x != y
  {
    if |s| >= 2 {
      var x :| x in s;
      var rest := s - {x};
      assert |rest| == |s| - 1;
      var y :| y in rest;
      assert y in s && x != y;
    }
    if x, y :| x in s && y in s && x != y {
      assert {x, y} <= s;
      SubsetSize({x, y}, s);
    }
  }

  lemma {:induction false} SubsetSize<T>(a: set<T>, b: set<T>)
    requires a <= b
    ensures |a| <= |b|
  {
    if a != {} {
      var x :| x in a;
      SubsetSize(a - {x}, b - {x});
    }
  }

  /** An observation of the run is confident enough. */
  ghost predicate SeenBy(r: Record, e: Evidence, run: U64) {
    e in r.observations && e.confidence >= 8000 && e.scope.runId == Some(run)
  }

  lemma {:induction false} RunsSeen(r: Record, run: U64) returns (e: Evidence)
    requires run in ConfidentRuns(r, 8000)
    ensures SeenBy(r, e, run)
  {
    e :| e in r.observations && e.confidence >= 8000 && e.scope.runId.Some? && e.scope.runId.value == run;
  }

  lemma {:induction false} SeenRuns(r: Record, e: Evidence, run: U64)
    requires SeenBy(r, e, run)
    ensures run in ConfidentRuns(r, 8000) && e.producer in ConfidentProducers(r, 8000)
  {
    assert e.scope.runId.value == run;
  }

  /** Counting distinct runs and producers of confident observations is finding two runs. */
  lemma {:induction false} CorroboratedExactly(r: Record)
    ensures IsCorroborated(r, CORROBORATED_RUN_FLOOR, 1, CORROBORATED_RUN_CONFIDENCE) <==> SeenTwice(r)
  {
    hide ConfidentRuns, ConfidentProducers, SeenTwice;
    TwoOfMany(ConfidentRuns(r, 8000));
    if x, y :| x in ConfidentRuns(r, 8000) && y in ConfidentRuns(r, 8000) && x != y {
      var e := RunsSeen(r, x);
      var f := RunsSeen(r, y);
      SeenRuns(r, e, x);
      SeenApart(r, e, f, x, y);
    }
    if SeenTwice(r) {
      var e, f := TwoSeen(r);
      SeenRuns(r, e, e.scope.runId.value);
      SeenRuns(r, f, f.scope.runId.value);
    }
  }

  lemma {:induction false} SeenApart(r: Record, e: Evidence, f: Evidence, x: U64, y: U64)
    requires SeenBy(r, e, x) && SeenBy(r, f, y) && x != y
    ensures SeenTwice(r)
  {
  }

  lemma {:induction false} TwoSeen(r: Record) returns (e: Evidence, f: Evidence)
    requires SeenTwice(r)
    ensures e.scope.runId.Some? && f.scope.runId.Some? && e.scope.runId.value != f.scope.runId.value
    ensures SeenBy(r, e, e.scope.runId.value) && SeenBy(r, f, f.scope.runId.value)
  {
    e, f :| e in r.observations && f in r.observations && e.confidence >= 8000 && f.confidence >= 8000 &&
      e.scope.runId.Some? && f.scope.runId.Some? && e.scope.runId != f.scope.runId;
  }

  lemma {:induction false} ProofsExactly(r: Record)
    ensures HasStrongProof(r) <==> Proved(r)
    ensures CandidateProved(r) <==> HasCandidateProof(r)
  {
    if i :| 0 <= i < |r.observations| && StrongProof(r.observations[i]) {
      assert r.observations[i] in r.observations;
    }
    if i :| 0 <= i < |r.observations| && CandidateProof(r.observations[i]) {
      assert r.observations[i] in r.observations;
    }
    if e :| e in r.observations && e.proof in {StaticProof, SymbolicProof, UserAsserted} && e.confidence >= 9000 {
      var i :| 0 <= i < |r.observations| && r.observations[i] == e;
      assert StrongProof(r.observations[i]);
    }
    if e :| e in r.observations && e.proof == StaticProof && e.confidence >= 7500 {
      var i :| 0 <= i < |r.observations| && r.observations[i] == e;
      assert CandidateProof(r.observations[i]);
    }
  }

  /** The classification is right: acting, and each reason not to, exactly when it should be. */
  lemma {:induction false} ClassifyExactly(r: Record, contradicted: bool, policy: Policy)
    ensures RightDecision(r, contradicted, policy, Classify(r, contradicted, policy))
  {
    CorroboratedExactly(r);
    ProofsExactly(r);
    hide IsCorroborated, HasStrongProof, Proved, CandidateProved, HasCandidateProof, SeenTwice;
  }

  function CountReason(decisions: seq<Decision>, reason: Reason): nat {
    if decisions == [] then 0
    else
      CountReason(decisions[..|decisions| - 1], reason) +
      if decisions[|decisions| - 1].reason == reason then 1 else 0
  }

  ghost function Suppressed(sha: Bytes -> Digest, l: seq<Entry>, i: nat): bool
    requires i < |l|
  {
    sha(l[i].key) in ContradictedInReport(RankedRecords(sha, l))
  }

  /** A record the plan does not suppress contradicts no other record. */
  lemma {:induction false} UnsuppressedAgree(sha: Bytes -> Digest, l: seq<Entry>, i: nat, j: nat)
    requires i < j < |l| && !(Suppressed(sha, l, i) && Suppressed(sha, l, j))
    ensures !Contradicts(l[i].record.payload, l[j].record.payload)
  {
    hide Contradicts, ContradictedInReport, AllConflicts;
    var ordered := RankedRecords(sha, l);
    if ContradictAt(ordered, i, j) {
      PairParticipates(ordered, i, j);
    }
  }

  function DecisionFor(sha: Bytes -> Digest, r: Entry, contradicted: set<Digest>, policy: Policy): Decision {
    Classify(r.record, sha(r.key) in contradicted, policy)
  }

  lemma {:induction false} ActionableAgree(sha: Bytes -> Digest, l: seq<Entry>, policy: Policy, i: nat, j: nat)
    requires i < j < |l|
    requires var contradicted := ContradictedInReport(RankedRecords(sha, l));
             DecisionFor(sha, l[i], contradicted, policy).reason.Actionable? ||
             DecisionFor(sha, l[j], contradicted, policy).reason.Actionable?
    ensures !Contradicts(l[i].record.payload, l[j].record.payload)
  {
    hide Contradicts, ContradictedInReport, AutomaticallyActionable, FunctionCandidateActionable;
    UnsuppressedAgree(sha, l, i, j);
  }

  function Account(plan: Plan, d: Decision): Plan {
    Plan(plan.decisions + [d],
         plan.contradictionSuppressed + (if d.reason == Contradicted then 1 else 0),
         plan.belowTrustThreshold + (if d.reason == BelowTrustThreshold then 1 else 0),
         plan.disabledByConfiguration + (if d.reason == DisabledByConfiguration then 1 else 0))
  }

  ghost predicate Accounted(plan: Plan) {
    && plan.contradictionSuppressed == CountReason(plan.decisions, Contradicted)
    && plan.belowTrustThreshold == CountReason(plan.decisions, BelowTrustThreshold)
    && plan.disabledByConfiguration == CountReason(plan.decisions, DisabledByConfiguration)
  }

  lemma {:induction false} AccountKeeps(plan: Plan, d: Decision)
    requires Accounted(plan)
    ensures Accounted(Account(plan, d))
  {
    assert (plan.decisions + [d])[..|plan.decisions|] == plan.decisions;
  }

  /** A decision to act contradicts no record of the ledger. */
  ghost predicate ContradictionFree(l: seq<Entry>, plan: Plan) {
    |plan.decisions| == |l| &&
    forall i, j :: 0 <= i < |l| && 0 <= j < |l| && i != j && plan.decisions[i].reason.Actionable? ==> Agree(l, i, j)
  }

  /** Compared in canonical order, the two records do not contradict each other. */
  ghost predicate Agree(l: seq<Entry>, i: nat, j: nat)
    requires i < |l| && j < |l|
  {
    if i < j then !Contradicts(l[i].record.payload, l[j].record.payload)
    else !Contradicts(l[j].record.payload, l[i].record.payload)
  }

  // ---- which records are suppressed -------------------------------------------------------------------------

  /** The record, or one with the same digest, contradicts another record. */
  ghost predicate Clashes(sha: Bytes -> Digest, l: seq<Entry>, i: nat)
    requires i < |l|
  {
    exists k, j :: 0 <= k < |l| && 0 <= j < |l| && k != j && sha(l[k].key) == sha(l[i].key) && !Agree(l, k, j)
  }

  lemma {:induction false} SuppressedExactly(sha: Bytes -> Digest, l: seq<Entry>, i: nat)
    requires i < |l|
    ensures Suppressed(sha, l, i) <==> Clashes(sha, l, i)
  {
    hide Contradicts, AllConflicts;
    var ordered := RankedRecords(sha, l);
    ParticipantsAreReported(ordered);
    hide ContradictedInReport;
    if Suppressed(sha, l, i) {
      var k :| k in Participants(ordered) && ordered[k].id == sha(l[i].key);
      var j: nat :| ContradictAt(ordered, k, j) || ContradictAt(ordered, j, k);
      assert !Agree(l, k, j);
    }
    if Clashes(sha, l, i) {
      var k, j :| 0 <= k < |l| && 0 <= j < |l| && k != j && sha(l[k].key) == sha(l[i].key) && !Agree(l, k, j);
      assert ContradictAt(ordered, k, j) || ContradictAt(ordered, j, k);
      assert k in Participants(ordered);
    }
  }

  /** Every decision is the right one for its record. */
  ghost predicate RightPlan(sha: Bytes -> Digest, l: seq<Entry>, policy: Policy, plan: Plan) {
    |plan.decisions| == |l| &&
    forall i :: 0 <= i < |l| ==> RightDecision(l[i].record, Clashes(sha, l, i), policy, plan.decisions[i])
  }

  lemma {:induction false} ClassifiedRight(sha: Bytes -> Digest, l: seq<Entry>, policy: Policy, plan: Plan)
    requires |plan.decisions| == |l|
    requires forall k :: 0 <= k < |l| ==>
               plan.decisions[k] == DecisionFor(sha, l[k], ContradictedInReport(RankedRecords(sha, l)), policy)
    ensures RightPlan(sha, l, policy, plan)
  {
    hide RightDecision, Classify, ContradictedInReport, RankedRecords, Clashes;
    forall i | 0 <= i < |l| ensures RightDecision(l[i].record, Clashes(sha, l, i), policy, plan.decisions[i]) {
      SuppressedExactly(sha, l, i);
      ClassifyExactly(l[i].record, Clashes(sha, l, i), policy);
    }
  }

  /** The payloads a plan acts on. */
  ghost function ActedOn(plan: Plan): set<Payload> {
    set d | d in plan.decisions && d.reason.Actionable? :: d.payload
  }

  /** Some world makes every payload a plan acts on true. */
  lemma {:induction false} ActionsSatisfiable(sha: Bytes -> Digest, l: seq<Entry>, policy: Policy, plan: Plan)
    requires ValidLedger(l) && RightPlan(sha, l, policy, plan) && ContradictionFree(l, plan)
    ensures Satisfiable(ActedOn(plan))
  {
    hide Contradicts, ValidPayload, Clashes, Satisfiable, KeysAscend;
    forall p | p in ActedOn(plan) ensures exists i :: 0 <= i < |l| && Acts(l, plan, i, p) {
      var d :| d in plan.decisions && d.reason.Actionable? && d.payload == p;
      var i :| 0 <= i < |plan.decisions| && plan.decisions[i] == d;
      assert Acts(l, plan, i, p);
    }
    hide RightPlan, ActedOn;
    forall p | p in ActedOn(plan) ensures ValidPayload(p) {
      var i :| 0 <= i < |l| && Acts(l, plan, i, p);
      assert ValidEntry(l[i]);
    }
    forall p, q | p in ActedOn(plan) && q in ActedOn(plan) ensures !Contradicts(p, q) {
      var i :| 0 <= i < |l| && Acts(l, plan, i, p);
      var j :| 0 <= j < |l| && Acts(l, plan, j, q);
      if i == j {
        NeverItself(p);
      } else {
        assert Agree(l, i, j);
        ContradictionExactly(p, q);
      }
    }
    SatisfiableExactly(ActedOn(plan));
  }

  ghost predicate Acts(l: seq<Entry>, plan: Plan, i: nat, p: Payload) {
    i < |l| && i < |plan.decisions| && plan.decisions[i].reason.Actionable? && l[i].record.payload == p
  }

  /** One decision per record in canonical order, correctly counted, and no two actions that contradict. */
  method PlanApplication(store: EvidenceStore, policy: Policy) returns (plan: Plan)
    requires store.Valid()
    ensures |plan.decisions| == |store.records| && Accounted(plan)
    ensures forall i :: 0 <= i < |store.records| ==>
              plan.decisions[i] == DecisionFor(store.sha, store.records[i],
                ContradictedInReport(RankedRecords(store.sha, store.records)), policy)
    ensures ContradictionFree(store.records, plan) && RightPlan(store.sha, store.records, policy, plan)
    ensures Satisfiable(ActedOn(plan))
  {
    hide DecisionFor, ContradictedInReport, Ids, Participants, Accounted, ContradictionFree, RightPlan, Satisfiable;
    var contradicted := store.ContradictedPayloads();
    plan := Plan([], 0, 0, 0);
    assert Accounted(plan) by { EmptyAccounted(); }
    for i := 0 to |store.records|
      invariant |plan.decisions| == i && Accounted(plan)
      invariant forall k :: 0 <= k < i ==>
                  plan.decisions[k] == DecisionFor(store.sha, store.records[k], contradicted, policy)
    {
      var decision := DecisionFor(store.sha, store.records[i], contradicted, policy);
      AccountKeeps(plan, decision);
      plan := Account(plan, decision);
    }
    ClassifiedAgree(store.sha, store.records, policy, plan);
    ClassifiedRight(store.sha, store.records, policy, plan);
    ActionsSatisfiable(store.sha, store.records, policy, plan);
  }

  lemma {:induction false} ClassifiedAgree(sha: Bytes -> Digest, l: seq<Entry>, policy: Policy, plan: Plan)
    requires |plan.decisions| == |l|
    requires forall k :: 0 <= k < |l| ==>
               plan.decisions[k] == DecisionFor(sha, l[k], ContradictedInReport(RankedRecords(sha, l)), policy)
    ensures ContradictionFree(l, plan)
  {
    hide DecisionFor, ContradictedInReport, RankedRecords, Agree;
    forall i: nat, j: nat | i < |l| && j < |l| && i != j && plan.decisions[i].reason.Actionable?
      ensures Agree(l, i, j)
    {
      PlanIsContradictionFree(sha, l, policy, plan, i, j);
    }
  }

  lemma {:induction false} EmptyAccounted()
    ensures Accounted(Plan([], 0, 0, 0))
  {
  }

  /** In any plan, a record marked actionable contradicts no record of the store. */
  lemma {:induction false} PlanIsContradictionFree(sha: Bytes -> Digest, l: seq<Entry>, policy: Policy, plan: Plan,
                                                   i: nat, j: nat)
    requires i < |l| && j < |l| && i != j && |plan.decisions| == |l|
    requires forall k :: 0 <= k < |l| ==>
               plan.decisions[k] == DecisionFor(sha, l[k], ContradictedInReport(RankedRecords(sha, l)), policy)
    requires plan.decisions[i].reason.Actionable?
    ensures Agree(l, i, j)
    ensures plan.decisions[i].payload == l[i].record.payload
  {
    hide Contradicts, ContradictedInReport, AutomaticallyActionable, FunctionCandidateActionable;
    assert plan.decisions[i].payload == l[i].record.payload;
    if i < j {
      ActionableAgree(sha, l, policy, i, j);
    } else {
      ActionableAgree(sha, l, policy, j, i);
    }
  }
}
