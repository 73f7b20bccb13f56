/**
 * The pairwise conflict relation between payloads, the order in which
 * conflicts are reported, and the subjects on which two payloads can compete.
 */
module Conflicts {
  import opened Orders
  import opened Words
  import opened Facts
  import EnumCodes

  /** A SHA-256 identity; the hash itself is a parameter wherever one is computed. */
  type Digest = b: Bytes | |b| == 32 witness seq(32, i => 0)

  datatype Severity = Variation | Ambiguity | Contradiction

  datatype ConflictType =
    | ReachableAndUnreachable | DivergentMemoryValue | DivergentStringCandidate
    | DivergentFunctionCandidate | DivergentFunctionTrait | ReturnBehaviorContradiction
    | IncompatibleCodeRegion | DivergentDispatchCase | DivergentCfgReachability
    | DivergentFunctionOutcome | ConflictingUniqueCodeTarget | DivergentRegisterValue
    | DivergentCallObservation

  datatype Conflict = Conflict(
    kind: ConflictType, severity: Severity, left: Digest, right: Digest,
    subject: Address, secondary: Option<Address>, explanation: Bytes)

  /** A conflict before the identities of its two payloads are attached. */
  datatype Issue = Issue(
    kind: ConflictType, severity: Severity,
    subject: Address, secondary: Option<Address>, explanation: Bytes)

  /** Attach the two identities, smaller first. */
  function Seal(i: Issue, left: Digest, right: Digest): Conflict {
    if BytesLess(right, left)
    then Conflict(i.kind, i.severity, right, left, i.subject, i.secondary, i.explanation)
    else Conflict(i.kind, i.severity, left, right, i.subject, i.secondary, i.explanation)
  }

  lemma {:induction false} SealSymmetric(i: Issue, left: Digest, right: Digest)
    ensures Seal(i, left, right) == Seal(i, right, left)
  {
    hide BytesLess;
    BytesLessTotal();
  }

  // ---- the reporting order ----------------------------------------------------

  function TypeRank(t: ConflictType): nat {
    match t
    case ReachableAndUnreachable => 1
    case DivergentMemoryValue => 2
    case DivergentStringCandidate => 3
    case DivergentFunctionCandidate => 4
    case DivergentFunctionTrait => 5
    case ReturnBehaviorContradiction => 6
    case IncompatibleCodeRegion => 7
    case DivergentDispatchCase => 8
    case DivergentCfgReachability => 9
    case DivergentFunctionOutcome => 10
    case ConflictingUniqueCodeTarget => 11
    case DivergentRegisterValue => 12
    case DivergentCallObservation => 13
  }

  function SeverityRank(s: Severity): nat {
    match s case Variation => 1 case Ambiguity => 2 case Contradiction => 3
  }

  /** Lexicographic on type, severity, subject, second subject, identities, text. */
  predicate ConflictLess(a: Conflict, b: Conflict) {
    if TypeRank(a.kind) != TypeRank(b.kind) then TypeRank(a.kind) < TypeRank(b.kind)
    else if SeverityRank(a.severity) != SeverityRank(b.severity) then
      SeverityRank(a.severity) < SeverityRank(b.severity)
    else if a.subject != b.subject then a.subject < b.subject
    else if a.secondary != b.secondary then OptionLess(a.secondary, b.secondary)
    else if a.left != b.left then BytesLess(a.left, b.left)
    else if a.right != b.right then BytesLess(a.right, b.right)
    else BytesLess(a.explanation, b.explanation)
  }

  lemma {:induction false} RanksInjective()
    ensures forall a, b :: TypeRank(a) == TypeRank(b) ==> a == b
    ensures forall a, b :: SeverityRank(a) == SeverityRank(b) ==> a == b
  {
  }

  lemma {:induction false} ConflictLessTotal()
    ensures StrictTotal(ConflictLess)
  {
    BytesLessTotal();
    RanksInjective();
    hide BytesLess, TypeRank, SeverityRank;
  }

  /** The types in the order of their declaration. */
  const TYPES: seq<ConflictType> := [
    ReachableAndUnreachable, DivergentMemoryValue, DivergentStringCandidate, DivergentFunctionCandidate,
    DivergentFunctionTrait, ReturnBehaviorContradiction, IncompatibleCodeRegion, DivergentDispatchCase,
    DivergentCfgReachability, DivergentFunctionOutcome, ConflictingUniqueCodeTarget, DivergentRegisterValue,
    DivergentCallObservation]

  /** The reporting order sorts by type as declared, then by severity, the mildest first. */
  lemma {:induction false} TypesInOrder(a: Conflict, b: Conflict, i: nat, j: nat)
    requires i < |TYPES| && j < |TYPES| && a.kind == TYPES[i] && b.kind == TYPES[j]
    ensures i < j ==> ConflictLess(a, b)
    ensures a.kind == b.kind && a.severity == Variation && b.severity == Ambiguity ==> ConflictLess(a, b)
    ensures a.kind == b.kind && a.severity == Ambiguity && b.severity == Contradiction ==> ConflictLess(a, b)
  {
    hide BytesLess;
  }

  /** Within one type and severity it sorts by subject, second subject with none first, and the two identities. */
  lemma {:induction false} SubjectsInOrder(a: Conflict, b: Conflict)
    requires a.kind == b.kind && a.severity == b.severity
    ensures a.subject < b.subject ==> ConflictLess(a, b)
    ensures a.subject == b.subject && b.secondary.Some? && a.secondary.None? ==> ConflictLess(a, b)
    ensures a.subject == b.subject && b.secondary.Some? && a.secondary.Some? ==>
              (a.secondary.value < b.secondary.value ==> ConflictLess(a, b))
    ensures a.subject == b.subject && a.secondary == b.secondary && BytesLess(a.left, b.left) ==> ConflictLess(a, b)
    ensures a.subject == b.subject && a.secondary == b.secondary && a.left == b.left && BytesLess(a.right, b.right) ==>
              ConflictLess(a, b)
  {
    BytesLessTotal();
    hide BytesLess;
  }

  // ---- explanations -----------------------------------------------------------

  function HexDigits(n: nat): Bytes {
    var digit := n % 16;
    var last := if digit < 10 then 0x30 + digit else 0x57 + digit;
    (if n < 16 then [] else HexDigits(n / 16)) + [last]
  }

  function At(text: string, address: Address): Bytes {
    Ascii(text) + Ascii("0x") + HexDigits(address)
  }

  // ---- the pairwise relation ----------------------------------------------------

  predicate OppositeReachability(a: Reachability, b: Reachability) {
    (a.Reached? && b.ProvenUnreachable?) || (b.Reached? && a.ProvenUnreachable?)
  }

  predicate RegionKindsIncompatible(a: CodeRegionKind, b: CodeRegionKind) {
    (a.Code? && (b.Data? || b.Padding?)) || (b.Code? && (a.Data? || a.Padding?))
  }

  predicate IsReturnTrait(t: FunctionTraitKind) { t.Returns? || t.NoReturn? }

  /** std::lower_bound for (ordinal, location), then the exact match there. */
  function FindCallValue(values: seq<CallValue>, ordinal: U32, location: Bytes): Option<CallValue> {
    if values == [] then None
    else if values[0].ordinal < ordinal ||
            (values[0].ordinal == ordinal && BytesLess(values[0].location, location)) then
      FindCallValue(values[1..], ordinal, location)
    else if values[0].ordinal != ordinal || values[0].location != location then None
    else Some(values[0])
  }

  predicate CallValuesDiffer(left: seq<CallValue>, right: seq<CallValue>) {
    exists i :: 0 <= i < |left| &&
      var other := FindCallValue(right, left[i].ordinal, left[i].location);
      other.Some? && other.value.bytes != left[i].bytes
  }

  function Targets(m: Payload): set<Address>
    requires m.DispatchMap?
  {
    (set c | c in m.cases :: c.target) +
    (if m.defaultTarget.Some? then {m.defaultTarget.value} else {})
  }

  /** The target of the first case with this selector. */
  function FirstTarget(cases: seq<DispatchCase>, selector: Option<U64>): Option<Address> {
    if cases == [] then None
    else if cases[0].selector == selector then Some(cases[0].target)
    else FirstTarget(cases[1..], selector)
  }

  function MapSeverity(left: Payload, right: Payload): Severity
    requires left.DispatchMap? && right.DispatchMap?
  {
    if left.complete || right.complete then Contradiction else Ambiguity
  }

  predicate CompetingCase(c: DispatchCase, right: Payload)
    requires right.DispatchMap?
  {
    c.selector.Some? &&
    var other := FirstTarget(right.cases, c.selector);
    other.Some? && other.value != c.target
  }

  predicate CompetingDefaults(left: Payload, right: Payload)
    requires left.DispatchMap? && right.DispatchMap?
  {
    left.defaultTarget.Some? && right.defaultTarget.Some? && left.defaultTarget != right.defaultTarget
  }

  function CaseIssue(left: Payload, right: Payload, secondary: Option<Address>): Issue
    requires left.DispatchMap? && right.DispatchMap?
  {
    Issue(DivergentDispatchCase, MapSeverity(left, right), left.site, secondary,
          At("dispatch selector maps to competing targets at ", left.site))
  }

  function DefaultIssue(left: Payload, right: Payload): Issue
    requires left.DispatchMap? && right.DispatchMap?
  {
    Issue(DivergentDispatchCase, MapSeverity(left, right), left.site, None,
          At("dispatch maps have competing default targets at ", left.site))
  }

  function AbsentIssue(site: Address, target: Address): Issue {
    Issue(DivergentDispatchCase, Contradiction, site, Some(target),
          At("observed dispatch target is absent from a complete map at ", site))
  }

  /** Targets of `observed` missing from `whole` when `whole` claims to be complete. */
  function AbsentIssues(whole: Payload, observed: Payload, site: Address): set<Issue>
    requires whole.DispatchMap? && observed.DispatchMap?
  {
    if whole.complete then set t | t in Targets(observed) - Targets(whole) :: AbsentIssue(site, t) else {}
  }

  function DispatchIssues(left: Payload, right: Payload): set<Issue>
    requires left.DispatchMap? && right.DispatchMap?
  {
    if left.site != right.site then {}
    else
      (set c | c in left.cases && CompetingCase(c, right) :: CaseIssue(left, right, c.selector)) +
      (if CompetingDefaults(left, right) then {DefaultIssue(left, right)} else {}) +
      AbsentIssues(left, right, left.site) + AbsentIssues(right, left, left.site)
  }

  function FunctionIssues(left: Payload, right: Payload): set<Issue>
    requires left.FunctionTrait? || left.FunctionOutcome?
    requires right.FunctionTrait? || right.FunctionOutcome?
  {
    if left.func != right.func then {}
    else if left.FunctionTrait? && right.FunctionTrait? then
      if IsReturnTrait(left.trait_) && IsReturnTrait(right.trait_) && left.trait_ != right.trait_ then
        {Issue(ReturnBehaviorContradiction, Contradiction, left.func, None,
               At("function is asserted both returning and no-return at ", left.func))}
      else if left.trait_ != right.trait_ || left.trait_.ArgumentRegister? || left.trait_.OtherTrait? then {}
      else
        {Issue(DivergentFunctionTrait,
               if left.trait_.StackDelta? || left.trait_.ReturnConstant? then Variation else Ambiguity,
               left.func, None, At("function trait has competing values at ", left.func))}
    else if left.FunctionOutcome? && right.FunctionOutcome? then
      if left.stop != right.stop || left.stopPc != right.stopPc || left.stackDelta != right.stackDelta
         || left.instructionCount != right.instructionCount then
        {Issue(DivergentFunctionOutcome, Variation, left.func, None,
               At("function outcomes vary across observations at ", left.func))}
      else {}
    else if left.FunctionTrait? then TraitOutcomeIssues(left, right)
    else TraitOutcomeIssues(right, left)
  }

  function TraitOutcomeIssues(asserted: Payload, outcome: Payload): set<Issue>
    requires asserted.FunctionTrait? && outcome.FunctionOutcome?
  {
    if asserted.trait_.NoReturn? && outcome.stop.Returned? then
      {Issue(ReturnBehaviorContradiction, Contradiction, asserted.func, None,
             At("a concrete return contradicts a no-return trait at ", asserted.func))}
    else {}
  }

  function EdgeFrom(p: Payload): Address
    requires p.BranchReachability? || p.CfgCandidate?
  {
    if p.BranchReachability? then p.branch else p.from
  }

  function EdgeTo(p: Payload): Address
    requires p.BranchReachability? || p.CfgCandidate?
  {
    if p.BranchReachability? then p.successor else p.to
  }

  /** What opposite claims about one edge are reported as. */
  function EdgeIssue(left: Payload, right: Payload): (i: Issue)
    requires left.BranchReachability? || left.CfgCandidate?
    ensures i.severity.Contradiction?
  {
    var kind := if left.BranchReachability? || right.BranchReachability? then ReachableAndUnreachable
                else DivergentCfgReachability;
    var text := if left.BranchReachability? && right.BranchReachability? then
                  "the same branch edge is both reached and proven unreachable"
                else if left.BranchReachability? then "branch and CFG evidence disagree on edge reachability"
                else if right.BranchReachability? then "CFG and branch evidence disagree on edge reachability"
                else "the same CFG edge is both reached and proven unreachable";
    Issue(kind, Contradiction, EdgeFrom(left), Some(EdgeTo(left)), Ascii(text))
  }

  function EdgeIssues(left: Payload, right: Payload): set<Issue>
    requires left.BranchReachability? || left.CfgCandidate?
    requires right.BranchReachability? || right.CfgCandidate?
  {
    if EdgeFrom(left) == EdgeFrom(right) && EdgeTo(left) == EdgeTo(right) &&
       OppositeReachability(left.state, right.state)
    then {EdgeIssue(left, right)} else {}
  }

  function Max(a: Address, b: Address): Address { if a < b then b else a }
  function Min(a: Address, b: Address): Address { if b < a then b else a }

  predicate RegionsOverlap(left: Payload, right: Payload)
    requires left.CodeRegion? && right.CodeRegion?
  {
    Max(left.start, right.start) < Min(left.end, right.end)
  }

  function RegionIssues(left: Payload, right: Payload): set<Issue>
    requires left.CodeRegion? && right.CodeRegion?
  {
    if RegionsOverlap(left, right) && RegionKindsIncompatible(left.regionKind, right.regionKind) then
      {Issue(IncompatibleCodeRegion, Contradiction,
             Max(left.start, right.start), Some(Min(left.end, right.end)),
             Ascii("overlapping regions classify bytes as both code and non-code"))}
    else {}
  }

  predicate CallKindsDiffer(left: Payload, right: Payload)
    requires left.CallObservation? && right.CallObservation?
  {
    !left.callKind.UnknownCall? && !right.callKind.UnknownCall? && left.callKind != right.callKind
  }

  /** Target, kind, result, an argument or a returned value is known to both and differs. */
  predicate CallsDiffer(left: Payload, right: Payload)
    requires left.CallObservation? && right.CallObservation?
  {
    || (left.callTarget.Some? && right.callTarget.Some? && left.callTarget != right.callTarget)
    || CallKindsDiffer(left, right)
    || (!left.callResult.UnknownResult? && !right.callResult.UnknownResult? && left.callResult != right.callResult)
    || CallValuesDiffer(left.arguments, right.arguments) || CallValuesDiffer(left.returns_, right.returns_)
  }

  function CallIssues(left: Payload, right: Payload): set<Issue>
    requires left.CallObservation? && right.CallObservation?
  {
    if left.source == right.source && CallsDiffer(left, right) then
      {Issue(DivergentCallObservation, if CallKindsDiffer(left, right) then Ambiguity else Variation, left.source, None,
             At("call target, ABI values, or outcome varies at ", left.source))}
    else {}
  }

  function ValueIssues(left: Payload, right: Payload): set<Issue> {
    if left.CodeTarget? && right.CodeTarget? then
      if left.from == right.from && left.targetKind == right.targetKind && left.target != right.target
         && (left.unique || right.unique) then
        {Issue(ConflictingUniqueCodeTarget, Contradiction, left.from, None,
               At("sole-target assertions disagree at ", left.from))}
      else {}
    else if left.MemoryValue? && right.MemoryValue? then
      if left.instruction == right.instruction && left.address == right.address
         && left.access == right.access && left.bytes != right.bytes then
        {Issue(DivergentMemoryValue, Variation, left.address, Some(left.instruction),
               At("memory value varies at ", left.address))}
      else {}
    else if left.StringCandidate? && right.StringCandidate? then
      if left.address == right.address
         && (left.encoding != right.encoding || left.bytes != right.bytes || left.decoded != right.decoded
             || left.nullTerminated != right.nullTerminated) then
        {Issue(DivergentStringCandidate, Ambiguity, left.address, None,
               At("competing string interpretations begin at ", left.address))}
      else {}
    else if left.FunctionCandidate? && right.FunctionCandidate? then
      if left.entry == right.entry && left.candidateEnd.Some? && right.candidateEnd.Some?
         && left.candidateEnd != right.candidateEnd then
        {Issue(DivergentFunctionCandidate, Ambiguity, left.entry, None,
               At("function candidates disagree on the end of ", left.entry))}
      else {}
    else if left.RegisterValue? && right.RegisterValue? then
      if left.instruction == right.instruction && left.point == right.point
         && left.registerId == right.registerId && left.bytes != right.bytes then
        {Issue(DivergentRegisterValue, Variation, left.instruction, None,
               At("register value varies at ", left.instruction) + Ascii(" for ") + left.registerId)}
      else {}
    else {}
  }

  /** Everything the pairwise comparison reports about two payloads, in this order. */
  function Issues(left: Payload, right: Payload): set<Issue> {
    if (left.BranchReachability? || left.CfgCandidate?) && (right.BranchReachability? || right.CfgCandidate?) then
      EdgeIssues(left, right)
    else if (left.FunctionTrait? || left.FunctionOutcome?) && (right.FunctionTrait? || right.FunctionOutcome?) then
      FunctionIssues(left, right)
    else if left.CodeRegion? && right.CodeRegion? then RegionIssues(left, right)
    else if left.DispatchMap? && right.DispatchMap? then DispatchIssues(left, right)
    else if left.CallObservation? && right.CallObservation? then CallIssues(left, right)
    else ValueIssues(left, right)
  }

  /** The conflicts of a pair that an accumulator keeps. */
  function PairConflicts(only: bool, left: Payload, right: Payload, leftId: Digest, rightId: Digest): set<Conflict> {
    set i | i in Issues(left, right) && (only ==> i.severity.Contradiction?) :: Seal(i, leftId, rightId)
  }

  /** The two payloads cannot both be true. */
  predicate Contradicts(left: Payload, right: Payload) {
    exists i :: i in Issues(left, right) && i.severity.Contradiction?
  }

  /** A contradiction-only comparison reports something exactly on contradicting pairs. */
  lemma {:induction false} ContradictsIsReported(left: Payload, right: Payload, leftId: Digest, rightId: Digest)
    ensures Contradicts(left, right) <==> PairConflicts(true, left, right, leftId, rightId) != {}
  {
    hide Issues, Seal;
    if Contradicts(left, right) {
      var i :| i in Issues(left, right) && i.severity.Contradiction?;
      assert Seal(i, leftId, rightId) in PairConflicts(true, left, right, leftId, rightId);
    }
  }

  // ---- where conflicts can arise --------------------------------------------------

  datatype Bucket =
    | TargetBucket(from: Address, kind: CodeTargetKind)
    | EdgeBucket(from: Address, to: Address)
    | MemoryBucket(instruction: Address, address: Address, access: MemoryAccessKind)
    | StringBucket(address: Address)
    | CandidateBucket(entry: Address)
    | FunctionBucket(func: Address)
    | DispatchBucket(site: Address)
    | RegisterBucket(instruction: Address, point: RegisterStatePoint, registerId: Bytes)
    | CallBucket(source: Address)

  /** The smallest subject on which a payload can conflict; regions are swept instead. */
  function BucketOf(p: Payload): Option<Bucket> {
    match p
    case CodeTarget(from, _, kind, _) => Some(TargetBucket(from, kind))
    case BranchReachability(branch, successor, _) => Some(EdgeBucket(branch, successor))
    case CfgCandidate(from, to, _, _) => Some(EdgeBucket(from, to))
    case MemoryValue(instruction, address, access, _) => Some(MemoryBucket(instruction, address, access))
    case StringCandidate(address, _, _, _, _) => Some(StringBucket(address))
    case FunctionCandidate(entry, _, _) => Some(CandidateBucket(entry))
    case FunctionTrait(func, _, _) => Some(FunctionBucket(func))
    case FunctionOutcome(func, _, _, _, _) => Some(FunctionBucket(func))
    case DispatchMap(site, _, _, _) => Some(DispatchBucket(site))
    case RegisterValue(instruction, point, registerId, _) => Some(RegisterBucket(instruction, point, registerId))
    case CallObservation(source, _, _, _, _, _) => Some(CallBucket(source))
    case MemoryAccess(_, _, _, _) => None
    case CodeRegion(_, _, _) => None
  }

  type Subject = (nat, Address, Address)

  /** The index key of a payload that can take part in a contradiction. */
  function SubjectOf(p: Payload): Option<Subject> {
    match p
    case CodeTarget(from, _, kind, _) => Some((1, from, EnumCodes.TargetCode(kind)))
    case BranchReachability(branch, successor, _) => Some((2, branch, successor))
    case CfgCandidate(from, to, _, _) => Some((2, from, to))
    case FunctionTrait(func, t, _) => if IsReturnTrait(t) then Some((3, func, 0)) else None
    case FunctionOutcome(func, stop, _, _, _) => if stop.Returned? then Some((3, func, 0)) else None
    case DispatchMap(site, _, _, _) => Some((4, site, 0))
    case _ => None
  }

  predicate SameBucket(left: Payload, right: Payload) {
    BucketOf(left).Some? && BucketOf(left) == BucketOf(right)
  }

  /** Branch and CFG evidence about an edge fall into its bucket and its subject. */
  lemma {:induction false} EdgeKeys(p: Payload)
    requires p.BranchReachability? || p.CfgCandidate?
    ensures BucketOf(p) == Some(EdgeBucket(EdgeFrom(p), EdgeTo(p)))
    ensures SubjectOf(p) == Some((2, EdgeFrom(p), EdgeTo(p)))
  {
  }

  lemma {:induction false} EdgeIssuesBucket(left: Payload, right: Payload)
    requires left.BranchReachability? || left.CfgCandidate?
    requires right.BranchReachability? || right.CfgCandidate?
    requires EdgeIssues(left, right) != {}
    ensures SameBucket(left, right)
  {
    hide EdgeIssue, BucketOf, EdgeFrom, EdgeTo, OppositeReachability, SubjectOf;
    EdgeKeys(left);
    EdgeKeys(right);
  }

  lemma {:induction false} FunctionIssuesBucket(left: Payload, right: Payload)
    requires left.FunctionTrait? || left.FunctionOutcome?
    requires right.FunctionTrait? || right.FunctionOutcome?
    requires FunctionIssues(left, right) != {}
    ensures SameBucket(left, right)
  {
    hide At;
  }

  lemma {:induction false} ValueIssuesBucket(left: Payload, right: Payload)
    requires ValueIssues(left, right) != {}
    ensures SameBucket(left, right) && !left.CodeRegion?
  {
    hide At;
  }

  lemma {:induction false} DispatchIssuesBucket(left: Payload, right: Payload)
    requires left.DispatchMap? && right.DispatchMap? && DispatchIssues(left, right) != {}
    ensures SameBucket(left, right)
  {
    hide At, AbsentIssues, CompetingCase, CompetingDefaults;
  }

  lemma {:induction false} CallIssuesBucket(left: Payload, right: Payload)
    requires left.CallObservation? && right.CallObservation? && CallIssues(left, right) != {}
    ensures SameBucket(left, right)
  {
    hide At, CallsDiffer;
  }

  /** Conflicts only arise inside one bucket or between overlapping regions. */
  lemma {:induction false} IssuesShareBucket(left: Payload, right: Payload)
    requires Issues(left, right) != {}
    ensures if left.CodeRegion? then right.CodeRegion? && RegionsOverlap(left, right) else SameBucket(left, right)
  {
    hide Ascii, SameBucket, ValueIssues, EdgeIssues, FunctionIssues, DispatchIssues, CallIssues;
    if ValueIssues(left, right) != {} {
      ValueIssuesBucket(left, right);
    } else if left.BranchReachability? || left.CfgCandidate? {
      EdgeIssuesBucket(left, right);
    } else if left.FunctionTrait? || left.FunctionOutcome? {
      FunctionIssuesBucket(left, right);
    } else if left.DispatchMap? {
      DispatchIssuesBucket(left, right);
    } else if left.CallObservation? {
      CallIssuesBucket(left, right);
    }
  }

  predicate IsReturns(p: Payload) { p.FunctionTrait? && p.trait_.Returns? }
  predicate IsNoReturn(p: Payload) { p.FunctionTrait? && p.trait_.NoReturn? }
  predicate IsReturned(p: Payload) { p.FunctionOutcome? && p.stop.Returned? }

  /** One says the function does not return, the other that it does or that it did. */
  predicate ReturnsDiffer(left: Payload, right: Payload) {
    || (IsNoReturn(left) && (IsReturns(right) || IsReturned(right)))
    || (IsNoReturn(right) && (IsReturns(left) || IsReturned(left)))
  }

  /** The issues of a pair contain no contradiction, or are just one. */
  ghost predicate Decided(issues: set<Issue>, contradiction: bool) {
    if contradiction then exists i :: issues == {i} && i.severity.Contradiction?
    else forall i :: i in issues ==> !i.severity.Contradiction?
  }

  lemma {:induction false} TraitIssuesDecided(left: Payload, right: Payload)
    requires left.FunctionTrait? && right.FunctionTrait?
    ensures Decided(FunctionIssues(left, right), left.func == right.func && ReturnsDiffer(left, right))
  {
    hide At;
  }

  lemma {:induction false} OutcomeIssuesDecided(asserted: Payload, outcome: Payload)
    requires asserted.FunctionTrait? && outcome.FunctionOutcome?
    ensures Decided(TraitOutcomeIssues(asserted, outcome), ReturnsDiffer(asserted, outcome))
    ensures ReturnsDiffer(outcome, asserted) <==> ReturnsDiffer(asserted, outcome)
  {
    hide At;
  }

  lemma {:induction false} OutcomesDecided(left: Payload, right: Payload)
    requires left.FunctionOutcome? && right.FunctionOutcome?
    ensures Decided(FunctionIssues(left, right), false) && !ReturnsDiffer(left, right)
  {
    hide At;
  }

  /** A function's evidence contradicts exactly when its return behaviour is disputed. */
  lemma {:induction false} FunctionIssuesDecided(left: Payload, right: Payload)
    requires left.FunctionTrait? || left.FunctionOutcome?
    requires right.FunctionTrait? || right.FunctionOutcome?
    ensures Decided(FunctionIssues(left, right), left.func == right.func && ReturnsDiffer(left, right))
  {
    hide TraitOutcomeIssues, ReturnsDiffer;
    if left.FunctionTrait? && right.FunctionTrait? {
      TraitIssuesDecided(left, right);
      hide FunctionIssues;
    } else if left.FunctionOutcome? && right.FunctionOutcome? {
      OutcomesDecided(left, right);
      hide FunctionIssues;
    } else if left.FunctionTrait? {
      assert FunctionIssues(left, right) == if left.func == right.func then TraitOutcomeIssues(left, right) else {};
      OutcomeIssuesDecided(left, right);
      hide FunctionIssues;
    } else {
      assert FunctionIssues(left, right) == if left.func == right.func then TraitOutcomeIssues(right, left) else {};
      OutcomeIssuesDecided(right, left);
      hide FunctionIssues;
    }
  }

  lemma {:induction false} FunctionContradictionSubject(left: Payload, right: Payload, i: Issue)
    requires left.FunctionTrait? || left.FunctionOutcome?
    requires right.FunctionTrait? || right.FunctionOutcome?
    requires i in FunctionIssues(left, right) && i.severity.Contradiction?
    ensures SubjectOf(left).Some? && SubjectOf(left) == SubjectOf(right)
  {
    hide FunctionIssues;
    FunctionIssuesDecided(left, right);
  }

  /** Among values only sole targets contradict each other. */
  lemma {:induction false} OnlyTargetsContradict(left: Payload, right: Payload, i: Issue)
    requires i in ValueIssues(left, right) && i.severity.Contradiction?
    ensures left.CodeTarget? && right.CodeTarget? && left.from == right.from && left.targetKind == right.targetKind
  {
    hide At, Ascii;
  }

  lemma {:induction false} ValueContradictionSubject(left: Payload, right: Payload, i: Issue)
    requires i in ValueIssues(left, right) && i.severity.Contradiction?
    ensures SubjectOf(left).Some? && SubjectOf(left) == SubjectOf(right) && !left.CodeRegion?
  {
    hide ValueIssues, EnumCodes.TargetCode;
    OnlyTargetsContradict(left, right, i);
  }

  lemma {:induction false} EdgeContradictionSubject(left: Payload, right: Payload, i: Issue)
    requires left.BranchReachability? || left.CfgCandidate?
    requires right.BranchReachability? || right.CfgCandidate?
    requires i in EdgeIssues(left, right)
    ensures SubjectOf(left).Some? && SubjectOf(left) == SubjectOf(right)
  {
    hide EdgeIssue, BucketOf, EdgeFrom, EdgeTo, OppositeReachability, SubjectOf;
    EdgeKeys(left);
    EdgeKeys(right);
  }

  lemma {:induction false} OnlyCallVariation(left: Payload, right: Payload, i: Issue)
    requires left.CallObservation? && right.CallObservation? && i in CallIssues(left, right)
    ensures !i.severity.Contradiction?
  {
    hide At, CallsDiffer;
  }

  lemma {:induction false} DispatchContradictionSubject(left: Payload, right: Payload)
    requires left.DispatchMap? && right.DispatchMap? && DispatchIssues(left, right) != {}
    ensures SubjectOf(left).Some? && SubjectOf(left) == SubjectOf(right)
  {
    hide At, AbsentIssues, CompetingCase, CompetingDefaults, DefaultIssue, CaseIssue;
  }

  lemma {:induction false} RegionContradictionMeets(left: Payload, right: Payload, i: Issue)
    requires left.CodeRegion? && right.CodeRegion? && i in RegionIssues(left, right) && i.severity.Contradiction?
    ensures RegionsOverlap(left, right) && RegionKindsIncompatible(left.regionKind, right.regionKind)
  {
    hide Ascii;
  }

  /** Contradictions only arise under one subject or between overlapping incompatible regions. */
  lemma {:induction false} ContradictionsShareSubject(left: Payload, right: Payload)
    requires Contradicts(left, right)
    ensures if left.CodeRegion? then
              right.CodeRegion? && RegionsOverlap(left, right) &&
              RegionKindsIncompatible(left.regionKind, right.regionKind)
            else SubjectOf(left).Some? && SubjectOf(left) == SubjectOf(right)
  {
    hide SubjectOf, EdgeIssues, FunctionIssues, RegionIssues, DispatchIssues, CallIssues, ValueIssues;
    hide RegionsOverlap, RegionKindsIncompatible;
    var i :| i in Issues(left, right) && i.severity.Contradiction?;
    if left.DispatchMap? && right.DispatchMap? {
      DispatchContradictionSubject(left, right);
    } else if left.CodeRegion? && right.CodeRegion? {
      RegionContradictionMeets(left, right, i);
    } else if i in ValueIssues(left, right) {
      ValueContradictionSubject(left, right, i);
    } else if left.CallObservation? {
      OnlyCallVariation(left, right, i);
    } else if left.BranchReachability? || left.CfgCandidate? {
      EdgeContradictionSubject(left, right, i);
    } else {
      FunctionContradictionSubject(left, right, i);
    }
  }

  /** Region conflicts do not depend on which region comes first. */
  lemma {:induction false} RegionIssuesSymmetric(left: Payload, right: Payload)
    requires left.CodeRegion? && right.CodeRegion?
    ensures Issues(left, right) == Issues(right, left)
  {
  }
}
