/**
 * Exactly when two payloads are reported to diverge, as which type of conflict,
 * with which severity and about which addresses, for every pair of kinds.
 */
module Divergence {
  import opened Orders
  import opened Words
  import opened Facts
  import opened Conflicts
  import opened ContradictionScan
  import opened Worlds

  /** Something is reported, and all that is reported has this type, severity and subjects. */
  ghost predicate Reports(left: Payload, right: Payload, kind: ConflictType, severity: Severity, subject: Address,
                          secondary: Option<Address>)
  {
    && Issues(left, right) != {}
    && forall i :: i in Issues(left, right) ==>
         i.kind == kind && i.severity == severity && i.subject == subject && i.secondary == secondary
  }

  ghost predicate Silent(left: Payload, right: Payload) { Issues(left, right) == {} }

  // ---- values: one place, two contents ----------------------------------------------------------------

  /** Two values of one access at one instruction vary when they are not the same. */
  lemma {:induction false} MemoryVaries(left: Payload, right: Payload)
    requires left.MemoryValue? && right.MemoryValue?
    ensures if left.instruction == right.instruction && left.address == right.address &&
               left.access == right.access && left != right
            then Reports(left, right, DivergentMemoryValue, Variation, left.address, Some(left.instruction))
            else Silent(left, right)
  {
    hide At;
  }

  lemma {:induction false} RegistersVary(left: Payload, right: Payload)
    requires left.RegisterValue? && right.RegisterValue?
    ensures if left.instruction == right.instruction && left.point == right.point &&
               left.registerId == right.registerId && left != right
            then Reports(left, right, DivergentRegisterValue, Variation, left.instruction, None)
            else Silent(left, right)
  {
    hide At;
  }

  /** Two readings of a string at one address compete. */
  lemma {:induction false} StringsCompete(left: Payload, right: Payload)
    requires left.StringCandidate? && right.StringCandidate?
    ensures if left.address == right.address && left != right
            then Reports(left, right, DivergentStringCandidate, Ambiguity, left.address, None)
            else Silent(left, right)
  {
    hide At;
  }

  /** Two known ends of one function compete; a candidate without an end competes with none. */
  lemma {:induction false} CandidatesCompete(left: Payload, right: Payload)
    requires left.FunctionCandidate? && right.FunctionCandidate?
    ensures if left.entry == right.entry &&
               exists e, f :: left.candidateEnd == Some(e) && right.candidateEnd == Some(f) && e != f
            then Reports(left, right, DivergentFunctionCandidate, Ambiguity, left.entry, None)
            else Silent(left, right)
  {
    hide At;
    if left.candidateEnd.Some? && right.candidateEnd.Some? {
      assert left.candidateEnd == Some(left.candidateEnd.value) && right.candidateEnd == Some(right.candidateEnd.value);
    }
  }

  // ---- functions -------------------------------------------------------------------------------------------

  lemma {:induction false} OutcomesVary(left: Payload, right: Payload)
    requires left.FunctionOutcome? && right.FunctionOutcome?
    ensures if left.func == right.func && left != right
            then Reports(left, right, DivergentFunctionOutcome, Variation, left.func, None)
            else Silent(left, right)
  {
    hide At;
  }

  /** What is reported about two traits of one function. */
  lemma {:induction false} TraitIssues(left: Payload, right: Payload)
    requires left.FunctionTrait? && right.FunctionTrait? && left.func == right.func
    ensures var issues := FunctionIssues(left, right);
            var disputed := IsReturnTrait(left.trait_) && IsReturnTrait(right.trait_) && left.trait_ != right.trait_;
            var many := left.trait_ != right.trait_ || left.trait_ in {ArgumentRegister, OtherTrait};
            var kind := if disputed then ReturnBehaviorContradiction else DivergentFunctionTrait;
            var severity := if disputed then Contradiction
                            else if left.trait_ in {StackDelta, ReturnConstant} then Variation else Ambiguity;
            && (issues == {} <==> !disputed && many)
            && forall i :: i in issues ==>
                 i.kind == kind && i.severity == severity && i.subject == left.func && i.secondary == None
  {
    hide At;
  }

  /** One value per trait, except for those a function has many of; returning and never returning exclude each other. */
  lemma {:induction false} TraitsCompete(left: Payload, right: Payload)
    requires left.FunctionTrait? && right.FunctionTrait?
    ensures if left.func != right.func then Silent(left, right)
            else if (left.trait_ == NoReturn && right.trait_ == FunctionTraitKind.Returns) ||
                    (left.trait_ == FunctionTraitKind.Returns && right.trait_ == NoReturn)
            then Reports(left, right, ReturnBehaviorContradiction, Contradiction, left.func, None)
            else if left.trait_ != right.trait_ || left.trait_ in {ArgumentRegister, OtherTrait}
            then Silent(left, right)
            else Reports(left, right, DivergentFunctionTrait,
                         if left.trait_ in {StackDelta, ReturnConstant} then Variation else Ambiguity, left.func, None)
  {
    hide At;
    assert Issues(left, right) == FunctionIssues(left, right);
    hide Issues;
    if left.func == right.func {
      TraitIssues(left, right);
      hide FunctionIssues;
    }
  }

  /** A concrete return refutes a no-return trait, whichever comes first. */
  lemma {:induction false} ReturnRefutes(asserted: Payload, outcome: Payload)
    requires asserted.FunctionTrait? && outcome.FunctionOutcome?
    ensures if asserted.func == outcome.func && asserted.trait_ == NoReturn && outcome.stop == Returned
            then Reports(asserted, outcome, ReturnBehaviorContradiction, Contradiction, outcome.func, None) &&
                 Reports(outcome, asserted, ReturnBehaviorContradiction, Contradiction, outcome.func, None)
            else Silent(asserted, outcome) && Silent(outcome, asserted)
  {
    hide At;
  }

  // ---- control flow -----------------------------------------------------------------------------------------

  lemma {:induction false} TargetsReported(left: Payload, right: Payload)
    requires left.CodeTarget? && right.CodeTarget?
    ensures if left.from == right.from && left.targetKind == right.targetKind && left.target != right.target &&
               (left.unique || right.unique)
            then Reports(left, right, ConflictingUniqueCodeTarget, Contradiction, left.from, None)
            else Silent(left, right)
  {
    hide At;
  }

  /** One edge, reached and proven unreachable; the type says whether branch evidence takes part. */
  lemma {:induction false} EdgesReported(left: Payload, right: Payload)
    requires OfEdge(left) && OfEdge(right)
    ensures if EdgeFrom(left) == EdgeFrom(right) && EdgeTo(left) == EdgeTo(right) &&
               ((left.state == Reached && right.state == ProvenUnreachable) ||
                (left.state == ProvenUnreachable && right.state == Reached))
            then Reports(left, right,
                         if left.CfgCandidate? && right.CfgCandidate? then DivergentCfgReachability
                         else ReachableAndUnreachable,
                         Contradiction, EdgeFrom(left), Some(EdgeTo(left)))
            else Silent(left, right)
  {
    hide EdgeFrom, EdgeTo, EdgeIssue;
    assert Issues(left, right) == EdgeIssues(left, right);
    hide Issues;
    EdgeIssueFields(left, right);
  }

  lemma {:induction false} EdgeIssueFields(left: Payload, right: Payload)
    requires OfEdge(left) && OfEdge(right)
    ensures var i := EdgeIssue(left, right);
            && i.severity == Contradiction && i.subject == EdgeFrom(left) && i.secondary == Some(EdgeTo(left))
            && i.kind == if left.CfgCandidate? && right.CfgCandidate? then DivergentCfgReachability
                         else ReachableAndUnreachable
  {
    hide Ascii, EdgeFrom, EdgeTo;
  }

  /** The two subjects of a region conflict delimit exactly the shared bytes. */
  lemma {:induction false} RegionsReported(left: Payload, right: Payload, i: Issue)
    requires left.CodeRegion? && right.CodeRegion? && i in Issues(left, right)
    ensures i.kind == IncompatibleCodeRegion && i.severity == Contradiction && i.secondary.Some?
    ensures forall a: Address :: Spans(left, a) && Spans(right, a) <==> i.subject <= a < i.secondary.value
  {
    hide Ascii;
  }

  // ---- dispatch maps ----------------------------------------------------------------------------------------

  /** Maps diverge when they clash on a selector or the default, or a complete one misses a target. */
  ghost predicate MapsDiverge(left: Payload, right: Payload)
    requires left.DispatchMap? && right.DispatchMap?
  {
    && left.site == right.site
    && (SelectorsClash(left, right) || DefaultsClash(left, right) || Misses(left, right) || Misses(right, left))
  }

  lemma {:induction false} MapsReported(left: Payload, right: Payload)
    requires left.DispatchMap? && right.DispatchMap? && ValidPayload(left) && ValidPayload(right)
    ensures Issues(left, right) != {} <==> MapsDiverge(left, right)
    ensures forall i :: i in Issues(left, right) ==> MapIssue(left, right, i)
  {
    ClashExactly(left, right);
    MissesExactly(left, right);
    MissesExactly(right, left);
    assert Issues(left, right) == DispatchIssues(left, right);
    hide Issues, ValidPayload, SelectorsClash, Misses, At, CompetingCase, Targets, MapIssue, DispatchIssues;
    MapIssueFields(left, right);
    if left.site == right.site {
      MapIssuesArise(left, right);
    }
  }

  lemma {:induction false} MapIssueFields(left: Payload, right: Payload)
    requires left.DispatchMap? && right.DispatchMap?
    ensures forall i :: i in DispatchIssues(left, right) ==> MapIssue(left, right, i)
  {
    hide CompetingCase, CompetingDefaults, Targets, CaseIssue, DefaultIssue, AbsentIssue;
    forall secondary ensures MapIssue(left, right, CaseIssue(left, right, secondary)) {
      CaseIssueFields(left, right, secondary);
    }
    CaseIssueFields(left, right, None);
    forall t | left.complete || right.complete ensures MapIssue(left, right, AbsentIssue(left.site, t)) {
      AbsentIssueFields(left, right, t);
    }
    hide MapIssue;
    assert forall i :: i in DispatchIssues(left, right) ==> MapIssue(left, right, i);
  }

  /** Type, subject and severity of everything reported about two maps. */
  ghost predicate MapIssue(left: Payload, right: Payload, i: Issue)
    requires left.DispatchMap? && right.DispatchMap?
  {
    && i.kind == DivergentDispatchCase && i.subject == left.site
    && i.severity == if left.complete || right.complete then Contradiction else Ambiguity
  }

  lemma {:induction false} CaseIssueFields(left: Payload, right: Payload, secondary: Option<Address>)
    requires left.DispatchMap? && right.DispatchMap?
    ensures MapIssue(left, right, CaseIssue(left, right, secondary)) && MapIssue(left, right, DefaultIssue(left, right))
  {
    hide At;
  }

  lemma {:induction false} AbsentIssueFields(left: Payload, right: Payload, t: Address)
    requires left.DispatchMap? && right.DispatchMap? && (left.complete || right.complete)
    ensures MapIssue(left, right, AbsentIssue(left.site, t))
  {
    hide At;
  }

  lemma {:induction false} MapIssuesArise(left: Payload, right: Payload)
    requires left.DispatchMap? && right.DispatchMap? && left.site == right.site
    ensures DispatchIssues(left, right) != {} <==>
            || HasCompetingCase(left, right) || DefaultsClash(left, right)
            || (left.complete && Targets(right) - Targets(left) != {})
            || (right.complete && Targets(left) - Targets(right) != {})
  {
    hide CompetingCase, Targets, CaseIssue, DefaultIssue, AbsentIssue, AbsentIssues;
    AbsentArises(left, right, left.site);
    AbsentArises(right, left, left.site);
    if c :| c in left.cases && CompetingCase(c, right) {
      assert CaseIssue(left, right, c.selector) in DispatchIssues(left, right);
    }
    if DefaultsClash(left, right) {
      assert DefaultIssue(left, right) in DispatchIssues(left, right);
    }
  }

  lemma {:induction false} AbsentArises(whole: Payload, observed: Payload, site: Address)
    requires whole.DispatchMap? && observed.DispatchMap?
    ensures AbsentIssues(whole, observed, site) != {} <==> whole.complete && Targets(observed) - Targets(whole) != {}
  {
    hide Targets, AbsentIssue;
    if whole.complete && Targets(observed) - Targets(whole) != {} {
      var t :| t in Targets(observed) - Targets(whole);
      assert AbsentIssue(site, t) in AbsentIssues(whole, observed, site);
    }
  }

  // ---- calls --------------------------------------------------------------------------------------------------

  lemma {:induction false} FoundIsListed(values: seq<CallValue>, ordinal: U32, location: Bytes)
    ensures var v := FindCallValue(values, ordinal, location);
            v.Some? ==> v.value in values && v.value.ordinal == ordinal && v.value.location == location
  {
    hide BytesLess;
    if values != [] {
      FoundIsListed(values[1..], ordinal, location);
    }
  }

  ghost predicate PlacesAscend(values: seq<CallValue>) {
    forall i, j :: 0 <= i < j < |values| ==> PlaceLess(values[i], values[j])
  }

  predicate PlaceLess(a: CallValue, b: CallValue) {
    a.ordinal < b.ordinal || (a.ordinal == b.ordinal && BytesLess(a.location, b.location))
  }

  /** Valid values are ordered by place, one for each. */
  lemma {:induction false} ValidPlaces(values: seq<CallValue>)
    requires CallValuesValid(values)
    ensures PlacesAscend(values)
  {
    BytesLessTotal();
    hide BytesLess;
    forall i, j | 0 <= i < j < |values| ensures PlaceLess(values[i], values[j]) {
      PlacesBetween(values, i, j);
    }
  }

  lemma {:induction false} PlacesBetween(values: seq<CallValue>, i: nat, j: nat)
    requires CallValuesValid(values) && i < j < |values|
    ensures PlaceLess(values[i], values[j])
    decreases j
  {
    BytesLessTotal();
    hide BytesLess;
    assert CallValueLess(values[j - 1], values[j]);
    assert values[j - 1].ordinal != values[j].ordinal || values[j - 1].location != values[j].location;
    if i < j - 1 {
      PlacesBetween(values, i, j - 1);
    }
  }

  lemma {:induction false} ListedIsFound(values: seq<CallValue>, j: nat)
    requires PlacesAscend(values) && j < |values|
    ensures FindCallValue(values, values[j].ordinal, values[j].location) == Some(values[j])
  {
    BytesLessTotal();
    hide BytesLess;
    if j > 0 {
      assert PlaceLess(values[0], values[j]);
      ListedIsFound(values[1..], j - 1);
    }
  }

  /** Some place holds different bytes in the two lists. */
  ghost predicate BytesClash(left: seq<CallValue>, right: seq<CallValue>) {
    exists i, j :: 0 <= i < |left| && 0 <= j < |right| && left[i].ordinal == right[j].ordinal &&
      left[i].location == right[j].location && left[i].bytes != right[j].bytes
  }

  /** The binary search for a place misses none in a valid list. */
  lemma {:induction false} ValuesDifferExactly(left: seq<CallValue>, right: seq<CallValue>)
    requires CallValuesValid(right)
    ensures CallValuesDiffer(left, right) <==> BytesClash(left, right)
  {
    ValidPlaces(right);
    hide CallValuesValid, FindCallValue, PlacesAscend;
    if CallValuesDiffer(left, right) {
      var i :| 0 <= i < |left| &&
        var other := FindCallValue(right, left[i].ordinal, left[i].location);
        other.Some? && other.value.bytes != left[i].bytes;
      FoundIsListed(right, left[i].ordinal, left[i].location);
      var j :| 0 <= j < |right| && right[j] == FindCallValue(right, left[i].ordinal, left[i].location).value;
    }
    if BytesClash(left, right) {
      var i, j :| 0 <= i < |left| && 0 <= j < |right| && left[i].ordinal == right[j].ordinal &&
        left[i].location == right[j].location && left[i].bytes != right[j].bytes;
      ListedIsFound(right, j);
    }
  }

  ghost predicate KindsKnownApart(left: Payload, right: Payload)
    requires left.CallObservation? && right.CallObservation?
  {
    left.callKind != right.callKind && UnknownCall !in {left.callKind, right.callKind}
  }

  ghost predicate CallsDiverge(left: Payload, right: Payload)
    requires left.CallObservation? && right.CallObservation?
  {
    || KindsKnownApart(left, right)
    || (left.callResult != right.callResult && UnknownResult !in {left.callResult, right.callResult})
    || (exists t, u :: left.callTarget == Some(t) && right.callTarget == Some(u) && t != u)
    || BytesClash(left.arguments, right.arguments) || BytesClash(left.returns_, right.returns_)
  }

  /** Calls at one instruction diverge in what both know; a known difference of kind makes it an ambiguity. */
  lemma {:induction false} CallsReported(left: Payload, right: Payload)
    requires left.CallObservation? && right.CallObservation? && ValidPayload(right)
    ensures if left.source == right.source && CallsDiverge(left, right)
            then Reports(left, right, DivergentCallObservation,
                         if KindsKnownApart(left, right) then Ambiguity else Variation, left.source, None)
            else Silent(left, right)
  {
    CallsDivergeExactly(left, right);
    hide At, CallsDiffer, CallsDiverge, CallKindsDiffer, KindsKnownApart, ValidPayload;
    assert Issues(left, right) == CallIssues(left, right);
    hide Issues;
  }

  lemma {:induction false} CallsDivergeExactly(left: Payload, right: Payload)
    requires left.CallObservation? && right.CallObservation? && ValidPayload(right)
    ensures CallsDiffer(left, right) <==> CallsDiverge(left, right)
    ensures CallKindsDiffer(left, right) <==> KindsKnownApart(left, right)
  {
    ValuesDifferExactly(left.arguments, right.arguments);
    ValuesDifferExactly(left.returns_, right.returns_);
    hide CallValuesDiffer, BytesClash, CallValuesValid;
    if left.callTarget.Some? && right.callTarget.Some? {
      assert left.callTarget == Some(left.callTarget.value) && right.callTarget == Some(right.callTarget.value);
    }
  }

  // ---- everything else -------------------------------------------------------------------------------------------

  /** Kinds that are compared with each other. */
  predicate Compared(left: Payload, right: Payload) {
    || SameFamily(left, right)
    || (left.MemoryValue? && right.MemoryValue?) || (left.StringCandidate? && right.StringCandidate?)
    || (left.FunctionCandidate? && right.FunctionCandidate?) || (left.RegisterValue? && right.RegisterValue?)
    || (left.CallObservation? && right.CallObservation?)
  }

  lemma {:induction false} OthersSilent(left: Payload, right: Payload)
    requires !Compared(left, right)
    ensures Silent(left, right)
  {
    hide EdgeIssues, FunctionIssues, RegionIssues, DispatchIssues, CallIssues, At;
  }
}
