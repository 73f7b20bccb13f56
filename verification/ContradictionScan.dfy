/**
 * The contradiction-only scan used before automatic application. It never
 * materialises conflicts, yet its result is exactly the set of identities that
 * appear in the contradictions of the all-pairs comparison.
 */
module ContradictionScan {
  import opened Orders
  import opened Words
  import opened Facts
  import opened Conflicts
  import opened ConflictScan

  // ---- specification -----------------------------------------------------------------

  ghost predicate ContradictAt(ordered: seq<Ranked>, i: nat, j: nat) {
    i < j < |ordered| && Contradicts(ordered[i].payload, ordered[j].payload)
  }

  ghost predicate Participates(ordered: seq<Ranked>, i: nat) {
    exists j: nat :: ContradictAt(ordered, i, j) || ContradictAt(ordered, j, i)
  }

  ghost function Ids(ordered: seq<Ranked>, marked: set<nat>): set<Digest>
    requires forall i :: i in marked ==> i < |ordered|
  {
    set i | i in marked :: ordered[i].id
  }

  ghost function Participants(ordered: seq<Ranked>): set<nat> {
    set i: nat | i < |ordered| && Participates(ordered, i)
  }

  /** The identities named by contradictions in the full conflict report. */
  ghost function ContradictedInReport(ordered: seq<Ranked>): set<Digest> {
    (set c | c in AllConflicts(ordered) && c.severity.Contradiction? :: c.left) +
    (set c | c in AllConflicts(ordered) && c.severity.Contradiction? :: c.right)
  }

  lemma {:induction false} PairParticipates(ordered: seq<Ranked>, i: nat, j: nat)
    requires ContradictAt(ordered, i, j)
    ensures Participates(ordered, i) && Participates(ordered, j)
    ensures ordered[i].id in ContradictedInReport(ordered) && ordered[j].id in ContradictedInReport(ordered)
  {
    hide Issues;
    var left, right := ordered[i], ordered[j];
    var issue :| issue in Issues(left.payload, right.payload) && issue.severity.Contradiction?;
    var c := Seal(issue, left.id, right.id);
    assert c in PairConflicts(false, left.payload, right.payload, left.id, right.id);
    assert c in PairAt(false, ordered, (i, j)) && (i, j) in AllPairs(|ordered|);
    assert c in AllConflicts(ordered) && c.severity.Contradiction?;
  }

  lemma {:induction false} ReportedParticipates(ordered: seq<Ranked>, c: Conflict)
    requires c in AllConflicts(ordered) && c.severity.Contradiction?
    ensures c.left in Ids(ordered, Participants(ordered)) && c.right in Ids(ordered, Participants(ordered))
  {
    hide Issues, ContradictedInReport, Participates;
    var p :| p in AllPairs(|ordered|) && c in PairAt(false, ordered, p);
    assert ContradictAt(ordered, p.0, p.1);
    PairParticipates(ordered, p.0, p.1);
    assert p.0 in Participants(ordered) && p.1 in Participants(ordered);
  }

  /** Marking the participants is the same as reading the report's contradictions. */
  lemma {:induction false} ParticipantsAreReported(ordered: seq<Ranked>)
    ensures Ids(ordered, Participants(ordered)) == ContradictedInReport(ordered)
  {
    forall i | i in Participants(ordered) ensures ordered[i].id in ContradictedInReport(ordered) {
      hide ContradictAt, AllConflicts, ContradictedInReport;
      var j: nat :| ContradictAt(ordered, i, j) || ContradictAt(ordered, j, i);
      if ContradictAt(ordered, i, j) {
        PairParticipates(ordered, i, j);
      } else {
        PairParticipates(ordered, j, i);
      }
    }
    hide AllConflicts, Participants;
    forall c | c in AllConflicts(ordered) && c.severity.Contradiction?
      ensures c.left in Ids(ordered, Participants(ordered)) && c.right in Ids(ordered, Participants(ordered))
    {
      ReportedParticipates(ordered, c);
    }
  }

  // ---- exact contradiction tests per kind ----------------------------------------------

  lemma {:induction false} TargetContradiction(left: Payload, right: Payload)
    requires left.CodeTarget? && right.CodeTarget? && BucketOf(left) == BucketOf(right)
    ensures Contradicts(left, right) <==> left.target != right.target && (left.unique || right.unique)
  {
    hide At;
    assert Issues(left, right) == ValueIssues(left, right);
    if left.target != right.target && (left.unique || right.unique) {
      var i :| i in Issues(left, right);
      assert i.severity.Contradiction?;
    }
  }

  lemma {:induction false} EdgeContradiction(left: Payload, right: Payload)
    requires left.BranchReachability? || left.CfgCandidate?
    requires BucketOf(left) == BucketOf(right)
    ensures Contradicts(left, right) <==> OppositeReachability(left.state, right.state)
  {
    hide EdgeIssue, EdgeFrom, EdgeTo, OppositeReachability;
    EdgeKeys(left);
    EdgeKeys(right);
    assert Issues(left, right) == EdgeIssues(left, right);
    hide Issues, BucketOf;
    assert OppositeReachability(left.state, right.state) ==> EdgeIssue(left, right) in EdgeIssues(left, right);
  }

  lemma {:induction false} FunctionContradiction(left: Payload, right: Payload)
    requires left.FunctionTrait? || left.FunctionOutcome?
    requires BucketOf(left) == BucketOf(right)
    ensures Contradicts(left, right) <==> ReturnsDiffer(left, right)
  {
    hide FunctionIssues, ReturnsDiffer;
    assert Issues(left, right) == FunctionIssues(left, right) && left.func == right.func;
    hide Issues, BucketOf;
    FunctionIssuesDecided(left, right);
  }

  predicate HasCompetingCase(left: Payload, right: Payload)
    requires left.DispatchMap? && right.DispatchMap?
  {
    exists c :: c in left.cases && CompetingCase(c, right)
  }

  /** Maps of one site disagree: on a case or the default when one is complete, or on a complete one's targets. */
  ghost predicate MapsDisagree(left: Payload, right: Payload)
    requires left.DispatchMap? && right.DispatchMap?
  {
    || ((left.complete || right.complete) && (HasCompetingCase(left, right) || CompetingDefaults(left, right)))
    || (left.complete && Targets(right) - Targets(left) != {})
    || (right.complete && Targets(left) - Targets(right) != {})
  }

  lemma {:induction false} AbsentReported(whole: Payload, observed: Payload, site: Address)
    requires whole.DispatchMap? && observed.DispatchMap? && whole.complete
    requires Targets(observed) - Targets(whole) != {}
    ensures exists i :: i in AbsentIssues(whole, observed, site) && i.severity.Contradiction?
  {
    hide At, Targets;
    var t :| t in Targets(observed) - Targets(whole);
    assert AbsentIssue(site, t) in AbsentIssues(whole, observed, site);
  }

  lemma {:induction false} DisagreementReported(left: Payload, right: Payload)
    requires left.DispatchMap? && right.DispatchMap? && left.site == right.site && MapsDisagree(left, right)
    ensures exists i :: i in DispatchIssues(left, right) && i.severity.Contradiction?
  {
    hide At, CompetingCase, CompetingDefaults, Targets, AbsentIssues;
    if left.complete && Targets(right) - Targets(left) != {} {
      AbsentReported(left, right, left.site);
    } else if right.complete && Targets(left) - Targets(right) != {} {
      AbsentReported(right, left, left.site);
    } else if HasCompetingCase(left, right) {
      var c :| c in left.cases && CompetingCase(c, right);
      assert CaseIssue(left, right, c.selector) in DispatchIssues(left, right);
    } else {
      assert DefaultIssue(left, right) in DispatchIssues(left, right);
    }
  }

  lemma {:induction false} ReportedDisagrees(left: Payload, right: Payload, i: Issue)
    requires left.DispatchMap? && right.DispatchMap? && i in DispatchIssues(left, right) && i.severity.Contradiction?
    ensures left.site == right.site && MapsDisagree(left, right)
  {
    hide At, CompetingCase, CompetingDefaults, Targets;
    if i in AbsentIssues(left, right, left.site) || i in AbsentIssues(right, left, left.site) {
      hide CaseIssue, DefaultIssue, AbsentIssue;
    } else {
      hide AbsentIssues;
    }
  }

  lemma {:induction false} DispatchContradiction(left: Payload, right: Payload)
    requires left.DispatchMap? && right.DispatchMap?
    ensures Contradicts(left, right) <==> left.site == right.site && MapsDisagree(left, right)
  {
    hide DispatchIssues, MapsDisagree;
    assert Issues(left, right) == DispatchIssues(left, right);
    hide Issues;
    if i :| i in DispatchIssues(left, right) && i.severity.Contradiction? {
      ReportedDisagrees(left, right, i);
    }
    if left.site == right.site && MapsDisagree(left, right) {
      DisagreementReported(left, right);
    }
  }

  /** Early-exit test for two maps of one site. */
  method DispatchMapsContradict(left: Payload, right: Payload) returns (result: bool)
    requires left.DispatchMap? && right.DispatchMap?
    ensures result <==> Contradicts(left, right)
  {
    hide Contradicts, Targets;
    DispatchContradiction(left, right);
    if left.site != right.site {
      return false;
    }
    var decisive := left.complete || right.complete;
    for n := 0 to |left.cases|
      invariant decisive ==> forall c :: c in left.cases[..n] ==> !CompetingCase(c, right)
    {
      assert left.cases[..n + 1] == left.cases[..n] + [left.cases[n]];
      if left.cases[n].selector.Some? {
        var other := FindSelector(right.cases, left.cases[n].selector);
        if other.Some? && other.value != left.cases[n].target && decisive {
          assert left.cases[n] in left.cases && CompetingCase(left.cases[n], right);
          return true;
        }
      }
    }
    assert left.cases[..|left.cases|] == left.cases;
    if CompetingDefaults(left, right) && decisive {
      return true;
    }
    if left.complete && Targets(right) - Targets(left) != {} {
      return true;
    }
    return right.complete && Targets(left) - Targets(right) != {};
  }

  // ---- marking ------------------------------------------------------------------------

  ghost predicate Sound(ordered: seq<Ranked>, marked: set<nat>) {
    forall i :: i in marked ==> i < |ordered| && Participates(ordered, i)
  }

  /** Both ends of every contradiction inside the list are marked. */
  ghost predicate Complete(ordered: seq<Ranked>, indices: seq<nat>, marked: set<nat>) {
    forall x, y :: 0 <= x < y < |indices| && ContradictAt(ordered, indices[x], indices[y]) ==>
      indices[x] in marked && indices[y] in marked
  }

  ghost predicate InBucket(ordered: seq<Ranked>, k: Bucket, indices: seq<nat>) {
    && (forall x :: 0 <= x < |indices| ==> indices[x] < |ordered| && BucketOf(ordered[indices[x]].payload) == Some(k))
    && (forall x, y :: 0 <= x < y < |indices| ==> indices[x] < indices[y])
  }

  method Competes(k: Bucket, left: Payload, right: Payload) returns (competes: bool)
    requires k.TargetBucket? || k.EdgeBucket? || k.DispatchBucket?
    requires BucketOf(left) == Some(k) && BucketOf(right) == Some(k)
    ensures competes <==> Contradicts(left, right)
  {
    hide Contradicts;
    match k
    case TargetBucket(_, _) =>
      TargetContradiction(left, right);
      competes := left.target != right.target && (left.unique || right.unique);
    case EdgeBucket(_, _) =>
      EdgeContradiction(left, right);
      competes := OppositeReachability(left.state, right.state);
    case DispatchBucket(_) =>
      competes := DispatchMapsContradict(left, right);
  }

  method MarkPairs(ordered: seq<Ranked>, k: Bucket, indices: seq<nat>, before: set<Digest>, ghost marked: set<nat>)
    returns (contradicted: set<Digest>, ghost after: set<nat>)
    requires k.TargetBucket? || k.EdgeBucket? || k.DispatchBucket?
    requires InBucket(ordered, k, indices)
    requires Sound(ordered, marked) && before == Ids(ordered, marked)
    ensures marked <= after && Sound(ordered, after) && contradicted == Ids(ordered, after)
    ensures Complete(ordered, indices, after)
  {
    hide Contradicts, BucketOf;
    contradicted, after := before, marked;
    for x := 0 to |indices|
      invariant marked <= after && Sound(ordered, after) && contradicted == Ids(ordered, after)
      invariant forall a, b :: 0 <= a < x && a < b < |indices| ==>
                  ContradictAt(ordered, indices[a], indices[b]) ==> indices[a] in after && indices[b] in after
    {
      for y := x + 1 to |indices|
        invariant marked <= after && Sound(ordered, after) && contradicted == Ids(ordered, after)
        invariant forall a, b :: 0 <= a < b < |indices| && (a < x || (a == x && b < y)) ==>
                    ContradictAt(ordered, indices[a], indices[b]) ==> indices[a] in after && indices[b] in after
      {
        var left, right := ordered[indices[x]], ordered[indices[y]];
        var competes := Competes(k, left.payload, right.payload);
        if competes {
          assert ContradictAt(ordered, indices[x], indices[y]);
          contradicted := contradicted + {left.id, right.id};
          after := after + {indices[x], indices[y]};
        }
      }
    }
  }

  /** The positions of the list that satisfy the test, in order. */
  method Select(ordered: seq<Ranked>, indices: seq<nat>, test: Payload -> bool) returns (selected: seq<nat>)
    requires forall x :: 0 <= x < |indices| ==> indices[x] < |ordered|
    ensures forall i :: i in selected <==> i in indices && test(ordered[i].payload)
  {
    selected := [];
    for x := 0 to |indices|
      invariant forall i :: i in selected <==> i in indices[..x] && test(ordered[i].payload)
    {
      assert indices[..x + 1] == indices[..x] + [indices[x]];
      if test(ordered[indices[x]].payload) {
        selected := selected + [indices[x]];
      }
    }
    assert indices[..|indices|] == indices;
  }

  /** Mark two groups that contradict each other wholesale. */
  method MarkGroups(ordered: seq<Ranked>, left: seq<nat>, right: seq<nat>, before: set<Digest>, ghost marked: set<nat>)
    returns (contradicted: set<Digest>, ghost after: set<nat>)
    requires Sound(ordered, marked) && before == Ids(ordered, marked)
    requires forall i, j :: i in left && j in right ==>
               i < |ordered| && j < |ordered| && Participates(ordered, i) && Participates(ordered, j)
    ensures marked <= after && Sound(ordered, after) && contradicted == Ids(ordered, after)
    ensures forall i, j :: i in left && j in right ==> i in after && j in after
  {
    hide Participates;
    contradicted, after := before, marked;
    if left != [] && right != [] {
      assert left[0] in left && right[0] in right;
      for x := 0 to |left|
        invariant marked <= after && Sound(ordered, after) && contradicted == Ids(ordered, after)
        invariant forall a :: 0 <= a < x ==> left[a] in after
      {
        assert left[x] in left;
        contradicted := contradicted + {ordered[left[x]].id};
        after := after + {left[x]};
      }
      for x := 0 to |right|
        invariant marked <= after && Sound(ordered, after) && contradicted == Ids(ordered, after)
        invariant forall a :: 0 <= a < |left| ==> left[a] in after
        invariant forall a :: 0 <= a < x ==> right[a] in after
      {
        assert right[x] in right;
        contradicted := contradicted + {ordered[right[x]].id};
        after := after + {right[x]};
      }
    }
  }

  lemma {:induction false} FunctionPairParticipates(ordered: seq<Ranked>, k: Bucket, i: nat, j: nat)
    requires k.FunctionBucket? && i < |ordered| && j < |ordered|
    requires BucketOf(ordered[i].payload) == Some(k) && BucketOf(ordered[j].payload) == Some(k)
    requires IsNoReturn(ordered[i].payload) && (IsReturns(ordered[j].payload) || IsReturned(ordered[j].payload))
    ensures Participates(ordered, i) && Participates(ordered, j)
  {
    hide Contradicts, Issues;
    FunctionContradiction(ordered[i].payload, ordered[j].payload);
    FunctionContradiction(ordered[j].payload, ordered[i].payload);
    assert ContradictAt(ordered, i, j) || ContradictAt(ordered, j, i);
  }

  method MarkFunction(ordered: seq<Ranked>, k: Bucket, indices: seq<nat>, before: set<Digest>, ghost marked: set<nat>)
    returns (contradicted: set<Digest>, ghost after: set<nat>)
    requires k.FunctionBucket? && InBucket(ordered, k, indices)
    requires Sound(ordered, marked) && before == Ids(ordered, marked)
    ensures marked <= after && Sound(ordered, after) && contradicted == Ids(ordered, after)
    ensures Complete(ordered, indices, after)
  {
    hide Contradicts, Participates;
    var returns_ := Select(ordered, indices, IsReturns);
    var noReturns := Select(ordered, indices, IsNoReturn);
    var returned := Select(ordered, indices, IsReturned);
    forall i, j | i in noReturns && (j in returns_ || j in returned)
      ensures Participates(ordered, i) && Participates(ordered, j)
    {
      FunctionPairParticipates(ordered, k, i, j);
    }
    contradicted, after := MarkGroups(ordered, returns_, noReturns, before, marked);
    contradicted, after := MarkGroups(ordered, noReturns, returned, contradicted, after);
    forall x, y | 0 <= x < y < |indices| && ContradictAt(ordered, indices[x], indices[y])
      ensures indices[x] in after && indices[y] in after
    {
      FunctionContradiction(ordered[indices[x]].payload, ordered[indices[y]].payload);
    }
  }

  method MarkBucket(ordered: seq<Ranked>, k: Bucket, indices: seq<nat>, before: set<Digest>, ghost marked: set<nat>)
    returns (contradicted: set<Digest>, ghost after: set<nat>)
    requires InBucket(ordered, k, indices)
    requires Sound(ordered, marked) && before == Ids(ordered, marked)
    ensures marked <= after && Sound(ordered, after) && contradicted == Ids(ordered, after)
    ensures Complete(ordered, indices, after)
  {
    hide Contradicts, Participates;
    if k.TargetBucket? || k.EdgeBucket? || k.DispatchBucket? {
      contradicted, after := MarkPairs(ordered, k, indices, before, marked);
    } else if k.FunctionBucket? {
      contradicted, after := MarkFunction(ordered, k, indices, before, marked);
    } else {
      contradicted, after := before, marked;
      forall x, y | 0 <= x < y < |indices| ensures !ContradictAt(ordered, indices[x], indices[y]) {
        NoSubjectNoContradiction(k, ordered[indices[x]].payload, ordered[indices[y]].payload);
      }
    }
  }

  lemma {:induction false} NoSubjectNoContradiction(k: Bucket, left: Payload, right: Payload)
    requires BucketOf(left) == Some(k)
    requires k.MemoryBucket? || k.StringBucket? || k.CandidateBucket? || k.RegisterBucket? || k.CallBucket?
    ensures !Contradicts(left, right)
  {
    if Contradicts(left, right) {
      ContradictionsShareSubject(left, right);
    }
  }

  // ---- regions ---------------------------------------------------------------------------

  ghost predicate RegionsValid(ordered: seq<Ranked>) {
    forall i :: 0 <= i < |ordered| && ordered[i].payload.CodeRegion? ==>
      ordered[i].payload.start < ordered[i].payload.end
  }

  lemma {:induction false} RegionContradiction(left: Payload, right: Payload)
    requires left.CodeRegion? && right.CodeRegion?
    ensures Contradicts(left, right) <==>
            RegionsOverlap(left, right) && RegionKindsIncompatible(left.regionKind, right.regionKind)
  {
    hide Ascii;
    assert Issues(left, right) == RegionIssues(left, right);
    if RegionsOverlap(left, right) && RegionKindsIncompatible(left.regionKind, right.regionKind) {
      var i :| i in Issues(left, right);
      assert i.severity.Contradiction?;
    }
  }

  /** For spans in sweep order, starting before the earlier one ends is overlapping it. */
  lemma {:induction false} SpanContradiction(ordered: seq<Ranked>, spans: seq<Span>, x: nat, y: nat)
    requires Ascending(spans, SpanLess) && Spanned(ordered, |ordered|, spans) && RegionsValid(ordered)
    requires x < y < |spans|
    ensures var i, j := spans[x].index, spans[y].index;
            i < |ordered| && j < |ordered| &&
            (ContradictAt(ordered, i, j) || ContradictAt(ordered, j, i) <==>
             spans[y].start < spans[x].end &&
             RegionKindsIncompatible(ordered[i].payload.regionKind, ordered[j].payload.regionKind))
  {
    hide Contradicts, SpanPairs;
    assert spans[x] in spans && spans[y] in spans;
    var i, j := spans[x].index, spans[y].index;
    assert SpanLess(spans[x], spans[y]);
    RegionContradiction(ordered[i].payload, ordered[j].payload);
    RegionContradiction(ordered[j].payload, ordered[i].payload);
  }

  ghost predicate SpansMarked(ordered: seq<Ranked>, spans: seq<Span>, x: nat, upTo: nat, marked: set<nat>)
    requires x < |spans| && upTo <= |spans|
  {
    forall y :: x < y < upTo &&
                (ContradictAt(ordered, spans[x].index, spans[y].index) ||
                 ContradictAt(ordered, spans[y].index, spans[x].index)) ==>
                  spans[x].index in marked && spans[y].index in marked
  }

  lemma {:induction false} SpanOfRegion(ordered: seq<Ranked>, spans: seq<Span>, x: nat)
    requires Spanned(ordered, |ordered|, spans) && x < |spans|
    ensures spans[x].index < |ordered| && ordered[spans[x].index].payload.CodeRegion?
  {
    assert spans[x] in spans;
  }

  lemma {:induction false} NoneMarked(ordered: seq<Ranked>, spans: seq<Span>, x: nat, marked: set<nat>)
    requires x < |spans|
    ensures SpansMarked(ordered, spans, x, x + 1, marked)
  {
  }

  lemma {:induction false} MarkNext(ordered: seq<Ranked>, spans: seq<Span>, x: nat, y: nat, earlier: set<nat>,
                                    marked: set<nat>)
    requires x < y < |spans| && earlier <= marked && SpansMarked(ordered, spans, x, y, earlier)
    requires ContradictAt(ordered, spans[x].index, spans[y].index) ||
             ContradictAt(ordered, spans[y].index, spans[x].index) ==>
               spans[x].index in marked && spans[y].index in marked
    ensures SpansMarked(ordered, spans, x, y + 1, marked)
  {
    hide ContradictAt;
  }

  /** Both ends of a contradiction are marked together. */
  lemma {:induction false} MarkPair(ordered: seq<Ranked>, marked: set<nat>, i: nat, j: nat)
    requires Sound(ordered, marked) && (ContradictAt(ordered, i, j) || ContradictAt(ordered, j, i))
    requires i < |ordered| && j < |ordered|
    ensures Sound(ordered, marked + {i, j})
    ensures Ids(ordered, marked + {i, j}) == Ids(ordered, marked) + {ordered[i].id, ordered[j].id}
  {
    hide ContradictAt;
  }

  method MarkSpansFrom(ordered: seq<Ranked>, spans: seq<Span>, x: nat, before: set<Digest>, ghost marked: set<nat>)
    returns (contradicted: set<Digest>, ghost after: set<nat>)
    requires Ascending(spans, SpanLess) && Spanned(ordered, |ordered|, spans) && RegionsValid(ordered)
    requires x < |spans|
    requires Sound(ordered, marked) && before == Ids(ordered, marked)
    ensures marked <= after && Sound(ordered, after) && contradicted == Ids(ordered, after)
    ensures SpansMarked(ordered, spans, x, |spans|, after)
  {
    hide ContradictAt, Participates, SpansMarked, Ids, Spanned, RegionsValid, RegionKindsIncompatible;
    contradicted, after := before, marked;
    var y := x + 1;
    SpanOfRegion(ordered, spans, x);
    assert SpansMarked(ordered, spans, x, y, after) by { NoneMarked(ordered, spans, x, after); }
    var left := ordered[spans[x].index];
    while y < |spans| && spans[y].start < spans[x].end
      invariant x < y <= |spans|
      invariant marked <= after && Sound(ordered, after) && contradicted == Ids(ordered, after)
      invariant SpansMarked(ordered, spans, x, y, after)
    {
      SpanOfRegion(ordered, spans, y);
      SpanContradiction(ordered, spans, x, y);
      ghost var earlier := after;
      var right := ordered[spans[y].index];
      if RegionKindsIncompatible(left.payload.regionKind, right.payload.regionKind) {
        MarkPair(ordered, after, spans[x].index, spans[y].index);
        contradicted := contradicted + {left.id, right.id};
        after := after + {spans[x].index, spans[y].index};
      }
      MarkNext(ordered, spans, x, y, earlier, after);
      y := y + 1;
    }
    NoneBeyond(ordered, spans, x, y, after);
  }

  /** Once a span starts at or after the end of the swept one, no later span contradicts it. */
  lemma {:induction false} NoneBeyond(ordered: seq<Ranked>, spans: seq<Span>, x: nat, y: nat, marked: set<nat>)
    requires Ascending(spans, SpanLess) && Spanned(ordered, |ordered|, spans) && RegionsValid(ordered)
    requires x < y <= |spans| && SpansMarked(ordered, spans, x, y, marked)
    requires y < |spans| ==> spans[y].start >= spans[x].end
    ensures SpansMarked(ordered, spans, x, |spans|, marked)
  {
    hide ContradictAt, Spanned, RegionsValid;
    forall b | y <= b < |spans|
      ensures !ContradictAt(ordered, spans[x].index, spans[b].index)
      ensures !ContradictAt(ordered, spans[b].index, spans[x].index)
    {
      SpanContradiction(ordered, spans, x, b);
      assert b > y ==> SpanLess(spans[y], spans[b]);
    }
  }

  method MarkSpans(ordered: seq<Ranked>, spans: seq<Span>, before: set<Digest>, ghost marked: set<nat>)
    returns (contradicted: set<Digest>, ghost after: set<nat>)
    requires Ascending(spans, SpanLess) && Spanned(ordered, |ordered|, spans) && RegionsValid(ordered)
    requires Sound(ordered, marked) && before == Ids(ordered, marked)
    ensures marked <= after && Sound(ordered, after) && contradicted == Ids(ordered, after)
    ensures forall x :: 0 <= x < |spans| ==> SpansMarked(ordered, spans, x, |spans|, after)
  {
    hide ContradictAt, Spanned, Participates;
    contradicted, after := before, marked;
    for x := 0 to |spans|
      invariant marked <= after && Sound(ordered, after) && contradicted == Ids(ordered, after)
      invariant forall a :: 0 <= a < x ==> SpansMarked(ordered, spans, a, |spans|, after)
    {
      ghost var earlier := after;
      contradicted, after := MarkSpansFrom(ordered, spans, x, contradicted, after);
      forall a | 0 <= a < x ensures SpansMarked(ordered, spans, a, |spans|, after) {
        assert SpansMarked(ordered, spans, a, |spans|, earlier);
      }
    }
  }

  // ---- the scan ------------------------------------------------------------------------

  method MarkBuckets(ordered: seq<Ranked>, buckets: map<Bucket, seq<nat>>)
    returns (contradicted: set<Digest>, ghost marked: set<nat>)
    requires Grouped(ordered, |ordered|, buckets)
    ensures Sound(ordered, marked) && contradicted == Ids(ordered, marked)
    ensures forall k :: k in buckets ==> Complete(ordered, buckets[k], marked)
  {
    contradicted, marked := {}, {};
    var keys := buckets.Keys;
    while keys != {}
      invariant keys <= buckets.Keys
      invariant Sound(ordered, marked) && contradicted == Ids(ordered, marked)
      invariant forall k :: k in buckets && k !in keys ==> Complete(ordered, buckets[k], marked)
    {
      hide ContradictAt, Participates;
      var k :| k in keys;
      ghost var earlier := marked;
      contradicted, marked := MarkBucket(ordered, k, buckets[k], contradicted, marked);
      forall other | other in buckets && other !in keys ensures Complete(ordered, buckets[other], marked) {
        assert Complete(ordered, buckets[other], earlier);
      }
      keys := keys - {k};
    }
  }

  lemma {:induction false} MarkedCovers(ordered: seq<Ranked>, buckets: map<Bucket, seq<nat>>, spans: seq<Span>,
                                        marked: set<nat>, i: nat, j: nat)
    requires Grouped(ordered, |ordered|, buckets)
    requires forall k :: k in buckets ==> Complete(ordered, buckets[k], marked)
    requires Spanned(ordered, |ordered|, spans)
    requires forall x :: 0 <= x < |spans| ==> SpansMarked(ordered, spans, x, |spans|, marked)
    requires ContradictAt(ordered, i, j)
    ensures i in marked && j in marked
  {
    hide BucketOf, Issues, SubjectOf, RegionsOverlap, RegionKindsIncompatible;
    var left, right := ordered[i].payload, ordered[j].payload;
    IssuesShareBucket(left, right);
    if left.CodeRegion? {
      var x :| 0 <= x < |spans| && spans[x] == Span(left.start, left.end, i);
      var y :| 0 <= y < |spans| && spans[y] == Span(right.start, right.end, j);
      assert SpansMarked(ordered, spans, if x < y then x else y, |spans|, marked);
    } else {
      var indices := buckets[BucketOf(left).value];
      var x :| 0 <= x < |indices| && indices[x] == i;
      var y :| 0 <= y < |indices| && indices[y] == j;
      assert Complete(ordered, indices, marked);
    }
  }

  /** The scan returns exactly the identities named by the report's contradictions. */
  method ContradictedPayloadDigests(ordered: seq<Ranked>) returns (contradicted: set<Digest>)
    requires RegionsValid(ordered)
    ensures contradicted == ContradictedInReport(ordered)
    ensures contradicted == Ids(ordered, Participants(ordered))
  {
    hide Contradicts, Complete, SpansMarked, Grouped, ContradictedInReport, SortUnique;
    var buckets, spans := Group(ordered);
    ghost var marked;
    contradicted, marked := MarkBuckets(ordered, buckets);
    ghost var bucketed := marked;
    var swept := SortUnique(spans, SpanLess);
    SpanLessTotal();
    SortUniqueSpec(spans, SpanLess);
    assert forall s :: s in swept <==> s in spans by {
      assert forall s :: s in swept <==> s in Elements(swept);
      assert forall s :: s in spans <==> s in Elements(spans);
    }
    contradicted, marked := MarkSpans(ordered, swept, contradicted, marked);
    forall k | k in buckets ensures Complete(ordered, buckets[k], marked) {
      CompleteMonotone(ordered, buckets[k], bucketed, marked);
    }
    forall i, j | ContradictAt(ordered, i, j) ensures i in marked && j in marked {
      MarkedCovers(ordered, buckets, swept, marked, i, j);
    }
    assert marked == Participants(ordered);
    ParticipantsAreReported(ordered);
  }

  lemma {:induction false} CompleteMonotone(ordered: seq<Ranked>, indices: seq<nat>, before: set<nat>,
                                            after: set<nat>)
    requires Complete(ordered, indices, before) && before <= after
    ensures Complete(ordered, indices, after)
  {
  }
}
