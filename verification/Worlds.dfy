/**
 * What payloads claim about the analysed program. A world says which edges are
 * taken, where control goes, which functions return, which bytes are code and
 * how dispatches select. Payloads can all be true together exactly when no two
 * of them contradict, so the pairwise relation decides joint consistency.
 */
module Worlds {
  import opened Orders
  import opened Words
  import opened Facts
  import opened Conflicts
  import opened ContradictionScan

  /** One way the program could be, over all its executions. */
  datatype World = World(
    taken: iset<(Address, Address)>, targets: iset<(Address, CodeTargetKind, Address)>,
    returning: iset<Address>, code: iset<Address>,
    reached: iset<(Address, Address)>, selected: iset<(Address, U64, Address)>, defaults: iset<(Address, Address)>)

  // ---- what each kind claims ------------------------------------------------------------------------

  ghost predicate EdgeHolds(w: World, from: Address, to: Address, state: Reachability) {
    match state
    case NotObserved => true
    case Reached => (from, to) in w.taken
    case ProvenUnreachable => (from, to) !in w.taken
  }

  /** The target is one of the targets, and the only one when it is asserted to be. */
  ghost predicate TargetHolds(w: World, p: Payload)
    requires p.CodeTarget?
  {
    && (p.from, p.targetKind, p.target) in w.targets
    && (p.unique ==> forall t: Address :: (p.from, p.targetKind, t) in w.targets ==> t == p.target)
  }

  predicate Spans(p: Payload, a: Address) { p.CodeRegion? && p.start <= a < p.end }

  ghost predicate RegionHolds(w: World, p: Payload)
    requires p.CodeRegion?
  {
    match p.regionKind
    case Code => forall a: Address :: Spans(p, a) ==> a in w.code
    case Data => forall a: Address :: Spans(p, a) ==> a !in w.code
    case Padding => forall a: Address :: Spans(p, a) ==> a !in w.code
    case _ => true
  }

  /** The map names the target, in a case or as the default. */
  ghost predicate Names(p: Payload, t: Address)
    requires p.DispatchMap?
  {
    p.defaultTarget == Some(t) || exists i :: 0 <= i < |p.cases| && p.cases[i].target == t
  }

  /** What the map names happens. */
  ghost predicate MapObserved(w: World, p: Payload)
    requires p.DispatchMap?
  {
    && (forall t: Address :: Names(p, t) ==> (p.site, t) in w.reached)
    && (forall c :: c in p.cases && c.selector.Some? ==> (p.site, c.selector.value, c.target) in w.selected)
    && (p.defaultTarget.Some? ==> (p.site, p.defaultTarget.value) in w.defaults)
  }

  /** Nothing else happens at the site, for its selectors or by default. */
  ghost predicate MapExhausts(w: World, p: Payload)
    requires p.DispatchMap?
  {
    && (forall t: Address :: (p.site, t) in w.reached ==> Names(p, t))
    && (forall c, t: Address :: c in p.cases && c.selector.Some? && (p.site, c.selector.value, t) in w.selected ==>
          t == c.target)
    && (forall t: Address :: p.defaultTarget.Some? && (p.site, t) in w.defaults ==> t == p.defaultTarget.value)
  }

  /** The payload is true of the world; what single observations saw is true of any. */
  ghost predicate Holds(w: World, p: Payload) {
    match p
    case CodeTarget(_, _, _, _) => TargetHolds(w, p)
    case BranchReachability(branch, successor, state) => EdgeHolds(w, branch, successor, state)
    case CfgCandidate(from, to, _, state) => EdgeHolds(w, from, to, state)
    case FunctionTrait(func, t, _) =>
      (t.Returns? ==> func in w.returning) && (t.NoReturn? ==> func !in w.returning)
    case FunctionOutcome(func, stop, _, _, _) => stop.Returned? ==> func in w.returning
    case CodeRegion(_, _, _) => RegionHolds(w, p)
    case DispatchMap(_, _, _, complete) => MapObserved(w, p) && (complete ==> MapExhausts(w, p))
    case _ => true
  }

  ghost predicate AllHold(w: World, payloads: set<Payload>) { forall p :: p in payloads ==> Holds(w, p) }

  /** Some world makes all of them true. */
  ghost predicate Satisfiable(payloads: set<Payload>) { exists w :: AllHold(w, payloads) }

  // ---- selectors of valid maps ----------------------------------------------------------------------

  /** A valid map gives each known selector one target, which is the first one found. */
  lemma {:induction false} ListedOnce(cases: seq<DispatchCase>, c: DispatchCase)
    requires DispatchCasesValid(cases) && c in cases && c.selector.Some?
    ensures FirstTarget(cases, c.selector) == Some(c.target)
  {
    CaseLessTotal();
    NeighboursAscendAll(cases, CaseLess);
    var i :| 0 <= i < |cases| && cases[i] == c;
    forall j | 0 <= j < i ensures cases[j].selector != c.selector {
      NeverRepeats(cases, j, i);
    }
    FirstAt(cases, c.selector, i);
  }

  lemma {:induction false} NeverRepeats(cases: seq<DispatchCase>, j: nat, i: nat)
    requires DispatchCasesValid(cases) && Ascending(cases, CaseLess) && j < i < |cases| && cases[i].selector.Some?
    ensures cases[j].selector != cases[i].selector
  {
    assert CaseLess(cases[i - 1], cases[i]);
    assert j < i - 1 ==> CaseLess(cases[j], cases[i - 1]);
  }

  lemma {:induction false} FirstAt(cases: seq<DispatchCase>, selector: Option<U64>, i: nat)
    requires i < |cases| && cases[i].selector == selector
    requires forall j :: 0 <= j < i ==> cases[j].selector != selector
    ensures FirstTarget(cases, selector) == Some(cases[i].target)
    decreases i
  {
    if i > 0 {
      FirstAt(cases[1..], selector, i - 1);
    }
  }

  lemma {:induction false} FirstIsListed(cases: seq<DispatchCase>, selector: Option<U64>)
    ensures FirstTarget(cases, selector).Some? ==>
              DispatchCase(selector, FirstTarget(cases, selector).value) in cases
    ensures FirstTarget(cases, selector).None? ==> forall c :: c in cases ==> c.selector != selector
  {
    if cases != [] && cases[0].selector != selector {
      FirstIsListed(cases[1..], selector);
    }
  }

  lemma {:induction false} NamesIsTarget(p: Payload, t: Address)
    requires p.DispatchMap?
    ensures t in Targets(p) <==> Names(p, t)
  {
    if t in Targets(p) && p.defaultTarget != Some(t) {
      var c :| c in p.cases && c.target == t;
      var i :| 0 <= i < |p.cases| && p.cases[i] == c;
    }
    if i :| 0 <= i < |p.cases| && p.cases[i].target == t {
      assert p.cases[i] in p.cases;
    }
  }

  /** Both maps list a selector, with different targets. */
  ghost predicate SelectorsClash(left: Payload, right: Payload)
    requires left.DispatchMap? && right.DispatchMap?
  {
    exists c, d :: c in left.cases && d in right.cases && c.selector.Some? && c.selector == d.selector &&
      c.target != d.target
  }

  ghost predicate DefaultsClash(left: Payload, right: Payload)
    requires left.DispatchMap? && right.DispatchMap?
  {
    left.defaultTarget.Some? && right.defaultTarget.Some? && left.defaultTarget.value != right.defaultTarget.value
  }

  /** A complete map misses a target the other names. */
  ghost predicate Misses(whole: Payload, observed: Payload)
    requires whole.DispatchMap? && observed.DispatchMap?
  {
    whole.complete && exists t: Address :: Names(observed, t) && !Names(whole, t)
  }

  /** On valid maps the scan for the first case finds exactly the clashing selectors. */
  lemma {:induction false} ClashExactly(left: Payload, right: Payload)
    requires left.DispatchMap? && right.DispatchMap? && ValidPayload(right)
    ensures HasCompetingCase(left, right) <==> SelectorsClash(left, right)
  {
    if c :| c in left.cases && CompetingCase(c, right) {
      FirstIsListed(right.cases, c.selector);
      assert DispatchCase(c.selector, FirstTarget(right.cases, c.selector).value) in right.cases;
    }
    if c, d :| c in left.cases && d in right.cases && c.selector.Some? && c.selector == d.selector &&
               c.target != d.target
    {
      ListedOnce(right.cases, d);
      assert CompetingCase(c, right);
    }
  }

  lemma {:induction false} MissesExactly(whole: Payload, observed: Payload)
    requires whole.DispatchMap? && observed.DispatchMap?
    ensures Misses(whole, observed) <==> whole.complete && Targets(observed) - Targets(whole) != {}
  {
    forall t: Address ensures t in Targets(whole) <==> Names(whole, t) { NamesIsTarget(whole, t); }
    forall t: Address ensures t in Targets(observed) <==> Names(observed, t) { NamesIsTarget(observed, t); }
    hide Targets, Names;
    if whole.complete && Targets(observed) - Targets(whole) != {} {
      var t :| t in Targets(observed) - Targets(whole);
      assert Names(observed, t) && !Names(whole, t);
    }
    if Misses(whole, observed) {
      var t: Address :| Names(observed, t) && !Names(whole, t);
      assert t in Targets(observed) - Targets(whole);
    }
  }

  /** Two maps of one site contradict when a complete one is involved in a clash or misses a target. */
  ghost predicate MapsClash(left: Payload, right: Payload)
    requires left.DispatchMap? && right.DispatchMap?
  {
    && left.site == right.site
    && (|| ((left.complete || right.complete) && (SelectorsClash(left, right) || DefaultsClash(left, right)))
        || Misses(left, right) || Misses(right, left))
  }

  lemma {:induction false} MapsClashExactly(left: Payload, right: Payload)
    requires left.DispatchMap? && right.DispatchMap? && ValidPayload(left) && ValidPayload(right)
    ensures Contradicts(left, right) <==> MapsClash(left, right)
  {
    hide ValidPayload, Contradicts, Misses, SelectorsClash, HasCompetingCase, Targets;
    DispatchContradiction(left, right);
    ClashExactly(left, right);
    MissesExactly(left, right);
    MissesExactly(right, left);
  }

  // ---- two payloads at a time -------------------------------------------------------------------------

  /** Contradicting edges: the same ends, reached and proven unreachable. */
  lemma {:induction false} EdgesClash(left: Payload, right: Payload)
    requires left.BranchReachability? || left.CfgCandidate?
    requires right.BranchReachability? || right.CfgCandidate?
    ensures Contradicts(left, right) <==>
            && EdgeFrom(left) == EdgeFrom(right) && EdgeTo(left) == EdgeTo(right)
            && ((left.state == Reached && right.state == ProvenUnreachable) ||
                (left.state == ProvenUnreachable && right.state == Reached))
  {
    hide Contradicts, EdgeIssue;
    EdgeKeys(left);
    EdgeKeys(right);
    if BucketOf(left) == BucketOf(right) {
      EdgeContradiction(left, right);
    } else if Contradicts(left, right) {
      ContradictionsShareSubject(left, right);
    }
  }

  lemma {:induction false} TargetsClash(left: Payload, right: Payload)
    requires left.CodeTarget? && right.CodeTarget?
    ensures Contradicts(left, right) <==>
            && left.from == right.from && left.targetKind == right.targetKind
            && left.target != right.target && (left.unique || right.unique)
  {
    hide Contradicts;
    if BucketOf(left) == BucketOf(right) {
      TargetContradiction(left, right);
    } else if Contradicts(left, right) {
      hide BucketOf;
      OtherTargets(left, right);
    }
  }

  lemma {:induction false} OtherTargets(left: Payload, right: Payload)
    requires left.CodeTarget? && right.CodeTarget? && Contradicts(left, right)
    ensures left.from == right.from && left.targetKind == right.targetKind
  {
    hide At, Ascii;
  }

  /** Contradicting regions share a byte one calls code and the other data or padding. */
  lemma {:induction false} RegionsClash(left: Payload, right: Payload)
    requires left.CodeRegion? && right.CodeRegion?
    ensures Contradicts(left, right) <==>
            && (exists a: Address :: Spans(left, a) && Spans(right, a))
            && ((left.regionKind == Code && right.regionKind in {Data, Padding}) ||
                (left.regionKind in {Data, Padding} && right.regionKind == Code))
  {
    RegionContradiction(left, right);
    hide Contradicts;
    var a := Max(left.start, right.start);
    assert RegionsOverlap(left, right) ==> Spans(left, a) && Spans(right, a);
  }

  predicate OfFunction(p: Payload) { p.FunctionTrait? || p.FunctionOutcome? }

  /** Contradicting function evidence: it never returns, and it does or did. */
  lemma {:induction false} ReturnsClash(left: Payload, right: Payload)
    requires OfFunction(left) && OfFunction(right)
    ensures Contradicts(left, right) <==>
            left.func == right.func &&
            (|| (SaysNever(left) && SaysReturns(right))
             || (SaysReturns(left) && SaysNever(right)))
  {
    hide Contradicts;
    if left.func == right.func {
      FunctionContradiction(left, right);
    } else if Contradicts(left, right) {
      ContradictionsShareSubject(left, right);
    }
  }

  predicate SaysNever(p: Payload) { p.FunctionTrait? && p.trait_ == NoReturn }

  predicate SaysReturns(p: Payload) {
    (p.FunctionTrait? && p.trait_ == FunctionTraitKind.Returns) || (p.FunctionOutcome? && p.stop == Returned)
  }

  predicate OfEdge(p: Payload) { p.BranchReachability? || p.CfgCandidate? }

  /** Payloads that can contradict each other at all. */
  predicate SameFamily(left: Payload, right: Payload) {
    || (left.CodeTarget? && right.CodeTarget?) || (OfEdge(left) && OfEdge(right))
    || (OfFunction(left) && OfFunction(right)) || (left.CodeRegion? && right.CodeRegion?)
    || (left.DispatchMap? && right.DispatchMap?)
  }

  lemma {:induction false} OtherFamilies(left: Payload, right: Payload)
    requires Contradicts(left, right)
    ensures SameFamily(left, right)
  {
    hide Contradicts;
    ContradictionsShareSubject(left, right);
  }

  // ---- no world has both of a contradicting pair ------------------------------------------------------

  lemma {:induction false} MapsNeverBoth(w: World, left: Payload, right: Payload)
    requires left.DispatchMap? && right.DispatchMap? && Holds(w, left) && Holds(w, right)
    ensures !MapsClash(left, right)
  {
    hide Names;
  }

  lemma {:induction false} NeverBoth(w: World, left: Payload, right: Payload)
    requires ValidPayload(left) && ValidPayload(right) && Holds(w, left) && Holds(w, right)
    ensures !Contradicts(left, right)
  {
    hide Contradicts, ValidPayload, MapsClash, MapObserved, MapExhausts;
    if Contradicts(left, right) {
      OtherFamilies(left, right);
      if left.CodeTarget? {
        TargetsClash(left, right);
      } else if OfEdge(left) {
        EdgesClash(left, right);
      } else if OfFunction(left) {
        ReturnsClash(left, right);
      } else if left.CodeRegion? {
        RegionsClash(left, right);
      } else {
        MapsClashExactly(left, right);
        MapsNeverBoth(w, left, right);
      }
    }
  }

  // ---- a world for payloads that do not contradict ---------------------------------------------------

  predicate Reaches(p: Payload, e: (Address, Address)) {
    OfEdge(p) && EdgeFrom(p) == e.0 && EdgeTo(p) == e.1 && p.state.Reached?
  }

  predicate Goes(p: Payload, t: (Address, CodeTargetKind, Address)) {
    p.CodeTarget? && p.from == t.0 && p.targetKind == t.1 && p.target == t.2
  }

  predicate ReturnsAt(p: Payload, func: Address) { SaysReturns(p) && p.func == func }

  predicate Covers(p: Payload, a: Address) { Spans(p, a) && p.regionKind.Code? }

  ghost predicate NamesAt(p: Payload, t: (Address, Address)) { p.DispatchMap? && p.site == t.0 && Names(p, t.1) }

  ghost predicate SelectsAt(p: Payload, t: (Address, U64, Address)) {
    p.DispatchMap? && p.site == t.0 && DispatchCase(Some(t.1), t.2) in p.cases
  }

  predicate DefaultsAt(p: Payload, t: (Address, Address)) {
    p.DispatchMap? && p.site == t.0 && p.defaultTarget == Some(t.1)
  }

  ghost predicate AnyReaches(s: set<Payload>, e: (Address, Address)) { exists p :: p in s && Reaches(p, e) }

  ghost predicate AnyGoes(s: set<Payload>, t: (Address, CodeTargetKind, Address)) { exists p :: p in s && Goes(p, t) }

  ghost predicate AnyReturns(s: set<Payload>, func: Address) { exists p :: p in s && ReturnsAt(p, func) }

  ghost predicate AnyCovers(s: set<Payload>, a: Address) { exists p :: p in s && Covers(p, a) }

  ghost predicate AnyNames(s: set<Payload>, t: (Address, Address)) { exists p :: p in s && NamesAt(p, t) }

  ghost predicate AnySelects(s: set<Payload>, t: (Address, U64, Address)) { exists p :: p in s && SelectsAt(p, t) }

  ghost predicate AnyDefaults(s: set<Payload>, t: (Address, Address)) { exists p :: p in s && DefaultsAt(p, t) }

  /** The world in which exactly what the payloads assert happens. */
  ghost function WorldOf(s: set<Payload>): World {
    World(iset e: (Address, Address) | AnyReaches(s, e),
          iset t: (Address, CodeTargetKind, Address) | AnyGoes(s, t),
          iset f: Address | AnyReturns(s, f),
          iset a: Address | AnyCovers(s, a),
          iset t: (Address, Address) | AnyNames(s, t),
          iset t: (Address, U64, Address) | AnySelects(s, t),
          iset t: (Address, Address) | AnyDefaults(s, t))
  }

  ghost predicate Valid(s: set<Payload>) { forall p :: p in s ==> ValidPayload(p) }

  ghost predicate Agreeing(s: set<Payload>) { forall p, q :: p in s && q in s ==> !Contradicts(p, q) }

  lemma {:induction false} EdgeTrue(s: set<Payload>, p: Payload)
    requires Agreeing(s) && p in s && OfEdge(p)
    ensures Holds(WorldOf(s), p)
  {
    hide Contradicts;
    var e := (EdgeFrom(p), EdgeTo(p));
    assert p.state.Reached? ==> Reaches(p, e);
    if p.state.ProvenUnreachable? {
      forall q | q in s ensures !Reaches(q, e) {
        if Reaches(q, e) { EdgesClash(q, p); }
      }
    }
  }

  lemma {:induction false} TargetTrue(s: set<Payload>, p: Payload)
    requires Agreeing(s) && p in s && p.CodeTarget?
    ensures Holds(WorldOf(s), p)
  {
    hide Contradicts;
    assert Goes(p, (p.from, p.targetKind, p.target));
    forall q, t: Address | q in s && Goes(q, (p.from, p.targetKind, t)) && p.unique ensures t == p.target {
      TargetsClash(q, p);
    }
  }

  lemma {:induction false} FunctionTrue(s: set<Payload>, p: Payload)
    requires Agreeing(s) && p in s && OfFunction(p)
    ensures Holds(WorldOf(s), p)
  {
    hide Contradicts;
    assert SaysReturns(p) ==> ReturnsAt(p, p.func);
    forall q | q in s && SaysNever(p) ensures !ReturnsAt(q, p.func) {
      if ReturnsAt(q, p.func) { ReturnsClash(q, p); }
    }
  }

  lemma {:induction false} RegionTrue(s: set<Payload>, p: Payload)
    requires Agreeing(s) && p in s && p.CodeRegion?
    ensures Holds(WorldOf(s), p)
  {
    hide Contradicts;
    forall a: Address | Spans(p, a) && p.regionKind.Code? ensures a in WorldOf(s).code {
      assert Covers(p, a);
    }
    forall q, a: Address | q in s && Spans(p, a) && p.regionKind in {Data, Padding} ensures !Covers(q, a) {
      if Covers(q, a) { RegionsClash(q, p); }
    }
  }

  lemma {:induction false} MapsAgree(s: set<Payload>, p: Payload, q: Payload)
    requires Valid(s) && Agreeing(s) && p in s && q in s && p.DispatchMap? && q.DispatchMap?
    ensures !MapsClash(p, q)
  {
    hide Contradicts, ValidPayload, MapsClash;
    MapsClashExactly(p, q);
  }

  lemma {:induction false} MapHappens(s: set<Payload>, p: Payload)
    requires p in s && p.DispatchMap?
    ensures MapObserved(WorldOf(s), p)
  {
    hide Names;
    forall t: Address | Names(p, t) ensures (p.site, t) in WorldOf(s).reached {
      assert NamesAt(p, (p.site, t));
    }
    forall c | c in p.cases && c.selector.Some? ensures (p.site, c.selector.value, c.target) in WorldOf(s).selected {
      assert DispatchCase(Some(c.selector.value), c.target) == c;
      assert SelectsAt(p, (p.site, c.selector.value, c.target));
    }
    assert p.defaultTarget.Some? ==> DefaultsAt(p, (p.site, p.defaultTarget.value));
  }

  lemma {:induction false} MapComplete(s: set<Payload>, p: Payload)
    requires Valid(s) && Agreeing(s) && p in s && p.DispatchMap? && p.complete
    ensures MapExhausts(WorldOf(s), p)
  {
    hide Names, Contradicts, ValidPayload, Valid, Agreeing;
    forall t: Address | (p.site, t) in WorldOf(s).reached ensures Names(p, t) {
      var q :| q in s && NamesAt(q, (p.site, t));
      MapsAgree(s, p, q);
    }
    forall c, t: Address | c in p.cases && c.selector.Some? && (p.site, c.selector.value, t) in WorldOf(s).selected
      ensures t == c.target
    {
      var q :| q in s && SelectsAt(q, (p.site, c.selector.value, t));
      MapsAgree(s, p, q);
      assert DispatchCase(Some(c.selector.value), t) in q.cases;
    }
    forall t: Address | p.defaultTarget.Some? && (p.site, t) in WorldOf(s).defaults
      ensures t == p.defaultTarget.value
    {
      var q :| q in s && DefaultsAt(q, (p.site, t));
      MapsAgree(s, p, q);
    }
  }

  lemma {:induction false} AgreeingHold(s: set<Payload>, p: Payload)
    requires Valid(s) && Agreeing(s) && p in s
    ensures Holds(WorldOf(s), p)
  {
    hide Valid, Agreeing, WorldOf, MapObserved, MapExhausts;
    if OfEdge(p) {
      EdgeTrue(s, p);
    } else if p.CodeTarget? {
      TargetTrue(s, p);
    } else if OfFunction(p) {
      FunctionTrue(s, p);
    } else if p.CodeRegion? {
      RegionTrue(s, p);
    } else if p.DispatchMap? {
      MapHappens(s, p);
      if p.complete {
        MapComplete(s, p);
      }
    }
  }

  // ---- the pairwise relation decides satisfiability ----------------------------------------------------

  /** Valid payloads can all be true together if and only if no two of them contradict. */
  lemma {:induction false} SatisfiableExactly(s: set<Payload>)
    requires Valid(s)
    ensures Satisfiable(s) <==> Agreeing(s)
  {
    hide Holds, Contradicts, ValidPayload, WorldOf;
    if Satisfiable(s) {
      var w :| AllHold(w, s);
      forall p, q | p in s && q in s ensures !Contradicts(p, q) {
        NeverBoth(w, p, q);
      }
    }
    if Agreeing(s) {
      forall p | p in s ensures Holds(WorldOf(s), p) {
        AgreeingHold(s, p);
      }
      assert AllHold(WorldOf(s), s);
    }
  }

  /** Every valid payload can be true, and none contradicts itself. */
  lemma {:induction false} AloneSatisfiable(p: Payload)
    requires ValidPayload(p)
    ensures !Contradicts(p, p) && Satisfiable({p})
  {
    hide Contradicts, ValidPayload;
    NeverItself(p);
    SatisfiableExactly({p});
  }

  lemma {:induction false} NeverItself(p: Payload)
    requires ValidPayload(p)
    ensures !Contradicts(p, p)
  {
    hide Contradicts, ValidPayload;
    if Contradicts(p, p) {
      OtherFamilies(p, p);
      if p.CodeTarget? {
        TargetsClash(p, p);
      } else if OfEdge(p) {
        EdgesClash(p, p);
      } else if OfFunction(p) {
        ReturnsClash(p, p);
      } else if p.CodeRegion? {
        RegionsClash(p, p);
      } else {
        MapsClashExactly(p, p);
        NoSelectorTwice(p);
      }
    }
  }

  lemma {:induction false} NoSelectorTwice(p: Payload)
    requires ValidPayload(p) && p.DispatchMap?
    ensures !SelectorsClash(p, p)
  {
    if c, d :| c in p.cases && d in p.cases && c.selector.Some? && c.selector == d.selector && c.target != d.target {
      ListedOnce(p.cases, c);
      ListedOnce(p.cases, d);
    }
  }

  /** The order of a pair does not matter, and a pair contradicts exactly when no world has both. */
  lemma {:induction false} ContradictionExactly(p: Payload, q: Payload)
    requires ValidPayload(p) && ValidPayload(q)
    ensures Contradicts(p, q) <==> !Satisfiable({p, q})
    ensures Contradicts(p, q) <==> Contradicts(q, p)
  {
    hide Contradicts, ValidPayload, Satisfiable;
    NeverItself(p);
    NeverItself(q);
    ContradictionSymmetric(p, q);
    SatisfiableExactly({p, q});
  }

  lemma {:induction false} ContradictionSymmetric(p: Payload, q: Payload)
    requires ValidPayload(p) && ValidPayload(q)
    ensures Contradicts(p, q) <==> Contradicts(q, p)
  {
    hide Contradicts, ValidPayload;
    if Contradicts(p, q) { Reverses(p, q); }
    if Contradicts(q, p) { Reverses(q, p); }
  }

  lemma {:induction false} Reverses(p: Payload, q: Payload)
    requires ValidPayload(p) && ValidPayload(q) && Contradicts(p, q)
    ensures Contradicts(q, p)
  {
    hide Contradicts, ValidPayload, Misses;
    OtherFamilies(p, q);
    if p.CodeTarget? {
      TargetsClash(p, q);
      TargetsClash(q, p);
    } else if OfEdge(p) {
      EdgesClash(p, q);
      EdgesClash(q, p);
    } else if OfFunction(p) {
      ReturnsClash(p, q);
      ReturnsClash(q, p);
    } else if p.CodeRegion? {
      RegionsClash(p, q);
      RegionsClash(q, p);
    } else {
      MapsClashExactly(p, q);
      MapsClashExactly(q, p);
    }
  }
}
