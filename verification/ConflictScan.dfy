/**
 * The exhaustive conflict report. Payloads are bucketed by subject, regions are
 * swept by start address, and the result is proved to be exactly the sorted,
 * deduplicated conflicts of the naive comparison of all pairs.
 */
module ConflictScan {
  import opened Orders
  import opened Words
  import opened Facts
  import opened Conflicts

  /** One record of the ledger in canonical order, with its identity. */
  datatype Ranked = Ranked(payload: Payload, id: Digest)

  // ---- the naive specification ---------------------------------------------------

  ghost function PairAt(only: bool, ordered: seq<Ranked>, p: (nat, nat)): set<Conflict> {
    if p.0 < |ordered| && p.1 < |ordered| then
      PairConflicts(only, ordered[p.0].payload, ordered[p.1].payload, ordered[p.0].id, ordered[p.1].id)
    else {}
  }

  /** The conflicts of a set of compared pairs. */
  ghost function Over(only: bool, ordered: seq<Ranked>, pairs: set<(nat, nat)>): set<Conflict> {
    set p, c | p in pairs && c in PairAt(only, ordered, p) :: c
  }

  ghost function AllPairs(n: nat): set<(nat, nat)> {
    set i: nat, j: nat | i < j < n :: (i, j)
  }

  /** What comparing every pair of records in canonical order reports. */
  ghost function AllConflicts(ordered: seq<Ranked>): set<Conflict> {
    Over(false, ordered, AllPairs(|ordered|))
  }

  lemma {:induction false} OverAdd(only: bool, ordered: seq<Ranked>, pairs: set<(nat, nat)>, p: (nat, nat))
    ensures Over(only, ordered, pairs + {p}) == Over(only, ordered, pairs) + PairAt(only, ordered, p)
  {
  }

  /** The competing cases among the first `n`. */
  ghost function CaseIssues(left: Payload, right: Payload, n: nat): set<Issue>
    requires left.DispatchMap? && right.DispatchMap? && n <= |left.cases|
  {
    set c | c in left.cases[..n] && CompetingCase(c, right) :: CaseIssue(left, right, c.selector)
  }

  lemma {:induction false} CaseIssuesStep(left: Payload, right: Payload, n: nat)
    requires left.DispatchMap? && right.DispatchMap? && n < |left.cases|
    ensures CaseIssues(left, right, n + 1) ==
            if CompetingCase(left.cases[n], right)
            then CaseIssues(left, right, n) + {CaseIssue(left, right, left.cases[n].selector)}
            else CaseIssues(left, right, n)
  {
    hide CompetingCase, CaseIssue;
    assert left.cases[..n + 1] == left.cases[..n] + [left.cases[n]];
  }

  ghost function Absent(site: Address, targets: set<Address>): set<Issue> {
    set t | t in targets :: AbsentIssue(site, t)
  }

  // ---- the accumulator -------------------------------------------------------------

  class ConflictAccumulator {
    const contradictionsOnly: bool
    var conflicts: seq<Conflict>

    constructor (only: bool)
      ensures contradictionsOnly == only && conflicts == []
    {
      contradictionsOnly := only;
      conflicts := [];
    }

    ghost function Kept(): set<Conflict>
      reads this
    {
      Elements(conflicts)
    }

    method Add(i: Issue, leftId: Digest, rightId: Digest)
      modifies this
      ensures Kept() == old(Kept()) +
                        if contradictionsOnly && !i.severity.Contradiction? then {} else {Seal(i, leftId, rightId)}
    {
      if contradictionsOnly && !i.severity.Contradiction? {
        return;
      }
      conflicts := conflicts + [Seal(i, leftId, rightId)];
    }

    ghost function Sealed(issues: set<Issue>, leftId: Digest, rightId: Digest): set<Conflict> {
      set i | i in issues && (contradictionsOnly ==> i.severity.Contradiction?) :: Seal(i, leftId, rightId)
    }

    lemma {:induction false} SealedGrows(issues: set<Issue>, i: Issue, leftId: Digest, rightId: Digest)
      ensures Sealed(issues + {i}, leftId, rightId) ==
              Sealed(issues, leftId, rightId) +
              if contradictionsOnly && !i.severity.Contradiction? then {} else {Seal(i, leftId, rightId)}
    {
      hide Seal;
    }

    method CompareCases(left: Payload, right: Payload, leftId: Digest, rightId: Digest)
      requires left.DispatchMap? && right.DispatchMap?
      modifies this
      ensures Kept() == old(Kept()) +
                        Sealed(set c | c in left.cases && CompetingCase(c, right) :: CaseIssue(left, right, c.selector),
                               leftId, rightId)
    {
      hide Seal, Sealed, Kept, CaseIssue;
      assert CaseIssues(left, right, 0) == {} && Sealed({}, leftId, rightId) == {} by { NoneSealed(leftId, rightId); }
      for n := 0 to |left.cases|
        invariant Kept() == old(Kept()) + Sealed(CaseIssues(left, right, n), leftId, rightId)
      {
        CaseIssuesStep(left, right, n);
        var leftCase := left.cases[n];
        if leftCase.selector.Some? {
          var other := FindSelector(right.cases, leftCase.selector);
          if other.Some? && other.value != leftCase.target {
            SealedGrows(CaseIssues(left, right, n), CaseIssue(left, right, leftCase.selector), leftId, rightId);
            hide CaseIssues, CompetingCase;
            Add(CaseIssue(left, right, leftCase.selector), leftId, rightId);
          }
        }
      }
      assert left.cases[..|left.cases|] == left.cases;
    }

    lemma {:induction false} NoneSealed(leftId: Digest, rightId: Digest)
      ensures Sealed({}, leftId, rightId) == {}
    {
    }

    method CompareTargets(whole: Payload, observed: Payload, site: Address, leftId: Digest, rightId: Digest)
      requires whole.DispatchMap? && observed.DispatchMap?
      modifies this
      ensures Kept() == old(Kept()) + Sealed(AbsentIssues(whole, observed, site), leftId, rightId)
    {
      hide Seal, Sealed, Kept, Targets, AbsentIssue;
      NoneSealed(leftId, rightId);
      if !whole.complete {
        return;
      }
      var known := Targets(whole);
      var rest := Targets(observed);
      ghost var done: set<Address> := {};
      assert Absent(site, done) == {};
      while rest != {}
        invariant rest <= Targets(observed) && done == Targets(observed) - rest - known
        invariant Kept() == old(Kept()) + Sealed(Absent(site, done), leftId, rightId)
      {
        var t :| t in rest;
        if t !in known {
          SealedGrows(Absent(site, done), AbsentIssue(site, t), leftId, rightId);
          assert Absent(site, done + {t}) == Absent(site, done) + {AbsentIssue(site, t)};
          hide Absent;
          Add(AbsentIssue(site, t), leftId, rightId);
          done := done + {t};
        }
        rest := rest - {t};
      }
      assert done == Targets(observed) - known;
    }

    lemma {:induction false} SealedUnion(a: set<Issue>, b: set<Issue>, leftId: Digest, rightId: Digest)
      ensures Sealed(a + b, leftId, rightId) == Sealed(a, leftId, rightId) + Sealed(b, leftId, rightId)
    {
      hide Seal;
    }

    method CompareDispatchMaps(left: Payload, right: Payload, leftId: Digest, rightId: Digest)
      requires left.DispatchMap? && right.DispatchMap?
      modifies this
      ensures Kept() == old(Kept()) + Sealed(DispatchIssues(left, right), leftId, rightId)
    {
      hide Seal, Sealed, Kept, AbsentIssues, CompetingCase, CompetingDefaults, CaseIssue, DefaultIssue;
      NoneSealed(leftId, rightId);
      if left.site != right.site {
        return;
      }
      ghost var cases := set c | c in left.cases && CompetingCase(c, right) :: CaseIssue(left, right, c.selector);
      ghost var defaults := if CompetingDefaults(left, right) then {DefaultIssue(left, right)} else {};
      ghost var missing, extra := AbsentIssues(left, right, left.site), AbsentIssues(right, left, left.site);
      SealedUnion(cases, defaults, leftId, rightId);
      SealedUnion(cases + defaults, missing, leftId, rightId);
      SealedUnion(cases + defaults + missing, extra, leftId, rightId);
      CompareCases(left, right, leftId, rightId);
      if CompetingDefaults(left, right) {
        SealedGrows({}, DefaultIssue(left, right), leftId, rightId);
        assert {} + {DefaultIssue(left, right)} == defaults;
        Add(DefaultIssue(left, right), leftId, rightId);
      }
      CompareTargets(left, right, left.site, leftId, rightId);
      CompareTargets(right, left, left.site, leftId, rightId);
    }

    method AddIssues(issues: set<Issue>, leftId: Digest, rightId: Digest)
      modifies this
      ensures Kept() == old(Kept()) + Sealed(issues, leftId, rightId)
    {
      var rest := issues;
      while rest != {}
        invariant rest <= issues
        invariant Kept() == old(Kept()) + Sealed(issues - rest, leftId, rightId)
      {
        var i :| i in rest;
        Add(i, leftId, rightId);
        assert issues - (rest - {i}) == (issues - rest) + {i};
        rest := rest - {i};
      }
    }

    /** One comparison adds exactly what the pairwise relation says. */
    method Compare(left: Payload, right: Payload, leftId: Digest, rightId: Digest)
      modifies this
      ensures Kept() == old(Kept()) + PairConflicts(contradictionsOnly, left, right, leftId, rightId)
    {
      assert left.DispatchMap? && right.DispatchMap? ==> Issues(left, right) == DispatchIssues(left, right);
      hide Issues, DispatchIssues, Seal, Kept;
      if left.DispatchMap? && right.DispatchMap? {
        CompareDispatchMaps(left, right, leftId, rightId);
      } else {
        AddIssues(Issues(left, right), leftId, rightId);
      }
    }
  }

  /** Scan for the first case with the selector. */
  method FindSelector(cases: seq<DispatchCase>, selector: Option<U64>) returns (target: Option<Address>)
    ensures target == FirstTarget(cases, selector)
  {
    for n := 0 to |cases|
      invariant FirstTarget(cases, selector) == FirstTarget(cases[n..], selector)
    {
      if cases[n].selector == selector {
        return Some(cases[n].target);
      }
    }
    return None;
  }

  // ---- grouping records by subject ----------------------------------------------------

  /** A region in sweep order: by start, then end, then canonical position. */
  datatype Span = Span(start: Address, end: Address, index: nat)

  predicate SpanLess(a: Span, b: Span) {
    a.start < b.start || (a.start == b.start && (a.end < b.end || (a.end == b.end && a.index < b.index)))
  }

  lemma {:induction false} SpanLessTotal()
    ensures StrictTotal(SpanLess)
  {
  }

  /** Bucket k lists, in increasing order, the first n positions whose payload falls into it. */
  ghost predicate Grouped(ordered: seq<Ranked>, n: nat, buckets: map<Bucket, seq<nat>>)
    requires n <= |ordered|
  {
    && (forall k :: k in buckets ==>
          (forall x :: 0 <= x < |buckets[k]| ==>
             buckets[k][x] < n && BucketOf(ordered[buckets[k][x]].payload) == Some(k)) &&
          (forall x, y :: 0 <= x < y < |buckets[k]| ==> buckets[k][x] < buckets[k][y]))
    && (forall i :: 0 <= i < n && BucketOf(ordered[i].payload).Some? ==>
          var k := BucketOf(ordered[i].payload).value;
          k in buckets && i in buckets[k])
  }

  /** The spans of exactly the region records among the first n. */
  ghost predicate Spanned(ordered: seq<Ranked>, n: nat, spans: seq<Span>)
    requires n <= |ordered|
  {
    && (forall s :: s in spans ==>
          s.index < n && ordered[s.index].payload.CodeRegion? &&
          s.start == ordered[s.index].payload.start && s.end == ordered[s.index].payload.end)
    && (forall i :: 0 <= i < n && ordered[i].payload.CodeRegion? ==>
          Span(ordered[i].payload.start, ordered[i].payload.end, i) in spans)
  }

  function Append(buckets: map<Bucket, seq<nat>>, k: Bucket, i: nat): map<Bucket, seq<nat>> {
    buckets[k := (if k in buckets then buckets[k] else []) + [i]]
  }

  lemma {:induction false} GroupedAppend(ordered: seq<Ranked>, i: nat, buckets: map<Bucket, seq<nat>>, k: Bucket)
    requires i < |ordered| && Grouped(ordered, i, buckets) && BucketOf(ordered[i].payload) == Some(k)
    ensures Grouped(ordered, i + 1, Append(buckets, k, i))
  {
    hide BucketOf;
    var grown := Append(buckets, k, i);
    var before := if k in buckets then buckets[k] else [];
    assert grown[k] == before + [i];
    forall j | 0 <= j < i + 1 && BucketOf(ordered[j].payload).Some?
      ensures BucketOf(ordered[j].payload).value in grown && j in grown[BucketOf(ordered[j].payload).value]
    {
      if j == i {
        assert grown[k][|before|] == i;
      } else if BucketOf(ordered[j].payload).value == k {
        assert j in before;
      }
    }
  }

  lemma {:induction false} GroupedSkip(ordered: seq<Ranked>, i: nat, buckets: map<Bucket, seq<nat>>)
    requires i < |ordered| && Grouped(ordered, i, buckets) && BucketOf(ordered[i].payload).None?
    ensures Grouped(ordered, i + 1, buckets)
  {
    hide BucketOf;
  }

  lemma {:induction false} SpannedAppend(ordered: seq<Ranked>, i: nat, spans: seq<Span>, p: Payload)
    requires i < |ordered| && Spanned(ordered, i, spans) && p == ordered[i].payload && p.CodeRegion?
    ensures Spanned(ordered, i + 1, spans + [Span(p.start, p.end, i)])
  {
    var grown := spans + [Span(p.start, p.end, i)];
    forall j | 0 <= j < i + 1 && ordered[j].payload.CodeRegion?
      ensures Span(ordered[j].payload.start, ordered[j].payload.end, j) in grown
    {
      assert j == i ==> grown[|spans|] == Span(p.start, p.end, i);
    }
  }

  lemma {:induction false} SpannedSkip(ordered: seq<Ranked>, i: nat, spans: seq<Span>)
    requires i < |ordered| && Spanned(ordered, i, spans) && !ordered[i].payload.CodeRegion?
    ensures Spanned(ordered, i + 1, spans)
  {
  }

  lemma {:induction false} NothingGrouped(ordered: seq<Ranked>)
    ensures Grouped(ordered, 0, map[]) && Spanned(ordered, 0, [])
  {
  }

  method Group(ordered: seq<Ranked>) returns (buckets: map<Bucket, seq<nat>>, spans: seq<Span>)
    ensures Grouped(ordered, |ordered|, buckets)
    ensures Spanned(ordered, |ordered|, spans)
  {
    hide BucketOf, Append, Grouped, Spanned;
    buckets, spans := map[], [];
    NothingGrouped(ordered);
    for i := 0 to |ordered|
      invariant Grouped(ordered, i, buckets)
      invariant Spanned(ordered, i, spans)
    {
      var p := ordered[i].payload;
      var bucket := BucketOf(p);
      if bucket.Some? {
        GroupedAppend(ordered, i, buckets, bucket.value);
        buckets := Append(buckets, bucket.value, i);
      } else {
        GroupedSkip(ordered, i, buckets);
      }
      if p.CodeRegion? {
        SpannedAppend(ordered, i, spans, p);
        spans := spans + [Span(p.start, p.end, i)];
      } else {
        SpannedSkip(ordered, i, spans);
      }
    }
  }

  // ---- comparing buckets -----------------------------------------------------------------

  ghost function PairsOf(indices: seq<nat>): set<(nat, nat)> {
    set x, y | 0 <= x < y < |indices| :: (indices[x], indices[y])
  }

  method CompareBucket(ordered: seq<Ranked>, indices: seq<nat>, accumulator: ConflictAccumulator,
                       ghost done: set<(nat, nat)>) returns (ghost after: set<(nat, nat)>)
    requires forall x :: 0 <= x < |indices| ==> indices[x] < |ordered|
    requires accumulator.Kept() == Over(accumulator.contradictionsOnly, ordered, done)
    modifies accumulator
    ensures after == done + PairsOf(indices)
    ensures accumulator.Kept() == Over(accumulator.contradictionsOnly, ordered, after)
  {
    hide PairConflicts;
    after := done;
    for x := 0 to |indices|
      invariant after == done + set a, b | 0 <= a < x && a < b < |indices| :: (indices[a], indices[b])
      invariant accumulator.Kept() == Over(accumulator.contradictionsOnly, ordered, after)
    {
      ghost var before := after;
      for y := x + 1 to |indices|
        invariant after == before + set b | x < b < y :: (indices[x], indices[b])
        invariant accumulator.Kept() == Over(accumulator.contradictionsOnly, ordered, after)
      {
        var left, right := ordered[indices[x]], ordered[indices[y]];
        accumulator.Compare(left.payload, right.payload, left.id, right.id);
        OverAdd(accumulator.contradictionsOnly, ordered, after, (indices[x], indices[y]));
        after := after + {(indices[x], indices[y])};
      }
    }
  }

  // ---- sweeping regions ------------------------------------------------------------------

  /** Every later span either was compared with span x or starts at or after its end. */
  ghost predicate SweptFrom(spans: seq<Span>, x: nat, done: set<(nat, nat)>)
    requires x < |spans|
  {
    forall y :: x < y < |spans| ==> (spans[x].index, spans[y].index) in done || spans[y].start >= spans[x].end
  }

  /** Pairs of two different spans. */
  ghost function SpanPairs(spans: seq<Span>): set<(nat, nat)> {
    set x, y | 0 <= x < y < |spans| :: (spans[x].index, spans[y].index)
  }

  method SweepFrom(ordered: seq<Ranked>, spans: seq<Span>, x: nat, accumulator: ConflictAccumulator,
                   ghost done: set<(nat, nat)>) returns (ghost after: set<(nat, nat)>)
    requires x < |spans| && Ascending(spans, SpanLess)
    requires forall k :: 0 <= k < |spans| ==> spans[k].index < |ordered|
    requires accumulator.Kept() == Over(accumulator.contradictionsOnly, ordered, done)
    modifies accumulator
    ensures done <= after <= done + SpanPairs(spans)
    ensures SweptFrom(spans, x, after)
    ensures accumulator.Kept() == Over(accumulator.contradictionsOnly, ordered, after)
  {
    hide PairConflicts, Over, SpanLess, Ascending;
    after := done;
    var y := x + 1;
    while y < |spans| && spans[y].start < spans[x].end
      invariant x < y <= |spans|
      invariant done <= after <= done + SpanPairs(spans)
      invariant forall b :: x < b < y ==> (spans[x].index, spans[b].index) in after
      invariant accumulator.Kept() == Over(accumulator.contradictionsOnly, ordered, after)
    {
      var left, right := ordered[spans[x].index], ordered[spans[y].index];
      accumulator.Compare(left.payload, right.payload, left.id, right.id);
      OverAdd(accumulator.contradictionsOnly, ordered, after, (spans[x].index, spans[y].index));
      after := after + {(spans[x].index, spans[y].index)};
      y := y + 1;
    }
    LaterSpansApart(spans, x, y);
  }

  /** Once a span starts at or after an end, so do all later ones. */
  lemma {:induction false} LaterSpansApart(spans: seq<Span>, x: nat, y: nat)
    requires Ascending(spans, SpanLess) && x < y <= |spans|
    requires y < |spans| ==> spans[y].start >= spans[x].end
    ensures forall b :: y <= b < |spans| ==> spans[b].start >= spans[x].end
  {
    forall b | y <= b < |spans| ensures spans[b].start >= spans[x].end {
      if b > y {
        assert SpanLess(spans[y], spans[b]);
      }
    }
  }

  method Sweep(ordered: seq<Ranked>, spans: seq<Span>, accumulator: ConflictAccumulator,
               ghost done: set<(nat, nat)>) returns (ghost after: set<(nat, nat)>)
    requires Ascending(spans, SpanLess)
    requires forall k :: 0 <= k < |spans| ==> spans[k].index < |ordered|
    requires accumulator.Kept() == Over(accumulator.contradictionsOnly, ordered, done)
    modifies accumulator
    ensures done <= after <= done + SpanPairs(spans)
    ensures forall x :: 0 <= x < |spans| ==> SweptFrom(spans, x, after)
    ensures accumulator.Kept() == Over(accumulator.contradictionsOnly, ordered, after)
  {
    hide PairConflicts, Over, SpanPairs;
    after := done;
    for x := 0 to |spans|
      invariant done <= after <= done + SpanPairs(spans)
      invariant forall a :: 0 <= a < x ==> SweptFrom(spans, a, after)
      invariant accumulator.Kept() == Over(accumulator.contradictionsOnly, ordered, after)
    {
      ghost var before := after;
      after := SweepFrom(ordered, spans, x, accumulator, after);
      forall a | 0 <= a < x ensures SweptFrom(spans, a, after) {
        assert SweptFrom(spans, a, before);
      }
    }
  }

  // ---- the report -----------------------------------------------------------------------

  /** A pair of region records that conflicts was compared, in one order or the other. */
  lemma {:induction false} SweepCovers(ordered: seq<Ranked>, spans: seq<Span>, done: set<(nat, nat)>, i: nat,
                                       j: nat)
    requires Ascending(spans, SpanLess) && Spanned(ordered, |ordered|, spans)
    requires forall x :: 0 <= x < |spans| ==> SweptFrom(spans, x, done)
    requires i < j < |ordered| && ordered[i].payload.CodeRegion? && ordered[j].payload.CodeRegion?
    requires RegionsOverlap(ordered[i].payload, ordered[j].payload)
    ensures (i, j) in done || (j, i) in done
  {
    var left, right := ordered[i].payload, ordered[j].payload;
    var x :| 0 <= x < |spans| && spans[x] == Span(left.start, left.end, i);
    var y :| 0 <= y < |spans| && spans[y] == Span(right.start, right.end, j);
    if x < y {
      assert SweptFrom(spans, x, done);
    } else {
      assert SweptFrom(spans, y, done);
    }
  }

  lemma {:induction false} SpanPairSound(ordered: seq<Ranked>, spans: seq<Span>, p: (nat, nat))
    requires Ascending(spans, SpanLess) && Spanned(ordered, |ordered|, spans)
    requires p in SpanPairs(spans)
    ensures p.0 < |ordered| && p.1 < |ordered| && p.0 != p.1
    ensures ordered[p.0].payload.CodeRegion? && ordered[p.1].payload.CodeRegion?
  {
    var x, y :| 0 <= x < y < |spans| && p == (spans[x].index, spans[y].index);
    assert SpanLess(spans[x], spans[y]);
  }

  lemma {:induction false} RegionPairSymmetric(only: bool, ordered: seq<Ranked>, i: nat, j: nat)
    requires i < |ordered| && j < |ordered|
    requires ordered[i].payload.CodeRegion? && ordered[j].payload.CodeRegion?
    ensures PairAt(only, ordered, (i, j)) == PairAt(only, ordered, (j, i))
  {
    hide Issues, Seal;
    RegionIssuesSymmetric(ordered[i].payload, ordered[j].payload);
    forall x: Issue ensures Seal(x, ordered[i].id, ordered[j].id) == Seal(x, ordered[j].id, ordered[i].id) {
      SealSymmetric(x, ordered[i].id, ordered[j].id);
    }
  }

  ghost predicate BucketsCompared(buckets: map<Bucket, seq<nat>>, keys: set<Bucket>, done: set<(nat, nat)>)
    requires keys <= buckets.Keys
  {
    forall k :: k in keys ==> PairsOf(buckets[k]) <= done
  }

  /** Every pair with a conflict was compared. */
  lemma {:induction false} ComparedCovers(only: bool, ordered: seq<Ranked>, buckets: map<Bucket, seq<nat>>,
                                          spans: seq<Span>, done: set<(nat, nat)>, i: nat, j: nat)
    requires Grouped(ordered, |ordered|, buckets) && BucketsCompared(buckets, buckets.Keys, done)
    requires Ascending(spans, SpanLess) && Spanned(ordered, |ordered|, spans)
    requires forall x :: 0 <= x < |spans| ==> SweptFrom(spans, x, done)
    requires i < j < |ordered| && PairAt(only, ordered, (i, j)) != {}
    ensures PairAt(only, ordered, (i, j)) <= Over(only, ordered, done)
  {
    hide Issues, BucketOf, Seal, SweptFrom, RegionsOverlap;
    var left, right := ordered[i].payload, ordered[j].payload;
    IssuesShareBucket(left, right);
    if left.CodeRegion? {
      SweepCovers(ordered, spans, done, i, j);
      RegionPairSymmetric(only, ordered, i, j);
    } else {
      var indices := buckets[BucketOf(left).value];
      var x :| 0 <= x < |indices| && indices[x] == i;
      var y :| 0 <= y < |indices| && indices[y] == j;
      assert x < y;
      assert (i, j) in PairsOf(indices);
    }
  }

  /** Nothing beyond the all-pairs conflicts was reported. */
  lemma {:induction false} ComparedSound(only: bool, ordered: seq<Ranked>, buckets: map<Bucket, seq<nat>>,
                                         spans: seq<Span>, p: (nat, nat))
    requires Grouped(ordered, |ordered|, buckets)
    requires Ascending(spans, SpanLess) && Spanned(ordered, |ordered|, spans)
    requires p in SpanPairs(spans) || exists k :: k in buckets && p in PairsOf(buckets[k])
    ensures PairAt(only, ordered, p) <= Over(only, ordered, AllPairs(|ordered|))
  {
    hide PairConflicts, SpanPairs;
    if p in SpanPairs(spans) {
      SpanPairSound(ordered, spans, p);
      RegionPairSymmetric(only, ordered, p.0, p.1);
      assert (p.0, p.1) in AllPairs(|ordered|) || (p.1, p.0) in AllPairs(|ordered|);
    } else {
      assert p in AllPairs(|ordered|);
    }
  }

  /** Compared pairs that include every conflicting pair yield exactly the all-pairs conflicts. */
  lemma {:induction false} ComparedExact(only: bool, ordered: seq<Ranked>, buckets: map<Bucket, seq<nat>>,
                                         spans: seq<Span>, done: set<(nat, nat)>)
    requires Grouped(ordered, |ordered|, buckets) && BucketsCompared(buckets, buckets.Keys, done)
    requires Ascending(spans, SpanLess) && Spanned(ordered, |ordered|, spans)
    requires forall x :: 0 <= x < |spans| ==> SweptFrom(spans, x, done)
    requires forall p :: p in done ==>
               p in SpanPairs(spans) || exists k :: k in buckets && p in PairsOf(buckets[k])
    ensures Over(only, ordered, done) == Over(only, ordered, AllPairs(|ordered|))
  {
    hide PairAt, SpanPairs, PairsOf, SweptFrom, Grouped, Spanned;
    forall p, c | p in done && c in PairAt(only, ordered, p)
      ensures c in Over(only, ordered, AllPairs(|ordered|))
    {
      ComparedSound(only, ordered, buckets, spans, p);
    }
    forall p, c | p in AllPairs(|ordered|) && c in PairAt(only, ordered, p)
      ensures c in Over(only, ordered, done)
    {
      ComparedCovers(only, ordered, buckets, spans, done, p.0, p.1);
    }
  }

  method CompareBuckets(ordered: seq<Ranked>, buckets: map<Bucket, seq<nat>>, accumulator: ConflictAccumulator)
    returns (ghost done: set<(nat, nat)>)
    requires Grouped(ordered, |ordered|, buckets)
    requires accumulator.Kept() == {}
    modifies accumulator
    ensures BucketsCompared(buckets, buckets.Keys, done)
    ensures forall p :: p in done ==> exists k :: k in buckets && p in PairsOf(buckets[k])
    ensures accumulator.Kept() == Over(accumulator.contradictionsOnly, ordered, done)
  {
    done := {};
    var keys := buckets.Keys;
    while keys != {}
      invariant keys <= buckets.Keys
      invariant BucketsCompared(buckets, buckets.Keys - keys, done)
      invariant forall p :: p in done ==> exists k :: k in buckets && p in PairsOf(buckets[k])
      invariant accumulator.Kept() == Over(accumulator.contradictionsOnly, ordered, done)
    {
      hide PairsOf, Over;
      var k :| k in keys;
      done := CompareBucket(ordered, buckets[k], accumulator, done);
      keys := keys - {k};
    }
  }

  /** The report is the ascending sequence of exactly the conflicts of all pairs. */
  method DetectConflicts(ordered: seq<Ranked>) returns (conflicts: seq<Conflict>)
    ensures Ascending(conflicts, ConflictLess)
    ensures Elements(conflicts) == AllConflicts(ordered)
  {
    hide PairConflicts, Over, SpanPairs, PairsOf, SweptFrom, Grouped, BucketsCompared, SortUnique;
    var buckets, spans := Group(ordered);
    var accumulator := new ConflictAccumulator(false);
    ghost var bucketed := CompareBuckets(ordered, buckets, accumulator);
    var swept := SortUnique(spans, SpanLess);
    SpanLessTotal();
    SortUniqueSpec(spans, SpanLess);
    assert forall s :: s in swept <==> s in spans by {
      assert forall s :: s in swept <==> s in Elements(swept);
      assert forall s :: s in spans <==> s in Elements(spans);
    }
    ghost var done := Sweep(ordered, swept, accumulator, bucketed);
    assert BucketsCompared(buckets, buckets.Keys, done) by { BucketsMonotone(buckets, bucketed, done); }
    ComparedExact(false, ordered, buckets, swept, done);
    ConflictLessTotal();
    SortUniqueSpec(accumulator.conflicts, ConflictLess);
    conflicts := SortUnique(accumulator.conflicts, ConflictLess);
  }

  lemma {:induction false} BucketsMonotone(buckets: map<Bucket, seq<nat>>, before: set<(nat, nat)>,
                                           after: set<(nat, nat)>)
    requires BucketsCompared(buckets, buckets.Keys, before) && before <= after
    ensures BucketsCompared(buckets, buckets.Keys, after)
  {
  }
}
