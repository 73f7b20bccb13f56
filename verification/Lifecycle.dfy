/**
 * Evidence generations: allocation of identities never used before, the policy
 * that decides which observations are active, and how a session moves functions
 * from one generation to the next. A generation once left is never active again.
 */
module Lifecycle {
  import opened Orders
  import opened Words
  import opened Facts
  import opened Ledger
  import opened Conflicts
  import opened Store

  // ---- allocation -------------------------------------------------------------------------------------

  ghost predicate HasFresh(used: set<U64>) { exists g: U64 :: g != 0 && g !in used }

  /** The next identity; the largest wraps to one, never to zero. */
  function Successor(g: U64): U64 { if g == MAX_U64 then 1 else g + 1 }

  /** Steps from one identity to another along the cycle. */
  function Distance(a: U64, b: U64): int { if a <= b then b - a else b + MAX_U64 - a }

  function StartOf(cursor: U64): U64 { if cursor == 0 then 1 else cursor }

  /** The first identity on the cycle from the cursor that is not in use. */
  ghost predicate FirstFresh(used: set<U64>, cursor: U64, g: U64) {
    && g != 0 && g !in used
    && forall x: U64 :: x != 0 && Distance(StartOf(cursor), x) < Distance(StartOf(cursor), g) ==> x in used
  }

  ghost predicate AfterLargest(used: set<U64>, cursor: U64) {
    if used == {} || MAX_U64 in used then cursor == 1
    else cursor != 0 && cursor - 1 in used && forall g :: g in used ==> g < cursor
  }

  function GenerationsOf(facts: seq<Fact>): set<U64> { set f | f in facts :: f.evidence.scope.generation }

  lemma {:induction false} GenerationsGrow(facts: seq<Fact>, f: Fact)
    ensures GenerationsOf(facts + [f]) == GenerationsOf(facts) + {f.evidence.scope.generation}
  {
  }

  method Generations(facts: seq<Fact>) returns (used: set<U64>, largest: U64)
    ensures used == GenerationsOf(facts) && forall g :: g in used ==> g <= largest
    ensures if used == {} then largest == 0 else largest in used
  {
    used, largest := {}, 0;
    assert GenerationsOf(facts[..0]) == {};
    hide GenerationsOf;
    var i := 0;
    while i < |facts|
      invariant 0 <= i <= |facts| && used == GenerationsOf(facts[..i])
      invariant forall g :: g in used ==> g <= largest
      invariant if used == {} then largest == 0 else largest in used
    {
      assert facts[..i + 1] == facts[..i] + [facts[i]];
      GenerationsGrow(facts[..i], facts[i]);
      var g := facts[i].evidence.scope.generation;
      used := used + {g};
      largest := if g > largest then g else largest;
      i := i + 1;
    }
    assert facts[..|facts|] == facts;
  }

  class EvidenceGenerationAllocator {
    var used: set<U64>
    var cursor: U64

    constructor ()
      ensures used == {} && cursor == 1
    {
      used, cursor := {}, 1;
    }

    method Seed(history: EvidenceStore)
      modifies this
      ensures used == GenerationsOf(Flatten(history.records)) && AfterLargest(used, cursor)
    {
      var facts := history.FlattenedFacts();
      var generations, largest := Generations(facts);
      used := generations;
      cursor := 1;
      if used != {} && largest != MAX_U64 {
        cursor := largest + 1;
      }
    }

    method Allocate() returns (candidate: U64)
      requires HasFresh(used)
      modifies this
      ensures FirstFresh(old(used), old(cursor), candidate)
      ensures used == old(used) + {candidate} && cursor == Successor(candidate)
    {
      candidate := StartOf(cursor);
      ghost var free: U64 :| free != 0 && free !in used;
      ghost var start := candidate;
      while candidate in used
        invariant candidate != 0
        invariant Distance(start, candidate) + Distance(candidate, free) == Distance(start, free)
        invariant forall x: U64 :: x != 0 && Distance(start, x) < Distance(start, candidate) ==> x in used
        decreases Distance(candidate, free)
      {
        candidate := Successor(candidate);
      }
      used := used + {candidate};
      cursor := Successor(candidate);
    }
  }

  // ---- which observations are active ----------------------------------------------------------------------

  datatype Policy = Policy(providerGeneration: U64, providerFunctions: set<Address>, generations: map<Address, U64>)

  /** Producers that scan the whole database at one generation. */
  predicate CompleteProvider(producer: Bytes) {
    producer == Ascii("viy.native.ida") || producer == Ascii("viy.deobf.ida")
  }

  predicate IsActive(policy: Policy, f: Fact) {
    var e := f.evidence;
    if e.proof.UserAsserted? then true
    else if CompleteProvider(e.producer) then
      && policy.providerGeneration != 0 && e.scope.generation == policy.providerGeneration
      && (e.scope.functionStart.None? || e.scope.functionStart.value in policy.providerFunctions)
    else
      && e.scope.functionStart.Some? && e.scope.functionStart.value in policy.generations
      && e.scope.generation == policy.generations[e.scope.functionStart.value]
  }

  function ActiveFacts(policy: Policy, facts: seq<Fact>): seq<Fact>
    decreases |facts|
  {
    if facts == [] then []
    else
      var front, last := facts[..|facts| - 1], facts[|facts| - 1];
      ActiveFacts(policy, front) + if IsActive(policy, last) then [last] else []
  }

  lemma {:induction false} ActiveFactsFilter(policy: Policy, facts: seq<Fact>)
    ensures forall f :: f in ActiveFacts(policy, facts) <==> f in facts && IsActive(policy, f)
    decreases |facts|
  {
    if facts != [] {
      var front, last := facts[..|facts| - 1], facts[|facts| - 1];
      assert facts == front + [last];
      ActiveFactsFilter(policy, front);
    }
  }

  lemma {:induction false} AddAllAppend(l: seq<Entry>, facts: seq<Fact>, f: Fact)
    ensures AddAll(l, facts + [f]) == AddTo(AddAll(l, facts), f).0
    decreases |facts|
  {
    hide AddTo;
    if facts == [] {
      assert [f][1..] == [];
    } else {
      assert (facts + [f])[1..] == facts[1..] + [f];
      AddAllAppend(AddTo(l, facts[0]).0, facts[1..], f);
    }
  }

  lemma {:induction false} ActiveStep(policy: Policy, facts: seq<Fact>, i: nat)
    requires i < |facts|
    ensures ActiveFacts(policy, facts[..i + 1]) ==
            if IsActive(policy, facts[i]) then ActiveFacts(policy, facts[..i]) + [facts[i]]
            else ActiveFacts(policy, facts[..i])
  {
    hide IsActive;
    assert facts[..i + 1][..i] == facts[..i];
  }

  lemma {:induction false} NothingAdded(policy: Policy, facts: seq<Fact>)
    ensures AddAll([], ActiveFacts(policy, facts[..0])) == []
  {
  }

  /** The view holds exactly the active facts of the history. */
  method View(policy: Policy, history: EvidenceStore) returns (active: EvidenceStore)
    requires history.Valid()
    ensures fresh(active) && active.Valid()
    ensures forall f :: f in Contents(active.records) <==> f in Contents(history.records) && IsActive(policy, f)
  {
    hide AddTo, AddAll, ValidLedger, Contents, IsActive, Flatten, ActiveFacts, IndexExact;
    active := new EvidenceStore(history.sha);
    var facts := history.FlattenedFacts();
    NothingAdded(policy, facts);
    var i := 0;
    while i < |facts|
      invariant 0 <= i <= |facts| && fresh(active) && active.Valid() && history.Valid()
      invariant active.records == AddAll([], ActiveFacts(policy, facts[..i]))
    {
      ActiveStep(policy, facts, i);
      if IsActive(policy, facts[i]) {
        AddAllAppend([], ActiveFacts(policy, facts[..i]), facts[i]);
        var d := active.Add(facts[i]);
      }
      i := i + 1;
    }
    assert facts[..|facts|] == facts;
    ViewContents(policy, history.records);
  }

  lemma {:induction false} ViewContents(policy: Policy, l: seq<Entry>)
    requires ValidLedger(l)
    ensures forall f :: f in Contents(AddAll([], ActiveFacts(policy, Flatten(l)))) <==>
                        f in Contents(l) && IsActive(policy, f)
  {
    hide ValidLedger, Contents, ValidFact, Normalize, IsActive;
    var facts := ActiveFacts(policy, Flatten(l));
    EmptyLedger();
    AddAllSpec([], facts);
    ActiveFactsFilter(policy, Flatten(l));
    FlattenContents(l);
    StoredFactsValid(l);
    forall f ensures f in Contents(l) <==> f in Flatten(l) {
      assert f in Elements(Flatten(l)) <==> f in Flatten(l);
    }
    assert forall f :: f in Accepted(facts) <==> f in facts;
  }

  // ---- sessions -----------------------------------------------------------------------------------------------

  datatype Identity = Identity(byteHash: U64, generation: U64)

  datatype FunctionRange = FunctionRange(start: Address, byteHash: U64)

  /** What a session remembers: identities in use, each function's identity, and the provider scan. */
  datatype Session = Session(used: set<U64>, identities: map<Address, Identity>, priorHash: Option<U64>,
                             provider: U64, providerFunctions: set<Address>)

  function PolicyOf(s: Session): Policy {
    Policy(s.provider, s.providerFunctions, map a | a in s.identities :: s.identities[a].generation)
  }

  /** Same image, same function, same bytes. */
  predicate Unchanged(s: Session, contentHash: U64, f: FunctionRange) {
    && s.priorHash == Some(contentHash) && f.start in s.identities && s.identities[f.start].byteHash == f.byteHash
  }

  function Stamp(s: Session, contentHash: U64, changed: U64, f: FunctionRange): U64 {
    if Unchanged(s, contentHash, f) then s.identities[f.start].generation else changed
  }

  /** Identities after the first `n` functions; the first of a repeated start counts. */
  function Assigned(s: Session, contentHash: U64, changed: U64, functions: seq<FunctionRange>, n: nat)
    : map<Address, Identity>
    requires n <= |functions|
  {
    if n == 0 then map[]
    else
      var before, f := Assigned(s, contentHash, changed, functions, n - 1), functions[n - 1];
      if f.start in before then before
      else before[f.start := Identity(f.byteHash, Stamp(s, contentHash, changed, f))]
  }

  /** The generations handed to the functions, in order. */
  ghost predicate Stamped(s: Session, contentHash: U64, changed: U64, functions: seq<FunctionRange>,
                          generations: seq<U64>)
  {
    |generations| == |functions| &&
    forall i :: 0 <= i < |functions| ==> generations[i] == Stamp(s, contentHash, changed, functions[i])
  }

  predicate AnyChanged(s: Session, contentHash: U64, functions: seq<FunctionRange>, n: nat)
    requires n <= |functions|
  {
    exists i :: 0 <= i < n && !Unchanged(s, contentHash, functions[i])
  }

  /** Until some function has changed, the generation for changed ones does not matter. */
  lemma {:induction false} AssignedUnchanged(s: Session, contentHash: U64, functions: seq<FunctionRange>, n: nat,
                                             a: U64, b: U64)
    requires n <= |functions| && !AnyChanged(s, contentHash, functions, n)
    ensures Assigned(s, contentHash, a, functions, n) == Assigned(s, contentHash, b, functions, n)
  {
    if n > 0 {
      assert Unchanged(s, contentHash, functions[n - 1]);
      AssignedUnchanged(s, contentHash, functions, n - 1, a, b);
    }
  }

  /** At most one identity is taken, and only one that was never used. */
  ghost predicate Takes(used: set<U64>, needed: bool, changed: U64, after: set<U64>) {
    if needed then changed != 0 && changed !in used && after == used + {changed} else after == used
  }

  /** A new snapshot: changed functions share one new generation, the others keep theirs. */
  ghost predicate Snapshot(s: Session, functions: seq<FunctionRange>, contentHash: U64, t: Session) {
    exists changed: U64 ::
      && Takes(s.used, AnyChanged(s, contentHash, functions, |functions|), changed, t.used)
      && t == Session(t.used, Assigned(s, contentHash, changed, functions, |functions|), Some(contentHash),
                      s.provider, s.providerFunctions)
  }

  /** Functions whose emulation inputs changed move to one new generation. */
  function Moved(identities: map<Address, Identity>, stale: set<Address>, changed: U64): map<Address, Identity> {
    map a | a in identities :: if a in stale then identities[a].(generation := changed) else identities[a]
  }

  /** One more stale function: the others stale before it have the same new generation. */
  lemma {:induction false} MovedOne(identities: map<Address, Identity>, stale: set<Address>, was: U64, changed: U64,
                                    a: Address)
    requires stale == {} || was == changed
    ensures var before := Moved(identities, stale, was);
            Moved(identities, stale + {a}, changed) ==
            if a in before then before[a := before[a].(generation := changed)] else before
  {
  }

  lemma {:induction false} NoneMoved(identities: map<Address, Identity>, changed: U64)
    ensures Moved(identities, {}, changed) == identities
  {
  }

  ghost predicate Refingerprint(s: Session, stale: set<Address>, t: Session) {
    exists changed: U64 ::
      && Takes(s.used, stale != {}, changed, t.used)
      && t == s.(used := t.used, identities := Moved(s.identities, stale, changed))
  }

  /** A complete provider scan starts at a new generation. */
  ghost predicate Rescan(s: Session, functions: set<Address>, t: Session) {
    exists changed: U64 ::
      && Takes(s.used, true, changed, t.used)
      && t == s.(used := t.used, provider := changed, providerFunctions := functions)
  }

  ghost predicate Next(s: Session, t: Session) {
    || (exists functions, contentHash :: Snapshot(s, functions, contentHash, t))
    || (exists stale :: Refingerprint(s, stale, t))
    || (exists functions :: Rescan(s, functions, t))
  }

  function GenerationOf(s: Session, a: Address): Option<U64> {
    if a in s.identities then Some(s.identities[a].generation) else None
  }

  /** What any step does to generations: a function keeps its own or takes an unused one. */
  ghost predicate Forward(s: Session, t: Session) {
    && s.used <= t.used
    && (forall a :: GenerationOf(t, a) == GenerationOf(s, a) || GenerationOf(t, a).None? ||
                    (GenerationOf(t, a).value !in s.used && GenerationOf(t, a).value in t.used))
    && (t.provider == s.provider || (t.provider !in s.used && t.provider in t.used))
  }

  lemma {:induction false} AssignedForward(s: Session, contentHash: U64, changed: U64,
                                           functions: seq<FunctionRange>, n: nat, a: Address)
    requires n <= |functions| && a in Assigned(s, contentHash, changed, functions, n)
    ensures var g := Assigned(s, contentHash, changed, functions, n)[a].generation;
            GenerationOf(s, a) == Some(g) || (g == changed && AnyChanged(s, contentHash, functions, n))
  {
    if a in Assigned(s, contentHash, changed, functions, n - 1) {
      AssignedForward(s, contentHash, changed, functions, n - 1, a);
    }
  }

  lemma {:induction false} NextForward(s: Session, t: Session)
    requires Next(s, t)
    ensures Forward(s, t)
  {
    if functions, contentHash :| Snapshot(s, functions, contentHash, t) {
      var changed: U64 :|
        && Takes(s.used, AnyChanged(s, contentHash, functions, |functions|), changed, t.used)
        && t == Session(t.used, Assigned(s, contentHash, changed, functions, |functions|), Some(contentHash),
                        s.provider, s.providerFunctions);
      forall a | a in t.identities
        ensures GenerationOf(t, a) == GenerationOf(s, a) ||
                (GenerationOf(t, a).value !in s.used && GenerationOf(t, a).value in t.used)
      {
        AssignedForward(s, contentHash, changed, functions, |functions|, a);
      }
    }
  }

  ghost predicate Run(states: seq<Session>) {
    forall i :: 0 < i < |states| ==> Next(states[i - 1], states[i])
  }

  /** A generation in use that a function is not on is never its generation again, nor the provider's. */
  lemma {:induction false} NeverAgain(states: seq<Session>, j: nat, k: nat, g: U64)
    requires Run(states) && j <= k < |states| && g in states[j].used
    ensures g in states[k].used
    ensures forall a :: GenerationOf(states[j], a) != Some(g) ==> GenerationOf(states[k], a) != Some(g)
    ensures states[j].provider != g ==> states[k].provider != g
  {
    hide Next;
    if j < k {
      NeverAgain(states, j, k - 1, g);
      NextForward(states[k - 1], states[k]);
    }
  }

  /**
   * Once a function is off generation g (moved, removed, or g restored from an
   * earlier session), no computed observation a per-function producer stamped g
   * for it is active again; likewise for complete providers once their scan has
   * moved on.
   */
  lemma {:induction false} RetiredForever(states: seq<Session>, j: nat, k: nat, f: Fact)
    requires Run(states) && j <= k < |states| && f.evidence.scope.generation in states[j].used
    requires !f.evidence.proof.UserAsserted? && !IsActive(PolicyOf(states[j]), f)
    requires CompleteProvider(f.evidence.producer) && f.evidence.scope.generation != 0 ==>
               states[j].provider != f.evidence.scope.generation
    ensures !IsActive(PolicyOf(states[k]), f)
  {
    NeverAgain(states, j, k, f.evidence.scope.generation);
    hide Run, CompleteProvider;
    if f.evidence.scope.functionStart.Some? {
      var a := f.evidence.scope.functionStart.value;
      assert GenerationOf(states[j], a) != Some(f.evidence.scope.generation) ==>
             GenerationOf(states[k], a) != Some(f.evidence.scope.generation);
    }
  }

  /** The session a restored history starts. */
  function Restored(history: seq<Fact>): Session { Session(GenerationsOf(history), map[], None, 0, {}) }

  /** Every generation a session hands out is in use. */
  ghost predicate InUse(s: Session) {
    && (forall a :: a in s.identities ==> s.identities[a].generation in s.used)
    && (s.provider != 0 ==> s.provider in s.used)
  }

  lemma {:induction false} NextInUse(s: Session, t: Session)
    requires Next(s, t) && InUse(s)
    ensures InUse(t)
  {
    NextForward(s, t);
    hide Next;
    forall a | a in t.identities ensures t.identities[a].generation in t.used {
      assert GenerationOf(t, a).Some?;
    }
  }

  lemma {:induction false} RefingerprintInUse(s: Session, stale: set<Address>, t: Session)
    requires Refingerprint(s, stale, t) && InUse(s)
    ensures InUse(t)
  {
    hide InUse, Refingerprint;
    NextInUse(s, t);
  }

  lemma {:induction false} RunInUse(history: seq<Fact>, states: seq<Session>, i: nat)
    requires Run(states) && i < |states| && states[0] == Restored(history)
    ensures InUse(states[i])
  {
    hide Next;
    if i > 0 {
      RunInUse(history, states, i - 1);
      NextInUse(states[i - 1], states[i]);
    }
  }

  /**
   * In every session: once a function has moved off a generation, or has gone,
   * nothing a per-function producer stamped with it for that function is ever
   * active again.
   */
  lemma {:induction false} LeftForever(history: seq<Fact>, states: seq<Session>, i: nat, j: nat, k: nat, a: Address,
                                       f: Fact)
    requires Run(states) && i <= j <= k < |states| && states[0] == Restored(history)
    requires var g := f.evidence.scope.generation;
             GenerationOf(states[i], a) == Some(g) && GenerationOf(states[j], a) != Some(g)
    requires f.evidence.scope.functionStart == Some(a)
    requires !f.evidence.proof.UserAsserted? && !CompleteProvider(f.evidence.producer)
    ensures !IsActive(PolicyOf(states[k]), f)
  {
    RunInUse(history, states, i);
    NeverAgain(states, i, j, f.evidence.scope.generation);
    RetiredForever(states, j, k, f);
  }

  /** Likewise for a complete provider once its scan has moved on. */
  lemma {:induction false} ScanLeftForever(history: seq<Fact>, states: seq<Session>, i: nat, j: nat, k: nat, f: Fact)
    requires Run(states) && i <= j <= k < |states| && states[0] == Restored(history)
    requires states[i].provider == f.evidence.scope.generation != states[j].provider
    requires !f.evidence.proof.UserAsserted? && CompleteProvider(f.evidence.producer)
    ensures !IsActive(PolicyOf(states[k]), f)
  {
    RunInUse(history, states, i);
    hide CompleteProvider;
    if f.evidence.scope.generation != 0 {
      NeverAgain(states, i, j, f.evidence.scope.generation);
      NeverAgain(states, j, k, f.evidence.scope.generation);
    }
  }

  /** Computed observations of earlier sessions are never active in this one. */
  lemma {:induction false} RestoredNeverActive(history: seq<Fact>, states: seq<Session>, k: nat, f: Fact)
    requires Run(states) && k < |states| && states[0] == Restored(history)
    requires f in history && !f.evidence.proof.UserAsserted?
    ensures !IsActive(PolicyOf(states[k]), f)
  {
    RetiredForever(states, 0, k, f);
  }

  class EvidenceSession {
    const allocator: EvidenceGenerationAllocator
    var identities: map<Address, Identity>
    var priorHash: Option<U64>
    var provider: U64
    var providerFunctions: set<Address>

    ghost function State(): Session
      reads this, allocator
    {
      Session(allocator.used, identities, priorHash, provider, providerFunctions)
    }

    ghost predicate Valid()
      reads this, allocator
    {
      InUse(State())
    }

    constructor (history: EvidenceStore)
      ensures fresh(allocator) && Valid() && State() == Restored(Flatten(history.records))
    {
      allocator := new EvidenceGenerationAllocator();
      identities, priorHash, provider, providerFunctions := map[], None, 0, {};
      new;
      allocator.Seed(history);
    }

    /** Each function's generation for the snapshot, in the order given. */
    method AssignFunctionGenerations(functions: seq<FunctionRange>, contentHash: U64) returns (generations: seq<U64>)
      requires Valid() && HasFresh(allocator.used)
      modifies this, allocator
      ensures Valid() && Snapshot(old(State()), functions, contentHash, State())
      ensures exists changed: U64 :: Stamped(old(State()), contentHash, changed, functions, generations)
    {
      ghost var s := State();
      var changed: U64 := 0;
      var next: map<Address, Identity> := map[];
      generations := [];
      var i := 0;
      while i < |functions|
        invariant 0 <= i <= |functions|
        invariant identities == s.identities && priorHash == s.priorHash
        invariant provider == s.provider && providerFunctions == s.providerFunctions
        invariant changed != 0 <==> AnyChanged(s, contentHash, functions, i)
        invariant Takes(s.used, changed != 0, changed, allocator.used)
        invariant next == Assigned(s, contentHash, changed, functions, i)
        invariant Stamped(s, contentHash, changed, functions[..i], generations)
      {
        var f := functions[i];
        var generation;
        if priorHash == Some(contentHash) && f.start in identities && identities[f.start].byteHash == f.byteHash {
          generation := identities[f.start].generation;
        } else {
          if changed == 0 {
            ghost var unset := changed;
            changed := allocator.Allocate();
            AssignedUnchanged(s, contentHash, functions, i, unset, changed);
            assert forall j :: 0 <= j < i ==> Unchanged(s, contentHash, functions[j]);
          }
          generation := changed;
        }
        generations := generations + [generation];
        if f.start !in next {
          next := next[f.start := Identity(f.byteHash, generation)];
        }
        i := i + 1;
      }
      assert functions[..|functions|] == functions;
      identities := next;
      priorHash := Some(contentHash);
      assert Snapshot(s, functions, contentHash, State());
      NextInUse(s, State());
    }

    /** Move every function whose emulation fingerprint is not the cached one to one new generation. */
    method AssignEmulationGenerations(functions: seq<FunctionRange>, fingerprints: seq<U64>,
                                      cache: map<Address, U64>)
      requires Valid() && HasFresh(allocator.used) && |fingerprints| == |functions|
      modifies this, allocator
      ensures Valid()
      ensures Refingerprint(old(State()), StaleAmong(functions, fingerprints, cache, |functions|), State())
    {
      hide InUse, HasFresh, FirstFresh, Moved, Next;
      ghost var s := State();
      var changed: U64 := 0;
      NoneMoved(identities, changed);
      var i := 0;
      while i < |functions|
        invariant 0 <= i <= |functions|
        invariant priorHash == s.priorHash && provider == s.provider && providerFunctions == s.providerFunctions
        invariant changed != 0 <==> StaleAmong(functions, fingerprints, cache, i) != {}
        invariant Takes(s.used, changed != 0, changed, allocator.used)
        invariant identities == Moved(s.identities, StaleAmong(functions, fingerprints, cache, i), changed)
      {
        var f := functions[i];
        if f.start !in cache || cache[f.start] != fingerprints[i] {
          ghost var was := changed;
          if changed == 0 {
            changed := allocator.Allocate();
          }
          MovedOne(s.identities, StaleAmong(functions, fingerprints, cache, i), was, changed, f.start);
          if f.start in identities {
            identities := identities[f.start := identities[f.start].(generation := changed)];
          }
        } else {
          assert StaleAmong(functions, fingerprints, cache, i + 1) == StaleAmong(functions, fingerprints, cache, i);
        }
        i := i + 1;
      }
      assert Refingerprint(s, StaleAmong(functions, fingerprints, cache, |functions|), State());
      RefingerprintInUse(s, StaleAmong(functions, fingerprints, cache, |functions|), State());
    }

    method BeginProviderScan(functions: set<Address>)
      requires Valid() && HasFresh(allocator.used)
      modifies this, allocator
      ensures Valid() && Rescan(old(State()), functions, State())
    {
      ghost var s := State();
      providerFunctions := functions;
      provider := allocator.Allocate();
      assert Takes(s.used, true, provider, allocator.used);
      assert Rescan(s, functions, State());
      NextInUse(s, State());
    }

    /** The facts the current session considers active. */
    method ActiveEvidenceView(history: EvidenceStore) returns (active: EvidenceStore)
      requires history.Valid()
      ensures fresh(active) && active.Valid()
      ensures forall f :: f in Contents(active.records) <==>
                          f in Contents(history.records) && IsActive(PolicyOf(State()), f)
    {
      active := View(Policy(provider, providerFunctions, map a | a in identities :: identities[a].generation), history);
    }
  }

  /** The functions among the first `n` without a cached run of the same fingerprint. */
  function StaleAmong(functions: seq<FunctionRange>, fingerprints: seq<U64>, cache: map<Address, U64>, n: nat)
    : set<Address>
    requires n <= |functions| == |fingerprints|
  {
    if n == 0 then {}
    else
      var a := functions[n - 1].start;
      StaleAmong(functions, fingerprints, cache, n - 1) +
      if a !in cache || cache[a] != fingerprints[n - 1] then {a} else {}
  }
}
