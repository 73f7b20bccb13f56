/**
 * What a session keeps active. A function keeps its generation exactly while
 * the image and its own bytes stay the same, and evidence stamped with a current
 * generation is active, whatever else happens.
 */
module SessionLaws {
  import opened Words
  import opened Facts
  import opened Ledger
  import opened Lifecycle

  // ---- activity ----------------------------------------------------------------------------------------

  /** The producer scans the whole database at one generation. */
  predicate ScansAll(producer: Bytes) { producer in {Ascii("viy.native.ida"), Ascii("viy.deobf.ida")} }

  /** The fact was stamped with the current generation of its scan, or of its function. */
  predicate Current(s: Session, f: Fact) {
    var scope := f.evidence.scope;
    if ScansAll(f.evidence.producer) then
      && s.provider != 0 && scope.generation == s.provider
      && (scope.functionStart == None || scope.functionStart.value in s.providerFunctions)
    else scope.functionStart.Some? && GenerationOf(s, scope.functionStart.value) == Some(scope.generation)
  }

  /** In a session exactly the user's assertions and the current facts are active. */
  lemma {:induction false} ActiveExactly(s: Session, f: Fact)
    ensures IsActive(PolicyOf(s), f) <==> f.evidence.proof == UserAsserted || Current(s, f)
  {
    hide Ascii;
  }

  /** A user's assertion is active in every state of every session. */
  lemma {:induction false} AssertionsAlwaysActive(states: seq<Session>, k: nat, f: Fact)
    requires Run(states) && k < |states| && f.evidence.proof == UserAsserted
    ensures IsActive(PolicyOf(states[k]), f)
  {
    hide Run;
    ActiveExactly(states[k], f);
  }

  // ---- snapshots ---------------------------------------------------------------------------------------

  /** The first function listed with this start. */
  predicate FirstWith(functions: seq<FunctionRange>, i: nat) {
    i < |functions| && forall j :: 0 <= j < i ==> functions[j].start != functions[i].start
  }

  lemma {:induction false} AssignedOnly(s: Session, contentHash: U64, changed: U64, functions: seq<FunctionRange>,
                                        n: nat, a: Address)
    requires n <= |functions|
    ensures a in Assigned(s, contentHash, changed, functions, n) <==> exists i :: 0 <= i < n && functions[i].start == a
  {
    if n > 0 {
      AssignedOnly(s, contentHash, changed, functions, n - 1, a);
    }
  }

  lemma {:induction false} AssignedFirst(s: Session, contentHash: U64, changed: U64, functions: seq<FunctionRange>,
                                         n: nat, i: nat)
    requires i < n <= |functions| && FirstWith(functions, i)
    ensures var f := functions[i];
            var all := Assigned(s, contentHash, changed, functions, n);
            f.start in all && all[f.start] == Identity(f.byteHash, Stamp(s, contentHash, changed, f))
  {
    if i < n - 1 {
      AssignedFirst(s, contentHash, changed, functions, n - 1, i);
    } else {
      AssignedOnly(s, contentHash, changed, functions, n - 1, functions[i].start);
    }
  }

  /**
   * After a snapshot exactly the listed functions have a generation. A function
   * keeps the one it had if and only if the image is the one of the snapshot
   * before and its bytes hash as they did; otherwise it has one never used before.
   */
  lemma {:induction false} KeptExactly(s: Session, functions: seq<FunctionRange>, contentHash: U64, t: Session, i: nat)
    requires Snapshot(s, functions, contentHash, t) && InUse(s) && FirstWith(functions, i)
    ensures var f := functions[i];
            && f.start in t.identities && t.identities[f.start].byteHash == f.byteHash
            && var g := t.identities[f.start].generation;
               if s.priorHash == Some(contentHash) && f.start in s.identities &&
                  s.identities[f.start].byteHash == f.byteHash
               then g == s.identities[f.start].generation
               else g !in s.used && g != 0
  {
    hide Assigned;
    var changed: U64 :|
      && Takes(s.used, AnyChanged(s, contentHash, functions, |functions|), changed, t.used)
      && t == Session(t.used, Assigned(s, contentHash, changed, functions, |functions|), Some(contentHash),
                      s.provider, s.providerFunctions);
    AssignedFirst(s, contentHash, changed, functions, |functions|, i);
  }

  lemma {:induction false} ListedExactly(s: Session, functions: seq<FunctionRange>, contentHash: U64, t: Session,
                                         a: Address)
    requires Snapshot(s, functions, contentHash, t)
    ensures GenerationOf(t, a).Some? <==> exists i :: 0 <= i < |functions| && functions[i].start == a
    ensures t.priorHash == Some(contentHash) && t.provider == s.provider && t.providerFunctions == s.providerFunctions
  {
    hide Assigned;
    var changed: U64 :|
      && Takes(s.used, AnyChanged(s, contentHash, functions, |functions|), changed, t.used)
      && t == Session(t.used, Assigned(s, contentHash, changed, functions, |functions|), Some(contentHash),
                      s.provider, s.providerFunctions);
    AssignedOnly(s, contentHash, changed, functions, |functions|, a);
  }

  /** Functions that change in one snapshot share their new generation. */
  lemma {:induction false} ChangeTogether(s: Session, functions: seq<FunctionRange>, contentHash: U64, t: Session,
                                          i: nat, j: nat)
    requires Snapshot(s, functions, contentHash, t) && InUse(s) && FirstWith(functions, i) && FirstWith(functions, j)
    requires GenerationOf(t, functions[i].start) != GenerationOf(s, functions[i].start)
    requires GenerationOf(t, functions[j].start) != GenerationOf(s, functions[j].start)
    ensures GenerationOf(t, functions[i].start) == GenerationOf(t, functions[j].start)
  {
    hide Assigned;
    var changed: U64 :|
      && Takes(s.used, AnyChanged(s, contentHash, functions, |functions|), changed, t.used)
      && t == Session(t.used, Assigned(s, contentHash, changed, functions, |functions|), Some(contentHash),
                      s.provider, s.providerFunctions);
    AssignedFirst(s, contentHash, changed, functions, |functions|, i);
    AssignedFirst(s, contentHash, changed, functions, |functions|, j);
  }

  /** Evidence stamped with the generation a snapshot hands out is active after it. */
  lemma {:induction false} StampedIsActive(s: Session, functions: seq<FunctionRange>, contentHash: U64, t: Session,
                                           i: nat, f: Fact)
    requires Snapshot(s, functions, contentHash, t) && InUse(s) && FirstWith(functions, i)
    requires !ScansAll(f.evidence.producer) && f.evidence.scope.functionStart == Some(functions[i].start)
    requires Some(f.evidence.scope.generation) == GenerationOf(t, functions[i].start)
    ensures IsActive(PolicyOf(t), f)
    ensures (s.priorHash == Some(contentHash) && functions[i].start in s.identities &&
             s.identities[functions[i].start].byteHash == functions[i].byteHash) || f.evidence.proof == UserAsserted ||
            !IsActive(PolicyOf(s), f)
  {
    KeptExactly(s, functions, contentHash, t, i);
    hide Snapshot;
    ActiveExactly(t, f);
    ActiveExactly(s, f);
  }

  // ---- emulation fingerprints ---------------------------------------------------------------------------

  /** A function is stale exactly when it is listed without a cached run of its fingerprint. */
  lemma {:induction false} StaleExactly(functions: seq<FunctionRange>, fingerprints: seq<U64>, cache: map<Address, U64>,
                                        n: nat, a: Address)
    requires n <= |functions| == |fingerprints|
    ensures a in StaleAmong(functions, fingerprints, cache, n) <==>
            exists i :: 0 <= i < n && functions[i].start == a && !(a in cache && cache[a] == fingerprints[i])
  {
    if n > 0 {
      StaleExactly(functions, fingerprints, cache, n - 1, a);
    }
  }

  /** Stale functions move to one unused generation; the others stay, and so do all hashes. */
  lemma {:induction false} MovedExactly(s: Session, stale: set<Address>, t: Session, a: Address)
    requires Refingerprint(s, stale, t) && InUse(s)
    ensures a in t.identities <==> a in s.identities
    ensures a in s.identities ==>
              && t.identities[a].byteHash == s.identities[a].byteHash
              && (t.identities[a].generation == s.identities[a].generation <==> a !in stale)
              && (a in stale ==> t.identities[a].generation !in s.used)
    ensures t.priorHash == s.priorHash && t.provider == s.provider && t.providerFunctions == s.providerFunctions
  {
  }

  /** A provider scan invalidates every earlier scan and no function's own evidence. */
  lemma {:induction false} RescanExactly(s: Session, functions: set<Address>, t: Session, f: Fact)
    requires Rescan(s, functions, t) && InUse(s) && f.evidence.proof != UserAsserted
    ensures ScansAll(f.evidence.producer) && f.evidence.scope.generation in s.used ==> !IsActive(PolicyOf(t), f)
    ensures !ScansAll(f.evidence.producer) ==> (IsActive(PolicyOf(t), f) <==> IsActive(PolicyOf(s), f))
    ensures ScansAll(f.evidence.producer) && f.evidence.scope.generation == t.provider ==>
              (IsActive(PolicyOf(t), f) <==>
               f.evidence.scope.functionStart == None || f.evidence.scope.functionStart.value in functions)
  {
    hide ScansAll;
    ActiveExactly(s, f);
    ActiveExactly(t, f);
  }
}
