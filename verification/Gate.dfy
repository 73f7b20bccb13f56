/**
 * The contradiction gate in front of the ledger. Whatever sequence of facts is
 * emitted at one active generation, the contradicting pairs among the records
 * active at that generation never change.
 */
module Gate {
  import opened Orders
  import opened Words
  import opened Facts
  import opened FactCodec
  import opened Ledger
  import opened Conflicts
  import opened Store
  import opened Worlds

  datatype Outcome = Invalid | Suppressed | Stored(disposition: Disposition)

  /** One emission against a ledger at a fixed active generation. */
  ghost function Emit(sha: Bytes -> Digest, l: seq<Entry>, generation: U64, f: Fact): (seq<Entry>, Outcome) {
    var n := Normalize(f);
    if !ValidFact(n) then (l, Invalid)
    else if Visible(n.evidence, generation) && LeastContradiction(sha, l, n.payload, generation).Some? then
      (l, Suppressed)
    else
      var (l', d) := AddTo(l, n);
      (l', Stored(d))
  }

  ghost function EmitAll(sha: Bytes -> Digest, l: seq<Entry>, generation: U64, facts: seq<Fact>): seq<Entry>
    decreases |facts|
  {
    if facts == [] then l else EmitAll(sha, Emit(sha, l, generation, facts[0]).0, generation, facts[1..])
  }

  /** Payloads with an observation visible at the generation. */
  ghost function ActivePayloads(l: seq<Entry>, generation: U64): set<Payload> {
    set f | f in Contents(l) && Visible(f.evidence, generation) :: f.payload
  }

  /** Contradicting pairs of active payloads, in canonical order. */
  ghost function ActivePairs(l: seq<Entry>, generation: U64): set<(Payload, Payload)> {
    set p, q | p in ActivePayloads(l, generation) && q in ActivePayloads(l, generation) && PairAt(p, q) :: (p, q)
  }

  ghost predicate PairAt(p: Payload, q: Payload) {
    ValidPayload(p) && ValidPayload(q) && BytesLess(EncodePayload(p), EncodePayload(q)) && Contradicts(p, q)
  }

  /** A record is active exactly when its payload is. */
  lemma {:induction false} ActiveEntry(l: seq<Entry>, i: nat, generation: U64)
    requires ValidLedger(l) && i < |l|
    ensures Active(l[i].record, generation) <==> l[i].record.payload in ActivePayloads(l, generation)
  {
    hide EncodePayload, ValidPayload, ValidEvidence, EncodeEvidence, BytesLess, Visible;
    var r := l[i].record;
    if Active(r, generation) {
      var j :| 0 <= j < |r.observations| && Visible(r.observations[j], generation);
      FactOfEntry(l, i, r.observations[j]);
      assert Fact(r.payload, r.observations[j]) in Contents(l);
    }
    if r.payload in ActivePayloads(l, generation) {
      var f :| f in Contents(l) && Visible(f.evidence, generation) && f.payload == r.payload;
      PayloadOfFact(l, f);
      FactOfEntry(l, i, f.evidence);
      var j :| 0 <= j < |r.observations| && r.observations[j] == f.evidence;
      assert Visible(r.observations[j], generation);
    }
  }

  lemma {:induction false} ActiveRecordOf(l: seq<Entry>, p: Payload, generation: U64)
    requires ValidLedger(l) && ValidPayload(p)
    ensures p in ActivePayloads(l, generation) <==>
            Find(l, EncodePayload(p)).Some? && Active(Find(l, EncodePayload(p)).value, generation)
  {
    hide EncodePayload, ValidPayload, ValidEvidence, EncodeEvidence, BytesLess, Visible, Active, Contents, Find;
    FindSpec(l, EncodePayload(p));
    if p in ActivePayloads(l, generation) {
      var f :| f in Contents(l) && Visible(f.evidence, generation) && f.payload == p;
      PayloadOfFact(l, f);
      var i :| 0 <= i < |l| && l[i].record.payload == p && l[i].key == EncodePayload(p);
      ActiveEntry(l, i, generation);
    }
    if Find(l, EncodePayload(p)).Some? && Active(Find(l, EncodePayload(p)).value, generation) {
      var i :| 0 <= i < |l| && l[i].key == EncodePayload(p);
      assert ValidEntry(l[i]);
      PayloadInjective(l[i].record.payload, p);
      ActiveEntry(l, i, generation);
    }
  }

  /** No new contradiction means the payload contradicts no active payload in either order. */
  lemma {:induction false} NoNewPairs(sha: Bytes -> Digest, l: seq<Entry>, generation: U64, p: Payload, q: Payload)
    requires ValidLedger(l) && ValidPayload(p)
    requires p !in ActivePayloads(l, generation) && q in ActivePayloads(l, generation)
    requires LeastContradiction(sha, l, p, generation).None?
    ensures !PairAt(p, q) && !PairAt(q, p)
  {
    hide EncodePayload, ValidPayload, ValidEvidence, EncodeEvidence, Visible;
    hide Issues, NormalizePayload, Seal, Active, Find;
    hide LeastContradiction, KeysAscend, Contents;
    ValidIsNormal(p);
    LeastContradictionSpec(sha, l, p, generation);
    ActiveRecordOf(l, p, generation);
    var key := EncodePayload(p);
    var f :| f in Contents(l) && Visible(f.evidence, generation) && f.payload == q;
    PayloadOfFact(l, f);
    var i :| 0 <= i < |l| && l[i].record.payload == q && l[i].key == EncodePayload(q);
    ActiveEntry(l, i, generation);
    NoEntryContradiction(sha, l, key, p, generation, i);
    BytesLessTotal();
  }

  lemma {:induction false} NoEntryContradiction(sha: Bytes -> Digest, l: seq<Entry>, key: Bytes, p: Payload,
                                                generation: U64, i: nat)
    requires i < |l| && Active(l[i].record, generation)
    requires ActiveContradictions(sha, l, key, p, generation) == {}
    ensures BytesLess(key, l[i].key) ==> !Contradicts(p, l[i].record.payload)
    ensures !BytesLess(key, l[i].key) ==> !Contradicts(l[i].record.payload, p)
  {
    hide PairConflicts, Contradicts, BytesLess, Active;
    assert EntryContradictions(sha, key, p, l[i]) <= ActiveContradictions(sha, l, key, p, generation);
    ContradictsIsReported(p, l[i].record.payload, sha(key), sha(l[i].key));
    ContradictsIsReported(l[i].record.payload, p, sha(l[i].key), sha(key));
  }

  /** One emission leaves the contradicting active pairs as they were. */
  lemma {:induction false} EmitKeepsPairs(sha: Bytes -> Digest, l: seq<Entry>, generation: U64, f: Fact)
    requires ValidLedger(l)
    ensures ValidLedger(Emit(sha, l, generation, f).0)
    ensures ActivePairs(Emit(sha, l, generation, f).0, generation) == ActivePairs(l, generation)
  {
    hide ValidLedger, Contents, ValidFact, Normalize, AddTo, PairAt, LeastContradiction, ActivePayloads, Visible;
    var n := Normalize(f);
    if ValidFact(n) {
      AddFresh(l, n);
      var l' := Emit(sha, l, generation, f).0;
      if l' != l {
        ActiveGrows(l, l', n, generation);
        if Visible(n.evidence, generation) && n.payload !in ActivePayloads(l, generation) {
          ValidParts(n);
          NewPayloadPairs(sha, l, n.payload, generation);
        }
      }
    }
  }

  /** One more fact: its payload becomes active when the fact is visible. */
  lemma {:induction false} ActiveGrows(l: seq<Entry>, l': seq<Entry>, n: Fact, generation: U64)
    requires Contents(l') == Contents(l) + {n}
    ensures ActivePayloads(l', generation) ==
            ActivePayloads(l, generation) + (if Visible(n.evidence, generation) then {n.payload} else {})
  {
    hide Contents, Visible;
  }

  /** A payload the gate lets through pairs with no active one, nor with itself. */
  lemma {:induction false} NewPayloadPairs(sha: Bytes -> Digest, l: seq<Entry>, p: Payload, generation: U64)
    requires ValidLedger(l) && ValidPayload(p) && p !in ActivePayloads(l, generation)
    requires LeastContradiction(sha, l, p, generation).None?
    ensures !PairAt(p, p) && forall q :: q in ActivePayloads(l, generation) ==> !PairAt(p, q) && !PairAt(q, p)
  {
    hide ValidLedger, ValidPayload, PairAt, LeastContradiction, ActivePayloads;
    NoSelfPair(p);
    forall q | q in ActivePayloads(l, generation) ensures !PairAt(p, q) && !PairAt(q, p) {
      NoNewPairs(sha, l, generation, p, q);
    }
  }

  lemma {:induction false} ValidParts(f: Fact)
    requires ValidFact(f)
    ensures ValidPayload(f.payload)
  {
  }

  lemma {:induction false} NoSelfPair(p: Payload)
    ensures !PairAt(p, p)
  {
    hide EncodePayload, ValidPayload, Contradicts;
    if ValidPayload(p) {
      BytesLessIrreflexive(EncodePayload(p));
    }
  }

  /** No sequence of emissions at one generation changes the contradicting active pairs. */
  lemma {:induction false} EmissionsKeepPairs(sha: Bytes -> Digest, l: seq<Entry>, generation: U64,
                                              facts: seq<Fact>)
    requires ValidLedger(l)
    ensures ValidLedger(EmitAll(sha, l, generation, facts))
    ensures ActivePairs(EmitAll(sha, l, generation, facts), generation) == ActivePairs(l, generation)
    decreases |facts|
  {
    hide ValidLedger, ActivePairs, Emit;
    if facts != [] {
      EmitKeepsPairs(sha, l, generation, facts[0]);
      EmissionsKeepPairs(sha, Emit(sha, l, generation, facts[0]).0, generation, facts[1..]);
    }
  }

  // ---- what the gate stores and what it suppresses --------------------------------------------------------

  /** The payloads in view: every one at generation 0, else those of that generation and user assertions. */
  ghost function Shown(l: seq<Entry>, generation: U64): set<Payload> {
    set f | f in Contents(l) &&
            (generation == 0 || f.evidence.proof == UserAsserted || f.evidence.scope.generation == generation) ::
      f.payload
  }

  lemma {:induction false} ShownAreActive(l: seq<Entry>, generation: U64)
    ensures Shown(l, generation) == ActivePayloads(l, generation)
  {
    hide Contents;
  }

  lemma {:induction false} ShownValid(l: seq<Entry>, generation: U64, q: Payload)
    requires ValidLedger(l) && q in Shown(l, generation)
    ensures ValidPayload(q)
  {
    hide ValidLedger, Contents, ValidPayload, ValidEvidence;
    var f :| f in Contents(l) && f.payload == q;
    PayloadOfFact(l, f);
  }

  /** A contradiction the gate finds is one with a payload in view. */
  lemma {:induction false} FoundIsShown(sha: Bytes -> Digest, l: seq<Entry>, generation: U64, p: Payload)
    requires ValidLedger(l) && ValidPayload(p) && LeastContradiction(sha, l, p, generation).Some?
    ensures exists q :: q in Shown(l, generation) && Contradicts(p, q)
  {
    hide EncodePayload, ValidPayload, BytesLess, PairConflicts, Contradicts, NormalizePayload, Active, Find, Contents;
    hide LeastContradiction, KeysAscend, ActivePayloads;
    ValidIsNormal(p);
    LeastContradictionSpec(sha, l, p, generation);
    var key := EncodePayload(p);
    var c :| c in ActiveContradictions(sha, l, key, p, generation);
    var x :| x in l && Active(x.record, generation) && c in EntryContradictions(sha, key, p, x);
    var i :| 0 <= i < |l| && l[i] == x;
    ActiveEntry(l, i, generation);
    ShownAreActive(l, generation);
    assert ValidEntry(l[i]);
    ContradictsIsReported(p, x.record.payload, sha(key), sha(x.key));
    ContradictsIsReported(x.record.payload, p, sha(x.key), sha(key));
    ContradictionExactly(p, x.record.payload);
  }

  /** A new payload that contradicts one in view is found. */
  lemma {:induction false} ShownIsFound(sha: Bytes -> Digest, l: seq<Entry>, generation: U64, p: Payload, q: Payload)
    requires ValidLedger(l) && ValidPayload(p) && p !in Shown(l, generation)
    requires q in Shown(l, generation) && Contradicts(p, q)
    ensures LeastContradiction(sha, l, p, generation).Some?
  {
    hide ValidLedger, EncodePayload, ValidPayload, BytesLess, Contradicts, LeastContradiction, ActivePayloads;
    ShownValid(l, generation, q);
    ShownAreActive(l, generation);
    hide Shown;
    ContradictionExactly(p, q);
    BytesLessTotal();
    if EncodePayload(p) == EncodePayload(q) {
      PayloadInjective(p, q);
    }
    if LeastContradiction(sha, l, p, generation).None? {
      NoNewPairs(sha, l, generation, p, q);
    }
  }

  /** The fact itself is in view at the generation. */
  ghost predicate InView(e: Evidence, generation: U64) {
    e.proof == UserAsserted || generation == 0 || e.scope.generation == generation
  }

  /** The fact is in view, its payload is not there yet, and one that is there contradicts it. */
  ghost predicate Blocked(l: seq<Entry>, generation: U64, n: Fact) {
    && InView(n.evidence, generation) && n.payload !in Shown(l, generation)
    && exists q :: q in Shown(l, generation) && Contradicts(n.payload, q)
  }

  /**
   * A valid fact is suppressed if and only if it is in view, its payload is not
   * there yet, and a payload that is there contradicts it; every other valid
   * fact is stored, and nothing else changes.
   */
  lemma {:induction false} EmitExactly(sha: Bytes -> Digest, l: seq<Entry>, generation: U64, f: Fact)
    requires ValidLedger(l)
    ensures var n := Normalize(f);
            var (after, outcome) := Emit(sha, l, generation, f);
            && (outcome.Invalid? <==> !ValidFact(n))
            && (outcome.Suppressed? <==> ValidFact(n) && Blocked(l, generation, n))
            && Contents(after) == (if outcome.Stored? then Contents(l) + {n} else Contents(l))
            && (outcome.Stored? ==> !outcome.disposition.RejectedInvalid?)
  {
    hide ValidLedger, Contents, ValidFact, Normalize, AddTo, LeastContradiction, Contradicts, Shown;
    var n := Normalize(f);
    if ValidFact(n) {
      AddFresh(l, n);
      ValidParts(n);
      var p := n.payload;
      if LeastContradiction(sha, l, p, generation).Some? {
        FoundIsShown(sha, l, generation, p);
        FoundIsNew(sha, l, generation, p);
      }
      if q :| q in Shown(l, generation) && Contradicts(p, q) && p !in Shown(l, generation) {
        ShownIsFound(sha, l, generation, p, q);
      }
    }
  }

  lemma {:induction false} FoundIsNew(sha: Bytes -> Digest, l: seq<Entry>, generation: U64, p: Payload)
    requires ValidLedger(l) && ValidPayload(p) && LeastContradiction(sha, l, p, generation).Some?
    ensures p !in Shown(l, generation)
  {
    hide ValidLedger, EncodePayload, ValidPayload, NormalizePayload, Active, Find, Contents, LeastContradiction;
    hide ActiveContradictions, ActivePayloads;
    ValidIsNormal(p);
    LeastContradictionSpec(sha, l, p, generation);
    ActiveRecordOf(l, p, generation);
    ShownAreActive(l, generation);
    hide Shown;
  }

  /** A computed fact of another generation than the active one always goes into the ledger. */
  lemma {:induction false} StaleAlwaysStored(sha: Bytes -> Digest, l: seq<Entry>, generation: U64, f: Fact)
    requires ValidLedger(l) && ValidFact(f)
    requires f.evidence.proof != UserAsserted && generation != 0 && f.evidence.scope.generation != generation
    ensures f in Contents(Emit(sha, l, generation, f).0)
  {
    hide ValidLedger, Contents, ValidFact, Normalize, Emit, Shown, Contradicts;
    ValidFactIsNormal(f);
    EmitExactly(sha, l, generation, f);
  }

  /** What is in view can be true together exactly when no two active payloads contradict in canonical order. */
  lemma {:induction false} ViewSatisfiable(l: seq<Entry>, generation: U64)
    requires ValidLedger(l)
    ensures Satisfiable(Shown(l, generation)) <==> ActivePairs(l, generation) == {}
  {
    hide ValidLedger, EncodePayload, ValidPayload, BytesLess, Contradicts, Satisfiable, ActivePayloads;
    ShownAreActive(l, generation);
    forall q | q in Shown(l, generation) ensures ValidPayload(q) { ShownValid(l, generation, q); }
    var s := Shown(l, generation);
    hide Shown;
    SatisfiableExactly(s);
    if p, q :| p in s && q in s && Contradicts(p, q) {
      ContradictionExactly(p, q);
      NeverItself(p);
      BytesLessTotal();
      if EncodePayload(p) == EncodePayload(q) {
        PayloadInjective(p, q);
      }
      assert (p, q) in ActivePairs(l, generation) || (q, p) in ActivePairs(l, generation);
    }
  }

  /** A view that some world satisfies is still one after any sequence of emissions. */
  lemma {:induction false} EmissionsStaySatisfiable(sha: Bytes -> Digest, l: seq<Entry>, generation: U64,
                                                    facts: seq<Fact>)
    requires ValidLedger(l) && Satisfiable(Shown(l, generation))
    ensures Satisfiable(Shown(EmitAll(sha, l, generation, facts), generation))
  {
    hide ValidLedger, Satisfiable, Shown, ActivePairs, EmitAll;
    EmissionsKeepPairs(sha, l, generation, facts);
    ViewSatisfiable(l, generation);
    ViewSatisfiable(EmitAll(sha, l, generation, facts), generation);
  }

  datatype Report = Report(
    inserted: nat, added: nat, duplicate: nat, invalid: nat, suppressed: nat)

  function Tally(r: Report, o: Outcome): Report {
    match o
    case Invalid => r.(invalid := r.invalid + 1)
    case Suppressed => r.(suppressed := r.suppressed + 1)
    case Stored(InsertedRecord) => r.(inserted := r.inserted + 1)
    case Stored(AddedObservation) => r.(added := r.added + 1)
    case Stored(DuplicateObservation) => r.(duplicate := r.duplicate + 1)
    case Stored(RejectedInvalid) => r.(invalid := r.invalid + 1)
  }

  /** The report after a sequence of emissions. */
  ghost function TallyAll(sha: Bytes -> Digest, l: seq<Entry>, generation: U64, facts: seq<Fact>, r: Report): Report
    decreases |facts|
  {
    if facts == [] then r
    else
      var (after, outcome) := Emit(sha, l, generation, facts[0]);
      TallyAll(sha, after, generation, facts[1..], Tally(r, outcome))
  }

  /** The facts of a sequence that are not valid. */
  function InvalidAmong(facts: seq<Fact>): nat {
    if facts == [] then 0 else (if ValidFact(Normalize(facts[0])) then 0 else 1) + InvalidAmong(facts[1..])
  }

  function Total(r: Report): nat { r.inserted + r.added + r.duplicate + r.invalid + r.suppressed }

  /** The growth of ledger and contents that a report accounts for. */
  ghost predicate Accounts(l: seq<Entry>, after: seq<Entry>, r: Report, next: Report) {
    && |after| - |l| == next.inserted - r.inserted
    && |Contents(after)| - |Contents(l)| == (next.inserted + next.added) - (r.inserted + r.added)
  }

  lemma {:induction false} TallyStep(sha: Bytes -> Digest, l: seq<Entry>, generation: U64, f: Fact, r: Report)
    requires ValidLedger(l)
    ensures var (after, outcome) := Emit(sha, l, generation, f);
            var next := Tally(r, outcome);
            && Accounts(l, after, r, next) && Total(next) == Total(r) + 1
            && next.invalid == r.invalid + (if ValidFact(Normalize(f)) then 0 else 1)
  {
    hide ValidLedger, Contents, ValidFact, Normalize, LeastContradiction, Visible, AddTo;
    var n := Normalize(f);
    if ValidFact(n) {
      AddFresh(l, n);
      AddToLength(l, n);
    }
  }

  lemma {:induction false} AddToLength(l: seq<Entry>, n: Fact)
    ensures |AddTo(l, n).0| == |l| + if AddTo(l, n).1.InsertedRecord? then 1 else 0
    ensures AddTo(l, n).1.DuplicateObservation? ==> AddTo(l, n).0 == l
  {
    hide EncodePayload, ValidFact, Normalize, Insert, LowerBound;
  }

  /** New records, new observations and refusals are counted exactly, and every emission once. */
  lemma {:induction false} ReportAccounts(sha: Bytes -> Digest, l: seq<Entry>, generation: U64, facts: seq<Fact>,
                                          r: Report)
    requires ValidLedger(l)
    ensures var next := TallyAll(sha, l, generation, facts, r);
            && Accounts(l, EmitAll(sha, l, generation, facts), r, next)
            && Total(next) == Total(r) + |facts| && next.invalid == r.invalid + InvalidAmong(facts)
    decreases |facts|
  {
    hide ValidLedger, Contents, Emit, Tally, ValidFact, Normalize;
    if facts != [] {
      TallyStep(sha, l, generation, facts[0], r);
      EmitKeepsPairs(sha, l, generation, facts[0]);
      var (after, outcome) := Emit(sha, l, generation, facts[0]);
      ReportAccounts(sha, after, generation, facts[1..], Tally(r, outcome));
    }
  }

  /** The sink that producers emit into. */
  class DeobfSink {
    const store: EvidenceStore
    var activeGeneration: U64
    var report: Report

    constructor (store: EvidenceStore)
      ensures this.store == store && activeGeneration == 0 && report == Report(0, 0, 0, 0, 0)
    {
      this.store := store;
      activeGeneration := 0;
      report := Report(0, 0, 0, 0, 0);
    }

    method SetActiveGeneration(generation: U64)
      modifies this`activeGeneration
      ensures activeGeneration == generation
    {
      activeGeneration := generation;
    }

    /** Normalise, gate visible facts on new contradictions, then add. */
    method EmitFact(f: Fact) returns (accepted: bool)
      requires store.Valid()
      modifies this`report, store
      ensures store.Valid()
      ensures store.records == Emit(store.sha, old(store.records), activeGeneration, f).0
      ensures report == Tally(old(report), Emit(store.sha, old(store.records), activeGeneration, f).1)
      ensures accepted <==> Emit(store.sha, old(store.records), activeGeneration, f).1.Stored?
      ensures accepted <==> ValidFact(Normalize(f)) && !Blocked(old(store.records), activeGeneration, Normalize(f))
      ensures Contents(store.records) ==
              if accepted then old(Contents(store.records)) + {Normalize(f)} else old(Contents(store.records))
      ensures ActivePairs(store.records, activeGeneration) == ActivePairs(old(store.records), activeGeneration)
    {
      hide ValidLedger, Contents, AddTo, LeastContradiction, ValidFact, Normalize, IndexExact, ActivePairs, Blocked;
      var n := Normalize(f);
      EmitKeepsPairs(store.sha, store.records, activeGeneration, f);
      EmitExactly(store.sha, store.records, activeGeneration, f);
      if !ValidFact(n) {
        report := report.(invalid := report.invalid + 1);
        return false;
      }
      if Visible(n.evidence, activeGeneration) {
        var conflict := store.NewContradiction(n.payload, activeGeneration);
        if conflict.Some? {
          report := report.(suppressed := report.suppressed + 1);
          return false;
        }
      }
      ValidFactIsNormal(n);
      AddSpec(store.records, n);
      var d := store.Add(n);
      report := Tally(report, Stored(d));
      return !d.RejectedInvalid?;
    }
  }
}
