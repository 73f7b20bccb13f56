/**
 * Disks whose second read forgets a slot, at the limits the adapter decodes
 * with: the commit marker is lost, each slot holds just over half as many jumps
 * as one envelope may, and the slots share none.
 */
module LostSlot {
  import opened Words
  import opened Orders
  import opened Facts
  import opened Wire
  import opened FactCodec
  import opened Ledger
  import opened Conflicts
  import opened Store
  import opened Envelope
  import SlotCommit

  /** A jump from address 0, observed once. */
  function JumpTo(target: Address): Fact {
    Fact(CodeTarget(0, target, Jump, false),
         Evidence([0x76], [0x65], Observed, 0, Scope(None, None, None, None, 1), [], []))
  }

  /** Jumps to `n` consecutive addresses. */
  function Jumps(first: nat, n: nat): seq<Fact>
    requires first + n <= TWO_64
  {
    seq(n, i requires 0 <= i < n => JumpTo(first + i))
  }

  /** The ledger they are added to. */
  function JumpLedger(first: nat, n: nat): seq<Entry>
    requires first + n <= TWO_64
  {
    AddAll([], Jumps(first, n))
  }

  // ---- sizes ---------------------------------------------------------------------------------------------

  lemma {:induction false} BigEndianLength(v: nat, n: nat)
    ensures |BigEndian(v, n)| == n
  {
    if n > 0 { BigEndianLength(v / 0x100, n - 1); }
  }

  lemma {:induction false} PutLengths()
    ensures forall v: U16, t: Bytes :: |PutU16(v, t)| == 2 + |t|
    ensures forall v: U32, t: Bytes :: |PutU32(v, t)| == 4 + |t|
    ensures forall v: U64, t: Bytes :: |PutU64(v, t)| == 8 + |t|
  {
    forall v: nat, n: nat ensures |BigEndian(v, n)| == n {
      BigEndianLength(v, n);
    }
    hide BigEndian;
  }

  lemma {:induction false} JumpPayloadSize(target: Address)
    ensures |EncodePayload(JumpTo(target).payload)| == 25
  {
    PutLengths();
    hide PutU16, PutU64;
  }

  lemma {:induction false} JumpEvidenceSize(target: Address)
    ensures ValidFact(JumpTo(target)) && |EncodeEvidence(JumpTo(target).evidence)| == 39
  {
    PutLengths();
    hide PutU16, PutU32, PutU64;
  }

  lemma {:induction false} JumpEncodes(target: Address)
    ensures ValidFact(JumpTo(target)) && EncodeFact(JumpTo(target)).Some?
    ensures |EncodeFact(JumpTo(target)).value| == 78
  {
    JumpPayloadSize(target);
    JumpEvidenceSize(target);
    PutLengths();
    hide PutU16, PutU32, EncodePayload, EncodeEvidence, ValidFact;
  }

  // ---- ledgers that can be written -----------------------------------------------------------------------

  lemma {:induction false} FlattenSize(l: seq<Entry>)
    requires ValidLedger(l)
    ensures |Flatten(l)| == |Contents(l)|
  {
    FlattenContents(l);
    FlattenAscends(l);
    DistinctSize(Flatten(l));
    hide ValidLedger, Contents, Flatten;
  }

  /** A fact written with its length takes 82 bytes. */
  ghost predicate JumpSized(f: Fact) {
    ValidFact(f) && EncodeFact(f).Some? && |EncodeFact(f).value| == 78
  }

  lemma {:induction false} PutFactsSize(facts: seq<Fact>)
    requires forall f :: f in facts ==> ValidFact(f) && JumpSized(f)
    ensures PutFacts(facts, []).Some? && |PutFacts(facts, []).value| == 82 * |facts|
    decreases |facts|
  {
    hide ValidFact, EncodeFact;
    PutLengths();
    hide PutU32;
    if facts != [] {
      assert facts[0] in facts;
      PutFactsSize(facts[1..]);
    }
  }

  lemma {:induction false} EnvelopeSize(sha: Bytes -> Digest, l: seq<Entry>)
    requires ValidLedger(l) && |Contents(l)| < TWO_64 && forall f :: f in Contents(l) ==> JumpSized(f)
    ensures SerializeLedger(sha, l).Some? && |SerializeLedger(sha, l).value| == 56 + 82 * |Contents(l)|
  {
    hide ValidLedger, Contents, Flatten, JumpSized, PutFacts, Header;
    FlattenSize(l);
    FlattenContents(l);
    StoredFactsValid(l);
    forall f | f in Flatten(l) ensures f in Contents(l) && ValidFact(f) {
      assert f in Elements(Flatten(l));
    }
    hide ValidFact;
    PutFactsSize(Flatten(l));
    HeaderLength(|Flatten(l)|, PutFacts(Flatten(l), []).value);
  }

  // ---- ledgers of jumps ----------------------------------------------------------------------------------

  /** The facts are jumps to the `n` addresses from `first` on. */
  ghost predicate AreJumps(facts: set<Fact>, first: nat, n: nat) {
    forall f :: f in facts <==> exists t: Address :: first <= t < first + n && f == JumpTo(t)
  }

  lemma {:induction false} JumpsAre(first: nat, n: nat)
    requires first + n <= TWO_64
    ensures AreJumps(Elements(Jumps(first, n)), first, n)
  {
    hide JumpTo;
    var facts := Jumps(first, n);
    forall f ensures f in facts <==> exists t: Address :: first <= t < first + n && f == JumpTo(t) {
      if f in facts {
        var i :| 0 <= i < |facts| && facts[i] == f;
        assert f == JumpTo(first + i);
      }
      if t: Address :| first <= t < first + n && f == JumpTo(t) {
        assert facts[t - first] == f;
      }
    }
  }

  lemma {:induction false} JumpCount(facts: set<Fact>, first: nat, n: nat)
    requires first + n <= TWO_64 && AreJumps(facts, first, n)
    ensures |facts| == n
  {
    if n == 0 {
      assert facts == {};
    } else {
      var last := first + n - 1;
      var rest := facts - {JumpTo(last)};
      forall f ensures f in rest <==> exists t: Address :: first <= t < first + n - 1 && f == JumpTo(t) {
        if t: Address :| first <= t < first + n - 1 && f == JumpTo(t) {
          assert f.payload.target == t;
        }
      }
      assert JumpTo(last) in facts;
      JumpCount(rest, first, n - 1);
      assert facts == rest + {JumpTo(last)};
    }
  }

  /** What a ledger with exactly these jumps is: its facts counted, its envelope sized. */
  ghost predicate HoldsJumps(sha: Bytes -> Digest, l: seq<Entry>, first: nat, n: nat) {
    && ValidLedger(l) && AreJumps(Contents(l), first, n) && |Flatten(l)| == n
    && SerializeLedger(sha, l).Some? && |SerializeLedger(sha, l).value| == 56 + 82 * n
  }

  lemma {:induction false} JumpsHeld(sha: Bytes -> Digest, l: seq<Entry>, first: nat, n: nat)
    requires ValidLedger(l) && first + n <= TWO_64 && n < TWO_64 && AreJumps(Contents(l), first, n)
    ensures HoldsJumps(sha, l, first, n)
  {
    hide ValidLedger, Contents, Flatten, SerializeLedger, JumpTo;
    JumpCount(Contents(l), first, n);
    FlattenSize(l);
    forall f | f in Contents(l) ensures JumpSized(f) {
      var t: Address :| first <= t < first + n && f == JumpTo(t);
      JumpEncodes(t);
    }
    EnvelopeSize(sha, l);
  }

  lemma {:induction false} JumpLedgerHolds(sha: Bytes -> Digest, first: nat, n: nat)
    requires first + n <= TWO_64 && n < TWO_64
    ensures HoldsJumps(sha, JumpLedger(first, n), first, n)
  {
    hide ValidLedger, Contents, AddAll, JumpTo, HoldsJumps, Jumps;
    var facts := Jumps(first, n);
    EmptyLedger();
    AddAllSpec([], facts);
    JumpsAre(first, n);
    forall f | f in facts ensures ValidFact(f) && Normalize(f) == f {
      assert f in Elements(facts);
      var t: Address :| first <= t < first + n && f == JumpTo(t);
      JumpEncodes(t);
      ValidFactIsNormal(f);
    }
    hide ValidFact, Normalize;
    assert Accepted(facts) == Elements(facts);
    assert Contents(JumpLedger(first, n)) == Elements(facts);
    JumpsHeld(sha, JumpLedger(first, n), first, n);
  }

  lemma {:induction false} MergedHolds(sha: Bytes -> Digest, left: seq<Entry>, right: seq<Entry>, n: nat)
    requires 2 * n < TWO_64 && HoldsJumps(sha, left, 0, n) && HoldsJumps(sha, right, n, n)
    ensures HoldsJumps(sha, MergeInto(left, right), 0, 2 * n)
  {
    hide ValidLedger, Contents, Flatten, SerializeLedger, MergeInto, JumpTo;
    MergeSpec(left, right);
    var both := Contents(MergeInto(left, right));
    forall f ensures f in both <==> exists t: Address :: 0 <= t < 2 * n && f == JumpTo(t) {
      assert f in both <==> f in Contents(left) || f in Contents(right);
    }
    JumpsHeld(sha, MergeInto(left, right), 0, 2 * n);
  }

  // ---- the limits ----------------------------------------------------------------------------------------

  /** The limits admit a jump, and an envelope of just over half the observations they allow. */
  predicate AdmitHalf(limits: StoreLimits) {
    && 1 <= limits.maxObservations && 56 + 82 * (limits.maxObservations / 2 + 1) <= limits.maxBlobBytes < TWO_64
    && 78 <= limits.facts.maxFactBytes && 1 <= limits.facts.maxStringBytes
  }

  lemma {:induction false} JumpFits(target: Address, limits: Limits)
    requires 78 <= limits.maxFactBytes && 1 <= limits.maxStringBytes
    ensures ValidFact(JumpTo(target)) && FactFits(JumpTo(target), limits)
  {
    JumpEncodes(target);
    hide EncodeFact, ValidFact;
  }

  lemma {:induction false} HalfFits(sha: Bytes -> Digest, limits: StoreLimits, l: seq<Entry>, first: nat)
    requires AdmitHalf(limits) && HoldsJumps(sha, l, first, limits.maxObservations / 2 + 1)
    ensures LedgerFits(sha, l, limits)
  {
    hide ValidLedger, Contents, Flatten, SerializeLedger, JumpTo, ValidFact, FactFits;
    FlattenContents(l);
    forall f | f in Flatten(l) ensures ValidFact(f) && FactFits(f, limits.facts) {
      assert f in Elements(Flatten(l));
      var t: Address :| first <= t < first + limits.maxObservations / 2 + 1 && f == JumpTo(t);
      JumpFits(t, limits.facts);
    }
  }

  /** The first read recovers the jumps of both slots, the second returns only those of slot B. */
  ghost predicate Forgets(sha: Bytes -> Digest, limits: StoreLimits, n: nat)
    requires 2 * n < TWO_64
  {
    var left, right := JumpLedger(0, n), JumpLedger(n, n);
    var merged := MergeInto(left, right);
    && HoldsJumps(sha, left, 0, n) && HoldsJumps(sha, right, n, n) && HoldsJumps(sha, merged, 0, 2 * n)
    && var d := SlotCommit.Disk(true, None, SerializeLedger(sha, left), SerializeLedger(sha, right));
       var once := SlotCommit.Read(sha, limits, d);
       && once.0 == SerializeLedger(sha, merged)
       && SlotCommit.Read(sha, limits, once.1).0 == SerializeLedger(sha, right) != once.0
  }

  lemma {:induction false} HalfBound(limits: StoreLimits)
    requires AdmitHalf(limits)
    ensures 2 * (limits.maxObservations / 2 + 1) < TWO_64
    ensures 2 * (limits.maxObservations / 2 + 1) > limits.maxObservations
  {
  }

  /** At all limits that admit it, two readable slots exist whose union a second read does not find. */
  lemma {:induction false} SecondReadForgets(sha: Bytes -> Digest, limits: StoreLimits)
    requires AdmitHalf(limits)
    ensures var n := limits.maxObservations / 2 + 1;
            2 * n < TWO_64 && n > 0 && Forgets(sha, limits, n)
  {
    HalfBound(limits);
    hide ValidLedger, Contents, Flatten, SerializeLedger, LedgerFits, MergeInto, JumpTo, JumpLedger, AreJumps;
    hide SlotCommit.Read, AdmitHalf;
    var n := limits.maxObservations / 2 + 1;
    var left, right := JumpLedger(0, n), JumpLedger(n, n);
    JumpLedgerHolds(sha, 0, n);
    JumpLedgerHolds(sha, n, n);
    MergedHolds(sha, left, right, n);
    HalfFits(sha, limits, left, 0);
    HalfFits(sha, limits, right, n);
    SlotCommit.TooManyTogether(sha, limits, left, right);
    assert |SerializeLedger(sha, right).value| != |SerializeLedger(sha, MergeInto(left, right)).value|;
  }

  /** The limits every slot is decoded with: half a million jumps and one in each slot. */
  lemma {:induction false} DefaultReadForgets(sha: Bytes -> Digest)
    ensures Forgets(sha, DEFAULT_LIMITS, 500_001)
  {
    hide Forgets;
    assert AdmitHalf(DEFAULT_LIMITS);
    SecondReadForgets(sha, DEFAULT_LIMITS);
  }
}
