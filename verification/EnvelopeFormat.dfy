/**
 * The envelope byte by byte, and exactly which ledgers can be written: those
 * whose facts are each short enough to be encoded, fewer than 2^64 of them.
 */
module EnvelopeFormat {
  import opened Orders
  import opened Words
  import opened Wire
  import opened Facts
  import opened FactCodec
  import opened Ledger
  import opened Conflicts
  import opened Envelope
  import opened Store
  import LostSlot

  // ---- which ledgers can be written --------------------------------------------------------------------

  /** Payload and evidence have four-byte lengths, and so has the fact around them. */
  ghost predicate Writable(f: Fact) {
    ValidFact(f) && |EncodePayload(f.payload)| + |EncodeEvidence(f.evidence)| + 14 < TWO_32
  }

  lemma {:induction false} FactSize(f: Fact)
    requires ValidFact(f)
    ensures EncodeFact(f).Some? <==>
            |EncodePayload(f.payload)| < TWO_32 && |EncodeEvidence(f.evidence)| < TWO_32
    ensures EncodeFact(f).Some? ==>
              |EncodeFact(f).value| == |EncodePayload(f.payload)| + |EncodeEvidence(f.evidence)| + 14
  {
    LostSlot.PutLengths();
    hide EncodePayload, EncodeEvidence, PutU16, PutU32, ValidPayload, ValidEvidence;
  }

  lemma {:induction false} PutFactsExactly(facts: seq<Fact>)
    requires forall f :: f in facts ==> ValidFact(f)
    ensures PutFacts(facts, []).Some? <==> forall f :: f in facts ==> Writable(f)
    decreases |facts|
  {
    hide ValidFact, EncodeFact, EncodePayload, EncodeEvidence, PutU32;
    if facts != [] {
      assert facts[0] in facts;
      FactSize(facts[0]);
      PutFactsExactly(facts[1..]);
      assert facts == [facts[0]] + facts[1..];
      hide Writable;
      assert (forall f :: f in facts ==> Writable(f)) <==>
             Writable(facts[0]) && forall f :: f in facts[1..] ==> Writable(f);
    }
  }

  /** A ledger is written if and only if it has fewer than 2^64 facts and each of them can be. */
  lemma {:induction false} WrittenExactly(sha: Bytes -> Digest, l: seq<Entry>)
    requires ValidLedger(l)
    ensures SerializeLedger(sha, l).Some? <==>
            |Contents(l)| < TWO_64 && forall f :: f in Contents(l) ==> Writable(f)
  {
    hide ValidLedger, Contents, Flatten, Writable, PutFacts, Header;
    StoredFactsValid(l);
    FlattenContents(l);
    LostSlot.FlattenSize(l);
    forall f ensures f in Flatten(l) <==> f in Contents(l) {
      assert f in Flatten(l) <==> f in Elements(Flatten(l));
    }
    forall f | f in Flatten(l) ensures ValidFact(f) {
    }
    hide ValidFact;
    PutFactsExactly(Flatten(l));
  }

  // ---- its bytes -------------------------------------------------------------------------------------------

  lemma {:induction false} SmallNumbers()
    ensures BigEndian(1, 2) == [0, 1] && BigEndian(0, 2) == [0, 0] && BigEndian(1, 4) == [0, 0, 0, 1]
  {
    assert BigEndian(0, 1) == [0];
    assert BigEndian(0, 2) == [0, 0];
    assert BigEndian(0, 3) == [0, 0, 0];
  }

  lemma {:induction false} Regroup(a: Bytes, b: Bytes, c: Bytes, d: Bytes, t: Bytes)
    ensures a + (b + (c + (d + t))) == a + b + c + d + t
  {
  }

  /** "VIYEVDB" and a zero, version 1.0, the flag for SHA-256, then the number of facts. */
  lemma {:induction false} HeaderBytes(count: U64, t: Bytes)
    ensures Header(count, t) ==
            [0x56, 0x49, 0x59, 0x45, 0x56, 0x44, 0x42, 0, 0, 1, 0, 0, 0, 0, 0, 1] + (BigEndian(count, 8) + t)
  {
    SmallNumbers();
    hide BigEndian;
    Regroup(STORE_MAGIC, [0, 1], [0, 0], [0, 0, 0, 1], BigEndian(count, 8) + t);
    assert STORE_MAGIC + [0, 1] + [0, 0] + [0, 0, 0, 1] ==
           [0x56, 0x49, 0x59, 0x45, 0x56, 0x44, 0x42, 0, 0, 1, 0, 0, 0, 0, 0, 1];
  }

  /** Header, number of facts, facts, and a digest of all before it. */
  lemma {:induction false} EnvelopeBytes(sha: Bytes -> Digest, l: seq<Entry>)
    requires ValidLedger(l) && SerializeLedger(sha, l).Some?
    ensures var blob := SerializeLedger(sha, l).value;
            && |blob| >= 56
            && blob[..16] == [0x56, 0x49, 0x59, 0x45, 0x56, 0x44, 0x42, 0, 0, 1, 0, 0, 0, 0, 0, 1]
            && blob[16..24] == BigEndian(|Contents(l)|, 8)
            && blob[|blob| - 32..] == sha(blob[..|blob| - 32])
  {
    hide ValidLedger, Contents, Flatten, PutFacts, Header;
    StoredFactsValid(l);
    LostSlot.FlattenSize(l);
    forall f | f in Flatten(l) ensures ValidFact(f) {
    }
    hide ValidFact;
    var body := PutFacts(Flatten(l), []).value;
    HeaderBytes(|Flatten(l)|, body);
    Pow256Values();
    BigEndianValue(|Flatten(l)|, 8);
    hide BigEndian, Pow256;
    var envelope := Header(|Flatten(l)|, body);
    var blob := envelope + sha(envelope);
    assert blob[..|blob| - 32] == envelope && blob[|blob| - 32..] == sha(envelope);
    assert blob[..24] == envelope[..24];
  }

  // ---- what the limits bound --------------------------------------------------------------------------------

  /** Names and decoded text, bounded by the string limit. */
  ghost function TextsOf(p: Payload): set<Bytes> {
    match p
    case StringCandidate(_, _, _, decoded, _) => {decoded}
    case FunctionTrait(_, _, v) => {v.textValue}
    case RegisterValue(_, _, name, _) => {name}
    case CallObservation(_, _, _, _, arguments, returns_) => set v | v in arguments + returns_ :: v.location
    case _ => {}
  }

  /** Raw contents, bounded by the fact limit. */
  ghost function ContentsOf(p: Payload): set<Bytes> {
    match p
    case MemoryValue(_, _, _, bytes) => {bytes}
    case StringCandidate(_, _, bytes, _, _) => {bytes}
    case RegisterValue(_, _, _, bytes) => {bytes}
    case CallObservation(_, _, _, _, arguments, returns_) => set v | v in arguments + returns_ :: v.bytes
    case _ => {}
  }

  /** Lengths of lists, bounded by the item limit. */
  ghost function CountsOf(p: Payload): set<nat> {
    match p
    case DispatchMap(_, cases, _, _) => {|cases|}
    case CallObservation(_, _, _, _, arguments, returns_) => {|arguments|, |returns_|}
    case _ => {}
  }

  ghost predicate Within(p: Payload, limits: Limits) {
    && (forall b :: b in TextsOf(p) ==> |b| <= limits.maxStringBytes)
    && (forall b :: b in ContentsOf(p) ==> |b| <= limits.maxFactBytes)
    && (forall n :: n in CountsOf(p) ==> n <= limits.maxVectorItems)
  }

  lemma {:induction false} FitByValue(values: seq<CallValue>, limits: Limits)
    ensures CallBytesFit(values, limits) <==>
            forall v :: v in values ==> |v.location| <= limits.maxStringBytes && |v.bytes| <= limits.maxFactBytes
  {
    if forall v :: v in values ==> |v.location| <= limits.maxStringBytes && |v.bytes| <= limits.maxFactBytes {
      forall i | 0 <= i < |values|
        ensures |values[i].location| <= limits.maxStringBytes && |values[i].bytes| <= limits.maxFactBytes
      {
        assert values[i] in values;
      }
    }
  }

  lemma {:induction false} TextsByValue(p: Payload, n: nat)
    requires p.CallObservation?
    ensures (forall b :: b in TextsOf(p) ==> |b| <= n) <==>
            forall v :: v in p.arguments + p.returns_ ==> |v.location| <= n
    ensures (forall b :: b in ContentsOf(p) ==> |b| <= n) <==>
            forall v :: v in p.arguments + p.returns_ ==> |v.bytes| <= n
  {
    var all := p.arguments + p.returns_;
    forall v | v in all ensures v.location in TextsOf(p) && v.bytes in ContentsOf(p) {
    }
  }

  lemma {:induction false} CallsWithin(p: Payload, limits: Limits)
    requires p.CallObservation?
    ensures CallBytesFit(p.arguments, limits) && CallBytesFit(p.returns_, limits) <==>
            && (forall b :: b in TextsOf(p) ==> |b| <= limits.maxStringBytes)
            && (forall b :: b in ContentsOf(p) ==> |b| <= limits.maxFactBytes)
  {
    FitByValue(p.arguments, limits);
    FitByValue(p.returns_, limits);
    TextsByValue(p, limits.maxStringBytes);
    TextsByValue(p, limits.maxFactBytes);
    hide CallBytesFit, TextsOf, ContentsOf;
    var all := p.arguments + p.returns_;
    assert forall v :: v in all <==> v in p.arguments || v in p.returns_;
  }

  /** A payload's fields fit exactly when its texts, contents and lists are each within their own limit. */
  lemma {:induction false} FieldsWithin(p: Payload, limits: Limits)
    ensures FieldsFit(p, limits) <==> Within(p, limits)
  {
    if p.CallObservation? {
      CallsWithin(p, limits);
      hide CallBytesFit, TextsOf, ContentsOf;
      assert CountsOf(p) == {|p.arguments|, |p.returns_|};
    } else if p.DispatchMap? {
      assert |p.cases| in CountsOf(p);
    } else if p.StringCandidate? {
      assert p.decoded in TextsOf(p) && p.bytes in ContentsOf(p);
    } else if p.FunctionTrait? {
      assert p.value.textValue in TextsOf(p);
    } else if p.RegisterValue? {
      assert p.registerId in TextsOf(p) && p.bytes in ContentsOf(p);
    } else if p.MemoryValue? {
      assert p.bytes in ContentsOf(p);
    }
  }

  lemma {:induction false} EvidenceWithin(e: Evidence, limits: Limits)
    ensures EvidenceFits(e, limits) <==>
            && (forall b :: b in {e.producer, e.method_, e.detail} ==> |b| <= limits.maxStringBytes)
            && |e.support| <= limits.maxVectorItems
  {
  }
}
