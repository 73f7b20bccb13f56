/**
 * The persistent form of a store: a header, the facts in canonical order with
 * their lengths, and a digest of all of it. Deserialisation succeeds exactly on
 * the serialisations of ledgers that the limits admit, and gives them back.
 */
module Envelope {
  import opened Orders
  import opened Words
  import opened Wire
  import opened Facts
  import opened FactCodec
  import opened Ledger
  import opened Conflicts
  import opened Store

  const STORE_MAGIC: Bytes := [0x56, 0x49, 0x59, 0x45, 0x56, 0x44, 0x42, 0x00]
  const STORE_MAJOR: U16 := 1
  const STORE_MINOR: U16 := 0
  const STORE_FLAG_SHA256: U32 := 1
  const DIGEST_SIZE: nat := 32

  datatype StoreLimits = StoreLimits(maxBlobBytes: nat, maxObservations: nat, facts: Limits)

  /** 64 MiB and a million observations; facts of 4 MiB with strings and vectors of 1 Mi. */
  const DEFAULT_LIMITS := StoreLimits(0x400_0000, 1_000_000, Limits(0x40_0000, 0x10_0000, 0x10_0000))

  // ---- writing --------------------------------------------------------------------------

  /** Each fact behind its four-byte length; fails when a fact cannot be encoded. */
  function PutFacts(facts: seq<Fact>, t: Bytes): Option<Bytes>
    requires forall f :: f in facts ==> ValidFact(f)
  {
    if facts == [] then Some(t)
    else
      var encoded :- EncodeFact(facts[0]);
      if |encoded| >= TWO_32 then None
      else
        var rest :- PutFacts(facts[1..], t);
        Some(PutBytes(encoded, rest))
  }

  function Header(count: U64, t: Bytes): Bytes {
    Tag(STORE_MAGIC, STORE_MAJOR, PutU16(STORE_MINOR, PutU32(STORE_FLAG_SHA256, PutU64(count, t))))
  }

  function SerializeLedger(sha: Bytes -> Digest, l: seq<Entry>): Option<Bytes>
    requires ValidLedger(l)
  {
    StoredFactsValid(l);
    var facts := Flatten(l);
    if |facts| >= TWO_64 then None
    else
      var body :- PutFacts(facts, []);
      var envelope := Header(|facts|, body);
      Some(envelope + sha(envelope))
  }

  // ---- reading ---------------------------------------------------------------------------

  function GetHeader(s: Bytes): Parsed<U64> {
    var s :- Untag(STORE_MAGIC, STORE_MAJOR, s);
    var (minor, s) :- GetU16(s);
    var (flags, s) :- GetU32(s);
    var (count, s) :- GetU64(s);
    if minor != STORE_MINOR || flags != STORE_FLAG_SHA256 then None else Some((count, s))
  }

  /** The order of flattened facts: payload bytes, then evidence bytes. */
  predicate FactLess(a: Fact, b: Fact)
    requires ValidFact(a) && ValidFact(b)
  {
    BytesLess(EncodePayload(a.payload), EncodePayload(b.payload)) ||
    (EncodePayload(a.payload) == EncodePayload(b.payload) &&
     BytesLess(EncodeEvidence(a.evidence), EncodeEvidence(b.evidence)))
  }

  /** Read n facts in strictly increasing order into the ledger. */
  function ReadFacts(n: nat, s: Bytes, previous: Option<Fact>, l: seq<Entry>, limits: Limits): Parsed<seq<Entry>>
    requires previous.Some? ==> ValidFact(previous.value)
    decreases n
  {
    if n == 0 then Some((l, s))
    else
      var (bytes, s) :- GetBytes(limits.maxFactBytes, s);
      var fact :- DecodeFact(bytes, limits);
      DecodedFactCanonical(bytes, limits);
      if previous.Some? && !FactLess(previous.value, fact) then None
      else
        var (l', d) := AddTo(l, fact);
        if d.DuplicateObservation? || d.RejectedInvalid? then None
        else ReadFacts(n - 1, s, Some(fact), l', limits)
  }

  /** A successful reading of one more fact, taken apart. */
  lemma {:induction false} ReadFactsStep(n: nat, s: Bytes, previous: Option<Fact>, l: seq<Entry>, limits: Limits)
    requires previous.Some? ==> ValidFact(previous.value)
    requires n > 0 && ReadFacts(n, s, previous, l, limits).Some?
    ensures GetBytes(limits.maxFactBytes, s).Some?
    ensures var (bytes, rest) := GetBytes(limits.maxFactBytes, s).value;
            && DecodeFact(bytes, limits).Some?
            && var fact := DecodeFact(bytes, limits).value;
               && ValidFact(fact)
               && !AddTo(l, fact).1.DuplicateObservation? && !AddTo(l, fact).1.RejectedInvalid?
               && ReadFacts(n, s, previous, l, limits) == ReadFacts(n - 1, rest, Some(fact), AddTo(l, fact).0, limits)
  {
    hide GetBytes, DecodeFact, FactLess, AddTo, ValidFact, EncodeFact, Normalize;
    DecodedFactCanonical(GetBytes(limits.maxFactBytes, s).value.0, limits);
  }

  lemma {:induction false} ReadFactsValid(n: nat, s: Bytes, previous: Option<Fact>, l: seq<Entry>, limits: Limits)
    requires previous.Some? ==> ValidFact(previous.value)
    requires ValidLedger(l) && ReadFacts(n, s, previous, l, limits).Some?
    ensures ValidLedger(ReadFacts(n, s, previous, l, limits).value.0)
    decreases n
  {
    hide ValidLedger, GetBytes, DecodeFact, FactLess, AddTo, ValidFact, EncodeFact, Contents, Normalize;
    if n > 0 {
      ReadFactsStep(n, s, previous, l, limits);
      hide ReadFacts;
      var (bytes, rest) := GetBytes(limits.maxFactBytes, s).value;
      var fact := DecodeFact(bytes, limits).value;
      AddFresh(l, fact);
      ReadFactsValid(n - 1, rest, Some(fact), AddTo(l, fact).0, limits);
    }
  }

  const MINIMUM_SIZE: nat := 8 + 2 + 2 + 4 + 8 + DIGEST_SIZE

  function DeserializeLedger(sha: Bytes -> Digest, blob: Bytes, limits: StoreLimits): Option<seq<Entry>> {
    if |blob| > limits.maxBlobBytes || |blob| < MINIMUM_SIZE then None
    else
      var envelope := blob[..|blob| - DIGEST_SIZE];
      if sha(envelope) != blob[|blob| - DIGEST_SIZE..] then None
      else
        var (count, s) :- GetHeader(envelope);
        if count > limits.maxObservations then None
        else
          var (l, rest) :- ReadFacts(count, s, None, [], limits.facts);
          EmptyLedger();
          ReadFactsValid(count, s, None, [], limits.facts);
          if rest != [] || SerializeLedger(sha, l) != Some(blob) then None else Some(l)
  }

  // ---- the flattened order -------------------------------------------------------------

  ghost predicate FactsAscend(facts: seq<Fact>) {
    && (forall i :: 0 <= i < |facts| ==> ValidFact(facts[i]))
    && forall i, j :: 0 <= i < j < |facts| ==> FactLess(facts[i], facts[j])
  }

  lemma {:induction false} EntryFactsAscend(x: Entry)
    requires ValidEntry(x)
    ensures FactsAscend(EntryFacts(x))
  {
    hide EncodePayload, ValidPayload, ValidEvidence, EncodeEvidence, BytesLess;
  }

  /** Flattening a canonical ledger lists its facts in strictly increasing order. */
  lemma {:induction false} FlattenAscends(l: seq<Entry>)
    requires ValidLedger(l)
    ensures FactsAscend(Flatten(l))
  {
    hide EncodePayload, ValidPayload, ValidEvidence, EncodeEvidence, BytesLess, ValidEntry, ValidFact;
    StoredFactsValid(l);
    if l != [] {
      var head, tail := EntryFacts(l[0]), Flatten(l[1..]);
      assert ValidLedger(l[1..]);
      FlattenAscends(l[1..]);
      EntryFactsAscend(l[0]);
      FlattenContents(l[1..]);
      forall i, j | 0 <= i < |head| && 0 <= j < |tail|
        ensures ValidFact(head[i]) && ValidFact(tail[j]) && FactLess(head[i], tail[j])
      {
        var facts := Flatten(l);
        assert facts[i] == head[i] && facts[|head| + j] == tail[j];
        assert facts[i] in facts && facts[|head| + j] in facts;
        HeadBeforeTail(l, head[i], tail[j], j);
      }
      JoinAscends(head, tail);
    }
  }

  lemma {:induction false} JoinAscends(head: seq<Fact>, tail: seq<Fact>)
    requires FactsAscend(head) && FactsAscend(tail)
    requires forall i, j :: 0 <= i < |head| && 0 <= j < |tail| ==>
               ValidFact(head[i]) && ValidFact(tail[j]) && FactLess(head[i], tail[j])
    ensures FactsAscend(head + tail)
  {
    hide ValidFact, FactLess;
    var facts := head + tail;
    forall i, j | 0 <= i < j < |facts|
      ensures ValidFact(facts[i]) && ValidFact(facts[j]) && FactLess(facts[i], facts[j])
    {
      assert facts[i] == if i < |head| then head[i] else tail[i - |head|];
      assert facts[j] == if j < |head| then head[j] else tail[j - |head|];
    }
  }

  lemma {:induction false} HeadBeforeTail(l: seq<Entry>, f: Fact, g: Fact, k: nat)
    requires ValidLedger(l) && l != [] && ValidFact(f) && ValidFact(g)
    requires f.payload == l[0].record.payload && k < |Flatten(l[1..])| && Flatten(l[1..])[k] == g
    ensures FactLess(f, g)
  {
    hide EncodePayload, ValidPayload, ValidEvidence, EncodeEvidence, BytesLess, ValidFact;
    assert ValidLedger(l[1..]);
    FlattenContents(l[1..]);
    assert g in Elements(Flatten(l[1..]));
    PayloadOfFact(l[1..], g);
    var i :| 0 <= i < |l[1..]| && l[1..][i].key == EncodePayload(g.payload);
    assert l[i + 1] == l[1..][i] && ValidEntry(l[0]);
    assert BytesLess(l[0].key, l[i + 1].key);
  }

  lemma {:induction false} FactsDistinct(facts: seq<Fact>, i: nat, j: nat)
    requires FactsAscend(facts) && i < j < |facts|
    ensures facts[i] != facts[j]
  {
    hide EncodePayload, ValidPayload, ValidEvidence, EncodeEvidence;
    assert FactLess(facts[i], facts[j]);
    if facts[i] == facts[j] {
      BytesLessIrreflexive(EncodePayload(facts[i].payload));
      BytesLessIrreflexive(EncodeEvidence(facts[i].evidence));
    }
  }

  // ---- reading back what was written ------------------------------------------------------

  /** Reading printed facts inserts exactly those facts. */
  lemma {:induction false} FactsRoundTrip(facts: seq<Fact>, previous: Option<Fact>, l: seq<Entry>, limits: Limits,
                                          t: Bytes)
    requires ValidLedger(l) && FactsAscend(facts)
    requires previous.Some? ==> ValidFact(previous.value)
    requires previous.Some? && facts != [] ==> FactLess(previous.value, facts[0])
    requires forall f :: f in facts ==> ValidFact(f) && FactFits(f, limits) && f !in Contents(l)
    requires PutFacts(facts, t).Some?
    ensures ReadFacts(|facts|, PutFacts(facts, t).value, previous, l, limits) == Some((AddAll(l, facts), t))
    decreases |facts|
  {
    hide ValidLedger, GetBytes, PutBytes, DecodeFact, FactLess, AddTo, ValidFact, EncodeFact, Contents;
    hide FieldsFit, EvidenceFits, Normalize;
    if facts != [] {
      var f := facts[0];
      assert f in facts;
      var encoded := EncodeFact(f).value;
      FactRoundTrip(f, limits);
      DecodedFactCanonical(encoded, limits);
      AddFresh(l, f);
      var l' := AddTo(l, f).0;
      forall g | g in facts[1..] ensures g in facts && g !in Contents(l') {
        var k :| 0 <= k < |facts[1..]| && facts[1..][k] == g;
        assert facts[k + 1] == g;
        FactsDistinct(facts, 0, k + 1);
      }
      assert facts[1..] != [] ==> FactLess(f, facts[1..][0]);
      FactsRoundTrip(facts[1..], Some(f), l', limits, t);
      BytesRoundTrip(encoded, PutFacts(facts[1..], t).value, limits.maxFactBytes);
    }
  }

  lemma {:induction false} HeaderLength(count: U64, t: Bytes)
    ensures |Header(count, t)| == MINIMUM_SIZE - DIGEST_SIZE + |t|
  {
    Pow256Values();
    BigEndianValue(STORE_MAJOR, 2);
    BigEndianValue(STORE_MINOR, 2);
    BigEndianValue(STORE_FLAG_SHA256, 4);
    BigEndianValue(count, 8);
    hide BigEndian, Value;
  }

  lemma {:induction false} HeaderRoundTrip(count: U64, t: Bytes)
    ensures GetHeader(Header(count, t)) == Some((count, t))
    ensures |Header(count, t)| == MINIMUM_SIZE - DIGEST_SIZE + |t|
  {
    HeaderLength(count, t);
    IntegersRoundTrip();
    TagRoundTrip(STORE_MAGIC, STORE_MAJOR, PutU16(STORE_MINOR, PutU32(STORE_FLAG_SHA256, PutU64(count, t))));
    hide PutU16, PutU32, PutU64, GetU16, GetU32, GetU64, Tag, Untag;
  }

  /** The ledger's serialisation exists and respects every decode limit. */
  ghost predicate LedgerFits(sha: Bytes -> Digest, l: seq<Entry>, limits: StoreLimits)
    requires ValidLedger(l)
  {
    && SerializeLedger(sha, l).Some?
    && |SerializeLedger(sha, l).value| <= limits.maxBlobBytes
    && |Flatten(l)| <= limits.maxObservations
    && forall f :: f in Flatten(l) ==> ValidFact(f) && FactFits(f, limits.facts)
  }

  /** A store that fits the limits survives serialisation. */
  lemma {:induction false} StoreRoundTrip(sha: Bytes -> Digest, l: seq<Entry>, limits: StoreLimits)
    requires ValidLedger(l) && LedgerFits(sha, l, limits)
    ensures DeserializeLedger(sha, SerializeLedger(sha, l).value, limits) == Some(l)
  {
    hide ValidLedger, Header, GetHeader, PutFacts, ReadFacts;
    hide ValidFact, FactFits, Contents, FactsAscend, Flatten, AddAll;
    var facts := Flatten(l);
    var blob := SerializeLedger(sha, l).value;
    StoredFactsValid(l);
    var body := PutFacts(facts, []).value;
    var envelope := Header(|facts|, body);
    assert blob[..|blob| - DIGEST_SIZE] == envelope && blob[|blob| - DIGEST_SIZE..] == sha(envelope);
    HeaderRoundTrip(|facts|, body);
    FlattenAscends(l);
    EmptyLedger();
    FactsRoundTrip(facts, None, [], limits.facts, []);
    MergeSpec([], l);
    ContentsDetermineLedger(AddAll([], facts), l);
  }

  // ---- accepting only what was written --------------------------------------------------------

  /** Everything read fits the limits, and the ledger grows by one fact per step. */
  lemma {:induction false} ReadFactsFit(n: nat, s: Bytes, previous: Option<Fact>, l: seq<Entry>, limits: Limits)
    requires previous.Some? ==> ValidFact(previous.value)
    requires ValidLedger(l) && ReadFacts(n, s, previous, l, limits).Some?
    requires forall f :: f in Contents(l) ==> ValidFact(f) && FactFits(f, limits)
    ensures var l' := ReadFacts(n, s, previous, l, limits).value.0;
            && |Contents(l')| == |Contents(l)| + n
            && forall f :: f in Contents(l') ==> ValidFact(f) && FactFits(f, limits)
    decreases n
  {
    hide ValidLedger, GetBytes, DecodeFact, FactLess, AddTo, ValidFact, EncodeFact, Contents, Normalize, FactFits;
    if n > 0 {
      ReadFactsStep(n, s, previous, l, limits);
      hide ReadFacts;
      var (bytes, rest) := GetBytes(limits.maxFactBytes, s).value;
      var fact := DecodeFact(bytes, limits).value;
      DecodedFactFits(bytes, limits);
      AddFresh(l, fact);
      assert |Contents(l) + {fact}| == |Contents(l)| + 1;
      ReadFactsFit(n - 1, rest, Some(fact), AddTo(l, fact).0, limits);
    }
  }

  lemma {:induction false} DistinctSize(facts: seq<Fact>)
    requires FactsAscend(facts)
    ensures |Elements(facts)| == |facts|
  {
    hide FactLess, ValidFact;
    if facts != [] {
      var last := |facts| - 1;
      var prefix := facts[..last];
      assert forall i :: 0 <= i < |prefix| ==> prefix[i] == facts[i];
      assert FactsAscend(prefix);
      DistinctSize(prefix);
      assert facts[last] !in prefix by {
        if facts[last] in prefix {
          var i :| 0 <= i < last && prefix[i] == facts[last];
          FactsDistinct(facts, i, last);
        }
      }
      assert facts == prefix + [facts[last]];
      assert Elements(facts) == Elements(prefix) + {facts[last]};
    }
  }

  /**
   * Deserialisation accepts a blob exactly when it is the serialisation of a
   * canonical ledger within the limits, and returns that ledger.
   */
  lemma {:induction false} DeserializeExact(sha: Bytes -> Digest, blob: Bytes, l: seq<Entry>, limits: StoreLimits)
    ensures DeserializeLedger(sha, blob, limits) == Some(l) <==>
            ValidLedger(l) && SerializeLedger(sha, l) == Some(blob) && LedgerFits(sha, l, limits)
  {
    hide ValidLedger, GetHeader, ReadFacts, ValidFact, FactFits, Contents, FactsAscend, Flatten, SerializeLedger;
    if ValidLedger(l) && SerializeLedger(sha, l) == Some(blob) && LedgerFits(sha, l, limits) {
      StoreRoundTrip(sha, l, limits);
    }
    if DeserializeLedger(sha, blob, limits) == Some(l) {
      var envelope := blob[..|blob| - DIGEST_SIZE];
      var (count, s) := GetHeader(envelope).value;
      EmptyLedger();
      ReadFactsValid(count, s, None, [], limits.facts);
      ReadFactsFit(count, s, None, [], limits.facts);
      FlattenContents(l);
      FlattenAscends(l);
      DistinctSize(Flatten(l));
      forall f | f in Flatten(l) ensures f in Contents(l) {
        assert f in Elements(Flatten(l));
      }
    }
  }

  /** Written facts are encodable within a four-byte length. */
  lemma {:induction false} PutFactsEncodes(facts: seq<Fact>, t: Bytes, f: Fact)
    requires (forall g :: g in facts ==> ValidFact(g)) && PutFacts(facts, t).Some? && f in facts
    ensures EncodeFact(f).Some? && |EncodeFact(f).value| < TWO_32
    decreases |facts|
  {
    hide ValidFact, EncodeFact, PutBytes;
    if f != facts[0] {
      assert f in facts[1..];
      PutFactsEncodes(facts[1..], t, f);
    }
  }

  const WIDEST := Limits(TWO_32, TWO_32, TWO_32)

  /** Whatever can be written fits limits as wide as the format itself. */
  lemma {:induction false} FitsWidest(sha: Bytes -> Digest, l: seq<Entry>)
    requires ValidLedger(l) && SerializeLedger(sha, l).Some?
    ensures LedgerFits(sha, l, StoreLimits(|SerializeLedger(sha, l).value|, TWO_64, WIDEST))
  {
    hide ValidLedger, Header, Flatten, EncodeFact, PutFacts, FieldsFit, ValidPayload, Normalize;
    StoredFactsValid(l);
    forall f | f in Flatten(l) ensures ValidFact(f) && FactFits(f, WIDEST) {
      PutFactsEncodes(Flatten(l), [], f);
      WideLimits(f.payload);
    }
  }

  /** A serialisation belongs to one ledger only. */
  lemma {:induction false} SerializationInjective(sha: Bytes -> Digest, a: seq<Entry>, b: seq<Entry>)
    requires ValidLedger(a) && ValidLedger(b) && SerializeLedger(sha, a).Some?
    requires SerializeLedger(sha, a) == SerializeLedger(sha, b)
    ensures a == b
  {
    hide ValidLedger, SerializeLedger, DeserializeLedger, LedgerFits;
    FitsWidest(sha, a);
    FitsWidest(sha, b);
    StoreRoundTrip(sha, a, StoreLimits(|SerializeLedger(sha, a).value|, TWO_64, WIDEST));
    StoreRoundTrip(sha, b, StoreLimits(|SerializeLedger(sha, a).value|, TWO_64, WIDEST));
  }

  /** A serialisation is readable exactly when its own ledger fits the limits. */
  lemma {:induction false} ReadableExactly(sha: Bytes -> Digest, l: seq<Entry>, limits: StoreLimits)
    requires ValidLedger(l) && SerializeLedger(sha, l).Some?
    ensures DeserializeLedger(sha, SerializeLedger(sha, l).value, limits).Some? <==> LedgerFits(sha, l, limits)
  {
    hide ValidLedger, SerializeLedger, DeserializeLedger, LedgerFits;
    var blob := SerializeLedger(sha, l).value;
    DeserializeExact(sha, blob, l, limits);
    if DeserializeLedger(sha, blob, limits).Some? {
      var read := DeserializeLedger(sha, blob, limits).value;
      DeserializeExact(sha, blob, read, limits);
      SerializationInjective(sha, l, read);
    }
  }

  // ---- the store's own operations -----------------------------------------------------------

  lemma {:induction false} PutFactsSuffix(facts: seq<Fact>, i: nat)
    requires i < |facts| && forall f :: f in facts ==> ValidFact(f)
    ensures facts[i] in facts && facts[i..][1..] == facts[i + 1..] && facts[i..] != [] && facts[i..][0] == facts[i]
  {
  }

  /** Append each fact to the envelope in canonical order, then its digest. */
  method Serialize(store: EvidenceStore) returns (out: Option<Bytes>)
    requires store.Valid()
    ensures out == SerializeLedger(store.sha, store.records)
  {
    hide ValidLedger, IndexExact, EncodeFact, ValidFact, Header, Flatten, PutBytes;
    var facts := store.FlattenedFacts();
    StoredFactsValid(store.records);
    if |facts| >= TWO_64 {
      return None;
    }
    var body: Bytes := [];
    ghost var whole := PutFacts(facts, []);
    assert facts[0..] == facts;
    assert whole.Some? ==> whole.value == body + whole.value;
    for i := 0 to |facts|
      invariant whole.Some? <==> PutFacts(facts[i..], []).Some?
      invariant whole.Some? ==> whole.value == body + PutFacts(facts[i..], []).value
    {
      PutFactsSuffix(facts, i);
      var encoded := EncodeFact(facts[i]);
      if encoded.None? || |encoded.value| >= TWO_32 {
        return None;
      }
      ghost var rest := PutFacts(facts[i + 1..], []);
      if rest.Some? {
        PutBytesPrefix(encoded.value, rest.value);
      }
      body := body + PutBytes(encoded.value, []);
    }
    assert facts[|facts|..] == [] && PutFacts(facts[|facts|..], []) == Some([]);
    assert body + [] == body;
    assert whole == Some(body);
    var envelope := Header(|facts|, body);
    return Some(envelope + store.sha(envelope));
  }

  lemma {:induction false} PutBytesPrefix(b: Bytes, t: Bytes)
    requires |b| < TWO_32
    ensures PutBytes(b, t) == PutBytes(b, []) + t
  {
  }

  /** Rebuild a store from an envelope; a rejected envelope leaves no trace. */
  method Deserialize(sha: Bytes -> Digest, blob: Bytes, limits: StoreLimits) returns (store: EvidenceStore?)
    ensures store != null <==> DeserializeLedger(sha, blob, limits).Some?
    ensures store != null ==>
              fresh(store) && store.Valid() && store.sha == sha &&
              DeserializeLedger(sha, blob, limits) == Some(store.records)
  {
    hide ValidLedger, IndexExact, DecodeFact, ValidFact, GetHeader;
    hide GetBytes, FactLess, EncodeFact, AddTo, SerializeLedger;
    if |blob| > limits.maxBlobBytes || |blob| < MINIMUM_SIZE {
      return null;
    }
    var envelope := blob[..|blob| - DIGEST_SIZE];
    if sha(envelope) != blob[|blob| - DIGEST_SIZE..] {
      return null;
    }
    var header := GetHeader(envelope);
    if header.None? || header.value.0 > limits.maxObservations {
      return null;
    }
    var (count, s) := header.value;
    var decoded := new EvidenceStore(sha);
    var previous: Option<Fact> := None;
    ghost var all := ReadFacts(count, s, None, [], limits.facts);
    for i := 0 to count
      invariant decoded.Valid() && fresh(decoded)
      invariant previous.Some? ==> ValidFact(previous.value)
      invariant all == ReadFacts(count - i, s, previous, decoded.records, limits.facts)
    {
      var chunk := GetBytes(limits.facts.maxFactBytes, s);
      if chunk.None? {
        return null;
      }
      var fact := DecodeFact(chunk.value.0, limits.facts);
      if fact.None? {
        return null;
      }
      DecodedFactCanonical(chunk.value.0, limits.facts);
      if previous.Some? && !FactLess(previous.value, fact.value) {
        return null;
      }
      previous := fact;
      var added := decoded.Add(fact.value);
      if added.DuplicateObservation? || added.RejectedInvalid? {
        return null;
      }
      s := chunk.value.1;
    }
    if s != [] {
      return null;
    }
    var canonical := Serialize(decoded);
    if canonical != Some(blob) {
      return null;
    }
    return decoded;
  }
}
