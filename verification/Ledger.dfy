/**
 * The evidence ledger as a value: records in canonical key order, each with its
 * strictly sorted observations. A ledger is determined by the set of facts it
 * holds, so the order of insertions and merges never shows.
 */
module Ledger {
  import opened Orders
  import opened Words
  import opened Facts
  import opened FactCodec

  /** Evidence that passed validation. */
  type Observation = e: Evidence | ValidEvidence(e)
    witness Evidence([0x2D], [0x2D], Unknown, 0, Scope(None, None, None, None, 0), [], [])

  predicate ObservationLess(a: Observation, b: Observation) {
    BytesLess(EncodeEvidence(a), EncodeEvidence(b))
  }

  lemma {:induction false} ObservationLessTotal()
    ensures StrictTotal(ObservationLess)
  {
    hide BytesLess, EncodeEvidence, ValidEvidence;
    BytesLessTotal();
    forall a: Observation, b: Observation | EncodeEvidence(a) == EncodeEvidence(b) ensures a == b {
      EvidenceInjective(a, b);
    }
  }

  datatype Record = Record(payload: Payload, observations: seq<Observation>)
  datatype Entry = Entry(key: Bytes, record: Record)

  ghost predicate ValidEntry(e: Entry) {
    && ValidPayload(e.record.payload) && e.key == EncodePayload(e.record.payload)
    && e.record.observations != []
    && Ascending(e.record.observations, ObservationLess)
    && forall i :: 0 <= i < |e.record.observations| ==> ValidFact(Fact(e.record.payload, e.record.observations[i]))
  }

  ghost predicate KeysAscend(l: seq<Entry>) {
    forall i, j :: 0 <= i < j < |l| ==> BytesLess(l[i].key, l[j].key)
  }

  ghost predicate ValidLedger(l: seq<Entry>) {
    KeysAscend(l) && forall i :: 0 <= i < |l| ==> ValidEntry(l[i])
  }

  /** The facts a ledger holds. */
  ghost function Contents(l: seq<Entry>): set<Fact> {
    set i, e | 0 <= i < |l| && e in l[i].record.observations :: Fact(l[i].record.payload, e)
  }

  /** Position of the first key that is not below the given one. */
  function LowerBound(l: seq<Entry>, key: Bytes): (p: nat)
    ensures p <= |l|
    ensures p < |l| ==> !BytesLess(l[p].key, key)
    ensures forall i :: 0 <= i < p ==> BytesLess(l[i].key, key)
  {
    if l == [] || !BytesLess(l[0].key, key) then 0
    else
      var p := 1 + LowerBound(l[1..], key);
      assert forall i :: 0 < i < p ==> l[i] == l[1..][i - 1];
      p
  }

  function Find(l: seq<Entry>, key: Bytes): Option<Record> {
    var p := LowerBound(l, key);
    if p < |l| && l[p].key == key then Some(l[p].record) else None
  }

  datatype Disposition = InsertedRecord | AddedObservation | DuplicateObservation | RejectedInvalid

  function AddValid(l: seq<Entry>, payload: Payload, e: Observation): (seq<Entry>, Disposition)
    requires ValidPayload(payload)
  {
    var key := EncodePayload(payload);
    var p := LowerBound(l, key);
    if p < |l| && l[p].key == key then
      var observations := Insert(e, l[p].record.observations, ObservationLess);
      if |observations| == |l[p].record.observations| then (l, DuplicateObservation)
      else (l[p := l[p].(record := l[p].record.(observations := observations))], AddedObservation)
    else (l[..p] + [Entry(key, Record(payload, [e]))] + l[p..], InsertedRecord)
  }

  /** Normalise, validate, then insert by canonical bytes. */
  function AddTo(l: seq<Entry>, f: Fact): (seq<Entry>, Disposition) {
    var n := Normalize(f);
    if ValidFact(n) then AddValid(l, n.payload, n.evidence) else (l, RejectedInvalid)
  }

  // ---- keys identify payloads ----------------------------------------------------------

  lemma {:induction false} SameKeySamePosition(l: seq<Entry>, i: nat, j: nat)
    requires KeysAscend(l) && i < |l| && j < |l| && l[i].key == l[j].key
    ensures i == j
  {
    BytesLessIrreflexive(l[i].key);
  }

  lemma {:induction false} FindSpec(l: seq<Entry>, key: Bytes)
    requires KeysAscend(l)
    ensures Find(l, key).Some? <==> exists i :: 0 <= i < |l| && l[i].key == key
    ensures forall i :: 0 <= i < |l| && l[i].key == key ==> LowerBound(l, key) == i && Find(l, key) == Some(l[i].record)
  {
    hide BytesLess;
    BytesLessTotal();
    var p := LowerBound(l, key);
    forall i | 0 <= i < |l| && l[i].key == key ensures p == i {
      assert !(i < p) && !(p < i);
    }
  }

  lemma {:induction false} InContents(l: seq<Entry>, f: Fact)
    ensures f in Contents(l) <==>
            exists i :: 0 <= i < |l| && l[i].record.payload == f.payload && f.evidence in l[i].record.observations
  {
    if f in Contents(l) {
      var i, e :| 0 <= i < |l| && e in l[i].record.observations && Fact(l[i].record.payload, e) == f;
      assert l[i].record.payload == f.payload;
    }
  }

  lemma {:induction false} FactOfEntry(l: seq<Entry>, p: nat, e: Observation)
    requires ValidLedger(l) && p < |l|
    ensures Fact(l[p].record.payload, e) in Contents(l) <==> e in l[p].record.observations
  {
    hide EncodePayload, ValidPayload, BytesLess, ValidFact;
    InContents(l, Fact(l[p].record.payload, e));
    if i :| 0 <= i < |l| && l[i].record.payload == l[p].record.payload && e in l[i].record.observations {
      assert ValidEntry(l[i]) && ValidEntry(l[p]);
      SameKeySamePosition(l, i, p);
    }
  }

  lemma {:induction false} PayloadOfFact(l: seq<Entry>, f: Fact)
    requires ValidLedger(l) && f in Contents(l)
    ensures ValidFact(f)
    ensures exists i :: 0 <= i < |l| && l[i].record.payload == f.payload && l[i].key == EncodePayload(f.payload)
  {
    hide EncodePayload, ValidPayload, ValidEvidence;
    InContents(l, f);
    var i :| 0 <= i < |l| && l[i].record.payload == f.payload && f.evidence in l[i].record.observations;
    assert ValidEntry(l[i]);
  }

  // ---- insertion ---------------------------------------------------------------------------

  /** Growing one record by one observation adds that one fact. */
  lemma {:induction false} GrowContents(l: seq<Entry>, p: nat, grown: seq<Observation>, e: Observation)
    requires p < |l| && forall o :: o in grown <==> o == e || o in l[p].record.observations
    ensures Contents(l[p := l[p].(record := l[p].record.(observations := grown))]) ==
            Contents(l) + {Fact(l[p].record.payload, e)}
  {
    hide ValidEvidence;
    var l' := l[p := l[p].(record := l[p].record.(observations := grown))];
    forall f ensures f in Contents(l') <==> f in Contents(l) + {Fact(l[p].record.payload, e)} {
      InContents(l, f);
      InContents(l', f);
      if f in Contents(l') {
        var i :| 0 <= i < |l'| && l'[i].record.payload == f.payload && f.evidence in l'[i].record.observations;
        assert l[i].record.payload == f.payload;
      }
      if f in Contents(l) {
        var i :| 0 <= i < |l| && l[i].record.payload == f.payload && f.evidence in l[i].record.observations;
        assert l'[i].record.payload == f.payload && f.evidence in l'[i].record.observations;
      }
      if f == Fact(l[p].record.payload, e) {
        assert l'[p].record.payload == f.payload && f.evidence in l'[p].record.observations;
      }
    }
  }

  /** Inserting a new record with one observation adds that one fact. */
  lemma {:induction false} InsertContents(l: seq<Entry>, p: nat, key: Bytes, payload: Payload, e: Observation)
    requires p <= |l|
    ensures Contents(l[..p] + [Entry(key, Record(payload, [e]))] + l[p..]) == Contents(l) + {Fact(payload, e)}
  {
    hide ValidEvidence;
    var l' := l[..p] + [Entry(key, Record(payload, [e]))] + l[p..];
    forall f ensures f in Contents(l') <==> f in Contents(l) + {Fact(payload, e)} {
      InContents(l, f);
      InContents(l', f);
      if f in Contents(l') {
        var i :| 0 <= i < |l'| && l'[i].record.payload == f.payload && f.evidence in l'[i].record.observations;
        assert if i < p then l'[i] == l[i] else if i == p then f == Fact(payload, e) else l'[i] == l[i - 1];
      }
      if f in Contents(l) {
        var i :| 0 <= i < |l| && l[i].record.payload == f.payload && f.evidence in l[i].record.observations;
        assert l'[if i < p then i else i + 1] == l[i];
      }
      if f == Fact(payload, e) {
        assert l'[p].record.payload == f.payload && f.evidence in l'[p].record.observations;
      }
    }
  }

  lemma {:induction false} InsertKeysAscend(l: seq<Entry>, x: Entry)
    requires KeysAscend(l)
    requires Find(l, x.key).None?
    ensures var p := LowerBound(l, x.key); KeysAscend(l[..p] + [x] + l[p..])
  {
    hide BytesLess;
    BytesLessTotal();
    var p := LowerBound(l, x.key);
    assert forall i :: p <= i < |l| ==> BytesLess(x.key, l[i].key);
  }

  /** What one insertion does: the ledger stays canonical and gains exactly the normalised fact. */
  lemma {:induction false} AddSpec(l: seq<Entry>, f: Fact)
    requires ValidLedger(l)
    ensures var n := Normalize(f);
            var (l', d) := AddTo(l, f);
            && ValidLedger(l')
            && Contents(l') == (if ValidFact(n) then Contents(l) + {n} else Contents(l))
            && (d.RejectedInvalid? <==> !ValidFact(n))
            && (d.DuplicateObservation? <==> n in Contents(l))
            && (d.InsertedRecord? <==> ValidFact(n) && Find(l, EncodePayload(n.payload)).None?)
            && (d.AddedObservation? <==>
                  ValidFact(n) && n !in Contents(l) && Find(l, EncodePayload(n.payload)).Some?)
  {
    var n := Normalize(f);
    if ValidFact(n) {
      AddValidSpec(l, n);
    } else if n in Contents(l) {
      PayloadOfFact(l, n);
    }
  }

  /** What inserting a valid fact gives. */
  ghost predicate Added(l: seq<Entry>, n: Fact, l': seq<Entry>, d: Disposition) {
    && ValidLedger(l') && Contents(l') == Contents(l) + {n}
    && !d.RejectedInvalid?
    && (d.DuplicateObservation? <==> n in Contents(l))
  }

  lemma {:induction false} AddValidSpec(l: seq<Entry>, n: Fact)
    requires ValidLedger(l) && ValidFact(n)
    ensures var (l', d) := AddValid(l, n.payload, n.evidence);
            && Added(l, n, l', d)
            && (d.InsertedRecord? <==> Find(l, EncodePayload(n.payload)).None?)
  {
    hide EncodePayload, ValidLedger, Contents, Insert, Added;
    var p := LowerBound(l, EncodePayload(n.payload));
    if p < |l| && l[p].key == EncodePayload(n.payload) {
      AddsObservation(l, n, p);
    } else {
      AddsRecord(l, n);
    }
  }

  lemma {:induction false} AddsObservation(l: seq<Entry>, n: Fact, p: nat)
    requires ValidLedger(l) && ValidFact(n)
    requires p == LowerBound(l, EncodePayload(n.payload)) < |l| && l[p].key == EncodePayload(n.payload)
    ensures var (l', d) := AddValid(l, n.payload, n.evidence); Added(l, n, l', d)
  {
    hide EncodePayload, ValidPayload, EncodeEvidence, ValidEvidence, ObservationLess, Insert, KeysAscend, LowerBound;
    var e: Observation := n.evidence;
    ObservationLessTotal();
    assert ValidEntry(l[p]);
    PayloadInjective(l[p].record.payload, n.payload);
    var observations := l[p].record.observations;
    InsertAscending(e, observations, ObservationLess);
    InsertElements(e, observations, ObservationLess);
    FactOfEntry(l, p, e);
    GrowContents(l, p, Insert(e, observations, ObservationLess), e);
    GrowValid(l, p, e);
    hide Contents, ValidLedger;
  }

  lemma {:induction false} AddsRecord(l: seq<Entry>, n: Fact)
    requires ValidLedger(l) && ValidFact(n) && Find(l, EncodePayload(n.payload)).None?
    ensures var (l', d) := AddValid(l, n.payload, n.evidence); Added(l, n, l', d)
  {
    hide EncodePayload, ValidPayload, BytesLess, EncodeEvidence, ValidEvidence, ObservationLess, Contents;
    var e: Observation := n.evidence;
    var key := EncodePayload(n.payload);
    if n in Contents(l) {
      PayloadOfFact(l, n);
      FindSpec(l, key);
    }
    InsertContents(l, LowerBound(l, key), key, n.payload, e);
    InsertKeysAscend(l, Entry(key, Record(n.payload, [e])));
  }

  lemma {:induction false} GrowValid(l: seq<Entry>, p: nat, e: Observation)
    requires ValidLedger(l) && p < |l| && ValidFact(Fact(l[p].record.payload, e))
    ensures ValidLedger(l[p := l[p].(record := l[p].record.(observations :=
              Insert(e, l[p].record.observations, ObservationLess)))])
  {
    hide EncodePayload, ValidPayload, BytesLess, EncodeEvidence, ValidFact, ValidEvidence, ObservationLess, Insert;
    ObservationLessTotal();
    assert ValidEntry(l[p]);
    var grown := Insert(e, l[p].record.observations, ObservationLess);
    InsertAscending(e, l[p].record.observations, ObservationLess);
    InsertElements(e, l[p].record.observations, ObservationLess);
    forall i | 0 <= i < |grown| ensures ValidFact(Fact(l[p].record.payload, grown[i])) {
      assert grown[i] == e || grown[i] in l[p].record.observations;
    }
    assert e in grown;
  }

  // ---- contents determine the ledger -------------------------------------------------------

  function Keys(l: seq<Entry>): seq<Bytes> { seq(|l|, i requires 0 <= i < |l| => l[i].key) }

  lemma {:induction false} KeyOfContents(a: seq<Entry>, b: seq<Entry>, i: nat)
    requires ValidLedger(a) && ValidLedger(b) && Contents(a) <= Contents(b) && i < |a|
    ensures exists j :: 0 <= j < |b| && b[j].key == a[i].key && b[j].record.payload == a[i].record.payload
  {
    hide EncodePayload, ValidPayload, ValidEvidence, BytesLess, EncodeEvidence;
    assert ValidEntry(a[i]);
    var e := a[i].record.observations[0];
    FactOfEntry(a, i, e);
    PayloadOfFact(b, Fact(a[i].record.payload, e));
  }

  lemma {:induction false} SameKeys(a: seq<Entry>, b: seq<Entry>)
    requires ValidLedger(a) && ValidLedger(b) && Contents(a) == Contents(b)
    ensures Keys(a) == Keys(b)
  {
    hide EncodePayload, ValidPayload, ValidEvidence, BytesLess, EncodeEvidence, ValidEntry, Contents;
    BytesLessTotal();
    forall k ensures k in Keys(a) <==> k in Keys(b) {
      if k in Keys(a) {
        var i :| 0 <= i < |a| && Keys(a)[i] == k;
        KeyOfContents(a, b, i);
        var j :| 0 <= j < |b| && b[j].key == k;
        assert Keys(b)[j] == k;
      }
      if k in Keys(b) {
        var i :| 0 <= i < |b| && Keys(b)[i] == k;
        KeyOfContents(b, a, i);
        var j :| 0 <= j < |a| && a[j].key == k;
        assert Keys(a)[j] == k;
      }
    }
    AscendingUnique(Keys(a), Keys(b), BytesLess);
  }

  /** Two canonical ledgers with the same facts are the same ledger. */
  lemma {:induction false} ContentsDetermineLedger(a: seq<Entry>, b: seq<Entry>)
    requires ValidLedger(a) && ValidLedger(b) && Contents(a) == Contents(b)
    ensures a == b
  {
    hide EncodePayload, ValidPayload, ValidEvidence, BytesLess, EncodeEvidence, Contents, KeysAscend;
    SameKeys(a, b);
    assert |Keys(a)| == |a| && |Keys(b)| == |b|;
    ObservationLessTotal();
    forall i | 0 <= i < |a| ensures a[i] == b[i] {
      assert Keys(a)[i] == Keys(b)[i];
      assert ValidEntry(a[i]) && ValidEntry(b[i]);
      PayloadInjective(a[i].record.payload, b[i].record.payload);
      var left, right := a[i].record.observations, b[i].record.observations;
      forall e: Observation ensures e in left <==> e in right {
        FactOfEntry(a, i, e);
        FactOfEntry(b, i, e);
      }
      assert Elements(left) == Elements(right);
      AscendingUnique(left, right, ObservationLess);
    }
  }

  /** Adding a valid fact, in terms of the facts alone. */
  lemma {:induction false} AddFresh(l: seq<Entry>, f: Fact)
    requires ValidLedger(l) && ValidFact(f)
    ensures var (l', d) := AddTo(l, f);
            && ValidLedger(l') && Contents(l') == Contents(l) + {f} && !d.RejectedInvalid?
            && (d.DuplicateObservation? <==> f in Contents(l))
  {
    hide ValidLedger, AddTo, ValidFact, Contents, Find, EncodePayload, Normalize;
    ValidFactIsNormal(f);
    AddSpec(l, f);
  }

  lemma {:induction false} EmptyLedger()
    ensures ValidLedger([]) && Contents([]) == {}
  {
  }

  // ---- sequences of insertions --------------------------------------------------------------

  function AddAll(l: seq<Entry>, facts: seq<Fact>): seq<Entry>
    decreases |facts|
  {
    if facts == [] then l else AddAll(AddTo(l, facts[0]).0, facts[1..])
  }

  /** The normalised facts of a sequence that validation accepts. */
  ghost function Accepted(facts: seq<Fact>): set<Fact> {
    set f | f in facts && ValidFact(Normalize(f)) :: Normalize(f)
  }

  lemma {:induction false} AddAllSpec(l: seq<Entry>, facts: seq<Fact>)
    requires ValidLedger(l)
    ensures ValidLedger(AddAll(l, facts)) && Contents(AddAll(l, facts)) == Contents(l) + Accepted(facts)
    decreases |facts|
  {
    hide ValidLedger, Contents, AddTo, ValidFact, Normalize;
    if facts == [] {
      assert Accepted(facts) == {};
    } else {
      AddSpec(l, facts[0]);
      AddAllSpec(AddTo(l, facts[0]).0, facts[1..]);
      assert facts == [facts[0]] + facts[1..];
      assert Accepted(facts) == Accepted([facts[0]]) + Accepted(facts[1..]);
    }
  }

  /** The ledger depends only on which normalised facts were added, not on their order. */
  lemma {:induction false} InsertionOrderIrrelevant(l: seq<Entry>, facts: seq<Fact>, others: seq<Fact>)
    requires ValidLedger(l) && Accepted(facts) == Accepted(others)
    ensures AddAll(l, facts) == AddAll(l, others)
  {
    AddAllSpec(l, facts);
    AddAllSpec(l, others);
    ContentsDetermineLedger(AddAll(l, facts), AddAll(l, others));
  }

  // ---- flattening and merging ----------------------------------------------------------------

  function EntryFacts(x: Entry): seq<Fact> {
    seq(|x.record.observations|,
        i requires 0 <= i < |x.record.observations| => Fact(x.record.payload, x.record.observations[i]))
  }

  function Flatten(l: seq<Entry>): seq<Fact> {
    if l == [] then [] else EntryFacts(l[0]) + Flatten(l[1..])
  }

  lemma {:induction false} FlattenContents(l: seq<Entry>)
    ensures Elements(Flatten(l)) == Contents(l)
  {
    hide ValidEvidence;
    if l != [] {
      FlattenContents(l[1..]);
      forall f ensures f in Flatten(l) <==> f in Contents(l) {
        InContents(l, f);
        InContents(l[1..], f);
        assert f in Elements(Flatten(l[1..])) <==> f in Flatten(l[1..]);
        assert f in EntryFacts(l[0]) <==>
               f.payload == l[0].record.payload && f.evidence in l[0].record.observations by {
          if f.payload == l[0].record.payload && f.evidence in l[0].record.observations {
            var j :| 0 <= j < |l[0].record.observations| && l[0].record.observations[j] == f.evidence;
            assert EntryFacts(l[0])[j] == f;
          }
        }
        if f in Contents(l) {
          var i :| 0 <= i < |l| && l[i].record.payload == f.payload && f.evidence in l[i].record.observations;
          if i > 0 {
            assert l[1..][i - 1] == l[i];
          }
        }
        if f in Contents(l[1..]) {
          var i :| 0 <= i < |l[1..]| && l[1..][i].record.payload == f.payload &&
            f.evidence in l[1..][i].record.observations;
          assert l[i + 1] == l[1..][i];
        }
      }
    }
  }

  function MergeInto(l: seq<Entry>, other: seq<Entry>): seq<Entry> { AddAll(l, Flatten(other)) }

  /** Merging unions the facts; stored facts are never rejected. */
  lemma {:induction false} MergeSpec(l: seq<Entry>, other: seq<Entry>)
    requires ValidLedger(l) && ValidLedger(other)
    ensures ValidLedger(MergeInto(l, other))
    ensures Contents(MergeInto(l, other)) == Contents(l) + Contents(other)
  {
    hide ValidLedger, Contents, ValidFact, Normalize;
    AddAllSpec(l, Flatten(other));
    FlattenContents(other);
    forall f | f in Flatten(other) ensures ValidFact(f) && Normalize(f) == f {
      assert f in Elements(Flatten(other));
      PayloadOfFact(other, f);
      ValidFactIsNormal(f);
    }
    assert Accepted(Flatten(other)) == Elements(Flatten(other));
  }

  lemma {:induction false} MergeCommutes(a: seq<Entry>, b: seq<Entry>)
    requires ValidLedger(a) && ValidLedger(b)
    ensures MergeInto(a, b) == MergeInto(b, a)
  {
    hide ValidLedger, Contents, MergeInto;
    MergeSpec(a, b);
    MergeSpec(b, a);
    ContentsDetermineLedger(MergeInto(a, b), MergeInto(b, a));
  }

  lemma {:induction false} MergeAssociates(a: seq<Entry>, b: seq<Entry>, c: seq<Entry>)
    requires ValidLedger(a) && ValidLedger(b) && ValidLedger(c)
    ensures MergeInto(MergeInto(a, b), c) == MergeInto(a, MergeInto(b, c))
  {
    hide ValidLedger, Contents, MergeInto;
    MergeSpec(a, b);
    MergeSpec(b, c);
    MergeSpec(MergeInto(a, b), c);
    MergeSpec(a, MergeInto(b, c));
    ContentsDetermineLedger(MergeInto(MergeInto(a, b), c), MergeInto(a, MergeInto(b, c)));
  }

  lemma {:induction false} MergeIdempotent(a: seq<Entry>, b: seq<Entry>)
    requires ValidLedger(a) && ValidLedger(b) && Contents(b) <= Contents(a)
    ensures MergeInto(a, b) == a
  {
    hide ValidLedger, Contents, MergeInto;
    MergeSpec(a, b);
    assert Contents(a) + Contents(b) == Contents(a);
    ContentsDetermineLedger(MergeInto(a, b), a);
  }
}
