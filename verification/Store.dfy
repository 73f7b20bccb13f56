/**
 * The evidence store: the ledger held in an object together with a
 * contradiction index that is built on the first query and maintained by every
 * later insertion. Queries through the index are proved equal to a scan of all
 * active records, for every interleaving of insertions and queries.
 */
module Store {
  import opened Orders
  import opened Words
  import opened Facts
  import opened FactCodec
  import opened Ledger
  import opened Conflicts
  import opened ConflictScan
  import ContradictionScan

  // ---- the contradiction index as a value ----------------------------------------------

  /** A region's start and the key of its record. */
  datatype RegionKey = RegionKey(start: Address, key: Bytes)

  datatype Index = Index(
    subjects: map<Subject, seq<Bytes>>,
    regions: seq<RegionKey>,
    maximumRegionSize: nat)

  const EMPTY_INDEX := Index(map[], [], 0)

  /** std::multimap insertion: after every entry with a start that is not larger. */
  function InsertRegion(regions: seq<RegionKey>, x: RegionKey): seq<RegionKey> {
    if regions == [] || x.start < regions[0].start then [x] + regions
    else [regions[0]] + InsertRegion(regions[1..], x)
  }

  function IndexInsert(index: Index, key: Bytes, p: Payload): Index {
    var subject := SubjectOf(p);
    if subject.Some? then
      var bucket := if subject.value in index.subjects then index.subjects[subject.value] else [];
      index.(subjects := index.subjects[subject.value := bucket + [key]])
    else if p.CodeRegion? then
      index.(regions := InsertRegion(index.regions, RegionKey(p.start, key)),
             maximumRegionSize :=
               if p.end - p.start > index.maximumRegionSize then p.end - p.start else index.maximumRegionSize)
    else index
  }

  // ---- what the index knows ---------------------------------------------------------------

  ghost predicate SubjectsExact(l: seq<Entry>, subjects: map<Subject, seq<Bytes>>) {
    && (forall s, k :: s in subjects && k in subjects[s] ==>
          exists i :: 0 <= i < |l| && l[i].key == k && SubjectOf(l[i].record.payload) == Some(s))
    && (forall i :: 0 <= i < |l| && SubjectOf(l[i].record.payload).Some? ==>
          var s := SubjectOf(l[i].record.payload).value; s in subjects && l[i].key in subjects[s])
  }

  ghost predicate RegionsExact(l: seq<Entry>, regions: seq<RegionKey>, maximum: nat) {
    && StartsAscend(regions)
    && (forall r :: r in regions ==>
          exists i :: 0 <= i < |l| && l[i].key == r.key && l[i].record.payload.CodeRegion? &&
                      l[i].record.payload.start == r.start)
    && (forall i :: 0 <= i < |l| && l[i].record.payload.CodeRegion? ==>
          var p := l[i].record.payload;
          RegionKey(p.start, l[i].key) in regions && p.end - p.start <= maximum)
  }

  ghost predicate IndexExact(l: seq<Entry>, index: Index) {
    SubjectsExact(l, index.subjects) && RegionsExact(l, index.regions, index.maximumRegionSize)
  }

  /** The same records, apart from one new entry somewhere. */
  ghost predicate OneMore(l: seq<Entry>, l': seq<Entry>, x: Entry) {
    && x in l'
    && (forall e :: e in l ==> e in l')
    && (forall e :: e in l' ==> e == x || e in l)
  }

  lemma {:induction false} PrefixOneMore(l: seq<Entry>, i: nat)
    requires i < |l|
    ensures OneMore(l[..i], l[..i + 1], l[i])
  {
    assert l[..i + 1] == l[..i] + [l[i]];
  }

  ghost predicate StartsAscend(regions: seq<RegionKey>) {
    forall a, b :: 0 <= a < b < |regions| ==> regions[a].start <= regions[b].start
  }

  lemma {:induction false} InsertRegionSpec(regions: seq<RegionKey>, x: RegionKey)
    requires StartsAscend(regions)
    ensures StartsAscend(InsertRegion(regions, x))
    ensures forall y :: y in InsertRegion(regions, x) <==> y == x || y in regions
  {
    if regions == [] || x.start < regions[0].start {
      assert InsertRegion(regions, x) == [x] + regions;
    } else {
      var tail := regions[1..];
      var rest := InsertRegion(tail, x);
      InsertRegionSpec(tail, x);
      assert regions == [regions[0]] + tail;
      assert InsertRegion(regions, x) == [regions[0]] + rest;
      forall y | y in rest ensures regions[0].start <= y.start {
        if y != x {
          var k :| 0 <= k < |tail| && tail[k] == y;
          assert regions[k + 1] == y;
        }
      }
    }
  }

  /** Indexing a new record keeps the index exact. */
  lemma {:induction false} IndexInsertExact(l: seq<Entry>, l': seq<Entry>, index: Index, x: Entry)
    requires IndexExact(l, index) && OneMore(l, l', x)
    requires x.record.payload.CodeRegion? ==> x.record.payload.start < x.record.payload.end
    ensures IndexExact(l', IndexInsert(index, x.key, x.record.payload))
  {
    hide SubjectOf;
    var index' := IndexInsert(index, x.key, x.record.payload);
    if SubjectOf(x.record.payload).None? && x.record.payload.CodeRegion? {
      InsertRegionSpec(index.regions, RegionKey(x.record.payload.start, x.key));
    }
    SubjectsGrow(l, l', index, x);
    RegionsGrow(l, l', index, x);
  }

  lemma {:induction false} SubjectsGrow(l: seq<Entry>, l': seq<Entry>, index: Index, x: Entry)
    requires SubjectsExact(l, index.subjects) && OneMore(l, l', x)
    ensures SubjectsExact(l', IndexInsert(index, x.key, x.record.payload).subjects)
  {
    hide SubjectOf;
    var subjects' := IndexInsert(index, x.key, x.record.payload).subjects;
    forall s, k | s in subjects' && k in subjects'[s]
      ensures exists i :: 0 <= i < |l'| && l'[i].key == k && SubjectOf(l'[i].record.payload) == Some(s)
    {
      if s in index.subjects && k in index.subjects[s] {
        var i :| 0 <= i < |l| && l[i].key == k && SubjectOf(l[i].record.payload) == Some(s);
        assert l[i] in l';
      } else {
        assert k == x.key && SubjectOf(x.record.payload) == Some(s);
      }
    }
    forall i | 0 <= i < |l'| && SubjectOf(l'[i].record.payload).Some?
      ensures SubjectOf(l'[i].record.payload).value in subjects'
      ensures l'[i].key in subjects'[SubjectOf(l'[i].record.payload).value]
    {
      assert l'[i] in l';
      if l'[i] in l {
        var j :| 0 <= j < |l| && l[j] == l'[i];
        assert l[j].key in index.subjects[SubjectOf(l[j].record.payload).value];
      }
    }
  }

  lemma {:induction false} RegionsGrow(l: seq<Entry>, l': seq<Entry>, index: Index, x: Entry)
    requires RegionsExact(l, index.regions, index.maximumRegionSize) && OneMore(l, l', x)
    requires x.record.payload.CodeRegion? ==> x.record.payload.start < x.record.payload.end
    ensures var index' := IndexInsert(index, x.key, x.record.payload);
            RegionsExact(l', index'.regions, index'.maximumRegionSize)
  {
    var p := x.record.payload;
    var index' := IndexInsert(index, x.key, p);
    if p.CodeRegion? {
      InsertRegionSpec(index.regions, RegionKey(p.start, x.key));
    }
    hide SubjectOf, InsertRegion;
    forall r | r in index'.regions
      ensures exists i :: 0 <= i < |l'| && l'[i].key == r.key && l'[i].record.payload.CodeRegion? &&
                          l'[i].record.payload.start == r.start
    {
      if r in index.regions {
        var i :| 0 <= i < |l| && l[i].key == r.key && l[i].record.payload.CodeRegion? &&
          l[i].record.payload.start == r.start;
        assert l[i] in l';
      } else {
        assert x in l';
      }
    }
    forall i | 0 <= i < |l'| && l'[i].record.payload.CodeRegion?
      ensures RegionKey(l'[i].record.payload.start, l'[i].key) in index'.regions
      ensures l'[i].record.payload.end - l'[i].record.payload.start <= index'.maximumRegionSize
    {
      assert l'[i] in l';
      if l'[i] in l {
        var j :| 0 <= j < |l| && l[j] == l'[i];
      }
    }
  }

  /** Observations may differ; keys and payloads are the same position by position. */
  ghost predicate SameShape(l: seq<Entry>, l': seq<Entry>) {
    |l| == |l'| && forall i :: 0 <= i < |l| ==> l[i].key == l'[i].key && l[i].record.payload == l'[i].record.payload
  }

  lemma {:induction false} SameShapeExact(l: seq<Entry>, l': seq<Entry>, index: Index)
    requires SameShape(l, l') && IndexExact(l, index)
    ensures IndexExact(l', index)
  {
    hide SubjectOf;
    forall s, k | s in index.subjects && k in index.subjects[s]
      ensures exists i :: 0 <= i < |l'| && l'[i].key == k && SubjectOf(l'[i].record.payload) == Some(s)
    {
      var i :| 0 <= i < |l| && l[i].key == k && SubjectOf(l[i].record.payload) == Some(s);
      assert l'[i].key == k;
    }
    forall r | r in index.regions
      ensures exists i :: 0 <= i < |l'| && l'[i].key == r.key && l'[i].record.payload.CodeRegion? &&
                          l'[i].record.payload.start == r.start
    {
      var i :| 0 <= i < |l| && l[i].key == r.key && l[i].record.payload.CodeRegion? &&
        l[i].record.payload.start == r.start;
      assert l'[i].key == r.key;
    }
    forall i | 0 <= i < |l'|
      ensures l'[i].record.payload.CodeRegion? ==>
                RegionKey(l'[i].record.payload.start, l'[i].key) in index.regions &&
                l'[i].record.payload.end - l'[i].record.payload.start <= index.maximumRegionSize
    {
      assert l[i].key == l'[i].key;
    }
  }

  // ---- the naive query -----------------------------------------------------------------------

  /** Some observation is visible at the generation; zero selects all, user assertions always count. */
  predicate Visible(e: Evidence, generation: U64) {
    generation == 0 || e.scope.generation == generation || e.proof.UserAsserted?
  }

  predicate Active(r: Record, generation: U64) {
    exists i :: 0 <= i < |r.observations| && Visible(r.observations[i], generation)
  }

  /** Contradictions between a payload and one record, compared in canonical key order. */
  ghost function EntryContradictions(sha: Bytes -> Digest, key: Bytes, p: Payload, x: Entry): set<Conflict> {
    if BytesLess(key, x.key) then PairConflicts(true, p, x.record.payload, sha(key), sha(x.key))
    else PairConflicts(true, x.record.payload, p, sha(x.key), sha(key))
  }

  /** What comparing the payload with every active record finds. */
  ghost function ActiveContradictions(sha: Bytes -> Digest, l: seq<Entry>, key: Bytes, p: Payload,
                                      generation: U64): set<Conflict> {
    set x, c | x in l && Active(x.record, generation) && c in EntryContradictions(sha, key, p, x) :: c
  }

  lemma {:induction false} EntryContradictionSubject(sha: Bytes -> Digest, key: Bytes, p: Payload, x: Entry)
    requires EntryContradictions(sha, key, p, x) != {}
    ensures if p.CodeRegion? then
              x.record.payload.CodeRegion? && RegionsOverlap(p, x.record.payload) &&
              RegionKindsIncompatible(p.regionKind, x.record.payload.regionKind)
            else SubjectOf(p).Some? && SubjectOf(p) == SubjectOf(x.record.payload)
  {
    hide Issues, SubjectOf, Seal, BytesLess;
    var q := x.record.payload;
    if BytesLess(key, x.key) {
      assert Contradicts(p, q);
      ContradictionsShareSubject(p, q);
    } else {
      assert Contradicts(q, p);
      ContradictionsShareSubject(q, p);
      if p.CodeRegion? && !q.CodeRegion? {
        RegionHasNoSubject(p);
      }
      if q.CodeRegion? && !p.CodeRegion? {
        RegionHasNoSubject(q);
      }
    }
  }

  lemma {:induction false} RegionHasNoSubject(p: Payload)
    requires p.CodeRegion?
    ensures SubjectOf(p).None?
  {
  }

  /** The region window: every overlapping region starts inside it. */
  function WindowStart(start: Address, span: nat): nat {
    if start > span then start - span else 0
  }

  predicate InWindow(p: Payload, r: RegionKey, span: nat)
    requires p.CodeRegion?
  {
    WindowStart(p.start, span) <= r.start < p.end
  }

  lemma {:induction false} OverlapInWindow(p: Payload, q: Payload, span: nat)
    requires p.CodeRegion? && q.CodeRegion? && RegionsOverlap(p, q) && q.end - q.start <= span
    ensures WindowStart(p.start, span) <= q.start < p.end && q.end > p.start
  {
  }

  /** The keys contain every record that contradicts the payload, and only keys of records. */
  ghost predicate Candidates(sha: Bytes -> Digest, l: seq<Entry>, key: Bytes, p: Payload, keys: seq<Bytes>) {
    && (forall k :: k in keys ==> exists i :: 0 <= i < |l| && l[i].key == k)
    && (forall i :: 0 <= i < |l| && EntryContradictions(sha, key, p, l[i]) != {} ==> l[i].key in keys)
  }

  /** A subject's bucket holds all candidates for a payload with that subject. */
  lemma {:induction false} BucketCandidates(sha: Bytes -> Digest, l: seq<Entry>, index: Index, key: Bytes,
                                            p: Payload)
    requires IndexExact(l, index) && SubjectOf(p).Some?
    ensures Candidates(sha, l, key, p,
              if SubjectOf(p).value in index.subjects then index.subjects[SubjectOf(p).value] else [])
  {
    hide EntryContradictions, RegionsOverlap, RegionKindsIncompatible;
    if p.CodeRegion? {
      RegionHasNoSubject(p);
    }
    hide SubjectOf;
    forall i | 0 <= i < |l| && EntryContradictions(sha, key, p, l[i]) != {}
      ensures SubjectOf(p).value in index.subjects && l[i].key in index.subjects[SubjectOf(p).value]
    {
      EntryContradictionSubject(sha, key, p, l[i]);
    }
  }

  /** Comparing the active candidates finds what comparing every active record finds. */
  lemma {:induction false} CandidatesExact(sha: Bytes -> Digest, l: seq<Entry>, key: Bytes, p: Payload,
                                           keys: seq<Bytes>, generation: U64, found: set<Conflict>)
    requires KeysAscend(l) && Candidates(sha, l, key, p, keys)
    requires found == FoundUnder(sha, l, key, p, keys, generation)
    ensures found == ActiveContradictions(sha, l, key, p, generation)
  {
    hide EntryContradictions, Active;
    forall x, c | x in l && Active(x.record, generation) && c in EntryContradictions(sha, key, p, x)
      ensures c in found
    {
      var i :| 0 <= i < |l| && l[i] == x;
      FindSpec(l, x.key);
      assert x.key in keys && c in KeyContradictions(sha, l, key, p, x.key, generation);
    }
    forall k, c | k in keys && c in KeyContradictions(sha, l, key, p, k, generation)
      ensures c in ActiveContradictions(sha, l, key, p, generation)
    {
      var i :| 0 <= i < |l| && l[i].key == k;
      FindSpec(l, k);
      assert Entry(k, Find(l, k).value) == l[i];
    }
  }

  ghost function KeyContradictions(sha: Bytes -> Digest, l: seq<Entry>, key: Bytes, p: Payload, k: Bytes,
                                   generation: U64): set<Conflict> {
    var r := Find(l, k);
    if r.Some? && Active(r.value, generation) then EntryContradictions(sha, key, p, Entry(k, r.value)) else {}
  }

  ghost function FoundUnder(sha: Bytes -> Digest, l: seq<Entry>, key: Bytes, p: Payload, keys: seq<Bytes>,
                            generation: U64): set<Conflict> {
    set k, c | k in keys && c in KeyContradictions(sha, l, key, p, k, generation) :: c
  }

  lemma {:induction false} FoundAppend(sha: Bytes -> Digest, l: seq<Entry>, key: Bytes, p: Payload,
                                       keys: seq<Bytes>, k: Bytes, generation: U64)
    ensures FoundUnder(sha, l, key, p, keys + [k], generation) ==
            FoundUnder(sha, l, key, p, keys, generation) + KeyContradictions(sha, l, key, p, k, generation)
  {
    hide KeyContradictions;
  }

  /** std::min_element under the reporting order. */
  method Least(conflicts: seq<Conflict>) returns (least: Conflict)
    requires conflicts != []
    ensures least in conflicts
    ensures forall c :: c in conflicts ==> c == least || ConflictLess(least, c)
  {
    ConflictLessTotal();
    hide ConflictLess;
    least := conflicts[0];
    for i := 1 to |conflicts|
      invariant least in conflicts
      invariant forall k :: 0 <= k < i ==> conflicts[k] == least || ConflictLess(least, conflicts[k])
    {
      if ConflictLess(conflicts[i], least) {
        least := conflicts[i];
      }
    }
  }

  // ---- the store ---------------------------------------------------------------------------------

  /** The first region that starts at or after an address. */
  method FirstFrom(regions: seq<RegionKey>, lower: int) returns (at: nat)
    ensures at <= |regions| && forall k :: 0 <= k < at ==> regions[k].start < lower
  {
    at := 0;
    while at < |regions| && regions[at].start < lower
      invariant at <= |regions| && forall k :: 0 <= k < at ==> regions[k].start < lower
    {
      at := at + 1;
    }
  }

  class EvidenceStore {
    const sha: Bytes -> Digest
    var records: seq<Entry>
    var index: Option<Index>

    ghost predicate Valid()
      reads this
    {
      ValidLedger(records) && (index.Some? ==> IndexExact(records, index.value))
    }

    constructor (sha: Bytes -> Digest)
      ensures Valid() && records == [] && this.sha == sha
    {
      this.sha := sha;
      records := [];
      index := None;
    }

    /** Insertion follows the ledger and keeps a built index exact. */
    method Add(f: Fact) returns (d: Disposition)
      requires Valid()
      modifies this
      ensures Valid() && (records, d) == AddTo(old(records), f)
    {
      hide EncodePayload, ValidPayload, EncodeEvidence, BytesLess, SubjectOf, Insert, IndexInsert, IndexExact;
      AddSpec(records, f);
      var n := Normalize(f);
      if !ValidFact(n) {
        return RejectedInvalid;
      }
      var e: Observation := n.evidence;
      var key := EncodePayload(n.payload);
      var p := LowerBound(records, key);
      if p < |records| && records[p].key == key {
        var observations := Insert(e, records[p].record.observations, ObservationLess);
        if |observations| == |records[p].record.observations| {
          return DuplicateObservation;
        }
        ghost var before := records;
        records := records[p := records[p].(record := records[p].record.(observations := observations))];
        if index.Some? {
          SameShapeExact(before, records, index.value);
        }
        return AddedObservation;
      }
      var entry := Entry(key, Record(n.payload, [e]));
      ghost var before := records;
      records := records[..p] + [entry] + records[p..];
      if index.Some? {
        assert OneMore(before, records, entry) by { InsertOneMore(before, p, entry); }
        assert n.payload.CodeRegion? ==> n.payload.start < n.payload.end by { RegionOrdered(n.payload); }
        IndexInsertExact(before, records, index.value, entry);
        index := Some(IndexInsert(index.value, key, n.payload));
      }
      return InsertedRecord;
    }

    /** Build the index from the records in canonical order. */
    method BuildIndex()
      requires Valid()
      modifies this`index
      ensures Valid() && index.Some?
    {
      hide EncodePayload, ValidPayload, BytesLess, SubjectOf, IndexInsert;
      var built := EMPTY_INDEX;
      assert IndexExact(records[..0], built);
      hide IndexExact, OneMore, ValidEntry;
      for i := 0 to |records|
        invariant IndexExact(records[..i], built)
      {
        EntryRegionOrdered(records[i]);
        PrefixOneMore(records, i);
        IndexInsertExact(records[..i], records[..i + 1], built, records[i]);
        built := IndexInsert(built, records[i].key, records[i].record.payload);
      }
      assert records[..|records|] == records;
      index := Some(built);
    }

    /** Keys of the indexed regions that overlap an incompatible region payload. */
    method RegionCandidates(key: Bytes, p: Payload) returns (keys: seq<Bytes>)
      requires Valid() && index.Some? && p.CodeRegion?
      ensures Candidates(sha, records, key, p, keys)
    {
      hide EncodePayload, ValidEntry, BytesLess, EntryContradictions, Find, SubjectsExact, StartsAscend;
      hide RegionKindsIncompatible, WindowStart;
      var regions := index.value.regions;
      var lower := WindowStart(p.start, index.value.maximumRegionSize);
      keys := [];
      var at := FirstFrom(regions, lower);
      ghost var first := at;
      while at < |regions| && regions[at].start < p.end
        invariant first <= at <= |regions|
        invariant forall k :: k in keys ==> exists i :: 0 <= i < |records| && records[i].key == k
        invariant forall k :: first <= k < at && Overlapping(records, p, regions[k]) ==> regions[k].key in keys
      {
        var other := Find(records, regions[at].key);
        FindSpec(records, regions[at].key);
        assert regions[at] in regions;
        if other.value.payload.end > p.start &&
           RegionKindsIncompatible(p.regionKind, other.value.payload.regionKind) {
          keys := keys + [regions[at].key];
        }
        at := at + 1;
      }
      forall i | 0 <= i < |records| && EntryContradictions(sha, key, p, records[i]) != {}
        ensures records[i].key in keys
      {
        var k := WindowCovers(sha, records, index.value, key, p, i);
        if at < |regions| {
          StartsFrom(regions, at, k);
        }
      }
    }

    /** Compare the payload with the active candidates, in canonical pair order. */
    method CompareCandidates(key: Bytes, p: Payload, generation: U64, keys: seq<Bytes>)
      returns (conflicts: seq<Conflict>)
      requires Valid() && Candidates(sha, records, key, p, keys)
      ensures Elements(conflicts) == ActiveContradictions(sha, records, key, p, generation)
    {
      hide EncodePayload, ValidEntry, BytesLess, PairConflicts, IndexExact, Find;
      var accumulator := new ConflictAccumulator(true);
      for n := 0 to |keys|
        invariant accumulator.Kept() == FoundUnder(sha, records, key, p, keys[..n], generation)
      {
        assert keys[..n + 1] == keys[..n] + [keys[n]];
        FoundAppend(sha, records, key, p, keys[..n], keys[n], generation);
        var r := Find(records, keys[n]);
        if r.Some? && Active(r.value, generation) {
          var left, right := sha(key), sha(keys[n]);
          if BytesLess(key, keys[n]) {
            accumulator.Compare(p, r.value.payload, left, right);
          } else {
            accumulator.Compare(r.value.payload, p, right, left);
          }
        }
      }
      assert keys[..|keys|] == keys;
      conflicts := accumulator.conflicts;
      CandidatesExact(sha, records, key, p, keys, generation, Elements(conflicts));
    }

    /** The first contradiction that activating the payload would introduce, through the index. */
    method NewContradiction(p: Payload, generation: U64) returns (r: Option<Conflict>)
      requires Valid()
      modifies this`index
      ensures Valid()
      ensures r == LeastContradiction(sha, records, p, generation)
    {
      hide EncodePayload, ValidPayload, ValidEntry, BytesLess, SubjectOf, PairConflicts, Active, KeysAscend;
      hide ActiveContradictions, Find;
      LeastContradictionSpec(sha, records, p, generation);
      var subject := SubjectOf(p);
      if subject.None? && !p.CodeRegion? {
        NoSubjectQuiet(sha, records, p, generation);
        return None;
      }
      var n := NormalizePayload(p);
      if !ValidPayload(n) {
        return None;
      }
      var key := EncodePayload(n);
      var existing := Find(records, key);
      if existing.Some? && Active(existing.value, generation) {
        return None;
      }
      if index.None? {
        BuildIndex();
      }
      var keys: seq<Bytes>;
      if subject.Some? {
        keys := if subject.value in index.value.subjects then index.value.subjects[subject.value] else [];
        BucketCandidates(sha, records, index.value, key, p);
      } else {
        keys := RegionCandidates(key, p);
      }
      var conflicts := CompareCandidates(key, p, generation, keys);
      if conflicts == [] {
        return None;
      }
      var least := Least(conflicts);
      LeastUnique(ActiveContradictions(sha, records, key, p, generation), least);
      return Some(least);
    }

    /** Every record's observations in canonical order. */
    method FlattenedFacts() returns (facts: seq<Fact>)
      ensures facts == Flatten(records)
    {
      hide ValidEvidence;
      facts := [];
      for i := 0 to |records|
        invariant facts + Flatten(records[i..]) == Flatten(records)
      {
        var entry := records[i];
        ghost var before := facts;
        for j := 0 to |entry.record.observations|
          invariant facts == before + EntryFacts(entry)[..j]
        {
          facts := facts + [Fact(entry.record.payload, entry.record.observations[j])];
        }
        assert EntryFacts(entry)[..|entry.record.observations|] == EntryFacts(entry);
        assert records[i..][1..] == records[i + 1..];
      }
    }

    /** Merge by re-adding the other store's facts; the report accounts for each of them. */
    method Merge(other: EvidenceStore, countConflicts: bool) returns (report: MergeReport)
      requires Valid() && other.Valid()
      modifies this
      ensures Valid() && records == MergeInto(old(records), old(other.records))
      ensures report.inserted + report.added + report.duplicate + report.rejected == |Flatten(old(other.records))|
      ensures report.rejected == 0
      ensures report.inserted == |records| - |old(records)|
      ensures report.inserted + report.added == |Contents(records)| - |Contents(old(records))|
      ensures report.recordsAfter == |records| && report.observationsAfter == |Flatten(records)|
      ensures report.conflictsAfter == if countConflicts then |AllConflicts(RankedRecords(sha, records))| else 0
    {
      hide AddTo, Contents, ValidLedger, ValidFact, Normalize, IndexExact, Flatten;
      var facts := other.FlattenedFacts();
      StoredFactsValid(other.records);
      report := MergeReport(0, 0, 0, 0, 0, 0, 0);
      assert facts[0..] == facts;
      for i := 0 to |facts|
        invariant Valid()
        invariant AddAll(records, facts[i..]) == MergeInto(old(records), old(other.records))
        invariant report.inserted + report.added + report.duplicate == i
        invariant report.rejected == 0 && report.conflictsAfter == 0
        invariant report.inserted == |records| - |old(records)|
        invariant report.inserted + report.added == |Contents(records)| - |Contents(old(records))|
      {
        assert facts[i] in facts;
        assert facts[i..][1..] == facts[i + 1..];
        AddTally(records, facts[i]);
        var d := Add(facts[i]);
        report := Count(report, d);
      }
      var after := FlattenedFacts();
      report := report.(recordsAfter := |records|, observationsAfter := |after|);
      if countConflicts {
        var conflicts := Conflicts();
        ConflictLessTotal();
        AscendingSize(conflicts, ConflictLess);
        report := report.(conflictsAfter := |conflicts|);
      }
    }

    /** The full conflict report of the stored records. */
    method Conflicts() returns (conflicts: seq<Conflict>)
      ensures Ascending(conflicts, ConflictLess)
      ensures Elements(conflicts) == AllConflicts(RankedRecords(sha, records))
    {
      conflicts := DetectConflicts(RankedRecords(sha, records));
    }

    /** The identities taking part in contradictions of the full report. */
    method ContradictedPayloads() returns (contradicted: set<Digest>)
      requires Valid()
      ensures contradicted == ContradictionScan.ContradictedInReport(RankedRecords(sha, records))
      ensures contradicted == ContradictionScan.Ids(RankedRecords(sha, records),
                                ContradictionScan.Participants(RankedRecords(sha, records)))
    {
      RegionsValidInLedger(sha, records);
      contradicted := ContradictionScan.ContradictedPayloadDigests(RankedRecords(sha, records));
    }

    method Clear()
      modifies this
      ensures Valid() && records == []
    {
      index := None;
      records := [];
    }
  }

  datatype MergeReport = MergeReport(
    inserted: nat, added: nat, duplicate: nat, rejected: nat, recordsAfter: nat, observationsAfter: nat,
    conflictsAfter: nat)

  function RankedRecords(sha: Bytes -> Digest, l: seq<Entry>): seq<Ranked> {
    seq(|l|, i requires 0 <= i < |l| => Ranked(l[i].record.payload, sha(l[i].key)))
  }

  lemma {:induction false} RegionsValidInLedger(sha: Bytes -> Digest, l: seq<Entry>)
    requires ValidLedger(l)
    ensures ContradictionScan.RegionsValid(RankedRecords(sha, l))
  {
    hide ValidPayload, EncodePayload;
    forall i | 0 <= i < |l| && l[i].record.payload.CodeRegion?
      ensures l[i].record.payload.start < l[i].record.payload.end
    {
      assert ValidEntry(l[i]);
      RegionOrdered(l[i].record.payload);
    }
  }

  lemma {:induction false} StoredFactsValid(l: seq<Entry>)
    requires ValidLedger(l)
    ensures forall f :: f in Flatten(l) ==> ValidFact(f) && Normalize(f) == f
  {
    hide ValidLedger, Contents, ValidFact, Normalize;
    FlattenContents(l);
    forall f | f in Flatten(l) ensures ValidFact(f) && Normalize(f) == f {
      assert f in Elements(Flatten(l));
      PayloadOfFact(l, f);
      ValidFactIsNormal(f);
    }
  }

  function Count(report: MergeReport, d: Disposition): MergeReport {
    match d
    case InsertedRecord => report.(inserted := report.inserted + 1)
    case AddedObservation => report.(added := report.added + 1)
    case DuplicateObservation => report.(duplicate := report.duplicate + 1)
    case RejectedInvalid => report.(rejected := report.rejected + 1)
  }

  /** A new record adds one entry, a new fact one element of the contents. */
  lemma {:induction false} AddTally(l: seq<Entry>, f: Fact)
    requires ValidLedger(l) && ValidFact(f) && Normalize(f) == f
    ensures var (l', d) := AddTo(l, f);
            && !d.RejectedInvalid?
            && |l'| == |l| + (if d.InsertedRecord? then 1 else 0)
            && |Contents(l')| == |Contents(l)| + (if d.DuplicateObservation? then 0 else 1)
  {
    hide EncodePayload, ValidLedger, ValidPayload, ValidEvidence, Insert, Contents;
    AddSpec(l, f);
  }

  // ---- the least contradiction, by a scan of all records -------------------------------------------

  ghost predicate IsLeast(found: set<Conflict>, c: Conflict) {
    c in found && forall d :: d in found ==> d == c || ConflictLess(c, d)
  }

  /** Nothing if the payload is malformed or already active, otherwise the least one a full scan finds. */
  ghost function LeastContradiction(sha: Bytes -> Digest, l: seq<Entry>, p: Payload, generation: U64)
    : Option<Conflict>
  {
    var n := NormalizePayload(p);
    if !ValidPayload(n) then None
    else
      var key := EncodePayload(n);
      var existing := Find(l, key);
      if existing.Some? && Active(existing.value, generation) then None
      else
        var found := ActiveContradictions(sha, l, key, p, generation);
        if exists c :: IsLeast(found, c) then var c :| IsLeast(found, c); Some(c) else None
  }

  lemma {:induction false} LeastUnique(found: set<Conflict>, c: Conflict)
    requires IsLeast(found, c)
    ensures forall d :: IsLeast(found, d) ==> d == c
  {
    ConflictLessTotal();
    hide ConflictLess;
  }

  lemma {:induction false} LeastExists(found: set<Conflict>)
    requires found != {}
    ensures exists c :: IsLeast(found, c)
  {
    ConflictLessTotal();
    hide ConflictLess;
    var x :| x in found;
    if found == {x} {
      assert IsLeast(found, x);
    } else {
      LeastExists(found - {x});
      var c :| IsLeast(found - {x}, c);
      assert IsLeast(found, if ConflictLess(x, c) then x else c);
    }
  }

  /** A contradiction is returned exactly when the scan of all active records finds one. */
  lemma {:induction false} LeastContradictionSpec(sha: Bytes -> Digest, l: seq<Entry>, p: Payload, generation: U64)
    ensures var n := NormalizePayload(p);
            var r := LeastContradiction(sha, l, p, generation);
            ValidPayload(n) ==>
              var key := EncodePayload(n);
              var existing := Find(l, key);
              var found := ActiveContradictions(sha, l, key, p, generation);
              && (r.Some? <==> found != {} && !(existing.Some? && Active(existing.value, generation)))
              && (r.Some? ==> IsLeast(found, r.value))
              && (r.Some? ==> r.value in found && forall c :: c in found ==> c == r.value || ConflictLess(r.value, c))
  {
    hide EncodePayload, ValidPayload, ActiveContradictions, Find, NormalizePayload, Active;
    var n := NormalizePayload(p);
    if ValidPayload(n) {
      var found := ActiveContradictions(sha, l, EncodePayload(n), p, generation);
      if found != {} {
        LeastExists(found);
      }
    }
  }

  /** Payloads without a subject contradict nothing. */
  lemma {:induction false} NoSubjectQuiet(sha: Bytes -> Digest, l: seq<Entry>, p: Payload, generation: U64)
    requires SubjectOf(p).None? && !p.CodeRegion?
    ensures LeastContradiction(sha, l, p, generation).None?
  {
    hide EncodePayload, ValidPayload, SubjectOf, EntryContradictions, NormalizePayload, Find, Active;
    var n := NormalizePayload(p);
    if ValidPayload(n) {
      var key := EncodePayload(n);
      forall x | x in l ensures EntryContradictions(sha, key, p, x) == {} {
        if EntryContradictions(sha, key, p, x) != {} {
          EntryContradictionSubject(sha, key, p, x);
        }
      }
      assert ActiveContradictions(sha, l, key, p, generation) == {};
      LeastContradictionSpec(sha, l, p, generation);
    }
  }

  lemma {:induction false} StartsFrom(regions: seq<RegionKey>, at: nat, k: nat)
    requires StartsAscend(regions) && at < |regions| && k < |regions|
    ensures at <= k ==> regions[at].start <= regions[k].start
  {
  }

  /** A contradicting region record has an index entry inside the window. */
  lemma {:induction false} WindowCovers(sha: Bytes -> Digest, l: seq<Entry>, index: Index, key: Bytes, p: Payload,
                                        i: nat)
    returns (k: nat)
    requires IndexExact(l, index) && KeysAscend(l) && p.CodeRegion?
    requires i < |l| && EntryContradictions(sha, key, p, l[i]) != {}
    ensures k < |index.regions| && index.regions[k].key == l[i].key
    ensures InWindow(p, index.regions[k], index.maximumRegionSize) && Overlapping(l, p, index.regions[k])
  {
    hide EntryContradictions, BytesLess, SubjectOf, RegionsOverlap, RegionKindsIncompatible, LowerBound;
    EntryContradictionSubject(sha, key, p, l[i]);
    var q := l[i].record.payload;
    OverlapInWindow(p, q, index.maximumRegionSize);
    k :| 0 <= k < |index.regions| && index.regions[k] == RegionKey(q.start, l[i].key);
    FindSpec(l, l[i].key);
  }

  /** The region behind an index entry reaches into an incompatible region. */
  ghost predicate Overlapping(l: seq<Entry>, p: Payload, r: RegionKey)
    requires p.CodeRegion?
  {
    var other := Find(l, r.key);
    other.Some? && other.value.payload.CodeRegion? && other.value.payload.end > p.start &&
    RegionKindsIncompatible(p.regionKind, other.value.payload.regionKind)
  }

  lemma {:induction false} InsertOneMore(l: seq<Entry>, p: nat, x: Entry)
    requires p <= |l|
    ensures OneMore(l, l[..p] + [x] + l[p..], x)
  {
    assert (l[..p] + [x] + l[p..])[p] == x;
    assert l == l[..p] + l[p..];
  }

  lemma {:induction false} EntryRegionOrdered(e: Entry)
    requires ValidEntry(e)
    ensures e.record.payload.CodeRegion? ==> e.record.payload.start < e.record.payload.end
  {
    hide ValidPayload, EncodePayload, ValidFact;
    RegionOrdered(e.record.payload);
  }

  lemma {:induction false} RegionOrdered(p: Payload)
    requires ValidPayload(p)
    ensures p.CodeRegion? ==> p.start < p.end
  {
  }
}
