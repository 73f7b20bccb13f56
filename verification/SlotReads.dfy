/**
 * What reading the persisted ledger delivers. Whenever a slot is intact a read
 * succeeds, it delivers every fact the marker stands for, and it leaves the
 * marker on a slot that holds exactly what it returned.
 */
module SlotReads {
  import opened Orders
  import opened Words
  import Facts
  import opened FactCodec
  import opened Ledger
  import opened Conflicts
  import opened Store
  import opened Envelope
  import opened EnvelopeFormat
  import opened SlotCommit
  import LostSlot

  /** The facts of an intact slot. */
  ghost function FactsIn(sha: Bytes -> Digest, limits: StoreLimits, d: Disk, s: Slot): set<Facts.Fact>
    requires SlotIntact(sha, limits, d, s)
  {
    Contents(Decoded(sha, limits, d.Get(s).value))
  }

  ghost function FactsIfIntact(sha: Bytes -> Digest, limits: StoreLimits, d: Disk, s: Slot): set<Facts.Fact> {
    if SlotIntact(sha, limits, d, s) then FactsIn(sha, limits, d, s) else {}
  }

  /** The facts a disk stands for: of the marked slot, of the other if that is damaged, of both without a marker. */
  ghost function Stored(sha: Bytes -> Digest, limits: StoreLimits, d: Disk): set<Facts.Fact> {
    match d.marker
    case Some(s) =>
      if SlotIntact(sha, limits, d, s) then FactsIn(sha, limits, d, s) else FactsIfIntact(sha, limits, d, s.Other())
    case None => FactsIfIntact(sha, limits, d, A) + FactsIfIntact(sha, limits, d, B)
  }

  // ---- a union can always be written -----------------------------------------------------------------------

  lemma {:induction false} DecodedWritable(sha: Bytes -> Digest, limits: StoreLimits, bytes: Bytes)
    requires Intact(sha, limits, bytes)
    ensures var l := Decoded(sha, limits, bytes);
            && SerializeLedger(sha, l) == Some(bytes) && |Contents(l)| <= limits.maxObservations
            && forall f :: f in Contents(l) ==> Writable(f)
  {
    hide ValidLedger, Contents, Flatten, SerializeLedger, DeserializeLedger, Writable, Facts.ValidFact, FactFits;
    var l := Decoded(sha, limits, bytes);
    DeserializeExact(sha, bytes, l, limits);
    WrittenExactly(sha, l);
    LostSlot.FlattenSize(l);
  }

  lemma {:induction false} UnionSize<T>(a: set<T>, b: set<T>)
    ensures |a + b| <= |a| + |b|
  {
    assert a + b == a + (b - a);
    assert b == (b - a) + (a * b);
  }

  /** The union of two intact slots can be written exactly when it has fewer than 2^64 facts. */
  lemma {:induction false} UnionWritable(sha: Bytes -> Digest, limits: StoreLimits, d: Disk)
    requires SlotIntact(sha, limits, d, A) && SlotIntact(sha, limits, d, B)
    ensures Contents(Merged(sha, limits, d)) == FactsIn(sha, limits, d, A) + FactsIn(sha, limits, d, B)
    ensures Union(sha, limits, d).Some? <==> |FactsIn(sha, limits, d, A) + FactsIn(sha, limits, d, B)| < TWO_64
    ensures limits.maxObservations < TWO_63 ==> Union(sha, limits, d).Some?
  {
    hide ValidLedger, Contents, SerializeLedger, DeserializeLedger, Writable, MergeInto;
    var left, right := Decoded(sha, limits, d.a.value), Decoded(sha, limits, d.b.value);
    MergeSpec(left, right);
    DecodedWritable(sha, limits, d.a.value);
    DecodedWritable(sha, limits, d.b.value);
    UnionSize(Contents(left), Contents(right));
    WrittenExactly(sha, Merged(sha, limits, d));
  }

  // ---- what a read delivers ----------------------------------------------------------------------------------

  /**
   * A read succeeds exactly when there is a root and some slot is intact; only a
   * union of 2^64 facts or more, which no limit below 2^63 lets arise, prevents it.
   */
  lemma {:induction false} ReadSucceedsExactly(sha: Bytes -> Digest, limits: StoreLimits, d: Disk)
    ensures Read(sha, limits, d).0.Some? <==>
            && d.root && (SlotIntact(sha, limits, d, A) || SlotIntact(sha, limits, d, B))
            && (d.marker.None? && SlotIntact(sha, limits, d, A) && SlotIntact(sha, limits, d, B) ==>
                  |FactsIn(sha, limits, d, A) + FactsIn(sha, limits, d, B)| < TWO_64)
    ensures limits.maxObservations < TWO_63 ==>
              (Read(sha, limits, d).0.Some? <==>
               d.root && (SlotIntact(sha, limits, d, A) || SlotIntact(sha, limits, d, B)))
    ensures Read(sha, limits, d).0.None? ==> Read(sha, limits, d).1 == d
  {
    hide Intact, Union, Merged, FactsIn;
    if SlotIntact(sha, limits, d, A) && SlotIntact(sha, limits, d, B) {
      UnionWritable(sha, limits, d);
    }
  }

  /** What was read: the serialisation of a ledger with exactly the facts the disk stands for. */
  ghost predicate Delivers(sha: Bytes -> Digest, limits: StoreLimits, d: Disk, bytes: Bytes) {
    exists l :: ValidLedger(l) && SerializeLedger(sha, l) == Some(bytes) && Contents(l) == Stored(sha, limits, d)
  }

  lemma {:induction false} SlotDelivers(sha: Bytes -> Digest, limits: StoreLimits, d: Disk, s: Slot)
    requires SlotIntact(sha, limits, d, s) && Stored(sha, limits, d) == FactsIn(sha, limits, d, s)
    ensures Delivers(sha, limits, d, d.Get(s).value)
  {
    hide ValidLedger, Contents, SerializeLedger, DeserializeLedger, Writable, Stored;
    DecodedWritable(sha, limits, d.Get(s).value);
  }

  lemma {:induction false} UnionDelivers(sha: Bytes -> Digest, limits: StoreLimits, d: Disk)
    requires SlotIntact(sha, limits, d, A) && SlotIntact(sha, limits, d, B)
    requires d.marker.None? && Union(sha, limits, d).Some?
    ensures Delivers(sha, limits, d, Union(sha, limits, d).value)
  {
    hide ValidLedger, Contents, SerializeLedger, DeserializeLedger, SlotIntact, FactsIn, Merged;
    UnionWritable(sha, limits, d);
  }

  /**
   * A successful read delivers exactly the facts the disk stands for, and the
   * marker then names a slot that holds what was read; the other slot keeps its
   * bytes, and so does this one unless a union was written to it.
   */
  lemma {:induction false} ReadDelivers(sha: Bytes -> Digest, limits: StoreLimits, d: Disk)
    requires Read(sha, limits, d).0.Some?
    ensures var (bytes, after) := Read(sha, limits, d);
            && Delivers(sha, limits, d, bytes.value)
            && after.root && after.marker.Some? && after.Get(after.marker.value) == bytes
            && after.b == d.b && (after.a == d.a || Recovers(sha, limits, d))
  {
    hide Delivers, Union, Intact, FactsIn;
    var both := SlotIntact(sha, limits, d, A) && SlotIntact(sha, limits, d, B);
    if d.marker.None? && both {
      UnionDelivers(sha, limits, d);
    } else {
      var s := ReadSlot(sha, limits, d);
      SlotDelivers(sha, limits, d, s);
    }
  }

  /** The slot a read without recovery returns. */
  lemma {:induction false} ReadSlot(sha: Bytes -> Digest, limits: StoreLimits, d: Disk) returns (s: Slot)
    requires Read(sha, limits, d).0.Some?
    requires !(d.marker.None? && SlotIntact(sha, limits, d, A) && SlotIntact(sha, limits, d, B))
    ensures SlotIntact(sha, limits, d, s) && Stored(sha, limits, d) == FactsIn(sha, limits, d, s)
    ensures Read(sha, limits, d) == (d.Get(s), d.(marker := Some(s)))
    ensures d.marker.Some? && SlotIntact(sha, limits, d, d.marker.value) ==> s == d.marker.value
  {
    hide Intact, Union, FactsIn;
    s := match d.marker
      case Some(m) => if SlotIntact(sha, limits, d, m) then m else m.Other()
      case None => if SlotIntact(sha, limits, d, A) then A else B;
  }

  // ---- a write that nothing interrupts --------------------------------------------------------------------------

  /** From any disk, the steps of an uninterrupted write commit the envelope, and reading returns it. */
  lemma {:induction false} UninterruptedCommits(sha: Bytes -> Digest, limits: StoreLimits, d: Disk, blob: Bytes)
    requires blob != [] && Intact(sha, limits, blob)
    ensures var next := Next(d);
            var staged := d.(root := true).Put(next, Some(blob));
            var done := staged.(marker := Some(next));
            && Run(sha, limits,
                   [State(d, Idle), State(d.(root := true), Staging(blob, next)), State(staged, Staged(blob, next)),
                    State(staged, Verified(blob, next)), State(done, Idle)],
                   [Begin(blob), StageReturns(Some(blob), true), Verify, Commit(true)])
            && Safe(sha, limits, State(done, Idle), blob) && Read(sha, limits, done) == (Some(blob), done)
  {
    hide Intact, Union;
  }
}
