/**
 * The two-slot commit protocol behind the persisted ledger. A write stages the
 * envelope in the slot the marker does not name, verifies it and only then
 * moves the marker, so no interruption can lose the committed envelope.
 */
module SlotCommit {
  import opened Words
  import opened Ledger
  import opened Conflicts
  import opened Envelope

  datatype Slot = A | B {
    function Other(): Slot { if A? then B else A }
  }

  /** The marker is None while it names neither slot. */
  datatype Disk = Disk(root: bool, marker: Option<Slot>, a: Option<Bytes>, b: Option<Bytes>) {
    function Get(s: Slot): Option<Bytes> { if s.A? then a else b }
    function Put(s: Slot, bytes: Option<Bytes>): Disk { if s.A? then this.(a := bytes) else this.(b := bytes) }
  }

  /** The integrity check of an envelope: it deserialises within the default limits. */
  predicate Intact(sha: Bytes -> Digest, limits: StoreLimits, bytes: Bytes) {
    DeserializeLedger(sha, bytes, limits).Some?
  }

  predicate SlotIntact(sha: Bytes -> Digest, limits: StoreLimits, d: Disk, s: Slot) {
    d.Get(s).Some? && Intact(sha, limits, d.Get(s).value)
  }

  // ---- reading ------------------------------------------------------------------------------

  /** The ledger of both slots together. */
  function Merged(sha: Bytes -> Digest, limits: StoreLimits, d: Disk): (l: seq<Entry>)
    requires SlotIntact(sha, limits, d, A) && SlotIntact(sha, limits, d, B)
    ensures ValidLedger(l)
  {
    var left, right := Decoded(sha, limits, d.a.value), Decoded(sha, limits, d.b.value);
    MergeSpec(left, right);
    MergeInto(left, right)
  }

  /** The envelope the recovery from a lost marker writes. */
  function Union(sha: Bytes -> Digest, limits: StoreLimits, d: Disk): Option<Bytes>
    requires SlotIntact(sha, limits, d, A) && SlotIntact(sha, limits, d, B)
  {
    SerializeLedger(sha, Merged(sha, limits, d))
  }

  function Decoded(sha: Bytes -> Digest, limits: StoreLimits, bytes: Bytes): (l: seq<Entry>)
    requires Intact(sha, limits, bytes)
    ensures ValidLedger(l)
  {
    DeserializeExact(sha, bytes, DeserializeLedger(sha, bytes, limits).value, limits);
    DeserializeLedger(sha, bytes, limits).value
  }

  /** Reading with its repairs, when storage accepts every repair write. */
  function Read(sha: Bytes -> Digest, limits: StoreLimits, d: Disk): (Option<Bytes>, Disk) {
    if !d.root then (None, d)
    else if d.marker.None? then
      if SlotIntact(sha, limits, d, A) && SlotIntact(sha, limits, d, B) then
        var union := Union(sha, limits, d);
        if union.None? then (None, d) else (union, d.Put(A, union).(marker := Some(A)))
      else if SlotIntact(sha, limits, d, A) then (d.a, d.(marker := Some(A)))
      else if SlotIntact(sha, limits, d, B) then (d.b, d.(marker := Some(B)))
      else (None, d)
    else
      var active := d.marker.value;
      if SlotIntact(sha, limits, d, active) then (d.Get(active), d)
      else if SlotIntact(sha, limits, d, active.Other()) then
        (d.Get(active.Other()), d.(marker := Some(active.Other())))
      else (None, d)
  }

  /** A lost marker with two intact slots yields exactly the union of their facts. */
  lemma {:induction false} LostMarkerUnion(sha: Bytes -> Digest, limits: StoreLimits, d: Disk)
    requires d.root && d.marker.None? && SlotIntact(sha, limits, d, A) && SlotIntact(sha, limits, d, B)
    requires Union(sha, limits, d).Some?
    ensures var left, right := Decoded(sha, limits, d.a.value), Decoded(sha, limits, d.b.value);
            var merged := MergeInto(left, right);
            && ValidLedger(merged) && Contents(merged) == Contents(left) + Contents(right)
            && Read(sha, limits, d).0 == SerializeLedger(sha, merged)
  {
    hide ValidLedger, Contents, MergeInto, DeserializeLedger, SerializeLedger;
    MergeSpec(Decoded(sha, limits, d.a.value), Decoded(sha, limits, d.b.value));
  }

  /** Both slots intact, no marker, and a union that can be written. */
  ghost predicate Recovers(sha: Bytes -> Digest, limits: StoreLimits, d: Disk) {
    && d.root && d.marker.None? && SlotIntact(sha, limits, d, A) && SlotIntact(sha, limits, d, B)
    && Union(sha, limits, d).Some?
  }

  /**
   * Reading is repeatable exactly when the facts of a recovered union together
   * fit the decode limits; otherwise the second read finds only slot B.
   */
  lemma {:induction false} ReadRepeatable(sha: Bytes -> Digest, limits: StoreLimits, d: Disk)
    ensures Read(sha, limits, Read(sha, limits, d).1).0 == Read(sha, limits, d).0 <==>
            (Recovers(sha, limits, d) ==> LedgerFits(sha, Merged(sha, limits, d), limits))
    ensures Recovers(sha, limits, d) && !LedgerFits(sha, Merged(sha, limits, d), limits) ==>
              Read(sha, limits, Read(sha, limits, d).1).0 == d.b
  {
    hide ValidLedger, SerializeLedger, DeserializeLedger, LedgerFits, Merged;
    if Recovers(sha, limits, d) {
      ReadableExactly(sha, Merged(sha, limits, d), limits);
    }
  }

  /** Two readable slots with more facts together than the limit: a second read forgets slot A. */
  lemma {:induction false} TooManyTogether(sha: Bytes -> Digest, limits: StoreLimits, left: seq<Entry>,
                                           right: seq<Entry>)
    requires ValidLedger(left) && ValidLedger(right)
    requires LedgerFits(sha, left, limits) && LedgerFits(sha, right, limits)
    requires ValidLedger(MergeInto(left, right)) && SerializeLedger(sha, MergeInto(left, right)).Some?
    requires |Flatten(MergeInto(left, right))| > limits.maxObservations
    ensures var d := Disk(true, None, SerializeLedger(sha, left), SerializeLedger(sha, right));
            && Read(sha, limits, d).0 == SerializeLedger(sha, MergeInto(left, right))
            && Read(sha, limits, Read(sha, limits, d).1).0 == SerializeLedger(sha, right)
  {
    hide ValidLedger, SerializeLedger, DeserializeLedger, LedgerFits, MergeInto, Flatten;
    var d := Disk(true, None, SerializeLedger(sha, left), SerializeLedger(sha, right));
    FitsIsBounded(sha, limits, left);
    FitsIsBounded(sha, limits, right);
    FitsIsBounded(sha, limits, MergeInto(left, right));
    StoreRoundTrip(sha, left, limits);
    StoreRoundTrip(sha, right, limits);
    assert SlotIntact(sha, limits, d, A) && SlotIntact(sha, limits, d, B);
    assert Merged(sha, limits, d) == MergeInto(left, right);
    ReadRepeatable(sha, limits, d);
    hide Merged, SlotIntact;
  }

  lemma {:induction false} FitsIsBounded(sha: Bytes -> Digest, limits: StoreLimits, l: seq<Entry>)
    requires ValidLedger(l)
    ensures LedgerFits(sha, l, limits) ==>
              SerializeLedger(sha, l).Some? && |Flatten(l)| <= limits.maxObservations
  {
    hide ValidLedger, SerializeLedger, Flatten;
  }

  /** The slot a write stages into: never the one the marker names. */
  function Next(d: Disk): (next: Slot)
    ensures d.marker != Some(next) && (d.marker.None? ==> next == A)
  {
    if d.marker == Some(A) then B else A
  }

  // ---- writing as interruptible steps ----------------------------------------------------------

  datatype Phase =
    | Idle
    | Staging(blob: Bytes, next: Slot)
    | Staged(blob: Bytes, next: Slot)
    | Verified(blob: Bytes, next: Slot)

  datatype Event =
    | Begin(blob: Bytes)
    | Tear(bytes: Option<Bytes>)
    | StageReturns(bytes: Option<Bytes>, ok: bool)
    | Verify
    | Commit(ok: bool)
    | Crash

  datatype State = State(disk: Disk, phase: Phase)

  /** One step of a write, or an interruption that forgets everything but the disk. */
  ghost predicate Step(sha: Bytes -> Digest, limits: StoreLimits, s: State, e: Event, s': State) {
    match e
    case Begin(blob) =>
      s.phase.Idle? &&
      if blob == [] || !Intact(sha, limits, blob) then s' == s
      else
        var next := Next(s.disk);
        s' == State(s.disk.(root := true), Staging(blob, next))
    case Tear(bytes) =>
      s.phase.Staging? && s' == s.(disk := s.disk.Put(s.phase.next, bytes))
    case StageReturns(bytes, ok) =>
      s.phase.Staging? &&
      s' == State(s.disk.Put(s.phase.next, bytes), if ok then Staged(s.phase.blob, s.phase.next) else Idle)
    case Verify =>
      s.phase.Staged? &&
      if s.disk.Get(s.phase.next) == Some(s.phase.blob) && Intact(sha, limits, s.phase.blob) then
        s' == s.(phase := Verified(s.phase.blob, s.phase.next))
      else s' == State(s.disk.Put(s.phase.next, None), Idle)
    case Commit(ok) =>
      s.phase.Verified? &&
      if ok then s' == State(s.disk.(marker := Some(s.phase.next)), Idle)
      else s' == State(s.disk.Put(s.phase.next, None), Idle)
    case Crash => s' == s.(phase := Idle)
  }

  /** The envelope that was committed last after these events. */
  ghost function Committed(trace: seq<State>, events: seq<Event>, initial: Bytes): Bytes
    requires |trace| == |events| + 1
    decreases |events|
  {
    if events == [] then initial
    else
      var n := |events| - 1;
      if events[n] == Commit(true) && trace[n].phase.Verified? then trace[n].phase.blob
      else Committed(trace[..n + 1], events[..n], initial)
  }

  ghost predicate Run(sha: Bytes -> Digest, limits: StoreLimits, trace: seq<State>, events: seq<Event>) {
    |trace| == |events| + 1 &&
    forall i :: 0 <= i < |events| ==> Step(sha, limits, trace[i], events[i], trace[i + 1])
  }

  /** The marker names a slot that holds the committed envelope and no write touches it. */
  ghost predicate Safe(sha: Bytes -> Digest, limits: StoreLimits, s: State, committed: Bytes) {
    && s.disk.root && s.disk.marker.Some?
    && s.disk.Get(s.disk.marker.value) == Some(committed) && Intact(sha, limits, committed)
    && (!s.phase.Idle? ==> s.phase.next == s.disk.marker.value.Other())
    && (s.phase.Verified? ==> s.disk.Get(s.phase.next) == Some(s.phase.blob) && Intact(sha, limits, s.phase.blob))
  }

  lemma {:induction false} StepSafe(sha: Bytes -> Digest, limits: StoreLimits, s: State, e: Event, s': State,
                                    committed: Bytes)
    requires Safe(sha, limits, s, committed) && Step(sha, limits, s, e, s')
    ensures Safe(sha, limits, s', if e == Commit(true) && s.phase.Verified? then s.phase.blob else committed)
  {
    hide Intact;
  }

  /**
   * In every state of every run, however writes are interrupted and whatever
   * bytes a torn staging leaves, reading returns the last committed envelope.
   */
  lemma {:induction false} CommittedAlwaysRead(sha: Bytes -> Digest, limits: StoreLimits, trace: seq<State>,
                                               events: seq<Event>, initial: Bytes)
    requires Run(sha, limits, trace, events) && Safe(sha, limits, trace[0], initial)
    ensures var last := trace[|events|];
            var committed := Committed(trace, events, initial);
            Safe(sha, limits, last, committed) && Read(sha, limits, last.disk) == (Some(committed), last.disk)
    decreases |events|
  {
    hide Intact, Step;
    if events != [] {
      var n := |events| - 1;
      CommittedAlwaysRead(sha, limits, trace[..n + 1], events[..n], initial);
      var before := Committed(trace[..n + 1], events[..n], initial);
      StepSafe(sha, limits, trace[n], events[n], trace[n + 1], before);
    }
  }

  // ---- the adapter --------------------------------------------------------------------------------

  /** What the storage does during one write: the staged bytes it ends up holding and which calls succeed. */
  datatype Storage = Storage(rootCreated: bool, staged: Option<Bytes>, stageOk: bool, markerOk: bool)

  class EvidenceAdapter {
    const sha: Bytes -> Digest
    const limits: StoreLimits
    var disk: Disk

    constructor (sha: Bytes -> Digest, limits: StoreLimits, disk: Disk)
      ensures this.sha == sha && this.limits == limits && this.disk == disk
    {
      this.sha, this.limits, this.disk := sha, limits, disk;
    }

    method ReadBlob() returns (out: Option<Bytes>)
      modifies this
      ensures (out, disk) == Read(sha, limits, old(disk))
    {
      hide Intact, Union;
      if !disk.root {
        return None;
      }
      if disk.marker.None? {
        var aIntact := SlotIntact(sha, limits, disk, A);
        var bIntact := SlotIntact(sha, limits, disk, B);
        if !aIntact && !bIntact {
          return None;
        }
        if aIntact && bIntact {
          out := Union(sha, limits, disk);
          if out.Some? {
            disk := disk.Put(A, out);
            disk := disk.(marker := Some(A));
          }
          return;
        }
        out := if aIntact then disk.a else disk.b;
        disk := disk.(marker := Some(if aIntact then A else B));
        return;
      }
      var active := disk.marker.value;
      if SlotIntact(sha, limits, disk, active) {
        return disk.Get(active);
      }
      var fallback := active.Other();
      if SlotIntact(sha, limits, disk, fallback) {
        out := disk.Get(fallback);
        disk := disk.(marker := Some(fallback));
        return;
      }
      return None;
    }

    /**
     * Stage, verify, commit. Whatever the storage does, a successful write is
     * read back exactly and a failed one leaves the committed envelope readable.
     */
    method WriteBlob(blob: Bytes, storage: Storage) returns (ok: bool)
      modifies this
      ensures ok ==> Intact(sha, limits, blob) && disk.root && disk.marker.Some? &&
                     disk.Get(disk.marker.value) == Some(blob) && Read(sha, limits, disk) == (Some(blob), disk)
      ensures ok <==> blob != [] && Intact(sha, limits, blob) && (old(disk.root) || storage.rootCreated) &&
                      storage.stageOk && storage.staged == Some(blob) && storage.markerOk
      ensures ok ==> var next := Next(old(disk));
                     disk == Disk(true, Some(next), old(disk).a, old(disk).b).Put(next, Some(blob))
      ensures !ok ==> disk.marker == old(disk.marker) &&
                      (disk.marker.Some? ==> disk.Get(disk.marker.value) == old(disk.Get(disk.marker.value)))
      ensures blob == [] || !Intact(sha, limits, blob) || !(old(disk.root) || storage.rootCreated) ==> disk == old(disk)
      ensures !ok && blob != [] && Intact(sha, limits, blob) && (old(disk.root) || storage.rootCreated) ==>
                disk == old(disk).(root := true).Put(Next(old(disk)), if storage.stageOk then None else storage.staged)
      ensures !ok && old(disk).root && old(disk).marker.Some? &&
              SlotIntact(sha, limits, old(disk), old(disk).marker.value) ==>
                Read(sha, limits, disk).0 == Read(sha, limits, old(disk)).0
    {
      hide Intact, Union;
      if blob == [] || !Intact(sha, limits, blob) {
        return false;
      }
      if !disk.root {
        if !storage.rootCreated {
          return false;
        }
        disk := disk.(root := true);
      }
      var next := Next(disk);
      disk := disk.Put(next, storage.staged);
      if !storage.stageOk {
        return false;
      }
      if disk.Get(next) != Some(blob) {
        disk := disk.Put(next, None);
        return false;
      }
      if !storage.markerOk {
        disk := disk.Put(next, None);
        return false;
      }
      disk := disk.(marker := Some(next));
      return true;
    }
  }
}
