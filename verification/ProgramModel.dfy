/**
 * Program image queries: the byte-mask scan that returns a run of loaded bytes
 * eight mask bits at a time, and the binary search for the segment of an address.
 */
module ProgramModel {
  import opened Words
  import opened Bits

  datatype Segment = Segment(start: U64, end: U64, bytes: Bytes, mask: Bytes)

  predicate Contains(s: Segment, ea: U64) { s.start <= ea < s.end }

  /** Mask bit of a byte offset. */
  predicate Loaded(s: Segment, offset: nat) {
    offset / 8 < |s.mask| && BitAnd(s.mask[offset / 8], Pow2(offset % 8)) != 0
  }

  predicate ByteLoaded(s: Segment, ea: U64) { Contains(s, ea) && Loaded(s, ea - s.start) }

  function Min(a: int, b: int): int { if a < b then a else b }

  /** The most bytes a view from `ea` may hold: the segment, its stored bytes and the caller bound it. */
  function Limit(s: Segment, ea: U64, maximum: nat): nat {
    if !Contains(s, ea) || maximum == 0 || ea - s.start >= |s.bytes| then 0
    else Min(s.end - ea, Min(maximum, |s.bytes| - (ea - s.start)))
  }

  function ShiftRight(x: nat, s: nat): nat { if s == 0 then x else ShiftRight(x / 2, s - 1) }

  lemma {:induction false} BitOfShifted(x: nat, s: nat, k: nat)
    ensures Bit(ShiftRight(x, s), k) <==> Bit(x, s + k)
  {
    if s > 0 { BitOfShifted(x / 2, s - 1, k); }
  }

  lemma {:induction false} BitOfOnes(n: nat, k: nat)
    ensures Bit(Pow2(n) - 1, k) <==> k < n
  {
    if n == 0 {
      BitOfZero(k);
    } else {
      assert (Pow2(n) - 1) / 2 == Pow2(n - 1) - 1 && (Pow2(n) - 1) % 2 == 1;
      if k > 0 { BitOfOnes(n - 1, k - 1); }
    }
  }

  ghost predicate LowOnes(x: nat, n: nat) { forall k: nat :: k < n ==> Bit(x, k) }

  /** All `n` low bits are set exactly when masking with n ones gives n ones. */
  lemma {:induction false} AllOnes(x: nat, n: nat)
    ensures BitAnd(x, Pow2(n) - 1) == Pow2(n) - 1 <==> LowOnes(x, n)
  {
    hide Bit, BitAnd;
    var ones := Pow2(n) - 1;
    MaskIsRemainder(x, n);
    SmallRemainder(ones, n);
    DigitsDetermine(x, ones, n);
    forall k: nat ensures Bit(ones, k) <==> k < n {
      BitOfOnes(n, k);
    }
    assert SameDigits(x, ones, n) <==> LowOnes(x, n) by {
      if LowOnes(x, n) {
        forall k: nat | k < n ensures Bit(x, k) <==> Bit(ones, k) {
        }
      }
      if SameDigits(x, ones, n) {
        forall k: nat | k < n ensures Bit(x, k) {
          assert Bit(ones, k);
        }
      }
    }
  }

  lemma {:induction false} LoadedBit(s: Segment, current: nat, j: nat)
    requires current / 8 < |s.mask| && current % 8 + j < 8
    ensures Loaded(s, current + j) <==> Bit(ShiftRight(s.mask[current / 8], current % 8), j)
  {
    hide BitAnd, Bit, Pow2;
    assert (current + j) / 8 == current / 8 && (current + j) % 8 == current % 8 + j;
    SingleBitMask(s.mask[current / 8], current % 8 + j);
    BitOfShifted(s.mask[current / 8], current % 8, j);
  }

  /** Every offset of the run is loaded. */
  ghost predicate Run(s: Segment, begin: nat, length: nat) {
    forall i: nat :: begin <= i < begin + length ==> Loaded(s, i)
  }

  lemma {:induction false} RunGrows(s: Segment, begin: nat, length: nat, count: nat)
    requires Run(s, begin, length) && Run(s, begin + length, count)
    ensures Run(s, begin, length + count)
  {
  }

  /** A whole group of mask bits is set exactly when its offsets are loaded. */
  lemma {:induction false} GroupLoaded(s: Segment, current: nat, count: nat)
    requires current / 8 < |s.mask| && current % 8 + count <= 8
    ensures LowOnes(ShiftRight(s.mask[current / 8], current % 8), count) <==> Run(s, current, count)
  {
    var bits := ShiftRight(s.mask[current / 8], current % 8);
    forall j: nat | j < count ensures Loaded(s, current + j) <==> Bit(bits, j) {
      LoadedBit(s, current, j);
    }
    hide Loaded, Bit, Pow2;
    if LowOnes(bits, count) {
      forall i: nat | current <= i < current + count ensures Loaded(s, i) {
        assert Bit(bits, i - current);
      }
    }
    if Run(s, current, count) {
      forall k: nat | k < count ensures Bit(bits, k) {
        assert Loaded(s, current + k);
      }
    }
  }

  /** The longest run of loaded bytes from `ea` within the limit. */
  method LoadedView(s: Segment, ea: U64, maximum: nat) returns (view: Bytes)
    ensures |view| <= maximum && |view| <= Limit(s, ea, maximum)
    ensures view != [] ==> Contains(s, ea) && view == s.bytes[ea - s.start..ea - s.start + |view|]
    ensures forall a: U64 :: ea <= a < ea + |view| ==> ByteLoaded(s, a)
    ensures |view| < Limit(s, ea, maximum) ==> !ByteLoaded(s, ea + |view|)
    ensures Contains(s, ea) ==>
              |view| == maximum || ea + |view| >= s.end || ea - s.start + |view| >= |s.bytes| ||
              !ByteLoaded(s, ea + |view|)
  {
    if !Contains(s, ea) || maximum == 0 {
      return [];
    }
    var begin := ea - s.start;
    if begin >= |s.bytes| {
      return [];
    }
    var limit := Min(s.end - ea, Min(maximum, |s.bytes| - begin));
    var length := LoadedLength(s, begin, limit);
    hide Loaded;
    view := s.bytes[begin..begin + length];
    forall a: U64 | ea <= a < ea + |view| ensures ByteLoaded(s, a) {
      assert Loaded(s, a - s.start);
    }
  }

  method LoadedLength(s: Segment, begin: nat, limit: nat) returns (length: nat)
    ensures length <= limit && Run(s, begin, length)
    ensures length < limit ==> !Loaded(s, begin + length)
  {
    hide Loaded, LowOnes, BitAnd, Pow2;
    length := 0;
    while length < limit
      invariant length <= limit && Run(s, begin, length)
    {
      var current := begin + length;
      if current / 8 >= |s.mask| {
        NotInMask(s, current);
        return;
      }
      var count := Min(8 - current % 8, limit - length);
      var bits := ShiftRight(s.mask[current / 8], current % 8);
      AllOnes(bits, count);
      GroupLoaded(s, current, count);
      hide Run;
      if BitAnd(bits, Pow2(count) - 1) != Pow2(count) - 1 {
        var extra := SetBits(s, current, count, bits);
        RunGrows(s, begin, length, extra);
        length := length + extra;
        return;
      }
      RunGrows(s, begin, length, count);
      length := length + count;
    }
  }

  lemma {:induction false} NotInMask(s: Segment, offset: nat)
    requires offset / 8 >= |s.mask|
    ensures !Loaded(s, offset)
  {
  }

  /** The set bits before the first clear one of a group that is not all set. */
  method SetBits(s: Segment, current: nat, count: nat, bits: nat) returns (n: nat)
    requires current / 8 < |s.mask| && current % 8 + count <= 8
    requires bits == ShiftRight(s.mask[current / 8], current % 8) && !Run(s, current, count)
    ensures n < count && Run(s, current, n) && !Loaded(s, current + n)
  {
    hide Loaded, BitAnd, Pow2;
    n := 0;
    while n < count && BitAnd(bits, Pow2(n)) != 0
      invariant n <= count && Run(s, current, n)
    {
      SingleBitMask(bits, n);
      LoadedBit(s, current, n);
      n := n + 1;
    }
    if n < count {
      SingleBitMask(bits, n);
      LoadedBit(s, current, n);
    }
  }

  /** Segments in address order without overlap. */
  ghost predicate Disjoint(segments: seq<Segment>) {
    forall i, j :: 0 <= i < j < |segments| ==>
      segments[i].start <= segments[j].start && segments[i].end <= segments[j].start
  }

  /** Binary search: the one segment that contains the address, or none does. */
  method SegmentAt(segments: seq<Segment>, ea: U64) returns (r: Option<nat>)
    requires Disjoint(segments)
    ensures r.Some? ==> r.value < |segments| && Contains(segments[r.value], ea)
    ensures forall i :: 0 <= i < |segments| && Contains(segments[i], ea) ==> r == Some(i)
  {
    var first, last := 0, |segments|;
    while first < last
      invariant 0 <= first <= last <= |segments|
      invariant forall i :: 0 <= i < first ==> segments[i].start <= ea
      invariant forall i :: last <= i < |segments| ==> ea < segments[i].start
    {
      var mid := first + (last - first) / 2;
      if segments[mid].start <= ea {
        first := mid + 1;
      } else {
        last := mid;
      }
    }
    if first == 0 {
      return None;
    }
    r := if Contains(segments[first - 1], ea) then Some(first - 1) else None;
  }
}
