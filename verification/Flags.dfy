/**
 * Width-aware x86 arithmetic flags and conditions. The flag bits are computed
 * with masks and exclusive-ors; the theorems say which comparison of the
 * truncated operands each condition decides.
 */
module Flags {
  import opened Words
  import opened Bits

  function WidthMask(width: Byte): (mask: U64)
    ensures mask == 0 <==> width == 0 || width > 8
  {
    if width == 0 || width > 8 then 0
    else
      Pow2Values(); Pow2Monotone(8 * width, 64); Pow2Monotone(1, 8 * width);
      Pow2(8 * width) - 1
  }

  function TruncateWidth(value: nat, width: Byte): (r: U64)
    ensures r <= value
  {
    BitAnd(value, WidthMask(width))
  }

  lemma {:induction false} TruncationIsRemainder(value: nat, width: Byte)
    requires 1 <= width <= 8
    ensures BitAnd(value, WidthMask(width)) == Low(value, width)
    ensures TruncateWidth(value, width) == Low(value, width)
  {
    MaskIsRemainder(value, 8 * width);
  }

  datatype ArithmeticFlags = ArithmeticFlags(carry: bool, zero: bool, sign: bool, overflow: bool, parity: bool)

  function Ones(x: nat, n: nat): nat {
    if n == 0 then 0 else (x % 2) + Ones(x / 2, n - 1)
  }

  ghost function SetDigits(x: nat, n: nat): set<nat> { set k: nat | k < n && Bit(x, k) }

  lemma {:induction false} OnesTop(x: nat, n: nat)
    ensures Ones(x, n + 1) == Ones(x, n) + if Bit(x, n) then 1 else 0
  {
    if n > 0 { OnesTop(x / 2, n - 1); }
  }

  /** The loop counts the digits that are one. */
  lemma {:induction false} OnesCount(x: nat, n: nat)
    ensures Ones(x, n) == |SetDigits(x, n)|
  {
    if n == 0 {
      assert SetDigits(x, n) == {};
    } else {
      OnesTop(x, n - 1);
      OnesCount(x, n - 1);
      hide Bit, Ones;
      assert SetDigits(x, n) == SetDigits(x, n - 1) + if Bit(x, n - 1) then {n - 1} else {};
    }
  }

  predicate EvenParity(value: Byte) { Ones(value, 8) % 2 == 0 }

  function CompareFlags(lhs: U64, rhs: U64, width: Byte): Option<ArithmeticFlags> {
    var mask := WidthMask(width);
    if mask == 0 then None
    else
      var l, r := BitAnd(lhs, mask), BitAnd(rhs, mask);
      var result := BitAnd((l - r) % TWO_64, mask);
      var signBit := Pow2(8 * width - 1);
      Some(ArithmeticFlags(
             l < r,
             result == 0,
             BitAnd(result, signBit) != 0,
             BitAnd(BitAnd(BitXor(l, r), BitXor(l, result)), signBit) != 0,
             EvenParity(result % 0x100)))
  }

  function TestFlags(lhs: U64, rhs: U64, width: Byte): Option<ArithmeticFlags> {
    var mask := WidthMask(width);
    if mask == 0 then None
    else
      var result := BitAnd(BitAnd(lhs, rhs), mask);
      Some(ArithmeticFlags(false, result == 0, BitAnd(result, Pow2(8 * width - 1)) != 0, false,
                           EvenParity(result % 0x100)))
  }

  // ---- conditions ---------------------------------------------------------------------------------

  datatype Condition =
    | Overflow | NotOverflow | Carry | NotCarry | Zero | NotZero | BelowOrEqual | Above
    | Sign | NotSign | Parity | NotParity | Less | GreaterOrEqual | LessOrEqual | Greater | Unknown

  /** The encoded number of a condition. */
  function ConditionCode(c: Condition): Byte {
    match c
    case Overflow => 0 case NotOverflow => 1 case Carry => 2 case NotCarry => 3
    case Zero => 4 case NotZero => 5 case BelowOrEqual => 6 case Above => 7
    case Sign => 8 case NotSign => 9 case Parity => 10 case NotParity => 11
    case Less => 12 case GreaterOrEqual => 13 case LessOrEqual => 14 case Greater => 15
    case Unknown => 0xff
  }

  function EvaluateCondition(c: Condition, f: ArithmeticFlags): Option<bool> {
    match c
    case Overflow => Some(f.overflow)
    case NotOverflow => Some(!f.overflow)
    case Carry => Some(f.carry)
    case NotCarry => Some(!f.carry)
    case Zero => Some(f.zero)
    case NotZero => Some(!f.zero)
    case BelowOrEqual => Some(f.carry || f.zero)
    case Above => Some(!f.carry && !f.zero)
    case Sign => Some(f.sign)
    case NotSign => Some(!f.sign)
    case Parity => Some(f.parity)
    case NotParity => Some(!f.parity)
    case Less => Some(f.sign != f.overflow)
    case GreaterOrEqual => Some(f.sign == f.overflow)
    case LessOrEqual => Some(f.zero || f.sign != f.overflow)
    case Greater => Some(!f.zero && f.sign == f.overflow)
    case Unknown => None
  }

  /** Conditions whose codes differ in the lowest bit decide opposite ways on all flags. */
  lemma {:induction false} PartnersNegate(c: Condition, d: Condition, f: ArithmeticFlags)
    requires ConditionCode(c) < 16 && ConditionCode(d) == BitXor(ConditionCode(c), 1)
    ensures EvaluateCondition(c, f).Some? && EvaluateCondition(d, f).Some?
    ensures EvaluateCondition(c, f).value == !EvaluateCondition(d, f).value
  {
    XorOne(ConditionCode(c));
  }

  lemma {:induction false} XorOne(x: nat)
    ensures BitXor(x, 1) == if x % 2 == 0 then x + 1 else x - 1
  {
    assert BitXor(x / 2, 0) == x / 2;
  }

  // ---- what the flags mean ----------------------------------------------------------------------------

  /** The value modulo the width. */
  function Low(x: int, width: Byte): (r: nat)
    requires 1 <= width <= 8
    ensures r < Pow2(8 * width)
  {
    x % Pow2(8 * width)
  }

  /** The two's-complement reading of the low bytes. */
  function Signed(x: nat, width: Byte): int
    requires 1 <= width <= 8
  {
    if Low(x, width) >= Pow2(8 * width - 1) then Low(x, width) - Pow2(8 * width) else Low(x, width)
  }

  lemma {:induction false} SignTest(x: nat, width: Byte)
    requires 1 <= width <= 8 && x < Pow2(8 * width)
    ensures BitAnd(x, Pow2(8 * width - 1)) != 0 <==> x >= Pow2(8 * width - 1)
    ensures BitAnd(x, Pow2(8 * width - 1)) != 0 <==> Bit(x, 8 * width - 1)
  {
    SingleBitMask(x, 8 * width - 1);
    TopBit(x, 8 * width - 1);
  }

  lemma {:induction false} OverflowTest(l: nat, r: nat, result: nat, width: Byte)
    requires 1 <= width <= 8 && l < Pow2(8 * width) && r < Pow2(8 * width) && result < Pow2(8 * width)
    ensures var half := Pow2(8 * width - 1);
            BitAnd(BitAnd(BitXor(l, r), BitXor(l, result)), half) != 0 <==>
            (l >= half) != (r >= half) && (l >= half) != (result >= half)
  {
    var k := 8 * width - 1;
    SingleBitMask(BitAnd(BitXor(l, r), BitXor(l, result)), k);
    BitOfAnd(BitXor(l, r), BitXor(l, result), k);
    BitOfXor(l, r, k);
    BitOfXor(l, result, k);
    TopBit(l, k);
    TopBit(r, k);
    TopBit(result, k);
  }

  /** The truncated difference: modulo the width, with the borrow made explicit. */
  lemma {:induction false} Difference(l: nat, r: nat, width: Byte)
    requires 1 <= width <= 8 && l < Pow2(8 * width) && r < Pow2(8 * width)
    ensures BitAnd((l - r) % TWO_64, WidthMask(width)) == Low(l - r, width)
    ensures Low(l - r, width) == if l < r then l - r + Pow2(8 * width) else l - r
  {
    TruncationIsRemainder((l - r) % TWO_64, width);
    LowOfWord(l - r, width);
    DifferenceWraps(l, r, width);
    hide Low, BitAnd, WidthMask, Pow2;
  }

  lemma {:induction false} LowOfWord(x: int, width: Byte)
    requires 1 <= width <= 8
    ensures Low(x % TWO_64, width) == Low(x, width)
  {
    Pow2Values();
    RemainderOfRemainder(x, 8 * width, 64);
  }

  lemma {:induction false} DifferenceWraps(l: nat, r: nat, width: Byte)
    requires 1 <= width <= 8 && l < Pow2(8 * width) && r < Pow2(8 * width)
    ensures Low(l - r, width) == if l < r then l - r + Pow2(8 * width) else l - r
  {
    var m: int, d: int := Pow2(8 * width), l - r;
    hide Pow2;
    if d < 0 {
      QuotientUnique(d, m, -1, d + m);
    } else {
      QuotientUnique(d, m, 0, d);
    }
  }

  lemma {:induction false} LowOfDifference(x: nat, y: nat, width: Byte)
    requires 1 <= width <= 8
    ensures Low(x - y, width) == Low(Low(x, width) - Low(y, width), width)
  {
    var m := Pow2(8 * width);
    var a, b := x / m, y / m;
    var d := x % m - y % m;
    assert x == m * a + x % m && y == m * b + y % m && d == m * (d / m) + d % m;
    assert x - y == (a - b + d / m) * m + d % m by {
      assert (a - b + d / m) * m == m * a - m * b + m * (d / m);
    }
    QuotientUnique(x - y, m, a - b + d / m, d % m);
  }

  /**
   * The flags of a comparison: carry and zero compare the truncated operands as
   * unsigned numbers, sign is the sign of the wrapped difference, overflow says
   * the true signed difference does not fit, parity counts its low byte.
   */
  ghost predicate DescribesComparison(f: ArithmeticFlags, lhs: nat, rhs: nat, width: Byte)
    requires 1 <= width <= 8
  {
    var half: int := Pow2(8 * width - 1);
    && (f.carry <==> Low(lhs, width) < Low(rhs, width))
    && (f.zero <==> Low(lhs, width) == Low(rhs, width))
    && (f.sign <==> Low(lhs - rhs, width) >= half)
    && (f.overflow <==> !(-half <= Signed(lhs, width) - Signed(rhs, width) < half))
    && (f.parity <==> EvenParity(Low(lhs - rhs, width) % 0x100))
  }

  lemma {:induction false} CompareFlagsMean(lhs: U64, rhs: U64, width: Byte)
    requires 1 <= width <= 8
    ensures CompareFlags(lhs, rhs, width).Some?
    ensures DescribesComparison(CompareFlags(lhs, rhs, width).value, lhs, rhs, width)
  {
    hide BitAnd, BitXor, Bit, EvenParity, Low, WidthMask;
    assert Pow2(8 * width) == 2 * Pow2(8 * width - 1);
    hide Pow2;
    TruncationIsRemainder(lhs, width);
    TruncationIsRemainder(rhs, width);
    var l: int, r: int := Low(lhs, width), Low(rhs, width);
    Difference(l, r, width);
    LowOfDifference(lhs, rhs, width);
    SignTest(Low(l - r, width), width);
    OverflowTest(l, r, Low(l - r, width), width);
  }

  function Centred(x: int, half: int): int { if x >= half then x - 2 * half else x }

  /** The sign of a wrapped difference, corrected by overflow, orders the centred operands. */
  lemma {:induction false} SignCorrected(l: int, r: int, difference: int, half: int)
    requires 0 <= l < 2 * half && 0 <= r < 2 * half
    requires difference == if l < r then l - r + 2 * half else l - r
    ensures var exact := Centred(l, half) - Centred(r, half);
            (difference >= half) != !(-half <= exact < half) <==> exact < 0
    ensures l == r <==> Centred(l, half) == Centred(r, half)
  {
  }

  lemma {:induction false} SignedFlags(f: ArithmeticFlags, lhs: nat, rhs: nat, width: Byte)
    requires 1 <= width <= 8 && DescribesComparison(f, lhs, rhs, width)
    ensures (f.carry <==> Low(lhs, width) < Low(rhs, width)) && (f.zero <==> Low(lhs, width) == Low(rhs, width))
    ensures f.sign != f.overflow <==> Signed(lhs, width) < Signed(rhs, width)
    ensures f.zero <==> Signed(lhs, width) == Signed(rhs, width)
  {
    var l: int, r: int, half: int := Low(lhs, width), Low(rhs, width), Pow2(8 * width - 1);
    assert Pow2(8 * width) == 2 * half;
    hide Low, Pow2, EvenParity;
    LowOfDifference(lhs, rhs, width);
    DifferenceWraps(l, r, width);
    SignCorrected(l, r, Low(lhs - rhs, width), half);
    assert Signed(lhs, width) == Centred(l, half) && Signed(rhs, width) == Centred(r, half);
    hide Signed, Centred;
  }

  /** Each comparison condition decides the comparison it is named after. */
  lemma {:induction false} ConditionsCompare(lhs: U64, rhs: U64, width: Byte)
    requires 1 <= width <= 8 && CompareFlags(lhs, rhs, width).Some?
    ensures var f := CompareFlags(lhs, rhs, width).value;
            var l, r := Low(lhs, width), Low(rhs, width);
            && EvaluateCondition(Carry, f) == Some(l < r)
            && EvaluateCondition(BelowOrEqual, f) == Some(l <= r)
            && EvaluateCondition(Above, f) == Some(l > r)
            && EvaluateCondition(Zero, f) == Some(l == r)
            && EvaluateCondition(Less, f) == Some(Signed(lhs, width) < Signed(rhs, width))
            && EvaluateCondition(LessOrEqual, f) == Some(Signed(lhs, width) <= Signed(rhs, width))
            && EvaluateCondition(Greater, f) == Some(Signed(lhs, width) > Signed(rhs, width))
            && EvaluateCondition(GreaterOrEqual, f) == Some(Signed(lhs, width) >= Signed(rhs, width))
  {
    hide CompareFlags, Low, Signed, DescribesComparison;
    CompareFlagsMean(lhs, rhs, width);
    SignedFlags(CompareFlags(lhs, rhs, width).value, lhs, rhs, width);
  }

  /** The other conditions after a compare: the sign, overflow and parity of the difference. */
  lemma {:induction false} ConditionsOfDifference(lhs: U64, rhs: U64, width: Byte)
    requires 1 <= width <= 8 && CompareFlags(lhs, rhs, width).Some?
    ensures var f := CompareFlags(lhs, rhs, width).value;
            var half: int := Pow2(8 * width - 1);
            && EvaluateCondition(Sign, f) == Some(Low(lhs - rhs, width) >= half)
            && EvaluateCondition(Overflow, f) == Some(!(-half <= Signed(lhs, width) - Signed(rhs, width) < half))
            && EvaluateCondition(Parity, f) == Some(Ones(Low(lhs - rhs, width) % 0x100, 8) % 2 == 0)
  {
    hide CompareFlags, Low, Signed, Pow2, Ones;
    CompareFlagsMean(lhs, rhs, width);
  }

  /** The flags a test leaves: no carry or overflow, zero when no digit is shared, sign from the top digit. */
  ghost predicate DescribesTest(f: ArithmeticFlags, lhs: nat, rhs: nat, width: Byte)
    requires 1 <= width <= 8
  {
    && !f.carry && !f.overflow
    && (f.zero <==> Disjoint(lhs, rhs, 8 * width))
    && (f.sign <==> Bit(lhs, 8 * width - 1) && Bit(rhs, 8 * width - 1))
    && (f.parity <==> EvenParity(BitAnd(lhs, rhs) % 0x100))
  }

  /** What the conditions decide after a test. */
  lemma {:induction false} ConditionsTest(lhs: U64, rhs: U64, width: Byte)
    requires 1 <= width <= 8 && TestFlags(lhs, rhs, width).Some?
    ensures var f := TestFlags(lhs, rhs, width).value;
            var zero, sign := Disjoint(lhs, rhs, 8 * width), Bit(lhs, 8 * width - 1) && Bit(rhs, 8 * width - 1);
            && EvaluateCondition(Zero, f) == Some(zero) && EvaluateCondition(BelowOrEqual, f) == Some(zero)
            && EvaluateCondition(Sign, f) == Some(sign) && EvaluateCondition(Less, f) == Some(sign)
            && EvaluateCondition(LessOrEqual, f) == Some(zero || sign)
            && EvaluateCondition(Carry, f) == Some(false) && EvaluateCondition(Overflow, f) == Some(false)
  {
    hide TestFlags, Disjoint, Bit, EvenParity;
    TestFlagsMean(lhs, rhs, width);
  }

  lemma {:induction false} TestFlagsMean(lhs: U64, rhs: U64, width: Byte)
    requires 1 <= width <= 8
    ensures TestFlags(lhs, rhs, width).Some?
    ensures DescribesTest(TestFlags(lhs, rhs, width).value, lhs, rhs, width)
  {
    hide BitAnd, Bit, EvenParity, WidthMask, Disjoint;
    var n := 8 * width;
    var both := BitAnd(lhs, rhs);
    TruncationIsRemainder(both, width);
    SingleBitMask(Low(both, width), n - 1);
    BitOfRemainder(both, n, n - 1);
    BitOfAnd(lhs, rhs, n - 1);
    SharedBits(lhs, rhs, n);
    LowByte(both, width);
    hide Pow2;
  }

  lemma {:induction false} LowByte(x: nat, width: Byte)
    requires 1 <= width <= 8
    ensures Low(x, width) % 0x100 == x % 0x100
  {
    Pow2Values();
    RemainderOfRemainder(x, 8, 8 * width);
  }

  ghost predicate Disjoint(x: nat, y: nat, n: nat) { forall k: nat :: k < n ==> !(Bit(x, k) && Bit(y, k)) }

  lemma {:induction false} SharedBits(x: nat, y: nat, n: nat)
    ensures BitAnd(x, y) % Pow2(n) == 0 <==> Disjoint(x, y, n)
  {
    var both := BitAnd(x, y);
    DigitsDetermine(both, 0, n);
    SmallRemainder(0, n);
    forall k: nat ensures (Bit(both, k) <==> Bit(x, k) && Bit(y, k)) && !Bit(0, k) {
      BitOfAnd(x, y, k);
      BitOfZero(k);
    }
    assert SameDigits(both, 0, n) ==> Disjoint(x, y, n) by {
      if SameDigits(both, 0, n) {
        forall k: nat | k < n ensures !(Bit(x, k) && Bit(y, k)) {
          assert Bit(both, k) <==> Bit(0, k);
        }
      }
    }
  }
}
