/**
 * Bitwise arithmetic on unbounded naturals by recursion on the binary digits,
 * with the facts that tie it to remainders modulo powers of two.
 */
module Bits {
  import opened Words

  function Pow2(n: nat): (p: nat)
    ensures p >= 1
  {
    if n == 0 then 1 else 2 * Pow2(n - 1)
  }

  predicate Bit(x: nat, k: nat) { if k == 0 then x % 2 == 1 else Bit(x / 2, k - 1) }

  function BitAnd(x: nat, y: nat): (r: nat)
    ensures r <= x && r <= y
  {
    if x == 0 || y == 0 then 0 else (if x % 2 == 1 && y % 2 == 1 then 1 else 0) + 2 * BitAnd(x / 2, y / 2)
  }

  function BitOr(x: nat, y: nat): nat {
    if x == 0 then y else if y == 0 then x
    else (if x % 2 == 1 || y % 2 == 1 then 1 else 0) + 2 * BitOr(x / 2, y / 2)
  }

  function BitXor(x: nat, y: nat): nat {
    if x == 0 then y else if y == 0 then x
    else (if x % 2 != y % 2 then 1 else 0) + 2 * BitXor(x / 2, y / 2)
  }

  // ---- the binary digits of results -------------------------------------------------------------

  lemma {:induction false} BitOfZero(k: nat)
    ensures !Bit(0, k)
  {
    if k > 0 { BitOfZero(k - 1); }
  }

  lemma {:induction false} BitOfAnd(x: nat, y: nat, k: nat)
    ensures Bit(BitAnd(x, y), k) <==> Bit(x, k) && Bit(y, k)
  {
    BitOfZero(k);
    if x != 0 && y != 0 && k > 0 { BitOfAnd(x / 2, y / 2, k - 1); }
  }

  lemma {:induction false} BitOfOr(x: nat, y: nat, k: nat)
    ensures Bit(BitOr(x, y), k) <==> Bit(x, k) || Bit(y, k)
  {
    BitOfZero(k);
    if x != 0 && y != 0 && k > 0 { BitOfOr(x / 2, y / 2, k - 1); }
  }

  lemma {:induction false} BitOfXor(x: nat, y: nat, k: nat)
    ensures Bit(BitXor(x, y), k) <==> Bit(x, k) != Bit(y, k)
  {
    BitOfZero(k);
    if x != 0 && y != 0 && k > 0 { BitOfXor(x / 2, y / 2, k - 1); }
  }

  // ---- remainders ---------------------------------------------------------------------------------

  /** A multiple of d other than zero is at least d away from zero. */
  lemma {:induction false} LargeMultiple(k: int, d: int)
    requires d > 0
    ensures k >= 1 ==> k * d >= d
    ensures k <= -1 ==> k * d <= -d
  {
  }

  lemma {:induction false} QuotientUnique(x: int, d: int, q: int, r: int)
    requires d > 0 && x == q * d + r && 0 <= r < d
    ensures x / d == q && x % d == r
  {
    var q2, r2 := x / d, x % d;
    var k := q2 - q;
    assert k * d == q2 * d - q * d;
    LargeMultiple(k, d);
  }

  lemma {:induction false} ModStep(x: nat, n: nat)
    ensures x % Pow2(n + 1) == x % 2 + 2 * ((x / 2) % Pow2(n))
  {
    var p := Pow2(n);
    var q, r := (x / 2) / p, (x / 2) % p;
    assert x / 2 == p * q + r;
    assert x == 2 * (p * q + r) + x % 2;
    assert 2 * (p * q) == q * (2 * p);
    QuotientUnique(x, 2 * p, q, 2 * r + x % 2);
  }

  lemma {:induction false} AndOdd(x: nat, half: nat)
    ensures BitAnd(x, 2 * half + 1) == x % 2 + 2 * BitAnd(x / 2, half)
  {
  }

  lemma {:induction false} Pow2Step(n: nat)
    requires n > 0
    ensures Pow2(n) == 2 * Pow2(n - 1) && Pow2(n) - 1 == 2 * (Pow2(n - 1) - 1) + 1
  {
  }

  ghost function Remainder(x: nat, n: nat): nat { x % Pow2(n) }

  lemma {:induction false} RemainderStep(x: nat, n: nat)
    ensures Remainder(x, 0) == 0 && Remainder(x, n + 1) == x % 2 + 2 * Remainder(x / 2, n)
  {
    ModStep(x, n);
  }

  lemma {:induction false} MaskDigits(x: nat, n: nat)
    ensures BitAnd(x, Pow2(n) - 1) == Remainder(x, n)
  {
    hide BitAnd, Remainder;
    if n > 0 {
      Pow2Step(n);
      AndOdd(x, Pow2(n - 1) - 1);
      MaskDigits(x / 2, n - 1);
      RemainderStep(x, n - 1);
    } else {
      RemainderStep(x, 0);
      assert BitAnd(x, 0) <= 0;
    }
  }

  /** Masking with n ones is the remainder modulo 2^n. */
  lemma {:induction false} MaskIsRemainder(x: nat, n: nat)
    ensures BitAnd(x, Pow2(n) - 1) == x % Pow2(n)
  {
    hide BitAnd;
    MaskDigits(x, n);
  }

  lemma {:induction false} BitOfRemainder(x: nat, n: nat, k: nat)
    ensures Bit(x % Pow2(n), k) <==> k < n && Bit(x, k)
  {
    if n == 0 {
      BitOfZero(k);
    } else {
      ModStep(x, n - 1);
      var y := x % Pow2(n);
      assert y / 2 == (x / 2) % Pow2(n - 1) && y % 2 == x % 2;
      if k > 0 { BitOfRemainder(x / 2, n - 1, k - 1); }
    }
  }

  ghost predicate SameDigits(x: nat, y: nat, n: nat) { forall k: nat :: k < n ==> (Bit(x, k) <==> Bit(y, k)) }

  lemma {:induction false} SameDigitsSameRemainder(x: nat, y: nat, n: nat)
    requires SameDigits(x, y, n)
    ensures x % Pow2(n) == y % Pow2(n)
  {
    if n == 0 {
      assert Pow2(n) == 1;
    } else {
      assert Bit(x, 0) <==> Bit(y, 0);
      forall k: nat | k < n - 1 ensures Bit(x / 2, k) <==> Bit(y / 2, k) {
        assert Bit(x, k + 1) <==> Bit(y, k + 1);
      }
      SameDigitsSameRemainder(x / 2, y / 2, n - 1);
      ModStep(x, n - 1);
      ModStep(y, n - 1);
    }
  }

  /** Equal remainders modulo 2^n are exactly equal lowest n digits. */
  lemma {:induction false} DigitsDetermine(x: nat, y: nat, n: nat)
    ensures x % Pow2(n) == y % Pow2(n) <==> SameDigits(x, y, n)
  {
    if x % Pow2(n) == y % Pow2(n) {
      forall k: nat | k < n ensures Bit(x, k) <==> Bit(y, k) {
        BitOfRemainder(x, n, k);
        BitOfRemainder(y, n, k);
      }
    }
    if SameDigits(x, y, n) {
      SameDigitsSameRemainder(x, y, n);
    }
  }

  lemma {:induction false} SmallRemainder(x: nat, n: nat)
    requires x < Pow2(n)
    ensures x % Pow2(n) == x
  {
    QuotientUnique(x, Pow2(n), 0, x);
  }

  /** The highest digit of an (n+1)-digit number. */
  lemma {:induction false} TopBit(x: nat, n: nat)
    requires x < Pow2(n + 1)
    ensures Bit(x, n) <==> x >= Pow2(n)
  {
    if n > 0 { TopBit(x / 2, n - 1); }
  }

  /** Masking with a single one asks for that digit. */
  lemma {:induction false} SingleBitMask(x: nat, k: nat)
    ensures BitAnd(x, Pow2(k)) != 0 <==> Bit(x, k)
  {
    BitOfZero(k);
    if k > 0 {
      SingleBitMask(x / 2, k - 1);
      assert Pow2(k) / 2 == Pow2(k - 1) && Pow2(k) % 2 == 0;
    }
  }

  lemma {:induction false} ShiftedBit(x: nat, s: nat, k: nat)
    ensures Bit(x * Pow2(s), k) <==> k >= s && Bit(x, k - s)
  {
    if s > 0 {
      assert x * Pow2(s) == 2 * (x * Pow2(s - 1));
      if k > 0 { ShiftedBit(x, s - 1, k - 1); }
    }
  }

  lemma {:induction false} Pow2Sum(a: nat, b: nat)
    ensures Pow2(a + b) == Pow2(a) * Pow2(b)
  {
    if a > 0 {
      Pow2Sum(a - 1, b);
      assert 2 * Pow2(a - 1) * Pow2(b) == Pow2(a) * Pow2(b);
    }
  }

  lemma {:induction false} Pow2Values()
    ensures Pow2(8) == 0x100 && Pow2(16) == 0x1_0000 && Pow2(32) == TWO_32 && Pow2(64) == TWO_64
  {
    assert Pow2(4) == 16;
    Pow2Sum(4, 4);
    Pow2Sum(8, 8);
    Pow2Sum(16, 16);
    Pow2Sum(32, 32);
  }

  lemma {:induction false} Pow2Monotone(a: nat, b: nat)
    requires a <= b
    ensures Pow2(a) <= Pow2(b)
  {
    if a < b { Pow2Monotone(a, b - 1); }
  }

  lemma {:induction false} RemainderOfMultiple(x: int, p: int, k: int)
    requires p > 0 && k > 0
    ensures p * k > 0 && (x % (p * k)) % p == x % p
  {
    assert p * k > 0;
    var q, y := x / (p * k), x % (p * k);
    assert x == (p * k) * q + y;
    assert (p * k) * q == (k * q) * p;
    var z := y / p;
    assert y == p * z + y % p;
    assert (k * q + z) * p == (k * q) * p + p * z;
    QuotientUnique(x, p, k * q + z, y % p);
  }

  /** Taking the remainder modulo a higher power first loses nothing below. */
  lemma {:induction false} RemainderOfRemainder(x: int, a: nat, b: nat)
    requires a <= b
    ensures (x % Pow2(b)) % Pow2(a) == x % Pow2(a)
  {
    Pow2Sum(a, b - a);
    RemainderOfMultiple(x, Pow2(a), Pow2(b - a));
  }
}
