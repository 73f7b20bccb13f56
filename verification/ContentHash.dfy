/**
 * The 64-bit FNV-1a content hash. Runs of zero words are skipped and applied at
 * once as a power of the prime by repeated squaring modulo 2^64; the result is
 * the byte-at-a-time hash for every starting value and every byte vector.
 */
module ContentHash {
  import opened Words
  import opened Bits

  const FNV_PRIME: U64 := 1099511628211

  function HashByte(hash: U64, value: Byte): U64 { (BitXor(hash, value) * FNV_PRIME) % TWO_64 }

  /** One byte at a time. */
  function Fnv(hash: U64, bytes: Bytes): U64
    decreases |bytes|
  {
    if bytes == [] then hash else Fnv(HashByte(hash, bytes[0]), bytes[1..])
  }

  /** A machine word read from the bytes. */
  function Word(bytes: Bytes): nat {
    if bytes == [] then 0 else bytes[0] + 0x100 * Word(bytes[1..])
  }

  ghost predicate AllZero(bytes: Bytes) { forall i :: 0 <= i < |bytes| ==> bytes[i] == 0 }

  lemma {:induction false} WordZero(bytes: Bytes)
    ensures Word(bytes) == 0 <==> AllZero(bytes)
  {
    if bytes != [] {
      WordZero(bytes[1..]);
      assert AllZero(bytes) <==> bytes[0] == 0 && AllZero(bytes[1..]) by {
        assert bytes == [bytes[0]] + bytes[1..];
      }
    }
  }

  lemma {:induction false} FnvAppend(hash: U64, a: Bytes, b: Bytes)
    ensures Fnv(hash, a + b) == Fnv(Fnv(hash, a), b)
    decreases |a|
  {
    hide HashByte;
    if a == [] {
      assert a + b == b;
    } else {
      assert (a + b)[1..] == a[1..] + b;
      FnvAppend(HashByte(hash, a[0]), a[1..], b);
    }
  }

  // ---- powers modulo 2^64 -----------------------------------------------------------------------------

  function Power(base: nat, n: nat): nat { if n == 0 then 1 else base * Power(base, n - 1) }

  ghost predicate Congruent(a: nat, b: nat) { a % TWO_64 == b % TWO_64 }

  lemma {:induction false} ReduceFactor(a: nat, b: nat)
    ensures Congruent((a % TWO_64) * b, a * b)
  {
    var m := TWO_64;
    var q, r := a / m, a % m;
    assert a == m * q + r;
    var s := r * b;
    assert a * b == (q * b) * m + s by {
      assert (m * q + r) * b == m * q * b + r * b;
      assert m * q * b == (q * b) * m;
    }
    assert s == m * (s / m) + s % m;
    assert (q * b + s / m) * m == (q * b) * m + m * (s / m);
    QuotientUnique(a * b, m, q * b + s / m, s % m);
  }

  lemma {:induction false} CongruentProduct(a: nat, b: nat, c: nat)
    requires Congruent(a, b)
    ensures Congruent(a * c, b * c)
  {
    ReduceFactor(a, c);
    ReduceFactor(b, c);
  }

  lemma {:induction false} CongruentPower(a: nat, b: nat, n: nat)
    requires Congruent(a, b)
    ensures Congruent(Power(a, n), Power(b, n))
  {
    hide Congruent;
    if n > 0 {
      CongruentPower(a, b, n - 1);
      CongruentProducts(a, b, Power(a, n - 1), Power(b, n - 1));
    } else {
      CongruentReflexive(1);
    }
  }

  lemma {:induction false} CongruentTransitive(a: nat, b: nat, c: nat)
    requires Congruent(a, b) && Congruent(b, c)
    ensures Congruent(a, c)
  {
  }

  lemma {:induction false} CongruentReflexive(a: nat)
    ensures Congruent(a, a)
  {
  }

  lemma {:induction false} PowerSum(base: nat, a: nat, b: nat)
    ensures Power(base, a + b) == Power(base, a) * Power(base, b)
  {
    if a > 0 {
      PowerSum(base, a - 1, b);
      var x, y := Power(base, a - 1), Power(base, b);
      assert Power(base, a + b) == base * Power(base, a - 1 + b) && Power(base, a) == base * x;
      hide Power;
      assert base * (x * y) == (base * x) * y;
    }
  }

  /** Squaring the base halves the exponent. */
  lemma {:induction false} PowerSquare(base: nat, n: nat)
    ensures Power(base * base, n) == Power(base, 2 * n)
  {
    if n > 0 {
      PowerSquare(base, n - 1);
      PowerSum(base, 2, 2 * (n - 1));
      assert Power(base, 2) == base * base by { assert Power(base, 1) == base; }
    }
  }

  lemma {:induction false} PowerPower(base: nat, k: nat, n: nat)
    ensures Power(Power(base, k), n) == Power(base, k * n)
  {
    if n > 0 {
      PowerPower(base, k, n - 1);
      assert k * n == k + k * (n - 1);
      PowerSum(base, k, k * (n - 1));
    }
  }

  /** Zero bytes only multiply: a run of n multiplies by P^n. */
  lemma {:induction false} ZeroRun(hash: U64, bytes: Bytes)
    requires AllZero(bytes)
    ensures Fnv(hash, bytes) == (hash * Power(FNV_PRIME, |bytes|)) % TWO_64
    decreases |bytes|
  {
    if bytes == [] {
      assert Power(FNV_PRIME, 0) == 1;
    } else {
      var p := Power(FNV_PRIME, |bytes| - 1);
      assert BitXor(hash, 0) == hash;
      var next := HashByte(hash, bytes[0]);
      assert next == (hash * FNV_PRIME) % TWO_64;
      hide HashByte, BitXor;
      ZeroRun(next, bytes[1..]);
      OneMoreFactor(hash, FNV_PRIME, p);
      assert Power(FNV_PRIME, |bytes|) == FNV_PRIME * p;
      hide Power;
    }
  }

  lemma {:induction false} OneMoreFactor(a: nat, b: nat, c: nat)
    ensures (((a * b) % TWO_64) * c) % TWO_64 == (a * (b * c)) % TWO_64
  {
    ReduceFactor(a * b, c);
    assert (a * b) * c == a * (b * c);
  }

  // ---- the fast form ------------------------------------------------------------------------------------

  method ZeroByteMultiplier(count: nat) returns (multiplier: U64)
    ensures multiplier == Power(FNV_PRIME, count) % TWO_64
  {
    multiplier := 1;
    var i := 0;
    while i < count
      invariant 0 <= i <= count && multiplier == Power(FNV_PRIME, i) % TWO_64
    {
      ReduceFactor(Power(FNV_PRIME, i), FNV_PRIME);
      assert Power(FNV_PRIME, i + 1) == Power(FNV_PRIME, i) * FNV_PRIME;
      multiplier := (multiplier * FNV_PRIME) % TWO_64;
      i := i + 1;
    }
  }

  /** Multiply by a power, squaring the multiplier once per exponent bit. */
  method MultiplyPower(start: U64, base: U64, count: nat) returns (hash: U64)
    ensures hash == (start * Power(base, count)) % TWO_64
  {
    hash := start;
    var words: nat, multiplier: U64 := count, base;
    while words != 0
      invariant Congruent(hash * Power(multiplier, words), start * Power(base, count))
    {
      SquareStep(hash, multiplier, words);
      if words % 2 == 1 {
        hash := (hash * multiplier) % TWO_64;
      }
      multiplier := (multiplier * multiplier) % TWO_64;
      words := words / 2;
    }
  }

  /** One round of the loop: the product of the hash and the pending power is kept modulo 2^64. */
  lemma {:induction false} SquareStep(hash: U64, multiplier: U64, words: nat)
    requires words != 0
    ensures Congruent(hash * Power(multiplier, words),
                      (if words % 2 == 1 then (hash * multiplier) % TWO_64 else hash) *
                      Power((multiplier * multiplier) % TWO_64, words / 2))
  {
    HalveExponent(hash, multiplier, words);
    var product: nat, square: nat := hash * multiplier, multiplier * multiplier;
    if words % 2 == 1 {
      Reduced(product);
      KeptModulo(product, product % TWO_64, square, words / 2);
    } else {
      CongruentReflexive(hash);
      KeptModulo(hash, hash, square, words / 2);
    }
    hide Congruent, Power;
  }

  lemma {:induction false} KeptModulo(h: nat, reduced: nat, square: nat, half: nat)
    requires Congruent(reduced, h)
    ensures Congruent(h * Power(square, half), reduced * Power(square % TWO_64, half))
  {
    Reduced(square);
    CongruentPower(square % TWO_64, square, half);
    CongruentProducts(reduced, h, Power(square % TWO_64, half), Power(square, half));
  }

  lemma {:induction false} Reduced(a: nat)
    ensures Congruent(a % TWO_64, a)
  {
  }

  lemma {:induction false} CongruentProducts(a: nat, b: nat, c: nat, d: nat)
    requires Congruent(a, b) && Congruent(c, d)
    ensures Congruent(a * c, b * d)
  {
    CongruentProduct(a, b, c);
    CongruentProduct(c, d, b);
    hide Congruent;
    assert b * c == c * b && b * d == d * b;
    CongruentTransitive(a * c, b * c, b * d);
  }

  lemma {:induction false} HalveExponent(hash: nat, multiplier: nat, words: nat)
    ensures hash * Power(multiplier, words) ==
            (if words % 2 == 1 then hash * multiplier else hash) * Power(multiplier * multiplier, words / 2)
  {
    var half := words / 2;
    PowerSquare(multiplier, half);
    if words % 2 == 1 {
      var p := Power(multiplier, 2 * half);
      assert words == 2 * half + 1 && Power(multiplier, words) == multiplier * p;
      assert hash * (multiplier * p) == (hash * multiplier) * p;
    } else {
      assert words == 2 * half;
    }
  }

  method HashBytes(start: U64, bytes: Bytes) returns (hash: U64)
    ensures hash == Fnv(start, bytes)
  {
    hash := start;
    var offset := 0;
    while |bytes| - offset >= 8
      invariant 0 <= offset <= |bytes| && hash == Fnv(start, bytes[..offset])
    {
      if Word(bytes[offset..offset + 8]) == 0 {
        var begin := offset;
        offset := SkipZeroWords(bytes, begin);
        var words := (offset - begin) / 8;
        var multiplier := ZeroByteMultiplier(8);
        ghost var before := hash;
        hash := MultiplyPower(hash, multiplier, words);
        ZeroWords(before, bytes[begin..offset], multiplier, words);
        assert bytes[..offset] == bytes[..begin] + bytes[begin..offset];
        FnvAppend(start, bytes[..begin], bytes[begin..offset]);
      } else {
        var i := 0;
        while i < 8
          invariant 0 <= i <= 8 && hash == Fnv(start, bytes[..offset + i])
        {
          HashNext(start, bytes, offset + i);
          hash := HashByte(hash, bytes[offset + i]);
          i := i + 1;
        }
        offset := offset + 8;
      }
    }
    while offset < |bytes|
      invariant 0 <= offset <= |bytes| && hash == Fnv(start, bytes[..offset])
    {
      HashNext(start, bytes, offset);
      hash := HashByte(hash, bytes[offset]);
      offset := offset + 1;
    }
    assert bytes[..|bytes|] == bytes;
  }

  lemma {:induction false} HashNext(start: U64, bytes: Bytes, i: nat)
    requires i < |bytes|
    ensures Fnv(start, bytes[..i + 1]) == HashByte(Fnv(start, bytes[..i]), bytes[i])
  {
    assert bytes[..i + 1] == bytes[..i] + [bytes[i]];
    FnvAppend(start, bytes[..i], [bytes[i]]);
    hide HashByte;
    assert Fnv(HashByte(Fnv(start, bytes[..i]), bytes[i]), []) == HashByte(Fnv(start, bytes[..i]), bytes[i]);
  }

  /** The end of the longest run of zero words that starts at `begin`. */
  method SkipZeroWords(bytes: Bytes, begin: nat) returns (offset: nat)
    requires begin + 8 <= |bytes| && Word(bytes[begin..begin + 8]) == 0
    ensures begin < offset <= |bytes| && (offset - begin) % 8 == 0 && AllZero(bytes[begin..offset])
    ensures offset + 8 <= |bytes| ==> !AllZero(bytes[offset..offset + 8])
  {
    WordZero(bytes[begin..begin + 8]);
    offset := begin + 8;
    while |bytes| - offset >= 8 && Word(bytes[offset..offset + 8]) == 0
      invariant begin < offset <= |bytes| && (offset - begin) % 8 == 0 && AllZero(bytes[begin..offset])
    {
      WordZero(bytes[offset..offset + 8]);
      assert bytes[begin..offset + 8] == bytes[begin..offset] + bytes[offset..offset + 8];
      offset := offset + 8;
    }
    if offset + 8 <= |bytes| {
      WordZero(bytes[offset..offset + 8]);
    }
  }

  lemma {:induction false} ZeroWords(hash: U64, zeros: Bytes, multiplier: U64, words: nat)
    requires AllZero(zeros) && |zeros| == 8 * words && multiplier == Power(FNV_PRIME, 8) % TWO_64
    ensures Fnv(hash, zeros) == (hash * Power(multiplier, words)) % TWO_64
  {
    hide Power, Congruent, Fnv;
    var eight := Power(FNV_PRIME, 8);
    ZeroRun(hash, zeros);
    PowerPower(FNV_PRIME, 8, words);
    Reduced(eight);
    CongruentPower(multiplier, eight, words);
    CongruentReflexive(hash);
    CongruentProducts(hash, hash, Power(multiplier, words), Power(eight, words));
    SameRemainder(hash * Power(multiplier, words), hash * Power(eight, words));
  }

  lemma {:induction false} SameRemainder(a: nat, b: nat)
    requires Congruent(a, b)
    ensures a % TWO_64 == b % TWO_64
  {
  }
}
