/**
 * What the content hash detects: whatever the rest of the image, changing any one
 * byte changes the hash, because each byte's step can be undone.
 */
module HashDetection {
  import opened Words
  import opened Bits
  import opened ContentHash

  /** The prime's inverse modulo 2^64. */
  const FNV_INVERSE: U64 := 0xCE96_5057_AFF6_957B

  // ---- exclusive or -----------------------------------------------------------------------------------

  /** Applying the same exclusive or twice gives the number back. */
  lemma {:induction false} XorTwice(x: nat, y: nat)
    ensures BitXor(BitXor(x, y), y) == x
  {
    if x == 0 {
      XorSelf(y);
    } else if y != 0 {
      XorTwice(x / 2, y / 2);
      var z := BitXor(x, y);
      assert z / 2 == BitXor(x / 2, y / 2) && z % 2 == if x % 2 != y % 2 then 1 else 0;
      XorStep(z, y);
    }
  }

  lemma {:induction false} XorStep(x: nat, y: nat)
    ensures BitXor(x, y) == (if x % 2 != y % 2 then 1 else 0) + 2 * BitXor(x / 2, y / 2)
  {
  }

  lemma {:induction false} XorSelf(y: nat)
    ensures BitXor(y, y) == 0
  {
    if y != 0 {
      XorSelf(y / 2);
    }
  }

  lemma {:induction false} XorCommutes(x: nat, y: nat)
    ensures BitXor(x, y) == BitXor(y, x)
  {
    if x != 0 && y != 0 {
      XorCommutes(x / 2, y / 2);
    }
  }

  lemma {:induction false} XorBound(x: nat, y: nat, n: nat)
    requires x < Pow2(n) && y < Pow2(n)
    ensures BitXor(x, y) < Pow2(n)
  {
    if n > 0 {
      XorBound(x / 2, y / 2, n - 1);
      XorStep(x, y);
    }
  }

  // ---- multiplication by the prime ---------------------------------------------------------------------

  lemma {:induction false} ProductWithInverse(a: nat, k: nat, m: nat)
    requires a < m
    ensures (a * (1 + k * m)) % m == a
  {
    assert a * (1 + k * m) == (a * k) * m + a by {
      assert a * (1 + k * m) == a + a * (k * m);
      assert a * (k * m) == (a * k) * m;
    }
    QuotientUnique(a * (1 + k * m), m, a * k, a);
  }

  /** A word is recovered from its product with the prime. */
  lemma {:induction false} MultipliedBack(a: U64)
    ensures (((a * FNV_PRIME) % TWO_64) * FNV_INVERSE) % TWO_64 == a
  {
    ReduceFactor(a * FNV_PRIME, FNV_INVERSE);
    assert FNV_PRIME * FNV_INVERSE == 1 + 887285111055 * TWO_64;
    assert (a * FNV_PRIME) * FNV_INVERSE == a * (FNV_PRIME * FNV_INVERSE);
    ProductWithInverse(a, 887285111055, TWO_64);
  }

  // ---- one byte ---------------------------------------------------------------------------------------------

  /** The step of a byte, undone. */
  function Unhash(hash: U64, value: Byte): nat { BitXor((hash * FNV_INVERSE) % TWO_64, value) }

  lemma {:induction false} Undone(hash: U64, value: Byte)
    ensures Unhash(HashByte(hash, value), value) == hash
    ensures BitXor(hash, value) < TWO_64
    ensures (HashByte(hash, value) * FNV_INVERSE) % TWO_64 == BitXor(hash, value)
  {
    assert Pow2(64) == TWO_64 by { Pow2Values(); }
    hide Pow2;
    XorBound(hash, value, 64);
    XorTwice(hash, value);
    hide BitXor;
    MultipliedBack(BitXor(hash, value));
  }

  /** Different hashes stay different under the same byte, and different bytes make one hash differ. */
  lemma {:induction false} ByteDistinguishes(hash: U64, other: U64, value: Byte, changed: Byte)
    ensures HashByte(hash, value) == HashByte(other, value) ==> hash == other
    ensures HashByte(hash, value) == HashByte(hash, changed) ==> value == changed
  {
    Undone(hash, value);
    Undone(other, value);
    Undone(hash, changed);
    XorTwice(value, hash);
    XorTwice(changed, hash);
    XorCommutes(hash, value);
    XorCommutes(hash, changed);
    hide HashByte, BitXor;
  }

  // ---- whole images -------------------------------------------------------------------------------------------

  /** The same bytes take different hashes to different hashes. */
  lemma {:induction false} SameBytesInjective(hash: U64, other: U64, bytes: Bytes)
    requires Fnv(hash, bytes) == Fnv(other, bytes)
    ensures hash == other
    decreases |bytes|
  {
    hide HashByte;
    if bytes != [] {
      SameBytesInjective(HashByte(hash, bytes[0]), HashByte(other, bytes[0]), bytes[1..]);
      ByteDistinguishes(hash, other, bytes[0], bytes[0]);
    }
  }

  /** Changing one byte of an image changes its hash, from every starting hash. */
  lemma {:induction false} OneByteDetected(hash: U64, bytes: Bytes, i: nat, changed: Byte)
    requires i < |bytes| && changed != bytes[i]
    ensures Fnv(hash, bytes[i := changed]) != Fnv(hash, bytes)
  {
    hide HashByte;
    var front, value, rest := bytes[..i], bytes[i], bytes[i + 1..];
    assert bytes == front + ([value] + rest) && bytes[i := changed] == front + ([changed] + rest);
    FnvAppend(hash, front, [value] + rest);
    FnvAppend(hash, front, [changed] + rest);
    var h := Fnv(hash, front);
    assert Fnv(h, [value] + rest) == Fnv(HashByte(h, value), rest) by { assert ([value] + rest)[1..] == rest; }
    assert Fnv(h, [changed] + rest) == Fnv(HashByte(h, changed), rest) by { assert ([changed] + rest)[1..] == rest; }
    hide Fnv;
    if Fnv(hash, bytes[i := changed]) == Fnv(hash, bytes) {
      SameBytesInjective(HashByte(h, value), HashByte(h, changed), rest);
      ByteDistinguishes(h, h, value, changed);
    }
  }
}
