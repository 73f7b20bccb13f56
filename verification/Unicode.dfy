/**
 * The ledger's UTF-16 and UTF-32 validators accept exactly the encodings of
 * sequences of Unicode scalars, in either byte order; surrogate pairs are those of
 * sections 2.1 and 2.2 of RFC 2781.
 */
module Unicode {
  import opened Words
  import opened Facts
  import opened Text

  // ---- code units ---------------------------------------------------------------------------------------

  function Unit16(u: U16, littleEndian: bool): Bytes {
    if littleEndian then [u % 0x100, u / 0x100] else [u / 0x100, u % 0x100]
  }

  function Unit32(u: U32, littleEndian: bool): Bytes {
    if littleEndian then [u % 0x100, u / 0x100 % 0x100, u / 0x1_0000 % 0x100, u / 0x100_0000]
    else [u / 0x100_0000, u / 0x1_0000 % 0x100, u / 0x100 % 0x100, u % 0x100]
  }

  lemma {:induction false} UnitIs16(b: Bytes, offset: nat, littleEndian: bool)
    requires offset + 2 <= |b|
    ensures var first: int, second: int := b[offset], b[offset + 1];
            Unit(b, offset, 2, littleEndian) == if littleEndian then first + 0x100 * second else 0x100 * first + second
  {
    assert Unit(b, offset + 1, 1, true) == b[offset + 1] by { assert Unit(b, offset + 2, 0, true) == 0; }
    assert Unit(b, offset, 1, false) == b[offset] by { assert Unit(b, offset, 0, false) == 0; }
  }

  /** Four bytes, the lowest first. */
  function Joined(a: int, b: int, c: int, d: int): int { a + 0x100 * (b + 0x100 * (c + 0x100 * d)) }

  lemma {:induction false} UnitIs32(b: Bytes, littleEndian: bool)
    requires 4 <= |b|
    ensures Unit(b, 0, 4, littleEndian) ==
            if littleEndian then Joined(b[0], b[1], b[2], b[3]) else Joined(b[3], b[2], b[1], b[0])
  {
    if littleEndian {
      UnitIs16(b, 2, true);
      assert Unit(b, 1, 3, true) == b[1] + 0x100 * Unit(b, 2, 2, true);
    } else {
      UnitIs16(b, 0, false);
      assert Unit(b, 0, 3, false) == b[2] + 0x100 * Unit(b, 0, 2, false);
    }
  }

  /** Two bytes are the unit they are read as. */
  lemma {:induction false} UnitWritten16(b: Bytes, offset: nat, littleEndian: bool, u: U16)
    requires offset + 2 <= |b|
    ensures Unit(b, offset, 2, littleEndian) == u <==> b[offset..offset + 2] == Unit16(u, littleEndian)
  {
    UnitIs16(b, offset, littleEndian);
    hide Unit;
    assert b[offset..offset + 2] == [b[offset], b[offset + 1]];
  }

  lemma {:induction false} UnitWritten32(b: Bytes, littleEndian: bool, u: U32)
    requires 4 <= |b|
    ensures Unit(b, 0, 4, littleEndian) == u <==> b[..4] == Unit32(u, littleEndian)
  {
    UnitIs32(b, littleEndian);
    hide Unit;
    assert b[..4] == [b[0], b[1], b[2], b[3]];
    if littleEndian {
      FourDigits(b[0], b[1], b[2], b[3], u);
    } else {
      FourDigits(b[3], b[2], b[1], b[0], u);
    }
  }

  lemma {:induction false} FourDigits(a: Byte, b: Byte, c: Byte, d: Byte, u: U32)
    ensures Joined(a, b, c, d) == u <==>
            a == u % 0x100 && b == u / 0x100 % 0x100 && c == u / 0x1_0000 % 0x100 && d == u / 0x100_0000
  {
    var y := c + 0x100 * d;
    var x := b + 0x100 * y;
    OneDigit(a, x, u);
    OneDigit(b, y, u / 0x100);
    OneDigit(c, d, u / 0x1_0000);
    assert u / 0x1_0000 == u / 0x100 / 0x100 && u / 0x100_0000 == u / 0x1_0000 / 0x100;
  }

  lemma {:induction false} OneDigit(a: Byte, rest: int, u: nat)
    ensures a + 0x100 * rest == u <==> a == u % 0x100 && rest == u / 0x100
  {
  }

  // ---- encodings ----------------------------------------------------------------------------------------

  /** One unit below U+10000, else a high and a low surrogate of ten digits each. */
  function Encode16(cp: Scalar, littleEndian: bool): Bytes
    requires IsScalar(cp)
  {
    if cp < 0x10000 then Unit16(cp, littleEndian)
    else
      Unit16(0xD800 + (cp - 0x10000) / 0x400, littleEndian) + Unit16(0xDC00 + (cp - 0x10000) % 0x400, littleEndian)
  }

  function Encode16All(cps: seq<Scalar>, littleEndian: bool): Bytes
    requires AllScalar(cps)
  {
    if cps == [] then [] else Encode16(cps[0], littleEndian) + Encode16All(cps[1..], littleEndian)
  }

  function Encode32All(cps: seq<Scalar>, littleEndian: bool): Bytes
    requires AllScalar(cps)
  {
    if cps == [] then [] else Unit32(cps[0], littleEndian) + Encode32All(cps[1..], littleEndian)
  }

  ghost predicate IsUtf16(b: Bytes, littleEndian: bool) {
    exists cps :: AllScalar(cps) && b == Encode16All(cps, littleEndian)
  }

  ghost predicate IsUtf32(b: Bytes, littleEndian: bool) {
    exists cps :: AllScalar(cps) && b == Encode32All(cps, littleEndian)
  }

  /** The scalar of a surrogate pair. */
  lemma {:induction false} PairScalar(high: U16, low: U16, littleEndian: bool) returns (cp: Scalar)
    requires 0xD800 <= high <= 0xDBFF && 0xDC00 <= low <= 0xDFFF
    ensures IsScalar(cp) && Encode16(cp, littleEndian) == Unit16(high, littleEndian) + Unit16(low, littleEndian)
  {
    hide Unit16;
    cp := 0x10000 + 0x400 * (high - 0xD800) + (low - 0xDC00);
    assert (cp - 0x10000) / 0x400 == high - 0xD800 && (cp - 0x10000) % 0x400 == low - 0xDC00;
  }

  lemma {:induction false} UnitBound16(b: Bytes, offset: nat, littleEndian: bool)
    requires offset + 2 <= |b|
    ensures 0 <= Unit(b, offset, 2, littleEndian) < 0x1_0000
    ensures b[offset..offset + 2] == Unit16(Unit(b, offset, 2, littleEndian), littleEndian)
  {
    UnitIs16(b, offset, littleEndian);
    UnitWritten16(b, offset, littleEndian, Unit(b, offset, 2, littleEndian));
    hide Unit, Unit16;
  }

  /** The scalar a valid input starts with. */
  lemma {:induction false} FirstScalar16(b: Bytes, littleEndian: bool) returns (cp: Scalar, n: nat)
    requires ValidUtf16(b, littleEndian) && b != []
    ensures IsScalar(cp) && n <= |b| && n > 0 && b[..n] == Encode16(cp, littleEndian)
    ensures ValidUtf16(b[n..], littleEndian)
  {
    hide Unit, Unit16;
    UnitBound16(b, 0, littleEndian);
    var unit := Unit(b, 0, 2, littleEndian);
    if 0xD800 <= unit <= 0xDBFF {
      UnitBound16(b, 2, littleEndian);
      cp := PairScalar(unit, Unit(b, 2, 2, littleEndian), littleEndian);
      n := 4;
      assert b[..4] == b[..2] + b[2..4];
    } else {
      cp, n := unit, 2;
    }
  }

  lemma {:induction false} Accepted16(b: Bytes, littleEndian: bool) returns (cps: seq<Scalar>)
    requires ValidUtf16(b, littleEndian)
    ensures AllScalar(cps) && b == Encode16All(cps, littleEndian)
    decreases |b|
  {
    hide ValidUtf16, Encode16;
    if b == [] {
      cps := [];
    } else {
      var cp, n := FirstScalar16(b, littleEndian);
      var rest := Accepted16(b[n..], littleEndian);
      cps := [cp] + rest;
      assert b == b[..n] + b[n..] && cps[1..] == rest;
    }
  }

  lemma {:induction false} Encoded16(cps: seq<Scalar>, littleEndian: bool)
    requires AllScalar(cps)
    ensures ValidUtf16(Encode16All(cps, littleEndian), littleEndian)
  {
    if cps != [] {
      Encoded16(cps[1..], littleEndian);
      OneMore16(cps[0], Encode16All(cps[1..], littleEndian), littleEndian);
    }
  }

  lemma {:induction false} OneMore16(cp: Scalar, rest: Bytes, littleEndian: bool)
    requires IsScalar(cp) && ValidUtf16(rest, littleEndian)
    ensures ValidUtf16(Encode16(cp, littleEndian) + rest, littleEndian)
  {
    var b := Encode16(cp, littleEndian) + rest;
    if cp < 0x10000 {
      UnitWritten16(b, 0, littleEndian, cp);
      assert b[0..2] == Unit16(cp, littleEndian) && b[2..] == rest;
    } else {
      var high, low := 0xD800 + (cp - 0x10000) / 0x400, 0xDC00 + (cp - 0x10000) % 0x400;
      UnitWritten16(b, 0, littleEndian, high);
      UnitWritten16(b, 2, littleEndian, low);
      assert b[0..2] == Unit16(high, littleEndian) && b[2..4] == Unit16(low, littleEndian) && b[4..] == rest;
    }
  }

  /** The UTF-16 validator accepts exactly the encodings of scalar sequences. */
  lemma {:induction false} Utf16Exactly(b: Bytes, littleEndian: bool)
    ensures ValidUtf16(b, littleEndian) <==> IsUtf16(b, littleEndian)
  {
    hide ValidUtf16, Encode16All;
    if ValidUtf16(b, littleEndian) {
      var cps := Accepted16(b, littleEndian);
    }
    if cps :| AllScalar(cps) && b == Encode16All(cps, littleEndian) {
      Encoded16(cps, littleEndian);
    }
  }

  lemma {:induction false} Accepted32(b: Bytes, littleEndian: bool) returns (cps: seq<Scalar>)
    requires ValidUtf32(b, littleEndian)
    ensures AllScalar(cps) && b == Encode32All(cps, littleEndian)
    decreases |b|
  {
    if b == [] {
      cps := [];
    } else {
      var unit := Unit(b, 0, 4, littleEndian);
      UnitIs32(b, littleEndian);
      UnitWritten32(b, littleEndian, unit);
      var rest := Accepted32(b[4..], littleEndian);
      cps := [unit] + rest;
      hide Unit, Unit32;
      assert b == b[..4] + b[4..] && cps[1..] == rest;
    }
  }

  lemma {:induction false} Encoded32(cps: seq<Scalar>, littleEndian: bool)
    requires AllScalar(cps)
    ensures ValidUtf32(Encode32All(cps, littleEndian), littleEndian)
  {
    if cps != [] {
      var b, rest := Encode32All(cps, littleEndian), Encode32All(cps[1..], littleEndian);
      Encoded32(cps[1..], littleEndian);
      UnitWritten32(b, littleEndian, cps[0]);
      hide Unit;
      assert b[..4] == Unit32(cps[0], littleEndian) && b[4..] == rest;
    }
  }

  /** The UTF-32 validator accepts exactly the encodings of scalar sequences. */
  lemma {:induction false} Utf32Exactly(b: Bytes, littleEndian: bool)
    ensures ValidUtf32(b, littleEndian) <==> IsUtf32(b, littleEndian)
  {
    hide ValidUtf32, Encode32All;
    if ValidUtf32(b, littleEndian) {
      var cps := Accepted32(b, littleEndian);
    }
    if cps :| AllScalar(cps) && b == Encode32All(cps, littleEndian) {
      Encoded32(cps, littleEndian);
    }
  }

  // ---- the loops --------------------------------------------------------------------------------------------

  lemma {:induction false} Suffix16(b: Bytes, i: nat, littleEndian: bool)
    requires i + 2 <= |b|
    ensures Unit(b[i..], 0, 2, littleEndian) == Unit(b, i, 2, littleEndian)
    ensures i + 4 <= |b| ==> Unit(b[i..], 2, 2, littleEndian) == Unit(b, i + 2, 2, littleEndian)
  {
    UnitIs16(b[i..], 0, littleEndian);
    UnitIs16(b, i, littleEndian);
    if i + 4 <= |b| {
      UnitIs16(b[i..], 2, littleEndian);
      UnitIs16(b, i + 2, littleEndian);
    }
  }

  lemma {:induction false} EvenLength16(b: Bytes, littleEndian: bool)
    requires ValidUtf16(b, littleEndian)
    ensures |b| % 2 == 0
    decreases |b|
  {
    hide Unit;
    if b != [] {
      if 0xD800 <= Unit(b, 0, 2, littleEndian) <= 0xDBFF {
        EvenLength16(b[4..], littleEndian);
      } else {
        EvenLength16(b[2..], littleEndian);
      }
    }
  }

  method CheckUtf16(b: Bytes, littleEndian: bool) returns (ok: bool)
    ensures ok <==> IsUtf16(b, littleEndian)
  {
    hide Unit, IsUtf16;
    Utf16Exactly(b, littleEndian);
    if |b| % 2 != 0 {
      if ValidUtf16(b, littleEndian) { EvenLength16(b, littleEndian); }
      return false;
    }
    var offset := 0;
    while offset < |b|
      invariant 0 <= offset <= |b| && offset % 2 == 0
      invariant ValidUtf16(b, littleEndian) <==> ValidUtf16(b[offset..], littleEndian)
    {
      var unit := Unit(b, offset, 2, littleEndian);
      Suffix16(b, offset, littleEndian);
      if 0xD800 <= unit <= 0xDBFF {
        if offset + 4 > |b| {
          return false;
        }
        var low := Unit(b, offset + 2, 2, littleEndian);
        if low < 0xDC00 || low > 0xDFFF {
          return false;
        }
        assert b[offset..][4..] == b[offset + 4..];
        offset := offset + 2;
      } else if 0xDC00 <= unit <= 0xDFFF {
        return false;
      } else {
        assert b[offset..][2..] == b[offset + 2..];
      }
      offset := offset + 2;
    }
    assert b[offset..] == [];
    return true;
  }

  lemma {:induction false} Suffix32(b: Bytes, i: nat, littleEndian: bool)
    requires i + 4 <= |b|
    ensures Unit(b[i..], 0, 4, littleEndian) == Unit(b[i..i + 4], 0, 4, littleEndian)
  {
    UnitIs32(b[i..], littleEndian);
    UnitIs32(b[i..i + 4], littleEndian);
  }

  lemma {:induction false} WholeLength32(b: Bytes, littleEndian: bool)
    requires ValidUtf32(b, littleEndian)
    ensures |b| % 4 == 0
    decreases |b|
  {
    hide Unit;
    if b != [] {
      WholeLength32(b[4..], littleEndian);
    }
  }

  method CheckUtf32(b: Bytes, littleEndian: bool) returns (ok: bool)
    ensures ok <==> IsUtf32(b, littleEndian)
  {
    hide Unit, IsUtf32;
    Utf32Exactly(b, littleEndian);
    if |b| % 4 != 0 {
      if ValidUtf32(b, littleEndian) { WholeLength32(b, littleEndian); }
      return false;
    }
    var offset := 0;
    while offset < |b|
      invariant 0 <= offset <= |b| && offset % 4 == 0
      invariant ValidUtf32(b, littleEndian) <==> ValidUtf32(b[offset..], littleEndian)
    {
      var unit := Unit(b[offset..offset + 4], 0, 4, littleEndian);
      Suffix32(b, offset, littleEndian);
      if unit > 0x10FFFF || 0xD800 <= unit <= 0xDFFF {
        return false;
      }
      assert b[offset..][4..] == b[offset + 4..];
      offset := offset + 4;
    }
    assert b[offset..] == [];
    return true;
  }

  // ---- text worth recording ------------------------------------------------------------------------------------

  /** Control characters other than tab, line feed and carriage return. */
  predicate IsControl(cp: Scalar) { (cp < 0x20 && cp !in {0x09, 0x0A, 0x0D}) || 0x7F <= cp < 0xA0 }

  /** The three private-use areas. */
  predicate IsPrivate(cp: Scalar) {
    0xE000 <= cp < 0xF900 || 0xF0000 <= cp < 0xFFFFE || 0x100000 <= cp < 0x10FFFE
  }

  /** U+FDD0 to U+FDEF and the last two code points of every plane. */
  predicate IsNonCharacter(cp: Scalar) { 0xFDD0 <= cp < 0xFDF0 || cp % 0x10000 in {0xFFFE, 0xFFFF} }

  /** Text is the scalars that are neither control characters, private, nor reserved for no character. */
  lemma {:induction false} TextExactly(cp: Scalar)
    ensures IsText(cp) <==> IsScalar(cp) && !IsControl(cp) && !IsPrivate(cp) && !IsNonCharacter(cp)
  {
  }
}
