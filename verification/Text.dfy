/**
 * Strict UTF-8 (sections 3 and 4 of RFC 3629): the ledger's validator and the
 * runtime string recogniser, both proved against the encoder alone.
 */
module Text {
  import opened Words

  type Scalar = U32

  /** Unicode scalar values: no surrogate and nothing above U+10FFFF. */
  predicate IsScalar(cp: Scalar) {
    cp <= 0x10FFFF && !(0xD800 <= cp <= 0xDFFF)
  }

  /** Scalars accepted as automatic evidence of text. */
  predicate IsText(cp: Scalar) {
    if cp == 0x09 || cp == 0x0A || cp == 0x0D then true
    else if cp < 0x20 || 0x7F <= cp <= 0x9F then false
    else if 0xE000 <= cp <= 0xF8FF || 0xF0000 <= cp <= 0xFFFFD || 0x100000 <= cp <= 0x10FFFD
              || 0xFDD0 <= cp <= 0xFDEF || cp % 0x10000 >= 0xFFFE then false
    else cp <= 0x10FFFF && !(0xD800 <= cp <= 0xDFFF)
  }

  predicate AllScalar(cps: seq<Scalar>) { forall i :: 0 <= i < |cps| ==> IsScalar(cps[i]) }
  predicate AllText(cps: seq<Scalar>) { forall i :: 0 <= i < |cps| ==> IsText(cps[i]) }
  predicate AllAscii(cps: seq<Scalar>) { forall i :: 0 <= i < |cps| ==> cps[i] < 0x80 }

  /** The bytes append_utf8 pushes for one scalar. */
  function Encode(cp: Scalar): Bytes
    requires IsScalar(cp)
  {
    if cp <= 0x7F then [cp]
    else if cp <= 0x7FF then [0xC0 + cp / 0x40, 0x80 + cp % 0x40]
    else if cp <= 0xFFFF then [0xE0 + cp / 0x1000, 0x80 + cp / 0x40 % 0x40, 0x80 + cp % 0x40]
    else [0xF0 + cp / 0x40000, 0x80 + cp / 0x1000 % 0x40, 0x80 + cp / 0x40 % 0x40, 0x80 + cp % 0x40]
  }

  function EncodeAll(cps: seq<Scalar>): Bytes
    requires AllScalar(cps)
  {
    if cps == [] then [] else Encode(cps[0]) + EncodeAll(cps[1..])
  }

  /** Payload bits and continuation count announced by a lead byte. */
  function Lead(first: Byte): Option<(U32, nat)> {
    if first < 0x80 then Some((first, 0))
    else if 0xC2 <= first <= 0xDF then Some((first % 0x20, 1))
    else if 0xE0 <= first <= 0xEF then Some((first % 0x10, 2))
    else if 0xF0 <= first <= 0xF4 then Some((first % 0x08, 3))
    else None
  }

  predicate Continuations(tail: Bytes) {
    forall k :: 0 <= k < |tail| ==> 0x80 <= tail[k] < 0xC0
  }

  /** Shift the low six bits of each continuation byte into the code point. */
  function Extend(bits: nat, tail: Bytes): nat {
    if tail == [] then bits else Extend(bits, tail[..|tail| - 1]) * 0x40 + tail[|tail| - 1] % 0x40
  }

  function Minimum(extra: nat): nat {
    if extra == 0 then 0 else if extra == 1 then 0x80 else if extra == 2 then 0x800 else 0x10000
  }

  /** The scalar whose encoding starts the input, if there is one. */
  function Head(b: Bytes): Option<Scalar> {
    if b == [] then None else
    match Lead(b[0])
    case None => None
    case Some((bits, extra)) =>
      if extra > |b| - 1 || !Continuations(b[1..1 + extra]) then None
      else
        var cp := Extend(bits, b[1..1 + extra]);
        if cp < Minimum(extra) || cp > 0x10FFFF || 0xD800 <= cp <= 0xDFFF then None else Some(cp)
  }

  lemma {:induction false} ExtendUnfold(bits: nat, tail: Bytes)
    ensures |tail| == 0 ==> Extend(bits, tail) == bits
    ensures |tail| == 1 ==> Extend(bits, tail) == bits * 0x40 + tail[0] % 0x40
    ensures |tail| == 2 ==>
              Extend(bits, tail) == (bits * 0x40 + tail[0] % 0x40) * 0x40 + tail[1] % 0x40
    ensures |tail| == 3 ==>
              Extend(bits, tail) ==
              ((bits * 0x40 + tail[0] % 0x40) * 0x40 + tail[1] % 0x40) * 0x40 + tail[2] % 0x40
  {
    if 0 < |tail| <= 3 {
      ExtendUnfold(bits, tail[..|tail| - 1]);
    }
  }

  lemma {:induction false} TwoBytes(cp: nat, a: nat, b: nat)
    requires 0xC2 <= a <= 0xDF && 0x80 <= b < 0xC0
    ensures cp == a % 0x20 * 0x40 + b % 0x40 <==> a == 0xC0 + cp / 0x40 && b == 0x80 + cp % 0x40
  {
    assert a % 0x20 == a - 0xC0 && b % 0x40 == b - 0x80;
  }

  lemma {:induction false} ThreeBytes(cp: nat, a: nat, b: nat, c: nat)
    requires 0xE0 <= a <= 0xEF && 0x80 <= b < 0xC0 && 0x80 <= c < 0xC0
    ensures cp == (a % 0x10 * 0x40 + b % 0x40) * 0x40 + c % 0x40 <==>
            a == 0xE0 + cp / 0x1000 && b == 0x80 + cp / 0x40 % 0x40 && c == 0x80 + cp % 0x40
  {
    assert a % 0x10 == a - 0xE0 && b % 0x40 == b - 0x80 && c % 0x40 == c - 0x80;
    assert cp / 0x1000 == cp / 0x40 / 0x40;
  }

  lemma {:induction false} FourBytes(cp: nat, a: nat, b: nat, c: nat, d: nat)
    requires 0xF0 <= a <= 0xF4 && 0x80 <= b < 0xC0 && 0x80 <= c < 0xC0 && 0x80 <= d < 0xC0
    ensures cp == ((a % 0x08 * 0x40 + b % 0x40) * 0x40 + c % 0x40) * 0x40 + d % 0x40 <==>
            a == 0xF0 + cp / 0x40000 && b == 0x80 + cp / 0x1000 % 0x40 &&
            c == 0x80 + cp / 0x40 % 0x40 && d == 0x80 + cp % 0x40
  {
    assert a % 0x08 == a - 0xF0 && b % 0x40 == b - 0x80 && c % 0x40 == c - 0x80 && d % 0x40 == d - 0x80;
    assert cp / 0x1000 == cp / 0x40 / 0x40 && cp / 0x40000 == cp / 0x40 / 0x40 / 0x40;
  }

  /** On a lead byte and its continuations, Extend inverts the digits Encode writes. */
  lemma {:induction false} ExtendInvertsEncode(cp: Scalar, form: Bytes)
    requires form != [] && Lead(form[0]).Some? && |form| == Lead(form[0]).value.1 + 1
    requires Continuations(form[1..])
    requires IsScalar(cp) && cp >= Minimum(|form| - 1)
    requires |form| < 4 ==> cp < Minimum(|form|)
    ensures Extend(Lead(form[0]).value.0, form[1..]) == cp <==> form == Encode(cp)
  {
    ExtendUnfold(Lead(form[0]).value.0, form[1..]);
    if |form| == 2 {
      TwoBytes(cp, form[0], form[1]);
    } else if |form| == 3 {
      ThreeBytes(cp, form[0], form[1], form[2]);
    } else if |form| == 4 {
      FourBytes(cp, form[0], form[1], form[2], form[3]);
    }
  }

  lemma {:induction false} HeadOfEncoding(cp: Scalar, rest: Bytes)
    requires IsScalar(cp)
    ensures Head(Encode(cp) + rest) == Some(cp)
    ensures Lead(Encode(cp)[0]).value.1 + 1 == |Encode(cp)|
  {
    var form := Encode(cp);
    var b := form + rest;
    assert Lead(form[0]).Some? && Lead(form[0]).value.1 == |form| - 1;
    assert b[0] == form[0] && b[1..|form|] == form[1..];
    ExtendInvertsEncode(cp, form);
  }

  lemma {:induction false} EncodingOfHead(b: Bytes)
    requires Head(b).Some?
    ensures IsScalar(Head(b).value)
    ensures |Encode(Head(b).value)| == Lead(b[0]).value.1 + 1 <= |b|
    ensures b == Encode(Head(b).value) + b[Lead(b[0]).value.1 + 1..]
  {
    var extra := Lead(b[0]).value.1;
    var form := b[..1 + extra];
    assert form[0] == b[0] && form[1..] == b[1..1 + extra];
    ExtendUnfold(Lead(b[0]).value.0, form[1..]);
    ExtendInvertsEncode(Head(b).value, form);
  }

  /** Reads scalars until the input is consumed. */
  function Parse(b: Bytes): Option<seq<Scalar>>
    decreases |b|
  {
    if b == [] then Some([])
    else if Head(b).None? then None
    else match Parse(b[Lead(b[0]).value.1 + 1..])
      case None => None
      case Some(rest) => Some([Head(b).value] + rest)
  }

  lemma {:induction false} ParseCons(cp: Scalar, tail: Bytes)
    requires IsScalar(cp)
    ensures Parse(Encode(cp) + tail) ==
            match Parse(tail) case None => None case Some(rest) => Some([cp] + rest)
  {
    var b := Encode(cp) + tail;
    HeadOfEncoding(cp, tail);
    assert b[0] == Encode(cp)[0] && b[|Encode(cp)|..] == tail;
  }

  lemma {:induction false} ParseOfEncoding(cps: seq<Scalar>)
    requires AllScalar(cps)
    ensures Parse(EncodeAll(cps)) == Some(cps)
  {
    hide Encode, Head, Lead;
    if cps != [] {
      ParseCons(cps[0], EncodeAll(cps[1..]));
      ParseOfEncoding(cps[1..]);
      assert [cps[0]] + cps[1..] == cps;
    }
  }

  lemma {:induction false} EncodingOfParse(b: Bytes)
    requires Parse(b).Some?
    ensures AllScalar(Parse(b).value) && EncodeAll(Parse(b).value) == b
    decreases |b|
  {
    if b != [] {
      EncodingOfHead(b);
      EncodingOfParse(b[Lead(b[0]).value.1 + 1..]);
    }
  }

  /** Well-formed UTF-8: the encoding of some sequence of scalar values. */
  ghost predicate WellFormed(b: Bytes) {
    exists cps :: AllScalar(cps) && EncodeAll(cps) == b
  }

  /** Text UTF-8: the encoding of scalars accepted as text. */
  ghost predicate TextEncoding(b: Bytes, cps: seq<Scalar>) {
    AllText(cps) && AllScalar(cps) && EncodeAll(cps) == b
  }

  lemma {:induction false} WellFormedIsParseable(b: Bytes)
    ensures WellFormed(b) <==> Parse(b).Some?
  {
    if WellFormed(b) {
      var cps :| AllScalar(cps) && EncodeAll(cps) == b;
      ParseOfEncoding(cps);
    }
    if Parse(b).Some? {
      EncodingOfParse(b);
    }
  }

  /** Encoding is injective, so a byte string is the text of at most one scalar sequence. */
  lemma {:induction false} EncodingInjective(left: seq<Scalar>, right: seq<Scalar>)
    requires AllScalar(left) && AllScalar(right)
    requires EncodeAll(left) == EncodeAll(right)
    ensures left == right
  {
    ParseOfEncoding(left);
    ParseOfEncoding(right);
  }

  /** Read the continuation bytes after position i, or report a malformed one. */
  method ReadContinuations(b: Bytes, i: nat, bits: U32, extra: nat) returns (ok: bool, cp: nat)
    requires i < |b| && extra < |b| - i
    ensures ok <==> Continuations(b[i + 1..i + 1 + extra])
    ensures ok ==> cp == Extend(bits, b[i + 1..i + 1 + extra])
  {
    ok, cp := true, bits;
    for j := 0 to extra
      invariant ok && cp == Extend(bits, b[i + 1..i + 1 + j])
      invariant Continuations(b[i + 1..i + 1 + j])
    {
      var continuation := b[i + 1 + j];
      if !(0x80 <= continuation < 0xC0) {
        assert b[i + 1..i + 1 + extra][j] == continuation;
        ok := false;
        return;
      }
      cp := cp * 0x40 + continuation % 0x40;
      assert b[i + 1..i + 1 + j + 1][..j] == b[i + 1..i + 1 + j];
    }
  }

  /** The ledger's validator accepts exactly the encodings of scalar sequences. */
  method ValidUtf8(b: Bytes) returns (ok: bool)
    ensures ok <==> WellFormed(b)
  {
    WellFormedIsParseable(b);
    var i := 0;
    while i < |b|
      invariant 0 <= i <= |b|
      invariant Parse(b).Some? <==> Parse(b[i..]).Some?
    {
      var first := b[i];
      var lead := Lead(first);
      if lead.None? || lead.value.1 > |b| - (i + 1) {
        return false;
      }
      var (bits, extra) := lead.value;
      var wellContinued, cp := ReadContinuations(b, i, bits, extra);
      assert b[i..][1..1 + extra] == b[i + 1..i + 1 + extra];
      if !wellContinued || cp < Minimum(extra) || cp > 0x10FFFF || 0xD800 <= cp <= 0xDFFF {
        return false;
      }
      assert b[i..][extra + 1..] == b[i + 1 + extra..];
      i := i + 1 + extra;
    }
    assert b[i..] == [];
    return true;
  }

  datatype RuntimeEncoding = ASCII | UTF8

  lemma {:induction false} EncodeAllAppend(cps: seq<Scalar>, cp: Scalar)
    requires AllScalar(cps) && IsScalar(cp)
    ensures EncodeAll(cps + [cp]) == EncodeAll(cps) + Encode(cp)
  {
    hide Encode, IsScalar;
    if cps == [] {
      assert [cp][1..] == [];
    } else {
      EncodeAllAppend(cps[1..], cp);
      assert (cps + [cp])[1..] == cps[1..] + [cp];
    }
  }

  /** One more text scalar read at i extends the decoded prefix. */
  lemma {:induction false} AppendScalar(b: Bytes, i: nat, n: nat, cps: seq<Scalar>, cp: Scalar)
    requires i + n <= |b| && TextEncoding(b[..i], cps)
    requires IsText(cp) && b[i..i + n] == Encode(cp)
    ensures TextEncoding(b[..i + n], cps + [cp])
  {
    EncodeAllAppend(cps, cp);
    assert b[..i + n] == b[..i] + b[i..i + n];
  }

  /** The first scalar of a byte string, given what its lead byte announces. */
  lemma {:induction false} HeadUnfold(rest: Bytes, bits: U32, extra: nat)
    requires rest != [] && Lead(rest[0]) == Some((bits, extra)) && extra < |rest|
    ensures Head(rest) ==
            if !Continuations(rest[1..1 + extra]) then None
            else
              var cp := Extend(bits, rest[1..1 + extra]);
              if cp < Minimum(extra) || cp > 0x10FFFF || 0xD800 <= cp <= 0xDFFF then None else Some(cp)
  {
  }

  /** Two-byte forms cannot be overlong: their lead byte already carries a high bit. */
  lemma {:induction false} MinimumReached(first: Byte, tail: Bytes, cp: nat)
    requires Lead(first).Some? && Lead(first).value.1 == |tail| && cp == Extend(Lead(first).value.0, tail)
    requires |tail| == 2 ==> cp >= 0x800
    requires |tail| == 3 ==> cp >= 0x10000
    ensures cp >= Minimum(|tail|)
  {
    ExtendUnfold(Lead(first).value.0, tail);
    hide Extend;
  }

  /** One round of the recogniser: the text scalar at position i and its length. */
  method DecodeTextScalar(b: Bytes, i: nat) returns (ok: bool, cp: Scalar, length: nat)
    requires i < |b|
    ensures ok <==> Head(b[i..]).Some? && IsText(Head(b[i..]).value)
    ensures ok ==> IsText(cp) && 0 < length <= |b| - i && b[i..i + length] == Encode(cp)
  {
    hide Extend, Encode, Continuations;
    ok, cp, length := false, 0, 0;
    var lead := Lead(b[i]);
    if lead.None? || lead.value.1 >= |b| - i {
      return;
    }
    var (bits, extra) := lead.value;
    var wellContinued: bool, extended: nat := ReadContinuations(b, i, bits, extra);
    ghost var rest := b[i..];
    assert rest[1..1 + extra] == b[i + 1..i + 1 + extra];
    HeadUnfold(rest, bits, extra);
    hide Head;
    if !wellContinued {
      return;
    }
    ExtendUnfold(bits, b[i + 1..i + 1 + extra]);
    assert extended < 0x4000_0000;
    if (extra == 2 && extended < 0x800) || (extra == 3 && extended < 0x10000) || !IsText(extended) {
      return;
    }
    MinimumReached(b[i], b[i + 1..i + 1 + extra], extended);
    EncodingOfHead(rest);
    ok, cp, length := true, extended, extra + 1;
    assert b[i..i + length] == rest[..length];
  }

  /**
   * The runtime recogniser succeeds exactly on encodings of text scalars that
   * are long enough, and returns those scalars.
   */
  method DecodeUtf8Exact(b: Bytes, minimumCharacters: nat)
    returns (ok: bool, cps: seq<Scalar>, encoding: RuntimeEncoding)
    ensures ok <==> exists t :: TextEncoding(b, t) && |t| >= minimumCharacters
    ensures ok ==> TextEncoding(b, cps) && |cps| >= minimumCharacters
    ensures ok ==> (encoding == ASCII <==> AllAscii(cps))
    ensures ok ==> WellFormed(b)
  {
    cps := [];
    var i := 0;
    var allAscii := true;
    ok, encoding := false, UTF8;
    while i < |b|
      invariant 0 <= i <= |b|
      invariant TextEncoding(b[..i], cps)
      invariant allAscii <==> AllAscii(cps)
      invariant !ok
    {
      var recognised, cp, length := DecodeTextScalar(b, i);
      if !recognised {
        RejectSuffix(b, i, cps);
        return;
      }
      AppendScalar(b, i, length, cps, cp);
      allAscii := allAscii && cp < 0x80;
      ghost var before := cps;
      cps := cps + [cp];
      assert cps[|before|] == cp;
      assert forall k :: 0 <= k < |before| ==> cps[k] == before[k];
      i := i + length;
    }
    assert b[..i] == b;
    forall t | TextEncoding(b, t) ensures t == cps { EncodingInjective(t, cps); }
    if |cps| < minimumCharacters {
      return;
    }
    ok := true;
    encoding := if allAscii then ASCII else UTF8;
  }

  lemma {:induction false} ParsePrefix(cps: seq<Scalar>, rest: Bytes)
    requires AllScalar(cps)
    ensures Parse(EncodeAll(cps) + rest) ==
            match Parse(rest) case None => None case Some(tail) => Some(cps + tail)
  {
    hide Encode, Head, Lead;
    if cps == [] {
      assert EncodeAll(cps) + rest == rest;
      assert Parse(rest).Some? ==> cps + Parse(rest).value == Parse(rest).value;
    } else {
      assert EncodeAll(cps) + rest == Encode(cps[0]) + (EncodeAll(cps[1..]) + rest);
      ParseCons(cps[0], EncodeAll(cps[1..]) + rest);
      ParsePrefix(cps[1..], rest);
      assert Parse(rest).Some? ==> [cps[0]] + (cps[1..] + Parse(rest).value) == cps + Parse(rest).value;
    }
  }

  /** After a text prefix, no text can follow a suffix that does not start with a text scalar. */
  lemma {:induction false} RejectSuffix(b: Bytes, i: nat, cps: seq<Scalar>)
    requires i < |b| && TextEncoding(b[..i], cps)
    requires Head(b[i..]).None? || !IsText(Head(b[i..]).value)
    ensures !exists t :: TextEncoding(b, t)
  {
    ParsePrefix(cps, b[i..]);
    assert b[..i] + b[i..] == b;
    forall t | AllScalar(t) && EncodeAll(t) == b
      ensures !AllText(t)
    {
      ParseOfEncoding(t);
      assert t[|cps|] == Head(b[i..]).value;
    }
  }
}
