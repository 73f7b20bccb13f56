/**
 * The canonical wire format: big-endian integers, one-byte tags and
 * length-prefixed byte strings. `PutX(v, t)` writes v in front of t and
 * `GetX` reads it back; the Writer and Reader buffers are proved to do the same.
 */
module Wire {
  import opened Words

  type Parsed<T> = Option<(T, Bytes)>

  datatype Limits = Limits(maxFactBytes: nat, maxStringBytes: nat, maxVectorItems: nat)

  function Pow256(n: nat): int {
    if n == 0 then 1 else 0x100 * Pow256(n - 1)
  }

  /** The low n bytes of v, most significant first. */
  function BigEndian(v: nat, n: nat): Bytes {
    if n == 0 then [] else BigEndian(v / 0x100, n - 1) + [v % 0x100]
  }

  function Value(b: Bytes): nat {
    if b == [] then 0 else Value(b[..|b| - 1]) * 0x100 + b[|b| - 1]
  }

  lemma {:induction false} BigEndianValue(v: nat, n: nat)
    requires v < Pow256(n)
    ensures |BigEndian(v, n)| == n && Value(BigEndian(v, n)) == v
  {
    if n > 0 {
      BigEndianValue(v / 0x100, n - 1);
      assert BigEndian(v, n)[..n - 1] == BigEndian(v / 0x100, n - 1);
    }
  }

  lemma {:induction false} ValueBound(b: Bytes)
    ensures 0 <= Value(b) < Pow256(|b|)
  {
    if b != [] {
      ValueBound(b[..|b| - 1]);
    }
  }

  lemma {:induction false} Pow256Values()
    ensures Pow256(1) == 0x100 && Pow256(2) == 0x1_0000
    ensures Pow256(4) == TWO_32 && Pow256(8) == TWO_64
  {
    assert Pow256(3) == 0x100_0000 && Pow256(5) == 0x100 * TWO_32;
    assert Pow256(6) == 0x1_0000 * TWO_32 && Pow256(7) == 0x100_0000 * TWO_32;
  }

  function PutInt(v: nat, n: nat, t: Bytes): Bytes { BigEndian(v, n) + t }

  function GetInt(n: nat, s: Bytes): Parsed<nat> {
    if |s| < n then None else Some((Value(s[..n]), s[n..]))
  }

  lemma {:induction false} IntRoundTrip(v: nat, n: nat, t: Bytes)
    requires v < Pow256(n)
    ensures GetInt(n, PutInt(v, n, t)) == Some((v, t))
  {
    BigEndianValue(v, n);
    assert PutInt(v, n, t)[..n] == BigEndian(v, n) && PutInt(v, n, t)[n..] == t;
  }

  function PutU8(v: Byte, t: Bytes): Bytes { [v] + t }
  function PutU16(v: U16, t: Bytes): Bytes { PutInt(v, 2, t) }
  function PutU32(v: U32, t: Bytes): Bytes { PutInt(v, 4, t) }
  function PutU64(v: U64, t: Bytes): Bytes { PutInt(v, 8, t) }
  function PutI64(v: I64, t: Bytes): Bytes { PutU64(if v < 0 then v + TWO_64 else v, t) }
  function PutBool(v: bool, t: Bytes): Bytes { PutU8(if v then 1 else 0, t) }

  function GetU8(s: Bytes): Parsed<Byte> {
    if s == [] then None else Some((s[0], s[1..]))
  }

  function GetU16(s: Bytes): Parsed<U16> {
    Pow256Values(); if |s| >= 2 then ValueBound(s[..2]); GetInt(2, s) else None
  }

  function GetU32(s: Bytes): Parsed<U32> {
    Pow256Values(); if |s| >= 4 then ValueBound(s[..4]); GetInt(4, s) else None
  }

  function GetU64(s: Bytes): Parsed<U64> {
    Pow256Values(); if |s| >= 8 then ValueBound(s[..8]); GetInt(8, s) else None
  }

  function GetI64(s: Bytes): Parsed<I64> {
    var (raw, s) :- GetU64(s);
    Some((if raw < TWO_63 then raw else -(MAX_U64 - raw) - 1, s))
  }

  function GetBool(s: Bytes): Parsed<bool> {
    var (v, s) :- GetU8(s);
    if v > 1 then None else Some((v == 1, s))
  }

  lemma {:induction false} U16RoundTrip(v: U16, t: Bytes)
    ensures GetU16(PutU16(v, t)) == Some((v, t))
  {
    hide BigEndian, Value, Pow256;
    Pow256Values();
    BigEndianValue(v, 2);
    IntRoundTrip(v, 2, t);
  }

  lemma {:induction false} U32RoundTrip(v: U32, t: Bytes)
    ensures GetU32(PutU32(v, t)) == Some((v, t))
  {
    hide BigEndian, Value, Pow256;
    Pow256Values();
    BigEndianValue(v, 4);
    IntRoundTrip(v, 4, t);
  }

  lemma {:induction false} U64RoundTrip(v: U64, t: Bytes)
    ensures GetU64(PutU64(v, t)) == Some((v, t))
  {
    hide BigEndian, Value, Pow256;
    Pow256Values();
    BigEndianValue(v, 8);
    IntRoundTrip(v, 8, t);
  }

  lemma {:induction false} I64RoundTrip(v: I64, t: Bytes)
    ensures GetI64(PutI64(v, t)) == Some((v, t))
  {
    hide PutU64, GetU64;
    U64RoundTrip(if v < 0 then v + TWO_64 else v, t);
  }

  lemma {:induction false} IntegersRoundTrip()
    ensures forall v: Byte, t: Bytes :: GetU8(PutU8(v, t)) == Some((v, t))
    ensures forall v: U16, t: Bytes :: GetU16(PutU16(v, t)) == Some((v, t))
    ensures forall v: U32, t: Bytes :: GetU32(PutU32(v, t)) == Some((v, t))
    ensures forall v: U64, t: Bytes :: GetU64(PutU64(v, t)) == Some((v, t))
    ensures forall v: I64, t: Bytes :: GetI64(PutI64(v, t)) == Some((v, t))
    ensures forall v: bool, t: Bytes :: GetBool(PutBool(v, t)) == Some((v, t))
  {
    hide PutU16, PutU32, PutU64, PutI64, GetU16, GetU32, GetU64, GetI64;
    forall v: U16, t: Bytes ensures GetU16(PutU16(v, t)) == Some((v, t)) { U16RoundTrip(v, t); }
    forall v: U32, t: Bytes ensures GetU32(PutU32(v, t)) == Some((v, t)) { U32RoundTrip(v, t); }
    forall v: U64, t: Bytes ensures GetU64(PutU64(v, t)) == Some((v, t)) { U64RoundTrip(v, t); }
    forall v: I64, t: Bytes ensures GetI64(PutI64(v, t)) == Some((v, t)) { I64RoundTrip(v, t); }
  }

  /** A four-byte length in front of the bytes. */
  function PutBytes(b: Bytes, t: Bytes): Bytes
    requires |b| < TWO_32
  {
    PutU32(|b|, b + t)
  }

  function GetBytes(limit: nat, s: Bytes): Parsed<Bytes> {
    var (n, s) :- GetU32(s);
    if n > limit || n > |s| then None else Some((s[..n], s[n..]))
  }

  function PutOptionU64(v: Option<U64>, t: Bytes): Bytes {
    match v case None => PutU8(0, t) case Some(x) => PutU8(1, PutU64(x, t))
  }

  function GetOptionU64(s: Bytes): Parsed<Option<U64>> {
    var (present, s) :- GetU8(s);
    if present > 1 then None
    else if present == 0 then Some((None, s))
    else var (x, s) :- GetU64(s); Some((Some(x), s))
  }

  function PutOptionI64(v: Option<I64>, t: Bytes): Bytes {
    match v case None => PutU8(0, t) case Some(x) => PutU8(1, PutI64(x, t))
  }

  function GetOptionI64(s: Bytes): Parsed<Option<I64>> {
    var (present, s) :- GetU8(s);
    if present > 1 then None
    else if present == 0 then Some((None, s))
    else var (x, s) :- GetI64(s); Some((Some(x), s))
  }

  /** A length-prefixed string is read back exactly when the limit admits it. */
  lemma {:induction false} BytesRoundTrip(b: Bytes, t: Bytes, limit: nat)
    requires |b| < TWO_32
    ensures GetBytes(limit, PutBytes(b, t)) == if |b| <= limit then Some((b, t)) else None
  {
    IntegersRoundTrip();
    hide PutU32, GetU32;
    assert (b + t)[..|b|] == b && (b + t)[|b|..] == t;
  }

  lemma {:induction false} OptionsRoundTrip()
    ensures forall v: Option<U64>, t: Bytes :: GetOptionU64(PutOptionU64(v, t)) == Some((v, t))
    ensures forall v: Option<I64>, t: Bytes :: GetOptionI64(PutOptionI64(v, t)) == Some((v, t))
  {
    IntegersRoundTrip();
    hide PutU8, PutU64, PutI64, GetU8, GetU64, GetI64;
  }

  function GetCount(limits: Limits, s: Bytes): Parsed<U32> {
    var (n, s) :- GetU32(s);
    if n > limits.maxVectorItems then None else Some((n, s))
  }

  function Tag(magic: Bytes, version: U16, t: Bytes): Bytes { magic + PutU16(version, t) }

  function Untag(magic: Bytes, version: U16, s: Bytes): Option<Bytes> {
    if |s| < |magic| || s[..|magic|] != magic then None
    else
      var (v, s) :- GetU16(s[|magic|..]);
      if v != version then None else Some(s)
  }

  lemma {:induction false} TagRoundTrip(magic: Bytes, version: U16, t: Bytes)
    ensures Untag(magic, version, Tag(magic, version, t)) == Some(t)
  {
    IntegersRoundTrip();
    hide PutU16, GetU16;
    var s := Tag(magic, version, t);
    assert s[..|magic|] == magic && s[|magic|..] == PutU16(version, t);
  }
}
