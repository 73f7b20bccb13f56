/**
 * The canonical format's Writer, which appends to a byte buffer, and its Reader,
 * which advances a position through one. Each writes and reads what the
 * functions of the wire format say, so the round trips proved there are theirs.
 */
module Buffers {
  import opened Words
  import opened Wire
  import opened Bits

  lemma {:induction false} DivideTwice(v: nat, a: nat)
    requires a > 0
    ensures v / (0x100 * a) == (v / a) / 0x100
  {
    var q, r := v / a, v % a;
    assert v == a * q + r;
    Regroup(v, a, q, r, q / 0x100, q % 0x100);
  }

  lemma {:induction false} Regroup(v: int, a: int, q: int, r: int, p: int, s: int)
    requires a > 0 && v == a * q + r && 0 <= r < a && q == 0x100 * p + s && 0 <= s < 0x100
    ensures v / (0x100 * a) == p
  {
    var x, rest := 0x100 * a, a * s + r;
    assert 0 <= a * s <= a * 0xff;
    assert a * q == a * (0x100 * p) + a * s;
    assert a * (0x100 * p) == p * x;
    QuotientUnique(v, x, p, rest);
  }

  lemma {:induction false} Pow256Positive(n: nat)
    ensures Pow256(n) > 0
  {
    if n > 0 { Pow256Positive(n - 1); }
  }

  class Writer {
    var bytes: Bytes

    constructor ()
      ensures bytes == []
    {
      bytes := [];
    }

    method Raw(data: Bytes)
      modifies this
      ensures bytes == old(bytes) + data
    {
      bytes := bytes + data;
    }

    method U8(value: Byte)
      modifies this
      ensures bytes == old(bytes) + PutU8(value, [])
    {
      bytes := bytes + [value];
    }

    method Boolean(value: bool)
      modifies this
      ensures bytes == old(bytes) + PutBool(value, [])
    {
      U8(if value then 1 else 0);
    }

    /** The low `n` bytes of the value, the highest first. */
    method HighFirst(value: nat, n: nat)
      modifies this
      ensures bytes == old(bytes) + PutInt(value, n, [])
    {
      var k := 0;
      Pow256Positive(n);
      while k < n
        invariant 0 <= k <= n && Pow256(n - k) > 0
        invariant bytes == old(bytes) + BigEndian(value / Pow256(n - k), k)
      {
        Pow256Positive(n - k - 1);
        DivideTwice(value, Pow256(n - k - 1));
        U8((value / Pow256(n - k - 1)) % 0x100);
        k := k + 1;
      }
      assert value / Pow256(0) == value;
    }

    method U16(value: Words.U16)
      modifies this
      ensures bytes == old(bytes) + PutU16(value, [])
    {
      HighFirst(value, 2);
    }

    method U32(value: Words.U32)
      modifies this
      ensures bytes == old(bytes) + PutU32(value, [])
    {
      HighFirst(value, 4);
    }

    method U64(value: Words.U64)
      modifies this
      ensures bytes == old(bytes) + PutU64(value, [])
    {
      HighFirst(value, 8);
    }

    method I64(value: Words.I64)
      modifies this
      ensures bytes == old(bytes) + PutI64(value, [])
    {
      U64(if value < 0 then value + TWO_64 else value);
    }

    /** A string or blob; one too long for its four-byte length is refused. */
    method Blob(value: Bytes) returns (ok: bool)
      modifies this
      ensures ok <==> |value| < TWO_32
      ensures bytes == if |value| < TWO_32 then old(bytes) + PutBytes(value, []) else old(bytes)
    {
      if |value| >= TWO_32 {
        return false;
      }
      U32(|value|);
      Raw(value);
      ok := true;
    }
  }

  class Reader {
    const input: Bytes
    const limits: Limits
    var pos: nat

    ghost predicate Valid()
      reads this
    {
      pos <= |input|
    }

    ghost function Rest(): Bytes
      reads this
      requires Valid()
    {
      input[pos..]
    }

    constructor (input: Bytes, limits: Limits)
      ensures Valid() && Rest() == input && this.limits == limits
    {
      this.input, this.limits, pos := input, limits, 0;
    }

    method Raw(size: nat) returns (r: Option<Bytes>)
      requires Valid()
      modifies this
      ensures Valid()
      ensures if size <= |old(Rest())| then r == Some(old(Rest())[..size]) && Rest() == old(Rest())[size..] else r.None?
    {
      if size > |input| - pos {
        return None;
      }
      assert input[pos..][..size] == input[pos..pos + size] && input[pos..][size..] == input[pos + size..];
      r := Some(input[pos..pos + size]);
      pos := pos + size;
    }

    method U8() returns (r: Option<Byte>)
      requires Valid()
      modifies this
      ensures Valid() && Reads(GetU8(old(Rest())), r, Rest())
    {
      if pos == |input| {
        return None;
      }
      r := Some(input[pos]);
      pos := pos + 1;
    }

    method Boolean() returns (r: Option<bool>)
      requires Valid()
      modifies this
      ensures Valid() && Reads(GetBool(old(Rest())), r, Rest())
    {
      var value := U8();
      if value.None? || value.value > 1 {
        return None;
      }
      r := Some(value.value != 0);
    }

    /** An n-byte number, the highest byte first. */
    method HighFirst(n: nat) returns (r: Option<nat>)
      requires Valid()
      modifies this
      ensures Valid() && Reads(GetInt(n, old(Rest())), r, Rest())
    {
      var raw := Raw(n);
      if raw.None? {
        return None;
      }
      var b, out: nat, i := raw.value, 0, 0;
      while i < |b|
        invariant 0 <= i <= |b| && out == Value(b[..i])
      {
        assert b[..i + 1][..i] == b[..i];
        out := out * 0x100 + b[i];
        i := i + 1;
      }
      assert b[..|b|] == b;
      r := Some(out);
    }

    method U16() returns (r: Option<Words.U16>)
      requires Valid()
      modifies this
      ensures Valid() && Reads(GetU16(old(Rest())), r, Rest())
    {
      ghost var before := Rest();
      var value := HighFirst(2);
      if value.None? {
        return None;
      }
      Pow256Values();
      ValueBound(before[..2]);
      r := Some(value.value);
    }

    method U32() returns (r: Option<Words.U32>)
      requires Valid()
      modifies this
      ensures Valid() && Reads(GetU32(old(Rest())), r, Rest())
    {
      ghost var before := Rest();
      var value := HighFirst(4);
      if value.None? {
        return None;
      }
      Pow256Values();
      ValueBound(before[..4]);
      r := Some(value.value);
    }

    method U64() returns (r: Option<Words.U64>)
      requires Valid()
      modifies this
      ensures Valid() && Reads(GetU64(old(Rest())), r, Rest())
    {
      ghost var before := Rest();
      var value := HighFirst(8);
      if value.None? {
        return None;
      }
      Pow256Values();
      ValueBound(before[..8]);
      r := Some(value.value);
    }

    method I64() returns (r: Option<Words.I64>)
      requires Valid()
      modifies this
      ensures Valid() && Reads(GetI64(old(Rest())), r, Rest())
    {
      var raw := U64();
      if raw.None? {
        return None;
      }
      r := Some(if raw.value < TWO_63 then raw.value else -(MAX_U64 - raw.value) - 1);
    }

    /** A length-prefixed string or blob within the given limit. */
    method Blob(limit: nat) returns (r: Option<Bytes>)
      requires Valid()
      modifies this
      ensures Valid() && Reads(GetBytes(limit, old(Rest())), r, Rest())
    {
      var size := U32();
      if size.None? || size.value > limit {
        return None;
      }
      r := Raw(size.value);
    }

    method Count() returns (r: Option<Words.U32>)
      requires Valid()
      modifies this
      ensures Valid() && Reads(GetCount(limits, old(Rest())), r, Rest())
    {
      var n := U32();
      if n.None? || n.value > limits.maxVectorItems {
        return None;
      }
      r := n;
    }
  }

  /** The reader returned what the function parses and stands after it; or both failed. */
  ghost predicate Reads<T>(parsed: Parsed<T>, r: Option<T>, rest: Bytes) {
    if r.Some? then parsed == Some((r.value, rest)) else parsed.None?
  }
}
