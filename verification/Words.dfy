/** Fixed-width words as bounded integers, byte strings and their lexicographic order. */
module Words {
  import opened Orders

  datatype Option<+T> = None | Some(value: T) {
    predicate IsFailure() { None? }
    function PropagateFailure<U>(): Option<U> requires None? { None }
    function Extract(): T requires Some? { value }
  }

  const TWO_32: int := 0x1_0000_0000
  const TWO_63: int := 0x8000_0000_0000_0000
  const TWO_64: int := 0x1_0000_0000_0000_0000

  type Byte = x: int | 0 <= x < 0x100
  type U16 = x: int | 0 <= x < 0x1_0000
  type U32 = x: int | 0 <= x < 0x1_0000_0000
  type U64 = x: int | 0 <= x < 0x1_0000_0000_0000_0000
  type I64 = x: int | -0x8000_0000_0000_0000 <= x < 0x8000_0000_0000_0000
  type Address = U64
  type Bytes = seq<Byte>

  const MAX_U64: U64 := 0xFFFF_FFFF_FFFF_FFFF

  /** Byte strings hold the program's text: a literal as its ASCII bytes. */
  function Ascii(s: string): Bytes {
    seq(|s|, i requires 0 <= i < |s| => (s[i] as int) % 0x100)
  }

  /** std::lexicographical_compare on unsigned bytes. */
  predicate BytesLess(a: Bytes, b: Bytes)
    decreases |a|
  {
    b != [] && (a == [] || a[0] < b[0] || (a[0] == b[0] && BytesLess(a[1..], b[1..])))
  }

  lemma {:induction false} BytesLessTrans(a: Bytes, b: Bytes, c: Bytes)
    requires BytesLess(a, b) && BytesLess(b, c)
    ensures BytesLess(a, c)
    decreases |a|
  {
    if a != [] && a[0] == b[0] == c[0] {
      BytesLessTrans(a[1..], b[1..], c[1..]);
    }
  }

  lemma {:induction false} BytesLessIrreflexive(a: Bytes)
    ensures !BytesLess(a, a)
    decreases |a|
  {
    if a != [] {
      BytesLessIrreflexive(a[1..]);
    }
  }

  lemma {:induction false} BytesLessConnected(a: Bytes, b: Bytes)
    ensures a == b || BytesLess(a, b) || BytesLess(b, a)
    decreases |a|
  {
    if a != [] && b != [] && a[0] == b[0] {
      BytesLessConnected(a[1..], b[1..]);
      assert a == [a[0]] + a[1..] && b == [b[0]] + b[1..];
    }
  }

  lemma {:induction false} BytesLessTotal()
    ensures StrictTotal(BytesLess)
  {
    forall a ensures !BytesLess(a, a) { BytesLessIrreflexive(a); }
    forall a, b, c | BytesLess(a, b) && BytesLess(b, c) ensures BytesLess(a, c) {
      BytesLessTrans(a, b, c);
    }
    forall a, b ensures a == b || BytesLess(a, b) || BytesLess(b, a) {
      BytesLessConnected(a, b);
    }
  }

  predicate AddressLess(a: Address, b: Address) { a < b }

  /** std::optional order: an absent value precedes every present one. */
  predicate OptionLess(a: Option<U64>, b: Option<U64>) {
    b.Some? && (a.None? || a.value < b.value)
  }
}
