/**
 * The canonical order of payloads. Keys compare as byte strings, and that puts
 * the ledger in order of payload kind, then of the kind's leading address, then of
 * the address after it where there is one.
 */
module CanonicalOrder {
  import opened Orders
  import opened Words
  import opened Wire
  import opened Facts
  import opened FactCodec
  import opened EnumCodes

  // ---- byte strings ---------------------------------------------------------------------------------------

  /** Equally long beginnings decide first. */
  lemma {:induction false} LessByParts(a: Bytes, b: Bytes, x: Bytes, y: Bytes)
    requires |a| == |b|
    ensures BytesLess(a + x, b + y) <==> BytesLess(a, b) || (a == b && BytesLess(x, y))
    decreases |a|
  {
    if a == [] {
      assert a + x == x && b + y == y;
    } else {
      assert (a + x)[1..] == a[1..] + x && (b + y)[1..] == b[1..] + y;
      assert a == b <==> a[0] == b[0] && a[1..] == b[1..] by {
        assert a == [a[0]] + a[1..] && b == [b[0]] + b[1..];
      }
      LessByParts(a[1..], b[1..], x, y);
    }
  }

  /** Numbers written the highest byte first compare as their bytes do. */
  lemma {:induction false} BigEndianLess(v: nat, w: nat, n: nat)
    requires v < Pow256(n) && w < Pow256(n)
    ensures |BigEndian(v, n)| == |BigEndian(w, n)| == n
    ensures BytesLess(BigEndian(v, n), BigEndian(w, n)) <==> v < w
    ensures BigEndian(v, n) == BigEndian(w, n) <==> v == w
  {
    BigEndianValue(v, n);
    BigEndianValue(w, n);
    if n > 0 {
      BigEndianLess(v / 0x100, w / 0x100, n - 1);
      LessByParts(BigEndian(v / 0x100, n - 1), BigEndian(w / 0x100, n - 1), [v % 0x100], [w % 0x100]);
      OneByteLess(v % 0x100, w % 0x100);
    }
  }

  lemma {:induction false} OneByteLess(v: Byte, w: Byte)
    ensures BytesLess([v], [w]) <==> v < w
  {
    assert [v][1..] == [] && [w][1..] == [];
  }

  // ---- what keys start with -----------------------------------------------------------------------------------

  /** The address a payload of each kind is about first of all. */
  function Leading(p: Payload): Address {
    match p
    case CodeTarget(from, _, _, _) => from
    case BranchReachability(branch, _, _) => branch
    case MemoryAccess(instruction, _, _, _) => instruction
    case MemoryValue(instruction, _, _, _) => instruction
    case StringCandidate(address, _, _, _, _) => address
    case FunctionCandidate(entry, _, _) => entry
    case FunctionTrait(func, _, _) => func
    case CodeRegion(start, _, _) => start
    case DispatchMap(site, _, _, _) => site
    case CfgCandidate(from, _, _, _) => from
    case FunctionOutcome(func, _, _, _, _) => func
    case RegisterValue(instruction, _, _, _) => instruction
    case CallObservation(source, _, _, _, _, _) => source
  }

  /** The address after it, for the kinds that have one. */
  function Following(p: Payload): Option<Address> {
    match p
    case CodeTarget(_, target, _, _) => Some(target)
    case BranchReachability(_, successor, _) => Some(successor)
    case MemoryAccess(_, address, _, _) => Some(address)
    case MemoryValue(_, address, _, _) => Some(address)
    case CodeRegion(_, end, _) => Some(end)
    case CfgCandidate(_, to, _, _) => Some(to)
    case _ => None
  }

  /** The kinds in the order of the ledger. */
  function Rank(p: Payload): nat {
    match p
    case CodeTarget(_, _, _, _) => 0
    case BranchReachability(_, _, _) => 1
    case MemoryAccess(_, _, _, _) => 2
    case MemoryValue(_, _, _, _) => 3
    case StringCandidate(_, _, _, _, _) => 4
    case FunctionCandidate(_, _, _) => 5
    case FunctionTrait(_, _, _) => 6
    case CodeRegion(_, _, _) => 7
    case DispatchMap(_, _, _, _) => 8
    case CfgCandidate(_, _, _, _) => 9
    case FunctionOutcome(_, _, _, _, _) => 10
    case RegisterValue(_, _, _, _) => 11
    case CallObservation(_, _, _, _, _, _) => 12
  }

  /** "VIYP" and version 1. */
  const TAG: Bytes := [0x56, 0x49, 0x59, 0x50, 0, 1]

  lemma {:induction false} NumberStarts(v: U64)
    ensures |BigEndian(v, 8)| == 8
    ensures forall t :: |PutU64(v, t)| == 8 + |t| && PutU64(v, t)[..8] == BigEndian(v, 8) && PutU64(v, t)[8..] == t
  {
    Pow256Values();
    BigEndianValue(v, 8);
    hide BigEndian, Pow256;
  }

  /** A body starts with its leading address, and the address after it where there is one. */
  lemma {:induction false} BodyStarts(p: Payload)
    requires ValidPayload(p)
    ensures var body := PutBody(p, []);
            && |body| >= 8 && body[..8] == BigEndian(Leading(p), 8)
            && (Following(p).Some? ==> |body| >= 16 && body[8..][..8] == BigEndian(Following(p).value, 8))
  {
    NumberStarts(Leading(p));
    if Following(p).Some? {
      NumberStarts(Following(p).value);
    }
    hide BigEndian, PutU64, PutU32, PutU8, PutBool, PutBytes, PutOptionU64, PutOptionI64, PutCases, PutCallList, PutI64;
  }

  lemma {:induction false} KeyShape(p: Payload)
    requires ValidPayload(p)
    ensures EncodePayload(p) == TAG + ([Rank(p) + 1] + PutBody(p, []))
  {
    hide PutBody, BigEndian, Tag;
    KindIsRank(p);
    TagShape([Rank(p) + 1] + PutBody(p, []));
  }

  lemma {:induction false} KindIsRank(p: Payload)
    ensures KindCode(p) == Rank(p) + 1
  {
  }

  lemma {:induction false} VersionBytes()
    ensures BigEndian(1, 2) == [0, 1]
  {
    assert BigEndian(0, 1) == [0];
  }

  lemma {:induction false} TagShape(t: Bytes)
    ensures Tag(PAYLOAD_MAGIC, CODEC_VERSION, t) == TAG + t
  {
    VersionBytes();
    hide BigEndian;
    Regroup(PAYLOAD_MAGIC, [0, 1], t);
    assert PAYLOAD_MAGIC + [0, 1] == TAG;
  }

  lemma {:induction false} Regroup(a: Bytes, b: Bytes, c: Bytes)
    ensures a + (b + c) == (a + b) + c
  {
  }

  lemma {:induction false} TaggedLess(k: Byte, l: Byte, x: Bytes, y: Bytes)
    ensures BytesLess(TAG + ([k] + x), TAG + ([l] + y)) <==> k < l || (k == l && BytesLess(x, y))
  {
    hide BytesLess;
    BytesLessIrreflexive(TAG);
    LessByParts(TAG, TAG, [k] + x, [l] + y);
    LessByParts([k], [l], x, y);
    OneByteLess(k, l);
  }

  /** Keys of different kinds are ordered by kind, whatever the payloads hold. */
  lemma {:induction false} KindsInOrder(p: Payload, q: Payload)
    requires ValidPayload(p) && ValidPayload(q) && Rank(p) < Rank(q)
    ensures BytesLess(EncodePayload(p), EncodePayload(q))
  {
    hide EncodePayload, PutBody, BytesLess;
    KeyShape(p);
    KeyShape(q);
    TaggedLess(Rank(p) + 1, Rank(q) + 1, PutBody(p, []), PutBody(q, []));
  }

  lemma {:induction false} NumbersLess(x: Bytes, y: Bytes, v: U64, w: U64)
    requires |x| >= 8 && |y| >= 8 && x[..8] == BigEndian(v, 8) && y[..8] == BigEndian(w, 8)
    ensures BytesLess(x, y) <==> v < w || (v == w && BytesLess(x[8..], y[8..]))
  {
    Pow256Values();
    BigEndianLess(v, w, 8);
    hide BigEndian, BytesLess, Pow256;
    assert x == x[..8] + x[8..] && y == y[..8] + y[8..];
    LessByParts(x[..8], y[..8], x[8..], y[8..]);
  }

  /** Keys of one kind are ordered by leading address, then by the address after it. */
  lemma {:induction false} AddressesInOrder(p: Payload, q: Payload)
    requires ValidPayload(p) && ValidPayload(q) && Rank(p) == Rank(q)
    ensures Leading(p) < Leading(q) ==> BytesLess(EncodePayload(p), EncodePayload(q))
    ensures Leading(p) == Leading(q) && Following(p).Some? && Following(q).Some? ==>
              (Following(p).value < Following(q).value ==> BytesLess(EncodePayload(p), EncodePayload(q)))
  {
    hide EncodePayload, PutBody, BytesLess, BigEndian, Leading, Following, ValidPayload;
    KeyShape(p);
    KeyShape(q);
    var x, y := PutBody(p, []), PutBody(q, []);
    TaggedLess(Rank(p) + 1, Rank(q) + 1, x, y);
    BodyStarts(p);
    BodyStarts(q);
    NumbersLess(x, y, Leading(p), Leading(q));
    if Following(p).Some? && Following(q).Some? {
      NumbersLess(x[8..], y[8..], Following(p).value, Following(q).value);
    }
  }
}
