/**
 * Canonical encodings of payloads, evidence and facts. Encoding a valid value
 * and decoding it within the limits gives the value back, so the encoding is
 * injective and byte-keyed deduplication never merges different facts.
 */
module FactCodec {
  import opened Words
  import opened Wire
  import opened Facts
  import opened EnumCodes
  import Text

  const CODEC_VERSION: U16 := 1
  const PAYLOAD_MAGIC: Bytes := [0x56, 0x49, 0x59, 0x50]
  const EVIDENCE_MAGIC: Bytes := [0x56, 0x49, 0x59, 0x45]
  const FACT_MAGIC: Bytes := [0x56, 0x49, 0x59, 0x46]

  // ---- repeated fields --------------------------------------------------------

  function PutCases(cases: seq<DispatchCase>, t: Bytes): Bytes {
    if cases == [] then t
    else PutOptionU64(cases[0].selector, PutU64(cases[0].target, PutCases(cases[1..], t)))
  }

  function GetCases(n: nat, s: Bytes): Parsed<seq<DispatchCase>> {
    if n == 0 then Some(([], s))
    else
      var (selector, s) :- GetOptionU64(s);
      var (target, s) :- GetU64(s);
      var (rest, s) :- GetCases(n - 1, s);
      Some(([DispatchCase(selector, target)] + rest, s))
  }

  predicate CallBytesShort(values: seq<CallValue>) {
    forall i :: 0 <= i < |values| ==> |values[i].location| < TWO_32 && |values[i].bytes| < TWO_32
  }

  function PutCallValues(values: seq<CallValue>, t: Bytes): Bytes
    requires CallBytesShort(values)
  {
    if values == [] then t
    else PutU32(values[0].ordinal,
                PutBytes(values[0].location, PutBytes(values[0].bytes, PutCallValues(values[1..], t))))
  }

  function GetCallValues(limits: Limits, n: nat, s: Bytes): Parsed<seq<CallValue>> {
    if n == 0 then Some(([], s))
    else
      var (ordinal, s) :- GetU32(s);
      var (location, s) :- GetBytes(limits.maxStringBytes, s);
      var (bytes, s) :- GetBytes(limits.maxFactBytes, s);
      var (rest, s) :- GetCallValues(limits, n - 1, s);
      Some(([CallValue(ordinal, location, bytes)] + rest, s))
  }

  function PutCallList(values: seq<CallValue>, t: Bytes): Bytes
    requires CallBytesShort(values) && |values| < TWO_32
  {
    PutU32(|values|, PutCallValues(values, t))
  }

  function PutAddresses(addresses: seq<Address>, t: Bytes): Bytes {
    if addresses == [] then t else PutU64(addresses[0], PutAddresses(addresses[1..], t))
  }

  function GetAddresses(n: nat, s: Bytes): Parsed<seq<Address>> {
    if n == 0 then Some(([], s))
    else
      var (address, s) :- GetU64(s);
      var (rest, s) :- GetAddresses(n - 1, s);
      Some(([address] + rest, s))
  }

  // ---- payloads ---------------------------------------------------------------

  function KindCode(p: Payload): Byte {
    match p
    case CodeTarget(_, _, _, _) => 1
    case BranchReachability(_, _, _) => 2
    case MemoryAccess(_, _, _, _) => 3
    case MemoryValue(_, _, _, _) => 4
    case StringCandidate(_, _, _, _, _) => 5
    case FunctionCandidate(_, _, _) => 6
    case FunctionTrait(_, _, _) => 7
    case CodeRegion(_, _, _) => 8
    case DispatchMap(_, _, _, _) => 9
    case CfgCandidate(_, _, _, _) => 10
    case FunctionOutcome(_, _, _, _, _) => 11
    case RegisterValue(_, _, _, _) => 12
    case CallObservation(_, _, _, _, _, _) => 13
  }

  /** The fields of each kind in wire order. */
  function PutBody(p: Payload, t: Bytes): Bytes
    requires ValidPayload(p)
  {
    match p
    case CodeTarget(from, target, kind, unique) =>
      PutU64(from, PutU64(target, PutU8(TargetCode(kind), PutBool(unique, t))))
    case BranchReachability(branch, successor, state) =>
      PutU64(branch, PutU64(successor, PutU8(ReachCode(state), t)))
    case MemoryAccess(instruction, address, size, access) =>
      PutU64(instruction, PutU64(address, PutU32(size, PutU8(AccessCode(access), t))))
    case MemoryValue(instruction, address, access, bytes) =>
      PutU64(instruction, PutU64(address, PutU8(AccessCode(access), PutBytes(bytes, t))))
    case StringCandidate(address, encoding, bytes, decoded, nullTerminated) =>
      PutU64(address, PutU8(EncodingCode(encoding), PutBytes(bytes, PutBytes(decoded, PutBool(nullTerminated, t)))))
    case FunctionCandidate(entry, end, kind) =>
      PutU64(entry, PutOptionU64(end, PutU8(CandidateCode(kind), t)))
    case FunctionTrait(func, kind, v) =>
      PutU64(func, PutU8(TraitCode(kind), PutU8(TraitValueCode(v.kind),
        PutI64(v.signedValue, PutU64(v.unsignedValue, PutBool(v.booleanValue, PutBytes(v.textValue, t)))))))
    case CodeRegion(start, end, kind) =>
      PutU64(start, PutU64(end, PutU8(RegionCode(kind), t)))
    case DispatchMap(site, cases, default, complete) =>
      PutU64(site, PutU32(|cases|, PutCases(cases, PutOptionU64(default, PutBool(complete, t)))))
    case CfgCandidate(from, to, kind, state) =>
      PutU64(from, PutU64(to, PutU8(EdgeCode(kind), PutU8(ReachCode(state), t))))
    case FunctionOutcome(func, stop, pc, delta, count) =>
      PutU64(func, PutU8(StopCode(stop), PutOptionU64(pc, PutOptionI64(delta, PutOptionU64(count, t)))))
    case RegisterValue(instruction, point, registerId, bytes) =>
      PutU64(instruction, PutU8(PointCode(point), PutBytes(registerId, PutBytes(bytes, t))))
    case CallObservation(source, target, kind, result, arguments, returns_) =>
      PutU64(source, PutOptionU64(target, PutU8(CallKindCode(kind), PutU8(ResultCode(result),
        PutCallList(arguments, PutCallList(returns_, t))))))
  }

  function GetMemoryValue(limits: Limits, s: Bytes): Parsed<Payload> {
    var (instruction, s) :- GetU64(s);
    var (address, s) :- GetU64(s);
    var (code, s) :- GetU8(s);
    var access :- AccessOf(code);
    var (bytes, s) :- GetBytes(limits.maxFactBytes, s);
    Some((MemoryValue(instruction, address, access, bytes), s))
  }

  function GetTrait(limits: Limits, s: Bytes): Parsed<Payload> {
    var (func, s) :- GetU64(s);
    var (code, s) :- GetU8(s);
    var traitKind :- TraitOf(code);
    var (valueCode, s) :- GetU8(s);
    var valueKind :- TraitValueOf(valueCode);
    var (signedValue, s) :- GetI64(s);
    var (unsignedValue, s) :- GetU64(s);
    var (booleanValue, s) :- GetBool(s);
    var (text, s) :- GetBytes(limits.maxStringBytes, s);
    Some((FunctionTrait(func, traitKind, TraitValue(valueKind, signedValue, unsignedValue, booleanValue, text)), s))
  }

  function GetOutcome(s: Bytes): Parsed<Payload> {
    var (func, s) :- GetU64(s);
    var (code, s) :- GetU8(s);
    var stop :- StopOf(code);
    var (pc, s) :- GetOptionU64(s);
    var (delta, s) :- GetOptionI64(s);
    var (count, s) :- GetOptionU64(s);
    Some((FunctionOutcome(func, stop, pc, delta, count), s))
  }

  function GetRegisterValue(limits: Limits, s: Bytes): Parsed<Payload> {
    var (instruction, s) :- GetU64(s);
    var (code, s) :- GetU8(s);
    var point :- PointOf(code);
    var (registerId, s) :- GetBytes(limits.maxStringBytes, s);
    var (bytes, s) :- GetBytes(limits.maxFactBytes, s);
    Some((RegisterValue(instruction, point, registerId, bytes), s))
  }

  function GetCallList(limits: Limits, s: Bytes): Parsed<seq<CallValue>> {
    var (n, s) :- GetCount(limits, s);
    GetCallValues(limits, n, s)
  }

  function GetCall(limits: Limits, s: Bytes): Parsed<Payload> {
    var (source, s) :- GetU64(s);
    var (target, s) :- GetOptionU64(s);
    var (code, s) :- GetU8(s);
    var callKind :- CallKindOf(code);
    var (resultCode, s) :- GetU8(s);
    var callResult :- ResultOf(resultCode);
    var (arguments, s) :- GetCallList(limits, s);
    var (returns_, s) :- GetCallList(limits, s);
    Some((CallObservation(source, target, callKind, callResult, arguments, returns_), s))
  }

  function GetBody(kind: Byte, limits: Limits, s: Bytes): Parsed<Payload> {
    match kind
    case 1 =>
      var (from, s) :- GetU64(s);
      var (target, s) :- GetU64(s);
      var (code, s) :- GetU8(s);
      var targetKind :- TargetOf(code);
      var (unique, s) :- GetBool(s);
      Some((CodeTarget(from, target, targetKind, unique), s))
    case 2 =>
      var (branch, s) :- GetU64(s);
      var (successor, s) :- GetU64(s);
      var (code, s) :- GetU8(s);
      var state :- ReachOf(code);
      Some((BranchReachability(branch, successor, state), s))
    case 3 =>
      var (instruction, s) :- GetU64(s);
      var (address, s) :- GetU64(s);
      var (size, s) :- GetU32(s);
      var (code, s) :- GetU8(s);
      var access :- AccessOf(code);
      Some((MemoryAccess(instruction, address, size, access), s))
    case 4 => GetMemoryValue(limits, s)
    case 5 =>
      var (address, s) :- GetU64(s);
      var (code, s) :- GetU8(s);
      var encoding :- EncodingOf(code);
      var (bytes, s) :- GetBytes(limits.maxFactBytes, s);
      var (decoded, s) :- GetBytes(limits.maxStringBytes, s);
      var (nullTerminated, s) :- GetBool(s);
      Some((StringCandidate(address, encoding, bytes, decoded, nullTerminated), s))
    case 6 =>
      var (entry, s) :- GetU64(s);
      var (end, s) :- GetOptionU64(s);
      var (code, s) :- GetU8(s);
      var candidateKind :- CandidateOf(code);
      Some((FunctionCandidate(entry, end, candidateKind), s))
    case 7 => GetTrait(limits, s)
    case 8 =>
      var (start, s) :- GetU64(s);
      var (end, s) :- GetU64(s);
      var (code, s) :- GetU8(s);
      var regionKind :- RegionOf(code);
      Some((CodeRegion(start, end, regionKind), s))
    case 9 =>
      var (site, s) :- GetU64(s);
      var (count, s) :- GetCount(limits, s);
      var (cases, s) :- GetCases(count, s);
      var (default, s) :- GetOptionU64(s);
      var (complete, s) :- GetBool(s);
      Some((DispatchMap(site, cases, default, complete), s))
    case 10 =>
      var (from, s) :- GetU64(s);
      var (to, s) :- GetU64(s);
      var (code, s) :- GetU8(s);
      var edgeKind :- EdgeOf(code);
      var (reach, s) :- GetU8(s);
      var state :- ReachOf(reach);
      Some((CfgCandidate(from, to, edgeKind, state), s))
    case 11 => GetOutcome(s)
    case 12 => GetRegisterValue(limits, s)
    case 13 => GetCall(limits, s)
    case _ => None
  }

  // ---- what the decode limits demand -----------------------------------------

  predicate CallBytesFit(values: seq<CallValue>, limits: Limits) {
    forall i :: 0 <= i < |values| ==>
      |values[i].location| <= limits.maxStringBytes && |values[i].bytes| <= limits.maxFactBytes
  }

  predicate FieldsFit(p: Payload, limits: Limits) {
    match p
    case MemoryValue(_, _, _, bytes) => |bytes| <= limits.maxFactBytes
    case StringCandidate(_, _, bytes, decoded, _) =>
      |bytes| <= limits.maxFactBytes && |decoded| <= limits.maxStringBytes
    case FunctionTrait(_, _, v) => |v.textValue| <= limits.maxStringBytes
    case DispatchMap(_, cases, _, _) => |cases| <= limits.maxVectorItems
    case RegisterValue(_, _, registerId, bytes) =>
      |registerId| <= limits.maxStringBytes && |bytes| <= limits.maxFactBytes
    case CallObservation(_, _, _, _, arguments, returns_) =>
      && |arguments| <= limits.maxVectorItems && CallBytesFit(arguments, limits)
      && |returns_| <= limits.maxVectorItems && CallBytesFit(returns_, limits)
    case _ => true
  }

  lemma {:induction false} CasesRoundTrip(cases: seq<DispatchCase>, t: Bytes)
    ensures GetCases(|cases|, PutCases(cases, t)) == Some((cases, t))
  {
    hide PutOptionU64, GetOptionU64, PutU64, GetU64;
    if cases != [] {
      IntegersRoundTrip();
      OptionsRoundTrip();
      CasesRoundTrip(cases[1..], t);
      assert [cases[0]] + cases[1..] == cases;
    }
  }

  lemma {:induction false} CallValuesRoundTrip(values: seq<CallValue>, limits: Limits, t: Bytes)
    requires CallBytesShort(values)
    ensures GetCallValues(limits, |values|, PutCallValues(values, t)) ==
            if CallBytesFit(values, limits) then Some((values, t)) else None
  {
    hide PutU32, GetU32, PutBytes, GetBytes;
    if values != [] {
      CallValuesRoundTrip(values[1..], limits, t);
      var rest := PutCallValues(values[1..], t);
      var tail := PutBytes(values[0].bytes, rest);
      BytesRoundTrip(values[0].bytes, rest, limits.maxFactBytes);
      BytesRoundTrip(values[0].location, tail, limits.maxStringBytes);
      U32RoundTrip(values[0].ordinal, PutBytes(values[0].location, tail));
      assert values == [values[0]] + values[1..];
      assert CallBytesFit(values, limits) <==>
             CallBytesFit([values[0]], limits) && CallBytesFit(values[1..], limits);
    }
  }

  lemma {:induction false} CallListRoundTrip(values: seq<CallValue>, limits: Limits, t: Bytes)
    requires CallBytesShort(values) && |values| < TWO_32
    ensures GetCallList(limits, PutCallList(values, t)) ==
            if |values| <= limits.maxVectorItems && CallBytesFit(values, limits) then Some((values, t)) else None
  {
    hide PutU32, GetU32, PutCallValues, GetCallValues;
    U32RoundTrip(|values|, PutCallValues(values, t));
    CallValuesRoundTrip(values, limits, t);
  }

  lemma {:induction false} AddressesRoundTrip(addresses: seq<Address>, t: Bytes)
    ensures GetAddresses(|addresses|, PutAddresses(addresses, t)) == Some((addresses, t))
  {
    hide PutU64, GetU64;
    if addresses != [] {
      IntegersRoundTrip();
      AddressesRoundTrip(addresses[1..], t);
      assert [addresses[0]] + addresses[1..] == addresses;
    }
  }

  /** Kinds made of fixed-size fields only: control flow, then ranges. */
  lemma {:induction false} FlowBodyRoundTrip(p: Payload, limits: Limits, t: Bytes)
    requires ValidPayload(p) && (p.CodeTarget? || p.BranchReachability? || p.CfgCandidate?)
    ensures GetBody(KindCode(p), limits, PutBody(p, t)) ==
            if FieldsFit(p, limits) then Some((p, t)) else None
  {
    hide PutU8, PutU32, PutU64, PutBool, PutOptionU64, PutOptionI64;
    hide GetU8, GetU32, GetU64, GetBool, GetOptionU64, GetOptionI64;
    hide GetMemoryValue, GetTrait, GetOutcome, GetRegisterValue, GetCall;
    IntegersRoundTrip();
  }

  lemma {:induction false} RangeBodyRoundTrip(p: Payload, limits: Limits, t: Bytes)
    requires ValidPayload(p) && (p.MemoryAccess? || p.FunctionCandidate? || p.CodeRegion?)
    ensures GetBody(KindCode(p), limits, PutBody(p, t)) ==
            if FieldsFit(p, limits) then Some((p, t)) else None
  {
    hide PutU8, PutU32, PutU64, PutBool, PutOptionU64, PutOptionI64;
    hide GetU8, GetU32, GetU64, GetBool, GetOptionU64, GetOptionI64;
    hide GetMemoryValue, GetTrait, GetOutcome, GetRegisterValue, GetCall;
    IntegersRoundTrip();
    OptionsRoundTrip();
  }

  lemma {:induction false} OutcomeFits(p: Payload, limits: Limits)
    requires p.FunctionOutcome?
    ensures FieldsFit(p, limits)
  {
  }

  lemma {:induction false} OutcomeBodyRoundTrip(p: Payload, limits: Limits, t: Bytes)
    requires ValidPayload(p) && p.FunctionOutcome?
    ensures GetBody(KindCode(p), limits, PutBody(p, t)) == Some((p, t))
  {
    hide PutU8, PutU64, PutOptionU64, PutOptionI64, GetU8, GetU64, GetOptionU64, GetOptionI64;
    assert GetBody(KindCode(p), limits, PutBody(p, t)) == GetOutcome(PutBody(p, t));
    hide GetBody;
    IntegersRoundTrip();
    OptionsRoundTrip();
  }

  lemma {:induction false} MemoryBodyRoundTrip(p: Payload, limits: Limits, t: Bytes)
    requires ValidPayload(p) && p.MemoryValue?
    ensures GetBody(KindCode(p), limits, PutBody(p, t)) ==
            if FieldsFit(p, limits) then Some((p, t)) else None
  {
    hide PutU8, PutU64, PutBytes, GetU8, GetU64, GetBytes, SizedRangeValid;
    assert GetBody(KindCode(p), limits, PutBody(p, t)) == GetMemoryValue(limits, PutBody(p, t));
    hide GetBody;
    IntegersRoundTrip();
    BytesRoundTrip(p.bytes, t, limits.maxFactBytes);
  }

  lemma {:induction false} RegisterBodyRoundTrip(p: Payload, limits: Limits, t: Bytes)
    requires ValidPayload(p) && p.RegisterValue?
    ensures GetBody(KindCode(p), limits, PutBody(p, t)) ==
            if FieldsFit(p, limits) then Some((p, t)) else None
  {
    hide PutU8, PutU64, PutBytes, GetU8, GetU64, GetBytes;
    assert GetBody(KindCode(p), limits, PutBody(p, t)) == GetRegisterValue(limits, PutBody(p, t));
    hide GetBody;
    IntegersRoundTrip();
    BytesRoundTrip(p.bytes, t, limits.maxFactBytes);
    BytesRoundTrip(p.registerId, PutBytes(p.bytes, t), limits.maxStringBytes);
  }

  lemma {:induction false} StringBodyRoundTrip(p: Payload, limits: Limits, t: Bytes)
    requires ValidPayload(p) && p.StringCandidate?
    ensures GetBody(KindCode(p), limits, PutBody(p, t)) ==
            if FieldsFit(p, limits) then Some((p, t)) else None
  {
    hide PutU8, PutU64, PutBool, PutBytes, GetU8, GetU64, GetBool, GetBytes;
    hide Text.Parse, BytesMatchEncoding, SizedRangeValid;
    IntegersRoundTrip();
    var tail := PutBool(p.nullTerminated, t);
    BytesRoundTrip(p.decoded, tail, limits.maxStringBytes);
    BytesRoundTrip(p.bytes, PutBytes(p.decoded, tail), limits.maxFactBytes);
  }

  lemma {:induction false} TraitBodyRoundTrip(p: Payload, limits: Limits, t: Bytes)
    requires ValidPayload(p) && p.FunctionTrait?
    ensures GetBody(KindCode(p), limits, PutBody(p, t)) ==
            if FieldsFit(p, limits) then Some((p, t)) else None
  {
    hide PutU8, PutU64, PutI64, PutBool, PutBytes, GetU8, GetU64, GetI64, GetBool, GetBytes;
    hide TraitKindValid, TraitValueValid;
    assert GetBody(KindCode(p), limits, PutBody(p, t)) == GetTrait(limits, PutBody(p, t));
    hide GetBody;
    IntegersRoundTrip();
    BytesRoundTrip(p.value.textValue, t, limits.maxStringBytes);
  }

  lemma {:induction false} DispatchBodyRoundTrip(p: Payload, limits: Limits, t: Bytes)
    requires ValidPayload(p) && p.DispatchMap?
    ensures GetBody(KindCode(p), limits, PutBody(p, t)) ==
            if FieldsFit(p, limits) then Some((p, t)) else None
  {
    hide PutU32, PutU64, PutBool, PutOptionU64, PutCases, GetU32, GetU64, GetBool, GetOptionU64, GetCases;
    IntegersRoundTrip();
    OptionsRoundTrip();
    CasesRoundTrip(p.cases, PutOptionU64(p.defaultTarget, PutBool(p.complete, t)));
  }

  lemma {:induction false} CallBodyRoundTrip(p: Payload, limits: Limits, t: Bytes)
    requires ValidPayload(p) && p.CallObservation?
    ensures GetBody(KindCode(p), limits, PutBody(p, t)) ==
            if FieldsFit(p, limits) then Some((p, t)) else None
  {
    hide PutU8, PutU64, PutOptionU64, PutCallList;
    hide GetU8, GetU64, GetOptionU64, GetCallList;
    assert GetBody(KindCode(p), limits, PutBody(p, t)) == GetCall(limits, PutBody(p, t));
    hide GetBody;
    IntegersRoundTrip();
    OptionsRoundTrip();
    assert CallBytesShort(p.arguments) && CallBytesShort(p.returns_);
    CallListRoundTrip(p.returns_, limits, t);
    CallListRoundTrip(p.arguments, limits, PutCallList(p.returns_, t));
  }

  /** Every payload kind is read back exactly when the limits admit its fields. */
  lemma {:induction false} BodyRoundTrip(p: Payload, limits: Limits, t: Bytes)
    requires ValidPayload(p)
    ensures GetBody(KindCode(p), limits, PutBody(p, t)) ==
            if FieldsFit(p, limits) then Some((p, t)) else None
  {
    hide GetBody, PutBody, FieldsFit, ValidPayload;
    match p {
      case DispatchMap(_, _, _, _) => DispatchBodyRoundTrip(p, limits, t);
      case CallObservation(_, _, _, _, _, _) => CallBodyRoundTrip(p, limits, t);
      case MemoryValue(_, _, _, _) => MemoryBodyRoundTrip(p, limits, t);
      case StringCandidate(_, _, _, _, _) => StringBodyRoundTrip(p, limits, t);
      case FunctionTrait(_, _, _) => TraitBodyRoundTrip(p, limits, t);
      case RegisterValue(_, _, _, _) => RegisterBodyRoundTrip(p, limits, t);
      case FunctionOutcome(_, _, _, _, _) => OutcomeBodyRoundTrip(p, limits, t); OutcomeFits(p, limits);
      case MemoryAccess(_, _, _, _) => RangeBodyRoundTrip(p, limits, t);
      case FunctionCandidate(_, _, _) => RangeBodyRoundTrip(p, limits, t);
      case CodeRegion(_, _, _) => RangeBodyRoundTrip(p, limits, t);
      case _ => FlowBodyRoundTrip(p, limits, t);
    }
  }

  function EncodePayload(p: Payload): Bytes
    requires ValidPayload(p)
  {
    Tag(PAYLOAD_MAGIC, CODEC_VERSION, PutU8(KindCode(p), PutBody(p, [])))
  }

  function DecodePayload(b: Bytes, limits: Limits): Option<Payload> {
    if |b| > limits.maxFactBytes then None
    else
      var s :- Untag(PAYLOAD_MAGIC, CODEC_VERSION, b);
      var (kind, s) :- GetU8(s);
      var (decoded, s) :- GetBody(kind, limits, s);
      var normalized := NormalizePayload(decoded);
      if s != [] || !ValidPayload(normalized) || EncodePayload(normalized) != b then None
      else Some(normalized)
  }

  /** A payload's canonical bytes decode to it, and only values the limits admit decode. */
  lemma {:induction false} PayloadRoundTrip(p: Payload, limits: Limits)
    requires ValidPayload(p)
    ensures DecodePayload(EncodePayload(p), limits) ==
            if |EncodePayload(p)| <= limits.maxFactBytes && FieldsFit(p, limits) then Some(p) else None
  {
    hide Tag, Untag, PutU8, GetU8, GetBody, PutBody, FieldsFit, ValidPayload, NormalizePayload;
    IntegersRoundTrip();
    TagRoundTrip(PAYLOAD_MAGIC, CODEC_VERSION, PutU8(KindCode(p), PutBody(p, [])));
    BodyRoundTrip(p, limits, []);
    ValidIsNormal(p);
  }

  /** Distinct valid payloads have distinct canonical bytes. */
  lemma {:induction false} PayloadInjective(p: Payload, q: Payload)
    requires ValidPayload(p) && ValidPayload(q) && EncodePayload(p) == EncodePayload(q)
    ensures p == q
  {
    hide Tag, Untag, PutU8, GetU8, GetBody, PutBody, FieldsFit, ValidPayload;
    IntegersRoundTrip();
    TagRoundTrip(PAYLOAD_MAGIC, CODEC_VERSION, PutU8(KindCode(p), PutBody(p, [])));
    TagRoundTrip(PAYLOAD_MAGIC, CODEC_VERSION, PutU8(KindCode(q), PutBody(q, [])));
    WideLimits(p);
    WideLimits(q);
    BodyRoundTrip(p, Limits(TWO_32, TWO_32, TWO_32), []);
    BodyRoundTrip(q, Limits(TWO_32, TWO_32, TWO_32), []);
  }

  /** Valid fields are bounded by their four-byte lengths. */
  lemma {:induction false} WideLimits(p: Payload)
    requires ValidPayload(p)
    ensures FieldsFit(p, Limits(TWO_32, TWO_32, TWO_32))
  {
  }

  // ---- evidence ---------------------------------------------------------------

  function PutEvidenceTail(e: Evidence): Bytes
    requires ValidEvidence(e)
  {
    PutU8(ProofCode(e.proof), PutU16(e.confidence,
      PutOptionU64(e.scope.runId, PutOptionU64(e.scope.seed,
        PutOptionU64(e.scope.functionStart, PutOptionU64(e.scope.functionEnd,
          PutU64(e.scope.generation,
            PutU32(|e.support|, PutAddresses(e.support, PutBytes(e.detail, []))))))))))
  }

  function PutEvidence(e: Evidence): Bytes
    requires ValidEvidence(e)
  {
    PutBytes(e.producer, PutBytes(e.method_, PutEvidenceTail(e)))
  }

  function GetEvidence(limits: Limits, s: Bytes): Parsed<Evidence> {
    var (producer, s) :- GetBytes(limits.maxStringBytes, s);
    var (method_, s) :- GetBytes(limits.maxStringBytes, s);
    var (code, s) :- GetU8(s);
    var (confidence, s) :- GetU16(s);
    var (runId, s) :- GetOptionU64(s);
    var (seed, s) :- GetOptionU64(s);
    var (functionStart, s) :- GetOptionU64(s);
    var (functionEnd, s) :- GetOptionU64(s);
    var (generation, s) :- GetU64(s);
    var (count, s) :- GetCount(limits, s);
    var (support, s) :- GetAddresses(count, s);
    var (detail, s) :- GetBytes(limits.maxStringBytes, s);
    var proof :- ProofOf(code);
    Some((Evidence(producer, method_, proof, confidence,
                   Scope(runId, seed, functionStart, functionEnd, generation), support, detail), s))
  }

  predicate EvidenceFits(e: Evidence, limits: Limits) {
    && |e.producer| <= limits.maxStringBytes && |e.method_| <= limits.maxStringBytes
    && |e.detail| <= limits.maxStringBytes && |e.support| <= limits.maxVectorItems
  }

  function EncodeEvidence(e: Evidence): Bytes
    requires ValidEvidence(e)
  {
    Tag(EVIDENCE_MAGIC, CODEC_VERSION, PutEvidence(e))
  }

  function DecodeEvidence(b: Bytes, limits: Limits): Option<Evidence> {
    if |b| > limits.maxFactBytes then None
    else
      var s :- Untag(EVIDENCE_MAGIC, CODEC_VERSION, b);
      var (decoded, s) :- GetEvidence(limits, s);
      if s != [] || !ValidEvidence(decoded) || EncodeEvidence(decoded) != b then None
      else Some(decoded)
  }

  lemma {:induction false} EvidenceFieldsRoundTrip(e: Evidence, limits: Limits)
    requires ValidEvidence(e)
    ensures GetEvidence(limits, PutEvidence(e)) == if EvidenceFits(e, limits) then Some((e, [])) else None
  {
    hide PutU8, PutU16, PutU32, PutU64, PutBytes, PutOptionU64, PutAddresses;
    hide GetU8, GetU16, GetU32, GetU64, GetBytes, GetOptionU64, GetAddresses;
    IntegersRoundTrip();
    OptionsRoundTrip();
    BytesRoundTrip(e.detail, [], limits.maxStringBytes);
    AddressesRoundTrip(e.support, PutBytes(e.detail, []));
    BytesRoundTrip(e.method_, PutEvidenceTail(e), limits.maxStringBytes);
    BytesRoundTrip(e.producer, PutBytes(e.method_, PutEvidenceTail(e)), limits.maxStringBytes);
  }

  lemma {:induction false} EvidenceRoundTrip(e: Evidence, limits: Limits)
    requires ValidEvidence(e)
    ensures DecodeEvidence(EncodeEvidence(e), limits) ==
            if |EncodeEvidence(e)| <= limits.maxFactBytes && EvidenceFits(e, limits) then Some(e) else None
  {
    hide Tag, Untag, GetEvidence, PutEvidence, ValidEvidence, EvidenceFits;
    TagRoundTrip(EVIDENCE_MAGIC, CODEC_VERSION, PutEvidence(e));
    EvidenceFieldsRoundTrip(e, limits);
  }

  lemma {:induction false} EvidenceInjective(e: Evidence, f: Evidence)
    requires ValidEvidence(e) && ValidEvidence(f) && EncodeEvidence(e) == EncodeEvidence(f)
    ensures e == f
  {
    hide Tag, Untag, GetEvidence, PutEvidence;
    TagRoundTrip(EVIDENCE_MAGIC, CODEC_VERSION, PutEvidence(e));
    TagRoundTrip(EVIDENCE_MAGIC, CODEC_VERSION, PutEvidence(f));
    EvidenceFieldsRoundTrip(e, Limits(TWO_32, TWO_32, TWO_32));
    EvidenceFieldsRoundTrip(f, Limits(TWO_32, TWO_32, TWO_32));
  }

  // ---- facts ------------------------------------------------------------------

  /** Fails only when a part is too long for its four-byte length. */
  function EncodeFact(f: Fact): Option<Bytes>
    requires ValidFact(f)
  {
    var payload, evidence := EncodePayload(f.payload), EncodeEvidence(f.evidence);
    if |payload| >= TWO_32 || |evidence| >= TWO_32 then None
    else Some(Tag(FACT_MAGIC, CODEC_VERSION, PutBytes(payload, PutBytes(evidence, []))))
  }

  function DecodeFact(b: Bytes, limits: Limits): Option<Fact> {
    if |b| > limits.maxFactBytes then None
    else
      var s :- Untag(FACT_MAGIC, CODEC_VERSION, b);
      var (payloadBytes, s) :- GetBytes(limits.maxFactBytes, s);
      var (evidenceBytes, s) :- GetBytes(limits.maxFactBytes, s);
      if s != [] then None
      else
        var payload :- DecodePayload(payloadBytes, limits);
        var evidence :- DecodeEvidence(evidenceBytes, limits);
        var normalized := Normalize(Fact(payload, evidence));
        if !ValidFact(normalized) || EncodeFact(normalized) != Some(b) then None
        else Some(Fact(payload, evidence))
  }

  predicate FactFits(f: Fact, limits: Limits)
    requires ValidFact(f)
  {
    && EncodeFact(f).Some? && |EncodeFact(f).value| <= limits.maxFactBytes
    && FieldsFit(f.payload, limits) && EvidenceFits(f.evidence, limits)
  }

  /** Tags and lengths only add bytes, so the parts of a fact that fits fit too. */
  lemma {:induction false} PartsShorter(payload: Bytes, evidence: Bytes)
    requires |payload| < TWO_32 && |evidence| < TWO_32
    ensures var whole := Tag(FACT_MAGIC, CODEC_VERSION, PutBytes(payload, PutBytes(evidence, [])));
            |payload| <= |whole| && |evidence| <= |whole|
  {
  }

  lemma {:induction false} FactRoundTrip(f: Fact, limits: Limits)
    requires ValidFact(f) && FactFits(f, limits)
    ensures DecodeFact(EncodeFact(f).value, limits) == Some(f)
  {
    hide Tag, Untag, GetBytes, PutBytes, EncodePayload, EncodeEvidence, DecodePayload, DecodeEvidence;
    hide FieldsFit, EvidenceFits, Normalize;
    var payload, evidence := EncodePayload(f.payload), EncodeEvidence(f.evidence);
    TagRoundTrip(FACT_MAGIC, CODEC_VERSION, PutBytes(payload, PutBytes(evidence, [])));
    PartsShorter(payload, evidence);
    BytesRoundTrip(payload, PutBytes(evidence, []), limits.maxFactBytes);
    BytesRoundTrip(evidence, [], limits.maxFactBytes);
    PayloadRoundTrip(f.payload, limits);
    EvidenceRoundTrip(f.evidence, limits);
    ValidFactIsNormal(f);
  }

  /** Whatever decodes is valid and the input is exactly its canonical encoding. */
  lemma {:induction false} DecodedFactCanonical(b: Bytes, limits: Limits)
    requires DecodeFact(b, limits).Some?
    ensures ValidFact(DecodeFact(b, limits).value)
    ensures EncodeFact(DecodeFact(b, limits).value) == Some(b)
  {
    hide Untag, GetBytes, ValidPayload, ValidEvidence, EncodeFact, GetBody, GetEvidence;
    var f := DecodeFact(b, limits).value;
    ValidIsNormal(f.payload);
    ValidEvidenceIsNormal(f.evidence);
  }

  /** Whatever decodes is within the limits. */
  lemma {:induction false} DecodedFactFits(b: Bytes, limits: Limits)
    requires DecodeFact(b, limits).Some?
    ensures ValidFact(DecodeFact(b, limits).value) && FactFits(DecodeFact(b, limits).value, limits)
  {
    hide Untag, GetBytes, ValidPayload, ValidEvidence, EncodeFact, GetBody, GetEvidence, FieldsFit, EvidenceFits;
    hide DecodePayload, DecodeEvidence, EncodePayload, EncodeEvidence, NormalizePayload;
    DecodedFactCanonical(b, limits);
    var f := DecodeFact(b, limits).value;
    var s := Untag(FACT_MAGIC, CODEC_VERSION, b).value;
    var (payloadBytes, rest) := GetBytes(limits.maxFactBytes, s).value;
    var (evidenceBytes, _) := GetBytes(limits.maxFactBytes, rest).value;
    DecodedPartsCanonical(payloadBytes, evidenceBytes, limits);
    PayloadRoundTrip(f.payload, limits);
    EvidenceRoundTrip(f.evidence, limits);
  }

  lemma {:induction false} DecodedPartsCanonical(payloadBytes: Bytes, evidenceBytes: Bytes, limits: Limits)
    requires DecodePayload(payloadBytes, limits).Some? && DecodeEvidence(evidenceBytes, limits).Some?
    ensures ValidPayload(DecodePayload(payloadBytes, limits).value)
    ensures EncodePayload(DecodePayload(payloadBytes, limits).value) == payloadBytes
    ensures ValidEvidence(DecodeEvidence(evidenceBytes, limits).value)
    ensures EncodeEvidence(DecodeEvidence(evidenceBytes, limits).value) == evidenceBytes
  {
    hide Untag, GetU8, ValidPayload, ValidEvidence;
    hide GetBody, GetEvidence, EncodePayload, EncodeEvidence, NormalizePayload;
  }
}
