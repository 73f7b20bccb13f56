/**
 * What normalisation and validation accept, said of the values themselves:
 * ranges that do not run past the last address, one target per selector, one
 * value per place, text that is the encoding of scalars.
 */
module Validation {
  import opened Orders
  import opened Words
  import opened Facts
  import opened Divergence
  import opened Unicode
  import Text

  // ---- normalisation --------------------------------------------------------------------------------------

  /** Sorted without repetition, with the same elements. */
  ghost predicate Sorts<T(!new)>(s: seq<T>, sorted: seq<T>, less: (T, T) -> bool) {
    Ascending(sorted, less) && Elements(sorted) == Elements(s)
  }

  /** The value of its kind stays, every other field is cleared. */
  ghost predicate Clears(v: TraitValue, n: TraitValue) {
    && n.kind == v.kind
    && n.signedValue == (if v.kind == Signed then v.signedValue else 0)
    && n.unsignedValue == (if v.kind == Unsigned then v.unsignedValue else 0)
    && (n.booleanValue <==> v.kind == Boolean && v.booleanValue)
    && n.textValue == (if v.kind == TextValue then v.textValue else [])
  }

  /** Lists are sorted, inactive fields cleared, and nothing else changes. */
  ghost predicate Normalizes(p: Payload, n: Payload) {
    match p
    case FunctionTrait(func, t, v) => n.FunctionTrait? && n.func == func && n.trait_ == t && Clears(v, n.value)
    case DispatchMap(site, cases, default, complete) =>
      && n.DispatchMap? && n.site == site && n.defaultTarget == default && n.complete == complete
      && Sorts(cases, n.cases, CaseLess)
    case CallObservation(source, target, kind, result, arguments, returns_) =>
      && n.CallObservation? && n.source == source && n.callTarget == target && n.callKind == kind
      && n.callResult == result
      && Sorts(arguments, n.arguments, CallValueLess) && Sorts(returns_, n.returns_, CallValueLess)
    case _ => n == p
  }

  lemma {:induction false} NormalizedExactly(f: Fact)
    ensures Normalizes(f.payload, Normalize(f).payload)
    ensures Sorts(f.evidence.support, Normalize(f).evidence.support, AddressLess)
    ensures Normalize(f).evidence == f.evidence.(support := Normalize(f).evidence.support)
  {
    AddressLessTotal();
    SortUniqueSpec(f.evidence.support, AddressLess);
    PayloadNormalized(f.payload);
  }

  lemma {:induction false} PayloadNormalized(p: Payload)
    ensures Normalizes(p, NormalizePayload(p))
  {
    hide SortUnique, Ascending, CaseLess, CallValueLess;
    match p
    case DispatchMap(_, cases, _, _) =>
      CaseLessTotal();
      SortUniqueSpec(cases, CaseLess);
    case CallObservation(_, _, _, _, arguments, returns_) =>
      CallValueLessTotal();
      SortUniqueSpec(arguments, CallValueLess);
      SortUniqueSpec(returns_, CallValueLess);
    case _ =>
  }

  /** Normalising twice is normalising once, for every payload. */
  lemma {:induction false} NormalizeTwice(p: Payload)
    ensures NormalizePayload(NormalizePayload(p)) == NormalizePayload(p)
  {
    match p
    case DispatchMap(_, cases, _, _) =>
      CaseLessTotal();
      SortUniqueSpec(cases, CaseLess);
      SortUniqueIdempotent(SortUnique(cases, CaseLess), CaseLess);
    case CallObservation(_, _, _, _, arguments, returns_) =>
      CallValueLessTotal();
      SortUniqueSpec(arguments, CallValueLess);
      SortUniqueSpec(returns_, CallValueLess);
      SortUniqueIdempotent(SortUnique(arguments, CallValueLess), CallValueLess);
      SortUniqueIdempotent(SortUnique(returns_, CallValueLess), CallValueLess);
    case _ =>
  }

  // ---- parts ------------------------------------------------------------------------------------------------

  /** At least one byte, and all of them have addresses. */
  ghost predicate Addressable(start: Address, size: nat) {
    size > 0 && forall a: int :: start <= a < start + size ==> IsAddress(a)
  }

  predicate IsAddress(a: int) { 0 <= a < TWO_64 }

  lemma {:induction false} RangeExactly(start: Address, size: nat)
    ensures SizedRangeValid(start, size) <==> Addressable(start, size)
  {
    if Addressable(start, size) {
      assert IsAddress(start + size - 1);
    }
  }

  /** No known selector is listed twice. */
  ghost predicate OneTargetEach(cases: seq<DispatchCase>) {
    forall i, j :: 0 <= i < j < |cases| && cases[i].selector.Some? ==> cases[i].selector != cases[j].selector
  }

  lemma {:induction false} CasesExactly(cases: seq<DispatchCase>)
    ensures DispatchCasesValid(cases) <==> |cases| < TWO_32 && Ascending(cases, CaseLess) && OneTargetEach(cases)
  {
    CaseLessTotal();
    if DispatchCasesValid(cases) {
      NeighboursAscendAll(cases, CaseLess);
      forall i, j | 0 <= i < j < |cases| && cases[i].selector.Some? ensures cases[i].selector != cases[j].selector {
        assert CaseLess(cases[j - 1], cases[j]);
        assert i < j - 1 ==> CaseLess(cases[i], cases[j - 1]);
      }
    }
  }

  /** Places are never empty and neither are values. */
  ghost predicate Filled(values: seq<CallValue>) {
    forall v :: v in values ==> 0 < |v.location| < TWO_32 && 0 < |v.bytes| < TWO_32
  }

  lemma {:induction false} ValuesExactly(values: seq<CallValue>)
    ensures CallValuesValid(values) <==> |values| < TWO_32 && PlacesAscend(values) && Filled(values)
  {
    if CallValuesValid(values) {
      ValidPlaces(values);
    }
    BytesLessTotal();
    hide BytesLess;
    if |values| < TWO_32 && PlacesAscend(values) && Filled(values) {
      forall i | 0 < i < |values| ensures CallValueLess(values[i - 1], values[i]) {
        assert PlaceLess(values[i - 1], values[i]);
      }
      forall i | 0 < i < |values|
        ensures values[i - 1].ordinal != values[i].ordinal || values[i - 1].location != values[i].location
      {
        assert PlaceLess(values[i - 1], values[i]);
      }
    }
  }

  // ---- text -----------------------------------------------------------------------------------------------

  /** The bytes are text in the encoding they are said to have. */
  ghost predicate IsEncoded(b: Bytes, encoding: StringEncoding) {
    match encoding
    case RawBytes => true
    case Ascii7 => forall x :: x in b ==> x < 0x80
    case Utf8 => Text.WellFormed(b)
    case Utf16LE => IsUtf16(b, true)
    case Utf16BE => IsUtf16(b, false)
    case Utf32LE => IsUtf32(b, true)
    case Utf32BE => IsUtf32(b, false)
  }

  lemma {:induction false} AsciiExactly(b: Bytes)
    ensures (forall i :: 0 <= i < |b| ==> b[i] <= 0x7F) <==> forall x :: x in b ==> x < 0x80
  {
    if forall x :: x in b ==> x < 0x80 {
      forall i | 0 <= i < |b| ensures b[i] <= 0x7F {
        assert b[i] in b;
      }
    }
  }

  lemma {:induction false} EncodedExactly(b: Bytes, encoding: StringEncoding)
    ensures BytesMatchEncoding(b, encoding) <==> IsEncoded(b, encoding)
  {
    Text.WellFormedIsParseable(b);
    AsciiExactly(b);
    Utf16Exactly(b, true);
    Utf16Exactly(b, false);
    Utf32Exactly(b, true);
    Utf32Exactly(b, false);
    hide Text.WellFormed, Text.Parse, IsUtf16, IsUtf32, ValidUtf16, ValidUtf32;
  }

  /** The bytes of a terminator in the encoding. */
  function TerminatorSize(encoding: StringEncoding): nat {
    if encoding in {Utf16LE, Utf16BE} then 2 else if encoding in {Utf32LE, Utf32BE} then 4 else 1
  }

  // ---- payloads and facts --------------------------------------------------------------------------------------

  /** The kinds of value a trait may have. */
  function ValueKinds(t: FunctionTraitKind): set<TraitValueKind> {
    match t
    case OtherTrait => {NoValue, Signed, Unsigned, Boolean, TextValue}
    case StackDelta => {Signed}
    case ArgumentRegister => {Unsigned, TextValue}
    case ReturnConstant => {Signed, Unsigned}
    case WrapperTarget => {Unsigned}
    case CallingConvention => {TextValue}
    case _ => {NoValue}
  }

  ghost predicate Acceptable(p: Payload) {
    match p
    case MemoryAccess(_, address, size, _) => Addressable(address, size)
    case MemoryValue(_, address, _, bytes) => Addressable(address, |bytes|) && |bytes| < TWO_32
    case StringCandidate(address, encoding, bytes, decoded, terminated) =>
      && |bytes| < TWO_32 && |decoded| < TWO_32 && IsEncoded(bytes, encoding) && Text.WellFormed(decoded)
      && Addressable(address, |bytes| + if terminated then TerminatorSize(encoding) else 0)
    case FunctionCandidate(entry, end, _) => end == None || entry < end.value
    case FunctionTrait(_, t, v) => v.kind in ValueKinds(t) && Clears(v, v) && |v.textValue| < TWO_32
    case CodeRegion(start, end, _) => start < end
    case DispatchMap(_, cases, default, _) =>
      && !(cases == [] && default == None)
      && |cases| < TWO_32 && Ascending(cases, CaseLess) && OneTargetEach(cases)
    case RegisterValue(_, _, name, bytes) => 0 < |name| < TWO_32 && 0 < |bytes| < TWO_32
    case CallObservation(_, _, _, result, arguments, returns_) =>
      && |arguments| < TWO_32 && PlacesAscend(arguments) && Filled(arguments)
      && |returns_| < TWO_32 && PlacesAscend(returns_) && Filled(returns_)
      && (returns_ == [] || result == ReturnedResult)
    case _ => true
  }

  lemma {:induction false} EmptyIsText()
    ensures Text.WellFormed([])
  {
    assert Text.EncodeAll([]) == [] && Text.AllScalar([]);
  }

  lemma {:induction false} StringExactly(p: Payload)
    requires p.StringCandidate?
    ensures ValidPayload(p) <==> Acceptable(p)
  {
    hide BytesMatchEncoding, IsEncoded, Text.WellFormed, Text.Parse, SizedRangeValid, Addressable, CodeUnitSize;
    hide TerminatorSize;
    EncodedExactly(p.bytes, p.encoding);
    Text.WellFormedIsParseable(p.decoded);
    EmptyIsText();
    TerminatorExactly(p.encoding);
    RangeExactly(p.address, |p.bytes| + if p.nullTerminated then CodeUnitSize(p.encoding) else 0);
    RangePositive(p.address, 0);
  }

  lemma {:induction false} TerminatorExactly(encoding: StringEncoding)
    ensures CodeUnitSize(encoding) == TerminatorSize(encoding) > 0
  {
  }

  lemma {:induction false} RangePositive(start: Address, size: nat)
    ensures Addressable(start, size) ==> size > 0
  {
  }

  /** A payload is valid exactly when it is acceptable. */
  lemma {:induction false} PayloadExactly(p: Payload)
    ensures ValidPayload(p) <==> Acceptable(p)
  {
    hide SizedRangeValid, Addressable, DispatchCasesValid, CallValuesValid, OneTargetEach, PlacesAscend, Filled;
    match p
    case MemoryAccess(_, address, size, _) => RangeExactly(address, size);
    case MemoryValue(_, address, _, bytes) => RangeExactly(address, |bytes|);
    case StringCandidate(_, _, _, _, _) => StringExactly(p);
    case DispatchMap(_, cases, _, _) => CasesExactly(cases);
    case CallObservation(_, _, _, _, arguments, returns_) =>
      ValuesExactly(arguments);
      ValuesExactly(returns_);
    case _ =>
  }

  /** What a valid fact's evidence is. */
  ghost predicate Credible(e: Evidence) {
    && 0 < |e.producer| < TWO_32 && 0 < |e.method_| < TWO_32 && |e.detail| < TWO_32
    && 0 <= e.confidence <= 10000
    && (e.scope.functionEnd.Some? ==>
          e.scope.functionStart.Some? && e.scope.functionStart.value < e.scope.functionEnd.value)
    && |e.support| < TWO_32 && Ascending(e.support, AddressLess)
  }

  lemma {:induction false} EvidenceExactly(e: Evidence)
    ensures ValidEvidence(e) <==> Credible(e)
  {
    AddressLessTotal();
    if NeighboursAscend(e.support, AddressLess) {
      NeighboursAscendAll(e.support, AddressLess);
    }
  }

  /** An observation alone never proves that an edge cannot be taken. */
  lemma {:induction false} FactExactly(f: Fact)
    ensures ValidFact(f) <==>
            && Acceptable(f.payload) && Credible(f.evidence)
            && ((f.payload.BranchReachability? || f.payload.CfgCandidate?) && f.payload.state == ProvenUnreachable ==>
                  f.evidence.proof in {StaticProof, SymbolicProof, Imported, UserAsserted})
  {
    PayloadExactly(f.payload);
    EvidenceExactly(f.evidence);
    hide ValidPayload, ValidEvidence, Acceptable, Credible;
  }
}
