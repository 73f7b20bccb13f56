/**
 * Producer-neutral analysis facts: the thirteen payload kinds, one observation
 * of evidence, and the normalisation and validation every stored fact passes.
 */
module Facts {
  import opened Orders
  import opened Words
  import Text

  const MAX_CONFIDENCE: U16 := 10000

  datatype ProofKind =
    | Unknown | Observed | StaticProof | SymbolicProof
    | CrossRunCorroboration | Heuristic | Imported | UserAsserted

  datatype CodeTargetKind = UnknownTarget | Call | Jump | Fallthrough | Return | TableEntry | Exception
  datatype Reachability = NotObserved | Reached | ProvenUnreachable
  datatype MemoryAccessKind = Read | Write | Execute | ReadWrite
  datatype StringEncoding = RawBytes | Ascii7 | Utf8 | Utf16LE | Utf16BE | Utf32LE | Utf32BE
  datatype FunctionCandidateKind =
    | OtherCandidate | EntryPoint | CallTarget | Prologue
    | OrphanChunk | ExceptionHandler | Export | UserCandidate
  datatype FunctionTraitKind =
    | OtherTrait | Returns | NoReturn | StackDelta | ArgumentRegister
    | ReturnConstant | WrapperTarget | Leaf | Thunk | CallingConvention
  datatype TraitValueKind = NoValue | Signed | Unsigned | Boolean | TextValue
  datatype CodeRegionKind = UnknownRegion | Code | Data | Mixed | Padding
  datatype CfgEdgeKind =
    | UnknownEdge | FallthroughEdge | TrueBranch | FalseBranch
    | CallEdge | ReturnEdge | ExceptionEdge | Indirect
  datatype FunctionStopKind =
    | UnknownStop | Returned | Halted | Faulted | TimedOut
    | BudgetExhausted | EscapedFunction | TerminatedProcess
  datatype RegisterStatePoint =
    | BeforeInstruction | AfterInstruction | FunctionEntry | FunctionExit | CallEntry | CallReturn
  datatype CallKind = UnknownCall | PlainCall | TailCall | SystemCall | ImportedCall
  datatype CallResult = UnknownResult | ReturnedResult | NoReturnResult | FaultedResult | TimedOutResult

  datatype Scope = Scope(
    runId: Option<U64>, seed: Option<U64>,
    functionStart: Option<Address>, functionEnd: Option<Address>, generation: U64)

  datatype Evidence = Evidence(
    producer: Bytes, method_: Bytes, proof: ProofKind, confidence: U16,
    scope: Scope, support: seq<Address>, detail: Bytes)

  datatype TraitValue = TraitValue(
    kind: TraitValueKind, signedValue: I64, unsignedValue: U64, booleanValue: bool, textValue: Bytes)

  datatype DispatchCase = DispatchCase(selector: Option<U64>, target: Address)
  datatype CallValue = CallValue(ordinal: U32, location: Bytes, bytes: Bytes)

  datatype Payload =
    | CodeTarget(from: Address, target: Address, targetKind: CodeTargetKind, unique: bool)
    | BranchReachability(branch: Address, successor: Address, state: Reachability)
    | MemoryAccess(instruction: Address, address: Address, size: U32, access: MemoryAccessKind)
    | MemoryValue(instruction: Address, address: Address, access: MemoryAccessKind, bytes: Bytes)
    | StringCandidate(address: Address, encoding: StringEncoding, bytes: Bytes, decoded: Bytes, nullTerminated: bool)
    | FunctionCandidate(entry: Address, candidateEnd: Option<Address>, candidateKind: FunctionCandidateKind)
    | FunctionTrait(func: Address, trait_: FunctionTraitKind, value: TraitValue)
    | CodeRegion(start: Address, end: Address, regionKind: CodeRegionKind)
    | DispatchMap(site: Address, cases: seq<DispatchCase>, defaultTarget: Option<Address>, complete: bool)
    | CfgCandidate(from: Address, to: Address, edgeKind: CfgEdgeKind, state: Reachability)
    | FunctionOutcome(func: Address, stop: FunctionStopKind, stopPc: Option<Address>,
                      stackDelta: Option<I64>, instructionCount: Option<U64>)
    | RegisterValue(instruction: Address, point: RegisterStatePoint, registerId: Bytes, bytes: Bytes)
    | CallObservation(source: Address, callTarget: Option<Address>, callKind: CallKind,
                      callResult: CallResult, arguments: seq<CallValue>, returns_: seq<CallValue>)

  datatype Fact = Fact(payload: Payload, evidence: Evidence)

  // ---- canonical element orders -------------------------------------------

  /** Known selectors precede unknown ones, then selector, then target. */
  predicate CaseLess(a: DispatchCase, b: DispatchCase) {
    if a.selector.Some? != b.selector.Some? then a.selector.Some?
    else if a.selector != b.selector then OptionLess(a.selector, b.selector)
    else a.target < b.target
  }

  predicate CallValueLess(a: CallValue, b: CallValue) {
    a.ordinal < b.ordinal ||
    (a.ordinal == b.ordinal &&
     (BytesLess(a.location, b.location) ||
      (a.location == b.location && BytesLess(a.bytes, b.bytes))))
  }

  lemma {:induction false} CaseLessTotal()
    ensures StrictTotal(CaseLess)
  {
  }

  lemma {:induction false} CallValueLessTotal()
    ensures StrictTotal(CallValueLess)
  {
    BytesLessTotal();
  }

  lemma {:induction false} AddressLessTotal()
    ensures StrictTotal(AddressLess)
  {
  }

  // ---- normalisation --------------------------------------------------------

  /** Clears the fields that the value's kind leaves inactive. */
  function NormalizeTraitValue(v: TraitValue): TraitValue {
    TraitValue(
      v.kind,
      if v.kind.Signed? then v.signedValue else 0,
      if v.kind.Unsigned? then v.unsignedValue else 0,
      v.kind.Boolean? && v.booleanValue,
      if v.kind.TextValue? then v.textValue else [])
  }

  function NormalizePayload(p: Payload): Payload {
    match p
    case FunctionTrait(_, _, v) => p.(value := NormalizeTraitValue(v))
    case DispatchMap(_, cases, _, _) => p.(cases := SortUnique(cases, CaseLess))
    case CallObservation(_, _, _, _, arguments, returns_) =>
      p.(arguments := SortUnique(arguments, CallValueLess), returns_ := SortUnique(returns_, CallValueLess))
    case _ => p
  }

  function NormalizeEvidence(e: Evidence): Evidence {
    e.(support := SortUnique(e.support, AddressLess))
  }

  function Normalize(f: Fact): Fact {
    Fact(NormalizePayload(f.payload), NormalizeEvidence(f.evidence))
  }

  // ---- validation -----------------------------------------------------------

  /** Every element strictly below its successor: sorted with no equal neighbours. */
  predicate NeighboursAscend<T>(s: seq<T>, less: (T, T) -> bool) {
    forall i :: 0 < i < |s| ==> less(s[i - 1], s[i])
  }

  /** A byte range given by its size must not run past the last address. */
  predicate SizedRangeValid(start: Address, size: nat) {
    size != 0 && size - 1 <= MAX_U64 - start
  }

  predicate TraitValueValid(v: TraitValue) {
    && (!v.kind.TextValue? ==> v.textValue == [])
    && (!v.kind.Signed? ==> v.signedValue == 0)
    && (!v.kind.Unsigned? ==> v.unsignedValue == 0)
    && (!v.kind.Boolean? ==> !v.booleanValue)
  }

  predicate TraitKindValid(t: FunctionTraitKind, kind: TraitValueKind) {
    match t
    case Returns => kind.NoValue?
    case NoReturn => kind.NoValue?
    case Leaf => kind.NoValue?
    case Thunk => kind.NoValue?
    case StackDelta => kind.Signed?
    case ArgumentRegister => kind.Unsigned? || kind.TextValue?
    case ReturnConstant => kind.Signed? || kind.Unsigned?
    case WrapperTarget => kind.Unsigned?
    case CallingConvention => kind.TextValue?
    case OtherTrait => true
  }

  predicate CallValuesValid(values: seq<CallValue>) {
    && |values| < TWO_32
    && NeighboursAscend(values, CallValueLess)
    && (forall i :: 0 <= i < |values| ==>
          0 < |values[i].location| < TWO_32 && 0 < |values[i].bytes| < TWO_32)
    && (forall i :: 0 < i < |values| ==>
          values[i - 1].ordinal != values[i].ordinal || values[i - 1].location != values[i].location)
  }

  predicate DispatchCasesValid(cases: seq<DispatchCase>) {
    && |cases| < TWO_32
    && NeighboursAscend(cases, CaseLess)
    && (forall i :: 0 < i < |cases| ==>
          cases[i - 1].selector.None? || cases[i].selector != cases[i - 1].selector ||
          cases[i].target == cases[i - 1].target)
  }

  function Unit(b: Bytes, offset: nat, width: nat, littleEndian: bool): nat
    requires offset + width <= |b|
    decreases width
  {
    if width == 0 then 0
    else if littleEndian then b[offset] + 0x100 * Unit(b, offset + 1, width - 1, true)
    else b[offset + width - 1] + 0x100 * Unit(b, offset, width - 1, false)
  }

  predicate ValidUtf16(b: Bytes, littleEndian: bool)
    decreases |b|
  {
    b == [] || (
      |b| >= 2 &&
      var unit := Unit(b, 0, 2, littleEndian);
      if 0xD800 <= unit <= 0xDBFF then
        |b| >= 4 && 0xDC00 <= Unit(b, 2, 2, littleEndian) <= 0xDFFF && ValidUtf16(b[4..], littleEndian)
      else !(0xDC00 <= unit <= 0xDFFF) && ValidUtf16(b[2..], littleEndian))
  }

  predicate ValidUtf32(b: Bytes, littleEndian: bool)
    decreases |b|
  {
    b == [] || (
      |b| >= 4 &&
      var unit := Unit(b, 0, 4, littleEndian);
      unit <= 0x10FFFF && !(0xD800 <= unit <= 0xDFFF) && ValidUtf32(b[4..], littleEndian))
  }

  predicate BytesMatchEncoding(b: Bytes, encoding: StringEncoding) {
    match encoding
    case RawBytes => true
    case Ascii7 => forall i :: 0 <= i < |b| ==> b[i] <= 0x7F
    case Utf8 => Text.Parse(b).Some?
    case Utf16LE => ValidUtf16(b, true)
    case Utf16BE => ValidUtf16(b, false)
    case Utf32LE => ValidUtf32(b, true)
    case Utf32BE => ValidUtf32(b, false)
  }

  function CodeUnitSize(encoding: StringEncoding): nat {
    match encoding
    case Utf16LE => 2
    case Utf16BE => 2
    case Utf32LE => 4
    case Utf32BE => 4
    case _ => 1
  }

  predicate ValidPayload(p: Payload) {
    match p
    case CodeTarget(_, _, _, _) => true
    case BranchReachability(_, _, _) => true
    case MemoryAccess(_, address, size, _) => SizedRangeValid(address, size)
    case MemoryValue(_, address, _, bytes) => SizedRangeValid(address, |bytes|) && |bytes| < TWO_32
    case StringCandidate(address, encoding, bytes, decoded, nullTerminated) =>
      && (bytes != [] || nullTerminated)
      && |bytes| < TWO_32 && |decoded| < TWO_32
      && BytesMatchEncoding(bytes, encoding)
      && (decoded == [] || Text.Parse(decoded).Some?)
      && SizedRangeValid(address, |bytes| + (if nullTerminated then CodeUnitSize(encoding) else 0))
    case FunctionCandidate(entry, candidateEnd, _) =>
      candidateEnd.Some? ==> entry < candidateEnd.value
    case FunctionTrait(_, t, value) =>
      // The text bound is the encoder's: a longer text fails to encode instead.
      TraitValueValid(value) && |value.textValue| < TWO_32 && TraitKindValid(t, value.kind)
    case CodeRegion(start, end, _) => start < end
    case DispatchMap(_, cases, defaultTarget, _) =>
      (cases != [] || defaultTarget.Some?) && DispatchCasesValid(cases)
    case CfgCandidate(_, _, _, _) => true
    case FunctionOutcome(_, _, _, _, _) => true
    case RegisterValue(_, _, registerId, bytes) => 0 < |registerId| < TWO_32 && 0 < |bytes| < TWO_32
    case CallObservation(_, _, _, result, arguments, returns_) =>
      CallValuesValid(arguments) && CallValuesValid(returns_) && (returns_ != [] ==> result.ReturnedResult?)
  }

  predicate ValidEvidence(e: Evidence) {
    && e.producer != [] && e.method_ != []
    && e.confidence <= MAX_CONFIDENCE
    && (e.scope.functionEnd.Some? ==> e.scope.functionStart.Some?)
    && (e.scope.functionStart.Some? && e.scope.functionEnd.Some? ==>
          e.scope.functionStart.value < e.scope.functionEnd.value)
    && NeighboursAscend(e.support, AddressLess)
    && |e.support| < TWO_32 && |e.producer| < TWO_32 && |e.method_| < TWO_32 && |e.detail| < TWO_32
  }

  predicate EstablishesUnreachable(proof: ProofKind) {
    proof.StaticProof? || proof.SymbolicProof? || proof.Imported? || proof.UserAsserted?
  }

  /** A proven-unreachable edge needs a proof that can establish it. */
  predicate ValidFact(f: Fact) {
    && ValidPayload(f.payload) && ValidEvidence(f.evidence)
    && ((f.payload.BranchReachability? || f.payload.CfgCandidate?) && f.payload.state.ProvenUnreachable? ==>
          EstablishesUnreachable(f.evidence.proof))
  }

  // ---- valid facts are fixed points of normalisation ------------------------

  lemma {:induction false} NeighboursAscendAll<T(!new)>(s: seq<T>, less: (T, T) -> bool)
    requires StrictTotal(less) && NeighboursAscend(s, less)
    ensures Ascending(s, less)
  {
    if |s| > 1 {
      var prefix := s[..|s| - 1];
      assert forall i :: 0 <= i < |prefix| ==> prefix[i] == s[i];
      NeighboursAscendAll(prefix, less);
      var last := |prefix|;
      assert less(s[last - 1], s[last]);
      forall i, j | 0 <= i < j < |s| ensures less(s[i], s[j]) {
        if j < last {
          assert less(prefix[i], prefix[j]);
        } else if i < last - 1 {
          assert less(prefix[i], prefix[last - 1]);
        }
      }
    }
  }

  /** What validation accepts, normalisation leaves unchanged. */
  lemma {:induction false} ValidIsNormal(p: Payload)
    requires ValidPayload(p)
    ensures NormalizePayload(p) == p
  {
    match p
    case DispatchMap(_, cases, _, _) =>
      CaseLessTotal();
      NeighboursAscendAll(cases, CaseLess);
      SortUniqueIdempotent(cases, CaseLess);
    case CallObservation(_, _, _, _, arguments, returns_) =>
      CallValueLessTotal();
      NeighboursAscendAll(arguments, CallValueLess);
      NeighboursAscendAll(returns_, CallValueLess);
      SortUniqueIdempotent(arguments, CallValueLess);
      SortUniqueIdempotent(returns_, CallValueLess);
    case _ =>
  }

  lemma {:induction false} ValidEvidenceIsNormal(e: Evidence)
    requires ValidEvidence(e)
    ensures NormalizeEvidence(e) == e
  {
    AddressLessTotal();
    NeighboursAscendAll(e.support, AddressLess);
    SortUniqueIdempotent(e.support, AddressLess);
  }

  lemma {:induction false} ValidFactIsNormal(f: Fact)
    requires ValidFact(f)
    ensures Normalize(f) == f
  {
    ValidIsNormal(f.payload);
    ValidEvidenceIsNormal(f.evidence);
  }
}
