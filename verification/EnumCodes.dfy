/**
 * The one-byte codes of the ledger's enumerations, as numbered by their
 * declarations, and the range check a decoder applies to them.
 */
module EnumCodes {
  import opened Words
  import opened Facts

  function ProofCode(k: ProofKind): (b: Byte)
    ensures ProofOf(b) == Some(k)
  {
    match k
    case Unknown => 0
    case Observed => 1
    case StaticProof => 2
    case SymbolicProof => 3
    case CrossRunCorroboration => 4
    case Heuristic => 5
    case Imported => 6
    case UserAsserted => 7
  }

  function ProofOf(b: Byte): Option<ProofKind> {
    if b < 8 then
      Some([Unknown, Observed, StaticProof, SymbolicProof,
            CrossRunCorroboration, Heuristic, Imported, UserAsserted][b])
    else None
  }

  function TargetCode(k: CodeTargetKind): (b: Byte)
    ensures TargetOf(b) == Some(k)
  {
    match k
    case UnknownTarget => 0
    case Call => 1
    case Jump => 2
    case Fallthrough => 3
    case Return => 4
    case TableEntry => 5
    case Exception => 6
  }

  function TargetOf(b: Byte): Option<CodeTargetKind> {
    if b < 7 then Some([UnknownTarget, Call, Jump, Fallthrough, Return, TableEntry, Exception][b]) else None
  }

  function ReachCode(k: Reachability): (b: Byte)
    ensures ReachOf(b) == Some(k)
  {
    match k
    case NotObserved => 0
    case Reached => 1
    case ProvenUnreachable => 2
  }

  function ReachOf(b: Byte): Option<Reachability> {
    if b < 3 then Some([NotObserved, Reached, ProvenUnreachable][b]) else None
  }

  function AccessCode(k: MemoryAccessKind): (b: Byte)
    ensures AccessOf(b) == Some(k)
  {
    match k
    case Read => 1
    case Write => 2
    case Execute => 3
    case ReadWrite => 4
  }

  function AccessOf(b: Byte): Option<MemoryAccessKind> {
    if 1 <= b < 5 then Some([Read, Write, Execute, ReadWrite][b - 1]) else None
  }

  function EncodingCode(k: StringEncoding): (b: Byte)
    ensures EncodingOf(b) == Some(k)
  {
    match k
    case RawBytes => 0
    case Ascii7 => 1
    case Utf8 => 2
    case Utf16LE => 3
    case Utf16BE => 4
    case Utf32LE => 5
    case Utf32BE => 6
  }

  function EncodingOf(b: Byte): Option<StringEncoding> {
    if b < 7 then Some([RawBytes, Ascii7, Utf8, Utf16LE, Utf16BE, Utf32LE, Utf32BE][b]) else None
  }

  function CandidateCode(k: FunctionCandidateKind): (b: Byte)
    ensures CandidateOf(b) == Some(k)
  {
    match k
    case OtherCandidate => 0
    case EntryPoint => 1
    case CallTarget => 2
    case Prologue => 3
    case OrphanChunk => 4
    case ExceptionHandler => 5
    case Export => 6
    case UserCandidate => 7
  }

  function CandidateOf(b: Byte): Option<FunctionCandidateKind> {
    if b < 8 then
      Some([OtherCandidate, EntryPoint, CallTarget, Prologue,
            OrphanChunk, ExceptionHandler, Export, UserCandidate][b])
    else None
  }

  function TraitCode(k: FunctionTraitKind): (b: Byte)
    ensures TraitOf(b) == Some(k)
  {
    match k
    case OtherTrait => 0
    case Returns => 1
    case NoReturn => 2
    case StackDelta => 3
    case ArgumentRegister => 4
    case ReturnConstant => 5
    case WrapperTarget => 6
    case Leaf => 7
    case Thunk => 8
    case CallingConvention => 9
  }

  function TraitOf(b: Byte): Option<FunctionTraitKind> {
    if b < 10 then
      Some([OtherTrait, Returns, NoReturn, StackDelta, ArgumentRegister,
            ReturnConstant, WrapperTarget, Leaf, Thunk, CallingConvention][b])
    else None
  }

  function TraitValueCode(k: TraitValueKind): (b: Byte)
    ensures TraitValueOf(b) == Some(k)
  {
    match k
    case NoValue => 0
    case Signed => 1
    case Unsigned => 2
    case Boolean => 3
    case TextValue => 4
  }

  function TraitValueOf(b: Byte): Option<TraitValueKind> {
    if b < 5 then Some([NoValue, Signed, Unsigned, Boolean, TextValue][b]) else None
  }

  function RegionCode(k: CodeRegionKind): (b: Byte)
    ensures RegionOf(b) == Some(k)
  {
    match k
    case UnknownRegion => 0
    case Code => 1
    case Data => 2
    case Mixed => 3
    case Padding => 4
  }

  function RegionOf(b: Byte): Option<CodeRegionKind> {
    if b < 5 then Some([UnknownRegion, Code, Data, Mixed, Padding][b]) else None
  }

  function EdgeCode(k: CfgEdgeKind): (b: Byte)
    ensures EdgeOf(b) == Some(k)
  {
    match k
    case UnknownEdge => 0
    case FallthroughEdge => 1
    case TrueBranch => 2
    case FalseBranch => 3
    case CallEdge => 4
    case ReturnEdge => 5
    case ExceptionEdge => 6
    case Indirect => 7
  }

  function EdgeOf(b: Byte): Option<CfgEdgeKind> {
    if b < 8 then
      Some([UnknownEdge, FallthroughEdge, TrueBranch, FalseBranch,
            CallEdge, ReturnEdge, ExceptionEdge, Indirect][b])
    else None
  }

  function StopCode(k: FunctionStopKind): (b: Byte)
    ensures StopOf(b) == Some(k)
  {
    match k
    case UnknownStop => 0
    case Returned => 1
    case Halted => 2
    case Faulted => 3
    case TimedOut => 4
    case BudgetExhausted => 5
    case EscapedFunction => 6
    case TerminatedProcess => 7
  }

  function StopOf(b: Byte): Option<FunctionStopKind> {
    if b < 8 then
      Some([UnknownStop, Returned, Halted, Faulted,
            TimedOut, BudgetExhausted, EscapedFunction, TerminatedProcess][b])
    else None
  }

  function PointCode(k: RegisterStatePoint): (b: Byte)
    ensures PointOf(b) == Some(k)
  {
    match k
    case BeforeInstruction => 1
    case AfterInstruction => 2
    case FunctionEntry => 3
    case FunctionExit => 4
    case CallEntry => 5
    case CallReturn => 6
  }

  function PointOf(b: Byte): Option<RegisterStatePoint> {
    if 1 <= b < 7 then
      Some([BeforeInstruction, AfterInstruction, FunctionEntry,
            FunctionExit, CallEntry, CallReturn][b - 1])
    else None
  }

  function CallKindCode(k: CallKind): (b: Byte)
    ensures CallKindOf(b) == Some(k)
  {
    match k
    case UnknownCall => 0
    case PlainCall => 1
    case TailCall => 2
    case SystemCall => 3
    case ImportedCall => 4
  }

  function CallKindOf(b: Byte): Option<CallKind> {
    if b < 5 then Some([UnknownCall, PlainCall, TailCall, SystemCall, ImportedCall][b]) else None
  }

  function ResultCode(k: CallResult): (b: Byte)
    ensures ResultOf(b) == Some(k)
  {
    match k
    case UnknownResult => 0
    case ReturnedResult => 1
    case NoReturnResult => 2
    case FaultedResult => 3
    case TimedOutResult => 4
  }

  function ResultOf(b: Byte): Option<CallResult> {
    if b < 5 then Some([UnknownResult, ReturnedResult, NoReturnResult, FaultedResult, TimedOutResult][b]) else None
  }
}
