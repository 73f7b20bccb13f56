/**
 * The small instruction language the deobfuscation classifiers read, and what
 * its instructions do to a concrete machine: registers, arithmetic flags and
 * the word on top of the stack. An instruction that writes fewer than eight
 * bytes leaves the bytes above them arbitrary.
 */
module Instructions {
  import opened Words
  import opened Bits
  import opened Flags

  type Register = x: int | -0x8000_0000 <= x < 0x8000_0000
  const NO_REGISTER: Register := -1
  const BAD_ADDRESS: U64 := MAX_U64

  datatype Kind =
    | Other | Nop | DirectCall | IndirectCall | DirectJump | IndirectJump | ConditionalBranch | Return
    | PopRegister | PushRegister | PushImmediate | ReadStackTop | AddStackTopImmediate
    | AdjustStackPointerImmediate | LoadImmediate | LoadAddress | LoadReadOnlyConstant | CopyRegister
    | AddImmediate | SubImmediate | XorImmediate | AndImmediate | OrImmediate | ShiftLeftImmediate
    | ReplaceHigh16 | CompareImmediate | TestImmediate

  datatype FlagEffect = Preserve | KnownCompare | KnownTest | UnknownWrite

  datatype Instruction = Instruction(
    address: U64, size: U16, kind: Kind, destination: Register, source: Register, valueWidth: Byte,
    immediate: U64, target: U64, memoryAddress: U64, condition: Condition, flagEffect: FlagEffect,
    registerIsLeft: bool, alternatePredecessor: bool)

  function End(insn: Instruction): U64 {
    if insn.address == BAD_ADDRESS || insn.address > MAX_U64 - insn.size then BAD_ADDRESS
    else insn.address + insn.size
  }

  predicate IsCall(insn: Instruction) { insn.kind.DirectCall? || insn.kind.IndirectCall? }

  predicate IsArithmetic(insn: Instruction) {
    || insn.kind.AddImmediate? || insn.kind.SubImmediate? || insn.kind.XorImmediate? || insn.kind.AndImmediate?
    || insn.kind.OrImmediate? || insn.kind.ShiftLeftImmediate? || insn.kind.ReplaceHigh16?
  }

  predicate IsLoad(insn: Instruction) {
    insn.kind.LoadImmediate? || insn.kind.LoadAddress? || insn.kind.LoadReadOnlyConstant?
  }

  predicate ReadsStack(insn: Instruction) { insn.kind.PopRegister? || insn.kind.ReadStackTop? }

  predicate ValidInteger(insn: Instruction) { insn.destination != NO_REGISTER && 1 <= insn.valueWidth <= 8 }

  function BaseRegister(insn: Instruction): Register {
    if insn.source != NO_REGISTER then insn.source else insn.destination
  }

  // ---- the concrete machine -------------------------------------------------------------------------

  datatype Machine = Machine(registers: Register -> U64, flags: ArithmeticFlags, top: U64)

  /** The registers instructions change without naming them: the stack pointer and the loop counter. */
  datatype Conventions = Conventions(stackPointer: Register, counter: Register)

  predicate MovesStack(insn: Instruction) {
    || insn.kind.PushRegister? || insn.kind.PushImmediate? || insn.kind.PopRegister? || insn.kind.Return?
    || insn.kind.AdjustStackPointerImmediate?
  }

  /** Branches outside the arithmetic conditions include those that count a register down. */
  predicate Counts(insn: Instruction) { insn.kind.ConditionalBranch? && insn.condition.Unknown? }

  predicate MayChange(conventions: Conventions, insn: Instruction, r: Register) {
    || IsCall(insn)
    || (insn.kind.Other? && insn.destination != NO_REGISTER)
    || (r == insn.destination != NO_REGISTER &&
        (IsLoad(insn) || insn.kind.CopyRegister? || IsArithmetic(insn) || ReadsStack(insn)))
    || (r == conventions.stackPointer && MovesStack(insn))
    || (r == conventions.counter && Counts(insn))
  }

  /** What the instruction puts into the low bytes of its destination. */
  ghost predicate Computes(insn: Instruction, m: Machine, after: U64)
    requires ValidInteger(insn)
  {
    var w := insn.valueWidth;
    var base := m.registers(BaseRegister(insn));
    match insn.kind
    case LoadImmediate | LoadAddress | LoadReadOnlyConstant => Low(after, w) == Low(insn.immediate, w)
    case CopyRegister => insn.source != NO_REGISTER ==> Low(after, w) == Low(m.registers(insn.source), w)
    case PopRegister | ReadStackTop => Low(after, w) == Low(m.top, w)
    case AddImmediate => Low(after, w) == Low(base + insn.immediate, w)
    case SubImmediate => Low(after, w) == Low(base - insn.immediate, w)
    case XorImmediate => forall k: nat :: k < 8 * w ==> (Bit(after, k) <==> Bit(base, k) != Bit(insn.immediate, k))
    case AndImmediate => forall k: nat :: k < 8 * w ==> (Bit(after, k) <==> Bit(base, k) && Bit(insn.immediate, k))
    case OrImmediate => forall k: nat :: k < 8 * w ==> (Bit(after, k) <==> Bit(base, k) || Bit(insn.immediate, k))
    case ShiftLeftImmediate => insn.immediate < 8 * w ==> Low(after, w) == Low(base * Pow2(insn.immediate), w)
    case ReplaceHigh16 => w >= 4 ==> HighReplaced(after, base, insn.immediate, 8 * w)
    case _ => true
  }

  /** Digits 16 to 31 come from the immediate, every other one stays. */
  ghost predicate HighReplaced(after: nat, base: nat, immediate: nat, n: nat) {
    forall k: nat :: k < n ==> (Bit(after, k) <==> if 16 <= k < 32 then Bit(immediate, k - 16) else Bit(base, k))
  }

  ghost predicate RegistersStep(conventions: Conventions, insn: Instruction, m: Machine, n: Machine) {
    && (forall r: Register :: !MayChange(conventions, insn, r) ==> n.registers(r) == m.registers(r))
    && (ValidInteger(insn) ==> Computes(insn, m, n.registers(insn.destination)))
  }

  ghost predicate FlagsStep(insn: Instruction, m: Machine, n: Machine) {
    var value := m.registers(insn.destination);
    if IsCall(insn) then true
    else
      match insn.flagEffect
      case Preserve => n.flags == m.flags
      case KnownCompare =>
        ValidInteger(insn) ==>
          if insn.registerIsLeft then DescribesComparison(n.flags, value, insn.immediate, insn.valueWidth)
          else DescribesComparison(n.flags, insn.immediate, value, insn.valueWidth)
      case KnownTest => ValidInteger(insn) ==> DescribesTest(n.flags, value, insn.immediate, insn.valueWidth)
      case UnknownWrite => true
  }

  ghost predicate TopStep(insn: Instruction, m: Machine, n: Machine) {
    match insn.kind
    case PushImmediate => TruncateWidth(n.top, insn.valueWidth) == TruncateWidth(insn.immediate, insn.valueWidth)
    case PushRegister =>
      insn.source != NO_REGISTER ==>
        if insn.valueWidth == 0 then n.top == m.registers(insn.source)
        else TruncateWidth(n.top, insn.valueWidth) == TruncateWidth(m.registers(insn.source), insn.valueWidth)
    case Nop => n.top == m.top
    case _ => true
  }

  ghost predicate Executes(conventions: Conventions, insn: Instruction, m: Machine, n: Machine) {
    RegistersStep(conventions, insn, m, n) && FlagsStep(insn, m, n) && TopStep(insn, m, n)
  }
}
