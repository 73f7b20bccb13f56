/**
 * Width-aware constant propagation: the update of the tracked registers by one
 * instruction, and exactly when it stays true of every concrete machine.
 */
module ConstantFolding {
  import opened Orders
  import opened Words
  import opened Bits
  import opened Flags
  import opened Instructions

  datatype ConstantState = ConstantState(value: U64, width: Byte, steps: nat, readOnly: bool, support: seq<U64>)

  type StateMap = map<Register, ConstantState>

  function Known(addresses: seq<U64>): seq<U64> {
    if addresses == [] then []
    else (if addresses[0] == BAD_ADDRESS then [] else [addresses[0]]) + Known(addresses[1..])
  }

  /** Drop bad addresses, sort and deduplicate. */
  function NormalizeSupport(support: seq<U64>): seq<U64> { SortUnique(Known(support), AddressLess) }

  function EraseDestination(state: StateMap, insn: Instruction): StateMap {
    if insn.destination != NO_REGISTER then state - {insn.destination} else state
  }

  function AssignConstant(state: StateMap, insn: Instruction, value: U64, steps: nat, readOnly: bool,
                          support: seq<U64>): StateMap
  {
    if !ValidInteger(insn) then EraseDestination(state, insn)
    else state[insn.destination := ConstantState(TruncateWidth(value, insn.valueWidth), insn.valueWidth, steps,
                                                 readOnly, NormalizeSupport(support + [insn.address]))]
  }

  /** The new value of an arithmetic instruction in 64-bit arithmetic, if it is supported. */
  function Fold(insn: Instruction, value: U64): Option<nat> {
    match insn.kind
    case AddImmediate => Some((value + insn.immediate) % TWO_64)
    case SubImmediate => Some((value - insn.immediate) % TWO_64)
    case XorImmediate => Some(BitXor(value, insn.immediate))
    case AndImmediate => Some(BitAnd(value, insn.immediate))
    case OrImmediate => Some(BitOr(value, insn.immediate))
    case ShiftLeftImmediate =>
      if insn.immediate >= 8 * insn.valueWidth then None else Some((value * Pow2(insn.immediate)) % TWO_64)
    case ReplaceHigh16 =>
      if insn.valueWidth < 4 then None
      else Some(BitOr(BitAnd(value, 0xffff), BitAnd(insn.immediate, 0xffff) * 0x1_0000))
    case _ => None
  }

  function Next(prior: ConstantState, insn: Instruction, value: nat): ConstantState {
    ConstantState(TruncateWidth(value, insn.valueWidth), insn.valueWidth, prior.steps + 1, prior.readOnly,
                  NormalizeSupport(prior.support + [insn.address]))
  }

  function UpdateConstants(state: StateMap, insn: Instruction): StateMap {
    match insn.kind
    case LoadImmediate | LoadAddress => AssignConstant(state, insn, insn.immediate, 1, false, [])
    case LoadReadOnlyConstant => AssignConstant(state, insn, insn.immediate, 1, true, [insn.memoryAddress])
    case CopyRegister =>
      if insn.source !in state || !ValidInteger(insn) then EraseDestination(state, insn)
      else state[insn.destination := Next(state[insn.source], insn, state[insn.source].value)]
    case AddImmediate | SubImmediate | XorImmediate | AndImmediate | OrImmediate | ShiftLeftImmediate | ReplaceHigh16 =>
      var base := BaseRegister(insn);
      if base !in state || !ValidInteger(insn) || state[base].width != insn.valueWidth
      then EraseDestination(state, insn)
      else
        var folded := Fold(insn, state[base].value);
        if folded.None? then EraseDestination(state, insn)
        else state[insn.destination := Next(state[base], insn, folded.value)]
    case DirectCall | IndirectCall => map[]
    case Other => if insn.destination != NO_REGISTER then map[] else state
    case _ => state
  }

  // ---- what tracked registers claim ---------------------------------------------------------------------

  /** Tracked registers are real, of a modelled width, and hold truncated values. */
  ghost predicate WellFormed(state: StateMap) {
    forall r :: r in state ==>
      r != NO_REGISTER && 1 <= state[r].width <= 8 && state[r].value < Pow2(8 * state[r].width)
  }

  /** The low `width` bytes of every tracked register equal its tracked value. */
  ghost predicate Describes(state: StateMap, m: Machine) {
    forall r :: r in state ==> TruncateWidth(m.registers(r), state[r].width) == state[r].value
  }

  /** The one-step situations the update accounts for. */
  predicate Handled(conventions: Conventions, state: StateMap, insn: Instruction) {
    && (ReadsStack(insn) ==> insn.destination !in state)
    && (MovesStack(insn) ==> conventions.stackPointer !in state)
    && (Counts(insn) ==> conventions.counter !in state)
    && (insn.kind.CopyRegister? && insn.source in state && ValidInteger(insn) ==>
          insn.valueWidth <= state[insn.source].width)
    && (insn.kind.ReplaceHigh16? && BaseRegister(insn) in state && ValidInteger(insn) &&
        state[BaseRegister(insn)].width == insn.valueWidth && insn.valueWidth > 4 ==>
          state[BaseRegister(insn)].value < TWO_32)
  }

  /** A register takes a truncated value of a width of one to eight. */
  lemma {:induction false} AssignWellFormed(state: StateMap, insn: Instruction, s: ConstantState, value: nat)
    requires WellFormed(state) && ValidInteger(insn)
    requires s.width == insn.valueWidth && s.value == TruncateWidth(value, insn.valueWidth)
    ensures WellFormed(state[insn.destination := s])
  {
    hide TruncateWidth, Pow2;
    TruncatedSmall(value, insn.valueWidth);
  }

  lemma {:induction false} EraseWellFormed(state: StateMap, insn: Instruction)
    requires WellFormed(state)
    ensures WellFormed(EraseDestination(state, insn)) && WellFormed(map[])
  {
  }

  lemma {:induction false} UpdateWellFormed(state: StateMap, insn: Instruction)
    requires WellFormed(state)
    ensures WellFormed(UpdateConstants(state, insn))
  {
    hide Fold, TruncateWidth, NormalizeSupport, WellFormed, EraseDestination;
    EraseWellFormed(state, insn);
    var next := UpdateConstants(state, insn);
    if ValidInteger(insn) && insn.destination in next {
      if IsLoad(insn) {
        AssignWellFormed(state, insn, next[insn.destination], insn.immediate);
      } else if insn.kind.CopyRegister? && insn.source in state {
        AssignWellFormed(state, insn, next[insn.destination], state[insn.source].value);
      } else if IsArithmetic(insn) && BaseRegister(insn) in state {
        var folded := Fold(insn, state[BaseRegister(insn)].value);
        if folded.Some? && state[BaseRegister(insn)].width == insn.valueWidth {
          AssignWellFormed(state, insn, next[insn.destination], folded.value);
        }
      }
    }
  }

  lemma {:induction false} TruncatedSmall(value: nat, width: Byte)
    requires 1 <= width <= 8
    ensures TruncateWidth(value, width) < Pow2(8 * width)
  {
    TruncationIsRemainder(value, width);
  }

  // ---- one value at a time ------------------------------------------------------------------------------------

  lemma {:induction false} LowOfLow(x: int, narrow: Byte, wide: Byte)
    requires 1 <= narrow <= wide <= 8
    ensures Low(Low(x, wide), narrow) == Low(x, narrow)
  {
    RemainderOfRemainder(x, 8 * narrow, 8 * wide);
  }

  /** Congruent operands give congruent sums. */
  lemma {:induction false} LowOfSum(x: int, y: int, d: int, width: Byte)
    requires 1 <= width <= 8 && Low(x, width) == Low(y, width)
    ensures Low(x + d, width) == Low(y + d, width)
  {
    var m := Pow2(8 * width);
    var e := y % m + d;
    assert x == m * (x / m) + x % m && y == m * (y / m) + y % m && e == m * (e / m) + e % m;
    assert (x / m + e / m) * m == m * (x / m) + m * (e / m);
    assert (y / m + e / m) * m == m * (y / m) + m * (e / m);
    QuotientUnique(x + d, m, x / m + e / m, e % m);
    QuotientUnique(y + d, m, y / m + e / m, e % m);
  }

  lemma {:induction false} LowOfShift(x: nat, y: nat, s: nat, width: Byte)
    requires 1 <= width <= 8 && Low(x, width) == Low(y, width)
    ensures Low(x * Pow2(s), width) == Low(y * Pow2(s), width)
  {
    hide Low;
    if s == 0 {
      assert x * Pow2(s) == x && y * Pow2(s) == y;
    } else {
      LowOfShift(x, y, s - 1, width);
      var a: int, b: int := x * Pow2(s - 1), y * Pow2(s - 1);
      ShiftDoubles(x, s);
      ShiftDoubles(y, s);
      hide Pow2;
      LowOfSum(a, b, a, width);
      LowOfSum(a, b, b, width);
    }
  }

  lemma {:induction false} ShiftDoubles(x: nat, s: nat)
    requires s > 0
    ensures x * Pow2(s) == x * Pow2(s - 1) + x * Pow2(s - 1)
  {
    var p := Pow2(s - 1);
    assert x * (2 * p) == x * p + x * p;
  }

  lemma {:induction false} LowDigits(x: nat, y: nat, width: Byte)
    requires 1 <= width <= 8
    ensures Low(x, width) == Low(y, width) <==> SameDigits(x, y, 8 * width)
  {
    DigitsDetermine(x, y, 8 * width);
  }

  lemma {:induction false} FoldedXor(after: nat, x: nat, v: nat, i: nat, width: Byte)
    requires 1 <= width <= 8 && Low(x, width) == Low(v, width)
    requires forall k: nat :: k < 8 * width ==> (Bit(after, k) <==> Bit(x, k) != Bit(i, k))
    ensures Low(after, width) == Low(BitXor(v, i), width)
  {
    LowDigits(x, v, width);
    forall k: nat | k < 8 * width ensures Bit(after, k) <==> Bit(BitXor(v, i), k) {
      assert Bit(x, k) <==> Bit(v, k);
      BitOfXor(v, i, k);
    }
    LowDigits(after, BitXor(v, i), width);
  }

  lemma {:induction false} FoldedAnd(after: nat, x: nat, v: nat, i: nat, width: Byte)
    requires 1 <= width <= 8 && Low(x, width) == Low(v, width)
    requires forall k: nat :: k < 8 * width ==> (Bit(after, k) <==> Bit(x, k) && Bit(i, k))
    ensures Low(after, width) == Low(BitAnd(v, i), width)
  {
    LowDigits(x, v, width);
    forall k: nat | k < 8 * width ensures Bit(after, k) <==> Bit(BitAnd(v, i), k) {
      assert Bit(x, k) <==> Bit(v, k);
      BitOfAnd(v, i, k);
    }
    LowDigits(after, BitAnd(v, i), width);
  }

  lemma {:induction false} FoldedOr(after: nat, x: nat, v: nat, i: nat, width: Byte)
    requires 1 <= width <= 8 && Low(x, width) == Low(v, width)
    requires forall k: nat :: k < 8 * width ==> (Bit(after, k) <==> Bit(x, k) || Bit(i, k))
    ensures Low(after, width) == Low(BitOr(v, i), width)
  {
    LowDigits(x, v, width);
    forall k: nat | k < 8 * width ensures Bit(after, k) <==> Bit(BitOr(v, i), k) {
      assert Bit(x, k) <==> Bit(v, k);
      BitOfOr(v, i, k);
    }
    LowDigits(after, BitOr(v, i), width);
  }

  /** The folded replacement keeps digits 0 to 15, takes 16 to 31 and clears the rest. */
  lemma {:induction false} ReplacedDigits(v: nat, i: nat, k: nat)
    ensures Bit(BitOr(BitAnd(v, 0xffff), BitAnd(i, 0xffff) * 0x1_0000), k) <==>
            if k < 16 then Bit(v, k) else k < 32 && Bit(i, k - 16)
  {
    Pow2Values();
    MaskIsRemainder(v, 16);
    MaskIsRemainder(i, 16);
    BitOfRemainder(v, 16, k);
    BitOfOr(BitAnd(v, 0xffff), BitAnd(i, 0xffff) * 0x1_0000, k);
    ShiftedBit(BitAnd(i, 0xffff), 16, k);
    if k >= 16 { BitOfRemainder(i, 16, k - 16); }
    hide Bit, BitOr, BitAnd, Pow2;
  }

  lemma {:induction false} FoldedReplace(after: nat, x: nat, v: nat, i: nat, width: Byte)
    requires 4 <= width <= 8 && v == Low(x, width) && HighReplaced(after, x, i, 8 * width)
    requires width > 4 ==> v < TWO_32
    ensures Low(after, width) == Low(BitOr(BitAnd(v, 0xffff), BitAnd(i, 0xffff) * 0x1_0000), width)
  {
    var folded := BitOr(BitAnd(v, 0xffff), BitAnd(i, 0xffff) * 0x1_0000);
    LowOfLow(x, width, width);
    LowDigits(x, v, width);
    Pow2Values();
    forall k: nat | k < 8 * width ensures Bit(after, k) <==> Bit(folded, k) {
      assert Bit(x, k) <==> Bit(v, k);
      ReplacedDigits(v, i, k);
      if k >= 32 {
        SmallRemainder(v, 32);
        BitOfRemainder(v, 32, k);
      }
    }
    LowDigits(after, folded, width);
  }

  // ---- one instruction ------------------------------------------------------------------------------------

  /** The tracked value of an arithmetic instruction's base register. */
  ghost predicate Folds(insn: Instruction, m: Machine, v: U64, after: U64) {
    && ValidInteger(insn) && Computes(insn, m, after)
    && v == Low(m.registers(BaseRegister(insn)), insn.valueWidth) && Fold(insn, v).Some?
  }

  lemma {:induction false} FoldIsSum(insn: Instruction, m: Machine, v: U64, after: U64)
    requires Folds(insn, m, v, after) && (insn.kind.AddImmediate? || insn.kind.SubImmediate?)
    ensures Low(after, insn.valueWidth) == Low(Fold(insn, v).value, insn.valueWidth)
  {
    hide Low;
    var w, x: int, i: int, y: int := insn.valueWidth, m.registers(BaseRegister(insn)), insn.immediate, v;
    LowOfLow(x, w, w);
    if insn.kind.AddImmediate? {
      LowOfSum(x, y, i, w);
      LowOfWord(y + i, w);
    } else {
      LowOfSum(x, y, -i, w);
      LowOfWord(y - i, w);
    }
  }

  lemma {:induction false} FoldIsBitwise(insn: Instruction, m: Machine, v: U64, after: U64)
    requires Folds(insn, m, v, after) && (insn.kind.XorImmediate? || insn.kind.AndImmediate? || insn.kind.OrImmediate?)
    ensures Low(after, insn.valueWidth) == Low(Fold(insn, v).value, insn.valueWidth)
  {
    hide Low, Bit, BitXor, BitAnd, BitOr;
    var w, x, i := insn.valueWidth, m.registers(BaseRegister(insn)), insn.immediate;
    LowOfLow(x, w, w);
    if insn.kind.XorImmediate? {
      FoldedXor(after, x, v, i, w);
    } else if insn.kind.AndImmediate? {
      FoldedAnd(after, x, v, i, w);
    } else {
      FoldedOr(after, x, v, i, w);
    }
  }

  lemma {:induction false} FoldIsShift(insn: Instruction, m: Machine, v: U64, after: U64)
    requires Folds(insn, m, v, after) && insn.kind.ShiftLeftImmediate?
    ensures Low(after, insn.valueWidth) == Low(Fold(insn, v).value, insn.valueWidth)
  {
    hide Low, Pow2;
    var w, x, i := insn.valueWidth, m.registers(BaseRegister(insn)), insn.immediate;
    LowOfLow(x, w, w);
    LowOfShift(x, v, i, w);
    LowOfWord(v * Pow2(i), w);
  }

  /** The folded value is what the instruction computes, seen at the instruction's width. */
  lemma {:induction false} FoldIsComputed(insn: Instruction, m: Machine, v: U64, after: U64)
    requires Folds(insn, m, v, after) && IsArithmetic(insn)
    requires insn.kind.ReplaceHigh16? && insn.valueWidth > 4 ==> v < TWO_32
    ensures Low(after, insn.valueWidth) == Low(Fold(insn, v).value, insn.valueWidth)
  {
    if insn.kind.AddImmediate? || insn.kind.SubImmediate? {
      FoldIsSum(insn, m, v, after);
    } else if insn.kind.ShiftLeftImmediate? {
      FoldIsShift(insn, m, v, after);
    } else if insn.kind.ReplaceHigh16? {
      hide Low, Bit, BitAnd, BitOr;
      FoldedReplace(after, m.registers(BaseRegister(insn)), v, insn.immediate, insn.valueWidth);
    } else {
      FoldIsBitwise(insn, m, v, after);
    }
  }

  /** The tracked value of the destination after the instruction, when it stays or becomes tracked. */
  lemma {:induction false} DestinationSound(conventions: Conventions, state: StateMap, insn: Instruction,
                                            m: Machine, n: Machine)
    requires WellFormed(state) && Describes(state, m) && Handled(conventions, state, insn)
    requires Executes(conventions, insn, m, n) && ValidInteger(insn)
    requires IsLoad(insn) || insn.kind.CopyRegister? || IsArithmetic(insn)
    requires insn.destination in UpdateConstants(state, insn)
    ensures var s := UpdateConstants(state, insn)[insn.destination];
            TruncateWidth(n.registers(insn.destination), s.width) == s.value
  {
    hide TruncateWidth, Low, Fold, Bit, NormalizeSupport;
    var w, after := insn.valueWidth, n.registers(insn.destination);
    TruncationIsRemainder(after, w);
    if IsLoad(insn) {
      TruncationIsRemainder(insn.immediate, w);
    } else if insn.kind.CopyRegister? {
      var s := state[insn.source];
      TruncationIsRemainder(m.registers(insn.source), s.width);
      LowOfLow(m.registers(insn.source), w, s.width);
      TruncationIsRemainder(s.value, w);
    } else {
      var s := state[BaseRegister(insn)];
      TruncationIsRemainder(m.registers(BaseRegister(insn)), w);
      FoldIsComputed(insn, m, s.value, after);
      TruncationIsRemainder(Fold(insn, s.value).value, w);
    }
  }

  /** A handled instruction keeps the tracked registers true. */
  lemma {:induction false} StepSound(conventions: Conventions, state: StateMap, insn: Instruction, m: Machine,
                                     n: Machine)
    requires WellFormed(state) && Describes(state, m) && Handled(conventions, state, insn)
    requires Executes(conventions, insn, m, n)
    ensures Describes(UpdateConstants(state, insn), n)
  {
    var next := UpdateConstants(state, insn);
    forall r | r in next ensures TruncateWidth(n.registers(r), next[r].width) == next[r].value {
      if r == insn.destination && (IsLoad(insn) || insn.kind.CopyRegister? || IsArithmetic(insn)) {
        DestinationSound(conventions, state, insn, m, n);
      } else {
        UntouchedRegister(conventions, state, insn, r);
        hide UpdateConstants, TruncateWidth, Computes, FlagsStep, TopStep, Handled;
      }
    }
  }

  lemma {:induction false} UntouchedRegister(conventions: Conventions, state: StateMap, insn: Instruction,
                                             r: Register)
    requires WellFormed(state) && Handled(conventions, state, insn) && r in UpdateConstants(state, insn)
    requires !(r == insn.destination && (IsLoad(insn) || insn.kind.CopyRegister? || IsArithmetic(insn)))
    ensures r in state && UpdateConstants(state, insn)[r] == state[r] && !MayChange(conventions, insn, r)
  {
    hide Fold, TruncateWidth, NormalizeSupport, Pow2;
  }

  // ---- exactly when ----------------------------------------------------------------------------------------

  /** Every machine the tracked registers describe is described again after the instruction. */
  ghost predicate KeepsTruth(conventions: Conventions, state: StateMap, insn: Instruction) {
    forall m: Machine, n: Machine :: Describes(state, m) && Executes(conventions, insn, m, n) ==>
      Describes(UpdateConstants(state, insn), n)
  }

  /** Some machine in agreement with the tracked registers. */
  ghost function Canonical(state: StateMap): (r: Register -> U64)
    ensures forall q: Register :: r(q) == if q in state then state[q].value else 0
  {
    (q: Register) => if q in state then state[q].value else 0
  }

  ghost function With(registers: Register -> U64, r: Register, value: U64): (f: Register -> U64)
    ensures forall q: Register :: f(q) == if q == r then value else registers(q)
  {
    (q: Register) => if q == r then value else registers(q)
  }

  /** A word whose low bytes differ from the given value at every width. */
  function Different(value: U64): U64 { if value == 0 then 1 else 0 }

  lemma {:induction false} DifferentDiffers(value: U64, width: Byte)
    requires 1 <= width <= 8
    ensures TruncateWidth(Different(value), width) != value
  {
    TruncationIsRemainder(Different(value), width);
    SmallRemainder(0, 8 * width);
    SmallRemainder(1, 8 * width);
  }

  lemma {:induction false} CanonicalDescribes(state: StateMap, flags: ArithmeticFlags, top: U64)
    requires WellFormed(state)
    ensures Describes(state, Machine(Canonical(state), flags, top))
  {
    forall r | r in state ensures TruncateWidth(Canonical(state)(r), state[r].width) == state[r].value {
      TruncationIsRemainder(state[r].value, state[r].width);
      SmallRemainder(state[r].value, 8 * state[r].width);
    }
  }

  /** Some machine with the given registers and top of stack is left as far as flags are concerned. */
  lemma {:induction false} Left(insn: Instruction, m: Machine, registers: Register -> U64, top: U64)
    returns (n: Machine)
    ensures FlagsStep(insn, m, n) && n.registers == registers && n.top == top
  {
    var f := m.flags;
    var value := m.registers(insn.destination);
    if ValidInteger(insn) && insn.flagEffect.KnownCompare? {
      if insn.registerIsLeft {
        CompareFlagsMean(value, insn.immediate, insn.valueWidth);
        f := CompareFlags(value, insn.immediate, insn.valueWidth).value;
      } else {
        CompareFlagsMean(insn.immediate, value, insn.valueWidth);
        f := CompareFlags(insn.immediate, value, insn.valueWidth).value;
      }
    } else if ValidInteger(insn) && insn.flagEffect.KnownTest? {
      TestFlagsMean(value, insn.immediate, insn.valueWidth);
      f := TestFlags(value, insn.immediate, insn.valueWidth).value;
    }
    n := Machine(registers, f, top);
    hide CompareFlags, TestFlags, DescribesComparison, DescribesTest;
  }

  const NO_FLAGS := ArithmeticFlags(false, false, false, false, false)

  /** A step whose result contradicts the updated tracking at register `r`. */
  lemma {:induction false} Contradicted(conventions: Conventions, state: StateMap, insn: Instruction, m: Machine,
                                        n: Machine, r: Register)
    requires Describes(state, m) && FlagsStep(insn, m, n) && TopStep(insn, m, n)
    requires RegistersStep(conventions, insn, m, n)
    requires var next := UpdateConstants(state, insn);
             r in next && TruncateWidth(n.registers(r), next[r].width) != next[r].value
    ensures Falsifies(conventions, state, insn, m, n)
  {
    hide UpdateConstants, RegistersStep, FlagsStep, TopStep, TruncateWidth;
  }

  /** Changing one register the instruction may change is a step of it. */
  lemma {:induction false} OneChange(conventions: Conventions, insn: Instruction, m: Machine, n: Machine,
                                     d: Register, value: U64)
    requires n.registers == With(m.registers, d, value) && MayChange(conventions, insn, d)
    requires ValidInteger(insn) ==> Computes(insn, m, n.registers(insn.destination))
    ensures RegistersStep(conventions, insn, m, n)
  {
    hide Computes, MayChange, With;
  }

  ghost predicate Falsifies(conventions: Conventions, state: StateMap, insn: Instruction, m: Machine, n: Machine) {
    Describes(state, m) && Executes(conventions, insn, m, n) && !Describes(UpdateConstants(state, insn), n)
  }

  /** A tracked register loaded from the stack keeps its stale value. */
  lemma {:induction false} StaleDestination(conventions: Conventions, state: StateMap, insn: Instruction)
    returns (m: Machine, n: Machine)
    requires WellFormed(state) && ReadsStack(insn) && insn.destination in state
    ensures Falsifies(conventions, state, insn, m, n)
  {
    hide FlagsStep, Describes, TruncateWidth, Different, Low, Falsifies, RegistersStep, With, Canonical;
    var d := insn.destination;
    var top := Different(state[d].value);
    m := Machine(Canonical(state), NO_FLAGS, top);
    CanonicalDescribes(state, m.flags, top);
    n := Left(insn, m, With(m.registers, d, top), top);
    DifferentDiffers(state[d].value, state[d].width);
    assert ValidInteger(insn) ==> Computes(insn, m, n.registers(d));
    OneChange(conventions, insn, m, n, d, top);
    Contradicted(conventions, state, insn, m, n, d);
  }

  /** A tracked register changed without being named keeps its stale value. */
  lemma {:induction false} StaleUnnamed(conventions: Conventions, state: StateMap, insn: Instruction, r: Register)
    returns (m: Machine, n: Machine)
    requires WellFormed(state) && r in state
    requires (MovesStack(insn) && r == conventions.stackPointer) || (Counts(insn) && r == conventions.counter)
    requires ReadsStack(insn) ==> insn.destination !in state
    ensures Falsifies(conventions, state, insn, m, n)
  {
    hide FlagsStep, Describes, TruncateWidth, Different, Low, Falsifies, RegistersStep, With, Canonical;
    m := Machine(Canonical(state), NO_FLAGS, 0);
    CanonicalDescribes(state, m.flags, 0);
    n := Left(insn, m, With(m.registers, r, Different(state[r].value)),
              if insn.kind.PushImmediate? then insn.immediate else m.registers(insn.source));
    DifferentDiffers(state[r].value, state[r].width);
    assert TopStep(insn, m, n);
    hide TopStep;
    assert ValidInteger(insn) ==> Computes(insn, m, n.registers(insn.destination));
    OneChange(conventions, insn, m, n, r, Different(state[r].value));
    hide Computes;
    Contradicted(conventions, state, insn, m, n, r);
  }

  lemma {:induction false} Garbage(value: nat, narrow: Byte, wide: Byte) returns (garbage: U64)
    requires 1 <= narrow < wide <= 8 && value < Pow2(8 * narrow)
    ensures TruncateWidth(garbage, narrow) == value && TruncateWidth(garbage, wide) != TruncateWidth(value, wide)
  {
    var p := Pow2(8 * narrow);
    Pow2Values();
    Pow2Monotone(8 * narrow + 1, 8 * wide);
    Pow2Monotone(8 * wide, 64);
    garbage := value + p;
    TruncationIsRemainder(garbage, narrow);
    TruncationIsRemainder(garbage, wide);
    TruncationIsRemainder(value, wide);
    QuotientUnique(garbage, p, 1, value);
    SmallRemainder(garbage, 8 * wide);
    SmallRemainder(value, 8 * wide);
    hide TruncateWidth;
  }

  /** A copy wider than its tracked source invents the bytes above the source's width. */
  lemma {:induction false} WideCopy(conventions: Conventions, state: StateMap, insn: Instruction)
    returns (m: Machine, n: Machine)
    requires WellFormed(state) && insn.kind.CopyRegister? && insn.source in state && ValidInteger(insn)
    requires insn.valueWidth > state[insn.source].width
    ensures Falsifies(conventions, state, insn, m, n)
  {
    hide FlagsStep, TruncateWidth, Low, Falsifies, NormalizeSupport, RegistersStep, With, Canonical;
    var s, d := state[insn.source], insn.destination;
    var garbage := Garbage(s.value, s.width, insn.valueWidth);
    m := Machine(With(Canonical(state), insn.source, garbage), NO_FLAGS, 0);
    CanonicalDescribes(state, m.flags, 0);
    assert Describes(state, m);
    hide Describes;
    n := Left(insn, m, With(m.registers, d, garbage), 0);
    assert Computes(insn, m, n.registers(d));
    OneChange(conventions, insn, m, n, d, garbage);
    Contradicted(conventions, state, insn, m, n, d);
  }

  /** The word a replacement of digits 16 to 31 really leaves. */
  lemma {:induction false} Replacement(x: U64, i: U64, n: nat) returns (after: U64)
    requires n <= 64
    ensures HighReplaced(after, x, i, n)
  {
    Pow2Values();
    var folded := BitOr(BitAnd(x, 0xffff), BitAnd(i, 0xffff) * 0x1_0000);
    var high := BitXor(x, x % TWO_32);
    after := BitOr(folded, high) % TWO_64;
    forall k: nat | k < n
      ensures Bit(after, k) <==> if 16 <= k < 32 then Bit(i, k - 16) else Bit(x, k)
    {
      hide Bit, BitOr, BitXor, BitAnd, Pow2;
      BitOfRemainder(BitOr(folded, high), 64, k);
      BitOfOr(folded, high, k);
      ReplacedDigits(x, i, k);
      BitOfXor(x, x % TWO_32, k);
      BitOfRemainder(x, 32, k);
    }
  }

  /** Above 32 bits the folded replacement loses the high digits the instruction keeps. */
  lemma {:induction false} ReplacementLosesDigits(v: nat, i: nat, after: nat, width: Byte)
    requires 4 < width <= 8 && TWO_32 <= v < Pow2(8 * width) && HighReplaced(after, v, i, 8 * width)
    ensures TruncateWidth(after, width) !=
            TruncateWidth(BitOr(BitAnd(v, 0xffff), BitAnd(i, 0xffff) * 0x1_0000), width)
  {
    var folded := BitOr(BitAnd(v, 0xffff), BitAnd(i, 0xffff) * 0x1_0000);
    Pow2Values();
    TruncationIsRemainder(after, width);
    TruncationIsRemainder(folded, width);
    LowDigits(after, folded, width);
    var low := v % TWO_32;
    assert SameDigits(after, folded, 8 * width) ==> SameDigits(v, low, 8 * width) by {
      if SameDigits(after, folded, 8 * width) {
        forall k: nat | k < 8 * width ensures Bit(v, k) <==> Bit(low, k) {
          hide Bit, BitOr, BitXor, BitAnd, Pow2;
          assert Bit(after, k) <==> Bit(folded, k);
          BitOfRemainder(v, 32, k);
          ReplacedDigits(v, i, k);
        }
      }
    }
    LowDigits(v, low, width);
    Pow2Monotone(32, 8 * width);
    SmallRemainder(v, 8 * width);
    SmallRemainder(low, 8 * width);
    hide TruncateWidth, SameDigits, BitOr, BitAnd;
  }

  lemma {:induction false} WideReplace(conventions: Conventions, state: StateMap, insn: Instruction)
    returns (m: Machine, n: Machine)
    requires WellFormed(state) && insn.kind.ReplaceHigh16? && BaseRegister(insn) in state && ValidInteger(insn)
    requires state[BaseRegister(insn)].width == insn.valueWidth > 4 && state[BaseRegister(insn)].value >= TWO_32
    ensures Falsifies(conventions, state, insn, m, n)
  {
    hide FlagsStep, TruncateWidth, Low, Falsifies, NormalizeSupport;
    hide RegistersStep, With, Canonical, Describes, HighReplaced;
    var s, d := state[BaseRegister(insn)], insn.destination;
    var after := Replacement(s.value, insn.immediate, 8 * insn.valueWidth);
    m := Machine(Canonical(state), NO_FLAGS, 0);
    CanonicalDescribes(state, m.flags, 0);
    n := Left(insn, m, With(m.registers, d, after), 0);
    assert Computes(insn, m, n.registers(d));
    OneChange(conventions, insn, m, n, d, after);
    ReplacementLosesDigits(s.value, insn.immediate, after, insn.valueWidth);
    Contradicted(conventions, state, insn, m, n, d);
  }

  /**
   * The update keeps the tracked registers true of every machine exactly when
   * the instruction is handled: no tracked register is loaded from the stack or
   * changed unnamed, no copy is wider than its source, and a replacement of the
   * high half does not meet a value of more than 32 bits.
   */
  lemma {:induction false} ExactlyHandled(conventions: Conventions, state: StateMap, insn: Instruction)
    requires WellFormed(state)
    ensures KeepsTruth(conventions, state, insn) <==> Handled(conventions, state, insn)
  {
    if Handled(conventions, state, insn) {
      forall m: Machine, n: Machine | Describes(state, m) && Executes(conventions, insn, m, n)
        ensures Describes(UpdateConstants(state, insn), n)
      {
        StepSound(conventions, state, insn, m, n);
      }
    } else {
      var m, n := Unhandled(conventions, state, insn);
    }
  }

  lemma {:induction false} Unhandled(conventions: Conventions, state: StateMap, insn: Instruction)
    returns (m: Machine, n: Machine)
    requires WellFormed(state) && !Handled(conventions, state, insn)
    ensures Falsifies(conventions, state, insn, m, n)
  {
    hide Falsifies;
    if ReadsStack(insn) && insn.destination in state {
      m, n := StaleDestination(conventions, state, insn);
    } else if MovesStack(insn) && conventions.stackPointer in state {
      m, n := StaleUnnamed(conventions, state, insn, conventions.stackPointer);
    } else if Counts(insn) && conventions.counter in state {
      m, n := StaleUnnamed(conventions, state, insn, conventions.counter);
    } else if insn.kind.CopyRegister? {
      m, n := WideCopy(conventions, state, insn);
    } else {
      m, n := WideReplace(conventions, state, insn);
    }
  }

  // ---- a condition on the instructions alone ------------------------------------------------------------------

  /** The instruction may start to track its destination. */
  predicate Tracks(insn: Instruction) {
    ValidInteger(insn) && (IsLoad(insn) || insn.kind.CopyRegister? || IsArithmetic(insn))
  }

  /** The registers the block may track. */
  function Trackable(block: seq<Instruction>): set<Register> {
    set insn | insn in block && Tracks(insn) :: insn.destination
  }

  /** What no instruction may do to a register the block may track. */
  predicate Spares(conventions: Conventions, insn: Instruction, tracked: set<Register>) {
    && (ReadsStack(insn) ==> insn.destination !in tracked)
    && (MovesStack(insn) ==> conventions.stackPointer !in tracked)
    && (Counts(insn) ==> conventions.counter !in tracked)
  }

  /**
   * All tracking instructions have one width, at most four bytes where the high
   * half is replaced, and every instruction spares the registers they write.
   */
  predicate Uniform(conventions: Conventions, width: Byte, block: seq<Instruction>) {
    && (forall i :: 0 <= i < |block| && Tracks(block[i]) ==>
          block[i].valueWidth == width && (block[i].kind.ReplaceHigh16? ==> width <= 4))
    && (forall i :: 0 <= i < |block| ==> Spares(conventions, block[i], Trackable(block)))
  }

  ghost predicate TracksUniform(width: Byte, tracked: set<Register>, state: StateMap) {
    forall r :: r in state ==> r in tracked && state[r].width == width
  }

  lemma {:induction false} UpdateUniform(width: Byte, tracked: set<Register>, state: StateMap, insn: Instruction)
    requires TracksUniform(width, tracked, state)
    requires Tracks(insn) ==> insn.valueWidth == width && insn.destination in tracked
    ensures TracksUniform(width, tracked, UpdateConstants(state, insn))
  {
    hide Fold, TruncateWidth, NormalizeSupport;
  }

  /** A uniform block's next instruction is handled, and tracks no more than the block may. */
  lemma {:induction false} UniformStep(conventions: Conventions, width: Byte, block: seq<Instruction>,
                                       state: StateMap, i: nat)
    requires Uniform(conventions, width, block) && i < |block| && TracksUniform(width, Trackable(block), state)
    ensures Handled(conventions, state, block[i])
    ensures TracksUniform(width, Trackable(block), UpdateConstants(state, block[i]))
  {
    hide UpdateConstants;
    assert Spares(conventions, block[i], Trackable(block));
    assert Tracks(block[i]) ==> block[i].destination in Trackable(block);
    hide Trackable;
    UpdateUniform(width, Trackable(block), state, block[i]);
  }
}
