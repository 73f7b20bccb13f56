/**
 * The first conditional branch of a function's entry block: its direction when
 * a compare or test of a tracked constant decides it, or the remark that it
 * reads the flags the caller happened to leave.
 */
module EntryPredicates {
  import opened Words
  import opened Bits
  import opened Flags
  import opened Instructions
  import opened ConstantFolding

  datatype Knowledge = EntryFlagsUnspecified | ConstantOutcome

  datatype Candidate = Candidate(branch: U64, target: U64, fallthrough: U64, knowledge: Knowledge,
                                 taken: Option<bool>, support: seq<U64>)

  datatype FlagScan = FlagScan(constants: StateMap, known: Option<ArithmeticFlags>, written: bool, support: seq<U64>)

  const START := FlagScan(map[], None, false, [])

  predicate SetsKnownFlags(insn: Instruction) { insn.flagEffect.KnownCompare? || insn.flagEffect.KnownTest? }

  /** The flags left by a compare or test whose register is tracked at the compared width. */
  function Evaluated(constants: StateMap, insn: Instruction): Option<ArithmeticFlags> {
    if insn.destination !in constants || constants[insn.destination].width != insn.valueWidth then None
    else
      var value := constants[insn.destination].value;
      if insn.flagEffect.KnownTest? then TestFlags(value, insn.immediate, insn.valueWidth)
      else if insn.registerIsLeft then CompareFlags(value, insn.immediate, insn.valueWidth)
      else CompareFlags(insn.immediate, value, insn.valueWidth)
  }

  function Advance(scan: FlagScan, insn: Instruction): FlagScan {
    var constants := UpdateConstants(scan.constants, insn);
    if IsCall(insn) then FlagScan(constants, None, true, [])
    else if SetsKnownFlags(insn) then
      var known := Evaluated(scan.constants, insn);
      FlagScan(constants, known, true,
               if known.Some? then scan.constants[insn.destination].support + [insn.address] else scan.support)
    else if insn.flagEffect.UnknownWrite? then FlagScan(constants, None, true, [])
    else scan.(constants := constants)
  }

  function ScanTo(block: seq<Instruction>, i: nat): FlagScan
    requires i <= |block|
  {
    if i == 0 then START else Advance(ScanTo(block, i - 1), block[i - 1])
  }

  /** A branch on the arithmetic flags with a known target. */
  predicate Decisive(insn: Instruction) {
    insn.kind.ConditionalBranch? && !insn.condition.Unknown? && insn.target != BAD_ADDRESS
  }

  /** Within the window, and entered only from the instruction before it. */
  predicate InLine(entry: U64, block: seq<Instruction>, window: U64, i: nat)
    requires i < |block|
  {
    && entry <= block[i].address && block[i].address - entry <= window
    && (i != 0 ==> block[i].address == End(block[i - 1]) && !block[i].alternatePredecessor)
    && End(block[i]) != BAD_ADDRESS
  }

  /** `i` is the first decisive branch, reached in line. */
  ghost predicate FirstDecisive(entry: U64, block: seq<Instruction>, window: U64, i: nat) {
    && i < |block| && Decisive(block[i])
    && (forall j :: 0 <= j <= i ==> InLine(entry, block, window, j))
    && (forall j :: 0 <= j < i ==> !Decisive(block[j]))
  }

  // ---- concrete runs -----------------------------------------------------------------------------------

  /** A straight-line run of the first `n` instructions. */
  ghost predicate Straight(conventions: Conventions, block: seq<Instruction>, machines: seq<Machine>, n: nat) {
    && n <= |block| && |machines| == n + 1
    && (forall j :: 0 <= j < n ==> Executes(conventions, block[j], machines[j], machines[j + 1]))
  }

  /** Every instruction up to `n` is handled with the constants the scan has there. */
  predicate AllHandled(conventions: Conventions, block: seq<Instruction>, n: nat)
    requires n <= |block|
  {
    forall j :: 0 <= j < n ==> Handled(conventions, ScanTo(block, j).constants, block[j])
  }

  /** What the scan claims of the machine reached from `first`. */
  ghost predicate Holds(scan: FlagScan, first: Machine, m: Machine) {
    && WellFormed(scan.constants) && Describes(scan.constants, m)
    && (scan.known.Some? ==> m.flags == scan.known.value)
    && (!scan.written ==> m.flags == first.flags && scan.known.None?)
  }

  /** A comparison depends only on the low bytes of its operands. */
  lemma {:induction false} ComparedLow(f: ArithmeticFlags, lhs: U64, rhs: U64, x: U64, y: U64, width: Byte)
    requires 1 <= width <= 8 && Low(lhs, width) == Low(x, width) && Low(rhs, width) == Low(y, width)
    requires DescribesComparison(f, lhs, rhs, width)
    ensures CompareFlags(x, y, width) == Some(f)
  {
    CompareFlagsMean(x, y, width);
    LowOfDifference(lhs, rhs, width);
    LowOfDifference(x, y, width);
    hide CompareFlags, Low, EvenParity, Pow2;
  }

  lemma {:induction false} TestedLow(f: ArithmeticFlags, lhs: U64, rhs: U64, x: U64, width: Byte)
    requires 1 <= width <= 8 && Low(lhs, width) == Low(x, width) && DescribesTest(f, lhs, rhs, width)
    ensures TestFlags(x, rhs, width) == Some(f)
  {
    TestFlagsMean(x, rhs, width);
    LowDigits(lhs, x, width);
    assert Bit(lhs, 8 * width - 1) <==> Bit(x, 8 * width - 1);
    assert Disjoint(lhs, rhs, 8 * width) <==> Disjoint(x, rhs, 8 * width);
    LowByteOfAnd(lhs, x, rhs, 8 * width);
    hide TestFlags, Low, EvenParity, Pow2, Disjoint, Bit, BitAnd;
  }

  lemma {:induction false} LowByteOfAnd(x: nat, y: nat, z: nat, n: nat)
    requires n >= 8 && SameDigits(x, y, n)
    ensures BitAnd(x, z) % 0x100 == BitAnd(y, z) % 0x100
  {
    hide BitAnd;
    forall k: nat | k < 8 ensures Bit(BitAnd(x, z), k) <==> Bit(BitAnd(y, z), k) {
      hide Bit;
      BitOfAnd(x, z, k);
      BitOfAnd(y, z, k);
      assert Bit(x, k) <==> Bit(y, k);
    }
    DigitsDetermine(BitAnd(x, z), BitAnd(y, z), 8);
    Pow2Values();
  }

  lemma {:induction false} EvaluatedTrue(constants: StateMap, insn: Instruction, m: Machine, n: Machine)
    requires WellFormed(constants) && Describes(constants, m) && FlagsStep(insn, m, n) && !IsCall(insn)
    requires SetsKnownFlags(insn) && Evaluated(constants, insn).Some?
    ensures Evaluated(constants, insn) == Some(n.flags)
  {
    var s, x, w := constants[insn.destination], m.registers(insn.destination), insn.valueWidth;
    TruncationIsRemainder(x, w);
    LowOfLow(x, w, w);
    hide CompareFlags, TestFlags, DescribesComparison, DescribesTest, Low, TruncateWidth;
    if insn.flagEffect.KnownTest? {
      TestedLow(n.flags, x, insn.immediate, s.value, w);
    } else if insn.registerIsLeft {
      ComparedLow(n.flags, x, insn.immediate, s.value, insn.immediate, w);
    } else {
      ComparedLow(n.flags, insn.immediate, x, insn.immediate, s.value, w);
    }
  }

  lemma {:induction false} AdvanceTrue(conventions: Conventions, scan: FlagScan, insn: Instruction, first: Machine,
                                       m: Machine, n: Machine)
    requires Holds(scan, first, m) && Handled(conventions, scan.constants, insn) && Executes(conventions, insn, m, n)
    ensures Holds(Advance(scan, insn), first, n)
  {
    UpdateWellFormed(scan.constants, insn);
    StepSound(conventions, scan.constants, insn, m, n);
    if SetsKnownFlags(insn) && !IsCall(insn) && Evaluated(scan.constants, insn).Some? {
      EvaluatedTrue(scan.constants, insn, m, n);
    }
    hide UpdateConstants, Evaluated, Handled, RegistersStep, TopStep, Describes, WellFormed;
  }

  lemma {:induction false} ScanTrue(conventions: Conventions, block: seq<Instruction>, machines: seq<Machine>,
                                    n: nat, i: nat)
    requires Straight(conventions, block, machines, n) && AllHandled(conventions, block, n) && i <= n
    ensures Holds(ScanTo(block, i), machines[0], machines[i])
  {
    hide Executes, Handled, Advance;
    if i > 0 {
      ScanTrue(conventions, block, machines, n, i - 1);
      AdvanceTrue(conventions, ScanTo(block, i - 1), block[i - 1], machines[0], machines[i - 1], machines[i]);
    }
  }

  // ---- the classifier -----------------------------------------------------------------------------------------

  /** The candidate for a first decisive branch, given what the scan knows there. */
  function Verdict(entry: U64, insn: Instruction, scan: FlagScan): Option<Candidate> {
    if scan.known.Some? then
      Some(Candidate(insn.address, insn.target, End(insn), ConstantOutcome,
                     EvaluateCondition(insn.condition, scan.known.value),
                     NormalizeSupport(scan.support + [insn.address])))
    else if !scan.written then
      Some(Candidate(insn.address, insn.target, End(insn), EntryFlagsUnspecified, None,
                     NormalizeSupport([entry, insn.address])))
    else None
  }

  /** Once the line is broken no decisive branch is reached. */
  lemma {:induction false} NoneReached(entry: U64, block: seq<Instruction>, window: U64, i: nat)
    requires i <= |block| && forall j :: 0 <= j < i ==> !Decisive(block[j])
    requires i < |block| ==> !InLine(entry, block, window, i)
    ensures forall k: nat :: !FirstDecisive(entry, block, window, k)
  {
    hide InLine;
  }

  lemma {:induction false} OnlyFirst(entry: U64, block: seq<Instruction>, window: U64, i: nat)
    requires FirstDecisive(entry, block, window, i)
    ensures forall k: nat :: FirstDecisive(entry, block, window, k) ==> k == i
  {
  }

  method ClassifyEntryPredicate(entry: U64, block: seq<Instruction>, window: U64) returns (r: Option<Candidate>)
    ensures r.Some? ==> entry != BAD_ADDRESS && exists i: nat ::
              FirstDecisive(entry, block, window, i) && r == Verdict(entry, block[i], ScanTo(block, i))
    ensures r.None? && entry != BAD_ADDRESS ==> forall i: nat ::
              FirstDecisive(entry, block, window, i) ==> Verdict(entry, block[i], ScanTo(block, i)).None?
  {
    if entry == BAD_ADDRESS {
      return None;
    }
    hide Advance, NormalizeSupport, EvaluateCondition, End;
    var scan := START;
    var previousEnd := entry;
    var i := 0;
    while i < |block|
      invariant 0 <= i <= |block| && scan == ScanTo(block, i)
      invariant i > 0 ==> previousEnd == End(block[i - 1])
      invariant forall j :: 0 <= j < i ==> InLine(entry, block, window, j)
      invariant forall j :: 0 <= j < i ==> !Decisive(block[j])
    {
      var insn := block[i];
      if insn.address < entry || insn.address - entry > window {
        break;
      }
      if i != 0 && (insn.address != previousEnd || insn.alternatePredecessor) {
        break;
      }
      previousEnd := End(insn);
      if previousEnd == BAD_ADDRESS {
        break;
      }
      assert InLine(entry, block, window, i);
      hide InLine;
      if Decisive(insn) {
        assert FirstDecisive(entry, block, window, i);
        OnlyFirst(entry, block, window, i);
        hide FirstDecisive, Verdict, ScanTo;
        return Verdict(entry, insn, scan);
      }
      scan := Advance(scan, insn);
      i := i + 1;
    }
    NoneReached(entry, block, window, i);
    hide FirstDecisive, Verdict, ScanTo;
    r := None;
  }

  /** What a verdict claims of the machine that reaches the branch. */
  ghost predicate Claims(c: Candidate, insn: Instruction, first: Machine, m: Machine) {
    && c.branch == insn.address && c.target == insn.target && c.fallthrough == End(insn)
    && (c.knowledge.ConstantOutcome? ==> c.taken.Some? && EvaluateCondition(insn.condition, m.flags) == c.taken)
    && (c.knowledge.EntryFlagsUnspecified? ==> c.taken.None? && m.flags == first.flags)
  }

  lemma {:induction false} VerdictClaims(entry: U64, insn: Instruction, scan: FlagScan, first: Machine, m: Machine)
    requires Holds(scan, first, m) && Decisive(insn) && Verdict(entry, insn, scan).Some?
    ensures Claims(Verdict(entry, insn, scan).value, insn, first, m)
  {
    hide NormalizeSupport, Describes, WellFormed, End;
  }

  /**
   * On every handled straight-line run up to the classified branch, a constant
   * outcome is the way the branch goes, and an unspecified one reads exactly the
   * flags the function was entered with.
   */
  lemma {:induction false} VerdictTrue(entry: U64, window: U64, conventions: Conventions, block: seq<Instruction>,
                                       machines: seq<Machine>, i: nat)
    requires FirstDecisive(entry, block, window, i) && Straight(conventions, block, machines, i)
    requires AllHandled(conventions, block, i) && Verdict(entry, block[i], ScanTo(block, i)).Some?
    ensures Claims(Verdict(entry, block[i], ScanTo(block, i)).value, block[i], machines[0], machines[i])
  {
    ScanTrue(conventions, block, machines, i, i);
    hide Holds, Claims, Verdict, ScanTo, InLine;
    VerdictClaims(entry, block[i], ScanTo(block, i), machines[0], machines[i]);
  }

  // ---- a condition on the instructions alone -------------------------------------------------------------------

  lemma {:induction false} UniformTracks(conventions: Conventions, width: Byte, block: seq<Instruction>, n: nat,
                                         j: nat)
    requires j <= n <= |block| && Uniform(conventions, width, block[..n])
    ensures TracksUniform(width, Trackable(block[..n]), ScanTo(block, j).constants)
  {
    hide UpdateConstants, Evaluated, Trackable, Uniform, Handled;
    if j > 0 {
      UniformTracks(conventions, width, block, n, j - 1);
      UniformStep(conventions, width, block[..n], ScanTo(block, j - 1).constants, j - 1);
    }
  }

  /** Instructions that are uniform up to `n` are handled up to there. */
  lemma {:induction false} UniformHandled(conventions: Conventions, width: Byte, block: seq<Instruction>, n: nat)
    requires n <= |block| && Uniform(conventions, width, block[..n])
    ensures AllHandled(conventions, block, n)
  {
    hide ScanTo, Trackable, Uniform, Handled;
    forall j | 0 <= j < n ensures Handled(conventions, ScanTo(block, j).constants, block[j]) {
      UniformTracks(conventions, width, block, n, j);
      UniformStep(conventions, width, block[..n], ScanTo(block, j).constants, j);
    }
  }

  /** Where the instructions before the branch are uniform, a verdict is true on every run there is. */
  lemma {:induction false} UniformVerdictTrue(entry: U64, window: U64, conventions: Conventions, width: Byte,
                                              block: seq<Instruction>, machines: seq<Machine>, i: nat)
    requires FirstDecisive(entry, block, window, i) && Straight(conventions, block, machines, i)
    requires Uniform(conventions, width, block[..i]) && Verdict(entry, block[i], ScanTo(block, i)).Some?
    ensures Claims(Verdict(entry, block[i], ScanTo(block, i)).value, block[i], machines[0], machines[i])
  {
    hide Straight, AllHandled, Claims, Verdict, Uniform;
    UniformHandled(conventions, width, block, i);
    VerdictTrue(entry, window, conventions, block, machines, i);
  }
}
