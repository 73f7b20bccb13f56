/**
 * What the entry-predicate classifier does report: a verdict for every first
 * decisive branch whose flags come from a compare or test of a tracked constant,
 * or from nowhere inside the block, and for no other.
 */
module PredicateReports {
  import opened Orders
  import opened Words
  import opened Flags
  import opened Instructions
  import opened ConstantFolding
  import opened EntryPredicates
  import opened ConstantReports

  /** The arithmetic flags may be others after the instruction. */
  predicate WritesFlags(insn: Instruction) { insn.kind in {DirectCall, IndirectCall} || insn.flagEffect != Preserve }

  /** Instruction `k` is the last before `i` that writes the flags. */
  ghost predicate LastWriter(block: seq<Instruction>, i: nat, k: nat) {
    k < i <= |block| && WritesFlags(block[k]) && forall j :: k < j < i ==> !WritesFlags(block[j])
  }

  ghost predicate NoWriter(block: seq<Instruction>, i: nat) {
    i <= |block| && forall j :: 0 <= j < i ==> !WritesFlags(block[j])
  }

  /** A compare or test of a register that is tracked there at the compared width. */
  predicate Compares(block: seq<Instruction>, k: nat)
    requires k < |block|
  {
    var insn, constants := block[k], ScanTo(block, k).constants;
    && insn.kind !in {DirectCall, IndirectCall} && insn.flagEffect in {KnownCompare, KnownTest}
    && insn.destination in constants && constants[insn.destination].width == insn.valueWidth
  }

  lemma {:induction false} ScanWellFormed(block: seq<Instruction>, i: nat)
    requires i <= |block|
    ensures WellFormed(ScanTo(block, i).constants)
  {
    hide UpdateConstants, Evaluated;
    if i > 0 {
      ScanWellFormed(block, i - 1);
      UpdateWellFormed(ScanTo(block, i - 1).constants, block[i - 1]);
    }
  }

  lemma {:induction false} EvaluatedWhenTracked(constants: StateMap, insn: Instruction)
    requires WellFormed(constants) && insn.destination in constants
    requires constants[insn.destination].width == insn.valueWidth
    ensures Evaluated(constants, insn).Some?
  {
    var value, w := constants[insn.destination].value, insn.valueWidth;
    CompareFlagsMean(value, insn.immediate, w);
    CompareFlagsMean(insn.immediate, value, w);
    TestFlagsMean(value, insn.immediate, w);
    hide CompareFlags, TestFlags;
  }

  /** The scan right after the last writer, and everywhere until the next. */
  lemma {:induction false} ScanSince(block: seq<Instruction>, i: nat, k: nat)
    requires LastWriter(block, i, k)
    ensures var scan, at := ScanTo(block, i), ScanTo(block, k);
            && scan.written && (scan.known.Some? <==> Compares(block, k))
            && (Compares(block, k) ==>
                  && scan.known == Evaluated(at.constants, block[k])
                  && scan.support == at.constants[block[k].destination].support + [block[k].address])
    decreases i
  {
    hide UpdateConstants, Evaluated;
    if k == i - 1 {
      if Compares(block, k) {
        ScanWellFormed(block, k);
        EvaluatedWhenTracked(ScanTo(block, k).constants, block[k]);
      }
      EvaluatedOnlyTracked(ScanTo(block, k).constants, block[k]);
    } else {
      ScanSince(block, i - 1, k);
    }
  }

  lemma {:induction false} EvaluatedOnlyTracked(constants: StateMap, insn: Instruction)
    ensures Evaluated(constants, insn).Some? ==>
              insn.destination in constants && constants[insn.destination].width == insn.valueWidth
  {
  }

  lemma {:induction false} ScanUnwritten(block: seq<Instruction>, i: nat)
    requires NoWriter(block, i)
    ensures !ScanTo(block, i).written && ScanTo(block, i).known.None?
  {
    hide UpdateConstants, Evaluated;
    if i > 0 {
      ScanUnwritten(block, i - 1);
    }
  }

  /** Branch, target and fall-through of the instruction. */
  predicate About(c: Candidate, insn: Instruction) {
    c.branch == insn.address && c.target == insn.target && c.fallthrough == End(insn)
  }

  /** A branch on the caller's flags is reported as such, supported by entry and branch. */
  lemma {:induction false} UnwrittenReported(entry: U64, window: U64, block: seq<Instruction>, i: nat)
    requires FirstDecisive(entry, block, window, i) && NoWriter(block, i)
    ensures var c := Verdict(entry, block[i], ScanTo(block, i));
            && c.Some? && About(c.value, block[i]) && c.value.knowledge == EntryFlagsUnspecified
            && c.value.taken == None && Supports(c.value.support, {entry, block[i].address})
  {
    hide ScanTo, NormalizeSupport, Supports, End, InLine;
    ScanUnwritten(block, i);
    NormalizedSupports([entry, block[i].address]);
    assert Elements([entry, block[i].address]) == {entry, block[i].address};
  }

  /**
   * A branch after a flag writer is reported if and only if the last one compares
   * or tests a tracked register; then with the outcome of those very flags.
   */
  lemma {:induction false} ComparedReported(entry: U64, window: U64, block: seq<Instruction>, i: nat, k: nat)
    requires FirstDecisive(entry, block, window, i) && LastWriter(block, i, k)
    ensures var c := Verdict(entry, block[i], ScanTo(block, i));
            && (c.Some? <==> Compares(block, k))
            && (c.Some? ==>
                  && About(c.value, block[i]) && c.value.knowledge == ConstantOutcome && c.value.taken.Some?
                  && Supports(c.value.support,
                              Elements(ScanTo(block, k).constants[block[k].destination].support) +
                              {block[k].address, block[i].address}))
  {
    hide ScanTo, NormalizeSupport, Supports, End, InLine, Evaluated;
    ScanSince(block, i, k);
    if Compares(block, k) {
      var support := ScanTo(block, k).constants[block[k].destination].support;
      NormalizedSupports(support + [block[k].address] + [block[i].address]);
      assert Elements(support + [block[k].address] + [block[i].address]) ==
             Elements(support) + {block[k].address, block[i].address};
      KnownCondition(block[i].condition, ScanTo(block, i).known.value);
    }
  }

  lemma {:induction false} KnownCondition(condition: Condition, flags: ArithmeticFlags)
    requires condition != Condition.Unknown
    ensures EvaluateCondition(condition, flags).Some?
  {
  }

  // ---- the line to the branch -----------------------------------------------------------------------------

  function Sizes(block: seq<Instruction>): nat {
    if block == [] then 0 else Sizes(block[..|block| - 1]) + block[|block| - 1].size
  }

  /**
   * The classified branch is conditional on known flags and has a target; the
   * instructions before it lie one after the other within the window, none entered
   * from elsewhere, and none of them is such a branch.
   */
  lemma {:induction false} LineToBranch(entry: U64, window: U64, block: seq<Instruction>, i: nat, j: nat)
    requires FirstDecisive(entry, block, window, i) && j <= i
    ensures block[i].kind == ConditionalBranch && block[i].condition != Condition.Unknown
    ensures block[i].target != BAD_ADDRESS
    ensures block[j].address == block[0].address + Sizes(block[..j])
    ensures entry <= block[j].address <= entry + window && block[j].address + block[j].size < BAD_ADDRESS
    ensures j > 0 ==> !block[j].alternatePredecessor
    ensures j < i ==>
              (block[j].kind != ConditionalBranch || block[j].condition == Condition.Unknown ||
               block[j].target == BAD_ADDRESS)
  {
    assert InLine(entry, block, window, j);
    if j > 0 {
      LineToBranch(entry, window, block, i, j - 1);
      assert block[..j][..j - 1] == block[..j - 1];
    }
  }

  /** Conversely, every such line leads to a classified branch. */
  lemma {:induction false} LineIsClassified(entry: U64, window: U64, block: seq<Instruction>, i: nat)
    requires i < |block|
    requires block[i].kind == ConditionalBranch && block[i].condition != Condition.Unknown
    requires block[i].target != BAD_ADDRESS
    requires forall j :: 0 <= j < i ==>
               (block[j].kind != ConditionalBranch || block[j].condition == Condition.Unknown ||
                block[j].target == BAD_ADDRESS)
    requires forall j :: 0 < j <= i ==> block[j].address == block[j - 1].address + block[j - 1].size
    requires forall j :: 0 < j <= i ==> !block[j].alternatePredecessor
    requires forall j :: 0 <= j <= i ==> entry <= block[j].address <= entry + window
    requires forall j :: 0 <= j <= i ==> block[j].address + block[j].size < BAD_ADDRESS
    ensures FirstDecisive(entry, block, window, i)
  {
    forall j | 0 <= j <= i ensures InLine(entry, block, window, j) {
      assert j > 0 ==> End(block[j - 1]) == block[j].address;
    }
    hide InLine;
  }

  // ---- chains decide ------------------------------------------------------------------------------------------

  /** Instruction `a` loads register `r`, those up to `b` transform it. */
  ghost predicate Builds(block: seq<Instruction>, a: nat, b: nat, r: Register, w: Byte) {
    && a < b < |block|
    && IsLoad(block[a]) && block[a].destination == r != NO_REGISTER && 1 <= block[a].valueWidth == w <= 8
    && forall k :: a < k < b ==> Transforms(block[k], r, w)
  }

  lemma {:induction false} BuildsTracked(block: seq<Instruction>, a: nat, b: nat, r: Register, w: Byte)
    requires Builds(block, a, b, r, w)
    ensures var constants := ScanTo(block, b).constants; r in constants && constants[r].width == w
    decreases b
  {
    hide UpdateConstants, Evaluated, Supports;
    assert ScanTo(block, b).constants == UpdateConstants(ScanTo(block, b - 1).constants, block[b - 1]);
    TrackedExactly(ScanTo(block, b - 1).constants, block[b - 1], r);
    if a < b - 1 {
      BuildsTracked(block, a, b - 1, r, w);
    }
  }

  /** A constant built in the block and compared decides the branch that its flags reach. */
  lemma {:induction false} ChainDecides(entry: U64, window: U64, block: seq<Instruction>, a: nat, b: nat, i: nat,
                                        r: Register, w: Byte)
    requires FirstDecisive(entry, block, window, i) && LastWriter(block, i, b) && Builds(block, a, b, r, w)
    requires block[b].kind !in {DirectCall, IndirectCall} && block[b].flagEffect in {KnownCompare, KnownTest}
    requires block[b].destination == r && block[b].valueWidth == w
    ensures var c := Verdict(entry, block[i], ScanTo(block, i));
            c.Some? && c.value.knowledge == ConstantOutcome && c.value.taken.Some?
  {
    hide ScanTo, FirstDecisive, LastWriter, Verdict, Supports;
    BuildsTracked(block, a, b, r, w);
    ComparedReported(entry, window, block, i, b);
  }
}
