/**
 * What constant propagation does track and report. Loads, copies and supported
 * arithmetic on a tracked register always leave the destination tracked, with
 * its width, number of steps and support; control transfers through tracked
 * registers and pushed values are always reported. A constant that is loaded and
 * then transformed in line is resolved, however long the chain.
 */
module ConstantReports {
  import opened Orders
  import opened Words
  import opened Bits
  import opened Flags
  import opened Instructions
  import opened ConstantFolding
  import opened ConstantBlocks

  // ---- one instruction ----------------------------------------------------------------------------------

  /** The register whose constant an instruction builds on. */
  function Origin(insn: Instruction): Option<Register> {
    match insn.kind
    case CopyRegister => Some(insn.source)
    case AddImmediate | SubImmediate | XorImmediate | AndImmediate | OrImmediate | ShiftLeftImmediate | ReplaceHigh16 =>
      Some(if insn.source == NO_REGISTER then insn.destination else insn.source)
    case _ => None
  }

  /** The destination becomes, or stays, a tracked constant. */
  predicate Learns(state: StateMap, insn: Instruction) {
    && insn.destination != NO_REGISTER && 1 <= insn.valueWidth <= 8
    && match insn.kind
       case LoadImmediate | LoadAddress | LoadReadOnlyConstant => true
       case CopyRegister => insn.source in state
       case AddImmediate | SubImmediate | XorImmediate | AndImmediate | OrImmediate =>
         Origin(insn).value in state && state[Origin(insn).value].width == insn.valueWidth
       case ShiftLeftImmediate =>
         Origin(insn).value in state && state[Origin(insn).value].width == insn.valueWidth &&
         insn.immediate < 8 * insn.valueWidth
       case ReplaceHigh16 =>
         Origin(insn).value in state && state[Origin(insn).value].width == insn.valueWidth && insn.valueWidth >= 4
       case _ => false
  }

  /** The instruction writes its destination as far as the analysis is concerned. */
  predicate Writes(insn: Instruction) {
    IsLoad(insn) || Origin(insn).Some?
  }

  /** Every tracked register is forgotten: at a call, or at a write the analysis does not follow. */
  predicate Forgets(insn: Instruction) {
    insn.kind in {DirectCall, IndirectCall} || (insn.kind == Other && insn.destination != NO_REGISTER)
  }

  /** Ascending, and exactly the given addresses that are known. */
  ghost predicate Supports(support: seq<U64>, addresses: set<U64>) {
    Ascending(support, AddressLess) && forall a :: a in support <==> a in addresses && a != BAD_ADDRESS
  }

  /** Width, steps, provenance and support of a constant learned from an instruction. */
  ghost predicate Learned(state: StateMap, insn: Instruction, s: ConstantState) {
    && s.width == insn.valueWidth
    && if Origin(insn).None? then
         && s.steps == 1 && s.readOnly == (insn.kind == LoadReadOnlyConstant)
         && Supports(s.support, {insn.address} + if insn.kind == LoadReadOnlyConstant then {insn.memoryAddress} else {})
       else
         && Origin(insn).value in state
         && var prior := state[Origin(insn).value];
            && s.steps == prior.steps + 1 && s.readOnly == prior.readOnly
            && Supports(s.support, Elements(prior.support) + {insn.address})
  }

  lemma {:induction false} KnownElements(addresses: seq<U64>)
    ensures forall a :: a in Known(addresses) <==> a in addresses && a != BAD_ADDRESS
  {
    if addresses != [] {
      KnownElements(addresses[1..]);
      assert addresses == [addresses[0]] + addresses[1..];
    }
  }

  lemma {:induction false} NormalizedSupports(support: seq<U64>)
    ensures Supports(NormalizeSupport(support), Elements(support))
  {
    KnownElements(support);
    AddressesTotal();
    SortUniqueSpec(Known(support), AddressLess);
    hide SortUnique, Known;
    forall a ensures a in NormalizeSupport(support) <==> a in Known(support) {
      assert a in NormalizeSupport(support) <==> a in Elements(NormalizeSupport(support));
      assert a in Known(support) <==> a in Elements(Known(support));
    }
  }

  lemma {:induction false} AddressesTotal()
    ensures StrictTotal(AddressLess)
  {
  }

  lemma {:induction false} LearnsLoad(state: StateMap, insn: Instruction)
    requires Learns(state, insn) && IsLoad(insn)
    ensures var after := UpdateConstants(state, insn);
            insn.destination in after && Learned(state, insn, after[insn.destination])
  {
    hide TruncateWidth, NormalizeSupport, Ascending;
    var support := (if insn.kind.LoadReadOnlyConstant? then [insn.memoryAddress] else []) + [insn.address];
    NormalizedSupports(support);
    assert Elements(support) ==
           {insn.address} + if insn.kind == LoadReadOnlyConstant then {insn.memoryAddress} else {};
    assert [] + [insn.address] == [insn.address];
  }

  lemma {:induction false} LearnsFrom(state: StateMap, insn: Instruction)
    requires Learns(state, insn) && !IsLoad(insn)
    ensures var after := UpdateConstants(state, insn);
            insn.destination in after && Learned(state, insn, after[insn.destination])
  {
    hide TruncateWidth, NormalizeSupport, Ascending;
    var support := state[Origin(insn).value].support;
    NormalizedSupports(support + [insn.address]);
    assert Elements(support + [insn.address]) == Elements(support) + {insn.address};
    hide Supports, Elements;
  }

  /**
   * Exactly which registers are tracked after an instruction: the destination if
   * it is learned, and every other register that was tracked, unless all is
   * forgotten or the destination is written with something unknown.
   */
  lemma {:induction false} TrackedExactly(state: StateMap, insn: Instruction, r: Register)
    ensures var after := UpdateConstants(state, insn);
            if r == insn.destination && Learns(state, insn) then r in after && Learned(state, insn, after[r])
            else if Forgets(insn) || (r == insn.destination != NO_REGISTER && Writes(insn)) then r !in after
            else r in after <==> r in state
    ensures var after := UpdateConstants(state, insn);
            r in after && !(r == insn.destination && Learns(state, insn)) ==> r in state && after[r] == state[r]
  {
    if Learns(state, insn) {
      if IsLoad(insn) {
        LearnsLoad(state, insn);
      } else {
        LearnsFrom(state, insn);
      }
    }
    hide TruncateWidth, NormalizeSupport, Learned;
  }

  // ---- a whole block -----------------------------------------------------------------------------------------

  lemma {:induction false} ReportedIsListed(start: U64, block: seq<Instruction>, n: nat, minimumSteps: nat, i: nat)
    requires i < n <= |block| && Reported(Entering(start, block, i), block[i], minimumSteps).Some?
    ensures Reported(Entering(start, block, i), block[i], minimumSteps).value in
            ReportedUpTo(start, block, n, minimumSteps)
  {
    hide Reported, Entering;
    if i < n - 1 {
      ReportedIsListed(start, block, n - 1, minimumSteps, i);
    }
  }

  /** The target tells value, width, steps and provenance of a constant, and supports it with the instruction. */
  ghost predicate Tells(t: Target, insn: Instruction, kind: TargetKind, register: Register, s: ConstantState) {
    && t.instruction == insn.address && t.kind == kind && t.register == register
    && t.target == s.value && t.width == s.width && t.steps == s.steps && t.readOnly == s.readOnly
    && Supports(t.support, Elements(s.support) + {insn.address})
  }

  lemma {:induction false} MadeTells(insn: Instruction, kind: TargetKind, register: Register, s: ConstantState)
    ensures Tells(MakeTarget(insn, kind, register, s), insn, kind, register, s)
  {
    NormalizedSupports(s.support + [insn.address]);
    assert Elements(s.support + [insn.address]) == Elements(s.support) + {insn.address};
    hide NormalizeSupport, Supports, Elements;
  }

  /** The register an indirect transfer goes through. */
  function Through(insn: Instruction): Register {
    if insn.source == NO_REGISTER then insn.destination else insn.source
  }

  /**
   * An indirect call or jump before the end of the analysis is reported exactly
   * when it goes through a tracked register of matching width with enough steps,
   * and then as what is tracked.
   */
  lemma {:induction false} IndirectReported(start: U64, block: seq<Instruction>, i: nat, minimumSteps: nat)
    requires i < Stop(block) && block[i].kind in {IndirectCall, IndirectJump}
    ensures var insn, state := block[i], Entering(start, block, i).state;
            var r := Through(insn);
            var kind := if insn.kind == IndirectCall then CallTarget else JumpTarget;
            if r in state && (insn.valueWidth == 0 || insn.valueWidth == state[r].width) &&
               minimumSteps <= state[r].steps
            then exists t :: t in ReportedUpTo(start, block, Stop(block), minimumSteps) &&
                             Tells(t, insn, kind, r, state[r])
            else Reported(Entering(start, block, i), insn, minimumSteps).None?
  {
    hide Entering, Stop, NormalizeSupport, Tells;
    var insn, state := block[i], Entering(start, block, i).state;
    var r := Through(insn);
    if Reported(Entering(start, block, i), insn, minimumSteps).Some? {
      ReportedIsListed(start, block, Stop(block), minimumSteps, i);
      MadeTells(insn, if insn.kind == IndirectCall then CallTarget else JumpTarget, r, state[r]);
    }
  }

  /** Only padding lies between instructions `i` and `j`, entered in line. */
  ghost predicate PaddedTo(start: U64, block: seq<Instruction>, i: nat, j: nat) {
    && i < j < |block|
    && (forall k :: i < k < j ==> block[k].kind == Nop)
    && (forall k :: i < k <= j ==> !Joins(start, block, k))
  }

  /** Padding leaves the pending push as it is. */
  lemma {:induction false} PaddingKeeps(start: U64, block: seq<Instruction>, i: nat, j: nat)
    requires PaddedTo(start, block, i, j)
    ensures Entering(start, block, j).pending == PendingAfter(Entering(start, block, i), block[i])
    decreases j
  {
    hide UpdateConstants, Joins;
    if i < j - 1 {
      PaddingKeeps(start, block, i, j - 1);
      hide Entering;
      assert Entering(start, block, j).pending == PendingAfter(Entering(start, block, j - 1), block[j - 1]) by {
        PendingStep(start, block, j);
      }
    } else {
      PendingStep(start, block, j);
    }
  }

  lemma {:induction false} PendingStep(start: U64, block: seq<Instruction>, j: nat)
    requires 0 < j < |block| && !Joins(start, block, j)
    ensures Entering(start, block, j).pending == PendingAfter(Entering(start, block, j - 1), block[j - 1])
    ensures Entering(start, block, j).state == UpdateConstants(Entering(start, block, j - 1).state, block[j - 1])
  {
    hide UpdateConstants, PendingAfter, Joins;
  }

  /** A pushed immediate that a return reaches through padding is reported, whatever the minimum number of steps. */
  lemma {:induction false} PushedImmediateReported(start: U64, block: seq<Instruction>, i: nat, j: nat,
                                                   minimumSteps: nat)
    requires j < Stop(block) && PaddedTo(start, block, i, j)
    requires block[i].kind == PushImmediate && block[j].kind == Instructions.Return
    ensures exists t :: t in ReportedUpTo(start, block, Stop(block), minimumSteps) &&
              t.instruction == block[j].address && t.kind == PushReturn && t.width == block[i].valueWidth &&
              t.target == TruncateWidth(block[i].immediate, block[i].valueWidth)
  {
    hide NormalizeSupport, TruncateWidth, Stop, Entering;
    PaddingKeeps(start, block, i, j);
    ReportedIsListed(start, block, Stop(block), minimumSteps, j);
    var t := Reported(Entering(start, block, j), block[j], minimumSteps).value;
    assert t.target == TruncateWidth(block[i].immediate, block[i].valueWidth);
  }

  /** A pushed tracked register that a return reaches through padding is reported as what is tracked. */
  lemma {:induction false} PushedRegisterReported(start: U64, block: seq<Instruction>, i: nat, j: nat,
                                                  minimumSteps: nat)
    requires j < Stop(block) && PaddedTo(start, block, i, j)
    requires block[i].kind == PushRegister && block[j].kind == Instructions.Return
    requires block[i].source != NO_REGISTER && block[i].source in Entering(start, block, i).state
    requires var s := Entering(start, block, i).state[block[i].source];
             (block[i].valueWidth == 0 || block[i].valueWidth == s.width) && minimumSteps <= s.steps
    ensures exists t :: t in ReportedUpTo(start, block, Stop(block), minimumSteps) &&
              Tells(t, block[j], PushReturn, block[i].source, Entering(start, block, i).state[block[i].source])
  {
    hide NormalizeSupport, Stop, Entering, Tells;
    PaddingKeeps(start, block, i, j);
    ReportedIsListed(start, block, Stop(block), minimumSteps, j);
    MadeTells(block[j], PushReturn, block[i].source, Entering(start, block, i).state[block[i].source]);
  }

  // ---- chains are resolved ---------------------------------------------------------------------------------------

  /** The instruction transforms register `r` at width `w` in a way the analysis supports. */
  predicate Transforms(insn: Instruction, r: Register, w: Byte) {
    && insn.destination == r != NO_REGISTER && 1 <= insn.valueWidth == w <= 8
    && (insn.source == NO_REGISTER || insn.source == r)
    && match insn.kind
       case AddImmediate | SubImmediate | XorImmediate | AndImmediate | OrImmediate => true
       case ShiftLeftImmediate => insn.immediate < 8 * w
       case ReplaceHigh16 => w >= 4
       case _ => false
  }

  /** Instruction `i` loads register `r`, those up to `j` transform it, all in line. */
  ghost predicate Chain(start: U64, block: seq<Instruction>, i: nat, j: nat, r: Register, w: Byte) {
    && i < j < |block|
    && IsLoad(block[i]) && block[i].destination == r != NO_REGISTER && 1 <= block[i].valueWidth == w <= 8
    && (forall k :: i < k < j ==> Transforms(block[k], r, w))
    && (forall k :: i < k <= j ==> !Joins(start, block, k))
  }

  lemma {:induction false} ChainTracked(start: U64, block: seq<Instruction>, i: nat, j: nat, r: Register, w: Byte)
    requires Chain(start, block, i, j, r, w)
    ensures var state := Entering(start, block, j).state;
            r in state && state[r].width == w && state[r].steps == j - i
    decreases j
  {
    hide UpdateConstants, Joins, Entering, Supports;
    PendingStep(start, block, j);
    TrackedExactly(Entering(start, block, j - 1).state, block[j - 1], r);
    if i < j - 1 {
      ChainTracked(start, block, i, j - 1, r, w);
    }
  }

  /**
   * However long the chain, an indirect jump or call through its register at its
   * end is reported when the chain has the minimum number of steps.
   */
  lemma {:induction false} ChainReported(start: U64, block: seq<Instruction>, i: nat, j: nat, r: Register, w: Byte,
                                         minimumSteps: nat)
    requires Chain(start, block, i, j, r, w) && j < Stop(block) && minimumSteps <= j - i
    requires block[j].kind in {IndirectCall, IndirectJump} && Through(block[j]) == r
    requires block[j].valueWidth == 0 || block[j].valueWidth == w
    ensures exists t :: t in ReportedUpTo(start, block, Stop(block), minimumSteps) &&
              t.instruction == block[j].address && t.register == r && t.width == w && t.steps == j - i
  {
    hide Entering, Stop, ReportedUpTo, Chain;
    ChainTracked(start, block, i, j, r, w);
    IndirectReported(start, block, j, minimumSteps);
  }

  // ---- how results are listed --------------------------------------------------------------------------------------

  /** Targets come by instruction, then by target, then calls before jumps before returns. */
  lemma {:induction false} TargetsInOrder(targets: seq<Target>, i: nat, j: nat)
    requires Ordered(targets) && i < j < |targets|
    ensures targets[i].instruction <= targets[j].instruction
    ensures targets[i].instruction == targets[j].instruction ==> targets[i].target <= targets[j].target
    ensures targets[i].instruction == targets[j].instruction && targets[i].target == targets[j].target ==>
              (targets[i].kind == PushReturn ==> targets[j].kind == PushReturn) &&
              (targets[j].kind == CallTarget ==> targets[i].kind == CallTarget)
  {
    assert !TargetLess(targets[j], targets[i]);
  }

  /** Each assignment tells what is tracked, dated by the last instruction that supports it. */
  lemma {:induction false} AssignmentsTell(assignments: seq<Assignment>, state: StateMap, i: nat)
    requires Lists(assignments, state) && i < |assignments|
    ensures var a := assignments[i];
            && a.register in state
            && var s := state[a.register];
               && a.value == s.value && a.width == s.width && a.steps == s.steps && a.support == s.support
               && (s.support == [] ==> a.instruction == BAD_ADDRESS)
               && (s.support != [] && Ascending(s.support, AddressLess) ==>
                     a.instruction in s.support && forall b :: b in s.support ==> b <= a.instruction)
  {
    var s := state[assignments[i].register];
    if s.support != [] && Ascending(s.support, AddressLess) {
      var last := |s.support| - 1;
      forall b | b in s.support ensures b <= s.support[last] {
        var k :| 0 <= k < |s.support| && s.support[k] == b;
        assert k < last ==> AddressLess(s.support[k], s.support[last]);
      }
    }
  }
}
