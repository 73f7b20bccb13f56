/**
 * Constant propagation over a basic block: resolved indirect targets, push and
 * return gadgets and the final assignments. On every concrete run through a
 * block of handled instructions the final assignments hold, and so does every
 * reported target of one to eight bytes; a target of any other width, which an
 * immediate pushed without a width gives, says nothing about where control goes.
 */
module ConstantBlocks {
  import opened Orders
  import opened Words
  import opened Bits
  import opened Flags
  import opened Instructions
  import opened ConstantFolding

  /** A value pushed on the stack; NO_REGISTER for an immediate. */
  datatype Pushed = Pushed(register: Register, state: ConstantState)

  datatype Scan = Scan(state: StateMap, pending: Option<Pushed>)

  datatype TargetKind = CallTarget | JumpTarget | PushReturn

  datatype Target = Target(instruction: U64, target: U64, kind: TargetKind, register: Register, width: Byte,
                           steps: nat, readOnly: bool, support: seq<U64>)

  datatype Assignment = Assignment(instruction: U64, register: Register, value: U64, width: Byte, steps: nat,
                                   support: seq<U64>)

  const FRESH := Scan(map[], None)

  predicate Matches(insn: Instruction, s: ConstantState) { insn.valueWidth == 0 || s.width == insn.valueWidth }

  /** The push the next return would go to, once `insn` has executed. */
  function PendingAfter(scan: Scan, insn: Instruction): Option<Pushed> {
    match insn.kind
    case PushImmediate =>
      Some(Pushed(NO_REGISTER, ConstantState(TruncateWidth(insn.immediate, insn.valueWidth), insn.valueWidth, 1, false,
                                             [insn.address])))
    case PushRegister =>
      if insn.source in scan.state && Matches(insn, scan.state[insn.source])
      then Some(Pushed(insn.source, scan.state[insn.source])) else None
    case Nop => scan.pending
    case _ => None
  }

  function Advance(scan: Scan, insn: Instruction): Scan {
    Scan(UpdateConstants(scan.state, insn), PendingAfter(scan, insn))
  }

  function MakeTarget(insn: Instruction, kind: TargetKind, register: Register, s: ConstantState): Target {
    Target(insn.address, s.value, kind, register, s.width, s.steps, s.readOnly,
           NormalizeSupport(s.support + [insn.address]))
  }

  /** The target the analysis reports at an instruction. */
  function Reported(scan: Scan, insn: Instruction, minimumSteps: nat): Option<Target> {
    match insn.kind
    case IndirectCall | IndirectJump =>
      var register := BaseRegister(insn);
      if register in scan.state && Matches(insn, scan.state[register]) && scan.state[register].steps >= minimumSteps
      then Some(MakeTarget(insn, if insn.kind.IndirectCall? then CallTarget else JumpTarget, register,
                           scan.state[register]))
      else None
    case Return =>
      if scan.pending.Some? &&
         (scan.pending.value.register == NO_REGISTER || scan.pending.value.state.steps >= minimumSteps)
      then Some(MakeTarget(insn, PushReturn, scan.pending.value.register, scan.pending.value.state))
      else None
    case _ => None
  }

  /** The instruction does not simply follow the previous one: a gap or another way in. */
  predicate Joins(start: U64, block: seq<Instruction>, i: nat)
    requires i < |block|
  {
    block[i].address != (if i == 0 then start else End(block[i - 1])) || block[i].alternatePredecessor
  }

  /** What is known on reaching instruction `i` in line. */
  function After(start: U64, block: seq<Instruction>, i: nat): Scan
    requires i <= |block|
    decreases i, 0
  {
    if i == 0 then FRESH else Advance(Entering(start, block, i - 1), block[i - 1])
  }

  function Entering(start: U64, block: seq<Instruction>, i: nat): Scan
    requires i < |block|
    decreases i, 1
  {
    if Joins(start, block, i) then FRESH else After(start, block, i)
  }

  /** The analysis stops at an instruction whose end is not an address. */
  function Stop(block: seq<Instruction>): (n: nat)
    ensures n <= |block|
    ensures n < |block| ==> End(block[n]) == BAD_ADDRESS
    ensures forall i :: 0 <= i < n ==> End(block[i]) != BAD_ADDRESS
  {
    if block == [] || End(block[0]) == BAD_ADDRESS then 0 else 1 + Stop(block[1..])
  }

  /** The tracked registers when the analysis is over. */
  function Final(start: U64, block: seq<Instruction>): StateMap {
    if Stop(block) < |block| then Entering(start, block, Stop(block)).state else After(start, block, |block|).state
  }

  // ---- concrete runs ---------------------------------------------------------------------------------------

  /** Machines before and after each of the first `n` instructions; control may come from anywhere at a join. */
  ghost predicate RunTo(conventions: Conventions, start: U64, block: seq<Instruction>, pre: seq<Machine>,
                        post: seq<Machine>, n: nat)
  {
    && |pre| == |post| == n <= |block|
    && (forall i :: 0 <= i < n ==> Executes(conventions, block[i], pre[i], post[i]))
    && (forall i :: 0 < i < n && !Joins(start, block, i) ==> pre[i] == post[i - 1])
  }

  ghost predicate Run(conventions: Conventions, start: U64, block: seq<Instruction>, pre: seq<Machine>,
                      post: seq<Machine>)
  {
    RunTo(conventions, start, block, pre, post, |block|)
  }

  ghost predicate PendingTrue(pending: Option<Pushed>, m: Machine) {
    pending.Some? ==> TruncateWidth(m.top, pending.value.state.width) == pending.value.state.value
  }

  ghost predicate Holds(scan: Scan, m: Machine) {
    WellFormed(scan.state) && Describes(scan.state, m) && PendingTrue(scan.pending, m)
  }

  /** Every instruction up to `n` is handled in the state the analysis is in. */
  predicate AllHandled(conventions: Conventions, start: U64, block: seq<Instruction>, n: nat)
    requires n <= |block|
  {
    forall i :: 0 <= i < n ==> Handled(conventions, Entering(start, block, i).state, block[i])
  }

  lemma {:induction false} AdvanceTrue(conventions: Conventions, scan: Scan, insn: Instruction, m: Machine,
                                       n: Machine)
    requires Holds(scan, m) && Handled(conventions, scan.state, insn) && Executes(conventions, insn, m, n)
    ensures Holds(Advance(scan, insn), n)
  {
    UpdateWellFormed(scan.state, insn);
    StepSound(conventions, scan.state, insn, m, n);
    hide UpdateConstants, Handled, RegistersStep, FlagsStep, TruncateWidth;
    assert Describes(scan.state, m);
  }

  /** On every run, what the analysis knows on entering an instruction is true there. */
  lemma {:induction false} EnteringTrue(conventions: Conventions, start: U64, block: seq<Instruction>,
                                        pre: seq<Machine>, post: seq<Machine>, i: nat)
    requires Run(conventions, start, block, pre, post) && i < |block| && AllHandled(conventions, start, block, i)
    ensures Holds(Entering(start, block, i), pre[i])
  {
    hide Executes, Handled, Advance;
    if i > 0 && !Joins(start, block, i) {
      EnteringTrue(conventions, start, block, pre, post, i - 1);
      AdvanceTrue(conventions, Entering(start, block, i - 1), block[i - 1], pre[i - 1], post[i - 1]);
    }
  }

  /** The word control goes to when the instruction executes. */
  ghost function Destination(insn: Instruction, m: Machine): U64 {
    if insn.kind.Return? then m.top else m.registers(BaseRegister(insn))
  }

  /** A width whose bytes the analysis can know. */
  predicate Sized(width: Byte) { 1 <= width <= 8 }

  /** Every immediate pushed before instruction `n` has such a width. */
  predicate SizedPushes(block: seq<Instruction>, n: nat)
    requires n <= |block|
  {
    forall i :: 0 <= i < n && block[i].kind.PushImmediate? ==> Sized(block[i].valueWidth)
  }

  lemma {:induction false} EnteringWellFormed(start: U64, block: seq<Instruction>, i: nat)
    requires i < |block|
    ensures WellFormed(Entering(start, block, i).state)
  {
    hide UpdateConstants, PendingAfter;
    if i > 0 && !Joins(start, block, i) {
      EnteringWellFormed(start, block, i - 1);
      UpdateWellFormed(Entering(start, block, i - 1).state, block[i - 1]);
    }
  }

  /** Only an immediate pushed without a usable width leaves a pending push without one. */
  lemma {:induction false} PendingSized(start: U64, block: seq<Instruction>, i: nat)
    requires i < |block| && SizedPushes(block, i)
    ensures var pending := Entering(start, block, i).pending; pending.Some? ==> Sized(pending.value.state.width)
  {
    if i > 0 && !Joins(start, block, i) {
      PendingSized(start, block, i - 1);
      EnteringWellFormed(start, block, i - 1);
      hide UpdateConstants, TruncateWidth, Joins;
    }
  }

  /** The low bytes of the word control goes to are those of the target, as many as its width says. */
  ghost predicate GoesTo(t: Target, insn: Instruction, m: Machine) {
    t.instruction == insn.address && Sized(t.width) && Low(Destination(insn, m), t.width) == t.target
  }

  /** A reported target of a usable width is where each run goes; with sized pushes every one has such a width. */
  lemma {:induction false} TargetTrue(conventions: Conventions, start: U64, block: seq<Instruction>,
                                      pre: seq<Machine>, post: seq<Machine>, i: nat, minimumSteps: nat)
    requires Run(conventions, start, block, pre, post) && i < |block| && AllHandled(conventions, start, block, i)
    requires Reported(Entering(start, block, i), block[i], minimumSteps).Some?
    ensures var t := Reported(Entering(start, block, i), block[i], minimumSteps).value;
            && (Sized(t.width) ==> GoesTo(t, block[i], pre[i]))
            && (SizedPushes(block, i) ==> Sized(t.width))
  {
    EnteringTrue(conventions, start, block, pre, post, i);
    if SizedPushes(block, i) {
      PendingSized(start, block, i);
    }
    var t := Reported(Entering(start, block, i), block[i], minimumSteps).value;
    if Sized(t.width) {
      TruncationIsRemainder(Destination(block[i], pre[i]), t.width);
    }
    hide Run, AllHandled, SizedPushes, TruncateWidth, Low, Entering, NormalizeSupport;
  }

  /** The machine the final assignments speak about: after the last instruction, or before the one that stops. */
  lemma {:induction false} FinalTrue(conventions: Conventions, start: U64, block: seq<Instruction>,
                                     pre: seq<Machine>, post: seq<Machine>)
    requires block != [] && Run(conventions, start, block, pre, post)
    requires AllHandled(conventions, start, block, Stop(block))
    ensures Describes(Final(start, block), if Stop(block) < |block| then pre[Stop(block)] else post[|block| - 1])
  {
    hide Handled, Advance, Executes, Joins, Stop, Entering;
    var n := Stop(block);
    if n < |block| {
      EnteringTrue(conventions, start, block, pre, post, n);
    } else {
      EnteringTrue(conventions, start, block, pre, post, n - 1);
      AdvanceTrue(conventions, Entering(start, block, n - 1), block[n - 1], pre[n - 1], post[n - 1]);
    }
  }

  // ---- a condition on the instructions alone ------------------------------------------------------------------

  lemma {:induction false} UniformTracks(conventions: Conventions, width: Byte, start: U64, block: seq<Instruction>,
                                         i: nat)
    requires i < |block| && Uniform(conventions, width, block)
    ensures TracksUniform(width, Trackable(block), Entering(start, block, i).state)
  {
    hide PendingAfter, UpdateConstants, Trackable, Joins, Uniform, Handled;
    if i > 0 && !Joins(start, block, i) {
      UniformTracks(conventions, width, start, block, i - 1);
      UniformStep(conventions, width, block, Entering(start, block, i - 1).state, i - 1);
    }
  }

  /** Uniform blocks are handled throughout, so all the analysis reports about them is true. */
  lemma {:induction false} UniformHandled(conventions: Conventions, width: Byte, start: U64,
                                          block: seq<Instruction>)
    requires Uniform(conventions, width, block)
    ensures AllHandled(conventions, start, block, |block|)
  {
    hide Entering, Trackable, Uniform, Handled;
    forall i | 0 <= i < |block| ensures Handled(conventions, Entering(start, block, i).state, block[i]) {
      UniformTracks(conventions, width, start, block, i);
      UniformStep(conventions, width, block, Entering(start, block, i).state, i);
    }
  }

  // ---- the analysis itself ----------------------------------------------------------------------------------------

  function Rank(kind: TargetKind): nat { if kind.CallTarget? then 0 else if kind.JumpTarget? then 1 else 2 }

  predicate TargetLess(a: Target, b: Target) {
    if a.instruction != b.instruction then a.instruction < b.instruction
    else if a.target != b.target then a.target < b.target
    else Rank(a.kind) < Rank(b.kind)
  }

  ghost predicate Ordered(s: seq<Target>) { forall i, j :: 0 <= i < j < |s| ==> !TargetLess(s[j], s[i]) }

  /** Place a target among ordered ones. */
  method PlaceTarget(t: Target, sorted: seq<Target>) returns (placed: seq<Target>)
    requires Ordered(sorted)
    ensures Ordered(placed) && multiset(placed) == multiset(sorted) + multiset{t}
  {
    var i := |sorted|;
    while i > 0 && TargetLess(t, sorted[i - 1])
      invariant 0 <= i <= |sorted|
      invariant forall j :: i <= j < |sorted| ==> TargetLess(t, sorted[j])
    {
      i := i - 1;
    }
    PlacedOrdered(t, sorted, i);
    hide Ordered, TargetLess;
    placed := sorted[..i] + [t] + sorted[i..];
    assert sorted == sorted[..i] + sorted[i..];
  }

  lemma {:induction false} PlacedOrdered(t: Target, sorted: seq<Target>, i: nat)
    requires Ordered(sorted) && i <= |sorted| && (i > 0 ==> !TargetLess(t, sorted[i - 1]))
    requires forall j :: i <= j < |sorted| ==> TargetLess(t, sorted[j])
    ensures Ordered(sorted[..i] + [t] + sorted[i..])
  {
    forall j | 0 <= j < i ensures !TargetLess(t, sorted[j]) {
      if j < i - 1 { assert !TargetLess(sorted[i - 1], sorted[j]); }
    }
    forall j | i <= j < |sorted| ensures !TargetLess(sorted[j], t) {
    }
    hide TargetLess;
    var placed := sorted[..i] + [t] + sorted[i..];
    forall a, b | 0 <= a < b < |placed| ensures !TargetLess(placed[b], placed[a]) {
      assert placed[a] == if a < i then sorted[a] else if a == i then t else sorted[a - 1];
      assert placed[b] == if b < i then sorted[b] else if b == i then t else sorted[b - 1];
    }
  }

  /** All targets reported before instruction `n`, in block order. */
  function ReportedUpTo(start: U64, block: seq<Instruction>, n: nat, minimumSteps: nat): seq<Target>
    requires n <= |block|
  {
    if n == 0 then []
    else
      var before := ReportedUpTo(start, block, n - 1, minimumSteps);
      match Reported(Entering(start, block, n - 1), block[n - 1], minimumSteps)
      case Some(t) => before + [t]
      case None => before
  }

  lemma {:induction false} ReportedWhere(start: U64, block: seq<Instruction>, n: nat, minimumSteps: nat, t: Target)
    returns (i: nat)
    requires n <= |block| && t in ReportedUpTo(start, block, n, minimumSteps)
    ensures i < n && Reported(Entering(start, block, i), block[i], minimumSteps) == Some(t)
  {
    hide Reported, Entering;
    if Reported(Entering(start, block, n - 1), block[n - 1], minimumSteps) == Some(t) {
      i := n - 1;
    } else {
      i := ReportedWhere(start, block, n - 1, minimumSteps, t);
    }
  }

  /** Some instruction of the block has the reported address and goes to the reported target on this run. */
  ghost predicate Goes(t: Target, block: seq<Instruction>, pre: seq<Machine>) {
    exists i :: 0 <= i < |block| && i < |pre| && GoesTo(t, block[i], pre[i])
  }

  /**
   * On every run of a handled block each reported target of a usable width is
   * where control goes and each final assignment holds; when every pushed
   * immediate is sized, every reported target has such a width.
   */
  lemma {:induction false} AnalysisSound(conventions: Conventions, start: U64, block: seq<Instruction>,
                                         pre: seq<Machine>, post: seq<Machine>, minimumSteps: nat)
    requires block != [] && Run(conventions, start, block, pre, post)
    requires AllHandled(conventions, start, block, Stop(block))
    ensures forall t :: t in ReportedUpTo(start, block, Stop(block), minimumSteps) && Sized(t.width) ==>
              Goes(t, block, pre)
    ensures SizedPushes(block, Stop(block)) ==>
              forall t :: t in ReportedUpTo(start, block, Stop(block), minimumSteps) ==> Sized(t.width)
    ensures Describes(Final(start, block), if Stop(block) < |block| then pre[Stop(block)] else post[|block| - 1])
  {
    FinalTrue(conventions, start, block, pre, post);
    hide Run, Final, Describes, Reported, Stop, GoesTo, Entering, Handled, Sized;
    forall t | t in ReportedUpTo(start, block, Stop(block), minimumSteps)
      ensures Sized(t.width) ==> Goes(t, block, pre)
      ensures SizedPushes(block, Stop(block)) ==> Sized(t.width)
    {
      var i := ReportedWhere(start, block, Stop(block), minimumSteps, t);
      assert |pre| == |block| by { RunLengths(conventions, start, block, pre, post); }
      TargetTrue(conventions, start, block, pre, post, i, minimumSteps);
    }
  }

  lemma {:induction false} RunLengths(conventions: Conventions, start: U64, block: seq<Instruction>,
                                      pre: seq<Machine>, post: seq<Machine>)
    requires Run(conventions, start, block, pre, post)
    ensures |pre| == |post| == |block|
  {
  }

  // ---- a block the update does not handle ------------------------------------------------------------------------

  function Step(address: U64, kind: Kind, immediate: U64): Instruction {
    Instruction(address, 1, kind, 0, NO_REGISTER, 8, immediate, BAD_ADDRESS, BAD_ADDRESS, Condition.Unknown, Preserve,
                true, false)
  }

  /** Load 1, add 1, pop the same register, jump through it. */
  function PoppedBlock(): seq<Instruction> {
    [Step(0, LoadImmediate, 1), Step(1, AddImmediate, 1), Step(2, PopRegister, 0), Step(3, IndirectJump, 0)]
  }

  /** Register 0 holds the given value, the top of the stack 7. */
  ghost function Holding(x: U64): Machine { Machine((r: Register) => if r == 0 then x else 0, NO_FLAGS, 7) }

  ghost predicate HoldsConstant(state: StateMap, value: U64, steps: nat) {
    0 in state && state[0].value == value && state[0].width == 8 && state[0].steps == steps
  }

  lemma {:induction false} LoadsOne(state: StateMap, address: U64)
    ensures HoldsConstant(UpdateConstants(state, Step(address, LoadImmediate, 1)), 1, 1)
  {
    TruncationIsRemainder(1, 8);
    Pow2Values();
    SmallRemainder(1, 64);
    hide TruncateWidth, Pow2, NormalizeSupport;
  }

  lemma {:induction false} AddsOne(state: StateMap, address: U64)
    requires HoldsConstant(state, 1, 1)
    ensures HoldsConstant(UpdateConstants(state, Step(address, AddImmediate, 1)), 2, 2)
  {
    TruncationIsRemainder(2, 8);
    Pow2Values();
    SmallRemainder(2, 64);
    hide TruncateWidth, Pow2, NormalizeSupport;
  }

  lemma {:induction false} PoppedAdds()
    ensures HoldsConstant(Entering(0, PoppedBlock(), 2).state, 2, 2)
  {
    hide UpdateConstants, HoldsConstant;
    LoadsOne(map[], 0);
    assert Entering(0, PoppedBlock(), 0) == FRESH;
    AddsOne(Entering(0, PoppedBlock(), 1).state, 1);
  }

  /** Register 0 takes any value an instruction on it may compute; nothing else changes. */
  lemma {:induction false} HoldingStep(insn: Instruction, x: U64, y: U64)
    requires MayChange(Conventions(1, 1), insn, 0) || x == y
    requires ValidInteger(insn) ==> insn.destination == 0 && Computes(insn, Holding(x), y)
    requires insn.flagEffect.Preserve? && !insn.kind.PushImmediate? && !insn.kind.PushRegister?
    ensures Executes(Conventions(1, 1), insn, Holding(x), Holding(y))
  {
    hide Computes, MayChange, TruncateWidth;
  }

  lemma {:induction false} PoppedRun()
    ensures Run(Conventions(1, 1), 0, PoppedBlock(), [Holding(0), Holding(1), Holding(2), Holding(7)],
                [Holding(1), Holding(2), Holding(7), Holding(7)])
  {
    hide TruncateWidth, Low, Executes;
    var block := PoppedBlock();
    HoldingStep(block[0], 0, 1);
    HoldingStep(block[1], 1, 2);
    HoldingStep(block[2], 2, 7);
    HoldingStep(block[3], 7, 7);
    hide Computes, Holding;
  }

  /** The analysis reports a jump to 2 whatever is popped; on the run above it goes to 7. */
  lemma {:induction false} PoppedTargetIsStale()
    ensures var block := PoppedBlock();
            && Reported(Entering(0, block, 3), block[3], 2).Some?
            && Reported(Entering(0, block, 3), block[3], 2).value.target == 2
            && Run(Conventions(1, 1), 0, block, [Holding(0), Holding(1), Holding(2), Holding(7)],
                   [Holding(1), Holding(2), Holding(7), Holding(7)])
            && Destination(block[3], Holding(7)) == 7
  {
    PoppedAdds();
    PoppedRun();
    hide Run, NormalizeSupport;
    var block := PoppedBlock();
    assert Entering(0, block, 3).state == Entering(0, block, 2).state;
    hide Entering;
  }

  function MakeAssignment(r: Register, s: ConstantState): Assignment {
    Assignment(if s.support == [] then BAD_ADDRESS else s.support[|s.support| - 1], r, s.value, s.width, s.steps,
               s.support)
  }

  /** One assignment per tracked register, ascending. */
  ghost predicate Lists(assignments: seq<Assignment>, state: StateMap) {
    && (forall i, j :: 0 <= i < j < |assignments| ==> assignments[i].register < assignments[j].register)
    && (forall i :: 0 <= i < |assignments| ==>
          assignments[i].register in state &&
          assignments[i] == MakeAssignment(assignments[i].register, state[assignments[i].register]))
    && (forall r :: r in state ==> exists i :: 0 <= i < |assignments| && assignments[i].register == r)
  }

  method ScanBlock(start: U64, block: seq<Instruction>, minimumSteps: nat)
    returns (targets: seq<Target>, state: StateMap)
    ensures targets == ReportedUpTo(start, block, Stop(block), minimumSteps)
    ensures state == Final(start, block)
  {
    hide Reported, Advance, Stop, End;
    targets := [];
    var scan := FRESH;
    var expected := start;
    var i := 0;
    while i < |block|
      invariant 0 <= i <= Stop(block)
      invariant scan == After(start, block, i)
      invariant expected == if i == 0 then start else End(block[i - 1])
      invariant targets == ReportedUpTo(start, block, i, minimumSteps)
    {
      var insn := block[i];
      if insn.address != expected || insn.alternatePredecessor {
        scan := FRESH;
      }
      expected := End(insn);
      if expected == BAD_ADDRESS {
        return targets, scan.state;
      }
      var reported := Reported(scan, insn, minimumSteps);
      if reported.Some? {
        targets := targets + [reported.value];
      }
      scan := Advance(scan, insn);
      i := i + 1;
    }
    state := scan.state;
  }

  method SortTargets(targets: seq<Target>) returns (sorted: seq<Target>)
    ensures Ordered(sorted) && multiset(sorted) == multiset(targets)
  {
    sorted := [];
    var i := 0;
    while i < |targets|
      invariant 0 <= i <= |targets| && Ordered(sorted) && multiset(sorted) == multiset(targets[..i])
    {
      sorted := PlaceTarget(targets[i], sorted);
      assert targets[..i + 1] == targets[..i] + [targets[i]];
      i := i + 1;
    }
    assert targets[..|targets|] == targets;
  }

  method AnalyzeConstantBlock(start: U64, block: seq<Instruction>, minimumSteps: nat)
    returns (targets: seq<Target>, assignments: seq<Assignment>)
    ensures Ordered(targets)
    ensures multiset(targets) == multiset(ReportedUpTo(start, block, Stop(block), minimumSteps))
    ensures Lists(assignments, Final(start, block))
  {
    hide *;
    var found, state := ScanBlock(start, block, minimumSteps);
    assignments := ListAssignments(state);
    targets := SortTargets(found);
  }

  /** The state's registers, in order: those done and those left. */
  ghost predicate Splits(state: StateMap, done: StateMap, left: set<Register>) {
    && (forall q :: q in state <==> q in left || q in done)
    && (forall q :: q in done ==> q in state && done[q] == state[q])
    && (forall q, r :: q in done && r in left ==> q < r)
  }

  lemma {:induction false} SplitsNext(state: StateMap, done: StateMap, left: set<Register>, r: Register)
    requires Splits(state, done, left) && r in left && forall q :: q in left ==> r <= q
    ensures r in state && Splits(state, done[r := state[r]], left - {r}) && forall q :: q in done ==> q < r
  {
  }

  lemma {:induction false} SplitsDone(state: StateMap, done: StateMap)
    requires Splits(state, done, {})
    ensures done == state
  {
  }

  method ListAssignments(state: StateMap) returns (assignments: seq<Assignment>)
    ensures Lists(assignments, state)
  {
    assignments := [];
    var left := state.Keys;
    ghost var done: StateMap := map[];
    assert Lists(assignments, done);
    assert Splits(state, done, left);
    hide Lists, MakeAssignment, Splits;
    while left != {}
      invariant Lists(assignments, done) && Splits(state, done, left)
      decreases left
    {
      ghost var least := LeastOf(left);
      var r :| r in left && forall q :: q in left ==> r <= q;
      SplitsNext(state, done, left, r);
      ListsGrow(assignments, done, r, state[r]);
      assignments := assignments + [MakeAssignment(r, state[r])];
      done := done[r := state[r]];
      left := left - {r};
    }
    SplitsDone(state, done);
  }

  lemma {:induction false} ListsGrow(assignments: seq<Assignment>, done: StateMap, r: Register, s: ConstantState)
    requires Lists(assignments, done) && forall q :: q in done ==> q < r
    ensures Lists(assignments + [MakeAssignment(r, s)], done[r := s])
  {
    var after, next := assignments + [MakeAssignment(r, s)], done[r := s];
    forall q | q in next ensures exists i :: 0 <= i < |after| && after[i].register == q {
      if q == r {
        assert after[|assignments|].register == q;
      } else {
        var i :| 0 <= i < |assignments| && assignments[i].register == q;
        assert after[i].register == q;
      }
    }
  }
}
