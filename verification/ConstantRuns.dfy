/**
 * Every block has concrete runs, and a reported target whose width is not one
 * to eight bytes is wrong on one of them: reported targets say something about
 * where control goes exactly when their width does.
 */
module ConstantRuns {
  import opened Words
  import opened Bits
  import opened Flags
  import opened Instructions
  import opened ConstantFolding
  import opened ConstantBlocks

  // ---- every instruction can execute -----------------------------------------------------------------------

  /** A word with the given low digits. */
  ghost predicate Agrees(after: nat, x: nat, width: Byte)
    requires Sized(width)
  {
    forall k: nat :: k < 8 * width ==> (Bit(after, k) <==> Bit(x, k))
  }

  /** Reducing to a word keeps the digits below any width. */
  lemma {:induction false} WordAgrees(x: nat, width: Byte)
    requires Sized(width)
    ensures Agrees(x % TWO_64, x, width)
  {
    Pow2Values();
    forall k: nat | k < 8 * width ensures Bit(x % TWO_64, k) <==> Bit(x, k) {
      BitOfRemainder(x, 64, k);
    }
  }

  lemma {:induction false} BitwiseComputed(insn: Instruction, m: Machine) returns (after: U64)
    requires ValidInteger(insn)
    requires insn.kind.XorImmediate? || insn.kind.AndImmediate? || insn.kind.OrImmediate?
    ensures Computes(insn, m, after)
  {
    hide Bit, BitXor, BitAnd, BitOr;
    var base, i, w := m.registers(BaseRegister(insn)), insn.immediate, insn.valueWidth;
    var x := if insn.kind.XorImmediate? then BitXor(base, i)
             else if insn.kind.AndImmediate? then BitAnd(base, i) else BitOr(base, i);
    after := x % TWO_64;
    WordAgrees(x, w);
    forall k: nat | k < 8 * w
      ensures insn.kind.XorImmediate? ==> (Bit(after, k) <==> Bit(base, k) != Bit(i, k))
      ensures insn.kind.AndImmediate? ==> (Bit(after, k) <==> Bit(base, k) && Bit(i, k))
      ensures insn.kind.OrImmediate? ==> (Bit(after, k) <==> Bit(base, k) || Bit(i, k))
    {
      assert Bit(after, k) <==> Bit(x, k);
      BitOfXor(base, i, k);
      BitOfAnd(base, i, k);
      BitOfOr(base, i, k);
    }
  }

  /** Every value-writing instruction has a result. */
  lemma {:induction false} Computed(insn: Instruction, m: Machine) returns (after: U64)
    requires ValidInteger(insn)
    ensures Computes(insn, m, after)
  {
    var base: int, i: int, w := m.registers(BaseRegister(insn)), insn.immediate, insn.valueWidth;
    after := 0;
    if insn.kind.XorImmediate? || insn.kind.AndImmediate? || insn.kind.OrImmediate? {
      after := BitwiseComputed(insn, m);
    } else if insn.kind.ReplaceHigh16? {
      after := Replacement(base, i, 8 * w);
    } else {
      hide Low, Pow2;
      if insn.kind.AddImmediate? {
        after := (base + i) % TWO_64;
        LowOfWord(base + i, w);
      } else if insn.kind.SubImmediate? {
        after := (base - i) % TWO_64;
        LowOfWord(base - i, w);
      } else if insn.kind.ShiftLeftImmediate? {
        after := (base * Pow2(i)) % TWO_64;
        LowOfWord(base * Pow2(i), w);
      } else if IsLoad(insn) {
        after := i;
      } else if insn.kind.CopyRegister? {
        after := m.registers(insn.source);
      } else if ReadsStack(insn) {
        after := m.top;
      }
    }
  }

  /** The registers an instruction may leave. */
  lemma {:induction false} RegistersLeft(conventions: Conventions, insn: Instruction, m: Machine)
    returns (registers: Register -> U64)
    ensures forall f, top :: RegistersStep(conventions, insn, m, Machine(registers, f, top))
  {
    hide Computes;
    if ValidInteger(insn) {
      var after := Computed(insn, m);
      if MayChange(conventions, insn, insn.destination) {
        registers := With(m.registers, insn.destination, after);
      } else {
        registers := m.registers;
        UnchangedComputes(conventions, insn, m);
      }
    } else {
      registers := m.registers;
    }
  }

  lemma {:induction false} UnchangedComputes(conventions: Conventions, insn: Instruction, m: Machine)
    requires ValidInteger(insn) && !MayChange(conventions, insn, insn.destination)
    ensures Computes(insn, m, m.registers(insn.destination))
  {
  }

  /** Any machine can execute any instruction; an unsized push may leave any word. */
  lemma {:induction false} StepExists(conventions: Conventions, insn: Instruction, m: Machine, word: U64)
    returns (n: Machine)
    ensures Executes(conventions, insn, m, n)
    ensures insn.kind.PushImmediate? && !Sized(insn.valueWidth) ==> n.top == word
  {
    var registers := RegistersLeft(conventions, insn, m);
    var top := match insn.kind
      case PushImmediate => if Sized(insn.valueWidth) then insn.immediate else word
      case PushRegister => m.registers(insn.source)
      case Nop => m.top
      case _ => word;
    n := Left(insn, m, registers, top);
    assert n == Machine(registers, n.flags, top);
    hide RegistersStep, FlagsStep, BitAnd;
  }

  // ---- every block has runs --------------------------------------------------------------------------------

  /** While an unsized push is pending, the top of the stack is the given word. */
  ghost predicate HoldsWord(start: U64, block: seq<Instruction>, i: nat, m: Machine, word: U64)
    requires i < |block|
  {
    var pending := Entering(start, block, i).pending;
    pending.Some? && !Sized(pending.value.state.width) ==> m.top == word
  }

  lemma {:induction false} NextHoldsWord(conventions: Conventions, start: U64, block: seq<Instruction>, i: nat,
                                         m: Machine, n: Machine, word: U64)
    requires 0 < i < |block| && HoldsWord(start, block, i - 1, m, word)
    requires Executes(conventions, block[i - 1], m, n)
    requires block[i - 1].kind.PushImmediate? && !Sized(block[i - 1].valueWidth) ==> n.top == word
    ensures HoldsWord(start, block, i, n, word)
  {
    EnteringWellFormed(start, block, i - 1);
    var scan, insn := Entering(start, block, i - 1), block[i - 1];
    assert insn.source in scan.state ==> Sized(scan.state[insn.source].width);
    assert insn.kind.Nop? ==> n.top == m.top;
    assert !Joins(start, block, i) ==> Entering(start, block, i).pending == PendingAfter(scan, insn);
    hide Executes, WellFormed, TruncateWidth, Joins;
  }

  lemma {:induction false} FirstHoldsWord(start: U64, block: seq<Instruction>, m: Machine, word: U64)
    requires block != []
    ensures HoldsWord(start, block, 0, m, word)
  {
  }

  /** A run grows by an execution of the next instruction from where it ended. */
  lemma {:induction false} RunGrows(conventions: Conventions, start: U64, block: seq<Instruction>,
                                    pre: seq<Machine>, post: seq<Machine>, n: nat, m: Machine, last: Machine)
    requires n < |block| && RunTo(conventions, start, block, pre, post, n)
    requires Executes(conventions, block[n], m, last) && (n > 0 ==> m == post[n - 1])
    ensures RunTo(conventions, start, block, pre + [m], post + [last], n + 1)
  {
    hide Executes, Joins;
    var before, after := pre + [m], post + [last];
    forall i | 0 <= i <= n ensures Executes(conventions, block[i], before[i], after[i]) {
      assert i < n ==> before[i] == pre[i] && after[i] == post[i];
    }
    forall i | 0 < i <= n && !Joins(start, block, i) ensures before[i] == after[i - 1] {
      assert after[i - 1] == post[i - 1] && (i < n ==> before[i] == pre[i]);
    }
  }

  ghost predicate AllHoldWord(start: U64, block: seq<Instruction>, pre: seq<Machine>, word: U64) {
    |pre| <= |block| && forall i :: 0 <= i < |pre| ==> HoldsWord(start, block, i, pre[i], word)
  }

  lemma {:induction false} AllHoldWordGrows(start: U64, block: seq<Instruction>, pre: seq<Machine>, m: Machine,
                                            word: U64)
    requires AllHoldWord(start, block, pre, word) && |pre| < |block| && HoldsWord(start, block, |pre|, m, word)
    ensures AllHoldWord(start, block, pre + [m], word)
  {
    hide HoldsWord;
  }

  /** A run of the first `n` instructions with `word` wherever an unsized push is pending. */
  ghost predicate RunWith(conventions: Conventions, start: U64, block: seq<Instruction>, pre: seq<Machine>,
                          post: seq<Machine>, n: nat, word: U64)
  {
    && RunTo(conventions, start, block, pre, post, n) && AllHoldWord(start, block, pre, word)
    && (n > 0 && block[n - 1].kind.PushImmediate? && !Sized(block[n - 1].valueWidth) ==> post[n - 1].top == word)
  }

  lemma {:induction false} EmptyRun(conventions: Conventions, start: U64, block: seq<Instruction>, word: U64)
    ensures RunWith(conventions, start, block, [], [], 0, word)
  {
  }

  /** The machine an instruction starts from in such a run. */
  lemma {:induction false} NextMachine(conventions: Conventions, start: U64, block: seq<Instruction>,
                                       pre: seq<Machine>, post: seq<Machine>, n: nat, word: U64)
    returns (m: Machine)
    requires n < |block| && RunWith(conventions, start, block, pre, post, n, word)
    ensures |post| == n && HoldsWord(start, block, n, m, word) && (n > 0 ==> m == post[n - 1])
  {
    hide Executes, Joins, Sized, HoldsWord;
    if n == 0 {
      m := Machine(Canonical(map[]), NO_FLAGS, word);
      FirstHoldsWord(start, block, m, word);
    } else {
      m := post[n - 1];
      NextHoldsWord(conventions, start, block, n, pre[n - 1], m, word);
    }
  }

  lemma {:induction false} RunWithGrows(conventions: Conventions, start: U64, block: seq<Instruction>,
                                        pre: seq<Machine>, post: seq<Machine>, n: nat, word: U64, m: Machine,
                                        last: Machine)
    requires n < |block| && RunWith(conventions, start, block, pre, post, n, word)
    requires HoldsWord(start, block, n, m, word) && (n > 0 ==> |post| == n && m == post[n - 1])
    requires Executes(conventions, block[n], m, last)
    requires block[n].kind.PushImmediate? && !Sized(block[n].valueWidth) ==> last.top == word
    ensures RunWith(conventions, start, block, pre + [m], post + [last], n + 1, word)
  {
    hide Executes, Sized, HoldsWord, AllHoldWord;
    assert |pre| == |post| == n;
    RunGrows(conventions, start, block, pre, post, n, m, last);
    AllHoldWordGrows(start, block, pre, m, word);
    hide RunTo;
  }

  /** Such runs exist. */
  lemma {:induction false} RunsExist(conventions: Conventions, start: U64, block: seq<Instruction>, n: nat,
                                     word: U64)
    returns (pre: seq<Machine>, post: seq<Machine>)
    requires n <= |block|
    ensures RunWith(conventions, start, block, pre, post, n, word)
  {
    hide Executes, Sized, HoldsWord, RunWith;
    if n == 0 {
      pre, post := [], [];
      EmptyRun(conventions, start, block, word);
    } else {
      var before, after := RunsExist(conventions, start, block, n - 1, word);
      var m := NextMachine(conventions, start, block, before, after, n - 1, word);
      var last := StepExists(conventions, block[n - 1], m, word);
      RunWithGrows(conventions, start, block, before, after, n - 1, word, m, last);
      pre, post := before + [m], after + [last];
    }
  }

  /** Every block has a run. */
  lemma {:induction false} RunExists(conventions: Conventions, start: U64, block: seq<Instruction>)
    returns (pre: seq<Machine>, post: seq<Machine>)
    ensures Run(conventions, start, block, pre, post)
  {
    pre, post := RunsExist(conventions, start, block, |block|, 0);
  }

  // ---- when a reported target says anything ---------------------------------------------------------------------

  /** On every run at least the low byte of the word control goes to is that of the target. */
  ghost predicate Informative(conventions: Conventions, start: U64, block: seq<Instruction>, i: nat, target: U64)
    requires i < |block|
  {
    forall pre, post :: Run(conventions, start, block, pre, post) ==>
      |pre| == |block| && Low(Destination(block[i], pre[i]), 1) == Low(target, 1)
  }

  lemma {:induction false} LowByteDiffers(value: U64) returns (word: U64)
    ensures Low(word, 1) != Low(value, 1)
  {
    Pow2Values();
    SmallRemainder(0, 8);
    SmallRemainder(1, 8);
    word := if Low(value, 1) == 0 then 1 else 0;
  }

  lemma {:induction false} SizedInforms(conventions: Conventions, start: U64, block: seq<Instruction>, i: nat,
                                        minimumSteps: nat)
    requires i < |block| && AllHandled(conventions, start, block, i)
    requires Reported(Entering(start, block, i), block[i], minimumSteps).Some?
    requires Sized(Reported(Entering(start, block, i), block[i], minimumSteps).value.width)
    ensures Informative(conventions, start, block, i,
                        Reported(Entering(start, block, i), block[i], minimumSteps).value.target)
  {
    hide Run, Reported, Low, Entering, Destination, AllHandled;
    var t := Reported(Entering(start, block, i), block[i], minimumSteps).value;
    forall pre, post | Run(conventions, start, block, pre, post)
      ensures |pre| == |block| && Low(Destination(block[i], pre[i]), 1) == Low(t.target, 1)
    {
      RunLengths(conventions, start, block, pre, post);
      TargetTrue(conventions, start, block, pre, post, i, minimumSteps);
      LowOfLow(Destination(block[i], pre[i]), 1, t.width);
    }
  }

  /** A reported target without a usable width is the value of a pending push without one. */
  lemma {:induction false} UnsizedIsPending(scan: Scan, insn: Instruction, minimumSteps: nat)
    requires WellFormed(scan.state) && Reported(scan, insn, minimumSteps).Some?
    requires !Sized(Reported(scan, insn, minimumSteps).value.width)
    ensures insn.kind.Return? && scan.pending.Some? && !Sized(scan.pending.value.state.width)
  {
    hide NormalizeSupport;
  }

  lemma {:induction false} UnsizedMisinforms(conventions: Conventions, start: U64, block: seq<Instruction>, i: nat,
                                             minimumSteps: nat)
    requires i < |block| && Reported(Entering(start, block, i), block[i], minimumSteps).Some?
    requires !Sized(Reported(Entering(start, block, i), block[i], minimumSteps).value.width)
    ensures !Informative(conventions, start, block, i,
                         Reported(Entering(start, block, i), block[i], minimumSteps).value.target)
  {
    hide RunTo, Reported, Low, Entering, Sized;
    var t := Reported(Entering(start, block, i), block[i], minimumSteps).value;
    EnteringWellFormed(start, block, i);
    UnsizedIsPending(Entering(start, block, i), block[i], minimumSteps);
    var word := LowByteDiffers(t.target);
    var pre, post := RunsExist(conventions, start, block, |block|, word);
    assert Run(conventions, start, block, pre, post);
    RunLengths(conventions, start, block, pre, post);
    assert HoldsWord(start, block, i, pre[i], word);
    assert Low(Destination(block[i], pre[i]), 1) != Low(t.target, 1);
  }

  /** Straight before instruction `i`, padding aside, an immediate is pushed without a usable width. */
  predicate UnsizedPush(start: U64, block: seq<Instruction>, i: nat)
    requires i < |block|
  {
    && i > 0 && !Joins(start, block, i)
    && var before := block[i - 1];
       || (before.kind.PushImmediate? && !Sized(before.valueWidth))
       || (before.kind.Nop? && UnsizedPush(start, block, i - 1))
  }

  /** That is exactly when the analysis holds a pending push without a usable width, and it is an immediate. */
  lemma {:induction false} UnsizedPending(start: U64, block: seq<Instruction>, i: nat)
    requires i < |block|
    ensures var pending := Entering(start, block, i).pending;
            && (UnsizedPush(start, block, i) <==> pending.Some? && !Sized(pending.value.state.width))
            && (UnsizedPush(start, block, i) ==> pending.value.register == NO_REGISTER)
  {
    if i > 0 && !Joins(start, block, i) {
      UnsizedPending(start, block, i - 1);
      EnteringWellFormed(start, block, i - 1);
      var scan, insn := Entering(start, block, i - 1), block[i - 1];
      assert insn.source in scan.state ==> Sized(scan.state[insn.source].width);
      assert Entering(start, block, i).pending == PendingAfter(scan, insn);
      hide Entering, WellFormed, TruncateWidth, Joins;
    }
  }

  /**
   * In a handled block a reported target says something of every run exactly
   * when its width is usable, and that is exactly when the instruction is not a
   * return right after an immediate pushed without one.
   */
  lemma {:induction false} InformativeExactly(conventions: Conventions, start: U64, block: seq<Instruction>, i: nat,
                                              minimumSteps: nat)
    requires i < |block| && AllHandled(conventions, start, block, i)
    requires Reported(Entering(start, block, i), block[i], minimumSteps).Some?
    ensures var t := Reported(Entering(start, block, i), block[i], minimumSteps).value;
            && (Informative(conventions, start, block, i, t.target) <==> Sized(t.width))
            && (Informative(conventions, start, block, i, t.target) <==>
                !(block[i].kind.Return? && UnsizedPush(start, block, i)))
  {
    hide Informative, Entering, AllHandled;
    UnsizedPending(start, block, i);
    if Sized(Reported(Entering(start, block, i), block[i], minimumSteps).value.width) {
      SizedInforms(conventions, start, block, i, minimumSteps);
      hide NormalizeSupport;
    } else {
      EnteringWellFormed(start, block, i);
      UnsizedIsPending(Entering(start, block, i), block[i], minimumSteps);
      UnsizedMisinforms(conventions, start, block, i, minimumSteps);
      hide Reported, WellFormed;
    }
  }

  /** A return right after an unsized immediate is always reported, as a return to address 0. */
  lemma {:induction false} UnsizedReturnReported(start: U64, block: seq<Instruction>, i: nat, minimumSteps: nat)
    requires i < |block| && block[i].kind.Return? && UnsizedPush(start, block, i)
    ensures var t := Reported(Entering(start, block, i), block[i], minimumSteps);
            t.Some? && t.value.target == 0 && !Sized(t.value.width)
  {
    UnsizedPending(start, block, i);
    UnsizedIsZero(start, block, i);
    hide Entering, NormalizeSupport;
  }

  lemma {:induction false} UnsizedIsZero(start: U64, block: seq<Instruction>, i: nat)
    requires i < |block| && UnsizedPush(start, block, i)
    ensures Entering(start, block, i).pending.Some? && Entering(start, block, i).pending.value.state.value == 0
  {
    if block[i - 1].kind.Nop? {
      UnsizedIsZero(start, block, i - 1);
    } else {
      assert WidthMask(block[i - 1].valueWidth) == 0;
    }
    hide Joins, UpdateConstants;
  }

  // ---- a push without a width -------------------------------------------------------------------------------

  /** Push 7 without a width, return. */
  function UnsizedBlock(): seq<Instruction> {
    [Step(0, PushImmediate, 7).(valueWidth := 0), Step(1, Return, 0)]
  }

  /** Every instruction is handled, the analysis reports a return to 0, and on this run it goes to 7. */
  lemma {:induction false} UnsizedPushMisleads(conventions: Conventions)
    ensures var block := UnsizedBlock();
            && AllHandled(conventions, 0, block, 2)
            && Reported(Entering(0, block, 1), block[1], 2).Some?
            && Reported(Entering(0, block, 1), block[1], 2).value.target == 0
            && Run(conventions, 0, block, [Holding(0), Holding(0)], [Holding(0), Holding(0)])
            && Destination(block[1], Holding(0)) == 7
  {
    var block := UnsizedBlock();
    assert TruncateWidth(7, 0) == 0;
    assert Entering(0, block, 0) == FRESH && Entering(0, block, 1).state == map[];
    UnsizedRun(conventions);
    hide Run, NormalizeSupport, Holding;
  }

  lemma {:induction false} UnsizedRun(conventions: Conventions)
    ensures Run(conventions, 0, UnsizedBlock(), [Holding(0), Holding(0)], [Holding(0), Holding(0)])
  {
    var block := UnsizedBlock();
    assert Executes(conventions, block[0], Holding(0), Holding(0)) by { assert TruncateWidth(7, 0) == 0; }
    assert Executes(conventions, block[1], Holding(0), Holding(0));
    hide Executes, Holding;
  }
}
