/**
 * Compare-chain dispatch recovery. Each parsed node compares one register with
 * a selector; a candidate lists the chain's selectors and their targets. Every
 * candidate says exactly where following the nodes leads, for every register
 * contents.
 */
module Dispatch {
  import opened Orders
  import opened Words
  import opened Flags
  import opened Instructions

  datatype Node = Node(
    block: U64, site: U64, register: Register, width: Byte, selector: U64, caseTarget: U64, next: U64)

  /** A basic block with the dispatch node parsed from it, if any. */
  datatype Block = Block(start: U64, successors: seq<U64>, node: Option<Node>)

  datatype Case = Case(selector: U64, target: U64)

  datatype Limits = Limits(minimumCases: nat, maximumCases: nat)

  datatype Candidate = Candidate(
    entryBlock: U64, site: U64, stateRegister: Register, stateWidth: Byte, cases: seq<Case>,
    defaultTarget: Option<U64>, comparisonSites: seq<U64>, loopBacked: bool, oneBitPercent: Byte)

  type Nodes = map<U64, Node>

  /** A parsed node sits in its own block and compares a real register. */
  predicate Parsed(block: Block) {
    block.node.Some? ==> block.node.value.block == block.start && block.node.value.register != NO_REGISTER
  }

  ghost predicate ParsedNodes(nodes: Nodes) { forall b :: b in nodes ==> nodes[b].register != NO_REGISTER }

  // ---- following the nodes ------------------------------------------------------------------------------

  datatype Place = At(block: U64) | Exited(target: U64)

  /** One comparison on concrete registers: equal leaves for the case target, otherwise on to the next block. */
  function Follow(nodes: Nodes, registers: Register -> U64, p: Place): Place {
    if p.At? && p.block in nodes then
      var n := nodes[p.block];
      if TruncateWidth(registers(n.register), n.width) == n.selector then Exited(n.caseTarget) else At(n.next)
    else p
  }

  function FollowTimes(nodes: Nodes, registers: Register -> U64, start: U64, times: nat): Place {
    if times == 0 then At(start) else Follow(nodes, registers, FollowTimes(nodes, registers, start, times - 1))
  }

  // ---- chains ----------------------------------------------------------------------------------------------

  datatype Walk = Walk(chain: seq<Node>, visited: set<U64>, cursor: U64)

  predicate SameState(a: Node, b: Node) { a.register == b.register && a.width == b.width }

  /** The loop that grows a chain, from any of its states. */
  function Extend(nodes: Nodes, maximum: nat, w: Walk): Walk
    decreases |nodes.Keys - w.visited|
  {
    if |w.chain| >= maximum || w.cursor !in nodes || w.cursor in w.visited then w
    else
      var node := nodes[w.cursor];
      assert nodes.Keys - (w.visited + {w.cursor}) == (nodes.Keys - w.visited) - {w.cursor};
      if w.chain != [] && !SameState(node, w.chain[0]) then w.(visited := w.visited + {w.cursor})
      else Extend(nodes, maximum, Walk(w.chain + [node], w.visited + {w.cursor}, node.next))
  }

  function ChainFrom(nodes: Nodes, maximum: nat, start: U64): Walk {
    Extend(nodes, maximum, Walk([], {}, start))
  }

  /** The block the i-th comparison of a chain is made in; past the end, the block after it. */
  function BlockAt(start: U64, chain: seq<Node>, i: nat): U64
    requires i <= |chain|
  {
    if i == 0 then start else chain[i - 1].next
  }

  ghost predicate LinkAt(nodes: Nodes, start: U64, w: Walk, i: int)
    requires 0 <= i < |w.chain|
  {
    var b := BlockAt(start, w.chain, i);
    b in nodes && nodes[b] == w.chain[i] && b in w.visited && SameState(w.chain[i], w.chain[0])
  }

  /** The chain follows the nodes from `start`, all on one register and width, ending before `cursor`. */
  ghost predicate Linked(nodes: Nodes, start: U64, w: Walk) {
    && (forall i :: 0 <= i < |w.chain| ==> LinkAt(nodes, start, w, i))
    && w.cursor == BlockAt(start, w.chain, |w.chain|) && w.visited <= nodes.Keys
  }

  /** Every visited block is one of the chain's. */
  ghost predicate VisitedIsChain(start: U64, w: Walk) {
    forall b :: b in w.visited ==> exists i :: 0 <= i < |w.chain| && BlockAt(start, w.chain, i) == b
  }

  /** Why a chain ends. */
  ghost predicate Ended(nodes: Nodes, maximum: nat, start: U64, w: Walk) {
    && Linked(nodes, start, w)
    && (w.cursor in w.visited <==>
          w.cursor in nodes &&
          (|| (exists i :: 0 <= i < |w.chain| && BlockAt(start, w.chain, i) == w.cursor)
           || (|w.chain| < maximum && w.chain != [] && !SameState(nodes[w.cursor], w.chain[0]))))
    && (w.cursor in nodes && |w.chain| < maximum ==> w.cursor in w.visited)
  }

  lemma {:induction false} LinkedGrows(nodes: Nodes, start: U64, w: Walk)
    requires Linked(nodes, start, w) && VisitedIsChain(start, w) && w.cursor in nodes
    requires w.chain != [] ==> SameState(nodes[w.cursor], w.chain[0])
    ensures var node := nodes[w.cursor];
            var next := Walk(w.chain + [node], w.visited + {w.cursor}, node.next);
            Linked(nodes, start, next) && VisitedIsChain(start, next)
  {
    var node := nodes[w.cursor];
    var next := Walk(w.chain + [node], w.visited + {w.cursor}, node.next);
    forall i | 0 <= i < |next.chain| ensures LinkAt(nodes, start, next, i) {
      assert BlockAt(start, next.chain, i) == BlockAt(start, w.chain, i);
      if i < |w.chain| {
        assert LinkAt(nodes, start, w, i);
      }
    }
    forall b | b in next.visited ensures exists i :: 0 <= i < |next.chain| && BlockAt(start, next.chain, i) == b {
      if b == w.cursor {
        assert BlockAt(start, next.chain, |w.chain|) == b;
      } else {
        var i :| 0 <= i < |w.chain| && BlockAt(start, w.chain, i) == b;
        assert BlockAt(start, next.chain, i) == b;
      }
    }
  }

  lemma {:induction false} ExtendLinked(nodes: Nodes, maximum: nat, start: U64, w: Walk)
    requires Linked(nodes, start, w) && VisitedIsChain(start, w) && |w.chain| <= maximum
    ensures Ended(nodes, maximum, start, Extend(nodes, maximum, w)) && |Extend(nodes, maximum, w).chain| <= maximum
    decreases |nodes.Keys - w.visited|
  {
    forall i | 0 <= i < |w.chain| ensures BlockAt(start, w.chain, i) in w.visited {
      assert LinkAt(nodes, start, w, i);
    }
    if !(|w.chain| >= maximum || w.cursor !in nodes || w.cursor in w.visited) {
      var node := nodes[w.cursor];
      if w.chain != [] && !SameState(node, w.chain[0]) {
        var stopped := w.(visited := w.visited + {w.cursor});
        forall i | 0 <= i < |w.chain| ensures LinkAt(nodes, start, stopped, i) {
          assert LinkAt(nodes, start, w, i);
        }
        assert Linked(nodes, start, stopped);
      } else {
        LinkedGrows(nodes, start, w);
        assert nodes.Keys - (w.visited + {w.cursor}) == (nodes.Keys - w.visited) - {w.cursor};
        hide Linked, VisitedIsChain, Ended;
        ExtendLinked(nodes, maximum, start, Walk(w.chain + [node], w.visited + {w.cursor}, node.next));
      }
    }
  }

  lemma {:induction false} ChainEnded(nodes: Nodes, maximum: nat, start: U64)
    ensures Ended(nodes, maximum, start, ChainFrom(nodes, maximum, start))
    ensures |ChainFrom(nodes, maximum, start).chain| <= maximum
  {
    ExtendLinked(nodes, maximum, start, Walk([], {}, start));
  }

  // ---- selectors --------------------------------------------------------------------------------------------

  /** The selectors of a chain and their targets; none when a selector has two. */
  function SelectorTargets(chain: seq<Node>): Option<map<U64, U64>> {
    if chain == [] then Some(map[])
    else
      var node := chain[|chain| - 1];
      match SelectorTargets(chain[..|chain| - 1])
      case None => None
      case Some(m) =>
        if node.selector in m && m[node.selector] != node.caseTarget then None
        else Some(m[node.selector := node.caseTarget])
  }

  ghost predicate Consistent(chain: seq<Node>) {
    forall i, j :: 0 <= i < j < |chain| && chain[i].selector == chain[j].selector ==>
      chain[i].caseTarget == chain[j].caseTarget
  }

  /** The map lists exactly the chain's selectors with their targets. */
  ghost predicate Tabulates(m: map<U64, U64>, chain: seq<Node>) {
    && (forall i :: 0 <= i < |chain| ==> chain[i].selector in m && m[chain[i].selector] == chain[i].caseTarget)
    && (forall s :: s in m ==> exists i :: 0 <= i < |chain| && chain[i].selector == s)
  }

  lemma {:induction false} TableGrows(m: map<U64, U64>, front: seq<Node>, node: Node)
    requires Tabulates(m, front) && (node.selector in m ==> m[node.selector] == node.caseTarget)
    ensures Tabulates(m[node.selector := node.caseTarget], front + [node])
  {
    var chain, next := front + [node], m[node.selector := node.caseTarget];
    forall s | s in next ensures exists i :: 0 <= i < |chain| && chain[i].selector == s {
      if s == node.selector {
        assert chain[|front|].selector == s;
      } else {
        var i :| 0 <= i < |front| && front[i].selector == s;
        assert chain[i].selector == s;
      }
    }
  }

  lemma {:induction false} TableConflicts(m: map<U64, U64>, front: seq<Node>, node: Node)
    requires Tabulates(m, front) && node.selector in m && m[node.selector] != node.caseTarget
    ensures !Consistent(front + [node])
  {
    var chain := front + [node];
    var i :| 0 <= i < |front| && front[i].selector == node.selector;
    assert chain[i].selector == chain[|front|].selector && chain[i].caseTarget != chain[|front|].caseTarget;
  }

  /** The map exists exactly when no selector has two targets, and then lists exactly the chain's pairs. */
  lemma {:induction false} SelectorTargetsExact(chain: seq<Node>)
    ensures SelectorTargets(chain).Some? <==> Consistent(chain)
    ensures SelectorTargets(chain).Some? ==> Tabulates(SelectorTargets(chain).value, chain)
  {
    if chain != [] {
      var front, node := chain[..|chain| - 1], chain[|chain| - 1];
      assert chain == front + [node];
      SelectorTargetsExact(front);
      assert Consistent(chain) ==> Consistent(front);
      if SelectorTargets(front).Some? {
        var m := SelectorTargets(front).value;
        if node.selector in m && m[node.selector] != node.caseTarget {
          TableConflicts(m, front, node);
        } else {
          TableGrows(m, front, node);
          TableConsistent(m[node.selector := node.caseTarget], chain);
        }
        hide Consistent, Tabulates;
      }
    }
  }

  lemma {:induction false} TableConsistent(m: map<U64, U64>, chain: seq<Node>)
    requires Tabulates(m, chain)
    ensures Consistent(chain)
  {
  }

  // ---- listing the cases --------------------------------------------------------------------------------------

  /** The map's pairs by ascending selector. */
  ghost predicate ListsCases(cases: seq<Case>, m: map<U64, U64>) {
    && (forall i, j :: 0 <= i < j < |cases| ==> cases[i].selector < cases[j].selector)
    && (forall c :: c in cases <==> c.selector in m && c.target == m[c.selector])
  }

  predicate CaseBefore(a: Case, b: Case) {
    a.selector < b.selector || (a.selector == b.selector && a.target < b.target)
  }

  lemma {:induction false} ListingUnique(a: seq<Case>, b: seq<Case>, m: map<U64, U64>)
    requires ListsCases(a, m) && ListsCases(b, m)
    ensures a == b
  {
    assert Elements(a) == Elements(b);
    AscendingUnique(a, b, CaseBefore);
  }

  lemma {:induction false} ListingGrows(cases: seq<Case>, m: map<U64, U64>, s: U64, t: U64)
    requires ListsCases(cases, m) && forall q :: q in m ==> q < s
    ensures ListsCases(cases + [Case(s, t)], m[s := t])
  {
    var after := cases + [Case(s, t)];
    forall i | 0 <= i < |cases| ensures cases[i].selector < s {
      assert cases[i] in cases;
    }
    forall c ensures c in after <==> c.selector in m[s := t] && c.target == m[s := t][c.selector] {
      assert c in after <==> c in cases || c == Case(s, t);
    }
  }

  /** As an ordered map lists its entries. */
  ghost function CaseList(m: map<U64, U64>): (cases: seq<Case>)
    ensures ListsCases(cases, m)
  {
    ListingExists(m);
    var cases :| ListsCases(cases, m);
    cases
  }

  lemma {:induction false} ListingExists(m: map<U64, U64>)
    ensures exists cases :: ListsCases(cases, m)
  {
    if m == map[] {
      assert ListsCases([], m);
    } else {
      var greatest := Greatest(m.Keys);
      var rest := m - {greatest};
      ListingExists(rest);
      var cases :| ListsCases(cases, rest);
      ListingGrows(cases, rest, greatest, m[greatest]);
      assert rest[greatest := m[greatest]] == m;
    }
  }

  lemma {:induction false} Greatest(s: set<U64>) returns (greatest: U64)
    requires s != {}
    ensures greatest in s && forall q :: q in s ==> q <= greatest
  {
    assert (forall x :: x !in s) ==> s == {};
    var r :| r in s;
    greatest := r;
    var rest := s - {r};
    if rest != {} {
      var other := Greatest(rest);
      greatest := if other > r then other else r;
    }
    forall q | q in s ensures q <= greatest {
      assert q == r || q in rest;
    }
  }

  /** The target listed for a value. */
  function Listed(cases: seq<Case>, v: U64): Option<U64> {
    if cases == [] then None
    else if cases[0].selector == v then Some(cases[0].target)
    else Listed(cases[1..], v)
  }

  lemma {:induction false} ListedIn(cases: seq<Case>, v: U64)
    ensures match Listed(cases, v)
            case Some(t) => Case(v, t) in cases
            case None => forall c :: c in cases ==> c.selector != v
  {
    if cases != [] && cases[0].selector != v {
      ListedIn(cases[1..], v);
    }
  }

  lemma {:induction false} ListedIsMapped(m: map<U64, U64>, v: U64)
    ensures Listed(CaseList(m), v) == if v in m then Some(m[v]) else None
  {
    var cases := CaseList(m);
    ListedIn(cases, v);
    assert v in m ==> Case(v, m[v]) in cases;
    hide CaseList, Listed;
  }

  // ---- where following leads ---------------------------------------------------------------------------------

  /** What a consistent chain says: listed selectors exit, anything else arrives after the chain. */
  lemma {:induction false} FollowChain(nodes: Nodes, registers: Register -> U64, start: U64, w: Walk, v: U64,
                                       k: nat)
    requires Linked(nodes, start, w) && w.chain != [] && SelectorTargets(w.chain).Some? && k <= |w.chain|
    requires v == TruncateWidth(registers(w.chain[0].register), w.chain[0].width)
    ensures var m := SelectorTargets(w.chain).value;
            FollowTimes(nodes, registers, start, k) ==
            if exists i :: 0 <= i < k && w.chain[i].selector == v
            then (if v in m then Exited(m[v]) else At(start))
            else At(BlockAt(start, w.chain, k))
  {
    SelectorTargetsExact(w.chain);
    hide SelectorTargets, TruncateWidth;
    if k > 0 {
      FollowChain(nodes, registers, start, w, v, k - 1);
      assert LinkAt(nodes, start, w, k - 1);
      assert w.chain[k - 1].selector in SelectorTargets(w.chain).value;
    }
  }

  /** For every register contents: a listed selector exits at its target, any other value after the chain. */
  lemma {:induction false} FollowAll(nodes: Nodes, registers: Register -> U64, start: U64, w: Walk)
    requires Linked(nodes, start, w) && w.chain != [] && SelectorTargets(w.chain).Some?
    ensures var m := SelectorTargets(w.chain).value;
            var v := TruncateWidth(registers(w.chain[0].register), w.chain[0].width);
            FollowTimes(nodes, registers, start, |w.chain|) == if v in m then Exited(m[v]) else At(w.cursor)
  {
    SelectorTargetsExact(w.chain);
    FollowChain(nodes, registers, start, w, TruncateWidth(registers(w.chain[0].register), w.chain[0].width), |w.chain|);
    hide SelectorTargets, TruncateWidth, FollowTimes;
  }

  // ---- candidates ----------------------------------------------------------------------------------------------

  function TotalBits(chain: seq<Node>): nat {
    if chain == [] then 0 else TotalBits(chain[..|chain| - 1]) + 8 * chain[|chain| - 1].width
  }

  function OneBits(chain: seq<Node>): nat {
    if chain == [] then 0
    else OneBits(chain[..|chain| - 1]) + Ones(chain[|chain| - 1].selector, 8 * chain[|chain| - 1].width)
  }

  lemma {:induction false} OnesAtMost(x: nat, n: nat)
    ensures Ones(x, n) <= n
  {
    if n > 0 { OnesAtMost(x / 2, n - 1); }
  }

  lemma {:induction false} OneBitsAtMost(chain: seq<Node>)
    ensures OneBits(chain) <= TotalBits(chain)
  {
    if chain != [] {
      OneBitsAtMost(chain[..|chain| - 1]);
      OnesAtMost(chain[|chain| - 1].selector, 8 * chain[|chain| - 1].width);
    }
  }

  lemma {:induction false} QuotientBounds(x: nat, d: nat, q: nat)
    requires d > 0 && x <= q * d
    ensures 0 <= x / d <= q && (x / d) * d <= x < (x / d + 1) * d
  {
    var y := x / d;
    assert x == d * y + x % d;
    assert y >= q + 1 ==> d * y >= d * (q + 1);
    assert (y + 1) * d == d * y + d;
  }

  /** The whole percentage one number is of another, rounded down. */
  ghost predicate IsPercent(percent: nat, part: nat, whole: nat) {
    percent * whole <= part * 100 < (percent + 1) * whole
  }

  function Percent(part: nat, whole: nat): (percent: Byte)
    requires part <= whole && whole > 0
    ensures percent <= 100 && IsPercent(percent, part, whole)
  {
    QuotientBounds(part * 100, whole, 100);
    part * 100 / whole
  }

  /** The share of one bits among the selectors' bits. */
  function OneBitPercent(chain: seq<Node>): (percent: Byte)
    ensures percent <= 100
    ensures if TotalBits(chain) == 0 then percent == 0 else IsPercent(percent, OneBits(chain), TotalBits(chain))
  {
    if TotalBits(chain) == 0 then 0
    else OneBitsAtMost(chain); Percent(OneBits(chain), TotalBits(chain))
  }

  function Sites(chain: seq<Node>): seq<U64> {
    seq(|chain|, i requires 0 <= i < |chain| => chain[i].site)
  }

  /** Some block outside the chain leads back to its start. */
  predicate LoopBacked(blocks: seq<Block>, visited: set<U64>, start: U64) {
    exists i :: 0 <= i < |blocks| && blocks[i].start !in visited && start in blocks[i].successors
  }

  function DefaultOf(w: Walk): Option<U64> {
    if w.cursor !in w.visited && w.cursor != BAD_ADDRESS then Some(w.cursor) else None
  }

  function MakeCandidate(blocks: seq<Block>, start: U64, w: Walk, cases: seq<Case>): Candidate
    requires w.chain != []
  {
    Candidate(start, w.chain[0].site, w.chain[0].register, w.chain[0].width, cases, DefaultOf(w),
              Sites(w.chain), LoopBacked(blocks, w.visited, start), OneBitPercent(w.chain))
  }

  ghost function CandidateFor(blocks: seq<Block>, limits: Limits, start: U64, w: Walk): Option<Candidate> {
    if |w.chain| < limits.minimumCases || w.chain == [] then None
    else
      match SelectorTargets(w.chain)
      case None => None
      case Some(m) =>
        if |m| < limits.minimumCases then None else Some(MakeCandidate(blocks, start, w, CaseList(m)))
  }

  /** The block a candidate's chain leads to when no selector matches. */
  function AfterChain(nodes: Nodes, limits: Limits, c: Candidate): U64 {
    ChainFrom(nodes, limits.maximumCases, c.entryBlock).cursor
  }

  /** What a candidate means. */
  ghost predicate Sound(nodes: Nodes, limits: Limits, c: Candidate) {
    var cursor := AfterChain(nodes, limits, c);
    && limits.minimumCases <= |c.cases| && |c.comparisonSites| <= limits.maximumCases
    && (forall i, j :: 0 <= i < j < |c.cases| ==> c.cases[i].selector < c.cases[j].selector)
    && (forall registers: Register -> U64 ::
          var v := TruncateWidth(registers(c.stateRegister), c.stateWidth);
          FollowTimes(nodes, registers, c.entryBlock, |c.comparisonSites|) ==
          match Listed(c.cases, v) case Some(t) => Exited(t) case None => At(cursor))
    && (c.defaultTarget.Some? ==> c.defaultTarget.value == cursor)
    && (c.defaultTarget.Some? <==>
          && cursor != BAD_ADDRESS && !OnChain(nodes, limits, c.entryBlock, cursor)
          && (cursor in nodes ==> |c.comparisonSites| == limits.maximumCases))
  }

  /** The block holds one of the comparisons of the chain from `start`. */
  ghost predicate OnChain(nodes: Nodes, limits: Limits, start: U64, b: U64) {
    var chain := ChainFrom(nodes, limits.maximumCases, start).chain;
    exists i :: 0 <= i < |chain| && BlockAt(start, chain, i) == b
  }

  /** One case per selector. */
  lemma {:induction false} CaseCount(m: map<U64, U64>)
    ensures |CaseList(m)| == |m|
  {
    ListingSize(CaseList(m), m);
  }

  lemma {:induction false} NothingListed(cases: seq<Case>, m: map<U64, U64>)
    requires ListsCases(cases, m)
    ensures cases == [] <==> m == map[]
  {
    if m != map[] {
      var s :| s in m;
      assert Case(s, m[s]) in cases;
    }
    if cases != [] {
      assert cases[0] in cases;
    }
  }

  /** Without its last case a list lists the map without that selector. */
  lemma {:induction false} FrontLists(cases: seq<Case>, m: map<U64, U64>)
    requires ListsCases(cases, m) && cases != []
    ensures ListsCases(cases[..|cases| - 1], m - {cases[|cases| - 1].selector})
  {
    var front, last := cases[..|cases| - 1], cases[|cases| - 1];
    var rest := m - {last.selector};
    forall c ensures c in front <==> c.selector in rest && c.target == rest[c.selector] {
      InFront(cases, m, c);
    }
  }

  lemma {:induction false} InFront(cases: seq<Case>, m: map<U64, U64>, c: Case)
    requires ListsCases(cases, m) && cases != []
    ensures c in cases[..|cases| - 1] <==>
            c.selector != cases[|cases| - 1].selector && c.selector in m && c.target == m[c.selector]
  {
    var n := |cases| - 1;
    assert c in cases <==> c.selector in m && c.target == m[c.selector];
    if c in cases {
      var i :| 0 <= i <= n && cases[i] == c;
      assert i < n ==> cases[..n][i] == c;
    }
    if c in cases[..n] {
      var i :| 0 <= i < n && cases[..n][i] == c;
      assert cases[i] == c && cases[i].selector < cases[n].selector;
    }
  }

  lemma {:induction false} ListingSize(cases: seq<Case>, m: map<U64, U64>)
    requires ListsCases(cases, m)
    ensures |cases| == |m|
  {
    NothingListed(cases, m);
    if cases != [] {
      var last := cases[|cases| - 1];
      assert last in cases && last.selector in m;
      var front, rest := cases[..|cases| - 1], m - {last.selector};
      FrontLists(cases, m);
      hide ListsCases;
      ListingSize(front, rest);
      assert rest.Keys == m.Keys - {last.selector};
    }
  }

  lemma {:induction false} CandidateSound(blocks: seq<Block>, nodes: Nodes, limits: Limits, start: U64)
    requires CandidateFor(blocks, limits, start, ChainFrom(nodes, limits.maximumCases, start)).Some?
    ensures Sound(nodes, limits,
                  CandidateFor(blocks, limits, start, ChainFrom(nodes, limits.maximumCases, start)).value)
  {
    var w := ChainFrom(nodes, limits.maximumCases, start);
    var c := CandidateFor(blocks, limits, start, w).value;
    ChainEnded(nodes, limits.maximumCases, start);
    forall registers: Register -> U64
      ensures var v := TruncateWidth(registers(c.stateRegister), c.stateWidth);
              FollowTimes(nodes, registers, c.entryBlock, |c.comparisonSites|) ==
              match Listed(c.cases, v) case Some(t) => Exited(t) case None => At(w.cursor)
    {
      FollowAll(nodes, registers, start, w);
      ListedIsMapped(SelectorTargets(w.chain).value,
                     TruncateWidth(registers(w.chain[0].register), w.chain[0].width));
      hide FollowTimes, TruncateWidth, SelectorTargets, Listed, CaseList, LoopBacked, OneBitPercent, ListsCases;
    }
    CaseCount(SelectorTargets(w.chain).value);
    assert forall i :: 0 <= i < |w.chain| ==> LinkAt(nodes, start, w, i) && BlockAt(start, w.chain, i) in nodes;
    hide FollowTimes, TruncateWidth, SelectorTargets, Listed, CaseList;
    hide LoopBacked, OneBitPercent, ChainFrom, Linked, BlockAt;
  }

  // ---- the search ------------------------------------------------------------------------------------------------

  /** The first parsed node of each block start. */
  function NodesOf(blocks: seq<Block>): Nodes {
    if blocks == [] then map[]
    else
      var before, last := NodesOf(blocks[..|blocks| - 1]), blocks[|blocks| - 1].node;
      if last.Some? && last.value.block !in before then before[last.value.block := last.value] else before
  }

  /** Some node on the same register and width leads to this block. */
  predicate HasCompatiblePredecessor(nodes: Nodes, b: U64) {
    exists a :: a in nodes && nodes[a].next == b && b in nodes && SameState(nodes[b], nodes[a])
  }

  /** Heads of chains; a pure cycle is entered at its lowest block. */
  ghost predicate IsStart(nodes: Nodes, b: U64) {
    && b in nodes
    && (|| !HasCompatiblePredecessor(nodes, b)
        || ((forall a :: a in nodes ==> HasCompatiblePredecessor(nodes, a)) && forall a :: a in nodes ==> b <= a))
  }

  datatype Found = Found(candidates: seq<Candidate>, sites: set<U64>)

  /** The first long enough chain at a site speaks for it. */
  ghost function Hear(blocks: seq<Block>, limits: Limits, start: U64, w: Walk, before: Found): Found {
    if |w.chain| < limits.minimumCases || w.chain == [] || w.chain[0].site in before.sites then before
    else
      match CandidateFor(blocks, limits, start, w)
      case None => before.(sites := before.sites + {w.chain[0].site})
      case Some(c) => Found(before.candidates + [c], before.sites + {w.chain[0].site})
  }

  /** Candidates of the first `n` starts. */
  ghost function FoundUpTo(blocks: seq<Block>, nodes: Nodes, limits: Limits, starts: seq<U64>, n: nat): Found
    requires n <= |starts|
  {
    if n == 0 then Found([], {})
    else Hear(blocks, limits, starts[n - 1], ChainFrom(nodes, limits.maximumCases, starts[n - 1]),
              FoundUpTo(blocks, nodes, limits, starts, n - 1))
  }

  ghost predicate SoundFound(nodes: Nodes, limits: Limits, f: Found) {
    && (forall c :: c in f.candidates ==> Sound(nodes, limits, c) && c.site in f.sites)
    && (forall i, j :: 0 <= i < j < |f.candidates| ==> f.candidates[i].site != f.candidates[j].site)
  }

  lemma {:induction false} SoundFoundGrows(nodes: Nodes, limits: Limits, f: Found, c: Candidate)
    requires SoundFound(nodes, limits, f) && Sound(nodes, limits, c) && c.site !in f.sites
    ensures SoundFound(nodes, limits, Found(f.candidates + [c], f.sites + {c.site}))
  {
    hide Sound;
    assert forall i :: 0 <= i < |f.candidates| ==> f.candidates[i] in f.candidates;
  }

  lemma {:induction false} CandidateIsLong(blocks: seq<Block>, limits: Limits, start: U64, w: Walk)
    requires CandidateFor(blocks, limits, start, w).Some?
    ensures |w.chain| >= limits.minimumCases && w.chain != []
    ensures CandidateFor(blocks, limits, start, w).value.site == w.chain[0].site
  {
  }

  lemma {:induction false} HearSound(blocks: seq<Block>, nodes: Nodes, limits: Limits, start: U64, w: Walk,
                                     before: Found)
    requires SoundFound(nodes, limits, before)
    requires var c := CandidateFor(blocks, limits, start, w); c.Some? ==> Sound(nodes, limits, c.value)
    ensures SoundFound(nodes, limits, Hear(blocks, limits, start, w, before))
  {
    var found := CandidateFor(blocks, limits, start, w);
    if found.Some? {
      CandidateIsLong(blocks, limits, start, w);
      hide CandidateFor, Sound;
      if found.value.site !in before.sites {
        SoundFoundGrows(nodes, limits, before, found.value);
      }
    }
    hide CandidateFor, Sound;
  }

  /** Every candidate found is sound, and no two share a site. */
  lemma {:induction false} FoundSound(blocks: seq<Block>, nodes: Nodes, limits: Limits, starts: seq<U64>, n: nat)
    requires n <= |starts|
    ensures SoundFound(nodes, limits, FoundUpTo(blocks, nodes, limits, starts, n))
  {
    if n > 0 {
      hide Hear, ChainFrom, CandidateFor, SoundFound, Sound;
      FoundSound(blocks, nodes, limits, starts, n - 1);
      var w := ChainFrom(nodes, limits.maximumCases, starts[n - 1]);
      if CandidateFor(blocks, limits, starts[n - 1], w).Some? {
        CandidateSound(blocks, nodes, limits, starts[n - 1]);
      }
      HearSound(blocks, nodes, limits, starts[n - 1], w, FoundUpTo(blocks, nodes, limits, starts, n - 1));
    }
  }

  lemma {:induction false} HearKeeps(blocks: seq<Block>, limits: Limits, start: U64, w: Walk, before: Found)
    ensures forall c :: c in before.candidates ==> c in Hear(blocks, limits, start, w, before).candidates
    ensures CandidateFor(blocks, limits, start, w).Some? && w.chain[0].site !in before.sites ==>
              CandidateFor(blocks, limits, start, w).value in Hear(blocks, limits, start, w, before).candidates
  {
    if CandidateFor(blocks, limits, start, w).Some? {
      CandidateIsLong(blocks, limits, start, w);
    }
    hide CandidateFor;
  }

  /** A start with a candidate is heard unless a lower start already spoke for its site. */
  lemma {:induction false} FoundComplete(blocks: seq<Block>, nodes: Nodes, limits: Limits, starts: seq<U64>, n: nat,
                                         k: nat)
    requires k < n <= |starts|
    requires var w := ChainFrom(nodes, limits.maximumCases, starts[k]);
             CandidateFor(blocks, limits, starts[k], w).Some? &&
             w.chain[0].site !in FoundUpTo(blocks, nodes, limits, starts, k).sites
    ensures CandidateFor(blocks, limits, starts[k], ChainFrom(nodes, limits.maximumCases, starts[k])).value in
            FoundUpTo(blocks, nodes, limits, starts, n).candidates
  {
    hide CandidateFor, ChainFrom, Hear;
    if n - 1 > k {
      FoundComplete(blocks, nodes, limits, starts, n - 1, k);
    }
    HearKeeps(blocks, limits, starts[n - 1], ChainFrom(nodes, limits.maximumCases, starts[n - 1]),
              FoundUpTo(blocks, nodes, limits, starts, n - 1));
  }

  method BuildNodes(blocks: seq<Block>) returns (nodes: Nodes)
    ensures nodes == NodesOf(blocks)
  {
    nodes := map[];
    var i := 0;
    while i < |blocks|
      invariant 0 <= i <= |blocks| && nodes == NodesOf(blocks[..i])
    {
      var parsed := blocks[i].node;
      assert blocks[..i + 1][..i] == blocks[..i];
      if parsed.Some? && parsed.value.block !in nodes {
        nodes := nodes[parsed.value.block := parsed.value];
      }
      i := i + 1;
    }
    assert blocks[..|blocks|] == blocks;
  }

  ghost predicate Starts(nodes: Nodes, starts: seq<U64>) {
    && (forall i, j :: 0 <= i < j < |starts| ==> starts[i] < starts[j])
    && (forall b :: b in starts <==> IsStart(nodes, b))
  }

  /** The blocks without a compatible predecessor, in ascending order. */
  method FindHeads(nodes: Nodes, keys: seq<U64>) returns (heads: seq<U64>)
    requires forall i, j :: 0 <= i < j < |keys| ==> keys[i] < keys[j]
    ensures forall i, j :: 0 <= i < j < |heads| ==> heads[i] < heads[j]
    ensures forall b :: b in heads <==> b in keys && !HasCompatiblePredecessor(nodes, b)
  {
    hide HasCompatiblePredecessor;
    heads := [];
    var i := 0;
    while i < |keys|
      invariant 0 <= i <= |keys|
      invariant forall a, b :: 0 <= a < b < |heads| ==> heads[a] < heads[b]
      invariant forall a, b :: 0 <= a < |heads| && i <= b < |keys| ==> heads[a] < keys[b]
      invariant forall b :: b in heads <==> b in keys[..i] && !HasCompatiblePredecessor(nodes, b)
    {
      assert keys[..i + 1] == keys[..i] + [keys[i]];
      if !HasCompatiblePredecessor(nodes, keys[i]) {
        heads := heads + [keys[i]];
      }
      i := i + 1;
    }
    assert keys[..|keys|] == keys;
  }

  lemma {:induction false} HeadsAreStarts(nodes: Nodes, heads: seq<U64>)
    requires heads != [] && forall i, j :: 0 <= i < j < |heads| ==> heads[i] < heads[j]
    requires forall b :: b in heads <==> b in nodes && !HasCompatiblePredecessor(nodes, b)
    ensures Starts(nodes, heads)
  {
    hide HasCompatiblePredecessor;
    assert heads[0] in heads;
  }

  lemma {:induction false} CycleStart(nodes: Nodes, least: U64)
    requires least in nodes && forall a :: a in nodes ==> least <= a && HasCompatiblePredecessor(nodes, a)
    ensures Starts(nodes, [least])
  {
    hide HasCompatiblePredecessor;
  }

  lemma {:induction false} NoStarts(nodes: Nodes)
    requires nodes == map[]
    ensures Starts(nodes, [])
  {
  }

  method KeysOf(nodes: Nodes) returns (keys: seq<U64>)
    ensures forall i, j :: 0 <= i < j < |keys| ==> keys[i] < keys[j]
    ensures forall b :: b in keys <==> b in nodes
  {
    var listed := AscendingOf(nodes.Keys);
    assert forall i :: 0 <= i < |listed| ==> listed[i] in nodes.Keys;
    keys := listed;
  }

  method FindStarts(nodes: Nodes) returns (starts: seq<U64>)
    ensures Starts(nodes, starts)
  {
    hide HasCompatiblePredecessor, Starts;
    var keys := KeysOf(nodes);
    starts := FindHeads(nodes, keys);
    if starts != [] {
      HeadsAreStarts(nodes, starts);
    } else if keys != [] {
      LowestKey(nodes, keys);
      CycleStart(nodes, keys[0]);
      starts := [keys[0]];
    } else {
      assert nodes == map[] by { assert forall a :: a in nodes ==> a in keys; }
      NoStarts(nodes);
    }
  }

  lemma {:induction false} LowestKey(nodes: Nodes, keys: seq<U64>)
    requires keys != [] && (forall i, j :: 0 <= i < j < |keys| ==> keys[i] < keys[j])
    requires forall b :: b in keys <==> b in nodes
    ensures keys[0] in nodes && forall a :: a in nodes ==> keys[0] <= a
  {
    assert keys[0] in keys;
    forall a | a in nodes ensures keys[0] <= a {
      assert a in keys;
    }
  }

  method GrowChain(nodes: Nodes, maximum: nat, start: U64) returns (w: Walk)
    requires ParsedNodes(nodes)
    ensures w == ChainFrom(nodes, maximum, start)
  {
    var chain: seq<Node>, visited: set<U64>, cursor, register := [], {}, start, NO_REGISTER;
    hide Extend;
    while |chain| < maximum
      invariant Extend(nodes, maximum, Walk(chain, visited, cursor)) == ChainFrom(nodes, maximum, start)
      invariant if chain == [] then register == NO_REGISTER else register == chain[0].register
      invariant forall i :: 0 <= i < |chain| ==> chain[i].register != NO_REGISTER
      decreases |nodes.Keys - visited|
    {
      ExtendOnce(nodes, maximum, Walk(chain, visited, cursor));
      if cursor !in nodes || cursor in visited {
        break;
      }
      visited := visited + {cursor};
      if register == NO_REGISTER {
        register := nodes[cursor].register;
      }
      if nodes[cursor].register != register || (chain != [] && nodes[cursor].width != chain[0].width) {
        return Walk(chain, visited, cursor);
      }
      chain := chain + [nodes[cursor]];
      cursor := nodes[cursor].next;
    }
    w := Walk(chain, visited, cursor);
    ExtendOnce(nodes, maximum, w);
  }

  /** One step of the chain. */
  lemma {:induction false} ExtendOnce(nodes: Nodes, maximum: nat, w: Walk)
    ensures var stays := |w.chain| >= maximum || w.cursor !in nodes || w.cursor in w.visited;
            && (stays ==> Extend(nodes, maximum, w) == w)
            && (!stays ==>
                  var node, visited := nodes[w.cursor], w.visited + {w.cursor};
                  && |nodes.Keys - visited| < |nodes.Keys - w.visited|
                  && Extend(nodes, maximum, w) ==
                     if w.chain != [] && !SameState(node, w.chain[0]) then w.(visited := visited)
                     else Extend(nodes, maximum, Walk(w.chain + [node], visited, node.next)))
  {
    if w.cursor in nodes && w.cursor !in w.visited {
      assert nodes.Keys - (w.visited + {w.cursor}) == (nodes.Keys - w.visited) - {w.cursor};
    }
  }

  /** One more comparison: a second target of its selector ends the table. */
  lemma {:induction false} SelectorTargetsNext(chain: seq<Node>, i: nat, m: map<U64, U64>)
    requires i < |chain| && SelectorTargets(chain[..i]) == Some(m)
    ensures var n := chain[i];
            SelectorTargets(chain[..i + 1]) ==
            if n.selector in m && m[n.selector] != n.caseTarget then None else Some(m[n.selector := n.caseTarget])
  {
    assert chain[..i + 1][..i] == chain[..i];
  }

  method CollectSelectors(chain: seq<Node>) returns (targets: Option<map<U64, U64>>)
    ensures targets == SelectorTargets(chain)
    ensures targets.Some? <==> Consistent(chain)
  {
    SelectorTargetsExact(chain);
    var m: map<U64, U64> := map[];
    var i := 0;
    assert SelectorTargets(chain[..i]) == Some(m);
    hide SelectorTargets, Consistent;
    while i < |chain|
      invariant 0 <= i <= |chain| && SelectorTargets(chain[..i]) == Some(m)
    {
      SelectorTargetsNext(chain, i, m);
      if chain[i].selector in m && m[chain[i].selector] != chain[i].caseTarget {
        PrefixConflict(chain, i + 1);
        return None;
      }
      m := m[chain[i].selector := chain[i].caseTarget];
      i := i + 1;
    }
    assert chain[..|chain|] == chain;
    targets := Some(m);
  }

  method ListCases(m: map<U64, U64>) returns (cases: seq<Case>)
    ensures cases == CaseList(m)
  {
    cases := [];
    var listed := AscendingOf(m.Keys);
    ghost var done: map<U64, U64> := map[];
    var i := 0;
    while i < |listed|
      invariant 0 <= i <= |listed| && ListsCases(cases, done)
      invariant forall q, j :: q in done && i <= j < |listed| ==> q < listed[j]
      invariant forall j :: 0 <= j < i ==> listed[j] in done
      invariant forall q :: q in done ==> q in m && done[q] == m[q]
    {
      hide ListsCases;
      var s := listed[i];
      ListingGrows(cases, done, s, m[s]);
      cases := cases + [Case(s, m[s])];
      done := done[s := m[s]];
      i := i + 1;
    }
    assert forall q :: q in m ==> q in listed;
    assert done == m;
    hide ListsCases;
    ListingUnique(cases, CaseList(m), m);
  }

  /** The candidate of one chain. */
  method BuildCandidate(blocks: seq<Block>, limits: Limits, start: U64, w: Walk) returns (candidate: Option<Candidate>)
    ensures candidate == CandidateFor(blocks, limits, start, w)
  {
    hide SelectorTargets, CaseList, MakeCandidate, Consistent;
    if |w.chain| < limits.minimumCases || w.chain == [] {
      return None;
    }
    var selectors := CollectSelectors(w.chain);
    if selectors.None? || |selectors.value| < limits.minimumCases {
      return None;
    }
    var cases := ListCases(selectors.value);
    candidate := Some(MakeCandidate(blocks, start, w, cases));
  }

  lemma {:induction false} PrefixConflict(chain: seq<Node>, n: nat)
    requires n <= |chain| && SelectorTargets(chain[..n]).None?
    ensures SelectorTargets(chain).None?
  {
    SelectorTargetsExact(chain[..n]);
    SelectorTargetsExact(chain);
    hide SelectorTargets;
    var front := chain[..n];
    assert Consistent(chain) ==> Consistent(front);
  }

  predicate SiteLess(a: Candidate, b: Candidate) { a.site < b.site }

  /** Put a candidate with a new site among candidates ascending by site. */
  method PlaceBySite(c: Candidate, sorted: seq<Candidate>) returns (placed: seq<Candidate>)
    requires Ascending(sorted, SiteLess) && forall d :: d in sorted ==> d.site != c.site
    ensures Ascending(placed, SiteLess) && forall d :: d in placed <==> d == c || d in sorted
  {
    var i := 0;
    while i < |sorted| && sorted[i].site < c.site
      invariant 0 <= i <= |sorted| && forall j :: 0 <= j < i ==> sorted[j].site < c.site
    {
      i := i + 1;
    }
    PlacedBySite(c, sorted, i);
    hide Ascending;
    placed := sorted[..i] + [c] + sorted[i..];
    assert sorted == sorted[..i] + sorted[i..];
  }

  lemma {:induction false} PlacedBySite(c: Candidate, sorted: seq<Candidate>, i: nat)
    requires Ascending(sorted, SiteLess) && i <= |sorted| && forall d :: d in sorted ==> d.site != c.site
    requires (forall j :: 0 <= j < i ==> sorted[j].site < c.site) && (i < |sorted| ==> c.site <= sorted[i].site)
    ensures Ascending(sorted[..i] + [c] + sorted[i..], SiteLess)
  {
    forall j | i <= j < |sorted| ensures c.site < sorted[j].site {
      assert sorted[i] in sorted;
      assert i < j ==> SiteLess(sorted[i], sorted[j]);
    }
    var placed := sorted[..i] + [c] + sorted[i..];
    forall a, b | 0 <= a < b < |placed| ensures SiteLess(placed[a], placed[b]) {
      assert placed[a] == if a < i then sorted[a] else if a == i then c else sorted[a - 1];
      assert placed[b] == if b < i then sorted[b] else if b == i then c else sorted[b - 1];
      assert 0 <= a < b < i ==> SiteLess(sorted[a], sorted[b]);
      assert i < a < b ==> SiteLess(sorted[a - 1], sorted[b - 1]);
    }
  }

  /** The same candidates, whatever the order. */
  ghost predicate SameCandidates(out: seq<Candidate>, blocks: seq<Block>, limits: Limits, starts: seq<U64>) {
    var f := FoundUpTo(blocks, NodesOf(blocks), limits, starts, |starts|);
    forall c :: c in out <==> c in f.candidates
  }

  lemma {:induction false} NodesParsed(blocks: seq<Block>)
    requires forall i :: 0 <= i < |blocks| ==> Parsed(blocks[i])
    ensures ParsedNodes(NodesOf(blocks))
  {
    if blocks != [] {
      NodesParsed(blocks[..|blocks| - 1]);
      assert Parsed(blocks[|blocks| - 1]);
    }
  }

  /** All candidates of a function's blocks: each sound, one per site, ascending. */
  method FindDispatchCandidates(blocks: seq<Block>, limits: Limits) returns (out: seq<Candidate>)
    requires forall i :: 0 <= i < |blocks| ==> Parsed(blocks[i])
    ensures forall i, j :: 0 <= i < j < |out| ==> out[i].site < out[j].site
    ensures forall c :: c in out ==> Sound(NodesOf(blocks), limits, c)
    ensures limits.minimumCases == 0 || limits.maximumCases < limits.minimumCases ==> out == []
    ensures 0 < limits.minimumCases <= limits.maximumCases ==>
              exists starts: seq<U64> :: Starts(NodesOf(blocks), starts) && SameCandidates(out, blocks, limits, starts)
  {
    out := [];
    if limits.minimumCases == 0 || limits.maximumCases < limits.minimumCases {
      return;
    }
    hide NodesOf, ParsedNodes, Starts, Sound, ChainFrom, Hear, Ascending, SoundFound, Gathered;
    var nodes := BuildNodes(blocks);
    assert ParsedNodes(nodes) by { NodesParsed(blocks); }
    var starts := FindStarts(nodes);
    ghost var found := Found([], {});
    var sites: set<U64> := {};
    assert Gathered(out, sites, found) by { NoneGathered(); }
    var i := 0;
    while i < |starts|
      invariant 0 <= i <= |starts| && found == FoundUpTo(blocks, nodes, limits, starts, i)
      invariant Gathered(out, sites, found)
    {
      assert SoundFound(nodes, limits, found) by { FoundSound(blocks, nodes, limits, starts, i); }
      var w := GrowChain(nodes, limits.maximumCases, starts[i]);
      out, sites := HearChain(blocks, nodes, limits, starts[i], w, out, sites, found);
      found := Hear(blocks, limits, starts[i], w, found);
      i := i + 1;
    }
    assert SoundFound(nodes, limits, found) by { FoundSound(blocks, nodes, limits, starts, |starts|); }
    AllSound(nodes, limits, found, out, sites);
    assert SameCandidates(out, blocks, limits, starts);
  }

  /** The candidates and sites gathered so far, ascending by site. */
  ghost predicate Gathered(out: seq<Candidate>, sites: set<U64>, f: Found) {
    Ascending(out, SiteLess) && sites == f.sites && forall c :: c in out <==> c in f.candidates
  }

  /** Hear the chain of one start. */
  method HearChain(blocks: seq<Block>, ghost nodes: Nodes, limits: Limits, start: U64, w: Walk, out: seq<Candidate>,
                   sites: set<U64>, ghost found: Found)
    returns (next: seq<Candidate>, heard: set<U64>)
    requires limits.minimumCases > 0 && SoundFound(nodes, limits, found) && Gathered(out, sites, found)
    ensures Gathered(next, heard, Hear(blocks, limits, start, w, found))
  {
    hide CandidateFor, Ascending, SoundFound;
    next, heard := out, sites;
    if |w.chain| >= limits.minimumCases && w.chain[0].site !in sites {
      heard := sites + {w.chain[0].site};
      var candidate := BuildCandidate(blocks, limits, start, w);
      if candidate.Some? {
        CandidateIsLong(blocks, limits, start, w);
        NewSite(nodes, limits, found, candidate.value);
        next := PlaceBySite(candidate.value, out);
      }
    }
  }

  lemma {:induction false} NoneGathered()
    ensures Gathered([], {}, Found([], {}))
  {
  }

  lemma {:induction false} AllSound(nodes: Nodes, limits: Limits, f: Found, out: seq<Candidate>, sites: set<U64>)
    requires SoundFound(nodes, limits, f) && Gathered(out, sites, f)
    ensures Ascending(out, SiteLess) && forall c :: c in out <==> c in f.candidates
    ensures forall c :: c in out ==> Sound(nodes, limits, c)
  {
    hide Sound, Ascending;
  }

  lemma {:induction false} NewSite(nodes: Nodes, limits: Limits, f: Found, c: Candidate)
    requires SoundFound(nodes, limits, f) && c.site !in f.sites
    ensures forall d :: d in f.candidates ==> d.site != c.site
  {
    hide Sound;
  }

  // ---- a default that is not reported ------------------------------------------------------------------------

  const FIRST := Node(0, 10, 0, 4, 1, 100, 1)
  const SECOND := Node(1, 11, 0, 4, 2, 101, 2)
  const OTHER := Node(2, 12, 1, 4, 3, 102, 3)

  /** Blocks 0 and 1 compare register 0 with 1 and 2; block 2, next in line, compares register 1. */
  function MixedBlocks(): seq<Block> {
    [Block(0, [], Some(FIRST)), Block(1, [], Some(SECOND)), Block(2, [], Some(OTHER))]
  }

  lemma {:induction false} MixedNodes()
    ensures NodesOf(MixedBlocks()) == map[0 := FIRST, 1 := SECOND, 2 := OTHER]
  {
    var blocks := MixedBlocks();
    assert blocks[..2][..1][..0] == [] && blocks[..2][..1] == [blocks[0]] && blocks[..2] == [blocks[0], blocks[1]];
    assert NodesOf(blocks[..2][..1]) == map[0 := FIRST];
    assert NodesOf(blocks[..2]) == map[0 := FIRST, 1 := SECOND];
  }

  /** The chain ends before block 2, which it has marked visited. */
  lemma {:induction false} MixedChain()
    ensures ChainFrom(NodesOf(MixedBlocks()), 4, 0) == Walk([FIRST, SECOND], {0, 1, 2}, 2)
  {
    MixedNodes();
    var nodes := NodesOf(MixedBlocks());
    hide NodesOf;
    assert Extend(nodes, 4, Walk([FIRST, SECOND], {0, 1}, 2)) == Walk([FIRST, SECOND], {0, 1, 2}, 2);
    assert Extend(nodes, 4, Walk([FIRST], {0}, 1)) == Extend(nodes, 4, Walk([FIRST, SECOND], {0, 1}, 2));
    assert Extend(nodes, 4, Walk([], {}, 0)) == Extend(nodes, 4, Walk([FIRST], {0}, 1));
  }

  /** With registers all zero control arrives at block 2, yet the candidate reports no default. */
  lemma {:induction false} MixedDefaultMissing()
    ensures var nodes := NodesOf(MixedBlocks());
            var c := CandidateFor(MixedBlocks(), Limits(2, 4), 0, ChainFrom(nodes, 4, 0));
            && c.Some? && c.value.defaultTarget.None?
            && FollowTimes(nodes, (r: Register) => 0, 0, 2) == At(2)
  {
    MixedNodes();
    MixedChain();
    var nodes := NodesOf(MixedBlocks());
    var w := ChainFrom(nodes, 4, 0);
    hide NodesOf, ChainFrom;
    MixedTable(w.chain);
    assert TruncateWidth(0, 4) == 0;
    assert FollowTimes(nodes, (r: Register) => 0, 0, 1) == At(1);
    hide CaseList, LoopBacked, OneBitPercent, SelectorTargets, TruncateWidth;
  }

  lemma {:induction false} MixedTable(chain: seq<Node>)
    requires |chain| == 2 && chain[0].selector == 1 && chain[1].selector == 2
    ensures SelectorTargets(chain).Some? && |SelectorTargets(chain).value| == 2
  {
    assert chain[..1][..0] == [];
    assert SelectorTargets(chain[..1]) == Some(map[1 := chain[0].caseTarget]);
    assert SelectorTargets(chain) == Some(map[1 := chain[0].caseTarget, 2 := chain[1].caseTarget]);
  }
}
