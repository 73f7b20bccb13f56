/**
 * What dispatch recovery does report. A chain of compares of one register at one
 * width, entered at a head, is recovered with exactly its selectors and targets
 * whenever it has enough of them and gives none two targets.
 */
module DispatchReports {
  import opened Orders
  import opened Words
  import opened Instructions
  import opened Dispatch

  // ---- one candidate ------------------------------------------------------------------------------------

  /** The values a chain compares with. */
  function Selectors(chain: seq<Node>): set<U64> { set i | 0 <= i < |chain| :: chain[i].selector }

  /** No value is sent to two targets. */
  ghost predicate Unambiguous(chain: seq<Node>) {
    forall i, j :: 0 <= i < |chain| && 0 <= j < |chain| && chain[i].selector == chain[j].selector ==>
      chain[i].caseTarget == chain[j].caseTarget
  }

  /** The candidate describes the chain from its start. */
  ghost predicate Describes(c: Candidate, blocks: seq<Block>, start: U64, w: Walk) {
    && w.chain != []
    && c.entryBlock == start && c.site == w.chain[0].site
    && c.stateRegister == w.chain[0].register && c.stateWidth == w.chain[0].width
    && (forall s, t :: Case(s, t) in c.cases <==>
          exists i :: 0 <= i < |w.chain| && w.chain[i].selector == s && w.chain[i].caseTarget == t)
    && |c.comparisonSites| == |w.chain|
    && (forall i :: 0 <= i < |w.chain| ==> c.comparisonSites[i] == w.chain[i].site)
    && (c.loopBacked <==> exists b :: b in blocks && b.start !in w.visited && start in b.successors)
    && c.defaultTarget == (if w.cursor in w.visited || w.cursor == MAX_U64 then None else Some(w.cursor))
  }

  lemma {:induction false} SelectorCount(chain: seq<Node>, m: map<U64, U64>)
    requires Tabulates(m, chain)
    ensures m.Keys == Selectors(chain) && |m| == |Selectors(chain)|
  {
    forall s | s in m.Keys ensures s in Selectors(chain) {
      var i :| 0 <= i < |chain| && chain[i].selector == s;
    }
  }

  lemma {:induction false} SelectorsAtMost(chain: seq<Node>)
    ensures |Selectors(chain)| <= |chain|
  {
    if chain != [] {
      var front, last := chain[..|chain| - 1], chain[|chain| - 1];
      SelectorsAtMost(front);
      assert Selectors(chain) == Selectors(front) + {last.selector};
    }
  }

  lemma {:induction false} CasesAreChain(chain: seq<Node>, m: map<U64, U64>, s: U64, t: U64)
    requires Tabulates(m, chain)
    ensures Case(s, t) in CaseList(m) <==>
            exists i :: 0 <= i < |chain| && chain[i].selector == s && chain[i].caseTarget == t
  {
    var cases := CaseList(m);
    assert Case(s, t) in cases <==> s in m && t == m[s];
    hide CaseList;
    if s in m && t == m[s] {
      var i :| 0 <= i < |chain| && chain[i].selector == s;
    }
  }

  /**
   * A chain has a candidate if and only if it is not empty, sends no value to two
   * targets and compares with enough values; the candidate describes it.
   */
  lemma {:induction false} CandidateExactly(blocks: seq<Block>, limits: Limits, start: U64, w: Walk)
    ensures CandidateFor(blocks, limits, start, w).Some? <==>
            w.chain != [] && Unambiguous(w.chain) && limits.minimumCases <= |Selectors(w.chain)|
    ensures CandidateFor(blocks, limits, start, w).Some? ==>
              Describes(CandidateFor(blocks, limits, start, w).value, blocks, start, w)
  {
    SelectorTargetsExact(w.chain);
    UnambiguousIsConsistent(w.chain);
    SelectorsAtMost(w.chain);
    hide SelectorTargets, Consistent, Unambiguous, Selectors;
    if SelectorTargets(w.chain).Some? {
      var m := SelectorTargets(w.chain).value;
      SelectorCount(w.chain, m);
      hide Tabulates;
      if CandidateFor(blocks, limits, start, w).Some? {
        CandidateDescribes(blocks, start, w, m);
      }
    }
    hide Describes, MakeCandidate, CaseList;
  }

  lemma {:induction false} UnambiguousIsConsistent(chain: seq<Node>)
    ensures Unambiguous(chain) <==> Consistent(chain)
  {
    if Consistent(chain) {
      forall i, j | 0 <= i < |chain| && 0 <= j < |chain| && chain[i].selector == chain[j].selector
        ensures chain[i].caseTarget == chain[j].caseTarget
      {
        assert i < j || j < i || i == j;
      }
    }
  }

  lemma {:induction false} CandidateDescribes(blocks: seq<Block>, start: U64, w: Walk, m: map<U64, U64>)
    requires w.chain != [] && Tabulates(m, w.chain)
    ensures Describes(MakeCandidate(blocks, start, w, CaseList(m)), blocks, start, w)
  {
    hide OneBitPercent, Tabulates;
    forall s, t ensures Case(s, t) in CaseList(m) <==>
        exists i :: 0 <= i < |w.chain| && w.chain[i].selector == s && w.chain[i].caseTarget == t
    {
      CasesAreChain(w.chain, m, s, t);
    }
    hide CaseList;
    if b :| b in blocks && b.start !in w.visited && start in b.successors {
      var i :| 0 <= i < |blocks| && blocks[i] == b;
    }
    if i :| 0 <= i < |blocks| && blocks[i].start !in w.visited && start in blocks[i].successors {
      assert blocks[i] in blocks;
    }
  }

  // ---- the chain of given blocks ----------------------------------------------------------------------------

  /** The blocks follow each other, no two the same, all comparing one register at one width. */
  ghost predicate Follows(nodes: Nodes, bs: seq<U64>) {
    && bs != []
    && (forall i :: 0 <= i < |bs| ==> bs[i] in nodes)
    && (forall i :: 0 <= i < |bs| ==> nodes[bs[i]].register == nodes[bs[0]].register)
    && (forall i :: 0 <= i < |bs| ==> nodes[bs[i]].width == nodes[bs[0]].width)
    && (forall i :: 0 < i < |bs| ==> nodes[bs[i - 1]].next == bs[i])
    && (forall i, j :: 0 <= i < j < |bs| ==> bs[i] != bs[j])
  }

  /** Nothing continues the chain within the maximum. */
  ghost predicate Ends(nodes: Nodes, maximum: nat, bs: seq<U64>)
    requires Follows(nodes, bs)
  {
    var after := nodes[bs[|bs| - 1]].next;
    && |bs| <= maximum
    && (|bs| == maximum || after !in nodes || after in bs ||
        nodes[after].register != nodes[bs[0]].register || nodes[after].width != nodes[bs[0]].width)
  }

  function NodesAt(nodes: Nodes, bs: seq<U64>): seq<Node>
    requires forall i :: 0 <= i < |bs| ==> bs[i] in nodes
  {
    seq(|bs|, i requires 0 <= i < |bs| => nodes[bs[i]])
  }

  /** The walk along the first `k` of the blocks. */
  ghost function WalkTo(nodes: Nodes, bs: seq<U64>, k: nat): Walk
    requires Follows(nodes, bs) && k <= |bs|
  {
    Walk(NodesAt(nodes, bs[..k]), Elements(bs[..k]), if k == 0 then bs[0] else nodes[bs[k - 1]].next)
  }

  lemma {:induction false} WalkNext(nodes: Nodes, bs: seq<U64>, k: nat)
    requires Follows(nodes, bs) && k < |bs|
    ensures var w, node := WalkTo(nodes, bs, k), nodes[bs[k]];
            && w.cursor == bs[k] && bs[k] !in w.visited && |w.chain| == k
            && (k > 0 ==> SameState(node, w.chain[0]))
            && WalkTo(nodes, bs, k + 1) == Walk(w.chain + [node], w.visited + {bs[k]}, node.next)
  {
    assert bs[..k + 1] == bs[..k] + [bs[k]];
    assert NodesAt(nodes, bs[..k + 1]) == NodesAt(nodes, bs[..k]) + [nodes[bs[k]]];
    assert Elements(bs[..k + 1]) == Elements(bs[..k]) + {bs[k]};
    assert k > 0 ==> NodesAt(nodes, bs[..k])[0] == nodes[bs[0]];
    assert forall i :: 0 <= i < k ==> bs[..k][i] == bs[i];
  }

  lemma {:induction false} WalkDone(nodes: Nodes, maximum: nat, bs: seq<U64>)
    requires Follows(nodes, bs) && Ends(nodes, maximum, bs)
    ensures var w := WalkTo(nodes, bs, |bs|);
            && w.chain == NodesAt(nodes, bs) && w.chain != []
            && (|w.chain| < maximum && w.cursor in nodes && w.cursor !in w.visited ==>
                  !SameState(nodes[w.cursor], w.chain[0]))
  {
    assert bs[..|bs|] == bs;
  }

  lemma {:induction false} ExtendFollows(nodes: Nodes, maximum: nat, bs: seq<U64>, k: nat)
    requires Follows(nodes, bs) && Ends(nodes, maximum, bs) && k <= |bs|
    ensures Extend(nodes, maximum, WalkTo(nodes, bs, k)).chain == NodesAt(nodes, bs)
    decreases |bs| - k
  {
    hide Extend, WalkTo, NodesAt, SameState;
    ExtendOnce(nodes, maximum, WalkTo(nodes, bs, k));
    if k < |bs| {
      WalkNext(nodes, bs, k);
      ExtendFollows(nodes, maximum, bs, k + 1);
    } else {
      WalkDone(nodes, maximum, bs);
    }
  }

  /** The chain grown from the first of the blocks is exactly theirs. */
  lemma {:induction false} ChainIsFollowed(nodes: Nodes, maximum: nat, bs: seq<U64>)
    requires Follows(nodes, bs) && Ends(nodes, maximum, bs)
    ensures ChainFrom(nodes, maximum, bs[0]).chain == NodesAt(nodes, bs)
  {
    hide Extend, Ends;
    ExtendFollows(nodes, maximum, bs, 0);
    assert bs[..0] == [] && NodesAt(nodes, bs[..0]) == [] && Elements(bs[..0]) == {};
  }

  // ---- every such chain is recovered ---------------------------------------------------------------------------

  /** No node of the same register and width leads to the block. */
  ghost predicate Head(nodes: Nodes, b: U64) {
    b in nodes &&
    forall a :: a in nodes && nodes[a].next == b ==>
      nodes[a].register != nodes[b].register || nodes[a].width != nodes[b].width
  }

  lemma {:induction false} HeadIsStart(nodes: Nodes, b: U64)
    requires Head(nodes, b)
    ensures IsStart(nodes, b)
  {
  }

  lemma {:induction false} FirstOfChain(nodes: Nodes, maximum: nat, start: U64)
    requires ChainFrom(nodes, maximum, start).chain != []
    ensures start in nodes && ChainFrom(nodes, maximum, start).chain[0] == nodes[start]
  {
    ChainEnded(nodes, maximum, start);
    var w := ChainFrom(nodes, maximum, start);
    assert LinkAt(nodes, start, w, 0);
  }

  /** The chain of the i-th start is long enough to speak for the site it begins at. */
  ghost predicate Speaks(nodes: Nodes, limits: Limits, starts: seq<U64>, i: nat)
    requires i < |starts|
  {
    var chain := ChainFrom(nodes, limits.maximumCases, starts[i]).chain;
    chain != [] && limits.minimumCases <= |chain|
  }

  ghost function SiteOf(nodes: Nodes, limits: Limits, starts: seq<U64>, i: nat): U64
    requires i < |starts| && Speaks(nodes, limits, starts, i)
  {
    ChainFrom(nodes, limits.maximumCases, starts[i]).chain[0].site
  }

  /** The sites taken are exactly those some earlier start spoke for, with a candidate or without. */
  lemma {:induction false} SitesExactly(blocks: seq<Block>, nodes: Nodes, limits: Limits, starts: seq<U64>, n: nat,
                                        s: U64)
    requires n <= |starts|
    ensures s in FoundUpTo(blocks, nodes, limits, starts, n).sites <==>
            exists i :: 0 <= i < n && Speaks(nodes, limits, starts, i) && SiteOf(nodes, limits, starts, i) == s
  {
    hide CandidateFor, ChainFrom;
    if n > 0 {
      SitesExactly(blocks, nodes, limits, starts, n - 1, s);
      assert s in FoundUpTo(blocks, nodes, limits, starts, n).sites <==>
             || s in FoundUpTo(blocks, nodes, limits, starts, n - 1).sites
             || (Speaks(nodes, limits, starts, n - 1) && SiteOf(nodes, limits, starts, n - 1) == s);
      hide FoundUpTo, Speaks, SiteOf;
    }
  }

  /** The i-th start is the first to speak for its site. */
  ghost predicate SpeaksFirst(nodes: Nodes, limits: Limits, starts: seq<U64>, i: nat)
    requires i < |starts|
  {
    && Speaks(nodes, limits, starts, i)
    && forall j :: 0 <= j < i && Speaks(nodes, limits, starts, j) ==>
         SiteOf(nodes, limits, starts, j) != SiteOf(nodes, limits, starts, i)
  }

  lemma {:induction false} FirstIsNew(blocks: seq<Block>, nodes: Nodes, limits: Limits, starts: seq<U64>, i: nat)
    requires i < |starts| && Speaks(nodes, limits, starts, i)
    ensures SpeaksFirst(nodes, limits, starts, i) <==>
            SiteOf(nodes, limits, starts, i) !in FoundUpTo(blocks, nodes, limits, starts, i).sites
  {
    hide FoundUpTo, Speaks, SiteOf;
    SitesExactly(blocks, nodes, limits, starts, i, SiteOf(nodes, limits, starts, i));
  }

  /** The candidates reported are exactly those of the starts that are first to speak for their site. */
  lemma {:induction false} ReportedExactly(blocks: seq<Block>, nodes: Nodes, limits: Limits, starts: seq<U64>, n: nat,
                                           c: Candidate)
    requires n <= |starts|
    ensures c in FoundUpTo(blocks, nodes, limits, starts, n).candidates <==>
            exists i :: 0 <= i < n && Gives(blocks, nodes, limits, starts, i, c)
  {
    hide CandidateFor, ChainFrom, SpeaksFirst, Hear;
    if n > 0 {
      ReportedExactly(blocks, nodes, limits, starts, n - 1, c);
      var before := FoundUpTo(blocks, nodes, limits, starts, n - 1);
      HeardExactly(blocks, limits, starts[n - 1], ChainFrom(nodes, limits.maximumCases, starts[n - 1]), before, c);
      SpeaksFirstSpeaks(nodes, limits, starts, n - 1);
      if Speaks(nodes, limits, starts, n - 1) {
        FirstIsNew(blocks, nodes, limits, starts, n - 1);
      }
      assert c in FoundUpTo(blocks, nodes, limits, starts, n).candidates <==>
             c in before.candidates || Gives(blocks, nodes, limits, starts, n - 1, c);
    }
  }

  /** The i-th start is first to speak and this is its candidate. */
  ghost predicate Gives(blocks: seq<Block>, nodes: Nodes, limits: Limits, starts: seq<U64>, i: nat, c: Candidate)
    requires i < |starts|
  {
    && SpeaksFirst(nodes, limits, starts, i)
    && CandidateFor(blocks, limits, starts[i], ChainFrom(nodes, limits.maximumCases, starts[i])) == Some(c)
  }

  lemma {:induction false} HeardExactly(blocks: seq<Block>, limits: Limits, start: U64, w: Walk, before: Found,
                                        c: Candidate)
    ensures c in Hear(blocks, limits, start, w, before).candidates <==>
            || c in before.candidates
            || (w.chain != [] && limits.minimumCases <= |w.chain| && w.chain[0].site !in before.sites &&
                CandidateFor(blocks, limits, start, w) == Some(c))
  {
    hide CandidateFor;
  }

  lemma {:induction false} SpeaksFirstSpeaks(nodes: Nodes, limits: Limits, starts: seq<U64>, i: nat)
    requires i < |starts|
    ensures SpeaksFirst(nodes, limits, starts, i) ==> Speaks(nodes, limits, starts, i)
  {
  }

  /** A site taken is the first site of an earlier start. */
  lemma {:induction false} SitesTaken(blocks: seq<Block>, nodes: Nodes, limits: Limits, starts: seq<U64>, n: nat,
                                      s: U64)
    requires n <= |starts| && s in FoundUpTo(blocks, nodes, limits, starts, n).sites
    ensures exists i :: 0 <= i < n && starts[i] in nodes && nodes[starts[i]].site == s
  {
    hide CandidateFor, ChainFrom;
    if s !in FoundUpTo(blocks, nodes, limits, starts, n - 1).sites {
      FirstOfChain(nodes, limits.maximumCases, starts[n - 1]);
      assert starts[n - 1] in nodes && nodes[starts[n - 1]].site == s;
    } else {
      SitesTaken(blocks, nodes, limits, starts, n - 1, s);
    }
  }

  /** The candidate tells the chain of these blocks. */
  ghost predicate Recovers(c: Candidate, nodes: Nodes, bs: seq<U64>)
    requires Follows(nodes, bs)
  {
    && c.entryBlock == bs[0] && c.site == nodes[bs[0]].site
    && c.stateRegister == nodes[bs[0]].register && c.stateWidth == nodes[bs[0]].width
    && (forall s, t :: Case(s, t) in c.cases <==>
          exists b :: b in bs && nodes[b].selector == s && nodes[b].caseTarget == t)
    && |c.comparisonSites| == |bs|
    && (forall i :: 0 <= i < |bs| ==> c.comparisonSites[i] == nodes[bs[i]].site)
  }

  lemma {:induction false} DescribedRecovers(c: Candidate, blocks: seq<Block>, nodes: Nodes, bs: seq<U64>, w: Walk)
    requires Follows(nodes, bs) && w.chain == NodesAt(nodes, bs) && Describes(c, blocks, bs[0], w)
    ensures Recovers(c, nodes, bs)
  {
    forall s, t
      ensures Case(s, t) in c.cases <==> exists b :: b in bs && nodes[b].selector == s && nodes[b].caseTarget == t
    {
      if i :| 0 <= i < |w.chain| && w.chain[i].selector == s && w.chain[i].caseTarget == t {
        assert bs[i] in bs;
      }
      if b :| b in bs && nodes[b].selector == s && nodes[b].caseTarget == t {
        var i :| 0 <= i < |bs| && bs[i] == b;
        assert w.chain[i] == nodes[b];
      }
    }
  }

  /**
   * Every chain of enough unambiguous compares that starts at a head is among the
   * reported candidates, unless a lower block compares at the same site.
   */
  lemma {:induction false} ChainRecovered(blocks: seq<Block>, limits: Limits, starts: seq<U64>, bs: seq<U64>,
                                          out: seq<Candidate>)
    requires var nodes := NodesOf(blocks);
             && Follows(nodes, bs) && Ends(nodes, limits.maximumCases, bs) && Head(nodes, bs[0])
             && Unambiguous(NodesAt(nodes, bs)) && limits.minimumCases <= |Selectors(NodesAt(nodes, bs))|
             && (forall b :: b in nodes && b < bs[0] ==> nodes[b].site != nodes[bs[0]].site)
             && Starts(nodes, starts)
    requires SameCandidates(out, blocks, limits, starts)
    ensures exists c :: c in out && Recovers(c, NodesOf(blocks), bs)
  {
    var nodes := NodesOf(blocks);
    hide NodesOf, Unambiguous, Selectors, Describes, Recovers, ChainFrom, CandidateFor, FoundUpTo;
    HeadIsStart(nodes, bs[0]);
    var k :| 0 <= k < |starts| && starts[k] == bs[0];
    ChainIsFollowed(nodes, limits.maximumCases, bs);
    var w := ChainFrom(nodes, limits.maximumCases, bs[0]);
    CandidateExactly(blocks, limits, bs[0], w);
    if w.chain[0].site in FoundUpTo(blocks, nodes, limits, starts, k).sites {
      SitesTaken(blocks, nodes, limits, starts, k, w.chain[0].site);
    }
    FoundComplete(blocks, nodes, limits, starts, |starts|, k);
    DescribedRecovers(CandidateFor(blocks, limits, bs[0], w).value, blocks, nodes, bs, w);
  }

  // ---- nodes -------------------------------------------------------------------------------------------------

  /** The node of a block is the first one parsed for it. */
  lemma {:induction false} NodesExactly(blocks: seq<Block>, b: U64, n: Node)
    ensures b in NodesOf(blocks) && NodesOf(blocks)[b] == n <==>
            exists i :: 0 <= i < |blocks| && blocks[i].node == Some(n) && n.block == b &&
              forall j :: 0 <= j < i ==> blocks[j].node.None? || blocks[j].node.value.block != b
  {
    if blocks != [] {
      var front := blocks[..|blocks| - 1];
      NodesExactly(front, b, n);
      NodesAbsent(front, b);
      assert blocks == front + [blocks[|blocks| - 1]];
    }
  }

  lemma {:induction false} NodesAbsent(blocks: seq<Block>, b: U64)
    ensures b in NodesOf(blocks) <==>
            exists i :: 0 <= i < |blocks| && blocks[i].node.Some? && blocks[i].node.value.block == b
  {
    if blocks != [] {
      var front := blocks[..|blocks| - 1];
      NodesAbsent(front, b);
      assert blocks == front + [blocks[|blocks| - 1]];
    }
  }
}
