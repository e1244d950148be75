/**
 What holds of the graph in memory: its edges are the specified ones, it simulates execution, and the blocks of all
 functions together are the program.
 */
module CfgProgram {
  import opened Wrappers
  import opened CfgSpec
  import opened CfgSimulation
  import opened CfgBuild

  ghost predicate HasEdgeTo(bb: BbNode, dst: BbNode)
    reads bb
  {
    exists e :: 0 <= e < |bb.eSuccs| && bb.eSuccs[e].dst == dst
  }

  lemma EdgeIsArrow(bbs: seq<BbNode>, bl: seq<Piece>, src: BbNode, a: Arrow, n: Node)
    requires HasNodes(bbs, bl) && ArrowFits(a, |bl|) && (n.Block? ==> n.k < |bl|)
    ensures EdgeOf(bbs, src, a).dst == At(bbs, n) <==> a.dst == Some(n)
  {
  }

  lemma SuccessorsOf(prog: Prog, bbs: seq<BbNode>, bl: seq<Piece>, k: nat)
    requires IsGraph(prog, bbs, bl) && k < |bl|
    ensures 0 <= bl[k].tail < |prog|
    ensures var arrows, bb := Arrows(prog, bl, k), bbs[k + 1];
            && |bb.eSuccs| == |arrows| && 0 < |arrows| <= 2
            && ArrowFits(arrows[0], |bl|) && ArrowFits(arrows[|arrows| - 1], |bl|)
            && bb.eSuccs[0] == EdgeOf(bbs, bb, arrows[0])
            && bb.eSuccs[|arrows| - 1] == EdgeOf(bbs, bb, arrows[|arrows| - 1])
  {
    assert HasEdges(prog, bbs, bbs[k + 1], bl, k + 1 - 1);
    ArrowsFit(prog, bl, k);
  }

  /** The edges in memory are those of the specification. */
  lemma JoinedIsEdge(prog: Prog, bbs: seq<BbNode>, bl: seq<Piece>, k: nat, n: Node)
    requires IsGraph(prog, bbs, bl) && k < |bl| && (n.Block? ==> n.k < |bl|)
    ensures 0 <= bl[k].tail < |prog| && (HasEdgeTo(bbs[k + 1], At(bbs, n)) <==> Joined(prog, bl, k, n))
  {
    var arrows, bb := Arrows(prog, bl, k), bbs[k + 1];
    SuccessorsOf(prog, bbs, bl, k);
    var last := |arrows| - 1;
    EdgeIsArrow(bbs, bl, bb, arrows[0], n);
    EdgeIsArrow(bbs, bl, bb, arrows[last], n);
    assert arrows[0] in arrows && arrows[last] in arrows;
  }

  predicate EndsBefore(prog: Prog, i: int, x: int)
    requires 0 <= i < |prog|
  {
    match prog[i]
    case Ja(off) => x == i + 1 + off
    case Cond(off) => x == i + 1 + off || x == i + 1
    case _ => false
  }

  ghost predicate HasHead(bbs: seq<BbNode>, x: int)
    reads bbs
  {
    exists b :: 0 <= b < |bbs| && bbs[b].head == Some(x)
  }

  /** Blocks begin where the function does, where a jump of it leads, and after its conditional jumps, and nowhere
      else. */
  lemma NodeHeads(prog: Prog, f: FuncNode, x: int)
    requires Built(prog, f) && WellFormed(prog, f.start, f.end)
    ensures HasHead(f.bbs, x) <==> x == f.start || exists i :: f.start <= i <= f.end && EndsBefore(prog, i, x)
  {
    HeadsAreLeaders(prog, f.start, f.end, f.bbs, x);
    if IsLeader(prog, f.start, f.end + 1, x) && x != f.start {
      var i :| f.start <= i < f.end + 1 && MakesLeader(prog, i, x);
      assert EndsBefore(prog, i, x);
    }
    if i :| f.start <= i <= f.end && EndsBefore(prog, i, x) {
      assert MakesLeader(prog, i, x);
    }
  }

  lemma HeadsAreLeaders(prog: Prog, start: int, end: int, bbs: seq<BbNode>, x: int)
    requires WellFormed(prog, start, end) && HasNodes(bbs, Blocks(prog, start, end))
    ensures HasHead(bbs, x) <==> IsLeader(prog, start, end + 1, x)
  {
    var bl, hs := Blocks(prog, start, end), HeadsTo(prog, start, end + 1);
    HeadsExact(prog, start, end + 1);
    if b :| 0 <= b < |bbs| && bbs[b].head == Some(x) {
      assert 1 <= b <= |bl| && IsBlock(bbs[b], bl, b - 1);
      assert hs[b - 1] in hs;
    }
    if IsLeader(prog, start, end + 1, x) {
      var m := LeaderHasBlock(prog, start, end, x);
      assert IsBlock(bbs[m + 1], bl, m + 1 - 1);
    }
  }

  /** Edge e goes on from a block to what follows it: the exit after the function's last instruction, and otherwise the
      block that begins with the next instruction. */
  ghost predicate FallsThrough(f: FuncNode, bb: BbNode, e: Edge)
    reads f, f.bbs, bb
  {
    && e.src == bb && e.flags == EDGE_FLAG_FALLTHROUGH && bb.tail.Some? && f.bbs != []
    && if bb.tail.value == f.end then e.dst == f.bbs[|f.bbs| - 1]
       else exists m :: 0 <= m < |f.bbs| && e.dst == f.bbs[m] && f.bbs[m].head == Some(bb.tail.value + 1)
  }

  /** Edge e leads from a block to the one that begins at x, or nowhere if there is none. */
  ghost predicate JumpsTo(f: FuncNode, bb: BbNode, e: Edge, x: int)
    reads f, f.bbs
  {
    && e.src == bb && e.flags == EDGE_FLAG_JUMP
    && if e.dst == null then forall m :: 0 <= m < |f.bbs| ==> f.bbs[m].head != Some(x)
       else exists m :: 0 <= m < |f.bbs| && e.dst == f.bbs[m] && f.bbs[m].head == Some(x)
  }

  /** All edges of a block, by its last instruction: jumps of both kinds and calls have one to their target, and all but
      unconditional jumps one to what follows. */
  ghost predicate HasOwnEdges(prog: Prog, f: FuncNode, bb: BbNode)
    reads f, f.bbs, bb
  {
    && bb.tail.Some? && 0 <= bb.tail.value < |prog| && bb.ePrevs == []
    && var insn, es := prog[bb.tail.value], bb.eSuccs;
       && |es| == (if insn.Cond? || insn.Call? then 2 else 1)
       && (!insn.Ja? ==> FallsThrough(f, bb, es[0]))
       && (!insn.Plain? && !insn.Exit? ==> JumpsTo(f, bb, es[|es| - 1], Target(prog, bb.tail.value)))
  }

  lemma BlockEdges(prog: Prog, f: FuncNode, b: nat)
    requires Built(prog, f) && WellFormed(prog, f.start, f.end) && 1 <= b < |f.bbs| - 1
    ensures HasOwnEdges(prog, f, f.bbs[b])
  {
    var bl := Blocks(prog, f.start, f.end);
    TailInRange(prog, f.start, f.end, b - 1);
    BlocksTile(prog, f.start, f.end);
    EdgesOut(prog, f, bl, b - 1);
  }

  lemma EdgesOut(prog: Prog, f: FuncNode, bl: seq<Piece>, k: nat)
    requires IsGraph(prog, f.bbs, bl) && Tiles(bl, f.start, f.end) && k < |bl| && 0 <= bl[k].tail < |prog|
    requires bl[k].tail == f.end <==> k == |bl| - 1
    ensures HasOwnEdges(prog, f, f.bbs[k + 1])
  {
    var t, bb := bl[k].tail, f.bbs[k + 1];
    assert IsBlock(bb, bl, k + 1 - 1);
    SuccessorsOf(prog, f.bbs, bl, k);
    assert HasEdges(prog, f.bbs, f.bbs[k + 1], bl, k + 1 - 1);
    if !prog[t].Ja? {
      FallEdge(f, bl, k, bb.eSuccs[0]);
    }
    if !prog[t].Plain? && !prog[t].Exit? {
      JumpEdge(f, bl, k, Target(prog, t), bb.eSuccs[|bb.eSuccs| - 1]);
    }
  }

  lemma FallEdge(f: FuncNode, bl: seq<Piece>, k: nat, e: Edge)
    requires HasNodes(f.bbs, bl) && Tiles(bl, f.start, f.end) && k < |bl| && (bl[k].tail == f.end <==> k == |bl| - 1)
    requires e == EdgeOf(f.bbs, f.bbs[k + 1], Arrow(FallTo(bl, k), true, false))
    ensures FallsThrough(f, f.bbs[k + 1], e)
  {
    assert IsBlock(f.bbs[k + 1], bl, k + 1 - 1);
    if k < |bl| - 1 {
      assert IsBlock(f.bbs[k + 2], bl, k + 2 - 1);
    }
  }

  lemma JumpEdge(f: FuncNode, bl: seq<Piece>, k: nat, x: int, e: Edge)
    requires HasNodes(f.bbs, bl) && k < |bl|
    requires e == EdgeOf(f.bbs, f.bbs[k + 1], Arrow(JumpTo(bl, x), false, true))
    ensures JumpsTo(f, f.bbs[k + 1], e, x)
  {
    var m := FindHead(bl, x);
    if m < |bl| {
      assert IsBlock(f.bbs[m + 1], bl, m + 1 - 1);
    } else {
      forall m | 0 <= m < |f.bbs| ensures f.bbs[m].head != Some(x) {
        if 1 <= m <= |bl| {
          assert IsBlock(f.bbs[m], bl, m - 1);
        }
      }
    }
  }

  /** The entry has one edge, to the block that begins the function; the exit lists one, from the block that ends it. */
  lemma SpecialEdges(prog: Prog, f: FuncNode)
    requires Built(prog, f) && WellFormed(prog, f.start, f.end)
    ensures |f.bbs| >= 3
    ensures var entry, exit, first, last := f.bbs[0], f.bbs[|f.bbs| - 1], f.bbs[1], f.bbs[|f.bbs| - 2];
            && first.head == Some(f.start) && last.tail == Some(f.end)
            && entry.ePrevs == [] && entry.eSuccs == [Edge(entry, first, EDGE_FLAG_FALLTHROUGH)]
            && exit.ePrevs == [Edge(last, exit, EDGE_FLAG_FALLTHROUGH)] && exit.eSuccs == []
  {
    var bl := Blocks(prog, f.start, f.end);
    BlocksTile(prog, f.start, f.end);
    assert IsBlock(f.bbs[1], bl, 0) && IsBlock(f.bbs[|bl|], bl, |bl| - 1);
  }

  /** No edge leads to the entry.  One leads to the exit from the last block, unless that ends in a jump, and from no
      other node. */
  lemma EdgesToSpecial(prog: Prog, f: FuncNode, b: nat)
    requires Built(prog, f) && WellFormed(prog, f.start, f.end) && b < |f.bbs|
    ensures |f.bbs| >= 3 && !HasEdgeTo(f.bbs[b], f.bbs[0])
    ensures HasEdgeTo(f.bbs[b], f.bbs[|f.bbs| - 1]) <==> b == |f.bbs| - 2 && !prog[f.end].Ja?
  {
    var bl := Blocks(prog, f.start, f.end);
    BlocksTile(prog, f.start, f.end);
    NodeToSpecial(prog, f.bbs, bl, b);
  }

  lemma NodeToSpecial(prog: Prog, bbs: seq<BbNode>, bl: seq<Piece>, b: nat)
    requires IsGraph(prog, bbs, bl) && b < |bbs|
    ensures !HasEdgeTo(bbs[b], bbs[0])
    ensures HasEdgeTo(bbs[b], bbs[|bbs| - 1]) <==> b == |bbs| - 2 && !prog[bl[|bl| - 1].tail].Ja?
  {
    if 1 <= b <= |bl| {
      BlockToSpecial(prog, bbs, bl, b - 1);
    } else {
      SpecialToSpecial(prog, bbs, bl, b);
    }
  }

  lemma SpecialToSpecial(prog: Prog, bbs: seq<BbNode>, bl: seq<Piece>, b: nat)
    requires IsGraph(prog, bbs, bl) && (b == 0 || b == |bl| + 1)
    ensures !HasEdgeTo(bbs[b], bbs[0]) && !HasEdgeTo(bbs[b], bbs[|bl| + 1])
  {
    assert IsBlock(bbs[1], bl, 0);
  }

  lemma BlockToSpecial(prog: Prog, bbs: seq<BbNode>, bl: seq<Piece>, k: nat)
    requires IsGraph(prog, bbs, bl) && k < |bl| && 0 <= bl[k].tail < |prog|
    ensures !HasEdgeTo(bbs[k + 1], bbs[0])
    ensures HasEdgeTo(bbs[k + 1], bbs[|bl| + 1]) <==> k == |bl| - 1 && !prog[bl[k].tail].Ja?
  {
    JoinedIsEdge(prog, bbs, bl, k, Entry);
    JoinedIsEdge(prog, bbs, bl, k, Leave);
    ToSpecial(prog, bl, k);
  }

  lemma ToSpecial(prog: Prog, bl: seq<Piece>, k: nat)
    requires k < |bl| && 0 <= bl[k].tail < |prog|
    ensures !Joined(prog, bl, k, Entry)
    ensures Joined(prog, bl, k, Leave) <==> k == |bl| - 1 && !prog[bl[k].tail].Ja?
  {
    var arrows := Arrows(prog, bl, k);
    assert arrows[0] in arrows;
  }

  /** The step from i to j stays in a block, or follows an edge from the block's tail to the head of another. */
  ghost predicate Follows(f: FuncNode, bb: BbNode, i: int, j: int)
    reads f, f.bbs, bb
  {
    || (bb.tail.Some? && i < bb.tail.value && j == i + 1)
    || (bb.tail == Some(i) && exists m :: 0 <= m < |f.bbs| && f.bbs[m].head == Some(j) && HasEdgeTo(bb, f.bbs[m]))
  }

  /** In the graph that was built for a well-formed function whose unconditional jumps end blocks, every step of
      every instruction is a step inside a block or along an edge. */
  lemma GraphSimulates(prog: Prog, f: FuncNode, i: int, j: int) returns (b: nat)
    requires Built(prog, f) && WellFormed(prog, f.start, f.end) && JumpsEndBlocks(prog, f.start, f.end)
    requires f.start <= i <= f.end && Step(prog, i, j)
    ensures b < |f.bbs| && f.bbs[b].head.Some? && f.bbs[b].tail.Some?
    ensures f.bbs[b].head.value <= i <= f.bbs[b].tail.value && Follows(f, f.bbs[b], i, j)
  {
    var bl := Blocks(prog, f.start, f.end);
    BlocksTile(prog, f.start, f.end);
    var k := TileOf(bl, f.start, f.end, i, |bl| - 1);
    b := k + 1;
    assert IsBlock(f.bbs[b], bl, b - 1);
    StepSimulated(prog, f.start, f.end, k, i, j);
    SimulatedFollows(prog, f, bl, k, i, j);
  }

  lemma SimulatedFollows(prog: Prog, f: FuncNode, bl: seq<Piece>, k: nat, i: int, j: int)
    requires IsGraph(prog, f.bbs, bl) && k < |bl| && 0 <= bl[k].tail < |prog| && Simulated(prog, bl, k, i, j)
    ensures Follows(f, f.bbs[k + 1], i, j)
  {
    assert IsBlock(f.bbs[k + 1], bl, k + 1 - 1);
    if !(i < bl[k].tail && j == i + 1) {
      var m :| 0 <= m < |bl| && bl[m].head == j && Joined(prog, bl, k, Block(m));
      JoinedIsEdge(prog, f.bbs, bl, k, Block(m));
      assert IsBlock(f.bbs[m + 1], bl, m + 1 - 1);
    }
  }

  // ---------- Paths ----------

  /** The instructions of a list of blocks of the graph, each run from head to tail. */
  function ObjectTrace(bbs: seq<BbNode>, ns: seq<nat>): seq<int>
    requires forall x :: 0 <= x < |ns| ==> IsReal(bbs, ns[x])
    reads bbs
  {
    if ns == [] then []
    else
      assert IsReal(bbs, ns[|ns| - 1]);
      var bb := bbs[ns[|ns| - 1]];
      ObjectTrace(bbs, ns[..|ns| - 1]) + Range(bb.head.value, bb.tail.value)
  }

  /** A block with instructions. */
  predicate IsReal(bbs: seq<BbNode>, n: nat)
    reads bbs
  {
    n < |bbs| && bbs[n].head.Some? && bbs[n].tail.Some?
  }

  /** From the entry, edges lead along the listed blocks. */
  ghost predicate IsEdgePath(bbs: seq<BbNode>, ns: seq<nat>)
    reads bbs
  {
    && ns != [] && (forall x :: 0 <= x < |ns| ==> IsReal(bbs, ns[x]))
    && 0 < |bbs| && HasEdgeTo(bbs[0], bbs[ns[0]])
    && forall x :: 0 <= x < |ns| - 1 ==> Leads(bbs, ns, x)
  }

  ghost predicate Leads(bbs: seq<BbNode>, ns: seq<nat>, x: nat)
    requires x + 1 < |ns| && ns[x] < |bbs| && ns[x + 1] < |bbs|
    reads bbs
  {
    HasEdgeTo(bbs[ns[x]], bbs[ns[x + 1]])
  }

  /** p runs through all of the blocks but the last, and into the last. */
  ghost predicate RunsThrough(bbs: seq<BbNode>, ns: seq<nat>, p: seq<int>)
    reads bbs
  {
    && IsEdgePath(bbs, ns) && p != []
    && var bb := bbs[ns[|ns| - 1]];
    && bb.head.value <= p[|p| - 1] <= bb.tail.value
    && p == ObjectTrace(bbs, ns[..|ns| - 1]) + Range(bb.head.value, p[|p| - 1])
  }

  /** The place of block k in the list that begins with the entry. */
  predicate Shifted(bp: seq<nat>, ns: seq<nat>) {
    |bp| == |ns| && forall x :: 0 <= x < |bp| ==> ns[x] == bp[x] + 1
  }

  lemma RealIsBlock(bbs: seq<BbNode>, bl: seq<Piece>, n: nat)
    requires HasNodes(bbs, bl)
    ensures IsReal(bbs, n) <==> 1 <= n <= |bl|
    ensures 1 <= n <= |bl| ==> bbs[n].head == Some(bl[n - 1].head) && bbs[n].tail == Some(bl[n - 1].tail)
  {
    if 1 <= n <= |bl| {
      assert IsBlock(bbs[n], bl, n - 1);
    }
  }

  lemma {:induction false} TracesAgree(bbs: seq<BbNode>, bl: seq<Piece>, bp: seq<nat>, ns: seq<nat>)
    requires HasNodes(bbs, bl) && Shifted(bp, ns) && forall x :: 0 <= x < |bp| ==> bp[x] < |bl|
    ensures forall x :: 0 <= x < |ns| ==> IsReal(bbs, ns[x])
    ensures ObjectTrace(bbs, ns) == Trace(bl, bp)
  {
    forall x | 0 <= x < |ns| ensures IsReal(bbs, ns[x]) {
      RealIsBlock(bbs, bl, ns[x]);
    }
    if ns != [] {
      TracesAgree(bbs, bl, bp[..|bp| - 1], ns[..|ns| - 1]);
      RealIsBlock(bbs, bl, ns[|ns| - 1]);
    }
  }

  /** The entry has one edge, to the first block. */
  lemma EntryEdge(prog: Prog, bbs: seq<BbNode>, bl: seq<Piece>, n: nat)
    requires IsGraph(prog, bbs, bl) && 1 <= n <= |bl|
    ensures HasEdgeTo(bbs[0], bbs[n]) <==> n == 1
  {
    assert bbs[0].eSuccs[0].dst == bbs[1];
    assert IsBlock(bbs[1], bl, 0) && IsBlock(bbs[n], bl, n - 1);
  }

  lemma LeadsIsJoined(prog: Prog, bbs: seq<BbNode>, bl: seq<Piece>, bp: seq<nat>, ns: seq<nat>, x: nat)
    requires IsGraph(prog, bbs, bl) && Shifted(bp, ns) && x + 1 < |bp| && bp[x] < |bl| && bp[x + 1] < |bl|
    ensures 0 <= bl[bp[x]].tail < |prog|
    ensures Leads(bbs, ns, x) <==> Joined(prog, bl, bp[x], Block(bp[x + 1]))
  {
    assert ns[x] == bp[x] + 1 && At(bbs, Block(bp[x + 1])) == bbs[ns[x + 1]];
    JoinedIsEdge(prog, bbs, bl, bp[x], Block(bp[x + 1]));
  }

  /** The real blocks are the numbered ones, and their numbers are in range. */
  lemma ShiftedReal(prog: Prog, bbs: seq<BbNode>, bl: seq<Piece>, bp: seq<nat>, ns: seq<nat>)
    requires IsGraph(prog, bbs, bl) && Shifted(bp, ns) && forall x :: 0 <= x < |bp| ==> bp[x] < |bl|
    ensures forall x :: 0 <= x < |ns| ==> IsReal(bbs, ns[x])
    ensures forall x :: 0 <= x < |bp| ==> 0 <= bl[bp[x]].tail < |prog|
  {
    forall x | 0 <= x < |ns| ensures IsReal(bbs, ns[x]) {
      RealIsBlock(bbs, bl, ns[x]);
    }
  }

  lemma EdgePathsAgree(prog: Prog, bbs: seq<BbNode>, bl: seq<Piece>, bp: seq<nat>, ns: seq<nat>)
    requires IsGraph(prog, bbs, bl) && Shifted(bp, ns) && bp != [] && forall x :: 0 <= x < |bp| ==> bp[x] < |bl|
    ensures IsEdgePath(bbs, ns) <==> IsBlockPath(prog, bl, bp)
  {
    ShiftedReal(prog, bbs, bl, bp, ns);
    EntryEdge(prog, bbs, bl, ns[0]);
    if IsEdgePath(bbs, ns) {
      forall x | 0 <= x < |bp| - 1 ensures Joined(prog, bl, bp[x], Block(bp[x + 1])) {
        LeadsIsJoined(prog, bbs, bl, bp, ns, x);
        assert Leads(bbs, ns, x);
      }
    }
    if IsBlockPath(prog, bl, bp) {
      forall x | 0 <= x < |ns| - 1 ensures Leads(bbs, ns, x) {
        LeadsIsJoined(prog, bbs, bl, bp, ns, x);
      }
    }
  }

  /** A path runs through the block objects just if it covers the blocks. */
  lemma RunsThroughIsCovers(prog: Prog, bbs: seq<BbNode>, bl: seq<Piece>, bp: seq<nat>, ns: seq<nat>, p: seq<int>)
    requires IsGraph(prog, bbs, bl) && Shifted(bp, ns) && bp != [] && forall x :: 0 <= x < |bp| ==> bp[x] < |bl|
    ensures RunsThrough(bbs, ns, p) <==> Covers(prog, bl, bp, p)
  {
    EdgePathsAgree(prog, bbs, bl, bp, ns);
    ThroughAgrees(bbs, bl, bp, ns, bp[..|bp| - 1], ns[..|ns| - 1]);
  }

  /** The text of a path, in block objects and in blocks. */
  lemma ThroughAgrees(bbs: seq<BbNode>, bl: seq<Piece>, bp: seq<nat>, ns: seq<nat>, bp': seq<nat>, ns': seq<nat>)
    requires HasNodes(bbs, bl) && Shifted(bp, ns) && bp != [] && forall x :: 0 <= x < |bp| ==> bp[x] < |bl|
    requires bp' == bp[..|bp| - 1] && ns' == ns[..|ns| - 1]
    ensures var n, b := ns[|ns| - 1], bl[bp[|bp| - 1]];
            IsReal(bbs, n) && bbs[n].head.value == b.head && bbs[n].tail.value == b.tail
    ensures (forall x :: 0 <= x < |ns'| ==> IsReal(bbs, ns'[x])) && ObjectTrace(bbs, ns') == Trace(bl, bp')
  {
    TracesAgree(bbs, bl, bp', ns');
    RealIsBlock(bbs, bl, ns[|ns| - 1]);
  }

  ghost predicate InGraph(bbs: seq<BbNode>, p: seq<int>)
    reads bbs
  {
    exists ns :: RunsThrough(bbs, ns, p)
  }

  lemma CoveredInGraph(prog: Prog, bbs: seq<BbNode>, bl: seq<Piece>, bp: seq<nat>, p: seq<int>)
    requires IsGraph(prog, bbs, bl) && Covers(prog, bl, bp, p)
    ensures InGraph(bbs, p)
  {
    var ns := seq(|bp|, x requires 0 <= x < |bp| => bp[x] + 1);
    RunsThroughIsCovers(prog, bbs, bl, bp, ns, p);
  }

  lemma Unshifted(bbs: seq<BbNode>, bl: seq<Piece>, ns: seq<nat>) returns (bp: seq<nat>)
    requires HasNodes(bbs, bl) && forall x :: 0 <= x < |ns| ==> IsReal(bbs, ns[x])
    ensures Shifted(bp, ns) && forall x :: 0 <= x < |bp| ==> bp[x] < |bl|
  {
    forall x | 0 <= x < |ns| ensures 1 <= ns[x] <= |bl| {
      RealIsBlock(bbs, bl, ns[x]);
    }
    bp := seq(|ns|, x requires 0 <= x < |ns| => (ns[x] - 1) as nat);
  }

  lemma InGraphCovered(prog: Prog, bbs: seq<BbNode>, bl: seq<Piece>, ns: seq<nat>, p: seq<int>) returns (bp: seq<nat>)
    requires IsGraph(prog, bbs, bl) && RunsThrough(bbs, ns, p)
    ensures Covers(prog, bl, bp, p)
  {
    bp := Unshifted(bbs, bl, ns);
    RunsThroughIsCovers(prog, bbs, bl, bp, ns, p);
  }

  /** In the graph that was built for a well-formed function, all execution paths run from the entry along edges through
      blocks if and only if every unconditional jump that is ever executed ends a block. */
  lemma GraphPathsExactly(prog: Prog, f: FuncNode)
    requires Built(prog, f) && WellFormed(prog, f.start, f.end)
    ensures ReachableJumpsEndBlocks(prog, f.start, f.end) <==>
            forall p :: IsPath(prog, f.start, f.end, p) ==> InGraph(f.bbs, p)
  {
    var bl := Blocks(prog, f.start, f.end);
    forall p | IsPath(prog, f.start, f.end, p)
      ensures InGraph(f.bbs, p) <==> exists bp :: Covers(prog, bl, bp, p)
    {
      if bp :| Covers(prog, bl, bp, p) {
        CoveredInGraph(prog, f.bbs, bl, bp, p);
      }
      if ns :| RunsThrough(f.bbs, ns, p) {
        var bp := InGraphCovered(prog, f.bbs, bl, ns, p);
      }
    }
    PathsExactly(prog, f.start, f.end);
  }

  // ---------- The program ----------

  ghost predicate AllWellFormed(prog: Prog, fs: seq<Piece>) {
    forall k :: 0 <= k < |fs| ==> WellFormed(prog, fs[k].head, fs[k].tail)
  }

  /** The instructions of the blocks of one function, block by block. */
  ghost function FuncText(prog: Prog, f: Piece): (r: Prog)
    requires WellFormed(prog, f.head, f.tail)
    ensures r == prog[f.head..f.tail + 1]
  {
    BlocksTile(prog, f.head, f.tail);
    var bl := Blocks(prog, f.head, f.tail);
    TilesConcat(prog, bl, f.head, f.tail, |bl|);
    Concat(prog, bl, |bl|)
  }

  ghost function ProgramText(prog: Prog, fs: seq<Piece>, n: nat): Prog
    requires AllWellFormed(prog, fs) && n <= |fs|
  {
    if n == 0 then [] else ProgramText(prog, fs, n - 1) + FuncText(prog, fs[n - 1])
  }

  lemma {:induction false} TextIsConcat(prog: Prog, fs: seq<Piece>, n: nat)
    requires AllWellFormed(prog, fs) && n <= |fs|
    ensures ProgramText(prog, fs, n) == Concat(prog, fs, n)
  {
    if n > 0 {
      TextIsConcat(prog, fs, n - 1);
    }
  }

  /** Every instruction is in exactly one block of one function: the blocks of all functions, in order, are the
      program again. */
  lemma ProgramRestored(prog: Prog)
    requires prog != [] && TargetsInside(prog) && AllWellFormed(prog, Pieces(StartsTo(prog, |prog|), |prog| - 1))
    ensures var fs := Pieces(StartsTo(prog, |prog|), |prog| - 1); ProgramText(prog, fs, |fs|) == prog
  {
    var fs := Pieces(StartsTo(prog, |prog|), |prog| - 1);
    FunctionsTile(prog);
    TextIsConcat(prog, fs, |fs|);
    TilesConcat(prog, fs, 0, |prog| - 1, |fs|);
    assert prog[0..|prog|] == prog;
  }
}
