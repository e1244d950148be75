/**
 The graph simulates execution: every step stays in a block or follows an edge from its tail to a head, so every
 execution path is a path of blocks from the entry.
 */
module CfgSimulation {
  import opened Wrappers
  import opened CfgSpec

  predicate InBlock(bl: seq<Piece>, k: nat, i: int) {
    k < |bl| && bl[k].head <= i <= bl[k].tail
  }

  /** Tiles that begin before k end before k does. */
  lemma {:induction false} TilesOrdered(ps: seq<Piece>, lo: int, hi: int, j: nat, k: nat)
    requires Tiles(ps, lo, hi) && j < k < |ps|
    ensures ps[j].tail < ps[k].head
    decreases k
  {
    if j + 1 < k {
      TilesOrdered(ps, lo, hi, j, k - 1);
    }
  }

  lemma {:induction false} TileOf(ps: seq<Piece>, lo: int, hi: int, i: int, n: nat) returns (k: nat)
    requires Tiles(ps, lo, hi) && n < |ps| && lo <= i <= ps[n].tail
    ensures InBlock(ps, k, i)
  {
    if ps[n].head <= i {
      k := n;
    } else {
      k := TileOf(ps, lo, hi, i, n - 1);
    }
  }

  /** The blocks' heads are the leaders, and a jump to a leader finds its block. */
  lemma LeaderHasBlock(prog: Prog, start: int, end: int, x: int) returns (m: nat)
    requires WellFormed(prog, start, end) && IsLeader(prog, start, end + 1, x)
    ensures var bl := Blocks(prog, start, end);
            m < |bl| && bl[m].head == x && JumpTo(bl, x) == Some(Block(m))
  {
    var bl := Blocks(prog, start, end);
    HeadsExact(prog, start, end + 1);
    var hs := HeadsTo(prog, start, end + 1);
    assert x in hs;
    var j :| 0 <= j < |hs| && hs[j] == x;
    assert bl[j].head == x;
    m := FindHead(bl, x);
  }

  /** No leader lies inside a block. */
  lemma LeaderNotInside(prog: Prog, start: int, end: int, k: nat, x: int)
    requires WellFormed(prog, start, end) && k < |Blocks(prog, start, end)| && IsLeader(prog, start, end + 1, x)
    ensures var b := Blocks(prog, start, end)[k]; !(b.head < x <= b.tail)
  {
    var bl := Blocks(prog, start, end);
    BlocksTile(prog, start, end);
    var m := LeaderHasBlock(prog, start, end, x);
    if m < k {
      TilesOrdered(bl, start, end, m, k);
    } else if k < m {
      TilesOrdered(bl, start, end, k, m);
    }
  }

  lemma TailInRange(prog: Prog, start: int, end: int, k: nat)
    requires WellFormed(prog, start, end) && k < |Blocks(prog, start, end)|
    ensures var bl := Blocks(prog, start, end);
            && start <= bl[k].head <= bl[k].tail <= end
            && (bl[k].tail == end <==> k == |bl| - 1)
  {
    var bl := Blocks(prog, start, end);
    BlocksTile(prog, start, end);
    TilesBounds(bl, start, end, 0);
    if k < |bl| - 1 {
      TilesOrdered(bl, start, end, k, |bl| - 1);
    }
  }

  /** What it is for the graph to account for the step from i to j: it stays in the block, or it goes from the
      block's tail along an edge to the head of a block. */
  ghost predicate Simulated(prog: Prog, bl: seq<Piece>, k: nat, i: int, j: int)
    requires k < |bl| && 0 <= bl[k].tail < |prog|
  {
    || (i < bl[k].tail && j == i + 1)
    || (i == bl[k].tail && exists m :: 0 <= m < |bl| && bl[m].head == j && Joined(prog, bl, k, Block(m)))
  }

  lemma FallJoined(prog: Prog, start: int, end: int, k: nat)
    requires WellFormed(prog, start, end)
    requires var bl := Blocks(prog, start, end);
             k < |bl| && 0 <= bl[k].tail < |prog| && !prog[bl[k].tail].Ja? && bl[k].tail < end
    ensures var bl := Blocks(prog, start, end);
            k + 1 < |bl| && bl[k + 1].head == bl[k].tail + 1 && Joined(prog, bl, k, Block(k + 1))
  {
    var bl := Blocks(prog, start, end);
    BlocksTile(prog, start, end);
    TailInRange(prog, start, end, k);
    assert Arrow(FallTo(bl, k), true, false) == Arrows(prog, bl, k)[0];
  }

  lemma JumpJoined(prog: Prog, start: int, end: int, k: nat) returns (m: nat)
    requires WellFormed(prog, start, end)
    requires var bl := Blocks(prog, start, end);
             k < |bl| && start <= bl[k].tail <= end && IsJump(prog[bl[k].tail])
    ensures var bl := Blocks(prog, start, end);
            m < |bl| && bl[m].head == Target(prog, bl[k].tail) && Joined(prog, bl, k, Block(m))
  {
    var bl := Blocks(prog, start, end);
    var tail := bl[k].tail;
    assert MakesLeader(prog, tail, Target(prog, tail));
    m := LeaderHasBlock(prog, start, end, Target(prog, tail));
    var a := Arrow(JumpTo(bl, Target(prog, tail)), false, true);
    var arrows := Arrows(prog, bl, k);
    assert a == arrows[|arrows| - 1];
  }

  /** The instruction is not an unconditional jump in the middle of a block. */
  predicate EndsBlock(prog: Prog, start: int, end: int, i: int)
    requires 0 <= start <= end < |prog| && start <= i <= end
  {
    prog[i].Ja? && i < end ==> IsLeader(prog, start, end + 1, i + 1)
  }

  /** Every step of an instruction that is not an unconditional jump in the middle of a block is simulated. */
  lemma StepSimulated(prog: Prog, start: int, end: int, k: nat, i: int, j: int)
    requires WellFormed(prog, start, end) && start <= i <= end && EndsBlock(prog, start, end, i)
    requires InBlock(Blocks(prog, start, end), k, i) && Step(prog, i, j)
    ensures start <= j <= end
    ensures 0 <= Blocks(prog, start, end)[k].tail < |prog| && Simulated(prog, Blocks(prog, start, end), k, i, j)
  {
    var bl := Blocks(prog, start, end);
    TailInRange(prog, start, end, k);
    if IsJump(prog[i]) && i < end {
      assert prog[i].Cond? ==> MakesLeader(prog, i, i + 1);
      LeaderNotInside(prog, start, end, k, i + 1);
    }
    if i == bl[k].tail {
      if j == i + 1 && !prog[i].Ja? {
        FallJoined(prog, start, end, k);
      } else {
        var m := JumpJoined(prog, start, end, k);
      }
    }
  }

  /** The hypothesis is what it takes: the graph simulates every step of a well-formed function exactly when its
      unconditional jumps end blocks. */
  lemma SimulationCriterion(prog: Prog, start: int, end: int)
    requires WellFormed(prog, start, end)
    ensures JumpsEndBlocks(prog, start, end) <==>
            forall k: nat, i, j :: start <= i <= end && InBlock(Blocks(prog, start, end), k, i) && Step(prog, i, j) ==>
              0 <= Blocks(prog, start, end)[k].tail < |prog| && Simulated(prog, Blocks(prog, start, end), k, i, j)
  {
    var bl := Blocks(prog, start, end);
    if JumpsEndBlocks(prog, start, end) {
      forall k: nat, i, j | start <= i <= end && InBlock(bl, k, i) && Step(prog, i, j)
        ensures 0 <= bl[k].tail < |prog| && Simulated(prog, bl, k, i, j)
      {
        StepSimulated(prog, start, end, k, i, j);
      }
    } else {
      var i :| start <= i < end && prog[i].Ja? && !IsLeader(prog, start, end + 1, i + 1);
      BlocksTile(prog, start, end);
      var k := TileOf(bl, start, end, i, |bl| - 1);
      UnsimulatedJump(prog, start, end, k, i);
      assert InBlock(bl, k, i) && Step(prog, i, Target(prog, i));
    }
  }

  /** There are such functions: a jump over an unreachable instruction to an exit. */
  lemma DeadCodeUnsimulated()
    ensures var prog := [Ja(1), Plain, Exit];
            && WellFormed(prog, 0, 2) && !JumpsEndBlocks(prog, 0, 2)
            && exists k: nat :: k < |Blocks(prog, 0, 2)| && InBlock(Blocks(prog, 0, 2), k, 0)
                                && 0 <= Blocks(prog, 0, 2)[k].tail < |prog|
                                && !Simulated(prog, Blocks(prog, 0, 2), k, 0, 2)
  {
    var prog := [Ja(1), Plain, Exit];
    assert Target(prog, 0) == 2 && !IsLeader(prog, 0, 3, 1);
    BlocksTile(prog, 0, 2);
    var k := TileOf(Blocks(prog, 0, 2), 0, 2, 0, |Blocks(prog, 0, 2)| - 1);
    UnsimulatedJump(prog, 0, 2, k, 0);
  }

  lemma LeaderAfterTail(prog: Prog, start: int, end: int, k: nat)
    requires WellFormed(prog, start, end) && k < |Blocks(prog, start, end)|
    ensures var t := Blocks(prog, start, end)[k].tail; t < end ==> IsLeader(prog, start, end + 1, t + 1)
  {
    TailInRange(prog, start, end, k);
    if Blocks(prog, start, end)[k].tail < end {
      var hs := HeadsTo(prog, start, end + 1);
      assert IsLeader(prog, start, end + 1, hs[k + 1]) by {
        HeadsExact(prog, start, end + 1);
        assert hs[k + 1] in hs;
      }
    }
  }

  /** A jump with dead code behind it is not at the tail of its block, and the graph misses it. */
  lemma UnsimulatedJump(prog: Prog, start: int, end: int, k: nat, i: int)
    requires WellFormed(prog, start, end) && start <= i < end && prog[i].Ja? && !IsLeader(prog, start, end + 1, i + 1)
    requires InBlock(Blocks(prog, start, end), k, i)
    ensures var bl := Blocks(prog, start, end);
            0 <= bl[k].tail < |prog| && !Simulated(prog, bl, k, i, Target(prog, i))
  {
    var bl := Blocks(prog, start, end);
    TailInRange(prog, start, end, k);
    LeaderAfterTail(prog, start, end, k);
    assert MakesLeader(prog, i, Target(prog, i));
    assert IsLeader(prog, start, end + 1, Target(prog, i));
  }

  /** Without unreachable instructions, control leaves a block only at its tail and enters one only at its head. */
  lemma TransfersAtEnds(prog: Prog, start: int, end: int, k: nat, i: int)
    requires WellFormed(prog, start, end) && forall r :: start <= r <= end ==> Reachable(prog, start, end, r)
    requires start <= i <= end && InBlock(Blocks(prog, start, end), k, i) && (IsJump(prog[i]) || prog[i].Exit?)
    ensures i == Blocks(prog, start, end)[k].tail
    ensures IsJump(prog[i]) ==>
              exists m :: 0 <= m < |Blocks(prog, start, end)| && Blocks(prog, start, end)[m].head == Target(prog, i)
  {
    TailInRange(prog, start, end, k);
    if i < Blocks(prog, start, end)[k].tail {
      TransfersEndBlocks(prog, start, end, i);
      LeaderNotInside(prog, start, end, k, i + 1);
    }
    if IsJump(prog[i]) {
      assert MakesLeader(prog, i, Target(prog, i));
      var m := LeaderHasBlock(prog, start, end, Target(prog, i));
    }
  }

  /** Exactly which blocks are joined: those that a step from the tail leads to, and two kinds more.  A block
      that ends in an exit is joined to the next one, and a block that ends in a call to whatever block begins
      where the call's offset points. */
  lemma EdgesExact(prog: Prog, start: int, end: int, k: nat, m: nat)
    requires WellFormed(prog, start, end) && k < |Blocks(prog, start, end)| && m < |Blocks(prog, start, end)|
    ensures var bl := Blocks(prog, start, end);
            var t := bl[k].tail;
            && 0 <= t < |prog|
            && (Joined(prog, bl, k, Block(m)) <==>
                  || Step(prog, t, bl[m].head)
                  || (prog[t].Exit? && m == k + 1)
                  || (prog[t].Call? && bl[m].head == Target(prog, t)))
  {
    var bl := Blocks(prog, start, end);
    TailInRange(prog, start, end, k);
    BlocksTile(prog, start, end);
    var t := bl[k].tail;
    var arrows := Arrows(prog, bl, k);
    HeadsDiffer(bl, start, end, m, k + 1);
    if !prog[t].Plain? && !prog[t].Exit? {
      var f := FindHead(bl, Target(prog, t));
      if f < |bl| {
        HeadsDiffer(bl, start, end, m, f);
      }
      assert arrows[|arrows| - 1] == Arrow(JumpTo(bl, Target(prog, t)), false, true);
      assert arrows[|arrows| - 1] in arrows;
    }
    if !prog[t].Ja? {
      assert arrows[0] == Arrow(FallTo(bl, k), true, false);
      assert arrows[0] in arrows;
    }
  }

  lemma HeadsDiffer(bl: seq<Piece>, lo: int, hi: int, m: nat, f: nat)
    requires Tiles(bl, lo, hi) && m < |bl|
    ensures f < |bl| && bl[m].head == bl[f].head ==> m == f
  {
    if f < |bl| {
      if m < f {
        TilesOrdered(bl, lo, hi, m, f);
      } else if f < m {
        TilesOrdered(bl, lo, hi, f, m);
      }
    }
  }

  // ---------- Paths ----------

  function Range(a: int, b: int): seq<int> {
    if b < a then [] else seq(b - a + 1, i requires 0 <= i => a + i)
  }

  /** A path of blocks that begins where the entry block leads. */
  ghost predicate IsBlockPath(prog: Prog, bl: seq<Piece>, bp: seq<nat>) {
    && bp != [] && bp[0] == 0
    && (forall x :: 0 <= x < |bp| ==> bp[x] < |bl| && 0 <= bl[bp[x]].tail < |prog|)
    && forall x :: 0 <= x < |bp| - 1 ==> Joined(prog, bl, bp[x], Block(bp[x + 1]))
  }

  /** The instructions of a list of blocks, each run from head to tail. */
  function Trace(bl: seq<Piece>, bp: seq<nat>): seq<int>
    requires forall x :: 0 <= x < |bp| ==> bp[x] < |bl|
  {
    if bp == [] then []
    else Trace(bl, bp[..|bp| - 1]) + Range(bl[bp[|bp| - 1]].head, bl[bp[|bp| - 1]].tail)
  }

  /** p runs through all of the blocks bp but the last, and into the last. */
  ghost predicate Covers(prog: Prog, bl: seq<Piece>, bp: seq<nat>, p: seq<int>) {
    && IsBlockPath(prog, bl, bp) && p != []
    && var k := bp[|bp| - 1];
    && InBlock(bl, k, p[|p| - 1])
    && p == Trace(bl, bp[..|bp| - 1]) + Range(bl[k].head, p[|p| - 1])
  }

  /** Every unconditional jump that is ever executed ends a block. */
  ghost predicate ReachableJumpsEndBlocks(prog: Prog, start: int, end: int)
    requires 0 <= start <= end < |prog|
  {
    forall i :: start <= i <= end && Reachable(prog, start, end, i) ==> EndsBlock(prog, start, end, i)
  }

  /** Every execution path from the start of the function is a path of blocks, each run through from head to
      tail, followed by a beginning of one more block. */
  lemma {:induction false} PathsAreBlockPaths(prog: Prog, start: int, end: int, p: seq<int>) returns (bp: seq<nat>)
    requires WellFormed(prog, start, end) && ReachableJumpsEndBlocks(prog, start, end) && IsPath(prog, start, end, p)
    ensures Covers(prog, Blocks(prog, start, end), bp, p)
    decreases |p|
  {
    if |p| == 1 {
      bp := [0];
      CoverStart(prog, start, end);
      assert p == [start];
    } else {
      var q := p[..|p| - 1];
      PathPrefix(prog, start, end, p);
      var bq := PathsAreBlockPaths(prog, start, end, q);
      assert Reachable(prog, start, end, q[|q| - 1]);
      bp := CoverStep(prog, start, end, bq, q, p[|p| - 1]);
    }
  }

  /** The hypothesis is what it takes: all execution paths are paths of blocks if and only if every unconditional jump
      that is ever executed ends a block. */
  lemma PathsExactly(prog: Prog, start: int, end: int)
    requires WellFormed(prog, start, end)
    ensures ReachableJumpsEndBlocks(prog, start, end) <==>
            forall p :: IsPath(prog, start, end, p) ==> exists bp :: Covers(prog, Blocks(prog, start, end), bp, p)
  {
    var bl := Blocks(prog, start, end);
    if ReachableJumpsEndBlocks(prog, start, end) {
      forall p | IsPath(prog, start, end, p) ensures exists bp :: Covers(prog, bl, bp, p) {
        var bp := PathsAreBlockPaths(prog, start, end, p);
      }
    } else {
      var i :| start <= i <= end && Reachable(prog, start, end, i) && !EndsBlock(prog, start, end, i);
      var q :| IsPath(prog, start, end, q) && q[|q| - 1] == i;
      var j := Target(prog, i);
      PathSnoc(prog, start, end, q, j);
      forall bp ensures !Covers(prog, bl, bp, q + [j]) {
        JumpUncovered(prog, start, end, bp, q, j);
      }
      assert IsPath(prog, start, end, q + [j]);
    }
  }

  lemma PathSnoc(prog: Prog, start: int, end: int, q: seq<int>, j: int)
    requires IsPath(prog, start, end, q) && start <= j <= end && Step(prog, q[|q| - 1], j)
    ensures IsPath(prog, start, end, q + [j])
  {
    var p := q + [j];
    forall x | 0 <= x < |p| - 1 ensures Step(prog, p[x], p[x + 1]) {
      assert x < |q| - 1 ==> Step(prog, q[x], q[x + 1]);
    }
  }

  /** The last two instructions of a covered path are neighbours in a block, or the first is the tail of one. */
  lemma LastStep(prog: Prog, bl: seq<Piece>, bp: seq<nat>, q: seq<int>, j: int) returns (k: nat)
    requires Covers(prog, bl, bp, q + [j]) && q != [] && forall b :: 0 <= b < |bl| ==> bl[b].head <= bl[b].tail
    ensures j == q[|q| - 1] + 1 || (k < |bl| && bl[k].tail == q[|q| - 1])
  {
    var p, before, last := q + [j], bp[..|bp| - 1], bp[|bp| - 1];
    var h := bl[last].head;
    assert p[|p| - 1] == j;
    k := 0;
    if h < j {
      RangeSnoc(h, j);
      Regroup(Trace(bl, before), Range(h, j - 1), [j]);
      SameFront(q, Trace(bl, before) + Range(h, j - 1), j);
      assert q[|q| - 1] == Range(h, j - 1)[j - 1 - h];
    } else {
      assert Range(h, j) == [j];
      SameFront(q, Trace(bl, before), j);
      k := before[|before| - 1];
      TraceSnoc(bl, before, before[..|before| - 1]);
    }
  }

  lemma SameFront(a: seq<int>, b: seq<int>, j: int)
    requires a + [j] == b + [j]
    ensures a == b
  {
    assert a == (a + [j])[..|a|] && b == (b + [j])[..|b|];
  }

  lemma NotATail(prog: Prog, start: int, end: int, i: int, k: nat)
    requires WellFormed(prog, start, end) && start <= i <= end && !EndsBlock(prog, start, end, i)
    ensures Target(prog, i) != i + 1 && (k < |Blocks(prog, start, end)| ==> Blocks(prog, start, end)[k].tail != i)
  {
    assert MakesLeader(prog, i, Target(prog, i));
    if k < |Blocks(prog, start, end)| {
      LeaderAfterTail(prog, start, end, k);
    }
  }

  /** A jump from the middle of a block is not covered. */
  lemma JumpUncovered(prog: Prog, start: int, end: int, bp: seq<nat>, q: seq<int>, j: int)
    requires WellFormed(prog, start, end) && q != [] && start <= q[|q| - 1] <= end
    requires !EndsBlock(prog, start, end, q[|q| - 1]) && j == Target(prog, q[|q| - 1])
    ensures !Covers(prog, Blocks(prog, start, end), bp, q + [j])
  {
    var bl, i := Blocks(prog, start, end), q[|q| - 1];
    assert forall b :: 0 <= b < |bl| ==> bl[b].head <= bl[b].tail by {
      BlocksTile(prog, start, end);
    }
    if Covers(prog, bl, bp, q + [j]) {
      var k := LastStep(prog, bl, bp, q, j);
      NotATail(prog, start, end, i, k);
    }
  }

  lemma PathPrefix(prog: Prog, start: int, end: int, p: seq<int>)
    requires IsPath(prog, start, end, p) && |p| > 1
    ensures var q := p[..|p| - 1];
            && IsPath(prog, start, end, q) && start <= q[|q| - 1] <= end
            && Step(prog, q[|q| - 1], p[|p| - 1]) && p == q + [p[|p| - 1]]
  {
  }

  lemma CoverStart(prog: Prog, start: int, end: int)
    requires WellFormed(prog, start, end)
    ensures Covers(prog, Blocks(prog, start, end), [0], [start])
  {
    BlocksTile(prog, start, end);
    TailInRange(prog, start, end, 0);
    assert Range(start, start) == [start];
  }

  /** One more step of a covered path. */
  lemma CoverStep(prog: Prog, start: int, end: int, bq: seq<nat>, q: seq<int>, j: int) returns (bp: seq<nat>)
    requires WellFormed(prog, start, end) && q != [] && start <= q[|q| - 1] <= end
    requires EndsBlock(prog, start, end, q[|q| - 1])
    requires Covers(prog, Blocks(prog, start, end), bq, q) && Step(prog, q[|q| - 1], j)
    ensures Covers(prog, Blocks(prog, start, end), bp, q + [j])
  {
    var bl := Blocks(prog, start, end);
    var k, i := bq[|bq| - 1], q[|q| - 1];
    StepSimulated(prog, start, end, k, i, j);
    if i < bl[k].tail {
      bp := bq;
      CoverOneMore(prog, bl, bq, q, j);
    } else {
      var m :| 0 <= m < |bl| && bl[m].head == j && Joined(prog, bl, k, Block(m));
      TailInRange(prog, start, end, m);
      bp := bq + [m];
      CoverNextBlock(prog, bl, bq, q, m);
    }
  }

  lemma CoverOneMore(prog: Prog, bl: seq<Piece>, bp: seq<nat>, p: seq<int>, j: int)
    requires Covers(prog, bl, bp, p) && j == p[|p| - 1] + 1 <= bl[bp[|bp| - 1]].tail
    ensures Covers(prog, bl, bp, p + [j])
  {
    var h := bl[bp[|bp| - 1]].head;
    RangeSnoc(h, j);
    Regroup(Trace(bl, bp[..|bp| - 1]), Range(h, j - 1), [j]);
  }

  lemma RangeSnoc(h: int, j: int)
    requires h < j
    ensures Range(h, j) == Range(h, j - 1) + [j]
  {
  }

  lemma Regroup(a: seq<int>, b: seq<int>, c: seq<int>)
    ensures a + (b + c) == (a + b) + c
  {
  }

  lemma CoverNextBlock(prog: Prog, bl: seq<Piece>, bp: seq<nat>, p: seq<int>, m: nat)
    requires Covers(prog, bl, bp, p) && p[|p| - 1] == bl[bp[|bp| - 1]].tail && m < |bl|
    requires Joined(prog, bl, bp[|bp| - 1], Block(m)) && bl[m].head <= bl[m].tail && 0 <= bl[m].tail < |prog|
    ensures Covers(prog, bl, bp + [m], p + [bl[m].head])
  {
    var bp' := bp + [m];
    BlockPathSnoc(prog, bl, bp, m);
    TraceSnoc(bl, bp, bp[..|bp| - 1]);
    assert bp'[..|bp'| - 1] == bp;
    assert Range(bl[m].head, bl[m].head) == [bl[m].head];
  }

  lemma TraceSnoc(bl: seq<Piece>, bp: seq<nat>, before: seq<nat>)
    requires bp != [] && before == bp[..|bp| - 1] && forall x :: 0 <= x < |bp| ==> bp[x] < |bl|
    ensures var b := bl[bp[|bp| - 1]]; Trace(bl, bp) == Trace(bl, before) + Range(b.head, b.tail)
  {
  }

  lemma BlockPathSnoc(prog: Prog, bl: seq<Piece>, bp: seq<nat>, m: nat)
    requires IsBlockPath(prog, bl, bp) && m < |bl| && 0 <= bl[m].tail < |prog|
    requires Joined(prog, bl, bp[|bp| - 1], Block(m))
    ensures IsBlockPath(prog, bl, bp + [m])
  {
  }
}
