/**
 The control-flow graph in memory: functions and blocks are inserted into ordered lists, tails and numbers are
 filled in, and edges are appended, as `CfgSpec` says.
 */
module CfgBuild {
  import opened Wrappers
  import opened CfgSpec

  const ENTRY_BLOCK_INDEX := 0
  const EXIT_BLOCK_INDEX := 1
  const NUM_FIXED_BLOCKS := 2

  const EDGE_FLAG_FALLTHROUGH := 1
  const EDGE_FLAG_JUMP := 2

  datatype Edge = Edge(src: BbNode, dst: BbNode?, flags: int)

  /** A basic block; the pointers of the entry and the exit are null. */
  class BbNode {
    var head: Option<int>
    var tail: Option<int>
    var idx: int
    var ePrevs: seq<Edge>
    var eSuccs: seq<Edge>

    constructor (head: Option<int>, idx: int)
      ensures this.head == head && tail == None && this.idx == idx && ePrevs == [] && eSuccs == []
    {
      this.head, tail, this.idx, ePrevs, eSuccs := head, None, idx, [], [];
    }
  }

  // ---------- Insertion into an ordered list ----------

  lemma {:induction false} AddedAt(s: seq<int>, x: int, i: nat)
    requires i <= |s| && (forall j :: 0 <= j < i ==> s[j] < x) && (i < |s| ==> x < s[i])
    ensures Added(s, x) == s[..i] + [x] + s[i..]
  {
    if i > 0 {
      AddedAt(s[1..], x, i - 1);
      assert s[1..][..i - 1] == s[1..i] && s[1..][i - 1..] == s[i..];
      assert [s[0]] + (s[1..i] + [x] + s[i..]) == s[..i] + [x] + s[i..];
    }
  }

  lemma {:induction false} AddedThere(s: seq<int>, x: int, i: nat)
    requires i < |s| && (forall j :: 0 <= j < i ==> s[j] < x) && x == s[i]
    ensures Added(s, x) == s
  {
    if i > 0 {
      AddedThere(s[1..], x, i - 1);
    }
  }

  // ---------- Lists of blocks ----------

  ghost predicate HasHeads(bbs: seq<BbNode>, heads: seq<int>)
    reads bbs`head
  {
    |bbs| == |heads| && forall k :: 0 <= k < |bbs| ==> bbs[k].head == Some(heads[k])
  }

  ghost predicate NoEdges(bbs: seq<BbNode>)
    reads bbs`ePrevs, bbs`eSuccs
  {
    forall k :: 0 <= k < |bbs| ==> bbs[k].ePrevs == [] && bbs[k].eSuccs == []
  }

  /** The block and its number are what the pieces say. */
  ghost predicate IsBlock(bb: BbNode, bl: seq<Piece>, k: nat)
    requires k < |bl|
    reads bb
  {
    bb.head == Some(bl[k].head) && bb.tail == Some(bl[k].tail) && bb.idx == NUM_FIXED_BLOCKS + k
  }

  ghost predicate HasBlocks(bbs: seq<BbNode>, bl: seq<Piece>)
    reads bbs
  {
    |bbs| == |bl| && forall k :: 0 <= k < |bbs| ==> IsBlock(bbs[k], bl, k)
  }

  /** A new block in its place. */
  lemma BbInserted(bbs: seq<BbNode>, heads: seq<int>, bb: BbNode, insn: int, i: nat)
    requires HasHeads(bbs, heads) && NoEdges(bbs) && i <= |bbs|
    requires bb.head == Some(insn) && bb.ePrevs == [] && bb.eSuccs == []
    requires (forall j :: 0 <= j < i ==> heads[j] < insn) && (i < |bbs| ==> insn < heads[i])
    ensures var more := bbs[..i] + [bb] + bbs[i..];
            && HasHeads(more, Added(heads, insn)) && NoEdges(more)
            && forall k :: 0 <= k < |more| ==> more[k] == bb || more[k] in bbs
  {
    AddedAt(heads, insn, i);
  }

  ghost predicate IsClosed(bb: BbNode, head: int, tail: int)
    reads bb`head, bb`tail
  {
    bb.head == Some(head) && bb.tail == Some(tail)
  }

  /** Block k is in the list only once. */
  predicate BbApart(bbs: seq<BbNode>, k: nat)
    requires k < |bbs|
  {
    forall j :: 0 <= j < |bbs| && j != k ==> bbs[j] != bbs[k]
  }

  lemma HeadsApart(bbs: seq<BbNode>, heads: seq<int>)
    requires HasHeads(bbs, heads) && Sorted(heads)
    ensures forall k :: 0 <= k < |bbs| ==> BbApart(bbs, k)
    ensures bbs != [] ==> bbs[|bbs| - 1] !in bbs[..|bbs| - 1]
  {
  }

  ghost predicate IsSpecial(bb: BbNode, idx: int)
    reads bb
  {
    bb.head == None && bb.tail == None && bb.idx == idx
  }

  /** The blocks between the entry and the exit. */
  ghost predicate HasNodes(bbs: seq<BbNode>, bl: seq<Piece>)
    reads bbs
  {
    && |bbs| == |bl| + 2
    && IsSpecial(bbs[0], ENTRY_BLOCK_INDEX) && IsSpecial(bbs[|bl| + 1], EXIT_BLOCK_INDEX)
    && forall i :: 1 <= i <= |bl| ==> IsBlock(bbs[i], bl, i - 1)
  }

  function At(bbs: seq<BbNode>, n: Node): BbNode
    requires |bbs| > 1 && (n.Block? ==> n.k + 1 < |bbs|)
  {
    match n
    case Entry => bbs[0]
    case Leave => bbs[|bbs| - 1]
    case Block(k) => bbs[k + 1]
  }

  predicate ArrowFits(a: Arrow, n: nat) {
    a.dst.Some? && a.dst.value.Block? ==> a.dst.value.k < n
  }

  function EdgeOf(bbs: seq<BbNode>, src: BbNode, a: Arrow): Edge
    requires |bbs| > 1 && ArrowFits(a, |bbs| - 2)
  {
    Edge(src, if a.dst.None? then null else At(bbs, a.dst.value),
         (if a.falls then EDGE_FLAG_FALLTHROUGH else 0) + (if a.jumps then EDGE_FLAG_JUMP else 0))
  }

  lemma ArrowsFit(prog: Prog, bl: seq<Piece>, k: nat)
    requires k < |bl| && 0 <= bl[k].tail < |prog|
    ensures var arrows := Arrows(prog, bl, k);
            0 < |arrows| <= 2 && ArrowFits(arrows[0], |bl|) && ArrowFits(arrows[|arrows| - 1], |bl|)
  {
  }

  /** Exactly the edges of block k. */
  ghost predicate HasEdges(prog: Prog, bbs: seq<BbNode>, bb: BbNode, bl: seq<Piece>, k: nat)
    requires |bbs| == |bl| + 2 && k < |bl| && 0 <= bl[k].tail < |prog|
    reads bb
  {
    ArrowsFit(prog, bl, k);
    var arrows := Arrows(prog, bl, k);
    && bb.ePrevs == []
    && bb.eSuccs == if |arrows| == 1 then [EdgeOf(bbs, bb, arrows[0])]
                    else [EdgeOf(bbs, bb, arrows[0]), EdgeOf(bbs, bb, arrows[1])]
  }

  predicate TailsInside(prog: Prog, bl: seq<Piece>) {
    forall k :: 0 <= k < |bl| ==> 0 <= bl[k].tail < |prog|
  }

  /** The graph of a function whose first i - 1 blocks have their edges: numbered nodes, the edge from the entry,
      the edge to the exit, which only the exit lists, and the blocks' own. */
  ghost predicate GraphUpTo(prog: Prog, bbs: seq<BbNode>, bl: seq<Piece>, i: int)
    requires 1 <= i <= |bl| + 1
    reads bbs
  {
    && bl != [] && TailsInside(prog, bl) && HasNodes(bbs, bl)
    && bbs[0].ePrevs == [] && bbs[0].eSuccs == [Edge(bbs[0], bbs[1], EDGE_FLAG_FALLTHROUGH)]
    && bbs[|bl| + 1].ePrevs == [Edge(bbs[|bl|], bbs[|bl| + 1], EDGE_FLAG_FALLTHROUGH)]
    && bbs[|bl| + 1].eSuccs == []
    && (forall j :: 1 <= j < i ==> HasEdges(prog, bbs, bbs[j], bl, j - 1))
    && forall j :: i <= j <= |bl| ==> bbs[j].ePrevs == [] && bbs[j].eSuccs == []
  }

  /** The whole graph of a function. */
  ghost predicate IsGraph(prog: Prog, bbs: seq<BbNode>, bl: seq<Piece>)
    reads bbs
  {
    GraphUpTo(prog, bbs, bl, |bl| + 1)
  }

  // ---------- Functions ----------

  class FuncNode {
    var start: int
    var end: int
    const idx: int
    var bbNum: int
    var bbs: seq<BbNode>

    constructor (start: int, idx: int)
      ensures this.start == start && this.idx == idx && bbs == []
    {
      this.start, end, this.idx, bbNum, bbs := start, 0, idx, 0, [];
    }

    method AppendBb(insn: int, ghost heads: seq<int>) returns (bb: BbNode)
      requires HasHeads(bbs, heads) && NoEdges(bbs)
      modifies `bbs
      ensures HasHeads(bbs, Added(heads, insn)) && NoEdges(bbs) && bb in bbs && bb.head == Some(insn)
      ensures forall k :: 0 <= k < |bbs| ==> fresh(bbs[k]) || bbs[k] in old(bbs)
    {
      var i := 0;
      while i < |bbs|
        invariant i <= |bbs| && forall j :: 0 <= j < i ==> heads[j] < insn
      {
        if bbs[i].head == Some(insn) {
          AddedThere(heads, insn, i);
          return bbs[i];
        } else if bbs[i].head.value > insn {
          break;
        }
        i := i + 1;
      }
      bb := new BbNode(Some(insn), 0);
      BbInserted(bbs, heads, bb, insn, i);
      bbs := bbs[..i] + [bb] + bbs[i..];
      assert bbs[i] == bb;
    }

    /** Finds the block heads. */
    method PartitionHead(prog: Prog)
      requires 0 <= start <= end < |prog|
      modifies `bbs
      ensures HasHeads(bbs, HeadsTo(prog, start, end + 1)) && NoEdges(bbs)
      ensures forall k :: 0 <= k < |bbs| ==> fresh(bbs[k])
    {
      bbs := [];
      var bb := AppendBb(start, []);
      var cur := start;
      while cur <= end
        invariant start <= cur <= end + 1
        invariant HasHeads(bbs, HeadsTo(prog, start, cur)) && NoEdges(bbs)
        invariant forall k :: 0 <= k < |bbs| ==> fresh(bbs[k])
      {
        if IsJump(prog[cur]) {
          AppendLeaders(prog, cur, HeadsTo(prog, start, cur));
        }
        cur := cur + 1;
      }
    }

    /** The heads that a jump makes. */
    method AppendLeaders(prog: Prog, cur: int, ghost heads: seq<int>)
      requires 0 <= cur < |prog| && IsJump(prog[cur]) && HasHeads(bbs, heads) && NoEdges(bbs)
      modifies `bbs
      ensures NoEdges(bbs) && forall k :: 0 <= k < |bbs| ==> fresh(bbs[k]) || bbs[k] in old(bbs)
      ensures HasHeads(bbs, if prog[cur].Ja? then Added(heads, Target(prog, cur))
                            else Added(Added(heads, Target(prog, cur)), cur + 1))
    {
      var bb := AppendBb(Target(prog, cur), heads);
      if !prog[cur].Ja? {
        bb := AppendBb(cur + 1, Added(heads, Target(prog, cur)));
      }
    }

    /** Fills in the tails and numbers the blocks in order. */
    method PartitionTail(ghost heads: seq<int>)
      requires Sorted(heads) && heads != [] && HasHeads(bbs, heads) && NoEdges(bbs)
      modifies `bbNum, bbs`tail, bbs`idx
      ensures HasBlocks(bbs, Pieces(heads, end)) && NoEdges(bbs)
      ensures bbNum == NUM_FIXED_BLOCKS + |bbs|
    {
      var last := bbs[|bbs| - 1];
      last.tail := Some(end);
      HeadsApart(bbs, heads);
      assert BbApart(bbs, |bbs| - 1);
      var bbIdx := NumberBbs(NUM_FIXED_BLOCKS, heads, Pieces(heads, end));
      NumberLast(last, bbIdx, Pieces(heads, end));
      bbIdx := bbIdx + 1;
      bbNum := bbIdx;
    }

    method NumberLast(last: BbNode, bbIdx: int, ghost bl: seq<Piece>)
      requires |bbs| == |bl| > 0 && last == bbs[|bbs| - 1] && bbIdx == NUM_FIXED_BLOCKS + |bbs| - 1
      requires IsClosed(last, bl[|bl| - 1].head, bl[|bl| - 1].tail)
      requires forall k :: 0 <= k < |bbs| - 1 ==> bbs[k] != last && IsBlock(bbs[k], bl, k)
      modifies last`idx
      ensures HasBlocks(bbs, bl)
    {
      last.idx := bbIdx;
    }

    /** Closes every block but the last where the next one begins. */
    method NumberBbs(first: int, ghost heads: seq<int>, ghost bl: seq<Piece>) returns (bbIdx: int)
      requires first == NUM_FIXED_BLOCKS && heads != [] && HasHeads(bbs, heads) && bl == Pieces(heads, end)
      requires forall k :: 0 <= k < |bbs| ==> BbApart(bbs, k)
      modifies bbs[..|bbs| - 1]`tail, bbs[..|bbs| - 1]`idx
      ensures bbIdx == NUM_FIXED_BLOCKS + |bbs| - 1
      ensures forall k :: 0 <= k < |bbs| - 1 ==> IsBlock(bbs[k], bl, k)
    {
      bbIdx := first;
      var i := 0;
      while i < |bbs| - 1
        invariant 0 <= i < |bbs| && bbIdx == NUM_FIXED_BLOCKS + i
        invariant forall k :: 0 <= k < i ==> IsBlock(bbs[k], bl, k)
      {
        assert bbs[i + 1].head == Some(heads[i + 1]) && BbApart(bbs, i);
        bbs[i].tail := Some(bbs[i + 1].head.value - 1);
        bbs[i].idx := bbIdx;
        bbIdx := bbIdx + 1;
        i := i + 1;
      }
    }

    /** Adds the entry and the exit. */
    method AddSpecialBb(ghost bl: seq<Piece>)
      requires HasBlocks(bbs, bl) && NoEdges(bbs)
      modifies `bbs
      ensures HasNodes(bbs, bl) && NoEdges(bbs)
      ensures forall k :: 0 <= k < |bbs| ==> fresh(bbs[k]) || bbs[k] in old(bbs)
    {
      var entry := new BbNode(None, ENTRY_BLOCK_INDEX);
      bbs := [entry] + bbs;
      var exit := new BbNode(None, EXIT_BLOCK_INDEX);
      bbs := bbs + [exit];
    }

    method SearchBbWithHead(insn: int, ghost bl: seq<Piece>) returns (bb: BbNode?)
      requires HasNodes(bbs, bl)
      ensures bb == match JumpTo(bl, insn) case None => null case Some(n) => At(bbs, n)
    {
      var i := 0;
      while i < |bbs|
        invariant i <= |bbs|
        invariant forall k :: 0 <= k < |bl| && k + 1 < i ==> bl[k].head != insn
      {
        if bbs[i].head == Some(insn) {
          assert IsBlock(bbs[i], bl, i - 1);
          return bbs[i];
        }
        if 0 < i <= |bl| {
          assert IsBlock(bbs[i], bl, i - 1);
        }
        i := i + 1;
      }
      return null;
    }

    /** The edge from the entry and the edge to the exit. */
    method AddSpecialEdges(prog: Prog, ghost bl: seq<Piece>)
      requires HasNodes(bbs, bl) && NoEdges(bbs) && bl != [] && TailsInside(prog, bl)
      modifies bbs`ePrevs, bbs`eSuccs
      ensures GraphUpTo(prog, bbs, bl, 1)
    {
      var entry, exit := bbs[0], bbs[|bbs| - 1];
      entry.eSuccs := entry.eSuccs + [Edge(entry, bbs[1], EDGE_FLAG_FALLTHROUGH)];
      exit.ePrevs := exit.ePrevs + [Edge(bbs[|bbs| - 2], exit, EDGE_FLAG_FALLTHROUGH)];
    }

    /** The edges out of one block, by its last instruction. */
    method AddSuccessors(prog: Prog, i: int, bb: BbNode, ghost bl: seq<Piece>)
      requires HasNodes(bbs, bl) && 1 <= i <= |bl| && TailsInside(prog, bl)
      requires bb == bbs[i] && bb.ePrevs == [] && bb.eSuccs == []
      modifies bb`eSuccs
      ensures HasEdges(prog, bbs, bb, bl, i - 1)
    {
      var next := bbs[i + 1];
      assert IsBlock(bb, bl, i - 1);
      var insn := bb.tail.value;
      if prog[insn].Plain? || prog[insn].Exit? {
        bb.eSuccs := bb.eSuccs + [Edge(bb, next, EDGE_FLAG_FALLTHROUGH)];
      } else if prog[insn].Ja? {
        var dst := SearchBbWithHead(Target(prog, insn), bl);
        bb.eSuccs := bb.eSuccs + [Edge(bb, dst, EDGE_FLAG_JUMP)];
      } else {
        bb.eSuccs := bb.eSuccs + [Edge(bb, next, EDGE_FLAG_FALLTHROUGH)];
        var dst := SearchBbWithHead(Target(prog, insn), bl);
        bb.eSuccs := bb.eSuccs + [Edge(bb, dst, EDGE_FLAG_JUMP)];
      }
    }

    method AddNextSuccessors(prog: Prog, i: int, bb: BbNode, ghost bl: seq<Piece>)
      requires 1 <= i <= |bl| && GraphUpTo(prog, bbs, bl, i) && bb == bbs[i]
      modifies bb`eSuccs
      ensures GraphUpTo(prog, bbs, bl, i + 1)
    {
      assert forall j :: 0 <= j <= |bl| + 1 && j != i ==> bbs[j] != bb;
      AddSuccessors(prog, i, bb, bl);
    }

    method AddBbEdges(prog: Prog, ghost bl: seq<Piece>)
      requires HasNodes(bbs, bl) && NoEdges(bbs) && bl != [] && TailsInside(prog, bl)
      modifies bbs`ePrevs, bbs`eSuccs
      ensures IsGraph(prog, bbs, bl)
    {
      AddSpecialEdges(prog, bl);
      var i := 1;
      while i < |bbs| - 1
        invariant 1 <= i <= |bl| + 1 && GraphUpTo(prog, bbs, bl, i)
      {
        AddNextSuccessors(prog, i, bbs[i], bl);
        i := i + 1;
      }
    }

    /** Partitions the function into blocks. */
    method PartitionBb(prog: Prog, ghost heads: seq<int>)
      requires 0 <= start <= end < |prog| && heads == HeadsTo(prog, start, end + 1) && Sorted(heads) && heads != []
      modifies `bbs, `bbNum
      ensures HasBlocks(bbs, Pieces(heads, end)) && NoEdges(bbs)
      ensures bbNum == NUM_FIXED_BLOCKS + |bbs|
      ensures forall k :: 0 <= k < |bbs| ==> fresh(bbs[k])
    {
      PartitionHead(prog);
      PartitionTail(heads);
    }

    /** Adds the entry, the exit and the edges. */
    method JoinBbs(prog: Prog, ghost bl: seq<Piece>)
      requires HasBlocks(bbs, bl) && NoEdges(bbs) && bl != [] && TailsInside(prog, bl)
      modifies `bbs, bbs`ePrevs, bbs`eSuccs
      ensures IsGraph(prog, bbs, bl)
      ensures forall k :: 0 <= k < |bbs| ==> fresh(bbs[k]) || bbs[k] in old(bbs)
    {
      AddSpecialBb(bl);
      AddBbEdges(prog, bl);
    }

    /** Partitions the function into blocks and joins them. */
    method BuildGraph(prog: Prog)
      requires 0 <= start <= end < |prog| && TargetsInside(prog)
      modifies `bbs, `bbNum
      ensures Built(prog, this) && forall k :: 0 <= k < |bbs| ==> fresh(bbs[k])
    {
      BlocksInside(prog, start, end);
      HeadsExact(prog, start, end + 1);
      PartitionBb(prog, HeadsTo(prog, start, end + 1));
      JoinBbs(prog, Blocks(prog, start, end));
    }
  }

  /** Calls and jumps lead into the program. */
  ghost predicate TargetsInside(prog: Prog) {
    forall i :: 0 <= i < |prog| && (IsJump(prog[i]) || (prog[i].Call? && prog[i].pseudo)) ==>
      0 <= Target(prog, i) < |prog|
  }

  lemma BlocksInside(prog: Prog, start: int, end: int)
    requires 0 <= start <= end < |prog| && TargetsInside(prog)
    ensures TailsInside(prog, Blocks(prog, start, end))
  {
    var bl, hs := Blocks(prog, start, end), HeadsTo(prog, start, end + 1);
    forall k | 0 <= k < |bl| ensures 0 <= bl[k].tail < |prog| {
      if k + 1 < |bl| {
        HeadInside(prog, start, end, k);
        HeadInside(prog, start, end, k + 1);
        HeadsExact(prog, start, end + 1);
        assert hs[k] < hs[k + 1];
      }
    }
  }

  lemma HeadInside(prog: Prog, start: int, end: int, k: nat)
    requires 0 <= start <= end < |prog| && TargetsInside(prog) && k < |HeadsTo(prog, start, end + 1)|
    ensures 0 <= HeadsTo(prog, start, end + 1)[k] <= |prog|
  {
    HeadsExact(prog, start, end + 1);
    var hs := HeadsTo(prog, start, end + 1);
    assert hs[k] in hs;
  }

  /** The function's graph is the one its instructions call for. */
  ghost predicate Built(prog: Prog, f: FuncNode)
    reads f, f.bbs
  {
    && 0 <= f.start <= f.end < |prog|
    && IsGraph(prog, f.bbs, Blocks(prog, f.start, f.end))
    && f.bbNum == NUM_FIXED_BLOCKS + |Blocks(prog, f.start, f.end)|
  }

  // ---------- The program ----------

  ghost predicate HasStarts(funcs: seq<FuncNode>, starts: seq<int>)
    reads funcs`start
  {
    |funcs| == |starts| && forall k :: 0 <= k < |funcs| ==> funcs[k].start == starts[k]
  }

  /** The functions are numbered without gaps or repetition, in the order they were found. */
  ghost predicate Numbered(funcs: seq<FuncNode>) {
    && (forall k :: 0 <= k < |funcs| ==> 0 <= funcs[k].idx < |funcs|)
    && forall j, k :: 0 <= j < k < |funcs| ==> funcs[j].idx != funcs[k].idx
  }

  /** Function k is in the list only once. */
  predicate FuncApart(funcs: seq<FuncNode>, k: nat)
    requires k < |funcs|
  {
    forall j :: 0 <= j < |funcs| && j != k ==> funcs[j] != funcs[k]
  }

  lemma NumberedApart(funcs: seq<FuncNode>)
    requires Numbered(funcs)
    ensures forall k :: 0 <= k < |funcs| ==> FuncApart(funcs, k)
  {
  }

  ghost predicate IsFunc(f: FuncNode, ps: seq<Piece>, k: nat)
    requires k < |ps|
    reads f`start, f`end
  {
    f.start == ps[k].head && f.end == ps[k].tail
  }

  ghost predicate HasFuncs(funcs: seq<FuncNode>, ps: seq<Piece>)
    reads funcs`start, funcs`end
  {
    |funcs| == |ps| && forall k :: 0 <= k < |funcs| ==> IsFunc(funcs[k], ps, k)
  }

  /** A new function in its place, with the next number. */
  lemma FuncInserted(funcs: seq<FuncNode>, starts: seq<int>, f: FuncNode, i: nat)
    requires HasStarts(funcs, starts) && Numbered(funcs) && f.idx == |funcs| && i <= |funcs|
    requires (forall j :: 0 <= j < i ==> starts[j] < f.start) && (i < |funcs| ==> f.start < starts[i])
    ensures var more := funcs[..i] + [f] + funcs[i..];
            && HasStarts(more, Added(starts, f.start)) && Numbered(more)
            && forall k :: 0 <= k < |more| ==> more[k] == f || more[k] in funcs
  {
    var more := funcs[..i] + [f] + funcs[i..];
    NumberedInserted(funcs, f, i);
    assert HasStarts(more, Added(starts, f.start)) by {
      AddedAt(starts, f.start, i);
    }
  }

  lemma NumberedInserted(funcs: seq<FuncNode>, f: FuncNode, i: nat)
    requires Numbered(funcs) && f.idx == |funcs| && i <= |funcs|
    ensures Numbered(funcs[..i] + [f] + funcs[i..])
  {
    var more := funcs[..i] + [f] + funcs[i..];
    assert more[i] == f && forall k :: 0 <= k < |more| && k != i ==> more[k] == funcs[if k < i then k else k - 1];
    forall j, k | 0 <= j < k < |more| ensures more[j].idx != more[k].idx {
    }
  }

  predicate PiecesInside(prog: Prog, ps: seq<Piece>) {
    forall k :: 0 <= k < |ps| ==> 0 <= ps[k].head <= ps[k].tail < |prog|
  }

  class Cfg {
    var funcs: seq<FuncNode>
    var funcNum: int

    constructor ()
      ensures funcs == [] && funcNum == 0
    {
      funcs, funcNum := [], 0;
    }

    method AppendFunc(insn: int, ghost starts: seq<int>) returns (func: FuncNode)
      requires HasStarts(funcs, starts) && Numbered(funcs) && funcNum == |funcs|
      modifies `funcs, `funcNum
      ensures HasStarts(funcs, Added(starts, insn)) && Numbered(funcs) && funcNum == |funcs|
      ensures func in funcs && func.start == insn
      ensures forall k :: 0 <= k < |funcs| ==> fresh(funcs[k]) || funcs[k] in old(funcs)
    {
      var i := 0;
      while i < |funcs|
        invariant i <= |funcs| && forall j :: 0 <= j < i ==> starts[j] < insn
      {
        if funcs[i].start == insn {
          AddedThere(starts, insn, i);
          return funcs[i];
        } else if funcs[i].start > insn {
          break;
        }
        i := i + 1;
      }
      func := new FuncNode(insn, funcNum);
      FuncInserted(funcs, starts, func, i);
      funcs := funcs[..i] + [func] + funcs[i..];
      funcNum := funcNum + 1;
      assert funcs[i] == func;
    }

    /** Finds the functions and where each one ends. */
    method PartitionFuncs(prog: Prog)
      requires prog != [] && funcs == [] && funcNum == 0
      modifies `funcs, `funcNum
      ensures HasFuncs(funcs, Pieces(StartsTo(prog, |prog|), |prog| - 1)) && Numbered(funcs) && funcNum == |funcs|
      ensures forall k :: 0 <= k < |funcs| ==> fresh(funcs[k])
    {
      var func := AppendFunc(0, []);
      var cur := 0;
      while cur < |prog|
        invariant 0 <= cur <= |prog|
        invariant HasStarts(funcs, StartsTo(prog, cur)) && Numbered(funcs) && funcNum == |funcs|
        invariant forall k :: 0 <= k < |funcs| ==> fresh(funcs[k])
      {
        if prog[cur].Call? && prog[cur].pseudo {
          func := AppendFunc(Target(prog, cur), StartsTo(prog, cur));
        }
        cur := cur + 1;
      }
      assert StartsTo(prog, |prog|) != [] by {
        StartsExact(prog, |prog|);
      }
      NumberedApart(funcs);
      CloseFuncs(|prog| - 1, StartsTo(prog, |prog|));
    }

    method CloseFuncs(last: int, ghost starts: seq<int>)
      requires HasStarts(funcs, starts) && funcs != [] && forall k :: 0 <= k < |funcs| ==> FuncApart(funcs, k)
      modifies funcs`end
      ensures HasFuncs(funcs, Pieces(starts, last))
    {
      ghost var ps := Pieces(starts, last);
      var lastFunc := funcs[|funcs| - 1];
      lastFunc.end := last;
      assert FuncApart(funcs, |funcs| - 1) && IsFunc(lastFunc, ps, |ps| - 1);
      CloseBefore(starts, ps);
    }

    /** Every function but the last ends before the next one. */
    method CloseBefore(ghost starts: seq<int>, ghost ps: seq<Piece>)
      requires HasStarts(funcs, starts) && funcs != [] && forall k :: 0 <= k < |funcs| ==> FuncApart(funcs, k)
      requires |ps| == |starts| && forall k :: 0 <= k < |ps| - 1 ==> ps[k] == Piece(starts[k], starts[k + 1] - 1)
      modifies funcs[..|funcs| - 1]`end
      ensures forall k :: 0 <= k < |funcs| - 1 ==> IsFunc(funcs[k], ps, k)
    {
      var i := 0;
      while i < |funcs| - 1
        invariant 0 <= i < |funcs|
        invariant forall k :: 0 <= k < i ==> IsFunc(funcs[k], ps, k)
      {
        assert funcs[i + 1].start == starts[i + 1] && FuncApart(funcs, i);
        funcs[i].end := funcs[i + 1].start - 1;
        i := i + 1;
      }
    }

    /** Builds the graphs of all functions of a program whose calls and jumps stay inside it. */
    method Build(prog: Prog)
      requires prog != [] && TargetsInside(prog) && funcs == [] && funcNum == 0
      modifies `funcs, `funcNum
      ensures HasFuncs(funcs, Pieces(StartsTo(prog, |prog|), |prog| - 1)) && Numbered(funcs) && funcNum == |funcs|
      ensures forall k :: 0 <= k < |funcs| ==> Built(prog, funcs[k])
    {
      PartitionFuncs(prog);
      ghost var ps := Pieces(StartsTo(prog, |prog|), |prog| - 1);
      assert PiecesInside(prog, ps) by {
        FunctionsTile(prog);
        TilesBounds(ps, 0, |prog| - 1, 0);
      }
      NumberedApart(funcs);
      BuildGraphs(prog, ps);
    }

    method BuildGraphs(prog: Prog, ghost ps: seq<Piece>)
      requires TargetsInside(prog) && HasFuncs(funcs, ps) && PiecesInside(prog, ps)
      requires forall k :: 0 <= k < |funcs| ==> FuncApart(funcs, k)
      modifies funcs`bbs, funcs`bbNum
      ensures forall k :: 0 <= k < |funcs| ==> Built(prog, funcs[k])
    {
      var i := 0;
      while i < |funcs|
        invariant 0 <= i <= |funcs|
        invariant forall k :: 0 <= k < i ==> Built(prog, funcs[k])
      {
        assert FuncApart(funcs, i);
        BuildNext(prog, i, funcs[i]);
        i := i + 1;
      }
    }

    method BuildNext(prog: Prog, i: int, f: FuncNode)
      requires TargetsInside(prog) && 0 <= i < |funcs| && f == funcs[i] && FuncApart(funcs, i)
      requires 0 <= f.start <= f.end < |prog| && forall k :: 0 <= k < i ==> Built(prog, funcs[k])
      modifies f`bbs, f`bbNum
      ensures forall k :: 0 <= k <= i ==> Built(prog, funcs[k])
    {
      assert FuncApart(funcs, i);
      f.BuildGraph(prog);
    }
  }
}
