/**
 Instructions, and what a control-flow graph of a function should be: where functions and blocks begin, how they
 cover the program, and which edges leave a block.
 */
module CfgSpec {
  import opened Wrappers

  /** What the graph builder sees of an instruction.  `Cond` is any other jump; offsets count from the next
      instruction. */
  datatype Insn = Plain | Call(off: int, pseudo: bool) | Exit | Ja(off: int) | Cond(off: int)

  type Prog = seq<Insn>

  predicate IsJump(insn: Insn) { insn.Ja? || insn.Cond? }

  function Target(prog: Prog, i: int): int
    requires 0 <= i < |prog| && !prog[i].Plain? && !prog[i].Exit?
  {
    i + prog[i].off + 1
  }

  // ---------- Ordered lists of starting points ----------

  ghost predicate Sorted(s: seq<int>) { forall x, y :: 0 <= x < y < |s| ==> s[x] < s[y] }

  /** An ordered list with one more element, unless it is there already. */
  function Added(s: seq<int>, x: int): seq<int> {
    if s == [] || x < s[0] then [x] + s
    else if x == s[0] then s
    else [s[0]] + Added(s[1..], x)
  }

  lemma {:induction false} AddedSorted(s: seq<int>, x: int)
    requires Sorted(s)
    ensures Sorted(Added(s, x)) && Added(s, x) != []
    ensures forall y :: y in Added(s, x) <==> y in s || y == x
  {
    if s != [] && x > s[0] {
      AddedSorted(s[1..], x);
      Prepend(s[0], s[1..], x, Added(s[1..], x));
      assert s == [s[0]] + s[1..];
    }
  }

  lemma Prepend(a: int, t: seq<int>, x: int, r: seq<int>)
    requires Sorted([a] + t) && a < x && Sorted(r) && forall y :: y in r <==> y in t || y == x
    ensures Sorted([a] + r)
    ensures forall y :: y in [a] + r <==> y in [a] + t || y == x
  {
    forall y | y in r ensures a < y {
      if y != x {
        var k :| 0 <= k < |t| && t[k] == y;
        assert ([a] + t)[0] < ([a] + t)[k + 1];
      }
    }
    var s := [a] + r;
    forall i, j | 0 <= i < j < |s| ensures s[i] < s[j] {
      assert s[j] == r[j - 1] && (i > 0 ==> s[i] == r[i - 1]);
      assert r[j - 1] in r;
    }
  }

  lemma Least(s: seq<int>, y: int)
    requires Sorted(s) && y in s
    ensures s[0] <= y
  {
  }

  // ---------- Functions ----------

  /** A maximal stretch of instructions: a function in the program, or a block in a function. */
  datatype Piece = Piece(head: int, tail: int)

  /** The pieces that begin at the given points, the last of which ends at `last`. */
  function Pieces(heads: seq<int>, last: int): (ps: seq<Piece>)
    ensures |ps| == |heads|
  {
    seq(|heads|, k requires 0 <= k < |heads| => Piece(heads[k], if k + 1 < |heads| then heads[k + 1] - 1 else last))
  }

  /** The start points of functions found in the first n instructions. */
  function StartsTo(prog: Prog, n: nat): seq<int>
    requires n <= |prog|
  {
    if n == 0 then [0]
    else if prog[n - 1].Call? && prog[n - 1].pseudo then Added(StartsTo(prog, n - 1), Target(prog, n - 1))
    else StartsTo(prog, n - 1)
  }

  /** Functions start at the first instruction and at the targets of calls within the program. */
  lemma {:induction false} StartsExact(prog: Prog, n: nat)
    requires n <= |prog|
    ensures Sorted(StartsTo(prog, n)) && 0 in StartsTo(prog, n)
    ensures forall x :: x in StartsTo(prog, n) <==>
              x == 0 || exists i :: 0 <= i < n && prog[i].Call? && prog[i].pseudo && x == Target(prog, i)
  {
    if n > 0 {
      StartsExact(prog, n - 1);
      if prog[n - 1].Call? && prog[n - 1].pseudo {
        AddedSorted(StartsTo(prog, n - 1), Target(prog, n - 1));
      }
    }
  }

  // ---------- Blocks ----------

  /** The block heads of a function, found in its instructions from `start` to before n. */
  function HeadsTo(prog: Prog, start: nat, n: nat): seq<int>
    requires start <= n <= |prog|
  {
    if n == start then [start]
    else
      var hs := HeadsTo(prog, start, n - 1);
      match prog[n - 1]
      case Ja(_) => Added(hs, Target(prog, n - 1))
      case Cond(_) => Added(Added(hs, Target(prog, n - 1)), n)
      case _ => hs
  }

  /** Instruction i makes a block begin at x. */
  predicate MakesLeader(prog: Prog, i: int, x: int)
    requires 0 <= i < |prog|
  {
    (IsJump(prog[i]) && x == Target(prog, i)) || (prog[i].Cond? && x == i + 1)
  }

  predicate IsLeader(prog: Prog, start: nat, n: nat, x: int)
    requires start <= n <= |prog|
  {
    x == start || exists i :: start <= i < n && MakesLeader(prog, i, x)
  }

  lemma LeaderStep(prog: Prog, start: nat, n: nat, x: int)
    requires start < n <= |prog|
    ensures IsLeader(prog, start, n, x) <==> IsLeader(prog, start, n - 1, x) || MakesLeader(prog, n - 1, x)
  {
  }

  /** Blocks begin exactly at the function's start, at jump targets and after conditional jumps. */
  lemma {:induction false} HeadsExact(prog: Prog, start: nat, n: nat)
    requires start <= n <= |prog|
    ensures Sorted(HeadsTo(prog, start, n)) && HeadsTo(prog, start, n) != []
    ensures forall x :: x in HeadsTo(prog, start, n) <==> IsLeader(prog, start, n, x)
  {
    if n > start {
      HeadsExact(prog, start, n - 1);
      var hs := HeadsTo(prog, start, n - 1);
      if IsJump(prog[n - 1]) {
        AddedSorted(hs, Target(prog, n - 1));
        AddedSorted(Added(hs, Target(prog, n - 1)), n);
      }
      forall x ensures x in HeadsTo(prog, start, n) <==> IsLeader(prog, start, n, x) {
        LeaderStep(prog, start, n, x);
      }
    }
  }

  // ---------- Execution ----------

  /** One instruction-level step inside a function; calls return to the next instruction. */
  predicate Step(prog: Prog, i: int, j: int)
    requires 0 <= i < |prog|
  {
    match prog[i]
    case Plain => j == i + 1
    case Call(_, _) => j == i + 1
    case Exit => false
    case Ja(_) => j == Target(prog, i)
    case Cond(_) => j == i + 1 || j == Target(prog, i)
  }

  /** What the kernel's verifier guarantees of a function: it lies in the program, jumps stay inside it, and it
      cannot run off its end. */
  ghost predicate WellFormed(prog: Prog, start: int, end: int) {
    && 0 <= start <= end < |prog|
    && (prog[end].Exit? || prog[end].Ja?)
    && forall i :: start <= i <= end && IsJump(prog[i]) ==> start <= Target(prog, i) <= end
  }

  ghost predicate IsPath(prog: Prog, start: int, end: int, p: seq<int>) {
    && 0 <= start <= end < |prog|
    && p != [] && p[0] == start
    && (forall x :: 0 <= x < |p| ==> start <= p[x] <= end)
    && forall x :: 0 <= x < |p| - 1 ==> Step(prog, p[x], p[x + 1])
  }

  ghost predicate Reachable(prog: Prog, start: int, end: int, i: int) {
    exists p :: IsPath(prog, start, end, p) && p[|p| - 1] == i
  }

  /** Every unconditional jump ends a block: it is the function's last instruction or a block begins after it. */
  ghost predicate JumpsEndBlocks(prog: Prog, start: int, end: int)
    requires 0 <= start <= end < |prog|
  {
    forall i :: start <= i < end && prog[i].Ja? ==> IsLeader(prog, start, end + 1, i + 1)
  }

  /** An instruction other than the first that is reachable and not fallen into is a jump target. */
  lemma ReachedByJump(prog: Prog, start: int, end: int, i: int)
    requires WellFormed(prog, start, end) && start <= i < end && (prog[i].Ja? || prog[i].Exit?)
    requires Reachable(prog, start, end, i + 1)
    ensures IsLeader(prog, start, end + 1, i + 1)
  {
    var p :| IsPath(prog, start, end, p) && p[|p| - 1] == i + 1;
    if |p| > 1 {
      var x := |p| - 2;
      assert Step(prog, p[x], p[x + 1]) && IsJump(prog[p[x]]);
      assert MakesLeader(prog, p[x], p[x + 1]);
    }
  }

  /** Without unreachable instructions, everything that transfers control ends a block: conditional and
      unconditional jumps and exits are followed by the end of the function or by a block head. */
  lemma TransfersEndBlocks(prog: Prog, start: int, end: int, i: int)
    requires WellFormed(prog, start, end) && start <= i < end
    requires forall r :: start <= r <= end ==> Reachable(prog, start, end, r)
    ensures IsJump(prog[i]) || prog[i].Exit? ==> IsLeader(prog, start, end + 1, i + 1)
    ensures JumpsEndBlocks(prog, start, end)
  {
    forall i' | start <= i' < end && (prog[i'].Ja? || prog[i'].Exit?) ensures IsLeader(prog, start, end + 1, i' + 1) {
      ReachedByJump(prog, start, end, i');
    }
    assert prog[i].Cond? ==> MakesLeader(prog, i, i + 1);
  }

  // ---------- The graph ----------

  /** The blocks of a function. */
  function Blocks(prog: Prog, start: int, end: int): (bl: seq<Piece>)
    requires 0 <= start <= end < |prog|
    ensures bl != []
  {
    HeadsExact(prog, start, end + 1);
    Pieces(HeadsTo(prog, start, end + 1), end)
  }

  datatype Node = Entry | Leave | Block(k: nat)

  /** An edge: `dst` is None where the search for a block with the jump's target fails. */
  datatype Arrow = Arrow(dst: Option<Node>, falls: bool, jumps: bool)

  /** `func_search_bb_with_head`, as an index; the number of blocks if there is none. */
  function FindHead(bl: seq<Piece>, x: int): (k: nat)
    ensures k <= |bl| && (k < |bl| ==> bl[k].head == x) && forall j :: 0 <= j < k ==> bl[j].head != x
  {
    if bl == [] || bl[0].head == x then 0 else 1 + FindHead(bl[1..], x)
  }

  function JumpTo(bl: seq<Piece>, x: int): Option<Node> {
    if FindHead(bl, x) < |bl| then Some(Block(FindHead(bl, x))) else None
  }

  function FallTo(bl: seq<Piece>, k: nat): Option<Node> {
    Some(if k + 1 < |bl| then Block(k + 1) else Leave)
  }

  /** The edges that leave block k, decided by its last instruction. */
  function Arrows(prog: Prog, bl: seq<Piece>, k: nat): seq<Arrow>
    requires k < |bl| && 0 <= bl[k].tail < |prog|
  {
    var tail := bl[k].tail;
    match prog[tail]
    case Plain => [Arrow(FallTo(bl, k), true, false)]
    case Exit => [Arrow(FallTo(bl, k), true, false)]
    case Ja(_) => [Arrow(JumpTo(bl, Target(prog, tail)), false, true)]
    case _ => [Arrow(FallTo(bl, k), true, false), Arrow(JumpTo(bl, Target(prog, tail)), false, true)]
  }

  ghost predicate Joined(prog: Prog, bl: seq<Piece>, k: nat, n: Node)
    requires k < |bl| && 0 <= bl[k].tail < |prog|
  {
    exists a :: a in Arrows(prog, bl, k) && a.dst == Some(n)
  }

  // ---------- Blocks cover the function ----------

  /** Consecutive pieces that together run from lo to hi. */
  ghost predicate Tiles(ps: seq<Piece>, lo: int, hi: int) {
    && ps != [] && ps[0].head == lo && ps[|ps| - 1].tail == hi
    && (forall k :: 0 <= k < |ps| ==> ps[k].head <= ps[k].tail)
    && forall k :: 0 <= k < |ps| - 1 ==> ps[k].tail + 1 == ps[k + 1].head
  }

  lemma PiecesTile(heads: seq<int>, lo: int, hi: int)
    requires Sorted(heads) && lo in heads && forall x :: x in heads ==> lo <= x <= hi
    ensures Tiles(Pieces(heads, hi), lo, hi)
  {
    Least(heads, lo);
    assert heads[0] in heads;
    var ps := Pieces(heads, hi);
    forall k | 0 <= k < |ps| ensures ps[k].head <= ps[k].tail {
      assert heads[k] in heads;
    }
  }

  /** The blocks of a well-formed function are non-empty and lie end to end. */
  lemma BlocksTile(prog: Prog, start: int, end: int)
    requires WellFormed(prog, start, end)
    ensures Tiles(Blocks(prog, start, end), start, end)
  {
    HeadsExact(prog, start, end + 1);
    var hs := HeadsTo(prog, start, end + 1);
    forall x | x in hs ensures start <= x <= end {
      assert IsLeader(prog, start, end + 1, x);
    }
    assert IsLeader(prog, start, end + 1, start);
    PiecesTile(hs, start, end);
  }

  /** The functions of a program are non-empty and lie end to end. */
  lemma FunctionsTile(prog: Prog)
    requires prog != []
    requires forall i :: 0 <= i < |prog| && prog[i].Call? && prog[i].pseudo ==> 0 <= Target(prog, i) < |prog|
    ensures Tiles(Pieces(StartsTo(prog, |prog|), |prog| - 1), 0, |prog| - 1)
  {
    StartsExact(prog, |prog|);
    PiecesTile(StartsTo(prog, |prog|), 0, |prog| - 1);
  }

  /** The instructions of the first n pieces, in order. */
  function Concat(prog: Prog, ps: seq<Piece>, n: nat): Prog
    requires n <= |ps| && forall k :: 0 <= k < |ps| ==> 0 <= ps[k].head <= ps[k].tail + 1 <= |prog|
  {
    if n == 0 then [] else Concat(prog, ps, n - 1) + prog[ps[n - 1].head..ps[n - 1].tail + 1]
  }

  /** Tiles give back what they cover, so the blocks of all functions together are the program. */
  lemma {:induction false} TilesConcat(prog: Prog, ps: seq<Piece>, lo: int, hi: int, n: nat)
    requires 0 <= lo <= hi < |prog| && Tiles(ps, lo, hi) && n <= |ps|
    ensures forall k :: 0 <= k < |ps| ==> lo <= ps[k].head <= ps[k].tail <= hi
    ensures Concat(prog, ps, n) == prog[lo..if n < |ps| then ps[n].head else hi + 1]
  {
    TilesBounds(ps, lo, hi, 0);
    if n > 0 {
      TilesConcat(prog, ps, lo, hi, n - 1);
      var h, t := ps[n - 1].head, ps[n - 1].tail + 1;
      assert prog[lo..h] + prog[h..t] == prog[lo..t];
    }
  }

  lemma {:induction false} TilesBounds(ps: seq<Piece>, lo: int, hi: int, k: nat)
    requires Tiles(ps, lo, hi) && k < |ps|
    ensures forall j :: k <= j < |ps| ==> ps[k].head <= ps[j].head && ps[j].tail <= hi
    decreases |ps| - k
  {
    if k < |ps| - 1 {
      TilesBounds(ps, lo, hi, k + 1);
    }
  }
}
