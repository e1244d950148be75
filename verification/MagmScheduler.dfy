/**
 The offline MAGM scheduling decision: one window of thread predictions is turned
 into CPU bindings, one thread per core (CE) or greedily matched pairs on SMT
 siblings (SP).  Scores are exact reals.
 */
module MagmScheduler {
  import opened Wrappers

  // ---------- Predictions and scores ----------

  datatype Feature = IPC | LLC | L1I | L1D | L2 | BR | TLB

  const FEATURES: seq<Feature> := [IPC, LLC, L1I, L1D, L2, BR, TLB]

  function DiffWeight(f: Feature): real {
    match f
    case IPC => 2.0 case L1I => 1.0 case L1D => 1.0 case L2 => 0.0
    case LLC => 0.0 case BR => 1.0 case TLB => 0.0
  }

  function SumWeight(f: Feature): real {
    match f
    case IPC => 1.0 case L1I => 2.0 case L1D => 1.0 case L2 => 2.0
    case LLC => 3.0 case BR => 2.0 case TLB => 3.0
  }

  datatype Prediction = Prediction(ipc: real, llc: real, l1i: real, l1d: real, l2: real, br: real, tlb: real) {
    function Of(f: Feature): real {
      match f
      case IPC => ipc case LLC => llc case L1I => l1i case L1D => l1d
      case L2 => l2 case BR => br case TLB => tlb
    }
  }

  datatype ThreadKey = ThreadKey(name: string)

  datatype Row = Row(loadType: string, windowId: int, threadKey: ThreadKey, thread: string, pid: int, pred: Prediction)

  function Abs(x: real): (r: real)
    ensures r >= 0.0 && (r == x || r == -x)
  {
    if x < 0.0 then -x else x
  }

  function Max(x: real, y: real): (r: real)
    ensures r >= x && r >= y && (r == x || r == y)
  {
    if x < y then y else x
  }

  function ScoreTerm(a: Prediction, b: Prediction, theta: real, f: Feature): real {
    DiffWeight(f) * Abs(a.Of(f) - b.Of(f)) - SumWeight(f) * Max(0.0, (a.Of(f) + b.Of(f)) / 2.0 - theta)
  }

  function ScoreSum(a: Prediction, b: Prediction, theta: real, fs: seq<Feature>): real {
    if fs == [] then 0.0
    else ScoreSum(a, b, theta, fs[..|fs| - 1]) + ScoreTerm(a, b, theta, fs[|fs| - 1])
  }

  function Score(a: Prediction, b: Prediction, theta: real): real {
    ScoreSum(a, b, theta, FEATURES)
  }

  method ComplementarityScore(a: Prediction, b: Prediction, theta: real) returns (score: real)
    ensures score == Score(a, b, theta)
  {
    score := 0.0;
    for n := 0 to |FEATURES|
      invariant score == ScoreSum(a, b, theta, FEATURES[..n])
    {
      var f := FEATURES[n];
      var av, bv := a.Of(f), b.Of(f);
      var diff := Abs(av - bv);
      var total := (av + bv) / 2.0;
      score := score + DiffWeight(f) * diff;
      score := score - SumWeight(f) * Max(0.0, total - theta);
      assert FEATURES[..n + 1][..n] == FEATURES[..n];
    }
    assert FEATURES[..|FEATURES|] == FEATURES;
  }

  lemma ScoreSnoc(a: Prediction, b: Prediction, theta: real, fs: seq<Feature>, f: Feature)
    ensures ScoreSum(a, b, theta, fs + [f]) == ScoreSum(a, b, theta, fs) + ScoreTerm(a, b, theta, f)
  {
    assert (fs + [f])[..|fs|] == fs;
  }

  lemma ScoreExpanded(a: Prediction, b: Prediction, theta: real)
    ensures Score(a, b, theta) ==
              ScoreTerm(a, b, theta, IPC) + ScoreTerm(a, b, theta, LLC) + ScoreTerm(a, b, theta, L1I)
              + ScoreTerm(a, b, theta, L1D) + ScoreTerm(a, b, theta, L2) + ScoreTerm(a, b, theta, BR)
              + ScoreTerm(a, b, theta, TLB)
  {
    ScoreSnoc(a, b, theta, [], IPC);
    ScoreSnoc(a, b, theta, [] + [IPC], LLC);
    ScoreSnoc(a, b, theta, [] + [IPC] + [LLC], L1I);
    ScoreSnoc(a, b, theta, [] + [IPC] + [LLC] + [L1I], L1D);
    ScoreSnoc(a, b, theta, [] + [IPC] + [LLC] + [L1I] + [L1D], L2);
    ScoreSnoc(a, b, theta, [] + [IPC] + [LLC] + [L1I] + [L1D] + [L2], BR);
    ScoreSnoc(a, b, theta, [] + [IPC] + [LLC] + [L1I] + [L1D] + [L2] + [BR], TLB);
    assert FEATURES == [] + [IPC] + [LLC] + [L1I] + [L1D] + [L2] + [BR] + [TLB];
  }

  /** By how much the mean of two values exceeds the threshold. */
  function Over(x: real, y: real, theta: real): (r: real)
    ensures if x + y <= 2.0 * theta then r == 0.0 else 2.0 * r == x + y - 2.0 * theta
  {
    Max(0.0, (x + y) / 2.0 - theta)
  }

  lemma TermsExpanded(a: Prediction, b: Prediction, theta: real)
    ensures ScoreTerm(a, b, theta, IPC) == 2.0 * Abs(a.ipc - b.ipc) - Over(a.ipc, b.ipc, theta)
    ensures ScoreTerm(a, b, theta, LLC) == -3.0 * Over(a.llc, b.llc, theta)
    ensures ScoreTerm(a, b, theta, L1I) == Abs(a.l1i - b.l1i) - 2.0 * Over(a.l1i, b.l1i, theta)
    ensures ScoreTerm(a, b, theta, L1D) == Abs(a.l1d - b.l1d) - Over(a.l1d, b.l1d, theta)
    ensures ScoreTerm(a, b, theta, L2) == -2.0 * Over(a.l2, b.l2, theta)
    ensures ScoreTerm(a, b, theta, BR) == Abs(a.br - b.br) - 2.0 * Over(a.br, b.br, theta)
    ensures ScoreTerm(a, b, theta, TLB) == -3.0 * Over(a.tlb, b.tlb, theta)
  {
  }

  /** The score, written out with its weights. */
  lemma ScoreFormula(a: Prediction, b: Prediction, theta: real)
    ensures Score(a, b, theta) ==
              2.0 * Abs(a.ipc - b.ipc) + Abs(a.l1i - b.l1i) + Abs(a.l1d - b.l1d) + Abs(a.br - b.br)
              - Over(a.ipc, b.ipc, theta) - Over(a.l1d, b.l1d, theta)
              - 2.0 * Over(a.l1i, b.l1i, theta) - 2.0 * Over(a.l2, b.l2, theta) - 2.0 * Over(a.br, b.br, theta)
              - 3.0 * Over(a.llc, b.llc, theta) - 3.0 * Over(a.tlb, b.tlb, theta)
  {
    ScoreExpanded(a, b, theta);
    TermsExpanded(a, b, theta);
  }

  /** Which of two threads is listed first does not matter to their score. */
  lemma {:induction false} ScoreSymmetric(a: Prediction, b: Prediction, theta: real, fs: seq<Feature>)
    ensures ScoreSum(a, b, theta, fs) == ScoreSum(b, a, theta, fs)
  {
    if fs != [] {
      ScoreSymmetric(a, b, theta, fs[..|fs| - 1]);
    }
  }

  /** A higher contention threshold never lowers a score; a thread never complements itself;
      and two threads whose joint demand stays under the threshold always make a candidate edge. */
  lemma {:induction false} ScoreLaws(a: Prediction, b: Prediction, theta: real, theta': real, fs: seq<Feature>)
    requires theta <= theta'
    ensures ScoreSum(a, b, theta, fs) <= ScoreSum(a, b, theta', fs)
    ensures ScoreSum(a, a, theta, fs) <= 0.0
    ensures (forall f :: f in fs ==> a.Of(f) + b.Of(f) <= 2.0 * theta) ==> ScoreSum(a, b, theta, fs) >= 0.0
  {
    if fs != [] {
      var f := fs[|fs| - 1];
      assert f in fs;
      ScoreLaws(a, b, theta, theta', fs[..|fs| - 1]);
      var over := Max(0.0, (a.Of(f) + b.Of(f)) / 2.0 - theta);
      var over' := Max(0.0, (a.Of(f) + b.Of(f)) / 2.0 - theta');
      assert over' <= over;
    }
  }

  function Intensity(p: Prediction): (r: real)
    ensures r >= 0.75 * p.br + 0.25 * p.l1i
    ensures r >= 0.80 * p.ipc + 0.20 * (1.0 - p.llc)
    ensures r >= 0.80 * p.llc + 0.20 * p.tlb
    ensures || r == 0.75 * p.br + 0.25 * p.l1i
            || r == 0.80 * p.ipc + 0.20 * (1.0 - p.llc)
            || r == 0.80 * p.llc + 0.20 * p.tlb
  {
    var fe := 0.75 * p.br + 0.25 * p.l1i;
    var core := 0.80 * p.ipc + 0.20 * (1.0 - p.llc);
    var mem := 0.80 * p.llc + 0.20 * p.tlb;
    Max(fe, Max(core, mem))
  }

  // ---------- Sorting and slicing, as pandas and Python provide them ----------

  /** `DataFrame.head(n)`: the first n rows, or all but the last -n when n is negative. */
  function Head<T>(s: seq<T>, n: int): seq<T> {
    if n >= |s| then s
    else if n >= 0 then s[..n]
    else if |s| + n >= 0 then s[..|s| + n]
    else []
  }

  ghost predicate Descending<T>(s: seq<T>, key: T -> real) {
    forall x, y :: 0 <= x < y < |s| ==> key(s[x]) >= key(s[y])
  }

  function InsertDesc<T>(x: T, s: seq<T>, key: T -> real): seq<T> {
    if s == [] || key(x) >= key(s[0]) then [x] + s else [s[0]] + InsertDesc(x, s[1..], key)
  }

  /** Stable sort by descending key. */
  function SortDesc<T>(s: seq<T>, key: T -> real): seq<T> {
    if s == [] then [] else InsertDesc(s[0], SortDesc(s[1..], key), key)
  }

  lemma {:induction false} InsertDescPermutes<T>(x: T, s: seq<T>, key: T -> real)
    ensures multiset(InsertDesc(x, s, key)) == multiset{x} + multiset(s)
  {
    if s != [] && key(x) < key(s[0]) {
      InsertDescPermutes(x, s[1..], key);
      assert s == [s[0]] + s[1..];
    }
  }

  lemma {:induction false} InsertDescSorts<T>(x: T, s: seq<T>, key: T -> real)
    requires Descending(s, key)
    ensures Descending(InsertDesc(x, s, key), key)
  {
    if s != [] && key(x) < key(s[0]) {
      var rest := InsertDesc(x, s[1..], key);
      InsertDescSorts(x, s[1..], key);
      InsertDescPermutes(x, s[1..], key);
      forall r | r in rest ensures key(s[0]) >= key(r) {
        assert r in multiset(rest);
        assert r == x || r in s[1..];
      }
    }
  }

  lemma {:induction false} SortDescSorts<T>(s: seq<T>, key: T -> real)
    ensures Descending(SortDesc(s, key), key)
    ensures multiset(SortDesc(s, key)) == multiset(s)
  {
    if s != [] {
      SortDescSorts(s[1..], key);
      InsertDescSorts(s[0], SortDesc(s[1..], key), key);
      InsertDescPermutes(s[0], SortDesc(s[1..], key), key);
      assert s == [s[0]] + s[1..];
    }
  }

  // ---------- Candidate edges ----------

  /** A scored pair of candidate positions. */
  datatype Edge = Edge(score: real, i: nat, j: nat)

  function ByScore(e: Edge): real { e.score }

  function ByIntensity(r: Row): real { Intensity(r.pred) }

  /** The score of every pair of candidate positions. */
  type Table = (nat, nat) -> real

  function ScoreTable(cands: seq<Row>, theta: real): Table {
    (i: nat, j: nat) => if i < |cands| && j < |cands| then Score(cands[i].pred, cands[j].pred, theta) else 0.0
  }

  /** A pair of positions that the scheduler regards as a candidate: in order and of non-negative score. */
  predicate IsCandidateEdge(e: Edge, n: nat, table: Table) {
    e.i < e.j < n && e.score == table(e.i, e.j) && e.score >= 0.0
  }

  function EdgeAt(table: Table, i: nat, j: nat): seq<Edge> {
    if table(i, j) >= 0.0 then [Edge(table(i, j), i, j)] else []
  }

  /** The candidate edges from position i to the positions before j, in loop order. */
  function RowEdges(table: Table, i: nat, j: nat): seq<Edge> {
    if j <= i + 1 then [] else RowEdges(table, i, j - 1) + EdgeAt(table, i, j - 1)
  }

  /** The candidate edges among n threads whose first end is before i, in loop order. */
  function EdgesBefore(n: nat, table: Table, i: nat): seq<Edge> {
    if i == 0 then [] else EdgesBefore(n, table, i - 1) + RowEdges(table, i - 1, n)
  }

  lemma {:induction false} RowEdgesComplete(table: Table, i: nat, j: nat, e: Edge)
    ensures e in RowEdges(table, i, j) <==> IsCandidateEdge(e, j, table) && e.i == i
  {
    if j > i + 1 {
      RowEdgesComplete(table, i, j - 1, e);
      assert e in EdgeAt(table, i, j - 1) <==> IsCandidateEdge(e, j, table) && e.i == i && e.j == j - 1;
    }
  }

  /** Exactly the candidate edges are listed. */
  lemma {:induction false} EdgesComplete(n: nat, table: Table, i: nat, e: Edge)
    ensures e in EdgesBefore(n, table, i) <==> IsCandidateEdge(e, n, table) && e.i < i
  {
    if i > 0 {
      EdgesComplete(n, table, i - 1, e);
      RowEdgesComplete(table, i - 1, n, e);
    }
  }

  lemma AllEdgesComplete(n: nat, table: Table)
    ensures forall e :: e in EdgesBefore(n, table, n) <==> IsCandidateEdge(e, n, table)
  {
    forall e ensures e in EdgesBefore(n, table, n) <==> IsCandidateEdge(e, n, table) {
      EdgesComplete(n, table, n, e);
    }
  }

  /** The inner loop of the edge list. */
  method EdgesOf(cands: seq<Row>, theta: real, i: nat) returns (edges: seq<Edge>)
    requires i < |cands|
    ensures edges == RowEdges(ScoreTable(cands, theta), i, |cands|)
  {
    edges := [];
    for j := i + 1 to |cands|
      invariant edges == RowEdges(ScoreTable(cands, theta), i, j)
    {
      var score := ComplementarityScore(cands[i].pred, cands[j].pred, theta);
      if score >= 0.0 {
        edges := edges + [Edge(score, i, j)];
      }
    }
  }

  method BuildEdges(cands: seq<Row>, theta: real) returns (edges: seq<Edge>)
    ensures edges == EdgesBefore(|cands|, ScoreTable(cands, theta), |cands|)
    ensures forall e :: e in edges <==> IsCandidateEdge(e, |cands|, ScoreTable(cands, theta))
  {
    edges := [];
    for i := 0 to |cands|
      invariant edges == EdgesBefore(|cands|, ScoreTable(cands, theta), i)
    {
      var row := EdgesOf(cands, theta, i);
      edges := edges + row;
    }
    AllEdgesComplete(|cands|, ScoreTable(cands, theta));
  }

  // ---------- The greedy matching ----------

  predicate InRange(es: seq<Edge>, n: nat) {
    forall e :: e in es ==> e.i < n && e.j < n
  }

  predicate HasKey(e: Edge, keys: seq<ThreadKey>, k: ThreadKey)
    requires e.i < |keys| && e.j < |keys|
  {
    keys[e.i] == k || keys[e.j] == k
  }

  predicate Touches(e: Edge, keys: seq<ThreadKey>, used: set<ThreadKey>)
    requires e.i < |keys| && e.j < |keys|
  {
    keys[e.i] in used || keys[e.j] in used
  }

  /** Two edges that name no thread in common. */
  predicate Apart(e: Edge, f: Edge, keys: seq<ThreadKey>)
    requires e.i < |keys| && e.j < |keys| && f.i < |keys| && f.j < |keys|
  {
    !HasKey(e, keys, keys[f.i]) && !HasKey(e, keys, keys[f.j])
  }

  ghost predicate Matching(es: seq<Edge>, keys: seq<ThreadKey>) {
    && InRange(es, |keys|)
    && forall x, y :: 0 <= x < y < |es| ==> Apart(es[x], es[y], keys)
  }

  /** What the SP loop picks from the edges it has left, given the threads used and the cores left. */
  function Greedy(edges: seq<Edge>, keys: seq<ThreadKey>, used: set<ThreadKey>, cores: int): seq<Edge>
    requires InRange(edges, |keys|)
  {
    if edges == [] || cores <= 0 then []
    else
      var e, rest := edges[0], edges[1..];
      if Touches(e, keys, used) then Greedy(rest, keys, used, cores)
      else [e] + Greedy(rest, keys, used + {keys[e.i], keys[e.j]}, cores - 1)
  }

  lemma {:induction false} GreedyIsMatching(edges: seq<Edge>, keys: seq<ThreadKey>, used: set<ThreadKey>, cores: int)
    requires InRange(edges, |keys|)
    ensures var g := Greedy(edges, keys, used, cores);
            && Matching(g, keys)
            && |g| <= (if cores < 0 then 0 else cores)
            && forall e :: e in g ==> e in edges && !Touches(e, keys, used)
  {
    if edges == [] || cores <= 0 {
    } else {
      var e, rest := edges[0], edges[1..];
      if Touches(e, keys, used) {
        GreedyIsMatching(rest, keys, used, cores);
      } else {
        var used' := used + {keys[e.i], keys[e.j]};
        GreedyIsMatching(rest, keys, used', cores - 1);
        var g' := Greedy(rest, keys, used', cores - 1);
        forall f | f in g' ensures Apart(e, f, keys) && !Touches(f, keys, used) {
          assert !Touches(f, keys, used');
        }
      }
    }
  }

  function Total(es: seq<Edge>): real {
    if es == [] then 0.0 else es[0].score + Total(es[1..])
  }

  function WithoutKey(es: seq<Edge>, keys: seq<ThreadKey>, k: ThreadKey): seq<Edge>
    requires InRange(es, |keys|)
  {
    if es == [] then []
    else if HasKey(es[0], keys, k) then WithoutKey(es[1..], keys, k)
    else [es[0]] + WithoutKey(es[1..], keys, k)
  }

  lemma {:induction false} WithoutKeyKeeps(es: seq<Edge>, keys: seq<ThreadKey>, k: ThreadKey)
    requires Matching(es, keys)
    ensures var r := WithoutKey(es, keys, k);
            && Matching(r, keys)
            && (forall e :: e in r ==> e in es && !HasKey(e, keys, k))
  {
    if es != [] {
      WithoutKeyKeeps(es[1..], keys, k);
      var rest := WithoutKey(es[1..], keys, k);
      forall x | 0 <= x < |rest| ensures Apart(es[0], rest[x], keys) {
        assert rest[x] in es[1..];
        var y :| 1 <= y < |es| && es[y] == rest[x];
        assert Apart(es[0], es[y], keys);
      }
    }
  }

  /** A matching has at most one edge at a thread, so dropping that thread costs at most one score. */
  lemma {:induction false} WithoutKeyCost(es: seq<Edge>, keys: seq<ThreadKey>, k: ThreadKey, top: real)
    requires Matching(es, keys) && top >= 0.0
    requires forall e :: e in es ==> e.score <= top
    ensures var r := WithoutKey(es, keys, k);
            && Matching(r, keys)
            && (forall e :: e in r ==> e in es && !HasKey(e, keys, k))
            && |es| - 1 <= |r| <= |es|
            && (|r| == |es| ==> r == es)
            && Total(es) <= Total(r) + top
            && ((forall x :: 0 <= x < |es| ==> !HasKey(es[x], keys, k)) ==> r == es)
  {
    WithoutKeyKeeps(es, keys, k);
    if es != [] {
      WithoutKeyCost(es[1..], keys, k, top);
      if HasKey(es[0], keys, k) {
        forall x | 0 <= x < |es[1..]| ensures !HasKey(es[1..][x], keys, k) {
          assert Apart(es[0], es[x + 1], keys);
        }
      }
    }
  }

  lemma {:induction false} TotalNonNegative(es: seq<Edge>)
    requires forall e :: e in es ==> e.score >= 0.0
    ensures Total(es) >= 0.0
  {
    if es != [] {
      TotalNonNegative(es[1..]);
    }
  }

  lemma GreedyTotal(edges: seq<Edge>, keys: seq<ThreadKey>, used: set<ThreadKey>, cores: int)
    requires InRange(edges, |keys|) && edges != [] && cores > 0
    ensures var e, rest := edges[0], edges[1..];
            Total(Greedy(edges, keys, used, cores)) ==
              if Touches(e, keys, used) then Total(Greedy(rest, keys, used, cores))
              else e.score + Total(Greedy(rest, keys, used + {keys[e.i], keys[e.j]}, cores - 1))
  {
  }

  /** A list as the greedy loop gets it: valid positions, non-negative scores, best first. */
  ghost predicate Ranked(edges: seq<Edge>, n: nat) {
    && InRange(edges, n) && Descending(edges, ByScore)
    && forall e :: e in edges ==> e.score >= 0.0
  }

  /** A matching the greedy loop could still pick: listed edges that avoid the used threads, one core each. */
  ghost predicate Eligible(opt: seq<Edge>, edges: seq<Edge>, keys: seq<ThreadKey>, used: set<ThreadKey>, cores: int) {
    && Matching(opt, keys) && |opt| <= cores
    && forall o :: o in opt ==> o in edges && !Touches(o, keys, used)
  }

  lemma RankedTail(edges: seq<Edge>, n: nat)
    requires edges != [] && Ranked(edges, n)
    ensures Ranked(edges[1..], n)
    ensures forall e :: e in edges ==> (e == edges[0] || e in edges[1..]) && e.score <= edges[0].score
  {
  }

  /** Making room for `e` in a matching of edges that score no more: give up one or two of them. */
  lemma MakeRoom(opt: seq<Edge>, keys: seq<ThreadKey>, e: Edge) returns (kept: seq<Edge>)
    requires Matching(opt, keys) && opt != [] && InRange([e], |keys|)
    requires 0.0 <= e.score && forall o :: o in opt ==> o.score <= e.score
    ensures Matching(kept, keys) && |kept| < |opt| && Total(opt) <= Total(kept) + 2.0 * e.score
    ensures forall o :: o in kept ==> o in opt && Apart(o, e, keys)
  {
    assert e in [e];
    var opt1 := WithoutKey(opt, keys, keys[e.i]);
    WithoutKeyCost(opt, keys, keys[e.i], e.score);
    var opt2 := WithoutKey(opt1, keys, keys[e.j]);
    WithoutKeyCost(opt1, keys, keys[e.j], e.score);
    if |opt2| < |opt| {
      kept := opt2;
    } else {
      kept := opt2[1..];
      assert Total(opt2) == opt2[0].score + Total(kept);
    }
    forall o | o in kept ensures o in opt && Apart(o, e, keys) {
      assert o in opt2 && o in opt1;
    }
  }

  lemma StillEligible(opt: seq<Edge>, kept: seq<Edge>, edges: seq<Edge>, keys: seq<ThreadKey>, used: set<ThreadKey>,
                     cores: int)
    requires edges != [] && Ranked(edges, |keys|) && Eligible(opt, edges, keys, used, cores)
    requires Matching(kept, keys) && |kept| < |opt|
    requires forall o :: o in kept ==> o in opt && Apart(o, edges[0], keys)
    ensures Eligible(kept, edges[1..], keys, used + {keys[edges[0].i], keys[edges[0].j]}, cores - 1)
  {
  }

  /** The approximation bound: no eligible matching scores more than twice what the greedy loop collects. */
  lemma {:induction false} GreedyIsHalfOptimal(edges: seq<Edge>, keys: seq<ThreadKey>, used: set<ThreadKey>,
                                               cores: int, opt: seq<Edge>)
    requires Ranked(edges, |keys|) && Eligible(opt, edges, keys, used, cores)
    ensures Total(opt) <= 2.0 * Total(Greedy(edges, keys, used, cores))
    decreases |edges|
  {
    if opt == [] {
      GreedyIsMatching(edges, keys, used, cores);
      TotalNonNegative(Greedy(edges, keys, used, cores));
    } else {
      assert opt[0] in edges;
      var e, rest := edges[0], edges[1..];
      RankedTail(edges, |keys|);
      GreedyTotal(edges, keys, used, cores);
      if Touches(e, keys, used) {
        GreedyIsHalfOptimal(rest, keys, used, cores, opt);
      } else {
        var kept := MakeRoom(opt, keys, e);
        StillEligible(opt, kept, edges, keys, used, cores);
        GreedyIsHalfOptimal(rest, keys, used + {keys[e.i], keys[e.j]}, cores - 1, kept);
      }
    }
  }

  /** Why an edge is left out: it shares a thread with a chosen pair that scores at least as high, or
      every core went to pairs that score at least as high. */
  ghost predicate Dominated(e: Edge, chosen: seq<Edge>, keys: seq<ThreadKey>, cores: int)
    requires InRange(chosen, |keys|) && e.i < |keys| && e.j < |keys|
  {
    || (exists g :: g in chosen && g.score >= e.score && !Apart(e, g, keys))
    || (|chosen| == (if cores < 0 then 0 else cores) && forall g :: g in chosen ==> g.score >= e.score)
  }

  lemma {:induction false} GreedyDominates(edges: seq<Edge>, keys: seq<ThreadKey>, used: set<ThreadKey>, cores: int,
                                           e: Edge)
    requires Ranked(edges, |keys|) && e in edges
    ensures var g := Greedy(edges, keys, used, cores);
            InRange(g, |keys|) && (e in g || Touches(e, keys, used) || Dominated(e, g, keys, cores))
  {
    GreedyIsMatching(edges, keys, used, cores);
    if cores > 0 && !Touches(e, keys, used) {
      var e0, rest := edges[0], edges[1..];
      RankedTail(edges, |keys|);
      if Touches(e0, keys, used) {
        GreedyDominates(rest, keys, used, cores, e);
      } else if e != e0 {
        var used' := used + {keys[e0.i], keys[e0.j]};
        GreedyDominates(rest, keys, used', cores - 1, e);
        DominatedStays(e, e0, Greedy(rest, keys, used', cores - 1), keys, used, cores);
      }
    }
  }

  /** Prepending a top-scoring pair to the chosen list keeps an edge dominated. */
  lemma DominatedStays(e: Edge, e0: Edge, g: seq<Edge>, keys: seq<ThreadKey>, used: set<ThreadKey>, cores: int)
    requires InRange([e, e0], |keys|) && InRange(g, |keys|) && cores > 0 && e.score <= e0.score
    requires !Touches(e, keys, used)
    requires e in g || Touches(e, keys, used + {keys[e0.i], keys[e0.j]}) || Dominated(e, g, keys, cores - 1)
    ensures InRange([e0] + g, |keys|) && (e in [e0] + g || Dominated(e, [e0] + g, keys, cores))
  {
  }

  // ---------- One scheduling window ----------

  datatype Mode = CE | SP

  /** One row of the output table.  A missing partner (an empty string there) and a missing score (NaN) are None. */
  datatype Decision = Decision(
    loadType: string, windowId: int, mode: Mode, threadKey: ThreadKey, thread: string, pid: int,
    targetCpu: int, pairedWith: Option<ThreadKey>, score: Option<real>, rho: real, nRun: nat)

  datatype Summary = Summary(mode: Mode, rho: real, nRun: nat, pairs: nat, boundThreads: nat)

  function CpuForCore(coreIdx: int, sibling: int): int { coreIdx * 2 + sibling }

  function Rho(nRun: nat, physicalCores: int): real {
    nRun as real / (if physicalCores < 1 then 1 else physicalCores) as real
  }

  function ModeOf(nRun: nat, physicalCores: int): Mode {
    if Rho(nRun, physicalCores) <= 1.0 then CE else SP
  }

  /** CE is chosen exactly when every runnable thread can have a core of its own. */
  lemma ModeIsCapacityTest(nRun: nat, physicalCores: int)
    ensures ModeOf(nRun, physicalCores) == CE <==> nRun <= physicalCores || nRun <= 1
  {
  }

  function Bind(r: Row, mode: Mode, cpu: int, partner: Option<ThreadKey>, score: Option<real>,
                rho: real, nRun: nat): Decision {
    Decision(r.loadType, r.windowId, mode, r.threadKey, r.thread, r.pid, cpu, partner, score, rho, nRun)
  }

  function CeDecisions(rows: seq<Row>, rho: real, nRun: nat): seq<Decision> {
    seq(|rows|, c requires 0 <= c < |rows| => Bind(rows[c], CE, CpuForCore(c, 0), None, None, rho, nRun))
  }

  /** The n-th binding of an SP window: one half of the pair of core n / 2. */
  function Half(cands: seq<Row>, e: Edge, n: nat, rho: real, nRun: nat): Decision
    requires e.i < |cands| && e.j < |cands|
  {
    var mine, other := cands[if n % 2 == 0 then e.i else e.j], cands[if n % 2 == 0 then e.j else e.i];
    Bind(mine, SP, CpuForCore(n / 2, n % 2), Some(other.threadKey), Some(e.score), rho, nRun)
  }

  /** The bindings of a list of chosen pairs, one core each. */
  function SpDecisions(cands: seq<Row>, chosen: seq<Edge>, rho: real, nRun: nat): seq<Decision>
    requires InRange(chosen, |cands|)
  {
    seq(2 * |chosen|, n requires 0 <= n < 2 * |chosen| =>
        assert chosen[n / 2] in chosen; Half(cands, chosen[n / 2], n, rho, nRun))
  }

  function Keys(rows: seq<Row>): (ks: seq<ThreadKey>)
    ensures |ks| == |rows|
  {
    seq(|rows|, i requires 0 <= i < |rows| => rows[i].threadKey)
  }

  function Candidates(order: seq<Row>, topK: int): seq<Row> {
    Head(order, if topK < |order| then topK else |order|)
  }

  /** The candidate edges, best first. */
  function RankedEdges(n: nat, table: Table): (es: seq<Edge>)
    ensures Ranked(es, n)
    ensures forall e :: e in es <==> IsCandidateEdge(e, n, table)
  {
    var raw := EdgesBefore(n, table, n);
    var es := SortDesc(raw, ByScore);
    SortDescSorts(raw, ByScore);
    assert forall e :: e in es <==> IsCandidateEdge(e, n, table) by {
      forall e ensures e in es <==> IsCandidateEdge(e, n, table) {
        EdgesComplete(n, table, n, e);
        assert (e in es <==> e in multiset(es)) && (e in raw <==> e in multiset(raw));
      }
    }
    es
  }

  /** The pairs an SP window chooses among its candidates. */
  function Chosen(cands: seq<Row>, physicalCores: int, theta: real): (g: seq<Edge>)
    ensures InRange(g, |cands|)
  {
    var es := RankedEdges(|cands|, ScoreTable(cands, theta));
    GreedyIsMatching(es, Keys(cands), {}, physicalCores);
    Greedy(es, Keys(cands), {}, physicalCores)
  }

  /** The decisions of a window whose rows are already in descending order of intensity. */
  function Schedule(order: seq<Row>, physicalCores: int, theta: real, topK: int): seq<Decision> {
    var rho := Rho(|order|, physicalCores);
    if ModeOf(|order|, physicalCores) == CE then CeDecisions(Head(order, physicalCores), rho, |order|)
    else
      var cands := Candidates(order, topK);
      SpDecisions(cands, Chosen(cands, physicalCores, theta), rho, |order|)
  }

  ghost predicate IsIntensityOrder(order: seq<Row>, rows: seq<Row>) {
    multiset(order) == multiset(rows) && Descending(order, ByIntensity)
  }

  method BindAlone(bound: seq<Row>, rho: real, nRun: nat) returns (decisions: seq<Decision>)
    ensures decisions == CeDecisions(bound, rho, nRun)
  {
    decisions := [];
    for coreIdx := 0 to |bound|
      invariant decisions == CeDecisions(bound, rho, nRun)[..coreIdx]
    {
      decisions := decisions + [Bind(bound[coreIdx], CE, CpuForCore(coreIdx, 0), None, None, rho, nRun)];
    }
  }

  /** After t edges the loop has picked a prefix of its result and still owes the rest. */
  ghost predicate MidGreedy(edges: seq<Edge>, t: nat, keys: seq<ThreadKey>, used: set<ThreadKey>, cores: int,
                            picked: seq<Edge>) {
    && t <= |edges| && InRange(edges, |keys|) && InRange(picked, |keys|) && InRange(edges[t..], |keys|)
    && picked + Greedy(edges[t..], keys, used, cores - |picked|) == Greedy(edges, keys, {}, cores)
  }

  lemma MidGreedyStep(edges: seq<Edge>, t: nat, keys: seq<ThreadKey>, used: set<ThreadKey>, cores: int,
                      picked: seq<Edge>)
    requires MidGreedy(edges, t, keys, used, cores, picked)
    ensures t == |edges| || |picked| >= cores ==> picked == Greedy(edges, keys, {}, cores)
    ensures t < |edges| && |picked| < cores ==>
              var e := edges[t];
              && e.i < |keys| && e.j < |keys|
              && if Touches(e, keys, used) then MidGreedy(edges, t + 1, keys, used, cores, picked)
                 else MidGreedy(edges, t + 1, keys, used + {keys[e.i], keys[e.j]}, cores, picked + [e])
  {
    if t < |edges| {
      assert edges[t] in edges[t..] && edges[t..][1..] == edges[t + 1..];
    }
  }

  /** The two bindings of one pair. */
  method BindPair(cands: seq<Row>, decisions: seq<Decision>, e: Edge, coreIdx: nat, rho: real, nRun: nat,
                  ghost picked: seq<Edge>) returns (more: seq<Decision>)
    requires InRange(picked, |cands|) && |picked| == coreIdx && e.i < |cands| && e.j < |cands|
    requires decisions == SpDecisions(cands, picked, rho, nRun)
    ensures InRange(picked + [e], |cands|) && more == SpDecisions(cands, picked + [e], rho, nRun)
  {
    var Edge(score, i, j) := e;
    var a, b := cands[i], cands[j];
    SpDecisionsSnoc(cands, picked, e, rho, nRun);
    more := decisions + [Bind(a, SP, CpuForCore(coreIdx, 0), Some(b.threadKey), Some(score), rho, nRun)];
    more := more + [Bind(b, SP, CpuForCore(coreIdx, 1), Some(a.threadKey), Some(score), rho, nRun)];
  }

  method BindPairs(cands: seq<Row>, edges: seq<Edge>, physicalCores: int, rho: real, nRun: nat)
    returns (decisions: seq<Decision>, pairCount: nat)
    requires InRange(edges, |cands|)
    ensures InRange(Greedy(edges, Keys(cands), {}, physicalCores), |cands|)
    ensures decisions == SpDecisions(cands, Greedy(edges, Keys(cands), {}, physicalCores), rho, nRun)
    ensures |decisions| == 2 * pairCount
  {
    ghost var keys, picked := Keys(cands), [];
    decisions := [];
    pairCount := 0;
    var coreIdx, t, usedThreads := 0, 0, {};
    assert edges[0..] == edges;
    while t < |edges|
      invariant 0 <= t <= |edges| && |picked| == coreIdx == pairCount
      invariant MidGreedy(edges, t, keys, usedThreads, physicalCores, picked)
      invariant decisions == SpDecisions(cands, picked, rho, nRun)
    {
      MidGreedyStep(edges, t, keys, usedThreads, physicalCores, picked);
      if coreIdx >= physicalCores {
        break;
      }
      var Edge(score, i, j) := edges[t];
      var a, b := cands[i], cands[j];
      t := t + 1;
      if a.threadKey in usedThreads || b.threadKey in usedThreads {
        continue;
      }
      decisions := BindPair(cands, decisions, edges[t - 1], coreIdx, rho, nRun, picked);
      picked := picked + [edges[t - 1]];
      usedThreads := usedThreads + {a.threadKey, b.threadKey};
      coreIdx := coreIdx + 1;
      pairCount := pairCount + 1;
    }
    MidGreedyStep(edges, t, keys, usedThreads, physicalCores, picked);
  }

  lemma SpDecisionsSnoc(cands: seq<Row>, chosen: seq<Edge>, e: Edge, rho: real, nRun: nat)
    requires InRange(chosen, |cands|) && e.i < |cands| && e.j < |cands|
    ensures InRange(chosen + [e], |cands|)
    ensures SpDecisions(cands, chosen + [e], rho, nRun) ==
              SpDecisions(cands, chosen, rho, nRun)
              + [Half(cands, e, 2 * |chosen|, rho, nRun)] + [Half(cands, e, 2 * |chosen| + 1, rho, nRun)]
  {
  }

  /** `schedule_window`.  `order` is the order the intensity sort happened to produce; nothing is assumed
      about how it breaks ties. */
  method ScheduleWindow(subdf: seq<Row>, physicalCores: int, theta: real, topK: int)
    returns (decisions: seq<Decision>, summary: Summary, ghost order: seq<Row>)
    ensures IsIntensityOrder(order, subdf)
    ensures decisions == Schedule(order, physicalCores, theta, topK)
    ensures forall d :: d in decisions ==> TakenIn(d, subdf, physicalCores)
    ensures summary == Summary(ModeOf(|subdf|, physicalCores), Rho(|subdf|, physicalCores), |subdf|,
                               if summary.mode == CE then 0 else |decisions| / 2, |decisions|)
  {
    var rows := SortDesc(subdf, ByIntensity);
    SortDescSorts(subdf, ByIntensity);
    order := rows;
    AllTaken(rows, subdf, physicalCores, theta, topK);
    assert |rows| == |multiset(rows)| == |subdf|;
    var nRun := |rows|;
    var rho := Rho(nRun, physicalCores);
    var mode := ModeOf(nRun, physicalCores);
    if mode == CE {
      decisions := BindAlone(Head(rows, physicalCores), rho, nRun);
      summary := Summary(mode, rho, nRun, 0, |decisions|);
      return;
    }
    var cands := Candidates(rows, topK);
    var edges := BuildEdges(cands, theta);
    edges := SortDesc(edges, ByScore);
    assert edges == RankedEdges(|cands|, ScoreTable(cands, theta));
    var pairCount;
    decisions, pairCount := BindPairs(cands, edges, physicalCores, rho, nRun);
    summary := Summary(mode, rho, nRun, pairCount, |decisions|);
  }

  // ---------- What a window promises ----------

  /** SP collects at least half the score of any thread-disjoint set of candidate pairs that fits the cores. */
  lemma SpIsHalfOptimal(cands: seq<Row>, physicalCores: int, theta: real, opt: seq<Edge>)
    requires Matching(opt, Keys(cands)) && |opt| <= physicalCores
    requires forall o :: o in opt ==> IsCandidateEdge(o, |cands|, ScoreTable(cands, theta))
    ensures Total(opt) <= 2.0 * Total(Chosen(cands, physicalCores, theta))
  {
    GreedyIsHalfOptimal(RankedEdges(|cands|, ScoreTable(cands, theta)), Keys(cands), {}, physicalCores, opt);
  }

  // ---------- The factor two is the best possible ----------

  const BRANCHY := Prediction(0.0, 0.0, 0.0, 0.0, 0.0, 1.0, 0.0)
  const FETCHING := Prediction(0.0, 0.0, 1.0, 0.0, 0.0, 0.0, 0.0)
  const LOADING := Prediction(0.0, 0.0, 0.0, 1.0, 0.0, 0.0, 0.0)

  function TightRow(k: ThreadKey, p: Prediction): Row { Row("", 0, k, k.name, 0, p) }

  /** Four threads: the two in front complement each other and each of the others, who are alike. */
  function TightRows(a: ThreadKey, b: ThreadKey, c: ThreadKey, d: ThreadKey): seq<Row> {
    [TightRow(a, BRANCHY), TightRow(b, FETCHING), TightRow(c, LOADING), TightRow(d, LOADING)]
  }

  /** What two predictions score that agree but for these four features, with a threshold of one half. */
  lemma ScoreOfFew(a: Prediction, b: Prediction)
    requires a.ipc == a.llc == a.l2 == a.tlb == b.ipc == b.llc == b.l2 == b.tlb == 0.0
    ensures Score(a, b, 0.5) ==
              ScoreTerm(a, b, 0.5, L1I) + ScoreTerm(a, b, 0.5, L1D) + ScoreTerm(a, b, 0.5, BR)
  {
    ScoreExpanded(a, b, 0.5);
    assert ScoreTerm(a, b, 0.5, IPC) == ScoreTerm(a, b, 0.5, LLC) == 0.0;
    assert ScoreTerm(a, b, 0.5, L2) == ScoreTerm(a, b, 0.5, TLB) == 0.0;
  }

  lemma PairScore(a: Prediction, b: Prediction, score: real)
    requires a.ipc == a.llc == a.l2 == a.tlb == b.ipc == b.llc == b.l2 == b.tlb == 0.0
    requires score == ScoreTerm(a, b, 0.5, L1I) + ScoreTerm(a, b, 0.5, L1D) + ScoreTerm(a, b, 0.5, BR)
    ensures Score(a, b, 0.5) == score
  {
    ScoreOfFew(a, b);
  }

  lemma BranchyWithFetching()
    ensures Score(BRANCHY, FETCHING, 0.5) == 2.0
  {
    PairScore(BRANCHY, FETCHING, 2.0);
  }

  lemma BranchyWithLoading()
    ensures Score(BRANCHY, LOADING, 0.5) == 2.0
  {
    PairScore(BRANCHY, LOADING, 2.0);
  }

  lemma FetchingWithLoading()
    ensures Score(FETCHING, LOADING, 0.5) == 2.0
  {
    PairScore(FETCHING, LOADING, 2.0);
  }

  lemma LoadingWithLoading()
    ensures Score(LOADING, LOADING, 0.5) == -0.5
  {
    PairScore(LOADING, LOADING, -0.5);
  }

  /** The scores of the four threads. */
  lemma TightScores(rows: seq<Row>)
    requires |rows| == 4 && rows[0].pred == BRANCHY && rows[1].pred == FETCHING
    requires rows[2].pred == rows[3].pred == LOADING
    ensures TightTable(ScoreTable(rows, 0.5))
  {
    BranchyWithFetching();
    BranchyWithLoading();
    FetchingWithLoading();
    LoadingWithLoading();
  }

  const TIGHT: seq<Edge> := [Edge(2.0, 0, 1), Edge(2.0, 0, 2), Edge(2.0, 0, 3), Edge(2.0, 1, 2), Edge(2.0, 1, 3)]

  predicate TightTable(table: Table) {
    table(0, 1) == table(0, 2) == table(0, 3) == table(1, 2) == table(1, 3) == 2.0 && table(2, 3) < 0.0
  }

  lemma FirstRow(table: Table)
    requires TightTable(table)
    ensures RowEdges(table, 0, 4) == [Edge(2.0, 0, 1), Edge(2.0, 0, 2), Edge(2.0, 0, 3)]
  {
    assert RowEdges(table, 0, 2) == [Edge(2.0, 0, 1)];
  }

  lemma OtherRows(table: Table)
    requires TightTable(table)
    ensures RowEdges(table, 1, 4) == [Edge(2.0, 1, 2), Edge(2.0, 1, 3)]
    ensures RowEdges(table, 2, 4) == [] && RowEdges(table, 3, 4) == []
  {
  }

  lemma TightEdges(table: Table)
    requires TightTable(table)
    ensures EdgesBefore(4, table, 4) == TIGHT
  {
    FirstRow(table);
    OtherRows(table);
    assert EdgesBefore(4, table, 1) == [] + RowEdges(table, 0, 4);
    assert EdgesBefore(4, table, 2) == EdgesBefore(4, table, 1) + RowEdges(table, 1, 4);
    assert EdgesBefore(4, table, 4) == EdgesBefore(4, table, 2) + [] + [];
  }

  /** Equal scores keep their order. */
  lemma {:induction false} SortKeepsEqual(es: seq<Edge>, score: real)
    requires forall e :: e in es ==> e.score == score
    ensures SortDesc(es, ByScore) == es
  {
    if es != [] {
      SortKeepsEqual(es[1..], score);
      assert es == [es[0]] + es[1..];
    }
  }

  lemma {:induction false} AllTouched(es: seq<Edge>, keys: seq<ThreadKey>, used: set<ThreadKey>, cores: int)
    requires InRange(es, |keys|) && forall e :: e in es ==> Touches(e, keys, used)
    ensures Greedy(es, keys, used, cores) == []
  {
    if es != [] && cores > 0 {
      AllTouched(es[1..], keys, used, cores);
    }
  }

  /** The loop pairs the first two threads, which leaves no edge. */
  lemma TightGreedy(keys: seq<ThreadKey>)
    requires |keys| == 4
    ensures InRange(TIGHT, 4) && Greedy(TIGHT, keys, {}, 2) == [Edge(2.0, 0, 1)]
  {
    var rest, used := TIGHT[1..], {} + {keys[0], keys[1]};
    forall e | e in rest ensures e.i < 4 && e.j < 4 && Touches(e, keys, used) {
      assert e == TIGHT[1] || e == TIGHT[2] || e == TIGHT[3] || e == TIGHT[4];
    }
    AllTouched(rest, keys, used, 1);
    assert [TIGHT[0]] + [] == [TIGHT[0]];
  }

  lemma TightRanked(rows: seq<Row>)
    requires |rows| == 4 && rows[0].pred == BRANCHY && rows[1].pred == FETCHING
    requires rows[2].pred == rows[3].pred == LOADING
    ensures RankedEdges(4, ScoreTable(rows, 0.5)) == TIGHT
  {
    TightScores(rows);
    TightEdges(ScoreTable(rows, 0.5));
    SortKeepsEqual(TIGHT, 2.0);
  }

  lemma TotalOfTwo(e: Edge, f: Edge)
    ensures Total([e]) == e.score && Total([e, f]) == e.score + f.score
  {
    assert [e][1..] == [] && [e, f][1..] == [f] && [f][1..] == [];
  }

  /** A window of four threads on two cores, listed by intensity, where the loop collects exactly half of what two
      pairs of candidates would: it pairs the first two threads, and the other two do not go together. */
  lemma HalfIsTight(a: ThreadKey, b: ThreadKey, c: ThreadKey, d: ThreadKey)
    requires a != b && a != c && a != d && b != c && b != d && c != d
    ensures var rows, opt := TightRows(a, b, c, d), [Edge(2.0, 0, 2), Edge(2.0, 1, 3)];
            && IsIntensityOrder(rows, rows) && ModeOf(|rows|, 2) == SP && Candidates(rows, 4) == rows
            && Matching(opt, Keys(rows)) && |opt| == 2
            && (forall o :: o in opt ==> IsCandidateEdge(o, |rows|, ScoreTable(rows, 0.5)))
            && Total(opt) == 2.0 * Total(Chosen(rows, 2, 0.5)) == 4.0
  {
    var rows := TightRows(a, b, c, d);
    TightOrder(a, b, c, d);
    TightScores(rows);
    TightPairs(rows, [Edge(2.0, 0, 2), Edge(2.0, 1, 3)], ScoreTable(rows, 0.5));
    TightRanked(rows);
    TightGreedy(Keys(rows));
    TotalOfTwo(Edge(2.0, 0, 1), Edge(2.0, 0, 1));
    TotalOfTwo(Edge(2.0, 0, 2), Edge(2.0, 1, 3));
  }

  lemma TightOrder(a: ThreadKey, b: ThreadKey, c: ThreadKey, d: ThreadKey)
    ensures var rows := TightRows(a, b, c, d);
            IsIntensityOrder(rows, rows) && ModeOf(|rows|, 2) == SP && Candidates(rows, 4) == rows
  {
    assert Intensity(BRANCHY) == 0.75 && Intensity(FETCHING) == 0.25 && Intensity(LOADING) == 0.2;
    ModeIsCapacityTest(4, 2);
  }

  lemma TightPairs(rows: seq<Row>, opt: seq<Edge>, table: Table)
    requires |rows| == 4 && DistinctKeys(rows) && opt == [Edge(2.0, 0, 2), Edge(2.0, 1, 3)]
    requires table(0, 2) == table(1, 3) == 2.0
    ensures Matching(opt, Keys(rows)) && forall o :: o in opt ==> IsCandidateEdge(o, |rows|, table)
  {
    var keys := Keys(rows);
    assert Apart(opt[0], opt[1], keys);
  }

  /** Every candidate edge that is not chosen is dominated; so the matching is maximal when a core is left free. */
  lemma SpDominates(cands: seq<Row>, physicalCores: int, theta: real, e: Edge)
    requires IsCandidateEdge(e, |cands|, ScoreTable(cands, theta))
    ensures var keys, g := Keys(cands), Chosen(cands, physicalCores, theta);
            && (e in g || Dominated(e, g, keys, physicalCores))
            && (e !in g && |g| < physicalCores ==> exists h :: h in g && !Apart(e, h, keys))
  {
    GreedyDominates(RankedEdges(|cands|, ScoreTable(cands, theta)), Keys(cands), {}, physicalCores, e);
  }

  ghost predicate DistinctKeys(rows: seq<Row>) {
    forall x, y :: 0 <= x < y < |rows| ==> rows[x].threadKey != rows[y].threadKey
  }

  /** No thread is bound twice and no CPU is used twice. */
  ghost predicate Exclusive(ds: seq<Decision>) {
    forall x, y :: 0 <= x < y < |ds| ==> ds[x].threadKey != ds[y].threadKey && ds[x].targetCpu != ds[y].targetCpu
  }

  /** A decision about the thread of a row. */
  predicate IsAbout(d: Decision, r: Row) {
    && d.loadType == r.loadType && d.windowId == r.windowId
    && d.threadKey == r.threadKey && d.thread == r.thread && d.pid == r.pid
  }

  /** A decision that was taken in a window of nRun threads. */
  predicate OfWindow(d: Decision, nRun: nat, physicalCores: int) {
    && d.nRun == nRun && d.rho * Max(1.0, physicalCores as real) == nRun as real
    && (d.mode == CE <==> nRun <= physicalCores || nRun <= 1)
  }

  /** Decisions 2c and 2c + 1 bind the two threads of a pair, each its own row's, to the siblings of core c. */
  predicate BindsPair(ds: seq<Decision>, c: nat, a: Row, b: Row, score: real) {
    && 2 * c + 1 < |ds|
    && var p, q := ds[2 * c], ds[2 * c + 1];
       && IsAbout(p, a) && p.targetCpu == 2 * c && p.pairedWith == Some(b.threadKey)
       && IsAbout(q, b) && q.targetCpu == 2 * c + 1 && q.pairedWith == Some(a.threadKey)
       && p.score == q.score == Some(score)
  }

  /** The decision is about a thread of the window, and carries the window's mode, load and size. */
  ghost predicate TakenIn(d: Decision, rows: seq<Row>, physicalCores: int) {
    OfWindow(d, |rows|, physicalCores) && exists r :: r in rows && IsAbout(d, r)
  }

  lemma HalfIsAbout(cands: seq<Row>, e: Edge, n: nat, rho: real, nRun: nat) returns (r: Row)
    requires e.i < |cands| && e.j < |cands|
    ensures r in cands && IsAbout(Half(cands, e, n, rho, nRun), r)
  {
    r := cands[if n % 2 == 0 then e.i else e.j];
  }

  lemma SpTakenIn(order: seq<Row>, cands: seq<Row>, g: seq<Edge>, physicalCores: int, n: nat)
    requires InRange(g, |cands|) && n < 2 * |g| && cands <= order && ModeOf(|order|, physicalCores) == SP
    ensures TakenIn(SpDecisions(cands, g, Rho(|order|, physicalCores), |order|)[n], order, physicalCores)
  {
    assert g[n / 2] in g;
    ModeIsCapacityTest(|order|, physicalCores);
    RhoIsLoad(|order|, physicalCores);
    var r := HalfIsAbout(cands, g[n / 2], n, Rho(|order|, physicalCores), |order|);
    assert r in order;
  }

  /** Every decision is about a row of the window. */
  lemma DecisionsTaken(order: seq<Row>, physicalCores: int, theta: real, topK: int, n: nat)
    requires n < |Schedule(order, physicalCores, theta, topK)|
    ensures TakenIn(Schedule(order, physicalCores, theta, topK)[n], order, physicalCores)
  {
    if ModeOf(|order|, physicalCores) == CE {
      ModeIsCapacityTest(|order|, physicalCores);
      RhoIsLoad(|order|, physicalCores);
      assert IsAbout(Schedule(order, physicalCores, theta, topK)[n], order[n]);
    } else {
      var cands := Candidates(order, topK);
      SpTakenIn(order, cands, Chosen(cands, physicalCores, theta), physicalCores, n);
    }
  }

  lemma AllTaken(order: seq<Row>, rows: seq<Row>, physicalCores: int, theta: real, topK: int)
    requires multiset(order) == multiset(rows)
    ensures forall d :: d in Schedule(order, physicalCores, theta, topK) ==> TakenIn(d, rows, physicalCores)
  {
    var ds := Schedule(order, physicalCores, theta, topK);
    assert |order| == |multiset(order)| == |rows|;
    forall n | 0 <= n < |ds| ensures TakenIn(ds[n], rows, physicalCores) {
      DecisionsTaken(order, physicalCores, theta, topK, n);
      var r :| r in order && IsAbout(ds[n], r);
      assert r in multiset(order);
    }
  }

  lemma RhoIsLoad(nRun: nat, physicalCores: int)
    ensures Rho(nRun, physicalCores) * Max(1.0, physicalCores as real) == nRun as real
  {
  }

  /** The candidates are the most intense threads: topK of them, or all if there are fewer; a negative topK leaves that
      many out. */
  lemma CandidatesAre(order: seq<Row>, topK: int)
    ensures var n := if topK >= |order| then |order| else if topK >= 0 then topK
                     else if |order| + topK >= 0 then |order| + topK else 0;
            Candidates(order, topK) == order[..n]
  {
  }

  /** A CE window never uses a CPU twice, gives core c's first sibling to the c-th most intense thread, and
      binds all threads exactly when there is a core to bind to. */
  lemma CeWindow(order: seq<Row>, physicalCores: int, theta: real, topK: int)
    requires ModeOf(|order|, physicalCores) == CE
    ensures var ds := Schedule(order, physicalCores, theta, topK);
            && |ds| <= |order|
            && (forall c :: 0 <= c < |ds| ==> IsAbout(ds[c], order[c]) && ds[c].targetCpu == 2 * c
                                              && ds[c].pairedWith == None && ds[c].score == None)
            && (|ds| == |order| <==> physicalCores >= 1 || order == [])
            && (|ds| == |order| ==> (Exclusive(ds) <==> DistinctKeys(order)))
  {
    ModeIsCapacityTest(|order|, physicalCores);
    var bound, rho := Head(order, physicalCores), Rho(|order|, physicalCores);
    assert bound == order[..|bound|] && (|bound| == |order| <==> physicalCores >= 1 || order == []);
    if |bound| == |order| {
      assert bound == order;
      CeExclusive(order, rho, |order|);
    }
  }

  lemma CeExclusive(rows: seq<Row>, rho: real, nRun: nat)
    ensures Exclusive(CeDecisions(rows, rho, nRun)) <==> DistinctKeys(rows)
  {
    var ds := CeDecisions(rows, rho, nRun);
    if Exclusive(ds) {
      forall x, y | 0 <= x < y < |rows| ensures rows[x].threadKey != rows[y].threadKey {
        assert ds[x].threadKey != ds[y].threadKey;
      }
    }
  }

  /** Pair c of an SP window sits on the two siblings of core c, and its halves name each other. */
  lemma PairOnSiblings(cands: seq<Row>, chosen: seq<Edge>, rho: real, nRun: nat, c: nat)
    requires InRange(chosen, |cands|) && c < |chosen|
    ensures chosen[c] in chosen
    ensures var e := chosen[c]; BindsPair(SpDecisions(cands, chosen, rho, nRun), c, cands[e.i], cands[e.j], e.score)
  {
  }

  lemma SpExclusive(cands: seq<Row>, chosen: seq<Edge>, rho: real, nRun: nat)
    requires InRange(chosen, |cands|) && Matching(chosen, Keys(cands))
    requires forall e :: e in chosen ==> cands[e.i].threadKey != cands[e.j].threadKey
    ensures Exclusive(SpDecisions(cands, chosen, rho, nRun))
  {
    var ds := SpDecisions(cands, chosen, rho, nRun);
    forall x, y | 0 <= x < y < |ds|
      ensures ds[x].threadKey != ds[y].threadKey && ds[x].targetCpu != ds[y].targetCpu
    {
      var e, f := chosen[x / 2], chosen[y / 2];
      assert e in chosen && f in chosen;
      assert ds[x] == Half(cands, e, x, rho, nRun) && ds[y] == Half(cands, f, y, rho, nRun);
      if x / 2 != y / 2 {
        assert Apart(e, f, Keys(cands));
      }
    }
  }

  /** An SP window binds two threads per chosen pair, at most `physicalCores` pairs, and with distinct
      thread keys shares neither a thread nor a CPU. */
  lemma SpWindow(order: seq<Row>, physicalCores: int, theta: real, topK: int)
    requires ModeOf(|order|, physicalCores) == SP
    ensures var cands := Candidates(order, topK);
            var ds, g := Schedule(order, physicalCores, theta, topK), Chosen(cands, physicalCores, theta);
            && |ds| == 2 * |g| && |g| <= (if physicalCores < 0 then 0 else physicalCores)
            && (forall e :: e in g ==> IsCandidateEdge(e, |cands|, ScoreTable(cands, theta)))
            && Matching(g, Keys(cands))
            && (forall c :: 0 <= c < |g| ==>
                  g[c].i < |cands| && g[c].j < |cands|
                  && BindsPair(ds, c, cands[g[c].i], cands[g[c].j], g[c].score))
            && (DistinctKeys(order) ==> Exclusive(ds))
  {
    var cands := Candidates(order, topK);
    var g := Chosen(cands, physicalCores, theta);
    forall c | 0 <= c < |g|
      ensures g[c].i < |cands| && g[c].j < |cands|
      ensures BindsPair(Schedule(order, physicalCores, theta, topK), c, cands[g[c].i], cands[g[c].j], g[c].score)
    {
      PairOnSiblings(cands, g, Rho(|order|, physicalCores), |order|, c);
    }
    GreedyIsMatching(RankedEdges(|cands|, ScoreTable(cands, theta)), Keys(cands), {}, physicalCores);
    if DistinctKeys(order) {
      assert DistinctKeys(cands);
      forall e | e in g ensures cands[e.i].threadKey != cands[e.j].threadKey {
        assert IsCandidateEdge(e, |cands|, ScoreTable(cands, theta));
      }
      SpExclusive(cands, g, Rho(|order|, physicalCores), |order|);
    }
  }
}
