/**
 A graph of BTF types, and which types are reached from one by the references that marking follows.
 */
module BtfTypes {

  datatype Member = Member(name: string, typeId: nat, bitOffset: nat, bitfieldSize: nat)

  datatype Param = Param(name: string, typeId: nat)

  datatype Modifier = Const | Restrict | Volatile | Typedef

  /** What a type is.  `Scalar` stands for INT, FLOAT, ENUM and ENUM64, and `Other` for FWD, FUNC, VAR, DECL_TAG and
      TYPE_TAG, which hold one reference. */
  datatype Body =
    | Unkn
    | Scalar(details: string)
    | Ptr(target: nat)
    | Mod(kind: Modifier, target: nat)
    | Array(elem: nat, index: nat, nelems: nat)
    | Composite(isUnion: bool, size: nat, members: seq<Member>)
    | FuncProto(ret: nat, params: seq<Param>)
    | Other(details: string, target: nat)
    | DataSec(vars: seq<Param>)

  datatype Type = Type(name: string, body: Body)

  const VOID := Type("", Unkn)

  /** The references in a type, in order. */
  function Ids(body: Body): seq<nat> {
    match body
    case Unkn => []
    case Scalar(_) => []
    case Ptr(t) => [t]
    case Mod(_, t) => [t]
    case Array(e, i, _) => [e, i]
    case Composite(_, _, ms) => seq(|ms|, k requires 0 <= k < |ms| => ms[k].typeId)
    case FuncProto(r, ps) => [r] + ParamIds(ps)
    case Other(_, t) => [t]
    case DataSec(vs) => ParamIds(vs)
  }

  function ParamIds(ps: seq<Param>): (r: seq<nat>)
    ensures |r| == |ps|
  {
    seq(|ps|, k requires 0 <= k < |ps| => ps[k].typeId)
  }

  /** All references are to types of the graph, whose type 0 is void. */
  ghost predicate ValidBtf(src: seq<Type>) {
    && |src| > 0 && src[0] == VOID
    && forall i, k :: 0 <= i < |src| && 0 <= k < |Ids(src[i].body)| ==> Ids(src[i].body)[k] < |src|
  }

  /** The references that marking follows: never into structs and unions, through pointers only if asked to. */
  function Followed(body: Body, followPointers: bool): seq<nat> {
    match body
    case Ptr(t) => if followPointers then [t] else []
    case Mod(_, t) => [t]
    case Array(e, i, _) => [e, i]
    case FuncProto(r, ps) => [r] + ParamIds(ps)
    case _ => []
  }

  lemma FollowedValid(src: seq<Type>, fp: bool, i: nat, k: nat)
    requires ValidBtf(src) && i < |src| && k < |Followed(src[i].body, fp)|
    ensures Followed(src[i].body, fp)[k] < |src|
  {
    assert Followed(src[i].body, fp) == Ids(src[i].body);
  }

  predicate Supported(body: Body) { !body.Other? && !body.DataSec? }

  // ---------- Reachability ----------

  ghost predicate Links(src: seq<Type>, fp: bool, a: nat, b: nat)
    requires a < |src|
  {
    b in Followed(src[a].body, fp)
  }

  /** A path along followed references that does not touch void. */
  ghost predicate IsChain(src: seq<Type>, fp: bool, p: seq<nat>) {
    && p != [] && (forall i :: 0 <= i < |p| ==> 0 < p[i] < |src|)
    && forall i :: 0 < i < |p| ==> Links(src, fp, p[i - 1], p[i])
  }

  ghost predicate Joins(src: seq<Type>, fp: bool, p: seq<nat>, a: nat, b: nat) {
    IsChain(src, fp, p) && p[0] == a && p[|p| - 1] == b
  }

  ghost predicate Reaches(src: seq<Type>, fp: bool, a: nat, b: nat) {
    exists p :: Joins(src, fp, p, a, b)
  }

  /** What one reference more reaches. */
  ghost predicate ReachesVia(src: seq<Type>, fp: bool, refs: seq<nat>, m: nat, b: nat)
    requires m <= |refs|
  {
    exists j :: 0 <= j < m && Reaches(src, fp, refs[j], b)
  }

  lemma ReachesStep(src: seq<Type>, fp: bool, a: nat, b: nat)
    requires 0 < a < |src|
    ensures var refs := Followed(src[a].body, fp);
            Reaches(src, fp, a, b) <==> a == b || ReachesVia(src, fp, refs, |refs|, b)
  {
    var refs := Followed(src[a].body, fp);
    if Reaches(src, fp, a, b) {
      var p :| Joins(src, fp, p, a, b);
      if |p| > 1 {
        ChainTail(src, fp, p);
        var j :| 0 <= j < |refs| && refs[j] == p[1];
        assert Joins(src, fp, p[1..], refs[j], b);
      }
    }
    if a == b {
      assert Joins(src, fp, [a], a, b);
    } else if j :| 0 <= j < |refs| && Reaches(src, fp, refs[j], b) {
      var p :| Joins(src, fp, p, refs[j], b);
      ChainCons(src, fp, a, p);
    }
  }

  /** What is followed are all references of typedefs, modifiers, arrays and function prototypes, and those of pointers
      if asked to; and these kinds, scalars, structs, unions and the unknown kind are supported. */
  lemma FollowsExactly(src: seq<Type>, fp: bool, a: nat, b: nat)
    requires a < |src|
    ensures var t := src[a].body;
            && (Links(src, fp, a, b) <==> b in Ids(t) && (t.Mod? || t.Array? || t.FuncProto? || (t.Ptr? && fp)))
            && (Supported(t) <==>
                  t.Unkn? || t.Scalar? || t.Ptr? || t.Mod? || t.Array? || t.Composite? || t.FuncProto?)
  {
  }

  /** A pointer reaches what its target does if pointers are followed, and only itself if not. */
  lemma PointerReaches(src: seq<Type>, a: nat, x: nat)
    requires 0 < a < |src| && src[a].body.Ptr?
    ensures Reaches(src, true, a, x) <==> x == a || Reaches(src, true, src[a].body.target, x)
    ensures Reaches(src, false, a, x) <==> x == a
  {
    ReachesStep(src, true, a, x);
    ReachesStep(src, false, a, x);
    assert Followed(src[a].body, true)[0] == src[a].body.target;
  }

  lemma ChainTail(src: seq<Type>, fp: bool, p: seq<nat>)
    requires IsChain(src, fp, p) && |p| > 1
    ensures IsChain(src, fp, p[1..]) && p[1] in Followed(src[p[0]].body, fp)
  {
  }

  lemma ChainCons(src: seq<Type>, fp: bool, a: nat, p: seq<nat>)
    requires IsChain(src, fp, p) && 0 < a < |src| && p[0] in Followed(src[a].body, fp)
    ensures Joins(src, fp, [a] + p, a, p[|p| - 1])
  {
  }

  lemma ChainSnoc(src: seq<Type>, fp: bool, p: seq<nat>, b: nat)
    requires IsChain(src, fp, p) && 0 < b < |src| && b in Followed(src[p[|p| - 1]].body, fp)
    ensures IsChain(src, fp, p + [b])
  {
  }

  // ---------- No cycles ----------

  ghost predicate NoRepeats(p: seq<nat>) { forall i, j :: 0 <= i < j < |p| ==> p[i] != p[j] }

  /** No followed path from the type comes back to where it has been. */
  ghost predicate AcyclicFrom(src: seq<Type>, fp: bool, root: nat) {
    forall p :: ComesNotBack(src, fp, root, p)
  }

  ghost predicate ComesNotBack(src: seq<Type>, fp: bool, root: nat, p: seq<nat>) {
    IsChain(src, fp, p) && p[0] == root ==> NoRepeats(p)
  }

  function Numbers(n: nat): (r: set<nat>)
    ensures |r| == n && forall x :: 0 <= x < n <==> x in r
  {
    if n == 0 then {} else Numbers(n - 1) + {n - 1}
  }

  lemma {:induction false} Smaller(a: set<nat>, b: set<nat>)
    requires a <= b
    ensures |a| <= |b|
  {
    if a != {} {
      var x :| x in a;
      Smaller(a - {x}, b - {x});
    }
  }

  function Elements(p: seq<nat>): (r: set<nat>)
    ensures forall x :: x in r <==> x in p
    ensures NoRepeats(p) ==> |r| == |p|
  {
    if p == [] then {} else Elements(p[..|p| - 1]) + {p[|p| - 1]}
  }

  /** A path without repetition is no longer than there are types. */
  lemma ChainBounded(src: seq<Type>, fp: bool, p: seq<nat>)
    requires IsChain(src, fp, p) && AcyclicFrom(src, fp, p[0])
    ensures |p| <= |src|
  {
    assert ComesNotBack(src, fp, p[0], p);
    assert Elements(p) <= Numbers(|src|);
    Smaller(Elements(p), Numbers(|src|));
  }

  /** Recursion along followed references from the type goes no deeper than n. */
  ghost predicate DepthBounded(src: seq<Type>, fp: bool, root: nat, n: nat) {
    forall p :: IsChain(src, fp, p) && p[0] == root ==> |p| <= n
  }

  /** A path that comes back to where it has been can go round as often as wanted. */
  lemma {:induction false} Pump(src: seq<Type>, fp: bool, p: seq<nat>, i: nat, j: nat, n: nat) returns (q: seq<nat>)
    requires IsChain(src, fp, p) && i < j < |p| && p[i] == p[j]
    ensures IsChain(src, fp, q) && q[0] == p[0] && q[|q| - 1] == p[j] && |q| > n
  {
    if n == 0 {
      q := p[..j + 1];
      ChainPart(src, fp, p, 0, j + 1);
    } else {
      var before := Pump(src, fp, p, i, j, n - 1);
      var round := Round(src, fp, p, i, j);
      ChainConcat(src, fp, before, round);
      q := before + round;
    }
  }

  lemma Round(src: seq<Type>, fp: bool, p: seq<nat>, i: nat, j: nat) returns (r: seq<nat>)
    requires IsChain(src, fp, p) && i < j < |p| && p[i] == p[j]
    ensures IsChain(src, fp, r) && p[j] < |src| && Links(src, fp, p[j], r[0]) && r[|r| - 1] == p[j]
  {
    r := p[i + 1..j + 1];
    ChainPart(src, fp, p, i + 1, j + 1);
    assert Links(src, fp, p[i + 1 - 1], p[i + 1]);
  }

  lemma ChainPart(src: seq<Type>, fp: bool, p: seq<nat>, lo: nat, hi: nat)
    requires IsChain(src, fp, p) && lo < hi <= |p|
    ensures IsChain(src, fp, p[lo..hi])
  {
    forall x | 0 < x < hi - lo ensures Links(src, fp, p[lo..hi][x - 1], p[lo..hi][x]) {
      assert Links(src, fp, p[lo + x - 1], p[lo + x]);
    }
  }

  lemma ChainConcat(src: seq<Type>, fp: bool, p: seq<nat>, q: seq<nat>)
    requires IsChain(src, fp, p) && IsChain(src, fp, q) && Links(src, fp, p[|p| - 1], q[0])
    ensures IsChain(src, fp, p + q)
  {
    var r := p + q;
    forall x | 0 < x < |r| ensures Links(src, fp, r[x - 1], r[x]) {
      if x < |p| {
        assert Links(src, fp, p[x - 1], p[x]);
      } else if x > |p| {
        assert Links(src, fp, q[x - |p| - 1], q[x - |p|]);
      }
    }
  }

  /** The hypothesis is what it takes: recursion along followed references is bounded if and only if no path from the
      type comes back to where it has been. */
  lemma DepthBoundedExactly(src: seq<Type>, fp: bool, root: nat)
    ensures AcyclicFrom(src, fp, root) <==> exists n :: DepthBounded(src, fp, root, n)
  {
    if AcyclicFrom(src, fp, root) {
      forall p | IsChain(src, fp, p) && p[0] == root ensures |p| <= |src| {
        ChainBounded(src, fp, p);
      }
      assert DepthBounded(src, fp, root, |src|);
    } else if n :| DepthBounded(src, fp, root, n) {
      var p :| !ComesNotBack(src, fp, root, p);
      var i, j :| 0 <= i < j < |p| && p[i] == p[j];
      var q := Pump(src, fp, p, i, j, n);
    }
  }
}
