/**
 What accesses to fields and types need of a type graph, and why the marks that record them leave no reference
 dangling.
 */
module BtfAccess {
  import opened BtfTypes

  /** Everything reached is of a kind that marking knows. */
  ghost predicate AllSupported(src: seq<Type>, fp: bool, id: nat) {
    forall x :: 0 <= x < |src| && Reaches(src, fp, id, x) ==> Supported(src[x].body)
  }

  // ---------- Accesses ----------

  /** The type under at most n typedefs and modifiers. */
  function Bare(src: seq<Type>, id: nat, n: nat): (r: nat)
    requires id < |src|
    ensures r < |src|
    decreases n
  {
    if n > 0 && src[id].body.Mod? && src[id].body.target < |src| then Bare(src, src[id].body.target, n - 1) else id
  }

  /** A walk from a type through members: where it is, the types whose needs it has collected, the members it went
      through, and whether it did not run into anything else. */
  datatype Access = Access(id: nat, ids: seq<nat>, hits: set<(nat, nat)>, ok: bool)

  function Step(src: seq<Type>, a: Access, k: nat): Access {
    if a.id >= |src| then a.(ok := false)
    else
      var b := Bare(src, a.id, |src|);
      match src[b].body
      case Composite(_, _, ms) =>
        if k < |ms| then Access(ms[k].typeId, a.ids + [ms[k].typeId], a.hits + {(b, k)}, a.ok) else a.(ok := false)
      case Array(e, _, _) => a.(id := e)
      case _ => a.(ok := false)
  }

  /** The walk along the first n entries of an access; entry 0 is the root. */
  function AccessTo(src: seq<Type>, root: nat, spec: seq<nat>, n: nat): Access
    requires n <= |spec|
  {
    if n <= 1 then Access(root, [root], {}, true)
    else
      var a := AccessTo(src, root, spec, n - 1);
      if a.ok then Step(src, a, spec[n - 1]) else a
  }

  predicate IndexOk(src: seq<Type>, a: Access, k: nat) {
    a.id < |src| && var b := src[Bare(src, a.id, |src|)].body; b.Composite? ==> k < |b.members|
  }

  /** The walk goes through, and needs only kinds that marking knows. */
  ghost predicate Accessible(src: seq<Type>, root: nat, spec: seq<nat>) {
    var a := AccessTo(src, root, spec, |spec|);
    a.ok && forall j :: 0 <= j < |a.ids| ==> AllSupported(src, false, a.ids[j])
  }

  lemma {:induction false} AccessGrows(src: seq<Type>, root: nat, spec: seq<nat>, m: nat, n: nat)
    requires m <= n <= |spec|
    ensures AccessTo(src, root, spec, m).ids <= AccessTo(src, root, spec, n).ids
    ensures AccessTo(src, root, spec, n).ok ==> AccessTo(src, root, spec, m).ok
  {
    if m < n {
      AccessGrows(src, root, spec, m, n - 1);
    }
  }

  lemma {:induction false} BareValid(src: seq<Type>, id: nat, n: nat)
    requires ValidBtf(src) && 0 < id < |src|
    ensures Bare(src, id, n) == 0 || Reaches(src, false, id, Bare(src, id, n))
    decreases n
  {
    ReachesStep(src, false, id, id);
    if n > 0 && src[id].body.Mod? {
      FollowedValid(src, false, id, 0);
      var t := src[id].body.target;
      if t > 0 {
        BareValid(src, t, n - 1);
        if Bare(src, t, n - 1) > 0 {
          assert Followed(src[id].body, false)[0] == t;
          ReachesStep(src, false, id, Bare(src, t, n - 1));
        }
      }
    }
  }

  ghost predicate Needed(src: seq<Type>, ids: seq<nat>, x: nat) {
    x == 0 || ReachesVia(src, false, ids, |ids|, x)
  }

  /** A member on the way is of a struct that is needed, and its type is needed. */
  ghost predicate GoodHit(src: seq<Type>, ids: seq<nat>, hit: (nat, nat)) {
    && 0 < hit.0 < |src| && src[hit.0].body.Composite? && hit.1 < |src[hit.0].body.members|
    && Needed(src, ids, hit.0) && Needed(src, ids, src[hit.0].body.members[hit.1].typeId)
  }

  ghost predicate GoodAccess(src: seq<Type>, a: Access) {
    && a.id < |src| && Needed(src, a.ids, a.id)
    && (forall j :: 0 <= j < |a.ids| ==> a.ids[j] < |src|)
    && forall hit :: hit in a.hits ==> GoodHit(src, a.ids, hit)
  }

  lemma NeededMore(src: seq<Type>, ids: seq<nat>, x: nat, y: nat)
    ensures Needed(src, ids, x) ==> Needed(src, ids + [y], x)
    ensures y < |src| ==> Needed(src, ids + [y], y)
  {
    var more := ids + [y];
    if ReachesVia(src, false, ids, |ids|, x) {
      var j :| 0 <= j < |ids| && Reaches(src, false, ids[j], x);
      assert Reaches(src, false, more[j], x);
    }
    if 0 < y < |src| {
      ReachesStep(src, false, y, y);
      assert Reaches(src, false, more[|ids|], y);
    }
  }

  /** What is needed is closed under following references. */
  lemma NeededNext(src: seq<Type>, ids: seq<nat>, x: nat, y: nat)
    requires ValidBtf(src) && 0 < x < |src| && Needed(src, ids, x) && y in Followed(src[x].body, false)
    ensures y < |src| && Needed(src, ids, y)
  {
    var k :| 0 <= k < |Followed(src[x].body, false)| && Followed(src[x].body, false)[k] == y;
    FollowedValid(src, false, x, k);
    var j :| 0 <= j < |ids| && Reaches(src, false, ids[j], x);
    var p :| Joins(src, false, p, ids[j], x);
    if y > 0 {
      ChainSnoc(src, false, p, y);
      assert Joins(src, false, p + [y], ids[j], y);
    }
  }

  lemma BareNeeded(src: seq<Type>, ids: seq<nat>, x: nat, n: nat)
    requires ValidBtf(src) && x < |src| && Needed(src, ids, x)
    ensures Needed(src, ids, Bare(src, x, n))
    decreases n
  {
    if n > 0 && src[x].body.Mod? {
      NeededNext(src, ids, x, src[x].body.target);
      BareNeeded(src, ids, src[x].body.target, n - 1);
    }
  }

  lemma {:induction false} AccessGood(src: seq<Type>, root: nat, spec: seq<nat>, n: nat)
    requires ValidBtf(src) && root < |src| && n <= |spec|
    ensures GoodAccess(src, AccessTo(src, root, spec, n))
  {
    if n <= 1 {
      NeededMore(src, [], root, root);
      assert [] + [root] == [root];
    } else {
      AccessGood(src, root, spec, n - 1);
      StepGood(src, AccessTo(src, root, spec, n - 1), spec[n - 1]);
    }
  }

  lemma StepGood(src: seq<Type>, a: Access, k: nat)
    requires ValidBtf(src) && GoodAccess(src, a)
    ensures GoodAccess(src, Step(src, a, k))
  {
    var b := Bare(src, a.id, |src|);
    BareNeeded(src, a.ids, a.id, |src|);
    match src[b].body
    case Composite(_, _, ms) =>
      if k < |ms| {
        HitGood(src, a, b, k);
      }
    case Array(e, _, _) =>
      assert Followed(src[b].body, false)[0] == e;
      NeededNext(src, a.ids, b, e);
    case _ =>
  }

  lemma HitGood(src: seq<Type>, a: Access, b: nat, k: nat)
    requires ValidBtf(src) && GoodAccess(src, a) && 0 < b < |src| && Needed(src, a.ids, b)
    requires src[b].body.Composite? && k < |src[b].body.members|
    ensures var y := src[b].body.members[k].typeId;
            GoodAccess(src, Access(y, a.ids + [y], a.hits + {(b, k)}, a.ok))
  {
    var y := src[b].body.members[k].typeId;
    assert Ids(src[b].body)[k] == y;
    var ids := a.ids + [y];
    NeededMore(src, a.ids, b, y);
    forall hit | hit in a.hits + {(b, k)} ensures GoodHit(src, ids, hit) {
      if hit in a.hits {
        NeededMore(src, a.ids, hit.0, y);
        NeededMore(src, a.ids, src[hit.0].body.members[hit.1].typeId, y);
      }
    }
  }

  // ---------- Marks ----------

  /** `types` and `members` mark what was marked before and what a walk needs. */
  ghost predicate Recorded(src: seq<Type>, types: seq<bool>, members: seq<seq<bool>>,
                           types': seq<bool>, members': seq<seq<bool>>, ids: seq<nat>, hits: set<(nat, nat)>) {
    && |types| == |types'| == |members| == |members'| == |src|
    && (forall x :: 0 <= x < |src| ==> types'[x] == (types[x] || ReachesVia(src, false, ids, |ids|, x)))
    && forall t :: 0 <= t < |src| ==>
         |members'[t]| == |members[t]|
         && forall k :: 0 <= k < |members[t]| ==> members'[t][k] == (members[t][k] || (t, k) in hits)
  }

  ghost predicate MarkClosed(src: seq<Type>, types: seq<bool>, x: nat)
    requires |types| == |src| && x < |src|
  {
    types[x] ==>
      && x > 0 && Supported(src[x].body)
      && forall y :: y in Followed(src[x].body, false) ==> y == 0 || (y < |src| && types[y])
  }

  ghost predicate MemberClosed(src: seq<Type>, types: seq<bool>, t: nat, k: nat)
    requires |types| == |src| && t < |src| && src[t].body.Composite? && k < |src[t].body.members|
  {
    types[t] && var y := src[t].body.members[k].typeId; y == 0 || (y < |src| && types[y])
  }

  /** Marked types have marked needs, and marked members are of marked types and have marked types. */
  ghost predicate Closed(src: seq<Type>, types: seq<bool>, members: seq<seq<bool>>) {
    && |types| == |members| == |src|
    && (forall x :: 0 <= x < |src| ==> MarkClosed(src, types, x))
    && forall t, k :: 0 <= t < |src| && 0 <= k < |members[t]| && members[t][k] ==>
         src[t].body.Composite? && k < |src[t].body.members| && MemberClosed(src, types, t, k)
  }
}
