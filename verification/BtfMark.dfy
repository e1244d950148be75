/**
 Marking the types that relocations need.
 */
module BtfMark {
  import opened Wrappers
  import opened BtfTypes
  import opened BtfAccess
  import opened BtfWalk

  /** `now` marks what `before` does and what is reached from id. */
  ghost predicate Marked(src: seq<Type>, fp: bool, before: seq<bool>, now: seq<bool>, id: nat) {
    |now| == |before| == |src| && forall x :: 0 <= x < |src| ==> now[x] == (before[x] || Reaches(src, fp, id, x))
  }

  /** Some of what is reached has been marked, and nothing else. */
  ghost predicate PartlyMarked(src: seq<Type>, fp: bool, before: seq<bool>, now: seq<bool>, id: nat) {
    && |now| == |before| == |src|
    && forall x :: 0 <= x < |src| ==> (before[x] ==> now[x]) && (now[x] ==> before[x] || Reaches(src, fp, id, x))
  }

  /** What marking id leaves. */
  ghost predicate MarkOutcome(src: seq<Type>, fp: bool, before: seq<bool>, now: seq<bool>, id: nat, err: int) {
    if err == 0 then Marked(src, fp, before, now, id) && AllSupported(src, fp, id)
    else err == -EINVAL && PartlyMarked(src, fp, before, now, id) && !AllSupported(src, fp, id)
  }

  /** Type id and what its first m followed references reach are marked. */
  ghost predicate RefsMarked(src: seq<Type>, fp: bool, before: seq<bool>, now: seq<bool>, id: nat, m: int)
    requires id < |src|
  {
    var refs := Followed(src[id].body, fp);
    && |now| == |before| == |src| && 0 <= m <= |refs|
    && (forall x :: 0 <= x < |src| ==> now[x] == (before[x] || x == id || ReachesVia(src, fp, refs, m, x)))
    && forall j :: 0 <= j < m ==> AllSupported(src, fp, refs[j])
  }

  lemma NoRefsMarked(src: seq<Type>, fp: bool, before: seq<bool>, id: nat)
    requires id < |src| == |before|
    ensures RefsMarked(src, fp, before, before[id := true], id, 0)
  {
  }

  lemma OneRefMarked(src: seq<Type>, fp: bool, before: seq<bool>, mid: seq<bool>, now: seq<bool>, id: nat, m: int)
    requires 0 < id < |src| && RefsMarked(src, fp, before, mid, id, m) && m < |Followed(src[id].body, fp)|
    requires MarkOutcome(src, fp, mid, now, Followed(src[id].body, fp)[m], 0)
    ensures RefsMarked(src, fp, before, now, id, m + 1)
  {
  }

  /** Once all references are done, everything reached is marked. */
  lemma AllRefsMarked(src: seq<Type>, fp: bool, before: seq<bool>, now: seq<bool>, id: nat)
    requires 0 < id < |src| && RefsMarked(src, fp, before, now, id, |Followed(src[id].body, fp)|)
    requires Supported(src[id].body)
    ensures MarkOutcome(src, fp, before, now, id, 0)
  {
    forall x | 0 <= x < |src|
      ensures now[x] == (before[x] || Reaches(src, fp, id, x)) && (Reaches(src, fp, id, x) ==> Supported(src[x].body))
    {
      ReachesStep(src, fp, id, x);
    }
  }

  /** A reference that fails makes the type fail. */
  lemma RefFailed(src: seq<Type>, fp: bool, before: seq<bool>, mid: seq<bool>, now: seq<bool>, id: nat, m: int,
                  err: int)
    requires 0 < id < |src| && RefsMarked(src, fp, before, mid, id, m) && m < |Followed(src[id].body, fp)|
    requires err != 0 && MarkOutcome(src, fp, mid, now, Followed(src[id].body, fp)[m], err)
    ensures MarkOutcome(src, fp, before, now, id, err)
  {
    var refs := Followed(src[id].body, fp);
    forall x | 0 <= x < |src|
      ensures Reaches(src, fp, refs[m], x) || ReachesVia(src, fp, refs, m, x) || x == id ==> Reaches(src, fp, id, x)
    {
      ReachesStep(src, fp, id, x);
    }
    var y :| 0 <= y < |src| && Reaches(src, fp, refs[m], y) && !Supported(src[y].body);
    assert Reaches(src, fp, id, y);
  }

  lemma KindFailed(src: seq<Type>, fp: bool, before: seq<bool>, id: nat)
    requires 0 < id < |src| == |before| && !Supported(src[id].body)
    ensures MarkOutcome(src, fp, before, before[id := true], id, -EINVAL)
  {
    ReachesStep(src, fp, id, id);
  }

  lemma NextAccess(src: seq<Type>, root: nat, spec: seq<nat>, i: nat)
    requires ValidBtf(src) && root < |src| && InBounds(src, root, spec) && AcyclicAlong(src, root, spec)
    requires 1 <= i < |spec| && AccessTo(src, root, spec, i).ok
    ensures var a := AccessTo(src, root, spec, i);
            && GoodAccess(src, a) && IndexOk(src, a, spec[i])
            && AccessTo(src, root, spec, i + 1) == Step(src, a, spec[i])
            && AcyclicFrom(src, false, a.id) && AcyclicFrom(src, false, Step(src, a, spec[i]).id)
  {
    AccessGood(src, root, spec, i);
    var a := AccessTo(src, root, spec, i);
    var at, under := WalkFound(src, root, spec, i);
    assert NextInBounds(src, spec, at);
    UnderIsBare(src, a.id, Bare(src, a.id, |src|));
    if AccessTo(src, root, spec, i + 1).ok {
      var at', under' := WalkFound(src, root, spec, i + 1);
    }
  }

  /** A walk that comes upon something unsupported, or stops, shows that the access fails. */
  lemma NotPassable(src: seq<Type>, root: nat, spec: seq<nat>, n: nat, j: int)
    requires n <= |spec| && spec != []
    requires var a := AccessTo(src, root, spec, n);
             a.ok ==> 0 <= j < |a.ids| && !AllSupported(src, false, a.ids[j])
    ensures !Passable(src, root, spec)
  {
    AccessibleExactly(src, root, spec);
    AccessGrows(src, root, spec, n, |spec|);
    var a, b := AccessTo(src, root, spec, n), AccessTo(src, root, spec, |spec|);
    if a.ok {
      assert b.ids[j] == a.ids[j];
    }
  }

  lemma RootRecorded(src: seq<Type>, types: seq<bool>, members: seq<seq<bool>>, types': seq<bool>, root: nat)
    requires |types| == |members| == |src| && MarkOutcome(src, false, types, types', root, 0)
    ensures Recorded(src, types, members, types', members, [root], {})
  {
    forall x | 0 <= x < |src| ensures ReachesVia(src, false, [root], 1, x) == Reaches(src, false, root, x) {
      assert [root][0] == root;
    }
  }

  lemma MemberRecorded(src: seq<Type>, types: seq<bool>, members: seq<seq<bool>>, types': seq<bool>,
                       members': seq<seq<bool>>, types'': seq<bool>, members'': seq<seq<bool>>,
                       a: Access, id: nat, k: nat)
    requires Recorded(src, types, members, types', members', a.ids, a.hits)
    requires id < |src| && src[id].body.Composite? && k < |src[id].body.members| && k < |members'[id]|
    requires members'' == members'[id := members'[id][k := true]]
    requires MarkOutcome(src, false, types', types'', src[id].body.members[k].typeId, 0)
    ensures Recorded(src, types, members, types'', members'', a.ids + [src[id].body.members[k].typeId],
                     a.hits + {(id, k)})
  {
    var y := src[id].body.members[k].typeId;
    var ids := a.ids + [y];
    forall x | 0 <= x < |src|
      ensures ReachesVia(src, false, ids, |ids|, x)
              == (ReachesVia(src, false, a.ids, |a.ids|, x) || Reaches(src, false, y, x))
    {
      ViaSnoc(src, a.ids, y, x);
    }
  }

  lemma ViaSnoc(src: seq<Type>, ids: seq<nat>, y: nat, x: nat)
    ensures ReachesVia(src, false, ids + [y], |ids| + 1, x)
            == (ReachesVia(src, false, ids, |ids|, x) || Reaches(src, false, y, x))
  {
    var more := ids + [y];
    assert more[|ids|] == y && forall j :: 0 <= j < |ids| ==> more[j] == ids[j];
    if ReachesVia(src, false, ids, |ids|, x) {
      var j :| 0 <= j < |ids| && Reaches(src, false, ids[j], x);
      assert Reaches(src, false, more[j], x);
    }
    if Reaches(src, false, y, x) {
      assert Reaches(src, false, more[|ids|], x);
    }
  }

  // ---------- Marks stay closed ----------

  lemma ReachesNext(src: seq<Type>, fp: bool, a: nat, x: nat, y: nat)
    requires ValidBtf(src) && x < |src| && Reaches(src, fp, a, x) && y in Followed(src[x].body, false) && y > 0
    ensures y < |src| && Reaches(src, fp, a, y)
  {
    var k :| 0 <= k < |Followed(src[x].body, false)| && Followed(src[x].body, false)[k] == y;
    FollowedValid(src, false, x, k);
    var p :| Joins(src, fp, p, a, x);
    ChainSnoc(src, fp, p, y);
    assert Joins(src, fp, p + [y], a, y);
  }

  lemma MembersStayClosed(src: seq<Type>, types: seq<bool>, types': seq<bool>, t: nat, k: nat)
    requires |types| == |types'| == |src| && t < |src| && src[t].body.Composite? && k < |src[t].body.members|
    requires MemberClosed(src, types, t, k) && forall x :: 0 <= x < |src| && types[x] ==> types'[x]
    ensures MemberClosed(src, types', t, k)
  {
  }

  /** Marking a type, with pointers or without, leaves no followed reference dangling. */
  lemma MarkKeepsClosed(src: seq<Type>, fp: bool, types: seq<bool>, types': seq<bool>, members: seq<seq<bool>>, id: nat)
    requires ValidBtf(src) && Closed(src, types, members) && MarkOutcome(src, fp, types, types', id, 0)
    ensures Closed(src, types', members)
  {
    forall x | 0 <= x < |src| ensures MarkClosed(src, types', x) {
      assert MarkClosed(src, types, x);
      if Reaches(src, fp, id, x) {
        ReachedClosed(src, fp, types', id, x);
      }
    }
    forall t, k | 0 <= t < |src| && 0 <= k < |members[t]| && members[t][k]
      ensures src[t].body.Composite? && k < |src[t].body.members| && MemberClosed(src, types', t, k)
    {
      MembersStayClosed(src, types, types', t, k);
    }
  }

  lemma ReachedClosed(src: seq<Type>, fp: bool, types': seq<bool>, id: nat, x: nat)
    requires ValidBtf(src) && |types'| == |src| && x < |src| && Reaches(src, fp, id, x) && AllSupported(src, fp, id)
    requires forall y :: 0 <= y < |src| && Reaches(src, fp, id, y) ==> types'[y]
    ensures MarkClosed(src, types', x)
  {
    var p :| Joins(src, fp, p, id, x);
    assert x > 0;
    forall y | y in Followed(src[x].body, false) ensures y == 0 || (y < |src| && types'[y]) {
      if y > 0 {
        ReachesNext(src, fp, id, x, y);
      }
    }
  }

  /** So does recording an access to a field. */
  lemma FieldClosed(src: seq<Type>, types: seq<bool>, members: seq<seq<bool>>, types': seq<bool>,
                    members': seq<seq<bool>>, root: nat, spec: seq<nat>)
    requires ValidBtf(src) && root < |src| && Accessible(src, root, spec)
    requires var a := AccessTo(src, root, spec, |spec|); Recorded(src, types, members, types', members', a.ids, a.hits)
    ensures Closed(src, types, members) ==> Closed(src, types', members')
  {
    var a := AccessTo(src, root, spec, |spec|);
    AccessGood(src, root, spec, |spec|);
    if Closed(src, types, members) {
      forall x | 0 <= x < |src| ensures MarkClosed(src, types', x) {
        assert MarkClosed(src, types, x);
        if j :| 0 <= j < |a.ids| && Reaches(src, false, a.ids[j], x) {
          IdReached(src, types', a.ids, j);
          ReachedClosed(src, false, types', a.ids[j], x);
        }
      }
      forall t, k | 0 <= t < |src| && 0 <= k < |members'[t]| && members'[t][k]
        ensures src[t].body.Composite? && k < |src[t].body.members| && MemberClosed(src, types', t, k)
      {
        if (t, k) in a.hits {
          assert GoodHit(src, a.ids, (t, k));
          MemberIds(src, t, k);
        } else {
          MembersStayClosed(src, types, types', t, k);
        }
      }
    }
  }

  lemma IdReached(src: seq<Type>, types': seq<bool>, ids: seq<nat>, j: nat)
    requires |types'| == |src| && j < |ids|
    requires forall x :: 0 <= x < |src| && ReachesVia(src, false, ids, |ids|, x) ==> types'[x]
    ensures forall y :: 0 <= y < |src| && Reaches(src, false, ids[j], y) ==> types'[y]
  {
  }

  lemma MemberIds(src: seq<Type>, t: nat, k: nat)
    requires ValidBtf(src) && t < |src| && src[t].body.Composite? && k < |src[t].body.members|
    ensures src[t].body.members[k].typeId < |src|
  {
    assert Ids(src[t].body)[k] == src[t].body.members[k].typeId;
  }

  /** A relocation against the kernel's types.  `Field` stands for the six kinds about fields, `TargetType` for the
      kinds about a type's id, existence and size, and `EnumValue` for the two about enumerators. */
  datatype Relo = Field(root: nat, spec: seq<nat>) | LocalTypeId | TargetType(root: nat)
    | EnumValue(root: nat) | UnknownKind

  ghost predicate ReloValid(src: seq<Type>, relo: Relo) {
    match relo
    case Field(root, spec) => root < |src| && spec != [] && InBounds(src, root, spec) && AcyclicAlong(src, root, spec)
    case TargetType(root) => root < |src| && AcyclicFrom(src, true, root)
    case EnumValue(root) => root < |src| && AcyclicFrom(src, false, root)
    case _ => true
  }

  ghost predicate ReloOk(src: seq<Type>, relo: Relo) {
    match relo
    case Field(root, spec) => Passable(src, root, spec)
    case LocalTypeId => true
    case TargetType(root) => AllSupported(src, true, root)
    case EnumValue(root) => AllSupported(src, false, root)
    case UnknownKind => false
  }

  /** The relocation needs type x. */
  ghost predicate NeededBy(src: seq<Type>, relo: Relo, x: nat) {
    match relo
    case Field(root, spec) =>
      exists at, under :: |at| == |spec| && IsWalk(src, root, spec, at, under) && NeedsType(src, at, under, x)
    case TargetType(root) => Reaches(src, true, root, x)
    case EnumValue(root) => Reaches(src, false, root, x)
    case _ => false
  }

  /** The relocation goes through member k of type t. */
  ghost predicate HitBy(src: seq<Type>, relo: Relo, t: nat, k: nat) {
    relo.Field? && exists at, under :: |at| == |relo.spec| && IsWalk(src, relo.root, relo.spec, at, under)
                                       && PassesMember(src, relo.spec, under, t, k)
  }

  /** A relocation about a type needs what its pointers lead to; one about an enumerator does not. */
  lemma ReloPointers(src: seq<Type>, root: nat, x: nat)
    requires 0 < root < |src| && src[root].body.Ptr?
    ensures NeededBy(src, TargetType(root), x) <==> x == root || NeededBy(src, TargetType(src[root].body.target), x)
    ensures NeededBy(src, EnumValue(root), x) <==> x == root
  {
    PointerReaches(src, root, x);
  }

  /** The marks gain exactly what the relocation needs. */
  ghost predicate ReloRecorded(src: seq<Type>, relo: Relo, types: seq<bool>, members: seq<seq<bool>>,
                               types': seq<bool>, members': seq<seq<bool>>) {
    && |types| == |types'| == |members| == |members'| == |src|
    && (forall x :: 0 <= x < |src| ==> types'[x] == (types[x] || NeededBy(src, relo, x)))
    && forall t :: 0 <= t < |src| ==>
         |members'[t]| == |members[t]|
         && forall k :: 0 <= k < |members[t]| ==> members'[t][k] == (members[t][k] || HitBy(src, relo, t, k))
  }

  /** What the access collects is what the relocation needs. */
  lemma FieldRecorded(src: seq<Type>, root: nat, spec: seq<nat>, types: seq<bool>, members: seq<seq<bool>>,
                      types': seq<bool>, members': seq<seq<bool>>)
    requires spec != []
    requires var a := AccessTo(src, root, spec, |spec|);
             a.ok && Recorded(src, types, members, types', members', a.ids, a.hits)
    ensures ReloRecorded(src, Field(root, spec), types, members, types', members')
  {
    var a := AccessTo(src, root, spec, |spec|);
    var relo := Field(root, spec);
    forall x: nat ensures NeededBy(src, relo, x) <==> ReachesVia(src, false, a.ids, |a.ids|, x) {
      FieldNeeds(src, root, spec, x, 0);
    }
    forall t: nat, k: nat ensures HitBy(src, relo, t, k) <==> (t, k) in a.hits {
      FieldNeeds(src, root, spec, t, k);
    }
  }

  lemma RootAcyclic(src: seq<Type>, root: nat, spec: seq<nat>)
    requires spec != [] && AcyclicAlong(src, root, spec)
    ensures AcyclicFrom(src, false, root)
  {
    assert IsWalk(src, root, spec, [root], []);
  }

  /** Once the walk has been made, the relocation is recorded. */
  lemma FieldDone(src: seq<Type>, root: nat, spec: seq<nat>, types: seq<bool>, members: seq<seq<bool>>,
                  types': seq<bool>, members': seq<seq<bool>>)
    requires ValidBtf(src) && root < |src| && spec != []
    requires var a := AccessTo(src, root, spec, |spec|);
             a.ok && Recorded(src, types, members, types', members', a.ids, a.hits)
             && forall j :: 0 <= j < |a.ids| ==> AllSupported(src, false, a.ids[j])
    ensures Passable(src, root, spec)
    ensures ReloRecorded(src, Field(root, spec), types, members, types', members')
    ensures Closed(src, types, members) ==> Closed(src, types', members')
  {
    AccessibleExactly(src, root, spec);
    FieldRecorded(src, root, spec, types, members, types', members');
    FieldClosed(src, types, members, types', members', root, spec);
  }

  lemma FieldNeeds(src: seq<Type>, root: nat, spec: seq<nat>, t: nat, k: nat)
    requires spec != [] && AccessTo(src, root, spec, |spec|).ok
    ensures var a := AccessTo(src, root, spec, |spec|);
            && (NeededBy(src, Field(root, spec), t) <==> ReachesVia(src, false, a.ids, |a.ids|, t))
            && (HitBy(src, Field(root, spec), t, k) <==> (t, k) in a.hits)
  {
    var at, under := WalkFound(src, root, spec, |spec|);
    WalkNeeds(src, root, spec, at, under);
    if at, under :| |at| == |spec| && IsWalk(src, root, spec, at, under) && NeedsType(src, at, under, t) {
      WalkNeeds(src, root, spec, at, under);
    }
    if at, under :| |at| == |spec| && IsWalk(src, root, spec, at, under) && PassesMember(src, spec, under, t, k) {
      WalkNeeds(src, root, spec, at, under);
    }
  }

  class BtfgenInfo {
    const src: seq<Type>

    /** Which types and which members of each type are marked. */
    var types: seq<bool>
    var members: seq<seq<bool>>

    ghost predicate Valid()
      reads this
    {
      && ValidBtf(src) && |types| == |members| == |src|
      && forall t :: 0 <= t < |src| ==> |members[t]| == if src[t].body.Composite? then |src[t].body.members| else 0
    }

    constructor (src: seq<Type>)
      requires ValidBtf(src)
      ensures this.src == src && Valid()
      ensures forall t :: 0 <= t < |src| ==> !types[t] && forall k :: 0 <= k < |members[t]| ==> !members[t][k]
    {
      this.src := src;
      types := seq(|src|, _ => false);
      members := seq(|src|, t requires 0 <= t < |src| =>
                       if src[t].body.Composite? then seq(|src[t].body.members|, _ => false) else []);
    }

    /** Marks type id and everything it reaches.  `path` is how marking came to it from `root`. */
    method MarkType(id: nat, fp: bool, ghost root: nat, ghost path: seq<nat>) returns (err: int)
      requires Valid() && id < |src| && OnPath(id, fp, root, path)
      modifies `types
      ensures Valid() && MarkOutcome(src, fp, old(types), types, id, err)
      decreases |src| - |path|, 2
    {
      err := 0;
      if id == 0 {
        VoidMarked(src, fp, types);
        return;
      }
      ghost var before := types;
      types := types[id := true];
      NoRefsMarked(src, fp, before, id);
      match src[id].body {
        case Unkn =>
        case Scalar(_) =>
        case Composite(_, _, _) =>
        case Ptr(t) =>
          if fp {
            err := MarkRef(t, id, fp, 0, before, root, path);
            if err != 0 {
              return;
            }
          }
        case Mod(_, t) =>
          err := MarkRef(t, id, fp, 0, before, root, path);
          if err != 0 {
            return;
          }
        case Array(e, i, _) =>
          err := MarkRef(e, id, fp, 0, before, root, path);
          if err == 0 {
            err := MarkRef(i, id, fp, 1, before, root, path);
          }
          if err != 0 {
            return;
          }
        case FuncProto(r, params) =>
          err := MarkProto(r, params, id, fp, before, root, path);
          if err != 0 {
            return;
          }
        case _ =>
          KindFailed(src, fp, before, id);
          return -EINVAL;
      }
      AllRefsMarked(src, fp, before, types, id);
    }

    /** Marks what the return type and the parameters of a function prototype reach. */
    method MarkProto(ret: nat, params: seq<Param>, id: nat, fp: bool, ghost before: seq<bool>, ghost root: nat,
                     ghost path: seq<nat>) returns (err: int)
      requires Valid() && 0 < id < |src| && OnPath(id, fp, root, path) && RefsMarked(src, fp, before, types, id, 0)
      requires src[id].body == FuncProto(ret, params)
      modifies `types
      ensures Valid()
      ensures if err == 0 then RefsMarked(src, fp, before, types, id, |params| + 1)
              else MarkOutcome(src, fp, before, types, id, err)
      decreases |src| - |path|, 1
    {
      err := MarkRef(ret, id, fp, 0, before, root, path);
      if err != 0 {
        return;
      }
      var i := 0;
      while i < |params|
        invariant err == 0 && 0 <= i <= |params| && Valid() && RefsMarked(src, fp, before, types, id, i + 1)
      {
        err := MarkRef(params[i].typeId, id, fp, i + 1, before, root, path);
        if err != 0 {
          return;
        }
        i := i + 1;
      }
    }

    /** Marks what the m-th followed reference of type id reaches. */
    method MarkRef(ref: nat, id: nat, fp: bool, ghost m: int, ghost before: seq<bool>, ghost root: nat,
                   ghost path: seq<nat>) returns (err: int)
      requires Valid() && 0 < id < |src| && OnPath(id, fp, root, path) && RefsMarked(src, fp, before, types, id, m)
      requires m < |Followed(src[id].body, fp)| && ref == Followed(src[id].body, fp)[m]
      modifies `types
      ensures Valid()
      ensures if err == 0 then RefsMarked(src, fp, before, types, id, m + 1)
              else MarkOutcome(src, fp, before, types, id, err)
      decreases |src| - |path|, 0
    {
      ghost var mid := types;
      FollowedValid(src, fp, id, m);
      PathGoesOn(id, fp, root, path, ref);
      err := MarkType(ref, fp, root, path + [id]);
      if err == 0 {
        OneRefMarked(src, fp, before, mid, types, id, m);
      } else {
        RefFailed(src, fp, before, mid, types, id, m, err);
      }
    }

    /** Following references from `root` along `path` leads to id, and no path from `root` has a cycle. */
    ghost predicate OnPath(id: nat, fp: bool, root: nat, path: seq<nat>) {
      && AcyclicFrom(src, fp, root)
      && (if path == [] then id == root
          else IsChain(src, fp, path) && path[0] == root
               && id in Followed(src[path[|path| - 1]].body, fp))
    }

    // ---------- Relocations ----------

    /** Marks a type on its own. */
    method MarkRoot(id: nat, fp: bool) returns (err: int)
      requires Valid() && id < |src| && AcyclicFrom(src, fp, id)
      modifies `types
      ensures Valid() && MarkOutcome(src, fp, old(types), types, id, err)
    {
      err := MarkType(id, fp, id, []);
    }

    method MarkMember(id: nat, k: nat)
      requires Valid() && id < |src| && src[id].body.Composite? && k < |members[id]|
      modifies `members
      ensures Valid() && members == old(members)[id := old(members)[id][k := true]]
    {
      members := members[id := members[id][k := true]];
    }

    /** Skips typedefs and modifiers. */
    method SkipMods(id: nat) returns (bare: nat)
      requires Valid() && id < |src| && AcyclicFrom(src, false, id)
      ensures bare == Bare(src, id, |src|) && bare < |src| && !src[bare].body.Mod?
    {
      bare := id;
      ghost var path: seq<nat> := [];
      while src[bare].body.Mod?
        invariant bare < |src| && |path| <= |src| && OnPath(bare, false, id, path)
        invariant Bare(src, id, |src|) == Bare(src, bare, |src| - |path|)
        decreases |src| - |path|
      {
        FollowedValid(src, false, bare, 0);
        PathGoesOn(bare, false, id, path, src[bare].body.target);
        path := path + [bare];
        bare := src[bare].body.target;
      }
    }

    /** What the walk needs is marked. */
    ghost predicate Walked(types': seq<bool>, members': seq<seq<bool>>, a: Access)
      reads this
    {
      && Valid() && Recorded(src, types', members', types, members, a.ids, a.hits)
      && forall j :: 0 <= j < |a.ids| ==> AllSupported(src, false, a.ids[j])
    }

    /** Marks what an access to a field needs: the root type, the members on the way, and their types. */
    method RecordFieldRelo(root: nat, spec: seq<nat>) returns (err: int)
      requires Valid() && root < |src| && spec != [] && InBounds(src, root, spec) && AcyclicAlong(src, root, spec)
      modifies `types, `members
      ensures Valid() && err == if Passable(src, root, spec) then 0 else -EINVAL
      ensures err == 0 ==> ReloRecorded(src, Field(root, spec), old(types), old(members), types, members)
      ensures err == 0 && Closed(src, old(types), old(members)) ==> Closed(src, types, members)
    {
      RootAcyclic(src, root, spec);
      err := MarkRoot(root, false);
      if err != 0 {
        NotPassable(src, root, spec, 1, 0);
        return;
      }
      RootRecorded(src, old(types), members, types, root);
      var typeId, i := root, 1;
      while i < |spec|
        invariant err == 0 && WalkedTo(root, spec, i, typeId, old(types), old(members))
      {
        typeId, err := RecordNext(root, spec, i, typeId, old(types), old(members));
        if err != 0 {
          return;
        }
        i := i + 1;
      }
      FieldDone(src, root, spec, old(types), old(members), types, members);
    }

    /** The walk has come to `typeId` before entry i. */
    ghost predicate WalkedTo(root: nat, spec: seq<nat>, i: int, typeId: nat,
                          types': seq<bool>, members': seq<seq<bool>>)
      reads this
    {
      && 1 <= i <= |spec| && root < |src| && InBounds(src, root, spec) && AcyclicAlong(src, root, spec)
      && var a := AccessTo(src, root, spec, i);
         a.ok && typeId == a.id && Walked(types', members', a)
    }

    method RecordNext(root: nat, spec: seq<nat>, i: int, typeId: nat, ghost types': seq<bool>,
                      ghost members': seq<seq<bool>>) returns (next: nat, err: int)
      requires WalkedTo(root, spec, i, typeId, types', members') && i < |spec|
      modifies `types, `members
      ensures if err == 0 then WalkedTo(root, spec, i + 1, next, types', members')
              else Valid() && err == -EINVAL && !Passable(src, root, spec)
    {
      NextAccess(src, root, spec, i);
      ghost var a := AccessTo(src, root, spec, i);
      next, err := RecordStep(typeId, spec[i], types', members', a);
      if err != 0 {
        NotPassable(src, root, spec, i + 1, |Step(src, a, spec[i]).ids| - 1);
      }
    }

    /** One step of the walk, which fails on anything but structs, unions and arrays. */
    method RecordStep(typeId: nat, k: nat, ghost types': seq<bool>, ghost members': seq<seq<bool>>, ghost a: Access)
      returns (next: nat, err: int)
      requires a.ok && typeId == a.id && Walked(types', members', a)
      requires GoodAccess(src, a) && IndexOk(src, a, k)
      requires AcyclicFrom(src, false, a.id) && AcyclicFrom(src, false, Step(src, a, k).id)
      modifies `types, `members
      ensures Valid()
      ensures var b := Step(src, a, k);
              if err == 0 then b.ok && next == b.id && Walked(types', members', b)
              else err == -EINVAL && (b.ok ==> b.ids != [] && !AllSupported(src, false, b.ids[|b.ids| - 1]))
    {
      next, err := typeId, 0;
      var bare := SkipMods(typeId);
      match src[bare].body {
        case Composite(_, _, ms) =>
          next, err := RecordMember(bare, k, types', members', a);
        case Array(e, _, _) =>
          next := e;
        case _ =>
          err := -EINVAL;
      }
    }

    /** Marks a member and its type. */
    method RecordMember(id: nat, k: nat, ghost types': seq<bool>, ghost members': seq<seq<bool>>, ghost a: Access)
      returns (typeId: nat, err: int)
      requires Walked(types', members', a)
      requires id < |src| && src[id].body.Composite? && k < |src[id].body.members|
      requires AcyclicFrom(src, false, src[id].body.members[k].typeId)
      modifies `types, `members
      ensures Valid() && typeId == src[id].body.members[k].typeId < |src|
      ensures if err == 0 then Walked(types', members', Access(typeId, a.ids + [typeId], a.hits + {(id, k)}, true))
              else err == -EINVAL && !AllSupported(src, false, typeId)
    {
      typeId := src[id].body.members[k].typeId;
      assert Ids(src[id].body)[k] == typeId;
      MarkMember(id, k);
      err := MarkRoot(typeId, false);
      if err == 0 {
        MemberRecorded(src, types', members', old(types), old(members), types, members, a, id, k);
      }
    }

    /** Marks what one relocation needs.  Only on success is nothing left half marked. */
    method RecordReloc(relo: Relo) returns (err: int)
      requires Valid() && ReloValid(src, relo)
      modifies `types, `members
      ensures Valid() && err == if ReloOk(src, relo) then 0 else -EINVAL
      ensures err == 0 && Closed(src, old(types), old(members)) ==> Closed(src, types, members)
      ensures err == 0 ==> ReloRecorded(src, relo, old(types), old(members), types, members)
    {
      match relo
      case Field(root, spec) =>
        err := RecordFieldRelo(root, spec);
      case LocalTypeId =>
        err := 0;
      case TargetType(root) =>
        err := MarkRoot(root, true);
        if err == 0 {
          if Closed(src, old(types), members) {
            MarkKeepsClosed(src, true, old(types), types, members, root);
          }
        }
      case EnumValue(root) =>
        err := MarkRoot(root, false);
        if err == 0 {
          if Closed(src, old(types), members) {
            MarkKeepsClosed(src, false, old(types), types, members, root);
          }
        }
      case UnknownKind =>
        err := -EINVAL;
    }

    lemma PathGoesOn(id: nat, fp: bool, root: nat, path: seq<nat>, ref: nat)
      requires 0 < id < |src| && OnPath(id, fp, root, path) && ref in Followed(src[id].body, fp)
      ensures OnPath(ref, fp, root, path + [id]) && |path| < |src|
    {
      if path == [] {
        assert path + [id] == [id];
      } else {
        ChainSnoc(src, fp, path, id);
      }
      ChainBounded(src, fp, path + [id]);
    }
  }

  lemma VoidMarked(src: seq<Type>, fp: bool, types: seq<bool>)
    requires |types| == |src|
    ensures MarkOutcome(src, fp, types, types, 0, 0)
  {
  }
}
