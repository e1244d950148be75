/**
 The minimiser from end to end: relocations are recorded one after the other, and the graph is generated.
 */
module BtfRun {
  import opened Wrappers
  import opened BtfTypes
  import opened BtfAccess
  import opened BtfWalk
  import opened BtfMark
  import opened BtfMinimize
  import opened BtfReplay

  ghost predicate NeededByAny(src: seq<Type>, relos: seq<Relo>, x: nat) {
    exists j :: 0 <= j < |relos| && NeededBy(src, relos[j], x)
  }

  ghost predicate HitByAny(src: seq<Type>, relos: seq<Relo>, t: nat, k: nat) {
    exists j :: 0 <= j < |relos| && HitBy(src, relos[j], t, k)
  }

  /** The marks of exactly the types and the members that some relocation needs. */
  ghost function NeededTypes(src: seq<Type>, relos: seq<Relo>): (r: seq<bool>)
    ensures |r| == |src| && forall x :: 0 <= x < |src| ==> r[x] == NeededByAny(src, relos, x)
  {
    seq(|src|, x requires 0 <= x => NeededByAny(src, relos, x))
  }

  function MemberCount(t: Type): nat { if t.body.Composite? then |t.body.members| else 0 }

  ghost function NeededMembers(src: seq<Type>, relos: seq<Relo>): (r: seq<seq<bool>>)
    ensures |r| == |src| && forall t :: 0 <= t < |src| ==>
              |r[t]| == MemberCount(src[t]) && forall k :: 0 <= k < |r[t]| ==> r[t][k] == HitByAny(src, relos, t, k)
  {
    seq(|src|, t requires 0 <= t < |src| => seq(MemberCount(src[t]), k requires 0 <= k => HitByAny(src, relos, t, k)))
  }

  lemma AnySnoc(src: seq<Type>, relos: seq<Relo>, r: Relo, x: nat, k: nat)
    ensures NeededByAny(src, relos + [r], x) <==> NeededByAny(src, relos, x) || NeededBy(src, r, x)
    ensures HitByAny(src, relos + [r], x, k) <==> HitByAny(src, relos, x, k) || HitBy(src, r, x, k)
  {
    var more := relos + [r];
    assert more[|relos|] == r && forall j :: 0 <= j < |relos| ==> more[j] == relos[j];
    if NeededByAny(src, relos, x) {
      var j :| 0 <= j < |relos| && NeededBy(src, relos[j], x);
      assert NeededBy(src, more[j], x);
    }
    if HitByAny(src, relos, x, k) {
      var j :| 0 <= j < |relos| && HitBy(src, relos[j], x, k);
      assert HitBy(src, more[j], x, k);
    }
  }

  /** Recording one more relocation adds exactly what it needs. */
  lemma NeededNext(src: seq<Type>, relos: seq<Relo>, r: Relo, types: seq<bool>, members: seq<seq<bool>>)
    requires ReloRecorded(src, r, NeededTypes(src, relos), NeededMembers(src, relos), types, members)
    ensures types == NeededTypes(src, relos + [r]) && members == NeededMembers(src, relos + [r])
  {
    forall x | 0 <= x < |src| ensures types[x] == NeededTypes(src, relos + [r])[x] {
      AnySnoc(src, relos, r, x, 0);
    }
    forall t | 0 <= t < |src| ensures members[t] == NeededMembers(src, relos + [r])[t] {
      forall k | 0 <= k < |members[t]| ensures members[t][k] == NeededMembers(src, relos + [r])[t][k] {
        AnySnoc(src, relos, r, t, k);
      }
    }
  }

  /** Every walk of an access to a field can be made again in the minimised graph. */
  ghost predicate WalksSurvive(src: seq<Type>, types: seq<bool>, relos: seq<Relo>, out: seq<Type>) {
    forall j, at, under :: 0 <= j < |relos| && WalkOf(src, relos[j], at, under) ==>
      exists now :: Replays(src, types, out, relos[j].spec, at, under, now)
  }

  ghost predicate WalkOf(src: seq<Type>, relo: Relo, at: seq<nat>, under: seq<nat>) {
    relo.Field? && |at| == |relo.spec| && IsWalk(src, relo.root, relo.spec, at, under)
  }

  lemma WalkSurvives(src: seq<Type>, relos: seq<Relo>, out: seq<Type>, j: nat, at: seq<nat>, under: seq<nat>)
    requires Sound(src, NeededTypes(src, relos), NeededMembers(src, relos), out)
    requires j < |relos| && ReloValid(src, relos[j]) && WalkOf(src, relos[j], at, under)
    ensures exists now :: Replays(src, NeededTypes(src, relos), out, relos[j].spec, at, under, now)
  {
    var types, members := NeededTypes(src, relos), NeededMembers(src, relos);
    var root, spec := relos[j].root, relos[j].spec;
    assert Known(types, root) by {
      if root > 0 {
        ReachesStep(src, false, root, root);
        assert Enters(src, at, under, root);
        assert NeedsType(src, at, under, root);
        assert NeededBy(src, relos[j], root);
      }
    }
    forall t: nat, k: nat, i | 0 <= i < |under| && MemberEntry(src, spec, under, i, t, k)
      ensures k < |members[t]| && members[t][k]
    {
      assert EntryLeads(src, spec, at, under, i);
      assert PassesMember(src, spec, under, t, k);
      assert HitBy(src, relos[j], t, k);
    }
    var now := WalkReplays(src, types, members, out, root, spec, at, under);
  }

  lemma AllWalksSurvive(src: seq<Type>, relos: seq<Relo>, out: seq<Type>)
    requires Sound(src, NeededTypes(src, relos), NeededMembers(src, relos), out)
    requires forall j :: 0 <= j < |relos| ==> ReloValid(src, relos[j])
    ensures WalksSurvive(src, NeededTypes(src, relos), relos, out)
  {
    forall j, at, under | 0 <= j < |relos| && WalkOf(src, relos[j], at, under)
      ensures exists now :: Replays(src, NeededTypes(src, relos), out, relos[j].spec, at, under, now)
    {
      WalkSurvives(src, relos, out, j, at, under);
    }
  }

  /** `minimize_btf`, from relocations instead of object files.  It succeeds just if every relocation does and all
      that is needed can be copied.  Then the result has the images of exactly the needed types, with exactly the needed
      members; the marks are closed, so that no reference but a pointer's has lost its target; and every access finds
      the members it names in the images of the types it passes. */
  method MinimizeBtf(src: seq<Type>, relos: seq<Relo>) returns (out: Option<seq<Type>>)
    requires ValidBtf(src) && forall j :: 0 <= j < |relos| ==> ReloValid(src, relos[j])
    ensures var types, members := NeededTypes(src, relos), NeededMembers(src, relos);
            && (out.Some? <==> (forall j :: 0 <= j < |relos| ==> ReloOk(src, relos[j]))
                               && CopyAll(src, types, members, |src|))
            && (out.Some? ==>
                  && Closed(src, types, members) && IsMinimal(src, types, members, out.value)
                  && HasImages(src, types, members, out.value) && WalksSurvive(src, types, relos, out.value))
  {
    var info := new BtfgenInfo(src);
    NothingNeeded(src, info.types, info.members);
    var i := 0;
    assert relos[..0] == [];
    while i < |relos|
      invariant 0 <= i <= |relos| && info.src == src && info.Valid() && Closed(src, info.types, info.members)
      invariant info.types == NeededTypes(src, relos[..i]) && info.members == NeededMembers(src, relos[..i])
      invariant forall j :: 0 <= j < i ==> ReloOk(src, relos[j])
    {
      var err := info.RecordReloc(relos[i]);
      if err != 0 {
        return None;
      }
      NeededNext(src, relos[..i], relos[i], info.types, info.members);
      assert relos[..i] + [relos[i]] == relos[..i + 1];
      i := i + 1;
    }
    assert relos[..i] == relos;
    out := GetBtf(info);
    if out.Some? {
      AllWalksSurvive(src, relos, out.value);
    }
  }

  lemma NothingNeeded(src: seq<Type>, types: seq<bool>, members: seq<seq<bool>>)
    requires |types| == |members| == |src|
    requires forall t :: 0 <= t < |src| ==> !types[t] && |members[t]| == MemberCount(src[t])
    requires forall t, k :: 0 <= t < |src| && 0 <= k < |members[t]| ==> !members[t][k]
    ensures types == NeededTypes(src, []) && members == NeededMembers(src, []) && Closed(src, types, members)
  {
    forall t | 0 <= t < |src| ensures members[t] == NeededMembers(src, [])[t] {
    }
  }
}
