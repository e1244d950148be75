/**
 Accesses in the minimised graph: what was recorded can be walked again, through the images of the same types and to
 members of the same names and offsets.
 */
module BtfReplay {
  import opened BtfTypes
  import opened BtfAccess
  import opened BtfWalk
  import opened BtfMark
  import opened BtfMinimize

  /** `out` is the minimised graph of `src` for marks that leave no reference dangling. */
  ghost predicate Sound(src: seq<Type>, types: seq<bool>, members: seq<seq<bool>>, out: seq<Type>) {
    && ValidBtf(src) && |src| == |types| && Shaped(src, members)
    && IsMinimal(src, types, members, out) && Closed(src, types, members)
  }

  predicate Known(types: seq<bool>, x: nat) { x == 0 || (x < |types| && types[x]) }

  function NewIds(types: seq<bool>, ids: seq<nat>): (r: seq<nat>)
    ensures |r| == |ids| && forall i :: 0 <= i < |ids| ==> r[i] == NewId(types, ids[i])
  {
    seq(|ids|, i requires 0 <= i < |ids| => NewId(types, ids[i]))
  }

  lemma KnownImage(src: seq<Type>, types: seq<bool>, members: seq<seq<bool>>, out: seq<Type>, x: nat)
    requires Sound(src, types, members, out) && Known(types, x)
    ensures x < |src| && NewId(types, x) < |out|
    ensures x == 0 || IsImage(types, src[x], members[x], out[NewId(types, x)])
    ensures x == 0 ==> NewId(types, x) == 0 && out[0] == src[0] == VOID
  {
    if x > 0 {
      ImageFields(src, types, members, out, x);
    }
  }

  lemma ModLinkSurvives(src: seq<Type>, types: seq<bool>, members: seq<seq<bool>>, out: seq<Type>, a: nat, b: nat)
    requires Sound(src, types, members, out) && Known(types, a) && ModLink(src, a, b)
    ensures Known(types, b) && ModLink(out, NewId(types, a), NewId(types, b))
  {
    KnownImage(src, types, members, out, a);
    assert MarkClosed(src, types, a);
    assert Followed(src[a].body, false)[0] == b;
    KnownImage(src, types, members, out, b);
  }

  lemma {:induction false} KnownAlong(src: seq<Type>, types: seq<bool>, members: seq<seq<bool>>, out: seq<Type>,
                                      p: seq<nat>, i: nat)
    requires Sound(src, types, members, out) && ModChain(src, p) && i < |p| && Known(types, p[0])
    ensures Known(types, p[i])
  {
    if i > 0 {
      KnownAlong(src, types, members, out, p, i - 1);
      ModLinkSurvives(src, types, members, out, p[i - 1], p[i]);
    }
  }

  lemma UnderSurvives(src: seq<Type>, types: seq<bool>, members: seq<seq<bool>>, out: seq<Type>, a: nat, b: nat)
    requires Sound(src, types, members, out) && Known(types, a) && Under(src, a, b)
    ensures Known(types, b) && Under(out, NewId(types, a), NewId(types, b))
  {
    var p :| ModsLead(src, p, a, b);
    var q := NewIds(types, p);
    KnownAlong(src, types, members, out, p, |p| - 1);
    KnownImage(src, types, members, out, b);
    forall i | 0 < i < |q| ensures ModLink(out, q[i - 1], q[i]) {
      KnownAlong(src, types, members, out, p, i - 1);
      ModLinkSurvives(src, types, members, out, p[i - 1], p[i]);
    }
    assert ModsLead(out, q, NewId(types, a), NewId(types, b));
  }

  /** Member k of a struct is member l of its image. */
  ghost predicate MemberIs(src: seq<Type>, types: seq<bool>, out: seq<Type>, t: nat, k: nat, l: nat) {
    var i := NewId(types, t);
    && t < |src| && src[t].body.Composite? && k < |src[t].body.members|
    && i < |out| && out[i].body.Composite? && l < |out[i].body.members|
    && SameMember(types, src[t].body.members[k], out[i].body.members[l])
  }

  /** Entry k, taken in b, has a counterpart l in the image of b, which leads to the image of what k leads to. */
  lemma LeadsSurvive(src: seq<Type>, types: seq<bool>, members: seq<seq<bool>>, out: seq<Type>, b: nat, k: nat, y: nat)
    returns (l: nat)
    requires Sound(src, types, members, out) && Known(types, b) && Leads(src, b, k, y)
    requires src[b].body.Composite? ==> k < |members[b]| && members[b][k]
    ensures Known(types, y) && Leads(out, NewId(types, b), l, NewId(types, y))
    ensures src[b].body.Composite? ==> MemberIs(src, types, out, b, k, l)
  {
    KnownImage(src, types, members, out, b);
    l := k;
    if src[b].body.Composite? {
      assert MemberClosed(src, types, b, k);
      l := MemberSurvives(src, types, members, out, b, k);
    } else {
      assert MarkClosed(src, types, b);
      var refs := Followed(src[b].body, false);
      assert refs[0] == y && y in refs;
    }
  }

  /** `now` is a walk through the images of the types on the way, and where `spec` names a member of a struct, `now`
      names the same member of its image. */
  ghost predicate Replays(src: seq<Type>, types: seq<bool>, out: seq<Type>, spec: seq<nat>, at: seq<nat>,
                          under: seq<nat>, now: seq<nat>)
  {
    && |under| + 1 == |at| <= |spec| == |now|
    && IsWalk(out, NewId(types, at[0]), now, NewIds(types, at), NewIds(types, under))
    && forall t: nat, k: nat, i :: 0 <= i < |under| && MemberEntry(src, spec, under, i, t, k) ==>
         MemberIs(src, types, out, t, k, now[i + 1])
  }

  ghost predicate MembersMarked(src: seq<Type>, members: seq<seq<bool>>, spec: seq<nat>, under: seq<nat>)
    requires |members| == |src| && |under| < |spec|
  {
    forall t: nat, k: nat, i :: 0 <= i < |under| && MemberEntry(src, spec, under, i, t, k) ==>
      k < |members[t]| && members[t][k]
  }

  /** A walk whose root and members are marked can be made again in the minimised graph. */
  lemma {:induction false} WalkReplays(src: seq<Type>, types: seq<bool>, members: seq<seq<bool>>, out: seq<Type>,
                                       root: nat, spec: seq<nat>, at: seq<nat>, under: seq<nat>)
    returns (now: seq<nat>)
    requires Sound(src, types, members, out) && Known(types, root) && IsWalk(src, root, spec, at, under)
    requires MembersMarked(src, members, spec, under)
    ensures Known(types, at[|at| - 1]) && Replays(src, types, out, spec, at, under, now)
    decreases |at|
  {
    if |at| == 1 {
      now := spec;
    } else {
      var n := |under| - 1;
      var at', under' := at[..n + 1], under[..n];
      WalkPart(src, root, spec, at, under);
      assert MembersMarked(src, members, spec, under') by {
        forall t: nat, k: nat, i | 0 <= i < n && MemberEntry(src, spec, under', i, t, k)
          ensures k < |members[t]| && members[t][k]
        {
          assert MemberEntry(src, spec, under, i, t, k);
        }
      }
      var before := WalkReplays(src, types, members, out, root, spec, at', under');
      assert EntryLeads(src, spec, at, under, n);
      UnderSurvives(src, types, members, out, at[n], under[n]);
      assert src[under[n]].body.Composite? ==> MemberEntry(src, spec, under, n, under[n], spec[n + 1]);
      var l := LeadsSurvive(src, types, members, out, under[n], spec[n + 1], at[n + 1]);
      now := before[n + 1 := l];
      ReplaySnoc(src, types, out, spec, at, under, before, l);
    }
  }

  lemma ReplaySnoc(src: seq<Type>, types: seq<bool>, out: seq<Type>, spec: seq<nat>, at: seq<nat>, under: seq<nat>,
                   before: seq<nat>, l: nat)
    requires |under| + 1 == |at| <= |spec| == |before| && |under| > 0
    requires var n := |under| - 1;
             && Replays(src, types, out, spec, at[..n + 1], under[..n], before)
             && Under(out, NewId(types, at[n]), NewId(types, under[n]))
             && Leads(out, NewId(types, under[n]), l, NewId(types, at[n + 1]))
             && (under[n] < |src| && src[under[n]].body.Composite? ==>
                   MemberIs(src, types, out, under[n], spec[n + 1], l))
    ensures Replays(src, types, out, spec, at, under, before[|under| := l])
  {
    var n := |under| - 1;
    var now := before[n + 1 := l];
    var at', under' := NewIds(types, at), NewIds(types, under);
    var at'', under'' := NewIds(types, at[..n + 1]), NewIds(types, under[..n]);
    forall i | 0 <= i < |under'| ensures EntryLeads(out, now, at', under', i) {
      if i < n {
        assert EntryLeads(out, before, at'', under'', i);
      }
    }
    forall t: nat, k: nat, i | 0 <= i < |under| && MemberEntry(src, spec, under, i, t, k)
      ensures MemberIs(src, types, out, t, k, now[i + 1])
    {
      assert i < n ==> MemberEntry(src, spec, under[..n], i, t, k);
    }
  }
}
