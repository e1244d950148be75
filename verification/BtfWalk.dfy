/**
 What an access to a field means: the list of types it passes, one for each entry, read off the type graph.
 */
module BtfWalk {
  import opened BtfTypes
  import opened BtfAccess

  ghost predicate ModLink(src: seq<Type>, a: nat, b: nat) {
    a < |src| && src[a].body.Mod? && src[a].body.target == b < |src|
  }

  /** A path that goes through typedefs and modifiers only. */
  ghost predicate ModChain(src: seq<Type>, p: seq<nat>) {
    p != [] && p[|p| - 1] < |src| && forall i :: 0 < i < |p| ==> ModLink(src, p[i - 1], p[i])
  }

  ghost predicate ModsLead(src: seq<Type>, p: seq<nat>, a: nat, b: nat) {
    ModChain(src, p) && p[0] == a && p[|p| - 1] == b
  }

  /** Type b is what is under the typedefs and modifiers of type a. */
  ghost predicate Under(src: seq<Type>, a: nat, b: nat) {
    b < |src| && !src[b].body.Mod? && exists p :: ModsLead(src, p, a, b)
  }

  /** Entry k, taken in type b, leads to type y: the type of member number k, or an array's element. */
  predicate Leads(src: seq<Type>, b: nat, k: nat, y: nat) {
    b < |src|
    && match src[b].body
       case Composite(_, _, ms) => k < |ms| && y == ms[k].typeId
       case Array(e, _, _) => y == e
       case _ => false
  }

  ghost predicate EntryLeads(src: seq<Type>, spec: seq<nat>, at: seq<nat>, under: seq<nat>, i: nat)
    requires i < |under| < |at| <= |spec|
  {
    Under(src, at[i], under[i]) && Leads(src, under[i], spec[i + 1], at[i + 1])
  }

  /** The first entries of an access lead through the types `at`; `under` are these without typedefs and modifiers.
      Entry 0 stands for the root. */
  ghost predicate IsWalk(src: seq<Type>, root: nat, spec: seq<nat>, at: seq<nat>, under: seq<nat>) {
    && |under| + 1 == |at| <= |spec| && at[0] == root
    && forall i :: 0 <= i < |under| ==> EntryLeads(src, spec, at, under, i)
  }

  predicate MemberEntry(src: seq<Type>, spec: seq<nat>, under: seq<nat>, i: nat, t: nat, k: nat)
    requires i < |under| < |spec|
  {
    t == under[i] < |src| && src[t].body.Composite? && k == spec[i + 1]
  }

  /** The walk goes through member k of type t. */
  ghost predicate PassesMember(src: seq<Type>, spec: seq<nat>, under: seq<nat>, t: nat, k: nat)
    requires |under| < |spec|
  {
    exists i :: 0 <= i < |under| && MemberEntry(src, spec, under, i, t, k)
  }

  predicate TypeEntry(src: seq<Type>, at: seq<nat>, under: seq<nat>, i: nat, y: nat)
    requires i < |under| < |at|
  {
    under[i] < |src| && src[under[i]].body.Composite? && y == at[i + 1]
  }

  /** Type y is the root or the type of a member on the way. */
  ghost predicate Enters(src: seq<Type>, at: seq<nat>, under: seq<nat>, y: nat)
    requires |under| + 1 == |at|
  {
    y == at[0] || exists i :: 0 <= i < |under| && TypeEntry(src, at, under, i, y)
  }

  /** Type x is reached from the root or from the type of a member on the way. */
  ghost predicate NeedsType(src: seq<Type>, at: seq<nat>, under: seq<nat>, x: nat)
    requires |under| + 1 == |at|
  {
    exists y :: Enters(src, at, under, y) && Reaches(src, false, y, x)
  }

  /** The access goes through to its last entry, and needs only kinds that marking knows. */
  ghost predicate Passable(src: seq<Type>, root: nat, spec: seq<nat>) {
    exists at, under :: |at| == |spec| && IsWalk(src, root, spec, at, under) && NeedsSupported(src, at, under)
  }

  /** No entry of the access is past a struct's members. */
  ghost predicate InBounds(src: seq<Type>, root: nat, spec: seq<nat>) {
    forall at, under :: IsWalk(src, root, spec, at, under) ==> NextInBounds(src, spec, at)
  }

  ghost predicate NextInBounds(src: seq<Type>, spec: seq<nat>, at: seq<nat>)
    requires at != []
  {
    forall b: nat :: |at| < |spec| && Under(src, at[|at| - 1], b) && src[b].body.Composite? ==>
      spec[|at|] < |src[b].body.members|
  }

  /** No followed path from a type on the way comes back to where it has been. */
  ghost predicate AcyclicAlong(src: seq<Type>, root: nat, spec: seq<nat>) {
    forall at, under :: IsWalk(src, root, spec, at, under) ==> AcyclicFrom(src, false, at[|at| - 1])
  }

  ghost predicate NeedsSupported(src: seq<Type>, at: seq<nat>, under: seq<nat>)
    requires |under| + 1 == |at|
  {
    forall x :: 0 <= x < |src| && NeedsType(src, at, under, x) ==> Supported(src[x].body)
  }

  // ---------- Typedefs and modifiers ----------

  lemma {:induction false} BareLeads(src: seq<Type>, a: nat, n: nat) returns (p: seq<nat>)
    requires a < |src|
    ensures ModsLead(src, p, a, Bare(src, a, n))
    decreases n
  {
    p := [a];
    if n > 0 && src[a].body.Mod? && src[a].body.target < |src| {
      var q := BareLeads(src, src[a].body.target, n - 1);
      p := [a] + q;
      forall i | 0 < i < |p| ensures ModLink(src, p[i - 1], p[i]) {
        if i > 1 {
          assert ModLink(src, q[i - 2], q[i - 1]);
        }
      }
    }
  }

  /** A path to something else than a typedef or modifier does not come back to where it has been: it would never get
      out of the loop. */
  lemma {:induction false} ModsDoNotRepeat(src: seq<Type>, p: seq<nat>, i: nat, j: nat)
    requires ModChain(src, p) && !src[p[|p| - 1]].body.Mod? && i < j < |p|
    ensures p[i] != p[j]
    decreases |p| - j
  {
    assert ModLink(src, p[i + 1 - 1], p[i + 1]);
    if j + 1 < |p| {
      assert ModLink(src, p[j + 1 - 1], p[j + 1]);
      ModsDoNotRepeat(src, p, i + 1, j + 1);
    }
  }

  lemma ModsBounded(src: seq<Type>, p: seq<nat>)
    requires ModChain(src, p) && !src[p[|p| - 1]].body.Mod?
    ensures |p| <= |src|
  {
    forall i, j | 0 <= i < j < |p| ensures p[i] != p[j] {
      ModsDoNotRepeat(src, p, i, j);
    }
    forall i | 0 <= i < |p| ensures p[i] < |src| {
      if i + 1 < |p| {
        assert ModLink(src, p[i + 1 - 1], p[i + 1]);
      }
    }
    assert Elements(p) <= Numbers(|src|);
    Smaller(Elements(p), Numbers(|src|));
  }

  lemma {:induction false} ModsAreBare(src: seq<Type>, p: seq<nat>, n: nat)
    requires ModChain(src, p) && !src[p[|p| - 1]].body.Mod? && |p| <= n + 1
    ensures p[0] < |src| && Bare(src, p[0], n) == p[|p| - 1]
    decreases |p|
  {
    if |p| > 1 {
      assert ModLink(src, p[1 - 1], p[1]);
      forall i | 0 < i < |p| - 1 ensures ModLink(src, p[1..][i - 1], p[1..][i]) {
        assert ModLink(src, p[i + 1 - 1], p[i + 1]);
      }
      ModsAreBare(src, p[1..], n - 1);
    }
  }

  /** The loop that skips typedefs and modifiers finds what is under them, if that exists at all. */
  lemma UnderIsBare(src: seq<Type>, a: nat, b: nat)
    ensures Under(src, a, b) <==> a < |src| && b == Bare(src, a, |src|) && !src[b].body.Mod?
  {
    if Under(src, a, b) {
      var p :| ModsLead(src, p, a, b);
      ModsBounded(src, p);
      ModsAreBare(src, p, |src|);
    }
    if a < |src| && b == Bare(src, a, |src|) {
      var p := BareLeads(src, a, |src|);
    }
  }

  // ---------- Walks ----------

  /** Where the access goes through, there is a walk. */
  lemma {:induction false} WalkFound(src: seq<Type>, root: nat, spec: seq<nat>, n: nat)
    returns (at: seq<nat>, under: seq<nat>)
    requires 1 <= n <= |spec| && AccessTo(src, root, spec, n).ok
    ensures |at| == n && IsWalk(src, root, spec, at, under) && at[n - 1] == AccessTo(src, root, spec, n).id
  {
    if n == 1 {
      at, under := [root], [];
    } else {
      var at', under' := WalkFound(src, root, spec, n - 1);
      var a := AccessTo(src, root, spec, n - 1);
      var b := Bare(src, a.id, |src|);
      UnderIsBare(src, a.id, b);
      at, under := at' + [Step(src, a, spec[n - 1]).id], under' + [b];
      forall i | 0 <= i < |under| ensures EntryLeads(src, spec, at, under, i) {
        if i < |under'| {
          assert EntryLeads(src, spec, at', under', i);
        }
      }
    }
  }

  lemma WalkPart(src: seq<Type>, root: nat, spec: seq<nat>, at: seq<nat>, under: seq<nat>)
    requires IsWalk(src, root, spec, at, under) && |at| > 1
    ensures IsWalk(src, root, spec, at[..|at| - 1], under[..|under| - 1])
  {
    var at', under' := at[..|at| - 1], under[..|under| - 1];
    forall i | 0 <= i < |under'| ensures EntryLeads(src, spec, at', under', i) {
      assert EntryLeads(src, spec, at, under, i);
    }
  }

  /** A walk is what the access collects: there is only one, and it gives the members and the types. */
  lemma {:induction false} WalkTaken(src: seq<Type>, root: nat, spec: seq<nat>, at: seq<nat>, under: seq<nat>)
    requires IsWalk(src, root, spec, at, under)
    ensures var a := AccessTo(src, root, spec, |at|);
            && a.ok && a.id == at[|at| - 1]
            && (forall t: nat, k: nat :: (t, k) in a.hits <==> PassesMember(src, spec, under, t, k))
            && (forall y: nat :: y in a.ids <==> Enters(src, at, under, y))
    decreases |at|
  {
    if |at| > 1 {
      var n := |under| - 1;
      WalkPart(src, root, spec, at, under);
      WalkTaken(src, root, spec, at[..n + 1], under[..n]);
      assert EntryLeads(src, spec, at, under, n);
      UnderIsBare(src, at[n], under[n]);
      forall t: nat, k: nat
        ensures PassesMember(src, spec, under, t, k)
                <==> PassesMember(src, spec, under[..n], t, k) || MemberEntry(src, spec, under, n, t, k)
      {
        PassesSnoc(src, spec, under, t, k);
      }
      forall y: nat
        ensures Enters(src, at, under, y)
                <==> Enters(src, at[..n + 1], under[..n], y) || TypeEntry(src, at, under, n, y)
      {
        EntersSnoc(src, at, under, y);
      }
    }
  }

  lemma PassesSnoc(src: seq<Type>, spec: seq<nat>, under: seq<nat>, t: nat, k: nat)
    requires 0 < |under| < |spec|
    ensures var n := |under| - 1;
            PassesMember(src, spec, under, t, k)
            <==> PassesMember(src, spec, under[..n], t, k) || MemberEntry(src, spec, under, n, t, k)
  {
    var n := |under| - 1;
    if i :| 0 <= i < |under| && MemberEntry(src, spec, under, i, t, k) {
      assert i < n ==> MemberEntry(src, spec, under[..n], i, t, k);
    }
    if i :| 0 <= i < n && MemberEntry(src, spec, under[..n], i, t, k) {
      assert MemberEntry(src, spec, under, i, t, k);
    }
  }

  lemma EntersSnoc(src: seq<Type>, at: seq<nat>, under: seq<nat>, y: nat)
    requires 0 < |under| == |at| - 1
    ensures var n := |under| - 1;
            Enters(src, at, under, y) <==> Enters(src, at[..n + 1], under[..n], y) || TypeEntry(src, at, under, n, y)
  {
    var n := |under| - 1;
    if i :| 0 <= i < |under| && TypeEntry(src, at, under, i, y) {
      assert i < n ==> TypeEntry(src, at[..n + 1], under[..n], i, y);
    }
    var at', under' := at[..n + 1], under[..n];
    if i :| 0 <= i < n && TypeEntry(src, at', under', i, y) {
      assert TypeEntry(src, at, under, i, y);
    }
  }

  lemma NeedsIsVia(src: seq<Type>, at: seq<nat>, under: seq<nat>, ids: seq<nat>, x: nat)
    requires |under| + 1 == |at| && forall y: nat :: y in ids <==> Enters(src, at, under, y)
    ensures NeedsType(src, at, under, x) <==> ReachesVia(src, false, ids, |ids|, x)
  {
    if y :| Enters(src, at, under, y) && Reaches(src, false, y, x) {
      var j :| 0 <= j < |ids| && ids[j] == y;
    }
    if j :| 0 <= j < |ids| && Reaches(src, false, ids[j], x) {
      assert Enters(src, at, under, ids[j]);
    }
  }

  /** What the access collects, told by its walk. */
  lemma WalkNeeds(src: seq<Type>, root: nat, spec: seq<nat>, at: seq<nat>, under: seq<nat>)
    requires IsWalk(src, root, spec, at, under)
    ensures var a := AccessTo(src, root, spec, |at|);
            && a.ok
            && (forall t: nat, k: nat :: (t, k) in a.hits <==> PassesMember(src, spec, under, t, k))
            && (forall x: nat :: ReachesVia(src, false, a.ids, |a.ids|, x) <==> NeedsType(src, at, under, x))
  {
    WalkTaken(src, root, spec, at, under);
    var ids := AccessTo(src, root, spec, |at|).ids;
    forall x: nat ensures ReachesVia(src, false, ids, |ids|, x) <==> NeedsType(src, at, under, x) {
      NeedsIsVia(src, at, under, ids, x);
    }
  }

  lemma SupportedAlong(src: seq<Type>, at: seq<nat>, under: seq<nat>, ids: seq<nat>)
    requires |under| + 1 == |at|
    requires forall x: nat :: ReachesVia(src, false, ids, |ids|, x) <==> NeedsType(src, at, under, x)
    ensures NeedsSupported(src, at, under) <==> forall j :: 0 <= j < |ids| ==> AllSupported(src, false, ids[j])
  {
    if NeedsSupported(src, at, under) {
      forall j, x | 0 <= j < |ids| && 0 <= x < |src| && Reaches(src, false, ids[j], x) ensures Supported(src[x].body) {
        assert ReachesVia(src, false, ids, |ids|, x);
      }
    }
  }

  /** The access can be recorded exactly if it has a walk to its last entry that needs only what is supported. */
  lemma AccessibleExactly(src: seq<Type>, root: nat, spec: seq<nat>)
    requires spec != []
    ensures Accessible(src, root, spec) <==> Passable(src, root, spec)
  {
    var a := AccessTo(src, root, spec, |spec|);
    if a.ok {
      var at, under := WalkFound(src, root, spec, |spec|);
      WalkNeeds(src, root, spec, at, under);
      SupportedAlong(src, at, under, a.ids);
    }
    if at, under :| |at| == |spec| && IsWalk(src, root, spec, at, under) && NeedsSupported(src, at, under) {
      WalkNeeds(src, root, spec, at, under);
      SupportedAlong(src, at, under, a.ids);
    }
  }
}
