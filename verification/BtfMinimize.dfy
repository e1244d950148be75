/**
 Generating the minimised type graph: marked types are copied and numbered densely, and then every reference is
 rewritten through the table of new numbers.
 */
module BtfMinimize {
  import opened Wrappers
  import opened BtfTypes
  import opened BtfAccess
  import opened BtfMark

  // ---------- What is copied ----------

  /** What `btf__add_field` accepts. */
  predicate Addable(isUnion: bool, m: Member) {
    var isBitfield := m.bitfieldSize > 0 || m.bitOffset % 8 != 0;
    && !(isBitfield && (m.bitfieldSize == 0 || m.bitfieldSize > 255 || m.bitOffset > 0xffffff))
    && !(isUnion && m.bitOffset > 0)
  }

  /** The first n members, of those that are marked. */
  function Kept(ms: seq<Member>, marks: seq<bool>, n: nat): seq<Member>
    requires n <= |ms| && n <= |marks|
  {
    if n == 0 then []
    else if marks[n - 1] then Kept(ms, marks, n - 1) + [ms[n - 1]]
    else Kept(ms, marks, n - 1)
  }

  /** A type as it is copied: all of it, but only the marked members of a struct or union. */
  function Copied(t: Type, marks: seq<bool>): Type
    requires t.body.Composite? ==> |marks| == |t.body.members|
  {
    if t.body.Composite? then t.(body := t.body.(members := Kept(t.body.members, marks, |marks|))) else t
  }

  predicate CanCopy(t: Type, marks: seq<bool>)
    requires t.body.Composite? ==> |marks| == |t.body.members|
  {
    && !t.body.Unkn?
    && (t.body.Composite? ==> forall k :: 0 <= k < |marks| && marks[k] ==> Addable(t.body.isUnion, t.body.members[k]))
  }

  // ---------- New numbers ----------

  /** How many of the types 1 to n - 1 are marked. */
  function Rank(types: seq<bool>, n: nat): nat
    requires n <= |types|
  {
    if n <= 1 then 0 else Rank(types, n - 1) + if types[n - 1] then 1 else 0
  }

  /** A marked type's new number; 0 for void and for types that are not marked. */
  function NewId(types: seq<bool>, i: nat): nat {
    if 0 < i < |types| && types[i] then Rank(types, i) + 1 else 0
  }

  lemma {:induction false} RankGrows(types: seq<bool>, m: nat, n: nat)
    requires m <= n <= |types|
    ensures Rank(types, m) <= Rank(types, n)
    ensures 0 < m < n && types[m] ==> Rank(types, m) < Rank(types, n)
  {
    if m < n {
      RankGrows(types, m, n - 1);
    }
  }

  /** New numbers keep the order of the old ones, so no two marked types share one. */
  lemma NewIdsOrdered(types: seq<bool>, i: nat, j: nat)
    requires 0 < i < j < |types| && types[i] && types[j]
    ensures 0 < NewId(types, i) < NewId(types, j) <= Rank(types, |types|)
  {
    RankGrows(types, i, j);
    RankGrows(types, j, |types|);
  }

  /** Every number up to the number of marked types is the new number of one. */
  lemma {:induction false} NewIdsDense(types: seq<bool>, n: nat, y: nat) returns (i: nat)
    requires n <= |types| && 0 < y <= Rank(types, n)
    ensures 0 < i < n && types[i] && NewId(types, i) == y
  {
    if types[n - 1] && Rank(types, n) == y {
      i := n - 1;
    } else {
      i := NewIdsDense(types, n - 1, y);
    }
  }

  lemma NewIdRange(types: seq<bool>, i: nat)
    ensures NewId(types, i) <= Rank(types, |types|)
    ensures NewId(types, i) == 0 <==> i == 0 || i >= |types| || !types[i]
  {
    if 0 < i < |types| {
      RankGrows(types, i, |types|);
    }
  }

  // ---------- References ----------

  function RenumberedMembers(ms: seq<Member>, f: nat -> nat): (r: seq<Member>)
    ensures |r| == |ms|
  {
    seq(|ms|, k requires 0 <= k < |ms| => ms[k].(typeId := f(ms[k].typeId)))
  }

  function RenumberedParams(ps: seq<Param>, f: nat -> nat): (r: seq<Param>)
    ensures |r| == |ps|
  {
    seq(|ps|, k requires 0 <= k < |ps| => ps[k].(typeId := f(ps[k].typeId)))
  }

  /** A type with every reference replaced. */
  function Renumbered(body: Body, f: nat -> nat): Body {
    match body
    case Ptr(t) => Ptr(f(t))
    case Mod(k, t) => Mod(k, f(t))
    case Array(e, i, n) => Array(f(e), f(i), n)
    case Composite(u, s, ms) => Composite(u, s, RenumberedMembers(ms, f))
    case FuncProto(r, ps) => FuncProto(f(r), RenumberedParams(ps, f))
    case Other(d, t) => Other(d, f(t))
    case DataSec(vs) => DataSec(RenumberedParams(vs, f))
    case _ => body
  }

  /** It is the references that are replaced, each in its place. */
  lemma RenumberedIds(body: Body, f: nat -> nat)
    ensures |Ids(Renumbered(body, f))| == |Ids(body)|
    ensures forall k :: 0 <= k < |Ids(body)| ==> Ids(Renumbered(body, f))[k] == f(Ids(body)[k])
  {
  }

  function Lookup(ids: seq<nat>): nat -> nat { (i: nat) => if i < |ids| then ids[i] else 0 }

  ghost predicate IdsBelow(body: Body, n: nat) { forall k :: 0 <= k < |Ids(body)| ==> Ids(body)[k] < n }

  method RemapParams(ps: seq<Param>, ids: seq<nat>) returns (r: seq<Param>)
    requires forall k :: 0 <= k < |ps| ==> ps[k].typeId < |ids|
    ensures r == RenumberedParams(ps, Lookup(ids))
  {
    r := [];
    var i := 0;
    while i < |ps|
      invariant 0 <= i <= |ps| == |r| + (|ps| - i)
      invariant forall k :: 0 <= k < i ==> r[k] == RenumberedParams(ps, Lookup(ids))[k]
    {
      r := r + [ps[i].(typeId := ids[ps[i].typeId])];
      i := i + 1;
    }
  }

  method RemapMembers(ms: seq<Member>, ids: seq<nat>) returns (r: seq<Member>)
    requires forall k :: 0 <= k < |ms| ==> ms[k].typeId < |ids|
    ensures r == RenumberedMembers(ms, Lookup(ids))
  {
    r := [];
    var i := 0;
    while i < |ms|
      invariant 0 <= i <= |ms| == |r| + (|ms| - i)
      invariant forall k :: 0 <= k < i ==> r[k] == RenumberedMembers(ms, Lookup(ids))[k]
    {
      r := r + [ms[i].(typeId := ids[ms[i].typeId])];
      i := i + 1;
    }
  }

  /** `btf_type_visit_type_ids` with `btfgen_remap_id`: rewrites every reference through the table. */
  method RemapIds(t: Type, ids: seq<nat>) returns (r: Option<Type>)
    requires IdsBelow(t.body, |ids|)
    ensures r == if t.body.Unkn? then None else Some(t.(body := Renumbered(t.body, Lookup(ids))))
  {
    var all := Ids(t.body);
    match t.body
    case Unkn =>
      return None;
    case Scalar(_) =>
      return Some(t);
    case Ptr(x) =>
      assert all[0] == x;
      return Some(t.(body := Ptr(ids[x])));
    case Mod(k, x) =>
      assert all[0] == x;
      return Some(t.(body := Mod(k, ids[x])));
    case Array(e, i, n) =>
      assert all[0] == e && all[1] == i;
      return Some(t.(body := Array(ids[e], ids[i], n)));
    case Composite(u, s, ms) =>
      assert forall k :: 0 <= k < |ms| ==> all[k] == ms[k].typeId;
      var members := RemapMembers(ms, ids);
      return Some(t.(body := Composite(u, s, members)));
    case FuncProto(x, ps) =>
      assert all[0] == x && forall k :: 0 <= k < |ps| ==> all[k + 1] == ps[k].typeId;
      var params := RemapParams(ps, ids);
      return Some(t.(body := FuncProto(ids[x], params)));
    case Other(d, x) =>
      assert all[0] == x;
      return Some(t.(body := Other(d, ids[x])));
    case DataSec(vs) =>
      assert forall k :: 0 <= k < |vs| ==> all[k] == vs[k].typeId;
      var vars := RemapParams(vs, ids);
      return Some(t.(body := DataSec(vars)));
  }

  // ---------- Generation ----------

  /** The table of new numbers. */
  function Table(types: seq<bool>): (r: seq<nat>)
    ensures |r| == |types|
  {
    seq(|types|, i requires 0 <= i => NewId(types, i))
  }

  ghost predicate Shaped(src: seq<Type>, members: seq<seq<bool>>) {
    |members| == |src| && forall t :: 0 <= t < |src| && src[t].body.Composite? ==> |members[t]| == |src[t].body.members|
  }

  /** What becomes of marked type i. */
  function Minimized(src: seq<Type>, types: seq<bool>, members: seq<seq<bool>>, i: nat): Type
    requires i < |src| == |types| == |members| && (src[i].body.Composite? ==> |members[i]| == |src[i].body.members|)
  {
    var t := Copied(src[i], members[i]);
    t.(body := Renumbered(t.body, Lookup(Table(types))))
  }

  /** The minimised graph: void, and every marked type under its new number. */
  ghost predicate IsMinimal(src: seq<Type>, types: seq<bool>, members: seq<seq<bool>>, out: seq<Type>)
    requires |src| == |types| && Shaped(src, members)
  {
    && |out| == 1 + Rank(types, |types|) && out[0] == VOID
    && forall i :: 0 < i < |src| && types[i] ==>
         NewId(types, i) < |out| && out[NewId(types, i)] == Minimized(src, types, members, i)
  }

  ghost predicate CopyAll(src: seq<Type>, types: seq<bool>, members: seq<seq<bool>>, n: int)
    requires |src| == |types| && Shaped(src, members) && n <= |src|
  {
    forall i :: 0 < i < n && types[i] ==> CanCopy(src[i], members[i])
  }

  /** The first pass before type n. */
  ghost predicate CopiedTo(src: seq<Type>, types: seq<bool>, members: seq<seq<bool>>, n: int, out: seq<Type>,
                           ids: seq<nat>)
    requires |src| == |types| && Shaped(src, members)
  {
    && 1 <= n <= |src| == |ids| && CopyAll(src, types, members, n)
    && |out| == 1 + Rank(types, n) && out[0] == VOID
    && (forall i :: 0 <= i < |ids| ==> ids[i] == if i < n then NewId(types, i) else 0)
    && forall i :: 0 < i < n && types[i] ==>
         NewId(types, i) < |out| && out[NewId(types, i)] == Copied(src[i], members[i])
  }

  method AddComposite(t: Type, marks: seq<bool>) returns (r: Option<Type>)
    requires t.body.Composite? && |marks| == |t.body.members|
    ensures r == if CanCopy(t, marks) then Some(Copied(t, marks)) else None
  {
    var ms: seq<Member> := [];
    var i := 0;
    while i < |marks|
      invariant 0 <= i <= |marks| && ms == Kept(t.body.members, marks, i)
      invariant forall k :: 0 <= k < i && marks[k] ==> Addable(t.body.isUnion, t.body.members[k])
    {
      if marks[i] {
        var m := t.body.members[i];
        if !Addable(t.body.isUnion, m) {
          return None;
        }
        ms := ms + [m];
      }
      i := i + 1;
    }
    return Some(t.(body := t.body.(members := ms)));
  }

  method AddType(t: Type, marks: seq<bool>) returns (r: Option<Type>)
    requires t.body.Composite? ==> |marks| == |t.body.members|
    ensures r == if CanCopy(t, marks) then Some(Copied(t, marks)) else None
  {
    if t.body.Composite? {
      r := AddComposite(t, marks);
    } else if t.body.Unkn? {
      r := None;
    } else {
      r := Some(t);
    }
  }

  lemma CopiedStep(src: seq<Type>, types: seq<bool>, members: seq<seq<bool>>, n: int, out: seq<Type>, ids: seq<nat>)
    requires |src| == |types| && Shaped(src, members) && CopiedTo(src, types, members, n, out, ids) && n < |src|
    ensures !types[n] ==> CopiedTo(src, types, members, n + 1, out, ids)
    ensures types[n] && CanCopy(src[n], members[n]) ==>
              CopiedTo(src, types, members, n + 1, out + [Copied(src[n], members[n])], ids[n := |out|])
    ensures types[n] && !CanCopy(src[n], members[n]) ==> !CopyAll(src, types, members, |src|)
  {
  }

  /** The first pass: copies the marked types and fills the table. */
  method CopyMarked(info: BtfgenInfo, ids: array<nat>) returns (out: Option<seq<Type>>)
    requires info.Valid() && ids.Length == |info.src| && forall i :: 0 <= i < ids.Length ==> ids[i] == 0
    modifies ids
    ensures out.Some? <==> CopyAll(info.src, info.types, info.members, |info.src|)
    ensures out.Some? ==> CopiedTo(info.src, info.types, info.members, |info.src|, out.value, ids[..])
  {
    var n := ids.Length;
    var btfNew := [VOID];
    var i := 1;
    while i < n
      invariant 1 <= i <= n && CopiedTo(info.src, info.types, info.members, i, btfNew, ids[..])
    {
      CopiedStep(info.src, info.types, info.members, i, btfNew, ids[..]);
      if info.types[i] {
        var t := AddType(info.src[i], info.members[i]);
        if t.None? {
          return None;
        }
        ghost var before: seq<nat> := ids[..];
        ids[i] := |btfNew|;
        assert ids[..] == before[i := |btfNew|];
        btfNew := btfNew + [t.value];
      }
      i := i + 1;
    }
    return Some(btfNew);
  }

  /** Every kept member is a marked one. */
  lemma {:induction false} KeptOrigin(ms: seq<Member>, marks: seq<bool>, n: nat, k: nat) returns (j: nat)
    requires n <= |ms| && n <= |marks| && k < |Kept(ms, marks, n)|
    ensures j < n && marks[j] && Kept(ms, marks, n)[k] == ms[j]
  {
    if marks[n - 1] && k == |Kept(ms, marks, n)| - 1 {
      j := n - 1;
    } else {
      j := KeptOrigin(ms, marks, n - 1, k);
    }
  }

  /** The references of a copied type are references of the original; those of a struct or union belong to marked
      members. */
  lemma CopiedRef(t: Type, marks: seq<bool>, k: nat) returns (j: nat)
    requires t.body.Composite? ==> |marks| == |t.body.members|
    requires k < |Ids(Copied(t, marks).body)|
    ensures j < |Ids(t.body)| && Ids(Copied(t, marks).body)[k] == Ids(t.body)[j]
    ensures t.body.Composite? ==> marks[j] && Ids(t.body)[j] == t.body.members[j].typeId
    ensures !t.body.Composite? ==> j == k
  {
    if t.body.Composite? {
      j := KeptOrigin(t.body.members, marks, |marks|, k);
    } else {
      j := k;
    }
  }

  ghost predicate Remappable(n: nat, out: seq<Type>, y: int)
    requires 0 <= y < |out|
  {
    !out[y].body.Unkn? && IdsBelow(out[y].body, n)
  }

  lemma CopiesRemappable(src: seq<Type>, types: seq<bool>, members: seq<seq<bool>>, out: seq<Type>,
                          ids: seq<nat>, y: nat)
    requires ValidBtf(src) && |src| == |types| && Shaped(src, members) && CopiedTo(src, types, members, |src|, out, ids)
    requires 0 < y < |out|
    ensures Remappable(|src|, out, y)
  {
    var i := NewIdsDense(types, |src|, y);
    assert CanCopy(src[i], members[i]);
    forall k | 0 <= k < |Ids(out[y].body)| ensures Ids(out[y].body)[k] < |src| {
      var j := CopiedRef(src[i], members[i], k);
    }
  }

  function Remapped(t: Type, ids: seq<nat>): Type { t.(body := Renumbered(t.body, Lookup(ids))) }

  /** The second pass: rewrites the references of every copied type. */
  method RemapAll(copied: seq<Type>, ids: seq<nat>) returns (btfNew: seq<Type>)
    requires copied != []
    requires forall y :: 0 < y < |copied| ==> Remappable(|ids|, copied, y)
    ensures |btfNew| == |copied| && btfNew[0] == copied[0]
    ensures forall y :: 0 < y < |btfNew| ==> btfNew[y] == Remapped(copied[y], ids)
  {
    btfNew := copied;
    var i := 1;
    while i < |btfNew|
      invariant 1 <= i <= |btfNew| == |copied| && btfNew[0] == copied[0]
      invariant forall y :: 0 < y < i ==> btfNew[y] == Remapped(copied[y], ids)
      invariant forall y :: i <= y < |btfNew| ==> btfNew[y] == copied[y]
    {
      assert Remappable(|ids|, copied, i);
      var t := RemapIds(btfNew[i], ids);
      btfNew := btfNew[i := t.value];
      i := i + 1;
    }
  }

  /** Generates the minimised graph; fails just if a marked type cannot be copied. */
  method GetBtf(info: BtfgenInfo) returns (r: Option<seq<Type>>)
    requires info.Valid()
    ensures r.Some? <==> CopyAll(info.src, info.types, info.members, |info.src|)
    ensures r.Some? ==> IsMinimal(info.src, info.types, info.members, r.value)
    ensures r.Some? ==> HasImages(info.src, info.types, info.members, r.value)
  {
    var ids := new nat[|info.src|](_ => 0);
    var copied := CopyMarked(info, ids);
    if copied.None? {
      return None;
    }
    forall y | 0 < y < |copied.value| ensures Remappable(ids.Length, copied.value, y) {
      CopiesRemappable(info.src, info.types, info.members, copied.value, ids[..], y);
    }
    var btfNew := RemapAll(copied.value, ids[..]);
    assert ids[..] == Table(info.types);
    RemappedIsMinimal(info.src, info.types, info.members, copied.value, btfNew);
    MinimalHasImages(info.src, info.types, info.members, btfNew);
    return Some(btfNew);
  }

  lemma RemappedIsMinimal(src: seq<Type>, types: seq<bool>, members: seq<seq<bool>>, copied: seq<Type>, out: seq<Type>)
    requires |src| == |types| && Shaped(src, members) && CopiedTo(src, types, members, |src|, copied, Table(types))
    requires |out| == |copied| && out[0] == copied[0]
    requires forall y :: 0 < y < |out| ==> out[y] == Remapped(copied[y], Table(types))
    ensures IsMinimal(src, types, members, out)
  {
  }

  // ---------- What the minimised graph means ----------

  /** Which of the first n members are marked, in order. */
  ghost predicate MarkedAt(marks: seq<bool>, n: nat, pos: seq<nat>)
    requires n <= |marks|
  {
    && (forall k :: 0 <= k < |pos| ==> pos[k] < n && marks[pos[k]])
    && (forall k, l :: 0 <= k < l < |pos| ==> pos[k] < pos[l])
    && forall j :: 0 <= j < n && marks[j] ==> j in pos
  }

  predicate SameMember(types: seq<bool>, was: Member, now: Member) {
    && now.name == was.name && now.bitOffset == was.bitOffset && now.bitfieldSize == was.bitfieldSize
    && now.typeId == NewId(types, was.typeId)
  }

  predicate SameParams(types: seq<bool>, was: seq<Param>, now: seq<Param>) {
    && |now| == |was|
    && forall k :: 0 <= k < |was| ==> now[k].name == was[k].name && now[k].typeId == NewId(types, was[k].typeId)
  }

  /** `now` has, of the members in `was`, just those that are marked. */
  ghost predicate HasMarked(types: seq<bool>, was: seq<Member>, marks: seq<bool>, now: seq<Member>)
    requires |marks| == |was|
  {
    exists pos :: MarkedAt(marks, |marks|, pos) && |now| == |pos|
                  && forall k :: 0 <= k < |pos| ==> SameMember(types, was[pos[k]], now[k])
  }

  /** `now` is the type `was` in everything but references, which lead to the new numbers, and members, of which it has
      the marked ones. */
  ghost predicate IsImage(types: seq<bool>, was: Type, marks: seq<bool>, now: Type)
    requires was.body.Composite? ==> |marks| == |was.body.members|
  {
    && now.name == was.name
    && match was.body
       case Unkn => now.body.Unkn?
       case Scalar(d) => now.body.Scalar? && now.body.details == d
       case Ptr(t) => now.body.Ptr? && now.body.target == NewId(types, t)
       case Mod(k, t) => now.body.Mod? && now.body.kind == k && now.body.target == NewId(types, t)
       case Array(e, i, n) =>
         && now.body.Array? && now.body.nelems == n
         && now.body.elem == NewId(types, e) && now.body.index == NewId(types, i)
       case Composite(u, s, ms) =>
         && now.body.Composite? && now.body.isUnion == u && now.body.size == s
         && HasMarked(types, ms, marks, now.body.members)
       case FuncProto(r, ps) =>
         now.body.FuncProto? && now.body.ret == NewId(types, r) && SameParams(types, ps, now.body.params)
       case Other(d, t) => now.body.Other? && now.body.details == d && now.body.target == NewId(types, t)
       case DataSec(vs) => now.body.DataSec? && SameParams(types, vs, now.body.vars)
  }

  predicate Picks(ms: seq<Member>, pos: seq<nat>, kept: seq<Member>) {
    |kept| == |pos| && forall k :: 0 <= k < |pos| ==> pos[k] < |ms| && kept[k] == ms[pos[k]]
  }

  function Positions(marks: seq<bool>, n: nat): seq<nat>
    requires n <= |marks|
  {
    if n == 0 then []
    else if marks[n - 1] then Positions(marks, n - 1) + [n - 1]
    else Positions(marks, n - 1)
  }

  lemma {:induction false} PositionsMarked(marks: seq<bool>, n: nat)
    requires n <= |marks|
    ensures MarkedAt(marks, n, Positions(marks, n))
  {
    if n > 0 {
      PositionsMarked(marks, n - 1);
      MarkedSnoc(marks, n - 1, Positions(marks, n - 1));
    }
  }

  lemma MarkedSnoc(marks: seq<bool>, n: nat, pos: seq<nat>)
    requires n < |marks| && MarkedAt(marks, n, pos)
    ensures marks[n] ==> MarkedAt(marks, n + 1, pos + [n])
    ensures !marks[n] ==> MarkedAt(marks, n + 1, pos)
  {
  }

  lemma {:induction false} KeptPicks(ms: seq<Member>, marks: seq<bool>, n: nat)
    requires n <= |ms| && n <= |marks|
    ensures Picks(ms, Positions(marks, n), Kept(ms, marks, n))
  {
    if n > 0 {
      KeptPicks(ms, marks, n - 1);
    }
  }

  lemma LookupIsNewId(types: seq<bool>, i: nat)
    ensures Lookup(Table(types))(i) == NewId(types, i)
  {
  }

  /** A marked type's image is that type, field by field. */
  lemma ImageFields(src: seq<Type>, types: seq<bool>, members: seq<seq<bool>>, out: seq<Type>, i: nat)
    requires |src| == |types| && Shaped(src, members) && IsMinimal(src, types, members, out)
    requires 0 < i < |src| && types[i]
    ensures NewId(types, i) < |out| && IsImage(types, src[i], members[i], out[NewId(types, i)])
  {
    forall x: nat ensures Lookup(Table(types))(x) == NewId(types, x) {
      LookupIsNewId(types, x);
    }
    if src[i].body.Composite? {
      var ms, marks := src[i].body.members, members[i];
      PositionsMarked(marks, |marks|);
      KeptPicks(ms, marks, |marks|);
    }
  }

  /** A reference that is kept leads to the image of what it led to, or to void exactly if it led to void or to a
      type that is not marked. */
  lemma ReferencesPreserved(src: seq<Type>, types: seq<bool>, members: seq<seq<bool>>, out: seq<Type>, i: nat, k: nat)
    requires ValidBtf(src) && |src| == |types| && Shaped(src, members) && IsMinimal(src, types, members, out)
    requires 0 < i < |src| && types[i] && k < |Ids(Copied(src[i], members[i]).body)|
    ensures NewId(types, i) < |out|
    ensures var was, now := Ids(Copied(src[i], members[i]).body), Ids(out[NewId(types, i)].body);
            && |now| == |was| && was[k] < |src| && now[k] < |out| && now[k] == NewId(types, was[k])
            && (now[k] == 0 <==> was[k] == 0 || !types[was[k]])
            && (now[k] > 0 ==> out[now[k]] == Minimized(src, types, members, was[k]))
  {
    var was := Ids(Copied(src[i], members[i]).body);
    RenumberedIds(Copied(src[i], members[i]).body, Lookup(Table(types)));
    var j := CopiedRef(src[i], members[i], k);
    NewIdRange(types, was[k]);
  }

  /** If the marks come from relocations that succeeded, only pointers can have lost what they lead to. */
  lemma OnlyPointersDangle(src: seq<Type>, types: seq<bool>, members: seq<seq<bool>>, out: seq<Type>, i: nat, k: nat)
    requires ValidBtf(src) && |src| == |types| && Shaped(src, members) && IsMinimal(src, types, members, out)
    requires Closed(src, types, members)
    requires 0 < i < |src| && types[i] && !src[i].body.Ptr? && k < |Ids(Copied(src[i], members[i]).body)|
    ensures NewId(types, i) < |out| && k < |Ids(out[NewId(types, i)].body)|
    ensures Ids(out[NewId(types, i)].body)[k] == 0 <==> Ids(Copied(src[i], members[i]).body)[k] == 0
  {
    ReferencesPreserved(src, types, members, out, i, k);
    var j := CopiedRef(src[i], members[i], k);
    if src[i].body.Composite? {
      assert MemberClosed(src, types, i, j);
    } else {
      assert MarkClosed(src, types, i);
      assert Followed(src[i].body, false) == Ids(src[i].body);
    }
  }

  /** Under its new number, every marked type has its image. */
  ghost predicate HasImages(src: seq<Type>, types: seq<bool>, members: seq<seq<bool>>, out: seq<Type>)
    requires |src| == |types| && Shaped(src, members)
  {
    forall i :: 0 < i < |src| && types[i] ==>
      NewId(types, i) < |out| && IsImage(types, src[i], members[i], out[NewId(types, i)])
  }

  lemma MinimalHasImages(src: seq<Type>, types: seq<bool>, members: seq<seq<bool>>, out: seq<Type>)
    requires |src| == |types| && Shaped(src, members) && IsMinimal(src, types, members, out)
    ensures HasImages(src, types, members, out)
  {
    forall i | 0 < i < |src| && types[i]
      ensures NewId(types, i) < |out| && IsImage(types, src[i], members[i], out[NewId(types, i)])
    {
      ImageFields(src, types, members, out, i);
    }
  }

  /** What it takes to be copied: a known kind; and of each marked member that it starts at a whole byte, or is a bit
      field of at most 255 bits that starts in the first 2^24 bits, and in a union that it starts at 0. */
  lemma CopiesExactly(src: seq<Type>, types: seq<bool>, members: seq<seq<bool>>)
    requires |src| == |types| && Shaped(src, members)
    ensures CopyAll(src, types, members, |src|) <==>
            forall i :: 0 < i < |src| && types[i] ==>
              && !src[i].body.Unkn?
              && (src[i].body.Composite? ==>
                    forall k :: 0 <= k < |members[i]| && members[i][k] ==>
                      var m := src[i].body.members[k];
                      && (if m.bitfieldSize == 0 then m.bitOffset % 8 == 0
                          else m.bitfieldSize <= 255 && m.bitOffset < 0x100_0000)
                      && (src[i].body.isUnion ==> m.bitOffset == 0))
  {
  }

  lemma {:induction false} KeptHas(ms: seq<Member>, marks: seq<bool>, n: nat, j: nat) returns (k: nat)
    requires n <= |ms| && n <= |marks| && j < n && marks[j]
    ensures k < |Kept(ms, marks, n)| && Kept(ms, marks, n)[k] == ms[j]
  {
    if j == n - 1 {
      k := |Kept(ms, marks, n)| - 1;
    } else {
      k := KeptHas(ms, marks, n - 1, j);
    }
  }

  /** A marked member is a member of its struct's image, with its name and offset, and its type is the image of what
      it was: accesses that were recorded can be found again. */
  lemma MemberSurvives(src: seq<Type>, types: seq<bool>, members: seq<seq<bool>>, out: seq<Type>, t: nat, j: nat)
    returns (k: nat)
    requires ValidBtf(src) && |src| == |types| && Shaped(src, members) && IsMinimal(src, types, members, out)
    requires Closed(src, types, members) && t < |src| && j < |members[t]| && members[t][j]
    ensures src[t].body.Composite? && j < |src[t].body.members|
    ensures var i, m := NewId(types, t), src[t].body.members[j];
            && 0 < i < |out| && out[i].body.Composite? && k < |out[i].body.members|
            && out[i].body.members[k] == m.(typeId := NewId(types, m.typeId))
            && (NewId(types, m.typeId) == 0 <==> m.typeId == 0)
  {
    assert MemberClosed(src, types, t, j) && MarkClosed(src, types, t);
    var m := src[t].body.members[j];
    NewIdRange(types, m.typeId);
    NewIdRange(types, t);
    MemberIds(src, t, j);
    k := KeptHas(src[t].body.members, members[t], |members[t]|, j);
    assert Lookup(Table(types))(m.typeId) == NewId(types, m.typeId);
  }
}
