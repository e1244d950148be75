/**
 Bucket chains in memory: linked entries and the operations on their links, each with the chains of pairs
 that the entries spell out.
 */
module Buckets {
  import opened Hashing
  import opened HashTable

  class Entry {
    var key: int
    var value: int
    var next: Entry?
    /** The bucket that the entry is chained in. */
    ghost var home: nat

    constructor (key: int, value: int)
      ensures this.key == key && this.value == value && next == null
    {
      this.key, this.value, next := key, value, null;
    }
  }

  /** What the next pointer of the j-th entry of a chain should be. */
  function After(c: seq<Entry>, j: nat): Entry? {
    if j + 1 < |c| then c[j + 1] else null
  }

  /** From `head`, the next pointers run through the entries c of bucket b, which hold ps, and end. */
  ghost predicate Linked(head: Entry?, c: seq<Entry>, ps: seq<Pair>, b: nat)
    reads c
  {
    && |c| == |ps|
    && head == (if c == [] then null else c[0])
    && (forall j :: 0 <= j < |c| ==> c[j].key == ps[j].key && c[j].value == ps[j].value && c[j].home == b)
    && (forall j {:trigger c[j].next} :: 0 <= j < |c| ==> c[j].next == After(c, j))
    && (forall i, j :: 0 <= i < j < |c| ==> c[i] != c[j])
  }

  /** Putting an entry in front of a chain. */
  lemma LinkedPush(entry: Entry, c: seq<Entry>, ps: seq<Pair>, b: nat)
    requires Linked(entry.next, c, ps, b) && entry !in c && entry.home == b
    ensures Linked(entry, [entry] + c, [Pair(entry.key, entry.value)] + ps, b)
  {
  }

  /** Cutting entry j out of a chain c, once the links around it are as they should be. */
  lemma LinkedCut(head: Entry?, c: seq<Entry>, ps: seq<Pair>, b: nat, j: nat)
    requires |c| == |ps| && j < |c| && (forall i, i' :: 0 <= i < i' < |c| ==> c[i] != c[i'])
    requires head == (if j > 0 then c[0] else if |c| > 1 then c[1] else null)
    requires forall i :: 0 <= i < |c| && i != j ==> c[i].key == ps[i].key && c[i].value == ps[i].value && c[i].home == b
    requires forall i {:trigger c[i].next} :: 0 <= i < |c| && i != j ==>
               c[i].next == After(c, if i + 1 == j then j else i)
    ensures Linked(head, c[..j] + c[j + 1..], ps[..j] + ps[j + 1..], b)
  {
  }

  /** Walks a chain: the first entry with an equal key and the entry before it. */
  method SearchChain(env: Env, head: Entry?, key: int, ghost c: seq<Entry>, ghost ps: seq<Pair>, ghost b: nat)
    returns (prev: Entry?, cur: Entry?)
    requires Linked(head, c, ps, b)
    ensures cur == (if First(env, ps, key) < |c| then c[First(env, ps, key)] else null)
    ensures prev == (if First(env, ps, key) == 0 then null else c[First(env, ps, key) - 1])
  {
    prev, cur := null, head;
    ghost var j := 0;
    while cur != null
      invariant j <= |ps| && cur == (if j < |c| then c[j] else null)
      invariant prev == (if j == 0 then null else c[j - 1])
      invariant First(env, ps, key) == j + First(env, ps[j..], key)
      decreases |ps| - j
    {
      if env.eq(cur.key, key) {
        return;
      }
      assert ps[j..][1..] == ps[j + 1..];
      prev, cur, j := cur, cur.next, j + 1;
    }
  }

  // ---------- A whole bucket array ----------

  ghost predicate In(e: Entry, cs: seq<seq<Entry>>) { exists i :: 0 <= i < |cs| && e in cs[i] }

  ghost predicate Within(cs: seq<seq<Entry>>, es: set<Entry>) {
    forall i, e :: 0 <= i < |cs| && e in cs[i] ==> e in es
  }

  /** The buckets hold the chains cs of entries from es, which spell out ps. */
  ghost predicate AllLinked(a: array<Entry?>, cs: seq<seq<Entry>>, ps: Chains, es: set<Entry>)
    reads a, es
  {
    && a.Length == |cs| == |ps| && Within(cs, es)
    && forall i :: 0 <= i < |cs| ==> Linked(a[i], cs[i], ps[i], i)
  }

  function NoChains(n: nat): (cs: seq<seq<Entry>>)
    ensures |cs| == n && forall b :: 0 <= b < n ==> cs[b] == []
  {
    seq(n, _ => [])
  }

  lemma EmptyLinked(a: array<Entry?>, es: set<Entry>)
    requires forall i :: 0 <= i < a.Length ==> a[i] == null
    ensures AllLinked(a, NoChains(a.Length), NoEntries(a.Length), es)
    ensures forall e :: !In(e, NoChains(a.Length))
  {
  }

  /** Different buckets have no entry in common. */
  lemma Apart(a: array<Entry?>, cs: seq<seq<Entry>>, ps: Chains, es: set<Entry>, h: nat)
    requires AllLinked(a, cs, ps, es) && h < |cs|
    ensures forall b, e :: 0 <= b < |cs| && b != h && e in cs[h] ==> e !in cs[b]
  {
  }

  /** `hashmap_add_entry`: an entry goes to the front of bucket h. */
  method AddEntry(cur: Entry, a: array<Entry?>, h: nat, ghost cs: seq<seq<Entry>>, ghost ps: Chains,
                  ghost es: set<Entry>)
    requires AllLinked(a, cs, ps, es) && h < a.Length && !In(cur, cs) && cur in es
    modifies a, cur`next, cur`home
    ensures AllLinked(a, cs[h := [cur] + cs[h]], PushFront(ps, h, Pair(cur.key, cur.value)), es)
  {
    forall i | 0 <= i < |cs| ensures cur !in cs[i] {
      if cur in cs[i] {
        assert In(cur, cs);
      }
    }
    cur.next := a[h];
    cur.home := h;
    a[h] := cur;
    forall i | 0 <= i < |cs|
      ensures Linked(a[i], cs[h := [cur] + cs[h]][i], PushFront(ps, h, Pair(cur.key, cur.value))[i], i)
    {
      assert old(Linked(a[i], cs[i], ps[i], i));
      assert Linked(old(a[i]), cs[i], ps[i], i);
      if i == h {
        LinkedPush(cur, cs[h], ps[h], h);
      }
    }
  }

  /** Overwriting an entry in place. */
  method SetEntry(entry: Entry, key: int, value: int, a: array<Entry?>,
                  ghost h: nat, ghost j: nat, ghost cs: seq<seq<Entry>>, ghost ps: Chains, ghost es: set<Entry>)
    requires AllLinked(a, cs, ps, es) && h < |cs| && j < |cs[h]| && entry == cs[h][j]
    modifies entry`key, entry`value
    ensures j < |ps[h]| && AllLinked(a, cs, ps[h := ps[h][j := Pair(key, value)]], es)
  {
    assert Linked(a[h], cs[h], ps[h], h);
    Apart(a, cs, ps, es, h);
    entry.key := key;
    entry.value := value;
    forall b | 0 <= b < |cs| ensures Linked(a[b], cs[b], ps[h := ps[h][j := Pair(key, value)]][b], b) {
      assert old(Linked(a[b], cs[b], ps[b], b));
    }
  }

  /** `hashmap_del_entry`: the pointer to the entry (in `prev`, or in the bucket) skips it. */
  method DelEntry(prev: Entry?, entry: Entry, a: array<Entry?>, h: nat,
                  ghost j: nat, ghost cs: seq<seq<Entry>>, ghost ps: Chains, ghost es: set<Entry>)
    requires AllLinked(a, cs, ps, es) && h < |cs| && j < |cs[h]| && entry == cs[h][j]
    requires prev == if j == 0 then null else cs[h][j - 1]
    modifies a, cs[h]
    ensures j < |ps[h]|
    ensures AllLinked(a, cs[h := cs[h][..j] + cs[h][j + 1..]], ps[h := ps[h][..j] + ps[h][j + 1..]], es)
  {
    ghost var c := cs[h];
    assert Linked(a[h], c, ps[h], h);
    Apart(a, cs, ps, es, h);
    if prev == null {
      a[h] := entry.next;
    } else {
      prev.next := entry.next;
    }
    entry.next := null;
    LinkedCut(a[h], c, ps[h], h, j);
    forall b | 0 <= b < |cs| && b != h ensures Linked(a[b], cs[b], ps[b], b) {
      assert old(Linked(a[b], cs[b], ps[b], b));
    }
  }

  // ---------- Moving entries to new buckets ----------

  ghost function PushAll(slot: Slot, nt: Chains, ps: seq<Pair>): (r: Chains)
    requires Fits(slot, |nt|)
    ensures |r| == |nt|
  {
    if ps == [] then nt
    else PushFront(PushAll(slot, nt, ps[..|ps| - 1]), slot(ps[|ps| - 1].key), ps[|ps| - 1])
  }

  lemma {:induction false} DistributeMore(slot: Slot, es: seq<Pair>, ps: seq<Pair>, n: nat)
    requires Fits(slot, n)
    ensures Distribute(slot, es + ps, n) == PushAll(slot, Distribute(slot, es, n), ps)
  {
    if ps == [] {
      assert es + ps == es;
    } else {
      assert (es + ps)[..|es + ps| - 1] == es + ps[..|ps| - 1];
      DistributeMore(slot, es, ps[..|ps| - 1], n);
    }
  }

  lemma LinkedTail(head: Entry?, c: seq<Entry>, ps: seq<Pair>, b: nat)
    requires Linked(head, c, ps, b) && c != []
    ensures head == c[0] && Linked(c[0].next, c[1..], ps[1..], b) && c[0] !in c[1..]
  {
  }

  /** All the entries of one old chain move, front to back. */
  method MoveChain(env: Env, head: Entry?, a: array<Entry?>, bits: nat,
                   ghost c: seq<Entry>, ghost qs: seq<Pair>, ghost b: nat,
                   ghost cs: seq<seq<Entry>>, ghost ps: Chains, ghost es: set<Entry>)
    returns (ghost cs': seq<seq<Entry>>)
    requires bits <= 64 && a.Length == Pow2(bits)
    requires Linked(head, c, qs, b) && AllLinked(a, cs, ps, es)
    requires forall e :: e in c ==> !In(e, cs) && e in es
    modifies a, c
    ensures |ps| == Pow2(bits) && AllLinked(a, cs', PushAll(SlotOf(env, bits), ps, qs), es)
    ensures forall e :: In(e, cs') ==> e in c || In(e, cs)
  {
    ghost var slot := SlotOf(env, bits);
    assert Distinct(c);
    var cur := head;
    ghost var j := 0;
    cs' := cs;
    assert c[0..] == c && qs[0..] == qs;
    while cur != null
      invariant j <= |c| == |qs| && Linked(cur, c[j..], qs[j..], b)
      invariant AllLinked(a, cs', PushAll(slot, ps, qs[..j]), es) && MovedSoFar(c, j, cs', cs)
      decreases |c| - j
    {
      MovedOne(c, j, cs', cs, slot(qs[j].key));
      NextOf(c, j);
      NextOf(qs, j);
      cur, cs' := MoveFirst(env, cur, a, bits, c[j..], qs[j..], b, cs', PushAll(slot, ps, qs[..j]), es);
      j := j + 1;
    }
    assert qs[..j] == qs && c[..j] == c;
  }

  lemma NextOf<T>(s: seq<T>, j: nat)
    requires j < |s|
    ensures s[j..][1..] == s[j + 1..] && s[j..][0] == s[j] && s[..j + 1][..j] == s[..j]
  {
  }

  /** One entry moves; the rest of its chain is what is left. */
  method MoveFirst(env: Env, cur: Entry, a: array<Entry?>, bits: nat,
                   ghost c: seq<Entry>, ghost qs: seq<Pair>, ghost b: nat,
                   ghost cs: seq<seq<Entry>>, ghost ps: Chains, ghost es: set<Entry>)
    returns (tmp: Entry?, ghost cs': seq<seq<Entry>>)
    requires bits <= 64 && a.Length == Pow2(bits)
    requires c != [] && Linked(cur, c, qs, b) && AllLinked(a, cs, ps, es) && !In(c[0], cs) && c[0] in es
    modifies a, c[0]
    ensures var h := SlotOf(env, bits)(qs[0].key);
            && h < |cs| && cs' == cs[h := [c[0]] + cs[h]]
            && AllLinked(a, cs', PushFront(ps, h, qs[0]), es)
    ensures Linked(tmp, c[1..], qs[1..], b)
  {
    tmp := cur.next;
    LinkedTail(cur, c, qs, b);
    assert Pair(cur.key, cur.value) == qs[0];
    var h := HashOf(env, cur.key, bits);
    AddEntry(cur, a, h, cs, ps, es);
    cs' := cs[h := [cur] + cs[h]];
  }

  ghost predicate Distinct(c: seq<Entry>) { forall i, i' :: 0 <= i < i' < |c| ==> c[i] != c[i'] }

  /** Of the chain, only the first j entries have been moved. */
  ghost predicate MovedSoFar(c: seq<Entry>, j: nat, cs': seq<seq<Entry>>, cs: seq<seq<Entry>>)
    requires j <= |c|
  {
    forall i, e :: 0 <= i < |cs'| && e in cs'[i] ==> e in c[..j] || In(e, cs)
  }

  lemma MovedOne(c: seq<Entry>, j: nat, cs': seq<seq<Entry>>, cs: seq<seq<Entry>>, h: nat)
    requires Distinct(c) && j < |c| && MovedSoFar(c, j, cs', cs) && !In(c[j], cs)
    ensures !In(c[j], cs')
    ensures h < |cs'| ==> MovedSoFar(c, j + 1, cs'[h := [c[j]] + cs'[h]], cs)
  {
  }

  /** The loop of `hashmap_grow`: every entry moves from the old buckets to the new. */
  method MoveAll(env: Env, old_: array<Entry?>, a: array<Entry?>, bits: nat,
                 ghost cs: seq<seq<Entry>>, ghost ps: Chains, ghost es: set<Entry>)
    returns (ghost cs': seq<seq<Entry>>)
    requires bits <= 64 && a.Length == Pow2(bits) && a != old_ && AllLinked(old_, cs, ps, es)
    requires forall i :: 0 <= i < a.Length ==> a[i] == null
    modifies a, es
    ensures AllLinked(a, cs', Distribute(SlotOf(env, bits), Flatten(ps), Pow2(bits)), es)
  {
    ghost var slot, n := SlotOf(env, bits), Pow2(bits);
    cs' := NoChains(n);
    ghost var ps' := NoEntries(n);
    EmptyLinked(a, es);
    AllApart(old_, cs, ps, es);
    for bkt := 0 to old_.Length
      invariant ps' == Distribute(slot, Flatten(ps[..bkt]), n) && AllLinked(a, cs', ps', es)
      invariant Waiting(old_, cs, ps, es, bkt) && forall e :: In(e, cs') ==> In(e, cs[..bkt])
    {
      assert ps[..bkt + 1][..bkt] == ps[..bkt];
      DistributeMore(slot, Flatten(ps[..bkt]), ps[bkt], n);
      cs' := MoveBucket(env, old_, a, bits, bkt, cs, ps, cs', ps', es);
      ps' := PushAll(slot, ps', ps[bkt]);
    }
    assert ps[..|ps|] == ps;
  }

  /** The old buckets from bkt on have not been touched. */
  ghost predicate Waiting(a: array<Entry?>, cs: seq<seq<Entry>>, ps: Chains, es: set<Entry>, bkt: nat)
    reads a, es
  {
    && a.Length == |cs| == |ps| && Within(cs, es)
    && forall b :: bkt <= b < |cs| ==> Linked(a[b], cs[b], ps[b], b)
  }

  method MoveBucket(env: Env, old_: array<Entry?>, a: array<Entry?>, bits: nat, bkt: nat,
                    ghost cs: seq<seq<Entry>>, ghost ps: Chains, ghost cs0: seq<seq<Entry>>, ghost ps0: Chains,
                    ghost es: set<Entry>)
    returns (ghost cs': seq<seq<Entry>>)
    requires bits <= 64 && a.Length == Pow2(bits) && a != old_ && bkt < old_.Length
    requires Waiting(old_, cs, ps, es, bkt) && PairwiseApart(cs) && AllLinked(a, cs0, ps0, es)
    requires forall e :: In(e, cs0) ==> In(e, cs[..bkt])
    modifies a, cs[bkt]
    ensures Waiting(old_, cs, ps, es, bkt + 1)
    ensures |ps0| == Pow2(bits) && AllLinked(a, cs', PushAll(SlotOf(env, bits), ps0, ps[bkt]), es)
    ensures forall e :: In(e, cs') ==> In(e, cs[..bkt + 1])
  {
    StillWaiting(cs, bkt, cs0);
    cs' := MoveChain(env, old_[bkt], a, bits, cs[bkt], ps[bkt], bkt, cs0, ps0, es);
    MovedBucket(cs, bkt, cs0, cs');
  }

  ghost predicate PairwiseApart(cs: seq<seq<Entry>>) {
    forall b, h, j :: 0 <= b < |cs| && 0 <= h < |cs| && b != h && 0 <= j < |cs[h]| ==> cs[h][j] !in cs[b]
  }

  lemma AllApart(a: array<Entry?>, cs: seq<seq<Entry>>, ps: Chains, es: set<Entry>)
    requires AllLinked(a, cs, ps, es)
    ensures PairwiseApart(cs)
  {
  }

  lemma StillWaiting(cs: seq<seq<Entry>>, bkt: nat, before: seq<seq<Entry>>)
    requires PairwiseApart(cs) && bkt < |cs|
    requires forall e :: In(e, before) ==> In(e, cs[..bkt])
    ensures forall e :: e in cs[bkt] ==> !In(e, before)
    ensures forall b, e :: bkt < b < |cs| && e in cs[bkt] ==> e !in cs[b]
  {
  }

  lemma MovedBucket(cs: seq<seq<Entry>>, bkt: nat, before: seq<seq<Entry>>, after: seq<seq<Entry>>)
    requires bkt < |cs|
    requires forall e :: In(e, before) ==> In(e, cs[..bkt])
    requires forall e :: In(e, after) ==> e in cs[bkt] || In(e, before)
    ensures forall e :: In(e, after) ==> In(e, cs[..bkt + 1])
  {
  }
}
