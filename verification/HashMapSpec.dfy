/**
 The operations of the hash map on tables, and what they mean: each is described by what it does to
 `Matches`, and runs of them without APPEND behave as a finite map.
 */
module HashMapSpec {
  import opened Wrappers
  import opened Hashing
  import opened HashTable

  // ---------- The operations ----------

  ghost function Push(env: Env, t: Table, p: Pair): Table
    requires Ok(env, t) && t.bits > 0
  {
    Table(t.bits, PushFront(t.chains, SlotOf(env, t.bits)(p.key), p))
  }

  /** The table with the first entry for k replaced. */
  ghost function Replace(env: Env, t: Table, k: int, p: Pair): Table
    requires Ok(env, t) && First(env, Bucket(env, t, k), k) < |Bucket(env, t, k)|
  {
    var b := SlotOf(env, t.bits)(k);
    Table(t.bits, t.chains[b := t.chains[b][First(env, t.chains[b], k) := p]])
  }

  /** The table without the first entry for k. */
  ghost function Remove(env: Env, t: Table, k: int): Table
    requires Ok(env, t) && First(env, Bucket(env, t, k), k) < |Bucket(env, t, k)|
  {
    var b := SlotOf(env, t.bits)(k);
    var j := First(env, t.chains[b], k);
    Table(t.bits, t.chains[b := t.chains[b][..j] + t.chains[b][j + 1..]])
  }

  /** Making room for one more entry; growth may be impossible. */
  ghost function Roomy(env: Env, t: Table, calloc: bool): Table
    requires Ok(env, t)
  {
    if NeedsToGrow(Size(t), |t.chains|) && CanGrow(t, calloc) then Grown(env, t) else t
  }

  predicate NoRoom(t: Table, calloc: bool) {
    NeedsToGrow(Size(t), |t.chains|) && !CanGrow(t, calloc)
  }

  // ---------- Each operation keeps the invariant ----------

  lemma {:induction false} Pow2Quad(b: nat)
    requires b >= 2
    ensures Pow2(b) % 4 == 0
  {
  }

  lemma GrownContents(env: Env, t: Table)
    requires GrownBits(t.bits) <= MAX_CAP_BITS
    ensures multiset(Flatten(Grown(env, t).chains)) == multiset(Flatten(t.chains)) && Size(Grown(env, t)) == Size(t)
    ensures Hashed(SlotOf(env, Grown(env, t).bits), Grown(env, t).chains)
  {
    var bits := GrownBits(t.bits);
    DistributeKeeps(SlotOf(env, bits), Flatten(t.chains), Pow2(bits));
    SizeIsLength(t);
    SizeIsLength(Grown(env, t));
    SameLength(Flatten(Grown(env, t).chains), Flatten(t.chains));
  }

  lemma SameLength(a: seq<Pair>, b: seq<Pair>)
    requires multiset(a) == multiset(b)
    ensures |a| == |b|
  {
    assert |a| == |multiset(a)| == |multiset(b)| == |b|;
  }

  lemma DoublingSuffices(bits: nat, size: nat)
    requires if bits == 0 then size == 0 else bits >= 2 && 4 * size <= 3 * Pow2(bits)
    ensures 4 * (size + 1) <= 3 * Pow2(GrownBits(bits))
  {
  }

  lemma GrownOk(env: Env, t: Table)
    requires Ok(env, t) && GrownBits(t.bits) <= MAX_CAP_BITS
    ensures Ok(env, Grown(env, t)) && Grown(env, t).bits > 0 && Size(Grown(env, t)) == Size(t)
    ensures multiset(Flatten(Grown(env, t).chains)) == multiset(Flatten(t.chains))
    ensures 4 * (Size(Grown(env, t)) + 1) <= 3 * |Grown(env, t).chains|
  {
    GrownContents(env, t);
    DoublingSuffices(t.bits, Size(t));
  }

  /** Growth starts with four buckets, and then doubles. */
  lemma GrowthDoubles(env: Env, t: Table)
    requires Ok(env, t) && GrownBits(t.bits) <= MAX_CAP_BITS
    ensures |Grown(env, t).chains| == if t.chains == [] then 4 else 2 * |t.chains|
  {
  }

  /** The truncating growth test is exact when the capacity is a multiple of four. */
  lemma GrowthTestExact(size: nat, cap: nat)
    requires cap % 4 == 0 && cap > 0
    ensures NeedsToGrow(size, cap) <==> 4 * (size + 1) > 3 * cap
  {
  }

  /** One doubling always suffices: with room made, one more entry keeps the table at most 75% full. */
  lemma RoomyOk(env: Env, t: Table, calloc: bool)
    requires Ok(env, t) && !NoRoom(t, calloc)
    ensures var r := Roomy(env, t, calloc);
            && Ok(env, r) && r.bits > 0 && 4 * (Size(r) + 1) <= 3 * |r.chains|
            && multiset(Flatten(r.chains)) == multiset(Flatten(t.chains))
  {
    if NeedsToGrow(Size(t), |t.chains|) {
      GrownOk(env, t);
    } else {
      Pow2Quad(t.bits);
      GrowthTestExact(Size(t), |t.chains|);
    }
  }

  lemma RoomFor(env: Env, t: Table, calloc: bool)
    requires Ok(env, t)
    ensures !NoRoom(t, calloc) ==>
              var r := Roomy(env, t, calloc); Ok(env, r) && r.bits > 0 && 4 * (Size(r) + 1) <= 3 * |r.chains|
  {
    if !NoRoom(t, calloc) {
      RoomyOk(env, t, calloc);
    }
  }

  lemma PushOk(env: Env, t: Table, p: Pair)
    requires Ok(env, t) && t.bits > 0 && 4 * (Size(t) + 1) <= 3 * |t.chains|
    ensures Ok(env, Push(env, t, p)) && Size(Push(env, t, p)) == Size(t) + 1
    ensures multiset(Flatten(Push(env, t, p).chains)) == multiset{p} + multiset(Flatten(t.chains))
  {
    SizeIsLength(t);
    SizeIsLength(Push(env, t, p));
    PushFrontHashed(SlotOf(env, t.bits), t.chains, p);
    PushFrontContents(t.chains, SlotOf(env, t.bits)(p.key), p);
  }

  lemma ReplaceOk(env: Env, t: Table, k: int, p: Pair)
    requires env.Lawful() && Ok(env, t) && First(env, Bucket(env, t, k), k) < |Bucket(env, t, k)| && env.eq(p.key, k)
    ensures Ok(env, Replace(env, t, k, p)) && Size(Replace(env, t, k, p)) == Size(t)
  {
    var b := SlotOf(env, t.bits)(k);
    SlotRespects(env, t.bits);
    var c := t.chains[b][First(env, t.chains[b], k) := p];
    FlattenUpdate(t.chains, b, c);
    SizeIsLength(t);
    SizeIsLength(Replace(env, t, k, p));
  }

  lemma RemoveOk(env: Env, t: Table, k: int)
    requires Ok(env, t) && First(env, Bucket(env, t, k), k) < |Bucket(env, t, k)|
    ensures Ok(env, Remove(env, t, k)) && Size(Remove(env, t, k)) == Size(t) - 1
  {
    var b := SlotOf(env, t.bits)(k);
    var j := First(env, t.chains[b], k);
    RemoveHashed(SlotOf(env, t.bits), t.chains, b, j);
    RemoveSize(t, b, j);
  }

  lemma RemoveSize(t: Table, b: nat, j: nat)
    requires b < |t.chains| && j < |t.chains[b]|
    ensures var c := t.chains[b][..j] + t.chains[b][j + 1..];
            Size(Table(t.bits, t.chains[b := c])) == Size(t) - 1
  {
    var c := t.chains[b][..j] + t.chains[b][j + 1..];
    FlattenUpdate(t.chains, b, c);
    SizeIsLength(t);
    SizeIsLength(Table(t.bits, t.chains[b := c]));
  }

  lemma RemoveHashed(slot: Slot, chains: Chains, b: nat, j: nat)
    requires Hashed(slot, chains) && b < |chains| && j < |chains[b]|
    ensures Hashed(slot, chains[b := chains[b][..j] + chains[b][j + 1..]])
  {
  }

  // ---------- Each operation, seen through Matches ----------

  /** Searching the bucket of k finds an entry exactly when some entry has a key equal to k, and then the
      first of them in iteration order. */
  lemma FirstIsFirstMatch(env: Env, t: Table, k: int)
    requires env.Lawful() && Ok(env, t)
    ensures var bucket, m := Bucket(env, t, k), Matches(env, t, k);
            var j := First(env, bucket, k);
            && (j < |bucket| <==> m != [])
            && (m != [] ==> j < |bucket| && bucket[j] == m[0] && env.eq(m[0].key, k))
  {
    BucketHasAllMatches(env, t, k);
    FirstSelects(env, Bucket(env, t, k), k);
  }

  lemma GrownMatches(env: Env, t: Table, q: int)
    requires env.Lawful() && Ok(env, t) && GrownBits(t.bits) <= MAX_CAP_BITS
    ensures Matches(env, Grown(env, t), q) == Reverse(Matches(env, t, q))
  {
    var bits := GrownBits(t.bits);
    SlotRespects(env, bits);
    DistributeReverses(env, SlotOf(env, bits), Flatten(t.chains), Pow2(bits), q);
  }

  lemma PushMatches(env: Env, t: Table, p: Pair, q: int)
    requires env.Lawful() && Ok(env, t) && t.bits > 0
    ensures Matches(env, Push(env, t, p), q) == (if env.eq(p.key, q) then [p] else []) + Matches(env, t, q)
  {
    SlotRespects(env, t.bits);
    PushFrontMatches(env, SlotOf(env, t.bits), t.chains, p, q);
  }

  /** Changing one chain changes the matches of the keys of that bucket only. */
  lemma ChainMatches(env: Env, t: Table, k: int, c: seq<Pair>, q: int)
    requires env.Lawful() && Ok(env, t) && t.bits > 0
    requires Ok(env, Table(t.bits, t.chains[SlotOf(env, t.bits)(k) := c]))
    ensures Matches(env, Table(t.bits, t.chains[SlotOf(env, t.bits)(k) := c]), q)
         == if SlotOf(env, t.bits)(q) == SlotOf(env, t.bits)(k) then Select(env, c, q) else Matches(env, t, q)
  {
    var slot := SlotOf(env, t.bits);
    SlotRespects(env, t.bits);
    SelectAll(env, slot, t.chains, q);
    SelectAll(env, slot, t.chains[slot(k) := c], q);
  }

  function Tail<T>(s: seq<T>): seq<T> {
    if s == [] then [] else s[1..]
  }

  /** The two ways keys k and q can be related: equal to the same keys, or to no common key. */
  ghost predicate Same(env: Env, k: int, q: int) { forall x :: env.eq(x, k) <==> env.eq(x, q) }

  ghost predicate Different(env: Env, k: int, q: int) { forall x :: env.eq(x, k) ==> !env.eq(x, q) }

  lemma Related(env: Env, k: int, q: int)
    requires env.Lawful()
    ensures if env.eq(k, q) then Same(env, k, q) else Different(env, k, q)
  {
  }

  lemma {:induction false} SelectSame(env: Env, c: seq<Pair>, k: int, q: int)
    requires Same(env, k, q)
    ensures Select(env, c, q) == Select(env, c, k)
  {
    if c != [] {
      SelectSame(env, c[1..], k, q);
    }
  }

  /** A chain's matches, cut at position j. */
  lemma Cut(env: Env, c: seq<Pair>, j: nat, q: int)
    requires j < |c|
    ensures Select(env, c, q)
         == Select(env, c[..j], q) + ((if env.eq(c[j].key, q) then [c[j]] else []) + Select(env, c[j + 1..], q))
  {
    assert c == c[..j] + c[j..] && c[j..][1..] == c[j + 1..];
    SelectConcat(env, c[..j], c[j..], q);
  }

  /** A chain cut at its first entry for k: the entry comes first among the keys equal to k. */
  lemma CutAtFirst(env: Env, c: seq<Pair>, k: int, q: int)
    requires First(env, c, k) < |c|
    ensures var j := First(env, c, k);
            && env.eq(c[j].key, k)
            && (Same(env, k, q) ==>
               Select(env, c[..j], q) == [] && Select(env, c, q) == [c[j]] + Select(env, c[j + 1..], q))
            && (Different(env, k, q) ==> Select(env, c, q) == Select(env, c[..j], q) + Select(env, c[j + 1..], q))
  {
    var j := First(env, c, k);
    FirstSelects(env, c, k);
    if Same(env, k, q) {
      SelectSame(env, c[..j], k, q);
      SelectSame(env, c, k, q);
      SelectSame(env, c[j + 1..], k, q);
    }
    if Different(env, k, q) {
      Cut(env, c, j, q);
      assert [] + Select(env, c[j + 1..], q) == Select(env, c[j + 1..], q);
    }
  }

  lemma ChainReplaced(env: Env, c: seq<Pair>, k: int, p: Pair, q: int)
    requires First(env, c, k) < |c| && env.eq(p.key, k)
    ensures var c' := c[First(env, c, k) := p];
            && (Same(env, k, q) ==> Select(env, c', q) == [p] + Tail(Select(env, c, q)))
            && (Different(env, k, q) ==> Select(env, c', q) == Select(env, c, q))
  {
    var j := First(env, c, k);
    var c' := c[j := p];
    CutAtFirst(env, c, k, q);
    Cut(env, c', j, q);
    assert c'[..j] == c[..j] && c'[j + 1..] == c[j + 1..];
  }

  lemma ChainRemoved(env: Env, c: seq<Pair>, k: int, q: int)
    requires First(env, c, k) < |c|
    ensures var j := First(env, c, k);
            var c' := c[..j] + c[j + 1..];
            && (Same(env, k, q) ==> Select(env, c', q) == Tail(Select(env, c, q)))
            && (Different(env, k, q) ==> Select(env, c', q) == Select(env, c, q))
  {
    var j := First(env, c, k);
    CutAtFirst(env, c, k, q);
    SelectConcat(env, c[..j], c[j + 1..], q);
  }

  lemma ReplaceMatches(env: Env, t: Table, k: int, p: Pair, q: int)
    requires env.Lawful() && Ok(env, t) && First(env, Bucket(env, t, k), k) < |Bucket(env, t, k)| && env.eq(p.key, k)
    ensures Matches(env, Replace(env, t, k, p), q)
         == if env.eq(k, q) then [p] + Tail(Matches(env, t, q)) else Matches(env, t, q)
  {
    var slot := SlotOf(env, t.bits);
    SlotRespects(env, t.bits);
    var chain := t.chains[slot(k)];
    ReplaceOk(env, t, k, p);
    SelectAll(env, slot, t.chains, q);
    ChainMatches(env, t, k, chain[First(env, chain, k) := p], q);
    ChainReplaced(env, chain, k, p, q);
    Related(env, k, q);
  }

  lemma RemoveMatches(env: Env, t: Table, k: int, q: int)
    requires env.Lawful() && Ok(env, t) && First(env, Bucket(env, t, k), k) < |Bucket(env, t, k)|
    ensures Matches(env, Remove(env, t, k), q) == if env.eq(k, q) then Tail(Matches(env, t, q)) else Matches(env, t, q)
  {
    var slot := SlotOf(env, t.bits);
    SlotRespects(env, t.bits);
    var chain := t.chains[slot(k)];
    var j := First(env, chain, k);
    assert Ok(env, Remove(env, t, k)) by {
      RemoveOk(env, t, k);
    }
    assert Matches(env, t, q) == Select(env, t.chains[slot(q)], q) by {
      SelectAll(env, slot, t.chains, q);
    }
    ChainMatches(env, t, k, chain[..j] + chain[j + 1..], q);
    ChainRemoved(env, chain, k, q);
    Related(env, k, q);
  }

  // ---------- Whole operations ----------

  /** `hashmap_insert`: the new table and the result.  `calloc` and `malloc` say whether memory can be had. */
  ghost function Insert(env: Env, t: Table, k: int, v: int, strategy: Strategy,
                        calloc: bool, malloc: bool): (Table, Inserted)
    requires Ok(env, t)
  {
    var bucket := Bucket(env, t, k);
    var j := First(env, bucket, k);
    if strategy != APPEND && j < |bucket| then
      (if strategy == ADD then t else Replace(env, t, k, Pair(k, v)),
       Inserted(if strategy == ADD then EEXIST else OK, bucket[j].key, bucket[j].value))
    else if strategy == UPDATE then (t, Inserted(ENOENT, 0, 0))
    else if NoRoom(t, calloc) then (t, Inserted(ENOMEM, 0, 0))
    else
      RoomyOk(env, t, calloc);
      if malloc then (Push(env, Roomy(env, t, calloc), Pair(k, v)), Inserted(OK, 0, 0))
      else (Roomy(env, t, calloc), Inserted(ENOMEM, 0, 0))
  }

  /** What looking for the key first comes to. */
  ghost predicate AfterFound(env: Env, t: Table, k: int, v: int, strategy: Strategy, t': Table, found: bool,
                             oldKey: int, oldValue: int)
    requires Ok(env, t)
  {
    var bucket := Bucket(env, t, k);
    var j := First(env, bucket, k);
    && found == (j < |bucket|)
    && Pair(oldKey, oldValue) == (if found then bucket[j] else Pair(0, 0))
    && t' == if found && strategy != ADD then Replace(env, t, k, Pair(k, v)) else t
  }

  /** What adding an entry comes to. */
  ghost predicate AfterNew(env: Env, t: Table, k: int, v: int, calloc: bool, malloc: bool, t': Table, r: Inserted)
    requires Ok(env, t)
  {
    if NoRoom(t, calloc) then t' == t && r == Inserted(ENOMEM, 0, 0)
    else
      RoomyOk(env, t, calloc);
      var roomy := Roomy(env, t, calloc);
      if malloc then t' == Push(env, roomy, Pair(k, v)) && r == Inserted(OK, 0, 0)
      else t' == roomy && r == Inserted(ENOMEM, 0, 0)
  }

  lemma InsertFoundIs(env: Env, t: Table, k: int, v: int, strategy: Strategy, calloc: bool, malloc: bool,
                      t': Table, found: bool, oldKey: int, oldValue: int)
    requires Ok(env, t) && strategy != APPEND && AfterFound(env, t, k, v, strategy, t', found, oldKey, oldValue)
    requires found || strategy == UPDATE
    ensures Insert(env, t, k, v, strategy, calloc, malloc) ==
              (t', Inserted(if !found then ENOENT else if strategy == ADD then EEXIST else OK, oldKey, oldValue))
  {
  }

  lemma InsertNewIs(env: Env, t: Table, k: int, v: int, strategy: Strategy, calloc: bool, malloc: bool,
                    t': Table, r: Inserted)
    requires Ok(env, t) && strategy != UPDATE && AfterNew(env, t, k, v, calloc, malloc, t', r)
    requires strategy == APPEND || First(env, Bucket(env, t, k), k) >= |Bucket(env, t, k)|
    ensures Insert(env, t, k, v, strategy, calloc, malloc) == (t', r)
  {
  }

  /** `hashmap_delete`: the new table and the removed entry. */
  ghost function Delete(env: Env, t: Table, k: int): (Table, Option<Pair>)
    requires Ok(env, t)
  {
    var bucket := Bucket(env, t, k);
    var j := First(env, bucket, k);
    if j < |bucket| then (Remove(env, t, k), Some(bucket[j])) else (t, None)
  }

  /** The entry that a lookup of k reports. */
  function Get(env: Env, t: Table, k: int): Option<Pair> {
    var m := Matches(env, t, k);
    if m == [] then None else Some(m[0])
  }

  /** The matches of q once room has been made: reversed if the table had to grow. */
  function Settled(env: Env, t: Table, calloc: bool, q: int): seq<Pair> {
    var m := Matches(env, t, q);
    if NeedsToGrow(Size(t), |t.chains|) && CanGrow(t, calloc) then Reverse(m) else m
  }

  /** An insert that is to add an entry. */
  predicate Due(env: Env, t: Table, k: int, strategy: Strategy) {
    strategy == APPEND || (strategy != UPDATE && Get(env, t, k).None?)
  }

  /** An insert that makes the table grow. */
  predicate Grows(env: Env, t: Table, k: int, strategy: Strategy, calloc: bool) {
    Due(env, t, k, strategy) && NeedsToGrow(Size(t), |t.chains|) && CanGrow(t, calloc)
  }

  lemma RoomyMatches(env: Env, t: Table, calloc: bool, q: int)
    requires env.Lawful() && Ok(env, t)
    ensures Matches(env, Roomy(env, t, calloc), q) == Settled(env, t, calloc, q)
  {
    if NeedsToGrow(Size(t), |t.chains|) && CanGrow(t, calloc) {
      GrownMatches(env, t, q);
    }
  }

  /** What an insert means, for every strategy and every key q that one may look at afterwards. */
  lemma InsertMeaning(env: Env, t: Table, k: int, v: int, strategy: Strategy, calloc: bool, malloc: bool, q: int)
    requires env.Lawful() && Ok(env, t)
    ensures var (t', r) := Insert(env, t, k, v, strategy, calloc, malloc);
            var m, here := Matches(env, t, q), Get(env, t, k);
            && Ok(env, t')
            && (r.err == EEXIST <==> strategy == ADD && here.Some?)
            && (r.err == ENOENT <==> strategy == UPDATE && here.None?)
            && (r.err == ENOMEM <==> Due(env, t, k, strategy) && (!malloc || NoRoom(t, calloc)))
            && (r.oldKey, r.oldValue) ==
               (if strategy != APPEND && here.Some? then (here.value.key, here.value.value) else (0, 0))
            && Matches(env, t', q) ==
                 (if r.err == EEXIST || r.err == ENOENT || (r.err == ENOMEM && NoRoom(t, calloc)) then m
                  else if r.err == ENOMEM then Settled(env, t, calloc, q)
                  else if strategy != APPEND && here.Some? then (if env.eq(k, q) then [Pair(k, v)] + Tail(m) else m)
                  else (if env.eq(k, q) then [Pair(k, v)] else []) + Settled(env, t, calloc, q))
  {
    FirstIsFirstMatch(env, t, k);
    if strategy != APPEND && Get(env, t, k).Some? {
      ReplaceOk(env, t, k, Pair(k, v));
      ReplaceMatches(env, t, k, Pair(k, v), q);
    } else if strategy != UPDATE && !NoRoom(t, calloc) {
      RoomyOk(env, t, calloc);
      RoomyMatches(env, t, calloc, q);
      PushOk(env, Roomy(env, t, calloc), Pair(k, v));
      PushMatches(env, Roomy(env, t, calloc), Pair(k, v), q);
    }
  }

  /** What an insert does to the size and the capacity. */
  lemma InsertCounts(env: Env, t: Table, k: int, v: int, strategy: Strategy, calloc: bool, malloc: bool)
    requires env.Lawful() && Ok(env, t)
    ensures var (t', r) := Insert(env, t, k, v, strategy, calloc, malloc);
            && Size(t') == Size(t) + (if r.err == OK && Due(env, t, k, strategy) then 1 else 0)
            && t'.bits == (if Grows(env, t, k, strategy, calloc) then GrownBits(t.bits) else t.bits)
            && (Grows(env, t, k, strategy, calloc) ==> |t'.chains| == if t.chains == [] then 4 else 2 * |t.chains|)
  {
    if Grows(env, t, k, strategy, calloc) {
      GrowthDoubles(env, t);
    }
    FirstIsFirstMatch(env, t, k);
    if strategy != APPEND && Get(env, t, k).Some? {
      ReplaceOk(env, t, k, Pair(k, v));
    } else if strategy != UPDATE && !NoRoom(t, calloc) {
      RoomyOk(env, t, calloc);
      RoomySize(env, t, calloc);
      PushOk(env, Roomy(env, t, calloc), Pair(k, v));
    }
  }

  lemma RoomySize(env: Env, t: Table, calloc: bool)
    requires Ok(env, t)
    ensures Size(Roomy(env, t, calloc)) == Size(t)
  {
    if NeedsToGrow(Size(t), |t.chains|) && CanGrow(t, calloc) {
      GrownOk(env, t);
    }
  }

  /** What a delete means. */
  lemma DeleteMeaning(env: Env, t: Table, k: int, q: int)
    requires env.Lawful() && Ok(env, t)
    ensures var (t', r) := Delete(env, t, k);
            && Ok(env, t') && r == Get(env, t, k)
            && Matches(env, t', q) == (if r.Some? && env.eq(k, q) then Tail(Matches(env, t, q)) else Matches(env, t, q))
            && Size(t') == Size(t) - (if r.Some? then 1 else 0)
  {
    FirstIsFirstMatch(env, t, k);
    if Get(env, t, k).Some? {
      RemoveOk(env, t, k);
      RemoveMatches(env, t, k, q);
    }
  }

  /** A failing insert leaves the contents as they were: the same entries, and with unique keys the same lookups. */
  lemma FailedInsertKeepsContents(env: Env, t: Table, k: int, v: int, strategy: Strategy, calloc: bool, malloc: bool)
    requires env.Lawful() && Ok(env, t)
    ensures var (t', r) := Insert(env, t, k, v, strategy, calloc, malloc);
            r.err != OK ==> && multiset(Flatten(t'.chains)) == multiset(Flatten(t.chains))
                            && (UniqueKeys(env, t) ==> forall q :: Get(env, t', q) == Get(env, t, q))
  {
    var (t', r) := Insert(env, t, k, v, strategy, calloc, malloc);
    if r.err == ENOMEM && !NoRoom(t, calloc) {
      RoomyOk(env, t, calloc);
    }
    forall q | UniqueKeys(env, t) && r.err != OK ensures Get(env, t', q) == Get(env, t, q) {
      InsertMeaning(env, t, k, v, strategy, calloc, malloc, q);
      ReverseShort(Matches(env, t, q));
    }
  }

  lemma ReverseShort<T>(s: seq<T>)
    ensures |s| <= 1 ==> Reverse(s) == s
  {
  }

  // ---------- Runs ----------

  datatype Op =
    | DoInsert(key: int, value: int, strategy: Strategy, calloc: bool, malloc: bool)
    | DoFind(key: int)
    | DoDelete(key: int)
    | DoClear

  datatype Outcome = OfInsert(result: Inserted) | OfFind(value: Option<Pair>)
    | OfDelete(removed: Option<Pair>) | OfClear

  ghost function Step(env: Env, t: Table, op: Op): (Table, Outcome)
    requires Ok(env, t)
  {
    match op
    case DoInsert(k, v, strategy, calloc, malloc) =>
      var (t', r) := Insert(env, t, k, v, strategy, calloc, malloc); (t', OfInsert(r))
    case DoFind(k) =>
      var bucket := Bucket(env, t, k);
      var j := First(env, bucket, k);
      (t, OfFind(if j < |bucket| then Some(bucket[j]) else None))
    case DoDelete(k) => var (t', r) := Delete(env, t, k); (t', OfDelete(r))
    case DoClear => (EMPTY, OfClear)
  }

  /** A finite map up to key equality: what each key maps to. */
  type Dict = int -> Option<Pair>

  /** The reference state: a finite map, how many keys it has, and how many bits of capacity it has been given.  The
      latter two matter only to running out of memory. */
  datatype Ref = Ref(dict: Dict, size: nat, bits: nat)

  const NOTHING := Ref(_ => None, 0, 0)

  function Capacity(bits: nat): nat { if bits == 0 then 0 else Pow2(bits) }

  /** The result of an insert into a finite map that has `here` for the key. */
  function RefInsert(here: Option<Pair>, strategy: Strategy, oom: bool): Inserted {
    match here
    case Some(p) => Inserted(if strategy == ADD then EEXIST else OK, p.key, p.value)
    case None => Inserted(if strategy == UPDATE then ENOENT else if oom then ENOMEM else OK, 0, 0)
  }

  function Stored(env: Env, d: Dict, k: int, p: Option<Pair>): Dict {
    q => if env.eq(k, q) then p else d(q)
  }

  /** The reference semantics of one operation.  A new entry needs memory for itself and, if the map is full, for twice
      the buckets. */
  function RefStep(env: Env, d: Ref, op: Op): (Ref, Outcome) {
    match op
    case DoInsert(k, v, strategy, calloc, malloc) =>
      var due := d.dict(k).None? && strategy != UPDATE;
      var full := NeedsToGrow(d.size, Capacity(d.bits));
      var canGrow := calloc && GrownBits(d.bits) <= MAX_CAP_BITS;
      var r := RefInsert(d.dict(k), strategy, !malloc || (full && !canGrow));
      (Ref(if r.err == OK then Stored(env, d.dict, k, Some(Pair(k, v))) else d.dict,
           d.size + (if r.err == OK && due then 1 else 0),
           if due && full && canGrow then GrownBits(d.bits) else d.bits),
       OfInsert(r))
    case DoFind(k) => (d, OfFind(d.dict(k)))
    case DoDelete(k) =>
      (Ref(Stored(env, d.dict, k, None), if d.dict(k).Some? && d.size > 0 then d.size - 1 else d.size, d.bits),
       OfDelete(d.dict(k)))
    case DoClear => (NOTHING, OfClear)
  }

  /** The table represents the map: each key has at most one entry, and it is the one the map gives. */
  ghost predicate Represents(env: Env, t: Table, d: Ref) {
    && Ok(env, t) && Size(t) == d.size && t.bits == d.bits
    && Agrees(env, t, d.dict)
  }

  ghost predicate Agrees(env: Env, t: Table, d: Dict) {
    forall q :: |Matches(env, t, q)| <= 1 && Get(env, t, q) == d(q)
  }

  /** An insert into a table with unique keys, as seen from key q. */
  lemma InsertAt(env: Env, t: Table, k: int, v: int, strategy: Strategy, calloc: bool, malloc: bool, q: int)
    requires env.Lawful() && Ok(env, t) && |Matches(env, t, q)| <= 1 && strategy != APPEND
    ensures var (t', r) := Insert(env, t, k, v, strategy, calloc, malloc);
            && |Matches(env, t', q)| <= 1
            && Get(env, t', q) == if r.err == OK && env.eq(k, q) then Some(Pair(k, v)) else Get(env, t, q)
  {
    InsertMeaning(env, t, k, v, strategy, calloc, malloc, q);
    ReverseShort(Matches(env, t, q));
    SelectAgrees(env, t, k, q);
  }

  lemma InsertResult(env: Env, t: Table, k: int, v: int, strategy: Strategy, calloc: bool, malloc: bool)
    requires env.Lawful() && Ok(env, t) && strategy != APPEND
    ensures var r := Insert(env, t, k, v, strategy, calloc, malloc).1;
            r == RefInsert(Get(env, t, k), strategy, !malloc || NoRoom(t, calloc))
  {
    InsertMeaning(env, t, k, v, strategy, calloc, malloc, k);
    FirstIsFirstMatch(env, t, k);
  }

  /** Every key sees the new value if it equals k and the insert went through, and what it saw before if not. */
  ghost predicate Updated(env: Env, t: Table, t': Table, k: int, p: Option<Pair>, done: bool) {
    && Ok(env, t')
    && forall q :: |Matches(env, t', q)| <= 1 && Get(env, t', q) == if done && env.eq(k, q) then p else Get(env, t, q)
  }

  lemma InsertUpdates(env: Env, t: Table, k: int, v: int, strategy: Strategy, calloc: bool, malloc: bool)
    requires env.Lawful() && Ok(env, t) && strategy != APPEND && forall q :: |Matches(env, t, q)| <= 1
    ensures var (t', r) := Insert(env, t, k, v, strategy, calloc, malloc);
            Updated(env, t, t', k, Some(Pair(k, v)), r.err == OK)
  {
    var (t', r) := Insert(env, t, k, v, strategy, calloc, malloc);
    InsertMeaning(env, t, k, v, strategy, calloc, malloc, k);
    forall q
      ensures |Matches(env, t', q)| <= 1
      ensures Get(env, t', q) == if r.err == OK && env.eq(k, q) then Some(Pair(k, v)) else Get(env, t, q)
    {
      InsertAt(env, t, k, v, strategy, calloc, malloc, q);
    }
  }

  lemma UpdatedAgrees(env: Env, t: Table, d: Dict, t': Table, k: int, p: Option<Pair>, done: bool)
    requires Agrees(env, t, d) && Updated(env, t, t', k, p, done)
    ensures Agrees(env, t', if done then Stored(env, d, k, p) else d)
  {
  }

  lemma CapacityIs(env: Env, t: Table)
    requires Ok(env, t)
    ensures |t.chains| == Capacity(t.bits)
  {
  }

  lemma InsertRefines(env: Env, t: Table, d: Ref, k: int, v: int, strategy: Strategy, calloc: bool, malloc: bool)
    requires env.Lawful() && Represents(env, t, d) && strategy != APPEND
    ensures var (t', o) := Step(env, t, DoInsert(k, v, strategy, calloc, malloc));
            var (d', o') := RefStep(env, d, DoInsert(k, v, strategy, calloc, malloc));
            Represents(env, t', d') && o == o'
  {
    var (t', r) := Insert(env, t, k, v, strategy, calloc, malloc);
    assert Get(env, t, k) == d.dict(k);
    CapacityIs(env, t);
    InsertResult(env, t, k, v, strategy, calloc, malloc);
    InsertCounts(env, t, k, v, strategy, calloc, malloc);
    InsertUpdates(env, t, k, v, strategy, calloc, malloc);
    UpdatedAgrees(env, t, d.dict, t', k, Some(Pair(k, v)), r.err == OK);
  }

  lemma DeleteUpdates(env: Env, t: Table, k: int)
    requires env.Lawful() && Ok(env, t) && forall q :: |Matches(env, t, q)| <= 1
    ensures Updated(env, t, Delete(env, t, k).0, k, None, true)
  {
    var t' := Delete(env, t, k).0;
    DeleteMeaning(env, t, k, k);
    forall q
      ensures |Matches(env, t', q)| <= 1 && Get(env, t', q) == if env.eq(k, q) then None else Get(env, t, q)
    {
      DeleteMeaning(env, t, k, q);
      SelectAgrees(env, t, k, q);
    }
  }

  lemma DeleteRefines(env: Env, t: Table, d: Ref, k: int)
    requires env.Lawful() && Represents(env, t, d)
    ensures var (t', o) := Step(env, t, DoDelete(k));
            var (d', o') := RefStep(env, d, DoDelete(k));
            Represents(env, t', d') && o == o'
  {
    var (t', r) := Delete(env, t, k);
    assert Ok(env, t') && r == d.dict(k) && Size(t') == Size(t) - (if r.Some? then 1 else 0) by {
      assert Get(env, t, k) == d.dict(k);
      DeleteMeaning(env, t, k, k);
    }
    assert Agrees(env, t', Stored(env, d.dict, k, None)) by {
      DeleteUpdates(env, t, k);
      UpdatedAgrees(env, t, d.dict, t', k, None, true);
    }
  }

  /** One operation of the hash map is one operation of the finite map. */
  lemma StepRefines(env: Env, t: Table, d: Ref, op: Op)
    requires env.Lawful() && Represents(env, t, d) && (op.DoInsert? ==> op.strategy != APPEND)
    ensures var (t', o) := Step(env, t, op);
            var (d', o') := RefStep(env, d, op);
            Represents(env, t', d') && o == o'
  {
    match op
    case DoInsert(k, v, strategy, calloc, malloc) => InsertRefines(env, t, d, k, v, strategy, calloc, malloc);
    case DoFind(k) =>
      FirstIsFirstMatch(env, t, k);
      assert Get(env, t, k) == d.dict(k);
    case DoDelete(k) => DeleteRefines(env, t, d, k);
    case DoClear =>
  }

  lemma SelectAgrees(env: Env, t: Table, k: int, q: int)
    requires env.Lawful()
    ensures env.eq(k, q) ==> Matches(env, t, q) == Matches(env, t, k)
  {
    if env.eq(k, q) {
      Related(env, k, q);
      SelectSame(env, Flatten(t.chains), k, q);
    }
  }

  ghost function Exec(env: Env, t: Table, ops: seq<Op>): (Table, seq<Outcome>)
    requires env.Lawful() && Ok(env, t)
    decreases |ops|
  {
    if ops == [] then (t, [])
    else
      var (t1, o) := Step(env, t, ops[0]);
      StepOk(env, t, ops[0]);
      var (t2, os) := Exec(env, t1, ops[1..]);
      (t2, [o] + os)
  }

  lemma StepOk(env: Env, t: Table, op: Op)
    requires env.Lawful() && Ok(env, t)
    ensures Ok(env, Step(env, t, op).0)
  {
    match op
    case DoInsert(k, v, strategy, calloc, malloc) => InsertMeaning(env, t, k, v, strategy, calloc, malloc, k);
    case DoDelete(k) => DeleteMeaning(env, t, k, k);
    case _ =>
  }

  function RefExec(env: Env, d: Ref, ops: seq<Op>): (Ref, seq<Outcome>)
    decreases |ops|
  {
    if ops == [] then (d, [])
    else
      var (d1, o) := RefStep(env, d, ops[0]);
      var (d2, os) := RefExec(env, d1, ops[1..]);
      (d2, [o] + os)
  }

  /** Every run without APPEND has the outcomes of a finite map, in every position and down to which inserts run out of
      memory, and ends with a table that represents the finite map at the end. */
  lemma {:induction false} RunsRefine(env: Env, t: Table, d: Ref, ops: seq<Op>)
    requires env.Lawful() && Represents(env, t, d)
    requires forall i :: 0 <= i < |ops| && ops[i].DoInsert? ==> ops[i].strategy != APPEND
    ensures Represents(env, Exec(env, t, ops).0, RefExec(env, d, ops).0)
    ensures Exec(env, t, ops).1 == RefExec(env, d, ops).1
    decreases |ops|
  {
    if ops != [] {
      StepRefines(env, t, d, ops[0]);
      RunsRefine(env, Step(env, t, ops[0]).0, RefStep(env, d, ops[0]).0, ops[1..]);
    }
  }

  lemma FreshMapIsFiniteMap(env: Env, ops: seq<Op>)
    requires env.Lawful()
    requires forall i :: 0 <= i < |ops| && ops[i].DoInsert? ==> ops[i].strategy != APPEND
    ensures Represents(env, Exec(env, EMPTY, ops).0, RefExec(env, NOTHING, ops).0)
    ensures Exec(env, EMPTY, ops).1 == RefExec(env, NOTHING, ops).1
  {
    RunsRefine(env, EMPTY, NOTHING, ops);
  }

  // ---------- Several entries under one key ----------

  lemma {:induction false} ReverseLast<T>(s: seq<T>)
    requires s != []
    ensures Reverse(s) != [] && Reverse(s)[0] == s[|s| - 1]
  {
    if |s| > 1 {
      ReverseLast(s[1..]);
    } else {
      assert Reverse(s) == [] + [s[0]];
    }
  }

  /** After growth a lookup reports the last of the entries that used to match; so growth changes the lookup
      of exactly those keys whose first and last match differ. */
  lemma GrowthLookup(env: Env, t: Table, q: int)
    requires env.Lawful() && Ok(env, t) && GrownBits(t.bits) <= MAX_CAP_BITS
    ensures var m := Matches(env, t, q);
            Get(env, Grown(env, t), q) == Get(env, t, q) <==> m == [] || m[0] == m[|m| - 1]
  {
    GrownMatches(env, t, q);
    if Matches(env, t, q) != [] {
      ReverseLast(Matches(env, t, q));
    }
  }

  /** An append that succeeds is what a lookup of its key reports next; another key's lookup survives it exactly
      when the table did not grow or the key's first and last entries agree. */
  lemma AppendLookup(env: Env, t: Table, k: int, v: int, calloc: bool, q: int)
    requires env.Lawful() && Ok(env, t) && !NoRoom(t, calloc)
    ensures var t' := Insert(env, t, k, v, APPEND, calloc, true).0;
            var m := Matches(env, t, q);
            && (env.eq(k, q) ==> Get(env, t', q) == Some(Pair(k, v)))
            && (!env.eq(k, q) ==>
                  (Get(env, t', q) == Get(env, t, q)
                   <==> !NeedsToGrow(Size(t), |t.chains|) || m == [] || m[0] == m[|m| - 1]))
  {
    InsertMeaning(env, t, k, v, APPEND, calloc, true, q);
    var m := Matches(env, t, q);
    assert [] + m == m && [] + Reverse(m) == Reverse(m);
    if m != [] {
      ReverseLast(m);
    }
  }

  lemma {:induction false} ReverseAppend<T>(s: seq<T>, x: T)
    ensures Reverse(s + [x]) == [x] + Reverse(s)
  {
    if s == [] {
      assert [] + [x] == [x] && [x][1..] == [];
    } else {
      assert (s + [x])[1..] == s[1..] + [x];
      ReverseAppend(s[1..], x);
    }
  }

  lemma {:induction false} ReverseTwice<T>(s: seq<T>)
    ensures Reverse(Reverse(s)) == s
  {
    if s != [] {
      ReverseTwice(s[1..]);
      ReverseAppend(Reverse(s[1..]), s[0]);
    }
  }

  /** The operation neither inserts nor deletes the key. */
  predicate LeavesAlone(env: Env, op: Op, q: int) {
    match op
    case DoInsert(k, _, _, _, _) => !env.eq(k, q)
    case DoFind(_) => true
    case DoDelete(k) => !env.eq(k, q)
    case DoClear => false
  }

  predicate GrowsAt(env: Env, t: Table, op: Op) { op.DoInsert? && Grows(env, t, op.key, op.strategy, op.calloc) }

  /** How often the table grows in a run. */
  ghost function Growths(env: Env, t: Table, ops: seq<Op>): nat
    requires env.Lawful() && Ok(env, t)
    decreases |ops|
  {
    if ops == [] then 0
    else
      StepOk(env, t, ops[0]);
      (if GrowsAt(env, t, ops[0]) then 1 else 0) + Growths(env, Step(env, t, ops[0]).0, ops[1..])
  }

  /** A list, reversed or not. */
  function Flip<T>(s: seq<T>, flip: bool): seq<T> { if flip then Reverse(s) else s }

  lemma FlipTwice<T>(x: seq<T>, y: seq<T>, z: seq<T>, a: bool, b: bool)
    requires y == Flip(x, a) && z == Flip(y, b)
    ensures z == Flip(x, a != b)
  {
    ReverseTwice(x);
  }

  predicate Odd(n: nat) { n % 2 == 1 }

  lemma OddSum(a: nat, b: nat)
    ensures Odd(a + b) == (Odd(a) != Odd(b))
  {
  }

  /** Room is made exactly by growing. */
  lemma SettledIs(env: Env, t: Table, k: int, strategy: Strategy, calloc: bool, q: int)
    requires Due(env, t, k, strategy)
    ensures Settled(env, t, calloc, q) == Flip(Matches(env, t, q), Grows(env, t, k, strategy, calloc))
    ensures NoRoom(t, calloc) ==> !Grows(env, t, k, strategy, calloc)
  {
  }

  /** An insert of another key reverses a key's entries if the table grows, and does nothing else to them. */
  lemma InsertLeavesMatches(env: Env, t: Table, k: int, v: int, strategy: Strategy, calloc: bool, malloc: bool, q: int)
    requires env.Lawful() && Ok(env, t) && !env.eq(k, q)
    ensures Matches(env, Insert(env, t, k, v, strategy, calloc, malloc).0, q) ==
              Flip(Matches(env, t, q), Grows(env, t, k, strategy, calloc))
  {
    InsertMeaning(env, t, k, v, strategy, calloc, malloc, q);
    if Due(env, t, k, strategy) {
      SettledIs(env, t, k, strategy, calloc, q);
      assert [] + Settled(env, t, calloc, q) == Settled(env, t, calloc, q);
    }
  }

  lemma StepLeavesMatches(env: Env, t: Table, op: Op, q: int)
    requires env.Lawful() && Ok(env, t) && LeavesAlone(env, op, q)
    ensures Matches(env, Step(env, t, op).0, q) == Flip(Matches(env, t, q), GrowsAt(env, t, op))
  {
    match op
    case DoInsert(k, v, strategy, calloc, malloc) => InsertLeavesMatches(env, t, k, v, strategy, calloc, malloc, q);
    case DoFind(_) =>
    case DoDelete(k) => DeleteMeaning(env, t, k, q);
  }

  lemma Unroll(env: Env, t: Table, ops: seq<Op>, q: int) returns (t1: Table, grows: bool)
    requires env.Lawful() && Ok(env, t) && ops != [] && LeavesAlone(env, ops[0], q)
    ensures Ok(env, t1) && Matches(env, t1, q) == Flip(Matches(env, t, q), grows)
    ensures Exec(env, t, ops).0 == Exec(env, t1, ops[1..]).0
    ensures Growths(env, t, ops) == (if grows then 1 else 0) + Growths(env, t1, ops[1..])
  {
    t1, grows := Step(env, t, ops[0]).0, GrowsAt(env, t, ops[0]);
    StepOk(env, t, ops[0]);
    StepLeavesMatches(env, t, ops[0], q);
  }

  /** Lists, each of which is the one before, reversed or not. */
  ghost predicate FlipChain(ms: seq<seq<Pair>>, gs: seq<bool>) {
    |ms| == |gs| + 1 && forall i :: 0 <= i < |gs| ==> FlipAt(ms, gs, i)
  }

  predicate FlipAt(ms: seq<seq<Pair>>, gs: seq<bool>, i: nat)
    requires i < |gs| && i + 1 < |ms|
  {
    ms[i + 1] == Flip(ms[i], gs[i])
  }

  function CountTrue(gs: seq<bool>): nat {
    if gs == [] then 0 else (if gs[0] then 1 else 0) + CountTrue(gs[1..])
  }

  lemma FlipChainCons(m: seq<Pair>, g: bool, ms: seq<seq<Pair>>, gs: seq<bool>)
    requires FlipChain(ms, gs) && ms[0] == Flip(m, g)
    ensures FlipChain([m] + ms, [g] + gs) && CountTrue([g] + gs) == (if g then 1 else 0) + CountTrue(gs)
  {
    var ms', gs' := [m] + ms, [g] + gs;
    forall i | 0 <= i < |gs'| ensures FlipAt(ms', gs', i) {
      assert i > 0 ==> FlipAt(ms, gs, i - 1);
    }
    assert gs'[1..] == gs;
  }

  lemma {:induction false} FlipChainEnds(ms: seq<seq<Pair>>, gs: seq<bool>)
    requires FlipChain(ms, gs)
    ensures ms[|ms| - 1] == Flip(ms[0], Odd(CountTrue(gs)))
    decreases |gs|
  {
    if gs != [] {
      assert FlipAt(ms, gs, 0);
      var ms', gs' := ms[1..], gs[1..];
      forall i | 0 <= i < |gs'| ensures FlipAt(ms', gs', i) {
        assert FlipAt(ms, gs, i + 1);
      }
      FlipChainEnds(ms', gs');
      OddSum(if gs[0] then 1 else 0, CountTrue(gs'));
      FlipTwice(ms[0], ms[1], ms[|ms| - 1], gs[0], Odd(CountTrue(gs')));
    }
  }

  /** The entries of a key through a run that leaves it alone. */
  lemma {:induction false} RunChain(env: Env, t: Table, ops: seq<Op>, q: int)
    returns (t': Table, ms: seq<seq<Pair>>, gs: seq<bool>)
    requires env.Lawful() && Ok(env, t) && forall i :: 0 <= i < |ops| ==> LeavesAlone(env, ops[i], q)
    ensures t' == Exec(env, t, ops).0 && CountTrue(gs) == Growths(env, t, ops)
    ensures FlipChain(ms, gs) && ms[0] == Matches(env, t, q) && ms[|ms| - 1] == Matches(env, t', q)
    decreases |ops|
  {
    if ops == [] {
      t', ms, gs := t, [Matches(env, t, q)], [];
    } else {
      var t1, grows := Unroll(env, t, ops, q);
      t', ms, gs := RunChain(env, t1, ops[1..], q);
      FlipChainCons(Matches(env, t, q), grows, ms, gs);
      ms, gs := [Matches(env, t, q)] + ms, [grows] + gs;
    }
  }

  /** A run that leaves a key alone leaves its entries alone, but for their order, which every growth reverses. */
  lemma RunLeavesMatches(env: Env, t: Table, ops: seq<Op>, q: int)
    requires env.Lawful() && Ok(env, t) && forall i :: 0 <= i < |ops| ==> LeavesAlone(env, ops[i], q)
    ensures Matches(env, Exec(env, t, ops).0, q) == Flip(Matches(env, t, q), Odd(Growths(env, t, ops)))
  {
    var t', ms, gs := RunChain(env, t, ops, q);
    FlipChainEnds(ms, gs);
  }

  /** The header promises that a lookup returns the entry inserted last.  After an append, and any operations that leave
      its key alone, it does so if and only if the table has grown an even number of times or the key's first and last
      entries agree. */
  lemma LastAppended(env: Env, t: Table, k: int, v: int, calloc: bool, ops: seq<Op>)
    requires env.Lawful() && Ok(env, t) && !NoRoom(t, calloc)
    requires forall i :: 0 <= i < |ops| ==> LeavesAlone(env, ops[i], k)
    ensures var t1 := Insert(env, t, k, v, APPEND, calloc, true).0;
            Ok(env, t1) && var m := Matches(env, t1, k);
            && m != [] && m[0] == Pair(k, v)
            && (Get(env, Exec(env, t1, ops).0, k) == Some(Pair(k, v))
                <==> !Odd(Growths(env, t1, ops)) || m[|m| - 1] == Pair(k, v))
  {
    InsertMeaning(env, t, k, v, APPEND, calloc, true, k);
    var t1 := Insert(env, t, k, v, APPEND, calloc, true).0;
    RunLeavesMatches(env, t1, ops, k);
    ReverseLast(Matches(env, t1, k));
  }

  /** An append for which memory can be had. */
  ghost function Append(env: Env, t: Table, k: int, v: int): (t': Table)
    requires env.Lawful() && Ok(env, t)
    ensures Ok(env, t')
  {
    InsertMeaning(env, t, k, v, APPEND, true, true, k);
    Insert(env, t, k, v, APPEND, true, true).0
  }

  /** An append with room to spare. */
  lemma AppendNoGrowth(env: Env, t: Table, k: int, v: int, q: int)
    requires env.Lawful() && Ok(env, t) && !NeedsToGrow(Size(t), |t.chains|)
    ensures var t' := Append(env, t, k, v);
            && |t'.chains| == |t.chains| && Size(t') == Size(t) + 1
            && Matches(env, t', q) == (if env.eq(k, q) then [Pair(k, v)] else []) + Matches(env, t, q)
  {
    RoomyOk(env, t, true);
    PushOk(env, t, Pair(k, v));
    PushMatches(env, t, Pair(k, v), q);
  }

  lemma FirstAppend(env: Env, k: int, v: int)
    requires env.Lawful()
    ensures var t' := Append(env, EMPTY, k, v);
            |t'.chains| == 4 && Size(t') == 1 && Matches(env, t', k) == [Pair(k, v)]
  {
    InsertMeaning(env, EMPTY, k, v, APPEND, true, true, k);
    GrownOk(env, EMPTY);
    PushOk(env, Grown(env, EMPTY), Pair(k, v));
    assert Pow2(2) == 4;
  }

  /** The header promises that a lookup returns the entry inserted last.  It need not: append two entries under
      a, then one each under b and c, and the fourth append grows the table; a now reports its oldest entry. */
  lemma LookupMayReportOldest(env: Env, a: int, b: int, c: int)
    requires env.Lawful() && !env.eq(b, a) && !env.eq(c, a)
    ensures var t2 := Append(env, Append(env, EMPTY, a, 1), a, 2);
            var t4 := Append(env, Append(env, t2, b, 3), c, 4);
            Get(env, t2, a) == Some(Pair(a, 2)) && Get(env, t4, a) == Some(Pair(a, 1))
  {
    var t1 := Append(env, EMPTY, a, 1);
    FirstAppend(env, a, 1);
    var t2 := Append(env, t1, a, 2);
    AppendNoGrowth(env, t1, a, 2, a);
    var t3 := Append(env, t2, b, 3);
    AppendNoGrowth(env, t2, b, 3, a);
    assert Matches(env, t3, a) == [Pair(a, 2), Pair(a, 1)];
    FourthAppend(env, t3, c, 4, a);
  }

  lemma FourthAppend(env: Env, t: Table, k: int, v: int, q: int)
    requires env.Lawful() && Ok(env, t) && Size(t) == 3 && |t.chains| == 4 && !env.eq(k, q) && Matches(env, t, q) != []
    ensures Get(env, Append(env, t, k, v), q) == Some(Matches(env, t, q)[|Matches(env, t, q)| - 1])
  {
    Pow2Exceeds(t.bits);
    InsertMeaning(env, t, k, v, APPEND, true, true, q);
    ReverseLast(Matches(env, t, q));
  }
}
