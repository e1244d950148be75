/**
 What the chained hash map holds and what each operation does to it, as values: a table is a sequence of
 bucket chains.  `Matches` is the reference view, independent of hashing: the entries whose key equals a
 given key, in iteration order.
 */
module HashTable {
  import opened Hashing

  datatype Pair = Pair(key: int, value: int)

  /** The client's hash and equality functions. */
  datatype Env = Env(hash: int -> nat, eq: (int, int) -> bool) {
    /** What the map needs of them: an equivalence, and equal keys hash equally. */
    ghost predicate Lawful() {
      && (forall k :: eq(k, k))
      && (forall j, k :: eq(j, k) ==> eq(k, j))
      && (forall i, j, k :: eq(i, j) && eq(j, k) ==> eq(i, k))
      && (forall j, k :: eq(j, k) ==> hash(j) == hash(k))
    }
  }

  // ---------- Buckets ----------

  const MIN_CAP_BITS: nat := 2
  /** From 61 bits on, the size of the bucket array in bytes overflows and calloc fails. */
  const MAX_CAP_BITS: nat := 60

  /** Which bucket a key belongs to, under a given number of bits. */
  type Slot = int -> nat

  function SlotOf(env: Env, bits: nat): (slot: Slot)
    requires bits <= 64
    ensures Fits(slot, Pow2(bits))
  {
    var slot := (k: int) => HashBits(env.hash(k), bits);
    assert Fits(slot, Pow2(bits)) by {
      forall k ensures slot(k) < Pow2(bits) {
        HashBitsInRange(env.hash(k), bits);
      }
    }
    slot
  }

  /** The bucket of a key. */
  method HashOf(env: Env, key: int, bits: nat) returns (h: nat)
    requires bits <= 64
    ensures h == SlotOf(env, bits)(key) && h < Pow2(bits)
  {
    h := HashBits(env.hash(key), bits);
    HashBitsInRange(env.hash(key), bits);
  }

  lemma SlotRespects(env: Env, bits: nat)
    requires env.Lawful() && bits <= 64
    ensures Respects(SlotOf(env, bits), env)
  {
  }

  ghost predicate Fits(slot: Slot, n: nat) { forall k :: slot(k) < n }

  ghost predicate Respects(slot: Slot, env: Env) { forall j, k :: env.eq(j, k) ==> slot(j) == slot(k) }

  type Chains = seq<seq<Pair>>

  datatype Table = Table(bits: nat, chains: Chains)

  const EMPTY := Table(0, [])

  ghost predicate Hashed(slot: Slot, chains: Chains) {
    forall b, j :: 0 <= b < |chains| && 0 <= j < |chains[b]| ==> slot(chains[b][j].key) == b
  }

  function Flatten(chains: Chains): seq<Pair> {
    if chains == [] then [] else Flatten(chains[..|chains| - 1]) + chains[|chains| - 1]
  }

  /** The number of entries in the first n chains. */
  function CountTo(chains: Chains, n: nat): nat
    requires n <= |chains|
  {
    if n == 0 then 0 else CountTo(chains, n - 1) + |chains[n - 1]|
  }

  function Size(t: Table): nat { CountTo(t.chains, |t.chains|) }

  lemma {:induction false} CountIsLength(chains: Chains, n: nat)
    requires n <= |chains|
    ensures CountTo(chains, n) == |Flatten(chains[..n])|
  {
    if n > 0 {
      CountIsLength(chains, n - 1);
      assert chains[..n][..n - 1] == chains[..n - 1];
    }
  }

  /** The size is the number of entries. */
  lemma SizeIsLength(t: Table)
    ensures Size(t) == |Flatten(t.chains)|
  {
    CountIsLength(t.chains, |t.chains|);
    assert t.chains[..|t.chains|] == t.chains;
  }

  /** The table's invariant: entries sit in the bucket of their hash, and it is at most 75% full. */
  ghost predicate Ok(env: Env, t: Table) {
    if t.bits == 0 then t.chains == []
    else
      && MIN_CAP_BITS <= t.bits <= MAX_CAP_BITS
      && |t.chains| == Pow2(t.bits)
      && Hashed(SlotOf(env, t.bits), t.chains)
      && 4 * Size(t) <= 3 * |t.chains|
  }

  // ---------- The reference view ----------

  /** The entries of s whose key equals k, in order. */
  function Select(env: Env, s: seq<Pair>, k: int): seq<Pair> {
    if s == [] then []
    else if env.eq(s[0].key, k) then [s[0]] + Select(env, s[1..], k)
    else Select(env, s[1..], k)
  }

  function Matches(env: Env, t: Table, k: int): seq<Pair> {
    Select(env, Flatten(t.chains), k)
  }

  /** As `hashmap__for_each_key_entry` reaches them: only the bucket of k is looked at. */
  function Bucket(env: Env, t: Table, k: int): seq<Pair>
    requires t.bits <= 64 && (t.chains == [] || |t.chains| == Pow2(t.bits))
  {
    if t.chains == [] then [] else t.chains[SlotOf(env, t.bits)(k)]
  }

  ghost predicate UniqueKeys(env: Env, t: Table) {
    forall k :: |Matches(env, t, k)| <= 1
  }

  function Reverse<T>(s: seq<T>): seq<T> {
    if s == [] then [] else Reverse(s[1..]) + [s[0]]
  }

  lemma {:induction false} SelectConcat(env: Env, a: seq<Pair>, b: seq<Pair>, k: int)
    ensures Select(env, a + b, k) == Select(env, a, k) + Select(env, b, k)
  {
    if a == [] {
      assert a + b == b;
    } else {
      assert (a + b)[1..] == a[1..] + b;
      SelectConcat(env, a[1..], b, k);
    }
  }

  lemma {:induction false} SelectNone(env: Env, s: seq<Pair>, k: int)
    requires forall j :: 0 <= j < |s| ==> !env.eq(s[j].key, k)
    ensures Select(env, s, k) == []
  {
    if s != [] {
      SelectNone(env, s[1..], k);
    }
  }

  lemma {:induction false} FlattenAt(chains: Chains, b: nat)
    requires b < |chains|
    ensures Flatten(chains) == Flatten(chains[..b]) + chains[b] + Flatten(chains[b + 1..])
    decreases |chains|
  {
    var n := |chains| - 1;
    if b < n {
      var short, post := chains[..n], chains[b + 1..];
      FlattenAt(short, b);
      assert short[..b] == chains[..b] && short[b + 1..] == post[..|post| - 1];
    }
  }

  /** Replacing one chain changes the flattened table in one place. */
  lemma FlattenUpdate(chains: Chains, b: nat, c: seq<Pair>)
    requires b < |chains|
    ensures Flatten(chains) == Flatten(chains[..b]) + chains[b] + Flatten(chains[b + 1..])
    ensures Flatten(chains[b := c]) == Flatten(chains[..b]) + c + Flatten(chains[b + 1..])
  {
    var updated := chains[b := c];
    FlattenAt(chains, b);
    FlattenAt(updated, b);
    assert updated[..b] == chains[..b] && updated[b + 1..] == chains[b + 1..];
  }

  lemma SelectElsewhere(env: Env, slot: Slot, chain: seq<Pair>, b: nat, k: int)
    requires Respects(slot, env) && slot(k) != b && forall j :: 0 <= j < |chain| ==> slot(chain[j].key) == b
    ensures Select(env, chain, k) == []
  {
  }

  /** Only the bucket of k can hold keys equal to k. */
  lemma {:induction false} SelectPrefix(env: Env, slot: Slot, chains: Chains, k: int, n: nat)
    requires Respects(slot, env) && Hashed(slot, chains) && n <= |chains|
    ensures Select(env, Flatten(chains[..n]), k) == if slot(k) < n then Select(env, chains[slot(k)], k) else []
  {
    if n > 0 {
      SelectPrefix(env, slot, chains, k, n - 1);
      assert chains[..n][..n - 1] == chains[..n - 1];
      SelectConcat(env, Flatten(chains[..n - 1]), chains[n - 1], k);
      if slot(k) != n - 1 {
        SelectElsewhere(env, slot, chains[n - 1], n - 1, k);
      }
    }
  }

  lemma SelectAll(env: Env, slot: Slot, chains: Chains, k: int)
    requires Respects(slot, env) && Hashed(slot, chains) && slot(k) < |chains|
    ensures Select(env, Flatten(chains), k) == Select(env, chains[slot(k)], k)
  {
    SelectPrefix(env, slot, chains, k, |chains|);
    assert chains[..|chains|] == chains;
  }

  /** Hashing loses nothing: searching one bucket finds what searching the whole table would. */
  lemma BucketHasAllMatches(env: Env, t: Table, k: int)
    requires env.Lawful() && Ok(env, t)
    ensures Select(env, Bucket(env, t, k), k) == Matches(env, t, k)
  {
    if t.chains != [] {
      SlotRespects(env, t.bits);
      SelectAll(env, SlotOf(env, t.bits), t.chains, k);
    }
  }

  // ---------- Operations ----------

  datatype Strategy = ADD | SET | UPDATE | APPEND

  datatype Error = OK | EEXIST | ENOENT | ENOMEM

  /** An insert's result: the error code and what it stores through `old_key` and `old_value`. */
  datatype Inserted = Inserted(err: Error, oldKey: int, oldValue: int)

  /** The position of the first entry of a chain whose key equals k; the chain's length if there is none. */
  function First(env: Env, chain: seq<Pair>, k: int): (j: nat)
    ensures j <= |chain|
  {
    if chain == [] || env.eq(chain[0].key, k) then 0 else 1 + First(env, chain[1..], k)
  }

  lemma {:induction false} FirstSelects(env: Env, chain: seq<Pair>, k: int)
    ensures var j := First(env, chain, k);
            && (forall i :: 0 <= i < j ==> !env.eq(chain[i].key, k))
            && (j == |chain| ==> Select(env, chain, k) == [])
            && (j < |chain| ==> && env.eq(chain[j].key, k)
                                && Select(env, chain, k) == [chain[j]] + Select(env, chain[j + 1..], k)
                                && Select(env, chain[..j], k) == [])
  {
    if chain != [] && !env.eq(chain[0].key, k) {
      FirstSelects(env, chain[1..], k);
      var j := First(env, chain[1..], k);
      forall i | 0 <= i < j + 1 ensures !env.eq(chain[i].key, k) {
        assert i == 0 || chain[i] == chain[1..][i - 1];
      }
      if j < |chain[1..]| {
        assert chain[1..][j + 1..] == chain[j + 2..];
        assert chain[..j + 1][1..] == chain[1..][..j];
      }
    }
  }

  function PushFront(chains: Chains, b: nat, p: Pair): Chains
    requires b < |chains|
  {
    chains[b := [p] + chains[b]]
  }

  /** Grow when empty or when one more entry would fill more than three quarters, with truncating division. */
  predicate NeedsToGrow(size: nat, cap: nat) {
    cap == 0 || (size + 1) * 4 / 3 > cap
  }

  function GrownBits(bits: nat): nat {
    if bits + 1 < MIN_CAP_BITS then MIN_CAP_BITS else bits + 1
  }

  function NoEntries(n: nat): (chains: Chains)
    ensures |chains| == n && forall b :: 0 <= b < n ==> chains[b] == []
  {
    seq(n, _ => [])
  }

  /** Moving the entries, in iteration order, each to the front of its new bucket. */
  ghost function Distribute(slot: Slot, es: seq<Pair>, n: nat): (chains: Chains)
    requires Fits(slot, n)
    ensures |chains| == n
  {
    if es == [] then NoEntries(n)
    else PushFront(Distribute(slot, es[..|es| - 1], n), slot(es[|es| - 1].key), es[|es| - 1])
  }

  /** Growth fails when the new bucket array cannot be had. */
  predicate CanGrow(t: Table, calloc: bool) { calloc && GrownBits(t.bits) <= MAX_CAP_BITS }

  ghost function Grown(env: Env, t: Table): Table
    requires GrownBits(t.bits) <= MAX_CAP_BITS
  {
    var bits := GrownBits(t.bits);
    Table(bits, Distribute(SlotOf(env, bits), Flatten(t.chains), Pow2(bits)))
  }

  // ---------- Pushing and growing, seen through Matches ----------

  lemma PushFrontHashed(slot: Slot, chains: Chains, p: Pair)
    requires Hashed(slot, chains) && slot(p.key) < |chains|
    ensures Hashed(slot, PushFront(chains, slot(p.key), p))
  {
  }

  lemma PushFrontContents(chains: Chains, b: nat, p: Pair)
    requires b < |chains|
    ensures multiset(Flatten(PushFront(chains, b, p))) == multiset{p} + multiset(Flatten(chains))
    ensures |Flatten(PushFront(chains, b, p))| == |Flatten(chains)| + 1
  {
    FlattenUpdate(chains, b, [p] + chains[b]);
  }

  /** A pushed entry comes first among the entries with its key, and no other key notices. */
  lemma PushFrontMatches(env: Env, slot: Slot, chains: Chains, p: Pair, k: int)
    requires Respects(slot, env) && Hashed(slot, chains) && Fits(slot, |chains|)
    ensures Select(env, Flatten(PushFront(chains, slot(p.key), p)), k)
         == (if env.eq(p.key, k) then [p] else []) + Select(env, Flatten(chains), k)
  {
    var pushed := PushFront(chains, slot(p.key), p);
    PushFrontHashed(slot, chains, p);
    SelectAll(env, slot, chains, k);
    SelectAll(env, slot, pushed, k);
    assert ([p] + chains[slot(p.key)])[1..] == chains[slot(p.key)];
  }

  /** Growth re-buckets every entry and keeps exactly the same multiset of entries. */
  lemma {:induction false} DistributeKeeps(slot: Slot, es: seq<Pair>, n: nat)
    requires Fits(slot, n)
    ensures Hashed(slot, Distribute(slot, es, n))
    ensures multiset(Flatten(Distribute(slot, es, n))) == multiset(es)
  {
    if es == [] {
      FlattenEmpty(NoEntries(n));
    } else {
      var pre, e := es[..|es| - 1], es[|es| - 1];
      DistributeKeeps(slot, pre, n);
      OneMoreKept(slot, pre, e, Distribute(slot, pre, n));
      assert es == pre + [e];
    }
  }

  lemma OneMoreKept(slot: Slot, es: seq<Pair>, e: Pair, chains: Chains)
    requires slot(e.key) < |chains| && Hashed(slot, chains) && multiset(Flatten(chains)) == multiset(es)
    ensures var more := PushFront(chains, slot(e.key), e);
            Hashed(slot, more) && multiset(Flatten(more)) == multiset(es + [e])
  {
    PushFrontHashed(slot, chains, e);
    PushFrontContents(chains, slot(e.key), e);
  }

  lemma SelectSnoc(env: Env, es: seq<Pair>, k: int)
    requires es != []
    ensures var pre, e := es[..|es| - 1], es[|es| - 1];
            Select(env, es, k) == Select(env, pre, k) + (if env.eq(e.key, k) then [e] else [])
  {
    var pre, e := es[..|es| - 1], es[|es| - 1];
    assert es == pre + [e] && [e][1..] == [];
    SelectConcat(env, pre, [e], k);
  }

  /** Growth reverses the order of the entries with equal keys. */
  lemma {:induction false} DistributeReverses(env: Env, slot: Slot, es: seq<Pair>, n: nat, k: int)
    requires Respects(slot, env) && Fits(slot, n)
    ensures Select(env, Flatten(Distribute(slot, es, n)), k) == Reverse(Select(env, es, k))
  {
    if es == [] {
      FlattenEmpty(NoEntries(n));
    } else {
      var pre, e := es[..|es| - 1], es[|es| - 1];
      DistributeReverses(env, slot, pre, n, k);
      DistributeKeeps(slot, pre, n);
      PushFrontMatches(env, slot, Distribute(slot, pre, n), e, k);
      SelectSnoc(env, es, k);
      var found := Select(env, pre, k);
      if env.eq(e.key, k) {
        ReverseSnoc(found, e);
      } else {
        assert found + [] == found && [] + Reverse(found) == Reverse(found);
      }
    }
  }

  lemma {:induction false} FlattenEmpty(chains: Chains)
    requires forall b :: 0 <= b < |chains| ==> chains[b] == []
    ensures Flatten(chains) == []
  {
    if chains != [] {
      FlattenEmpty(chains[..|chains| - 1]);
    }
  }

  lemma {:induction false} ReverseSnoc<T>(s: seq<T>, x: T)
    ensures Reverse(s + [x]) == [x] + Reverse(s)
  {
    if s == [] {
      assert [] + [x] == [x];
    } else {
      assert (s + [x])[1..] == s[1..] + [x];
      ReverseSnoc(s[1..], x);
    }
  }
}
