/**
 The chained hash map itself: buckets of linked entries, updated in place.  `table` is its abstract value
 (see HashTable) and every method says what it does to it.
 */
module HashMap {
  import opened Wrappers
  import opened Hashing
  import opened HashTable
  import opened Buckets
  import opened HashMapSpec

  class HashMap {
    const env: Env
    var buckets: array?<Entry?>
    var cap: nat
    var capBits: nat
    var sz: nat

    ghost var chains: seq<seq<Entry>>
    ghost var table: Table
    ghost var entries: set<Entry>
    ghost var Repr: set<object>

    /** The buckets hold chains of entries that spell out `table`. */
    ghost predicate Shape()
      reads this, Repr
    {
      && this in Repr && entries <= Repr
      && if buckets == null then cap == 0 && table.chains == [] && chains == []
         else buckets in Repr && cap == buckets.Length > 0 && AllLinked(buckets, chains, table.chains, entries)
    }

    ghost predicate Valid()
      reads this, Repr
      ensures Valid() ==> this in Repr
    {
      Shape() && Ok(env, table) && capBits == table.bits && sz == Size(table)
    }

    constructor (env: Env)
      ensures Valid() && fresh(Repr) && this.env == env && table == EMPTY
    {
      this.env := env;
      buckets, cap, capBits, sz := null, 0, 0, 0;
      chains, table, entries, Repr := [], EMPTY, {}, {this};
    }

    method Clear()
      requires Valid()
      modifies Repr
      ensures Valid() && fresh(Repr - old(Repr)) && table == EMPTY
    {
      buckets, cap, capBits, sz := null, 0, 0, 0;
      chains, table, entries := [], EMPTY, {};
    }

    method Count() returns (n: nat)
      requires Valid()
      ensures n == |Flatten(table.chains)|
    {
      SizeIsLength(table);
      n := sz;
    }

    /** `hashmap_find_entry`: the first entry of the bucket with an equal key, and the entry before it (null if
        the bucket itself points to it). */
    method FindEntry(key: int, hash: nat) returns (found: bool, prev: Entry?, entry: Entry?)
      requires Valid()
      requires hash == SlotOf(env, capBits)(key)
      ensures found <==> First(env, Bucket(env, table, key), key) < |Bucket(env, table, key)|
      ensures found ==> && buckets != null && hash < cap && table.chains[hash] == Bucket(env, table, key)
                        && var j := First(env, Bucket(env, table, key), key);
                           && j < |chains[hash]| && entry == chains[hash][j]
                           && prev == (if j == 0 then null else chains[hash][j - 1])
                           && Pair(entry.key, entry.value) == Bucket(env, table, key)[j]
    {
      if buckets == null {
        return false, null, null;
      }
      assert Linked(buckets[hash], chains[hash], table.chains[hash], hash);
      prev, entry := SearchChain(env, buckets[hash], key, chains[hash], table.chains[hash], hash);
      found := entry != null;
    }

    method Find(key: int) returns (found: bool, value: int)
      requires Valid() && env.Lawful()
      ensures var m := Matches(env, table, key);
              found == (m != []) && (found ==> value == m[0].value)
    {
      var h := HashOf(env, key, capBits);
      var prev, entry;
      found, prev, entry := FindEntry(key, h);
      FirstIsFirstMatch(env, table, key);
      value := 0;
      if found {
        value := entry.value;
      }
    }

    // ---------- Changing the shape: links and abstract table together ----------

    method AddFront(key: int, value: int, h: nat, ghost t: Table)
      requires Shape() && h < |table.chains| && t == Table(table.bits, PushFront(table.chains, h, Pair(key, value)))
      modifies buckets, this`table, this`chains, this`entries, this`Repr
      ensures Shape() && fresh(Repr - old(Repr)) && table == t
    {
      var entry := new Entry(key, value);
      AddEntry(entry, buckets, h, chains, table.chains, entries + {entry});
      table := t;
      chains := chains[h := [entry] + chains[h]];
      entries, Repr := entries + {entry}, Repr + {entry};
    }

    method Overwrite(entry: Entry, key: int, value: int, ghost h: nat, ghost j: nat, ghost t: Table)
      requires Shape() && h < cap && j < |chains[h]| && entry == chains[h][j] && j < |table.chains[h]|
      requires t == Table(table.bits, table.chains[h := table.chains[h][j := Pair(key, value)]])
      modifies entry, this`table
      ensures Shape() && table == t
    {
      SetEntry(entry, key, value, buckets, h, j, chains, table.chains, entries);
      table := t;
    }

    method Unlink(prev: Entry?, entry: Entry, h: nat, ghost j: nat, ghost t: Table)
      requires Shape() && h < cap && j < |chains[h]| && entry == chains[h][j] && j < |table.chains[h]|
      requires t == Table(table.bits, table.chains[h := table.chains[h][..j] + table.chains[h][j + 1..]])
      requires prev == if j == 0 then null else chains[h][j - 1]
      modifies buckets, chains[h], this`table, this`chains
      ensures Shape() && table == t
    {
      DelEntry(prev, entry, buckets, h, j, chains, table.chains, entries);
      table := t;
      chains := chains[h := chains[h][..j] + chains[h][j + 1..]];
    }

    /** A new bucket array with all the entries moved over. */
    method MoveEntries(bits: nat) returns (a: array<Entry?>, ghost cs: seq<seq<Entry>>)
      requires Shape() && bits <= 64
      modifies entries
      ensures fresh(a) && a.Length == Pow2(bits)
      ensures AllLinked(a, cs, Distribute(SlotOf(env, bits), Flatten(table.chains), Pow2(bits)), entries)
    {
      a := new Entry?[Pow2(bits)](_ => null);
      if buckets == null {
        EmptyLinked(a, entries);
        cs := NoChains(Pow2(bits));
      } else {
        cs := MoveAll(env, buckets, a, bits, chains, table.chains, entries);
      }
    }

    /** The new bucket array takes over. */
    method Rehash(bits: nat)
      requires Shape() && bits <= 64
      modifies Repr
      ensures Shape() && fresh(Repr - old(Repr)) && capBits == bits && sz == old(sz)
      ensures table == Table(bits, Distribute(SlotOf(env, bits), Flatten(old(table).chains), Pow2(bits)))
    {
      var a;
      ghost var cs;
      ghost var moved := Distribute(SlotOf(env, bits), Flatten(table.chains), Pow2(bits));
      a, cs := MoveEntries(bits);
      Install(a, bits, cs, moved);
    }

    method Install(a: array<Entry?>, bits: nat, ghost cs: seq<seq<Entry>>, ghost ps: Chains)
      requires this in Repr && entries <= Repr && a.Length > 0 && AllLinked(a, cs, ps, entries)
      modifies this
      ensures Shape() && Repr == old(Repr) + {a} && capBits == bits && sz == old(sz) && table == Table(bits, ps)
    {
      cap, capBits, buckets := a.Length, bits, a;
      chains, table, Repr := cs, Table(bits, ps), Repr + {a};
    }

    // ---------- The operations ----------

    method Delete(key: int) returns (deleted: bool, oldKey: int, oldValue: int)
      requires Valid()
      modifies Repr
      ensures Valid() && Repr == old(Repr)
      ensures var (t, removed) := HashMapSpec.Delete(env, old(table), key);
              && table == t && deleted == removed.Some?
              && (deleted ==> Pair(oldKey, oldValue) == removed.value)
    {
      var h := HashOf(env, key, capBits);
      var prev, entry;
      ghost var j := First(env, Bucket(env, table, key), key);
      deleted, prev, entry := FindEntry(key, h);
      oldKey, oldValue := 0, 0;
      if deleted {
        oldKey := entry.key;
        oldValue := entry.value;
        DropFound(prev, entry, h, j, key);
      }
    }

    method DropFound(prev: Entry?, entry: Entry, h: nat, ghost j: nat, ghost key: int)
      requires Valid() && h < cap && h == SlotOf(env, capBits)(key) && j < |chains[h]| && entry == chains[h][j]
      requires prev == if j == 0 then null else chains[h][j - 1]
      requires j == First(env, table.chains[h], key) < |table.chains[h]|
      modifies Repr
      ensures Valid() && Repr == old(Repr)
      ensures table == Remove(env, old(table), key)
    {
      ghost var t := Remove(env, table, key);
      assert Ok(env, t) && Size(t) == Size(table) - 1 by {
        RemoveOk(env, table, key);
      }
      Unlink(prev, entry, h, j, t);
      sz := sz - 1;
    }

    /** Moves to a bucket array of the next size. */
    method Regrow(bits: nat)
      requires Valid() && bits == GrownBits(capBits) <= MAX_CAP_BITS
      modifies Repr
      ensures Valid() && fresh(Repr - old(Repr)) && table == Grown(env, old(table))
    {
      ghost var t := Grown(env, table);
      GrownOk(env, table);
      Rehash(bits);
      assert table == t;
    }

    /** `hashmap_grow`. */
    method GrowBuckets(calloc: bool) returns (err: Error)
      requires Valid()
      modifies Repr
      ensures Valid() && fresh(Repr - old(Repr))
      ensures CanGrow(old(table), calloc) ==> err == OK && table == Grown(env, old(table))
      ensures !CanGrow(old(table), calloc) ==> err == ENOMEM && table == old(table)
    {
      var newCapBits := capBits + 1;
      if newCapBits < MIN_CAP_BITS {
        newCapBits := MIN_CAP_BITS;
      }
      if !calloc || newCapBits > MAX_CAP_BITS {
        return ENOMEM;
      }
      Regrow(newCapBits);
      err := OK;
    }

    /** `hashmap_insert`. */
    method Insert(key: int, value: int, strategy: Strategy, calloc: bool, malloc: bool) returns (r: Inserted)
      requires Valid() && env.Lawful()
      modifies Repr
      ensures Valid() && fresh(Repr - old(Repr))
      ensures (table, r) == HashMapSpec.Insert(env, old(table), key, value, strategy, calloc, malloc)
    {
      if strategy != APPEND {
        var found, oldKey, oldValue := InsertFound(key, value, strategy);
        if found || strategy == UPDATE {
          InsertFoundIs(env, old(table), key, value, strategy, calloc, malloc, table, found, oldKey, oldValue);
          return Inserted(if !found then ENOENT else if strategy == ADD then EEXIST else OK, oldKey, oldValue);
        }
      }
      r := InsertNew(key, value, calloc, malloc);
      InsertNewIs(env, old(table), key, value, strategy, calloc, malloc, table, r);
    }

    /** The part of an insert that looks for the key and, unless told to add, overwrites its entry. */
    method InsertFound(key: int, value: int, strategy: Strategy) returns (found: bool, oldKey: int, oldValue: int)
      requires Valid() && env.Lawful() && strategy != APPEND
      modifies Repr
      ensures Valid() && Repr == old(Repr)
      ensures AfterFound(env, old(table), key, value, strategy, table, found, oldKey, oldValue)
    {
      var h := HashOf(env, key, capBits);
      oldKey, oldValue := 0, 0;
      var prev, entry;
      ghost var j := First(env, Bucket(env, table, key), key);
      found, prev, entry := FindEntry(key, h);
      if found {
        oldKey, oldValue := entry.key, entry.value;
        if strategy == SET || strategy == UPDATE {
          SetFound(entry, key, value, h, j);
        }
      }
    }

    method SetFound(entry: Entry, key: int, value: int, ghost h: nat, ghost j: nat)
      requires Valid() && h < cap && h == SlotOf(env, capBits)(key) && j < |chains[h]| && entry == chains[h][j]
      requires env.Lawful() && j == First(env, table.chains[h], key) < |table.chains[h]|
      modifies Repr
      ensures Valid() && Repr == old(Repr)
      ensures table == Replace(env, old(table), key, Pair(key, value))
    {
      ghost var t := Replace(env, table, key, Pair(key, value));
      ReplaceOk(env, table, key, Pair(key, value));
      Overwrite(entry, key, value, h, j, t);
    }

    /** The part of an insert that makes room and adds an entry. */
    method InsertNew(key: int, value: int, calloc: bool, malloc: bool) returns (r: Inserted)
      requires Valid()
      modifies Repr
      ensures Valid() && fresh(Repr - old(Repr))
      ensures AfterNew(env, old(table), key, value, calloc, malloc, table, r)
    {
      RoomFor(env, table, calloc);
      var err := OK;
      if NeedsToGrow(sz, cap) {
        err := GrowBuckets(calloc);
      }
      if err == OK && malloc {
        var h := HashOf(env, key, capBits);
        AddNew(key, value, h);
      }
      r := Inserted(if err == OK && !malloc then ENOMEM else err, 0, 0);
    }

    method AddNew(key: int, value: int, h: nat)
      requires Valid() && table.bits > 0 && 4 * (sz + 1) <= 3 * cap && h == SlotOf(env, capBits)(key) < cap
      modifies Repr
      ensures Valid() && fresh(Repr - old(Repr))
      ensures table == Push(env, old(table), Pair(key, value))
    {
      ghost var t := Push(env, table, Pair(key, value));
      assert Ok(env, t) && Size(t) == Size(table) + 1 by {
        PushOk(env, table, Pair(key, value));
      }
      AddFront(key, value, h, t);
      sz := sz + 1;
    }
  }
}
