/**
 * The table object of src/core/hash_table.c over the probing model of the
 * module Probing.
 */
module HashTable {
  import opened Common
  import opened Probing

  /** clamp_capacity: the least power of two at or above `cap`. */
  method ClampCapacity(cap: nat) returns (n: nat)
    ensures IsLeastPow2AtLeast(n, cap)
  {
    n := 1;
    while n < cap
      invariant IsPow2(n) && (n == 1 || n / 2 < cap)
      decreases cap - n
    {
      DoublePow2(n);
      n := n * 2;
    }
    LeastPow2Step(n, cap);
  }

  class HashTable {
    const hash: uint64 -> uint64
    var buckets: array<Bucket>
    var capacity: nat
    var size: nat
    ghost var Contents: map<uint64, uint64>
    ghost var Dist: map<uint64, nat>

    /** The power-of-two capacity, the load bound kept by put and the probe invariant. */
    ghost predicate Valid()
      reads this, buckets
    {
      && buckets.Length == capacity
      && IsPow2(capacity)
      && size == CountUsed(buckets[..])
      && size * 10 < capacity * 7
      && TableInv(buckets[..], hash, Contents, Dist)
    }

    /** The bucket index that holds `key`. */
    ghost function Where(key: uint64): (i: nat)
      reads this, buckets
      requires Valid() && key in Contents
      ensures i < capacity
    {
      At(capacity, hash, key, Dist[key])
    }

    /** hash_table_init; the `calloc` failure path is not modelled. */
    constructor Init(requested: nat, hash: uint64 -> uint64)
      ensures Valid() && fresh(buckets)
      ensures this.hash == hash
      ensures IsLeastPow2AtLeast(capacity, if requested == 0 then 8 else requested)
      ensures Contents == map[] && size == 0
      ensures forall i :: 0 <= i < capacity ==> buckets[i] == Empty
    {
      this.hash := hash;
      var c := ClampCapacity(if requested == 0 then 8 else requested);
      capacity := c;
      size := 0;
      buckets := new Bucket[c](_ => Empty);
      Contents := map[];
      Dist := map[];
      new;
      CountUsedNone(buckets[..]);
    }

    /**
     * The probe loop that hash_table_get and hash_table_delete share: walk from
     * the home bucket until an EMPTY bucket (absent) or the key (found). The
     * walk is bounded by the capacity; see SaturatedProbeNeverStops for the
     * unbounded loop of the source.
     */
    method Find(key: uint64) returns (found: bool, idx: nat)
      requires Valid()
      ensures found <==> key in Contents
      ensures found ==> idx == Where(key)
    {
      idx := Home(hash, capacity, key);
      var j := 0;
      while j < capacity
        invariant 0 <= j <= capacity
        invariant j < capacity ==> idx == At(capacity, hash, key, j)
        invariant key in Dist ==> j <= Dist[key]
        decreases capacity - j
      {
        var b := buckets[idx];
        if b.Empty? {
          return false, idx;
        }
        if b.Used? && b.key == key {
          return true, idx;
        }
        idx := if idx + 1 == capacity then 0 else idx + 1;
        j := j + 1;
      }
      return false, idx;
    }

    /** hash_table_get: lookup; `outValue` is only written when the key is found. */
    method Get(key: uint64, outValue: uint64) returns (rc: int, outValue': uint64)
      requires Valid()
      ensures rc == 0 || rc == -1
      ensures rc == 0 <==> key in Contents
      ensures rc == 0 ==> outValue' == Contents[key]
      ensures rc == -1 ==> outValue' == outValue
    {
      var found, idx := Find(key);
      if !found {
        return -1, outValue;
      }
      return 0, buckets[idx].value;
    }

    /**
     * The probe loop of hash_table_put: walk from the home bucket, remember the
     * first tombstone, and stop at the key or at an EMPTY bucket. The bucket
     * chosen for a new key (that tombstone, or else the EMPTY bucket) is the
     * first bucket on the key's probe path that is not USED.
     */
    method FindSlot(key: uint64) returns (found: bool, idx: nat, ghost step: nat)
      requires Valid() && size < capacity
      ensures found <==> key in Contents
      ensures found ==> idx == Where(key)
      ensures !found ==> step < capacity && idx == At(capacity, hash, key, step) &&
                         FirstFree(buckets[..], hash, key, step)
    {
      ghost var s := buckets[..];
      idx := Home(hash, capacity, key);
      var firstTomb: int := -1;
      step := 0;
      var j := 0;
      while j < capacity
        invariant 0 <= j <= capacity
        invariant j < capacity ==> idx == At(capacity, hash, key, j)
        invariant key in Dist ==> j <= Dist[key]
        invariant firstTomb == -1 ==> forall t :: 0 <= t < j ==> s[At(capacity, hash, key, t)].Used?
        invariant firstTomb != -1 ==>
          step < j && firstTomb == At(capacity, hash, key, step) && FirstFree(s, hash, key, step)
        decreases capacity - j
      {
        var b := buckets[idx];
        if b.Empty? {
          if firstTomb != -1 {
            return false, firstTomb, step;
          }
          return false, idx, j;
        }
        if b.Tombstone? && firstTomb == -1 {
          firstTomb := idx;
          step := j;
        } else if b.Used? && b.key == key {
          return true, idx, step;
        }
        idx := if idx + 1 == capacity then 0 else idx + 1;
        j := j + 1;
      }
      // Every bucket was probed and none was EMPTY or held the key.
      if firstTomb == -1 {
        FullPathAllUsed(s, hash, key);
        FreeBucketExists(s);
        assert false;
      }
      return false, firstTomb, step;
    }

    /**
     * The store part of hash_table_put (after maybe_grow): overwrite the key
     * in place if present, else store it in the bucket FindSlot chose.
     */
    method InsertProbe(key: uint64, value: uint64)
      requires Valid() && (size + 1) * 10 < capacity * 7
      modifies this, buckets
      ensures Valid() && buckets == old(buckets) && capacity == old(capacity)
      ensures Contents == old(Contents)[key := value]
      ensures size == old(size) + (if key in old(Contents) then 0 else 1)
      ensures key in old(Contents) ==>
        Dist == old(Dist) && buckets[..] == old(buckets[..])[Where(key) := Used(key, value)]
      ensures key !in old(Contents) ==>
        FirstFree(old(buckets[..]), hash, key, Dist[key]) &&
        buckets[..] == old(buckets[..])[Where(key) := Used(key, value)]
      ensures NoTombstones(old(buckets[..])) ==> NoTombstones(buckets[..])
    {
      ghost var s := buckets[..];
      var found, idx, step := FindSlot(key);
      if found {
        OverwritePreservesInv(s, hash, Contents, Dist, key, value);
        CountUsedUpdate(s, idx, Used(key, value));
        buckets[idx] := Used(key, value);
        Contents := Contents[key := value];
        assert buckets[..] == s[idx := Used(key, value)];
      } else {
        InsertPreservesInv(s, hash, Contents, Dist, key, value, step);
        CountUsedUpdate(s, idx, Used(key, value));
        buckets[idx] := Used(key, value);
        size := size + 1;
        Contents := Contents[key := value];
        Dist := Dist[key := step];
        assert buckets[..] == s[idx := Used(key, value)];
      }
    }

    /**
     * rehash: move every USED bucket into a fresh all-EMPTY array of `newCap`
     * buckets. The source inserts with hash_table_put; its growth check cannot
     * fire inside the loop (the loop invariant shows the load stays below the
     * bound), so the probe part is called directly.
     */
    method Rehash(newCap: nat)
      requires Valid() && newCap == 2 * capacity
      modifies this
      ensures Valid() && fresh(buckets)
      ensures capacity == newCap && Contents == old(Contents) && size == old(size)
      ensures NoTombstones(buckets[..])
    {
      var oldBuckets := buckets;
      var oldCap := capacity;
      ghost var oldContents := Contents;
      ghost var oldDist := Dist;
      ghost var s := buckets[..];
      DoublePow2(capacity);

      capacity := newCap;
      size := 0;
      buckets := new Bucket[newCap](_ => Empty);
      Contents := map[];
      Dist := map[];
      CountUsedNone(buckets[..]);
      for i := 0 to oldCap
        invariant fresh(buckets) && buckets.Length == capacity && capacity == newCap
        invariant oldBuckets[..] == s
        invariant Valid() && NoTombstones(buckets[..])
        invariant Contents == UsedMap(s[..i])
        invariant size == CountUsed(s[..i])
      {
        RehashStep(s, hash, oldContents, oldDist, i);
        if oldBuckets[i].Used? {
          InsertProbe(oldBuckets[i].key, oldBuckets[i].value);
        }
      }
      assert s[..oldCap] == s;
      UsedMapIsContents(s, hash, oldContents, oldDist);
    }

    /** maybe_grow: double the capacity when one more key would reach load 0.7. */
    method MaybeGrow() returns (rc: int)
      requires Valid()
      modifies this
      ensures Valid() && rc == 0
      ensures Contents == old(Contents) && size == old(size)
      ensures (size + 1) * 10 < capacity * 7
      ensures (old(size) + 1) * 10 >= old(capacity) * 7 ==>
        capacity == 2 * old(capacity) && fresh(buckets) && NoTombstones(buckets[..])
      ensures (old(size) + 1) * 10 < old(capacity) * 7 ==>
        capacity == old(capacity) && buckets == old(buckets)
    {
      if (size + 1) * 10 >= capacity * 7 {
        Rehash(capacity * 2);
      }
      return 0;
    }

    /**
     * hash_table_put: grow if needed, then insert or overwrite. Allocation
     * never fails in the model, so the result is always 0.
     */
    method Put(key: uint64, value: uint64) returns (rc: int)
      requires Valid()
      modifies this, buckets
      ensures Valid() && rc == 0
      ensures Contents == old(Contents)[key := value]
      ensures size == old(size) + (if key in old(Contents) then 0 else 1)
      ensures capacity == if (old(size) + 1) * 10 >= old(capacity) * 7
                          then 2 * old(capacity) else old(capacity)
      ensures buckets == old(buckets) || fresh(buckets)
      ensures (old(size) + 1) * 10 < old(capacity) * 7 ==>
        buckets == old(buckets) &&
        (key in old(Contents) ==>
          buckets[..] == old(buckets[..])[Where(key) := Used(key, value)]) &&
        (key !in old(Contents) ==>
          FirstFree(old(buckets[..]), hash, key, Dist[key]) &&
          buckets[..] == old(buckets[..])[Where(key) := Used(key, value)])
      ensures NoTombstones(old(buckets[..])) ==> NoTombstones(buckets[..])
    {
      rc := MaybeGrow();
      InsertProbe(key, value);
    }

    /**
     * hash_table_delete: turn the key's bucket into a tombstone. An absent key
     * gives -1 and leaves the table alone.
     */
    method Delete(key: uint64) returns (rc: int)
      requires Valid()
      modifies this`size, this`Contents, this`Dist, buckets
      ensures Valid()
      ensures rc == 0 || rc == -1
      ensures rc == 0 <==> key in old(Contents)
      ensures Contents == old(Contents) - {key}
      ensures size == old(size) - (if rc == 0 then 1 else 0)
      ensures rc == 0 ==> buckets[..] == old(buckets[..])[old(Where(key)) := Tombstone]
      ensures rc == -1 ==> buckets[..] == old(buckets[..])
    {
      ghost var s := buckets[..];
      var found, idx := Find(key);
      if !found {
        return -1;
      }
      TombstonePreservesInv(s, hash, Contents, Dist, key);
      CountUsedUpdate(s, idx, Tombstone);
      buckets[idx] := Tombstone;
      size := size - 1;
      Contents := Contents - {key};
      Dist := Dist - {key};
      assert buckets[..] == s[idx := Tombstone];
      return 0;
    }
  }

  /** Put `key` into an empty table of two buckets whose home bucket for it is EMPTY, then delete it. */
  method PutThenDelete(ht: HashTable, key: uint64)
    requires ht.Valid() && ht.capacity == 2 && ht.size == 0 && ht.Contents == map[]
    requires ht.buckets[Home(ht.hash, 2, key)] == Empty
    modifies ht, ht.buckets
    ensures ht.Valid() && ht.capacity == 2 && ht.size == 0 && ht.Contents == map[]
    ensures ht.buckets == old(ht.buckets)
    ensures ht.buckets[..] == old(ht.buckets[..])[Home(ht.hash, 2, key) := Tombstone]
  {
    ghost var s := ht.buckets[..];
    var rc := ht.Put(key, 0);
    FirstFreeAtHome(s, ht.hash, key, ht.Dist[key]);
    assert ht.buckets[..] == s[Home(ht.hash, 2, key) := Used(key, 0)];
    rc := ht.Delete(key);
  }

  /**
   * A reachable table on which the probe loops of the source never stop:
   * capacity 2 with the source's hash mix64, where key 0 has home bucket 0
   * and key 2 home bucket 1. Put and delete 0, then put and delete 2: both
   * buckets are tombstones, no bucket is EMPTY, and every later
   * hash_table_get, hash_table_put or hash_table_delete loops for ever.
   */
  method SaturatingTrace() returns (ht: HashTable)
    ensures ht.Valid() && ht.capacity == 2 && ht.Contents == map[]
    ensures ht.buckets[..] == [Tombstone, Tombstone]
    ensures forall key :: !AsWrittenProbeStops(ht.buckets[..], ht.hash, key)
  {
    assert IsPow2(2);
    ht := new HashTable.Init(2, Mix64Hash);
    assert Home(Mix64Hash, 2, 0) == 0;
    assert Home(Mix64Hash, 2, 2) == 1;
    assert ht.buckets[..] == [Empty, Empty];
    PutThenDelete(ht, 0);
    assert ht.buckets[..] == [Tombstone, Empty];
    PutThenDelete(ht, 2);
    forall key
      ensures !AsWrittenProbeStops(ht.buckets[..], ht.hash, key)
    {
      SaturatedProbeNeverStops(ht.buckets[..], ht.hash, key);
    }
  }
}
