/**
 * The open-addressing hash table of src/core/hash_table.c: 64-bit keys and
 * values, linear probing over EMPTY / USED / TOMBSTONE buckets, a power-of-two
 * capacity and a doubling rehash ahead of any insert that would reach a load
 * factor of 0.7.
 *
 * The abstract value of a table is the finite map `Contents`. The ghost map
 * `Dist` gives, for every stored key, how many probe steps past its home bucket
 * it sits. The hash function is a parameter of the table: nothing proved here
 * depends on which function it is.
 */
module Probing {
  import opened Common

  datatype Bucket = Empty | Used(key: uint64, value: uint64) | Tombstone

  /** The MurmurHash3 fmix64 finaliser that the source uses as its hash. */
  function Mix64(x: bv64): bv64
  {
    var x1 := x ^ (x >> 33);
    var x2 := x1 * 0xff51afd7ed558ccd;
    var x3 := x2 ^ (x2 >> 33);
    var x4 := x3 * 0xc4ceb9fe1a85ec53;
    x4 ^ (x4 >> 33)
  }

  function Mix64Hash(key: uint64): uint64
  {
    Mix64(key as bv64) as uint64
  }

  /** The home bucket `mix64(key) & (capacity - 1)`, written as a remainder. */
  function Home(hash: uint64 -> uint64, cap: nat, key: uint64): (h: nat)
    requires cap > 0
    ensures h < cap
  {
    hash(key) as int % cap
  }

  /** The bucket reached after t steps `idx = (idx + 1) & mask` from `home`. */
  function Slot(home: nat, t: nat, cap: nat): (i: nat)
    requires home < cap && t < cap
    ensures i < cap
  {
    if home + t < cap then home + t else home + t - cap
  }

  /** The bucket a probe for `key` looks at after t steps, in a table of `cap` buckets. */
  function At(cap: nat, hash: uint64 -> uint64, key: uint64, t: nat): (i: nat)
    requires 0 < cap && t < cap
    ensures i < cap
  {
    Slot(Home(hash, cap, key), t, cap)
  }

  /**
   * The representation invariant: every key of `contents` sits `dist[key]`
   * steps past its home bucket, every USED bucket holds a key of `contents`
   * at exactly that place (so no key is stored twice), and no bucket between
   * a key's home and its place is EMPTY (so a probe for it never stops early).
   */
  ghost predicate TableInv(s: seq<Bucket>, hash: uint64 -> uint64,
                           contents: map<uint64, uint64>, dist: map<uint64, nat>)
  {
    && 0 < |s|
    && contents.Keys == dist.Keys
    && (forall k {:trigger dist[k]} :: k in dist ==>
          dist[k] < |s| && s[At(|s|, hash, k, dist[k])] == Used(k, contents[k]))
    && (forall i {:trigger s[i]} :: 0 <= i < |s| && s[i].Used? ==>
          s[i].key in dist && At(|s|, hash, s[i].key, dist[s[i].key]) == i)
    && (forall k, t {:trigger s[At(|s|, hash, k, t)]} :: k in dist && 0 <= t < dist[k] ==> !s[At(|s|, hash, k, t)].Empty?)
  }

  /** Bucket `At(d)` is the first bucket on the probe path of `key` that is not USED. */
  ghost predicate FirstFree(s: seq<Bucket>, hash: uint64 -> uint64, key: uint64, d: nat)
    requires 0 < |s|
  {
    && d < |s|
    && !s[At(|s|, hash, key, d)].Used?
    && forall t :: 0 <= t < d ==> s[At(|s|, hash, key, t)].Used?
  }

  /** When the home bucket of `key` is not USED, it is the first free bucket of its path. */
  lemma FirstFreeAtHome(s: seq<Bucket>, hash: uint64 -> uint64, key: uint64, d: nat)
    requires 0 < |s| && FirstFree(s, hash, key, d) && !s[Home(hash, |s|, key)].Used?
    ensures d == 0
  {
    assert !s[At(|s|, hash, key, 0)].Used?;
  }

  ghost predicate NoTombstones(s: seq<Bucket>)
  {
    forall i :: 0 <= i < |s| ==> !s[i].Tombstone?
  }

  /** Every bucket is reached within |s| probe steps from any home. */
  lemma SlotCovers(home: nat, i: nat, cap: nat)
    requires home < cap && i < cap
    ensures Slot(home, if i >= home then i - home else i + cap - home, cap) == i
  {
  }

  /** A probe path of |s| steps visits every bucket, so if all it met were USED, all buckets are. */
  lemma FullPathAllUsed(s: seq<Bucket>, hash: uint64 -> uint64, key: uint64)
    requires 0 < |s|
    requires forall t :: 0 <= t < |s| ==> s[At(|s|, hash, key, t)].Used?
    ensures forall i :: 0 <= i < |s| ==> s[i].Used?
  {
    forall i | 0 <= i < |s|
      ensures s[i].Used?
    {
      var h := Home(hash, |s|, key);
      SlotCovers(h, i, |s|);
      assert s[At(|s|, hash, key, if i >= h then i - h else i + |s| - h)].Used?;
    }
  }

  /** The key -> value map spelled out by the USED buckets. */
  ghost function UsedMap(s: seq<Bucket>): map<uint64, uint64>
  {
    if s == [] then map[]
    else if s[|s| - 1].Used? then UsedMap(s[..|s| - 1])[s[|s| - 1].key := s[|s| - 1].value]
    else UsedMap(s[..|s| - 1])
  }

  /**
   * In a well-formed table the first n buckets spell out exactly the stored
   * keys whose bucket lies among them, with their stored values.
   */
  lemma {:induction false} UsedMapPrefix(s: seq<Bucket>, hash: uint64 -> uint64,
                                         c: map<uint64, uint64>, d: map<uint64, nat>, n: nat)
    requires TableInv(s, hash, c, d) && n <= |s|
    ensures forall k :: k in UsedMap(s[..n]) <==> k in d && At(|s|, hash, k, d[k]) < n
    ensures forall k :: k in UsedMap(s[..n]) ==> UsedMap(s[..n])[k] == c[k]
  {
    if n > 0 {
      UsedMapPrefix(s, hash, c, d, n - 1);
      assert s[..n][..n - 1] == s[..n - 1];
      var m, m' := UsedMap(s[..n - 1]), UsedMap(s[..n]);
      if s[n - 1].Used? {
        var k0 := s[n - 1].key;
        assert k0 in d && At(|s|, hash, k0, d[k0]) == n - 1;
        assert m' == m[k0 := s[n - 1].value];
        forall k | k in d && At(|s|, hash, k, d[k]) < n
          ensures k in m'
        {
          if k != k0 {
            assert At(|s|, hash, k, d[k]) != n - 1;
          }
        }
      } else {
        assert m' == m;
        forall k | k in d && At(|s|, hash, k, d[k]) < n
          ensures k in m'
        {
          assert s[At(|s|, hash, k, d[k])].Used?;
        }
      }
    }
  }

  lemma UsedMapIsContents(s: seq<Bucket>, hash: uint64 -> uint64,
                          c: map<uint64, uint64>, d: map<uint64, nat>)
    requires TableInv(s, hash, c, d)
    ensures UsedMap(s) == c
  {
    UsedMapPrefix(s, hash, c, d, |s|);
    assert s[..|s|] == s;
  }

  /** The number of USED buckets: what the table's `size` field counts. */
  function CountUsed(s: seq<Bucket>): (n: nat)
    ensures n <= |s|
  {
    if s == [] then 0
    else CountUsed(s[..|s| - 1]) + (if s[|s| - 1].Used? then 1 else 0)
  }

  /** A table without USED buckets counts zero. */
  lemma {:induction false} CountUsedNone(s: seq<Bucket>)
    requires forall i :: 0 <= i < |s| ==> !s[i].Used?
    ensures CountUsed(s) == 0
  {
    if s != [] {
      CountUsedNone(s[..|s| - 1]);
    }
  }

  /** Writing one bucket changes the count by what was there and what is written. */
  lemma {:induction false} CountUsedUpdate(s: seq<Bucket>, p: nat, b: Bucket)
    requires p < |s|
    ensures CountUsed(s[p := b]) ==
      CountUsed(s) - (if s[p].Used? then 1 else 0) + (if b.Used? then 1 else 0)
  {
    var s' := s[p := b];
    var n := |s|;
    if p == n - 1 {
      assert s'[..n - 1] == s[..n - 1];
    } else {
      assert s'[..n - 1] == s[..n - 1][p := b];
      CountUsedUpdate(s[..n - 1], p, b);
    }
  }

  /** The count never drops along longer prefixes. */
  lemma {:induction false} CountUsedPrefix(s: seq<Bucket>, n: nat)
    requires n <= |s|
    ensures CountUsed(s[..n]) <= CountUsed(s)
  {
    if n < |s| {
      assert s[..|s| - 1][..n] == s[..n];
      CountUsedPrefix(s[..|s| - 1], n);
    } else {
      assert s[..n] == s;
    }
  }

  /**
   * A table with fewer USED buckets than buckets has a bucket that is not
   * USED: this is why a put of a new key below the load limit finds a place.
   */
  lemma {:induction false} FreeBucketExists(s: seq<Bucket>)
    requires CountUsed(s) < |s|
    ensures exists i :: 0 <= i < |s| && !s[i].Used?
  {
    var n := |s|;
    if s[n - 1].Used? {
      FreeBucketExists(s[..n - 1]);
      var i :| 0 <= i < n - 1 && !s[..n - 1][i].Used?;
      assert !s[i].Used?;
    }
  }

  /**
   * One step of a rehash that reinserts the buckets in index order: bucket i
   * adds its key, which none of the earlier buckets held, or adds nothing.
   */
  lemma RehashStep(s: seq<Bucket>, hash: uint64 -> uint64,
                   c: map<uint64, uint64>, d: map<uint64, nat>, i: nat)
    requires TableInv(s, hash, c, d) && i < |s|
    ensures CountUsed(s[..i + 1]) <= CountUsed(s)
    ensures s[i].Used? ==>
      && s[i].key !in UsedMap(s[..i])
      && UsedMap(s[..i + 1]) == UsedMap(s[..i])[s[i].key := s[i].value]
      && CountUsed(s[..i + 1]) == CountUsed(s[..i]) + 1
    ensures !s[i].Used? ==>
      UsedMap(s[..i + 1]) == UsedMap(s[..i]) && CountUsed(s[..i + 1]) == CountUsed(s[..i])
  {
    assert s[..i + 1][..i] == s[..i];
    CountUsedPrefix(s, i + 1);
    if s[i].Used? {
      UsedMapPrefix(s, hash, c, d, i);
      assert At(|s|, hash, s[i].key, d[s[i].key]) == i;
    }
  }

  /** In a well-formed table the USED buckets are exactly as many as the stored keys. */
  lemma {:induction false} CountUsedPrefixIsCard(s: seq<Bucket>, hash: uint64 -> uint64,
                                                 c: map<uint64, uint64>, d: map<uint64, nat>, n: nat)
    requires TableInv(s, hash, c, d) && n <= |s|
    ensures CountUsed(s[..n]) == |UsedMap(s[..n])|
  {
    if n > 0 {
      CountUsedPrefixIsCard(s, hash, c, d, n - 1);
      assert s[..n][..n - 1] == s[..n - 1];
      if s[n - 1].Used? {
        var k0 := s[n - 1].key;
        UsedMapPrefix(s, hash, c, d, n - 1);
        assert At(|s|, hash, k0, d[k0]) == n - 1;
        assert k0 !in UsedMap(s[..n - 1]);
      }
    }
  }

  lemma CountUsedIsCard(s: seq<Bucket>, hash: uint64 -> uint64,
                        c: map<uint64, uint64>, d: map<uint64, nat>)
    requires TableInv(s, hash, c, d)
    ensures CountUsed(s) == |c|
  {
    CountUsedPrefixIsCard(s, hash, c, d, |s|);
    UsedMapIsContents(s, hash, c, d);
    assert s[..|s|] == s;
  }

  /** Turning a stored key's bucket into a tombstone removes exactly that key. */
  lemma TombstonePreservesInv(s: seq<Bucket>, hash: uint64 -> uint64,
                              c: map<uint64, uint64>, d: map<uint64, nat>, key: uint64)
    requires TableInv(s, hash, c, d) && key in d
    ensures TableInv(s[At(|s|, hash, key, d[key]) := Tombstone], hash, c - {key}, d - {key})
  {
    var p := At(|s|, hash, key, d[key]);
    var s', c', d' := s[p := Tombstone], c - {key}, d - {key};
    forall k | k in d'
      ensures d'[k] < |s'| && s'[At(|s'|, hash, k, d'[k])] == Used(k, c'[k])
    {
      assert s[At(|s|, hash, k, d[k])] == Used(k, c[k]);
    }
    forall i | 0 <= i < |s'| && s'[i].Used?
      ensures s'[i].key in d' && At(|s'|, hash, s'[i].key, d'[s'[i].key]) == i
    {
      assert s[i] == s'[i];
    }
  }

  /** Overwriting a stored key's value in place keeps the table well formed. */
  lemma OverwritePreservesInv(s: seq<Bucket>, hash: uint64 -> uint64,
                              c: map<uint64, uint64>, d: map<uint64, nat>,
                              key: uint64, value: uint64)
    requires TableInv(s, hash, c, d) && key in d
    ensures TableInv(s[At(|s|, hash, key, d[key]) := Used(key, value)], hash, c[key := value], d)
  {
    var p := At(|s|, hash, key, d[key]);
    var s', c' := s[p := Used(key, value)], c[key := value];
    forall k | k in d
      ensures d[k] < |s'| && s'[At(|s'|, hash, k, d[k])] == Used(k, c'[k])
    {
      assert s[At(|s|, hash, k, d[k])] == Used(k, c[k]);
    }
    forall i | 0 <= i < |s'| && s'[i].Used?
      ensures s'[i].key in d && At(|s'|, hash, s'[i].key, d[s'[i].key]) == i
    {
      if i != p {
        assert s[i] == s'[i];
      }
    }
  }

  /**
   * Storing a new key in a bucket that is not USED, with no EMPTY bucket
   * before it on the key's probe path, keeps the table well formed.
   */
  lemma InsertPreservesInv(s: seq<Bucket>, hash: uint64 -> uint64,
                           c: map<uint64, uint64>, d: map<uint64, nat>,
                           key: uint64, value: uint64, t: nat)
    requires TableInv(s, hash, c, d) && key !in d && t < |s|
    requires !s[At(|s|, hash, key, t)].Used?
    requires forall u :: 0 <= u < t ==> !s[At(|s|, hash, key, u)].Empty?
    ensures TableInv(s[At(|s|, hash, key, t) := Used(key, value)], hash, c[key := value], d[key := t])
  {
    var p := At(|s|, hash, key, t);
    var s', c', d' := s[p := Used(key, value)], c[key := value], d[key := t];
    forall k | k in d'
      ensures d'[k] < |s'| && s'[At(|s'|, hash, k, d'[k])] == Used(k, c'[k])
    {
      if k != key {
        assert s[At(|s|, hash, k, d[k])] == Used(k, c[k]);
      }
    }
    forall i | 0 <= i < |s'| && s'[i].Used?
      ensures s'[i].key in d' && At(|s'|, hash, s'[i].key, d'[s'[i].key]) == i
    {
      if i != p {
        assert s[i] == s'[i];
      }
    }
    forall k, u | k in d' && 0 <= u < d'[k]
      ensures !s'[At(|s'|, hash, k, u)].Empty?
    {
      if k != key {
        assert !s[At(|s|, hash, k, u)].Empty?;
      }
    }
  }

  /**
   * Without tombstones (a table that never saw a delete) some bucket is EMPTY,
   * so every probe loop of the source, which runs until an EMPTY bucket or the
   * key, stops within |s| steps.
   */
  lemma {:induction false} ProbeStopsWithoutTombstones(s: seq<Bucket>, hash: uint64 -> uint64,
    c: map<uint64, uint64>, d: map<uint64, nat>, key: uint64)
    requires TableInv(s, hash, c, d) && CountUsed(s) < |s| && NoTombstones(s)
    ensures exists t :: (0 <= t < |s| &&
      (s[At(|s|, hash, key, t)].Empty? || (s[At(|s|, hash, key, t)].Used? && s[At(|s|, hash, key, t)].key == key)))
  {
    FreeBucketExists(s);
    var i :| 0 <= i < |s| && !s[i].Used?;
    var h := Home(hash, |s|, key);
    var t := if i >= h then i - h else i + |s| - h;
    SlotCovers(h, i, |s|);
    assert s[At(|s|, hash, key, t)].Empty?;
  }

  /**
   * The probe loops of the source as written: `for (;;)` from the home bucket
   * with `idx = (idx + 1) & mask`, so after t steps they look at this bucket.
   */
  ghost function AsWrittenBucket(s: seq<Bucket>, hash: uint64 -> uint64, key: uint64, t: nat): Bucket
    requires 0 < |s|
  {
    s[(Home(hash, |s|, key) + t) % |s|]
  }

  /** They leave only at an EMPTY bucket or at the key, i.e. when some step reaches one. */
  ghost predicate AsWrittenProbeStops(s: seq<Bucket>, hash: uint64 -> uint64, key: uint64)
    requires 0 < |s|
  {
    exists t: nat ::
      || AsWrittenBucket(s, hash, key, t).Empty?
      || (AsWrittenBucket(s, hash, key, t).Used? && AsWrittenBucket(s, hash, key, t).key == key)
  }

  /** When every bucket is a tombstone the source's probe loops never leave. */
  lemma SaturatedProbeNeverStops(s: seq<Bucket>, hash: uint64 -> uint64, key: uint64)
    requires 0 < |s| && forall i :: 0 <= i < |s| ==> s[i] == Tombstone
    ensures !AsWrittenProbeStops(s, hash, key)
  {
  }
}
