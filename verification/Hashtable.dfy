// src/Hashtable.h: a case-insensitive chained hash table that doubles when a bucket
// gets long, and its iteration with a resume cache.
module Hashtable {

  import opened Basics

  type Key = seq<byte>

  const ULONG: nat := 0x1_0000_0000_0000_0000

  // ---- keys ---------------------------------------------------------------------------

  // tolower in the C locale
  function ToLower(c: byte): byte {
    if 65 <= c <= 90 then c + 32 else c
  }

  // What two keys must agree on to count as the same key.
  function Fold(key: Key, caseSensitive: bool): Key {
    seq(|key|, i requires 0 <= i < |key| => if caseSensitive then key[i] else ToLower(key[i]))
  }

  // A char is signed.
  function Signed(c: byte): int {
    if c >= 128 then c - 256 else c
  }

  // djb2 in an unsigned long
  function Djb2(key: Key): (h: nat)
    ensures h < ULONG
  {
    if key == [] then 5381 else (Djb2(key[..|key| - 1]) * 33 + Signed(key[|key| - 1])) % ULONG
  }

  // The hash of a key is that of its folded form.
  method Hash(key: Key, caseSensitive: bool) returns (h: nat)
    ensures h == Djb2(Fold(key, caseSensitive))
  {
    h := 5381;
    var folded := Fold(key, caseSensitive);
    for i := 0 to |key|
      invariant h == Djb2(folded[..i])
    {
      var c := if caseSensitive then key[i] else ToLower(key[i]);
      assert folded[..i + 1][..i] == folded[..i];
      h := (h * 33 + Signed(c)) % ULONG;
    }
    assert folded[..|key|] == folded;
  }

  // ---- buckets ------------------------------------------------------------------------

  datatype Bucket<V> = Bucket(keys: seq<Key>, values: seq<V>)

  predicate Even<V>(b: Bucket<V>) {
    |b.keys| == |b.values|
  }

  // The slot of the folded key k; |keys| when it is not there.
  function Slot(keys: seq<Key>, k: Key, cs: bool): (a: nat)
    ensures a <= |keys|
    ensures a < |keys| ==> Fold(keys[a], cs) == k
    ensures forall j :: 0 <= j < a ==> Fold(keys[j], cs) != k
  {
    if keys == [] then 0
    else
      var a := Slot(keys[..|keys| - 1], k, cs);
      if a < |keys| - 1 || Fold(keys[|keys| - 1], cs) == k then a else |keys|
  }

  function Place(k: Key, n: nat): (i: nat)
    requires n > 0
    ensures i < n
  {
    Djb2(k) % n
  }

  // No two keys of a bucket are the same, and each is in the bucket its hash says.
  ghost predicate Proper<V>(b: Bucket<V>, i: nat, n: nat, cs: bool)
    requires n > 0
  {
    && Even(b)
    && (forall a :: 0 <= a < |b.keys| ==> Place(Fold(b.keys[a], cs), n) == i)
    && (forall a, c :: 0 <= a < c < |b.keys| ==> Fold(b.keys[a], cs) != Fold(b.keys[c], cs))
  }

  function BucketLookup<V>(b: Bucket<V>, k: Key, cs: bool): Option<V>
    requires Even(b)
  {
    var a := Slot(b.keys, k, cs);
    if a < |b.keys| then Some(b.values[a]) else None
  }

  // Appending a key that is not there.
  lemma AppendBucket<V>(b: Bucket<V>, key: Key, value: V, i: nat, n: nat, cs: bool)
    requires n > 0 && Proper(b, i, n, cs) && Place(Fold(key, cs), n) == i
    requires BucketLookup(b, Fold(key, cs), cs) == None
    ensures var b' := Bucket(b.keys + [key], b.values + [value]);
      && Proper(b', i, n, cs)
      && forall k :: BucketLookup(b', k, cs) == if k == Fold(key, cs) then Some(value) else BucketLookup(b, k, cs)
  {
    var b' := Bucket(b.keys + [key], b.values + [value]);
    assert b'.keys[..|b.keys|] == b.keys;
    var s := Slot(b.keys, Fold(key, cs), cs);
    assert s == |b.keys|;
    assert forall a :: 0 <= a < |b.keys| ==> Fold(b.keys[a], cs) != Fold(key, cs);
  }

  // What the removal of slot a leaves: the last entry takes its place.
  function WithoutEntry<V>(b: Bucket<V>, a: nat): Bucket<V>
    requires Even(b) && a < |b.keys|
  {
    var n := |b.keys| - 1;
    Bucket(b.keys[a := b.keys[n]][..n], b.values[a := b.values[n]][..n])
  }

  lemma SlotUnique<V>(b: Bucket<V>, a: nat, i: nat, n: nat, cs: bool)
    requires n > 0 && Proper(b, i, n, cs) && a < |b.keys|
    ensures Slot(b.keys, Fold(b.keys[a], cs), cs) == a
  {
  }

  lemma RemoveBucket<V>(b: Bucket<V>, a: nat, i: nat, n: nat, cs: bool)
    requires n > 0 && Proper(b, i, n, cs) && a < |b.keys|
    ensures var b' := WithoutEntry(b, a);
      && Proper(b', i, n, cs)
      && forall k :: BucketLookup(b', k, cs) == if k == Fold(b.keys[a], cs) then None else BucketLookup(b, k, cs)
  {
    hide Fold, Place;
    var b', last := WithoutEntry(b, a), |b.keys| - 1;
    assert Proper(b', i, n, cs);
    forall k ensures BucketLookup(b', k, cs) == if k == Fold(b.keys[a], cs) then None else BucketLookup(b, k, cs) {
      var s, s' := Slot(b.keys, k, cs), Slot(b'.keys, k, cs);
      if s < |b.keys| && s != a {
        var to := if s == last then a else s;
        assert b'.keys[to] == b.keys[s];
      }
      if s' < |b'.keys| {
        var from := if s' == a then last else s';
        assert b.keys[from] == b'.keys[s'];
        SlotUnique(b, from, i, n, cs);
      }
    }
  }

  // ---- tables as values -------------------------------------------------------------------

  ghost predicate AllProper<V>(bs: seq<Bucket<V>>, cs: bool) {
    |bs| > 0 && forall i :: 0 <= i < |bs| ==> Proper(bs[i], i, |bs|, cs)
  }

  ghost function Lookup<V>(bs: seq<Bucket<V>>, k: Key, cs: bool): Option<V>
    requires AllProper(bs, cs)
  {
    BucketLookup(bs[Place(k, |bs|)], k, cs)
  }

  // The buckets hold exactly the entries of m, by folded key.
  ghost predicate Holds<V>(bs: seq<Bucket<V>>, m: map<Key, V>, cs: bool) {
    AllProper(bs, cs) &&
    forall k :: Lookup(bs, k, cs) == if k in m then Some(m[k]) else None
  }

  function NoBuckets<V>(n: nat): (bs: seq<Bucket<V>>)
    ensures |bs| == n && forall i :: 0 <= i < n ==> bs[i] == Bucket([], [])
  {
    seq(n, _ => Bucket([], []))
  }

  lemma EmptyHolds<V>(n: nat, cs: bool)
    requires n > 0
    ensures Holds<V>(NoBuckets(n), map[], cs)
  {
  }

  // Replacing one bucket changes the table where that bucket changes.
  lemma HoldsUpdate<V>(bs: seq<Bucket<V>>, m: map<Key, V>, i: nat, b: Bucket<V>, m': map<Key, V>, k0: Key, cs: bool)
    requires Holds(bs, m, cs) && i < |bs| && Proper(b, i, |bs|, cs) && Place(k0, |bs|) == i
    requires forall k :: k != k0 ==> BucketLookup(b, k, cs) == BucketLookup(bs[i], k, cs)
    requires BucketLookup(b, k0, cs) == if k0 in m' then Some(m'[k0]) else None
    requires forall k :: k != k0 ==> (k in m' <==> k in m) && (k in m ==> m'[k] == m[k])
    ensures Holds(bs[i := b], m', cs)
  {
    var bs' := bs[i := b];
    assert AllProper(bs', cs);
    forall k ensures Lookup(bs', k, cs) == if k in m' then Some(m'[k]) else None {
      assert Lookup(bs, k, cs) == if k in m then Some(m[k]) else None;
    }
  }

  lemma AddHolds<V>(bs: seq<Bucket<V>>, m: map<Key, V>, key: Key, value: V, cs: bool)
    requires Holds(bs, m, cs) && Fold(key, cs) !in m
    ensures var i := Place(Fold(key, cs), |bs|);
      Holds(bs[i := Bucket(bs[i].keys + [key], bs[i].values + [value])], m[Fold(key, cs) := value], cs)
  {
    var k0 := Fold(key, cs);
    var i := Place(k0, |bs|);
    assert Lookup(bs, k0, cs) == None;
    AppendBucket(bs[i], key, value, i, |bs|, cs);
    HoldsUpdate(bs, m, i, Bucket(bs[i].keys + [key], bs[i].values + [value]), m[k0 := value], k0, cs);
  }

  lemma RemoveHolds<V>(bs: seq<Bucket<V>>, m: map<Key, V>, i: nat, a: nat, cs: bool)
    requires Holds(bs, m, cs) && i < |bs| && a < |bs[i].keys|
    ensures var k0 := Fold(bs[i].keys[a], cs);
      && k0 in m && m[k0] == bs[i].values[a] && Place(k0, |bs|) == i
      && Holds(bs[i := WithoutEntry(bs[i], a)], m - {k0}, cs)
  {
    var k0 := Fold(bs[i].keys[a], cs);
    assert Proper(bs[i], i, |bs|, cs);
    SlotUnique(bs[i], a, i, |bs|, cs);
    assert Lookup(bs, k0, cs) == Some(bs[i].values[a]);
    RemoveBucket(bs[i], a, i, |bs|, cs);
    HoldsUpdate(bs, m, i, WithoutEntry(bs[i], a), m - {k0}, k0, cs);
  }

  // A key is in the table exactly when its own bucket has it.
  lemma HoldsAt<V>(bs: seq<Bucket<V>>, m: map<Key, V>, k: Key, cs: bool)
    requires Holds(bs, m, cs)
    ensures var b := bs[Place(k, |bs|)];
      && Even(b) && (k in m <==> Slot(b.keys, k, cs) < |b.keys|)
      && (k in m ==> m[k] == b.values[Slot(b.keys, k, cs)])
  {
    assert Lookup(bs, k, cs) == if k in m then Some(m[k]) else None;
  }

  // ---- the part of a table that a rehash has moved so far ----------------------------------

  // The entries of m that stand before slot a of bucket i.
  ghost function Moved<V>(bs: seq<Bucket<V>>, m: map<Key, V>, i: nat, a: nat, cs: bool): map<Key, V>
    requires |bs| > 0
  {
    map k | k in m && (Place(k, |bs|) < i ||
                       (Place(k, |bs|) == i && Slot(bs[Place(k, |bs|)].keys, k, cs) < a)) :: m[k]
  }

  lemma SlotOf<V>(bs: seq<Bucket<V>>, m: map<Key, V>, i: nat, a: nat, cs: bool)
    requires Holds(bs, m, cs) && i < |bs| && a < |bs[i].keys|
    ensures Slot(bs[i].keys, Fold(bs[i].keys[a], cs), cs) == a
  {
    assert Proper(bs[i], i, |bs|, cs);
    SlotUnique(bs[i], a, i, |bs|, cs);
  }

  lemma MovedStep<V>(bs: seq<Bucket<V>>, m: map<Key, V>, i: nat, a: nat, cs: bool)
    requires Holds(bs, m, cs) && i < |bs| && a < |bs[i].keys|
    ensures Even(bs[i])
    ensures var k0 := Fold(bs[i].keys[a], cs);
      && k0 !in Moved(bs, m, i, a, cs)
      && Moved(bs, m, i, a + 1, cs) == Moved(bs, m, i, a, cs)[k0 := bs[i].values[a]]
  {
    hide Fold, Holds, Proper, Lookup, BucketLookup;
    var k0 := Fold(bs[i].keys[a], cs);
    RemoveHolds(bs, m, i, a, cs);
    HoldsAt(bs, m, k0, cs);
    SlotOf(bs, m, i, a, cs);
    assert forall k :: Slot(bs[i].keys, k, cs) == a ==> k == k0;
  }

  lemma MovedRow<V>(bs: seq<Bucket<V>>, m: map<Key, V>, i: nat, cs: bool)
    requires Holds(bs, m, cs) && i < |bs|
    ensures Moved(bs, m, i, |bs[i].keys|, cs) == Moved(bs, m, i + 1, 0, cs)
  {
    forall k | k in m ensures Slot(bs[Place(k, |bs|)].keys, k, cs) < |bs[Place(k, |bs|)].keys| {
      HoldsAt(bs, m, k, cs);
    }
  }

  lemma MovedEnds<V>(bs: seq<Bucket<V>>, m: map<Key, V>, cs: bool)
    requires Holds(bs, m, cs)
    ensures Moved(bs, m, 0, 0, cs) == map[] && Moved(bs, m, |bs|, 0, cs) == m
  {
  }

  // ---- CHashtable ---------------------------------------------------------------------------

  // No bucket has more than three keys, unless memory cannot serve twice as many buckets.
  predicate Thin<V>(bs: seq<Bucket<V>>, limit: nat) {
    2 * |bs| > limit || forall i :: 0 <= i < |bs| ==> |bs[i].keys| <= 3
  }

  lemma ThinWithout<V>(bs: seq<Bucket<V>>, limit: nat, i: nat, a: nat)
    requires Thin(bs, limit) && i < |bs| && a < |bs[i].keys| && Even(bs[i])
    ensures Thin(bs[i := WithoutEntry(bs[i], a)], limit)
  {
  }

  lemma ThinWith<V>(bs: seq<Bucket<V>>, limit: nat, i: nat, b: Bucket<V>)
    requires Thin(bs, limit) && i < |bs|
    ensures |b.keys| <= 3 || 2 * |bs| > limit ==> Thin(bs[i := b], limit)
  {
  }

  lemma ThinEmpty<V>(n: nat, limit: nat)
    ensures Thin<V>(NoBuckets(n), limit)
  {
  }

  class Table<V> {
    const caseSensitive: bool
    const limit: nat                 // the largest bucket count malloc has memory for
    var hasDestructor: bool
    var buckets: seq<Bucket<V>>
    var bucketCount: nat
    var lengthCache: int
    ghost var contents: map<Key, V>  // by folded key
    ghost var destroyed: seq<V>      // the values the destructor function was called for

    ghost predicate Valid()
      reads this
    {
      bucketCount == |buckets| && Holds(buckets, contents, caseSensitive) && lengthCache == |contents|
    }

    constructor (caseSensitive: bool, limit: nat)
      ensures Valid() && contents == map[] && destroyed == [] && bucketCount == 32 && !hasDestructor
      ensures this.caseSensitive == caseSensitive && this.limit == limit && Thin(buckets, limit)
    {
      this.caseSensitive, this.limit, hasDestructor := caseSensitive, limit, false;
      buckets, bucketCount, lengthCache := NoBuckets(32), 32, 0;
      contents, destroyed := map[], [];
      EmptyHolds<V>(32, caseSensitive);
    }

    method RegisterValueDestructor()
      modifies this`hasDestructor
      ensures hasDestructor
    {
      hasDestructor := true;
    }

    // strcmp or strcasecmp
    predicate Same(a: Key, b: Key) {
      Fold(a, caseSensitive) == Fold(b, caseSensitive)
    }

    method BucketOf(key: Key) returns (i: nat)
      requires Valid()
      ensures i < |buckets| && i == Place(Fold(key, caseSensitive), |buckets|)
    {
      var h := Hash(key, caseSensitive);
      i := h % bucketCount;
    }

    method Get(key: Key) returns (r: Option<V>)
      requires Valid()
      ensures r == var k := Fold(key, caseSensitive); if k in contents then Some(contents[k]) else None
    {
      hide Fold, Holds;
      var i := BucketOf(key);
      var list := buckets[i];
      ghost var k := Fold(key, caseSensitive);
      HoldsAt(buckets, contents, k, caseSensitive);
      if |list.keys| == 0 {
        return None;
      }
      for a := 0 to |list.keys|
        invariant forall j :: 0 <= j < a ==> Fold(list.keys[j], caseSensitive) != k
      {
        if Same(list.keys[a], key) {
          return Some(list.values[a]);
        }
      }
      return None;
    }

    method GetLength() returns (n: int)
      requires Valid()
      ensures n == |contents|
    {
      n := lengthCache;
    }

    // Takes slot a out of bucket i.
    method TakeOut(i: nat, a: nat, dontDestroy: bool)
      requires Valid() && i < |buckets| && a < |buckets[i].keys| && Even(buckets[i])
      modifies this`buckets, this`lengthCache, this`contents, this`destroyed
      ensures Valid()
      ensures var k := Fold(old(buckets)[i].keys[a], caseSensitive);
        && k in old(contents) && contents == old(contents) - {k}
        && destroyed == old(destroyed) + if hasDestructor && !dontDestroy then [old(contents)[k]] else []
      ensures |buckets| == old(|buckets|) && (old(Thin(buckets, limit)) ==> Thin(buckets, limit))
    {
      hide Holds, Thin;
      if Thin(buckets, limit) {
        ThinWithout(buckets, limit, i, a);
      }
      var list := buckets[i];
      ghost var k := Fold(list.keys[a], caseSensitive);
      RemoveHolds(buckets, contents, i, a, caseSensitive);
      if hasDestructor && !dontDestroy {
        destroyed := destroyed + [list.values[a]];
      }
      buckets := buckets[i := WithoutEntry(list, a)];
      contents := contents - {k};
      lengthCache := lengthCache - 1;
    }

    method Remove(key: Key, dontDestroy: bool)
      requires Valid()
      modifies this`buckets, this`lengthCache, this`contents, this`destroyed
      ensures Valid()
      ensures var k := Fold(key, caseSensitive);
        && contents == old(contents) - {k}
        && destroyed == old(destroyed) +
             if k in old(contents) && hasDestructor && !dontDestroy then [old(contents)[k]] else []
      ensures |buckets| == old(|buckets|) && (old(Thin(buckets, limit)) ==> Thin(buckets, limit))
    {
      hide Fold, Holds, Thin;
      var i := BucketOf(key);
      var list := buckets[i];
      ghost var k := Fold(key, caseSensitive);
      HoldsAt(buckets, contents, k, caseSensitive);
      if |list.keys| == 0 {
      } else if |list.keys| == 1 && Same(list.keys[0], key) {
        TakeOut(i, 0, dontDestroy);
      } else {
        for a := 0 to |list.keys|
          invariant Valid() && buckets == old(buckets) && contents == old(contents) && destroyed == old(destroyed)
          invariant forall j :: 0 <= j < a ==> Fold(list.keys[j], caseSensitive) != k
        {
          if Same(list.keys[a], key) {
            TakeOut(i, a, dontDestroy);
            return;
          }
        }
        assert Slot(list.keys, k, caseSensitive) == |list.keys|;
      }
    }

    // How many more doublings memory could serve, for termination.
    ghost function Room(): nat
      reads this`bucketCount
    {
      if limit > bucketCount then limit - bucketCount else 0
    }

    // Puts a key that is not there into its bucket.
    method Append(key: Key, value: V) returns (count: nat)
      requires Valid() && Fold(key, caseSensitive) !in contents
      modifies this`buckets, this`lengthCache, this`contents
      ensures Valid() && contents == old(contents)[Fold(key, caseSensitive) := value]
      ensures count <= 3 && old(Thin(buckets, limit)) ==> Thin(buckets, limit)
    {
      hide Fold, Holds, Proper, Thin;
      var i := BucketOf(key);
      var list := buckets[i];
      if Thin(buckets, limit) {
        ThinWith(buckets, limit, i, Bucket(list.keys + [key], list.values + [value]));
      }
      AddHolds(buckets, contents, key, value, caseSensitive);
      buckets := buckets[i := Bucket(list.keys + [key], list.values + [value])];
      contents := contents[Fold(key, caseSensitive) := value];
      lengthCache := lengthCache + 1;
      count := |list.keys| + 1;
    }

    method Add(key: Key, value: V)
      requires Valid()
      modifies this`buckets, this`bucketCount, this`lengthCache, this`contents, this`destroyed
      ensures Valid() && bucketCount >= old(bucketCount)
      ensures var k := Fold(key, caseSensitive);
        && contents == old(contents)[k := value]
        && destroyed == old(destroyed) + if k in old(contents) && hasDestructor then [old(contents)[k]] else []
      ensures old(Thin(buckets, limit)) ==> Thin(buckets, limit)
      decreases Room(), 1
    {
      hide Fold, Holds, Valid, Thin;
      Remove(key, false);
      var count := Append(key, value);
      if count > 3 {
        Rehash();
      }
    }

    // Twice as many buckets, unless malloc fails. No value is destroyed on the way.
    method Rehash()
      requires Valid()
      modifies this`buckets, this`bucketCount, this`lengthCache, this`contents, this`destroyed
      ensures Valid() && bucketCount >= old(bucketCount)
      ensures contents == old(contents) && destroyed == old(destroyed)
      ensures 2 * old(bucketCount) <= limit ==> bucketCount >= 2 * old(bucketCount)
      ensures Thin(buckets, limit)
      decreases Room(), 0
    {
      hide Fold, Holds, Moved;
      ThinEmpty<V>(2 * bucketCount, limit);
      if 2 * bucketCount > limit {
        return;
      }
      ghost var m := contents;
      var oldBuckets, oldBucketCount := buckets, bucketCount;
      EvenBuckets(oldBuckets, m, caseSensitive);
      MovedEnds(oldBuckets, m, caseSensitive);
      EmptyHolds<V>(2 * bucketCount, caseSensitive);
      bucketCount := bucketCount * 2;
      buckets, lengthCache, contents := NoBuckets(bucketCount), 0, map[];
      for i := 0 to oldBucketCount
        invariant Valid() && bucketCount >= 2 * oldBucketCount && destroyed == old(destroyed)
        invariant contents == Moved(oldBuckets, m, i, 0, caseSensitive) && Thin(buckets, limit)
      {
        MoveRow(oldBuckets, i, m);
      }
    }

    // The inner loop of Rehash: the entries of one old bucket.
    method MoveRow(oldBuckets: seq<Bucket<V>>, i: nat, ghost m: map<Key, V>)
      requires Valid() && Holds(oldBuckets, m, caseSensitive) && i < |oldBuckets|
      requires contents == Moved(oldBuckets, m, i, 0, caseSensitive)
      modifies this`buckets, this`bucketCount, this`lengthCache, this`contents, this`destroyed
      ensures Valid() && bucketCount >= old(bucketCount) && destroyed == old(destroyed)
      ensures contents == Moved(oldBuckets, m, i + 1, 0, caseSensitive)
      ensures old(Thin(buckets, limit)) ==> Thin(buckets, limit)
      decreases Room(), 2
    {
      hide Fold, Holds, Valid, Moved, Thin;
      var list := oldBuckets[i];
      for a := 0 to |list.keys|
        invariant Valid() && bucketCount >= old(bucketCount) && destroyed == old(destroyed)
        invariant contents == Moved(oldBuckets, m, i, a, caseSensitive)
        invariant old(Thin(buckets, limit)) ==> Thin(buckets, limit)
      {
        MovedStep(oldBuckets, m, i, a, caseSensitive);
        Add(list.keys[a], list.values[a]);
      }
      MovedRow(oldBuckets, m, i, caseSensitive);
    }

    // Every value is handed to the destructor function once, in the order of Iterate.
    method Clear()
      requires Valid()
      modifies this`buckets, this`lengthCache, this`contents, this`destroyed
      ensures Valid() && contents == map[] && |buckets| == old(|buckets|) && Thin(buckets, limit)
      ensures destroyed == old(destroyed) + if hasDestructor then ValuesOf(old(Listing())) else []
    {
      hide Fold, Holds, Flatten, ValuesOf;
      EvenBuckets(buckets, contents, caseSensitive);
      var gone := DestroyAll(buckets, hasDestructor);
      destroyed := destroyed + gone;
      buckets, lengthCache, contents := NoBuckets(bucketCount), 0, map[];
      EmptyHolds<V>(bucketCount, caseSensitive);
      ThinEmpty<V>(bucketCount, limit);
    }

    // The table's entries in the order Iterate numbers them.
    ghost function Listing(): seq<(Key, V)>
      requires Valid()
      reads this
    {
      EvenBuckets(buckets, contents, caseSensitive);
      Flatten(buckets)
    }

    // Iterate. If the cache stands one entry before in this table, the scan resumes there,
    // at the place the table has by then; otherwise it starts over.
    method Iterate(index: int, cache: IterateCache<V>) returns (r: Option<(Key, V)>)
      requires Valid()
      modifies cache
      ensures var n: int := if old(cache.owner) == this && old(cache.index) == index - 1
                            then Pos(buckets, old(cache.i), old(cache.a)) + 1 else index;
        && r == (if 0 <= n < |Listing()| then Some(Listing()[n]) else None)
        && if r == None then cache.Same(old(cache.owner), old(cache.index), old(cache.i), old(cache.a))
           else cache.owner == this && cache.index == index && cache.Stands(n)
      // with a cache that fits, the entry of that index, and the cache fits again
      ensures old(cache.Fits()) ==>
        cache.Fits() && r == if 0 <= index < |Listing()| then Some(Listing()[index]) else None
    {
      hide Flatten, Holds, Offset;
      EvenBuckets(buckets, contents, caseSensitive);
      var i: nat, a: nat, skip: int := 0, 0, 0;
      if cache.owner == this && cache.index == index - 1 {
        i, a, skip := cache.i, cache.a, cache.index;
        PosAt(buckets, i, a);
      } else {
        PosAt(buckets, 0, 0);
      }
      var found;
      found, i, a := ScanBuckets(buckets, i, a, skip, index);
      if !found {
        return None;
      }
      cache.index, cache.i, cache.a, cache.owner := index, i, a, this;
      return Some((buckets[i].keys[a], buckets[i].values[a]));
    }
  }

  // ---- iteration ------------------------------------------------------------------------------

  // The entries in bucket order.
  function Entries<V>(b: Bucket<V>): (r: seq<(Key, V)>)
    requires Even(b)
    ensures |r| == |b.keys| && forall a :: 0 <= a < |r| ==> r[a] == (b.keys[a], b.values[a])
  {
    seq(|b.keys|, a requires 0 <= a < |b.keys| => (b.keys[a], b.values[a]))
  }

  function Flatten<V>(bs: seq<Bucket<V>>): seq<(Key, V)>
    requires forall i :: 0 <= i < |bs| ==> Even(bs[i])
  {
    if bs == [] then [] else Flatten(bs[..|bs| - 1]) + Entries(bs[|bs| - 1])
  }

  function ValuesOf<V>(l: seq<(Key, V)>): seq<V> {
    seq(|l|, n requires 0 <= n < |l| => l[n].1)
  }

  lemma FlattenPart<V>(bs: seq<Bucket<V>>, i: nat)
    requires i <= |bs| && forall j :: 0 <= j < |bs| ==> Even(bs[j])
    ensures ValuesOf(Flatten(bs[..0])) == []
    ensures i < |bs| ==> ValuesOf(Flatten(bs[..i + 1])) == ValuesOf(Flatten(bs[..i])) + bs[i].values
  {
    if i < |bs| {
      var part := bs[..i + 1];
      assert part[..i] == bs[..i] && part[i] == bs[i];
    }
  }

  // The loops of Clear: the values that the destructor function is called for.
  method DestroyAll<V>(bs: seq<Bucket<V>>, hasDestructor: bool) returns (gone: seq<V>)
    requires forall j :: 0 <= j < |bs| ==> Even(bs[j])
    ensures gone == if hasDestructor then ValuesOf(Flatten(bs)) else []
  {
    hide ValuesOf, Flatten;
    gone := [];
    FlattenPart(bs, 0);
    for i := 0 to |bs|
      invariant gone == if hasDestructor then ValuesOf(Flatten(bs[..i])) else []
    {
      FlattenPart(bs, i);
      if hasDestructor {
        for a := 0 to |bs[i].keys|
          invariant gone == ValuesOf(Flatten(bs[..i])) + bs[i].values[..a]
        {
          gone := gone + [bs[i].values[a]];
        }
        assert bs[i].values[..|bs[i].keys|] == bs[i].values;
      }
    }
    assert bs[..|bs|] == bs;
  }

  // How many entries stand before bucket i.
  function Offset<V>(bs: seq<Bucket<V>>, i: nat): nat
    requires i <= |bs|
  {
    if i == 0 then 0 else Offset(bs, i - 1) + |bs[i - 1].keys|
  }

  // How many entries stand before slot a of bucket i, neither of which need exist.
  function Pos<V>(bs: seq<Bucket<V>>, i: nat, a: nat): nat {
    if i >= |bs| then Offset(bs, |bs|)
    else Offset(bs, i) + if a < |bs[i].keys| then a else |bs[i].keys|
  }

  lemma PosAt<V>(bs: seq<Bucket<V>>, i: nat, a: nat)
    ensures i < |bs| && a <= |bs[i].keys| ==> Pos(bs, i, a) == Offset(bs, i) + a
    ensures bs != [] ==> Pos(bs, 0, 0) == 0
  {
  }

  // The two loops of Iterate: the entry met when skip has counted up to index.
  method ScanBuckets<V>(bs: seq<Bucket<V>>, i0: nat, a0: nat, skip0: int, index: int)
      returns (found: bool, i: nat, a: nat)
    requires forall j :: 0 <= j < |bs| ==> Even(bs[j])
    ensures var n := Pos(bs, i0, a0) + index - skip0;
      && (found <==> skip0 <= index && n < |Flatten(bs)|)
      && (found ==> i < |bs| && a < |bs[i].keys| && Offset(bs, i) + a == n
                    && Flatten(bs)[n] == (bs[i].keys[a], bs[i].values[a]))
  {
    hide Flatten, Offset, Pos;
    FlattenLength(bs);
    i, a := i0, a0;
    var skip := skip0;
    var first := true;
    while i < |bs|
      invariant first ==> i == i0 && a == a0
      invariant skip0 <= skip && (skip0 <= index ==> skip <= index)
      invariant skip - skip0 == Pos(bs, i, if first then a else 0) - Pos(bs, i0, a0)
      invariant !first ==> i <= |bs|
    {
      if !first {
        a := 0;
      }
      first := false;
      PosEnds(bs, i, a);
      while a < |bs[i].keys|
        invariant skip0 <= skip && (skip0 <= index ==> skip <= index)
        invariant skip - skip0 == Pos(bs, i, a) - Pos(bs, i0, a0)
      {
        PosNext(bs, i, a);
        if skip == index {
          FlattenAt(bs, i, a);
          return true, i, a;
        }
        a, skip := a + 1, skip + 1;
      }
      PosEnds(bs, i, a);
      i := i + 1;
    }
    PosPast(bs, i, if first then a else 0);
    found := false;
  }

  lemma PosNext<V>(bs: seq<Bucket<V>>, i: nat, a: nat)
    requires i < |bs| && a < |bs[i].keys|
    ensures Pos(bs, i, a) == Offset(bs, i) + a && Pos(bs, i, a + 1) == Pos(bs, i, a) + 1
  {
  }

  lemma PosEnds<V>(bs: seq<Bucket<V>>, i: nat, a: nat)
    requires i < |bs|
    ensures a >= |bs[i].keys| ==> Pos(bs, i, a) == Pos(bs, i + 1, 0)
  {
  }

  lemma PosPast<V>(bs: seq<Bucket<V>>, i: nat, a: nat)
    ensures i >= |bs| ==> Pos(bs, i, a) == Offset(bs, |bs|)
  {
  }

  lemma {:induction false} FlattenAt<V>(bs: seq<Bucket<V>>, i: nat, a: nat)
    requires forall j :: 0 <= j < |bs| ==> Even(bs[j])
    requires i < |bs| && a < |bs[i].keys|
    ensures Offset(bs, i) + a < |Flatten(bs)| == Offset(bs, |bs|)
    ensures Flatten(bs)[Offset(bs, i) + a] == (bs[i].keys[a], bs[i].values[a])
  {
    var init := bs[..|bs| - 1];
    FlattenLength(bs);
    FlattenLength(init);
    OffsetPrefix(bs, |bs| - 1, i);
    if i < |init| {
      FlattenAt(init, i, a);
    }
  }

  lemma {:induction false} FlattenLength<V>(bs: seq<Bucket<V>>)
    requires forall j :: 0 <= j < |bs| ==> Even(bs[j])
    ensures |Flatten(bs)| == Offset(bs, |bs|)
  {
    if bs != [] {
      FlattenLength(bs[..|bs| - 1]);
      OffsetPrefix(bs, |bs| - 1, |bs| - 1);
    }
  }

  lemma {:induction false} OffsetPrefix<V>(bs: seq<Bucket<V>>, n: nat, i: nat)
    requires i <= n <= |bs|
    ensures Offset(bs[..n], i) == Offset(bs, i)
    decreases i
  {
    if i > 0 {
      OffsetPrefix(bs, n, i - 1);
    }
  }

  lemma EvenBuckets<V>(bs: seq<Bucket<V>>, m: map<Key, V>, cs: bool)
    requires Holds(bs, m, cs)
    ensures |bs| > 0 && forall i :: 0 <= i < |bs| ==> Even(bs[i])
  {
    assert forall i :: 0 <= i < |bs| ==> Proper(bs[i], i, |bs|, cs);
  }

  // Where the n-th entry stands.
  lemma {:induction false} Locate<V>(bs: seq<Bucket<V>>, n: nat) returns (i: nat, a: nat)
    requires forall j :: 0 <= j < |bs| ==> Even(bs[j])
    requires n < |Flatten(bs)|
    ensures i < |bs| && a < |bs[i].keys| && n == Offset(bs, i) + a
    ensures Flatten(bs)[n] == (bs[i].keys[a], bs[i].values[a])
  {
    var init := bs[..|bs| - 1];
    FlattenLength(init);
    if n < |Flatten(init)| {
      i, a := Locate(init, n);
      OffsetPrefix(bs, |bs| - 1, i);
    } else {
      i, a := |bs| - 1, n - |Flatten(init)|;
      OffsetPrefix(bs, |bs| - 1, i);
    }
    FlattenAt(bs, i, a);
  }

  lemma {:induction false} DistinctSize<T>(s: seq<T>)
    requires forall i, j :: 0 <= i < j < |s| ==> s[i] != s[j]
    ensures |set x | x in s| == |s|
  {
    if s != [] {
      var init, last := s[..|s| - 1], s[|s| - 1];
      DistinctSize(init);
      assert (set x | x in s) == (set x | x in init) + {last};
      assert last !in init;
    }
  }

  // Counting up from 0, Iterate meets every key of the table, each once.
  lemma ListingFaithful<V>(t: Table<V>)
    requires t.Valid()
    ensures var l, cs := t.Listing(), t.caseSensitive;
      && |l| == |t.contents|
      && (forall n :: 0 <= n < |l| ==> Fold(l[n].0, cs) in t.contents && t.contents[Fold(l[n].0, cs)] == l[n].1)
      && (forall n, m :: 0 <= n < m < |l| ==> Fold(l[n].0, cs) != Fold(l[m].0, cs))
      && (forall k :: k in t.contents ==> exists n :: 0 <= n < |l| && Fold(l[n].0, cs) == k)
  {
    hide Fold, Holds, Flatten, Offset;
    var l, cs, bs := t.Listing(), t.caseSensitive, t.buckets;
    EvenBuckets(bs, t.contents, cs);
    forall n | 0 <= n < |l| ensures Fold(l[n].0, cs) in t.contents && t.contents[Fold(l[n].0, cs)] == l[n].1 {
      ListedIsHeld(bs, t.contents, n, cs);
    }
    forall n, m | 0 <= n < m < |l| ensures Fold(l[n].0, cs) != Fold(l[m].0, cs) {
      ListingDistinct(bs, t.contents, n, m, cs);
    }
    forall k | k in t.contents ensures exists n :: 0 <= n < |l| && Fold(l[n].0, cs) == k {
      var n := HeldIsListed(bs, t.contents, k, cs);
    }
    ListingSize(l, t.contents, cs);
  }

  lemma ListedIsHeld<V>(bs: seq<Bucket<V>>, m: map<Key, V>, n: nat, cs: bool)
    requires Holds(bs, m, cs) && (forall i :: 0 <= i < |bs| ==> Even(bs[i])) && n < |Flatten(bs)|
    ensures var (k, v) := Flatten(bs)[n]; Fold(k, cs) in m && m[Fold(k, cs)] == v
  {
    hide Fold, Holds, Flatten, Offset;
    var i, a := Locate(bs, n);
    RemoveHolds(bs, m, i, a, cs);
  }

  lemma HeldIsListed<V>(bs: seq<Bucket<V>>, m: map<Key, V>, k: Key, cs: bool) returns (n: nat)
    requires Holds(bs, m, cs) && (forall i :: 0 <= i < |bs| ==> Even(bs[i])) && k in m
    ensures n < |Flatten(bs)| && Fold(Flatten(bs)[n].0, cs) == k
  {
    hide Fold, Holds, Flatten, Offset;
    HoldsAt(bs, m, k, cs);
    var i := Place(k, |bs|);
    var a := Slot(bs[i].keys, k, cs);
    FlattenAt(bs, i, a);
    n := Offset(bs, i) + a;
  }

  lemma ListingSize<V>(l: seq<(Key, V)>, m: map<Key, V>, cs: bool)
    requires forall n :: 0 <= n < |l| ==> Fold(l[n].0, cs) in m
    requires forall n, o :: 0 <= n < o < |l| ==> Fold(l[n].0, cs) != Fold(l[o].0, cs)
    requires forall k :: k in m ==> exists n :: 0 <= n < |l| && Fold(l[n].0, cs) == k
    ensures |l| == |m|
  {
    hide Fold;
    var ks := seq(|l|, n requires 0 <= n < |l| => Fold(l[n].0, cs));
    DistinctSize(ks);
    forall k | k in m ensures k in ks {
      var n :| 0 <= n < |l| && Fold(l[n].0, cs) == k;
      assert ks[n] == k;
    }
    assert (set k | k in ks) == m.Keys;
  }

  lemma ListingDistinct<V>(bs: seq<Bucket<V>>, m: map<Key, V>, n: nat, o: nat, cs: bool)
    requires Holds(bs, m, cs) && forall i :: 0 <= i < |bs| ==> Even(bs[i])
    requires n < o < |Flatten(bs)|
    ensures Fold(Flatten(bs)[n].0, cs) != Fold(Flatten(bs)[o].0, cs)
  {
    hide Fold, Flatten, Offset;
    var i, a := Locate(bs, n);
    var j, c := Locate(bs, o);
    assert Proper(bs[i], i, |bs|, cs) && Proper(bs[j], j, |bs|, cs);
    if i == j {
      assert a != c;
    }
  }

  // The function-local statics of Iterate, one set for all tables of a type.
  class IterateCache<V> {
    var owner: Table?<V>
    var index: int
    var i: nat
    var a: nat

    constructor ()
      ensures owner == null && Fits()
    {
      owner, index, i, a := null, 0, 0, 0;
    }

    predicate Same(owner: Table?<V>, index: int, i: nat, a: nat)
      reads this
    {
      this.owner == owner && this.index == index && this.i == i && this.a == a
    }

    // The place kept is that of the n-th entry of the owner.
    ghost predicate Stands(n: int)
      reads this, if owner == null then {} else {owner}
    {
      owner != null && i < |owner.buckets| && a < |owner.buckets[i].keys| && Offset(owner.buckets, i) + a == n
    }

    // The place kept is where the entry of that index stands in the owner.
    ghost predicate Fits()
      reads this, if owner == null then {} else {owner}
    {
      owner != null ==> Stands(index)
    }
  }
}
