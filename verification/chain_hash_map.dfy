/** ChainHashMap.java, the bucket layer: a fixed array of unsorted table
    maps, one per hash value, and the entry count `size`.

    Which bucket a key belongs to is decided by the hash function of the
    abstract superclass, which is not part of this model: every operation
    takes the bucket index h as given, 0 <= h < capacity. */
module ChainHashMap {
  import opened Wrappers
  import UnsortedTableMap

  type Bucket<K, V> = UnsortedTableMap.Map<K, V>

  /** The fields the bucket layer uses: the bucket array, the capacity and
      the entry count (the last two belong to the superclass). */
  datatype HashMap<K, V> = HashMap(table: seq<Bucket<K, V>>, capacity: int, size: int)

  /** The number of entries in all buckets together. */
  function Total<K, V>(t: seq<Bucket<K, V>>): nat
  {
    if |t| == 0 then 0 else Total(t[..|t| - 1]) + |t[|t| - 1].table|
  }

  /** The object invariant: one bucket per unit of capacity, each a valid
      table map, and `size` counting their entries. */
  ghost predicate Valid<K, V>(m: HashMap<K, V>)
  {
    && |m.table| == m.capacity
    && (forall h :: 0 <= h < |m.table| ==> UnsortedTableMap.Valid(m.table[h]))
    && m.size == Total(m.table)
  }

  /** Replacing bucket h changes the total by the difference in its size. */
  lemma {:induction false} TotalUpdate<K, V>(t: seq<Bucket<K, V>>, h: int, b: Bucket<K, V>)
    requires 0 <= h < |t|
    ensures Total(t[h := b]) == Total(t) - |t[h].table| + |b.table|
  {
    var u := t[h := b];
    if h < |t| - 1 {
      assert u[..|u| - 1] == t[..|t| - 1][h := b];
      TotalUpdate(t[..|t| - 1], h, b);
    } else {
      assert u[..|u| - 1] == t[..|t| - 1];
    }
  }

  /** Buckets that are all empty hold no entries. */
  lemma {:induction false} TotalEmpty<K, V>(t: seq<Bucket<K, V>>)
    requires forall h :: 0 <= h < |t| ==> t[h].table == []
    ensures Total(t) == 0
  {
    if |t| > 0 {
      TotalEmpty(t[..|t| - 1]);
    }
  }

  /** createTable(): a table of `capacity` new empty buckets; a negative
      capacity fails to allocate the array. */
  function CreateTable<K, V>(capacity: int): Result<seq<Bucket<K, V>>>
  {
    if capacity < 0 then Failure(NegativeArraySize)
    else Success(seq(capacity, _ => UnsortedTableMap.Empty()))
  }

  /** createTable fails exactly for a negative capacity; otherwise every
      bucket is a valid empty table map and the buckets hold no entries. */
  lemma CreateTableSpec<K, V>(capacity: int)
    ensures CreateTable<K, V>(capacity).Success? <==> capacity >= 0
    ensures CreateTable<K, V>(capacity).Failure? ==> CreateTable<K, V>(capacity).error == NegativeArraySize
    ensures CreateTable<K, V>(capacity).Success? ==>
              var t := CreateTable<K, V>(capacity).value;
              && |t| == capacity && Total(t) == 0
              && forall h :: 0 <= h < capacity ==> UnsortedTableMap.Valid(t[h]) && t[h].table == []
  {
    if capacity >= 0 {
      var t := CreateTable<K, V>(capacity).value;
      UnsortedTableMap.EmptySpec<K, V>();
      TotalEmpty(t);
    }
  }

  /** bucketGet(h, k): get(k) on bucket h. */
  function BucketGet<K(==), V>(m: HashMap<K, V>, h: int, k: K): (r: Option<V>)
    requires 0 <= h < |m.table|
    ensures r.None? <==> forall j :: 0 <= j < |m.table[h].table| ==> m.table[h].table[j].key != k
    ensures r.Some? ==> UnsortedTableMap.Entry(k, r.value) in m.table[h].table
  {
    UnsortedTableMap.Get(m.table[h], k)
  }

  /** bucketPut(h, k, v) as written: when bucketGet finds k, nothing changes
      and the found value is returned; otherwise k goes into bucket h with
      value v, size grows by one and null is returned. */
  function BucketPut<K(==,!new), V>(m: HashMap<K, V>, h: int, k: K, v: V): (r: (HashMap<K, V>, Option<V>))
    requires 0 <= h < |m.table|
    ensures |r.0.table| == |m.table|
    ensures r.1 == BucketGet(m, h, k)
    ensures r.1.Some? ==> r.0 == m
    ensures r.1.None? ==>
              && BucketGet(r.0, h, k) == Some(v)
              && r.0.size == m.size + 1
    ensures forall k' :: k' != k ==> BucketGet(r.0, h, k') == BucketGet(m, h, k')
    ensures forall g :: 0 <= g < |m.table| && g != h ==> r.0.table[g] == m.table[g]
    ensures Valid(m) ==> Valid(r.0)
  {
    var e := BucketGet(m, h, k);
    if e.None? then
      var b := UnsortedTableMap.Put(m.table[h], k, v).0;
      TotalUpdate(m.table, h, b);
      (m.(table := m.table[h := b], size := m.size + 1), e)
    else (m, e)
  }

  /** bucketRemove(h, k): when bucketGet finds k, it is removed from bucket
      h and size drops by one; otherwise nothing changes. Returns what
      bucketGet found. */
  function BucketRemove<K(==,!new), V>(m: HashMap<K, V>, h: int, k: K): (r: (HashMap<K, V>, Option<V>))
    requires 0 <= h < |m.table|
    ensures |r.0.table| == |m.table|
    ensures r.1 == BucketGet(m, h, k)
    ensures r.1.None? ==> r.0 == m
    ensures r.1.Some? ==> r.0.size == m.size - 1
    ensures forall k' :: k' != k ==> BucketGet(r.0, h, k') == BucketGet(m, h, k')
    ensures forall g :: 0 <= g < |m.table| && g != h ==> r.0.table[g] == m.table[g]
    ensures Valid(m) ==> Valid(r.0) && BucketGet(r.0, h, k).None?
  {
    var e := BucketGet(m, h, k);
    if e.Some? then
      var b := UnsortedTableMap.Remove(m.table[h], k).0;
      TotalUpdate(m.table, h, b);
      (m.(table := m.table[h := b], size := m.size - 1), e)
    else (m, e)
  }

  /** The entries of the buckets, bucket 0 first, each bucket in its own
      order. */
  ghost function Flatten<K, V>(t: seq<Bucket<K, V>>): seq<UnsortedTableMap.Entry<K, V>>
  {
    if |t| == 0 then [] else Flatten(t[..|t| - 1]) + t[|t| - 1].table
  }

  /** entrySet(): a list built by appending, for i from 0 to capacity - 1,
      every entry of bucket i in its iteration order. */
  method EntrySet<K, V>(m: HashMap<K, V>) returns (entries: seq<UnsortedTableMap.Entry<K, V>>)
    requires |m.table| == m.capacity
    ensures entries == Flatten(m.table)
  {
    entries := [];
    var i := 0;
    while i < m.capacity
      invariant 0 <= i <= m.capacity
      invariant entries == Flatten(m.table[..i])
    {
      var bucket := m.table[i].table;
      var j := 0;
      while j < |bucket|
        invariant 0 <= j <= |bucket|
        invariant entries == Flatten(m.table[..i]) + bucket[..j]
      {
        entries := entries + [bucket[j]];
        j := j + 1;
      }
      assert m.table[..i + 1][..i] == m.table[..i];
      i := i + 1;
    }
    assert m.table[..i] == m.table;
  }

  /** The entry set holds exactly the buckets' entries, so on a valid map it
      has `size` of them. */
  lemma {:induction false} FlattenHolds<K, V>(t: seq<Bucket<K, V>>)
    ensures |Flatten(t)| == Total(t)
    ensures forall e :: e in Flatten(t) <==> exists h :: 0 <= h < |t| && e in t[h].table
  {
    if |t| > 0 {
      var p := t[..|t| - 1];
      FlattenHolds(p);
      forall e
        ensures e in Flatten(t) <==> exists h :: 0 <= h < |t| && e in t[h].table
      {
        if e in Flatten(p) {
          var h :| 0 <= h < |p| && e in p[h].table;
          assert t[h] == p[h];
        }
        if h :| 0 <= h < |t| && e in t[h].table {
          if h < |t| - 1 {
            assert p[h] == t[h];
          }
        }
      }
    }
  }

  // ---------------------------------------------------------------------------
  // Defect: bucketPut does not replace the value of a key already present
  // ---------------------------------------------------------------------------

  /** bucketPut as written ignores the new value for a key already in the
      bucket: afterwards the key still maps to its old value. */
  lemma BucketPutKeepsOldValue<K(!new), V>(m: HashMap<K, V>, h: int, k: K, u: V, v: V)
    requires 0 <= h < |m.table|
    requires BucketGet(m, h, k) == Some(u) && u != v
    ensures BucketGet(BucketPut(m, h, k, v).0, h, k) == Some(u)
    ensures BucketGet(BucketPut(m, h, k, v).0, h, k) != Some(v)
  {
  }

  /** A concrete instance: in a 17-bucket map holding 1 -> "One" in bucket
      1, bucketPut(1, 1, "Uno") still leaves "One". */
  lemma BucketPutKeepsOldValueExample()
    ensures CreateTable<int, string>(17).Success?
    ensures
      var m0 := HashMap(CreateTable<int, string>(17).value, 17, 0);
      var m1 := BucketPut(m0, 1, 1, "One").0;
      BucketGet(BucketPut(m1, 1, 1, "Uno").0, 1, 1) == Some("One")
  {
    var m0 := HashMap(CreateTable<int, string>(17).value, 17, 0);
    var m1 := BucketPut(m0, 1, 1, "One").0;
    BucketPutKeepsOldValue(m1, 1, 1, "One", "Uno");
  }

  /** bucketPut as its documentation describes it: the table map's put on
      bucket h, which replaces the value of a key already present, with size
      growing only when the key is new. */
  function BucketPutReplacing<K(==,!new), V>(m: HashMap<K, V>, h: int, k: K, v: V): (r: (HashMap<K, V>, Option<V>))
    requires 0 <= h < |m.table|
    ensures |r.0.table| == |m.table|
    ensures r.1 == BucketGet(m, h, k)
    ensures BucketGet(r.0, h, k) == Some(v)
    ensures r.0.size == m.size + (if r.1.None? then 1 else 0)
    ensures forall k' :: k' != k ==> BucketGet(r.0, h, k') == BucketGet(m, h, k')
    ensures forall g :: 0 <= g < |m.table| && g != h ==> r.0.table[g] == m.table[g]
    ensures Valid(m) ==> Valid(r.0)
  {
    var e := BucketGet(m, h, k);
    var b := UnsortedTableMap.Put(m.table[h], k, v).0;
    TotalUpdate(m.table, h, b);
    (m.(table := m.table[h := b], size := m.size + (if e.None? then 1 else 0)), e)
  }

  /** The two agree whenever the key is new to its bucket. */
  lemma BucketPutAgreesOnNewKey<K(!new), V>(m: HashMap<K, V>, h: int, k: K, v: V)
    requires 0 <= h < |m.table| && BucketGet(m, h, k).None?
    ensures BucketPut(m, h, k, v) == BucketPutReplacing(m, h, k, v)
  {
  }
}
