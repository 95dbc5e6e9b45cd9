/** UnsortedTableMap.java: a map kept as an unordered list of key-value
    entries, searched front to back.

    Keys are compared with `equals`, modelled as `==`. Values are never
    null here, so `get` returning null means exactly "no entry". */
module UnsortedTableMap {
  import opened Wrappers

  /** A MapEntry: a key and its value. */
  datatype Entry<K, V> = Entry(key: K, value: V)

  /** The map object: its table of entries, in insertion order. */
  datatype Map<K, V> = Map(table: seq<Entry<K, V>>)

  /** No key occurs in two entries; put and remove keep this. */
  ghost predicate Valid<K, V>(m: Map<K, V>)
  {
    forall i, j :: 0 <= i < j < |m.table| ==> m.table[i].key != m.table[j].key
  }

  /** new UnsortedTableMap(): an empty table. */
  function Empty<K, V>(): Map<K, V>
  {
    Map([])
  }

  /** The new map is valid and holds no entries. */
  lemma EmptySpec<K, V>()
    ensures Valid(Empty<K, V>()) && |Empty<K, V>().table| == 0
  {
  }

  /** The loop of findIndex from position i on: the first index at or after
      i whose key equals `key`, or -1. */
  function FindIndexFrom<K(==), V>(t: seq<Entry<K, V>>, key: K, i: nat): (r: int)
    requires i <= |t|
    ensures r == -1 <==> forall j :: i <= j < |t| ==> t[j].key != key
    ensures r != -1 ==> i <= r < |t| && t[r].key == key
    ensures r != -1 ==> forall j :: i <= j < r ==> t[j].key != key
    decreases |t| - i
  {
    if i == |t| then -1
    else if t[i].key == key then i
    else FindIndexFrom(t, key, i + 1)
  }

  /** findIndex(key): the index of the first entry with an equal key, or -1
      when there is none. */
  function FindIndex<K(==), V>(t: seq<Entry<K, V>>, key: K): (r: int)
    ensures r == -1 <==> forall j :: 0 <= j < |t| ==> t[j].key != key
    ensures r != -1 ==> 0 <= r < |t| && t[r].key == key
    ensures r != -1 ==> forall j :: 0 <= j < r ==> t[j].key != key
  {
    FindIndexFrom(t, key, 0)
  }

  /** size(): the number of entries. */
  function Size<K, V>(m: Map<K, V>): int { |m.table| }

  /** get(key): the value of the first entry with that key, or null. */
  function Get<K(==), V>(m: Map<K, V>, key: K): (r: Option<V>)
    ensures r.None? <==> forall j :: 0 <= j < |m.table| ==> m.table[j].key != key
    ensures r.Some? ==> exists j :: 0 <= j < |m.table| && m.table[j] == Entry(key, r.value)
  {
    var index := FindIndex(m.table, key);
    if index == -1 then None else Some(m.table[index].value)
  }

  /** In a valid map, get(key) is v exactly when the table holds the entry
      (key, v). */
  lemma GetIff<K, V>(m: Map<K, V>, key: K, v: V)
    requires Valid(m)
    ensures Get(m, key) == Some(v) <==> Entry(key, v) in m.table
  {
    if Entry(key, v) in m.table {
      var j :| 0 <= j < |m.table| && m.table[j] == Entry(key, v);
      var index := FindIndex(m.table, key);
      assert index == j;
    }
  }

  /** put(key, value): when get finds a value the first entry with the key
      gets the new value; otherwise a new entry goes at the end. Returns
      what get returned before. Every other key keeps its value. */
  function Put<K(==,!new), V>(m: Map<K, V>, key: K, value: V): (r: (Map<K, V>, Option<V>))
    ensures r.1 == Get(m, key)
    ensures Get(r.0, key) == Some(value)
    ensures forall k :: k != key ==> Get(r.0, k) == Get(m, k)
    ensures |r.0.table| == |m.table| + (if r.1.None? then 1 else 0)
    ensures Valid(m) ==> Valid(r.0)
  {
    var prior := Get(m, key);
    if prior.Some? then
      var i := FindIndex(m.table, key);
      var t := m.table[i := Entry(key, value)];
      PutOthers(m.table, t, key);
      assert FindIndex(t, key) == i;
      (Map(t), prior)
    else
      var t := m.table + [Entry(key, value)];
      PutOthers(m.table, t, key);
      assert forall j :: 0 <= j < |m.table| ==> t[j] == m.table[j] && m.table[j].key != key;
      assert t[|m.table|].key == key;
      assert FindIndex(t, key) == |m.table|;
      (Map(t), prior)
  }

  /** A table that keeps every entry of t whose key is not `key`, in place,
      and has no other entries with such keys, answers get the same way for
      every other key. */
  lemma PutOthers<K, V>(t: seq<Entry<K, V>>, u: seq<Entry<K, V>>, key: K)
    requires |t| <= |u|
    requires forall j :: 0 <= j < |t| && t[j].key != key ==> u[j] == t[j]
    requires forall j :: 0 <= j < |t| && t[j].key == key ==> u[j].key == key
    requires forall j :: |t| <= j < |u| ==> u[j].key == key
    ensures forall k :: k != key ==> Get(Map(u), k) == Get(Map(t), k)
  {
    forall k | k != key
      ensures Get(Map(u), k) == Get(Map(t), k)
    {
      var a := FindIndex(t, k);
      var b := FindIndex(u, k);
      if a == -1 {
        assert b == -1 by {
          forall j | 0 <= j < |u|
            ensures u[j].key != k
          {
            if j < |t| && t[j].key != key {
              assert u[j] == t[j];
            }
          }
        }
      } else {
        assert u[a] == t[a];
        assert b == a by {
          forall j | 0 <= j < a
            ensures u[j].key != k
          {
            if t[j].key != key {
              assert u[j] == t[j];
            }
          }
        }
      }
    }
  }

  /** remove(key): when findIndex finds an entry it is taken out of the
      table and its value returned; otherwise nothing changes and null is
      returned. Every other key keeps its value. */
  function Remove<K(==,!new), V>(m: Map<K, V>, key: K): (r: (Map<K, V>, Option<V>))
    ensures r.1 == Get(m, key)
    ensures r.1.None? ==> r.0 == m
    ensures forall k :: k != key ==> Get(r.0, k) == Get(m, k)
    ensures |r.0.table| == |m.table| - (if r.1.None? then 0 else 1)
    ensures Valid(m) ==> Valid(r.0) && Get(r.0, key).None?
  {
    var index := FindIndex(m.table, key);
    if index != -1 then
      var t := m.table[..index] + m.table[index + 1..];
      RemoveOthers(m.table, index, key);
      (Map(t), Some(m.table[index].value))
    else (m, None)
  }

  /** Taking out the first entry with `key` leaves get unchanged for every
      other key, keeps keys distinct, and leaves no entry with `key` when
      keys were distinct. */
  lemma RemoveOthers<K, V>(t: seq<Entry<K, V>>, i: int, key: K)
    requires 0 <= i < |t| && t[i].key == key
    ensures var u := t[..i] + t[i + 1..];
            && (forall k :: k != key ==> Get(Map(u), k) == Get(Map(t), k))
            && (Valid(Map(t)) ==> Valid(Map(u)) && Get(Map(u), key).None?)
  {
    var u := t[..i] + t[i + 1..];
    assert forall j :: 0 <= j < i ==> u[j] == t[j];
    assert forall j :: i <= j < |u| ==> u[j] == t[j + 1];
    forall k | k != key
      ensures Get(Map(u), k) == Get(Map(t), k)
    {
      var a := FindIndex(t, k);
      if a == -1 {
        assert forall j :: 0 <= j < |u| ==> u[j].key != k;
      } else {
        var a' := if a < i then a else a - 1;
        assert u[a'] == t[a];
        assert FindIndex(u, k) == a';
      }
    }
  }

  // ---------------------------------------------------------------------------
  // EntryIterator
  // ---------------------------------------------------------------------------

  /** The iterator's cursor `j`, the index of the next entry. */
  datatype Iter = Iter(j: int)

  /** entrySet().iterator(): a cursor at the first entry. */
  function Start(): Iter { Iter(0) }

  /** hasNext(): the cursor is before the end of the table. */
  predicate HasNext<K, V>(m: Map<K, V>, it: Iter) { it.j < |m.table| }

  /** next(): NoSuchElementException at the end of the table; otherwise the
      entry at the cursor, with the cursor moved on. A cursor beyond the
      end, or before the start, is out of the table's bounds. */
  function Next<K, V>(m: Map<K, V>, it: Iter): (r: Result<(Entry<K, V>, Iter)>)
    ensures r.Failure? <==> !(0 <= it.j < |m.table|)
    ensures it.j == |m.table| ==> r == Failure(NoSuchElement)
    ensures r.Success? ==> r.value == (m.table[it.j], Iter(it.j + 1))
  {
    if it.j == |m.table| then Failure(NoSuchElement)
    else if it.j < 0 || it.j > |m.table| then Failure(IndexOutOfBounds)
    else Success((m.table[it.j], Iter(it.j + 1)))
  }

  /** k calls of next(), collecting what they return. */
  function Advance<K, V>(m: Map<K, V>, it: Iter, k: nat): Result<(seq<Entry<K, V>>, Iter)>
    decreases k
  {
    if k == 0 then Success(([], it))
    else match Next(m, it)
      case Failure(e) => Failure(e)
      case Success((x, it')) =>
        match Advance(m, it', k - 1)
        case Failure(e) => Failure(e)
        case Success((xs, it'')) => Success(([x] + xs, it''))
  }

  /** Iteration yields the table in order: from a cursor at j, k <= size - j
      calls return the entries j .. j + k - 1 and leave the cursor at j + k;
      one call more than there are entries fails with
      NoSuchElementException. */
  lemma {:induction false} IteratorYieldsTable<K, V>(m: Map<K, V>, j: nat, k: nat)
    requires j <= |m.table|
    ensures j + k <= |m.table| ==> Advance(m, Iter(j), k) == Success((m.table[j..j + k], Iter(j + k)))
    ensures j + k == |m.table| + 1 ==> Advance(m, Iter(j), k) == Failure(NoSuchElement)
    decreases k
  {
    if k > 0 && j < |m.table| {
      IteratorYieldsTable(m, j + 1, k - 1);
      assert Next(m, Iter(j)) == Success((m.table[j], Iter(j + 1)));
      if j + k <= |m.table| {
        assert m.table[j..j + k] == [m.table[j]] + m.table[j + 1..j + k];
      }
    } else if k == 0 {
      assert m.table[j..j] == [];
    }
  }

  /** main(): after putting one, two and three, get finds 1, 2 and 3;
      after removing two, get finds 1, nothing and 3. */
  lemma MainTrace()
    ensures
      var m := Put(Put(Put(Empty<string, int>(), "one", 1).0, "two", 2).0, "three", 3).0;
      var m' := Remove(m, "two").0;
      && [Get(m, "one"), Get(m, "two"), Get(m, "three")] == [Some(1), Some(2), Some(3)]
      && [Get(m', "one"), Get(m', "two"), Get(m', "three")] == [Some(1), None, Some(3)]
  {
    var m1 := Put(Empty<string, int>(), "one", 1).0;
    var m2 := Put(m1, "two", 2).0;
    var m := Put(m2, "three", 3).0;
    assert "two" != "one" && "three" != "one" && "three" != "two";
  }
}
