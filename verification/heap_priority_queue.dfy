/** HeapPriorityQueue.java: a priority queue kept as a binary heap in an array
    list, with the children of index j at 2j+1 and 2j+2.

    The array list is a sequence of entries and each mutating operation is a
    method from the old sequence to the new one. Keys are integers under their
    natural order; the comparator compares keys only, so entries with equal
    keys may come out in either order. */
module HeapPriorityQueue {
  import opened Wrappers

  /** A key-value entry of the queue (PQEntry). */
  datatype PQEntry<V> = PQEntry(key: int, value: V)

  // ---------------------------------------------------------------------------
  // Index arithmetic
  // ---------------------------------------------------------------------------

  /** parent(j): 0 for the root, else (j-1)/2. Java division truncates; for
      j = -1 (heapify of an empty list) that gives -1, as does Dafny's here. */
  function Parent(j: int): (p: int)
    requires j >= -1
    ensures j > 0 ==> 0 <= p < j && (Left(p) == j || Right(p) == j)
    ensures j == 0 ==> p == 0
    ensures j == -1 ==> p == -1
  {
    if j == 0 then 0 else (j - 1) / 2
  }

  function Left(j: int): int { j * 2 + 1 }

  function Right(j: int): int { j * 2 + 2 }

  /** hasLeft(j) / hasRight(j): the child index lies inside the list. */
  predicate HasLeft<V>(h: seq<PQEntry<V>>, j: int) { Left(j) < |h| }

  predicate HasRight<V>(h: seq<PQEntry<V>>, j: int) { Right(j) < |h| }

  /** The children of j are exactly the indices whose parent is j. */
  lemma ChildrenOfParent(j: int, c: int)
    requires j >= 0 && c > 0
    ensures Parent(c) == j <==> c == Left(j) || c == Right(j)
  {
  }

  /** Parents never move right as their children do. */
  lemma ParentMonotone(a: int, b: int)
    requires -1 <= a <= b
    ensures Parent(a) <= Parent(b)
  {
  }

  // ---------------------------------------------------------------------------
  // Heap order
  // ---------------------------------------------------------------------------

  /** The order between index j > 0 and its parent. */
  ghost predicate OrderedAt<V>(h: seq<PQEntry<V>>, j: int)
    requires 0 < j < |h|
  {
    h[Parent(j)].key <= h[j].key
  }

  /** Heap order: no entry's key is below its parent's. */
  ghost predicate HeapOrder<V>(h: seq<PQEntry<V>>)
  {
    forall j :: 0 < j < |h| ==> OrderedAt(h, j)
  }

  /** The condition sanityCheck() reports on: no left or right child compares
      less than its parent. */
  ghost predicate SanityCheck<V>(h: seq<PQEntry<V>>)
  {
    forall j :: 0 <= j < |h| ==>
      && (Left(j) < |h| ==> !(h[Left(j)].key < h[j].key))
      && (Right(j) < |h| ==> !(h[Right(j)].key < h[j].key))
  }

  /** The parent-side and child-side statements of heap order agree. */
  lemma HeapOrderIsSanityCheck<V>(h: seq<PQEntry<V>>)
    ensures HeapOrder(h) <==> SanityCheck(h)
  {
    if HeapOrder(h) {
      forall j | 0 <= j < |h|
        ensures Left(j) < |h| ==> !(h[Left(j)].key < h[j].key)
        ensures Right(j) < |h| ==> !(h[Right(j)].key < h[j].key)
      {
        if Left(j) < |h| { assert OrderedAt(h, Left(j)); }
        if Right(j) < |h| { assert OrderedAt(h, Right(j)); }
      }
    }
    if SanityCheck(h) {
      forall j | 0 < j < |h|
        ensures OrderedAt(h, j)
      {
        var p := Parent(j);
        assert Left(p) == j || Right(p) == j;
      }
    }
  }

  /** In a heap the root holds a least key. */
  lemma {:induction false} RootIsMin<V>(h: seq<PQEntry<V>>, j: int)
    requires HeapOrder(h) && 0 <= j < |h|
    ensures h[0].key <= h[j].key
    decreases j
  {
    if j > 0 {
      assert OrderedAt(h, j);
      RootIsMin(h, Parent(j));
    }
  }

  // ---------------------------------------------------------------------------
  // swap / upheap / downheap / heapify
  // ---------------------------------------------------------------------------

  /** swap(i, j): exchanges two entries, a permutation of the list. */
  function Swap<V>(h: seq<PQEntry<V>>, i: int, j: int): (r: seq<PQEntry<V>>)
    requires 0 <= i < |h| && 0 <= j < |h|
    ensures |r| == |h| && r[i] == h[j] && r[j] == h[i]
    ensures forall k :: 0 <= k < |h| && k != i && k != j ==> r[k] == h[k]
    ensures multiset(r) == multiset(h)
  {
    h[i := h[j]][j := h[i]]
  }

  /** Heap order everywhere except between `i` and its parent, with `i`'s
      children also above `i`'s parent: what upheap keeps while it climbs. */
  ghost predicate HeapBut<V>(h: seq<PQEntry<V>>, i: int)
    requires 0 <= i < |h|
  {
    && (forall j :: 0 < j < |h| && j != i ==> OrderedAt(h, j))
    && (forall j :: 0 < j < |h| && Parent(j) == i && i > 0 ==> h[Parent(i)].key <= h[j].key)
  }

  /** upheap(i): swaps the entry at `i` with its parent while it compares
      less, restoring heap order when only `i` was out of place. */
  method Upheap<V>(h0: seq<PQEntry<V>>, i0: int) returns (h: seq<PQEntry<V>>)
    requires 0 <= i0 < |h0| && HeapBut(h0, i0)
    ensures |h| == |h0| && multiset(h) == multiset(h0)
    ensures HeapOrder(h)
  {
    h := h0;
    var i := i0;
    while h[i].key < h[Parent(i)].key
      invariant |h| == |h0| && 0 <= i < |h|
      invariant multiset(h) == multiset(h0)
      invariant HeapBut(h, i)
      decreases i
    {
      var p := Parent(i);
      var h1 := Swap(h, i, p);
      forall j | 0 < j < |h1| && j != p
        ensures OrderedAt(h1, j)
      {
        if j != i && Parent(j) != i && Parent(j) != p {
          assert OrderedAt(h, j);
        } else if Parent(j) == p && j != i {
          assert OrderedAt(h, j);
        }
      }
      forall j | 0 < j < |h1| && Parent(j) == p && p > 0
        ensures h1[Parent(p)].key <= h1[j].key
      {
        assert OrderedAt(h, p);
        if j != i {
          assert OrderedAt(h, j);
        }
      }
      h, i := h1, p;
    }
    forall j | 0 < j < |h|
      ensures OrderedAt(h, j)
    {
    }
  }

  /** The smaller child downheap(i) compares against: the left child unless a
      right child exists and the left one does not compare strictly less. */
  function SmallerChild<V>(h: seq<PQEntry<V>>, i: int): (c: int)
    requires 0 <= i && HasLeft(h, i)
    ensures (c == Left(i) || c == Right(i)) && i < c < |h| && Parent(c) == i
    ensures forall j :: 0 < j < |h| && Parent(j) == i ==> h[c].key <= h[j].key
  {
    if HasRight(h, i) && !(h[Left(i)].key < h[Right(i)].key) then Right(i) else Left(i)
  }

  /** Heap order at every pair whose parent index is at least `lo`. */
  ghost predicate OrderedFrom<V>(h: seq<PQEntry<V>>, lo: int)
  {
    forall j :: 0 < j < |h| && Parent(j) >= lo ==> OrderedAt(h, j)
  }

  /** Index `k` lies in the subtree rooted at index `r`. */
  predicate InSubtree(r: int, k: int)
    requires r >= 0 && k >= 0
    decreases k
  {
    k == r || (k > r && InSubtree(r, Parent(k)))
  }

  lemma {:induction false} SubtreeOfChild(i: int, c: int, k: int)
    requires i >= 0 && c > 0 && k >= 0 && Parent(c) == i
    ensures InSubtree(c, k) ==> InSubtree(i, k)
    decreases k
  {
    if InSubtree(c, k) && k != c {
      SubtreeOfChild(i, c, Parent(k));
    }
  }

  /** The least key among `i` and its children. */
  function LocalMin<V>(h: seq<PQEntry<V>>, i: int): int
    requires 0 <= i < |h|
  {
    var m := h[i].key;
    var m := if HasLeft(h, i) && h[Left(i)].key < m then h[Left(i)].key else m;
    if HasRight(h, i) && h[Right(i)].key < m then h[Right(i)].key else m
  }

  /** Nodes outside a child's subtree are outside the parent's subtree only
      if they are also not the parent. */
  lemma DownheapFrame<V>(h0: seq<PQEntry<V>>, i: int, c: int, h1: seq<PQEntry<V>>, h: seq<PQEntry<V>>)
    requires 0 <= i < c < |h0| && Parent(c) == i
    requires h1 == Swap(h0, i, c) && |h| == |h1|
    requires forall k :: 0 <= k < |h| && !InSubtree(c, k) ==> h[k] == h1[k]
    ensures forall k :: 0 <= k < |h| && !InSubtree(i, k) ==> h[k] == h0[k]
    ensures h[i] == h0[c]
    ensures forall j :: 0 <= j < |h| && j != c && Parent(j) < c ==> h[j] == h1[j]
  {
    forall k | 0 <= k < |h| && !InSubtree(i, k)
      ensures h[k] == h0[k]
    {
      SubtreeOfChild(i, c, k);
    }
    forall j | 0 <= j < |h| && j != c && Parent(j) < c
      ensures h[j] == h1[j]
    {
      assert !InSubtree(c, Parent(j));
      assert !InSubtree(c, j);
    }
  }

  /** The recursive case of downheap: after swapping `i` with its smaller child
      `c` and downheaping from `c`, every pair from `i` down is ordered. */
  lemma DownheapSwapCase<V>(h0: seq<PQEntry<V>>, i: int, c: int, h1: seq<PQEntry<V>>, h: seq<PQEntry<V>>)
    requires 0 <= i && OrderedFrom(h0, i + 1) && HasLeft(h0, i)
    requires c == SmallerChild(h0, i) && h0[i].key > h0[c].key
    requires h1 == Swap(h0, i, c) && |h| == |h1|
    requires OrderedFrom(h, c) && h[c].key >= LocalMin(h1, c)
    requires forall k :: 0 <= k < |h| && !InSubtree(c, k) ==> h[k] == h1[k]
    ensures OrderedFrom(h, i)
    ensures h[i].key >= LocalMin(h0, i)
    ensures forall k :: 0 <= k < |h| && !InSubtree(i, k) ==> h[k] == h0[k]
  {
    DownheapFrame(h0, i, c, h1, h);
    assert LocalMin(h1, c) >= h0[c].key by {
      if HasLeft(h1, c) { assert OrderedAt(h0, Left(c)); }
      if HasRight(h1, c) { assert OrderedAt(h0, Right(c)); }
    }
    forall j | 0 < j < |h| && Parent(j) >= i
      ensures OrderedAt(h, j)
    {
      if Parent(j) == i && j != c {
        assert h[j] == h1[j];
      } else if i < Parent(j) < c {
        assert h[j] == h1[j] && h[Parent(j)] == h1[Parent(j)];
        assert OrderedAt(h0, j);
      }
    }
  }

  /** downheap(i): while the entry at `i` compares greater than its smaller
      child, swaps them and continues from that child. Below `i` the list was
      a heap; afterwards every pair from `i` down is ordered, and the entry at
      `i` is no less than the least of `i` and its children were. */
  method Downheap<V>(h0: seq<PQEntry<V>>, i: int) returns (h: seq<PQEntry<V>>)
    requires 0 <= i && OrderedFrom(h0, i + 1)
    ensures |h| == |h0| && multiset(h) == multiset(h0)
    ensures OrderedFrom(h, i)
    ensures i < |h| ==> h[i].key >= LocalMin(h0, i)
    ensures forall k :: 0 <= k < |h| && !InSubtree(i, k) ==> h[k] == h0[k]
    decreases |h0| - i
  {
    if !HasLeft(h0, i) && !HasRight(h0, i) {
      h := h0;
      forall j | 0 < j < |h| && Parent(j) >= i
        ensures OrderedAt(h, j)
      {
        if Parent(j) == i {
          ChildrenOfParent(i, j);
        }
      }
      return;
    }
    var c := SmallerChild(h0, i);
    if h0[i].key > h0[c].key {
      var h1 := Swap(h0, i, c);
      assert OrderedFrom(h1, c + 1) by {
        forall j | 0 < j < |h1| && Parent(j) >= c + 1
          ensures OrderedAt(h1, j)
        {
          assert OrderedAt(h0, j);
        }
      }
      h := Downheap(h1, c);
      DownheapSwapCase(h0, i, c, h1, h);
    } else {
      h := h0;
      forall j | 0 < j < |h| && Parent(j) >= i
        ensures OrderedAt(h, j)
      {
      }
    }
  }

  /** heapify(): downheap from parent(size-1) back to the root. */
  method Heapify<V>(h0: seq<PQEntry<V>>) returns (h: seq<PQEntry<V>>)
    ensures |h| == |h0| && multiset(h) == multiset(h0)
    ensures HeapOrder(h)
  {
    h := h0;
    var i := Parent(|h| - 1);
    forall j | 0 < j < |h|
      ensures Parent(j) <= i
    {
      ParentMonotone(j, |h| - 1);
    }
    while i >= 0
      invariant -1 <= i < |h| || (i == 0 && |h| == 0)
      invariant |h| == |h0| && multiset(h) == multiset(h0)
      invariant OrderedFrom(h, i + 1)
      decreases i
    {
      h := Downheap(h, i);
      i := i - 1;
    }
    assert OrderedFrom(h, 0);
  }

  // ---------------------------------------------------------------------------
  // The public operations
  // ---------------------------------------------------------------------------

  /** min(): heap.get(0), which throws IndexOutOfBoundsException on an empty
      queue. */
  function Min<V>(h: seq<PQEntry<V>>): (r: Result<PQEntry<V>>)
    ensures r.Failure? <==> |h| == 0
    ensures r.Failure? ==> r.error == IndexOutOfBounds
    ensures r.Success? ==> r.value in h
    ensures r.Success? && HeapOrder(h) ==> forall e :: e in h ==> r.value.key <= e.key
  {
    if |h| == 0 then Failure(IndexOutOfBounds)
    else
      forall j | 0 <= j < |h| ensures h[0].key <= h[j].key || !HeapOrder(h) {
        if HeapOrder(h) { RootIsMin(h, j); }
      }
      Success(h[0])
  }

  /** insert(key, value): appends the new entry, upheaps it and returns it. */
  method Insert<V>(h0: seq<PQEntry<V>>, k: int, v: V) returns (h: seq<PQEntry<V>>, e: PQEntry<V>)
    requires HeapOrder(h0)
    ensures e == PQEntry(k, v)
    ensures |h| == |h0| + 1 && multiset(h) == multiset(h0) + multiset{e}
    ensures HeapOrder(h)
  {
    e := PQEntry(k, v);
    var h1 := h0 + [e];
    assert HeapBut(h1, |h0|) by {
      forall j | 0 < j < |h1| && j != |h0|
        ensures OrderedAt(h1, j)
      {
        assert OrderedAt(h0, j);
      }
    }
    h := Upheap(h1, |h0|);
  }

  /** removeMin(): moves the last entry to the root, drops the last slot and
      downheaps from the root; throws on an empty queue, as min() does. */
  method RemoveMin<V>(h0: seq<PQEntry<V>>) returns (r: Result<(seq<PQEntry<V>>, PQEntry<V>)>)
    requires HeapOrder(h0)
    ensures r.Failure? <==> |h0| == 0
    ensures r.Failure? ==> r.error == IndexOutOfBounds
    ensures r.Success? ==> |r.value.0| == |h0| - 1
    ensures r.Success? ==> multiset(r.value.0) + multiset{r.value.1} == multiset(h0)
    ensures r.Success? ==> HeapOrder(r.value.0)
    ensures r.Success? ==> forall e :: e in h0 ==> r.value.1.key <= e.key
  {
    var m := Min(h0);
    if m.Failure? {
      return Failure(m.error);
    }
    var e := m.value;
    var n := |h0|;
    var h1 := Swap(h0, 0, n - 1)[..n - 1];
    assert multiset(h1) + multiset{e} == multiset(h0) by {
      var s := Swap(h0, 0, n - 1);
      assert s == h1 + [s[n - 1]];
    }
    assert OrderedFrom(h1, 1) by {
      forall j | 0 < j < |h1| && Parent(j) >= 1
        ensures OrderedAt(h1, j)
      {
        assert OrderedAt(h0, j);
      }
    }
    var h := Downheap(h1, 0);
    assert HeapOrder(h) by {
      forall j | 0 < j < |h|
        ensures OrderedAt(h, j)
      {
      }
    }
    return Success((h, e));
  }

  // ---------------------------------------------------------------------------
  // The array constructor
  // ---------------------------------------------------------------------------

  /** The entries the constructor loop pairs up as written: it runs over all of
      `keys` and reads `values[i]`, so a shorter `values` throws. */
  function PairAsWritten<V>(keys: seq<int>, values: seq<V>): (r: Result<seq<PQEntry<V>>>)
    ensures r.Success? <==> |keys| <= |values|
    ensures r.Success? ==> |r.value| == |keys|
    ensures r.Success? ==> forall i :: 0 <= i < |keys| ==> r.value[i] == PQEntry(keys[i], values[i])
  {
    if |values| < |keys| then Failure(IndexOutOfBounds)
    else Success(seq(|keys|, i requires 0 <= i < |keys| => PQEntry(keys[i], values[i])))
  }

  /** The documented pairing: entries up to the length of the shorter array. */
  function PairUpToShorter<V>(keys: seq<int>, values: seq<V>): (r: seq<PQEntry<V>>)
    ensures |r| == if |keys| < |values| then |keys| else |values|
    ensures forall i :: 0 <= i < |r| ==> r[i] == PQEntry(keys[i], values[i])
  {
    var n := if |keys| < |values| then |keys| else |values|;
    seq(n, i requires 0 <= i < n => PQEntry(keys[i], values[i]))
  }

  /** One key more than values: the loop as written throws where the
      documentation promises a one-entry queue. */
  lemma ShorterValuesThrow()
    ensures PairAsWritten([1, 2], [true]).Failure?
    ensures |PairUpToShorter([1, 2], [true])| == 1
  {
  }

  /** Wherever the loop as written succeeds, it agrees with the documented pairing. */
  lemma PairAgreesWhenLongEnough<V>(keys: seq<int>, values: seq<V>)
    ensures PairAsWritten(keys, values).Success? ==>
      PairAsWritten(keys, values).value == PairUpToShorter(keys, values)
  {
  }

  /** HeapPriorityQueue(keys, values), with the documented pairing: the paired
      entries, heapified. */
  method FromArrays<V>(keys: seq<int>, values: seq<V>) returns (h: seq<PQEntry<V>>)
    ensures multiset(h) == multiset(PairUpToShorter(keys, values))
    ensures HeapOrder(h)
  {
    var entries: seq<PQEntry<V>> := [];
    var i := 0;
    var n := if |keys| < |values| then |keys| else |values|;
    while i < n
      invariant 0 <= i <= n
      invariant entries == PairUpToShorter(keys, values)[..i]
    {
      entries := entries + [PQEntry(keys[i], values[i])];
      i := i + 1;
    }
    assert entries == PairUpToShorter(keys, values);
    h := Heapify(entries);
  }
}
