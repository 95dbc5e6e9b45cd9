/** ArrayQueue.java: a fixed-capacity FIFO queue in a circular array, with a
    front index `head`, a back index `tail` (one before the front while the
    queue has never been written) and a counter `size`. */
module ArrayQueue {
  import opened Wrappers

  /** The object's fields. A slot the queue has never written holds `None`
      (the array's initial null); dequeue leaves the old entry in its slot. */
  datatype Queue<E> = Queue(arr: seq<Option<E>>, capacity: int, head: int, tail: int, size: int)

  /** One wrap-around step for an index below twice the capacity: the
      `if (i == capacity) i = 0` of the source, generalised. */
  function Wrap(x: int, c: int): int
  {
    if x >= c then x - c else x
  }

  /** The array index of the i-th element from the front. */
  function Slot<E>(q: Queue<E>, i: int): int
  {
    Wrap(q.head + i, q.capacity)
  }

  /** The object invariant: the array has the capacity, the count is within
      it, the back index sits just before the slot after the last element,
      and every slot of the window from head holds an element. */
  ghost predicate Valid<E>(q: Queue<E>)
  {
    && |q.arr| == q.capacity
    && 0 <= q.size <= q.capacity
    && (q.capacity == 0 ==> q.head == 0 && q.tail == -1)
    && (q.capacity > 0 ==>
          && 0 <= q.head < q.capacity
          && -1 <= q.tail < q.capacity
          && Wrap(q.tail + 1, q.capacity) == Slot(q, q.size))
    && (forall i :: 0 <= i < q.size ==> 0 <= Slot(q, i) < q.capacity && q.arr[Slot(q, i)].Some?)
  }

  /** The queue's elements, front first. */
  function Elements<E>(q: Queue<E>): (s: seq<E>)
    requires Valid(q)
    ensures |s| == q.size
  {
    seq(q.size, i requires 0 <= i < q.size && Valid(q) => q.arr[Slot(q, i)].value)
  }

  /** new ArrayQueue(capacity): an empty queue; a negative capacity fails to
      allocate the array. */
  function New<E>(capacity: int): Result<Queue<E>>
  {
    if capacity < 0 then Failure(NegativeArraySize)
    else Success(Queue(seq(capacity, _ => None), capacity, 0, -1, 0))
  }

  /** The constructor fails exactly for a negative capacity, and otherwise
      gives an empty valid queue of that capacity. */
  lemma NewSpec<E>(capacity: int)
    ensures New<E>(capacity).Success? <==> capacity >= 0
    ensures New<E>(capacity).Failure? ==> New<E>(capacity).error == NegativeArraySize
    ensures New<E>(capacity).Success? ==>
              var q := New<E>(capacity).value;
              Valid(q) && Elements(q) == [] && q.capacity == capacity
  {
  }

  function Size<E>(q: Queue<E>): int { q.size }

  predicate IsEmpty<E>(q: Queue<E>) { q.size == 0 }

  predicate IsFull<E>(q: Queue<E>) { q.size == q.capacity }

  /** enqueue(e): fails on a full queue; otherwise writes the slot after the
      back, wrapping at the capacity. */
  function Enqueue<E>(q: Queue<E>, e: E): (r: Result<Queue<E>>)
    requires Valid(q)
    ensures r.Failure? <==> q.size == q.capacity
    ensures r.Failure? ==> r.error == IllegalState
    ensures r.Success? ==> Valid(r.value) && r.value.capacity == q.capacity
    ensures r.Success? ==> Elements(r.value) == Elements(q) + [e]
  {
    if IsFull(q) then Failure(IllegalState)
    else
      var t := if q.tail + 1 == q.capacity then 0 else q.tail + 1;
      var q' := q.(arr := q.arr[t := Some(e)], tail := t, size := q.size + 1);
      EnqueueWrites(q, e, t);
      Success(q')
  }

  /** Writing e into the slot after the back and counting it keeps the
      invariant and appends e to the elements. */
  lemma EnqueueWrites<E>(q: Queue<E>, e: E, t: int)
    requires Valid(q) && q.size < q.capacity
    requires t == if q.tail + 1 == q.capacity then 0 else q.tail + 1
    ensures var q' := q.(arr := q.arr[t := Some(e)], tail := t, size := q.size + 1);
            Valid(q') && Elements(q') == Elements(q) + [e]
  {
    var q' := q.(arr := q.arr[t := Some(e)], tail := t, size := q.size + 1);
    assert t == Slot(q, q.size);
    assert forall i :: 0 <= i < q.size ==> Slot(q', i) == Slot(q, i) && Slot(q, i) != t;
    assert Slot(q', q.size) == t;
    assert Valid(q');
    var x, y := Elements(q), Elements(q');
    forall i | 0 <= i < q'.size
      ensures y[i] == (x + [e])[i]
    {
      if i < q.size {
        assert y[i] == q'.arr[Slot(q, i)].value == q.arr[Slot(q, i)].value;
      }
    }
    assert |y| == |x + [e]|;
  }

  /** first(): the front element, or none when empty; nothing changes. */
  function First<E>(q: Queue<E>): (r: Option<E>)
    requires Valid(q)
    ensures r.None? <==> Elements(q) == []
    ensures r.Some? ==> r.value == Elements(q)[0]
  {
    if IsEmpty(q) then None
    else
      assert Slot(q, 0) == q.head;
      Some(q.arr[q.head].value)
  }

  /** dequeue(): none on an empty queue; otherwise the front element, with the
      front index advanced and wrapped. */
  function Dequeue<E>(q: Queue<E>): (r: (Queue<E>, Option<E>))
    requires Valid(q)
    ensures Valid(r.0) && r.0.capacity == q.capacity
    ensures Elements(q) == [] ==> r == (q, None)
    ensures Elements(q) != [] ==> r.1 == Some(Elements(q)[0]) && Elements(r.0) == Elements(q)[1..]
  {
    if IsEmpty(q) then (q, None)
    else
      assert Slot(q, 0) == q.head;
      var e := q.arr[q.head].value;
      var h := if q.head + 1 == q.capacity then 0 else q.head + 1;
      var q' := q.(head := h, size := q.size - 1);
      assert forall i :: 0 <= i < q'.size ==> Slot(q', i) == Slot(q, i + 1);
      assert Elements(q') == Elements(q)[1..];
      (q', Some(e))
  }

  // ---------------------------------------------------------------------------
  // The class's main()
  // ---------------------------------------------------------------------------

  /** A call main() makes. */
  datatype Call<E> = EnqueueCall(e: E) | DequeueCall | SizeCall | FirstCall

  /** A line main() prints: an element or null, or a count. */
  datatype Line<E> = Printed(v: Option<E>) | Count(n: int)

  /** Runs the calls from index `i` on, collecting what is printed; stops at
      the first exception. */
  function Run<E>(q: Queue<E>, calls: seq<Call<E>>, i: nat): (r: (seq<Line<E>>, Option<Exception>))
    requires Valid(q)
    decreases |calls| - i
  {
    if i >= |calls| then ([], None)
    else match calls[i]
      case EnqueueCall(e) =>
        var r := Enqueue(q, e);
        if r.Failure? then ([], Some(r.error)) else Run(r.value, calls, i + 1)
      case DequeueCall =>
        var (q', v) := Dequeue(q);
        var rest := Run(q', calls, i + 1);
        ([Printed(v)] + rest.0, rest.1)
      case SizeCall =>
        var rest := Run(q, calls, i + 1);
        ([Count(Size(q))] + rest.0, rest.1)
      case FirstCall =>
        var rest := Run(q, calls, i + 1);
        ([Printed(First(q))] + rest.0, rest.1)
  }

  /** The same calls on a bounded FIFO sequence: the reference the array
      queue is measured against. */
  function RunFifo<E>(s: seq<E>, capacity: int, calls: seq<Call<E>>, i: nat): (seq<Line<E>>, Option<Exception>)
    decreases |calls| - i
  {
    if i >= |calls| then ([], None)
    else match calls[i]
      case EnqueueCall(e) =>
        if |s| == capacity then ([], Some(IllegalState)) else RunFifo(s + [e], capacity, calls, i + 1)
      case DequeueCall =>
        var rest := RunFifo(if s == [] then s else s[1..], capacity, calls, i + 1);
        ([Printed(if s == [] then None else Some(s[0]))] + rest.0, rest.1)
      case SizeCall =>
        var rest := RunFifo(s, capacity, calls, i + 1);
        ([Count(|s|)] + rest.0, rest.1)
      case FirstCall =>
        var rest := RunFifo(s, capacity, calls, i + 1);
        ([Printed(if s == [] then None else Some(s[0]))] + rest.0, rest.1)
  }

  /** Any run of calls on the array queue prints what the bounded FIFO prints
      and fails where it fails. */
  lemma {:induction false} RunIsFifo<E>(q: Queue<E>, calls: seq<Call<E>>, i: nat)
    requires Valid(q)
    ensures Run(q, calls, i) == RunFifo(Elements(q), q.capacity, calls, i)
    decreases |calls| - i
  {
    if i < |calls| {
      match calls[i]
      case EnqueueCall(e) =>
        var r := Enqueue(q, e);
        if r.Success? {
          RunIsFifo(r.value, calls, i + 1);
        }
      case DequeueCall =>
        RunIsFifo(Dequeue(q).0, calls, i + 1);
      case SizeCall =>
        RunIsFifo(q, calls, i + 1);
      case FirstCall =>
        RunIsFifo(q, calls, i + 1);
    }
  }

  /** The calls main() makes on a queue of capacity 3. */
  const MainCalls: seq<Call<int>> := [
    EnqueueCall(1), EnqueueCall(2), EnqueueCall(3), DequeueCall, DequeueCall, DequeueCall,
    EnqueueCall(4), SizeCall, FirstCall, EnqueueCall(5), DequeueCall, EnqueueCall(6),
    DequeueCall, DequeueCall, DequeueCall, EnqueueCall(7), DequeueCall, EnqueueCall(7),
    EnqueueCall(7), EnqueueCall(7), EnqueueCall(7)
  ]

  // main() on the reference FIFO, three calls at a time from the back.

  lemma FifoTraceFrom0()
    ensures RunFifo<int>([], 3, MainCalls, 0).0 == [Printed(Some(1)), Printed(Some(2)), Printed(Some(3)), Count(1), Printed(Some(4)), Printed(Some(4)), Printed(Some(5)), Printed(Some(6)), Printed(None), Printed(Some(7))]
    ensures RunFifo<int>([], 3, MainCalls, 0).1 == Some(IllegalState)
  {
    FifoTraceFrom3();
    assert RunFifo<int>([1, 2], 3, MainCalls, 2).0 == [Printed(Some(1)), Printed(Some(2)), Printed(Some(3)), Count(1), Printed(Some(4)), Printed(Some(4)), Printed(Some(5)), Printed(Some(6)), Printed(None), Printed(Some(7))];
    assert RunFifo<int>([1, 2], 3, MainCalls, 2).1 == Some(IllegalState);
    assert RunFifo<int>([1], 3, MainCalls, 1).0 == [Printed(Some(1)), Printed(Some(2)), Printed(Some(3)), Count(1), Printed(Some(4)), Printed(Some(4)), Printed(Some(5)), Printed(Some(6)), Printed(None), Printed(Some(7))];
    assert RunFifo<int>([1], 3, MainCalls, 1).1 == Some(IllegalState);
  }

  lemma FifoTraceFrom3()
    ensures RunFifo<int>([1, 2, 3], 3, MainCalls, 3).0 == [Printed(Some(1)), Printed(Some(2)), Printed(Some(3)), Count(1), Printed(Some(4)), Printed(Some(4)), Printed(Some(5)), Printed(Some(6)), Printed(None), Printed(Some(7))]
    ensures RunFifo<int>([1, 2, 3], 3, MainCalls, 3).1 == Some(IllegalState)
  {
    FifoTraceFrom4();
    assert [1, 2, 3][1..] == [2, 3];
  }

  lemma FifoTraceFrom4()
    ensures RunFifo<int>([2, 3], 3, MainCalls, 4).0 == [Printed(Some(2)), Printed(Some(3)), Count(1), Printed(Some(4)), Printed(Some(4)), Printed(Some(5)), Printed(Some(6)), Printed(None), Printed(Some(7))]
    ensures RunFifo<int>([2, 3], 3, MainCalls, 4).1 == Some(IllegalState)
  {
    FifoTraceFrom6();
    assert [3][1..] == [];
    assert RunFifo<int>([3], 3, MainCalls, 5).0 == [Printed(Some(3)), Count(1), Printed(Some(4)), Printed(Some(4)), Printed(Some(5)), Printed(Some(6)), Printed(None), Printed(Some(7))];
    assert RunFifo<int>([3], 3, MainCalls, 5).1 == Some(IllegalState);
    assert [2, 3][1..] == [3];
  }

  lemma FifoTraceFrom6()
    ensures RunFifo<int>([], 3, MainCalls, 6).0 == [Count(1), Printed(Some(4)), Printed(Some(4)), Printed(Some(5)), Printed(Some(6)), Printed(None), Printed(Some(7))]
    ensures RunFifo<int>([], 3, MainCalls, 6).1 == Some(IllegalState)
  {
    FifoTraceFrom9();
    assert RunFifo<int>([4], 3, MainCalls, 8).0 == [Printed(Some(4)), Printed(Some(4)), Printed(Some(5)), Printed(Some(6)), Printed(None), Printed(Some(7))];
    assert RunFifo<int>([4], 3, MainCalls, 8).1 == Some(IllegalState);
    assert RunFifo<int>([4], 3, MainCalls, 7).0 == [Count(1), Printed(Some(4)), Printed(Some(4)), Printed(Some(5)), Printed(Some(6)), Printed(None), Printed(Some(7))];
    assert RunFifo<int>([4], 3, MainCalls, 7).1 == Some(IllegalState);
  }

  lemma FifoTraceFrom9()
    ensures RunFifo<int>([4], 3, MainCalls, 9).0 == [Printed(Some(4)), Printed(Some(5)), Printed(Some(6)), Printed(None), Printed(Some(7))]
    ensures RunFifo<int>([4], 3, MainCalls, 9).1 == Some(IllegalState)
  {
    FifoTraceFrom12();
    assert RunFifo<int>([5], 3, MainCalls, 11).0 == [Printed(Some(5)), Printed(Some(6)), Printed(None), Printed(Some(7))];
    assert RunFifo<int>([5], 3, MainCalls, 11).1 == Some(IllegalState);
    assert [4, 5][1..] == [5];
    assert RunFifo<int>([4, 5], 3, MainCalls, 10).0 == [Printed(Some(4)), Printed(Some(5)), Printed(Some(6)), Printed(None), Printed(Some(7))];
    assert RunFifo<int>([4, 5], 3, MainCalls, 10).1 == Some(IllegalState);
  }

  lemma FifoTraceFrom12()
    ensures RunFifo<int>([5, 6], 3, MainCalls, 12).0 == [Printed(Some(5)), Printed(Some(6)), Printed(None), Printed(Some(7))]
    ensures RunFifo<int>([5, 6], 3, MainCalls, 12).1 == Some(IllegalState)
  {
    FifoTraceFrom15();
    assert RunFifo<int>([], 3, MainCalls, 14).0 == [Printed(None), Printed(Some(7))];
    assert RunFifo<int>([], 3, MainCalls, 14).1 == Some(IllegalState);
    assert [6][1..] == [];
    assert RunFifo<int>([6], 3, MainCalls, 13).0 == [Printed(Some(6)), Printed(None), Printed(Some(7))];
    assert RunFifo<int>([6], 3, MainCalls, 13).1 == Some(IllegalState);
    assert [5, 6][1..] == [6];
  }

  lemma FifoTraceFrom15()
    ensures RunFifo<int>([], 3, MainCalls, 15).0 == [Printed(Some(7))]
    ensures RunFifo<int>([], 3, MainCalls, 15).1 == Some(IllegalState)
  {
    FifoTraceFrom18();
    assert RunFifo<int>([], 3, MainCalls, 17).0 == [];
    assert RunFifo<int>([], 3, MainCalls, 17).1 == Some(IllegalState);
    assert [7][1..] == [];
    assert RunFifo<int>([7], 3, MainCalls, 16).0 == [Printed(Some(7))];
    assert RunFifo<int>([7], 3, MainCalls, 16).1 == Some(IllegalState);
  }

  lemma FifoTraceFrom18()
    ensures RunFifo<int>([7], 3, MainCalls, 18).0 == []
    ensures RunFifo<int>([7], 3, MainCalls, 18).1 == Some(IllegalState)
  {
    assert RunFifo<int>([7, 7, 7], 3, MainCalls, 20).0 == [];
    assert RunFifo<int>([7, 7, 7], 3, MainCalls, 20).1 == Some(IllegalState);
    assert RunFifo<int>([7, 7], 3, MainCalls, 19).0 == [];
    assert RunFifo<int>([7, 7], 3, MainCalls, 19).1 == Some(IllegalState);
  }

  /** The expected output of main(): 1 2 3 1 4 4 5 6 null 7, then the
      "queue is full" exception on the fourth enqueue of 7. */
  lemma MainTrace()
    ensures New<int>(3).Success?
    ensures Run(New<int>(3).value, MainCalls, 0).0 ==
      [Printed(Some(1)), Printed(Some(2)), Printed(Some(3)), Count(1), Printed(Some(4)),
       Printed(Some(4)), Printed(Some(5)), Printed(Some(6)), Printed(None), Printed(Some(7))]
    ensures Run(New<int>(3).value, MainCalls, 0).1 == Some(IllegalState)
  {
    FifoTraceFrom0();
    RunIsFifo(New<int>(3).value, MainCalls, 0);
  }
}
