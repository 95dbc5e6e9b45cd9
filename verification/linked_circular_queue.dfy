/** LinkedCircularQueue.java: a FIFO queue adapted from a circularly
    linked list, with rotate() as a cheaper enqueue(dequeue()).

    The queue only ever reaches the list through addLast, removeFirst, get
    and rotate, each of which keeps the list cyclic, so the list's
    invariant together with cyclicity is the queue's invariant. */
module LinkedCircularQueue {
  import opened Wrappers
  import CircularlyLinkedList

  /** The adapter's one field, the underlying list. */
  datatype Queue<E> = Queue(queue: CircularlyLinkedList.List<E>)

  ghost predicate Valid<E>(q: Queue<E>)
  {
    CircularlyLinkedList.Valid(q.queue) && CircularlyLinkedList.Cyclic(q.queue)
  }

  /** The queue's elements, front first. */
  function Elements<E>(q: Queue<E>): (r: seq<E>)
    requires Valid(q)
    ensures |r| == q.queue.size
  {
    CircularlyLinkedList.Elements(q.queue).value
  }

  /** new LinkedCircularQueue(): over a new empty list. */
  function New<E>(): Queue<E>
  {
    Queue(CircularlyLinkedList.Empty())
  }

  /** The new adapter is valid and has no elements. */
  lemma NewSpec<E>()
    ensures Valid(New<E>()) && Elements(New<E>()) == []
  {
    CircularlyLinkedList.EmptySpec<E>();
  }

  /** size(): the list's size. */
  function Size<E>(q: Queue<E>): (n: int)
    requires Valid(q)
    ensures n == |Elements(q)|
  {
    CircularlyLinkedList.Size(q.queue)
  }

  /** isEmpty(): the list is empty. */
  predicate IsEmpty<E>(q: Queue<E>)
    requires Valid(q)
    ensures IsEmpty(q) <==> Elements(q) == []
  {
    CircularlyLinkedList.IsEmpty(q.queue)
  }

  /** enqueue(e): addLast on the list. */
  function Enqueue<E>(q: Queue<E>, e: E): (r: Queue<E>)
    requires Valid(q)
    ensures Valid(r) && Elements(r) == Elements(q) + [e]
  {
    CircularlyLinkedList.AddLastSpec(q.queue, e);
    Queue(CircularlyLinkedList.AddLast(q.queue, e).value)
  }

  /** first(): get(0), null on an empty list. */
  function First<E>(q: Queue<E>): (r: Option<E>)
    requires Valid(q)
    ensures r.None? <==> Elements(q) == []
    ensures r.Some? ==> r.value == Elements(q)[0]
  {
    if q.queue.size > 0 then CircularlyLinkedList.GetSpec(q.queue, 0); CircularlyLinkedList.Get(q.queue, 0).value
    else CircularlyLinkedList.Get(q.queue, 0).value
  }

  /** dequeue(): removeFirst on the list, null when it is empty. */
  function Dequeue<E>(q: Queue<E>): (r: (Queue<E>, Option<E>))
    requires Valid(q)
    ensures Valid(r.0)
    ensures Elements(q) == [] ==> r == (q, None)
    ensures Elements(q) != [] ==> r.1 == Some(Elements(q)[0]) && Elements(r.0) == Elements(q)[1..]
  {
    if q.queue.size > 0 then CircularlyLinkedList.RemoveFirstSpec(q.queue);
      var p := CircularlyLinkedList.RemoveFirst(q.queue).value;
      (Queue(p.0), p.1)
    else (q, None)
  }

  /** rotate(): rotate on the list, moving the front element to the back. */
  function Rotate<E>(q: Queue<E>): (r: Queue<E>)
    requires Valid(q)
    ensures Valid(r)
    ensures Elements(q) == [] ==> Elements(r) == []
    ensures Elements(q) != [] ==> Elements(r) == Elements(q)[1..] + [Elements(q)[0]]
  {
    CircularlyLinkedList.RotateSpec(q.queue);
    Queue(CircularlyLinkedList.Rotate(q.queue).value)
  }

  /** rotate() does what enqueue(dequeue()) does to the elements. */
  lemma RotateIsRequeue<E>(q: Queue<E>)
    requires Valid(q) && Elements(q) != []
    ensures Elements(Rotate(q)) == Elements(Enqueue(Dequeue(q).0, Dequeue(q).1.value))
  {
  }

  /** First in, first out: enqueue then dequeue on an empty queue gives the
      element back and an empty queue; on a non-empty one it gives the old
      front, as dequeue then enqueue would. */
  lemma EnqueueThenDequeue<E>(q: Queue<E>, e: E)
    requires Valid(q)
    ensures Elements(q) == [] ==>
              Dequeue(Enqueue(q, e)).1 == Some(e) && Elements(Dequeue(Enqueue(q, e)).0) == []
    ensures Elements(q) != [] ==>
              && Dequeue(Enqueue(q, e)).1 == Dequeue(q).1
              && Elements(Dequeue(Enqueue(q, e)).0) == Elements(Enqueue(Dequeue(q).0, e))
  {
    var x := Elements(q);
    assert (x + [e])[1..] == (if x == [] then [] else x[1..] + [e]);
  }

  /** `while (!q.isEmpty()) q.dequeue()`, collecting what dequeue returns,
      and the empty queue it leaves. */
  function Drain<E>(q: Queue<E>): (r: (seq<E>, Queue<E>))
    requires Valid(q)
    ensures r.0 == Elements(q) && Valid(r.1) && Elements(r.1) == []
    decreases |Elements(q)|
  {
    if IsEmpty(q) then ([], q)
    else
      var (q', e) := Dequeue(q);
      var (rest, q'') := Drain(q');
      ([e.value] + rest, q'')
  }

  /** The first half of main(): on a new queue, three dequeues after
      enqueuing 1, 2 and 3 print 1 2 3; after enqueue(4) size prints 1 and first prints 4. */
  lemma MainFirstHalf(q0: Queue<int>)
    requires Valid(q0) && Elements(q0) == []
    ensures
      var q3 := Enqueue(Enqueue(Enqueue(q0, 1), 2), 3);
      var d1 := Dequeue(q3);
      var d2 := Dequeue(d1.0);
      var d3 := Dequeue(d2.0);
      var q4 := Enqueue(d3.0, 4);
      && [d1.1, d2.1, d3.1] == [Some(1), Some(2), Some(3)]
      && Size(q4) == 1
      && First(q4) == Some(4)
  {
    var q3 := Enqueue(Enqueue(Enqueue(q0, 1), 2), 3);
    assert Elements(q3) == [1, 2, 3];
    var d1 := Dequeue(q3);
    assert Elements(d1.0) == [2, 3];
    var d2 := Dequeue(d1.0);
    assert Elements(d2.0) == [3];
  }

  /** The second half of main(): an emptied queue given 1, 2, 3 and 4 and
      rotated once dequeues 2 3 4 1. */
  lemma MainSecondHalf(e: Queue<int>)
    requires Valid(e) && Elements(e) == []
    ensures Drain(Rotate(Enqueue(Enqueue(Enqueue(Enqueue(e, 1), 2), 3), 4))).0 == [2, 3, 4, 1]
  {
    var q := Enqueue(Enqueue(Enqueue(Enqueue(e, 1), 2), 3), 4);
    assert Elements(q) == [1, 2, 3, 4];
  }

  /** main() as a whole, from a new queue. */
  lemma MainTrace()
    ensures
      var q3 := Enqueue(Enqueue(Enqueue(New<int>(), 1), 2), 3);
      var d3 := Dequeue(Dequeue(Dequeue(q3).0).0);
      var q4 := Enqueue(d3.0, 4);
      var q := Rotate(Enqueue(Enqueue(Enqueue(Enqueue(Drain(q4).1, 1), 2), 3), 4));
      && Size(q4) == 1 && First(q4) == Some(4)
      && Drain(q).0 == [2, 3, 4, 1]
  {
    MainFirstHalf(New<int>());
    var q4 := Enqueue(Dequeue(Dequeue(Dequeue(Enqueue(Enqueue(Enqueue(New<int>(), 1), 2), 3)).0).0).0, 4);
    MainSecondHalf(Drain(q4).1);
  }
}
