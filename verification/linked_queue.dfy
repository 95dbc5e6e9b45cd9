/** LinkedQueue.java: a FIFO queue adapted from a singly linked list; the
    list's head is the front of the queue and its tail the back. */
module LinkedQueue {
  import opened Wrappers
  import SinglyLinkedList

  /** The adapter's one field, the underlying list. */
  datatype Queue<E> = Queue(queue: SinglyLinkedList.List<E>)

  ghost predicate Valid<E>(q: Queue<E>)
  {
    SinglyLinkedList.Valid(q.queue)
  }

  /** The queue's elements, front first. */
  function Elements<E>(q: Queue<E>): seq<E>
    requires Valid(q)
  {
    SinglyLinkedList.Elements(q.queue)
  }

  /** new LinkedQueue(): over a new empty list. */
  function New<E>(): Queue<E>
  {
    Queue(SinglyLinkedList.Empty())
  }

  /** The new adapter is valid and has no elements. */
  lemma NewSpec<E>()
    ensures Valid(New<E>()) && Elements(New<E>()) == []
  {
    SinglyLinkedList.EmptySpec<E>();
  }

  /** size(): the list's size. */
  function Size<E>(q: Queue<E>): (n: int)
    requires Valid(q)
    ensures n == |Elements(q)|
  {
    SinglyLinkedList.Size(q.queue)
  }

  /** isEmpty(): the list is empty. */
  predicate IsEmpty<E>(q: Queue<E>)
    requires Valid(q)
    ensures IsEmpty(q) <==> Elements(q) == []
  {
    SinglyLinkedList.IsEmpty(q.queue)
  }

  /** enqueue(e): addLast on the list. */
  function Enqueue<E>(q: Queue<E>, e: E): (r: Queue<E>)
    requires Valid(q)
    ensures Valid(r) && Elements(r) == Elements(q) + [e]
  {
    Queue(SinglyLinkedList.AddLast(q.queue, e))
  }

  /** first(): get(0), which is null on an empty list. */
  function First<E>(q: Queue<E>): (r: Option<E>)
    requires Valid(q)
    ensures r.None? <==> Elements(q) == []
    ensures r.Some? ==> r.value == Elements(q)[0]
  {
    SinglyLinkedList.Get(q.queue, 0)
  }

  /** dequeue(): removeFirst on the list, which throws a RuntimeException
      on an empty one. */
  function Dequeue<E>(q: Queue<E>): (r: Result<(Queue<E>, E)>)
    requires Valid(q)
    ensures r.Failure? <==> Elements(q) == []
    ensures r.Failure? ==> r.error == Runtime
    ensures r.Success? ==> Valid(r.value.0) && r.value.1 == Elements(q)[0]
    ensures r.Success? ==> Elements(r.value.0) == Elements(q)[1..]
  {
    match SinglyLinkedList.RemoveFirst(q.queue)
    case Failure(x) => Failure(x)
    case Success((l, e)) => Success((Queue(l), e))
  }

  /** First in, first out: enqueue then dequeue on an empty queue gives the
      element back and an empty queue; on a non-empty one it gives the old
      front, as dequeue then enqueue would. */
  lemma EnqueueThenDequeue<E>(q: Queue<E>, e: E)
    requires Valid(q)
    ensures Dequeue(Enqueue(q, e)).Success?
    ensures Elements(q) == [] ==>
              Dequeue(Enqueue(q, e)).value.1 == e && Elements(Dequeue(Enqueue(q, e)).value.0) == []
    ensures Elements(q) != [] ==>
              && Dequeue(Enqueue(q, e)).value.1 == Dequeue(q).value.1
              && Elements(Dequeue(Enqueue(q, e)).value.0) == Elements(Enqueue(Dequeue(q).value.0, e))
  {
    var x := Elements(q);
    assert (x + [e])[1..] == (if x == [] then [] else x[1..] + [e]);
  }

  /** Draining a queue with dequeue until it is empty yields its elements
      front first. */
  function Drain<E>(q: Queue<E>): (r: seq<E>)
    requires Valid(q)
    ensures r == Elements(q)
    decreases |Elements(q)|
  {
    if IsEmpty(q) then []
    else
      var p := Dequeue(q).value;
      assert Elements(q) == [p.1] + Elements(p.0);
      [p.1] + Drain(p.0)
  }
}
