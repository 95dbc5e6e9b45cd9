/** LinkedDeque.java: a double-ended queue adapted from a singly linked
    list; the list's head is the front and its tail the back. */
module LinkedDeque {
  import opened Wrappers
  import SinglyLinkedList

  /** The adapter's one field, the underlying list. */
  datatype Deque<E> = Deque(deque: SinglyLinkedList.List<E>)

  ghost predicate Valid<E>(d: Deque<E>)
  {
    SinglyLinkedList.Valid(d.deque)
  }

  /** The deque's elements, front first. */
  function Elements<E>(d: Deque<E>): seq<E>
    requires Valid(d)
  {
    SinglyLinkedList.Elements(d.deque)
  }

  /** new LinkedDeque(): over a new empty list. */
  function New<E>(): Deque<E>
  {
    Deque(SinglyLinkedList.Empty())
  }

  /** The new adapter is valid and has no elements. */
  lemma NewSpec<E>()
    ensures Valid(New<E>()) && Elements(New<E>()) == []
  {
    SinglyLinkedList.EmptySpec<E>();
  }

  /** size(): the list's size. */
  function Size<E>(d: Deque<E>): (n: int)
    requires Valid(d)
    ensures n == |Elements(d)|
  {
    SinglyLinkedList.Size(d.deque)
  }

  /** isEmpty(): the list is empty. */
  predicate IsEmpty<E>(d: Deque<E>)
    requires Valid(d)
    ensures IsEmpty(d) <==> Elements(d) == []
  {
    SinglyLinkedList.IsEmpty(d.deque)
  }

  /** first(): get(0), null on an empty list. */
  function First<E>(d: Deque<E>): (r: Option<E>)
    requires Valid(d)
    ensures r.None? <==> Elements(d) == []
    ensures r.Some? ==> r.value == Elements(d)[0]
  {
    SinglyLinkedList.Get(d.deque, 0)
  }

  /** last(): get(size - 1), null on an empty list. */
  function Last<E>(d: Deque<E>): (r: Option<E>)
    requires Valid(d)
    ensures r.None? <==> Elements(d) == []
    ensures r.Some? ==> r.value == Elements(d)[|Elements(d)| - 1]
  {
    SinglyLinkedList.Get(d.deque, SinglyLinkedList.Size(d.deque) - 1)
  }

  /** addFirst(e): addFirst on the list. */
  function AddFirst<E>(d: Deque<E>, e: E): (r: Deque<E>)
    requires Valid(d)
    ensures Valid(r) && Elements(r) == [e] + Elements(d)
  {
    Deque(SinglyLinkedList.AddFirst(d.deque, e))
  }

  /** addLast(e): addLast on the list. */
  function AddLast<E>(d: Deque<E>, e: E): (r: Deque<E>)
    requires Valid(d)
    ensures Valid(r) && Elements(r) == Elements(d) + [e]
  {
    Deque(SinglyLinkedList.AddLast(d.deque, e))
  }

  /** removeFirst(): removeFirst on the list, a RuntimeException when it
      is empty. */
  function RemoveFirst<E>(d: Deque<E>): (r: Result<(Deque<E>, E)>)
    requires Valid(d)
    ensures r.Failure? <==> Elements(d) == []
    ensures r.Failure? ==> r.error == Runtime
    ensures r.Success? ==> Valid(r.value.0) && r.value.1 == Elements(d)[0]
    ensures r.Success? ==> Elements(r.value.0) == Elements(d)[1..]
  {
    match SinglyLinkedList.RemoveFirst(d.deque)
    case Failure(x) => Failure(x)
    case Success((l, e)) => Success((Deque(l), e))
  }

  /** removeLast(): removeLast on the list, a RuntimeException when it is
      empty. */
  function RemoveLast<E>(d: Deque<E>): (r: Result<(Deque<E>, E)>)
    requires Valid(d)
    ensures r.Failure? <==> Elements(d) == []
    ensures r.Failure? ==> r.error == Runtime
    ensures r.Success? ==> Valid(r.value.0) && r.value.1 == Elements(d)[|Elements(d)| - 1]
    ensures r.Success? ==> Elements(r.value.0) == Elements(d)[..|Elements(d)| - 1]
  {
    match SinglyLinkedList.RemoveLast(d.deque)
    case Failure(x) => Failure(x)
    case Success((l, e)) => Success((Deque(l), e))
  }

  /** Each end undoes its own insertion: removeFirst after addFirst(e) and
      removeLast after addLast(e) give e back and the elements before. */
  lemma AddThenRemove<E>(d: Deque<E>, e: E)
    requires Valid(d)
    ensures RemoveFirst(AddFirst(d, e)).Success?
    ensures RemoveFirst(AddFirst(d, e)).value.1 == e
    ensures Elements(RemoveFirst(AddFirst(d, e)).value.0) == Elements(d)
    ensures RemoveLast(AddLast(d, e)).Success?
    ensures RemoveLast(AddLast(d, e)).value.1 == e
    ensures Elements(RemoveLast(AddLast(d, e)).value.0) == Elements(d)
  {
    assert ([e] + Elements(d))[1..] == Elements(d);
    assert (Elements(d) + [e])[..|Elements(d)|] == Elements(d);
  }

  /** On a non-empty deque, removeFirst splits the elements into the one
      it returns and the ones it leaves. */
  lemma RemoveFirstSplits<E>(d: Deque<E>)
    requires Valid(d) && Elements(d) != []
    ensures RemoveFirst(d).Success?
    ensures Elements(d) == [RemoveFirst(d).value.1] + Elements(RemoveFirst(d).value.0)
  {
    assert Elements(d) == [Elements(d)[0]] + Elements(d)[1..];
  }

  /** `while (!d.isEmpty()) ... d.removeFirst()`: the elements in the order
      removeFirst returns them, front first. */
  function Drain<E>(d: Deque<E>): (r: seq<E>)
    requires Valid(d)
    ensures r == Elements(d)
    decreases |Elements(d)|
  {
    if IsEmpty(d) then []
    else
      RemoveFirstSplits(d);
      var p := RemoveFirst(d).value;
      [p.1] + Drain(p.0)
  }

  /** main(): after addFirst(1), addLast(2), addLast(3) and addFirst(0),
      last prints 3, first prints 0, and removing from the front prints
      0 1 2 3. */
  lemma MainTrace()
    ensures
      var d := AddFirst(AddLast(AddLast(AddFirst(New<int>(), 1), 2), 3), 0);
      && Last(d) == Some(3)
      && First(d) == Some(0)
      && Drain(d) == [0, 1, 2, 3]
  {
    NewSpec<int>();
    var d1 := AddFirst(New<int>(), 1);
    assert Elements(d1) == [1];
    var d2 := AddLast(d1, 2);
    assert Elements(d2) == [1, 2];
    var d3 := AddLast(d2, 3);
    assert Elements(d3) == [1, 2, 3];
    var d := AddFirst(d3, 0);
    assert Elements(d) == [0, 1, 2, 3];
  }
}
