/** LinkedStack.java: a LIFO stack adapted from a singly linked list whose
    head is the top of the stack. */
module LinkedStack {
  import opened Wrappers
  import SinglyLinkedList

  /** The adapter's one field, the underlying list. */
  datatype Stack<E> = Stack(stk: SinglyLinkedList.List<E>)

  ghost predicate Valid<E>(s: Stack<E>)
  {
    SinglyLinkedList.Valid(s.stk)
  }

  /** The stack's elements, top first. */
  function Elements<E>(s: Stack<E>): seq<E>
    requires Valid(s)
  {
    SinglyLinkedList.Elements(s.stk)
  }

  /** new LinkedStack(): over a new empty list. */
  function New<E>(): Stack<E>
  {
    Stack(SinglyLinkedList.Empty())
  }

  /** The new adapter is valid and has no elements. */
  lemma NewSpec<E>()
    ensures Valid(New<E>()) && Elements(New<E>()) == []
  {
    SinglyLinkedList.EmptySpec<E>();
  }

  /** size(): the list's size. */
  function Size<E>(s: Stack<E>): (n: int)
    requires Valid(s)
    ensures n == |Elements(s)|
  {
    SinglyLinkedList.Size(s.stk)
  }

  /** isEmpty(): the list is empty. */
  predicate IsEmpty<E>(s: Stack<E>)
    requires Valid(s)
    ensures IsEmpty(s) <==> Elements(s) == []
  {
    SinglyLinkedList.IsEmpty(s.stk)
  }

  /** push(e): addFirst on the list. */
  function Push<E>(s: Stack<E>, e: E): (r: Stack<E>)
    requires Valid(s)
    ensures Valid(r) && Elements(r) == [e] + Elements(s)
  {
    Stack(SinglyLinkedList.AddFirst(s.stk, e))
  }

  /** top(): null on an empty stack, otherwise get(0). */
  function Top<E>(s: Stack<E>): (r: Option<E>)
    requires Valid(s)
    ensures r.None? <==> Elements(s) == []
    ensures r.Some? ==> r.value == Elements(s)[0]
  {
    if IsEmpty(s) then None else SinglyLinkedList.Get(s.stk, 0)
  }

  /** pop(): null on an empty stack, otherwise removeFirst on the list. */
  function Pop<E>(s: Stack<E>): (r: (Stack<E>, Option<E>))
    requires Valid(s)
    ensures Valid(r.0)
    ensures Elements(s) == [] ==> r == (s, None)
    ensures Elements(s) != [] ==> r.1 == Some(Elements(s)[0]) && Elements(r.0) == Elements(s)[1..]
  {
    if IsEmpty(s) then (s, None)
    else
      var p := SinglyLinkedList.RemoveFirst(s.stk).value;
      (Stack(p.0), Some(p.1))
  }

  /** Last in, first out: popping right after push(e) gives e back and
      leaves the elements the stack had before. */
  lemma PushThenPop<E>(s: Stack<E>, e: E)
    requires Valid(s)
    ensures Pop(Push(s, e)).1 == Some(e)
    ensures Elements(Pop(Push(s, e)).0) == Elements(s)
  {
    assert ([e] + Elements(s))[1..] == Elements(s);
  }

  /** main(): after pushing 1, 2 and 3, top prints 3, two pops print 3 and
      2, and size prints 1. */
  lemma MainTrace()
    ensures
      var s3 := Push(Push(Push(New<int>(), 1), 2), 3);
      && Top(s3) == Some(3)
      && Pop(s3).1 == Some(3)
      && Pop(Pop(s3).0).1 == Some(2)
      && Size(Pop(Pop(s3).0).0) == 1
  {
    NewSpec<int>();
    var s1 := Push(New<int>(), 1);
    assert Elements(s1) == [1];
    var s2 := Push(s1, 2);
    assert Elements(s2) == [2, 1];
    var s3 := Push(s2, 3);
    assert Elements(s3) == [3, 2, 1];
    assert Elements(Pop(s3).0) == [2, 1];
  }
}
