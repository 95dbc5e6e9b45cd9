/** ArrayStack.java: a fixed-capacity LIFO stack in an array, with the
    element count `size` as the index of the next free slot. */
module ArrayStack {
  import opened Wrappers

  /** The object's fields. A slot at or above `size` holds `None`: the array
      starts out null and pop clears the slot it vacates. */
  datatype Stack<E> = Stack(stk: seq<Option<E>>, capacity: int, size: int)

  /** The object invariant: the array has the capacity, the count is within
      it, the slots below the count hold elements and the rest are clear. */
  ghost predicate Valid<E>(s: Stack<E>)
  {
    && |s.stk| == s.capacity
    && 0 <= s.size <= s.capacity
    && (forall i :: 0 <= i < s.capacity ==> (s.stk[i].Some? <==> i < s.size))
  }

  /** The stack's elements, bottom first. */
  function Elements<E>(s: Stack<E>): (r: seq<E>)
    requires Valid(s)
    ensures |r| == s.size
  {
    seq(s.size, i requires 0 <= i < s.size && Valid(s) => s.stk[i].value)
  }

  /** new ArrayStack(capacity): an empty stack; a negative capacity fails to
      allocate the array. */
  function New<E>(capacity: int): Result<Stack<E>>
  {
    if capacity < 0 then Failure(NegativeArraySize)
    else Success(Stack(seq(capacity, _ => None), capacity, 0))
  }

  /** The constructor fails exactly for a negative capacity, and otherwise
      gives an empty valid stack of that capacity. */
  lemma NewSpec<E>(capacity: int)
    ensures New<E>(capacity).Success? <==> capacity >= 0
    ensures New<E>(capacity).Failure? ==> New<E>(capacity).error == NegativeArraySize
    ensures New<E>(capacity).Success? ==>
              var s := New<E>(capacity).value;
              Valid(s) && Elements(s) == [] && s.capacity == capacity
  {
  }

  function Size<E>(s: Stack<E>): int { s.size }

  predicate IsEmpty<E>(s: Stack<E>) { s.size == 0 }

  predicate IsFull<E>(s: Stack<E>) { s.size == s.capacity }

  /** push(e): fails on a full stack; otherwise writes the slot at the count
      and counts it. */
  function Push<E>(s: Stack<E>, e: E): (r: Result<Stack<E>>)
    requires Valid(s)
    ensures r.Failure? <==> |Elements(s)| == s.capacity
    ensures r.Failure? ==> r.error == IllegalState
    ensures r.Success? ==> Valid(r.value) && r.value.capacity == s.capacity
    ensures r.Success? ==> Elements(r.value) == Elements(s) + [e]
  {
    if IsFull(s) then Failure(IllegalState)
    else
      var s' := s.(stk := s.stk[s.size := Some(e)], size := s.size + 1);
      assert Elements(s') == Elements(s) + [e];
      Success(s')
  }

  /** top(): the most recently pushed element, or none when empty. */
  function Top<E>(s: Stack<E>): (r: Option<E>)
    requires Valid(s)
    ensures r.None? <==> Elements(s) == []
    ensures r.Some? ==> r.value == Elements(s)[|Elements(s)| - 1]
  {
    if IsEmpty(s) then None else Some(s.stk[s.size - 1].value)
  }

  /** pop(): none on an empty stack; otherwise the top element, with the
      count lowered and the vacated slot cleared. */
  function Pop<E>(s: Stack<E>): (r: (Stack<E>, Option<E>))
    requires Valid(s)
    ensures Valid(r.0) && r.0.capacity == s.capacity
    ensures Elements(s) == [] ==> r == (s, None)
    ensures Elements(s) != [] ==>
              && r.1 == Some(Elements(s)[|Elements(s)| - 1])
              && Elements(r.0) == Elements(s)[..|Elements(s)| - 1]
  {
    if IsEmpty(s) then (s, None)
    else
      var n := s.size - 1;
      var e := s.stk[n].value;
      var s' := s.(stk := s.stk[n := None], size := n);
      assert Elements(s') == Elements(s)[..n];
      (s', Some(e))
  }

  /** Push then pop gives back the pushed element and exactly the stack
      before the push, array contents included. */
  lemma PushThenPop<E>(s: Stack<E>, e: E)
    requires Valid(s)
    ensures Push(s, e).Success? ==> Pop(Push(s, e).value) == (s, Some(e))
  {
    if Push(s, e).Success? {
      var t := Push(s, e).value;
      assert t.stk[s.size := None] == s.stk;
    }
  }

  /** The stack as a whole: Valid states are determined by their capacity
      and elements, so the element sequence is a complete abstraction. */
  lemma ElementsDetermine<E>(s: Stack<E>, t: Stack<E>)
    requires Valid(s) && Valid(t)
    requires s.capacity == t.capacity && Elements(s) == Elements(t)
    ensures s == t
  {
    assert |Elements(s)| == s.size;
    forall i | 0 <= i < s.capacity
      ensures s.stk[i] == t.stk[i]
    {
      if i < s.size {
        assert s.stk[i].value == Elements(s)[i] == Elements(t)[i] == t.stk[i].value;
      }
    }
    assert s.stk == t.stk;
  }

  /** main(): on a stack of capacity 128, after pushing 1, 2 and 3, top
      prints 3, two pops print 3 and 2, and size prints 1. */
  lemma MainTrace()
    ensures New<int>(128).Success?
    ensures
      var s0 := New<int>(128).value;
      && Push(s0, 1).Success?
      && Push(Push(s0, 1).value, 2).Success?
      && Push(Push(Push(s0, 1).value, 2).value, 3).Success?
      && var s3 := Push(Push(Push(s0, 1).value, 2).value, 3).value;
      && Top(s3) == Some(3)
      && Pop(s3).1 == Some(3)
      && Pop(Pop(s3).0).1 == Some(2)
      && Size(Pop(Pop(s3).0).0) == 1
  {
    var s0 := New<int>(128).value;
    var s3 := Push(Push(Push(s0, 1).value, 2).value, 3).value;
    assert Elements(s3) == [1, 2, 3];
    assert Elements(Pop(s3).0) == [1, 2];
  }
}
