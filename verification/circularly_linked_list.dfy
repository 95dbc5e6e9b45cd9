/** CircularlyLinkedList.java: a chain of `size` nodes from `head` whose
    last node is meant to link back to head, so that the list can be
    rotated by moving head.

    The model follows the code pointer by pointer, including what it does
    to a list whose last node does not link back: `addFirst` leaves the old
    last node linking to the old head, and a later `rotate` then walks into
    the wrong node. Every operation is defined on any node store; a
    dereferenced null fails with NullPointer. */
module CircularlyLinkedList {
  import opened Wrappers
  import opened Links

  /** The list object over its node store: node fields `data` and `next`,
      and the `head` and `size` fields. */
  datatype List<E> = List(data: seq<E>, next: seq<int>, head: int, size: int)

  /** The shape every reachable object has: one slot per node and a count
      that is not negative. */
  predicate Store<E>(l: List<E>)
  {
    |l.data| == |l.next| && l.size >= 0
  }

  /** The `size` nodes from head are allocated and distinct. */
  ghost predicate Valid<E>(l: List<E>)
  {
    && Store(l)
    && var c := Chain(l.next, l.head, l.size);
    && c.Success?
    && Distinct(c.value)
  }

  /** The list's nodes, head first. */
  function Nodes<E>(l: List<E>): (s: seq<int>)
    requires Valid(l)
    ensures |s| == l.size && IsChain(l.next, l.head, s) && Distinct(s)
  {
    ChainIs(l.next, l.head, l.size);
    Chain(l.next, l.head, l.size).value
  }

  /** The last node links back to head, as rotate needs, once there are
      two nodes or more. */
  ghost predicate Cyclic<E>(l: List<E>)
    requires Valid(l)
  {
    l.size >= 2 ==> l.next[Nodes(l)[l.size - 1]] == l.head
  }

  /** The elements of the `size` nodes from head, as toString lists them;
      walking into null fails. */
  function Elements<E>(l: List<E>): (r: Result<seq<E>>)
    requires Store(l)
    ensures Valid(l) ==> r == Success(Gather(l.data, Nodes(l)))
  {
    match Chain(l.next, l.head, l.size)
    case Success(s) =>
      ChainIs(l.next, l.head, l.size);
      Success(Gather(l.data, s))
    case Failure(e) => Failure(e)
  }

  /** A list whose nodes from head are s is valid with exactly those nodes. */
  lemma Establish<E>(l: List<E>, s: seq<int>)
    requires Store(l) && l.size == |s| && IsChain(l.next, l.head, s) && Distinct(s)
    ensures Valid(l) && Nodes(l) == s
  {
    ChainOf(l.next, l.head, s);
  }

  /** new CircularlyLinkedList(): no nodes. */
  function Empty<E>(): List<E>
  {
    List([], [], Null, 0)
  }

  /** The new list is valid, cyclic and has no elements. */
  lemma EmptySpec<E>()
    ensures Valid(Empty<E>()) && Elements(Empty<E>()) == Success([]) && Cyclic(Empty<E>())
  {
    Establish(Empty<E>(), []);
  }

  function Size<E>(l: List<E>): int { l.size }

  predicate IsEmpty<E>(l: List<E>) { l.size == 0 }

  /** getNode(i): the node i links after head; null outside 0 <= i < size. */
  function GetNode<E>(l: List<E>, i: int): (r: Result<int>)
    requires Store(l)
    ensures !(0 <= i < l.size) ==> r == Success(Null)
  {
    if i < 0 || i >= l.size then Success(Null)
    else Follow(l.next, l.head, i)
  }

  /** On a valid list getNode(i) is the i-th node. */
  lemma GetNodeSpec<E>(l: List<E>, i: int)
    requires Valid(l) && 0 <= i < l.size
    ensures GetNode(l, i) == Success(Nodes(l)[i])
  {
    FollowChain(l.next, l.head, Nodes(l), i);
  }

  /** get(i): the data of the node i links after head; null outside
      0 <= i < size. */
  function Get<E>(l: List<E>, i: int): (r: Result<Option<E>>)
    requires Store(l)
    ensures !(0 <= i < l.size) ==> r == Success(None)
  {
    if i < 0 || i >= l.size then Success(None)
    else match GetNode(l, i)
      case Success(c) => if IsRef(l.next, c) then Success(Some(l.data[c])) else Failure(NullPointer)
      case Failure(e) => Failure(e)
  }

  /** On a valid list get(i) is the i-th element. */
  lemma GetSpec<E>(l: List<E>, i: int)
    requires Valid(l) && 0 <= i < l.size
    ensures Get(l, i) == Success(Some(Elements(l).value[i]))
  {
    GetNodeSpec(l, i);
  }

  /** addFirst(e): a new head node linking to the old head. The last node is
      not re-linked. */
  function AddFirst<E>(l: List<E>, e: E): (r: List<E>)
    requires Store(l)
    ensures Store(r) && r.size == l.size + 1
  {
    List(l.data + [e], l.next + [l.head], |l.next|, l.size + 1)
  }

  /** On a valid list addFirst puts e in front. */
  lemma AddFirstSpec<E>(l: List<E>, e: E)
    requires Valid(l)
    ensures var r := AddFirst(l, e);
            Valid(r) && Nodes(r) == [|l.next|] + Nodes(l) && Elements(r).value == [e] + Elements(l).value
  {
    var r := AddFirst(l, e);
    var s := Nodes(l);
    var n := |l.next|;
    KeepChain(l.next, r.next, l.head, s);
    JoinChain(r.next, n, [n], s);
    Establish(r, [n] + s);
    GatherKeep(l.data, r.data, s);
    assert Gather(r.data, [n] + s) == [e] + Gather(r.data, s);
  }

  /** addLast(e): on an empty list, addFirst; otherwise a new node linking
      to head, after the node getNode(size - 1). */
  function AddLast<E>(l: List<E>, e: E): (r: Result<List<E>>)
    requires Store(l)
    ensures r.Success? ==> Store(r.value) && r.value.size == l.size + 1
  {
    if l.size == 0 then Success(AddFirst(l, e))
    else match GetNode(l, l.size - 1)
      case Failure(x) => Failure(x)
      case Success(tail) =>
        if !IsRef(l.next, tail) then Failure(NullPointer)
        else Success(List(l.data + [e], (l.next + [l.head])[tail := |l.next|], l.head, l.size + 1))
  }

  /** On a valid list addLast appends e, and a list of two or more nodes
      comes out cyclic. */
  lemma AddLastSpec<E>(l: List<E>, e: E)
    requires Valid(l)
    ensures AddLast(l, e).Success?
    ensures var r := AddLast(l, e).value;
            Valid(r) && Cyclic(r) && Elements(r).value == Elements(l).value + [e]
  {
    if l.size == 0 {
      AddFirstSpec(l, e);
    } else {
      GetNodeSpec(l, l.size - 1);
      var r := AddLast(l, e).value;
      var s := Nodes(l);
      var n := |l.next|;
      KeepChain(l.next, r.next, l.head, s);
      JoinChain(r.next, l.head, s, [n]);
      Establish(r, s + [n]);
      GatherKeep(l.data, r.data, s);
      assert Gather(r.data, s + [n]) == Gather(r.data, s) + [e];
    }
  }

  /** add(i, e): fails with IndexOutOfBounds unless 0 <= i <= size; at the
      ends it is addFirst or addLast; otherwise a new node goes after the
      node i - 1 links after head (`while (i-- != 1) prev = prev.next`). */
  function Add<E>(l: List<E>, i: int, e: E): (r: Result<List<E>>)
    requires Store(l)
    ensures !(0 <= i <= l.size) ==> r == Failure(IndexOutOfBounds)
    ensures r.Success? ==> Store(r.value) && r.value.size == l.size + 1
  {
    if i < 0 || i > l.size then Failure(IndexOutOfBounds)
    else if i == 0 then Success(AddFirst(l, e))
    else if i == l.size then AddLast(l, e)
    else match Follow(l.next, l.head, i - 1)
      case Failure(x) => Failure(x)
      case Success(prev) =>
        if !IsRef(l.next, prev) then Failure(NullPointer)
        else
          var n := |l.next|;
          Success(List(l.data + [e], (l.next + [l.next[prev]])[prev := n], l.head, l.size + 1))
  }

  /** On a valid list add(i, e) inserts e at position i; inserting strictly
      inside keeps the list cyclic. */
  lemma AddSpec<E>(l: List<E>, i: int, e: E)
    requires Valid(l) && 0 <= i <= l.size
    ensures Add(l, i, e).Success?
    ensures var r := Add(l, i, e).value;
            Valid(r) && Elements(r).value == Elements(l).value[..i] + [e] + Elements(l).value[i..]
    ensures 0 < i < l.size && Cyclic(l) ==> Cyclic(Add(l, i, e).value)
  {
    if i == 0 {
      AddFirstSpec(l, e);
    } else if i == l.size {
      AddLastSpec(l, e);
      assert Elements(l).value[..i] == Elements(l).value;
    } else {
      InsertSpec(l, i, e);
    }
  }

  /** The middle case of AddSpec. */
  lemma InsertSpec<E>(l: List<E>, i: int, e: E)
    requires Valid(l) && 0 < i < l.size
    ensures Add(l, i, e).Success?
    ensures var r := Add(l, i, e).value;
            && Valid(r) && Elements(r).value == Elements(l).value[..i] + [e] + Elements(l).value[i..]
            && (Cyclic(l) ==> Cyclic(r))
  {
    var s := Nodes(l);
    var n := |l.next|;
    FollowChain(l.next, l.head, s, i - 1);
    var r := Add(l, i, e).value;
    assert r.next == (l.next + [l.next[s[i - 1]]])[s[i - 1] := n];
    InsertChain(l.next, r.next, l.head, s, i, n);
    var s' := s[..i] + [n] + s[i..];
    Establish(r, s');
    GatherKeep(l.data, r.data, s);
    GatherInsert(r.data, s, i, n);
    assert s'[r.size - 1] == s[l.size - 1];
  }

  /** removeFirst(): null on an empty list; otherwise head's element, with
      the node getNode(size - 1) re-linked to head's successor, which then
      becomes head. */
  function RemoveFirst<E>(l: List<E>): (r: Result<(List<E>, Option<E>)>)
    requires Store(l)
    ensures l.size == 0 ==> r == Success((l, None))
    ensures r.Success? && l.size > 0 ==> Store(r.value.0) && r.value.0.size == l.size - 1
  {
    if l.size == 0 then Success((l, None))
    else if !IsRef(l.next, l.head) then Failure(NullPointer)
    else
      var first := l.data[l.head];
      match GetNode(l, l.size - 1)
      case Failure(x) => Failure(x)
      case Success(tail) =>
        if !IsRef(l.next, tail) then Failure(NullPointer)
        else
          var next' := l.next[tail := l.next[l.head]];
          Success((l.(next := next', head := next'[l.head], size := l.size - 1), Some(first)))
  }

  /** On a valid non-empty list removeFirst returns the first element and
      drops it; what remains is cyclic, the old last node now linking to the
      new head. */
  lemma RemoveFirstSpec<E>(l: List<E>)
    requires Valid(l) && l.size > 0
    ensures RemoveFirst(l).Success?
    ensures var (r, v) := RemoveFirst(l).value;
            && Valid(r) && Cyclic(r)
            && v == Some(Elements(l).value[0])
            && Elements(r).value == Elements(l).value[1..]
  {
    GetNodeSpec(l, l.size - 1);
    if l.size == 1 {
      Establish(RemoveFirst(l).value.0, []);
    } else {
      DropFirst(l);
    }
  }

  /** removeFirst on two nodes or more: the old second node is head and the
      old last node links to it. */
  lemma DropFirst<E>(l: List<E>)
    requires Valid(l) && l.size >= 2
    ensures RemoveFirst(l).Success?
    ensures var r := RemoveFirst(l).value.0;
            Valid(r) && Cyclic(r) && Nodes(r) == Nodes(l)[1..]
  {
    var s := Nodes(l);
    GetNodeSpec(l, l.size - 1);
    assert l.next[s[0]] == s[1];
    var r := RemoveFirst(l).value.0;
    assert r.next == l.next[s[l.size - 1] := s[1]];
    assert r.head == s[1];
    DropChain(l.next, l.head, s, 1);
    KeepChain(l.next, r.next, s[1], s[1..]);
    Establish(r, s[1..]);
    assert Nodes(r)[r.size - 1] == s[l.size - 1];
  }

  /** removeLast(): null on an empty list; a single node goes as in
      removeFirst; otherwise the node getNode(size - 2) is linked to head
      and the old last node's element returned. */
  function RemoveLast<E>(l: List<E>): (r: Result<(List<E>, Option<E>)>)
    requires Store(l)
    ensures l.size == 0 ==> r == Success((l, None))
    ensures r.Success? && l.size > 0 ==> Store(r.value.0) && r.value.0.size == l.size - 1
  {
    if l.size == 0 then Success((l, None))
    else if l.size == 1 then RemoveFirst(l)
    else match GetNode(l, l.size - 2)
      case Failure(x) => Failure(x)
      case Success(preTail) =>
        if !IsRef(l.next, preTail) then Failure(NullPointer)
        else
          var tail := l.next[preTail];
          if !IsRef(l.next, tail) then Failure(NullPointer)
          else Success((l.(next := l.next[preTail := l.head], size := l.size - 1), Some(l.data[tail])))
  }

  /** On a valid non-empty list removeLast returns the last element and drops
      it; what remains is cyclic. */
  lemma RemoveLastSpec<E>(l: List<E>)
    requires Valid(l) && l.size > 0
    ensures RemoveLast(l).Success?
    ensures var (r, v) := RemoveLast(l).value;
            && Valid(r) && Cyclic(r)
            && v == Some(Elements(l).value[l.size - 1])
            && Elements(r).value == Elements(l).value[..l.size - 1]
  {
    if l.size == 1 {
      RemoveFirstSpec(l);
      assert Elements(l).value[..0] == Elements(l).value[1..];
    } else {
      var s := Nodes(l);
      GetNodeSpec(l, l.size - 2);
      assert l.next[s[l.size - 2]] == s[l.size - 1];
      var r := RemoveLast(l).value.0;
      TakeChain(l.next, l.head, s, l.size - 1);
      KeepChain(l.next, r.next, l.head, s[..l.size - 1]);
      Establish(r, s[..l.size - 1]);
    }
  }

  /** rotate(): nothing for fewer than two nodes; otherwise head moves to
      head's successor. */
  function Rotate<E>(l: List<E>): (r: Result<List<E>>)
    requires Store(l)
    ensures l.size <= 1 ==> r == Success(l)
    ensures r.Success? ==> Store(r.value) && r.value.size == l.size
  {
    if l.size <= 1 then Success(l)
    else if !IsRef(l.next, l.head) then Failure(NullPointer)
    else Success(l.(head := l.next[l.head]))
  }

  /** On a valid cyclic list, rotate moves the first element to the end and
      the list stays cyclic. */
  lemma RotateSpec<E>(l: List<E>)
    requires Valid(l) && Cyclic(l)
    ensures Rotate(l).Success? && Valid(Rotate(l).value) && Cyclic(Rotate(l).value)
    ensures l.size >= 1 ==>
              Elements(Rotate(l).value).value == Elements(l).value[1..] + [Elements(l).value[0]]
  {
    if l.size == 1 {
      assert Elements(l).value[1..] + [Elements(l).value[0]] == Elements(l).value;
    } else if l.size >= 2 {
      var r := Rotate(l).value;
      var s := Nodes(l);
      DropChain(l.next, l.head, s, 1);
      JoinChain(l.next, s[1], s[1..], [s[0]]);
      var s' := s[1..] + [s[0]];
      forall a, b | 0 <= a < b < |s'|
        ensures s'[a] != s'[b]
      {
        if b == |s'| - 1 {
          assert s'[a] == s[a + 1] && s'[b] == s[0];
        } else {
          assert s'[a] == s[a + 1] && s'[b] == s[b + 1];
        }
      }
      Establish(r, s');
    }
  }

  // ---------------------------------------------------------------------------
  // Defects: addFirst does not keep the list circular
  // ---------------------------------------------------------------------------

  /** After addFirst on a cyclic list of two or more elements, rotate walks
      from the old last node back into the old head instead of the new one:
      the new element disappears and the old first element shows twice. */
  lemma AddFirstThenRotate<E>(l: List<E>, e: E)
    requires Valid(l) && Cyclic(l) && l.size >= 2
    ensures Rotate(AddFirst(l, e)).Success?
    ensures var x := Elements(l).value;
            Elements(Rotate(AddFirst(l, e)).value) == Success(x + [x[0]])
  {
    var s := Nodes(l);
    AddFirstSpec(l, e);
    var a := AddFirst(l, e);
    var r := Rotate(a).value;
    assert r.head == s[0];
    KeepChain(l.next, a.next, l.head, s);
    JoinChain(a.next, l.head, s, [s[0]]);
    ChainOf(r.next, r.head, s + [s[0]]);
    GatherKeep(l.data, a.data, s);
    assert Gather(r.data, s + [s[0]]) == Gather(r.data, s) + [r.data[s[0]]];
  }

  /** addFirst as a circular list needs it: the new node becomes head and
      the last node (the new node itself, on an empty list) links to it. */
  function AddFirstLinked<E>(l: List<E>, e: E): (r: Result<List<E>>)
    requires Store(l)
    ensures r.Success? ==> Store(r.value) && r.value.size == l.size + 1
  {
    var n := |l.next|;
    if l.size == 0 then Success(List(l.data + [e], l.next + [n], n, 1))
    else match GetNode(l, l.size - 1)
      case Failure(x) => Failure(x)
      case Success(tail) =>
        if !IsRef(l.next, tail) then Failure(NullPointer)
        else Success(List(l.data + [e], (l.next + [l.head])[tail := n], n, l.size + 1))
  }

  /** On a valid list the corrected addFirst puts e in front and leaves the
      last node linked to the new head. */
  lemma AddFirstLinkedSpec<E>(l: List<E>, e: E)
    requires Valid(l)
    ensures AddFirstLinked(l, e).Success?
    ensures var r := AddFirstLinked(l, e).value;
            && Valid(r) && Cyclic(r) && Elements(r).value == [e] + Elements(l).value
            && r.next[Nodes(r)[r.size - 1]] == r.head
  {
    var n := |l.next|;
    if l.size == 0 {
      Establish(AddFirstLinked(l, e).value, [n]);
    } else {
      GetNodeSpec(l, l.size - 1);
      var r := AddFirstLinked(l, e).value;
      var s := Nodes(l);
      KeepChain(l.next, r.next, l.head, s);
      JoinChain(r.next, n, [n], s);
      Establish(r, [n] + s);
      GatherKeep(l.data, r.data, s);
      assert Gather(r.data, [n] + s) == [e] + Gather(r.data, s);
      assert Nodes(r)[r.size - 1] == s[l.size - 1];
    }
  }

  /** With the corrected addFirst, rotate moves the new element to the end. */
  lemma AddFirstLinkedThenRotate<E>(l: List<E>, e: E)
    requires Valid(l)
    ensures AddFirstLinked(l, e).Success? && Rotate(AddFirstLinked(l, e).value).Success?
    ensures Elements(Rotate(AddFirstLinked(l, e).value).value) == Success(Elements(l).value + [e])
  {
    AddFirstLinkedSpec(l, e);
    var a := AddFirstLinked(l, e).value;
    RotateSpec(a);
    assert Elements(a).value[1..] == Elements(l).value;
  }

  // ---------------------------------------------------------------------------
  // Defects: remove(i)
  // ---------------------------------------------------------------------------

  /** remove(i) as written: null when i < 0 or i > size; the ends go through
      removeFirst and removeLast; otherwise the node after prev (reached in
      i - 1 links) is skipped, and the element of prev's new successor is
      returned. The bound lets i == size through to the middle case. */
  function Remove<E>(l: List<E>, i: int): (r: Result<(List<E>, Option<E>)>)
    requires Store(l)
    ensures i < 0 || i > l.size ==> r == Success((l, None))
  {
    if i < 0 || i > l.size then Success((l, None))
    else if i == 0 then RemoveFirst(l)
    else if i == l.size - 1 then RemoveLast(l)
    else match Follow(l.next, l.head, i - 1)
      case Failure(x) => Failure(x)
      case Success(prev) =>
        if !IsRef(l.next, prev) || !IsRef(l.next, l.next[prev]) then Failure(NullPointer)
        else
          var next' := l.next[prev := l.next[l.next[prev]]];
          if !IsRef(l.next, next'[prev]) then Failure(NullPointer)
          else Success((l.(next := next', size := l.size - 1), Some(l.data[next'[prev]])))
  }

  /** For a middle index, remove(i) unlinks the i-th element but returns the
      element after it. */
  lemma RemoveReturnsSuccessor<E>(l: List<E>, i: int)
    requires Valid(l) && 0 < i < l.size - 1
    ensures Remove(l, i).Success?
    ensures var x := Elements(l).value;
            && Remove(l, i).value.1 == Some(x[i + 1])
            && Elements(Remove(l, i).value.0) == Success(x[..i] + x[i + 1..])
  {
    var s := Nodes(l);
    FollowChain(l.next, l.head, s, i - 1);
    assert l.next[s[i - 1]] == s[i] && l.next[s[i]] == s[i + 1];
    var r := Remove(l, i).value.0;
    UnlinkChain(l.next, r.next, l.head, s, i);
    Establish(r, s[..i] + s[i + 1..]);
    GatherRemove(l.data, s, i);
  }

  /** On a cyclic list of two or more, remove(size) is accepted: it drops
      the last element from view, returns the second, and leaves the list
      no longer cyclic. */
  lemma RemoveAtSize<E>(l: List<E>)
    requires Valid(l) && Cyclic(l) && l.size >= 2
    ensures Remove(l, l.size).Success?
    ensures var x := Elements(l).value;
            && Remove(l, l.size).value.1 == Some(x[1])
            && Elements(Remove(l, l.size).value.0) == Success(x[..l.size - 1])
  {
    var s := Nodes(l);
    FollowChain(l.next, l.head, s, l.size - 1);
    assert l.next[s[l.size - 1]] == s[0] && l.next[s[0]] == s[1];
    var r := Remove(l, l.size).value.0;
    assert r.next == l.next[s[l.size - 1] := s[1]];
    TakeChain(l.next, l.head, s, l.size - 1);
    KeepChain(l.next, r.next, l.head, s[..l.size - 1]);
    Establish(r, s[..l.size - 1]);
    assert Gather(l.data, s[..l.size - 1]) == Gather(l.data, s)[..l.size - 1];
  }

  /** remove(i) as documented: null unless 0 <= i < size; otherwise the
      i-th node is unlinked and its own element returned. */
  function RemoveAt<E>(l: List<E>, i: int): (r: Result<(List<E>, Option<E>)>)
    requires Store(l)
    ensures !(0 <= i < l.size) ==> r == Success((l, None))
  {
    if i < 0 || i >= l.size then Success((l, None))
    else if i == 0 then RemoveFirst(l)
    else if i == l.size - 1 then RemoveLast(l)
    else match Follow(l.next, l.head, i - 1)
      case Failure(x) => Failure(x)
      case Success(prev) =>
        if !IsRef(l.next, prev) || !IsRef(l.next, l.next[prev]) then Failure(NullPointer)
        else
          var target := l.next[prev];
          Success((l.(next := l.next[prev := l.next[target]], size := l.size - 1), Some(l.data[target])))
  }

  /** On a valid list the corrected remove(i) returns the i-th element and
      drops it, keeping a cyclic list cyclic. */
  lemma RemoveAtSpec<E>(l: List<E>, i: int)
    requires Valid(l) && 0 <= i < l.size
    ensures RemoveAt(l, i).Success?
    ensures var (r, v) := RemoveAt(l, i).value;
            var x := Elements(l).value;
            && Valid(r) && v == Some(x[i])
            && Elements(r).value == x[..i] + x[i + 1..]
            && (Cyclic(l) ==> Cyclic(r))
  {
    var x := Elements(l).value;
    if i == 0 {
      assert RemoveAt(l, i) == RemoveFirst(l);
      RemoveFirstSpec(l);
      assert x[..0] + x[1..] == x[1..];
    } else if i == l.size - 1 {
      assert RemoveAt(l, i) == RemoveLast(l);
      RemoveLastSpec(l);
      assert x[..i] + x[i + 1..] == x[..i];
    } else {
      UnlinkSpec(l, i);
    }
  }

  /** The middle case of RemoveAtSpec. */
  lemma UnlinkSpec<E>(l: List<E>, i: int)
    requires Valid(l) && 0 < i < l.size - 1
    ensures RemoveAt(l, i).Success?
    ensures var (r, v) := RemoveAt(l, i).value;
            var x := Elements(l).value;
            && Valid(r) && v == Some(x[i])
            && Elements(r).value == x[..i] + x[i + 1..]
            && (Cyclic(l) ==> Cyclic(r))
  {
    var s := Nodes(l);
    FollowChain(l.next, l.head, s, i - 1);
    assert l.next[s[i - 1]] == s[i];
    var r := l.(next := l.next[s[i - 1] := l.next[s[i]]], size := l.size - 1);
    assert RemoveAt(l, i) == Success((r, Some(l.data[s[i]])));
    UnlinkChain(l.next, r.next, l.head, s, i);
    var s' := s[..i] + s[i + 1..];
    Establish(r, s');
    GatherRemove(l.data, s, i);
    assert s'[r.size - 1] == s[l.size - 1];
  }
}
