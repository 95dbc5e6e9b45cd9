/** SinglyLinkedList.java: a chain of nodes from `head` to `tail`, each
    linking to the next, with an element count `size`. */
module SinglyLinkedList {
  import opened Wrappers
  import opened Links

  /** The list object over its node store: node fields `data` and `next`,
      and the `head`, `tail` and `size` fields. */
  datatype List<E> = List(data: seq<E>, next: seq<int>, head: int, tail: int, size: int)

  /** The object invariant: the `size` nodes from head are distinct, the
      last of them is `tail` and links to null, and an empty list has null
      head and tail. */
  ghost predicate Valid<E>(l: List<E>)
  {
    && |l.data| == |l.next|
    && l.size >= 0
    && var c := Chain(l.next, l.head, l.size);
    && c.Success?
    && Distinct(c.value)
    && (l.size == 0 ==> l.head == Null && l.tail == Null)
    && (l.size > 0 ==> l.tail == c.value[l.size - 1] && l.next[l.tail] == Null)
  }

  /** The list's nodes, head first. */
  function Nodes<E>(l: List<E>): (s: seq<int>)
    requires Valid(l)
    ensures |s| == l.size && IsChain(l.next, l.head, s) && Distinct(s)
  {
    ChainIs(l.next, l.head, l.size);
    Chain(l.next, l.head, l.size).value
  }

  /** The list's elements, head first. */
  function Elements<E>(l: List<E>): (r: seq<E>)
    requires Valid(l)
    ensures |r| == l.size
  {
    Gather(l.data, Nodes(l))
  }

  /** A list whose nodes from head are s, meeting the invariant's other
      conditions, is valid with exactly those nodes. */
  lemma Establish<E>(l: List<E>, s: seq<int>)
    requires |l.data| == |l.next| && l.size == |s|
    requires IsChain(l.next, l.head, s) && Distinct(s)
    requires |s| == 0 ==> l.head == Null && l.tail == Null
    requires |s| > 0 ==> l.tail == s[|s| - 1] && l.next[l.tail] == Null
    ensures Valid(l) && Nodes(l) == s
  {
    ChainOf(l.next, l.head, s);
  }

  /** new SinglyLinkedList(): no nodes, null head and tail. */
  function Empty<E>(): List<E>
  {
    List([], [], Null, Null, 0)
  }

  /** The new list is valid and has no elements. */
  lemma EmptySpec<E>()
    ensures Valid(Empty<E>()) && Elements(Empty<E>()) == []
  {
    Establish(Empty<E>(), []);
  }

  function Size<E>(l: List<E>): int { l.size }

  predicate IsEmpty<E>(l: List<E>) { l.size == 0 }

  /** get(i): walks i links from head; null outside 0 <= i < size. */
  function Get<E>(l: List<E>, i: int): (r: Option<E>)
    requires Valid(l)
    ensures 0 <= i < |Elements(l)| ==> r == Some(Elements(l)[i])
    ensures !(0 <= i < |Elements(l)|) ==> r == None
  {
    if i < 0 || i >= l.size then None
    else
      FollowChain(l.next, l.head, Nodes(l), i);
      Some(l.data[Follow(l.next, l.head, i).value])
  }

  /** first(): get(0), null on an empty list. */
  function First<E>(l: List<E>): (r: Option<E>)
    requires Valid(l)
    ensures r.None? <==> Elements(l) == []
    ensures r.Some? ==> r.value == Elements(l)[0]
  {
    Get(l, 0)
  }

  /** last(): get(size - 1), null on an empty list. */
  function Last<E>(l: List<E>): (r: Option<E>)
    requires Valid(l)
    ensures r.None? <==> Elements(l) == []
    ensures r.Some? ==> r.value == Elements(l)[|Elements(l)| - 1]
  {
    Get(l, l.size - 1)
  }

  /** addFirst(e): a new head node linking to the old head; the new node is
      also the tail when the list was empty. */
  function AddFirst<E>(l: List<E>, e: E): (r: List<E>)
    requires Valid(l)
    ensures Valid(r) && Elements(r) == [e] + Elements(l)
  {
    var n := |l.next|;
    var r := List(l.data + [e], l.next + [l.head], n, if l.tail == Null then n else l.tail, l.size + 1);
    var s := Nodes(l);
    KeepChain(l.next, r.next, l.head, s);
    JoinChain(r.next, n, [n], s);
    assert [n] + s == ([n] + s)[..];
    Establish(r, [n] + s);
    assert Elements(r) == [e] + Elements(l);
    r
  }

  /** addLast(e): on an empty list, addFirst; otherwise a new node after the
      tail, which becomes the tail. */
  function AddLast<E>(l: List<E>, e: E): (r: List<E>)
    requires Valid(l)
    ensures Valid(r) && Elements(r) == Elements(l) + [e]
  {
    if l.size == 0 then AddFirst(l, e)
    else
      var n := |l.next|;
      var r := List(l.data + [e], (l.next + [Null])[l.tail := n], l.head, n, l.size + 1);
      var s := Nodes(l);
      KeepChain(l.next, r.next, l.head, s);
      JoinChain(r.next, l.head, s, [n]);
      Establish(r, s + [n]);
      assert Elements(r) == Elements(l) + [e];
      r
  }

  /** add(i, e): fails unless 0 <= i <= size; at either end it is addFirst
      or addLast; otherwise a new node goes after the (i-1)-th. */
  function Add<E>(l: List<E>, i: int, e: E): (r: Result<List<E>>)
    requires Valid(l)
    ensures r.Failure? <==> !(0 <= i <= |Elements(l)|)
    ensures r.Failure? ==> r.error == IllegalArgument
    ensures r.Success? ==> Valid(r.value) && Elements(r.value) == Elements(l)[..i] + [e] + Elements(l)[i..]
  {
    if i < 0 || i > l.size then Failure(IllegalArgument)
    else if i == 0 then Success(AddFirst(l, e))
    else if i == l.size then Success(AddLast(l, e))
    else Success(InsertAfter(l, i, e))
  }

  /** The middle case of add(i, e): a new node linked after the node
      reached by i-1 steps from head (`while (--i > 0) prev = prev.next`). */
  function InsertAfter<E>(l: List<E>, i: int, e: E): (r: List<E>)
    requires Valid(l) && 0 < i < l.size
    ensures Valid(r) && Elements(r) == Elements(l)[..i] + [e] + Elements(l)[i..]
  {
    var s := Nodes(l);
    FollowChain(l.next, l.head, s, i - 1);
    var prev := Follow(l.next, l.head, i - 1).value;
    var n := |l.next|;
    var r := List(l.data + [e], (l.next + [l.next[prev]])[prev := n], l.head, l.tail, l.size + 1);
    InsertChain(l.next, r.next, l.head, s, i, n);
    Establish(r, s[..i] + [n] + s[i..]);
    GatherKeep(l.data, r.data, s);
    GatherInsert(r.data, s, i, n);
    r
  }

  /** removeFirst(): fails on an empty list; otherwise the head's element,
      with the head moved on (head and tail cleared when it was the only
      node). */
  function RemoveFirst<E>(l: List<E>): (r: Result<(List<E>, E)>)
    requires Valid(l)
    ensures r.Failure? <==> Elements(l) == []
    ensures r.Failure? ==> r.error == Runtime
    ensures r.Success? ==> Valid(r.value.0) && r.value.1 == Elements(l)[0]
    ensures r.Success? ==> Elements(r.value.0) == Elements(l)[1..]
  {
    if l.size == 0 then Failure(Runtime)
    else
      var s := Nodes(l);
      var removed := l.data[l.head];
      if l.size == 1 then
        var r := l.(head := Null, tail := Null, size := 0);
        Establish(r, []);
        Success((r, removed))
      else
        var r := l.(head := l.next[l.head], size := l.size - 1);
        DropChain(l.next, l.head, s, 1);
        Establish(r, s[1..]);
        assert Elements(r) == Elements(l)[1..];
        Success((r, removed))
  }

  /** The search of removeLast: from r, the first node whose successor is t
      (`while (preTail.next != tail) preTail = preTail.next`). The walk is
      cut off after `fuel` steps. */
  function SeekBefore(next: seq<int>, r: int, t: int, fuel: nat): Result<int>
    decreases fuel
  {
    if !IsRef(next, r) then Failure(NullPointer)
    else if next[r] == t then Success(r)
    else if fuel == 0 then Failure(NullPointer)
    else SeekBefore(next, next[r], t, fuel - 1)
  }

  /** On a walk of distinct nodes, the search from the j-th node for the
      node before the last one finds it. */
  lemma {:induction false} SeekBeforeLast(next: seq<int>, r: int, s: seq<int>, j: nat, fuel: nat)
    requires IsChain(next, r, s) && Distinct(s) && |s| >= 2
    requires j <= |s| - 2 && fuel >= |s| - 2 - j
    ensures SeekBefore(next, s[j], s[|s| - 1], fuel) == Success(s[|s| - 2])
    decreases |s| - j
  {
    assert next[s[j]] == s[j + 1];
    if j < |s| - 2 {
      assert s[j + 1] != s[|s| - 1];
      SeekBeforeLast(next, r, s, j + 1, fuel - 1);
    }
  }

  /** removeLast(): fails on an empty list; a single node goes as in
      removeFirst; otherwise the node before the tail becomes the tail. */
  function RemoveLast<E>(l: List<E>): (r: Result<(List<E>, E)>)
    requires Valid(l)
    ensures r.Failure? <==> Elements(l) == []
    ensures r.Failure? ==> r.error == Runtime
    ensures r.Success? ==> Valid(r.value.0) && r.value.1 == Elements(l)[|Elements(l)| - 1]
    ensures r.Success? ==> Elements(r.value.0) == Elements(l)[..|Elements(l)| - 1]
  {
    if l.size == 0 then Failure(Runtime)
    else if l.size == 1 then RemoveFirst(l)
    else
      var s := Nodes(l);
      var removed := l.data[l.tail];
      SeekBeforeLast(l.next, l.head, s, 0, l.size);
      var preTail := SeekBefore(l.next, l.head, l.tail, l.size).value;
      var r := l.(next := l.next[preTail := Null], tail := preTail, size := l.size - 1);
      TakeChain(l.next, l.head, s, l.size - 1);
      KeepChain(l.next, r.next, l.head, s[..l.size - 1]);
      Establish(r, s[..l.size - 1]);
      assert Elements(r) == Elements(l)[..l.size - 1];
      Success((r, removed))
  }

  /** remove(i): fails on an empty list (RuntimeException) and for i outside
      0 <= i < size (IllegalArgumentException); the ends go through
      removeFirst and removeLast; otherwise the i-th node is unlinked from
      its predecessor and its element returned. */
  function Remove<E>(l: List<E>, i: int): (r: Result<(List<E>, E)>)
    requires Valid(l)
    ensures Elements(l) == [] ==> r == Failure(Runtime)
    ensures Elements(l) != [] && !(0 <= i < |Elements(l)|) ==> r == Failure(IllegalArgument)
    ensures r.Success? <==> 0 <= i < |Elements(l)|
    ensures r.Success? ==> Valid(r.value.0) && r.value.1 == Elements(l)[i]
    ensures r.Success? ==> Elements(r.value.0) == Elements(l)[..i] + Elements(l)[i + 1..]
  {
    if l.size == 0 then Failure(Runtime)
    else if i >= l.size || i < 0 then Failure(IllegalArgument)
    else if i == 0 then
      assert Elements(l)[..0] + Elements(l)[1..] == Elements(l)[1..];
      RemoveFirst(l)
    else if i == l.size - 1 then
      assert Elements(l)[..i] + Elements(l)[i + 1..] == Elements(l)[..i];
      RemoveLast(l)
    else Success(Unlink(l, i))
  }

  /** The middle case of remove(i): the node i steps from head is skipped
      by its predecessor, and its element returned. */
  function Unlink<E>(l: List<E>, i: int): (r: (List<E>, E))
    requires Valid(l) && 0 < i < l.size - 1
    ensures Valid(r.0) && r.1 == Elements(l)[i]
    ensures Elements(r.0) == Elements(l)[..i] + Elements(l)[i + 1..]
  {
    var s := Nodes(l);
    FollowChain(l.next, l.head, s, i);
    FollowChain(l.next, l.head, s, i - 1);
    var target := Follow(l.next, l.head, i).value;
    var preTarget := Follow(l.next, l.head, i - 1).value;
    var r := l.(next := l.next[preTarget := l.next[target]], size := l.size - 1);
    UnlinkChain(l.next, r.next, l.head, s, i);
    Establish(r, s[..i] + s[i + 1..]);
    GatherRemove(l.data, s, i);
    (r, l.data[target])
  }

  // ---------------------------------------------------------------------------
  // ListIterator
  // ---------------------------------------------------------------------------

  /** The iterator's cursor: the node whose element `next()` returns. */
  datatype Iter = Iter(curr: int)

  /** iterator(): a cursor at the head. */
  function Start<E>(l: List<E>): Iter { Iter(l.head) }

  /** hasNext(): the cursor is not null. */
  predicate HasNext(it: Iter) { it.curr != Null }

  /** next(): the cursor's element, with the cursor moved on; a null cursor
      fails. */
  function Next<E>(l: List<E>, it: Iter): Result<(E, Iter)>
    requires |l.data| == |l.next|
  {
    if IsRef(l.next, it.curr) then Success((l.data[it.curr], Iter(l.next[it.curr])))
    else Failure(NullPointer)
  }

  /** k calls of next(), collecting what they return. */
  function Advance<E>(l: List<E>, it: Iter, k: nat): Result<(seq<E>, Iter)>
    requires |l.data| == |l.next|
    decreases k
  {
    if k == 0 then Success(([], it))
    else match Next(l, it)
      case Failure(e) => Failure(e)
      case Success((x, it')) =>
        match Advance(l, it', k - 1)
        case Failure(e) => Failure(e)
        case Success((xs, it'')) => Success(([x] + xs, it''))
  }

  /** Iteration yields the elements head to tail: after k <= size calls
      the cursor still has a next element exactly when k < size. */
  lemma IteratorYieldsElements<E>(l: List<E>, k: nat)
    requires Valid(l) && k <= |Elements(l)|
    ensures Advance(l, Start(l), k).Success?
    ensures Advance(l, Start(l), k).value.0 == Elements(l)[..k]
    ensures HasNext(Advance(l, Start(l), k).value.1) <==> k < |Elements(l)|
  {
    var s := Nodes(l);
    AdvanceAlong(l, s, 0, k);
    if k < l.size {
      assert Advance(l, Start(l), k).value.1.curr == s[k];
    } else if k > 0 {
      assert Advance(l, Start(l), k).value.1.curr == l.next[s[k - 1]] == Null;
    }
  }

  /** Iteration from the j-th node, k steps. */
  lemma AdvanceAlong<E>(l: List<E>, s: seq<int>, j: nat, k: nat)
    requires Valid(l) && s == Nodes(l) && j + k <= |s|
    ensures j < |s| ==>
              && Advance(l, Iter(s[j]), k).Success?
              && Advance(l, Iter(s[j]), k).value.0 == Elements(l)[j..j + k]
              && Advance(l, Iter(s[j]), k).value.1.curr == (if j + k < |s| then s[j + k] else l.next[s[|s| - 1]])
    ensures j == |s| == 0 ==> Advance(l, Iter(l.head), k) == Success(([], Iter(l.head)))
  {
    if j < |s| {
      AdvanceWalk(l, s, j, k);
    }
  }

  /** The same along any walk s of the store: k steps from its j-th node
      collect the data of nodes j .. j + k - 1. */
  lemma {:induction false} AdvanceWalk<E>(l: List<E>, s: seq<int>, j: nat, k: nat)
    requires |l.data| == |l.next| && IsChain(l.next, l.head, s) && j < |s| && j + k <= |s|
    ensures
      var e := Gather(l.data, s);
      && Advance(l, Iter(s[j]), k).Success?
      && Advance(l, Iter(s[j]), k).value.0 == e[j..j + k]
      && Advance(l, Iter(s[j]), k).value.1.curr == (if j + k < |s| then s[j + k] else l.next[s[|s| - 1]])
    decreases k
  {
    var e := Gather(l.data, s);
    if k == 0 {
      assert e[j..j] == [];
    } else {
      assert IsRef(l.next, s[j]) && e[j] == l.data[s[j]];
      assert Next(l, Iter(s[j])) == Success((e[j], Iter(l.next[s[j]])));
      if j + 1 < |s| {
        assert l.next[s[j]] == s[j + 1];
        if k > 1 {
          AdvanceWalk(l, s, j + 1, k - 1);
        } else {
          assert e[j + 1..j + 1] == [];
        }
      } else {
        assert k == 1 && e[j + 1..j + 1] == [];
      }
      assert e[j..j + k] == [e[j]] + e[j + 1..j + k];
    }
  }
}
