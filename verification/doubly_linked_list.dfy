/** DoublyLinkedList.java: nodes linked both ways between two element-less
    sentinels, `header` before the first element and `trailer` after the
    last, with an element count `size`. */
module DoublyLinkedList {
  import opened Wrappers
  import opened Links

  /** The list object over its node store: node fields `data` (null, that
      is `None`, in the sentinels), `prev` and `next`, and the `header`,
      `trailer` and `size` fields. */
  datatype List<E> = List(data: seq<Option<E>>, prev: seq<int>, next: seq<int>, header: int, trailer: int, size: int)

  /** Every node of the walk c except the first has its predecessor in c as
      `prev`: the backward links mirror the forward ones. */
  ghost predicate Backward(prev: seq<int>, c: seq<int>)
  {
    forall k :: 1 <= k < |c| ==> 0 <= c[k] < |prev| && prev[c[k]] == c[k - 1]
  }

  /** The object invariant: walking `next` from header meets `size` distinct
      element nodes and then trailer, the `prev` links mirror that walk, and
      the element nodes carry data. */
  ghost predicate Valid<E>(l: List<E>)
  {
    && |l.data| == |l.next| && |l.prev| == |l.next|
    && l.size >= 0
    && var c := Chain(l.next, l.header, l.size + 2);
    && c.Success?
    && Distinct(c.value)
    && c.value[l.size + 1] == l.trailer
    && Backward(l.prev, c.value)
    && (forall k :: 1 <= k <= l.size ==> l.data[c.value[k]].Some?)
  }

  /** The whole walk: header, the element nodes, trailer. */
  function Frame<E>(l: List<E>): (c: seq<int>)
    requires Valid(l)
    ensures |c| == l.size + 2 && IsChain(l.next, l.header, c) && Distinct(c)
    ensures c[0] == l.header && c[l.size + 1] == l.trailer
    ensures Backward(l.prev, c)
    ensures forall k :: 1 <= k <= l.size ==> l.data[c[k]].Some?
  {
    ChainIs(l.next, l.header, l.size + 2);
    Chain(l.next, l.header, l.size + 2).value
  }

  /** A list whose walk from header is c, meeting the invariant's other
      conditions, is valid with exactly that walk. */
  lemma Establish<E>(l: List<E>, c: seq<int>)
    requires |l.data| == |l.next| && |l.prev| == |l.next|
    requires l.size >= 0 && |c| == l.size + 2
    requires IsChain(l.next, l.header, c) && Distinct(c) && c[l.size + 1] == l.trailer
    requires Backward(l.prev, c)
    requires forall k :: 1 <= k <= l.size ==> l.data[c[k]].Some?
    ensures Valid(l) && Frame(l) == c
  {
    ChainOf(l.next, l.header, c);
  }

  /** The values of the data of nodes that all carry data. */
  function Unwrap<E>(g: seq<Option<E>>): (r: seq<E>)
    requires forall k :: 0 <= k < |g| ==> g[k].Some?
    ensures |r| == |g| && forall k :: 0 <= k < |g| ==> r[k] == g[k].value
  {
    seq(|g|, k requires 0 <= k < |g| && (forall j :: 0 <= j < |g| ==> g[j].Some?) => g[k].value)
  }

  /** The list's elements, first to last. */
  function Elements<E>(l: List<E>): (r: seq<E>)
    requires Valid(l)
    ensures |r| == l.size
    ensures forall k :: 0 <= k < l.size ==> Some(r[k]) == l.data[Frame(l)[k + 1]]
  {
    var c := Frame(l);
    Unwrap(Gather(l.data, c[1..l.size + 1]))
  }

  /** new DoublyLinkedList(): a header and a trailer linked to each other. */
  function Empty<E>(): List<E>
  {
    List([None, None], [Null, 0], [1, Null], 0, 1, 0)
  }

  /** The new list is valid and has no elements; its header and trailer
      are linked to each other. */
  lemma EmptySpec<E>()
    ensures Valid(Empty<E>()) && Elements(Empty<E>()) == []
    ensures var l := Empty<E>(); l.next[l.header] == l.trailer && l.prev[l.trailer] == l.header
  {
    Establish(Empty<E>(), [0, 1]);
  }

  function Size<E>(l: List<E>): int { l.size }

  predicate IsEmpty<E>(l: List<E>) { l.size == 0 }

  /** addBetween(e, predecessor, successor) for two neighbours of the walk,
      the j-th and (j+1)-th: a new node between them, linked both ways, and
      one more element, at position j. */
  function AddBetween<E>(l: List<E>, e: E, pred: int, succ: int, ghost j: int): (r: List<E>)
    requires Valid(l) && 0 <= j <= l.size
    requires pred == Frame(l)[j] && succ == Frame(l)[j + 1]
    ensures Valid(r) && Elements(r) == Elements(l)[..j] + [e] + Elements(l)[j..]
    ensures var n := |l.next|;
            && Frame(r)[j + 1] == n
            && r.next[pred] == n && r.prev[n] == pred
            && r.next[n] == succ && r.prev[succ] == n
  {
    var n := |l.next|;
    var r := l.(data := l.data + [Some(e)],
                prev := (l.prev + [pred])[succ := n],
                next := (l.next + [succ])[pred := n],
                size := l.size + 1);
    InsertValid(l, r, e, j, n);
    ElementsInsert(l, r, Frame(l), Frame(r), j, n, e);
    r
  }

  /** The record addBetween builds is a valid list whose walk has the new
      node at position j + 1. */
  lemma InsertValid<E>(l: List<E>, r: List<E>, e: E, j: int, n: int)
    requires Valid(l) && 0 <= j <= l.size && n == |l.next|
    requires r == l.(data := l.data + [Some(e)],
                     prev := (l.prev + [Frame(l)[j]])[Frame(l)[j + 1] := n],
                     next := (l.next + [Frame(l)[j + 1]])[Frame(l)[j] := n],
                     size := l.size + 1)
    ensures Valid(r) && Frame(r) == Frame(l)[..j + 1] + [n] + Frame(l)[j + 1..]
  {
    var c := Frame(l);
    var c' := c[..j + 1] + [n] + c[j + 1..];
    assert l.next[c[j]] == c[j + 1];
    InsertChain(l.next, r.next, l.header, c, j + 1, n);
    assert forall k :: 0 <= k < |c| ==> 0 <= c[k] < |l.next|;
    BackwardInsert(l.prev, r.prev, c, j + 1, n);
    InsertCarriesData(l.data, c, j + 1, e);
    assert |c'| == r.size + 2 && c'[r.size + 1] == c[l.size + 1];
    Establish(r, c');
  }

  /** After inserting a fresh node carrying e at position i of a walk whose
      inner nodes carry data, the inner nodes still all carry data. */
  lemma InsertCarriesData<E>(data: seq<Option<E>>, c: seq<int>, i: int, e: E)
    requires 1 <= i < |c|
    requires forall k :: 0 <= k < |c| ==> 0 <= c[k] < |data|
    requires forall k :: 1 <= k < |c| - 1 ==> data[c[k]].Some?
    ensures var c' := c[..i] + [|data|] + c[i..];
            forall k :: 1 <= k < |c'| - 1 ==> 0 <= c'[k] <= |data| && (data + [Some(e)])[c'[k]].Some?
  {
    var c' := c[..i] + [|data|] + c[i..];
    forall k | 1 <= k < |c'| - 1
      ensures 0 <= c'[k] <= |data| && (data + [Some(e)])[c'[k]].Some?
    {
      if k < i {
        assert c'[k] == c[k];
      } else if k > i {
        assert c'[k] == c[k - 1];
      }
    }
  }

  /** Inserting n at position i of a walk whose backward links mirror it,
      with n's prev set to the node before and the node after pointed back
      at n, keeps the mirror. */
  lemma BackwardInsert(prev: seq<int>, prev': seq<int>, c: seq<int>, i: nat, n: int)
    requires Backward(prev, c) && Distinct(c) && 0 < i < |c|
    requires forall k :: 0 <= k < |c| ==> 0 <= c[k] < |prev|
    requires n == |prev| && prev' == (prev + [c[i - 1]])[c[i] := n]
    ensures Backward(prev', c[..i] + [n] + c[i..])
  {
    var c' := c[..i] + [n] + c[i..];
    forall k | 1 <= k < |c'|
      ensures 0 <= c'[k] < |prev'| && prev'[c'[k]] == c'[k - 1]
    {
      if k < i {
        assert c'[k] == c[k] && c'[k - 1] == c[k - 1];
      } else if k == i {
        assert c'[k] == n && c'[k - 1] == c[i - 1];
      } else if k == i + 1 {
        assert c'[k] == c[i] && c'[k - 1] == n;
      } else {
        assert c'[k] == c[k - 1] && c'[k - 1] == c[k - 2];
      }
    }
  }

  /** The elements after an insertion at position j. */
  lemma ElementsInsert<E>(l: List<E>, r: List<E>, c: seq<int>, c': seq<int>, j: int, n: int, e: E)
    requires Valid(l) && Valid(r) && c == Frame(l) && c' == Frame(r)
    requires 0 <= j <= l.size && r.size == l.size + 1
    requires n == |l.data| && r.data == l.data + [Some(e)]
    requires c' == c[..j + 1] + [n] + c[j + 1..]
    ensures Elements(r) == Elements(l)[..j] + [e] + Elements(l)[j..]
  {
    var x, y := Elements(l), Elements(r);
    var z := x[..j] + [e] + x[j..];
    forall k | 0 <= k < r.size
      ensures y[k] == z[k]
    {
      assert Some(y[k]) == r.data[c'[k + 1]];
      if k < j {
        assert c'[k + 1] == c[k + 1] && Some(x[k]) == l.data[c[k + 1]];
      } else if k > j {
        assert c'[k + 1] == c[k] && Some(x[k - 1]) == l.data[c[k]];
      }
    }
    assert |y| == |z|;
  }

  /** getNode(i): the node i steps after the first element node; null
      outside 0 <= i < size. */
  function GetNode<E>(l: List<E>, i: int): (r: int)
    requires Valid(l)
    ensures 0 <= i < l.size ==> r == Frame(l)[i + 1]
    ensures !(0 <= i < l.size) ==> r == Null
  {
    if i < 0 || i >= l.size then Null
    else
      var c := Frame(l);
      DropChain(l.next, l.header, c, 1);
      FollowChain(l.next, c[1], c[1..], i);
      Follow(l.next, l.next[l.header], i).value
  }

  /** get(i): the data of getNode(i); null outside 0 <= i < size. */
  function Get<E>(l: List<E>, i: int): (r: Option<E>)
    requires Valid(l)
    ensures 0 <= i < |Elements(l)| ==> r == Some(Elements(l)[i])
    ensures !(0 <= i < |Elements(l)|) ==> r == None
  {
    if i < 0 || i >= l.size then None else l.data[GetNode(l, i)]
  }

  /** first(): get(0), null on an empty list. */
  function First<E>(l: List<E>): (r: Option<E>)
    requires Valid(l)
    ensures r.None? <==> Elements(l) == []
    ensures r.Some? ==> r.value == Elements(l)[0]
  {
    Get(l, 0)
  }

  /** last(): get(size - 1), null on an empty list. */
  function Last<E>(l: List<E>): (r: Option<E>)
    requires Valid(l)
    ensures r.None? <==> Elements(l) == []
    ensures r.Some? ==> r.value == Elements(l)[|Elements(l)| - 1]
  {
    Get(l, l.size - 1)
  }

  /** addFirst(e): addBetween(e, header, header.next). */
  function AddFirst<E>(l: List<E>, e: E): (r: List<E>)
    requires Valid(l)
    ensures Valid(r) && Elements(r) == [e] + Elements(l)
  {
    AddBetween(l, e, l.header, l.next[l.header], 0)
  }

  /** addLast(e): addBetween(e, trailer.prev, trailer). */
  function AddLast<E>(l: List<E>, e: E): (r: List<E>)
    requires Valid(l)
    ensures Valid(r) && Elements(r) == Elements(l) + [e]
  {
    var c := Frame(l);
    assert Elements(l)[..l.size] == Elements(l);
    AddBetween(l, e, l.prev[l.trailer], l.trailer, l.size)
  }

  /** add(i, e): fails with IndexOutOfBounds unless 0 <= i <= size; at the
      ends it is addFirst or addLast; otherwise addBetween after
      getNode(i-1). */
  function Add<E>(l: List<E>, i: int, e: E): (r: Result<List<E>>)
    requires Valid(l)
    ensures r.Failure? <==> !(0 <= i <= |Elements(l)|)
    ensures r.Failure? ==> r.error == IndexOutOfBounds
    ensures r.Success? ==> Valid(r.value) && Elements(r.value) == Elements(l)[..i] + [e] + Elements(l)[i..]
  {
    if i < 0 || i > l.size then Failure(IndexOutOfBounds)
    else if i == 0 then Success(AddFirst(l, e))
    else if i == l.size then Success(AddLast(l, e))
    else
      var pred := GetNode(l, i - 1);
      Success(AddBetween(l, e, pred, l.next[pred], i))
  }

  /** remove(i): getNode(i), which is null outside 0 <= i < size and then
      fails on dereference; otherwise the node is unlinked both ways and
      its element returned. */
  function Remove<E>(l: List<E>, i: int): (r: Result<(List<E>, E)>)
    requires Valid(l)
    ensures r.Failure? <==> !(0 <= i < |Elements(l)|)
    ensures r.Failure? ==> r.error == NullPointer
    ensures r.Success? ==> Valid(r.value.0) && r.value.1 == Elements(l)[i]
    ensures r.Success? ==> Elements(r.value.0) == Elements(l)[..i] + Elements(l)[i + 1..]
  {
    var node := GetNode(l, i);
    if !IsRef(l.next, node) then Failure(NullPointer)
    else Success(Unlink(l, i))
  }

  /** The effect of remove(i) on a node that exists: its predecessor and
      successor are linked to each other in both directions. */
  function Unlink<E>(l: List<E>, i: int): (r: (List<E>, E))
    requires Valid(l) && 0 <= i < l.size
    ensures Valid(r.0) && r.1 == Elements(l)[i]
    ensures Elements(r.0) == Elements(l)[..i] + Elements(l)[i + 1..]
    ensures |r.0.next| == |l.next| && |r.0.prev| == |l.prev|
    ensures var c := Frame(l);
            r.0.next[c[i]] == c[i + 2] && r.0.prev[c[i + 2]] == c[i]
  {
    var c := Frame(l);
    var node := GetNode(l, i);
    var p := l.prev[node];
    var nx := l.next[node];
    assert node == c[i + 1] && p == c[i] && nx == c[i + 2];
    var r := l.(next := l.next[p := nx], prev := l.prev[nx := p], size := l.size - 1);
    UnlinkValid(l, c, r, i);
    ElementsRemove(l, r, c, Frame(r), i);
    (r, l.data[node].value)
  }

  /** The record remove(i) builds is a valid list whose walk lacks the
      i-th element node. */
  lemma UnlinkValid<E>(l: List<E>, c: seq<int>, r: List<E>, i: int)
    requires |l.data| == |l.next| && |l.prev| == |l.next|
    requires 0 <= i < l.size && |c| == l.size + 2
    requires IsChain(l.next, l.header, c) && Distinct(c) && c[l.size + 1] == l.trailer
    requires Backward(l.prev, c)
    requires forall k :: 1 <= k <= l.size ==> l.data[c[k]].Some?
    requires r == l.(next := l.next[c[i] := c[i + 2]], prev := l.prev[c[i + 2] := c[i]], size := l.size - 1)
    ensures Valid(r) && Frame(r) == c[..i + 1] + c[i + 2..]
  {
    var c' := c[..i + 1] + c[i + 2..];
    assert l.next[c[i + 1]] == c[i + 2];
    UnlinkChain(l.next, r.next, l.header, c, i + 1);
    BackwardUnlink(l.prev, r.prev, c, i + 1);
    assert forall k :: 0 <= k < |c| ==> 0 <= c[k] < |l.data|;
    RemoveCarriesData(l.data, c, i + 1);
    assert |c'| == r.size + 2 && c'[r.size + 1] == c[l.size + 1];
    Establish(r, c');
  }

  /** After dropping the i-th node of a walk whose inner nodes carry data,
      the inner nodes still all carry data. */
  lemma RemoveCarriesData<E>(data: seq<Option<E>>, c: seq<int>, i: int)
    requires 1 <= i < |c| - 1
    requires forall k :: 0 <= k < |c| ==> 0 <= c[k] < |data|
    requires forall k :: 1 <= k < |c| - 1 ==> data[c[k]].Some?
    ensures var c' := c[..i] + c[i + 1..];
            forall k :: 1 <= k < |c'| - 1 ==> 0 <= c'[k] < |data| && data[c'[k]].Some?
  {
    var c' := c[..i] + c[i + 1..];
    forall k | 1 <= k < |c'| - 1
      ensures 0 <= c'[k] < |data| && data[c'[k]].Some?
    {
      if k < i {
        assert c'[k] == c[k];
      } else {
        assert c'[k] == c[k + 1];
      }
    }
  }

  /** Dropping the i-th node of a walk whose backward links mirror it, with
      the next node pointed back at the one before, keeps the mirror. */
  lemma BackwardUnlink(prev: seq<int>, prev': seq<int>, c: seq<int>, i: nat)
    requires Backward(prev, c) && Distinct(c) && 0 < i < |c| - 1
    requires prev' == prev[c[i + 1] := c[i - 1]]
    ensures Backward(prev', c[..i] + c[i + 1..])
  {
    var c' := c[..i] + c[i + 1..];
    forall k | 1 <= k < |c'|
      ensures 0 <= c'[k] < |prev'| && prev'[c'[k]] == c'[k - 1]
    {
      if k < i {
        assert c'[k] == c[k] && c'[k - 1] == c[k - 1];
      } else if k == i {
        assert c'[k] == c[i + 1] && c'[k - 1] == c[i - 1];
      } else {
        assert c'[k] == c[k + 1] && c'[k - 1] == c[k];
      }
    }
  }

  /** The elements after removing the i-th. */
  lemma ElementsRemove<E>(l: List<E>, r: List<E>, c: seq<int>, c': seq<int>, i: int)
    requires Valid(l) && Valid(r) && c == Frame(l) && c' == Frame(r)
    requires 0 <= i < l.size && r.size == l.size - 1 && r.data == l.data
    requires c' == c[..i + 1] + c[i + 2..]
    ensures Elements(r) == Elements(l)[..i] + Elements(l)[i + 1..]
  {
    var x, y := Elements(l), Elements(r);
    var z := x[..i] + x[i + 1..];
    forall k | 0 <= k < r.size
      ensures y[k] == z[k]
    {
      assert Some(y[k]) == r.data[c'[k + 1]];
      if k < i {
        assert c'[k + 1] == c[k + 1] && Some(x[k]) == l.data[c[k + 1]];
      } else {
        assert c'[k + 1] == c[k + 2] && Some(x[k + 1]) == l.data[c[k + 2]];
      }
    }
    assert |y| == |z|;
  }

  /** removeFirst(): remove(0). */
  function RemoveFirst<E>(l: List<E>): (r: Result<(List<E>, E)>)
    requires Valid(l)
    ensures r.Failure? <==> Elements(l) == []
    ensures r.Failure? ==> r.error == NullPointer
    ensures r.Success? ==> Valid(r.value.0) && r.value.1 == Elements(l)[0]
    ensures r.Success? ==> Elements(r.value.0) == Elements(l)[1..]
  {
    Remove(l, 0)
  }

  /** removeLast(): remove(size - 1). */
  function RemoveLast<E>(l: List<E>): (r: Result<(List<E>, E)>)
    requires Valid(l)
    ensures r.Failure? <==> Elements(l) == []
    ensures r.Failure? ==> r.error == NullPointer
    ensures r.Success? ==> Valid(r.value.0) && r.value.1 == Elements(l)[|Elements(l)| - 1]
    ensures r.Success? ==> Elements(r.value.0) == Elements(l)[..|Elements(l)| - 1]
  {
    Remove(l, l.size - 1)
  }

  /** Walking `prev` from trailer meets the same nodes as walking `next`
      from header, in reverse. */
  lemma BackwardWalk<E>(l: List<E>)
    requires Valid(l)
    ensures var c := Frame(l);
            Chain(l.prev, l.trailer, l.size + 2) == Success(seq(|c|, k requires 0 <= k < |c| => c[|c| - 1 - k]))
  {
    var c := Frame(l);
    var b := seq(|c|, k requires 0 <= k < |c| => c[|c| - 1 - k]);
    assert forall k :: 0 <= k < |b| - 1 ==> l.prev[b[k]] == b[k + 1] by {
      forall k | 0 <= k < |b| - 1
        ensures l.prev[b[k]] == b[k + 1]
      {
        assert b[k] == c[|c| - 1 - k] && b[k + 1] == c[|c| - 1 - k - 1];
      }
    }
    ChainOf(l.prev, l.trailer, b);
  }
}
