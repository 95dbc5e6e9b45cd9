/** The sorted map of TreeMap.java: an unbalanced binary search tree laid over
    a full binary tree whose leaves are entry-less sentinels.

    `Tree` is the map's view of the linked tree: an internal node carries one
    entry and always two children, and `Leaf` is the sentinel, so the full-tree
    shape holds by construction. `Embed` gives the same tree as the engine
    stores it (a node with a `None` element and no children for each sentinel),
    and the lemmas at the end show that the map's updates are exactly the
    engine calls the class makes. Keys are integers under their natural order;
    positions are paths from the root, as in the engine. */
module TreeMap {
  import opened Wrappers
  import BT = LinkedBinaryTree

  /** The map's tree: `Leaf` is a sentinel, `Node` an internal node with its entry. */
  datatype Tree<V> = Leaf | Node(left: Tree<V>, key: int, value: V, right: Tree<V>)

  /** A key-value entry, as stored in an internal node and returned by queries. */
  datatype Entry<V> = Entry(key: int, value: V)

  /** A position: left (`false`) / right (`true`) steps from the root. */
  type Path = seq<bool>

  // ---------------------------------------------------------------------------
  // Abstract views
  // ---------------------------------------------------------------------------

  /** The abstract map the tree represents. */
  function Contents<V>(t: Tree<V>): map<int, V>
  {
    match t
    case Leaf => map[]
    case Node(l, k, v, r) => (Contents(l) + Contents(r))[k := v]
  }

  /** The ordering invariant: left keys are smaller and right keys larger than a node's key. */
  predicate IsBst<V>(t: Tree<V>)
  {
    match t
    case Leaf => true
    case Node(l, k, _, r) =>
      && IsBst(l) && IsBst(r)
      && (forall x :: x in Contents(l) ==> x < k)
      && (forall x :: x in Contents(r) ==> k < x)
  }

  /** Number of internal nodes, i.e. of entries. */
  function Size<V>(t: Tree<V>): nat
  {
    match t
    case Leaf => 0
    case Node(l, _, _, r) => Size(l) + 1 + Size(r)
  }

  /** Two trees with the same nodes in the same places. */
  predicate SameShape<V>(a: Tree<V>, b: Tree<V>)
  {
    match a
    case Leaf => b.Leaf?
    case Node(al, _, _, ar) => b.Node? && SameShape(al, b.left) && SameShape(ar, b.right)
  }

  /** The entry an internal node carries. */
  function EntryOf<V>(n: Tree<V>): Entry<V>
    requires n.Node?
  {
    Entry(n.key, n.value)
  }

  // The map algebra of a node's contents, (left + right)[key := value], under
  // an update or removal in one subtree.

  lemma UpdateInLeft<V>(L: map<int, V>, R: map<int, V>, x: int, y: V, k: int, v: V)
    requires k != x && k !in R
    ensures (L[k := v] + R)[x := y] == (L + R)[x := y][k := v]
  {
    var a, b := (L[k := v] + R)[x := y], (L + R)[x := y][k := v];
    assert a.Keys == b.Keys;
  }

  lemma UpdateInRight<V>(L: map<int, V>, R: map<int, V>, x: int, y: V, k: int, v: V)
    requires k != x
    ensures (L + R[k := v])[x := y] == (L + R)[x := y][k := v]
  {
    var a, b := (L + R[k := v])[x := y], (L + R)[x := y][k := v];
    assert a.Keys == b.Keys;
  }

  lemma RemoveFromLeft<V>(L: map<int, V>, R: map<int, V>, x: int, y: V, k: int)
    requires k != x && k !in R
    ensures ((L - {k}) + R)[x := y] == (L + R)[x := y] - {k}
  {
    var a, b := ((L - {k}) + R)[x := y], (L + R)[x := y] - {k};
    assert a.Keys == b.Keys;
  }

  lemma RemoveFromRight<V>(L: map<int, V>, R: map<int, V>, x: int, y: V, k: int)
    requires k != x && k !in L
    ensures (L + (R - {k}))[x := y] == (L + R)[x := y] - {k}
  {
    var a, b := (L + (R - {k}))[x := y], (L + R)[x := y] - {k};
    assert a.Keys == b.Keys;
  }

  /** Dropping the root key when the other side is empty. */
  lemma RemoveRoot<V>(L: map<int, V>, R: map<int, V>, x: int, y: V)
    requires x !in L && x !in R
    ensures R == map[] ==> L == (L + R)[x := y] - {x}
    ensures L == map[] ==> R == (L + R)[x := y] - {x}
  {
    if R == map[] {
      assert L + R == L;
    }
    if L == map[] {
      assert L + R == R;
    }
  }

  /** Promoting the greatest left key `m` to the root in place of x. */
  lemma PromoteToRoot<V>(L: map<int, V>, R: map<int, V>, x: int, y: V, m: int)
    requires m in L && x !in L && x !in R && m !in R
    ensures ((L - {m}) + R)[m := L[m]] == (L + R)[x := y] - {x}
  {
    var a, b := ((L - {m}) + R)[m := L[m]], (L + R)[x := y] - {x};
    assert a.Keys == b.Keys;
  }

  /** In a search tree a key's value sits on the side the ordering selects. */
  lemma {:induction false} ContentsOfBstNode<V>(t: Tree<V>, x: int)
    requires t.Node?
    ensures IsBst(t) && x < t.key ==> (x in Contents(t) <==> x in Contents(t.left))
    ensures IsBst(t) && x < t.key && x in Contents(t) ==> Contents(t)[x] == Contents(t.left)[x]
    ensures IsBst(t) && x > t.key ==> (x in Contents(t) <==> x in Contents(t.right))
    ensures IsBst(t) && x > t.key && x in Contents(t) ==> Contents(t)[x] == Contents(t.right)[x]
    ensures x == t.key ==> x in Contents(t) && Contents(t)[x] == t.value
  {
    if IsBst(t) && x < t.key {
      assert x !in Contents(t.right);
    }
  }

  // ---------------------------------------------------------------------------
  // Path algebra on the map's tree
  // ---------------------------------------------------------------------------

  function Child<V>(t: Tree<V>, right: bool): Tree<V>
    requires t.Node?
  {
    if right then t.right else t.left
  }

  /** The subtree a path addresses (`Leaf` once the path runs past a sentinel). */
  function Sub<V>(t: Tree<V>, p: Path): Tree<V>
    decreases |p|
  {
    if |p| == 0 then t
    else if t.Leaf? then Leaf
    else Sub(Child(t, p[0]), p[1..])
  }

  /** Every proper prefix of `p` addresses an internal node. */
  predicate IsSlot<V>(t: Tree<V>, p: Path)
    decreases |p|
  {
    |p| == 0 || (t.Node? && IsSlot(Child(t, p[0]), p[1..]))
  }

  /** Replaces the subtree at a path. */
  function Graft<V>(t: Tree<V>, p: Path, s: Tree<V>): Tree<V>
    decreases |p|
  {
    if |p| == 0 then s
    else if t.Leaf? then Leaf
    else if p[0] then Node(t.left, t.key, t.value, Graft(t.right, p[1..], s))
    else Node(Graft(t.left, p[1..], s), t.key, t.value, t.right)
  }

  lemma {:induction false} SubAppend<V>(t: Tree<V>, p: Path, q: Path)
    requires IsSlot(t, p)
    ensures Sub(t, p + q) == Sub(Sub(t, p), q)
    ensures IsSlot(Sub(t, p), q) ==> IsSlot(t, p + q)
    decreases |p|
  {
    if |p| == 0 {
      assert p + q == q;
    } else {
      assert (p + q)[0] == p[0];
      assert (p + q)[1..] == p[1..] + q;
      SubAppend(Child(t, p[0]), p[1..], q);
    }
  }

  lemma {:induction false} SubGraft<V>(t: Tree<V>, p: Path, s: Tree<V>)
    requires IsSlot(t, p)
    ensures Sub(Graft(t, p, s), p) == s
    ensures IsSlot(Graft(t, p, s), p)
    decreases |p|
  {
    if |p| > 0 {
      SubGraft(Child(t, p[0]), p[1..], s);
    }
  }

  lemma {:induction false} GraftBelow<V>(t: Tree<V>, p: Path, q: Path, x: Tree<V>, y: Tree<V>)
    requires IsSlot(t, p)
    ensures Graft(Graft(t, p, x), p + q, y) == Graft(t, p, Graft(x, q, y))
    decreases |p|
  {
    if |p| == 0 {
      assert p + q == q;
    } else {
      assert (p + q)[0] == p[0];
      assert (p + q)[1..] == p[1..] + q;
      GraftBelow(Child(t, p[0]), p[1..], q, x, y);
    }
  }

  /** One step down: the path algebra of a node unfolds into its children. */
  lemma StepDown<V>(t: Tree<V>, b: bool, q: Path, s: Tree<V>)
    requires t.Node?
    ensures Sub(t, [b] + q) == Sub(Child(t, b), q)
    ensures IsSlot(t, [b] + q) == IsSlot(Child(t, b), q)
    ensures Graft(t, [b] + q, s) ==
      if b then Node(t.left, t.key, t.value, Graft(t.right, q, s))
      else Node(Graft(t.left, q, s), t.key, t.value, t.right)
  {
    assert ([b] + q)[0] == b;
    assert ([b] + q)[1..] == q;
  }

  // ---------------------------------------------------------------------------
  // Search
  // ---------------------------------------------------------------------------

  /** treeSearch(root, key): the position holding `key`, or else the sentinel
      where the search ends, which is where `key` would be inserted. */
  function TreeSearch<V>(t: Tree<V>, k: int): (p: Path)
    ensures IsSlot(t, p)
    ensures Sub(t, p).Node? ==> Sub(t, p).key == k
    ensures IsBst(t) ==> (Sub(t, p).Node? <==> k in Contents(t))
    ensures IsBst(t) && Sub(t, p).Node? ==> Sub(t, p).value == Contents(t)[k]
  {
    match t
    case Leaf => []
    case Node(l, x, _, r) =>
      if k == x then []
      else
        var q := if k < x then TreeSearch(l, k) else TreeSearch(r, k);
        StepDown(t, k > x, q, Leaf);
        ContentsOfBstNode(t, k);
        [k > x] + q
  }

  /** treeMax(p) of a non-empty subtree: the position of its greatest key, found
      by walking right until the next step would reach a sentinel. */
  function TreeMax<V>(t: Tree<V>): (p: Path)
    requires t.Node?
    ensures IsSlot(t, p) && Sub(t, p).Node? && Sub(t, p).right.Leaf?
    ensures Sub(t, p).key in Contents(t)
    ensures IsBst(t) ==> Contents(t)[Sub(t, p).key] == Sub(t, p).value
    ensures IsBst(t) ==> forall x :: x in Contents(t) ==> x <= Sub(t, p).key
  {
    if t.right.Leaf? then []
    else
      var q := TreeMax(t.right);
      StepDown(t, true, q, Leaf);
      assert Sub(t, [true] + q) == Sub(t.right, q);
      ContentsOfBstNode(t, Sub(t.right, q).key);
      [true] + q
  }

  /** treeMin(p) of a non-empty subtree: the position of its least key. */
  function TreeMin<V>(t: Tree<V>): (p: Path)
    requires t.Node?
    ensures IsSlot(t, p) && Sub(t, p).Node? && Sub(t, p).left.Leaf?
    ensures Sub(t, p).key in Contents(t)
    ensures IsBst(t) ==> Contents(t)[Sub(t, p).key] == Sub(t, p).value
    ensures IsBst(t) ==> forall x :: x in Contents(t) ==> Sub(t, p).key <= x
  {
    if t.left.Leaf? then
      assert Contents(t.left) == map[];
      []
    else
      var q := TreeMin(t.left);
      StepDown(t, false, q, Leaf);
      assert Sub(t, [false] + q) == Sub(t.left, q);
      ContentsOfBstNode(t, Sub(t.left, q).key);
      [false] + q
  }

  /** get(key): the stored value, or none for an absent key. */
  function Get<V>(t: Tree<V>, k: int): (r: Option<V>)
    ensures IsBst(t) ==> (r.Some? <==> k in Contents(t))
    ensures IsBst(t) && r.Some? ==> r.value == Contents(t)[k]
  {
    var n := Sub(t, TreeSearch(t, k));
    if n.Leaf? then None else Some(n.value)
  }

  // ---------------------------------------------------------------------------
  // Insertion
  // ---------------------------------------------------------------------------

  /** expandExternal(p, entry): the sentinel at `p` becomes an internal node with
      the entry and two new sentinels. */
  function ExpandExternal<V>(t: Tree<V>, p: Path, k: int, v: V): (r: Tree<V>)
    requires IsSlot(t, p) && Sub(t, p).Leaf?
    ensures Sub(r, p) == Node(Leaf, k, v, Leaf)
    ensures Size(r) == Size(t) + 1
  {
    SubGraft(t, p, Node(Leaf, k, v, Leaf));
    SizeGraft(t, p, Node(Leaf, k, v, Leaf));
    Graft(t, p, Node(Leaf, k, v, Leaf))
  }

  /** put(key, value): a new key expands the sentinel the search ends at and
      returns none; a present key gets its entry replaced in place and the old
      value is returned. */
  function Put<V>(t: Tree<V>, k: int, v: V): (r: (Tree<V>, Option<V>))
    ensures IsBst(t) ==> IsBst(r.0)
    ensures IsBst(t) ==> Contents(r.0) == Contents(t)[k := v]
    ensures IsBst(t) ==> r.1 == Get(t, k)
    ensures IsBst(t) && k !in Contents(t) ==> r.1 == None && Size(r.0) == Size(t) + 1
    ensures IsBst(t) && k in Contents(t) ==>
      r.1 == Some(Contents(t)[k]) && Size(r.0) == Size(t) && SameShape(r.0, t)
  {
    var p := TreeSearch(t, k);
    var n := Sub(t, p);
    SearchInsert(t, k, v);
    InsertSpec(t, k, v);
    if n.Leaf? then (ExpandExternal(t, p, k, v), None)
    else (Graft(t, p, Node(n.left, k, v, n.right)), Some(n.value))
  }

  /** Insertion written directly by recursion on the tree: the reference the
      search-then-update code of `Put` is proved equal to. */
  function Insert<V>(t: Tree<V>, k: int, v: V): Tree<V>
  {
    match t
    case Leaf => Node(Leaf, k, v, Leaf)
    case Node(l, x, y, r) =>
      if k < x then Node(Insert(l, k, v), x, y, r)
      else if k > x then Node(l, x, y, Insert(r, k, v))
      else Node(l, k, v, r)
  }

  lemma {:induction false} SizeGraft<V>(t: Tree<V>, p: Path, s: Tree<V>)
    requires IsSlot(t, p)
    ensures Size(Graft(t, p, s)) == Size(t) - Size(Sub(t, p)) + Size(s)
    decreases |p|
  {
    if |p| > 0 {
      SizeGraft(Child(t, p[0]), p[1..], s);
    }
  }

  /** Updating the position the search finds is the recursive insertion. */
  lemma {:induction false} SearchInsert<V>(t: Tree<V>, k: int, v: V)
    ensures var p := TreeSearch(t, k);
      && (Sub(t, p).Leaf? ==> Graft(t, p, Node(Leaf, k, v, Leaf)) == Insert(t, k, v))
      && (Sub(t, p).Node? ==> Graft(t, p, Node(Sub(t, p).left, k, v, Sub(t, p).right)) == Insert(t, k, v))
  {
    match t
    case Leaf =>
    case Node(l, x, _, r) =>
      if k != x {
        var c := if k < x then l else r;
        SearchInsert(c, k, v);
        var q := TreeSearch(c, k);
        StepDown(t, k > x, q, Node(Leaf, k, v, Leaf));
        if Sub(c, q).Node? {
          StepDown(t, k > x, q, Node(Sub(c, q).left, k, v, Sub(c, q).right));
        }
      }
  }

  /** The recursive insertion keeps the ordering and updates the map at `k`;
      a present key keeps size and shape, an absent one adds one entry. */
  lemma InsertSpec<V>(t: Tree<V>, k: int, v: V)
    ensures IsBst(t) ==> IsBst(Insert(t, k, v))
    ensures IsBst(t) ==> Contents(Insert(t, k, v)) == Contents(t)[k := v]
    ensures IsBst(t) ==> Size(Insert(t, k, v)) == Size(t) + (if k in Contents(t) then 0 else 1)
    ensures IsBst(t) && k in Contents(t) ==> SameShape(Insert(t, k, v), t)
  {
    if IsBst(t) {
      InsertContents(t, k, v);
      InsertOrdered(t, k, v);
      InsertSize(t, k, v);
    }
  }

  lemma {:induction false} InsertContents<V>(t: Tree<V>, k: int, v: V)
    requires IsBst(t)
    ensures Contents(Insert(t, k, v)) == Contents(t)[k := v]
  {
    match t
    case Leaf =>
    case Node(l, x, y, r) =>
      if k < x {
        InsertContents(l, k, v);
        assert k !in Contents(r);
        UpdateInLeft(Contents(l), Contents(r), x, y, k, v);
      } else if k > x {
        InsertContents(r, k, v);
        UpdateInRight(Contents(l), Contents(r), x, y, k, v);
      }
  }

  lemma {:induction false} InsertOrdered<V>(t: Tree<V>, k: int, v: V)
    requires IsBst(t)
    ensures IsBst(Insert(t, k, v))
  {
    match t
    case Leaf =>
    case Node(l, x, y, r) =>
      if k < x {
        InsertOrdered(l, k, v);
        InsertContents(l, k, v);
        assert Contents(Insert(l, k, v)).Keys == Contents(l).Keys + {k};
      } else if k > x {
        InsertOrdered(r, k, v);
        InsertContents(r, k, v);
        assert Contents(Insert(r, k, v)).Keys == Contents(r).Keys + {k};
      }
  }

  lemma {:induction false} InsertSize<V>(t: Tree<V>, k: int, v: V)
    requires IsBst(t)
    ensures Size(Insert(t, k, v)) == Size(t) + (if k in Contents(t) then 0 else 1)
    ensures k in Contents(t) ==> SameShape(Insert(t, k, v), t)
  {
    match t
    case Leaf =>
    case Node(l, x, y, r) =>
      ContentsOfBstNode(t, k);
      if k < x {
        InsertSize(l, k, v);
        SameShapeRefl(r);
      } else if k > x {
        InsertSize(r, k, v);
        SameShapeRefl(l);
      } else {
        SameShapeRefl(l);
        SameShapeRefl(r);
      }
  }

  lemma {:induction false} SameShapeRefl<V>(t: Tree<V>)
    ensures SameShape(t, t)
  {
    match t
    case Leaf =>
    case Node(l, _, _, r) =>
      SameShapeRefl(l);
      SameShapeRefl(r);
  }

  // ---------------------------------------------------------------------------
  // Removal
  // ---------------------------------------------------------------------------

  /** The subtree left after physically removing an internal node with at most
      one internal child: `remove(leaf)` on a sentinel child (the left one when
      it is a sentinel) and `remove(p)` then promote the sibling. */
  function Erase<V>(n: Tree<V>): Tree<V>
    requires n.Node?
  {
    if n.left.Leaf? then n.right else n.left
  }

  /** The removal of the internal node at `p`, as remove(K) performs it once
      the node is found: with two internal children the predecessor's entry is
      copied up to `p` and the predecessor's node is erased instead. */
  function RemoveAt<V>(t: Tree<V>, p: Path): Tree<V>
    requires IsSlot(t, p) && Sub(t, p).Node?
  {
    var n := Sub(t, p);
    if n.left.Node? && n.right.Node? then
      var m := p + ([false] + TreeMax(n.left));
      SubAppend(t, p, [false] + TreeMax(n.left));
      StepDown(n, false, TreeMax(n.left), Leaf);
      var x := Sub(t, m);
      var t1 := Graft(t, p, Node(n.left, x.key, x.value, n.right));
      SubGraft(t, p, Node(n.left, x.key, x.value, n.right));
      StepDown(Node(n.left, x.key, x.value, n.right), false, TreeMax(n.left), Leaf);
      SubAppend(t1, p, [false] + TreeMax(n.left));
      Graft(t1, m, Erase(Sub(t1, m)))
    else
      Graft(t, p, Erase(n))
  }

  /** remove(key): an absent key changes nothing and returns none; a present
      key's entry is removed and its value returned. */
  function Remove<V>(t: Tree<V>, k: int): (r: (Tree<V>, Option<V>))
    ensures IsBst(t) ==> IsBst(r.0)
    ensures IsBst(t) ==> Contents(r.0) == Contents(t) - {k}
    ensures IsBst(t) ==> r.1 == Get(t, k)
    ensures IsBst(t) && k !in Contents(t) ==> r.0 == t && r.1 == None
    ensures IsBst(t) && k in Contents(t) ==> r.1 == Some(Contents(t)[k]) && Size(r.0) == Size(t) - 1
  {
    var p := TreeSearch(t, k);
    var n := Sub(t, p);
    if n.Leaf? then
      (t, None)
    else
      RemoveAtIsLocal(t, p);
      SearchDelete(t, k);
      DeleteSpec(t, k);
      (RemoveAt(t, p), Some(n.value))
  }

  /** The predecessor's entry of a node with two internal children. */
  function MaxEntry<V>(t: Tree<V>): Entry<V>
    requires t.Node?
  {
    EntryOf(Sub(t, TreeMax(t)))
  }

  /** The tree without its greatest entry, written by recursion. */
  function RemoveMax<V>(t: Tree<V>): Tree<V>
    requires t.Node?
  {
    if t.right.Leaf? then t.left
    else Node(t.left, t.key, t.value, RemoveMax(t.right))
  }

  /** Removal of a tree's root entry, written by recursion. */
  function DeleteRoot<V>(n: Tree<V>): Tree<V>
    requires n.Node?
  {
    if n.left.Node? && n.right.Node? then
      Node(RemoveMax(n.left), MaxEntry(n.left).key, MaxEntry(n.left).value, n.right)
    else Erase(n)
  }

  /** Deletion written directly by recursion on the tree: the reference `Remove`
      is proved equal to. */
  function Delete<V>(t: Tree<V>, k: int): Tree<V>
  {
    match t
    case Leaf => Leaf
    case Node(l, x, y, r) =>
      if k < x then Node(Delete(l, k), x, y, r)
      else if k > x then Node(l, x, y, Delete(r, k))
      else DeleteRoot(t)
  }

  /** Erasing the node treeMax finds is the recursive removal of the maximum. */
  lemma {:induction false} EraseMaxIsRemoveMax<V>(t: Tree<V>)
    requires t.Node?
    ensures Graft(t, TreeMax(t), Erase(Sub(t, TreeMax(t)))) == RemoveMax(t)
  {
    if t.right.Node? {
      var q := TreeMax(t.right);
      EraseMaxIsRemoveMax(t.right);
      StepDown(t, true, q, Erase(Sub(t.right, q)));
    }
  }

  /** Everything `RemoveAt` changes lies at or below `p`. */
  lemma RemoveAtIsLocal<V>(t: Tree<V>, p: Path)
    requires IsSlot(t, p) && Sub(t, p).Node?
    ensures RemoveAt(t, p) == Graft(t, p, DeleteRoot(Sub(t, p)))
  {
    var n := Sub(t, p);
    if n.left.Node? && n.right.Node? {
      var q := [false] + TreeMax(n.left);
      var x := Sub(n.left, TreeMax(n.left));
      var n1 := Node(n.left, x.key, x.value, n.right);
      SubAppend(t, p, q);
      StepDown(n, false, TreeMax(n.left), Leaf);
      SubGraft(t, p, n1);
      SubAppend(Graft(t, p, n1), p, q);
      StepDown(n1, false, TreeMax(n.left), Erase(x));
      GraftBelow(t, p, q, n1, Erase(x));
      EraseMaxIsRemoveMax(n.left);
    }
  }

  /** Removing at the position the search finds is the recursive deletion. */
  lemma {:induction false} SearchDelete<V>(t: Tree<V>, k: int)
    requires Sub(t, TreeSearch(t, k)).Node?
    ensures Graft(t, TreeSearch(t, k), DeleteRoot(Sub(t, TreeSearch(t, k)))) == Delete(t, k)
  {
    match t
    case Leaf =>
    case Node(l, x, _, r) =>
      if k != x {
        var c := if k < x then l else r;
        var q := TreeSearch(c, k);
        StepDown(t, k > x, q, Leaf);
        SearchDelete(c, k);
        StepDown(t, k > x, q, DeleteRoot(Sub(c, q)));
      }
  }

  lemma {:induction false} RemoveMaxSpec<V>(t: Tree<V>)
    requires t.Node? && IsBst(t)
    ensures IsBst(RemoveMax(t))
    ensures Contents(RemoveMax(t)) == Contents(t) - {MaxEntry(t).key}
    ensures Size(RemoveMax(t)) == Size(t) - 1
    ensures forall x :: x in Contents(RemoveMax(t)) ==> x < MaxEntry(t).key
  {
    var m := MaxEntry(t);
    if t.right.Leaf? {
      assert m.key == t.key;
      assert t.key !in Contents(t.left);
      RemoveRoot(Contents(t.left), Contents(t.right), t.key, t.value);
    } else {
      RemoveMaxSpec(t.right);
      StepDown(t, true, TreeMax(t.right), Leaf);
      assert m == MaxEntry(t.right);
      assert m.key !in Contents(t.left);
      RemoveFromRight(Contents(t.left), Contents(t.right), t.key, t.value, m.key);
    }
  }

  lemma {:induction false} DeleteRootSpec<V>(t: Tree<V>)
    requires t.Node? && IsBst(t)
    ensures IsBst(DeleteRoot(t))
    ensures Contents(DeleteRoot(t)) == Contents(t) - {t.key}
    ensures Size(DeleteRoot(t)) == Size(t) - 1
  {
    var L, R := Contents(t.left), Contents(t.right);
    assert t.key !in L && t.key !in R;
    if t.left.Node? && t.right.Node? {
      var m := MaxEntry(t.left);
      RemoveMaxSpec(t.left);
      assert m.key in L && L[m.key] == m.value;
      assert forall x :: x in R ==> m.key < x;
      PromoteToRoot(L, R, t.key, t.value, m.key);
    } else {
      RemoveRoot(L, R, t.key, t.value);
    }
  }

  /** The recursive deletion keeps the ordering and removes exactly `k`. */
  lemma DeleteSpec<V>(t: Tree<V>, k: int)
    ensures IsBst(t) ==> IsBst(Delete(t, k))
    ensures IsBst(t) ==> Contents(Delete(t, k)) == Contents(t) - {k}
    ensures IsBst(t) ==> Size(Delete(t, k)) == Size(t) - (if k in Contents(t) then 1 else 0)
  {
    if IsBst(t) {
      DeleteContents(t, k);
    }
  }

  lemma {:induction false} DeleteContents<V>(t: Tree<V>, k: int)
    requires IsBst(t)
    ensures IsBst(Delete(t, k))
    ensures Contents(Delete(t, k)) == Contents(t) - {k}
    ensures Size(Delete(t, k)) == Size(t) - (if k in Contents(t) then 1 else 0)
  {
    match t
    case Leaf =>
    case Node(l, x, y, r) =>
      ContentsOfBstNode(t, k);
      if k < x {
        DeleteContents(l, k);
        DeleteLeftCase(t, k);
      } else if k > x {
        DeleteContents(r, k);
        DeleteRightCase(t, k);
      } else {
        DeleteRootSpec(t);
      }
  }

  lemma DeleteLeftCase<V>(t: Tree<V>, k: int)
    requires t.Node? && IsBst(t) && k < t.key
    requires IsBst(Delete(t.left, k)) && Contents(Delete(t.left, k)) == Contents(t.left) - {k}
    ensures IsBst(Delete(t, k))
    ensures Contents(Delete(t, k)) == Contents(t) - {k}
  {
    var L, R := Contents(t.left), Contents(t.right);
    assert forall z :: z in R ==> t.key < z;
    RemoveFromLeft(L, R, t.key, t.value, k);
  }

  lemma DeleteRightCase<V>(t: Tree<V>, k: int)
    requires t.Node? && IsBst(t) && k > t.key
    requires IsBst(Delete(t.right, k)) && Contents(Delete(t.right, k)) == Contents(t.right) - {k}
    ensures IsBst(Delete(t, k))
    ensures Contents(Delete(t, k)) == Contents(t) - {k}
  {
    var L, R := Contents(t.left), Contents(t.right);
    assert forall z :: z in L ==> z < t.key;
    RemoveFromRight(L, R, t.key, t.value, k);
  }

  // ---------------------------------------------------------------------------
  // The map's tree as the engine stores it
  // ---------------------------------------------------------------------------

  /** The engine tree behind the map: a sentinel is a childless node holding
      no entry (`tree.addRoot(null)`, `tree.addLeft(p, null)`). */
  function Embed<V>(t: Tree<V>): BT.Tree<Option<Entry<V>>>
  {
    match t
    case Leaf => BT.Node(BT.Nil, None, BT.Nil)
    case Node(l, k, v, r) => BT.Node(Embed(l), Some(Entry(k, v)), Embed(r))
  }

  /** The full-tree discipline on the engine tree: a node without an entry has
      no children and a node with an entry has two. */
  predicate IsFull<V>(e: BT.Tree<Option<Entry<V>>>)
  {
    match e
    case Nil => false
    case Node(l, x, r) => if x.None? then l.Nil? && r.Nil? else IsFull(l) && IsFull(r)
  }

  /** Reads a full engine tree back as the map's tree. */
  function Unembed<V>(e: BT.Tree<Option<Entry<V>>>): Tree<V>
    requires IsFull(e)
  {
    match e
    case Node(l, x, r) =>
      if x.None? then Leaf else Node(Unembed(l), x.value.key, x.value.value, Unembed(r))
  }

  /** Every map tree is a full engine tree with 2n+1 nodes for n entries, and
      every full engine tree is a map tree: the two views are the same trees. */
  lemma {:induction false} EmbedIsFull<V>(t: Tree<V>)
    ensures IsFull(Embed(t))
    ensures Unembed(Embed(t)) == t
    ensures BT.Count(Embed(t)) == 2 * Size(t) + 1
  {
    match t
    case Leaf =>
    case Node(l, _, _, r) =>
      EmbedIsFull(l);
      EmbedIsFull(r);
  }

  lemma {:induction false} FullIsEmbed<V>(e: BT.Tree<Option<Entry<V>>>)
    requires IsFull(e)
    ensures Embed(Unembed(e)) == e
  {
    match e
    case Node(l, x, r) =>
      if x.Some? {
        FullIsEmbed(l);
        FullIsEmbed(r);
      }
  }

  /** The engine object of a map tree, with its node counter. */
  function EngineOf<V>(t: Tree<V>): BT.Engine<Option<Entry<V>>>
  {
    BT.Engine(Embed(t), BT.Count(Embed(t)))
  }

  /** size(): (tree.size() - 1) / 2, the number of internal nodes. */
  function MapSize<V>(g: BT.Engine<Option<Entry<V>>>): (n: int)
    requires BT.Valid(g) && IsFull(g.root)
    ensures n == Size(Unembed(g.root))
  {
    FullIsEmbed(g.root);
    EmbedIsFull(Unembed(g.root));
    (g.size - 1) / 2
  }

  /** A map position addresses the engine node holding the same subtree. */
  lemma {:induction false} EmbedSub<V>(t: Tree<V>, p: Path)
    requires IsSlot(t, p)
    ensures BT.IsSlot(Embed(t), p)
    ensures BT.At(Embed(t), p) == Embed(Sub(t, p))
    decreases |p|
  {
    if |p| > 0 {
      EmbedSub(Child(t, p[0]), p[1..]);
    }
  }

  /** Grafting in the map's tree is re-linking in the engine tree. */
  lemma {:induction false} EmbedGraft<V>(t: Tree<V>, p: Path, s: Tree<V>)
    requires IsSlot(t, p)
    ensures Embed(Graft(t, p, s)) == BT.Replace(Embed(t), p, Embed(s))
    decreases |p|
  {
    if |p| > 0 {
      EmbedGraft(Child(t, p[0]), p[1..], s);
    }
  }

  /** expandExternal is the engine sequence set(p, entry); addLeft(p, null);
      addRight(p, null), and it adds two nodes to the engine's counter. */
  lemma ExpandExternalByEngine<V>(t: Tree<V>, p: Path, k: int, v: V)
    requires IsSlot(t, p) && Sub(t, p).Leaf?
    ensures var g0 := EngineOf(t);
      && BT.IsPosition(g0.root, p)
      && var g1 := BT.Set(g0, p, Some(Entry(k, v))).0;
      && BT.At(g1.root, p).left.Nil?
      && var g2 := BT.AddLeft(g1, p, None).0;
      && BT.At(g2.root, p).right.Nil?
      && var g3 := BT.AddRight(g2, p, None).0;
      && g3.root == Embed(ExpandExternal(t, p, k, v))
      && BT.Valid(g3) && g3.size == g0.size + 2
  {
    var e := Embed(t);
    EmbedSub(t, p);
    var g0 := EngineOf(t);
    var n1 := BT.Node(BT.Nil, Some(Entry(k, v)), BT.Nil);
    var n2 := BT.Node(BT.Node(BT.Nil, None, BT.Nil), Some(Entry(k, v)), BT.Nil);
    var n3 := Embed(Node(Leaf, k, v, Leaf));
    var g1 := BT.Set(g0, p, Some(Entry(k, v))).0;
    assert g1.root == BT.Replace(e, p, n1);
    BT.AtReplace(e, p, n1);
    var g2 := BT.AddLeft(g1, p, None).0;
    assert g2.root == BT.Replace(g1.root, p, n2);
    BT.ReplaceBelow(e, p, [], n1, n2);
    assert p + [] == p;
    BT.AtReplace(e, p, n2);
    var g3 := BT.AddRight(g2, p, None).0;
    assert g3.root == BT.Replace(g2.root, p, n3);
    BT.ReplaceBelow(e, p, [], n2, n3);
    EmbedGraft(t, p, Node(Leaf, k, v, Leaf));
  }

  /** set(p, entry) on an internal position is the in-place entry replacement
      put (existing key) and remove (predecessor copy) perform. */
  lemma SetEntryByEngine<V>(t: Tree<V>, p: Path, k: int, v: V)
    requires IsSlot(t, p) && Sub(t, p).Node?
    ensures var g0 := EngineOf(t);
      && BT.IsPosition(g0.root, p)
      && var r := BT.Set(g0, p, Some(Entry(k, v)));
      && r.0.root == Embed(Graft(t, p, Node(Sub(t, p).left, k, v, Sub(t, p).right)))
      && r.1 == Some(EntryOf(Sub(t, p)))
      && r.0.size == g0.size
  {
    EmbedSub(t, p);
    EmbedGraft(t, p, Node(Sub(t, p).left, k, v, Sub(t, p).right));
  }

  /** The physical removal of an internal node with a sentinel child: the
      engine removes the sentinel, then the node, promoting the sibling; both
      removals succeed, the first returns the sentinel's null entry, the second
      the node's entry, and the counter drops by two. */
  lemma EraseByEngine<V>(t: Tree<V>, q: Path)
    requires IsSlot(t, q) && Sub(t, q).Node?
    requires Sub(t, q).left.Leaf? || Sub(t, q).right.Leaf?
    ensures var x := Sub(t, q);
      var leaf := if x.left.Leaf? then q + [false] else q + [true];
      var r1 := BT.Remove(EngineOf(t), leaf);
      && r1.Success? && r1.value.1 == None
      && var r2 := BT.Remove(r1.value.0, q);
      && r2.Success? && r2.value.1 == Some(EntryOf(x))
      && r2.value.0.root == Embed(Graft(t, q, Erase(x)))
      && r2.value.0.size == EngineOf(t).size - 2
  {
    var x := Sub(t, q);
    var e := Embed(t);
    var g := EngineOf(t);
    EmbedSub(t, q);
    BT.PositionIsSlot(e, q);
    var side := !x.left.Leaf?;
    var leaf := q + [side];
    BT.AtAppend(e, q, [side]);
    var nx := Embed(x);
    var n1 := if side then BT.Node(nx.left, nx.element, BT.Nil) else BT.Node(BT.Nil, nx.element, nx.right);
    var r1 := BT.Remove(g, leaf);
    assert r1.Success?;
    assert r1.value.0.root == BT.Replace(e, q + [side], BT.Nil);
    BT.ReplaceSame(e, q);
    BT.ReplaceBelow(e, q, [side], nx, BT.Nil);
    assert BT.Replace(nx, [side], BT.Nil) == n1;
    BT.AtReplace(e, q, n1);
    var r2 := BT.Remove(r1.value.0, q);
    assert r2.Success?;
    var promoted := Embed(Erase(x));
    assert r2.value.0.root == BT.Replace(BT.Replace(e, q, n1), q, promoted);
    BT.ReplaceBelow(e, q, [], n1, promoted);
    assert q + [] == q;
    EmbedGraft(t, q, Erase(x));
  }
}
