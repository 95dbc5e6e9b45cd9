/** The linked binary tree engine (LinkedBinaryTree.java): a node-based binary
    tree with positional operations and no ordering semantics.

    A node reference becomes a `Path` of left (`false`) / right (`true`) steps
    from the root, and a `null` child link becomes `Nil`. The class keeps an
    explicit node counter next to the root link; `Engine` models both and
    `Valid` is the invariant that they agree. */
module LinkedBinaryTree {
  import opened Wrappers

  /** A linked node; `Nil` is a null link. */
  datatype Tree<E> = Nil | Node(left: Tree<E>, element: E, right: Tree<E>)

  /** A position: the steps from the root, `false` for left and `true` for right. */
  type Path = seq<bool>

  /** The tree object: its root link and its node counter `size`. */
  datatype Engine<E> = Engine(root: Tree<E>, size: int)

  /** The number of linked nodes. */
  function Count<E>(t: Tree<E>): nat
  {
    match t
    case Nil => 0
    case Node(l, _, r) => Count(l) + 1 + Count(r)
  }

  /** The class invariant: the counter agrees with the linked nodes. */
  predicate Valid<E>(g: Engine<E>)
  {
    g.size == Count(g.root)
  }

  /** The child on one side of a node. */
  function Child<E>(t: Tree<E>, right: bool): Tree<E>
    requires t.Node?
  {
    if right then t.right else t.left
  }

  /** The subtree a path addresses, or `Nil` once the path leaves the tree. */
  function At<E>(t: Tree<E>, p: Path): Tree<E>
    decreases |p|
  {
    if |p| == 0 then t
    else if t.Nil? then Nil
    else At(Child(t, p[0]), p[1..])
  }

  /** Every proper prefix of `p` addresses a node, so `p` names a node or an empty link. */
  predicate IsSlot<E>(t: Tree<E>, p: Path)
    decreases |p|
  {
    |p| == 0 || (t.Node? && IsSlot(Child(t, p[0]), p[1..]))
  }

  /** A live position of the tree: the path addresses a node. */
  predicate IsPosition<E>(t: Tree<E>, p: Path)
  {
    At(t, p).Node?
  }

  /** Re-links the subtree a path addresses (no change if the path leaves the tree early). */
  function Replace<E>(t: Tree<E>, p: Path, s: Tree<E>): Tree<E>
    decreases |p|
  {
    if |p| == 0 then s
    else if t.Nil? then Nil
    else if p[0] then Node(t.left, t.element, Replace(t.right, p[1..], s))
    else Node(Replace(t.left, p[1..], s), t.element, t.right)
  }

  /** Left-subtree, node, right-subtree order of the elements. */
  function Inorder<E>(t: Tree<E>): seq<E>
  {
    match t
    case Nil => []
    case Node(l, e, r) => Inorder(l) + [e] + Inorder(r)
  }

  // ---------------------------------------------------------------------------
  // Path algebra
  // ---------------------------------------------------------------------------

  lemma {:induction false} PositionIsSlot<E>(t: Tree<E>, p: Path)
    requires IsPosition(t, p)
    ensures IsSlot(t, p)
    decreases |p|
  {
    if |p| > 0 {
      PositionIsSlot(Child(t, p[0]), p[1..]);
    }
  }

  /** Addressing an extended path walks the prefix first. */
  lemma {:induction false} AtAppend<E>(t: Tree<E>, p: Path, q: Path)
    ensures At(t, p + q) == At(At(t, p), q)
    decreases |p|
  {
    if |p| == 0 {
      assert p + q == q;
    } else if t.Nil? {
      AtNil(t, q);
    } else {
      assert (p + q)[1..] == p[1..] + q;
      AtAppend(Child(t, p[0]), p[1..], q);
    }
  }

  lemma {:induction false} AtNil<E>(t: Tree<E>, q: Path)
    requires t.Nil?
    ensures At(t, q) == Nil
  {
  }

  /** Re-linking a slot puts the new subtree exactly there. */
  lemma {:induction false} AtReplace<E>(t: Tree<E>, p: Path, s: Tree<E>)
    requires IsSlot(t, p)
    ensures At(Replace(t, p, s), p) == s
    ensures IsSlot(Replace(t, p, s), p)
    decreases |p|
  {
    if |p| > 0 {
      AtReplace(Child(t, p[0]), p[1..], s);
    }
  }

  /** Re-linking a slot changes the node count by the difference of the two subtrees. */
  lemma {:induction false} CountReplace<E>(t: Tree<E>, p: Path, s: Tree<E>)
    requires IsSlot(t, p)
    ensures Count(Replace(t, p, s)) == Count(t) - Count(At(t, p)) + Count(s)
    decreases |p|
  {
    if |p| > 0 {
      CountReplace(Child(t, p[0]), p[1..], s);
    }
  }

  /** Two re-links, the second below the first, are one re-link of a re-linked subtree. */
  lemma {:induction false} ReplaceBelow<E>(t: Tree<E>, p: Path, q: Path, x: Tree<E>, y: Tree<E>)
    requires IsSlot(t, p)
    ensures Replace(Replace(t, p, x), p + q, y) == Replace(t, p, Replace(x, q, y))
    decreases |p|
  {
    if |p| == 0 {
      assert p + q == q;
    } else {
      assert (p + q)[0] == p[0];
      assert (p + q)[1..] == p[1..] + q;
      ReplaceBelow(Child(t, p[0]), p[1..], q, x, y);
    }
  }

  /** Re-linking a subtree with itself changes nothing. */
  lemma {:induction false} ReplaceSame<E>(t: Tree<E>, p: Path)
    requires IsSlot(t, p)
    ensures Replace(t, p, At(t, p)) == t
    decreases |p|
  {
    if |p| > 0 {
      ReplaceSame(Child(t, p[0]), p[1..]);
    }
  }

  /** A re-link leaves every path that is neither above nor below it untouched. */
  lemma {:induction false} ReplaceElsewhere<E>(t: Tree<E>, p: Path, s: Tree<E>, q: Path)
    requires IsSlot(t, p)
    requires !(p <= q) && !(q <= p)
    ensures At(Replace(t, p, s), q) == At(t, q)
    decreases |p|
  {
    assert |p| > 0 && |q| > 0;
    if p[0] == q[0] {
      PrefixTail(p, q);
      PrefixTail(q, p);
      ReplaceElsewhere(Child(t, p[0]), p[1..], s, q[1..]);
    }
  }

  /** A re-link keeps every node above it in place, with its element. */
  lemma {:induction false} ReplaceAbove<E>(t: Tree<E>, p: Path, s: Tree<E>, q: Path)
    requires IsSlot(t, p) && q < p
    ensures At(t, q).Node? && At(Replace(t, p, s), q).Node?
    ensures At(Replace(t, p, s), q).element == At(t, q).element
    decreases |q|
  {
    if |q| > 0 {
      assert q[0] == p[0];
      assert q[1..] < p[1..] by {
        assert q[1..] == p[1..][..|q| - 1];
      }
      ReplaceAbove(Child(t, p[0]), p[1..], s, q[1..]);
    }
  }

  /** A common first step extends a prefix relation between the tails. */
  lemma PrefixTail(p: Path, q: Path)
    requires |p| > 0 && |q| > 0 && p[0] == q[0]
    ensures p[1..] <= q[1..] ==> p <= q
  {
    assert p == [p[0]] + p[1..] && q == [q[0]] + q[1..];
  }

  lemma {:induction false} InorderLength<E>(t: Tree<E>)
    ensures |Inorder(t)| == Count(t)
  {
    match t
    case Nil =>
    case Node(l, _, r) =>
      InorderLength(l);
      InorderLength(r);
  }

  // ---------------------------------------------------------------------------
  // Accessors
  // ---------------------------------------------------------------------------

  /** validate(p): the node behind a position, or IllegalArgumentException
      when the position no longer addresses a node. */
  function Validate<E>(g: Engine<E>, p: Path): (r: Result<Tree<E>>)
    ensures r.Success? <==> IsPosition(g.root, p)
    ensures r.Success? ==> r.value.Node? && r.value == At(g.root, p)
    ensures r.Failure? ==> r.error == IllegalArgument
  {
    var n := At(g.root, p);
    if n.Nil? then Failure(IllegalArgument) else Success(n)
  }

  /** size(): the node counter. */
  function Size<E>(g: Engine<E>): (n: int)
    requires Valid(g)
    ensures n == Count(g.root) && n == |Inorder(g.root)|
  {
    InorderLength(g.root);
    g.size
  }

  /** root(): the root position, or none for an empty tree. */
  function Root<E>(g: Engine<E>): (r: Option<Path>)
    ensures r.Some? <==> g.root.Node?
    ensures r.Some? ==> IsPosition(g.root, r.value) && At(g.root, r.value) == g.root
  {
    if g.root.Nil? then None else Some([])
  }

  /** parent(p): the position one step up, or none at the root. */
  function Parent<E>(g: Engine<E>, p: Path): (r: Option<Path>)
    requires IsPosition(g.root, p)
    ensures r.None? <==> |p| == 0
    ensures r.Some? ==> (IsPosition(g.root, r.value)
                         && |r.value| + 1 == |p|
                         && Child(At(g.root, r.value), p[|p| - 1]) == At(g.root, p))
  {
    if |p| == 0 then None
    else
      var q := p[..|p| - 1];
      assert p == q + [p[|p| - 1]];
      AtAppend(g.root, q, [p[|p| - 1]]);
      Some(q)
  }

  /** left(p): the position of the left child, or none when the link is null. */
  function Left<E>(g: Engine<E>, p: Path): (r: Option<Path>)
    requires IsPosition(g.root, p)
    ensures r.None? <==> At(g.root, p).left.Nil?
    ensures r.Some? ==> r.value == p + [false] && At(g.root, r.value) == At(g.root, p).left
  {
    AtAppend(g.root, p, [false]);
    if At(g.root, p).left.Nil? then None else Some(p + [false])
  }

  /** right(p): the position of the right child, or none when the link is null. */
  function Right<E>(g: Engine<E>, p: Path): (r: Option<Path>)
    requires IsPosition(g.root, p)
    ensures r.None? <==> At(g.root, p).right.Nil?
    ensures r.Some? ==> r.value == p + [true] && At(g.root, r.value) == At(g.root, p).right
  {
    AtAppend(g.root, p, [true]);
    if At(g.root, p).right.Nil? then None else Some(p + [true])
  }

  // ---------------------------------------------------------------------------
  // Update methods
  // ---------------------------------------------------------------------------

  /** addRoot(e): IllegalStateException if a root exists; otherwise a single
      node becomes the tree and the counter grows by one. */
  function AddRoot<E>(g: Engine<E>, e: E): (r: Result<(Engine<E>, Path)>)
    ensures g.root.Node? <==> r.Failure?
    ensures r.Failure? ==> r.error == IllegalState
    ensures r.Success? ==> (r.value.0.root == Node(Nil, e, Nil)
                            && r.value.0.size == g.size + 1
                            && r.value.1 == []
                            && (Valid(g) ==> Valid(r.value.0) && r.value.0.size == 1))
  {
    if g.root.Node? then Failure(IllegalState)
    else Success((Engine(Node(Nil, e, Nil), g.size + 1), []))
  }

  /** addLeft(p, e): a fresh childless node becomes the left child of `p`.
      The slot must be empty (the documented contract; the code does not check). */
  function AddLeft<E>(g: Engine<E>, p: Path, e: E): (r: (Engine<E>, Path))
    requires IsPosition(g.root, p) && At(g.root, p).left.Nil?
    ensures r.1 == p + [false]
    ensures At(r.0.root, r.1) == Node(Nil, e, Nil)
    ensures Parent(r.0, r.1) == Some(p)
    ensures IsPosition(r.0.root, p)
    ensures At(r.0.root, p).element == At(g.root, p).element
    ensures At(r.0.root, p).right == At(g.root, p).right
    ensures r.0.size == g.size + 1 && Count(r.0.root) == Count(g.root) + 1
    ensures Valid(g) ==> Valid(r.0)
    ensures forall q :: !(p <= q) && !(q <= p) ==> At(r.0.root, q) == At(g.root, q)
    ensures forall q :: q < p ==> At(g.root, q).Node? && At(r.0.root, q).Node? && At(r.0.root, q).element == At(g.root, q).element
  {
    var n := At(g.root, p);
    var n' := Node(Node(Nil, e, Nil), n.element, n.right);
    PositionIsSlot(g.root, p);
    var t := Replace(g.root, p, n');
    AtReplace(g.root, p, n');
    CountReplace(g.root, p, n');
    AtAppend(t, p, [false]);
    assert (p + [false])[..|p + [false]| - 1] == p;
    forall q | !(p <= q) && !(q <= p)
      ensures At(t, q) == At(g.root, q)
    {
      ReplaceElsewhere(g.root, p, n', q);
    }
    forall q | q < p
      ensures At(g.root, q).Node? && At(t, q).Node? && At(t, q).element == At(g.root, q).element
    {
      ReplaceAbove(g.root, p, n', q);
    }
    (Engine(t, g.size + 1), p + [false])
  }

  /** addRight(p, e): a fresh childless node becomes the right child of `p`.
      The slot must be empty (the documented contract; the code does not check). */
  function AddRight<E>(g: Engine<E>, p: Path, e: E): (r: (Engine<E>, Path))
    requires IsPosition(g.root, p) && At(g.root, p).right.Nil?
    ensures r.1 == p + [true]
    ensures At(r.0.root, r.1) == Node(Nil, e, Nil)
    ensures Parent(r.0, r.1) == Some(p)
    ensures IsPosition(r.0.root, p)
    ensures At(r.0.root, p).element == At(g.root, p).element
    ensures At(r.0.root, p).left == At(g.root, p).left
    ensures r.0.size == g.size + 1 && Count(r.0.root) == Count(g.root) + 1
    ensures Valid(g) ==> Valid(r.0)
    ensures forall q :: !(p <= q) && !(q <= p) ==> At(r.0.root, q) == At(g.root, q)
    ensures forall q :: q < p ==> At(g.root, q).Node? && At(r.0.root, q).Node? && At(r.0.root, q).element == At(g.root, q).element
  {
    var n := At(g.root, p);
    var n' := Node(n.left, n.element, Node(Nil, e, Nil));
    PositionIsSlot(g.root, p);
    var t := Replace(g.root, p, n');
    AtReplace(g.root, p, n');
    CountReplace(g.root, p, n');
    AtAppend(t, p, [true]);
    assert (p + [true])[..|p + [true]| - 1] == p;
    forall q | !(p <= q) && !(q <= p)
      ensures At(t, q) == At(g.root, q)
    {
      ReplaceElsewhere(g.root, p, n', q);
    }
    forall q | q < p
      ensures At(g.root, q).Node? && At(t, q).Node? && At(t, q).element == At(g.root, q).element
    {
      ReplaceAbove(g.root, p, n', q);
    }
    (Engine(t, g.size + 1), p + [true])
  }

  // ---------------------------------------------------------------------------
  // Defect: addLeft and addRight do not check that the slot is empty
  // ---------------------------------------------------------------------------

  /** The node `p` with a fresh childless node holding e on one side. */
  function WithNewChild<E>(n: Tree<E>, right: bool, e: E): Tree<E>
    requires n.Node?
  {
    if right then Node(n.left, n.element, Node(Nil, e, Nil))
    else Node(Node(Nil, e, Nil), n.element, n.right)
  }

  /** addLeft(p, e) / addRight(p, e) as written: the new node replaces
      whatever the link held, and the counter grows by one regardless. */
  function AddChildAsWritten<E>(g: Engine<E>, p: Path, right: bool, e: E): (r: (Engine<E>, Path))
    requires IsPosition(g.root, p)
    ensures r.1 == p + [right]
    ensures At(r.0.root, r.1) == Node(Nil, e, Nil)
    ensures r.0.size == g.size + 1
    ensures Count(r.0.root) == Count(g.root) + 1 - Count(Child(At(g.root, p), right))
  {
    var n := At(g.root, p);
    var n' := WithNewChild(n, right, e);
    assert Count(Node(Nil, e, Nil)) == 1;
    assert Count(n') == Count(n) + 1 - Count(Child(n, right));
    PositionIsSlot(g.root, p);
    var t := Replace(g.root, p, n');
    AtReplace(g.root, p, n');
    CountReplace(g.root, p, n');
    AtAppend(t, p, [right]);
    (Engine(t, g.size + 1), p + [right])
  }

  /** Adding into an occupied slot drops the old subtree but still counts
      one more node: the counter overstates the linked nodes and the
      invariant is broken. */
  lemma AddIntoOccupiedSlot<E>(g: Engine<E>, p: Path, right: bool, e: E)
    requires Valid(g) && IsPosition(g.root, p) && Child(At(g.root, p), right).Node?
    ensures var r := AddChildAsWritten(g, p, right, e);
            Count(r.0.root) < r.0.size && !Valid(r.0)
  {
  }

  /** A concrete instance: addLeft on the root of a two-node tree whose root
      already has a left child leaves two linked nodes and a counter of 3. */
  lemma AddIntoOccupiedSlotExample()
    ensures var g := Engine(Node(Node(Nil, 1, Nil), 0, Nil), 2);
            var r := AddChildAsWritten(g, [], false, 5);
            Count(r.0.root) == 2 && r.0.size == 3
  {
  }

  /** addLeft(p, e) / addRight(p, e) as documented: IllegalArgumentException
      for a position that addresses no node and for a slot that already
      holds a child; otherwise the as-written update, which then keeps the
      invariant. */
  function AddChildChecked<E>(g: Engine<E>, p: Path, right: bool, e: E): (r: Result<(Engine<E>, Path)>)
    ensures r.Failure? <==> !IsPosition(g.root, p) || Child(At(g.root, p), right).Node?
    ensures r.Failure? ==> r.error == IllegalArgument
    ensures r.Success? ==> r.value.1 == p + [right] && At(r.value.0.root, r.value.1) == Node(Nil, e, Nil)
    ensures r.Success? ==> Count(r.value.0.root) == Count(g.root) + 1
    ensures r.Success? && Valid(g) ==> Valid(r.value.0)
  {
    if !IsPosition(g.root, p) || Child(At(g.root, p), right).Node? then Failure(IllegalArgument)
    else Success(AddChildAsWritten(g, p, right, e))
  }

  /** On an empty slot the checked versions agree with AddLeft and AddRight. */
  lemma AddChildCheckedAgrees<E>(g: Engine<E>, p: Path, e: E)
    requires IsPosition(g.root, p)
    ensures At(g.root, p).left.Nil? ==> AddChildChecked(g, p, false, e) == Success(AddLeft(g, p, e))
    ensures At(g.root, p).right.Nil? ==> AddChildChecked(g, p, true, e) == Success(AddRight(g, p, e))
  {
  }

  /** set(p, e): replaces the element at `p` and returns the previous one;
      shape and counter are unchanged. */
  function Set<E>(g: Engine<E>, p: Path, e: E): (r: (Engine<E>, E))
    requires IsPosition(g.root, p)
    ensures r.1 == At(g.root, p).element
    ensures At(r.0.root, p) == At(g.root, p).(element := e)
    ensures r.0.size == g.size && Count(r.0.root) == Count(g.root)
    ensures Valid(g) ==> Valid(r.0)
    ensures forall q :: !(p <= q) && !(q <= p) ==> At(r.0.root, q) == At(g.root, q)
    ensures forall q :: q < p ==> At(g.root, q).Node? && At(r.0.root, q).Node? && At(r.0.root, q).element == At(g.root, q).element
  {
    var n := At(g.root, p);
    var n' := n.(element := e);
    PositionIsSlot(g.root, p);
    AtReplace(g.root, p, n');
    CountReplace(g.root, p, n');
    forall q | !(p <= q) && !(q <= p)
      ensures At(Replace(g.root, p, n'), q) == At(g.root, q)
    {
      ReplaceElsewhere(g.root, p, n', q);
    }
    forall q | q < p
      ensures At(g.root, q).Node? && At(Replace(g.root, p, n'), q).Node? && At(Replace(g.root, p, n'), q).element == At(g.root, q).element
    {
      ReplaceAbove(g.root, p, n', q);
    }
    (Engine(Replace(g.root, p, n'), g.size), n.element)
  }

  /** The child `remove` promotes: the left one if present, else the right one. */
  function Promoted<E>(n: Tree<E>): Tree<E>
    requires n.Node?
  {
    if n.left.Node? then n.left else n.right
  }

  /** remove(p): IllegalArgumentException for a position that addresses no node
      or a node with two children; otherwise the node's only child (or nothing)
      takes its slot, the counter drops by one and the element is returned. */
  function Remove<E>(g: Engine<E>, p: Path): (r: Result<(Engine<E>, E)>)
    ensures r.Failure? <==>
      !IsPosition(g.root, p) || (At(g.root, p).left.Node? && At(g.root, p).right.Node?)
    ensures r.Failure? ==> r.error == IllegalArgument
    ensures r.Success? ==>
      var n := At(g.root, p);
      && r.value.1 == n.element
      && At(r.value.0.root, p) == (if n.left.Node? then n.left else n.right)
      && (|p| == 0 ==> r.value.0.root == At(g.root, p).left || r.value.0.root == At(g.root, p).right)
      && r.value.0.size == g.size - 1
      && Count(r.value.0.root) == Count(g.root) - 1
      && (Valid(g) ==> Valid(r.value.0))
      && (forall q :: !(p <= q) && !(q <= p) ==> At(r.value.0.root, q) == At(g.root, q))
      && (forall q :: q < p ==> At(g.root, q).Node? && At(r.value.0.root, q).Node? && At(r.value.0.root, q).element == At(g.root, q).element)
  {
    match Validate(g, p)
    case Failure(err) => Failure(err)
    case Success(n) =>
      if n.left.Node? && n.right.Node? then Failure(IllegalArgument)
      else
        var child := Promoted(n);
        PositionIsSlot(g.root, p);
        AtReplace(g.root, p, child);
        CountReplace(g.root, p, child);
        forall q | !(p <= q) && !(q <= p)
          ensures At(Replace(g.root, p, child), q) == At(g.root, q)
        {
          ReplaceElsewhere(g.root, p, child, q);
        }
        forall q | q < p
          ensures At(g.root, q).Node? && At(Replace(g.root, p, child), q).Node? && At(Replace(g.root, p, child), q).element == At(g.root, q).element
        {
          ReplaceAbove(g.root, p, child, q);
        }
        Success((Engine(Replace(g.root, p, child), g.size - 1), n.element))
  }

  /** A removed childless node is gone: validating its position afterwards fails. */
  lemma RemovedLeafIsStale<E>(g: Engine<E>, p: Path)
    requires IsPosition(g.root, p)
    requires At(g.root, p).left.Nil? && At(g.root, p).right.Nil?
    ensures Remove(g, p).Success?
    ensures Validate(Remove(g, p).value.0, p) == Failure(IllegalArgument)
    ensures Remove(Remove(g, p).value.0, p) == Failure(IllegalArgument)
  {
  }

  // ---------------------------------------------------------------------------
  // Level-order construction
  // ---------------------------------------------------------------------------

  /** createLevelOrder(arr, parent, i): the node for index `i` with its
      subtrees for indices 2i+1 and 2i+2; null beyond the array. */
  function Build<E>(arr: seq<E>, i: nat): Tree<E>
    decreases |arr| - i
  {
    if i < |arr| then Node(Build(arr, 2 * i + 1), arr[i], Build(arr, 2 * i + 2))
    else Nil
  }

  /** createLevelOrder(arr): the level-order tree, with the counter set to the array length. */
  function CreateLevelOrder<E>(arr: seq<E>): (r: (Engine<E>, Option<Path>))
    ensures r.0.size == |arr|
    ensures Valid(r.0)
    ensures r.1 == Root(r.0)
    ensures Inorder(r.0.root) == [] <==> |arr| == 0
  {
    ShapeCountIsLength(|arr|);
    CountBuild(arr, 0);
    InorderLength(Build(arr, 0));
    var g := Engine(Build(arr, 0), |arr|);
    (g, Root(g))
  }

  /** The array index the level-order layout gives the node a path reaches from index `i`. */
  function IndexFrom(i: nat, p: Path): nat
    decreases |p|
  {
    if |p| == 0 then i
    else IndexFrom(2 * i + (if p[0] then 2 else 1), p[1..])
  }

  /** Index of a path from the root. */
  function LevelIndex(p: Path): nat
  {
    IndexFrom(0, p)
  }

  /** One more step at the end of a path doubles the index and adds one or two. */
  lemma {:induction false} IndexFromAppend(i: nat, p: Path, b: bool)
    ensures IndexFrom(i, p + [b]) == 2 * IndexFrom(i, p) + (if b then 2 else 1)
    decreases |p|
  {
    if |p| == 0 {
      assert p + [b] == [b];
      assert ([b])[1..] == [];
    } else {
      assert (p + [b])[1..] == p[1..] + [b];
      IndexFromAppend(2 * i + (if p[0] then 2 else 1), p[1..], b);
    }
  }

  /** The node a path reaches from index `i` exists exactly when its index is
      inside the array, and it holds the array element at that index. */
  lemma {:induction false} BuildAt<E>(arr: seq<E>, i: nat, p: Path)
    ensures IsPosition(Build(arr, i), p) <==> IndexFrom(i, p) < |arr|
    ensures IsPosition(Build(arr, i), p) ==> At(Build(arr, i), p).element == arr[IndexFrom(i, p)]
    decreases |p|
  {
    if |p| > 0 {
      var c := 2 * i + (if p[0] then 2 else 1);
      if i < |arr| {
        BuildAt(arr, c, p[1..]);
      } else {
        AtNil(Build(arr, c), p[1..]);
        IndexFromGrows(c, p[1..]);
      }
    }
  }

  lemma {:induction false} IndexFromGrows(i: nat, p: Path)
    ensures IndexFrom(i, p) >= i
    decreases |p|
  {
    if |p| > 0 {
      IndexFromGrows(2 * i + (if p[0] then 2 else 1), p[1..]);
    }
  }

  /** The level-order layout: the node with array index i has its children at
      2i+1 and 2i+2, present exactly when those indices are inside the array. */
  lemma LevelOrderChildren<E>(arr: seq<E>, p: Path)
    requires IsPosition(CreateLevelOrder(arr).0.root, p)
    ensures LevelIndex(p) < |arr|
    ensures At(CreateLevelOrder(arr).0.root, p).element == arr[LevelIndex(p)]
    ensures At(CreateLevelOrder(arr).0.root, p).left.Node? <==> 2 * LevelIndex(p) + 1 < |arr|
    ensures At(CreateLevelOrder(arr).0.root, p).right.Node? <==> 2 * LevelIndex(p) + 2 < |arr|
  {
    var t := Build(arr, 0);
    BuildAt(arr, 0, p);
    BuildAt(arr, 0, p + [false]);
    BuildAt(arr, 0, p + [true]);
    IndexFromAppend(0, p, false);
    IndexFromAppend(0, p, true);
    AtAppend(t, p, [false]);
    AtAppend(t, p, [true]);
  }

  /** Number of nodes the level-order layout puts under index `i` for an array of length `n`. */
  function ShapeCount(n: nat, i: nat): nat
    decreases n - i
  {
    if i < n then 1 + ShapeCount(n, 2 * i + 1) + ShapeCount(n, 2 * i + 2) else 0
  }

  lemma {:induction false} CountBuild<E>(arr: seq<E>, i: nat)
    ensures Count(Build(arr, i)) == ShapeCount(|arr|, i)
    decreases |arr| - i
  {
    if i < |arr| {
      CountBuild(arr, 2 * i + 1);
      CountBuild(arr, 2 * i + 2);
    }
  }

  /** Index `i` lies on the chain of parents (j-1)/2 starting at `j`. */
  predicate Above(i: nat, j: nat)
    decreases j
  {
    j == i || (j > i && Above(i, (j - 1) / 2))
  }

  /** Below a node, a deeper index lies under exactly one of its two children. */
  lemma {:induction false} AboveSplit(i: nat, j: nat)
    requires j > i
    ensures Above(i, j) <==> (Above(2 * i + 1, j) || Above(2 * i + 2, j))
    ensures !(Above(2 * i + 1, j) && Above(2 * i + 2, j))
    decreases j
  {
    var q := (j - 1) / 2;
    if q == i {
      assert j == 2 * i + 1 || j == 2 * i + 2;
      if j == 2 * i + 2 {
        assert !Above(2 * i + 1, q);
      }
    } else if q > i {
      assert j > 2 * i + 2;
      AboveSplit(i, q);
    } else {
      assert j <= 2 * i;
    }
  }

  /** Every index descends from the root index. */
  lemma {:induction false} AboveFromRoot(j: nat)
    ensures Above(0, j)
    decreases j
  {
    if j > 0 {
      AboveFromRoot((j - 1) / 2);
    }
  }

  /** Growing the array by one element adds one node under `i` exactly when the new index descends from `i`. */
  lemma {:induction false} ShapeCountGrow(n: nat, i: nat)
    ensures ShapeCount(n + 1, i) == ShapeCount(n, i) + (if Above(i, n) then 1 else 0)
    decreases n + 1 - i
  {
    if i < n {
      ShapeCountGrow(n, 2 * i + 1);
      ShapeCountGrow(n, 2 * i + 2);
      AboveSplit(i, n);
    } else if i == n {
      assert ShapeCount(n + 1, 2 * i + 1) == 0;
      assert ShapeCount(n + 1, 2 * i + 2) == 0;
    }
  }

  /** The level-order tree of an array of length `n` has exactly `n` nodes. */
  lemma {:induction false} ShapeCountIsLength(n: nat)
    ensures ShapeCount(n, 0) == n
  {
    if n > 0 {
      ShapeCountIsLength(n - 1);
      ShapeCountGrow(n - 1, 0);
      AboveFromRoot(n - 1);
    }
  }
}
