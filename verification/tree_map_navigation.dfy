/** The ordered queries of TreeMap.java: firstEntry, lastEntry, ceilingEntry,
    floorEntry, lowerEntry, higherEntry, entrySet and subMap.

    Each query is written the way the class computes it (a search followed by a
    climb towards the root, an in-order walk of the engine tree, a pruned
    recursion), then related to an independent structural definition and to
    the abstract map it answers questions about. */
module TreeMapNavigation {
  import opened Wrappers
  import opened TreeMap
  import BT = LinkedBinaryTree

  /** The first present value of two. */
  function OrElse<T>(a: Option<T>, b: Option<T>): Option<T>
  {
    if a.Some? then a else b
  }

  // ---------------------------------------------------------------------------
  // What each query answers, on the abstract map
  // ---------------------------------------------------------------------------

  /** `r` is an entry of `m`. */
  ghost predicate Holds<V>(m: map<int, V>, r: Option<Entry<V>>)
  {
    r.Some? ==> r.value.key in m && m[r.value.key] == r.value.value
  }

  /** `r` is the entry of least key, none exactly when `m` is empty. */
  ghost predicate IsFirst<V>(m: map<int, V>, r: Option<Entry<V>>)
  {
    && Holds(m, r)
    && (r.None? <==> m == map[])
    && (forall x :: x in m ==> r.Some? && r.value.key <= x)
  }

  /** `r` is the entry of greatest key, none exactly when `m` is empty. */
  ghost predicate IsLast<V>(m: map<int, V>, r: Option<Entry<V>>)
  {
    && Holds(m, r)
    && (r.None? <==> m == map[])
    && (forall x :: x in m ==> r.Some? && x <= r.value.key)
  }

  /** `r` is the entry of least key at or above `k`, none if there is no such key. */
  ghost predicate IsCeiling<V>(m: map<int, V>, k: int, r: Option<Entry<V>>)
  {
    && Holds(m, r)
    && (r.Some? ==> k <= r.value.key)
    && (forall x :: x in m && k <= x ==> r.Some? && r.value.key <= x)
  }

  /** `r` is the entry of greatest key at or below `k`, none if there is no such key. */
  ghost predicate IsFloor<V>(m: map<int, V>, k: int, r: Option<Entry<V>>)
  {
    && Holds(m, r)
    && (r.Some? ==> r.value.key <= k)
    && (forall x :: x in m && x <= k ==> r.Some? && x <= r.value.key)
  }

  /** `r` is the entry of greatest key strictly below `k`, none if there is no such key. */
  ghost predicate IsLower<V>(m: map<int, V>, k: int, r: Option<Entry<V>>)
  {
    && Holds(m, r)
    && (r.Some? ==> r.value.key < k)
    && (forall x :: x in m && x < k ==> r.Some? && x <= r.value.key)
  }

  /** `r` is the entry of least key strictly above `k`, none if there is no such key. */
  ghost predicate IsHigher<V>(m: map<int, V>, k: int, r: Option<Entry<V>>)
  {
    && Holds(m, r)
    && (r.Some? ==> k < r.value.key)
    && (forall x :: x in m && k < x ==> r.Some? && r.value.key <= x)
  }

  // ---------------------------------------------------------------------------
  // firstEntry / lastEntry
  // ---------------------------------------------------------------------------

  /** firstEntry(): none on an empty map, else the entry treeMin(root()) reaches. */
  function FirstEntry<V>(t: Tree<V>): (r: Option<Entry<V>>)
    ensures IsBst(t) ==> IsFirst(Contents(t), r)
  {
    if t.Leaf? then None
    else
      ContentsOfBstNode(t, t.key);
      Some(EntryOf(Sub(t, TreeMin(t))))
  }

  /** lastEntry(): none on an empty map, else the entry treeMax(root()) reaches. */
  function LastEntry<V>(t: Tree<V>): (r: Option<Entry<V>>)
    ensures IsBst(t) ==> IsLast(Contents(t), r)
  {
    if t.Leaf? then None
    else
      ContentsOfBstNode(t, t.key);
      Some(EntryOf(Sub(t, TreeMax(t))))
  }

  // ---------------------------------------------------------------------------
  // The climb towards the root
  // ---------------------------------------------------------------------------

  /** The loop `while (!isRoot(p)) { if (p == child(parent(p))) return parent(p);
      p = parent(p); }`: the deepest proper ancestor of `p` whose path continues
      on side `dir`, or none when the walk reaches the root. */
  function Climb(p: Path, dir: bool): (a: Option<Path>)
    ensures a.Some? ==> |a.value| < |p| && a.value == p[..|a.value|] && p[|a.value|] == dir
    ensures a.Some? ==> forall i :: |a.value| < i < |p| ==> p[i] != dir
    ensures a.None? ==> forall i :: 0 <= i < |p| ==> p[i] != dir
    decreases |p|
  {
    if |p| == 0 then None
    else if p[|p| - 1] == dir then Some(p[..|p| - 1])
    else
      var a := Climb(p[..|p| - 1], dir);
      if a.Some? then
        assert p[..|p| - 1][..|a.value|] == p[..|a.value|];
        a
      else a
  }

  /** Climbing from one step below the root: the climb inside the child, or else
      the root itself when the first step went the searched way. */
  lemma {:induction false} ClimbCons(b: bool, q: Path, dir: bool)
    ensures Climb([b] + q, dir) ==
      if Climb(q, dir).Some? then Some([b] + Climb(q, dir).value)
      else if b == dir then Some([])
      else None
    decreases |q|
  {
    var p := [b] + q;
    if |q| == 0 {
      assert p[..|p| - 1] == [];
    } else {
      assert p[..|p| - 1] == [b] + q[..|q| - 1];
      assert p[|p| - 1] == q[|q| - 1];
      ClimbCons(b, q[..|q| - 1], dir);
    }
  }

  /** A proper prefix of a slot path addresses an internal node. */
  lemma {:induction false} PrefixIsNode<V>(t: Tree<V>, p: Path, n: nat)
    requires IsSlot(t, p) && n < |p|
    ensures IsSlot(t, p[..n]) && Sub(t, p[..n]).Node?
    decreases n
  {
    if n > 0 {
      PrefixIsNode(Child(t, p[0]), p[1..], n - 1);
      assert p[..n] == [p[0]] + p[1..][..n - 1];
      StepDown(t, p[0], p[1..][..n - 1], Leaf);
    }
  }

  /** The entry of the ancestor the climb stops at. */
  function ClimbEntry<V>(t: Tree<V>, p: Path, dir: bool): Option<Entry<V>>
    requires IsSlot(t, p)
  {
    var a := Climb(p, dir);
    if a.None? then None
    else
      PrefixIsNode(t, p, |a.value|);
      Some(EntryOf(Sub(t, a.value)))
  }

  lemma ClimbEntryCons<V>(t: Tree<V>, b: bool, q: Path, dir: bool)
    requires t.Node? && IsSlot(Child(t, b), q)
    ensures IsSlot(t, [b] + q)
    ensures ClimbEntry(t, [b] + q, dir) ==
      OrElse(ClimbEntry(Child(t, b), q, dir), if b == dir then Some(EntryOf(t)) else None)
  {
    StepDown(t, b, q, Leaf);
    ClimbCons(b, q, dir);
    var a := Climb(q, dir);
    if a.Some? {
      StepDown(t, b, a.value, Leaf);
    } else if b == dir {
      assert Sub(t, []) == t;
    }
  }

  /** The search path one level down. */
  lemma SearchStep<V>(t: Tree<V>, k: int)
    requires t.Node? && k != t.key
    ensures TreeSearch(t, k) == [k > t.key] + TreeSearch(Child(t, k > t.key), k)
    ensures Sub(t, TreeSearch(t, k)) == Sub(Child(t, k > t.key), TreeSearch(Child(t, k > t.key), k))
  {
    StepDown(t, k > t.key, TreeSearch(Child(t, k > t.key), k), Leaf);
  }

  // ---------------------------------------------------------------------------
  // ceilingEntry / floorEntry / lowerEntry / higherEntry as written
  // ---------------------------------------------------------------------------

  /** ceilingEntry(key): the node the search ends at if internal, else the
      nearest ancestor whose left subtree holds the search path. */
  function Ceiling<V>(t: Tree<V>, k: int): Option<Entry<V>>
  {
    var p := TreeSearch(t, k);
    if Sub(t, p).Node? then Some(EntryOf(Sub(t, p))) else ClimbEntry(t, p, false)
  }

  /** floorEntry(key): the node the search ends at if internal, else the
      nearest ancestor whose right subtree holds the search path. */
  function Floor<V>(t: Tree<V>, k: int): Option<Entry<V>>
  {
    var p := TreeSearch(t, k);
    if Sub(t, p).Node? then Some(EntryOf(Sub(t, p))) else ClimbEntry(t, p, true)
  }

  /** lowerEntry(key): the greatest entry of the found node's left subtree when
      the node and that subtree are internal, else the climb of floorEntry. */
  function Lower<V>(t: Tree<V>, k: int): Option<Entry<V>>
  {
    var p := TreeSearch(t, k);
    var n := Sub(t, p);
    if n.Node? && n.left.Node? then Some(EntryOf(Sub(n.left, TreeMax(n.left))))
    else ClimbEntry(t, p, true)
  }

  /** higherEntry(key): the least entry of the found node's right subtree when
      the node and that subtree are internal, else the climb of ceilingEntry. */
  function Higher<V>(t: Tree<V>, k: int): Option<Entry<V>>
  {
    var p := TreeSearch(t, k);
    var n := Sub(t, p);
    if n.Node? && n.right.Node? then Some(EntryOf(Sub(n.right, TreeMin(n.right))))
    else ClimbEntry(t, p, false)
  }

  // ---------------------------------------------------------------------------
  // Structural reference definitions
  // ---------------------------------------------------------------------------

  function CeilingRec<V>(t: Tree<V>, k: int): Option<Entry<V>>
  {
    match t
    case Leaf => None
    case Node(l, x, v, r) =>
      if k == x then Some(Entry(x, v))
      else if k < x then OrElse(CeilingRec(l, k), Some(Entry(x, v)))
      else CeilingRec(r, k)
  }

  function FloorRec<V>(t: Tree<V>, k: int): Option<Entry<V>>
  {
    match t
    case Leaf => None
    case Node(l, x, v, r) =>
      if k == x then Some(Entry(x, v))
      else if k < x then FloorRec(l, k)
      else OrElse(FloorRec(r, k), Some(Entry(x, v)))
  }

  function LowerRec<V>(t: Tree<V>, k: int): Option<Entry<V>>
  {
    match t
    case Leaf => None
    case Node(l, x, v, r) =>
      if k <= x then LowerRec(l, k)
      else OrElse(LowerRec(r, k), Some(Entry(x, v)))
  }

  function HigherRec<V>(t: Tree<V>, k: int): Option<Entry<V>>
  {
    match t
    case Leaf => None
    case Node(l, x, v, r) =>
      if k >= x then HigherRec(r, k)
      else OrElse(HigherRec(l, k), Some(Entry(x, v)))
  }

  // ---------------------------------------------------------------------------
  // The climbs compute the structural definitions
  // ---------------------------------------------------------------------------

  lemma {:induction false} CeilingIsRec<V>(t: Tree<V>, k: int)
    ensures Ceiling(t, k) == CeilingRec(t, k)
  {
    if t.Node? && k != t.key {
      var b := k > t.key;
      SearchStep(t, k);
      ClimbEntryCons(t, b, TreeSearch(Child(t, b), k), false);
      CeilingIsRec(Child(t, b), k);
    }
  }

  lemma {:induction false} FloorIsRec<V>(t: Tree<V>, k: int)
    ensures Floor(t, k) == FloorRec(t, k)
  {
    if t.Node? && k != t.key {
      var b := k > t.key;
      SearchStep(t, k);
      ClimbEntryCons(t, b, TreeSearch(Child(t, b), k), true);
      FloorIsRec(Child(t, b), k);
    }
  }

  /** Below every key of a tree, lowerEntry's structural definition is the maximum. */
  lemma {:induction false} LowerAboveAll<V>(t: Tree<V>, k: int)
    requires t.Node? && forall x :: x in Contents(t) ==> x < k
    ensures LowerRec(t, k) == Some(EntryOf(Sub(t, TreeMax(t))))
  {
    ContentsOfBstNode(t, t.key);
    if t.right.Node? {
      ContentsOfBstNode(t, t.right.key);
      assert forall x :: x in Contents(t.right) ==> x in Contents(t);
      LowerAboveAll(t.right, k);
      StepDown(t, true, TreeMax(t.right), Leaf);
    } else {
      assert LowerRec(t.right, k) == None;
    }
  }

  lemma {:induction false} HigherBelowAll<V>(t: Tree<V>, k: int)
    requires t.Node? && forall x :: x in Contents(t) ==> k < x
    ensures HigherRec(t, k) == Some(EntryOf(Sub(t, TreeMin(t))))
  {
    ContentsOfBstNode(t, t.key);
    if t.left.Node? {
      ContentsOfBstNode(t, t.left.key);
      assert forall x :: x in Contents(t.left) ==> x in Contents(t);
      HigherBelowAll(t.left, k);
      StepDown(t, false, TreeMin(t.left), Leaf);
    } else {
      assert HigherRec(t.left, k) == None;
    }
  }

  lemma {:induction false} LowerIsRec<V>(t: Tree<V>, k: int)
    ensures IsBst(t) ==> Lower(t, k) == LowerRec(t, k)
  {
    if t.Node? && IsBst(t) {
      if k != t.key {
        var b := k > t.key;
        SearchStep(t, k);
        ClimbEntryCons(t, b, TreeSearch(Child(t, b), k), true);
        LowerIsRec(Child(t, b), k);
      } else if t.left.Node? {
        LowerAboveAll(t.left, k);
      }
    }
  }

  lemma {:induction false} HigherIsRec<V>(t: Tree<V>, k: int)
    ensures IsBst(t) ==> Higher(t, k) == HigherRec(t, k)
  {
    if t.Node? && IsBst(t) {
      if k != t.key {
        var b := k > t.key;
        SearchStep(t, k);
        ClimbEntryCons(t, b, TreeSearch(Child(t, b), k), false);
        HigherIsRec(Child(t, b), k);
      } else if t.right.Node? {
        HigherBelowAll(t.right, k);
      }
    }
  }

  // ---------------------------------------------------------------------------
  // The structural definitions answer the queries
  // ---------------------------------------------------------------------------

  /** A key of a search-tree node lies in exactly one of its three parts. */
  lemma NodeKeys<V>(t: Tree<V>)
    requires t.Node? && IsBst(t)
    ensures forall x :: x in Contents(t) <==> x == t.key || x in Contents(t.left) || x in Contents(t.right)
    ensures forall x :: x in Contents(t.left) ==> Contents(t)[x] == Contents(t.left)[x]
    ensures forall x :: x in Contents(t.right) ==> Contents(t)[x] == Contents(t.right)[x]
    ensures t.key in Contents(t) && Contents(t)[t.key] == t.value
  {
    forall x | x in Contents(t.left)
      ensures Contents(t)[x] == Contents(t.left)[x]
    {
      ContentsOfBstNode(t, x);
    }
    forall x | x in Contents(t.right)
      ensures Contents(t)[x] == Contents(t.right)[x]
    {
      ContentsOfBstNode(t, x);
    }
  }

  lemma {:induction false} CeilingRecSpec<V>(t: Tree<V>, k: int)
    ensures IsBst(t) ==> IsCeiling(Contents(t), k, CeilingRec(t, k))
  {
    if t.Node? && IsBst(t) {
      NodeKeys(t);
      CeilingRecSpec(t.left, k);
      CeilingRecSpec(t.right, k);
    }
  }

  lemma {:induction false} FloorRecSpec<V>(t: Tree<V>, k: int)
    ensures IsBst(t) ==> IsFloor(Contents(t), k, FloorRec(t, k))
  {
    if t.Node? && IsBst(t) {
      NodeKeys(t);
      FloorRecSpec(t.left, k);
      FloorRecSpec(t.right, k);
    }
  }

  lemma {:induction false} LowerRecSpec<V>(t: Tree<V>, k: int)
    ensures IsBst(t) ==> IsLower(Contents(t), k, LowerRec(t, k))
  {
    if t.Node? && IsBst(t) {
      NodeKeys(t);
      LowerRecSpec(t.left, k);
      LowerRecSpec(t.right, k);
    }
  }

  lemma {:induction false} HigherRecSpec<V>(t: Tree<V>, k: int)
    ensures IsBst(t) ==> IsHigher(Contents(t), k, HigherRec(t, k))
  {
    if t.Node? && IsBst(t) {
      NodeKeys(t);
      HigherRecSpec(t.left, k);
      HigherRecSpec(t.right, k);
    }
  }

  /** ceilingEntry(key): the least key at or above `key`, or none. */
  lemma CeilingEntrySpec<V>(t: Tree<V>, k: int)
    ensures IsBst(t) ==> IsCeiling(Contents(t), k, Ceiling(t, k))
  {
    CeilingIsRec(t, k);
    CeilingRecSpec(t, k);
  }

  /** floorEntry(key): the greatest key at or below `key`, or none. */
  lemma FloorEntrySpec<V>(t: Tree<V>, k: int)
    ensures IsBst(t) ==> IsFloor(Contents(t), k, Floor(t, k))
  {
    FloorIsRec(t, k);
    FloorRecSpec(t, k);
  }

  /** lowerEntry(key): the greatest key strictly below `key`, or none. */
  lemma LowerEntrySpec<V>(t: Tree<V>, k: int)
    ensures IsBst(t) ==> IsLower(Contents(t), k, Lower(t, k))
  {
    LowerIsRec(t, k);
    LowerRecSpec(t, k);
  }

  /** higherEntry(key): the least key strictly above `key`, or none. */
  lemma HigherEntrySpec<V>(t: Tree<V>, k: int)
    ensures IsBst(t) ==> IsHigher(Contents(t), k, Higher(t, k))
  {
    HigherIsRec(t, k);
    HigherRecSpec(t, k);
  }

  // ---------------------------------------------------------------------------
  // entrySet / subMap
  // ---------------------------------------------------------------------------

  /** Keys strictly ascending along the sequence. */
  ghost predicate Ascending<V>(s: seq<Entry<V>>)
  {
    forall i, j :: 0 <= i < j < |s| ==> s[i].key < s[j].key
  }

  /** The entries of the positions an in-order walk visits, skipping the
      sentinels (in a full tree exactly the nodes without an entry). */
  function Internal<V>(s: seq<Option<Entry<V>>>): seq<Entry<V>>
  {
    if |s| == 0 then []
    else (if s[0].Some? then [s[0].value] else []) + Internal(s[1..])
  }

  /** entrySet(): the internal entries of tree.inorder(). */
  function EntrySet<V>(t: Tree<V>): seq<Entry<V>>
  {
    Internal(BT.Inorder(Embed(t)))
  }

  /** In-order entries of the map's tree, defined on the map's own shape. */
  function InorderEntries<V>(t: Tree<V>): seq<Entry<V>>
  {
    match t
    case Leaf => []
    case Node(l, k, v, r) => InorderEntries(l) + [Entry(k, v)] + InorderEntries(r)
  }

  lemma {:induction false} InternalAppend<V>(a: seq<Option<Entry<V>>>, b: seq<Option<Entry<V>>>)
    ensures Internal(a + b) == Internal(a) + Internal(b)
    decreases |a|
  {
    if |a| == 0 {
      assert a + b == b;
    } else {
      var ab := a + b;
      assert ab[0] == a[0] && ab[1..] == a[1..] + b;
      InternalAppend(a[1..], b);
      var h := if a[0].Some? then [a[0].value] else [];
      assert Internal(ab) == h + Internal(a[1..] + b);
      assert Internal(a) == h + Internal(a[1..]);
    }
  }

  /** The engine's walk, with sentinels skipped, is the map tree's in-order walk. */
  lemma {:induction false} EntrySetIsInorder<V>(t: Tree<V>)
    ensures EntrySet(t) == InorderEntries(t)
  {
    match t
    case Leaf =>
      assert BT.Inorder(Embed(t)) == [None];
    case Node(l, k, v, r) =>
      EntrySetIsInorder(l);
      EntrySetIsInorder(r);
      var il := BT.Inorder(Embed(l));
      var ir := BT.Inorder(Embed(r));
      InternalAppend(il + [Some(Entry(k, v))], ir);
      InternalAppend(il, [Some(Entry(k, v))]);
  }

  /** Joining two ascending runs around a separating key keeps them ascending. */
  lemma AscendingJoin<V>(a: seq<Entry<V>>, e: Entry<V>, b: seq<Entry<V>>)
    requires Ascending(a) && Ascending(b)
    requires forall i :: 0 <= i < |a| ==> a[i].key < e.key
    requires forall j :: 0 <= j < |b| ==> e.key < b[j].key
    ensures Ascending(a + [e] + b)
  {
    var s := a + [e] + b;
    forall i, j | 0 <= i < j < |s|
      ensures s[i].key < s[j].key
    {
      if j < |a| {
      } else if j == |a| {
      } else if i > |a| {
        assert s[i] == b[i - |a| - 1] && s[j] == b[j - |a| - 1];
      } else if i == |a| {
        assert s[j] == b[j - |a| - 1];
      } else {
        assert s[j] == b[j - |a| - 1];
      }
    }
  }

  /** The in-order entries of a search tree are exactly its map's entries, in
      strictly ascending key order, one per internal node. */
  lemma {:induction false} InorderSpec<V>(t: Tree<V>)
    ensures |InorderEntries(t)| == Size(t)
    ensures IsBst(t) ==> Ascending(InorderEntries(t))
    ensures IsBst(t) ==> forall e :: e in InorderEntries(t) <==> Holds(Contents(t), Some(e))
  {
    match t
    case Leaf =>
    case Node(l, k, v, r) =>
      InorderSpec(l);
      InorderSpec(r);
      if IsBst(t) {
        NodeKeys(t);
        var s := InorderEntries(t);
        forall i | 0 <= i < |InorderEntries(l)|
          ensures InorderEntries(l)[i].key < k
        {
          assert InorderEntries(l)[i] in InorderEntries(l);
          assert Holds(Contents(l), Some(InorderEntries(l)[i]));
        }
        forall j | 0 <= j < |InorderEntries(r)|
          ensures k < InorderEntries(r)[j].key
        {
          assert InorderEntries(r)[j] in InorderEntries(r);
          assert Holds(Contents(r), Some(InorderEntries(r)[j]));
        }
        AscendingJoin(InorderEntries(l), Entry(k, v), InorderEntries(r));
        forall e
          ensures e in s <==> Holds(Contents(t), Some(e))
        {
          assert e in s <==> e in InorderEntries(l) || e == Entry(k, v) || e in InorderEntries(r);
          if e.key < k {
            ContentsOfBstNode(t, e.key);
          } else if e.key > k {
            ContentsOfBstNode(t, e.key);
          }
        }
      }
  }

  /** entrySet(): one entry per key of the map, with its value, in strictly
      ascending key order. */
  lemma EntrySetSpec<V>(t: Tree<V>)
    ensures |EntrySet(t)| == Size(t)
    ensures IsBst(t) ==> Ascending(EntrySet(t))
    ensures IsBst(t) ==> forall e :: e in EntrySet(t) <==> e.key in Contents(t) && Contents(t)[e.key] == e.value
  {
    EntrySetIsInorder(t);
    InorderSpec(t);
  }

  /** The recursive helper subMap(fromKey, toKey, p, submap): skips the left
      part below `a`, and stops at the first key not below `b`. */
  function SubMapFrom<V>(t: Tree<V>, a: int, b: int): seq<Entry<V>>
  {
    match t
    case Leaf => []
    case Node(l, x, v, r) =>
      if x < a then SubMapFrom(r, a, b)
      else SubMapFrom(l, a, b) + (if x < b then [Entry(x, v)] + SubMapFrom(r, a, b) else [])
  }

  /** subMap(fromKey, toKey): empty unless fromKey < toKey. */
  function SubMap<V>(t: Tree<V>, a: int, b: int): seq<Entry<V>>
  {
    if a < b then SubMapFrom(t, a, b) else []
  }

  /** The entries of a sequence whose key lies in [a, b), in order. */
  function InRange<V>(s: seq<Entry<V>>, a: int, b: int): seq<Entry<V>>
  {
    if |s| == 0 then []
    else (if a <= s[0].key < b then [s[0]] else []) + InRange(s[1..], a, b)
  }

  lemma {:induction false} InRangeAppend<V>(s: seq<Entry<V>>, u: seq<Entry<V>>, a: int, b: int)
    ensures InRange(s + u, a, b) == InRange(s, a, b) + InRange(u, a, b)
    decreases |s|
  {
    if |s| == 0 {
      assert s + u == u;
    } else {
      assert (s + u)[1..] == s[1..] + u;
      InRangeAppend(s[1..], u, a, b);
    }
  }

  lemma {:induction false} InRangeNone<V>(s: seq<Entry<V>>, a: int, b: int)
    requires forall i :: 0 <= i < |s| ==> !(a <= s[i].key < b)
    ensures InRange(s, a, b) == []
    decreases |s|
  {
    if |s| > 0 {
      InRangeNone(s[1..], a, b);
    }
  }

  /** Filtering keeps exactly the in-range entries. */
  lemma {:induction false} InRangeMembers<V>(s: seq<Entry<V>>, a: int, b: int, e: Entry<V>)
    ensures e in InRange(s, a, b) <==> e in s && a <= e.key < b
    decreases |s|
  {
    if |s| > 0 {
      InRangeMembers(s[1..], a, b, e);
      assert s == [s[0]] + s[1..];
    }
  }

  /** Filtering keeps the order. */
  lemma {:induction false} InRangeAscending<V>(s: seq<Entry<V>>, a: int, b: int)
    requires Ascending(s)
    ensures Ascending(InRange(s, a, b))
    decreases |s|
  {
    if |s| > 0 {
      var tail := s[1..];
      assert Ascending(tail) by {
        forall i, j | 0 <= i < j < |tail|
          ensures tail[i].key < tail[j].key
        {
          assert tail[i] == s[i + 1] && tail[j] == s[j + 1];
        }
      }
      InRangeAscending(tail, a, b);
      var rest := InRange(tail, a, b);
      if a <= s[0].key < b {
        forall j | 0 <= j < |rest|
          ensures s[0].key < rest[j].key
        {
          InRangeMembers(tail, a, b, rest[j]);
          var m :| 0 <= m < |tail| && tail[m] == rest[j];
          assert s[1 + m] == rest[j];
        }
        AscendingJoin([], s[0], rest);
        assert [] + [s[0]] + rest == InRange(s, a, b);
      }
    }
  }

  /** A search tree none of whose keys lies in [a, b) contributes nothing
      in range to the in-order walk. */
  lemma OutOfRangeSubtree<V>(t: Tree<V>, a: int, b: int)
    requires IsBst(t)
    requires forall k :: k in Contents(t) ==> !(a <= k < b)
    ensures InRange(InorderEntries(t), a, b) == []
  {
    InorderSpec(t);
    var s := InorderEntries(t);
    forall i | 0 <= i < |s|
      ensures !(a <= s[i].key < b)
    {
      assert s[i] in s;
      assert Holds(Contents(t), Some(s[i]));
    }
    InRangeNone(s, a, b);
  }

  /** The pruned recursion produces the in-range part of the in-order walk: the
      parts it skips hold no key in range. */
  lemma {:induction false} SubMapFromIsRange<V>(t: Tree<V>, a: int, b: int)
    ensures IsBst(t) ==> SubMapFrom(t, a, b) == InRange(InorderEntries(t), a, b)
  {
    match t
    case Leaf =>
    case Node(l, x, v, r) =>
      if IsBst(t) {
        SubMapFromIsRange(l, a, b);
        SubMapFromIsRange(r, a, b);
        InorderSpec(l);
        InorderSpec(r);
        var il := InorderEntries(l);
        var ir := InorderEntries(r);
        InRangeAppend(il + [Entry(x, v)], ir, a, b);
        InRangeAppend(il, [Entry(x, v)], a, b);
        assert InRange([Entry(x, v)], a, b) == if a <= x < b then [Entry(x, v)] else [];
        if x < a {
          OutOfRangeSubtree(l, a, b);
        } else if b <= x {
          OutOfRangeSubtree(r, a, b);
        }
      }
  }

  /** subMap(fromKey, toKey): the map's entries with fromKey <= key < toKey, in
      strictly ascending key order; empty when fromKey >= toKey. */
  lemma SubMapSpec<V>(t: Tree<V>, a: int, b: int)
    ensures IsBst(t) ==> SubMap(t, a, b) == InRange(EntrySet(t), a, b)
    ensures IsBst(t) ==> Ascending(SubMap(t, a, b))
    ensures IsBst(t) ==> forall e :: e in SubMap(t, a, b) <==>
      a <= e.key < b && e.key in Contents(t) && Contents(t)[e.key] == e.value
  {
    EntrySetIsInorder(t);
    EntrySetSpec(t);
    SubMapFromIsRange(t, a, b);
    if IsBst(t) {
      InRangeAscending(EntrySet(t), a, b);
    }
    forall e {
      InRangeMembers(EntrySet(t), a, b, e);
    }
    if b <= a {
      InRangeNone(EntrySet(t), a, b);
    }
  }
}
