/** The node store behind the linked lists.

    A list's nodes live in parallel field arrays indexed by node reference
    (`data[r]`, `next[r]`, `prev[r]`); allocating a node appends one slot to
    each array, and a reference outside the arrays, such as `Null`, is the
    Java `null`. Following a null reference fails with NullPointer. */
module Links {
  import opened Wrappers

  /** The null reference. */
  const Null: int := -1

  /** r refers to an allocated node of a store whose link array is `next`. */
  predicate IsRef(next: seq<int>, r: int)
  {
    0 <= r < |next|
  }

  /** The node reached from r by following `next` i times
      (`while (i-- != 0) curr = curr.next`). */
  function Follow(next: seq<int>, r: int, i: nat): (x: Result<int>)
    ensures i == 0 ==> x == Success(r)
    ensures i > 0 && !IsRef(next, r) ==> x == Failure(NullPointer)
    decreases i
  {
    if i == 0 then Success(r)
    else if IsRef(next, r) then Follow(next, next[r], i - 1)
    else Failure(NullPointer)
  }

  /** The first k nodes met walking `next` from r, failing if the walk meets
      null before it has k nodes. */
  function Chain(next: seq<int>, r: int, k: nat): (c: Result<seq<int>>)
    ensures c.Success? ==> |c.value| == k && forall i :: 0 <= i < k ==> IsRef(next, c.value[i])
    decreases k
  {
    if k == 0 then Success([])
    else if IsRef(next, r) then
      match Chain(next, next[r], k - 1)
      case Success(rest) => Success([r] + rest)
      case Failure(e) => Failure(e)
    else Failure(NullPointer)
  }

  /** s is a walk along `next` starting at r: allocated nodes, each linked
      to the one after it. */
  ghost predicate IsChain(next: seq<int>, r: int, s: seq<int>)
  {
    && (|s| > 0 ==> s[0] == r)
    && (forall i :: 0 <= i < |s| ==> IsRef(next, s[i]))
    && (forall i :: 0 <= i < |s| - 1 ==> next[s[i]] == s[i + 1])
  }

  /** No node occurs twice. */
  ghost predicate Distinct(s: seq<int>)
  {
    forall i, j :: 0 <= i < j < |s| ==> s[i] != s[j]
  }

  /** The walk that Chain computes is exactly the one IsChain describes. */
  lemma {:induction false} ChainIff(next: seq<int>, r: int, k: nat, s: seq<int>)
    ensures Chain(next, r, k) == Success(s) <==> |s| == k && IsChain(next, r, s)
    decreases k
  {
    if k == 0 {
    } else if IsRef(next, r) {
      if |s| == k && IsChain(next, r, s) {
        assert IsChain(next, next[r], s[1..]);
        ChainIff(next, next[r], k - 1, s[1..]);
        assert [r] + s[1..] == s;
      }
      if Chain(next, next[r], k - 1).Success? {
        var rest := Chain(next, next[r], k - 1).value;
        ChainIff(next, next[r], k - 1, rest);
      }
    }
  }

  /** Along a walk, following i links from its start reaches its i-th node,
      and following all of them reaches the last node's successor. */
  lemma {:induction false} FollowChain(next: seq<int>, r: int, s: seq<int>, i: nat)
    requires IsChain(next, r, s) && i <= |s|
    ensures i < |s| ==> Follow(next, r, i) == Success(s[i])
    ensures i == |s| > 0 ==> Follow(next, r, i) == Success(next[s[i - 1]])
    decreases i
  {
    if i > 0 {
      if |s| > 1 {
        assert IsChain(next, next[r], s[1..]);
        FollowChain(next, next[r], s[1..], i - 1);
      }
    }
  }

  /** Chain finds the walk whenever one exists. */
  lemma ChainOf(next: seq<int>, r: int, s: seq<int>)
    requires IsChain(next, r, s)
    ensures Chain(next, r, |s|) == Success(s)
  {
    ChainIff(next, r, |s|, s);
  }

  /** A walk Chain returned satisfies IsChain. */
  lemma ChainIs(next: seq<int>, r: int, k: nat)
    requires Chain(next, r, k).Success?
    ensures |Chain(next, r, k).value| == k && IsChain(next, r, Chain(next, r, k).value)
  {
    ChainIff(next, r, k, Chain(next, r, k).value);
  }

  /** Re-linking a node that the walk does not leave from, or allocating new
      nodes, keeps the walk. */
  lemma KeepChain(next: seq<int>, next': seq<int>, r: int, s: seq<int>)
    requires IsChain(next, r, s)
    requires |next| <= |next'|
    requires forall i :: 0 <= i < |s| - 1 ==> next'[s[i]] == next[s[i]]
    ensures IsChain(next', r, s)
  {
  }

  /** A walk followed by a walk from its last node's successor is a walk. */
  lemma JoinChain(next: seq<int>, r: int, a: seq<int>, b: seq<int>)
    requires IsChain(next, r, a) && |a| > 0
    requires IsChain(next, next[a[|a| - 1]], b)
    ensures IsChain(next, r, a + b)
  {
    var c := a + b;
    forall i | 0 <= i < |c| - 1
      ensures next[c[i]] == c[i + 1]
    {
      if i < |a| - 1 {
      } else if i == |a| - 1 {
        assert c[i] == a[|a| - 1];
      } else {
        assert c[i] == b[i - |a|] && c[i + 1] == b[i + 1 - |a|];
      }
    }
  }

  /** The tail of a walk from position j is a walk from its j-th node. */
  lemma DropChain(next: seq<int>, r: int, s: seq<int>, j: nat)
    requires IsChain(next, r, s) && j < |s|
    ensures IsChain(next, s[j], s[j..])
  {
    forall i | 0 <= i < |s[j..]| - 1
      ensures next[s[j..][i]] == s[j..][i + 1]
    {
      assert s[j..][i] == s[j + i] && s[j..][i + 1] == s[j + i + 1];
    }
  }

  /** The data of the nodes s, in order. */
  function Gather<D>(data: seq<D>, s: seq<int>): (r: seq<D>)
    requires forall i :: 0 <= i < |s| ==> 0 <= s[i] < |data|
    ensures |r| == |s|
    ensures forall i :: 0 <= i < |s| ==> r[i] == data[s[i]]
  {
    seq(|s|, i requires 0 <= i < |s| && (forall j :: 0 <= j < |s| ==> 0 <= s[j] < |data|) => data[s[i]])
  }

  /** A prefix of a walk is a walk. */
  lemma TakeChain(next: seq<int>, r: int, s: seq<int>, j: nat)
    requires IsChain(next, r, s) && j <= |s|
    ensures IsChain(next, r, s[..j])
  {
    forall i | 0 <= i < j - 1
      ensures next[s[..j][i]] == s[..j][i + 1]
    {
      assert s[..j][i] == s[i] && s[..j][i + 1] == s[i + 1];
    }
  }

  /** Gathering commutes with dropping the i-th node. */
  lemma GatherRemove<D>(data: seq<D>, s: seq<int>, i: nat)
    requires forall j :: 0 <= j < |s| ==> 0 <= s[j] < |data|
    requires i < |s|
    ensures Gather(data, s[..i] + s[i + 1..]) == Gather(data, s)[..i] + Gather(data, s)[i + 1..]
  {
    var t := s[..i] + s[i + 1..];
    assert forall j :: 0 <= j < i ==> t[j] == s[j];
    assert forall j :: i <= j < |t| ==> t[j] == s[j + 1];
  }

  /** Gathering commutes with inserting a node at position i. */
  lemma GatherInsert<D>(data: seq<D>, s: seq<int>, i: nat, n: int)
    requires forall j :: 0 <= j < |s| ==> 0 <= s[j] < |data|
    requires i <= |s| && 0 <= n < |data|
    ensures Gather(data, s[..i] + [n] + s[i..]) == Gather(data, s)[..i] + [data[n]] + Gather(data, s)[i..]
  {
    var t := s[..i] + [n] + s[i..];
    assert forall j :: 0 <= j < i ==> t[j] == s[j];
    assert forall j :: i < j < |t| ==> t[j] == s[j - 1];
  }

  /** Gathering the same nodes from a store that only grew or changed
      elsewhere gives the same data. */
  lemma GatherKeep<D>(data: seq<D>, data': seq<D>, s: seq<int>)
    requires forall j :: 0 <= j < |s| ==> 0 <= s[j] < |data| <= |data'|
    requires forall j :: 0 <= j < |s| ==> data'[s[j]] == data[s[j]]
    ensures Gather(data', s) == Gather(data, s)
  {
  }

  /** Linking a fresh node n after the (i-1)-th node of a walk inserts it
      at position i. */
  lemma InsertChain(next: seq<int>, next': seq<int>, r: int, s: seq<int>, i: nat, n: int)
    requires IsChain(next, r, s) && Distinct(s) && 0 < i < |s|
    requires n == |next| && next' == (next + [next[s[i - 1]]])[s[i - 1] := n]
    ensures IsChain(next', r, s[..i] + [n] + s[i..]) && Distinct(s[..i] + [n] + s[i..])
  {
    TakeChain(next, r, s, i);
    KeepChain(next, next', r, s[..i]);
    DropChain(next, r, s, i);
    KeepChain(next, next', s[i], s[i..]);
    JoinChain(next', n, [n], s[i..]);
    JoinChain(next', r, s[..i], [n] + s[i..]);
    assert s[..i] + ([n] + s[i..]) == s[..i] + [n] + s[i..];
  }

  /** Linking the (i-1)-th node of a walk to the (i+1)-th drops the i-th. */
  lemma UnlinkChain(next: seq<int>, next': seq<int>, r: int, s: seq<int>, i: nat)
    requires IsChain(next, r, s) && Distinct(s) && 0 < i < |s| - 1
    requires next' == next[s[i - 1] := next[s[i]]]
    ensures IsChain(next', r, s[..i] + s[i + 1..]) && Distinct(s[..i] + s[i + 1..])
    ensures |s| > 0 ==> next'[s[|s| - 1]] == next[s[|s| - 1]]
  {
    TakeChain(next, r, s, i);
    KeepChain(next, next', r, s[..i]);
    DropChain(next, r, s, i + 1);
    KeepChain(next, next', s[i + 1], s[i + 1..]);
    JoinChain(next', r, s[..i], s[i + 1..]);
    var t := s[..i] + s[i + 1..];
    forall a, b | 0 <= a < b < |t|
      ensures t[a] != t[b]
    {
      var a' := if a < i then a else a + 1;
      var b' := if b < i then b else b + 1;
      assert t[a] == s[a'] && t[b] == s[b'];
    }
  }
}
