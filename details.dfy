/** The read-only cursor walks over the linked nodes: minimum, maximum,
    successor, predecessor, the three key searches, the descent that finds an
    insertion slot, and the two order-statistic walks.  Each walks the records
    by their links; the contracts state the answer in terms of the in-order
    sequence of the tree the records hold. */
module Details {
  import opened Trees
  import opened Arena

  /** details::minimum: follow `left` links to a node without a left child,
      the first node of the subtree in in-order. */
  method Minimum(ns: seq<NodeRec>, node: int, ghost t: Tree, ghost pid: int) returns (r: int)
    requires Matches(t, pid, ns) && t.Node? && node == t.id
    ensures r == IdSeq(t)[0] && 0 < r < |ns|
    ensures ns[r].left == NIL && ns[r].key == Keys(t)[0]
  {
    r := node;
    ghost var s, sp := t, pid;
    while ns[r].left != NIL
      invariant Matches(s, sp, ns) && s.Node? && r == s.id
      invariant IdSeq(s)[0] == IdSeq(t)[0] && Keys(s)[0] == Keys(t)[0]
      decreases Size(s)
    {
      sp, s := s.id, s.left;
      r := ns[r].left;
    }
  }

  /** details::maximum: follow `right` links; the last node in in-order. */
  method Maximum(ns: seq<NodeRec>, node: int, ghost t: Tree, ghost pid: int) returns (r: int)
    requires Matches(t, pid, ns) && t.Node? && node == t.id
    ensures r == IdSeq(t)[Size(t) - 1] && 0 < r < |ns|
    ensures ns[r].right == NIL && ns[r].key == Keys(t)[Size(t) - 1]
  {
    r := node;
    ghost var s, sp := t, pid;
    while ns[r].right != NIL
      invariant Matches(s, sp, ns) && s.Node? && r == s.id
      invariant IdSeq(s)[Size(s) - 1] == IdSeq(t)[Size(t) - 1]
      invariant Keys(s)[Size(s) - 1] == Keys(t)[Size(t) - 1]
      decreases Size(s)
    {
      sp, s := s.id, s.right;
      r := ns[r].right;
    }
  }

  /** details::successor: the next node in in-order, the sentinel after the
      maximum. */
  method Successor(ns: seq<NodeRec>, node: int, ghost t: Tree, ghost i: nat) returns (r: int)
    requires Holds(t, ns) && Distinct(t) && i < Size(t) && node == IdSeq(t)[i]
    ensures r == (if i + 1 < Size(t) then IdSeq(t)[i + 1] else END)
  {
    ghost var ctx, s := FocusAt(t, i, ns);
    PlugIds(ctx, s);
    if ns[node].right != NIL {
      r := Minimum(ns, ns[node].right, s.right, s.id);
      return;
    }
    var cur := node;
    SizeOfMatches(s.right, s.id, ns);
    IsLeftChildZ(ctx, s, ns, 0, 0);
    while !IsLeftChild(ns, cur)
      invariant Z(ctx, s, ns) && Plug(ctx, s) == t && s.Node? && cur == s.id
      invariant |CtxIdsL(ctx)| + Size(s) == i + 1
      invariant 0 < cur < |ns| && 0 <= ns[cur].parent < |ns|
      invariant IsLeftChild(ns, cur) <==> ctx == [] || ctx[0].dir == Left
      decreases |ctx|
    {
      ZUpExact(ctx, s, ns);
      cur := ns[cur].parent;
      ctx, s := ctx[1..], Plug1(ctx[0], s);
      IsLeftChildZ(ctx, s, ns, 0, 0);
    }
    r := ns[cur].parent;
    PlugIds(ctx, s);
  }

  /** details::predecessor: the previous node in in-order; from the sentinel
      it is the maximum.  It is undefined at the minimum, where the climb
      would pass the sentinel. */
  method Predecessor(ns: seq<NodeRec>, node: int, ghost t: Tree, ghost i: nat) returns (r: int)
    requires Holds(t, ns) && Distinct(t)
    requires t.Node? && 0 < i <= Size(t) && node == (if i == Size(t) then END else IdSeq(t)[i])
    ensures r == IdSeq(t)[i - 1]
  {
    MatchesIds(t, END, ns);
    if i < Size(t) { assert IdSeq(t)[i] in IdSeq(t); }
    if node == END {
      r := Maximum(ns, ns[node].left, t, END);
      return;
    }
    ghost var ctx, s := FocusAt(t, i, ns);
    PlugIds(ctx, s);
    if ns[node].left != NIL {
      r := Maximum(ns, ns[node].left, s.left, s.id);
      return;
    }
    var cur := node;
    SizeOfMatches(s.left, s.id, ns);
    IsLeftChildZ(ctx, s, ns, 0, 0);
    while IsLeftChild(ns, cur)
      invariant Z(ctx, s, ns) && Plug(ctx, s) == t && s.Node? && cur == s.id
      invariant |CtxIdsL(ctx)| == i
      invariant 0 < cur < |ns| && 0 <= ns[cur].parent < |ns|
      invariant IsLeftChild(ns, cur) <==> ctx == [] || ctx[0].dir == Left
      decreases |ctx|
    {
      ZUpExact(ctx, s, ns);
      cur := ns[cur].parent;
      ctx, s := ctx[1..], Plug1(ctx[0], s);
      IsLeftChildZ(ctx, s, ns, 0, 0);
    }
    r := ns[cur].parent;
    PlugIds(ctx, s);
  }

  /** The loop state of find: the window of the rank `c` of `key`, which
      ends at `hi`, and the key just after the window (if any) is above `key`. */
  ghost predicate FindInv(t: Tree, ctx: seq<Frame>, s: Tree, lo: int, hi: int, key: int, c: int)
  {
    Window(t, ctx, s, lo, c) && hi == lo + Size(s) && (hi < Size(t) ==> key < Keys(t)[hi])
  }

  lemma {:induction false} FindStep(t: Tree, ctx: seq<Frame>, s: Tree, lo: int, hi: int, key: int, c: int)
    requires s.Node? && RankBelow(Keys(t), key, c) && FindInv(t, ctx, s, lo, hi, key, c) && key != s.key
    ensures key < s.key ==> FindInv(t, [DownL(s)] + ctx, s.left, lo, lo + Size(s.left), key, c)
    ensures s.key < key ==> FindInv(t, [DownR(s)] + ctx, s.right, lo + Size(s.left) + 1, hi, key, c)
  {
    DescendLess(t, ctx, s, lo, key, c);
  }

  lemma {:induction false} FindHit(t: Tree, ctx: seq<Frame>, s: Tree, lo: int, hi: int, key: int, c: int)
    requires Ordered(t) && RankBelow(Keys(t), key, c)
    requires s.Node? && FindInv(t, ctx, s, lo, hi, key, c) && key == s.key
    ensures key in Keys(t) && s.id == IdSeq(t)[c]
  {
    DescendLess(t, ctx, s, lo, key, c);
    RankHit(Keys(t), key, c, lo + Size(s.left));
  }

  lemma {:induction false} FindMiss(t: Tree, ctx: seq<Frame>, lo: int, hi: int, key: int, c: int)
    requires Ordered(t) && RankBelow(Keys(t), key, c) && FindInv(t, ctx, Nil, lo, hi, key, c)
    ensures key !in Keys(t)
  {
    RankAbsent(Keys(t), key, c);
  }

  /** find: the node holding `key`, or null when no node does. */
  method Find(ns: seq<NodeRec>, root: int, key: int, ghost t: Tree, ghost pid: int) returns (r: int)
    requires Matches(t, pid, ns) && Ordered(t) && root == RootId(t)
    ensures key in Keys(t) ==> r == IdSeq(t)[CountLess(Keys(t), key)]
    ensures key !in Keys(t) ==> r == NIL
  {
    r := root;
    ghost var c := CountLess(Keys(t), key);
    CountLessSorted(Keys(t), key);
    ghost var ctx: seq<Frame>, s, sp, lo, hi := [], t, pid, 0, Size(t);
    while r != NIL && key != ns[r].key
      invariant Matches(s, sp, ns) && r == RootId(s) && FindInv(t, ctx, s, lo, hi, key, c)
      decreases Size(s)
    {
      assert ns[r].key == s.key;
      FindStep(t, ctx, s, lo, hi, key, c);
      if key < ns[r].key {
        ctx, s, sp, hi := [DownL(s)] + ctx, s.left, s.id, lo + Size(s.left);
        r := ns[r].left;
      } else {
        ctx, s, sp, lo := [DownR(s)] + ctx, s.right, s.id, lo + Size(s.left) + 1;
        r := ns[r].right;
      }
    }
    if r != NIL {
      FindHit(t, ctx, s, lo, hi, key, c);
    } else {
      FindMiss(t, ctx, lo, hi, key, c);
    }
  }

  /** Where a zipper's focus hangs: the node above it (null at the top,
      standing for the sentinel) and the side it hangs on. */
  function ParentOf(ctx: seq<Frame>): int
  {
    if ctx == [] then NIL else ctx[0].id
  }

  function SideOf(ctx: seq<Frame>): Side
  {
    if ctx == [] then Left else ctx[0].dir
  }

  /** find_v2: the node holding `key` together with the node above it, or, when
      no node holds it, null together with the node under which `key` belongs
      and the side it belongs on.  The ghost zipper `(ctx, s)` is the position
      reached: `s` is the subtree at `node`. */
  method FindV2(ns: seq<NodeRec>, root: int, key: int, ghost t: Tree)
    returns (node: int, parent: int, side: Side, ghost ctx: seq<Frame>, ghost s: Tree)
    requires Holds(t, ns) && Ordered(t) && root == RootId(t)
    ensures Plug(ctx, s) == t && Z(ctx, s, ns) && node == RootId(s)
    ensures parent == ParentOf(ctx) && side == SideOf(ctx)
    ensures key in Keys(t) ==> s.Node? && s.key == key && node == IdSeq(t)[CountLess(Keys(t), key)]
    ensures key !in Keys(t) ==> s == Nil && |CtxKeysL(ctx)| == CountLess(Keys(t), key)
  {
    node, parent, side := root, NIL, Left;
    ctx, s := [], t;
    ghost var c := CountLess(Keys(t), key);
    CountLessSorted(Keys(t), key);
    ghost var sp, lo, hi := END, 0, Size(t);
    while node != NIL
      invariant Matches(s, sp, ns) && node == RootId(s) && FindInv(t, ctx, s, lo, hi, key, c)
      invariant parent == ParentOf(ctx) && side == SideOf(ctx)
      decreases Size(s)
    {
      assert ns[node].key == s.key;
      var isLess := key < ns[node].key;
      if !isLess && !(ns[node].key < key) {
        break;
      }
      FindStep(t, ctx, s, lo, hi, key, c);
      parent := node;
      if isLess {
        ctx, s, sp, hi := [DownL(s)] + ctx, s.left, s.id, lo + Size(s.left);
        node := ns[node].left;
        side := Left;
      } else {
        ctx, s, sp, lo := [DownR(s)] + ctx, s.right, s.id, lo + Size(s.left) + 1;
        node := ns[node].right;
        side := Right;
      }
    }
    ZHolds(ctx, s, ns);
    if node != NIL {
      FindHit(t, ctx, s, lo, hi, key, c);
    } else {
      FindMiss(t, ctx, lo, hi, key, c);
    }
  }

  /** The loop state of lower_bound and upper_bound: the window of the sought
      rank `c`, which ends at `hi`, and `r` is the node just after the window
      (null at the end). */
  ghost predicate BoundInv(t: Tree, ctx: seq<Frame>, s: Tree, lo: int, hi: int, c: int, r: int)
  {
    Window(t, ctx, s, lo, c) && hi == lo + Size(s) && r == (if hi < Size(t) then IdSeq(t)[hi] else NIL)
  }

  lemma {:induction false} BoundEnd(t: Tree, ctx: seq<Frame>, lo: int, hi: int, c: int, r: int)
    requires BoundInv(t, ctx, Nil, lo, hi, c, r)
    ensures r == (if c < Size(t) then IdSeq(t)[c] else NIL)
  {
    assert Size(Nil) == 0;
    assert hi == c;
  }

  lemma {:induction false} LowerStep(t: Tree, ctx: seq<Frame>, s: Tree, lo: int, hi: int, key: int, c: int, r: int)
    requires s.Node? && RankBelow(Keys(t), key, c) && BoundInv(t, ctx, s, lo, hi, c, r)
    ensures key <= s.key ==> BoundInv(t, [DownL(s)] + ctx, s.left, lo, lo + Size(s.left), c, s.id)
    ensures s.key < key ==> BoundInv(t, [DownR(s)] + ctx, s.right, lo + Size(s.left) + 1, hi, c, r)
  {
    DescendLess(t, ctx, s, lo, key, c);
  }

  lemma {:induction false} UpperStep(t: Tree, ctx: seq<Frame>, s: Tree, lo: int, hi: int, key: int, c: int, r: int)
    requires s.Node? && RankAtMost(Keys(t), key, c) && BoundInv(t, ctx, s, lo, hi, c, r)
    ensures key < s.key ==> BoundInv(t, [DownL(s)] + ctx, s.left, lo, lo + Size(s.left), c, s.id)
    ensures s.key <= key ==> BoundInv(t, [DownR(s)] + ctx, s.right, lo + Size(s.left) + 1, hi, c, r)
  {
    DescendAtMost(t, ctx, s, lo, key, c);
  }

  /** lower_bound: the first node in in-order whose key is not below `key`,
      or null. */
  method LowerBound(ns: seq<NodeRec>, root: int, key: int, ghost t: Tree, ghost pid: int) returns (r: int)
    requires Matches(t, pid, ns) && Ordered(t) && root == RootId(t)
    ensures r == (if CountLess(Keys(t), key) < Size(t) then IdSeq(t)[CountLess(Keys(t), key)] else NIL)
  {
    r := NIL;
    var node := root;
    ghost var c := CountLess(Keys(t), key);
    CountLessSorted(Keys(t), key);
    ghost var ctx: seq<Frame>, s, sp, lo, hi := [], t, pid, 0, Size(t);
    while node != NIL
      invariant Matches(s, sp, ns) && node == RootId(s) && BoundInv(t, ctx, s, lo, hi, c, r)
      decreases Size(s)
    {
      assert ns[node].key == s.key;
      LowerStep(t, ctx, s, lo, hi, key, c, r);
      if !(ns[node].key < key) {
        r := node;
        ctx, s, sp, hi := [DownL(s)] + ctx, s.left, s.id, lo + Size(s.left);
        node := ns[node].left;
      } else {
        ctx, s, sp, lo := [DownR(s)] + ctx, s.right, s.id, lo + Size(s.left) + 1;
        node := ns[node].right;
      }
    }
    BoundEnd(t, ctx, lo, hi, c, r);
  }

  /** upper_bound: the first node in in-order whose key is above `key`, or null. */
  method UpperBound(ns: seq<NodeRec>, root: int, key: int, ghost t: Tree, ghost pid: int) returns (r: int)
    requires Matches(t, pid, ns) && Ordered(t) && root == RootId(t)
    ensures r == (if CountAtMost(Keys(t), key) < Size(t) then IdSeq(t)[CountAtMost(Keys(t), key)] else NIL)
  {
    r := NIL;
    var node := root;
    ghost var c := CountAtMost(Keys(t), key);
    CountAtMostSorted(Keys(t), key);
    ghost var ctx: seq<Frame>, s, sp, lo, hi := [], t, pid, 0, Size(t);
    while node != NIL
      invariant Matches(s, sp, ns) && node == RootId(s) && BoundInv(t, ctx, s, lo, hi, c, r)
      decreases Size(s)
    {
      assert ns[node].key == s.key;
      UpperStep(t, ctx, s, lo, hi, key, c, r);
      if key < ns[node].key {
        r := node;
        ctx, s, sp, hi := [DownL(s)] + ctx, s.left, s.id, lo + Size(s.left);
        node := ns[node].left;
      } else {
        ctx, s, sp, lo := [DownR(s)] + ctx, s.right, s.id, lo + Size(s.left) + 1;
        node := ns[node].right;
      }
    }
    BoundEnd(t, ctx, lo, hi, c, r);
  }

  /** kth_smallest's descent: with `k` counted from 1, the node holding the
      `k`-th key in ascending order, or null when the subtree has fewer than
      `k` nodes.  The size of a missing left child is 0. */
  method KthSmallest(ns: seq<NodeRec>, root: int, k: int, ghost t: Tree, ghost pid: int) returns (r: int)
    requires Matches(t, pid, ns) && root == RootId(t) && 1 <= k
    ensures r == (if k <= Size(t) then IdSeq(t)[k - 1] else NIL)
  {
    r := root;
    var j := k;
    ghost var ctx: seq<Frame>, s, sp, lo := [], t, pid, 0;
    while r != NIL
      invariant Matches(s, sp, ns) && r == RootId(s) && Plug(ctx, s) == t
      invariant lo == |CtxKeysL(ctx)| && lo + j == k && 1 <= j
      invariant k <= Size(t) ==> j <= Size(s)
      invariant Size(t) < k ==> lo + Size(s) == Size(t)
      decreases Size(s)
    {
      PlugAt(ctx, s, t, lo);
      PlugDown(ctx, s, t, lo);
      SizeOfMatches(s.left, s.id, ns);
      var l := SizeOf(ns, ns[r].left);
      assert l == Size(s.left) && Size(s) == l + 1 + Size(s.right);
      if j == l + 1 {
        return;
      } else if j <= l {
        ctx, s, sp := [DownL(s)] + ctx, s.left, s.id;
        r := ns[r].left;
      } else {
        ctx, s, sp, lo := [DownR(s)] + ctx, s.right, s.id, lo + l + 1;
        j := j - (l + 1);
        r := ns[r].right;
      }
    }
  }

  /** n_less_than's climb: the in-order position of `node`, found by starting
      from the size of its left subtree and adding, for every ancestor reached
      from its right side, that ancestor and its left subtree.  The climb ends
      at the sentinel. */
  method NLessThan(ns: seq<NodeRec>, node: int, ghost t: Tree, ghost i: nat) returns (rank: nat)
    requires Holds(t, ns) && Distinct(t) && i < Size(t) && node == IdSeq(t)[i]
    ensures rank == i
  {
    ghost var ctx, s := FocusAt(t, i, ns);
    SizeOfMatches(s.left, s.id, ns);
    rank := SizeOf(ns, ns[node].left);
    var cur := node;
    while cur != END
      invariant Z(ctx, s, ns) && Plug(ctx, s) == t && s.Node?
      invariant cur == END ==> ctx == []
      invariant cur != END ==> cur == s.id
      invariant rank + |CtxIdsL(ctx)| == i
      decreases |ctx| + (if cur == END then 0 else 1)
    {
      IsLeftChildZ(ctx, s, ns, 0, 0);
      var p := ns[cur].parent;
      if !IsLeftChild(ns, cur) {
        SizeOfMatches(ctx[0].sib, p, ns);
        rank := rank + 1 + SizeOf(ns, ns[p].left);
      }
      if ctx != [] {
        ZUpExact(ctx, s, ns);
        ctx, s := ctx[1..], Plug1(ctx[0], s);
      }
      cur := p;
    }
  }
}
