/** The augmented red-black ordered set (class ARB_Tree): the arena of node
    records with the sentinel at index 0, the cached leftmost node, and the
    tree value the records hold.  Every public operation keeps the validity
    invariant: the records hold a red-black search tree whose sizes are the
    subtree sizes, and the leftmost cache is its first node (the sentinel when
    empty). */
module ArbTrees {
  import opened Trees
  import opened Arena
  import opened RedBlack
  import opened Details
  import opened Insert
  import opened Link
  import opened CleanUp
  import TreeIterators
  import opened ErasePlan
  import EraseOp = Erase

  /** The node begin() stands on: the first node in order, or the sentinel. */
  function First(t: Tree): int
  {
    if t.Nil? then END else IdSeq(t)[0]
  }

  lemma {:induction false} SplitAt(a: seq<int>, b: seq<int>)
    ensures (a + b)[..|a|] == a && (a + b)[|a|..] == b
  {
  }

  /** After a leaf `n` has been hung at rank `|CtxKeysL(ctx)|` and the fixup
      has run, the old leftmost node has `n` as its left child exactly when
      the new node is the minimum; the first node is then `n`, and otherwise
      it is the old first node.  The three lemmas below are the cases: the
      tree was empty, the new key is the smallest, or it is not. */
  lemma {:induction false} LeftmostIntoEmpty(ctx: seq<Frame>, t0: Tree, t': Tree, ns': seq<NodeRec>, n: int)
    requires t0 == Plug(ctx, Nil) && t0 == Nil && Holds(t', ns')
    requires IdSeq(t') == CtxIdsL(ctx) + [n] + CtxIdsR(ctx)
    requires AllLeft(ctx) ==> LeftmostLeaf(t', n)
    ensures 0 < |ns'| && ns'[END].left == n && CtxKeysL(ctx) == [] && First(t') == n
  {
    PlugRoot(ctx, Nil);
    assert ctx == [];
    LeftmostFirst(t', n);
    assert IdSeq(t') == [n];
    assert t'.left == Nil;
  }

  lemma {:induction false} NilPrefix(a: seq<int>, b: seq<int>, n: int)
    requires a == []
    ensures a + [n] + b == [n] + (a + b)
  {
  }

  lemma {:induction false} LeftmostNewMin(t0: Tree, t': Tree, ns': seq<NodeRec>, n: int, lm: int)
    requires t0.Node? && Holds(t', ns') && lm == First(t0)
    requires IdSeq(t') == [n] + IdSeq(t0) && LeftmostLeaf(t', n)
    ensures 0 < lm < |ns'| && ns'[lm].left == n && First(t') == n
  {
    LeftmostFirst(t', n);
    LeftmostLink(t', END, ns', n);
    assert IdSeq(t')[1] == lm;
  }

  lemma {:induction false} LeftmostKept(ctx: seq<Frame>, t0: Tree, t': Tree, ns': seq<NodeRec>, n: int, lm: int)
    requires t0 == Plug(ctx, Nil) && Holds(t', ns') && lm == First(t0)
    requires IdSeq(t0) == CtxIdsL(ctx) + CtxIdsR(ctx) && IdSeq(t') == CtxIdsL(ctx) + [n] + CtxIdsR(ctx)
    requires CtxIdsL(ctx) != [] && 0 <= n
    ensures 0 < lm < |ns'| && ns'[lm].left != n && First(t') == lm
  {
    assert IdSeq(t')[0] == CtxIdsL(ctx)[0] == lm;
    FirstNoLeft(t', END, ns');
  }

  lemma {:induction false} LeftmostAfterInsert(ctx: seq<Frame>, t0: Tree, t': Tree, ns': seq<NodeRec>, n: int, lm: int)
    requires t0 == Plug(ctx, Nil) && Holds(t', ns') && lm == First(t0)
    requires IdSeq(t0) == CtxIdsL(ctx) + CtxIdsR(ctx) && IdSeq(t') == CtxIdsL(ctx) + [n] + CtxIdsR(ctx)
    requires AllLeft(ctx) ==> LeftmostLeaf(t', n)
    requires 0 <= n
    ensures 0 <= lm < |ns'|
    ensures ns'[lm].left == n <==> CtxKeysL(ctx) == []
    ensures First(t') == (if CtxKeysL(ctx) == [] then n else lm)
  {
    CtxLens(ctx);
    AllLeftRank(ctx);
    if t0 == Nil {
      LeftmostIntoEmpty(ctx, t0, t', ns', n);
    } else if CtxKeysL(ctx) == [] {
      NilPrefix(CtxIdsL(ctx), CtxIdsR(ctx), n);
      LeftmostNewMin(t0, t', ns', n, lm);
    } else {
      LeftmostKept(ctx, t0, t', ns', n, lm);
    }
  }

  /** Ids of a zipper's context are proper nodes, so the parent it reports is
      null only at the top. */
  lemma {:induction false} ParentOfZ(ctx: seq<Frame>, s: Tree, ns: seq<NodeRec>)
    requires Z(ctx, s, ns)
    ensures PId(ctx) == (if ParentOf(ctx) == NIL then END else ParentOf(ctx))
  {
  }

  /** insert_hint_unique: link a red leaf for the absent `key` at the slot
      `ctx` found by find_v2, raise the ancestors' sizes, run the fixup, and
      move the leftmost cache `lm` to the new node when the new node is the
      left child of the cached node.  The result is again a valid red-black
      search tree, the new node takes the key's rank in the in-order
      sequence, and the cache moves exactly when the new key is the smallest. */
  method LinkNode(ns: seq<NodeRec>, key: int, parent: int, side: Side, lm: int, ghost ctx: seq<Frame>, ghost t0: Tree)
    returns (ns': seq<NodeRec>, n: int, lm': int, ghost t': Tree)
    requires Z(ctx, Nil, ns) && Plug(ctx, Nil) == t0
    requires Ordered(t0) && Distinct(t0) && RedBlackTree(t0) && lm == First(t0)
    requires parent == PId(ctx) && side == SideOf(ctx)
    requires key !in Keys(t0) && |CtxKeysL(ctx)| == CountLess(Keys(t0), key)
    ensures Holds(t', ns') && Ordered(t') && Distinct(t') && RedBlackTree(t') && lm' == First(t')
    ensures n == |ns| && |ns'| == |ns| + 1
    ensures var c := CountLess(Keys(t0), key);
      Keys(t') == Keys(t0)[..c] + [key] + Keys(t0)[c..] &&
      IdSeq(t') == IdSeq(t0)[..c] + [n] + IdSeq(t0)[c..]
    ensures lm' == n <==> CountLess(Keys(t0), key) == 0
  {
    CountLessSorted(Keys(t0), key);
    var ns1;
    ns1, n := LinkLeaf(ns, key, parent, side, ctx);
    ghost var leaf := Leaf(n, key);
    LeafPlugged(ctx, n, key, t0, Plug(ctx, leaf));
    PlugNil(ctx, t0);
    var ns2 := BumpSizes(ns1, parent, ctx, leaf);
    ZHolds(ctx, leaf, ns2);
    var root := ns2[END].left;
    ns', t' := RbInsertFixup(ns2, root, n, ctx, leaf);
    LeftmostAfterInsert(ctx, t0, t', ns', n, lm);
    CtxLens(ctx);
    SplitAt(CtxKeysL(ctx), CtxKeysR(ctx));
    SplitAt(CtxIdsL(ctx), CtxIdsR(ctx));
    lm' := lm;
    if n == ns'[lm].left {
      lm' := n;
    }
  }

  /** The node at an in-order position is never null. */
  lemma {:induction false} BoundNotNull(t: Tree, ns: seq<NodeRec>, c: int)
    requires Holds(t, ns)
    ensures 0 <= c < Size(t) ==> IdSeq(t)[c] != NIL && IdSeq(t)[c] != END
  {
    MatchesIds(t, END, ns);
    if 0 <= c < Size(t) {
      assert IdSeq(t)[c] in IdSeq(t);
    }
  }

  /** What subtree_sizes_verifier checks node by node: each record's size is
      one more than the sizes of its children. */
  lemma {:induction false} SizesAdd(t: Tree, pid: int, ns: seq<NodeRec>)
    requires Matches(t, pid, ns)
    ensures forall i :: i in IdSeq(t) ==> (0 < i < |ns| &&
      (ns[i].left == NIL || 0 <= ns[i].left < |ns|) && (ns[i].right == NIL || 0 <= ns[i].right < |ns|) &&
      ns[i].size == 1 + SizeOf(ns, ns[i].left) + SizeOf(ns, ns[i].right))
  {
    if t.Node? {
      SizeOfMatches(t.left, t.id, ns);
      SizeOfMatches(t.right, t.id, ns);
      SizesAdd(t.left, t.id, ns);
      SizesAdd(t.right, t.id, ns);
    }
  }

  /** begin() after an erase: the position after the erased node when the
      erased node was the first, and the old first node otherwise. */
  lemma {:induction false} FirstAfterErase(t: Tree, t': Tree, i: nat, next: int)
    requires Distinct(t) && i < Size(t) && IdSeq(t') == Without(IdSeq(t), i)
    requires next == (if i + 1 < Size(t) then IdSeq(t)[i + 1] else END)
    ensures First(t') == (if IdSeq(t)[i] == First(t) then next else First(t))
  {
    WithoutAt(IdSeq(t), i);
    if i == 0 {
      assert IdSeq(t)[i] == First(t);
    } else {
      assert IdSeq(t)[i] != IdSeq(t)[0];
      assert IdSeq(t')[0] == IdSeq(t)[0];
    }
  }

  /** The position after the erased one is the node now at its rank. */
  lemma {:induction false} NextAfterErase(t: Tree, t': Tree, i: nat)
    requires i < Size(t) && IdSeq(t') == Without(IdSeq(t), i)
    ensures (if i < Size(t') then IdSeq(t')[i] else END) == (if i + 1 < Size(t) then IdSeq(t)[i + 1] else END)
  {
    WithoutAt(IdSeq(t), i);
  }

  class ArbTree {
    var ns: seq<NodeRec>
    var leftmost: int
    ghost var tree: Tree

    /** search_verifier, strengthened to the set's invariant: the in-order
        keys ascend strictly, so no key repeats.  It implies the
        std::is_sorted test of the source, that no key is below the one
        before it. */
    ghost predicate SearchVerifier(): (r: bool)
      reads this
      ensures r ==> forall i :: 0 < i < |Keys(tree)| ==> !(Keys(tree)[i] < Keys(tree)[i - 1])
    {
      Ordered(tree)
    }

    /** red_black_verifier: the root is black and no red node has a red
        child, and every path crosses the same number of black nodes. */
    ghost predicate RedBlackVerifier(): (r: bool)
      reads this
      ensures r ==> !IsRed(tree) && NoRedRed(tree) && Balanced(tree)
    {
      RedBlackTree(tree)
    }

    /** subtree_sizes_verifier: the records hold the tree under the sentinel,
        each with its subtree size, and the sentinel counts the elements plus
        one.  Distinct node ids make the records a tree rather than a graph. */
    ghost predicate SubtreeSizesVerifier(): (r: bool)
      reads this
      ensures r ==> 0 < |ns| && ns[END].size == Trees.Size(tree) + 1 && ns[END].left == RootId(tree)
    {
      Holds(tree, ns) && Distinct(tree)
    }

    /** The three verifiers together with the leftmost cache. */
    ghost predicate Valid()
      reads this
    {
      SubtreeSizesVerifier() && SearchVerifier() && RedBlackVerifier() && leftmost == First(tree)
    }

    /** What the verifiers check, read off the records: a root is black, has
        the sentinel as parent and is its left child; each node's size is one
        more than its children's; the sentinel's count is the size plus one. */
    lemma {:induction false} VerifierFacts()
      requires Valid()
      ensures 0 < |ns| && ns[END].size == |Keys(tree)| + 1
      ensures ns[END].left != NIL ==> (0 < ns[END].left < |ns| &&
        ns[ns[END].left].parent == END && ns[ns[END].left].color == Black)
      ensures forall i :: i in IdSeq(tree) ==> (0 < i < |ns| &&
        (ns[i].left == NIL || 0 <= ns[i].left < |ns|) && (ns[i].right == NIL || 0 <= ns[i].right < |ns|) &&
        ns[i].size == 1 + SizeOf(ns, ns[i].left) + SizeOf(ns, ns[i].right))
    {
      SizesAdd(tree, END, ns);
    }

    /** std::distance(begin(), end()): the number of prefix ++ steps from
        begin() to end() is size(). */
    method Distance() returns (steps: nat)
      requires Valid()
      ensures steps == Size()
    {
      var keys;
      keys, steps := TreeIterators.Walk(ns, leftmost, tree);
    }

    /** A fresh tree: only the sentinel, with size 1 and no root. */
    constructor ()
      ensures Valid() && tree == Nil
    {
      ns := [NodeRec(0, Black, NIL, NIL, NIL, 1)];
      leftmost := END;
      tree := Nil;
    }

    /** size(): the sentinel's count minus one. */
    function Size(): (r: nat)
      requires Valid()
      reads this
      ensures r == |Keys(tree)|
    {
      ns[END].size - 1
    }

    function Empty(): (r: bool)
      requires Valid()
      reads this
      ensures r <==> tree == Nil
    {
      Size() == 0
    }

    function Begin(): (r: int)
      requires Valid()
      reads this
      ensures r == First(tree)
    {
      leftmost
    }

    /** end(): the sentinel, which is no element's node and holds the root
        as its left child; begin() meets it exactly when the set is empty. */
    function End(): (r: int)
      reads this
      ensures SubtreeSizesVerifier() ==> r !in IdSeq(tree) && 0 <= r < |ns| && ns[r].left == RootId(tree)
      ensures Valid() ==> (Begin() == r <==> tree == Nil)
    {
      assert SubtreeSizesVerifier() ==> END !in IdSeq(tree) by {
        if SubtreeSizesVerifier() {
          MatchesIds(tree, END, ns);
        }
      }
      END
    }

    /** insert_hint_unique, on the object: see LinkNode. */
    method InsertHintUnique(key: int, parent: int, side: Side, ghost ctx: seq<Frame>) returns (n: int)
      requires Valid() && Z(ctx, Nil, ns) && Plug(ctx, Nil) == tree
      requires parent == PId(ctx) && side == SideOf(ctx)
      requires key !in Keys(tree) && |CtxKeysL(ctx)| == CountLess(Keys(tree), key)
      modifies this
      ensures Valid() && n == |old(ns)| && |ns| == |old(ns)| + 1
      ensures var c := CountLess(old(Keys(tree)), key);
        Keys(tree) == old(Keys(tree))[..c] + [key] + old(Keys(tree))[c..] &&
        IdSeq(tree) == old(IdSeq(tree))[..c] + [n] + old(IdSeq(tree))[c..]
      ensures leftmost == n <==> CountLess(old(Keys(tree)), key) == 0
    {
      var ns', lm';
      ghost var t';
      ns', n, lm', t' := LinkNode(ns, key, parent, side, leftmost, ctx, tree);
      ns, leftmost, tree := ns', lm', t';
    }

    /** insert: a present key leaves everything as it was and reports its
        node; an absent one is linked by insert_hint_unique. */
    method Insert(key: int) returns (node: int, inserted: bool)
      requires Valid()
      modifies this
      ensures Valid()
      ensures inserted <==> key !in old(Keys(tree))
      ensures !inserted ==> (ns == old(ns) && tree == old(tree) && leftmost == old(leftmost) &&
        node == IdSeq(tree)[CountLess(Keys(tree), key)])
      ensures inserted ==> var c := CountLess(old(Keys(tree)), key);
        Keys(tree) == old(Keys(tree))[..c] + [key] + old(Keys(tree))[c..] &&
        IdSeq(tree) == old(IdSeq(tree))[..c] + [node] + old(IdSeq(tree))[c..] &&
        (leftmost == node <==> c == 0)
    {
      var nd, parent, side, ctx, s := FindV2(ns, ns[END].left, key, tree);
      if nd == NIL {
        ParentOfZ(ctx, s, ns);
        var p := if parent == NIL then END else parent;
        node := InsertHintUnique(key, p, side, ctx);
        inserted := true;
      } else {
        node, inserted := nd, false;
      }
    }

    /** find: the node holding `key`, or end(). */
    method Find(key: int) returns (r: int)
      requires Valid()
      ensures key in Keys(tree) ==> r == IdSeq(tree)[CountLess(Keys(tree), key)] && Keys(tree)[CountLess(Keys(tree), key)] == key
      ensures key !in Keys(tree) ==> r == END
    {
      var node := Details.Find(ns, ns[END].left, key, tree, END);
      r := if node == NIL then END else node;
      CountLessSorted(Keys(tree), key);
      if key in Keys(tree) {
        var j :| 0 <= j < |Keys(tree)| && Keys(tree)[j] == key;
        RankHit(Keys(tree), key, CountLess(Keys(tree), key), j);
        MatchesIds(tree, END, ns);
        assert IdSeq(tree)[CountLess(Keys(tree), key)] in IdSeq(tree);
      }
    }
  
    /** lower_bound: the first node whose key is not below `key`, or end(). */
    method LowerBound(key: int) returns (r: int)
      requires Valid()
      ensures var c := CountLess(Keys(tree), key);
        r == (if c < |Keys(tree)| then IdSeq(tree)[c] else END)
    {
      var node := Details.LowerBound(ns, ns[END].left, key, tree, END);
      BoundNotNull(tree, ns, CountLess(Keys(tree), key));
      r := if node == NIL then END else node;
    }

    /** upper_bound: the first node whose key is above `key`, or end(). */
    method UpperBound(key: int) returns (r: int)
      requires Valid()
      ensures var c := CountAtMost(Keys(tree), key);
        r == (if c < |Keys(tree)| then IdSeq(tree)[c] else END)
    {
      var node := Details.UpperBound(ns, ns[END].left, key, tree, END);
      BoundNotNull(tree, ns, CountAtMost(Keys(tree), key));
      r := if node == NIL then END else node;
    }

    /** kth_smallest: end() on an empty tree or for k == 0; otherwise the
        k-th node in order, or end() when there are fewer than k. */
    method KthSmallest(k: nat) returns (r: int)
      requires Valid()
      ensures r == (if 1 <= k <= |Keys(tree)| then IdSeq(tree)[k - 1] else END)
    {
      if Empty() || k == 0 {
        return END;
      }
      var node := Details.KthSmallest(ns, ns[END].left, k, tree, END);
      BoundNotNull(tree, ns, k - 1);
      r := if node == NIL then END else node;
    }

    /** n_less_than: 0 on an empty tree, size() when lower_bound is end(),
        and otherwise the rank of the lower bound. */
    method NLessThan(key: int) returns (r: nat)
      requires Valid()
      ensures r == CountLess(Keys(tree), key)
    {
      if Empty() {
        assert Keys(tree) == [];
        return 0;
      }
      var it := LowerBound(key);
      BoundNotNull(tree, ns, CountLess(Keys(tree), key));
      if it == END {
        r := Size();
      } else {
        r := Details.NLessThan(ns, it, tree, CountLess(Keys(tree), key));
      }
    }
  
    /** erase(pos) for the node at in-order position i: the position after
        it is taken first, begin() moves there when pos was begin(), and
        then the node leaves the tree (its record stays in the arena,
        unlinked).  The result is the position now at rank i. */
    method Erase(pos: int, ghost i: nat) returns (next: int)
      requires Valid() && i < |Keys(tree)| && pos == IdSeq(tree)[i]
      modifies this
      ensures Valid() && |ns| == |old(ns)|
      ensures Keys(tree) == Without(old(Keys(tree)), i) && IdSeq(tree) == Without(old(IdSeq(tree)), i)
      ensures next == (if i + 1 < |old(Keys(tree))| then old(IdSeq(tree))[i + 1] else END)
      ensures next == (if i < |Keys(tree)| then IdSeq(tree)[i] else END)
      ensures leftmost == (if pos == old(leftmost) then next else old(leftmost))
    {
      next := Details.Successor(ns, pos, tree, i);
      if pos == leftmost {
        leftmost := next;
      }
      ghost var t';
      ns, t' := EraseOp.Erase(ns, ns[END].left, pos, tree, i);
      FirstAfterErase(tree, t', i, next);
      NextAfterErase(tree, t', i);
      SortedWithout(Keys(tree), i);
      NoDupWithout(IdSeq(tree), i);
      tree := t';
    }

    /** erase(key): 0 and nothing changes when the key is absent; otherwise
        its node is erased and the result is 1.  The keys left are the old
        ones except `key`. */
    method EraseKey(key: int) returns (r: nat)
      requires Valid()
      modifies this
      ensures Valid()
      ensures key !in old(Keys(tree)) ==> r == 0 && ns == old(ns) && tree == old(tree) && leftmost == old(leftmost)
      ensures key in old(Keys(tree)) ==> (r == 1 &&
        Keys(tree) == Without(old(Keys(tree)), CountLess(old(Keys(tree)), key)) &&
        forall k :: k in Keys(tree) <==> k in old(Keys(tree)) && k != key)
    {
      var it := Find(key);
      MatchesIds(tree, END, ns);
      if key in Keys(tree) {
        assert it in IdSeq(tree);
      }
      if it == END {
        return 0;
      }
      ghost var c := CountLess(Keys(tree), key);
      SortedNoDup(Keys(tree));
      WithoutElems(Keys(tree), c);
      var next := Erase(it, c);
      return 1;
    }

    /** clear: free every node, then point begin() at the sentinel, drop the
        root and reset the sentinel's count to 1.  `freed` lists the freed
        nodes in the order clean_up frees them. */
    method Clear() returns (freed: seq<int>)
      requires Valid()
      modifies this
      ensures Valid() && tree == Nil && freed == old(IdSeq(tree)) && |ns| == |old(ns)|
    {
      MatchesLinked(tree, END, ns);
      var ns';
      ns', freed := CleanUp.CleanUp(ns, ns[END].left, tree);
      leftmost := END;
      ns := ns'[END := ns'[END].(left := NIL)];
      ns := ns[END := ns[END].(size := 1)];
      tree := Nil;
    }
  }
}
