/** The earlier RB_Tree revision: the pieces that differ from ARB_Tree.  An
    empty tree gets its root from insert_root; insert_hint_unique picks the
    side by comparing the key with the parent's; its insert fixup tests the
    parent's side where the new node's is meant; and clear leaves the
    sentinel's count as it was. */
module RbTrees {
  import opened Trees
  import opened Arena
  import opened RedBlack
  import opened Details
  import opened Insert
  import opened Link
  import opened CleanUp
  import ArbTrees

  // ---------------------------------------------------------------------------
  // insert_root and insert_hint_unique

  /** insert_root: the first node is black, hangs under the sentinel, is
      begin(), and the sentinel's count goes up by one. */
  method InsertRoot(ns: seq<NodeRec>, key: int) returns (ns': seq<NodeRec>, n: int, lm: int, ghost t: Tree)
    requires Holds(Nil, ns)
    ensures t == Node(Black, Nil, n, key, Nil) && n == |ns| && |ns'| == |ns| + 1
    ensures Holds(t, ns') && RedBlackTree(t) && Keys(t) == [key] && lm == ArbTrees.First(t)
  {
    n := |ns|;
    ns' := ns + [NodeRec(key, Black, NIL, NIL, NIL, 1)];
    ns' := ns'[END := ns'[END].(size := ns'[END].size + 1)];
    ns' := ns'[END := ns'[END].(left := n)];
    ns' := ns'[n := ns'[n].(parent := END)];
    lm := n;
    t := Node(Black, Nil, n, key, Nil);
    LeafSeqs(n, key);
    assert Keys(t) == [key] && IdSeq(t) == [n];
  }

  /** In a search tree, the empty slot that find_v2 reaches for an absent key
      hangs on the left of its parent exactly when the key is below the
      parent's key: this is the comparison RB_Tree's insert_hint_unique
      makes instead of asking find_v2 for the side. */
  lemma {:induction false} SideByKey(t: Tree, ctx: seq<Frame>, key: int)
    requires Plug(ctx, Nil) == t && Ordered(t) && key !in Keys(t)
    requires |CtxKeysL(ctx)| == CountLess(Keys(t), key) && ctx != []
    ensures SideOf(ctx) == (if key < ctx[0].key then Left else Right)
  {
    var ks, l, r := Keys(t), CtxKeysL(ctx), CtxKeysR(ctx);
    var c := |l|;
    PlugNil(ctx, t);
    CountLessSorted(ks, key);
    assert ks == l + r && RankBelow(ks, key, c);
    if ctx[0].dir == Left {
      assert r == [ctx[0].key] + Keys(ctx[0].sib) + CtxKeysR(ctx[1..]);
      assert ks[c] == r[0] == ctx[0].key;
      assert ks[c] != key;
    } else {
      assert l == CtxKeysL(ctx[1..]) + (Keys(ctx[0].sib) + [ctx[0].key]);
      assert ks[c - 1] == l[c - 1] == ctx[0].key;
    }
  }

  /** RB_Tree::insert_hint_unique(parent, key) on a non-empty tree: the new
      red node becomes the parent's left child iff `key < parent.key`, every
      ancestor and the sentinel count one more node, and (with the corrected
      insert fixup) the result is again a valid red-black search tree with
      `key` inserted at its rank. */
  method RbInsertHintUnique(ns: seq<NodeRec>, parent: int, key: int, lm: int, ghost ctx: seq<Frame>, ghost t0: Tree)
    returns (ns': seq<NodeRec>, n: int, lm': int, ghost t': Tree)
    requires Z(ctx, Nil, ns) && Plug(ctx, Nil) == t0 && ctx != []
    requires Ordered(t0) && Distinct(t0) && RedBlackTree(t0) && lm == ArbTrees.First(t0)
    requires parent == ParentOf(ctx)
    requires key !in Keys(t0) && |CtxKeysL(ctx)| == CountLess(Keys(t0), key)
    ensures Holds(t', ns') && Ordered(t') && Distinct(t') && RedBlackTree(t') && lm' == ArbTrees.First(t')
    ensures n == |ns| && |ns'| == |ns| + 1 && ns'[END].size == ns[END].size + 1
    ensures var c := CountLess(Keys(t0), key);
      Keys(t') == Keys(t0)[..c] + [key] + Keys(t0)[c..] &&
      IdSeq(t') == IdSeq(t0)[..c] + [n] + IdSeq(t0)[c..]
  {
    SideByKey(t0, ctx, key);
    assert ns[parent].key == ctx[0].key;
    var side := if key < ns[parent].key then Left else Right;
    ns', n, lm', t' := ArbTrees.LinkNode(ns, key, parent, side, lm, ctx, t0);
    CountOneMore(ns, ns', ctx, t0, t', key, n);
  }

  /** The sentinel counts the inserted node. */
  lemma {:induction false} CountOneMore(ns: seq<NodeRec>, ns': seq<NodeRec>, ctx: seq<Frame>, t0: Tree, t': Tree, key: int, n: int)
    requires Z(ctx, Nil, ns) && Plug(ctx, Nil) == t0 && Holds(t', ns')
    requires var c := CountLess(Keys(t0), key); Keys(t') == Keys(t0)[..c] + [key] + Keys(t0)[c..]
    ensures 0 < |ns| && 0 < |ns'| && ns'[END].size == ns[END].size + 1
  {
    ZHolds(ctx, Nil, ns);
  }

  // ---------------------------------------------------------------------------
  // The insert fixup's black-uncle case as written

  /** The black-uncle case with the parent a left child, as rb_insert_fixup
      in this revision performs it: the test for the inner grandchild asks
      whether the parent (not the new node) is a right child, which inside
      this branch is never true, so only the recolouring and the right
      rotation at the grandparent happen.  The keys keep their order. */
  function BlackUncleLeftAsWritten(ctx: seq<Frame>, s: Tree): (t: Tree)
    requires |ctx| >= 2 && ctx[1].dir == Left
    ensures Keys(t) == Keys(Plug(ctx, s)) && IdSeq(t) == IdSeq(Plug(ctx, s))
  {
    var g := Plug1(ctx[1].(color := Red), Plug1(ctx[0].(color := Black), s));
    RecolorTwo(ctx, s);
    PlugCongruent(ctx[2..], g, RotR(g));
    Plug(ctx[2..], RotR(g))
  }

  /** Recolouring the parent and grandparent frames keeps the order. */
  lemma {:induction false} RecolorTwo(ctx: seq<Frame>, s: Tree)
    requires |ctx| >= 2
    ensures var g := Plug1(ctx[1].(color := Red), Plug1(ctx[0].(color := Black), s));
      Keys(Plug(ctx[2..], g)) == Keys(Plug(ctx, s)) && IdSeq(Plug(ctx[2..], g)) == IdSeq(Plug(ctx, s))
  {
    var g := Plug1(ctx[1].(color := Red), Plug1(ctx[0].(color := Black), s));
    assert ctx[1..][1..] == ctx[2..];
    assert Plug(ctx, s) == Plug(ctx[2..], Plug1(ctx[1], Plug1(ctx[0], s)));
    Plug1Same(ctx[0], ctx[0].(color := Black), s, s);
    Plug1Same(ctx[1], ctx[1].(color := Red), Plug1(ctx[0].(color := Black), s), Plug1(ctx[0], s));
    PlugCongruent(ctx[2..], Plug1(ctx[1], Plug1(ctx[0], s)), g);
  }

  /** The mirror: the parent a right child; the inner rotation never fires. */
  function BlackUncleRightAsWritten(ctx: seq<Frame>, s: Tree): (t: Tree)
    requires |ctx| >= 2 && ctx[1].dir == Right
    ensures Keys(t) == Keys(Plug(ctx, s)) && IdSeq(t) == IdSeq(Plug(ctx, s))
  {
    var g := Plug1(ctx[1].(color := Red), Plug1(ctx[0].(color := Black), s));
    RecolorTwo(ctx, s);
    PlugCongruent(ctx[2..], g, RotL(g));
    Plug(ctx[2..], RotL(g))
  }

  /** In every fixup state where the new node is the inner grandchild (the
      right child of a left parent), the case as written hangs the red node
      under the red old grandparent, so the result is never red-black. */
  lemma {:induction false} BlackUncleLeftAsWrittenWrong(ctx: seq<Frame>, s: Tree)
    requires InsInv(ctx, s) && ctx != [] && ctx[0].color == Red
    requires |ctx| >= 2 && !IsRed(ctx[1].sib)
    requires ctx[1].dir == Left && ctx[0].dir == Right
    ensures !RedBlackTree(BlackUncleLeftAsWritten(ctx, s))
  {
    var g := Plug1(ctx[1].(color := Red), Plug1(ctx[0].(color := Black), s));
    var t := RotR(g);
    assert BlackUncleLeftAsWritten(ctx, s) == Plug(ctx[2..], t);
    assert t.right == Node(Red, s, ctx[1].id, ctx[1].key, ctx[1].sib);
    assert !NoRedRed(t);
    if RedBlackTree(Plug(ctx[2..], t)) {
      PlugRBInv(ctx[2..], t);
    }
  }

  /** The mirror: the new node the left child of a right parent. */
  lemma {:induction false} BlackUncleRightAsWrittenWrong(ctx: seq<Frame>, s: Tree)
    requires InsInv(ctx, s) && ctx != [] && ctx[0].color == Red
    requires |ctx| >= 2 && !IsRed(ctx[1].sib)
    requires ctx[1].dir == Right && ctx[0].dir == Left
    ensures !RedBlackTree(BlackUncleRightAsWritten(ctx, s))
  {
    var g := Plug1(ctx[1].(color := Red), Plug1(ctx[0].(color := Black), s));
    var t := RotL(g);
    assert BlackUncleRightAsWritten(ctx, s) == Plug(ctx[2..], t);
    assert t.left == Node(Red, ctx[1].sib, ctx[1].id, ctx[1].key, s);
    assert !NoRedRed(t);
    if RedBlackTree(Plug(ctx[2..], t)) {
      PlugRBInv(ctx[2..], t);
    }
  }

  /** Inserting 3, 1, 2: the third node (key 2) is the right child of the red
      node 1, itself the left child of the black root 3, with no uncle.  This
      is a legal fixup state, but the case as written leaves node 3 red with
      the red node 2 as its left child; the corrected case (InsCaseLR) yields
      a red-black tree. */
  lemma {:induction false} InsertThreeOneTwo()
    ensures var ctx := [Frame(Right, Red, 2, 1, Nil), Frame(Left, Black, 1, 3, Nil)];
      var s := Node(Red, Nil, 3, 2, Nil);
      InsInv(ctx, s) && ctx[0].color == Red && !IsRed(ctx[1].sib) &&
      !NoRedRed(BlackUncleLeftAsWritten(ctx, s)) &&
      RedBlackTree(Plug(ctx[2..], RotR(Plug1(ctx[1].(color := Red), Recolor(RotL(Plug1(ctx[0], s)), Black)))))
  {
    var ctx := [Frame(Right, Red, 2, 1, Nil), Frame(Left, Black, 1, 3, Nil)];
    var s := Node(Red, Nil, 3, 2, Nil);
    assert ctx[1..] == [ctx[1]] && ctx[1..][1..] == [] && ctx[2..] == [];
    assert InsInv(ctx, s);
    assert BlackUncleLeftAsWritten(ctx, s) == Node(Black, Nil, 2, 1, Node(Red, s, 1, 3, Nil));
    InsCaseLR(ctx, s);
  }

  // ---------------------------------------------------------------------------
  // clear as written

  /** RB_Tree::clear: every node is freed and the root and leftmost cache are
      reset, but the sentinel keeps its count, so on a non-empty tree size()
      still reports the old number of keys and the records no longer hold the
      empty tree. */
  method ClearAsWritten(ns: seq<NodeRec>, ghost t: Tree) returns (ns': seq<NodeRec>, lm: int, freed: seq<int>)
    requires Holds(t, ns) && Distinct(t)
    ensures freed == IdSeq(t) && lm == END && 0 < |ns'| && ns'[END].left == NIL
    ensures ns'[END].size - 1 == Size(t)
    ensures t.Node? ==> !Holds(Nil, ns')
  {
    MatchesLinked(t, END, ns);
    ns', freed := CleanUp.CleanUp(ns, ns[END].left, t);
    lm := END;
    ns' := ns'[END := ns'[END].(left := NIL)];
  }
}
