/** rb_insert_fixup on the linked nodes: the loop that recolours and rotates
    after a red node has been linked.  The ghost zipper `(ctx, s)` follows the
    node the loop is at; RedBlack names the case analysis, and the records are
    tied to the tree values by the zipper predicate Z. */
module Insert {
  import opened Trees
  import opened Arena
  import opened RedBlack
  import opened Rotate

  // ---------------------------------------------------------------------------
  // Recolouring one node

  /** Writing a new colour into the record of a subtree's root yields the
      recoloured subtree. */
  lemma {:induction false} RecolorMatches(t: Tree, pid: int, ns: seq<NodeRec>, c: Color)
    requires t.Node? && Matches(t, pid, ns) && t.id !in IdSeq(t.left) && t.id !in IdSeq(t.right)
    ensures Matches(Recolor(t, c), pid, ns[t.id := ns[t.id].(color := c)])
  {
    var ns' := ns[t.id := ns[t.id].(color := c)];
    MatchesFrame(t.left, t.id, ns, ns', {t.id});
    MatchesFrame(t.right, t.id, ns, ns', {t.id});
  }

  /** Recolouring the focus root of an exact zipper keeps the zipper. */
  lemma {:induction false} RecolorZ(ctx: seq<Frame>, s: Tree, ns: seq<NodeRec>, c: Color)
    requires s.Node? && Z(ctx, s, ns) && Distinct(Plug(ctx, s))
    ensures 0 < s.id < |ns|
    ensures Z(ctx, Recolor(s, c), ns[s.id := ns[s.id].(color := c)])
    ensures Keys(Plug(ctx, Recolor(s, c))) == Keys(Plug(ctx, s))
    ensures IdSeq(Plug(ctx, Recolor(s, c))) == IdSeq(Plug(ctx, s))
  {
    var ns' := ns[s.id := ns[s.id].(color := c)];
    DistinctFocus(ctx, s);
    DistinctNode(s);
    assert s.id in IdSeq(s);
    RecolorMatches(s, PId(ctx), ns, c);
    MatchesCtxFrame(ctx, s.id, Size(s), ns, ns', 0, 0, {s.id});
    PlugCongruent(ctx, s, Recolor(s, c));
  }

  /** Plugging subtrees with the same in-order keys and ids under frames that
      differ at most in colour and in the colour of the sibling's root gives
      trees with the same in-order keys and ids. */
  lemma {:induction false} Plug1Same(f: Frame, f': Frame, a: Tree, b: Tree)
    requires f'.dir == f.dir && f'.id == f.id && f'.key == f.key
    requires Keys(f'.sib) == Keys(f.sib) && IdSeq(f'.sib) == IdSeq(f.sib)
    requires Keys(a) == Keys(b) && IdSeq(a) == IdSeq(b)
    ensures Keys(Plug1(f', a)) == Keys(Plug1(f, b)) && IdSeq(Plug1(f', a)) == IdSeq(Plug1(f, b))
  {
  }

  // ---------------------------------------------------------------------------
  // The leftmost node

  /** Every frame of the path goes left: the focus holds the smallest keys. */
  predicate AllLeft(ctx: seq<Frame>)
  {
    forall i :: 0 <= i < |ctx| ==> ctx[i].dir == Left
  }

  /** Following left links from the root of `t` ends at the childless node `n`. */
  predicate LeftmostLeaf(t: Tree, n: int)
  {
    t.Node? && if t.left.Nil? then t.id == n && t.right.Nil? else LeftmostLeaf(t.left, n)
  }

  /** A path goes left at every level exactly when nothing precedes its focus. */
  lemma {:induction false} AllLeftRank(ctx: seq<Frame>)
    ensures AllLeft(ctx) <==> CtxKeysL(ctx) == []
    decreases |ctx|
  {
    if ctx != [] {
      AllLeftRank(ctx[1..]);
      if AllLeft(ctx) {
        assert AllLeft(ctx[1..]) by {
          forall i | 0 <= i < |ctx[1..]| ensures ctx[1..][i].dir == Left { assert ctx[1..][i] == ctx[i + 1]; }
        }
      } else if ctx[0].dir == Left {
        var i :| 0 <= i < |ctx| && ctx[i].dir != Left;
        assert ctx[1..][i - 1] == ctx[i];
      }
    }
  }

  /** Plugging along an all-left path keeps the leftmost leaf. */
  lemma {:induction false} PlugLeftmost(ctx: seq<Frame>, s: Tree, n: int)
    requires AllLeft(ctx) && LeftmostLeaf(s, n)
    ensures LeftmostLeaf(Plug(ctx, s), n)
    decreases |ctx|
  {
    if ctx != [] {
      assert ctx[0].dir == Left;
      assert AllLeft(ctx[1..]) by {
        forall i | 0 <= i < |ctx[1..]| ensures ctx[1..][i].dir == Left { assert ctx[1..][i] == ctx[i + 1]; }
      }
      PlugLeftmost(ctx[1..], Plug1(ctx[0], s), n);
    }
  }

  /** The leftmost leaf comes first in order. */
  lemma {:induction false} LeftmostFirst(t: Tree, n: int)
    requires LeftmostLeaf(t, n)
    ensures |IdSeq(t)| >= 1 && IdSeq(t)[0] == n
  {
    if t.left.Node? {
      LeftmostFirst(t.left, n);
    }
  }

  /** The leftmost leaf of a tree with two or more nodes is the left child of
      the node that comes second in order. */
  lemma {:induction false} LeftmostLink(t: Tree, pid: int, ns: seq<NodeRec>, n: int)
    requires Matches(t, pid, ns) && LeftmostLeaf(t, n) && Size(t) >= 2
    ensures |IdSeq(t)| >= 2 && 0 < IdSeq(t)[1] < |ns| && ns[IdSeq(t)[1]].left == n
  {
    var l := t.left;
    assert l.Node?;
    if l.left.Nil? {
      assert IdSeq(l) == [l.id];
      assert IdSeq(t) == [l.id] + [t.id] + IdSeq(t.right);
    } else {
      LeftmostLink(l, t.id, ns, n);
      assert IdSeq(t) == IdSeq(l) + [t.id] + IdSeq(t.right);
    }
  }

  /** The first node in order has no left child. */
  lemma {:induction false} FirstNoLeft(t: Tree, pid: int, ns: seq<NodeRec>)
    requires t.Node? && Matches(t, pid, ns)
    ensures |IdSeq(t)| >= 1 && 0 < IdSeq(t)[0] < |ns| && ns[IdSeq(t)[0]].left == NIL
  {
    if t.left.Node? {
      FirstNoLeft(t.left, t.id, ns);
      assert IdSeq(t) == IdSeq(t.left) + [t.id] + IdSeq(t.right);
    }
  }

  // ---------------------------------------------------------------------------
  // The two subroutines

  /** fixup_subroutine_2: the parent of `z` turns black and the grandparent
      red; the grandparent is returned. */
  method FixupSubroutine2(ns: seq<NodeRec>, z: int, ghost ctx: seq<Frame>, ghost s: Tree)
    returns (ns': seq<NodeRec>, g: int)
    requires s.Node? && z == s.id && |ctx| >= 2
    requires Z(ctx, s, ns) && Distinct(Plug(ctx, s))
    ensures |ns'| == |ns| && g == ctx[1].id
    ensures Z(ctx[2..], Plug1(ctx[1].(color := Red), Plug1(ctx[0].(color := Black), s)), ns')
    ensures Keys(Plug(ctx[2..], Plug1(ctx[1].(color := Red), Plug1(ctx[0].(color := Black), s)))) == Keys(Plug(ctx, s))
    ensures IdSeq(Plug(ctx[2..], Plug1(ctx[1].(color := Red), Plug1(ctx[0].(color := Black), s)))) == IdSeq(Plug(ctx, s))
  {
    ghost var p := Plug1(ctx[0], s);
    ZUpExact(ctx, s, ns);
    RecolorZ(ctx[1..], p, ns, Black);
    var pn := ns[z].parent;
    ns' := ns[pn := ns[pn].(color := Black)];
    ghost var p' := Recolor(p, Black);
    assert p' == Plug1(ctx[0].(color := Black), s);
    assert ctx[1..][1..] == ctx[2..] && ctx[1..][0] == ctx[1];
    ghost var gt := Plug1(ctx[1], p');
    ZUpExact(ctx[1..], p', ns');
    RecolorZ(ctx[2..], gt, ns', Red);
    g := ns'[pn].parent;
    ns' := ns'[g := ns'[g].(color := Red)];
    assert Recolor(gt, Red) == Plug1(ctx[1].(color := Red), p');
  }

  /** The root of a plugged tree depends only on the focus root's identity. */
  lemma {:induction false} RootSame(ctx: seq<Frame>, a: Tree, b: Tree)
    requires a.Node? && b.Node? && a.id == b.id
    ensures RootId(Plug(ctx, a)) == RootId(Plug(ctx, b))
  {
    PlugRoot(ctx, a);
    PlugRoot(ctx, b);
  }

  /** The grandparent of the loop's node is the root exactly when the path
      above it is empty. */
  lemma {:induction false} GrandparentRoot(ctx: seq<Frame>, s: Tree)
    requires |ctx| >= 2 && Distinct(Plug(ctx, s))
    ensures ctx[1].id == RootId(Plug(ctx, s)) <==> ctx[2..] == []
  {
    var g := Plug1(ctx[1], Plug1(ctx[0], s));
    assert ctx[1..][1..] == ctx[2..] && ctx[1..][0] == ctx[1];
    assert Plug(ctx, s) == Plug(ctx[2..], g);
    if ctx[2..] != [] {
      RootAboveFocus(ctx[2..], g);
      assert g.id in IdSeq(g);
    }
  }

  /** Recolouring the right (left) child of a zipper's focus root. */
  lemma {:induction false} RecolorRightZ(ctx: seq<Frame>, g: Tree, ns: seq<NodeRec>, c: Color)
    requires g.Node? && g.right.Node? && Z(ctx, g, ns) && Distinct(Plug(ctx, g))
    ensures 0 < g.right.id < |ns|
    ensures Z(ctx, g.(right := Recolor(g.right, c)), ns[g.right.id := ns[g.right.id].(color := c)])
    ensures Keys(Plug(ctx, g.(right := Recolor(g.right, c)))) == Keys(Plug(ctx, g))
    ensures IdSeq(Plug(ctx, g.(right := Recolor(g.right, c)))) == IdSeq(Plug(ctx, g))
  {
    ZDown(ctx, g, ns);
    var c1 := [DownR(g)] + ctx;
    RecolorZ(c1, g.right, ns, c);
    var ns' := ns[g.right.id := ns[g.right.id].(color := c)];
    ZUpExact(c1, Recolor(g.right, c), ns');
    assert c1[1..] == ctx && c1[0] == DownR(g);
    assert Plug1(DownR(g), Recolor(g.right, c)) == g.(right := Recolor(g.right, c));
  }

  lemma {:induction false} RecolorLeftZ(ctx: seq<Frame>, g: Tree, ns: seq<NodeRec>, c: Color)
    requires g.Node? && g.left.Node? && Z(ctx, g, ns) && Distinct(Plug(ctx, g))
    ensures 0 < g.left.id < |ns|
    ensures Z(ctx, g.(left := Recolor(g.left, c)), ns[g.left.id := ns[g.left.id].(color := c)])
    ensures Keys(Plug(ctx, g.(left := Recolor(g.left, c)))) == Keys(Plug(ctx, g))
    ensures IdSeq(Plug(ctx, g.(left := Recolor(g.left, c)))) == IdSeq(Plug(ctx, g))
  {
    ZDown(ctx, g, ns);
    var c1 := [DownL(g)] + ctx;
    RecolorZ(c1, g.left, ns, c);
    var ns' := ns[g.left.id := ns[g.left.id].(color := c)];
    ZUpExact(c1, Recolor(g.left, c), ns');
    assert c1[1..] == ctx && c1[0] == DownL(g);
    assert Plug1(DownL(g), Recolor(g.left, c)) == g.(left := Recolor(g.left, c));
  }

  /** fixup_subroutine_1: with a red uncle, the parent turns black, the
      grandparent red (black when it is the root) and the uncle black; the
      grandparent is returned.  The zipper moves two levels up. */
  method FixupSubroutine1(ns: seq<NodeRec>, z: int, uncle: int, root: int, ghost ctx: seq<Frame>, ghost s: Tree)
    returns (ns': seq<NodeRec>, g: int)
    requires s.Node? && z == s.id && |ctx| >= 2 && ctx[1].sib.Node? && uncle == ctx[1].sib.id
    requires Z(ctx, s, ns) && Distinct(Plug(ctx, s)) && root == RootId(Plug(ctx, s))
    ensures |ns'| == |ns| && g == ctx[1].id
    ensures Z(ctx[2..], InsRecolored(ctx, s), ns')
    ensures Keys(Plug(ctx[2..], InsRecolored(ctx, s))) == Keys(Plug(ctx, s))
    ensures IdSeq(Plug(ctx[2..], InsRecolored(ctx, s))) == IdSeq(Plug(ctx, s))
    ensures RootId(Plug(ctx[2..], InsRecolored(ctx, s))) == root
  {
    ghost var p := Plug1(ctx[0], s);
    ZUpExact(ctx, s, ns);
    RecolorZ(ctx[1..], p, ns, Black);
    var pn := ns[z].parent;
    ns' := ns[pn := ns[pn].(color := Black)];
    ghost var p' := Recolor(p, Black);
    assert p' == Plug1(ctx[0].(color := Black), s);
    assert ctx[1..][1..] == ctx[2..] && ctx[1..][0] == ctx[1];
    ghost var gt := Plug1(ctx[1], p');
    ZUpExact(ctx[1..], p', ns');
    GrandparentRoot(ctx, s);
    g := ns'[pn].parent;
    var gc := if g == root then Black else Red;
    assert gc == if ctx[2..] == [] then Black else Red;
    RecolorZ(ctx[2..], gt, ns', gc);
    ns' := ns'[g := ns'[g].(color := gc)];
    ghost var g2 := Recolor(gt, gc);
    if ctx[1].dir == Left {
      RecolorRightZ(ctx[2..], g2, ns', Black);
      assert g2.(right := Recolor(g2.right, Black)) == InsRecolored(ctx, s);
    } else {
      RecolorLeftZ(ctx[2..], g2, ns', Black);
      assert g2.(left := Recolor(g2.left, Black)) == InsRecolored(ctx, s);
    }
    ns' := ns'[uncle := ns'[uncle].(color := Black)];
    RootSame(ctx[2..], InsRecolored(ctx, s), Plug1(ctx[1], p));
  }

  // ---------------------------------------------------------------------------
  // Black uncle: at most two rotations, and the loop stops

  /** The parent is a left child and the uncle is black or absent: when the
      node is a right child, a left rotation at the parent first; then the
      recolouring of fixup_subroutine_2 and a right rotation at the
      grandparent.  The result is a red-black tree with the same in-order
      keys and nodes. */
  method BlackUncleLeft(ns: seq<NodeRec>, z: int, ghost ctx: seq<Frame>, ghost s: Tree, ghost n0: int)
    returns (ns': seq<NodeRec>, ghost t': Tree)
    requires InsInv(ctx, s) && |ctx| >= 2 && ctx[0].color == Red && !IsRed(ctx[1].sib) && ctx[1].dir == Left
    requires z == s.id && Z(ctx, s, ns) && Distinct(Plug(ctx, s))
    ensures |ns'| == |ns| && Holds(t', ns') && RedBlackTree(t')
    ensures Keys(t') == Keys(Plug(ctx, s)) && IdSeq(t') == IdSeq(Plug(ctx, s))
    ensures AllLeft(ctx) && LeftmostLeaf(s, n0) ==> LeftmostLeaf(t', n0)
  {
    IsLeftChildZ(ctx, s, ns, 0, 0);
    ghost var p := Plug1(ctx[0], s);
    ZUpExact(ctx, s, ns);
    ghost var g2: Tree;
    var n, g := ns, 0;
    if !IsLeftChild(ns, z) {
      var pn := ns[z].parent;
      n := LeftRotatePlus(ns, pn, ctx[1..], p);
      ghost var r := RotL(p);
      PlugCongruent(ctx[1..], p, r);
      ZDown(ctx[1..], r, n);
      ghost var c1 := [DownL(r)] + ctx[1..];
      assert c1[1] == ctx[1] && c1[2..] == ctx[2..];
      n, g := FixupSubroutine2(n, pn, c1, r.left);
      g2 := Plug1(ctx[1].(color := Red), Plug1(c1[0].(color := Black), r.left));
      assert g2 == Plug1(ctx[1].(color := Red), Recolor(RotL(Plug1(ctx[0], s)), Black));
      InsCaseLR(ctx, s);
    } else {
      n, g := FixupSubroutine2(ns, z, ctx, s);
      g2 := Plug1(ctx[1].(color := Red), Plug1(ctx[0].(color := Black), s));
      InsCaseLL(ctx, s);
    }
    ns' := RightRotatePlus(n, g, ctx[2..], g2);
    t' := Plug(ctx[2..], RotR(g2));
    if AllLeft(ctx) && LeftmostLeaf(s, n0) {
      assert ctx[0].dir == Left && ctx[1].dir == Left;
      assert AllLeft(ctx[2..]) by {
        forall i | 0 <= i < |ctx[2..]| ensures ctx[2..][i].dir == Left { assert ctx[2..][i] == ctx[i + 2]; }
      }
      PlugLeftmost(ctx[2..], RotR(g2), n0);
    }
    PlugCongruent(ctx[2..], g2, RotR(g2));
    ZHolds(ctx[2..], RotR(g2), ns');
  }

  /** The mirror: the parent is a right child. */
  method BlackUncleRight(ns: seq<NodeRec>, z: int, ghost ctx: seq<Frame>, ghost s: Tree)
    returns (ns': seq<NodeRec>, ghost t': Tree)
    requires InsInv(ctx, s) && |ctx| >= 2 && ctx[0].color == Red && !IsRed(ctx[1].sib) && ctx[1].dir == Right
    requires z == s.id && Z(ctx, s, ns) && Distinct(Plug(ctx, s))
    ensures |ns'| == |ns| && Holds(t', ns') && RedBlackTree(t')
    ensures Keys(t') == Keys(Plug(ctx, s)) && IdSeq(t') == IdSeq(Plug(ctx, s))
  {
    IsLeftChildZ(ctx, s, ns, 0, 0);
    ghost var p := Plug1(ctx[0], s);
    ZUpExact(ctx, s, ns);
    ghost var g2: Tree;
    var n, g := ns, 0;
    if IsLeftChild(ns, z) {
      var pn := ns[z].parent;
      n := RightRotatePlus(ns, pn, ctx[1..], p);
      ghost var r := RotR(p);
      PlugCongruent(ctx[1..], p, r);
      ZDown(ctx[1..], r, n);
      ghost var c1 := [DownR(r)] + ctx[1..];
      assert c1[1] == ctx[1] && c1[2..] == ctx[2..];
      n, g := FixupSubroutine2(n, pn, c1, r.right);
      g2 := Plug1(ctx[1].(color := Red), Plug1(c1[0].(color := Black), r.right));
      assert g2 == Plug1(ctx[1].(color := Red), Recolor(RotR(Plug1(ctx[0], s)), Black));
      InsCaseRL(ctx, s);
    } else {
      n, g := FixupSubroutine2(ns, z, ctx, s);
      g2 := Plug1(ctx[1].(color := Red), Plug1(ctx[0].(color := Black), s));
      InsCaseRR(ctx, s);
    }
    ns' := LeftRotatePlus(n, g, ctx[2..], g2);
    t' := Plug(ctx[2..], RotL(g2));
    PlugCongruent(ctx[2..], g2, RotL(g2));
    ZHolds(ctx[2..], RotL(g2), ns');
  }

  // ---------------------------------------------------------------------------
  // The loop

  /** What the loop condition reads: the node is the root exactly when the
      path is empty, and otherwise its parent's record is the innermost frame. */
  lemma {:induction false} GuardFacts(ctx: seq<Frame>, s: Tree, ns: seq<NodeRec>, root: int)
    requires s.Node? && Z(ctx, s, ns) && Distinct(Plug(ctx, s)) && root == RootId(Plug(ctx, s))
    ensures 0 < s.id < |ns| && 0 <= ns[s.id].parent < |ns|
    ensures s.id == root <==> ctx == []
    ensures ctx != [] ==> ns[s.id].parent == ctx[0].id && ns[ctx[0].id].color == ctx[0].color
  {
    MatchesCtxIds(ctx, s.id, Size(s), ns, 0, 0);
    if ctx != [] {
      RootAboveFocus(ctx, s);
      assert s.id in IdSeq(s);
    }
  }

  /** What the loop body reads around the grandparent: which side the parent
      hangs on, and the uncle's link and colour. */
  lemma {:induction false} UncleFacts(ctx: seq<Frame>, s: Tree, ns: seq<NodeRec>)
    requires s.Node? && |ctx| >= 2 && Z(ctx, s, ns) && Distinct(Plug(ctx, s))
    ensures 0 < ctx[0].id < |ns| && 0 < ctx[1].id < |ns| && ns[ctx[0].id].parent == ctx[1].id
    ensures IsLeftChild(ns, ctx[0].id) <==> ctx[1].dir == Left
    ensures ctx[1].dir == Left ==> ns[ctx[1].id].right == RootId(ctx[1].sib)
    ensures ctx[1].dir == Right ==> ns[ctx[1].id].left == RootId(ctx[1].sib)
    ensures ctx[1].sib.Node? ==> 0 < ctx[1].sib.id < |ns| && ns[ctx[1].sib.id].color == ctx[1].sib.color
  {
    ZUpExact(ctx, s, ns);
    assert ctx[1..][0] == ctx[1];
    IsLeftChildZ(ctx[1..], Plug1(ctx[0], s), ns, 0, 0);
  }

  /** A recolouring step along an all-left path keeps the leftmost leaf. */
  lemma {:induction false} RedUncleLeftmost(ctx: seq<Frame>, s: Tree, z: int)
    requires AllLeft(ctx) && LeftmostLeaf(s, z) && |ctx| >= 2 && ctx[1].sib.Node?
    ensures AllLeft(ctx[2..]) && LeftmostLeaf(InsRecolored(ctx, s), z)
  {
    assert ctx[0].dir == Left && ctx[1].dir == Left;
    assert AllLeft(ctx[2..]) by {
      forall i | 0 <= i < |ctx[2..]| ensures ctx[2..][i].dir == Left { assert ctx[2..][i] == ctx[i + 2]; }
    }
  }

  lemma {:induction false} NotAllLeft(ctx: seq<Frame>)
    requires |ctx| >= 2 && ctx[1].dir == Right
    ensures !AllLeft(ctx)
  {
  }

  /** rb_insert_fixup: `z` is a red leaf just linked into a red-black tree
      (the tree with the leaf's slot empty).  While `z` is not the root and
      its parent is red, a red uncle leads to a recolouring and a move two
      levels up, a black or absent uncle to at most two rotations and the end;
      when `z` is the root it is coloured black.  The records then hold a
      red-black tree with the same in-order keys and nodes. */
  method RbInsertFixup(ns: seq<NodeRec>, root: int, z: int, ghost ctx0: seq<Frame>, ghost s0: Tree)
    returns (ns': seq<NodeRec>, ghost t': Tree)
    requires s0.Node? && s0.color == Red && s0.left == Nil && s0.right == Nil && z == s0.id
    requires Z(ctx0, s0, ns) && Distinct(Plug(ctx0, s0)) && RedBlackTree(Plug(ctx0, Nil))
    requires root == RootId(Plug(ctx0, s0))
    ensures |ns'| == |ns| && Holds(t', ns') && RedBlackTree(t')
    ensures Keys(t') == Keys(Plug(ctx0, s0)) && IdSeq(t') == IdSeq(Plug(ctx0, s0))
    ensures AllLeft(ctx0) ==> LeftmostLeaf(t', z)
  {
    GuardFacts(ctx0, s0, ns, root);
    if z == root {
      ns' := ns[z := ns[z].(color := Black)];
      RecolorZ(ctx0, s0, ns, Black);
      t' := Recolor(s0, Black);
      ZHolds(ctx0, t', ns');
      return;
    }
    InsStart(ctx0, Red, z, s0.key);
    ns' := ns;
    ghost var ctx, s := ctx0, s0;
    var cur := z;
    while cur != root && ns'[ns'[cur].parent].color == Red
      invariant |ns'| == |ns| && Z(ctx, s, ns') && Distinct(Plug(ctx, s)) && InsInv(ctx, s) && cur == s.id
      invariant Keys(Plug(ctx, s)) == Keys(Plug(ctx0, s0)) && IdSeq(Plug(ctx, s)) == IdSeq(Plug(ctx0, s0))
      invariant root == RootId(Plug(ctx, s))
      invariant AllLeft(ctx0) ==> AllLeft(ctx) && LeftmostLeaf(s, z)
      decreases |ctx|
    {
      GuardFacts(ctx, s, ns', root);
      InsRedParent(ctx, s);
      UncleFacts(ctx, s, ns');
      var p := ns'[cur].parent;
      if IsLeftChild(ns', p) {
        var uncle := ns'[ns'[p].parent].right;
        if uncle != NIL && ns'[uncle].color == Red {
          ns', cur := FixupSubroutine1(ns', cur, uncle, root, ctx, s);
          InsCaseRedUncle(ctx, s);
          if AllLeft(ctx0) {
            RedUncleLeftmost(ctx, s, z);
          }
          ctx, s := ctx[2..], InsRecolored(ctx, s);
        } else {
          ns', t' := BlackUncleLeft(ns', cur, ctx, s, z);
          return;
        }
      } else {
        var uncle := ns'[ns'[p].parent].left;
        if uncle != NIL && ns'[uncle].color == Red {
          ns', cur := FixupSubroutine1(ns', cur, uncle, root, ctx, s);
          InsCaseRedUncle(ctx, s);
          ctx, s := ctx[2..], InsRecolored(ctx, s);
        } else {
          NotAllLeft(ctx);
          ns', t' := BlackUncleRight(ns', cur, ctx, s);
          return;
        }
      }
      GuardFacts(ctx, s, ns', root);
    }
    GuardFacts(ctx, s, ns', root);
    InsDone(ctx, s);
    t' := Plug(ctx, s);
    ZHolds(ctx, s, ns');
    if AllLeft(ctx0) {
      PlugLeftmost(ctx, s, z);
    }
  }
}
