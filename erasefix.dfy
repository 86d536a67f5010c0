/** rb_erase_fixup on the linked nodes.  The ghost zipper `(ctx, s)` follows
    the node x, which is one black short (EraseCases.DelInv); the loop itself
    keeps only x's sibling `w` and the root.  Each case is a method that
    performs the recolourings and rotations of the source on the records and
    states the resulting zipper in the terms of EraseCases. */
module EraseFix {
  import opened Trees
  import opened Arena
  import opened RedBlack
  import opened Rotate
  import opened Insert
  import opened EraseCases

  // ---------------------------------------------------------------------------
  // What the loop reads

  /** The records of x's sibling w, of its children and of their parent. */
  lemma {:induction false} SibFacts(ctx: seq<Frame>, s: Tree, ns: seq<NodeRec>)
    requires ctx != [] && ctx[0].sib.Node? && Z(ctx, s, ns) && Distinct(Plug(ctx, s))
    ensures 0 < ctx[0].id < |ns| && ns[ctx[0].id].color == ctx[0].color
    ensures 0 < ctx[0].sib.id < |ns| && ns[ctx[0].sib.id].parent == ctx[0].id
    ensures ns[ctx[0].sib.id].color == ctx[0].sib.color
    ensures ns[ctx[0].sib.id].left == RootId(ctx[0].sib.left) && ns[ctx[0].sib.id].right == RootId(ctx[0].sib.right)
    ensures IsLeftChild(ns, ctx[0].sib.id) <==> ctx[0].dir == Right
    ensures ctx[0].sib.left.Node? ==> 0 < ctx[0].sib.left.id < |ns| && ns[ctx[0].sib.left.id].color == ctx[0].sib.left.color
    ensures ctx[0].sib.right.Node? ==> 0 < ctx[0].sib.right.id < |ns| && ns[ctx[0].sib.right.id].color == ctx[0].sib.right.color
  {
    DistinctFrame(ctx, s);
    var w := ctx[0].sib;
    assert w.id in IdSeq(w);
    assert Matches(w, ctx[0].id, ns);
    assert Matches(w.left, w.id, ns) && Matches(w.right, w.id, ns);
  }

  /** The parent and the sibling link of a focus node with a non-empty path. */
  lemma {:induction false} FocusSibling(ctx: seq<Frame>, s: Tree, ns: seq<NodeRec>)
    requires ctx != [] && s.Node? && Z(ctx, s, ns) && Distinct(Plug(ctx, s))
    ensures 0 < s.id < |ns| && ns[s.id].parent == ctx[0].id && 0 < ctx[0].id < |ns|
    ensures IsLeftChild(ns, s.id) <==> ctx[0].dir == Left
    ensures ctx[0].dir == Left ==> ns[ctx[0].id].right == RootId(ctx[0].sib)
    ensures ctx[0].dir == Right ==> ns[ctx[0].id].left == RootId(ctx[0].sib)
  {
    IsLeftChildZ(ctx, s, ns, 0, 0);
  }

  /** After the focus root `a` is replaced by `b`, the whole tree's root is
      `b` if it was `a` and unchanged otherwise. */
  lemma {:induction false} RootAfter(ctx: seq<Frame>, a: Tree, b: Tree)
    requires a.Node? && b.Node? && Distinct(Plug(ctx, a))
    ensures RootId(Plug(ctx, b)) == if RootId(Plug(ctx, a)) == a.id then b.id else RootId(Plug(ctx, a))
  {
    PlugRoot(ctx, a);
    PlugRoot(ctx, b);
    if ctx != [] {
      RootAboveFocus(ctx, a);
      assert a.id in IdSeq(a);
    }
  }

  // ---------------------------------------------------------------------------
  // Case 1: a red sibling

  /** The subtree at x's parent after case 1's recolouring, before the
      rotation: w black, the parent red. */
  function Case1Colored(ctx: seq<Frame>, s: Tree): Tree
    requires ctx != [] && ctx[0].sib.Node?
  {
    var p := Plug1(ctx[0], s);
    if ctx[0].dir == Left then Recolor(p.(right := Recolor(ctx[0].sib, Black)), Red)
    else Recolor(p.(left := Recolor(ctx[0].sib, Black)), Red)
  }

  /** The two recolourings of case 1 on the records. */
  lemma {:induction false} Case1Recolor(ctx: seq<Frame>, s: Tree, ns: seq<NodeRec>, ns': seq<NodeRec>)
    requires ctx != [] && ctx[0].sib.Node? && Z(ctx, s, ns) && Distinct(Plug(ctx, s))
    requires 0 < ctx[0].sib.id < |ns| && 0 < ctx[0].id < |ns|
    requires ns' == ns[ctx[0].sib.id := ns[ctx[0].sib.id].(color := Black)][ctx[0].id := ns[ctx[0].id].(color := Red)]
    ensures Z(ctx[1..], Case1Colored(ctx, s), ns')
    ensures IdSeq(Plug(ctx[1..], Case1Colored(ctx, s))) == IdSeq(Plug(ctx, s))
    ensures Keys(Case1Colored(ctx, s)) == Keys(Plug1(ctx[0], s)) && IdSeq(Case1Colored(ctx, s)) == IdSeq(Plug1(ctx[0], s))
  {
    var p := Plug1(ctx[0], s);
    var w := ctx[0].sib;
    ZUpExact(ctx, s, ns);
    var ns1 := ns[w.id := ns[w.id].(color := Black)];
    if ctx[0].dir == Left {
      RecolorRightZ(ctx[1..], p, ns, Black);
      RecolorZ(ctx[1..], p.(right := Recolor(w, Black)), ns1, Red);
    } else {
      RecolorLeftZ(ctx[1..], p, ns, Black);
      RecolorZ(ctx[1..], p.(left := Recolor(w, Black)), ns1, Red);
    }
  }

  /** After the rotation the zipper is two levels deeper: x's new parent is
      the old one, red, below w, black. */
  lemma {:induction false} Case1LDown(ctx: seq<Frame>, s: Tree, ns: seq<NodeRec>)
    requires ctx != [] && ctx[0].dir == Left && ctx[0].sib.Node?
    requires Z(ctx[1..], RotL(Case1Colored(ctx, s)), ns)
    ensures Z(Case1L(ctx), s, ns) && Plug(Case1L(ctx), s) == Plug(ctx[1..], RotL(Case1Colored(ctx, s)))
    ensures 0 < ctx[0].sib.id < |ns| && ns[ctx[0].sib.id].left == ctx[0].id
    ensures 0 < ctx[0].id < |ns| && ns[ctx[0].id].right == RootId(ctx[0].sib.left)
  {
    var r := RotL(Case1Colored(ctx, s));
    ZDown(ctx[1..], r, ns);
    var c1 := [DownL(r)] + ctx[1..];
    ZDown(c1, r.left, ns);
    assert [DownL(r.left)] + c1 == Case1L(ctx);
    assert Matches(r.left, r.id, ns);
  }

  lemma {:induction false} Case1RDown(ctx: seq<Frame>, s: Tree, ns: seq<NodeRec>)
    requires ctx != [] && ctx[0].dir == Right && ctx[0].sib.Node?
    requires Z(ctx[1..], RotR(Case1Colored(ctx, s)), ns)
    ensures Z(Case1R(ctx), s, ns) && Plug(Case1R(ctx), s) == Plug(ctx[1..], RotR(Case1Colored(ctx, s)))
    ensures 0 < ctx[0].sib.id < |ns| && ns[ctx[0].sib.id].right == ctx[0].id
    ensures 0 < ctx[0].id < |ns| && ns[ctx[0].id].left == RootId(ctx[0].sib.right)
  {
    var r := RotR(Case1Colored(ctx, s));
    ZDown(ctx[1..], r, ns);
    var c1 := [DownR(r)] + ctx[1..];
    ZDown(c1, r.right, ns);
    assert [DownR(r.right)] + c1 == Case1R(ctx);
    assert Matches(r.right, r.id, ns);
  }

  /** Case 1 with x a left child: w turns black, its parent red, a left
      rotation at the parent; the root follows w when the parent was the
      root, and the new sibling is the parent's new right child. */
  method Case1Left(ns: seq<NodeRec>, w: int, root: int, ghost ctx: seq<Frame>, ghost s: Tree)
    returns (ns': seq<NodeRec>, w': int, root': int)
    requires DelInv(ctx, s) && ctx[0].dir == Left && IsRed(ctx[0].sib)
    requires Z(ctx, s, ns) && Distinct(Plug(ctx, s)) && w == ctx[0].sib.id && root == RootId(Plug(ctx, s))
    ensures |ns'| == |ns| && Z(Case1L(ctx), s, ns')
    ensures Keys(Plug(Case1L(ctx), s)) == Keys(Plug(ctx, s)) && IdSeq(Plug(Case1L(ctx), s)) == IdSeq(Plug(ctx, s))
    ensures w' == RootId(Case1L(ctx)[0].sib) && root' == RootId(Plug(Case1L(ctx), s))
  {
    SibFacts(ctx, s, ns);
    var wp := ns[w].parent;
    ns' := ns[w := ns[w].(color := Black)];
    ns' := ns'[wp := ns'[wp].(color := Red)];
    ghost var p2 := Case1Colored(ctx, s);
    Case1Recolor(ctx, s, ns, ns');
    ns' := LeftRotatePlus(ns', wp, ctx[1..], p2);
    Case1LDown(ctx, s, ns');
    var wl := ns'[w].left;
    root' := if root == wl then w else root;
    w' := ns'[wl].right;
    PlugCongruent(ctx[1..], Plug1(ctx[0], s), RotL(p2));
    RootAfter(ctx[1..], Plug1(ctx[0], s), RotL(p2));
  }

  /** The mirror: x a right child. */
  method Case1Right(ns: seq<NodeRec>, w: int, root: int, ghost ctx: seq<Frame>, ghost s: Tree)
    returns (ns': seq<NodeRec>, w': int, root': int)
    requires DelInv(ctx, s) && ctx[0].dir == Right && IsRed(ctx[0].sib)
    requires Z(ctx, s, ns) && Distinct(Plug(ctx, s)) && w == ctx[0].sib.id && root == RootId(Plug(ctx, s))
    ensures |ns'| == |ns| && Z(Case1R(ctx), s, ns')
    ensures Keys(Plug(Case1R(ctx), s)) == Keys(Plug(ctx, s)) && IdSeq(Plug(Case1R(ctx), s)) == IdSeq(Plug(ctx, s))
    ensures w' == RootId(Case1R(ctx)[0].sib) && root' == RootId(Plug(Case1R(ctx), s))
  {
    SibFacts(ctx, s, ns);
    var wp := ns[w].parent;
    ns' := ns[w := ns[w].(color := Black)];
    ns' := ns'[wp := ns'[wp].(color := Red)];
    ghost var p2 := Case1Colored(ctx, s);
    Case1Recolor(ctx, s, ns, ns');
    ns' := RightRotatePlus(ns', wp, ctx[1..], p2);
    Case1RDown(ctx, s, ns');
    var wr := ns'[w].right;
    root' := if root == wr then w else root;
    w' := ns'[wr].left;
    PlugCongruent(ctx[1..], Plug1(ctx[0], s), RotR(p2));
    RootAfter(ctx[1..], Plug1(ctx[0], s), RotR(p2));
  }

  // ---------------------------------------------------------------------------
  // Case 2: a black sibling with black children

  /** Turning the sibling red moves the focus up to x's parent. */
  lemma {:induction false} Case2Recolor(ctx: seq<Frame>, s: Tree, ns: seq<NodeRec>, ns': seq<NodeRec>)
    requires ctx != [] && ctx[0].sib.Node? && Z(ctx, s, ns) && Distinct(Plug(ctx, s))
    requires 0 < ctx[0].sib.id < |ns| && ns' == ns[ctx[0].sib.id := ns[ctx[0].sib.id].(color := Red)]
    ensures Z(ctx[1..], Case2Up(ctx, s), ns')
    ensures Keys(Plug(ctx[1..], Case2Up(ctx, s))) == Keys(Plug(ctx, s))
    ensures IdSeq(Plug(ctx[1..], Case2Up(ctx, s))) == IdSeq(Plug(ctx, s))
    ensures RootId(Plug(ctx[1..], Case2Up(ctx, s))) == RootId(Plug(ctx, s))
  {
    var p := Plug1(ctx[0], s);
    ZUpExact(ctx, s, ns);
    if ctx[0].dir == Left {
      RecolorRightZ(ctx[1..], p, ns, Red);
      assert p.(right := Recolor(ctx[0].sib, Red)) == Case2Up(ctx, s);
    } else {
      RecolorLeftZ(ctx[1..], p, ns, Red);
      assert p.(left := Recolor(ctx[0].sib, Red)) == Case2Up(ctx, s);
    }
    RootSame(ctx[1..], p, Case2Up(ctx, s));
  }

  /** Case 2: w turns red and x becomes its parent.  When that parent is the
      root or red, it is coloured black and the loop ends with a red-black
      tree; otherwise the loop goes on one level up. */
  method Case2(ns: seq<NodeRec>, w: int, root: int, ghost ctx: seq<Frame>, ghost s: Tree)
    returns (ns': seq<NodeRec>, x: int, done: bool, ghost t': Tree)
    requires DelInv(ctx, s) && ctx[0].sib.Node? && !IsRed(ctx[0].sib)
    requires !IsRed(ctx[0].sib.left) && !IsRed(ctx[0].sib.right)
    requires Z(ctx, s, ns) && Distinct(Plug(ctx, s)) && w == ctx[0].sib.id && root == RootId(Plug(ctx, s))
    ensures |ns'| == |ns| && x == ctx[0].id
    ensures done <==> ctx[0].color == Red || ctx[1..] == []
    ensures done ==> Holds(t', ns') && RedBlackTree(t')
    ensures done ==> Keys(t') == Keys(Plug(ctx, s)) && IdSeq(t') == IdSeq(Plug(ctx, s))
    ensures !done ==> Z(ctx[1..], Case2Up(ctx, s), ns') && DelInv(ctx[1..], Case2Up(ctx, s))
    ensures Keys(Plug(ctx[1..], Case2Up(ctx, s))) == Keys(Plug(ctx, s))
    ensures IdSeq(Plug(ctx[1..], Case2Up(ctx, s))) == IdSeq(Plug(ctx, s))
    ensures RootId(Plug(ctx[1..], Case2Up(ctx, s))) == root
  {
    SibFacts(ctx, s, ns);
    ns' := ns[w := ns[w].(color := Red)];
    ghost var u := Case2Up(ctx, s);
    t' := Plug(ctx[1..], u);
    Case2Recolor(ctx, s, ns, ns');
    x := ns'[w].parent;
    GuardFacts(ctx[1..], u, ns', root);
    assert Matches(u, PId(ctx[1..]), ns');
    done := x == root || ns'[x].color == Red;
    DelCase2(ctx, s);
    if done {
      RecolorZ(ctx[1..], u, ns', Black);
      ns' := ns'[x := ns'[x].(color := Black)];
      t' := Plug(ctx[1..], Recolor(u, Black));
      ZHolds(ctx[1..], Recolor(u, Black), ns');
    }
  }

  // ---------------------------------------------------------------------------
  // Cases 3 and 4: a black sibling with a red child

  /** The zipper focused at x's sibling: x's parent becomes the innermost
      frame, on the other side. */
  function SibCtx(ctx: seq<Frame>, s: Tree): seq<Frame>
    requires ctx != []
  {
    var p := Plug1(ctx[0], s);
    [if ctx[0].dir == Left then DownR(p) else DownL(p)] + ctx[1..]
  }

  /** Moving the focus between x and its sibling `v`. */
  lemma {:induction false} ZSib(ctx: seq<Frame>, s: Tree, v: Tree, ns: seq<NodeRec>)
    requires ctx != []
    ensures Z(ctx[0 := ctx[0].(sib := v)], s, ns) <==> Z(SibCtx(ctx, s), v, ns)
    ensures Plug(ctx[0 := ctx[0].(sib := v)], s) == Plug(SibCtx(ctx, s), v)
  {
    var c, c1 := ctx[0 := ctx[0].(sib := v)], SibCtx(ctx, s);
    assert c[1..] == ctx[1..] && c1[1..] == ctx[1..];
    assert Plug1(c[0], s) == Plug1(c1[0], v);
    ZUpExact(c, s, ns);
    ZUpExact(c1, v, ns);
  }

  /** The recolourings of case 3 with x a left child, in the sibling zipper. */
  lemma {:induction false} Case3LRecolor(ctx: seq<Frame>, s: Tree, ns: seq<NodeRec>, ns': seq<NodeRec>)
    requires ctx != [] && ctx[0].dir == Left && ctx[0].sib.Node? && ctx[0].sib.left.Node?
    requires Z(ctx, s, ns) && Distinct(Plug(ctx, s))
    requires 0 < ctx[0].sib.id < |ns| && 0 < ctx[0].sib.left.id < |ns|
    requires ns' == ns[ctx[0].sib.left.id := ns[ctx[0].sib.left.id].(color := Black)][ctx[0].sib.id := ns[ctx[0].sib.id].(color := Red)]
    ensures Z(SibCtx(ctx, s), ctx[0].sib.(color := Red, left := Recolor(ctx[0].sib.left, Black)), ns')
    ensures IdSeq(Plug(SibCtx(ctx, s), ctx[0].sib.(color := Red, left := Recolor(ctx[0].sib.left, Black)))) == IdSeq(Plug(ctx, s))
  {
    var w := ctx[0].sib;
    ZSib(ctx, s, w, ns);
    assert ctx[0 := ctx[0].(sib := w)] == ctx;
    var c1 := SibCtx(ctx, s);
    RecolorLeftZ(c1, w, ns, Black);
    var w1 := w.(left := Recolor(w.left, Black));
    RecolorZ(c1, w1, ns[w.left.id := ns[w.left.id].(color := Black)], Red);
    assert Recolor(w1, Red) == w.(color := Red, left := Recolor(w.left, Black));
  }

  lemma {:induction false} Case3RRecolor(ctx: seq<Frame>, s: Tree, ns: seq<NodeRec>, ns': seq<NodeRec>)
    requires ctx != [] && ctx[0].dir == Right && ctx[0].sib.Node? && ctx[0].sib.right.Node?
    requires Z(ctx, s, ns) && Distinct(Plug(ctx, s))
    requires 0 < ctx[0].sib.id < |ns| && 0 < ctx[0].sib.right.id < |ns|
    requires ns' == ns[ctx[0].sib.right.id := ns[ctx[0].sib.right.id].(color := Black)][ctx[0].sib.id := ns[ctx[0].sib.id].(color := Red)]
    ensures Z(SibCtx(ctx, s), ctx[0].sib.(color := Red, right := Recolor(ctx[0].sib.right, Black)), ns')
    ensures IdSeq(Plug(SibCtx(ctx, s), ctx[0].sib.(color := Red, right := Recolor(ctx[0].sib.right, Black)))) == IdSeq(Plug(ctx, s))
  {
    var w := ctx[0].sib;
    ZSib(ctx, s, w, ns);
    assert ctx[0 := ctx[0].(sib := w)] == ctx;
    var c1 := SibCtx(ctx, s);
    RecolorRightZ(c1, w, ns, Black);
    var w1 := w.(right := Recolor(w.right, Black));
    RecolorZ(c1, w1, ns[w.right.id := ns[w.right.id].(color := Black)], Red);
    assert Recolor(w1, Red) == w.(color := Red, right := Recolor(w.right, Black));
  }

  /** The children of a subtree's root record it as their parent. */
  lemma {:induction false} ChildParents(v: Tree, pid: int, ns: seq<NodeRec>)
    requires v.Node? && Matches(v, pid, ns)
    ensures v.right.Node? ==> 0 < v.right.id < |ns| && ns[v.right.id].parent == v.id
    ensures v.left.Node? ==> 0 < v.left.id < |ns| && ns[v.left.id].parent == v.id
  {
  }

  /** Case 3 with x a left child: w's left child turns black, w red, and a
      right rotation at w; the new sibling is w's new parent. */
  method Case3Left(ns: seq<NodeRec>, w: int, ghost ctx: seq<Frame>, ghost s: Tree) returns (ns': seq<NodeRec>, w': int)
    requires ctx != [] && ctx[0].dir == Left && ctx[0].sib.Node? && ctx[0].sib.left.Node?
    requires Z(ctx, s, ns) && Distinct(Plug(ctx, s)) && w == ctx[0].sib.id
    ensures |ns'| == |ns| && Z(ctx[0 := ctx[0].(sib := Case3L(ctx[0].sib))], s, ns')
    ensures Keys(Plug(ctx[0 := ctx[0].(sib := Case3L(ctx[0].sib))], s)) == Keys(Plug(ctx, s))
    ensures IdSeq(Plug(ctx[0 := ctx[0].(sib := Case3L(ctx[0].sib))], s)) == IdSeq(Plug(ctx, s))
    ensures w' == Case3L(ctx[0].sib).id
  {
    SibFacts(ctx, s, ns);
    var wl := ns[w].left;
    ns' := ns[wl := ns[wl].(color := Black)];
    ns' := ns'[w := ns'[w].(color := Red)];
    ghost var w2 := ctx[0].sib.(color := Red, left := Recolor(ctx[0].sib.left, Black));
    Case3LRecolor(ctx, s, ns, ns');
    ns' := RightRotatePlus(ns', w, SibCtx(ctx, s), w2);
    ZSib(ctx, s, RotR(w2), ns');
    ChildParents(RotR(w2), PId(SibCtx(ctx, s)), ns');
    w' := ns'[w].parent;
    PlugCongruent(SibCtx(ctx, s), w2, RotR(w2));
    ZSib(ctx, s, ctx[0].sib, ns);
    assert ctx[0 := ctx[0].(sib := ctx[0].sib)] == ctx;
    PlugCongruent(SibCtx(ctx, s), ctx[0].sib, w2);
  }

  method Case3Right(ns: seq<NodeRec>, w: int, ghost ctx: seq<Frame>, ghost s: Tree) returns (ns': seq<NodeRec>, w': int)
    requires ctx != [] && ctx[0].dir == Right && ctx[0].sib.Node? && ctx[0].sib.right.Node?
    requires Z(ctx, s, ns) && Distinct(Plug(ctx, s)) && w == ctx[0].sib.id
    ensures |ns'| == |ns| && Z(ctx[0 := ctx[0].(sib := Case3R(ctx[0].sib))], s, ns')
    ensures Keys(Plug(ctx[0 := ctx[0].(sib := Case3R(ctx[0].sib))], s)) == Keys(Plug(ctx, s))
    ensures IdSeq(Plug(ctx[0 := ctx[0].(sib := Case3R(ctx[0].sib))], s)) == IdSeq(Plug(ctx, s))
    ensures w' == Case3R(ctx[0].sib).id
  {
    SibFacts(ctx, s, ns);
    var wr := ns[w].right;
    ns' := ns[wr := ns[wr].(color := Black)];
    ns' := ns'[w := ns'[w].(color := Red)];
    ghost var w2 := ctx[0].sib.(color := Red, right := Recolor(ctx[0].sib.right, Black));
    Case3RRecolor(ctx, s, ns, ns');
    ns' := LeftRotatePlus(ns', w, SibCtx(ctx, s), w2);
    ZSib(ctx, s, RotL(w2), ns');
    ChildParents(RotL(w2), PId(SibCtx(ctx, s)), ns');
    w' := ns'[w].parent;
    PlugCongruent(SibCtx(ctx, s), w2, RotL(w2));
    ZSib(ctx, s, ctx[0].sib, ns);
    assert ctx[0 := ctx[0].(sib := ctx[0].sib)] == ctx;
    PlugCongruent(SibCtx(ctx, s), ctx[0].sib, w2);
  }

  /** Recolouring x's sibling, one of the sibling's children, or x's parent
      keeps the zipper at x. */
  lemma {:induction false} RecolorSibZ(ctx: seq<Frame>, s: Tree, ns: seq<NodeRec>, c: Color)
    requires ctx != [] && ctx[0].sib.Node? && Z(ctx, s, ns) && Distinct(Plug(ctx, s))
    ensures 0 < ctx[0].sib.id < |ns|
    ensures Z(ctx[0 := ctx[0].(sib := Recolor(ctx[0].sib, c))], s, ns[ctx[0].sib.id := ns[ctx[0].sib.id].(color := c)])
    ensures IdSeq(Plug(ctx[0 := ctx[0].(sib := Recolor(ctx[0].sib, c))], s)) == IdSeq(Plug(ctx, s))
  {
    var w := ctx[0].sib;
    ZSib(ctx, s, w, ns);
    assert ctx[0 := ctx[0].(sib := w)] == ctx;
    RecolorZ(SibCtx(ctx, s), w, ns, c);
    ZSib(ctx, s, Recolor(w, c), ns[w.id := ns[w.id].(color := c)]);
  }

  lemma {:induction false} RecolorSibRightZ(ctx: seq<Frame>, s: Tree, ns: seq<NodeRec>, c: Color)
    requires ctx != [] && ctx[0].sib.Node? && ctx[0].sib.right.Node? && Z(ctx, s, ns) && Distinct(Plug(ctx, s))
    ensures 0 < ctx[0].sib.right.id < |ns|
    ensures Z(ctx[0 := ctx[0].(sib := ctx[0].sib.(right := Recolor(ctx[0].sib.right, c)))], s,
              ns[ctx[0].sib.right.id := ns[ctx[0].sib.right.id].(color := c)])
    ensures IdSeq(Plug(ctx[0 := ctx[0].(sib := ctx[0].sib.(right := Recolor(ctx[0].sib.right, c)))], s)) == IdSeq(Plug(ctx, s))
  {
    var w := ctx[0].sib;
    ZSib(ctx, s, w, ns);
    assert ctx[0 := ctx[0].(sib := w)] == ctx;
    RecolorRightZ(SibCtx(ctx, s), w, ns, c);
    ZSib(ctx, s, w.(right := Recolor(w.right, c)), ns[w.right.id := ns[w.right.id].(color := c)]);
  }

  lemma {:induction false} RecolorSibLeftZ(ctx: seq<Frame>, s: Tree, ns: seq<NodeRec>, c: Color)
    requires ctx != [] && ctx[0].sib.Node? && ctx[0].sib.left.Node? && Z(ctx, s, ns) && Distinct(Plug(ctx, s))
    ensures 0 < ctx[0].sib.left.id < |ns|
    ensures Z(ctx[0 := ctx[0].(sib := ctx[0].sib.(left := Recolor(ctx[0].sib.left, c)))], s,
              ns[ctx[0].sib.left.id := ns[ctx[0].sib.left.id].(color := c)])
    ensures IdSeq(Plug(ctx[0 := ctx[0].(sib := ctx[0].sib.(left := Recolor(ctx[0].sib.left, c)))], s)) == IdSeq(Plug(ctx, s))
  {
    var w := ctx[0].sib;
    ZSib(ctx, s, w, ns);
    assert ctx[0 := ctx[0].(sib := w)] == ctx;
    RecolorLeftZ(SibCtx(ctx, s), w, ns, c);
    ZSib(ctx, s, w.(left := Recolor(w.left, c)), ns[w.left.id := ns[w.left.id].(color := c)]);
  }

  lemma {:induction false} RecolorParentZ(ctx: seq<Frame>, s: Tree, ns: seq<NodeRec>, c: Color)
    requires ctx != [] && Z(ctx, s, ns) && Distinct(Plug(ctx, s))
    ensures 0 < ctx[0].id < |ns|
    ensures Z(ctx[0 := ctx[0].(color := c)], s, ns[ctx[0].id := ns[ctx[0].id].(color := c)])
    ensures IdSeq(Plug(ctx[0 := ctx[0].(color := c)], s)) == IdSeq(Plug(ctx, s))
  {
    var c1 := ctx[0 := ctx[0].(color := c)];
    assert c1[1..] == ctx[1..];
    ZUpExact(ctx, s, ns);
    RecolorZ(ctx[1..], Plug1(ctx[0], s), ns, c);
    assert Recolor(Plug1(ctx[0], s), c) == Plug1(c1[0], s);
    ZUpExact(c1, s, ns[ctx[0].id := ns[ctx[0].id].(color := c)]);
  }

  /** The subtree at x's parent after case 4's recolourings, before the
      rotation: w takes the parent's colour, the parent and w's far child
      are black. */
  function Case4Colored(f: Frame, s: Tree): Tree
    requires f.sib.Node? && (if f.dir == Left then f.sib.right.Node? else f.sib.left.Node?)
  {
    if f.dir == Left then Node(Black, s, f.id, f.key, f.sib.(color := f.color, right := Recolor(f.sib.right, Black)))
    else Node(Black, f.sib.(color := f.color, left := Recolor(f.sib.left, Black)), f.id, f.key, s)
  }

  /** Case 4's recolourings keep the keys and nodes in order. */
  lemma {:induction false} Case4Keys(f: Frame, s: Tree)
    requires f.sib.Node? && (if f.dir == Left then f.sib.right.Node? else f.sib.left.Node?)
    ensures Keys(Case4Colored(f, s)) == Keys(Plug1(f, s)) && IdSeq(Case4Colored(f, s)) == IdSeq(Plug1(f, s))
  {
    var w := f.sib;
    if f.dir == Left {
      assert Keys(Recolor(w.right, Black)) == Keys(w.right) && IdSeq(Recolor(w.right, Black)) == IdSeq(w.right);
    } else {
      assert Keys(Recolor(w.left, Black)) == Keys(w.left) && IdSeq(Recolor(w.left, Black)) == IdSeq(w.left);
    }
  }

  /** The first two recolourings of case 4 on the records: w takes the
      parent's colour, then the parent turns black. */
  lemma {:induction false} Case4RecolorTop(ctx: seq<Frame>, s: Tree, ns: seq<NodeRec>)
    requires ctx != [] && ctx[0].sib.Node? && Z(ctx, s, ns) && Distinct(Plug(ctx, s))
    ensures 0 < ctx[0].id < |ns| && 0 < ctx[0].sib.id < |ns|
    ensures var ns1 := ns[ctx[0].sib.id := ns[ctx[0].sib.id].(color := ctx[0].color)];
      Z(ctx[0 := ctx[0].(color := Black, sib := Recolor(ctx[0].sib, ctx[0].color))], s,
        ns1[ctx[0].id := ns1[ctx[0].id].(color := Black)])
    ensures IdSeq(Plug(ctx[0 := ctx[0].(color := Black, sib := Recolor(ctx[0].sib, ctx[0].color))], s)) == IdSeq(Plug(ctx, s))
  {
    var f, w := ctx[0], ctx[0].sib;
    RecolorSibZ(ctx, s, ns, f.color);
    var c1 := ctx[0 := f.(sib := Recolor(w, f.color))];
    RecolorParentZ(c1, s, ns[w.id := ns[w.id].(color := f.color)], Black);
    assert c1[0 := c1[0].(color := Black)] == ctx[0 := ctx[0].(color := Black, sib := Recolor(ctx[0].sib, ctx[0].color))];
  }

  /** The last recolouring of case 4, w's far child, and the move up to the
      parent; then all three together, in the source's order. */
  lemma {:induction false} Case4RecolorFarL(ctx: seq<Frame>, s: Tree, ns: seq<NodeRec>)
    requires ctx != [] && ctx[0].dir == Left && ctx[0].sib.Node? && ctx[0].sib.right.Node?
    requires Z(ctx, s, ns) && Distinct(Plug(ctx, s))
    ensures 0 < ctx[0].sib.right.id < |ns|
    ensures Z(ctx[1..], Plug1(ctx[0].(sib := ctx[0].sib.(right := Recolor(ctx[0].sib.right, Black))), s),
              ns[ctx[0].sib.right.id := ns[ctx[0].sib.right.id].(color := Black)])
    ensures IdSeq(Plug(ctx[1..], Plug1(ctx[0].(sib := ctx[0].sib.(right := Recolor(ctx[0].sib.right, Black))), s))) == IdSeq(Plug(ctx, s))
  {
    var f, w := ctx[0], ctx[0].sib;
    RecolorSibRightZ(ctx, s, ns, Black);
    var c3 := ctx[0 := f.(sib := w.(right := Recolor(w.right, Black)))];
    assert c3[1..] == ctx[1..];
    ZUpExact(c3, s, ns[w.right.id := ns[w.right.id].(color := Black)]);
  }

  lemma {:induction false} Case4RecolorFarR(ctx: seq<Frame>, s: Tree, ns: seq<NodeRec>)
    requires ctx != [] && ctx[0].dir == Right && ctx[0].sib.Node? && ctx[0].sib.left.Node?
    requires Z(ctx, s, ns) && Distinct(Plug(ctx, s))
    ensures 0 < ctx[0].sib.left.id < |ns|
    ensures Z(ctx[1..], Plug1(ctx[0].(sib := ctx[0].sib.(left := Recolor(ctx[0].sib.left, Black))), s),
              ns[ctx[0].sib.left.id := ns[ctx[0].sib.left.id].(color := Black)])
    ensures IdSeq(Plug(ctx[1..], Plug1(ctx[0].(sib := ctx[0].sib.(left := Recolor(ctx[0].sib.left, Black))), s))) == IdSeq(Plug(ctx, s))
  {
    var f, w := ctx[0], ctx[0].sib;
    RecolorSibLeftZ(ctx, s, ns, Black);
    var c3 := ctx[0 := f.(sib := w.(left := Recolor(w.left, Black)))];
    assert c3[1..] == ctx[1..];
    ZUpExact(c3, s, ns[w.left.id := ns[w.left.id].(color := Black)]);
  }

  lemma {:induction false} Case4RecolorL(ctx: seq<Frame>, s: Tree, ns: seq<NodeRec>, ns1: seq<NodeRec>, ns2: seq<NodeRec>, ns': seq<NodeRec>)
    requires ctx != [] && ctx[0].dir == Left && ctx[0].sib.Node? && ctx[0].sib.right.Node?
    requires Z(ctx, s, ns) && Distinct(Plug(ctx, s))
    requires 0 < ctx[0].id < |ns| && 0 < ctx[0].sib.id < |ns| && 0 < ctx[0].sib.right.id < |ns|
    requires ns1 == ns[ctx[0].sib.id := ns[ctx[0].sib.id].(color := ctx[0].color)]
    requires ns2 == ns1[ctx[0].id := ns1[ctx[0].id].(color := Black)]
    requires ns' == ns2[ctx[0].sib.right.id := ns2[ctx[0].sib.right.id].(color := Black)]
    ensures Z(ctx[1..], Case4Colored(ctx[0], s), ns') && Distinct(Plug(ctx[1..], Case4Colored(ctx[0], s)))
    ensures IdSeq(Plug(ctx[1..], Case4Colored(ctx[0], s))) == IdSeq(Plug(ctx, s))
  {
    Case4RecolorTop(ctx, s, ns);
    var c2 := ctx[0 := ctx[0].(color := Black, sib := Recolor(ctx[0].sib, ctx[0].color))];
    Case4RecolorFarL(c2, s, ns2);
    assert c2[1..] == ctx[1..];
    assert Plug1(c2[0].(sib := c2[0].sib.(right := Recolor(c2[0].sib.right, Black))), s) == Case4Colored(ctx[0], s);
  }

  lemma {:induction false} Case4RecolorR(ctx: seq<Frame>, s: Tree, ns: seq<NodeRec>, ns1: seq<NodeRec>, ns2: seq<NodeRec>, ns': seq<NodeRec>)
    requires ctx != [] && ctx[0].dir == Right && ctx[0].sib.Node? && ctx[0].sib.left.Node?
    requires Z(ctx, s, ns) && Distinct(Plug(ctx, s))
    requires 0 < ctx[0].id < |ns| && 0 < ctx[0].sib.id < |ns| && 0 < ctx[0].sib.left.id < |ns|
    requires ns1 == ns[ctx[0].sib.id := ns[ctx[0].sib.id].(color := ctx[0].color)]
    requires ns2 == ns1[ctx[0].id := ns1[ctx[0].id].(color := Black)]
    requires ns' == ns2[ctx[0].sib.left.id := ns2[ctx[0].sib.left.id].(color := Black)]
    ensures Z(ctx[1..], Case4Colored(ctx[0], s), ns') && Distinct(Plug(ctx[1..], Case4Colored(ctx[0], s)))
    ensures IdSeq(Plug(ctx[1..], Case4Colored(ctx[0], s))) == IdSeq(Plug(ctx, s))
  {
    Case4RecolorTop(ctx, s, ns);
    var c2 := ctx[0 := ctx[0].(color := Black, sib := Recolor(ctx[0].sib, ctx[0].color))];
    Case4RecolorFarR(c2, s, ns2);
    assert c2[1..] == ctx[1..];
    assert Plug1(c2[0].(sib := c2[0].sib.(left := Recolor(c2[0].sib.left, Black))), s) == Case4Colored(ctx[0], s);
  }

  /** Case 4 with x a left child: w takes its parent's colour, the parent and
      w's right child turn black, and a left rotation at the parent ends the
      loop with a red-black tree.  The right child is read after case 3 has
      run. */
  method Case4Left(ns: seq<NodeRec>, w: int, ghost ctx: seq<Frame>, ghost s: Tree) returns (ns': seq<NodeRec>, ghost t': Tree)
    requires DelInv(ctx, s) && ctx[0].dir == Left && ctx[0].sib.Node? && !IsRed(ctx[0].sib) && IsRed(ctx[0].sib.right)
    requires Z(ctx, s, ns) && Distinct(Plug(ctx, s)) && w == ctx[0].sib.id
    ensures |ns'| == |ns| && Holds(t', ns') && RedBlackTree(t')
    ensures Keys(t') == Keys(Plug(ctx, s)) && IdSeq(t') == IdSeq(Plug(ctx, s))
  {
    SibFacts(ctx, s, ns);
    var wp := ns[w].parent;
    var ns1 := ns[w := ns[w].(color := ns[wp].color)];
    var ns2 := ns1[wp := ns1[wp].(color := Black)];
    var wr := ns2[w].right;
    ns' := ns2[wr := ns2[wr].(color := Black)];
    ghost var q := Case4Colored(ctx[0], s);
    Case4RecolorL(ctx, s, ns, ns1, ns2, ns');
    Case4Keys(ctx[0], s);
    ns' := LeftRotatePlus(ns', wp, ctx[1..], q);
    t' := Plug(ctx[1..], Case4L(ctx[0], s));
    assert Case4L(ctx[0], s) == RotL(q);
    ZHolds(ctx[1..], RotL(q), ns');
    DelCase4L(ctx, s);
    PlugCongruent(ctx[1..], Plug1(ctx[0], s), RotL(q));
  }

  method Case4Right(ns: seq<NodeRec>, w: int, ghost ctx: seq<Frame>, ghost s: Tree) returns (ns': seq<NodeRec>, ghost t': Tree)
    requires DelInv(ctx, s) && ctx[0].dir == Right && ctx[0].sib.Node? && !IsRed(ctx[0].sib) && IsRed(ctx[0].sib.left)
    requires Z(ctx, s, ns) && Distinct(Plug(ctx, s)) && w == ctx[0].sib.id
    ensures |ns'| == |ns| && Holds(t', ns') && RedBlackTree(t')
    ensures Keys(t') == Keys(Plug(ctx, s)) && IdSeq(t') == IdSeq(Plug(ctx, s))
  {
    SibFacts(ctx, s, ns);
    var wp := ns[w].parent;
    var ns1 := ns[w := ns[w].(color := ns[wp].color)];
    var ns2 := ns1[wp := ns1[wp].(color := Black)];
    var wl := ns2[w].left;
    ns' := ns2[wl := ns2[wl].(color := Black)];
    ghost var q := Case4Colored(ctx[0], s);
    Case4RecolorR(ctx, s, ns, ns1, ns2, ns');
    Case4Keys(ctx[0], s);
    ns' := RightRotatePlus(ns', wp, ctx[1..], q);
    t' := Plug(ctx[1..], Case4R(ctx[0], s));
    assert Case4R(ctx[0], s) == RotR(q);
    ZHolds(ctx[1..], RotR(q), ns');
    DelCase4R(ctx, s);
    PlugCongruent(ctx[1..], Plug1(ctx[0], s), RotR(q));
  }

  /** Cases 3 and 4 with x a left child: when w's right child `wr` (as the
      loop read it) is absent or black, case 3 first; then case 4. */
  method Case34Left(ns: seq<NodeRec>, w: int, wr: int, ghost ctx: seq<Frame>, ghost s: Tree) returns (ns': seq<NodeRec>, ghost t': Tree)
    requires DelInv(ctx, s) && ctx[0].dir == Left && ctx[0].sib.Node? && !IsRed(ctx[0].sib)
    requires IsRed(ctx[0].sib.left) || IsRed(ctx[0].sib.right)
    requires Z(ctx, s, ns) && Distinct(Plug(ctx, s)) && w == ctx[0].sib.id && wr == RootId(ctx[0].sib.right)
    ensures |ns'| == |ns| && Holds(t', ns') && RedBlackTree(t')
    ensures Keys(t') == Keys(Plug(ctx, s)) && IdSeq(t') == IdSeq(Plug(ctx, s))
  {
    SibFacts(ctx, s, ns);
    if wr == NIL || ns[wr].color == Black {
      DelCase3L(ctx, s);
      var n, w1 := Case3Left(ns, w, ctx, s);
      ns', t' := Case4Left(n, w1, ctx[0 := ctx[0].(sib := Case3L(ctx[0].sib))], s);
    } else {
      ns', t' := Case4Left(ns, w, ctx, s);
    }
  }

  method Case34Right(ns: seq<NodeRec>, w: int, wl: int, ghost ctx: seq<Frame>, ghost s: Tree) returns (ns': seq<NodeRec>, ghost t': Tree)
    requires DelInv(ctx, s) && ctx[0].dir == Right && ctx[0].sib.Node? && !IsRed(ctx[0].sib)
    requires IsRed(ctx[0].sib.left) || IsRed(ctx[0].sib.right)
    requires Z(ctx, s, ns) && Distinct(Plug(ctx, s)) && w == ctx[0].sib.id && wl == RootId(ctx[0].sib.left)
    ensures |ns'| == |ns| && Holds(t', ns') && RedBlackTree(t')
    ensures Keys(t') == Keys(Plug(ctx, s)) && IdSeq(t') == IdSeq(Plug(ctx, s))
  {
    SibFacts(ctx, s, ns);
    if wl == NIL || ns[wl].color == Black {
      DelCase3R(ctx, s);
      var n, w1 := Case3Right(ns, w, ctx, s);
      ns', t' := Case4Right(n, w1, ctx[0 := ctx[0].(sib := Case3R(ctx[0].sib))], s);
    } else {
      ns', t' := Case4Right(ns, w, ctx, s);
    }
  }

  // ---------------------------------------------------------------------------
  // The fixup

  /** The loop's state: x (absent, at the focus) is one black short, w is
      its sibling and root the root. */
  ghost predicate Pending(ns: seq<NodeRec>, w: int, root: int, ctx: seq<Frame>, s: Tree)
  {
    DelInv(ctx, s) && Z(ctx, s, ns) && Distinct(Plug(ctx, s)) &&
    w == RootId(ctx[0].sib) && root == RootId(Plug(ctx, s))
  }

  /** One pass of the loop with x a left child: case 1 if w is red, then case
      2 if w's children are both black (after which either the loop ends or x
      moves up to its parent), or else cases 3 and 4, which end the loop. */
  method FixupLeft(ns: seq<NodeRec>, w: int, root: int, ghost ctx: seq<Frame>, ghost s: Tree)
    returns (ns': seq<NodeRec>, w': int, root': int, done: bool, ghost ctx': seq<Frame>, ghost s': Tree, ghost t': Tree)
    requires Pending(ns, w, root, ctx, s) && ctx[0].dir == Left
    ensures |ns'| == |ns|
    ensures done ==> Holds(t', ns') && RedBlackTree(t') && Keys(t') == Keys(Plug(ctx, s)) && IdSeq(t') == IdSeq(Plug(ctx, s))
    ensures !done ==> (Pending(ns', w', root', ctx', s') && |ctx'| < |ctx| &&
      Keys(Plug(ctx', s')) == Keys(Plug(ctx, s)) && IdSeq(Plug(ctx', s')) == IdSeq(Plug(ctx, s)))
  {
    ctx', s', t' := ctx, s, s;
    DelSibling(ctx, s);
    SibFacts(ctx, s, ns);
    ns', w', root' := ns, w, root;
    if ns[w].color == Red {
      DelCase1L(ctx, s);
      ns', w', root' := Case1Left(ns, w, root, ctx, s);
      ctx' := Case1L(ctx);
      DelSibling(ctx', s);
      SibFacts(ctx', s, ns');
    }
    var wl, wr := ns'[w'].left, ns'[w'].right;
    if (wl == NIL || ns'[wl].color == Black) && (wr == NIL || ns'[wr].color == Black) {
      var x;
      ns', x, done, t' := Case2(ns', w', root', ctx', s);
      if !done {
        FocusSibling(ctx'[1..], Case2Up(ctx', s), ns');
        w' := if IsLeftChild(ns', x) then ns'[ns'[x].parent].right else ns'[ns'[x].parent].left;
        ctx', s' := ctx'[1..], Case2Up(ctx', s);
      }
    } else {
      ns', t' := Case34Left(ns', w', wr, ctx', s);
      done := true;
    }
  }

  /** The mirror pass, x a right child. */
  method FixupRight(ns: seq<NodeRec>, w: int, root: int, ghost ctx: seq<Frame>, ghost s: Tree)
    returns (ns': seq<NodeRec>, w': int, root': int, done: bool, ghost ctx': seq<Frame>, ghost s': Tree, ghost t': Tree)
    requires Pending(ns, w, root, ctx, s) && ctx[0].dir == Right
    ensures |ns'| == |ns|
    ensures done ==> Holds(t', ns') && RedBlackTree(t') && Keys(t') == Keys(Plug(ctx, s)) && IdSeq(t') == IdSeq(Plug(ctx, s))
    ensures !done ==> (Pending(ns', w', root', ctx', s') && |ctx'| < |ctx| &&
      Keys(Plug(ctx', s')) == Keys(Plug(ctx, s)) && IdSeq(Plug(ctx', s')) == IdSeq(Plug(ctx, s)))
  {
    ctx', s', t' := ctx, s, s;
    DelSibling(ctx, s);
    SibFacts(ctx, s, ns);
    ns', w', root' := ns, w, root;
    if ns[w].color == Red {
      DelCase1R(ctx, s);
      ns', w', root' := Case1Right(ns, w, root, ctx, s);
      ctx' := Case1R(ctx);
      DelSibling(ctx', s);
      SibFacts(ctx', s, ns');
    }
    var wl, wr := ns'[w'].left, ns'[w'].right;
    if (wl == NIL || ns'[wl].color == Black) && (wr == NIL || ns'[wr].color == Black) {
      var x;
      ns', x, done, t' := Case2(ns', w', root', ctx', s);
      if !done {
        FocusSibling(ctx'[1..], Case2Up(ctx', s), ns');
        w' := if IsLeftChild(ns', x) then ns'[ns'[x].parent].right else ns'[ns'[x].parent].left;
        ctx', s' := ctx'[1..], Case2Up(ctx', s);
      }
    } else {
      ns', t' := Case34Right(ns', w', wl, ctx', s);
      done := true;
    }
  }

  /** rb_erase_fixup(root, x, w), called when the spliced-out node was black.
      A node x (necessarily red) is coloured black.  An absent x is one black
      short with sibling w, and the loop runs: a red sibling is turned black
      by case 1, a sibling with black children is turned red and the
      shortage moves up (case 2) until it reaches a red node or the root,
      which is coloured black; otherwise cases 3 and 4 restore the balance.
      The records then hold a red-black tree with the same keys and nodes. */
  method RbEraseFixup(ns: seq<NodeRec>, root: int, x: int, w: int, ghost ctx0: seq<Frame>, ghost s0: Tree)
    returns (ns': seq<NodeRec>, ghost t': Tree)
    requires Z(ctx0, s0, ns) && Distinct(Plug(ctx0, s0)) && root == RootId(Plug(ctx0, s0)) && x == RootId(s0)
    requires s0.Node? ==> RedBlackTree(Plug(ctx0, Recolor(s0, Black)))
    requires s0 == Nil ==> DelInv(ctx0, s0) && w == RootId(ctx0[0].sib)
    ensures |ns'| == |ns| && Holds(t', ns') && RedBlackTree(t')
    ensures Keys(t') == Keys(Plug(ctx0, s0)) && IdSeq(t') == IdSeq(Plug(ctx0, s0))
  {
    if x != NIL {
      RecolorZ(ctx0, s0, ns, Black);
      ns' := ns[x := ns[x].(color := Black)];
      t' := Plug(ctx0, Recolor(s0, Black));
      ZHolds(ctx0, Recolor(s0, Black), ns');
      return;
    }
    ns', t' := ns, s0;
    ghost var ctx, s := ctx0, s0;
    var w', root', done := w, root, false;
    while !done
      invariant |ns'| == |ns|
      invariant !done ==> (Pending(ns', w', root', ctx, s) &&
        Keys(Plug(ctx, s)) == Keys(Plug(ctx0, s0)) && IdSeq(Plug(ctx, s)) == IdSeq(Plug(ctx0, s0)))
      invariant done ==> Holds(t', ns') && RedBlackTree(t') && Keys(t') == Keys(Plug(ctx0, s0)) && IdSeq(t') == IdSeq(Plug(ctx0, s0))
      decreases !done, |ctx|
    {
      SibFacts(ctx, s, ns');
      if !IsLeftChild(ns', w') {
        ns', w', root', done, ctx, s, t' := FixupLeft(ns', w', root', ctx, s);
      } else {
        ns', w', root', done, ctx, s, t' := FixupRight(ns', w', root', ctx, s);
      }
    }
  }
}
