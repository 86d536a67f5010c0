/** The case analysis of rb_erase_fixup on tree values (Cormen et al.,
    Introduction to Algorithms, 3rd edition, section 13.4).  The focus `x`
    of a zipper is the subtree that lost a black node on its paths: it is
    an RB subtree, black or empty, one black short of what its context
    expects.  Its sibling `w` is the context's innermost sibling. */
module EraseCases {
  import opened Trees
  import opened RedBlack

  datatype Option<T> = None | Some(value: T)

  /** The loop invariant of the erase fixup. */
  predicate DelInv(ctx: seq<Frame>, s: Tree)
  {
    ctx != [] && RB(s) && !IsRed(s) && CtxOK(ctx, BlackHeight(s) + 1, false)
  }

  /** The sibling of a focus one black short is a proper RB subtree one
      black taller than the focus; when it is red, its parent is black and
      its children black. */
  lemma {:induction false} DelSibling(ctx: seq<Frame>, s: Tree)
    requires DelInv(ctx, s)
    ensures ctx[0].sib.Node? && RB(ctx[0].sib) && BlackHeight(ctx[0].sib) == BlackHeight(s) + 1
    ensures ctx[0].color == Red ==> !IsRed(ctx[0].sib)
    ensures IsRed(ctx[0].sib) ==> ctx[0].color == Black && !IsRed(ctx[0].sib.left) && !IsRed(ctx[0].sib.right)
  {
  }

  /** The red-black facts of a node, one level down. */
  lemma {:induction false} RBKids(t: Tree)
    requires RB(t) && t.Node?
    ensures RB(t.left) && RB(t.right) && BlackHeight(t.left) == BlackHeight(t.right)
    ensures BlackHeight(t) == BlackHeight(t.right) + Step(t.color)
    ensures t.color == Red ==> !IsRed(t.left) && !IsRed(t.right)
  {
  }

  // ---------------------------------------------------------------------------
  // Removing the spliced-out node

  /** The node `ys` removed by erase has at most one child `xs`, and the
      context `ctxX` of the removal is `ctxY` up to the identity and key of
      one frame (the one whose node y takes over).  A red `ys` had no child
      and the result is red-black; a black `ys` with a child had a red one,
      and recolouring it black gives a red-black tree; a black leaf leaves an
      empty focus one black short, the state the fixup loop starts from. */
  lemma {:induction false} DelStart(ctxY: seq<Frame>, ys: Tree, ctxX: seq<Frame>, xs: Tree)
    requires RedBlackTree(Plug(ctxY, ys)) && ys.Node? && SameShape(ctxY, ctxX)
    requires (ys.left == Nil && xs == ys.right) || (ys.right == Nil && xs == ys.left)
    ensures ys.color == Red ==> xs == Nil && RedBlackTree(Plug(ctxX, Nil))
    ensures ys.color == Black && xs.Node? ==> xs.color == Red && RedBlackTree(Plug(ctxX, Recolor(xs, Black)))
    ensures ys.color == Black && xs == Nil && ctxX != [] ==> DelInv(ctxX, Nil)
  {
    PlugRBInv(ctxY, ys);
    CtxOKShape(ctxY, ctxX, BlackHeight(ys), IsRed(ys));
    assert BlackHeight(xs) == 0;
    if ys.color == Red {
      CtxOKBlack(ctxX, BlackHeight(ys));
      PlugRB(ctxX, Nil);
    } else if xs.Node? {
      RBKids(xs);
      var b := Recolor(xs, Black);
      RBNode(Black, xs.left, xs.id, xs.key, xs.right);
      PlugRB(ctxX, b);
    }
  }

  // ---------------------------------------------------------------------------
  // Case 1: a red sibling

  /** The path after case 1 with x a left child: w, turned black, rotated
      above the parent, turned red; x's new sibling is w's old left child. */
  function Case1L(ctx: seq<Frame>): seq<Frame>
    requires ctx != [] && ctx[0].sib.Node?
  {
    var f, w := ctx[0], ctx[0].sib;
    [Frame(Left, Red, f.id, f.key, w.left), Frame(Left, Black, w.id, w.key, w.right)] + ctx[1..]
  }

  /** The mirror: x a right child. */
  function Case1R(ctx: seq<Frame>): seq<Frame>
    requires ctx != [] && ctx[0].sib.Node?
  {
    var f, w := ctx[0], ctx[0].sib;
    [Frame(Right, Red, f.id, f.key, w.right), Frame(Right, Black, w.id, w.key, w.left)] + ctx[1..]
  }

  /** Case 1 keeps the invariant and leaves x with a red parent and a black
      sibling, so one of the other cases ends the loop. */
  lemma {:induction false} DelCase1L(ctx: seq<Frame>, s: Tree)
    requires DelInv(ctx, s) && ctx[0].dir == Left && IsRed(ctx[0].sib)
    ensures DelInv(Case1L(ctx), s) && Case1L(ctx)[0].color == Red && !IsRed(Case1L(ctx)[0].sib)
  {
    var h := BlackHeight(s);
    var w, c1 := ctx[0].sib, Case1L(ctx);
    assert c1[1..] == [c1[1]] + ctx[1..] && c1[1..][1..] == ctx[1..];
    assert CtxOK(ctx[1..], h + 2, false);
    assert CtxOK(c1[1..], h + 1, true);
  }

  lemma {:induction false} DelCase1R(ctx: seq<Frame>, s: Tree)
    requires DelInv(ctx, s) && ctx[0].dir == Right && IsRed(ctx[0].sib)
    ensures DelInv(Case1R(ctx), s) && Case1R(ctx)[0].color == Red && !IsRed(Case1R(ctx)[0].sib)
  {
    var h := BlackHeight(s);
    var w, c1 := ctx[0].sib, Case1R(ctx);
    assert c1[1..] == [c1[1]] + ctx[1..] && c1[1..][1..] == ctx[1..];
    assert CtxOK(ctx[1..], h + 2, false);
    assert CtxOK(c1[1..], h + 1, true);
  }

  // ---------------------------------------------------------------------------
  // Case 2: a black sibling with black children

  /** After case 2 the sibling is red and the focus moves to the parent. */
  function Case2Up(ctx: seq<Frame>, s: Tree): Tree
    requires ctx != [] && ctx[0].sib.Node?
  {
    Plug1(ctx[0].(sib := Recolor(ctx[0].sib, Red)), s)
  }

  /** Case 2: with the sibling turned red the parent subtree is one black
      short.  A red parent, or the root, turned black ends the loop with a
      red-black tree; otherwise the parent is the new focus. */
  lemma {:induction false} DelCase2(ctx: seq<Frame>, s: Tree)
    requires DelInv(ctx, s) && ctx[0].sib.Node? && !IsRed(ctx[0].sib)
    requires !IsRed(ctx[0].sib.left) && !IsRed(ctx[0].sib.right)
    ensures (ctx[0].color == Red || ctx[1..] == []) ==> RedBlackTree(Plug(ctx[1..], Recolor(Case2Up(ctx, s), Black)))
    ensures !(ctx[0].color == Red || ctx[1..] == []) ==> DelInv(ctx[1..], Case2Up(ctx, s))
  {
    var h := BlackHeight(s);
    var f, w := ctx[0], ctx[0].sib;
    var w' := Recolor(w, Red);
    RBNode(Red, w.left, w.id, w.key, w.right);
    assert RB(w') && BlackHeight(w') == h;
    var p := Case2Up(ctx, s);
    var pb := Recolor(p, Black);
    if f.dir == Left {
      RBNode(Black, s, f.id, f.key, w');
    } else {
      RBNode(Black, w', f.id, f.key, s);
    }
    assert RB(pb) && BlackHeight(pb) == h + 1;
    if f.color == Red || ctx[1..] == [] {
      if f.color == Red { CtxOKBlack(ctx[1..], h + 1); }
      PlugRB(ctx[1..], pb);
    } else {
      assert p == pb;
    }
  }

  // ---------------------------------------------------------------------------
  // Cases 3 and 4: a black sibling with a red child

  /** Case 3 with x a left child: w's red left child turned black, w red,
      and a right rotation at w. */
  function Case3L(w: Tree): Tree
    requires w.Node? && w.left.Node?
  {
    RotR(w.(color := Red, left := Recolor(w.left, Black)))
  }

  function Case3R(w: Tree): Tree
    requires w.Node? && w.right.Node?
  {
    RotL(w.(color := Red, right := Recolor(w.right, Black)))
  }

  /** Case 3 turns the far child of the sibling red and keeps the invariant. */
  lemma {:induction false} DelCase3L(ctx: seq<Frame>, s: Tree)
    requires DelInv(ctx, s) && ctx[0].dir == Left && ctx[0].sib.Node? && !IsRed(ctx[0].sib)
    requires IsRed(ctx[0].sib.left) && !IsRed(ctx[0].sib.right)
    ensures DelInv(ctx[0 := ctx[0].(sib := Case3L(ctx[0].sib))], s)
    ensures !IsRed(Case3L(ctx[0].sib)) && IsRed(Case3L(ctx[0].sib).right)
  {
    var h := BlackHeight(s);
    var w := ctx[0].sib;
    var wl := w.left;
    RBKids(w);
    RBKids(wl);
    var inner := Node(Red, wl.right, w.id, w.key, w.right);
    RBNode(Red, wl.right, w.id, w.key, w.right);
    RBNode(Black, wl.left, wl.id, wl.key, inner);
    var c' := ctx[0 := ctx[0].(sib := Case3L(w))];
    assert c'[1..] == ctx[1..];
  }

  lemma {:induction false} DelCase3R(ctx: seq<Frame>, s: Tree)
    requires DelInv(ctx, s) && ctx[0].dir == Right && ctx[0].sib.Node? && !IsRed(ctx[0].sib)
    requires IsRed(ctx[0].sib.right) && !IsRed(ctx[0].sib.left)
    ensures DelInv(ctx[0 := ctx[0].(sib := Case3R(ctx[0].sib))], s)
    ensures !IsRed(Case3R(ctx[0].sib)) && IsRed(Case3R(ctx[0].sib).left)
  {
    var h := BlackHeight(s);
    var w := ctx[0].sib;
    var wr := w.right;
    RBKids(w);
    RBKids(wr);
    var inner := Node(Red, w.left, w.id, w.key, wr.left);
    RBNode(Red, w.left, w.id, w.key, wr.left);
    RBNode(Black, inner, wr.id, wr.key, wr.right);
    var c' := ctx[0 := ctx[0].(sib := Case3R(w))];
    assert c'[1..] == ctx[1..];
  }

  /** Case 4 with x a left child: w takes the parent's colour, the parent
      and w's red right child turn black, and a left rotation at the parent. */
  function Case4L(f: Frame, s: Tree): Tree
    requires f.sib.Node? && f.sib.right.Node?
  {
    RotL(Node(Black, s, f.id, f.key, f.sib.(color := f.color, right := Recolor(f.sib.right, Black))))
  }

  function Case4R(f: Frame, s: Tree): Tree
    requires f.sib.Node? && f.sib.left.Node?
  {
    RotR(Node(Black, f.sib.(color := f.color, left := Recolor(f.sib.left, Black)), f.id, f.key, s))
  }

  /** Case 4 restores the missing black and ends the loop. */
  lemma {:induction false} DelCase4L(ctx: seq<Frame>, s: Tree)
    requires DelInv(ctx, s) && ctx[0].dir == Left && ctx[0].sib.Node? && !IsRed(ctx[0].sib)
    requires IsRed(ctx[0].sib.right)
    ensures RedBlackTree(Plug(ctx[1..], Case4L(ctx[0], s)))
  {
    var h := BlackHeight(s);
    var f, w := ctx[0], ctx[0].sib;
    var wr := w.right;
    RBKids(w);
    RBKids(wr);
    RBNode(Black, wr.left, wr.id, wr.key, wr.right);
    RBNode(Black, s, f.id, f.key, w.left);
    RBNode(f.color, Node(Black, s, f.id, f.key, w.left), w.id, w.key, Recolor(wr, Black));
    PlugRB(ctx[1..], Case4L(f, s));
  }

  lemma {:induction false} DelCase4R(ctx: seq<Frame>, s: Tree)
    requires DelInv(ctx, s) && ctx[0].dir == Right && ctx[0].sib.Node? && !IsRed(ctx[0].sib)
    requires IsRed(ctx[0].sib.left)
    ensures RedBlackTree(Plug(ctx[1..], Case4R(ctx[0], s)))
  {
    var h := BlackHeight(s);
    var f, w := ctx[0], ctx[0].sib;
    var wl := w.left;
    RBKids(w);
    RBKids(wl);
    RBNode(Black, wl.left, wl.id, wl.key, wl.right);
    RBNode(Black, w.right, f.id, f.key, s);
    RBNode(f.color, Recolor(wl, Black), w.id, w.key, Node(Black, w.right, f.id, f.key, s));
    PlugRB(ctx[1..], Case4R(f, s));
  }

  // ---------------------------------------------------------------------------
  // Cases 3 and 4 as rb_erase_fixup writes them

  /** The fixup reads w's children `wl` and `wr` once, before case 3.  Case
      3 rotates w's red left child into w's place, but case 4 then colours
      the stale `wr` black instead of the new w's right child, which is the
      old w and is red.  A missing `wr` is a null dereference (None);
      otherwise the red old w stays red. */
  function Case34LAsWritten(f: Frame, s: Tree): (r: Option<Tree>)
    requires f.sib.Node? && f.sib.left.Node?
    ensures r.None? <==> f.sib.right == Nil
  {
    var wr := f.sib.right;
    if wr == Nil then None
    else
      var w := Case3L(f.sib);
      Some(RotL(Node(Black, s, f.id, f.key, w.(color := f.color, right := w.right.(right := Recolor(wr, Black))))))
  }

  /** The mirror, x a right child: the stale `wl` is recoloured. */
  function Case34RAsWritten(f: Frame, s: Tree): (r: Option<Tree>)
    requires f.sib.Node? && f.sib.right.Node?
    ensures r.None? <==> f.sib.left == Nil
  {
    var wl := f.sib.left;
    if wl == Nil then None
    else
      var w := Case3R(f.sib);
      Some(RotR(Node(Black, w.(color := f.color, left := w.left.(left := Recolor(wl, Black))), f.id, f.key, s)))
  }

  /** In every state where case 3 applies, the cases as written either
      dereference the missing `wr` or leave a tree whose left and right
      halves under the rotated node differ in black height. */
  lemma {:induction false} Case34LAsWrittenWrong(ctx: seq<Frame>, s: Tree)
    requires DelInv(ctx, s) && ctx[0].dir == Left && ctx[0].sib.Node? && !IsRed(ctx[0].sib)
    requires IsRed(ctx[0].sib.left) && !IsRed(ctx[0].sib.right)
    ensures var r := Case34LAsWritten(ctx[0], s); r.Some? ==> !RedBlackTree(Plug(ctx[1..], r.value))
  {
    var r := Case34LAsWritten(ctx[0], s);
    var w := ctx[0].sib;
    RBKids(w);
    RBKids(w.left);
    if r.Some? && RedBlackTree(Plug(ctx[1..], r.value)) {
      PlugRBInv(ctx[1..], r.value);
    }
  }

  lemma {:induction false} Case34RAsWrittenWrong(ctx: seq<Frame>, s: Tree)
    requires DelInv(ctx, s) && ctx[0].dir == Right && ctx[0].sib.Node? && !IsRed(ctx[0].sib)
    requires IsRed(ctx[0].sib.right) && !IsRed(ctx[0].sib.left)
    ensures var r := Case34RAsWritten(ctx[0], s); r.Some? ==> !RedBlackTree(Plug(ctx[1..], r.value))
  {
    var r := Case34RAsWritten(ctx[0], s);
    var w := ctx[0].sib;
    RBKids(w);
    RBKids(w.right);
    if r.Some? && RedBlackTree(Plug(ctx[1..], r.value)) {
      PlugRBInv(ctx[1..], r.value);
    }
  }

  /** Inserting 10, 5, 20, 15 and erasing 5: x is the empty left slot of
      the black root 10, whose sibling 20 is black with only the red left
      child 15.  Case 3 applies, `wr` is missing and the cases as written
      dereference it, while the corrected cases yield a red-black tree. */
  lemma {:induction false} EraseFiveOfFour()
    ensures var ctx := [Frame(Left, Black, 10, 10, Node(Black, Node(Red, Nil, 15, 15, Nil), 20, 20, Nil))];
      DelInv(ctx, Nil) && !IsRed(ctx[0].sib) && IsRed(ctx[0].sib.left) && !IsRed(ctx[0].sib.right) &&
      Case34LAsWritten(ctx[0], Nil).None? &&
      RedBlackTree(Case4L(ctx[0 := ctx[0].(sib := Case3L(ctx[0].sib))][0], Nil))
  {
    var ctx := [Frame(Left, Black, 10, 10, Node(Black, Node(Red, Nil, 15, 15, Nil), 20, 20, Nil))];
    assert ctx[1..] == [];
    assert DelInv(ctx, Nil);
    DelCase3L(ctx, Nil);
    var c := ctx[0 := ctx[0].(sib := Case3L(ctx[0].sib))];
    DelCase4L(c, Nil);
    assert c[1..] == [];
  }
}
