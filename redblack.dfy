/** Red-black colouring rules on tree values, and the case analysis of the
    insert and erase fixups (Cormen et al., Introduction to Algorithms, 3rd
    edition, sections 13.3 and 13.4) stated as lemmas about zipper contexts. */
module RedBlack {
  import opened Trees

  predicate IsRed(t: Tree)
  {
    t.Node? && t.color == Red
  }

  /** Number of black nodes on the leftmost downward path (null links count 0). */
  function BlackHeight(t: Tree): nat
  {
    match t
    case Nil => 0
    case Node(c, l, _, _, _) => BlackHeight(l) + Step(c)
  }

  function Step(c: Color): nat
  {
    if c == Black then 1 else 0
  }

  /** Every downward path from a node crosses the same number of black nodes. */
  predicate Balanced(t: Tree)
  {
    match t
    case Nil => true
    case Node(_, l, _, _, r) => Balanced(l) && Balanced(r) && BlackHeight(l) == BlackHeight(r)
  }

  /** No red node has a red child. */
  predicate NoRedRed(t: Tree)
  {
    match t
    case Nil => true
    case Node(c, l, _, _, r) =>
      (c == Red ==> !IsRed(l) && !IsRed(r)) && NoRedRed(l) && NoRedRed(r)
  }

  predicate RB(t: Tree)
  {
    Balanced(t) && NoRedRed(t)
  }

  /** The red-black properties of a whole tree: RB and a black (or absent) root. */
  predicate RedBlackTree(t: Tree)
  {
    RB(t) && !IsRed(t)
  }

  /** `ctx` accepts, at its focus, any RB subtree of black height `h` whose root
      is red iff `red`, and then yields a red-black tree. */
  predicate CtxOK(ctx: seq<Frame>, h: nat, red: bool)
    decreases |ctx|
  {
    if ctx == [] then !red
    else
      var f := ctx[0];
      (red ==> f.color == Black) && RB(f.sib) && BlackHeight(f.sib) == h &&
      (f.color == Red ==> !IsRed(f.sib)) &&
      CtxOK(ctx[1..], h + Step(f.color), f.color == Red)
  }

  lemma {:induction false} RBNode(c: Color, l: Tree, i: int, k: int, r: Tree)
    requires RB(l) && RB(r) && BlackHeight(l) == BlackHeight(r)
    requires c == Red ==> !IsRed(l) && !IsRed(r)
    ensures RB(Node(c, l, i, k, r))
    ensures BlackHeight(Node(c, l, i, k, r)) == BlackHeight(r) + Step(c)
  {
  }

  lemma {:induction false} PlugRB(ctx: seq<Frame>, s: Tree)
    requires RB(s) && CtxOK(ctx, BlackHeight(s), IsRed(s))
    ensures RedBlackTree(Plug(ctx, s))
    decreases |ctx|
  {
    if ctx != [] {
      var f := ctx[0];
      var s' := Plug1(f, s);
      if f.dir == Left {
        RBNode(f.color, s, f.id, f.key, f.sib);
      } else {
        RBNode(f.color, f.sib, f.id, f.key, s);
      }
      PlugRB(ctx[1..], s');
    }
  }

  lemma {:induction false} PlugRBInv(ctx: seq<Frame>, s: Tree)
    requires RedBlackTree(Plug(ctx, s))
    ensures RB(s) && CtxOK(ctx, BlackHeight(s), IsRed(s))
    decreases |ctx|
  {
    if ctx != [] {
      var f := ctx[0];
      PlugRBInv(ctx[1..], Plug1(f, s));
    }
  }

  /** A context that accepts a red root also accepts a black one. */
  lemma {:induction false} CtxOKBlack(ctx: seq<Frame>, h: nat)
    requires CtxOK(ctx, h, true)
    ensures CtxOK(ctx, h, false)
  {
  }

  /** With a black innermost frame the context also accepts a red root. */
  lemma {:induction false} CtxOKRed(ctx: seq<Frame>, h: nat)
    requires ctx != [] && ctx[0].color == Black
    requires CtxOK(ctx, h, false)
    ensures CtxOK(ctx, h, true)
  {
  }

  /** Frames that differ only in node identity and key accept the same items. */
  predicate SameShape(a: seq<Frame>, b: seq<Frame>)
  {
    |a| == |b| &&
    forall i :: 0 <= i < |a| ==> a[i].dir == b[i].dir && a[i].color == b[i].color && a[i].sib == b[i].sib
  }

  lemma {:induction false} CtxOKShape(a: seq<Frame>, b: seq<Frame>, h: nat, red: bool)
    requires SameShape(a, b) && CtxOK(a, h, red)
    ensures CtxOK(b, h, red)
    decreases |a|
  {
    if a != [] {
      assert SameShape(a[1..], b[1..]) by {
        forall i | 0 <= i < |a[1..]|
          ensures a[1..][i].dir == b[1..][i].dir && a[1..][i].color == b[1..][i].color && a[1..][i].sib == b[1..][i].sib
        {
          assert a[1..][i] == a[i + 1] && b[1..][i] == b[i + 1];
        }
      }
      CtxOKShape(a[1..], b[1..], h + Step(a[0].color), a[0].color == Red);
    }
  }

  // ---------------------------------------------------------------------------
  // Insert fixup

  /** The loop invariant of the insert fixup: the focus z is an RB subtree that
      is red unless it is the root, and the only possible violation is a red
      parent above it. */
  predicate InsInv(ctx: seq<Frame>, s: Tree)
  {
    s.Node? && RB(s) && CtxOK(ctx, BlackHeight(s), false) &&
    (if ctx == [] then s.color == Black else s.color == Red)
  }

  /** A freshly linked red leaf in a red-black tree satisfies the invariant. */
  lemma {:induction false} InsStart(ctx: seq<Frame>, c: Color, i: int, k: int)
    requires RedBlackTree(Plug(ctx, Nil))
    requires c == (if ctx == [] then Black else Red)
    ensures InsInv(ctx, Node(c, Nil, i, k, Nil))
  {
    PlugRBInv(ctx, Nil);
  }

  /** When the loop stops (z is the root, or z's parent is black) the tree is red-black. */
  lemma {:induction false} InsDone(ctx: seq<Frame>, s: Tree)
    requires InsInv(ctx, s)
    requires ctx == [] || ctx[0].color == Black
    ensures RedBlackTree(Plug(ctx, s))
  {
    if ctx != [] { CtxOKRed(ctx, BlackHeight(s)); }
    PlugRB(ctx, s);
  }

  /** A red parent is never the root: the grandparent exists and is black. */
  lemma {:induction false} InsRedParent(ctx: seq<Frame>, s: Tree)
    requires InsInv(ctx, s) && ctx != [] && ctx[0].color == Red
    ensures |ctx| >= 2 && ctx[1].color == Black
    ensures !IsRed(ctx[0].sib)
  {
    assert CtxOK(ctx[1..], BlackHeight(s), true);
  }

  /** The state after the red-uncle recolouring, refocused at the grandparent. */
  function InsRecolored(ctx: seq<Frame>, s: Tree): Tree
    requires |ctx| >= 2 && ctx[1].sib.Node?
  {
    var gc := if ctx[2..] == [] then Black else Red;
    Plug1(ctx[1].(color := gc, sib := Recolor(ctx[1].sib, Black)), Plug1(ctx[0].(color := Black), s))
  }

  /** Red uncle: recolouring moves the invariant two levels up. */
  lemma {:induction false} InsCaseRedUncle(ctx: seq<Frame>, s: Tree)
    requires InsInv(ctx, s) && ctx != [] && ctx[0].color == Red
    requires |ctx| >= 2 && IsRed(ctx[1].sib)
    ensures InsInv(ctx[2..], InsRecolored(ctx, s))
  {
    var h := BlackHeight(s);
    var f0, f1, rest := ctx[0], ctx[1], ctx[2..];
    assert ctx[1..][1..] == rest;
    assert CtxOK(ctx[1..], h, true);
    assert f1.color == Black;
    assert CtxOK(rest, h + 1, false);
    var u := f1.sib;
    var p' := Plug1(f0.(color := Black), s);
    if f0.dir == Left { RBNode(Black, s, f0.id, f0.key, f0.sib); } else { RBNode(Black, f0.sib, f0.id, f0.key, s); }
    assert RB(p') && BlackHeight(p') == h + 1;
    var u' := Recolor(u, Black);
    assert RB(u) && BlackHeight(u) == h;
    RBNode(Black, u.left, u.id, u.key, u.right);
    assert RB(u') && BlackHeight(u') == h + 1;
    var gc := if rest == [] then Black else Red;
    var g' := InsRecolored(ctx, s);
    if f1.dir == Left { RBNode(gc, p', f1.id, f1.key, u'); } else { RBNode(gc, u', f1.id, f1.key, p'); }
    assert RB(g');
  }

  /** Black uncle, parent a left child, z a left child: one right rotation at g. */
  lemma {:induction false} InsCaseLL(ctx: seq<Frame>, s: Tree)
    requires InsInv(ctx, s) && ctx != [] && ctx[0].color == Red
    requires |ctx| >= 2 && !IsRed(ctx[1].sib)
    requires ctx[1].dir == Left && ctx[0].dir == Left
    ensures RedBlackTree(Plug(ctx[2..], RotR(Plug1(ctx[1].(color := Red), Plug1(ctx[0].(color := Black), s)))))
  {
    var h := BlackHeight(s);
    var f0, f1, rest := ctx[0], ctx[1], ctx[2..];
    assert ctx[1..][1..] == rest;
    assert CtxOK(ctx[1..], h, true);
    assert CtxOK(rest, h + 1, false);
    var g2 := Node(Red, f0.sib, f1.id, f1.key, f1.sib);
    RBNode(Red, f0.sib, f1.id, f1.key, f1.sib);
    RBNode(Black, s, f0.id, f0.key, g2);
    PlugRB(rest, Node(Black, s, f0.id, f0.key, g2));
  }

  /** Black uncle, parent a left child, z a right child: left rotation at p,
      then right rotation at g. */
  lemma {:induction false} InsCaseLR(ctx: seq<Frame>, s: Tree)
    requires InsInv(ctx, s) && ctx != [] && ctx[0].color == Red
    requires |ctx| >= 2 && !IsRed(ctx[1].sib)
    requires ctx[1].dir == Left && ctx[0].dir == Right
    ensures RedBlackTree(Plug(ctx[2..], RotR(Plug1(ctx[1].(color := Red), Recolor(RotL(Plug1(ctx[0], s)), Black)))))
  {
    var h := BlackHeight(s);
    var f0, f1, rest := ctx[0], ctx[1], ctx[2..];
    assert ctx[1..][1..] == rest;
    assert CtxOK(ctx[1..], h, true);
    assert CtxOK(rest, h + 1, false);
    var p2 := Node(Red, f0.sib, f0.id, f0.key, s.left);
    var g2 := Node(Red, s.right, f1.id, f1.key, f1.sib);
    RBNode(Red, f0.sib, f0.id, f0.key, s.left);
    RBNode(Red, s.right, f1.id, f1.key, f1.sib);
    RBNode(Black, p2, s.id, s.key, g2);
    PlugRB(rest, Node(Black, p2, s.id, s.key, g2));
  }

  /** Mirror of InsCaseLL: parent a right child, z a right child. */
  lemma {:induction false} InsCaseRR(ctx: seq<Frame>, s: Tree)
    requires InsInv(ctx, s) && ctx != [] && ctx[0].color == Red
    requires |ctx| >= 2 && !IsRed(ctx[1].sib)
    requires ctx[1].dir == Right && ctx[0].dir == Right
    ensures RedBlackTree(Plug(ctx[2..], RotL(Plug1(ctx[1].(color := Red), Plug1(ctx[0].(color := Black), s)))))
  {
    var h := BlackHeight(s);
    var f0, f1, rest := ctx[0], ctx[1], ctx[2..];
    assert ctx[1..][1..] == rest;
    assert CtxOK(ctx[1..], h, true);
    assert CtxOK(rest, h + 1, false);
    var g2 := Node(Red, f1.sib, f1.id, f1.key, f0.sib);
    RBNode(Red, f1.sib, f1.id, f1.key, f0.sib);
    RBNode(Black, g2, f0.id, f0.key, s);
    PlugRB(rest, Node(Black, g2, f0.id, f0.key, s));
  }

  /** Mirror of InsCaseLR: parent a right child, z a left child. */
  lemma {:induction false} InsCaseRL(ctx: seq<Frame>, s: Tree)
    requires InsInv(ctx, s) && ctx != [] && ctx[0].color == Red
    requires |ctx| >= 2 && !IsRed(ctx[1].sib)
    requires ctx[1].dir == Right && ctx[0].dir == Left
    ensures RedBlackTree(Plug(ctx[2..], RotL(Plug1(ctx[1].(color := Red), Recolor(RotR(Plug1(ctx[0], s)), Black)))))
  {
    var h := BlackHeight(s);
    var f0, f1, rest := ctx[0], ctx[1], ctx[2..];
    assert ctx[1..][1..] == rest;
    assert CtxOK(ctx[1..], h, true);
    assert CtxOK(rest, h + 1, false);
    var g2 := Node(Red, f1.sib, f1.id, f1.key, s.left);
    var p2 := Node(Red, s.right, f0.id, f0.key, f0.sib);
    RBNode(Red, f1.sib, f1.id, f1.key, s.left);
    RBNode(Red, s.right, f0.id, f0.key, f0.sib);
    RBNode(Black, g2, s.id, s.key, p2);
    PlugRB(rest, Node(Black, g2, s.id, s.key, p2));
  }
}
