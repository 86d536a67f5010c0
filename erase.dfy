/** details::erase on the linked nodes.  The node `y` that leaves the tree is
    `z` itself when `z` has at most one child, and otherwise z's successor,
    which then takes z's place and colour.  The records pass through states
    in which the ancestors of the changed place still count the removed node:
    in `MatchesZ(ctx, s, ns, from, -1)` the `from` innermost levels of the
    path are exact and the others are one too large. */
module Erase {
  import opened Trees
  import opened Arena
  import opened RedBlack
  import opened Rotate
  import opened Insert
  import opened Link
  import Details
  import opened EraseCases
  import opened EraseFix
  import opened ErasePlan

  // ---------------------------------------------------------------------------
  // Records after a node leaves its place

  /** A subtree whose root record only gets a new parent link hangs under
      the new parent. */
  lemma {:induction false} Reparent(t: Tree, p: int, p': int, ns: seq<NodeRec>, ns': seq<NodeRec>, ch: set<int>)
    requires Matches(t, p, ns) && Distinct(t) && |ns'| == |ns| && Agree(ns, ns', ch)
    requires t.Node? ==> ns'[t.id] == ns[t.id].(parent := p')
    requires forall j :: j in ch && j != RootId(t) ==> j !in IdSeq(t)
    ensures Matches(t, p', ns')
  {
    if t.Node? {
      DistinctNode(t);
      MatchesFrame(t.left, t.id, ns, ns', ch);
      MatchesFrame(t.right, t.id, ns, ns', ch);
    }
  }

  /** The path above a level whose size drops by one, with its own records
      unchanged: exact for the old size, one too large for the new. */
  lemma {:induction false} TailDrop(ctx: seq<Frame>, cid: int, sz: nat, ns: seq<NodeRec>, ns': seq<NodeRec>, ch: set<int>)
    requires MatchesCtx(ctx, cid, sz + 1, ns, -1, 0) && Agree(ns, ns', ch)
    requires END !in ch && forall i :: i in ch ==> i !in CtxIds(ctx)
    ensures MatchesCtx(ctx, cid, sz, ns', 0, -1)
  {
    MatchesCtxFrame(ctx, cid, sz + 1, ns, ns', -1, 0, ch);
    CtxShift(ctx, cid, sz + 1, sz, ns', -1);
    CtxAllOff(ctx, cid, sz, ns', -1, 0, -1);
  }

  /** The record above the focus gets its link redirected to `cid'` and its
      size lowered by one, for a focus one smaller: that level becomes exact
      and the levels above it count one node too many. */
  lemma {:induction false} RelinkDrop(ctx: seq<Frame>, cid: int, cid': int, csz: nat, ns: seq<NodeRec>, ns': seq<NodeRec>, ch: set<int>)
    requires MatchesCtx(ctx, cid, csz + 1, ns, 0, 0)
    requires ctx != [] ==> ctx[0].id !in IdSeq(ctx[0].sib) && ctx[0].id !in CtxIds(ctx[1..])
    requires |ns'| == |ns| && 0 <= PId(ctx) < |ns| && Agree(ns, ns', ch + {PId(ctx)})
    requires ns'[PId(ctx)].size + 1 == ns[PId(ctx)].size
    requires ns'[PId(ctx)] == Relinked(ctx, ns[PId(ctx)], cid').(size := ns'[PId(ctx)].size)
    requires END !in ch && forall i :: i in ch ==> i !in CtxIds(ctx)
    ensures MatchesCtx(ctx, cid', csz, ns', 1, -1)
  {
    if ctx != [] {
      var f := ctx[0];
      var sz := csz + 1 + Size(f.sib);
      var ch' := ch + {f.id};
      CtxFresh(ctx, ch);
      MatchesFrame(f.sib, f.id, ns, ns', ch');
      TailDrop(ctx[1..], f.id, sz, ns, ns', ch');
      assert ns'[f.id].size == sz;
      MatchesCtxCons(ctx, cid', csz, ns', 1, -1);
    }
  }

  /** The root of a plugged tree is a node of it. */
  lemma {:induction false} FocusIn(ctx: seq<Frame>, s: Tree)
    requires s.Node?
    ensures s.id in IdSeq(Plug(ctx, s))
  {
    PlugIds(ctx, s);
    assert s.id in IdSeq(s);
  }

  // ---------------------------------------------------------------------------
  // Lowering the ancestors' sizes

  /** Lowering the size of the record above the focus by one moves the focus
      up a level with every remaining level still one too large. */
  lemma {:induction false} DropUp(ctx: seq<Frame>, s: Tree, ns: seq<NodeRec>)
    requires ctx != [] && MatchesZ(ctx, s, ns, 0, -1) && Distinct(Plug(ctx, s))
    ensures 0 < ctx[0].id < |ns| && ns[ctx[0].id].size >= 1
    ensures MatchesZ(ctx[1..], Plug1(ctx[0], s), ns[ctx[0].id := ns[ctx[0].id].(size := ns[ctx[0].id].size - 1)], 0, -1)
  {
    var f := ctx[0];
    var ns' := ns[f.id := ns[f.id].(size := ns[f.id].size - 1)];
    var sz := Size(s) + 1 + Size(f.sib);
    assert Matches(s, f.id, ns) && MatchesCtx(ctx, RootId(s), Size(s), ns, 0, -1);
    assert 0 < f.id < |ns| && ns[f.id].size == sz + 1 && MatchesCtx(ctx[1..], f.id, sz, ns, -1, -1);
    assert ns'[f.id] == ns[f.id].(size := sz);
    DistinctFrame(ctx, s);
    MatchesFrame(s, f.id, ns, ns', {f.id});
    MatchesFrame(f.sib, f.id, ns, ns', {f.id});
    TailOff(ctx[1..], f.id, sz, ns, ns', {f.id}, -1);
    MatchesPlug1(f, s, PId(ctx[1..]), ns');
  }

  /** The two size walks of erase: starting at `node`, every record up to
      (not including) `stop` loses one from its size.  `stop` is the node
      above the path `cr`, so afterwards the focus has moved to the top of
      `cr`.  Only sizes change. */
  method DropSizes(ns: seq<NodeRec>, node: int, stop: int, ghost cr: seq<Frame>, ghost rest: seq<Frame>, ghost s: Tree)
    returns (ns': seq<NodeRec>)
    requires MatchesZ(cr + rest, s, ns, 0, -1) && Distinct(Plug(cr + rest, s))
    requires node == PId(cr + rest) && stop == PId(rest)
    ensures |ns'| == |ns| && MatchesZ(rest, Plug(cr, s), ns', 0, -1)
    ensures forall j :: 0 <= j < |ns| ==> ns'[j] == ns[j].(size := ns'[j].size)
  {
    ns' := ns;
    var cur := node;
    ghost var c, u := cr, s;
    PlugAppend(cr, rest, s);
    while cur != stop
      invariant |ns'| == |ns| && MatchesZ(c + rest, u, ns', 0, -1) && Plug(c, u) == Plug(cr, s)
      invariant cur == PId(c + rest) && Distinct(Plug(c + rest, u))
      invariant forall j :: 0 <= j < |ns| ==> ns'[j] == ns[j].(size := ns'[j].size)
      decreases |c|
    {
      assert c != [];
      assert (c + rest)[0] == c[0] && (c + rest)[1..] == c[1..] + rest;
      DropUp(c + rest, u, ns');
      ns' := ns'[cur := ns'[cur].(size := ns'[cur].size - 1)];
      c, u := c[1..], Plug1(c[0], u);
      cur := ns'[cur].parent;
      PlugAppend(c, rest, u);
    }
    PlugAppend(c, rest, u);
    if c != [] {
      assert (c + rest)[0] == c[0];
      CutAbove(c, rest, u);
    }
    assert c == [] && c + rest == rest;
  }

  /** The node above a path is no node on it. */
  lemma {:induction false} CutAbove(c: seq<Frame>, rest: seq<Frame>, u: Tree)
    requires c != [] && 0 < c[0].id && Distinct(Plug(rest, Plug(c, u)))
    ensures c[0].id != PId(rest)
  {
    if rest != [] {
      DistinctFrame(rest, Plug(c, u));
      assert Plug(c, u) == Plug(c[1..], Plug1(c[0], u));
      FocusIn(c[1..], Plug1(c[0], u));
    }
  }

  // ---------------------------------------------------------------------------
  // Unlinking y

  /** The sizes erase reads when it unlinks y. */
  lemma {:induction false} UnlinkSizes(ctx: seq<Frame>, ys: Tree, ns: seq<NodeRec>)
    requires Z(ctx, ys, ns) && ys.Node? && (ys.left == Nil || ys.right == Nil)
    ensures 0 < ys.id < |ns| && 0 <= PId(ctx) < |ns| && ns[PId(ctx)].size >= 1
    ensures ns[ys.id].size == Size(Child(ys)) + 1 && ns[ys.id].parent == PId(ctx)
    ensures ns[ys.id].left == RootId(ys.left) && ns[ys.id].right == RootId(ys.right)
    ensures Child(ys).Node? ==> 0 < Child(ys).id < |ns| && ns[Child(ys).id].size == Size(Child(ys))
    ensures ys.id != PId(ctx) && RootId(Child(ys)) != PId(ctx) && RootId(Child(ys)) != ys.id
  {
    MatchesCtxIds(ctx, ys.id, Size(ys), ns, 0, 0);
    if ctx != [] {
      CtxIdsCons(ctx);
    }
    assert Matches(ys.left, ys.id, ns) && Matches(ys.right, ys.id, ns);
  }

  /** How y hangs: on the left of its parent exactly when the path goes left
      there (the root hangs on the sentinel's left), its sibling is the
      parent's other link, and y is the root exactly when the path is empty. */
  lemma {:induction false} UnlinkShape(ctx: seq<Frame>, ys: Tree, ns: seq<NodeRec>)
    requires Z(ctx, ys, ns) && Distinct(Plug(ctx, ys)) && ys.Node?
    ensures 0 <= PId(ctx) < |ns| && 0 < ys.id < |ns| && ns[ys.id].parent == PId(ctx)
    ensures ns[PId(ctx)].left == ys.id <==> ctx == [] || ctx[0].dir == Left
    ensures ctx != [] && ctx[0].dir == Left ==> ns[PId(ctx)].right == RootId(ctx[0].sib)
    ensures ctx != [] && ctx[0].dir == Right ==> ns[PId(ctx)].left == RootId(ctx[0].sib)
    ensures ys.id == RootId(Plug(ctx, ys)) <==> ctx == []
    ensures ctx != [] ==> RootId(Plug(ctx, Child(ys))) == RootId(Plug(ctx, ys))
    ensures ctx == [] ==> Plug(ctx, Child(ys)) == Child(ys)
  {
    IsLeftChildZ(ctx, ys, ns, 0, 0);
    PlugRoot(ctx, ys);
    PlugRoot(ctx, Child(ys));
    if ctx != [] {
      RootAboveFocus(ctx, ys);
      assert ys.id in IdSeq(ys);
    }
  }

  /** y's only child, given y's parent as its own, hangs there. */
  lemma {:induction false} UnlinkFocus(ys: Tree, p: int, ns: seq<NodeRec>, ns': seq<NodeRec>, ch: set<int>)
    requires ys.Node? && (ys.left == Nil || ys.right == Nil) && Matches(ys, p, ns) && Distinct(ys)
    requires p == END || p !in IdSeq(ys)
    requires |ns'| == |ns| && Agree(ns, ns', ch) && ch == (if Child(ys).Node? then {Child(ys).id} else {}) + {p}
    requires Child(ys).Node? ==> 0 < Child(ys).id < |ns| && ns'[Child(ys).id] == ns[Child(ys).id].(parent := p)
    ensures Matches(Child(ys), p, ns')
  {
    var xs := Child(ys);
    DistinctNode(ys);
    MatchesIds(ys, p, ns);
    assert Matches(xs, ys.id, ns);
    assert forall j :: j in IdSeq(xs) ==> j in IdSeq(ys);
    Reparent(xs, ys.id, p, ns, ns', ch);
  }

  /** The records after the unlink: y's parent links to x and counts one
      node less, x (when present) has y's parent as parent, and nothing else
      has changed. */
  ghost predicate Unlinked(ctx: seq<Frame>, ys: Tree, ns: seq<NodeRec>, ns': seq<NodeRec>)
  {
    Z(ctx, ys, ns) && Distinct(Plug(ctx, ys)) && ys.Node? && (ys.left == Nil || ys.right == Nil) &&
    0 <= PId(ctx) < |ns| && |ns'| == |ns| && (Child(ys).Node? ==> 0 < Child(ys).id < |ns|) &&
    Agree(ns, ns', (if Child(ys).Node? then {Child(ys).id} else {}) + {PId(ctx)}) &&
    ns'[PId(ctx)].size + 1 == ns[PId(ctx)].size &&
    ns'[PId(ctx)] == Relinked(ctx, ns[PId(ctx)], RootId(Child(ys))).(size := ns'[PId(ctx)].size) &&
    (Child(ys).Node? ==> ns'[Child(ys).id] == ns[Child(ys).id].(parent := PId(ctx)))
  }

  /** After the unlink y's parent is exact and its ancestors count one node
      too many. */
  lemma {:induction false} UnlinkFacts(ctx: seq<Frame>, ys: Tree, ns: seq<NodeRec>, ns': seq<NodeRec>)
    requires Unlinked(ctx, ys, ns, ns')
    ensures MatchesZ(ctx, Child(ys), ns', 1, -1)
  {
    UnlinkFactsFocus(ctx, ys, ns, ns');
    UnlinkFactsCtx(ctx, ys, ns, ns');
  }

  /** x's subtree under y's parent. */
  lemma {:induction false} UnlinkFactsFocus(ctx: seq<Frame>, ys: Tree, ns: seq<NodeRec>, ns': seq<NodeRec>)
    requires Unlinked(ctx, ys, ns, ns')
    ensures Matches(Child(ys), PId(ctx), ns')
  {
    var xs := Child(ys);
    var p := PId(ctx);
    var ch: set<int> := if xs.Node? then {xs.id} else {};
    assert Matches(ys, p, ns);
    DistinctFocus(ctx, ys);
    if ctx != [] {
      DistinctFrame(ctx, ys);
    }
    assert p == END || p !in IdSeq(ys);
    UnlinkFocus(ys, p, ns, ns', ch + {p});
  }

  /** The path above it. */
  lemma {:induction false} UnlinkFactsCtx(ctx: seq<Frame>, ys: Tree, ns: seq<NodeRec>, ns': seq<NodeRec>)
    requires Unlinked(ctx, ys, ns, ns')
    ensures MatchesCtx(ctx, RootId(Child(ys)), Size(Child(ys)), ns', 1, -1)
  {
    var xs := Child(ys);
    var ch: set<int> := if xs.Node? then {xs.id} else {};
    assert MatchesCtx(ctx, ys.id, Size(ys), ns, 0, 0) && Size(ys) == Size(xs) + 1;
    DistinctFocus(ctx, ys);
    if ctx != [] {
      DistinctFrame(ctx, ys);
    }
    if xs.Node? {
      assert xs.id in IdSeq(ys);
    }
    assert END !in ch && forall i :: i in ch ==> i !in CtxIds(ctx);
    RelinkDropAt(ctx, ys.id, RootId(xs), Size(ys), Size(xs), ns, ns', ch);
  }

  /** The start of erase once y is chosen: y's parent takes y's only child x
      (the sentinel's left link when y is the root), x's parent link follows,
      and y's parent counts one node less.  w is x's new sibling and `root'`
      the new root.  y's own record is left as it was. */
  method Unlink(ns: seq<NodeRec>, y: int, root: int, ghost ctx: seq<Frame>, ghost ys: Tree)
    returns (ns': seq<NodeRec>, x: int, w: int, root': int)
    requires Z(ctx, ys, ns) && Distinct(Plug(ctx, ys)) && ys.Node? && y == ys.id && (ys.left == Nil || ys.right == Nil)
    requires root == RootId(Plug(ctx, ys))
    ensures |ns'| == |ns| && x == RootId(Child(ys)) && MatchesZ(ctx, Child(ys), ns', 1, -1)
    ensures ctx != [] ==> w == RootId(ctx[0].sib)
    ensures root' == RootId(Plug(ctx, Child(ys))) && ns'[y] == ns[y]
  {
    UnlinkSizes(ctx, ys, ns);
    UnlinkShape(ctx, ys, ns);
    x := if ns[y].left != NIL then ns[y].left else ns[y].right;
    var yp := ns[y].parent;
    assert yp == PId(ctx) && x == RootId(Child(ys)) && x != yp && y != yp && y != x;
    var pr := ns[yp];
    if IsLeftChild(ns, y) {
      pr := pr.(left := x);
      if y != root {
        w := pr.right;
        root' := root;
      } else {
        w := NIL;
        root' := x;
      }
    } else {
      pr := pr.(right := x);
      w := pr.left;
      root' := root;
    }
    ns' := ns;
    if x != NIL {
      ns' := ns'[x := ns'[x].(parent := yp)];
    }
    var dec := if x != NIL then ns'[y].size - ns'[x].size else ns'[y].size;
    pr := pr.(size := pr.size - dec);
    ns' := ns'[yp := pr];
    UnlinkWrites(ctx, ys, ns, pr, ns');
    UnlinkFacts(ctx, ys, ns, ns');
  }

  /** The writes of the unlink, as one update each of x's record and of y's
      parent's. */
  lemma {:induction false} UnlinkWrites(ctx: seq<Frame>, ys: Tree, ns: seq<NodeRec>, pr: NodeRec, ns': seq<NodeRec>)
    requires Z(ctx, ys, ns) && Distinct(Plug(ctx, ys)) && ys.Node? && (ys.left == Nil || ys.right == Nil)
    requires 0 <= PId(ctx) < |ns| && (Child(ys).Node? ==> 0 < Child(ys).id < |ns| && Child(ys).id != PId(ctx))
    requires ns[PId(ctx)].size >= 1
    requires pr == Relinked(ctx, ns[PId(ctx)], RootId(Child(ys))).(size := ns[PId(ctx)].size - 1)
    requires Child(ys).Node? ==> ns' == ns[Child(ys).id := ns[Child(ys).id].(parent := PId(ctx))][PId(ctx) := pr]
    requires Child(ys).Nil? ==> ns' == ns[PId(ctx) := pr]
    ensures Unlinked(ctx, ys, ns, ns')
  {
  }

  // ---------------------------------------------------------------------------
  // Moving y into z's place

  /** z's record still links z's left subtree `tl` and its shortened right
      subtree `tr`, both matching under z, and the path above z is exact
      for z's old subtree, one node larger. */
  ghost predicate Detached(ctx: seq<Frame>, zc: Color, tl: Tree, tr: Tree, z: int, ns: seq<NodeRec>)
  {
    0 < z < |ns| && ns[z].color == zc && ns[z].left == RootId(tl) && ns[z].right == RootId(tr) &&
    ns[z].parent == PId(ctx) && Matches(tl, z, ns) && Matches(tr, z, ns) &&
    MatchesCtx(ctx, z, Size(tl) + Size(tr) + 2, ns, 0, 0)
  }

  /** Once every level from y's old place up to z's right child is exact,
      with z and the levels above it one too large (or z exact too), z is
      detached. */
  lemma {:induction false} DetachedOf(f: Frame, ctx: seq<Frame>, sr: Tree, ns: seq<NodeRec>, from: int)
    requires f.dir == Right && (from == 0 || from == 1) && MatchesZ([f] + ctx, sr, ns, from, -1)
    ensures Detached(ctx, f.color, f.sib, sr, f.id, ns)
  {
    assert ([f] + ctx)[0] == f && ([f] + ctx)[1..] == ctx;
    var sz := Size(sr) + 1 + Size(f.sib);
    CtxAllOff(ctx, f.id, sz, ns, from - 1, 0, -1);
    CtxShift(ctx, f.id, sz + 1, sz, ns, 0);
  }

  /** What the transplant reads before it writes: z hangs on the left of its
      parent exactly when the path goes left there, and the parent's size
      is positive. */
  lemma {:induction false} TransplantShape(ctx: seq<Frame>, zc: Color, tl: Tree, tr: Tree, z: int, y: int, yk: int, ns: seq<NodeRec>)
    requires Detached(ctx, zc, tl, tr, z, ns)
    requires z !in IdSeq(Plug(ctx, Node(zc, tl, y, yk, tr))) && Distinct(Plug(ctx, Node(zc, tl, y, yk, tr)))
    ensures 0 <= PId(ctx) < |ns| && ns[PId(ctx)].size >= Size(tl) + Size(tr) + 3
    ensures ns[PId(ctx)].left == z <==> ctx == [] || ctx[0].dir == Left
    ensures forall i :: i in CtxIds(ctx) ==> i !in IdSeq(Node(zc, tl, y, yk, tr)) && i != z
    ensures ctx != [] ==> ctx[0].id !in IdSeq(ctx[0].sib) && ctx[0].id !in CtxIds(ctx[1..])
  {
    var v := Node(zc, tl, y, yk, tr);
    MatchesCtxIds(ctx, z, Size(tl) + Size(tr) + 2, ns, 0, 0);
    DistinctFocus(ctx, v);
    PlugIds(ctx, v);
    if ctx != [] {
      CtxIdsCons(ctx);
      DistinctFrame(ctx, v);
    }
  }

  /** The nodes the transplant touches are pairwise different, and apart
      from its children's roots none of them is a node of z's subtrees. */
  lemma {:induction false} TransplantIds(ctx: seq<Frame>, zc: Color, tl: Tree, tr: Tree, z: int, y: int, yk: int, ns: seq<NodeRec>)
    requires Detached(ctx, zc, tl, tr, z, ns) && tl.Node? && 0 < y
    requires z !in IdSeq(Plug(ctx, Node(zc, tl, y, yk, tr))) && Distinct(Plug(ctx, Node(zc, tl, y, yk, tr)))
    ensures 0 < tl.id < |ns| && (tr.Node? ==> 0 < tr.id < |ns|)
    ensures y !in IdSeq(tl) && y !in IdSeq(tr) && z != y
    ensures z !in IdSeq(tl) && z !in IdSeq(tr) && PId(ctx) != z && PId(ctx) != y
    ensures PId(ctx) !in IdSeq(tl) && PId(ctx) !in IdSeq(tr)
    ensures forall j :: j in IdSeq(tl) ==> j !in IdSeq(tr)
    ensures tl.id in IdSeq(tl) && (tr.Node? ==> tr.id in IdSeq(tr))
    ensures y !in CtxIds(ctx) && tl.id !in CtxIds(ctx) && (tr.Node? ==> tr.id !in CtxIds(ctx))
    ensures y != tl.id && y != RootId(tr) && tl.id != RootId(tr) && z != tl.id && z != RootId(tr)
    ensures PId(ctx) != tl.id && PId(ctx) != RootId(tr)
  {
    var v := Node(zc, tl, y, yk, tr);
    TransplantShape(ctx, zc, tl, tr, z, y, yk, ns);
    DistinctFocus(ctx, v);
    DistinctNode(v);
    PlugIds(ctx, v);
    MatchesIds(tl, z, ns);
    MatchesIds(tr, z, ns);
    assert IdSeq(v) == IdSeq(tl) + [y] + IdSeq(tr);
    assert tl.id in IdSeq(tl) && tl.id in IdSeq(v) && y in IdSeq(v);
    if tr.Node? { assert tr.id in IdSeq(tr) && tr.id in IdSeq(v); }
    if ctx != [] {
      CtxIdsCons(ctx);
    }
  }

  /** After the transplant y's record and z's children describe the new
      subtree under z's parent. */
  lemma {:induction false} TransplantFocus(zc: Color, tl: Tree, tr: Tree, z: int, y: int, yk: int, p: int, ns: seq<NodeRec>, ns': seq<NodeRec>, ch: set<int>)
    requires Matches(tl, z, ns) && Matches(tr, z, ns) && Distinct(Node(zc, tl, y, yk, tr)) && tl.Node?
    requires 0 < y < |ns| && |ns'| == |ns| && Agree(ns, ns', ch)
    requires forall j :: j in ch && j != tl.id ==> j !in IdSeq(tl)
    requires forall j :: j in ch && j != RootId(tr) ==> j !in IdSeq(tr)
    requires ns'[y] == NodeRec(yk, zc, tl.id, RootId(tr), p, Size(tl) + Size(tr) + 1)
    requires ns'[tl.id] == ns[tl.id].(parent := y)
    requires tr.Node? ==> ns'[tr.id] == ns[tr.id].(parent := y)
    ensures Matches(Node(zc, tl, y, yk, tr), p, ns')
  {
    DistinctNode(Node(zc, tl, y, yk, tr));
    Reparent(tl, z, y, ns, ns', ch);
    Reparent(tr, z, y, ns, ns', ch);
  }

  /** The records after the transplant: z's children take y as parent, y's
      record is rebuilt from z's (links, colour, parent, and the size of the
      new subtree), and z's parent links to y and counts one node less. */
  ghost predicate Transplanted(ctx: seq<Frame>, zc: Color, tl: Tree, tr: Tree, z: int, y: int, yk: int, ns: seq<NodeRec>, ns': seq<NodeRec>)
  {
    Detached(ctx, zc, tl, tr, z, ns) && tl.Node? &&
    z !in IdSeq(Plug(ctx, Node(zc, tl, y, yk, tr))) && Distinct(Plug(ctx, Node(zc, tl, y, yk, tr))) &&
    0 < y < |ns| && 0 <= PId(ctx) < |ns| && |ns'| == |ns| &&
    Agree(ns, ns', {y, tl.id} + (if tr.Node? then {tr.id} else {}) + {PId(ctx)}) &&
    ns'[y] == NodeRec(yk, zc, tl.id, RootId(tr), PId(ctx), Size(tl) + Size(tr) + 1) &&
    ns'[tl.id] == ns[tl.id].(parent := y) &&
    (tr.Node? ==> ns'[tr.id] == ns[tr.id].(parent := y)) &&
    ns'[PId(ctx)].size + 1 == ns[PId(ctx)].size &&
    ns'[PId(ctx)] == Relinked(ctx, ns[PId(ctx)], y).(size := ns'[PId(ctx)].size)
  }

  /** The records Transplant writes, read against the trees: the arena then
      holds the new subtree at z's old place, with every size above it one
      too large. */
  lemma {:induction false} TransplantFacts(ctx: seq<Frame>, zc: Color, tl: Tree, tr: Tree, z: int, y: int, yk: int, ns: seq<NodeRec>, ns': seq<NodeRec>)
    requires Detached(ctx, zc, tl, tr, z, ns) && tl.Node?
    requires z !in IdSeq(Plug(ctx, Node(zc, tl, y, yk, tr))) && Distinct(Plug(ctx, Node(zc, tl, y, yk, tr)))
    requires 0 < y < |ns| && ns[y].key == yk
    requires TransplantWrites(ns, ns', z, y, Size(tl) + Size(tr) + 2)
    ensures MatchesZ(ctx, Node(zc, tl, y, yk, tr), ns', 1, -1)
  {
    TransplantShape(ctx, zc, tl, tr, z, y, yk, ns);
    SizeOfMatches(tl, z, ns);
    SizeOfMatches(tr, z, ns);
    assert Transplanted(ctx, zc, tl, tr, z, y, yk, ns, ns');
    TransplantFactsFocus(ctx, zc, tl, tr, z, y, yk, ns, ns');
    TransplantFactsCtx(ctx, zc, tl, tr, z, y, yk, ns, ns');
  }

  /** The new subtree itself. */
  lemma {:induction false} TransplantFactsFocus(ctx: seq<Frame>, zc: Color, tl: Tree, tr: Tree, z: int, y: int, yk: int, ns: seq<NodeRec>, ns': seq<NodeRec>)
    requires Transplanted(ctx, zc, tl, tr, z, y, yk, ns, ns')
    ensures Matches(Node(zc, tl, y, yk, tr), PId(ctx), ns')
  {
    var v := Node(zc, tl, y, yk, tr);
    var ch := {y, tl.id} + (if tr.Node? then {tr.id} else {});
    TransplantIds(ctx, zc, tl, tr, z, y, yk, ns);
    DistinctFocus(ctx, v);
    TransplantFocus(zc, tl, tr, z, y, yk, PId(ctx), ns, ns', ch + {PId(ctx)});
  }

  /** The path above it. */
  lemma {:induction false} TransplantFactsCtx(ctx: seq<Frame>, zc: Color, tl: Tree, tr: Tree, z: int, y: int, yk: int, ns: seq<NodeRec>, ns': seq<NodeRec>)
    requires Transplanted(ctx, zc, tl, tr, z, y, yk, ns, ns')
    ensures MatchesCtx(ctx, y, Size(Node(zc, tl, y, yk, tr)), ns', 1, -1)
  {
    var v := Node(zc, tl, y, yk, tr);
    var ch := {y, tl.id} + (if tr.Node? then {tr.id} else {});
    var big := Size(tl) + Size(tr) + 2;
    assert Detached(ctx, zc, tl, tr, z, ns);
    assert MatchesCtx(ctx, z, big, ns, 0, 0) && big == Size(v) + 1;
    assert Agree(ns, ns', ch + {PId(ctx)}) && 0 <= PId(ctx) < |ns| && |ns'| == |ns|;
    assert ns'[PId(ctx)].size + 1 == ns[PId(ctx)].size;
    assert ns'[PId(ctx)] == Relinked(ctx, ns[PId(ctx)], y).(size := ns'[PId(ctx)].size);
    TransplantShape(ctx, zc, tl, tr, z, y, yk, ns);
    TransplantIds(ctx, zc, tl, tr, z, y, yk, ns);
    RelinkDropIds(ctx, z, y, big, Size(v), ns, ns', tl.id, RootId(tr), ch);
  }

  /** RelinkDrop for the three nodes the transplant rewrites below z's parent. */
  lemma {:induction false} RelinkDropIds(ctx: seq<Frame>, cid: int, cid': int, big: nat, csz: nat, ns: seq<NodeRec>, ns': seq<NodeRec>, a: int, b: int, ch: set<int>)
    requires big == csz + 1 && MatchesCtx(ctx, cid, big, ns, 0, 0)
    requires ctx != [] ==> ctx[0].id !in IdSeq(ctx[0].sib) && ctx[0].id !in CtxIds(ctx[1..])
    requires |ns'| == |ns| && 0 <= PId(ctx) < |ns| && Agree(ns, ns', ch + {PId(ctx)})
    requires ch == {cid', a} + (if b != NIL then {b} else {})
    requires ns'[PId(ctx)].size + 1 == ns[PId(ctx)].size
    requires ns'[PId(ctx)] == Relinked(ctx, ns[PId(ctx)], cid').(size := ns'[PId(ctx)].size)
    requires 0 < cid' && 0 < a && (b != NIL ==> 0 < b)
    requires cid' !in CtxIds(ctx) && a !in CtxIds(ctx) && (b != NIL ==> b !in CtxIds(ctx))
    ensures MatchesCtx(ctx, cid', csz, ns', 1, -1)
  {
    RelinkDropAt(ctx, cid, cid', big, csz, ns, ns', ch);
  }

  /** RelinkDrop with the old size given by its own term. */
  lemma {:induction false} RelinkDropAt(ctx: seq<Frame>, cid: int, cid': int, big: nat, csz: nat, ns: seq<NodeRec>, ns': seq<NodeRec>, ch: set<int>)
    requires big == csz + 1 && MatchesCtx(ctx, cid, big, ns, 0, 0)
    requires ctx != [] ==> ctx[0].id !in IdSeq(ctx[0].sib) && ctx[0].id !in CtxIds(ctx[1..])
    requires |ns'| == |ns| && 0 <= PId(ctx) < |ns| && Agree(ns, ns', ch + {PId(ctx)})
    requires ns'[PId(ctx)].size + 1 == ns[PId(ctx)].size
    requires ns'[PId(ctx)] == Relinked(ctx, ns[PId(ctx)], cid').(size := ns'[PId(ctx)].size)
    requires END !in ch && forall i :: i in ch ==> i !in CtxIds(ctx)
    ensures MatchesCtx(ctx, cid', csz, ns', 1, -1)
  {
    RelinkDrop(ctx, cid, cid', csz, ns, ns', ch);
  }

  /** The links the transplant reads around z: z's children, its parent, and
      y, all different, with z's size counting its two subtrees and itself
      plus y. */
  ghost predicate TransplantReady(ns: seq<NodeRec>, z: int, y: int, zSize: nat)
  {
    0 < z < |ns| && 0 < y < |ns| && y != z &&
    var a, b, p := ns[z].left, ns[z].right, ns[z].parent;
    0 < a < |ns| && (b == NIL || 0 < b < |ns|) && 0 <= p < |ns| &&
    a != y && a != z && a != p && a != b && b != y && b != z && b != p && p != y && p != z &&
    zSize == SizeOf(ns, a) + SizeOf(ns, b) + 2 && ns[p].size >= 1
  }

  /** The records after the transplant: z's children take y as parent; y
      takes z's links, colour and parent and counts z's subtrees plus itself;
      z's parent links to y where it linked to z and counts one node less;
      every other record, z's own included, is unchanged. */
  ghost predicate TransplantWrites(ns: seq<NodeRec>, ns': seq<NodeRec>, z: int, y: int, zSize: nat)
  {
    TransplantReady(ns, z, y, zSize) &&
    var a, b, p := ns[z].left, ns[z].right, ns[z].parent;
    |ns'| == |ns| && Agree(ns, ns', {y, a} + (if b != NIL then {b} else {}) + {p}) &&
    ns'[a] == ns[a].(parent := y) &&
    (b != NIL ==> ns'[b] == ns[b].(parent := y)) &&
    ns'[y] == NodeRec(ns[y].key, ns[z].color, a, b, p, zSize - 1) &&
    ns'[p] == (if ns[p].left == z then ns[p].(left := y) else ns[p].(right := y)).(size := ns[p].size - 1)
  }

  /** The transplant of erase when y is z's successor: z's children are
      re-parented to y; then y's record takes z's links, the size of its new
      subtree and z's colour, z's parent's record is relinked to y and its
      size corrected, y takes z's parent, and both records are stored. */
  method Transplant(ns: seq<NodeRec>, z: int, y: int, zSize: nat) returns (ns': seq<NodeRec>)
    requires TransplantReady(ns, z, y, zSize)
    ensures TransplantWrites(ns, ns', z, y, zSize) && ns'[z] == ns[z]
  {
    var zl := ns[z].left;
    var zr := ns[z].right;
    ns' := ns[zl := ns[zl].(parent := y)];
    if zr != NIL {
      ns' := ns'[zr := ns'[zr].(parent := y)];
    }
    var yr := ns'[y].(left := zl, right := zr);
    yr := yr.(size := SizeOf(ns', zl) + SizeOf(ns', zr) + 1);
    yr := yr.(color := ns'[z].color);
    var zp := ns'[z].parent;
    var pr := if IsLeftChild(ns', z) then ns'[zp].(left := y) else ns'[zp].(right := y);
    pr := pr.(size := pr.size + yr.size - zSize);
    yr := yr.(parent := ns'[z].parent);
    ns' := ns'[y := yr][zp := pr];
  }

  // ---------------------------------------------------------------------------
  // The size walk above z

  /** Once the sentinel counts one node too many and nothing else is off,
      lowering its count makes the records hold the tree. */
  lemma {:induction false} EndDrop(u: Tree, ns: seq<NodeRec>)
    requires MatchesZ([], u, ns, 0, -1)
    ensures ns[END].size >= 1 && Holds(u, ns[END := ns[END].(size := ns[END].size - 1)])
  {
    MatchesIds(u, END, ns);
    MatchesFrame(u, END, ns, ns[END := ns[END].(size := ns[END].size - 1)], {END});
  }

  /** The last size walk of erase: when z's parent is not the sentinel,
      every record from z's grandparent up to the sentinel, and then the
      sentinel, loses one (z's parent already has).  Afterwards the records
      hold the whole tree exactly. */
  method DropAbove(ns: seq<NodeRec>, z: int, ghost ctx: seq<Frame>, ghost s: Tree) returns (ns': seq<NodeRec>)
    requires MatchesZ(ctx, s, ns, 1, -1) && Distinct(Plug(ctx, s))
    requires 0 < z < |ns| && ns[z].parent == PId(ctx)
    ensures |ns'| == |ns| && Holds(Plug(ctx, s), ns')
  {
    if ns[z].parent != END {
      var zp := ns[z].parent;
      assert ctx != [] && zp == ctx[0].id;
      ZUp(ctx, s, ns, 1, -1);
      assert ctx[1..] + [] == ctx[1..];
      ns' := DropSizes(ns, ns[zp].parent, END, ctx[1..], [], Plug1(ctx[0], s));
      EndDrop(Plug(ctx[1..], Plug1(ctx[0], s)), ns');
      ns' := ns'[END := ns'[END].(size := ns'[END].size - 1)];
    } else {
      ns' := ns;
      assert ctx == [];
    }
  }

  // ---------------------------------------------------------------------------
  // Choosing y

  /** The position after the focus in a tree's in-order ids, when the focus
      has a right subtree, is that subtree's first node. */
  lemma {:induction false} NextAfter(s: seq<int>, l: seq<int>, a: seq<int>, k: int, b: seq<int>, r: seq<int>, j: int)
    requires s == l + (a + [k] + b) + r && j == |l| + |a| && b != []
    ensures j + 1 < |s| && s[j + 1] == b[0]
  {
    assert s[j + 1] == (a + [k] + b)[|a| + 1];
  }

  /** The record of a zipper's focus; its links are null exactly where the
      subtrees are empty. */
  lemma {:induction false} FocusRecord(ctx: seq<Frame>, s: Tree, ns: seq<NodeRec>)
    requires s.Node? && Z(ctx, s, ns)
    ensures 0 < s.id < |ns| && ns[s.id] == NodeRec(s.key, s.color, RootId(s.left), RootId(s.right), PId(ctx), Size(s))
    ensures RootId(s.left) == NIL <==> s.left == Nil
    ensures RootId(s.right) == NIL <==> s.right == Nil
  {
    SizeOfMatches(s.left, s.id, ns);
    SizeOfMatches(s.right, s.id, ns);
  }

  /** The node that leaves the tree: z itself when z lacks a child, and
      otherwise z's successor, the leftmost node of z's right subtree. */

  method ChooseY(ns: seq<NodeRec>, z: int, ghost t: Tree, ghost i: nat, ghost ctxZ: seq<Frame>, ghost zs: Tree)
    returns (y: int, ghost cy: seq<Frame>, ghost ys: Tree)
    requires Holds(t, ns) && Distinct(t) && i < Size(t) && z == IdSeq(t)[i]
    requires Plug(ctxZ, zs) == t && zs.Node? && zs.id == z && Z(ctxZ, zs, ns)
    requires |CtxIdsL(ctxZ)| + Size(zs.left) == i
    ensures Chosen(zs, cy, ys) && y == ys.id && Z(CtxY(ctxZ, zs, cy), ys, ns)
    ensures y != z <==> TwoKids(zs)
  {
    FocusRecord(ctxZ, zs, ns);
    if ns[z].left != NIL && ns[z].right != NIL {
      y := Details.Successor(ns, z, t, i);
      ZDown(ctxZ, zs, ns);
      cy, ys := LeftmostZip([DownR(zs)] + ctxZ, zs.right, ns);
      assert cy + ([DownR(zs)] + ctxZ) == cy + [DownR(zs)] + ctxZ;
      PlugIds(ctxZ, zs);
      NextAfter(IdSeq(t), CtxIdsL(ctxZ), IdSeq(zs.left), zs.id, IdSeq(zs.right), CtxIdsR(ctxZ), i);
    } else {
      y, cy, ys := z, [], zs;
    }
  }

  // ---------------------------------------------------------------------------
  // Moving y into z's place

  /** y's parent is z exactly when y is z's right child. */
  lemma {:induction false} SuccParent(ctxZ: seq<Frame>, zs: Tree, cy: seq<Frame>, ys: Tree)
    requires Chosen(zs, cy, ys) && TwoKids(zs) && Distinct(zs)
    ensures PId(CtxY(ctxZ, zs, cy)) == zs.id <==> cy == []
  {
    if cy != [] {
      assert (cy + [DownR(zs)] + ctxZ)[0] == cy[0];
      DistinctNode(zs);
      FocusIn(cy[1..], Plug1(cy[0], ys));
    }
  }

  /** Before the transplant the links around z are as Transplant expects. */
  lemma {:induction false} MoveReady(ctxZ: seq<Frame>, zs: Tree, cy: seq<Frame>, ys: Tree, ns: seq<NodeRec>, zSize: nat)
    requires Chosen(zs, cy, ys) && TwoKids(zs) && zSize == Size(zs) && 0 < ys.id < |ns|
    requires Detached(ctxZ, zs.color, zs.left, Plug(cy, Child(ys)), zs.id, ns)
    requires zs.id !in IdSeq(Plug(ctxZ, Rest(zs, cy, ys))) && Distinct(Plug(ctxZ, Rest(zs, cy, ys)))
    ensures TransplantReady(ns, zs.id, ys.id, zSize)
  {
    var sr := Plug(cy, Child(ys));
    assert Rest(zs, cy, ys) == Node(zs.color, zs.left, ys.id, ys.key, sr);
    TransplantShape(ctxZ, zs.color, zs.left, sr, zs.id, ys.id, ys.key, ns);
    TransplantIds(ctxZ, zs.color, zs.left, sr, zs.id, ys.id, ys.key, ns);
    SizeOfMatches(zs.left, zs.id, ns);
    SizeOfMatches(sr, zs.id, ns);
    ChosenRight(zs, cy, ys);
  }

  /** The records Transplant writes, read against the zipper: the arena
      holds the subtree that replaces z's, with z's ancestors one too large. */
  lemma {:induction false} MovedFacts(ctxZ: seq<Frame>, zs: Tree, cy: seq<Frame>, ys: Tree, ns: seq<NodeRec>, ns': seq<NodeRec>, zSize: nat)
    requires Chosen(zs, cy, ys) && TwoKids(zs) && zSize == Size(zs) && 0 < ys.id < |ns| && ns[ys.id].key == ys.key
    requires Detached(ctxZ, zs.color, zs.left, Plug(cy, Child(ys)), zs.id, ns)
    requires zs.id !in IdSeq(Plug(ctxZ, Rest(zs, cy, ys))) && Distinct(Plug(ctxZ, Rest(zs, cy, ys)))
    requires TransplantWrites(ns, ns', zs.id, ys.id, zSize)
    ensures MatchesZ(ctxZ, Rest(zs, cy, ys), ns', 1, -1)
  {
    var sr := Plug(cy, Child(ys));
    assert Rest(zs, cy, ys) == Node(zs.color, zs.left, ys.id, ys.key, sr);
    ChosenRight(zs, cy, ys);
    TransplantFacts(ctxZ, zs.color, zs.left, sr, zs.id, ys.id, ys.key, ns, ns');
  }

  /** The size walk between y and z: when y's parent is not z, every record
      from y's grandparent up to (not including) z loses `dec`, the one node
      y's old parent has already given up.  Afterwards z is detached: the
      levels below it are exact and z itself still counts y. */
  method DropToZ(ns: seq<NodeRec>, z: int, y: int, x: int,
                 ghost ctxZ: seq<Frame>, ghost zs: Tree, ghost cy: seq<Frame>, ghost ys: Tree)
    returns (ns': seq<NodeRec>)
    requires Chosen(zs, cy, ys) && TwoKids(zs) && z == zs.id && y == ys.id && x == RootId(Child(ys))
    requires MatchesZ(CtxY(ctxZ, zs, cy), Child(ys), ns, 1, -1) && Distinct(Plug(CtxY(ctxZ, zs, cy), Child(ys)))
    requires Distinct(zs) && 0 < y < |ns| && ns[y].size == Size(ys) && ns[y].parent == PId(CtxY(ctxZ, zs, cy))
    ensures |ns'| == |ns| && Detached(ctxZ, zs.color, zs.left, Plug(cy, Child(ys)), z, ns')
    ensures ns'[y].key == ns[y].key
  {
    ghost var xs := Child(ys);
    ghost var f := DownR(zs);
    ghost var sr := Plug(cy, xs);
    ns' := ns;
    var yp := ns[y].parent;
    SuccParent(ctxZ, zs, cy, ys);
    if yp != z {
      ghost var c := cy + [f] + ctxZ;
      assert c[0] == cy[0] && c[1..] == cy[1..] + ([f] + ctxZ);
      SizeOfMatches(xs, yp, ns);
      var dec := if x != NIL then ns[y].size - ns[x].size else ns[y].size;
      assert dec == 1;
      ZUp(c, xs, ns, 1, -1);
      ns' := DropSizes(ns, ns[yp].parent, z, cy[1..], [f] + ctxZ, Plug1(cy[0], xs));
      DetachedOf(f, ctxZ, sr, ns', 0);
    } else {
      assert cy + [f] + ctxZ == [f] + ctxZ;
      DetachedOf(f, ctxZ, sr, ns', 1);
    }
  }

  /** The middle of erase when y is z's successor: the size walk up to z,
      then the transplant.  Afterwards the records hold the shortened tree
      at z's place, with z's ancestors still counting the removed node. */
  method MoveY(ns: seq<NodeRec>, z: int, y: int, x: int, zSize: nat,
               ghost ctxZ: seq<Frame>, ghost zs: Tree, ghost cy: seq<Frame>, ghost ys: Tree)
    returns (ns': seq<NodeRec>)
    requires Chosen(zs, cy, ys) && TwoKids(zs) && z == zs.id && y == ys.id && x == RootId(Child(ys))
    requires MatchesZ(CtxY(ctxZ, zs, cy), Child(ys), ns, 1, -1) && Distinct(Plug(CtxY(ctxZ, zs, cy), Child(ys)))
    requires Distinct(zs) && zs.id !in IdSeq(Plug(ctxZ, Rest(zs, cy, ys))) && Distinct(Plug(ctxZ, Rest(zs, cy, ys)))
    requires 0 < y < |ns| && ns[y].key == ys.key && ns[y].size == Size(ys) && ns[y].parent == PId(CtxY(ctxZ, zs, cy))
    requires zSize == Size(zs)
    ensures |ns'| == |ns| && MatchesZ(ctxZ, Rest(zs, cy, ys), ns', 1, -1)
    ensures 0 < z < |ns'| && ns'[z].parent == PId(ctxZ)
  {
    var ns2 := DropToZ(ns, z, y, x, ctxZ, zs, cy, ys);
    MoveReady(ctxZ, zs, cy, ys, ns2, zSize);
    ns' := Transplant(ns2, z, y, zSize);
    MovedFacts(ctxZ, zs, cy, ys, ns2, ns', zSize);
  }

  // ---------------------------------------------------------------------------
  // erase

  /** Where the root ends up when y takes z's place: at y when z was the
      root, and otherwise where it was. */
  lemma {:induction false} MovedRoot(ctxZ: seq<Frame>, zs: Tree, cy: seq<Frame>, ys: Tree)
    requires Chosen(zs, cy, ys) && TwoKids(zs)
    ensures RootId(Plug(ctxZ, Rest(zs, cy, ys))) == (if ctxZ == [] then ys.id else RootId(Plug(ctxZ, zs)))
  {
    PlugRoot(ctxZ, Rest(zs, cy, ys));
    PlugRoot(ctxZ, zs);
  }

  /** What the record-changing part of erase needs to know about the
      chosen y: where z and y sit, that y has at most one child, and that
      the tree before, during and after the change has distinct nodes. */
  ghost predicate Ready(ns: seq<NodeRec>, root: int, ctxZ: seq<Frame>, zs: Tree, cy: seq<Frame>, ys: Tree)
  {
    Chosen(zs, cy, ys) && Z(ctxZ, zs, ns) && Z(CtxY(ctxZ, zs, cy), ys, ns) &&
    (ys.left == Nil || ys.right == Nil) &&
    Plug(CtxY(ctxZ, zs, cy), ys) == Plug(ctxZ, zs) && root == RootId(Plug(ctxZ, zs)) &&
    Distinct(Plug(ctxZ, zs)) && Distinct(Plug(CtxY(ctxZ, zs, cy), Child(ys))) &&
    zs.id !in IdSeq(Plug(ctxZ, Rest(zs, cy, ys))) && Distinct(Plug(ctxZ, Rest(zs, cy, ys))) &&
    (ys.id != zs.id <==> TwoKids(zs))
  }

  /** The facts in Ready, from the position of z and the choice of y. */
  lemma {:induction false} PlanReady(t: Tree, i: nat, ns: seq<NodeRec>, root: int, ctxZ: seq<Frame>, zs: Tree, cy: seq<Frame>, ys: Tree)
    requires Holds(t, ns) && Distinct(t) && root == ns[END].left
    requires Plug(ctxZ, zs) == t && zs.Node? && Z(ctxZ, zs, ns)
    requires |CtxIdsL(ctxZ)| + Size(zs.left) == i && |CtxKeysL(ctxZ)| == |CtxIdsL(ctxZ)|
    requires Chosen(zs, cy, ys) && Z(CtxY(ctxZ, zs, cy), ys, ns) && (ys.id != zs.id <==> TwoKids(zs))
    ensures Ready(ns, root, ctxZ, zs, cy, ys)
  {
    var ctxY := CtxY(ctxZ, zs, cy);
    ChosenShape(ctxZ, zs, cy, ys);
    ChosenAfter(t, i, ctxZ, zs, cy, ys);
    DistinctFocus(ctxY, ys);
    DistinctNode(ys);
    DistinctDrop(ctxY, ys, Child(ys));
  }

  /** The tree after erase, before the fixup, from the choice of y: it is
      the old one without its i-th node, and y's colour says what the
      fixup has to repair. */
  lemma {:induction false} PlanAfter(t: Tree, i: nat, ctxZ: seq<Frame>, zs: Tree, cy: seq<Frame>, ys: Tree)
    requires RedBlackTree(t) && Distinct(t) && Plug(ctxZ, zs) == t && Chosen(zs, cy, ys)
    requires |CtxIdsL(ctxZ)| + Size(zs.left) == i && |CtxKeysL(ctxZ)| == |CtxIdsL(ctxZ)|
    ensures var ctxX, xs := CtxX(ctxZ, zs, cy, ys), Child(ys);
      Plug(ctxX, xs) == Plug(ctxZ, Rest(zs, cy, ys)) && Distinct(Plug(ctxX, xs)) &&
      i < Size(t) && Keys(Plug(ctxX, xs)) == Without(Keys(t), i) && IdSeq(Plug(ctxX, xs)) == Without(IdSeq(t), i) &&
      (ys.color == Red ==> xs == Nil && RedBlackTree(Plug(ctxX, Nil))) &&
      (ys.color == Black && xs.Node? ==> RedBlackTree(Plug(ctxX, Recolor(xs, Black)))) &&
      (ys.color == Black && xs == Nil && ctxX != [] ==> DelInv(ctxX, Nil)) &&
      (ctxX != [] ==> CtxY(ctxZ, zs, cy) != [] && ctxX[0].sib == CtxY(ctxZ, zs, cy)[0].sib)
  {
    var ctxY, ctxX := CtxY(ctxZ, zs, cy), CtxX(ctxZ, zs, cy, ys);
    ChosenShape(ctxZ, zs, cy, ys);
    ChosenAfter(t, i, ctxZ, zs, cy, ys);
    DelStart(ctxY, ys, ctxX, Child(ys));
    if ctxX != [] {
      assert ctxX[0].sib == ctxY[0].sib;
    }
  }

  /** The record-changing part of erase, up to the fixup: y is unlinked,
      takes z's place when it differs from z, and the ancestors' sizes are
      corrected.  The records then hold the tree with z's subtree replaced;
      x is y's old child, w its sibling, `root'` the new root and `yColor`
      y's original colour. */
  method Remove(ns: seq<NodeRec>, root: int, z: int, y: int,
                ghost ctxZ: seq<Frame>, ghost zs: Tree, ghost cy: seq<Frame>, ghost ys: Tree)
    returns (ns': seq<NodeRec>, x: int, w: int, root': int, yColor: Color)
    requires Ready(ns, root, ctxZ, zs, cy, ys) && z == zs.id && y == ys.id
    ensures |ns'| == |ns| && Holds(Plug(ctxZ, Rest(zs, cy, ys)), ns')
    ensures x == RootId(Child(ys)) && root' == RootId(Plug(ctxZ, Rest(zs, cy, ys))) && yColor == ys.color
    ensures CtxY(ctxZ, zs, cy) != [] ==> w == RootId(CtxY(ctxZ, zs, cy)[0].sib)
  {
    ghost var ctxY := CtxY(ctxZ, zs, cy);
    DistinctFocus(ctxZ, zs);
    FocusRecord(ctxY, ys, ns);
    UnlinkShape(ctxZ, zs, ns);
    UnlinkShape(ctxY, ys, ns);
    // z_size is read after the new links are written; they change no size.
    var zSize := ns[z].size;
    var ns1;
    ns1, x, w, root' := Unlink(ns, y, root, ctxY, ys);
    yColor := ns1[y].color;
    if y != z {
      ns' := MoveY(ns1, z, y, x, zSize, ctxZ, zs, cy, ys);
      MovedRoot(ctxZ, zs, cy, ys);
      if z == root' {
        root' := y;
      }
    } else {
      ns' := ns1;
    }
    ns' := DropAbove(ns', z, ctxZ, Rest(zs, cy, ys));
  }

  /** details::erase(root, z) for the node z at in-order position i of a
      red-black search tree: afterwards the records hold a red-black tree
      whose keys and nodes are the old ones without the i-th. */
  method Erase(ns: seq<NodeRec>, root: int, z: int, ghost t: Tree, ghost i: nat)
    returns (ns': seq<NodeRec>, ghost t': Tree)
    requires Holds(t, ns) && Distinct(t) && RedBlackTree(t) && i < Size(t) && z == IdSeq(t)[i] && root == ns[END].left
    ensures |ns'| == |ns| && Holds(t', ns') && RedBlackTree(t')
    ensures Keys(t') == Without(Keys(t), i) && IdSeq(t') == Without(IdSeq(t), i)
  {
    ghost var ctxZ, zs := FocusAt(t, i, ns);
    var y;
    ghost var cy, ys;
    y, cy, ys := ChooseY(ns, z, t, i, ctxZ, zs);
    PlanReady(t, i, ns, root, ctxZ, zs, cy, ys);
    PlanAfter(t, i, ctxZ, zs, cy, ys);
    var x, w, root', yColor;
    ns', x, w, root', yColor := Remove(ns, root, z, y, ctxZ, zs, cy, ys);
    ns', t' := Repair(ns', root', x, w, yColor, CtxX(ctxZ, zs, cy, ys), Child(ys));
  }

  /** The end of erase: when the removed colour was black and the tree is
      not empty, rb_erase_fixup restores the red-black shape; otherwise it
      already holds.  The keys and nodes stay in order. */
  method Repair(ns: seq<NodeRec>, root: int, x: int, w: int, yColor: Color, ghost ctxX: seq<Frame>, ghost xs: Tree)
    returns (ns': seq<NodeRec>, ghost t': Tree)
    requires Holds(Plug(ctxX, xs), ns) && Distinct(Plug(ctxX, xs)) && root == RootId(Plug(ctxX, xs)) && x == RootId(xs)
    requires yColor == Red ==> xs == Nil && RedBlackTree(Plug(ctxX, Nil))
    requires yColor == Black && xs.Node? ==> RedBlackTree(Plug(ctxX, Recolor(xs, Black)))
    requires yColor == Black && xs == Nil && ctxX != [] ==> DelInv(ctxX, Nil) && w == RootId(ctxX[0].sib)
    ensures |ns'| == |ns| && Holds(t', ns') && RedBlackTree(t')
    ensures Keys(t') == Keys(Plug(ctxX, xs)) && IdSeq(t') == IdSeq(Plug(ctxX, xs))
  {
    ns', t' := ns, Plug(ctxX, xs);
    if yColor == Black && root != NIL {
      ZHolds(ctxX, xs, ns);
      ns', t' := RbEraseFixup(ns, root, x, w, ctxX, xs);
    }
  }
}
