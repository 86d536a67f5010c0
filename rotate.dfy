/** Rotations on the linked nodes (details::left_rotate, details::right_rotate)
    and their size-maintaining forms used by the augmented tree.  Each works on
    the subtree at the focus of an exact zipper; the records afterwards hold
    the rotated tree value in the same context. */
module Rotate {
  import opened Trees
  import opened Arena

  /** The record at the top of a context after its child link on the focus
      side is redirected to `cid'`. */
  function Relinked(ctx: seq<Frame>, r: NodeRec, cid': int): NodeRec
  {
    if ctx == [] || ctx[0].dir == Left then r.(left := cid') else r.(right := cid')
  }

  /** Redirecting the link from the top of a context to a new focus root keeps
      the context, provided nothing else it mentions has changed. */
  lemma {:induction false} CtxRelink(ctx: seq<Frame>, cid: int, cid': int, csz: nat, ns: seq<NodeRec>, ns': seq<NodeRec>,
                  from: int, delta: int, ch: set<int>)
    requires MatchesCtx(ctx, cid, csz, ns, from, delta)
    requires ctx != [] ==> ctx[0].id !in IdSeq(ctx[0].sib) && ctx[0].id !in CtxIds(ctx[1..])
    requires |ns'| == |ns| && 0 <= PId(ctx) < |ns| && Agree(ns, ns', ch + {PId(ctx)})
    requires ns'[PId(ctx)] == Relinked(ctx, ns[PId(ctx)], cid')
    requires END !in ch && forall i :: i in ch ==> i !in CtxIds(ctx)
    ensures MatchesCtx(ctx, cid', csz, ns', from, delta)
  {
    if ctx != [] {
      var f := ctx[0];
      var ch' := ch + {f.id};
      CtxFresh(ctx, ch);
      MatchesFrame(f.sib, f.id, ns, ns', ch');
      MatchesCtxFrame(ctx[1..], f.id, csz + 1 + Size(f.sib), ns, ns', from - 1, delta, ch');
      MatchesCtxCons(ctx, cid', csz, ns', from, delta);
    }
  }

  /** No node of `t` is in `ch`. */
  predicate Outside(ch: set<int>, t: Tree)
  {
    forall i :: i in ch ==> i !in IdSeq(t)
  }

  /** The five parts of a rotation's subtree share no node. */
  lemma {:induction false} RotParts(cx: Color, a: Tree, x: int, kx: int, cy: Color, b: Tree, y: int, ky: int, c: Tree, ch: set<int>)
    requires Distinct(Node(cx, a, x, kx, Node(cy, b, y, ky, c)))
    requires Outside(ch, Node(cx, a, x, kx, Node(cy, b, y, ky, c)))
    ensures Outside(ch + {x, y} + Ids1(b), a) && Outside(ch + {x, y} + Ids1(b), c)
    ensures b.Node? ==> Outside(ch + {x, y} + Ids1(b), b.left) && Outside(ch + {x, y} + Ids1(b), b.right)
  {
    var t := Node(cx, a, x, kx, Node(cy, b, y, ky, c));
    DistinctNode(t);
    DistinctNode(t.right);
    assert IdSeq(t) == IdSeq(a) + [x] + (IdSeq(b) + [y] + IdSeq(c));
    OutsideParts(ch, t, {x, y} + Ids1(b), a);
    OutsideParts(ch, t, {x, y} + Ids1(b), c);
    if b.Node? {
      DistinctNode(b);
      assert IdSeq(b) == IdSeq(b.left) + [b.id] + IdSeq(b.right);
      OutsideParts(ch, t, {x, y} + Ids1(b), b.left);
      OutsideParts(ch, t, {x, y} + Ids1(b), b.right);
    }
  }

  /** A part `s` of `t` avoids what `t` avoids together with nodes of `t`
      that lie outside `s`. */
  lemma {:induction false} OutsideParts(ch: set<int>, t: Tree, own: set<int>, s: Tree)
    requires Outside(ch, t)
    requires forall i :: i in IdSeq(s) ==> i in IdSeq(t)
    requires forall i :: i in own ==> i !in IdSeq(s)
    ensures Outside(ch + own, s)
  {
  }

  /** The root of a subtree, as a set of at most one node. */
  function Ids1(b: Tree): set<int>
  {
    if b.Node? then {b.id} else {}
  }

  /** Records describing a left-rotated subtree: x and y rewritten, the root
      of the middle subtree b re-parented, no other node of the subtree touched. */
  lemma {:induction false} RotLMatches(cx: Color, a: Tree, x: int, kx: int, cy: Color, b: Tree, y: int, ky: int, c: Tree,
                    pid: int, ns: seq<NodeRec>, ns': seq<NodeRec>, ch: set<int>)
    requires Matches(Node(cx, a, x, kx, Node(cy, b, y, ky, c)), pid, ns)
    requires Distinct(Node(cx, a, x, kx, Node(cy, b, y, ky, c)))
    requires Outside(ch, Node(cx, a, x, kx, Node(cy, b, y, ky, c)))
    requires |ns'| == |ns| && Agree(ns, ns', ch + {x, y} + Ids1(b))
    requires 0 < x < |ns| && 0 < y < |ns| && (b.Node? ==> 0 < b.id < |ns|)
    requires ns'[x] == NodeRec(kx, cx, RootId(a), RootId(b), y, Size(a) + Size(b) + 1)
    requires ns'[y] == NodeRec(ky, cy, x, RootId(c), pid, Size(a) + Size(b) + Size(c) + 2)
    requires b.Node? ==> ns'[b.id] == ns[b.id].(parent := x)
    ensures Matches(Node(cy, Node(cx, a, x, kx, b), y, ky, c), pid, ns')
  {
    var all := ch + {x, y} + Ids1(b);
    RotParts(cx, a, x, kx, cy, b, y, ky, c, ch);
    assert Matches(Node(cy, b, y, ky, c), x, ns);
    MatchesFrame(a, x, ns, ns', all);
    MatchesFrame(c, y, ns, ns', all);
    if b.Node? {
      assert Matches(b, y, ns);
      MatchesFrame(b.left, b.id, ns, ns', all);
      MatchesFrame(b.right, b.id, ns, ns', all);
    }
  }

  /** Mirror of RotParts. */
  lemma {:induction false} RotRParts(cx: Color, cy: Color, a: Tree, y: int, ky: int, b: Tree, x: int, kx: int, c: Tree, ch: set<int>)
    requires Distinct(Node(cx, Node(cy, a, y, ky, b), x, kx, c))
    requires Outside(ch, Node(cx, Node(cy, a, y, ky, b), x, kx, c))
    ensures Outside(ch + {x, y} + Ids1(b), a) && Outside(ch + {x, y} + Ids1(b), c)
    ensures b.Node? ==> Outside(ch + {x, y} + Ids1(b), b.left) && Outside(ch + {x, y} + Ids1(b), b.right)
  {
    var t := Node(cx, Node(cy, a, y, ky, b), x, kx, c);
    DistinctNode(t);
    DistinctNode(t.left);
    assert IdSeq(t) == (IdSeq(a) + [y] + IdSeq(b)) + [x] + IdSeq(c);
    OutsideParts(ch, t, {x, y} + Ids1(b), a);
    OutsideParts(ch, t, {x, y} + Ids1(b), c);
    if b.Node? {
      DistinctNode(b);
      assert IdSeq(b) == IdSeq(b.left) + [b.id] + IdSeq(b.right);
      OutsideParts(ch, t, {x, y} + Ids1(b), b.left);
      OutsideParts(ch, t, {x, y} + Ids1(b), b.right);
    }
  }

  /** Mirror of RotLMatches for a right rotation. */
  lemma {:induction false} RotRMatches(cx: Color, cy: Color, a: Tree, y: int, ky: int, b: Tree, x: int, kx: int, c: Tree,
                    pid: int, ns: seq<NodeRec>, ns': seq<NodeRec>, ch: set<int>)
    requires Matches(Node(cx, Node(cy, a, y, ky, b), x, kx, c), pid, ns)
    requires Distinct(Node(cx, Node(cy, a, y, ky, b), x, kx, c))
    requires Outside(ch, Node(cx, Node(cy, a, y, ky, b), x, kx, c))
    requires |ns'| == |ns| && Agree(ns, ns', ch + {x, y} + Ids1(b))
    requires 0 < x < |ns| && 0 < y < |ns| && (b.Node? ==> 0 < b.id < |ns|)
    requires ns'[x] == NodeRec(kx, cx, RootId(b), RootId(c), y, Size(b) + Size(c) + 1)
    requires ns'[y] == NodeRec(ky, cy, RootId(a), x, pid, Size(a) + Size(b) + Size(c) + 2)
    requires b.Node? ==> ns'[b.id] == ns[b.id].(parent := x)
    ensures Matches(Node(cy, a, y, ky, Node(cx, b, x, kx, c)), pid, ns')
  {
    var all := ch + {x, y} + Ids1(b);
    RotRParts(cx, cy, a, y, ky, b, x, kx, c, ch);
    assert Matches(Node(cy, a, y, ky, b), x, ns);
    MatchesFrame(a, y, ns, ns', all);
    MatchesFrame(c, x, ns, ns', all);
    if b.Node? {
      assert Matches(b, y, ns);
      MatchesFrame(b.left, b.id, ns, ns', all);
      MatchesFrame(b.right, b.id, ns, ns', all);
    }
  }

  /** The records with the sizes of two nodes replaced. */
  function Resize(ns: seq<NodeRec>, x: int, sx: nat, y: int, sy: nat): (r: seq<NodeRec>)
    requires 0 <= x < |ns| && 0 <= y < |ns|
    ensures |r| == |ns|
  {
    ns[x := ns[x].(size := sx)][y := ns[y].(size := sy)]
  }

  /** Indices below zero never constrain an agreement. */
  lemma {:induction false} AgreeDropNil(ns: seq<NodeRec>, ns': seq<NodeRec>, ch: set<int>)
    requires Agree(ns, ns', ch + {NIL})
    ensures Agree(ns, ns', ch)
  {
  }

  /** The six writes of a rotation, on plain indices: x's inner link to
      `bl`, `bl`'s parent, y's parent, the parent's child link, y's inner
      link and x's parent.  `inner` names the side of x the rotation turns
      over (`Right` for a left rotation). */
  lemma {:induction false} RotWrites(ns: seq<NodeRec>, x: int, y: int, bl: int, p: int, goLeft: bool, inner: Side,
                  n1: seq<NodeRec>, n2: seq<NodeRec>, n3: seq<NodeRec>, n4: seq<NodeRec>, n5: seq<NodeRec>, n6: seq<NodeRec>)
    requires 0 < x < |ns| && 0 < y < |ns| && x != y && 0 <= p < |ns| && p != x && p != y
    requires bl != NIL ==> 0 < bl < |ns| && bl != x && bl != y && bl != p
    requires ns[x].parent == p
    requires inner == Right ==> ns[y].left == bl && n1 == ns[x := ns[x].(right := bl)]
    requires inner == Left ==> ns[y].right == bl && n1 == ns[x := ns[x].(left := bl)]
    requires n2 == if bl != NIL then n1[bl := n1[bl].(parent := x)] else n1
    requires n3 == n2[y := n2[y].(parent := n2[x].parent)]
    requires n4 == if goLeft then n3[p := n3[p].(left := y)] else n3[p := n3[p].(right := y)]
    requires inner == Right ==> n5 == n4[y := n4[y].(left := x)]
    requires inner == Left ==> n5 == n4[y := n4[y].(right := x)]
    requires n6 == n5[x := n5[x].(parent := y)]
    ensures |n6| == |ns| && Agree(ns, n6, {x, y, p, bl})
    ensures inner == Right ==> n6[x] == ns[x].(right := bl, parent := y) && n6[y] == ns[y].(left := x, parent := p)
    ensures inner == Left ==> n6[x] == ns[x].(left := bl, parent := y) && n6[y] == ns[y].(right := x, parent := p)
    ensures bl != NIL ==> n6[bl] == ns[bl].(parent := x)
    ensures n6[p] == if goLeft then ns[p].(left := y) else ns[p].(right := y)
  {
  }

  /** The context around a rotated subtree: once x's parent links to y and
      only x, y, the parent and the middle root `bl` (none of which but the
      parent the context mentions) are rewritten, the context holds the new
      focus root y. */
  lemma {:induction false} RotCtx(ctx: seq<Frame>, x: int, y: int, bl: int, sz: nat, ns: seq<NodeRec>, r: seq<NodeRec>, goLeft: bool)
    requires MatchesCtx(ctx, x, sz, ns, 0, 0)
    requires ctx != [] ==> ctx[0].id !in IdSeq(ctx[0].sib) && ctx[0].id !in CtxIds(ctx[1..])
    requires 0 <= PId(ctx) < |ns| && 0 < x < |ns| && 0 < y < |ns|
    requires x !in CtxIds(ctx) && y !in CtxIds(ctx) && (bl != NIL ==> bl !in CtxIds(ctx) && bl != END)
    requires PId(ctx) != x && PId(ctx) != y && PId(ctx) != bl
    requires |r| == |ns| && Agree(ns, r, {x, y, PId(ctx), bl})
    requires r[PId(ctx)] == if goLeft then ns[PId(ctx)].(left := y) else ns[PId(ctx)].(right := y)
    requires goLeft <==> ctx == [] || ctx[0].dir == Left
    ensures MatchesCtx(ctx, y, sz, r, 0, 0)
  {
    var ch := {x, y} + (if bl != NIL then {bl} else {});
    assert {x, y, PId(ctx), bl} <= ch + {PId(ctx)} + {NIL};
    AgreeDropNil(ns, r, ch + {PId(ctx)});
    assert r[PId(ctx)] == Relinked(ctx, ns[PId(ctx)], y);
    CtxRelink(ctx, x, y, sz, ns, r, 0, 0, ch);
  }

  // ---------------------------------------------------------------------------
  // Left rotation

  /** The records of x and y before a left rotation. */
  lemma {:induction false} RotLRecs(t: Tree, pid: int, ns: seq<NodeRec>)
    requires Matches(t, pid, ns) && t.Node? && t.right.Node?
    ensures 0 < t.id < |ns| && 0 < t.right.id < |ns|
    ensures ns[t.id] == NodeRec(t.key, t.color, RootId(t.left), t.right.id, pid, Size(t))
    ensures ns[t.right.id] == NodeRec(t.right.key, t.right.color, RootId(t.right.left), RootId(t.right.right), t.id, Size(t.right))
    ensures t.right.left.Node? ==> 0 < t.right.left.id < |ns|
  {
    assert Matches(t.right, t.id, ns);
    assert Matches(t.right.left, t.right.id, ns);
  }

  /** The nodes a left rotation rewrites are pairwise distinct, and none of
      x, y and the middle root belongs to the context or is its top. */
  lemma {:induction false} RotLIds(ctx: seq<Frame>, t: Tree, ns: seq<NodeRec>)
    requires Matches(t, PId(ctx), ns) && Distinct(Plug(ctx, t))
    requires t.Node? && t.right.Node?
    ensures t.id != t.right.id && Outside({PId(ctx)}, t)
    ensures PId(ctx) != t.id && PId(ctx) != t.right.id
    ensures t.id !in CtxIds(ctx) && t.right.id !in CtxIds(ctx)
    ensures t.right.left.Node? ==>
      t.right.left.id != t.id && t.right.left.id != t.right.id &&
      t.right.left.id != PId(ctx) && t.right.left.id !in CtxIds(ctx)
    ensures Distinct(t)
    ensures ctx != [] ==> ctx[0].id !in IdSeq(ctx[0].sib) && ctx[0].id !in CtxIds(ctx[1..])
  {
    DistinctFocus(ctx, t);
    if ctx != [] { DistinctFrame(ctx, t); }
    MatchesIds(t, PId(ctx), ns);
    DistinctNode(t);
    DistinctNode(t.right);
    assert t.id in IdSeq(t) && t.right.id in IdSeq(t);
    if t.right.left.Node? {
      assert t.right.left.id in IdSeq(t.right);
      assert t.right.left.id in IdSeq(t);
    }
  }

  /** The rotated subtree, from the final records of x, y and the middle root. */
  lemma {:induction false} RotLSub(t: Tree, pid: int, ns: seq<NodeRec>, r: seq<NodeRec>)
    requires t.Node? && t.right.Node? && Matches(t, pid, ns) && Distinct(t) && Outside({pid}, t)
    requires |r| == |ns| && Agree(ns, r, {t.id, t.right.id, pid, RootId(t.right.left)})
    requires 0 < t.id < |ns| && 0 < t.right.id < |ns|
    requires r[t.id] == NodeRec(t.key, t.color, RootId(t.left), RootId(t.right.left), t.right.id, Size(t.left) + Size(t.right.left) + 1)
    requires r[t.right.id] == NodeRec(t.right.key, t.right.color, t.id, RootId(t.right.right), pid, Size(t))
    requires t.right.left.Node? ==> 0 < t.right.left.id < |ns| && r[t.right.left.id] == ns[t.right.left.id].(parent := t.id)
    ensures Matches(RotL(t), pid, r)
  {
    var ch := {t.id, t.right.id} + Ids1(t.right.left) + {pid};
    assert {t.id, t.right.id, pid, RootId(t.right.left)} <= ch + {NIL};
    AgreeDropNil(ns, r, ch);
    RotLMatches(t.color, t.left, t.id, t.key, t.right.color, t.right.left, t.right.id, t.right.key, t.right.right,
                pid, ns, r, {pid});
  }

  /** The writes of a left rotation followed by the resizing of x and y. */
  lemma {:induction false} RotLResize(t: Tree, pid: int, p: int, ns: seq<NodeRec>, ns': seq<NodeRec>, goLeft: bool)
    requires t.Node? && t.right.Node? && Matches(t, pid, ns)
    requires t.id != t.right.id && 0 <= p < |ns| && p != t.id && p != t.right.id
    requires |ns'| == |ns| && Agree(ns, ns', {t.id, t.right.id, p, RootId(t.right.left)})
    requires 0 < t.id < |ns| && 0 < t.right.id < |ns| && (t.right.left.Node? ==> 0 < t.right.left.id < |ns|)
    requires ns'[t.id] == ns[t.id].(right := RootId(t.right.left), parent := t.right.id)
    requires ns'[t.right.id] == ns[t.right.id].(left := t.id, parent := pid)
    requires t.right.left.Node? ==> ns'[t.right.left.id] == ns[t.right.left.id].(parent := t.id)
    requires ns'[p] == if goLeft then ns[p].(left := t.right.id) else ns[p].(right := t.right.id)
    ensures Agree(ns, Resize(ns', t.id, Size(t.left) + Size(t.right.left) + 1, t.right.id, Size(t)),
                  {t.id, t.right.id, p, RootId(t.right.left)})
    ensures Resize(ns', t.id, Size(t.left) + Size(t.right.left) + 1, t.right.id, Size(t))[t.id] ==
            NodeRec(t.key, t.color, RootId(t.left), RootId(t.right.left), t.right.id, Size(t.left) + Size(t.right.left) + 1)
    ensures Resize(ns', t.id, Size(t.left) + Size(t.right.left) + 1, t.right.id, Size(t))[t.right.id] ==
            NodeRec(t.right.key, t.right.color, t.id, RootId(t.right.right), pid, Size(t))
    ensures t.right.left.Node? ==>
      Resize(ns', t.id, Size(t.left) + Size(t.right.left) + 1, t.right.id, Size(t))[t.right.left.id] ==
      ns[t.right.left.id].(parent := t.id)
    ensures Resize(ns', t.id, Size(t.left) + Size(t.right.left) + 1, t.right.id, Size(t))[p] ==
            if goLeft then ns[p].(left := t.right.id) else ns[p].(right := t.right.id)
  {
    RotLRecs(t, pid, ns);
  }

  /** After the writes of a left rotation and the resizing of x and y, the
      records hold the rotated subtree. */
  lemma {:induction false} RotLZSub(ctx: seq<Frame>, t: Tree, ns: seq<NodeRec>, ns': seq<NodeRec>, goLeft: bool)
    requires Z(ctx, t, ns) && Distinct(Plug(ctx, t)) && t.Node? && t.right.Node?
    requires 0 < t.id < |ns| && 0 < t.right.id < |ns| && (t.right.left.Node? ==> 0 < t.right.left.id < |ns|)
    requires |ns'| == |ns| && Agree(ns, ns', {t.id, t.right.id, PId(ctx), RootId(t.right.left)})
    requires ns'[t.id] == ns[t.id].(right := RootId(t.right.left), parent := t.right.id)
    requires ns'[t.right.id] == ns[t.right.id].(left := t.id, parent := PId(ctx))
    requires t.right.left.Node? ==> ns'[t.right.left.id] == ns[t.right.left.id].(parent := t.id)
    requires ns'[PId(ctx)] == if goLeft then ns[PId(ctx)].(left := t.right.id) else ns[PId(ctx)].(right := t.right.id)
    requires goLeft <==> ctx == [] || ctx[0].dir == Left
    ensures Matches(RotL(t), PId(ctx), Resize(ns', t.id, Size(t.left) + Size(t.right.left) + 1, t.right.id, Size(t)))
  {
    RotLRecs(t, PId(ctx), ns);
    RotLIds(ctx, t, ns);
    RotLResize(t, PId(ctx), PId(ctx), ns, ns', goLeft);
    RotLSub(t, PId(ctx), ns, Resize(ns', t.id, Size(t.left) + Size(t.right.left) + 1, t.right.id, Size(t)));
  }

  /** After the same writes and resizing, the context holds the new subtree
      root y. */
  lemma {:induction false} RotLZCtx(ctx: seq<Frame>, t: Tree, ns: seq<NodeRec>, ns': seq<NodeRec>, goLeft: bool)
    requires Z(ctx, t, ns) && Distinct(Plug(ctx, t)) && t.Node? && t.right.Node?
    requires 0 < t.id < |ns| && 0 < t.right.id < |ns| && (t.right.left.Node? ==> 0 < t.right.left.id < |ns|)
    requires |ns'| == |ns| && Agree(ns, ns', {t.id, t.right.id, PId(ctx), RootId(t.right.left)})
    requires ns'[t.id] == ns[t.id].(right := RootId(t.right.left), parent := t.right.id)
    requires ns'[t.right.id] == ns[t.right.id].(left := t.id, parent := PId(ctx))
    requires t.right.left.Node? ==> ns'[t.right.left.id] == ns[t.right.left.id].(parent := t.id)
    requires ns'[PId(ctx)] == if goLeft then ns[PId(ctx)].(left := t.right.id) else ns[PId(ctx)].(right := t.right.id)
    requires goLeft <==> ctx == [] || ctx[0].dir == Left
    ensures MatchesCtx(ctx, t.right.id, Size(t), Resize(ns', t.id, Size(t.left) + Size(t.right.left) + 1, t.right.id, Size(t)), 0, 0)
  {
    RotLRecs(t, PId(ctx), ns);
    RotLIds(ctx, t, ns);
    RotLResize(t, PId(ctx), PId(ctx), ns, ns', goLeft);
    RotCtx(ctx, t.id, t.right.id, RootId(t.right.left), Size(t), ns, Resize(ns', t.id, Size(t.left) + Size(t.right.left) + 1, t.right.id, Size(t)), goLeft);
  }

  /** details::left_rotate on the subtree at the focus of an exact zipper.
      Afterwards the links describe the rotated subtree in the same context;
      the two rotated nodes keep their old size fields, and only x, y, the
      root of the middle subtree and x's old parent are rewritten. */
  method LeftRotate(ns: seq<NodeRec>, x: int, ghost ctx: seq<Frame>, ghost t: Tree) returns (ns': seq<NodeRec>)
    requires Z(ctx, t, ns) && Distinct(Plug(ctx, t))
    requires t.Node? && t.id == x && t.right.Node?
    ensures |ns'| == |ns| && 0 < x < |ns| && 0 < t.right.id < |ns|
    ensures ns'[x].size == ns[x].size && ns'[t.right.id].size == ns[t.right.id].size
    ensures Z(ctx, RotL(t), Resize(ns', x, Size(t.left) + Size(t.right.left) + 1, t.right.id, Size(t)))
    ensures Agree(ns, ns', {x, t.right.id, PId(ctx), RootId(t.right.left)})
  {
    RotLRecs(t, PId(ctx), ns);
    RotLIds(ctx, t, ns);
    IsLeftChildZ(ctx, t, ns, 0, 0);
    var y := ns[x].right;
    ns' := ns[x := ns[x].(right := ns[y].left)];
    ghost var n1 := ns';
    if ns'[y].left != NIL {
      var bl := ns'[y].left;
      ns' := ns'[bl := ns'[bl].(parent := x)];
    }
    ghost var n2 := ns';
    ns' := ns'[y := ns'[y].(parent := ns'[x].parent)];
    ghost var n3 := ns';
    var p := ns'[x].parent;
    var goLeft := IsLeftChild(ns', x);
    if goLeft {
      ns' := ns'[p := ns'[p].(left := y)];
    } else {
      ns' := ns'[p := ns'[p].(right := y)];
    }
    ghost var n4 := ns';
    ns' := ns'[y := ns'[y].(left := x)];
    ghost var n5 := ns';
    ns' := ns'[x := ns'[x].(parent := y)];
    RotWrites(ns, x, y, RootId(t.right.left), PId(ctx), goLeft, Right, n1, n2, n3, n4, n5, ns');
    RotLZSub(ctx, t, ns, ns', goLeft);
    RotLZCtx(ctx, t, ns, ns', goLeft);
  }

  // ---------------------------------------------------------------------------
  // Right rotation

  /** The records of x and y before a right rotation. */
  lemma {:induction false} RotRRecs(t: Tree, pid: int, ns: seq<NodeRec>)
    requires Matches(t, pid, ns) && t.Node? && t.left.Node?
    ensures 0 < t.id < |ns| && 0 < t.left.id < |ns|
    ensures ns[t.id] == NodeRec(t.key, t.color, t.left.id, RootId(t.right), pid, Size(t))
    ensures ns[t.left.id] == NodeRec(t.left.key, t.left.color, RootId(t.left.left), RootId(t.left.right), t.id, Size(t.left))
    ensures t.left.right.Node? ==> 0 < t.left.right.id < |ns|
  {
    assert Matches(t.left, t.id, ns);
    assert Matches(t.left.right, t.left.id, ns);
  }

  /** Mirror of RotLIds. */
  lemma {:induction false} RotRIds(ctx: seq<Frame>, t: Tree, ns: seq<NodeRec>)
    requires Matches(t, PId(ctx), ns) && Distinct(Plug(ctx, t))
    requires t.Node? && t.left.Node?
    ensures t.id != t.left.id && Outside({PId(ctx)}, t)
    ensures PId(ctx) != t.id && PId(ctx) != t.left.id
    ensures t.id !in CtxIds(ctx) && t.left.id !in CtxIds(ctx)
    ensures t.left.right.Node? ==>
      t.left.right.id != t.id && t.left.right.id != t.left.id &&
      t.left.right.id != PId(ctx) && t.left.right.id !in CtxIds(ctx)
    ensures Distinct(t)
    ensures ctx != [] ==> ctx[0].id !in IdSeq(ctx[0].sib) && ctx[0].id !in CtxIds(ctx[1..])
  {
    DistinctFocus(ctx, t);
    if ctx != [] { DistinctFrame(ctx, t); }
    MatchesIds(t, PId(ctx), ns);
    DistinctNode(t);
    DistinctNode(t.left);
    assert t.id in IdSeq(t) && t.left.id in IdSeq(t);
    if t.left.right.Node? {
      assert t.left.right.id in IdSeq(t.left);
      assert t.left.right.id in IdSeq(t);
    }
  }

  /** Mirror of RotLSub. */
  lemma {:induction false} RotRSub(t: Tree, pid: int, ns: seq<NodeRec>, r: seq<NodeRec>)
    requires t.Node? && t.left.Node? && Matches(t, pid, ns) && Distinct(t) && Outside({pid}, t)
    requires |r| == |ns| && Agree(ns, r, {t.id, t.left.id, pid, RootId(t.left.right)})
    requires 0 < t.id < |ns| && 0 < t.left.id < |ns|
    requires r[t.id] == NodeRec(t.key, t.color, RootId(t.left.right), RootId(t.right), t.left.id, Size(t.left.right) + Size(t.right) + 1)
    requires r[t.left.id] == NodeRec(t.left.key, t.left.color, RootId(t.left.left), t.id, pid, Size(t))
    requires t.left.right.Node? ==> 0 < t.left.right.id < |ns| && r[t.left.right.id] == ns[t.left.right.id].(parent := t.id)
    ensures Matches(RotR(t), pid, r)
  {
    var ch := {t.id, t.left.id} + Ids1(t.left.right) + {pid};
    assert {t.id, t.left.id, pid, RootId(t.left.right)} <= ch + {NIL};
    AgreeDropNil(ns, r, ch);
    RotRMatches(t.color, t.left.color, t.left.left, t.left.id, t.left.key, t.left.right, t.id, t.key, t.right,
                pid, ns, r, {pid});
  }

  /** Mirror of RotLResize. */
  lemma {:induction false} RotRResize(t: Tree, pid: int, p: int, ns: seq<NodeRec>, ns': seq<NodeRec>, goLeft: bool)
    requires t.Node? && t.left.Node? && Matches(t, pid, ns)
    requires t.id != t.left.id && 0 <= p < |ns| && p != t.id && p != t.left.id
    requires |ns'| == |ns| && Agree(ns, ns', {t.id, t.left.id, p, RootId(t.left.right)})
    requires 0 < t.id < |ns| && 0 < t.left.id < |ns| && (t.left.right.Node? ==> 0 < t.left.right.id < |ns|)
    requires ns'[t.id] == ns[t.id].(left := RootId(t.left.right), parent := t.left.id)
    requires ns'[t.left.id] == ns[t.left.id].(right := t.id, parent := pid)
    requires t.left.right.Node? ==> ns'[t.left.right.id] == ns[t.left.right.id].(parent := t.id)
    requires ns'[p] == if goLeft then ns[p].(left := t.left.id) else ns[p].(right := t.left.id)
    ensures Agree(ns, Resize(ns', t.id, Size(t.left.right) + Size(t.right) + 1, t.left.id, Size(t)), {t.id, t.left.id, p, RootId(t.left.right)})
    ensures Resize(ns', t.id, Size(t.left.right) + Size(t.right) + 1, t.left.id, Size(t))[t.id] == NodeRec(t.key, t.color, RootId(t.left.right), RootId(t.right), t.left.id, Size(t.left.right) + Size(t.right) + 1)
    ensures Resize(ns', t.id, Size(t.left.right) + Size(t.right) + 1, t.left.id, Size(t))[t.left.id] == NodeRec(t.left.key, t.left.color, RootId(t.left.left), t.id, pid, Size(t))
    ensures t.left.right.Node? ==> Resize(ns', t.id, Size(t.left.right) + Size(t.right) + 1, t.left.id, Size(t))[t.left.right.id] == ns[t.left.right.id].(parent := t.id)
    ensures Resize(ns', t.id, Size(t.left.right) + Size(t.right) + 1, t.left.id, Size(t))[p] == if goLeft then ns[p].(left := t.left.id) else ns[p].(right := t.left.id)
  {
    RotRRecs(t, pid, ns);
  }

  /** Mirror of RotLZSub. */
  lemma {:induction false} RotRZSub(ctx: seq<Frame>, t: Tree, ns: seq<NodeRec>, ns': seq<NodeRec>, goLeft: bool)
    requires Z(ctx, t, ns) && Distinct(Plug(ctx, t)) && t.Node? && t.left.Node?
    requires 0 < t.id < |ns| && 0 < t.left.id < |ns| && (t.left.right.Node? ==> 0 < t.left.right.id < |ns|)
    requires |ns'| == |ns| && Agree(ns, ns', {t.id, t.left.id, PId(ctx), RootId(t.left.right)})
    requires ns'[t.id] == ns[t.id].(left := RootId(t.left.right), parent := t.left.id)
    requires ns'[t.left.id] == ns[t.left.id].(right := t.id, parent := PId(ctx))
    requires t.left.right.Node? ==> ns'[t.left.right.id] == ns[t.left.right.id].(parent := t.id)
    requires ns'[PId(ctx)] == if goLeft then ns[PId(ctx)].(left := t.left.id) else ns[PId(ctx)].(right := t.left.id)
    requires goLeft <==> ctx == [] || ctx[0].dir == Left
    ensures Matches(RotR(t), PId(ctx), Resize(ns', t.id, Size(t.left.right) + Size(t.right) + 1, t.left.id, Size(t)))
  {
    RotRRecs(t, PId(ctx), ns);
    RotRIds(ctx, t, ns);
    RotRResize(t, PId(ctx), PId(ctx), ns, ns', goLeft);
    RotRSub(t, PId(ctx), ns, Resize(ns', t.id, Size(t.left.right) + Size(t.right) + 1, t.left.id, Size(t)));
  }

  /** Mirror of RotLZCtx. */
  lemma {:induction false} RotRZCtx(ctx: seq<Frame>, t: Tree, ns: seq<NodeRec>, ns': seq<NodeRec>, goLeft: bool)
    requires Z(ctx, t, ns) && Distinct(Plug(ctx, t)) && t.Node? && t.left.Node?
    requires 0 < t.id < |ns| && 0 < t.left.id < |ns| && (t.left.right.Node? ==> 0 < t.left.right.id < |ns|)
    requires |ns'| == |ns| && Agree(ns, ns', {t.id, t.left.id, PId(ctx), RootId(t.left.right)})
    requires ns'[t.id] == ns[t.id].(left := RootId(t.left.right), parent := t.left.id)
    requires ns'[t.left.id] == ns[t.left.id].(right := t.id, parent := PId(ctx))
    requires t.left.right.Node? ==> ns'[t.left.right.id] == ns[t.left.right.id].(parent := t.id)
    requires ns'[PId(ctx)] == if goLeft then ns[PId(ctx)].(left := t.left.id) else ns[PId(ctx)].(right := t.left.id)
    requires goLeft <==> ctx == [] || ctx[0].dir == Left
    ensures MatchesCtx(ctx, t.left.id, Size(t), Resize(ns', t.id, Size(t.left.right) + Size(t.right) + 1, t.left.id, Size(t)), 0, 0)
  {
    RotRRecs(t, PId(ctx), ns);
    RotRIds(ctx, t, ns);
    RotRResize(t, PId(ctx), PId(ctx), ns, ns', goLeft);
    RotCtx(ctx, t.id, t.left.id, RootId(t.left.right), Size(t), ns, Resize(ns', t.id, Size(t.left.right) + Size(t.right) + 1, t.left.id, Size(t)), goLeft);
  }

  /** details::right_rotate, the mirror of LeftRotate; the parent's side is
      read as `x == parent.left` in place. */
  method RightRotate(ns: seq<NodeRec>, x: int, ghost ctx: seq<Frame>, ghost t: Tree) returns (ns': seq<NodeRec>)
    requires Z(ctx, t, ns) && Distinct(Plug(ctx, t))
    requires t.Node? && t.id == x && t.left.Node?
    ensures |ns'| == |ns| && 0 < x < |ns| && 0 < t.left.id < |ns|
    ensures ns'[x].size == ns[x].size && ns'[t.left.id].size == ns[t.left.id].size
    ensures Z(ctx, RotR(t), Resize(ns', x, Size(t.left.right) + Size(t.right) + 1, t.left.id, Size(t)))
    ensures Agree(ns, ns', {x, t.left.id, PId(ctx), RootId(t.left.right)})
  {
    RotRRecs(t, PId(ctx), ns);
    RotRIds(ctx, t, ns);
    IsLeftChildZ(ctx, t, ns, 0, 0);
    var y := ns[x].left;
    ns' := ns[x := ns[x].(left := ns[y].right)];
    ghost var n1 := ns';
    if ns'[y].right != NIL {
      var br := ns'[y].right;
      ns' := ns'[br := ns'[br].(parent := x)];
    }
    ghost var n2 := ns';
    ns' := ns'[y := ns'[y].(parent := ns'[x].parent)];
    ghost var n3 := ns';
    var p := ns'[x].parent;
    var goLeft := x == ns'[p].left;
    if goLeft {
      ns' := ns'[p := ns'[p].(left := y)];
    } else {
      ns' := ns'[p := ns'[p].(right := y)];
    }
    ghost var n4 := ns';
    ns' := ns'[y := ns'[y].(right := x)];
    ghost var n5 := ns';
    ns' := ns'[x := ns'[x].(parent := y)];
    RotWrites(ns, x, y, RootId(t.left.right), PId(ctx), goLeft, Left, n1, n2, n3, n4, n5, ns');
    RotRZSub(ctx, t, ns, ns', goLeft);
    RotRZCtx(ctx, t, ns, ns', goLeft);
  }

  // ---------------------------------------------------------------------------
  // Rotations that recompute the two sizes

  /** A subtree that avoids the two resized nodes reads the same size from
      the records before resizing. */
  lemma {:induction false} PlusChild(c: Tree, pid: int, ns: seq<NodeRec>, x: int, sx: nat, y: int, sy: nat)
    requires 0 <= x < |ns| && 0 <= y < |ns|
    requires Matches(c, pid, Resize(ns, x, sx, y, sy))
    requires x !in IdSeq(c) && y !in IdSeq(c)
    ensures RootId(c) == NIL || 0 < RootId(c) < |ns|
    ensures RootId(c) != x && SizeOf(ns, RootId(c)) == Size(c)
  {
    if c.Node? {
      assert c.id in IdSeq(c);
    }
  }

  /** In records that hold the left-rotated subtree `r` = (y (x a b) c) up to
      the sizes of x and y, the links and sizes the size update reads. */
  lemma {:induction false} PlusSizesL(r: Tree, pid: int, ns: seq<NodeRec>, sx: nat, sy: nat)
    requires r.Node? && r.left.Node? && Distinct(r)
    requires 0 < r.id < |ns| && 0 < r.left.id < |ns|
    requires Matches(r, pid, Resize(ns, r.left.id, sx, r.id, sy))
    ensures r.left.id != r.id && ns[r.left.id].parent == r.id
    ensures ns[r.left.id].left == RootId(r.left.left) && ns[r.left.id].right == RootId(r.left.right)
    ensures ns[r.id].right == RootId(r.right)
    ensures RootId(r.left.left) == NIL || 0 < RootId(r.left.left) < |ns|
    ensures RootId(r.left.right) == NIL || 0 < RootId(r.left.right) < |ns|
    ensures RootId(r.right) == NIL || 0 < RootId(r.right) < |ns|
    ensures RootId(r.right) != r.left.id
    ensures SizeOf(ns, RootId(r.left.left)) == Size(r.left.left)
    ensures SizeOf(ns, RootId(r.left.right)) == Size(r.left.right)
    ensures SizeOf(ns, RootId(r.right)) == Size(r.right)
  {
    var x, y := r.left.id, r.id;
    var R := Resize(ns, x, sx, y, sy);
    DistinctNode(r);
    DistinctNode(r.left);
    assert IdSeq(r.left) == IdSeq(r.left.left) + [x] + IdSeq(r.left.right);
    assert x in IdSeq(r.left);
    assert Matches(r.left, y, R);
    PlusChild(r.left.left, x, ns, x, sx, y, sy);
    PlusChild(r.left.right, x, ns, x, sx, y, sy);
    PlusChild(r.right, y, ns, x, sx, y, sy);
  }

  /** The mirror: records holding the right-rotated subtree (y a (x b c)). */
  lemma {:induction false} PlusSizesR(r: Tree, pid: int, ns: seq<NodeRec>, sx: nat, sy: nat)
    requires r.Node? && r.right.Node? && Distinct(r)
    requires 0 < r.id < |ns| && 0 < r.right.id < |ns|
    requires Matches(r, pid, Resize(ns, r.right.id, sx, r.id, sy))
    ensures r.right.id != r.id && ns[r.right.id].parent == r.id
    ensures ns[r.right.id].left == RootId(r.right.left) && ns[r.right.id].right == RootId(r.right.right)
    ensures ns[r.id].left == RootId(r.left)
    ensures RootId(r.right.left) == NIL || 0 < RootId(r.right.left) < |ns|
    ensures RootId(r.right.right) == NIL || 0 < RootId(r.right.right) < |ns|
    ensures RootId(r.left) == NIL || 0 < RootId(r.left) < |ns|
    ensures RootId(r.left) != r.right.id
    ensures SizeOf(ns, RootId(r.right.left)) == Size(r.right.left)
    ensures SizeOf(ns, RootId(r.right.right)) == Size(r.right.right)
    ensures SizeOf(ns, RootId(r.left)) == Size(r.left)
  {
    var x, y := r.right.id, r.id;
    var R := Resize(ns, x, sx, y, sy);
    DistinctNode(r);
    DistinctNode(r.right);
    assert IdSeq(r.right) == IdSeq(r.right.left) + [x] + IdSeq(r.right.right);
    assert x in IdSeq(r.right);
    assert Matches(r.right, y, R);
    PlusChild(r.right.left, x, ns, x, sx, y, sy);
    PlusChild(r.right.right, x, ns, x, sx, y, sy);
    PlusChild(r.left, y, ns, x, sx, y, sy);
  }

  /** left_rotate_plus: a left rotation at x, then x's size recomputed from
      its new children and y's from x's and its right child's.  Afterwards
      the records hold the rotated subtree exactly, sizes included. */
  method LeftRotatePlus(ns: seq<NodeRec>, x: int, ghost ctx: seq<Frame>, ghost t: Tree) returns (ns': seq<NodeRec>)
    requires Z(ctx, t, ns) && Distinct(Plug(ctx, t))
    requires t.Node? && t.id == x && t.right.Node?
    ensures |ns'| == |ns| && Z(ctx, RotL(t), ns')
    ensures Agree(ns, ns', {x, t.right.id, PId(ctx), RootId(t.right.left)})
  {
    ns' := LeftRotate(ns, x, ctx, t);
    ghost var sx, sy := Size(t.left) + Size(t.right.left) + 1, Size(t);
    ghost var r := Resize(ns', x, sx, t.right.id, sy);
    DistinctFocus(ctx, t);
    PlusSizesL(RotL(t), PId(ctx), ns', sx, sy);
    var y := ns'[x].parent;
    var xs := SizeOf(ns', ns'[x].left) + SizeOf(ns', ns'[x].right) + 1;
    ns' := ns'[x := ns'[x].(size := xs)];
    var ys := ns'[x].size + SizeOf(ns', ns'[y].right) + 1;
    assert xs == sx && ys == sy;
    ns' := ns'[y := ns'[y].(size := ys)];
    assert ns' == r;
  }

  /** right_rotate_plus: the mirror of LeftRotatePlus. */
  method RightRotatePlus(ns: seq<NodeRec>, x: int, ghost ctx: seq<Frame>, ghost t: Tree) returns (ns': seq<NodeRec>)
    requires Z(ctx, t, ns) && Distinct(Plug(ctx, t))
    requires t.Node? && t.id == x && t.left.Node?
    ensures |ns'| == |ns| && Z(ctx, RotR(t), ns')
    ensures Agree(ns, ns', {x, t.left.id, PId(ctx), RootId(t.left.right)})
  {
    ns' := RightRotate(ns, x, ctx, t);
    ghost var sx, sy := Size(t.left.right) + Size(t.right) + 1, Size(t);
    ghost var r := Resize(ns', x, sx, t.left.id, sy);
    DistinctFocus(ctx, t);
    PlusSizesR(RotR(t), PId(ctx), ns', sx, sy);
    var y := ns'[x].parent;
    var xs := SizeOf(ns', ns'[x].left) + SizeOf(ns', ns'[x].right) + 1;
    ns' := ns'[x := ns'[x].(size := xs)];
    var ys := ns'[x].size + SizeOf(ns', ns'[y].left) + 1;
    assert xs == sx && ys == sy;
    ns' := ns'[y := ns'[y].(size := ys)];
    assert ns' == r;
  }
}
