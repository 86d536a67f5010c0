/** The linked nodes of the tree as an arena: a sequence of node records
    indexed by node identity.  Index 0 is the sentinel end node, whose `left`
    link is the root and whose `size` is the element count plus one; -1 is the
    null link.  `Matches` ties a record sequence to a `Tree` value, and the
    zipper form `MatchesZ` describes the records around a focused subtree,
    allowing the sizes of a prefix of the ancestors to be off by a fixed
    amount while an ancestor walk is under way. */
module Arena {
  import opened Trees

  const NIL: int := -1
  const END: int := 0

  datatype NodeRec = NodeRec(key: int, color: Color, left: int, right: int, parent: int, size: nat)

  /** The records reachable from `t`'s root describe exactly `t`, whose root's
      parent link is `pid`. */
  predicate Matches(t: Tree, pid: int, ns: seq<NodeRec>)
  {
    match t
    case Nil => true
    case Node(c, l, i, k, r) =>
      0 < i < |ns| &&
      ns[i] == NodeRec(k, c, RootId(l), RootId(r), pid, Size(t)) &&
      Matches(l, i, ns) && Matches(r, i, ns)
  }

  /** Parent link expected at the focus of a zipper. */
  function PId(ctx: seq<Frame>): int
  {
    if ctx == [] then END else ctx[0].id
  }

  /** How far a recorded size lies below the true one on a level that an
      ancestor walk has not reached yet. */
  function Off(from: int, delta: int): int
  {
    if from <= 0 then delta else 0
  }

  /** The records along the path `ctx` (and the sentinel beyond it) describe
      the context of a focus whose root is `cid` and whose size is `csz`.  The
      `from` innermost levels hold their true size; the others hold the true
      size minus `delta`. */
  predicate MatchesCtx(ctx: seq<Frame>, cid: int, csz: nat, ns: seq<NodeRec>, from: int, delta: int)
    decreases |ctx|
  {
    if ctx == [] then
      0 < |ns| && ns[END].left == cid && ns[END].size == csz + 1 - Off(from, delta)
    else
      var f := ctx[0];
      var sz := csz + 1 + Size(f.sib);
      0 < f.id < |ns| &&
      ns[f.id].key == f.key && ns[f.id].color == f.color &&
      ns[f.id].left == (if f.dir == Left then cid else RootId(f.sib)) &&
      ns[f.id].right == (if f.dir == Left then RootId(f.sib) else cid) &&
      ns[f.id].parent == PId(ctx[1..]) &&
      ns[f.id].size == sz - Off(from, delta) &&
      Matches(f.sib, f.id, ns) &&
      MatchesCtx(ctx[1..], f.id, sz, ns, from - 1, delta)
  }

  predicate MatchesZ(ctx: seq<Frame>, s: Tree, ns: seq<NodeRec>, from: int, delta: int)
  {
    Matches(s, PId(ctx), ns) && MatchesCtx(ctx, RootId(s), Size(s), ns, from, delta)
  }

  /** The arena holds exactly the tree `t`, hung under the sentinel. */
  predicate Holds(t: Tree, ns: seq<NodeRec>)
  {
    MatchesZ([], t, ns, 0, 0)
  }

  /** Ids of every node mentioned by a context: its frames and their siblings. */
  function CtxIds(ctx: seq<Frame>): seq<int>
  {
    CtxIdsL(ctx) + CtxIdsR(ctx)
  }

  /** `ns'` agrees with `ns` everywhere outside `ch`. */
  predicate Agree(ns: seq<NodeRec>, ns': seq<NodeRec>, ch: set<int>)
  {
    |ns| <= |ns'| && forall i {:trigger ns'[i]} :: 0 <= i < |ns| && i !in ch ==> ns'[i] == ns[i]
  }

  /** The nodes of a context: the innermost frame's node and sibling, then the rest. */
  lemma {:induction false} CtxIdsCons(ctx: seq<Frame>)
    requires ctx != []
    ensures forall i :: i in CtxIds(ctx) <==>
      i == ctx[0].id || i in IdSeq(ctx[0].sib) || i in CtxIds(ctx[1..])
  {
  }

  // ---------------------------------------------------------------------------
  // Basic facts

  lemma {:induction false} MatchesIds(t: Tree, pid: int, ns: seq<NodeRec>)
    requires Matches(t, pid, ns)
    ensures forall i :: i in IdSeq(t) ==> 0 < i < |ns|
  {
    if t.Node? {
      MatchesIds(t.left, t.id, ns);
      MatchesIds(t.right, t.id, ns);
    }
  }

  lemma {:induction false} MatchesCtxIds(ctx: seq<Frame>, cid: int, csz: nat, ns: seq<NodeRec>, from: int, delta: int)
    requires MatchesCtx(ctx, cid, csz, ns, from, delta)
    ensures forall i :: i in CtxIds(ctx) ==> 0 < i < |ns|
    ensures 0 < |ns|
    decreases |ctx|
  {
    if ctx != [] {
      var f := ctx[0];
      CtxIdsCons(ctx);
      MatchesIds(f.sib, f.id, ns);
      MatchesCtxIds(ctx[1..], f.id, csz + 1 + Size(f.sib), ns, from - 1, delta);
    }
  }

  /** Records outside a tree's nodes may change freely. */
  lemma {:induction false} MatchesFrame(t: Tree, pid: int, ns: seq<NodeRec>, ns': seq<NodeRec>, ch: set<int>)
    requires Matches(t, pid, ns) && Agree(ns, ns', ch)
    requires forall i :: i in ch ==> i !in IdSeq(t)
    ensures Matches(t, pid, ns')
  {
    if t.Node? {
      assert t.id !in ch;
      MatchesFrame(t.left, t.id, ns, ns', ch);
      MatchesFrame(t.right, t.id, ns, ns', ch);
    }
  }

  lemma {:induction false} MatchesCtxFrame(ctx: seq<Frame>, cid: int, csz: nat, ns: seq<NodeRec>, ns': seq<NodeRec>,
                                           from: int, delta: int, ch: set<int>)
    requires MatchesCtx(ctx, cid, csz, ns, from, delta) && Agree(ns, ns', ch)
    requires END !in ch && forall i :: i in ch ==> i !in CtxIds(ctx)
    ensures MatchesCtx(ctx, cid, csz, ns', from, delta)
    decreases |ctx|
  {
    if ctx == [] {
      assert ns'[END] == ns[END];
    } else {
      var f := ctx[0];
      CtxIdsCons(ctx);
      assert f.id !in ch;
      assert ns'[f.id] == ns[f.id];
      MatchesFrame(f.sib, f.id, ns, ns', ch);
      MatchesCtxFrame(ctx[1..], f.id, csz + 1 + Size(f.sib), ns, ns', from - 1, delta, ch);
      MatchesCtxCons(ctx, cid, csz, ns', from, delta);
    }
  }

  /** Nodes outside a context stay outside its innermost frame and the rest. */
  lemma {:induction false} CtxFresh(ctx: seq<Frame>, ch: set<int>)
    requires ctx != [] && ctx[0].id !in IdSeq(ctx[0].sib) && ctx[0].id !in CtxIds(ctx[1..])
    requires forall i :: i in ch ==> i !in CtxIds(ctx)
    ensures forall i :: i in ch + {ctx[0].id} ==> i !in IdSeq(ctx[0].sib) && i !in CtxIds(ctx[1..])
  {
    CtxIdsCons(ctx);
  }

  /** A context whose innermost record and remaining path match. */
  lemma {:induction false} MatchesCtxCons(ctx: seq<Frame>, cid: int, csz: nat, ns: seq<NodeRec>, from: int, delta: int)
    requires ctx != [] && 0 < ctx[0].id < |ns|
    requires ns[ctx[0].id].key == ctx[0].key && ns[ctx[0].id].color == ctx[0].color
    requires ns[ctx[0].id].left == (if ctx[0].dir == Left then cid else RootId(ctx[0].sib))
    requires ns[ctx[0].id].right == (if ctx[0].dir == Left then RootId(ctx[0].sib) else cid)
    requires ns[ctx[0].id].parent == PId(ctx[1..])
    requires ns[ctx[0].id].size == csz + 1 + Size(ctx[0].sib) - Off(from, delta)
    requires Matches(ctx[0].sib, ctx[0].id, ns)
    requires MatchesCtx(ctx[1..], ctx[0].id, csz + 1 + Size(ctx[0].sib), ns, from - 1, delta)
    ensures MatchesCtx(ctx, cid, csz, ns, from, delta)
  {
  }

  /** A frame's record over a matching focus and sibling matches the plugged node. */
  lemma {:induction false} MatchesPlug1(f: Frame, s: Tree, p: int, ns: seq<NodeRec>)
    requires 0 < f.id < |ns| && Matches(s, f.id, ns) && Matches(f.sib, f.id, ns)
    requires ns[f.id].key == f.key && ns[f.id].color == f.color && ns[f.id].parent == p
    requires ns[f.id].left == (if f.dir == Left then RootId(s) else RootId(f.sib))
    requires ns[f.id].right == (if f.dir == Left then RootId(f.sib) else RootId(s))
    requires ns[f.id].size == Size(s) + 1 + Size(f.sib)
    ensures Matches(Plug1(f, s), p, ns)
  {
  }

  /** Moving the focus one level up or down the path. */
  lemma {:induction false} ZUp(ctx: seq<Frame>, s: Tree, ns: seq<NodeRec>, from: int, delta: int)
    requires ctx != [] && Off(from, delta) == 0
    ensures MatchesZ(ctx, s, ns, from, delta) <==> MatchesZ(ctx[1..], Plug1(ctx[0], s), ns, from - 1, delta)
  {
  }

  /** A whole zipper with exact sizes holds the plugged tree. */
  lemma {:induction false} ZPlug(ctx: seq<Frame>, s: Tree, ns: seq<NodeRec>)
    ensures MatchesZ(ctx, s, ns, |ctx|, 0) <==> Holds(Plug(ctx, s), ns)
    decreases |ctx|
  {
    if ctx != [] {
      ZUp(ctx, s, ns, |ctx|, 0);
      ZPlug(ctx[1..], Plug1(ctx[0], s), ns);
    }
  }

  /** Any `from` is as good as another when no level is off. */
  lemma {:induction false} CtxExact(ctx: seq<Frame>, cid: int, csz: nat, ns: seq<NodeRec>, from: int, from': int)
    ensures MatchesCtx(ctx, cid, csz, ns, from, 0) <==> MatchesCtx(ctx, cid, csz, ns, from', 0)
    decreases |ctx|
  {
    if ctx != [] {
      CtxExact(ctx[1..], ctx[0].id, csz + 1 + Size(ctx[0].sib), ns, from - 1, from' - 1);
    }
  }

  /** Levels beyond the path are all exact once `from` passes the sentinel. */
  lemma {:induction false} CtxDone(ctx: seq<Frame>, cid: int, csz: nat, ns: seq<NodeRec>, from: int, delta: int)
    requires from > |ctx|
    ensures MatchesCtx(ctx, cid, csz, ns, from, delta) <==> MatchesCtx(ctx, cid, csz, ns, from, 0)
    decreases |ctx|
  {
    if ctx != [] {
      CtxDone(ctx[1..], ctx[0].id, csz + 1 + Size(ctx[0].sib), ns, from - 1, delta);
    }
  }

  // ---------------------------------------------------------------------------
  // Distinctness along a zipper

  lemma {:induction false} NoDupSplit(a: seq<int>, b: seq<int>)
    requires NoDup(a + b)
    ensures NoDup(a) && NoDup(b)
    ensures forall x :: x in a ==> x !in b
  {
    var s := a + b;
    assert forall i :: 0 <= i < |a| ==> a[i] == s[i];
    assert forall i :: 0 <= i < |b| ==> b[i] == s[|a| + i];
    forall x | x in a ensures x !in b {
      var i :| 0 <= i < |a| && a[i] == x;
      forall j | 0 <= j < |b| ensures b[j] != x {
        assert s[i] != s[|a| + j];
      }
    }
  }

  /** The middle part of a duplicate-free concatenation is duplicate-free and
      shares no element with the two outer parts. */
  lemma {:induction false} NoDupMiddle(a: seq<int>, b: seq<int>, c: seq<int>)
    requires NoDup(a + b + c)
    ensures NoDup(b)
    ensures forall x :: x in b ==> x !in a + c
  {
    assert a + b + c == a + (b + c);
    NoDupSplit(a, b + c);
    NoDupSplit(b, c);
  }

  /** In a tree of distinct nodes, the focus of a zipper shares no node with
      its context. */
  lemma {:induction false} DistinctFocus(ctx: seq<Frame>, s: Tree)
    requires Distinct(Plug(ctx, s))
    ensures Distinct(s)
    ensures forall i :: i in IdSeq(s) ==> i !in CtxIds(ctx)
  {
    PlugIds(ctx, s);
    NoDupMiddle(CtxIdsL(ctx), IdSeq(s), CtxIdsR(ctx));
  }

  /** The innermost frame's node and sibling are disjoint from the rest. */
  lemma {:induction false} DistinctFrame(ctx: seq<Frame>, s: Tree)
    requires ctx != [] && Distinct(Plug(ctx, s))
    ensures ctx[0].id !in IdSeq(s) && ctx[0].id !in IdSeq(ctx[0].sib)
    ensures ctx[0].id !in CtxIds(ctx[1..])
    ensures forall i :: i in IdSeq(ctx[0].sib) ==> i !in IdSeq(s) && i !in CtxIds(ctx[1..])
    ensures Distinct(ctx[0].sib)
  {
    var f := ctx[0];
    var p := Plug1(f, s);
    CtxIdsCons(ctx);
    DistinctFocus(ctx[1..], p);
    DistinctNode(p);
  }

  // ---------------------------------------------------------------------------
  // Exact zippers: every size is the true one

  predicate Z(ctx: seq<Frame>, s: Tree, ns: seq<NodeRec>)
  {
    MatchesZ(ctx, s, ns, 0, 0)
  }

  lemma {:induction false} ZUpExact(ctx: seq<Frame>, s: Tree, ns: seq<NodeRec>)
    requires ctx != []
    ensures Z(ctx, s, ns) <==> Z(ctx[1..], Plug1(ctx[0], s), ns)
  {
    ZUp(ctx, s, ns, 0, 0);
    CtxExact(ctx[1..], RootId(Plug1(ctx[0], s)), Size(Plug1(ctx[0], s)), ns, -1, 0);
  }

  lemma {:induction false} ZHolds(ctx: seq<Frame>, s: Tree, ns: seq<NodeRec>)
    ensures Z(ctx, s, ns) <==> Holds(Plug(ctx, s), ns)
  {
    ZPlug(ctx, s, ns);
    CtxExact(ctx, RootId(s), Size(s), ns, 0, |ctx|);
  }

  /** Stepping down keeps the plugged tree and the record agreement. */
  lemma {:induction false} ZDown(ctx: seq<Frame>, s: Tree, ns: seq<NodeRec>)
    requires s.Node? && Z(ctx, s, ns)
    ensures Plug([DownL(s)] + ctx, s.left) == Plug(ctx, s) && Z([DownL(s)] + ctx, s.left, ns)
    ensures Plug([DownR(s)] + ctx, s.right) == Plug(ctx, s) && Z([DownR(s)] + ctx, s.right, ns)
  {
    assert ([DownL(s)] + ctx)[1..] == ctx;
    assert ([DownR(s)] + ctx)[1..] == ctx;
    ZUpExact([DownL(s)] + ctx, s.left, ns);
    ZUpExact([DownR(s)] + ctx, s.right, ns);
  }

  /** Every in-order position of a tree is the focus root of some zipper. */
  lemma {:induction false} FocusFrom(ctx: seq<Frame>, s: Tree, i: nat) returns (ctx': seq<Frame>, s': Tree)
    requires i < Size(s)
    ensures Plug(ctx', s') == Plug(ctx, s) && s'.Node?
    ensures |CtxIdsL(ctx')| + Size(s'.left) == |CtxIdsL(ctx)| + i
    ensures |CtxKeysL(ctx')| == |CtxIdsL(ctx')|
    decreases Size(s)
  {
    CtxLens(ctx);
    var c1, c2 := [DownL(s)] + ctx, [DownR(s)] + ctx;
    assert c1[1..] == ctx && c2[1..] == ctx;
    if i < Size(s.left) {
      ctx', s' := FocusFrom(c1, s.left, i);
    } else if i == Size(s.left) {
      ctx', s' := ctx, s;
      CtxLens(ctx');
    } else {
      ctx', s' := FocusFrom(c2, s.right, i - Size(s.left) - 1);
    }
  }

  /** The zipper focused at in-order position `i` of the tree held by the arena. */
  lemma {:induction false} FocusAt(t: Tree, i: nat, ns: seq<NodeRec>) returns (ctx: seq<Frame>, s: Tree)
    requires Holds(t, ns) && i < Size(t)
    ensures Plug(ctx, s) == t && s.Node? && Z(ctx, s, ns)
    ensures |CtxIdsL(ctx)| + Size(s.left) == i && |CtxKeysL(ctx)| == |CtxIdsL(ctx)|
    ensures IdSeq(t)[i] == s.id && Keys(t)[i] == s.key
  {
    ctx, s := FocusFrom([], t, i);
    ZHolds(ctx, s, ns);
    PlugIds(ctx, s);
    PlugKeys(ctx, s);
  }

  // ---------------------------------------------------------------------------
  // Reading the records

  /** The size stored for a link, 0 for the null link. */
  function SizeOf(ns: seq<NodeRec>, i: int): nat
    requires i == NIL || 0 <= i < |ns|
  {
    if i == NIL then 0 else ns[i].size
  }

  lemma {:induction false} SizeOfMatches(t: Tree, pid: int, ns: seq<NodeRec>)
    requires Matches(t, pid, ns)
    ensures RootId(t) == NIL || 0 < RootId(t) < |ns|
    ensures SizeOf(ns, RootId(t)) == Size(t)
    ensures RootId(t) == NIL <==> t.Nil?
  {
  }

  /** details::is_left_child: the node is its parent's `left` (the root is the
      sentinel's). */
  function IsLeftChild(ns: seq<NodeRec>, node: int): bool
    requires 0 <= node < |ns| && 0 <= ns[node].parent < |ns|
  {
    ns[ns[node].parent].left == node
  }

  lemma {:induction false} IsLeftChildZ(ctx: seq<Frame>, s: Tree, ns: seq<NodeRec>, from: int, delta: int)
    requires s.Node? && MatchesZ(ctx, s, ns, from, delta) && Distinct(Plug(ctx, s))
    ensures 0 < s.id < |ns| && 0 <= ns[s.id].parent < |ns|
    ensures IsLeftChild(ns, s.id) <==> ctx == [] || ctx[0].dir == Left
  {
    MatchesCtxIds(ctx, s.id, Size(s), ns, from, delta);
    if ctx != [] {
      CtxIdsCons(ctx);
      DistinctFrame(ctx, s);
      assert s.id in IdSeq(s);
      if ctx[0].sib.Node? { assert ctx[0].sib.id in IdSeq(ctx[0].sib); }
    }
  }

  /** Below the top of a non-empty path no focus node is the root. */
  lemma {:induction false} RootAboveFocus(ctx: seq<Frame>, s: Tree)
    requires ctx != [] && Distinct(Plug(ctx, s))
    ensures forall j :: j in IdSeq(s) ==> j != RootId(Plug(ctx, s))
    decreases |ctx|
  {
    DistinctFrame(ctx, s);
    var p := Plug1(ctx[0], s);
    if ctx[1..] != [] {
      RootAboveFocus(ctx[1..], p);
      assert forall j :: j in IdSeq(s) ==> j in IdSeq(p);
    }
  }
}
