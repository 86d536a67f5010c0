/** Linking a new node (the first half of insert_hint_unique): a red leaf is
    appended to the arena and hung under the node found by find_v2, and every
    ancestor's subtree size, the sentinel's included, goes up by one. */
module Link {
  import opened Trees
  import opened Arena
  import opened Rotate
  import opened Details

  /** The freshly created node: red, no children. */
  function Leaf(n: int, key: int): Tree
  {
    Node(Red, Nil, n, key, Nil)
  }

  // ---------------------------------------------------------------------------
  // The in-order sequences of the grown tree

  lemma {:induction false} SortedSplit(a: seq<int>, b: seq<int>)
    requires StrictlySorted(a + b)
    ensures StrictlySorted(a) && StrictlySorted(b)
  {
    assert forall i :: 0 <= i < |a| ==> a[i] == (a + b)[i];
    assert forall i :: 0 <= i < |b| ==> b[i] == (a + b)[|a| + i];
  }

  /** A key absent from a sorted sequence, whose rank is the length of the
      prefix `a`, fits between `a` and `b`. */
  lemma {:induction false} SortedInsert(a: seq<int>, b: seq<int>, k: int)
    requires StrictlySorted(a + b) && RankBelow(a + b, k, |a|) && k !in a + b
    ensures StrictlySorted(a + [k] + b)
  {
    SortedSplit(a, b);
    forall x | x in a ensures x < k {
      var i :| 0 <= i < |a| && a[i] == x;
      assert (a + b)[i] == x;
    }
    forall x | x in b ensures k < x {
      var i :| 0 <= i < |b| && b[i] == x;
      assert (a + b)[|a| + i] == x;
    }
    SortedConcatIntro(a, k, b);
  }

  lemma {:induction false} NoDupInsert(a: seq<int>, b: seq<int>, n: int)
    requires NoDup(a + b) && n !in a + b
    ensures NoDup(a + [n] + b)
  {
    NoDupSplit(a, b);
    NoDupConcatIntro(a, n, b);
  }

  lemma {:induction false} AppendNil(a: seq<int>, b: seq<int>)
    ensures a + [] + b == a + b
  {
  }

  lemma {:induction false} LeafSeqs(n: int, key: int)
    ensures Keys(Leaf(n, key)) == [key] && IdSeq(Leaf(n, key)) == [n] && Size(Leaf(n, key)) == 1
  {
    assert Keys(Leaf(n, key)) == [] + [key] + [];
    assert IdSeq(Leaf(n, key)) == [] + [n] + [];
  }

  /** The in-order sequences of a tree with an empty slot at the focus. */
  lemma {:induction false} PlugNil(ctx: seq<Frame>, t0: Tree)
    requires t0 == Plug(ctx, Nil)
    ensures Keys(t0) == CtxKeysL(ctx) + CtxKeysR(ctx) && IdSeq(t0) == CtxIdsL(ctx) + CtxIdsR(ctx)
  {
    PlugKeys(ctx, Nil);
    PlugIds(ctx, Nil);
    AppendNil(CtxKeysL(ctx), CtxKeysR(ctx));
    AppendNil(CtxIdsL(ctx), CtxIdsR(ctx));
  }

  /** The in-order sequences of the tree with the leaf hung in the slot. */
  lemma {:induction false} PlugLeaf(ctx: seq<Frame>, n: int, key: int, t1: Tree)
    requires t1 == Plug(ctx, Leaf(n, key))
    ensures Keys(t1) == CtxKeysL(ctx) + [key] + CtxKeysR(ctx)
    ensures IdSeq(t1) == CtxIdsL(ctx) + [n] + CtxIdsR(ctx)
  {
    LeafSeqs(n, key);
    PlugKeys(ctx, Leaf(n, key));
    PlugIds(ctx, Leaf(n, key));
  }

  /** Hanging a leaf with an absent key of the right rank into the empty slot
      of a search tree gives a search tree whose in-order keys have the key
      inserted at that rank; a fresh node keeps the nodes distinct. */
  lemma {:induction false} LeafPlugged(ctx: seq<Frame>, n: int, key: int, t0: Tree, t1: Tree)
    requires t0 == Plug(ctx, Nil) && t1 == Plug(ctx, Leaf(n, key))
    requires Ordered(t0) && key !in Keys(t0) && RankBelow(Keys(t0), key, |CtxKeysL(ctx)|)
    requires Distinct(t0) && n !in IdSeq(t0)
    ensures Keys(t1) == CtxKeysL(ctx) + [key] + CtxKeysR(ctx)
    ensures IdSeq(t1) == CtxIdsL(ctx) + [n] + CtxIdsR(ctx)
    ensures Ordered(t1) && Distinct(t1)
  {
    PlugNil(ctx, t0);
    PlugLeaf(ctx, n, key, t1);
    SortedInsert(CtxKeysL(ctx), CtxKeysR(ctx), key);
    NoDupInsert(CtxIdsL(ctx), CtxIdsR(ctx), n);
  }

  // ---------------------------------------------------------------------------
  // Linking

  /** Every level being exact for a focus of size `csz` is the same as every
      level being off by `csz' - csz` for a focus of size `csz'`. */
  lemma {:induction false} CtxShift(ctx: seq<Frame>, cid: int, csz: nat, csz': nat, ns: seq<NodeRec>, from: int)
    requires from <= 0
    ensures MatchesCtx(ctx, cid, csz, ns, from, 0) <==> MatchesCtx(ctx, cid, csz', ns, from, csz' - csz)
    decreases |ctx|
  {
    if ctx != [] {
      CtxShift(ctx[1..], ctx[0].id, csz + 1 + Size(ctx[0].sib), csz' + 1 + Size(ctx[0].sib), ns, from - 1);
    }
  }

  /** The slot's parent is a record of the arena, and the next index is
      no node of the tree. */
  lemma {:induction false} SlotFacts(ctx: seq<Frame>, ns: seq<NodeRec>)
    requires Z(ctx, Nil, ns) && Distinct(Plug(ctx, Nil))
    ensures 0 <= PId(ctx) < |ns| && |ns| !in IdSeq(Plug(ctx, Nil))
    ensures forall i :: i in CtxIds(ctx) ==> 0 < i < |ns|
    ensures ctx != [] ==> ctx[0].id !in IdSeq(ctx[0].sib) && ctx[0].id !in CtxIds(ctx[1..])
  {
    MatchesCtxIds(ctx, NIL, 0, ns, 0, 0);
    PlugNil(ctx, Plug(ctx, Nil));
    if ctx != [] {
      CtxIdsCons(ctx);
      DistinctFrame(ctx, Nil);
    }
  }

  /** The records after the link: the new leaf appended, its parent's link
      redirected, nothing else changed. */
  lemma {:induction false} LinkFacts(ctx: seq<Frame>, key: int, ns: seq<NodeRec>, ns1: seq<NodeRec>, ns': seq<NodeRec>)
    requires Z(ctx, Nil, ns) && Distinct(Plug(ctx, Nil))
    requires ns1 == ns + [NodeRec(key, Red, NIL, NIL, PId(ctx), 1)]
    requires 0 <= PId(ctx) < |ns| && |ns'| == |ns1| && Agree(ns1, ns', {PId(ctx)})
    requires ns'[PId(ctx)] == Relinked(ctx, ns1[PId(ctx)], |ns|)
    ensures MatchesZ(ctx, Leaf(|ns|, key), ns', 0, 1)
  {
    SlotFacts(ctx, ns);
    MatchesCtxFrame(ctx, NIL, 0, ns, ns1, 0, 0, {});
    CtxRelink(ctx, NIL, |ns|, 0, ns1, ns', 0, 0, {});
    CtxShift(ctx, |ns|, 0, 1, ns', 0);
    assert ns'[|ns|] == ns1[|ns|];
  }

  /** The start of insert_hint_unique: a new red leaf holding `key` is
      appended as node `n` and becomes the `side` child of `parent` (the
      sentinel's left link when the tree is empty).  Afterwards the records
      hold the grown tree except that every ancestor's size, the sentinel's
      included, is still one short. */
  method LinkLeaf(ns: seq<NodeRec>, key: int, parent: int, side: Side, ghost ctx: seq<Frame>)
    returns (ns': seq<NodeRec>, n: int)
    requires Z(ctx, Nil, ns) && Distinct(Plug(ctx, Nil))
    requires parent == PId(ctx) && side == SideOf(ctx)
    ensures n == |ns| && |ns'| == |ns| + 1 && ns'[n] == NodeRec(key, Red, NIL, NIL, parent, 1)
    ensures n !in IdSeq(Plug(ctx, Nil))
    ensures MatchesZ(ctx, Leaf(n, key), ns', 0, 1)
    ensures forall i :: 0 <= i < |ns| && i != parent ==> ns'[i] == ns[i]
  {
    n := |ns|;
    SlotFacts(ctx, ns);
    var ns1 := ns + [NodeRec(key, Red, NIL, NIL, parent, 1)];
    if side == Left {
      ns' := ns1[parent := ns1[parent].(left := n)];
    } else {
      ns' := ns1[parent := ns1[parent].(right := n)];
    }
    LinkFacts(ctx, key, ns, ns1, ns');
  }

  // ---------------------------------------------------------------------------
  // Raising the ancestors' sizes

  /** Any two non-positive `from` describe the same records: every level is off. */
  lemma {:induction false} CtxAllOff(ctx: seq<Frame>, cid: int, csz: nat, ns: seq<NodeRec>, from: int, from': int, delta: int)
    requires from <= 0 && from' <= 0
    ensures MatchesCtx(ctx, cid, csz, ns, from, delta) <==> MatchesCtx(ctx, cid, csz, ns, from', delta)
    decreases |ctx|
  {
    if ctx != [] {
      CtxAllOff(ctx[1..], ctx[0].id, csz + 1 + Size(ctx[0].sib), ns, from - 1, from' - 1, delta);
    }
  }

  /** A path whose levels are all off by `delta`, with its own records
      unchanged, seen from one level further up. */
  lemma {:induction false} TailOff(ctx: seq<Frame>, cid: int, sz: nat, ns: seq<NodeRec>, ns': seq<NodeRec>, ch: set<int>, delta: int)
    requires MatchesCtx(ctx, cid, sz, ns, -1, delta) && Agree(ns, ns', ch)
    requires END !in ch && forall i :: i in ch ==> i !in CtxIds(ctx)
    ensures MatchesCtx(ctx, cid, sz, ns', 0, delta)
  {
    MatchesCtxFrame(ctx, cid, sz, ns, ns', -1, delta, ch);
    CtxAllOff(ctx, cid, sz, ns', -1, 0, delta);
  }

  /** Raising the size of the record above the focus by one moves the focus
      up a level with every remaining level still one short. */
  lemma {:induction false} BumpUp(ctx: seq<Frame>, s: Tree, ns: seq<NodeRec>)
    requires ctx != [] && MatchesZ(ctx, s, ns, 0, 1) && Distinct(Plug(ctx, s))
    ensures 0 < ctx[0].id < |ns|
    ensures MatchesZ(ctx[1..], Plug1(ctx[0], s), ns[ctx[0].id := ns[ctx[0].id].(size := ns[ctx[0].id].size + 1)], 0, 1)
  {
    var f := ctx[0];
    var ns' := ns[f.id := ns[f.id].(size := ns[f.id].size + 1)];
    var sz := Size(s) + 1 + Size(f.sib);
    assert Matches(s, f.id, ns) && MatchesCtx(ctx, RootId(s), Size(s), ns, 0, 1);
    assert 0 < f.id < |ns| && ns[f.id].size + 1 == sz && MatchesCtx(ctx[1..], f.id, sz, ns, -1, 1);
    assert ns'[f.id] == ns[f.id].(size := sz);
    DistinctFrame(ctx, s);
    MatchesFrame(s, f.id, ns, ns', {f.id});
    MatchesFrame(f.sib, f.id, ns, ns', {f.id});
    TailOff(ctx[1..], f.id, sz, ns, ns', {f.id}, 1);
    MatchesPlug1(f, s, PId(ctx[1..]), ns');
  }

  /** The insert_hint_unique loop over the ancestors: starting at `parent`,
      each node up to (not including) the sentinel gets one more in its
      subtree size, and then the sentinel does.  Afterwards the records hold
      the plugged tree with every size exact. */
  method BumpSizes(ns: seq<NodeRec>, parent: int, ghost ctx: seq<Frame>, ghost s: Tree)
    returns (ns': seq<NodeRec>)
    requires MatchesZ(ctx, s, ns, 0, 1) && Distinct(Plug(ctx, s)) && parent == PId(ctx)
    ensures |ns'| == |ns| && Holds(Plug(ctx, s), ns')
  {
    ns' := ns;
    var node := parent;
    ghost var cz, sz := ctx, s;
    while node != END
      invariant |ns'| == |ns| && MatchesZ(cz, sz, ns', 0, 1) && Plug(cz, sz) == Plug(ctx, s)
      invariant node == PId(cz)
      decreases |cz|
    {
      BumpUp(cz, sz, ns');
      ns' := ns'[node := ns'[node].(size := ns'[node].size + 1)];
      cz, sz := cz[1..], Plug1(cz[0], sz);
      node := ns'[node].parent;
    }
    assert cz == [];
    ghost var before := ns';
    MatchesIds(sz, END, before);
    ns' := ns'[END := ns'[END].(size := ns'[END].size + 1)];
    MatchesFrame(sz, END, before, ns', {END});
  }
}
