/** The ghost side of erase: where the erased node z and the node y that
    leaves its place sit in the tree, and which tree the arena holds
    afterwards.  When z has two children, y is z's successor, the leftmost
    node of z's right subtree, and y takes z's place; otherwise y is z. */
module ErasePlan {
  import opened Trees
  import opened Arena
  import opened RedBlack
  import opened Insert

  /** `s` with its element at position `j` removed. */
  function Without(s: seq<int>, j: nat): (r: seq<int>)
    requires j < |s|
    ensures |r| == |s| - 1
    decreases j
  {
    if j == 0 then s[1..] else [s[0]] + Without(s[1..], j - 1)
  }

  /** The elements left: those before position `j`, then those after it. */
  lemma {:induction false} WithoutAt(s: seq<int>, j: nat)
    requires j < |s|
    ensures forall k :: 0 <= k < |s| - 1 ==> Without(s, j)[k] == s[if k < j then k else k + 1]
    decreases j
  {
    if j > 0 {
      WithoutAt(s[1..], j - 1);
    }
  }

  /** Removing the middle element of a three-part sequence. */
  lemma {:induction false} WithoutMiddle(s: seq<int>, a: seq<int>, k: int, b: seq<int>)
    requires s == a + [k] + b
    ensures |a| < |s| && Without(s, |a|) == a + b
  {
    var r := Without(s, |a|);
    WithoutAt(s, |a|);
    assert |r| == |a + b|;
    forall x | 0 <= x < |a + b| ensures r[x] == (a + b)[x] {
      if x < |a| {
        assert r[x] == s[x] == (a + [k])[x] == a[x];
      } else {
        assert r[x] == s[x + 1] == b[x - |a|];
      }
    }
    assert r == a + b;
  }

  /** Removing inside the middle part of a three-part sequence. */
  lemma {:induction false} WithoutInside(s: seq<int>, s': seq<int>, l: seq<int>, m: seq<int>, m': seq<int>, r: seq<int>, j: nat, k: nat)
    requires j < |m| && s == l + m + r && s' == l + m' + r && m' == Without(m, j) && k == |l| + j
    ensures k < |s| && s' == Without(s, k)
  {
    WithoutAt(s, k);
    WithoutAt(m, j);
    forall x | 0 <= x < |s'| ensures s'[x] == Without(s, k)[x] {
      if x < |l| {
      } else if x < |l| + |m'| {
        assert s'[x] == m'[x - |l|];
      } else {
        assert s'[x] == r[x - |l| - |m'|];
      }
    }
  }

  /** A duplicate-free sequence stays so without one element, which then no
      longer occurs in it. */
  lemma {:induction false} NoDupWithout(s: seq<int>, j: nat)
    requires j < |s| && NoDup(s)
    ensures NoDup(Without(s, j)) && s[j] !in Without(s, j)
  {
    var r := Without(s, j);
    WithoutAt(s, j);
    forall a, b | 0 <= a < b < |r| ensures r[a] != r[b] {
      var a' := if a < j then a else a + 1;
      var b' := if b < j then b else b + 1;
      assert r[a] == s[a'] && r[b] == s[b'] && a' < b';
    }
    forall k | 0 <= k < |r| ensures r[k] != s[j] {
      var k' := if k < j then k else k + 1;
      assert r[k] == s[k'] && k' != j;
    }
  }

  /** A strictly sorted sequence stays so without one element. */
  lemma {:induction false} SortedWithout(s: seq<int>, j: nat)
    requires j < |s| && StrictlySorted(s)
    ensures StrictlySorted(Without(s, j))
  {
    var r := Without(s, j);
    WithoutAt(s, j);
    forall a, b | 0 <= a < b < |r| ensures r[a] < r[b] {
      var a' := if a < j then a else a + 1;
      var b' := if b < j then b else b + 1;
      assert r[a] == s[a'] && r[b] == s[b'] && a' < b';
    }
  }

  /** Removing at position `j` of the focus removes at the matching position
      of the whole tree. */
  lemma {:induction false} PlugWithout(ctx: seq<Frame>, s: Tree, s': Tree, j: nat, t: Tree, t': Tree, k: nat)
    requires j < Size(s) && t == Plug(ctx, s) && t' == Plug(ctx, s')
    requires Keys(s') == Without(Keys(s), j) && IdSeq(s') == Without(IdSeq(s), j)
    requires k == |CtxIdsL(ctx)| + j
    ensures k < Size(t)
    ensures Keys(t') == Without(Keys(t), k) && IdSeq(t') == Without(IdSeq(t), k)
  {
    PlugWithoutKeys(ctx, s, s', j, t, t', k);
    PlugWithoutIds(ctx, s, s', j, t, t', k);
  }

  lemma {:induction false} PlugWithoutIds(ctx: seq<Frame>, s: Tree, s': Tree, j: nat, t: Tree, t': Tree, k: nat)
    requires j < Size(s) && t == Plug(ctx, s) && t' == Plug(ctx, s')
    requires IdSeq(s') == Without(IdSeq(s), j)
    requires k == |CtxIdsL(ctx)| + j
    ensures k < Size(t) && IdSeq(t') == Without(IdSeq(t), k)
  {
    PlugIds(ctx, s); PlugIds(ctx, s');
    WithoutInside(IdSeq(t), IdSeq(t'), CtxIdsL(ctx), IdSeq(s), IdSeq(s'), CtxIdsR(ctx), j, k);
  }

  lemma {:induction false} PlugWithoutKeys(ctx: seq<Frame>, s: Tree, s': Tree, j: nat, t: Tree, t': Tree, k: nat)
    requires j < Size(s) && t == Plug(ctx, s) && t' == Plug(ctx, s')
    requires Keys(s') == Without(Keys(s), j)
    requires k == |CtxIdsL(ctx)| + j
    ensures k < Size(t) && Keys(t') == Without(Keys(t), k)
  {
    CtxLens(ctx);
    PlugKeys(ctx, s); PlugKeys(ctx, s');
    WithoutInside(Keys(t), Keys(t'), CtxKeysL(ctx), Keys(s), Keys(s'), CtxKeysR(ctx), j, k);
  }

  // ---------------------------------------------------------------------------
  // Choosing y

  /** The only child of a node with at most one child (Nil when it has none). */
  function Child(t: Tree): (c: Tree)
    requires t.Node?
    ensures t.left == Nil ==> c == t.right
    ensures t.right == Nil ==> c == t.left
  {
    if t.left.Node? then t.left else t.right
  }

  predicate TwoKids(t: Tree)
  {
    t.Node? && t.left.Node? && t.right.Node?
  }

  /** Following left links down from the focus `s` ends at its leftmost node
      `ys`, reached by the path `c` of left turns; `ys` comes first in `s`. */
  lemma {:induction false} LeftmostZip(ctx: seq<Frame>, s: Tree, ns: seq<NodeRec>) returns (c: seq<Frame>, ys: Tree)
    requires s.Node? && Z(ctx, s, ns)
    ensures Plug(c, ys) == s && AllLeft(c) && ys.Node? && ys.left == Nil
    ensures Z(c + ctx, ys, ns)
    ensures IdSeq(s)[0] == ys.id
    decreases Size(s)
  {
    if s.left == Nil {
      c, ys := [], s;
      assert c + ctx == ctx;
    } else {
      ZDown(ctx, s, ns);
      var f := DownL(s);
      var c1, y1 := LeftmostZip([f] + ctx, s.left, ns);
      c, ys := c1 + [f], y1;
      assert c + ctx == c1 + ([f] + ctx);
      PlugAppend(c1, [f], y1);
      assert [f][1..] == [];
      assert forall k :: 0 <= k < |c| ==> c[k] == (if k < |c1| then c1[k] else f);
      assert IdSeq(s) == IdSeq(s.left) + [s.id] + IdSeq(s.right);
    }
  }

  /** The choice erase makes: with two children ys is the leftmost node of
      z's right subtree, reached by the left path `cy`; otherwise ys is z. */
  ghost predicate Chosen(zs: Tree, cy: seq<Frame>, ys: Tree)
  {
    zs.Node? && ys.Node? &&
    if TwoKids(zs) then Plug(cy, ys) == zs.right && AllLeft(cy) && ys.left == Nil
    else cy == [] && ys == zs
  }

  /** The path from y's place to the root. */
  function CtxY(ctxZ: seq<Frame>, zs: Tree, cy: seq<Frame>): seq<Frame>
    requires zs.Node?
  {
    if TwoKids(zs) then cy + [DownR(zs)] + ctxZ else ctxZ
  }

  /** The same path once y has taken z's place. */
  function CtxX(ctxZ: seq<Frame>, zs: Tree, cy: seq<Frame>, ys: Tree): seq<Frame>
    requires zs.Node? && ys.Node?
  {
    if TwoKids(zs) then cy + [Frame(Right, zs.color, ys.id, ys.key, zs.left)] + ctxZ else ctxZ
  }

  /** The subtree at z's place after the erase, when y moved there. */
  function Moved(zs: Tree, cy: seq<Frame>, ys: Tree, xs: Tree): Tree
    requires zs.Node? && ys.Node?
  {
    Node(zs.color, zs.left, ys.id, ys.key, Plug(cy, xs))
  }

  /** The subtree at z's place after the erase: the moved y, or z's child. */
  function Rest(zs: Tree, cy: seq<Frame>, ys: Tree): Tree
    requires zs.Node? && ys.Node?
  {
    if TwoKids(zs) then Moved(zs, cy, ys, Child(ys)) else Child(ys)
  }

  /** The node that leaves has at most one child, hangs where the tree had
      it, and the path above its child after the move differs from the one
      before only in the node and key of z's frame. */
  lemma {:induction false} ChosenShape(ctxZ: seq<Frame>, zs: Tree, cy: seq<Frame>, ys: Tree)
    requires Chosen(zs, cy, ys)
    ensures ys.left == Nil || ys.right == Nil
    ensures Plug(CtxY(ctxZ, zs, cy), ys) == Plug(ctxZ, zs)
    ensures SameShape(CtxY(ctxZ, zs, cy), CtxX(ctxZ, zs, cy, ys))
    ensures Plug(CtxX(ctxZ, zs, cy, ys), Child(ys)) == Plug(ctxZ, Rest(zs, cy, ys))
  {
    if TwoKids(zs) {
      var g := Frame(Right, zs.color, ys.id, ys.key, zs.left);
      PlugAppend(cy, [DownR(zs)] + ctxZ, ys);
      PlugAppend(cy, [g] + ctxZ, Child(ys));
      assert cy + [DownR(zs)] + ctxZ == cy + ([DownR(zs)] + ctxZ);
      assert cy + [g] + ctxZ == cy + ([g] + ctxZ);
      assert ([DownR(zs)] + ctxZ)[1..] == ctxZ && ([g] + ctxZ)[1..] == ctxZ;
      var a, b := cy + [DownR(zs)] + ctxZ, cy + [g] + ctxZ;
      assert forall k :: 0 <= k < |a| ==> a[k] == (if k < |cy| then cy[k] else if k == |cy| then DownR(zs) else ctxZ[k - |cy| - 1]);
      assert forall k :: 0 <= k < |b| ==> b[k] == (if k < |cy| then cy[k] else if k == |cy| then g else ctxZ[k - |cy| - 1]);
    }
  }

  /** The child that takes y's place in the two-children case completes z's
      right subtree without its first element. */
  lemma {:induction false} ChosenRight(zs: Tree, cy: seq<Frame>, ys: Tree)
    requires Chosen(zs, cy, ys) && TwoKids(zs)
    ensures Keys(zs.right) == [ys.key] + Keys(Plug(cy, Child(ys)))
    ensures IdSeq(zs.right) == [ys.id] + IdSeq(Plug(cy, Child(ys)))
    ensures Size(zs.right) == Size(Plug(cy, Child(ys))) + 1
  {
    AllLeftRank(cy);
    CtxLens(cy);
    PlugKeys(cy, ys); PlugKeys(cy, Child(ys));
    PlugIds(cy, ys); PlugIds(cy, Child(ys));
    assert Keys(ys) == Keys(ys.left) + [ys.key] + Keys(Child(ys)) && Keys(ys.left) == [];
    assert IdSeq(ys) == IdSeq(ys.left) + [ys.id] + IdSeq(Child(ys)) && IdSeq(ys.left) == [];
    HeadOut(Keys(zs.right), Keys(Plug(cy, Child(ys))), CtxKeysL(cy), Keys(ys), ys.key, Keys(Child(ys)), CtxKeysR(cy));
    HeadOut(IdSeq(zs.right), IdSeq(Plug(cy, Child(ys))), CtxIdsL(cy), IdSeq(ys), ys.id, IdSeq(Child(ys)), CtxIdsR(cy));
  }

  /** Taking the first element off the middle part when nothing precedes it. */
  lemma {:induction false} HeadOut(a: seq<int>, b: seq<int>, l: seq<int>, m: seq<int>, k: int, c: seq<int>, r: seq<int>)
    requires l == [] && a == l + m + r && b == l + c + r && m == [] + [k] + c
    ensures a == [k] + b
  {
  }

  /** The subtree left at z's place has z's keys and nodes without the one at
      z's own position. */
  lemma {:induction false} ChosenFocus(zs: Tree, cy: seq<Frame>, ys: Tree)
    requires Chosen(zs, cy, ys)
    ensures Keys(Rest(zs, cy, ys)) == Without(Keys(zs), Size(zs.left))
    ensures IdSeq(Rest(zs, cy, ys)) == Without(IdSeq(zs), Size(zs.left))
  {
    var r := Rest(zs, cy, ys);
    if TwoKids(zs) {
      ChosenRight(zs, cy, ys);
      var u := Plug(cy, Child(ys));
      assert r == Node(zs.color, zs.left, ys.id, ys.key, u);
      DropSecond(Keys(zs), Keys(zs.left), zs.key, ys.key, Keys(u), Keys(r));
      DropSecond(IdSeq(zs), IdSeq(zs.left), zs.id, ys.id, IdSeq(u), IdSeq(r));
    } else {
      WithoutMiddle(Keys(zs), Keys(zs.left), zs.key, Keys(zs.right));
      WithoutMiddle(IdSeq(zs), IdSeq(zs.left), zs.id, IdSeq(zs.right));
      assert Keys(zs.left) + Keys(zs.right) == Keys(r);
      assert IdSeq(zs.left) + IdSeq(zs.right) == IdSeq(r);
    }
  }

  /** Replacing the middle element by the head of the last part. */
  lemma {:induction false} DropSecond(s: seq<int>, a: seq<int>, k: int, k': int, b': seq<int>, r: seq<int>)
    requires s == a + [k] + ([k'] + b') && r == a + [k'] + b'
    ensures |a| < |s| && Without(s, |a|) == r
  {
    WithoutMiddle(s, a, k, [k'] + b');
    ConsAssoc(a, k', b', r);
  }

  lemma {:induction false} ConsAssoc(a: seq<int>, x: int, b: seq<int>, r: seq<int>)
    requires r == a + [x] + b
    ensures a + ([x] + b) == r
  {
    assert forall i :: 0 <= i < |r| ==> (a + ([x] + b))[i] == r[i];
  }

  /** The whole tree after the erase: the old one without position `i`, so
      its nodes are distinct and z is not among them. */
  lemma {:induction false} ChosenAfter(t: Tree, i: nat, ctxZ: seq<Frame>, zs: Tree, cy: seq<Frame>, ys: Tree)
    requires Chosen(zs, cy, ys) && Plug(ctxZ, zs) == t && Distinct(t)
    requires |CtxIdsL(ctxZ)| + Size(zs.left) == i && |CtxKeysL(ctxZ)| == |CtxIdsL(ctxZ)|
    ensures i < Size(t) && IdSeq(t)[i] == zs.id
    ensures var t' := Plug(CtxX(ctxZ, zs, cy, ys), Child(ys));
      Keys(t') == Without(Keys(t), i) && IdSeq(t') == Without(IdSeq(t), i) &&
      Distinct(t') && zs.id !in IdSeq(t')
  {
    ChosenSeqs(t, i, ctxZ, zs, cy, ys);
    NoDupWithout(IdSeq(t), i);
  }

  /** z sits at position i of the whole tree. */
  lemma {:induction false} ChosenIndex(t: Tree, i: nat, ctxZ: seq<Frame>, zs: Tree)
    requires zs.Node? && Plug(ctxZ, zs) == t
    requires |CtxIdsL(ctxZ)| + Size(zs.left) == i && |CtxKeysL(ctxZ)| == |CtxIdsL(ctxZ)|
    ensures i < Size(t) && IdSeq(t)[i] == zs.id
  {
    PlugAt(ctxZ, zs, t, i - Size(zs.left));
  }

  /** The keys and ids after the erase, as sequences. */
  lemma {:induction false} ChosenSeqs(t: Tree, i: nat, ctxZ: seq<Frame>, zs: Tree, cy: seq<Frame>, ys: Tree)
    requires Chosen(zs, cy, ys) && Plug(ctxZ, zs) == t
    requires |CtxIdsL(ctxZ)| + Size(zs.left) == i && |CtxKeysL(ctxZ)| == |CtxIdsL(ctxZ)|
    ensures i < Size(t) && IdSeq(t)[i] == zs.id
    ensures var t' := Plug(CtxX(ctxZ, zs, cy, ys), Child(ys));
      Keys(t') == Without(Keys(t), i) && IdSeq(t') == Without(IdSeq(t), i)
  {
    var s' := Rest(zs, cy, ys);
    var t' := Plug(CtxX(ctxZ, zs, cy, ys), Child(ys));
    var j := Size(zs.left);
    ChosenIndex(t, i, ctxZ, zs);
    ChosenFocus(zs, cy, ys);
    ChosenShape(ctxZ, zs, cy, ys);
    assert t' == Plug(ctxZ, s') && zs.Node? && j < Size(zs);
    assert Keys(s') == Without(Keys(zs), j) && IdSeq(s') == Without(IdSeq(zs), j);
    PlugWithout(ctxZ, zs, s', j, t, t', i);
  }

  /** Replacing the focus by a distinct subtree made of some of its nodes
      keeps the whole tree's nodes distinct. */
  lemma {:induction false} DistinctDrop(ctx: seq<Frame>, s: Tree, s': Tree)
    requires Distinct(Plug(ctx, s)) && Distinct(s') && forall j :: j in IdSeq(s') ==> j in IdSeq(s)
    ensures Distinct(Plug(ctx, s'))
    decreases |ctx|
  {
    if ctx != [] {
      var f := ctx[0];
      DistinctFrame(ctx, s);
      DistinctFocus(ctx[1..], Plug1(f, s));
      DistinctNode(Plug1(f, s));
      DistinctNode(Plug1(f, s'));
      assert forall j :: j in IdSeq(Plug1(f, s')) ==> j in IdSeq(Plug1(f, s));
      DistinctDrop(ctx[1..], Plug1(f, s), Plug1(f, s'));
    }
  }

  /** Dropping position j of a sequence without repeats removes exactly the
      element there. */
  lemma {:induction false} WithoutElems(s: seq<int>, j: nat)
    requires j < |s| && NoDup(s)
    ensures forall k :: k in Without(s, j) <==> k in s && k != s[j]
  {
    var r := Without(s, j);
    WithoutAt(s, j);
    forall k ensures k in r <==> k in s && k != s[j] {
      if k in r {
        var x :| 0 <= x < |r| && r[x] == k;
        var x' := if x < j then x else x + 1;
        assert s[x'] == k && x' != j;
        if x' < j { assert s[x'] != s[j]; } else { assert s[j] != s[x']; }
      }
      if k in s && k != s[j] {
        var m :| 0 <= m < |s| && s[m] == k;
        assert m != j;
        assert r[if m < j then m else m - 1] == k;
      }
    }
  }

  /** A strictly ascending sequence has no repeats. */
  lemma {:induction false} SortedNoDup(s: seq<int>)
    requires StrictlySorted(s)
    ensures NoDup(s)
  {
  }
}
