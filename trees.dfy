/** The abstract shape of an order-statistic red-black tree.
    A `Tree` value is the ghost picture of the linked nodes of the arena: every
    `Node` carries the arena index (`id`) of the node it stands for, its colour
    and its key.  A `Frame` sequence (innermost frame first) is a zipper context:
    the path from a focused subtree up to the root. */
module Trees {

  datatype Color = Red | Black

  /** Which child of its parent a subtree is (the `Side` of find_v2). */
  datatype Side = Left | Right

  datatype Tree = Nil | Node(color: Color, left: Tree, id: int, key: int, right: Tree)

  /** One step of a root-ward path: the focused subtree is the `dir` child of the
      node (`color`, `id`, `key`), whose other child is `sib`. */
  datatype Frame = Frame(dir: Side, color: Color, id: int, key: int, sib: Tree)

  function Size(t: Tree): (n: nat)
    ensures t == Nil <==> n == 0
  {
    match t
    case Nil => 0
    case Node(_, l, _, _, r) => 1 + Size(l) + Size(r)
  }

  /** Keys in in-order (ascending when the tree is a search tree). */
  function Keys(t: Tree): (s: seq<int>)
    ensures |s| == Size(t)
  {
    match t
    case Nil => []
    case Node(_, l, _, k, r) => Keys(l) + [k] + Keys(r)
  }

  /** Node identities in in-order: the order in which iteration visits them. */
  function IdSeq(t: Tree): (s: seq<int>)
    ensures |s| == Size(t)
  {
    match t
    case Nil => []
    case Node(_, l, i, _, r) => IdSeq(l) + [i] + IdSeq(r)
  }

  function RootId(t: Tree): int
  {
    if t.Nil? then -1 else t.id
  }

  predicate StrictlySorted(s: seq<int>)
  {
    forall i, j :: 0 <= i < j < |s| ==> s[i] < s[j]
  }

  predicate NoDup(s: seq<int>)
  {
    forall i, j :: 0 <= i < j < |s| ==> s[i] != s[j]
  }

  /** The search-tree property: the in-order key sequence is strictly sorted. */
  predicate Ordered(t: Tree)
  {
    StrictlySorted(Keys(t))
  }

  /** Every node of the tree is a distinct arena slot. */
  predicate Distinct(t: Tree)
  {
    NoDup(IdSeq(t))
  }

  lemma {:induction false} SortedConcatIntro(a: seq<int>, k: int, b: seq<int>)
    requires StrictlySorted(a) && StrictlySorted(b)
    requires forall x :: x in a ==> x < k
    requires forall x :: x in b ==> k < x
    ensures StrictlySorted(a + [k] + b)
  {
    var s := a + [k] + b;
    forall i, j | 0 <= i < j < |s| ensures s[i] < s[j] {
      if i < |a| {
        assert s[i] in a;
        if j > |a| { assert s[j] == b[j - |a| - 1]; assert s[j] in b; }
      } else if i == |a| {
        assert s[j] == b[j - |a| - 1]; assert s[j] in b;
      } else {
        assert s[i] == b[i - |a| - 1] && s[j] == b[j - |a| - 1];
      }
    }
  }

  lemma {:induction false} SortedConcatElim(a: seq<int>, k: int, b: seq<int>)
    requires StrictlySorted(a + [k] + b)
    ensures StrictlySorted(a) && StrictlySorted(b)
    ensures forall x :: x in a ==> x < k
    ensures forall x :: x in b ==> k < x
  {
    var s := a + [k] + b;
    assert forall i :: 0 <= i < |a| ==> a[i] == s[i];
    assert forall i :: 0 <= i < |b| ==> b[i] == s[|a| + 1 + i];
    assert s[|a|] == k;
  }

  lemma {:induction false} SortedConcat(a: seq<int>, k: int, b: seq<int>)
    ensures StrictlySorted(a + [k] + b) <==>
            StrictlySorted(a) && StrictlySorted(b) &&
            (forall x :: x in a ==> x < k) && (forall x :: x in b ==> k < x)
  {
    if StrictlySorted(a + [k] + b) {
      SortedConcatElim(a, k, b);
    }
    if StrictlySorted(a) && StrictlySorted(b) &&
       (forall x :: x in a ==> x < k) && (forall x :: x in b ==> k < x) {
      SortedConcatIntro(a, k, b);
    }
  }

  /** The search-tree property of a node in terms of its two subtrees. */
  lemma {:induction false} OrderedNode(t: Tree)
    requires t.Node?
    ensures Ordered(t) <==>
            Ordered(t.left) && Ordered(t.right) &&
            (forall x :: x in Keys(t.left) ==> x < t.key) &&
            (forall x :: x in Keys(t.right) ==> t.key < x)
  {
    assert Keys(t) == Keys(t.left) + [t.key] + Keys(t.right);
    SortedConcat(Keys(t.left), t.key, Keys(t.right));
  }

  lemma {:induction false} NoDupConcatIntro(a: seq<int>, k: int, b: seq<int>)
    requires NoDup(a) && NoDup(b) && k !in a && k !in b
    requires forall x :: x in a ==> x !in b
    ensures NoDup(a + [k] + b)
  {
    var s := a + [k] + b;
    forall i, j | 0 <= i < j < |s| ensures s[i] != s[j] {
      if i < |a| {
        assert s[i] in a;
        if j > |a| { assert s[j] == b[j - |a| - 1]; assert s[j] in b; }
      } else if i == |a| {
        assert s[j] == b[j - |a| - 1]; assert s[j] in b;
      } else {
        assert s[i] == b[i - |a| - 1] && s[j] == b[j - |a| - 1];
      }
    }
  }

  lemma {:induction false} NoDupConcatElim(a: seq<int>, k: int, b: seq<int>)
    requires NoDup(a + [k] + b)
    ensures NoDup(a) && NoDup(b) && k !in a && k !in b
    ensures forall x :: x in a ==> x !in b
  {
    var s := a + [k] + b;
    assert forall i :: 0 <= i < |a| ==> a[i] == s[i];
    assert forall i :: 0 <= i < |b| ==> b[i] == s[|a| + 1 + i];
    assert s[|a|] == k;
    forall i | 0 <= i < |a| ensures a[i] != k {
      assert s[i] != s[|a|];
    }
    forall i | 0 <= i < |b| ensures b[i] != k {
      assert s[|a| + 1 + i] != s[|a|];
    }
    forall x | x in a ensures x !in b {
      var i :| 0 <= i < |a| && a[i] == x;
      forall j | 0 <= j < |b| ensures b[j] != x {
        assert s[i] != s[|a| + 1 + j];
      }
    }
  }

  lemma {:induction false} NoDupConcat(a: seq<int>, k: int, b: seq<int>)
    ensures NoDup(a + [k] + b) <==>
            NoDup(a) && NoDup(b) && k !in a && k !in b &&
            (forall x :: x in a ==> x !in b)
  {
    if NoDup(a + [k] + b) {
      NoDupConcatElim(a, k, b);
    }
    if NoDup(a) && NoDup(b) && k !in a && k !in b && (forall x :: x in a ==> x !in b) {
      NoDupConcatIntro(a, k, b);
    }
  }

  /** Distinctness of a node in terms of its subtrees. */
  lemma {:induction false} DistinctNode(t: Tree)
    requires t.Node?
    ensures Distinct(t) <==>
            Distinct(t.left) && Distinct(t.right) &&
            t.id !in IdSeq(t.left) && t.id !in IdSeq(t.right) &&
            (forall x :: x in IdSeq(t.left) ==> x !in IdSeq(t.right))
  {
    NoDupConcat(IdSeq(t.left), t.id, IdSeq(t.right));
  }

  // ---------------------------------------------------------------------------
  // Zipper contexts

  function Plug1(f: Frame, s: Tree): (t: Tree)
    ensures t.Node? && t.id == f.id && t.key == f.key && t.color == f.color
  {
    if f.dir == Left then Node(f.color, s, f.id, f.key, f.sib)
    else Node(f.color, f.sib, f.id, f.key, s)
  }

  /** The whole tree obtained by putting `s` back at the bottom of the path `ctx`. */
  function Plug(ctx: seq<Frame>, s: Tree): Tree
    decreases |ctx|
  {
    if ctx == [] then s else Plug(ctx[1..], Plug1(ctx[0], s))
  }

  /** Keys that come before / after the focus in in-order. */
  function CtxKeysL(ctx: seq<Frame>): seq<int>
    decreases |ctx|
  {
    if ctx == [] then []
    else CtxKeysL(ctx[1..]) + (if ctx[0].dir == Left then [] else Keys(ctx[0].sib) + [ctx[0].key])
  }

  function CtxKeysR(ctx: seq<Frame>): seq<int>
    decreases |ctx|
  {
    if ctx == [] then []
    else (if ctx[0].dir == Left then [ctx[0].key] + Keys(ctx[0].sib) else []) + CtxKeysR(ctx[1..])
  }

  function CtxIdsL(ctx: seq<Frame>): seq<int>
    decreases |ctx|
  {
    if ctx == [] then []
    else CtxIdsL(ctx[1..]) + (if ctx[0].dir == Left then [] else IdSeq(ctx[0].sib) + [ctx[0].id])
  }

  function CtxIdsR(ctx: seq<Frame>): seq<int>
    decreases |ctx|
  {
    if ctx == [] then []
    else (if ctx[0].dir == Left then [ctx[0].id] + IdSeq(ctx[0].sib) else []) + CtxIdsR(ctx[1..])
  }

  /** Regrouping the concatenations met when a frame is plugged. */
  lemma {:induction false} Regroup(l: seq<int>, a: seq<int>, k: int, b: seq<int>, r: seq<int>)
    ensures l + (a + [k] + b) + r == l + a + ([k] + b + r)
    ensures l + (b + [k] + a) + r == (l + (b + [k])) + a + r
  {
  }

  /** The in-order keys of a plugged tree are the context's left keys, the
      focus's keys and the context's right keys. */
  lemma {:induction false} PlugKeys(ctx: seq<Frame>, s: Tree)
    ensures Keys(Plug(ctx, s)) == CtxKeysL(ctx) + Keys(s) + CtxKeysR(ctx)
    decreases |ctx|
  {
    if ctx != [] {
      var f := ctx[0];
      PlugKeys(ctx[1..], Plug1(f, s));
      Regroup(CtxKeysL(ctx[1..]), Keys(s), f.key, Keys(f.sib), CtxKeysR(ctx[1..]));
    }
  }

  lemma {:induction false} PlugIds(ctx: seq<Frame>, s: Tree)
    ensures IdSeq(Plug(ctx, s)) == CtxIdsL(ctx) + IdSeq(s) + CtxIdsR(ctx)
    decreases |ctx|
  {
    if ctx != [] {
      var f := ctx[0];
      PlugIds(ctx[1..], Plug1(f, s));
      Regroup(CtxIdsL(ctx[1..]), IdSeq(s), f.id, IdSeq(f.sib), CtxIdsR(ctx[1..]));
    }
  }

  /** Size of a plugged tree: the context contributes a fixed amount. */
  lemma {:induction false} PlugSize(ctx: seq<Frame>, s: Tree)
    ensures Size(Plug(ctx, s)) == |CtxKeysL(ctx)| + Size(s) + |CtxKeysR(ctx)|
  {
    PlugKeys(ctx, s);
  }

  /** Replacing the focus by a subtree with the same in-order keys and ids
      preserves the search-tree property and distinctness of the whole tree. */
  lemma {:induction false} PlugCongruent(ctx: seq<Frame>, s: Tree, s': Tree)
    requires Keys(s') == Keys(s) && IdSeq(s') == IdSeq(s)
    ensures Keys(Plug(ctx, s')) == Keys(Plug(ctx, s))
    ensures IdSeq(Plug(ctx, s')) == IdSeq(Plug(ctx, s))
    ensures Size(Plug(ctx, s')) == Size(Plug(ctx, s))
  {
    PlugKeys(ctx, s); PlugKeys(ctx, s');
    PlugIds(ctx, s); PlugIds(ctx, s');
  }

  lemma {:induction false} PlugAppend(a: seq<Frame>, b: seq<Frame>, s: Tree)
    ensures Plug(a + b, s) == Plug(b, Plug(a, s))
    decreases |a|
  {
    if a == [] {
      assert a + b == b;
    } else {
      assert (a + b)[0] == a[0] && (a + b)[1..] == a[1..] + b;
      PlugAppend(a[1..], b, Plug1(a[0], s));
    }
  }

  /** The root of a plugged tree is the outermost frame's node. */
  lemma {:induction false} PlugRoot(ctx: seq<Frame>, s: Tree)
    ensures ctx != [] ==> Plug(ctx, s).Node? && Plug(ctx, s).id == ctx[|ctx| - 1].id
    ensures ctx == [] ==> Plug(ctx, s) == s
    decreases |ctx|
  {
    if |ctx| > 1 {
      PlugRoot(ctx[1..], Plug1(ctx[0], s));
    }
  }

  // ---------------------------------------------------------------------------
  // Rotations on values

  /** left_rotate: x with right child y becomes y's left child. */
  function RotL(t: Tree): (r: Tree)
    requires t.Node? && t.right.Node?
    ensures r.Node? && r.id == t.right.id && r.left.Node? && r.left.id == t.id
    ensures Keys(r) == Keys(t) && IdSeq(r) == IdSeq(t) && Size(r) == Size(t)
  {
    var y := t.right;
    Node(y.color, Node(t.color, t.left, t.id, t.key, y.left), y.id, y.key, y.right)
  }

  /** right_rotate: x with left child y becomes y's right child. */
  function RotR(t: Tree): (r: Tree)
    requires t.Node? && t.left.Node?
    ensures r.Node? && r.id == t.left.id && r.right.Node? && r.right.id == t.id
    ensures Keys(r) == Keys(t) && IdSeq(r) == IdSeq(t) && Size(r) == Size(t)
  {
    var y := t.left;
    Node(y.color, y.left, y.id, y.key, Node(t.color, y.right, t.id, t.key, t.right))
  }

  function Recolor(t: Tree, c: Color): (r: Tree)
    requires t.Node?
    ensures r.Node? && r.color == c && r.left == t.left && r.right == t.right
    ensures r.id == t.id && r.key == t.key
  {
    t.(color := c)
  }

  // ---------------------------------------------------------------------------
  // Ranks in a sorted key sequence

  /** Number of keys strictly below `k`: the answer of n_less_than and the
      in-order position of lower_bound. */
  function CountLess(s: seq<int>, k: int): (c: nat)
    ensures c <= |s|
  {
    if s == [] then 0 else CountLess(s[..|s| - 1], k) + (if s[|s| - 1] < k then 1 else 0)
  }

  /** Number of keys not above `k`: the in-order position of upper_bound. */
  function CountAtMost(s: seq<int>, k: int): (c: nat)
    ensures c <= |s|
  {
    if s == [] then 0 else CountAtMost(s[..|s| - 1], k) + (if s[|s| - 1] <= k then 1 else 0)
  }

  /** `c` splits `s` into a prefix of keys below `k` and a suffix of keys not
      below it. */
  predicate RankBelow(s: seq<int>, k: int, c: int)
  {
    forall j :: 0 <= j < |s| ==> (s[j] < k <==> j < c)
  }

  /** `c` splits `s` into a prefix of keys not above `k` and a suffix of keys
      above it. */
  predicate RankAtMost(s: seq<int>, k: int, c: int)
  {
    forall j :: 0 <= j < |s| ==> (s[j] <= k <==> j < c)
  }

  /** In a sorted sequence the keys below `k` are exactly its first CountLess(s, k). */
  lemma {:induction false} CountLessSorted(s: seq<int>, k: int)
    requires StrictlySorted(s)
    ensures RankBelow(s, k, CountLess(s, k))
    decreases |s|
  {
    if s != [] {
      var p := s[..|s| - 1];
      assert forall j :: 0 <= j < |p| ==> p[j] == s[j];
      CountLessSorted(p, k);
    }
  }

  /** In a sorted sequence the keys not above `k` are exactly its first
      CountAtMost(s, k). */
  lemma {:induction false} CountAtMostSorted(s: seq<int>, k: int)
    requires StrictlySorted(s)
    ensures RankAtMost(s, k, CountAtMost(s, k))
    decreases |s|
  {
    if s != [] {
      var p := s[..|s| - 1];
      assert forall j :: 0 <= j < |p| ==> p[j] == s[j];
      CountAtMostSorted(p, k);
    }
  }

  /** In a sorted sequence the position of a key is the number of keys below it. */
  lemma CountLessAt(s: seq<int>, j: int)
    requires StrictlySorted(s) && 0 <= j < |s|
    ensures CountLess(s, s[j]) == j && CountAtMost(s, s[j]) == j + 1
  {
    CountLessSorted(s, s[j]);
    CountAtMostSorted(s, s[j]);
  }

  /** In a sorted sequence, a key found at `m` has rank `m`. */
  lemma {:induction false} RankHit(s: seq<int>, k: int, c: int, m: int)
    requires StrictlySorted(s) && RankBelow(s, k, c) && 0 <= c
    requires 0 <= m < |s| && s[m] == k
    ensures c == m
  {
    if 0 < m {
      assert s[m - 1] < s[m];
    }
  }

  /** In a sorted sequence, a key that is not the one at its rank is absent. */
  lemma {:induction false} RankAbsent(s: seq<int>, k: int, c: int)
    requires StrictlySorted(s) && RankBelow(s, k, c) && 0 <= c
    requires c < |s| ==> k < s[c]
    ensures k !in s
  {
  }

  // ---------------------------------------------------------------------------
  // Walking down a zipper

  /** Frames for stepping from a node to its left or right child. */
  function DownL(s: Tree): (f: Frame)
    requires s.Node?
    ensures Plug1(f, s.left) == s
  {
    Frame(Left, s.color, s.id, s.key, s.right)
  }

  function DownR(s: Tree): (f: Frame)
    requires s.Node?
    ensures Plug1(f, s.right) == s
  {
    Frame(Right, s.color, s.id, s.key, s.left)
  }

  lemma {:induction false} CtxLens(ctx: seq<Frame>)
    ensures |CtxKeysL(ctx)| == |CtxIdsL(ctx)| && |CtxKeysR(ctx)| == |CtxIdsR(ctx)|
    decreases |ctx|
  {
    if ctx != [] { CtxLens(ctx[1..]); }
  }

  /** Indexing into the middle part of a three-part concatenation. */
  lemma {:induction false} IndexMiddle(l: seq<int>, m: seq<int>, r: seq<int>, i: int)
    requires 0 <= i < |m|
    ensures (l + m + r)[|l| + i] == m[i]
  {
  }

  /** The focus `s` of a zipper over `t` whose left context holds `lo` keys
      sits at in-order position `lo + Size(s.left)` of `t`. */
  lemma {:induction false} PlugAt(ctx: seq<Frame>, s: Tree, t: Tree, lo: int)
    requires s.Node? && Plug(ctx, s) == t && lo == |CtxKeysL(ctx)|
    ensures |CtxIdsL(ctx)| == lo && lo + Size(s) <= Size(t)
    ensures Keys(t)[lo + Size(s.left)] == s.key
    ensures IdSeq(t)[lo + Size(s.left)] == s.id
  {
    CtxLens(ctx);
    PlugKeys(ctx, s);
    PlugIds(ctx, s);
    var m := Size(s.left);
    assert Keys(s)[m] == s.key && IdSeq(s)[m] == s.id;
    IndexMiddle(CtxKeysL(ctx), Keys(s), CtxKeysR(ctx), m);
    IndexMiddle(CtxIdsL(ctx), IdSeq(s), CtxIdsR(ctx), m);
  }

  /** The two zippers one step below the focus `s`, and the sizes of their
      left contexts. */
  lemma {:induction false} PlugDown(ctx: seq<Frame>, s: Tree, t: Tree, lo: int)
    requires s.Node? && Plug(ctx, s) == t && lo == |CtxKeysL(ctx)|
    ensures Plug([DownL(s)] + ctx, s.left) == t && Plug([DownR(s)] + ctx, s.right) == t
    ensures |CtxKeysL([DownL(s)] + ctx)| == lo
    ensures |CtxKeysL([DownR(s)] + ctx)| == lo + Size(s.left) + 1
  {
    assert ([DownL(s)] + ctx)[1..] == ctx;
    assert ([DownR(s)] + ctx)[1..] == ctx;
  }

  // ---------------------------------------------------------------------------
  // Search windows

  /** The state of a descent by key: `s` is the subtree the walk is at, its
      in-order position in `t` starts at `lo`, and the rank `c` being sought
      lies within it. */
  ghost predicate Window(t: Tree, ctx: seq<Frame>, s: Tree, lo: int, c: int)
  {
    Plug(ctx, s) == t && lo == |CtxKeysL(ctx)| && lo <= c <= lo + Size(s) && lo + Size(s) <= Size(t)
  }

  /** One step down from the window at `s`: the node sits at rank
      `lo + Size(s.left)`; a sought rank at or below it lies in the left
      child's window, one above it in the right child's. */
  lemma {:induction false} WindowStep(t: Tree, ctx: seq<Frame>, s: Tree, lo: int, c: int)
    requires s.Node? && Window(t, ctx, s, lo, c)
    ensures lo + Size(s.left) < Size(t)
    ensures Keys(t)[lo + Size(s.left)] == s.key && IdSeq(t)[lo + Size(s.left)] == s.id
    ensures lo + Size(s.left) + 1 + Size(s.right) == lo + Size(s)
    ensures c <= lo + Size(s.left) ==> Window(t, [DownL(s)] + ctx, s.left, lo, c)
    ensures lo + Size(s.left) < c ==> Window(t, [DownR(s)] + ctx, s.right, lo + Size(s.left) + 1, c)
  {
    PlugAt(ctx, s, t, lo);
    PlugDown(ctx, s, t, lo);
  }

  /** One step of a descent towards the rank `c` of `key` among the keys: left
      when the node's key is not below `key`, right otherwise. */
  lemma {:induction false} DescendLess(t: Tree, ctx: seq<Frame>, s: Tree, lo: int, key: int, c: int)
    requires s.Node? && RankBelow(Keys(t), key, c) && Window(t, ctx, s, lo, c)
    ensures lo + Size(s.left) < Size(t)
    ensures Keys(t)[lo + Size(s.left)] == s.key && IdSeq(t)[lo + Size(s.left)] == s.id
    ensures lo + Size(s.left) + 1 + Size(s.right) == lo + Size(s)
    ensures key <= s.key ==> Window(t, [DownL(s)] + ctx, s.left, lo, c)
    ensures s.key < key ==> Window(t, [DownR(s)] + ctx, s.right, lo + Size(s.left) + 1, c)
  {
    WindowStep(t, ctx, s, lo, c);
    var m := lo + Size(s.left);
    assert Keys(t)[m] < key <==> m < c;
  }

  /** One step of a descent towards the number `c` of keys not above `key`:
      left when the node's key is above `key`, right otherwise. */
  lemma {:induction false} DescendAtMost(t: Tree, ctx: seq<Frame>, s: Tree, lo: int, key: int, c: int)
    requires s.Node? && RankAtMost(Keys(t), key, c) && Window(t, ctx, s, lo, c)
    ensures lo + Size(s.left) < Size(t)
    ensures Keys(t)[lo + Size(s.left)] == s.key && IdSeq(t)[lo + Size(s.left)] == s.id
    ensures lo + Size(s.left) + 1 + Size(s.right) == lo + Size(s)
    ensures key < s.key ==> Window(t, [DownL(s)] + ctx, s.left, lo, c)
    ensures s.key <= key ==> Window(t, [DownR(s)] + ctx, s.right, lo + Size(s.left) + 1, c)
  {
    WindowStep(t, ctx, s, lo, c);
    var m := lo + Size(s.left);
    assert Keys(t)[m] <= key <==> m < c;
  }
}
