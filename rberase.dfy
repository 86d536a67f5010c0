/** The earlier RB_Tree revision of erase and of its fixup, as far as they
    differ from ARB_Tree's.  The unlinking of y and the moving of y into z's
    place are written out record by record, so that the places where that
    revision loses a count or follows a link the sentinel does not have can
    be shown on concrete arenas.  `None` stands for a null dereference or a
    read of a field the sentinel lacks (End_Node holds only a left link). */
module RbErase {
  import opened Trees
  import opened Arena
  import opened RedBlack
  import opened EraseCases
  import opened EraseFix
  import opened ErasePlan

  /** size_t arithmetic. */
  function Wrap(v: int): (r: nat)
    ensures 0 <= v < 0x1_0000_0000_0000_0000 ==> r == v
  {
    v % 0x1_0000_0000_0000_0000
  }

  /** The records after erase has unlinked y, the root variable, and x. */
  datatype Unlinked = Unlinked(ns: seq<NodeRec>, root: int, x: int)

  /** Unlinking y (the node that leaves its place): y's parent takes y's
      only child x, x's parent link is set, and the parent's count is
      adjusted by the difference of the two counts.  When y is the root and
      a left child of the sentinel, the root variable becomes x. */
  function UnlinkAsWritten(ns: seq<NodeRec>, root: int, y: int): (r: Option<Unlinked>)
    requires 0 < y < |ns|
    ensures r.Some? ==> |r.value.ns| == |ns| && r.value.x == (if ns[y].left == NIL then ns[y].right else ns[y].left)
    ensures r.Some? ==> (0 <= ns[y].parent < |ns| &&
      r.value.root == (if y == root && ns[ns[y].parent].left == y then r.value.x else root))
  {
    var x := if ns[y].left == NIL then ns[y].right else ns[y].left;
    var yp := ns[y].parent;
    if !(0 <= yp < |ns|) || !(x == NIL || 0 < x < |ns|) then None
    else
      var left := ns[yp].left == y;
      var ns1 := if left then ns[yp := ns[yp].(left := x)] else ns[yp := ns[yp].(right := x)];
      var root1 := if left && y == root then x else root;
      var ns2 :=
        if x != NIL then
          var n := ns1[x := ns1[x].(parent := yp)];
          n[yp := n[yp].(size := Wrap(n[yp].size + n[x].size - n[y].size))]
        else ns1[yp := ns1[yp].(size := Wrap(ns1[yp].size - ns1[y].size))];
      Some(Unlinked(ns2, root1, x))
  }

  /** Moving y into z's place when they differ: y takes z's children, colour
      and parent; y's count is recomputed from z's children and the count of
      z's parent from y and its other child.  No other ancestor's count
      changes.  A z hanging under the sentinel makes the code read the
      sentinel's right link, which it does not have. */
  function MoveAsWritten(ns: seq<NodeRec>, root: int, z: int, y: int): (r: Option<(seq<NodeRec>, int)>)
    requires 0 < z < |ns| && 0 < y < |ns| && y != z
    ensures r.Some? ==> |r.value.0| == |ns| && r.value.1 == (if z == root then y else root)
  {
    var zl, zr := ns[z].left, ns[z].right;
    if !(0 < zl < |ns|) || !(zr == NIL || 0 < zr < |ns|) then None
    else
      var n1 := ns[y := ns[y].(left := zl, right := zr)];
      var n2 := n1[zl := n1[zl].(parent := y)];
      var n3 := if zr != NIL then n2[zr := n2[zr].(parent := y)] else n2;
      var n4 := n3[y := n3[y].(color := n3[z].color)];
      var n5 := n4[y := n4[y].(size := n4[zl].size + SizeOf(n4, zr) + 1)];
      var zp := n5[z].parent;
      if !(0 < zp < |ns|) then None
      else
        var zLeft := n5[zp].left == z;
        var n6 := if zLeft then n5[zp := n5[zp].(left := y)] else n5[zp := n5[zp].(right := y)];
        var other := if zLeft then n6[zp].right else n6[zp].left;
        if !(other == NIL || 0 < other < |ns|) then None
        else
          var n7 := n6[zp := n6[zp].(size := 1 + n6[y].size + SizeOf(n6, other))];
          var n8 := n7[y := n7[y].(parent := zp)];
          Some((n8, if z == root then y else root))
  }

  /** The start of the count walk when y is z: the walk stops at the parent
      of the root variable (read after the unlink) and begins at the parent
      of y's old parent.  An empty tree leaves no root to read, and a y that
      hung under the sentinel makes the walk read the sentinel's parent. */
  function WalkStartAsWritten(ns: seq<NodeRec>, root: int, yp: int): (r: Option<int>)
    requires 0 <= yp < |ns|
    ensures r.Some? <==> root != NIL && yp != END
  {
    if root == NIL || yp == END then None else Some(ns[yp].parent)
  }

  // ---------------------------------------------------------------------------
  // What erase reads and writes

  /** A subtree held by the records links only to its own nodes, to null,
      or (as a parent) to the subtree's parent. */
  lemma {:induction false} MatchesClosed(v: Tree, pid: int, ns: seq<NodeRec>, j: int)
    requires Matches(v, pid, ns) && j in IdSeq(v)
    ensures 0 < j < |ns|
    ensures ns[j].parent == pid || ns[j].parent in IdSeq(v)
    ensures ns[j].left == NIL || ns[j].left in IdSeq(v)
    ensures ns[j].right == NIL || ns[j].right in IdSeq(v)
  {
    if j == v.id {
      if v.left.Node? { assert v.left.id in IdSeq(v.left); }
      if v.right.Node? { assert v.right.id in IdSeq(v.right); }
    } else if j in IdSeq(v.left) {
      MatchesClosed(v.left, v.id, ns, j);
    } else {
      MatchesClosed(v.right, v.id, ns, j);
    }
  }

  /** `ns'` has the length of `ns` and the same records outside `ids`. */
  predicate SameOutside(ns: seq<NodeRec>, ns': seq<NodeRec>, ids: seq<int>)
  {
    |ns'| == |ns| && forall i {:trigger ns'[i]} :: 0 <= i < |ns| && i !in ids ==> ns'[i] == ns[i]
  }

  /** The records the unlink writes: y's parent and y's child, and the
      links it leaves in them. */
  lemma {:induction false} UnlinkFrame(ns: seq<NodeRec>, root: int, y: int)
    requires 0 < y < |ns|
    ensures var x, yp := (if ns[y].left == NIL then ns[y].right else ns[y].left), ns[y].parent;
      var r := UnlinkAsWritten(ns, root, y);
      (r.Some? <==> 0 <= yp < |ns| && (x == NIL || 0 < x < |ns|)) &&
      (r.Some? ==> (SameOutside(ns, r.value.ns, [yp, x]) &&
        r.value.ns[yp].left == (if ns[yp].left == y then x else ns[yp].left) &&
        r.value.ns[yp].right == (if ns[yp].left == y then ns[yp].right else x) &&
        (yp != x ==> r.value.ns[yp].parent == ns[yp].parent)))
  {
  }

  /** Unlinking a node y without a left child from the right subtree of a
      node z with two children writes only records of z's subtree, and
      leaves z's parent link and left link as they were; z's right link is
      then null or a node of its right subtree. */
  lemma {:induction false} UnlinkInside(zt: Tree, zp: int, ns: seq<NodeRec>, root: int, y: int)
    requires zt.Node? && zt.left.Node? && zt.right.Node? && Matches(zt, zp, ns) && Distinct(zt)
    requires y in IdSeq(zt.right) && 0 < y < |ns| && ns[y].left == NIL
    ensures var u := UnlinkAsWritten(ns, root, y);
      u.Some? && SameOutside(ns, u.value.ns, IdSeq(zt)) &&
      u.value.ns[zt.id].parent == zp && u.value.ns[zt.id].left == zt.left.id &&
      (u.value.ns[zt.id].right == NIL || u.value.ns[zt.id].right in IdSeq(zt.right))
  {
    DistinctNode(zt);
    var z := zt.id;
    assert zt.left.id in IdSeq(zt.left);
    assert ns[z].left == zt.left.id && ns[z].right == zt.right.id && ns[z].parent == zp;
    MatchesClosed(zt.right, z, ns, y);
    var yp, x := ns[y].parent, ns[y].right;
    if yp != z { MatchesClosed(zt.right, z, ns, yp); }
    if x != NIL { MatchesClosed(zt.right, z, ns, x); }
    assert x != z && (yp == z || yp in IdSeq(zt.right));
    UnlinkFrame(ns, root, y);
    var u := UnlinkAsWritten(ns, root, y).value.ns;
    assert yp == z ==> ns[yp].left != y;
    assert u[z].left == zt.left.id && u[z].parent == zp;
  }

  /** The records the move writes: y, z's children and z's parent. */
  lemma {:induction false} MoveFrame(ns: seq<NodeRec>, root: int, z: int, y: int)
    requires 0 < z < |ns| && 0 < y < |ns| && y != z
    ensures var zl, zr := ns[z].left, ns[z].right;
      var r := MoveAsWritten(ns, root, z, y);
      var zp := ns[z].parent;
      (0 < zl < |ns| && (zr == NIL || 0 < zr < |ns|) && zl != z && zr != z && zp != y && zp != zl && zp != zr ==>
        (r.Some? <==> (0 < zp < |ns| &&
          var other := if ns[zp].left == z then ns[zp].right else ns[zp].left;
          other == NIL || 0 < other < |ns|)) &&
        (r.Some? ==> SameOutside(ns, r.value.0, [y, zl, zr, zp])))
  {
  }

  /** Moving y into z's place after the unlink, with z hanging under a node
      `zp`: y, z's children and zp are the only records written, and a z
      hanging under the sentinel stops the move. */
  lemma {:induction false} MoveInside(zt: Tree, zp: int, m: seq<NodeRec>, root: int, y: int)
    requires zt.Node? && zt.left.Node? && Distinct(zt) && forall j :: j in IdSeq(zt) ==> 0 < j < |m|
    requires 0 < zt.id < |m| && 0 < y < |m| && y != zt.id
    requires y in IdSeq(zt.right) && m[zt.id].parent == zp && m[zt.id].left == zt.left.id
    requires m[zt.id].right == NIL || m[zt.id].right in IdSeq(zt.right)
    requires zp == END || (0 < zp < |m| && zp !in IdSeq(zt) && (m[zp].left == zt.id || m[zp].right == zt.id) &&
      (m[zp].left == NIL || 0 < m[zp].left < |m|) && (m[zp].right == NIL || 0 < m[zp].right < |m|))
    ensures var r := MoveAsWritten(m, root, zt.id, y);
      (zp == END ==> r.None?) &&
      (zp != END ==> r.Some? && SameOutside(m, r.value.0, IdSeq(zt) + [zp]))
  {
    DistinctNode(zt);
    var z := zt.id;
    var zl, zr := m[z].left, m[z].right;
    assert IdSeq(zt) == IdSeq(zt.left) + [z] + IdSeq(zt.right);
    assert zl in IdSeq(zt.left) && zl in IdSeq(zt);
    assert zr != NIL ==> zr in IdSeq(zt);
    MoveFrame(m, root, z, y);
  }

  /** Erasing the root when it has two children: once y is unlinked, z's
      parent is the sentinel, and the move reads the sentinel's right link,
      which End_Node does not have.  Every root with two children meets
      this; with y the successor, the smallest such tree is 2(1, 3). */
  lemma {:induction false} RootMoveAsWritten(t: Tree, ns: seq<NodeRec>, y: int)
    requires Holds(t, ns) && Distinct(t) && t.Node? && t.left.Node? && t.right.Node?
    requires y in IdSeq(t.right) && 0 < y < |ns| && y != t.id && ns[y].left == NIL
    ensures var u := UnlinkAsWritten(ns, t.id, y);
      u.Some? && MoveAsWritten(u.value.ns, u.value.root, t.id, y).None?
  {
    UnlinkInside(t, END, ns, t.id, y);
    MatchesIds(t, END, ns);
    MoveInside(t, END, UnlinkAsWritten(ns, t.id, y).value.ns, t.id, y);
  }

  /** Erasing a root with at most one child: y is the root and hangs under
      the sentinel, so the count walk either reads the parent of a root
      that is now null (the tree became empty) or starts at the parent of
      the sentinel, which End_Node does not have.  The one-node tree and
      the two-node tree 1(—, 2) meet the two cases.  The unlink has already
      lowered the sentinel's count, and the wrapper lowers it once more, so
      size() then reports one node fewer than remain: 0 for 1(—, 2), and
      the wrapped SIZE_MAX for the one-node tree. */
  lemma {:induction false} RootWalkAsWritten(t: Tree, ns: seq<NodeRec>)
    requires Holds(t, ns) && t.Node? && (t.left == Nil || t.right == Nil)
    ensures 0 < t.id < |ns| && ns[t.id].parent == END
    ensures var u := UnlinkAsWritten(ns, t.id, t.id);
      u.Some? && u.value.root == RootId(if t.left == Nil then t.right else t.left) &&
      WalkStartAsWritten(u.value.ns, u.value.root, ns[t.id].parent).None? &&
      u.value.ns[END].size == Wrap(Size(t)) &&
      var reported := Wrap(Wrap(u.value.ns[END].size - 1) - 1);
      (Size(t) == 1 ==> reported == 0xFFFF_FFFF_FFFF_FFFF) &&
      (1 < Size(t) < 0x1_0000_0000_0000_0000 ==> reported == Size(t) - 2)
  {
    assert Matches(t, END, ns);
    SizeOfMatches(t.left, t.id, ns);
    SizeOfMatches(t.right, t.id, ns);
    var c := if t.left == Nil then t.right else t.left;
    assert ns[END].size == Size(t) + 1 && ns[END].left == t.id && ns[t.id].size == Size(t);
    assert Size(t) == Size(c) + 1 && SizeOf(ns, RootId(c)) == Size(c);
  }

  /** Where z, its parent and the root lie when z is below the root's
      children. */
  lemma {:induction false} BelowRootChildren(ctx: seq<Frame>, zt: Tree, ns: seq<NodeRec>, y: int)
    requires |ctx| >= 2 && Z(ctx, zt, ns) && Distinct(Plug(ctx, zt))
    requires zt.Node? && y in IdSeq(zt.right)
    ensures var root, zp := RootId(Plug(ctx, zt)), ctx[0].id;
      0 < root < |ns| && ns[root].size == Size(Plug(ctx, zt)) &&
      root !in IdSeq(zt) && root != zp && root != y && Matches(zt, zp, ns) && Distinct(zt) &&
      (forall j :: j in IdSeq(zt) ==> 0 < j < |ns|) &&
      0 < zp < |ns| && zp !in IdSeq(zt) && (ns[zp].left == zt.id || ns[zp].right == zt.id) &&
      (ns[zp].left == NIL || 0 < ns[zp].left < |ns|) && (ns[zp].right == NIL || 0 < ns[zp].right < |ns|)
  {
    var t := Plug(ctx, zt);
    var f := ctx[0];
    DistinctFocus(ctx, zt);
    DistinctFrame(ctx, zt);
    ZHolds(ctx, zt, ns);
    PlugRoot(ctx, zt);
    assert Matches(t, END, ns);
    assert IdSeq(zt) == IdSeq(zt.left) + [zt.id] + IdSeq(zt.right);
    assert zt.id in IdSeq(zt) && y in IdSeq(zt);
    RootAboveFocus(ctx, zt);
    RootAboveFocus(ctx[1..], Plug1(f, zt));
    assert f.id in IdSeq(Plug1(f, zt));
    MatchesIds(zt, f.id, ns);
    SizeOfMatches(f.sib, f.id, ns);
  }

  /** Erasing a node z with two children that lies below the root's
      children: after the unlink and the move, the root's record is
      untouched, so it still counts every node of the tree, the one that
      left included. */
  lemma {:induction false} StaleCountAsWritten(ctx: seq<Frame>, zt: Tree, ns: seq<NodeRec>, y: int)
    requires |ctx| >= 2 && Z(ctx, zt, ns) && Distinct(Plug(ctx, zt))
    requires zt.Node? && zt.left.Node? && zt.right.Node?
    requires y in IdSeq(zt.right) && 0 < y < |ns| && y != zt.id && ns[y].left == NIL
    ensures var root := RootId(Plug(ctx, zt));
      var u := UnlinkAsWritten(ns, root, y);
      u.Some? && var m := MoveAsWritten(u.value.ns, u.value.root, zt.id, y);
      m.Some? && m.value.1 == root && 0 < root < |ns| &&
      m.value.0[root] == ns[root] && ns[root].size == Size(Plug(ctx, zt))
  {
    var root, zp := RootId(Plug(ctx, zt)), ctx[0].id;
    BelowRootChildren(ctx, zt, ns, y);
    UnlinkInside(zt, zp, ns, root, y);
    UnlinkFrame(ns, root, y);
    var u := UnlinkAsWritten(ns, root, y).value;
    MoveInside(zt, zp, u.ns, root, y);
  }

  // ---------------------------------------------------------------------------
  // The sibling the mirror branch picks after case 2

  /** After case 2 in the branch where x is a right child, this revision
      takes `x->parent_->left_` when x is a left child and the right link
      otherwise: the link that leads back to x. */
  function MirrorSiblingAsWritten(ns: seq<NodeRec>, x: int): (w: int)
    requires 0 <= x < |ns| && 0 <= ns[x].parent < |ns|
    ensures ns[ns[x].parent].left == x || ns[ns[x].parent].right == x ==> w == x
  {
    var p := ns[x].parent;
    if IsLeftChild(ns, x) then ns[p].left else ns[p].right
  }

  /** The sibling as the other branch (and ARB_Tree in both) computes it. */
  function SiblingOf(ns: seq<NodeRec>, x: int): int
    requires 0 <= x < |ns| && 0 <= ns[x].parent < |ns|
  {
    var p := ns[x].parent;
    if IsLeftChild(ns, x) then ns[p].right else ns[p].left
  }

  /** In an arena that holds a tree, the corrected choice is the focus's
      sibling, while the choice as written is the focus itself, which never
      equals the sibling. */
  lemma {:induction false} SiblingChoice(ctx: seq<Frame>, s: Tree, ns: seq<NodeRec>)
    requires ctx != [] && s.Node? && Z(ctx, s, ns) && Distinct(Plug(ctx, s))
    ensures 0 < s.id < |ns| && 0 <= ns[s.id].parent < |ns|
    ensures SiblingOf(ns, s.id) == RootId(ctx[0].sib)
    ensures MirrorSiblingAsWritten(ns, s.id) == s.id != RootId(ctx[0].sib)
  {
    FocusSibling(ctx, s, ns);
    DistinctFrame(ctx, s);
    assert s.id in IdSeq(s);
    if ctx[0].sib.Node? { assert ctx[0].sib.id in IdSeq(ctx[0].sib); }
  }

  // ---------------------------------------------------------------------------
  // The root that the fixup of this revision returns

  /** Case 4 under the root: the fixup of this revision never updates its
      root variable in case 4, so it returns the old root `f.id`, and erase
      stores it as the sentinel's left link.  After the rotation that node
      is the child of `w`, so the arena then holds no tree at all. */
  lemma {:induction false} StaleRootAsWritten(f: Frame, s: Tree, ns: seq<NodeRec>, ns': seq<NodeRec>)
    requires f.dir == Left && f.sib.Node? && f.sib.right.Node? && Holds(Case4L(f, s), ns)
    requires 0 < |ns| && ns' == ns[END := ns[END].(left := f.id)]
    ensures forall t :: !Holds(t, ns')
  {
    var u := Node(Black, s, f.id, f.key, f.sib.left);
    assert Matches(u, f.sib.id, ns);
    assert ns'[f.id].parent != END;
  }

  lemma {:induction false} StaleRootMirrorAsWritten(f: Frame, s: Tree, ns: seq<NodeRec>, ns': seq<NodeRec>)
    requires f.dir == Right && f.sib.Node? && f.sib.left.Node? && Holds(Case4R(f, s), ns)
    requires 0 < |ns| && ns' == ns[END := ns[END].(left := f.id)]
    ensures forall t :: !Holds(t, ns')
  {
    var u := Node(Black, f.sib.right, f.id, f.key, s);
    assert Matches(u, f.sib.id, ns);
    assert ns'[f.id].parent != END;
  }

  /** The fixup with the root it returns taken from the sentinel once the
      loop is over, which is what this revision's caller needs. */
  method FixupRooted(ns: seq<NodeRec>, root: int, x: int, w: int, ghost ctx0: seq<Frame>, ghost s0: Tree)
    returns (ns': seq<NodeRec>, root': int, ghost t': Tree)
    requires Z(ctx0, s0, ns) && Distinct(Plug(ctx0, s0)) && root == RootId(Plug(ctx0, s0)) && x == RootId(s0)
    requires s0.Node? ==> RedBlackTree(Plug(ctx0, Recolor(s0, Black)))
    requires s0 == Nil ==> DelInv(ctx0, s0) && w == RootId(ctx0[0].sib)
    ensures |ns'| == |ns| && Holds(t', ns') && RedBlackTree(t') && root' == RootId(t')
    ensures Keys(t') == Keys(Plug(ctx0, s0)) && IdSeq(t') == IdSeq(Plug(ctx0, s0))
  {
    ns', t' := RbEraseFixup(ns, root, x, w, ctx0, s0);
    root' := ns'[END].left;
  }
}
