/** Root_Wrapper::clean_up (and RB_Tree::clean_up): freeing every node
    without recursion.  A node with no left child is freed and the walk moves
    to its right child; otherwise the left child is rotated above it.  Only
    child links are rewritten on the way, so the walk is described by the
    tree shape those links spell out. */
module CleanUp {
  import opened Trees
  import opened Arena

  /** The child links of the records reachable from `t`'s root spell out
      `t`'s shape (colours, sizes and parent links play no part). */
  predicate Linked(t: Tree, ns: seq<NodeRec>)
  {
    match t
    case Nil => true
    case Node(_, l, i, _, r) =>
      0 < i < |ns| && ns[i].left == RootId(l) && ns[i].right == RootId(r) &&
      Linked(l, ns) && Linked(r, ns)
  }

  lemma {:induction false} MatchesLinked(t: Tree, pid: int, ns: seq<NodeRec>)
    requires Matches(t, pid, ns)
    ensures Linked(t, ns)
  {
    if t.Node? {
      MatchesLinked(t.left, t.id, ns);
      MatchesLinked(t.right, t.id, ns);
    }
  }

  /** Records outside the tree may change. */
  lemma {:induction false} LinkedFrame(t: Tree, ns: seq<NodeRec>, ns': seq<NodeRec>, ch: set<int>)
    requires Linked(t, ns) && Agree(ns, ns', ch) && forall i :: i in ch ==> i !in IdSeq(t)
    ensures Linked(t, ns')
  {
    if t.Node? {
      assert t.id !in ch;
      LinkedFrame(t.left, ns, ns', ch);
      LinkedFrame(t.right, ns, ns', ch);
    }
  }

  /** Size of the left subtree: the second component of the walk's measure. */
  function LeftSize(t: Tree): nat
  {
    if t.Nil? then 0 else Size(t.left)
  }

  /** One rotation step of the walk keeps the links consistent with the
      rotated shape. */
  lemma {:induction false} RotateStep(t: Tree, ns: seq<NodeRec>)
    requires t.Node? && t.left.Node? && Linked(t, ns) && Distinct(t)
    ensures 0 < t.id < |ns| && 0 < t.left.id < |ns|
    ensures var x, y := t.id, t.left.id;
      var ns1 := ns[x := ns[x].(left := ns[y].right)];
      Linked(RotR(t), ns1[y := ns1[y].(right := x)])
  {
    var x, y := t.id, t.left.id;
    var ns1 := ns[x := ns[x].(left := ns[y].right)];
    var ns2 := ns1[y := ns1[y].(right := x)];
    var l := t.left;
    DistinctNode(t);
    DistinctNode(l);
    assert x != y by { assert y in IdSeq(l); }
    assert forall i :: i in IdSeq(l.left) ==> i in IdSeq(l);
    assert forall i :: i in IdSeq(l.right) ==> i in IdSeq(l);
    LinkedFrame(l.left, ns, ns2, {x, y});
    LinkedFrame(l.right, ns, ns2, {x, y});
    LinkedFrame(t.right, ns, ns2, {x, y});
  }

  /** clean_up: every node of the tree is freed exactly once, in in-order. */
  method CleanUp(ns: seq<NodeRec>, root: int, ghost t: Tree) returns (ns': seq<NodeRec>, freed: seq<int>)
    requires Linked(t, ns) && Distinct(t) && root == RootId(t)
    ensures |ns'| == |ns| && freed == IdSeq(t)
    ensures 0 < |ns| ==> ns'[END] == ns[END]
  {
    ns', freed := ns, [];
    var node := root;
    ghost var c := t;
    while node != NIL
      invariant |ns'| == |ns| && Linked(c, ns') && Distinct(c) && node == RootId(c)
      invariant freed + IdSeq(c) == IdSeq(t)
      invariant 0 < |ns| ==> ns'[END] == ns[END]
      decreases Size(c), LeftSize(c)
    {
      DistinctNode(c);
      if ns'[node].left == NIL {
        var save := ns'[node].right;
        assert IdSeq(c) == [node] + IdSeq(c.right);
        freed := freed + [node];
        c := c.right;
        node := save;
      } else {
        var save := ns'[node].left;
        RotateStep(c, ns');
        ns' := ns'[node := ns'[node].(left := ns'[save].right)];
        ns' := ns'[save := ns'[save].(right := node)];
        DistinctNode(c.left);
        c := RotR(c);
        node := save;
      }
    }
  }
}
