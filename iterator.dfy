/** tree_iterator: a bidirectional iterator holding one node index.  The
    position of an iterator is described by its in-order index `i` in the
    tree the records hold: index `i < Size(t)` is the i-th node, and index
    `Size(t)` is the sentinel, end(). */
module TreeIterators {
  import opened Trees
  import opened Arena
  import Details

  /** The node standing at in-order position `i`; the sentinel one past the end. */
  function NodeAt(t: Tree, i: nat): int
    requires i <= Size(t)
  {
    if i == Size(t) then END else IdSeq(t)[i]
  }

  /** Different positions are different nodes: the node ids are distinct and
      none of them is the sentinel. */
  lemma {:induction false} NodeAtInjective(t: Tree, ns: seq<NodeRec>, i: nat, j: nat)
    requires Holds(t, ns) && Distinct(t) && i <= Size(t) && j <= Size(t)
    ensures NodeAt(t, i) == NodeAt(t, j) <==> i == j
  {
    MatchesIds(t, END, ns);
    if i < Size(t) { assert IdSeq(t)[i] in IdSeq(t); }
    if j < Size(t) { assert IdSeq(t)[j] in IdSeq(t); }
  }

  /** The key stored in the record of the i-th node is the i-th key. */
  lemma {:induction false} KeyAt(t: Tree, ns: seq<NodeRec>, i: nat)
    requires Holds(t, ns) && i < Size(t)
    ensures 0 < IdSeq(t)[i] < |ns| && ns[IdSeq(t)[i]].key == Keys(t)[i]
  {
    var ctx, s := FocusAt(t, i, ns);
  }

  class TreeIterator {
    var node: int

    constructor (n: int)
      ensures node == n
    {
      node := n;
    }

    /** operator*: the key of the node the iterator stands on. */
    function Deref(ns: seq<NodeRec>): (k: int)
      requires 0 <= node < |ns|
      reads this
    {
      ns[node].key
    }

    /** At the i-th position, dereferencing yields the i-th key. */
    lemma {:induction false} DerefKey(ns: seq<NodeRec>, t: Tree, i: nat)
      requires Holds(t, ns) && i < Size(t) && node == NodeAt(t, i)
      ensures 0 <= node < |ns| && Deref(ns) == Keys(t)[i]
    {
      KeyAt(t, ns, i);
    }

    /** operator==: the same node. */
    predicate Eq(rhs: TreeIterator)
      reads this, rhs
    {
      node == rhs.node
    }

    /** Two iterators over one tree are equal exactly when they stand at the
        same position. */
    lemma {:induction false} EqPositions(rhs: TreeIterator, ns: seq<NodeRec>, t: Tree, i: nat, j: nat)
      requires Holds(t, ns) && Distinct(t) && i <= Size(t) && j <= Size(t)
      requires node == NodeAt(t, i) && rhs.node == NodeAt(t, j)
      ensures Eq(rhs) <==> i == j
    {
      NodeAtInjective(t, ns, i, j);
    }

    /** prefix operator++: move to the successor; from the last node to end(). */
    method Inc(ns: seq<NodeRec>, ghost t: Tree, ghost i: nat)
      requires Holds(t, ns) && Distinct(t) && i < Size(t) && node == NodeAt(t, i)
      modifies this
      ensures node == NodeAt(t, i + 1)
    {
      node := Details.Successor(ns, node, t, i);
    }

    /** prefix operator--: move to the predecessor; from end() to the last
        node.  Undefined at the first node. */
    method Dec(ns: seq<NodeRec>, ghost t: Tree, ghost i: nat)
      requires Holds(t, ns) && Distinct(t) && 0 < i <= Size(t) && node == NodeAt(t, i)
      modifies this
      ensures node == NodeAt(t, i - 1)
    {
      node := Details.Predecessor(ns, node, t, i);
    }

    /** postfix operator++ as written: a copy is stepped and returned, and the
        iterator itself does not move.  The returned iterator is therefore
        never the old position. */
    method PostIncAsWritten(ns: seq<NodeRec>, ghost t: Tree, ghost i: nat) returns (tmp: TreeIterator)
      requires Holds(t, ns) && Distinct(t) && i < Size(t) && node == NodeAt(t, i)
      ensures fresh(tmp) && tmp.node == NodeAt(t, i + 1) && node == NodeAt(t, i)
      ensures !tmp.Eq(this)
    {
      tmp := new TreeIterator(node);
      tmp.Inc(ns, t, i);
      NodeAtInjective(t, ns, i, i + 1);
    }

    /** postfix operator-- as written: the mirror of PostIncAsWritten. */
    method PostDecAsWritten(ns: seq<NodeRec>, ghost t: Tree, ghost i: nat) returns (tmp: TreeIterator)
      requires Holds(t, ns) && Distinct(t) && 0 < i <= Size(t) && node == NodeAt(t, i)
      ensures fresh(tmp) && tmp.node == NodeAt(t, i - 1) && node == NodeAt(t, i)
      ensures !tmp.Eq(this)
    {
      tmp := new TreeIterator(node);
      tmp.Dec(ns, t, i);
      NodeAtInjective(t, ns, i, i - 1);
    }

    /** postfix operator++ as a bidirectional iterator must behave: the
        iterator advances and the old position is returned. */
    method PostInc(ns: seq<NodeRec>, ghost t: Tree, ghost i: nat) returns (tmp: TreeIterator)
      requires Holds(t, ns) && Distinct(t) && i < Size(t) && node == NodeAt(t, i)
      modifies this
      ensures fresh(tmp) && tmp.node == NodeAt(t, i) && node == NodeAt(t, i + 1)
    {
      tmp := new TreeIterator(node);
      Inc(ns, t, i);
    }

    /** postfix operator-- as a bidirectional iterator must behave. */
    method PostDec(ns: seq<NodeRec>, ghost t: Tree, ghost i: nat) returns (tmp: TreeIterator)
      requires Holds(t, ns) && Distinct(t) && 0 < i <= Size(t) && node == NodeAt(t, i)
      modifies this
      ensures fresh(tmp) && tmp.node == NodeAt(t, i) && node == NodeAt(t, i - 1)
    {
      tmp := new TreeIterator(node);
      Dec(ns, t, i);
    }
  }

  /** Walking with prefix ++ from begin() until the iterator
      equals end() visits every key once, in in-order, and takes exactly
      as many steps as there are keys. */
  method Walk(ns: seq<NodeRec>, begin: int, ghost t: Tree) returns (keys: seq<int>, steps: nat)
    requires Holds(t, ns) && Distinct(t) && begin == NodeAt(t, 0)
    ensures keys == Keys(t) && steps == Size(t)
  {
    var it := new TreeIterator(begin);
    var last := new TreeIterator(END);
    keys, steps := [], 0;
    NodeAtInjective(t, ns, 0, Size(t));
    while !it.Eq(last)
      invariant steps <= Size(t) && it.node == NodeAt(t, steps) && last.node == END
      invariant keys == Keys(t)[..steps]
      decreases Size(t) - steps
    {
      NodeAtInjective(t, ns, steps, Size(t));
      it.DerefKey(ns, t, steps);
      keys := keys + [it.Deref(ns)];
      assert Keys(t)[..steps + 1] == Keys(t)[..steps] + [Keys(t)[steps]];
      it.Inc(ns, t, steps);
      steps := steps + 1;
    }
    NodeAtInjective(t, ns, steps, Size(t));
    assert Keys(t)[..steps] == Keys(t);
  }
}
