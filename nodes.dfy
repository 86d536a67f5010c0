/** The node objects: End_Node, the sentinel, holds only a left link (the
    root); RB_Node adds the parent and right links, the colour and the key.
    Copying is disabled; moving either transfers the links and empties the
    source, or swaps the two objects' fields. */
module Nodes {
  import opened Trees

  class EndNode {
    var left: RBNode?

    /** End_Node(left = nullptr). */
    constructor (l: RBNode?)
      ensures left == l
    {
      left := l;
    }

    /** Move construction: the left link is taken and the source's is nulled. */
    constructor Move(rhs: EndNode)
      modifies rhs
      ensures left == old(rhs.left) && rhs.left == null
    {
      left := rhs.left;
      new;
      rhs.left := null;
    }

    /** Move assignment: the two left links are swapped. */
    method MoveAssign(rhs: EndNode)
      modifies this, rhs
      ensures left == old(rhs.left) && rhs.left == old(left)
    {
      left, rhs.left := rhs.left, left;
    }
  }

  class RBNode {
    var left: RBNode?
    var parent: RBNode?
    var right: RBNode?
    var color: Color
    var key: int

    /** RB_Node(key, color): no links. */
    constructor (k: int, c: Color)
      ensures left == null && parent == null && right == null
      ensures color == c && Key() == k
    {
      left, parent, right := null, null, null;
      color, key := c, k;
    }

    /** key(): the only read access to the key. */
    function Key(): int
      reads this
    {
      key
    }

    /** Move construction: every link and the colour are taken over; the
        source keeps its colour, loses its links and has its key reset to
        the default value 0. */
    constructor Move(rhs: RBNode)
      modifies rhs
      ensures left == old(rhs.left) && parent == old(rhs.parent) && right == old(rhs.right)
      ensures color == old(rhs.color) && key == old(rhs.key)
      ensures rhs.left == null && rhs.parent == null && rhs.right == null
      ensures rhs.color == old(rhs.color) && rhs.key == 0
    {
      left, parent, right := rhs.left, rhs.parent, rhs.right;
      color, key := rhs.color, rhs.key;
      new;
      rhs.left, rhs.parent, rhs.right := null, null, null;
      rhs.key := 0;
    }

    /** Move assignment: left, parent, right, key and colour are swapped. */
    method MoveAssign(rhs: RBNode)
      modifies this, rhs
      ensures left == old(rhs.left) && rhs.left == old(left)
      ensures parent == old(rhs.parent) && rhs.parent == old(parent)
      ensures right == old(rhs.right) && rhs.right == old(right)
      ensures key == old(rhs.key) && rhs.key == old(key)
      ensures color == old(rhs.color) && rhs.color == old(color)
    {
      left, rhs.left := rhs.left, left;
      parent, rhs.parent := rhs.parent, parent;
      right, rhs.right := rhs.right, right;
      key, rhs.key := rhs.key, key;
      color, rhs.color := rhs.color, color;
    }
  }

  /** Move-assigning twice between the same two nodes restores both. */
  method MoveAssignTwice(a: RBNode, b: RBNode)
    modifies a, b
    ensures a.left == old(a.left) && a.parent == old(a.parent) && a.right == old(a.right)
    ensures a.key == old(a.key) && a.color == old(a.color)
    ensures b.left == old(b.left) && b.parent == old(b.parent) && b.right == old(b.right)
    ensures b.key == old(b.key) && b.color == old(b.color)
  {
    a.MoveAssign(b);
    a.MoveAssign(b);
  }
}
