# An order-statistic red-black set, modelled in Dafny

The repository implements `ARB_Tree`, an ordered set of unique keys stored
in a red-black binary search tree whose nodes also count the size of their
subtrees. With that count the tree answers "the k-th smallest key" and "how
many keys are below x" in logarithmic time. A sentinel node (`End_Node`)
sits above the root. Its left link is the root, it stands for `end()`, and
its count is the number of elements plus one. The tree also keeps a cache
`leftmost_` of the first node. `include/arb_tree.hpp` is the current
revision. `include/rb_tree.hpp` (class `RB_Tree`) and
`include/details.hpp` are an earlier revision of the same algorithms.
`include/nodes.hpp` holds the node classes and `include/tree_iterator.hpp`
the bidirectional iterator.

## How the model is built

- **Records.** The linked nodes are an arena `ns: seq<NodeRec>`. Each
  record has a key, a colour, left, right and parent links, and a size.
  Links are indices: `NIL` (-1) is a null pointer and `END` (0) is the
  sentinel. An operation takes the arena and returns the new arena. Its loops
  follow the source's pointer walks record by record.
- **Tree values.** A ghost `Tree` value says which tree the records hold.
  - `Matches`/`Holds` (module `Arena`) tie the records to the tree: links,
    parent links, colours and exact subtree sizes.
  - A zipper (a context `seq<Frame>` around a focus subtree) describes a
    position inside the tree during a walk, a rotation or a fixup step.
  - `MatchesZ` with a size offset describes the states in which the
    ancestors' counts are off by one. These occur during insertion and
    erasure.
- **Specification functions.** On the ghost tree's in-order key sequence
  `Keys` and node sequence `IdSeq`, the contracts use `Ordered`, `Distinct`,
  `RedBlackTree`, `CountLess`, `CountAtMost` and `Without` (the sequence
  without its i-th element).
- **The class.** `ArbTrees.ArbTree` is the class. Its fields are the arena,
  the leftmost cache and the ghost tree. `Valid()` is the conjunction of
  the source's three verifiers (`search_verifier`, `red_black_verifier`,
  `subtree_sizes_verifier`) with a leftmost cache that points at the first
  node.
- **Fixup proofs.** The insertion and erasure fixups are proved case by
  case.
  - Module `RedBlack` states the red-black invariant that holds during the
    insert loop (`InsInv`).
  - Module `EraseCases` states the one that holds during the erase loop
    (`DelInv`, a subtree one black short).
  - `Insert` and `EraseFix` carry out the record writes of each case and
    show that the records follow the tree values.
- **Keys.** The comparator `Compare` is fixed to `<` on `int` keys.

## Model

| member | source | states |
|---|---|---|
| Details.Minimum | include/details.hpp:23-39 | following left links from a subtree root ends at the subtree's first in-order node, which has no left child and holds its smallest key |
| Details.Maximum | include/details.hpp:40-55 | following right links ends at the subtree's last in-order node, with no right child and the largest key |
| Details.Successor | include/details.hpp:57-77 | the successor of the i-th node is the (i+1)-th node, or the sentinel for the last node |
| Details.Predecessor | include/details.hpp:79-98 | the predecessor of the i-th node (of the sentinel when i is the size) is the (i-1)-th node |
| Details.FindHit | include/arb_tree.hpp:669-683 | when the descent meets the key, that node is the one at the key's rank and the key is in the tree |
| Details.FindMiss | include/arb_tree.hpp:669-683 | when the descent falls off the tree, the key is not in the tree |
| Details.Find | include/arb_tree.hpp:669-683 | the search returns the node at rank CountLess(key) when the key is present, and null exactly when it is absent |
| Details.FindV2 | include/arb_tree.hpp:685-713 | find_v2 returns the node holding the key, or null with the parent and side where the key belongs; the path it took is a zipper of the tree, and the slot's in-order position is the key's rank |
| Details.LowerBound | include/arb_tree.hpp:716-737 | returns the first node whose key is not less than `key` (rank CountLess), or null when there is none |
| Details.UpperBound | include/arb_tree.hpp:739-759 | returns the first node whose key is greater than `key` (rank CountAtMost), or null |
| Details.KthSmallest | include/arb_tree.hpp:617-631 | using the subtree sizes, the descent for 1 <= k returns the (k-1)-th node in order, or null when k exceeds the size |
| Details.NLessThan | include/arb_tree.hpp:633-645 | the climb from the i-th node to the sentinel, adding the left counts at right-child steps, yields i |
| Rotate.LeftRotate | include/details.hpp:187-209 | a left rotation at x turns the focus subtree into its left rotation in the same context; it writes only x, y, x's parent and y's inner child, and leaves the sizes as they were |
| Rotate.RightRotate | include/details.hpp:210-230 | the mirror: the right rotation, with the same frame and sizes untouched |
| Rotate.LeftRotatePlus | tests/unit_tests/src/algorithms.cpp:12-56 | the size-maintaining left rotation: afterwards the records hold the rotated subtree exactly, sizes included, and nothing outside the four touched records changes |
| Rotate.RightRotatePlus | tests/unit_tests/src/algorithms.cpp:66-110 | the size-maintaining right rotation, exactly as above |
| RedBlack.InsStart | include/arb_tree.hpp:761-770 | a red leaf (black when it is the root) hung into a red-black tree meets the insertion loop invariant |
| RedBlack.InsDone | include/arb_tree.hpp:65 | when the loop stops (at the root, or under a black parent) the tree is a red-black tree |
| RedBlack.InsCaseRedUncle | include/arb_tree.hpp:29-40 | recolouring parent, uncle and grandparent keeps the invariant two levels up |
| RedBlack.InsCaseLL | include/arb_tree.hpp:42-51 | a red left child under a red left parent with a black uncle: recolour and rotate right at the grandparent, giving a red-black tree |
| RedBlack.InsCaseLR | include/arb_tree.hpp:80-86 | a right child under a red left parent: rotate left at the parent first, then as in the outer case, giving a red-black tree |
| RedBlack.InsCaseRR | include/arb_tree.hpp:105 | the mirror of the outer case |
| RedBlack.InsCaseRL | include/arb_tree.hpp:99-105 | the mirror of the inner case |
| Insert.FixupSubroutine1 | include/arb_tree.hpp:29-40 | the record writes of the red-uncle step give the recoloured tree two levels up; keys, nodes and root stay |
| Insert.FixupSubroutine2 | include/arb_tree.hpp:42-51 | the parent becomes black and the grandparent red; keys and nodes stay |
| Insert.BlackUncleLeft | include/arb_tree.hpp:78-88 | the black-uncle step under a left parent ends in a red-black tree with the same keys and nodes; the leftmost leaf stays leftmost |
| Insert.BlackUncleRight | include/arb_tree.hpp:97-107 | the mirror step ends in a red-black tree with the same keys and nodes |
| Insert.RbInsertFixup | include/arb_tree.hpp:25-110 | after a red leaf is linked into a red-black tree, the fixup yields a red-black tree with the same keys and nodes; a leaf hung at the far left stays leftmost |
| Link.LinkLeaf | include/arb_tree.hpp:763-770 | the new red leaf is a fresh record linked on the given side of its parent; the ancestors' counts are then one short |
| Link.BumpSizes | include/arb_tree.hpp:772-777 | raising every count from the parent up to the sentinel makes the records hold the tree exactly |
| CleanUp.RotateStep | include/arb_tree.hpp:414-417 | the unlinking step of clean_up is a right rotation: the records still describe a tree with the same nodes |
| CleanUp.CleanUp | include/arb_tree.hpp:404-419 | clean_up frees every node of the tree, exactly once and in order; the sentinel is not touched |
| ArbTrees.LinkNode | include/arb_tree.hpp:761-788 | insert_hint_unique puts the absent key at its rank in the key sequence and the new node at the same place in the node sequence; the result is again an ordered, duplicate-free red-black tree with exact sizes and a correct leftmost cache |
| ArbTrees.LeftmostAfterInsert | include/arb_tree.hpp:782-783 | the test `new_node == leftmost_->left_` holds exactly when the new key is the minimum, and moving the cache then leaves it at the first node |
| ArbTrees.SizesAdd | include/arb_tree.hpp:826-835 | every node's count is one more than its children's counts, null counting zero |
| ArbTrees.FirstAfterErase | include/arb_tree.hpp:552-556 | after erasing the i-th node, the first node is that node's successor when the erased node was the first, and otherwise unchanged |
| ArbTrees.NextAfterErase | include/arb_tree.hpp:553-565 | the iterator advanced before the erase points, after it, at the node now holding position i |
| ArbTrees.ArbTree.VerifierFacts | include/arb_tree.hpp:798-838 | a valid tree passes the verifiers read on the records: a black root with the sentinel as parent, hung at the sentinel's left, exact counts, and a sentinel count of size + 1 |
| ArbTrees.ArbTree.Distance | include/arb_tree.hpp:822 | walking begin() to end() takes exactly size() steps |
| ArbTrees.ArbTree.constructor | include/arb_tree.hpp:429-431 | a new tree is empty and valid: the sentinel alone, with a count of 1 and leftmost at end() |
| ArbTrees.ArbTree.Size | include/arb_tree.hpp:474 | the sentinel's count minus one is the number of keys |
| ArbTrees.ArbTree.Empty | include/arb_tree.hpp:475 | empty() holds exactly when the tree has no node |
| ArbTrees.ArbTree.Begin | include/arb_tree.hpp:479 | begin() is the first in-order node, or end() for the empty tree |
| ArbTrees.ArbTree.End | include/arb_tree.hpp:491-492 | end() is the sentinel: no element's node, holding the root as its left child; begin() equals it exactly when the set is empty |
| ArbTrees.ArbTree.SearchVerifier | include/arb_tree.hpp:798-801 | strengthened to the set's invariant: the in-order keys ascend strictly; this implies the std::is_sorted test that no key is below the one before it |
| ArbTrees.ArbTree.RedBlackVerifier | include/arb_tree.hpp:803-819 | the root is black, no red node has a red child and every path crosses the same number of black nodes (the root's parent and side are read off the records by VerifierFacts) |
| ArbTrees.ArbTree.SubtreeSizesVerifier | include/arb_tree.hpp:821-838 | the records hold the tree under the sentinel, whose count is the number of nodes plus one and whose left child is the root (the per-node counts are read off by VerifierFacts) |
| ArbTrees.ArbTree.Valid | include/arb_tree.hpp:798-838 | the three verifiers together with the leftmost cache at the first in-order node; no contract of its own, its consequences are stated by VerifierFacts and every operation keeps it |
| ArbTrees.ArbTree.InsertHintUnique | include/arb_tree.hpp:761-788 | on the object: keys and nodes gain the new one at the key's rank, and the tree stays valid |
| ArbTrees.ArbTree.Insert | include/arb_tree.hpp:524-535 | inserted exactly when the key was absent; if absent it is added at its rank, otherwise nothing changes and the existing node is returned |
| ArbTrees.ArbTree.Find | include/arb_tree.hpp:582-591 | the node holding the key, or end() exactly when the key is absent |
| ArbTrees.ArbTree.LowerBound | include/arb_tree.hpp:593-602 | the first node not less than the key, or end() |
| ArbTrees.ArbTree.UpperBound | include/arb_tree.hpp:604-613 | the first node greater than the key, or end() |
| ArbTrees.ArbTree.KthSmallest | include/arb_tree.hpp:617-631 | the k-th smallest node for 1 <= k <= size, and end() for k == 0, k > size and the empty tree |
| ArbTrees.ArbTree.NLessThan | include/arb_tree.hpp:633-645 | the number of keys less than the given key, including 0 for the empty tree and size() when every key is less |
| ArbTrees.ArbTree.Erase | include/arb_tree.hpp:550-566 | erase(pos) removes exactly the i-th key and node, keeps the tree valid, returns the successor (now at position i) and moves the leftmost cache when the first node was erased. This holds with cases 3 and 4 corrected as in Findings row 1. |
| ArbTrees.ArbTree.EraseKey | include/arb_tree.hpp:568-578 | erase(key) returns 0 and changes nothing when the key is absent; otherwise it returns 1 and the key set loses exactly that key. This holds with cases 3 and 4 corrected as in Findings row 1. |
| ArbTrees.ArbTree.Clear | include/arb_tree.hpp:514-522 | clear frees every node and leaves a valid empty tree whose sentinel count is back to 1 |
| ErasePlan.Without | include/arb_tree.hpp:550-566 | the sequence with its j-th element removed is one shorter |
| ErasePlan.WithoutAt | include/arb_tree.hpp:550-566 | element k of the shortened sequence is the old element k before j and the old k+1 from j on |
| ErasePlan.NoDupWithout | include/arb_tree.hpp:550-566 | removing an element from a duplicate-free sequence keeps it duplicate-free and drops that element |
| ErasePlan.SortedWithout | include/arb_tree.hpp:561 | removing an element keeps a strictly sorted sequence strictly sorted, as search_verifier demands after erase |
| ErasePlan.WithoutElems | include/arb_tree.hpp:568-578 | the elements after removal are the old ones minus the removed one |
| ErasePlan.LeftmostZip | include/arb_tree.hpp:241 | the successor of a node with two children is the first node of its right subtree, a node without a left child |
| ErasePlan.ChosenAfter | include/arb_tree.hpp:239-244 | taking y (z itself, or its successor) out and putting it in z's place leaves exactly the old keys and nodes without z's position |
| Erase.ChooseY | include/arb_tree.hpp:239-241 | y is z when z lacks a child and z's successor otherwise; y differs from z exactly when z has two children |
| Erase.Unlink | include/arb_tree.hpp:243-285 | y's parent (the sentinel when y is the root) takes y's only child; y's parent's count becomes exact and the ancestors above it are one too big; x is y's child, w its new sibling, and the root follows |
| Erase.DropSizes | include/arb_tree.hpp:291-296 | the walk that lowers every count between two ancestors by one changes sizes only and makes that stretch exact |
| Erase.DropToZ | include/arb_tree.hpp:289-296 | after the walk up to z, everything below z is exact and z is detached from its old subtree |
| Erase.Transplant | include/arb_tree.hpp:298-330 | the writes of the transplant in source order: y takes z's children, colour, parent and count, and z's parent is relinked to y with its count corrected |
| Erase.MoveY | include/arb_tree.hpp:289-331 | when y is z's successor, after the walk and the transplant the records hold the shortened tree at z's place, with only the ancestors' counts still one too big |
| Erase.MovedRoot | include/arb_tree.hpp:329-330 | the root becomes y when z was the root and is otherwise unchanged |
| Erase.DropAbove | include/arb_tree.hpp:333-342 | the last walk lowers every count from z's grandparent to the sentinel, after which the records hold the tree exactly |
| Erase.PlanReady | include/arb_tree.hpp:239-248 | the facts erase needs hold from the position of z and the choice of y |
| Erase.PlanAfter | include/arb_tree.hpp:287-289 | the tree before the fixup is the old one without the i-th node; a red y leaves a red-black tree, a black y leaves one black short at x |
| Erase.Remove | include/arb_tree.hpp:239-342 | the record-changing part of erase, so that the records then hold the tree with z removed, all counts exact |
| Erase.Repair | include/arb_tree.hpp:344-345 | the fixup runs only when y was black and the tree is not empty; either way a red-black tree with the same keys and nodes results. This holds with cases 3 and 4 corrected as in Findings row 1. |
| Erase.Erase | include/arb_tree.hpp:233-346 | detail::erase on the i-th node of a red-black tree leaves a red-black tree whose keys and nodes are the old ones without the i-th, with exact counts. This holds with cases 3 and 4 corrected as in Findings row 1. |
| EraseCases.DelStart | include/arb_tree.hpp:117-118 | after the unlink, a red y leaves a red-black tree, a black y with a child x leaves a red x whose blackening repairs the tree, and a black leaf y leaves the loop invariant |
| EraseCases.DelCase1L | include/arb_tree.hpp:125-138 | case 1 (red sibling) keeps the invariant and makes the new sibling black under a red parent |
| EraseCases.DelCase1R | include/arb_tree.hpp:177-190 | the mirror of case 1 |
| EraseCases.DelCase2 | include/arb_tree.hpp:142-156 | case 2 (black sibling, black nephews) either ends in a red-black tree (red parent or root) or moves the invariant one level up |
| EraseCases.DelCase3L | include/arb_tree.hpp:159-165 | case 3 keeps the invariant and leaves a black sibling with a red far nephew |
| EraseCases.DelCase3R | include/arb_tree.hpp:211-217 | the mirror of case 3 |
| EraseCases.DelCase4L | include/arb_tree.hpp:167-172 | case 4 ends in a red-black tree |
| EraseCases.DelCase4R | include/arb_tree.hpp:219-225 | the mirror of case 4 |
| EraseCases.Case34LAsWritten | include/arb_tree.hpp:159-172 | cases 3 and 4 with the far nephew read before the rotation: a null dereference exactly when that nephew was null |
| EraseCases.Case34RAsWritten | include/arb_tree.hpp:211-224 | the mirror: a null dereference exactly when the stale far nephew `wl` was null |
| EraseCases.Case34LAsWrittenWrong | include/arb_tree.hpp:159-172 | where case 3 applies, the as-written steps never end in a red-black tree |
| EraseCases.Case34RAsWrittenWrong | include/arb_tree.hpp:211-224 | the mirror |
| EraseCases.EraseFiveOfFour | include/arb_tree.hpp:159-172 | concrete: in 10(5,20(15,-)) with 5 removed, the as-written code dereferences null while the corrected steps give a red-black tree |
| EraseFix.Case1Left | include/arb_tree.hpp:125-138 | the record writes of case 1 give the case-1 tree value, with the new sibling and root |
| EraseFix.Case1Right | include/arb_tree.hpp:177-190 | the mirror |
| EraseFix.Case2 | include/arb_tree.hpp:142-156 | case 2 recolours the sibling red; it stops exactly when the parent is red or the root, and then the tree is red-black with the same keys and nodes |
| EraseFix.Case3Left | include/arb_tree.hpp:159-165 | case 3's rotation at the sibling gives the case-3 tree value, and w becomes the new sibling |
| EraseFix.Case3Right | include/arb_tree.hpp:211-217 | the mirror |
| EraseFix.Case4Left | include/arb_tree.hpp:167-172 | case 4 gives a red-black tree with the same keys and nodes |
| EraseFix.Case4Right | include/arb_tree.hpp:219-225 | the mirror |
| EraseFix.Case34Left | include/arb_tree.hpp:159-172 | cases 3 and 4 with the far nephew read after the rotation give a red-black tree with the same keys and nodes |
| EraseFix.Case34Right | include/arb_tree.hpp:211-224 | the mirror |
| EraseFix.FixupLeft | include/arb_tree.hpp:123-174 | one loop iteration when x is a left child either finishes with a red-black tree or moves the pending state strictly up; the keys and nodes never change. Case 3/4 runs with the far nephew re-read, as corrected in Findings row 1. |
| EraseFix.FixupRight | include/arb_tree.hpp:175-227 | the mirror, with the sibling taken from the correct side of x's parent. Case 3/4 runs with the far nephew re-read, as corrected in Findings row 1. |
| EraseFix.RbEraseFixup | include/arb_tree.hpp:113-230 | from a non-black-short child x, or a leaf position one black short with sibling w, the fixup yields a red-black tree with the same keys and nodes. Cases 3 and 4 run as corrected in Findings row 1. |
| Nodes.EndNode.constructor | include/nodes.hpp:20 | the sentinel starts with the given left link |
| Nodes.EndNode.Move | include/nodes.hpp:25 | a moved-from sentinel gives up its left link, leaving null |
| Nodes.EndNode.MoveAssign | include/nodes.hpp:27-31 | move assignment swaps the left links |
| Nodes.RBNode.constructor | include/nodes.hpp:61 | a new node has the given key and colour and no links |
| Nodes.RBNode.Key | include/nodes.hpp:84 | key() reads the stored key; no contract of its own, the constructor and the moves state what it returns |
| Nodes.RBNode.Move | include/nodes.hpp:66-71 | move construction takes all links, colour and key; the source loses its links and its key becomes Key_T{} (0), keeping its colour |
| Nodes.RBNode.MoveAssign | include/nodes.hpp:73-82 | move assignment swaps every field between the two nodes |
| Nodes.MoveAssignTwice | include/nodes.hpp:73-82 | two move assignments in a row restore both nodes |
| TreeIterators.NodeAtInjective | include/tree_iterator.hpp:63 | iterators at positions i and j of a tree point at the same node exactly when i == j |
| TreeIterators.KeyAt | include/tree_iterator.hpp:34 | the node at position i holds the i-th key |
| TreeIterators.TreeIterator.constructor | include/tree_iterator.hpp:32 | the iterator wraps the given node |
| TreeIterators.TreeIterator.Deref | include/tree_iterator.hpp:34 | operator* reads the key of the iterator's node; no contract of its own, its meaning is stated by DerefKey |
| TreeIterators.TreeIterator.DerefKey | include/tree_iterator.hpp:34 | dereferencing the iterator at position i yields the i-th smallest key |
| TreeIterators.TreeIterator.Eq | include/tree_iterator.hpp:63 | operator== compares the nodes; no contract of its own, its meaning is stated by EqPositions |
| TreeIterators.TreeIterator.EqPositions | include/tree_iterator.hpp:63 | two iterators compare equal exactly when they are at the same position |
| TreeIterators.TreeIterator.Inc | include/tree_iterator.hpp:37-41 | prefix ++ moves from position i to i+1 (the last node to end()) |
| TreeIterators.TreeIterator.Dec | include/tree_iterator.hpp:50-54 | prefix -- moves from position i to i-1 (end() to the last node) |
| TreeIterators.TreeIterator.PostIncAsWritten | include/tree_iterator.hpp:43-48 | as written, postfix ++ leaves the iterator in place and returns a copy already advanced |
| TreeIterators.TreeIterator.PostDecAsWritten | include/tree_iterator.hpp:56-61 | as written, postfix -- leaves the iterator in place and returns a copy already moved back |
| TreeIterators.TreeIterator.PostInc | include/tree_iterator.hpp:43-48 | postfix ++ advances the iterator and returns its old position |
| TreeIterators.TreeIterator.PostDec | include/tree_iterator.hpp:56-61 | postfix -- moves the iterator back and returns its old position |
| TreeIterators.Walk | include/arb_tree.hpp:798-801 | iterating from begin() to end() visits the keys in order, in exactly size() steps |
| RbTrees.InsertRoot | include/rb_tree.hpp:676-687 | inserting into the empty tree makes a black root holding the key, a red-black tree, with leftmost at it |
| RbTrees.SideByKey | include/rb_tree.hpp:693-698 | comparing the key with the parent's picks the side that find_v2 stopped at |
| RbTrees.RbInsertHintUnique | include/rb_tree.hpp:689-710 | RB_Tree's insert puts the key at its rank, keeps an ordered, duplicate-free red-black tree and a correct leftmost, and adds one to the sentinel's count. The insert fixup is the corrected one of Findings row 2 (Insert.RbInsertFixup, with the inner test on the new node). |
| RbTrees.CountOneMore | include/rb_tree.hpp:692 | when the key sequence grows by one, the sentinel's count grows by one |
| RbTrees.BlackUncleLeftAsWritten | include/rb_tree.hpp:71-86 | the black-uncle step with the inner test on the parent keeps keys and nodes |
| RbTrees.BlackUncleRightAsWritten | include/rb_tree.hpp:90-106 | the mirror |
| RbTrees.BlackUncleLeftAsWrittenWrong | include/rb_tree.hpp:71-86 | in every fixup state where the new node is the right child of a left parent under a black uncle, the step as written leaves a tree that is not red-black |
| RbTrees.BlackUncleRightAsWrittenWrong | include/rb_tree.hpp:90-106 | the mirror: for the left child of a right parent the result is never red-black |
| RbTrees.InsertThreeOneTwo | include/rb_tree.hpp:79-86 | concrete: inserting 3, 1, 2 reaches a state where the as-written step leaves a red node under a red node, while the corrected step gives a red-black tree |
| RbTrees.ClearAsWritten | include/rb_tree.hpp:437-443 | RB_Tree's clear frees every node but leaves the sentinel's old count; for a non-empty tree the result is not an empty tree |
| RbErase.UnlinkAsWritten | include/rb_tree.hpp:116-143 | the unlinking of y in RB_Tree's erase: x is y's only child and the root variable moves to x only when y is the root |
| RbErase.MoveAsWritten | include/rb_tree.hpp:147-182 | RB_Tree's move of y into z's place: the root variable becomes y exactly when z was the root |
| RbErase.WalkStartAsWritten | include/rb_tree.hpp:183-188 | the walk above y can start only when the root is not null and y's parent is not the sentinel |
| RbErase.UnlinkFrame | include/rb_tree.hpp:116-143 | the unlink succeeds exactly when y's parent and child are real records, and writes only those two |
| RbErase.MoveFrame | include/rb_tree.hpp:147-182 | the move reads the sentinel's missing right link exactly when z's parent is the sentinel, and otherwise writes only y, z's children and z's parent |
| RbErase.RootMoveAsWritten | include/rb_tree.hpp:164-170 | erasing a root with two children reads a right link the sentinel does not have |
| RbErase.RootWalkAsWritten | include/rb_tree.hpp:116-143 | with lines 183-188 and 490: erasing a root with at most one child reaches the walk with a null root, or starts it at the sentinel's parent; the unlink has already lowered the sentinel's count, so after the wrapper's second decrement size() reports two fewer than before (SIZE_MAX for the one-node tree) |
| RbErase.StaleCountAsWritten | include/rb_tree.hpp:147-182 | when z has two children and neither z nor its parent is the root, the root's count is not lowered |
| RbErase.MirrorSiblingAsWritten | include/rb_tree.hpp:279 | the new sibling chosen in the mirror branch of case 2 is x itself |
| RbErase.SiblingChoice | include/rb_tree.hpp:234 | in a tree, the other branch's choice is x's sibling, and the mirror branch's choice is x, never that sibling |
| RbErase.StaleRootAsWritten | include/rb_tree.hpp:246-250 | case 4 at the root returns the old root, and storing it at include/rb_tree.hpp:487 leaves records that hold no tree |
| RbErase.StaleRootMirrorAsWritten | include/rb_tree.hpp:291-295 | the mirror |
| RbErase.FixupRooted | include/rb_tree.hpp:198-302 | the fixup with its root read from the sentinel afterwards returns the root of a red-black tree with the same keys and nodes |

## Left out

- Memory management is not modelled. `new` appends a record to the arena. `delete` leaves the unlinked record in place, and `freed` lists the nodes `clean_up` would delete. Allocation failure and exceptions are not modelled.
- The comparator `Compare` is fixed to `<` on `int` keys, and `key_comp`/`value_comp` are not modelled.
- Not modelled, because they do not touch the algorithms:
  - the copy and move constructors and assignments of the tree classes;
  - `swap`;
  - the range and initializer-list constructors and inserts;
  - the reverse iterators;
  - `operator==` and `operator<=>` on trees.
- `graphic_dump`, the drivers and `advanced_set.hpp` are not part of this model.
- The bodies of `detail::kth_smallest`, `detail::n_less_than`, `left_rotate_plus` and `right_rotate_plus` are not part of the files this model follows. Nor is the `successor` used for the nodes of include/arb_tree.hpp.
  - The first two are reconstructed from their callers at include/arb_tree.hpp:617-645.
  - The rotations are reconstructed from the plain rotations at include/details.hpp:187-230, with subtree sizes recomputed as the unit tests at tests/unit_tests/src/algorithms.cpp:12-110 expect.
  - The successor is taken to be the one at include/details.hpp:57-77.
- Two lines of include/details.hpp would not compile when instantiated. Details.Predecessor models the evident climb.
  - Line 87 reads a field `parent` that RB_Node lacks.
  - Line 97 calls a misspelt `prececessor`.
- Subtree sizes are unbounded naturals. `size_t` wrap-around is written out only in RbErase.UnlinkAsWritten (through `Wrap`), where a too-large subtraction can occur.
- RB_Tree's erase is modelled only up to the places where it goes wrong. Its correct parts are those of `detail::erase`, which the model composes end to end (Erase.Erase).
- RB_Tree's `kth_smallest` and `n_less_than` wrappers (include/rb_tree.hpp:532-559) are the ARB ones apart from the missing `k == 0` test. Only the ARB ones are modelled.
- The `RB_Node` of include/nodes.hpp has no subtree count. The arena record carries the count of the ARB nodes that arb_tree.hpp uses.
- Rotate.LeftRotate, Rotate.RightRotate: the assertion that x has a right (left) child becomes a precondition, as do the other `assert` lines of the source.
- ArbTrees.ArbTree.Erase, ArbTrees.ArbTree.EraseKey, Erase.Erase, Erase.Repair, EraseFix.FixupLeft, EraseFix.FixupRight, EraseFix.RbEraseFixup: these run cases 3 and 4 of the erase fixup with the nephew re-read after the case-3 rotation (Findings row 1). As written, include/arb_tree.hpp:140-141 and 159-172 (and the mirror, 192-193 and 211-224) can dereference null, so the source does not keep the tree valid for, say, insert 10, 5, 20, 15 and then erase 5.
- RbTrees.RbInsertHintUnique: runs the corrected insert fixup (Findings row 2). As written, include/rb_tree.hpp:79 and 98 never take the inner rotation, and insert 3, 1, 2 leaves a red node under a red node.
- ArbTrees.ArbTree.Erase: takes the position as a ghost rank `i` of a node in the tree. An iterator at `end()` (undefined behaviour in the source) cannot be passed.

## Findings

| source | as written | input that shows it | evidently intended | confidence | as-written member | corrected member |
|---|---|---|---|---|---|---|
| include/arb_tree.hpp:159-171 (mirror 211-224) | in erase cases 3 and 4, `wr` (`wl`) is read before the case-3 rotation and used after it | insert 10, 5, 20, 15; erase 5: `wr` is null and is written at line 170 | re-read the far nephew after the rotation | high, not executed | EraseCases.Case34LAsWritten, EraseCases.Case34LAsWrittenWrong, EraseCases.EraseFiveOfFour | EraseFix.Case34Left |
| include/rb_tree.hpp:79 and 98 (include/details.hpp:289, 308) | the inner-case test asks whether the parent is a left child, which the enclosing branch already decided | insert 3, 1, 2: no inner rotation, and a red node ends up under a red node | test whether the new node is the inner child, as include/arb_tree.hpp:80 and 99 do | high, not executed | RbTrees.BlackUncleLeftAsWritten, RbTrees.BlackUncleLeftAsWrittenWrong, RbTrees.InsertThreeOneTwo | Insert.BlackUncleLeft |
| include/rb_tree.hpp:147-182 | when y is z's successor, only y's parent (at line 140 or 143), y and z's parent are recounted: the nodes strictly between y's parent and z keep a count that includes y, and y's new count at lines 161-162 is summed from z's right child's count, stale whenever that child is such a node, and z's parent's count at line 168 or 174 is then summed from y's; the nodes above z's parent keep a count that includes the erased node | 8B(4R(2B(1R,3R),6B),12B); erase 2: y is 3, and only y (now in 2's place) and 4 are recounted, and the root 8 still counts 7 nodes while 6 remain. 12B(4R(2B(1B,3B),8B(6B(5R,7R),9B)),14B(13B,15B)); erase 4: y is 5, and afterwards 8 counts 5 where 4 remain, 5 (in 4's place) counts 9 where 8 remain and the root 12 counts 13 where 12 remain | lower every count from y's grandparent up to, but not including, z by the one node y takes away, as include/arb_tree.hpp:289-296 does, before recounting y and z's parent; then lower every count from z's grandparent up to, but not including, the sentinel, whose count the wrapper lowers at include/rb_tree.hpp:490, as include/arb_tree.hpp:333-342 does | high, not executed | RbErase.StaleCountAsWritten | Erase.MoveY |
| include/rb_tree.hpp:437-443 | clear leaves the sentinel's count as it was | insert 1; clear: size() stays 1 | reset the count to 1, as include/arb_tree.hpp:521 does | high, not executed | RbTrees.ClearAsWritten | ArbTrees.ArbTree.Clear |
| include/rb_tree.hpp:279 | in the mirror branch of case 2 the new sibling is the link back to x | black 4(2(1,3),6(5,7)); erase 7: w becomes x | take the other child of x's parent, as line 234 does | high, not executed | RbErase.MirrorSiblingAsWritten | EraseFix.FixupRight |
| include/tree_iterator.hpp:43-61 | postfix ++ and -- step a copy and return it; the iterator itself does not move | any tree with two keys: `it++` leaves `it` at begin() | step the iterator, return the old copy | high, not executed | TreeIterators.TreeIterator.PostIncAsWritten | TreeIterators.TreeIterator.PostInc |
| include/rb_tree.hpp:246-250 and 291-295, with 487 | case 4 never updates the fixup's root variable, so erase stores a node that is no longer the root | 2B(1B,3B(-,4R)); erase 1: the sentinel's left becomes 2, now a child of 3 | update the root after the rotation, or read it from the sentinel | high, not executed | RbErase.StaleRootAsWritten | RbErase.FixupRooted |
| include/rb_tree.hpp:183-188, with 140-143 and 490 | when y == z, the walk reads `root->parent_` after the root may have become null, and starts at the parent of y's parent, which is the sentinel's parent when y's parent is the sentinel | the one-node tree 1, erase 1 (null root); 1(-,2), erase 1 (parent of the sentinel) | start the walk only when y's parent is not the sentinel, as include/arb_tree.hpp:333 does, and lower the sentinel's count only once: when y's parent is the sentinel, lines 140 and 143 already lower it and line 490 lowers it again, so for 1(-,2) size() reports 0 while node 2 remains, and for the one-node tree SIZE_MAX | high, not executed | RbErase.RootWalkAsWritten | Erase.DropAbove |
| include/rb_tree.hpp:164-170 | when z is the root, z's parent is the sentinel and the count update reads `zp->right_`, which `End_Node` does not have | 2B(1R,3R); erase 2 | skip the count update at the sentinel, as include/arb_tree.hpp:314-325 does through the sentinel's own count | high, not executed | RbErase.RootMoveAsWritten | Erase.Transplant |
