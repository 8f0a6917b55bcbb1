# Forward list and AVL tree node, modelled in Dafny

This project models two pointer-linked containers from a collection of C++ data-structure labs.

- `zaitsev::ForwardList<T>` is a singly linked list. It owns a chain of `Node{value_, next_}` reached from `head_`. Its members relink that chain in place: `push_front`, `reverse`, `remove`, `remove_if`, `unique`, `erase_after`, `splice_after`, `assign`, `swap`, and the copy, move and (count, value) constructors. It also has comparison operators built on `std::equal` and `std::lexicographical_compare`.
- `zakozhurnikova::detail::TreeNode<Key, Value>` is the node of an AVL tree. It has child and parent links and a stored balance factor. It offers two rotation primitives, `rotateLeft` and `rotateRight`, and constant-time shape predicates.

The modules are:

- `ListSpec` (list_spec.dfy): the meaning of every list operation as a function on the sequence of values. Lemmas state what these functions mean: filtering keeps exactly the elements that fail the test, in order, reversing twice restores the sequence, deduplication is idempotent, and lexicographic order is a strict total order.
- `ForwardLists` (forward_list.dfy): the heap list.
  - Class `Node` with a `value` and a mutable `next`.
  - Class `ForwardList` with a `head` field plus two ghost fields: the sequence of nodes `Nodes` and their values `Contents`. `Valid()` says the chain from `head` visits `Nodes` in order, ends in null, has no node twice, and holds `Contents`.
  - The loops of `remove_if`, `splice_after`, `reverse` and `unique` run in module-level methods over the chain they walk: `RemoveIfChain`, `SpliceChain`, `ReverseChain`, `UniqueChain` and, for the corrected `unique`, `DedupChain`. `RemoveIf` and `Reverse` then store the chain's new first node in `head`. `SpliceAfter`, `Unique` and `UniqueCorrected` leave `head` as it was.
    - `RemoveIfChain`, `ReverseChain`, `UniqueChain` and `DedupChain` are proved against their `ListSpec` functions (`Filter`, `Reverse`, `UniqueAsWritten`, `Dedup`). These functions are applied twice: to the values, and to the nodes themselves, comparing nodes by value. So the contracts say which nodes survive, in which order, and not only which values remain.
    - `SpliceChain` is proved against the chain it builds: `Linked(ns[..i+1] + on + ns[i+1..])`, the other chain linked in after position `i`.
  - The copy constructor, the (count, value) constructor and `assign` keep their loops inside the class, as they only link fresh nodes. They are proved against `Contents == other.Contents`, `CountConstructed` and `Repeat`.
  - Iterators are node references, with `null` standing for `end()`. The `std::out_of_range` throw becomes a `Failure(OutOfRange)` result.
- `AvlRotations` (avl_rotations.dfy): the rotations on a pure tree datatype whose nodes carry their stored balance factor. The lemmas cover the in-order sequence, exactness of the incremental factor updates, the two rotations undoing each other, and the rebalancing they achieve.
- `TreeNodes` (tree_node.dfy): the heap node.
  - Class `TreeNode` has the source's fields, plus a ghost footprint `Repr` of the subtree it roots.
  - `Owns()` says the child links form a finite tree over `Repr`. `Linked()` says every child's `parent` points back.
  - `Abstract()` reads the subtree as an `AvlRotations.Tree`.
  - `RotateLeft`/`RotateRight` perform the source's field writes, in the source's order, and state the new value of every field they write.
  - `RotateLeftSubtree`/`RotateRightSubtree` carry the whole contract of each rotation. They state the same field writes, and also that the subtree now reads as the pure rotation of the old one and that parent links stay consistent.

Balance factor convention: the code's updates at treeNode.hpp lines 58-59 and 85-86 are exact when a node stores height(left) − height(right). Under the opposite convention, height(right) − height(left), which some descriptions of this tree use, they are not exact. The model follows the code and proves exactness for height(left) − height(right).

## Model

| member | source | states |
|---|---|---|
| ListSpec.Repeat | zaitsev.vladimir/S1/forward_list.hpp:221-239 | `count` copies of the value: the length is `count` and every position holds the value |
| ListSpec.CountConstructed | zaitsev.vladimir/S1/forward_list.hpp:122-139 | the (count, value) constructor as written: length 1 for count 0 and `count` otherwise, with every element equal to the value |
| ListSpec.CountConstructedZero | zaitsev.vladimir/S1/forward_list.hpp:122-125 | for count 0 the constructor yields `[v]`, whereas `assign(0, v)` yields the empty list |
| ListSpec.CountConstructedPositive | zaitsev.vladimir/S1/forward_list.hpp:122-139 | for every positive count the constructor agrees with `assign` |
| ListSpec.Reverse | zaitsev.vladimir/S1/forward_list.hpp:439-456 | reversal keeps the length |
| ListSpec.ReverseIndex | zaitsev.vladimir/S1/forward_list.hpp:439-456 | position i of the reversal holds position \|s\|−1−i of the input |
| ListSpec.ReverseReverse | zaitsev.vladimir/S1/forward_list.hpp:439-456 | reversing twice restores the sequence |
| ListSpec.ReverseStep | zaitsev.vladimir/S1/forward_list.hpp:448-454 | one loop step: moving the first unvisited node to the front of the reversed prefix keeps the final result |
| ListSpec.Filter | zaitsev.vladimir/S1/forward_list.hpp:281-311 | what `remove_if` leaves is never longer than its input |
| ListSpec.FilterStep | zaitsev.vladimir/S1/forward_list.hpp:287-309 | one loop step: the next value is dropped when it satisfies the predicate and appended to the kept values otherwise |
| ListSpec.FilterElements | zaitsev.vladimir/S1/forward_list.hpp:281-311 | every kept value fails the predicate and comes from the input, and every input value that fails it is kept |
| ListSpec.EqualTo | zaitsev.vladimir/S1/forward_list.hpp:258 | the test `remove(v)` applies accepts `v`; `RemoveKeepsOthers` shows that it drops exactly the values equal to `v` |
| ListSpec.RemoveKeepsOthers | zaitsev.vladimir/S1/forward_list.hpp:251-280 | `remove(v)` keeps a value exactly when it is in the list and differs from `v` |
| ListSpec.FilterAppend | zaitsev.vladimir/S1/forward_list.hpp:281-311 | filtering distributes over concatenation, so the kept values stay in their original relative order |
| ListSpec.FilterPartition | zaitsev.vladimir/S1/forward_list.hpp:281-311 | the number dropped plus the number kept is the length, so the count returned is the number of values satisfying the predicate |
| ListSpec.FilterIdentity | zaitsev.vladimir/S1/forward_list.hpp:281-311 | nothing is dropped exactly when no value satisfies the predicate (both directions) |
| ListSpec.FilterIdempotent | zaitsev.vladimir/S1/forward_list.hpp:281-311 | a second `remove_if` with the same predicate drops nothing more |
| ListSpec.DedupAfter | zaitsev.vladimir/S1/forward_list.hpp:512-532 | the values after a kept value `x`, with runs collapsed: no adjacent duplicates, and the first value differs from `x`; that only repeats are deleted is `DedupAfterDropsRepeats` |
| ListSpec.Dedup | zaitsev.vladimir/S1/forward_list.hpp:512-532 | the evident intent of `unique`: the first value is kept and no two neighbours are equal; `DedupCharacterization` shows that this collapses every run to its first element |
| ListSpec.DedupAfterDropsRepeats | zaitsev.vladimir/S1/forward_list.hpp:518-531 | after a kept value `x`, the intended loop deletes only values equal to the value kept just before them, and keeps the rest in order |
| ListSpec.DedupDropsRepeats | zaitsev.vladimir/S1/forward_list.hpp:512-532 | the same for the whole list: the first value is kept, and every deleted value repeats the kept value before it |
| ListSpec.DedupAfterUnique | zaitsev.vladimir/S1/forward_list.hpp:518-531 | deleting only repeats so that no equal neighbours remain can be done in exactly one way, and `DedupAfter` is that way |
| ListSpec.DedupCharacterization | zaitsev.vladimir/S1/forward_list.hpp:512-532 | `t == Dedup(s)` exactly when `t` comes from `s` by deleting only repeats of the preceding kept value and has no equal neighbours (both directions) |
| ListSpec.DedupStep | zaitsev.vladimir/S1/forward_list.hpp:521-528 | one step of the intended loop: a value equal to the cursor's is dropped, any other is kept and becomes the cursor |
| ListSpec.DedupElements | zaitsev.vladimir/S1/forward_list.hpp:512-532 | deduplication keeps exactly the values of its input (both directions) |
| ListSpec.DedupAfterKeeps | zaitsev.vladimir/S1/forward_list.hpp:512-532 | every value after `x` other than `x` itself survives, and nothing else appears |
| ListSpec.DedupAfterIdentity | zaitsev.vladimir/S1/forward_list.hpp:512-532 | nothing is dropped exactly when there are no equal neighbours (both directions) |
| ListSpec.DedupIdentity | zaitsev.vladimir/S1/forward_list.hpp:512-532 | deduplication changes nothing exactly when no neighbours are equal, so it is idempotent |
| ListSpec.UniqueRestAsWritten | zaitsev.vladimir/S1/forward_list.hpp:519-530 | the loop of `unique` as written, with `None` for a null dereference of the cursor: never longer than the input |
| ListSpec.UniqueAsWritten | zaitsev.vladimir/S1/forward_list.hpp:512-532 | `unique` as written: when it does not crash, it keeps the first value and is never longer than the input |
| ListSpec.UniqueStep | zaitsev.vladimir/S1/forward_list.hpp:521-529 | one step of the loop as written: after a deletion the cursor moves on to the following node without comparing it |
| ListSpec.UniqueRestAsWrittenSound | zaitsev.vladimir/S1/forward_list.hpp:519-530 | deduplicating the loop's result gives what deduplicating its input gives |
| ListSpec.UniqueAsWrittenSound | zaitsev.vladimir/S1/forward_list.hpp:512-532 | the same for the whole list |
| ListSpec.UniqueRestAsWrittenDropsRepeats | zaitsev.vladimir/S1/forward_list.hpp:519-530 | when the loop as written does not crash, every value it deletes equals the value kept just before it, and the rest stay in order |
| ListSpec.UniqueAsWrittenDropsRepeats | zaitsev.vladimir/S1/forward_list.hpp:512-532 | the same for the whole list, whose first value is kept |
| ListSpec.UniqueRestNoDuplicates | zaitsev.vladimir/S1/forward_list.hpp:519-530 | with no equal neighbours, the loop deletes nothing and does not crash |
| ListSpec.UniqueAsWrittenNoDuplicates | zaitsev.vladimir/S1/forward_list.hpp:512-532 | the same for the whole list |
| ListSpec.UniqueAsWrittenKeepsRun | zaitsev.vladimir/S1/forward_list.hpp:521-529 | `[x, x, x]` becomes `[x, x]` rather than `[x]`, and `[y, x, x]` dereferences a null cursor |
| ListSpec.Equal | zaitsev.vladimir/S1/forward_list.hpp:145-148 | `operator==` holds exactly when the two sequences are equal |
| ListSpec.NotEqual | zaitsev.vladimir/S1/forward_list.hpp:149-152 | `operator!=` holds exactly when the two sequences differ |
| ListSpec.LexLess | zaitsev.vladimir/S1/forward_list.hpp:153-156 | `operator<`: nothing is less than the empty list, and a proper prefix is less than the whole, for any element order |
| ListSpec.GreaterEq | zaitsev.vladimir/S1/forward_list.hpp:157-160 | `operator>=`: every list is at least the empty list, and a proper prefix is not at least the whole |
| ListSpec.Greater | zaitsev.vladimir/S1/forward_list.hpp:161-164 | `operator>`: the empty list is greater than nothing, and the whole is greater than a proper prefix |
| ListSpec.LessEq | zaitsev.vladimir/S1/forward_list.hpp:165-168 | `operator<=`: the empty list is at most every list, and the whole is not at most a proper prefix |
| ListSpec.LexLessCharacterization | zaitsev.vladimir/S1/forward_list.hpp:153-156 | under a strict total element order, `operator<` holds exactly when, after a common prefix, the left list ends first or has the smaller element |
| ListSpec.LexLessIrreflexive | zaitsev.vladimir/S1/forward_list.hpp:153-156 | no list is less than itself |
| ListSpec.LexLessTransitive | zaitsev.vladimir/S1/forward_list.hpp:153-156 | `operator<` is transitive |
| ListSpec.LexLessTrichotomy | zaitsev.vladimir/S1/forward_list.hpp:153-168 | exactly one of a < b, a == b, b < a holds |
| ListSpec.ComparisonOperators | zaitsev.vladimir/S1/forward_list.hpp:157-168 | `>=` (not less) means greater or equal, and `<=` (not greater) means less or equal |
| ForwardLists.Node.constructor | zaitsev.vladimir/S1/forward_list.hpp:21-24 | a node holds the given value and a null `next` |
| ForwardLists.UniqueRestNodes | zaitsev.vladimir/S1/forward_list.hpp:519-530 | the nodes the loop of `unique` as written keeps after a kept node, comparing nodes by value: never more than it is given; `UniqueRestNodesMeaning` says what they are |
| ForwardLists.UniqueNodes | zaitsev.vladimir/S1/forward_list.hpp:512-532 | the nodes `unique` as written keeps: the first node is always among them |
| ForwardLists.DedupAfterNodes | zaitsev.vladimir/S1/forward_list.hpp:518-531 | the nodes the intended loop keeps after a kept node: never more than it is given; `DedupAfterNodesMeaning` says what they are |
| ForwardLists.DedupNodes | zaitsev.vladimir/S1/forward_list.hpp:512-532 | the nodes the intended `unique` keeps: the first node is always among them |
| ForwardLists.UniqueRestNodesMeaning | zaitsev.vladimir/S1/forward_list.hpp:519-530 | on nodes holding `vs`, the loop as written crashes exactly when it crashes on `vs`; otherwise the kept nodes hold `UniqueRestAsWritten` of `vs`, and every unlinked node holds the value of the node kept just before it |
| ForwardLists.UniqueNodesMeaning | zaitsev.vladimir/S1/forward_list.hpp:512-532 | the same for the whole list, whose first node is kept |
| ForwardLists.DedupAfterNodesMeaning | zaitsev.vladimir/S1/forward_list.hpp:518-531 | the nodes the intended loop keeps hold `DedupAfter` of the values, and every unlinked node holds the value of the node kept just before it, so each run keeps its first node |
| ForwardLists.DedupNodesMeaning | zaitsev.vladimir/S1/forward_list.hpp:512-532 | the same for the whole list, whose first node is kept |
| ForwardLists.UniqueNodesStep | zaitsev.vladimir/S1/forward_list.hpp:521-529 | one step of the loop as written, on nodes: after unlinking `cur.next` the cursor moves on to the node that followed, which is kept without a comparison |
| ForwardLists.DedupProgressDrop | zaitsev.vladimir/S1/forward_list.hpp:522-527 | one step of the intended loop, on nodes: a node holding the cursor's value is unlinked, the cursor stays, and the nodes still to be kept are unchanged |
| ForwardLists.DedupProgressKeep | zaitsev.vladimir/S1/forward_list.hpp:522-529 | one step of the intended loop, on nodes: a node holding another value is kept and becomes the cursor |
| ForwardLists.RemoveIfChain | zaitsev.vladimir/S1/forward_list.hpp:282-310 | the loop of `remove_if` leaves a valid chain of exactly the nodes whose values fail `p`, in their original order (`Filter` on the nodes), holding `Filter` of the values; it moves the head past deleted leading nodes and counts old length minus new length |
| ForwardLists.SpliceChain | zaitsev.vladimir/S1/forward_list.hpp:429-436 | the other chain, in order, is linked in right after `pos` and ends in the node that followed `pos` |
| ForwardLists.ReverseChain | zaitsev.vladimir/S1/forward_list.hpp:445-455 | the chain is relinked into the reversed node sequence with reversed values, and the last node becomes the head |
| ForwardLists.UniqueChain | zaitsev.vladimir/S1/forward_list.hpp:518-531 | the loop of `unique` as written leaves a valid chain of exactly the nodes `UniqueNodes` keeps, starting at the first node, holding `UniqueAsWritten` of the values, and counts the deletions |
| ForwardLists.DedupChain | zaitsev.vladimir/S1/forward_list.hpp:518-531 | the loop with the cursor held after a deletion leaves a valid chain of exactly the nodes `DedupNodes` keeps, starting at the first node, and counts the deletions; by `DedupNodesMeaning` these are the first node of each run and hold `Dedup` of the values |
| ForwardLists.ForwardList.constructor | zaitsev.vladimir/S1/forward_list.hpp:89-91 | the default constructor builds the empty list |
| ForwardLists.ForwardList.Copy | zaitsev.vladimir/S1/forward_list.hpp:92-116 | the copy holds the same values in the same order, in fresh nodes |
| ForwardLists.ForwardList.Move | zaitsev.vladimir/S1/forward_list.hpp:117-121 | the new list takes over the other's chain, and the other is left empty |
| ForwardLists.ForwardList.WithCount | zaitsev.vladimir/S1/forward_list.hpp:122-139 | the (count, value) constructor as written holds `CountConstructed(count, v)` in fresh nodes |
| ForwardLists.ForwardList.WithCountIntended | zaitsev.vladimir/S1/forward_list.hpp:122-139 | corrected constructor: exactly `count` copies, the empty list for 0 |
| ForwardLists.ForwardList.Empty | zaitsev.vladimir/S1/forward_list.hpp:187-190 | `empty()` holds exactly when the list holds no value |
| ForwardLists.ForwardList.PushFront | zaitsev.vladimir/S1/forward_list.hpp:199-210 | the values become `[v] + old`, with one fresh node in front of the untouched old nodes |
| ForwardLists.ForwardList.Assign | zaitsev.vladimir/S1/forward_list.hpp:221-239 | the list becomes exactly `count` copies of the value, in fresh nodes |
| ForwardLists.ForwardList.Swap | zaitsev.vladimir/S1/forward_list.hpp:244-249 | the two lists exchange their chains and their values |
| ForwardLists.ForwardList.RemoveIf | zaitsev.vladimir/S1/forward_list.hpp:281-311 | the nodes become exactly the old nodes whose values fail `p`, in their order, so the values become `Filter(old, p)`; the result is old length minus new length |
| ForwardLists.ForwardList.Remove | zaitsev.vladimir/S1/forward_list.hpp:251-280 | the nodes become exactly the old nodes whose values differ from `v`, in their order; the values become those different from `v`, and the result is the number removed |
| ForwardLists.ForwardList.EraseAfter | zaitsev.vladimir/S1/forward_list.hpp:403-418 | fails with out-of-range on `end()`; otherwise removes exactly the node after `pos` and returns the node that followed it; changes nothing and returns `end()` when `pos` is last |
| ForwardLists.ForwardList.SpliceAfter | zaitsev.vladimir/S1/forward_list.hpp:419-438 | fails with out-of-range on `end()`; otherwise inserts all of the other list's nodes, in order, right after `pos`, and leaves the other list empty; nothing changes when the other list is empty |
| ForwardLists.ForwardList.Reverse | zaitsev.vladimir/S1/forward_list.hpp:439-456 | the nodes and the values become their reversals; the empty list is unchanged |
| ForwardLists.ForwardList.Unique | zaitsev.vladimir/S1/forward_list.hpp:512-532 | `unique` as written, on the lists where it does not crash: the head stays, the nodes become `UniqueNodes(old)`, the values become `UniqueAsWritten(old)`, and the result is the number removed (0 on the empty list) |
| ForwardLists.ForwardList.UniqueCorrected | zaitsev.vladimir/S1/forward_list.hpp:512-532 | corrected `unique`: the head stays, the nodes become `DedupNodes(old)`, the first node of each run, the values become `Dedup(old)`, and the result is the number removed |
| AvlRotations.RotateLeft | zakozhurnikova.kristina/common/treeNode.hpp:36-61 | the left rotation keeps the in-order sequence and the node count, and puts a node on the left of the new root |
| AvlRotations.RotateRight | zakozhurnikova.kristina/common/treeNode.hpp:63-88 | the right rotation keeps the in-order sequence and the node count, and puts a node on the right of the new root |
| AvlRotations.RotateLeftFactors | zakozhurnikova.kristina/common/treeNode.hpp:58-59 | if the two moved nodes store height(left) − height(right) before the rotation, the updates give both of them their exact factors afterwards; no other factor is assumed |
| AvlRotations.RotateRightFactors | zakozhurnikova.kristina/common/treeNode.hpp:85-86 | the same for the right rotation |
| AvlRotations.RotateLeftExact | zakozhurnikova.kristina/common/treeNode.hpp:58-59 | hence a tree whose every factor is exact stays so under the left rotation |
| AvlRotations.RotateRightExact | zakozhurnikova.kristina/common/treeNode.hpp:85-86 | the same for the right rotation |
| AvlRotations.RotateRightLeft | zakozhurnikova.kristina/common/treeNode.hpp:36-88 | a right rotation undoes a left rotation, stored factors included, whatever they are |
| AvlRotations.RotateLeftRight | zakozhurnikova.kristina/common/treeNode.hpp:36-88 | a left rotation undoes a right rotation |
| AvlRotations.RotateLeftRepairs | zakozhurnikova.kristina/common/treeNode.hpp:36-61 | a right-heavy (−2) node whose right child does not lean left becomes balanced with exact factors, and one level lower when the child leaned right |
| AvlRotations.RotateRightRepairs | zakozhurnikova.kristina/common/treeNode.hpp:63-88 | a left-heavy (+2) node whose left child does not lean right becomes balanced with exact factors, and one level lower when the child leaned left |
| TreeNodes.TreeNode.WithParent | zakozhurnikova.kristina/common/treeNode.hpp:20-26 | the node holds the key and value, has the given parent, null children and factor 0, and reads as a one-node tree |
| TreeNodes.TreeNode.constructor | zakozhurnikova.kristina/common/treeNode.hpp:28-34 | the same with a null parent |
| TreeNodes.TreeNode.Abstract | zakozhurnikova.kristina/common/treeNode.hpp:12-18 | the subtree read as a tree: the root's data and factor, and a non-empty side exactly where the child link is non-null |
| TreeNodes.TreeNode.HasLeftChild | zakozhurnikova.kristina/common/treeNode.hpp:90-93 | non-null exactly when there is a left child |
| TreeNodes.TreeNode.HasRightChild | zakozhurnikova.kristina/common/treeNode.hpp:95-98 | non-null exactly when there is a right child |
| TreeNodes.TreeNode.IsLeftChild | zakozhurnikova.kristina/common/treeNode.hpp:100-103 | the source's test, restated; what it means in a tree is `ParentPredicates` and `ChildrenKnowTheirSide` |
| TreeNodes.TreeNode.IsRightChild | zakozhurnikova.kristina/common/treeNode.hpp:105-108 | the source's test, restated; what it means in a tree is `ParentPredicates` and `ChildrenKnowTheirSide` |
| TreeNodes.TreeNode.IsRoot | zakozhurnikova.kristina/common/treeNode.hpp:110-113 | a root is neither a left nor a right child, and a node that is not a root has a parent; the rest is `ParentPredicates` |
| TreeNodes.TreeNode.IsLeaf | zakozhurnikova.kristina/common/treeNode.hpp:115-118 | the source's test, restated; that it means a one-node tree is `ChildPredicates` |
| TreeNodes.TreeNode.HasAnyChildren | zakozhurnikova.kristina/common/treeNode.hpp:120-123 | holds exactly when the node is not a leaf |
| TreeNodes.TreeNode.HasBothChildren | zakozhurnikova.kristina/common/treeNode.hpp:125-128 | the source's test, restated, plus: then the node has children; the rest is `ChildPredicates` |
| TreeNodes.TreeNode.RotateLeft | zakozhurnikova.kristina/common/treeNode.hpp:36-61 | returns the old right child R, with `R.leftChild == this` and `parent == R`; the old left subtree of R becomes this node's right subtree, re-parented to this; R gets the old parent, and that parent's slot (left when this was its left child, right otherwise) now holds R; the factors follow lines 58-59; nothing else is written |
| TreeNodes.TreeNode.RotateLeftSubtree | zakozhurnikova.kristina/common/treeNode.hpp:36-61 | the whole of `rotateLeft`: every link, parent slot and factor that `RotateLeft` states, and in addition the subtree rooted at R owns the same nodes, reads as `AvlRotations.RotateLeft` of the old subtree, and keeps consistent parent links |
| TreeNodes.TreeNode.RotateRight | zakozhurnikova.kristina/common/treeNode.hpp:63-88 | the mirror of `RotateLeft`, with factors following lines 85-86 |
| TreeNodes.TreeNode.RotateRightSubtree | zakozhurnikova.kristina/common/treeNode.hpp:63-88 | the whole of `rotateRight`: every write that `RotateRight` states, and in addition the subtree reads as `AvlRotations.RotateRight` of the old one and keeps consistent parent links |
| TreeNodes.Kept | zakozhurnikova.kristina/common/treeNode.hpp:36-88 | a subtree that the rotation does not touch below its root reads as the same tree afterwards |
| TreeNodes.RotatedLeft | zakozhurnikova.kristina/common/treeNode.hpp:36-61 | the field writes of `rotateLeft` amount to the pure left rotation of the subtree, and keep parent links consistent |
| TreeNodes.RotatedRight | zakozhurnikova.kristina/common/treeNode.hpp:63-88 | the field writes of `rotateRight` amount to the pure right rotation of the subtree |
| TreeNodes.ChildPredicates | zakozhurnikova.kristina/common/treeNode.hpp:115-128 | `isLeaf` holds exactly when both children are null, that is, the node is a one-node tree; `hasAnyChildren` is its negation; `hasBothChildren` holds exactly when both children are non-null |
| TreeNodes.ParentPredicates | zakozhurnikova.kristina/common/treeNode.hpp:100-113 | a root is neither a left nor a right child, and no node is both children of a parent |
| TreeNodes.ChildrenKnowTheirSide | zakozhurnikova.kristina/common/treeNode.hpp:100-113 | with consistent parent links, each child is a child of its own side only and is not a root |

## Left out

- `freeNodes` and the destructor: memory is reclaimed by Dafny's garbage collection, so the deletes in `erase_after`, `remove`, `remove_if` and `unique` just unlink the node.
- `clear`: frees the chain but leaves `head_` dangling. The model has no freed memory to point at.
- `pop_front`: does not compile (`head_->next`) and deletes the new head instead of the old one.
- `insert_after` (all overloads): does not compile when instantiated.
- `merge`: dereferences a null cursor when this list is empty, and its comparison takes the larger element first.
- The `std::bad_alloc` cleanup in the copy and count constructors, `assign` and `insert_after`: allocation is total in the model.
- `front()` and writes through iterators: node values are fixed when a node is made, so the model cannot change a value in place.
- The const/non-const iterator templating: an iterator is a node reference, with null for `end()`.
- `push_front(T&&)`: it is the same as `push_front(const T&)`, as there are no moves of values.
- `ForwardLists.ForwardList.Remove`: modelled as `remove_if` with the test "equal to v". The source writes out the same loop a second time with that test.
- `ForwardLists.ForwardList.SpliceAfter`: requires `other != this`. Splicing a list into itself makes the chain a cycle: line 431 points `pos` at the list's own head, and the walk at lines 432-435 then never finds a null `next_`, so the source never terminates. The model excludes that call.
- `ForwardLists.ForwardList.SpliceAfter`: requires the two lists to have no node in common. Two distinct lists that each own their chain guarantee this.
- `ForwardLists.ForwardList.Remove`: takes `v` by value. The source takes it by reference, so for `remove(front())` line 270 deletes the node holding `value`, and line 258 then reads freed memory. The model has no freed memory, so this aliasing case is not captured.
- `ForwardLists.ForwardList.RemoveIf`: the predicate is a pure, total `T -> bool`. A predicate with state or one that throws is not modelled. The source calls it once per node, in list order (line 289); the model does not record those calls.
- `ForwardLists.ForwardList.SpliceAfter`: the source walks `other.head_` itself to the tail before nulling it. The model walks a local cursor; the final state is the same.
- `ForwardLists.ForwardList.Unique`: requires that the list is one on which the code does not dereference a null cursor; `ListSpec.UniqueAsWritten` says exactly which lists crash.
- `ListSpec.Equal`, `ListSpec.EqualTo`, `ListSpec.Dedup`, `ListSpec.UniqueRestAsWritten` and their node forms compare elements with Dafny's `==`, which is why `ForwardList` takes a `T(==)`. The source calls the element type's own `operator==`, which need not be an equivalence relation; such an `operator==` is not modelled.
- `ListSpec.LexLessCharacterization`, `ListSpec.LexLessIrreflexive`, `ListSpec.LexLessTransitive`, `ListSpec.LexLessTrichotomy` and `ListSpec.ComparisonOperators` assume that the element order is a strict total order. `std::lexicographical_compare` needs only a strict weak order, in which two different elements can be incomparable. That case is not covered. The contracts of `LexLess`, `GreaterEq`, `Greater` and `LessEq` themselves make no assumption on the order.
- `TreeNodes.TreeNode.RotateLeft` and `TreeNodes.TreeNode.RotateRight`: `balanceFactor` is an unbounded integer. The source's `int` overflow is not modelled; a factor of an AVL tree stays within −2..2.
- `TreeNodes.TreeNode.RotateLeftSubtree` and `TreeNodes.TreeNode.RotateRightSubtree`: the nodes above the parent, and the tree's own root pointer when the rotated node was a root, are not described. Keeping them up to date is the caller's job.
- `TreeNodes.TreeNode.WithParent`: like the source, the constructor does not set the parent's child slot. So the new node is not part of the parent's subtree until the caller links it.
- `TreeNodes.TreeNode.Owns`: the footprint `Repr` is an upper bound on the subtree's nodes, not an exact set, which keeps the rotations' frames small.
- The balanced-tree insert, erase and find and the in-order iterator are not part of this model. Only the node primitives are.

## Findings

| source | as written | input that shows it | evidently intended | confidence | as-written member | corrected member |
|---|---|---|---|---|---|---|
| zaitsev.vladimir/S1/forward_list.hpp:529 | after a deletion the cursor still moves to the next node, which is not compared with the kept one; when the deleted node was the last, the cursor becomes null and the loop test dereferences it | `[x, x, x]` becomes `[x, x]`; `[y, x, x]` dereferences null | every run of equal neighbours collapses to its first element | high (not executed) | ListSpec.UniqueAsWrittenKeepsRun, ForwardLists.UniqueChain | ListSpec.DedupCharacterization, ForwardLists.DedupChain, ForwardLists.ForwardList.UniqueCorrected |
| zaitsev.vladimir/S1/forward_list.hpp:123 | the (count, value) constructor allocates its first node before looking at `count` | count 0 gives a one-element list | count 0 gives the empty list, as `assign(0, v)` does | high (not executed) | ListSpec.CountConstructedZero, ForwardLists.ForwardList.WithCount | ListSpec.CountConstructedPositive, ForwardLists.ForwardList.WithCountIntended |
