/**
 * zakozhurnikova::detail::TreeNode: a node of a balanced search tree with
 * links to its children and to its parent and a stored balance factor.
 * A node owns the nodes of its subtree (the ghost set Repr); Abstract()
 * reads the subtree as an AvlRotations.Tree, and the two rotations are
 * proved to relink the heap exactly as the pure rotations transform that
 * tree.
 */
module TreeNodes {
  import AvlRotations

  class TreeNode<K, V> {
    var data: (K, V)
    var leftChild: TreeNode?<K, V>
    var rightChild: TreeNode?<K, V>
    var parent: TreeNode?<K, V>
    var balanceFactor: int
    /** The nodes of the subtree rooted here. */
    ghost var Repr: set<TreeNode<K, V>>

    /** The child links below this node form a finite tree: each child owns
        a part of Repr that excludes this node, and the two parts are
        disjoint. */
    ghost predicate Owns()
      reads this`Repr, Repr`leftChild, Repr`rightChild, Repr`Repr
      decreases Repr
    {
      && this in Repr
      && (leftChild != null ==>
            leftChild in Repr && leftChild.Repr < Repr && this !in leftChild.Repr && leftChild.Owns())
      && (rightChild != null ==>
            rightChild in Repr && rightChild.Repr < Repr && this !in rightChild.Repr && rightChild.Owns())
      && (leftChild != null && rightChild != null ==> leftChild.Repr !! rightChild.Repr)
    }

    /** Parent/child consistency below this node: every non-null child's
        parent link points back to the node that holds it.  The node's own
        parent link is not part of it. */
    ghost predicate Linked()
      requires Owns()
      reads this`Repr, Repr`leftChild, Repr`rightChild, Repr`Repr, (Repr - {this})`parent
      decreases Repr
    {
      && (leftChild != null ==> leftChild.parent == this && leftChild.Linked())
      && (rightChild != null ==> rightChild.parent == this && rightChild.Linked())
    }

    /** The subtree rooted here as a value: shape, data and stored factors. */
    ghost function Abstract(): (t: AvlRotations.Tree<(K, V)>)
      requires Owns()
      reads this`Repr, Repr`leftChild, Repr`rightChild, Repr`Repr, Repr`data, Repr`balanceFactor
      decreases Repr
      ensures t.Node? && t.data == data && t.bf == balanceFactor
      ensures t.left.Node? <==> leftChild != null
      ensures t.right.Node? <==> rightChild != null
    {
      AvlRotations.Node(
        if leftChild != null then leftChild.Abstract() else AvlRotations.Leaf,
        data,
        if rightChild != null then rightChild.Abstract() else AvlRotations.Leaf,
        balanceFactor)
    }

    /** The constructor that takes a parent: a childless node with factor 0
        pointing at that parent (the parent's child slot is the caller's). */
    constructor WithParent(key: K, val: V, parent: TreeNode?<K, V>)
      ensures data == (key, val) && this.parent == parent
      ensures leftChild == null && rightChild == null && balanceFactor == 0
      ensures Owns() && Linked() && Repr == {this}
      ensures Abstract() == AvlRotations.Node(AvlRotations.Leaf, (key, val), AvlRotations.Leaf, 0)
    {
      data := (key, val);
      leftChild := null;
      rightChild := null;
      this.parent := parent;
      balanceFactor := 0;
      Repr := {this};
    }

    /** The constructor without a parent: a childless root with factor 0. */
    constructor (key: K, val: V)
      ensures data == (key, val) && parent == null
      ensures leftChild == null && rightChild == null && balanceFactor == 0
      ensures Owns() && Linked() && Repr == {this}
      ensures Abstract() == AvlRotations.Node(AvlRotations.Leaf, (key, val), AvlRotations.Leaf, 0)
    {
      data := (key, val);
      leftChild := null;
      rightChild := null;
      parent := null;
      balanceFactor := 0;
      Repr := {this};
    }

    /** hasLeftChild(): the left child itself, null when there is none. */
    function HasLeftChild(): (r: TreeNode?<K, V>)
      reads this`leftChild
      ensures r != null <==> leftChild != null
    {
      leftChild
    }

    /** hasRightChild(): the right child itself, null when there is none. */
    function HasRightChild(): (r: TreeNode?<K, V>)
      reads this`rightChild
      ensures r != null <==> rightChild != null
    {
      rightChild
    }

    /** isLeftChild(): there is a parent, and its left child is this node. */
    function IsLeftChild(): (r: bool)
      reads this`parent, {parent}`leftChild
      ensures r <==> parent != null && parent.HasLeftChild() == this
    {
      parent != null && parent.leftChild == this
    }

    /** isRightChild(): there is a parent, and its right child is this node. */
    function IsRightChild(): (r: bool)
      reads this`parent, {parent}`rightChild
      ensures r <==> parent != null && parent.HasRightChild() == this
    {
      parent != null && parent.rightChild == this
    }

    /** isRoot(): no parent, so this node is neither child of anything. */
    function IsRoot(): (r: bool)
      reads this`parent, {parent}`leftChild, {parent}`rightChild
      ensures r ==> !IsLeftChild() && !IsRightChild()
      ensures !r ==> parent != null
    {
      parent == null
    }

    /** isLeaf(): neither child exists. */
    function IsLeaf(): (r: bool)
      reads this`leftChild, this`rightChild
      ensures r <==> HasLeftChild() == null && HasRightChild() == null
    {
      !(rightChild != null || leftChild != null)
    }

    /** hasAnyChildren(): exactly the nodes that are not leaves. */
    function HasAnyChildren(): (r: bool)
      reads this`leftChild, this`rightChild
      ensures r <==> !IsLeaf()
    {
      rightChild != null || leftChild != null
    }

    /** hasBothChildren(): both children exist; such a node has children. */
    function HasBothChildren(): (r: bool)
      reads this`leftChild, this`rightChild
      ensures r <==> HasLeftChild() != null && HasRightChild() != null
      ensures r ==> HasAnyChildren()
    {
      rightChild != null && leftChild != null
    }

    /** rotateLeft(), link by link: the right child takes this node's
        place, this node becomes its left child, and the right child's
        former left subtree becomes this node's right subtree. */
    method RotateLeft() returns (newRoot: TreeNode<K, V>)
      requires Owns() && rightChild != null
      requires parent != null ==> parent !in Repr
      modifies this`rightChild, this`parent, this`balanceFactor, this`Repr
      modifies rightChild`leftChild, rightChild`parent, rightChild`balanceFactor, rightChild`Repr
      modifies {rightChild.leftChild}`parent, {parent}`leftChild, {parent}`rightChild
      // the three relinked nodes
      ensures newRoot == old(rightChild) && newRoot.leftChild == this && parent == newRoot
      ensures rightChild == old(rightChild.leftChild)
      ensures old(rightChild.leftChild) != null ==> old(rightChild.leftChild).parent == this
      // the former parent's slot
      ensures newRoot.parent == old(parent)
      ensures old(parent) != null && old(parent.leftChild) == this ==>
        old(parent).leftChild == newRoot && old(parent).rightChild == old(parent.rightChild)
      ensures old(parent) != null && old(parent.leftChild) != this ==>
        old(parent).rightChild == newRoot && old(parent).leftChild == old(parent.leftChild)
      // the balance factors and the node sets
      ensures balanceFactor == old(balanceFactor) + 1 - AvlRotations.Min(old(rightChild.balanceFactor), 0)
      ensures newRoot.balanceFactor == old(rightChild.balanceFactor) + 1 + AvlRotations.Max(balanceFactor, 0)
      ensures newRoot.Repr == old(Repr)
      ensures Repr == {this} + (if leftChild != null then old(leftChild.Repr) else {})
                             + (if rightChild != null then old(rightChild.leftChild.Repr) else {})
    {
      newRoot := rightChild;
      ghost var b := newRoot.leftChild;
      ghost var lower := {this} + (if leftChild != null then leftChild.Repr else {}) + (if b != null then b.Repr else {});
      rightChild := newRoot.leftChild;
      if newRoot.leftChild != null {
        newRoot.leftChild.parent := this;
      }
      newRoot.parent := parent;
      if !IsRoot() {
        if IsLeftChild() {
          parent.leftChild := newRoot;
        } else {
          parent.rightChild := newRoot;
        }
      }
      newRoot.leftChild := this;
      parent := newRoot;
      balanceFactor := balanceFactor + 1 - AvlRotations.Min(newRoot.balanceFactor, 0);
      newRoot.balanceFactor := newRoot.balanceFactor + 1 + AvlRotations.Max(balanceFactor, 0);
      Repr, newRoot.Repr := lower, old(Repr);
    }

    /** rotateLeft() in full: the links and factors it writes, and the
        subtree the returned node now roots, which holds the same nodes and
        reads as the pure rotation of the subtree this node rooted, with
        parent links kept consistent. */
    method RotateLeftSubtree() returns (newRoot: TreeNode<K, V>)
      requires Owns() && rightChild != null
      requires parent != null ==> parent !in Repr
      modifies this`rightChild, this`parent, this`balanceFactor, this`Repr
      modifies rightChild`leftChild, rightChild`parent, rightChild`balanceFactor, rightChild`Repr
      modifies {rightChild.leftChild}`parent, {parent}`leftChild, {parent}`rightChild
      // the links and factors rotateLeft writes
      ensures newRoot == old(rightChild) && newRoot.leftChild == this && parent == newRoot
      ensures rightChild == old(rightChild.leftChild)
      ensures old(rightChild.leftChild) != null ==> old(rightChild.leftChild).parent == this
      ensures newRoot.parent == old(parent)
      ensures old(parent) != null && old(parent.leftChild) == this ==>
        old(parent).leftChild == newRoot && old(parent).rightChild == old(parent.rightChild)
      ensures old(parent) != null && old(parent.leftChild) != this ==>
        old(parent).rightChild == newRoot && old(parent).leftChild == old(parent.leftChild)
      ensures balanceFactor == old(balanceFactor) + 1 - AvlRotations.Min(old(rightChild.balanceFactor), 0)
      ensures newRoot.balanceFactor == old(rightChild.balanceFactor) + 1 + AvlRotations.Max(balanceFactor, 0)
      // the subtree as a whole
      ensures newRoot.Owns() && newRoot.Repr == old(Repr)
      ensures newRoot.Abstract() == AvlRotations.RotateLeft(old(Abstract()))
      ensures old(Linked()) ==> newRoot.Linked()
    {
      newRoot := RotateLeft();
      RotatedLeft(this);
    }

    /** rotateRight(), link by link: the left child takes this node's
        place, this node becomes its right child, and the left child's
        former right subtree becomes this node's left subtree. */
    method RotateRight() returns (newRoot: TreeNode<K, V>)
      requires Owns() && leftChild != null
      requires parent != null ==> parent !in Repr
      modifies this`leftChild, this`parent, this`balanceFactor, this`Repr
      modifies leftChild`rightChild, leftChild`parent, leftChild`balanceFactor, leftChild`Repr
      modifies {leftChild.rightChild}`parent, {parent}`rightChild, {parent}`leftChild
      // the three relinked nodes
      ensures newRoot == old(leftChild) && newRoot.rightChild == this && parent == newRoot
      ensures leftChild == old(leftChild.rightChild)
      ensures old(leftChild.rightChild) != null ==> old(leftChild.rightChild).parent == this
      // the former parent's slot
      ensures newRoot.parent == old(parent)
      ensures old(parent) != null && old(parent.leftChild) == this ==>
        old(parent).leftChild == newRoot && old(parent).rightChild == old(parent.rightChild)
      ensures old(parent) != null && old(parent.leftChild) != this ==>
        old(parent).rightChild == newRoot && old(parent).leftChild == old(parent.leftChild)
      // the balance factors and the node sets
      ensures balanceFactor == old(balanceFactor) - 1 - AvlRotations.Max(0, old(leftChild.balanceFactor))
      ensures newRoot.balanceFactor == old(leftChild.balanceFactor) - 1 + AvlRotations.Min(0, balanceFactor)
      ensures newRoot.Repr == old(Repr)
      ensures Repr == {this} + (if rightChild != null then old(rightChild.Repr) else {})
                             + (if leftChild != null then old(leftChild.rightChild.Repr) else {})
    {
      newRoot := leftChild;
      ghost var b := newRoot.rightChild;
      ghost var lower := {this} + (if rightChild != null then rightChild.Repr else {}) + (if b != null then b.Repr else {});
      leftChild := newRoot.rightChild;
      if newRoot.rightChild != null {
        newRoot.rightChild.parent := this;
      }
      newRoot.parent := parent;
      if !IsRoot() {
        if IsLeftChild() {
          parent.leftChild := newRoot;
        } else {
          parent.rightChild := newRoot;
        }
      }
      newRoot.rightChild := this;
      parent := newRoot;
      balanceFactor := balanceFactor - 1 - AvlRotations.Max(0, newRoot.balanceFactor);
      newRoot.balanceFactor := newRoot.balanceFactor - 1 + AvlRotations.Min(0, balanceFactor);
      Repr, newRoot.Repr := lower, old(Repr);
    }

    /** rotateRight() in full, as rotateLeft() above. */
    method RotateRightSubtree() returns (newRoot: TreeNode<K, V>)
      requires Owns() && leftChild != null
      requires parent != null ==> parent !in Repr
      modifies this`leftChild, this`parent, this`balanceFactor, this`Repr
      modifies leftChild`rightChild, leftChild`parent, leftChild`balanceFactor, leftChild`Repr
      modifies {leftChild.rightChild}`parent, {parent}`rightChild, {parent}`leftChild
      // the links and factors rotateRight writes
      ensures newRoot == old(leftChild) && newRoot.rightChild == this && parent == newRoot
      ensures leftChild == old(leftChild.rightChild)
      ensures old(leftChild.rightChild) != null ==> old(leftChild.rightChild).parent == this
      ensures newRoot.parent == old(parent)
      ensures old(parent) != null && old(parent.leftChild) == this ==>
        old(parent).leftChild == newRoot && old(parent).rightChild == old(parent.rightChild)
      ensures old(parent) != null && old(parent.leftChild) != this ==>
        old(parent).rightChild == newRoot && old(parent).leftChild == old(parent.leftChild)
      ensures balanceFactor == old(balanceFactor) - 1 - AvlRotations.Max(0, old(leftChild.balanceFactor))
      ensures newRoot.balanceFactor == old(leftChild.balanceFactor) - 1 + AvlRotations.Min(0, balanceFactor)
      // the subtree as a whole
      ensures newRoot.Owns() && newRoot.Repr == old(Repr)
      ensures newRoot.Abstract() == AvlRotations.RotateRight(old(Abstract()))
      ensures old(Linked()) ==> newRoot.Linked()
    {
      newRoot := RotateRight();
      RotatedRight(this);
    }
  }

  /** A subtree whose root kept its child links, node set, data and factor,
      and whose other nodes were not touched at all, still owns its nodes,
      reads as the same tree and keeps its parent links.  Only the root's
      own parent link may have changed. */
  twostate lemma Kept<K, V>(n: TreeNode?<K, V>)
    requires n != null ==> old(n.Owns()) && unchanged(old(n.Repr) - {n})
    requires n != null ==>
      && n.leftChild == old(n.leftChild) && n.rightChild == old(n.rightChild)
      && n.Repr == old(n.Repr) && n.data == old(n.data) && n.balanceFactor == old(n.balanceFactor)
    ensures n != null ==> n.Owns() && n.Repr == old(n.Repr) && n.Abstract() == old(n.Abstract())
    ensures n != null && old(n.Linked()) ==> n.Linked()
  {
  }

  /** After rotateLeft, the old root still owns its left subtree and now
      owns the former left subtree of the new root as its right subtree.
      (The new root is old(x.rightChild).) */
  twostate lemma RotatedLeftLower<K, V>(x: TreeNode<K, V>)
    requires old(x.Owns()) && old(x.rightChild) != null
    requires x.leftChild == old(x.leftChild) && x.rightChild == old(x.rightChild.leftChild)
    requires x.data == old(x.data)
    requires x.Repr == {x} + (if x.leftChild != null then old(x.leftChild.Repr) else {})
                           + (if x.rightChild != null then old(x.rightChild.leftChild.Repr) else {})
    requires unchanged(old(x.Repr) - {x, old(x.rightChild), x.rightChild})
    requires x.rightChild != null ==>
      && x.rightChild.parent == x
      && x.rightChild.leftChild == old(x.rightChild.leftChild.leftChild)
      && x.rightChild.rightChild == old(x.rightChild.leftChild.rightChild)
      && x.rightChild.Repr == old(x.rightChild.leftChild.Repr)
      && x.rightChild.data == old(x.rightChild.leftChild.data)
      && x.rightChild.balanceFactor == old(x.rightChild.leftChild.balanceFactor)
    ensures x.Owns() && old(x.rightChild) !in x.Repr && x.Repr < old(x.Repr)
    ensures x.Abstract() ==
      AvlRotations.Node(old(x.Abstract()).left, x.data, old(x.rightChild.Abstract()).left, x.balanceFactor)
    ensures old(x.Linked()) ==> x.Linked()
  {
    var a, b, r := x.leftChild, x.rightChild, old(x.rightChild);
    assert old(r.Owns()) && r in old(r.Repr);
    assert a != null ==> r !in old(a.Repr) && b !in old(a.Repr) && x !in old(a.Repr);
    assert b != null ==> r !in old(b.Repr) && x !in old(b.Repr);
    assert old(x.Linked()) ==> old(r.Linked()) && (b != null ==> old(b.Linked()));
    Kept(a);
    Kept(b);
  }

  /** The heap facts rotateLeft establishes amount to the pure rotation of
      the subtree. */
  twostate lemma RotatedLeft<K, V>(x: TreeNode<K, V>)
    requires old(x.Owns()) && old(x.rightChild) != null
    requires x.leftChild == old(x.leftChild) && x.rightChild == old(x.rightChild.leftChild)
    requires old(x.rightChild).leftChild == x && old(x.rightChild).rightChild == old(x.rightChild.rightChild)
    requires x.data == old(x.data) && old(x.rightChild).data == old(x.rightChild.data)
    requires x.Repr == {x} + (if x.leftChild != null then old(x.leftChild.Repr) else {})
                           + (if x.rightChild != null then old(x.rightChild.leftChild.Repr) else {})
    requires old(x.rightChild).Repr == old(x.Repr)
    requires x.balanceFactor ==
      old(x.balanceFactor) + 1 - AvlRotations.Min(old(x.rightChild.balanceFactor), 0)
    requires old(x.rightChild).balanceFactor ==
      old(x.rightChild.balanceFactor) + 1 + AvlRotations.Max(x.balanceFactor, 0)
    requires unchanged(old(x.Repr) - {x, old(x.rightChild), x.rightChild})
    requires x.rightChild != null ==>
      && x.rightChild.parent == x
      && x.rightChild.leftChild == old(x.rightChild.leftChild.leftChild)
      && x.rightChild.rightChild == old(x.rightChild.leftChild.rightChild)
      && x.rightChild.Repr == old(x.rightChild.leftChild.Repr)
      && x.rightChild.data == old(x.rightChild.leftChild.data)
      && x.rightChild.balanceFactor == old(x.rightChild.leftChild.balanceFactor)
    requires x.parent == old(x.rightChild)
    ensures old(x.rightChild).Owns()
    ensures old(x.rightChild).Abstract() == AvlRotations.RotateLeft(old(x.Abstract()))
    ensures old(x.Linked()) ==> old(x.rightChild).Linked()
  {
    RotatedLeftLower(x);
    var r := old(x.rightChild);
    var c := r.rightChild;
    assert old(r.Owns());
    assert c != null ==> x !in old(c.Repr) && r !in old(c.Repr) && old(c.Repr) !! x.Repr;
    assert old(x.Linked()) ==> old(r.Linked()) && (c != null ==> old(c.parent) == r && old(c.Linked()));
    Kept(c);
  }

  /** After rotateRight, the old root still owns its right subtree and now
      owns the former right subtree of the new root as its left subtree.
      (The new root is old(x.leftChild).) */
  twostate lemma RotatedRightLower<K, V>(x: TreeNode<K, V>)
    requires old(x.Owns()) && old(x.leftChild) != null
    requires x.rightChild == old(x.rightChild) && x.leftChild == old(x.leftChild.rightChild)
    requires x.data == old(x.data)
    requires x.Repr == {x} + (if x.rightChild != null then old(x.rightChild.Repr) else {})
                           + (if x.leftChild != null then old(x.leftChild.rightChild.Repr) else {})
    requires unchanged(old(x.Repr) - {x, old(x.leftChild), x.leftChild})
    requires x.leftChild != null ==>
      && x.leftChild.parent == x
      && x.leftChild.rightChild == old(x.leftChild.rightChild.rightChild)
      && x.leftChild.leftChild == old(x.leftChild.rightChild.leftChild)
      && x.leftChild.Repr == old(x.leftChild.rightChild.Repr)
      && x.leftChild.data == old(x.leftChild.rightChild.data)
      && x.leftChild.balanceFactor == old(x.leftChild.rightChild.balanceFactor)
    ensures x.Owns() && old(x.leftChild) !in x.Repr && x.Repr < old(x.Repr)
    ensures x.Abstract() ==
      AvlRotations.Node(old(x.leftChild.Abstract()).right, x.data, old(x.Abstract()).right, x.balanceFactor)
    ensures old(x.Linked()) ==> x.Linked()
  {
    var a, b, r := x.rightChild, x.leftChild, old(x.leftChild);
    assert old(r.Owns()) && r in old(r.Repr);
    assert a != null ==> r !in old(a.Repr) && b !in old(a.Repr) && x !in old(a.Repr);
    assert b != null ==> r !in old(b.Repr) && x !in old(b.Repr);
    assert old(x.Linked()) ==> old(r.Linked()) && (b != null ==> old(b.Linked()));
    Kept(a);
    Kept(b);
  }

  /** The heap facts rotateRight establishes amount to the pure rotation of
      the subtree. */
  twostate lemma RotatedRight<K, V>(x: TreeNode<K, V>)
    requires old(x.Owns()) && old(x.leftChild) != null
    requires x.rightChild == old(x.rightChild) && x.leftChild == old(x.leftChild.rightChild)
    requires old(x.leftChild).rightChild == x && old(x.leftChild).leftChild == old(x.leftChild.leftChild)
    requires x.data == old(x.data) && old(x.leftChild).data == old(x.leftChild.data)
    requires x.Repr == {x} + (if x.rightChild != null then old(x.rightChild.Repr) else {})
                           + (if x.leftChild != null then old(x.leftChild.rightChild.Repr) else {})
    requires old(x.leftChild).Repr == old(x.Repr)
    requires x.balanceFactor ==
      old(x.balanceFactor) - 1 - AvlRotations.Max(0, old(x.leftChild.balanceFactor))
    requires old(x.leftChild).balanceFactor ==
      old(x.leftChild.balanceFactor) - 1 + AvlRotations.Min(0, x.balanceFactor)
    requires unchanged(old(x.Repr) - {x, old(x.leftChild), x.leftChild})
    requires x.leftChild != null ==>
      && x.leftChild.parent == x
      && x.leftChild.rightChild == old(x.leftChild.rightChild.rightChild)
      && x.leftChild.leftChild == old(x.leftChild.rightChild.leftChild)
      && x.leftChild.Repr == old(x.leftChild.rightChild.Repr)
      && x.leftChild.data == old(x.leftChild.rightChild.data)
      && x.leftChild.balanceFactor == old(x.leftChild.rightChild.balanceFactor)
    requires x.parent == old(x.leftChild)
    ensures old(x.leftChild).Owns()
    ensures old(x.leftChild).Abstract() == AvlRotations.RotateRight(old(x.Abstract()))
    ensures old(x.Linked()) ==> old(x.leftChild).Linked()
  {
    RotatedRightLower(x);
    var r := old(x.leftChild);
    var c := r.leftChild;
    assert old(r.Owns());
    assert c != null ==> x !in old(c.Repr) && r !in old(c.Repr) && old(c.Repr) !! x.Repr;
    assert old(x.Linked()) ==> old(r.Linked()) && (c != null ==> old(c.parent) == r && old(c.Linked()));
    Kept(c);
  }

  /** The child-side predicates, against each other and against the tree
      the node roots: a leaf has neither child and reads as a one-node
      tree; a node has some child exactly when it is not a leaf; a node
      with both children has both subtrees non-empty. */
  lemma ChildPredicates<K, V>(n: TreeNode<K, V>)
    requires n.Owns()
    ensures n.IsLeaf() <==> n.HasLeftChild() == null && n.HasRightChild() == null
    ensures n.HasAnyChildren() <==> !n.IsLeaf()
    ensures n.HasBothChildren() <==> n.HasLeftChild() != null && n.HasRightChild() != null
    ensures n.IsLeaf() <==> AvlRotations.Size(n.Abstract()) == 1
    ensures n.HasBothChildren() <==> n.Abstract().left.Node? && n.Abstract().right.Node?
  {
    var t := n.Abstract();
    assert AvlRotations.Size(t) == AvlRotations.Size(t.left) + 1 + AvlRotations.Size(t.right);
    if t.left.Node? {
      assert AvlRotations.Size(t.left) > 0;
    }
    if t.right.Node? {
      assert AvlRotations.Size(t.right) > 0;
    }
  }

  /** The parent-side predicates: a root is neither a left nor a right
      child, and no node is both children of a parent that owns its
      subtree. */
  lemma ParentPredicates<K, V>(n: TreeNode<K, V>)
    ensures n.IsRoot() ==> !n.IsLeftChild() && !n.IsRightChild()
    ensures n.parent != null && n.parent.Owns() ==> !(n.IsLeftChild() && n.IsRightChild())
  {
    if n.parent != null && n.parent.Owns() && n.IsLeftChild() {
      assert n.Owns() && n in n.Repr;
      assert n.parent.rightChild != n;
    }
  }

  /** In a subtree whose parent links are consistent, each child knows its
      side: the left child is a left child and not a right child, the right
      child the reverse, neither is a root, and neither subtree contains the
      node that holds it, so either child may be rotated. */
  lemma ChildrenKnowTheirSide<K, V>(t: TreeNode<K, V>)
    requires t.Owns() && t.Linked()
    ensures t.leftChild != null ==>
      t.leftChild.IsLeftChild() && !t.leftChild.IsRightChild() && !t.leftChild.IsRoot()
      && t !in t.leftChild.Repr
    ensures t.rightChild != null ==>
      t.rightChild.IsRightChild() && !t.rightChild.IsLeftChild() && !t.rightChild.IsRoot()
      && t !in t.rightChild.Repr
  {
    if t.leftChild != null && t.rightChild != null {
      assert t.leftChild.Owns() && t.leftChild in t.leftChild.Repr;
      assert t.leftChild != t.rightChild;
    }
  }
}
