/**
 * The rotations of zakozhurnikova::detail::TreeNode on an abstract binary
 * tree: every node carries its data and the balance factor the node stores.
 * The balance factor the rotations maintain is height(left) - height(right);
 * under that convention the incremental updates of both rotations are exact.
 */
module AvlRotations {

  datatype Tree<D> = Leaf | Node(left: Tree<D>, data: D, right: Tree<D>, bf: int)

  function Max(a: int, b: int): int { if a < b then b else a }

  function Min(a: int, b: int): int { if a < b then a else b }

  function Height<D>(t: Tree<D>): nat
  {
    match t
    case Leaf => 0
    case Node(l, _, r, _) => 1 + Max(Height(l), Height(r))
  }

  /** The data of the tree in order: left subtree, node, right subtree. */
  function InOrder<D>(t: Tree<D>): seq<D>
  {
    match t
    case Leaf => []
    case Node(l, d, r, _) => InOrder(l) + [d] + InOrder(r)
  }

  /** The number of nodes of the tree. */
  function Size<D>(t: Tree<D>): nat
  {
    match t
    case Leaf => 0
    case Node(l, _, r, _) => Size(l) + 1 + Size(r)
  }

  /** Every node stores height(left) - height(right). */
  ghost predicate ExactBf<D>(t: Tree<D>)
  {
    match t
    case Leaf => true
    case Node(l, _, r, bf) => bf == Height(l) - Height(r) && ExactBf(l) && ExactBf(r)
  }

  /** Every node is AVL-balanced: its subtree heights differ by at most one. */
  ghost predicate Balanced<D>(t: Tree<D>)
  {
    match t
    case Leaf => true
    case Node(l, _, r, _) => -1 <= Height(l) - Height(r) <= 1 && Balanced(l) && Balanced(r)
  }

  /** rotateLeft(): the right child `y` becomes the root of the subtree, the
      old root `x` its left child, and the left subtree of `y` the right
      subtree of `x`; then x's factor and, from it, y's are updated. */
  function RotateLeft<D>(t: Tree<D>): (r: Tree<D>)
    requires t.Node? && t.right.Node?
    ensures r.Node? && r.left.Node?
    ensures InOrder(r) == InOrder(t) && Size(r) == Size(t)
  {
    var Node(a, x, Node(b, y, c, bfY), bfX) := t;
    var bfX' := bfX + 1 - Min(bfY, 0);
    var bfY' := bfY + 1 + Max(bfX', 0);
    var r := Node(Node(a, x, b, bfX'), y, c, bfY');
    assert InOrder(r) == InOrder(a) + [x] + InOrder(b) + [y] + InOrder(c);
    r
  }

  /** rotateRight(): the mirror image of rotateLeft(). */
  function RotateRight<D>(t: Tree<D>): (r: Tree<D>)
    requires t.Node? && t.left.Node?
    ensures r.Node? && r.right.Node?
    ensures InOrder(r) == InOrder(t) && Size(r) == Size(t)
  {
    var Node(Node(a, y, b, bfY), x, c, bfX) := t;
    var bfX' := bfX - 1 - Max(0, bfY);
    var bfY' := bfY - 1 + Min(0, bfX');
    var r := Node(a, y, Node(b, x, c, bfX'), bfY');
    assert InOrder(t) == InOrder(a) + [y] + InOrder(b) + [x] + InOrder(c);
    r
  }

  /** The factor of the node at the root of `t` is height(left) - height(right). */
  ghost predicate RootExact<D>(t: Tree<D>)
    requires t.Node?
  {
    t.bf == Height(t.left) - Height(t.right)
  }

  /** Under the height(left) - height(right) convention, rotateLeft's
      incremental updates give both moved nodes their exact factors as soon
      as these two nodes had exact factors before; no other factor is read. */
  lemma RotateLeftFactors<D>(t: Tree<D>)
    requires t.Node? && t.right.Node? && RootExact(t) && RootExact(t.right)
    ensures RootExact(RotateLeft(t)) && RootExact(RotateLeft(t).left)
  {
    var Node(a, x, Node(b, y, c, bfY), bfX) := t;
    var ha: int, hb: int, hc: int := Height(a), Height(b), Height(c);
    assert bfY == hb - hc;
    assert bfX == ha - 1 - Max(hb, hc);
    var bfX' := bfX + 1 - Min(bfY, 0);
    assert bfX' == ha - hb;
    assert bfY + 1 + Max(bfX', 0) == 1 + Max(ha, hb) - hc;
  }

  /** The same for rotateRight. */
  lemma RotateRightFactors<D>(t: Tree<D>)
    requires t.Node? && t.left.Node? && RootExact(t) && RootExact(t.left)
    ensures RootExact(RotateRight(t)) && RootExact(RotateRight(t).right)
  {
    var Node(Node(a, y, b, bfY), x, c, bfX) := t;
    var ha: int, hb: int, hc: int := Height(a), Height(b), Height(c);
    assert bfY == ha - hb;
    assert bfX == 1 + Max(ha, hb) - hc;
    var bfX' := bfX - 1 - Max(0, bfY);
    assert bfX' == hb - hc;
    assert bfY - 1 + Min(0, bfX') == ha - 1 - Max(hb, hc);
  }

  /** Consequently a tree whose every factor is exact keeps that property
      under rotateLeft: the three subtrees that move are not changed. */
  lemma RotateLeftExact<D>(t: Tree<D>)
    requires t.Node? && t.right.Node? && ExactBf(t)
    ensures ExactBf(RotateLeft(t))
  {
    RotateLeftFactors(t);
  }

  /** The same for rotateRight. */
  lemma RotateRightExact<D>(t: Tree<D>)
    requires t.Node? && t.left.Node? && ExactBf(t)
    ensures ExactBf(RotateRight(t))
  {
    RotateRightFactors(t);
  }

  /** The two rotations undo each other, factors included, whatever the
      stored factors are. */
  lemma RotateRightLeft<D>(t: Tree<D>)
    requires t.Node? && t.right.Node?
    ensures RotateRight(RotateLeft(t)) == t
  {
    var Node(a, x, Node(b, y, c, bfY), bfX) := t;
    var bfX' := bfX + 1 - Min(bfY, 0);
    var bfY' := bfY + 1 + Max(bfX', 0);
    assert bfY' - 1 - Max(0, bfX') == bfY;
    assert bfX' - 1 + Min(0, bfY) == bfX;
  }

  lemma RotateLeftRight<D>(t: Tree<D>)
    requires t.Node? && t.left.Node?
    ensures RotateLeft(RotateRight(t)) == t
  {
    var Node(Node(a, y, b, bfY), x, c, bfX) := t;
    var bfX' := bfX - 1 - Max(0, bfY);
    var bfY' := bfY - 1 + Min(0, bfX');
    assert bfY' + 1 - Min(bfX', 0) == bfY;
    assert bfX' + 1 + Max(bfY, 0) == bfX;
  }

  /** rotateLeft repairs a node that is right-heavy by two whose right child
      leans right or not at all: the result is balanced, with exact factors,
      and is one level lower when the right child leaned right. */
  lemma RotateLeftRepairs<D>(t: Tree<D>)
    requires t.Node? && t.right.Node? && ExactBf(t)
    requires Balanced(t.left) && Balanced(t.right)
    requires t.bf == -2 && t.right.bf <= 0
    ensures ExactBf(RotateLeft(t)) && Balanced(RotateLeft(t))
    ensures Height(RotateLeft(t)) == Height(t) - (if t.right.bf == -1 then 1 else 0)
  {
    RotateLeftExact(t);
    var Node(a, x, Node(b, y, c, bfY), bfX) := t;
    assert Height(Node(a, x, b, bfX + 1 - Min(bfY, 0))) == 1 + Max(Height(a), Height(b));
  }

  /** rotateRight repairs a node that is left-heavy by two whose left child
      leans left or not at all. */
  lemma RotateRightRepairs<D>(t: Tree<D>)
    requires t.Node? && t.left.Node? && ExactBf(t)
    requires Balanced(t.left) && Balanced(t.right)
    requires t.bf == 2 && t.left.bf >= 0
    ensures ExactBf(RotateRight(t)) && Balanced(RotateRight(t))
    ensures Height(RotateRight(t)) == Height(t) - (if t.left.bf == 1 then 1 else 0)
  {
    RotateRightExact(t);
    var Node(Node(a, y, b, bfY), x, c, bfX) := t;
    assert Height(Node(b, x, c, bfX - 1 - Max(0, bfY))) == 1 + Max(Height(b), Height(c));
  }
}
