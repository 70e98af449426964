/** Subtrees of an AVL-G tree as values: the node record, the structural measures
    `heightHelp` and `balance`, the invariants, and the two rotations. */
module Subtree {

  /** A subtree: absent (the source's `null` child) or a node owning its two children. */
  datatype Tree = Nil | Node(key: int, left: Tree, right: Tree)

  function Max(a: int, b: int): int
  {
    if a >= b then a else b
  }

  /** The keys stored in a subtree. */
  ghost function Keys(t: Tree): set<int>
  {
    match t
    case Nil => {}
    case Node(k, l, r) => Keys(l) + {k} + Keys(r)
  }

  /** The number of nodes of a subtree. */
  ghost function Size(t: Tree): nat
  {
    match t
    case Nil => 0
    case Node(_, l, r) => Size(l) + 1 + Size(r)
  }

  /** The keys of a subtree read in order: one entry per node, exactly the stored keys. */
  ghost function Inorder(t: Tree): (s: seq<int>)
    ensures |s| == Size(t)
    ensures forall x :: x in s <==> x in Keys(t)
  {
    match t
    case Nil => []
    case Node(k, l, r) => Inorder(l) + [k] + Inorder(r)
  }

  /** `heightHelp`: -1 for an absent subtree, 0 for a leaf, one more than the taller child
      otherwise. The body keeps the source's four cases; `HeightOfNode` states the single
      recursive equation they amount to. */
  function Height(t: Tree): (h: int)
    ensures h >= -1
  {
    if t.Nil? then -1
    else if t.left.Node? && t.right.Node? then 1 + Max(Height(t.left), Height(t.right))
    else if t.left.Node? && t.right.Nil? then 1 + Height(t.left)
    else if t.left.Nil? && t.right.Node? then 1 + Height(t.right)
    else 0
  }

  /** The four cases of `heightHelp` are one equation: a node is one taller than its
      taller child, where an absent child counts as -1. */
  lemma HeightOfNode(t: Tree)
    requires t.Node?
    ensures Height(t) == 1 + Max(Height(t.left), Height(t.right))
  {
  }

  /** `balance`: left height minus right height, 0 for an absent subtree. A left-heavy
      node has a left child and a right-heavy node a right child, which is what the
      rotations rely on. */
  function Balance(t: Tree): (b: int)
    ensures b > 0 ==> t.Node? && t.left.Node?
    ensures b < 0 ==> t.Node? && t.right.Node?
  {
    if t.Nil? then 0 else Height(t.left) - Height(t.right)
  }

  /** The BST property as the source documents it: left keys are smaller than the node,
      right keys are greater or equal (the right subtree is the home of ties). */
  ghost predicate Bst(t: Tree)
  {
    match t
    case Nil => true
    case Node(k, l, r) =>
      (forall x :: x in Keys(l) ==> x < k) &&
      (forall x :: x in Keys(r) ==> x >= k) &&
      Bst(l) && Bst(r)
  }

  /** The BST property without ties: what a tree into which no duplicate is ever
      inserted keeps. */
  ghost predicate Ordered(t: Tree)
  {
    match t
    case Nil => true
    case Node(k, l, r) =>
      (forall x :: x in Keys(l) ==> x < k) &&
      (forall x :: x in Keys(r) ==> x > k) &&
      Ordered(l) && Ordered(r)
  }

  /** The AVL-G condition: at every node the two child heights differ by at most G. */
  ghost predicate Balanced(t: Tree, G: int)
  {
    match t
    case Nil => true
    case Node(_, l, r) =>
      -G <= Height(l) - Height(r) <= G && Balanced(l, G) && Balanced(r, G)
  }

  /** `rightRotate`: an absent subtree is returned as it is; otherwise the left child
      (which must exist) becomes the root and the old root its right child. The in-order
      sequence, hence the keys and both search-tree properties, are kept. */
  function RightRotate(t: Tree): (r: Tree)
    requires t.Node? ==> t.left.Node?
    ensures t.Nil? ==> r.Nil?
    ensures t.Node? ==> r.Node? && r.key == t.left.key && r.right.Node? && r.right.key == t.key
    ensures Inorder(r) == Inorder(t)
    ensures Keys(r) == Keys(t)
    ensures Bst(t) ==> Bst(r)
    ensures Ordered(t) ==> Ordered(r)
  {
    if t.Nil? then t
    else
      RightRotationOrder(t.key, t.left.key, t.left.left, t.left.right, t.right);
      Node(t.left.key, t.left.left, Node(t.key, t.left.right, t.right))
  }

  /** `leftRotate`: the mirror image of `RightRotate`; the right child must exist. */
  function LeftRotate(t: Tree): (r: Tree)
    requires t.Node? ==> t.right.Node?
    ensures t.Nil? ==> r.Nil?
    ensures t.Node? ==> r.Node? && r.key == t.right.key && r.left.Node? && r.left.key == t.key
    ensures Inorder(r) == Inorder(t)
    ensures Keys(r) == Keys(t)
    ensures Ordered(t) ==> Ordered(r)
  {
    if t.Nil? then t
    else
      LeftRotationOrder(t.key, t.right.key, t.left, t.right.left, t.right.right);
      Node(t.right.key, Node(t.key, t.left, t.right.left), t.right.right)
  }

  /** The order facts behind `RightRotate`: Node(k, Node(lk, a, b), c) against
      Node(lk, a, Node(k, b, c)). */
  lemma RightRotationOrder(k: int, lk: int, a: Tree, b: Tree, c: Tree)
    ensures Bst(Node(k, Node(lk, a, b), c)) ==> Bst(Node(lk, a, Node(k, b, c)))
    ensures Ordered(Node(k, Node(lk, a, b), c)) ==> Ordered(Node(lk, a, Node(k, b, c)))
  {
    var l, r := Node(lk, a, b), Node(k, b, c);
    assert Keys(l) == Keys(a) + {lk} + Keys(b);
    assert Keys(r) == Keys(b) + {k} + Keys(c);
    if Bst(Node(k, l, c)) {
      assert Bst(l) && Bst(a) && Bst(b) && Bst(c);
      assert lk < k;
      assert Bst(r);
      assert forall x :: x in Keys(r) ==> x >= lk;
    }
    if Ordered(Node(k, l, c)) {
      assert Ordered(l) && Ordered(a) && Ordered(b) && Ordered(c);
      assert lk < k;
      assert Ordered(r);
      assert forall x :: x in Keys(r) ==> x > lk;
    }
  }

  /** The order facts behind `LeftRotate`: Node(k, a, Node(rk, b, c)) against
      Node(rk, Node(k, a, b), c). */
  lemma LeftRotationOrder(k: int, rk: int, a: Tree, b: Tree, c: Tree)
    ensures Ordered(Node(k, a, Node(rk, b, c))) ==> Ordered(Node(rk, Node(k, a, b), c))
  {
    var r, l := Node(rk, b, c), Node(k, a, b);
    assert Keys(r) == Keys(b) + {rk} + Keys(c);
    assert Keys(l) == Keys(a) + {k} + Keys(b);
    if Ordered(Node(k, a, r)) {
      assert Ordered(r) && Ordered(a) && Ordered(b) && Ordered(c);
      assert k < rk;
      assert Ordered(l);
      assert forall x :: x in Keys(l) ==> x < rk;
    }
  }

  /** A tree without ties satisfies the documented BST property. */
  lemma {:induction false} OrderedIsBst(t: Tree)
    ensures Ordered(t) ==> Bst(t)
  {
    if t.Node? {
      OrderedIsBst(t.left);
      OrderedIsBst(t.right);
    }
  }

  /** In a tree without ties every node holds a different key, so the node count is the
      number of keys. */
  lemma {:induction false} OrderedSize(t: Tree)
    requires Ordered(t)
    ensures |Keys(t)| == Size(t)
  {
    if t.Node? {
      OrderedSize(t.left);
      OrderedSize(t.right);
      var kl, kr := Keys(t.left), Keys(t.right);
      assert t.key !in kl && t.key !in kr;
      assert kl * kr == {} by {
        forall x | x in kl ensures x !in kr { }
      }
      assert |kl + {t.key}| == |kl| + 1;
      assert (kl + {t.key}) * kr == {};
    }
  }
}
