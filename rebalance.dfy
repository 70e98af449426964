/** The two rotation choices of the source: after an insertion the rotation kind is chosen
    by comparing the inserted key with the heavy child's key; after a deletion it is chosen
    by the sign of the heavy child's own balance. */
module Rebalance {
  import opened Subtree

  /** What the insertion choice needs so that its double rotations never meet an absent
      child: when it turns the heavy child, that child has the grandchild to lift. */
  ghost predicate InsertRotatable(key: int, t: Tree, G: int)
    requires G >= 1 && t.Node?
  {
    (Balance(t) > G && key > t.left.key ==> t.left.right.Node?) &&
    (Balance(t) < -G && key < t.right.key ==> t.right.left.Node?)
  }

  /** The tail of `insertHelper` (AVLGTree.java:139-161) applied to the rebuilt node `t`:
      the four rotation cases, tried in the source's order. */
  function InsertRebalance(key: int, t: Tree, G: int): (r: Tree)
    requires G >= 1 && t.Node?
    requires InsertRotatable(key, t, G)
    ensures r.Node?
    ensures Inorder(r) == Inorder(t) && Keys(r) == Keys(t)
    ensures Ordered(t) ==> Ordered(r)
  {
    var b := Balance(t);
    if b > G && key < t.left.key then
      RightRotate(t)
    else if b < -G && key > t.right.key then
      LeftRotate(t)
    else if b > G && key > t.left.key then
      RightRotate(Node(t.key, LeftRotate(t.left), t.right))
    else if b < -G && key < t.right.key then
      LeftRotate(Node(t.key, t.left, RightRotate(t.right)))
    else
      t
  }

  /** The tail of `deleteHelp` (AVLGTree.java:360-386) applied to the rebuilt node `t`. */
  function DeleteRebalance(t: Tree, G: int): (r: Tree)
    requires G >= 1 && t.Node?
    ensures r.Node?
    ensures Inorder(r) == Inorder(t) && Keys(r) == Keys(t)
    ensures Ordered(t) ==> Ordered(r)
  {
    var b := Balance(t);
    if b > G && Balance(t.left) >= 0 then
      RightRotate(t)
    else if b > G && Balance(t.left) < 0 then
      RightRotate(Node(t.key, LeftRotate(t.left), t.right))
    else if b < -G && Balance(t.right) <= 0 then
      LeftRotate(t)
    else if b < -G && Balance(t.right) > 0 then
      LeftRotate(Node(t.key, t.left, RightRotate(t.right)))
    else
      t
  }

  /** The two rotation choices agree whenever the key comparison points to the grandchild
      that makes the heavy child lean: the same way for a single rotation, the other way
      for a double one. */
  lemma InsertChoiceAgrees(key: int, t: Tree, G: int)
    requires G >= 1 && t.Node? && InsertRotatable(key, t, G)
    requires Balance(t) > G ==>
      (key < t.left.key && Balance(t.left) > 0) || (key > t.left.key && Balance(t.left) < 0)
    requires Balance(t) < -G ==>
      (key > t.right.key && Balance(t.right) < 0) || (key < t.right.key && Balance(t.right) > 0)
    ensures InsertRebalance(key, t, G) == DeleteRebalance(t, G)
  {
  }

  /** The rotation step of an AVL-G tree is sound for every G >= 1: a node whose two
      balanced children differ in height by at most G + 1 comes out balanced; its height is
      between the taller child's and one more; a node that was already within G is left
      alone; and a rotation whose heavy child leans further the same way, or the other way,
      gives exactly the taller child's height. */
  lemma DeleteRebalanceBalanced(t: Tree, G: int)
    requires G >= 1 && t.Node?
    requires Balanced(t.left, G) && Balanced(t.right, G)
    requires -(G + 1) <= Balance(t) <= G + 1
    ensures var r, m := DeleteRebalance(t, G), Max(Height(t.left), Height(t.right));
      Balanced(r, G) && m <= Height(r) <= m + 1 &&
      (-G <= Balance(t) <= G ==> r == t) &&
      (Balance(t) > G && Balance(t.left) != 0 ==> Height(r) == m) &&
      (Balance(t) < -G && Balance(t.right) != 0 ==> Height(r) == m)
  {
    var k, l, rt := t.key, t.left, t.right;
    var b := Balance(t);
    if b > G {
      assert Height(l) == Height(rt) + G + 1;
      if Balance(l) >= 0 {
        assert DeleteRebalance(t, G) == Node(l.key, l.left, Node(k, l.right, rt));
        SingleRightBalanced(k, l.key, l.left, l.right, rt, G);
      } else {
        var c := l.right;
        assert DeleteRebalance(t, G) == Node(c.key, Node(l.key, l.left, c.left), Node(k, c.right, rt));
        DoubleRightBalanced(k, l.key, c.key, l.left, c.left, c.right, rt, G);
      }
    } else if b < -G {
      assert Height(rt) == Height(l) + G + 1;
      if Balance(rt) <= 0 {
        assert DeleteRebalance(t, G) == Node(rt.key, Node(k, l, rt.left), rt.right);
        SingleLeftBalanced(k, rt.key, l, rt.left, rt.right, G);
      } else {
        var c := rt.left;
        assert DeleteRebalance(t, G) == Node(c.key, Node(k, l, c.left), Node(rt.key, c.right, rt.right));
        DoubleLeftBalanced(k, rt.key, c.key, l, c.left, c.right, rt.right, G);
      }
    }
  }

  /** Single right rotation of a node too heavy on the left by exactly G + 1, whose left
      child does not lean right: Node(k, Node(lk, a, b), c) becomes Node(lk, a, Node(k, b, c)). */
  lemma SingleRightBalanced(k: int, lk: int, a: Tree, b: Tree, c: Tree, G: int)
    requires G >= 1
    requires Balanced(Node(lk, a, b), G) && Balanced(c, G)
    requires Height(a) >= Height(b)
    requires Height(Node(lk, a, b)) == Height(c) + G + 1
    ensures var r, m := Node(lk, a, Node(k, b, c)), Height(Node(lk, a, b));
      Balanced(r, G) && m <= Height(r) <= m + 1 && (Height(a) > Height(b) ==> Height(r) == m)
  {
    var inner := Node(k, b, c);
    assert Height(inner) == 1 + Height(b);
    assert Balanced(inner, G);
  }

  /** The mirror image: Node(k, a, Node(rk, b, c)) becomes Node(rk, Node(k, a, b), c). */
  lemma SingleLeftBalanced(k: int, rk: int, a: Tree, b: Tree, c: Tree, G: int)
    requires G >= 1
    requires Balanced(Node(rk, b, c), G) && Balanced(a, G)
    requires Height(c) >= Height(b)
    requires Height(Node(rk, b, c)) == Height(a) + G + 1
    ensures var r, m := Node(rk, Node(k, a, b), c), Height(Node(rk, b, c));
      Balanced(r, G) && m <= Height(r) <= m + 1 && (Height(c) > Height(b) ==> Height(r) == m)
  {
    var inner := Node(k, a, b);
    assert Height(inner) == 1 + Height(b);
    assert Balanced(inner, G);
  }

  /** Double rotation of a node too heavy on the left by exactly G + 1, whose left child
      leans right: Node(k, Node(lk, a, Node(ck, b, c)), d) becomes
      Node(ck, Node(lk, a, b), Node(k, c, d)), always of the left child's height. */
  lemma DoubleRightBalanced(k: int, lk: int, ck: int, a: Tree, b: Tree, c: Tree, d: Tree, G: int)
    requires G >= 1
    requires Balanced(Node(lk, a, Node(ck, b, c)), G) && Balanced(d, G)
    requires Height(a) < Height(Node(ck, b, c))
    requires Height(Node(lk, a, Node(ck, b, c))) == Height(d) + G + 1
    ensures var r := Node(ck, Node(lk, a, b), Node(k, c, d));
      Balanced(r, G) && Height(r) == Height(Node(lk, a, Node(ck, b, c)))
  {
    var hm := Height(Node(ck, b, c));
    assert hm == Height(d) + G;
    assert Height(b) >= Height(d) - 1 && Height(c) >= Height(d) - 1;
    assert Balanced(Node(lk, a, b), G);
    assert Balanced(Node(k, c, d), G);
  }

  /** The mirror image: Node(k, a, Node(rk, Node(ck, b, c), d)) becomes
      Node(ck, Node(k, a, b), Node(rk, c, d)). */
  lemma DoubleLeftBalanced(k: int, rk: int, ck: int, a: Tree, b: Tree, c: Tree, d: Tree, G: int)
    requires G >= 1
    requires Balanced(Node(rk, Node(ck, b, c), d), G) && Balanced(a, G)
    requires Height(d) < Height(Node(ck, b, c))
    requires Height(Node(rk, Node(ck, b, c), d)) == Height(a) + G + 1
    ensures var r := Node(ck, Node(k, a, b), Node(rk, c, d));
      Balanced(r, G) && Height(r) == Height(Node(rk, Node(ck, b, c), d))
  {
    var hm := Height(Node(ck, b, c));
    assert hm == Height(a) + G;
    assert Height(b) >= Height(a) - 1 && Height(c) >= Height(a) - 1;
    assert Balanced(Node(k, a, b), G);
    assert Balanced(Node(rk, c, d), G);
  }
}
