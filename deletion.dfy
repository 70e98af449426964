/** Deletion below the root (`deleteHelp`): find the key, replace a node with at most one
    child by that child, give a node with two children the key of its in-order successor
    and delete the successor from the right subtree, then rebalance on the way back up. */
module Deletion {
  import opened Subtree
  import opened Rebalance

  /** The node `getSuccessor` stops at: the end of the chain of left links from `t`. */
  function Leftmost(t: Tree): (s: Tree)
    requires t.Node?
    ensures s.Node? && s.left.Nil? && s.key in Keys(t)
    decreases t
  {
    if t.left.Nil? then t else Leftmost(t.left)
  }

  /** In a search tree the leftmost node holds the smallest key. */
  lemma {:induction false} LeftmostIsMin(t: Tree)
    requires t.Node? && Bst(t)
    ensures forall x :: x in Keys(t) ==> Leftmost(t).key <= x
  {
    if t.left.Node? {
      LeftmostIsMin(t.left);
      assert Leftmost(t) == Leftmost(t.left);
    }
  }

  /** `getSuccessor`: walk left links until there is none. The node reached is the leftmost
      one, which holds the smallest key of a search tree. */
  method GetSuccessor(t: Tree) returns (s: Tree)
    requires t.Node?
    ensures s == Leftmost(t)
    ensures s.Node? && s.left.Nil? && s.key in Keys(t)
    ensures Bst(t) ==> forall x :: x in Keys(t) ==> s.key <= x
  {
    var curr := t;
    while curr.left.Node?
      invariant curr.Node? && Leftmost(curr) == Leftmost(t)
      decreases curr
    {
      curr := curr.left;
    }
    s := curr;
    if Bst(t) {
      LeftmostIsMin(t);
    }
  }

  /** The key a node with two children takes is its in-order successor: the smallest stored
      key greater than the node's own. */
  lemma SuccessorIsNext(t: Tree)
    requires t.Node? && t.left.Node? && t.right.Node? && Ordered(t)
    ensures var s := Leftmost(t.right).key;
      s > t.key && s in Keys(t) &&
      forall x :: x in Keys(t) && x > t.key ==> s <= x
  {
    OrderedIsBst(t.right);
    LeftmostIsMin(t.right);
  }

  /** `deleteHelp`. Every key of the result was a key of `t`. */
  function DeleteHelp(key: int, t: Tree, G: int): (r: Tree)
    requires G >= 1
    ensures Keys(r) <= Keys(t)
    decreases t
  {
    if t.Nil? then t
    else
      var t1 :=
        if key == t.key then
          if t.left.Nil? || t.right.Nil? then
            if t.left.Nil? then t.right else t.left
          else
            var s := Leftmost(t.right).key;
            Node(s, t.left, DeleteHelp(s, t.right, G))
        else if key > t.key then
          if t.right.Node? then Node(t.key, t.left, DeleteHelp(key, t.right, G)) else t
        else
          if t.left.Node? then Node(t.key, DeleteHelp(key, t.left, G), t.right) else t;
      if t1.Nil? then t1 else DeleteRebalance(t1, G)
  }

  /** On a tree without ties, deletion removes exactly `key` and keeps the order. */
  lemma {:induction false} DeleteOrdered(key: int, t: Tree, G: int)
    requires G >= 1 && Ordered(t)
    ensures var r := DeleteHelp(key, t, G);
      Ordered(r) && Keys(r) == Keys(t) - {key}
    decreases t
  {
    if t.Node? {
      var k, l, rt := t.key, t.left, t.right;
      if key == k {
        if l.Node? && rt.Node? {
          var s := Leftmost(rt).key;
          SuccessorIsNext(t);
          DeleteOrdered(s, rt, G);
          var t1 := Node(s, l, DeleteHelp(s, rt, G));
          DeleteSuccessorOrdered(k, s, l, rt, t1.right);
          assert DeleteHelp(key, t, G) == DeleteRebalance(t1, G);
        } else {
          assert k !in Keys(l) && k !in Keys(rt);
        }
      } else if key > k {
        if rt.Node? {
          DeleteOrdered(key, rt, G);
          var t1 := Node(k, l, DeleteHelp(key, rt, G));
          DeleteRightOrdered(key, k, l, rt, t1.right);
          assert DeleteHelp(key, t, G) == DeleteRebalance(t1, G);
        } else {
          assert key !in Keys(t);
        }
      } else {
        if l.Node? {
          DeleteOrdered(key, l, G);
          var t1 := Node(k, DeleteHelp(key, l, G), rt);
          DeleteLeftOrdered(key, k, l, rt, t1.left);
          assert DeleteHelp(key, t, G) == DeleteRebalance(t1, G);
        } else {
          assert key !in Keys(t);
        }
      }
    }
  }

  /** The two-child case of `DeleteOrdered`: the node Node(s, l, rt') that replaces
      Node(k, l, rt), where s is the successor of k and rt' is rt without s. */
  lemma DeleteSuccessorOrdered(k: int, s: int, l: Tree, rt: Tree, rt': Tree)
    requires Ordered(Node(k, l, rt))
    requires s > k && s in Keys(rt) && forall x :: x in Keys(rt) ==> s <= x
    requires Ordered(rt') && Keys(rt') == Keys(rt) - {s}
    ensures Ordered(Node(s, l, rt')) && Keys(Node(s, l, rt')) == Keys(Node(k, l, rt)) - {k}
  {
    assert k !in Keys(l) && k !in Keys(rt);
  }

  /** Deleting below the right child of Node(k, l, rt), for a key greater than k. */
  lemma DeleteRightOrdered(key: int, k: int, l: Tree, rt: Tree, rt': Tree)
    requires Ordered(Node(k, l, rt)) && key > k
    requires Ordered(rt') && Keys(rt') == Keys(rt) - {key}
    ensures Ordered(Node(k, l, rt')) && Keys(Node(k, l, rt')) == Keys(Node(k, l, rt)) - {key}
  {
    assert key !in Keys(l);
  }

  /** Deleting below the left child of Node(k, l, rt), for a key smaller than k. */
  lemma DeleteLeftOrdered(key: int, k: int, l: Tree, rt: Tree, l': Tree)
    requires Ordered(Node(k, l, rt)) && key < k
    requires Ordered(l') && Keys(l') == Keys(l) - {key}
    ensures Ordered(Node(k, l', rt)) && Keys(Node(k, l', rt)) == Keys(Node(k, l, rt)) - {key}
  {
    assert key !in Keys(rt);
  }

  /** On a balanced tree, deletion keeps the balance and lowers the height by at most one,
      whether or not `key` is present. */
  lemma {:induction false} DeleteBalanced(key: int, t: Tree, G: int)
    requires G >= 1 && Balanced(t, G)
    ensures var r := DeleteHelp(key, t, G);
      Balanced(r, G) && Height(t) - 1 <= Height(r) <= Height(t)
    decreases t
  {
    if t.Node? {
      var k, l, rt := t.key, t.left, t.right;
      HeightOfNode(t);
      if key == k && (l.Nil? || rt.Nil?) {
        var c := if l.Nil? then rt else l;
        if c.Node? {
          DeleteRebalanceBalanced(c, G);
        }
      } else if key == k {
        var s := Leftmost(rt).key;
        DeleteBalanced(s, rt, G);
        ShrunkRightBalanced(Node(s, l, rt), Node(s, l, DeleteHelp(s, rt, G)), G);
      } else if key > k {
        if rt.Node? {
          DeleteBalanced(key, rt, G);
          ShrunkRightBalanced(t, Node(k, l, DeleteHelp(key, rt, G)), G);
        } else {
          DeleteRebalanceBalanced(t, G);
        }
      } else {
        if l.Node? {
          DeleteBalanced(key, l, G);
          ShrunkLeftBalanced(t, Node(k, DeleteHelp(key, l, G), rt), G);
        } else {
          DeleteRebalanceBalanced(t, G);
        }
      }
    }
  }

  /** Rebalancing a node whose right subtree lost at most one level. */
  lemma ShrunkRightBalanced(t: Tree, t1: Tree, G: int)
    requires G >= 1 && t.Node? && t1.Node? && t1.left == t.left && Balanced(t, G)
    requires Balanced(t1.right, G)
    requires Height(t.right) - 1 <= Height(t1.right) <= Height(t.right)
    ensures var r := DeleteRebalance(t1, G);
      Balanced(r, G) && Height(t) - 1 <= Height(r) <= Height(t)
  {
    HeightOfNode(t);
    HeightOfNode(t1);
    DeleteRebalanceBalanced(t1, G);
  }

  /** Rebalancing a node whose left subtree lost at most one level. */
  lemma ShrunkLeftBalanced(t: Tree, t1: Tree, G: int)
    requires G >= 1 && t.Node? && t1.Node? && t1.right == t.right && Balanced(t, G)
    requires Balanced(t1.left, G)
    requires Height(t.left) - 1 <= Height(t1.left) <= Height(t.left)
    ensures var r := DeleteRebalance(t1, G);
      Balanced(r, G) && Height(t) - 1 <= Height(r) <= Height(t)
  {
    HeightOfNode(t);
    HeightOfNode(t1);
    DeleteRebalanceBalanced(t1, G);
  }

  /** Deleting a key that is not stored gives back a balanced tree unchanged. */
  lemma {:induction false} DeleteAbsent(key: int, t: Tree, G: int)
    requires G >= 1 && Balanced(t, G) && key !in Keys(t)
    ensures DeleteHelp(key, t, G) == t
    decreases t
  {
    if t.Node? {
      if key > t.key && t.right.Node? {
        DeleteAbsent(key, t.right, G);
      } else if key < t.key && t.left.Node? {
        DeleteAbsent(key, t.left, G);
      }
      DeleteRebalanceBalanced(t, G);
    }
  }

  /** Deleting a stored key from a tree without ties removes exactly one node. */
  lemma DeleteSize(key: int, t: Tree, G: int)
    requires G >= 1 && Ordered(t) && key in Keys(t)
    ensures Size(DeleteHelp(key, t, G)) == Size(t) - 1
  {
    var r := DeleteHelp(key, t, G);
    DeleteOrdered(key, t, G);
    OrderedSize(t);
    OrderedSize(r);
  }
}
