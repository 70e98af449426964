/** Insertion below the root (`insertHelper`): descend right on `>=`, add a leaf, and
    rebalance each node on the way back up. */
module Insertion {
  import opened Subtree
  import opened Rebalance

  /** `r` is `t` with `key` added: a non-empty tree without ties holding the old keys and
      `key`, balanced for G, as tall as `t` or one taller, and it grew only if no rotation
      happened at its root (the root key stays, and the side `key` did not go to is the old
      one). The last clause is what the parent's rotation choice relies on. */
  ghost predicate InsertSpec(key: int, t: Tree, r: Tree, G: int)
  {
    r.Node? && Ordered(r) && Keys(r) == Keys(t) + {key} && Balanced(r, G) &&
    Height(t) <= Height(r) <= Height(t) + 1 &&
    (t.Node? && Height(r) == Height(t) + 1 ==>
       r.key == t.key &&
       (key < t.key ==> r.right == t.right) &&
       (key > t.key ==> r.left == t.left))
  }

  /** `insertHelper`. The source calls it on the root of a valid tree with a key that is
      not yet stored; in that case its key-comparison rotation choice never meets an
      absent child, and the result is `InsertSpec`. */
  function InsertHelper(key: int, t: Tree, G: int): (r: Tree)
    requires G >= 1 && Ordered(t) && Balanced(t, G) && key !in Keys(t)
    ensures InsertSpec(key, t, r, G)
    decreases t
  {
    match t
    case Nil => Node(key, Nil, Nil)
    case Node(k, l, rt) =>
      if key >= k then
        var rt' := InsertHelper(key, rt, G);
        InsertRightStep(key, k, l, rt, rt', G);
        InsertRebalance(key, Node(k, l, rt'), G)
      else
        var l' := InsertHelper(key, l, G);
        InsertLeftStep(key, k, l, rt, l', G);
        InsertRebalance(key, Node(k, l', rt), G)
  }

  /** One step back up after inserting into the left subtree: if the node is now too heavy
      on the left, its left child grew without a rotation at its root, and the key
      comparison picks the same rotation as the sign of the left child's balance would. */
  lemma InsertLeftStep(key: int, k: int, l: Tree, rt: Tree, l': Tree, G: int)
    requires G >= 1 && key < k
    requires Ordered(Node(k, l, rt)) && Balanced(Node(k, l, rt), G)
    requires key !in Keys(Node(k, l, rt))
    requires InsertSpec(key, l, l', G)
    ensures InsertRotatable(key, Node(k, l', rt), G)
    ensures InsertSpec(key, Node(k, l, rt), InsertRebalance(key, Node(k, l', rt), G), G)
  {
    var t, t1 := Node(k, l, rt), Node(k, l', rt);
    assert Ordered(t1);
    assert Keys(t1) == Keys(t) + {key};
    HeightOfNode(t);
    HeightOfNode(t1);
    if Balance(t1) > G {
      GrewUnrotated(key, l, l', Height(l) - Height(rt), G);
      InsertLeftHeavy(key, k, l, rt, l', G);
      DeleteRebalanceBalanced(t1, G);
    } else {
      assert InsertRebalance(key, t1, G) == t1;
    }
  }

  /** The rotation case of `InsertLeftStep`: the left child `l'` is `l` grown by one
      without a rotation at its root, so the key went to the grandchild that now makes it
      lean. */
  lemma InsertLeftHeavy(key: int, k: int, l: Tree, rt: Tree, l': Tree, G: int)
    requires G >= 1
    requires l.Node? && l'.Node? && l'.key == l.key && Height(l') == Height(l) + 1
    requires key < l.key ==> l'.right == l.right
    requires key > l.key ==> l'.left == l.left
    requires key != l.key && key in Keys(l') && Ordered(l')
    requires Balance(Node(k, l', rt)) > G
    ensures var t1 := Node(k, l', rt);
      Balance(l') != 0 && InsertRotatable(key, t1, G) &&
      InsertRebalance(key, t1, G) == DeleteRebalance(t1, G)
  {
    var t1 := Node(k, l', rt);
    HeightOfNode(l);
    HeightOfNode(l');
    if key > l.key {
      assert key in Keys(l'.right);
    }
    InsertChoiceAgrees(key, t1, G);
  }

  /** A child whose growth after insertion breaks its parent's balance grew by one without
      a rotation at its root; `d` is the parent's balance before the insertion. */
  lemma GrewUnrotated(key: int, c: Tree, c': Tree, d: int, G: int)
    requires G >= 1 && d <= G && Height(c) - d >= -1
    requires InsertSpec(key, c, c', G)
    requires Height(c') - Height(c) + d > G
    ensures Height(c') == Height(c) + 1 && d == G && c.Node? && c'.key == c.key
  {
  }

  /** The mirror image of `InsertLeftStep` for inserting into the right subtree. */
  lemma InsertRightStep(key: int, k: int, l: Tree, rt: Tree, rt': Tree, G: int)
    requires G >= 1 && key >= k
    requires Ordered(Node(k, l, rt)) && Balanced(Node(k, l, rt), G)
    requires key !in Keys(Node(k, l, rt))
    requires InsertSpec(key, rt, rt', G)
    ensures InsertRotatable(key, Node(k, l, rt'), G)
    ensures InsertSpec(key, Node(k, l, rt), InsertRebalance(key, Node(k, l, rt'), G), G)
  {
    var t, t1 := Node(k, l, rt), Node(k, l, rt');
    assert key > k;
    assert Ordered(t1);
    assert Keys(t1) == Keys(t) + {key};
    HeightOfNode(t);
    HeightOfNode(t1);
    if Balance(t1) < -G {
      GrewUnrotated(key, rt, rt', Height(rt) - Height(l), G);
      InsertRightHeavy(key, k, l, rt, rt', G);
      DeleteRebalanceBalanced(t1, G);
    } else {
      assert InsertRebalance(key, t1, G) == t1;
    }
  }

  /** The rotation case of `InsertRightStep`, the mirror image of `InsertLeftHeavy`. */
  lemma InsertRightHeavy(key: int, k: int, l: Tree, rt: Tree, rt': Tree, G: int)
    requires G >= 1
    requires rt.Node? && rt'.Node? && rt'.key == rt.key && Height(rt') == Height(rt) + 1
    requires key < rt.key ==> rt'.right == rt.right
    requires key > rt.key ==> rt'.left == rt.left
    requires key != rt.key && key in Keys(rt') && Ordered(rt')
    requires Balance(Node(k, l, rt')) < -G
    ensures var t1 := Node(k, l, rt');
      Balance(rt') != 0 && InsertRotatable(key, t1, G) &&
      InsertRebalance(key, t1, G) == DeleteRebalance(t1, G)
  {
    var t1 := Node(k, l, rt');
    HeightOfNode(rt);
    HeightOfNode(rt');
    if key < rt.key {
      assert key in Keys(rt'.left);
    }
    InsertChoiceAgrees(key, t1, G);
  }

  /** Insertion adds exactly one node. */
  lemma InsertSize(key: int, t: Tree, G: int)
    requires G >= 1 && Ordered(t) && Balanced(t, G) && key !in Keys(t)
    ensures Size(InsertHelper(key, t, G)) == Size(t) + 1
  {
    var r := InsertHelper(key, t, G);
    OrderedSize(t);
    OrderedSize(r);
  }
}
