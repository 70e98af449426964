/** The two diagnostic checkers, `bstHelp` and `balanceHelper`, as written and as their
    documentation describes them. As written, neither checks what it is documented to
    check; the corrected versions decide exactly `Bst` and `Balanced`. */
module Checkers {
  import opened AvlgTypes
  import opened Subtree

  /** `bstHelp` as written: the result starts out true and is only ever set to false when a
      recursive call returned false, so it is true on every input. */
  function BstHelp(t: Tree): (ok: bool)
    ensures ok
    decreases t
  {
    if t.Nil? then true
    else if t.left.Node? && t.right.Node? then
      if t.left.key < t.key && t.right.key >= t.key then BstHelp(t.left) && BstHelp(t.right)
      else true
    else if t.left.Node? && t.right.Nil? then
      if t.left.key < t.key then BstHelp(t.left) else true
    else if t.left.Nil? && t.right.Node? then
      if t.right.key >= t.key then BstHelp(t.right) else true
    else true
  }

  /** A node whose left child is larger than itself passes `bstHelp`. */
  lemma BstHelpAcceptsUnordered()
    ensures var t := Node(1, Node(5, Nil, Nil), Nil);
      BstHelp(t) && !Bst(t)
  {
    var t := Node(1, Node(5, Nil, Nil), Nil);
    assert 5 in Keys(t.left);
  }

  /** `x` lies within the optional bounds: at least `lo`, below `hi`. */
  predicate Within(x: int, lo: Option<int>, hi: Option<int>)
  {
    (lo.None? || lo.value <= x) && (hi.None? || x < hi.value)
  }

  /** The search-tree check with the bounds inherited from the ancestors: a left descent
      tightens the upper bound (strictly), a right descent the lower one (ties go right). */
  function BstWithin(t: Tree, lo: Option<int>, hi: Option<int>): (ok: bool)
    ensures ok <==> Bst(t) && forall x :: x in Keys(t) ==> Within(x, lo, hi)
    decreases t
  {
    match t
    case Nil => true
    case Node(k, l, r) =>
      BstWithinStep(k, l, r, lo, hi);
      Within(k, lo, hi) && BstWithin(l, lo, Some(k)) && BstWithin(r, Some(k), hi)
  }

  /** One node of `BstWithin`: the bounds at a node and the bounds it passes to its
      children say together what the bounds at the node say about the whole subtree. */
  lemma BstWithinStep(k: int, l: Tree, r: Tree, lo: Option<int>, hi: Option<int>)
    ensures (Within(k, lo, hi) &&
             (Bst(l) && forall x :: x in Keys(l) ==> Within(x, lo, Some(k))) &&
             (Bst(r) && forall x :: x in Keys(r) ==> Within(x, Some(k), hi)))
        <==> (Bst(Node(k, l, r)) && forall x :: x in Keys(Node(k, l, r)) ==> Within(x, lo, hi))
  {
    var t := Node(k, l, r);
    assert Keys(t) == Keys(l) + {k} + Keys(r);
    if Bst(t) && forall x :: x in Keys(t) ==> Within(x, lo, hi) {
      assert Within(k, lo, hi);
      assert forall x :: x in Keys(l) ==> Within(x, lo, Some(k));
      assert forall x :: x in Keys(r) ==> Within(x, Some(k), hi);
    }
    if Within(k, lo, hi) &&
       (Bst(l) && forall x :: x in Keys(l) ==> Within(x, lo, Some(k))) &&
       (Bst(r) && forall x :: x in Keys(r) ==> Within(x, Some(k), hi))
    {
      assert forall x :: x in Keys(l) ==> x < k;
      assert forall x :: x in Keys(r) ==> x >= k;
      assert Bst(t);
      forall x | x in Keys(t)
        ensures Within(x, lo, hi)
      {
        if x in Keys(l) {
          assert Within(x, lo, Some(k));
        } else if x in Keys(r) {
          assert Within(x, Some(k), hi);
        }
      }
    }
  }

  /** `bstHelp` as documented: true exactly for the trees with the search-tree property. */
  function CheckBst(t: Tree): (ok: bool)
    ensures ok <==> Bst(t)
  {
    BstWithin(t, None, None)
  }

  /** `balanceHelper` as written. It never recurses, only inspects the balance of the two
      children, only in the left-heavy direction, and skips even that when the node itself
      is left-heavy beyond G. */
  function BalanceHelper(t: Tree, G: int): bool
  {
    if t.Nil? then true
    else if t.left.Node? && t.right.Node? then
      if Balance(t) <= G then !(Balance(t.left) > G || Balance(t.right) > G) else true
    else if t.left.Node? && t.right.Nil? then
      if Balance(t) <= G then !(Balance(t.left) > G) else true
    else if t.left.Nil? && t.right.Node? then
      if Balance(t) <= G then !(Balance(t.right) > G) else true
    else true
  }

  /** What `balanceHelper` decides, for any G >= 1: a node passes when it is itself too
      heavy on the left, or when neither child is. */
  lemma BalanceHelperShallow(t: Tree, G: int)
    requires G >= 1
    ensures BalanceHelper(t, G) <==>
      t.Nil? || Balance(t) > G || (Balance(t.left) <= G && Balance(t.right) <= G)
  {
  }

  /** `balanceHelper` never rejects a balanced tree. */
  lemma BalancedPassesBalanceHelper(t: Tree, G: int)
    ensures Balanced(t, G) ==> BalanceHelper(t, G)
  {
    if t.Node? && Balanced(t, G) {
      assert Balanced(t.left, G) && Balanced(t.right, G);
      if t.left.Node? {
        assert -G <= Balance(t.left) <= G;
      }
      if t.right.Node? {
        assert -G <= Balance(t.right) <= G;
      }
    }
  }

  /** A left chain of three keys is left-heavy by 2 at its root, which `balanceHelper`
      takes as the signal to skip its test, so it passes for G = 1. */
  lemma BalanceHelperAcceptsLeftChain()
    ensures var t := Node(3, Node(2, Node(1, Nil, Nil), Nil), Nil);
      BalanceHelper(t, 1) && !Balanced(t, 1)
  {
  }

  /** A right chain of three keys is right-heavy by 2 at its root, a direction
      `balanceHelper` never tests, so it passes for G = 1. */
  lemma BalanceHelperAcceptsRightChain()
    ensures var t := Node(1, Nil, Node(2, Nil, Node(3, Nil, Nil)));
      BalanceHelper(t, 1) && !Balanced(t, 1)
  {
  }

  /** `balanceHelper` as documented, in one pass that returns the verdict together with the
      height: the verdict is exactly `Balanced` and the height is `heightHelp`'s. */
  function CheckBalanced(t: Tree, G: int): (res: (bool, int))
    ensures res.0 == Balanced(t, G) && res.1 == Height(t)
    decreases t
  {
    match t
    case Nil => (true, -1)
    case Node(_, l, r) =>
      var (bl, hl) := CheckBalanced(l, G);
      var (br, hr) := CheckBalanced(r, G);
      HeightOfNode(t);
      (bl && br && -G <= hl - hr <= G, 1 + Max(hl, hr))
  }
}
