/** The AVL-G tree object: a search tree without duplicates in which the heights of the two
    children of every node differ by at most the tolerance G given at construction
    (G = 1 is the classic AVL tree). The public operations update the root and the count in
    place; the work below the root is done by the subtree functions. */
module Avlg {
  import opened AvlgTypes
  import opened Subtree
  import opened Rebalance
  import opened Insertion
  import opened Deletion
  import opened Lookup
  import opened Checkers

  class AVLGTree {
    /** The root subtree; `Nil` stands for the source's empty sentinel node. */
    var root: Tree
    /** The number of stored keys. */
    var treeSize: int
    /** The tolerance G, fixed at construction. */
    const maxImbalance: int

    /** The object invariant every public operation keeps: the count is the number of
        nodes, the keys are ordered without ties and every node is within G. */
    ghost predicate Valid()
      reads this
    {
      maxImbalance >= 1 && treeSize == Size(root) && Ordered(root) && Balanced(root, maxImbalance)
    }

    /** The set of stored keys. */
    ghost function Contents(): set<int>
      reads this
    {
      Keys(root)
    }

    /** The constructor for a valid tolerance: an empty tree. */
    constructor (maxImbalance: int)
      requires maxImbalance >= 1
      ensures Valid() && Contents() == {} && treeSize == 0
      ensures this.maxImbalance == maxImbalance
    {
      this.maxImbalance := maxImbalance;
      root := Nil;
      treeSize := 0;
    }

    /** The source's constructor with its exception: a tolerance below 1 is refused with
        `InvalidBalance`; any other gives a fresh empty tree with that tolerance. */
    static method Create(maxImbalance: int) returns (r: Result<AVLGTree>)
      ensures r.Err? <==> maxImbalance < 1
      ensures r.Err? ==> r.error == InvalidBalance
      ensures r.Ok? ==>
        fresh(r.value) && r.value.Valid() && r.value.Contents() == {} &&
        r.value.treeSize == 0 && r.value.maxImbalance == maxImbalance
    {
      if maxImbalance < 1 {
        r := Err(InvalidBalance);
      } else {
        var t := new AVLGTree(maxImbalance);
        r := Ok(t);
      }
    }

    /** `insert`, for a key not yet stored. The empty and one-key trees are handled
        directly, and both shortcuts give what `insertHelper` would. */
    method Insert(key: int)
      requires Valid() && key !in Contents()
      modifies this
      ensures Valid()
      ensures Contents() == old(Contents()) + {key}
      ensures treeSize == old(treeSize) + 1
      ensures root == InsertHelper(key, old(root), maxImbalance)
    {
      if treeSize == 0 {
        root := Node(key, Nil, Nil);
      } else if treeSize == 1 {
        InsertIntoOneKey(key, root, maxImbalance);
        if key >= root.key {
          root := Node(root.key, root.left, Node(key, Nil, Nil));
        } else {
          root := Node(root.key, Node(key, Nil, Nil), root.right);
        }
      } else {
        InsertSize(key, root, maxImbalance);
        root := InsertHelper(key, root, maxImbalance);
      }
      treeSize := treeSize + 1;
      assert InsertSpec(key, old(root), root, maxImbalance);
    }

    /** `delete`. An empty tree throws `EmptyTree`; an absent key gives no key back and
        changes nothing; a present key is returned, removed and counted off. Trees of one
        and two keys are handled directly, and those shortcuts give what `deleteHelp`
        would. */
    method Delete(key: int) returns (r: Result<Option<int>>)
      requires Valid()
      modifies this
      ensures Valid()
      ensures old(treeSize) == 0 ==> r == Err(EmptyTree) && root == old(root) && treeSize == 0
      ensures old(treeSize) != 0 && key !in old(Contents()) ==>
        r == Ok(None) && root == old(root) && treeSize == old(treeSize)
      ensures key in old(Contents()) ==>
        r == Ok(Some(key)) && Contents() == old(Contents()) - {key} &&
        treeSize == old(treeSize) - 1
      ensures old(treeSize) != 0 ==> root == DeleteHelp(key, old(root), maxImbalance)
    {
      ghost var t := root;
      var G := maxImbalance;
      if treeSize == 0 {
        r := Err(EmptyTree);
      } else if treeSize == 1 {
        DeleteFromOneKey(key, root, G);
        r := Ok(None);
        if root.key == key {
          r := Ok(Some(key));
          root := Nil;
          treeSize := treeSize - 1;
        }
      } else if treeSize == 2 {
        DeleteFromTwoKeys(key, root, G);
        r := Ok(None);
        if root.key == key {
          r := Ok(Some(key));
          if root.left.Nil? {
            root := Node(root.right.key, root.left, Nil);
          } else {
            root := Node(root.left.key, Nil, root.right);
          }
          treeSize := treeSize - 1;
        } else if root.left.Node? {
          if root.left.key == key {
            r := Ok(Some(key));
            root := Node(root.key, Nil, root.right);
            treeSize := treeSize - 1;
          }
        } else if root.right.key == key {
          r := Ok(Some(key));
          root := Node(root.key, root.left, Nil);
          treeSize := treeSize - 1;
        }
      } else {
        r := Ok(None);
        if Search(key) != Ok(None) {
          root := DeleteHelp(key, root, G);
          treeSize := treeSize - 1;
          r := Ok(Some(key));
        }
      }
      if t.Node? {
        DeleteBalanced(key, t, G);
        if key in Keys(t) {
          DeleteOrdered(key, t, G);
          DeleteSize(key, t, G);
        } else {
          DeleteAbsent(key, t, G);
        }
      }
    }

    /** `search`: an empty tree throws `EmptyTree`; otherwise the key comes back exactly
        when it is stored. */
    function Search(key: int): (r: Result<Option<int>>)
      reads this
      requires Valid()
      ensures r.Err? <==> treeSize == 0
      ensures r.Err? ==> r.error == EmptyTree
      ensures r.Ok? ==> r.value == if key in Contents() then Some(key) else None
    {
      if treeSize == 0 then Err(EmptyTree)
      else
        OrderedIsBst(root);
        SearchHelpComplete(key, root);
        if SearchHelp(key, root) then Ok(Some(key)) else Ok(None)
    }

    /** `getMaxImbalance`: the tolerance given at construction, which is at least 1. */
    function GetMaxImbalance(): (g: int)
      reads this
      requires Valid()
      ensures g >= 1 && g == maxImbalance
    {
      maxImbalance
    }

    /** `getHeight`: -1 exactly for the empty tree; the one-key shortcut agrees with
        `heightHelp` of the root. */
    function GetHeight(): (h: int)
      reads this
      requires Valid()
      ensures h == Height(root)
      ensures h == -1 <==> Contents() == {}
    {
      if treeSize == 0 then -1
      else if treeSize == 1 then
        OneKeyIsLeaf(root);
        0
      else Height(root)
    }

    /** `isEmpty`: true exactly when no key is stored. */
    function IsEmpty(): (e: bool)
      reads this
      requires Valid()
      ensures e <==> Contents() == {}
    {
      treeSize == 0
    }

    /** `getRoot`: the key at the root, which is a stored key; `EmptyTree` exactly for the
        empty tree. */
    function GetRoot(): (r: Result<int>)
      reads this
      requires Valid()
      ensures r.Err? <==> Contents() == {}
      ensures r.Err? ==> r.error == EmptyTree
      ensures r.Ok? ==> root.Node? && r.value == root.key && r.value in Contents()
    {
      if treeSize == 0 then Err(EmptyTree) else Ok(root.key)
    }

    /** `getCount`: the number of stored keys. */
    function GetCount(): (n: int)
      reads this
      requires Valid()
      ensures n == |Contents()|
    {
      OrderedSize(root);
      treeSize
    }

    /** `isBST`, with the checker as documented: false for the empty tree, otherwise
        whether the tree has the search-tree property. On every valid tree this is also what
        the source's always-true `bstHelp` gives. */
    function IsBst(): (b: bool)
      reads this
      ensures b <==> treeSize != 0 && Bst(root)
      ensures Valid() ==> (b <==> treeSize != 0 && BstHelp(root))
    {
      OrderedIsBst(root);
      if treeSize == 0 then false else CheckBst(root)
    }

    /** `isAVLGBalanced`, with the checker as documented: true for trees of at most one
        node, otherwise whether every node is within G. Every valid tree passes, as it does
        the source's shallow `balanceHelper`. */
    function IsAvlgBalanced(): (b: bool)
      reads this
      ensures b <==> treeSize == 0 || treeSize == 1 || Balanced(root, maxImbalance)
      ensures Valid() ==> b && (treeSize == 0 || treeSize == 1 || BalanceHelper(root, maxImbalance))
    {
      BalancedPassesBalanceHelper(root, maxImbalance);
      if treeSize == 0 || treeSize == 1 then true else CheckBalanced(root, maxImbalance).0
    }

    /** `clear`: the tree is empty again, with the same tolerance. */
    method Clear()
      requires Valid()
      modifies this
      ensures Valid() && Contents() == {} && treeSize == 0
    {
      root := Nil;
      treeSize := 0;
    }
  }

  /** A tree of one node is a leaf. */
  lemma OneKeyIsLeaf(t: Tree)
    requires Size(t) == 1
    ensures t == Node(t.key, Nil, Nil) && Height(t) == 0
  {
    assert Size(t.left) == 0 && Size(t.right) == 0;
  }

  /** The one-key shortcut of `insert` hangs the new leaf right of the root on `>=` and
      left otherwise, which is what `insertHelper` does: no rotation can be needed. */
  lemma InsertIntoOneKey(key: int, t: Tree, G: int)
    requires G >= 1 && Size(t) == 1
    ensures t.Node? && t.left.Nil? && t.right.Nil?
    ensures Ordered(t) && key !in Keys(t) ==>
      InsertHelper(key, t, G) ==
        if key >= t.key then Node(t.key, Nil, Node(key, Nil, Nil))
        else Node(t.key, Node(key, Nil, Nil), Nil)
  {
    OneKeyIsLeaf(t);
  }

  /** The one-key shortcut of `delete` empties the tree on a match and otherwise leaves
      it, which is what `deleteHelp` does. */
  lemma DeleteFromOneKey(key: int, t: Tree, G: int)
    requires G >= 1 && Size(t) == 1
    ensures t.Node? && t.left.Nil? && t.right.Nil?
    ensures DeleteHelp(key, t, G) == if key == t.key then Nil else t
  {
    OneKeyIsLeaf(t);
  }

  /** A tree of two keys is a root with one leaf child. The two-key shortcut of `delete`
      moves the child's key up when the root matches, drops the child when it matches,
      and otherwise leaves the tree, which is what `deleteHelp` does. */
  lemma DeleteFromTwoKeys(key: int, t: Tree, G: int)
    requires G >= 1 && Size(t) == 2 && Ordered(t)
    ensures t.Node? && (t.left.Nil? <==> t.right.Node?)
    ensures var c := if t.left.Nil? then t.right else t.left;
      c == Node(c.key, Nil, Nil) &&
      DeleteHelp(key, t, G) ==
        if key == t.key then c
        else if key == c.key then Node(t.key, Nil, Nil)
        else t
  {
    var c := if t.left.Nil? then t.right else t.left;
    assert Size(c) == 1;
    OneKeyIsLeaf(c);
    assert Balanced(c, G);
    assert Balanced(t, G);
    if key == t.key {
      assert DeleteHelp(key, t, G) == DeleteRebalance(c, G);
      DeleteRebalanceBalanced(c, G);
    } else if key == c.key {
      var leaf := Node(t.key, Nil, Nil);
      assert DeleteHelp(key, c, G) == Nil;
      if t.left.Nil? {
        assert key > t.key;
        assert DeleteHelp(key, t, G) == DeleteRebalance(leaf, G);
      } else {
        assert key < t.key;
        assert DeleteHelp(key, t, G) == DeleteRebalance(leaf, G);
      }
      DeleteRebalanceBalanced(leaf, G);
    } else {
      DeleteAbsent(key, t, G);
    }
  }
}
