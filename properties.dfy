/** Properties that relate several operations on subtrees: search after insertion and after
    deletion, and deletion undoing insertion. */
module Properties {
  import opened Subtree
  import opened Insertion
  import opened Deletion
  import opened Lookup

  /** A key just inserted is found. */
  lemma InsertThenSearch(key: int, t: Tree, G: int)
    requires G >= 1 && Ordered(t) && Balanced(t, G) && key !in Keys(t)
    ensures SearchHelp(key, InsertHelper(key, t, G))
  {
    var r := InsertHelper(key, t, G);
    OrderedIsBst(r);
    SearchHelpComplete(key, r);
  }

  /** A key just deleted is not found, and no other key is lost. */
  lemma DeleteThenSearch(key: int, t: Tree, G: int)
    requires G >= 1 && Ordered(t)
    ensures var r := DeleteHelp(key, t, G);
      r.Node? ==> !SearchHelp(key, r) && forall x :: x != key && SearchHelp(x, t) ==> SearchHelp(x, r)
    ensures var r := DeleteHelp(key, t, G);
      r.Nil? ==> Keys(t) <= {key}
  {
    var r := DeleteHelp(key, t, G);
    DeleteOrdered(key, t, G);
    if r.Node? {
      OrderedIsBst(r);
      forall x | x != key && SearchHelp(x, t)
        ensures SearchHelp(x, r)
      {
        SearchHelpComplete(x, r);
      }
      SearchHelpComplete(key, r);
    }
  }

  /** Deleting a key right after inserting it gives back the old set of keys, in a tree
      that is again ordered and balanced. */
  lemma InsertThenDelete(key: int, t: Tree, G: int)
    requires G >= 1 && Ordered(t) && Balanced(t, G) && key !in Keys(t)
    ensures var r := DeleteHelp(key, InsertHelper(key, t, G), G);
      Keys(r) == Keys(t) && Ordered(r) && Balanced(r, G)
  {
    var s := InsertHelper(key, t, G);
    DeleteOrdered(key, s, G);
    DeleteBalanced(key, s, G);
  }

  /** With G = 1, inserting 10, 20 and 30 in that order makes the root right-heavy by 2,
      and a single left rotation lifts 20 to the root. */
  lemma ClassicAvlExample()
    ensures var t1 := InsertHelper(10, Nil, 1);
      var t2 := InsertHelper(20, t1, 1);
      var t3 := InsertHelper(30, t2, 1);
      t3 == Node(20, Node(10, Nil, Nil), Node(30, Nil, Nil)) && Height(t3) == 1
  {
    var t1 := InsertHelper(10, Nil, 1);
    assert t1 == Node(10, Nil, Nil);
    var t2 := InsertHelper(20, t1, 1);
    assert t2 == Node(10, Nil, Node(20, Nil, Nil));
  }
}
