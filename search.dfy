/** Search below the root (`searchHelp`): compare, then descend right on greater and left
    on smaller while there is a child to descend into. */
module Lookup {
  import opened Subtree

  /** `searchHelp`, called on a present node. It only reports keys that are stored. */
  function SearchHelp(key: int, t: Tree): (found: bool)
    requires t.Node?
    ensures found ==> key in Keys(t)
    decreases t
  {
    if key == t.key then true
    else if key > t.key then
      if t.right.Node? then SearchHelp(key, t.right) else false
    else
      if t.left.Nil? then false else SearchHelp(key, t.left)
  }

  /** On a search tree (ties to the right) the descent finds every stored key, so the
      answer is exactly membership. */
  lemma {:induction false} SearchHelpComplete(key: int, t: Tree)
    requires t.Node? && Bst(t)
    ensures SearchHelp(key, t) <==> key in Keys(t)
    decreases t
  {
    if key > t.key && t.right.Node? {
      SearchHelpComplete(key, t.right);
    } else if key < t.key && t.left.Node? {
      SearchHelpComplete(key, t.left);
    }
  }
}
