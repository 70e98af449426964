# AVL-G tree in Dafny

A model of `AVLGTree`, a generalised AVL tree. Its balance tolerance G
(`maxImbalance`, at least 1) is fixed at construction. At every node the heights of the two
children may differ by at most G; G = 1 is the classic AVL tree. Keys are `int`.

The model follows the source's structure:

- `types.dfy` (`AvlgTypes`) holds the optional results and the two exceptions,
  `InvalidBalance` and `EmptyTree`.
- `subtree.dfy` (`Subtree`) holds:
  - the node record as a value, `Tree = Nil | Node(key, left, right)`;
  - the measures `heightHelp` (`Height`) and `balance` (`Balance`);
  - the two search-tree properties. `Bst` is the documented one, with ties going right. `Ordered` is the strict one kept by a tree without duplicates;
  - the AVL-G condition `Balanced(t, G)`;
  - the rotations `rightRotate` and `leftRotate`.
- `rebalance.dfy` (`Rebalance`) holds the two rotation choices at the end of `insertHelper` and of `deleteHelp`. Insertion compares the key with the heavy child's key. Deletion uses the sign of the heavy child's balance. It also proves, for every G >= 1, that a rotation repairs a node whose children differ in height by G + 1.
- `insertion.dfy` (`Insertion`) holds `insertHelper`.
- `deletion.dfy` (`Deletion`) holds `deleteHelp`, and `getSuccessor` as a loop.
- `search.dfy` (`Lookup`) holds `searchHelp`.
- `checkers.dfy` (`Checkers`) holds the diagnostic checkers `bstHelp` and `balanceHelper`, as written and as documented.
- `properties.dfy` (`Properties`) holds facts that relate several operations.
- `avlg_tree.dfy` (`Avlg`) holds the tree object `AVLGTree`. It is a class whose methods update `root` and `treeSize`, with the object invariant `Valid()`:
  - the count is the number of nodes;
  - the keys are ordered without ties;
  - every node is within G.

  `Insert`, `Delete` and `Clear` keep `Valid()`. The shortcuts for trees of 0, 1 and 2 keys are separate branches, proved to agree with the general helpers.

The helpers `insertHelper`, `deleteHelp` and the rotations rewrite child links in place and return the new subtree root. Nothing else ever refers to the nodes they rewrite. They are therefore modelled as functions from the old subtree to the new one.

## Model

| member | source | states |
|---|---|---|
| Subtree.Height | src/avlg/AVLGTree.java:482-506 | the height of an absent subtree is -1 and every height is at least -1 |
| Subtree.HeightOfNode | src/avlg/AVLGTree.java:482-506 | the four cases of `heightHelp` amount to: a node is one taller than its taller child, where an absent child counts as -1 |
| Subtree.Balance | src/avlg/AVLGTree.java:207-214 | a positive balance means the node has a left child, and a negative one means it has a right child (what the rotations need) |
| Subtree.RightRotate | src/avlg/AVLGTree.java:164-184 | an absent subtree is returned as it is; otherwise the left child must exist and becomes the root, with the old root as its right child; the in-order key sequence, the key set and both search-tree properties are kept |
| Subtree.LeftRotate | src/avlg/AVLGTree.java:186-205 | the mirror image: the right child becomes the root, with the old root as its left child; the in-order sequence, the keys and the strict order are kept |
| Subtree.OrderedIsBst | src/avlg/AVLGTree.java:80-86 | a tree without duplicates has the documented search-tree property, with ties to the right |
| Subtree.OrderedSize | src/avlg/AVLGTree.java:676-683 | in a tree without ties the node count equals the number of distinct keys |
| Rebalance.InsertRebalance | src/avlg/AVLGTree.java:137-161 | the insertion rotation step keeps the in-order sequence, the keys and the order, and always returns a node |
| Rebalance.DeleteRebalance | src/avlg/AVLGTree.java:356-386 | the deletion rotation step keeps the in-order sequence, the keys and the order, and always returns a node |
| Rebalance.InsertChoiceAgrees | src/avlg/AVLGTree.java:141-158 | when the inserted key went into the grandchild that makes the heavy child lean, the key-comparison choice gives the same rotation as the balance-sign choice |
| Rebalance.DeleteRebalanceBalanced | src/avlg/AVLGTree.java:365-383 | for every G >= 1, a node whose balanced children differ in height by at most G + 1 comes out balanced. Its height lies between the taller child's and one more. A node already within G is untouched. A rotation whose heavy child leans either way gives exactly the taller child's height |
| Insertion.InsertHelper | src/avlg/AVLGTree.java:118-161 | inserting a new key into an ordered balanced subtree gives an ordered balanced subtree holding the old keys plus the key. It is as tall as before or one taller. It grows only when no rotation happened at its root. Its four rotation cases never meet an absent child |
| Insertion.InsertSize | src/avlg/AVLGTree.java:118-161 | insertion adds exactly one node |
| Deletion.Leftmost | src/avlg/AVLGTree.java:390-404 | the node the successor walk stops at has no left child and holds a key of the subtree |
| Deletion.LeftmostIsMin | src/avlg/AVLGTree.java:390-404 | in a search tree that node holds the smallest key |
| Deletion.GetSuccessor | src/avlg/AVLGTree.java:390-404 | the loop following left links returns the leftmost node, which holds the smallest key of a search tree |
| Deletion.SuccessorIsNext | src/avlg/AVLGTree.java:333-339 | the key a two-child node takes is its in-order successor: the smallest stored key greater than its own |
| Deletion.DeleteHelp | src/avlg/AVLGTree.java:279-387 | deletion never introduces a key |
| Deletion.DeleteOrdered | src/avlg/AVLGTree.java:279-387 | on a tree without ties, deletion removes exactly the given key and keeps the order |
| Deletion.DeleteBalanced | src/avlg/AVLGTree.java:279-387 | on a balanced tree, deletion, of a present or an absent key, keeps the balance and lowers the height by at most one |
| Deletion.DeleteAbsent | src/avlg/AVLGTree.java:342-354 | deleting a key that is not stored returns a balanced tree unchanged |
| Deletion.DeleteSize | src/avlg/AVLGTree.java:279-387 | deleting a stored key removes exactly one node |
| Lookup.SearchHelp | src/avlg/AVLGTree.java:429-449 | the search only reports stored keys |
| Lookup.SearchHelpComplete | src/avlg/AVLGTree.java:429-449 | on a search tree the search finds every stored key, so it decides membership |
| Checkers.BstHelp | src/avlg/AVLGTree.java:557-601 | the checker as written returns true on every tree |
| Checkers.BstHelpAcceptsUnordered | src/avlg/AVLGTree.java:557-601 | a node whose left child has a larger key passes the checker as written |
| Checkers.BstWithin | src/avlg/AVLGTree.java:536-601 | the bounded check holds exactly when the subtree is a search tree with every key inside the bounds |
| Checkers.CheckBst | src/avlg/AVLGTree.java:536-601 | the corrected checker is true exactly for search trees |
| Checkers.BalanceHelperShallow | src/avlg/AVLGTree.java:624-663 | for G >= 1 the checker as written passes a node that is left-heavy beyond G, or one whose two children both have balance at most G; nothing deeper is inspected |
| Checkers.BalancedPassesBalanceHelper | src/avlg/AVLGTree.java:624-663 | the checker as written never rejects a balanced tree |
| Checkers.BalanceHelperAcceptsLeftChain | src/avlg/AVLGTree.java:624-663 | a left chain of three keys passes the checker as written for G = 1 |
| Checkers.BalanceHelperAcceptsRightChain | src/avlg/AVLGTree.java:624-663 | a right chain of three keys passes the checker as written for G = 1 |
| Checkers.CheckBalanced | src/avlg/AVLGTree.java:603-663 | the corrected one-pass checker returns exactly `Balanced` together with the height |
| Properties.InsertThenSearch | src/avlg/AVLGTree.java:118-161 | a key just inserted is found |
| Properties.DeleteThenSearch | src/avlg/AVLGTree.java:279-387 | a key just deleted is not found, every other key is still found, and an emptied tree held at most that key |
| Properties.InsertThenDelete | src/avlg/AVLGTree.java:279-387 | deleting a key right after inserting it restores the key set, ordered and balanced |
| Properties.ClassicAvlExample | src/avlg/AVLGTree.java:137-161 | with G = 1, inserting 10, 20 and 30 gives root 20 with leaves 10 and 30, of height 1 |
| Avlg.AVLGTree.constructor | src/avlg/AVLGTree.java:69-78 | a valid tolerance gives an empty valid tree with a count of 0 and that tolerance |
| Avlg.AVLGTree.Create | src/avlg/AVLGTree.java:69-78 | it fails with `InvalidBalance` exactly when the tolerance is below 1; otherwise it returns a fresh, empty, valid tree with count 0 and the given tolerance |
| Avlg.AVLGTree.Insert | src/avlg/AVLGTree.java:87-116 | for an absent key it keeps the invariant, adds the key to the contents and raises the count by one. The empty and one-key shortcuts agree with `insertHelper` |
| Avlg.AVLGTree.Delete | src/avlg/AVLGTree.java:222-277 | on an empty tree: `EmptyTree`, nothing changes. On an absent key: no key back, nothing changes. On a present key: the key back, the contents less that key, the count one lower, the invariant kept. The 1- and 2-key shortcuts agree with `deleteHelp` |
| Avlg.AVLGTree.Search | src/avlg/AVLGTree.java:413-427 | `EmptyTree` exactly on the empty tree; otherwise the key comes back exactly when it is stored |
| Avlg.AVLGTree.GetMaxImbalance | src/avlg/AVLGTree.java:455-457 | the tolerance given at construction, at least 1 |
| Avlg.AVLGTree.GetHeight | src/avlg/AVLGTree.java:466-480 | -1 exactly for the empty tree; the shortcuts agree with `heightHelp` of the root |
| Avlg.AVLGTree.IsEmpty | src/avlg/AVLGTree.java:512-519 | true exactly when no key is stored |
| Avlg.AVLGTree.GetRoot | src/avlg/AVLGTree.java:526-533 | `EmptyTree` exactly for the empty tree; otherwise the root's key, which is stored |
| Avlg.AVLGTree.GetCount | src/avlg/AVLGTree.java:681-683 | the number of stored keys |
| Avlg.AVLGTree.IsBst | src/avlg/AVLGTree.java:542-555 | false for the empty tree, otherwise whether the tree is a search tree; on every valid tree it agrees with the source's checker |
| Avlg.AVLGTree.IsAvlgBalanced | src/avlg/AVLGTree.java:610-622 | true for at most one node, otherwise whether every node is within G; every valid tree passes, as it passes the source's checker |
| Avlg.AVLGTree.Clear | src/avlg/AVLGTree.java:669-674 | the tree is valid and empty with count 0 and the same tolerance |
| Avlg.InsertIntoOneKey | src/avlg/AVLGTree.java:97-106 | the one-key insert shortcut hangs the leaf where `insertHelper` would, and no rotation is needed |
| Avlg.DeleteFromOneKey | src/avlg/AVLGTree.java:228-235 | the one-key delete shortcut empties the tree on a match and otherwise leaves it, as `deleteHelp` does |
| Avlg.DeleteFromTwoKeys | src/avlg/AVLGTree.java:236-264 | a two-key tree is a root with one leaf child. The shortcut moves the child's key up on a root match, drops the child on a child match, and otherwise leaves the tree, as `deleteHelp` does |

## Left out

- The `parent` field of a node is written but never read, so it is not modelled.
- The cached `height` field of a node is not modelled. `heightHelp` always recomputes the height from the structure, and the cache is never read. The two-key delete shortcut leaves it stale.
- `treeSize` is a process-wide static field in the source. The model makes it a field of each tree, so two trees alive at once do not share a count, as they would in the source.
- `treeSize` is a 32-bit `int` in the source. The model's count is unbounded, so wrap-around past 2^31 - 1 keys is not modelled.
- Keys are `int` rather than a generic `Comparable`, so only a lawful total order is modelled.
- The delete shortcuts for one and two keys compare keys with Java reference identity (`==`) rather than `compareTo`. The model uses value equality. For boxed keys, as written, the source may therefore fail to delete a key stored in a tree of one or two keys.
- The empty-tree sentinel `new Node(null)` is modelled as an absent root (`Nil`). It is observable only through accessors that first check the count.
- Avlg.AVLGTree.Insert: requires the key to be absent. The source documents duplicates as unsupported, and the insertion rotation choice is only well defined without them.
- In-place rewriting of child links is modelled on values: each helper returns the new subtree. Aliasing between nodes never occurs in the source, so nothing observable is lost.
- The commented-out first version of the found-target case of `deleteHelp` is not modelled.
- The unused imports `UnimplementedMethodException` and `TimeoutException` are not modelled.
- No logarithmic bound on the height is proved. The source does not promise one.
- Exceptions are modelled as `Err` results.

## Findings

| source | as written | input that shows it | evidently intended | confidence | as-written member | corrected member |
|---|---|---|---|---|---|---|
| src/avlg/AVLGTree.java:557-601 | `bstHelp` starts from true and assigns false only when a recursive call returned false, so it returns true on every tree; it also compares each node only with its children | the root 1 with the left child 5 | true exactly when every left-subtree key is smaller and every right-subtree key is greater or equal, as the comment on `isBST` says | not executed | Checkers.BstHelpAcceptsUnordered | Checkers.CheckBst |
| src/avlg/AVLGTree.java:624-663 | `balanceHelper` never recurses, tests only left-heaviness of the children, and skips that test when the node itself is left-heavy beyond G | with G = 1, the left chain 3, 2, 1 and the right chain 1, 2, 3 | true exactly when every node is within G, as the comment on `isAVLGBalanced` says | not executed | Checkers.BalanceHelperAcceptsRightChain | Checkers.CheckBalanced |

The class's `IsBst` and `IsAvlgBalanced` use the corrected checkers. Their contracts also
show that, on every tree reachable through the public operations, they give the same answer
as the checkers as written.
