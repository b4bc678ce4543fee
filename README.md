# AVL tree layer of `avlbst.h`, in Dafny

This project models the AVL layer of an ordered key/value tree: the class
`AVLTree` and its node type `AVLNode`. It covers:

- insertion, where a duplicate key only overwrites the value;
- the bottom-up insert fix-up, `insertFix`;
- removal, with a predecessor swap for a node that has two children and a splice-out;
- the bottom-up delete fix-up, `removeFix`;
- the AVL `nodeSwap`, which swaps balance factors as well as positions;
- the two single rotations and `getSuccessor`.

Keys are `int` and values are generic (`V`).

The tree is the class `Avl.AVLTree<V>`. It stores its nodes in an arena of numbered slots. Each node field is one map from slot id to value: `key`, `value`, `balance`, `left`, `right` and `parent`. `NIL` (-1) stands for `nullptr`, and `root` is the root slot. The class also has a ghost field `t`, a `Shape.Tree` holding only ids, which is the shape the links describe. The methods follow the C++ statement by statement: they reassign links, `root` and balances with the same branches and constants. The exceptions are the balance tables of the double rotations, which all go through one method, `SetZigZag` (see "## Left out"). Their contracts are stated against `t`:

- `Valid()` is the AVL invariant the public operations keep. It says the links describe `t` exactly and the keys are in strict search order. It also says every stored balance equals height(right) − height(left) and lies in {-1, 0, 1}.
- `Contents()` is the dictionary the tree holds.
- Each internal method takes ghost zipper arguments (`Shape.Ctx`); `t == Plug(c, s)` says where the node it works on sits.

Modules:

- `Shape`: trees of ids, contexts, heights, rotations and id renaming.
- `Order`: search order and the dictionary `Entries` that a tree denotes.
- `Linking`: the link maps agree with a tree; connects the link surgery of rotations, attach, splice and swap to the tree.
- `Balance`: balance factors, the states the two fix-up walks start from, and the local facts behind each of their cases.
- `Arenas`: the arena invariants, and the facts behind allocation, freeing and swapping.
- `Avl`: the class.

## Model

| member | source | states |
|---|---|---|
| Avl.AddInt8 | avlbst.h:88-92 | `a + b` stored into an `int8_t`: the result is in [-128, 127] and congruent to `a + b` mod 256; it equals `a + b` when that is in range |
| Avl.AVLTree.constructor | avlbst.h:130-146 | a new tree is a valid AVL tree with no nodes and an empty dictionary |
| Avl.AVLTree.GetBalance | avlbst.h:70-74 | returns the stored balance; in a valid tree that is in {-1, 0, 1} and equals the height difference of the node's subtrees |
| Avl.AVLTree.SetBalance | avlbst.h:79-83 | only that node's balance changes, to the given `int8_t` value |
| Avl.AVLTree.UpdateBalance | avlbst.h:88-92 | only that node's balance changes, to the `int8_t` sum of old balance and `diff` |
| Avl.AVLTree.SetZigZag | avlbst.h:243-260 | after a double rotation lifts `mid` above `lo` and `hi`, only these three balances change: the outer ones follow `mid`'s old lean (`ZigZagBalances`) and `mid` becomes 0 |
| Avl.AVLTree.RotateLeft | avlbst.h:486-512 | the tree becomes the one with a left rotation at the node, in place in its context: the right child takes the node's place (or becomes the root), and parent links stay consistent; ids, keys and balances are untouched; search order is kept |
| Avl.AVLTree.RotateRight | avlbst.h:514-541 | the mirror image of `RotateLeft` |
| Avl.RotatedLeft | avlbst.h:486-512 | the link maps written by the statements of `rotateLeft` are exactly the links of the rotated tree |
| Avl.RotatedRight | avlbst.h:514-541 | the same for `rotateRight` |
| Avl.RotateLeftLinks | avlbst.h:487-510 | the updates of `rotateLeft`: the node becomes the left child of its old right child `y`, which becomes the root exactly when the node had no parent; no link outside the node, `y`, their old parent and the subtree that moves across changes |
| Avl.RotateRightLinks | avlbst.h:515-539 | the mirror image of `RotateLeftLinks` |
| Avl.OrderedRotL | avlbst.h:486-512 | a left rotation in place keeps the whole tree in search order |
| Avl.OrderedRotR | avlbst.h:514-541 | a right rotation in place keeps the whole tree in search order |
| Shape.RotLProps | avlbst.h:486-512 | a left rotation keeps the ids, distinctness and the in-order sequence of the subtree, and a right rotation undoes it |
| Shape.RotRProps | avlbst.h:514-541 | a right rotation keeps the ids, distinctness and the in-order sequence of the subtree, and a left rotation undoes it |
| Avl.AVLTree.InternalFind | avlbst.h:313-314 | exact lookup: NIL exactly when the key is absent, otherwise a node of the tree holding the key |
| Avl.AVLTree.Predecessor | avlbst.h:316-317 | NIL exactly when the node holds the smallest key; otherwise a node of the tree with a smaller key and no key strictly between |
| Avl.AVLTree.GetSuccessor | avlbst.h:543-560 | NIL exactly when the node holds the largest key; otherwise a node of the tree with a larger key and no key strictly between |
| Order.SuccessorBelow | avlbst.h:545-551 | the leftmost node of the right subtree holds the smallest key above the node's |
| Order.SuccessorAbove | avlbst.h:552-559 | the parent reached after climbing out of a left subtree holds the smallest key above the node's |
| Order.PredecessorBelow | avlbst.h:315-318 | the rightmost node of the left subtree holds the largest key below the node's |
| Avl.AVLTree.Insert | avlbst.h:153-210 | the tree stays a valid AVL tree and now maps the key to the value, all other entries unchanged; a duplicate key changes no link, key, balance, shape or slot counter; a new key adds exactly one fresh node |
| Avl.AVLTree.InsertAt | avlbst.h:172-194 | at the end of the descent: an equal key overwrites that node's value only, otherwise a new leaf is hung on the key's side; the result is as for `Insert` |
| Avl.AVLTree.Overwrite | avlbst.h:173-177 | the node already holding the key gets the new value: only the value map changes, the tree stays valid, and the dictionary maps that key to the new value |
| Avl.AVLTree.InsertLeaf | avlbst.h:178-208 | a key that is absent gets a fresh leaf on its side of `p`, then the balance step: the result is a valid AVL tree with exactly one new node, whose dictionary gains exactly that key |
| Avl.AVLTree.InsertRoot | avlbst.h:158-166 | into an empty tree, the new node becomes the root, a leaf with balance 0; the dictionary gains exactly the key |
| Avl.AVLTree.NewNode | avlbst.h:158-161 | a fresh slot holds the key and value, balance 0, no children and the given parent; no other slot changes |
| Avl.AVLTree.HangLeft | avlbst.h:179-183 | the new leaf becomes the left child of `p`; the tree is still in search order and maps the key to the value |
| Avl.AVLTree.HangRight | avlbst.h:187-191 | the mirror image of `HangLeft` |
| Arenas.HangLeftFacts | avlbst.h:179-183 | the arena after hanging a fresh leaf on the left of `p` is sound, in search order, and its dictionary gains exactly the new key |
| Arenas.HangRightFacts | avlbst.h:187-191 | the mirror image of `HangLeftFacts`, for a leaf hung on the right |
| Arenas.RootFacts | avlbst.h:163-166 | the arena after making a fresh leaf the root is a valid AVL tree holding exactly the new key |
| Avl.AVLTree.InsertBalance | avlbst.h:196-208 | after the new leaf is hung the tree ends a valid AVL tree with the same ids: a parent that leaned becomes level and the walk stops, otherwise it leans toward the leaf and `insertFix` runs |
| Balance.InsertLeafLeft | avlbst.h:196-207 | a new left leaf makes a leaning parent level, leaving the tree balanced, or makes a childless parent lean left, the state `insertFix` starts from |
| Balance.InsertLeafRight | avlbst.h:196-207 | the mirror image of `InsertLeafLeft` |
| Avl.AVLTree.InsertFix | avlbst.h:219-300 | from a subtree one level taller than its ancestors record, the walk ends with a valid AVL tree holding the same nodes |
| Avl.AVLTree.InsertRebalanceLeft | avlbst.h:237-260 | the grandparent two levels heavier on the left is fixed by a single or a double rotation, and the tree is a valid AVL tree |
| Avl.AVLTree.InsertRebalanceRight | avlbst.h:273-298 | the mirror image of `InsertRebalanceLeft` |
| Avl.AVLTree.RebalanceLeftLeft | avlbst.h:237-241 | a right rotation at the grandparent, with parent and grandparent set to 0, leaves a valid AVL tree |
| Avl.AVLTree.RebalanceRightRight | avlbst.h:273-277 | a left rotation at the grandparent, with both set to 0, leaves a valid AVL tree |
| Avl.AVLTree.RebalanceLeftRight | avlbst.h:243-260 | a left rotation at the parent, then a right rotation at the grandparent, with the balance table, leaves a valid AVL tree |
| Avl.AVLTree.RebalanceRightLeft | avlbst.h:279-298 | the mirror image of `RebalanceLeftRight` |
| Avl.AVLTree.LeftRightFinish | avlbst.h:245-259 | after the left rotation at the parent: the right rotation at the grandparent and the balance table leave a valid AVL tree with the same nodes |
| Avl.AVLTree.RightLeftFinish | avlbst.h:281-297 | the mirror image of `LeftRightFinish` |
| Balance.InsertStepLeft | avlbst.h:226-235 | the grandparent takes the growth on its left: going to 0 leaves the tree balanced, going to -1 hands the walk on one level up |
| Balance.InsertStepRight | avlbst.h:263-271 | the mirror image of `InsertStepLeft` |
| Balance.InsertSingleLeft | avlbst.h:237-241 | left-left: after the right rotation with both balances 0 the whole tree is balanced |
| Balance.InsertSingleRight | avlbst.h:273-277 | right-right: after the left rotation with both balances 0 the whole tree is balanced |
| Balance.InsertDoubleLeft | avlbst.h:243-260 | left-right: after the double rotation with the balances of the source's table the whole tree is balanced |
| Balance.InsertDoubleRight | avlbst.h:279-298 | right-left: the mirror image of `InsertDoubleLeft` |
| Balance.ZigZagLocal | avlbst.h:247-259 | after a double rotation, the outer balances from `ZigZagBalances` and 0 on top match the heights, and the subtree is two levels above its outer subtrees |
| Balance.RotLLocal | avlbst.h:414-428 | after a left rotation at a node two levels heavier on the right, the balances the source assigns match the heights; the height drops exactly when the child leaned right |
| Balance.RotRLocal | avlbst.h:456-470 | the mirror image of `RotLLocal` |
| Avl.AVLTree.Remove | avlbst.h:302-358 | the tree stays a valid AVL tree and no longer holds the key, all other entries unchanged; an absent key (or an empty tree) changes nothing; a present key frees exactly one node |
| Avl.AVLTree.RemoveNode | avlbst.h:315-357 | removing node `z` leaves a valid AVL tree without `z`, and takes exactly `z`'s key out of the dictionary |
| Avl.AVLTree.SwapWithPredecessor | avlbst.h:315-318 | a node `z` with two children exchanges places and balances with `pred`, the node of the tree holding the largest key below `z`'s: the new tree is the old one with `z` and `pred` renamed into each other and the root following; `z` now has no right child, the balances still match the shape, and the tree without `z` is in search order |
| Avl.AVLTree.RemoveTwoChildren | avlbst.h:316-357 | a node with two children is swapped with its predecessor and then unhooked: the result is a valid AVL tree without the node, whose dictionary lacks exactly its key |
| Avl.AVLTree.ExchangeWithRightmost | avlbst.h:318 | `nodeSwap` of `z` with the rightmost node `m` of its left subtree: the tree is the old one with `z` and `m` renamed into each other, the two balances are exchanged and still match the shape, `z` sits at `m`'s old place with no right child, and the tree without `z` is in search order |
| Order.RemoveTwoChildOrdered | avlbst.h:315-318 | putting the predecessor in the removed node's place keeps the tree in search order |
| Avl.AVLTree.Unhook | avlbst.h:320-357 | a node with at most one child is unlinked and freed and the walk runs from its parent: the result is a valid AVL tree without the node whose dictionary lacks exactly its key |
| Avl.AVLTree.Unlink | avlbst.h:320-353 | the only child (or nothing) takes the node's place under its parent, or becomes the root; the slot is freed; the tree is in search order, one level lower where the node was; `diff` is +1 for a left child, -1 for a right child and 0 at the root |
| Avl.AVLTree.FreeNode | avlbst.h:353 | the node's slot leaves every field map |
| Arenas.UnlinkFacts | avlbst.h:336-353 | the arena after the splice and the free is sound and in search order, has the same ids minus the node, and its balances are the state `removeFix` starts from at the parent |
| Order.OrderedSplice | avlbst.h:336-351 | putting the only child of a node in the node's place keeps the tree in search order |
| Order.EntriesUnlink | avlbst.h:353 | freeing the slot of a node takes exactly its key out of the dictionary |
| Balance.RemoveSplice | avlbst.h:320-351 | splicing out a node with at most one child leaves the subtree one level lower than its parent records: the state `removeFix` starts from |
| Avl.AVLTree.RemoveFix | avlbst.h:361-475 | from a subtree one level lower than its ancestors record, the walk ends with a valid AVL tree holding the same nodes |
| Balance.RemoveFixLevel | avlbst.h:376-384 | the new balance 0 hands the walk on to the parent, and ±1 leaves the whole tree balanced |
| Avl.AVLTree.RemoveFixRight | avlbst.h:387-429 | a node two levels heavier on the right is fixed by a double rotation when its right child leans left, otherwise by a single rotation |
| Avl.AVLTree.RemoveFixLeft | avlbst.h:430-472 | the mirror image of `RemoveFixRight` |
| Avl.AVLTree.RemoveSingleLeft | avlbst.h:414-429 | a left rotation with the source's balances: the walk stops when the right child was level and goes on otherwise; the result is a valid AVL tree |
| Avl.AVLTree.RemoveSingleRight | avlbst.h:456-471 | the mirror image of `RemoveSingleLeft` |
| Avl.AVLTree.RemoveSingleLeftBalances | avlbst.h:417-428 | after the left rotation: the balances for a level or a leaning right child, then the walk stops or goes on at the parent; the result is a valid AVL tree with the same nodes |
| Avl.AVLTree.RemoveSingleRightBalances | avlbst.h:459-470 | the mirror image of `RemoveSingleLeftBalances` |
| Avl.AVLTree.RemoveRightLeft | avlbst.h:390-413 | a right rotation at the right child, then a left rotation at the node, with the corrected balance table; the walk goes on at the parent, and the result is a valid AVL tree |
| Avl.AVLTree.RemoveLeftRight | avlbst.h:433-455 | the mirror image of `RemoveRightLeft`, with the source's own table |
| Avl.AVLTree.RemoveRightLeftFinish | avlbst.h:392-412 | after the right rotation at the right child: the left rotation at the node, the corrected balance table and the rest of the walk leave a valid AVL tree with the same nodes |
| Avl.AVLTree.RemoveRightLeftBalances | avlbst.h:394-412 | after both rotations: the corrected balance table and the rest of the walk leave a valid AVL tree with the same nodes |
| Avl.AVLTree.RemoveLeftRightFinish | avlbst.h:435-454 | the mirror image of `RemoveRightLeftFinish`, with the source's own table |
| Avl.AVLTree.RemoveLeftRightBalances | avlbst.h:437-454 | the mirror image of `RemoveRightLeftBalances`, with the source's own table |
| Balance.RemoveFixRotateLeft | avlbst.h:414-428 | right-heavy by two, right child not leaning left: after the left rotation the tree is balanced when the child was level, and the walk goes on otherwise |
| Balance.RemoveFixRotateRight | avlbst.h:456-470 | the mirror image of `RemoveFixRotateLeft` |
| Balance.RemoveFixRotateRightLeft | avlbst.h:390-412 | right-heavy by two, right child leaning left: after the double rotation with `ZigZagBalances` the subtree is balanced and one level lower, and the walk goes on |
| Balance.RemoveFixRotateLeftRight | avlbst.h:433-454 | the mirror image of `RemoveFixRotateRightLeft` |
| Balance.RemoveRightLeftAsWritten | avlbst.h:396-407 | the node and right-child balances as written: the node's always agrees with `ZigZagBalances`, and the pair agrees exactly when the new top was level or leaned left |
| Balance.RemoveRightLeftAsWrittenUnbalanced | avlbst.h:396-407 | in a reachable state, the balances written at lines 396-407 leave the tree unbalanced, and the corrected ones leave it balanced |
| Balance.ExampleReached | avlbst.h:390 | the example subtree, with its balances, is a real `removeFix` start state that enters the right-left branch |
| Balance.ExampleWritten | avlbst.h:399-402 | with the balances as written, the rotated example is not balanced |
| Balance.ExampleCorrected | avlbst.h:399-402 | with the corrected balances, the rotated example is balanced |
| Avl.AVLTree.NodeSwap | avlbst.h:477-484 | the two nodes exchange positions and exchange their balances, so the balances still match the shape; nothing else changes |
| Avl.AVLTree.BaseNodeSwap | avlbst.h:480 | the two nodes exchange tree positions: every link to one now points to the other, and the root follows; keys and values stay with their nodes |
| Arenas.SwapFacts | avlbst.h:480 | exchanging two nodes of the tree keeps the arena sound, with the ids renamed in the tree |
| Balance.RenameBalanced | avlbst.h:481-483 | when two nodes exchange positions and balances, the balances still match the heights |

## Left out

- `bst.h` is not part of this model. `internalFind`, `predecessor` and the base `nodeSwap` are specified by contract (`InternalFind`, `Predecessor`, `BaseNodeSwap`). `Predecessor` and `InternalFind` have bodies that walk the links in the usual way.
- BaseNodeSwap: the base swap of `bst.h` is modelled as an exchange of positions. After `nodeSwap` at line 318, `remove` frees `nodeToRemove` itself at line 353, and the balance exchange at lines 481-483 is only correct if the nodes move.
- Memory is modelled as arena slots: `new` hands out the slot `nextId`, and `delete` removes a slot from every field map. Pointer values, allocator behaviour and destructors are not modelled.
- Insert: the source allocates the new node at line 158, before the descent, and deletes it at line 175 when the key is already present. The model allocates the slot only once a leaf is hung, so a duplicate insert does not use up a slot number. No observable state differs.
- Templates and virtual dispatch are collapsed to one node type with `int` keys. The casts between `Node` and `AVLNode` disappear.
- The `KeyError` struct, `<iostream>`, and the printing and iterator parts of the base class are not modelled.
- Null checks the invariant makes dead are modelled as branches that are never taken, or left out: for example `node == nullptr` at line 366, or a missing child in a rotation.
- The link maps must agree with `t` on every node of the tree, but may hold entries for other slots. The arena does not require their key sets to equal the tree's ids.
- The long C++ functions are split into several methods (for example `Insert`/`InsertAt`/`Overwrite`/`InsertLeaf`, `RemoveFixRight`/`RemoveRightLeft`/`RemoveRightLeftFinish`/`RemoveRightLeftBalances`). Each piece runs the source's statements in the source's order, except for the balance tables of the double rotations (next line).
- SetZigZag: one method assigns the values of each of the four double-rotation tables (lines 247-259, 283-297, 396-407 and 439-450). It tests the balance of the node on top for -1, then 0, then the rest, and writes the left outer node, the right outer node, then the top. That is the order of lines 247-259 only. Lines 283-297 test +1 first, and write the parent before the grandparent. Lines 396-407 and 439-450 test 0 first, and in that case do not write the top node, which is already 0. The cases are exclusive and every table writes distinct nodes, so the final balances are the same. The right-heavy branch of `removeFix` assigns the corrected values here (see Findings).
- The logarithmic height bound of AVL trees is not stated.
- RemoveFix, RemoveFixRight, RemoveFixLeft and the rest of its family: the contracts say that the result is a valid AVL tree with the same nodes. They do not say which balances changed.

## Findings

| source | as written | input that shows it | evidently intended | confidence | as-written member | corrected member |
|---|---|---|---|---|---|---|
| avlbst.h:401 | In `removeFix`'s right-heavy double rotation, when the new top had balance +1, `rightChild` is set to 1. | Keys 0..6. Node 2 is the root, with children 1 (left child 0) and 5. Node 5 has children 3 (right child 4) and 6. All balances are correct. `remove(0)` reaches `removeFix(2, +1)`, which rotates 3 to the top. Node 5 is then stored as +1, although both its subtrees are single leaves. | `rightChild` set to 0: the table of the mirror branch (lines 442-445) and of `insertFix` (lines 283-286); the line's own comment says so too | not executed | Balance.RemoveRightLeftAsWritten, Balance.RemoveRightLeftAsWrittenUnbalanced | Balance.ZigZagBalances, Balance.RemoveFixRotateRightLeft, Avl.AVLTree.RemoveRightLeftBalances |
