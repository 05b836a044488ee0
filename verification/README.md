# A verified model of RedLeaf's data structures

RedLeaf is a small web server. Its library `libdata` keeps ordered collections behind one interface, `usrtc`, with five
interchangeable structures: a sorted doubly linked list, a plain search tree, a red-black tree, a splay tree and an AVL tree. All five
use the same intrusive node, with `left`, `right`, `parent` and one colour or balance mark, and a sentinel inside the container object;
in list mode the same two link fields are next and previous. The project models this library as Dafny classes whose methods write
those fields, and proves it against the simplest form it has, the sorted list. It also models the buddy allocator of `liballoc`, the
response writer of the server, and the configuration reader.

## How it is built

- `Links` holds the node, a snapshot type for the fields of a set of nodes, and the ghost values the fields are compared with: a tree,
  and a zipper `Ctx` for what lies around a position. `At(c, t, nil, h)` says that in snapshot `h` the links are exactly those of tree `t`
  in context `c` below the sentinel `nil`. Methods write fields, one lemma per write pattern says which tree that makes, and everything
  about order, colours and balance is then proved about trees and sequences.
- `Order`, `Rotations`, `BinaryTree` (tree.c), `TreeDeletion`, `TreeSearch`, `RedBlackTrees` and `RedBlack`, `AvlTrees` and `AvlTree`,
  `SplayTree` with `SplayCost` and `Products`, `SortedList`: the structures.
- `TreeToList`, `ListToTree` with `RowTrees`, and `AvlBuild`: the conversions in place.
- `Interface` is usrtc.c. `Intact` says that the links hold the items in the form of the current structure, `Valid` adds colours or
  balance marks. `Runs` is about sequences of calls, `Iteration` about walking, `Heights` about the cost of a search.
- `Buddy`, `Delivery`, `Config`: the other three parts.

Keys are integers and `Compare` is their difference: only the order of keys matters to the library. Every bare `return` that stands in
for an assertion in the sources is an `assert false` in the model, so that it is proved unreachable.

## What the code does that a reader may not expect

- `usrtc_init` leaves `dupes_allowed` at 0, and then equal keys are kept, in the order of insertion. After rotations an equal key may
  stand on either side of a node, so that sortedness is a property of the in-order sequence.
- The row-wise rebuild of tree.c and redblack.c counts with a cap of 65535 full places. It yields a red-black tree for up to 131071
  nodes. Above that it does so exactly when every base-4 digit of the count but the leading one is 2 or 3; the smallest failure is
  131072. The contents are right for every count.
- `usrtc_allow_dupes` does nothing to an empty container, although the comment above it asks for an empty one.
- A lookup in a splay tree that finds nothing does not splay. So the amortized bounds of `SplayCost` are about hits, and a key that is
  missing can cost the height of the tree each time it is looked up.
- In `avl_delete` the test `parent==BALANCED` compares a pointer with 0 and never holds; the model leaves it out.
- Releasing a block in bbuddy.c writes `|= ~(1<<x)`, which sets all other bits of a word of `pbmp`. The free blocks stay right, but the
  marks of separated blocks in that word are lost. `Release` states exactly when all marks survive, by a condition that can be read off
  the bitmaps before the call; `MarksLost` makes the loss happen with three calls on a new area.
- A range past the end of a file makes the length to go wrap around; `FirstChunk` states what is set up for every range.
- A configuration section that has text but no semicolon is not copied, so that the reader goes on one character into that text: if
  another section follows, the whole reading fails. The statement `*buf+=sizeof(char)*2` there adds two to a character of the buffer
  instead of moving the pointer, which the reader never notices.
- A configuration section without an argument is stored with the argument `ERR`.

## Model

| member | source | states |
|---|---|---|
| `Runs.Run` | redleaf/redleaf/src/libdata/usrtc.c:206-219 | Refinement over whole runs: any admissible sequence of insertions, deletions, searches and changes of structure, started on any of the five structures, leaves exactly the entry sequence that the same sequence leaves on a sorted list, with `nodecount` its length and every structural invariant in force, and every search gives a node that the list holds under the key, or none exactly when there is none |
| `Runs.Step` | redleaf/redleaf/src/libdata/usrtc.c:99-219 | One call, whichever it is, changes the held sequence exactly as it changes the sorted list, keeps the invariant of the current structure and answers as on the list |
| `Runs.SplayRun` | redleaf/redleaf/src/libdata/splay.c:59-82 | Over any run of insertions, deletions and searches that hit, on a splay tree with fewer than `n` nodes at any time, 2 to the number of rotations of the insertions and rounds of the searches is at most (2 n^4) to the number of calls, times the potential at the start; started empty, the calls take on average at most 1 + 4 log n |
| `Runs.Rebuild` | redleaf/redleaf/src/libdata/redblack.c:232-315 | A list of any number of new nodes, rebuilt as a red-black tree, is one if and only if the count is at most 131071 or all its base-4 digits but the leading one are 2 or 3 |
| `Runs.BeyondCap` | redleaf/redleaf/src/include/libdata/usrtc.h:26-26 | The cap is sharp: of 131072 nodes the rebuild makes a tree that breaks the rules with every node still there in order, of 262143 nodes a valid one |
| `Runs.StableRun` | redleaf/redleaf/src/libdata/lslist.c:74-86 | After any run from the empty container the held nodes are exactly those put in and not taken out since, each under the key it was last put in with, ordered by key, and equal keys in the order of insertion |
| `Interface.Create` | redleaf/redleaf/src/libdata/usrtc.c:62-88 | A new container of any structure holds nothing, satisfies its invariant and refuses no duplicates |
| `Interface.Insert` | redleaf/redleaf/src/libdata/usrtc.c:206-209 | On every structure the node lands behind all entries with a key no greater and before all greater ones; only the plain tree with the duplicate flag set leaves an equal key out. A plain tree grows by one leaf and keeps every other link; a splay tree is that tree splayed at the new node, which is then the root, and its rotations are paid for by the potential up to four times the binary logarithm of the count and one |
| `Interface.Delete` | redleaf/redleaf/src/libdata/usrtc.c:211-214 | Exactly the given node leaves the sequence; order, count and the structural invariant are kept. A plain or splay tree changes nowhere but at the place of the node |
| `Interface.Lookup` | redleaf/redleaf/src/libdata/usrtc.c:216-219 | A node is returned exactly when the key is held, and it carries that key (the first of its equals when the duplicate flag is set); the sequence is unchanged, and the search takes no more rounds than the tree is high. In a valid red-black tree these are at most twice the binary logarithm of the count plus one, and in a valid AVL tree of `n` nodes Fib(rounds + 2) is at most n + 1. A hit in a splay tree brings the node to the root and every node above it to half its depth and at most 2.5 more; without the flag the rounds are paid for by the potential up to three times the binary logarithm of the count and one. No other lookup changes the tree |
| `Interface.LowerBound` | redleaf/redleaf/src/libdata/usrtc.c:221-224 | Nothing is returned exactly when all keys are smaller; otherwise a node with the least key that is not smaller, and with the flag set the first such node |
| `Interface.First` | redleaf/redleaf/src/libdata/usrtc.c:231-234 | The first entry in order, or none |
| `Interface.Last` | redleaf/redleaf/src/libdata/usrtc.c:236-239 | The last entry in order, or none |
| `Interface.Next` | redleaf/redleaf/src/libdata/usrtc.c:241-244 | The entry after the given position, or none after the last |
| `Interface.Prev` | redleaf/redleaf/src/libdata/usrtc.c:246-249 | The entry before the given position, or none before the first |
| `Interface.ConvertTo` | redleaf/redleaf/src/libdata/usrtc.c:99-116 | Between any two of the five structures the sequence of nodes is kept, and the invariant of the target holds afterwards, except for a red-black tree if and only if the count is above 131071 and has a base-4 digit 0 or 1 behind the leading one. From a tree to a plain or splay tree not one field of a node changes, the sentinel included; otherwise an AVL tree has every node in the middle of its subtree, and up to 131071 nodes the others have full rows with the rest of the last row on the left |
| `Interface.AllowDupes` | redleaf/redleaf/src/libdata/usrtc.c:158-165 | The call sets the flag exactly when the container is not empty, and keeps it if set before; the contents stay valid |
| `Interface.DispatchInsert` | redleaf/redleaf/src/libdata/usrtc.c:206-209 | The function-table entry for insertion of each structure turns the sequence into the stable insertion and keeps colours, balance marks and the sentinel mark right; the plain tree grows by a leaf, and the splay tree is splayed at the new node |
| `Interface.DispatchDelete` | redleaf/redleaf/src/libdata/usrtc.c:211-214 | The same for deletion by node; plain and splay tree change nowhere else |
| `Interface.DispatchLookup` | redleaf/redleaf/src/libdata/usrtc.c:216-219 | The same for lookup, which splays a splay tree at the node found and changes nothing in any other case |
| `Interface.DispatchConvert` | redleaf/redleaf/src/libdata/usrtc.c:99-116 | The slow path over the sorted list and the fast path that only swaps the function table both keep the sequence and give the target its invariant under the exact condition; on the fast path no field of a node changes, on the slow one the tree has the shape of the rebuild of its structure |
| `Interface.InsertedItems` | redleaf/redleaf/src/libdata/lslist.c:74-86 | Stable insertion keeps a sequence sorted and free of repetition, and adds exactly the one node |
| `Interface.RemovedItems` | redleaf/redleaf/src/libdata/lslist.c:88-97 | Removal keeps a sequence sorted and takes out exactly the one node |
| `Iteration.Forward` | redleaf/redleaf/src/libdata/tree.c:256-303 | First followed by next until there is none visits every entry once, in order, on every structure |
| `Iteration.Backward` | redleaf/redleaf/src/libdata/tree.c:269-326 | Last followed by prev until there is none visits every entry once, backwards |
| `Iteration.ThereAndBack` | redleaf/redleaf/src/libdata/tree.c:282-326 | Next and prev undo each other at every position |
| `Heights.AvlHeight` | redleaf/redleaf/src/libdata/avl.c:191-268 | A balanced tree of height h holds at least Fib(h + 2) - 1 nodes |
| `Heights.BlackRows` | redleaf/redleaf/src/libdata/redblack.c:64-230 | A red-black tree of black height b holds at least 2^b - 1 nodes and is at most 2b high, one more below a red root |
| `Heights.RedBlackHeight` | redleaf/redleaf/src/libdata/redblack.c:64-230 | The height of a red-black tree of n nodes is at most twice the binary logarithm of n + 1 |
| `Heights.BuiltMinimal` | redleaf/redleaf/src/libdata/avl.c:299-332 | No tree with as many nodes is lower than the tree of the bulk build |
| `BinaryTree.TreeInsert` | redleaf/redleaf/src/libdata/tree.c:64-98 | The new node becomes a leaf at the place of the stable insertion, which is where going left before greater keys and right otherwise leads, all other links unchanged; with the flag set nothing is linked exactly when the key is already held |
| `BinaryTree.LinkLeaf` | redleaf/redleaf/src/libdata/tree.c:85-97 | Linking the new leaf below the place found fills exactly that hole of the tree |
| `BinaryTree.FoundPlace` | redleaf/redleaf/src/libdata/tree.c:71-83 | The hole the descent ends in is the place of the stable insertion |
| `BinaryTree.SplitStep` | redleaf/redleaf/src/libdata/tree.c:71-83 | Each step of the descent keeps all keys to the left at most, all keys to the right greater than the key |
| `BinaryTree.TreeFirst` | redleaf/redleaf/src/libdata/tree.c:256-267 | The leftmost node is the first of the in-order sequence |
| `BinaryTree.TreeLast` | redleaf/redleaf/src/libdata/tree.c:269-280 | The rightmost node is the last of the in-order sequence |
| `BinaryTree.TreeNext` | redleaf/redleaf/src/libdata/tree.c:282-303 | The in-order successor, even while left links of nodes already passed have been overwritten |
| `BinaryTree.TreePrev` | redleaf/redleaf/src/libdata/tree.c:305-326 | The in-order predecessor |
| `TreeDeletion.TreeDelete` | redleaf/redleaf/src/libdata/tree.c:100-167 | The node is cut out, replaced by its in-order successor or its only child; the links of the deleted node are cleared, and `child->parent` is right even when `child` is the sentinel |
| `TreeDeletion.Unlink` | redleaf/redleaf/src/libdata/tree.c:109-156 | The relinking part: which node takes the place, where the gap is and who is its parent |
| `TreeDeletion.ReplaceByNext` | redleaf/redleaf/src/libdata/tree.c:109-141 | With two children the successor leaves its place and takes over that of the node |
| `TreeDeletion.ReplaceByChild` | redleaf/redleaf/src/libdata/tree.c:143-156 | With at most one child that child moves up |
| `TreeDeletion.SpliceOut` | redleaf/redleaf/src/libdata/tree.c:114-122 | A node with at most one child is replaced by that child below its parent |
| `TreeDeletion.TakePlace` | redleaf/redleaf/src/libdata/tree.c:124-139 | The successor gets all links of the node and all links to it |
| `TreeDeletion.Clear` | redleaf/redleaf/src/libdata/tree.c:158-160 | The deleted node ends without links and the tree does not notice |
| `TreeDeletion.ShrunkInorder` | redleaf/redleaf/src/libdata/tree.c:100-167 | Cutting out the root of a subtree joins the in-order sequences of its two sides |
| `TreeDeletion.RefitInorder` | redleaf/redleaf/src/libdata/tree.c:100-167 | The same seen from the gap: the tree with the raised subtree in the gap holds everything but the deleted node |
| `TreeDeletion.CutBelow` | redleaf/redleaf/src/libdata/tree.c:100-167 | Deleting a node in a subtree is deleting it in the whole tree |
| `TreeSearch.TreeLookup` | redleaf/redleaf/src/libdata/tree.c:169-198 | On any tree whose in-order sequence is sorted, a match is found exactly when there is one, in at most as many rounds as the tree is high; with the flag set it is the first match in order |
| `TreeSearch.FirstOccurrence` | redleaf/redleaf/src/libdata/tree.c:183-194 | The nested loop for the leftmost of equal keys ends at the first of them |
| `TreeSearch.TreeLowerBound` | redleaf/redleaf/src/libdata/tree.c:200-226 | The least key that is not below the argument, and with the flag set its first occurrence |
| `TreeSearch.BracketStep` | redleaf/redleaf/src/libdata/tree.c:207-222 | Each step of the search keeps smaller keys on the left and the others on the right |
| `Rotations.RotateLeft` | redleaf/redleaf/src/libdata/tree.c:441-465 | A left rotation in place; parent and sentinel links included |
| `Rotations.RotateRight` | redleaf/redleaf/src/libdata/tree.c:467-490 | A right rotation in place |
| `Rotations.LeftNodes` | redleaf/redleaf/src/libdata/tree.c:441-465 | A left rotation keeps nodes and in-order sequence |
| `Rotations.RightNodes` | redleaf/redleaf/src/libdata/tree.c:467-490 | A right rotation keeps nodes and in-order sequence |
| `RedBlack.RedBlackInsert` | redleaf/redleaf/src/libdata/redblack.c:64-123 | Insertion keeps every red-black rule and the black sentinel, and the new node lands at the stable place |
| `RedBlack.PushUpRed` | redleaf/redleaf/src/libdata/redblack.c:74-122 | The recolouring loop ends, since the depth of `node` falls, with all rules restored; the two bail-outs are unreachable |
| `RedBlack.PushStep` | redleaf/redleaf/src/libdata/redblack.c:74-119 | One round: either the red node moves up two levels or a rotation settles the tree |
| `RedBlack.RecolourFamily` | redleaf/redleaf/src/libdata/redblack.c:79-84 | A red uncle: parent and uncle turn black, the grandparent red |
| `RedBlack.RaiseLeft` | redleaf/redleaf/src/libdata/redblack.c:85-97 | A black uncle on the right: at most two rotations and two colour changes |
| `RedBlack.RaiseRight` | redleaf/redleaf/src/libdata/redblack.c:106-118 | The mirror image |
| `RedBlack.TurnOutLeft` | redleaf/redleaf/src/libdata/redblack.c:86-91 | The inner node is rotated outwards first |
| `RedBlack.LiftOverLeft` | redleaf/redleaf/src/libdata/redblack.c:92-94 | The parent is lifted over the grandparent |
| `RedBlack.TurnOutRight` | redleaf/redleaf/src/libdata/redblack.c:107-113 | The inner node is rotated outwards first, mirrored |
| `RedBlack.LiftOverRight` | redleaf/redleaf/src/libdata/redblack.c:114-116 | The parent is lifted over the grandparent, mirrored |
| `RedBlackTrees.RedUncle` | redleaf/redleaf/src/libdata/redblack.c:79-84 | Recolouring moves the only possible fault two levels up |
| `RedBlackTrees.BlackUncle` | redleaf/redleaf/src/libdata/redblack.c:85-97 | The rotation leaves no fault, and the in-order sequence is unchanged |
| `RedBlackTrees.InsertStart` | redleaf/redleaf/src/libdata/redblack.c:66-72 | A red leaf in a red-black tree breaks at most the rule about its parent |
| `RedBlackTrees.PlugRB` | redleaf/redleaf/src/libdata/redblack.c:64-230 | A tree is red-black exactly when a subtree and its surroundings keep their halves of the rules |
| `RedBlack.RedBlackDelete` | redleaf/redleaf/src/libdata/redblack.c:125-230 | Deletion removes exactly the given node, and the tree keeps a black root, no red node with a red child, equal black heights and right links |
| `RedBlack.ExchangeColours` | redleaf/redleaf/src/libdata/redblack.c:134-137 | The node that takes the place also takes the colour |
| `RedBlack.FillUp` | redleaf/redleaf/src/libdata/redblack.c:143-228 | The loop that makes up for the missing black node ends at the root at the latest, although the root is painted red meanwhile; afterwards all rules hold |
| `RedBlack.FillLeft` | redleaf/redleaf/src/libdata/redblack.c:146-182 | One round with the gap on the left: settled by a rotation or moved one level up; the sister is never the sentinel |
| `RedBlack.FillRight` | redleaf/redleaf/src/libdata/redblack.c:183-223 | One round with the gap on the right |
| `RedBlack.SettleLeft` | redleaf/redleaf/src/libdata/redblack.c:161-181 | The round once the sister is black, gap on the left |
| `RedBlack.SettleRight` | redleaf/redleaf/src/libdata/redblack.c:201-222 | The round once the sister is black, gap on the right |
| `RedBlack.SisterUpLeft` | redleaf/redleaf/src/libdata/redblack.c:152-160 | A red sister is rotated above the parent |
| `RedBlack.SisterUpRight` | redleaf/redleaf/src/libdata/redblack.c:192-200 | A red sister is rotated above the parent, mirrored |
| `RedBlack.StraightenRight` | redleaf/redleaf/src/libdata/redblack.c:165-176 | A red inner nephew takes the place of the sister |
| `RedBlack.StraightenLeft` | redleaf/redleaf/src/libdata/redblack.c:205-216 | A red inner nephew takes the place of the sister, mirrored |
| `RedBlack.RepayLeft` | redleaf/redleaf/src/libdata/redblack.c:177-181 | The last rotation makes up for the missing black node |
| `RedBlack.RepayRight` | redleaf/redleaf/src/libdata/redblack.c:217-221 | The last rotation makes up for the missing black node, mirrored |
| `RedBlack.FinishFill` | redleaf/redleaf/src/libdata/redblack.c:226-227 | Child and root end black, and that is all that is left to do |
| `RedBlack.PaintRoot` | redleaf/redleaf/src/libdata/redblack.c:122-122 | Painting the root through the sentinel, also when the tree is empty |
| `RedBlackTrees.SisterExists` | redleaf/redleaf/src/libdata/redblack.c:148-150 | While a black node is missing there is a sister, and a red sister has two children |
| `RedBlackTrees.RedSister` | redleaf/redleaf/src/libdata/redblack.c:152-160 | Rotating a red sister up leaves a black sister and the same shortage |
| `RedBlackTrees.BlackNephews` | redleaf/redleaf/src/libdata/redblack.c:161-163 | Reddening the sister moves the shortage one level up |
| `RedBlackTrees.RedNephew` | redleaf/redleaf/src/libdata/redblack.c:164-181 | With a red nephew the rotations end the shortage |
| `RedBlackTrees.DeleteEnd` | redleaf/redleaf/src/libdata/redblack.c:226-227 | Painting child and root black ends the shortage |
| `RedBlackTrees.RefitRB` | redleaf/redleaf/src/libdata/redblack.c:132-143 | Cutting a black node out of a red-black tree leaves exactly one black node missing at the gap; cutting out a red one leaves none |
| `AvlTree.AvlInsert` | redleaf/redleaf/src/libdata/avl.c:71-85 | Insertion keeps exact balance marks, the mark of the sentinel and the stable order |
| `AvlTree.Insert` | redleaf/redleaf/src/libdata/avl.c:270-297 | The recursive insertion through a pointer to a link: the result is true exactly when that subtree has become one level higher |
| `AvlTree.FixBalance` | redleaf/redleaf/src/libdata/avl.c:191-268 | A subtree whose `bal` side has become one level higher than its mark says is rebalanced to exact marks; its height is what the new mark tells |
| `AvlTree.LightenLeft` | redleaf/redleaf/src/libdata/avl.c:205-235 | The three left-heavy cases, a single rotation or a double one |
| `AvlTree.LightenRight` | redleaf/redleaf/src/libdata/avl.c:236-266 | The three right-heavy cases |
| `AvlTree.LightenTwiceLeft` | redleaf/redleaf/src/libdata/avl.c:217-234 | The double rotation over the left child |
| `AvlTree.LightenTwiceRight` | redleaf/redleaf/src/libdata/avl.c:248-265 | The double rotation over the right child |
| `AvlTree.RotateTwiceLeft` | redleaf/redleaf/src/libdata/avl.c:232-233 | Its two rotations |
| `AvlTree.RotateTwiceRight` | redleaf/redleaf/src/libdata/avl.c:263-264 | Its two rotations, mirrored |
| `AvlTree.TurnLeft` | redleaf/redleaf/src/libdata/avl.c:165-176 | The three nodes of a left rotation get their new links, the link to the subtree excepted |
| `AvlTree.TurnRight` | redleaf/redleaf/src/libdata/avl.c:178-189 | The three nodes of a right rotation get their new links, the link to the subtree excepted |
| `AvlTree.RotateSlotLeft` | redleaf/redleaf/src/libdata/avl.c:165-176 | A left rotation through the link that points to the subtree |
| `AvlTree.RotateSlotRight` | redleaf/redleaf/src/libdata/avl.c:178-189 | A right rotation through the link that points to the subtree |
| `AvlTrees.LeftRebalanced` | redleaf/redleaf/src/libdata/avl.c:205-235 | The marks written in the left-heavy cases are the signs of the new height differences |
| `AvlTrees.RightRebalanced` | redleaf/redleaf/src/libdata/avl.c:236-266 | The marks written in the right-heavy cases are the signs of the new height differences |
| `AvlTrees.Remarked` | redleaf/redleaf/src/libdata/avl.c:197-200 | Where no rotation is needed the new mark is exact |
| `AvlTrees.PlugAvl` | redleaf/redleaf/src/libdata/avl.c:191-268 | A tree has exact marks exactly when a subtree and its surroundings do |
| `AvlTree.AvlDelete` | redleaf/redleaf/src/libdata/avl.c:87-141 | Deletion removes exactly the given node and restores exact balance marks, the mark of the sentinel included |
| `AvlTree.RestoreBalance` | redleaf/redleaf/src/libdata/avl.c:107-140 | The upward walk: as long as the subtree has lost a level it goes on, and it stops with every mark exact; the bail-outs are unreachable |
| `AvlTree.BalanceParent` | redleaf/redleaf/src/libdata/avl.c:108-132 | One step: afterwards the subtree has lost a level exactly when its mark is BALANCED |
| `AvlTree.CopyMark` | redleaf/redleaf/src/libdata/avl.c:98-98 | The node that takes the place also takes the balance mark |
| `AvlTrees.SunkStep` | redleaf/redleaf/src/libdata/avl.c:107-140 | If a side of a node has lost a level, the rebalanced node has lost one exactly when it is balanced now |
| `AvlTrees.RefitAvl` | redleaf/redleaf/src/libdata/avl.c:95-99 | Cutting a node out of a balanced tree leaves one subtree a level lower than its marks say, and no other fault |
| `AvlBuild.AvlConvertFromList` | redleaf/redleaf/src/libdata/avl.c:143-162 | The bulk build yields the same in-order sequence, exact marks, the least possible height and every node in the middle of its subtree; the list cursor ends at the sentinel |
| `AvlBuild.MakeTree` | redleaf/redleaf/src/libdata/avl.c:299-332 | Consumes exactly `count` list nodes in order and returns a tree of least height with exact marks and every node in the middle of its subtree; the left half is never the higher one |
| `AvlBuild.TakeRoot` | redleaf/redleaf/src/libdata/avl.c:316-321 | The middle node is taken from the list and put over the left half |
| `AvlBuild.JoinRight` | redleaf/redleaf/src/libdata/avl.c:322-331 | The right half is linked and the mark written |
| `AvlBuild.Join` | redleaf/redleaf/src/libdata/avl.c:325-329 | Two halves of least height under one node are of least height again, and the right one is never the lower |
| `AvlBuild.Crown` | redleaf/redleaf/src/libdata/avl.c:156-161 | The finished tree hangs below the sentinel |
| `SplayTree.SplayInsert` | redleaf/redleaf/src/libdata/splay.c:59-65 | The new node lands at the stable place of the sequence; the tree is the one that plain insertion makes, splayed at the new node, with as many rotations as that was deep |
| `SplayTree.SplayLookup` | redleaf/redleaf/src/libdata/splay.c:73-82 | A match is found exactly when there is one; then the tree is splayed at it, else it is unchanged; without the duplicate flag search rounds and rotations are equal in number |
| `SplayTree.SplayDelete` | redleaf/redleaf/src/libdata/splay.c:67-71 | Deletion is that of the plain tree |
| `SplayTree.SplayToRoot` | redleaf/redleaf/src/libdata/splay.c:63-64 | Repeated steps end with the node at the root and the sequence unchanged, after as many rotations as the node was deep |
| `SplayTree.SplayNode` | redleaf/redleaf/src/libdata/splay.c:108-148 | One splay step, with all bail-outs unreachable. In the straight case the grandparent ends as the child of the parent and the parent as the child of the node, on the other side; in the bent case both end as children of the node |
| `SplayTree.SplayedTree` | redleaf/redleaf/src/libdata/splay.c:108-148 | A step lifts the node by two levels, or by one below the root, and keeps the sequence |
| `SplayTree.SplayedLinks` | redleaf/redleaf/src/libdata/splay.c:108-148 | The same read off the links of the tree after a step |
| `SplayCost.Access` | redleaf/redleaf/src/libdata/splay.c:63-64 | The access lemma: for a node at depth d in a tree of n nodes, with s of them below it, 2^d times the potential after the splay, times s^3, is at most twice the potential before, times n^3; the potential is the product of the sizes of all subtrees |
| `SplayCost.StepCost` | redleaf/redleaf/src/libdata/splay.c:115-145 | A step over two levels: the growth of the subtree pays for both rotations; this needs the upper rotation of the straight case to come first |
| `SplayCost.ZigCost` | redleaf/redleaf/src/libdata/splay.c:115-133 | The step below the root pays for all but one rotation |
| `SplayCost.HitCost` | redleaf/redleaf/src/libdata/splay.c:73-82 | A hit among n nodes costs at most 1 + 3 log n beyond what the potential pays |
| `SplayCost.InsertCost` | redleaf/redleaf/src/libdata/splay.c:59-65 | An insertion that leaves n nodes costs at most 1 + 4 log n beyond what the potential pays |
| `SplayCost.GrownPotential` | redleaf/redleaf/src/libdata/tree.c:64-98 | A new leaf multiplies the potential by at most the new number of nodes |
| `SplayCost.CutPotential` | redleaf/redleaf/src/libdata/splay.c:67-71 | Deletion does not raise the potential |
| `SplayCost.PathHalved` | redleaf/redleaf/src/libdata/splay.c:63-64 | Splaying brings every node above the one splayed to half its depth and at most 2.5 more |
| `SplayCost.LiftedBelow` | redleaf/redleaf/src/libdata/splay.c:63-64 | A node below it gets further from it by at most half the way it rises |
| `SplayTree.RightZigZig` | redleaf/redleaf/src/libdata/splay.c:84-88 | Two right rotations, the upper one first |
| `SplayTree.LeftZigZig` | redleaf/redleaf/src/libdata/splay.c:90-94 | Two left rotations, the upper one first |
| `SplayTree.RightZigZag` | redleaf/redleaf/src/libdata/splay.c:96-100 | A right rotation below a left one |
| `SplayTree.LeftZigZag` | redleaf/redleaf/src/libdata/splay.c:102-106 | A left rotation below a right one |
| `SortedList.ListInit` | redleaf/redleaf/src/libdata/lslist.c:68-72 | The empty ring |
| `SortedList.ListInsert` | redleaf/redleaf/src/libdata/lslist.c:74-86 | The node is linked in front of the first greater key: the stable insertion |
| `SortedList.InsertBefore` | redleaf/redleaf/src/libdata/lslist.c:166-178 | Linking before any position of the ring, the sentinel included |
| `SortedList.ListDelete` | redleaf/redleaf/src/libdata/lslist.c:88-97 | Exactly the given node leaves the ring |
| `SortedList.ListLookup` | redleaf/redleaf/src/libdata/lslist.c:99-109 | The first match, or none |
| `SortedList.ListLowerBound` | redleaf/redleaf/src/libdata/lslist.c:111-121 | The first entry whose key is not smaller, or none |
| `SortedList.ListFirst` | redleaf/redleaf/src/libdata/lslist.c:135-138 | The first entry, or none |
| `SortedList.ListLast` | redleaf/redleaf/src/libdata/lslist.c:140-143 | The last entry, or none |
| `SortedList.ListNext` | redleaf/redleaf/src/libdata/lslist.c:145-148 | The entry after, or none |
| `SortedList.ListPrev` | redleaf/redleaf/src/libdata/lslist.c:150-153 | The entry before, or none |
| `SortedList.InsertedAt` | redleaf/redleaf/src/libdata/lslist.c:78-85 | Going by the first greater key alone is the stable insertion |
| `SortedList.SpliceIn` | redleaf/redleaf/src/libdata/lslist.c:166-178 | Four link writes insert an entry into the ring |
| `SortedList.SpliceOutOf` | redleaf/redleaf/src/libdata/lslist.c:88-97 | Two link writes take an entry out of the ring |
| `Order.InsertedBetween` | redleaf/redleaf/src/libdata/tree.c:71-83 | Stable insertion puts an entry behind all keys no greater and before all greater ones |
| `Order.InsertedLeft` | redleaf/redleaf/src/libdata/avl.c:283-288 | Insertion below a smaller key stays in the left part |
| `Order.InsertedRight` | redleaf/redleaf/src/libdata/avl.c:289-294 | Insertion at a key no smaller stays in the right part |
| `Order.RemovedBetween` | redleaf/redleaf/src/libdata/lslist.c:88-97 | Removal takes out one entry and leaves the others in place |
| `TreeToList.ConvertToList` | redleaf/redleaf/src/libdata/tree.c:330-362 | The tree becomes a circular doubly linked list through the sentinel that equals its in-order sequence |
| `TreeToList.LinkBack` | redleaf/redleaf/src/libdata/tree.c:347-352 | The first pass writes previous links into the left links of the tree that it is still walking, and still visits every node in order |
| `TreeToList.LinkForward` | redleaf/redleaf/src/libdata/tree.c:354-357 | The second pass follows the previous links and writes the next ones |
| `TreeToList.Thread` | redleaf/redleaf/src/libdata/tree.c:344-357 | Both passes together link the nodes in both directions |
| `TreeToList.CloseRing` | redleaf/redleaf/src/libdata/tree.c:358-361 | The temporary sentinel is exchanged for the real one |
| `ListToTree.ConvertFromList` | redleaf/redleaf/src/libdata/redblack.c:232-315 | The row-wise rebuild, with colours or without: the same in-order sequence for every count; up to 131071 nodes all rows but the last are full and the last one is filled from the left; and the coloured result is red-black if and only if the count is at most 131071 or all its base-4 digits behind the leading one are 2 or 3 |
| `ListToTree.FullCount` | redleaf/redleaf/src/libdata/redblack.c:249-252 | The number of nodes in full rows, capped at 65535 |
| `ListToTree.TakeNode` | redleaf/redleaf/src/libdata/redblack.c:254-299 | One list node: `level!=baselevel` never occurs, and the wrapping bottom-row counter does not reach zero a second time |
| `ListToTree.Turn` | redleaf/redleaf/src/libdata/redblack.c:257-270 | The end of the bottom row |
| `ListToTree.TakeSingle` | redleaf/redleaf/src/libdata/redblack.c:272-288 | The node becomes a finished subtree of its own |
| `ListToTree.TakePush` | redleaf/redleaf/src/libdata/redblack.c:289-297 | The node waits for its right subtree |
| `ListToTree.Carry` | redleaf/redleaf/src/libdata/redblack.c:282-287 | Finished subtrees complete the waiting nodes above them, and the 64 slots are enough |
| `ListToTree.CloseSpine` | redleaf/redleaf/src/libdata/redblack.c:299-308 | What is still waiting is closed at the end |
| `ListToTree.Plant` | redleaf/redleaf/src/libdata/redblack.c:310-314 | The finished tree hangs below the sentinel, root and sentinel black |
| `ListToTree.LevelBound` | redleaf/redleaf/src/libdata/tree.c:366-366 | A counter that fits a machine word stays within 64 levels |
| `ListToTree.PhaseLast` | redleaf/redleaf/src/libdata/redblack.c:254-258 | When the bottom row ends, what is to come fills exactly the full rows |
| `ListToTree.ClosedRows` | redleaf/redleaf/src/libdata/redblack.c:299-308 | When the count fits the rows every level is waiting, so that closing yields full rows |
| `ListToTree.EndRows` | redleaf/redleaf/src/libdata/redblack.c:232-315 | With at most twice the cap plus one nodes the counter ends with every row full but the last, and that filled from the left |
| `ListToTree.ChainRB` | redleaf/redleaf/src/libdata/redblack.c:299-314 | Closing the waiting nodes yields a red-black tree exactly when the black heights match level by level |
| `ListToTree.ChainDigits` | redleaf/redleaf/src/libdata/redblack.c:299-314 | That can be read off the base-4 digits of the count |
| `ListToTree.EndDigits` | redleaf/redleaf/src/libdata/redblack.c:232-315 | Above the cap the result is red-black exactly when the digits allow it |
| `RowTrees.RowRB` | redleaf/redleaf/src/libdata/redblack.c:276-276 | Colours that alternate from row to row satisfy the red-black rules |
| `RowTrees.RowHeight` | redleaf/redleaf/src/libdata/tree.c:364-439 | Only the last row may be incomplete, and it is not empty |
| `RowTrees.RowMinimal` | redleaf/redleaf/src/libdata/tree.c:364-439 | No tree with as many nodes is lower |
| `Buddy.Bbuddy.constructor` | redleaf/redleaf/src/liballoc/bbuddy.c:39-66 | A new area of 32 or 64 parts is one free block |
| `Buddy.Bbuddy.BlockAlloc` | redleaf/redleaf/src/liballoc/bbuddy.c:71-74 | The failure code comes back exactly when no free block of the requested size or larger exists, and then nothing changes; otherwise the block returned lies in the first of the smallest free blocks that will do, was not handed out before, and is the only new block handed out |
| `Buddy.Bbuddy.Serve` | redleaf/redleaf/src/liballoc/bbuddy.c:71-74 | Over any series of requests no two of the blocks returned share a part of the area; each request is served from the state the one before left, and fails exactly when no free block there is large enough |
| `Buddy.Bbuddy.Alloc` | redleaf/redleaf/src/liballoc/bbuddy.c:148-218 | The climb to a layer with a free block and the descent by halving end and serve the request |
| `Buddy.Bbuddy.Search` | redleaf/redleaf/src/liballoc/bbuddy.c:153-166 | The first free block of a layer, by bits in the first word and by words beyond |
| `Buddy.Bbuddy.Use` | redleaf/redleaf/src/liballoc/bbuddy.c:166-167 | A block changes from free to handed out |
| `Buddy.Bbuddy.Halve` | redleaf/redleaf/src/liballoc/bbuddy.c:169-182 | A free block changes into two free halves, at the right word and bit for every layer |
| `Buddy.Bbuddy.Separate` | redleaf/redleaf/src/liballoc/bbuddy.c:198-208 | The bit writes of a halving |
| `Buddy.Bbuddy.Number` | redleaf/redleaf/src/liballoc/bbuddy.c:168-168 | Word and bit give back the number of the block within its layer |
| `Buddy.Bbuddy.Release` | redleaf/redleaf/src/liballoc/bbuddy.c:84-121 | The number of the first part of a block handed out leads down to exactly that block; it is freed and joined with free mates upwards, and a free block is left alone. Once the marks were right they stay right if and only if a condition on the bitmaps before the call holds: with `e` the block that joining ends with, nothing is joined (`e == x`), the whole area is (`e == 1`), or `e` is at least 16 and, unless it is at least 32, no block among 32 to 63 is separated but the parent of `x` |
| `Buddy.KeptExact` | redleaf/redleaf/src/liballoc/bbuddy.c:123-145 | That condition, read off the free blocks and the separated ones, holds exactly when no block left separated has its mark overwritten by the words written on the way up |
| `Buddy.Bbuddy.MarkedSigned` | redleaf/redleaf/src/liballoc/bbuddy.c:84-121 | With right marks every block, free or handed out, is one that Release can find |
| `Buddy.Bbuddy.Largest` | redleaf/redleaf/src/liballoc/bbuddy.c:96-101 | The search starts at the largest block that begins at the part |
| `Buddy.Bbuddy.Layers` | redleaf/redleaf/src/liballoc/bbuddy.c:95-95 | The number of layers |
| `Buddy.Bbuddy.Candidate` | redleaf/redleaf/src/liballoc/bbuddy.c:103-107 | Every block on the way down is separated until the one to release is reached |
| `Buddy.Bbuddy.ReleaseBlock` | redleaf/redleaf/src/liballoc/bbuddy.c:107-110 | Freeing and joining |
| `Buddy.Bbuddy.GiveBack` | redleaf/redleaf/src/liballoc/bbuddy.c:108-108 | A block changes from handed out to free |
| `Buddy.Bbuddy.SplitUp` | redleaf/redleaf/src/liballoc/bbuddy.c:123-145 | Free mates are joined as long as there are any |
| `Buddy.Bbuddy.Join` | redleaf/redleaf/src/liballoc/bbuddy.c:128-139 | One joining step, with the whole word of marks overwritten |
| `Buddy.Bbuddy.SetAllBut` | redleaf/redleaf/src/liballoc/bbuddy.c:131-132 | The complement mask sets every other bit of the word |
| `Buddy.Bbuddy.Address` | redleaf/redleaf/src/liballoc/bbuddy.c:105-106 | Word and bit of a block and of its mate |
| `Buddy.Bbuddy.DescentBits` | redleaf/redleaf/src/liballoc/bbuddy.c:107-117 | On the way down the bits say separated until the block to release, whose bits say whether it is handed out or free |
| `Buddy.OneHolder` | redleaf/redleaf/src/liballoc/bbuddy.c:148-218 | Every block is separated or lies in exactly one block that is free or handed out |
| `Buddy.Tiling` | redleaf/redleaf/src/liballoc/bbuddy.c:148-218 | Free blocks and blocks handed out tile the area |
| `Buddy.DisjointBlocks` | redleaf/redleaf/src/liballoc/bbuddy.c:148-218 | Two different blocks share no part |
| `Buddy.TakenSound` | redleaf/redleaf/src/liballoc/bbuddy.c:165-168 | Handing out a free block keeps the tiling |
| `Buddy.HalvedSound` | redleaf/redleaf/src/liballoc/bbuddy.c:169-179 | Halving a free block keeps the tiling |
| `Buddy.CarvedSound` | redleaf/redleaf/src/liballoc/bbuddy.c:148-218 | What is handed out lies in the block chosen, has the requested size and overlaps nothing handed out |
| `Buddy.BestHalf` | redleaf/redleaf/src/liballoc/bbuddy.c:169-182 | After a halving the first half is the best block |
| `Buddy.JoinedSound` | redleaf/redleaf/src/liballoc/bbuddy.c:123-145 | Joining two free mates keeps the tiling |
| `Buddy.MergedSound` | redleaf/redleaf/src/liballoc/bbuddy.c:123-145 | Joining upwards keeps the tiling and everything handed out |
| `Buddy.MergedCompact` | redleaf/redleaf/src/liballoc/bbuddy.c:123-145 | After a release no two mates are free |
| `Buddy.CarvedCompact` | redleaf/redleaf/src/liballoc/bbuddy.c:148-218 | After an allocation no two mates are free |
| `Buddy.RoundTrip` | redleaf/redleaf/src/liballoc/bbuddy.c:84-145 | A release right after an allocation restores the area, block by block |
| `Buddy.WholeAgain` | redleaf/redleaf/src/liballoc/bbuddy.c:84-145 | Once everything is given back the area is one free block again |
| `Buddy.MarksLost` | redleaf/redleaf/src/liballoc/bbuddy.c:131-132 | A new area, two allocations and one release: afterwards block 1 is separated and its mark is gone |
| `Buddy.ChainSplit` | redleaf/redleaf/src/liballoc/bbuddy.c:111-117 | Every block above a block that exists is separated |
| `Delivery.Deliver` | redleaf/redleaf/src/serv.c:318-444 | For every schedule of partial writes, retries and broken pipes the bytes taken are a beginning of the reply, and all of it once the connection is done; a broken pipe that meets an unfinished reply ends in ST_ERROR, and nothing else does; if every call gets a byte through, it is done after as many calls as there are bytes, and two more |
| `Delivery.Connection.WriteConnection` | redleaf/redleaf/src/serv.c:318-444 | One call keeps that. From the state before it: where the whole page has been sent and no file follows, ST_DONE without a write; otherwise ST_ERROR exactly on a broken pipe, and ST_DONE exactly when the file part completes the reply; and exactly as many bytes are sent as the socket takes of the rest of the page or of the next chunk |
| `Delivery.Connection.Proceed` | redleaf/redleaf/src/serv.c:335-444 | The same once the guards are passed |
| `Delivery.Connection.Select` | redleaf/redleaf/src/serv.c:337-358 | The next part of the reply, or the end exactly when the page has been sent and no file follows |
| `Delivery.Connection.WriteBody` | redleaf/redleaf/src/serv.c:359-372 | Head and body from one pointer: all that is left is offered |
| `Delivery.Connection.WriteFile` | redleaf/redleaf/src/serv.c:373-441 | A chunk of the file, and the end exactly when none is left after it |
| `Delivery.SendBody` | redleaf/redleaf/src/serv.c:360-371 | After any outcome the pointer stands in front of the first byte not taken, and the length has gone down by the bytes taken |
| `Delivery.SendFile` | redleaf/redleaf/src/serv.c:374-396 | After any outcome but a broken pipe the offset of the session is the file length less the bytes to go, and the bytes sent are those the socket takes of a full buffer or of the rest |
| `Delivery.Locate` | redleaf/redleaf/src/serv.c:374-380 | Before the first chunk the session is put to the start of the range; it stands where the bytes to go begin exactly when the range begins within the file |
| `Delivery.FirstChunk` | redleaf/redleaf/src/serv.c:373-384 | For any range: the length to go and the first chunk are those of the file from the range on if and only if the range is at most the length of the file; beyond it the length is 2^64 less the excess |
| `Delivery.Write` | redleaf/redleaf/src/serv.c:360-361 | What the socket takes is a beginning of what is offered |
| `Delivery.Advance` | redleaf/redleaf/src/serv.c:370-371 | Moving the pointer by the bytes taken keeps its place in the reply |
| `Delivery.ChunkOfFile` | redleaf/redleaf/src/file.c:107-112 | A chunk is the next stretch of the reply |
| `Delivery.FileSession.Read` | redleaf/redleaf/src/file.c:103-119 | The chunk at the current offset, cut short at the end of the file; its length is that of the bytes read exactly when the offset is within the file |
| `Delivery.FileSession.UpdOffset` | redleaf/redleaf/src/file.c:93-101 | Descriptor offset and recorded offset agree, and both stay where an offset is negative as a signed word |
| `Delivery.Page.Normalize` | redleaf/redleaf/src/page.c:138-157 | Head and body are kept, and lie one behind the other in memory unless the body is in a file |
| `Delivery.Page.Denormalize` | redleaf/redleaf/src/page.c:159-176 | Head and body are kept, in memory of their own again |
| `Config.RoundTrip` | redleaf/redleaf/src/conf.c:217-342 | For every list of well-formed sections, empty ones included, with any of the characters 9 to 13 and 32 and line comments between any two characters, reading gives back names, arguments and ordered variables |
| `Config.ReadBack` | redleaf/redleaf/src/conf.c:217-342 | The reader itself returns that on every such text, and nothing is lost if and only if there is a section and each one has an argument and a variable |
| `Config.ReadSynTree` | redleaf/redleaf/src/conf.c:217-342 | Reading fails if and only if the braces do not match, there is no section, a head is rejected, or a section other than the last has lines but no semicolon; otherwise the sections are returned in order, each with its variables, without any, or with that field never written; and no name, argument or value has a blank or a number sign in it |
| `Config.NothingLost` | redleaf/redleaf/src/conf.c:300-335 | Sections come back unchanged exactly when each has an argument, as an empty one is stored as `ERR`, and a variable, as otherwise the field for them is not written |
| `Config.Preprocess` | redleaf/redleaf/src/conf.c:239-255 | Blanks and comments are dropped, none is left, and the braces are counted |
| `Config.LineEnd` | redleaf/redleaf/src/conf.c:241-244 | A comment ends before its newline |
| `Config.CutSections` | redleaf/redleaf/src/conf.c:275-287 | The first pass succeeds exactly when every stretch is a section and none but the last has lines without a semicolon; then the pieces are the names, arguments and lines in order |
| `Config.AdvanceRight` | redleaf/redleaf/src/conf.c:284-285 | The computed advance is the length of the section exactly when the section is empty or has a semicolon |
| `Config.NextChunk` | redleaf/redleaf/src/conf.c:361-391 | What is read next passes the checks on the head exactly when the reader stands at the start of a section; in the rest of a section left uncopied it fails them, wherever the next opening brace is |
| `Config.Onward` | redleaf/redleaf/src/conf.c:284-285 | After the advance the reader faces the next section, or behind an uncopied text all of it but its first character; the one character of the buffer that was changed is behind it |
| `Config.ReadSection` | redleaf/redleaf/src/conf.c:356-374 | One chunk up to a closing brace; afterwards the buffer is as it was, except for the first character of a section without semicolons |
| `Config.ReadSeek` | redleaf/redleaf/src/conf.c:376-431 | Name, argument and lines of one section; refused exactly when the head is short or the brackets are wrong. The search for the opening brace may go beyond the chunk |
| `Config.CheckHead` | redleaf/redleaf/src/conf.c:382-391 | The two checks on the head |
| `Config.ReadHead` | redleaf/redleaf/src/conf.c:393-412 | Name and argument, cut out by temporary terminators that are taken back |
| `Config.ReadArg` | redleaf/redleaf/src/conf.c:396-403 | The argument, nothing being copied when the brackets are empty |
| `Config.ReadData` | redleaf/redleaf/src/conf.c:413-428 | The lines of the section; without a semicolon nothing is copied and the character there is increased by two |
| `Config.HeadValid` | redleaf/redleaf/src/conf.c:433-448 | Exactly one opening and one closing bracket in the whole section |
| `Config.ScanLines` | redleaf/redleaf/src/conf.c:463-473 | The number of semicolons up to the closing brace |
| `Config.CountLines` | redleaf/redleaf/src/conf.c:309-309 | The number of semicolons in the copied lines |
| `Config.ScanExpr` | redleaf/redleaf/src/conf.c:344-354 | The number of semicolons less the number of equality signs |
| `Config.ReadVars` | redleaf/redleaf/src/conf.c:315-332 | The variables in order, names up to `=` and values up to `;`, whatever follows the last one |
| `Config.Interpret` | redleaf/redleaf/src/conf.c:300-335 | The tree entry of a section; uneven lines leave no variables, and without a semicolon that field is not written |
| `Config.Seek` | redleaf/redleaf/src/conf.c:393-393 | The next occurrence of a delimiter |
| `Config.Skip` | redleaf/redleaf/src/conf.c:317-324 | The next occurrence of a delimiter in the lines |
| `Config.CutOut` | redleaf/redleaf/src/conf.c:394-402 | A piece of text is copied and the buffer restored |
| `Config.StrDup` | redleaf/redleaf/src/conf.c:395-401 | A copy up to the terminating character |
| `Config.StripWeave` | redleaf/redleaf/src/conf.c:239-255 | Blanks and terminated comments leave no trace |
| `Config.Unweave` | redleaf/redleaf/src/conf.c:239-255 | The converse: every text in which comments end is what the first pass leaves of it with blanks and comments put in, so that nothing else is dropped and none of them stays |
| `Config.DenseMeanings` | redleaf/redleaf/src/conf.c:300-332 | What is cut out of a text without blanks has none |
| `Config.Verdict` | redleaf/redleaf/src/conf.c:384-410 | A section with a name or an argument passes the checks on the head |
| `Config.PairTextPlain` | redleaf/redleaf/src/conf.c:344-354 | Assignments contribute one semicolon and one equality sign each |

## Left out

- Interface.Insert: a key already held, with the duplicate flag set, is excluded for red-black and splay trees: the test in tree.c is inverted, the node is not linked, and the code goes on as if it were. The other three structures are covered.
- Interface.Lookup: the rounds of a search in the list are not counted, and those in a splay tree with the duplicate flag set are bounded by the height only.
- Runs.SplayRun: the walk of a deletion to the successor, which no splay follows, is not part of the cost; nor are searches that miss.
- `usrtc_tree_upper_bound` and `list_upper_bound` (tree.c:228-254, lslist.c:123-133): both walk in the wrong direction, so that no bound is computed.
- The caller's comparison function, which may be any order: keys stand for their rank in it. The data pointer of a node, the allocation callbacks, `usrtc_alloc_insert`, `usrtc_delete_free` and the setters of usrtc.c.
- `usrtc_isfull` and `maxcount`: nothing in the library checks the limit on insertion.
- The count of nodes is below 2^64, as each node takes up memory.
- ListToTree.ConvertFromList: one method stands for both loops, with a flag for the colours; the loops differ in nothing else.
- Areas of the buddy allocator with other than 32 or 64 parts, for which the word arithmetic of bbuddy.c does not hold.
- Buddy.Bbuddy.Release: asks that the number is that of the first part of a block handed out or free, with right marks on the blocks above it that start there, as they are after any allocation and any release that keeps the marks. What a release of a part within a block does, or one led astray by a lost mark, is not described.
- Delivery.Connection.WriteConnection: the range of a page must begin within the file or at its end; what is set up for another range is in `FirstChunk`, but not how the connection goes on from there. `read` on the file is taken to succeed, and `lseek` unless the offset is negative.
- Blocks of memory that are written once, the head and body of a page and the buffer of a file session, are values and not arrays; so aliasing between them is not modelled.
- The file session is supplied from outside, because nothing in the server opens one; sockets, `select`, signals, child processes and the module branches of serv.c.
- Config.ReadSynTree: texts on which the C code searches beyond the end of a text are excluded: an unterminated comment, brackets or braces in the wrong order, lines in which `=` and `;` are equal in number but do not alternate, and text without a semicolon in the last section but one if the last one has no head. The buffers get the byte and the slot that the code is one short of.
- Integers of the configuration reader are unbounded.
- Cache eviction in page.c, which frees a node that is still linked.
- http.c, scstr.c, memmap.c, poolpage.c, MIME tables, directory listings, CGI and start-up.
