# AVL tree container, modelled in Dafny

This project models the `AVL<T>` template of `AVL/AVL.h`, with `int` as the
element type. The template is a self-balancing binary search tree. It keeps:

- a root slot;
- the vertex found by the last `find` (`finder`);
- an element counter (`numberOfElements`).

Every insertion and removal recurses down one path. On the way back up, each
vertex on that path gets its height updated and is rebalanced by rotations.
`balance` is written with single and double rotations, but as written it
never chooses a double rotation while the heavy vertex's child is itself
AVL, which is exactly the LR/RL case where the AVL rule needs one. A double
rotation is reached only after a single rotation lower down has already
broken the bound (see Findings). The model's
`InsertAt` and `RemoveAt` use the corrected `balance`; `InsertAtAsWritten`
keeps the insertion as written, and a run of it that breaks the AVL bound is
shown. An in-order `Iterator` enumerates the values with an
explicit stack.

Modules, in dependency order:

- `AvlTree` (`avl_tree.dfy`): the vertices as a datatype `Tree`, and the three
  invariants the container keeps. `Ordered` is binary-search order (not
  strict, since duplicates are stored). `HeightsOk` says the stored heights
  are correct. `HeightBalanced` is the AVL bound. This module also proves
  that order means a sorted in-order sequence, and that an AVL tree's height
  is logarithmic in its size.
- `AvlBalance` (`avl_balance.dfy`): `getHeight`, `updateHeight`, `getWeight`,
  both rotations and `balance`. `balance` appears twice: as written and
  corrected (see Findings).
- `AvlSearch` (`avl_search.dfy`): the recursive `find`, and the
  leftmost/rightmost walks behind `getMin` and `getMax`.
- `AvlUpdate` (`avl_update.dfy`): the recursive `insert` and `remove`, with
  proofs that they preserve order, heights and balance, and how they change
  the stored multiset.
- `AvlIterator` (`avl_iterator.dfy`): the stack-based in-order iterator as a
  class.
- `AvlContainer` (`avl_container.dfy`): the class `AVL` with fields `root`,
  `finder` and `numberOfElements`, and its public operations.
- `AvlScenarios` (`avl_scenarios.dfy`): worked runs for arbitrary ordered
  values, and the inputs behind the findings.

No vertex is ever reachable from two places, and every structural change in
the source (rotations rewrite three links, a two-child removal overwrites a
vertex's `data`) touches only links and fields inside the subtree hanging
from one `Vertex*&` slot. So a subtree is modelled as a value, and each
routine that takes a slot is a function that returns the subtree that ends
up in the slot. The container and the iterator keep their mutable
fields as Dafny classes.

Equal values go left: only a strictly larger value goes right
(`AVL/AVL.h:289-295`).

## Model

| member | source | states |
|---|---|---|
| AvlTree.Leaf | AVL/AVL.h:21-22 | a newly created vertex has height 0 and holds exactly its value; on its own it is ordered and AVL |
| AvlTree.Max | AVL/AVL.h:544-547 | the result is one of the two arguments and at least as large as both |
| AvlTree.Height | AVL/AVL.h:401-406 | the height of a slot is -1 exactly when the slot is empty, and never below -1 |
| AvlTree.StoredHeightIsDepth | AVL/AVL.h:492-499 | where every vertex stores 1 + the larger child height, the stored height of the root is the height of the subtree's shape |
| AvlTree.OrderedIffSorted | AVL/AVL.h:289-295 | binary-search order holds exactly when the in-order sequence is non-decreasing (both directions) |
| AvlTree.OrderedSameContentsSameInorder | AVL/AVL.h:289-295 | two ordered trees storing the same multiset of values have the same in-order sequence, whatever their shapes |
| AvlTree.AvlSizeBound | AVL/AVL.h:422-456 | an AVL tree of height h holds at least 2^((h+1)/2) - 1 values, so its height is logarithmic in its size |
| AvlBalance.Weight | AVL/AVL.h:408-420 | ERROR exactly for an empty slot, LEFT_HEAVY exactly when the left height exceeds the right by more than one, RIGHT_HEAVY exactly for the mirror case |
| AvlBalance.HeightBalancedIffNoHeavyVertex | AVL/AVL.h:408-420 | the AVL bound holds exactly where getWeight reports no vertex as heavy |
| AvlBalance.UpdateHeight | AVL/AVL.h:492-499 | the vertex's children and value stay; its stored height becomes 1 + the larger child height; correct heights below give correct heights at the vertex; an already correct vertex is unchanged |
| AvlBalance.RotateLeft | AVL/AVL.h:458-473 | needs a right child; keeps the in-order sequence; leaves correct heights on both moved vertices whenever the three reattached subtrees (the old left subtree and both subtrees of the right child) have them |
| AvlBalance.RotateRight | AVL/AVL.h:475-490 | needs a left child; keeps the in-order sequence; leaves correct heights on both moved vertices whenever the three reattached subtrees (both subtrees of the left child and the old right subtree) have them |
| AvlBalance.Lean | AVL/AVL.h:428-443 | the corrected classification of the heavy vertex's child: LeftHeavy or RightHeavy exactly by the sign of its height difference |
| AvlBalance.BalanceAsWritten | AVL/AVL.h:422-456 | balance with the child classified by getWeight: keeps the in-order sequence, presence and correct heights |
| AvlBalance.Balance | AVL/AVL.h:422-456 | balance with the child classified by Lean: keeps the in-order sequence, presence and correct heights |
| AvlBalance.RotateRightFixesLeftLeft | AVL/AVL.h:428-433 | in the LL case balance picks the single right rotation, and its result is AVL with height lowered by at most one |
| AvlBalance.DoubleRotationFixesLeftRight | AVL/AVL.h:435-439 | in the LR case the corrected balance rotates the child left and then the vertex right, and the result is AVL and one level lower |
| AvlBalance.RotateLeftFixesRightRight | AVL/AVL.h:442-447 | in the RR case balance picks the single left rotation, and its result is AVL with height lowered by at most one |
| AvlBalance.DoubleRotationFixesRightLeft | AVL/AVL.h:449-453 | in the RL case the corrected balance rotates the child right and then the vertex left, and the result is AVL and one level lower |
| AvlBalance.BalanceRestoresAvl | AVL/AVL.h:422-456 | a vertex with correct height, AVL children and a child-height difference of at most two becomes AVL; its height drops by at most one; it is untouched when the difference is at most one |
| AvlSearch.FindAt | AVL/AVL.h:361-379 | the descent returns null or a vertex holding the target, and the target is then stored |
| AvlSearch.FindCompleteOnOrdered | AVL/AVL.h:361-379 | on an ordered tree the descent returns null exactly when the target is not stored |
| AvlSearch.Leftmost | AVL/AVL.h:382-389 | null exactly for an empty subtree; otherwise a vertex without a left child holding the first in-order value |
| AvlSearch.Rightmost | AVL/AVL.h:392-399 | null exactly for an empty subtree; otherwise a vertex without a right child holding the last in-order value |
| AvlSearch.GetMinVertex | AVL/AVL.h:382-389 | the left-walking loop ends at the leftmost vertex |
| AvlSearch.GetMaxVertex | AVL/AVL.h:392-399 | the right-walking loop ends at the rightmost vertex |
| AvlSearch.LeftmostIsSmallest | AVL/AVL.h:382-389 | on an ordered tree the leftmost vertex holds the smallest stored value |
| AvlSearch.RightmostIsLargest | AVL/AVL.h:392-399 | on an ordered tree the rightmost vertex holds the largest stored value |
| AvlUpdate.InsertAt | AVL/AVL.h:283-302 | the slot ends up holding a vertex; correct heights stay correct |
| AvlUpdate.InsertAtAsWritten | AVL/AVL.h:283-302 | insertion as written, rebalancing with balance as written: the slot ends up holding a vertex and correct heights stay correct (the AVL bound is not kept; see InsertAsWrittenBreaksBalance) |
| AvlUpdate.InsertAtContents | AVL/AVL.h:283-302 | the stored multiset gains exactly one occurrence of the entry, duplicates included |
| AvlUpdate.InsertKeepsAvl | AVL/AVL.h:283-302 | inserting into an AVL tree gives an AVL tree whose height grew by at most one |
| AvlUpdate.InsertKeepsOrder | AVL/AVL.h:289-301 | inserting into an ordered tree (larger values right, others left) gives an ordered tree |
| AvlUpdate.RebalanceKeepsOrder | AVL/AVL.h:297-301 | updating the height and rebalancing a vertex keep binary-search order |
| AvlUpdate.RemoveMax | AVL/AVL.h:316-319 | splicing out the rightmost vertex removes exactly the last in-order value; correct heights stay correct |
| AvlUpdate.RemoveMin | AVL/AVL.h:322-326 | splicing out the leftmost vertex removes exactly the first in-order value; correct heights stay correct |
| AvlUpdate.RemoveMaxKeepsAvl | AVL/AVL.h:316-319 | splicing out the rightmost vertex of an AVL tree gives an AVL tree at most one level lower |
| AvlUpdate.RemoveMinKeepsAvl | AVL/AVL.h:322-326 | splicing out the leftmost vertex of an AVL tree gives an AVL tree at most one level lower |
| AvlUpdate.ReplaceFullVertex | AVL/AVL.h:312-327 | a vertex with two children takes the largest left value or the smallest right value; together its subtrees then hold exactly the values of the old subtrees |
| AvlUpdate.SpliceOut | AVL/AVL.h:309-345 | what replaces the matched vertex holds exactly the in-order values of its two subtrees |
| AvlUpdate.SpliceOutKeepsAvl | AVL/AVL.h:309-358 | after the matched vertex is spliced out and the slot rebalanced, an AVL tree stays AVL and loses at most one level |
| AvlUpdate.RemoveAt | AVL/AVL.h:305-359 | correct heights stay correct after the removal |
| AvlUpdate.RemoveAtContents | AVL/AVL.h:305-359 | exactly one occurrence of the target leaves the stored multiset when the descent finds it, and none otherwise |
| AvlUpdate.RemoveKeepsAvl | AVL/AVL.h:305-359 | removal from an AVL tree gives an AVL tree at most one level lower, and the same tree when the target is not found |
| AvlUpdate.RemoveKeepsOrder | AVL/AVL.h:305-359 | removal from an ordered tree gives an ordered tree |
| AvlUpdate.InsertPreservesInvariants | AVL/AVL.h:170-172 | one insertion keeps order and the AVL bound and stores exactly one value more, the entry |
| AvlUpdate.InsertAllContents | AVL/AVL.h:169-172 | a run of insertions stores exactly the inserted values, with their multiplicities, on top of the old ones |
| AvlUpdate.InsertAllKeepsInvariants | AVL/AVL.h:169-172 | a run of insertions into an ordered AVL tree gives an ordered AVL tree |
| AvlUpdate.InsertOrderIrrelevant | AVL/AVL.h:169-172 | inserting the same multiset of values in any two orders into an empty tree gives the same in-order sequence, and it is sorted |
| AvlUpdate.RemovePreservesInvariants | AVL/AVL.h:175-177 | one removal keeps order and the AVL bound; on such a tree the target is found exactly when stored, and nothing changes when it is not; exactly one value fewer is stored when it is found |
| AvlIterator.Iterator.constructor | AVL/AVL.h:68-71 | the cursor starts at the given vertex with an empty stack; what remains to be produced is that subtree in order |
| AvlIterator.Iterator.HasNext | AVL/AVL.h:96-98 | true exactly when something remains to be produced |
| AvlIterator.Iterator.Next | AVL/AVL.h:79-95 | returns the first value still to be produced and removes exactly that value from what remains |
| AvlIterator.Iterator.Assign | AVL/AVL.h:99-105 | only the cursor is copied; this iterator's own stack is kept |
| AvlIterator.Enumerate | AVL/AVL.h:79-98 | calling next while hasNext holds, from a fresh iterator on a subtree, yields exactly its in-order sequence |
| AvlContainer.AVL.constructor | AVL/AVL.h:148-151 | empty tree, no cached vertex, count zero |
| AvlContainer.AVL.Copy | AVL/AVL.h:153-162 | the copy stores exactly the multiset of the source's values, is ordered and AVL, and its count matches |
| AvlContainer.AVL.InsertEach | AVL/AVL.h:158-161 | the copy loop adds every value of the source subtree and keeps order, balance and an accurate count |
| AvlContainer.AVL.InsertNext | AVL/AVL.h:161 | one round of the copy loop moves one value from the iterator into the tree, so fewer values remain |
| AvlContainer.AVL.Insert | AVL/AVL.h:169-172 | the root becomes the recursive insert's result; the multiset gains the entry; the count goes up by exactly one; order, balance and an accurate count are kept |
| AvlContainer.AVL.Remove | AVL/AVL.h:174-177 | the root becomes the recursive remove's result; one occurrence leaves, and the count drops by one exactly when the descent finds the target; a target that is not stored changes nothing; order, balance and an accurate count are kept |
| AvlContainer.AVL.Find | AVL/AVL.h:179-183 | caches the descent's vertex and reports whether it is present; on a valid tree exactly when the target is stored |
| AvlContainer.AVL.Get | AVL/AVL.h:185-188 | an iterator whose cursor is the found vertex, enumerating that vertex's subtree |
| AvlContainer.AVL.GetFoundData | AVL/AVL.h:190-193 | the value of the cached vertex, defined only when one is cached |
| AvlContainer.AVL.GetMin | AVL/AVL.h:195-198 | the first in-order value, which on a valid tree is the smallest stored value |
| AvlContainer.AVL.GetMax | AVL/AVL.h:200-203 | the last in-order value, which on a valid tree is the largest stored value |
| AvlContainer.AVL.GetRootValue | AVL/AVL.h:251-254 | a stored value, defined only on a non-empty tree |
| AvlContainer.AVL.GetHeight | AVL/AVL.h:205-208 | -1 exactly for an empty tree; on a valid tree the height of its shape |
| AvlContainer.AVL.Size | AVL/AVL.h:256-259 | the number of stored values, as long as the count is accurate |
| AvlContainer.AVL.IsEmpty | AVL/AVL.h:261-264 | true exactly when no value is stored |
| AvlContainer.AVL.Clear | AVL/AVL.h:266-269 | the tree becomes empty, but the count is left as it was |
| AvlContainer.AVL.ClearAndResetCount | AVL/AVL.h:266-269 | the tree becomes empty and the count is accurate again (zero) |
| AvlContainer.AVL.Begin | AVL/AVL.h:271-274 | an iterator at the root with an empty stack, enumerating the whole tree in order |
| AvlContainer.AVL.End | AVL/AVL.h:276-279 | an iterator with an absent cursor and an empty stack, which has nothing next |
| AvlScenarios.Triple | AVL/AVL.h:283-302 | the balanced tree on three values is AVL, holds them in order, and is ordered when they are |
| AvlScenarios.InsertIntoLeaf | AVL/AVL.h:289-295 | a second value goes right of the first only when it is larger |
| AvlScenarios.AscendingInsertRotatesLeft | AVL/AVL.h:442-447 | inserting three increasing values in order ends in one left rotation to the balanced tree |
| AvlScenarios.DescendingInsertRotatesRight | AVL/AVL.h:428-433 | inserting them in decreasing order ends in one right rotation to the same tree |
| AvlScenarios.Perfect | AVL/AVL.h:283-302 | the full tree on seven values is AVL and holds them in order |
| AvlScenarios.InsertMiddlesFirst | AVL/AVL.h:283-302 | inserting the middle value and then the two quartiles gives the balanced tree on three values |
| AvlScenarios.InsertFourth | AVL/AVL.h:283-302 | the fourth insertion of the middle-first order adds a leaf without rotating |
| AvlScenarios.InsertFifth | AVL/AVL.h:283-302 | the fifth insertion of that order adds a leaf without rotating |
| AvlScenarios.InsertSixth | AVL/AVL.h:283-302 | the sixth insertion of that order adds a leaf without rotating |
| AvlScenarios.InsertSeventh | AVL/AVL.h:283-302 | the last insertion of that order completes the full tree |
| AvlScenarios.InsertSevenBuildsPerfect | AVL/AVL.h:283-302 | seven values inserted middle-first build the full tree |
| AvlScenarios.RemoveFullRoot | AVL/AVL.h:312-327 | removing the root of the full tree copies the chosen neighbour value up, keeps the other six values in order, and stays AVL |
| AvlScenarios.LeftRightCase | AVL/AVL.h:435-439 | the subtree that reaches balance after inserting c, a, b is left-heavy by two with a right-leaning left child |
| AvlScenarios.RightLeftCase | AVL/AVL.h:449-453 | the mirror subtree, after inserting a, c, b |
| AvlScenarios.DoubleRotationCasesAreReached | AVL/AVL.h:283-302 | inserting c, a, b (or a, c, b) does hand those subtrees to balance at the root |
| AvlScenarios.BalanceAsWrittenMissesLeftRight | AVL/AVL.h:428-433 | balance as written applies a single right rotation to the LR case, and the result is not height-balanced |
| AvlScenarios.BalanceAsWrittenMissesRightLeft | AVL/AVL.h:442-447 | balance as written applies a single left rotation to the RL case, and the result is not height-balanced |
| AvlScenarios.InsertAsWrittenBreaksBalance | AVL/AVL.h:283-302 | inserting c, a, b (a < b < c) with the insertion as written leaves a root whose right side is two levels higher than its empty left side, which is not height-balanced |
| AvlScenarios.InsertAsWrittenReachesDoubleRotation | AVL/AVL.h:435-439 | inserting b into the AVL tree d(c(a, -), e) with the insertion as written: the single rotation at c leaves a left child right-heavy by two, so at d getWeight reports LEFT_HEAVY with a RIGHT_HEAVY child, the double rotation runs, and the result is the AVL tree c(a(-, b), d(-, e)) |
| AvlScenarios.BalanceFixesDoubleRotationCases | AVL/AVL.h:435-439 | the corrected balance turns both cases into the balanced tree on the three values |
| AvlScenarios.EmptyContainer | AVL/AVL.h:148-151 | a new container is empty and reports height -1 |
| AvlScenarios.FindAfterInsert | AVL/AVL.h:179-193 | after an insertion, find reports the value present and the cached vertex holds it, while a value never stored is reported absent |
| AvlScenarios.SizeAfterClear | AVL/AVL.h:266-269 | after one insertion and clear, the container is empty yet reports size one |
| AvlScenarios.SizeAfterClearAndResetCount | AVL/AVL.h:266-269 | with the count reset, the same run reports size zero |

## Left out

- Display routines (`display`, `displayInOrder`, `displayPreOrder`,
  `displayPostOrder`, `displayLevelOrder`): they only write to standard
  output. Level order also uses a queue type that is not part of this model.
- Memory management: `delete`, the destructor and the recursive freeing in
  `clear(Vertex*&)`. An emptied slot is simply `Nil`.
- The random side choice `rand() % 2` for removing a vertex with two children
  is the parameter `takeLeft`.
- Deleting a vertex with two children as written: the source deletes the
  extremal vertex of the chosen subtree without unlinking it from its parent.
  This leaves a dangling pointer and loses that vertex's child. The model
  follows the evident intent: the extremal vertex is spliced out of its
  subtree, its child takes its place, and every vertex on that path is
  updated and rebalanced (RemoveMax, RemoveMin, ReplaceFullVertex).
- The template parameter `T` is `int`, and integers are unbounded. Heights
  never come near 32-bit limits for trees that fit in memory, and the count
  overflows only after 2^31 insertions; neither is modelled.
- Vertex identity: subtrees are values, so aliasing of vertices is not
  modelled. An iterator or the `finder` cache therefore does not go stale
  after later updates.
- `Iterator::operator==` and `operator!=` compare vertex pointers; vertex
  identity is not modelled, so they are left out. `Iterator::getData` reads
  the cursor's value and is undefined on a null cursor; it is left out.
- AvlContainer.AVL.Copy: the source never initialises the counter in the copy
  constructor, so its count is indeterminate. The model starts it at zero.
- AvlIterator.Iterator.Assign: the comment above `operator=` says the stack
  "gets reset", but the code only copies the cursor and leaves the
  destination's own stack untouched. The model follows the code.
- AvlContainer.AVL.Size: its contract ties the counter to the number of
  stored values only while the count is accurate, because `clear` as written
  breaks that link (see Findings).
- AvlUpdate.InsertAt, AvlUpdate.RemoveAt: they rebalance with the corrected
  `balance` (AvlBalance.Balance), not the one as written. So InsertKeepsAvl,
  RemoveKeepsAvl, SpliceOutKeepsAvl, RemoveMaxKeepsAvl, RemoveMinKeepsAvl,
  BalanceRestoresAvl, InsertPreservesInvariants, RemovePreservesInvariants,
  InsertAllKeepsInvariants and the AVL bound promised by AVL.Insert,
  AVL.Remove and AVL.Copy hold for the corrected program only. As written,
  insertion can break the bound (AvlScenarios.InsertAsWrittenBreaksBalance).
- AvlUpdate.RemoveAt: the function's own contract states only that heights
  stay correct. Its contents, order and balance are stated by
  RemoveAtContents, RemoveKeepsOrder and RemoveKeepsAvl.

## Findings

| source | as written | input that shows it | evidently intended | confidence | as-written member | corrected member |
|---|---|---|---|---|---|---|
| AVL/AVL.h:428-453 | `balance` classifies the heavy vertex's child with `getWeight`, which reports a side only for a height difference above one. While the heavy vertex's child is itself AVL its difference is at most one, so it is reported BALANCED and a single rotation is applied even in the LR and RL cases, where a double one is needed. The double rotations are reached only after a single rotation lower down has already broken the bound (AvlScenarios.InsertAsWrittenReachesDoubleRotation). | insert 3, 1, 2 (any c, a, b with a < b < c): the root is left-heavy by two and its left child leans right, so a single right rotation leaves a root whose right side is two levels higher than its empty left side | classify the child by the sign of its height difference, then rotate the child first in the LR and RL cases | high (proved for all such values; not executed) | AvlScenarios.InsertAsWrittenBreaksBalance | AvlScenarios.BalanceFixesDoubleRotationCases |
| AVL/AVL.h:266-269 | `clear()` frees the vertices but never resets `numberOfElements` | insert any value, then clear: `isEmpty()` is true while `size()` is 1 | reset the counter to zero in `clear()` | high (proved; not executed) | AvlScenarios.SizeAfterClear | AvlScenarios.SizeAfterClearAndResetCount |

For the first row, AvlBalance.BalanceAsWritten and AvlUpdate.InsertAtAsWritten
are the code as written, and AvlScenarios.BalanceAsWrittenMissesLeftRight and
BalanceAsWrittenMissesRightLeft show the single rotations it applies.
AvlBalance.Balance is the corrected definition. The corrected one is what
InsertAt and RemoveAt use, and BalanceRestoresAvl proves the AVL bound for
it. For the second row, AvlContainer.AVL.Clear is the code as written and
AvlContainer.AVL.ClearAndResetCount the corrected operation.
