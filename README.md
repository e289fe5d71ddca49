# Skip list with sentinel nodes, modelled in Dafny

This project models the skip list in `include/internal/sl_impl.hpp`. The list keeps its values
sorted under one injected `less` relation and allows duplicates. Every node carries a level
from 1 to `max_levels = 5` and a forward slot for each level from 0 up to its own. A node
also keeps a back-link to its level-0 predecessor. Two sentinels, `head` and `tail`, sit on
every level. Lookup (`find`, `find_first`) descends from the top level to level 0. `insert`
draws a level by coin tosses and splices the new node in on each level up to that one.
`remove` searches each level for the node's predecessor and unlinks it. `remove_all` frees
every node and re-links `head` to `tail`. Two cursor classes move along level 0.

How the model is built:

- `ordering.dfy` (module `Ordering`) holds the five relations derived from `less` and the
  strict weak order that `less` must be.
- `chains.dfy` (modules `Chains`, `ChainEdits`) holds the abstract view. The real nodes in
  level-0 order form the ghost sequence `order`. The chain of level `L` is head, then the
  nodes of `order` whose level is at least `L`, then tail. `Wf` is the representation
  invariant:
  - slot `L` of every node on that chain points to the next node of the chain;
  - tail's slots are null;
  - every back-link names the level-0 predecessor;
  - the stored values are non-decreasing.
- `descent.dfy` (module `Descent`) states the search of `find` as functions on positions of
  the level-0 spine and proves where it stops.
- `layout.dfy` (module `Layout`) proves what the invariant implies and that each edit
  re-establishes it.
- `skiplist.dfy` (module `SkipLists`) holds the class `SkipList`. Nodes live in an arena:
  maps from node ids to value, level, forward slots and back-link, which the methods
  reassign in place. Id 0 is the null pointer, 1 is head and 2 is tail. Real nodes get fresh
  ids from 3 upward, and freeing a node removes its id from the maps.
- `cursor.dfy` (modules `Cursors`, `Traversal`) holds `sl_iterator` and
  `sl_const_iterator`, and a full level-0 traversal.
- `scenarios.dfy` (module `Scenarios`) holds client scenarios over integers.

Decisions:

- The sentinels are tagged ids, not the `numeric_limits` minimum and maximum. Head and tail
  hold no value.
- `rand()` is an oracle `coin: nat -> bool`. Toss number `i` is `coin(i)`. Every method that
  draws a level takes the oracle as a parameter.
- Three behaviours of the code are easy to misread. The model follows the code in each:
  - `insert` advances only while the next value is strictly less than the new one
    (`include/internal/sl_impl.hpp:175`). A duplicate therefore goes before the values equal
    to it, not after them.
  - `find` stops at the first node equal to the query that it meets on any level. It does
    not always return the rightmost node not greater than the query.
  - `find_first` may therefore return an equal node other than the first one. See Findings.

## Model

| member | source | states |
|---|---|---|
| `Ordering.DerivedRelations` | include/internal/sl_impl.hpp:251-274 | Under a strict weak order, greater is less with the arguments swapped. Less-or-equal is less or equal, and greater-or-equal is greater or equal. Equal holds iff both non-strict relations hold. Exactly one of less, equal and greater holds. |
| `Ordering.EqualIsEquivalence` | include/internal/sl_impl.hpp:271-274 | The derived `is_equal` is reflexive, symmetric and transitive. |
| `Chains.LowerBound` | include/internal/sl_impl.hpp:175 | The insertion position. Every earlier value is less than `v`, and the value there, if any, is not. |
| `Chains.UpperBound` | include/internal/sl_impl.hpp:122-124 | The end of the values not greater than `v`: every earlier value is not greater, and the value there is greater. |
| `Chains.SortedInsert` | include/internal/sl_impl.hpp:164-190 | Putting `v` at its lower bound keeps a non-decreasing sequence non-decreasing. |
| `Chains.SortedRemove` | include/internal/sl_impl.hpp:195-218 | Taking out any one value keeps a non-decreasing sequence non-decreasing. |
| `Chains.BoundsOfEqual` | include/internal/sl_impl.hpp:136-143 | When a value equal to `v` is stored, the value at the lower bound and the value just before the upper bound are both equal to `v`. |
| `ChainEdits.InsertLevelStep` | include/internal/sl_impl.hpp:179-183 | Splicing the new node after the last node of level `L` before the insertion point links level `L` along the new order. The new node takes that node's old slot, and that node's slot points to the new node. |
| `ChainEdits.InsertLevelSkip` | include/internal/sl_impl.hpp:179 | Above the new node's level the chain is unchanged. |
| `ChainEdits.RemoveLevelStep` | include/internal/sl_impl.hpp:208-214 | Where the level-`L` search stops, the slot points to the removed node iff that node is on level `L`. Redirecting it to the node's own successor links the chain of the order without the node. Otherwise that chain is the old one. |
| `ChainEdits.PrevAfterInsert` | include/internal/sl_impl.hpp:188-189 | Setting the new node's back-link to its predecessor and its successor's back-link to the new node makes every back-link name the level-0 predecessor again. |
| `ChainEdits.PrevAfterRemove` | include/internal/sl_impl.hpp:202 | Handing the removed node's back-link to its successor makes every remaining back-link name the level-0 predecessor. |
| `Descent.WalkBound` | include/internal/sl_impl.hpp:122-126 | The walk along one level never passes the last value not greater than the query. It stops on an equal node, or where the next node of the level is greater. |
| `Descent.DescendBound` | include/internal/sl_impl.hpp:120-127 | The descent through the levels ends on a node equal to the query or exactly on the last node not greater than it. |
| `Descent.FindPosSpec` | include/internal/sl_impl.hpp:117-129 | `find` lands on a node equal to the query whenever one is stored. Otherwise it lands on the last node not greater than the query, or on head when there is none. |
| `Descent.FindFirstPosSpec` | include/internal/sl_impl.hpp:136-143 | `find_first` lands on a node equal to the query whenever one is stored. Otherwise it lands on the first node greater than the query, or on tail. |
| `Descent.FindFirstMissesFirstEqual` | include/internal/sl_impl.hpp:136-143 | Counterexample: take two nodes holding 7, level 1 first and level 3 second. `find_first(7)` stops on the second, not on the first node equal to 7. |
| `Layout.LevelSorted` | include/internal/sl_impl.hpp:164-190 | Every level, as a subsequence of level 0, holds its values in non-decreasing order. |
| `Layout.ChainMembership` | include/internal/sl_impl.hpp:179-183 | A real node is on the chain of level `L` iff `L` is at most its own level. |
| `Layout.NoDanglingLinks` | include/internal/sl_impl.hpp:195-218 | In a well-formed list every forward slot of a non-tail node names a live node other than head. Tail's slots are null. |
| `Layout.EmptyIsUnique` | include/internal/sl_impl.hpp:81-94 | The empty list has one representation: no values, both sentinels at level 5, every head slot on tail, tail slots null, tail's back-link on head. |
| `Layout.EmptyWf` | include/internal/sl_impl.hpp:88-93 | That empty representation satisfies the invariant. |
| `Layout.InsertWf` | include/internal/sl_impl.hpp:164-190 | After the splice at the lower bound and the two back-link updates, the invariant holds. The stored values are then the old ones with `v` at the lower bound. |
| `Layout.RemoveWf` | include/internal/sl_impl.hpp:195-218 | After the node is unlinked on every level, its successor takes its back-link and the node leaves the arena, the invariant holds. The values are then the old ones without that node's. |
| `Layout.ClearedIsEmpty` | include/internal/sl_impl.hpp:221-234 | Once every real node is freed, re-pointing head's slots at tail and tail's back-link at head gives exactly the empty representation. |
| `SkipLists.LevelFrom` | include/internal/sl_impl.hpp:155-162 | A drawn level is in `l..5`. Each toss before the last step succeeded, and a level below 5 ends on a failed toss. |
| `SkipLists.SkipList.RandomLevel` | include/internal/sl_impl.hpp:155-162 | `random_level` returns a level from 1 to 5: one plus the number of leading successful tosses, capped at 5. |
| `SkipLists.SkipList.NewLinks` | include/internal/sl_impl.hpp:32-36 | A node's forward array has `level + 1` slots, all null. |
| `SkipLists.SkipList.constructor` | include/internal/sl_impl.hpp:81-94 | A new list is valid and empty: every head slot on tail, tail slots null, tail's back-link on head, size 0. |
| `SkipLists.SkipList.Size` | include/internal/sl_impl.hpp:104 | `size()` is the number of stored values. |
| `SkipLists.SkipList.Front` | include/internal/sl_impl.hpp:106 | `front()` is the first node after head on level 0, which is tail when the list is empty. |
| `SkipLists.SkipList.Back` | include/internal/sl_impl.hpp:109 | `back()` is the last node before tail, which is head when the list is empty. |
| `SkipLists.SkipList.Head` | include/internal/sl_impl.hpp:112 | `head()` starts the level-0 chain and holds no value. |
| `SkipLists.SkipList.Tail` | include/internal/sl_impl.hpp:114 | `tail()` ends the level-0 chain and holds no value. |
| `SkipLists.SkipList.AdvanceWhileLess` | include/internal/sl_impl.hpp:175-177 | Advancing along one level while the next value is less than `v` stops on the last node of that level before the lower bound of `v`. |
| `SkipLists.SkipList.WalkLevel` | include/internal/sl_impl.hpp:122-126 | The inner loop of `find` reaches the position the walk function gives. |
| `SkipLists.SkipList.DescendLevels` | include/internal/sl_impl.hpp:119-127 | The level loop of `find` reaches the position the descent function gives. |
| `SkipLists.SkipList.Find` | include/internal/sl_impl.hpp:117-129 | `find` returns a node equal to the query when one is stored, else the last node not greater than it (head if none). It never returns a node past the last node not greater. |
| `SkipLists.SkipList.FindFirst` | include/internal/sl_impl.hpp:136-143 | `find_first` returns a node equal to the query when one is stored. Otherwise it returns the first node greater than the query, or tail. |
| `SkipLists.SkipList.FindLowerBound` | include/internal/sl_impl.hpp:136-143 | The corrected lookup returns the node at the lower bound. That is the first node equal to the query whenever one is stored, and it is first among equals. |
| `SkipLists.SkipList.AllocateNode` | include/internal/sl_impl.hpp:28-37 | A new node gets a fresh id, the value, the level, a null back-link and `level + 1` null slots. Nothing else changes. |
| `SkipLists.SkipList.SpliceLevel` | include/internal/sl_impl.hpp:174-183 | One level of `insert` changes only slot `L` and leaves level `L` linked along the order with the new node at the lower bound. |
| `SkipLists.SkipList.LinkLevels` | include/internal/sl_impl.hpp:171-184 | The level loop of `insert` links every level along the new order and ends on the insertion predecessor. |
| `SkipLists.SkipList.InsertNode` | include/internal/sl_impl.hpp:166-190 | After allocation, splicing and the back-link updates, the order has the new node at the lower bound and the size is one more. |
| `SkipLists.SkipList.Insert` | include/internal/sl_impl.hpp:164-193 | `insert` keeps the list valid. The new node goes right after the last node less than `v`, so before any equal value. Its level is the drawn one. Its back-link names its predecessor and its successor's back-link names it. The size grows by one. |
| `SkipLists.SkipList.UnlinkLevel` | include/internal/sl_impl.hpp:206-214 | One level of `remove` changes only slot `L` and leaves level `L` linked along the order without the node. |
| `SkipLists.SkipList.UnlinkLevels` | include/internal/sl_impl.hpp:204-215 | The level loop of `remove` links every level along the order without the node. |
| `SkipLists.SkipList.DetachNode` | include/internal/sl_impl.hpp:202-218 | The successor takes the node's back-link, every level drops the node, the node leaves the arena and the size drops by one. |
| `SkipLists.SkipList.Remove` | include/internal/sl_impl.hpp:195-219 | For a node first among equals, `remove` keeps the list valid and removes exactly that node and its value, leaving the rest in order. The successor's back-link becomes the node's old one. No slot points to the node afterwards, and the size drops by one. |
| `SkipLists.SkipList.DeleteNodes` | include/internal/sl_impl.hpp:223-228 | The first loop of `remove_all` frees exactly the real nodes and leaves the sentinels untouched. |
| `SkipLists.SkipList.ResetHead` | include/internal/sl_impl.hpp:229-231 | The second loop of `remove_all` points every head slot at tail and changes nothing else. |
| `SkipLists.SkipList.ClearNodes` | include/internal/sl_impl.hpp:221-234 | The body of `remove_all` leaves exactly the empty representation with size 0. |
| `SkipLists.SkipList.RemoveAll` | include/internal/sl_impl.hpp:221-234 | `remove_all` leaves the list valid and empty. On an already empty list it changes nothing. |
| `SkipLists.OnExactlyItsLevels` | include/internal/sl_impl.hpp:179-183 | Every real node of a valid list, including one just inserted, is on exactly the levels 0 to its own. |
| `Cursors.StepForward` | include/internal/sl_impl.hpp:307-323 | Slot 0 of the node at position `i` leads to position `i + 1`, and that node's back-link leads back to `i`. So `++` then `--` returns to the same node. |
| `Cursors.Ends` | include/internal/sl_impl.hpp:90-92 | Head's back-link and tail's slot 0 are null. |
| `Cursors.SamePosition` | include/internal/sl_impl.hpp:334-337 | Two positions of the level-0 chain hold the same node iff they are the same position, so cursor equality is position equality. |
| `Cursors.LiveOnChain` | include/internal/sl_impl.hpp:178-190 | Every live node, sentinels included, is on the level-0 chain. |
| `Cursors.Cursor.constructor` | include/internal/sl_impl.hpp:303-305 | A cursor wraps the given node. |
| `Cursors.Cursor.Increment` | include/internal/sl_impl.hpp:307-311 | Prefix `++` moves to the next node on level 0. From tail it moves to null. |
| `Cursors.Cursor.PostIncrement` | include/internal/sl_impl.hpp:312-317 | Postfix `++` moves forward and returns a cursor at the old node. |
| `Cursors.Cursor.Decrement` | include/internal/sl_impl.hpp:319-323 | Prefix `--` moves to the previous node on level 0. From head it moves to null. |
| `Cursors.Cursor.PostDecrement` | include/internal/sl_impl.hpp:324-329 | Postfix `--` moves back and returns a cursor at the old node. |
| `Cursors.Cursor.Get` | include/internal/sl_impl.hpp:331 | `*` yields the value at the cursor's position in the contents. |
| `Cursors.Cursor.Equals` | include/internal/sl_impl.hpp:334-337 | `==` holds iff both cursors are at the same node. |
| `Cursors.Cursor.NotEquals` | include/internal/sl_impl.hpp:338-341 | `!=` holds iff the cursors are at different nodes. |
| `Cursors.ConstCursor.constructor` | include/internal/sl_impl.hpp:375-377 | A const cursor wraps the given node. |
| `Cursors.ConstCursor.FromCursor` | include/internal/sl_impl.hpp:379-381 | A const cursor built from a mutable one is at the same node of the same list. |
| `Cursors.ConstCursor.Increment` | include/internal/sl_impl.hpp:383-387 | Prefix `++` moves to the next node on level 0. From tail it moves to null. |
| `Cursors.ConstCursor.PostIncrement` | include/internal/sl_impl.hpp:388-393 | Postfix `++` moves forward and returns a cursor at the old node. |
| `Cursors.ConstCursor.Decrement` | include/internal/sl_impl.hpp:395-399 | Prefix `--` moves to the previous node on level 0. From head it moves to null. |
| `Cursors.ConstCursor.PostDecrement` | include/internal/sl_impl.hpp:400-405 | Postfix `--` moves back and returns a cursor at the old node. |
| `Cursors.ConstCursor.Get` | include/internal/sl_impl.hpp:407 | `*` yields the value at the cursor's position in the contents. |
| `Cursors.ConstCursor.Equals` | include/internal/sl_impl.hpp:410-413 | `==` holds iff both cursors are at the same node. |
| `Cursors.ConstCursor.NotEquals` | include/internal/sl_impl.hpp:414-417 | `!=` holds iff the cursors are at different nodes. |
| `Traversal.Traverse` | include/internal/sl_impl.hpp:307-331 | Walking with a cursor from `front()` to `tail()` yields exactly the stored values in order, and `size()` of them. |
| `Scenarios.EmptyScenario` | include/internal/sl_impl.hpp:221-234 | On a new list `size()` is 0, `front()` is tail and `back()` is head, and `remove_all` keeps the size at 0. |
| `Scenarios.InsertAscending` | include/internal/sl_impl.hpp:164-190 | Inserting 1..n in increasing order, at any drawn levels, gives contents exactly 1..n. |
| `Scenarios.AscendingScenario` | include/internal/sl_impl.hpp:164-190 | After inserting 1..n, the traversal yields 1..n and the size is n. |
| `Scenarios.InsertFiveTwice` | include/internal/sl_impl.hpp:170-185 | Inserting 5 twice into a new list gives a valid list holding `[5, 5]`, whose order is `[second, first]`: the later copy goes before the earlier one. |
| `Scenarios.DuplicateScenario` | include/internal/sl_impl.hpp:175 | Inserting 5 twice keeps both. The second copy goes before the first: the returned list's order is `[second, first]`. |
| `Scenarios.InsertThenFindFirst` | include/internal/sl_impl.hpp:136-143 | On any list, after `insert(v)`, `find_first(v)` returns a node whose value equals `v`. |
| `Scenarios.FindAfterInsertScenario` | include/internal/sl_impl.hpp:136-143 | After inserting 5 into a new list, `find_first(5)` lands on the node holding 5. |
| `Scenarios.NewWithTall` | include/internal/sl_impl.hpp:155-162 | A toss sequence that succeeds twice, then fails, draws level 3. |
| `Scenarios.AddShort` | include/internal/sl_impl.hpp:175 | A level-1 copy of 7 goes before the existing 7. |
| `Scenarios.FindFirstDuplicateScenario` | include/internal/sl_impl.hpp:136-143 | Reached through two inserts, `find_first(7)` returns the taller second node. The lower-bound search returns the first node. |
| `Scenarios.RemoveScenario` | include/internal/sl_impl.hpp:195-219 | Inserting 1, 2, 3 and then removing the node found for 2 leaves 1 and 3, size 2. |
| `Scenarios.StepScenario` | include/internal/sl_impl.hpp:307-329 | From the front of a one-node list, `++` then `--` comes back to the same node. |

## Left out

- `dump()` is left out because it is console output for debugging.
- `rand()` inside `toss_a_coin` is not modelled. The tosses come from the oracle `coin`, and
  only the bound and the shape of the drawn level are stated.
- The allocator member and `get_allocator` are left out because they never take part in node
  allocation.
- `new` and `delete` are not modelled as memory. A node is created by taking a fresh id and
  freed by removing its id from the arena maps. The destructors `~sl_node` and `~sl_impl`
  therefore have no counterpart.
- The `numeric_limits` sentinel values are replaced by tagged head and tail. The model does
  not reproduce the case where a query equal to the type's minimum makes `find` return head.
  Dereferencing a sentinel through a cursor (which yields minimum or maximum) is left out too.
- `operator->` on both cursors is left out: it returns a value where a pointer is typed.
- `get_node` is left out because the cursor's `node` field is read directly.
- The `const_cast` const overloads of `find` and `find_first` are left out because they
  duplicate the non-const versions.
- The `assert` calls in `insert` and `remove` become preconditions or proof obligations.
- The integer widths are not modelled. `size_t` counters are unbounded naturals, since a list
  cannot hold 2^64 nodes.
- `m_levels` is the constant 5 (`MAX_LEVEL`), as in the source.
- Concurrency and cursors that outlive a `remove` are left out because the source defines no
  behaviour for either.
- `SkipLists.SkipList.Remove` requires the node to be first among the nodes holding an equal
  value. The source accepts any member node, but its per-level search stops at the first node
  not less than the value. A later equal node would stay linked on some level while its
  successor's back-link is already rewritten, so the source's behaviour there is not a valid
  list.
- `SkipLists.SkipList.Insert` requires the hint to be null, head, or a real node less than the
  value whose level is at least the drawn level. The source trusts any hint. A hint holding a value
  equal to the new one, at a level at least the drawn level, still leaves the list sorted and
  spliced on every level, but the new node lands right after that hint rather than before all
  equal values; the model does not cover that case. A hint greater than the value leaves the
  list out of order, and a hint whose level is below the drawn level leaves the levels above
  its own unspliced.
- The cursor methods take the cursor's position on level 0 as a ghost argument, so they
  require a cursor on a live node of a valid list. Moving from null is undefined in the source.

## Findings

| source | as written | input that shows it | evidently intended | confidence | as-written member | corrected member |
|---|---|---|---|---|---|---|
| include/internal/sl_impl.hpp:117-143 | `find_first` returns the node where `find` stopped if it is equal to the query. `find` stops at the first equal node it meets on the highest level that has one, which need not be the first equal node on level 0. | Insert 7 drawn at level 3, then 7 drawn at level 1. The level-1 node goes first, and `find_first(7)` returns the level-3 node. `remove` of that node does not unlink it on level 0. | `find_first` returns the first node equal to the query on level 0, at the lower bound. That is the node `remove` can unlink. | medium, not executed | `Descent.FindFirstMissesFirstEqual` | `SkipLists.SkipList.FindLowerBound` |
