# SkipList in Dafny

A model of `SkipList<T>` from `skip_list.hpp`, specialised to `int`. It is an
ordered set of unique values. They are stored as a multi-level singly linked
list behind a head sentinel, with node heights drawn at random.

The model keeps the source's imperative form:

- `SkipLists.SkipList` is a class with the source's fields:
  - `nodes`, the node store;
  - `currentLevel` for `current_level`;
  - `count` for `size_`.
- Two ghost fields give the abstract state:
  - `Handles`: the live nodes in level-0 order;
  - `Contents`: their values, strictly ascending.
- Nodes live in an arena, a `seq<Node>`. Index `HEAD` is the sentinel with
  `MAX_LEVEL + 1` = 33 null slots. A forward link is `Nil` or `To(index)`.
- The descent, the splice loop of `insert`, the unsplice loop of `erase` and
  the lowering loop of `erase` are `while`/`for` loops over the arena, in
  value-level methods (`Descend`, `WalkLevel`, `LinkIn`, `Unlink`, `Lower`).
- `InsertValue` and `EraseValue` assemble those loops the way `insert` and
  `erase` do. The class methods store their results in the fields.

The structural invariant is `Layout.Shaped`. It says:

- every level-`i` link goes to the first later live node whose height
  exceeds `i` (`Linked`);
- the live nodes are distinct, and their heights lie in
  `1..current_level + 1`;
- the head has 33 slots;
- `current_level` is 0 or has a non-null head slot.

From it, the model proves the skip-list facts:

- each level's chain is strictly ascending;
- level `i + 1` is a sub-list of level `i`;
- the head's slots above `current_level` are null;
- the level-0 chain visits every live node, so `size_` is its length.

`Insert` and `Erase` are proved against `Ordered.Insert` and
`Ordered.Remove`, the set operations on ascending sequences. Those are
proved to keep the sequence ascending and to add or remove exactly the
value.

`scenarios.dfy` drives the class as the repository's unit tests do. Every
random level is a parameter, so each scenario holds for every draw.

The random number generator is not modelled. `Insert` takes the level that
`random_level()` would draw as a parameter. `RandomLevel` models the draw
loop itself over a caller-supplied sequence of coin outcomes.

## Model

| member | source | states |
|---|---|---|
| Ordered.Rank | skip_list.hpp:162-167 | The position the descent stops before: every element before it is below v, every element from it on is at least v. |
| Ordered.MemberAtRank | skip_list.hpp:169-171 | v is stored iff the element just after the values below v equals v, so the single comparison after the descent decides membership. |
| Ordered.Insert | skip_list.hpp:158-187 | Insert on the ordered contents stays strictly ascending. A value is present afterwards iff it was before or is v. The length grows by one iff v was absent. |
| Ordered.InsertAtRank | skip_list.hpp:180-184 | Placing an absent v at its rank keeps the contents strictly ascending and adds exactly v. |
| Ordered.Remove | skip_list.hpp:220-248 | Erase on the ordered contents stays strictly ascending. Exactly v leaves. The length drops by one iff v was present. |
| Ordered.RemoveAtRank | skip_list.hpp:233-239 | Removing the element at v's rank keeps the contents ascending and removes exactly v. |
| Ordered.InsertLargest | skip_list.hpp:119-123 | Re-inserting a value larger than all stored ones appends it: the copy constructor's in-order re-insertion rebuilds the same sequence. |
| Layout.FreshHead | skip_list.hpp:114-117 | The head of a new or cleared list has MAX_LEVEL + 1 slots, all null. |
| Layout.SetLink | skip_list.hpp:182-183 | The assignment `forward[l] = t` on one node changes that one link and nothing else in the arena. |
| Layout.BaseChain | skip_list.hpp:91-96 | From the head, following forward[0] visits the live nodes in order and ends in null after the last. The level-0 chain is the contents, and its length is size(). |
| Layout.AboveTopIsEmpty | skip_list.hpp:172-178 | In a well-formed list, the head's links above current_level are null. |
| Layout.HeadNilBoundsHeights | skip_list.hpp:241-243 | A null head link at level l means that no live node reaches level l, so lowering current_level past it loses nothing. |
| Layout.LinkTarget | skip_list.hpp:163-165 | Every link of the head or a live node is null or goes to a later live node that occupies that level. |
| Layout.OnLevel | skip_list.hpp:162-166 | Every live node taller than l is the target of some level-l link, so the level-l chain reaches it. |
| Layout.LevelsNest | skip_list.hpp:181-184 | Level l + 1 is a sub-list of level l: whatever a level-(l+1) link reaches, some level-l link reaches too. |
| Layout.Unreferenced | skip_list.hpp:234-239 | A node that is not live is the target of no link of the head or of a live node. |
| Layout.UpdateLevelsStep | skip_list.hpp:166 | Recording the node where level i was left extends the update path by level i. |
| Layout.KeptHeights | skip_list.hpp:181-183 | When every old node keeps its value and height, any sequence of live nodes has the same heights in the new arena as in the old one. |
| Layout.KeptInsertHeights | skip_list.hpp:180-184 | When old nodes keep their heights and one node of height L + 1 is added, the live heights become the old ones with L + 1 inserted at the new node's index. |
| Layout.KeptRemoveHeights | skip_list.hpp:234-239 | When old nodes keep their heights, dropping the live node at index m leaves the old heights without index m. |
| Layout.PathLinks | skip_list.hpp:181-183 | Every update node has a slot at its level, so the splice loop's reads and writes are in range. |
| Splice.InsertLinked | skip_list.hpp:180-184 | After the splice with the update path of the search, every level of the arena is linked as the invariant demands, with the new node at v's position. |
| Splice.InsertedShape | skip_list.hpp:180-184 | After the splice, the live nodes with the new one inserted are in the arena, and their heights are the old heights with L + 1 inserted. |
| Splice.EraseLinked | skip_list.hpp:234-239 | After the unsplice with the update path of the search, every level is linked as the invariant demands, with the erased node left out. |
| Splice.RemovedShape | skip_list.hpp:234-239 | After the unsplice, the remaining live nodes are still in the arena, and their heights are the old heights with the erased node's height removed. |
| SkipLists.ChainAscending | skip_list.hpp:163-165 | A non-null link from a live node goes to a node holding a strictly larger value, at every level. |
| SkipLists.DescendStep | skip_list.hpp:163-165 | At level i, the link the descent reads is the one the shape prescribes. It leads below v iff it lands before v's rank. |
| SkipLists.EraseStopsAt | skip_list.hpp:234-237 | The update node of level l links to the found node iff that node occupies level l, so the unsplice loop's break happens exactly at the node's height. |
| SkipLists.InsertKeeps | skip_list.hpp:172-185 | The splice turns a list without v into a well-formed list holding v at its rank, with current_level the larger of the old level and the new one. |
| SkipLists.InsertedTop | skip_list.hpp:173-177 | After insert, current_level is 0 or the head has a non-null link there. |
| SkipLists.InsertedReachesTop | skip_list.hpp:173-177 | After insert, some live node reaches the new current_level. |
| SkipLists.EraseKeeps | skip_list.hpp:234-239 | The unsplice leaves the remaining nodes linked at every level with their values in order. It needs only the old current_level as a bound. |
| SkipLists.RemovedGone | skip_list.hpp:234-239 | The erased node is no longer among the live nodes. |
| SkipLists.EmptyRepresents | skip_list.hpp:114-117 | A fresh head alone is a well-formed empty list at level 0. |
| SkipLists.RandomLevel | skip_list.hpp:54-60 | The drawn level is at most MAX_LEVEL. Every draw before it succeeded, and the loop stopped at MAX_LEVEL or at the first failed draw. |
| SkipLists.Descend | skip_list.hpp:162-167 | The top-down search records, for each level up to current_level, the last node before v's rank that occupies that level. The level-0 update node links to the first value not below v. |
| SkipLists.DescendEnds | skip_list.hpp:169 | After the descent, forward[0] of the level-0 update node is the node at v's rank, or null. |
| SkipLists.WalkLevel | skip_list.hpp:163-165 | The inner while loop stops at a node whose level-i link is null or leads to a value not below v. That node is exactly the update node of level i: the last node before v's rank that occupies level i. |
| SkipLists.StepForward | skip_list.hpp:163-164 | Following a link that leads below v moves the walk to a later position still before v's rank, on a node that occupies that level. |
| SkipLists.StepStops | skip_list.hpp:163 | When the walk's loop condition fails, the walk stands at the update node of its level. |
| SkipLists.RaiseUpdate | skip_list.hpp:173-178 | When the new level exceeds current_level, the head becomes the update node of each new level, and the update path extends to the new level. |
| SkipLists.LinkIn | skip_list.hpp:180-184 | A node holding v with L + 1 slots joins the arena. On every level l <= L it takes over update[l]'s link, and update[l] then links to it. No other link changes. |
| SkipLists.Unlink | skip_list.hpp:234-239 | On every level the erased node occupies, its update node takes over the node's link. No other link changes. |
| SkipLists.InsertValue | skip_list.hpp:158-187 | Inserts iff v is absent; otherwise the arena and level are unchanged. When it inserts, the arena grows by a node of height L + 1, the level is the larger of old and L, and the arena represents the contents with v at its rank. In every case each node already in the arena keeps its value and height. |
| SkipLists.EraseValue | skip_list.hpp:220-248 | Finds iff v is present; otherwise nothing changes. When it finds v, the arena represents the contents without v and the level does not rise. In every case the arena keeps its size, and each node keeps its value and height. |
| SkipLists.Lower | skip_list.hpp:241-243 | current_level drops while its head slot is null. The result is well-formed, with every dropped level empty. |
| SkipLists.SkipList.constructor | skip_list.hpp:114-117 | A new list is valid and empty at level 0. |
| SkipLists.SkipList.Insert | skip_list.hpp:158-187 | Contents become the ordered insert of v. A duplicate changes nothing. Otherwise size grows by one, current_level becomes max(current_level, newLevel), and the arena gains exactly one node, of height newLevel + 1. Every node already in the arena keeps its value and height. |
| SkipLists.SkipList.Erase | skip_list.hpp:220-248 | Returns true iff v was stored. Contents become the ordered remove of v. On false nothing changes. On true, size drops by one, the node is no longer live and current_level does not rise. The arena keeps its size, and every node keeps its value and height. |
| SkipLists.SkipList.InsertDrawn | skip_list.hpp:172 | insert with its level drawn by RandomLevel: the draw always meets Insert's bound, so the contents become the ordered insert of v. A new node has at most MAX_LEVEL + 1 slots, and old nodes keep their values and heights. |
| SkipLists.SkipList.Find | skip_list.hpp:250-262 | Returns the iterator at v's node when v is stored, and dereferencing it gives v; otherwise end(). The list is left unchanged. |
| SkipLists.SkipList.Begin | skip_list.hpp:265-267 | begin() is the iterator at the first value (end() when empty). |
| SkipLists.SkipList.End | skip_list.hpp:269-271 | end() is the null iterator, one past the last value. |
| SkipLists.SkipList.Deref | skip_list.hpp:77-82 | Dereferencing the iterator at index k gives the k-th value; dereferencing end() fails with "Dereferencing null iterator". |
| SkipLists.SkipList.Next | skip_list.hpp:91-96 | Incrementing the iterator at index k gives the one at k + 1; end() stays end(). |
| SkipLists.SkipList.Size | skip_list.hpp:274-276 | size() is the number of stored values. |
| SkipLists.SkipList.Empty | skip_list.hpp:278-280 | empty() holds iff nothing is stored. |
| SkipLists.SkipList.Clear | skip_list.hpp:283-287 | clear() leaves a valid empty list at level 0 with begin() == end(). |
| SkipLists.SkipList.Values | skip_list.hpp:120 | A range-for from begin() to end() yields exactly the contents, in ascending order. |
| SkipLists.SkipList.CopyOf | skip_list.hpp:119-123 | The copy holds the same values as the source. |
| Scenarios.FreshIsEmpty | tests/test_skip_list.cpp:19-22 | A new list is empty with size 0. |
| Scenarios.InsertThenTraverse | tests/test_skip_list.cpp:99-113 | Inserting 5, 3, 7 gives size 3 and the traversal [3, 5, 7], whatever the drawn levels. |
| Scenarios.FindPresentAndAbsent | tests/test_skip_list.cpp:35-46 | find(5) dereferences to 5 and find(99) is end(). |
| Scenarios.EraseThenFind | tests/test_skip_list.cpp:49-61 | Erasing 5 from {3, 5, 7} succeeds, size goes from 3 to 2, and find(5) is then end(). |
| Scenarios.InsertDuplicates | tests/test_skip_list.cpp:146-156 | Inserting 5 three times gives size 1, and find(5) dereferences to 5. |
| Scenarios.CopyIsIndependent | tests/test_skip_list.cpp:64-72 | The copy has size 3, and erasing from it leaves the original's size at 3. |
| Scenarios.AssignReplaces | tests/test_skip_list.cpp:116-128 | After copy assignment the target holds exactly the source's values, and the source keeps size 3. |
| Scenarios.ClearEmpties | tests/test_skip_list.cpp:87-96 | clear() takes the size from 3 to 0, and the list is empty with begin() == end(). |
| Scenarios.IteratorEnds | tests/test_skip_list.cpp:202-219 | On an empty list begin() == end() and dereferencing end() fails. After inserting 42, begin() dereferences to 42 and one increment reaches end(). |
| Scenarios.InsertRange | tests/test_skip_list.cpp:131-143 | Inserting 0..n-1 in turn gives size n, and find(i) dereferences to i for every i < n. |

## Left out

- Element types other than `int`, and the C++ concepts that constrain them (skip_list.hpp:11-29). With `int`, the source's `==`/`!=` duplicate test agrees with its `<` ordering.
- The random number generator (`std::mt19937`, `random_device` and the `double` distribution with P = 0.25). This is floating point and real randomness. `Insert` takes the drawn level as a parameter, and `RandomLevel` takes the coin outcomes as a function.
- `shared_ptr` ownership and memory reclamation. Links are arena indices, and an erased node stays in the arena with no link to it (`Layout.Unreferenced`). `clear()` replaces the arena by a fresh head.
- Iterator invalidation: an iterator must stand on a live node or be end(). Using an iterator to an erased node is not modelled.
- The move constructor and move assignment (skip_list.hpp:125-133, 144-155). They leave the moved-from list with a null head, size 0 and level 0. size(), empty(), end() and clear() still work on it, and clear() makes it usable again. begin(), find(), insert() and erase() would dereference the null head.
- Copy assignment (skip_list.hpp:136-142) is not a separate member. Its observable effect is modelled in `Scenarios.AssignReplaces` by rebinding the target to a fresh `CopyOf`. The `std::swap` mechanics and the self-assignment check are not modelled.
- The second `insert` overload (skip_list.hpp:189-218) takes its argument by rvalue reference and is otherwise identical; only one `Insert` is modelled.
- `operator->` (skip_list.hpp:84-89) behaves like `operator*` but returns a pointer, and its pointer identity has no counterpart here. Post-increment (skip_list.hpp:98-102) is `Next` with the old iterator kept by the caller.
- `operator==`/`!=` on iterators (skip_list.hpp:104-110) are datatype equality on `Iterator`.
- The `update` vector starts out as HEAD in every slot instead of null. Only the slots the descent or the raise loop (skip_list.hpp:174-176) writes are ever read.
- `SkipList.Find` reuses the descent of insert and erase (the source repeats the loop), so it also computes the update nodes, which find does not record.
- The value-level methods (`InsertValue`, `EraseValue`, `LinkIn`, `Unlink`, `Lower`, `Descend`) take the arena as a value and return the new one. The class stores it back. In-place update through shared node pointers, and aliasing between lists, are therefore not modelled. A copy never shares nodes with its source, because `CopyOf` builds a new arena.
- `SkipLists.SkipList.CopyOf` collects the source's values with a range-for before inserting them, rather than inserting while it iterates. Each insertion's level is a parameter (`levels`).
- `SkipLists.SkipList.CopyOf`: promises only that the copy holds the same values as the source. Its `currentLevel` and node heights depend on the drawn levels and are not stated.
- Integer width: `size_` is `size_t` and the levels are `size_t`/`int`, but the model uses unbounded `nat`. MAX_LEVEL = 32 and the arena size keep every value far below those widths.
- The test harness, timing and printing (tests/test_skip_list.cpp:159-199) and the string and custom-type tests.
