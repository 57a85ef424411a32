# Level-order flat set and slot map, modelled in Dafny

This project models two containers from the SG14 repository and proves what
they promise.

**The level-order flat set** (`stdext::flat_set` in
`flatset-levelorder-faro.h`). It keeps unique keys in one array `c_`. The
array is not sorted. Instead it holds an implicit complete binary search tree
laid out breadth first: the children of slot `i` are `2i+1` and `2i+2`. The
tree iterator walks this array in ascending key order, and
`make_levelorder_from_sorted` turns a sorted array into this layout. It does
so level by level, using `invert_faro_shuffle` and `std::rotate`.

The model has six modules:

- `Eytzinger`: the index arithmetic of the implicit tree. It defines the
  in-order rank of a slot (`Rank`) and its inverse (`IndexOfRank`). It also
  defines the ascending view of an array (`InOrder`) and the layout that
  produces a given ascending sequence (`Layout`).
- `Shuffle`: the meaning of `std::rotate` and of the un-interleave as
  functions on sequences.
- `LevelOrder`: the in-place array algorithms, proved against those
  functions: `invert_faro_shuffle`, `make_levelorder_from_sorted`,
  `unique_helper` and `std::rotate`.
- `TreeIter`: the iterator, its `++`/`--` loops, and its random-access
  operators.
- `LevelOrderSet`: class `FlatSet` over `c: seq<int>`. Its invariant is that
  the ascending view is strictly increasing.
- `SetCompare`: the comparison operators.

**The slot map** (`sg14::slot_map`) as its test file pins it down. Its header
`sg14/slot_map.h` is not part of this model. The state is the one
`print_slot_map` exposes:

- `slots_`: one (index, generation) pair per slot;
- `values_`: the dense value array;
- `reverse_map_`: for each dense position, the slot that owns it;
- `next_available_slot_index_`: the head of the free chain.

A key (index, generation) is valid when its slot carries that generation and
is occupied. Erase moves the last value into the hole (swap and pop). It
bumps the slot's generation and appends the slot to the tail of the free
chain, because the test at `test/slot_map_test.cpp:512-546` needs freed slots
reused first in, first out. Generations change only on erase. To append to
the tail, the model keeps a `lastAvailable` end of the chain beside
`nextAvailable`. Module `SlotMaps` has the state as a datatype `Store` with
its operations as functions, and class `SlotMap` whose methods update the
fields in place.

## Model

| member | source | states |
|---|---|---|
| Eytzinger.Parent | flatset-benchmark/flatset-levelorder-faro.h:177 | getparent; IndexFormulas proves it is (i-1)/2 and ParentChild that a non-root slot is its parent's left or right child |
| Eytzinger.Left | flatset-benchmark/flatset-levelorder-faro.h:178 | getleft; ChildParent proves its parent is i and it is a left child |
| Eytzinger.Right | flatset-benchmark/flatset-levelorder-faro.h:179 | getright; ChildParent proves its parent is i and it is a right child |
| Eytzinger.IsLeftChild | flatset-benchmark/flatset-levelorder-faro.h:180 | isleftchild; IndexFormulas proves it holds exactly for odd slots |
| Eytzinger.IsRightChild | flatset-benchmark/flatset-levelorder-faro.h:181 | isrightchild; IndexFormulas proves it holds exactly for even slots |
| Eytzinger.Rank | flatset-benchmark/flatset-levelorder-faro.h:229-239 | rank_from_eytzinger; IndexOfRankOfIndex proves it maps slots 0..n one-to-one onto ranks 0..n with only n at rank n |
| Eytzinger.IndexOfRank | flatset-benchmark/flatset-levelorder-faro.h:229-239 | eytzinger_from_rank: the slot is below n exactly when the rank is, and RankOfIndexOfRank proves it inverts Rank |
| Eytzinger.InOrder | flatset-benchmark/flatset-levelorder-faro.h:188-205 | the keys in the order ++ visits them; InOrderRank, InOrderMembers and InOrderPermutes prove it lists exactly c_ with slot i at rank Rank(i) |
| Eytzinger.Layout | flatset-benchmark/flatset-levelorder-faro.h:292-307 | the level-order layout of a sequence, of the same length; InOrderOfLayout and LayoutOfInOrder prove it is the inverse of InOrder |
| Eytzinger.IndexFormulas | flatset-benchmark/flatset-levelorder-faro.h:177-181 | the parent is (i-1)/2; a slot is a left child exactly when it is odd and a right child exactly when it is even |
| Eytzinger.ChildParent | flatset-benchmark/flatset-levelorder-faro.h:177-181 | the parent of the left and right child of i is i; the left child is a left child and the right child is a right child |
| Eytzinger.ParentChild | flatset-benchmark/flatset-levelorder-faro.h:177-181 | every non-root slot's parent comes before it, and the slot is the parent's left or right child as its parity says |
| Eytzinger.RankOfIndexOfRank | flatset-benchmark/flatset-levelorder-faro.h:229-239 | the slot found for rank r (eytzinger_from_rank) has in-order rank r (rank_from_eytzinger) |
| Eytzinger.IndexOfRankOfIndex | flatset-benchmark/flatset-levelorder-faro.h:229-239 | rank_from_eytzinger maps slots 0..n onto ranks 0..n; only the end index n has rank n; eytzinger_from_rank undoes it |
| Eytzinger.RankInjective | flatset-benchmark/flatset-levelorder-faro.h:245-251 | two iterators with the same rank have the same index, so a difference of 0 means equal |
| Eytzinger.InOrderRank | flatset-benchmark/flatset-levelorder-faro.h:161-165 | the key the iterator dereferences at slot i is the key at position Rank(i) of the ascending view |
| Eytzinger.InOrderMembers | flatset-benchmark/flatset-levelorder-faro.h:916 | the ascending view holds exactly the keys stored in c_ |
| Eytzinger.InOrderPermutes | flatset-benchmark/flatset-levelorder-faro.h:916 | the ascending view is a permutation (as a multiset) of c_ |
| Eytzinger.InOrderOfLayout | flatset-benchmark/flatset-levelorder-faro.h:292-307 | walking the level-order layout of s in order gives back s |
| Eytzinger.LayoutOfInOrder | flatset-benchmark/flatset-levelorder-faro.h:292-307 | an array is the level-order layout of its own ascending view, so a layout is fixed by its keys' order |
| Eytzinger.InOrderInjective | flatset-benchmark/flatset-levelorder-faro.h:916 | two arrays with the same ascending view are equal |
| Eytzinger.LayoutPermutes | flatset-benchmark/flatset-levelorder-faro.h:292-307 | the level-order layout is a permutation of its input |
| Eytzinger.LayoutSmall | flatset-benchmark/flatset-levelorder-faro.h:296-300 | for n <= 1 the layout changes nothing |
| Eytzinger.InOrderAppend | flatset-benchmark/flatset-levelorder-faro.h:558-566 | pushing a key physically at slot n places it in the ascending view at rank Rank(n, n+1), with every other key in order around it |
| Eytzinger.IndexOfRankAppend | flatset-benchmark/flatset-levelorder-faro.h:563-564 | after a push, ranks below the new key's rank name the same slots, its rank names slot n, and higher ranks shift up by one |
| Eytzinger.RankAppendShift | flatset-benchmark/flatset-levelorder-faro.h:562-564 | after a push, an old slot keeps its rank if it was below the new key, and otherwise moves up one rank |
| Eytzinger.LeafRank | flatset-benchmark/flatset-levelorder-faro.h:300-305 | the j-th node of level l, in the tree ending just after it, has in-order rank 2j; this is why one un-interleave separates a level from the rest |
| Shuffle.RotatedBlocks | flatset-benchmark/flatset-levelorder-faro.h:288 | std::rotate(f, m, l) swaps the adjacent blocks [f,m) and [m,l) and leaves the rest alone |
| Shuffle.RotatedInverse | flatset-benchmark/flatset-levelorder-faro.h:288 | rotating by the complementary amount undoes a rotation |
| Shuffle.RotatedPermutes | flatset-benchmark/flatset-levelorder-faro.h:288 | a rotation is a permutation |
| Shuffle.SpliceParts | flatset-benchmark/flatset-levelorder-faro.h:279-290 | rewriting a range leaves everything before and after the range untouched |
| Shuffle.EvensOddsPermute | flatset-benchmark/flatset-levelorder-faro.h:280 | the even-position and odd-position keys together are a permutation of the input |
| Shuffle.UnshufflePermutes | flatset-benchmark/flatset-levelorder-faro.h:279-290 | the un-interleave [a0 a1 .. an b0 .. bn-1] is a permutation of [a0 b0 a1 .. an] |
| Shuffle.UnshuffleSmall | flatset-benchmark/flatset-levelorder-faro.h:283 | ranges shorter than 3 are already un-interleaved |
| Shuffle.FaroStep | flatset-benchmark/flatset-levelorder-faro.h:283-289 | un-interleaving the first 2q-1 and the last keys separately, then rotating the middle, un-interleaves the whole range, for every length |
| Shuffle.InterleaveUnshuffleRange | flatset-benchmark/flatset-levelorder-faro.h:300-304 | un-interleaving the first 2k-1 keys of a level interleaved with its parents separates the level's leaves from the rest |
| Shuffle.LevelPass | flatset-benchmark/flatset-levelorder-faro.h:300-305 | one loop pass (un-interleave, then rotate by leaf_count) moves the level's leaves behind the nodes above them |
| LevelOrder.Rotate | flatset-benchmark/flatset-levelorder-faro.h:288 | the in-place rotation of the array leaves exactly the rotated sequence |
| LevelOrder.InvertFaroShuffle | flatset-benchmark/flatset-levelorder-faro.h:278-290 | the array afterwards is the input with [first,last) replaced by its even-position keys followed by its odd-position keys |
| LevelOrder.MakeLevelorderFromSorted | flatset-benchmark/flatset-levelorder-faro.h:292-307 | the first n cells become the level-order layout of their old contents, so the in-order walk sees the input; later cells are untouched |
| LevelOrder.MakeLevelorderPass | flatset-benchmark/flatset-levelorder-faro.h:300-305 | each level pass turns "in-order walk of the l-level tree, then the rest" into the same for l-1 levels |
| LevelOrder.LevelInOrder | flatset-benchmark/flatset-levelorder-faro.h:300-305 | the ascending view of a tree with a partly filled last level interleaves that level's keys with the view above it |
| LevelOrder.LevelStep | flatset-benchmark/flatset-levelorder-faro.h:300-305 | the loop-body effect on a buffer laid out for l levels is the layout for l-1 levels |
| LevelOrder.SurvivorsIncreasing | flatset-benchmark/flatset-levelorder-faro.h:91-109 | on a sorted range, the kept keys are strictly increasing |
| LevelOrder.SurvivorsElements | flatset-benchmark/flatset-levelorder-faro.h:91-109 | on a sorted range, a key survives dedup exactly when it occurs in the input |
| LevelOrder.LastOfRun | flatset-benchmark/flatset-levelorder-faro.h:97-98 | the key kept for each run of equal keys is the last of the run |
| LevelOrder.UniqueHelper | flatset-benchmark/flatset-levelorder-faro.h:91-109 | the returned prefix is exactly the kept keys, in order; cells past it are unchanged |
| LevelOrder.SortSeq | flatset-benchmark/flatset-levelorder-faro.h:905 | std::sort's result is sorted and a permutation of the input |
| LevelOrder.InsertSorted | flatset-benchmark/flatset-levelorder-faro.h:905 | inserting a key into a sorted sequence keeps it sorted and adds exactly that key |
| LevelOrder.SortAndUniqueAndLevelorder | flatset-benchmark/flatset-levelorder-faro.h:904-909 | sort, unique, erase and level-order leave an array whose ascending view is strictly increasing and holds exactly the input keys |
| TreeIter.Position | flatset-benchmark/flatset-levelorder-faro.h:245-249 | an iterator's rank is at most n, and equals n exactly at the end index n |
| TreeIter.AtRank | flatset-benchmark/flatset-levelorder-faro.h:229-233 | the iterator built for rank r has rank r |
| TreeIter.End | flatset-benchmark/flatset-levelorder-faro.h:536 | end() has rank n |
| TreeIter.Advance | flatset-benchmark/flatset-levelorder-faro.h:229-244 | it += d, it -= d, it + d and it - d move the rank by exactly d |
| TreeIter.AdvanceInverse | flatset-benchmark/flatset-levelorder-faro.h:229-239 | -= d undoes += d |
| TreeIter.AdvanceCompose | flatset-benchmark/flatset-levelorder-faro.h:242-244 | advancing by d and then e is advancing by d+e |
| TreeIter.Distance | flatset-benchmark/flatset-levelorder-faro.h:245-249 | it - jt as the difference of ranks; DistanceAdvance proves (it + d) - it == d |
| TreeIter.Same | flatset-benchmark/flatset-levelorder-faro.h:250-251 | == and != compare indexes; SameIffNoDistance proves == holds exactly when the difference is 0 |
| TreeIter.Before | flatset-benchmark/flatset-levelorder-faro.h:252-255 | < and its mirrors compare ranks; BeforeTrichotomy proves exactly one of a < b, a == b, b < a |
| TreeIter.DistanceAdvance | flatset-benchmark/flatset-levelorder-faro.h:245-249 | (it + d) - it == d |
| TreeIter.SameIffNoDistance | flatset-benchmark/flatset-levelorder-faro.h:250-251 | two iterators over the same set compare == exactly when their difference is 0 |
| TreeIter.BeforeTrichotomy | flatset-benchmark/flatset-levelorder-faro.h:252-255 | for iterators over one set, exactly one of a < b, a == b and b < a holds |
| TreeIter.RightSubtreeStart | flatset-benchmark/flatset-levelorder-faro.h:189-193 | the right subtree's smallest key comes right after the node |
| TreeIter.LeftSubtreeEnd | flatset-benchmark/flatset-levelorder-faro.h:213-217 | the left subtree's largest key comes right before the node |
| TreeIter.ParentAfterLeft | flatset-benchmark/flatset-levelorder-faro.h:195-202 | the parent of a left child comes right after that child's whole subtree |
| TreeIter.ParentBeforeRight | flatset-benchmark/flatset-levelorder-faro.h:219-222 | the parent of a right child comes right before that child's whole subtree |
| TreeIter.DescendLeft | flatset-benchmark/flatset-levelorder-faro.h:191-193 | following left children from x reaches the smallest key of x's subtree |
| TreeIter.DescendRight | flatset-benchmark/flatset-levelorder-faro.h:213-217 | following right children from x reaches the largest key of x's subtree |
| TreeIter.Begin | flatset-benchmark/flatset-levelorder-faro.h:534 | begin() is the rank-0 iterator, equal to end() when the set is empty |
| TreeIter.ClimbPastRightLinks | flatset-benchmark/flatset-levelorder-faro.h:194-202 | climbing while a right child ends at the key just after x's subtree, or at end when the subtree reaches the maximum |
| TreeIter.ClimbPastLeftLinks | flatset-benchmark/flatset-levelorder-faro.h:218-222 | climbing while a left child ends at the key just before x's subtree; with nothing before it, the climb stops at slot 0 |
| TreeIter.SuccessorIndex | flatset-benchmark/flatset-levelorder-faro.h:188-205 | the successor search from a key finds the slot of the next rank (end after the maximum) |
| TreeIter.Increment | flatset-benchmark/flatset-levelorder-faro.h:188-205 | ++ on a non-end iterator moves to rank + 1, reaching end from the maximum |
| TreeIter.PredecessorIndex | flatset-benchmark/flatset-levelorder-faro.h:213-223 | the predecessor search from a key finds the slot of the previous rank |
| TreeIter.Decrement | flatset-benchmark/flatset-levelorder-faro.h:207-225 | -- moves to rank - 1 (from end to the maximum); on begin() it lands on slot 0 |
| TreeIter.IterAtRank | flatset-benchmark/flatset-levelorder-faro.h:229-233 | an iterator is determined by its rank |
| LevelOrderSet.CountPreceding | flatset-benchmark/flatset-levelorder-faro.h:755-776 | the number of keys before the bound is at most the size |
| LevelOrderSet.BoundExists | flatset-benchmark/flatset-levelorder-faro.h:755-776 | in a sorted sequence some position separates the keys below t (not above t for upper) from the rest |
| LevelOrderSet.BoundUnique | flatset-benchmark/flatset-levelorder-faro.h:813-834 | that separating position is unique |
| LevelOrderSet.LowerBoundHolds | flatset-benchmark/flatset-levelorder-faro.h:699-705 | in a strictly increasing sequence, t is present exactly when the lower bound is inside and holds t |
| LevelOrderSet.BracketRight | flatset-benchmark/flatset-levelorder-faro.h:762-764 | stepping right past a key less than t keeps the bound inside the current subtree's range |
| LevelOrderSet.BracketLeft | flatset-benchmark/flatset-levelorder-faro.h:768-770 | stepping left from a key not less than t keeps the bound inside the current subtree's range |
| LevelOrderSet.BoundAfter | flatset-benchmark/flatset-levelorder-faro.h:762-766 | falling off after a key less than t: the bound is the next rank (std::next) |
| LevelOrderSet.BoundAt | flatset-benchmark/flatset-levelorder-faro.h:768-772 | falling off left of a key not less than t: the bound is this key's rank |
| LevelOrderSet.InsertAt | flatset-benchmark/flatset-levelorder-faro.h:558-574 | the new key sits at position p, with the old keys before and after it unchanged |
| LevelOrderSet.RemoveAt | flatset-benchmark/flatset-levelorder-faro.h:654-665 | the key at p is gone and the keys before and after it are unchanged |
| LevelOrderSet.RemoveInsert | flatset-benchmark/flatset-levelorder-faro.h:654-665 | erasing at p undoes inserting at p, and reinserting the erased key undoes the erase |
| LevelOrderSet.InsertKeepsIncreasing | flatset-benchmark/flatset-levelorder-faro.h:558-574 | inserting an absent key at its lower bound keeps the view strictly increasing and adds just that key |
| LevelOrderSet.RemoveKeepsIncreasing | flatset-benchmark/flatset-levelorder-faro.h:654-665 | removing a key keeps the view strictly increasing and drops just that key |
| LevelOrderSet.RotateByRank | flatset-benchmark/flatset-levelorder-faro.h:566-570 | std::rotate over tree iterators rotates the ascending view |
| LevelOrderSet.RotateByRankFrame | flatset-benchmark/flatset-levelorder-faro.h:566-570 | slots whose ranks are outside the rotated range keep their keys |
| LevelOrderSet.RotateNewKeyDown | flatset-benchmark/flatset-levelorder-faro.h:566-567 | when the target rank is not after the pushed key, rotating it down puts it at the target rank |
| LevelOrderSet.RotateNewKeyUp | flatset-benchmark/flatset-levelorder-faro.h:568-569 | when the target rank is after the pushed key, rotating it up puts it at the target rank |
| LevelOrderSet.RotateVictimDown | flatset-benchmark/flatset-levelorder-faro.h:658-659 | the erase rotation moves the victim down to the last leaf's rank and keeps the rest in order |
| LevelOrderSet.RotateVictimUp | flatset-benchmark/flatset-levelorder-faro.h:660-661 | the erase rotation moves the victim up to the last leaf's rank and keeps the rest in order |
| LevelOrderSet.InOrderPush | flatset-benchmark/flatset-levelorder-faro.h:562-564 | emplace_back puts the key at rank Rank(n, n+1) of the ascending view |
| LevelOrderSet.InOrderPop | flatset-benchmark/flatset-levelorder-faro.h:663 | popping the last slot removes its key from the ascending view |
| LevelOrderSet.EmplaceStep | flatset-benchmark/flatset-levelorder-faro.h:558-574 | push plus either rotation inserts t at its lower bound and keeps the view strictly increasing |
| LevelOrderSet.EraseStep | flatset-benchmark/flatset-levelorder-faro.h:654-665 | either rotation plus pop removes exactly the element at the position and keeps the view strictly increasing |
| LevelOrderSet.RotateVictimToLast | flatset-benchmark/flatset-levelorder-faro.h:654-662 | erase picks the rotation by comparing the victim with the last slot, as both branches of erase(pos) do |
| LevelOrderSet.FlatSet.constructor | flatset-benchmark/flatset-levelorder-faro.h:353 | the default set is empty and valid |
| LevelOrderSet.FlatSet.FromKeys | flatset-benchmark/flatset-levelorder-faro.h:355-359 | building from any container gives a valid set with exactly the input keys, deduplicated and in level order |
| LevelOrderSet.FlatSet.FromSortedUnique | flatset-benchmark/flatset-levelorder-faro.h:389-393 | with sorted_unique the ascending view is the input, and the set is valid exactly when the input is strictly increasing |
| LevelOrderSet.FlatSet.Size | flatset-benchmark/flatset-levelorder-faro.h:554 | size() is the length of the ascending view |
| LevelOrderSet.FlatSet.IsEmpty | flatset-benchmark/flatset-levelorder-faro.h:553 | empty() holds exactly when nothing is iterated |
| LevelOrderSet.FlatSet.Begin | flatset-benchmark/flatset-levelorder-faro.h:534 | begin() is the iterator at rank 0 |
| LevelOrderSet.FlatSet.EndIter | flatset-benchmark/flatset-levelorder-faro.h:536 | end() has index n and rank n |
| LevelOrderSet.FlatSet.LowerBound | flatset-benchmark/flatset-levelorder-faro.h:755-776 | the result's rank is the first position whose key is not less than t (end on an empty set) |
| LevelOrderSet.FlatSet.UpperBound | flatset-benchmark/flatset-levelorder-faro.h:813-834 | the result's rank is the first position whose key is greater than t |
| LevelOrderSet.FlatSet.EqualRange | flatset-benchmark/flatset-levelorder-faro.h:871-876 | the pair is the lower and the upper bound |
| LevelOrderSet.FlatSet.Find | flatset-benchmark/flatset-levelorder-faro.h:699-705 | the result is end exactly when t is absent, and otherwise dereferences to t |
| LevelOrderSet.FlatSet.Contains | flatset-benchmark/flatset-levelorder-faro.h:745-747 | true exactly when t is stored |
| LevelOrderSet.FlatSet.Count | flatset-benchmark/flatset-levelorder-faro.h:735-737 | 1 when t is stored, 0 otherwise |
| LevelOrderSet.FlatSet.Insert | flatset-benchmark/flatset-levelorder-faro.h:557-599 | an absent t is inserted at its sorted position in the view and the flag is true; a present t changes nothing and the flag is false; the iterator dereferences to t |
| LevelOrderSet.FlatSet.Emplace | flatset-benchmark/flatset-levelorder-faro.h:558-574 | given the lower bound of an absent key, the key lands at exactly that rank and the set stays valid |
| LevelOrderSet.FlatSet.InsertRange | flatset-benchmark/flatset-levelorder-faro.h:609-633 | inserting a range adds exactly its keys and keeps the set valid |
| LevelOrderSet.FlatSet.Assign | flatset-benchmark/flatset-levelorder-faro.h:528-532 | assigning an initializer list leaves exactly its keys |
| LevelOrderSet.FlatSet.Erase | flatset-benchmark/flatset-levelorder-faro.h:654-665 | erasing at a position removes exactly that element from the view and returns the iterator at the same rank (end if it was last) |
| LevelOrderSet.FlatSet.EraseKey | flatset-benchmark/flatset-levelorder-faro.h:667-674 | returns 1 and removes t when present; returns 0 and removes nothing otherwise |
| LevelOrderSet.FlatSet.EraseRange | flatset-benchmark/flatset-levelorder-faro.h:676-682 | removes exactly the ranks [first, last) and returns the iterator at rank first |
| LevelOrderSet.FlatSet.EraseRangeStep | flatset-benchmark/flatset-levelorder-faro.h:678-680 | each loop round removes one more key at rank first |
| LevelOrderSet.FlatSet.Reposition | flatset-benchmark/flatset-levelorder-faro.h:681 | begin() + (first - begin()) is the iterator at first's rank |
| LevelOrderSet.FlatSet.Clear | flatset-benchmark/flatset-levelorder-faro.h:692-694 | clear() empties the set |
| LevelOrderSet.FlatSet.Swap | flatset-benchmark/flatset-levelorder-faro.h:684-690 | the two sets exchange their contents |
| LevelOrderSet.FlatSet.Extract | flatset-benchmark/flatset-levelorder-faro.h:640-644 | extract() hands over the container and leaves the set empty |
| LevelOrderSet.FlatSet.Replace | flatset-benchmark/flatset-levelorder-faro.h:646-648 | replace() installs the container unchecked |
| SetCompare.Equal | flatset-benchmark/flatset-levelorder-faro.h:921-925 | equal length and std::equal; EqualIsIdentity proves it is sequence identity |
| SetCompare.NotEqual | flatset-benchmark/flatset-levelorder-faro.h:927-931 | the negation of ==, as DerivedOperators proves |
| SetCompare.Less | flatset-benchmark/flatset-levelorder-faro.h:933-937 | std::lexicographical_compare; LessIrreflexive, LessTransitive, LessTrichotomy, PrefixLess and FirstDifferenceDecides prove it a strict total order decided at the first difference |
| SetCompare.Greater | flatset-benchmark/flatset-levelorder-faro.h:939-943 | y < x, as DerivedOperators proves |
| SetCompare.LessEq | flatset-benchmark/flatset-levelorder-faro.h:945-949 | not y < x, which DerivedOperators proves is < or == |
| SetCompare.GreaterEq | flatset-benchmark/flatset-levelorder-faro.h:951-955 | not x < y, which DerivedOperators proves is > or == |
| SetCompare.SetsEqual | flatset-benchmark/flatset-levelorder-faro.h:921-925 | == on two sets compares their containers; SetsEqualIffSameKeys proves it holds exactly when they hold the same keys |
| SetCompare.SetLess | flatset-benchmark/flatset-levelorder-faro.h:933-937 | < on two sets compares their containers lexicographically |
| SetCompare.EqualIsIdentity | flatset-benchmark/flatset-levelorder-faro.h:921-925 | std::equal over the two ranges holds exactly for identical sequences |
| SetCompare.SetsEqualIffSameKeys | flatset-benchmark/flatset-levelorder-faro.h:921-925 | two valid sets are == exactly when they hold the same keys, whatever their history |
| SetCompare.LessIrreflexive | flatset-benchmark/flatset-levelorder-faro.h:933-937 | no set is < itself |
| SetCompare.LessTransitive | flatset-benchmark/flatset-levelorder-faro.h:933-937 | < is transitive |
| SetCompare.LessTrichotomy | flatset-benchmark/flatset-levelorder-faro.h:933-937 | exactly one of x < y, x == y, y < x holds |
| SetCompare.DerivedOperators | flatset-benchmark/flatset-levelorder-faro.h:927-955 | <= is < or ==, >= is > or ==, != is the negation of == |
| SetCompare.PrefixLess | flatset-benchmark/flatset-levelorder-faro.h:933-937 | a proper prefix is less than the longer sequence |
| SetCompare.FirstDifferenceDecides | flatset-benchmark/flatset-levelorder-faro.h:933-937 | at the first differing position, the smaller key decides |
| SlotMaps.Located | test/slot_map_test.cpp:152-164 | find's position; LocatedIffLive proves it is inside exactly for live keys and lands on the value that key owns |
| SlotMaps.Lookup | test/slot_map_test.cpp:160-163 | the value a key names; StaleKeyNotFound proves a key older than its slot finds nothing |
| SlotMaps.Emplaced | test/slot_map_test.cpp:147-153 | insert on the state; EmplacedSpec and EmplacedGenerations state its effect |
| SlotMaps.ErasedAt | test/slot_map_test.cpp:156-165 | erase at a position on the state; ErasedSpec and ErasedAtGenerations state its effect |
| SlotMaps.WithFreeSlot | test/slot_map_test.cpp:339-341 | one step of reserve_slots on the state; WithFreeSlotSpec and WithFreeSlotGenerations state its effect |
| SlotMaps.Swapped | test/slot_map_test.cpp:306-323 | one exchange of partition on the state; SwappedSpec and SwappedGenerations state its effect |
| SlotMaps.StaleKeyNotFound | test/slot_map_test.cpp:213-224 | a key whose generation is below its slot's current generation finds nothing |
| SlotMaps.ExpiredNotFound | test/slot_map_test.cpp:220-221 | no key of an expired set finds anything |
| SlotMaps.ExpiredKept | test/slot_map_test.cpp:213-224 | expired keys stay expired through any step that removes no slot and lowers no generation |
| SlotMaps.EmplacedGenerations | test/slot_map_test.cpp:223-226 | insert leaves every slot's generation as it was and issues its slot's current generation, so the new key is never an expired one and expired keys stay expired |
| SlotMaps.ErasedAtGenerations | test/slot_map_test.cpp:214-219 | erase lowers no generation and moves the erased slot one generation past the erased key, which joins the expired keys |
| SlotMaps.WithFreeSlotGenerations | test/slot_map_test.cpp:339-341 | reserving a slot lowers no generation |
| SlotMaps.SwappedGenerations | test/slot_map_test.cpp:306-323 | exchanging two values lowers no generation |
| SlotMaps.EmptyWellFormed | test/slot_map_test.cpp:141-144 | a fresh slot map satisfies the invariant with no free slots |
| SlotMaps.OccupiedIffNotFree | test/slot_map_test.cpp:116-133 | under the invariant a slot is occupied exactly when it is not on the free chain |
| SlotMaps.ReverseInjective | test/slot_map_test.cpp:127-131 | distinct dense positions are owned by distinct slots |
| SlotMaps.LocatedIffLive | test/slot_map_test.cpp:159-163 | find lands on a value exactly when the key is live, and that value is owned by the key; otherwise it returns end |
| SlotMaps.KeyAtLocated | test/slot_map_test.cpp:185-188 | the key that owns a dense position is live and finds that very position |
| SlotMaps.EmplacedSpec | test/slot_map_test.cpp:147-153 | insert appends the value, issues a key that was not live and now finds it, reuses the head free slot or opens a new one with generation 0, and leaves every other key's lookup as it was; no generation changes, so a key older than its slot is not the new key and still finds nothing |
| SlotMaps.EmplacedOther | test/slot_map_test.cpp:213-228 | an insert does not change what any other key finds |
| SlotMaps.ErasedSpec | test/slot_map_test.cpp:156-165 | erase at a position moves the last value into the hole, drops exactly one copy of the erased value, expires the erased key, bumps its slot's generation, appends the slot to the free chain, and leaves other keys' lookups alone |
| SlotMaps.ErasedOther | test/slot_map_test.cpp:185-197 | an erase does not change what any other key finds, even though it moves a value |
| SlotMaps.ErasedWellFormed | test/slot_map_test.cpp:156-158 | erase keeps the invariant and changes only the erased slot's generation, by exactly 1 |
| SlotMaps.WithFreeSlotSpec | test/slot_map_test.cpp:339-341 | adding a spare slot appends it to the free chain and changes no lookup |
| SlotMaps.SwappedSpec | test/slot_map_test.cpp:306-323 | swapping two dense positions exchanges the values, fixes up both owners, and every key still finds its value |
| SlotMaps.SumAppend | test/slot_map_test.cpp:240-253 | the sum of a concatenation is the sum of the parts |
| SlotMaps.SumPermutation | test/slot_map_test.cpp:240-253 | permuted sequences have equal sums |
| SlotMaps.RangeRemoved | test/slot_map_test.cpp:270-276 | a prefix kept and a tail equal as a multiset to the post-range suffix is the multiset minus the removed range |
| SlotMaps.EraseRangeKeys | test/slot_map_test.cpp:256-291 | erasing one more position of the range expires its key and keeps every key outside the range |
| SlotMaps.GenerationsDontSkip | test/slot_map_test.cpp:485-510 | with one slot freed, the next insert reuses its index with generation + 1; the old key is dead and the new one finds the value |
| SlotMaps.TwoErased | test/slot_map_test.cpp:523-525 | erasing k1 then k2 from a full map leaves the free chain k1, k2 in that order |
| SlotMaps.FifoFirst | test/slot_map_test.cpp:533 | with free chain [s1, s2] the next insert takes s1 |
| SlotMaps.FifoErase | test/slot_map_test.cpp:534 | erasing the key just inserted puts its slot behind s2 |
| SlotMaps.FifoReuse | test/slot_map_test.cpp:533-536 | emplace, erase, emplace from free chain [s1, s2] uses s1 and then s2 |
| SlotMaps.IndexesAreUsedEvenly | test/slot_map_test.cpp:512-546 | after erasing k1 and k2 from a full map, emplace/erase/emplace uses k1's index and then k2's, which differ |
| SlotMaps.SlotMap.constructor | test/slot_map_test.cpp:141-144 | a new slot map is empty, has no slots and satisfies the invariant |
| SlotMaps.SlotMap.Size | test/slot_map_test.cpp:127 | size() is the reverse map's length |
| SlotMaps.SlotMap.IsEmpty | test/slot_map_test.cpp:142-150 | empty() holds exactly when no key is live |
| SlotMaps.SlotMap.SlotCount | test/slot_map_test.cpp:326-347 | slot_count() is size() plus the number of free slots |
| SlotMaps.SlotMap.Find | test/slot_map_test.cpp:152-164 | find(k) is a dense position owned by k when k is live, and end otherwise |
| SlotMaps.SlotMap.At | test/slot_map_test.cpp:160-163 | at(k) yields k's value when k is live, and the out_of_range case (None) otherwise |
| SlotMaps.SlotMap.Insert | test/slot_map_test.cpp:147-153 | the value is appended, the new key finds it at the old size, and no other key's lookup changes; the new key is none of the expired keys, and every expired key still finds nothing (lines 213-226) |
| SlotMaps.SlotMap.ErasePosition | test/slot_map_test.cpp:240-245 | erase(it) swaps the last value into the hole, adds the owner to the expired keys, and returns the same position to continue from; no expired key finds anything |
| SlotMaps.SlotMap.MoveLastInto | test/slot_map_test.cpp:240-245 | the field updates of swap-and-pop produce the erased state |
| SlotMaps.SlotMap.EraseKey | test/slot_map_test.cpp:156-171 | erase(k) returns 1 and removes k's value when k is live; otherwise it returns 0 and changes nothing; afterwards k is dead and, when it was erased, joins the expired keys, none of which finds anything; other keys are unaffected |
| SlotMaps.SlotMap.EraseRange | test/slot_map_test.cpp:256-291 | erase(first, last) removes exactly the values at [first, last) as a multiset, keeps the prefix, adds exactly their keys to the expired keys (none of which finds anything afterwards) and returns first |
| SlotMaps.SlotMap.EraseRangeStep | test/slot_map_test.cpp:256-291 | each backward step erases one more position of the range and adds its owner to the expired keys |
| SlotMaps.SlotMap.InsertAll | test/slot_map_test.cpp:174-183 | inserting a batch appends the values, every returned key finds its value, earlier keys are unaffected, and the expired keys still find nothing |
| SlotMaps.SlotMap.InsertAllStep | test/slot_map_test.cpp:178-181 | one loop round keeps every key issued so far finding its value |
| SlotMaps.SlotMap.EraseAll | test/slot_map_test.cpp:185-197 | erasing distinct live keys one by one returns 1 each, adds exactly them to the expired keys, and leaves every other key alone |
| SlotMaps.SlotMap.EraseAllStep | test/slot_map_test.cpp:185-196 | one loop round expires one more key and keeps the others |
| SlotMaps.SlotMap.EraseInLoop | test/slot_map_test.cpp:231-254 | the erase-while-iterating loop visits every value once (its total is the sum of all values) and keeps exactly the values not above the threshold |
| SlotMaps.SlotMap.EraseInLoopStep | test/slot_map_test.cpp:240-247 | one loop round either keeps the current value or erases it and revisits the value moved into its place |
| SlotMaps.SlotMap.Partition | test/slot_map_test.cpp:293-324 | values before the pivot satisfy pred and those after it do not; the values are a permutation and every key still finds its value |
| SlotMaps.SlotMap.SwapPositions | test/slot_map_test.cpp:306-323 | swapping two dense positions keeps every key's lookup |
| SlotMaps.SlotMap.ReserveSlots | test/slot_map_test.cpp:339-346 | reserve_slots(n) makes slot_count() at least n without changing the values or any lookup |
| SlotMaps.SlotMap.AppendFreeSlot | test/slot_map_test.cpp:339-341 | one more slot is added at the tail of the free chain |
| SlotMaps.SlotMap.Clear | test/slot_map_test.cpp:467-483 | after clear() nothing is stored and no old key finds anything |
| SlotMaps.SlotMap.Swap | test/slot_map_test.cpp:166-171 | the two maps exchange their whole states |

## Left out

- Allocators, comparator objects and type-trait plumbing are compile-time machinery. This covers the allocator-extended constructors, `make_obj_using_allocator`, `qualifies_as_range`, `is_nothrow_swappable` and the deduction guides. Keys are `int` and compare with `<`.
- The transparent-comparator overloads of `find`, `count`, `contains`, `lower_bound`, `upper_bound` and `equal_range` repeat the `Key` versions.
- `insert(hint, t)` forwards to `insert(t)`, and `emplace(args...)` builds the key and calls `insert`, so `FlatSet.Insert` models both. `insert(sorted_unique, first, last)` runs the same loop as `insert(first, last)` and is `FlatSet.InsertRange`.
- `operator<<` and `<iostream>` are I/O. `print_slot_map` output is I/O; only the state it exposes is modelled.
- Reverse iterators, `max_size`, `key_comp`, `value_comp` and `container()` are accessors with no behaviour of their own.
- `sort_and_levelorder_impl` is never called.
- `rank_from_eytzinger` and `eytzinger_from_rank` come from `eytzinger_utils.h`, which is not part of this model. They are modelled by their meaning: `Rank` and `IndexOfRank`.
- `std::sort` is modelled by its result (`SortSeq`: sorted and a permutation), not its algorithm.
- `LevelOrderSet.RotateByRank`: `std::rotate` over tree iterators is modelled as the rotation of the ascending view, not as the element-swapping loop through the iterators.
- Integer widths (`int` ranks, `1u << height`, `ptrdiff_t`) are unbounded here, so overflow for huge sizes is not modelled.
- `LevelOrder.InvertFaroShuffle` is proved for every range length. invert_faro_shuffle assumes an odd length (the commented-out assert at line 282); for odd lengths the result is the documented one.
- `LevelOrder.UniqueHelper` keeps the last key of each run of equal keys, as unique_helper does. With `int` keys that is unobservable.
- `TreeIter.Decrement`: `--begin()` is undefined for a standard iterator. As written, the climb stops at the root and the iterator lands on slot 0; the model states that.
- `LevelOrderSet.FlatSet.Replace` installs the container without checking it is valid, as replace() does. Its contract therefore does not promise `Valid()`.
- The slot map header `sg14/slot_map.h` is not part of this model. Its behaviour is inferred from the tests and from the state `print_slot_map` shows:
  - the free chain is first in, first out;
  - erase bumps the generation;
  - find checks both the generation and occupancy, through the reverse map;
  - `clear()` drops all slots;
  - `reserve_slots` appends free slots.
- Slot map genericity is left out:
  - values are `int`, and generations are unbounded `nat` with no wrap-around (the 5-bit generation of `key_11_5_t` would wrap);
  - custom key structs, and the `std::deque`, `std::list` and custom `Vector` backing containers;
  - move-only values, `capacity()`/`reserve()`, and the container concept.
- `find_unchecked` and `operator[]` are the unchecked forms of `find` and `at`, and are not modelled separately.
- `SlotMaps.SlotMap.At` returns `None` where at() throws `std::out_of_range`.
- The random key shuffles of the stress tests (`std::mt19937`) are not modelled. `EraseAll` and `EmplacedOther`/`ErasedOther` cover every order instead.
- The move construction of `BasicTests` (line 144) is the same state under a new name, so it is not modelled.
