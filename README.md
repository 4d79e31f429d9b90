# Verified model of four algorithms from Algorithms-2020

This project is a Dafny model of four components of the Kotlin course
repository Algorithms-2020, with proofs of what each component promises.

- **`KtTrie`** (`src/lesson4/KtTrie.kt`) is a mutable set of strings kept in a character trie. Each stored word is the path of its characters followed by a `'\0'` child. The model also covers its iterator. The iterator fills a queue with every word when it is created, and its `remove` deletes the word last returned.
- **`KtOpenAddressingSet`** (`src/lesson5/KtOpenAddressingSet.kt`) is a fixed-size hash set of `2^bits` slots with linear probing. A removed element leaves an `EMPTY` tombstone. The model also covers its iterator, which walks the slots in index order.
- **`binarySearch` and `longestIncreasingSubSequence`** (`src/lesson7/DynamicTasks.kt`) find a longest strictly increasing subsequence. They use patience sorting: `lasts[k]` holds the smallest last value of an increasing chain of length `k`, and predecessor links are followed back at the end. The algorithm runs on the reversed, negated list.
- **The word search of `baldaSearcher`** (`src/lesson6/GraphTasks.kt`) is a backtracking depth-first search. A word is found when its letters can be read along distinct, orthogonally adjacent cells of a letter grid.

Each source file becomes one or two Dafny modules:

- `wrappers.dfy`: `Wrappers`. The exceptions the Kotlin code throws become `Failure`/`Fail` values.
- `trie_shape.dfy`: `TrieShape`, the form of a trie as a map from node paths to the keys of their children, in insertion order.
- `trie.dfy`: `TrieSet`, the `KtTrie` class and its iterator. Their methods update the node map in place.
- `open_addressing.dfy`: `OpenAddressing`, the probing functions and their lemmas, the `KtOpenAddressingSet` class over an `array` of slots, and its iterator.
- `open_addressing_findings.dfy`: `OpenAddressingFindings`, concrete tables that show two defects of the source.
- `dynamic_tasks.dfy`: `DynamicTasks`. `lasts`, `positions` and `previous` are sequence-valued locals that the loops reassign.
- `balda.dfy`: `Balda`. The grid is passed in already parsed. `checked` is a sequence passed into and out of the recursive `FindNext`.

The `KtTrie` iterator follows the code: the queue is filled eagerly, and the children of each node are visited in insertion order. It is not a lazily sorted walk.

## Model

| member | source | states |
|---|---|---|
| TrieShape.EmptyShape | src/lesson4/KtTrie.kt:20-28 | A root with no children is a well-formed trie that stores no string (the initial and the cleared trie). |
| TrieShape.WordsMember | src/lesson4/KtTrie.kt:30-41 | A string is stored exactly when the path of the string plus `'\0'` leads to a node. |
| TrieShape.WordsAreZeroFree | src/lesson4/KtTrie.kt:30 | A stored string never contains `'\0'`, because the terminator is never followed by another key. |
| TrieShape.NoInnerTerminator | src/lesson4/KtTrie.kt:30 | A `'\0'` key only ever ends a path. |
| TrieShape.PrefixesPresent | src/lesson4/KtTrie.kt:32-38 | Every prefix of a node's path is itself a node. |
| TrieShape.PrefixAbsent | src/lesson4/KtTrie.kt:32-38 | A path with a missing prefix leads to no node, which justifies the early `null` of `findNode`. |
| TrieShape.WordAtNode | src/lesson4/KtTrie.kt:63-65 | A string is stored exactly when its node exists and has a `'\0'` child. |
| TrieShape.BelowShrinks | src/lesson4/KtTrie.kt:94-101 | The set of nodes at or below a child is strictly smaller than at its parent, so the recursion of `queueFill` ends. |
| TrieShape.ListingSpec | src/lesson4/KtTrie.kt:94-101 | `queueFill` of a node lists each string stored at or below it exactly once, and nothing else. |
| TrieShape.ListingUpToSpec | src/lesson4/KtTrie.kt:95-100 | After the first `i` children of a node, the queue holds exactly the strings stored below those children, without repeats. |
| TrieShape.EntrySpec | src/lesson4/KtTrie.kt:96-99 | The `'\0'` child contributes the node's own string. Any other child contributes exactly the strings below it. |
| TrieShape.ListingEnumeratesWords | src/lesson4/KtTrie.kt:87-101 | The queue filled from the root holds every stored string exactly once, so its length is `size`. |
| TrieShape.AddChildWellShaped | src/lesson4/KtTrie.kt:50-54 | Appending a new childless node under an existing `'\0'`-free node keeps the trie well formed. |
| TrieShape.InsertFromSpec | src/lesson4/KtTrie.kt:46-56 | The walk of `add` from key `i` on keeps the trie well formed. It adds exactly the missing prefixes of the path as nodes, and changes nothing when the whole path exists. |
| TrieShape.InsertSpec | src/lesson4/KtTrie.kt:43-61 | `add(s)` for a `'\0'`-free `s` stores exactly one more string, `s`. It changes nothing when `s` is already stored. |
| TrieShape.Without | src/lesson4/KtTrie.kt:65 | Removing a key from a node's children drops that key only. The other keys stay distinct and keep their insertion order: when the key is present, the result is the list with exactly that one entry cut out. |
| TrieShape.RemoveWordSpec | src/lesson4/KtTrie.kt:63-70 | Deleting the `'\0'` child of a stored string's node keeps the trie well formed and removes exactly that string. No other node is pruned. |
| TrieSet.KtTrie.constructor | src/lesson4/KtTrie.kt:20-22 | A new trie is empty with `size` 0. |
| TrieSet.KtTrie.Clear | src/lesson4/KtTrie.kt:25-28 | `clear` leaves the root without children and `size` at 0. |
| TrieSet.KtTrie.FindNode | src/lesson4/KtTrie.kt:32-38 | `findNode` returns a node exactly when the whole path exists, and the node returned is the one at that path. |
| TrieSet.KtTrie.Contains | src/lesson4/KtTrie.kt:40-41 | `contains(s)` holds exactly when `s` is stored. |
| TrieSet.KtTrie.Add | src/lesson4/KtTrie.kt:43-61 | `add(s)` returns true exactly when `s` was absent. Afterwards `s` is stored, nothing else changes, and `size` goes up by one only on true. |
| TrieSet.KtTrie.Remove | src/lesson4/KtTrie.kt:63-70 | `remove(s)` returns true exactly when `s` was stored. It removes `s` and only `s`, and `size` drops by one only on true. On true, the new node map is exactly the old one without the `'\0'` child of `s`, with the other children in their old order. On false, the trie is untouched. |
| TrieSet.TrieIterator.constructor | src/lesson4/KtTrie.kt:81-89 | The queue starts out holding every stored string once, with as many entries as `size`. |
| TrieSet.TrieIterator.QueueFill | src/lesson4/KtTrie.kt:94-101 | `queueFill(node, prefix)` appends the listing of the strings at and below `prefix` to the queue. |
| TrieSet.TrieIterator.HasNext | src/lesson4/KtTrie.kt:105 | `hasNext` holds exactly while some listed string has not been returned. |
| TrieSet.TrieIterator.Next | src/lesson4/KtTrie.kt:109-114 | `next` fails with `IllegalStateException` on an empty queue, leaving the queue, the last string returned and the `removed` flag unchanged. Otherwise it returns and drops the head of the queue and re-enables `remove`. |
| TrieSet.TrieIterator.Remove | src/lesson4/KtTrie.kt:118-122 | `remove` fails before any `next`, after a second call, and when the last string returned is `""`. On failure the trie's nodes and `size` are unchanged. Otherwise it deletes exactly that string from the trie: the node map becomes what `KtTrie.remove` of that string leaves, and `size` drops by one. |
| OpenAddressing.Wrap32 | src/lesson5/KtOpenAddressingSet.kt:12 | A 32-bit Kotlin `Int` result: congruent to the exact value modulo 2^32, and equal to it when it fits. |
| OpenAddressing.CapacityAsWritten | src/lesson5/KtOpenAddressingSet.kt:8-12 | The constructor fails exactly when `bits` is outside 2..31. Otherwise the capacity is `1 shl bits` wrapped to 32 bits. |
| OpenAddressing.ThirtyOneBitsGiveNegativeCapacity | src/lesson5/KtOpenAddressingSet.kt:9-14 | With `bits = 31` the guard passes but `1 shl 31` is −2^31, a negative capacity. |
| OpenAddressing.Capacity | src/lesson5/KtOpenAddressingSet.kt:8-14 | With the guard `bits in 2..30`, the capacity is the positive power `2^bits`. It agrees with the source wherever the source's capacity is positive. |
| OpenAddressing.Pow2Values | src/lesson5/KtOpenAddressingSet.kt:9-12 | The exact powers 2^2, 2^30 and 2^31 at the ends of the guard's range, before any 32-bit wrap. |
| OpenAddressing.Start | src/lesson5/KtOpenAddressingSet.kt:21-23 | The starting index lies inside the table. |
| OpenAddressing.Offset | src/lesson5/KtOpenAddressingSet.kt:35 | Every slot is reached from the start after some number of steps below the capacity. |
| OpenAddressing.NextPos | src/lesson5/KtOpenAddressingSet.kt:59-60 | `(index + 1) % capacity` moves to the next probe position, and after `capacity` steps it is back at the start. |
| OpenAddressing.CountIsSize | src/lesson5/KtOpenAddressingSet.kt:16 | The number of occupied slots equals the number of elements held. |
| OpenAddressing.BagFill | src/lesson5/KtOpenAddressingSet.kt:63 | Storing an element in a `null` or `EMPTY` slot adds it once to the held elements. |
| OpenAddressing.BagTombstone | src/lesson5/KtOpenAddressingSet.kt:92 | Overwriting an element with `EMPTY` takes out exactly one copy of it. |
| OpenAddressing.CountUpdate | src/lesson5/KtOpenAddressingSet.kt:92-93 | Overwriting a slot changes the occupied count by what leaves and what comes. |
| OpenAddressing.BagIndex | src/lesson5/KtOpenAddressingSet.kt:14 | An element that is held sits in some slot. |
| OpenAddressing.CountBound | src/lesson5/KtOpenAddressingSet.kt:14-16 | At most `capacity` elements are held, and exactly `capacity` when every slot holds one. |
| OpenAddressing.BagOfNulls | src/lesson5/KtOpenAddressingSet.kt:14-16 | A table of `null`s holds nothing. |
| OpenAddressing.NoDuplicatesIsSet | src/lesson5/KtOpenAddressingSet.kt:7 | When no element occupies two slots, each element is held at most once, so the table is a set. |
| OpenAddressing.AddProbeSpec | src/lesson5/KtOpenAddressingSet.kt:52-62 | The probe of `add` stops at the first slot equal to `e`, or at the first `null` or `EMPTY` slot. Every slot passed holds a different element. A full circle means every slot holds another element. |
| OpenAddressing.FindProbeSpec | src/lesson5/KtOpenAddressingSet.kt:29-37 | The probe of `contains`/`remove` stops at the first slot equal to `e` or the first `null`. Every slot passed is non-`null` and differs from `e`. |
| OpenAddressing.FindProbeFinds | src/lesson5/KtOpenAddressingSet.kt:28-39 | If every element has no `null` between its starting index and its slot, the probe from `e`'s starting index finds `e` exactly when `e` is held. |
| OpenAddressing.FullRunMisses | src/lesson5/KtOpenAddressingSet.kt:31-37 | A probe that circles the whole table without stopping means the table has no `null` and `e` is absent. |
| OpenAddressing.FindProbeStops | src/lesson5/KtOpenAddressingSet.kt:31-37 | The probe stops before circling once when the table has a `null` or holds `e`. |
| OpenAddressing.FillKeepsReachable | src/lesson5/KtOpenAddressingSet.kt:63 | Writing `e` where its probe found no `null` on the way keeps every element reachable from its starting index. |
| OpenAddressing.TombstoneKeeps | src/lesson5/KtOpenAddressingSet.kt:158 | Replacing an element by `EMPTY` keeps the others reachable, because a tombstone does not stop a probe. It also keeps the slots free of duplicates. |
| OpenAddressing.AddAt | src/lesson5/KtOpenAddressingSet.kt:63-65 | Storing `e` where the probe of `add` stopped keeps reachability. It adds one copy of `e` and one to the count, and keeps the set duplicate-free when `e` was absent. |
| OpenAddressing.AddWraps | src/lesson5/KtOpenAddressingSet.kt:59-60 | When the probe of `add` comes back to its start, `e` is absent and every slot is occupied. |
| OpenAddressing.RemoveAt | src/lesson5/KtOpenAddressingSet.kt:91-94 | Putting `EMPTY` where `e` was found keeps reachability, takes one copy of `e` out, lowers the count by one and keeps the set duplicate-free. |
| OpenAddressing.KtOpenAddressingSet.constructor | src/lesson5/KtOpenAddressingSet.kt:7-16 | A new table has `2^bits` `null` slots, holds nothing and has `size` 0. |
| OpenAddressing.KtOpenAddressingSet.StartingIndex | src/lesson5/KtOpenAddressingSet.kt:21-23 | `startingIndex` is a slot index. |
| OpenAddressing.KtOpenAddressingSet.Contains | src/lesson5/KtOpenAddressingSet.kt:28-39 | `contains(e)` holds exactly when `e` is held, whenever the loop is certain to stop (a `null` slot exists or `e` is held). |
| OpenAddressing.KtOpenAddressingSet.ContainsWrapping | src/lesson5/KtOpenAddressingSet.kt:28-39 | The corrected `contains`, which also stops after a full circle, holds exactly when `e` is held, on every table. |
| OpenAddressing.KtOpenAddressingSet.Add | src/lesson5/KtOpenAddressingSet.kt:51-66 | `add(e)` answers by where its probe stops. It returns false on a slot equal to `e`. It returns true on a free slot and stores `e` there, raising `size`. When the table is full it fails with "Table is full", and the table is unchanged on false and on failure. |
| OpenAddressing.KtOpenAddressingSet.AddNew | src/lesson5/KtOpenAddressingSet.kt:41-66 | The corrected `add` returns false exactly when `e` is already held. On true it stores one copy, and it keeps every element in one slot only. |
| OpenAddressing.KtOpenAddressingSet.Remove | src/lesson5/KtOpenAddressingSet.kt:86-101 | `remove(e)` returns true exactly when `e` is held. It replaces the slot found by `EMPTY`, lowers `size` by one and leaves the rest unchanged. |
| OpenAddressing.NextElem | src/lesson5/KtOpenAddressingSet.kt:129-132 | The slot `calcNextIndex` stops at is the first slot holding an element from the current index on, or `capacity`. |
| OpenAddressing.SkipFree | src/lesson5/KtOpenAddressingSet.kt:129-132 | Skipping `null` and `EMPTY` slots does not change the elements still ahead. |
| OpenAddressing.BagStep | src/lesson5/KtOpenAddressingSet.kt:142-148 | The elements from `index` on are the one at `index` plus those after it. |
| OpenAddressing.KtOpenAddressingSetIterator.constructor | src/lesson5/KtOpenAddressingSet.kt:115-123 | A new iterator stands at the first occupied slot, and every element of the set is still to be returned. |
| OpenAddressing.KtOpenAddressingSetIterator.CalcNextIndex | src/lesson5/KtOpenAddressingSet.kt:129-132 | `calcNextIndex` moves `index` to the next occupied slot or to `capacity`. |
| OpenAddressing.KtOpenAddressingSetIterator.HasNext | src/lesson5/KtOpenAddressingSet.kt:136-138 | `hasNext` holds exactly when some element is still to be returned. |
| OpenAddressing.KtOpenAddressingSetIterator.Next | src/lesson5/KtOpenAddressingSet.kt:142-151 | `next` fails with `IllegalStateException` when nothing is left. Otherwise it returns the element at `index`, removes it from those still to come, remembers its slot and moves to the next occupied slot. |
| OpenAddressing.KtOpenAddressingSetIterator.Remove | src/lesson5/KtOpenAddressingSet.kt:155-161 | `remove` fails before the first `next` and after a second call. Otherwise it puts `EMPTY` in the slot last returned and takes that element out of the set, lowering `size` by one. |
| OpenAddressingFindings.AddCanDuplicate | src/lesson5/KtOpenAddressingSet.kt:51-66 | Two elements share a probe run, the first is removed, and the second is added again. `add` stops at the tombstone and stores the second a second time. |
| OpenAddressingFindings.ContainsCanLoopForever | src/lesson5/KtOpenAddressingSet.kt:28-39 | In a full table without `null` slots, the probe for an absent element never stops, so `contains` never returns. |
| DynamicTasks.BinarySearch | src/lesson7/DynamicTasks.kt:39-51 | On any list the result lies in `[0, size]`. On a sorted list it is an index of `element` when there is one, and otherwise the insertion point: everything before is smaller and everything from it on is larger. |
| DynamicTasks.ReversedNegated | src/lesson7/DynamicTasks.kt:60 | `data[j]` is the negation of the `j`-th element from the end of `list`. |
| DynamicTasks.ShapeSorted | src/lesson7/DynamicTasks.kt:61-69 | `lasts` is sorted throughout, so `binarySearch` applies to it. |
| DynamicTasks.PlaceIndex | src/lesson7/DynamicTasks.kt:69-70 | The index `binarySearch` finds lies in `1..length+1`. When the guard fails, the value is already at that index. |
| DynamicTasks.PlaceStep | src/lesson7/DynamicTasks.kt:69-70 | Inside the main loop the index `binarySearch` returns leaves room to read `lasts[index - 1]`, `lasts[index]`, `positions[index - 1]` and `previous[i]`. |
| DynamicTasks.StepKeepsTails | src/lesson7/DynamicTasks.kt:69-75 | After placing `data[i]`, no increasing chain among the first `i+1` values is longer than `length`, and a chain of length `m` ends at a value no smaller than `lasts[m]`. |
| DynamicTasks.ShapeStep | src/lesson7/DynamicTasks.kt:70-74 | Writing the value between its neighbours keeps `lasts` strictly increasing up to the new `length`, with sentinels beyond. |
| DynamicTasks.LinksStep | src/lesson7/DynamicTasks.kt:70-74 | The new `positions` and `previous` entries link the placed value to a smaller, earlier value one level down. |
| DynamicTasks.LinksSkip | src/lesson7/DynamicTasks.kt:70 | A value that is not placed leaves every link valid. |
| DynamicTasks.TailsStart | src/lesson7/DynamicTasks.kt:61-66 | Before any value is placed, no chain is longer than 0. |
| DynamicTasks.PlacedStart | src/lesson7/DynamicTasks.kt:61-66 | The initial `lasts`, `positions` and `previous` satisfy the loop invariant. |
| DynamicTasks.PlaceNext | src/lesson7/DynamicTasks.kt:69-75 | One step of the first loop, whether the guard holds or not, keeps the invariant on `lasts`, chains and links. |
| DynamicTasks.PlaceOne | src/lesson7/DynamicTasks.kt:69-75 | One round of the first loop keeps the invariant for one more value. |
| DynamicTasks.PlaceAll | src/lesson7/DynamicTasks.kt:61-76 | After the first loop, no increasing chain of `data` is longer than `length`, and `positions[length]` starts a linked chain of `length` values. |
| DynamicTasks.FollowLinks | src/lesson7/DynamicTasks.kt:77-82 | Following `previous` from `positions[length]` collects `length` values of `data` at decreasing positions, in decreasing order. |
| DynamicTasks.DescendingBack | src/lesson7/DynamicTasks.kt:77-83 | Negating that collection gives a strictly increasing subsequence of the original list of the same length. |
| DynamicTasks.ReversedChain | src/lesson7/DynamicTasks.kt:60 | An increasing subsequence of the list becomes, position by position, an increasing chain of the same length in the reversed, negated list. |
| DynamicTasks.TailsBoundAll | src/lesson7/DynamicTasks.kt:60-76 | No increasing subsequence of the original list is longer than `length`. |
| DynamicTasks.LongestIncreasingSubSequence | src/lesson7/DynamicTasks.kt:55-84 | The result is a strictly increasing subsequence of `list`, and no strictly increasing subsequence is longer. Lists of size 0 and 1 come back unchanged. |
| Balda.Move | src/lesson6/GraphTasks.kt:176-188 | Each of the four `offsets` leads to an orthogonal neighbour. |
| Balda.NeighbourMove | src/lesson6/GraphTasks.kt:176 | Every orthogonal neighbour is reached by one of the four `offsets`. |
| Balda.TrailHead | src/lesson6/GraphTasks.kt:189-191 | The first cell of any continuation is inside the grid, unused, adjacent and holds `word[index]`. |
| Balda.SpellsTail | src/lesson6/GraphTasks.kt:192-195 | The rest of a spelling path is a continuation from its first cell, which now counts as used. |
| Balda.SpellsCons | src/lesson6/GraphTasks.kt:192-195 | A matching cell followed by a continuation in which it counts as used spells the word. |
| Balda.TrailTail | src/lesson6/GraphTasks.kt:192-196 | A continuation of at least two letters starts with one cell and goes on from there with that cell used. |
| Balda.TrailCons | src/lesson6/GraphTasks.kt:190-196 | An adjacent, unused, matching cell followed by a continuation from it is a continuation. |
| Balda.FoundFromIff | src/lesson6/GraphTasks.kt:204-206 | A word can be spelled from a start cell exactly when that cell holds its first letter and the word has one letter or a continuation exists with the start cell used. |
| Balda.RemoveFirst | src/lesson6/GraphTasks.kt:198 | `checked.remove(cell)` leaves the list unchanged when the cell is absent and one entry shorter when it is present. |
| Balda.RemoveLast | src/lesson6/GraphTasks.kt:192-198 | Removing a cell just appended, and not in the list before, restores the list. |
| Balda.FindNext | src/lesson6/GraphTasks.kt:185-203 | `findNext` returns true exactly when some continuation exists. Then `checked` has been extended by the cells of one. On false, `checked` is back to its value on entry. |
| Balda.SearchWord | src/lesson6/GraphTasks.kt:179-209 | Trying every start cell adds the word to the result exactly when it can be spelled in the grid. |
| Balda.BaldaSearcher | src/lesson6/GraphTasks.kt:174-212 | The result holds exactly the given words that can be spelled along distinct, orthogonally adjacent cells of the grid. |
| Balda.OneLetter | src/lesson6/GraphTasks.kt:204-207 | A one-letter word is found exactly when its letter occurs in the grid. |
| Balda.DocLetters | src/lesson6/GraphTasks.kt:151-153 | In the documented grid the only Р is at (1, 1), its only neighbouring А is at (1, 2), and no К is next to that. |
| Balda.RakMissing | src/lesson6/GraphTasks.kt:156-160 | РАК cannot be spelled in the documented grid. |
| Balda.DocPath | src/lesson6/GraphTasks.kt:162-164 | A path given cell by cell that meets the rules shows its word can be found. |
| Balda.TravaFound | src/lesson6/GraphTasks.kt:160-164 | ТРАВА can be found in the documented grid. |
| Balda.KranFound | src/lesson6/GraphTasks.kt:160-164 | КРАН can be found in the documented grid. |
| Balda.AkvaFound | src/lesson6/GraphTasks.kt:160-164 | АКВА can be found in the documented grid. |
| Balda.NartyFound | src/lesson6/GraphTasks.kt:160-164 | НАРТЫ can be found in the documented grid. |
| Balda.DocExample | src/lesson6/GraphTasks.kt:151-160 | On the documented grid and words, exactly ТРАВА, КРАН, АКВА and НАРТЫ can be found. Together with `BaldaSearcher`'s contract, this fixes the documented result. |
| Balda.DocWordsFound | src/lesson6/GraphTasks.kt:155-160 | Of the documented words, exactly those other than РАК can be found. |
| Balda.DocResult | src/lesson6/GraphTasks.kt:155-160 | Any result that meets `BaldaSearcher`'s contract on the documented grid and words is exactly {ТРАВА, КРАН, АКВА, НАРТЫ}. |

## Left out

- The file reading of `baldaSearcher` (`File(inputName).readLines()`, src/lesson6/GraphTasks.kt:175) is I/O. The model takes the parsed grid as a parameter.
- Balda.BaldaSearcher: requires a rectangular grid and non-empty words. The input format promises a rectangular grid. `word.first()` throws on an empty word, and that exception is not modelled.
- `hashCode` is a function parameter `hash: T -> int` fixed at construction, and `==` between elements is Dafny equality. A `hashCode` that changes while an element is stored is not modelled.
- OpenAddressing.Start: the mask `hashCode() and (0x7FFFFFFF shr (31 - bits))` is modelled as the non-negative remainder of the hash modulo `2^bits`. For a power of two the two agree, but that bit-level equivalence is not proved.
- OpenAddressing.KtOpenAddressingSet.Contains: requires that the table has a `null` slot or holds the element, because otherwise the source loops forever (see Findings). `ContainsWrapping` is the variant without that requirement.
- OpenAddressing.KtOpenAddressingSet.constructor: requires `bits in 2..30` (`Capacity`). With `bits = 31` the guard passes, but the capacity is negative, so `Array<Any?>(capacity)` throws `NegativeArraySizeException` and no table is created (see Findings).
- Concurrent modification of a set while one of its iterators is in use is not modelled. Each iterator method requires the set to be consistent.
- The trie's `Node` objects, their identity and `Node.toString` are left out. A node is named by its path, so aliasing between nodes cannot be expressed.
- TrieSet.KtTrie.Add: requires the string to be free of `'\0'`. With `'\0'` inside, the source's `size` stops matching the number of strings `contains` accepts.
- DynamicTasks.LongestIncreasingSubSequence: does not state which longest subsequence is returned when there are several. The documented preference for earlier numbers is not proved.
- DynamicTasks.LongestIncreasingSubSequence: requires every element to be larger than −2^31+1. Negating −2^31 overflows back to −2^31, and negating −2^31+1 gives the `Int.MAX_VALUE` sentinel. On a list of two or more elements that contains −2^31, `binarySearch` finds the `Int.MIN_VALUE` sentinel at index 0, so the guard reads `lasts[-1]` and the source throws `IndexOutOfBoundsException`. The source never places −2^31+1, which equals the `Int.MAX_VALUE` sentinel once negated, so it can return a subsequence that is too short. Neither behaviour is modelled.
- DynamicTasks.BinarySearch: `(start + end) / 2` cannot overflow for list sizes below 2^30, so 32-bit overflow of the midpoint is not modelled.
- The Kotlin `MutableList`s `lasts`, `positions`, `previous` and `answer`, and the balda `checked` list, are sequence values that the code reassigns. Element updates are modelled, but sharing of the lists is not.
- `longestSimplePath` (src/lesson6/GraphTasks.kt:127-139) depends on `Graph`, `Path` and `getNeighbors`, which are not part of this model.
- The `TODO()` stubs of GraphTasks.kt, and the other lessons' unimplemented tasks, have no behaviour to model.

## Findings

| source | as written | input that shows it | evidently intended | confidence | as-written member | corrected member |
|---|---|---|---|---|---|---|
| src/lesson5/KtOpenAddressingSet.kt:9-12 | `require(bits in 2..31)` admits 31, and `1 shl 31` is −2^31 in a 32-bit `Int` | `bits = 31`: the capacity is negative, so the storage array cannot be created | capacities `2^bits` that are positive, i.e. `bits in 2..30` | high, not executed | OpenAddressing.ThirtyOneBitsGiveNegativeCapacity | OpenAddressing.Capacity |
| src/lesson5/KtOpenAddressingSet.kt:55-63 | `add` stops at the first `EMPTY` slot and stores the element there, without looking further along the probe run for an equal element | hash 0 for all and 4 slots: add 3, add 7, remove 3, add 7; the table then holds 7 twice, and `add` returned true for an element already present | `add` returns false for an element already in the set, and the set never holds an element twice | high, not executed | OpenAddressingFindings.AddCanDuplicate | OpenAddressing.KtOpenAddressingSet.AddNew |
| src/lesson5/KtOpenAddressingSet.kt:31-37 | the loop of `contains` runs while the slot is not `null`, with no stop after a full circle | 4 slots holding 0, 1, 2, 3 (hash = value) and `contains(5)`: every slot is occupied, so the loop never ends | `contains` returns false after probing every slot once, as `remove` does at line 97 | high, not executed | OpenAddressingFindings.ContainsCanLoopForever | OpenAddressing.KtOpenAddressingSet.ContainsWrapping |
