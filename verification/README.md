# lib-multh in Dafny

A model of the two headers of lib-multh, with proofs about it:

- **`lib/multh_listworker.hpp`** defines the `Listworker`. Worker threads process every element of `main_list` once per cycle. Elements are queued for adding (`add`) or removing (`del`). Between cycles the leader thread merges the queues into the list (`addel`), moves the cycle anchor on and resets the claim counter.
  - Every element carries two fields at the worker's index: its slot index (its position in `main_list`, or the all-ones word when it has none) and its "added" flag.
- **`lib/multh_map.hpp`** defines the `Bucket`. It is an array of (key, data pointer) pairs. The first `size` pairs are in use, and the capacity grows by two when the array fills.

The Dafny files are:

- `list_merge.dfy` (module `ListMerge`): the merge as pure functions over values.
  - `MergeAsWritten` follows the code line by line. `Merge` is the merge as it is meant to be.
  - It proves which of the two keeps the slot invariant, which elements each lists afterwards, and how the added flags relate to the queues.
- `listworker.dfy` (module `MulthListworker`): the `Listworker` as a class.
  - It holds the configuration, the `running` flag (`w` in the code), the three lists and the cycle counters.
  - The per-element fields are two maps from element ids.
  - Each method is proved against the functions of `ListMerge`. Each loop of `addel` is its own method with invariants.
- `multh_map.dfy` (module `MulthMap`): the `Bucket` as a class over an `array`.
  - Beside it sit the sequence functions that specify it: lookup, swap-with-last removal, and capacity growth.
  - The scan and the grow test are also modelled as written, together with the inputs on which they go wrong.

Elements are modelled as natural-number ids and data pointers as values of a type parameter. A null result is `None`. The clock becomes integer milliseconds passed in as parameters.

## Model

| member | source | states |
|---|---|---|
| ListMerge.ReplaceFirstLength | lib/multh_listworker.hpp:241-248 | the replace rounds never change the length of `main_list` |
| ListMerge.ReplaceFirstSlotFrame | lib/multh_listworker.hpp:241-248 | the replace rounds leave the slot index of every element outside the first k pairs unchanged |
| ListMerge.ReplaceFirstMainFrame | lib/multh_listworker.hpp:241-248 | the replace rounds leave every position not vacated by the first k removals unchanged |
| ListMerge.ReplaceFirstPair | lib/multh_listworker.hpp:241-248 | after k rounds, for each pair i < k: add[i] holds del[i]'s old slot index, the list holds add[i] at that position, and del[i]'s slot index is unset |
| ListMerge.ReplaceFirstEffect | lib/multh_listworker.hpp:241-248 | the whole effect of the replace loop: every pair is done, and every other element and position is unchanged |
| ListMerge.ReplaceStepConsistent | lib/multh_listworker.hpp:243-247 | one replace round keeps the slot invariant (position p holds e exactly when e's slot index is p) |
| ListMerge.ReplaceFirstConsistent | lib/multh_listworker.hpp:241-248 | the replace rounds keep the slot invariant |
| ListMerge.ReplaceFirstMembers | lib/multh_listworker.hpp:241-248 | after k rounds, the listed elements are the first k additions plus the old listed elements other than the first k removals |
| ListMerge.DelFitsInList | lib/multh_listworker.hpp:264 | distinct removals that are all listed never outnumber the list, so the erase in the shrink branch stays in range |
| ListMerge.AssignSlotsEffect | lib/multh_listworker.hpp:257-260 | the numbering loop gives each new position's element that position and leaves all other slot indices alone |
| ListMerge.AppendConsistent | lib/multh_listworker.hpp:252-260 | appending distinct unslotted elements and numbering them keeps the slot invariant and lists exactly the old and the new elements |
| ListMerge.SwapRemoveConsistent | lib/multh_listworker.hpp:261-269 | one swap-remove (the intended shrink step) keeps the slot invariant and shortens the list by one |
| ListMerge.SwapRemoveMember | lib/multh_listworker.hpp:261-269 | one swap-remove unlists exactly the removed element |
| ListMerge.SwapRemoveAllConsistent | lib/multh_listworker.hpp:261-269 | swap-removing the surplus removals keeps the slot invariant and shortens the list by their number |
| ListMerge.SwapRemoveAllMember | lib/multh_listworker.hpp:261-269 | swap-removing del[lo..hi] unlists exactly those elements |
| ListMerge.MergeKeepsSlotInvariant | lib/multh_listworker.hpp:231-274 | the intended merge keeps the slot invariant, changes the length by \|add\| - \|del\|, and lists exactly the additions plus the old elements that were not removed |
| ListMerge.SurplusRemovalsListed | lib/multh_listworker.hpp:261-266 | in a shrinking merge, the removals left over after the replace rounds are still listed at their original slots |
| ListMerge.ClearSlotsEffect | lib/multh_listworker.hpp:266-269 | the reset loop of the shrink branch unsets exactly the surplus removals' slot indices |
| ListMerge.MergeAsWritten | lib/multh_listworker.hpp:234-273 | `addel` step by step: when additions outnumber removals, the list ends with the whole `add_list`; when removals outnumber additions, it is a prefix of the list after the replace rounds |
| ListMerge.Merge | lib/multh_listworker.hpp:231-274 | the intended `addel`: when additions outnumber removals, the list ends with exactly the additions the replace rounds left over |
| ListMerge.Truncate | lib/multh_listworker.hpp:264-269 | the erase in the shrink branch keeps a prefix of the list |
| ListMerge.MergeAsWrittenLength | lib/multh_listworker.hpp:234-264 | the merge as written grows the list by the whole \|add\| when additions outnumber removals, and otherwise changes it by \|add\| - \|del\| |
| ListMerge.TruncateConsistent | lib/multh_listworker.hpp:264-269 | cutting the tail off and unsetting the surplus slots keeps the slot invariant when the surplus removals all sat in the tail, and then lists exactly the old elements other than those removals |
| ListMerge.TruncateBreaksSlots | lib/multh_listworker.hpp:264-269 | conversely, when any surplus removal sits before the cut, cutting the tail off and unsetting the surplus slots breaks the slot invariant |
| ListMerge.MergeAsWrittenKeepsSlotInvariant | lib/multh_listworker.hpp:231-274 | the merge as written keeps the slot invariant and lists the right elements when there are no removals, when the counts balance, or when the surplus removals occupy the tail |
| ListMerge.GrowAsWrittenDuplicates | lib/multh_listworker.hpp:252-260 | as written, main [10], del [10], add [20, 30] gives [20, 20, 30] and breaks the slot invariant; the intended merge gives [20, 30] |
| ListMerge.ShrinkAsWrittenLosesTail | lib/multh_listworker.hpp:261-269 | as written, main [10, 20, 30], del [10] gives [10, 20]: 10 stays listed with an unset slot index and 30 is dropped; the intended merge gives [30, 20] |
| ListMerge.DisjointQueuesAreReady | lib/multh_listworker.hpp:153-166 | when the flags agree with the queues and no element is queued both ways, the queues meet everything `addel` relies on |
| ListMerge.MergeSettlesFlags | lib/multh_listworker.hpp:169-171 | after the intended merge empties the queues, `is_added` holds exactly for the elements in `main_list` |
| ListMerge.QueuedBothWays | lib/multh_listworker.hpp:153-166 | `del` then `add` of a listed element keeps the flags in agreement but queues it both ways, which the merge does not handle |
| ListMerge.QueuedBothWaysAsWritten | lib/multh_listworker.hpp:241-248 | on those queues the merge as written leaves the element in the list with its slot index unset, breaking the slot invariant; `del` (line 162) skips unslotted elements, so `del` can never queue it again |
| MulthListworker.NextAnchor | lib/multh_listworker.hpp:200-209 | the next cycle anchor is never behind the clock; it advances by one period when on time and restarts from the clock reading on an overrun |
| MulthListworker.Listworker.constructor | lib/multh_listworker.hpp:65 | a default worker is unconfigured, not running and holds nothing |
| MulthListworker.Listworker.FromIni | lib/multh_listworker.hpp:67-81 | the worker is configured, with the settings taken over, exactly when the element callback is set |
| MulthListworker.Listworker.Ini | lib/multh_listworker.hpp:101-121 | `ini` succeeds exactly when the worker is not running and the element callback is set; on failure nothing changes |
| MulthListworker.Listworker.Start | lib/multh_listworker.hpp:124-138 | after `start` the worker runs exactly when it was running or is configured |
| MulthListworker.Listworker.Add | lib/multh_listworker.hpp:153-158 | sets the flag and queues the element only if the flag was clear; keeps the flags in agreement with the queues |
| MulthListworker.Listworker.Del | lib/multh_listworker.hpp:160-166 | for a slotted element, clears the flag and queues the element only if the flag was set; an unslotted element is untouched; keeps the flag agreement |
| MulthListworker.Listworker.IsAdded | lib/multh_listworker.hpp:169-171 | reads the flag and changes nothing; while the flags agree with the queues, an unslotted element's flag is set exactly when it is queued for adding, and a slotted one's exactly when it is queued for adding as often as for removal |
| MulthListworker.Listworker.ReplaceRounds | lib/multh_listworker.hpp:241-248 | the replace loop computes ReplaceFirst |
| MulthListworker.Listworker.NumberFrom | lib/multh_listworker.hpp:257-260 | the numbering loop computes AssignSlots |
| MulthListworker.Listworker.ClearFrom | lib/multh_listworker.hpp:266-269 | the reset loop computes ClearSlots |
| MulthListworker.Listworker.SwapRemoveRounds | lib/multh_listworker.hpp:261-269 | the intended shrink loop computes SwapRemoveAll |
| MulthListworker.Listworker.AddelAsWritten | lib/multh_listworker.hpp:231-274 | `addel` as written computes MergeAsWritten, gives the list its as-written length and empties both queues |
| MulthListworker.Listworker.Addel | lib/multh_listworker.hpp:231-274 | the intended `addel` computes Merge, keeps the slot invariant, lists exactly the additions plus the unremoved old elements, and empties both queues |
| MulthListworker.Listworker.EndCycle | lib/multh_listworker.hpp:200-213 | the anchor moves by NextAnchor and is never behind the clock, the claim counter is reset and the cycle is counted |
| MulthListworker.Listworker.LeaderStepAsWritten | lib/multh_listworker.hpp:189-213 | the leader's step as written: the queues are merged by MergeAsWritten and emptied, then the cycle ends as in EndCycle |
| MulthListworker.Listworker.LeaderStep | lib/multh_listworker.hpp:189-213 | the leader's step with the intended `addel`: it merges the queues by Merge and keeps the slot invariant, then ends the cycle as in EndCycle; afterwards the flags say exactly which elements are listed |
| MulthMap.FindFrom | lib/multh_map.hpp:49-58 | the scan returns the first matching position from i, or None when no position from i matches |
| MulthMap.Lookup | lib/multh_map.hpp:111-121 | the lookup is found exactly when the key is in use, and returns data paired with that key |
| MulthMap.LookupAt | lib/multh_map.hpp:111-121 | with distinct keys, looking up an entry's key returns that entry's data |
| MulthMap.LookupAppend | lib/multh_map.hpp:47-80 | appending a new key keeps the keys distinct, maps the key to its data and changes no other lookup |
| MulthMap.SwapRemoveAt | lib/multh_map.hpp:99-105 | swap-with-last removal moves the last entry into the freed position, loses one position and keeps all others |
| MulthMap.LookupSwapRemove | lib/multh_map.hpp:84-108 | swap-removing a key's entry keeps the keys distinct, makes the key absent and changes no other lookup |
| MulthMap.NextCapacityAsWritten | lib/multh_map.hpp:63-67 | the grow test as written adds 0 or 2, and leaves room for the new entry exactly when the bucket had a free position before the addition |
| MulthMap.NextCapacity | lib/multh_map.hpp:63-67 | the corrected grow test always leaves room for the new entry and a spare position, and agrees with the written test whenever the bucket had a free position |
| MulthMap.DefaultBucketFirstAdd | lib/multh_map.hpp:33-78 | on a default bucket the first `add` does not grow, so its write lands outside a zero-length array; the corrected test grows to 2 |
| MulthMap.CapacityAfterAsWrittenFromZero | lib/multh_map.hpp:33-78 | with the written test, a default bucket never gains any capacity |
| MulthMap.CapacityAfterAgrees | lib/multh_map.hpp:40-78 | from any initial capacity of at least 1, the written and the corrected test give the same capacity after every addition |
| MulthMap.CapacityAfterRoom | lib/multh_map.hpp:61-78 | with the corrected test, every addition leaves a spare position past the entries in use |
| MulthMap.ScanAsWritten | lib/multh_map.hpp:90-94 | the scan as written returns only a position no further than `size` that holds the key |
| MulthMap.ScanAsWrittenFinds | lib/multh_map.hpp:115-119 | the scan as written agrees with the bounded scan, except that it also reports the spare position `size` when that position holds the key |
| MulthMap.DelAsWritten | lib/multh_map.hpp:84-108 | `del` as written: when the scan finds no position up to and including `size` that holds the key, nothing changes; otherwise the last entry in use is copied over the found position (which may be the spare position `size`), the size drops by one and the found data is returned |
| MulthMap.EmptyBucketDelAsWritten | lib/multh_map.hpp:84-92 | on an empty bucket whose spare position holds another key, `del` as written returns null and changes nothing |
| MulthMap.StaleKeyFound | lib/multh_map.hpp:84-121 | after Bucket(1), add(1,100), add(2,200), del(2): `get(2)` returns the stale 200, and a second `del(2)` drops key 1 |
| MulthMap.Bucket.constructor | lib/multh_map.hpp:33-37 | a bucket without storage has capacity 0 and no entries |
| MulthMap.Bucket.WithCapacity | lib/multh_map.hpp:40-44 | a bucket with storage for cap entries has no entries |
| MulthMap.Bucket.Add | lib/multh_map.hpp:47-80 | succeeds exactly when the key is not in use; it then appends the pair, keeps the keys distinct and grows the capacity by NextCapacity; the storage is either the old array or a fresh one; on failure nothing changes |
| MulthMap.Bucket.Del | lib/multh_map.hpp:84-108 | returns the key's data or None; a found entry is swap-removed and otherwise nothing changes; afterwards the key is absent |
| MulthMap.Bucket.Get | lib/multh_map.hpp:111-121 | returns exactly the lookup of the key among the entries in use |

## Left out

- The worker threads and `main_loop`'s scheduling are not modelled: the claim counter race, `try_lock` leader election, the condition variable waits and the calls to `process_element` (lib/multh_listworker.hpp:177-228). `LeaderStep` is the leader's branch run by one thread.
- The destructor, `halt` and `cont` only join threads and lock or unlock mutexes, so they are not modelled.
- Both callbacks are recorded only as set or not set. The model takes the `cycle_end` callback to change nothing. The code passes it `main_list` by mutable reference (lib/multh_listworker.hpp:196), and it may also call `add` or `del`. So the ensures of `LeaderStep` and `LeaderStepAsWritten` (the list is the merge of the queues, and both queues end empty) hold only under that assumption.
- The clock and `sleep_until` become the parameters `now` and `later` of `LeaderStep`. The model does not sleep.
- Elements carry one slot index and one flag each, for the index `del_it_pos`. Several workers sharing an element at different indices are not modelled.
- Element pointers are ids. Aliasing between element objects is not modelled.
- `cycle_nr` and `main_list_it` are unbounded naturals, not 64-bit words. The wrap-around after 2^64 cycles is not modelled.
- A default-constructed `cycle_starts` holds the clock's epoch, which is 0 here.
- MulthListworker.Listworker.Addel: requires `|main| + |add| <= SENTINEL`, so that positions stay below the all-ones slot value. The code assumes this silently.
- MulthListworker.Listworker.Addel: requires the queues to be disjoint (MergeReady). `add` and `del` do not guarantee this: QueuedBothWays shows a `del` followed by an `add`. DisjointQueuesAreReady shows disjointness is the only missing piece.
- MulthListworker.Listworker.AddelAsWritten: requires MergeReady as well, so the erase in the shrink branch is in range.
- MulthListworker.Listworker.LeaderStep: runs the intended merge (`Addel`, `Merge`), not `addel` as written, which the code at lines 190-191 calls. The step as written is `LeaderStepAsWritten`, and it breaks the slot invariant on the inputs in Findings.
- MulthListworker.Listworker.LeaderStep: requires disjoint queues (MergeReady), which `add` and `del` do not guarantee (QueuedBothWays). `LeaderStepAsWritten` requires them too, so that the replace loop's writes and the erase stay in range.
- MulthListworker.Listworker.LeaderStep: proves the flag/list agreement only when the flags agreed before the step.
- A `del` followed by an `add` of a listed element before the merge is a defect of the code as written (QueuedBothWaysAsWritten). The model has no corrected version, because the code does not show which outcome is meant: the element dropped or kept.
- Repeating that pair (`del`, `add`, `del`, `add`) queues the element twice both ways: `add_list` [e, e], `del_list` [e, e]. The first replace round unsets its slot index, and the second writes `main_list[0xFFFF_FFFF_FFFF_FFFF]`, outside the list (lib/multh_listworker.hpp:247). `ReplaceStep` turns that write into a no-op, and MergeReady, which every merge lemma requires, rules the case out.
- The `Map` class (lib/multh_map.hpp:128-145) has only declarations and no bodies, so it is not modelled.
- The bucket's storage is a Dafny array, and growing allocates a new array and copies it element by element. `memcpy` byte copies, `delete[]` and the trivially-copyable key constraint are not modelled.
- MulthMap.Bucket.Del, MulthMap.Bucket.Get: model the corrected scan, which tests the end first. The scan as written is `ScanAsWritten` and `DelAsWritten` (see Findings).
- MulthMap.SwapRemoveAt: states the removal position by position, not as a multiset permutation.
- MulthMap.DelAsWritten: requires that an empty bucket's position 0 does not hold the key, because then the code forms `end - 1` before the array (lib/multh_map.hpp:100).
- The tests under tests/ are not modelled.

## Findings

| source | as written | input that shows it | evidently intended | confidence | as-written member | corrected member |
|---|---|---|---|---|---|---|
| lib/multh_listworker.hpp:255 | the grow branch appends the whole `add_list`, including the additions the replace loop already placed | main [10], del [10], add [20, 30]: the list becomes [20, 20, 30] and 20's slot index points at position 1 | append only `add_list[replace..]` | high, not executed | ListMerge.GrowAsWrittenDuplicates | ListMerge.MergeKeepsSlotInvariant |
| lib/multh_listworker.hpp:264-269 | the shrink branch erases the last positions of `main_list`, whatever they hold | main [10, 20, 30], del [10]: the list becomes [10, 20]; 10 stays listed with an unset slot index, and 30 is dropped but keeps slot index 2 | swap-remove each surplus removal, moving the last element into its slot | high, not executed | ListMerge.ShrinkAsWrittenLosesTail | MulthListworker.Listworker.Addel |
| lib/multh_map.hpp:64 | grows only when `size == capacity` after the increment | a default `Bucket()` (capacity 0) then `add(k, p)`: size 1 differs from capacity 0, so `data[0]` is written in a null array | grow when `size >= capacity` | high, not executed | MulthMap.DefaultBucketFirstAdd | MulthMap.Bucket.Add |
| lib/multh_map.hpp:90-93 | the scan compares the key before testing for the end, so it reads the spare position `data[size]` | Bucket(1), add(1,100), add(2,200), del(2), then get(2) returns 200 and a second del(2) loses key 1 | test `it == end` before comparing | high, not executed | MulthMap.StaleKeyFound | MulthMap.Bucket.Get |
