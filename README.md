# Linked containers and sorts, verified in Dafny

This project models the core of a C++ data-structures course library. It has three parts.

- `ics::LinkedQueue<T>` (`linked_queue.dfy`, module `LinkedQueues`) is a FIFO queue.
  - It is kept as a singly-linked chain of nodes with `front`, a non-owning `rear`, a cached `used` count and a `mod_count` generation counter.
  - Its external iterator fails fast when the generation has moved. It can erase the value under the cursor.
- `ics::LinkedSet<T>` (`linked_set.dfy`, module `LinkedSets`) is a set of distinct values.
  - It is kept as an unordered chain that ends in a `trailer` sentinel node.
  - `erase_at` erases node `p` by copying its successor into it. When that successor was the trailer, `p` becomes the trailer.
  - It has the same fail-fast iterator protocol.
- The sorts of `q6solution.hpp` (`sorting.dfy`, module `Sorting`):
  - selection sort of a linked list;
  - selection sort of an array that counts the swaps that move something;
  - the `merge` step of merge sort;
  - radix sort through ten FIFO buckets, with `select_digit`.

Both containers are classes whose fields the methods update in place. The nodes are a shared `Node` class (`nodes.dfy`, module `ListNodes`). Each container carries two ghost fields:

- `Contents`: the values, front first.
- `Nodes`: the chain that holds them.

Each container has a `Valid()` invariant:

- the chain from `front` is exactly `Nodes`, with no node repeated;
- it holds `Contents`;
- `used == |Contents|`;
- for the queue, `rear` is the last node of a non-empty queue;
- for the set, the chain ends in `trailer` and no value occurs twice.

Every command states its new `Contents` and its effect on `mod_count`. Set commands are stated through value-level functions in `set_specs.dfy`: `Inserted`, `Removed`, `Retained` and the others. Those functions carry their own contracts about `Elems` (the set of values) and about the absence of duplicates.

Iterators carry a ghost position `pos` into `Contents`. While their generation is current, `current` is the node at `pos`.

Each sort works on an `array` (the list sort on the chain) and is proved against a functional specification:

- `SelectionSpecs.SelectionSorted`;
- `MergeSpecs.Merged`;
- `RadixSpecs.RadixSorted`.

Lemmas about those specifications prove the properties: the result is ascending, it is a permutation of the input (through occurrence counts, `occurrences.dfy`), merge is stable, each radix pass is stable, and the swap count is bounded.

Errors the source throws (`EmptyError`, `ConcurrentModificationError`, `CannotEraseError`, `IteratorPositionIllegal`, `ComparingDifferentIteratorsError`) are results: a `Result` or `Outcome` value from `errors.dfy`.

The model keeps these behaviours of the code, which a reader might not expect:

- `dequeue` never resets `rear`. A queue that `dequeue` empties keeps a `rear` naming the removed node, so `Valid()` says nothing about `rear` in an empty queue. `Dequeue` states this case.
- Bulk commands (`enqueue_all`, `insert_all`, `erase_all`, `retain_all`) and the queue copy constructor bump `mod_count` once per element added or removed, not once per call. This is because they are written as loops over `enqueue`, `insert`, `erase` or `erase_at`.
- Iterator `==` and `!=` check only the generation of the left-hand iterator, not that of `rhs`.
- The set copy constructor does not go through `insert`. It pushes each value in front, so the copy holds the values in reverse order. It copies `used` and starts `mod_count` at 0.
- The queue's `operator=` does not point `rear` at the new last node (see Findings).

## Model

| member | source | states |
|---|---|---|
| ListNodes.Node.constructor | linked_queue.hpp:100 | a new node holds the given value and link |
| ListNodes.SetValue | linked_queue.hpp:263-264 | overwriting node k's value changes the k-th value of the chain and nothing else |
| ListNodes.LinkAfter | linked_queue.hpp:209 | a node linked after node k - 1 becomes the k-th node and value of the chain |
| ListNodes.LinkFrontHolds | linked_set.hpp:157 | a node linking to the head of a chain heads a chain holding its value first |
| ListNodes.Bypass | linked_queue.hpp:387 | relinking node k - 1 to node j removes nodes k .. j - 1 and their values from the chain |
| ListNodes.DropPrefix | linked_queue.hpp:223 | advancing the head j nodes leaves the chain of the remaining nodes and values |
| ListNodes.AbsorbNext | linked_set.hpp:432 | `*p = *(p->next)` removes the value at p from the chain, and node k + 1 with it |
| LinkedQueues.LinkedQueue.constructor | linked_queue.hpp:107-110 | an empty, valid queue with front and rear null and generation 0 |
| LinkedQueues.LinkedQueue.Copy | linked_queue.hpp:138-141 | the copy holds the same values in the same order, in new nodes; the generation is one per value enqueued |
| LinkedQueues.LinkedQueue.FromSeq | linked_queue.hpp:145-156 | the queue holds the given values in order, on nodes all newly allocated; one generation step per value |
| LinkedQueues.LinkedQueue.Size | linked_queue.hpp:170-172 | the cached count is the number of values |
| LinkedQueues.LinkedQueue.IsEmpty | linked_queue.hpp:164-166 | true exactly when the queue holds no value |
| LinkedQueues.LinkedQueue.Peek | linked_queue.hpp:176-181 | EmptyError on an empty queue; otherwise the front value |
| LinkedQueues.LinkedQueue.Enqueue | linked_queue.hpp:205-213 | the value is appended at the back in a new node that becomes rear; returns 1; one generation step; the queue stays valid |
| LinkedQueues.LinkedQueue.Dequeue | linked_queue.hpp:217-228 | EmptyError and no change on an empty queue; otherwise returns the front value (FIFO), drops it and steps the generation; rear is left alone, so emptying the queue leaves it non-null |
| LinkedQueues.LinkedQueue.Clear | linked_queue.hpp:232-237 | the queue is empty with front and rear null; one generation step |
| LinkedQueues.LinkedQueue.EnqueueAll | linked_queue.hpp:242-248 | the values are appended in order; returns their number; one generation step per value |
| LinkedQueues.LinkedQueue.CopyStep | linked_queue.hpp:262-266 | one pass of operator='s loop: value v is written into node k, or into a new node appended there when the chain has no node k |
| LinkedQueues.LinkedQueue.AppendValue | linked_queue.hpp:265-266 | `*to = new LN(v)` at the end of the chain appends v in a new node |
| LinkedQueues.LinkedQueue.CopyNext | linked_queue.hpp:262-266 | the loop invariant of operator= (the first k values are the source's, the chain only grows) holds for k + 1 after one pass |
| LinkedQueues.LinkedQueue.CopyValues | linked_queue.hpp:261-266 | after the loop, the chain begins with every value of rhs in order, and last is its final copied node |
| LinkedQueues.LinkedQueue.TrimAfter | linked_queue.hpp:271-273 | the chain is cut after its first k nodes; surplus is the first cut node or null |
| LinkedQueues.LinkedQueue.CopyChainFrom | linked_queue.hpp:261-273 | the chain holds exactly the values of rhs, reusing the old nodes in place and allocating the rest anew, so it shares no node with rhs; surplus is the first old node not reused |
| LinkedQueues.LinkedQueue.Assign | linked_queue.hpp:256-276 | corrected operator=: self-assignment changes neither the queue's fields nor any of its nodes, so live iterators stay valid; otherwise this holds rhs's values in order, the queue is valid with rear on the last node, and one generation step; every node is an old node of this queue or newly allocated, and none is shared with rhs |
| LinkedQueues.LinkedQueue.AssignOther | linked_queue.hpp:260-276 | operator= for an rhs other than this: this holds rhs's values in order, the queue is valid with rear on the last node, one generation step; every node is an old node of this queue or newly allocated, and none is shared with rhs |
| LinkedQueues.AssignedQueuesIndependent | linked_queue.hpp:256-276 | after `q = source`, enqueuing to source and then to q gives each exactly its own old values plus its own new one: the two queues are independent |
| LinkedQueues.LinkedQueue.AssignAsWritten | linked_queue.hpp:256-276 | operator= as written: the chain holds rhs's values, but rear is null or the first deleted surplus node, so a non-empty result breaks the rear invariant |
| LinkedQueues.AssignLeavesRearNull | linked_queue.hpp:268 | assigning a one-value queue to an empty one leaves a non-empty queue whose rear is null |
| LinkedQueues.LinkedQueue.Equal | linked_queue.hpp:281-294 | true exactly when both queues hold the same values in the same order |
| LinkedQueues.LinkedQueue.NotEqual | linked_queue.hpp:297-299 | true exactly when the value sequences differ |
| LinkedQueues.LinkedQueue.UnlinkAt | linked_queue.hpp:378-392 | the queue's side of iterator erase: value k leaves the queue, rear is repaired, the queue stays valid and keeps no node it did not have, the node now at k is returned |
| LinkedQueues.LinkedQueue.UnlinkFront | linked_queue.hpp:378-385 | erasing the front moves front to its successor and clears rear when it was the only node |
| LinkedQueues.LinkedQueue.UnlinkAfter | linked_queue.hpp:378-390 | erasing behind the front links prev past the node and moves rear to prev when the node was rear |
| LinkedQueues.LinkedQueue.Begin | linked_queue.hpp:322-324 | a fresh, current iterator at position 0 on front |
| LinkedQueues.LinkedQueue.End | linked_queue.hpp:327-329 | a fresh, current iterator past the last value (null) |
| LinkedQueues.Iterator.constructor | linked_queue.hpp:356-358 | the iterator records the queue's generation, starts erasable, prev null |
| LinkedQueues.Iterator.Erase | linked_queue.hpp:367-395 | ConcurrentModificationError when stale, CannotEraseError after an erase or at the end, each with no change; otherwise returns the value at the cursor, removes exactly it, steps the generation once and adopts it, and leaves the cursor unable to erase at the same position (now the successor); the queue keeps no node it did not have |
| LinkedQueues.EraseFirstTwo | linked_queue.hpp:367-421 | erase, prefix ++ and erase again through one iterator yield the first and second values and leave the queue holding the rest, in order |
| LinkedQueues.Iterator.EraseCurrent | linked_queue.hpp:375-394 | the erase itself: the value at pos leaves the queue, which keeps no node it did not have, and the iterator stays current on the successor |
| LinkedQueues.Iterator.Increment | linked_queue.hpp:407-422 | ConcurrentModificationError when stale; no move at the end; after an erase only re-enables erase; otherwise moves to the next position with prev on the old node |
| LinkedQueues.Iterator.Deref | linked_queue.hpp:473-486 | ConcurrentModificationError when stale; IteratorPositionIllegal after an erase or at the end; otherwise the value at the cursor |
| LinkedQueues.Iterator.Equals | linked_queue.hpp:445-456 | ConcurrentModificationError when this side is stale; ComparingDifferentIteratorsError across queues; otherwise true exactly when both cursors are at the same position |
| LinkedQueues.Iterator.NotEquals | linked_queue.hpp:459-470 | the same checks; true exactly when the positions differ |
| LinkedSets.LinkedSet.constructor | linked_set.hpp:122-125 | an empty, valid set whose front and trailer are one new node; generation 0 |
| LinkedSets.LinkedSet.Copy | linked_set.hpp:155-160 | the copy holds the same elements, in reverse chain order, in new nodes; generation 0 |
| LinkedSets.LinkedSet.FromSeq | linked_set.hpp:164-175 | the set holds exactly the values given, each once; one generation step per value added |
| LinkedSets.LinkedSet.Size | linked_set.hpp:189 | the cached count is the number of distinct elements |
| LinkedSets.LinkedSet.IsEmpty | linked_set.hpp:183 | true exactly when the set has no element |
| LinkedSets.LinkedSet.PushFront | linked_set.hpp:157 | `front = new LN(x, front)` puts x in front in a new node, trailer unchanged |
| LinkedSets.LinkedSet.Contains | linked_set.hpp:195-201 | true exactly when x is an element |
| LinkedSets.LinkedSet.ContainsAll | linked_set.hpp:222-229 | true exactly when every value given is an element |
| LinkedSets.LinkedSet.Insert | linked_set.hpp:237-245 | a present value changes nothing and returns 0; an absent one goes in front in a new node, returns 1 and steps the generation; no duplicates ever |
| LinkedSets.LinkedSet.EraseAt | linked_set.hpp:428-437 | the value at node k leaves the set and only the successor node leaves the chain; front is kept, returns 1, one generation step |
| LinkedSets.LinkedSet.AbsorbSuccessor | linked_set.hpp:429-432 | node k takes over its successor's value and link, becoming the trailer when the successor was the trailer |
| LinkedSets.LinkedSet.Erase | linked_set.hpp:249-255 | x is no longer an element; returns 1 and steps the generation when it was one; returns 0 when it was not, leaving the set's fields and every node untouched; no node is added |
| LinkedSets.LinkedSet.Clear | linked_set.hpp:259-263 | the set is empty, the trailer kept; one generation step |
| LinkedSets.LinkedSet.InsertAll | linked_set.hpp:268-274 | the elements become the old ones plus the values given; returns how many were absent; one generation step per value added; every node is old or new; when nothing was added the set's fields are untouched |
| LinkedSets.LinkedSet.EraseAll | linked_set.hpp:279-285 | the elements become the old ones minus the values given; returns how many were present; one generation step per value erased; the set keeps no node it did not have; when nothing was erased the set's fields and nodes are untouched |
| LinkedSets.LinkedSet.RetainAll | linked_set.hpp:290-301 | the elements become the old ones that are among the values given, in their order; returns how many left; one generation step per value erased; the set keeps no node it did not have; when nothing left, the chain and the values are the old ones |
| LinkedSets.LinkedSet.EraseMissing | linked_set.hpp:292-300 | the loop of retain_all keeps exactly the values that keep contains, in order; the count erased matches the generation steps; the set keeps no node it did not have, and when nothing was erased the chain and the values are the old ones |
| LinkedSets.LinkedSet.RetainingStart | linked_set.hpp:293 | the loop starts at the front with nothing visited, nothing erased and the chain as it was |
| LinkedSets.LinkedSet.RetainingDone | linked_set.hpp:293 | reaching the trailer means every value was visited, so the retained values are the final contents; with nothing erased the chain is the one the loop started from |
| LinkedSets.LinkedSet.RetainOne | linked_set.hpp:294-298 | one turn of retain_all's loop keeps its invariant: a value not in keep is erased where it stands, and a kept one is stepped over; it touches only nodes the loop started with |
| LinkedSets.LinkedSet.AssignStep | linked_set.hpp:315-319 | one pass of operator='s loop: v is written into node k, or into a new node linked before the trailer |
| LinkedSets.LinkedSet.AssignValues | linked_set.hpp:314-319 | after the loop, the chain begins with rhs's values in order; only new nodes join the chain |
| LinkedSets.LinkedSet.AssignTrim | linked_set.hpp:323-325 | the chain is cut after its first k values and relinked to the trailer, and keeps no node it did not have |
| LinkedSets.LinkedSet.Assign | linked_set.hpp:309-329 | self-assignment changes neither the set's fields nor any of its nodes, so live iterators stay valid; otherwise this holds rhs's values, stays valid, and steps its generation once; every node is an old node of this set or newly allocated, and none is shared with rhs |
| LinkedSets.AssignedSetsIndependent | linked_set.hpp:309-329 | after `s = source`, erasing from source and inserting into s leave source with its old values less the erased one and s with its old values plus the inserted one: the two sets are independent |
| LinkedSets.LinkedSet.EveryElementIn | linked_set.hpp:338-342 | the shared loop: true exactly when every element is in rhs |
| LinkedSets.LinkedSet.Equal | linked_set.hpp:333-344 | true exactly when both sets have the same elements |
| LinkedSets.LinkedSet.NotEqual | linked_set.hpp:347-349 | true exactly when the element sets differ |
| LinkedSets.LinkedSet.SubsetEq | linked_set.hpp:353-364 | true exactly when this set is a subset of rhs; with Equal, `A <= B` and `B <= A` together give `A == B` |
| LinkedSets.LinkedSet.Subset | linked_set.hpp:367-378 | true exactly when this set is a proper subset of rhs |
| LinkedSets.LinkedSet.SupersetEq | linked_set.hpp:381-383 | true exactly when rhs is a subset of this set |
| LinkedSets.LinkedSet.Superset | linked_set.hpp:387-389 | true exactly when rhs is a proper subset of this set |
| LinkedSets.LinkedSet.Begin | linked_set.hpp:412-414 | a fresh, current iterator at position 0 on front |
| LinkedSets.LinkedSet.End | linked_set.hpp:418-420 | a fresh, current iterator on the trailer |
| LinkedSets.Iterator.constructor | linked_set.hpp:459-461 | the iterator records the set's generation and starts erasable |
| LinkedSets.Iterator.Erase | linked_set.hpp:470-483 | ConcurrentModificationError when stale, CannotEraseError after an erase or at the trailer, each with no change; otherwise returns the value at the cursor, removes exactly it, adopts the new generation, and the cursor node now holds the successor; the set keeps no node it did not have |
| LinkedSets.EraseFirstTwo | linked_set.hpp:470-508 | erase, prefix ++ and erase again through one iterator yield the first and second values and leave the set holding the rest, in order |
| LinkedSets.Iterator.Increment | linked_set.hpp:495-508 | ConcurrentModificationError when stale; no move at the trailer; after an erase only re-enables erase; otherwise moves to the next position |
| LinkedSets.Iterator.Deref | linked_set.hpp:559-569 | ConcurrentModificationError when stale; IteratorPositionIllegal after an erase or at the trailer; otherwise the value at the cursor |
| LinkedSets.Iterator.Equals | linked_set.hpp:531-542 | ConcurrentModificationError when this side is stale; ComparingDifferentIteratorsError across sets; otherwise true exactly when the positions agree |
| LinkedSets.Iterator.NotEquals | linked_set.hpp:545-556 | the same checks; true exactly when the positions differ |
| SetSpecs.Inserted | linked_set.hpp:237-245 | insert adds x to the elements, keeps them distinct, and grows the size only when x was absent |
| SetSpecs.InsertedAll | linked_set.hpp:268-274 | insert_all adds every value given to the elements and keeps them distinct |
| SetSpecs.Removed | linked_set.hpp:249-255 | erase of an absent value changes nothing; of a present one, removes it and shrinks the size by one |
| SetSpecs.RemovedAll | linked_set.hpp:279-285 | erase_all removes exactly the values given from the elements |
| SetSpecs.Retained | linked_set.hpp:290-301 | retain_all leaves the intersection with the values given, distinct |
| SetSpecs.RetainedStep | linked_set.hpp:293-298 | visiting one more value either keeps it in place or drops it from where it stands |
| SetSpecs.Reverse | linked_set.hpp:155-160 | the copy constructor's order: the values, last first |
| SetSpecs.ReverseKeepsValues | linked_set.hpp:155-160 | the reversed copy has the same elements and stays duplicate-free |
| SetSpecs.RemovedAt | linked_set.hpp:249-255 | when x first occurs at index i, erasing x removes exactly index i |
| SetSpecs.RemoveAtKeepsNoDups | linked_set.hpp:428-437 | removing one value keeps the set duplicate-free |
| SetSpecs.DistinctCard | linked_set.hpp:189 | for a duplicate-free chain, the count equals the number of distinct elements |
| SetSpecs.SubsetCard | linked_set.hpp:333-344 | a subset of equal size is the whole set, which makes ==, <= and < sound |
| SetSpecs.NoDupsIndices | linked_set.hpp:237-245 | no value occurring twice is the same as any two positions holding different values |
| SetSpecs.Cons | linked_set.hpp:237-245 | putting x in front keeps the values distinct exactly when x was absent |
| Sorting.SmallestFrom | q6solution.hpp:23-26 | the inner loop finds the node of the first minimum from c on |
| Sorting.ListPlaceMin | q6solution.hpp:23-27 | one outer step leaves the chain on course to SelectionSorted |
| Sorting.ListSelectionSort | q6solution.hpp:21-29 | the chain keeps its nodes and ends up holding SelectionSorted of its values, in ascending order |
| Sorting.HoldsSorted | q6solution.hpp:21-29 | a chain holding an ascending sequence is ascending node by node |
| Sorting.IndexOfMin | q6solution.hpp:91-94 | the index of the first minimum of a[k..] |
| Sorting.SwapAt | q6solution.hpp:97 | std::swap exchanges a[i] and a[j] and nothing else |
| Sorting.PlaceMin | q6solution.hpp:91-97 | one outer step keeps the array on course to SelectionSorted and accounts for its swap |
| Sorting.SelectionSort | q6solution.hpp:88-100 | the array becomes ascending and a permutation of its input; every outer step keeps the prefix sorted and no larger than the suffix (loop invariant); the count is the number of steps whose minimum was not in place, at most length - 1 |
| Sorting.MergeNext | q6solution.hpp:45-52 | one round writes the next value of the merge, left winning ties, and advances exactly one run |
| Sorting.MergeIntoTemp | q6solution.hpp:40-53 | temp holds the merge of the two runs |
| Sorting.CopyBack | q6solution.hpp:54-55 | temp replaces a from left_low on; the rest of a is unchanged |
| Sorting.Merge | q6solution.hpp:38-56 | the range becomes the merge of its runs, the array a permutation of itself, sorted when the runs were, and stable (left values first among equal keys) |
| Sorting.ArrangedPermutes | q6solution.hpp:38-56 | merging a stretch of the array keeps the values of the whole array |
| Sorting.Distribute | q6solution.hpp:71-72 | every value is enqueued, in order, into the bucket its digit names |
| Sorting.Drain | q6solution.hpp:75-76 | a bucket is dequeued in FIFO order into a from i on, and left empty |
| Sorting.Gather | q6solution.hpp:73-76 | buckets 0 to 9 are dequeued in turn from the front of a, leaving every bucket empty |
| Sorting.RadixSort | q6solution.hpp:68-78 | for nonnegative input, the array becomes a permutation of its input, ordered by value below 1000000, hence sorted when no value reaches 1000000 |
| SelectionSpecs.ArgMin | q6solution.hpp:91-94 | the inner loop's index is within range |
| SelectionSpecs.ArgMinIsFirstMin | q6solution.hpp:91-94 | that index holds a minimum, and every value before it is strictly larger (the comparison is `<`) |
| SelectionSpecs.ArgMinExtend | q6solution.hpp:92-94 | the inner loop moves the minimum only to a strictly smaller value |
| SelectionSpecs.SelectionStep | q6solution.hpp:90-97 | swapping the suffix minimum into place k leaves the same sort to do on the rest |
| SelectionSpecs.SelectionStepSwaps | q6solution.hpp:95-97 | that step costs a counted swap exactly when the minimum is not already at k |
| SelectionSpecs.SelectionPrefix | q6solution.hpp:90-98 | after each outer step the placed prefix is sorted and no value of it exceeds any value still to be sorted |
| SelectionSpecs.SelectionSortedPermutes | q6solution.hpp:88-100 | selection sort leaves a permutation of its input |
| SelectionSpecs.SelectionSortedSorts | q6solution.hpp:88-100 | selection sort leaves its input in ascending order |
| SelectionSpecs.SelectionSorted | q6solution.hpp:88-100 | the order selection_sort leaves: the first minimum of what is left swapped to the front, then the rest sorted alike; as many values as the input |
| SelectionSpecs.SwapsNeeded | q6solution.hpp:89-97 | the count selection_sort returns: one per outer step whose first minimum is not already in place, so at most one per value |
| SelectionSpecs.SelectionSortedCount | q6solution.hpp:88-100 | each value occurs as often after the sort as before |
| SelectionSpecs.SwapCount | q6solution.hpp:97 | a swap keeps every occurrence count |
| SelectionSpecs.SwapsNeededBound | q6solution.hpp:95-96 | at most length - 1 steps need a swap |
| MergeSpecs.Merged | q6solution.hpp:44-53 | the merge has the length of both runs together |
| MergeSpecs.MergedFront | q6solution.hpp:45-52 | the next value is the left one unless the left run is used up or its key is larger |
| MergeSpecs.MergedAdvance | q6solution.hpp:45-52 | the same step stated on slices of the array |
| MergeSpecs.MergedCount | q6solution.hpp:44-53 | each value occurs in the merge as often as in both runs together |
| MergeSpecs.MergedPermutes | q6solution.hpp:44-53 | the merge is a permutation of the two runs |
| MergeSpecs.MergedHead | q6solution.hpp:44-53 | the merge begins with the head of one of the runs |
| MergeSpecs.MergedSorted | q6solution.hpp:44-53 | merging two sorted runs gives a sorted run |
| MergeSpecs.MergedStable | q6solution.hpp:49 | with `<=`, among equal keys the left run's values come first and each run keeps its order |
| RadixSpecs.TruncDiv | q6solution.hpp:64 | C++ `/` agrees with floor division on nonnegative operands and truncates toward zero on negative ones |
| RadixSpecs.TruncRem | q6solution.hpp:64 | C++ `%` is below the divisor in size and takes the dividend's sign, and agrees with the mathematical remainder for a nonnegative dividend |
| RadixSpecs.SelectDigit | q6solution.hpp:63-64 | the digit is in -9..9; for a nonnegative number it is in 0..9 and equals number / place % 10; for a negative one it is not positive |
| RadixSpecs.DigitAt | q6solution.hpp:63-64 | the digit k places up, taken one C++ division by 10 at a time; it lies in -9..9 |
| RadixSpecs.SelectDigitAt | q6solution.hpp:63-64 | select_digit at place 10^k is the k-th decimal digit |
| RadixSpecs.DigitRange | q6solution.hpp:72 | every digit of a nonnegative value is a bucket index |
| RadixSpecs.PlacesVisited | q6solution.hpp:70 | the outer loop visits exactly the places 10^0 to 10^5 |
| RadixSpecs.Bucket | q6solution.hpp:71-72 | what bucket d holds after the distributing loop: the values whose digit is d, in array order; never more values than the array |
| RadixSpecs.Gathered | q6solution.hpp:73-76 | the front of the array once buckets 0..b - 1 are emptied into it in order; exactly as many values as have a key in 0..b - 1 |
| RadixSpecs.KeyedLength | q6solution.hpp:74-76 | splitting the range of bucket indices in two splits the gathered values in two |
| RadixSpecs.Pass | q6solution.hpp:71-76 | one turn of the outer loop at place 10^k: distribute by that digit, then gather; never more values than it was given |
| RadixSpecs.GatheredCount | q6solution.hpp:73-76 | the gathered buckets hold exactly the values whose key is a bucket index |
| RadixSpecs.GatheredStable | q6solution.hpp:73-76 | gathering keeps each bucket's values in their order |
| RadixSpecs.GatheredSorted | q6solution.hpp:73-76 | gathering a run sorted on the lower digits, bucket by bucket, gives one sorted on one more digit |
| RadixSpecs.PassPermutes | q6solution.hpp:71-76 | a pass over nonnegative values loses and adds no value |
| RadixSpecs.PassLength | q6solution.hpp:71-76 | a pass refills exactly the array |
| RadixSpecs.PassStable | q6solution.hpp:71-76 | a pass keeps the values with equal digits in their order |
| RadixSpecs.PassSorted | q6solution.hpp:70-77 | a pass at place 10^k takes a run ordered below 10^k to one ordered below 10^(k + 1) |
| RadixSpecs.RadixPasses | q6solution.hpp:70-77 | the array after the first n turns of the outer loop, at places 1 to 10^(n - 1); never more values than the input |
| RadixSpecs.RadixSorted | q6solution.hpp:68-78 | the array radix_sort leaves: six passes, at places 1 to 100000; never more values than the input |
| RadixSpecs.RadixPassesPermutes | q6solution.hpp:70-77 | any number of passes keeps every occurrence count |
| RadixSpecs.RadixPassesSorted | q6solution.hpp:70-77 | after n passes the array is ordered below 10^n |
| RadixSpecs.RadixPassesMultiset | q6solution.hpp:70-77 | after n passes the array is a permutation of its input |
| RadixSpecs.RadixSortedSorts | q6solution.hpp:68-78 | on values in 0..999999 radix_sort gives an ascending permutation of its input |

## Left out

- Memory management: destructors, `delete_list`'s node-by-node release and every `delete`. The model works on a collected heap, so released nodes are simply unreachable. A node a set's `erase_at` releases is not in the chain afterwards (`EraseAt` states this), but any outside alias to it stays usable in the model, where in C++ it dangles.
- The postfix `operator ++(int)` of both iterators. It checks and moves exactly as the prefix one does (`Increment`), and its only difference is returning a copy of the old iterator.
- `operator->` of both iterators. It makes the same checks as `operator*` (`Deref`) and yields a pointer instead of a reference.
- The `dynamic_cast` / `IteratorTypeError` check in iterator `==` and `!=`. The type system makes it unreachable.
- `str()` and `operator<<` of the containers and iterators: text rendering only.
- LinkedQueues.LinkedQueue.Peek: returns the front value, not a `T&`, so writing through the reference is not modelled.
- LinkedQueues.Iterator.Deref: returns the value, not a `T&`; the same holds for LinkedSets.Iterator.Deref.
- `used` and `mod_count` are unbounded integers. The 32-bit `int` overflow of the source is not modelled.
- Iterable and initializer-list arguments (`enqueue_all`, `insert_all`, `erase_all`, `retain_all`, the constructors) are sequences.
- The LinkedSet trailer's value is a default value of `T`, so the set's element type must have one (`T(0)`).
- `test_swapping` (q6solution.hpp:109-122): it uses a random shuffle and floating-point division, and is not part of this model.
- The sorts are specialised to `int` except `merge`, which is generic with an integer key (`key: T -> int`) so that stability is meaningful. The array selection sort and radix sort work on `array<int>`.
- `ics::ArrayQueue` is not part of this model. The radix buckets are `array<seq<int>>`, each slot a FIFO sequence.
- `merge`'s `temp` is a variable-length stack array in C++; here it is a fresh heap array.
- Sorting.RadixSort: requires nonnegative values. In C++ a negative value gives a negative digit and indexes outside `buckets`, which is undefined behaviour. Sortedness is claimed only when every value is at most 999999, because the six passes look at six digits; in general the result is ordered by value modulo 1000000.
- Sorting.SelectionSort and Sorting.RadixSort: the C++ `length` argument (q6solution.hpp:68, q6solution.hpp:88) is `a.Length`, so both sort the whole array. A `length` shorter than the array, which would sort only a prefix, is not modelled.
- The file q1solution.hpp is not part of this model.
- LinkedSets.LinkedSet.RetainAll and LinkedSets.LinkedSet.EraseMissing: when nothing is erased they state that the chain and the values are the old ones, which with `Valid()` fixes every field and link an iterator depends on. They do not state that no field was written at all.

## Findings

| source | as written | input that shows it | evidently intended | confidence | as-written member | corrected member |
|---|---|---|---|---|---|---|
| linked_queue.hpp:268 | `operator=` sets `rear = *to` after the copy loop. That is the link field after the last copied node: null, or the first surplus node, which is deleted just after. | Assign a queue holding one value to an empty queue. The result holds one value with `rear == nullptr`, and the next `enqueue` dereferences null. | `rear` names the last copied node, or is null when `rhs` is empty. | not executed | LinkedQueues.LinkedQueue.AssignAsWritten, LinkedQueues.AssignLeavesRearNull | LinkedQueues.LinkedQueue.Assign |
