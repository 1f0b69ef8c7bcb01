# ADP_2024 in Dafny

A verified model of ADP_2024, a C# course repository of algorithms and data
structures:
- sorting and searching: selection sort, insertion sort, two copies of a median-of-three Hoare quicksort, two copies of a (parallel) merge sort, and integer binary search;
- linear containers: two dynamic arrays, a doubly linked list, a linked deque, an array stack, and a circular priority queue sorted on insert;
- an open-addressing hash table with linear probing and tombstones;
- an AVL tree;
- a weighted directed graph (`Graaf`) with four bulk builders, and Dijkstra's algorithm with path reconstruction over it;
- the `Pizza` comparator.

Each C# file becomes one Dafny module in a file of its own.
- Classes whose fields the C# code updates in place stay classes. The fields and buffers are Dafny fields and `array`s. Linked nodes are heap objects with a ghost list of nodes.
- Each method is proved against a specification function over the contents, for example the merge of two runs or the insertion of a key.
- The properties the code promises are lemmas about those functions: sortedness, permutation, stability, round trips, and the invariants an operation keeps.
- Recursive code is modelled on datatypes and functions. The AVL tree's Insert and Remove return new subtree roots, so the tree is a datatype and the class only holds its root.

C# exceptions are the `Outcome`/`Result` values of module `Wrappers`. A member that throws in C# returns a failure naming the exception, and the model states when it does. Shared code is modelled once:
- `SortingAlgorithms/QuickSort.cs` is a line-for-line copy of `QuickSort/QuickSortAlgorithm.cs`, and its members run the latter's model.
- In both merge sort files, `MergeSort` and `Merge` are the same code (lines 45-77 of the one, 48-85 of the other). Module `Merging` models them; the line numbers in its rows are those of `ParallelMergeSort/ParallelMergeSortAlgorithm.cs`.
- The two dynamic arrays differ only in how elements are matched (`CompareTo` == 0 or an equality comparer). They are one class with one named constructor per file.

Element types are generic where the source is generic. Comparisons the model cannot see are parameters. Each is a function supplied by the caller (see "Left out"):
- `CompareTo` is a key function for the sorts, or a `compare` function elsewhere;
- `GetHashCode` is the function `hashCode`;
- `string.CompareTo` is the function `compareNames`.

## Model

| member | source | states |
|---|---|---|
| Models.CompareTo | ADP_2024/Models/Pizza.cs:8-24 | the answer is -1, 0 or 1; a null argument gives 1; 0 exactly when the other pizza has the same name and the same number of slices; with equal names the sign orders by slices; with different names the answer is 1 exactly when the name comparison is positive |
| Models.CompareToAntiSymmetric | ADP_2024/Models/Pizza.cs:12-23 | for a name comparison that is antisymmetric in sign and tells different names apart, comparing p with q is the negation of comparing q with p |
| BinarySearchAlgorithm.BinarySearch | ADP_2024/BinarySearch/BinarySearchAlgorithm.cs:5-34 | the answer is -1 or an index holding the target; for an ascending array, -1 exactly when the target is absent |
| BinarySearchAlgorithm.ProbeSound | ADP_2024/BinarySearch/BinarySearchAlgorithm.cs:10-29 | whatever the order of the array, the loop answers -1 or an index inside [left, right] that holds the target |
| BinarySearchAlgorithm.ProbeComplete | ADP_2024/BinarySearch/BinarySearchAlgorithm.cs:10-29 | on an ascending array, a target present in [left, right] is found |
| BinarySearchAlgorithm.ProbeUnfold | ADP_2024/BinarySearch/BinarySearchAlgorithm.cs:12-28 | the midpoint lies in the range, and the three branches answer the midpoint, go on right of it, or go on left of it |
| BinarySearchAlgorithm.AscendingBelow | ADP_2024/BinarySearch/BinarySearchAlgorithm.cs:21-24 | discarding the left half is safe: in an ascending array every cell up to a key below the target is below it |
| BinarySearchAlgorithm.AscendingAbove | ADP_2024/BinarySearch/BinarySearchAlgorithm.cs:25-28 | discarding the right half is safe: in an ascending array every cell from a key above the target on is above it |
| BinarySearchAlgorithm.DescendingPairMisses | ADP_2024/BinarySearch/BinarySearchAlgorithm.cs:5-34 | the search needs ascending input: on [2, 1] it misses the 1 that is there |
| SelectionSortAlgorithm.Swap | ADP_2024/SelectionSort/SelectionSortAlgorithm.cs:27-34 | the two cells trade values, nothing else changes, and the multiset of the array is kept |
| SelectionSortAlgorithm.SelectionSort | ADP_2024/SelectionSort/SelectionSortAlgorithm.cs:5-25 | the array ends sorted by key and a permutation of what it held; arrays of length 0 or 1 are left as they are |
| InsertionSortAlgorithm.InsertionSort | ADP_2024/InsertionSort/InsertionSortAlgorithm.cs:5-22 | the array ends as the left-to-right insertion of its elements: sorted by key, a permutation of the input, and stable (equal keys keep their order) |
| InsertionSortAlgorithm.InsertAtLoop | ADP_2024/InsertionSort/InsertionSortAlgorithm.cs:7-21 | one outer step: if the first i cells are the insertion-sorted first i inputs, afterwards the first i + 1 cells are, and the rest is untouched |
| InsertionSortAlgorithm.InsertAt | ADP_2024/InsertionSort/InsertionSortAlgorithm.cs:9-20 | the inner loop puts cell i into the prefix before it, behind every element whose key is not larger, and leaves the cells after i alone |
| InsertionSortAlgorithm.InsertPermutes | ADP_2024/InsertionSort/InsertionSortAlgorithm.cs:13-20 | inserting adds exactly the inserted element |
| InsertionSortAlgorithm.InsertSorted | ADP_2024/InsertionSort/InsertionSortAlgorithm.cs:13-20 | inserting into a sorted prefix gives a sorted prefix |
| InsertionSortAlgorithm.InsertStable | ADP_2024/InsertionSort/InsertionSortAlgorithm.cs:13 | the strict `<` makes insertion stable: the inserted element comes after the earlier elements with its key |
| InsertionSortAlgorithm.InsertPasses | ADP_2024/InsertionSort/InsertionSortAlgorithm.cs:13-18 | while the key of the element being inserted is smaller, it moves past cell j - 1 |
| InsertionSortAlgorithm.InsertStops | ADP_2024/InsertionSort/InsertionSortAlgorithm.cs:13-20 | when the loop stops, the element lands right behind the cells before j |
| InsertionSortAlgorithm.InsertionSortedStep | ADP_2024/InsertionSort/InsertionSortAlgorithm.cs:7-21 | one more outer iteration inserts one more input element into the sorted prefix |
| InsertionSortAlgorithm.InsertionSortedCorrect | ADP_2024/InsertionSort/InsertionSortAlgorithm.cs:5-22 | insertion sort yields a sorted, stable permutation of its input |
| InsertionSortAlgorithm.InsertionSortedOfSorted | ADP_2024/InsertionSort/InsertionSortAlgorithm.cs:5-22 | an already sorted array comes back unchanged |
| QuickSortAlgorithm.Quicksort | ADP_2024/QuickSort/QuickSortAlgorithm.cs:5-34 | on a range with left < right, the range ends sorted by key and is a rearrangement of itself; nothing outside it changes; the whole array's multiset is kept; with left >= right nothing changes |
| QuickSortAlgorithm.Partition | ADP_2024/QuickSort/QuickSortAlgorithm.cs:10-28 | the partition loop stops with j < i; every key in [left, i) is at most the pivot's and every key in (j, right] at least; the range is only rearranged |
| QuickSortAlgorithm.ScanRight | ADP_2024/QuickSort/QuickSortAlgorithm.cs:18-19 | the scan for i stops at the first key not below the pivot, and at the latest at a known sentinel, so it never runs past the range |
| QuickSortAlgorithm.ScanLeft | ADP_2024/QuickSort/QuickSortAlgorithm.cs:20-21 | the scan for j stops at the first key not above the pivot, and at the latest at a known sentinel |
| QuickSortAlgorithm.MedianOfThree | ADP_2024/QuickSort/QuickSortAlgorithm.cs:36-49 | the pivot is one of the three sampled elements; with three different keys it is strictly above one and strictly below another, that is, the median |
| QuickSortAlgorithm.MedianOfThreeWithTie | ADP_2024/QuickSort/QuickSortAlgorithm.cs:43-48 | with a tie the exclusive-or tests both fail and the third element is chosen: for keys 1, 1, 2 the pivot is 2, not the median 1 |
| QuickSortAlgorithm.Swap | ADP_2024/QuickSort/QuickSortAlgorithm.cs:51-56 | the two cells trade values and nothing else changes |
| SortingAlgorithms.QuickSort.QuicksortAlgorithm | ADP_2024/SortingAlgorithms/QuickSort.cs:5-38 | the same guarantees as QuickSortAlgorithm.Quicksort, which this line-for-line copy runs |
| SortingAlgorithms.QuickSort.MedianOfThree | ADP_2024/SortingAlgorithms/QuickSort.cs:40-53 | the pivot is one of the three cells; with three different keys it is strictly above one and strictly below another, that is, the median |
| SortingAlgorithms.QuickSort.Swap | ADP_2024/SortingAlgorithms/QuickSort.cs:55-60 | the two cells trade values and nothing else changes |
| Merging.MergeSort | ADP_2024/ParallelMergeSort/ParallelMergeSortAlgorithm.cs:45-54 | on a range with left <= right the array becomes the input with that range replaced by its merge-sorted contents; nothing outside the range changes; otherwise nothing changes |
| Merging.Merge | ADP_2024/ParallelMergeSort/ParallelMergeSortAlgorithm.cs:56-77 | the range [left, right] is replaced by the merge of its two runs, the rest of the array is kept, and `temp` changes only inside the range, where it ends equal to the array |
| Merging.MergeIntoTemp | ADP_2024/ParallelMergeSort/ParallelMergeSortAlgorithm.cs:58-73 | the three merge loops write the merge of the two runs into temp[left..right] and no other cell of temp |
| Merging.MergeHeads | ADP_2024/ParallelMergeSort/ParallelMergeSortAlgorithm.cs:62-68 | the first loop ends with one run used up, having written the matching prefix of the merge |
| Merging.TakeHead | ADP_2024/ParallelMergeSort/ParallelMergeSortAlgorithm.cs:64-67 | one round of the first loop writes the next element of the merge: the left head when its key is not larger (the `<= 0`), the right head otherwise |
| Merging.CopyLeftRest | ADP_2024/ParallelMergeSort/ParallelMergeSortAlgorithm.cs:70-71 | the second loop copies what is left of the left run, completing that part of the merge |
| Merging.CopyRightRest | ADP_2024/ParallelMergeSort/ParallelMergeSortAlgorithm.cs:72-73 | the third loop copies what is left of the right run, completing the merge |
| Merging.MergedLength | ADP_2024/ParallelMergeSort/ParallelMergeSortAlgorithm.cs:56-77 | merging keeps the total length |
| Merging.MergedPermutes | ADP_2024/ParallelMergeSort/ParallelMergeSortAlgorithm.cs:56-77 | merging neither loses nor invents an element: the multiset of the result is the union of the runs' |
| Merging.MergedSorted | ADP_2024/ParallelMergeSort/ParallelMergeSortAlgorithm.cs:56-77 | two sorted runs merge into a sorted run |
| Merging.MergedStable | ADP_2024/ParallelMergeSort/ParallelMergeSortAlgorithm.cs:64 | taking the left head on a tie makes merging stable: for every key, the left run's elements with that key come before the right run's |
| Merging.MergedOfOrdered | ADP_2024/ParallelMergeSort/ParallelMergeSortAlgorithm.cs:56-77 | a left run entirely at or below the right run merges into the plain concatenation |
| Merging.MergeSortedCorrect | ADP_2024/ParallelMergeSort/ParallelMergeSortAlgorithm.cs:45-54 | merge sort yields a sorted, stable permutation of the range |
| Merging.MergeSortedLength | ADP_2024/ParallelMergeSort/ParallelMergeSortAlgorithm.cs:45-54 | merge sort keeps the length of the range |
| Merging.MergeSortedOfSorted | ADP_2024/ParallelMergeSort/ParallelMergeSortAlgorithm.cs:45-54 | a sorted range comes back unchanged |
| ParallelMergeSort.ParallelMergeSortAlgorithm.constructor | ADP_2024/ParallelMergeSort/ParallelMergeSortAlgorithm.cs:5 | the threshold starts at 5000 |
| ParallelMergeSort.ParallelMergeSortAlgorithm.SetThreshold | ADP_2024/ParallelMergeSort/ParallelMergeSortAlgorithm.cs:7-10 | the threshold becomes the new value |
| ParallelMergeSort.ParallelMergeSortAlgorithm.Sort | ADP_2024/ParallelMergeSort/ParallelMergeSortAlgorithm.cs:12-20 | a null array is rejected with ArgumentNullException; otherwise the array ends merge-sorted: sorted by key, a permutation of the input, stable |
| ParallelMergeSort.ParallelMergeSortAlgorithm.ParallelMergeSort | ADP_2024/ParallelMergeSort/ParallelMergeSortAlgorithm.cs:22-43 | whichever side of the threshold a range falls, the result is the same as the sequential merge sort of that range |
| SortingAlgorithms.ParallelMergeSort.constructor | ADP_2024/SortingAlgorithms/ParallelMergeSort.cs:7-10 | the threshold is the one given, 5000 by default |
| SortingAlgorithms.ParallelMergeSort.Sort | ADP_2024/SortingAlgorithms/ParallelMergeSort.cs:12-21 | a null array is rejected with ArgumentNullException; otherwise the array ends merge-sorted: sorted by key, a permutation of the input, stable |
| SortingAlgorithms.ParallelMergeSort.ParallelMergeSortAlgorithm | ADP_2024/SortingAlgorithms/ParallelMergeSort.cs:23-46 | whichever side of the threshold a range falls, the result is the same as the sequential merge sort of that range |
| DynamicArray.DynamicArray.OfComparable | ADP_2024/DynamicArray/DynamicArray.cs:10-15 | a new array is empty with a buffer of the given capacity (4 by default), and an element matches an item exactly when CompareTo answers 0 |
| DynamicArray.DynamicArray.OfComparer | ADP_2024/ADP_2024/DynamicArray/DynamicArray.cs:11-17 | a new array is empty with a buffer of the given capacity; matching is the given comparer, or value equality when none is given |
| DynamicArray.DynamicArray.Count | ADP_2024/DynamicArray/DynamicArray.cs:17 | Count is the number of elements |
| DynamicArray.DynamicArray.Add | ADP_2024/DynamicArray/DynamicArray.cs:19-41 | the item is appended after the old elements; the buffer doubles exactly when it was full |
| DynamicArray.DynamicArray.Get | ADP_2024/DynamicArray/DynamicArray.cs:43-48 | succeeds exactly for an index inside the elements and returns that element; otherwise ArgumentOutOfRangeException |
| DynamicArray.DynamicArray.Set | ADP_2024/DynamicArray/DynamicArray.cs:50-55 | an index inside the elements has its element replaced and nothing else changes; otherwise ArgumentOutOfRangeException and nothing changes |
| DynamicArray.DynamicArray.Remove | ADP_2024/DynamicArray/DynamicArray.cs:57-90 | a valid index has its element cut out, the others keeping their order; the buffer halves exactly when the new size is positive and a quarter of the old capacity; an invalid index raises ArgumentOutOfRangeException and changes nothing |
| DynamicArray.DynamicArray.RemoveItem | ADP_2024/DynamicArray/DynamicArray.cs:92-107 | answers true exactly when some element matches, and then the first matching element is cut out; otherwise nothing changes |
| DynamicArray.DynamicArray.Contains | ADP_2024/DynamicArray/DynamicArray.cs:109-121 | true exactly when some element matches the item |
| DynamicArray.DynamicArray.IndexOf | ADP_2024/DynamicArray/DynamicArray.cs:123-134 | -1 exactly when no element matches; otherwise the first matching index |
| DynamicArray.CopyPrefix | ADP_2024/DynamicArray/DynamicArray.cs:79-88 | the new buffer has the new capacity and starts with the first `size` elements of the old one |
| Stack.AStack.constructor | ADP_2024/Stack/AStack.cs:10-15 | a new stack is empty with a buffer of the given capacity, 10 by default |
| Stack.AStack.Size | ADP_2024/Stack/AStack.cs:75-78 | the number of cells from the bottom to the top |
| Stack.AStack.Push | ADP_2024/Stack/AStack.cs:17-39 | answers true; the item is on top and the stack is one longer; without growth the old contents are kept; when the buffer was full it doubles and the cell that was at the top reads as default(T) |
| Stack.AStack.Pop | ADP_2024/Stack/AStack.cs:41-66 | an empty stack raises InvalidOperationException and is unchanged; otherwise the top item is returned and the stack is one shorter; when the shrink fires the buffer halves and the new top cell reads as default(T) |
| Stack.AStack.TopValue | ADP_2024/Stack/AStack.cs:68-73 | an empty stack raises InvalidOperationException; otherwise the top cell is returned |
| Stack.AStack.PushLifo | ADP_2024/Stack/AStack.cs:17-39 | with the copy loop running to the top, a push appends the item and keeps everything under it |
| Stack.AStack.PopLifo | ADP_2024/Stack/AStack.cs:41-66 | with the copy loop running to the new top, a pop removes exactly the top item and keeps everything under it |
| Stack.CopyPrefix | ADP_2024/Stack/AStack.cs:24-30 | the new buffer has the new capacity, starts with the copied cells, and holds default(T) elsewhere |
| Stack.ShrinkLosesTop | ADP_2024/Stack/AStack.cs:48-59 | capacity 8, pushes of 1, 2, 3, 4 and one pop: TopValue answers default(T) (0) instead of 3 |
| Stack.GrowthLosesBottom | ADP_2024/Stack/AStack.cs:20-30 | capacity 1, pushes of 1 and 2: the stack reads 0, 2 instead of 1, 2 |
| Stack.ShrinkKeepsTop | ADP_2024/Stack/AStack.cs:48-59 | the history of ShrinkLosesTop on the corrected operations leaves 3 on top |
| Stack.LifoRoundTrip | ADP_2024/Stack/AStack.cs:17-66 | on the corrected operations, a push followed by a pop gives back the pushed item and the stack as it was |
| PriorityQueue.PriorityQueue.constructor | ADP_2024/PriorityQueue/PriorityQueue.cs:12-19 | a new queue is empty, ordered, and has the given capacity, 4 by default |
| PriorityQueue.PriorityQueue.IsEmpty | ADP_2024/PriorityQueue/PriorityQueue.cs:21 | true exactly when no pair is live |
| PriorityQueue.PriorityQueue.Count | ADP_2024/PriorityQueue/PriorityQueue.cs:22 | the number of live pairs |
| PriorityQueue.PriorityQueue.Add | ADP_2024/PriorityQueue/PriorityQueue.cs:25-38 | one more pair is live; without growth the run front..rear becomes the old run with the new pair placed behind every pair of at least its priority; when the buffer grows it doubles and the run is the live pairs, then the (default(T), 0) slot, with the new pair placed the same way |
| PriorityQueue.PriorityQueue.PutBehind | ADP_2024/PriorityQueue/PriorityQueue.cs:33-35 | the pair goes to the slot after the rear, the run grows by exactly that pair, and nothing else moves |
| PriorityQueue.PriorityQueue.Reorder | ADP_2024/PriorityQueue/PriorityQueue.cs:40-62 | bubbling the last pair toward the front past every pair of strictly lower priority leaves it behind all pairs of at least its priority and keeps the others in order |
| PriorityQueue.PriorityQueue.Resize | ADP_2024/PriorityQueue/PriorityQueue.cs:64-80 | the capacity doubles, the front moves to 0 and the live pairs keep their order; the rear is set to `size`, one slot behind the last live pair, that slot holding (default(T), 0) |
| PriorityQueue.PriorityQueue.CopyWindow | ADP_2024/PriorityQueue/PriorityQueue.cs:68-74 | the new buffer is twice as long, starts with the live pairs in order from the front, and holds (default(T), 0) elsewhere |
| PriorityQueue.PriorityQueue.Peek | ADP_2024/PriorityQueue/PriorityQueue.cs:83-88 | an empty queue raises InvalidOperationException; otherwise the front item, which carries the highest priority while no Resize has happened |
| PriorityQueue.PriorityQueue.Poll | ADP_2024/PriorityQueue/PriorityQueue.cs:91-103 | an empty queue raises InvalidOperationException and is unchanged; otherwise the front item is returned and removed, the rest keeping their order; it has the highest priority while no Resize has happened |
| PriorityQueue.PriorityQueue.ResizeCorrected | ADP_2024/PriorityQueue/PriorityQueue.cs:64-80 | with the rear set to the last live slot, the capacity doubles and the ordered run is kept exactly |
| PriorityQueue.PriorityQueue.AddCorrected | ADP_2024/PriorityQueue/PriorityQueue.cs:25-38 | on the corrected Resize the queue stays ordered for every history, and its pairs become the old ones with the new pair behind every pair of at least its priority |
| PriorityQueue.InsertBehindCounts | ADP_2024/PriorityQueue/PriorityQueue.cs:40-62 | placing a pair adds exactly that pair |
| PriorityQueue.InsertBehindOrdered | ADP_2024/PriorityQueue/PriorityQueue.cs:40-62 | placing a pair in a non-increasing run keeps it non-increasing, pairs of at least its priority stay in front of it and lower ones move one slot back |
| PriorityQueue.PrefixAtLeastPlaces | ADP_2024/PriorityQueue/PriorityQueue.cs:49 | the strict `>` stops the new pair right behind the last pair of at least its priority: ties keep arrival order |
| PriorityQueue.FrontIsHighest | ADP_2024/PriorityQueue/PriorityQueue.cs:96-99 | in a non-increasing run the front has the highest priority, and removing it leaves a non-increasing run |
| PriorityQueue.PollAfterResize | ADP_2024/PriorityQueue/PriorityQueue.cs:78 | capacity 2, Add(1, 5), Add(7, -1), two Polls: the second Poll answers default(T) (0) instead of 7 |
| PriorityQueue.PollAfterResizeCorrected | ADP_2024/PriorityQueue/PriorityQueue.cs:25-38 | the same history on the corrected operations answers 1, then 7 |
| DoublyLinkedList.Node.constructor | ADP_2024/DoublyLinkedList/Node.cs:39-42 | a new node holds the data and is linked to nothing |
| DoublyLinkedList.DoublyLinkedList.constructor | ADP_2024/DoublyLinkedList/DoublyLinkedList.cs:10-15 | a new list is empty and well linked |
| DoublyLinkedList.DoublyLinkedList.Add | ADP_2024/DoublyLinkedList/DoublyLinkedList.cs:17-34 | the data is appended at the tail in a fresh node, the old nodes keep their order, Length grows by one, and the links stay consistent both ways |
| DoublyLinkedList.DoublyLinkedList.WalkFromHead | ADP_2024/DoublyLinkedList/DoublyLinkedList.cs:43-48 | following Next index times from the head reaches the node at that index |
| DoublyLinkedList.DoublyLinkedList.WalkFromTail | ADP_2024/DoublyLinkedList/DoublyLinkedList.cs:132-137 | following Previous from the tail down to index reaches the node at that index |
| DoublyLinkedList.DoublyLinkedList.Get | ADP_2024/DoublyLinkedList/DoublyLinkedList.cs:36-51 | an index inside the list returns its element; any other raises IndexOutOfRangeException |
| DoublyLinkedList.DoublyLinkedList.Set | ADP_2024/DoublyLinkedList/DoublyLinkedList.cs:53-68 | an index inside the list has its element replaced and no node is added or removed; any other raises IndexOutOfRangeException and changes nothing |
| DoublyLinkedList.DoublyLinkedList.Unlink | ADP_2024/DoublyLinkedList/DoublyLinkedList.cs:140-163 | the node at position k is unlinked: it leaves the node order and its element leaves the contents, the rest keeping their order and the links consistent |
| DoublyLinkedList.DoublyLinkedList.LinkForward | ADP_2024/DoublyLinkedList/DoublyLinkedList.cs:140-152 | the first half of the unlink: the head or the predecessor's Next skips the node |
| DoublyLinkedList.DoublyLinkedList.LinkBackward | ADP_2024/DoublyLinkedList/DoublyLinkedList.cs:154-161 | the second half of the unlink: the tail or the successor's Previous skips the node, after which both walks visit the list without it |
| DoublyLinkedList.DoublyLinkedList.Remove | ADP_2024/DoublyLinkedList/DoublyLinkedList.cs:70-110 | answers true exactly when some element compares equal, and then the first such element is removed; otherwise nothing changes |
| DoublyLinkedList.DoublyLinkedList.RemoveAt | ADP_2024/DoublyLinkedList/DoublyLinkedList.cs:112-164 | an index inside the list has its element removed, whichever end the walk starts from; any other raises IndexOutOfRangeException and changes nothing |
| DoublyLinkedList.DoublyLinkedList.Contains | ADP_2024/DoublyLinkedList/DoublyLinkedList.cs:166-181 | true exactly when some element compares equal to the value |
| DoublyLinkedList.DoublyLinkedList.Find | ADP_2024/DoublyLinkedList/DoublyLinkedList.cs:183-198 | null exactly when no element compares equal; otherwise the node of the first such element |
| DoublyLinkedList.DoublyLinkedList.IndexOf | ADP_2024/DoublyLinkedList/DoublyLinkedList.cs:200-219 | -1 exactly when no element compares equal; otherwise the first such index |
| DoublyLinkedList.WithoutKeeps | ADP_2024/DoublyLinkedList/DoublyLinkedList.cs:140-163 | taking a node out of a list of distinct nodes leaves distinct nodes holding the contents without that element |
| Deque.Node.constructor | ADP_2024/Deque/Deque.cs:18 | a new cell holds the item and is linked to nothing |
| Deque.Deque.constructor | ADP_2024/Deque/Deque.cs:9-14 | a new deque is empty and well linked |
| Deque.Deque.Size | ADP_2024/Deque/Deque.cs:101-104 | the number of elements |
| Deque.Deque.EndsAgree | ADP_2024/Deque/Deque.cs:20-23 | head and tail are null exactly when the deque is empty, and with one element they are the same unlinked cell |
| Deque.Deque.InsertLeft | ADP_2024/Deque/Deque.cs:16-33 | the item becomes the leftmost element in a fresh cell, everything else keeps its place, the size grows by one |
| Deque.Deque.InsertRight | ADP_2024/Deque/Deque.cs:35-52 | the item becomes the rightmost element in a fresh cell, everything else keeps its place, the size grows by one |
| Deque.Deque.DeleteLeft | ADP_2024/Deque/Deque.cs:54-76 | an empty deque raises InvalidOperationException and is unchanged; otherwise the leftmost element is returned and removed, both for one element (61-67) and more |
| Deque.Deque.DeleteRight | ADP_2024/Deque/Deque.cs:78-99 | an empty deque raises InvalidOperationException and is unchanged; otherwise the rightmost element is returned and removed, both for one element (85-91) and more |
| Deque.LeftIsLifo | ADP_2024/Deque/Deque.cs:16-76 | InsertLeft then DeleteLeft gives back the item and the deque as it was |
| Deque.RightToLeftIsFifo | ADP_2024/Deque/Deque.cs:35-76 | InsertRight then DeleteLeft is a queue: it answers the oldest element and leaves the rest with the new item at the right |
| Deque.BothEnds | ADP_2024/Deque/Deque.cs:16-99 | inserting a on the left and b on the right, then deleting both ends, answers a and b and restores the deque |
| Deque.DeleteAfterDrain | ADP_2024/Deque/Deque.cs:54-59 | after every element has been deleted, a further delete raises InvalidOperationException |
| HashTable.HashTable.constructor | ADP_2024/HashTable/HashTable.cs:22-27 | a new table has the given capacity (16 by default), all slots empty, size 0, and is consistent |
| HashTable.HashTable.Hash | ADP_2024/HashTable/HashTable.cs:29-33 | the home slot lies in the table and is the mathematical residue of the hash code: the fix-up after C#'s truncating `%` lands exactly on it |
| HashTable.HashTable.Seek | ADP_2024/HashTable/HashTable.cs:58-70 | the probe loop of Get, Delete and Update answers the slot of the first live entry for the key on its probe, stopping at an empty slot or back at the start, or -1 |
| HashTable.HashTable.Get | ADP_2024/HashTable/HashTable.cs:56-73 | the value the probe finds, or KeyNotFoundException when it finds none |
| HashTable.HashTable.SeekVacancy | ADP_2024/HashTable/HashTable.cs:42-46 | Insert's probe stops at the first slot that is empty, a tombstone, or a live entry for the key |
| HashTable.HashTable.Write | ADP_2024/HashTable/HashTable.cs:48-53 | the slot gets a new live entry and the size counts one more exactly when the slot was not live |
| HashTable.HashTable.Place | ADP_2024/HashTable/HashTable.cs:42-53 | probe and write together give the table Put describes; the size keeps counting the live slots |
| HashTable.HashTable.Insert | ADP_2024/HashTable/HashTable.cs:35-54 | resizes first exactly when size >= capacity / 2, then places the entry; afterwards Get(key) answers the new value, on any table, and on a consistent table Get of every other key answers what it did |
| HashTable.HashTable.Resize | ADP_2024/HashTable/HashTable.cs:94-109 | the capacity doubles; the live entries are re-inserted in array order into a fresh table, which is consistent; Get then answers for every key the last live value in array order, and for a consistent old table exactly what it answered before |
| HashTable.HashTable.Delete | ADP_2024/HashTable/HashTable.cs:74-93 | the entry the probe finds becomes a tombstone and the size drops by one, or KeyNotFoundException with nothing changed; a consistent table stays consistent and Get(key) then throws |
| HashTable.HashTable.Update | ADP_2024/HashTable/HashTable.cs:111-127 | the entry the probe finds gets the new value, or KeyNotFoundException with nothing changed; Get(key) then answers the new value and Get of every other key what it did |
| HashTable.HashTable.Size | ADP_2024/HashTable/HashTable.cs:128-131 | the number of live slots |
| HashTable.HashTable.IsEmpty | ADP_2024/HashTable/HashTable.cs:132-135 | true exactly when no slot is live |
| HashTable.HashTable.SeekTarget | ADP_2024/HashTable/HashTable.cs:42-46 | the corrected probe passes tombstones and answers the live entry for the key if the probe meets one, otherwise the first slot on the probe that is not live |
| HashTable.HashTable.PlaceCorrected | ADP_2024/HashTable/HashTable.cs:42-53 | the corrected probe and the write give the table PutCorrected describes |
| HashTable.HashTable.InsertCorrected | ADP_2024/HashTable/HashTable.cs:35-54 | the same resize test; a consistent table stays consistent, Get(key) answers the new value and Get of every other key what it did |
| HashTable.LiveCountPrefix | ADP_2024/HashTable/HashTable.cs:102-108 | a prefix of the table has no more live slots than the whole |
| HashTable.DeletedKeyStillFound | ADP_2024/HashTable/HashTable.cs:43 | capacity 16, keys hashing to themselves: Insert(1, 10), Insert(17, 20), Delete(1), Insert(17, 30), Delete(17), and Get(17) still answers 20 |
| HashTable.DeletedKeyGone | ADP_2024/HashTable/HashTable.cs:35-93 | the same history with the corrected Insert: Get(17) throws KeyNotFoundException |
| Probing.TruncRem | ADP_2024/HashTable/HashTable.cs:31 | C#'s `%`: the remainder has the sign of the dividend, lies strictly between -m and m, and differs from the dividend by a multiple of m |
| Probing.Hash | ADP_2024/HashTable/HashTable.cs:29-33 | the home slot always lies in [0, capacity) |
| Probing.HashIsResidue | ADP_2024/HashTable/HashTable.cs:31-32 | the home slot equals the Euclidean residue of the hash code |
| Probing.Step | ADP_2024/HashTable/HashTable.cs:45 | the probe step `(index + 1) % capacity` stays in the table |
| Probing.StepAt | ADP_2024/HashTable/HashTable.cs:68-69 | stepping walks the probe in order, and returns to the start exactly after visiting every slot once |
| Probing.AtCovers | ADP_2024/HashTable/HashTable.cs:42-46 | every slot of the table lies on every probe |
| Probing.Locate | ADP_2024/HashTable/HashTable.cs:58-70 | a slot the look-up probe answers holds a live entry for the key |
| Probing.Vacancy | ADP_2024/HashTable/HashTable.cs:42-46 | a slot Insert's probe answers is not live or holds the key |
| Probing.FirstFree | ADP_2024/HashTable/HashTable.cs:42-46 | a slot it answers is not live |
| Probing.LiveCount | ADP_2024/HashTable/HashTable.cs:19 | the count of live slots is at most the table length |
| Probing.LiveCountUpdate | ADP_2024/HashTable/HashTable.cs:48-51 | rewriting one slot changes the count by exactly what that slot contributes before and after, matching the size update of Insert |
| Probing.FreeExists | ADP_2024/HashTable/HashTable.cs:42-46 | a table with a slot that is not live has one on every probe, so Insert's loop ends |
| Probing.VacancyFound | ADP_2024/HashTable/HashTable.cs:42-46 | Insert's probe stops no later than the first slot that is not live |
| Probing.LookupSays | ADP_2024/HashTable/HashTable.cs:56-73 | Get answers only values of live entries for the key, and throws when there is none |
| Probing.SoundLookup | ADP_2024/HashTable/HashTable.cs:56-73 | in a consistent table no key is live twice and Get answers the value of its live entry |
| Probing.Put | ADP_2024/HashTable/HashTable.cs:42-53 | the table after Insert without a resize has the same length and at most one more live slot |
| Probing.PutThenLookup | ADP_2024/HashTable/HashTable.cs:35-73 | after Insert(key, value), Get(key) answers value, on any table |
| Probing.PutOtherKey | ADP_2024/HashTable/HashTable.cs:35-54 | on a consistent table with a free slot, Insert(key, value) leaves Get of every other key as it was |
| Probing.PutCorrected | ADP_2024/HashTable/HashTable.cs:42-53 | the corrected Insert's table has the same length and at most one more live slot |
| Probing.CleanVacancy | ADP_2024/HashTable/HashTable.cs:42-46 | without tombstones, Insert's probe answers the live entry for the key if there is one, and otherwise the first empty slot |
| Probing.CleanPut | ADP_2024/HashTable/HashTable.cs:42-53 | without tombstones the two Inserts write the same table, and it stays without tombstones |
| Probing.CleanPutLookup | ADP_2024/HashTable/HashTable.cs:35-73 | Insert into a consistent table without tombstones keeps it consistent; Get(key) answers the value and every other key is unaffected |
| Probing.PutCorrectedSound | ADP_2024/HashTable/HashTable.cs:35-54 | the corrected Insert keeps the probing invariant |
| Probing.PutCorrectedLookup | ADP_2024/HashTable/HashTable.cs:35-73 | after the corrected Insert, Get(key) answers value and Get of every other key answers what it did |
| Probing.OtherKeyUnmoved | ADP_2024/HashTable/HashTable.cs:42-53 | the corrected Insert leaves the probe for every other key where it was |
| Probing.KeyPlaced | ADP_2024/HashTable/HashTable.cs:42-53 | the corrected Insert puts the key where its own probe finds it |
| Probing.Tombstone | ADP_2024/HashTable/HashTable.cs:83 | the slot Delete marks is no longer live |
| Probing.TombstoneSound | ADP_2024/HashTable/HashTable.cs:74-93 | Delete keeps the probing invariant; Get(key) then throws and Get of every other key answers what it did |
| Probing.Revalue | ADP_2024/HashTable/HashTable.cs:120 | Update changes only the value of the slot, not its key |
| Probing.RevalueLookup | ADP_2024/HashTable/HashTable.cs:111-127 | after Update, Get(key) answers the new value, Get of every other key what it did, and a consistent table stays consistent |
| Probing.LastLiveIs | ADP_2024/HashTable/HashTable.cs:102-108 | the last live value for a key in array order belongs to a live entry for it, and there is none only when no live entry holds the key |
| Probing.Blank | ADP_2024/HashTable/HashTable.cs:25 | a new table of n empty slots has no live slot and no tombstone |
| Probing.BlankSound | ADP_2024/HashTable/HashTable.cs:22-27 | a new table is consistent and Get throws for every key |
| Probing.Refill | ADP_2024/HashTable/HashTable.cs:102-108 | re-inserting the live entries keeps the length and adds at most that many live slots |
| Probing.RefillLookup | ADP_2024/HashTable/HashTable.cs:102-108 | re-inserting into an empty consistent table gives a consistent table without tombstones where Get answers the last live value of each key |
| Probing.ResizeKeepsLookups | ADP_2024/HashTable/HashTable.cs:94-109 | Resize keeps every Get result of a consistent table |
| Probing.ResizeMeans | ADP_2024/HashTable/HashTable.cs:94-109 | from a table at most half full Resize builds a consistent table answering the last live value of each key, which for a consistent table are its own answers |
| Probing.TombstoneDuplicate | ADP_2024/HashTable/HashTable.cs:43 | the history of DeletedKeyStillFound written on tables: the second Insert(17) stops at the tombstone in slot 1 and leaves the live 17 in slot 2, so the table is no longer consistent and after Delete(17) Get(17) answers 20 |
| Probing.CorrectedDeleteAfterInsert | ADP_2024/HashTable/HashTable.cs:35-93 | on a consistent table, the corrected Insert followed by Delete of the same key leaves it consistent with Get(key) throwing |
| AvlTree.NewNode | ADP_2024/AVLTree/Node.cs:10-16 | a new node is a leaf holding the key with a correct stored height |
| AvlTree.NodeHeight | ADP_2024/AVLTree/AvlTree.cs:167-170 | on a tree with correct heights the stored height is the real height, -1 for null |
| AvlTree.GetBalance | ADP_2024/AVLTree/AvlTree.cs:172-175 | 0 for null; on a tree with correct heights, the right subtree's real height minus the left's |
| AvlTree.UpdateHeight | ADP_2024/AVLTree/AvlTree.cs:162-165 | only the height changes, and it becomes correct when the children's are |
| AvlTree.GetTreeSize | ADP_2024/AVLTree/AvlTree.cs:177-182 | the number of nodes, the length of the in-order sequence |
| AvlTree.SizeIsKeyCount | ADP_2024/AVLTree/AvlTree.cs:177-182 | in a search tree the node count equals the number of distinct keys |
| AvlTree.InorderHasKeys | ADP_2024/AVLTree/AvlTree.cs:5-21 | the in-order sequence holds exactly the keys of the tree |
| AvlTree.InorderAscending | ADP_2024/AVLTree/AvlTree.cs:43-62 | the in-order sequence of a search tree is strictly ascending |
| AvlTree.CheckBalanceMeans | ADP_2024/AVLTree/AvlTree.cs:208-224 | with correct heights, CheckBalance accepts exactly the trees in which no two sibling subtrees differ in height by more than one |
| AvlTree.RotateRight | ADP_2024/AVLTree/AvlTree.cs:140-149 | the rotated tree keeps correct heights |
| AvlTree.RotateLeft | ADP_2024/AVLTree/AvlTree.cs:151-160 | the rotated tree keeps correct heights |
| AvlTree.RotateRightReorders | ADP_2024/AVLTree/AvlTree.cs:140-149 | a right rotation keeps the in-order sequence and the keys |
| AvlTree.RotateRightKeepsBst | ADP_2024/AVLTree/AvlTree.cs:140-149 | a right rotation of a search tree is a search tree |
| AvlTree.RotateLeftReorders | ADP_2024/AVLTree/AvlTree.cs:151-160 | a left rotation keeps the in-order sequence and the keys |
| AvlTree.RotateLeftKeepsBst | ADP_2024/AVLTree/AvlTree.cs:151-160 | a left rotation of a search tree is a search tree |
| AvlTree.DoubleLeftReorders | ADP_2024/AVLTree/AvlTree.cs:121-122 | the right-left double rotation keeps the in-order sequence and the keys |
| AvlTree.DoubleRightReorders | ADP_2024/AVLTree/AvlTree.cs:133-134 | the left-right double rotation keeps the in-order sequence and the keys |
| AvlTree.Rebalance | ADP_2024/AVLTree/AvlTree.cs:108-138 | the rebalanced node has correct heights |
| AvlTree.RebalanceReorders | ADP_2024/AVLTree/AvlTree.cs:108-138 | Rebalance keeps the in-order sequence, the keys and the search order |
| AvlTree.RebalanceBalances | ADP_2024/AVLTree/AvlTree.cs:108-138 | over balanced children whose heights differ by at most 2, Rebalance as written gives a balanced node, except when the taller child's own subtrees are equally tall (excluded in its requires); with a difference of at most 1 it only updates the height |
| AvlTree.SingleLeftBalances | ADP_2024/AVLTree/AvlTree.cs:115-118 | a single left rotation balances a node whose right side is two taller and whose right child's right subtree is not shorter, with the resulting height stated |
| AvlTree.SingleRightBalances | ADP_2024/AVLTree/AvlTree.cs:127-130 | the mirror image for a single right rotation |
| AvlTree.DoubleLeftBalances | ADP_2024/AVLTree/AvlTree.cs:119-123 | the right-left double rotation balances a node whose right child's left subtree is strictly taller |
| AvlTree.DoubleRightBalances | ADP_2024/AVLTree/AvlTree.cs:131-135 | the mirror image for the left-right double rotation |
| AvlTree.RebalanceCorrected | ADP_2024/AVLTree/AvlTree.cs:108-138 | with `>=` at lines 115 and 127, the rebalanced node has correct heights |
| AvlTree.RebalanceCorrectedReorders | ADP_2024/AVLTree/AvlTree.cs:108-138 | the corrected Rebalance keeps the in-order sequence and the keys |
| AvlTree.RebalanceCorrectedBalances | ADP_2024/AVLTree/AvlTree.cs:108-138 | over balanced children whose heights differ by at most 2, the corrected Rebalance always gives a balanced node, with its height stated |
| AvlTree.InsertInto | ADP_2024/AVLTree/AvlTree.cs:43-62 | the result has correct heights, and a failure is InvalidOperationException |
| AvlTree.InsertIntoKeys | ADP_2024/AVLTree/AvlTree.cs:43-62 | insertion adds exactly the key and one node and keeps the search order; on a search tree it fails exactly when the key is already present (57-60) |
| AvlTree.InsertIntoBalances | ADP_2024/AVLTree/AvlTree.cs:43-62 | insertion into a balanced tree gives a balanced tree at most one taller, and one that grew is not level at its root, which is what keeps Rebalance as written out of its bad case |
| AvlTree.InsertLeftNoRotation | ADP_2024/AVLTree/AvlTree.cs:49-52 | inserting on the left with no imbalance only rebuilds the node over the new left subtree |
| AvlTree.InsertRightNoRotation | ADP_2024/AVLTree/AvlTree.cs:53-56 | the mirror image on the right |
| AvlTree.Leftmost | ADP_2024/AVLTree/AvlTree.cs:98-106 | the node reached through Left links has no left child, holds a key of the tree, and in a search tree the smallest |
| AvlTree.Rightmost | ADP_2024/AVLTree/AvlTree.cs:193-198 | the node reached through Right links has no right child, holds a key of the tree, and in a search tree the largest |
| AvlTree.RemoveFrom | ADP_2024/AVLTree/AvlTree.cs:64-96 | the result of removal as written has correct heights |
| AvlTree.RemoveFromKeys | ADP_2024/AVLTree/AvlTree.cs:64-96 | removal as written keeps the search order and removes exactly the key, one node fewer when it was present and nothing removed otherwise |
| AvlTree.RemoveFromCorrected | ADP_2024/AVLTree/AvlTree.cs:64-96 | removal with the corrected Rebalance has correct heights |
| AvlTree.RemoveFromCorrectedKeys | ADP_2024/AVLTree/AvlTree.cs:64-96 | the corrected removal keeps the search order and removes exactly the key |
| AvlTree.RemoveFromCorrectedBalances | ADP_2024/AVLTree/AvlTree.cs:64-96 | the corrected removal from a balanced tree gives a balanced tree, at most one shorter |
| AvlTree.ShrinkLeft | ADP_2024/AVLTree/AvlTree.cs:70-73 | removing the key from the left subtree removes it from the node |
| AvlTree.ShrinkRight | ADP_2024/AVLTree/AvlTree.cs:74-77 | removing the key from the right subtree removes it from the node |
| AvlTree.MoveSuccessor | ADP_2024/AVLTree/AvlTree.cs:84-89 | copying the smallest key of the right subtree into the node and removing it there removes exactly the node's old key |
| AvlTree.RemovedVia | ADP_2024/AVLTree/AvlTree.cs:91-94 | rebalancing after a removal keeps what the removal achieved |
| AvlTree.TipIsAvl | ADP_2024/AVLTree/Node.cs:10-16 | a single node is a balanced search tree with correct heights |
| AvlTree.ExampleBuilt | ADP_2024/AVLTree/AvlTree.cs:43-62 | inserting k3, k2, k6, k1, k5, k7, k4, k8 in that order builds the tree Example, step by step |
| AvlTree.ExampleIsAvl | ADP_2024/AVLTree/AvlTree.cs:43-62 | that tree is a balanced search tree with correct heights |
| AvlTree.RemoveUnbalances | ADP_2024/AVLTree/AvlTree.cs:115 | removing k1 from it with Remove as written gives a tree whose node k6 has balance 2, which IsBalanced rejects; the corrected removal gives a balanced tree |
| AvlTree.AvlTree.constructor | ADP_2024/AVLTree/AvlTree.cs:5 | a new tree is empty |
| AvlTree.AvlTree.Find | ADP_2024/AVLTree/AvlTree.cs:7-21 | null exactly when the key is absent; otherwise the subtree whose root holds the key |
| AvlTree.AvlTree.Insert | ADP_2024/AVLTree/AvlTree.cs:23-26 | a present key raises InvalidOperationException and leaves the tree as it was; otherwise the keys gain exactly the key, the size grows by one, and a balanced tree stays balanced |
| AvlTree.AvlTree.Remove | ADP_2024/AVLTree/AvlTree.cs:28-31 | the keys lose exactly the key, the size drops by one exactly when it was present, and the tree stays a search tree with correct heights |
| AvlTree.AvlTree.RemoveCorrected | ADP_2024/AVLTree/AvlTree.cs:28-31 | the same with the corrected Rebalance, and a balanced tree stays balanced |
| AvlTree.AvlTree.Height | ADP_2024/AVLTree/AvlTree.cs:38-41 | the real height of the tree, -1 exactly when it is empty |
| AvlTree.AvlTree.MostLeftChild | ADP_2024/AVLTree/AvlTree.cs:98-106 | the loop reaches the leftmost node |
| AvlTree.AvlTree.FindMin | ADP_2024/AVLTree/AvlTree.cs:184-188 | an empty tree raises InvalidOperationException; otherwise the smallest key |
| AvlTree.AvlTree.FindMax | ADP_2024/AVLTree/AvlTree.cs:190-199 | an empty tree raises InvalidOperationException; otherwise the largest key |
| AvlTree.AvlTree.IsBalanced | ADP_2024/AVLTree/AvlTree.cs:208-224 | true exactly when no two sibling subtrees differ in real height by more than one |
| Graaf.WithVertexMeans | ADP_2024/Graaf/Graaf.cs:7-13 | AddVertex adds the id and changes no vertex already there; a new one has no edges, Distance int.MaxValue and no Previous (162-168) |
| Graaf.AddVertexIdempotent | ADP_2024/Graaf/Graaf.cs:7-13 | calling AddVertex twice with the same id is calling it once |
| Graaf.WithEdgeMeans | ADP_2024/Graaf/Graaf.cs:15-33 | AddEdge adds both ids as vertices when missing and appends exactly one edge, to id2 with the weight, to the list of id1; every other vertex stays as it was |
| Graaf.WithoutMeans | ADP_2024/Graaf/Graaf.cs:41 | RemoveAll keeps exactly the edges that do not lead to the id, and never lengthens the list |
| Graaf.WithoutAppend | ADP_2024/Graaf/Graaf.cs:41 | RemoveAll works edge by edge: on two joined lists it is the join of the two results |
| Graaf.WithoutNothing | ADP_2024/Graaf/Graaf.cs:54 | a list without an edge to the id is left as it is |
| Graaf.WithoutVertexMeans | ADP_2024/Graaf/Graaf.cs:35-46 | RemoveVertex of a missing id changes nothing; otherwise the id leaves the dictionary and every list loses exactly its edges to it, so no edge leads to it any more |
| Graaf.WithoutEdgeMeans | ADP_2024/Graaf/Graaf.cs:48-56 | RemoveEdge keeps the ids; when both are vertices the edges from id1 to id2 go and nothing else changes; otherwise nothing changes |
| Graaf.WithoutEdgeGone | ADP_2024/Graaf/Graaf.cs:48-56 | afterwards the list of id1 holds exactly its old edges that do not lead to id2 |
| Graaf.RemoveEdgeUndoesAddEdge | ADP_2024/Graaf/Graaf.cs:15-56 | RemoveEdge(id1, id2) after AddEdge(id1, id2, w) between existing vertices leaves what RemoveEdge alone would |
| Graaf.WithVertexClosed | ADP_2024/Graaf/Graaf.cs:7-13 | AddVertex keeps every edge pointing at a vertex of the graph, each stored under its own id |
| Graaf.WithEdgeClosed | ADP_2024/Graaf/Graaf.cs:15-33 | AddEdge keeps the graph closed in the same sense |
| Graaf.WithoutVertexClosed | ADP_2024/Graaf/Graaf.cs:35-46 | RemoveVertex keeps the graph closed: removing the edges to the id first is what makes this hold |
| Graaf.WithoutEdgeClosed | ADP_2024/Graaf/Graaf.cs:48-56 | RemoveEdge keeps the graph closed |
| Graaf.OutgoingAppend | ADP_2024/Graaf/Graaf.cs:32 | the edges a batch of AddEdge calls gives a vertex, for two batches, are the first batch's followed by the second's |
| Graaf.AddArcsAppend | ADP_2024/Graaf/Graaf.cs:15-33 | AddEdge calls in two batches are all the calls in order |
| Graaf.AddArcsSnoc | ADP_2024/Graaf/Graaf.cs:15-33 | one more AddEdge call after a batch |
| Graaf.AddArcsKeys | ADP_2024/Graaf/Graaf.cs:15-33 | a sequence of AddEdge calls adds exactly the ids the calls mention |
| Graaf.AddArcsVertex | ADP_2024/Graaf/Graaf.cs:15-33 | after a sequence of AddEdge calls each vertex has its old edges followed by the ones the calls added for it, in call order |
| Graaf.AddArcsMeans | ADP_2024/Graaf/Graaf.cs:15-33 | both of the above together |
| Graaf.AddArcsClosed | ADP_2024/Graaf/Graaf.cs:15-33 | a sequence of AddEdge calls keeps the graph closed |
| Graaf.ParsedMeans | ADP_2024/Graaf/Graaf.cs:58-79 | the calls a builder makes are the longest run of well-formed rows at the front, the first malformed row stopping it |
| Graaf.ParsedSnoc | ADP_2024/Graaf/Graaf.cs:60-78 | a well-formed row after well-formed ones adds its call |
| Graaf.ParsedStops | ADP_2024/Graaf/Graaf.cs:62-64 | a row too short for edge[0] or edge[1] ends the building there |
| Graaf.ParsedAppend | ADP_2024/Graaf/Graaf.cs:60-78 | after a well-formed batch the rest is parsed on its own |
| Graaf.WeightedPrefix | ADP_2024/Graaf/Graaf.cs:96-108 | the pairs of the first rows are read first |
| Graaf.EdgeListOutgoing | ADP_2024/Graaf/Graaf.cs:58-79 | without a short row, each vertex gets an edge to row[1], weighted by row[2] or 0 when the row has no third entry, for every row whose row[0] is that vertex, in row order |
| Graaf.NeighbourOutgoing | ADP_2024/Graaf/Graaf.cs:87-90 | row i of an adjacency list gives vertex i an edge of weight 0 to each neighbour, in order, and no other vertex an edge |
| Graaf.AdjacencyListOutgoing | ADP_2024/Graaf/Graaf.cs:81-92 | vertex x gets an edge of weight 0 to each neighbour in row x, and ids that are no row number get none |
| Graaf.PairOutgoing | ADP_2024/Graaf/Graaf.cs:100-107 | the pairs of row i give vertex i its edges in order, and no other vertex an edge |
| Graaf.WeightedOutgoing | ADP_2024/Graaf/Graaf.cs:94-109 | without a short pair, vertex x gets an edge to each destination of row x with the paired weight, and ids that are no row number get none |
| Graaf.WeightedUpToStep | ADP_2024/Graaf/Graaf.cs:96-108 | reading one more pair adds its entry, and a whole row reads the row |
| Graaf.NumberedMeans | ADP_2024/Graaf/Graaf.cs:115-118 | AddVertex(0) to AddVertex(n - 1) add the ids 0 to n - 1 and change no vertex already there |
| Graaf.CellStep | ADP_2024/Graaf/Graaf.cs:122-128 | one more cell of a row adds an edge exactly when it is non-zero |
| Graaf.CellOutgoingOther | ADP_2024/Graaf/Graaf.cs:120-129 | row i of the matrix gives no other vertex an edge |
| Graaf.CellOutgoing | ADP_2024/Graaf/Graaf.cs:120-129 | vertex i gets an edge to j exactly when cell (i, j) is non-zero, weighted by that cell |
| Graaf.CellIncreasing | ADP_2024/Graaf/Graaf.cs:122-128 | those edges come in column order |
| Graaf.IncreasingSnoc | ADP_2024/Graaf/Graaf.cs:122-128 | adding at most one edge past every destination so far keeps the column order |
| Graaf.CellArcsNext | ADP_2024/Graaf/Graaf.cs:124-127 | one more cell of row i is one AddEdge when it is non-zero and nothing otherwise |
| Graaf.MatrixOutgoing | ADP_2024/Graaf/Graaf.cs:120-129 | the edges the matrix gives vertex x are those of row x |
| Graaf.MatrixEndpoints | ADP_2024/Graaf/Graaf.cs:120-129 | every id the matrix mentions is a row number |
| Graaf.CellEndpoints | ADP_2024/Graaf/Graaf.cs:122-128 | every id a row mentions is a row number |
| Graaf.EndpointsAppend | ADP_2024/Graaf/Graaf.cs:120-129 | the ids of two batches of calls are the ids of each |
| Graaf.MatrixGraph | ADP_2024/Graaf/Graaf.cs:111-130 | a matrix at least as wide as tall, loaded into an empty graph, gives vertices 0 to n - 1, each with id, Distance int.MaxValue and no Previous, and an edge from x to y exactly when cell (x, y) is non-zero, weighted by the cell, in column order |
| Graaf.NonEmptyHasElement | ADP_2024/Graaf/Graaf.cs:39-42 | a non-empty set of ids has an element, the next vertex a traversal of the dictionary visits |
| Graaf.Graaf.constructor | ADP_2024/Graaf/Graaf.cs:5 | a new graph has no vertices |
| Graaf.Graaf.AddVertex | ADP_2024/Graaf/Graaf.cs:7-13 | the dictionary becomes WithVertex of the old one, and the graph stays closed |
| Graaf.Graaf.AddEdge | ADP_2024/Graaf/Graaf.cs:15-33 | the dictionary becomes WithEdge of the old one, and the graph stays closed |
| Graaf.Graaf.RemoveVertex | ADP_2024/Graaf/Graaf.cs:35-46 | the loop over all vertices gives WithoutVertex of the old dictionary, and the graph stays closed |
| Graaf.Graaf.RemoveEdge | ADP_2024/Graaf/Graaf.cs:48-56 | the dictionary becomes WithoutEdge of the old one, and the graph stays closed |
| Graaf.Graaf.BuildFromEdgeList | ADP_2024/Graaf/Graaf.cs:58-79 | the graph gets the AddEdge calls of the rows up to the first row too short for edge[0] or edge[1]; such a row raises ArgumentOutOfRangeException, and it is raised exactly when a row is too short |
| Graaf.Graaf.BuildFromAdjacencyList | ADP_2024/Graaf/Graaf.cs:81-92 | the graph gets AddEdge(i, n) for every neighbour n of every row i, in order |
| Graaf.Graaf.AddPairs | ADP_2024/Graaf/Graaf.cs:98-107 | the inner loop adds the pairs of row i, or stops at the first short pair with the graph as the calls before it left it |
| Graaf.Graaf.BuildFromAdjacencyListWeighted | ADP_2024/Graaf/Graaf.cs:94-109 | the graph gets the calls of the pairs up to the first short pair; a short pair raises ArgumentOutOfRangeException, exactly when there is one |
| Graaf.Graaf.AddCells | ADP_2024/Graaf/Graaf.cs:122-128 | the inner loop adds the calls of row i, or fails with what it had added when the matrix is narrower than it is tall |
| Graaf.Graaf.BuildFromAdjacencyMatrix | ADP_2024/Graaf/Graaf.cs:111-130 | the graph gets vertices 0 to n - 1 and the calls of all non-zero cells in row order; a matrix narrower than tall raises IndexOutOfRangeException in row 0, exactly then, after the calls of that row's cells |
| DijkstraAlgorithm.Wrap32Means | ADP_2024/Dijkstra/DijkstraAlgorithm.cs:40 | a C# int sum stays in int range, is the exact sum when that fits and the sum minus 2^32 when it overflows upwards |
| DijkstraAlgorithm.WalkSnoc | ADP_2024/Dijkstra/DijkstraAlgorithm.cs:38-40 | a walk to u and an edge of u make a walk to the edge's destination, whose weight is the walk's plus the edge's |
| DijkstraAlgorithm.WalkSameShape | ADP_2024/Dijkstra/DijkstraAlgorithm.cs:14-19 | changing Distance and Previous alone keeps every walk of the graph |
| DijkstraAlgorithm.ResetMeans | ADP_2024/Dijkstra/DijkstraAlgorithm.cs:14-19 | the reset keeps ids and edges and gives every vertex Distance int.MaxValue and no Previous |
| DijkstraAlgorithm.ResetDistances | ADP_2024/Dijkstra/DijkstraAlgorithm.cs:14-19 | the loop over all vertices leaves the reset dictionary |
| DijkstraAlgorithm.InitOuter | ADP_2024/Dijkstra/DijkstraAlgorithm.cs:21-25 | the start at Distance 0 and in the queue, everything else unreached, is where the main loop's invariant starts |
| DijkstraAlgorithm.LeastEntry | ADP_2024/Dijkstra/DijkstraAlgorithm.cs:29 | a non-empty priority queue has an entry of least priority to dequeue |
| DijkstraAlgorithm.DequeueInner | ADP_2024/Dijkstra/DijkstraAlgorithm.cs:29-31 | taking such an entry out starts the relaxation of its vertex's edges |
| DijkstraAlgorithm.SkipInner | ADP_2024/Dijkstra/DijkstraAlgorithm.cs:31-50 | an edge that does not improve its destination keeps the invariant |
| DijkstraAlgorithm.RelaxInner | ADP_2024/Dijkstra/DijkstraAlgorithm.cs:40-48 | setting the destination's Distance and Previous and queueing it keeps the invariant |
| DijkstraAlgorithm.RelaxShared | ADP_2024/Dijkstra/DijkstraAlgorithm.cs:40-48 | a relaxation keeps every edge of the graph, every reached vertex with a walk that weighs its Distance, and the Previous links along edges |
| DijkstraAlgorithm.RelaxLinked | ADP_2024/Dijkstra/DijkstraAlgorithm.cs:42-47 | after a relaxation each Previous link is an edge whose weight added to the Previous's Distance gives at most the vertex's Distance |
| DijkstraAlgorithm.RelaxDone | ADP_2024/Dijkstra/DijkstraAlgorithm.cs:42-47 | a relaxation queues the new Distance, so no other vertex's edges need looking at again |
| DijkstraAlgorithm.PotentialLower | ADP_2024/Dijkstra/DijkstraAlgorithm.cs:44 | lowering a Distance lowers the sum of Distances, which bounds how often entries are queued, so the loop at 27-51 ends |
| DijkstraAlgorithm.FinishOuter | ADP_2024/Dijkstra/DijkstraAlgorithm.cs:31-50 | after the last edge of the dequeued vertex the main loop's invariant holds again |
| DijkstraAlgorithm.NegativeFound | ADP_2024/Dijkstra/DijkstraAlgorithm.cs:33-36 | a negative edge of a reached vertex is a reachable negative edge |
| DijkstraAlgorithm.DrainedEnd | ADP_2024/Dijkstra/DijkstraAlgorithm.cs:27 | an empty queue means no edge of a reached vertex can improve its destination |
| DijkstraAlgorithm.StoppedEnd | ADP_2024/Dijkstra/DijkstraAlgorithm.cs:33-36 | the throw at a negative edge leaves a reached vertex with a negative edge |
| DijkstraAlgorithm.RelaxEdges | ADP_2024/Dijkstra/DijkstraAlgorithm.cs:31-50 | the edge loop either stops at a negative edge, with InvalidOperationException, or ends with the main loop's invariant |
| DijkstraAlgorithm.Drain | ADP_2024/Dijkstra/DijkstraAlgorithm.cs:27-51 | the main loop ends, with every reached vertex settled or with InvalidOperationException at a reachable negative edge |
| DijkstraAlgorithm.Dijkstra | ADP_2024/Dijkstra/DijkstraAlgorithm.cs:7-52 | an unknown start throws ArgumentException and changes nothing; otherwise ids and edges stay, the run completes or throws InvalidOperationException at a reached negative edge, every finite Distance is the weight of a non-negative walk from the start, and every Previous link is an edge from a reached vertex; with unbounded sums the Previous links are also ranked, each strictly before its vertex by Distance and then by a ghost stamp, so they form no cycle, and the run completes exactly when the dictionary is solved and throws InvalidOperationException exactly when a negative edge is reachable |
| DijkstraAlgorithm.UnboundedEnd | ADP_2024/Dijkstra/DijkstraAlgorithm.cs:27-51 | with unbounded sums a completed run is solved and a stopped one reached a negative edge, and never both |
| DijkstraAlgorithm.WalkBound | ADP_2024/Dijkstra/DijkstraAlgorithm.cs:40-48 | in a solved dictionary no non-negative walk from the start to v weighs less than v's Distance |
| DijkstraAlgorithm.ShortestDistances | ADP_2024/Dijkstra/DijkstraAlgorithm.cs:7-52 | in a solved dictionary each Distance is at most the weight of every walk from the start, is the weight of one when below int.MaxValue, and is below int.MaxValue exactly when some walk weighs less than int.MaxValue |
| DijkstraAlgorithm.NoNegativeReachable | ADP_2024/Dijkstra/DijkstraAlgorithm.cs:33-36 | a solved dictionary has no reachable negative edge |
| DijkstraAlgorithm.GetShortestPath | ADP_2024/Dijkstra/DijkstraAlgorithm.cs:54-68 | the path ends at the target, starts at a vertex without Previous, and each vertex on it has the one before it as Previous; a target without Previous gives the path of the target alone |
| DijkstraAlgorithm.ChainStart | ADP_2024/Dijkstra/DijkstraAlgorithm.cs:54-68 | after an unbounded run the path to a reached vertex starts at the start |
| DijkstraAlgorithm.ChainWalk | ADP_2024/Dijkstra/DijkstraAlgorithm.cs:54-68 | that path is a non-negative walk from the start weighing at most the target's Distance |
| DijkstraAlgorithm.PathFromStart | ADP_2024/Dijkstra/DijkstraAlgorithm.cs:54-68 | in a solved dictionary the path of a reached target is a shortest walk: it starts at the start and weighs exactly the target's Distance |
| DijkstraAlgorithm.ChainBuilt | ADP_2024/Graaf/Graaf.cs:15-33 | AddEdge(0, 1, int.MaxValue - 1) and AddEdge(1, 2, 2) build the graph of the overflow example |
| DijkstraAlgorithm.WalksToZero | ADP_2024/Dijkstra/DijkstraAlgorithm.cs:40 | in that graph the only walk from 0 to 0 is empty |
| DijkstraAlgorithm.WalksToOne | ADP_2024/Dijkstra/DijkstraAlgorithm.cs:40 | the only walk to 1 is the edge from 0 |
| DijkstraAlgorithm.WalksToTwo | ADP_2024/Dijkstra/DijkstraAlgorithm.cs:40 | every walk to 2 weighs int.MaxValue + 1 |
| DijkstraAlgorithm.ChainNonneg | ADP_2024/Dijkstra/DijkstraAlgorithm.cs:33-36 | the graph has no negative edge, so no run on it throws |
| DijkstraAlgorithm.ChainWraps | ADP_2024/Dijkstra/DijkstraAlgorithm.cs:40-44 | any state the C# run can end in gives vertex 2 Distance int.MinValue |
| DijkstraAlgorithm.ChainUnreached | ADP_2024/Dijkstra/DijkstraAlgorithm.cs:40-44 | a solved state with unbounded sums leaves vertex 2 at int.MaxValue |
| DijkstraAlgorithm.OverflowScenario | ADP_2024/Dijkstra/DijkstraAlgorithm.cs:7-52 | Dijkstra from 0 on that graph completes, and vertex 2 ends at int.MinValue with C# int sums and at int.MaxValue with unbounded ones |
| DijkstraAlgorithm.LoopBuilt | ADP_2024/Graaf/Graaf.cs:15-33 | AddEdge(0, 1, int.MaxValue - 1), AddEdge(1, 2, 2) and AddEdge(2, 1, 0) build the graph of the cycle example |
| DijkstraAlgorithm.LoopWalks | ADP_2024/Dijkstra/DijkstraAlgorithm.cs:40 | in that graph the only walk to 0 is empty, every walk to 1 weighs at least int.MaxValue - 1 and every walk to 2 at least int.MaxValue + 1 |
| DijkstraAlgorithm.LoopChain | ADP_2024/Dijkstra/DijkstraAlgorithm.cs:60-65 | when the Previous links of 1 and 2 point at each other, walking back from either stays on them |
| DijkstraAlgorithm.LoopNoPath | ADP_2024/Dijkstra/DijkstraAlgorithm.cs:60-65 | then no chain of Previous links from a vertex without one ends at 1, so the loop never reaches a null Previous |
| DijkstraAlgorithm.LoopWalksWrap | ADP_2024/Dijkstra/DijkstraAlgorithm.cs:40 | with C# int sums the walks 0-1-2 and 0-1-2-1 both weigh int.MinValue |
| DijkstraAlgorithm.LoopEndFrame | ADP_2024/Dijkstra/DijkstraAlgorithm.cs:40-48 | the traced end state keeps the graph's vertices, ids and edges and holds int Distances |
| DijkstraAlgorithm.LoopEndReached | ADP_2024/Dijkstra/DijkstraAlgorithm.cs:40-48 | each finite Distance of the traced end state is the C# int weight of a walk from 0 |
| DijkstraAlgorithm.LoopEndLinked | ADP_2024/Dijkstra/DijkstraAlgorithm.cs:40-48 | its Previous links follow edges from reached vertices and no edge improves its destination under C# int sums |
| DijkstraAlgorithm.LoopAdmitted | ADP_2024/Dijkstra/DijkstraAlgorithm.cs:27-65 | the traced end state, with 1 and 2 each other's Previous, meets everything Dijkstra promises for C# int sums, and GetShortestPath(vertex 1) has no finite answer in it |
| DijkstraAlgorithm.LoopUnreached | ADP_2024/Dijkstra/DijkstraAlgorithm.cs:40-44 | with unbounded sums a solved state leaves 2 at int.MaxValue with no Previous |
| DijkstraAlgorithm.LoopOne | ADP_2024/Dijkstra/DijkstraAlgorithm.cs:40-44 | with unbounded sums a solved state gives 1 Distance int.MaxValue - 1 |
| DijkstraAlgorithm.LoopSolved | ADP_2024/Dijkstra/DijkstraAlgorithm.cs:40-46 | and its Previous is 0, the start having none |
| DijkstraAlgorithm.LoopPath | ADP_2024/Dijkstra/DijkstraAlgorithm.cs:54-68 | with those links the only chain of Previous links ending at 1 is [0, 1] |
| DijkstraAlgorithm.LoopNonneg | ADP_2024/Dijkstra/DijkstraAlgorithm.cs:33-36 | the graph has no negative edge, so no run on it throws |
| DijkstraAlgorithm.LoopScenario | ADP_2024/Dijkstra/DijkstraAlgorithm.cs:7-68 | with unbounded sums Dijkstra from 0 on that graph completes and GetShortestPath(vertex 1) answers [0, 1] |

## Left out

- Printing: `AvlTree.PrintTreeStructure` (AvlTree.cs:226-268), `HashTable.Print` (HashTable.cs:136-145), `Graaf.PrintGraph` and `Graaf.PrintDistances` (Graaf.cs:132-152) only write to the console.
- The dataset readers, the JSON models, the test-graph generator and the performance tests: they do file I/O, deserialisation, randomness and timing.
- `Parallel.Invoke` in both merge sorts is modelled as the two recursive calls one after the other. They work on disjoint halves, so the result is the same; thread scheduling is not modelled.
- `GetHashCode`, `CompareTo`, `string.CompareTo` and `IEqualityComparer<T>` are functions given as parameters. The model assumes they are pure and, where a lemma needs it, states the assumed properties (for example an antisymmetric name comparison for `CompareToAntiSymmetric`).
- `AvlTree.GetRoot` (AvlTree.cs:33-36) returns the `root` field; the model reads the field directly.
- AVL keys are `int`, compared by `<`, instead of a generic `IComparable<T>`. Nodes are datatype values, so the model does not capture that the four mutable fields of `Node` (ADP_2024/AVLTree/Node.cs:5-8) can be shared or aliased. Rebuilding a node stands for overwriting its fields, including the successor key copy in Remove.
- The node class of the deque: ADP_2024/Deque/Node.cs is not part of this model. `Deque.Node` is a Data/Next/Previous cell built from how Deque.cs uses it.
- Graph vertices and edges are values in a `map<int, Vertex>`, and an edge names its destination by id instead of by reference. Object identity and aliasing of `Vertex` objects are therefore not modelled. In particular, a `Previous` that still points at a vertex after RemoveVertex is not modelled.
- The .NET `PriorityQueue<TElement, TPriority>` inside Dijkstra is a multiset of (id, priority) pairs. Dequeue takes any entry of least priority, so the order among ties is not modelled.
- `GetShortestPath` takes the dictionary the run left and a ghost ranking of its Previous links, which proves that the walk back ends. A run with unbounded sums gives that ranking; a run with `Int32` sums does not, so the model of GetShortestPath cannot be called on what an as-written run returns. The as-written run can leave a cycle of Previous links, on which the C# loop at lines 60-65 never stops (see "Findings"); that non-terminating walk is shown by `DijkstraAlgorithm.LoopAdmitted` and not modelled as a method.
- `DijkstraAlgorithm.Dijkstra` has an `Arithmetic` parameter. With `Int32` the sum `Distance + Weight` wraps around as C# int addition does; with `Unbounded` it is exact. Shortest-path optimality is proved only for `Unbounded`. With `Int32` the model proves the weaker invariants and shows where the overflow breaks the result (see "Findings").
- Capacities must be at least 1 for `HashTable`, `AStack`, `DynamicArray` and `PriorityQueue`: with 0 the C# code divides by zero or indexes an empty array, and doubling 0 gives 0. The unconstructible zero-capacity test case is therefore not modelled.
- Arrays may be `null` (`array?`) only where the source checks for null, in the two merge sort `Sort` front ends. Elsewhere the model takes a non-null array, where the C# code would throw NullReferenceException.
- Floating-point element types used by some tests are not modelled; the element types are generic, with an integer key.
- Merging.MergeSort: its contract does not say which cells of `temp` it writes. Only `Merge` states that `temp` changes just inside the range.
- PriorityQueue.PriorityQueue.Peek: it states that the front item has the highest priority only while no Resize has happened, because the Resize bug below breaks ordering afterwards.
- PriorityQueue.PriorityQueue.Poll: the same restriction as Peek.
- AvlTree.RebalanceBalances: it excludes the case where the taller child has equally tall subtrees; it is exactly the case the strict `>` gets wrong (see "Findings").
- HashTable.HashTable.Delete: "Get throws after Delete" is proved only for tables without duplicate live keys, which the Insert bug below can break.

## Findings

| source | as written | input that shows it | evidently intended | confidence | as-written member | corrected member |
|---|---|---|---|---|---|---|
| ADP_2024/Stack/AStack.cs:27-30 | the growth copy loop runs `i < _top`, so the element at the old top is not copied | capacity 1, Push(1), Push(2): the stack reads default(T), 2 | copy `i <= _top`, every element | high, not executed | Stack.GrowthLosesBottom | Stack.AStack.PushLifo |
| ADP_2024/Stack/AStack.cs:56-59 | the shrink copy loop runs `i < _top` after the decrement, so the new top is lost | capacity 8, Push 1, 2, 3, 4, Pop: TopValue answers default(T) instead of 3 | copy `i <= _top` | high, not executed | Stack.ShrinkLosesTop | Stack.ShrinkKeepsTop |
| ADP_2024/PriorityQueue/PriorityQueue.cs:78 | Resize sets `_rear = _size`, one slot past the last item, leaving an empty slot inside the live window | capacity 2, Add(1, 5), Add(7, -1), Poll, Poll: the second Poll answers default(T) instead of 7 | `_rear = _size - 1` | high, not executed | PriorityQueue.PollAfterResize | PriorityQueue.PollAfterResizeCorrected |
| ADP_2024/HashTable/HashTable.cs:43 | Insert stops at the first tombstone without looking further for a live slot with the same key, so a key can be live twice | capacity 16, hash = key: Insert(1, 10), Insert(17, 20), Delete(1), Insert(17, 30), Delete(17): Get(17) answers 20 instead of throwing | look for the key first and reuse a tombstone only when it is absent | high, not executed | HashTable.DeletedKeyStillFound | HashTable.DeletedKeyGone |
| ADP_2024/AVLTree/AvlTree.cs:115 | Rebalance uses a strict `>` on the child's balance, so a child with equally tall subtrees gets a double rotation, which leaves the tree unbalanced after a Remove | insert 10, 5, 20, 3, 15, 25, 12, 30, then Remove(3): node 20 has balance 2 | `>=` at lines 115 and 127 | high, not executed | AvlTree.RemoveUnbalances | AvlTree.AvlTree.RemoveCorrected |
| ADP_2024/Dijkstra/DijkstraAlgorithm.cs:40 | `currentVertex.Distance + edge.Weight` is a C# int sum and wraps around | AddEdge(0, 1, int.MaxValue - 1), AddEdge(1, 2, 2), Dijkstra from 0: vertex 2 gets Distance int.MinValue | an exact sum, leaving vertex 2 unreached at int.MaxValue | high, not executed | DijkstraAlgorithm.ChainWraps | DijkstraAlgorithm.ChainUnreached |
| ADP_2024/Dijkstra/DijkstraAlgorithm.cs:40-46 | the wrapped sum at line 40 is compared and stored at lines 42-46 like any other, so Previous links can close a cycle, and GetShortestPath (lines 60-65) then loops forever | AddEdge(0, 1, int.MaxValue - 1), AddEdge(1, 2, 2), AddEdge(2, 1, 0), Dijkstra from 0 (traced by hand through lines 27-51): 1 and 2 end at int.MinValue with Previous 2 and 1, and GetShortestPath(vertex 1) never returns | an exact sum: 1 ends at int.MaxValue - 1 with Previous 0, 2 stays unreached, and GetShortestPath(vertex 1) answers [0, 1] | high, not executed | DijkstraAlgorithm.LoopAdmitted | DijkstraAlgorithm.LoopScenario |
