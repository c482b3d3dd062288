# k-th largest visualiser: the bounded min-heap simulation

The visualiser finds the k-th largest element of an array. It keeps a
min-heap of at most k nodes, records every step of that run, and lets the
user walk through the steps with next/prev buttons. This project models the
part of `script.js` that computes, not the Three.js rendering:

- `simulateAlgorithm` walks the input array. For each element it:
  - pushes a `{value, id}` node, with the input position as id;
  - sifts the node up and records an `add` step;
  - when the heap holds more than k nodes, removes the front node with
    `shift()`, sifts down from index 0 and records a `remove` step.

  A `start` step opens the log. A final step reports the value at index 0
  as `kthLargest`.
- `heapifyUp` and `heapifyDown` are the recursive, in-place sift routines.
  Each swap they make is appended to a `swaps` list. One list serves both
  phases of an element, so a `remove` step lists the element's sift-up swaps
  and then its sift-down swaps.
- `deepCopyHeap` gives each step its own snapshot of the heap.
- The next/prev buttons move the step cursor.
- The start button checks the bounds: array size between 1 and 30, and k
  between 1 and the size.

The project has four modules:

- `MinHeap` (`heap.dfy`):
  - the node and swap data;
  - `SiftUp` and `SiftDown`, which specify the sift routines and return the
    rearranged heap together with the swaps in order;
  - lemmas about those two functions;
  - the in-place methods `HeapifyUp`, `SmallestIndex` and `HeapifyDown` on an
    `array<Node>`, each proved equal to its specification function.
- `Simulation` (`simulation.dfy`):
  - the step log as a function of the input and k (`RunPrefix` for the loop,
    `SimulationSteps` for the whole log);
  - the lemmas that fix the log's shape.
- `Correctness` (`correctness.dfy`) covers what the reported value means.
  - Removing with `shift()` moves every node one index left, so the array is
    not in general a heap afterwards.
  - The model proves the log right exactly where it is right: k <= 3, or k
    equal to the input length.
  - It proves that the input [1, 2, 7, 3, 5, 8, 9, 6, 4, 10, 11] with k = 7
    makes the page report 7. The 7th largest element is 5.
  - It proves the textbook removal correct for every k: move the last node
    to the root, then sift down.
  - For every k, it proves that each snapshot holds nodes made from input
    positions with distinct ids.
- `Visualizer` (`visualizer.dfy`) holds the page's state:
  - the class `Visualizer`, with fields `steps` and `currentStep`;
  - the method `SimulateAlgorithm`, whose loop over an `array<Node>` is proved
    to record exactly `SimulationSteps`;
  - the next and prev buttons;
  - the input bounds check.

## Model

| member | source | states |
|---|---|---|
| MinHeap.Exchange | script.js:272 | the destructuring swap puts each of the two nodes at the other's position, keeps the length, and leaves every other position unchanged |
| MinHeap.ExchangePermutes | script.js:272 | a swap keeps the same multiset of nodes |
| MinHeap.SiftUp | script.js:267-275 | the specification of heapifyUp; its own contract states only that the length is kept, and its behaviour is stated by the SiftUp lemmas below and by HeapifyUp |
| MinHeap.SiftUpChained | script.js:267-275 | heapifyUp's swaps form one path from the start index: the first starts there and each later one starts where the previous one ended |
| MinHeap.SiftUpSwapsToParent | script.js:268-273 | every recorded swap is {from: j, to: floor((j-1)/2)} with 0 < j <= index, made only because that parent's value was strictly greater than the sifted node's |
| MinHeap.SiftUpStops | script.js:268-270 | the sifted node ends at or above its start, either at index 0 or below a parent whose value is no greater (the comparison is a strict `>`) |
| MinHeap.SiftUpPermutes | script.js:267-275 | heapifyUp keeps the length and the multiset of {value, id} nodes, so no id is altered |
| MinHeap.SiftUpReplays | script.js:267-275 | the recorded swaps name in-range positions, and applying them in order to the array before the sift gives the array after it |
| MinHeap.SiftUpRestoresHeap | script.js:267-275 | an array that is a min-heap except between the start index and its parent becomes a min-heap |
| MinHeap.PushKeepsHeap | script.js:225-226 | a min-heap with one node pushed at the end is a min-heap after heapifyUp from the last index |
| MinHeap.Smallest | script.js:278-288 | the position heapifyDown moves to is the index or one of its children; for an in-range index it holds the smallest value among the index and its in-range children; a child is chosen only if it is in range and strictly smaller than the node at the index; the right child is chosen only if strictly smaller than the left one, so the left child wins ties |
| MinHeap.SiftDown | script.js:277-295 | the specification of heapifyDown; its own contract states that the length is kept and that nothing moves from an index past the end; its behaviour is stated by the SiftDown lemmas below and by HeapifyDown |
| MinHeap.SiftDownChained | script.js:277-295 | heapifyDown's swaps form one path down from the start index, each between in-range positions from a parent to a child |
| MinHeap.SiftDownSwapsToChild | script.js:282-293 | every swap goes to an in-range child strictly smaller than the sifted node; the right child is taken only when strictly smaller than the left one, and the left one when no larger than the right one |
| MinHeap.SiftDownStops | script.js:277-295 | the sifted node ends at or below the start index, at a position where it is no larger than any in-range child |
| MinHeap.SiftDownStartMayExceedChild | script.js:277-295 | the node left at the start index can be larger than its child: from [5, 3, 4, 1], sifting down from index 0 gives [3, 1, 4, 5] |
| MinHeap.SiftDownPermutes | script.js:277-295 | heapifyDown keeps the length and the multiset of {value, id} nodes, so no id is altered |
| MinHeap.SiftDownReplays | script.js:277-295 | the recorded swaps name in-range positions, and applying them in order to the array before the sift gives the array after it |
| MinHeap.SettledIsHeap | script.js:290 | when no child is smaller, an array that was a min-heap except below the index is a min-heap |
| MinHeap.SwapDownMovesBreak | script.js:290-293 | one swap moves the only break in the heap property from the index down to the child it swapped with |
| MinHeap.SiftDownRestoresHeap | script.js:277-295 | an array that is a min-heap except between the start index and its children becomes a min-heap |
| MinHeap.SmallSiftDownIsHeap | script.js:241 | heapifyDown from index 0 on at most three nodes yields a min-heap, whatever their order |
| MinHeap.HeapRootIsMin | script.js:260 | in a min-heap no position holds a smaller value than index 0 |
| MinHeap.HeapRootIsLeast | script.js:240 | in a min-heap no node has a smaller value than the one at index 0 |
| MinHeap.DeepCopyHeap | script.js:297-299 | the snapshot has the heap's length and, position by position, the same value and id |
| MinHeap.HeapifyUp | script.js:267-275 | in place on the array: the new contents are SiftUp of the old, and the swap list gets SiftUp's swaps appended |
| MinHeap.SmallestIndex | script.js:278-288 | the index chosen by the two comparisons, reading only in-range children, is Smallest of the array contents |
| MinHeap.HeapifyDown | script.js:277-295 | in place on the array: the new contents are SiftDown of the old, and the swap list gets SiftDown's swaps appended |
| Simulation.AddStepOf | script.js:223-236 | the add step records the input position, Add(value, id) with the position as id, code line 8, and a heap one node larger; AddStepFacts states its nodes and swap replay |
| Simulation.RemoveStepOf | script.js:238-251 | the remove step records the position, Remove of the node at index 0 of the add step's heap, code line 11, a heap one node smaller, and a swap list that starts with the add step's swaps; RemoveStepFacts states its nodes and swap replay |
| Simulation.Process | script.js:219-252 | one pass keeps every earlier step, adds two steps when the heap already held k nodes and one otherwise, leaves min(size + 1, k) nodes, and its last step shows the live heap |
| Simulation.AddStepFacts | script.js:223-236 | an add step records the position, the value, the id and code line 8; its heap has one more node, holds the old nodes and the new one, and is what its swaps give when replayed on the pushed array |
| Simulation.RemoveStepFacts | script.js:238-251 | a remove step removes the node at index 0 of the add step's heap, with code line 11; its swap list starts with the add step's swaps, and the rest, replayed on the array after shift(), give its heap, which holds the remaining nodes |
| Simulation.RunPrefix | script.js:219-253 | after n elements the heap holds min(n, k) nodes, the log opens with the start step and has AddPosition(n, k) steps, and its last step shows the live heap |
| Simulation.SimulationSteps | script.js:206-262 | the log has n + max(0, n - k) + 2 steps; it opens with {index: -1, heap: [], start}; it closes with index n, min(n, k) nodes and the value at index 0 as kthLargest |
| Simulation.RecordedStepsStay | script.js:219-253 | processing more elements only appends steps: a recorded step and its snapshot never change |
| Simulation.ElementSteps | script.js:219-252 | element i's add step follows the state after i elements, and a remove step follows it exactly when i >= k |
| Simulation.PrefixOfLog | script.js:206-262 | the steps recorded after n elements are the first steps of the final log |
| Simulation.ElementStepsInLog | script.js:219-252 | in the final log, element i's add step stands at AddPosition(i, k), just after a step showing the heap after i elements, and its remove step (when i >= k) right after it |
| Simulation.AddStepAt | script.js:223-236 | element i's add step has index i, value a[i], id i and code line 8; it holds min(i, k) + 1 nodes, one more than the previous step; it holds the previous step's nodes and the new one; replaying its swaps on the previous heap with the node pushed gives its heap |
| Simulation.RemoveStepIff | script.js:238-239 | the step after element i's add step is a remove step if and only if i >= k |
| Simulation.RemoveStepAt | script.js:238-251 | element i's remove step has index i and code line 11; it removes the node at index 0 of the add step's k + 1 nodes and leaves k; its swaps are the add swaps followed by heapifyDown's, which replayed after shift() give its heap |
| Correctness.KthLargestUnique | script.js:255-260 | the k-th largest element, counted with repeats, is unique when it exists |
| Correctness.PushedNodes | script.js:224-226 | after a push and sift-up the heap holds the old nodes and the new one with id n - 1, and the ids stay distinct and drawn from the input |
| Correctness.RetainsPush | script.js:223-236 | a pass that does not remove keeps every node processed so far in the heap, with distinct ids |
| Correctness.EvictedNodes | script.js:238-241 | after shift() and sift-down the heap holds the pushed nodes less the one at index 0, with distinct ids drawn from the input |
| Correctness.RetainsEvict | script.js:238-241 | removing the node at index 0 of a min-heap keeps the invariant that every dropped element is no larger than every kept node |
| Correctness.RetainsGivesKthLargest | script.js:255-260 | a min-heap that keeps the invariant after the whole input holds k nodes and has the k-th largest element at index 0 |
| Correctness.NextHeap | script.js:219-252 | the live heap after one pass; its own contract states that a heap of at most k nodes ends with min(size + 1, k); ShiftRunIsLoopHeap ties it to Process, and NextHeapRetains, NextHeapAppends and NextHeapShiftsOnly state its behaviour |
| Correctness.ShiftRun | script.js:219-253 | the live heap after n elements; its own contract states that it holds min(n, k) nodes; ShiftRunIsLoopHeap, ShiftRunRetains and the counterexample lemmas state its behaviour |
| Correctness.ShiftRunIsLoopHeap | script.js:219-253 | the loop's live heap is ShiftRun, the heap-only replay of the passes |
| Correctness.NextHeapRetains | script.js:219-252 | for k <= 3 or k at least the input length, one pass keeps a min-heap with the invariant |
| Correctness.ShiftRunRetains | script.js:219-253 | for k <= 3 or k at least the input length, the live heap is always a min-heap with the invariant |
| Correctness.PassStepsLabelled | script.js:224-251 | for any k, the add and remove snapshots of one pass hold nodes made from input positions, with distinct ids |
| Correctness.ProcessKeepsLogLabelled | script.js:219-252 | one pass keeps every snapshot of the log made of input nodes with distinct ids |
| Correctness.StepsLabelled | script.js:209-253 | for any k, after n elements every recorded snapshot holds nodes whose id is an input position below n and whose value is that element, with no id repeated |
| Correctness.SnapshotsLabelled | script.js:206-262 | for any k, every snapshot of the final log holds nodes whose id is the input position they were made from, with that element as value, and no snapshot repeats an id |
| Correctness.PassStepsAreHeaps | script.js:223-251 | from a min-heap, the add snapshot is a min-heap, and so is the remove snapshot when at most three nodes remain |
| Correctness.RestrictedSteps | script.js:219-253 | for k <= 3 or k at least the input length, every recorded snapshot is a min-heap; when k is at least the length no remove step is recorded |
| Correctness.RestrictedSnapshotsAreHeaps | script.js:206-262 | for k <= 3 or k equal to the input length, every snapshot in the log satisfies heap[floor((j-1)/2)].value <= heap[j].value |
| Correctness.RestrictedReportsKthLargest | script.js:255-260 | for k <= 3 or k equal to the input length, the reported kthLargest is the k-th largest input element |
| Correctness.RestrictedCasesCorrect | script.js:206-262 | both of the above together |
| Correctness.KIsOneReportsMaximum | script.js:255-260 | with k = 1 the reported value is an input element no smaller than any other |
| Correctness.KIsLengthReportsMinimum | script.js:238-260 | with k equal to the input length nothing is removed and the reported value is an input element no larger than any other |
| Correctness.NextHeapAppends | script.js:225-226 | a pass whose new node is no smaller than its parent and which removes nothing appends the node unchanged |
| Correctness.NextHeapShiftsOnly | script.js:239-241 | a pass whose new node stays put, and after which the new front is no larger than its children, just drops index 0 |
| Correctness.HeapOrderedInputStays | script.js:219-236 | while the heap is not full and the input is heap-ordered, nothing is swapped and the heap is the input's nodes in order |
| Correctness.CounterexampleFirstSeven | script.js:219-236 | the counterexample's first seven elements give the heap [1, 2, 7, 3, 5, 8, 9] with ids 0..6 |
| Correctness.CounterexampleEighthPass | script.js:238-241 | pushing 6 and shifting gives [2, 7, 3, 5, 8, 9, 6] |
| Correctness.CounterexampleEighth | script.js:219-253 | the live heap after eight elements |
| Correctness.CounterexampleNinthRise | script.js:267-275 | pushing 4 onto that heap makes it rise two levels |
| Correctness.CounterexampleNinthSink | script.js:277-295 | after shift() one sift-down swap settles the front |
| Correctness.CounterexampleNinth | script.js:223-251 | the ninth pass gives [3, 4, 7, 8, 9, 6, 5] |
| Correctness.CounterexampleNinthHeap | script.js:219-253 | the live heap after nine elements |
| Correctness.CounterexampleTenthPass | script.js:238-241 | pushing 10 and shifting gives [4, 7, 8, 9, 6, 5, 10] |
| Correctness.CounterexampleTenth | script.js:219-253 | the live heap after ten elements |
| Correctness.CounterexampleEleventhPass | script.js:238-241 | pushing 11 and shifting gives [7, 8, 9, 6, 5, 10, 11] |
| Correctness.CounterexampleFinalHeap | script.js:219-253 | the live heap after all eleven elements is [7, 8, 9, 6, 5, 10, 11] |
| Correctness.FinalStepShowsShiftRun | script.js:255-260 | the final step shows the live heap and reports the value at its index 0 |
| Correctness.CounterexampleRanks | script.js:255-260 | in the counterexample input, 5 is the 7th largest element and 7 is not |
| Correctness.ShiftRemovalGoesWrong | script.js:240-241 | for the counterexample with k = 7, the final snapshot is [7, 8, 9, 6, 5, 10, 11]; it is not a min-heap; it reports 7, which is not the 7th largest, and 5 is |
| Correctness.LastToRootBreaksOnlyRoot | script.js:240-241 | moving the last node of a min-heap to the root breaks the heap property only below the root |
| Correctness.EvictMinPermutes | script.js:240-241 | the textbook removal drops exactly the node at index 0 |
| Correctness.EvictMinKeepsHeap | script.js:240-241 | the textbook removal leaves a min-heap holding every node but the one at index 0 |
| Correctness.FixedNextHeapRetains | script.js:219-252 | with textbook removal one pass keeps a min-heap with the invariant, for every k |
| Correctness.FixedRunRetains | script.js:219-253 | with textbook removal the heap is always a min-heap with the invariant, for every k |
| Correctness.FixedRunFindsKthLargest | script.js:240-241 | with textbook removal, index 0 after the whole input holds the k-th largest element, for every 1 <= k <= n |
| Visualizer.CheckInput | script.js:70-78 | the start button accepts exactly 1 <= size <= 30 and 1 <= k <= size; it rejects the size exactly when it is out of range, and rejects k only when the size is in range |
| Visualizer.AcceptedInputHasRoot | script.js:255-262 | an accepted input gives a final heap with a node at index 0, and a log of at most 61 steps |
| Visualizer.StepForward | script.js:687-692 | next moves the cursor one step on if and only if it is before the last step, and keeps it within the log |
| Visualizer.StepBack | script.js:694-699 | prev moves the cursor one step back if and only if it is after the first step, and never below 0 |
| Visualizer.BackUndoesForward | script.js:687-699 | prev undoes next wherever next moved |
| Visualizer.ForwardUndoesBack | script.js:687-699 | next undoes prev wherever prev moved |
| Visualizer.ForwardPressesFromStart | script.js:687-692 | from the first step, pressing next p times shows step min(p, length - 1) |
| Visualizer.ForwardPressesFrom | script.js:687-692 | from step c, pressing next p times shows step min(c + p, length - 1) |
| Visualizer.Push | script.js:225 | the array after push() holds the old nodes followed by the new one |
| Visualizer.Shift | script.js:240 | shift() returns the node at index 0, and the array afterwards holds the remaining nodes, one index to the left |
| Visualizer.AddNode | script.js:223-236 | step 1 of the loop body leaves the array holding the add step's heap, and the add step is AddStepOf the heap before it |
| Visualizer.RemoveFront | script.js:238-251 | step 2 of the loop body leaves the array holding the remove step's heap, and the remove step is RemoveStepOf the add step |
| Visualizer.RecordElement | script.js:219-252 | one pass of the loop body yields the heap and log of Process |
| Visualizer.Visualizer.constructor | script.js:7-8 | before the first run the log is empty and the cursor is at 0 |
| Visualizer.Visualizer.SimulateAlgorithm | script.js:206-265 | the loop records exactly SimulationSteps(input, k), and the cursor ends at 0 within the log |
| Visualizer.Visualizer.Next | script.js:687-692 | the next button moves the cursor as StepForward does, leaves the log alone, and keeps the cursor within the log |
| Visualizer.Visualizer.Prev | script.js:694-699 | the prev button moves the cursor as StepBack does, leaves the log alone, and keeps the cursor within the log |

## Left out

- Rendering is not modelled: the Three.js scene, meshes, text, arrows,
  tree layout, colours, code-line highlighting and `updateVisualization`
  (the call after each button press). It is presentation only, and the
  tree layout uses floating point.
- Font loading and enabling the buttons are not modelled. They are network
  I/O and DOM callbacks.
- The random input array (script.js:129-132) is not modelled.
  `SimulateAlgorithm` takes the input as a parameter.
- `parseInt`, the `isNaN` tests and `alert` in the start handler are not
  modelled. `CheckInput` takes the two parsed integers and returns a verdict
  instead of showing a message.
- The start handler's other work is not modelled: it resets `steps` and
  `currentStep` (script.js:139-140) and builds the scene. The constructor
  stands for the initial state.
- Visualizer.Push: `push()` grows the same array object in place. The model
  allocates a fresh array with the same contents. Nothing else refers to the
  heap array, so no aliasing is lost.
- Visualizer.Shift: `shift()` moves the nodes within the same array object.
  The model allocates a fresh array with the remaining nodes.
- Simulation.Step: each JavaScript step object carries only its kind's
  fields (`added`/`addedNodeId`, `removed`/`removedNodeId`,
  `found`/`kthLargest`). The model gathers them in `Action`.
- Simulation.Step: the start and final steps have no `swaps` field in the
  source. The model gives them an empty swap list.
- Simulation.Step: the final step has no `action` field in the source. The
  model marks it `Found`.
- Visualizer.Visualizer.SimulateAlgorithm requires a non-empty input and
  k >= 1. With an empty input or k = 0, line 260 reads `minHeap[0].value`
  of an empty array and throws. The bounds check at script.js:70-78 rules
  both out, as `AcceptedInputHasRoot` shows.
- MinHeap.SiftDownStops: the claim that after `heapifyDown` the node at the
  start index is no larger than its in-range children is guaranteed only
  when the subtrees below were heaps (`SiftDownRestoresHeap`).
  `SiftDownStartMayExceedChild` gives an input where it fails. What holds
  for every input is stated for the position where the sifted node stops.
- Values are JavaScript numbers, which are doubles. They are modelled as
  unbounded integers. The page only generates small whole numbers, for
  which the comparisons agree exactly.
- `Math.floor((index - 1) / 2)` is used only for index >= 1, where it
  equals Dafny's integer division.

## Findings

| source | as written | input that shows it | evidently intended | confidence | as-written member | corrected member |
|---|---|---|---|---|---|---|
| script.js:240-241 | `shift()` drops index 0 and moves every node one index left, then `heapifyDown(minHeap, 0, swaps)` repairs only the path from the root, so the array is no longer a heap and index 0 need not hold the minimum | [1, 2, 7, 3, 5, 8, 9, 6, 4, 10, 11] with k = 7: the final heap is [7, 8, 9, 6, 5, 10, 11] and the page reports 7, while the 7th largest element is 5 | remove the minimum by moving the last node to index 0 and sifting down from there, which reports the k-th largest element for every k | not executed | Correctness.ShiftRemovalGoesWrong | Correctness.FixedRunFindsKthLargest |

The step log keeps the behaviour as written, because it is what the page
shows. The corrected removal is `EvictMin`. `FixedNextHeap` and `FixedRun`
are built on it, and the lemmas above prove it correct for every k.
