/**
 * The page's state: the step log that simulateAlgorithm fills and the cursor
 * that the next/prev buttons move over it, together with the bounds the start
 * button checks before a run.
 *
 * The live heap is an array that heapifyUp and heapifyDown rearrange in
 * place.  A JavaScript array grows with push() and drops its front with
 * shift(); here each of those allocates the next array, holding the same
 * nodes as the array after the JavaScript call.
 */
module Visualizer {
  import opened MinHeap
  import opened Simulation

  /** The largest array size the start button accepts. */
  const MaxArraySize: int := 30

  /** The start button's verdict on the requested array size and k. */
  datatype InputCheck = Accepted | InvalidArraySize | InvalidK

  /** The bounds check of the start button: the size comes first, then k. */
  function CheckInput(size: int, k: int): (r: InputCheck)
    ensures r == Accepted <==> 1 <= size <= MaxArraySize && 1 <= k <= size
    ensures r == InvalidArraySize <==> size < 1 || size > MaxArraySize
    ensures r == InvalidK ==> 1 <= size <= MaxArraySize && (k < 1 || k > size)
  {
    if size < 1 || size > MaxArraySize then InvalidArraySize
    else if k < 1 || k > size then InvalidK
    else Accepted
  }

  /** An accepted run has a node at index 0 when the final step reads it,
      and its log is at most 2 * MaxArraySize + 1 steps long. */
  lemma AcceptedInputHasRoot(a: seq<int>, k: int)
    requires CheckInput(|a|, k) == Accepted
    ensures |a| >= 1 && k >= 1
    ensures |RunPrefix(a, k, |a|).heap| >= 1
    ensures |SimulationSteps(a, k)| <= 2 * MaxArraySize + 1
  {
  }

  /** The cursor after the next button: one step on, unless it is at the last step. */
  function StepForward(current: int, count: int): (r: int)
    ensures r == current + 1 <==> current < count - 1
    ensures r == current <==> current >= count - 1
    ensures 0 <= current < count ==> 0 <= r < count
  {
    if current < count - 1 then current + 1 else current
  }

  /** The cursor after the prev button: one step back, unless it is at the first step. */
  function StepBack(current: int): (r: int)
    ensures r == current - 1 <==> current > 0
    ensures r == current <==> current <= 0
    ensures 0 <= current ==> 0 <= r <= current
  {
    if current > 0 then current - 1 else current
  }

  /** prev undoes next wherever next moved the cursor. */
  lemma BackUndoesForward(current: int, count: int)
    requires 0 <= current < count - 1
    ensures StepBack(StepForward(current, count)) == current
  {
  }

  /** next undoes prev wherever prev moved the cursor, within the log. */
  lemma ForwardUndoesBack(current: int, count: int)
    requires 0 < current < count
    ensures StepForward(StepBack(current), count) == current
  {
  }

  /** The cursor after pressing next `presses` times. */
  function ForwardPresses(current: int, count: int, presses: nat): int
    decreases presses
  {
    if presses == 0 then current else ForwardPresses(StepForward(current, count), count, presses - 1)
  }

  /** From the first step, next reaches every step of the log in order and
      then stays on the last one. */
  lemma {:induction false} ForwardPressesFromStart(count: int, presses: nat)
    requires count >= 1
    ensures ForwardPresses(0, count, presses) == Min(presses, count - 1)
  {
    ForwardPressesFrom(0, count, presses);
  }

  lemma {:induction false} ForwardPressesFrom(current: int, count: int, presses: nat)
    requires 0 <= current < count
    ensures ForwardPresses(current, count, presses) == Min(current + presses, count - 1)
    decreases presses
  {
    if presses > 0 {
      ForwardPressesFrom(StepForward(current, count), count, presses - 1);
    }
  }

  /** A copy of `heap` with `node` added at the end (Array.prototype.push). */
  method Push(heap: array<Node>, node: Node) returns (grown: array<Node>)
    ensures fresh(grown)
    ensures grown[..] == heap[..] + [node]
  {
    grown := new Node[heap.Length + 1](j requires 0 <= j <= heap.Length reads heap =>
      if j < heap.Length then heap[j] else node);
  }

  /** The node at index 0 and a copy of `heap` with every other node one index
      to the left (Array.prototype.shift). */
  method Shift(heap: array<Node>) returns (front: Node, rest: array<Node>)
    requires heap.Length > 0
    ensures front == heap[0]
    ensures fresh(rest)
    ensures rest[..] == heap[1..]
  {
    front := heap[0];
    rest := new Node[heap.Length - 1](j requires 0 <= j < heap.Length - 1 reads heap => heap[j + 1]);
  }

  /**
   * Step 1 of the loop body: push the node for input position `index` with
   * id `addedNodeId`, sift it up with a fresh swap list and snapshot the heap
   * in an add step.
   */
  method AddNode(minHeap: array<Node>, num: int, index: nat, addedNodeId: int)
    returns (grown: array<Node>, add: Step)
    requires addedNodeId == index
    ensures fresh(grown)
    ensures add == AddStepOf(minHeap[..], num, index)
    ensures grown[..] == add.heap
  {
    grown := Push(minHeap, Node(num, addedNodeId));
    ghost var pushed := grown[..];
    var swaps := HeapifyUp(grown, grown.Length - 1, []);
    add := Step(index, DeepCopyHeap(grown), Add(num, addedNodeId), swaps, 8);
    assert add.heap == SiftUp(pushed, |minHeap[..]|).heap;
  }

  /**
   * Step 2 of the loop body: shift() the node at index 0 off the heap, sift
   * down from index 0 continuing the add step's swap list, and snapshot the
   * heap in a remove step.
   */
  method RemoveFront(minHeap: array<Node>, add: Step, index: nat)
    returns (rest: array<Node>, remove: Step)
    requires minHeap.Length > 0 && minHeap[..] == add.heap
    ensures fresh(rest)
    ensures remove == RemoveStepOf(add, index)
    ensures rest[..] == remove.heap
  {
    var removedNode;
    removedNode, rest := Shift(minHeap);
    var swaps := HeapifyDown(rest, 0, add.swaps);
    remove := Step(index, DeepCopyHeap(rest), Remove(removedNode.value, removedNode.id), swaps, 11);
  }

  /**
   * One pass of the loop body for input position `index`: step 1, then
   * step 2 when the heap has grown past k nodes.
   */
  method RecordElement(minHeap: array<Node>, log: seq<Step>, num: int, index: nat, addedNodeId: int, k: nat)
    returns (heap: array<Node>, logged: seq<Step>)
    requires addedNodeId == index && minHeap.Length <= k
    ensures fresh(heap)
    ensures Progress(heap[..], logged) == Process(Progress(minHeap[..], log), num, index, k)
  {
    var addStep;
    heap, addStep := AddNode(minHeap, num, index, addedNodeId);
    logged := log + [addStep];
    if heap.Length > k {
      var removeStep;
      heap, removeStep := RemoveFront(heap, addStep, index);
      logged := logged + [removeStep];
    }
  }

  /** The page's recorded steps and the step on show. */
  class Visualizer {
    var steps: seq<Step>
    var currentStep: int

    /** Before the first run the log is empty and the cursor is at 0. */
    constructor ()
      ensures steps == [] && currentStep == 0
    {
      steps := [];
      currentStep := 0;
    }

    /** The cursor points at a recorded step. */
    ghost predicate CursorInRange()
      reads this
    {
      0 <= currentStep < |steps|
    }

    /**
     * simulateAlgorithm: runs the bounded min-heap over `input`, records the
     * step log and puts the cursor on its first step.  The start button only
     * calls it with 1 <= |input| and 1 <= k, which is what makes index 0 of
     * the final heap exist.
     */
    method SimulateAlgorithm(input: seq<int>, k: int)
      requires |input| >= 1 && k >= 1
      modifies this
      ensures steps == SimulationSteps(input, k)
      ensures currentStep == 0
      ensures CursorInRange()
    {
      var minHeap := new Node[0];
      var log := [StartStep];
      var nodeIdCounter := 0;
      for i := 0 to |input|
        invariant fresh(minHeap)
        invariant nodeIdCounter == i
        invariant Progress(minHeap[..], log) == RunPrefix(input, k, i)
      {
        RunPrefixAfter(input, k, i);
        minHeap, log := RecordElement(minHeap, log, input[i], i, nodeIdCounter, k);
        nodeIdCounter := nodeIdCounter + 1;
      }
      log := log + [Step(|input|, DeepCopyHeap(minHeap), Found(minHeap[0].value), [], 15)];
      steps := log;
      currentStep := 0;
    }

    /** The next button. */
    method Next()
      modifies this
      ensures steps == old(steps)
      ensures currentStep == StepForward(old(currentStep), |steps|)
      ensures old(CursorInRange()) ==> CursorInRange()
    {
      if currentStep < |steps| - 1 {
        currentStep := currentStep + 1;
      }
    }

    /** The prev button. */
    method Prev()
      modifies this
      ensures steps == old(steps)
      ensures currentStep == StepBack(old(currentStep))
      ensures old(CursorInRange()) ==> CursorInRange()
    {
      if currentStep > 0 {
        currentStep := currentStep - 1;
      }
    }
  }
}
