/**
 * What simulateAlgorithm records, as a function of the input array and k.
 *
 * The step log opens with a `start` step.  Each input element is pushed as a
 * node whose id is its input position, sifted up, and recorded in an `add`
 * step; whenever the heap then holds more than k nodes, the node at index 0
 * is removed with `shift()` (every other node moves one index left), the heap
 * is sifted down from index 0, and a `remove` step is recorded whose swap
 * list is the element's sift-up swaps followed by the sift-down swaps (one
 * swap list serves both phases).  A final step reports the value at index 0.
 */
module Simulation {
  import opened MinHeap

  /** The kind of a step and the fields that go with it. */
  datatype Action =
    | Start
    | Add(added: int, addedNodeId: int)
    | Remove(removed: int, removedNodeId: int)
    | Found(kthLargest: int)

  /** One recorded step: the input position, a heap snapshot, what happened,
      the swaps shown with it and the pseudo-code line to highlight. */
  datatype Step = Step(index: int, heap: seq<Node>, action: Action, swaps: seq<Swap>, codeLine: int)

  /** The live heap and the step log part-way through the loop. */
  datatype Progress = Progress(heap: seq<Node>, steps: seq<Step>)

  const StartStep: Step := Step(-1, [], Start, [], 4)

  function Min(x: int, y: int): int { if x <= y then x else y }

  function Max(x: int, y: int): int { if x >= y then x else y }

  /** Where the add step of input position i stands in the log: after the
      start step, the i earlier add steps and the remove steps of the earlier
      positions that were at least k. */
  function AddPosition(i: nat, k: nat): nat {
    1 + i + Max(0, i - k)
  }

  /** The set of ids in a heap. */
  ghost function Ids(h: seq<Node>): set<int> {
    set x | x in h :: x.id
  }

  /** The add step for pushing `num`, created with id i, onto heap h and sifting it up. */
  function AddStepOf(h: seq<Node>, num: int, i: nat): (add: Step)
    ensures add.index == i && add.action == Add(num, i) && add.codeLine == 8
    ensures |add.heap| == |h| + 1
  {
    var up := SiftUp(h + [Node(num, i)], |h|);
    Step(i, up.heap, Add(num, i), up.swaps, 8)
  }

  /** The remove step that follows `add`: shift() then heapifyDown from index 0,
      with the add step's swap list continued. */
  function RemoveStepOf(add: Step, i: nat): (rm: Step)
    requires |add.heap| > 0
    ensures rm.index == i && rm.action == Remove(add.heap[0].value, add.heap[0].id) && rm.codeLine == 11
    ensures |rm.heap| == |add.heap| - 1
    ensures add.swaps <= rm.swaps
  {
    var down := SiftDown(add.heap[1..], 0);
    Step(i, down.heap, Remove(add.heap[0].value, add.heap[0].id), add.swaps + down.swaps, 11)
  }

  /** One pass of the loop body for element `num` at input position i. */
  function Process(p: Progress, num: int, i: nat, k: nat): (r: Progress)
    requires |p.heap| <= k
    ensures p.steps <= r.steps
    ensures |r.steps| == |p.steps| + (if |p.heap| >= k then 2 else 1)
    ensures |r.heap| == Min(|p.heap| + 1, k)
    ensures r.steps[|r.steps| - 1].heap == r.heap
  {
    var add := AddStepOf(p.heap, num, i);
    if |add.heap| > k then
      var remove := RemoveStepOf(add, i);
      Progress(remove.heap, p.steps + [add, remove])
    else
      Progress(add.heap, p.steps + [add])
  }

  /** An add step holds the previous heap's nodes and the new one, and replaying
      its swaps on the previous heap with the new node pushed gives its heap. */
  lemma AddStepFacts(h: seq<Node>, num: int, i: nat)
    ensures var add := AddStepOf(h, num, i);
            && add.index == i && add.action == Add(num, i) && add.codeLine == 8
            && |add.heap| == |h| + 1
            && InRange(add.swaps, |h| + 1)
            && ApplySwaps(h + [Node(num, i)], add.swaps) == add.heap
            && multiset(add.heap) == multiset(h) + multiset{Node(num, i)}
  {
    var pushed := h + [Node(num, i)];
    SiftUpReplays(pushed, |h|);
    SiftUpPermutes(pushed, |h|);
    assert multiset(pushed) == multiset(h) + multiset{Node(num, i)};
  }

  /** A remove step removes the add step's node at index 0, lists the add
      step's swaps first, and the rest, replayed on the add step's heap after
      shift(), give its heap. */
  lemma RemoveStepFacts(add: Step, i: nat)
    requires |add.heap| > 0
    ensures var rm := RemoveStepOf(add, i);
            && rm.index == i && rm.codeLine == 11
            && rm.action == Remove(add.heap[0].value, add.heap[0].id)
            && |rm.heap| == |add.heap| - 1
            && add.swaps <= rm.swaps
            && InRange(rm.swaps[|add.swaps|..], |add.heap| - 1)
            && ApplySwaps(add.heap[1..], rm.swaps[|add.swaps|..]) == rm.heap
            && multiset(rm.heap) == multiset(add.heap[1..])
  {
    var rm := RemoveStepOf(add, i);
    SiftDownReplays(add.heap[1..], 0);
    SiftDownPermutes(add.heap[1..], 0);
    assert rm.swaps[|add.swaps|..] == SiftDown(add.heap[1..], 0).swaps;
  }

  /** The state after the loop has processed the first n elements of a. */
  function RunPrefix(a: seq<int>, k: nat, n: nat): (r: Progress)
    requires n <= |a|
    ensures |r.heap| == Min(n, k)
    ensures |r.steps| == AddPosition(n, k)
    ensures r.steps[0] == StartStep
    ensures r.steps[|r.steps| - 1].heap == r.heap
    decreases n
  {
    if n == 0 then Progress([], [StartStep])
    else Process(RunPrefix(a, k, n - 1), a[n - 1], n - 1, k)
  }

  /** The pass for input position i extends the state after the first i elements. */
  lemma RunPrefixAfter(a: seq<int>, k: nat, i: nat)
    requires i < |a|
    ensures RunPrefix(a, k, i + 1) == Process(RunPrefix(a, k, i), a[i], i, k)
  {
  }

  /** The whole step log of simulateAlgorithm(a, k). */
  function SimulationSteps(a: seq<int>, k: nat): (steps: seq<Step>)
    requires |a| >= 1 && k >= 1
    ensures |steps| == |a| + Max(0, |a| - k) + 2
    ensures steps[0] == StartStep
    ensures steps[|steps| - 1].index == |a|
    ensures |steps[|steps| - 1].heap| == Min(|a|, k)
    ensures steps[|steps| - 1].action == Found(steps[|steps| - 1].heap[0].value)
  {
    var p := RunPrefix(a, k, |a|);
    p.steps + [Step(|a|, p.heap, Found(p.heap[0].value), [], 15)]
  }

  lemma PrefixTransitive(x: seq<Step>, y: seq<Step>, z: seq<Step>)
    requires x <= y && y <= z
    ensures x <= z
  {
    assert forall t :: 0 <= t < |x| ==> x[t] == y[t] == z[t];
  }

  lemma OneMoreElementAppends(a: seq<int>, k: nat, n: nat)
    requires n < |a|
    ensures RunPrefix(a, k, n).steps <= RunPrefix(a, k, n + 1).steps
  {
    RunPrefixAfter(a, k, n);
  }

  /** In a chain of logs each extending the one before, a later one extends an earlier one. */
  lemma {:induction false} ChainExtends(logs: seq<seq<Step>>, m: nat, n: nat)
    requires m <= n < |logs|
    requires forall i :: 0 <= i < |logs| - 1 ==> logs[i] <= logs[i + 1]
    ensures logs[m] <= logs[n]
    decreases n
  {
    if m < n {
      ChainExtends(logs, m, n - 1);
      PrefixTransitive(logs[m], logs[n - 1], logs[n]);
    }
  }

  /** Processing more elements only appends steps: a recorded step is never changed. */
  lemma {:induction false} RecordedStepsStay(a: seq<int>, k: nat, m: nat, n: nat)
    requires m <= n <= |a|
    ensures RunPrefix(a, k, m).steps <= RunPrefix(a, k, n).steps
  {
    var logs := seq(|a| + 1, i requires 0 <= i <= |a| => RunPrefix(a, k, i).steps);
    forall i | 0 <= i < |logs| - 1
      ensures logs[i] <= logs[i + 1]
    {
      OneMoreElementAppends(a, k, i);
    }
    ChainExtends(logs, m, n);
  }

  /** The steps element i contributes, read off RunPrefix(a, k, i + 1). */
  lemma ElementSteps(a: seq<int>, k: nat, i: nat)
    requires k >= 1 && i < |a|
    ensures var before := RunPrefix(a, k, i);
            var after := RunPrefix(a, k, i + 1);
            var p := AddPosition(i, k);
            && |before.steps| == p
            && before.steps <= after.steps
            && after.steps[p - 1].heap == before.heap
            && after.steps[p] == AddStepOf(before.heap, a[i], i)
            && (i >= k <==> |after.steps| == p + 2)
            && (i >= k ==> |after.steps[p].heap| > 0 && after.steps[p + 1] == RemoveStepOf(after.steps[p], i))
  {
  }

  /** Every step of RunPrefix(a, k, n) is a step of the full log. */
  lemma PrefixOfLog(a: seq<int>, k: nat, n: nat)
    requires |a| >= 1 && k >= 1 && n <= |a|
    ensures RunPrefix(a, k, n).steps <= SimulationSteps(a, k)
  {
    RecordedStepsStay(a, k, n, |a|);
  }

  /** Where the steps of element i stand in the full log. */
  lemma ElementStepsInLog(a: seq<int>, k: nat, i: nat)
    requires k >= 1 && i < |a|
    ensures var s := SimulationSteps(a, k);
            var p := AddPosition(i, k);
            && 0 < p && p + 1 < |s|
            && s[p - 1].heap == RunPrefix(a, k, i).heap
            && s[p] == AddStepOf(s[p - 1].heap, a[i], i)
            && (i >= k ==> p + 2 < |s| && |s[p].heap| > 0 && s[p + 1] == RemoveStepOf(s[p], i))
  {
    ElementSteps(a, k, i);
    PrefixOfLog(a, k, i + 1);
    var s := SimulationSteps(a, k);
    var after := RunPrefix(a, k, i + 1);
    assert forall t :: 0 <= t < |after.steps| ==> s[t] == after.steps[t];
  }

  /**
   * The add step of input position i: it records position i, the value
   * a[i] and the id i; its heap is one node larger than the previous step's,
   * holds the previous step's nodes and the new one, and is what replaying
   * its swaps on the previous step's heap with the new node pushed at the end
   * gives.
   */
  lemma AddStepAt(a: seq<int>, k: nat, i: nat)
    requires k >= 1 && i < |a|
    ensures var s := SimulationSteps(a, k);
            var p := AddPosition(i, k);
            && 0 < p && p + 1 < |s|
            && s[p].index == i && s[p].action == Add(a[i], i) && s[p].codeLine == 8
            && |s[p].heap| == Min(i, k) + 1
            && |s[p - 1].heap| + 1 == |s[p].heap|
            && InRange(s[p].swaps, |s[p].heap|)
            && ApplySwaps(s[p - 1].heap + [Node(a[i], i)], s[p].swaps) == s[p].heap
            && multiset(s[p].heap) == multiset(s[p - 1].heap) + multiset{Node(a[i], i)}
  {
    ElementStepsInLog(a, k, i);
    var s := SimulationSteps(a, k);
    AddStepFacts(s[AddPosition(i, k) - 1].heap, a[i], i);
  }

  /**
   * The step after the add step of position i is a remove step exactly when
   * i >= k; otherwise it is the next position's add step or the final step.
   */
  lemma RemoveStepIff(a: seq<int>, k: nat, i: nat)
    requires k >= 1 && i < |a|
    ensures var s := SimulationSteps(a, k);
            var p := AddPosition(i, k);
            && p + 1 < |s|
            && (s[p + 1].action.Remove? <==> i >= k)
            && AddPosition(i + 1, k) == p + (if i >= k then 2 else 1)
  {
    var s := SimulationSteps(a, k);
    var p := AddPosition(i, k);
    ElementStepsInLog(a, k, i);
    if i < k {
      if i + 1 < |a| {
        ElementStepsInLog(a, k, i + 1);
        assert s[p + 1] == AddStepOf(s[p].heap, a[i + 1], i + 1);
      } else {
        assert s[p + 1] == s[|s| - 1];
      }
    }
  }

  /**
   * The remove step of input position i >= k: it removes the node that stood
   * at index 0 of the add step's heap, leaves k nodes, lists the add step's
   * swaps first, and the rest of its swaps, replayed on the add step's heap
   * after `shift()`, give its heap.
   */
  lemma RemoveStepAt(a: seq<int>, k: nat, i: nat)
    requires 1 <= k <= i < |a|
    ensures var s := SimulationSteps(a, k);
            var p := AddPosition(i, k);
            && p + 2 < |s|
            && |s[p].heap| == k + 1
            && s[p + 1].index == i && s[p + 1].codeLine == 11
            && s[p + 1].action == Remove(s[p].heap[0].value, s[p].heap[0].id)
            && |s[p + 1].heap| == k
            && s[p].swaps <= s[p + 1].swaps
            && InRange(s[p + 1].swaps[|s[p].swaps|..], k)
            && ApplySwaps(s[p].heap[1..], s[p + 1].swaps[|s[p].swaps|..]) == s[p + 1].heap
            && multiset(s[p + 1].heap) == multiset(s[p].heap[1..])
  {
    ElementStepsInLog(a, k, i);
    AddStepAt(a, k, i);
    var s := SimulationSteps(a, k);
    RemoveStepFacts(s[AddPosition(i, k)], i);
  }
}
