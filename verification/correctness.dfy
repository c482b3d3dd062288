/**
 * What the final step's `kthLargest` means, and when it is right.
 *
 * The heap keeps the k largest elements seen so far only if every removal
 * takes the smallest node, and the node at index 0 is the smallest only
 * while the array is a heap.  `shift()` moves every node one index left, so
 * after a removal the array is a heap again only in two cases: when at most
 * three nodes remain (sift-down from the root then fixes any order), or when
 * no removal ever happens (k equals the input length).  Both cases are
 * proved correct here; for other k the answer can be wrong, as the input
 * [1, 2, 7, 3, 5, 8, 9, 6, 4, 10, 11] with k = 7 shows.  The textbook
 * removal (move the last node to the root, then sift down) is proved right
 * for every k.
 */
module Correctness {
  import opened MinHeap
  import opened Simulation

  /** Input positions whose element exceeds v. */
  ghost function Above(a: seq<int>, v: int): set<int> {
    set j | 0 <= j < |a| && a[j] > v
  }

  /** Input positions whose element is at least v. */
  ghost function AtLeast(a: seq<int>, v: int): set<int> {
    set j | 0 <= j < |a| && a[j] >= v
  }

  /** v is the k-th largest element of a (counting repeats): fewer than k
      elements exceed it and at least k are no smaller. */
  ghost predicate IsKthLargest(a: seq<int>, k: nat, v: int) {
    |Above(a, v)| < k <= |AtLeast(a, v)|
  }

  lemma SubsetCard<T>(x: set<T>, y: set<T>)
    requires x <= y
    ensures |x| <= |y|
  {
    assert y == x + (y - x);
  }

  /** The k-th largest element, when it exists, is unique. */
  lemma KthLargestUnique(a: seq<int>, k: nat, v: int, w: int)
    requires IsKthLargest(a, k, v) && IsKthLargest(a, k, w)
    ensures v == w
  {
    if v < w {
      SubsetCard(AtLeast(a, w), Above(a, v));
    } else if w < v {
      SubsetCard(AtLeast(a, v), Above(a, w));
    }
  }

  lemma {:induction false} IdsCard(h: seq<Node>)
    ensures |Ids(h)| <= |h|
  {
    if h != [] {
      IdsCard(h[1..]);
      assert Ids(h) == {h[0].id} + Ids(h[1..]) by {
        assert forall x :: x in h <==> x == h[0] || x in h[1..];
      }
    }
  }

  lemma IdsAppend(h: seq<Node>, x: Node)
    ensures Ids(h + [x]) == Ids(h) + {x.id}
  {
    assert forall y :: y in h + [x] <==> y in h || y == x;
  }

  lemma IdsSameNodes(s: seq<Node>, t: seq<Node>)
    requires multiset(s) == multiset(t)
    ensures Ids(s) == Ids(t)
  {
    assert forall y :: y in s <==> y in multiset(s);
    assert forall y :: y in t <==> y in multiset(t);
  }

  /** With distinct ids, dropping the first node drops exactly its id. */
  lemma IdsTail(h: seq<Node>)
    requires |h| > 0 && |Ids(h)| == |h|
    ensures Ids(h[1..]) == Ids(h) - {h[0].id}
    ensures |Ids(h[1..])| == |h| - 1
  {
    assert Ids(h) == {h[0].id} + Ids(h[1..]) by {
      assert forall x :: x in h <==> x == h[0] || x in h[1..];
    }
    IdsCard(h[1..]);
  }

  /** Every node of h is one of the nodes of g. */
  lemma NodesOfSameMultiset(h: seq<Node>, g: seq<Node>)
    requires multiset(h) == multiset(g)
    ensures |h| == |g|
    ensures forall y :: y in h <==> y in g
  {
    assert |multiset(h)| == |multiset(g)|;
    assert forall y :: y in h <==> y in multiset(h);
    assert forall y :: y in g <==> y in multiset(g);
  }

  /** The nodes an input position was made into are drawn from the input. */
  ghost predicate Drawn(a: seq<int>, n: nat, h: seq<Node>)
    requires n <= |a|
  {
    forall x | x in h :: 0 <= x.id < n && x.value == a[x.id]
  }

  /** Every position before n that is no longer in h holds a value no larger
      than any node of h. */
  ghost predicate Dominates(a: seq<int>, n: nat, h: seq<Node>)
    requires n <= |a|
  {
    forall j, x | 0 <= j < n && j !in Ids(h) && x in h :: a[j] <= x.value
  }

  /** Every node of h was created from one of the first n input positions,
      and no two nodes share an id. */
  ghost predicate Labelled(a: seq<int>, n: nat, h: seq<Node>) {
    n <= |a| && Drawn(a, n, h) && |Ids(h)| == |h|
  }

  /**
   * After n elements the heap retains the right nodes: min(n, k) of them,
   * each created from its input position (id j, value a[j]), with distinct
   * ids; all of them while n <= k; and every position no longer in the heap
   * holds a value no larger than any node in it.
   */
  ghost predicate Retains(a: seq<int>, n: nat, k: nat, h: seq<Node>)
    requires n <= |a|
  {
    && |h| == Min(n, k)
    && Drawn(a, n, h)
    && |Ids(h)| == |h|
    && (n <= k ==> forall j | 0 <= j < n :: j in Ids(h))
    && Dominates(a, n, h)
  }

  /** The live heap after n elements is a min-heap that retains the right nodes. */
  ghost predicate Sound(a: seq<int>, k: nat, n: nat, h: seq<Node>) {
    n <= |a| && IsMinHeap(h) && Retains(a, n, k, h)
  }

  /** A sequence of heaps, one per prefix of a, whose first is sound and each
      of whose passes keeps soundness, is sound throughout. */
  lemma {:induction false} SoundAlong(a: seq<int>, k: nat, heaps: seq<seq<Node>>, n: nat)
    requires n < |heaps| && Sound(a, k, 0, heaps[0])
    requires forall i :: 0 <= i < |heaps| - 1 && Sound(a, k, i, heaps[i]) ==> Sound(a, k, i + 1, heaps[i + 1])
    ensures Sound(a, k, n, heaps[n])
    decreases n
  {
    if n > 0 {
      SoundAlong(a, k, heaps, n - 1);
    }
  }

  /** The nodes after pushing element i: the old ones and the new one, with distinct ids. */
  lemma PushedNodes(a: seq<int>, n: nat, h: seq<Node>, h2: seq<Node>)
    requires 0 < n <= |a| && Labelled(a, n - 1, h)
    requires multiset(h2) == multiset(h + [Node(a[n - 1], n - 1)])
    ensures |h2| == |h| + 1
    ensures forall y :: y in h2 <==> y in h || y == Node(a[n - 1], n - 1)
    ensures n - 1 !in Ids(h)
    ensures Ids(h2) == Ids(h) + {n - 1}
    ensures |Ids(h2)| == |h2|
    ensures Drawn(a, n, h2)
  {
    var i := n - 1;
    var x := Node(a[i], i);
    IdsAppend(h, x);
    IdsSameNodes(h2, h + [x]);
    NodesOfSameMultiset(h2, h + [x]);
    assert forall y :: y in h + [x] <==> y in h || y == x;
  }

  /** A pass that pushes without removing keeps Retains. */
  lemma RetainsPush(a: seq<int>, k: nat, n: nat, h: seq<Node>, h2: seq<Node>)
    requires 0 < n <= |a| && Retains(a, n - 1, k, h)
    requires multiset(h2) == multiset(h + [Node(a[n - 1], n - 1)])
    requires |h2| <= k
    ensures Retains(a, n, k, h2)
  {
    var i := n - 1;
    PushedNodes(a, n, h, h2);
    assert forall j | 0 <= j < n :: j in Ids(h2);
  }

  /** The nodes left after pushing element n - 1 and then dropping the node
      at index 0: the old ones and the new one, less the dropped one. */
  lemma EvictedNodes(a: seq<int>, n: nat, h: seq<Node>, h2: seq<Node>, h3: seq<Node>)
    requires 0 < n <= |a| && Labelled(a, n - 1, h)
    requires multiset(h2) == multiset(h + [Node(a[n - 1], n - 1)])
    requires |h2| > 0 && multiset(h3) == multiset(h2[1..])
    ensures |h3| == |h|
    ensures forall y :: y in h3 ==> y in h2
    ensures Ids(h3) == Ids(h) + {n - 1} - {h2[0].id}
    ensures |Ids(h3)| == |h3|
    ensures Drawn(a, n, h3)
  {
    PushedNodes(a, n, h, h2);
    IdsTail(h2);
    IdsSameNodes(h3, h2[1..]);
    NodesOfSameMultiset(h3, h2[1..]);
    assert forall y :: y in h2[1..] ==> y in h2;
  }

  /** A pass that pushes and then removes the minimum keeps Retains. */
  lemma RetainsEvict(a: seq<int>, k: nat, n: nat, h: seq<Node>, h2: seq<Node>, h3: seq<Node>)
    requires 0 < n <= |a| && Retains(a, n - 1, k, h)
    requires multiset(h2) == multiset(h + [Node(a[n - 1], n - 1)])
    requires IsMinHeap(h2) && |h2| > k
    requires multiset(h3) == multiset(h2[1..])
    ensures Retains(a, n, k, h3)
  {
    var i := n - 1;
    var x := Node(a[i], i);
    PushedNodes(a, n, h, h2);
    EvictedNodes(a, n, h, h2, h3);
    var m := h2[0];
    HeapRootIsLeast(h2);
    forall j, y | 0 <= j < n && j !in Ids(h3) && y in h3
      ensures a[j] <= y.value
    {
      if j == m.id {
        assert m in h2;
      } else {
        assert j < i && j !in Ids(h);
        if y != x {
          assert y in h;
        } else {
          assert i in Ids(h3);
          assert m != x && m in h;
        }
      }
    }
  }

  /** A heap that retains the right nodes after the whole input reports the
      k-th largest element at index 0. */
  lemma RetainsGivesKthLargest(a: seq<int>, k: nat, h: seq<Node>)
    requires 1 <= k <= |a|
    requires Retains(a, |a|, k, h) && IsMinHeap(h)
    ensures |h| == k && IsKthLargest(a, k, h[0].value)
  {
    var v := h[0].value;
    assert forall y | y in h :: v <= y.value by {
      forall y | y in h ensures v <= y.value {
        var t :| 0 <= t < |h| && h[t] == y;
        HeapRootIsMin(h, t);
      }
    }
    assert h[0] in h;
    assert Above(a, v) <= Ids(h) - {h[0].id};
    SubsetCard(Above(a, v), Ids(h) - {h[0].id});
    assert Ids(h) <= AtLeast(a, v);
    SubsetCard(Ids(h), AtLeast(a, v));
  }

  /** The live heap after one pass of simulateAlgorithm's loop: push the
      node for element num (id i) and sift it up; when the heap then holds
      more than k nodes, shift() and sift down from index 0.  This is the
      heap part of Process, kept apart from the step log so that proofs
      about the heap alone stay small; ShiftRunIsLoopHeap ties the two. */
  function NextHeap(h: seq<Node>, num: int, i: nat, k: nat): (r: seq<Node>)
    ensures |h| <= k ==> |r| == Min(|h| + 1, k)
  {
    var up := SiftUp(h + [Node(num, i)], |h|).heap;
    if |up| > k then SiftDown(up[1..], 0).heap else up
  }

  /** The live heap after n elements, pass by pass. */
  function ShiftRun(a: seq<int>, k: nat, n: nat): (h: seq<Node>)
    requires n <= |a|
    ensures |h| == Min(n, k)
    decreases n
  {
    if n == 0 then [] else NextHeap(ShiftRun(a, k, n - 1), a[n - 1], n - 1, k)
  }

  lemma LoopHeapStep(a: seq<int>, k: nat, i: nat)
    requires i < |a| && RunPrefix(a, k, i).heap == ShiftRun(a, k, i)
    ensures RunPrefix(a, k, i + 1).heap == ShiftRun(a, k, i + 1)
  {
    var q := RunPrefix(a, k, i);
    RunPrefixAfter(a, k, i);
    assert Process(q, a[i], i, k).heap == NextHeap(q.heap, a[i], i, k);
  }

  /** Two runs that start alike and take the same step from equal heaps end alike. */
  lemma {:induction false} SameStepsSameEnd(xs: seq<seq<Node>>, ys: seq<seq<Node>>, n: nat)
    requires n < |xs| && n < |ys| && xs[0] == ys[0]
    requires forall i :: 0 <= i < n && xs[i] == ys[i] ==> xs[i + 1] == ys[i + 1]
    ensures xs[n] == ys[n]
    decreases n
  {
    if n > 0 {
      SameStepsSameEnd(xs, ys, n - 1);
    }
  }

  /** ShiftRun is the live heap of the step log's loop. */
  lemma ShiftRunIsLoopHeap(a: seq<int>, k: nat, n: nat)
    requires n <= |a|
    ensures RunPrefix(a, k, n).heap == ShiftRun(a, k, n)
  {
    var xs := seq(n + 1, i requires 0 <= i <= n => RunPrefix(a, k, i).heap);
    var ys := seq(n + 1, i requires 0 <= i <= n => ShiftRun(a, k, i));
    forall i | 0 <= i < n && xs[i] == ys[i]
      ensures xs[i + 1] == ys[i + 1]
    {
      LoopHeapStep(a, k, i);
    }
    SameStepsSameEnd(xs, ys, n);
  }

  /** When k <= 3 or k is at least the input length, one pass keeps the live
      heap a min-heap that retains the right nodes. */
  lemma NextHeapRetains(a: seq<int>, k: nat, n: nat, h: seq<Node>)
    requires 1 <= k && 0 < n <= |a| && (k <= 3 || k >= |a|)
    requires IsMinHeap(h) && Retains(a, n - 1, k, h)
    ensures IsMinHeap(NextHeap(h, a[n - 1], n - 1, k)) && Retains(a, n, k, NextHeap(h, a[n - 1], n - 1, k))
  {
    var i := n - 1;
    var x := Node(a[i], i);
    var up := SiftUp(h + [x], |h|).heap;
    PushKeepsHeap(h, x);
    SiftUpPermutes(h + [x], |h|);
    if |up| > k {
      var down := SiftDown(up[1..], 0).heap;
      SmallSiftDownIsHeap(up[1..]);
      SiftDownPermutes(up[1..], 0);
      RetainsEvict(a, k, n, h, up, down);
    } else {
      RetainsPush(a, k, n, h, up);
    }
  }

  /**
   * When k <= 3 or k is at least the input length, the live heap stays a
   * min-heap and retains the right nodes.
   */
  lemma {:induction false} ShiftRunRetains(a: seq<int>, k: nat, n: nat)
    requires 1 <= k && n <= |a| && (k <= 3 || k >= |a|)
    ensures IsMinHeap(ShiftRun(a, k, n)) && Retains(a, n, k, ShiftRun(a, k, n))
  {
    var heaps := seq(n + 1, i requires 0 <= i <= n => ShiftRun(a, k, i));
    assert Ids([]) == {};
    forall i | 0 <= i < |heaps| - 1 && Sound(a, k, i, heaps[i])
      ensures Sound(a, k, i + 1, heaps[i + 1])
    {
      NextHeapRetains(a, k, i + 1, heaps[i]);
    }
    SoundAlong(a, k, heaps, n);
  }

  /** The steps one pass records hold min-heaps when it starts from a
      min-heap and any removal leaves at most three nodes. */
  lemma PassStepsAreHeaps(h: seq<Node>, num: int, i: nat, k: nat)
    requires IsMinHeap(h) && |h| <= k && (k <= 3 || |h| < k)
    ensures IsMinHeap(AddStepOf(h, num, i).heap)
    ensures |AddStepOf(h, num, i).heap| > k ==> IsMinHeap(RemoveStepOf(AddStepOf(h, num, i), i).heap)
  {
    var add := AddStepOf(h, num, i);
    PushKeepsHeap(h, Node(num, i));
    if |add.heap| > k {
      SmallSiftDownIsHeap(add.heap[1..]);
    }
  }

  /**
   * When k <= 3 or k is at least the input length, every heap the loop
   * records is a min-heap; when k is at least the input length, no remove
   * step is ever recorded.
   */
  lemma {:induction false} RestrictedSteps(a: seq<int>, k: nat, n: nat)
    requires 1 <= k && n <= |a| && (k <= 3 || k >= |a|)
    ensures forall t :: 0 <= t < |RunPrefix(a, k, n).steps| ==> IsMinHeap(RunPrefix(a, k, n).steps[t].heap)
    ensures k >= |a| ==> forall t :: 0 <= t < |RunPrefix(a, k, n).steps| ==> !RunPrefix(a, k, n).steps[t].action.Remove?
    decreases n
  {
    if n > 0 {
      var i := n - 1;
      var before := RunPrefix(a, k, i);
      var after := RunPrefix(a, k, n);
      RestrictedSteps(a, k, i);
      ShiftRunRetains(a, k, i);
      ShiftRunIsLoopHeap(a, k, i);
      ElementSteps(a, k, i);
      PassStepsAreHeaps(before.heap, a[i], i, k);
      var p := AddPosition(i, k);
      forall t | 0 <= t < |after.steps|
        ensures IsMinHeap(after.steps[t].heap)
        ensures k >= |a| ==> !after.steps[t].action.Remove?
      {
        if t < p {
          assert after.steps[t] == before.steps[t];
        } else if t == p {
          assert after.steps[t] == AddStepOf(before.heap, a[i], i);
        } else {
          assert i >= k && t == p + 1;
          assert after.steps[t] == RemoveStepOf(after.steps[p], i);
        }
      }
    }
  }

  /** The add step and any remove step of one pass hold nodes drawn from the
      input with distinct ids, for any k. */
  lemma PassStepsLabelled(a: seq<int>, k: nat, n: nat, h: seq<Node>)
    requires 0 < n <= |a| && Labelled(a, n - 1, h)
    ensures var add := AddStepOf(h, a[n - 1], n - 1);
            && Labelled(a, n, add.heap)
            && (|add.heap| > 0 ==> Labelled(a, n, RemoveStepOf(add, n - 1).heap))
  {
    var add := AddStepOf(h, a[n - 1], n - 1);
    SiftUpPermutes(h + [Node(a[n - 1], n - 1)], |h|);
    PushedNodes(a, n, h, add.heap);
    SiftDownPermutes(add.heap[1..], 0);
    EvictedNodes(a, n, h, add.heap, RemoveStepOf(add, n - 1).heap);
  }

  /** Every snapshot of a log is labelled for the first n elements of a. */
  ghost predicate LogLabelled(a: seq<int>, n: nat, log: seq<Step>) {
    n <= |a| && forall t :: 0 <= t < |log| ==> Labelled(a, n, log[t].heap)
  }

  /** Appending a step labelled for n elements to a log labelled for m <= n
      elements gives a log labelled for n elements. */
  lemma LabelledLogAppend(a: seq<int>, m: nat, n: nat, log: seq<Step>, st: Step)
    requires m <= n && LogLabelled(a, m, log) && Labelled(a, n, st.heap)
    ensures LogLabelled(a, n, log + [st])
  {
    forall t | 0 <= t < |log + [st]|
      ensures Labelled(a, n, (log + [st])[t].heap)
    {
      if t < |log| {
        assert (log + [st])[t] == log[t];
      }
    }
  }

  /** One pass from a labelled log whose last snapshot is the live heap
      keeps every snapshot labelled. */
  lemma ProcessKeepsLogLabelled(a: seq<int>, k: nat, i: nat, p: Progress)
    requires i < |a| && |p.heap| <= k && |p.steps| > 0
    requires p.steps[|p.steps| - 1].heap == p.heap && LogLabelled(a, i, p.steps)
    ensures LogLabelled(a, i + 1, Process(p, a[i], i, k).steps)
  {
    assert Labelled(a, i, p.steps[|p.steps| - 1].heap);
    var add := AddStepOf(p.heap, a[i], i);
    PassStepsLabelled(a, k, i + 1, p.heap);
    LabelledLogAppend(a, i, i + 1, p.steps, add);
    if |add.heap| > k {
      var rm := RemoveStepOf(add, i);
      LabelledLogAppend(a, i + 1, i + 1, p.steps + [add], rm);
      assert Process(p, a[i], i, k).steps == p.steps + [add] + [rm];
    } else {
      assert Process(p, a[i], i, k).steps == p.steps + [add];
    }
  }

  /** One more element keeps every recorded snapshot labelled. */
  lemma StepsLabelledStep(a: seq<int>, k: nat, i: nat)
    requires 1 <= k && i < |a| && LogLabelled(a, i, RunPrefix(a, k, i).steps)
    ensures LogLabelled(a, i + 1, RunPrefix(a, k, i + 1).steps)
  {
    RunPrefixAfter(a, k, i);
    ProcessKeepsLogLabelled(a, k, i, RunPrefix(a, k, i));
  }

  /** A chain of logs, one per prefix of a, whose first is labelled and each
      of whose passes keeps it labelled, is labelled throughout. */
  lemma {:induction false} LogLabelledAlong(a: seq<int>, logs: seq<seq<Step>>, n: nat)
    requires n < |logs| && LogLabelled(a, 0, logs[0])
    requires forall i :: 0 <= i < |logs| - 1 && LogLabelled(a, i, logs[i]) ==> LogLabelled(a, i + 1, logs[i + 1])
    ensures LogLabelled(a, n, logs[n])
    decreases n
  {
    if n > 0 {
      LogLabelledAlong(a, logs, n - 1);
    }
  }

  /** For any k, every snapshot the loop records after n elements holds nodes
      created from those n input positions, with distinct ids. */
  lemma StepsLabelled(a: seq<int>, k: nat, n: nat)
    requires 1 <= k && n <= |a|
    ensures LogLabelled(a, n, RunPrefix(a, k, n).steps)
  {
    var logs := seq(n + 1, i requires 0 <= i <= n => RunPrefix(a, k, i).steps);
    assert Ids([]) == {};
    forall i | 0 <= i < |logs| - 1 && LogLabelled(a, i, logs[i])
      ensures LogLabelled(a, i + 1, logs[i + 1])
    {
      StepsLabelledStep(a, k, i);
    }
    LogLabelledAlong(a, logs, n);
  }

  /** For any k, every snapshot in the step log holds nodes created from input
      positions, each with its position as id and its element as value, and
      no snapshot holds two nodes with the same id. */
  lemma SnapshotsLabelled(a: seq<int>, k: nat)
    requires |a| >= 1 && k >= 1
    ensures var s := SimulationSteps(a, k);
            forall t :: 0 <= t < |s| ==> Labelled(a, |a|, s[t].heap)
  {
    var p := RunPrefix(a, k, |a|);
    StepsLabelled(a, k, |a|);
    assert Labelled(a, |a|, p.steps[|p.steps| - 1].heap);
    LabelledLogAppend(a, |a|, |a|, p.steps, Step(|a|, p.heap, Found(p.heap[0].value), [], 15));
  }

  /** A log one step longer than a log of min-heaps, whose last heap is a
      min-heap, holds only min-heaps. */
  lemma HeapsOneStepOn(prefix: seq<Step>, s: seq<Step>)
    requires prefix <= s && |s| == |prefix| + 1
    requires forall t :: 0 <= t < |prefix| ==> IsMinHeap(prefix[t].heap)
    requires IsMinHeap(s[|s| - 1].heap)
    ensures forall t :: 0 <= t < |s| ==> IsMinHeap(s[t].heap)
  {
    forall t | 0 <= t < |s|
      ensures IsMinHeap(s[t].heap)
    {
      if t < |prefix| {
        assert s[t] == prefix[t];
      }
    }
  }

  /** For k <= 3, and for k equal to the input length, every snapshot in the
      step log is a min-heap. */
  lemma RestrictedSnapshotsAreHeaps(a: seq<int>, k: nat)
    requires 1 <= k <= |a| && (k <= 3 || k == |a|)
    ensures var s := SimulationSteps(a, k);
            forall t :: 0 <= t < |s| ==> IsMinHeap(s[t].heap)
  {
    RestrictedSteps(a, k, |a|);
    FinalStepShowsShiftRun(a, k);
    ShiftRunRetains(a, k, |a|);
    PrefixOfLog(a, k, |a|);
    HeapsOneStepOn(RunPrefix(a, k, |a|).steps, SimulationSteps(a, k));
  }

  /** For k <= 3, and for k equal to the input length, the reported value is
      the k-th largest input. */
  lemma RestrictedReportsKthLargest(a: seq<int>, k: nat)
    requires 1 <= k <= |a| && (k <= 3 || k == |a|)
    ensures var s := SimulationSteps(a, k);
            IsKthLargest(a, k, s[|s| - 1].action.kthLargest)
  {
    FinalStepShowsShiftRun(a, k);
    ShiftRunRetains(a, k, |a|);
    RetainsGivesKthLargest(a, k, ShiftRun(a, k, |a|));
  }

  /**
   * For k <= 3, and for k equal to the input length, every snapshot in the
   * step log is a min-heap and the reported value is the k-th largest input.
   */
  lemma RestrictedCasesCorrect(a: seq<int>, k: nat)
    requires 1 <= k <= |a| && (k <= 3 || k == |a|)
    ensures var s := SimulationSteps(a, k);
            && (forall t :: 0 <= t < |s| ==> IsMinHeap(s[t].heap))
            && IsKthLargest(a, k, s[|s| - 1].action.kthLargest)
  {
    RestrictedSnapshotsAreHeaps(a, k);
    RestrictedReportsKthLargest(a, k);
  }

  /** With k = 1 the reported value is the largest input element. */
  lemma KIsOneReportsMaximum(a: seq<int>)
    requires |a| >= 1
    ensures var s := SimulationSteps(a, 1);
            var v := s[|s| - 1].action.kthLargest;
            && (forall j :: 0 <= j < |a| ==> a[j] <= v)
            && (exists j :: 0 <= j < |a| && a[j] == v)
  {
    RestrictedCasesCorrect(a, 1);
    var s := SimulationSteps(a, 1);
    var v := s[|s| - 1].action.kthLargest;
    forall j | 0 <= j < |a| ensures a[j] <= v {
      assert j !in Above(a, v);
    }
    var j :| j in AtLeast(a, v);
    assert 0 <= j < |a| && a[j] == v;
  }

  /** With k equal to the input length nothing is removed and the reported
      value is the smallest input element. */
  lemma KIsLengthReportsMinimum(a: seq<int>)
    requires |a| >= 1
    ensures var s := SimulationSteps(a, |a|);
            var v := s[|s| - 1].action.kthLargest;
            && (forall t :: 0 <= t < |s| ==> !s[t].action.Remove?)
            && (forall j :: 0 <= j < |a| ==> v <= a[j])
            && (exists j :: 0 <= j < |a| && a[j] == v)
  {
    var k := |a|;
    RestrictedSteps(a, k, k);
    ShiftRunRetains(a, k, k);
    ShiftRunIsLoopHeap(a, k, k);
    var s := SimulationSteps(a, k);
    var h := RunPrefix(a, k, k).heap;
    assert s == RunPrefix(a, k, k).steps + [s[|s| - 1]];
    var v := h[0].value;
    forall j | 0 <= j < |a| ensures v <= a[j] {
      assert j in Ids(h);
      var y :| y in h && y.id == j;
      var t :| 0 <= t < |h| && h[t] == y;
      HeapRootIsMin(h, t);
    }
    assert h[0] in h;
    assert a[h[0].id] == v;
  }

  /** A pass whose new node is no smaller than its parent and which removes nothing appends the node. */
  lemma NextHeapAppends(h: seq<Node>, num: int, i: nat, k: nat)
    requires |h| < k && (|h| == 0 || h[Parent(|h|)].value <= num)
    ensures NextHeap(h, num, i, k) == h + [Node(num, i)]
  {
  }

  /** A pass whose new node stays in place and whose shift() leaves the root
      no larger than its children just drops index 0. */
  lemma NextHeapShiftsOnly(h: seq<Node>, num: int, i: nat, k: nat)
    requires |h| == k >= 3 && h[Parent(|h|)].value <= num
    requires h[1].value <= (h + [Node(num, i)])[2].value
    requires h[1].value <= (h + [Node(num, i)])[3].value
    ensures NextHeap(h, num, i, k) == (h + [Node(num, i)])[1..]
  {
    var g := (h + [Node(num, i)])[1..];
    assert SiftUp(h + [Node(num, i)], |h|).heap == h + [Node(num, i)];
    assert SiftDown(g, 0) == Sifted(g, []);
  }

  /** ShiftRun one element further, from a known heap. */
  lemma ShiftRunNext(a: seq<int>, k: nat, n: nat, h: seq<Node>)
    requires 0 < n <= |a| && ShiftRun(a, k, n - 1) == h
    ensures ShiftRun(a, k, n) == NextHeap(h, a[n - 1], n - 1, k)
  {
  }

  /** The nodes made from the first m input elements, in input order. */
  function InputNodes(a: seq<int>, m: nat): (r: seq<Node>)
    requires m <= |a|
    ensures |r| == m
  {
    seq(m, j requires 0 <= j < m => Node(a[j], j))
  }

  /**
   * While the heap is not full and every element is no smaller than the one
   * at its parent's position, nothing is swapped: the heap is the input's
   * nodes in input order.
   */
  lemma {:induction false} HeapOrderedInputStays(a: seq<int>, k: nat, m: nat)
    requires m <= |a| && m <= k
    requires forall j :: 0 < j < m ==> a[Parent(j)] <= a[j]
    ensures ShiftRun(a, k, m) == InputNodes(a, m)
    decreases m
  {
    if m > 0 {
      var h := InputNodes(a, m - 1);
      HeapOrderedInputStays(a, k, m - 1);
      ShiftRunNext(a, k, m, h);
      if m > 1 {
        assert h[Parent(m - 1)] == Node(a[Parent(m - 1)], Parent(m - 1));
      }
      NextHeapAppends(h, a[m - 1], m - 1, k);
      assert h + [Node(a[m - 1], m - 1)] == InputNodes(a, m);
    }
  }

  /** The input that shows the shift()-based removal going wrong, with k = 7. */
  const ShiftCounterexample: seq<int> := [1, 2, 7, 3, 5, 8, 9, 6, 4, 10, 11]

  lemma CounterexampleStartsHeapOrdered(a: seq<int>)
    requires a == ShiftCounterexample
    ensures forall j :: 0 < j < 7 ==> a[Parent(j)] <= a[j]
  {
  }

  /** The live heap for the counterexample after seven elements: the input itself. */
  lemma CounterexampleFirstSeven(a: seq<int>)
    requires a == ShiftCounterexample
    ensures ShiftRun(a, 7, 7) == [Node(1, 0), Node(2, 1), Node(7, 2), Node(3, 3), Node(5, 4), Node(8, 5), Node(9, 6)]
  {
    CounterexampleStartsHeapOrdered(a);
    HeapOrderedInputStays(a, 7, 7);
  }

  /** In the ninth pass of the counterexample, 4 rises two levels. */
  lemma CounterexampleNinthRise(pushed: seq<Node>)
    requires pushed == [Node(2, 1), Node(7, 2), Node(3, 3), Node(5, 4), Node(8, 5), Node(9, 6), Node(6, 7), Node(4, 8)]
    ensures SiftUp(pushed, 7).heap == [Node(2, 1), Node(4, 8), Node(3, 3), Node(7, 2), Node(8, 5), Node(9, 6), Node(6, 7), Node(5, 4)]
  {
    var once := [Node(2, 1), Node(7, 2), Node(3, 3), Node(4, 8), Node(8, 5), Node(9, 6), Node(6, 7), Node(5, 4)];
    var twice := [Node(2, 1), Node(4, 8), Node(3, 3), Node(7, 2), Node(8, 5), Node(9, 6), Node(6, 7), Node(5, 4)];
    assert Exchange(pushed, 7, 3) == once;
    assert Exchange(once, 3, 1) == twice;
    assert SiftUp(twice, 1).heap == twice;
    assert SiftUp(once, 3).heap == twice;
  }

  /** In the ninth pass of the counterexample, after shift() one sift-down swap
      settles 7. */
  lemma CounterexampleNinthSink(shifted: seq<Node>)
    requires shifted == [Node(4, 8), Node(3, 3), Node(7, 2), Node(8, 5), Node(9, 6), Node(6, 7), Node(5, 4)]
    ensures SiftDown(shifted, 0).heap == [Node(3, 3), Node(4, 8), Node(7, 2), Node(8, 5), Node(9, 6), Node(6, 7), Node(5, 4)]
  {
    var swapped := [Node(3, 3), Node(4, 8), Node(7, 2), Node(8, 5), Node(9, 6), Node(6, 7), Node(5, 4)];
    assert Exchange(shifted, 0, 1) == swapped;
    assert SiftDown(swapped, 1) == Sifted(swapped, []);
  }

  /** The ninth pass of the counterexample: 4 rises two levels, then shift()
      and one sift-down swap. */
  lemma CounterexampleNinth(h: seq<Node>)
    requires h == [Node(2, 1), Node(7, 2), Node(3, 3), Node(5, 4), Node(8, 5), Node(9, 6), Node(6, 7)]
    ensures NextHeap(h, 4, 8, 7) == [Node(3, 3), Node(4, 8), Node(7, 2), Node(8, 5), Node(9, 6), Node(6, 7), Node(5, 4)]
  {
    var pushed := h + [Node(4, 8)];
    CounterexampleNinthRise(pushed);
    var up := SiftUp(pushed, 7).heap;
    CounterexampleNinthSink(up[1..]);
  }

  /** Pass 8 of the counterexample: the new node stays put and shift() leaves a heap. */
  lemma CounterexampleEighthPass(h: seq<Node>)
    requires h == [Node(1, 0), Node(2, 1), Node(7, 2), Node(3, 3), Node(5, 4), Node(8, 5), Node(9, 6)]
    ensures NextHeap(h, 6, 7, 7) == [Node(2, 1), Node(7, 2), Node(3, 3), Node(5, 4), Node(8, 5), Node(9, 6), Node(6, 7)]
  {
    NextHeapShiftsOnly(h, 6, 7, 7);
  }

  /** Pass 10 of the counterexample: the new node stays put and shift() leaves a heap. */
  lemma CounterexampleTenthPass(h: seq<Node>)
    requires h == [Node(3, 3), Node(4, 8), Node(7, 2), Node(8, 5), Node(9, 6), Node(6, 7), Node(5, 4)]
    ensures NextHeap(h, 10, 9, 7) == [Node(4, 8), Node(7, 2), Node(8, 5), Node(9, 6), Node(6, 7), Node(5, 4), Node(10, 9)]
  {
    NextHeapShiftsOnly(h, 10, 9, 7);
  }

  /** Pass 11 of the counterexample: the new node stays put and shift() leaves a heap. */
  lemma CounterexampleEleventhPass(h: seq<Node>)
    requires h == [Node(4, 8), Node(7, 2), Node(8, 5), Node(9, 6), Node(6, 7), Node(5, 4), Node(10, 9)]
    ensures NextHeap(h, 11, 10, 7) == [Node(7, 2), Node(8, 5), Node(9, 6), Node(6, 7), Node(5, 4), Node(10, 9), Node(11, 10)]
  {
    NextHeapShiftsOnly(h, 11, 10, 7);
  }

  /** The live heap for the counterexample after 8 elements. */
  lemma {:induction false} CounterexampleEighth(a: seq<int>)
    requires a == ShiftCounterexample
    ensures ShiftRun(a, 7, 8) == [Node(2, 1), Node(7, 2), Node(3, 3), Node(5, 4), Node(8, 5), Node(9, 6), Node(6, 7)]
  {
    var h := [Node(1, 0), Node(2, 1), Node(7, 2), Node(3, 3), Node(5, 4), Node(8, 5), Node(9, 6)];
    CounterexampleFirstSeven(a);
    assert a[7] == 6;
    ShiftRunNext(a, 7, 8, h);
    CounterexampleEighthPass(h);
  }

  /** The live heap for the counterexample after 9 elements. */
  lemma {:induction false} CounterexampleNinthHeap(a: seq<int>)
    requires a == ShiftCounterexample
    ensures ShiftRun(a, 7, 9) == [Node(3, 3), Node(4, 8), Node(7, 2), Node(8, 5), Node(9, 6), Node(6, 7), Node(5, 4)]
  {
    var h := [Node(2, 1), Node(7, 2), Node(3, 3), Node(5, 4), Node(8, 5), Node(9, 6), Node(6, 7)];
    CounterexampleEighth(a);
    assert a[8] == 4;
    ShiftRunNext(a, 7, 9, h);
    CounterexampleNinth(h);
  }

  /** The live heap for the counterexample after 10 elements. */
  lemma {:induction false} CounterexampleTenth(a: seq<int>)
    requires a == ShiftCounterexample
    ensures ShiftRun(a, 7, 10) == [Node(4, 8), Node(7, 2), Node(8, 5), Node(9, 6), Node(6, 7), Node(5, 4), Node(10, 9)]
  {
    var h := [Node(3, 3), Node(4, 8), Node(7, 2), Node(8, 5), Node(9, 6), Node(6, 7), Node(5, 4)];
    CounterexampleNinthHeap(a);
    assert a[9] == 10;
    ShiftRunNext(a, 7, 10, h);
    CounterexampleTenthPass(h);
  }

  /** The live heap for the counterexample after all eleven elements. */
  lemma {:induction false} CounterexampleFinalHeap(a: seq<int>)
    requires a == ShiftCounterexample
    ensures ShiftRun(a, 7, 11) == [Node(7, 2), Node(8, 5), Node(9, 6), Node(6, 7), Node(5, 4), Node(10, 9), Node(11, 10)]
  {
    var h := [Node(4, 8), Node(7, 2), Node(8, 5), Node(9, 6), Node(6, 7), Node(5, 4), Node(10, 9)];
    CounterexampleTenth(a);
    assert a[10] == 11;
    ShiftRunNext(a, 7, 11, h);
    CounterexampleEleventhPass(h);
  }

  /** The final step of the log shows the live heap after the whole input and
      reports its index-0 value. */
  lemma FinalStepShowsShiftRun(a: seq<int>, k: nat)
    requires |a| >= 1 && k >= 1
    ensures var s := SimulationSteps(a, k);
            && s[|s| - 1].heap == ShiftRun(a, k, |a|)
            && s[|s| - 1].action == Found(ShiftRun(a, k, |a|)[0].value)
  {
    ShiftRunIsLoopHeap(a, k, |a|);
  }

  /** In the counterexample input, 5 is the 7th largest element and 7 is not. */
  lemma CounterexampleRanks(a: seq<int>)
    requires a == ShiftCounterexample
    ensures !IsKthLargest(a, 7, 7) && IsKthLargest(a, 7, 5)
  {
    assert AtLeast(a, 7) == {2, 5, 6, 9, 10};
    assert Above(a, 5) == {2, 5, 6, 7, 9, 10};
    assert AtLeast(a, 5) == {2, 4, 5, 6, 7, 9, 10};
  }

  /**
   * With input [1, 2, 7, 3, 5, 8, 9, 6, 4, 10, 11] and k = 7 the final heap
   * is [7, 8, 9, 6, 5, 10, 11], which is not a min-heap, and the reported 7
   * is not the 7th largest element, which is 5.
   */
  lemma {:induction false} ShiftRemovalGoesWrong(a: seq<int>)
    requires a == ShiftCounterexample
    ensures var s := SimulationSteps(a, 7);
            var last := s[|s| - 1];
            && last.heap == [Node(7, 2), Node(8, 5), Node(9, 6), Node(6, 7), Node(5, 4), Node(10, 9), Node(11, 10)]
            && !IsMinHeap(last.heap)
            && last.action == Found(7)
            && !IsKthLargest(a, 7, 7)
            && IsKthLargest(a, 7, 5)
  {
    CounterexampleFinalHeap(a);
    FinalStepShowsShiftRun(a, 7);
    CounterexampleRanks(a);
    var h := ShiftRun(a, 7, 11);
    assert h[Parent(3)].value > h[3].value;
  }

  /**
   * Textbook removal of the minimum: move the last node to the root, drop
   * the last position and sift down from the root.
   */
  function EvictMin(h: seq<Node>): (r: seq<Node>)
    requires |h| > 0
    ensures |r| == |h| - 1
  {
    if |h| == 1 then [] else SiftDown([h[|h| - 1]] + h[1..|h| - 1], 0).heap
  }

  /** Moving the last node of a heap to the root leaves the heap property
      broken at most between the root and its children. */
  lemma LastToRootBreaksOnlyRoot(h: seq<Node>)
    requires |h| > 1 && IsMinHeap(h)
    ensures HeapExceptBelow([h[|h| - 1]] + h[1..|h| - 1], 0)
  {
    var moved := [h[|h| - 1]] + h[1..|h| - 1];
    forall j | 0 < j < |moved| && Parent(j) != 0
      ensures moved[Parent(j)].value <= moved[j].value
    {
      assert moved[j] == h[j] && moved[Parent(j)] == h[Parent(j)];
    }
  }

  /** Textbook removal removes exactly the root node. */
  lemma EvictMinPermutes(h: seq<Node>)
    requires |h| > 0
    ensures multiset(EvictMin(h)) == multiset(h[1..])
  {
    if |h| > 1 {
      SiftDownPermutes([h[|h| - 1]] + h[1..|h| - 1], 0);
      assert h[1..] == h[1..|h| - 1] + [h[|h| - 1]];
    }
  }

  /** Textbook removal keeps a heap a heap and removes exactly the root node. */
  lemma EvictMinKeepsHeap(h: seq<Node>)
    requires |h| > 0 && IsMinHeap(h)
    ensures IsMinHeap(EvictMin(h))
    ensures multiset(EvictMin(h)) == multiset(h[1..])
  {
    if |h| > 1 {
      LastToRootBreaksOnlyRoot(h);
      SiftDownRestoresHeap([h[|h| - 1]] + h[1..|h| - 1], 0);
    }
    EvictMinPermutes(h);
  }

  /** One pass with textbook removal in place of shift(). */
  function FixedNextHeap(h: seq<Node>, num: int, i: nat, k: nat): (r: seq<Node>)
    ensures |h| <= k ==> |r| == Min(|h| + 1, k)
  {
    var up := SiftUp(h + [Node(num, i)], |h|).heap;
    if |up| > k then EvictMin(up) else up
  }

  /** The heap after n elements when removals use EvictMin instead of shift(). */
  function FixedRun(a: seq<int>, k: nat, n: nat): (h: seq<Node>)
    requires n <= |a|
    ensures |h| == Min(n, k)
    decreases n
  {
    if n == 0 then [] else FixedNextHeap(FixedRun(a, k, n - 1), a[n - 1], n - 1, k)
  }

  /** With textbook removal one pass keeps a min-heap that retains the right nodes, for every k. */
  lemma FixedNextHeapRetains(a: seq<int>, k: nat, n: nat, h: seq<Node>)
    requires 1 <= k && 0 < n <= |a|
    requires IsMinHeap(h) && Retains(a, n - 1, k, h)
    ensures IsMinHeap(FixedNextHeap(h, a[n - 1], n - 1, k)) && Retains(a, n, k, FixedNextHeap(h, a[n - 1], n - 1, k))
  {
    var i := n - 1;
    var x := Node(a[i], i);
    var up := SiftUp(h + [x], |h|).heap;
    PushKeepsHeap(h, x);
    SiftUpPermutes(h + [x], |h|);
    if |up| > k {
      EvictMinKeepsHeap(up);
      RetainsEvict(a, k, n, h, up, EvictMin(up));
    } else {
      RetainsPush(a, k, n, h, up);
    }
  }

  /** With textbook removal the heap stays a heap and retains the right nodes. */
  lemma {:induction false} FixedRunRetains(a: seq<int>, k: nat, n: nat)
    requires 1 <= k && n <= |a|
    ensures IsMinHeap(FixedRun(a, k, n)) && Retains(a, n, k, FixedRun(a, k, n))
  {
    var heaps := seq(n + 1, i requires 0 <= i <= n => FixedRun(a, k, i));
    assert Ids([]) == {};
    forall i | 0 <= i < |heaps| - 1 && Sound(a, k, i, heaps[i])
      ensures Sound(a, k, i + 1, heaps[i + 1])
    {
      FixedNextHeapRetains(a, k, i + 1, heaps[i]);
    }
    SoundAlong(a, k, heaps, n);
  }

  /** With textbook removal the root after the whole input is the k-th largest, for every valid k. */
  lemma {:induction false} FixedRunFindsKthLargest(a: seq<int>, k: nat)
    requires 1 <= k <= |a|
    ensures IsKthLargest(a, k, FixedRun(a, k, |a|)[0].value)
  {
    FixedRunRetains(a, k, |a|);
    RetainsGivesKthLargest(a, k, FixedRun(a, k, |a|));
  }
}
