/**
 * The binary min-heap of the k-th largest visualiser: nodes, the swap trace
 * recorded by the two sift routines, and the sift routines themselves.
 *
 * The heap is a sequence of nodes read as a complete binary tree: the
 * children of index i are 2i+1 and 2i+2 and the parent of i > 0 is
 * floor((i-1)/2).  SiftUp and SiftDown are the specifications of the
 * recursive, in-place routines HeapifyUp and HeapifyDown: each returns the
 * rearranged heap together with the swaps performed, in the order performed.
 */
module MinHeap {

  /** A heap node: the value it is ordered by and the id it was created with. */
  datatype Node = Node(value: int, id: int)

  /** One recorded exchange of the nodes at two positions. */
  datatype Swap = Swap(from: nat, to: nat)

  /** The outcome of a sift: the rearranged heap and the swaps, in order. */
  datatype Sifted = Sifted(heap: seq<Node>, swaps: seq<Swap>)

  function Parent(i: nat): nat
    requires i > 0
  {
    (i - 1) / 2
  }

  function Left(i: nat): nat { 2 * i + 1 }

  function Right(i: nat): nat { 2 * i + 2 }

  /** Every node is at least as large as its parent. */
  ghost predicate IsMinHeap(h: seq<Node>) {
    forall j :: 0 < j < |h| ==> h[Parent(j)].value <= h[j].value
  }

  /** The heap property may fail only between i and its parent, and i's parent
      is no larger than i's children (the state sift-up works on). */
  ghost predicate HeapExceptAbove(h: seq<Node>, i: nat) {
    && (forall j :: 0 < j < |h| && j != i ==> h[Parent(j)].value <= h[j].value)
    && (0 < i < |h| ==> forall j :: 0 < j < |h| && Parent(j) == i ==> h[Parent(i)].value <= h[j].value)
  }

  /** The heap property may fail only between i and its children, and i's
      parent is no larger than i's children (the state sift-down works on). */
  ghost predicate HeapExceptBelow(h: seq<Node>, i: nat) {
    && (forall j :: 0 < j < |h| && Parent(j) != i ==> h[Parent(j)].value <= h[j].value)
    && (0 < i < |h| ==> forall j :: 0 < j < |h| && Parent(j) == i ==> h[Parent(i)].value <= h[j].value)
  }

  /** The destructuring swap `[h[i], h[j]] = [h[j], h[i]]`. */
  function Exchange(h: seq<Node>, i: nat, j: nat): (r: seq<Node>)
    requires i < |h| && j < |h|
    ensures |r| == |h| && r[i] == h[j] && r[j] == h[i]
    ensures forall t :: 0 <= t < |h| && t != i && t != j ==> r[t] == h[t]
  {
    h[i := h[j]][j := h[i]]
  }

  /** Every swap names two positions of a heap of n nodes. */
  predicate InRange(swaps: seq<Swap>, n: nat) {
    forall t :: 0 <= t < |swaps| ==> swaps[t].from < n && swaps[t].to < n
  }

  /** Replays a swap trace, in order, on a heap. */
  function ApplySwaps(h: seq<Node>, swaps: seq<Swap>): (r: seq<Node>)
    requires InRange(swaps, |h|)
    ensures |r| == |h|
    decreases |swaps|
  {
    if swaps == [] then h
    else ApplySwaps(Exchange(h, swaps[0].from, swaps[0].to), swaps[1..])
  }

  /** The swaps form one path starting at i: each starts where the previous one ended. */
  predicate Chained(swaps: seq<Swap>, i: nat) {
    && (|swaps| > 0 ==> swaps[0].from == i)
    && (forall t :: 0 < t < |swaps| ==> swaps[t].from == swaps[t - 1].to)
  }

  /** The position where a chained trace starting at i leaves the sifted node. */
  function PathEnd(swaps: seq<Swap>, i: nat): nat {
    if swaps == [] then i else swaps[|swaps| - 1].to
  }

  /**
   * heapifyUp: while the parent is strictly greater, swap the node with its
   * parent and continue from the parent's position.
   */
  function SiftUp(h: seq<Node>, i: nat): (r: Sifted)
    requires i < |h|
    ensures |r.heap| == |h|
    decreases i
  {
    if i == 0 then Sifted(h, [])
    else
      var p := Parent(i);
      if h[p].value > h[i].value then
        var rest := SiftUp(Exchange(h, i, p), p);
        Sifted(rest.heap, [Swap(i, p)] + rest.swaps)
      else
        Sifted(h, [])
  }

  /**
   * The position heapifyDown moves to from i: the left child if it is in
   * range and strictly smaller than the node at i, then the right child if it
   * is in range and strictly smaller than that; otherwise i itself.
   */
  function Smallest(h: seq<Node>, i: nat): (s: nat)
    ensures s == i || s == Left(i) || s == Right(i)
    ensures s != i ==> s < |h| && i < |h| && h[s].value < h[i].value
    ensures s == Right(i) ==> Left(i) < |h| ==> h[s].value < h[Left(i)].value
    ensures Left(i) < |h| && s != Left(i) ==> h[s].value <= h[Left(i)].value || s == i
    ensures i < |h| ==>
              && h[s].value <= h[i].value
              && (Left(i) < |h| ==> h[s].value <= h[Left(i)].value)
              && (Right(i) < |h| ==> h[s].value <= h[Right(i)].value)
  {
    var l, rt := Left(i), Right(i);
    var s1 := if l < |h| && h[l].value < h[i].value then l else i;
    if rt < |h| && h[rt].value < h[s1].value then rt else s1
  }

  /**
   * heapifyDown: find the smallest of the node and its in-range children
   * (the right child must be strictly smaller than the current smallest, so
   * the left child wins ties) and, if it is a child, swap and continue there.
   */
  function SiftDown(h: seq<Node>, i: nat): (r: Sifted)
    ensures |r.heap| == |h|
    ensures i >= |h| ==> r == Sifted(h, [])
    decreases |h| - i
  {
    var s := Smallest(h, i);
    if s != i then
      var rest := SiftDown(Exchange(h, i, s), s);
      Sifted(rest.heap, [Swap(i, s)] + rest.swaps)
    else
      Sifted(h, [])
  }

  /** The swaps of heapifyUp form one path starting at i. */
  lemma {:induction false} SiftUpChained(h: seq<Node>, i: nat)
    requires i < |h|
    ensures Chained(SiftUp(h, i).swaps, i)
    decreases i
  {
    if i > 0 && h[Parent(i)].value > h[i].value {
      var p := Parent(i);
      var h' := Exchange(h, i, p);
      SiftUpChained(h', p);
      var rest := SiftUp(h', p).swaps;
      var sw := SiftUp(h, i).swaps;
      assert sw == [Swap(i, p)] + rest;
      assert forall t :: 0 < t < |sw| ==> sw[t] == rest[t - 1];
    }
  }

  /**
   * Each swap of heapifyUp goes from a position to its parent, never above
   * i, and happens only because the parent was strictly greater than the
   * node being sifted.
   */
  lemma {:induction false} SiftUpSwapsToParent(h: seq<Node>, i: nat)
    requires i < |h|
    ensures forall t :: 0 <= t < |SiftUp(h, i).swaps| ==>
              && 0 < SiftUp(h, i).swaps[t].from <= i
              && SiftUp(h, i).swaps[t].to == Parent(SiftUp(h, i).swaps[t].from)
              && h[SiftUp(h, i).swaps[t].to].value > h[i].value
    decreases i
  {
    if i > 0 && h[Parent(i)].value > h[i].value {
      var p := Parent(i);
      var h' := Exchange(h, i, p);
      SiftUpSwapsToParent(h', p);
      var rest := SiftUp(h', p).swaps;
      var sw := SiftUp(h, i).swaps;
      assert sw == [Swap(i, p)] + rest;
      forall t | 0 < t < |sw|
        ensures sw[t] == rest[t - 1]
        ensures h'[sw[t].to] == h[sw[t].to]
      {
      }
    }
  }

  /** heapifyUp leaves the sifted node at the root or below a parent that is no greater. */
  lemma {:induction false} SiftUpStops(h: seq<Node>, i: nat)
    requires i < |h|
    ensures var e := PathEnd(SiftUp(h, i).swaps, i);
            && e <= i
            && SiftUp(h, i).heap[e] == h[i]
            && (e == 0 || SiftUp(h, i).heap[Parent(e)].value <= SiftUp(h, i).heap[e].value)
    decreases i
  {
    if i > 0 && h[Parent(i)].value > h[i].value {
      var p := Parent(i);
      var h' := Exchange(h, i, p);
      SiftUpStops(h', p);
      var rest := SiftUp(h', p).swaps;
      var sw := SiftUp(h, i).swaps;
      assert sw == [Swap(i, p)] + rest;
      assert PathEnd(sw, i) == PathEnd(rest, p);
    }
  }

  /** The swaps of heapifyDown form one path starting at i, each going down a level. */
  lemma {:induction false} SiftDownChained(h: seq<Node>, i: nat)
    ensures Chained(SiftDown(h, i).swaps, i)
    ensures forall t :: 0 <= t < |SiftDown(h, i).swaps| ==>
              i <= SiftDown(h, i).swaps[t].from < SiftDown(h, i).swaps[t].to < |h|
    decreases |h| - i
  {
    var s := Smallest(h, i);
    if s != i {
      var h' := Exchange(h, i, s);
      SiftDownChained(h', s);
      var rest := SiftDown(h', s).swaps;
      var sw := SiftDown(h, i).swaps;
      assert sw == [Swap(i, s)] + rest;
      assert forall t :: 0 < t < |sw| ==> sw[t] == rest[t - 1];
    }
  }

  /**
   * Each swap of heapifyDown goes from a position to one of its in-range
   * children that was strictly smaller than the node being sifted; the right
   * child is taken only when strictly smaller than the left one, so the left
   * child wins ties.
   */
  lemma {:induction false} SiftDownSwapsToChild(h: seq<Node>, i: nat)
    ensures forall t :: 0 <= t < |SiftDown(h, i).swaps| ==>
              var f, c := SiftDown(h, i).swaps[t].from, SiftDown(h, i).swaps[t].to;
              && c < |h|
              && (c == Left(f) || c == Right(f))
              && h[c].value < h[i].value
              && (c == Right(f) ==> h[c].value < h[Left(f)].value)
              && (c == Left(f) && Right(f) < |h| ==> h[c].value <= h[Right(f)].value)
    decreases |h| - i
  {
    var s := Smallest(h, i);
    if s != i {
      var h' := Exchange(h, i, s);
      SiftDownSwapsToChild(h', s);
      SiftDownChained(h', s);
      var rest := SiftDown(h', s).swaps;
      var sw := SiftDown(h, i).swaps;
      assert sw == [Swap(i, s)] + rest;
      forall t | 0 < t < |sw|
        ensures sw[t] == rest[t - 1]
      {
      }
    }
  }

  /** heapifyDown leaves the sifted node where no in-range child is smaller. */
  lemma {:induction false} SiftDownStops(h: seq<Node>, i: nat)
    requires i < |h|
    ensures var e := PathEnd(SiftDown(h, i).swaps, i);
            var r := SiftDown(h, i).heap;
            && i <= e < |h|
            && r[e] == h[i]
            && (Left(e) < |h| ==> r[e].value <= r[Left(e)].value)
            && (Right(e) < |h| ==> r[e].value <= r[Right(e)].value)
    decreases |h| - i
  {
    var sw := SiftDown(h, i).swaps;
    if sw != [] {
      var s := sw[0].to;
      var h' := Exchange(h, i, s);
      SiftDownStops(h', s);
      var rest := SiftDown(h', s).swaps;
      assert sw == [Swap(i, s)] + rest;
      assert PathEnd(sw, i) == PathEnd(rest, s);
    }
  }

  /**
   * The node heapifyDown leaves at its start index can be larger than a
   * child there when the subtrees below were not heaps: from [5, 3, 4, 1],
   * sifting down from index 0 gives [3, 1, 4, 5].
   */
  lemma SiftDownStartMayExceedChild(h: seq<Node>)
    requires h == [Node(5, 0), Node(3, 1), Node(4, 2), Node(1, 3)]
    ensures SiftDown(h, 0).heap == [Node(3, 1), Node(1, 3), Node(4, 2), Node(5, 0)]
    ensures SiftDown(h, 0).heap[0].value > SiftDown(h, 0).heap[Left(0)].value
  {
    var once := [Node(3, 1), Node(5, 0), Node(4, 2), Node(1, 3)];
    var twice := [Node(3, 1), Node(1, 3), Node(4, 2), Node(5, 0)];
    assert Exchange(h, 0, 1) == once;
    assert Exchange(once, 1, 3) == twice;
    assert SiftDown(twice, 3) == Sifted(twice, []);
  }

  /** Exchanging two positions keeps the same nodes. */
  lemma ExchangePermutes(h: seq<Node>, i: nat, j: nat)
    requires i < |h| && j < |h|
    ensures multiset(Exchange(h, i, j)) == multiset(h)
  {
  }

  /** heapifyUp only permutes: the same nodes, ids included, with the same multiplicities. */
  lemma {:induction false} SiftUpPermutes(h: seq<Node>, i: nat)
    requires i < |h|
    ensures multiset(SiftUp(h, i).heap) == multiset(h)
    decreases i
  {
    if i > 0 && h[Parent(i)].value > h[i].value {
      ExchangePermutes(h, i, Parent(i));
      SiftUpPermutes(Exchange(h, i, Parent(i)), Parent(i));
    }
  }

  /** heapifyDown only permutes: the same nodes, ids included, with the same multiplicities. */
  lemma {:induction false} SiftDownPermutes(h: seq<Node>, i: nat)
    ensures multiset(SiftDown(h, i).heap) == multiset(h)
    decreases |h| - i
  {
    var sw := SiftDown(h, i).swaps;
    if sw != [] {
      ExchangePermutes(h, i, sw[0].to);
      SiftDownPermutes(Exchange(h, i, sw[0].to), sw[0].to);
    }
  }

  /** Replaying the trace of a sift-up on the heap it started from gives its result. */
  lemma {:induction false} SiftUpReplays(h: seq<Node>, i: nat)
    requires i < |h|
    ensures InRange(SiftUp(h, i).swaps, |h|)
    ensures ApplySwaps(h, SiftUp(h, i).swaps) == SiftUp(h, i).heap
    decreases i
  {
    if i > 0 && h[Parent(i)].value > h[i].value {
      var p := Parent(i);
      var h' := Exchange(h, i, p);
      SiftUpReplays(h', p);
      var sw := SiftUp(h, i).swaps;
      assert sw == [Swap(i, p)] + SiftUp(h', p).swaps;
      assert sw[1..] == SiftUp(h', p).swaps;
    }
  }

  /** Replaying the trace of a sift-down on the heap it started from gives its result. */
  lemma {:induction false} SiftDownReplays(h: seq<Node>, i: nat)
    ensures InRange(SiftDown(h, i).swaps, |h|)
    ensures ApplySwaps(h, SiftDown(h, i).swaps) == SiftDown(h, i).heap
    decreases |h| - i
  {
    var r := SiftDown(h, i);
    if r.swaps != [] {
      var s := r.swaps[0].to;
      var h' := Exchange(h, i, s);
      SiftDownReplays(h', s);
      assert r.swaps[1..] == SiftDown(h', s).swaps;
    }
  }

  /** Sift-up turns a heap that is broken only above i into a heap. */
  lemma {:induction false} SiftUpRestoresHeap(h: seq<Node>, i: nat)
    requires i < |h| && HeapExceptAbove(h, i)
    ensures IsMinHeap(SiftUp(h, i).heap)
    decreases i
  {
    if i > 0 {
      var p := Parent(i);
      if h[p].value > h[i].value {
        var h' := Exchange(h, i, p);
        forall j | 0 < j < |h'| && j != p
          ensures h'[Parent(j)].value <= h'[j].value
        {
          if j == i {
          } else if Parent(j) == i {
            assert h[p].value <= h[j].value;
          } else if Parent(j) == p {
            assert h[p].value <= h[j].value;
          } else {
            assert h'[j] == h[j] && h'[Parent(j)] == h[Parent(j)];
          }
        }
        if p > 0 {
          forall j | 0 < j < |h'| && Parent(j) == p
            ensures h'[Parent(p)].value <= h'[j].value
          {
            assert h[Parent(p)].value <= h[p].value;
            if j != i {
              assert h[p].value <= h[j].value;
            }
          }
        }
        SiftUpRestoresHeap(h', p);
      }
    }
  }

  /** Where heapifyDown stops, a heap broken only below i is a heap. */
  lemma SettledIsHeap(h: seq<Node>, i: nat)
    requires HeapExceptBelow(h, i) && Smallest(h, i) == i
    ensures IsMinHeap(h)
  {
    forall j | 0 < j < |h| && Parent(j) == i
      ensures h[Parent(j)].value <= h[j].value
    {
      assert j == Left(i) || j == Right(i);
    }
  }

  /** One swap of heapifyDown moves the break down to the child it swapped with. */
  lemma SwapDownMovesBreak(h: seq<Node>, i: nat)
    requires HeapExceptBelow(h, i) && Smallest(h, i) != i
    ensures HeapExceptBelow(Exchange(h, i, Smallest(h, i)), Smallest(h, i))
  {
    var s := Smallest(h, i);
    var h' := Exchange(h, i, s);
    assert Parent(s) == i;
    // s holds the smallest of i and its in-range children
    forall c | 0 < c < |h| && Parent(c) == i
      ensures h[s].value <= h[c].value
    {
      assert c == Left(i) || c == Right(i);
    }
    forall j | 0 < j < |h'| && Parent(j) != s
      ensures h'[Parent(j)].value <= h'[j].value
    {
      if j == s {
      } else if Parent(j) == i {
      } else if j == i {
        assert h[Parent(i)].value <= h[s].value;
      } else {
        assert h'[j] == h[j] && h'[Parent(j)] == h[Parent(j)];
      }
    }
    forall j | 0 < j < |h'| && Parent(j) == s
      ensures h'[Parent(s)].value <= h'[j].value
    {
      assert h[s].value <= h[j].value;
    }
  }

  /** Sift-down turns a heap that is broken only below i into a heap. */
  lemma {:induction false} SiftDownRestoresHeap(h: seq<Node>, i: nat)
    requires HeapExceptBelow(h, i)
    ensures IsMinHeap(SiftDown(h, i).heap)
    decreases |h| - i
  {
    var s := Smallest(h, i);
    if s == i {
      SettledIsHeap(h, i);
    } else {
      SwapDownMovesBreak(h, i);
      SiftDownRestoresHeap(Exchange(h, i, s), s);
    }
  }

  /** heapifyUp on a heap with one node appended yields a heap. */
  lemma PushKeepsHeap(h: seq<Node>, x: Node)
    requires IsMinHeap(h)
    ensures IsMinHeap(SiftUp(h + [x], |h|).heap)
  {
    var g := h + [x];
    forall j | 0 < j < |h|
      ensures g[Parent(j)].value <= g[j].value
    {
      assert g[j] == h[j] && g[Parent(j)] == h[Parent(j)];
    }
    SiftUpRestoresHeap(g, |h|);
  }

  /** heapifyDown from the root of at most three nodes always yields a heap,
      whatever their order. */
  lemma SmallSiftDownIsHeap(h: seq<Node>)
    requires |h| <= 3
    ensures IsMinHeap(SiftDown(h, 0).heap)
  {
    assert forall j :: 0 < j < |h| ==> Parent(j) == 0;
    SiftDownRestoresHeap(h, 0);
  }

  /** The root of a heap holds its smallest value. */
  lemma {:induction false} HeapRootIsMin(h: seq<Node>, j: nat)
    requires IsMinHeap(h) && j < |h|
    ensures h[0].value <= h[j].value
    decreases j
  {
    if j > 0 {
      HeapRootIsMin(h, Parent(j));
    }
  }

  /** No node of a heap has a smaller value than its root. */
  lemma HeapRootIsLeast(h: seq<Node>)
    requires IsMinHeap(h) && |h| > 0
    ensures forall y | y in h :: h[0].value <= y.value
  {
    forall y | y in h
      ensures h[0].value <= y.value
    {
      var t :| 0 <= t < |h| && h[t] == y;
      HeapRootIsMin(h, t);
    }
  }

  /** deepCopyHeap: a snapshot holding, position by position, the same value and id. */
  function DeepCopyHeap(heap: array<Node>): (snapshot: seq<Node>)
    reads heap
    ensures |snapshot| == heap.Length
    ensures forall j :: 0 <= j < heap.Length ==>
              snapshot[j].value == heap[j].value && snapshot[j].id == heap[j].id
  {
    heap[..]
  }

  /** heapifyUp, in place on an array, appending its swaps to `swaps`. */
  method HeapifyUp(heap: array<Node>, index: nat, swaps: seq<Swap>) returns (recorded: seq<Swap>)
    requires index < heap.Length
    modifies heap
    ensures heap[..] == SiftUp(old(heap[..]), index).heap
    ensures recorded == swaps + SiftUp(old(heap[..]), index).swaps
    decreases index
  {
    ghost var before := heap[..];
    if index == 0 {
      return swaps;
    }
    var parentIndex := (index - 1) / 2;
    if heap[parentIndex].value > heap[index].value {
      heap[parentIndex], heap[index] := heap[index], heap[parentIndex];
      ghost var after := Exchange(before, index, parentIndex);
      assert heap[..] == after;
      recorded := HeapifyUp(heap, parentIndex, swaps + [Swap(index, parentIndex)]);
      ghost var rest := SiftUp(after, parentIndex);
      assert SiftUp(before, index) == Sifted(rest.heap, [Swap(index, parentIndex)] + rest.swaps);
    } else {
      recorded := swaps;
    }
  }

  /** The comparisons at the start of heapifyDown, read off the array. */
  method SmallestIndex(heap: array<Node>, index: nat) returns (smallest: nat)
    ensures smallest == Smallest(heap[..], index)
  {
    var leftIndex := 2 * index + 1;
    var rightIndex := 2 * index + 2;
    smallest := index;
    if leftIndex < heap.Length && heap[leftIndex].value < heap[smallest].value {
      smallest := leftIndex;
    }
    if rightIndex < heap.Length && heap[rightIndex].value < heap[smallest].value {
      smallest := rightIndex;
    }
  }

  /** heapifyDown, in place on an array, appending its swaps to `swaps`. */
  method HeapifyDown(heap: array<Node>, index: nat, swaps: seq<Swap>) returns (recorded: seq<Swap>)
    modifies heap
    ensures heap[..] == SiftDown(old(heap[..]), index).heap
    ensures recorded == swaps + SiftDown(old(heap[..]), index).swaps
    decreases heap.Length - index
  {
    ghost var before := heap[..];
    var smallest := SmallestIndex(heap, index);
    if smallest != index {
      ghost var after := Exchange(before, index, smallest);
      ghost var rest := SiftDown(after, smallest);
      assert SiftDown(before, index) == Sifted(rest.heap, [Swap(index, smallest)] + rest.swaps);
      heap[smallest], heap[index] := heap[index], heap[smallest];
      assert heap[..] == after;
      recorded := HeapifyDown(heap, smallest, swaps + [Swap(index, smallest)]);
    } else {
      recorded := swaps;
    }
  }
}
