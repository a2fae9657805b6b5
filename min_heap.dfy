/**
 * The binary min-heap the Huffman builder keeps its pending trees in. The
 * elements live in one array; the children of position i are positions
 * 2i + 1 and 2i + 2, so the parent of position i > 0 is (i - 1) / 2
 * (Dafny's `/` on non-negative operands floors, as `Math.floor` does).
 * The heap is ordered by probability alone.
 */
module Heap {
  import opened Symbols
  import opened CodeTree

  /** The heap order: no element is lighter than its parent. */
  predicate IsHeap(h: seq<Tree>)
  {
    forall i, j :: 0 <= i < j < |h| && (j == 2 * i + 1 || j == 2 * i + 2) ==> h[i].probability <= h[j].probability
  }

  /**
   * The state while an element rises: the heap order holds on every edge
   * except the one from `k` up to its parent, and that parent is no heavier
   * than the children of `k`.
   */
  predicate RisingAt(h: seq<Tree>, k: nat)
  {
    k < |h| &&
    (forall i, j :: 0 <= i < j < |h| && (j == 2 * i + 1 || j == 2 * i + 2) && j != k ==> h[i].probability <= h[j].probability) &&
    (k > 0 ==> forall j :: 0 < j < |h| && (j == 2 * k + 1 || j == 2 * k + 2) ==> h[(k - 1) / 2].probability <= h[j].probability)
  }

  /**
   * The state while an element sinks: the heap order holds on every edge
   * except those from `k` down to its children, and the parent of `k` is no
   * heavier than those children.
   */
  predicate SinkingAt(h: seq<Tree>, k: nat)
  {
    k < |h| &&
    (forall i, j :: 0 <= i < j < |h| && (j == 2 * i + 1 || j == 2 * i + 2) && i != k ==> h[i].probability <= h[j].probability) &&
    (k > 0 ==> forall j :: 0 < j < |h| && (j == 2 * k + 1 || j == 2 * k + 2) ==> h[(k - 1) / 2].probability <= h[j].probability)
  }

  /** The root of a heap is no heavier than the element at `i`. */
  lemma {:induction false} RootIsLightest(h: seq<Tree>, i: nat)
    requires IsHeap(h) && i < |h|
    ensures h[0].probability <= h[i].probability
    decreases i
  {
    if i > 0 {
      RootIsLightest(h, (i - 1) / 2);
    }
  }

  /** The root of a non-empty heap is no heavier than any of its elements. */
  lemma RootIsMinimum(h: seq<Tree>)
    requires IsHeap(h) && |h| > 0
    ensures forall t :: t in h ==> h[0].probability <= t.probability
  {
    forall t | t in h
      ensures h[0].probability <= t.probability
    {
      var i :| 0 <= i < |h| && h[i] == t;
      RootIsLightest(h, i);
    }
  }

  /** A node appended to a heap starts rising from the last position. */
  lemma AppendRises(h: seq<Tree>, node: Tree)
    requires IsHeap(h)
    ensures RisingAt(h + [node], |h|)
    ensures multiset(h) + multiset{node} == multiset(h + [node])
  {
  }

  /**
   * Popping the last element of a heap with at least two elements and
   * writing it over the root leaves the other elements, with the new root
   * to sink.
   */
  lemma LastReplacesRoot(h: seq<Tree>)
    requires IsHeap(h) && |h| >= 2
    ensures SinkingAt(h[..|h| - 1][0 := h[|h| - 1]], 0)
    ensures multiset(h[..|h| - 1][0 := h[|h| - 1]]) + multiset{h[0]} == multiset(h)
  {
    var n := |h|;
    var h' := h[..n - 1][0 := h[n - 1]];
    assert forall i :: 0 < i < |h'| ==> h'[i] == h[i];
    assert SinkingAt(h', 0);
    LastReplacesRootElements(h);
  }

  lemma LastReplacesRootElements(h: seq<Tree>)
    requires |h| >= 2
    ensures multiset(h[..|h| - 1][0 := h[|h| - 1]]) + multiset{h[0]} == multiset(h)
  {
    var n := |h|;
    var rest := h[..n - 1];
    calc {
      multiset(rest[0 := h[n - 1]]) + multiset{h[0]};
      { assert rest[0 := h[n - 1]] == [h[n - 1]] + rest[1..]; }
      multiset([h[n - 1]] + rest[1..]) + multiset{h[0]};
      multiset([h[0]] + rest[1..]) + multiset{h[n - 1]};
      { assert rest == [h[0]] + rest[1..]; }
      multiset(rest) + multiset{h[n - 1]};
      { assert h == rest + [h[n - 1]]; }
      multiset(h);
    }
  }

  /** Exchanging two positions keeps the same elements. */
  lemma SwapKeepsElements(h: seq<Tree>, a: nat, b: nat)
    requires a < |h| && b < |h|
    ensures multiset(h[a := h[b]][b := h[a]]) == multiset(h)
  {
  }

  /**
   * One step of sinking: exchanging the element at `k` with its lightest
   * child, when that child is lighter than it, moves the exception down to
   * the child's position.
   */
  lemma SinkStep(h: seq<Tree>, k: nat, s: nat)
    requires SinkingAt(h, k)
    requires (s == 2 * k + 1 || s == 2 * k + 2) && s < |h|
    requires h[s].probability < h[k].probability
    requires 2 * k + 1 < |h| ==> h[s].probability <= h[2 * k + 1].probability
    requires 2 * k + 2 < |h| ==> h[s].probability <= h[2 * k + 2].probability
    ensures SinkingAt(h[k := h[s]][s := h[k]], s)
  {
  }

  /** Sinking stops with a heap once no child is lighter than the element at `k`. */
  lemma SinkDone(h: seq<Tree>, k: nat)
    requires SinkingAt(h, k)
    requires 2 * k + 1 < |h| ==> h[k].probability <= h[2 * k + 1].probability
    requires 2 * k + 2 < |h| ==> h[k].probability <= h[2 * k + 2].probability
    ensures IsHeap(h)
  {
  }

  /**
   * One step of rising: exchanging the element at `k` with its parent, when
   * it is lighter than the parent, moves the exception up to the parent's
   * position.
   */
  lemma RiseStep(h: seq<Tree>, k: nat)
    requires RisingAt(h, k) && k > 0
    requires h[k].probability < h[(k - 1) / 2].probability
    ensures RisingAt(h[(k - 1) / 2 := h[k]][k := h[(k - 1) / 2]], (k - 1) / 2)
  {
  }

  /** Rising stops with a heap at the root or once the parent is no heavier. */
  lemma RiseDone(h: seq<Tree>, k: nat)
    requires RisingAt(h, k)
    requires k > 0 ==> h[(k - 1) / 2].probability <= h[k].probability
    ensures IsHeap(h)
  {
  }

  class MinHeap {
    var heap: seq<Tree>

    constructor()
      ensures heap == []
    {
      heap := [];
    }

    /** Appends `node` and lets it rise to its place. */
    method Insert(node: Tree)
      requires IsHeap(heap)
      modifies this
      ensures IsHeap(heap)
      ensures multiset(old(heap)) + multiset{node} == multiset(heap)
      ensures |heap| == |old(heap)| + 1
    {
      AppendRises(heap, node);
      heap := heap + [node];
      BubbleUp(|heap| - 1);
    }

    /**
     * Removes and returns the root, which is the lightest element; with more
     * than one element the last one is popped, takes the root's place and
     * sinks.
     */
    method ExtractMin() returns (min: Tree)
      requires IsHeap(heap) && |heap| > 0
      modifies this
      ensures IsHeap(heap)
      ensures min == old(heap)[0]
      ensures multiset(heap) + multiset{min} == multiset(old(heap))
      ensures |heap| == |old(heap)| - 1
      ensures forall t :: t in old(heap) ==> min.probability <= t.probability
    {
      RootIsMinimum(heap);
      if |heap| == 1 {
        min := heap[0];
        assert heap == [min];
        heap := [];
        return;
      }
      min := heap[0];
      LastReplacesRoot(heap);
      var last := heap[|heap| - 1];
      heap := heap[..|heap| - 1];
      heap := heap[0 := last];
      SinkDown(0);
    }

    /** Moves the element at `index` up while it is lighter than its parent. */
    method BubbleUp(index: nat)
      requires RisingAt(heap, index)
      modifies this
      ensures IsHeap(heap)
      ensures multiset(heap) == multiset(old(heap))
    {
      var element := heap[index];
      var i := index;
      while i > 0
        invariant RisingAt(heap, i) && heap[i] == element
        invariant multiset(heap) == multiset(old(heap))
        decreases i
      {
        var parentIndex := (i - 1) / 2;
        var parent := heap[parentIndex];
        if element.probability >= parent.probability {
          break;
        }
        RiseStep(heap, i);
        var next := heap[parentIndex := element][i := parent];
        assert multiset(next) == multiset(heap) by {
          SwapKeepsElements(heap, parentIndex, i);
        }
        heap := next;
        i := parentIndex;
      }
      RiseDone(heap, i);
    }

    /**
     * Moves the element at `index` down, exchanging it with its lighter
     * child while that child is lighter than it; on a tie between the two
     * children the left one is taken.
     */
    method SinkDown(index: nat)
      requires SinkingAt(heap, index)
      modifies this
      ensures IsHeap(heap)
      ensures multiset(heap) == multiset(old(heap))
    {
      var h := heap;
      var length := |h|;
      var element := h[index];
      var parentIndex := index;
      while true
        invariant |h| == length
        invariant SinkingAt(h, parentIndex) && h[parentIndex] == element
        invariant multiset(h) == multiset(old(heap))
        decreases length - parentIndex
      {
        var leftChildIdx := 2 * parentIndex + 1;
        var rightChildIdx := 2 * parentIndex + 2;
        var swap: Option<nat> := None;
        if leftChildIdx < length {
          if h[leftChildIdx].probability < element.probability {
            swap := Some(leftChildIdx);
          }
        }
        if rightChildIdx < length {
          if (swap.None? && h[rightChildIdx].probability < element.probability)
            || (swap.Some? && h[rightChildIdx].probability < h[leftChildIdx].probability)
          {
            swap := Some(rightChildIdx);
          }
        }
        if swap.None? {
          SinkDone(h, parentIndex);
          break;
        }
        var s := swap.value;
        SinkStep(h, parentIndex, s);
        var next := h[parentIndex := h[s]][s := element];
        assert multiset(next) == multiset(h) by {
          SwapKeepsElements(h, parentIndex, s);
        }
        h := next;
        parentIndex := s;
      }
      heap := h;
    }
  }
}
