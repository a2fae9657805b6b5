/**
 * The Huffman coder: the tree built by repeatedly merging the two lightest
 * pending trees of a min-heap, the code table read off that tree (left
 * edge '0', right edge '1'), and its average code length.
 */
module Huffman {
  import opened Folds
  import opened Symbols
  import opened Codec
  import opened CodeTree
  import opened Heap

  /** Every internal node was made from the tree taken out first on its left, so its left child is no heavier. */
  predicate LeftLighter(t: Tree)
  {
    match t
    case Leaf(_, _, _) => true
    case Node(_, _, l, r) => l.probability <= r.probability && LeftLighter(l) && LeftLighter(r)
  }

  /** What holds of every tree the builder keeps in its heap. */
  predicate WellBuilt(t: Tree)
  {
    Merged(t) && LeftLighter(t)
  }

  /** Every tree of a collection is well built. */
  predicate AllWellBuilt(h: seq<Tree>)
  {
    forall i :: 0 <= i < |h| ==> WellBuilt(h[i])
  }

  /** The node built from the first tree taken (left) and the second (right), carrying both sums. */
  function Merge(left: Tree, right: Tree): Tree
  {
    Node(left.probability + right.probability, left.count + right.count, left, right)
  }

  /** One round of the merge loop: the first tree taken out and the second. */
  datatype Round = Round(left: Tree, right: Tree)

  /** The pending trees after a round: both taken out, their merge put back. */
  function AfterRound(pending: multiset<Tree>, round: Round): multiset<Tree>
  {
    pending - multiset{round.left} - multiset{round.right} + multiset{Merge(round.left, round.right)}
  }

  /** The Huffman choice: the first tree is a lightest pending tree, the second a lightest of the rest. */
  predicate GreedyRound(pending: multiset<Tree>, round: Round)
  {
    var rest := pending - multiset{round.left};
    round.left in pending && (forall t :: t in pending ==> round.left.probability <= t.probability) &&
    round.right in rest && (forall t :: t in rest ==> round.right.probability <= t.probability)
  }

  /** The pending trees after playing `rounds` from `start`. */
  function Replay(start: multiset<Tree>, rounds: seq<Round>): multiset<Tree>
    decreases |rounds|
  {
    if rounds == [] then start
    else AfterRound(Replay(start, rounds[..|rounds| - 1]), rounds[|rounds| - 1])
  }

  /** Every round played from `start` made the Huffman choice. */
  predicate Greedy(start: multiset<Tree>, rounds: seq<Round>)
    decreases |rounds|
  {
    rounds == [] ||
    (Greedy(start, rounds[..|rounds| - 1]) && GreedyRound(Replay(start, rounds[..|rounds| - 1]), rounds[|rounds| - 1]))
  }

  /** Playing one more round extends a greedy run when that round is greedy too. */
  lemma GreedySnoc(start: multiset<Tree>, rounds: seq<Round>, round: Round)
    requires Greedy(start, rounds) && GreedyRound(Replay(start, rounds), round)
    ensures Greedy(start, rounds + [round])
    ensures Replay(start, rounds + [round]) == AfterRound(Replay(start, rounds), round)
  {
    assert (rounds + [round])[..|rounds|] == rounds;
  }

  /** A lightest tree taken out of `before` is a lightest member of it, and what remains is `before` without it. */
  lemma TakenLightest(before: seq<Tree>, after: seq<Tree>, t: Tree)
    requires multiset(after) + multiset{t} == multiset(before)
    requires forall x :: x in before ==> t.probability <= x.probability
    ensures t in multiset(before)
    ensures forall x :: x in multiset(before) ==> t.probability <= x.probability
    ensures multiset(before) - multiset{t} == multiset(after)
  {
  }

  /** Two trees taken out and their merge put back leave exactly the trees after the round. */
  lemma TwoOutOneIn(h0: seq<Tree>, h1: seq<Tree>, h2: seq<Tree>, h3: seq<Tree>, left: Tree, right: Tree)
    requires multiset(h1) + multiset{left} == multiset(h0)
    requires multiset(h2) + multiset{right} == multiset(h1)
    requires multiset(h2) + multiset{Merge(left, right)} == multiset(h3)
    ensures multiset(h3) == AfterRound(multiset(h0), Round(left, right))
  {
    assert multiset(h0) - multiset{left} == multiset(h1);
    assert multiset(h1) - multiset{right} == multiset(h2);
  }

  /**
   * Taking out a lightest tree, then a lightest of the rest, and putting
   * their merge back is a greedy round, and leaves exactly the trees after it.
   */
  lemma TwoTakenOneBack(h0: seq<Tree>, h1: seq<Tree>, h2: seq<Tree>, h3: seq<Tree>, left: Tree, right: Tree)
    requires multiset(h1) + multiset{left} == multiset(h0)
    requires forall t :: t in h0 ==> left.probability <= t.probability
    requires multiset(h2) + multiset{right} == multiset(h1)
    requires forall t :: t in h1 ==> right.probability <= t.probability
    requires multiset(h2) + multiset{Merge(left, right)} == multiset(h3)
    ensures GreedyRound(multiset(h0), Round(left, right))
    ensures multiset(h3) == AfterRound(multiset(h0), Round(left, right))
  {
    TakenLightest(h0, h1, left);
    TakenLightest(h1, h2, right);
    TwoOutOneIn(h0, h1, h2, h3, left, right);
  }

  /** Adding one tree to a collection adds its leaves to the collection's leaves. */
  lemma FlattenAdd(before: seq<Tree>, after: seq<Tree>, t: Tree)
    requires multiset(before) + multiset{t} == multiset(after)
    ensures multiset(Flatten(after, Leaves)) == multiset(Flatten(before, Leaves)) + multiset(Leaves(t))
  {
    FlattenPermutation(after, before + [t], Leaves);
    FlattenAppend(before, [t], Leaves);
    assert Flatten([t], Leaves) == Leaves(t) by {
      assert [t][..0] == [];
    }
  }

  /** Adding a well-built tree to a well-built collection keeps it well built. */
  lemma AddWellBuilt(before: seq<Tree>, after: seq<Tree>, t: Tree)
    requires multiset(before) + multiset{t} == multiset(after)
    requires AllWellBuilt(before) && WellBuilt(t)
    ensures AllWellBuilt(after)
  {
    forall i | 0 <= i < |after|
      ensures WellBuilt(after[i])
    {
      assert after[i] in multiset(after);
      if after[i] != t {
        assert after[i] in multiset(before);
        var j :| 0 <= j < |before| && before[j] == after[i];
      }
    }
  }

  /** Taking one tree out of a collection leaves trees that were in it, and the tree taken was in it. */
  lemma TakeOut(before: seq<Tree>, after: seq<Tree>, t: Tree)
    requires multiset(after) + multiset{t} == multiset(before)
    ensures t in before && forall x :: x in after ==> x in before
    ensures AllWellBuilt(before) ==> AllWellBuilt(after) && WellBuilt(t)
  {
    assert t in multiset(before);
    forall x | x in after
      ensures x in before
    {
      assert x in multiset(after);
      assert x in multiset(before);
    }
    if AllWellBuilt(before) {
      var k :| 0 <= k < |before| && before[k] == t;
      forall i | 0 <= i < |after|
        ensures WellBuilt(after[i])
      {
        assert after[i] in multiset(before);
        var j :| 0 <= j < |before| && before[j] == after[i];
      }
    }
  }

  /** Merging two well-built trees, the lighter on the left, gives a well-built tree. */
  lemma MergeWellBuilt(left: Tree, right: Tree)
    requires WellBuilt(left) && WellBuilt(right)
    requires left.probability <= right.probability
    ensures WellBuilt(Node(left.probability + right.probability, left.count + right.count, left, right))
  {
  }

  /** The leaves made from the first i + 1 rows extend those made from the first i. */
  lemma LeavesOfStatsSnoc(stats: seq<SymbolStat>, i: nat)
    requires i < |stats|
    ensures LeavesOfStats(stats[..i + 1]) == LeavesOfStats(stats[..i]) + [LeafOf(stats[i])]
  {
    assert stats[..i + 1] == stats[..i] + [stats[i]];
    MapAppend(stats[..i], [stats[i]], LeafOf);
  }

  /** The root a builder ends with carries the sums over the rows it was built from. */
  lemma RootSums(root: Tree, stats: seq<SymbolStat>)
    requires Merged(root)
    requires multiset(Leaves(root)) == multiset(LeavesOfStats(stats))
    ensures InternalCount(root) == |stats| - 1
    ensures root.probability == ProbabilitySum(stats)
    ensures root.count == CountSum(stats)
  {
    LeafCount(root);
    calc {
      InternalCount(root) + 1;
      |Leaves(root)|;
      |multiset(Leaves(root))|;
      |multiset(LeavesOfStats(stats))|;
      |stats|;
    }
    MergedSums(root);
    SumPermutation(Leaves(root), LeavesOfStats(stats), TreeProbability);
    TotalPermutation(Leaves(root), LeavesOfStats(stats), TreeCount);
    LeavesOfStatsSums(stats);
  }

  /** The first phase of the builder: one leaf per row, inserted into a new min-heap in row order. */
  method HeapOfLeaves(stats: seq<SymbolStat>) returns (heap: MinHeap)
    ensures fresh(heap)
    ensures IsHeap(heap.heap) && |heap.heap| == |stats|
    ensures multiset(heap.heap) == multiset(LeavesOfStats(stats))
    ensures multiset(Flatten(heap.heap, Leaves)) == multiset(LeavesOfStats(stats))
    ensures AllWellBuilt(heap.heap)
  {
    heap := new MinHeap();
    for i := 0 to |stats|
      invariant fresh(heap)
      invariant IsHeap(heap.heap) && |heap.heap| == i
      invariant multiset(heap.heap) == multiset(LeavesOfStats(stats[..i]))
      invariant multiset(Flatten(heap.heap, Leaves)) == multiset(LeavesOfStats(stats[..i]))
      invariant AllWellBuilt(heap.heap)
    {
      var before := heap.heap;
      var leaf := LeafOf(stats[i]);
      heap.Insert(leaf);
      assert multiset(heap.heap) == multiset(LeavesOfStats(stats[..i + 1])) by {
        LeavesOfStatsSnoc(stats, i);
      }
      assert multiset(Flatten(heap.heap, Leaves)) == multiset(LeavesOfStats(stats[..i + 1])) by {
        FlattenAdd(before, heap.heap, leaf);
        LeavesOfStatsSnoc(stats, i);
      }
      assert AllWellBuilt(heap.heap) by {
        AddWellBuilt(before, heap.heap, leaf);
      }
    }
    assert stats[..|stats|] == stats;
  }

  /** A round neither loses nor adds leaves, and leaves every pending tree well built. */
  lemma RoundKeepsLeaves(h0: seq<Tree>, h1: seq<Tree>, h2: seq<Tree>, h3: seq<Tree>, left: Tree, right: Tree)
    requires multiset(h1) + multiset{left} == multiset(h0)
    requires forall t :: t in h0 ==> left.probability <= t.probability
    requires multiset(h2) + multiset{right} == multiset(h1)
    requires multiset(h2) + multiset{Merge(left, right)} == multiset(h3)
    requires AllWellBuilt(h0)
    ensures multiset(Flatten(h3, Leaves)) == multiset(Flatten(h0, Leaves))
    ensures AllWellBuilt(h3)
  {
    assert multiset(Flatten(h3, Leaves)) == multiset(Flatten(h0, Leaves)) by {
      FlattenAdd(h1, h0, left);
      FlattenAdd(h2, h1, right);
      FlattenAdd(h2, h3, Merge(left, right));
    }
    TakeOut(h0, h1, left);
    TakeOut(h1, h2, right);
    assert right in h0;
    MergeWellBuilt(left, right);
    AddWellBuilt(h2, h3, Merge(left, right));
  }

  /**
   * One round of the merge loop: the two lightest trees come out, the first
   * one taken becomes the left child, and the node merging them, carrying
   * the sums of their probabilities and counts, goes back in.
   */
  method MergeLightestTwo(heap: MinHeap) returns (left: Tree, right: Tree)
    requires IsHeap(heap.heap) && |heap.heap| > 1 && AllWellBuilt(heap.heap)
    modifies heap
    ensures GreedyRound(old(multiset(heap.heap)), Round(left, right))
    ensures multiset(heap.heap) == AfterRound(old(multiset(heap.heap)), Round(left, right))
    ensures IsHeap(heap.heap) && |heap.heap| == old(|heap.heap|) - 1
    ensures multiset(Flatten(heap.heap, Leaves)) == old(multiset(Flatten(heap.heap, Leaves)))
    ensures AllWellBuilt(heap.heap)
  {
    var h0 := heap.heap;
    left := heap.ExtractMin();
    var h1 := heap.heap;
    right := heap.ExtractMin();
    var h2 := heap.heap;
    heap.Insert(Merge(left, right));
    TwoTakenOneBack(h0, h1, h2, heap.heap, left, right);
    RoundKeepsLeaves(h0, h1, h2, heap.heap, left, right);
  }

  /** The one tree left in the heap holds every leaf pending, and it is well built. */
  lemma LastTree(h: seq<Tree>, rest: seq<Tree>, root: Tree)
    requires |h| == 1 && root == h[0]
    requires multiset(rest) + multiset{root} == multiset(h)
    requires AllWellBuilt(h)
    ensures multiset(h) == multiset{root}
    ensures multiset(Leaves(root)) == multiset(Flatten(h, Leaves))
    ensures WellBuilt(root)
  {
    assert h == [root];
    assert Flatten(h, Leaves) == Leaves(root) by {
      assert h[..0] == [];
    }
  }

  /**
   * Puts one leaf per row into a min-heap, then, while more than one tree
   * is pending, merges the two lightest; the last tree is the root. The
   * ghost `rounds` records the pairs merged, in order.
   */
  method BuildHuffmanTree(stats: seq<SymbolStat>) returns (root: Tree, ghost rounds: seq<Round>)
    requires |stats| > 0
    ensures Greedy(multiset(LeavesOfStats(stats)), rounds)
    ensures Replay(multiset(LeavesOfStats(stats)), rounds) == multiset{root}
    ensures |rounds| == |stats| - 1
    ensures multiset(Leaves(root)) == multiset(LeavesOfStats(stats))
    ensures Merged(root) && LeftLighter(root)
    ensures InternalCount(root) == |stats| - 1
    ensures root.probability == ProbabilitySum(stats)
    ensures root.count == CountSum(stats)
  {
    ghost var start := multiset(LeavesOfStats(stats));
    var heap := HeapOfLeaves(stats);
    rounds := [];
    while |heap.heap| > 1
      invariant fresh(heap)
      invariant IsHeap(heap.heap) && |heap.heap| >= 1
      invariant Greedy(start, rounds) && Replay(start, rounds) == multiset(heap.heap)
      invariant |rounds| + |heap.heap| == |stats|
      invariant multiset(Flatten(heap.heap, Leaves)) == multiset(LeavesOfStats(stats))
      invariant AllWellBuilt(heap.heap)
      decreases |heap.heap|
    {
      var left, right := MergeLightestTwo(heap);
      GreedySnoc(start, rounds, Round(left, right));
      rounds := rounds + [Round(left, right)];
    }
    var h := heap.heap;
    root := heap.ExtractMin();
    LastTree(h, heap.heap, root);
    RootSums(root, stats);
  }

  /** The code table: each leaf's root path, left edge '0', right edge '1'. */
  function HuffmanCodes(root: Tree): (codes: seq<Entry>)
    ensures PrefixFree(codes)
    ensures Map(codes, EntryLeaf) == Leaves(root)
    ensures root.Node? ==> NonEmptyCodes(codes)
    ensures root.Leaf? ==> codes == [Entry(root.symbol, [], root.probability, root.count)]
    ensures forall i :: 0 <= i < |codes| ==> Follow(root, codes[i].code, '0', '1') == Some(Leaves(root)[i])
  {
    RootWalk(root, '0', '1');
    Walk(root, [], '0', '1')
  }

  /**
   * The average code length of a Huffman table is the sum of the
   * probabilities of the merged nodes: every leaf's probability is counted
   * once for each node above it.
   */
  lemma HuffmanAverage(root: Tree)
    requires Merged(root)
    ensures AverageCodeLength(HuffmanCodes(root)) == MergedProbabilities(root)
  {
    AverageOfMergedWalk(root, '0', '1');
  }

  /**
   * What the Huffman component computes from a table of rows: the tree, its
   * code table and the average code length. The ghost `tree` and `rounds`
   * name the tree the builder made and the greedy rounds that made it.
   */
  method HuffmanCoder(stats: seq<SymbolStat>) returns (codes: seq<Entry>, averageCodeLength: real, ghost tree: Tree, ghost rounds: seq<Round>)
    requires |stats| > 0
    ensures Greedy(multiset(LeavesOfStats(stats)), rounds) && |rounds| == |stats| - 1
    ensures Replay(multiset(LeavesOfStats(stats)), rounds) == multiset{tree}
    ensures codes == HuffmanCodes(tree)
    ensures averageCodeLength == MergedProbabilities(tree)
    ensures |codes| == |stats| && PrefixFree(codes)
    ensures multiset(Map(codes, EntryLeaf)) == multiset(LeavesOfStats(stats))
    ensures forall c :: c in StatSymbols(stats) ==> HasSymbol(codes, c)
    ensures |stats| > 1 ==> NonEmptyCodes(codes)
    ensures |stats| == 1 ==> codes == [Entry(stats[0].symbol, [], stats[0].probability, stats[0].count)]
    ensures averageCodeLength == AverageCodeLength(codes)
    ensures |stats| > 1 ==> forall m :: Decode(Encode(m, codes), codes) == Known(m, codes)
  {
    var root;
    root, rounds := BuildHuffmanTree(stats);
    tree := root;
    codes := HuffmanCodes(root);
    averageCodeLength := AverageCodeLength(codes);
    HuffmanAverage(root);
    WalkCoversStats(root, stats, [], '0', '1');
    if |stats| > 1 {
      LeafCount(root);
      assert root.Node?;
      forall m
        ensures Decode(Encode(m, codes), codes) == Known(m, codes)
      {
        RoundTrip(codes, m);
      }
    } else {
      assert |Leaves(root)| == 1;
      LeafCount(root);
      assert root.Leaf?;
      assert multiset(Leaves(root)) == multiset{LeafOf(stats[0])};
      assert root in multiset{LeafOf(stats[0])};
    }
  }
}
