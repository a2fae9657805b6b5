/**
 * The Shannon-Fano coder: sort the rows by descending probability, split
 * them where the two groups' probability sums are closest, recurse on both
 * groups, and read the codes off the tree with left edge '1' and right
 * edge '0'.
 */
module ShannonFano {
  import opened Folds
  import opened Symbols
  import opened Codec
  import opened CodeTree

  // ------------------------------------------------------------------ sort

  /** Rows in non-increasing order of probability. */
  predicate SortedDesc(s: seq<SymbolStat>)
  {
    forall i, j :: 0 <= i < j < |s| ==> s[i].probability >= s[j].probability
  }

  /**
   * `x` placed after every row of `sorted` that is at least as probable:
   * where a stable sort puts a row that comes later in its input.
   */
  function InsertDesc(sorted: seq<SymbolStat>, x: SymbolStat): (r: seq<SymbolStat>)
    ensures |r| == |sorted| + 1
    decreases |sorted|
  {
    if sorted == [] || sorted[|sorted| - 1].probability >= x.probability then sorted + [x]
    else InsertDesc(sorted[..|sorted| - 1], x) + [sorted[|sorted| - 1]]
  }

  /**
   * The result of sorting by descending probability with a stable sort
   * (rows of equal probability keep their input order), which is what the
   * comparator `b.probability - a.probability` gives. A stable sort's
   * result is unique, so an insertion sort serves as its definition.
   */
  function SortDesc(s: seq<SymbolStat>): (r: seq<SymbolStat>)
    ensures |r| == |s|
    decreases |s|
  {
    if s == [] then [] else InsertDesc(SortDesc(s[..|s| - 1]), s[|s| - 1])
  }

  /** Inserting adds exactly the one row. */
  lemma {:induction false} InsertDescElements(sorted: seq<SymbolStat>, x: SymbolStat)
    ensures multiset(InsertDesc(sorted, x)) == multiset(sorted) + multiset{x}
    decreases |sorted|
  {
    if sorted != [] && sorted[|sorted| - 1].probability < x.probability {
      var init, last := sorted[..|sorted| - 1], sorted[|sorted| - 1];
      InsertDescElements(init, x);
      assert sorted == init + [last];
    }
  }

  /** The sort keeps exactly the rows it is given: its result is a permutation of its input. */
  lemma {:induction false} SortDescElements(s: seq<SymbolStat>)
    ensures multiset(SortDesc(s)) == multiset(s)
    decreases |s|
  {
    if s != [] {
      var init := s[..|s| - 1];
      SortDescElements(init);
      InsertDescElements(SortDesc(init), s[|s| - 1]);
      assert s == init + [s[|s| - 1]];
    }
  }

  lemma {:induction false} InsertDescSorted(sorted: seq<SymbolStat>, x: SymbolStat)
    requires SortedDesc(sorted)
    ensures SortedDesc(InsertDesc(sorted, x))
    decreases |sorted|
  {
    if sorted == [] || sorted[|sorted| - 1].probability >= x.probability {
    } else {
      var init, last := sorted[..|sorted| - 1], sorted[|sorted| - 1];
      InsertDescSorted(init, x);
      InsertDescElements(init, x);
      var r := InsertDesc(init, x);
      forall i | 0 <= i < |r|
        ensures r[i].probability >= last.probability
      {
        assert r[i] in multiset(init) + multiset{x};
        if r[i] != x {
          assert r[i] in init;
        }
      }
    }
  }

  /** The sort's result is in non-increasing order of probability. */
  lemma {:induction false} SortDescSorted(s: seq<SymbolStat>)
    ensures SortedDesc(SortDesc(s))
    decreases |s|
  {
    if s != [] {
      SortDescSorted(s[..|s| - 1]);
      InsertDescSorted(SortDesc(s[..|s| - 1]), s[|s| - 1]);
    }
  }

  /** Sorting rows that are already in order leaves them as they are. */
  lemma {:induction false} SortDescOfSorted(s: seq<SymbolStat>)
    requires SortedDesc(s)
    ensures SortDesc(s) == s
    decreases |s|
  {
    if s != [] {
      var n := |s|;
      var init, last := s[..n - 1], s[n - 1];
      assert SortedDesc(init) by {
        forall i, j | 0 <= i < j < |init|
          ensures init[i].probability >= init[j].probability
        {
          assert init[i] == s[i] && init[j] == s[j];
        }
      }
      SortDescOfSorted(init);
      assert init == [] || init[|init| - 1].probability >= last.probability by {
        if n > 1 {
          assert init[n - 2] == s[n - 2];
        }
      }
      assert s == init + [last];
    }
  }

  /** Every slice of rows in order is in order. */
  lemma SortedSlice(s: seq<SymbolStat>, lo: nat, hi: nat)
    requires SortedDesc(s) && lo <= hi <= |s|
    ensures SortedDesc(s[lo..hi])
  {
  }

  /**
   * Sorts the array in place by descending probability, stably: the array
   * ends up holding exactly what SortDesc gives for its old contents.
   */
  method SortByProbability(a: array<SymbolStat>)
    modifies a
    ensures a[..] == SortDesc(old(a[..]))
  {
    ghost var input := a[..];
    for i := 0 to a.Length
      invariant a[..i] == SortDesc(input[..i])
      invariant a[i..] == input[i..]
    {
      ghost var before := a[..];
      InsertAt(a, i);
      assert before[..i] == SortDesc(input[..i]) && before[i] == input[i] by {
        assert before[i..][0] == input[i..][0];
      }
      assert a[..i + 1] == SortDesc(input[..i + 1]) by {
        SortDescSnoc(input, i);
      }
      assert a[i + 1..] == input[i + 1..] by {
        assert before[i + 1..] == before[i..][1..];
      }
    }
    assert a[..] == a[..a.Length] && input[..a.Length] == input;
  }

  /**
   * One pass of the insertion sort: the row at position i moves left past
   * every lighter row before it.
   */
  method InsertAt(a: array<SymbolStat>, i: nat)
    requires i < a.Length
    modifies a
    ensures a[..i + 1] == InsertDesc(old(a[..i]), old(a[i]))
    ensures a[i + 1..] == old(a[i + 1..])
  {
    ghost var sorted := a[..i];
    ghost var rest := a[i + 1..];
    var x := a[i];
    var j := i;
    while j > 0 && a[j - 1].probability < x.probability
      invariant 0 <= j <= i
      invariant forall k :: 0 <= k < j ==> a[k] == sorted[k]
      invariant forall k :: j < k <= i ==> a[k] == sorted[k - 1]
      invariant forall k :: j <= k < i ==> sorted[k].probability < x.probability
      invariant a[i + 1..] == rest
      decreases j
    {
      a[j] := a[j - 1];
      j := j - 1;
    }
    InsertDescAt(sorted, x, j);
    a[j] := x;
    Placed(a[..], sorted, x, j);
  }

  /** The array after one insertion step, described position by position, as a sequence. */
  lemma Placed(arr: seq<SymbolStat>, sorted: seq<SymbolStat>, x: SymbolStat, j: nat)
    requires j <= |sorted| < |arr|
    requires forall k :: 0 <= k < j ==> arr[k] == sorted[k]
    requires arr[j] == x
    requires forall k :: j < k <= |sorted| ==> arr[k] == sorted[k - 1]
    ensures arr[..|sorted| + 1] == sorted[..j] + [x] + sorted[j..]
  {
    var r := sorted[..j] + [x] + sorted[j..];
    forall k | 0 <= k <= |sorted|
      ensures arr[k] == r[k]
    {
      if k < j {
      } else if k == j {
      } else {
        assert r[k] == sorted[j..][k - j - 1];
      }
    }
  }

  /** Sorting one more row inserts it into the sorted rows before it. */
  lemma SortDescSnoc(s: seq<SymbolStat>, i: nat)
    requires i < |s|
    ensures SortDesc(s[..i + 1]) == InsertDesc(SortDesc(s[..i]), s[i])
  {
    assert s[..i + 1][..i] == s[..i];
  }

  /**
   * Where insertion puts `x`: after the first j rows when the row before
   * position j (if any) is at least as probable as `x` and every row from
   * position j on is lighter.
   */
  lemma {:induction false} InsertDescAt(sorted: seq<SymbolStat>, x: SymbolStat, j: nat)
    requires j <= |sorted|
    requires j > 0 ==> sorted[j - 1].probability >= x.probability
    requires forall k :: j <= k < |sorted| ==> sorted[k].probability < x.probability
    ensures InsertDesc(sorted, x) == sorted[..j] + [x] + sorted[j..]
    decreases |sorted|
  {
    if j < |sorted| {
      var init, last := sorted[..|sorted| - 1], sorted[|sorted| - 1];
      InsertDescAt(init, x, j);
      assert init[..j] == sorted[..j] && sorted[j..] == init[j..] + [last];
    }
  }

  // ----------------------------------------------------------------- split

  function Abs(x: real): real
  {
    if x < 0.0 then -x else x
  }

  /** How far apart the two groups are when the left group ends at position i. */
  function Difference(s: seq<SymbolStat>, i: nat): real
    requires i < |s|
  {
    var leftSum := ProbabilitySum(s[..i + 1]);
    Abs(leftSum - (ProbabilitySum(s) - leftSum))
  }

  /**
   * The first of the positions 0 .. n - 1 with the least difference: a later
   * position replaces the best so far only when strictly better.
   */
  function FirstBest(s: seq<SymbolStat>, n: nat): (k: nat)
    requires 0 < n <= |s|
    ensures k < n
  {
    if n == 1 then 0
    else
      var k := FirstBest(s, n - 1);
      if Difference(s, n - 1) < Difference(s, k) then n - 1 else k
  }

  /** The position FirstBest picks has the least difference, and every earlier position a larger one. */
  lemma {:induction false} FirstBestIsFirstLeast(s: seq<SymbolStat>, n: nat)
    requires 0 < n <= |s|
    ensures forall i :: 0 <= i < n ==> Difference(s, FirstBest(s, n)) <= Difference(s, i)
    ensures forall i :: 0 <= i < FirstBest(s, n) ==> Difference(s, FirstBest(s, n)) < Difference(s, i)
  {
    if n > 1 {
      FirstBestIsFirstLeast(s, n - 1);
    }
  }

  /**
   * Where the rows are cut: the last position of the left group, chosen
   * among 0 .. |s| - 2 so that neither group is empty.
   */
  function SplitIndex(s: seq<SymbolStat>): (k: nat)
    requires |s| >= 2
    ensures k <= |s| - 2
  {
    FirstBest(s, |s| - 1)
  }

  /**
   * The cut leaves both groups non-empty, makes the two groups' sums as
   * close as any cut can, and is the first cut that does.
   */
  lemma SplitIndexIsFirstLeast(s: seq<SymbolStat>)
    requires |s| >= 2
    ensures 0 < SplitIndex(s) + 1 < |s|
    ensures forall i :: 0 <= i <= |s| - 2 ==> Difference(s, SplitIndex(s)) <= Difference(s, i)
    ensures forall i :: 0 <= i < SplitIndex(s) ==> Difference(s, SplitIndex(s)) < Difference(s, i)
  {
    FirstBestIsFirstLeast(s, |s| - 1);
  }

  // ------------------------------------------------------------------ tree

  /**
   * How the builder labels its internal nodes: the probability is the sum
   * over the left group only, the count is the number of rows in both
   * groups (not the sum of their counts).
   */
  predicate Annotated(t: Tree)
  {
    match t
    case Leaf(_, _, _) => true
    case Node(p, c, l, r) =>
      p == Sum(Leaves(l), TreeProbability) && c == |Leaves(l)| + |Leaves(r)| && Annotated(l) && Annotated(r)
  }

  /**
   * The tree built from rows already in order: one row is a leaf; more rows
   * are cut after SplitIndex, the node carrying the left group's
   * probability sum and the number of rows, over the trees of both groups.
   */
  function SplitTree(sorted: seq<SymbolStat>): (t: Tree)
    requires |sorted| > 0
    ensures t.Leaf? <==> |sorted| == 1
    ensures t.Node? ==> t.count == |sorted|
    decreases |sorted|
  {
    if |sorted| == 1 then LeafOf(sorted[0])
    else
      var k := SplitIndex(sorted);
      var leftGroup, rightGroup := sorted[..k + 1], sorted[k + 1..];
      Node(ProbabilitySum(leftGroup), |leftGroup| + |rightGroup|, SplitTree(leftGroup), SplitTree(rightGroup))
  }

  /** The tree the builder returns for the rows `s`: the rows sorted, then split recursively. */
  function ShannonFanoTree(s: seq<SymbolStat>): (t: Tree)
    requires |s| > 0
    ensures t.Leaf? <==> |s| == 1
  {
    SplitTree(SortDesc(s))
  }

  /** The leaves of a split tree, left to right, are the rows it was built from. */
  lemma {:induction false} SplitTreeLeaves(sorted: seq<SymbolStat>)
    requires |sorted| > 0
    ensures Leaves(SplitTree(sorted)) == LeavesOfStats(sorted)
    decreases |sorted|
  {
    if |sorted| > 1 {
      var k := SplitIndex(sorted);
      var leftGroup, rightGroup := sorted[..k + 1], sorted[k + 1..];
      SplitTreeLeaves(leftGroup);
      SplitTreeLeaves(rightGroup);
      assert sorted == leftGroup + rightGroup;
      MapAppend(leftGroup, rightGroup, LeafOf);
    }
  }

  /**
   * Every internal node of a split tree carries the probability sum of its
   * left group and the number of rows below it.
   */
  lemma {:induction false} SplitTreeAnnotated(sorted: seq<SymbolStat>)
    requires |sorted| > 0
    ensures Annotated(SplitTree(sorted))
    decreases |sorted|
  {
    if |sorted| > 1 {
      var k := SplitIndex(sorted);
      var leftGroup, rightGroup := sorted[..k + 1], sorted[k + 1..];
      var left, right := SplitTree(leftGroup), SplitTree(rightGroup);
      assert Sum(Leaves(left), TreeProbability) == ProbabilitySum(leftGroup) by {
        SplitTreeLeaves(leftGroup);
        LeavesOfStatsSums(leftGroup);
      }
      assert |Leaves(left)| + |Leaves(right)| == |leftGroup| + |rightGroup| by {
        SplitTreeLeaves(leftGroup);
        SplitTreeLeaves(rightGroup);
      }
      SplitTreeAnnotated(leftGroup);
      SplitTreeAnnotated(rightGroup);
      assert SplitTree(sorted) == Node(ProbabilitySum(leftGroup), |leftGroup| + |rightGroup|, left, right);
    }
  }

  /**
   * The Shannon-Fano tree has the rows, sorted by descending probability,
   * as its leaves from left to right, and every internal node labelled as
   * the builder labels it.
   */
  lemma ShannonFanoTreeShape(s: seq<SymbolStat>)
    requires |s| > 0
    ensures Leaves(ShannonFanoTree(s)) == LeavesOfStats(SortDesc(s))
    ensures SortedDesc(SortDesc(s)) && multiset(SortDesc(s)) == multiset(s)
    ensures Annotated(ShannonFanoTree(s))
  {
    SplitTreeLeaves(SortDesc(s));
    SplitTreeAnnotated(SortDesc(s));
    SortDescSorted(s);
    SortDescElements(s);
  }

  /** Sorting the two groups cut from rows in order changes neither. */
  lemma SplitGroups(sorted: seq<SymbolStat>, k: nat)
    requires SortedDesc(sorted) && k < |sorted|
    ensures SortDesc(sorted[..k + 1]) == sorted[..k + 1]
    ensures SortDesc(sorted[k + 1..]) == sorted[k + 1..]
  {
    SortedSlice(sorted, 0, k + 1);
    assert sorted[0..k + 1] == sorted[..k + 1];
    SortDescOfSorted(sorted[..k + 1]);
    SortedSlice(sorted, k + 1, |sorted|);
    assert sorted[k + 1..|sorted|] == sorted[k + 1..];
    SortDescOfSorted(sorted[k + 1..]);
  }

  /** A fresh array holding a[lo..hi], as `slice` returns. */
  method Slice(a: array<SymbolStat>, lo: nat, hi: nat) returns (b: array<SymbolStat>)
    requires lo <= hi <= a.Length
    ensures fresh(b) && b[..] == a[lo..hi]
  {
    b := new SymbolStat[hi - lo](i requires 0 <= i < hi - lo reads a => a[lo + i]);
  }

  /** The probability sum over the first i + 1 rows adds row i to the sum over the first i. */
  lemma PrefixSumStep(s: seq<SymbolStat>, i: nat)
    requires i < |s|
    ensures ProbabilitySum(s[..i + 1]) == ProbabilitySum(s[..i]) + s[i].probability
  {
    assert s[..i + 1][..i] == s[..i];
  }

  /**
   * The split scan of the builder: one pass over positions 0 .. n - 2 that
   * keeps the running left sum and the best difference so far (None
   * standing for the initial Infinity), replacing the best only on a
   * strictly smaller difference.
   */
  method FindSplit(symbolCounts: array<SymbolStat>) returns (splitIndex: nat)
    requires symbolCounts.Length >= 2
    ensures splitIndex == SplitIndex(symbolCounts[..])
  {
    ghost var s := symbolCounts[..];
    var n := symbolCounts.Length;
    var total := ProbabilitySum(symbolCounts[..]);
    var cumulativeProbability := 0.0;
    var minDifference: Option<real> := None;
    splitIndex := 0;
    for i := 0 to n - 1
      invariant cumulativeProbability == ProbabilitySum(s[..i])
      invariant i == 0 ==> splitIndex == 0 && minDifference.None?
      invariant i > 0 ==> splitIndex == FirstBest(s, i)
      invariant i > 0 ==> minDifference == Some(Difference(s, splitIndex))
    {
      PrefixSumStep(s, i);
      cumulativeProbability := cumulativeProbability + symbolCounts[i].probability;
      var leftSum := cumulativeProbability;
      var rightSum := total - leftSum;
      var difference := Abs(leftSum - rightSum);
      assert difference == Difference(s, i);
      if minDifference.None? || difference < minDifference.value {
        minDifference := Some(difference);
        splitIndex := i;
      }
    }
  }

  /**
   * The recursive builder. One row becomes a leaf; otherwise the caller's
   * array is sorted in place and the sorted rows are split and built.
   */
  method BuildShannonFanoTree(symbolCounts: array<SymbolStat>) returns (root: Tree)
    requires symbolCounts.Length > 0
    modifies symbolCounts
    ensures root == ShannonFanoTree(old(symbolCounts[..]))
    ensures symbolCounts[..] == SortDesc(old(symbolCounts[..]))
    decreases symbolCounts.Length, 1
  {
    if symbolCounts.Length == 1 {
      OneRow(symbolCounts[..]);
      return LeafOf(symbolCounts[0]);
    }
    ghost var input := symbolCounts[..];
    SortByProbability(symbolCounts);
    SortDescSorted(input);
    root := SplitAndBuild(symbolCounts);
  }

  /**
   * The part of the builder after the sort: the scan finds the cut, both
   * groups are copied out with `slice` and built recursively, and the node
   * over them carries the left group's probability sum and the number of
   * rows.
   */
  method SplitAndBuild(symbolCounts: array<SymbolStat>) returns (root: Tree)
    requires symbolCounts.Length >= 2 && SortedDesc(symbolCounts[..])
    ensures root == SplitTree(symbolCounts[..])
    decreases symbolCounts.Length, 0
  {
    ghost var sorted := symbolCounts[..];
    var splitIndex, leftGroup, rightGroup, leftSum := CutGroups(symbolCounts, sorted);
    var leftNode := BuildShannonFanoTree(leftGroup);
    var rightNode := BuildShannonFanoTree(rightGroup);
    root := Node(leftSum, leftGroup.Length + rightGroup.Length, leftNode, rightNode);
    GroupTrees(sorted);
    assert symbolCounts[..] == sorted;
  }

  /**
   * The cut of the builder: the scan finds the split index, `slice` copies
   * out both groups, and the left group's probability sum is taken.
   */
  method CutGroups(symbolCounts: array<SymbolStat>, ghost sorted: seq<SymbolStat>)
    returns (splitIndex: nat, leftGroup: array<SymbolStat>, rightGroup: array<SymbolStat>, leftSum: real)
    requires symbolCounts.Length >= 2 && symbolCounts[..] == sorted
    ensures splitIndex == SplitIndex(sorted)
    ensures fresh(leftGroup) && fresh(rightGroup) && leftGroup != rightGroup
    ensures leftGroup[..] == sorted[..splitIndex + 1] && rightGroup[..] == sorted[splitIndex + 1..]
    ensures leftGroup.Length + rightGroup.Length == |sorted|
    ensures leftSum == ProbabilitySum(sorted[..splitIndex + 1])
  {
    splitIndex := FindSplit(symbolCounts);
    leftGroup := Slice(symbolCounts, 0, splitIndex + 1);
    rightGroup := Slice(symbolCounts, splitIndex + 1, symbolCounts.Length);
    leftSum := ProbabilitySum(leftGroup[..]);
  }

  /** A single row is already sorted, and its tree is its leaf. */
  lemma OneRow(s: seq<SymbolStat>)
    requires |s| == 1
    ensures SortDesc(s) == s && ShannonFanoTree(s) == LeafOf(s[0])
  {
    assert s[..0] == [];
  }

  /**
   * One level of the builder on sorted rows: the groups' own sorts change
   * nothing, so the node over the trees built for the groups is the split
   * tree of the rows.
   */
  lemma GroupTrees(sorted: seq<SymbolStat>)
    requires |sorted| >= 2 && SortedDesc(sorted)
    ensures var k := SplitIndex(sorted);
      SplitTree(sorted) == Node(ProbabilitySum(sorted[..k + 1]), |sorted|, ShannonFanoTree(sorted[..k + 1]), ShannonFanoTree(sorted[k + 1..]))
  {
    SplitGroups(sorted, SplitIndex(sorted));
    SplitTreeUnfold(sorted);
  }

  /** Proof helper: unfolds SplitTree once, for two or more rows, into the node over the split trees of the two groups. */
  lemma SplitTreeUnfold(sorted: seq<SymbolStat>)
    requires |sorted| >= 2
    ensures var k := SplitIndex(sorted);
      SplitTree(sorted) == Node(ProbabilitySum(sorted[..k + 1]), |sorted|, SplitTree(sorted[..k + 1]), SplitTree(sorted[k + 1..]))
  {
  }

  // ----------------------------------------------------------------- codes

  /** The code table: each leaf's root path, left edge '1', right edge '0'. */
  function ShannonFanoCodes(root: Tree): (codes: seq<Entry>)
    ensures PrefixFree(codes)
    ensures Map(codes, EntryLeaf) == Leaves(root)
    ensures root.Node? ==> NonEmptyCodes(codes)
    ensures root.Leaf? ==> codes == [Entry(root.symbol, [], root.probability, root.count)]
    ensures forall i :: 0 <= i < |codes| ==> Follow(root, codes[i].code, '1', '0') == Some(Leaves(root)[i])
  {
    RootWalk(root, '1', '0');
    Walk(root, [], '1', '0')
  }

  /**
   * What the Shannon-Fano component computes from the analyser's rows: the
   * tree (sorting the rows in place), its code table and the average code
   * length. The walk meets the leaves in the order of the sorted rows, so
   * the table lists them that way; the component itself lists its codes in
   * the key order of an object, which this sequence does not fix.
   */
  method ShannonFanoCoder(symbolCounts: array<SymbolStat>) returns (codes: seq<Entry>, averageCodeLength: real)
    requires symbolCounts.Length > 0
    modifies symbolCounts
    ensures symbolCounts[..] == SortDesc(old(symbolCounts[..]))
    ensures codes == ShannonFanoCodes(ShannonFanoTree(old(symbolCounts[..])))
    ensures |codes| == symbolCounts.Length && PrefixFree(codes)
    ensures Map(codes, EntryLeaf) == LeavesOfStats(SortDesc(old(symbolCounts[..])))
    ensures forall c :: c in StatSymbols(old(symbolCounts[..])) ==> HasSymbol(codes, c)
    ensures symbolCounts.Length > 1 ==> NonEmptyCodes(codes)
    ensures symbolCounts.Length == 1 ==> codes == [Entry(old(symbolCounts[0]).symbol, [], old(symbolCounts[0]).probability, old(symbolCounts[0]).count)]
    ensures averageCodeLength == AverageCodeLength(codes)
    ensures symbolCounts.Length > 1 ==> forall m :: Decode(Encode(m, codes), codes) == Known(m, codes)
  {
    ghost var input := symbolCounts[..];
    var root := BuildShannonFanoTree(symbolCounts);
    codes := ShannonFanoCodes(root);
    averageCodeLength := AverageCodeLength(codes);
    ShannonFanoTreeShape(input);
    MapPermutation(SortDesc(input), input, LeafOf);
    WalkCoversStats(root, input, [], '1', '0');
    if symbolCounts.Length > 1 {
      forall m
        ensures Decode(Encode(m, codes), codes) == Known(m, codes)
      {
        RoundTrip(codes, m);
      }
    } else {
      assert SortDesc(input) == input by {
        assert input[..0] == [];
      }
    }
  }

  /**
   * With two or more rows of non-negative probability every code has at
   * least one bit, so the average code length is at least the total
   * probability (1 for the analyser's rows of a non-empty text).
   */
  lemma ShannonFanoAverageBound(s: seq<SymbolStat>)
    requires |s| > 1
    requires forall i :: 0 <= i < |s| ==> s[i].probability >= 0.0
    ensures AverageCodeLength(ShannonFanoCodes(ShannonFanoTree(s))) >= ProbabilitySum(s)
  {
    var codes := ShannonFanoCodes(ShannonFanoTree(s));
    ShannonFanoTreeShape(s);
    SortDescElements(s);
    forall i | 0 <= i < |codes|
      ensures codes[i].probability >= 0.0
    {
      assert EntryLeaf(codes[i]) == LeafOf(SortDesc(s)[i]);
      assert SortDesc(s)[i] in multiset(s);
    }
    AverageAtLeastProbability(codes);
    forall i | 0 <= i < |codes|
      ensures EntryProbability(codes[i]) == StatProbability(SortDesc(s)[i])
    {
      assert EntryLeaf(codes[i]) == LeafOf(SortDesc(s)[i]);
    }
    SumPointwise(codes, SortDesc(s), EntryProbability, StatProbability);
    SumPermutation(SortDesc(s), s, StatProbability);
  }
}
