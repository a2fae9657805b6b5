/**
 * The binary code tree both builders produce, and the depth-first walk that
 * turns it into a code table. A leaf carries a symbol; an internal node
 * carries no symbol and always has two children. The two coders label the
 * edges differently (Huffman: left '0', right '1'; Shannon-Fano: left '1',
 * right '0'), so the walk takes the two edge labels as parameters.
 */
module CodeTree {
  import opened Folds
  import opened Symbols
  import opened Codec

  datatype Tree =
    | Leaf(symbol: char, probability: real, count: nat)
    | Node(probability: real, count: nat, left: Tree, right: Tree)

  /** The leaf the builders make for one row of the analyser's table. */
  function LeafOf(s: SymbolStat): Tree
  {
    Leaf(s.symbol, s.probability, s.count)
  }

  function LeavesOfStats(stats: seq<SymbolStat>): seq<Tree>
  {
    Map(stats, LeafOf)
  }

  /** The leaves from left to right. */
  function Leaves(t: Tree): seq<Tree>
  {
    match t
    case Leaf(_, _, _) => [t]
    case Node(_, _, l, r) => Leaves(l) + Leaves(r)
  }

  function InternalCount(t: Tree): nat
  {
    match t
    case Leaf(_, _, _) => 0
    case Node(_, _, l, r) => 1 + InternalCount(l) + InternalCount(r)
  }

  function TreeProbability(t: Tree): real { t.probability }

  function TreeCount(t: Tree): nat { t.count }

  /** Every internal node carries the sums of its two children's probabilities and counts. */
  predicate Merged(t: Tree)
  {
    match t
    case Leaf(_, _, _) => true
    case Node(p, c, l, r) =>
      p == l.probability + r.probability && c == l.count + r.count && Merged(l) && Merged(r)
  }

  /** Sum of the probabilities of the internal nodes. */
  function MergedProbabilities(t: Tree): real
  {
    match t
    case Leaf(_, _, _) => 0.0
    case Node(p, _, l, r) => p + MergedProbabilities(l) + MergedProbabilities(r)
  }

  /**
   * The code table of `t` when the path to `t` is `prefix`: a leaf gets the
   * path as its code, the left subtree extends it by `zero`, the right one
   * by `one`; entries come in depth-first, left-to-right order.
   */
  function Walk(t: Tree, prefix: string, zero: char, one: char): (table: seq<Entry>)
    ensures |table| == |Leaves(t)|
  {
    match t
    case Leaf(s, p, c) => [Entry(s, prefix, p, c)]
    case Node(_, _, l, r) => Walk(l, prefix + [zero], zero, one) + Walk(r, prefix + [one], zero, one)
  }

  /** The subtree reached by following `path` from `t`; None when the path leaves the tree. */
  function Follow(t: Tree, path: string, zero: char, one: char): Option<Tree>
    decreases |path|
  {
    if path == [] then Some(t)
    else match t
      case Leaf(_, _, _) => None
      case Node(_, _, l, r) =>
        if path[0] == zero then Follow(l, path[1..], zero, one)
        else if path[0] == one then Follow(r, path[1..], zero, one)
        else None
  }

  /** The leaf an entry describes. */
  function EntryLeaf(e: Entry): Tree
  {
    Leaf(e.symbol, e.probability, e.count)
  }

  predicate IsBitString(w: string, zero: char, one: char)
  {
    forall j :: 0 <= j < |w| ==> w[j] == zero || w[j] == one
  }

  // ------------------------------------------------------------------ shape

  /** A full binary tree has one more leaf than it has internal nodes. */
  lemma {:induction false} LeafCount(t: Tree)
    ensures |Leaves(t)| == InternalCount(t) + 1
  {
    match t
    case Leaf(_, _, _) =>
    case Node(_, _, l, r) =>
      LeafCount(l);
      LeafCount(r);
  }

  /** In a merged tree the root carries the sums over all leaves. */
  lemma {:induction false} MergedSums(t: Tree)
    requires Merged(t)
    ensures t.probability == Sum(Leaves(t), TreeProbability)
    ensures t.count == Total(Leaves(t), TreeCount)
  {
    match t
    case Leaf(_, _, _) =>
      assert [t][..0] == [];
    case Node(_, _, l, r) =>
      MergedSums(l);
      MergedSums(r);
      SumAppend(Leaves(l), Leaves(r), TreeProbability);
      TotalAppend(Leaves(l), Leaves(r), TreeCount);
  }

  lemma {:induction false} LeavesOfStatsSums(stats: seq<SymbolStat>)
    ensures Sum(LeavesOfStats(stats), TreeProbability) == ProbabilitySum(stats)
    ensures Total(LeavesOfStats(stats), TreeCount) == CountSum(stats)
    decreases |stats|
  {
    if stats != [] {
      var n := |stats|;
      assert LeavesOfStats(stats)[..n - 1] == LeavesOfStats(stats[..n - 1]);
      LeavesOfStatsSums(stats[..n - 1]);
    }
  }

  // ------------------------------------------------------------------- walk

  /** The walk has one entry per leaf, in leaf order, carrying the leaf's symbol, probability and count. */
  lemma {:induction false} WalkLeaves(t: Tree, prefix: string, zero: char, one: char)
    ensures Map(Walk(t, prefix, zero, one), EntryLeaf) == Leaves(t)
  {
    match t
    case Leaf(_, _, _) =>
    case Node(_, _, l, r) =>
      WalkLeaves(l, prefix + [zero], zero, one);
      WalkLeaves(r, prefix + [one], zero, one);
      MapAppend(Walk(l, prefix + [zero], zero, one), Walk(r, prefix + [one], zero, one), EntryLeaf);
  }

  /**
   * Every code is the prefix followed by edge labels only, and is strictly
   * longer than the prefix when the tree is not a single leaf.
   */
  lemma {:induction false} WalkCodes(t: Tree, prefix: string, zero: char, one: char)
    ensures forall e :: e in Walk(t, prefix, zero, one) ==>
      |prefix| <= |e.code| && e.code[..|prefix|] == prefix && IsBitString(e.code[|prefix|..], zero, one)
    ensures t.Node? ==> forall e :: e in Walk(t, prefix, zero, one) ==> |e.code| > |prefix|
  {
    match t
    case Leaf(_, _, _) =>
      assert prefix[..|prefix|] == prefix && prefix[|prefix|..] == [];
    case Node(_, _, l, r) =>
      var lp, rp := prefix + [zero], prefix + [one];
      WalkCodes(l, lp, zero, one);
      WalkCodes(r, rp, zero, one);
      forall e | e in Walk(t, prefix, zero, one)
        ensures |prefix| < |e.code| && e.code[..|prefix|] == prefix && IsBitString(e.code[|prefix|..], zero, one)
      {
        var p := if e in Walk(l, lp, zero, one) then lp else rp;
        assert |p| <= |e.code| && e.code[..|p|] == p && IsBitString(e.code[|p|..], zero, one);
        assert e.code[..|prefix|] == p[..|prefix|] == prefix;
        assert e.code[|prefix|..] == [p[|prefix|]] + e.code[|p|..];
      }
  }

  /** Codes that start with different labels after a common prefix are not prefixes of one another. */
  lemma Diverge(u: string, w: string, prefix: string, a: char, b: char)
    requires a != b
    requires |u| > |prefix| && u[..|prefix| + 1] == prefix + [a]
    requires |w| > |prefix| && w[..|prefix| + 1] == prefix + [b]
    ensures !IsPrefix(u, w)
  {
    assert u[|prefix|] == (prefix + [a])[|prefix|] == a;
    assert w[|prefix|] == (prefix + [b])[|prefix|] == b;
  }

  /** With distinct edge labels the walk's codes are prefix-free. */
  lemma {:induction false} WalkPrefixFree(t: Tree, prefix: string, zero: char, one: char)
    requires zero != one
    ensures PrefixFree(Walk(t, prefix, zero, one))
  {
    match t
    case Leaf(_, _, _) =>
    case Node(_, _, l, r) =>
      var lp, rp := prefix + [zero], prefix + [one];
      var L, R := Walk(l, lp, zero, one), Walk(r, rp, zero, one);
      var W := L + R;
      WalkPrefixFree(l, lp, zero, one);
      WalkPrefixFree(r, rp, zero, one);
      WalkCodes(l, lp, zero, one);
      WalkCodes(r, rp, zero, one);
      forall i, j | 0 <= i < |W| && 0 <= j < |W| && i != j
        ensures !IsPrefix(W[i].code, W[j].code)
      {
        if i < |L| && j < |L| {
          assert W[i] == L[i] && W[j] == L[j];
        } else if |L| <= i && |L| <= j {
          assert W[i] == R[i - |L|] && W[j] == R[j - |L|];
        } else if i < |L| {
          assert W[i] == L[i] && W[j] == R[j - |L|];
          assert W[i] in L && W[j] in R;
          Diverge(W[i].code, W[j].code, prefix, zero, one);
        } else {
          assert W[i] == R[i - |L|] && W[j] == L[j];
          assert W[i] in R && W[j] in L;
          Diverge(W[i].code, W[j].code, prefix, one, zero);
        }
      }
  }

  /** Each code, read from the root, leads to exactly the leaf whose entry it is: codes are root paths. */
  lemma {:induction false} WalkFollow(t: Tree, prefix: string, zero: char, one: char, i: nat)
    requires zero != one
    requires i < |Walk(t, prefix, zero, one)|
    ensures |prefix| <= |Walk(t, prefix, zero, one)[i].code|
    ensures Follow(t, Walk(t, prefix, zero, one)[i].code[|prefix|..], zero, one) == Some(Leaves(t)[i])
  {
    var W := Walk(t, prefix, zero, one);
    match t
    case Leaf(_, _, _) =>
      assert W[i].code[|prefix|..] == [];
    case Node(_, _, l, r) =>
      var lp, rp := prefix + [zero], prefix + [one];
      var L, R := Walk(l, lp, zero, one), Walk(r, rp, zero, one);
      if i < |L| {
        var code := L[i].code;
        assert W[i] == L[i] && Leaves(t)[i] == Leaves(l)[i] by {
          assert W == L + R && Leaves(t) == Leaves(l) + Leaves(r);
        }
        WalkFollow(l, lp, zero, one, i);
        assert code[|prefix|] == zero by {
          WalkCodes(l, lp, zero, one);
          assert L[i] in L;
          assert code[..|lp|] == lp;
        }
        assert code[|prefix|..][1..] == code[|lp|..];
      } else {
        var j := i - |L|;
        var code := R[j].code;
        assert W[i] == R[j] && Leaves(t)[i] == Leaves(r)[j] by {
          assert W == L + R && Leaves(t) == Leaves(l) + Leaves(r);
        }
        WalkFollow(r, rp, zero, one, j);
        assert code[|prefix|] == one by {
          WalkCodes(r, rp, zero, one);
          assert R[j] in R;
          assert code[..|rp|] == rp;
        }
        assert code[|prefix|..][1..] == code[|rp|..];
      }
  }

  /** Each leaf's probability times its depth, summed over the leaves, for a tree sitting at `depth`. */
  function WeightedDepth(t: Tree, depth: nat): real
  {
    match t
    case Leaf(_, p, _) => p * depth as real
    case Node(_, _, l, r) => WeightedDepth(l, depth + 1) + WeightedDepth(r, depth + 1)
  }

  /** The average code length of a walk's table weighs every leaf by the length of its path. */
  lemma {:induction false} AverageOfWalk(t: Tree, prefix: string, zero: char, one: char)
    ensures AverageCodeLength(Walk(t, prefix, zero, one)) == WeightedDepth(t, |prefix|)
  {
    match t
    case Leaf(s, p, c) =>
      assert Walk(t, prefix, zero, one) == [Entry(s, prefix, p, c)];
      AverageOfOneEntry(Entry(s, prefix, p, c));
    case Node(_, _, l, r) =>
      var lp, rp := prefix + [zero], prefix + [one];
      AverageOfNodeWalk(t, prefix, zero, one);
      AverageOfWalk(l, lp, zero, one);
      AverageOfWalk(r, rp, zero, one);
      assert |lp| == |prefix| + 1 && |rp| == |prefix| + 1;
  }

  /** In a merged tree every leaf's probability is counted once at each node above it. */
  lemma {:induction false} WeightedDepthOfMerged(t: Tree, depth: nat)
    requires Merged(t)
    ensures WeightedDepth(t, depth) == t.probability * depth as real + MergedProbabilities(t)
  {
    match t
    case Leaf(_, _, _) =>
    case Node(p, _, l, r) =>
      WeightedDepthOfMerged(l, depth + 1);
      WeightedDepthOfMerged(r, depth + 1);
      OneLevelDeeper(depth as real, (depth + 1) as real, (depth + 1) as real, p, l.probability, r.probability,
        MergedProbabilities(l), MergedProbabilities(r));
  }

  /**
   * The average code length of the table read off a merged tree from its
   * root is the sum of its internal nodes' probabilities.
   */
  lemma AverageOfMergedWalk(t: Tree, zero: char, one: char)
    requires Merged(t)
    ensures AverageCodeLength(Walk(t, [], zero, one)) == MergedProbabilities(t)
  {
    AverageOfWalk(t, [], zero, one);
    WeightedDepthOfMerged(t, 0);
  }

  /** A node's table is its left subtree's followed by its right subtree's, so the weighted lengths add up. */
  lemma AverageOfNodeWalk(t: Tree, prefix: string, zero: char, one: char)
    requires t.Node?
    ensures AverageCodeLength(Walk(t, prefix, zero, one))
      == AverageCodeLength(Walk(t.left, prefix + [zero], zero, one)) + AverageCodeLength(Walk(t.right, prefix + [one], zero, one))
  {
    SumAppend(Walk(t.left, prefix + [zero], zero, one), Walk(t.right, prefix + [one], zero, one), WeightedLength);
  }

  lemma AverageOfOneEntry(e: Entry)
    ensures AverageCodeLength([e]) == e.probability * |e.code| as real
  {
    assert [e][..0] == [];
    assert Sum([e], WeightedLength) == Sum([e][..0], WeightedLength) + WeightedLength(e);
  }

  /** The arithmetic of one level: children one edge deeper than their parent. */
  lemma OneLevelDeeper(d: real, dl: real, dr: real, p: real, a: real, b: real, ma: real, mb: real)
    requires dl == d + 1.0 && dr == d + 1.0 && p == a + b
    ensures (a * dl + ma) + (b * dr + mb) == p * d + (p + ma + mb)
  {
    assert a * dl == a * d + a;
    assert b * dr == b * d + b;
    assert p * d == a * d + b * d;
  }

  /**
   * The table read off a tree from its root, with distinct edge labels: one
   * entry per leaf in order, prefix-free codes that lead back to their
   * leaves, non-empty below a node, and the empty code for a lone leaf.
   */
  lemma RootWalk(root: Tree, zero: char, one: char)
    requires zero != one
    ensures PrefixFree(Walk(root, [], zero, one))
    ensures Map(Walk(root, [], zero, one), EntryLeaf) == Leaves(root)
    ensures root.Node? ==> NonEmptyCodes(Walk(root, [], zero, one))
    ensures root.Leaf? ==> Walk(root, [], zero, one) == [Entry(root.symbol, [], root.probability, root.count)]
    ensures forall i :: 0 <= i < |Walk(root, [], zero, one)| ==>
      Follow(root, Walk(root, [], zero, one)[i].code, zero, one) == Some(Leaves(root)[i])
  {
    var codes := Walk(root, [], zero, one);
    WalkPrefixFree(root, [], zero, one);
    WalkLeaves(root, [], zero, one);
    WalkCodes(root, [], zero, one);
    forall i | 0 <= i < |codes|
      ensures Follow(root, codes[i].code, zero, one) == Some(Leaves(root)[i])
    {
      WalkFollow(root, [], zero, one, i);
      assert codes[i].code[0..] == codes[i].code;
    }
    if root.Node? {
      forall i | 0 <= i < |codes|
        ensures codes[i].code != []
      {
        assert codes[i] in codes;
      }
    }
  }

  /** A tree whose leaves are the given rows yields a table with one entry per row, covering every row's symbol. */
  lemma WalkCoversStats(t: Tree, stats: seq<SymbolStat>, prefix: string, zero: char, one: char)
    requires multiset(Leaves(t)) == multiset(LeavesOfStats(stats))
    ensures |Walk(t, prefix, zero, one)| == |stats|
    ensures multiset(Map(Walk(t, prefix, zero, one), EntryLeaf)) == multiset(LeavesOfStats(stats))
    ensures forall c :: c in StatSymbols(stats) ==> HasSymbol(Walk(t, prefix, zero, one), c)
  {
    var W := Walk(t, prefix, zero, one);
    WalkLeaves(t, prefix, zero, one);
    assert |Leaves(t)| == |multiset(Leaves(t))| == |multiset(LeavesOfStats(stats))| == |stats|;
    forall c | c in StatSymbols(stats)
      ensures HasSymbol(W, c)
    {
      var j :| 0 <= j < |stats| && StatSymbols(stats)[j] == c;
      assert LeavesOfStats(stats)[j] in multiset(Leaves(t));
      var i :| 0 <= i < |Leaves(t)| && Leaves(t)[i] == LeafOf(stats[j]);
      assert EntryLeaf(W[i]) == Leaves(t)[i];
      assert W[i].symbol == c;
    }
  }
}
