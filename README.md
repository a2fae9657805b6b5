# Huffman and Shannon-Fano coding of a Russian text — a Dafny model

The application reads a text and lower-cases it. It keeps only the
characters of a fixed 48-character alphabet: the 32 Cyrillic letters а..я,
the ten digits and `.,:;- `. It then tabulates, for every alphabet
character, its count and its probability (count over the length of the
filtered text). From that table two coders each build a binary code
tree:

- **Huffman** puts one leaf per row into a binary min-heap ordered by
  probability. It then repeatedly takes out the two lightest trees and
  puts back a node that merges them. Left edges are labelled `0` and
  right edges `1`.
- **Shannon-Fano** sorts the rows by decreasing probability and splits
  them where the two groups' probability sums are closest. It recurses on
  both groups. Left edges are labelled `1` and right edges `0`.

Each coder reads its code table off its tree and computes the average
code length Σ probability × code length. It encodes a message by
concatenating the codes of its characters, and decodes a bit string by
accumulating bits until they spell a code word.

Modules, one per concept:

| file | module | what |
|---|---|---|
| `folds.dfy` | `Folds` | left-to-right sums (`reduce`), `map`, flattening, and their invariance under permutation |
| `symbols.dfy` | `Symbols` | the analyser's row (`SymbolStat`), `Option`/`Result`, and sums over rows |
| `codec.dfy` | `Codec` | code tables, encoding, the decoding loop, the decode-after-encode round trip, the average code length |
| `code_tree.dfy` | `CodeTree` | the code tree, the recursive walk that builds a code table, and the facts about it |
| `min_heap.dfy` | `Heap` | the `MinHeap` class with its in-place `insert`, `extractMin`, `bubbleUp` and `sinkDown` |
| `huffman.dfy` | `Huffman` | the Huffman builder (a loop over a `MinHeap`), its codes and its average |
| `shannon_fano.dfy` | `ShannonFano` | the in-place sort, the split loop, the recursive builder over arrays, its codes and its average |
| `text_analysis.dfy` | `TextAnalysis` | the counting part of the text analyser and the integer code lengths |

Probabilities are exact `real`s. Code tables are sequences of entries in
the order in which the recursive walk meets the leaves. The case mapping
of `toLowerCase` is the parameter `lower` of `TextAnalysis.AnalyzeText`.

Facts about the code that the model makes explicit:

- The Shannon-Fano builder sorts the array it is given in place
  (`src/ShannonFanoCoder.jsx:23`). The application hands it the
  analyser's own `tableData.symbolCounts` (`src/App.jsx:24`), so the sort
  reorders the analyser's table itself. `ShannonFano.BuildShannonFanoTree`
  and `ShannonFano.ShannonFanoCoder` modify their array and state its
  new, sorted contents.
- An internal Shannon-Fano node carries the probability sum of its *left*
  group only, not of both groups, while its count is the number of rows
  below it (`src/ShannonFanoCoder.jsx:58`). `ShannonFano.Annotated`
  states this, and no code depends on it.
- Neither builder handles an empty table: `extractMin` on an empty heap
  yields `undefined`, and the Shannon-Fano builder recurses without end.
  The analyser always produces 48 rows (`TextAnalysis.AnalyzeTextRows`),
  so the builders' `requires |stats| > 0` is met by every table the
  application builds.
- The analyser's 48 symbols are pairwise distinct
  (`TextAnalysis.AnalyzeTextSymbols`). The code-table dictionaries keyed
  by symbol therefore never overwrite an entry, and a sequence of entries
  holds exactly their contents. The order of the entries is the order in
  which the tree walk meets the leaves, which is not the order in which
  the components list a dictionary (see "Left out").

## Model

| member | source | states |
|---|---|---|
| Heap.RootIsMinimum | src/Haffman.jsx:17-18 | in a heap (every parent no heavier than its children) the root is no heavier than any element |
| Heap.RootIsLightest | src/Haffman.jsx:18 | the root is no heavier than the element at any position, by induction along the parent chain |
| Heap.AppendRises | src/Haffman.jsx:25-26 | pushing onto a heap breaks the order at most at the new last position, which then rises |
| Heap.LastReplacesRoot | src/Haffman.jsx:32-34 | popping the last element and writing it over the root keeps every other element, and leaves only the root to sink |
| Heap.SwapKeepsElements | src/Haffman.jsx:47-48 | exchanging two positions keeps the multiset of elements |
| Heap.RiseStep | src/Haffman.jsx:43-49 | swapping a lighter element with its parent moves the single order violation one level up |
| Heap.RiseDone | src/Haffman.jsx:42-46 | rising stops with a heap at the root, or once the parent is no heavier |
| Heap.SinkStep | src/Haffman.jsx:60-86 | swapping with the lighter child moves the single order violation one level down |
| Heap.SinkDone | src/Haffman.jsx:83 | sinking stops with a heap once no child is lighter |
| Heap.MinHeap.constructor | src/Haffman.jsx:20-22 | a new heap is empty |
| Heap.MinHeap.Insert | src/Haffman.jsx:24-27 | adds exactly the given node (the multiset grows by it) and keeps the heap order |
| Heap.MinHeap.ExtractMin | src/Haffman.jsx:29-36 | returns the old root, which is no heavier than any element, removes exactly it and keeps the heap order; the one-element case just pops |
| Heap.MinHeap.BubbleUp | src/Haffman.jsx:39-51 | from a heap broken only at `index`, produces a heap with the same elements |
| Heap.MinHeap.SinkDown | src/Haffman.jsx:54-88 | from a heap broken only below `index`, produces a heap with the same elements |
| Huffman.HeapOfLeaves | src/Haffman.jsx:95-96 | the heap holds exactly one leaf per row and is ordered |
| Huffman.MergeWellBuilt | src/Haffman.jsx:100-106 | merging the first-extracted (lighter) tree on the left with the second gives a node carrying both sums, lighter child on the left |
| Huffman.MergeLightestTwo | src/Haffman.jsx:100-107 | one round is greedy: the left tree is a lightest pending tree and the right one a lightest of the rest; the pending trees become the old ones without these two plus their merge; the heap shrinks by one, keeps its order, and its leaves are unchanged |
| Huffman.TakenLightest | src/Haffman.jsx:101-102 | a tree taken out by `extractMin` is a lightest member of the pending trees, and exactly it leaves them |
| Huffman.TwoOutOneIn | src/Haffman.jsx:101-106 | taking two trees out and inserting their merge leaves exactly the trees after the round |
| Huffman.TwoTakenOneBack | src/Haffman.jsx:100-107 | the two extractions and the insertion of one round form a greedy round |
| Huffman.RoundKeepsLeaves | src/Haffman.jsx:100-107 | a round neither loses nor adds leaves, and keeps every pending tree well built |
| Huffman.GreedySnoc | src/Haffman.jsx:100-107 | a greedy run followed by a greedy round is a greedy run one round longer |
| Huffman.LastTree | src/Haffman.jsx:110 | the one tree left in the heap holds every pending leaf and is well built |
| Huffman.RootSums | src/Haffman.jsx:103 | the final root has n - 1 internal nodes and carries the total probability and the total count of the rows |
| Huffman.BuildHuffmanTree | src/Haffman.jsx:94-111 | the merges form a greedy run of n - 1 rounds from the rows' leaves (every round merges a lightest pending tree with a lightest of the rest) that ends with just the root; the root's leaves are exactly the rows (as a multiset); every node carries its children's sums with the lighter child on the left; there are n - 1 merges; the root holds the total probability and count |
| Huffman.HuffmanCodes | src/Haffman.jsx:115-131 | one entry per leaf with its symbol, probability and count; the codes are prefix-free root paths (left '0', right '1'), non-empty unless the root is a leaf, and empty for a one-leaf tree |
| Huffman.HuffmanAverage | src/Haffman.jsx:138-140 | the average code length equals the sum of the probabilities of all merged nodes |
| Huffman.HuffmanCoder | src/Haffman.jsx:152-160 | the table is the code table of the tree a greedy run of n - 1 rounds builds from the rows' leaves, and the average is that tree's merged-node probability sum; the table has one entry per row and covers every row's symbol; it is prefix-free; the average is Σ p·len; for two or more rows, decoding the encoding of any message gives back its known characters |
| ShannonFano.InsertDesc | src/ShannonFanoCoder.jsx:23 | inserting into a sorted list lengthens it by one |
| ShannonFano.SortDesc | src/ShannonFanoCoder.jsx:23 | the reference sort keeps the length |
| ShannonFano.InsertDescElements | src/ShannonFanoCoder.jsx:23 | insertion adds exactly the new row |
| ShannonFano.SortDescElements | src/ShannonFanoCoder.jsx:23 | the reference sort is a permutation |
| ShannonFano.InsertDescSorted | src/ShannonFanoCoder.jsx:23 | insertion keeps a list sorted by non-increasing probability |
| ShannonFano.SortDescSorted | src/ShannonFanoCoder.jsx:23 | the reference sort's output is sorted by non-increasing probability |
| ShannonFano.SortDescOfSorted | src/ShannonFanoCoder.jsx:23 | sorting an already sorted list changes nothing (the comparator sort is stable) |
| ShannonFano.SortByProbability | src/ShannonFanoCoder.jsx:23 | the array is sorted in place and ends up equal to the reference sort of its old contents |
| ShannonFano.InsertAt | src/ShannonFanoCoder.jsx:23 | with the first i cells sorted, shifts cell i into place so the first i + 1 cells are the reference sort of the old first i + 1 |
| ShannonFano.InsertDescAt | src/ShannonFanoCoder.jsx:23 | a row lands after every row at least as probable and before the lighter rows that follow them |
| ShannonFano.FirstBest | src/ShannonFanoCoder.jsx:35-50 | the chosen position is one of the first n candidates (its minimality is FirstBestIsFirstLeast's) |
| ShannonFano.SplitIndex | src/ShannonFanoCoder.jsx:28-50 | the cut leaves at least one row on the right (its minimality is SplitIndexIsFirstLeast's) |
| ShannonFano.FirstBestIsFirstLeast | src/ShannonFanoCoder.jsx:35-50 | among the first n candidate splits the chosen one has the least difference between the two groups' sums, and every earlier one a strictly larger difference (a later tie does not replace it) |
| ShannonFano.SplitIndexIsFirstLeast | src/ShannonFanoCoder.jsx:28-50 | the split leaves both groups non-empty, minimises the difference, and is the first split that does |
| ShannonFano.Slice | src/ShannonFanoCoder.jsx:52-53 | a fresh array holding exactly the slice |
| ShannonFano.FindSplit | src/ShannonFanoCoder.jsx:26-50 | the loop over running sums (Infinity as the initial minimum) returns the split index of the array |
| ShannonFano.SplitTree | src/ShannonFanoCoder.jsx:18-62 | the tree of sorted rows is a leaf exactly when there is one row, and an internal node counts all its rows |
| ShannonFano.ShannonFanoTree | src/ShannonFanoCoder.jsx:16-63 | the tree is a single leaf exactly when there is a single row |
| ShannonFano.SplitTreeLeaves | src/ShannonFanoCoder.jsx:52-56 | the leaves of the tree built from sorted rows are those rows in order |
| ShannonFano.SplitTreeAnnotated | src/ShannonFanoCoder.jsx:58 | every internal node carries its left group's probability sum and the number of rows below it |
| ShannonFano.ShannonFanoTreeShape | src/ShannonFanoCoder.jsx:16-63 | the leaves are the rows sorted by non-increasing probability (a permutation of the input), and every node is annotated as above |
| ShannonFano.SplitGroups | src/ShannonFanoCoder.jsx:52-56 | both groups of a sorted list are already sorted, so the recursive calls' own sorts keep their order |
| ShannonFano.OneRow | src/ShannonFanoCoder.jsx:18-20 | a single row is already sorted and its tree is the leaf of that row |
| ShannonFano.GroupTrees | src/ShannonFanoCoder.jsx:52-58 | for sorted rows, the recursive calls' own sorting leaves each group as it is, so the node's children are the builder's trees of the two groups |
| ShannonFano.CutGroups | src/ShannonFanoCoder.jsx:26-53 | finds the split index and returns two fresh arrays holding exactly the rows up to it and the rows after it, with the left group's probability sum |
| ShannonFano.SplitAndBuild | src/ShannonFanoCoder.jsx:26-62 | over sorted rows, builds the node from the recursive trees of the two groups, which is the reference tree of those rows |
| ShannonFano.BuildShannonFanoTree | src/ShannonFanoCoder.jsx:16-63 | returns the reference tree of the old array contents, and leaves the array sorted in place |
| ShannonFano.ShannonFanoCodes | src/ShannonFanoCoder.jsx:65-81 | one entry per leaf; the codes are prefix-free root paths with left '1' and right '0', non-empty unless the root is a leaf |
| ShannonFano.ShannonFanoCoder | src/ShannonFanoCoder.jsx:101-109 | sorts the caller's array; the table is the code table of the Shannon-Fano tree of the old rows; it has one entry per row, met by the walk in the sorted order of the rows, and covers every symbol; it is prefix-free; the average is Σ p·len; the round trip holds for two or more rows |
| ShannonFano.ShannonFanoAverageBound | src/ShannonFanoCoder.jsx:87-89 | with two or more rows and non-negative probabilities, the average code length is at least the total probability |
| Codec.FindSymbol | src/Haffman.jsx:168 | the first entry with the symbol, or none exactly when no entry has it |
| Codec.CodeOf | src/Haffman.jsx:167-168 | a character with no entry gets the empty string; a known one gets a code word of the table; with non-empty codes, the code is non-empty exactly when the character has an entry |
| Codec.Encode | src/Haffman.jsx:162-170 | a message with no known character encodes to the empty string; with non-empty codes the encoding has at least one bit per known character (the Shannon-Fano copy is `src/ShannonFanoCoder.jsx:111-116`) |
| Codec.DecodeOneCode | src/Haffman.jsx:180-188 | the code of one character ahead of more bits decodes to that character, when it has an entry, ahead of the rest |
| Codec.EncodeAppend | src/Haffman.jsx:167-170 | encoding distributes over concatenation of messages |
| Codec.EncodeSkipsUnknown | src/Haffman.jsx:168-169 | a character with no entry contributes the empty string |
| Codec.EncodeKnown | src/Haffman.jsx:168 | a known character is encoded by its first entry's code |
| Codec.KnownAll | src/Haffman.jsx:167-170 | when every character has an entry, nothing is skipped |
| Codec.CodeIndex | src/Haffman.jsx:178 | the decoder's dictionary has exactly the table's codes as keys (the Shannon-Fano copy is `src/ShannonFanoCoder.jsx:121`) |
| Codec.CodeIndexLookup | src/Haffman.jsx:178 | in a prefix-free table, every code maps back to its own entry's symbol |
| Codec.DecodeFrom | src/Haffman.jsx:180-189 | decoding emits at most one symbol per bit |
| Codec.DecodeCodeWord | src/Haffman.jsx:180-188 | reading a code word bit by bit emits its symbol exactly at its last bit (no proper prefix matches) |
| Codec.DecodeSymbol | src/Haffman.jsx:184-187 | the code of a known character decodes to that character and then decoding goes on afresh |
| Codec.DecodeEncoded | src/Haffman.jsx:163-191 | decoding an encoding followed by any tail emits the known characters, then the tail's decoding |
| Codec.RoundTrip | src/Haffman.jsx:163-191 | for a prefix-free table with non-empty codes, decode(encode(m)) is m with its unknown characters removed, and m itself when all are known |
| Codec.UnmatchedTail | src/Haffman.jsx:180-190 | bits that never complete a code word emit nothing |
| Codec.TrailingBitsDropped | src/Haffman.jsx:180-190 | trailing bits that never complete a code word are silently dropped |
| Codec.DecodeMessage | src/Haffman.jsx:173-191 | the loop over bits with the `decoded` and `currentCode` accumulators computes the decoding function (the Shannon-Fano copy is `src/ShannonFanoCoder.jsx:118-130`) |
| Codec.AverageAtLeastProbability | src/Haffman.jsx:138-140 | with non-empty codes and non-negative probabilities, the average is at least the total probability |
| Codec.AverageOfEmptyCodes | src/Haffman.jsx:138-140 | a table of empty codes (the one-symbol case) has average 0 |
| Codec.AverageCodeLength | src/Haffman.jsx:138-140 | with non-negative probabilities the average code length is non-negative (the same sum is `src/ShannonFanoCoder.jsx:87-89`) |
| CodeTree.Walk | src/Haffman.jsx:118-128 | the walk yields one entry per leaf |
| CodeTree.LeafCount | src/Haffman.jsx:6-15 | a tree of two-child nodes has one more leaf than internal nodes |
| CodeTree.MergedSums | src/Haffman.jsx:103 | when every node carries its children's sums, the root carries the sums over all leaves |
| CodeTree.LeavesOfStatsSums | src/Haffman.jsx:96 | the leaves made from the rows carry the rows' total probability and count |
| CodeTree.WalkLeaves | src/Haffman.jsx:118-125 | the entries, read back as leaves, are the tree's leaves in order |
| CodeTree.WalkCodes | src/Haffman.jsx:118-125 | every code is the prefix followed by edge labels, strictly longer than the prefix below a node |
| CodeTree.WalkPrefixFree | src/Haffman.jsx:118-125 | with distinct edge labels no code is a prefix of another |
| CodeTree.WalkFollow | src/Haffman.jsx:118-125 | every code, followed from the root, leads to the leaf of its entry |
| CodeTree.RootWalk | src/Haffman.jsx:115-128 | with distinct edge labels, the table read off from the root has one entry per leaf in order, prefix-free codes that each lead back to their own leaf, non-empty codes below a node and the empty code for a lone leaf |
| CodeTree.AverageOfNodeWalk | src/Haffman.jsx:118-128 | a node's table is its left subtree's followed by its right subtree's, so their Σ p·len add up |
| CodeTree.AverageOfWalk | src/Haffman.jsx:118-140 | Σ p·len over a walk's table weighs every leaf's probability by its depth below the root of the walk |
| CodeTree.WeightedDepthOfMerged | src/Haffman.jsx:100-106 | when every node carries its children's probability sum, the leaves' probabilities weighted by depth total the root's probability times its depth plus the merged nodes' probabilities |
| CodeTree.AverageOfMergedWalk | src/Haffman.jsx:138-140 | for a tree built by merging, Σ p·len over the table read off from the root is the sum of the merged nodes' probabilities |
| CodeTree.WalkCoversStats | src/Haffman.jsx:118-128 | a tree whose leaves are the rows yields one entry per row, with the rows' leaves as a multiset, covering every symbol |
| TextAnalysis.AnalyzeText | src/TextAnal.jsx:41-44 | the analysis fails, with the "text not loaded" message, exactly when the text is empty |
| TextAnalysis.ValidText | src/TextAnal.jsx:48 | the filter never lengthens the text |
| TextAnalysis.ValidTextEmpty | src/TextAnal.jsx:48-50 | the valid text, and with it the total, is empty exactly when no character of the text is in the alphabet |
| TextAnalysis.Occurrences | src/TextAnal.jsx:53 | the count is the character's multiplicity in the text, so at most its length |
| TextAnalysis.Probability | src/TextAnal.jsx:54 | a count out of a total is a probability between 0 and 1, and times the total gives back the count when the total is positive |
| TextAnalysis.Row | src/TextAnal.jsx:53-61 | the row carries its symbol, the symbol's multiplicity in the valid text, a probability between 0 and 1, and an equal normalised probability |
| TextAnalysis.OccurrencesAppend | src/TextAnal.jsx:53 | occurrence counts add over concatenation |
| TextAnalysis.ValidTextAppend | src/TextAnal.jsx:48 | filtering commutes with concatenation, so relative order is kept |
| TextAnalysis.ValidTextContents | src/TextAnal.jsx:48 | the valid text holds only alphabet characters, and each alphabet character as often as the lower-cased text |
| TextAnalysis.ValidTextKeeps | src/TextAnal.jsx:48 | a text of alphabet characters passes the filter unchanged |
| TextAnalysis.ValidTextIdempotent | src/TextAnal.jsx:48 | filtering twice is filtering once |
| TextAnalysis.AlphabetCodes | src/TextAnal.jsx:47 | the letters are the code points U+0430..U+044F, the digits U+0030..U+0039, and the punctuation is distinct from both |
| TextAnalysis.AlphabetDistinct | src/TextAnal.jsx:47 | the alphabet has 48 characters, no two equal |
| TextAnalysis.OccursOnce | src/TextAnal.jsx:47 | a character of a repetition-free word occurs in it once |
| TextAnalysis.RowCountsAdd | src/TextAnal.jsx:53 | the rows' count total adds over concatenation of texts |
| TextAnalysis.RowCountsOne | src/TextAnal.jsx:53 | over a one-character text the count total is how often the letters hold that character |
| TextAnalysis.RowCountsCover | src/TextAnal.jsx:65 | over a text of the letters' characters, with no letter repeated, the counts add up to its length |
| TextAnalysis.RowProbabilities | src/TextAnal.jsx:54-55 | over a non-empty text the probabilities sum to the counts' total over the length |
| TextAnalysis.RowProbabilitiesOfNothing | src/TextAnal.jsx:54 | over an empty text every probability is 0 |
| TextAnalysis.AlphabetTotals | src/TextAnal.jsx:49-65 | over alphabet characters the counts total the length, and the probabilities total 1 (or 0 for the empty text) |
| TextAnalysis.RowTotals | src/TextAnal.jsx:49-65 | over a text of distinct letters' characters the counts total the length, and the probabilities total 1 for a non-empty text and 0 otherwise |
| TextAnalysis.AnalyzeTextRows | src/TextAnal.jsx:46-63 | 48 rows in alphabet order, zero counts included; each count is the character's occurrences in the lower-cased text; probability is count over the valid length (0 when that is 0) and equals the normalised probability |
| TextAnalysis.AnalyzeTextTotals | src/TextAnal.jsx:49-65 | totalSymbols is the length of the valid text; totalProbability is 1 when it is non-empty and 0 otherwise |
| TextAnalysis.AnalyzeTextSymbols | src/TextAnal.jsx:47-58 | the rows' symbols are pairwise distinct and their probabilities non-negative |
| TextAnalysis.HartleyCodeLength | src/TextAnal.jsx:77 | the least k with 2^k at least the alphabet size, i.e. ceil(log2 n) |
| TextAnalysis.HartleyOfAlphabet | src/TextAnal.jsx:70-77 | for the 48-character alphabet the Hartley code length is 6, below ASCII's 8 |

## Left out

- Entropy, the information of a symbol, the Hartley uncertainty and the redundancy figures: they are `Math.log2` on doubles. Only the integer code lengths are modelled.
- Floating-point rounding. Probabilities are exact reals, so ties and sums that doubles would round differently are not modelled.
- `toLowerCase` is an abstract character-to-character map. Case mappings that change the length of the string are not modelled.
- File reading (`FileReader`), React state and effects, rendering, input handlers and `toFixed` formatting are I/O or presentation.
- The display-time sorts of the code tables are presentation only.
- Huffman.HuffmanCoder: the table is in the order in which the walk meets the leaves of the tree, and its entries are stated as a multiset of the rows. The source orders the table by `Object.entries`, whose key order (integer-like keys such as digits first) is not modelled.
- ShannonFano.ShannonFanoCoder: like the Huffman coder, gives the walk order of the entries, not `Object.entries` order.
- Huffman.HuffmanCodes: an entry per leaf rather than a dictionary per symbol. A repeated symbol would overwrite an earlier one in the source. The analyser's rows never repeat a symbol (`TextAnalysis.AnalyzeTextSymbols`).
- Codec.DecodeMessage: the dictionary lookup ignores JavaScript's inherited object keys (a bit string spelling `constructor` would match in the source).
- Huffman.BuildHuffmanTree: requires a non-empty table. On an empty one the source returns `undefined`, and the application never passes one.
- ShannonFano.BuildShannonFanoTree: requires a non-empty array. On an empty one the source recurses without end, and the application never passes one.
- The rendering of the components is not modelled. `src/TabPanel.jsx:5-6` renders every tab's children, and `src/App.jsx:24-27` places the Shannon-Fano coder before the Huffman coder. If React runs sibling effects in tree order, the in-place sort therefore runs before the Huffman builder reads the rows. `Huffman.HuffmanCoder`'s contract holds for every order of the rows, so it covers that sorted order too.
- ShannonFano.ShannonFanoCodes: lists the entries in the order in which the walk meets the leaves. The source collects the codes in an object keyed by symbol (`src/ShannonFanoCoder.jsx:71`) and lists it in `Object.entries` order (`src/ShannonFanoCoder.jsx:80`). That order follows JavaScript's property-order rules and is not modelled. The symbols are distinct, so the entries themselves are the same.
- `HeapOfLeaves`, `MergeLightestTwo`, `FindSplit`, `Slice`, `CutGroups`, `SplitAndBuild` and `InsertAt` are factored out of the source functions they belong to, so that each loop and each recursive step carries its own contract.
- `Array.prototype.sort` is modelled as a stable insertion sort. The ECMAScript standard requires the sort to be stable, so the resulting order is the same; the comparisons performed are not.
