/**
 * The size accumulation of displayHuffmanCodes (huffman_coding.c:116-124),
 * and its meaning for the built tree: the weighted path length.
 */
module Statistics {
  import opened Trees
  import opened Frequency
  import opened Codes
  import opened Builder

  /** The fixed-width baseline: one byte per character. */
  const BitsPerSymbol: int := 8

  /** Sum over the first n symbols with a positive count of count × code length. */
  function CompressedBelow(f: seq<int>, codes: seq<Code>, n: nat): int
    requires n <= |f| && n <= |codes|
  {
    if n == 0 then 0
    else CompressedBelow(f, codes, n - 1) + (if f[n - 1] > 0 then f[n - 1] * |codes[n - 1]| else 0)
  }

  /**
   * The three accumulators of the loop: compressed size, original size and the
   * number of counted characters, over the symbols with a positive count.
   */
  method SizeStatistics(huffmanCodes: array<Code>, frequency: array<int>)
    returns (originalSize: int, compressedSize: int, freqSum: int)
    requires huffmanCodes.Length == AsciiSize && frequency.Length == AsciiSize
    ensures freqSum == PositiveSum(frequency[..], AsciiSize)
    ensures originalSize == BitsPerSymbol * freqSum
    ensures compressedSize == CompressedBelow(frequency[..], huffmanCodes[..], AsciiSize)
  {
    freqSum, compressedSize, originalSize := 0, 0, 0;
    for i := 0 to AsciiSize
      invariant freqSum == PositiveSum(frequency[..], i)
      invariant originalSize == BitsPerSymbol * freqSum
      invariant compressedSize == CompressedBelow(frequency[..], huffmanCodes[..], i)
    {
      if frequency[i] > 0 {
        compressedSize := compressedSize + frequency[i] * |huffmanCodes[i]|;
        originalSize := originalSize + frequency[i] * BitsPerSymbol;
        freqSum := freqSum + frequency[i];
      }
    }
  }

  /** Sum over the leaves of t of count × depth, the leaves' depth counted from `depth`. */
  function PathWeight(t: Tree, depth: nat): int
  {
    match t
    case Leaf(_, w) => w * depth
    case Node(_, l, r) => PathWeight(l, depth + 1) + PathWeight(r, depth + 1)
  }

  /** The weighted path length: Σ over the leaves of count × depth. */
  function WeightedPathLength(t: Tree): int
  {
    PathWeight(t, 0)
  }

  /** One level deeper adds the tree's frequency once. */
  lemma {:induction false} PathWeightShift(t: Tree, depth: nat)
    requires WellFormed(t)
    ensures PathWeight(t, depth + 1) == PathWeight(t, depth) + t.freq
  {
    match t
    case Leaf(_, w) =>
      assert w * (depth + 1) == w * depth + w;
    case Node(_, l, r) =>
      PathWeightShift(l, depth + 1);
      PathWeightShift(r, depth + 1);
  }

  /** A node's leaves sit one level below their depth in its subtrees. */
  lemma NodePathLength(t: Tree)
    requires WellFormed(t) && t.Node?
    ensures WeightedPathLength(t)
         == WeightedPathLength(t.left) + WeightedPathLength(t.right) + t.left.freq + t.right.freq
  {
    PathWeightShift(t.left, 0);
    PathWeightShift(t.right, 0);
  }

  /** Sum over the first n symbols in m of count × code length. */
  function MapCost(m: map<Symbol, Code>, f: seq<int>, n: nat): int
    requires n <= AsciiSize <= |f|
  {
    if n == 0 then 0
    else MapCost(m, f, n - 1) + (var c := (n - 1) as Symbol; if c in m then f[c] * |m[c]| else 0)
  }

  /** Sum over the first n symbols in m of their counts. */
  function KeyWeight(m: map<Symbol, Code>, f: seq<int>, n: nat): int
    requires n <= AsciiSize <= |f|
  {
    if n == 0 then 0
    else KeyWeight(m, f, n - 1) + (var c := (n - 1) as Symbol; if c in m then f[c] else 0)
  }

  lemma {:induction false} LeafSums(c: Symbol, f: seq<int>, n: nat)
    requires n <= AsciiSize <= |f|
    ensures MapCost(map[c := []], f, n) == 0
    ensures KeyWeight(map[c := []], f, n) == if c < n then f[c] else 0
  {
    if n > 0 {
      LeafSums(c, f, n - 1);
    }
  }

  lemma {:induction false} BranchSums(ml: map<Symbol, Code>, mr: map<Symbol, Code>, f: seq<int>, n: nat)
    requires n <= AsciiSize <= |f|
    requires ml.Keys !! mr.Keys
    ensures MapCost(Branch(ml, mr), f, n)
         == MapCost(ml, f, n) + MapCost(mr, f, n) + KeyWeight(ml, f, n) + KeyWeight(mr, f, n)
    ensures KeyWeight(Branch(ml, mr), f, n) == KeyWeight(ml, f, n) + KeyWeight(mr, f, n)
  {
    if n > 0 {
      BranchSums(ml, mr, f, n - 1);
      var c := (n - 1) as Symbol;
      var m := Branch(ml, mr);
      if c in mr {
        assert |m[c]| == |mr[c]| + 1;
        assert f[c] * (|mr[c]| + 1) == f[c] * |mr[c]| + f[c];
      } else if c in ml {
        assert |m[c]| == |ml[c]| + 1;
        assert f[c] * (|ml[c]| + 1) == f[c] * |ml[c]| + f[c];
      }
    }
  }

  /**
   * For a tree without repeated symbols whose leaves carry the table's counts,
   * the code table's Σ count × code length is the weighted path length.
   */
  lemma {:induction false} CodeMapCost(t: Tree, f: seq<int>)
    requires |f| == AsciiSize && WellFormed(t) && Carries(t, f) && Distinct(t)
    ensures KeyWeight(CodeMap(t), f, AsciiSize) == t.freq
    ensures MapCost(CodeMap(t), f, AsciiSize) == WeightedPathLength(t)
  {
    match t
    case Leaf(c, _) =>
      LeafSums(c, f, AsciiSize);
      assert CodeMap(t) == map[c := []];
    case Node(_, l, r) =>
      DisjointCodes(t);
      var ml, mr := CodeMap(l), CodeMap(r);
      CodeMapCost(l, f);
      CodeMapCost(r, f);
      BranchSums(ml, mr, f, AsciiSize);
      assert CodeMap(t) == Branch(ml, mr);
      NodePathLength(t);
  }

  lemma {:induction false} CompressedIsMapCost(f: seq<int>, codes: seq<Code>, m: map<Symbol, Code>, n: nat)
    requires |f| == AsciiSize && |codes| == AsciiSize && n <= AsciiSize
    requires forall c: Symbol :: f[c] > 0 <==> c in m
    requires forall c: Symbol :: c in m ==> codes[c] == m[c]
    ensures CompressedBelow(f, codes, n) == MapCost(m, f, n)
  {
    if n > 0 {
      CompressedIsMapCost(f, codes, m, n - 1);
    }
  }

  /**
   * The compressed size the loop reports for the built tree's code table is
   * the tree's weighted path length, Σ count × depth over its leaves.
   */
  lemma CompressedSizeIsPathLength(t: Tree, f: seq<int>, codes: seq<Code>)
    requires |f| == AsciiSize && |codes| == AsciiSize
    requires Represents(t, f)
    requires forall c: Symbol :: c in CodeMap(t) ==> codes[c] == CodeMap(t)[c]
    ensures CompressedBelow(f, codes, AsciiSize) == WeightedPathLength(t)
  {
    assert Distinct(t);
    CodeMapCost(t, f);
    CompressedIsMapCost(f, codes, CodeMap(t), AsciiSize);
  }
}
