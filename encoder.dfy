/**
 * Menu choice 1 of main (huffman_coding.c:188-206) followed by the size
 * report of choice 2: count the line, build the tree, fill a fresh code
 * table, then add up the sizes.
 */
module Encoder {
  import opened Wrappers
  import opened Trees
  import opened Frequency
  import opened Builder
  import opened Codes
  import opened Statistics

  /** What one encoding leaves behind: the tree, the code table and the two sizes in bits. */
  datatype Encoding = Encoding(tree: Tree, codes: seq<Code>, originalSize: int, compressedSize: int)

  /**
   * Encodes one input line. There is no tree when nothing was counted, that is
   * when the line has at most one character (the last one is never counted).
   */
  method Encode(input: seq<char>) returns (r: Option<Encoding>)
    requires IsCountableLine(input)
    ensures r.None? <==> |input| <= 1
    ensures r.Some? ==> Some(r.value.tree) == Greedy(InitialSlots(Histogram(Counted(input))))
    ensures r.Some? ==> Represents(r.value.tree, Histogram(Counted(input)))
    ensures r.Some? ==> TableFor(r.value.tree, Histogram(Counted(input)), r.value.codes)
    ensures r.Some? ==> r.value.compressedSize == WeightedPathLength(r.value.tree)
    ensures r.Some? ==> r.value.originalSize == BitsPerSymbol * (|input| - 1)
  {
    ghost var f := Histogram(Counted(input));
    var frequency := new int[AsciiSize](_ => 0);
    CalculateFrequency(input, frequency);
    assert frequency[..] == f;
    NothingCounted(input);
    CountedTotal(input);

    var root;
    ghost var merges;
    root, merges := BuildHuffmanTree(frequency);
    if root.None? {
      return None;
    }
    var tree := root.value;
    HuffmanTreeShape(f);

    var codeTable := FillCodeTable(tree, f);
    var originalSize, compressedSize, freqSum := SizeStatistics(codeTable, frequency);
    var codes := codeTable[..];
    r := Some(Encoding(tree, codes, originalSize, compressedSize));
  }

  /**
   * A fresh code buffer and a table of empty entries, filled by the walk from
   * the root (huffman_coding.c:195-199).
   */
  method FillCodeTable(tree: Tree, ghost f: seq<int>) returns (codeTable: array<Code>)
    requires |f| == AsciiSize && Represents(tree, f)
    requires |LeafSyms(tree)| <= AsciiSize
    ensures fresh(codeTable)
    ensures TableFor(tree, f, codeTable[..])
    ensures CompressedBelow(f, codeTable[..], AsciiSize) == WeightedPathLength(tree)
  {
    HeightBelowLeafCount(tree);
    var code := new char[AsciiSize](_ => '\0');
    codeTable := new Code[AsciiSize](_ => []);
    ghost var blank := codeTable[..];
    GenerateHuffmanCodes(tree, code, 0, codeTable);
    WrittenTable(tree, f, blank, codeTable[..]);
  }

  /**
   * A code table for the tree: one entry per 7-bit symbol, the tree's code word
   * for each of its symbols and the empty word for every other one; each word
   * leads from the root to its symbol's leaf, and no word is a prefix of
   * another symbol's word.
   */
  ghost predicate TableFor(tree: Tree, f: seq<int>, codes: seq<Code>)
    requires |f| == AsciiSize
  {
    && |codes| == AsciiSize
    && (forall c: Symbol :: codes[c] == if c in CodeMap(tree) then CodeMap(tree)[c] else [])
    && (forall c: Symbol | f[c] > 0 :: Follow(tree, codes[c]) == Some(Leaf(c, f[c])))
    && (forall c: Symbol, d: Symbol | c != d && f[c] > 0 && f[d] > 0 :: !(codes[c] <= codes[d]))
  }

  /** The symbols with a code word are exactly those with a positive count. */
  lemma CodedSymbols(tree: Tree, f: seq<int>)
    requires |f| == AsciiSize && Represents(tree, f)
    ensures forall c: Symbol :: c in CodeMap(tree) <==> f[c] > 0
  {
    forall c: Symbol
      ensures c in CodeMap(tree) <==> f[c] > 0
    {
      assert c in LeafSyms(tree) <==> LeafSyms(tree)[c] == 1;
    }
  }

  /** Walking from the root into empty entries leaves each code word in its symbol's entry. */
  lemma TableEntries(tree: Tree, blank: seq<Code>, codes: seq<Code>)
    requires |blank| == AsciiSize && forall c | 0 <= c < AsciiSize :: blank[c] == []
    requires codes == Recorded(blank, [], tree)
    ensures |codes| == AsciiSize
    ensures forall c: Symbol :: codes[c] == if c in CodeMap(tree) then CodeMap(tree)[c] else []
  {
    forall c: Symbol
      ensures codes[c] == if c in CodeMap(tree) then CodeMap(tree)[c] else []
    {
      if c in CodeMap(tree) {
        assert [] + CodeMap(tree)[c] == CodeMap(tree)[c];
      }
    }
  }

  /** Each entry of a counted symbol leads from the root to that symbol's leaf. */
  lemma TableDecodes(tree: Tree, f: seq<int>, codes: seq<Code>)
    requires |f| == AsciiSize && Represents(tree, f)
    requires |codes| == AsciiSize
    requires forall c: Symbol :: codes[c] == if c in CodeMap(tree) then CodeMap(tree)[c] else []
    ensures forall c: Symbol | f[c] > 0 :: Follow(tree, codes[c]) == Some(Leaf(c, f[c]))
  {
    CodedSymbols(tree, f);
    forall c: Symbol | f[c] > 0
      ensures Follow(tree, codes[c]) == Some(Leaf(c, f[c]))
    {
      CodeLeadsToLeaf(tree, c);
      LeafCarries(tree, codes[c], f);
    }
  }

  /** No counted symbol's entry is a prefix of another counted symbol's entry. */
  lemma TablePrefixFree(tree: Tree, f: seq<int>, codes: seq<Code>)
    requires |f| == AsciiSize && Represents(tree, f)
    requires |codes| == AsciiSize
    requires forall c: Symbol :: codes[c] == if c in CodeMap(tree) then CodeMap(tree)[c] else []
    ensures forall c: Symbol, d: Symbol | c != d && f[c] > 0 && f[d] > 0 :: !(codes[c] <= codes[d])
  {
    CodedSymbols(tree, f);
    forall c: Symbol, d: Symbol | c != d && f[c] > 0 && f[d] > 0
      ensures !(codes[c] <= codes[d])
    {
      PrefixFree(tree, c, d);
    }
  }

  /**
   * The table the walk writes into all-empty entries is a code table for the
   * tree, and its Σ count × word length is the weighted path length.
   */
  lemma WrittenTable(tree: Tree, f: seq<int>, blank: seq<Code>, codes: seq<Code>)
    requires |f| == AsciiSize && Represents(tree, f)
    requires |blank| == AsciiSize && forall c | 0 <= c < AsciiSize :: blank[c] == []
    requires codes == Recorded(blank, [], tree)
    ensures TableFor(tree, f, codes)
    ensures CompressedBelow(f, codes, AsciiSize) == WeightedPathLength(tree)
  {
    TableEntries(tree, blank, codes);
    TableDecodes(tree, f, codes);
    TablePrefixFree(tree, f, codes);
    CompressedSizeIsPathLength(tree, f, codes);
  }

  /**
   * With one symbol counted the root is its leaf, and every entry of the table,
   * that symbol's own included, is the empty word.
   */
  lemma SingleSymbolTable(f: seq<int>, c: Symbol, codes: seq<Code>)
    requires |f| == AsciiSize && f[c] > 0
    requires forall d | 0 <= d < AsciiSize && d != c :: f[d] <= 0
    requires Greedy(InitialSlots(f)).Some?
    requires TableFor(Greedy(InitialSlots(f)).value, f, codes)
    ensures Greedy(InitialSlots(f)).value == Leaf(c, f[c])
    ensures forall d: Symbol :: codes[d] == []
  {
    SingleSymbolTree(f, c);
  }

  /** A leaf reached from a tree that carries the table sits with its symbol's count. */
  lemma {:induction false} LeafCarries(t: Tree, bits: Code, f: seq<int>)
    requires Carries(t, f)
    requires Follow(t, bits).Some? && Follow(t, bits).value.Leaf?
    ensures Follow(t, bits).value.sym < |f|
    ensures Follow(t, bits).value.freq == f[Follow(t, bits).value.sym]
  {
    match t
    case Leaf(_, _) =>
    case Node(_, l, r) =>
      if bits != [] && bits[0] == '0' {
        LeafCarries(l, bits[1..], f);
      } else if bits != [] && bits[0] == '1' {
        LeafCarries(r, bits[1..], f);
      }
  }
}
