# Huffman coding over 7-bit ASCII, modelled in Dafny

This project models the encoder in `huffman_coding.c`. The encoder reads a
line of text and counts how often each of the 128 ASCII characters appears
in it. It then builds a Huffman tree by repeatedly merging the two lightest
nodes of a 128-slot array. A recursive walk of the tree writes a code word
of `'0'`/`'1'` digits for every character that occurs. Finally it reports
the original size (8 bits per character) and the compressed size
(Σ count × code length).

The stateful parts stay stateful:
- The frequency table, the slot array, the shared code buffer and the code
  table are Dafny `array`s.
- The loops are `while`/`for` loops with invariants.
- The code walk is a recursive method that writes into the two arrays.

The finished tree is never changed once it is linked, so it is a value
(`Trees.Tree`). Every method is proved against a functional reference:
- `Frequency.Histogram` for counting;
- `Builder.Greedy` for the merge loop, which repeats `Builder.Merged` on the
  two minimal slots;
- `Codes.CodeMap` and `Codes.Recorded` for the code walk;
- `Statistics.CompressedBelow` and `Statistics.WeightedPathLength` for the
  sizes.

The properties the program relies on are then lemmas about those
references:
- Frequency is conserved.
- The tree is a full binary tree whose leaves are exactly the characters
  that were counted.
- The codes are prefix-free and lead back to their leaves.
- The compressed size is the tree's weighted path length.

Modules:
- `Wrappers` — `Option`.
- `Trees` — the tree datatype and its shape predicates.
- `Frequency` — `calculateFrequency`.
- `Builder` — the slot array, the two-minimum scan and `buildHuffmanTree`.
- `Codes` — `generateHuffmanCodes`.
- `Statistics` — the size loop of `displayHuffmanCodes`.
- `Encoder` — menu choice 1 of `main`, followed by the size report.

## Single-symbol input

When the counted part of the line holds only one distinct character, the
root is that character's leaf (`huffman_coding.c:87-88`). The walk then
stops at the root and writes the empty word as its code
(`huffman_coding.c:38-41`). This differs from the usual convention of
assigning `"0"`. The model follows the program (`Builder.SingleSymbolTree`,
`Encoder.SingleSymbolTable`).

## Model

| member | source | states |
|---|---|---|
| Frequency.CalculateFrequency | huffman_coding.c:24-32 | Every entry c of the table grows by the number of occurrences of c in the input without its last character. |
| Frequency.CountedTotal | huffman_coding.c:24-32 | In all, the counts grow by max(length − 1, 0). |
| Frequency.FinalCharacterNotCounted | huffman_coding.c:27-28 | The last character is never counted, whatever it is. |
| Frequency.NothingCounted | huffman_coding.c:24-32 | The table stays all zero exactly when the input has at most one character. |
| Frequency.HistogramSum | huffman_coding.c:24-32 | The counts of a 7-bit string add up to its length. |
| Trees.FullBinaryShape | huffman_coding.c:93-98 | Every tree has one more leaf than it has internal nodes. |
| Trees.HeightBelowLeafCount | huffman_coding.c:93-98 | Tree height is below the leaf count, so no code word overruns the 128-character buffer. |
| Trees.DistinctChildren | huffman_coding.c:93-98 | In a tree whose symbols are distinct, the two subtrees have distinct symbols and share none. |
| Builder.FindTwoMinimums | huffman_coding.c:69-84 | The scan returns the active slot that is least under (frequency, slot index), or -1 when there is none. It also returns the least of the other active slots, or -1. |
| Builder.Merged | huffman_coding.c:93-102 | One merge: the active count drops by exactly one, and the sums of active frequencies and of each symbol's leaves do not change. The first slot becomes empty and the second holds Node(sum, first, second). No other slot changes. |
| Builder.MergedValid | huffman_coding.c:93-102 | A merge keeps every active slot a well-formed tree that carries the frequency table. |
| Builder.MinExists | huffman_coding.c:73-84 | While some slot other than x is active, one of them is least under (frequency, slot index). |
| Builder.GreedyStep | huffman_coding.c:68-102 | When the scan finds two slots, the merge loop's result is that of the merged array. |
| Builder.GreedyFinal | huffman_coding.c:86-89 | When the scan finds no second slot, the result is the first slot's node, or nothing when no slot is active. |
| Builder.GreedyPreserves | huffman_coding.c:68-102 | The loop's result exists iff some slot is active. Otherwise it is a well-formed tree carrying the table, with the slots' total frequency and leaf symbols. |
| Builder.HuffmanTreeShape | huffman_coding.c:60-104 | Starting from the leaves of the table, there is a tree iff some count is positive. That tree's leaves are exactly the symbols with a positive count, each once and carrying its count. Its root holds the total count. |
| Builder.SingleSymbolTree | huffman_coding.c:60-89 | With one positive count, the tree is that symbol's leaf. |
| Builder.InitialNodes | huffman_coding.c:57-64 | The fresh slot array holds a leaf, with its count, for each symbol whose count is positive, and is empty elsewhere. |
| Builder.MergeSlots | huffman_coding.c:93-102 | The in-place merge leaves the slot array equal to `Merged` of the old array. |
| Builder.LoopExit | huffman_coding.c:86-89 | When the loop stops, its result is the greedy result, and there was one merge fewer than there were positive counts. |
| Builder.BuildHuffmanTree | huffman_coding.c:52-104 | The loop returns the greedy merge result, and it has no tree exactly when no count is positive. The tree satisfies `Represents`. The loop ends after (number of positive counts − 1) merges. |
| Codes.CodeMap | huffman_coding.c:36-49 | The symbols with a code word are exactly the tree's leaf symbols. |
| Codes.CodeLengthBound | huffman_coding.c:44-48 | No code word is longer than the tree's height. |
| Codes.DisjointCodes | huffman_coding.c:44-48 | In a tree with distinct symbols, the two subtrees code disjoint sets of symbols. |
| Codes.CodesAreBinary | huffman_coding.c:44-48 | Every code word consists of '0' and '1' only. |
| Codes.CodeLeadsToLeaf | huffman_coding.c:38-48 | Walking a symbol's word from the root, left on '0' and right on '1', ends at that symbol's leaf. |
| Codes.LeafPathIsCode | huffman_coding.c:38-48 | In a tree with distinct symbols, every path that ends at a leaf is exactly that leaf's code word. |
| Codes.PrefixFree | huffman_coding.c:38-48 | No symbol's code word is a prefix of another symbol's word. |
| Codes.RecordedLeaf | huffman_coding.c:38-41 | At a leaf, the walk puts the current prefix into that symbol's entry and changes nothing else. |
| Codes.RecordedNode | huffman_coding.c:44-48 | The left walk under prefix+'0' followed by the right walk under prefix+'1' writes the node's entries under the prefix. |
| Codes.GenerateHuffmanCodes | huffman_coding.c:36-49 | The walk leaves the buffer's first `level` characters unchanged. Each leaf symbol's entry becomes the prefix followed by its code word, and every other entry is unchanged. |
| Statistics.SizeStatistics | huffman_coding.c:116-124 | The loop returns freq_sum = Σ positive counts, original = 8 × freq_sum, and compressed = Σ count × code length over the positive counts. |
| Statistics.PathWeightShift | huffman_coding.c:116-124 | Moving a well-formed tree one level deeper adds its frequency once to the weighted depth sum. |
| Statistics.NodePathLength | huffman_coding.c:93-98 | A node's weighted path length is its subtrees' weighted path lengths plus both of their frequencies. |
| Statistics.CodeMapCost | huffman_coding.c:116-124 | For a tree with distinct symbols, Σ count × word length over its code words is its weighted path length. The counts of those symbols add up to the root's frequency. |
| Statistics.CompressedSizeIsPathLength | huffman_coding.c:116-124 | For the built tree's code table, the compressed size is Σ count × depth over the tree's leaves. |
| Encoder.Encode | huffman_coding.c:188-199 | For menu choice 1 and the size report: no tree iff the line has at most one character. Otherwise the tree is the greedy result for the counts and satisfies `Represents`. The table has the tree's code words, which are prefix-free and decode to their leaves. original = 8 × (length − 1) and compressed = the weighted path length. |
| Encoder.CodedSymbols | huffman_coding.c:38-41 | The symbols with a code word are exactly those with a positive count. |
| Encoder.TableEntries | huffman_coding.c:194-199 | After the walk from the root over empty entries, each leaf symbol's entry is its code word and every other entry is empty. |
| Encoder.TableDecodes | huffman_coding.c:38-48 | Each counted symbol's entry leads from the root to a leaf holding that symbol and its count. |
| Encoder.TablePrefixFree | huffman_coding.c:38-48 | No counted symbol's entry is a prefix of another counted symbol's entry. |
| Encoder.FillCodeTable | huffman_coding.c:194-199 | The fresh code table filled by the walk is a code table for the tree (`TableFor`), and its Σ count × length is the weighted path length. |
| Encoder.WrittenTable | huffman_coding.c:194-199 | The walk writes into empty entries. Each symbol that occurs gets its code word and every other entry stays empty. Each word leads back to its leaf and none is a prefix of another. Σ count × length is the weighted path length. |
| Encoder.SingleSymbolTable | huffman_coding.c:38-41 | With one distinct symbol counted, the root is its leaf and every entry of the table is the empty word. |
| Encoder.LeafCarries | huffman_coding.c:60-64 | A leaf reached by walking a tree that carries the table holds its own symbol's count. |

## Left out

- Interaction: the menu, `scanf`/`fgets`/`getchar` and all `printf` formatting, including `displayHuffmanTree`. These are console I/O. `Encode` takes the line `fgets` read as its input, newline included.
- The compression threshold `compressed_size * 1.0 / freq_sum`: it is floating point.
- `malloc`, `free`, `createNode` as an allocator, and `resetData`: these are memory management, and the tree is a value. `createNode` appears as the `Leaf`/`Node` constructors.
- Lines with a high-bit character before the last position: `frequency[(int)input[i]]` would index outside the table for such a character. `CalculateFrequency` requires every character except the last to be 7-bit, and none to be NUL, which makes the input the C string's content. The last character is never used as an index, so it may be any character.
- Frequency.CalculateFrequency: integer counts are unbounded. A 32-bit `int` cannot overflow on a line `fgets` reads into a 1000-byte buffer.
- Builder.BuildHuffmanTree: when every count is zero, the C reads `nodes[-1]`, which is undefined. The model returns `None` there. `Encode` then stops, whereas the C returns the indeterminate value `nodes[-1]`, which `generateHuffmanCodes` then dereferences.
- Optimality of the tree, that is minimum weighted path length among all prefix codes: the program does not promise it. The model proves that the reported compressed size is the tree's weighted path length.
- Decoding whole bit streams: the program has no decoder. The model proves that each single code word decodes back to its symbol (`Codes.CodeLeadsToLeaf`, `Codes.LeafPathIsCode`).
- Internal nodes carry the character `'\0'` in the C. A `Node` has no symbol, because the walk only ever reads the symbol at a leaf.
