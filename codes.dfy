/**
 * generateHuffmanCodes (huffman_coding.c:36-49): a depth-first walk that
 * writes '0' or '1' at index `level` of a shared buffer and copies the
 * prefix into the code table at every leaf.
 */
module Codes {
  import opened Wrappers
  import opened Trees

  type Code = seq<char>

  /**
   * The code table the walk produces, as a value: each leaf symbol maps to its
   * root-to-leaf path, '0' for a left and '1' for a right branch.  When a symbol
   * labels two leaves the right one wins, as the later write in huffman_coding.c does.
   */
  function CodeMap(t: Tree): (m: map<Symbol, Code>)
    ensures forall c: Symbol :: c in m <==> c in LeafSyms(t)
  {
    match t
    case Leaf(c, _) => map[c := []]
    case Node(_, l, r) => Branch(CodeMap(l), CodeMap(r))
  }

  /** The table of an internal node from its children's: '0' before the left codes, '1' before the right. */
  function Branch(ml: map<Symbol, Code>, mr: map<Symbol, Code>): (m: map<Symbol, Code>)
    ensures m.Keys == ml.Keys + mr.Keys
    ensures forall c | c in mr :: m[c] == ['1'] + mr[c]
    ensures forall c | c in ml && c !in mr :: m[c] == ['0'] + ml[c]
  {
    map c | c in ml.Keys + mr.Keys :: if c in mr then ['1'] + mr[c] else ['0'] + ml[c]
  }

  /** A code word is its leaf's depth, so none is longer than the tree is high. */
  lemma {:induction false} CodeLengthBound(t: Tree, c: Symbol)
    requires c in CodeMap(t)
    ensures |CodeMap(t)[c]| <= Height(t)
  {
    match t
    case Leaf(_, _) =>
    case Node(_, l, r) =>
      if c in CodeMap(r) {
        CodeLengthBound(r, c);
      } else {
        CodeLengthBound(l, c);
      }
  }

  /** Walk from t along bits: left on '0', right on '1'. */
  function Follow(t: Tree, bits: Code): Option<Tree>
  {
    if bits == [] then Some(t)
    else match t
      case Leaf(_, _) => None
      case Node(_, l, r) =>
        if bits[0] == '0' then Follow(l, bits[1..])
        else if bits[0] == '1' then Follow(r, bits[1..])
        else None
  }

  /** A code word is made of the digits '0' and '1' only. */
  predicate IsBinary(w: Code)
  {
    forall i | 0 <= i < |w| :: w[i] == '0' || w[i] == '1'
  }

  lemma PrependBinary(b: char, w: Code)
    requires b == '0' || b == '1'
    requires IsBinary(w)
    ensures IsBinary([b] + w)
  {
    forall i | 0 <= i < |[b] + w|
      ensures ([b] + w)[i] == '0' || ([b] + w)[i] == '1'
    {
      if i > 0 {
        assert ([b] + w)[i] == w[i - 1];
      }
    }
  }

  lemma {:induction false} CodesAreBinary(t: Tree, c: Symbol)
    requires c in CodeMap(t)
    ensures IsBinary(CodeMap(t)[c])
  {
    match t
    case Leaf(_, _) =>
    case Node(_, l, r) =>
      if c in CodeMap(r) {
        CodesAreBinary(r, c);
        PrependBinary('1', CodeMap(r)[c]);
      } else {
        CodesAreBinary(l, c);
        PrependBinary('0', CodeMap(l)[c]);
      }
  }

  /** Walking a symbol's code word from the root ends at a leaf of that symbol. */
  lemma {:induction false} CodeLeadsToLeaf(t: Tree, c: Symbol)
    requires c in CodeMap(t)
    ensures Follow(t, CodeMap(t)[c]).Some?
    ensures Follow(t, CodeMap(t)[c]).value.Leaf?
    ensures Follow(t, CodeMap(t)[c]).value.sym == c
  {
    match t
    case Leaf(_, _) =>
    case Node(_, l, r) =>
      var code := CodeMap(t)[c];
      if c in CodeMap(r) {
        CodeLeadsToLeaf(r, c);
        assert code[1..] == CodeMap(r)[c];
      } else {
        CodeLeadsToLeaf(l, c);
        assert code[1..] == CodeMap(l)[c];
      }
  }

  /**
   * Conversely, in a tree without repeated symbols, the only bits that lead to
   * a leaf are that leaf's code word: decoding reaches no other symbol.
   */
  lemma {:induction false} LeafPathIsCode(t: Tree, bits: Code)
    requires Distinct(t)
    requires Follow(t, bits).Some? && Follow(t, bits).value.Leaf?
    ensures Follow(t, bits).value.sym in CodeMap(t)
    ensures CodeMap(t)[Follow(t, bits).value.sym] == bits
  {
    match t
    case Leaf(_, _) =>
    case Node(_, l, r) =>
      if bits != [] {
        var rest := bits[1..];
        assert bits == [bits[0]] + rest;
        DisjointCodes(t);
        if bits[0] == '0' {
          LeafPathIsCode(l, rest);
          var c := Follow(l, rest).value.sym;
          assert c !in CodeMap(r);
        } else {
          LeafPathIsCode(r, rest);
        }
      }
  }

  /** The two subtrees of a tree without repeated symbols code disjoint sets of symbols. */
  lemma DisjointCodes(t: Tree)
    requires t.Node? && Distinct(t)
    ensures Distinct(t.left) && Distinct(t.right)
    ensures CodeMap(t.left).Keys !! CodeMap(t.right).Keys
  {
    DistinctChildren(t);
    forall c | c in CodeMap(t.left).Keys
      ensures c !in CodeMap(t.right).Keys
    {
      assert c in LeafSyms(t.left);
    }
  }

  lemma PrependKeepsPrefix(b: char, x: Code, y: Code)
    requires [b] + x <= [b] + y
    ensures x <= y
  {
    assert x == ([b] + x)[1..];
    assert y == ([b] + y)[1..];
  }

  /** No code word is a prefix of another symbol's code word. */
  lemma {:induction false} PrefixFree(t: Tree, c: Symbol, d: Symbol)
    requires c in CodeMap(t) && d in CodeMap(t) && c != d
    ensures !(CodeMap(t)[c] <= CodeMap(t)[d])
  {
    match t
    case Leaf(_, _) =>
    case Node(_, l, r) =>
      var m, ml, mr := CodeMap(t), CodeMap(l), CodeMap(r);
      if c in mr && d in mr {
        PrefixFree(r, c, d);
        if m[c] <= m[d] {
          PrependKeepsPrefix('1', mr[c], mr[d]);
        }
      } else if c !in mr && d !in mr {
        PrefixFree(l, c, d);
        if m[c] <= m[d] {
          PrependKeepsPrefix('0', ml[c], ml[d]);
        }
      } else {
        assert m[c][0] != m[d][0];
      }
  }

  /**
   * The code table after the walk over t with path `prefix` so far: every leaf
   * symbol of t gets prefix followed by its code word in CodeMap(t); the other
   * entries keep what `table` held.
   */
  function Recorded(table: seq<Code>, prefix: Code, t: Tree): (r: seq<Code>)
    requires |table| == AsciiSize
  {
    seq(AsciiSize, c requires 0 <= c < AsciiSize =>
      if c as Symbol in CodeMap(t) then prefix + CodeMap(t)[c as Symbol] else table[c])
  }

  /** At a leaf the walk writes the path itself into the leaf's entry. */
  lemma RecordedLeaf(table: seq<Code>, prefix: Code, c: Symbol, w: int)
    requires |table| == AsciiSize
    ensures Recorded(table, prefix, Leaf(c, w)) == table[c := prefix]
  {
    forall k | 0 <= k < AsciiSize
      ensures Recorded(table, prefix, Leaf(c, w))[k] == table[c := prefix][k]
    {
      assert prefix + [] == prefix;
    }
  }

  /** Kept apart: stated inline in RecordedNodeAt, this step exhausts the solver. */
  lemma AppendAssoc(a: Code, b: Code, c: Code)
    ensures a + b + c == a + (b + c)
  {
  }

  lemma RecordedNodeAt(table: seq<Code>, prefix: Code, t: Tree, c: Symbol)
    requires |table| == AsciiSize && t.Node?
    ensures Recorded(Recorded(table, prefix + ['0'], t.left), prefix + ['1'], t.right)[c]
         == Recorded(table, prefix, t)[c]
  {
    var ml, mr := CodeMap(t.left), CodeMap(t.right);
    var middle := Recorded(table, prefix + ['0'], t.left);
    var after := Recorded(middle, prefix + ['1'], t.right);
    assert middle[c] == if c in ml then prefix + ['0'] + ml[c] else table[c];
    assert after[c] == if c in mr then prefix + ['1'] + mr[c] else middle[c];
    assert CodeMap(t) == Branch(ml, mr);
    assert Recorded(table, prefix, t)[c] == if c in CodeMap(t) then prefix + CodeMap(t)[c] else table[c];
    if c in mr {
      AppendAssoc(prefix, ['1'], mr[c]);
    } else if c in ml {
      AppendAssoc(prefix, ['0'], ml[c]);
    }
  }

  /** The two writes of an internal node, left then right, give the node's table. */
  lemma RecordedNode(table: seq<Code>, prefix: Code, t: Tree)
    requires |table| == AsciiSize && t.Node?
    ensures Recorded(Recorded(table, prefix + ['0'], t.left), prefix + ['1'], t.right)
         == Recorded(table, prefix, t)
  {
    forall c | 0 <= c < AsciiSize
      ensures Recorded(Recorded(table, prefix + ['0'], t.left), prefix + ['1'], t.right)[c]
           == Recorded(table, prefix, t)[c]
    {
      RecordedNodeAt(table, prefix, t, c);
    }
  }

  /**
   * The walk itself.  `code` is the shared buffer: its first `level` cells
   * hold the path to `root`.  At a leaf the prefix is NUL-terminated and copied
   * into the table; at an internal node '0' and then '1' are written at `level`
   * before descending left and then right.
   */
  method GenerateHuffmanCodes(root: Tree, code: array<char>, level: nat, codeTable: array<Code>)
    requires codeTable.Length == AsciiSize
    requires level + Height(root) < code.Length
    requires forall i | 0 <= i < level :: code[i] != '\0'
    modifies code, codeTable
    ensures code[..level] == old(code[..level])
    ensures codeTable[..] == Recorded(old(codeTable[..]), old(code[..level]), root)
    decreases root
  {
    match root
    case Leaf(c, _) =>
      code[level] := '\0';
      assert code[..level] == old(code[..level]);
      codeTable[c] := code[..level];
      assert codeTable[..] == old(codeTable[..])[c := old(code[..level])];
      RecordedLeaf(old(codeTable[..]), old(code[..level]), c, root.freq);
    case Node(_, l, r) =>
      ghost var prefix := code[..level];
      ghost var table := codeTable[..];
      code[level] := '0';
      assert code[..level + 1] == prefix + ['0'];
      GenerateHuffmanCodes(l, code, level + 1, codeTable);
      assert code[..level] == prefix;
      code[level] := '1';
      assert code[..level + 1] == prefix + ['1'];
      GenerateHuffmanCodes(r, code, level + 1, codeTable);
      assert code[..level] == prefix;
      RecordedNode(table, prefix, root);
  }
}
