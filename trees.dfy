/**
 * The Huffman tree (struct TreeNode of huffman_coding.c).  A node is never
 * changed after it is linked into its parent, so the tree is a value.
 */
module Trees {

  /** Every table of huffman_coding.c is indexed by a 7-bit character. */
  const AsciiSize: nat := 128

  type Symbol = c: nat | c < AsciiSize

  /**
   * A leaf holds one symbol and its count; an internal node holds the summed
   * count of its two children.  The C program's internal nodes carry the character
   * '\0', which nothing ever reads, so Node has no symbol.
   */
  datatype Tree =
    | Leaf(sym: Symbol, freq: int)
    | Node(freq: int, left: Tree, right: Tree)

  /** The symbols at the leaves, with their multiplicity. */
  function LeafSyms(t: Tree): multiset<Symbol>
  {
    match t
    case Leaf(c, _) => multiset{c}
    case Node(_, l, r) => LeafSyms(l) + LeafSyms(r)
  }

  /** Leaves have a positive count, internal nodes the sum of their children's. */
  predicate WellFormed(t: Tree)
  {
    match t
    case Leaf(_, w) => w > 0
    case Node(w, l, r) => w == l.freq + r.freq && WellFormed(l) && WellFormed(r)
  }

  /** Every leaf carries the count that the frequency table gives its symbol. */
  predicate Carries(t: Tree, f: seq<int>)
  {
    match t
    case Leaf(c, w) => c < |f| && w == f[c]
    case Node(_, l, r) => Carries(l, f) && Carries(r, f)
  }

  /** No symbol labels two leaves. */
  predicate Distinct(t: Tree)
  {
    forall c: Symbol :: LeafSyms(t)[c] <= 1
  }

  function Height(t: Tree): nat
  {
    match t
    case Leaf(_, _) => 0
    case Node(_, l, r) => 1 + if Height(l) < Height(r) then Height(r) else Height(l)
  }

  function InternalCount(t: Tree): nat
  {
    match t
    case Leaf(_, _) => 0
    case Node(_, l, r) => 1 + InternalCount(l) + InternalCount(r)
  }

  /** Every internal node has two children, so a tree has one leaf more than internal nodes. */
  lemma {:induction false} FullBinaryShape(t: Tree)
    ensures InternalCount(t) + 1 == |LeafSyms(t)|
  {
    match t
    case Leaf(_, _) =>
    case Node(_, l, r) =>
      FullBinaryShape(l);
      FullBinaryShape(r);
  }

  /** A root-to-leaf path is shorter than the number of leaves. */
  lemma {:induction false} HeightBelowLeafCount(t: Tree)
    ensures Height(t) < |LeafSyms(t)|
  {
    match t
    case Leaf(_, _) =>
    case Node(_, l, r) =>
      HeightBelowLeafCount(l);
      HeightBelowLeafCount(r);
  }

  /** The subtrees of a tree without repeated symbols have none either, and share none. */
  lemma DistinctChildren(t: Tree)
    requires t.Node? && Distinct(t)
    ensures Distinct(t.left) && Distinct(t.right)
    ensures forall c | c in LeafSyms(t.left) :: c !in LeafSyms(t.right)
  {
    forall c: Symbol
      ensures LeafSyms(t.left)[c] <= 1 && LeafSyms(t.right)[c] <= 1
      ensures LeafSyms(t.left)[c] == 0 || LeafSyms(t.right)[c] == 0
    {
      assert LeafSyms(t)[c] == LeafSyms(t.left)[c] + LeafSyms(t.right)[c];
    }
  }
}
