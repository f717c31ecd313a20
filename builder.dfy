/**
 * buildHuffmanTree (huffman_coding.c:52-104): a 128-slot array of optional
 * nodes, merged two minima at a time until one node is left.
 */
module Builder {
  import opened Wrappers
  import opened Trees
  import opened Frequency

  /** The slot array: slot i starts with the leaf of symbol i; None is a NULL slot. */
  type Slots = seq<Option<Tree>>

  predicate Active(s: Slots, k: int)
  {
    0 <= k < |s| && s[k].Some?
  }

  /**
   * The order in which the scan prefers slots: lower frequency first, and on
   * equal frequency the lower index, because the comparisons are strict.
   */
  predicate Precedes(s: Slots, i: int, j: int)
    requires Active(s, i) && Active(s, j)
  {
    || s[i].value.freq < s[j].value.freq
    || (s[i].value.freq == s[j].value.freq && i < j)
  }

  /** Slot k is the first, in that order, of the active slots below n other than x. */
  ghost predicate IsMinBelow(s: Slots, k: int, x: int, n: int)
  {
    && Active(s, k) && k != x && k < n
    && forall j | Active(s, j) && j != x && j != k && j < n :: Precedes(s, k, j)
  }

  ghost predicate IsMinExcept(s: Slots, k: int, x: int)
  {
    IsMinBelow(s, k, x, |s|)
  }

  /**
   * What one scan of the slots yields: `first` is the minimal active slot and
   * `second` the minimal active slot other than `first`, each -1 when there is none.
   */
  ghost predicate TwoMinimums(s: Slots, first: int, second: int)
  {
    && (first == -1 ==> forall j | 0 <= j < |s| :: !Active(s, j))
    && (first != -1 ==> IsMinExcept(s, first, -1))
    && (second == -1 ==> forall j | Active(s, j) :: j == first)
    && (second != -1 ==> IsMinExcept(s, second, first))
  }

  function ActiveIndices(s: Slots): set<int>
  {
    set k | 0 <= k < |s| && Active(s, k)
  }

  /** The number of non-NULL slots. */
  function ActiveCount(s: Slots): nat
  {
    |ActiveIndices(s)|
  }

  /** What a slot contributes to a sum over the active slots. */
  datatype Measure =
    | Weight                      // the node's frequency
    | Occurrences(sym: Symbol)    // how many leaves carry sym
    | LeafTotal                   // how many leaves there are

  function Measured(o: Option<Tree>, m: Measure): int
  {
    if o.None? then 0
    else match m
      case Weight => o.value.freq
      case Occurrences(c) => LeafSyms(o.value)[c]
      case LeafTotal => |LeafSyms(o.value)|
  }

  function SumBelow(s: Slots, m: Measure, n: nat): int
    requires n <= |s|
  {
    if n == 0 then 0 else SumBelow(s, m, n - 1) + Measured(s[n - 1], m)
  }

  /** The sum of a measure over all active slots. */
  function ActiveSum(s: Slots, m: Measure): int
  {
    SumBelow(s, m, |s|)
  }

  /** Every active slot holds a well-formed tree whose leaves carry the table's counts. */
  ghost predicate SlotsValid(s: Slots, f: seq<int>)
  {
    forall k | Active(s, k) :: WellFormed(s[k].value) && Carries(s[k].value, f)
  }

  lemma {:induction false} UpdateBelow(s: Slots, k: int, v: Option<Tree>, m: Measure, n: nat)
    requires 0 <= k < |s| && n <= |s|
    ensures k < n ==> SumBelow(s[k := v], m, n) + Measured(s[k], m) == SumBelow(s, m, n) + Measured(v, m)
    ensures n <= k ==> SumBelow(s[k := v], m, n) == SumBelow(s, m, n)
  {
    if n > 0 {
      UpdateBelow(s, k, v, m, n - 1);
    }
  }

  /** Replacing slot k by v swaps k's contribution to every sum for v's. */
  lemma UpdateSums(s: Slots, k: int, v: Option<Tree>)
    requires 0 <= k < |s|
    ensures forall m :: ActiveSum(s[k := v], m) + Measured(s[k], m) == ActiveSum(s, m) + Measured(v, m)
  {
    forall m {
      UpdateBelow(s, k, v, m, |s|);
    }
  }

  lemma {:induction false} NoActiveSums(s: Slots, m: Measure, n: nat)
    requires n <= |s|
    requires forall j | 0 <= j < n :: s[j].None?
    ensures SumBelow(s, m, n) == 0
  {
    if n > 0 {
      NoActiveSums(s, m, n - 1);
    }
  }

  /** With one active slot left, every sum is that slot's own measure. */
  lemma SingleActiveSums(s: Slots, k: int)
    requires Active(s, k)
    requires forall j | Active(s, j) :: j == k
    ensures forall m :: ActiveSum(s, m) == Measured(s[k], m)
  {
    UpdateSums(s, k, None);
    var s' := s[k := None];
    forall j | 0 <= j < |s'|
      ensures s'[j].None?
    {
      if j != k {
        assert !Active(s, j);
      }
    }
    forall m {
      NoActiveSums(s', m, |s'|);
    }
  }

  /**
   * One merge round (huffman_coding.c:93-102): the two slots' nodes become the
   * children of a fresh internal node, the first slot is cleared and the second
   * receives the new node.
   */
  function Merged(s: Slots, first: int, second: int): (r: Slots)
    requires Active(s, first) && Active(s, second) && first != second
    ensures |r| == |s|
    ensures ActiveCount(r) == ActiveCount(s) - 1
    ensures forall m :: ActiveSum(r, m) == ActiveSum(s, m)
    ensures r[first] == None
    ensures r[second] == Some(Node(s[first].value.freq + s[second].value.freq,
                                   s[first].value, s[second].value))
    ensures forall k | 0 <= k < |s| && k != first && k != second :: r[k] == s[k]
  {
    var node := Node(s[first].value.freq + s[second].value.freq, s[first].value, s[second].value);
    var s1 := s[first := None];
    var r := s1[second := Some(node)];
    UpdateSums(s, first, None);
    UpdateSums(s1, second, Some(node));
    assert forall m :: Measured(Some(node), m) == Measured(s[first], m) + Measured(s[second], m);
    assert ActiveIndices(r) == ActiveIndices(s) - {first};
    r
  }

  lemma {:induction false} MergedValid(s: Slots, first: int, second: int, f: seq<int>)
    requires Active(s, first) && Active(s, second) && first != second
    requires SlotsValid(s, f)
    ensures SlotsValid(Merged(s, first, second), f)
  {
    var r := Merged(s, first, second);
    forall k | Active(r, k)
      ensures WellFormed(r[k].value) && Carries(r[k].value, f)
    {
      if k != second {
        assert r[k] == s[k];
      }
    }
  }

  lemma SomeActiveBesides(s: Slots, x: int)
    requires ActiveCount(s) > (if Active(s, x) then 1 else 0)
    ensures exists j :: Active(s, j) && j != x
  {
    var rest := ActiveIndices(s) - {x};
    if Active(s, x) {
      assert x in ActiveIndices(s);
      assert |rest| == ActiveCount(s) - 1;
    } else {
      assert rest == ActiveIndices(s);
    }
    assert |rest| > 0;
    var j :| j in rest;
    assert Active(s, j);
  }

  lemma {:induction false} MinBelowExists(s: Slots, x: int, n: int)
    requires 0 <= n <= |s|
    requires exists j :: Active(s, j) && j != x && j < n
    ensures exists k :: IsMinBelow(s, k, x, n)
    decreases n
  {
    var m := n - 1;
    if exists j :: Active(s, j) && j != x && j < m {
      MinBelowExists(s, x, m);
      var k :| IsMinBelow(s, k, x, m);
      if Active(s, m) && m != x && s[m].value.freq < s[k].value.freq {
        assert IsMinBelow(s, m, x, n);
      } else {
        assert IsMinBelow(s, k, x, n);
      }
    } else {
      var j :| Active(s, j) && j != x && j < n;
      assert j == m;
      assert IsMinBelow(s, m, x, n);
    }
  }

  /** While a slot other than x is active, a minimal one exists. */
  lemma MinExists(s: Slots, x: int)
    requires ActiveCount(s) > (if Active(s, x) then 1 else 0)
    ensures exists k :: IsMinExcept(s, k, x)
  {
    SomeActiveBesides(s, x);
    MinBelowExists(s, x, |s|);
    var k :| IsMinBelow(s, k, x, |s|);
    assert IsMinExcept(s, k, x);
  }

  /** The order is strict, so the minimum is unique. */
  lemma MinUnique(s: Slots, a: int, b: int, x: int)
    requires IsMinExcept(s, a, x) && IsMinExcept(s, b, x)
    ensures a == b
  {
  }

  /**
   * The reference for the builder: merge the two minimal active slots until at
   * most one is left and return that one, or None when no slot is active.
   */
  ghost function Greedy(s: Slots): Option<Tree>
    decreases ActiveCount(s)
  {
    if ActiveCount(s) == 0 then None
    else
      MinExists(s, -1);
      var first :| IsMinExcept(s, first, -1);
      if ActiveCount(s) == 1 then s[first]
      else
        MinExists(s, first);
        var second :| IsMinExcept(s, second, first);
        Greedy(Merged(s, first, second))
  }

  /** A round that merges the two minima the scan finds is a step of Greedy. */
  lemma GreedyStep(s: Slots, first: int, second: int)
    requires IsMinExcept(s, first, -1) && IsMinExcept(s, second, first)
    ensures ActiveCount(s) >= 2
    ensures Greedy(s) == Greedy(Merged(s, first, second))
  {
    assert first in ActiveIndices(s);
    assert second in ActiveIndices(s) - {first};
    assert |ActiveIndices(s) - {first}| == ActiveCount(s) - 1;
    forall a | IsMinExcept(s, a, -1)
      ensures a == first
    {
      MinUnique(s, a, first, -1);
    }
    forall b | IsMinExcept(s, b, first)
      ensures b == second
    {
      MinUnique(s, b, second, first);
    }
  }

  /** When the scan finds no second slot, Greedy returns the first (or None). */
  lemma GreedyFinal(s: Slots, first: int)
    requires TwoMinimums(s, first, -1)
    ensures Greedy(s) == if first == -1 then None else s[first]
  {
    if first == -1 {
      assert ActiveIndices(s) == {};
    } else {
      assert ActiveIndices(s) == {first};
      forall a | IsMinExcept(s, a, -1)
        ensures a == first
      {
      }
    }
  }

  lemma {:induction false} GreedyPreserves(s: Slots, f: seq<int>)
    requires SlotsValid(s, f)
    ensures Greedy(s).None? <==> ActiveCount(s) == 0
    ensures Greedy(s).Some? ==>
      && WellFormed(Greedy(s).value)
      && Carries(Greedy(s).value, f)
      && forall m :: Measured(Greedy(s), m) == ActiveSum(s, m)
    decreases ActiveCount(s)
  {
    if ActiveCount(s) == 0 {
    } else if ActiveCount(s) == 1 {
      MinExists(s, -1);
      var k :| IsMinExcept(s, k, -1);
      assert |ActiveIndices(s) - {k}| == 0;
      forall j | Active(s, j)
        ensures j == k
      {
        assert j in ActiveIndices(s);
      }
      GreedyFinal(s, k);
      SingleActiveSums(s, k);
    } else {
      MinExists(s, -1);
      var first :| IsMinExcept(s, first, -1);
      MinExists(s, first);
      var second :| IsMinExcept(s, second, first);
      GreedyStep(s, first, second);
      MergedValid(s, first, second, f);
      GreedyPreserves(Merged(s, first, second), f);
    }
  }

  /** The slot array after the loop at huffman_coding.c:60-64. */
  function InitialSlots(f: seq<int>): Slots
    requires |f| == AsciiSize
  {
    seq(AsciiSize, c requires 0 <= c < AsciiSize =>
      if f[c] > 0 then Some(Leaf(c as Symbol, f[c])) else None)
  }

  /** The symbols with a positive count. */
  function PositiveSymbols(f: seq<int>): set<int>
  {
    set c | 0 <= c < |f| && f[c] > 0
  }

  lemma {:induction false} InitialSums(f: seq<int>, n: nat)
    requires |f| == AsciiSize && n <= AsciiSize
    ensures forall c: Symbol ::
      SumBelow(InitialSlots(f), Occurrences(c), n) == if c < n && f[c] > 0 then 1 else 0
    ensures SumBelow(InitialSlots(f), LeafTotal, n) <= n
    ensures SumBelow(InitialSlots(f), Weight, n) == PositiveSum(f, n)
  {
    if n > 0 {
      InitialSums(f, n - 1);
    }
  }

  lemma InitialSlotsFacts(f: seq<int>)
    requires |f| == AsciiSize
    ensures SlotsValid(InitialSlots(f), f)
    ensures ActiveIndices(InitialSlots(f)) == PositiveSymbols(f)
    ensures forall c: Symbol :: ActiveSum(InitialSlots(f), Occurrences(c)) == if f[c] > 0 then 1 else 0
    ensures ActiveSum(InitialSlots(f), LeafTotal) <= AsciiSize
    ensures ActiveSum(InitialSlots(f), Weight) == PositiveSum(f, AsciiSize)
  {
    InitialSums(f, AsciiSize);
  }

  /**
   * What the built tree is for the table f: leaves exactly the symbols with a
   * positive count, each once and with its count, every internal node the sum
   * of its children, and the root the sum of all positive counts.
   */
  predicate Represents(t: Tree, f: seq<int>)
    requires |f| == AsciiSize
  {
    && WellFormed(t)
    && Carries(t, f)
    && (forall c: Symbol :: LeafSyms(t)[c] == if f[c] > 0 then 1 else 0)
    && t.freq == PositiveSum(f, AsciiSize)
  }

  /** The greedy merge of the initial slots yields a tree exactly when some count is positive. */
  lemma HuffmanTreeShape(f: seq<int>)
    requires |f| == AsciiSize
    ensures Greedy(InitialSlots(f)).None? <==> forall c | 0 <= c < AsciiSize :: f[c] <= 0
    ensures Greedy(InitialSlots(f)).Some? ==>
      && Represents(Greedy(InitialSlots(f)).value, f)
      && |LeafSyms(Greedy(InitialSlots(f)).value)| <= AsciiSize
  {
    var s := InitialSlots(f);
    InitialSlotsFacts(f);
    GreedyPreserves(s, f);
    if Greedy(s).Some? {
      var t := Greedy(s).value;
      assert Measured(Greedy(s), Weight) == t.freq;
      assert Measured(Greedy(s), LeafTotal) == |LeafSyms(t)|;
      forall c: Symbol
        ensures LeafSyms(t)[c] == if f[c] > 0 then 1 else 0
      {
        assert Measured(Greedy(s), Occurrences(c)) == LeafSyms(t)[c];
      }
    }
    if forall c | 0 <= c < AsciiSize :: f[c] <= 0 {
      assert PositiveSymbols(f) == {};
    } else {
      var c :| 0 <= c < AsciiSize && f[c] > 0;
      assert c in PositiveSymbols(f);
    }
  }

  /** With a single positive count, the root is that symbol's leaf itself. */
  lemma SingleSymbolTree(f: seq<int>, c: Symbol)
    requires |f| == AsciiSize && f[c] > 0
    requires forall d | 0 <= d < AsciiSize && d != c :: f[d] <= 0
    ensures Greedy(InitialSlots(f)) == Some(Leaf(c, f[c]))
  {
    var s := InitialSlots(f);
    assert TwoMinimums(s, c, -1);
    GreedyFinal(s, c);
  }

  /**
   * One scan of huffman_coding.c:69-84: the first minimum and the minimum of
   * the rest, in the order lower frequency first, then lower slot.
   */
  method FindTwoMinimums(nodes: array<Option<Tree>>) returns (first: int, second: int)
    ensures TwoMinimums(nodes[..], first, second)
  {
    ghost var s := nodes[..];
    first, second := -1, -1;
    for i := 0 to nodes.Length
      invariant first == -1 ==> forall j | 0 <= j < i :: !Active(s, j)
      invariant first != -1 ==> IsMinBelow(s, first, -1, i)
      invariant second == -1 ==> forall j | Active(s, j) && j < i :: j == first
      invariant second != -1 ==> IsMinBelow(s, second, first, i)
    {
      if nodes[i].Some? {
        if first == -1 || nodes[i].value.freq < nodes[first].value.freq {
          second := first;
          first := i;
        } else if second == -1 || nodes[i].value.freq < nodes[second].value.freq {
          second := i;
        }
      }
    }
  }

  /** One merge round of huffman_coding.c:93-102, in place. */
  method MergeSlots(nodes: array<Option<Tree>>, first: int, second: int)
    requires Active(nodes[..], first) && Active(nodes[..], second) && first != second
    modifies nodes
    ensures nodes[..] == Merged(old(nodes[..]), first, second)
  {
    var internal := Node(nodes[first].value.freq + nodes[second].value.freq,
                         nodes[first].value, nodes[second].value);
    nodes[first] := None;
    nodes[second] := Some(internal);
    assert nodes[..] == old(nodes[..])[first := None][second := Some(internal)];
  }

  /**
   * When the scan finds no second slot, the loop of huffman_coding.c:68-89 has
   * the greedy result, one merge fewer than there were positive counts.
   */
  lemma LoopExit(f: seq<int>, s: Slots, first: int, merges: nat)
    requires |f| == AsciiSize
    requires Greedy(s) == Greedy(InitialSlots(f))
    requires merges + ActiveCount(s) == ActiveCount(InitialSlots(f))
    requires TwoMinimums(s, first, -1)
    ensures Greedy(InitialSlots(f)) == if first == -1 then None else s[first]
    ensures first != -1 ==> merges == |PositiveSymbols(f)| - 1
  {
    GreedyFinal(s, first);
    InitialSlotsFacts(f);
    if first != -1 {
      assert ActiveIndices(s) == {first};
    }
  }

  /** The slot array of huffman_coding.c:57-64: one leaf per symbol with a positive count. */
  method InitialNodes(frequency: array<int>) returns (nodes: array<Option<Tree>>)
    requires frequency.Length == AsciiSize
    ensures fresh(nodes)
    ensures nodes[..] == InitialSlots(frequency[..])
  {
    nodes := new Option<Tree>[AsciiSize](_ => None);
    for i := 0 to AsciiSize
      invariant forall c | 0 <= c < i :: nodes[c] == InitialSlots(frequency[..])[c]
      invariant forall c | i <= c < AsciiSize :: nodes[c] == None
    {
      if frequency[i] > 0 {
        nodes[i] := Some(Leaf(i, frequency[i]));
      }
    }
    assert nodes[..] == InitialSlots(frequency[..]);
  }

  /**
   * The builder.  With no positive count huffman_coding.c reads nodes[-1]; the model
   * returns None there.  The ghost `merges` counts the merge rounds.
   */
  method BuildHuffmanTree(frequency: array<int>) returns (root: Option<Tree>, ghost merges: nat)
    requires frequency.Length == AsciiSize
    ensures root == Greedy(InitialSlots(frequency[..]))
    ensures root.None? <==> forall c | 0 <= c < AsciiSize :: frequency[c] <= 0
    ensures root.Some? ==> Represents(root.value, frequency[..])
    ensures root.Some? ==> merges == |PositiveSymbols(frequency[..])| - 1
  {
    var nodes := InitialNodes(frequency);
    ghost var initial := nodes[..];
    InitialSlotsFacts(frequency[..]);
    merges := 0;

    var first, second := FindTwoMinimums(nodes);
    while second != -1
      invariant Greedy(nodes[..]) == Greedy(initial)
      invariant merges + ActiveCount(nodes[..]) == ActiveCount(initial)
      invariant TwoMinimums(nodes[..], first, second)
      decreases ActiveCount(nodes[..])
    {
      GreedyStep(nodes[..], first, second);
      MergeSlots(nodes, first, second);
      merges := merges + 1;
      first, second := FindTwoMinimums(nodes);
    }

    LoopExit(frequency[..], nodes[..], first, merges);
    root := if first == -1 then None else nodes[first];
    HuffmanTreeShape(frequency[..]);
  }
}
