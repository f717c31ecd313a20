/** calculateFrequency (huffman_coding.c:24-32) and the sums over a frequency table. */
module Frequency {
  import opened Trees

  /**
   * A C string the counter can index without leaving the table: no NUL before
   * its end, and every character it counts, that is all but the last, below 128.
   * The last character is never used as an index, so it may be any character.
   */
  predicate IsCountableLine(input: seq<char>)
  {
    && (forall i | 0 <= i < |input| :: input[i] != '\0')
    && (forall i | 0 <= i < |input| - 1 :: (input[i] as int) < AsciiSize)
  }

  /** The characters the counter sees: all but the last, which fgets leaves as the newline. */
  function Counted(input: seq<char>): seq<char>
  {
    if |input| == 0 then [] else input[..|input| - 1]
  }

  /** The number of occurrences of each 7-bit character of s. */
  function Histogram(s: seq<char>): seq<int>
  {
    seq(AsciiSize, c requires 0 <= c < AsciiSize => multiset(s)[c as char])
  }

  /** Sum of the positive entries among the first n of a frequency table. */
  function PositiveSum(f: seq<int>, n: nat): int
    requires n <= |f|
  {
    if n == 0 then 0 else PositiveSum(f, n - 1) + (if f[n - 1] > 0 then f[n - 1] else 0)
  }

  /**
   * The loop of calculateFrequency: it stops at the NUL, and breaks one
   * character earlier, at index strlen(input) - 1, so the last character is
   * never counted.  Each counted character adds one to its slot.
   */
  method CalculateFrequency(input: seq<char>, frequency: array<int>)
    requires frequency.Length == AsciiSize
    requires IsCountableLine(input)
    modifies frequency
    ensures forall c | 0 <= c < AsciiSize ::
      frequency[c] == old(frequency[c]) + Histogram(Counted(input))[c]
  {
    var i := 0;
    while i < |input|
      invariant 0 <= i <= |input|
      invariant i == |input| ==> i == 0
      invariant forall c | 0 <= c < AsciiSize ::
        frequency[c] == old(frequency[c]) + multiset(input[..i])[c as char]
    {
      if i == |input| - 1 {
        break;
      }
      assert input[..i + 1] == input[..i] + [input[i]];
      frequency[input[i] as int] := frequency[input[i] as int] + 1;
      i := i + 1;
    }
    assert input[..i] == Counted(input);
  }

  lemma {:induction false} ZeroSum(f: seq<int>, n: nat)
    requires n <= |f|
    requires forall c | 0 <= c < n :: f[c] <= 0
    ensures PositiveSum(f, n) == 0
  {
    if n > 0 {
      ZeroSum(f, n - 1);
    }
  }

  lemma {:induction false} HistogramSumAppend(s: seq<char>, x: char, n: nat)
    requires n <= AsciiSize
    ensures PositiveSum(Histogram(s + [x]), n)
         == PositiveSum(Histogram(s), n) + (if (x as int) < n then 1 else 0)
  {
    if n > 0 {
      HistogramSumAppend(s, x, n - 1);
      assert multiset(s + [x]) == multiset(s) + multiset{x};
    }
  }

  /** The counts of a 7-bit string add up to its length. */
  lemma {:induction false} HistogramSum(s: seq<char>)
    requires forall i | 0 <= i < |s| :: (s[i] as int) < AsciiSize
    ensures PositiveSum(Histogram(s), AsciiSize) == |s|
  {
    if s == [] {
      ZeroSum(Histogram(s), AsciiSize);
    } else {
      var init := s[..|s| - 1];
      assert s == init + [s[|s| - 1]];
      HistogramSum(init);
      HistogramSumAppend(init, s[|s| - 1], AsciiSize);
    }
  }

  /** calculateFrequency adds max(strlen(input) - 1, 0) to the table in all. */
  lemma CountedTotal(input: seq<char>)
    requires IsCountableLine(input)
    ensures PositiveSum(Histogram(Counted(input)), AsciiSize)
         == if |input| == 0 then 0 else |input| - 1
  {
    HistogramSum(Counted(input));
  }

  /** The table stays all zero exactly when the input has at most one character. */
  lemma NothingCounted(input: seq<char>)
    requires IsCountableLine(input)
    ensures (forall c | 0 <= c < AsciiSize :: Histogram(Counted(input))[c] <= 0) <==> |input| <= 1
  {
    CountedTotal(input);
    if forall c | 0 <= c < AsciiSize :: Histogram(Counted(input))[c] <= 0 {
      ZeroSum(Histogram(Counted(input)), AsciiSize);
    }
  }

  /** The final character is dropped whether or not it is a newline. */
  lemma FinalCharacterNotCounted(input: seq<char>)
    requires |input| > 0
    ensures multiset(Counted(input))[input[|input| - 1]]
         == multiset(input)[input[|input| - 1]] - 1
  {
    assert input == Counted(input) + [input[|input| - 1]];
  }
}
