/**
 * Frequency tables: the pure part of `cnt_freq` in huffman.py, which counts
 * how often each of the 256 byte values occurs in a message.
 */
module Frequency {

  /** The number of symbols, and so the length of every frequency table and code table. */
  const Alphabet: nat := 256

  /** A message: a sequence of symbols, each a byte value. */
  predicate IsMessage(msg: seq<int>) {
    forall i :: 0 <= i < |msg| ==> 0 <= msg[i] < Alphabet
  }

  /** `[0]*256`: the table of an empty message. */
  function Zeros(): (z: seq<nat>)
    ensures |z| == Alphabet
    ensures forall c :: 0 <= c < Alphabet ==> z[c] == 0
  {
    seq(Alphabet, _ => 0)
  }

  /** Python's `sum` over a table. */
  function Sum(s: seq<nat>): nat {
    if |s| == 0 then 0 else Sum(s[..|s| - 1]) + s[|s| - 1]
  }

  /** A table sums to zero exactly when every entry is zero. */
  lemma {:induction false} SumZeroIffAllZero(s: seq<nat>)
    ensures Sum(s) == 0 <==> forall i :: 0 <= i < |s| ==> s[i] == 0
  {
    if |s| > 0 {
      SumZeroIffAllZero(s[..|s| - 1]);
      assert forall i :: 0 <= i < |s| - 1 ==> s[..|s| - 1][i] == s[i];
    }
  }

  /** Incrementing one entry increments the sum. */
  lemma {:induction false} SumIncrement(s: seq<nat>, k: nat)
    requires k < |s|
    ensures Sum(s[k := s[k] + 1]) == Sum(s) + 1
  {
    var t := s[k := s[k] + 1];
    if k < |s| - 1 {
      assert t[..|t| - 1] == s[..|s| - 1][k := s[k] + 1];
      SumIncrement(s[..|s| - 1], k);
    } else {
      assert t[..|t| - 1] == s[..|s| - 1];
    }
  }

  /**
   * `cnt_freq` without the file: entry `c` is the number of occurrences of
   * `c` in the message, so the table sums to the message length.
   */
  function CountFreq(msg: seq<int>): (freq: seq<nat>)
    requires IsMessage(msg)
    ensures |freq| == Alphabet
    ensures forall c :: 0 <= c < Alphabet ==> freq[c] == multiset(msg)[c]
    ensures Sum(freq) == |msg|
  {
    if |msg| == 0 then
      SumZeroIffAllZero(Zeros());
      Zeros()
    else
      var init := msg[..|msg| - 1];
      var c := msg[|msg| - 1];
      assert msg == init + [c];
      var prev := CountFreq(init);
      SumIncrement(prev, c);
      prev[c := prev[c] + 1]
  }

  /** The symbols below `n` that the table gives a non-zero frequency, each once. */
  function NonZeroBag(table: seq<nat>, n: nat): multiset<int>
    requires n <= |table|
  {
    if n == 0 then multiset{}
    else NonZeroBag(table, n - 1) + (if table[n - 1] != 0 then multiset{n - 1} else multiset{})
  }

  /** `NonZeroBag` holds each symbol below `n` with a non-zero frequency exactly once, and nothing else. */
  lemma {:induction false} NonZeroBagCount(table: seq<nat>, n: nat)
    requires n <= |table|
    ensures forall c :: NonZeroBag(table, n)[c] == (if 0 <= c < n && table[c] != 0 then 1 else 0)
  {
    if n > 0 {
      NonZeroBagCount(table, n - 1);
    }
  }

  /** A table has no non-zero entry exactly when its `NonZeroBag` is empty. */
  lemma {:induction false} NonZeroBagEmpty(table: seq<nat>)
    ensures NonZeroBag(table, |table|) == multiset{} <==> forall i :: 0 <= i < |table| ==> table[i] == 0
  {
    var bag := NonZeroBag(table, |table|);
    NonZeroBagCount(table, |table|);
    if forall i :: 0 <= i < |table| ==> table[i] == 0 {
      assert forall c :: bag[c] == multiset{}[c];
      assert bag == multiset{};
    } else {
      var i :| 0 <= i < |table| && table[i] != 0;
      assert bag[i] == 1;
    }
  }
}
