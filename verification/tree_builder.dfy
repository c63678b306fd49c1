/**
 * `create_huff_tree` of huffman.py: a leaf per symbol of non-zero frequency
 * goes into the ordered list, then the two least nodes are merged under a new
 * internal node until one node remains.
 */
module TreeBuilder {
  import opened Results
  import opened HuffmanNode
  import opened OrderedList
  import opened Frequency

  /** All leaf symbols of the trees in a list. */
  function ForestSymbols(ol: seq<Node>): multiset<int> {
    if |ol| == 0 then multiset{} else Symbols(ol[0]) + ForestSymbols(ol[1..])
  }

  /** The total frequency of the trees in a list. */
  function ForestFreq(ol: seq<Node>): nat {
    if |ol| == 0 then 0 else ol[0].freq + ForestFreq(ol[1..])
  }

  lemma {:induction false} ForestConcat(a: seq<Node>, b: seq<Node>)
    ensures ForestSymbols(a + b) == ForestSymbols(a) + ForestSymbols(b)
    ensures ForestFreq(a + b) == ForestFreq(a) + ForestFreq(b)
  {
    if |a| > 0 {
      assert (a + b)[1..] == a[1..] + b;
      ForestConcat(a[1..], b);
    } else {
      assert a + b == b;
    }
  }

  /** Inserting a tree into the list adds its symbols and its frequency to the list's. */
  lemma {:induction false} AddToForest(s: seq<Node>, n: Node)
    ensures ForestSymbols(Add(s, n)) == ForestSymbols(s) + Symbols(n)
    ensures ForestFreq(Add(s, n)) == ForestFreq(s) + n.freq
  {
    var k := InsertPos(s, n);
    AddSplits(s, n);
    assert s == s[..k] + s[k..];
    ForestConcat(s[..k], s[k..]);
    ForestConcat(s[..k] + [n], s[k..]);
    ForestConcat(s[..k], [n]);
    assert ForestSymbols([n]) == Symbols(n);
  }

  /**
   * The invariant of the builder's list after the leaves of the first `n`
   * symbols are in: it is sorted, holds well-formed trees whose leaves carry
   * the table's frequencies, and between them the trees hold every non-zero
   * symbol below `n` exactly once and the whole frequency of those symbols.
   */
  ghost predicate Forest(ol: seq<Node>, table: seq<nat>, n: nat)
    requires n <= |table|
  {
    && Sorted(ol)
    && (forall x :: x in ol ==> WellFormed(x) && LeavesMatch(x, table))
    && ForestSymbols(ol) == NonZeroBag(table, n)
    && ForestFreq(ol) == Sum(table[..n])
  }

  /** Sum over a growing prefix of the table. */
  lemma {:induction false} SumPrefixStep(table: seq<nat>, n: nat)
    requires 0 < n <= |table|
    ensures Sum(table[..n]) == Sum(table[..n - 1]) + table[n - 1]
  {
    assert table[..n][..n - 1] == table[..n - 1];
  }

  /** Adding the leaf of a non-zero symbol `n - 1` extends the invariant from `n - 1` to `n`. */
  lemma {:induction false} AddLeafStep(prev: seq<Node>, table: seq<nat>, n: nat)
    requires 0 < n <= |table| && table[n - 1] != 0
    requires Forest(prev, table, n - 1)
    ensures Forest(Add(prev, Leaf(n - 1, table[n - 1])), table, n)
  {
    var leaf := Leaf(n - 1, table[n - 1]);
    var r := Add(prev, leaf);
    assert forall x :: x in r ==> WellFormed(x) && LeavesMatch(x, table) by {
      ElementsOfAdd(prev, leaf);
    }
    assert ForestSymbols(r) == NonZeroBag(table, n) && ForestFreq(r) == Sum(table[..n]) by {
      AddToForest(prev, leaf);
      SumPrefixStep(table, n);
    }
    assert Sorted(r) by {
      AddKeepsOrder(prev, leaf);
    }
  }

  /** A zero entry `n - 1` adds no leaf and extends the invariant from `n - 1` to `n`. */
  lemma {:induction false} SkipZeroStep(prev: seq<Node>, table: seq<nat>, n: nat)
    requires 0 < n <= |table| && table[n - 1] == 0
    requires Forest(prev, table, n - 1)
    ensures Forest(prev, table, n)
  {
    SumPrefixStep(table, n);
  }

  /** Lines 43-45: one leaf per non-zero entry below `n`, added in ascending symbol order. */
  function InsertLeaves(table: seq<nat>, n: nat): (ol: seq<Node>)
    requires n <= |table|
    ensures |ol| <= n
  {
    if n == 0 then []
    else
      var prev := InsertLeaves(table, n - 1);
      if table[n - 1] != 0 then Add(prev, Leaf(n - 1, table[n - 1])) else prev
  }

  /** The list the leaves are inserted into is a sorted forest of the non-zero entries below `n`. */
  lemma {:induction false} InsertLeavesForest(table: seq<nat>, n: nat)
    requires n <= |table|
    ensures Forest(InsertLeaves(table, n), table, n)
  {
    if n > 0 {
      InsertLeavesForest(table, n - 1);
      var prev := InsertLeaves(table, n - 1);
      if table[n - 1] != 0 {
        AddLeafStep(prev, table, n);
      } else {
        SkipZeroStep(prev, table, n);
      }
    }
  }

  /** A non-zero entry of the table adds its leaf to the priority list. */
  lemma {:induction false} InsertLeavesLeafStep(table: seq<nat>, n: nat)
    requires 0 < n <= |table| && table[n - 1] != 0
    ensures InsertLeaves(table, n) == Add(InsertLeaves(table, n - 1), Leaf(n - 1, table[n - 1]))
  {
  }

  /** A zero entry of the table adds nothing to the priority list. */
  lemma {:induction false} InsertLeavesZeroStep(table: seq<nat>, n: nat)
    requires 0 < n <= |table| && table[n - 1] == 0
    ensures InsertLeaves(table, n) == InsertLeaves(table, n - 1)
  {
  }

  /** Zero entries of the table add nothing to the priority list. */
  lemma {:induction false} InsertLeavesSkipsZeros(table: seq<nat>, m: nat, n: nat)
    requires m <= n <= |table|
    requires forall i :: m <= i < n ==> table[i] == 0
    ensures InsertLeaves(table, n) == InsertLeaves(table, m)
    decreases n
  {
    if m < n {
      InsertLeavesSkipsZeros(table, m, n - 1);
      InsertLeavesZeroStep(table, n);
    }
  }

  /**
   * Lines 54-55: the two least trees of the list have distinct
   * representative symbols, so the first is strictly below the second and the
   * guard `pop1 < pop2` always holds; the branch that re-adds a stale `parent`
   * is never taken.
   */
  lemma {:induction false} MergeGuardHolds(ol: seq<Node>, table: seq<nat>)
    requires Forest(ol, table, |table|)
    requires |ol| >= 2
    ensures Less(ol[0], ol[1])
  {
    var a, b := ol[0], ol[1];
    assert ol[0] in ol && ol[1] in ol;
    CharIsMinSymbol(a);
    CharIsMinSymbol(b);
    assert ol[1..][1..] == ol[2..];
    assert ForestSymbols(ol) == Symbols(a) + Symbols(b) + ForestSymbols(ol[2..]);
    NonZeroBagCount(table, |table|);
    assert ForestSymbols(ol)[a.sym] <= 1;
    assert Symbols(b)[a.sym] == 0;
    assert a.sym != b.sym;
  }

  /** Lines 55-57: the internal node over `pop1` and `pop2`. */
  function Merge(pop1: Node, pop2: Node): (parent: Node)
    requires WellFormed(pop1) && WellFormed(pop2) && Less(pop1, pop2)
    ensures WellFormed(parent)
    ensures Symbols(parent) == Symbols(pop1) + Symbols(pop2)
  {
    Internal(if pop1.sym <= pop2.sym then pop1.sym else pop2.sym, pop1.freq + pop2.freq, pop1, pop2)
  }

  /** The merged tree and the untouched trees keep their shape and frequencies. */
  lemma {:induction false} MergeKeepsTrees(ol: seq<Node>, table: seq<nat>)
    requires |ol| >= 2
    requires forall x :: x in ol ==> WellFormed(x) && LeavesMatch(x, table)
    requires Less(ol[0], ol[1])
    ensures forall x :: x in Add(ol[2..], Merge(ol[0], ol[1])) ==> WellFormed(x) && LeavesMatch(x, table)
  {
    assert ol[0] in ol && ol[1] in ol;
    ElementsOfAdd(ol[2..], Merge(ol[0], ol[1]));
    assert forall x :: x in ol[2..] ==> x in ol;
  }

  /** The merged tree holds exactly the symbols and frequency of its two children. */
  lemma {:induction false} MergeKeepsTotals(ol: seq<Node>)
    requires |ol| >= 2
    requires WellFormed(ol[0]) && WellFormed(ol[1]) && Less(ol[0], ol[1])
    ensures ForestSymbols(Add(ol[2..], Merge(ol[0], ol[1]))) == ForestSymbols(ol)
    ensures ForestFreq(Add(ol[2..], Merge(ol[0], ol[1]))) == ForestFreq(ol)
  {
    AddToForest(ol[2..], Merge(ol[0], ol[1]));
    assert ol[1..][1..] == ol[2..];
  }

  /** One round of the merge loop keeps the invariant: the merged tree replaces its two children. */
  lemma {:induction false} MergeStep(ol: seq<Node>, table: seq<nat>)
    requires Forest(ol, table, |table|)
    requires |ol| >= 2
    ensures Less(ol[0], ol[1])
    ensures Forest(Add(ol[2..], Merge(ol[0], ol[1])), table, |table|)
  {
    MergeGuardHolds(ol, table);
    assert ol[0] in ol && ol[1] in ol;
    MergeKeepsTrees(ol, table);
    MergeKeepsTotals(ol);
    AddKeepsOrder(ol[2..], Merge(ol[0], ol[1]));
  }

  /**
   * Lines 46-59: the merge loop. Each round pops the two least trees, so the
   * list shrinks by one per round and the loop ends; an empty list gives no
   * tree and a single tree is the root.
   */
  function MergeLoop(ol: seq<Node>, table: seq<nat>): (root: Option<Node>)
    requires Forest(ol, table, |table|)
    ensures root.None? <==> |ol| == 0
    ensures root.Some? ==> WellFormed(root.value) && LeavesMatch(root.value, table)
    ensures root.Some? ==> Symbols(root.value) == NonZeroBag(table, |table|)
    ensures root.Some? ==> root.value.freq == Sum(table)
    decreases |ol|
  {
    match PopFront(ol)
    case Failure(_) => None
    case Success((pop1, rest)) =>
      match PopFront(rest)
      case Failure(_) =>
        assert table[..|table|] == table;
        assert ol == [pop1] && pop1 in ol && ol[1..] == [];
        assert ForestSymbols(ol) == Symbols(pop1) && ForestFreq(ol) == pop1.freq;
        Some(pop1)
      case Success((pop2, rest2)) =>
        MergeStep(ol, table);
        MergeLoop(Add(rest2, Merge(pop1, pop2)), table)
  }

  /** One round of the loop: the two front trees are merged and the parent goes back in order. */
  lemma {:induction false} MergeLoopStep(ol: seq<Node>, table: seq<nat>)
    requires Forest(ol, table, |table|)
    requires |ol| >= 2
    ensures Less(ol[0], ol[1]) && Forest(Add(ol[2..], Merge(ol[0], ol[1])), table, |table|)
    ensures MergeLoop(ol, table) == MergeLoop(Add(ol[2..], Merge(ol[0], ol[1])), table)
  {
    MergeStep(ol, table);
  }

  /** The loop stops with the last remaining tree as the root. */
  lemma {:induction false} MergeLoopLast(ol: seq<Node>, table: seq<nat>)
    requires Forest(ol, table, |table|)
    requires |ol| == 1
    ensures MergeLoop(ol, table) == Some(ol[0])
  {
  }

  /** The builder runs the merge loop over the priority list of the whole table. */
  lemma {:induction false} CreateHuffTreeMerges(table: seq<nat>)
    ensures Forest(InsertLeaves(table, |table|), table, |table|)
      && CreateHuffTree(table) == MergeLoop(InsertLeaves(table, |table|), table)
  {
    InsertLeavesForest(table, |table|);
  }

  /** The initial list is empty exactly when every frequency is zero. */
  lemma {:induction false} SomeLeafIffNonZero(table: seq<nat>)
    ensures |InsertLeaves(table, |table|)| == 0 <==> forall i :: 0 <= i < |table| ==> table[i] == 0
  {
    var ol := InsertLeaves(table, |table|);
    InsertLeavesForest(table, |table|);
    NonZeroBagEmpty(table);
    if |ol| > 0 {
      SymbolCount(ol[0]);
      assert ForestSymbols(ol) == Symbols(ol[0]) + ForestSymbols(ol[1..]);
      assert |ForestSymbols(ol)| > 0;
    }
  }

  /**
   * `create_huff_tree`: the root of the Huffman tree of a frequency table.
   * There is no tree exactly when every frequency is zero. Otherwise the
   * leaves are exactly the symbols of non-zero frequency, each once and with
   * its frequency, the tree is well formed, and the root carries the sum of
   * the table.
   */
  function CreateHuffTree(table: seq<nat>): (root: Option<Node>)
    ensures root.None? <==> forall i :: 0 <= i < |table| ==> table[i] == 0
    ensures root.Some? ==> WellFormed(root.value) && LeavesMatch(root.value, table)
    ensures root.Some? ==> Symbols(root.value) == NonZeroBag(table, |table|)
    ensures root.Some? ==> Distinct(root.value)
    ensures root.Some? ==> root.value.freq == Sum(table)
  {
    var ol := InsertLeaves(table, |table|);
    InsertLeavesForest(table, |table|);
    SomeLeafIffNonZero(table);
    NonZeroBagCount(table, |table|);
    var root := MergeLoop(ol, table);
    if root.Some? then
      SingleOccurrenceIsDistinct(root.value);
      root
    else
      root
  }

  /**
   * A table with a single non-zero entry gives a leaf root for that symbol,
   * with no internal node.
   */
  lemma {:induction false} SingleSymbolGivesLeafRoot(table: seq<nat>, c: nat)
    requires c < |table| && table[c] != 0
    requires forall i :: 0 <= i < |table| && i != c ==> table[i] == 0
    ensures CreateHuffTree(table) == Some(Leaf(c, table[c]))
  {
    var root := CreateHuffTree(table);
    NonZeroBagCount(table, |table|);
    var bag := NonZeroBag(table, |table|);
    forall s
      ensures bag[s] == multiset{c}[s]
    {
      if s == c {
        assert bag[s] == 1;
      } else {
        assert bag[s] == 0;
      }
    }
    assert bag == multiset{c};
    assert root.Some?;
    assert Symbols(root.value) == multiset{c};
    SymbolCount(root.value);
  }
}
