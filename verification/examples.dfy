/**
 * The worked examples of huffman.py, stated as lemmas about the model: the
 * code table of the `__main__` frequencies and the header of a short message.
 */
module Examples {
  import opened Results
  import opened HuffmanNode
  import opened Frequency
  import opened TreeBuilder
  import opened CodeTable
  import opened Header
  import opened OrderedList

  /** The `__main__` table: a=16, b=7, c=51, d=19, e=8, every other byte absent. */
  function MainTable(): (t: seq<nat>)
    ensures |t| == Alphabet
  {
    seq(Alphabet, i =>
      if i == 97 then 16 else if i == 98 then 7 else if i == 99 then 51
      else if i == 100 then 19 else if i == 101 then 8 else 0)
  }

  /** The entries of the `__main__` table. */
  lemma {:induction false} MainTableEntries()
    ensures MainTable()[97] == 16 && MainTable()[98] == 7 && MainTable()[99] == 51
    ensures MainTable()[100] == 19 && MainTable()[101] == 8
    ensures forall i :: 0 <= i < 97 || 102 <= i < Alphabet ==> MainTable()[i] == 0
  {
  }

  /** Only the entries 97 to 101 reach the priority list. */
  lemma {:induction false} MainLeavesRange(t: seq<nat>)
    requires |t| == Alphabet
    requires forall i :: 0 <= i < 97 || 102 <= i < Alphabet ==> t[i] == 0
    ensures InsertLeaves(t, Alphabet) == InsertLeaves(t, 102)
    ensures InsertLeaves(t, 97) == []
  {
    InsertLeavesSkipsZeros(t, 102, Alphabet);
    InsertLeavesSkipsZeros(t, 0, 97);
  }

  /** The five leaves enter the priority list in node order. */
  lemma {:induction false} MainLeavesInserted(t: seq<nat>)
    requires |t| == Alphabet
    requires t[97] == 16 && t[98] == 7 && t[99] == 51 && t[100] == 19 && t[101] == 8
    requires InsertLeaves(t, 97) == []
    ensures InsertLeaves(t, 102) == [Leaf(98, 7), Leaf(101, 8), Leaf(97, 16), Leaf(100, 19), Leaf(99, 51)]
  {
    InsertLeavesLeafStep(t, 98);
    assert InsertLeaves(t, 98) == [Leaf(97, 16)];
    InsertLeavesLeafStep(t, 99);
    AddExample1();
    InsertLeavesLeafStep(t, 100);
    AddExample2();
    InsertLeavesLeafStep(t, 101);
    AddExample3();
    InsertLeavesLeafStep(t, 102);
    AddExample4();
  }

  /** The priority list of the `__main__` table holds its five leaves in node order. */
  lemma {:induction false} MainLeaves()
    ensures InsertLeaves(MainTable(), Alphabet)
      == [Leaf(98, 7), Leaf(101, 8), Leaf(97, 16), Leaf(100, 19), Leaf(99, 51)]
  {
    MainTableEntries();
    MainLeavesRange(MainTable());
    MainLeavesInserted(MainTable());
  }

  lemma {:induction false} AddExample1()
    ensures Add([Leaf(97, 16)], Leaf(98, 7)) == [Leaf(98, 7), Leaf(97, 16)]
  {
  }

  lemma {:induction false} AddExample2()
    ensures Add([Leaf(98, 7), Leaf(97, 16)], Leaf(99, 51)) == [Leaf(98, 7), Leaf(97, 16), Leaf(99, 51)]
  {
  }

  lemma {:induction false} AddExample3()
    ensures Add([Leaf(98, 7), Leaf(97, 16), Leaf(99, 51)], Leaf(100, 19))
      == [Leaf(98, 7), Leaf(97, 16), Leaf(100, 19), Leaf(99, 51)]
  {
  }

  lemma {:induction false} AddExample4()
    ensures Add([Leaf(98, 7), Leaf(97, 16), Leaf(100, 19), Leaf(99, 51)], Leaf(101, 8))
      == [Leaf(98, 7), Leaf(101, 8), Leaf(97, 16), Leaf(100, 19), Leaf(99, 51)]
  {
  }

  /** The tree of the `__main__` table, merged as the source's loop merges it. */
  function MainTree(): Node {
    var be := Internal(98, 15, Leaf(98, 7), Leaf(101, 8));
    var bea := Internal(97, 31, be, Leaf(97, 16));
    var dbea := Internal(97, 50, Leaf(100, 19), bea);
    Internal(97, 101, dbea, Leaf(99, 51))
  }

  /** The merges of the `__main__` table: b+e, then (b+e)+a, then d+(b+e+a), then the root with c. */
  lemma {:induction false} MainMerges(t: seq<nat>)
    requires |t| == Alphabet
    requires InsertLeaves(t, Alphabet) == [Leaf(98, 7), Leaf(101, 8), Leaf(97, 16), Leaf(100, 19), Leaf(99, 51)]
    ensures CreateHuffTree(t) == Some(MainTree())
  {
    var l0 := InsertLeaves(t, Alphabet);
    var be := Internal(98, 15, Leaf(98, 7), Leaf(101, 8));
    var bea := Internal(97, 31, be, Leaf(97, 16));
    var dbea := Internal(97, 50, Leaf(100, 19), bea);
    CreateHuffTreeMerges(t);
    InsertLeavesForest(t, Alphabet);
    MergeLoopStep(l0, t);
    var l1 := Add(l0[2..], Merge(l0[0], l0[1]));
    assert l1 == [be, Leaf(97, 16), Leaf(100, 19), Leaf(99, 51)] by { AddExample5(); }
    assert CreateHuffTree(t) == MergeLoop(l1, t);
    MergeLoopStep(l1, t);
    var l2 := Add(l1[2..], Merge(l1[0], l1[1]));
    assert l2 == [Leaf(100, 19), bea, Leaf(99, 51)] by { AddExample6(); }
    assert CreateHuffTree(t) == MergeLoop(l2, t);
    MergeLoopStep(l2, t);
    var l3 := Add(l2[2..], Merge(l2[0], l2[1]));
    assert l3 == [dbea, Leaf(99, 51)] by { AddExample7(); }
    assert CreateHuffTree(t) == MergeLoop(l3, t);
    MergeLoopStep(l3, t);
    var l4 := Add(l3[2..], Merge(l3[0], l3[1]));
    assert CreateHuffTree(t) == MergeLoop(l4, t);
    assert l4 == [MainTree()];
    MergeLoopLast(l4, t);
  }

  lemma {:induction false} AddExample5()
    ensures Add([Leaf(97, 16), Leaf(100, 19), Leaf(99, 51)], Internal(98, 15, Leaf(98, 7), Leaf(101, 8)))
      == [Internal(98, 15, Leaf(98, 7), Leaf(101, 8)), Leaf(97, 16), Leaf(100, 19), Leaf(99, 51)]
  {
  }

  lemma {:induction false} AddExample6()
    ensures Add([Leaf(100, 19), Leaf(99, 51)], Internal(97, 31, Internal(98, 15, Leaf(98, 7), Leaf(101, 8)), Leaf(97, 16)))
      == [Leaf(100, 19), Internal(97, 31, Internal(98, 15, Leaf(98, 7), Leaf(101, 8)), Leaf(97, 16)), Leaf(99, 51)]
  {
  }

  lemma {:induction false} AddExample7()
    ensures Add([Leaf(99, 51)], Internal(97, 50, Leaf(100, 19), Internal(97, 31, Internal(98, 15, Leaf(98, 7), Leaf(101, 8)), Leaf(97, 16))))
      == [Internal(97, 50, Leaf(100, 19), Internal(97, 31, Internal(98, 15, Leaf(98, 7), Leaf(101, 8)), Leaf(97, 16))), Leaf(99, 51)]
  {
  }

  /** The `__main__` table builds the tree the source's loop builds. */
  lemma {:induction false} MainTreeBuilt()
    ensures CreateHuffTree(MainTable()) == Some(MainTree())
  {
    MainLeaves();
    MainMerges(MainTable());
  }

  /** `create_code` on the `__main__` frequencies gives 'e' the code "0101". */
  lemma {:induction false} MainCodeOfE()
    ensures CodesFor(MainTable())[101] == [false, true, false, true]
  {
    MainTreeBuilt();
    MainPathOfE();
    CodeOfSymbol(MainTable(), 101);
  }

  /** In the `__main__` tree, 'e' sits left, right, left, right of the root. */
  lemma {:induction false} MainPathOfE()
    ensures 101 in Symbols(MainTree())
    ensures Path(MainTree(), 101) == [false, true, false, true]
  {
  }

  /** The message "aaabbbbcc" as byte values. */
  function ShortMessage(): (msg: seq<int>)
    ensures IsMessage(msg)
  {
    [97, 97, 97, 98, 98, 98, 98, 99, 99]
  }

  /** Counting "aaabbbbcc" gives a=3, b=4, c=2 and nothing else. */
  lemma {:induction false} ShortMessageCounts()
    ensures CountFreq(ShortMessage())[97] == 3
    ensures CountFreq(ShortMessage())[98] == 4
    ensures CountFreq(ShortMessage())[99] == 2
    ensures forall i :: 0 <= i < 97 || 100 <= i < Alphabet ==> CountFreq(ShortMessage())[i] == 0
  {
    var msg := ShortMessage();
    var m := multiset(msg);
    assert m == multiset{97, 97, 97, 98, 98, 98, 98, 99, 99};
    forall i | 0 <= i < 97 || 100 <= i < Alphabet
      ensures CountFreq(msg)[i] == 0
    {
      assert i !in m;
    }
  }

  /** A table with a=3, b=4, c=2 and nothing else accumulates "97 3 98 4 99 2 ". */
  lemma {:induction false} ShortAccumulated(t: seq<nat>)
    requires |t| == Alphabet
    requires t[97] == 3 && t[98] == 4 && t[99] == 2
    requires forall i :: 0 <= i < 97 || 100 <= i < Alphabet ==> t[i] == 0
    ensures Accumulated(t, Alphabet) == "97 3 98 4 99 2 "
  {
    AccumulatedSkipsZeros(t, 100, Alphabet);
    AccumulatedSkipsZeros(t, 0, 97);
    assert NatToString(97) == "97" && NatToString(98) == "98" && NatToString(99) == "99";
    assert NatToString(3) == "3" && NatToString(4) == "4" && NatToString(2) == "2";
    assert Accumulated(t, 98) == "97 3 ";
    assert Accumulated(t, 99) == "97 3 98 4 ";
  }

  /** The header of "aaabbbbcc" is "97 3 98 4 99 2". */
  lemma {:induction false} ShortMessageHeader()
    ensures CreateHeader(CountFreq(ShortMessage())) == "97 3 98 4 99 2"
  {
    ShortMessageCounts();
    ShortAccumulated(CountFreq(ShortMessage()));
  }
}
