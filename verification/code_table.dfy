/**
 * `create_code` and `create_code_helper` of huffman.py: the code of a symbol
 * is the path from the root to its leaf, a `0` for each step to a left child
 * and a `1` for each step to a right child. Bits are booleans here: `false`
 * is `0` and `true` is `1`.
 */
module CodeTable {
  import opened Results
  import opened HuffmanNode
  import opened Frequency
  import opened TreeBuilder

  type Code = seq<bool>

  /** The root-to-leaf path of symbol `c` in `t`. */
  function Path(t: Node, c: int): Code
    requires c in Symbols(t)
  {
    match t
    case Leaf(_, _) => []
    case Internal(_, _, l, r) =>
      if c in Symbols(l) then [false] + Path(l, c) else [true] + Path(r, c)
  }

  /** The path of a symbol below an internal node: one step into the child holding it, then that child's path. */
  lemma {:induction false} PathStep(t: Node, c: int)
    requires t.Internal? && c in Symbols(t)
    ensures c !in Symbols(t.left) ==> c in Symbols(t.right) && Path(t, c) == [true] + Path(t.right, c)
    ensures c in Symbols(t.left) ==> Path(t, c) == [false] + Path(t.left, c)
  {
  }

  /** `a` is a prefix of `b`. */
  predicate IsPrefix(a: Code, b: Code) {
    |a| <= |b| && a == b[..|a|]
  }

  /** `create_code_helper`: visits the leaves of `t` left to right, writing each one's code into `huff`. */
  function CodeHelper(t: Node, path: Code, huff: seq<Code>): (r: seq<Code>)
    requires |huff| == Alphabet && SymbolsBelow(t, Alphabet)
    ensures |r| == Alphabet
  {
    match t
    case Leaf(c, _) => huff[c := path]
    case Internal(_, _, left, right) =>
      CodeHelper(right, path + [true], CodeHelper(left, path + [false], huff))
  }

  /** The helper leaves the entry of a symbol outside `t` alone. */
  lemma {:induction false} CodeHelperKeepsOther(t: Node, path: Code, huff: seq<Code>, c: int)
    requires |huff| == Alphabet && SymbolsBelow(t, Alphabet)
    requires 0 <= c < Alphabet && c !in Symbols(t)
    ensures CodeHelper(t, path, huff)[c] == huff[c]
  {
    match t
    case Leaf(_, _) =>
    case Internal(_, _, left, right) =>
      CodeHelperKeepsOther(left, path + [false], huff, c);
      CodeHelperKeepsOther(right, path + [true], CodeHelper(left, path + [false], huff), c);
  }

  /**
   * Below a node reached by `path`, the helper records for a leaf symbol
   * `path` followed by the leaf's own path, when the leaves are distinct.
   */
  lemma {:induction false} CodeHelperRecordsPath(t: Node, path: Code, huff: seq<Code>, c: int)
    requires |huff| == Alphabet && SymbolsBelow(t, Alphabet)
    requires Distinct(t) && c in Symbols(t)
    ensures 0 <= c < Alphabet && CodeHelper(t, path, huff)[c] == path + Path(t, c)
  {
    match t
    case Leaf(_, _) =>
    case Internal(_, _, left, right) =>
      if c in Symbols(left) {
        CodeHelperRecordsPath(left, path + [false], huff, c);
        RecordedInLeft(t, path, huff, c);
      } else {
        CodeHelperRecordsPath(right, path + [true], CodeHelper(left, path + [false], huff), c);
        RecordedInRight(t, path, huff, c);
      }
  }

  /** A symbol of the left subtree keeps the code the left pass wrote, extended from `path`. */
  lemma {:induction false} RecordedInLeft(t: Node, path: Code, huff: seq<Code>, c: int)
    requires t.Internal? && |huff| == Alphabet && SymbolsBelow(t, Alphabet)
    requires Distinct(t) && c in Symbols(t.left) && 0 <= c < Alphabet
    requires CodeHelper(t.left, path + [false], huff)[c] == (path + [false]) + Path(t.left, c)
    ensures CodeHelper(t, path, huff)[c] == path + Path(t, c)
  {
    PathStep(t, c);
    CodeHelperKeepsOther(t.right, path + [true], CodeHelper(t.left, path + [false], huff), c);
    assert path + Path(t, c) == (path + [false]) + Path(t.left, c);
  }

  /** A symbol of the right subtree gets the code the right pass wrote, extended from `path`. */
  lemma {:induction false} RecordedInRight(t: Node, path: Code, huff: seq<Code>, c: int)
    requires t.Internal? && |huff| == Alphabet && SymbolsBelow(t, Alphabet)
    requires c in Symbols(t) && c !in Symbols(t.left) && 0 <= c < Alphabet
    requires CodeHelper(t.right, path + [true], CodeHelper(t.left, path + [false], huff))[c]
      == (path + [true]) + Path(t.right, c)
    ensures CodeHelper(t, path, huff)[c] == path + Path(t, c)
  {
    PathStep(t, c);
    assert path + Path(t, c) == (path + [true]) + Path(t.right, c);
  }

  /**
   * `create_code`: a table of 256 codes. Symbols absent from the tree, and
   * every symbol when there is no tree, get the empty code; each leaf symbol
   * of a tree with distinct leaves gets its root-to-leaf path, which is empty
   * for the lone symbol of a leaf root.
   */
  function CreateCode(root: Option<Node>): (codes: seq<Code>)
    requires root.Some? ==> SymbolsBelow(root.value, Alphabet)
    ensures |codes| == Alphabet
    ensures root.None? ==> forall c :: 0 <= c < Alphabet ==> codes[c] == []
    ensures root.Some? ==> forall c :: 0 <= c < Alphabet && c !in Symbols(root.value) ==> codes[c] == []
    ensures root.Some? && Distinct(root.value) ==>
      forall c :: 0 <= c < Alphabet && c in Symbols(root.value) ==> codes[c] == Path(root.value, c)
  {
    var huff := seq(Alphabet, _ => []);
    match root
    case None => huff
    case Some(t) =>
      assert forall c :: 0 <= c < Alphabet && c !in Symbols(t) ==> CodeHelper(t, [], huff)[c] == [] by {
        forall c | 0 <= c < Alphabet && c !in Symbols(t) {
          CodeHelperKeepsOther(t, [], huff, c);
        }
      }
      assert Distinct(t) ==> forall c :: 0 <= c < Alphabet && c in Symbols(t) ==> CodeHelper(t, [], huff)[c] == Path(t, c) by {
        if Distinct(t) {
          forall c | 0 <= c < Alphabet && c in Symbols(t) {
            CodeHelperRecordsPath(t, [], huff, c);
          }
        }
      }
      CodeHelper(t, [], huff)
  }

  /** The code table of a frequency table: `create_code(create_huff_tree(table))`. */
  function CodesFor(table: seq<nat>): (codes: seq<Code>)
    requires |table| == Alphabet
    ensures |codes| == Alphabet
  {
    var root := CreateHuffTree(table);
    if root.Some? then
      LeavesMatchBoundsSymbols(root.value, table);
      CreateCode(root)
    else
      CreateCode(root)
  }

  /** The code `create_code` assigns a symbol of the built tree is that symbol's path; every other symbol gets the empty code. */
  lemma {:induction false} CodeOfSymbol(table: seq<nat>, c: nat)
    requires |table| == Alphabet && c < Alphabet
    ensures CreateHuffTree(table).Some? && c in Symbols(CreateHuffTree(table).value) ==>
      CodesFor(table)[c] == Path(CreateHuffTree(table).value, c)
    ensures CreateHuffTree(table).None? || c !in Symbols(CreateHuffTree(table).value) ==>
      CodesFor(table)[c] == []
  {
    var root := CreateHuffTree(table);
    if root.Some? {
      LeavesMatchBoundsSymbols(root.value, table);
    }
  }

  /** The paths of two different leaves part ways at some position both reach. */
  lemma {:induction false} PathsDiverge(t: Node, c: int, d: int) returns (i: nat)
    requires Distinct(t)
    requires c in Symbols(t) && d in Symbols(t) && c != d
    ensures i < |Path(t, c)| && i < |Path(t, d)| && Path(t, c)[i] != Path(t, d)[i]
  {
    match t
    case Leaf(_, _) =>
      assert false;
    case Internal(_, _, l, r) =>
      if c in Symbols(l) && d in Symbols(l) {
        var j := PathsDiverge(l, c, d);
        i := j + 1;
      } else if c !in Symbols(l) && d !in Symbols(l) {
        var j := PathsDiverge(r, c, d);
        i := j + 1;
      } else {
        i := 0;
      }
  }

  /** In a tree with distinct leaves, no leaf's path is a prefix of another leaf's path. */
  lemma {:induction false} PathsArePrefixFree(t: Node, c: int, d: int)
    requires Distinct(t)
    requires c in Symbols(t) && d in Symbols(t) && c != d
    ensures !IsPrefix(Path(t, c), Path(t, d))
  {
    var i := PathsDiverge(t, c, d);
    if |Path(t, c)| <= |Path(t, d)| {
      assert Path(t, d)[..|Path(t, c)|][i] == Path(t, d)[i];
    }
  }

  /**
   * The codes of the non-zero symbols of a frequency table are pairwise
   * prefix-free, each code is the symbol's root-to-leaf path, and the zero
   * symbols get the empty code.
   */
  lemma {:induction false} CodesArePrefixFree(table: seq<nat>)
    requires |table| == Alphabet
    ensures forall c :: 0 <= c < Alphabet && table[c] == 0 ==> CodesFor(table)[c] == []
    ensures forall c, d :: 0 <= c < Alphabet && 0 <= d < Alphabet && c != d && table[c] != 0 && table[d] != 0 ==>
      !IsPrefix(CodesFor(table)[c], CodesFor(table)[d])
  {
    var root := CreateHuffTree(table);
    NonZeroBagCount(table, |table|);
    if root.Some? {
      forall c, d | 0 <= c < Alphabet && 0 <= d < Alphabet && c != d && table[c] != 0 && table[d] != 0
        ensures !IsPrefix(CodesFor(table)[c], CodesFor(table)[d])
      {
        PathsArePrefixFree(root.value, c, d);
      }
    }
  }
}
