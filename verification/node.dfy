/**
 * Huffman tree nodes (`HuffmanNode` in huffman.py) and the total order the
 * priority list sorts them by.
 *
 * The source keeps one class with nullable children; here a leaf and an
 * internal node are separate variants. Both carry `sym` (the source's `char`), the symbol of a leaf
 * or the representative symbol (the least symbol below it) of an internal
 * node, and `freq`.
 */
module HuffmanNode {

  datatype Node =
    | Leaf(sym: int, freq: nat)
    | Internal(sym: int, freq: nat, left: Node, right: Node)

  /** `a < b` of the source: compare frequencies, break ties by representative symbol. */
  predicate Less(a: Node, b: Node) {
    if a.freq == b.freq then a.sym < b.sym else a.freq < b.freq
  }

  /** `a == b` of the source: same frequency and same representative symbol. */
  predicate Equal(a: Node, b: Node) {
    a.freq == b.freq && a.sym == b.sym
  }

  /** The node order is the lexicographic order on (freq, char), and it is a strict total order. */
  lemma {:induction false} NodeOrderIsLexicographic(a: Node, b: Node, c: Node)
    ensures Less(a, b) <==> a.freq < b.freq || (a.freq == b.freq && a.sym < b.sym)
    ensures Equal(a, b) <==> (a.freq, a.sym) == (b.freq, b.sym)
    ensures !Less(a, a)
    ensures Less(a, b) ==> !Less(b, a) && !Equal(a, b)
    ensures Less(a, b) && Less(b, c) ==> Less(a, c)
    ensures Less(a, b) || Less(b, a) || Equal(a, b)
  {
  }

  /** The symbols stored at the leaves of `t`, with their multiplicities. */
  function Symbols(t: Node): multiset<int> {
    match t
    case Leaf(c, _) => multiset{c}
    case Internal(_, _, l, r) => Symbols(l) + Symbols(r)
  }

  /** No symbol occurs at two leaves of `t`. */
  predicate Distinct(t: Node) {
    match t
    case Leaf(_, _) => true
    case Internal(_, _, l, r) => Distinct(l) && Distinct(r) && Symbols(l) !! Symbols(r)
  }

  /** Every leaf symbol of `t` is a valid index into a table of size `n`. */
  predicate SymbolsBelow(t: Node, n: nat) {
    match t
    case Leaf(c, _) => 0 <= c < n
    case Internal(_, _, l, r) => SymbolsBelow(l, n) && SymbolsBelow(r, n)
  }

  /**
   * The structural invariant of a tree built by the greedy merge: leaves carry
   * a positive frequency, and every internal node adds its children's
   * frequencies, takes the smaller representative symbol, and keeps its left
   * child strictly below its right child in the node order.
   */
  predicate WellFormed(t: Node) {
    match t
    case Leaf(_, f) => f > 0
    case Internal(c, f, l, r) =>
      && WellFormed(l) && WellFormed(r)
      && f == l.freq + r.freq
      && c == (if l.sym <= r.sym then l.sym else r.sym)
      && Less(l, r)
  }

  /** Every leaf of `t` carries the frequency the table `table` gives its symbol. */
  predicate LeavesMatch(t: Node, table: seq<nat>) {
    match t
    case Leaf(c, f) => 0 <= c < |table| && f == table[c]
    case Internal(_, _, l, r) => LeavesMatch(l, table) && LeavesMatch(r, table)
  }

  /** The representative symbol of a well-formed tree is its least leaf symbol. */
  lemma {:induction false} CharIsMinSymbol(t: Node)
    requires WellFormed(t)
    ensures t.sym in Symbols(t)
    ensures forall s :: s in Symbols(t) ==> t.sym <= s
  {
    match t
    case Leaf(_, _) =>
    case Internal(_, _, l, r) =>
      CharIsMinSymbol(l);
      CharIsMinSymbol(r);
  }

  /** A tree has at least one leaf, and an internal node at least two. */
  lemma {:induction false} SymbolCount(t: Node)
    ensures |Symbols(t)| >= 1
    ensures t.Internal? ==> |Symbols(t)| >= 2
  {
    match t
    case Leaf(_, _) =>
    case Internal(_, _, l, r) =>
      SymbolCount(l);
      SymbolCount(r);
  }

  /** A tree in which every symbol occurs at most once has pairwise distinct leaves. */
  lemma {:induction false} SingleOccurrenceIsDistinct(t: Node)
    requires forall s :: Symbols(t)[s] <= 1
    ensures Distinct(t)
  {
    match t
    case Leaf(_, _) =>
    case Internal(_, _, l, r) =>
      forall s
        ensures Symbols(l)[s] <= 1 && Symbols(r)[s] <= 1 && (Symbols(l)[s] == 0 || Symbols(r)[s] == 0)
      {
        assert Symbols(t)[s] == Symbols(l)[s] + Symbols(r)[s];
      }
      SingleOccurrenceIsDistinct(l);
      SingleOccurrenceIsDistinct(r);
  }

  /** A tree whose leaves match a table has its symbols inside that table. */
  lemma {:induction false} LeavesMatchBoundsSymbols(t: Node, table: seq<nat>)
    requires LeavesMatch(t, table)
    ensures SymbolsBelow(t, |table|)
    ensures forall s :: s in Symbols(t) ==> 0 <= s < |table|
  {
    match t
    case Leaf(_, _) =>
    case Internal(_, _, l, r) =>
      LeavesMatchBoundsSymbols(l, table);
      LeavesMatchBoundsSymbols(r, table);
  }
}
