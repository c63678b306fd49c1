/**
 * The ordered list the tree builder uses as its priority queue (`OrderedList`
 * from the `ordered_list` module, whose code is not part of this model). It is
 * modelled as a sequence kept in ascending node order, with an ordered insert
 * (`add`) and a removal of the front element (`pop(0)`).
 */
module OrderedList {
  import opened Results
  import opened HuffmanNode

  /** No element is below an element before it. */
  predicate Sorted(s: seq<Node>) {
    forall i, j :: 0 <= i < j < |s| ==> !Less(s[j], s[i])
  }

  /** The position `Add` gives `n`: after every element not above it, before the first one above it. */
  function InsertPos(s: seq<Node>, n: Node): (k: nat)
    ensures k <= |s|
    ensures forall i :: 0 <= i < k ==> !Less(n, s[i])
    ensures k < |s| ==> Less(n, s[k])
  {
    if |s| == 0 then 0
    else if Less(n, s[0]) then 0
    else 1 + InsertPos(s[1..], n)
  }

  /** `add`: inserts `n` keeping the list sorted. */
  function Add(s: seq<Node>, n: Node): (r: seq<Node>)
    ensures |r| == |s| + 1
  {
    if |s| == 0 then [n]
    else if Less(n, s[0]) then [n] + s
    else [s[0]] + Add(s[1..], n)
  }

  /** `add` puts `n` at its insertion position and keeps the elements before and after it in place. */
  lemma {:induction false} AddSplits(s: seq<Node>, n: Node)
    ensures Add(s, n) == s[..InsertPos(s, n)] + [n] + s[InsertPos(s, n)..]
    decreases |s|
  {
    if |s| > 0 && !Less(n, s[0]) {
      AddSplits(s[1..], n);
      assert s == [s[0]] + s[1..];
    }
  }

  /** Where each element of the list lands once `n` is inserted at its position. */
  lemma {:induction false} AddShifts(s: seq<Node>, n: Node)
    ensures forall i :: 0 <= i < InsertPos(s, n) ==> Add(s, n)[i] == s[i]
    ensures Add(s, n)[InsertPos(s, n)] == n
    ensures forall i :: InsertPos(s, n) < i <= |s| ==> Add(s, n)[i] == s[i - 1]
  {
    AddSplits(s, n);
  }

  /** `add` keeps the elements, adds `n` once, and keeps the list sorted. */
  lemma {:induction false} AddKeepsOrder(s: seq<Node>, n: Node)
    requires Sorted(s)
    ensures multiset(Add(s, n)) == multiset(s) + multiset{n}
    ensures Sorted(Add(s, n))
  {
    var k := InsertPos(s, n);
    AddSplits(s, n);
    assert s == s[..k] + s[k..];
    AddSorted(s, n);
  }

  /** Inserting at the computed position keeps a sorted list sorted. */
  lemma {:induction false} AddSorted(s: seq<Node>, n: Node)
    requires Sorted(s)
    ensures Sorted(Add(s, n))
  {
    var k := InsertPos(s, n);
    var r := Add(s, n);
    AddShifts(s, n);
    forall i, j | 0 <= i < j < |r|
      ensures !Less(r[j], r[i])
    {
      if j < k {
        assert r[i] == s[i] && r[j] == s[j];
      } else if j == k {
        assert r[i] == s[i];
      } else if i == k {
        assert r[j] == s[j - 1];
        assert !Less(s[j - 1], s[k]);
      } else if i < k {
        assert r[i] == s[i] && r[j] == s[j - 1];
      } else {
        assert r[i] == s[i - 1] && r[j] == s[j - 1];
      }
    }
  }

  /** Every element of `Add(s, n)` is `n` or an element of `s`. */
  lemma {:induction false} ElementsOfAdd(s: seq<Node>, n: Node)
    ensures n in Add(s, n)
    ensures forall x :: x in Add(s, n) ==> x == n || x in s
  {
    var k := InsertPos(s, n);
    AddSplits(s, n);
    assert s == s[..k] + s[k..];
  }

  /** `pop(0)`: removes and returns the front element, which is a least element of a sorted list. */
  function PopFront(s: seq<Node>): (r: Result<(Node, seq<Node>)>)
    ensures r.Failure? <==> |s| == 0
    ensures r.Failure? ==> r.error == EmptyCollection
    ensures r.Success? ==> s == [r.value.0] + r.value.1
    ensures r.Success? && Sorted(s) ==> Sorted(r.value.1)
    ensures r.Success? && Sorted(s) ==> forall x :: x in r.value.1 ==> !Less(x, r.value.0)
  {
    if |s| == 0 then Failure(EmptyCollection) else Success((s[0], s[1..]))
  }
}
