/**
 * The encode and decode passes of `huffman_encode` and `huffman_decode` in
 * huffman.py, without their files: the message is a sequence of byte values,
 * the compressed stream is a header line and a sequence of bits.
 */
module Codec {
  import opened Results
  import opened HuffmanNode
  import opened Frequency
  import opened TreeBuilder
  import opened CodeTable
  import opened Header

  /** Lines 104-107: the codes of the message's symbols, concatenated in order. */
  function Encode(codes: seq<Code>, msg: seq<int>): seq<bool>
    requires |codes| == Alphabet && IsMessage(msg)
  {
    if |msg| == 0 then [] else codes[msg[0]] + Encode(codes, msg[1..])
  }

  /** A symbol found by walking the tree, and the position of the next unread bit. */
  datatype Found = Found(sym: int, next: nat)

  /** Symbols decoded so far, and the position of the next unread bit. */
  datatype Decoded = Decoded(symbols: seq<int>, next: nat)

  /**
   * The walk from `t` to a leaf for one symbol, reading bits from position
   * `pos`: a `1` goes right, a `0` goes left. Gives the leaf's symbol and the
   * position after the last bit read.
   */
  function Walk(t: Node, bits: seq<bool>, pos: nat): (r: Result<Found>)
    requires pos <= |bits|
    ensures r.Success? ==> pos <= r.value.next <= |bits|
    ensures r.Failure? ==> r.error == TruncatedStream
  {
    match t
    case Leaf(c, _) => Success(Found(c, pos))
    case Internal(_, _, left, right) =>
      if pos == |bits| then Failure(TruncatedStream)
      else Walk(if bits[pos] then right else left, bits, pos + 1)
  }

  /**
   * One symbol's walk from the current node, which may be absent: reading a
   * bit from an exhausted stream fails first, and descending from `None`
   * fails after the bit is read.
   */
  function WalkFrom(node: Option<Node>, bits: seq<bool>, pos: nat): (r: Result<Found>)
    requires pos <= |bits|
    ensures r.Success? ==> node.Some? && pos <= r.value.next <= |bits|
  {
    match node
    case None => if pos == |bits| then Failure(TruncatedStream) else Failure(NoTree)
    case Some(t) => Walk(t, bits, pos)
  }

  /** Prefixes the decoded symbols `xs` to a decoding result. */
  function Prepend(xs: seq<int>, r: Result<Decoded>): Result<Decoded> {
    match r
    case Success(Decoded(ys, q)) => Success(Decoded(xs + ys, q))
    case Failure(e) => Failure(e)
  }

  /**
   * The symbol-by-symbol reading of the decoder, as a reference for the
   * state machine of lines 129-143: `n` symbols from position `pos`, each by
   * a walk from the root; the first walk starts at `cur`.
   */
  function DecodeRest(root: Option<Node>, cur: Option<Node>, n: nat, bits: seq<bool>, pos: nat): (r: Result<Decoded>)
    requires 0 < n && pos <= |bits|
    ensures r.Success? ==> |r.value.symbols| == n && pos <= r.value.next <= |bits|
    decreases n, 0
  {
    match WalkFrom(cur, bits, pos)
    case Failure(e) => Failure(e)
    case Success(Found(c, p)) => Prepend([c], DecodeSymbols(root, n - 1, bits, p))
  }

  /** `n` symbols decoded from position `pos`, each by a walk from the root. */
  function DecodeSymbols(root: Option<Node>, n: nat, bits: seq<bool>, pos: nat): (r: Result<Decoded>)
    requires pos <= |bits|
    ensures r.Success? ==> |r.value.symbols| == n && pos <= r.value.next <= |bits|
    decreases n, 1
  {
    if n == 0 then Success(Decoded([], pos)) else DecodeRest(root, root, n, bits, pos)
  }

  lemma {:induction false} PrependEmpty(r: Result<Decoded>)
    ensures Prepend([], r) == r
  {
    match r
    case Success(Decoded(zs, q)) =>
      assert [] + zs == zs;
    case Failure(_) =>
  }

  lemma {:induction false} PrependAssoc(xs: seq<int>, ys: seq<int>, r: Result<Decoded>)
    ensures Prepend(xs, Prepend(ys, r)) == Prepend(xs + ys, r)
  {
    match r
    case Success(Decoded(zs, q)) =>
      assert xs + (ys + zs) == (xs + ys) + zs;
    case Failure(_) =>
  }

  /**
   * Lines 129-143: the decoder's state machine. At a leaf it emits the
   * symbol and restarts at the root; elsewhere it reads one bit and descends.
   * It stops once `total` symbols are out, and fails if the bits run out
   * first. It computes exactly the symbol-by-symbol reading.
   */
  method DecodeLoop(tree: Option<Node>, total: nat, bits: seq<bool>) returns (r: Result<Decoded>)
    ensures r == DecodeSymbols(tree, total, bits, 0)
  {
    ghost var goal := DecodeSymbols(tree, total, bits, 0);
    var treenode := tree;
    var decode: seq<int> := [];
    var pos := 0;
    if total > 0 {
      PrependEmpty(DecodeRest(tree, tree, total, bits, pos));
    }
    while |decode| < total
      invariant pos <= |bits|
      invariant |decode| <= total
      invariant |decode| < total ==> goal == Prepend(decode, DecodeRest(tree, treenode, total - |decode|, bits, pos))
      invariant |decode| == total ==> goal == Success(Decoded(decode, pos))
      decreases total - |decode|, |bits| - pos
    {
      if treenode.Some? && treenode.value.Leaf? {
        var c := treenode.value.sym;
        var later := DecodeSymbols(tree, total - |decode| - 1, bits, pos);
        assert DecodeRest(tree, treenode, total - |decode|, bits, pos) == Prepend([c], later);
        PrependAssoc(decode, [c], later);
        if total - |decode| - 1 == 0 {
          assert decode + [c] + [] == decode + [c];
        }
        decode := decode + [c];
        treenode := tree;
      } else {
        if pos == |bits| {
          return Failure(TruncatedStream);
        }
        var readbit := bits[pos];
        pos := pos + 1;
        if treenode.None? {
          return Failure(NoTree);
        }
        treenode := Some(if readbit then treenode.value.right else treenode.value.left);
      }
    }
    return Success(Decoded(decode, pos));
  }

  /** The bits from position `pos` on begin with `code`. */
  predicate SpellsAt(bits: seq<bool>, pos: nat, code: Code)
    decreases |code|
  {
    if |code| == 0 then pos <= |bits|
    else pos < |bits| && bits[pos] == code[0] && SpellsAt(bits, pos + 1, code[1..])
  }

  lemma {:induction false} SpellsAtConcat(bits: seq<bool>, pos: nat, a: Code, b: Code)
    requires SpellsAt(bits, pos, a + b)
    ensures SpellsAt(bits, pos, a) && SpellsAt(bits, pos + |a|, b)
    decreases |a|
  {
    if |a| == 0 {
      assert a + b == b;
    } else {
      assert (a + b)[1..] == a[1..] + b;
      SpellsAtConcat(bits, pos + 1, a[1..], b);
    }
  }

  lemma {:induction false} SpellsAtOwnPosition(before: seq<bool>, code: Code, after: seq<bool>)
    ensures SpellsAt(before + code + after, |before|, code)
    decreases |code|
  {
    if |code| > 0 {
      assert before + code + after == (before + [code[0]]) + code[1..] + after;
      SpellsAtOwnPosition(before + [code[0]], code[1..], after);
    }
  }

  /** A spelled code fits in the stream. */
  lemma {:induction false} SpellsAtBound(bits: seq<bool>, pos: nat, code: Code)
    requires SpellsAt(bits, pos, code)
    ensures pos + |code| <= |bits|
    decreases |code|
  {
    if |code| > 0 {
      SpellsAtBound(bits, pos + 1, code[1..]);
    }
  }

  /** A code spells itself at the start of any stream it begins. */
  lemma {:induction false} SpellsAtStart(code: Code, after: seq<bool>)
    ensures SpellsAt(code + after, 0, code)
  {
    SpellsAtOwnPosition([], code, after);
    assert [] + code + after == code + after;
  }

  /** Bits that spell a non-empty code start with its first bit and spell the rest after it. */
  lemma {:induction false} SpellsAtCons(bits: seq<bool>, pos: nat, b: bool, code: Code)
    requires SpellsAt(bits, pos, [b] + code)
    ensures pos < |bits| && bits[pos] == b && SpellsAt(bits, pos + 1, code)
  {
    assert ([b] + code)[1..] == code;
  }

  /** Bits that spell a leaf's path lead the walk to that leaf, consuming exactly the path. */
  lemma {:induction false} WalkFollowsPath(t: Node, c: int, bits: seq<bool>, pos: nat)
    requires c in Symbols(t)
    requires SpellsAt(bits, pos, Path(t, c))
    ensures pos <= |bits| && Walk(t, bits, pos) == Success(Found(c, pos + |Path(t, c)|))
    decreases t
  {
    if t.Internal? {
      var b := c !in Symbols(t.left);
      var child := if b then t.right else t.left;
      PathStep(t, c);
      SpellsAtCons(bits, pos, b, Path(child, c));
      WalkFollowsPath(child, c, bits, pos + 1);
      WalkStep(t, bits, pos);
    }
  }

  /** One step of the walk follows the bit at `pos` into a child. */
  lemma {:induction false} WalkStep(t: Node, bits: seq<bool>, pos: nat)
    requires t.Internal? && pos < |bits|
    ensures Walk(t, bits, pos) == Walk(if bits[pos] then t.right else t.left, bits, pos + 1)
  {
  }

  /** Once the walk from the root has found a symbol, decoding continues from where it stopped. */
  lemma {:induction false} DecodeStep(root: Node, n: nat, bits: seq<bool>, pos: nat, c: int, p: nat)
    requires 0 < n && pos <= p <= |bits|
    requires Walk(root, bits, pos) == Success(Found(c, p))
    ensures DecodeSymbols(Some(root), n, bits, pos) == Prepend([c], DecodeSymbols(Some(root), n - 1, bits, p))
  {
    assert DecodeSymbols(Some(root), n, bits, pos) == DecodeRest(Some(root), Some(root), n, bits, pos);
  }

  /** A symbol found by the walk, followed by the rest decoded after it. */
  lemma {:induction false} DecodeOneSymbol(root: Node, msg: seq<int>, bits: seq<bool>, pos: nat, p: nat, q: nat)
    requires 0 < |msg| && pos <= p <= |bits|
    requires Walk(root, bits, pos) == Success(Found(msg[0], p))
    requires DecodeSymbols(Some(root), |msg| - 1, bits, p) == Success(Decoded(msg[1..], q))
    ensures DecodeSymbols(Some(root), |msg|, bits, pos) == Success(Decoded(msg, q))
  {
    DecodeStep(root, |msg|, bits, pos, msg[0], p);
    assert [msg[0]] + msg[1..] == msg;
  }

  /** The code table gives `c`, a leaf symbol of `root`, its root-to-leaf path. */
  predicate CodedByPath(root: Node, codes: seq<Code>, c: int) {
    c in Symbols(root) && 0 <= c < |codes| && codes[c] == Path(root, c)
  }

  /** What holds of every symbol of a message holds of every symbol of its tail. */
  lemma {:induction false} CodedTail(root: Node, codes: seq<Code>, msg: seq<int>)
    requires |msg| > 0 && IsMessage(msg)
    requires forall i :: 0 <= i < |msg| ==> CodedByPath(root, codes, msg[i])
    ensures IsMessage(msg[1..])
    ensures forall i :: 0 <= i < |msg[1..]| ==> CodedByPath(root, codes, msg[1..][i])
  {
    assert forall i :: 0 <= i < |msg[1..]| ==> msg[1..][i] == msg[i + 1];
  }

  /**
   * Decoding the encoding of a message with the tree's own codes gives the
   * message back and consumes exactly the encoded bits.
   */
  lemma {:induction false} DecodeEncoded(root: Node, codes: seq<Code>, msg: seq<int>, bits: seq<bool>, pos: nat)
    requires |codes| == Alphabet && IsMessage(msg)
    requires forall i :: 0 <= i < |msg| ==> CodedByPath(root, codes, msg[i])
    requires SpellsAt(bits, pos, Encode(codes, msg))
    ensures DecodeSymbols(Some(root), |msg|, bits, pos) == Success(Decoded(msg, pos + |Encode(codes, msg)|))
    decreases |msg|
  {
    if |msg| > 0 {
      var code := codes[msg[0]];
      var tail := Encode(codes, msg[1..]);
      assert Encode(codes, msg) == code + tail;
      assert CodedByPath(root, codes, msg[0]);
      SpellsAtConcat(bits, pos, code, tail);
      CodedTail(root, codes, msg);
      DecodeEncoded(root, codes, msg[1..], bits, pos + |code|);
      DecodeEncodedStep(root, codes, msg, bits, pos);
    } else {
      assert DecodeSymbols(Some(root), 0, bits, pos) == Success(Decoded([], pos));
    }
  }

  /** The inductive step of `DecodeEncoded`: the first symbol's code, then the rest. */
  lemma {:induction false} DecodeEncodedStep(root: Node, codes: seq<Code>, msg: seq<int>, bits: seq<bool>, pos: nat)
    requires |codes| == Alphabet && IsMessage(msg) && |msg| > 0 && IsMessage(msg[1..])
    requires CodedByPath(root, codes, msg[0])
    requires SpellsAt(bits, pos, codes[msg[0]]) && SpellsAt(bits, pos + |codes[msg[0]]|, Encode(codes, msg[1..]))
    requires DecodeSymbols(Some(root), |msg[1..]|, bits, pos + |codes[msg[0]]|)
      == Success(Decoded(msg[1..], pos + |codes[msg[0]]| + |Encode(codes, msg[1..])|))
    ensures DecodeSymbols(Some(root), |msg|, bits, pos) == Success(Decoded(msg, pos + |Encode(codes, msg)|))
  {
    var c := msg[0];
    var p := pos + |codes[c]|;
    WalkFollowsPath(root, c, bits, pos);
    SpellsAtBound(bits, p, Encode(codes, msg[1..]));
    assert Encode(codes, msg) == codes[c] + Encode(codes, msg[1..]);
    DecodeOneSymbol(root, msg, bits, pos, p, pos + |Encode(codes, msg)|);
  }

  /**
   * A single-symbol tree has the empty code for its symbol: the decoder then
   * emits `n` copies of that symbol without reading a bit.
   */
  lemma {:induction false} LeafRootDecodes(c: int, f: nat, n: nat, bits: seq<bool>, pos: nat)
    requires pos <= |bits|
    ensures DecodeSymbols(Some(Leaf(c, f)), n, bits, pos).Success?
    ensures DecodeSymbols(Some(Leaf(c, f)), n, bits, pos).value.next == pos
    ensures forall i :: 0 <= i < n ==> DecodeSymbols(Some(Leaf(c, f)), n, bits, pos).value.symbols[i] == c
  {
    if n > 0 {
      LeafRootDecodes(c, f, n - 1, bits, pos);
      DecodeStep(Leaf(c, f), n, bits, pos, c, pos);
    }
  }

  /** The compressed form of a message: the header line without its newline, and the code bits. */
  datatype Compressed = Compressed(header: string, bits: seq<bool>)

  /**
   * `huffman_encode` without its files: the header line (without its
   * newline) and the bits of the message.
   */
  function Compress(msg: seq<int>): Compressed
    requires IsMessage(msg)
  {
    var table := CountFreq(msg);
    Compressed(CreateHeader(table), Encode(CodesFor(table), msg))
  }

  /**
   * `huffman_decode` without its files, by the symbol-by-symbol reading:
   * parse the header line, rebuild the tree, decode `sum(frequencies)`
   * symbols.
   */
  function Decompress(line: string, bits: seq<bool>): Result<seq<int>> {
    match ParseHeader(line)
    case Failure(e) => Failure(e)
    case Success(table) =>
      match DecodeSymbols(CreateHuffTree(table), Sum(table), bits, 0)
      case Failure(e) => Failure(e)
      case Success(Decoded(out, _)) => Success(out)
  }

  /** `huffman_decode` without its files, driving the state machine of lines 129-143. */
  method HuffmanDecode(line: string, bits: seq<bool>) returns (r: Result<seq<int>>)
    ensures r == Decompress(line, bits)
  {
    var parsed := ParseHeader(line);
    if parsed.Failure? {
      return Failure(parsed.error);
    }
    var frequencies := parsed.value;
    var tree := CreateHuffTree(frequencies);
    var total := Sum(frequencies);
    var decoded := DecodeLoop(tree, total, bits);
    if decoded.Failure? {
      return Failure(decoded.error);
    }
    return Success(decoded.value.symbols);
  }

  /** Every symbol of a message is a leaf of the tree built from its counts, with its path as its code. */
  lemma {:induction false} MessageSymbolsHaveCodes(msg: seq<int>)
    requires IsMessage(msg) && |msg| > 0
    ensures CreateHuffTree(CountFreq(msg)).Some?
    ensures forall i :: 0 <= i < |msg| ==>
      && msg[i] in Symbols(CreateHuffTree(CountFreq(msg)).value)
      && CodesFor(CountFreq(msg))[msg[i]] == Path(CreateHuffTree(CountFreq(msg)).value, msg[i])
  {
    var table := CountFreq(msg);
    var root := CreateHuffTree(table);
    assert msg[0] in multiset(msg);
    assert table[msg[0]] != 0;
    NonZeroBagCount(table, |table|);
    LeavesMatchBoundsSymbols(root.value, table);
    forall i | 0 <= i < |msg|
      ensures msg[i] in Symbols(root.value)
    {
      assert msg[i] in multiset(msg);
      assert table[msg[i]] != 0;
    }
  }

  /** The bits written for a message, followed by any padding, decode to the message. */
  lemma {:induction false} DecodeOwnBits(msg: seq<int>, padding: seq<bool>)
    requires IsMessage(msg)
    ensures DecodeSymbols(CreateHuffTree(CountFreq(msg)), |msg|, Compress(msg).bits + padding, 0)
      == Success(Decoded(msg, |Compress(msg).bits|))
  {
    var table := CountFreq(msg);
    var codes := CodesFor(table);
    var enc := Encode(codes, msg);
    assert Compress(msg).bits == enc;
    var bits := enc + padding;
    var root := CreateHuffTree(table);
    if |msg| > 0 {
      SpellsAtStart(enc, padding);
      assert forall i :: 0 <= i < |msg| ==> CodedByPath(root.value, codes, msg[i]) by {
        MessageSymbolsHaveCodes(msg);
      }
      DecodeEncoded(root.value, codes, msg, bits, 0);
    }
  }

  /** An empty message has an empty header line and no bits. */
  lemma {:induction false} EmptyMessageCompresses(msg: seq<int>)
    requires IsMessage(msg) && |msg| == 0
    ensures Compress(msg) == Compressed("", [])
  {
    var table := CountFreq(msg);
    SumZeroIffAllZero(table);
    CreateHeaderShape(table);
  }

  /**
   * Round trip: the header line written for a message, followed by its
   * newline, and the encoded bits, followed by any padding, decode to the
   * message; an empty message gives an empty header and no bits.
   */
  lemma {:induction false} RoundTrip(msg: seq<int>, padding: seq<bool>)
    requires IsMessage(msg)
    ensures |msg| == 0 ==> Compress(msg) == Compressed("", [])
    ensures Decompress(Compress(msg).header + "\n", Compress(msg).bits + padding) == Success(msg)
  {
    var table := CountFreq(msg);
    HeaderRoundTrip(table);
    DecodeOwnBits(msg, padding);
    if |msg| == 0 {
      EmptyMessageCompresses(msg);
    }
  }

  /** Lines 99-102: the compressed file's name, with `_compressed` before every `.`. */
  function CompressedName(name: string): (compressed: string)
    ensures '.' !in name ==> compressed == name
    ensures |compressed| == |name| + 11 * multiset(name)['.']
  {
    if |name| == 0 then ""
    else
      assert name == [name[0]] + name[1..];
      assert multiset(name) == multiset{name[0]} + multiset(name[1..]);
      assert multiset(name)['.'] == (if name[0] == '.' then 1 else 0) + multiset(name[1..])['.'];
      var rest := CompressedName(name[1..]);
      (if name[0] == '.' then "_compressed" else "") + [name[0]] + rest
  }

  /** The name derivation works character by character, so it distributes over concatenation. */
  lemma {:induction false} CompressedNameConcat(a: string, b: string)
    ensures CompressedName(a + b) == CompressedName(a) + CompressedName(b)
    decreases |a|
  {
    if |a| == 0 {
      assert a + b == b;
    } else {
      assert (a + b)[0] == a[0];
      assert (a + b)[1..] == a[1..] + b;
      CompressedNameConcat(a[1..], b);
    }
  }

  /** Line 91: a name `stem.ext` with one dot becomes `stem_compressed.ext`. */
  lemma {:induction false} CompressedNameOfFile(stem: string, ext: string)
    requires '.' !in stem && '.' !in ext
    ensures CompressedName(stem + "." + ext) == stem + "_compressed" + "." + ext
  {
    var dot: string := ".";
    var tag: string := "_compressed";
    assert dot[0] == '.' && dot[1..] == [];
    assert CompressedName(dot) == tag + dot;
    assert CompressedName(stem) == stem;
    assert CompressedName(ext) == ext;
    CompressedNameConcat(stem, dot);
    CompressedNameConcat(stem + dot, ext);
    Regroup(stem, tag, dot, ext);
  }

  lemma {:induction false} Regroup(a: string, b: string, c: string, d: string)
    ensures a + (b + c) + d == a + b + c + d
  {
  }
}
