/**
 * The header codec of huffman.py: `create_header` writes the non-zero
 * entries of a frequency table as the text line "sym freq sym freq ...", and
 * `parse_header` reads such a line (with its final newline) back into a
 * 256-entry table.
 */
module Header {
  import opened Results
  import opened Frequency

  /** The decimal digit character of `d`. */
  function DigitChar(d: nat): char
    requires d < 10
  {
    (('0' as int) + d) as char
  }

  predicate IsDigit(ch: char) {
    '0' <= ch <= '9'
  }

  /** A non-empty run of decimal digits, the tokens `int()` is asked to read here. */
  predicate IsNumeral(s: string) {
    |s| > 0 && forall i :: 0 <= i < |s| ==> IsDigit(s[i])
  }

  /** Python's `str(n)` for a natural number. */
  function NatToString(n: nat): (s: string)
    ensures IsNumeral(s)
  {
    if n < 10 then [DigitChar(n)] else NatToString(n / 10) + [DigitChar(n % 10)]
  }

  /** The value of a decimal digit character. */
  function DigitValue(ch: char): nat
    requires IsDigit(ch)
  {
    (ch as int) - ('0' as int)
  }

  /** Python's `int(s)` for a string of decimal digits. */
  function StringToNat(s: string): nat
    requires forall i :: 0 <= i < |s| ==> IsDigit(s[i])
  {
    if |s| == 0 then 0 else 10 * StringToNat(s[..|s| - 1]) + DigitValue(s[|s| - 1])
  }

  /** Reading back the decimal text of `n` gives `n`. */
  lemma {:induction false} NatToStringRoundTrip(n: nat)
    ensures StringToNat(NatToString(n)) == n
  {
    if n >= 10 {
      var s := NatToString(n);
      var prefix := NatToString(n / 10);
      assert s[..|s| - 1] == prefix;
      NatToStringRoundTrip(n / 10);
    }
  }

  /** The characters Python's `str.split()` treats as separators. */
  predicate IsSpace(ch: char) {
    || ch == ' ' || ch == '\t' || ch == '\n' || ch == '\r'
    || ch == '\U{000B}' || ch == '\U{000C}'
    || ('\U{001C}' <= ch <= '\U{001F}')
    || ch == '\U{0085}' || ch == '\U{00A0}' || ch == '\U{1680}'
    || ('\U{2000}' <= ch <= '\U{200A}')
    || ch == '\U{2028}' || ch == '\U{2029}' || ch == '\U{202F}' || ch == '\U{205F}' || ch == '\U{3000}'
  }

  /** A word `str.split()` can return: non-empty and free of separators. */
  predicate IsWord(s: string) {
    |s| > 0 && forall i :: 0 <= i < |s| ==> !IsSpace(s[i])
  }

  /** The length of the word at the front of `s`. */
  function WordLen(s: string): (k: nat)
    ensures k <= |s|
    ensures forall i :: 0 <= i < k ==> !IsSpace(s[i])
    ensures k < |s| ==> IsSpace(s[k])
  {
    if |s| == 0 || IsSpace(s[0]) then 0 else 1 + WordLen(s[1..])
  }

  /** Python's `str.split()` with no separator: the maximal runs of non-separators, in order. */
  function Split(s: string): (words: seq<string>)
    ensures forall i :: 0 <= i < |words| ==> IsWord(words[i])
    decreases |s|
  {
    if |s| == 0 then []
    else if IsSpace(s[0]) then Split(s[1..])
    else
      var k := WordLen(s);
      [s[..k]] + Split(s[k..])
  }

  /** The words joined by single spaces. */
  function Join(words: seq<string>): string {
    if |words| == 0 then ""
    else if |words| == 1 then words[0]
    else words[0] + " " + Join(words[1..])
  }

  /** Each word followed by one space, the shape `create_header` builds before trimming. */
  function Spaced(words: seq<string>): string {
    if |words| == 0 then "" else words[0] + " " + Spaced(words[1..])
  }

  /** Splitting words joined by single spaces gives the words back. */
  lemma {:induction false} SplitJoin(words: seq<string>)
    requires forall i :: 0 <= i < |words| ==> IsWord(words[i])
    ensures Split(Join(words)) == words
  {
    if |words| == 1 {
      var w := words[0];
      WordLenOfWord(w, "");
      assert w + "" == w;
      assert w[|w|..] == "";
    } else if |words| > 1 {
      var w := words[0];
      var s := Join(words);
      var rest := Join(words[1..]);
      assert s == w + (" " + rest);
      assert WordLen(s) == |w| by {
        WordLenOfWord(w, " " + rest);
      }
      assert s[..|w|] == w;
      assert s[|w|..] == " " + rest;
      assert (" " + rest)[1..] == rest;
      SplitJoin(words[1..]);
    }
  }

  lemma {:induction false} WordLenOfWord(w: string, rest: string)
    requires IsWord(w)
    requires |rest| == 0 || IsSpace(rest[0])
    ensures WordLen(w + rest) == |w|
  {
    if |w| > 1 {
      assert (w + rest)[1..] == w[1..] + rest;
      WordLenOfWord(w[1..], rest);
    } else {
      assert (w + rest)[1..] == rest;
    }
  }

  lemma {:induction false} SpacedIsJoinedWithTrailingSpace(words: seq<string>)
    requires |words| > 0
    ensures Spaced(words) == Join(words) + " "
  {
    if |words| > 1 {
      SpacedIsJoinedWithTrailingSpace(words[1..]);
    } else {
      assert words[1..] == [];
    }
  }

  lemma {:induction false} SpacedAppend(a: seq<string>, b: seq<string>)
    ensures Spaced(a + b) == Spaced(a) + Spaced(b)
  {
    if |a| == 0 {
      assert a + b == b;
    } else {
      assert (a + b)[1..] == a[1..] + b;
      SpacedAppend(a[1..], b);
    }
  }

  /** The (symbol, frequency) pairs of the non-zero entries below `n`, flattened, in ascending symbol order. */
  function Entries(table: seq<nat>, n: nat): (e: seq<nat>)
    requires n <= |table|
    ensures |e| % 2 == 0
  {
    if n == 0 then []
    else Entries(table, n - 1) + (if table[n - 1] != 0 then [n - 1, table[n - 1]] else [])
  }

  /** The header's words: the decimal text of each entry. */
  function Tokens(table: seq<nat>, n: nat): (words: seq<string>)
    requires n <= |table|
    ensures |words| == |Entries(table, n)|
  {
    var e := Entries(table, n);
    seq(|e|, i requires 0 <= i < |e| => NatToString(e[i]))
  }

  /** The text `create_header` accumulates before trimming: "i f " for each non-zero entry `i` below `n`. */
  function Accumulated(table: seq<nat>, n: nat): string
    requires n <= |table|
  {
    if n == 0 then ""
    else
      Accumulated(table, n - 1)
      + (if table[n - 1] != 0 then NatToString(n - 1) + " " + NatToString(table[n - 1]) + " " else "")
  }

  /** Zero entries of the table add nothing to the accumulated header. */
  lemma {:induction false} AccumulatedSkipsZeros(table: seq<nat>, m: nat, n: nat)
    requires m <= n <= |table|
    requires forall i :: m <= i < n ==> table[i] == 0
    ensures Accumulated(table, n) == Accumulated(table, m)
    decreases n
  {
    if m < n {
      AccumulatedSkipsZeros(table, m, n - 1);
    }
  }

  /** `create_header`: the accumulated text without its final character. */
  function CreateHeader(table: seq<nat>): string {
    var s := Accumulated(table, |table|);
    if |s| == 0 then "" else s[..|s| - 1]
  }

  lemma {:induction false} TokensStep(table: seq<nat>, n: nat)
    requires 0 < n <= |table|
    ensures table[n - 1] != 0 ==>
      Tokens(table, n) == Tokens(table, n - 1) + [NatToString(n - 1), NatToString(table[n - 1])]
    ensures table[n - 1] == 0 ==> Tokens(table, n) == Tokens(table, n - 1)
  {
    var e := Entries(table, n - 1);
    if table[n - 1] != 0 {
      assert Entries(table, n) == e + [n - 1, table[n - 1]];
    } else {
      assert Entries(table, n) == e;
    }
  }

  lemma {:induction false} AccumulatedIsSpacedTokens(table: seq<nat>, n: nat)
    requires n <= |table|
    ensures Accumulated(table, n) == Spaced(Tokens(table, n))
  {
    if n > 0 {
      AccumulatedIsSpacedTokens(table, n - 1);
      var prev := Tokens(table, n - 1);
      TokensStep(table, n);
      if table[n - 1] != 0 {
        var extra := [NatToString(n - 1), NatToString(table[n - 1])];
        SpacedAppend(prev, extra);
        assert extra[1..] == [NatToString(table[n - 1])] && extra[1..][1..] == [];
        assert Spaced(extra[1..]) == NatToString(table[n - 1]) + " ";
        assert Spaced(extra) == NatToString(n - 1) + " " + NatToString(table[n - 1]) + " ";
      } else {
        assert Tokens(table, n) == prev;
      }
    }
  }

  lemma {:induction false} EntriesEmptyIffAllZero(table: seq<nat>, n: nat)
    requires n <= |table|
    ensures |Entries(table, n)| == 0 <==> forall i :: 0 <= i < n ==> table[i] == 0
  {
    if n > 0 {
      EntriesEmptyIffAllZero(table, n - 1);
    }
  }

  /**
   * `create_header` lists the non-zero (symbol, frequency) pairs in ascending
   * symbol order as decimal words separated by single spaces, with no
   * trailing space; an all-zero table gives the empty line.
   */
  lemma {:induction false} CreateHeaderShape(table: seq<nat>)
    ensures CreateHeader(table) == Join(Tokens(table, |table|))
    ensures CreateHeader(table) == "" <==> forall i :: 0 <= i < |table| ==> table[i] == 0
  {
    var words := Tokens(table, |table|);
    AccumulatedIsSpacedTokens(table, |table|);
    EntriesEmptyIffAllZero(table, |table|);
    if |words| > 0 {
      SpacedIsJoinedWithTrailingSpace(words);
      var joined := Join(words);
      assert (joined + " ")[..|joined + " "| - 1] == joined;
      assert words[0] == NatToString(Entries(table, |table|)[0]);
      JoinNonEmpty(words);
    }
  }

  lemma {:induction false} JoinNonEmpty(words: seq<string>)
    requires |words| > 0 && IsWord(words[0])
    ensures |Join(words)| > 0
  {
  }

  /** Python's `[int(w) for w in words]`, which fails on a word that is not a numeral. */
  function ParseInts(words: seq<string>): (r: Result<seq<nat>>)
    ensures r.Success? ==> |r.value| == |words|
    ensures r.Success? <==> forall i :: 0 <= i < |words| ==> IsNumeral(words[i])
    ensures r.Failure? ==> r.error == MalformedNumber
  {
    if forall i :: 0 <= i < |words| ==> IsNumeral(words[i]) then
      Success(seq(|words|, i requires 0 <= i < |words| => StringToNat(words[i])))
    else
      Failure(MalformedNumber)
  }

  /**
   * Lines 159-161: writes each (symbol, frequency) pair into the table in
   * order. A symbol past the table, or a symbol with no frequency after it,
   * stops with an index error.
   */
  function Fill(table: seq<nat>, nums: seq<nat>): (r: Result<seq<nat>>)
    requires |table| == Alphabet
    ensures r.Success? ==> |r.value| == Alphabet
    ensures r.Success? <==> |nums| % 2 == 0 && forall k :: 0 <= k < |nums| / 2 ==> nums[2 * k] < Alphabet
    decreases |nums|
  {
    if |nums| == 0 then Success(table)
    else if |nums| == 1 then Failure(OddTokenCount)
    else if nums[0] >= Alphabet then
      assert nums[2 * 0] == nums[0];
      Failure(SymbolOutOfRange)
    else
      var rest := nums[2..];
      var r := Fill(table[nums[0] := nums[1]], rest);
      assert |rest| % 2 == |nums| % 2 && |rest| / 2 == |nums| / 2 - 1;
      assert forall k :: 1 <= k < |nums| / 2 ==> nums[2 * k] == rest[2 * (k - 1)];
      assert forall k :: 0 <= k < |rest| / 2 ==> rest[2 * k] == nums[2 * (k + 1)];
      assert nums[2 * 0] == nums[0];
      r
  }

  /**
   * `parse_header`: drops the final character (the newline), reads an empty
   * line as the all-zero table, and otherwise fills a zero table from the
   * alternating symbol and frequency words.
   */
  function ParseHeader(line: string): (r: Result<seq<nat>>)
    ensures r.Success? ==> |r.value| == Alphabet
    ensures |line| <= 1 ==> r == Success(Zeros())
  {
    var body := if |line| == 0 then "" else line[..|line| - 1];
    if body == "" then Success(Zeros())
    else
      match ParseInts(Split(body))
      case Failure(e) => Failure(e)
      case Success(nums) => Fill(Zeros(), nums)
  }

  lemma {:induction false} FillAppend(table: seq<nat>, nums: seq<nat>, sym: nat, freq: nat)
    requires |table| == Alphabet && |nums| % 2 == 0
    requires Fill(table, nums).Success?
    requires sym < Alphabet
    ensures Fill(table, nums + [sym, freq]) == Success(Fill(table, nums).value[sym := freq])
    decreases |nums|
  {
    if |nums| == 0 {
      assert nums + [sym, freq] == [sym, freq];
      assert [sym, freq][2..] == [];
    } else {
      assert (nums + [sym, freq])[2..] == nums[2..] + [sym, freq];
      FillAppend(table[nums[0] := nums[1]], nums[2..], sym, freq);
    }
  }

  /** Filling a zero table from the entries below `n` restores the table below `n`. */
  lemma {:induction false} FillEntries(table: seq<nat>, n: nat)
    requires |table| == Alphabet && n <= Alphabet
    ensures Fill(Zeros(), Entries(table, n)) == Success(table[..n] + Zeros()[n..])
  {
    if n == 0 {
      assert table[..0] + Zeros()[0..] == Zeros();
    } else {
      FillEntries(table, n - 1);
      var prev := table[..n - 1] + Zeros()[n - 1..];
      if table[n - 1] != 0 {
        FillAppend(Zeros(), Entries(table, n - 1), n - 1, table[n - 1]);
        assert prev[n - 1 := table[n - 1]] == table[..n] + Zeros()[n..];
      } else {
        assert Entries(table, n) == Entries(table, n - 1);
        forall i | 0 <= i < Alphabet
          ensures prev[i] == (table[..n] + Zeros()[n..])[i]
        {
        }
        assert prev == table[..n] + Zeros()[n..];
      }
    }
  }

  /** Parsing the header words gives back the entries. */
  lemma {:induction false} ParseTokens(table: seq<nat>, n: nat)
    requires n <= |table|
    ensures ParseInts(Tokens(table, n)) == Success(Entries(table, n))
  {
    var e := Entries(table, n);
    var words := Tokens(table, n);
    forall i | 0 <= i < |words|
      ensures StringToNat(words[i]) == e[i]
    {
      NatToStringRoundTrip(e[i]);
    }
    assert ParseInts(words).value == e;
  }

  /** A full table with every entry zero is the table `[0]*256`. */
  lemma {:induction false} AllZeroIsZeros(table: seq<nat>)
    requires |table| == Alphabet
    requires forall i :: 0 <= i < |table| ==> table[i] == 0
    ensures table == Zeros()
  {
  }

  /** Filling all 256 entries of `[0]*256` from a table gives back that table. */
  lemma {:induction false} WholeTableFilled(table: seq<nat>)
    requires |table| == Alphabet
    ensures table[..|table|] + Zeros()[|table|..] == table
  {
  }

  /**
   * Header round trip: the line `create_header` writes, followed by its
   * newline, parses back to the same 256-entry table.
   */
  lemma {:induction false} HeaderRoundTrip(table: seq<nat>)
    requires |table| == Alphabet
    ensures ParseHeader(CreateHeader(table) + "\n") == Success(table)
  {
    var header := CreateHeader(table);
    var line := header + "\n";
    assert line[..|line| - 1] == header;
    CreateHeaderShape(table);
    if header == "" {
      AllZeroIsZeros(table);
    } else {
      var words := Tokens(table, |table|);
      SplitJoin(words);
      ParseTokens(table, |table|);
      FillEntries(table, |table|);
      WholeTableFilled(table);
    }
  }
}
