# Huffman coding, modelled in Dafny

This project models the core of `huffman.py`, a Huffman coder for text files:

- counting the frequency of each of the 256 byte values (`cnt_freq`);
- the node order the priority list sorts by (`HuffmanNode.__lt__` / `__eq__`);
- the greedy tree builder (`create_huff_tree`);
- the code table of root-to-leaf paths (`create_code`, `create_code_helper`);
- the textual header and its parser (`create_header`, `parse_header`);
- the encoding pass and the bit-by-bit decoding state machine (`huffman_encode`, `huffman_decode`), without their files;
- the `_compressed` file name derivation.

Everything is a pure function over immutable values:

- a message is a `seq<int>` of byte values;
- a frequency table is a 256-entry `seq<nat>`;
- a tree is the `Node` datatype (`Leaf` or `Internal`, each with its representative symbol `sym` and its frequency);
- the priority list is a sorted `seq<Node>`;
- a code is a `seq<bool>` (`false` is the character `0`, a step to the left; `true` is `1`, a step to the right);
- the compressed stream is a header line plus a `seq<bool>`.

Each Python exception on a modelled path becomes one `Error` value of a `Result`.

Modules and files:

- `results.dfy` (`Results`): `Option`, `Result` and the error kinds.
- `node.dfy` (`HuffmanNode`): the node datatype, its order, and the tree invariants: well-formedness, leaf symbols, distinct leaves.
- `ordered_list.dfy` (`OrderedList`): ordered insertion and pop-front on a sorted sequence.
- `frequency.dfy` (`Frequency`): the frequency count and table sums.
- `tree_builder.dfy` (`TreeBuilder`): the leaf insertion loop and the merge loop of `create_huff_tree`.
- `code_table.dfy` (`CodeTable`): code assignment by tree walk, and prefix-freeness.
- `header.dfy` (`Header`): decimal numerals, Python's `str.split()` on whitespace, header writing and header parsing.
- `codec.dfy` (`Codec`): the encoder, the decoder loop, and the end-to-end round trip.
- `examples.dfy` (`Examples`): the `__main__` table and the docstring example of `create_header`, computed through the model.

Main results:

- The decoder applied to the header line and bits written for any message gives back exactly that message (`Codec.RoundTrip`). This holds for the empty message, for a one-symbol message, and with any trailing padding bits.
- Parsing a written header gives back the table (`Header.HeaderRoundTrip`).
- The tree built from any table:
  - is well-formed;
  - has exactly the non-zero symbols as its leaves, each once, carrying its frequency;
  - has a root frequency equal to the table's sum (`TreeBuilder.CreateHuffTree`).
- Every comparison `pop1 < pop2` in the merge loop holds (`TreeBuilder.MergeGuardHolds`).
- The codes of distinct non-zero symbols are prefix-free (`CodeTable.CodesArePrefixFree`).

## Model

| member | source | states |
|---|---|---|
| HuffmanNode.NodeOrderIsLexicographic | huffman.py:12-20 | `<` on nodes is the lexicographic order on (frequency, symbol) and `==` is equality of that pair; it is a strict total order: irreflexive, asymmetric, transitive, and any two nodes are related one way or are equal |
| HuffmanNode.CharIsMinSymbol | huffman.py:55 | in a well-formed tree the representative symbol of every node is one of its leaf symbols and is the least of them |
| OrderedList.InsertPos | huffman.py:45 | the insertion point of `ol.add` lies after every element the new node is not below, and before the first element it is below |
| OrderedList.AddKeepsOrder | huffman.py:58 | `ol.add` inserts into a sorted list: the result holds the old elements plus the new node, and is still sorted |
| OrderedList.PopFront | huffman.py:48-52 | `ol.pop(0)` fails with EmptyCollection exactly on an empty list; otherwise it splits off the first element, and on a sorted list that element is a minimum and the remaining list stays sorted |
| Frequency.CountFreq | huffman.py:29-35 | the table has 256 entries, entry `c` is the number of occurrences of `c` in the message, and the entries sum to the message length |
| Frequency.SumZeroIffAllZero | huffman.py:131 | the total a decoder reads from a table is zero if and only if every frequency is zero |
| TreeBuilder.InsertLeavesForest | huffman.py:42-45 | after the first `n` table entries, the list is sorted, holds well-formed trees whose leaves carry the table's frequencies, holds every non-zero symbol below `n` exactly once and no other, and its frequencies sum to the sum of the first `n` entries |
| TreeBuilder.InsertLeavesSkipsZeros | huffman.py:43-44 | a run of zero entries adds nothing to the list |
| TreeBuilder.MergeGuardHolds | huffman.py:54 | when at least two trees remain, the first is strictly below the second, so the comparison at line 54 is always true and the branch that re-adds a stale `parent` is never taken |
| TreeBuilder.Merge | huffman.py:55-57 | the parent of two well-formed trees, the smaller on the left, is well-formed and holds the leaves of both |
| TreeBuilder.MergeStep | huffman.py:47-58 | the first two trees are in order, and replacing them by their parent (inserted in order) keeps the list invariant: sorted, well-formed trees whose leaves match the table, holding each non-zero symbol once and the table's whole frequency |
| TreeBuilder.MergeLoop | huffman.py:46-59 | the merge loop returns None exactly for an empty list; otherwise a well-formed tree whose leaves are the table's non-zero symbols, each with its frequency, and whose root frequency is the table's sum |
| TreeBuilder.SomeLeafIffNonZero | huffman.py:43-45 | the leaf list is empty if and only if every frequency is zero |
| TreeBuilder.CreateHuffTree | huffman.py:39-59 | None if and only if every frequency is zero; otherwise a well-formed tree whose leaves are exactly the non-zero symbols, each once with its frequency, and whose root frequency is the sum of the table |
| TreeBuilder.SingleSymbolGivesLeafRoot | huffman.py:47-53 | a table with exactly one non-zero entry gives that symbol's leaf as the root, with no internal node |
| CodeTable.CodeHelperRecordsPath | huffman.py:68-74 | after the walk from a node reached by `path`, each leaf symbol below it holds `path` followed by its root-to-leaf path (`0` left, `1` right) |
| CodeTable.CodeHelperKeepsOther | huffman.py:68-74 | the walk leaves the entries of symbols outside the subtree unchanged |
| CodeTable.CreateCode | huffman.py:61-66 | 256 codes; every code is empty when there is no tree, and for a symbol not in the tree; each leaf symbol of a distinct-leaf tree gets its root-to-leaf path, which is empty for a leaf root |
| CodeTable.CodeOfSymbol | huffman.py:96-97 | the code table built from a frequency table gives each of its tree's symbols its path and every other symbol the empty code |
| CodeTable.PathsArePrefixFree | huffman.py:68-74 | in a tree with distinct leaves, the path of one symbol is never a prefix of another's |
| CodeTable.CodesArePrefixFree | huffman.py:96-97 | zero-frequency symbols get the empty code, and no code of a non-zero symbol is a prefix of another's |
| Header.NatToStringRoundTrip | huffman.py:83 | `int(str(n)) == n` for every natural number |
| Header.SplitJoin | huffman.py:156 | splitting on whitespace the single-space join of non-empty whitespace-free words gives back the words |
| Header.AccumulatedSkipsZeros | huffman.py:81-83 | zero frequencies add nothing to the header |
| Header.CreateHeaderShape | huffman.py:77-85 | the header is the single-space join of the symbol and frequency numerals of the non-zero entries in ascending symbol order, with no trailing space; it is empty if and only if every frequency is zero |
| Header.ParseInts | huffman.py:157-158 | conversion of the words succeeds exactly when each is a decimal numeral, and keeps their number; otherwise MalformedNumber |
| Header.Fill | huffman.py:159-161 | filling succeeds if and only if the numbers come in pairs and every symbol is below 256; it keeps 256 entries |
| Header.FillAppend | huffman.py:160-161 | one more (symbol, frequency) pair overwrites that symbol's entry |
| Header.ParseHeader | huffman.py:152-155 | any result has 256 entries; a line of at most one character (only the newline) parses as the all-zero table |
| Header.ParseTokens | huffman.py:157-158 | the words written for a table convert back to its (symbol, frequency) entries |
| Header.FillEntries | huffman.py:159-161 | filling a zero table with the entries of the first `n` symbols reproduces the table on those symbols and leaves zeros after |
| Header.HeaderRoundTrip | huffman.py:152-162 | `parse_header(create_header(t) + "\n") == t` for every 256-entry table, including the all-zero table |
| Codec.Walk | huffman.py:139-143 | a walk for one symbol reads forward only, within the stream, and fails only with TruncatedStream |
| Codec.DecodeSymbols | huffman.py:132-137 | a successful decode of `n` symbols yields exactly `n` symbols and stops inside the stream |
| Codec.DecodeLoop | huffman.py:129-143 | the decoder's state machine (emit at a leaf and restart at the root, otherwise read a bit and descend) computes the symbol-by-symbol reading: the same symbols, bit position and failures |
| Codec.WalkFollowsPath | huffman.py:139-143 | when the stream spells a symbol's path at a position, the walk from the root reaches that symbol's leaf right after the path |
| Codec.LeafRootDecodes | huffman.py:133-137 | with a leaf root, the decoder emits its symbol `n` times without reading any bit |
| Codec.DecodeEncoded | huffman.py:104-107 | bits that start with a message's encoding under codes equal to tree paths decode to the message, and stop right after the encoding |
| Codec.MessageSymbolsHaveCodes | huffman.py:95-97 | every symbol of a non-empty message is a leaf of the tree built from its counts, and its code is its path |
| Codec.DecodeOwnBits | huffman.py:95-107 | the bits written for a message, followed by any padding, decode to the message and stop exactly after those bits |
| Codec.EmptyMessageCompresses | huffman.py:84 | an empty message gives an empty header and no bits |
| Codec.HuffmanDecode | huffman.py:127-143 | decoding a header line and bit stream through the state machine gives the same result as parsing the header and decoding symbol by symbol |
| Codec.RoundTrip | huffman.py:121-143 | decoding the header line written for a message, with its newline, together with its bits and any padding gives back exactly the message |
| Codec.CompressedName | huffman.py:99-102 | a name without dots is unchanged, and every dot adds the eleven characters of `_compressed` |
| Codec.CompressedNameConcat | huffman.py:99-102 | the name derivation works one character at a time: it distributes over concatenation |
| Codec.CompressedNameOfFile | huffman.py:91 | the name `stem.ext`, with one dot, becomes `stem_compressed.ext` |
| Examples.MainTreeBuilt | huffman.py:164-170 | for the table a=16, b=7, c=51, d=19, e=8 the builder produces one specific tree, merging (b, e), then (be, a), then (d, bea), then (dbea, c) |
| Examples.MainCodeOfE | huffman.py:171 | in that table the code of `e` is `0101` |
| Examples.ShortMessageHeader | huffman.py:79 | the header for "aaabbbbcc" is `97 3 98 4 99 2` |

## Left out

- File input and output are not modelled: `open`, `read` and `write`, the `with` blocks, closing files, and the output files. The message is given as a sequence of byte values, and the compressed stream as a header string and a bit sequence.
- `FileNotFoundError` and the `try`/`except IOError` around the file reads are not modelled, because they only guard file access.
- `collections.Counter` is not modelled as such. `CountFreq` counts directly; the result is the same table.
- The encoder's second `cnt_freq` at line 111 is not modelled separately. It re-reads the same file, so the header uses the same table as the tree.
- The encoder reading the input line by line (lines 104-106) is not modelled. The concatenation of the lines is the whole message.
- `ord(c) > 255` for a non-byte character is not modelled. It makes `cnt_freq` fail with an index error at line 34. The model requires every message symbol to be below 256 (`IsMessage`) instead.
- `HuffmanBitWriter` and `HuffmanBitReader` are not part of this model: packing bits into bytes, `write_str`, `read_str`, `read_bit`.
  - The bit stream is a `seq<bool>`.
  - Reading past its end is the failure `TruncatedStream`. The real reader's end-of-stream behaviour is not visible.
  - Padding bits after the code are allowed: the round trip is proved for any padding.
- `ordered_list.py` is not part of this model.
  - `OrderedList` is a sorted sequence with ordered insertion after equal elements, plus pop-front.
  - Where equal elements go does not matter here, because the builder's list never holds two equal nodes (`InsertLeavesForest`, `MergeStep`).
- The `else` of line 54 (re-adding the previous `parent`) is not modelled as code. `TreeBuilder.MergeGuardHolds` proves the comparison always succeeds on the lists the builder creates.
- `HuffmanNode` instances are not mutable objects. Children are set at construction, and leaves and internal nodes are separate variants. `type(other) == HuffmanNode` in `__eq__` always holds for the nodes compared here.
- The decoder emits symbol values (`int`) rather than `chr` of them, and it does not write the decoded text.
- Header.ParseInts: accepts only ASCII decimal digits. Python's `int()` also accepts a sign, `_` separators and non-ASCII digits. Because of this, negative symbols are not modelled, and neither is Python's wrap-around for negative list indices. These headers are never produced by `create_header`.
- Codec.Encode: has no contract of its own. Its meaning is stated through `Codec.DecodeEncoded` and `Codec.RoundTrip`.
- Codec.WalkFrom: descending from no tree is reported as `NoTree` after a bit is read, mirroring `None.right` raising an `AttributeError`. A header can only produce no tree when its total is zero, and then the loop does not run.

The single-symbol case:

- The tree is a single leaf, so its symbol's code is the empty string (`CreateCode`).
- The encoder writes no bits, and the decoder emits the symbol `total` times without reading any (`LeafRootDecodes`).
- The round trip holds in this case too. The model follows the code here: it adopts the empty code, and needs no special one-bit convention.
