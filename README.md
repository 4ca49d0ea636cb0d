# Huffman + run-length text compressor, modelled in Dafny

The system compresses a text in two stages.

1. A Huffman tree is built from the character frequencies, with a min-heap of nodes ordered by frequency.
2. Codes are read off the tree: a left edge appends `'0'` and a right edge appends `'1'`. The text is encoded as the concatenation of its characters' codes.
3. The bit string is then run-length encoded as comma-separated `count:bit` pairs. Its size is estimated as `ceil(log2(count+1)) + 1` bits per pair.

`rebuild_huffman_tree` rebuilds a tree from a code table; `huffman_decode` walks bits through a tree. Nothing in the program composes the two. A run-length decompressor expands the pairs again.

The model is split into these modules:

* `Outcomes`: `Option`, `Result` and the Python exceptions the code can raise (`IndexError`, `KeyError`, `AttributeError`, `ValueError`).
* `Nodes`: the Huffman node as a value tree. `Nil` stands for `None`. The module also has path lookup and the shape invariant of a built tree: every leaf holds a symbol, every merged node holds none and has two children, and a merged node's frequency is the sum of its children's.
* `Builder`: `build_huffman_tree`, written as an imperative loop over a heap held as a sequence. Its invariant says the heap's trees together hold every distinct character once, carry its count, and weigh `len(text)`.
* `CodeTable`: `generate_huffman_codes` and `rebuild_huffman_tree`.
  * A Python dict is an insertion-ordered association list. Assigning an existing key keeps its position.
  * The mutable default dict shared between calls is the class `CodeDict`, and `Generate` updates it.
  * The rebuilt tree is specified by the symbol it holds at each path.
* `BitCodec`: `huffman_encode`, and `huffman_decode` as a loop. The module also holds the round-trip theorems.
* `RunLength`: `rle_compress` as a loop, `rle_decompress`, and Python's `str.split`, `str.join`, `int()` and `str * int` as far as the code uses them.
* `Pipeline`: `compress_text` and `apply_rle_to_huffman`, including the size computations.

Where the unit tests and the code disagree, the model follows the code:

* `huffman_encode` of `"aaaaaa"` is `""`, not `"000000"`. A one-symbol tree gives its symbol the empty code; see `BitCodec.SingleSymbolEncodesEmpty`.
* Building a tree for `""` raises `IndexError` instead of producing `""`.
* `rle_compress("")` raises `IndexError`.
* `rle_decompress("")` raises `ValueError`.
* Non-binary characters are not rejected. Any character other than `'0'` walks right.

## Model

| member | source | states |
|---|---|---|
| Builder.Distinct | Logic.py:18 | the keys of the frequency counter: no character twice, and a character is a key exactly when it occurs in the text |
| Builder.LeafHeap | Logic.py:19 | the initial heap holds one leaf per distinct character, carrying that character's count |
| Builder.SumCountsIsLength | Logic.py:18 | the counts of the distinct characters add up to the length of the text |
| Builder.PopMin | Logic.py:23-24 | a pop returns a node of least frequency (no node in the heap is `<` it) and the heap with exactly that one occurrence removed |
| Builder.InitialHeap | Logic.py:18-20 | the initial heap meets the loop invariant: shaped trees, each character's count, each character in exactly one tree once, total weight `len(text)` |
| Builder.MergeStep | Logic.py:22-28 | popping two minima and pushing their merge keeps that invariant and turns two trees into one |
| Builder.BuildHuffmanTree | Logic.py:17-30 | raises `IndexError` exactly for the empty text; otherwise the root is a shaped tree of weight `len(text)` holding every character of the text exactly once at a leaf weighted by its count, and nothing else, with one merged node fewer than distinct characters |
| Builder.BuiltRoot | Logic.py:22-30 | the root is a merged node exactly when the text has two or more distinct characters; with one distinct character the root is the leaf `(c, len(text))` |
| Nodes.LessThanOrder | Logic.py:13-14 | `<` on nodes compares frequencies only: it is irreflexive, asymmetric and transitive, and two nodes neither of which is `<` the other have equal frequencies |
| Nodes.ShapedCounts | Logic.py:22-28 | a built tree has exactly one more symbol node than merged nodes |
| Nodes.ShapedWeight | Logic.py:25 | every node of a built tree has frequency at least 1 |
| CodeTable.Get | Logic.py:44 | the lookup `huffman_codes[char]` finds nothing exactly when no item of the dict has that key |
| CodeTable.Put | Logic.py:37 | dict assignment: the key now maps to the code, every other key keeps its value, and keys stay unique |
| CodeTable.PutAppends | Logic.py:37 | assigning a key the dict does not hold adds the item at the end, after the older items |
| CodeTable.CodesInto | Logic.py:33-40 | the pre-order traversal keeps the dict's keys unique |
| CodeTable.CodeDict.constructor | Logic.py:33 | the shared default dict starts empty |
| CodeTable.CodeDict.Generate | Logic.py:33-40 | the dict afterwards is the old dict updated by the pre-order traversal from the given prefix; `None` is returned for a missing node, otherwise the dict |
| CodeTable.CodesFrame | Logic.py:33-40 | a character absent from the tree keeps whatever code the shared dict already had |
| CodeTable.PathTo | Logic.py:38-39 | the path of a character is a string of `'0'`/`'1'` |
| CodeTable.PathToReaches | Logic.py:36-39 | following a character's path from the root reaches a node holding that character |
| CodeTable.CodesArePaths | Logic.py:36-39 | a character held once in the tree gets code prefix + its path, whatever the dict held before |
| CodeTable.InteriorPrefix | Logic.py:25-27 | in a built tree every proper prefix of a path leads to a merged node, which holds no symbol |
| CodeTable.PathsPrefixFree | Logic.py:36-39 | in a built tree no character's path is a prefix of another's |
| CodeTable.GeneratedCodes | Logic.py:33-40 | starting from the empty prefix, a character of the text gets exactly its path; any other character keeps its old entry |
| CodeTable.GeneratedPrefixFree | Logic.py:33-40 | with a fresh dict, a character has a code exactly when it occurs in the text; codes are bit strings, non-empty once there are two symbols, and prefix-free |
| CodeTable.GeneratedTable | Logic.py:33-40 | a fresh dict for a text with two or more distinct characters has unique keys, only characters of the text with their paths, and non-empty prefix-free bit codes |
| CodeTable.Norm | web_interface_expanded.py:74-82 | the direction string a code follows has the code's length and contains only `'0'`/`'1'` |
| CodeTable.Insert | web_interface_expanded.py:73-83 | inserting a code yields a node and leaves the root's frequency unchanged |
| CodeTable.InsertSymAt | web_interface_expanded.py:73-83 | after inserting `code` for `c`, the node at the path of `code` holds `c`, and every other path holds what it held before |
| CodeTable.RebuiltSymAt | web_interface_expanded.py:70-84 | in the rebuilt tree, the symbol at a path is the character of the last dict item whose code walks that path, and none if no item does |
| CodeTable.RebuildHuffmanTree | web_interface_expanded.py:70-84 | the loop over the dict items builds exactly the rebuilt tree, so each path holds the last item's character that walks it |
| CodeTable.RebuiltReaches | web_interface_expanded.py:70-84 | an item whose code no later item shares ends up as the symbol at its code |
| BitCodec.HuffmanEncode | Logic.py:43-44 | encoding succeeds exactly when every character of the text has a code, and otherwise raises `KeyError` |
| BitCodec.EncodedLength | Logic.py:43-44 | the encoded length is the sum of the code lengths of the text's characters |
| BitCodec.EncodeConcat | Logic.py:43-44 | encoding distributes over concatenation of texts |
| BitCodec.DecodeWalk | web_interface_expanded.py:88-96 | the walk only appends to what it has decoded, at most one character per bit, and its only failure is `AttributeError` |
| BitCodec.HuffmanDecode | web_interface_expanded.py:86-97 | decoding gives at most one character per bit and fails only with `AttributeError` |
| BitCodec.Decode | web_interface_expanded.py:86-97 | the decoding loop computes the decoding function, including its `AttributeError` when it walks off the tree |
| BitCodec.NoTree | web_interface_expanded.py:88-91 | decoding non-empty bits with no tree raises `AttributeError` |
| BitCodec.DecodeTotal | web_interface_expanded.py:88-96 | with a merged root of a built tree, decoding never fails, whatever the bits |
| BitCodec.DecodeDirections | web_interface_expanded.py:90-93 | decoding depends only on which characters are `'0'`: any other character walks right |
| BitCodec.WalkOne | web_interface_expanded.py:89-96 | walking a character's code emits that character and restarts at the root |
| BitCodec.WalkPartial | web_interface_expanded.py:94-97 | bits that stop inside the tree emit nothing more |
| BitCodec.DecodeEncode | web_interface_expanded.py:86-97 | if the tree decodes every code used by the text, decoding the encoding returns the text |
| BitCodec.DecodeEncodeTrailing | web_interface_expanded.py:86-97 | the same, with a trailing proper prefix of a code appended: it is dropped silently |
| BitCodec.BuiltDecodes | web_interface_expanded.py:86-97 | in a built tree with two or more symbols, each character's path decodes to that character |
| BitCodec.BuiltRoundTrip | web_interface_expanded.py:86-97 | decoding with the built tree inverts encoding with the generated codes, for any text over the original text's characters and whatever the shared dict held before |
| BitCodec.RebuiltDecodes | web_interface_expanded.py:70-97 | a tree rebuilt from the generated codes decodes each code to its character |
| BitCodec.RebuiltRoundTrip | web_interface_expanded.py:70-97 | decoding with the tree rebuilt from a fresh code dict inverts encoding |
| BitCodec.StaleCodesBreakRebuild | Logic.py:33-40 | the trees built for "ab" and "ccdde" are (b, a) and (c, (e, d)); after `compress_text("ab")`, `compress_text("ccdde")` leaves `a: "1"` in the shared dict, so `"d"` encodes to `"11"` and the tree rebuilt from the dict decodes that to `"aa"` |
| BitCodec.SingleSymbolEncodesEmpty | Logic.py:36-37 | for a text with one distinct character, its code is `""`, the whole text encodes to `""`, and decoding `""` gives `""` rather than the text |
| RunLength.Runs | web_interface_expanded.py:50-60 | the runs of a string are empty exactly for the empty string, and the last run carries the last character |
| RunLength.RunsMaximal | web_interface_expanded.py:53-58 | runs have positive counts and neighbouring runs have different characters |
| RunLength.RunsExpand | web_interface_expanded.py:50-60 | expanding the runs gives the string back, and their counts sum to its length |
| RunLength.RunsUnique | web_interface_expanded.py:50-60 | maximal runs are the only run list that expands to that string |
| RunLength.Repeat | web_interface_expanded.py:67 | `bit * n` has length `n * len(bit)` for positive `n` and is empty for `n <= 0` |
| RunLength.RepeatCopies | web_interface_expanded.py:67 | `bit * n` for a one-character `bit` is `n` copies of that character |
| RunLength.Decimal | web_interface_expanded.py:57 | a count prints as a non-empty string of ASCII digits |
| RunLength.ParseInt | web_interface_expanded.py:67 | `int()` succeeds exactly on an optional sign followed by one or more digits, raising `ValueError` otherwise; a leading `-` gives a value at most 0, and otherwise the value is at least 0 |
| RunLength.ParseDecimal | web_interface_expanded.py:57-67 | parsing a printed count gives the count back |
| RunLength.Split | web_interface_expanded.py:64 | splitting gives at least one piece, and no piece contains the separator |
| RunLength.Join | web_interface_expanded.py:60 | the join starts with the first piece, and joining n separator-free pieces puts exactly n-1 separators in the result |
| RunLength.SplitJoin | web_interface_expanded.py:60-64 | splitting a join of separator-free pieces gives the pieces back |
| RunLength.Tokens | web_interface_expanded.py:57-59 | one `count:bit` token per run, in order |
| RunLength.RleCompress | web_interface_expanded.py:50-60 | raises `IndexError` for `""`; otherwise returns the comma-join of the `count:bit` tokens of the string's runs |
| RunLength.DecodePair | web_interface_expanded.py:66-67 | a pair expands exactly when it splits into two parts at `:` and the first part is an integer; otherwise `ValueError` |
| RunLength.DecodePairs | web_interface_expanded.py:65-68 | decompression of a list of pairs succeeds exactly when every pair does, and otherwise raises `ValueError` |
| RunLength.RleDecompress | web_interface_expanded.py:62-68 | the decompression loop computes the decompression function |
| RunLength.EmptyDataRaises | web_interface_expanded.py:64-66 | decompressing `""` raises `ValueError` |
| RunLength.DecodeToken | web_interface_expanded.py:66-67 | a token printed for a run decompresses to that run |
| RunLength.RleRoundTrip | web_interface_expanded.py:50-68 | for a non-empty string without `,` or `:`, decompression inverts compression |
| Pipeline.BitLength | web_interface_expanded.py:119 | `ceil(log2(n+1))` is the least `k` with `n < 2^k` |
| Pipeline.TokenCost | web_interface_expanded.py:119 | a count is charged `ceil(log2(count+1)) + 1` bits, so `k - 1` is the least bit length with `count < 2^(k-1)`; a negative count makes `log2` raise `ValueError` |
| Pipeline.PairCost | web_interface_expanded.py:119 | a pair is charged exactly when its text before the first `:` is an integer that is not negative; otherwise `ValueError` (from `int()` for a bad integer, from `log2` for a negative one); a charge is at least 1 bit |
| Pipeline.TokenCount | web_interface_expanded.py:119 | the size charged for a printed run is one more than the bit length of its count |
| Pipeline.PairCosts | web_interface_expanded.py:118-119 | one charge per pair, in order, each being that pair's charge |
| Pipeline.TokensCost | web_interface_expanded.py:118-119 | re-reading the printed runs charges each run one more than its count's bit length, and the charges add up to the runs' cost |
| Pipeline.RleSizeOfCompressed | web_interface_expanded.py:115-119 | the size of a compressed string without `,` or `:` is the cost of its runs |
| Pipeline.RunsCostBound | web_interface_expanded.py:119 | maximal runs cost at least 2 bits each and at most twice the bits they expand to |
| Pipeline.RleSizeBounds | web_interface_expanded.py:118-119 | the estimated size of the run-length encoded string lies between twice the number of runs and twice its length |
| Pipeline.ApplyRleToHuffman | web_interface_expanded.py:115-121 | `IndexError` for `""`; otherwise the compressed data and its size, which fails only where `int()` or `log2` would; for Huffman output (no `,` or `:`), the size is the runs' cost |
| Pipeline.CompressText | web_interface_expanded.py:99-113 | `IndexError` exactly for `""` and the shared dict untouched; otherwise a Huffman tree of the text, the shared dict updated by the traversal and returned as the codes, the text's encoding, sizes `8*len(text)` and `len(encoded)`, a decodable encoding when there are two or more distinct characters, and `""` when there is one |

## Left out

- Streamlit GUI, session state and file download (web_interface_expanded.py:147-204), and the tree visualisation with matplotlib/networkx (web_interface_expanded.py:123-145): user interface and plotting only.
- The wall-clock timing and the floating-point compression ratios (web_interface_expanded.py:100, 110-111, 188): clock and float arithmetic.
- `web_interface.py` is not part of this model: it holds only a copy of the node class (web_interface.py:11-19) and the imports.
- `desktop_interface.py` is not part of this model: it copies the functions of Logic.py, but its node class defines `_init_` and `_lt_` (desktop_interface.py:14, desktop_interface.py:20) instead of `__init__` and `__lt__`, so its `build_huffman_tree` raises TypeError for any non-empty text (and IndexError for the empty text, as in Logic.py); its `generate_huffman_codes` and `huffman_encode` are the same as Logic.py's.
- The driver at Logic.py:48-53: it calls functions that are not defined anywhere.
- The duplicate copies of the node class, `build_huffman_tree`, `generate_huffman_codes` and `huffman_encode` in web_interface_expanded.py:11-47 are the same code as Logic.py:6-44. They are modelled once.
- Builder.PopMin: picks some node of least frequency; `heapq`'s choice among equal frequencies, and so the exact shape and codes, is not modelled. Optimality of the Huffman code is not stated.
- Builder.BuildHuffmanTree and CodeTable.RebuildHuffmanTree: nodes are values, so the in-place updates of `left`, `right` and `char` are modelled by building new trees (path copying), and node identity and aliasing are not captured.
- CodeTable.CodeDict.Generate: returns a copy of the dict's items rather than an alias of the shared dict object.
- RunLength.ParseInt: Python's `int()` also accepts surrounding whitespace, underscores between digits and non-ASCII digits; only an optional sign and ASCII digits are modelled.
- Pipeline.BitLength: `math.log2` is floating point; the model uses the exact integer value of `ceil(log2(n+1))`, which can differ from the float result for very large counts.
- BitCodec.RebuiltRoundTrip: covers only codes generated into a fresh dict, as in the first `compress_text` of a process. Later calls add to the shared default dict, whose stale entries can break the round trip; see `BitCodec.StaleCodesBreakRebuild` and the finding below.
- RunLength.RleRoundTrip: compression of strings containing `,` or `:` is not inverted by decompression, so the round trip is stated only for strings without them.

## Findings

| source | as written | input that shows it | evidently intended | confidence | as-written member | corrected member |
|---|---|---|---|---|---|---|
| web_interface_expanded.py:37 | `huffman_codes={}` (the same default as Logic.py:33) is created once, so every call without a dict adds to the same dict, and codes of characters from earlier texts stay in it | `compress_text("ab")`, then `compress_text("ccdde")`: the trees are (b, a) and (c, (e, d)), so the dict holds `b: "0", a: "1", c: "0", e: "10", d: "11"`; `"d"` encodes to `"11"`, and `huffman_decode("11", rebuild_huffman_tree(codes))` gives `"aa"` | each call starts from an empty dict, so the tree rebuilt from the codes decodes every encoding back to its text | not executed; medium, since the code never calls `rebuild_huffman_tree` on these codes itself | BitCodec.StaleCodesBreakRebuild | BitCodec.RebuiltRoundTrip |
