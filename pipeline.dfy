/** The integer size accounting of web_interface_expanded.py: `compress_text` (Huffman
    stage) and `apply_rle_to_huffman` (run-length stage). Timing and the percentage
    ratios are left out. */
module Pipeline {
  import opened Outcomes
  import opened Nodes
  import opened Builder
  import opened CodeTable
  import opened BitCodec
  import opened RunLength

  function Pow2(k: nat): nat {
    if k == 0 then 1 else 2 * Pow2(k - 1)
  }

  /** The number of binary digits of `n` (0 for 0): the least `k` with `n < 2^k`,
      which is `math.ceil(math.log2(n + 1))`. */
  function BitLength(n: nat): (k: nat)
    ensures n < Pow2(k)
    ensures k == 0 || Pow2(k - 1) <= n
  {
    if n == 0 then 0 else 1 + BitLength(n / 2)
  }

  /** The bits charged for one token: `ceil(log2(count + 1)) + 1`. `math.log2` of a
      non-positive number raises ValueError. */
  function TokenCost(count: int): (r: Result<nat>)
    ensures r.Ok? <==> count >= 0
    ensures r.Err? ==> r.error == ValueError
    ensures r.Ok? ==> r.value >= 1 && count < Pow2(r.value - 1) && (r.value == 1 || Pow2(r.value - 2) <= count)
  {
    if count + 1 <= 0 then Err(ValueError) else Ok(BitLength(count) + 1)
  }

  /** The bits one pair is charged: its count is read from the text before the pair's
      first ':'. */
  function PairCost(pair: string): (r: Result<nat>)
    ensures r.Err? ==> r.error == ValueError
    ensures r.Ok? ==> r.value >= 1
    ensures r.Ok? <==> IntSyntax(Split(pair, ':')[0]) && ParseInt(Split(pair, ':')[0]).value >= 0
  {
    match ParseInt(Split(pair, ':')[0])
    case Err(e) => Err(e)
    case Ok(n) => TokenCost(n)
  }

  /** The charge of each pair, in order. */
  function PairCosts(pairs: seq<string>): (cs: seq<Result<nat>>)
    ensures |cs| == |pairs|
    ensures forall k | 0 <= k < |pairs| :: cs[k] == PairCost(pairs[k])
  {
    if pairs == [] then [] else PairCosts(pairs[..|pairs| - 1]) + [PairCost(pairs[|pairs| - 1])]
  }

  /** `sum(...)` over the charges; the first charge that cannot be made raises. */
  function Total(cs: seq<Result<nat>>): Result<nat> {
    if cs == [] then Ok(0)
    else match Total(cs[..|cs| - 1])
      case Err(e) => Err(e)
      case Ok(front) =>
        match cs[|cs| - 1]
        case Err(e) => Err(e)
        case Ok(c) => Ok(front + c)
  }

  /** The `compressed_size_rle` of the data `rle_compress` produced. */
  function RleSize(data: string): Result<nat> {
    Total(PairCosts(Split(data, ',')))
  }

  /** What one run costs: its count's bit length plus one. */
  function RunCost(r: Run): nat {
    BitLength(r.count) + 1
  }

  /** The RLE size of the runs. */
  function RunsCost(rs: seq<Run>): nat {
    if rs == [] then 0 else RunsCost(rs[..|rs| - 1]) + RunCost(rs[|rs| - 1])
  }

  /** The count read back from a token is the run's count. */
  lemma TokenCount(r: Run)
    ensures PairCost(Token(r)) == Ok(RunCost(r))
  {
    var digits := Decimal(r.count);
    assert Token(r) == digits + [':'] + [r.bit];
    assert ':' !in digits;
    SplitPiece(digits, ':', [r.bit]);
    ParseDecimal(r.count);
  }

  /** Charges that are each run's cost add up to the runs' cost. */
  lemma {:induction false} TotalOfRuns(cs: seq<Result<nat>>, rs: seq<Run>)
    requires |cs| == |rs|
    requires forall k | 0 <= k < |rs| :: cs[k] == Ok(RunCost(rs[k]))
    ensures Total(cs) == Ok(RunsCost(rs))
  {
    if rs != [] {
      var n := |rs| - 1;
      TotalOfRuns(cs[..n], rs[..n]);
      assert cs[n] == Ok(RunCost(rs[n]));
    }
  }

  /** Re-reading the tokens charges each run its count's bit length plus one. */
  lemma TokensCost(rs: seq<Run>)
    ensures Total(PairCosts(Tokens(rs))) == Ok(RunsCost(rs))
  {
    var cs := PairCosts(Tokens(rs));
    forall k | 0 <= k < |rs| ensures cs[k] == Ok(RunCost(rs[k])) {
      TokenCount(rs[k]);
    }
    TotalOfRuns(cs, rs);
  }

  /** The size of compressed data is the cost of the runs of the input. */
  lemma RleSizeOfCompressed(b: string)
    requires b != [] && ',' !in b && ':' !in b
    ensures RleSize(Compressed(b)) == Ok(RunsCost(Runs(b)))
  {
    var rs := Runs(b);
    RunsChars(b);
    TokensHaveNoComma(rs);
    SplitJoin(Tokens(rs), ',');
    TokensCost(rs);
  }

  /** A count never needs more bits than itself. */
  lemma {:induction false} BitLengthBound(n: nat)
    ensures BitLength(n) <= n
  {
    if n > 0 {
      BitLengthBound(n / 2);
    }
  }

  /** Runs of positive counts cost at most twice the characters they stand for. */
  lemma {:induction false} RunsCostBound(rs: seq<Run>)
    requires Maximal(rs)
    ensures RunsCost(rs) <= 2 * TotalCount(rs)
    ensures |rs| * 2 <= RunsCost(rs)
  {
    if rs != [] {
      var front := rs[..|rs| - 1];
      MaximalFront(rs);
      BitLengthBound(rs[|rs| - 1].count);
      RunsCostBound(front);
    }
  }

  /** The RLE size of a non-empty string lies between two bits per run and two bits per
      character. */
  lemma RleSizeBounds(b: string)
    requires b != []
    ensures 2 * |Runs(b)| <= RunsCost(Runs(b)) <= 2 * |b|
  {
    RunsMaximal(b);
    RunsExpand(b);
    RunsCostBound(Runs(b));
  }

  /** `apply_rle_to_huffman(encoded_text)`: the compressed data and its size in bits.
      An empty encoding makes `rle_compress` raise IndexError. For the bit strings the
      Huffman stage produces, the size is the cost of the runs. */
  method ApplyRleToHuffman(encoded: string) returns (r: Result<(string, nat)>)
    ensures encoded == [] ==> r == Err(IndexError)
    ensures encoded != [] ==> (r.Ok? <==> RleSize(Compressed(encoded)).Ok?)
    ensures r.Ok? ==> r.value == (Compressed(encoded), RleSize(Compressed(encoded)).value)
    ensures encoded != [] && ',' !in encoded && ':' !in encoded ==>
      r == Ok((Compressed(encoded), RunsCost(Runs(encoded))))
  {
    var data := RleCompress(encoded);
    if data.Err? {
      return Err(data.error);
    }
    if ',' !in encoded && ':' !in encoded {
      RleSizeOfCompressed(encoded);
    }
    var size := RleSize(data.value);
    if size.Err? {
      return Err(size.error);
    }
    r := Ok((data.value, size.value));
  }

  /** What `compress_text` returns, apart from the percentage ratio and the elapsed time. */
  datatype Compression = Compression(encoded: string, codes: Table, root: Tree, originalSize: nat, huffmanSize: nat)

  /** `compress_text(text)`: build the tree, generate the codes into the shared default
      dict, encode, and measure. An empty text raises IndexError while building. The
      encoding decodes back with the tree when the text has two distinct characters or
      more, and is empty when it has one. */
  method CompressText(text: string, defaults: CodeDict) returns (r: Result<Compression>)
    modifies defaults
    ensures text == [] <==> r.Err?
    ensures r.Err? ==> r.error == IndexError && defaults.items == old(defaults.items)
    ensures r.Ok? ==>
      && IsHuffmanTreeOf(r.value.root, text)
      && defaults.items == CodesInto(r.value.root, "", old(defaults.items))
      && r.value.codes == defaults.items
      && HuffmanEncode(text, r.value.codes) == Ok(r.value.encoded)
      && r.value.originalSize == 8 * |text|
      && r.value.huffmanSize == |r.value.encoded|
    ensures r.Ok? && |Distinct(text)| >= 2 ==> HuffmanDecode(r.value.encoded, r.value.root) == Ok(text)
    ensures r.Ok? && |Distinct(text)| == 1 ==> r.value.encoded == ""
  {
    var built := BuildHuffmanTree(text);
    if built.Err? {
      return Err(built.error);
    }
    var root := built.value;
    ghost var before := defaults.items;
    var codes := defaults.Generate(root, "");
    var encoded := HuffmanEncode(text, codes.value);
    forall i | 0 <= i < |text| ensures Get(codes.value, text[i]).Some? {
      GeneratedCodes(root, text, before, text[i]);
    }
    if |Distinct(text)| >= 2 {
      BuiltRoundTrip(root, text, before, text);
    } else {
      BuiltRoot(root, text);
      if |Distinct(text)| == 1 {
        SingleSymbolEncodesEmpty(root, text, before);
      }
    }
    r := Ok(Compression(encoded.value, codes.value, root, 8 * |text|, |encoded.value|));
  }
}
