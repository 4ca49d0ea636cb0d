/** The run-length transform of web_interface_expanded.py: `rle_compress` turns a bit
    string into comma-separated `count:bit` tokens, `rle_decompress` expands them back. */
module RunLength {
  import opened Outcomes

  /** `count` copies of the character `bit`. */
  datatype Run = Run(count: nat, bit: char)

  /** The runs after one more character: it lengthens the last run or starts a new one. */
  function Extend(rs: seq<Run>, x: char): (rs': seq<Run>)
    ensures rs' != [] && rs'[|rs'| - 1].bit == x
  {
    if rs != [] && rs[|rs| - 1].bit == x then rs[..|rs| - 1] + [Run(rs[|rs| - 1].count + 1, x)]
    else rs + [Run(1, x)]
  }

  /** The maximal runs of `s`, in order. */
  function Runs(s: string): (rs: seq<Run>)
    ensures s == [] <==> rs == []
    ensures s != [] ==> rs[|rs| - 1].bit == s[|s| - 1]
    decreases |s|
  {
    if s == [] then [] else Extend(Runs(s[..|s| - 1]), s[|s| - 1])
  }

  /** Runs are maximal: none is empty and neighbouring runs hold different characters. */
  predicate Maximal(rs: seq<Run>) {
    && (forall k | 0 <= k < |rs| :: rs[k].count >= 1)
    && (forall k | 0 <= k < |rs| - 1 :: rs[k].bit != rs[k + 1].bit)
  }

  /** `rle_compress` emits one token per maximal run. */
  lemma {:induction false} RunsMaximal(s: string)
    ensures Maximal(Runs(s))
    decreases |s|
  {
    if s != [] {
      RunsMaximal(s[..|s| - 1]);
    }
  }

  /** Python's `s * n`: `s` repeated `n` times, empty when `n` is not positive. */
  function Repeat(s: string, n: int): (r: string)
    ensures |r| == if n <= 0 then 0 else n * |s|
    decreases n
  {
    if n <= 0 then "" else s + Repeat(s, n - 1)
  }

  /** `n` copies of the character `x`. */
  function Copies(x: char, n: nat): (r: string)
    ensures |r| == n && forall i | 0 <= i < n :: r[i] == x
  {
    if n == 0 then [] else Copies(x, n - 1) + [x]
  }

  /** `x * n` for a one-character string is `n` copies of it. */
  lemma {:induction false} RepeatCopies(x: char, n: nat)
    ensures Repeat([x], n) == Copies(x, n)
  {
    if n > 0 {
      RepeatCopies(x, n - 1);
      assert [x] + Copies(x, n - 1) == Copies(x, n);
    }
  }

  /** The characters the runs stand for. */
  function Expand(rs: seq<Run>): string {
    if rs == [] then "" else Expand(rs[..|rs| - 1]) + Copies(rs[|rs| - 1].bit, rs[|rs| - 1].count)
  }

  /** The total of the run counts. */
  function TotalCount(rs: seq<Run>): nat {
    if rs == [] then 0 else TotalCount(rs[..|rs| - 1]) + rs[|rs| - 1].count
  }

  /** The runs of `s` spell `s` again, and their counts add up to its length. */
  lemma {:induction false} RunsExpand(s: string)
    ensures Expand(Runs(s)) == s
    ensures TotalCount(Runs(s)) == |s|
    decreases |s|
  {
    if s != [] {
      var front := s[..|s| - 1];
      var x := s[|s| - 1];
      assert s == front + [x];
      RunsExpand(front);
      RunsSnoc(front, x);
      ExpandExtend(Runs(front), x);
    }
  }

  /** Extending the runs by one character extends what they spell by that character. */
  lemma ExpandExtend(rs: seq<Run>, x: char)
    ensures Expand(Extend(rs, x)) == Expand(rs) + [x]
    ensures TotalCount(Extend(rs, x)) == TotalCount(rs) + 1
  {
    var rs' := Extend(rs, x);
    if rs != [] && rs[|rs| - 1].bit == x {
      var last := rs[|rs| - 1];
      assert rs'[..|rs'| - 1] == rs[..|rs| - 1];
      assert Copies(x, last.count + 1) == Copies(x, last.count) + [x];
    } else {
      assert rs'[..|rs'| - 1] == rs;
      assert Copies(x, 1) == [x];
    }
  }

  /** The runs of `s + [x]` extend the runs of `s`. */
  lemma RunsSnoc(s: string, x: char)
    ensures Runs(s + [x]) == Extend(Runs(s), x)
  {
    assert (s + [x])[..|s|] == s;
  }

  /** Dropping the last run keeps the runs maximal. */
  lemma MaximalFront(rs: seq<Run>)
    requires Maximal(rs) && rs != []
    ensures Maximal(rs[..|rs| - 1])
  {
    var front := rs[..|rs| - 1];
    forall k | 0 <= k < |front| - 1 ensures front[k].bit != front[k + 1].bit {
      assert front[k] == rs[k] && front[k + 1] == rs[k + 1];
    }
  }

  /** The runs with their last character taken away. */
  function Shrink(rs: seq<Run>): seq<Run>
    requires rs != []
  {
    var last := rs[|rs| - 1];
    if last.count <= 1 then rs[..|rs| - 1] else rs[..|rs| - 1] + [Run(last.count - 1, last.bit)]
  }

  /** A last run of two or more grows back by one character after it shrinks. */
  lemma RegrowLast(rs: seq<Run>)
    requires rs != [] && rs[|rs| - 1].count > 1
    ensures Extend(Shrink(rs), rs[|rs| - 1].bit) == rs
  {
    var front := rs[..|rs| - 1];
    var last := rs[|rs| - 1];
    var sh := front + [Run(last.count - 1, last.bit)];
    assert Shrink(rs) == sh;
    assert sh[..|sh| - 1] == front;
    assert rs == front + [last];
  }

  /** What the runs spell loses its last character when they shrink. */
  lemma ExpandShrink(rs: seq<Run>)
    requires rs != [] && rs[|rs| - 1].count >= 1
    ensures Expand(rs) == Expand(Shrink(rs)) + [rs[|rs| - 1].bit]
  {
    var last := rs[|rs| - 1];
    if last.count > 1 {
      RegrowLast(rs);
      ExpandExtend(Shrink(rs), last.bit);
    } else {
      assert Shrink(rs) == rs[..|rs| - 1];
      assert Copies(last.bit, last.count) == [last.bit];
    }
  }

  /** Shrinking keeps the runs maximal. */
  lemma ShrinkMaximal(rs: seq<Run>)
    requires Maximal(rs) && rs != []
    ensures Maximal(Shrink(rs))
  {
    var last := rs[|rs| - 1];
    MaximalFront(rs);
    if last.count > 1 {
      var sh := Shrink(rs);
      forall k | 0 <= k < |sh| - 1 ensures sh[k].bit != sh[k + 1].bit {
        assert sh[k] == rs[k] && sh[k + 1].bit == rs[k + 1].bit;
      }
    }
  }

  /** Shrinking lowers the total count. */
  lemma ShrinkTotal(rs: seq<Run>)
    requires rs != []
    ensures TotalCount(Shrink(rs)) < TotalCount(rs) || rs[|rs| - 1].count == 0
  {
    var sh := Shrink(rs);
    if rs[|rs| - 1].count > 1 {
      assert sh[..|sh| - 1] == rs[..|rs| - 1];
    }
  }

  /** Extending the shrunk runs by the removed character restores them. */
  lemma ExtendShrink(rs: seq<Run>)
    requires Maximal(rs) && rs != []
    ensures Extend(Shrink(rs), rs[|rs| - 1].bit) == rs
  {
    var front := rs[..|rs| - 1];
    var last := rs[|rs| - 1];
    var sh := Shrink(rs);
    if last.count > 1 {
      RegrowLast(rs);
    } else {
      assert last.count == 1;
      if front != [] {
        assert front[|front| - 1] == rs[|rs| - 2];
      }
      assert Extend(front, last.bit) == front + [last];
    }
  }

  /** Maximal runs are the runs of what they spell: `rle_compress` emits exactly one token
      per maximal run, and no other tokens. */
  lemma {:induction false} RunsUnique(rs: seq<Run>)
    requires Maximal(rs)
    ensures Runs(Expand(rs)) == rs
    decreases TotalCount(rs)
  {
    if rs != [] {
      var x := rs[|rs| - 1].bit;
      ShrinkMaximal(rs);
      ShrinkTotal(rs);
      ExtendShrink(rs);
      ExpandShrink(rs);
      RunsUnique(Shrink(rs));
      RunsSnoc(Expand(Shrink(rs)), x);
    }
  }

  // ---- The text format ----

  /** The character of a decimal digit. */
  function DigitChar(d: nat): char
    requires d < 10
  {
    ('0' as int + d) as char
  }

  predicate IsDigit(ch: char) {
    '0' <= ch <= '9'
  }

  /** `str(n)` for a natural number: decimal digits, no leading zero. */
  function Decimal(n: nat): (s: string)
    ensures |s| >= 1 && forall i | 0 <= i < |s| :: IsDigit(s[i])
    ensures n >= 10 ==> s[0] != '0'
  {
    if n < 10 then [DigitChar(n)] else Decimal(n / 10) + [DigitChar(n % 10)]
  }

  /** The value of a string of decimal digits. */
  function DigitsValue(s: string): nat
    requires forall i | 0 <= i < |s| :: IsDigit(s[i])
  {
    if s == [] then 0
    else
      assert IsDigit(s[|s| - 1]);
      DigitsValue(s[..|s| - 1]) * 10 + (s[|s| - 1] as int - '0' as int)
  }

  /** What follows an optional leading sign. */
  function Unsigned(s: string): string {
    if s != [] && (s[0] == '-' || s[0] == '+') then s[1..] else s
  }

  /** The text forms of an integer that `int(s)` accepts here: an optional sign and
      one or more ASCII digits. */
  predicate IntSyntax(s: string) {
    Unsigned(s) != [] && forall i | 0 <= i < |Unsigned(s)| :: IsDigit(Unsigned(s)[i])
  }

  /** `int(s)`: parses exactly the integer forms, with the sign's meaning; anything
      else raises ValueError. */
  function ParseInt(s: string): (r: Result<int>)
    ensures r.Ok? <==> IntSyntax(s)
    ensures r.Err? ==> r.error == ValueError
    ensures r.Ok? && s[0] == '-' ==> r.value <= 0
    ensures r.Ok? && s[0] != '-' ==> r.value >= 0
  {
    if IntSyntax(s) then
      var v: int := DigitsValue(Unsigned(s));
      Ok(if s[0] == '-' then -v else v)
    else Err(ValueError)
  }

  /** Reading back a written count gives the count. */
  lemma {:induction false} DecimalValue(n: nat)
    ensures DigitsValue(Decimal(n)) == n
  {
    var s := Decimal(n);
    if n < 10 {
      assert s == [DigitChar(n)];
      assert s[..|s| - 1] == [];
    } else {
      DecimalValue(n / 10);
      assert s == Decimal(n / 10) + [DigitChar(n % 10)];
      assert s[..|s| - 1] == Decimal(n / 10);
      assert s[|s| - 1] as int - '0' as int == n % 10;
    }
  }

  lemma ParseDecimal(n: nat)
    ensures ParseInt(Decimal(n)) == Ok(n)
  {
    DecimalValue(n);
    var s := Decimal(n);
    assert s[0] != '-' && s[0] != '+';
  }

  /** `sep.join(pieces)`. */
  function Join(pieces: seq<string>, sep: char): (r: string)
    ensures pieces != [] ==> pieces[0] <= r
    ensures pieces != [] && (forall k | 0 <= k < |pieces| :: sep !in pieces[k]) ==> multiset(r)[sep] + 1 == |pieces|
  {
    if pieces == [] then ""
    else if |pieces| == 1 then pieces[0]
    else pieces[0] + [sep] + Join(pieces[1..], sep)
  }

  /** `s.split(sep)`: the pieces between separators, at least one (possibly empty). */
  function Split(s: string, sep: char): (pieces: seq<string>)
    ensures |pieces| >= 1
    ensures forall k | 0 <= k < |pieces| :: sep !in pieces[k]
  {
    if s == [] then [""]
    else
      var rest := Split(s[1..], sep);
      if s[0] == sep then [""] + rest
      else [[s[0]] + rest[0]] + rest[1..]
  }

  /** A string without the separator is one piece. */
  lemma {:induction false} SplitNoSep(t: string, sep: char)
    requires sep !in t
    ensures Split(t, sep) == [t]
  {
    if t != [] {
      SplitNoSep(t[1..], sep);
      assert [t[0]] + t[1..] == t;
    }
  }

  /** A piece without the separator followed by the separator splits off. */
  lemma {:induction false} SplitPiece(t: string, sep: char, rest: string)
    requires sep !in t
    ensures Split(t + [sep] + rest, sep) == [t] + Split(rest, sep)
  {
    var s := t + [sep] + rest;
    if t == [] {
      assert s == [sep] + rest;
      assert s[1..] == rest;
    } else {
      assert s[0] == t[0];
      assert s[1..] == t[1..] + [sep] + rest;
      SplitPiece(t[1..], sep, rest);
      assert [t[0]] + t[1..] == t;
    }
  }

  /** Splitting a join of pieces without the separator gives the pieces back. */
  lemma {:induction false} SplitJoin(pieces: seq<string>, sep: char)
    requires |pieces| >= 1
    requires forall k | 0 <= k < |pieces| :: sep !in pieces[k]
    ensures Split(Join(pieces, sep), sep) == pieces
  {
    if |pieces| == 1 {
      SplitNoSep(pieces[0], sep);
    } else {
      SplitJoin(pieces[1..], sep);
      SplitPiece(pieces[0], sep, Join(pieces[1..], sep));
      assert [pieces[0]] + pieces[1..] == pieces;
    }
  }

  /** The token `f"{count}:{bit}"` of a run. */
  function Token(r: Run): string {
    Decimal(r.count) + ":" + [r.bit]
  }

  /** The tokens of the runs, in order. */
  function Tokens(rs: seq<Run>): (ts: seq<string>)
    ensures |ts| == |rs|
    ensures forall k | 0 <= k < |rs| :: ts[k] == Token(rs[k])
  {
    if rs == [] then [] else Tokens(rs[..|rs| - 1]) + [Token(rs[|rs| - 1])]
  }

  lemma TokensSnoc(rs: seq<Run>, r: Run)
    ensures Tokens(rs + [r]) == Tokens(rs) + [Token(r)]
  {
    assert (rs + [r])[..|rs|] == rs;
  }

  /** What `rle_compress(b)` returns for a non-empty `b`. */
  function Compressed(b: string): string {
    Join(Tokens(Runs(b)), ',')
  }

  /** One more character either lengthens the last run or starts a new one. */
  lemma RunsStep(b: string, i: nat, closed: seq<Run>, count: nat)
    requires 1 <= i < |b| && Runs(b[..i]) == closed + [Run(count, b[i - 1])]
    ensures b[i] == b[i - 1] ==> Runs(b[..i + 1]) == closed + [Run(count + 1, b[i - 1])]
    ensures b[i] != b[i - 1] ==> Runs(b[..i + 1]) == closed + [Run(count, b[i - 1])] + [Run(1, b[i])]
  {
    assert b[..i + 1][..i] == b[..i];
    assert (closed + [Run(count, b[i - 1])])[..|closed|] == closed;
  }

  /** `rle_compress(binary_string)`: counts the length of each run while scanning; the
      final token reads `binary_string[-1]`, which raises IndexError on empty input. */
  method RleCompress(b: string) returns (r: Result<string>)
    ensures b == [] ==> r == Err(IndexError)
    ensures b != [] ==> r == Ok(Compressed(b))
  {
    var compressed: seq<string> := [];
    var count := 1;
    ghost var closed: seq<Run> := [];
    var i := 1;
    while i < |b|
      invariant |b| >= 1 ==> 1 <= i <= |b| && Runs(b[..i]) == closed + [Run(count, b[i - 1])]
      invariant compressed == Tokens(closed)
    {
      RunsStep(b, i, closed, count);
      if b[i] == b[i - 1] {
        count := count + 1;
      } else {
        TokensSnoc(closed, Run(count, b[i - 1]));
        compressed := compressed + [Token(Run(count, b[i - 1]))];
        closed := closed + [Run(count, b[i - 1])];
        count := 1;
      }
      i := i + 1;
    }
    if |b| == 0 {
      return Err(IndexError);
    }
    assert b[..|b|] == b;
    TokensSnoc(closed, Run(count, b[|b| - 1]));
    compressed := compressed + [Token(Run(count, b[|b| - 1]))];
    r := Ok(Join(compressed, ','));
  }

  /** `count, bit = pair.split(':')` and `bit * int(count)`: a pair without exactly one
      ':' or with a count that is not an integer raises ValueError. */
  function DecodePair(pair: string): (r: Result<string>)
    ensures r.Err? ==> r.error == ValueError
    ensures r.Ok? <==> |Split(pair, ':')| == 2 && IntSyntax(Split(pair, ':')[0])
  {
    var parts := Split(pair, ':');
    if |parts| != 2 then Err(ValueError)
    else match ParseInt(parts[0])
      case Err(e) => Err(e)
      case Ok(n) => Ok(Repeat(parts[1], n))
  }

  /** The expansions of the pairs, concatenated in order; a bad pair raises. */
  function DecodePairs(pairs: seq<string>): (r: Result<string>)
    ensures r.Err? ==> r.error == ValueError
    ensures r.Ok? <==> forall k | 0 <= k < |pairs| :: DecodePair(pairs[k]).Ok?
  {
    if pairs == [] then Ok("")
    else match DecodePairs(pairs[..|pairs| - 1])
      case Err(e) => Err(e)
      case Ok(front) =>
        match DecodePair(pairs[|pairs| - 1])
        case Err(e) => Err(e)
        case Ok(x) => Ok(front + x)
  }

  /** What `rle_decompress(rle_data)` returns or raises. */
  function RleDecode(data: string): Result<string> {
    DecodePairs(Split(data, ','))
  }

  /** `rle_decompress(rle_data)` as the loop over the pairs that appends each expansion. */
  method RleDecompress(data: string) returns (r: Result<string>)
    ensures r == RleDecode(data)
  {
    var pairs := Split(data, ',');
    var out := "";
    var k := 0;
    while k < |pairs|
      invariant k <= |pairs|
      invariant DecodePairs(pairs[..k]) == Ok(out)
    {
      var parts := Split(pairs[k], ':');
      if |parts| != 2 {
        DecodePairsFail(pairs, k);
        return Err(ValueError);
      }
      var count := ParseInt(parts[0]);
      if count.Err? {
        DecodePairsFail(pairs, k);
        return Err(ValueError);
      }
      DecodePairsStep(pairs, k, out, Repeat(parts[1], count.value));
      out := out + Repeat(parts[1], count.value);
      k := k + 1;
    }
    assert pairs[..k] == pairs;
    r := Ok(out);
  }

  /** A pair that raises makes the whole decompression raise. */
  lemma DecodePairsFail(pairs: seq<string>, k: nat)
    requires k < |pairs| && DecodePair(pairs[k]).Err?
    ensures DecodePairs(pairs) == Err(ValueError)
  {
  }

  /** One more good pair appends its expansion. */
  lemma DecodePairsStep(pairs: seq<string>, k: nat, out: string, x: string)
    requires k < |pairs| && DecodePairs(pairs[..k]) == Ok(out) && DecodePair(pairs[k]) == Ok(x)
    ensures DecodePairs(pairs[..k + 1]) == Ok(out + x)
  {
    assert pairs[..k + 1][..k] == pairs[..k];
  }

  /** The empty string is the single empty pair, which raises ValueError. */
  lemma EmptyDataRaises()
    ensures RleDecode("") == Err(ValueError)
  {
    assert Split("", ',') == [""];
    assert Split("", ':') == [""];
  }

  /** Every run holds a character of the string. */
  lemma {:induction false} RunsChars(s: string)
    ensures forall k | 0 <= k < |Runs(s)| :: Runs(s)[k].bit in s
    decreases |s|
  {
    if s != [] {
      RunsChars(s[..|s| - 1]);
      assert forall c | c in s[..|s| - 1] :: c in s;
    }
  }

  /** A token reads back as its run. */
  lemma DecodeToken(r: Run)
    requires r.bit != ':'
    ensures DecodePair(Token(r)) == Ok(Repeat([r.bit], r.count))
  {
    var digits := Decimal(r.count);
    assert ':' !in digits;
    assert Token(r) == digits + [':'] + [r.bit];
    SplitPiece(digits, ':', [r.bit]);
    SplitNoSep([r.bit], ':');
    ParseDecimal(r.count);
  }

  /** The tokens of runs read back as the characters of the runs. */
  lemma {:induction false} DecodeTokens(rs: seq<Run>)
    requires forall k | 0 <= k < |rs| :: rs[k].bit != ':'
    ensures DecodePairs(Tokens(rs)) == Ok(Expand(rs))
  {
    if rs != [] {
      var front := rs[..|rs| - 1];
      DecodeTokens(front);
      DecodeToken(rs[|rs| - 1]);
      RepeatCopies(rs[|rs| - 1].bit, rs[|rs| - 1].count);
      var ts := Tokens(rs);
      assert ts[..|ts| - 1] == Tokens(front);
    }
  }

  /** No token holds a ',', so the tokens can be split apart again. */
  lemma TokensHaveNoComma(rs: seq<Run>)
    requires forall k | 0 <= k < |rs| :: rs[k].bit != ','
    ensures forall k | 0 <= k < |Tokens(rs)| :: ',' !in Tokens(rs)[k]
  {
    forall k | 0 <= k < |Tokens(rs)| ensures ',' !in Tokens(rs)[k] {
      var digits := Decimal(rs[k].count);
      assert Tokens(rs)[k] == digits + ":" + [rs[k].bit];
      assert ',' !in digits;
    }
  }

  /** `rle_decompress(rle_compress(b)) == b` for every non-empty string without ',' or
      ':' (every non-empty bit string in particular). */
  lemma RleRoundTrip(b: string)
    requires b != [] && ',' !in b && ':' !in b
    ensures RleDecode(Compressed(b)) == Ok(b)
  {
    var rs := Runs(b);
    RunsChars(b);
    TokensHaveNoComma(rs);
    SplitJoin(Tokens(rs), ',');
    DecodeTokens(rs);
    RunsExpand(b);
  }
}
