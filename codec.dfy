/** The bit codec: `huffman_encode` (Logic.py) and `huffman_decode`
    (web_interface_expanded.py), with the round trips they complete. */
module BitCodec {
  import opened Outcomes
  import opened Nodes
  import opened Builder
  import opened CodeTable

  /** `''.join(huffman_codes[char] for char in text)`: the codes of the characters, in
      order; the first character missing from the table raises KeyError. */
  function HuffmanEncode(text: string, codes: Table): (r: Result<string>)
    ensures r.Ok? <==> forall i | 0 <= i < |text| :: Get(codes, text[i]).Some?
    ensures r.Err? ==> r.error == KeyError
  {
    if text == [] then Ok("")
    else match Get(codes, text[0])
      case None => Err(KeyError)
      case Some(code) =>
        match HuffmanEncode(text[1..], codes)
        case Err(e) => Err(e)
        case Ok(rest) => Ok(code + rest)
  }

  /** The sum of the code lengths of the characters of `text`. */
  function CodeLengths(text: string, codes: Table): nat
    requires forall i | 0 <= i < |text| :: Get(codes, text[i]).Some?
  {
    if text == [] then 0 else |Get(codes, text[0]).value| + CodeLengths(text[1..], codes)
  }

  /** The encoding is as long as the codes of its characters together. */
  lemma {:induction false} EncodedLength(text: string, codes: Table)
    requires forall i | 0 <= i < |text| :: Get(codes, text[i]).Some?
    ensures |HuffmanEncode(text, codes).value| == CodeLengths(text, codes)
  {
    if text != [] {
      EncodedLength(text[1..], codes);
    }
  }

  /** Encoding a concatenation concatenates the encodings. */
  lemma {:induction false} EncodeConcat(a: string, b: string, codes: Table)
    requires forall i | 0 <= i < |a| :: Get(codes, a[i]).Some?
    requires forall i | 0 <= i < |b| :: Get(codes, b[i]).Some?
    ensures HuffmanEncode(a + b, codes).Ok?
    ensures HuffmanEncode(a + b, codes).value == HuffmanEncode(a, codes).value + HuffmanEncode(b, codes).value
  {
    assert forall i | 0 <= i < |a + b| :: Get(codes, (a + b)[i]).Some? by {
      forall i | 0 <= i < |a + b| ensures Get(codes, (a + b)[i]).Some? {
        if i >= |a| {
          assert (a + b)[i] == b[i - |a|];
        }
      }
    }
    if a == [] {
      assert a + b == b;
    } else {
      assert (a + b)[0] == a[0] && (a + b)[1..] == a[1..] + b;
      EncodeConcat(a[1..], b, codes);
      var code := Get(codes, a[0]).value;
      assert code + HuffmanEncode(a[1..], codes).value + HuffmanEncode(b, codes).value
          == code + (HuffmanEncode(a[1..], codes).value + HuffmanEncode(b, codes).value);
    }
  }

  /** `huffman_decode` from the node `cur`, having decoded `out`: every bit moves to a
      child ('0' left, anything else right); reading a child of an absent node, or the
      symbol of an absent child, raises AttributeError; a node with a symbol emits it
      and the walk restarts at the root. Bits left over mid-path produce nothing. */
  function DecodeWalk(bits: string, root: Tree, cur: Tree, out: string): (r: Result<string>)
    ensures r.Ok? ==> out <= r.value && |r.value| <= |out| + |bits|
    ensures r.Err? ==> r.error == AttributeError
    decreases |bits|
  {
    if bits == [] then Ok(out)
    else if cur.Nil? then Err(AttributeError)
    else
      var next := Child(cur, bits[0]);
      if next.Nil? then Err(AttributeError)
      else if next.sym.Some? then DecodeWalk(bits[1..], root, root, out + [next.sym.value])
      else DecodeWalk(bits[1..], root, next, out)
  }

  /** `huffman_decode(encoded_text, huffman_tree)`: at most one character per bit, and
      the only failure is AttributeError. */
  function HuffmanDecode(bits: string, root: Tree): (r: Result<string>)
    ensures r.Ok? ==> |r.value| <= |bits|
    ensures r.Err? ==> r.error == AttributeError
  {
    DecodeWalk(bits, root, root, "")
  }

  /** `huffman_decode` as the loop that reassigns `current_node` and appends. */
  method Decode(bits: string, root: Tree) returns (r: Result<string>)
    ensures r == HuffmanDecode(bits, root)
  {
    var cur := root;
    var out := "";
    var i := 0;
    while i < |bits|
      invariant i <= |bits|
      invariant DecodeWalk(bits[i..], root, cur, out) == HuffmanDecode(bits, root)
    {
      assert bits[i..][1..] == bits[i + 1..];
      if cur.Nil? {
        return Err(AttributeError);
      }
      cur := if bits[i] == '0' then cur.left else cur.right;
      if cur.Nil? {
        return Err(AttributeError);
      }
      if cur.sym.Some? {
        out := out + [cur.sym.value];
        cur := root;
      }
      i := i + 1;
    }
    assert bits[i..] == [];
    r := Ok(out);
  }

  /** An absent tree raises AttributeError on any non-empty input. */
  lemma NoTree(bits: string)
    requires bits != []
    ensures HuffmanDecode(bits, Nil) == Err(AttributeError)
  {
  }

  /** Below a merged node of a built tree every walk stays on the tree: each step
      reaches a leaf, which restarts the walk at the merged root, or another merged node. */
  lemma {:induction false} WalkTotal(bits: string, root: Tree, cur: Tree, out: string)
    requires Shaped(root) && root.sym.None?
    requires Shaped(cur) && cur.sym.None?
    ensures DecodeWalk(bits, root, cur, out).Ok?
    decreases |bits|
  {
    if bits != [] {
      var next := Child(cur, bits[0]);
      if next.sym.Some? {
        WalkTotal(bits[1..], root, root, out + [next.sym.value]);
      } else {
        WalkTotal(bits[1..], root, next, out);
      }
    }
  }

  /** With a merged root, as every text of two distinct characters or more builds,
      `huffman_decode` never fails, whatever the input. */
  lemma DecodeTotal(bits: string, root: Tree)
    requires Shaped(root) && root.sym.None?
    ensures HuffmanDecode(bits, root).Ok?
  {
    WalkTotal(bits, root, root, "");
  }

  /** Decoding only looks at the directions the bits take. */
  lemma {:induction false} DecodeDirections(bits: string, root: Tree, cur: Tree, out: string)
    ensures DecodeWalk(bits, root, cur, out) == DecodeWalk(Norm(bits), root, cur, out)
    decreases |bits|
  {
    if bits != [] && cur.Node? {
      var n := Norm(bits);
      assert n[0] == Dir(bits[0]) && n[1..] == Norm(bits[1..]);
      assert Child(cur, bits[0]) == Child(cur, n[0]);
      var next := Child(cur, bits[0]);
      if next.Node? {
        if next.sym.Some? {
          DecodeDirections(bits[1..], root, root, out + [next.sym.value]);
        } else {
          DecodeDirections(bits[1..], root, next, out);
        }
      }
    }
  }

  /** From `root`, the bits of `code` lead through symbol-less nodes to a node carrying
      `c`: decoding them emits exactly `c`. */
  ghost predicate Decodes(root: Tree, code: string, c: char) {
    && |code| >= 1
    && SymAt(root, code) == Some(c)
    && forall k | 1 <= k < |code| :: SymAt(root, code[..k]) == None
  }


  /** The walk from the node at `code[..k]` over the remaining bits of `code` emits `c`
      and returns to the root. */
  lemma {:induction false} WalkRest(root: Tree, code: string, c: char, k: nat, rest: string, out: string)
    requires Decodes(root, code, c) && k < |code|
    ensures DecodeWalk(code[k..] + rest, root, Lookup(root, code[..k]), out) == DecodeWalk(rest, root, root, out + [c])
    decreases |code| - k
  {
    LookupPrefix(root, code, k);
    var cur := Lookup(root, code[..k]);
    var bits := code[k..] + rest;
    assert bits[0] == code[k];
    assert code[..k + 1] == code[..k] + [code[k]];
    LookupAppend(root, code[..k], [code[k]]);
    LookupPrefix(root, code, k + 1);
    var next := Child(cur, code[k]);
    assert next == Lookup(root, code[..k + 1]);
    if k + 1 == |code| {
      assert code[..k + 1] == code;
      assert bits[1..] == rest;
    } else {
      assert bits[1..] == code[k + 1..] + rest;
      WalkRest(root, code, c, k + 1, rest, out);
    }
  }

  /** Decoding the bits of `code` from the root emits `c` and returns to the root. */
  lemma WalkOne(root: Tree, code: string, c: char, rest: string, out: string)
    requires Decodes(root, code, c)
    ensures DecodeWalk(code + rest, root, root, out) == DecodeWalk(rest, root, root, out + [c])
  {
    WalkRest(root, code, c, 0, rest, out);
    assert code[..0] == [] && code[0..] == code;
  }

  /** Stopping part-way through `code` emits nothing more: the trailing bits are dropped. */
  lemma {:induction false} WalkPartial(root: Tree, code: string, c: char, j: nat, k: nat, out: string)
    requires Decodes(root, code, c) && j <= k < |code|
    ensures DecodeWalk(code[j..k], root, Lookup(root, code[..j]), out) == Ok(out)
    decreases k - j
  {
    if j < k {
      LookupPrefix(root, code, j);
      var cur := Lookup(root, code[..j]);
      assert code[..j + 1] == code[..j] + [code[j]];
      LookupAppend(root, code[..j], [code[j]]);
      LookupPrefix(root, code, j + 1);
      assert code[j..k][0] == code[j] && code[j..k][1..] == code[j + 1..k];
      WalkPartial(root, code, c, j + 1, k, out);
    }
  }

  /** Every character of `text` has a code in `codes` that decodes to it from `root`. */
  ghost predicate DecodableText(text: string, codes: Table, root: Tree) {
    forall i | 0 <= i < |text| :: Get(codes, text[i]).Some? && Decodes(root, Get(codes, text[i]).value, text[i])
  }

  /** Decoding an encoding yields the text back, whatever bits follow. */
  lemma {:induction false} DecodeEncodeWalk(text: string, codes: Table, root: Tree, rest: string, out: string)
    requires DecodableText(text, codes, root)
    ensures HuffmanEncode(text, codes).Ok?
    ensures DecodeWalk(HuffmanEncode(text, codes).value + rest, root, root, out) == DecodeWalk(rest, root, root, out + text)
  {
    if text == [] {
      assert "" + rest == rest;
      assert out + text == out;
    } else {
      var code := Get(codes, text[0]).value;
      assert DecodableText(text[1..], codes, root) by {
        forall i | 0 <= i < |text[1..]|
          ensures Get(codes, text[1..][i]).Some? && Decodes(root, Get(codes, text[1..][i]).value, text[1..][i])
        {
          assert text[1..][i] == text[i + 1];
        }
      }
      DecodeEncodeWalk(text[1..], codes, root, rest, out + [text[0]]);
      var tail := HuffmanEncode(text[1..], codes).value;
      assert code + tail + rest == code + (tail + rest);
      WalkOne(root, code, text[0], tail + rest, out);
      assert out + [text[0]] + text[1..] == out + text;
    }
  }

  /** `huffman_decode(huffman_encode(text, codes), root) == text` when every code
      decodes to its character. */
  lemma DecodeEncode(text: string, codes: Table, root: Tree)
    requires DecodableText(text, codes, root)
    ensures HuffmanEncode(text, codes).Ok?
    ensures HuffmanDecode(HuffmanEncode(text, codes).value, root) == Ok(text)
  {
    DecodeEncodeWalk(text, codes, root, "", "");
    assert HuffmanEncode(text, codes).value + "" == HuffmanEncode(text, codes).value;
    assert "" + text == text;
  }

  /** Bits that stop part-way through a further code are dropped without error. */
  lemma DecodeEncodeTrailing(text: string, codes: Table, root: Tree, code: string, c: char, k: nat)
    requires DecodableText(text, codes, root)
    requires Decodes(root, code, c) && k < |code|
    ensures HuffmanEncode(text, codes).Ok?
    ensures HuffmanDecode(HuffmanEncode(text, codes).value + code[..k], root) == Ok(text)
  {
    DecodeEncodeWalk(text, codes, root, code[..k], "");
    WalkPartial(root, code, c, 0, k, text);
    assert code[..0] == [] && code[0..k] == code[..k];
    assert "" + text == text;
  }

  // ---- Round trips through the generated table ----

  /** In a tree built for a text with two distinct characters or more, every character
      of the text decodes along its path. */
  lemma BuiltDecodes(t: Tree, text: string, c: char)
    requires IsHuffmanTreeOf(t, text) && |Distinct(text)| >= 2 && c in text
    ensures Decodes(t, PathTo(t, c), c)
  {
    BuiltRoot(t, text);
    var p := PathTo(t, c);
    PathToReaches(t, c);
    forall k | 1 <= k < |p| ensures SymAt(t, p[..k]) == None {
      InteriorPrefix(t, p, k);
    }
  }

  /** Compressing and decompressing with the built tree: for a text with two distinct
      characters or more, encoding any string over its characters with the generated
      table (into any dict) and decoding with the tree gives the string back. */
  lemma BuiltRoundTrip(t: Tree, text: string, acc: Table, s: string)
    requires IsHuffmanTreeOf(t, text) && |Distinct(text)| >= 2
    requires forall i | 0 <= i < |s| :: s[i] in text
    ensures HuffmanEncode(s, CodesInto(t, "", acc)).Ok?
    ensures HuffmanDecode(HuffmanEncode(s, CodesInto(t, "", acc)).value, t) == Ok(s)
  {
    var codes := CodesInto(t, "", acc);
    forall i | 0 <= i < |s| ensures Get(codes, s[i]).Some? && Decodes(t, Get(codes, s[i]).value, s[i]) {
      GeneratedCodes(t, text, acc, s[i]);
      BuiltDecodes(t, text, s[i]);
    }
    DecodeEncode(s, codes, t);
  }

  /** In the tree rebuilt from a table of non-empty, prefix-free bit codes, every
      item's code decodes to its key. */
  lemma RebuiltDecodes(codes: Table, i: nat)
    requires PrefixFreeCodes(codes) && NonEmptyBitCodes(codes) && i < |codes|
    ensures Decodes(Rebuilt(codes), codes[i].1, codes[i].0)
  {
    var p := codes[i].1;
    var root := Rebuilt(codes);
    forall j | 0 <= j < |codes| ensures Norm(codes[j].1) == codes[j].1 {
      NormBits(codes[j].1);
    }
    forall j | i < j < |codes| ensures Norm(codes[j].1) != Norm(p) {
      assert !IsPrefix(codes[j].1, p);
    }
    RebuiltReaches(codes, i);
    forall k | 1 <= k < |p| ensures SymAt(root, p[..k]) == None {
      assert IsBits(p[..k]);
      NormBits(p[..k]);
      RebuiltSymAt(codes, p[..k]);
      forall j | 0 <= j < |codes| ensures Norm(codes[j].1) != p[..k] {
        if j != i {
          assert !IsPrefix(codes[j].1, p);
        }
      }
      LastSymNone(codes, p[..k]);
    }
  }

  /** The decompression the codec supports: the text is encoded with the table generated
      into a fresh dict, and `rebuild_huffman_tree` grows the decoding tree back from
      that table alone. For a text with two distinct characters or more, decoding gives
      back any string over the text's characters. */
  lemma RebuiltRoundTrip(t: Tree, text: string, s: string)
    requires IsHuffmanTreeOf(t, text) && |Distinct(text)| >= 2
    requires forall i | 0 <= i < |s| :: s[i] in text
    ensures HuffmanEncode(s, CodesInto(t, "", [])).Ok?
    ensures HuffmanDecode(HuffmanEncode(s, CodesInto(t, "", [])).value, Rebuilt(CodesInto(t, "", []))) == Ok(s)
  {
    var codes := CodesInto(t, "", []);
    GeneratedTable(t, text);
    forall i | 0 <= i < |s|
      ensures Get(codes, s[i]).Some? && Decodes(Rebuilt(codes), Get(codes, s[i]).value, s[i])
    {
      GeneratedCodes(t, text, [], s[i]);
      GetSome(codes, s[i]);
      var j :| 0 <= j < |codes| && codes[j] == (s[i], Get(codes, s[i]).value);
      RebuiltDecodes(codes, j);
    }
    DecodeEncode(s, codes, Rebuilt(codes));
  }

  /** The tree `build_huffman_tree("ab")` returns: `heapify` turns [a1, b1] into [b1, a1]
      (the sift moves the child up without comparing), so 'b' is popped first. */
  const TreeAB: Tree := Node(None, 2, Leaf('b', 1), Leaf('a', 1))

  /** The tree `build_huffman_tree("ccdde")` returns: `heapify` turns [c2, d2, e1] into
      [e1, d2, c2], so 'e', then 'd', then 'c' and the merged node are popped. */
  const TreeCCDDE: Tree := Node(None, 5, Leaf('c', 2), Node(None, 3, Leaf('e', 1), Leaf('d', 2)))

  /** The codes of `TreeAB` fill an empty dict with {b: "0", a: "1"}. */
  lemma FirstCall()
    ensures CodesInto(TreeAB, "", []) == [('b', "0"), ('a', "1")]
  {
    assert "" + "0" == "0" && "" + "1" == "1";
    assert CodesInto(Leaf('b', 1), "0", []) == [('b', "0")];
    assert CodesInto(Leaf('a', 1), "1", [('b', "0")]) == [('b', "0"), ('a', "1")];
  }

  /** The tree built for two different characters, each occurring once, with the second
      character popped first. */
  lemma PairTree(a: char, b: char)
    requires a != b
    ensures IsHuffmanTreeOf(Node(None, 2, Leaf(b, 1), Leaf(a, 1)), [a] + [b])
  {
    var text := [a] + [b];
    var t := Node(None, 2, Leaf(b, 1), Leaf(a, 1));
    DistinctOfTwo(a, b);
    assert multiset(text) == multiset{a} + multiset{b};
    assert Count(text, a) == 1 && Count(text, b) == 1;
    LeafCounts(a, text);
    LeafCounts(b, text);
    LeafShape(a, 1);
    LeafShape(b, 1);
    assert Shaped(t) && t.freq == |text| && Internals(t) == 1;
    forall x ensures Occurrences(t, x) == if x in text then 1 else 0 {
      LeafOccurrences(a, 1, x);
      LeafOccurrences(b, 1, x);
    }
  }

  /** The tree built for a text shaped like "ccdde": 'e' and 'd' are merged first, and the
      merged node is then merged with 'c'. */
  lemma TripleTree(c: char, d: char, e: char)
    requires c != d && c != e && d != e
    ensures IsHuffmanTreeOf(Node(None, 5, Leaf(c, 2), Node(None, 3, Leaf(e, 1), Leaf(d, 2))), [c] + [c] + [d] + [d] + [e])
  {
    var text := [c] + [c] + [d] + [d] + [e];
    var inner := Node(None, 3, Leaf(e, 1), Leaf(d, 2));
    var t := Node(None, 5, Leaf(c, 2), inner);
    DistinctOfFive(c, d, e);
    assert multiset(text) == multiset{c} + multiset{c} + multiset{d} + multiset{d} + multiset{e};
    assert Count(text, c) == 2 && Count(text, d) == 2 && Count(text, e) == 1;
    LeafCounts(c, text);
    LeafCounts(d, text);
    LeafCounts(e, text);
    assert CountsOf(inner, text);
    LeafShape(c, 2);
    LeafShape(d, 2);
    LeafShape(e, 1);
    assert Shaped(inner) && Internals(inner) == 1;
    assert Shaped(t) && t.freq == |text| && Internals(t) == 2;
    forall x ensures Occurrences(t, x) == if x in text then 1 else 0 {
      LeafOccurrences(c, 2, x);
      LeafOccurrences(d, 2, x);
      LeafOccurrences(e, 1, x);
      assert Occurrences(inner, x) == Occurrences(Leaf(e, 1), x) + Occurrences(Leaf(d, 2), x);
    }
  }

  /** The dict after `compress_text("ab")` and then `compress_text("ccdde")`. */
  const StaleTable: Table := [('b', "0"), ('a', "1"), ('c', "0"), ('e', "10"), ('d', "11")]

  /** The dicts the second call passes through: each of its characters is new to the dict
      and goes last. */
  lemma StalePuts()
    ensures Put([('b', "0"), ('a', "1")], 'c', "0") == [('b', "0"), ('a', "1"), ('c', "0")]
    ensures Put([('b', "0"), ('a', "1"), ('c', "0")], 'e', "10") == [('b', "0"), ('a', "1"), ('c', "0"), ('e', "10")]
    ensures Put([('b', "0"), ('a', "1"), ('c', "0"), ('e', "10")], 'd', "11") == StaleTable
  {
    var t0: Table := [('b', "0"), ('a', "1")];
    var t1: Table := [('b', "0"), ('a', "1"), ('c', "0")];
    var t2: Table := [('b', "0"), ('a', "1"), ('c', "0"), ('e', "10")];
    assert Put(t0, 'c', "0") == t1 by {
      assert forall i | 0 <= i < |t0| :: t0[i].0 != 'c';
      PutAppends(t0, 'c', "0");
    }
    assert Put(t1, 'e', "10") == t2 by {
      assert forall i | 0 <= i < |t1| :: t1[i].0 != 'e';
      PutAppends(t1, 'e', "10");
    }
    assert Put(t2, 'd', "11") == StaleTable by {
      assert forall i | 0 <= i < |t2| :: t2[i].0 != 'd';
      PutAppends(t2, 'd', "11");
    }
  }

  /** The second call writes its codes after the stale entries: 'a' keeps the code "1". */
  lemma SecondCall()
    ensures CodesInto(TreeCCDDE, "", [('b', "0"), ('a', "1")]) == StaleTable
  {
    var t0: Table := [('b', "0"), ('a', "1")];
    var t1: Table := [('b', "0"), ('a', "1"), ('c', "0")];
    var t2: Table := [('b', "0"), ('a', "1"), ('c', "0"), ('e', "10")];
    var inner := Node(None, 3, Leaf('e', 1), Leaf('d', 2));
    assert "" + "0" == "0" && "" + "1" == "1" && "1" + "0" == "10" && "1" + "1" == "11";
    StalePuts();
    LeafCodes('c', 2, "0", t0);
    LeafCodes('e', 1, "10", t1);
    LeafCodes('d', 2, "11", t2);
    assert CodesInto(inner, "1", t1) == CodesInto(Leaf('d', 2), "11", CodesInto(Leaf('e', 1), "10", t1));
    assert CodesInto(TreeCCDDE, "", t0) == CodesInto(inner, "1", CodesInto(Leaf('c', 2), "0", t0));
  }

  /** With the stale table "d" encodes to "11". */
  lemma StaleEncode()
    ensures HuffmanEncode("d", StaleTable) == Ok("11")
  {
    assert Get(StaleTable, 'd') == Some("11");
    assert "11" + "" == "11";
  }

  /** The tree rebuilt from the stale table: 'a' sits on the merged node at "1", above 'e'
      and 'd'. */
  lemma StaleRebuilt()
    ensures Rebuilt(StaleTable)
         == Node(None, 0, Leaf('c', 0), Node(Some('a'), 0, Leaf('e', 0), Leaf('d', 0)))
  {
    var p1: Table := [('b', "0")];
    var p2 := p1 + [('a', "1")];
    var p3 := p2 + [('c', "0")];
    var p4 := p3 + [('e', "10")];
    var p5 := p4 + [('d', "11")];
    assert p5 == StaleTable;
    assert p1[..0] == [] && p2[..1] == p1 && p3[..2] == p2 && p4[..3] == p3 && p5[..4] == p4;
    assert "0"[1..] == [] && "1"[1..] == [] && "10"[1..] == "0" && "11"[1..] == "1";
    assert Rebuilt(p1) == Insert(Fresh, "0", 'b') == Node(None, 0, Leaf('b', 0), Nil);
    assert Rebuilt(p2) == Node(None, 0, Leaf('b', 0), Leaf('a', 0));
    assert Rebuilt(p3) == Node(None, 0, Leaf('c', 0), Leaf('a', 0));
    assert Rebuilt(p4) == Node(None, 0, Leaf('c', 0), Node(Some('a'), 0, Leaf('e', 0), Nil));
  }

  /** The rebuilt tree reads "11" as "aa". */
  lemma StaleDecode()
    ensures HuffmanDecode("11", Node(None, 0, Leaf('c', 0), Node(Some('a'), 0, Leaf('e', 0), Leaf('d', 0)))) == Ok("aa")
  {
    var root := Node(None, 0, Leaf('c', 0), Node(Some('a'), 0, Leaf('e', 0), Leaf('d', 0)));
    assert "11"[1..] == "1" && "1"[1..] == [];
    assert "" + ['a'] == "a" && "a" + ['a'] == "aa";
    assert DecodeWalk("1", root, root, "a") == DecodeWalk([], root, root, "aa");
  }

  /** The shared default dict breaks the rebuilt round trip. `compress_text("ab")` leaves
      {b: "0", a: "1"} in the default dict; `compress_text("ccdde")` writes the codes of
      (c, (e, d)) into the same dict, so 'a' keeps the code "1", which is now the path to
      a merged node. The text "d" encodes to "11", and the tree that
      `rebuild_huffman_tree` grows from the dict reads that as "aa". */
  lemma StaleCodesBreakRebuild()
    ensures IsHuffmanTreeOf(TreeAB, "ab") && IsHuffmanTreeOf(TreeCCDDE, "ccdde")
    ensures var codes := CodesInto(TreeCCDDE, "", CodesInto(TreeAB, "", []));
      && HuffmanEncode("d", codes) == Ok("11")
      && HuffmanDecode("11", Rebuilt(codes)) == Ok("aa")
  {
    PairTree('a', 'b');
    TripleTree('c', 'd', 'e');
    assert "ab" == ['a'] + ['b'] && "ccdde" == ['c'] + ['c'] + ['d'] + ['d'] + ['e'];
    FirstCall();
    SecondCall();
    StaleEncode();
    StaleRebuilt();
    StaleDecode();
  }

  /** Every character's code is empty, so the encoding is empty. */
  lemma {:induction false} EncodeEmptyCodes(text: string, codes: Table)
    requires forall i | 0 <= i < |text| :: Get(codes, text[i]) == Some("")
    ensures HuffmanEncode(text, codes) == Ok("")
  {
    if text != [] {
      forall i | 0 <= i < |text[1..]| ensures Get(codes, text[1..][i]) == Some("") {
        assert text[1..][i] == text[i + 1];
      }
      EncodeEmptyCodes(text[1..], codes);
      assert "" + "" == "";
    }
  }

  /** A text of one repeated character: the tree is a bare leaf, its code is empty, the
      text encodes to the empty string, and decoding that gives the empty string, so
      the text is lost. */
  lemma SingleSymbolEncodesEmpty(t: Tree, text: string, acc: Table)
    requires IsHuffmanTreeOf(t, text) && |Distinct(text)| == 1
    ensures Get(CodesInto(t, "", acc), text[0]) == Some("")
    ensures HuffmanEncode(text, CodesInto(t, "", acc)) == Ok("")
    ensures HuffmanDecode("", t) == Ok("") && text != []
  {
    BuiltRoot(t, text);
    var codes := CodesInto(t, "", acc);
    forall i | 0 <= i < |text| ensures Get(codes, text[i]) == Some("") {
      GeneratedCodes(t, text, acc, text[i]);
    }
    EncodeEmptyCodes(text, codes);
  }
}
