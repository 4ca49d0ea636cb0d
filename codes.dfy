/** Code tables: `generate_huffman_codes` (Logic.py), which walks a tree and records
    each symbol's path, and `rebuild_huffman_tree` (web_interface_expanded.py), which
    grows a tree back from a table.

    A Python dict is modelled as a sequence of (key, value) pairs in insertion order:
    assigning to a present key replaces its value in place, a new key goes last. */
module CodeTable {
  import opened Outcomes
  import opened Nodes
  import opened Builder

  /** A `{char: code}` dict, in insertion order. */
  type Table = seq<(char, string)>

  /** No key is listed twice, as in every Python dict. */
  predicate KeysUnique(t: Table) {
    t == [] || (Get(t[1..], t[0].0).None? && KeysUnique(t[1..]))
  }

  /** `d.get(c)`: the value listed with `c`, `None` exactly when no item has key `c`. */
  function Get(t: Table, c: char): (r: Option<string>)
    ensures r.None? <==> forall i | 0 <= i < |t| :: t[i].0 != c
  {
    if t == [] then None
    else if t[0].0 == c then Some(t[0].1)
    else Get(t[1..], c)
  }

  /** `d[c] = code`: a present key keeps its position, a new key is appended. */
  function Put(t: Table, c: char, code: string): (r: Table)
    ensures Get(r, c) == Some(code)
    ensures forall k | k != c :: Get(r, k) == Get(t, k)
    ensures KeysUnique(t) ==> KeysUnique(r)
  {
    if t == [] then [(c, code)]
    else if t[0].0 == c then [(c, code)] + t[1..]
    else [t[0]] + Put(t[1..], c, code)
  }

  /** Assigning to a key the dict does not hold appends the item at the end. */
  lemma {:induction false} PutAppends(t: Table, c: char, code: string)
    requires Get(t, c).None?
    ensures Put(t, c, code) == t + [(c, code)]
  {
    if t != [] {
      PutAppends(t[1..], c, code);
      assert t == [t[0]] + t[1..];
    }
  }

  /** In a dict, looking up a listed key finds the value listed with it. */
  lemma {:induction false} GetItem(t: Table, i: nat)
    requires KeysUnique(t) && i < |t|
    ensures Get(t, t[i].0) == Some(t[i].1)
  {
    if i > 0 {
      GetItem(t[1..], i - 1);
      assert t[1..][i - 1] == t[i];
    }
  }

  /** The table `generate_huffman_codes(t, code, acc)` leaves behind: a pre-order walk
      that records `code` for the node's symbol, then visits the left child with
      `code + '0'` and the right child with `code + '1'`. */
  function CodesInto(t: Tree, code: string, acc: Table): (r: Table)
    ensures KeysUnique(acc) ==> KeysUnique(r)
  {
    match t
    case Nil => acc
    case Node(s, _, l, r) =>
      var here := if s.Some? then Put(acc, s.value, code) else acc;
      CodesInto(r, code + "1", CodesInto(l, code + "0", here))
  }

  /** The dict object shared by every call of `generate_huffman_codes` that does not
      pass one: the mutable default argument. */
  class CodeDict {
    var items: Table

    constructor()
      ensures items == []
    {
      items := [];
    }

    /** `generate_huffman_codes(root, code, self)`: returns `None` for an absent
        tree, otherwise records the codes of the tree into this dict and returns it. */
    method Generate(root: Tree, code: string) returns (r: Option<Table>)
      modifies this
      ensures items == CodesInto(root, code, old(items))
      ensures r == if root.Nil? then None else Some(items)
      decreases root
    {
      if root.Nil? {
        return None;
      }
      if root.sym.Some? {
        items := Put(items, root.sym.value, code);
      }
      var _ := Generate(root.left, code + "0");
      var _ := Generate(root.right, code + "1");
      r := Some(items);
    }
  }

  /** Entries for characters the tree does not carry are left as they were. */
  lemma {:induction false} CodesFrame(t: Tree, code: string, acc: Table, c: char)
    requires Occurrences(t, c) == 0
    ensures Get(CodesInto(t, code, acc), c) == Get(acc, c)
  {
    if t.Node? {
      var here := if t.sym.Some? then Put(acc, t.sym.value, code) else acc;
      CodesFrame(t.left, code + "0", here, c);
      CodesFrame(t.right, code + "1", CodesInto(t.left, code + "0", here), c);
    }
  }

  /** The path from the root of `t` to the (first, pre-order) node carrying `c`. */
  function PathTo(t: Tree, c: char): (p: string)
    requires Occurrences(t, c) > 0
    ensures IsBits(p)
  {
    if t.sym == Some(c) then ""
    else if Occurrences(t.left, c) > 0 then "0" + PathTo(t.left, c)
    else "1" + PathTo(t.right, c)
  }

  /** The path leads to a node carrying `c`. */
  lemma {:induction false} PathToReaches(t: Tree, c: char)
    requires Occurrences(t, c) > 0
    ensures SymAt(t, PathTo(t, c)) == Some(c)
  {
    if t.sym != Some(c) {
      var p := PathTo(t, c);
      if Occurrences(t.left, c) > 0 {
        PathToReaches(t.left, c);
        assert p[0] == '0' && p[1..] == PathTo(t.left, c);
      } else {
        PathToReaches(t.right, c);
        assert p[0] == '1' && p[1..] == PathTo(t.right, c);
      }
    }
  }

  /** A symbol carried by exactly one node gets the path to that node, after `code`. */
  lemma {:induction false} CodesArePaths(t: Tree, code: string, acc: Table, c: char)
    requires Occurrences(t, c) == 1
    ensures Get(CodesInto(t, code, acc), c) == Some(code + PathTo(t, c))
  {
    var here := if t.sym.Some? then Put(acc, t.sym.value, code) else acc;
    var mid := CodesInto(t.left, code + "0", here);
    if t.sym == Some(c) {
      CodesFrame(t.left, code + "0", here, c);
      CodesFrame(t.right, code + "1", mid, c);
      assert code + PathTo(t, c) == code;
    } else if Occurrences(t.left, c) > 0 {
      CodesArePaths(t.left, code + "0", here, c);
      CodesFrame(t.right, code + "1", mid, c);
      Regroup(code, '0', PathTo(t.left, c));
    } else {
      CodesArePaths(t.right, code + "1", mid, c);
      Regroup(code, '1', PathTo(t.right, c));
    }
  }

  /** Appending one step and then the rest of a path is appending the whole path;
      used to move the step into the path in `CodesArePaths`. */
  lemma Regroup(code: string, b: char, q: string)
    ensures code + [b] + q == code + ([b] + q)
  {
  }

  /** A subtree of a built tree is a built tree. */
  lemma {:induction false} ShapedLookup(t: Tree, p: string)
    requires Shaped(t) && Lookup(t, p).Node?
    ensures Shaped(Lookup(t, p))
    decreases |p|
  {
    if p != [] {
      var n := Child(t, p[0]);
      if n.Nil? {
        NilLookup(p[1..]);
      } else {
        ShapedLookup(n, p[1..]);
      }
    }
  }

  /** In a built tree, a node with a node below it carries no symbol. */
  lemma InteriorPrefix(t: Tree, q: string, k: nat)
    requires Shaped(t) && Lookup(t, q).Node? && k < |q|
    ensures Lookup(t, q[..k]).Node? && SymAt(t, q[..k]) == None
  {
    LookupPrefix(t, q, k);
    var m := Lookup(t, q[..k]);
    ShapedLookup(t, q[..k]);
    assert q == q[..k] + q[k..];
    LookupAppend(t, q[..k], q[k..]);
    if m.sym.Some? {
      NilLookup(q[k..][1..]);
    }
  }

  /** In a built tree no symbol's path is a prefix of another symbol's path. */
  lemma PathsPrefixFree(t: Tree, c1: char, c2: char)
    requires Shaped(t) && Occurrences(t, c1) > 0 && Occurrences(t, c2) > 0 && c1 != c2
    ensures !IsPrefix(PathTo(t, c1), PathTo(t, c2))
  {
    var p1, p2 := PathTo(t, c1), PathTo(t, c2);
    PathToReaches(t, c1);
    PathToReaches(t, c2);
    if IsPrefix(p1, p2) && |p1| < |p2| {
      InteriorPrefix(t, p2, |p1|);
    }
  }

  /** The table generated from a tree built for `text`: every character of the text
      gets its root-to-leaf path, and every other entry of the dict is unchanged. */
  lemma GeneratedCodes(t: Tree, text: string, acc: Table, c: char)
    requires IsHuffmanTreeOf(t, text)
    ensures c in text ==> Occurrences(t, c) == 1 && Get(CodesInto(t, "", acc), c) == Some(PathTo(t, c))
    ensures c !in text ==> Get(CodesInto(t, "", acc), c) == Get(acc, c)
  {
    if c in text {
      CodesArePaths(t, "", acc, c);
      assert "" + PathTo(t, c) == PathTo(t, c);
    } else {
      CodesFrame(t, "", acc, c);
    }
  }

  /** The codes generated from a tree built for `text` into a fresh dict: the dict lists
      exactly the text's characters, each with a distinct bit string, none a prefix of
      another, and non-empty when the text has two distinct characters or more. */
  lemma GeneratedPrefixFree(t: Tree, text: string, c1: char, c2: char)
    requires IsHuffmanTreeOf(t, text)
    ensures Get(CodesInto(t, "", []), c1).Some? <==> c1 in text
    ensures Get(CodesInto(t, "", []), c2).Some? <==> c2 in text
    ensures c1 in text ==> IsBits(Get(CodesInto(t, "", []), c1).value)
    ensures c1 in text && |Distinct(text)| >= 2 ==> |Get(CodesInto(t, "", []), c1).value| >= 1
    ensures c1 in text && c2 in text && c1 != c2 ==>
      !IsPrefix(Get(CodesInto(t, "", []), c1).value, Get(CodesInto(t, "", []), c2).value)
  {
    GeneratedCodes(t, text, [], c1);
    GeneratedCodes(t, text, [], c2);
    BuiltRoot(t, text);
    if c1 in text && c2 in text && c1 != c2 {
      PathsPrefixFree(t, c1, c2);
    }
  }


  /** Distinct items of a dict have distinct keys. */
  lemma {:induction false} KeysDistinct(t: Table, i: nat, j: nat)
    requires KeysUnique(t) && i < j < |t|
    ensures t[i].0 != t[j].0
  {
    if i == 0 {
      GetItem(t[1..], j - 1);
      assert t[1..][j - 1] == t[j];
    } else {
      KeysDistinct(t[1..], i - 1, j - 1);
      assert t[1..][i - 1] == t[i] && t[1..][j - 1] == t[j];
    }
  }

  /** A key that is found is listed with the value found. */
  lemma {:induction false} GetSome(t: Table, c: char)
    requires Get(t, c).Some?
    ensures exists i :: 0 <= i < |t| && t[i] == (c, Get(t, c).value)
  {
    if t[0].0 != c {
      GetSome(t[1..], c);
      var i :| 0 <= i < |t[1..]| && t[1..][i] == (c, Get(t, c).value);
      assert t[i + 1] == t[1..][i];
    }
  }

  /** No code of the table is a prefix of another item's code. */
  predicate PrefixFreeCodes(codes: Table) {
    forall i, j | 0 <= i < |codes| && 0 <= j < |codes| && i != j :: !IsPrefix(codes[i].1, codes[j].1)
  }

  /** Every code of the table is a non-empty bit string. */
  predicate NonEmptyBitCodes(codes: Table) {
    forall i | 0 <= i < |codes| :: IsBits(codes[i].1) && |codes[i].1| >= 1
  }

  /** The table generated into a fresh dict from a tree built for a text with two
      distinct characters or more lists the text's characters, each with its path, and
      its codes are non-empty, prefix-free bit strings. */
  lemma GeneratedTable(t: Tree, text: string)
    requires IsHuffmanTreeOf(t, text) && |Distinct(text)| >= 2
    ensures KeysUnique(CodesInto(t, "", []))
    ensures forall i | 0 <= i < |CodesInto(t, "", [])| ::
      var (c, code) := CodesInto(t, "", [])[i]; c in text && Occurrences(t, c) == 1 && code == PathTo(t, c)
    ensures PrefixFreeCodes(CodesInto(t, "", []))
    ensures NonEmptyBitCodes(CodesInto(t, "", []))
  {
    var codes := CodesInto(t, "", []);
    forall i | 0 <= i < |codes|
      ensures codes[i].0 in text && Occurrences(t, codes[i].0) == 1 && codes[i].1 == PathTo(t, codes[i].0)
    {
      GetItem(codes, i);
      GeneratedCodes(t, text, [], codes[i].0);
    }
    forall i | 0 <= i < |codes| ensures IsBits(codes[i].1) && |codes[i].1| >= 1 {
      GeneratedPrefixFree(t, text, codes[i].0, codes[i].0);
      GeneratedCodes(t, text, [], codes[i].0);
    }
    forall i, j | 0 <= i < |codes| && 0 <= j < |codes| && i != j ensures !IsPrefix(codes[i].1, codes[j].1) {
      if i < j {
        KeysDistinct(codes, i, j);
      } else {
        KeysDistinct(codes, j, i);
      }
      GeneratedPrefixFree(t, text, codes[i].0, codes[j].0);
      GeneratedCodes(t, text, [], codes[i].0);
      GeneratedCodes(t, text, [], codes[j].0);
    }
  }

  /** Bit strings take the directions they spell. */
  lemma {:induction false} NormBits(p: string)
    requires IsBits(p)
    ensures Norm(p) == p
  {
    if p != [] {
      NormBits(p[1..]);
      assert p == [p[0]] + p[1..];
    }
  }

  // ---- rebuild_huffman_tree ----

  /** The direction a character takes: '0' goes left, anything else right. */
  function Dir(b: char): char {
    if b == '0' then '0' else '1'
  }

  /** A path with every step written as the direction it takes. */
  function Norm(p: string): (q: string)
    ensures |q| == |p| && IsBits(q)
  {
    if p == [] then [] else [Dir(p[0])] + Norm(p[1..])
  }

  /** A node as `HuffmanNode(None, 0)` creates it while rebuilding. */
  const Fresh: Tree := Node(None, 0, Nil, Nil)

  /** Walks `code` from `t`, creating a fresh node for every missing child, and sets
      the symbol of the node reached to `c`. Nodes already present are reused. */
  function Insert(t: Tree, code: string, c: char): (r: Tree)
    requires t.Node?
    ensures r.Node? && r.freq == t.freq
    decreases |code|
  {
    if code == [] then t.(sym := Some(c))
    else if code[0] == '0' then
      t.(left := Insert(if t.left.Nil? then Fresh else t.left, code[1..], c))
    else
      t.(right := Insert(if t.right.Nil? then Fresh else t.right, code[1..], c))
  }

  /** A fresh node carries no symbol anywhere. */
  lemma FreshSymAt(p: string)
    ensures SymAt(Fresh, p) == None
  {
    if p != [] {
      NilLookup(p[1..]);
    }
  }

  /** After an insertion, the node at the path of `code` carries `c`, and every other
      path shows what it showed before. */
  lemma {:induction false} InsertSymAt(t: Tree, code: string, c: char, p: string)
    requires t.Node?
    ensures SymAt(Insert(t, code, c), p) == if Norm(p) == Norm(code) then Some(c) else SymAt(t, p)
    decreases |p|
  {
    var r := Insert(t, code, c);
    if p == [] {
      assert Norm(code) == [] <==> code == [];
    } else if code == [] {
      assert Norm(p) != [];
    } else {
      assert Norm(p) == [Dir(p[0])] + Norm(p[1..]);
      assert Norm(code) == [Dir(code[0])] + Norm(code[1..]);
      assert Norm(p) == Norm(code) <==> Dir(p[0]) == Dir(code[0]) && Norm(p[1..]) == Norm(code[1..]) by {
        if Norm(p) == Norm(code) {
          assert Norm(p)[0] == Norm(code)[0];
          assert Norm(p)[1..] == Norm(code)[1..];
        }
      }
      var old_child := Child(t, p[0]);
      if Dir(p[0]) == Dir(code[0]) {
        var next := if old_child.Nil? then Fresh else old_child;
        assert Child(r, p[0]) == Insert(next, code[1..], c);
        InsertSymAt(next, code[1..], c, p[1..]);
        if old_child.Nil? {
          FreshSymAt(p[1..]);
          NilLookup(p[1..]);
        }
      } else {
        assert Child(r, p[0]) == old_child;
      }
    }
  }

  /** The tree `rebuild_huffman_tree(items)` returns: a fresh root, then every item
      inserted in dict order. */
  function Rebuilt(items: Table): (r: Tree)
    ensures r.Node?
  {
    if items == [] then Fresh
    else Insert(Rebuilt(items[..|items| - 1]), items[|items| - 1].1, items[|items| - 1].0)
  }

  /** The key of the last item whose code takes the directions `q`. */
  function LastSym(items: Table, q: string): Option<char> {
    if items == [] then None
    else if Norm(items[|items| - 1].1) == q then Some(items[|items| - 1].0)
    else LastSym(items[..|items| - 1], q)
  }

  /** In the rebuilt tree, the node at a path carries the key of the last item whose
      code takes the same directions, and no symbol when there is none. */
  lemma {:induction false} RebuiltSymAt(items: Table, p: string)
    ensures SymAt(Rebuilt(items), p) == LastSym(items, Norm(p))
  {
    if items == [] {
      FreshSymAt(p);
    } else {
      var front := items[..|items| - 1];
      RebuiltSymAt(front, p);
      InsertSymAt(Rebuilt(front), items[|items| - 1].1, items[|items| - 1].0, p);
    }
  }

  /** An item that no later item overrides is the last one to take its directions. */
  lemma {:induction false} LastSymLatest(items: Table, i: nat, q: string)
    requires i < |items| && Norm(items[i].1) == q
    requires forall j | i < j < |items| :: Norm(items[j].1) != q
    ensures LastSym(items, q) == Some(items[i].0)
  {
    if i < |items| - 1 {
      var front := items[..|items| - 1];
      assert front[i] == items[i];
      forall j | i < j < |front| ensures Norm(front[j].1) != q {
        assert front[j] == items[j];
      }
      LastSymLatest(front, i, q);
    }
  }

  /** No item takes the directions `q`. */
  lemma {:induction false} LastSymNone(items: Table, q: string)
    requires forall j | 0 <= j < |items| :: Norm(items[j].1) != q
    ensures LastSym(items, q) == None
  {
    if items != [] {
      var front := items[..|items| - 1];
      forall j | 0 <= j < |front| ensures Norm(front[j].1) != q {
        assert front[j] == items[j];
      }
      LastSymNone(front, q);
    }
  }

  /** `rebuild_huffman_tree(huffman_codes)`: one insertion per dict item, in order. */
  method RebuildHuffmanTree(codes: Table) returns (root: Tree)
    ensures root == Rebuilt(codes)
    ensures forall p :: SymAt(root, p) == LastSym(codes, Norm(p))
  {
    root := Fresh;
    var k := 0;
    while k < |codes|
      invariant k <= |codes|
      invariant root == Rebuilt(codes[..k])
    {
      assert codes[..k + 1][..k] == codes[..k];
      root := Insert(root, codes[k].1, codes[k].0);
      k := k + 1;
    }
    assert codes[..k] == codes;
    forall p ensures SymAt(root, p) == LastSym(codes, Norm(p)) {
      RebuiltSymAt(codes, p);
    }
  }

  /** Following an item's code in the rebuilt tree reaches a node carrying the item's
      key, unless a later item's code takes the same directions and overwrites it. */
  lemma RebuiltReaches(codes: Table, i: nat)
    requires i < |codes|
    requires forall j | i < j < |codes| :: Norm(codes[j].1) != Norm(codes[i].1)
    ensures SymAt(Rebuilt(codes), codes[i].1) == Some(codes[i].0)
  {
    RebuiltSymAt(codes, codes[i].1);
    LastSymLatest(codes, i, Norm(codes[i].1));
  }

  /** A leaf's codes: its own symbol with the code that reaches it. */
  lemma LeafCodes(x: char, f: int, code: string, acc: Table)
    ensures CodesInto(Leaf(x, f), code, acc) == Put(acc, x, code)
  {
    var here := Put(acc, x, code);
    assert CodesInto(Nil, code + "0", here) == here;
  }
}
