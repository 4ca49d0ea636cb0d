/** The `HuffmanNode` class of the codec, seen as a value.

    A node has an optional symbol (`char`, which is `None` on merged and
    rebuilt interior nodes), a frequency and two nullable children. `Nil`
    stands for Python's `None` wherever a child, or the whole tree, is
    absent. */
module Nodes {
  import opened Outcomes

  datatype Tree = Nil | Node(sym: Option<char>, freq: int, left: Tree, right: Tree)

  /** A node as `HuffmanNode(char, freq)` creates it for a counted character. */
  function Leaf(c: char, f: int): Tree {
    Node(Some(c), f, Nil, Nil)
  }

  /** `HuffmanNode.__lt__`: nodes are ordered by frequency alone. */
  predicate LessThan(a: Tree, b: Tree)
    requires a.Node? && b.Node?
  {
    a.freq < b.freq
  }

  /** `__lt__` is a strict order, and two nodes it does not order either way have equal
      frequencies: ties are left to the heap's own positions. */
  lemma LessThanOrder(a: Tree, b: Tree, c: Tree)
    requires a.Node? && b.Node? && c.Node?
    ensures !LessThan(a, a)
    ensures LessThan(a, b) ==> !LessThan(b, a)
    ensures LessThan(a, b) && LessThan(b, c) ==> LessThan(a, c)
    ensures !LessThan(a, b) && !LessThan(b, a) <==> a.freq == b.freq
  {
  }

  /** The frequency of a node, 0 for an absent one. */
  function Weight(t: Tree): int {
    if t.Node? then t.freq else 0
  }

  /** One traversal step: the character '0' goes left, every other character goes right. */
  function Child(t: Tree, bit: char): Tree
    requires t.Node?
  {
    if bit == '0' then t.left else t.right
  }

  /** The node reached from `t` by following `path`, or `Nil` once the walk falls off the tree. */
  function Lookup(t: Tree, path: string): Tree
    decreases |path|
  {
    if path == [] then t
    else if t.Nil? then Nil
    else Lookup(Child(t, path[0]), path[1..])
  }

  /** The symbol stored at the end of `path`, `None` when that node is absent or carries none. */
  function SymAt(t: Tree, path: string): Option<char> {
    var n := Lookup(t, path);
    if n.Node? then n.sym else None
  }

  /** The number of nodes of `t` that carry the symbol `c`. */
  function Occurrences(t: Tree, c: char): nat {
    match t
    case Nil => 0
    case Node(s, _, l, r) => (if s == Some(c) then 1 else 0) + Occurrences(l, c) + Occurrences(r, c)
  }

  /** The number of nodes without a symbol (the merged nodes of a built tree). */
  function Internals(t: Tree): nat {
    match t
    case Nil => 0
    case Node(s, _, l, r) => (if s.None? then 1 else 0) + Internals(l) + Internals(r)
  }

  /** The shape `build_huffman_tree` produces: a leaf carries a symbol, a positive
      count and no children; a merged node carries no symbol, two children, the sum
      of their frequencies, and the first-popped (lighter) child on the left. */
  predicate Shaped(t: Tree) {
    match t
    case Nil => false
    case Node(s, f, l, r) =>
      if s.Some? then l.Nil? && r.Nil? && f >= 1
      else Shaped(l) && Shaped(r) && f == l.freq + r.freq && l.freq <= r.freq
  }

  /** Every character is '0' or '1'. */
  predicate IsBits(s: string) {
    forall i :: 0 <= i < |s| ==> s[i] == '0' || s[i] == '1'
  }

  /** `p` is a prefix of `q`. */
  predicate IsPrefix(p: string, q: string) {
    |p| <= |q| && q[..|p|] == p
  }

  /** Following `a` and then `b` is following `a + b`. */
  lemma {:induction false} LookupAppend(t: Tree, a: string, b: string)
    ensures Lookup(t, a + b) == Lookup(Lookup(t, a), b)
    decreases |a|
  {
    if a == [] {
      assert a + b == b;
    } else if t.Nil? {
      if b != [] {
        NilLookup(b);
      }
    } else {
      assert (a + b)[0] == a[0];
      assert (a + b)[1..] == a[1..] + b;
      LookupAppend(Child(t, a[0]), a[1..], b);
    }
  }

  /** Nothing is reached from an absent node. */
  lemma {:induction false} NilLookup(p: string)
    ensures Lookup(Nil, p) == Nil
  {
  }

  /** Every prefix of a path that reaches a node reaches a node too. */
  lemma LookupPrefix(t: Tree, p: string, k: nat)
    requires k <= |p|
    requires Lookup(t, p).Node?
    ensures Lookup(t, p[..k]).Node?
  {
    assert p == p[..k] + p[k..];
    LookupAppend(t, p[..k], p[k..]);
    if Lookup(t, p[..k]).Nil? {
      NilLookup(p[k..]);
    }
  }

  /** In a built tree the frequency of every node is positive. */
  lemma {:induction false} ShapedWeight(t: Tree)
    requires Shaped(t)
    ensures t.freq >= 1
  {
    if t.sym.None? {
      ShapedWeight(t.left);
      ShapedWeight(t.right);
    }
  }

  /** The number of nodes that carry a symbol (the leaves of a built tree). */
  function SymbolNodes(t: Tree): nat {
    match t
    case Nil => 0
    case Node(s, _, l, r) => (if s.Some? then 1 else 0) + SymbolNodes(l) + SymbolNodes(r)
  }

  /** A built tree has one more leaf than merged nodes. */
  lemma {:induction false} ShapedCounts(t: Tree)
    requires Shaped(t)
    ensures SymbolNodes(t) == Internals(t) + 1
  {
    if t.sym.None? {
      ShapedCounts(t.left);
      ShapedCounts(t.right);
    }
  }

  /** A leaf carries its own symbol and no other. */
  lemma LeafOccurrences(x: char, f: int, c: char)
    ensures Occurrences(Leaf(x, f), c) == if x == c then 1 else 0
  {
    assert Occurrences(Nil, c) == 0;
  }

  /** A leaf with a positive count is a built tree without merged nodes. */
  lemma LeafShape(x: char, f: int)
    requires f >= 1
    ensures Shaped(Leaf(x, f)) && Internals(Leaf(x, f)) == 0
  {
    assert Internals(Nil) == 0;
  }
}
