/** `build_huffman_tree` (Logic.py, copied in web_interface_expanded.py): count the
    characters, then merge the two lightest nodes of a min-heap until one is left.

    The heap is a sequence of trees; `PopMin` takes out SOME node of least frequency
    (heapq's tie-break among equal frequencies is not modelled) and a push appends. */
module Builder {
  import opened Outcomes
  import opened Nodes

  /** The number of occurrences of `c` in `s` (`Counter(text)[c]`). */
  function Count(s: string, c: char): nat {
    multiset(s)[c]
  }

  /** No character occurs twice in `s`. */
  predicate NoDup(s: string) {
    forall i, j :: 0 <= i < j < |s| ==> s[i] != s[j]
  }

  /** The keys of `Counter(text)` in insertion order: each character at its first occurrence. */
  function Distinct(s: string): (d: string)
    ensures NoDup(d)
    ensures forall c :: c in d <==> c in s
    decreases |s|
  {
    if s == [] then []
    else
      var d := Distinct(s[..|s| - 1]);
      var x := s[|s| - 1];
      assert s == s[..|s| - 1] + [x];
      if x in d then d else d + [x]
  }

  /** The initial heap `[HuffmanNode(char, freq) for char, freq in freq.items()]`
      for the counted characters `d`: one leaf per character, carrying its count. */
  function LeafHeap(d: string, text: string): (h: seq<Tree>)
    ensures |h| == |d|
    ensures forall k :: 0 <= k < |d| ==> h[k] == Leaf(d[k], Count(text, d[k]))
    decreases |d|
  {
    if d == [] then [] else LeafHeap(d[..|d| - 1], text) + [Leaf(d[|d| - 1], Count(text, d[|d| - 1]))]
  }

  /** The sum of the counts of the characters `d` in `text`. */
  function SumCounts(d: string, text: string): int
    decreases |d|
  {
    if d == [] then 0 else SumCounts(d[..|d| - 1], text) + Count(text, d[|d| - 1])
  }

  /** Every node of `t` that carries a symbol carries that symbol's count in `text`. */
  predicate CountsOf(t: Tree, text: string) {
    match t
    case Nil => true
    case Node(s, f, l, r) => (s.Some? ==> f == Count(text, s.value)) && CountsOf(l, text) && CountsOf(r, text)
  }

  /** The number of heap nodes that carry `c`, over all trees of the heap. */
  function HeapOccurrences(h: seq<Tree>, c: char): nat {
    if h == [] then 0 else Occurrences(h[0], c) + HeapOccurrences(h[1..], c)
  }

  /** The total frequency of a heap. */
  function HeapWeight(h: seq<Tree>): int {
    if h == [] then 0 else Weight(h[0]) + HeapWeight(h[1..])
  }

  /** The number of merged nodes in a heap. */
  function HeapInternals(h: seq<Tree>): nat {
    if h == [] then 0 else Internals(h[0]) + HeapInternals(h[1..])
  }

  /** `h` without its element at index `i`. */
  function RemoveIndex(h: seq<Tree>, i: nat): seq<Tree>
    requires i < |h|
  {
    if i == 0 then h[1..] else [h[0]] + RemoveIndex(h[1..], i - 1)
  }

  lemma {:induction false} RemoveIndexSlices(h: seq<Tree>, i: nat)
    requires i < |h|
    ensures RemoveIndex(h, i) == h[..i] + h[i + 1..]
    decreases i
  {
    if i > 0 {
      RemoveIndexSlices(h[1..], i - 1);
    }
  }

  /** The node at index `i` has no smaller frequency than any other node of `h`. */
  predicate IsMinAt(h: seq<Tree>, i: nat)
    requires i < |h|
    requires forall t | t in h :: t.Node?
  {
    forall j :: 0 <= j < |h| ==> !LessThan(h[j], h[i])
  }

  /** A non-empty heap has a least element. */
  lemma {:induction false} MinExists(h: seq<Tree>)
    requires |h| > 0
    requires forall t | t in h :: t.Node?
    ensures exists i: nat :: i < |h| && IsMinAt(h, i)
  {
    if |h| == 1 {
      assert IsMinAt(h, 0);
    } else {
      var front := h[..|h| - 1];
      assert forall t | t in front :: t in h;
      MinExists(front);
      var i: nat :| i < |front| && IsMinAt(front, i);
      if h[i].freq <= h[|h| - 1].freq {
        assert IsMinAt(h, i);
      } else {
        assert IsMinAt(h, |h| - 1);
      }
    }
  }

  /** `heapq.heappop`: removes and returns a node that no other node of the heap
      is `__lt__`; `i` is where it was. */
  method PopMin(heap: seq<Tree>) returns (m: Tree, rest: seq<Tree>, ghost i: nat)
    requires |heap| > 0
    requires forall t | t in heap :: t.Node?
    ensures i < |heap| && m == heap[i] && rest == heap[..i] + heap[i + 1..]
    ensures m.Node? && forall t | t in heap :: !LessThan(t, m)
  {
    MinExists(heap);
    var k: nat :| k < |heap| && IsMinAt(heap, k);
    m := heap[k];
    rest := heap[..k] + heap[k + 1..];
    i := k;
  }

  /** The summaries of a heap split over a concatenation. */
  lemma {:induction false} HeapAppend(a: seq<Tree>, b: seq<Tree>)
    ensures HeapWeight(a + b) == HeapWeight(a) + HeapWeight(b)
    ensures HeapInternals(a + b) == HeapInternals(a) + HeapInternals(b)
    decreases |a|
  {
    if a == [] {
      assert a + b == b;
    } else {
      assert (a + b)[0] == a[0];
      assert (a + b)[1..] == a[1..] + b;
      HeapAppend(a[1..], b);
    }
  }

  lemma {:induction false} HeapAppendOccurrences(a: seq<Tree>, b: seq<Tree>, c: char)
    ensures HeapOccurrences(a + b, c) == HeapOccurrences(a, c) + HeapOccurrences(b, c)
    decreases |a|
  {
    if a == [] {
      assert a + b == b;
    } else {
      assert (a + b)[0] == a[0];
      assert (a + b)[1..] == a[1..] + b;
      HeapAppendOccurrences(a[1..], b, c);
    }
  }

  /** Taking out the node at `i` takes out exactly its own weight and merged nodes. */
  lemma {:induction false} RemoveAt(h: seq<Tree>, i: nat)
    requires i < |h|
    ensures HeapWeight(h) == HeapWeight(RemoveIndex(h, i)) + Weight(h[i])
    ensures HeapInternals(h) == HeapInternals(RemoveIndex(h, i)) + Internals(h[i])
    decreases i
  {
    if i > 0 {
      RemoveAt(h[1..], i - 1);
      var t := RemoveIndex(h[1..], i - 1);
      assert ([h[0]] + t)[0] == h[0];
      assert ([h[0]] + t)[1..] == t;
    }
  }

  /** Taking out the node at `i` takes out exactly its own symbols. */
  lemma {:induction false} RemoveAtOccurrences(h: seq<Tree>, i: nat, c: char)
    requires i < |h|
    ensures HeapOccurrences(h, c) == HeapOccurrences(RemoveIndex(h, i), c) + Occurrences(h[i], c)
    decreases i
  {
    if i > 0 {
      RemoveAtOccurrences(h[1..], i - 1, c);
      var t := RemoveIndex(h[1..], i - 1);
      assert ([h[0]] + t)[0] == h[0];
      assert ([h[0]] + t)[1..] == t;
    }
  }

  /** The initial heap holds each listed character once. */
  lemma {:induction false} LeafHeapOccurrences(d: string, text: string, c: char)
    requires NoDup(d)
    ensures HeapOccurrences(LeafHeap(d, text), c) == if c in d then 1 else 0
    decreases |d|
  {
    if d != [] {
      var front := d[..|d| - 1];
      var x := d[|d| - 1];
      var leaf := Leaf(x, Count(text, x));
      assert d == front + [x];
      assert x !in front;
      assert LeafHeap(d, text) == LeafHeap(front, text) + [leaf];
      LeafHeapOccurrences(front, text, c);
      HeapAppendOccurrences(LeafHeap(front, text), [leaf], c);
      assert [leaf][1..] == [];
      assert HeapOccurrences([leaf], c) == Occurrences(leaf, c);
      assert Occurrences(leaf, c) == if c == x then 1 else 0;
    }
  }

  /** The initial heap weighs the counts of the listed characters and has no merged nodes. */
  lemma {:induction false} LeafHeapWeight(d: string, text: string)
    ensures HeapWeight(LeafHeap(d, text)) == SumCounts(d, text)
    ensures HeapInternals(LeafHeap(d, text)) == 0
    decreases |d|
  {
    if d != [] {
      var front := d[..|d| - 1];
      var leaf := Leaf(d[|d| - 1], Count(text, d[|d| - 1]));
      assert LeafHeap(d, text) == LeafHeap(front, text) + [leaf];
      LeafHeapWeight(front, text);
      HeapAppend(LeafHeap(front, text), [leaf]);
      assert [leaf][1..] == [];
      assert HeapWeight([leaf]) == Weight(leaf);
      assert HeapInternals([leaf]) == Internals(leaf) == 0;
    }
  }

  /** Appending one character adds one to the count sum when the character is listed (once). */
  lemma {:induction false} SumCountsSnoc(d: string, s: string, x: char)
    requires NoDup(d)
    ensures SumCounts(d, s + [x]) == SumCounts(d, s) + (if x in d then 1 else 0)
    decreases |d|
  {
    if d != [] {
      var front := d[..|d| - 1];
      var y := d[|d| - 1];
      assert d == front + [y];
      SumCountsSnoc(front, s, x);
      assert multiset(s + [x]) == multiset(s) + multiset{x};
      assert x == y ==> x !in front;
    }
  }

  /** The counts of all the distinct characters of `s` add up to its length. */
  lemma {:induction false} SumCountsIsLength(d: string, s: string)
    requires NoDup(d)
    requires forall c :: c in s ==> c in d
    ensures SumCounts(d, s) == |s|
    decreases |s|
  {
    if s == [] {
      ZeroCounts(d, s);
    } else {
      var front := s[..|s| - 1];
      assert s == front + [s[|s| - 1]];
      SumCountsIsLength(d, front);
      SumCountsSnoc(d, front, s[|s| - 1]);
    }
  }

  /** No character occurs in the empty text. */
  lemma {:induction false} ZeroCounts(d: string, s: string)
    requires s == []
    ensures SumCounts(d, s) == 0
    decreases |d|
  {
    if d != [] {
      ZeroCounts(d[..|d| - 1], s);
    }
  }

  /** What `build_huffman_tree(text)` returns for a non-empty text. */
  ghost predicate IsHuffmanTreeOf(t: Tree, text: string) {
    && Shaped(t)
    && t.freq == |text|
    && (forall c :: Occurrences(t, c) == if c in text then 1 else 0)
    && CountsOf(t, text)
    && Internals(t) == |Distinct(text)| - 1
  }

  /** The invariant of the merge loop: every heap node is a built tree whose leaves carry
      their counts; together the trees hold each character of the text once, the whole
      text's weight, and one merged node for every leaf that is no longer a heap entry. */
  ghost predicate HeapInv(heap: seq<Tree>, text: string) {
    && (forall t | t in heap :: Shaped(t) && CountsOf(t, text))
    && (forall c :: HeapOccurrences(heap, c) == if c in text then 1 else 0)
    && HeapWeight(heap) == |text|
    && HeapInternals(heap) + |heap| == |Distinct(text)|
  }

  /** After popping two built trees and pushing their merge, the heap still holds built trees. */
  lemma MergeShapes(heap: seq<Tree>, rest: seq<Tree>, rest': seq<Tree>, i: nat, j: nat, text: string)
    requires forall t | t in heap :: Shaped(t) && CountsOf(t, text)
    requires i < |heap| && rest == heap[..i] + heap[i + 1..]
    requires j < |rest| && rest' == rest[..j] + rest[j + 1..]
    requires heap[i].Node? && rest[j].Node? && heap[i].freq <= rest[j].freq
    ensures forall t | t in rest' + [Node(None, heap[i].freq + rest[j].freq, heap[i], rest[j])] ::
      Shaped(t) && CountsOf(t, text)
  {
    var left, right := heap[i], rest[j];
    var merged := Node(None, left.freq + right.freq, left, right);
    assert right in heap by {
      assert rest[j] in heap[..i] || rest[j] in heap[i + 1..];
    }
    assert Shaped(merged) && CountsOf(merged, text);
    forall t | t in rest' + [merged] ensures Shaped(t) && CountsOf(t, text) {
      if t != merged {
        assert t in rest[..j] || t in rest[j + 1..];
        assert t in heap[..i] || t in heap[i + 1..];
      }
    }
  }

  /** Popping two nodes and pushing their merge keeps the weight of the heap, and
      trades one heap entry for one merged node. */
  lemma MergeSums(heap: seq<Tree>, rest: seq<Tree>, rest': seq<Tree>, i: nat, j: nat, heap': seq<Tree>)
    requires i < |heap| && rest == heap[..i] + heap[i + 1..]
    requires j < |rest| && rest' == rest[..j] + rest[j + 1..]
    requires heap[i].Node? && rest[j].Node?
    requires heap' == rest' + [Node(None, heap[i].freq + rest[j].freq, heap[i], rest[j])]
    ensures HeapWeight(heap') == HeapWeight(heap)
    ensures HeapInternals(heap') + |heap'| == HeapInternals(heap) + |heap|
  {
    var merged := Node(None, heap[i].freq + rest[j].freq, heap[i], rest[j]);
    RemoveIndexSlices(heap, i);
    RemoveIndexSlices(rest, j);
    RemoveAt(heap, i);
    RemoveAt(rest, j);
    HeapAppend(rest', [merged]);
    assert [merged][1..] == [];
  }

  /** Popping two nodes and pushing their merge keeps the symbols of the heap. */
  lemma MergeOccurrences(heap: seq<Tree>, rest: seq<Tree>, rest': seq<Tree>, i: nat, j: nat, heap': seq<Tree>, c: char)
    requires i < |heap| && rest == heap[..i] + heap[i + 1..]
    requires j < |rest| && rest' == rest[..j] + rest[j + 1..]
    requires heap[i].Node? && rest[j].Node?
    requires heap' == rest' + [Node(None, heap[i].freq + rest[j].freq, heap[i], rest[j])]
    ensures HeapOccurrences(heap', c) == HeapOccurrences(heap, c)
  {
    var merged := Node(None, heap[i].freq + rest[j].freq, heap[i], rest[j]);
    RemoveIndexSlices(heap, i);
    RemoveIndexSlices(rest, j);
    RemoveAtOccurrences(heap, i, c);
    RemoveAtOccurrences(rest, j, c);
    HeapAppendOccurrences(rest', [merged], c);
    assert [merged][1..] == [];
  }

  /** Popping two nodes and pushing their merge keeps the invariant. */
  lemma MergeStep(heap: seq<Tree>, rest: seq<Tree>, rest': seq<Tree>, i: nat, j: nat, text: string)
    requires HeapInv(heap, text)
    requires i < |heap| && rest == heap[..i] + heap[i + 1..]
    requires j < |rest| && rest' == rest[..j] + rest[j + 1..]
    requires heap[i].Node? && rest[j].Node? && heap[i].freq <= rest[j].freq
    ensures HeapInv(rest' + [Node(None, heap[i].freq + rest[j].freq, heap[i], rest[j])], text)
  {
    var heap' := rest' + [Node(None, heap[i].freq + rest[j].freq, heap[i], rest[j])];
    MergeShapes(heap, rest, rest', i, j, text);
    MergeSums(heap, rest, rest', i, j, heap');
    forall c ensures HeapOccurrences(heap', c) == if c in text then 1 else 0 {
      MergeOccurrences(heap, rest, rest', i, j, heap', c);
    }
  }

  /** The heap built from the counted characters satisfies the loop invariant. */
  lemma InitialHeap(text: string)
    ensures HeapInv(LeafHeap(Distinct(text), text), text)
  {
    var d := Distinct(text);
    var h := LeafHeap(d, text);
    LeafHeapWeight(d, text);
    SumCountsIsLength(d, text);
    forall c ensures HeapOccurrences(h, c) == if c in text then 1 else 0 {
      LeafHeapOccurrences(d, text, c);
    }
    forall t | t in h ensures Shaped(t) && CountsOf(t, text) {
      var k :| 0 <= k < |h| && h[k] == t;
      assert d[k] in text;
      assert Count(text, d[k]) >= 1;
    }
  }

  /** A one-tree heap summarises its only tree. */
  lemma SingleHeap(heap: seq<Tree>, text: string)
    requires HeapInv(heap, text) && |heap| == 1
    ensures IsHuffmanTreeOf(heap[0], text)
  {
    assert heap[1..] == [];
    assert heap[0] in heap;
    assert HeapWeight(heap) == Weight(heap[0]) + HeapWeight(heap[1..]);
    assert HeapInternals(heap) == Internals(heap[0]) + HeapInternals(heap[1..]);
    forall c ensures Occurrences(heap[0], c) == if c in text then 1 else 0 {
      assert HeapOccurrences(heap, c) == Occurrences(heap[0], c) + HeapOccurrences(heap[1..], c);
    }
  }

  /** `build_huffman_tree(text)`. An empty text leaves the heap empty and `heap[0]`
      raises IndexError. Otherwise the result is a built tree whose frequency is the
      text's length, whose leaves are the text's distinct characters, each exactly once
      and carrying its count, and which has one merged node fewer than leaves. */
  method BuildHuffmanTree(text: string) returns (r: Result<Tree>)
    ensures r.Err? <==> text == []
    ensures r.Err? ==> r.error == IndexError
    ensures r.Ok? ==> IsHuffmanTreeOf(r.value, text)
  {
    var heap := LeafHeap(Distinct(text), text);
    InitialHeap(text);
    while |heap| > 1
      invariant HeapInv(heap, text)
      decreases |heap|
    {
      var left, rest, i := PopMin(heap);
      var right, rest', j := PopMin(rest);
      assert right in heap by {
        assert rest[j] in heap[..i] || rest[j] in heap[i + 1..];
      }
      MergeStep(heap, rest, rest', i, j, text);
      heap := rest' + [Node(None, left.freq + right.freq, left, right)];
    }
    if |heap| == 0 {
      return Err(IndexError);
    }
    SingleHeap(heap, text);
    r := Ok(heap[0]);
  }

  /** A non-empty text made of one character repeated has that character as its only
      distinct character. */
  lemma {:induction false} DistinctOfRepeat(s: string, x: char)
    requires s != []
    requires forall i | 0 <= i < |s| :: s[i] == x
    ensures Distinct(s) == [x]
    decreases |s|
  {
    var front := s[..|s| - 1];
    if front != [] {
      DistinctOfRepeat(front, x);
    }
  }

  /** A text with at least two distinct characters yields a merged root (no symbol);
      a text with one yields a bare leaf carrying that character and the text's length. */
  lemma BuiltRoot(t: Tree, text: string)
    requires IsHuffmanTreeOf(t, text)
    ensures t.sym.None? <==> |Distinct(text)| >= 2
    ensures |Distinct(text)| == 1 ==> t == Leaf(text[0], |text|)
  {
    ShapedWeight(t);
    if t.sym.Some? {
      var x := t.sym.value;
      assert t == Leaf(x, t.freq);
      forall i | 0 <= i < |text| ensures text[i] == x {
        assert text[i] in text;
        assert Occurrences(t, text[i]) == 1;
      }
      DistinctOfRepeat(text, x);
    } else {
      assert Internals(t) >= 1;
    }
  }

  /** A character already in the text leaves its distinct characters as they are. */
  lemma DistinctKeep(s: string, x: char)
    requires x in s
    ensures Distinct(s + [x]) == Distinct(s)
  {
    assert (s + [x])[..|s|] == s;
  }

  /** A new character is appended to the distinct characters. */
  lemma DistinctAdd(s: string, x: char)
    requires x !in s
    ensures Distinct(s + [x]) == Distinct(s) + [x]
  {
    assert (s + [x])[..|s|] == s;
  }

  /** The distinct characters of a text shaped like "ab". */
  lemma DistinctOfTwo(a: char, b: char)
    requires a != b
    ensures Distinct([a] + [b]) == [a] + [b]
  {
    DistinctAdd([], a);
    assert [] + [a] == [a];
    DistinctAdd([a], b);
  }

  /** The distinct characters of a text shaped like "ccdde". */
  lemma DistinctOfFive(c: char, d: char, e: char)
    requires c != d && c != e && d != e
    ensures Distinct([c] + [c] + [d] + [d] + [e]) == [c] + [d] + [e]
  {
    var s1: string := [c];
    var s2 := s1 + [c];
    var s3 := s2 + [d];
    var s4 := s3 + [d];
    DistinctAdd([], c);
    assert [] + [c] == s1;
    DistinctKeep(s1, c);
    DistinctAdd(s2, d);
    assert d in s3;
    DistinctKeep(s3, d);
    assert e !in s4;
    DistinctAdd(s4, e);
  }

  /** A leaf carrying the count of its character in `text`. */
  lemma LeafCounts(x: char, text: string)
    ensures CountsOf(Leaf(x, Count(text, x)), text)
  {
    assert CountsOf(Nil, text);
  }
}
