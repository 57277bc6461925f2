/** Encoding and decoding (src/main.rs, encode_text and decode_text). */
module Codec {
  import opened HuffmanNode
  import opened FrequencyCounter
  import opened TreeBuilder
  import opened Codes

  /** The codes of the symbols of `t`, one after another. */
  function Encode<S(==)>(table: map<S, seq<char>>, t: seq<S>): seq<char>
    requires forall i :: 0 <= i < |t| ==> t[i] in table
  {
    if t == [] then [] else table[t[0]] + Encode(table, t[1..])
  }

  lemma {:induction false} EncodeSnoc<S>(table: map<S, seq<char>>, t: seq<S>, x: S)
    requires forall i :: 0 <= i < |t| ==> t[i] in table
    requires x in table
    ensures Encode(table, t + [x]) == Encode(table, t) + table[x]
  {
    if t == [] {
      assert [x][1..] == [];
    } else {
      assert (t + [x])[1..] == t[1..] + [x];
      EncodeSnoc(table, t[1..], x);
    }
  }

  /** encode_text: count the symbols, build the tree, fill in the code table
      and append the code of every symbol of the text.  The source panics on
      an empty text (create_tree pops from an empty vector), hence the
      precondition. */
  method EncodeText<S(==)>(text: seq<S>) returns (root: Node<S>, result: seq<char>)
    requires |text| > 0
    ensures WellFormed(root) && root.amount == |text|
    ensures multiset(Leaves(root)) == multiset(Frequencies(text))
    ensures InternalCount(root) == |Distinct(text)| - 1 && |Leaves(root)| == |Distinct(text)|
    ensures root.Leaf? <==> |Distinct(text)| == 1
    ensures forall i :: 0 <= i < |text| ==> text[i] in CodeTable(root)
    ensures result == Encode(CodeTable(root), text)
  {
    var nodes := CountChars(text);
    assert text[0] in Distinct(text);
    ghost var merges;
    root, merges := CreateTree(nodes);
    TreeOfFrequencies(text, root);
    var values := GenerateCodes(root, map[], []);
    assert forall j :: 0 <= j < |text| ==> text[j] in values;
    result := [];
    for i := 0 to |text|
      invariant forall j :: 0 <= j < i ==> text[..i][j] in values
      invariant result == Encode(values, text[..i])
    {
      EncodePrefixStep(values, text, i);
      result := result + values[text[i]];
    }
    assert text[..|text|] == text;
  }

  /** Encoding one more symbol of the text appends its code. */
  lemma EncodePrefixStep<S>(table: map<S, seq<char>>, t: seq<S>, i: nat)
    requires i < |t|
    requires forall j :: 0 <= j < |t| ==> t[j] in table
    ensures Encode(table, t[..i + 1]) == Encode(table, t[..i]) + table[t[i]]
  {
    assert t[..i + 1] == t[..i] + [t[i]];
    EncodeSnoc(table, t[..i], t[i]);
  }

  /** What create_tree's contract gives for the leaves count_chars produced:
      a well-formed tree weighing the length of the text, with one leaf per
      distinct symbol and every symbol of the text among its leaves. */
  lemma TreeOfFrequencies<S>(text: seq<S>, root: Node<S>)
    requires root.amount == Sum(Frequencies(text))
    requires (forall k :: 0 <= k < |Frequencies(text)| ==> WellFormed(Frequencies(text)[k])) ==> WellFormed(root)
    requires (forall k :: 0 <= k < |Frequencies(text)| ==> Frequencies(text)[k].Leaf?) ==>
      multiset(Leaves(root)) == multiset(Frequencies(text)) && InternalCount(root) == |Frequencies(text)| - 1
    ensures WellFormed(root) && root.amount == |text|
    ensures multiset(Leaves(root)) == multiset(Frequencies(text))
    ensures InternalCount(root) == |Distinct(text)| - 1 && |Leaves(root)| == |Distinct(text)|
    ensures root.Leaf? <==> |Distinct(text)| == 1
    ensures forall i :: 0 <= i < |text| ==> text[i] in LeafSyms(root)
  {
    FrequenciesSpec(text);
    FrequenciesShapeTree(text, root);
  }

  /** A tree whose leaves are the leaves count_chars produced holds every
      symbol of the text, and has one leaf per distinct symbol. */
  lemma FrequenciesShapeTree<S>(text: seq<S>, root: Node<S>)
    requires multiset(Leaves(root)) == multiset(Frequencies(text))
    ensures forall i :: 0 <= i < |text| ==> text[i] in LeafSyms(root)
    ensures |Leaves(root)| == |Distinct(text)|
  {
    var f := Frequencies(text);
    FrequenciesSpec(text);
    LeafSymsAreLeaves(root);
    forall i | 0 <= i < |text|
      ensures text[i] in LeafSyms(root)
    {
      var k :| 0 <= k < |f| && f[k].sym == text[i];
      assert f[k] in multiset(f);
      assert f[k] in Leaves(root);
    }
    assert |multiset(Leaves(root))| == |multiset(f)|;
  }

  /** One step of decode_text's walk: '1' moves to the right child, any
      other character to the left child; a leaf has no child to move to. */
  function Step<S>(n: Node<S>, b: char): (m: Node<S>)
    ensures n.Internal? ==> m == n.left || m == n.right
    ensures n.Leaf? ==> m == n
  {
    if n.Leaf? then n else if b == '1' then n.right else n.left
  }

  /** What decode_text emits for `bits` when its walk stands at `cursor`:
      after every step that lands on a leaf, that leaf's symbol, and the walk
      goes back to the root `tree`.  A path that ends between leaves emits
      nothing. */
  function Decoded<S>(tree: Node<S>, cursor: Node<S>, bits: seq<char>): seq<S>
    decreases |bits|
  {
    if bits == [] then []
    else
      var next := Step(cursor, bits[0]);
      if next.Leaf? then [next.sym] + Decoded(tree, tree, bits[1..])
      else Decoded(tree, next, bits[1..])
  }

  /** decode_text: walk the tree bit by bit and emit a symbol at every leaf. */
  method DecodeText<S>(tree: Node<S>, input: seq<char>) returns (output: seq<S>)
    ensures output == Decoded(tree, tree, input)
  {
    output := [];
    var current := tree;
    for i := 0 to |input|
      invariant output + Decoded(tree, current, input[i..]) == Decoded(tree, tree, input)
    {
      var c := input[i];
      ghost var next := Step(current, c);
      DecodedAt(tree, current, input, i);
      if c == '1' {
        if current.Internal? {
          current := current.right;
        }
      } else if current.Internal? {
        current := current.left;
      }
      assert current == next;
      if current.IsLeaf() {
        assert output + [current.sym] + Decoded(tree, tree, input[i + 1..]) ==
          output + ([current.sym] + Decoded(tree, tree, input[i + 1..]));
        output := output + [current.sym];
        current := tree;
      }
    }
  }

  /** The walk's first step on the bits from position `i` on. */
  lemma DecodedAt<S>(tree: Node<S>, cursor: Node<S>, bits: seq<char>, i: nat)
    requires i < |bits|
    ensures Decoded(tree, cursor, bits[i..]) ==
      if Step(cursor, bits[i]).Leaf? then [Step(cursor, bits[i]).sym] + Decoded(tree, tree, bits[i + 1..])
      else Decoded(tree, Step(cursor, bits[i]), bits[i + 1..])
  {
    assert bits[i..][1..] == bits[i + 1..];
  }

  /** Decoding a code from an internal node emits the symbol of the leaf it
      reaches and sends the walk back to the root. */
  lemma {:induction false} DecodeCode<S>(tree: Node<S>, m: Node<S>, p: seq<char>, s: S, rest: seq<char>)
    requires m.Internal? && p != [] && Reaches(m, p, s)
    ensures Decoded(tree, m, p + rest) == [s] + Decoded(tree, tree, rest)
  {
    var next := Step(m, p[0]);
    assert FollowPath(m, p) == FollowPath(next, p[1..]);
    assert (p + rest)[0] == p[0] && (p + rest)[1..] == p[1..] + rest;
    if p[1..] == [] {
      assert p[1..] + rest == rest;
    } else {
      DecodeCode(tree, next, p[1..], s, rest);
    }
  }

  /** Decoding the encoding of `t` followed by more bits gives `t` followed by
      the decoding of those bits, as long as the root is internal. */
  lemma {:induction false} DecodeEncoded<S>(tree: Node<S>, t: seq<S>, q: seq<char>)
    requires tree.Internal?
    requires forall i :: 0 <= i < |t| ==> t[i] in CodeTable(tree)
    ensures Decoded(tree, tree, Encode(CodeTable(tree), t) + q) == t + Decoded(tree, tree, q)
  {
    if t == [] {
      assert Encode(CodeTable(tree), t) + q == q;
    } else {
      var table := CodeTable(tree);
      var code, e := table[t[0]], Encode(table, t[1..]);
      CodeTablePaths(tree);
      CodeTableShape(tree);
      assert code != [] && Reaches(tree, code, t[0]);
      assert Encode(table, t) + q == code + (e + q);
      DecodeCode(tree, tree, code, t[0], e + q);
      DecodeEncoded(tree, t[1..], q);
      assert t == [t[0]] + t[1..];
    }
  }

  /** Round trip: below an internal root, decoding the encoding gives back
      the text. */
  lemma RoundTrip<S>(tree: Node<S>, t: seq<S>)
    requires tree.Internal?
    requires forall i :: 0 <= i < |t| ==> t[i] in CodeTable(tree)
    ensures Decoded(tree, tree, Encode(CodeTable(tree), t)) == t
  {
    DecodeEncoded(tree, t, []);
    assert Encode(CodeTable(tree), t) + [] == Encode(CodeTable(tree), t);
  }

  /** A walk that ends at an internal node never landed on a leaf, so it
      emits nothing. */
  lemma {:induction false} PartialPathEmitsNothing<S>(tree: Node<S>, m: Node<S>, p: seq<char>)
    requires FollowPath(m, p).Some? && FollowPath(m, p).value.Internal?
    ensures Decoded(tree, m, p) == []
  {
    if p != [] {
      var next := Step(m, p[0]);
      assert FollowPath(m, p) == FollowPath(next, p[1..]);
      PartialPathEmitsNothing(tree, next, p[1..]);
    }
  }

  /** Bits left over after the last complete code, a path from the root that
      stops at an internal node, are dropped. */
  lemma TrailingPartialPathDropped<S>(tree: Node<S>, t: seq<S>, p: seq<char>)
    requires tree.Internal?
    requires forall i :: 0 <= i < |t| ==> t[i] in CodeTable(tree)
    requires FollowPath(tree, p).Some? && FollowPath(tree, p).value.Internal?
    ensures Decoded(tree, tree, Encode(CodeTable(tree), t) + p) == t
  {
    DecodeEncoded(tree, t, p);
    PartialPathEmitsNothing(tree, tree, p);
  }

  /** A tree that is a single leaf never moves, so every bit emits its
      symbol. */
  lemma {:induction false} SingleLeafDecoding<S>(tree: Node<S>, bits: seq<char>)
    requires tree.Leaf?
    ensures Decoded(tree, tree, bits) == seq(|bits|, _ => tree.sym)
  {
    if bits != [] {
      SingleLeafDecoding(tree, bits[1..]);
    }
  }

  /** A text made of the one symbol of a single-leaf tree encodes to nothing. */
  lemma {:induction false} SingleLeafEncoding<S>(tree: Node<S>, t: seq<S>)
    requires tree.Leaf?
    requires forall i :: 0 <= i < |t| ==> t[i] == tree.sym
    ensures forall i :: 0 <= i < |t| ==> t[i] in CodeTable(tree)
    ensures Encode(CodeTable(tree), t) == []
  {
    SingleLeafCode(tree);
    if t != [] {
      SingleLeafEncoding(tree, t[1..]);
    }
  }

  /** When every code has between `lo` and `hi` bits, the encoding of `t`
      has between `lo * |t|` and `hi * |t|` bits. */
  lemma {:induction false} EncodedLength<S>(table: map<S, seq<char>>, t: seq<S>, lo: nat, hi: nat)
    requires forall i :: 0 <= i < |t| ==> t[i] in table
    requires forall s :: s in table ==> lo <= |table[s]| <= hi
    ensures lo * |t| <= |Encode(table, t)| <= hi * |t|
  {
    if t != [] {
      EncodedLength(table, t[1..], lo, hi);
    }
  }

  /** encode_text followed by decode_text, as the demo program does: with
      two or more distinct symbols the text comes back; with one symbol the
      encoding is empty and so is its decoding.  Every symbol costs at least
      one bit and at most one bit fewer than the number of distinct
      symbols. */
  method EncodeDecode<S(==)>(text: seq<S>) returns (root: Node<S>, bits: seq<char>, decoded: seq<S>)
    requires |text| > 0
    ensures |Leaves(root)| == |Distinct(text)|
    ensures |Distinct(text)| >= 2 ==> decoded == text
    ensures |Distinct(text)| >= 2 ==> |text| <= |bits| <= (|Distinct(text)| - 1) * |text|
    ensures |Distinct(text)| == 1 ==> bits == [] && decoded == []
  {
    root, bits := EncodeText(text);
    decoded := DecodeText(root, bits);
    CodeTableShape(root);
    if root.Internal? {
      RoundTrip(root, text);
      EncodedLength(CodeTable(root), text, 1, InternalCount(root));
    } else {
      SingleLeafEncoding(root, text);
    }
  }
}
