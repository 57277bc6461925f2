/** The code table (src/main.rs, generate_huffman_tree_map): every leaf's
    symbol mapped to the path from the root to that leaf, '0' for a step to
    the left child and '1' for a step to the right child. */
module Codes {
  import opened HuffmanNode

  datatype Option<T> = None | Some(value: T)

  /** The node reached from `n` by following `p`; None when `p` walks past
      a leaf or holds a character other than '0' and '1'. */
  function FollowPath<S>(n: Node<S>, p: seq<char>): Option<Node<S>>
  {
    if p == [] then Some(n)
    else if n.Leaf? then None
    else if p[0] == '0' then FollowPath(n.left, p[1..])
    else if p[0] == '1' then FollowPath(n.right, p[1..])
    else None
  }

  /** `p` leads from `n` to a leaf holding `s`. */
  predicate Reaches<S(==)>(n: Node<S>, p: seq<char>, s: S)
  {
    var m := FollowPath(n, p);
    m.Some? && m.value.Leaf? && m.value.sym == s
  }

  /** generate_huffman_tree_map: a leaf stores the path walked so far under
      its symbol; an internal node first fills in its left subtree with '0'
      appended, then its right subtree with '1' appended, so an entry made
      on the right replaces one made on the left for the same symbol. */
  function GenerateCodes<S(==)>(n: Node<S>, values: map<S, seq<char>>, current: seq<char>): (r: map<S, seq<char>>)
    ensures r.Keys == values.Keys + LeafSyms(n)
  {
    match n
    case Leaf(s, _) => values[s := current]
    case Internal(_, l, rt) =>
      GenerateCodes(rt, GenerateCodes(l, values, current + ['0']), current + ['1'])
  }

  /** The table encode_text builds: generate_huffman_tree_map from the root
      with an empty map and an empty path. */
  function CodeTable<S(==)>(root: Node<S>): (r: map<S, seq<char>>)
    ensures r.Keys == LeafSyms(root)
  {
    GenerateCodes(root, map[], [])
  }

  /** Following a path and then another is following their concatenation. */
  lemma {:induction false} FollowPathConcat<S>(n: Node<S>, p: seq<char>, q: seq<char>)
    requires FollowPath(n, p).Some?
    ensures FollowPath(n, p + q) == FollowPath(FollowPath(n, p).value, q)
  {
    if p == [] {
      assert p + q == q;
    } else {
      assert (p + q)[0] == p[0] && (p + q)[1..] == p[1..] + q;
      if p[0] == '0' {
        FollowPathConcat(n.left, p[1..], q);
      } else {
        FollowPathConcat(n.right, p[1..], q);
      }
    }
  }

  /** A path that can be followed is no longer than the number of internal
      nodes, and walks through '0' and '1' only. */
  lemma {:induction false} FollowPathBounds<S>(n: Node<S>, p: seq<char>)
    requires FollowPath(n, p).Some?
    ensures |p| <= InternalCount(n)
    ensures forall k :: 0 <= k < |p| ==> p[k] == '0' || p[k] == '1'
  {
    if p != [] {
      var child := if p[0] == '0' then n.left else n.right;
      FollowPathBounds(child, p[1..]);
      assert forall k :: 1 <= k < |p| ==> p[k] == p[1..][k - 1];
    }
  }

  /** What generate_huffman_tree_map stores: every leaf symbol of `n` gets the
      path walked so far followed by a path from `n` to a leaf holding that
      symbol; every other entry of `values` is left alone. */
  lemma {:induction false} GenerateCodesPaths<S>(n: Node<S>, values: map<S, seq<char>>, current: seq<char>)
    ensures forall s :: s in LeafSyms(n) ==>
      |current| <= |GenerateCodes(n, values, current)[s]| &&
      GenerateCodes(n, values, current)[s][..|current|] == current &&
      Reaches(n, GenerateCodes(n, values, current)[s][|current|..], s)
    ensures forall s :: s in values && s !in LeafSyms(n) ==>
      GenerateCodes(n, values, current)[s] == values[s]
  {
    match n
    case Leaf(_, _) =>
    case Internal(_, l, rt) =>
      var c0, c1 := current + ['0'], current + ['1'];
      var r1 := GenerateCodes(l, values, c0);
      var r := GenerateCodes(rt, r1, c1);
      GenerateCodesPaths(l, values, c0);
      GenerateCodesPaths(rt, r1, c1);
      forall s | s in LeafSyms(n)
        ensures |current| <= |r[s]| && r[s][..|current|] == current && Reaches(n, r[s][|current|..], s)
      {
        var b := if s in LeafSyms(rt) then '1' else '0';
        ExtendedPrefix(r[s], current, b);
        StepDown(n, b, r[s][|current| + 1..], s);
      }
  }

  /** A code that begins with `current + [b]` begins with `current`, and what
      follows `current` is `b` and then the rest. */
  lemma ExtendedPrefix(code: seq<char>, current: seq<char>, b: char)
    requires |current| + 1 <= |code| && code[..|current| + 1] == current + [b]
    ensures code[..|current|] == current
    ensures code[|current|..] == [b] + code[|current| + 1..]
  {
    assert code[..|current|] == code[..|current| + 1][..|current|];
  }

  /** One step from an internal node: '0' to the left child, '1' to the right. */
  lemma StepDown<S>(n: Node<S>, b: char, x: seq<char>, s: S)
    requires n.Internal? && (b == '0' || b == '1')
    ensures Reaches(n, [b] + x, s) <==> Reaches(if b == '0' then n.left else n.right, x, s)
  {
    assert ([b] + x)[1..] == x;
  }

  /** The code of every leaf symbol of the root leads to a leaf holding it. */
  lemma CodeTablePaths<S>(root: Node<S>)
    ensures forall s :: s in CodeTable(root) ==> Reaches(root, CodeTable(root)[s], s)
  {
    GenerateCodesPaths(root, map[], []);
    forall s | s in CodeTable(root)
      ensures Reaches(root, CodeTable(root)[s], s)
    {
      assert CodeTable(root)[s][0..] == CodeTable(root)[s];
    }
  }

  /** The codes are made of '0' and '1', no longer than the number of
      internal nodes, and, below an internal root, never empty. */
  lemma CodeTableShape<S>(root: Node<S>)
    ensures forall s :: s in CodeTable(root) ==>
      |CodeTable(root)[s]| <= InternalCount(root) &&
      forall k :: 0 <= k < |CodeTable(root)[s]| ==> CodeTable(root)[s][k] == '0' || CodeTable(root)[s][k] == '1'
    ensures root.Internal? ==> forall s :: s in CodeTable(root) ==> CodeTable(root)[s] != []
  {
    CodeTablePaths(root);
    forall s | s in CodeTable(root)
      ensures |CodeTable(root)[s]| <= InternalCount(root)
      ensures forall k :: 0 <= k < |CodeTable(root)[s]| ==> CodeTable(root)[s][k] == '0' || CodeTable(root)[s][k] == '1'
      ensures root.Internal? ==> CodeTable(root)[s] != []
    {
      FollowPathBounds(root, CodeTable(root)[s]);
    }
  }

  /** A root that is a single leaf gets the empty code for its symbol. */
  lemma SingleLeafCode<S>(root: Node<S>)
    requires root.Leaf?
    ensures CodeTable(root) == map[root.sym := []]
  {
  }

  /** Below a path that reaches a leaf there is nothing further to reach:
      a path extending it reaches the same leaf, or none. */
  lemma PrefixReachesSameLeaf<S>(n: Node<S>, p: seq<char>, p': seq<char>, s: S, t: S)
    requires Reaches(n, p, s) && Reaches(n, p', t)
    ensures p <= p' ==> p == p' && s == t
  {
    if p <= p' {
      var rest := p'[|p|..];
      assert p' == p + rest;
      FollowPathConcat(n, p, rest);
    }
  }

  /** The table is prefix-free: no code of one symbol begins another
      symbol's code (in particular no two symbols share a code). */
  lemma CodeTablePrefixFree<S>(root: Node<S>)
    ensures forall s, t :: s in CodeTable(root) && t in CodeTable(root) && s != t ==>
      !(CodeTable(root)[s] <= CodeTable(root)[t])
  {
    var table := CodeTable(root);
    CodeTablePaths(root);
    forall s, t | s in table && t in table && s != t
      ensures !(table[s] <= table[t])
    {
      PrefixReachesSameLeaf(root, table[s], table[t], s, t);
    }
  }
}
