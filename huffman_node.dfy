/** The Huffman tree node (src/main.rs, struct Node and Node::is_leaf).
    The source's struct holds an optional symbol and two optional children;
    every node the program builds is either a leaf (a symbol, no children) or
    an internal node (no symbol, both children).  The datatype below keeps
    exactly those two shapes, so "one child only" cannot be written down. */
module HuffmanNode {

  datatype Node<S> =
    | Leaf(sym: S, amount: nat)
    | Internal(amount: nat, left: Node<S>, right: Node<S>)
  {
    /** Node::is_leaf: neither child present, so the node is the only leaf
        of its subtree. */
    predicate IsLeaf(): (r: bool)
      ensures r <==> |Leaves(this)| == 1
    {
      Leaf?
    }
  }

  /** The leaves of a tree, left to right. */
  function Leaves<S>(n: Node<S>): (r: seq<Node<S>>)
    ensures |r| >= 1
    ensures n.Leaf? <==> |r| == 1
    ensures forall k :: 0 <= k < |r| ==> r[k].Leaf?
  {
    match n
    case Leaf(_, _) => [n]
    case Internal(_, l, rt) => Leaves(l) + Leaves(rt)
  }

  /** The symbols stored in the leaves of a tree. */
  function LeafSyms<S>(n: Node<S>): set<S>
  {
    match n
    case Leaf(s, _) => {s}
    case Internal(_, l, rt) => LeafSyms(l) + LeafSyms(rt)
  }

  /** Number of internal nodes, that is, of merges that built the tree. */
  function InternalCount<S>(n: Node<S>): nat
  {
    match n
    case Leaf(_, _) => 0
    case Internal(_, l, rt) => 1 + InternalCount(l) + InternalCount(rt)
  }

  /** Every internal node carries the sum of its children's amounts, and its
      right child (the first node popped) is never heavier than its left. */
  predicate WellFormed<S>(n: Node<S>)
  {
    match n
    case Leaf(_, _) => true
    case Internal(a, l, rt) =>
      a == l.amount + rt.amount && rt.amount <= l.amount && WellFormed(l) && WellFormed(rt)
  }

  /** Sum of the amounts of a collection of nodes. */
  function Sum<S>(v: seq<Node<S>>): nat
  {
    if v == [] then 0 else Sum(v[..|v| - 1]) + v[|v| - 1].amount
  }

  /** The leaves of a collection of trees, tree after tree. */
  function AllLeaves<S>(v: seq<Node<S>>): seq<Node<S>>
  {
    if v == [] then [] else AllLeaves(v[..|v| - 1]) + Leaves(v[|v| - 1])
  }

  lemma SumSnoc<S>(v: seq<Node<S>>, x: Node<S>)
    ensures Sum(v + [x]) == Sum(v) + x.amount
  {
    assert (v + [x])[..|v|] == v;
  }

  lemma AllLeavesSnoc<S>(v: seq<Node<S>>, x: Node<S>)
    ensures AllLeaves(v + [x]) == AllLeaves(v) + Leaves(x)
  {
    assert (v + [x])[..|v|] == v;
  }

  lemma {:induction false} SumCons<S>(x: Node<S>, v: seq<Node<S>>)
    ensures Sum([x] + v) == x.amount + Sum(v)
  {
    if v != [] {
      var w := v[..|v| - 1];
      assert ([x] + v)[..|v|] == [x] + w;
      SumCons(x, w);
    }
  }

  lemma {:induction false} AllLeavesCons<S>(x: Node<S>, v: seq<Node<S>>)
    ensures AllLeaves([x] + v) == Leaves(x) + AllLeaves(v)
  {
    if v != [] {
      var w := v[..|v| - 1];
      assert ([x] + v)[..|v|] == [x] + w;
      AllLeavesCons(x, w);
    }
  }

  /** Replacing one node of a collection changes the sum by the difference. */
  lemma {:induction false} SumUpdate<S>(v: seq<Node<S>>, j: nat, x: Node<S>)
    requires j < |v|
    ensures Sum(v[j := x]) + v[j].amount == Sum(v) + x.amount
  {
    var n := |v| - 1;
    if j < n {
      assert v[j := x][..n] == v[..n][j := x];
      SumUpdate(v[..n], j, x);
    } else {
      assert v[j := x][..n] == v[..n];
    }
  }

  /** A collection of leaves is its own list of leaves. */
  lemma {:induction false} AllLeavesOfLeaves<S>(v: seq<Node<S>>)
    requires forall k :: 0 <= k < |v| ==> v[k].Leaf?
    ensures AllLeaves(v) == v
  {
    if v != [] {
      var n := |v| - 1;
      AllLeavesOfLeaves(v[..n]);
      assert v == v[..n] + [v[n]];
    }
  }

  /** Every binary tree whose internal nodes have two children has one leaf
      more than it has internal nodes. */
  lemma {:induction false} LeavesOutnumberMerges<S>(n: Node<S>)
    ensures |Leaves(n)| == InternalCount(n) + 1
  {
    match n
    case Leaf(_, _) =>
    case Internal(_, l, rt) =>
      LeavesOutnumberMerges(l);
      LeavesOutnumberMerges(rt);
  }

  /** Every leaf's symbol is one of the tree's leaf symbols, and every leaf
      symbol belongs to some leaf. */
  lemma {:induction false} LeafSymsAreLeaves<S>(n: Node<S>)
    ensures forall x :: x in Leaves(n) ==> x.sym in LeafSyms(n)
    ensures forall s :: s in LeafSyms(n) ==> exists x :: x in Leaves(n) && x.sym == s
  {
    match n
    case Leaf(_, _) =>
    case Internal(_, l, rt) =>
      LeafSymsAreLeaves(l);
      LeafSymsAreLeaves(rt);
  }
}
