/** Tree construction (src/main.rs, create_tree): sort the nodes by
    descending amount, pop the two lightest, push an internal node above
    them, until a single node is left. */
module TreeBuilder {
  import opened HuffmanNode

  /** Ordered by descending amount. */
  predicate SortedDesc<S>(v: seq<Node<S>>)
  {
    forall i, j :: 0 <= i < j < |v| ==> v[i].amount >= v[j].amount
  }

  /** The nodes of `v` whose amount is `a`, in their order in `v`. */
  function WithAmount<S>(v: seq<Node<S>>, a: nat): seq<Node<S>>
  {
    if v == [] then [] else (if v[0].amount == a then [v[0]] else []) + WithAmount(v[1..], a)
  }

  /** Places `x` in front of the first node of `s` that is not heavier. */
  function Insert<S(==)>(x: Node<S>, s: seq<Node<S>>): (r: seq<Node<S>>)
    ensures |r| == |s| + 1
    ensures multiset(r) == multiset{x} + multiset(s)
  {
    if s == [] || s[0].amount <= x.amount then [x] + s
    else
      assert s == [s[0]] + s[1..];
      [s[0]] + Insert(x, s[1..])
  }

  /** Inserting into a descending sequence keeps it descending. */
  lemma {:induction false} InsertSorted<S>(x: Node<S>, s: seq<Node<S>>)
    requires SortedDesc(s)
    ensures SortedDesc(Insert(x, s))
  {
    if s != [] && s[0].amount > x.amount {
      var t := Insert(x, s[1..]);
      InsertSorted(x, s[1..]);
      forall k | 0 <= k < |t|
        ensures t[k].amount <= s[0].amount
      {
        assert t[k] in multiset(t);
        if t[k] != x {
          assert t[k] in s[1..];
        }
      }
      assert Insert(x, s) == [s[0]] + t;
    }
  }

  /** Inserting `x` puts it before every node of equal amount and leaves the
      order of the others alone: insertion is stable. */
  lemma {:induction false} InsertStable<S>(x: Node<S>, s: seq<Node<S>>, a: nat)
    ensures WithAmount(Insert(x, s), a) == (if x.amount == a then [x] else []) + WithAmount(s, a)
  {
    if s == [] || s[0].amount <= x.amount {
      WithAmountCons(x, s, a);
    } else {
      var t := Insert(x, s[1..]);
      InsertStable(x, s[1..], a);
      WithAmountCons(s[0], t, a);
      assert s == [s[0]] + s[1..];
      WithAmountCons(s[0], s[1..], a);
      if x.amount == a {
        assert s[0].amount != a;
      }
    }
  }

  lemma WithAmountCons<S>(y: Node<S>, t: seq<Node<S>>, a: nat)
    ensures WithAmount([y] + t, a) == (if y.amount == a then [y] else []) + WithAmount(t, a)
  {
    assert ([y] + t)[1..] == t;
  }

  /** The model of `nodes.sort_by(|a, b| b.amount.cmp(&a.amount))`, an
      insertion sort; SortIsStableDescending below states what it computes. */
  function SortByAmountDesc<S(==)>(v: seq<Node<S>>): (r: seq<Node<S>>)
    ensures |r| == |v|
    ensures multiset(r) == multiset(v)
  {
    if v == [] then []
    else
      assert v == [v[0]] + v[1..];
      Insert(v[0], SortByAmountDesc(v[1..]))
  }

  /** The model sorts by descending amount. */
  lemma {:induction false} SortIsDescending<S>(v: seq<Node<S>>)
    ensures SortedDesc(SortByAmountDesc(v))
  {
    if v != [] {
      SortIsDescending(v[1..]);
      InsertSorted(v[0], SortByAmountDesc(v[1..]));
    }
  }

  /** Rust's sort_by is a stable sort, and so is the model: the result is
      ordered by descending amount, is a permutation of the input, and keeps
      the input order among nodes of equal amount. */
  lemma {:induction false} SortIsStableDescending<S>(v: seq<Node<S>>)
    ensures SortedDesc(SortByAmountDesc(v))
    ensures multiset(SortByAmountDesc(v)) == multiset(v)
    ensures forall a :: WithAmount(SortByAmountDesc(v), a) == WithAmount(v, a)
  {
    if v != [] {
      var t := SortByAmountDesc(v[1..]);
      SortIsStableDescending(v[1..]);
      SortIsDescending(v);
      forall a
        ensures WithAmount(SortByAmountDesc(v), a) == WithAmount(v, a)
      {
        InsertStable(v[0], t, a);
      }
    }
  }

  /** Every node WithAmount keeps is a node of `v` with that amount. */
  lemma {:induction false} WithAmountMembers<S>(v: seq<Node<S>>, a: nat)
    ensures forall k :: 0 <= k < |WithAmount(v, a)| ==> WithAmount(v, a)[k] in v && WithAmount(v, a)[k].amount == a
  {
    if v != [] {
      WithAmountMembers(v[1..], a);
    }
  }

  /** Two descending sequences that agree on the order of the nodes of every
      amount are the same sequence. */
  lemma {:induction false} StableOrderDetermines<S>(r1: seq<Node<S>>, r2: seq<Node<S>>)
    requires SortedDesc(r1) && SortedDesc(r2)
    requires forall a :: WithAmount(r1, a) == WithAmount(r2, a)
    ensures r1 == r2
  {
    if r1 == [] || r2 == [] {
      assert r1 != [] ==> WithAmount(r1, r1[0].amount) != [];
      assert r2 != [] ==> WithAmount(r2, r2[0].amount) != [];
    } else {
      var m1, m2 := r1[0].amount, r2[0].amount;
      assert WithAmount(r1, m1)[0] == r1[0];
      assert WithAmount(r2, m2)[0] == r2[0];
      WithAmountMembers(r1, m2);
      WithAmountMembers(r2, m1);
      assert WithAmount(r1, m1) != [];
      assert m1 <= m2 by {
        var y := WithAmount(r2, m1)[0];
        var k :| 0 <= k < |r2| && r2[k] == y;
      }
      assert m2 <= m1 by {
        var y := WithAmount(r1, m2)[0];
        var k :| 0 <= k < |r1| && r1[k] == y;
      }
      assert r1[0] == r2[0];
      forall a
        ensures WithAmount(r1[1..], a) == WithAmount(r2[1..], a)
      {
        var h := if m1 == a then [r1[0]] else [];
        assert WithAmount(r1, a) == h + WithAmount(r1[1..], a);
        assert WithAmount(r2, a) == h + WithAmount(r2[1..], a);
        assert WithAmount(r1[1..], a) == (h + WithAmount(r1[1..], a))[|h|..];
        assert WithAmount(r2[1..], a) == (h + WithAmount(r2[1..], a))[|h|..];
      }
      StableOrderDetermines(r1[1..], r2[1..]);
      assert r1 == [r1[0]] + r1[1..] && r2 == [r2[0]] + r2[1..];
    }
  }

  /** SortByAmountDesc is the only stable descending sort of `v`: any stable
      sort by descending amount (such as Rust's sort_by) yields exactly it. */
  lemma StableSortIsUnique<S>(v: seq<Node<S>>, r: seq<Node<S>>)
    requires SortedDesc(r)
    requires forall a :: WithAmount(r, a) == WithAmount(v, a)
    ensures r == SortByAmountDesc(v)
  {
    SortIsStableDescending(v);
    StableOrderDetermines(r, SortByAmountDesc(v));
  }

  /** Inserting a node adds its amount to the total and its leaves to the
      multiset of leaves. */
  lemma {:induction false} InsertKeepsSum<S>(x: Node<S>, s: seq<Node<S>>)
    ensures Sum(Insert(x, s)) == x.amount + Sum(s)
  {
    if s == [] || s[0].amount <= x.amount {
      SumCons(x, s);
    } else {
      var t := Insert(x, s[1..]);
      InsertKeepsSum(x, s[1..]);
      assert s == [s[0]] + s[1..];
      SumCons(s[0], s[1..]);
      SumCons(s[0], t);
    }
  }

  lemma {:induction false} InsertKeepsLeaves<S>(x: Node<S>, s: seq<Node<S>>)
    ensures multiset(AllLeaves(Insert(x, s))) == multiset(Leaves(x)) + multiset(AllLeaves(s))
  {
    if s == [] || s[0].amount <= x.amount {
      AllLeavesCons(x, s);
    } else {
      var h, tail := s[0], s[1..];
      var t := Insert(x, tail);
      assert Insert(x, s) == [h] + t;
      assert s == [h] + tail;
      InsertKeepsLeaves(x, tail);
      AllLeavesCons(h, tail);
      AllLeavesCons(h, t);
      var mh, mx, mt := multiset(Leaves(h)), multiset(Leaves(x)), multiset(AllLeaves(tail));
      assert multiset(AllLeaves(t)) == mx + mt;
      assert multiset(AllLeaves(Insert(x, s))) == mh + (mx + mt);
      assert multiset(AllLeaves(s)) == mh + mt;
      MultisetSwap(mh, mx, mt);
    }
  }

  lemma MultisetSwap<T>(a: multiset<T>, x: multiset<T>, t: multiset<T>)
    ensures a + (x + t) == x + (a + t)
  {
  }

  /** Sorting neither adds nor removes weight or leaves. */
  lemma SortKeepsTotals<S>(v: seq<Node<S>>)
    ensures Sum(SortByAmountDesc(v)) == Sum(v)
    ensures multiset(AllLeaves(SortByAmountDesc(v))) == multiset(AllLeaves(v))
  {
    SortKeepsSum(v);
    SortKeepsLeaves(v);
  }

  lemma {:induction false} SortKeepsSum<S>(v: seq<Node<S>>)
    ensures Sum(SortByAmountDesc(v)) == Sum(v)
  {
    if v != [] {
      var x, t := v[0], v[1..];
      assert v == [x] + t;
      SortKeepsSum(t);
      InsertKeepsSum(x, SortByAmountDesc(t));
      SumCons(x, t);
    }
  }

  lemma {:induction false} SortKeepsLeaves<S>(v: seq<Node<S>>)
    ensures multiset(AllLeaves(SortByAmountDesc(v))) == multiset(AllLeaves(v))
  {
    if v != [] {
      var x, t := v[0], v[1..];
      assert v == [x] + t;
      SortKeepsLeaves(t);
      InsertKeepsLeaves(x, SortByAmountDesc(t));
      AllLeavesCons(x, t);
    }
  }

  /** Replacing the last two nodes by a node above them, the last as its
      right child, keeps the total weight and the leaves in the same order. */
  lemma MergeKeepsTotals<S>(r: seq<Node<S>>)
    requires |r| >= 2
    ensures Sum(MergeLastTwo(r)) == Sum(r)
    ensures AllLeaves(MergeLastTwo(r)) == AllLeaves(r)
  {
    MergeKeepsSum(r);
    MergeKeepsLeaves(r);
  }

  lemma MergeKeepsSum<S>(r: seq<Node<S>>)
    requires |r| >= 2
    ensures Sum(MergeLastTwo(r)) == Sum(r)
  {
    SplitLastTwo(r);
    PushKeepsSum(r[..|r| - 2], r[|r| - 2], r[|r| - 1]);
  }

  lemma MergeKeepsLeaves<S>(r: seq<Node<S>>)
    requires |r| >= 2
    ensures AllLeaves(MergeLastTwo(r)) == AllLeaves(r)
  {
    SplitLastTwo(r);
    PushKeepsLeaves(r[..|r| - 2], r[|r| - 2], r[|r| - 1]);
  }

  lemma PushKeepsSum<S>(w: seq<Node<S>>, second: Node<S>, first: Node<S>)
    ensures Sum(w + [Internal(first.amount + second.amount, second, first)]) == Sum(w + [second, first])
  {
    var n := Internal(first.amount + second.amount, second, first);
    assert w + [second, first] == (w + [second]) + [first];
    SumSnoc(w, n);
    SumSnoc(w, second);
    SumSnoc(w + [second], first);
  }

  lemma PushKeepsLeaves<S>(w: seq<Node<S>>, second: Node<S>, first: Node<S>)
    ensures AllLeaves(w + [Internal(first.amount + second.amount, second, first)]) == AllLeaves(w + [second, first])
  {
    var n := Internal(first.amount + second.amount, second, first);
    assert w + [second, first] == (w + [second]) + [first];
    AllLeavesSnoc(w, n);
    AllLeavesSnoc(w, second);
    AllLeavesSnoc(w + [second], first);
  }

  /** After sorting, the two nodes create_tree pops are the two lightest of
      the collection: the last is no heavier than the one before it, and
      that one is no heavier than any node left behind. */
  lemma LastTwoAreLightest<S>(v: seq<Node<S>>)
    requires |v| >= 2
    ensures var r := SortByAmountDesc(v);
      var first, second, rest := r[|r| - 1], r[|r| - 2], r[..|r| - 2];
      && multiset(rest) + multiset{second, first} == multiset(v)
      && first.amount <= second.amount
      && (forall x :: x in rest ==> second.amount <= x.amount)
  {
    var r := SortByAmountDesc(v);
    SplitLastTwoMultiset(r);
    SortIsDescending(v);
    SortedLastTwoLightest(r);
  }

  /** Splitting off the last two elements keeps the multiset of elements. */
  lemma SplitLastTwoMultiset<T>(r: seq<T>)
    requires |r| >= 2
    ensures multiset(r[..|r| - 2]) + multiset{r[|r| - 2], r[|r| - 1]} == multiset(r)
  {
    SplitLastTwo(r);
    assert multiset(r) == multiset(r[..|r| - 2]) + multiset([r[|r| - 2], r[|r| - 1]]);
  }

  /** In a descending sequence the last is no heavier than the one before,
      and that one is no heavier than anything before it. */
  lemma SortedLastTwoLightest<S>(r: seq<Node<S>>)
    requires |r| >= 2 && SortedDesc(r)
    ensures r[|r| - 1].amount <= r[|r| - 2].amount
    ensures forall x :: x in r[..|r| - 2] ==> r[|r| - 2].amount <= x.amount
  {
    var rest := r[..|r| - 2];
    forall x | x in rest
      ensures r[|r| - 2].amount <= x.amount
    {
      var k :| 0 <= k < |rest| && rest[k] == x;
      assert r[k] == x;
    }
  }

  /** The collection after one round of create_tree: sorted, the last two
      popped, and a node above them pushed. */
  function MergedOnce<S(==)>(v: seq<Node<S>>): (v': seq<Node<S>>)
    requires |v| >= 2
    ensures |v'| == |v| - 1
  {
    MergeLastTwo(SortByAmountDesc(v))
  }

  /** The last two nodes replaced by a node above them: the one before last
      as its left child, the last as its right child. */
  function MergeLastTwo<S>(r: seq<Node<S>>): (r': seq<Node<S>>)
    requires |r| >= 2
    ensures |r'| == |r| - 1
  {
    r[..|r| - 2] + [Internal(r[|r| - 1].amount + r[|r| - 2].amount, r[|r| - 2], r[|r| - 1])]
  }

  /** A sequence of two or more is its prefix followed by its last two. */
  lemma SplitLastTwo<T>(r: seq<T>)
    requires |r| >= 2
    ensures r == r[..|r| - 2] + [r[|r| - 2], r[|r| - 1]]
  {
  }

  /** One round of create_tree keeps the total weight and the multiset of
      leaves of the collection. */
  lemma MergeRoundTotals<S>(v: seq<Node<S>>)
    requires |v| >= 2
    ensures Sum(MergedOnce(v)) == Sum(v)
    ensures multiset(AllLeaves(MergedOnce(v))) == multiset(AllLeaves(v))
  {
    SortKeepsTotals(v);
    MergeKeepsTotals(SortByAmountDesc(v));
  }

  /** One round of create_tree keeps every node of the collection well formed. */
  lemma MergeRoundWellFormed<S>(v: seq<Node<S>>)
    requires |v| >= 2
    requires forall k :: 0 <= k < |v| ==> WellFormed(v[k])
    ensures forall k :: 0 <= k < |MergedOnce(v)| ==> WellFormed(MergedOnce(v)[k])
  {
    var r := SortByAmountDesc(v);
    SortIsDescending(v);
    assert r[|r| - 1].amount <= r[|r| - 2].amount;
    forall k | 0 <= k < |r|
      ensures WellFormed(r[k])
    {
      assert r[k] in multiset(v);
    }
    var v' := MergedOnce(v);
    forall k | 0 <= k < |v'|
      ensures WellFormed(v'[k])
    {
      if k < |v'| - 1 {
        assert v'[k] == r[k];
      }
    }
  }

  /** What every round of create_tree keeps of the collection it started
      from: the total weight, the multiset of leaves and, when the starting
      nodes are well formed, the well-formedness of every node. */
  predicate KeepsTotals<S(==)>(v: seq<Node<S>>, nodes: seq<Node<S>>)
  {
    && Sum(v) == Sum(nodes)
    && multiset(AllLeaves(v)) == multiset(AllLeaves(nodes))
    && ((forall k :: 0 <= k < |nodes| ==> WellFormed(nodes[k])) ==>
        forall k :: 0 <= k < |v| ==> WellFormed(v[k]))
  }

  /** One round of create_tree preserves KeepsTotals. */
  lemma MergeRoundKeepsTotals<S>(v: seq<Node<S>>, nodes: seq<Node<S>>)
    requires |v| >= 2 && KeepsTotals(v, nodes)
    ensures KeepsTotals(MergedOnce(v), nodes)
  {
    MergeRoundTotals(v);
    if forall k :: 0 <= k < |nodes| ==> WellFormed(nodes[k]) {
      MergeRoundWellFormed(v);
    }
  }

  /** One round of create_tree's loop: sort by descending amount, pop the
      last node (`first`) and then the next (`second`), and push a node with
      their total amount, `second` as its left and `first` as its right child. */
  method MergeLightestTwo<S(==)>(v: seq<Node<S>>) returns (w: seq<Node<S>>)
    requires |v| >= 2
    ensures w == MergedOnce(v)
  {
    w := SortByAmountDesc(v);
    ghost var sorted := w;
    var first := w[|w| - 1];
    w := w[..|w| - 1];
    var second := w[|w| - 1];
    w := w[..|w| - 1];
    assert w == sorted[..|sorted| - 2];
    w := w + [Internal(first.amount + second.amount, second, first)];
  }

  /** When one node is left, it carries everything KeepsTotals kept. */
  lemma LastNodeIsTree<S>(v: seq<Node<S>>, nodes: seq<Node<S>>)
    requires |v| == 1 && KeepsTotals(v, nodes)
    ensures v[0].amount == Sum(nodes)
    ensures multiset(Leaves(v[0])) == multiset(AllLeaves(nodes))
    ensures (forall k :: 0 <= k < |nodes| ==> WellFormed(nodes[k])) ==> WellFormed(v[0])
    ensures (forall k :: 0 <= k < |nodes| ==> nodes[k].Leaf?) ==>
      multiset(Leaves(v[0])) == multiset(nodes) && InternalCount(v[0]) == |nodes| - 1
  {
    var root := v[0];
    assert v == [] + [root];
    SumSnoc([], root);
    AllLeavesSnoc([], root);
    if forall k :: 0 <= k < |nodes| ==> nodes[k].Leaf? {
      AllLeavesOfLeaves(nodes);
      LeavesOutnumberMerges(root);
      assert |Leaves(root)| == |multiset(nodes)|;
    }
  }

  /** create_tree: requires a non-empty collection (the source panics on
      `pop().unwrap()` otherwise).  Each round sorts, pops `first` and then
      `second`, and pushes a node with `right = first`, `left = second`. */
  method CreateTree<S(==)>(nodes: seq<Node<S>>) returns (root: Node<S>, ghost merges: nat)
    requires |nodes| > 0
    ensures merges == |nodes| - 1
    ensures root.amount == Sum(nodes)
    ensures multiset(Leaves(root)) == multiset(AllLeaves(nodes))
    ensures (forall k :: 0 <= k < |nodes| ==> WellFormed(nodes[k])) ==> WellFormed(root)
    ensures (forall k :: 0 <= k < |nodes| ==> nodes[k].Leaf?) ==>
      multiset(Leaves(root)) == multiset(nodes) && InternalCount(root) == |nodes| - 1
  {
    var v := nodes;
    merges := 0;
    while |v| != 1
      invariant 1 <= |v| && merges + |v| == |nodes|
      invariant KeepsTotals(v, nodes)
      decreases |v|
    {
      MergeRoundKeepsTotals(v, nodes);
      v := MergeLightestTwo(v);
      merges := merges + 1;
    }
    root := v[0];
    LastNodeIsTree(v, nodes);
  }
}
