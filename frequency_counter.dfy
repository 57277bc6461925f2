/** Frequency counting (src/main.rs, count_chars): one leaf per distinct
    symbol of the input, in order of first appearance, holding the number of
    times that symbol occurs. */
module FrequencyCounter {
  import opened HuffmanNode

  /** The distinct elements of `s`, each once, in order of first appearance. */
  function Distinct<S(==)>(s: seq<S>): (d: seq<S>)
    ensures forall i :: 0 <= i < |s| ==> s[i] in d
    ensures forall k :: 0 <= k < |d| ==> d[k] in s
    ensures forall i, j :: 0 <= i < j < |d| ==> d[i] != d[j]
  {
    if s == [] then []
    else
      assert s == s[..|s| - 1] + [s[|s| - 1]];
      var d := Distinct(s[..|s| - 1]);
      if s[|s| - 1] in d then d else d + [s[|s| - 1]]
  }

  /** The position of the first occurrence of `x` in `s`. */
  function FirstIndex<S(==)>(s: seq<S>, x: S): (k: nat)
    requires x in s
    ensures k < |s| && s[k] == x && x !in s[..k]
  {
    if s[0] == x then 0
    else
      var k := FirstIndex(s[1..], x);
      assert s[..k + 1] == [s[0]] + s[1..][..k];
      k + 1
  }

  /** The leaves count_chars is meant to produce: for each distinct symbol,
      in order of first appearance, a leaf with its number of occurrences. */
  function Frequencies<S(==)>(s: seq<S>): seq<Node<S>>
  {
    var d := Distinct(s);
    seq(|d|, k requires 0 <= k < |d| => Leaf(d[k], multiset(s)[d[k]]))
  }

  /** count_chars: for each input symbol, scan the nodes found so far; bump
      the amount of the one holding that symbol, or push a new leaf with
      amount 1 when there is none. */
  method CountChars<S(==)>(input: seq<S>) returns (nodes: seq<Node<S>>)
    ensures nodes == Frequencies(input)
  {
    nodes := [];
    for i := 0 to |input|
      invariant nodes == Frequencies(input[..i])
    {
      var c := input[i];
      assert input[..i + 1] == input[..i] + [c];
      ghost var before := nodes;
      var found := false;
      var j := 0;
      while j < |nodes|
        invariant 0 <= j <= |nodes|
        invariant nodes == before && !found
        invariant forall k :: 0 <= k < j ==> nodes[k].sym != c
      {
        if nodes[j].sym == c {
          FrequenciesBump(input[..i], c, j);
          nodes := nodes[j := Leaf(c, nodes[j].amount + 1)];
          found := true;
          break;
        }
        j := j + 1;
      }
      if !found {
        FrequenciesAppend(input[..i], c);
        nodes := nodes + [Leaf(c, 1)];
      }
    }
    assert input[..|input|] == input;
  }

  /** Counting a symbol that already has a leaf adds one to that leaf. */
  lemma FrequenciesBump<S>(s: seq<S>, c: S, j: nat)
    requires j < |Frequencies(s)| && Frequencies(s)[j].sym == c
    ensures Frequencies(s + [c]) == Frequencies(s)[j := Leaf(c, Frequencies(s)[j].amount + 1)]
  {
    assert (s + [c])[..|s|] == s;
    assert c in Distinct(s);
    assert Distinct(s + [c]) == Distinct(s);
  }

  /** Counting a symbol without a leaf appends a leaf with amount 1. */
  lemma FrequenciesAppend<S>(s: seq<S>, c: S)
    requires forall k :: 0 <= k < |Frequencies(s)| ==> Frequencies(s)[k].sym != c
    ensures Frequencies(s + [c]) == Frequencies(s) + [Leaf(c, 1)]
  {
    assert (s + [c])[..|s|] == s;
    forall k | 0 <= k < |Distinct(s)|
      ensures Distinct(s)[k] != c
    {
      assert Frequencies(s)[k].sym == Distinct(s)[k];
    }
    assert Distinct(s + [c]) == Distinct(s) + [c];
    assert c !in s;
    assert multiset(s + [c])[c] == 1;
  }

  /** The first occurrence of a symbol already in `s` does not move when
      another symbol is appended. */
  lemma {:induction false} FirstIndexSnoc<S>(s: seq<S>, c: S, x: S)
    requires x in s
    ensures FirstIndex(s + [c], x) == FirstIndex(s, x)
  {
    if s[0] != x {
      assert (s + [c])[1..] == s[1..] + [c];
      FirstIndexSnoc(s[1..], c, x);
    }
  }

  /** Distinct lists the symbols in strictly increasing order of their first
      occurrence in the input. */
  lemma {:induction false} DistinctFirstAppearanceOrder<S>(s: seq<S>)
    ensures forall i, j :: 0 <= i < j < |Distinct(s)| ==>
      FirstIndex(s, Distinct(s)[i]) < FirstIndex(s, Distinct(s)[j])
  {
    if s != [] {
      var t, c := s[..|s| - 1], s[|s| - 1];
      assert s == t + [c];
      DistinctFirstAppearanceOrder(t);
      var d := Distinct(t);
      forall x | x in t
        ensures FirstIndex(s, x) == FirstIndex(t, x)
      {
        FirstIndexSnoc(t, c, x);
      }
      if c !in d {
        assert FirstIndex(s, c) == |t| by {
          assert c !in s[..|t|];
        }
        assert Distinct(s) == d + [c];
      }
    }
  }

  /** The amounts count_chars produces add up to the length of the input. */
  lemma {:induction false} FrequenciesTotal<S>(s: seq<S>)
    ensures Sum(Frequencies(s)) == |s|
  {
    if s != [] {
      var t, c := s[..|s| - 1], s[|s| - 1];
      assert s == t + [c];
      FrequenciesTotal(t);
      var f := Frequencies(t);
      if j :| 0 <= j < |f| && f[j].sym == c {
        FrequenciesBump(t, c, j);
        SumUpdate(f, j, Leaf(c, f[j].amount + 1));
      } else {
        FrequenciesAppend(t, c);
        SumSnoc(f, Leaf(c, 1));
      }
    }
  }

  /** Each leaf count_chars produces holds a symbol of the input and the
      number of times that symbol occurs. */
  lemma FrequenciesCounts<S>(s: seq<S>)
    ensures forall k :: 0 <= k < |Frequencies(s)| ==>
      Frequencies(s)[k] == Leaf(Distinct(s)[k], multiset(s)[Distinct(s)[k]]) && Distinct(s)[k] in s
  {
    var f, d := Frequencies(s), Distinct(s);
    forall k | 0 <= k < |f|
      ensures f[k] == Leaf(d[k], multiset(s)[d[k]]) && d[k] in s
    {
    }
  }

  /** Every input symbol has a leaf. */
  lemma FrequenciesCover<S>(s: seq<S>)
    ensures forall i :: 0 <= i < |s| ==> exists k :: 0 <= k < |Frequencies(s)| && Frequencies(s)[k].sym == s[i]
  {
    var f, d := Frequencies(s), Distinct(s);
    FrequenciesCounts(s);
    forall i | 0 <= i < |s|
      ensures exists k :: 0 <= k < |f| && f[k].sym == s[i]
    {
      assert s[i] in d;
      var k :| 0 <= k < |d| && d[k] == s[i];
      assert f[k].sym == s[i];
    }
  }

  /** What count_chars promises, stated in terms of the input alone: only
      leaves, one per distinct input symbol and no other, each holding its
      number of occurrences, in order of first appearance, with amounts
      summing to the input length; the empty input gives no leaves. */
  lemma FrequenciesSpec<S>(s: seq<S>)
    ensures forall k :: 0 <= k < |Frequencies(s)| ==>
      Frequencies(s)[k].Leaf? && Frequencies(s)[k].sym in s &&
      Frequencies(s)[k].amount == multiset(s)[Frequencies(s)[k].sym]
    ensures forall i, j :: 0 <= i < j < |Frequencies(s)| ==> Frequencies(s)[i].sym != Frequencies(s)[j].sym
    ensures forall i :: 0 <= i < |s| ==> exists k :: 0 <= k < |Frequencies(s)| && Frequencies(s)[k].sym == s[i]
    ensures forall i, j :: 0 <= i < j < |Frequencies(s)| ==>
      FirstIndex(s, Frequencies(s)[i].sym) < FirstIndex(s, Frequencies(s)[j].sym)
    ensures Sum(Frequencies(s)) == |s|
    ensures Frequencies(s) == [] <==> s == []
  {
    FrequenciesCounts(s);
    FrequenciesCover(s);
    DistinctFirstAppearanceOrder(s);
    FrequenciesTotal(s);
  }

  /** A sequence without repetitions whose elements are exactly those of
      the set `a` has `|a|` elements. */
  lemma {:induction false} NoRepeatsCount<T>(d: seq<T>, a: set<T>)
    requires forall i, j :: 0 <= i < j < |d| ==> d[i] != d[j]
    requires forall k :: 0 <= k < |d| ==> d[k] in a
    requires forall x :: x in a ==> x in d
    ensures |d| == |a|
  {
    if d != [] {
      var n := |d| - 1;
      forall x | x in a - {d[n]}
        ensures x in d[..n]
      {
        var k :| 0 <= k < |d| && d[k] == x;
        assert d[..n][k] == x;
      }
      NoRepeatsCount(d[..n], a - {d[n]});
    }
  }

  /** The number of leaves count_chars produces is the number of different
      symbols of the input. */
  lemma DistinctSize<T>(s: seq<T>, a: set<T>)
    requires forall i :: 0 <= i < |s| ==> s[i] in a
    requires forall x :: x in a ==> x in s
    ensures |Frequencies(s)| == |a|
  {
    NoRepeatsCount(Distinct(s), a);
  }
}
