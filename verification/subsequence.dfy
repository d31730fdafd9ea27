/** Order-preserving filtering of a sequence by a predicate: the shape of
    every `for (item : list) if (test) out.add(item)` loop in the app. */
module Subsequence {
  import opened Clothing

  type Item = ClothingItem

  /** `sub` can be obtained from `xs` by deleting elements. */
  predicate IsSubseq(sub: seq<Item>, xs: seq<Item>)
    decreases |xs|
  {
    if sub == [] then true
    else if xs == [] then false
    else (sub[|sub| - 1] == xs[|xs| - 1] && IsSubseq(sub[..|sub| - 1], xs[..|xs| - 1]))
         || IsSubseq(sub, xs[..|xs| - 1])
  }

  /** A subsequence never holds an element more often than its source. */
  lemma {:induction false} SubseqMultisetLe(sub: seq<Item>, xs: seq<Item>)
    requires IsSubseq(sub, xs)
    ensures multiset(sub) <= multiset(xs)
    decreases |xs|
  {
    if sub != [] {
      var ys := xs[..|xs| - 1];
      assert xs == ys + [xs[|xs| - 1]];
      if sub[|sub| - 1] == xs[|xs| - 1] && IsSubseq(sub[..|sub| - 1], ys) {
        SubseqMultisetLe(sub[..|sub| - 1], ys);
        assert sub == sub[..|sub| - 1] + [sub[|sub| - 1]];
      } else {
        SubseqMultisetLe(sub, ys);
      }
    }
  }

  /** Every sequence is a subsequence of itself. */
  lemma {:induction false} SubseqRefl(xs: seq<Item>)
    ensures IsSubseq(xs, xs)
    decreases |xs|
  {
    if xs != [] {
      SubseqRefl(xs[..|xs| - 1]);
    }
  }

  /** What a filter promises: an order-preserving subsequence of `xs` that
      holds only kept elements and every kept element as often as `xs`
      does. */
  ghost predicate IsFilterOf(r: seq<Item>, xs: seq<Item>, keep: Item -> bool) {
    && IsSubseq(r, xs)
    && (forall i :: 0 <= i < |r| ==> keep(r[i]))
    && (forall x {:trigger multiset(r)[x]} :: multiset(r)[x] == if keep(x) then multiset(xs)[x] else 0)
  }

  /** The elements of `xs` that `keep` accepts, in order. */
  function Filter(xs: seq<Item>, keep: Item -> bool): (r: seq<Item>)
    ensures IsFilterOf(r, xs, keep)
    decreases |xs|
  {
    if xs == [] then []
    else
      var ys := xs[..|xs| - 1];
      var x := xs[|xs| - 1];
      var rest := Filter(ys, keep);
      assert xs == ys + [x];
      if keep(x) then
        var r := rest + [x];
        assert r[..|r| - 1] == rest;
        r
      else
        rest
  }

  /** The filter contract pins its result down: two sequences that both
      meet it are equal, so `Filter` is the only lawful filter. */
  lemma {:induction false} FilterSpecUnique(r1: seq<Item>, r2: seq<Item>, xs: seq<Item>, keep: Item -> bool)
    requires IsFilterOf(r1, xs, keep) && IsFilterOf(r2, xs, keep)
    ensures r1 == r2
    decreases |xs|
  {
    if xs == [] {
      assert r1 == [] && r2 == [];
    } else {
      var p1 := FilterPrefix(r1, xs, keep);
      var p2 := FilterPrefix(r2, xs, keep);
      FilterSpecUnique(p1, p2, xs[..|xs| - 1], keep);
    }
  }

  /** Peeling the last source element off a lawful filter result leaves a
      lawful filter result of the shorter source. */
  lemma FilterPrefix(r: seq<Item>, xs: seq<Item>, keep: Item -> bool) returns (p: seq<Item>)
    requires xs != []
    requires IsFilterOf(r, xs, keep)
    ensures IsFilterOf(p, xs[..|xs| - 1], keep)
    ensures keep(xs[|xs| - 1]) ==> r == p + [xs[|xs| - 1]]
    ensures !keep(xs[|xs| - 1]) ==> r == p
  {
    var ys := xs[..|xs| - 1];
    var x := xs[|xs| - 1];
    assert xs == ys + [x];
    if keep(x) {
      KeptLastIsLast(r, xs, keep);
      p := r[..|r| - 1];
      assert r == p + [x];
      forall y ensures multiset(p)[y] == if keep(y) then multiset(ys)[y] else 0 {
        assert multiset(r)[y] == multiset(p)[y] + multiset([x])[y];
        assert multiset(xs)[y] == multiset(ys)[y] + multiset([x])[y];
      }
      forall i | 0 <= i < |p| ensures keep(p[i]) {
        assert p[i] == r[i];
      }
    } else {
      DroppedLastIsAbsent(r, xs, keep);
      p := r;
      forall y ensures multiset(p)[y] == if keep(y) then multiset(ys)[y] else 0 {
        assert multiset(xs)[y] == multiset(ys)[y] + multiset([x])[y];
      }
    }
  }

  /** A kept last source element must be the last element of the result. */
  lemma KeptLastIsLast(r: seq<Item>, xs: seq<Item>, keep: Item -> bool)
    requires xs != [] && keep(xs[|xs| - 1])
    requires IsFilterOf(r, xs, keep)
    ensures r != [] && r[|r| - 1] == xs[|xs| - 1] && IsSubseq(r[..|r| - 1], xs[..|xs| - 1])
  {
    var ys := xs[..|xs| - 1];
    var x := xs[|xs| - 1];
    assert xs == ys + [x];
    assert multiset(xs)[x] == multiset(ys)[x] + 1;
    assert multiset(r)[x] == multiset(xs)[x];
    if r != [] && !(r[|r| - 1] == x && IsSubseq(r[..|r| - 1], ys)) {
      SubseqMultisetLe(r, ys);
    }
  }

  /** A dropped last source element leaves the result a subsequence of
      the shorter source. */
  lemma DroppedLastIsAbsent(r: seq<Item>, xs: seq<Item>, keep: Item -> bool)
    requires xs != [] && !keep(xs[|xs| - 1])
    requires IsFilterOf(r, xs, keep)
    ensures IsSubseq(r, xs[..|xs| - 1])
  {
    var x := xs[|xs| - 1];
    assert multiset(r)[x] == 0;
    if r != [] {
      assert r[|r| - 1] in multiset(r);
    }
  }

  /** An element is in the filtered sequence iff it is in the source and
      kept. */
  lemma FilterMembers(xs: seq<Item>, keep: Item -> bool)
    ensures forall x :: x in Filter(xs, keep) <==> x in xs && keep(x)
  {
    var r := Filter(xs, keep);
    forall x ensures x in r <==> x in xs && keep(x) {
      assert x in r <==> multiset(r)[x] > 0;
      assert x in xs <==> multiset(xs)[x] > 0;
    }
  }

  /** The Java loop: walk the source, appending each kept element. */
  method FilterLoop(xs: seq<Item>, keep: Item -> bool) returns (r: seq<Item>)
    ensures IsFilterOf(r, xs, keep)
  {
    r := [];
    var i := 0;
    while i < |xs|
      invariant 0 <= i <= |xs|
      invariant r == Filter(xs[..i], keep)
    {
      assert xs[..i + 1][..i] == xs[..i];
      if keep(xs[i]) {
        r := r + [xs[i]];
      }
      i := i + 1;
    }
    assert xs[..i] == xs;
  }

  /** A filter that keeps everything is the identity. */
  lemma {:induction false} FilterKeepAll(xs: seq<Item>, keep: Item -> bool)
    requires forall i :: 0 <= i < |xs| ==> keep(xs[i])
    ensures Filter(xs, keep) == xs
    decreases |xs|
  {
    if xs != [] {
      FilterKeepAll(xs[..|xs| - 1], keep);
    }
  }

  /** Appending to the source keeps a subsequence a subsequence. */
  lemma SubseqAppend(sub: seq<Item>, xs: seq<Item>, x: Item)
    requires IsSubseq(sub, xs)
    ensures IsSubseq(sub, xs + [x])
  {
    assert (xs + [x])[..|xs + [x]| - 1] == xs;
  }

  /** Filtering both sides by the same test keeps a subsequence a
      subsequence. */
  lemma {:induction false} SubseqFilterMono(sub: seq<Item>, xs: seq<Item>, keep: Item -> bool)
    requires IsSubseq(sub, xs)
    ensures IsSubseq(Filter(sub, keep), Filter(xs, keep))
    decreases |xs|
  {
    if sub == [] {
    } else {
      var ys := xs[..|xs| - 1];
      var x := xs[|xs| - 1];
      assert xs == ys + [x];
      if sub[|sub| - 1] == x && IsSubseq(sub[..|sub| - 1], ys) {
        var sub' := sub[..|sub| - 1];
        assert sub == sub' + [x];
        SubseqFilterMono(sub', ys, keep);
        assert Filter(sub, keep) == if keep(x) then Filter(sub', keep) + [x] else Filter(sub', keep);
        assert Filter(xs, keep) == if keep(x) then Filter(ys, keep) + [x] else Filter(ys, keep);
        if keep(x) {
          var fs := Filter(sub', keep) + [x];
          assert fs[..|fs| - 1] == Filter(sub', keep);
          var fx := Filter(ys, keep) + [x];
          assert fx[..|fx| - 1] == Filter(ys, keep);
        }
      } else {
        SubseqFilterMono(sub, ys, keep);
        assert Filter(xs, keep) == if keep(x) then Filter(ys, keep) + [x] else Filter(ys, keep);
        if keep(x) {
          SubseqAppend(Filter(sub, keep), Filter(ys, keep), x);
        }
      }
    }
  }

  /** `List.remove(int)`: the sequence without position `p`. */
  function RemoveAt(xs: seq<Item>, p: nat): (r: seq<Item>)
    requires p < |xs|
    ensures |r| == |xs| - 1
    ensures forall i :: 0 <= i < p ==> r[i] == xs[i]
    ensures forall i :: p <= i < |r| ==> r[i] == xs[i + 1]
  {
    xs[..p] + xs[p + 1..]
  }

  /** Removing the last position leaves the prefix. */
  lemma RemoveAtLast(xs: seq<Item>)
    requires xs != []
    ensures RemoveAt(xs, |xs| - 1) == xs[..|xs| - 1]
  {
  }

  /** Removing an earlier position commutes with the last element. */
  lemma RemoveAtBeforeLast(xs: seq<Item>, p: nat)
    requires p < |xs| - 1
    ensures RemoveAt(xs, p) == RemoveAt(xs[..|xs| - 1], p) + [xs[|xs| - 1]]
  {
    var a := RemoveAt(xs, p);
    var b := RemoveAt(xs[..|xs| - 1], p) + [xs[|xs| - 1]];
    assert |a| == |b|;
    forall i | 0 <= i < |a| ensures a[i] == b[i] {
      if i < p {
      } else if i < |a| - 1 {
      } else {
      }
    }
  }

  /** A source whose only dropped element is its last filters to its
      prefix. */
  lemma FilterDropsLast(xs: seq<Item>, keep: Item -> bool)
    requires xs != [] && !keep(xs[|xs| - 1])
    requires forall i :: 0 <= i < |xs| - 1 ==> keep(xs[i])
    ensures Filter(xs, keep) == RemoveAt(xs, |xs| - 1)
  {
    var ys := xs[..|xs| - 1];
    forall i | 0 <= i < |ys| ensures keep(ys[i]) {
      assert ys[i] == xs[i];
    }
    FilterKeepAll(ys, keep);
    RemoveAtLast(xs);
  }

  /** `Filter` on a source whose last element is kept. */
  lemma FilterKeptLast(xs: seq<Item>, keep: Item -> bool)
    requires xs != [] && keep(xs[|xs| - 1])
    ensures Filter(xs, keep) == Filter(xs[..|xs| - 1], keep) + [xs[|xs| - 1]]
  {
  }

  /** Filtering out exactly one position is removing that position. */
  lemma {:induction false} FilterDropsOne(xs: seq<Item>, keep: Item -> bool, p: nat)
    requires p < |xs| && !keep(xs[p])
    requires forall i :: 0 <= i < |xs| && i != p ==> keep(xs[i])
    ensures Filter(xs, keep) == RemoveAt(xs, p)
    decreases |xs|
  {
    var n := |xs| - 1;
    if p == n {
      FilterDropsLast(xs, keep);
    } else {
      var ys := xs[..n];
      forall i | 0 <= i < |ys| && i != p ensures keep(ys[i]) {
        assert ys[i] == xs[i];
      }
      FilterDropsOne(ys, keep, p);
      FilterKeptLast(xs, keep);
      RemoveAtBeforeLast(xs, p);
    }
  }
}
