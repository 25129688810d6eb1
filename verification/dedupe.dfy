/**
 `_remove_duplicates`: drops every later occurrence of an element already
 seen, keeping first occurrences in their original order.  Elements are
 compared by exact equality (for epitopes, case-sensitively).
 */
module Dedupe {

  /** No element occurs twice. */
  predicate NoDuplicates(xs: seq<string>) {
    forall i, j :: 0 <= i < j < |xs| ==> xs[i] != xs[j]
  }

  /** The order-preserving deduplication of `xs`, built the way the source's
      loop builds it: element by element, appending only unseen ones. */
  function Dedup(xs: seq<string>): (ys: seq<string>)
    ensures |ys| <= |xs|
  {
    if xs == [] then []
    else
      var d := Dedup(xs[..|xs| - 1]);
      var x := xs[|xs| - 1];
      if x in d then d else d + [x]
  }

  /** The result holds exactly the input's elements, each once. */
  lemma {:induction false} DedupElements(xs: seq<string>)
    ensures forall x :: x in Dedup(xs) <==> x in xs
    ensures NoDuplicates(Dedup(xs))
  {
    if xs != [] {
      var init := xs[..|xs| - 1];
      var x := xs[|xs| - 1];
      DedupElements(init);
      assert xs == init + [x];
      forall y ensures y in xs <==> y in init || y == x {
      }
    }
  }

  /** `_remove_duplicates` as written: one pass with a `seen` set. */
  method RemoveDuplicates(epitopes: seq<string>) returns (unique: seq<string>)
    ensures unique == Dedup(epitopes)
  {
    var seen: set<string> := {};
    unique := [];
    for i := 0 to |epitopes|
      invariant unique == Dedup(epitopes[..i])
      invariant forall x :: x in seen <==> x in unique
    {
      assert epitopes[..i + 1][..i] == epitopes[..i];
      var epitope := epitopes[i];
      if epitope !in seen {
        seen := seen + {epitope};
        unique := unique + [epitope];
      }
    }
    assert epitopes[..|epitopes|] == epitopes;
  }

  /** Index of the first occurrence of `x` in `xs`. */
  function FirstIndex(xs: seq<string>, x: string): (i: nat)
    requires x in xs
    ensures i < |xs| && xs[i] == x
    ensures forall j :: 0 <= j < i ==> xs[j] != x
  {
    var init := xs[..|xs| - 1];
    if x in init then FirstIndex(init, x) else |xs| - 1
  }

  /** `idx` places `ys` inside `xs` at strictly increasing positions. */
  ghost predicate Embeds(idx: seq<nat>, ys: seq<string>, xs: seq<string>) {
    && |idx| == |ys|
    && (forall k :: 0 <= k < |idx| ==> idx[k] < |xs| && xs[idx[k]] == ys[k])
    && (forall k, l :: 0 <= k < l < |idx| ==> idx[k] < idx[l])
  }

  /** `ys` is a subsequence of `xs`. */
  ghost predicate IsSubsequence(ys: seq<string>, xs: seq<string>) {
    exists idx :: Embeds(idx, ys, xs)
  }

  /** The positions in `xs` that the deduplication keeps. */
  lemma {:induction false} DedupPositions(xs: seq<string>) returns (idx: seq<nat>)
    ensures Embeds(idx, Dedup(xs), xs)
    ensures forall k :: 0 <= k < |idx| ==> idx[k] == FirstIndex(xs, Dedup(xs)[k])
  {
    if xs == [] {
      idx := [];
    } else {
      var init := xs[..|xs| - 1];
      var x := xs[|xs| - 1];
      var p := DedupPositions(init);
      DedupElements(init);
      assert xs == init + [x];
      if x in init {
        PositionsKeep(init, x, Dedup(init), p);
        idx := p;
      } else {
        PositionsExtend(init, x, Dedup(init), p);
        idx := p + [|init|];
      }
    }
  }

  /** A repeated element adds no position: the old positions still embed
      the old result, at the same first occurrences. */
  lemma PositionsKeep(init: seq<string>, x: string, d: seq<string>, p: seq<nat>)
    requires x in init
    requires forall y :: y in d ==> y in init
    requires Embeds(p, d, init)
    requires forall k :: 0 <= k < |p| ==> p[k] == FirstIndex(init, d[k])
    ensures Embeds(p, d, init + [x])
    ensures forall k :: 0 <= k < |p| ==> p[k] == FirstIndex(init + [x], d[k])
  {
    FirstIndexSnoc(init, x);
    assert forall k :: 0 <= k < |p| ==> (init + [x])[p[k]] == init[p[k]];
  }

  /** A new element is kept at its own position, the last one. */
  lemma PositionsExtend(init: seq<string>, x: string, d: seq<string>, p: seq<nat>)
    requires x !in init
    requires forall y :: y in d ==> y in init
    requires Embeds(p, d, init)
    requires forall k :: 0 <= k < |p| ==> p[k] == FirstIndex(init, d[k])
    ensures Embeds(p + [|init|], d + [x], init + [x])
    ensures forall k :: 0 <= k < |p| + 1 ==> (p + [|init|])[k] == FirstIndex(init + [x], (d + [x])[k])
  {
    ExtendPlaces(init, x, d, p);
    ExtendIncreasing(p, |init|);
  }

  /** Each kept element sits at its first occurrence, the new one last. */
  lemma ExtendPlaces(init: seq<string>, x: string, d: seq<string>, p: seq<nat>)
    requires x !in init
    requires forall y :: y in d ==> y in init
    requires |p| == |d|
    requires forall k :: 0 <= k < |p| ==> p[k] < |init| && init[p[k]] == d[k]
    requires forall k :: 0 <= k < |p| ==> p[k] == FirstIndex(init, d[k])
    ensures forall k :: 0 <= k < |p| + 1 ==>
      && (p + [|init|])[k] < |init + [x]|
      && (init + [x])[(p + [|init|])[k]] == (d + [x])[k]
      && (p + [|init|])[k] == FirstIndex(init + [x], (d + [x])[k])
  {
    var q, e, xs := p + [|init|], d + [x], init + [x];
    FirstIndexSnoc(init, x);
    forall k | 0 <= k < |q|
      ensures q[k] < |xs| && xs[q[k]] == e[k] && q[k] == FirstIndex(xs, e[k])
    {
      if k < |p| {
        assert q[k] == p[k] && e[k] == d[k] && d[k] in init;
        assert xs[p[k]] == init[p[k]];
      } else {
        assert q[k] == |init| && e[k] == x;
      }
    }
  }

  /** Appending a position past all others keeps the positions increasing. */
  lemma ExtendIncreasing(p: seq<nat>, n: nat)
    requires forall k :: 0 <= k < |p| ==> p[k] < n
    requires forall k, l :: 0 <= k < l < |p| ==> p[k] < p[l]
    ensures forall k, l :: 0 <= k < l < |p| + 1 ==> (p + [n])[k] < (p + [n])[l]
  {
    var q := p + [n];
    forall k, l | 0 <= k < l < |q| ensures q[k] < q[l] {
      assert q[k] == p[k];
      if l < |p| {
        assert q[l] == p[l];
      }
    }
  }

  /** The result is a subsequence of the input. */
  lemma DedupIsSubsequence(xs: seq<string>)
    ensures IsSubsequence(Dedup(xs), xs)
  {
    var idx := DedupPositions(xs);
  }

  /** `ys` lists its elements in the order of their first occurrence in `xs`. */
  ghost predicate InFirstOccurrenceOrder(ys: seq<string>, xs: seq<string>) {
    forall i, j :: 0 <= i < j < |ys| ==>
      ys[i] in xs && ys[j] in xs && FirstIndex(xs, ys[i]) < FirstIndex(xs, ys[j])
  }

  /** The result keeps the first occurrences, in their original order. */
  lemma DedupKeepsFirstOccurrences(xs: seq<string>)
    ensures InFirstOccurrenceOrder(Dedup(xs), xs)
  {
    var idx := DedupPositions(xs);
  }

  /** The three properties determine the result: any duplicate-free list of
      exactly the input's elements, in first-occurrence order, is the
      deduplication. */
  lemma {:induction false} DedupUnique(xs: seq<string>, ys: seq<string>)
    requires NoDuplicates(ys)
    requires forall y :: y in ys <==> y in xs
    requires InFirstOccurrenceOrder(ys, xs)
    ensures ys == Dedup(xs)
  {
    if xs == [] {
      DistinctCount(ys);
      assert (set y | y in ys) == {};
    } else {
      var init := xs[..|xs| - 1];
      var x := xs[|xs| - 1];
      assert xs == init + [x];
      DedupElements(init);
      if x in init {
        RepeatedLast(init, x, ys);
        DedupUnique(init, ys);
        assert Dedup(xs) == Dedup(init);
      } else {
        NewLast(init, x, ys);
        DedupUnique(init, ys[..|ys| - 1]);
        assert ys == ys[..|ys| - 1] + [x];
        assert Dedup(xs) == Dedup(init) + [x];
      }
    }
  }

  /** When the last input element repeats an earlier one, dropping it
      changes neither the elements nor their first occurrences. */
  lemma RepeatedLast(init: seq<string>, x: string, ys: seq<string>)
    requires x in init
    requires forall y :: y in ys <==> y in init + [x]
    requires InFirstOccurrenceOrder(ys, init + [x])
    ensures forall y :: y in ys <==> y in init
    ensures InFirstOccurrenceOrder(ys, init)
  {
    FirstIndexSnoc(init, x);
    forall y ensures y in init + [x] <==> y in init {
      assert y in init + [x] <==> y in init || y == x;
    }
  }

  /** When the last input element is new, a candidate result must end with
      it, and the rest is a candidate result for the shorter input. */
  lemma NewLast(init: seq<string>, x: string, ys: seq<string>)
    requires x !in init
    requires NoDuplicates(ys)
    requires forall y :: y in ys <==> y in init + [x]
    requires InFirstOccurrenceOrder(ys, init + [x])
    ensures |ys| > 0 && ys[|ys| - 1] == x
    ensures NoDuplicates(ys[..|ys| - 1])
    ensures forall y :: y in ys[..|ys| - 1] <==> y in init
    ensures InFirstOccurrenceOrder(ys[..|ys| - 1], init)
  {
    NewIsLast(init, x, ys);
    DropLastDistinct(ys);
    DropLastMembers(init, x, ys);
    DropLastOrder(init, x, ys);
  }

  /** Dropping the last element keeps a list free of duplicates. */
  lemma DropLastDistinct(ys: seq<string>)
    requires |ys| > 0 && NoDuplicates(ys)
    ensures NoDuplicates(ys[..|ys| - 1])
  {
    var ys' := ys[..|ys| - 1];
    forall i, j | 0 <= i < j < |ys'| ensures ys'[i] != ys'[j] {
      assert ys'[i] == ys[i] && ys'[j] == ys[j];
    }
  }

  /** Without its last element `x`, which it holds once, a candidate holds
      exactly the elements of `init`. */
  lemma DropLastMembers(init: seq<string>, x: string, ys: seq<string>)
    requires x !in init
    requires |ys| > 0 && ys[|ys| - 1] == x && NoDuplicates(ys)
    requires forall y :: y in ys <==> y in init + [x]
    ensures forall y :: y in ys[..|ys| - 1] <==> y in init
  {
    var ys' := ys[..|ys| - 1];
    assert ys == ys' + [x];
    forall y ensures y in ys' <==> y in init {
      assert y in init + [x] <==> y in init || y == x;
      if y in ys' {
        var i :| 0 <= i < |ys'| && ys'[i] == y;
        assert ys[i] == y && i < |ys| - 1;
      }
    }
  }

  /** Without its last element, a candidate is still in first-occurrence
      order with respect to `init`. */
  lemma DropLastOrder(init: seq<string>, x: string, ys: seq<string>)
    requires x !in init
    requires |ys| > 0 && ys[|ys| - 1] == x && NoDuplicates(ys)
    requires forall y :: y in ys[..|ys| - 1] <==> y in init
    requires InFirstOccurrenceOrder(ys, init + [x])
    ensures InFirstOccurrenceOrder(ys[..|ys| - 1], init)
  {
    var ys' := ys[..|ys| - 1];
    FirstIndexSnoc(init, x);
    forall i, j | 0 <= i < j < |ys'|
      ensures ys'[i] in init && ys'[j] in init && FirstIndex(init, ys'[i]) < FirstIndex(init, ys'[j])
    {
      assert ys'[i] == ys[i] && ys'[j] == ys[j];
    }
  }

  /** A new last input element comes last in any candidate result: it first
      occurs after every other element. */
  lemma NewIsLast(init: seq<string>, x: string, ys: seq<string>)
    requires x !in init
    requires forall y :: y in ys <==> y in init + [x]
    requires InFirstOccurrenceOrder(ys, init + [x])
    ensures |ys| > 0 && ys[|ys| - 1] == x
  {
    var xs := init + [x];
    FirstIndexSnoc(init, x);
    assert x in ys by { assert xs[|init|] == x; }
    var k :| 0 <= k < |ys| && ys[k] == x;
    var last := ys[|ys| - 1];
    var fl := FirstIndex(xs, last);
    var fx := FirstIndex(xs, ys[k]);
    assert fx == |init|;
    assert last == x || fl < |init|;
    assert k == |ys| - 1 || fx < fl;
  }

  /** Appending an element does not move the first occurrence of any element
      already present, and a new element first occurs at the end. */
  lemma FirstIndexSnoc(xs: seq<string>, x: string)
    ensures forall y :: y in xs ==> FirstIndex(xs + [x], y) == FirstIndex(xs, y)
    ensures x !in xs ==> FirstIndex(xs + [x], x) == |xs|
  {
    assert (xs + [x])[..|xs|] == xs;
  }

  /** A list without duplicates is its own deduplication. */
  lemma {:induction false} DedupOfDistinct(xs: seq<string>)
    requires NoDuplicates(xs)
    ensures Dedup(xs) == xs
  {
    if xs != [] {
      var init := xs[..|xs| - 1];
      assert forall i :: 0 <= i < |init| ==> init[i] == xs[i];
      DedupOfDistinct(init);
      assert xs[|xs| - 1] !in init;
      assert init + [xs[|xs| - 1]] == xs;
    }
  }

  /** Deduplicating twice is the same as deduplicating once. */
  lemma DedupIdempotent(xs: seq<string>)
    ensures Dedup(Dedup(xs)) == Dedup(xs)
  {
    DedupElements(xs);
    DedupOfDistinct(Dedup(xs));
  }

  /** A duplicate-free list has as many elements as distinct values. */
  lemma {:induction false} DistinctCount(xs: seq<string>)
    requires NoDuplicates(xs)
    ensures |set x | x in xs| == |xs|
  {
    if xs != [] {
      var init := xs[..|xs| - 1];
      var x := xs[|xs| - 1];
      assert forall i :: 0 <= i < |init| ==> init[i] == xs[i];
      DistinctCount(init);
      assert xs == init + [x];
      assert (set y | y in xs) == (set y | y in init) + {x};
    }
  }

  /** The deduplication has one element per distinct value of the input, so
      the count the caller reports as removed, `|xs| - |Dedup(xs)|`, is the
      number of repeated occurrences; it is zero exactly when the input had
      no duplicates. */
  lemma DedupLength(xs: seq<string>)
    ensures |Dedup(xs)| == |set x | x in xs|
    ensures |Dedup(xs)| == |xs| <==> NoDuplicates(xs)
  {
    DedupElements(xs);
    DistinctCount(Dedup(xs));
    assert (set x | x in Dedup(xs)) == (set x | x in xs);
    if NoDuplicates(xs) {
      DedupOfDistinct(xs);
    } else {
      var i, j :| 0 <= i < j < |xs| && xs[i] == xs[j];
      SetSmaller(xs, i, j);
    }
  }

  /** A list with a repeated value has fewer distinct values than elements. */
  lemma {:induction false} SetSmaller(xs: seq<string>, i: nat, j: nat)
    requires i < j < |xs| && xs[i] == xs[j]
    ensures |set x | x in xs| < |xs|
  {
    var init := xs[..|xs| - 1];
    var x := xs[|xs| - 1];
    assert xs == init + [x];
    assert (set y | y in xs) == (set y | y in init) + {x};
    if j < |xs| - 1 {
      assert init[i] == init[j];
      SetSmaller(init, i, j);
    } else {
      assert x in init by { assert init[i] == x; }
      SetAtMost(init);
    }
  }

  /** There are never more distinct values than elements. */
  lemma {:induction false} SetAtMost(xs: seq<string>)
    ensures |set x | x in xs| <= |xs|
  {
    if xs != [] {
      var init := xs[..|xs| - 1];
      var x := xs[|xs| - 1];
      assert xs == init + [x];
      assert (set y | y in xs) == (set y | y in init) + {x};
      SetAtMost(init);
    }
  }

  /** Appending one more epitope keeps it exactly when it was not seen yet. */
  lemma DedupSnoc(xs: seq<string>, x: string)
    ensures Dedup(xs + [x]) == if x in xs then Dedup(xs) else Dedup(xs) + [x]
  {
    DedupElements(xs);
    assert (xs + [x])[..|xs|] == xs;
  }

  /** The worked example: for three different epitopes, a, b, a, c, b keeps
      a, b, c and drops two. */
  lemma DedupExample(a: string, b: string, c: string)
    requires a != b && a != c && b != c
    ensures Dedup([a, b, a, c, b]) == [a, b, c]
    ensures |[a, b, a, c, b]| - |Dedup([a, b, a, c, b])| == 2
  {
    assert Dedup([a]) == [a] by {
      assert [a] == [] + [a];
      DedupSnoc([], a);
    }
    assert Dedup([a, b]) == [a, b] by {
      assert [a, b] == [a] + [b];
      DedupSnoc([a], b);
    }
    assert Dedup([a, b, a]) == [a, b] by {
      assert [a, b, a] == [a, b] + [a];
      assert a in [a, b];
      DedupSnoc([a, b], a);
    }
    assert Dedup([a, b, a, c]) == [a, b, c] by {
      assert [a, b, a, c] == [a, b, a] + [c];
      assert c !in [a, b, a];
      DedupSnoc([a, b, a], c);
    }
    assert [a, b, a, c, b] == [a, b, a, c] + [b];
    assert b in [a, b, a, c];
    DedupSnoc([a, b, a, c], b);
  }
}
