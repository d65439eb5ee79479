/** Shared vocabulary of the model: calendar days, optional values, and the
    order-preserving filter that every "keep the truthy results" loop of the
    program performs. */
module Basics {

  /** A calendar date, as a day number. The program stores dates as
      `YYYY-MM-DD` text; only their order and day differences matter here. */
  type Day = int

  /** Python's `None`-or-value results. */
  datatype Option<+T> = None | Some(value: T)

  /** `idx` lists positions of a sequence of length `n`, strictly increasing. */
  ghost predicate Increasing(idx: seq<int>, n: int) {
    && (forall k :: 0 <= k < |idx| ==> 0 <= idx[k] < n)
    && (forall k, l :: 0 <= k < l < |idx| ==> idx[k] < idx[l])
  }

  /** Walks `xs` front to back and keeps `v` for every element whose `f` is
      `Some(v)`; the shape of `for x in xs: if r := f(x): out.append(r)`. */
  function FilterMap<A, B>(xs: seq<A>, f: A -> Option<B>): (r: seq<B>)
    ensures |r| <= |xs|
  {
    if |xs| == 0 then []
    else
      var prev := FilterMap(xs[..|xs| - 1], f);
      match f(xs[|xs| - 1])
      case Some(y) => prev + [y]
      case None => prev
  }

  /** The result of `FilterMap` is exactly the kept elements, in input order:
      there is an increasing list of positions that picks out each result, and a
      position is picked iff `f` keeps that element. */
  lemma {:induction false} FilterMapSelection<A, B>(xs: seq<A>, f: A -> Option<B>) returns (idx: seq<int>)
    ensures Increasing(idx, |xs|)
    ensures |idx| == |FilterMap(xs, f)|
    ensures forall k :: 0 <= k < |idx| ==> f(xs[idx[k]]) == Some(FilterMap(xs, f)[k])
    ensures forall i :: 0 <= i < |xs| ==> (f(xs[i]).Some? <==> i in idx)
  {
    if |xs| == 0 {
      return [];
    }
    var n := |xs| - 1;
    var init := xs[..n];
    var prev := FilterMapSelection(init, f);
    assert forall i :: 0 <= i < n ==> init[i] == xs[i];
    var r := FilterMap(xs, f);
    if f(xs[n]).Some? {
      idx := prev + [n];
      assert r == FilterMap(init, f) + [f(xs[n]).value];
      forall k | 0 <= k < |idx|
        ensures f(xs[idx[k]]) == Some(r[k])
      {
        if k < |prev| {
          assert idx[k] == prev[k];
        }
      }
    } else {
      idx := prev;
    }
  }

  /** Filtering a concatenation filters each part. */
  lemma {:induction false} FilterMapAppend<A, B>(xs: seq<A>, ys: seq<A>, f: A -> Option<B>)
    ensures FilterMap(xs + ys, f) == FilterMap(xs, f) + FilterMap(ys, f)
    decreases |ys|
  {
    if |ys| == 0 {
      assert xs + ys == xs;
    } else {
      var m := |ys| - 1;
      assert (xs + ys)[..|xs + ys| - 1] == xs + ys[..m];
      assert (xs + ys)[|xs + ys| - 1] == ys[m];
      FilterMapAppend(xs, ys[..m], f);
    }
  }

  /** Positions of the first occurrences in `xs` of the elements that satisfy
      `p`, front to back: what a loop that acts on an element once and then
      remembers it (in a table, say) acts on. */
  ghost function FirstPicks<T>(xs: seq<T>, p: T -> bool): seq<int> {
    if |xs| == 0 then []
    else
      var n := |xs| - 1;
      FirstPicks(xs[..n], p) + if p(xs[n]) && xs[n] !in xs[..n] then [n] else []
  }

  /** The picked positions increase, and a position is picked iff its element
      satisfies `p` and does not occur earlier. */
  lemma {:induction false} FirstPicksFacts<T>(xs: seq<T>, p: T -> bool)
    ensures Increasing(FirstPicks(xs, p), |xs|)
    ensures forall j :: 0 <= j < |xs| ==> (j in FirstPicks(xs, p) <==> p(xs[j]) && xs[j] !in xs[..j])
  {
    if |xs| > 0 {
      var n := |xs| - 1;
      FirstPicksFacts(xs[..n], p);
      assert forall j :: 0 <= j < n ==> xs[..n][j] == xs[j] && xs[..n][..j] == xs[..j];
    }
  }
}
