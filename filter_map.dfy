/** Order-preserving filter-map: the shape shared by both CPU-reading extractors
    (keep the value a node yields, skip the node when it yields none) and by the
    pairwise comparator (keep the aligned pairs that are significant). */
module FilterMaps {
  import opened Wrappers

  /** The values `f` yields for the elements of `xs`, in the order of `xs`. */
  function FilterMap<T, U>(xs: seq<T>, f: T -> Option<U>): seq<U>
  {
    if |xs| == 0 then []
    else FilterMap(xs[..|xs| - 1], f) + Yield(f(xs[|xs| - 1]))
  }

  /** What one element contributes: its value, or nothing. */
  function Yield<U>(o: Option<U>): (r: seq<U>)
    ensures o.None? ==> r == []
    ensures o.Some? ==> r == [o.value]
  {
    match o
    case None => []
    case Some(v) => [v]
  }

  /** The positions of `xs` for which `f` yields a value, ascending. */
  ghost function Kept<T, U>(xs: seq<T>, f: T -> Option<U>): seq<nat>
  {
    if |xs| == 0 then []
    else Kept(xs[..|xs| - 1], f) + (if f(xs[|xs| - 1]).Some? then [|xs| - 1] else [])
  }

  /** One output per kept position, and no more than the input. */
  lemma {:induction false} KeptLength<T, U>(xs: seq<T>, f: T -> Option<U>)
    ensures |FilterMap(xs, f)| == |Kept(xs, f)| <= |xs|
  {
    if |xs| > 0 {
      KeptLength(xs[..|xs| - 1], f);
    }
  }

  /** Kept positions are in range and strictly increasing. */
  lemma {:induction false} KeptIncreasing<T, U>(xs: seq<T>, f: T -> Option<U>)
    ensures forall m :: 0 <= m < |Kept(xs, f)| ==> Kept(xs, f)[m] < |xs|
    ensures forall m, m' :: 0 <= m < m' < |Kept(xs, f)| ==> Kept(xs, f)[m] < Kept(xs, f)[m']
  {
    if |xs| > 0 {
      var n := |xs| - 1;
      KeptIncreasing(xs[..n], f);
      var ks0 := Kept(xs[..n], f);
      assert Kept(xs, f) == ks0 + (if f(xs[n]).Some? then [n] else []);
    }
  }

  /** The output at index `m` is the value of the element at the `m`-th kept position. */
  lemma {:induction false} KeptValues<T, U>(xs: seq<T>, f: T -> Option<U>)
    ensures |FilterMap(xs, f)| == |Kept(xs, f)|
    ensures forall m :: 0 <= m < |Kept(xs, f)| ==>
              Kept(xs, f)[m] < |xs| && f(xs[Kept(xs, f)[m]]) == Some(FilterMap(xs, f)[m])
  {
    KeptLength(xs, f);
    KeptIncreasing(xs, f);
    if |xs| > 0 {
      var n := |xs| - 1;
      var init := xs[..n];
      var ks0, out0 := Kept(init, f), FilterMap(init, f);
      var ks, out := Kept(xs, f), FilterMap(xs, f);
      assert ks == ks0 + (if f(xs[n]).Some? then [n] else []);
      assert out == out0 + Yield(f(xs[n]));
      KeptLength(init, f);
      forall m | 0 <= m < |ks|
        ensures f(xs[ks[m]]) == Some(out[m])
      {
        if m < |ks0| {
          KeptValues(init, f);
          assert ks[m] == ks0[m] && out[m] == out0[m];
          assert xs[ks[m]] == init[ks0[m]];
        }
      }
    }
  }

  /** An element is kept exactly when it yields a value. */
  lemma {:induction false} KeptComplete<T, U>(xs: seq<T>, f: T -> Option<U>)
    ensures forall i :: 0 <= i < |xs| ==> (f(xs[i]).Some? <==> i in Kept(xs, f))
  {
    if |xs| > 0 {
      var n := |xs| - 1;
      var init := xs[..n];
      var ks0 := Kept(init, f);
      var ks := Kept(xs, f);
      assert ks == ks0 + (if f(xs[n]).Some? then [n] else []);
      KeptIncreasing(init, f);
      forall i | 0 <= i < |xs|
        ensures f(xs[i]).Some? <==> i in ks
      {
        if i < n {
          KeptComplete(init, f);
          assert xs[i] == init[i];
          assert i in ks0 <==> i in ks;
        }
      }
    }
  }

  /** The filter-map keeps exactly the elements that yield a value, one output
      per kept element, in their original order. */
  lemma {:induction false} FilterMapKept<T, U>(xs: seq<T>, f: T -> Option<U>)
    ensures |FilterMap(xs, f)| == |Kept(xs, f)| <= |xs|
    ensures forall m :: 0 <= m < |Kept(xs, f)| ==>
              Kept(xs, f)[m] < |xs| && f(xs[Kept(xs, f)[m]]) == Some(FilterMap(xs, f)[m])
    ensures forall m, m' :: 0 <= m < m' < |Kept(xs, f)| ==> Kept(xs, f)[m] < Kept(xs, f)[m']
    ensures forall i :: 0 <= i < |xs| ==> (f(xs[i]).Some? <==> i in Kept(xs, f))
  {
    KeptLength(xs, f);
    KeptIncreasing(xs, f);
    KeptValues(xs, f);
    KeptComplete(xs, f);
  }

  /** Filtering a concatenation filters each part: an element that yields
      nothing does not stop the elements after it from being processed. */
  lemma {:induction false} FilterMapAppend<T, U>(xs: seq<T>, ys: seq<T>, f: T -> Option<U>)
    ensures FilterMap(xs + ys, f) == FilterMap(xs, f) + FilterMap(ys, f)
    decreases |ys|
  {
    if |ys| > 0 {
      var n := |ys| - 1;
      assert (xs + ys)[..|xs + ys| - 1] == xs + ys[..n];
      FilterMapAppend(xs, ys[..n], f);
    } else {
      assert xs + ys == xs;
    }
  }
}
