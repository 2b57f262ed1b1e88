/** Means over a column with null cells, as pandas computes them by default
    (`skipna`): null cells are left out, and a column with no values has no mean. */
module Stats {
  import opened Wrappers

  /** The values of the non-null cells, in column order. */
  function Present(xs: seq<Option<nat>>): seq<nat>
  {
    if |xs| == 0 then []
    else Present(xs[..|xs| - 1]) + (if xs[|xs| - 1].Some? then [xs[|xs| - 1].value] else [])
  }

  /** The indices of the non-null cells. */
  function PresentIndices(xs: seq<Option<nat>>): set<nat>
  {
    set k: nat | k < |xs| && xs[k].Some?
  }

  function Sum(vs: seq<nat>): nat
  {
    if |vs| == 0 then 0 else vs[0] + Sum(vs[1..])
  }

  /** The arithmetic mean; `None` for an empty list of values. */
  function Mean(vs: seq<nat>): (m: Option<real>)
    ensures m.None? <==> |vs| == 0
  {
    if |vs| == 0 then None else Some(Sum(vs) as real / |vs| as real)
  }

  /** `column.mean()`: no mean when every cell is null; otherwise the sum of the
      non-null cells divided by the number of non-null cells. */
  function MeanOfPresent(xs: seq<Option<nat>>): (m: Option<real>)
    ensures m.None? <==> forall k :: 0 <= k < |xs| ==> xs[k].None?
    ensures m.Some? ==>
      |PresentIndices(xs)| > 0 && m.value == Sum(Present(xs)) as real / |PresentIndices(xs)| as real
  {
    PresentLength(xs);
    PresentEmpty(xs);
    Mean(Present(xs))
  }

  lemma {:induction false} PresentAppend(xs: seq<Option<nat>>, ys: seq<Option<nat>>)
    ensures Present(xs + ys) == Present(xs) + Present(ys)
    decreases |ys|
  {
    if |ys| == 0 {
      assert xs + ys == xs;
    } else {
      var n := |ys| - 1;
      assert (xs + ys)[..|xs + ys| - 1] == xs + ys[..n];
      PresentAppend(xs, ys[..n]);
    }
  }

  /** A value is reported exactly when some cell holds it. */
  lemma {:induction false} PresentMembers(xs: seq<Option<nat>>, v: nat)
    ensures v in Present(xs) <==> exists k :: 0 <= k < |xs| && xs[k] == Some(v)
    decreases |xs|
  {
    if |xs| > 0 {
      var n := |xs| - 1;
      PresentMembers(xs[..n], v);
      if v in Present(xs[..n]) {
        var k :| 0 <= k < n && xs[..n][k] == Some(v);
        assert xs[k] == Some(v);
      }
      if exists k :: 0 <= k < |xs| && xs[k] == Some(v) {
        var k :| 0 <= k < |xs| && xs[k] == Some(v);
        if k < n {
          assert xs[..n][k] == Some(v);
        }
      }
    }
  }

  /** One value per non-null cell, so nulls neither count nor add. */
  lemma {:induction false} PresentLength(xs: seq<Option<nat>>)
    ensures |Present(xs)| == |PresentIndices(xs)|
    decreases |xs|
  {
    if |xs| > 0 {
      var n := |xs| - 1;
      PresentLength(xs[..n]);
      if xs[n].Some? {
        assert PresentIndices(xs) == PresentIndices(xs[..n]) + {n};
      } else {
        assert PresentIndices(xs) == PresentIndices(xs[..n]);
      }
    }
  }

  /** No value is reported exactly when every cell is null. */
  lemma PresentEmpty(xs: seq<Option<nat>>)
    ensures Present(xs) == [] <==> forall k :: 0 <= k < |xs| ==> xs[k].None?
  {
    PresentLength(xs);
    if exists k :: 0 <= k < |xs| && xs[k].Some? {
      var k :| 0 <= k < |xs| && xs[k].Some?;
      assert k in PresentIndices(xs);
    } else {
      assert PresentIndices(xs) == {};
    }
  }

  lemma {:induction false} SumBounds(vs: seq<nat>, lo: int, hi: int)
    requires forall k :: 0 <= k < |vs| ==> lo <= vs[k] <= hi
    ensures lo * |vs| <= Sum(vs) <= hi * |vs|
    decreases |vs|
  {
    if |vs| > 0 {
      SumBounds(vs[1..], lo, hi);
      assert lo * |vs| == lo + lo * (|vs| - 1);
      assert hi * |vs| == hi + hi * (|vs| - 1);
    }
  }

  /** The mean lies between any lower and upper bound of the values averaged. */
  lemma MeanBounds(vs: seq<nat>, lo: int, hi: int)
    requires |vs| > 0
    requires forall k :: 0 <= k < |vs| ==> lo <= vs[k] <= hi
    ensures Mean(vs).Some?
    ensures lo as real <= Mean(vs).value <= hi as real
  {
    SumBounds(vs, lo, hi);
    QuotientBounds(Sum(vs) as real, |vs| as real, lo as real, hi as real);
  }

  lemma QuotientBounds(a: real, n: real, lo: real, hi: real)
    requires n > 0.0 && lo * n <= a <= hi * n
    ensures lo <= a / n <= hi
  {
    assert a / n - lo == (a - lo * n) / n;
    assert hi - a / n == (hi * n - a) / n;
  }

  /** Null cells added to a column do not change its mean: a null is never read as 0. */
  lemma MeanIgnoresNulls(xs: seq<Option<nat>>, nulls: seq<Option<nat>>)
    requires forall k :: 0 <= k < |nulls| ==> nulls[k].None?
    ensures MeanOfPresent(xs + nulls) == MeanOfPresent(xs)
  {
    PresentAppend(xs, nulls);
    PresentLength(nulls);
    assert PresentIndices(nulls) == {};
    assert Present(xs) + [] == Present(xs);
  }
}
