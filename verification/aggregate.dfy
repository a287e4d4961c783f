/**
 * The aggregate functions the system computes over voltages and timestamps:
 * SQL `COUNT`, `MIN`, `MAX`, `AVG` on the server and `Math.min`, `Math.max`
 * and the reduce-sum average on the dashboard. Each is defined by recursion
 * on the prefix; its contract says what the value means.
 */
module Aggregate {

  function Sum(xs: seq<real>): real
    decreases |xs|
  {
    if |xs| == 0 then 0.0 else Sum(xs[..|xs| - 1]) + xs[|xs| - 1]
  }

  /** The least element: a lower bound that is attained. */
  function Min(xs: seq<real>): (m: real)
    requires |xs| > 0
    ensures forall i :: 0 <= i < |xs| ==> m <= xs[i]
    ensures exists i :: 0 <= i < |xs| && xs[i] == m
    decreases |xs|
  {
    if |xs| == 1 then xs[0]
    else
      var rest := Min(xs[..|xs| - 1]);
      assert forall i :: 0 <= i < |xs| - 1 ==> xs[..|xs| - 1][i] == xs[i];
      if xs[|xs| - 1] < rest then xs[|xs| - 1] else rest
  }

  /** The greatest element: an upper bound that is attained. */
  function Max(xs: seq<real>): (m: real)
    requires |xs| > 0
    ensures forall i :: 0 <= i < |xs| ==> xs[i] <= m
    ensures exists i :: 0 <= i < |xs| && xs[i] == m
    decreases |xs|
  {
    if |xs| == 1 then xs[0]
    else
      var rest := Max(xs[..|xs| - 1]);
      assert forall i :: 0 <= i < |xs| - 1 ==> xs[..|xs| - 1][i] == xs[i];
      if xs[|xs| - 1] > rest then xs[|xs| - 1] else rest
  }

  function Mean(xs: seq<real>): real
    requires |xs| > 0
  {
    Sum(xs) / |xs| as real
  }

  /** n copies of x added up: multiplication by a count, kept linear. */
  function Times(n: nat, x: real): real
    decreases n
  {
    if n == 0 then 0.0 else Times(n - 1, x) + x
  }

  lemma {:induction false} TimesMonotone(n: nat, a: real, b: real)
    requires a <= b
    ensures Times(n, a) <= Times(n, b)
    decreases n
  {
    if n > 0 {
      TimesMonotone(n - 1, a, b);
    }
  }

  lemma {:induction false} TimesIsProduct(n: nat, x: real)
    ensures Times(n, x) == n as real * x
    decreases n
  {
    if n > 0 {
      TimesIsProduct(n - 1, x);
      assert n as real * x == (n - 1) as real * x + x;
    }
  }

  /** The sum lies between count copies of the minimum and of the maximum. */
  lemma {:induction false} SumBounds(xs: seq<real>)
    requires |xs| > 0
    ensures Times(|xs|, Min(xs)) <= Sum(xs) <= Times(|xs|, Max(xs))
    decreases |xs|
  {
    var lo, hi := Min(xs), Max(xs);
    if |xs| == 1 {
      assert Sum(xs) == Sum(xs[..0]) + xs[0];
    } else {
      var pre := xs[..|xs| - 1];
      SumBounds(pre);
      assert forall i :: 0 <= i < |pre| ==> pre[i] == xs[i];
      assert lo <= Min(pre) by {
        var j :| 0 <= j < |pre| && pre[j] == Min(pre);
      }
      assert Max(pre) <= hi by {
        var j :| 0 <= j < |pre| && pre[j] == Max(pre);
      }
      TimesMonotone(|pre|, lo, Min(pre));
      TimesMonotone(|pre|, Max(pre), hi);
    }
  }

  lemma DivideBounds(n: nat, lo: real, hi: real, s: real)
    requires n > 0 && Times(n, lo) <= s <= Times(n, hi)
    ensures lo <= s / n as real <= hi
  {
    TimesIsProduct(n, lo);
    TimesIsProduct(n, hi);
    var m := n as real;
    QuotientAbove(m, lo, s);
    QuotientBelow(m, hi, s);
  }

  lemma QuotientAbove(m: real, lo: real, s: real)
    requires m > 0.0 && m * lo <= s
    ensures lo <= s / m
  {
    var q := s / m;
    assert q * m == s;
    assert (q - lo) * m == s - m * lo;
  }

  lemma QuotientBelow(m: real, hi: real, s: real)
    requires m > 0.0 && s <= m * hi
    ensures s / m <= hi
  {
    var q := s / m;
    assert q * m == s;
    assert (hi - q) * m == m * hi - s;
  }

  /** The average never leaves the [min, max] interval. */
  lemma MeanBetween(xs: seq<real>)
    requires |xs| > 0
    ensures Min(xs) <= Mean(xs) <= Max(xs)
  {
    SumBounds(xs);
    DivideBounds(|xs|, Min(xs), Max(xs), Sum(xs));
  }

  /** Whole numbers (timestamps) as reals, so that MIN and MAX have one definition. */
  function Reals(ts: seq<int>): (rs: seq<real>)
    ensures |rs| == |ts| && forall i :: 0 <= i < |ts| ==> rs[i] == ts[i] as real
  {
    seq(|ts|, i requires 0 <= i < |ts| => ts[i] as real)
  }

  /** MIN over timestamps: the least of them, one of them. */
  function Earliest(ts: seq<int>): (m: int)
    requires |ts| > 0
    ensures forall i :: 0 <= i < |ts| ==> m <= ts[i]
    ensures exists i :: 0 <= i < |ts| && ts[i] == m
  {
    var rs := Reals(ts);
    assert exists i :: 0 <= i < |ts| && ts[i] == Min(rs).Floor by {
      var k :| 0 <= k < |rs| && rs[k] == Min(rs);
      assert Min(rs) == ts[k] as real;
    }
    Min(rs).Floor
  }

  /** MAX over timestamps: the greatest of them, one of them. */
  function Latest(ts: seq<int>): (m: int)
    requires |ts| > 0
    ensures forall i :: 0 <= i < |ts| ==> ts[i] <= m
    ensures exists i :: 0 <= i < |ts| && ts[i] == m
  {
    var rs := Reals(ts);
    assert exists i :: 0 <= i < |ts| && ts[i] == Max(rs).Floor by {
      var k :| 0 <= k < |rs| && rs[k] == Max(rs);
      assert Max(rs) == ts[k] as real;
    }
    Max(rs).Floor
  }
}
