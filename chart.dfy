/**
 * The category chart (web/components/CategoryChart.tsx): the share of
 * domestic and overseas articles, in whole percent.
 *
 * `Math.round(domestic / total * 100)` is computed on exact rationals here:
 * the nearest integer, halves rounded up.
 */
module CategoryChart {
  import opened Wrappers

  /** The two percentages, domestic first. */
  datatype Split = Split(domesticPct: int, overseasPct: int)

  /** Round-half-up of `num / den` for a positive `den`. */
  function RoundHalfUp(num: int, den: int): (r: int)
    requires den > 0
    ensures 2 * den * r <= 2 * num + den < 2 * den * (r + 1)
  {
    (2 * num + den) / (2 * den)
  }

  /** `CategoryChart`: nothing when there are no articles; otherwise the
      rounded domestic share and the rest of 100 as the overseas share. */
  function Chart(domestic: nat, overseas: nat): (r: Option<Split>)
    ensures r.None? <==> domestic + overseas == 0
    ensures r.Some? ==> r.value.domesticPct + r.value.overseasPct == 100
    ensures r.Some? ==> 0 <= r.value.domesticPct <= 100 && 0 <= r.value.overseasPct <= 100
    ensures r.Some? ==>
      var total := domestic + overseas;
      2 * total * r.value.domesticPct <= 200 * domestic + total < 2 * total * (r.value.domesticPct + 1)
  {
    var total := domestic + overseas;
    if total == 0 then None
    else
      var pct := RoundHalfUp(100 * domestic, total);
      Bounds(domestic, total, pct);
      Some(Split(pct, 100 - pct))
  }

  lemma Bounds(domestic: nat, total: int, pct: int)
    requires total > 0 && domestic <= total
    requires 2 * total * pct <= 200 * domestic + total < 2 * total * (pct + 1)
    ensures 0 <= pct <= 100
  {
  }

  /** The rounding is the nearest percentage: no other whole number is
      closer to the exact share, and a tie goes up. */
  lemma Nearest(domestic: nat, overseas: nat, q: int)
    requires domestic + overseas > 0
    ensures var total := domestic + overseas;
      var p := Chart(domestic, overseas).value.domesticPct;
      Abs(100 * domestic - total * p) <= Abs(100 * domestic - total * q)
  {
    var total := domestic + overseas;
    NearestRound(100 * domestic, total, Chart(domestic, overseas).value.domesticPct, q);
  }

  lemma NearestRound(e: int, t: int, p: int, q: int)
    requires t > 0
    requires 2 * t * p <= 2 * e + t < 2 * t * (p + 1)
    ensures Abs(e - t * p) <= Abs(e - t * q)
  {
    var x := e - t * p;
    assert -t <= 2 * x < t;
    var k := p - q;
    assert e - t * q == x + t * k;
    if k >= 1 {
      MulAtLeast(t, k);
    } else if k <= -1 {
      MulAtLeast(t, -k);
    }
  }

  lemma MulAtLeast(t: nat, k: int)
    requires k >= 1
    ensures t * k >= t
  {
  }

  function Abs(x: int): nat {
    if x < 0 then -x else x
  }

  /** The extremes: no domestic articles is 0 / 100, no overseas ones is
      100 / 0, and an even split is 50 / 50. */
  lemma Extremes(n: nat)
    requires n > 0
    ensures Chart(0, n) == Some(Split(0, 100))
    ensures Chart(n, 0) == Some(Split(100, 0))
    ensures Chart(n, n) == Some(Split(50, 50))
  {
    assert RoundHalfUp(0, n) == 0;
    assert RoundHalfUp(100 * n, n) == 100 by {
      var r := RoundHalfUp(100 * n, n);
      assert 2 * n * r <= 2 * n * 100 + n < 2 * n * (r + 1);
      Exact(n, r, 100);
    }
    assert RoundHalfUp(100 * n, 2 * n) == 50 by {
      var r := RoundHalfUp(100 * n, 2 * n);
      assert 4 * n * r <= 4 * n * 50 + 2 * n < 4 * n * (r + 1);
      Exact(2 * n, r, 50);
    }
  }

  /** Halfway between `v` and `v + 1` lies in the rounding interval of `v`
      and no other. */
  lemma Exact(d: int, r: int, v: int)
    requires d > 0
    requires 2 * d * r <= 2 * d * v + d < 2 * d * (r + 1)
    ensures r == v
  {
    if r < v {
      MulAtLeast(2 * d, v - r);
    } else if r > v {
      MulAtLeast(2 * d, r - v);
    }
  }

  /** Rounding half up: one domestic article in eight is 12.5 %, shown as
      13 %. */
  lemma HalfGoesUp()
    ensures Chart(1, 7) == Some(Split(13, 87))
  {
  }

  /** More domestic articles out of the same total never lower the
      domestic share. */
  lemma Monotone(d1: nat, d2: nat, total: nat)
    requires 0 < total && d1 <= d2 <= total
    ensures Chart(d1, total - d1).value.domesticPct <= Chart(d2, total - d2).value.domesticPct
  {
  }
}
