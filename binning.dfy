/**
 * The histogram bins of the report generators: how many bins the
 * `min_clock_measured` column is cut into, where the bin edges fall
 * (evenly spaced points from min to max, cut to integers) and which label each bin
 * gets (the edge plus half the bin width, rounded half to even as Python's
 * `round` does).
 *
 * Clock counts are non-negative integers. The linspace points are computed
 * with exact rationals: the `i`-th edge is `min + floor(i * diff / bins)`
 * and the last edge is `max` itself, as numpy pins the endpoint.
 */
module Binning {
  import opened Text

  /** `NO_OF_BINS`: the cap on the number of bins. */
  const NoOfBins := 100

  /** `df[column].min()` and `df[column].max()` of a non-empty column. */
  function ColumnRange(col: seq<nat>): (r: (nat, nat))
    requires |col| > 0
    ensures r.0 in col && r.1 in col
    ensures forall k :: 0 <= k < |col| ==> r.0 <= col[k] <= r.1
  {
    if |col| == 1 then (col[0], col[0])
    else
      var rest := ColumnRange(col[1..]);
      assert forall k :: 1 <= k < |col| ==> col[k] == col[1..][k - 1];
      (if col[0] < rest.0 then col[0] else rest.0, if col[0] > rest.1 then col[0] else rest.1)
  }

  // ---------------------------------------------------------------------
  // Bin counts

  /** The older count (analysis/data_analysis.py): the spread of the clock
      values, capped at `NO_OF_BINS`, with no lower bound. */
  function OldBinsCount(diff: nat): (b: nat)
    ensures b <= NoOfBins && b <= diff
    ensures b == diff || b == NoOfBins
  {
    if diff < NoOfBins then diff else NoOfBins
  }

  /** With every measured minimum equal, the older count is zero bins,
      which `pd.cut` refuses. */
  lemma OldBinsCountConstantData(col: seq<nat>)
    requires |col| > 0 && forall k :: 0 <= k < |col| ==> col[k] == col[0]
    ensures OldBinsCount(ColumnRange(col).1 - ColumnRange(col).0) == 0
  {
  }

  /** The newer count (analysis/latex_generator.py): the same cap, then
      raised to at least one bin. */
  function BinsCount(diff: nat): (b: nat)
    ensures 1 <= b <= NoOfBins
    ensures diff >= 1 ==> b <= diff
    ensures b == if diff == 0 then 1 else OldBinsCount(diff)
  {
    var b := if diff < NoOfBins then diff else NoOfBins;
    if b < 1 then 1 else b
  }

  // ---------------------------------------------------------------------
  // Edges and labels

  /** The `bins + 1` evenly spaced points from `lo` to `hi`, cut to integers. */
  function Edges(lo: nat, hi: nat, bins: nat): (e: seq<int>)
    requires lo <= hi && bins >= 1
    ensures |e| == bins + 1
  {
    seq(bins + 1, i requires 0 <= i <= bins =>
      if i == bins then hi else lo + i * (hi - lo) / bins)
  }

  /** Python's `round(d / 2)` for an integer `d`: exact when `d` is even,
      otherwise the even one of the two neighbours. */
  function HalfRoundedEven(d: int): (h: int)
    ensures 2 * h - 1 <= d <= 2 * h + 1
    ensures d % 2 == 0 ==> 2 * h == d
    ensures d % 2 == 1 ==> h % 2 == 0
  {
    if d % 2 == 0 then d / 2
    else if (d / 2) % 2 == 0 then d / 2
    else d / 2 + 1
  }

  /** The label of each bin: its left edge plus half its width, rounded
      half to even. */
  function Labels(edges: seq<int>, bins: nat): (l: seq<int>)
    requires |edges| == bins + 1
    ensures |l| == bins
  {
    seq(bins, i requires 0 <= i < bins => edges[i] + HalfRoundedEven(edges[i + 1] - edges[i]))
  }

  /** The labels the newer generator hands to `pd.cut` for a column. A
      result file with a header and no rows gives an empty column, whose
      minimum and maximum are NaN; the count then falls back to the cap and
      `pd.cut` raises on the empty data. */
  function BinLabels(col: seq<nat>): (r: Result<seq<int>>)
    ensures r.Error? <==> |col| == 0
    ensures r.Ok? ==> 1 <= |r.value| <= NoOfBins
  {
    if |col| == 0 then Error("cannot cut an empty column")
    else
      var (lo, hi) := ColumnRange(col);
      var bins := BinsCount(hi - lo);
      Ok(Labels(Edges(lo, hi, bins), bins))
  }

  /** The edges run from the minimum to the maximum without going down. */
  lemma EdgesMonotone(lo: nat, hi: nat, bins: nat)
    requires lo <= hi && bins >= 1
    ensures Edges(lo, hi, bins)[0] == lo && Edges(lo, hi, bins)[bins] == hi
    ensures forall i :: 0 <= i < bins ==> Edges(lo, hi, bins)[i] <= Edges(lo, hi, bins)[i + 1]
    ensures forall i :: 0 <= i <= bins ==> lo <= Edges(lo, hi, bins)[i] <= hi
  {
    var e := Edges(lo, hi, bins);
    var diff := hi - lo;
    forall i | 0 <= i <= bins ensures lo <= e[i] <= hi {
      if i < bins {
        QuotientBounds(i, diff, bins);
      }
    }
    forall i | 0 <= i < bins ensures e[i] <= e[i + 1] {
      if i + 1 < bins {
        QuotientStep(i, diff, bins);
      }
    }
  }

  /** When no bin is narrower than a clock tick (`bins <= diff`) the edges
      are strictly increasing. */
  lemma EdgesStrict(lo: nat, hi: nat, bins: nat)
    requires lo <= hi && 1 <= bins <= hi - lo
    ensures forall i :: 0 <= i < bins ==> Edges(lo, hi, bins)[i] < Edges(lo, hi, bins)[i + 1]
  {
    var e := Edges(lo, hi, bins);
    var diff := hi - lo;
    forall i | 0 <= i < bins ensures e[i] < e[i + 1] {
      QuotientStep(i, diff, bins);
      if i + 1 == bins {
        DivUnique(bins * diff, bins, diff, 0);
      }
    }
  }

  lemma QuotientBounds(i: nat, diff: nat, bins: nat)
    requires bins >= 1 && i < bins
    ensures 0 <= i * diff / bins <= diff
  {
    MulLe(diff, i, bins);
    DivMonotone(i * diff, bins * diff, bins);
    DivUnique(bins * diff, bins, diff, 0);
  }

  /** Consecutive quotients grow by at least `diff / bins` rounded down. */
  lemma QuotientStep(i: nat, diff: nat, bins: nat)
    requires bins >= 1
    ensures i * diff / bins <= (i + 1) * diff / bins
    ensures diff >= bins ==> i * diff / bins + 1 <= (i + 1) * diff / bins
  {
    var a := i * diff;
    var b := (i + 1) * diff;
    assert b == a + diff;
    DivMonotone(a, b, bins);
    if diff >= bins {
      DivMonotone(a + bins, b, bins);
      DivUnique(a + bins, bins, a / bins + 1, a % bins);
    }
  }

  lemma MulLe(d: nat, x: nat, y: nat)
    requires x <= y
    ensures d * x <= d * y
  {
    assert d * y == d * x + d * (y - x);
  }

  /** Integer division is determined by quotient and remainder. */
  lemma DivUnique(x: nat, d: nat, q: nat, r: nat)
    requires d >= 1 && x == d * q + r && r < d
    ensures x / d == q
  {
    var q', r' := x / d, x % d;
    assert x == d * q' + r' && r' < d;
    if q' > q {
      MulLe(d, q + 1, q');
      assert false;
    } else if q' < q {
      MulLe(d, q' + 1, q);
      assert false;
    }
  }

  lemma DivMonotone(a: nat, b: nat, d: nat)
    requires d >= 1 && a <= b
    ensures a / d <= b / d
  {
    var qa, qb := a / d, b / d;
    assert a == d * qa + a % d && b == d * qb + b % d;
    if qa > qb {
      MulLe(d, qb + 1, qa);
      assert false;
    }
  }

  /** Each label lies inside its own bin. */
  lemma LabelsInBins(edges: seq<int>, bins: nat)
    requires |edges| == bins + 1
    requires forall i :: 0 <= i < bins ==> edges[i] <= edges[i + 1]
    ensures forall i :: 0 <= i < bins ==> edges[i] <= Labels(edges, bins)[i] <= edges[i + 1]
  {
    var l := Labels(edges, bins);
    forall i | 0 <= i < bins ensures edges[i] <= l[i] <= edges[i + 1] {
      var h := HalfRoundedEven(edges[i + 1] - edges[i]);
      assert l[i] == edges[i] + h;
    }
  }

  /** With strictly increasing edges each label lies strictly below the
      right edge of its bin, and the labels are strictly increasing: the
      distinct labels `pd.cut` requires. */
  lemma LabelsStrict(edges: seq<int>, bins: nat)
    requires |edges| == bins + 1
    requires forall i :: 0 <= i < bins ==> edges[i] < edges[i + 1]
    ensures forall i :: 0 <= i < bins ==> Labels(edges, bins)[i] < edges[i + 1]
    ensures forall i, j :: 0 <= i < j < bins ==> Labels(edges, bins)[i] < Labels(edges, bins)[j]
  {
    var l := Labels(edges, bins);
    forall i | 0 <= i < bins ensures edges[i] <= l[i] < edges[i + 1] { }
    forall i | 0 <= i < bins - 1 ensures l[i] < l[i + 1] { }
    forall i, j | 0 <= i < j < bins ensures l[i] < l[j] {
      LabelsChain(l, edges, bins, i, j);
    }
  }

  lemma {:induction false} LabelsChain(l: seq<int>, edges: seq<int>, bins: nat, i: nat, j: nat)
    requires |l| == bins && |edges| == bins + 1
    requires forall k :: 0 <= k < bins - 1 ==> l[k] < l[k + 1]
    requires i < j < bins
    ensures l[i] < l[j]
    decreases j - i
  {
    if i + 1 < j {
      LabelsChain(l, edges, bins, i + 1, j);
    }
  }

  /** The newer generator's labels: as many as there are bins, between 1
      and 100; a single label at the common value for constant data; and
      strictly increasing otherwise. */
  lemma BinLabelsDistinct(col: seq<nat>)
    ensures |col| > 0 && ColumnRange(col).1 == ColumnRange(col).0 ==>
              BinLabels(col) == Ok([ColumnRange(col).0])
    ensures BinLabels(col).Ok? ==>
              forall i, j :: 0 <= i < j < |BinLabels(col).value| ==> BinLabels(col).value[i] < BinLabels(col).value[j]
  {
    if |col| == 0 {
      return;
    }
    var lo := ColumnRange(col).0;
    var hi := ColumnRange(col).1;
    var bins := BinsCount(hi - lo);
    assert BinLabels(col) == Ok(Labels(Edges(lo, hi, bins), bins));
    if hi == lo {
      ConstantLabels(lo);
    } else {
      EdgesStrict(lo, hi, bins);
      LabelsStrict(Edges(lo, hi, bins), bins);
    }
  }

  lemma ConstantLabels(v: nat)
    ensures Labels(Edges(v, v, BinsCount(0)), BinsCount(0)) == [v]
  {
    var e := Edges(v, v, 1);
    assert e[0] == v && e[1] == v;
    assert Labels(e, 1)[0] == v;
  }
}
