/**
 `IntensityGradient`: a histogram of the acceleration metric over fixed
 intensity bins, accumulated over every block of a day's state, and at the
 end of the state a log-log regression of the bin minutes against the bin
 midpoints. The regression itself (scipy's `linregress` on the logarithms)
 is a parameter of the model.
 */
module Gradient {
  import opened Windowed
  import opened Tables
  import opened Endpoints

  // ---------------------------------------------------------------------
  // Bins

  /** The number of bins: edges 0, 25, ..., 4000 mg and a last edge at 8000 mg. */
  const BinCount: nat := 161

  /** Edge k in g: k * 25 / 1000 for k <= 160, then 8.0. */
  function Edge(k: nat): real
    requires k <= BinCount
  {
    if k <= 160 then k as real / 40.0 else 8.0
  }

  lemma EdgesIncrease(k: nat)
    requires k < BinCount
    ensures Edge(k) < Edge(k + 1)
  {
  }

  /** Bin k covers `[Edge(k), Edge(k + 1))`, and the last bin also holds its right edge. */
  predicate InBin(a: real, k: nat)
    requires k < BinCount
  {
    Edge(k) <= a && (a < Edge(k + 1) || (k == BinCount - 1 && a == Edge(BinCount)))
  }

  /**
   The bin numpy's `histogram` puts a value in, or None for a value outside
   `[0, 8]` (which no bin counts).
   */
  function BinOf(a: real): (b: Option<nat>)
    ensures b.Some? <==> 0.0 <= a <= 8.0
    ensures b.Some? ==> b.value < BinCount && InBin(a, b.value)
  {
    if a < 0.0 || a > 8.0 then None
    else if a >= 4.0 then Some(160)
    else
      var f := (a * 40.0).Floor;
      assert f as real <= a * 40.0 < f as real + 1.0;
      Some(f)
  }

  /** The bins do not overlap: a value in bin k is put in bin k. */
  lemma BinOfUnique(a: real, k: nat)
    requires k < BinCount && InBin(a, k)
    ensures BinOf(a) == Some(k)
  {
  }

  // ---------------------------------------------------------------------
  // Histogram

  /** `histogram(a, bins=edges)[0]`: the count of each bin. */
  function Histogram(a: seq<real>): (h: seq<nat>)
    ensures |h| == BinCount
  {
    if |a| == 0 then seq(BinCount, _ => 0)
    else
      var h := Histogram(a[..|a| - 1]);
      match BinOf(a[|a| - 1])
      case None => h
      case Some(k) => h[k := h[k] + 1]
  }

  /** The epochs of `a` that fall in bin k. */
  ghost function InBinSet(a: seq<real>, k: nat): set<nat> {
    set j: nat | j < |a| && BinOf(a[j]) == Some(k)
  }

  /** Each count is the number of epochs in its bin. */
  lemma {:induction false} HistogramCounts(a: seq<real>, k: nat)
    requires k < BinCount
    ensures Histogram(a)[k] == |InBinSet(a, k)|
  {
    if |a| == 0 {
      assert InBinSet(a, k) == {};
    } else {
      var p := a[..|a| - 1];
      HistogramCounts(p, k);
      InBinSetStep(a, k);
    }
  }

  /** The last epoch joins its bin's set of epochs and no other. */
  lemma InBinSetStep(a: seq<real>, k: nat)
    requires |a| > 0
    ensures BinOf(a[|a| - 1]) == Some(k) ==> InBinSet(a, k) == InBinSet(a[..|a| - 1], k) + {|a| - 1}
    ensures BinOf(a[|a| - 1]) != Some(k) ==> InBinSet(a, k) == InBinSet(a[..|a| - 1], k)
  {
    var p := a[..|a| - 1];
    assert forall j :: 0 <= j < |p| ==> p[j] == a[j];
  }

  /** Histograms of consecutive blocks add up to the histogram of the joined blocks. */
  lemma {:induction false} HistogramAppend(a: seq<real>, b: seq<real>)
    ensures forall k :: 0 <= k < BinCount ==> Histogram(a + b)[k] == Histogram(a)[k] + Histogram(b)[k]
    decreases |b|
  {
    if |b| == 0 {
      assert a + b == a;
    } else {
      var q := b[..|b| - 1];
      assert (a + b)[..|a + b| - 1] == a + q;
      assert (a + b)[|a + b| - 1] == b[|b| - 1];
      HistogramAppend(a, q);
    }
  }

  /** The number of epochs of `a` inside `[0, 8]`, the range the bins cover. */
  function Binned(a: seq<real>): nat {
    if |a| == 0 then 0
    else Binned(a[..|a| - 1]) + (if 0.0 <= a[|a| - 1] <= 8.0 then 1 else 0)
  }

  lemma SumNatIncrement(h: seq<nat>, k: nat)
    requires k < |h|
    ensures SumNat(h[k := h[k] + 1]) == SumNat(h) + 1
  {
    var h1 := h[k := h[k] + 1];
    assert h == h[..k] + [h[k]] + h[k + 1..];
    assert h1 == h[..k] + [h[k] + 1] + h[k + 1..];
    SumNatAppend(h[..k] + [h[k]], h[k + 1..]);
    SumNatAppend(h[..k], [h[k]]);
    SumNatAppend(h[..k] + [h[k] + 1], h[k + 1..]);
    SumNatAppend(h[..k], [h[k] + 1]);
    assert [h[k]][..0] == [];
    assert [h[k] + 1][..0] == [];
  }

  lemma {:induction false} SumNatZeros(n: nat)
    ensures SumNat(seq(n, _ => 0)) == 0
  {
    if n > 0 {
      assert seq(n, _ => 0)[..n - 1] == seq(n - 1, _ => 0);
      SumNatZeros(n - 1);
    }
  }

  /** Every epoch in `[0, 8]` is counted in exactly one bin. */
  lemma {:induction false} HistogramTotal(a: seq<real>)
    ensures SumNat(Histogram(a)) == Binned(a)
  {
    if |a| == 0 {
      SumNatZeros(BinCount);
    } else {
      HistogramTotal(a[..|a| - 1]);
      match BinOf(a[|a| - 1])
      case None =>
      case Some(k) => SumNatIncrement(Histogram(a[..|a| - 1]), k);
    }
  }

  // ---------------------------------------------------------------------
  // The cached state

  /** `self.hist` in minutes per bin, and the day whose cells the pointers refer to. */
  datatype Cache = Cache(hist: seq<real>, day: Option<nat>)

  /** The state after construction and after every `reset_cached`. */
  function Fresh(): (c: Cache)
    ensures |c.hist| == BinCount && c.day.None?
  {
    Cache(seq(BinCount, _ => 0.0), None)
  }

  /** `predict`: add the block's minutes per bin and remember the day. */
  function Predict(c: Cache, i: nat, accm: seq<real>, epm: nat): (d: Cache)
    requires |c.hist| == BinCount && epm > 0
    ensures |d.hist| == BinCount && d.day == Some(i)
    ensures forall k :: 0 <= k < BinCount ==> d.hist[k] == c.hist[k] + Histogram(accm)[k] as real / epm as real
  {
    var h := Histogram(accm);
    Cache(seq(BinCount, k requires 0 <= k < BinCount => c.hist[k] + h[k] as real / epm as real), Some(i))
  }

  /** Two blocks accumulate the same histogram as their concatenation. */
  lemma PredictBlocks(c: Cache, i: nat, a: seq<real>, b: seq<real>, epm: nat)
    requires |c.hist| == BinCount && epm > 0
    ensures Predict(Predict(c, i, a, epm), i, b, epm) == Predict(c, i, a + b, epm)
  {
    HistogramAppend(a, b);
    var two := Predict(Predict(c, i, a, epm), i, b, epm);
    var one := Predict(c, i, a + b, epm);
    forall k | 0 <= k < BinCount
      ensures two.hist[k] == one.hist[k]
    {
      QuotientSum(Histogram(a)[k], Histogram(b)[k], epm);
    }
  }

  // ---------------------------------------------------------------------
  // The regression at the end of a state

  /** `[f"{state} intensity gradient", f"{state} ig intercept", f"{state} ig r-squared"]`. */
  function Names(s: State): (names: seq<string>)
    ensures |names| == 3
  {
    QualifyAll(s, ["intensity gradient", "ig intercept", "ig r-squared"])
  }

  lemma NamesDistinct(s: State)
    ensures Distinct(Names(s))
  {
    var bases := ["intensity gradient", "ig intercept", "ig r-squared"];
    assert bases[0][1] != bases[1][1] && bases[0][1] != bases[2][1] && bases[1][3] != bases[2][3];
    QualifyAllDistinct(s, bases);
  }

  /** Bin midpoint in mg: `ig_vals * 1000`. */
  function MidpointMg(k: nat): (m: real)
    requires k < BinCount
    ensures Edge(k) * 1000.0 < m < Edge(k + 1) * 1000.0
  {
    (Edge(k) + Edge(k + 1)) / 2.0 * 1000.0
  }

  /** `hist > 0` as a 0/1 mask. */
  function Occupied(hist: seq<real>): (x: seq<int>)
    ensures |x| == |hist| && IsMask(x)
    ensures forall k :: 0 <= k < |hist| ==> (x[k] == 1 <==> hist[k] > 0.0)
  {
    seq(|hist|, k requires 0 <= k < |hist| => if hist[k] > 0.0 then 1 else 0)
  }

  /** What `linregress` returns: slope, intercept and correlation, each possibly NaN. */
  datatype Fit = Fit(slope: Value, intercept: Value, rval: Value)

  /** `rval ** 2`. */
  function Square(v: Value): (w: Value)
    ensures w.Num? <==> v.Num?
    ensures w.Num? ==> w.r >= 0.0 && w.r == v.r * v.r
  {
    match v
    case NaN => NaN
    case Num(x) => Num(x * x)
  }

  /**
   The values written for a state's histogram: NaN three times when at most
   one bin is occupied, otherwise the regression of the occupied bins'
   minutes against their midpoints (both on a log scale inside `fit`),
   with the correlation squared.
   */
  function Gradients(hist: seq<real>, fit: (seq<real>, seq<real>) -> Fit): (v: seq<Value>)
    requires |hist| == BinCount
    ensures |v| == 3
    ensures Total(Occupied(hist)) <= 1 ==> v == [NaN, NaN, NaN]
    ensures Total(Occupied(hist)) > 1 ==>
      var p := Nonzero(Occupied(hist));
      var f := fit(seq(|p|, j requires 0 <= j < |p| => MidpointMg(p[j])), seq(|p|, j requires 0 <= j < |p| => hist[p[j]]));
      v == [f.slope, f.intercept, Square(f.rval)]
  {
    var p := Nonzero(Occupied(hist));
    NonzeroCount(Occupied(hist));
    if |p| <= 1 then [NaN, NaN, NaN]
    else
      var f := fit(seq(|p|, j requires 0 <= j < |p| => MidpointMg(p[j])), seq(|p|, j requires 0 <= j < |p| => hist[p[j]]));
      [f.slope, f.intercept, Square(f.rval)]
  }

  lemma NonzeroCount(x: seq<int>)
    requires IsMask(x)
    ensures |Nonzero(x)| == Total(x)
  {
    NonzeroFromCount(x, 0);
  }

  /**
   `reset_cached`: when a predict call has set the pointers, write the
   state's three values into the remembered day; in every case go back to
   an empty histogram with no pointers.
   */
  function Reset(c: Cache, t: Table, s: State, fit: (seq<real>, seq<real>) -> Fit): (r: (Cache, Table))
    requires |c.hist| == BinCount
    requires c.day.Some? ==> Slots(t, Names(s), c.day.value)
    ensures r.0 == Fresh()
    ensures c.day.None? ==> r.1 == t
    ensures c.day.Some? ==>
      && SameShape(t, r.1) && OnlyCells(t, r.1, NamesFrom(Names(s), 0), c.day.value)
      && Cells(r.1, Names(s), c.day.value) == Gradients(c.hist, fit)
  {
    NamesDistinct(s);
    match c.day
    case None => (Fresh(), t)
    case Some(i) => (Fresh(), PutAll(t, Names(s), i, Gradients(c.hist, fit)))
  }

  /** A second reset right after the first changes nothing. */
  lemma ResetTwice(c: Cache, t: Table, s: State, fit: (seq<real>, seq<real>) -> Fit)
    requires |c.hist| == BinCount
    requires c.day.Some? ==> Slots(t, Names(s), c.day.value)
    ensures Reset(Reset(c, t, s, fit).0, Reset(c, t, s, fit).1, s, fit) == Reset(c, t, s, fit)
  {
  }

  /**
   A state whose epochs all have the same value occupies at most one bin,
   so it has no gradient: the three cells become NaN.
   */
  lemma ConstantDayHasNoGradient(t: Table, s: State, i: nat, v: real, n: nat, epm: nat,
                                 fit: (seq<real>, seq<real>) -> Fit)
    requires epm > 0 && Slots(t, Names(s), i)
    ensures Cells(Reset(Predict(Fresh(), i, seq(n, _ => v), epm), t, s, fit).1, Names(s), i) == [NaN, NaN, NaN]
  {
    var a := seq(n, _ => v);
    var c := Predict(Fresh(), i, a, epm);
    forall k | 0 <= k < BinCount && Some(k) != BinOf(v)
      ensures c.hist[k] == 0.0
    {
      HistogramCounts(a, k);
      assert InBinSet(a, k) == {};
    }
    OccupiedAtMostOne(c.hist, BinOf(v));
  }

  /** A histogram that is zero outside one bin occupies at most one bin. */
  lemma OccupiedAtMostOne(hist: seq<real>, only: Option<nat>)
    requires |hist| == BinCount
    requires forall k :: 0 <= k < BinCount && Some(k) != only ==> hist[k] <= 0.0
    ensures Total(Occupied(hist)) <= 1
  {
    var x := Occupied(hist);
    MaskCountIsCardinality(x, |x|);
    if only.Some? {
      assert OnesUpTo(x, |x|) <= {only.value};
      SubsetCardinality(OnesUpTo(x, |x|), {only.value});
    } else {
      assert OnesUpTo(x, |x|) == {};
    }
  }
}
