/**
 Windowed statistics over epoch sequences: range sums, the stride-1 moving
 mean, index filters (`nonzero`, "elements below a bound"), maxima and
 run-length encoding. The bout detector and the endpoint calculators are
 written in terms of these.
 */
module Windowed {

  datatype Option<T> = None | Some(value: T)

  /** A 0/1 intensity mask, one entry per epoch. */
  ghost predicate IsMask(x: seq<int>) {
    forall k :: 0 <= k < |x| ==> x[k] == 0 || x[k] == 1
  }

  /** Entry i of p is above its predecessor. */
  ghost predicate StepsUp(p: seq<int>, i: int)
    requires 0 < i < |p|
  {
    p[i - 1] < p[i]
  }

  ghost predicate StrictlyIncreasing(p: seq<int>) {
    forall i :: 0 < i < |p| ==> StepsUp(p, i)
  }

  // ---------------------------------------------------------------------
  // Range sums

  /** Sum of `x[lo..hi)`, the integer `sum(x[lo:hi])`. */
  function SumRange(x: seq<int>, lo: nat, hi: nat): int
    requires lo <= hi <= |x|
    decreases hi - lo
  {
    if lo == hi then 0 else SumRange(x, lo, hi - 1) + x[hi - 1]
  }

  /** Sum of `v[lo..hi)` over reals. */
  function SumReal(v: seq<real>, lo: nat, hi: nat): real
    requires lo <= hi <= |v|
    decreases hi - lo
  {
    if lo == hi then 0.0 else SumReal(v, lo, hi - 1) + v[hi - 1]
  }

  function Total(x: seq<int>): int {
    SumRange(x, 0, |x|)
  }

  function ToReal(x: seq<int>): (r: seq<real>)
    ensures |r| == |x|
  {
    seq(|x|, k requires 0 <= k < |x| => x[k] as real)
  }

  lemma {:induction false} SumRangeSplit(x: seq<int>, lo: nat, mid: nat, hi: nat)
    requires lo <= mid <= hi <= |x|
    ensures SumRange(x, lo, hi) == SumRange(x, lo, mid) + SumRange(x, mid, hi)
    decreases hi - mid
  {
    if mid < hi {
      SumRangeSplit(x, lo, mid, hi - 1);
    }
  }

  /** A range sum only depends on the entries it covers, wherever they sit. */
  lemma {:induction false} SumRangeShift(x: seq<int>, lo: nat, hi: nat, y: seq<int>, d: nat)
    requires lo <= hi <= |x| && hi + d <= |y|
    requires forall j :: lo <= j < hi ==> x[j] == y[j + d]
    ensures SumRange(x, lo, hi) == SumRange(y, lo + d, hi + d)
    decreases hi - lo
  {
    if lo < hi {
      SumRangeShift(x, lo, hi - 1, y, d);
    }
  }

  lemma {:induction false} SumRealShift(v: seq<real>, lo: nat, hi: nat, w: seq<real>, d: nat)
    requires lo <= hi <= |v| && hi + d <= |w|
    requires forall j :: lo <= j < hi ==> v[j] == w[j + d]
    ensures SumReal(v, lo, hi) == SumReal(w, lo + d, hi + d)
    decreases hi - lo
  {
    if lo < hi {
      SumRealShift(v, lo, hi - 1, w, d);
    }
  }

  /** Summing the mask as reals agrees with the integer sum. */
  lemma {:induction false} SumRealOfToReal(x: seq<int>, lo: nat, hi: nat)
    requires lo <= hi <= |x|
    ensures SumReal(ToReal(x), lo, hi) == SumRange(x, lo, hi) as real
    decreases hi - lo
  {
    if lo < hi {
      SumRealOfToReal(x, lo, hi - 1);
    }
  }

  /** On a mask, a range sum counts qualifying epochs: it lies in [0, hi-lo]. */
  lemma {:induction false} MaskSumBounds(x: seq<int>, lo: nat, hi: nat)
    requires lo <= hi <= |x| && IsMask(x)
    ensures 0 <= SumRange(x, lo, hi) <= hi - lo
    decreases hi - lo
  {
    if lo < hi {
      MaskSumBounds(x, lo, hi - 1);
    }
  }

  /** A range where every entry equals c sums to c times its length. */
  lemma {:induction false} SumRangeConstant(x: seq<int>, lo: nat, hi: nat, c: int)
    requires lo <= hi <= |x|
    requires forall j :: lo <= j < hi ==> x[j] == c
    ensures SumRange(x, lo, hi) == c * (hi - lo)
    decreases hi - lo
  {
    if lo < hi {
      SumRangeConstant(x, lo, hi - 1, c);
    }
  }

  /** Sums are additive over concatenation. */
  lemma TotalAppend(a: seq<int>, b: seq<int>)
    ensures Total(a + b) == Total(a) + Total(b)
  {
    var ab := a + b;
    SumRangeSplit(ab, 0, |a|, |ab|);
    assert SumRange(a, 0, |a|) == SumRange(ab, 0, |a|) by {
      assert forall j :: 0 <= j < |a| ==> a[j] == ab[j + 0];
      SumRangeShift(a, 0, |a|, ab, 0);
    }
    assert SumRange(b, 0, |b|) == SumRange(ab, |a|, |ab|) by {
      assert forall j :: 0 <= j < |b| ==> b[j] == ab[j + |a|];
      SumRangeShift(b, 0, |b|, ab, |a|);
    }
  }

  // ---------------------------------------------------------------------
  // Moving mean with stride 1

  /**
   The stride-1 moving mean of window n: entry k is the mean of `v[k..k+n)`.
   It fails (the utility raises) when the window does not fit.
   */
  function MovingMean(v: seq<real>, n: int): (r: Option<seq<real>>)
    ensures r.Some? <==> 1 <= n <= |v|
    ensures r.Some? ==> |r.value| == |v| - n + 1
    ensures r.Some? ==> forall k :: 0 <= k < |r.value| ==> r.value[k] == SumReal(v, k, k + n) / n as real
  {
    if 1 <= n <= |v| then
      Some(seq(|v| - n + 1, k requires 0 <= k < |v| - n + 1 => SumReal(v, k, k + n) / n as real))
    else
      None
  }

  /**
   Every window of a prefix `a` and of a suffix `b` is also a window of
   `a + b`: the moving means of the parts are entries of the moving mean of
   the whole, at offset 0 and |a| respectively.
   */
  lemma MovingMeanOfParts(a: seq<real>, b: seq<real>, n: int, ma: seq<real>, mb: seq<real>, mab: seq<real>)
    requires MovingMean(a, n) == Some(ma) && MovingMean(b, n) == Some(mb)
    requires MovingMean(a + b, n) == Some(mab)
    ensures forall k :: 0 <= k < |ma| ==> ma[k] == mab[k]
    ensures forall k :: 0 <= k < |mb| ==> mb[k] == mab[|a| + k]
  {
    forall k | 0 <= k < |ma|
      ensures ma[k] == mab[k]
    {
      SumRealShift(a, k, k + n, a + b, 0);
    }
    forall k | 0 <= k < |mb|
      ensures mb[k] == mab[|a| + k]
    {
      SumRealShift(b, k, k + n, a + b, |a|);
    }
  }

  // ---------------------------------------------------------------------
  // Maxima
  //
  // `np.max` over an integer and over a float array. Dafny has no ordering on
  // type parameters, so the same definition is given once per element type.

  function MaxInt(s: seq<int>): (m: int)
    requires |s| > 0
    ensures m in s
    ensures forall t :: 0 <= t < |s| ==> s[t] <= m
  {
    if |s| == 1 then s[0]
    else
      var rest := MaxInt(s[1..]);
      assert forall t :: 1 <= t < |s| ==> s[t] == s[1..][t - 1];
      if s[0] >= rest then s[0] else rest
  }

  function MaxReal(s: seq<real>): (m: real)
    requires |s| > 0
    ensures m in s
    ensures forall t :: 0 <= t < |s| ==> s[t] <= m
  {
    if |s| == 1 then s[0]
    else
      var rest := MaxReal(s[1..]);
      assert forall t :: 1 <= t < |s| ==> s[t] == s[1..][t - 1];
      if s[0] >= rest then s[0] else rest
  }

  // ---------------------------------------------------------------------
  // Index filters

  /** numpy `nonzero(x[k:])[0] + k`: the increasing indices j >= k with x[j] != 0. */
  function NonzeroFrom(x: seq<int>, k: nat): (p: seq<nat>)
    requires k <= |x|
    ensures forall t :: 0 <= t < |p| ==> k <= p[t] < |x| && x[p[t]] != 0
    ensures forall j :: k <= j < |x| && x[j] != 0 ==> j in p
    ensures StrictlyIncreasing(p)
    decreases |x| - k
  {
    if k == |x| then []
    else if x[k] != 0 then
      var rest := NonzeroFrom(x, k + 1);
      ConsIncreasing(k, rest);
      [k] + rest
    else NonzeroFrom(x, k + 1)
  }

  /** Prefixing a value below every entry keeps a sequence increasing. */
  lemma ConsIncreasing(v: int, s: seq<int>)
    requires StrictlyIncreasing(s) && forall t :: 0 <= t < |s| ==> v < s[t]
    ensures StrictlyIncreasing([v] + s)
  {
    var p := [v] + s;
    forall i | 0 < i < |p| ensures StepsUp(p, i) {
      if i > 1 {
        assert StepsUp(s, i - 1);
      }
    }
  }

  function Nonzero(x: seq<int>): (p: seq<nat>)
    ensures forall t :: 0 <= t < |p| ==> p[t] < |x| && x[p[t]] != 0
    ensures forall j :: 0 <= j < |x| && x[j] != 0 ==> j in p
    ensures StrictlyIncreasing(p)
  {
    NonzeroFrom(x, 0)
  }

  /** The number of non-zero entries of a sequence is at most its length. */
  lemma {:induction false} NonzeroFromLength(x: seq<int>, k: nat)
    requires k <= |x|
    ensures |NonzeroFrom(x, k)| <= |x| - k
    decreases |x| - k
  {
    if k < |x| {
      NonzeroFromLength(x, k + 1);
    }
  }

  /** `NonzeroFrom` lists position k iff the entry there is non-zero. */
  lemma NonzeroFromStep(x: seq<int>, k: nat)
    requires k < |x|
    ensures |NonzeroFrom(x, k)| == (if x[k] != 0 then 1 else 0) + |NonzeroFrom(x, k + 1)|
  {
  }

  /** On a mask, `nonzero` lists exactly as many indices as the mask sums to. */
  lemma {:induction false} NonzeroFromCount(x: seq<int>, k: nat)
    requires k <= |x| && IsMask(x)
    ensures |NonzeroFrom(x, k)| == SumRange(x, k, |x|)
    decreases |x| - k
  {
    if k < |x| {
      var n := |NonzeroFrom(x, k + 1)|;
      assert n == SumRange(x, k + 1, |x|) by {
        NonzeroFromCount(x, k + 1);
      }
      assert SumRange(x, k, |x|) == x[k] + SumRange(x, k + 1, |x|) by {
        SumRangeSplit(x, k, k + 1, |x|);
        assert SumRange(x, k, k + 1) == x[k];
      }
      assert |NonzeroFrom(x, k)| == (if x[k] != 0 then 1 else 0) + n by {
        NonzeroFromStep(x, k);
      }
      assert x[k] == 0 || x[k] == 1;
    }
  }

  /** Every element of a non-empty sequence is its head or lies in its tail. */
  lemma InConsTail<T>(s: seq<T>)
    requires |s| > 0
    ensures forall v :: v in s ==> v == s[0] || v in s[1..]
  {
    assert s == [s[0]] + s[1..];
  }

  /** numpy `s[s < e]`: the elements of s below e, in order. */
  function Below(s: seq<nat>, e: int): (r: seq<nat>)
    ensures |r| <= |s|
    ensures forall t :: 0 <= t < |r| ==> r[t] < e && r[t] in s
    ensures forall v :: v in s && v < e ==> v in r
  {
    if |s| == 0 then []
    else
      InConsTail(s);
      (if s[0] < e then [s[0]] else []) + Below(s[1..], e)
  }

  /**
   On an increasing sequence, the elements below e form a prefix: its length k
   splits s into the part below e and the part at or above e.
   */
  lemma {:induction false} BelowIsPrefix(s: seq<nat>, e: int)
    requires StrictlyIncreasing(s)
    ensures Below(s, e) == s[..|Below(s, e)|]
    ensures forall t :: |Below(s, e)| <= t < |s| ==> s[t] >= e
  {
    if |s| > 0 {
      IncreasingDrop(s);
      BelowIsPrefix(s[1..], e);
      if s[0] >= e {
        forall t | 0 <= t < |s| ensures s[t] >= e {
          IncreasingSpread(s, 0, t);
        }
        BelowNone(s[1..], e);
      }
    }
  }

  /** Dropping the first entry keeps a sequence increasing. */
  lemma IncreasingDrop(s: seq<int>)
    requires StrictlyIncreasing(s) && |s| > 0
    ensures StrictlyIncreasing(s[1..])
  {
    forall i | 0 < i < |s| - 1 ensures StepsUp(s[1..], i) {
      assert StepsUp(s, i + 1);
    }
  }

  lemma {:induction false} BelowNone(s: seq<nat>, e: int)
    requires forall t :: 0 <= t < |s| ==> s[t] >= e
    ensures Below(s, e) == []
  {
    if |s| > 0 {
      BelowNone(s[1..], e);
    }
  }

  /** Successive entries of an increasing integer sequence differ by at least one. */
  lemma {:induction false} IncreasingSpread(p: seq<nat>, i: nat, t: nat)
    requires StrictlyIncreasing(p) && i + t < |p|
    ensures p[i + t] >= p[i] + t
    decreases t
  {
    if t > 0 {
      IncreasingSpread(p, i, t - 1);
      assert StepsUp(p, i + t);
    }
  }

  function SumNat(s: seq<nat>): nat {
    if |s| == 0 then 0 else SumNat(s[..|s| - 1]) + s[|s| - 1]
  }

  lemma {:induction false} SumNatAppend(a: seq<nat>, b: seq<nat>)
    ensures SumNat(a + b) == SumNat(a) + SumNat(b)
    decreases |b|
  {
    if |b| > 0 {
      assert (a + b)[..|a + b| - 1] == a + b[..|b| - 1];
      SumNatAppend(a, b[..|b| - 1]);
    } else {
      assert a + b == a;
    }
  }

  // ---------------------------------------------------------------------
  // Run-length encoding

  /** One maximal run: `len` copies of `val` starting at index `start`. */
  datatype Run<T> = Run(len: nat, start: nat, val: T)

  /**
   `runs` tile `v[k..]` with maximal runs: consecutive, non-empty, constant,
   and each run stops where the value changes.
   */
  ghost predicate RunsTile<T>(v: seq<T>, runs: seq<Run<T>>, k: nat)
    decreases |runs|
  {
    && k <= |v|
    && if |runs| == 0 then k == |v|
       else
         var r := runs[0];
         && r.start == k && r.len >= 1 && k + r.len <= |v|
         && (forall m :: k <= m < k + r.len ==> v[m] == r.val)
         && (k + r.len < |v| ==> v[k + r.len] != r.val)
         && RunsTile(v, runs[1..], k + r.len)
  }

  /** The end of the maximal run of `v[k]` that is known to extend to j. */
  function RunEnd<T(==)>(v: seq<T>, k: nat, j: nat): (e: nat)
    requires k < j <= |v|
    requires forall m :: k <= m < j ==> v[m] == v[k]
    ensures j <= e <= |v|
    ensures forall m :: k <= m < e ==> v[m] == v[k]
    ensures e < |v| ==> v[e] != v[k]
    decreases |v| - j
  {
    if j < |v| && v[j] == v[k] then RunEnd(v, k, j + 1) else j
  }

  function RleFrom<T(==)>(v: seq<T>, k: nat): (runs: seq<Run<T>>)
    requires k <= |v|
    ensures RunsTile(v, runs, k)
    decreases |v| - k
  {
    if k == |v| then []
    else
      var e := RunEnd(v, k, k + 1);
      var rest := RleFrom(v, e);
      assert ([Run(e - k, k, v[k])] + rest)[1..] == rest;
      [Run(e - k, k, v[k])] + rest
  }

  /** `rle(v)`: the maximal runs of v as (length, start, value) triples. */
  function Rle<T(==)>(v: seq<T>): (runs: seq<Run<T>>)
    ensures RunsTile(v, runs, 0)
  {
    RleFrom(v, 0)
  }

  /** Decoding runs: each run contributes `len` copies of its value. */
  function Expand<T>(runs: seq<Run<T>>): seq<T> {
    if |runs| == 0 then [] else seq(runs[0].len, _ => runs[0].val) + Expand(runs[1..])
  }

  lemma {:induction false} ExpandTiles<T>(v: seq<T>, runs: seq<Run<T>>, k: nat)
    requires RunsTile(v, runs, k)
    ensures Expand(runs) == v[k..]
    decreases |runs|
  {
    if |runs| > 0 {
      var r := runs[0];
      ExpandTiles(v, runs[1..], k + r.len);
      assert v[k..] == v[k..k + r.len] + v[k + r.len..];
      assert seq(r.len, _ => r.val) == v[k..k + r.len];
    }
  }

  /** Decoding the encoding gives back the sequence. */
  lemma RleRoundTrip<T>(v: seq<T>)
    ensures Expand(Rle(v)) == v
  {
    ExpandTiles(v, Rle(v), 0);
  }

  /** numpy `lens[vals == 1]`: the lengths of the runs whose value is 1. */
  function OnesLengths(runs: seq<Run<int>>): seq<nat> {
    if |runs| == 0 then []
    else (if runs[0].val == 1 then [runs[0].len] else []) + OnesLengths(runs[1..])
  }

  /**
   On a 0/1 mask the lengths of the 1-runs add up to the number of
   qualifying epochs from k on.
   */
  lemma {:induction false} OnesLengthsCount(v: seq<int>, runs: seq<Run<int>>, k: nat)
    requires IsMask(v) && RunsTile(v, runs, k)
    ensures SumNat(OnesLengths(runs)) == SumRange(v, k, |v|)
    decreases |runs|
  {
    if |runs| > 0 {
      var r := runs[0];
      OnesLengthsCount(v, runs[1..], k + r.len);
      SumRangeSplit(v, k, k + r.len, |v|);
      SumRangeConstant(v, k, k + r.len, r.val);
      var head: seq<nat> := if r.val == 1 then [r.len] else [];
      SumNatAppend(head, OnesLengths(runs[1..]));
      assert SumNat(head) == (if r.val == 1 then r.len else 0) by {
        if r.val == 1 {
          assert head[..0] == [];
        }
      }
      assert r.val == v[k];
    }
  }

  lemma RleOnesCount(v: seq<int>)
    requires IsMask(v)
    ensures SumNat(OnesLengths(Rle(v))) == Total(v)
  {
    OnesLengthsCount(v, Rle(v), 0);
  }

  // ---------------------------------------------------------------------
  // Conversions

  /** Python's `int(r)`: truncation toward zero. */
  function TruncToInt(r: real): (n: int)
    ensures r >= 0.0 ==> 0 <= n && n as real <= r < n as real + 1.0
    ensures r < 0.0 ==> n <= 0 && n as real - 1.0 < r <= n as real
  {
    if r >= 0.0 then r.Floor else -((-r).Floor)
  }

  /** `int()` commutes with negation. */
  lemma TruncNegate(r: real)
    ensures TruncToInt(-r) == -TruncToInt(r)
  {
    if r == 0.0 {
      assert -r == 0.0;
    }
  }

  /** Truncation of a quotient of a non-negative integer by a positive one is integer division. */
  lemma TruncOfQuotient(a: int, k: int)
    requires a >= 0 && k > 0
    ensures TruncToInt(a as real / k as real) == a / k
  {
    DivBounds(a, k);
    QuotientBetween(a, k, a / k);
  }

  /** Euclidean division of a non-negative number: `q * k <= a < q * k + k`. */
  lemma DivBounds(a: int, k: int)
    requires a >= 0 && k > 0
    ensures (a / k) * k <= a < (a / k) * k + k
  {
  }

  /** Multiplying by a natural number keeps an order. */
  lemma {:induction false} MulMonotone(a: int, b: int, n: nat)
    requires a <= b
    ensures a * n <= b * n
    decreases n
  {
    if n > 0 {
      MulMonotone(a, b, n - 1);
      assert a * n == a * (n - 1) + a;
      assert b * n == b * (n - 1) + b;
    }
  }

  /** If w whole k's fit in a, the quotient of a by k is at least w. */
  lemma QuotientAtLeast(a: int, k: int, w: nat)
    requires a >= 0 && k > 0 && w * k <= a
    ensures w <= a / k
  {
    var q := a / k;
    DivBounds(a, k);
    if q < w {
      MulMonotone(q + 1, w, k);
      assert false;
    }
  }

  /** A real quotient that lies between q and q + 1 truncates to q. */
  lemma QuotientBetween(a: int, k: int, q: int)
    requires a >= 0 && k > 0 && q * k <= a < q * k + k
    ensures TruncToInt(a as real / k as real) == q
  {
    var r := a as real / k as real;
    var rk := k as real;
    assert r * rk == a as real;
    assert (r - q as real) * rk == (a - q * k) as real;
    assert (q as real + 1.0 - r) * rk == (q * k + k - a) as real;
    ProductSign(r - q as real, rk);
    ProductSign(q as real + 1.0 - r, rk);
  }


  lemma ProductSign(x: real, k: real)
    requires k > 0.0
    ensures x * k >= 0.0 ==> x >= 0.0
    ensures x * k > 0.0 ==> x > 0.0
  {
  }

  /** The positions of the 1s among the first n entries of m. */
  ghost function OnesUpTo(m: seq<int>, n: int): set<int> {
    set j | 0 <= j < n && j < |m| && m[j] == 1
  }

  /** The number of 1s of a mask is the size of the set of its 1-positions. */
  lemma {:induction false} MaskCountIsCardinality(m: seq<int>, n: nat)
    requires IsMask(m) && n <= |m|
    ensures SumRange(m, 0, n) == |OnesUpTo(m, n)|
  {
    if n > 0 {
      MaskCountIsCardinality(m, n - 1);
      if m[n - 1] == 1 {
        assert OnesUpTo(m, n) == OnesUpTo(m, n - 1) + {n - 1};
      } else {
        assert OnesUpTo(m, n) == OnesUpTo(m, n - 1);
      }
    } else {
      assert OnesUpTo(m, 0) == {};
    }
  }

  /** A subset is no larger than its superset. */
  lemma SubsetCardinality(a: set<int>, b: set<int>)
    requires a <= b
    ensures |a| <= |b|
  {
    assert b == a + (b - a);
    assert a * (b - a) == {};
  }
}
