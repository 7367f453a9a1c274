/**
 The bout detector `get_activity_bouts`: four policies that turn a per-epoch
 acceleration metric into the minutes spent in sustained bouts of one
 intensity level. Every policy first thresholds the metric into a 0/1 mask
 with the half-open test `lower <= a < upper`; results are epoch counts,
 converted to minutes (`wlen / 60` per epoch) at the very end.
 */
module Bouts {
  import opened Windowed

  datatype BoutError =
    | InvalidBoutMetric     // `boutmetric` outside {1, 2, 3, 4}
    | BreakWindowTooLong    // the break detector's moving mean does not fit; it is not caught

  datatype Result<T> = Ok(value: T) | Err(error: BoutError)

  /** `int(boutdur * (60 / wlen))`: the bout window W, in epochs. */
  function BoutWindow(boutdur: nat, wlen: int): nat
    requires wlen > 0
  {
    var r := boutdur as real * (60.0 / wlen as real);
    assert r >= 0.0;
    TruncToInt(r)
  }

  /**
   W is the number of whole epochs in `boutdur` minutes: at most
   `boutdur * 60 / wlen` and within one of it, and exactly `boutdur` times the
   epochs per minute when an epoch length divides a minute.
   */
  lemma BoutWindowWholeEpochs(boutdur: nat, wlen: int)
    requires wlen > 0
    ensures BoutWindow(boutdur, wlen) as real <= boutdur as real * (60.0 / wlen as real) < BoutWindow(boutdur, wlen) as real + 1.0
    ensures 60 % wlen == 0 ==> BoutWindow(boutdur, wlen) == boutdur * (60 / wlen)
  {
    if 60 % wlen == 0 {
      BoutWindowDividing(boutdur, wlen);
    }
  }

  /** When an epoch length divides a minute, W is exactly `boutdur` times the epochs per minute. */
  lemma BoutWindowDividing(boutdur: nat, wlen: int)
    requires wlen > 0 && 60 % wlen == 0
    ensures BoutWindow(boutdur, wlen) == boutdur * (60 / wlen)
  {
    var q := 60 / wlen;
    assert q * wlen == 60;
    assert q as real * wlen as real == 60.0;
    assert 60.0 / wlen as real == q as real;
    var r := boutdur as real * (60.0 / wlen as real);
    assert r == (boutdur * q) as real;
    var n := TruncToInt(r);
    assert n as real <= (boutdur * q) as real < n as real + 1.0;
  }

  /** Epochs of `wlen` seconds, in minutes. */
  function Minutes(epochs: int, wlen: int): real {
    epochs as real * (wlen as real / 60.0)
  }

  lemma MinutesMonotone(a: int, b: int, wlen: int)
    requires 0 <= a <= b && wlen > 0
    ensures 0.0 <= Minutes(a, wlen) <= Minutes(b, wlen)
  {
    var f := wlen as real / 60.0;
    assert (b - a) as real * f >= 0.0;
    assert a as real * f >= 0.0;
  }

  /** `((accm >= lower) & (accm < upper)).astype(int)` */
  function QualMask(a: seq<real>, lower: real, upper: real): (x: seq<int>)
    ensures |x| == |a| && IsMask(x)
    ensures forall k :: 0 <= k < |a| ==> (x[k] == 1 <==> lower <= a[k] < upper)
  {
    seq(|a|, k requires 0 <= k < |a| => if lower <= a[k] && a[k] < upper then 1 else 0)
  }

  /** For m >= 1 and a fraction below one, m * crit < m. */
  lemma ScaledBelow(m: nat, crit: real)
    requires m >= 1 && crit < 1.0
    ensures (m as real) * crit < m as real
  {
    assert (m as real) * (1.0 - crit) > 0.0;
  }

  // =====================================================================
  // Policy 1: extend a qualifying window while the fraction stays high

  /** The inner `while` of policy 1: grow `end` while `sum(x[start:end+1]) > (end+1-start) * boutcrit`. */
  function ExtendEnd(x: seq<int>, start: nat, end: nat, crit: real): (e: nat)
    requires start <= end <= |x|
    ensures end <= e <= |x|
    decreases |x| - end
  {
    if end < |x| && SumRange(x, start, end + 1) as real > (end + 1 - start) as real * crit then
      ExtendEnd(x, start, end + 1, crit)
    else
      end
  }

  /** A start opens a bout when `start + W < len` and its first W epochs hold more than `W * boutcrit` qualifying ones. */
  predicate Opens(x: seq<int>, start: nat, w: nat, crit: real)
    requires start <= |x|
  {
    start + w < |x| && SumRange(x, start, start + w) as real > (w as real) * crit
  }

  /** `max(p[p < end]) - start + 1`: the closed-bout span from `start` to the last qualifying epoch before `end`. */
  function ClosedSpan(p: seq<nat>, start: nat, e: nat): int
    requires start in p && start < e
  {
    MaxInt(Below(p, e)) - start + 1
  }

  /** What the policy-1 scan finds at one candidate start: nothing, or a bout ending at `end` that covers `count` qualifying epochs. */
  datatype Attempt = Skip | Bout(end: nat, count: nat)

  /**
   One iteration of the policy-1 loop at scan position i: the start `p[i]`
   opens a bout when `start + W < len` and its window's sum exceeds
   `W * boutcrit`; the bout then extends, and covers `p[i:][p[i:] < end]`.
   */
  function Attempt1(x: seq<int>, p: seq<nat>, i: nat, w: nat, crit: real): (a: Attempt)
    requires forall t :: 0 <= t < |p| ==> p[t] < |x|
    requires i < |p|
    ensures a.Bout? <==> Opens(x, p[i], w, crit)
    ensures a.Bout? ==> p[i] < p[i] + w <= a.end <= |x| && a.count <= |p| - i
  {
    var start := p[i];
    if Opens(x, start, w, crit) then
      assert w >= 1;
      var e := ExtendEnd(x, start, start + w, crit);
      Bout(e, |Below(p[i..], e)|)
    else
      Skip
  }

  /** `i_mvpa += jump`, with `jump = max(len(select), 1)`. */
  function Next1(i: nat, a: Attempt): (n: nat)
    ensures n > i
  {
    i + (if a.Bout? && a.count > 1 then a.count else 1)
  }

  /** The epochs one attempt credits: the closed span `max(select) - start + 1`, or the count `len(select)`. */
  function Credit1(p: seq<nat>, i: nat, a: Attempt, closed: bool): int
    requires i < |p| && (a.Bout? ==> p[i] < a.end)
  {
    match a
    case Skip => 0
    case Bout(e, k) => if closed then ClosedSpan(p, p[i], e) else k
  }

  /** The outer `while` of policy 1 from scan position i: the epochs credited to bouts starting at `p[i]` or later. */
  function Scan1(x: seq<int>, p: seq<nat>, i: nat, w: nat, crit: real, closed: bool): int
    requires forall t :: 0 <= t < |p| ==> p[t] < |x|
    requires i <= |p|
    decreases |p| - i
  {
    if i == |p| then 0
    else
      var a := Attempt1(x, p, i, w, crit);
      Credit1(p, i, a, closed) + Scan1(x, p, Next1(i, a), w, crit, closed)
  }

  function Policy1Epochs(x: seq<int>, w: nat, crit: real, closed: bool): int {
    Scan1(x, Nonzero(x), 0, w, crit, closed)
  }

  /** The candidate start at scan position i, or the record length once the scan is over. */
  function Lo(x: seq<int>, p: seq<nat>, i: nat): int {
    if i < |p| then p[i] else |x|
  }

  /**
   Facts about the indices a bout from `p[i]` to e covers: they are the
   prefix `p[i..i+k)` with k >= 1, the last of them is the largest index
   below e, and the scan resumes at an index at or beyond e.
   */
  lemma SpanFacts(p: seq<nat>, i: nat, e: int)
    requires StrictlyIncreasing(p) && i < |p| && p[i] < e
    ensures var k := |Below(p[i..], e)|;
      && 1 <= k <= |p| - i
      && p[i] in Below(p, e)
      && p[i] + k - 1 <= MaxInt(Below(p, e)) < e
      && (i + k < |p| ==> p[i + k] >= e)
  {
    var s := p[i..];
    IncreasingSuffix(p, i);
    BelowIsPrefix(s, e);
    var k := |Below(s, e)|;
    assert s[0] in s;
    assert s[0] in Below(s, e);
    assert p[i + k - 1] == Below(s, e)[k - 1] by {
      assert s[k - 1] == Below(s, e)[k - 1];
    }
    IncreasingSpread(p, i, k - 1);
    BelowMaxFacts(p, i, k, e);
    if i + k < |p| {
      assert p[i + k] == s[k];
    }
  }

  lemma IncreasingSuffix(p: seq<nat>, i: nat)
    requires StrictlyIncreasing(p) && i <= |p|
    ensures StrictlyIncreasing(p[i..])
  {
    forall j | 0 < j < |p| - i ensures StepsUp(p[i..], j) {
      assert StepsUp(p, i + j);
    }
  }

  /** When `p[i]` and `p[i+k-1]` are below e, the largest index below e is at least `p[i] + k - 1`. */
  lemma BelowMaxFacts(p: seq<nat>, i: nat, k: nat, e: int)
    requires 1 <= k && i + k <= |p| && p[i] + k - 1 <= p[i + k - 1] < e
    ensures p[i] in Below(p, e)
    ensures p[i] + k - 1 <= MaxInt(Below(p, e)) < e
  {
    var b := Below(p, e);
    assert p[i] in p && p[i + k - 1] in p;
    assert p[i] in b;
    assert p[i + k - 1] in b;
    var u :| 0 <= u < |b| && b[u] == p[i + k - 1];
  }

  /**
   What one policy-1 attempt credits: the closed span ends before the next
   scan position's epoch, the open count is at most the positions skipped,
   and the open count never exceeds the closed span.
   */
  lemma StepFacts(x: seq<int>, p: seq<nat>, i: nat, w: nat, crit: real)
    requires forall t :: 0 <= t < |p| ==> p[t] < |x|
    requires StrictlyIncreasing(p) && i < |p|
    ensures var a := Attempt1(x, p, i, w, crit);
      && 0 <= Credit1(p, i, a, true) <= Lo(x, p, Next1(i, a)) - p[i]
      && 0 <= Credit1(p, i, a, false) <= Next1(i, a) - i
      && Credit1(p, i, a, false) <= Credit1(p, i, a, true)
  {
    var a := Attempt1(x, p, i, w, crit);
    if a.Bout? {
      BoutFacts(x, p, i, a);
    } else if i + 1 < |p| {
      assert StepsUp(p, i + 1);
    }
  }

  /** StepFacts for an attempt that found a bout. */
  lemma BoutFacts(x: seq<int>, p: seq<nat>, i: nat, a: Attempt)
    requires forall t :: 0 <= t < |p| ==> p[t] < |x|
    requires StrictlyIncreasing(p) && i < |p|
    requires a.Bout? && p[i] < a.end <= |x| && a.count == |Below(p[i..], a.end)|
    ensures 1 <= Credit1(p, i, a, false) <= Credit1(p, i, a, true) <= Lo(x, p, Next1(i, a)) - p[i]
    ensures Credit1(p, i, a, false) == Next1(i, a) - i
  {
    SpanFacts(p, i, a.end);
    var m := MaxInt(Below(p, a.end));
    assert Credit1(p, i, a, true) == m - p[i] + 1;
    assert Next1(i, a) == i + a.count;
    if i + a.count < |p| {
      assert Lo(x, p, i + a.count) == p[i + a.count];
    }
  }

  /**
   Accepted spans are disjoint and inside the record: from scan position i,
   the closed-bout total is between 0 and `len - p[i]`.
   */
  lemma {:induction false} Scan1ClosedBound(x: seq<int>, p: seq<nat>, i: nat, w: nat, crit: real)
    requires forall t :: 0 <= t < |p| ==> p[t] < |x|
    requires StrictlyIncreasing(p) && i <= |p|
    ensures 0 <= Scan1(x, p, i, w, crit, true) <= |x| - Lo(x, p, i)
    decreases |p| - i
  {
    if i < |p| {
      StepFacts(x, p, i, w, crit);
      Scan1ClosedBound(x, p, Next1(i, Attempt1(x, p, i, w, crit)), w, crit);
    }
  }

  /** The open-bout total from position i credits at most the `|p| - i` qualifying epochs left. */
  lemma {:induction false} Scan1OpenBound(x: seq<int>, p: seq<nat>, i: nat, w: nat, crit: real)
    requires forall t :: 0 <= t < |p| ==> p[t] < |x|
    requires StrictlyIncreasing(p) && i <= |p|
    ensures 0 <= Scan1(x, p, i, w, crit, false) <= |p| - i
    decreases |p| - i
  {
    if i < |p| {
      StepFacts(x, p, i, w, crit);
      Scan1OpenBound(x, p, Next1(i, Attempt1(x, p, i, w, crit)), w, crit);
    }
  }

  /** For the same input, the open-bout total never exceeds the closed-bout total. */
  lemma {:induction false} Scan1OpenAtMostClosed(x: seq<int>, p: seq<nat>, i: nat, w: nat, crit: real)
    requires forall t :: 0 <= t < |p| ==> p[t] < |x|
    requires StrictlyIncreasing(p) && i <= |p|
    ensures Scan1(x, p, i, w, crit, false) <= Scan1(x, p, i, w, crit, true)
    decreases |p| - i
  {
    if i < |p| {
      StepFacts(x, p, i, w, crit);
      Scan1OpenAtMostClosed(x, p, Next1(i, Attempt1(x, p, i, w, crit)), w, crit);
    }
  }

  /**
   Policy 1 bounds: the closed total is at most the record length; the open
   total is at most the number of qualifying epochs and at most the closed
   total.
   */
  lemma Policy1Bounds(x: seq<int>, w: nat, crit: real)
    requires IsMask(x)
    ensures 0 <= Policy1Epochs(x, w, crit, true) <= |x|
    ensures 0 <= Policy1Epochs(x, w, crit, false) <= Total(x)
    ensures Policy1Epochs(x, w, crit, false) <= Policy1Epochs(x, w, crit, true)
  {
    var p := Nonzero(x);
    Scan1ClosedBound(x, p, 0, w, crit);
    Scan1OpenBound(x, p, 0, w, crit);
    Scan1OpenAtMostClosed(x, p, 0, w, crit);
    NonzeroFromCount(x, 0);
  }

  /** With no room for `start + W < len`, no start opens a bout. */
  lemma {:induction false} Scan1NoRoom(x: seq<int>, p: seq<nat>, i: nat, w: nat, crit: real, closed: bool)
    requires forall t :: 0 <= t < |p| ==> p[t] < |x|
    requires i <= |p| && |x| <= w
    ensures Scan1(x, p, i, w, crit, closed) == 0
    decreases |p| - i
  {
    if i < |p| {
      Scan1NoRoom(x, p, i + 1, w, crit, closed);
    }
  }

  /** A record of exactly W epochs (or fewer) yields no policy-1 bout, because `end < x.size` is strict. */
  lemma Policy1NeedsMoreThanWindow(x: seq<int>, w: nat, crit: real, closed: bool)
    requires |x| <= w
    ensures Policy1Epochs(x, w, crit, closed) == 0
  {
    Scan1NoRoom(x, Nonzero(x), 0, w, crit, closed);
  }

  /** On an all-qualifying record the window grows to the end of the record. */
  lemma {:induction false} ExtendAllOnes(x: seq<int>, end: nat, crit: real)
    requires forall j :: 0 <= j < |x| ==> x[j] == 1
    requires end <= |x| && crit < 1.0
    ensures ExtendEnd(x, 0, end, crit) == |x|
    decreases |x| - end
  {
    if end < |x| {
      OnesPass(x, 0, end + 1, crit);
      ExtendStep(x, 0, end, crit);
      ExtendAllOnes(x, end + 1, crit);
    }
  }

  /** A run of qualifying epochs passes any `boutcrit` below one. */
  lemma OnesPass(x: seq<int>, lo: nat, hi: nat, crit: real)
    requires lo < hi <= |x| && crit < 1.0
    requires forall j :: lo <= j < hi ==> x[j] == 1
    ensures SumRange(x, lo, hi) as real > (hi - lo) as real * crit
  {
    SumRangeConstant(x, lo, hi, 1);
    assert SumRange(x, lo, hi) == hi - lo;
    ScaledBelow(hi - lo, crit);
  }

  /** One step of the inner `while` of policy 1. */
  lemma ExtendStep(x: seq<int>, start: nat, end: nat, crit: real)
    requires start <= end < |x|
    requires SumRange(x, start, end + 1) as real > (end + 1 - start) as real * crit
    ensures ExtendEnd(x, start, end, crit) == ExtendEnd(x, start, end + 1, crit)
  {
  }

  /** `nonzero` of an all-qualifying record lists every index, 0 first. */
  lemma NonzeroAllOnes(x: seq<int>)
    requires |x| > 0 && forall j :: 0 <= j < |x| ==> x[j] == 1
    ensures |Nonzero(x)| == |x| && Nonzero(x)[0] == 0
  {
    var p := Nonzero(x);
    assert IsMask(x);
    NonzeroFromCount(x, 0);
    SumRangeConstant(x, 0, |x|, 1);
    assert 0 in p;
    var t :| 0 <= t < |p| && p[t] == 0;
    IncreasingSpread(p, 0, t);
  }

  /** On an all-qualifying record every index is below the record length. */
  lemma {:induction false} BelowAll(p: seq<nat>, n: nat)
    requires forall t :: 0 <= t < |p| ==> p[t] < n
    ensures Below(p, n) == p
    decreases |p|
  {
    if |p| > 0 {
      BelowAll(p[1..], n);
      assert p == [p[0]] + p[1..];
    }
  }

  /**
   An all-qualifying record of N > W epochs is one bout covering all N
   epochs, closed or not (given W >= 1 and `boutcrit < 1`).
   */
  lemma Policy1AllQualifying(x: seq<int>, w: nat, crit: real, closed: bool)
    requires forall j :: 0 <= j < |x| ==> x[j] == 1
    requires 1 <= w < |x| && crit < 1.0
    ensures Policy1Epochs(x, w, crit, closed) == |x|
  {
    var p := Nonzero(x);
    AllOnesAttempt(x, w, crit);
    var a := Bout(|x|, |x|);
    assert Credit1(p, 0, a, closed) == |x| by {
      AllOnesCredit(x, closed);
    }
    assert Scan1(x, p, |p|, w, crit, closed) == 0;
    assert Scan1(x, p, 0, w, crit, closed) == Credit1(p, 0, a, closed) + Scan1(x, p, |p|, w, crit, closed);
  }

  /** On an all-qualifying record the first attempt finds one bout over the whole record. */
  lemma AllOnesAttempt(x: seq<int>, w: nat, crit: real)
    requires forall j :: 0 <= j < |x| ==> x[j] == 1
    requires 1 <= w < |x| && crit < 1.0
    ensures |Nonzero(x)| == |x| && Attempt1(x, Nonzero(x), 0, w, crit) == Bout(|x|, |x|)
  {
    var p := Nonzero(x);
    NonzeroAllOnes(x);
    BelowNonzeroAll(x);
    AllOnesFirstAttempt(x, p, w, crit);
  }

  lemma BelowNonzeroAll(x: seq<int>)
    ensures Below(Nonzero(x)[0..], |x|) == Nonzero(x)
  {
    var p := Nonzero(x);
    assert p[0..] == p;
    BelowAll(p, |x|);
  }

  lemma AllOnesFirstAttempt(x: seq<int>, p: seq<nat>, w: nat, crit: real)
    requires forall j :: 0 <= j < |x| ==> x[j] == 1
    requires 1 <= w < |x| && crit < 1.0
    requires |p| > 0 && p[0] == 0 && |Below(p[0..], |x|)| == |x|
    requires forall t :: 0 <= t < |p| ==> p[t] < |x|
    ensures Attempt1(x, p, 0, w, crit) == Bout(|x|, |x|)
  {
    AllOnesOpens(x, w, crit);
    AttemptOpensTo(x, p, 0, w, crit, |x|);
  }

  lemma AttemptOpensTo(x: seq<int>, p: seq<nat>, i: nat, w: nat, crit: real, e: nat)
    requires forall t :: 0 <= t < |p| ==> p[t] < |x|
    requires i < |p| && Opens(x, p[i], w, crit) && ExtendEnd(x, p[i], p[i] + w, crit) == e
    ensures Attempt1(x, p, i, w, crit) == Bout(e, |Below(p[i..], e)|)
  {
    AttemptOpens(x, p, i, w, crit);
  }

  lemma AttemptOpens(x: seq<int>, p: seq<nat>, i: nat, w: nat, crit: real)
    requires forall t :: 0 <= t < |p| ==> p[t] < |x|
    requires i < |p| && Opens(x, p[i], w, crit)
    ensures Attempt1(x, p, i, w, crit) ==
      Bout(ExtendEnd(x, p[i], p[i] + w, crit), |Below(p[i..], ExtendEnd(x, p[i], p[i] + w, crit))|)
  {
  }

  /** On an all-qualifying record a bout over the whole record credits every epoch. */
  lemma AllOnesCredit(x: seq<int>, closed: bool)
    requires |x| > 0 && forall j :: 0 <= j < |x| ==> x[j] == 1
    ensures |Nonzero(x)| == |x|
    ensures Credit1(Nonzero(x), 0, Bout(|x|, |x|), closed) == |x|
  {
    var p := Nonzero(x);
    NonzeroAllOnes(x);
    BelowAll(p, |x|);
    assert |x| - 1 in p;
    assert MaxInt(p) == |x| - 1;
  }

  /** On an all-qualifying record the first window opens a bout that extends to the end of the record. */
  lemma AllOnesOpens(x: seq<int>, w: nat, crit: real)
    requires forall j :: 0 <= j < |x| ==> x[j] == 1
    requires 1 <= w < |x| && crit < 1.0
    ensures Opens(x, 0, w, crit) && ExtendEnd(x, 0, w, crit) == |x|
  {
    OnesPass(x, 0, w, crit);
    ExtendAllOnes(x, w, crit);
  }

  // =====================================================================
  // Policy 2: fixed windows marked on an overlay, failed starts demoted

  /** `xt[lo:hi] = 2`, with the overlay held as booleans. */
  function Fill(xt: seq<bool>, lo: nat, hi: nat): (r: seq<bool>)
    ensures |r| == |xt|
  {
    seq(|xt|, j requires 0 <= j < |xt| => xt[j] || (lo <= j < hi))
  }

  /** One iteration of the policy-2 loop at scan position i (x is the working mask, xt the overlay). */
  function Step2(x: seq<int>, xt: seq<bool>, p: seq<nat>, i: nat, w: nat, crit: real): (r: (seq<int>, seq<bool>))
    requires |xt| == |x| && i < |p| && forall t :: 0 <= t < |p| ==> p[t] < |x|
    ensures |r.0| == |x| && |r.1| == |x|
  {
    var start := p[i];
    var end := start + w;
    if end < |x| then
      if SumRange(x, start, end) as real > (w as real) * crit then (x, Fill(xt, start, end))
      else (x[start := 0], xt)
    else if |p| > 1 && i > 2 then
      (x[p[i] := x[p[i - 1]]], xt)
    else
      (x, xt)
  }

  function Scan2(x: seq<int>, xt: seq<bool>, p: seq<nat>, i: nat, w: nat, crit: real): (r: (seq<int>, seq<bool>))
    requires |xt| == |x| && i <= |p| && forall t :: 0 <= t < |p| ==> p[t] < |x|
    ensures |r.0| == |x| && |r.1| == |x|
    decreases |p| - i
  {
    if i == |p| then (x, xt)
    else
      var s := Step2(x, xt, p, i, w, crit);
      Scan2(s.0, s.1, p, i + 1, w, crit)
  }

  /** `x[xt == 2] = 1`: overlay-marked epochs count whatever their mask value. */
  function Overlay(x: seq<int>, xt: seq<bool>): (r: seq<int>)
    requires |xt| == |x|
    ensures |r| == |x|
  {
    seq(|x|, j requires 0 <= j < |x| => if xt[j] then 1 else x[j])
  }

  function NoMarks(n: nat): (r: seq<bool>)
    ensures |r| == n
  {
    seq(n, _ => false)
  }

  function Policy2Epochs(x: seq<int>, w: nat, crit: real): int {
    var p := Nonzero(x);
    var s := Scan2(x, NoMarks(|x|), p, 0, w, crit);
    Total(Overlay(s.0, s.1))
  }

  /** Epoch j lies in some window `[p[t], p[t] + W)`. */
  predicate Covered(p: seq<nat>, w: nat, j: int) {
    exists t :: 0 <= t < |p| && p[t] <= j < p[t] + w
  }

  /**
   What the policy-2 loop preserves: the working mask stays a mask and never
   gains a qualifying epoch the original lacked, and every overlay mark lies
   in a W-window starting at a qualifying index.
   */
  ghost predicate Scan2Inv(x0: seq<int>, x: seq<int>, xt: seq<bool>, p: seq<nat>, w: nat) {
    && |x| == |x0| && |xt| == |x0| && IsMask(x)
    && (forall j :: 0 <= j < |x| ==> x[j] == 1 ==> x0[j] == 1)
    && (forall j :: 0 <= j < |xt| ==> xt[j] ==> Covered(p, w, j))
  }

  lemma Step2Preserves(x0: seq<int>, x: seq<int>, xt: seq<bool>, p: seq<nat>, i: nat, w: nat, crit: real)
    requires forall t :: 0 <= t < |p| ==> p[t] < |x0| && x0[p[t]] == 1
    requires i < |p| && Scan2Inv(x0, x, xt, p, w)
    ensures Scan2Inv(x0, Step2(x, xt, p, i, w, crit).0, Step2(x, xt, p, i, w, crit).1, p, w)
  {
    var start := p[i];
    var end := start + w;
    if end < |x| && SumRange(x, start, end) as real > (w as real) * crit {
      var xt' := Fill(xt, start, end);
      forall j | 0 <= j < |xt'| && xt'[j] ensures Covered(p, w, j) {
        if !xt[j] {
          assert p[i] <= j < p[i] + w;
        }
      }
    }
  }

  lemma {:induction false} Scan2Preserves(x0: seq<int>, x: seq<int>, xt: seq<bool>, p: seq<nat>, i: nat, w: nat, crit: real)
    requires forall t :: 0 <= t < |p| ==> p[t] < |x0| && x0[p[t]] == 1
    requires i <= |p| && Scan2Inv(x0, x, xt, p, w)
    ensures Scan2Inv(x0, Scan2(x, xt, p, i, w, crit).0, Scan2(x, xt, p, i, w, crit).1, p, w)
    decreases |p| - i
  {
    if i < |p| {
      var s := Step2(x, xt, p, i, w, crit);
      Step2Preserves(x0, x, xt, p, i, w, crit);
      Scan2Preserves(x0, s.0, s.1, p, i + 1, w, crit);
    }
  }

  /** The set of epochs policy 2 can credit: originally qualifying, or inside a window of a qualifying start. */
  function Reach2(x: seq<int>, p: seq<nat>, w: nat): (r: seq<int>)
    ensures |r| == |x|
  {
    seq(|x|, j requires 0 <= j < |x| => if x[j] == 1 || Covered(p, w, j) then 1 else 0)
  }

  lemma {:induction false} SumRangeMonotone(a: seq<int>, b: seq<int>, lo: nat, hi: nat)
    requires lo <= hi <= |a| == |b|
    requires forall j :: lo <= j < hi ==> a[j] <= b[j]
    ensures SumRange(a, lo, hi) <= SumRange(b, lo, hi)
    decreases hi - lo
  {
    if lo < hi {
      SumRangeMonotone(a, b, lo, hi - 1);
    }
  }

  /**
   Policy 2 credits between 0 and `len` epochs, and only epochs that
   qualified originally or lie in a W-window starting at a qualifying epoch;
   overlay marks are never removed, demotions never add epochs.
   */
  lemma Policy2Bounds(x: seq<int>, w: nat, crit: real)
    requires IsMask(x)
    ensures 0 <= Policy2Epochs(x, w, crit) <= Total(Reach2(x, Nonzero(x), w)) <= |x|
  {
    var p := Nonzero(x);
    var s := Scan2(x, NoMarks(|x|), p, 0, w, crit);
    Scan2Preserves(x, x, NoMarks(|x|), p, 0, w, crit);
    var o := Overlay(s.0, s.1);
    var r := Reach2(x, p, w);
    assert IsMask(o);
    assert IsMask(r);
    SumRangeMonotone(o, r, 0, |x|);
    MaskSumBounds(o, 0, |x|);
    MaskSumBounds(r, 0, |x|);
  }

  function Ones(n: nat): (r: seq<int>)
    ensures |r| == n
  {
    seq(n, _ => 1)
  }

  lemma {:induction false} Scan2AllOnes(xt: seq<bool>, p: seq<nat>, i: nat, w: nat, crit: real, n: nat)
    requires |xt| == n && i <= |p| && forall t :: 0 <= t < |p| ==> p[t] < n
    requires 1 <= w && crit < 1.0
    ensures Scan2(Ones(n), xt, p, i, w, crit).0 == Ones(n)
    decreases |p| - i
  {
    if i < |p| {
      Step2KeepsOnes(xt, p, i, w, crit, n);
      Scan2AllOnes(Step2(Ones(n), xt, p, i, w, crit).1, p, i + 1, w, crit, n);
    }
  }

  /** On an all-qualifying mask no policy-2 step changes the mask. */
  lemma Step2KeepsOnes(xt: seq<bool>, p: seq<nat>, i: nat, w: nat, crit: real, n: nat)
    requires |xt| == n && i < |p| && forall t :: 0 <= t < |p| ==> p[t] < n
    requires 1 <= w && crit < 1.0
    ensures Step2(Ones(n), xt, p, i, w, crit).0 == Ones(n)
  {
    var x := Ones(n);
    var start := p[i];
    if start + w < n {
      OnesPass(x, start, start + w, crit);
      assert SumRange(x, start, start + w) as real > (w as real) * crit;
    } else if |p| > 1 && i > 2 {
      assert x[p[i - 1]] == 1;
      assert x[p[i] := 1] == x;
    }
  }

  /** An all-qualifying record of N >= W epochs is credited in full by policy 2 (W >= 1, `boutcrit < 1`). */
  lemma Policy2AllQualifying(n: nat, w: nat, crit: real)
    requires 1 <= w && crit < 1.0
    ensures Policy2Epochs(Ones(n), w, crit) == n
  {
    var x := Ones(n);
    var p := Nonzero(x);
    Scan2AllOnes(NoMarks(n), p, 0, w, crit, n);
    var s := Scan2(x, NoMarks(n), p, 0, w, crit);
    assert Overlay(s.0, s.1) == x;
    SumRangeConstant(x, 0, n, 1);
  }

  // =====================================================================
  // Policies 3 and 4: sliding windows over a break-penalised mask

  /**
   N = `int(60 / wlen) + 1`: one minute of epochs plus one, so that a break of
   exactly one minute is tolerated. Written with integer division;
   `BreakWindowTruncates` shows it agrees with Python's `int` of the float quotient.
   */
  function BreakWindow(wlen: int): nat
    requires wlen > 0
  {
    60 / wlen + 1
  }

  lemma BreakWindowTruncates(wlen: int)
    requires wlen > 0
    ensures BreakWindow(wlen) == TruncToInt(60.0 / wlen as real) + 1
  {
    TruncOfQuotient(60, wlen);
  }

  /** `int(floor((N + 1) / 2)) - 1` */
  function SliceStart(n: nat): int {
    ((n + 1) as real / 2.0).Floor - 1
  }

  /** `int(ceil(len - N / 2))` */
  function SliceEnd(len: nat, n: nat): int {
    -((-(len as real - n as real / 2.0)).Floor)
  }

  /**
   The break-detector slice `[i1, i2)` starts at 0 or later, ends at `len`
   or earlier and holds exactly `len - N + 1` entries: as many as the moving
   mean of window N produces, for every N >= 1.
   */
  lemma SliceFits(len: nat, n: nat)
    requires n >= 1
    ensures SliceStart(n) == (n + 1) / 2 - 1 >= 0
    ensures SliceEnd(len, n) == len - n / 2 <= len
    ensures SliceEnd(len, n) - SliceStart(n) == len - n + 1
  {
    var q := (n + 1) / 2;
    assert 2 * q <= n + 1 < 2 * q + 2;
    assert q as real <= (n + 1) as real / 2.0 < q as real + 1.0;
    var m := n / 2;
    assert 2 * m <= n < 2 * m + 2;
    var y := -(len as real - n as real / 2.0);
    assert (m - len) as real <= y < (m - len) as real + 1.0;
  }

  /**
   `lookforbreaks`: zeros, with the slice `[i1, i2)` overwritten by the
   moving mean of the mask over N epochs. None when that moving mean fails.
   */
  function BreakScores(x: seq<int>, n: nat): (r: Option<seq<real>>)
    ensures r.Some? <==> 1 <= n <= |x|
    ensures r.Some? ==> |r.value| == |x|
  {
    match MovingMean(ToReal(x), n)
    case None => None
    case Some(m) =>
      SliceFits(|x|, n);
      var i1 := SliceStart(n);
      var i2 := SliceEnd(|x|, n);
      Some(seq(|x|, j requires 0 <= j < |x| => if i1 <= j < i2 then m[j - i1] else 0.0))
  }

  /**
   `-(60 / wlen) * nboutdur` stored into the integer array `xt`, which
   truncates it toward zero. Written with integer division;
   `PenaltyTruncates` shows it is the truncation of the exact real product
   (double-precision rounding of the product is not modelled).
   */
  function Penalty(wlen: int, w: nat): (pen: int)
    requires wlen > 0
    ensures pen <= 0
  {
    -((60 * w) / wlen)
  }

  /** Truncating the exact product `-(60 / wlen) * W` toward zero gives `Penalty`. */
  lemma PenaltyTruncates(wlen: int, w: nat)
    requires wlen > 0
    ensures Penalty(wlen, w) == TruncToInt(-(60.0 / wlen as real) * w as real)
  {
    var a := 60 * w;
    var f := 60.0 / wlen as real;
    assert f * wlen as real == 60.0;
    assert f * w as real * wlen as real == a as real;
    assert f * w as real == a as real / wlen as real;
    TruncOfQuotient(a, wlen);
    TruncNegate(f * w as real);
  }

  /** `xt[lookforbreaks == 0] = penalty`, every other entry a copy of the mask. */
  function Penalised(x: seq<int>, scores: seq<real>, pen: int): (xt: seq<int>)
    requires |scores| == |x|
    ensures |xt| == |x|
  {
    seq(|x|, j requires 0 <= j < |x| => if scores[j] == 0.0 then pen else x[j])
  }

  /** The break-penalised mask of policies 3 and 4, or None when the break detector does not fit. */
  function PenalisedMask(x: seq<int>, wlen: int, w: nat): (r: Option<seq<int>>)
    requires wlen > 0
    ensures r.Some? <==> BreakWindow(wlen) <= |x|
    ensures r.Some? ==> |r.value| == |x|
  {
    match BreakScores(x, BreakWindow(wlen))
    case None => None
    case Some(scores) => Some(Penalised(x, scores, Penalty(wlen, w)))
  }

  /** Each entry of the penalised mask is the mask value or the penalty, so at most 1 and never 2. */
  lemma PenalisedMaskValues(x: seq<int>, wlen: int, w: nat)
    requires wlen > 0 && IsMask(x) && BreakWindow(wlen) <= |x|
    ensures forall j :: 0 <= j < |x| ==>
      PenalisedMask(x, wlen, w).value[j] == x[j] || PenalisedMask(x, wlen, w).value[j] == Penalty(wlen, w)
    ensures forall j :: 0 <= j < |x| ==> PenalisedMask(x, wlen, w).value[j] <= 1
  {
  }

  /** `for gi in range(W): xt[p + gi] = 2` */
  function Mark(xt: seq<int>, p: seq<nat>, w: nat): (r: seq<int>)
    ensures |r| == |xt|
  {
    seq(|xt|, j requires 0 <= j < |xt| => if Covered(p, w, j) then 2 else xt[j])
  }

  /** `x[xt != 2] = 0; x[xt == 2] = 1` */
  function Marked(xt: seq<int>): (r: seq<int>)
    ensures |r| == |xt| && IsMask(r)
  {
    seq(|xt|, j requires 0 <= j < |xt| => if xt[j] == 2 then 1 else 0)
  }

  /** The start test of policies 3 and 4: `rm > boutcrit`, and for policy 4 also `x[p] == 1` and `x[p + W - 1] == 1`. */
  predicate StartOk(x: seq<int>, rm: seq<real>, w: nat, crit: real, ends: bool, k: int)
    requires w >= 1 && |rm| == |x| - w + 1 && 0 <= k < |rm|
  {
    rm[k] > crit && (ends ==> x[k] == 1 && x[k + w - 1] == 1)
  }

  /**
   The accepted window starts, in increasing order: `nonzero(rm > boutcrit)[0]`,
   for policy 4 then filtered with `p[(x[p] == 1) & (x[p + W - 1] == 1)]`.
   A boolean filter keeps the order of p, so this is `nonzero` of the
   conjunction of the two tests.
   */
  function Starts(x: seq<int>, rm: seq<real>, w: nat, crit: real, ends: bool): (q: seq<nat>)
    requires w >= 1 && |rm| == |x| - w + 1
    ensures forall t :: 0 <= t < |q| ==> q[t] < |rm| && StartOk(x, rm, w, crit, ends, q[t])
    ensures forall k :: 0 <= k < |rm| && StartOk(x, rm, w, crit, ends, k) ==> k in q
  {
    Nonzero(seq(|rm|, k requires 0 <= k < |rm| => if StartOk(x, rm, w, crit, ends, k) then 1 else 0))
  }

  /**
   Policies 3 (`ends == false`) and 4 (`ends == true`), in epochs. An error
   when the break detector does not fit; 0 when the bout moving mean fails.
   */
  function Policy34Epochs(x: seq<int>, wlen: int, w: nat, crit: real, ends: bool): (r: Result<int>)
    requires wlen > 0
    ensures r.Err? <==> |x| < BreakWindow(wlen)
    ensures r.Err? ==> r.error == BreakWindowTooLong
    ensures r.Ok? ==> 0 <= r.value <= |x|
  {
    match PenalisedMask(x, wlen, w)
    case None => Err(BreakWindowTooLong)
    case Some(xt) =>
      match MovingMean(ToReal(xt), w)
      case None => Ok(0)
      case Some(rm) =>
        var m := Marked(Mark(xt, Starts(x, rm, w, crit, ends), w));
        MaskSumBounds(m, 0, |x|);
        Ok(Total(m))
  }

  /** The mean of `xt[k..k+W)` exceeds `boutcrit`: the window test of policies 3 and 4. */
  ghost predicate WindowPasses(xt: seq<int>, w: nat, crit: real, k: nat)
    requires k + w <= |xt|
  {
    w >= 1 && SumRange(xt, k, k + w) as real / w as real > crit
  }

  /** The window starting at k is accepted: it passes, and for policy 4 also starts and ends on qualifying epochs. */
  ghost predicate Accepted(x: seq<int>, xt: seq<int>, w: nat, crit: real, ends: bool, k: nat)
    requires |xt| == |x|
  {
    k + w <= |x| && WindowPasses(xt, w, crit, k) && (ends ==> x[k] == 1 && x[k + w - 1] == 1)
  }

  /** Epoch j lies in an accepted window. */
  ghost predicate InBout(x: seq<int>, xt: seq<int>, w: nat, crit: real, ends: bool, j: int)
    requires |xt| == |x|
  {
    exists k: nat :: Accepted(x, xt, w, crit, ends, k) && k <= j < k + w
  }

  /** The epochs of policies 3 and 4: the union of the accepted W-windows. */
  ghost function BoutUnion(x: seq<int>, xt: seq<int>, w: nat, crit: real, ends: bool): set<int>
    requires |xt| == |x|
  {
    set j | 0 <= j < |x| && InBout(x, xt, w, crit, ends, j)
  }

  /** `rm > boutcrit` at k exactly when the window starting at k passes. */
  lemma ExceedingPasses(xt: seq<int>, rm: seq<real>, w: nat, crit: real)
    requires w >= 1 && MovingMean(ToReal(xt), w) == Some(rm)
    ensures forall k :: 0 <= k < |rm| ==> (rm[k] > crit <==> WindowPasses(xt, w, crit, k))
  {
    forall k | 0 <= k < |rm|
      ensures rm[k] > crit <==> WindowPasses(xt, w, crit, k)
    {
      SumRealOfToReal(xt, k, k + w);
    }
  }

  /** The accepted starts are exactly the windows passing the test (and, for policy 4, the end test). */
  lemma StartsAreAccepted(x: seq<int>, xt: seq<int>, rm: seq<real>, w: nat, crit: real, ends: bool)
    requires |xt| == |x| && w >= 1 && MovingMean(ToReal(xt), w) == Some(rm)
    ensures forall t :: 0 <= t < |Starts(x, rm, w, crit, ends)| ==>
      Accepted(x, xt, w, crit, ends, Starts(x, rm, w, crit, ends)[t])
    ensures forall k: nat :: Accepted(x, xt, w, crit, ends, k) ==> k in Starts(x, rm, w, crit, ends)
  {
    ExceedingPasses(xt, rm, w, crit);
    var q := Starts(x, rm, w, crit, ends);
    forall k: nat | Accepted(x, xt, w, crit, ends, k)
      ensures k in q
    {
      assert k < |rm| && StartOk(x, rm, w, crit, ends, k);
    }
  }

  /** Marking, then keeping the marks, yields the covered epochs when no entry was a 2 before. */
  lemma MarkedIsCovered(xt: seq<int>, q: seq<nat>, w: nat)
    requires forall j :: 0 <= j < |xt| ==> xt[j] != 2
    ensures forall j :: 0 <= j < |xt| ==> (Marked(Mark(xt, q, w))[j] == 1 <==> Covered(q, w, j))
  {
  }

  /**
   Policy 3 counts |union of the windows `[p, p+W)` whose penalised mean
   exceeds `boutcrit`|; policy 4 the same union over windows that also start
   and end on a qualifying epoch.
   */
  lemma Policy34IsUnion(x: seq<int>, wlen: int, w: nat, crit: real, ends: bool)
    requires wlen > 0 && IsMask(x)
    requires BreakWindow(wlen) <= |x|
    ensures Policy34Epochs(x, wlen, w, crit, ends) == Ok(|BoutUnion(x, PenalisedMask(x, wlen, w).value, w, crit, ends)|)
  {
    var xt := PenalisedMask(x, wlen, w).value;
    if 1 <= w <= |x| {
      var rm := MovingMean(ToReal(xt), w).value;
      var m := Marked(Mark(xt, Starts(x, rm, w, crit, ends), w));
      PenalisedMaskValues(x, wlen, w);
      MarkedIsUnion(x, xt, rm, w, crit, ends);
      MaskCountIsCardinality(m, |x|);
    } else {
      assert BoutUnion(x, xt, w, crit, ends) == {};
    }
  }

  /** The epochs policies 3 and 4 mark are exactly the union of the accepted windows. */
  lemma MarkedIsUnion(x: seq<int>, xt: seq<int>, rm: seq<real>, w: nat, crit: real, ends: bool)
    requires |xt| == |x| && w >= 1 && MovingMean(ToReal(xt), w) == Some(rm)
    requires forall j :: 0 <= j < |xt| ==> xt[j] != 2
    ensures OnesUpTo(Marked(Mark(xt, Starts(x, rm, w, crit, ends), w)), |x|) == BoutUnion(x, xt, w, crit, ends)
  {
    var q := Starts(x, rm, w, crit, ends);
    var m := Marked(Mark(xt, q, w));
    MarkedIsCovered(xt, q, w);
    StartsAreAccepted(x, xt, rm, w, crit, ends);
    forall j | 0 <= j < |x|
      ensures m[j] == 1 <==> InBout(x, xt, w, crit, ends, j)
    {
      CoveredIffInBout(x, xt, q, w, crit, ends, j);
    }
  }

  /** When q lists exactly the accepted window starts, being covered by q is being in a bout. */
  lemma CoveredIffInBout(x: seq<int>, xt: seq<int>, q: seq<nat>, w: nat, crit: real, ends: bool, j: int)
    requires |xt| == |x|
    requires forall t :: 0 <= t < |q| ==> Accepted(x, xt, w, crit, ends, q[t])
    requires forall k: nat :: Accepted(x, xt, w, crit, ends, k) ==> k in q
    ensures Covered(q, w, j) <==> InBout(x, xt, w, crit, ends, j)
  {
    if Covered(q, w, j) {
      var t :| 0 <= t < |q| && q[t] <= j < q[t] + w;
      assert Accepted(x, xt, w, crit, ends, q[t]);
    }
    if InBout(x, xt, w, crit, ends, j) {
      var k: nat :| Accepted(x, xt, w, crit, ends, k) && k <= j < k + w;
      var t :| 0 <= t < |q| && q[t] == k;
    }
  }

  /** Every window policy 4 accepts, policy 3 accepts too. */
  lemma BoutUnionMonotone(x: seq<int>, xt: seq<int>, w: nat, crit: real)
    requires |xt| == |x|
    ensures BoutUnion(x, xt, w, crit, true) <= BoutUnion(x, xt, w, crit, false)
  {
    forall j | j in BoutUnion(x, xt, w, crit, true)
      ensures j in BoutUnion(x, xt, w, crit, false)
    {
      var k: nat :| Accepted(x, xt, w, crit, true, k) && k <= j < k + w;
      assert Accepted(x, xt, w, crit, false, k);
    }
  }

  /** Policy 4 credits no more than policy 3 on the same input: its windows are a subset. */
  lemma Policy4AtMostPolicy3(x: seq<int>, wlen: int, w: nat, crit: real)
    requires wlen > 0 && IsMask(x)
    requires BreakWindow(wlen) <= |x|
    ensures Policy34Epochs(x, wlen, w, crit, true).Ok?
    ensures Policy34Epochs(x, wlen, w, crit, true).value <= Policy34Epochs(x, wlen, w, crit, false).value
  {
    var xt := PenalisedMask(x, wlen, w).value;
    Policy34IsUnion(x, wlen, w, crit, false);
    Policy34IsUnion(x, wlen, w, crit, true);
    BoutUnionMonotone(x, xt, w, crit);
    SubsetCardinality(BoutUnion(x, xt, w, crit, true), BoutUnion(x, xt, w, crit, false));
  }

  /**
   Which epochs receive the penalty: exactly those outside the slice
   `[i1, i2)` and those whose N-epoch break window holds no qualifying epoch.
   */
  lemma PenaltyWhere(x: seq<int>, wlen: int, w: nat, j: nat)
    requires wlen > 0 && IsMask(x) && j < |x|
    requires BreakWindow(wlen) <= |x|
    ensures var n := BreakWindow(wlen);
      var i1 := (n + 1) / 2 - 1;
      var outside := j < i1 || j >= i1 + |x| - n + 1;
      PenalisedMask(x, wlen, w).value[j] ==
        if outside || SumRange(x, j - i1, j - i1 + n) == 0 then Penalty(wlen, w) else x[j]
  {
    var n := BreakWindow(wlen);
    BreakScoreAt(x, n, j);
  }

  /** The break score of epoch j is zero exactly outside the slice or when its N-epoch window holds no qualifying epoch. */
  lemma BreakScoreAt(x: seq<int>, n: nat, j: nat)
    requires IsMask(x) && 1 <= n <= |x| && j < |x|
    ensures var i1 := (n + 1) / 2 - 1;
      var outside := j < i1 || j >= i1 + |x| - n + 1;
      BreakScores(x, n).value[j] == 0.0 <==> outside || SumRange(x, j - i1, j - i1 + n) == 0
  {
    SliceFits(|x|, n);
    var i1 := (n + 1) / 2 - 1;
    if i1 <= j < i1 + |x| - n + 1 {
      var m := MovingMean(ToReal(x), n).value;
      assert BreakScores(x, n).value[j] == m[j - i1];
      SumRealOfToReal(x, j - i1, j - i1 + n);
      MaskSumBounds(x, j - i1, j - i1 + n);
      QuotientZero(SumRange(x, j - i1, j - i1 + n), n);
    }
  }

  /** A non-negative integer over a positive one is zero exactly when the numerator is. */
  lemma QuotientZero(s: int, n: nat)
    requires s >= 0 && n >= 1
    ensures s as real / n as real == 0.0 <==> s == 0
  {
    if s != 0 {
      ProductSign(s as real / n as real, n as real);
    }
  }

  /**
   A break of N = `60/wlen + 1` epochs (longer than one minute) with no
   qualifying epoch penalises the epoch at its centre offset `i1`.
   */
  lemma LongBreakPenalised(x: seq<int>, wlen: int, w: nat, a: nat)
    requires wlen > 0 && IsMask(x)
    requires a + BreakWindow(wlen) <= |x|
    requires forall j :: a <= j < a + BreakWindow(wlen) ==> x[j] == 0
    ensures PenalisedMask(x, wlen, w).Some?
    ensures PenalisedMask(x, wlen, w).value[a + (BreakWindow(wlen) + 1) / 2 - 1] == Penalty(wlen, w)
  {
    var n := BreakWindow(wlen);
    SliceFits(|x|, n);
    SumRangeConstant(x, a, a + n, 0);
    PenaltyWhere(x, wlen, w, a + (n + 1) / 2 - 1);
  }

  /** A window holding an entry `pen`, all others at most 1, sums to at most `(W - 1) + pen`. */
  lemma {:induction false} PenalisedWindowSum(xt: seq<int>, lo: nat, hi: nat, j: nat, pen: int)
    requires lo <= j < hi <= |xt| && xt[j] == pen
    requires forall t :: lo <= t < hi ==> xt[t] <= 1
    ensures SumRange(xt, lo, hi) <= (hi - lo - 1) + pen
    decreases hi - lo
  {
    if hi - 1 == j {
      AtMostOneSum(xt, lo, j);
    } else {
      PenalisedWindowSum(xt, lo, hi - 1, j, pen);
    }
  }

  lemma {:induction false} AtMostOneSum(xt: seq<int>, lo: nat, hi: nat)
    requires lo <= hi <= |xt|
    requires forall t :: lo <= t < hi ==> xt[t] <= 1
    ensures SumRange(xt, lo, hi) <= hi - lo
    decreases hi - lo
  {
    if lo < hi {
      AtMostOneSum(xt, lo, hi - 1);
    }
  }

  /** For epochs of at most a minute the penalty is at least a whole window: `penalty <= -W`. */
  lemma PenaltyOutweighsWindow(wlen: int, w: nat)
    requires 0 < wlen <= 60
    ensures Penalty(wlen, w) <= -(w as int)
  {
    var a := 60 * w;
    DivBounds(a, wlen);
    assert w * wlen <= a by {
      MulMonotone(wlen, 60, w);
    }
    QuotientAtLeast(a, wlen, w);
  }

  /** A window whose sum is negative never passes a non-negative `boutcrit`. */
  lemma NegativeWindowFails(xt: seq<int>, w: nat, crit: real, k: nat)
    requires k + w <= |xt| && crit >= 0.0 && SumRange(xt, k, k + w) < 0
    ensures !WindowPasses(xt, w, crit, k)
  {
    if w >= 1 {
      var s := SumRange(xt, k, k + w);
      ProductSign(s as real / w as real, w as real);
    }
  }

  /**
   With two-minute epochs the break detector's window is a single epoch and
   the penalty is only `int(-0.5 * W)`, so one non-qualifying epoch, a break
   of two minutes, sits inside a credited bout: `[1, 0, 1]` with W = 3 and
   `boutcrit = 0` is credited all three epochs.
   */
  lemma TwoMinuteEpochsBridgeBreak()
    ensures Policy34Epochs([1, 0, 1], 120, 3, 0.0, false) == Ok(3)
  {
    var x := [1, 0, 1];
    assert BreakWindow(120) == 1;
    assert Penalty(120, 3) == -1;
    var mx := MovingMean(ToReal(x), 1).value;
    assert mx[0] == 1.0 && mx[1] == 0.0 && mx[2] == 1.0 by {
      assert SumReal(ToReal(x), 0, 1) == 1.0;
      assert SumReal(ToReal(x), 1, 2) == 0.0;
      assert SumReal(ToReal(x), 2, 3) == 1.0;
    }
    assert SliceStart(1) == 0 && SliceEnd(3, 1) == 3 by { SliceFits(3, 1); }
    var xt := PenalisedMask(x, 120, 3).value;
    assert xt == [1, -1, 1];
    var rm := MovingMean(ToReal(xt), 3).value;
    assert rm == [1.0 / 3.0] by {
      assert SumReal(ToReal(xt), 0, 3) == 1.0;
    }
    var q := Starts(x, rm, 3, 0.0, false);
    assert q == [0] by {
      var flags := seq(|rm|, k requires 0 <= k < |rm| => if StartOk(x, rm, 3, 0.0, false, k) then 1 else 0);
      assert flags == [1];
      assert NonzeroFrom(flags, 1) == [];
    }
    var m := Marked(Mark(xt, q, 3));
    assert m == [1, 1, 1] by {
      assert Covered(q, 3, 0) && Covered(q, 3, 1) && Covered(q, 3, 2);
    }
    SumRangeConstant(m, 0, 3, 1);
  }

  /**
   For epochs of at most a minute and `boutcrit >= 0`, no accepted window
   holds a penalised epoch: the penalty outweighs a whole window, so breaks
   longer than a minute are never bridged and the epochs outside the break
   slice are never credited.
   */
  lemma PenalisedNeverInBout(x: seq<int>, wlen: int, w: nat, crit: real, k: nat, j: nat)
    requires 0 < wlen <= 60 && IsMask(x) && crit >= 0.0
    requires BreakWindow(wlen) <= |x|
    requires k + w <= |x| && k <= j < k + w
    requires PenalisedMask(x, wlen, w).value[j] == Penalty(wlen, w)
    ensures !WindowPasses(PenalisedMask(x, wlen, w).value, w, crit, k)
  {
    var xt := PenalisedMask(x, wlen, w).value;
    PenaltyOutweighsWindow(wlen, w);
    PenalisedMaskValues(x, wlen, w);
    WindowWithPenaltyFails(xt, w, crit, k, j, Penalty(wlen, w));
  }

  /** A window of entries at most 1 that holds one entry of at most `-W` never passes a non-negative `boutcrit`. */
  lemma WindowWithPenaltyFails(xt: seq<int>, w: nat, crit: real, k: nat, j: nat, pen: int)
    requires crit >= 0.0 && k <= j < k + w <= |xt|
    requires xt[j] == pen <= -(w as int)
    requires forall t :: 0 <= t < |xt| ==> xt[t] <= 1
    ensures !WindowPasses(xt, w, crit, k)
  {
    PenalisedWindowSum(xt, k, k + w, j, pen);
    NegativeWindowFails(xt, w, crit, k);
  }

  /** The penalised mask of an all-qualifying record with one-minute epochs: ones, then `-W` in the last epoch. */
  lemma MinuteEpochsPenalisedOnes(n: nat, w: nat)
    requires n >= 2
    ensures PenalisedMask(Ones(n), 60, w).Some?
    ensures forall j :: 0 <= j < n ==>
      PenalisedMask(Ones(n), 60, w).value[j] == if j == n - 1 then -(w as int) else 1
  {
    var x := Ones(n);
    assert IsMask(x);
    assert BreakWindow(60) == 2;
    SliceFits(n, 2);
    assert Penalty(60, w) == -(w as int);
    forall j | 0 <= j < n
      ensures PenalisedMask(x, 60, w).value[j] == if j == n - 1 then -(w as int) else 1
    {
      if j < n - 1 {
        SumRangeConstant(x, j, j + 2, 1);
      }
      PenaltyWhere(x, 60, w, j);
    }
  }

  /**
   With one-minute epochs an all-qualifying record of N > W epochs gets N - 1
   epochs from policy 3, not N: the last epoch lies outside the break slice,
   is penalised, and sinks every window that contains it.
   */
  lemma Policy3AllQualifyingMinuteEpochs(n: nat, w: nat, crit: real)
    requires 1 <= w < n && 0.0 <= crit < 1.0
    ensures Policy34Epochs(Ones(n), 60, w, crit, false) == Ok(n - 1)
  {
    var x := Ones(n);
    MinuteEpochsPenalisedOnes(n, w);
    var xt := PenalisedMask(x, 60, w).value;
    var rm := MovingMean(ToReal(xt), w).value;
    var p := Starts(x, rm, w, crit, false);
    OnesThenPenaltyWindows(xt, w, crit, rm);
    var m := Marked(Mark(xt, p, w));
    MarkedAllButLast(xt, p, w, m);
    SumRangeConstant(m, 0, n - 1, 1);
    SumRangeSplit(m, 0, n - 1, n);
  }

  lemma DivSelf(r: real)
    requires r > 0.0
    ensures r / r == 1.0
  {
  }

  /** One window of `OnesThenPenaltyWindows`: it exceeds `boutcrit` iff it avoids the last entry. */
  lemma OnesThenPenaltyWindow(xt: seq<int>, w: nat, crit: real, rm: seq<real>, k: nat)
    requires 1 <= w < |xt| && 0.0 <= crit < 1.0
    requires forall j :: 0 <= j < |xt| ==> xt[j] == if j == |xt| - 1 then -(w as int) else 1
    requires MovingMean(ToReal(xt), w) == Some(rm) && k < |rm|
    ensures rm[k] > crit <==> k < |xt| - w
  {
    SumRealOfToReal(xt, k, k + w);
    if k < |xt| - w {
      SumRangeConstant(xt, k, k + w, 1);
      assert SumRange(xt, k, k + w) == w;
      DivSelf(w as real);
      assert rm[k] == (w as real) / (w as real);
    } else {
      PenalisedWindowSum(xt, k, k + w, |xt| - 1, -(w as int));
      var s := SumRange(xt, k, k + w);
      ProductSign(s as real / w as real, w as real);
    }
  }

  /** On ones followed by a last entry of `-W`, exactly the windows that avoid the last entry exceed `boutcrit`. */
  lemma OnesThenPenaltyWindows(xt: seq<int>, w: nat, crit: real, rm: seq<real>)
    requires 1 <= w < |xt| && 0.0 <= crit < 1.0
    requires forall j :: 0 <= j < |xt| ==> xt[j] == if j == |xt| - 1 then -(w as int) else 1
    requires MovingMean(ToReal(xt), w) == Some(rm)
    ensures forall k :: 0 <= k < |rm| ==> (rm[k] > crit <==> k < |xt| - w)
  {
    forall k | 0 <= k < |rm|
      ensures rm[k] > crit <==> k < |xt| - w
    {
      OnesThenPenaltyWindow(xt, w, crit, rm, k);
    }
  }

  /** Marking the windows `[k, k+W)` for every `k < len - W` covers every epoch except the last. */
  lemma MarkedAllButLast(xt: seq<int>, p: seq<nat>, w: nat, m: seq<int>)
    requires 1 <= w < |xt| && forall j :: 0 <= j < |xt| ==> xt[j] != 2
    requires forall k :: 0 <= k < |xt| - w ==> k in p
    requires forall t :: 0 <= t < |p| ==> p[t] < |xt| - w
    requires m == Marked(Mark(xt, p, w))
    ensures forall j :: 0 <= j < |xt| ==> m[j] == if j == |xt| - 1 then 0 else 1
  {
    var n := |xt|;
    forall j | 0 <= j < n
      ensures m[j] == if j == n - 1 then 0 else 1
    {
      if j < n - 1 {
        var k := if j < n - w then j else n - w - 1;
        assert k in p;
        var t :| 0 <= t < |p| && p[t] == k;
        assert Covered(p, w, j);
      } else {
        assert !Covered(p, w, j);
      }
    }
  }

  // =====================================================================
  // get_activity_bouts

  /**
   Minutes spent in bouts. A record shorter than W always gives 0; an
   unknown policy is an error only once the record is at least W long.
   */
  function ActivityBouts(accm: seq<real>, lower: real, upper: real, wlen: int, boutdur: nat,
                         crit: real, closed: bool, metric: int): (r: Result<real>)
    requires wlen > 0
    ensures |accm| < BoutWindow(boutdur, wlen) ==> r == Ok(0.0)
    ensures r == Err(InvalidBoutMetric) <==> (|accm| >= BoutWindow(boutdur, wlen) && metric !in {1, 2, 3, 4})
    ensures r == Err(BreakWindowTooLong) <==>
      (|accm| >= BoutWindow(boutdur, wlen) && metric in {3, 4} && |accm| < BreakWindow(wlen))
    ensures r.Ok? ==> 0.0 <= r.value <= Minutes(|accm|, wlen)
  {
    var w := BoutWindow(boutdur, wlen);
    if |accm| < w then Ok(0.0)
    else
      var x := QualMask(accm, lower, upper);
      if metric == 1 then
        Policy1Bounds(x, w, crit);
        MaskSumBounds(x, 0, |x|);
        MinutesMonotone(Policy1Epochs(x, w, crit, closed), |x|, wlen);
        Ok(Minutes(Policy1Epochs(x, w, crit, closed), wlen))
      else if metric == 2 then
        Policy2Bounds(x, w, crit);
        MinutesMonotone(Policy2Epochs(x, w, crit), |x|, wlen);
        Ok(Minutes(Policy2Epochs(x, w, crit), wlen))
      else if metric == 3 || metric == 4 then
        match Policy34Epochs(x, wlen, w, crit, metric == 4)
        case Err(e) => Err(e)
        case Ok(n) =>
          MinutesMonotone(n, |x|, wlen);
          Ok(Minutes(n, wlen))
      else
        Err(InvalidBoutMetric)
  }
}
