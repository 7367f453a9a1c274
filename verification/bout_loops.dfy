/**
 The loops of `get_activity_bouts` written as loops: the policy-1 and
 policy-2 scans over the qualifying indices, and the `for gi in range(W)`
 marking of policies 3 and 4. Each method is proved to compute what the
 recursive definitions in module Bouts compute.
 */
module BoutLoops {
  import opened Windowed
  import opened Bouts

  /**
   Policy 1 as the source writes it: an outer `while` over the qualifying
   indices, each iteration crediting one attempt and jumping past it.
   */
  method Policy1Loop(accm: seq<real>, lower: real, upper: real, w: nat, crit: real, closed: bool)
    returns (epochs: int)
    ensures epochs == Policy1Epochs(QualMask(accm, lower, upper), w, crit, closed)
    ensures 0 <= epochs <= |accm|
  {
    var x := QualMask(accm, lower, upper);
    var p := Nonzero(x);
    var i := 0;
    epochs := 0;
    while i < |p|
      invariant 0 <= i <= |p|
      invariant epochs + Scan1(x, p, i, w, crit, closed) == Scan1(x, p, 0, w, crit, closed)
      decreases |p| - i
    {
      var credit, next := Policy1Step(x, p, i, w, crit, closed);
      epochs := epochs + credit;
      i := next;
    }
    Policy1Bounds(x, w, crit);
  }

  /** One iteration of the outer loop of policy 1: the epochs it credits and the next scan position. */
  method Policy1Step(x: seq<int>, p: seq<nat>, i: nat, w: nat, crit: real, closed: bool)
    returns (credit: int, next: nat)
    requires forall t :: 0 <= t < |p| ==> p[t] < |x|
    requires i < |p|
    ensures i < next <= |p|
    ensures Scan1(x, p, i, w, crit, closed) == credit + Scan1(x, p, next, w, crit, closed)
  {
    var start := p[i];
    var end := start + w;
    var jump := 1;
    credit := 0;
    ghost var a := Attempt1(x, p, i, w, crit);
    if end < |x| && SumRange(x, start, end) as real > (w as real) * crit {
      assert Opens(x, start, w, crit);
      AttemptOpens(x, p, i, w, crit);
      end := ExtendLoop(x, start, end, crit);
      var select := Below(p[i..], end);
      assert a == Bout(end, |select|);
      jump := if |select| > 1 then |select| else 1;
      if closed {
        credit := ClosedSpan(p, start, end);
      } else {
        credit := |select|;
      }
    } else {
      assert a == Skip;
    }
    assert credit == Credit1(p, i, a, closed);
    next := i + jump;
    assert next == Next1(i, a);
  }

  /** The inner `while` of policy 1: grow `end` while the qualifying fraction of `x[start:end+1]` exceeds `boutcrit`. */
  method ExtendLoop(x: seq<int>, start: nat, end0: nat, crit: real) returns (end: nat)
    requires start <= end0 <= |x|
    ensures end == ExtendEnd(x, start, end0, crit)
  {
    end := end0;
    while end < |x| && SumRange(x, start, end + 1) as real > (end + 1 - start) as real * crit
      invariant end0 <= end <= |x|
      invariant ExtendEnd(x, start, end, crit) == ExtendEnd(x, start, end0, crit)
      decreases |x| - end
    {
      end := end + 1;
    }
  }

  /**
   Policy 2 as the source writes it: one pass over the qualifying indices
   that marks accepted windows on an overlay and demotes failed starts in
   place, then `x[xt == 2] = 1` and the sum.
   */
  method Policy2Loop(accm: seq<real>, lower: real, upper: real, w: nat, crit: real)
    returns (epochs: int)
    ensures epochs == Policy2Epochs(QualMask(accm, lower, upper), w, crit)
    ensures 0 <= epochs <= |accm|
  {
    var x0 := QualMask(accm, lower, upper);
    var p := Nonzero(x0);
    var x := x0;
    var xt := NoMarks(|x0|);
    var i := 0;
    while i < |p|
      invariant 0 <= i <= |p| && |x| == |x0| && |xt| == |x0|
      invariant Scan2(x, xt, p, i, w, crit) == Scan2(x0, NoMarks(|x0|), p, 0, w, crit)
      decreases |p| - i
    {
      var start := p[i];
      var end := start + w;
      if end < |x| {
        if SumRange(x, start, end) as real > (w as real) * crit {
          xt := Fill(xt, start, end);
        } else {
          x := x[start := 0];
        }
      } else if |p| > 1 && i > 2 {
        x := x[p[i] := x[p[i - 1]]];
      }
      i := i + 1;
    }
    var o := Overlay(x, xt);
    epochs := SumLoop(o);
    Policy2Bounds(x0, w, crit);
  }

  /** `sum(x)`, accumulated left to right. */
  method SumLoop(x: seq<int>) returns (s: int)
    ensures s == Total(x)
  {
    s := 0;
    var k := 0;
    while k < |x|
      invariant 0 <= k <= |x|
      invariant s == SumRange(x, 0, k)
      decreases |x| - k
    {
      s := s + x[k];
      k := k + 1;
    }
  }

  /** Epoch j is `p[t] + g` for some t below u. */
  ghost predicate HitBy(p: seq<nat>, u: nat, g: nat, j: int) {
    exists t :: 0 <= t < u && t < |p| && p[t] + g == j
  }

  /**
   `for gi in range(W): ind = p + gi; xt[ind[(ind >= 0) & (ind < xt.size)]] = 2`:
   the outer loop shifts the starts by gi, the inner loop writes each shifted
   index that falls inside the array.
   */
  method MarkWindows(xt: seq<int>, p: seq<nat>, w: nat) returns (r: seq<int>)
    ensures r == Mark(xt, p, w)
  {
    r := xt;
    var g := 0;
    while g < w
      invariant 0 <= g <= w && |r| == |xt|
      invariant forall j :: 0 <= j < |r| ==> r[j] == if Covered(p, g, j) then 2 else xt[j]
      decreases w - g
    {
      var t := 0;
      while t < |p|
        invariant 0 <= t <= |p| && |r| == |xt|
        invariant forall j :: 0 <= j < |r| ==>
          r[j] == if Covered(p, g, j) || HitBy(p, t, g, j) then 2 else xt[j]
        decreases |p| - t
      {
        var ind := p[t] + g;
        if ind < |r| {
          r := r[ind := 2];
        }
        t := t + 1;
      }
      forall j | 0 <= j < |r|
        ensures Covered(p, g + 1, j) <==> Covered(p, g, j) || HitBy(p, |p|, g, j)
      {
        if Covered(p, g + 1, j) {
          var u :| 0 <= u < |p| && p[u] <= j < p[u] + g + 1;
          if j == p[u] + g {
            assert HitBy(p, |p|, g, j);
          }
        }
      }
      g := g + 1;
    }
  }
}
