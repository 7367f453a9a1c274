/**
 The three activity endpoints that write straight into the results table
 on every block of data: `TotalIntensityTime`, `BoutIntensityTime` and
 `MaxAcceleration`. A day's waking (or sleeping) hours arrive as several
 blocks of wear time; each block is one `predict` call with the day index
 i, and the calls accumulate into the day-i cells of the endpoint's columns.
 */
module Endpoints {
  import opened Windowed
  import opened Bouts
  import opened Tables

  // ---------------------------------------------------------------------
  // Time at an intensity level

  /** `sum((a >= lower) & (a < upper))`: the epochs of the block at the intensity level. */
  function LevelCount(a: seq<real>, lower: real, upper: real): (c: int)
    ensures 0 <= c <= |a|
  {
    MaskSumBounds(QualMask(a, lower, upper), 0, |a|);
    Total(QualMask(a, lower, upper))
  }

  /** Counting is additive over consecutive blocks. */
  lemma LevelCountAppend(a: seq<real>, b: seq<real>, lower: real, upper: real)
    ensures LevelCount(a + b, lower, upper) == LevelCount(a, lower, upper) + LevelCount(b, lower, upper)
  {
    assert QualMask(a + b, lower, upper) == QualMask(a, lower, upper) + QualMask(b, lower, upper);
    TotalAppend(QualMask(a, lower, upper), QualMask(b, lower, upper));
  }

  /** The count is the number of epochs whose value lies in `[lower, upper)`. */
  lemma LevelCountIsCardinality(a: seq<real>, lower: real, upper: real)
    ensures LevelCount(a, lower, upper) == |set k | 0 <= k < |a| && lower <= a[k] < upper|
  {
    var x := QualMask(a, lower, upper);
    MaskCountIsCardinality(x, |x|);
    assert OnesUpTo(x, |x|) == (set k | 0 <= k < |a| && lower <= a[k] < upper);
  }

  /** `f"{state} {level} {epoch_length}s epoch [min]"`. */
  function TotalName(s: State, level: string, epochLength: nat): string {
    Qualify(s, level + " " + NatToString(epochLength) + "s epoch [min]")
  }

  /**
   `TotalIntensityTime.predict`: add the block's minutes at the level,
   `count / epochs_per_min`, to the day's cell. A NaN cell stays NaN.
   */
  function TotalPredict(t: Table, name: string, i: nat, accm: seq<real>, lower: real, upper: real, epm: nat)
    : (u: Table)
    requires HasSlot(t, name, i) && epm > 0
    ensures SameShape(t, u) && OnlyCells(t, u, {name}, i)
    ensures u[name][i].Num? <==> t[name][i].Num?
    ensures u[name][i] == Add(t[name][i], Num(LevelCount(accm, lower, upper) as real / epm as real))
    ensures t[name][i].Num? ==> t[name][i].r <= u[name][i].r <= t[name][i].r + |accm| as real / epm as real
  {
    var c := LevelCount(accm, lower, upper);
    assert c as real / epm as real <= |accm| as real / epm as real;
    PutOnlyCell(t, name, i, Add(t[name][i], Num(c as real / epm as real)));
    Put(t, name, i, Add(t[name][i], Num(c as real / epm as real)))
  }

  lemma QuotientSum(a: int, b: int, e: nat)
    requires e > 0
    ensures a as real / e as real + b as real / e as real == (a + b) as real / e as real
  {
  }

  /**
   Splitting a stretch of wear time into two blocks does not change the
   total: two predict calls leave the cell one call on the concatenation leaves.
   */
  lemma TotalBlocksAdd(t: Table, name: string, i: nat, a: seq<real>, b: seq<real>,
                       lower: real, upper: real, epm: nat)
    requires HasSlot(t, name, i) && epm > 0
    ensures TotalPredict(TotalPredict(t, name, i, a, lower, upper, epm), name, i, b, lower, upper, epm)
         == TotalPredict(t, name, i, a + b, lower, upper, epm)
  {
    var ca := LevelCount(a, lower, upper);
    var cb := LevelCount(b, lower, upper);
    var x := ca as real / epm as real;
    var y := cb as real / epm as real;
    LevelCountAppend(a, b, lower, upper);
    QuotientSum(ca, cb, epm);
    AddTwice(t[name][i], x, y);
    var t1 := Put(t, name, i, Add(t[name][i], Num(x)));
    assert TotalPredict(t, name, i, a, lower, upper, epm) == t1;
    assert TotalPredict(t1, name, i, b, lower, upper, epm) == Put(t1, name, i, Add(t1[name][i], Num(y)));
    PutPut(t, name, i, Add(t[name][i], Num(x)), Add(t1[name][i], Num(y)));
  }

  // ---------------------------------------------------------------------
  // Time in bouts

  /** `f"{state} {level} {b}min bout [min]"` for each bout length b. */
  function BoutNames(s: State, level: string, lens: seq<nat>): (names: seq<string>)
    ensures |names| == |lens|
  {
    QualifyAll(s, Numbered(level + " ", lens, "min bout [min]"))
  }

  lemma BoutNamesDistinct(s: State, level: string, lens: seq<nat>)
    requires DistinctNats(lens)
    ensures Distinct(BoutNames(s, level, lens))
  {
    NumberedDistinct(level + " ", lens, "min bout [min]");
    QualifyAllDistinct(s, Numbered(level + " ", lens, "min bout [min]"));
  }

  /** The table after a predict call, and the error it raised, if any. */
  datatype Outcome = Outcome(table: Table, error: Option<BoutError>)

  /** The bout settings shared by all bout lengths of one endpoint. */
  datatype BoutSettings = BoutSettings(lower: real, upper: real, wlen: int, crit: real, closed: bool, metric: int)

  function BoutsFor(accm: seq<real>, b: BoutSettings, boutdur: nat): Result<real>
    requires b.wlen > 0
  {
    ActivityBouts(accm, b.lower, b.upper, b.wlen, boutdur, b.crit, b.closed, b.metric)
  }

  /**
   The `for bout_len, name in zip(...)` loop of `BoutIntensityTime.predict`
   from position k: each bout length adds its minutes in bouts to its cell.
   An error from `get_activity_bouts` propagates, and the cells of the
   earlier bout lengths keep what was already added.
   */
  function BoutPredictFrom(t: Table, names: seq<string>, lens: seq<nat>, k: nat, i: nat,
                           accm: seq<real>, b: BoutSettings): (o: Outcome)
    requires |names| == |lens| && k <= |lens| && b.wlen > 0
    requires Slots(t, names, i)
    ensures SameShape(t, o.table) && Slots(o.table, names, i)
    ensures OnlyCells(t, o.table, NamesFrom(names, k), i)
    ensures o.error.None? <==> forall m :: k <= m < |lens| ==> BoutsFor(accm, b, lens[m]).Ok?
    ensures o.error.Some? ==> exists m :: k <= m < |lens| && BoutsFor(accm, b, lens[m]) == Err(o.error.value)
    decreases |lens| - k
  {
    if k == |lens| then Outcome(t, None)
    else
      match BoutsFor(accm, b, lens[k])
      case Err(e) => Outcome(t, Some(e))
      case Ok(v) =>
        var t1 := Put(t, names[k], i, Add(t[names[k]][i], Num(v)));
        PutSlots(t, names, k, i, Add(t[names[k]][i], Num(v)));
        var o := BoutPredictFrom(t1, names, lens, k + 1, i, accm, b);
        OnlyCellsTrans(t, t1, o.table, {names[k]}, NamesFrom(names, k + 1), i);
        NamesFromStep(names, k);
        o
  }

  /** `BoutIntensityTime.predict`. */
  function BoutPredict(t: Table, names: seq<string>, lens: seq<nat>, i: nat, accm: seq<real>, b: BoutSettings)
    : (o: Outcome)
    requires |names| == |lens| && b.wlen > 0 && Slots(t, names, i)
    ensures SameShape(t, o.table) && OnlyCells(t, o.table, NamesFrom(names, 0), i)
    ensures o.error.None? <==> forall m :: 0 <= m < |lens| ==> BoutsFor(accm, b, lens[m]).Ok?
  {
    BoutPredictFrom(t, names, lens, 0, i, accm, b)
  }

  lemma {:induction false} BoutPredictFromValueAt(t: Table, names: seq<string>, lens: seq<nat>, k: nat, j: nat, i: nat,
                                                  accm: seq<real>, b: BoutSettings)
    requires |names| == |lens| && k <= j < |lens| && b.wlen > 0 && Slots(t, names, i) && Distinct(names)
    requires forall m :: k <= m < |lens| ==> BoutsFor(accm, b, lens[m]).Ok?
    ensures BoutPredictFrom(t, names, lens, k, i, accm, b).table[names[j]][i]
         == Add(t[names[j]][i], Num(BoutsFor(accm, b, lens[j]).value))
    decreases j - k
  {
    var v := BoutsFor(accm, b, lens[k]).value;
    var t1 := Put(t, names[k], i, Add(t[names[k]][i], Num(v)));
    PutSlots(t, names, k, i, Add(t[names[k]][i], Num(v)));
    assert BoutPredictFrom(t1, names, lens, k + 1, i, accm, b) == BoutPredictFrom(t, names, lens, k, i, accm, b);
    if k == j {
      assert names[k] !in NamesFrom(names, k + 1);
    } else {
      BoutPredictFromValueAt(t1, names, lens, k + 1, j, i, accm, b);
      assert names[j] != names[k];
    }
  }

  lemma BoutPredictFromValues(t: Table, names: seq<string>, lens: seq<nat>, k: nat, i: nat,
                              accm: seq<real>, b: BoutSettings)
    requires |names| == |lens| && k <= |lens| && b.wlen > 0 && Slots(t, names, i) && Distinct(names)
    requires forall m :: k <= m < |lens| ==> BoutsFor(accm, b, lens[m]).Ok?
    ensures forall m :: k <= m < |lens| ==>
      BoutPredictFrom(t, names, lens, k, i, accm, b).table[names[m]][i]
      == Add(t[names[m]][i], Num(BoutsFor(accm, b, lens[m]).value))
  {
    forall m | k <= m < |lens|
      ensures BoutPredictFrom(t, names, lens, k, i, accm, b).table[names[m]][i]
           == Add(t[names[m]][i], Num(BoutsFor(accm, b, lens[m]).value))
    {
      BoutPredictFromValueAt(t, names, lens, k, m, i, accm, b);
    }
  }

  /**
   When no bout length raises, each column of a distinct bout length gains
   exactly the minutes in bouts of that length found in the block, a number
   between 0 and the block's duration in minutes.
   */
  lemma BoutPredictValues(t: Table, names: seq<string>, lens: seq<nat>, i: nat, accm: seq<real>, b: BoutSettings)
    requires |names| == |lens| && b.wlen > 0 && Slots(t, names, i) && Distinct(names)
    requires BoutPredict(t, names, lens, i, accm, b).error.None?
    ensures forall m :: 0 <= m < |lens| ==>
      var v := BoutsFor(accm, b, lens[m]);
      && v.Ok? && 0.0 <= v.value <= Minutes(|accm|, b.wlen)
      && BoutPredict(t, names, lens, i, accm, b).table[names[m]][i] == Add(t[names[m]][i], Num(v.value))
  {
    BoutPredictFromValues(t, names, lens, 0, i, accm, b);
  }

  /**
   Over two blocks a day's cell gains the sum of the two blocks' minutes in
   bouts; a bout is never counted across the gap between blocks.
   */
  lemma BoutBlocksAccumulate(t: Table, names: seq<string>, lens: seq<nat>, i: nat,
                             a: seq<real>, c: seq<real>, b: BoutSettings)
    requires |names| == |lens| && b.wlen > 0 && Slots(t, names, i) && Distinct(names)
    requires BoutPredict(t, names, lens, i, a, b).error.None?
    requires BoutPredict(BoutPredict(t, names, lens, i, a, b).table, names, lens, i, c, b).error.None?
    ensures forall m :: 0 <= m < |lens| ==>
      BoutPredict(BoutPredict(t, names, lens, i, a, b).table, names, lens, i, c, b).table[names[m]][i]
      == Add(t[names[m]][i], Num(BoutsFor(a, b, lens[m]).value + BoutsFor(c, b, lens[m]).value))
  {
    var t1 := BoutPredict(t, names, lens, i, a, b).table;
    BoutPredictValues(t, names, lens, i, a, b);
    BoutPredictFromValues(t1, names, lens, 0, i, c, b);
    forall m | 0 <= m < |lens|
      ensures BoutPredict(t1, names, lens, i, c, b).table[names[m]][i]
           == Add(t[names[m]][i], Num(BoutsFor(a, b, lens[m]).value + BoutsFor(c, b, lens[m]).value))
    {
      AddTwice(t[names[m]][i], BoutsFor(a, b, lens[m]).value, BoutsFor(c, b, lens[m]).value);
    }
  }

  /**
   The minutes in bouts that the bout lengths from position k on add to
   column n: every position whose name is n adds its own. A bout length
   listed twice has one name, so its column gains its minutes twice.
   */
  function BoutSumFrom(names: seq<string>, lens: seq<nat>, k: nat, n: string, accm: seq<real>, b: BoutSettings): real
    requires |names| == |lens| && k <= |lens| && b.wlen > 0
    decreases |lens| - k
  {
    if k == |lens| then 0.0
    else
      (if names[k] == n && BoutsFor(accm, b, lens[k]).Ok? then BoutsFor(accm, b, lens[k]).value else 0.0)
      + BoutSumFrom(names, lens, k + 1, n, accm, b)
  }

  /** What a whole predict call adds to column n. */
  function BoutSum(names: seq<string>, lens: seq<nat>, n: string, accm: seq<real>, b: BoutSettings): real
    requires |names| == |lens| && b.wlen > 0
  {
    BoutSumFrom(names, lens, 0, n, accm, b)
  }

  lemma {:induction false} BoutPredictFromSum(t: Table, names: seq<string>, lens: seq<nat>, k: nat, i: nat,
                                              accm: seq<real>, b: BoutSettings, n: string)
    requires |names| == |lens| && k <= |lens| && b.wlen > 0 && Slots(t, names, i) && HasSlot(t, n, i)
    requires forall m :: k <= m < |lens| ==> BoutsFor(accm, b, lens[m]).Ok?
    ensures BoutPredictFrom(t, names, lens, k, i, accm, b).table[n][i] == Add(t[n][i], Num(BoutSumFrom(names, lens, k, n, accm, b)))
    decreases |lens| - k
  {
    if k < |lens| {
      var v := BoutsFor(accm, b, lens[k]).value;
      var t1 := Put(t, names[k], i, Add(t[names[k]][i], Num(v)));
      PutSlots(t, names, k, i, Add(t[names[k]][i], Num(v)));
      BoutPredictFromSum(t1, names, lens, k + 1, i, accm, b, n);
      if n == names[k] {
        AddTwice(t[n][i], v, BoutSumFrom(names, lens, k + 1, n, accm, b));
      }
    }
  }

  /**
   When no bout length raises, every column gains the minutes of each bout
   length that writes to it, repeated bout lengths included, and a column
   no bout length names is unchanged.
   */
  lemma BoutPredictSums(t: Table, names: seq<string>, lens: seq<nat>, i: nat, accm: seq<real>, b: BoutSettings)
    requires |names| == |lens| && b.wlen > 0 && Slots(t, names, i)
    requires BoutPredict(t, names, lens, i, accm, b).error.None?
    ensures forall n :: n in t && i < |t[n]| ==>
      BoutPredict(t, names, lens, i, accm, b).table[n][i] == Add(t[n][i], Num(BoutSum(names, lens, n, accm, b)))
  {
    forall n | n in t && i < |t[n]|
      ensures BoutPredict(t, names, lens, i, accm, b).table[n][i] == Add(t[n][i], Num(BoutSum(names, lens, n, accm, b)))
    {
      BoutPredictFromSum(t, names, lens, 0, i, accm, b, n);
    }
  }

  /** A bout length listed twice adds the block's minutes in its bouts twice into its one column. */
  lemma RepeatedBoutLengthCountsTwice(t: Table, n: string, len: nat, i: nat, accm: seq<real>, b: BoutSettings)
    requires b.wlen > 0 && HasSlot(t, n, i) && BoutsFor(accm, b, len).Ok?
    ensures BoutPredict(t, [n, n], [len, len], i, accm, b).table[n][i]
         == Add(t[n][i], Num(2.0 * BoutsFor(accm, b, len).value))
  {
    var v := BoutsFor(accm, b, len).value;
    assert Slots(t, [n, n], i);
    assert BoutSumFrom([n, n], [len, len], 2, n, accm, b) == 0.0;
    assert BoutSumFrom([n, n], [len, len], 1, n, accm, b) == v;
    assert BoutSumFrom([n, n], [len, len], 0, n, accm, b) == v + v;
    BoutPredictSums(t, [n, n], [len, len], i, accm, b);
  }

  /**
   Over two blocks, with bout lengths repeated or not, every column gains
   the sum of what the two blocks credit to it.
   */
  lemma {:induction false} BoutBlocksSum(t: Table, t1: Table, t2: Table, names: seq<string>, lens: seq<nat>, i: nat,
                                         a: seq<real>, c: seq<real>, b: BoutSettings)
    requires |names| == |lens| && b.wlen > 0 && Slots(t, names, i)
    requires BoutPredict(t, names, lens, i, a, b) == Outcome(t1, None)
    requires BoutPredict(t1, names, lens, i, c, b) == Outcome(t2, None)
    ensures forall n :: n in t && i < |t[n]| ==>
      t2[n][i] == Add(t[n][i], Num(BoutSum(names, lens, n, a, b) + BoutSum(names, lens, n, c, b)))
  {
    forall n | n in t && i < |t[n]|
      ensures t2[n][i] == Add(t[n][i], Num(BoutSum(names, lens, n, a, b) + BoutSum(names, lens, n, c, b)))
    {
      BoutPredictFromSum(t, names, lens, 0, i, a, b, n);
      BoutPredictFromSum(t1, names, lens, 0, i, c, b, n);
      AddTwice(t[n][i], BoutSum(names, lens, n, a, b), BoutSum(names, lens, n, c, b));
    }
  }

  // ---------------------------------------------------------------------
  // Maximum acceleration

  /** `f"{state} max acc {w}min [g]"` for each window length w. */
  function MaxNames(s: State, wlens: seq<nat>): (names: seq<string>)
    ensures |names| == |wlens|
  {
    QualifyAll(s, Numbered("max acc ", wlens, "min [g]"))
  }

  lemma MaxNamesDistinct(s: State, wlens: seq<nat>)
    requires DistinctNats(wlens)
    ensures Distinct(MaxNames(s, wlens))
  {
    NumberedDistinct("max acc ", wlens, "min [g]");
    QualifyAllDistinct(s, Numbered("max acc ", wlens, "min [g]"));
  }

  /** The mean of the n epochs from k on. */
  function WindowMean(a: seq<real>, k: nat, n: nat): real
    requires 1 <= n && k + n <= |a|
  {
    SumReal(a, k, k + n) / n as real
  }

  /**
   `max(moving_mean(a, n, 1))`: the largest mean over the windows of n
   consecutive epochs, or None where `moving_mean` raises.
   */
  function WindowMax(a: seq<real>, n: int): (m: Option<real>)
    ensures m.Some? <==> 1 <= n <= |a|
  {
    if 1 <= n <= |a| then Some(MaxReal(MovingMean(a, n).value)) else None
  }

  /** The maximum is the mean of some window and no window's mean exceeds it. */
  lemma WindowMaxIsLargestMean(a: seq<real>, n: int)
    requires 1 <= n <= |a|
    ensures exists k: nat :: k <= |a| - n && WindowMax(a, n).value == WindowMean(a, k, n)
    ensures forall k: nat :: k <= |a| - n ==> WindowMean(a, k, n) <= WindowMax(a, n).value
  {
    var mm := MovingMean(a, n).value;
    MeansAreWindows(a, n, mm);
    var k :| 0 <= k < |mm| && mm[k] == MaxReal(mm);
    assert WindowMax(a, n).value == WindowMean(a, k, n);
  }

  lemma MeansAreWindows(a: seq<real>, n: int, mm: seq<real>)
    requires 1 <= n <= |a| && MovingMean(a, n) == Some(mm)
    ensures |mm| == |a| - n + 1
    ensures forall k: nat :: k <= |a| - n ==> mm[k] == WindowMean(a, k, n)
  {
  }

  /**
   The `for wlen, name in zip(...)` loop of `MaxAcceleration.predict` from
   position k: keep the larger of the block's maximum and the day's value.
   A window longer than the block ends the whole call (`return`), so the
   later window lengths are skipped too.
   */
  function MaxPredictFrom(t: Table, names: seq<string>, wlens: seq<nat>, k: nat, i: nat, accm: seq<real>, epm: nat)
    : (u: Table)
    requires |names| == |wlens| && k <= |wlens| && Slots(t, names, i)
    ensures SameShape(t, u) && Slots(u, names, i)
    ensures OnlyCells(t, u, NamesFrom(names, k), i)
    ensures Grows(t, u, i)
    decreases |wlens| - k
  {
    if k == |wlens| then t
    else
      match WindowMax(accm, wlens[k] * epm)
      case None => t
      case Some(m) =>
        var t1 := Put(t, names[k], i, NanMax(Num(m), t[names[k]][i]));
        PutMaxStep(t, names, k, i, m);
        var u := MaxPredictFrom(t1, names, wlens, k + 1, i, accm, epm);
        OnlyCellsTrans(t, t1, u, {names[k]}, NamesFrom(names, k + 1), i);
        GrowsTrans(t, t1, u, i);
        NamesFromStep(names, k);
        u
  }

  /** What one `nanmax` write of the loop does to the table. */
  lemma PutMaxStep(t: Table, names: seq<string>, k: nat, i: nat, m: real)
    requires k < |names| && Slots(t, names, i)
    ensures var t1 := Put(t, names[k], i, NanMax(Num(m), t[names[k]][i]));
      && SameShape(t, t1) && Slots(t1, names, i)
      && OnlyCells(t, t1, {names[k]}, i) && Grows(t, t1, i)
  {
    PutSlots(t, names, k, i, NanMax(Num(m), t[names[k]][i]));
    PutNanMaxGrows(t, names[k], i, m);
  }

  /** One step of the loop when the window fits. */
  lemma MaxStep(t: Table, names: seq<string>, wlens: seq<nat>, k: nat, i: nat, accm: seq<real>, epm: nat)
    requires |names| == |wlens| && k < |wlens| && Slots(t, names, i)
    requires WindowMax(accm, wlens[k] * epm).Some?
    ensures var t1 := Put(t, names[k], i, NanMax(Num(WindowMax(accm, wlens[k] * epm).value), t[names[k]][i]));
      MaxPredictFrom(t, names, wlens, k, i, accm, epm) == MaxPredictFrom(t1, names, wlens, k + 1, i, accm, epm)
  {
  }

  /** `MaxAcceleration.predict`: a day's maximum never decreases. */
  function MaxPredict(t: Table, names: seq<string>, wlens: seq<nat>, i: nat, accm: seq<real>, epm: nat)
    : (u: Table)
    requires |names| == |wlens| && Slots(t, names, i)
    ensures SameShape(t, u) && OnlyCells(t, u, NamesFrom(names, 0), i)
    ensures forall n :: n in t && i < |t[n]| ==> NoSmaller(u[n][i], t[n][i])
  {
    MaxPredictFrom(t, names, wlens, 0, i, accm, epm)
  }

  lemma {:induction false} MaxStopsAt(t: Table, names: seq<string>, wlens: seq<nat>, j: nat, k: nat, i: nat,
                                      accm: seq<real>, epm: nat)
    requires |names| == |wlens| && j <= k < |wlens| && Slots(t, names, i) && Distinct(names)
    requires WindowMax(accm, wlens[k] * epm).None?
    ensures forall m :: k <= m < |wlens| ==> MaxPredictFrom(t, names, wlens, j, i, accm, epm)[names[m]][i] == t[names[m]][i]
    decreases k - j
  {
    if j < k && WindowMax(accm, wlens[j] * epm).Some? {
      var m := WindowMax(accm, wlens[j] * epm).value;
      var t1 := Put(t, names[j], i, NanMax(Num(m), t[names[j]][i]));
      MaxStep(t, names, wlens, j, i, accm, epm);
      MaxStopsAt(t1, names, wlens, j + 1, k, i, accm, epm);
      assert forall m :: k <= m < |wlens| ==> names[m] != names[j];
    } else {
      assert MaxPredictFrom(t, names, wlens, j, i, accm, epm) == t;
    }
  }

  /**
   Once a window length does not fit in the block, neither its cell nor
   the cell of any later window length changes, whether or not the later
   windows would fit.
   */
  lemma MaxSkipsAfterTooLong(t: Table, names: seq<string>, wlens: seq<nat>, k: nat, i: nat, accm: seq<real>, epm: nat)
    requires |names| == |wlens| && k < |wlens| && Slots(t, names, i) && Distinct(names)
    requires |accm| < wlens[k] * epm
    ensures forall m :: k <= m < |wlens| ==> MaxPredict(t, names, wlens, i, accm, epm)[names[m]][i] == t[names[m]][i]
  {
    MaxStopsAt(t, names, wlens, 0, k, i, accm, epm);
  }

  lemma {:induction false} MaxPredictFromValueAt(t: Table, names: seq<string>, wlens: seq<nat>, k: nat, j: nat, i: nat,
                                                 accm: seq<real>, epm: nat)
    requires |names| == |wlens| && k <= j < |wlens| && Slots(t, names, i) && Distinct(names)
    requires forall m :: k <= m <= j ==> 1 <= wlens[m] * epm <= |accm|
    ensures MaxPredictFrom(t, names, wlens, k, i, accm, epm)[names[j]][i]
         == NanMax(Num(WindowMax(accm, wlens[j] * epm).value), t[names[j]][i])
    decreases j - k
  {
    var m := WindowMax(accm, wlens[k] * epm).value;
    var t1 := Put(t, names[k], i, NanMax(Num(m), t[names[k]][i]));
    MaxStep(t, names, wlens, k, i, accm, epm);
    PutMaxStep(t, names, k, i, m);
    if k == j {
      assert names[k] !in NamesFrom(names, k + 1);
    } else {
      MaxPredictFromValueAt(t1, names, wlens, k + 1, j, i, accm, epm);
      assert names[j] != names[k];
    }
  }

  /**
   Every window length before the first one that does not fit in the block
   (all of them, when all fit) leaves its column holding the larger of its
   previous value and the block's largest window mean; the window lengths
   from the first misfit on are `MaxSkipsAfterTooLong`'s.
   */
  lemma MaxPredictValues(t: Table, names: seq<string>, wlens: seq<nat>, e: nat, i: nat, accm: seq<real>, epm: nat)
    requires |names| == |wlens| && e <= |wlens| && Slots(t, names, i) && Distinct(names)
    requires forall m :: 0 <= m < e ==> 1 <= wlens[m] * epm <= |accm|
    ensures forall m :: 0 <= m < e ==>
      MaxPredict(t, names, wlens, i, accm, epm)[names[m]][i]
      == NanMax(Num(WindowMax(accm, wlens[m] * epm).value), t[names[m]][i])
  {
    forall j | 0 <= j < e
      ensures MaxPredict(t, names, wlens, i, accm, epm)[names[j]][i]
           == NanMax(Num(WindowMax(accm, wlens[j] * epm).value), t[names[j]][i])
    {
      MaxPredictFromValueAt(t, names, wlens, 0, j, i, accm, epm);
    }
  }

  /**
   The maxima of two blocks never exceed the maximum over the two blocks
   joined: every window of a block is a window of the joined data.
   */
  lemma MaxBlocksAtMostWhole(a: seq<real>, b: seq<real>, n: int)
    requires WindowMax(a, n).Some? && WindowMax(b, n).Some?
    ensures WindowMax(a + b, n).Some?
    ensures WindowMax(a, n).value <= WindowMax(a + b, n).value
    ensures WindowMax(b, n).value <= WindowMax(a + b, n).value
  {
    WindowMaxIsLargestMean(a, n);
    WindowMaxIsLargestMean(b, n);
    WindowMaxIsLargestMean(a + b, n);
    var ka: nat :| ka <= |a| - n && WindowMax(a, n).value == WindowMean(a, ka, n);
    var kb: nat :| kb <= |b| - n && WindowMax(b, n).value == WindowMean(b, kb, n);
    WindowOfPart(a, b, n, ka, kb);
    var whole := WindowMax(a + b, n).value;
    assert WindowMean(a + b, ka, n) <= whole;
    assert WindowMean(a + b, |a| + kb, n) <= whole;
  }

  /** A window inside either part is a window of the joined sequence. */
  lemma WindowOfPart(a: seq<real>, b: seq<real>, n: nat, ka: nat, kb: nat)
    requires 1 <= n && ka + n <= |a| && kb + n <= |b|
    ensures WindowMean(a, ka, n) == WindowMean(a + b, ka, n)
    ensures WindowMean(b, kb, n) == WindowMean(a + b, |a| + kb, n)
  {
    var ab := a + b;
    assert forall j :: ka <= j < ka + n ==> a[j] == ab[j + 0];
    SumRealShift(a, ka, ka + n, ab, 0);
    SuffixWindow(a, b, n, kb);
  }

  lemma SuffixWindow(a: seq<real>, b: seq<real>, n: nat, kb: nat)
    requires 1 <= n && kb + n <= |b|
    ensures WindowMean(b, kb, n) == WindowMean(a + b, |a| + kb, n)
  {
    var ab := a + b;
    assert forall j :: kb <= j < kb + n ==> b[j] == ab[j + |a|];
    SumRealShift(b, kb, kb + n, ab, |a|);
    assert SumReal(b, kb, kb + n) == SumReal(ab, |a| + kb, |a| + kb + n);
  }

  /**
   The two-block maximum can be strictly below the joined maximum: a
   window that straddles the gap between the blocks is never seen.
   */
  lemma MaxBlocksCanMissStraddlingWindow()
    ensures WindowMax([0.0, 1.0], 2) == Some(0.5)
    ensures WindowMax([1.0, 0.0], 2) == Some(0.5)
    ensures WindowMax([0.0, 1.0, 1.0, 0.0], 2) == Some(1.0)
  {
    var s := [0.0, 1.0, 1.0, 0.0];
    assert SumReal(s, 0, 2) == 1.0 && SumReal(s, 1, 3) == 2.0 && SumReal(s, 2, 4) == 1.0;
    assert SumReal([0.0, 1.0], 0, 2) == 1.0;
    assert SumReal([1.0, 0.0], 0, 2) == 1.0;
  }
}
