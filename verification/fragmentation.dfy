/**
 `FragmentationEndpoints`: the lengths of the runs of one-minute epochs at
 an intensity level, collected over every block of a day's state, and five
 summary statistics of those lengths written at the end of the state. The
 statistics themselves (average duration, transition probability, Gini
 index, average hazard, power-law exponent) are a parameter of the model.
 */
module Fragmentation {
  import opened Windowed
  import opened Bouts
  import opened Tables
  import opened Endpoints

  /** The five columns, qualified by state. */
  function Names(s: State, level: string): (names: seq<string>)
    ensures |names| == 5
  {
    QualifyAll(s, [level + " avg duration", level + " transition probability", level + " gini index",
                   level + " avg hazard", level + " power law distribution"])
  }

  lemma NamesDistinct(s: State, level: string)
    ensures Distinct(Names(s, level))
  {
    var ends := [" avg duration", " transition probability", " gini index", " avg hazard", " power law distribution"];
    var bases := seq(5, k requires 0 <= k < 5 => level + ends[k]);
    forall k, m | 0 <= k < m < 5
      ensures bases[k] != bases[m]
    {
      if bases[k] == bases[m] {
        Cancel(level, ends[k], ends[m]);
      }
    }
    assert bases == [level + " avg duration", level + " transition probability", level + " gini index",
                     level + " avg hazard", level + " power law distribution"];
    QualifyAllDistinct(s, bases);
  }

  /** `self.lens` and the day whose cells the pointers refer to. */
  datatype Cache = Cache(lens: seq<nat>, day: Option<nat>)

  function Fresh(): Cache {
    Cache([], None)
  }

  /** Every collected run is at least one minute long. */
  ghost predicate RunsNonEmpty(lens: seq<nat>) {
    forall k :: 0 <= k < |lens| ==> lens[k] >= 1
  }

  lemma {:induction false} OnesLengthsNonEmpty(v: seq<int>, runs: seq<Run<int>>, k: nat)
    requires RunsTile(v, runs, k)
    ensures RunsNonEmpty(OnesLengths(runs))
    decreases |runs|
  {
    if |runs| > 0 {
      OnesLengthsNonEmpty(v, runs[1..], k + runs[0].len);
    }
  }

  /**
   `predict`: append the lengths of the block's runs at the level, in
   order, and remember the day. The new lengths add up to the block's
   minutes at the level.
   */
  function Predict(c: Cache, i: nat, accm60: seq<real>, lower: real, upper: real): (d: Cache)
    ensures d.day == Some(i)
    ensures |d.lens| >= |c.lens| && d.lens[..|c.lens|] == c.lens
    ensures SumNat(d.lens) == SumNat(c.lens) + LevelCount(accm60, lower, upper)
    ensures RunsNonEmpty(c.lens) ==> RunsNonEmpty(d.lens)
  {
    var mask := QualMask(accm60, lower, upper);
    var added := OnesLengths(Rle(mask));
    RleOnesCount(mask);
    SumNatAppend(c.lens, added);
    OnesLengthsNonEmpty(mask, Rle(mask), 0);
    assert (c.lens + added)[..|c.lens|] == c.lens;
    Cache(c.lens + added, Some(i))
  }

  /**
   Over two blocks the collected lengths add up to the minutes at the
   level in the two blocks joined; a run that reaches the end of one block
   and continues in the next is collected as two runs.
   */
  lemma PredictBlocks(c: Cache, i: nat, a: seq<real>, b: seq<real>, lower: real, upper: real)
    ensures SumNat(Predict(Predict(c, i, a, lower, upper), i, b, lower, upper).lens)
         == SumNat(c.lens) + LevelCount(a + b, lower, upper)
  {
    LevelCountAppend(a, b, lower, upper);
  }

  /** A block all at the level that follows another block all at the level is still a separate run. */
  lemma SplitRunCountedTwice(c: Cache, i: nat, lower: real)
    ensures Predict(Predict(c, i, [lower], lower, lower + 1.0), i, [lower], lower, lower + 1.0).lens == c.lens + [1, 1]
    ensures Predict(c, i, [lower, lower], lower, lower + 1.0).lens == c.lens + [2]
  {
    var one := QualMask([lower], lower, lower + 1.0);
    assert one == [1];
    assert Rle(one) == [Run(1, 0, 1)] by {
      assert RunEnd(one, 0, 1) == 1;
      assert RleFrom(one, 1) == [];
    }
    var two := QualMask([lower, lower], lower, lower + 1.0);
    assert two == [1, 1];
    assert Rle(two) == [Run(2, 0, 1)] by {
      assert RunEnd(two, 0, 1) == 2;
      assert RleFrom(two, 2) == [];
    }
    assert OnesLengths([Run(2, 0, 1)]) == [2];
    assert OnesLengths([Run(1, 0, 1)]) == [1];
  }

  /** The five fragmentation statistics of a list of run lengths. */
  datatype Stats = Stats(avgDuration: Value, transition: Value, gini: Value, hazard: Value, powerLaw: Value)

  function StatValues(st: Stats): seq<Value> {
    [st.avgDuration, st.transition, st.gini, st.hazard, st.powerLaw]
  }

  /**
   `reset_cached`: when a predict call has set the pointers, write the five
   statistics of the collected lengths into the remembered day; in every
   case forget the lengths and the pointers.
   */
  function Reset(c: Cache, t: Table, s: State, level: string, stats: seq<nat> -> Stats): (r: (Cache, Table))
    requires c.day.Some? ==> Slots(t, Names(s, level), c.day.value)
    ensures r.0 == Fresh()
    ensures c.day.None? ==> r.1 == t
    ensures c.day.Some? ==>
      && SameShape(t, r.1) && OnlyCells(t, r.1, NamesFrom(Names(s, level), 0), c.day.value)
      && (forall m :: 0 <= m < 5 ==> r.1[Names(s, level)[m]][c.day.value] == StatValues(stats(c.lens))[m])
  {
    NamesDistinct(s, level);
    match c.day
    case None => (Fresh(), t)
    case Some(i) =>
      var u := PutAll(t, Names(s, level), i, StatValues(stats(c.lens)));
      assert forall m :: 0 <= m < 5 ==> u[Names(s, level)[m]][i] == Cells(u, Names(s, level), i)[m];
      (Fresh(), u)
  }

  /** A second reset right after the first changes nothing. */
  lemma ResetTwice(c: Cache, t: Table, s: State, level: string, stats: seq<nat> -> Stats)
    requires c.day.Some? ==> Slots(t, Names(s, level), c.day.value)
    ensures Reset(Reset(c, t, s, level, stats).0, Reset(c, t, s, level, stats).1, s, level, stats)
         == Reset(c, t, s, level, stats)
  {
  }

  /**
   A whole state run through the cache: the lengths the statistics see are
   those of every block, in block order.
   */
  lemma StatsSeeEveryBlock(t: Table, s: State, level: string, i: nat, a: seq<real>, b: seq<real>,
                           lower: real, upper: real, stats: seq<nat> -> Stats)
    requires Slots(t, Names(s, level), i)
    ensures var c := Predict(Predict(Fresh(), i, a, lower, upper), i, b, lower, upper);
      && c.lens == OnesLengths(Rle(QualMask(a, lower, upper))) + OnesLengths(Rle(QualMask(b, lower, upper)))
      && forall m :: 0 <= m < 5 ==>
           Reset(c, t, s, level, stats).1[Names(s, level)[m]][i] == StatValues(stats(c.lens))[m]
  {
  }
}
