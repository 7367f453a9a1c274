/**
 The per-day results table of the sleep process: one pass over the day
 windows that reserves a row of NaN cells for every day long enough to
 analyse, fills in the day number and date, and, when the day has enough
 wear time and a total sleep opportunity (TSO) window, the TSO columns and
 one column per sleep metric. Everything the loop calls out to (wear
 intersection, TSO detection, activity index and sleep/wake classification,
 date formatting, the sleep metrics) is a parameter.
 */
module SleepDays {
  import opened Windowed

  /** A cell of the sleep table: NaN, or the integer, float or string written there. */
  datatype Cell = NaN | Int(i: int) | Real(r: real) | Str(s: string)

  /** Column name to one cell per analysed day. */
  type Sheet = map<string, seq<Cell>>

  /** The result of `get_total_sleep_opportunity`: none, or start/end times and sample indices. */
  datatype Tso = NoTso | Tso(startTime: real, endTime: real, startIdx: int, stopIdx: int)

  /**
   What the loop depends on besides the day windows: the rate `goal_fs` of
   the (possibly downsampled) data, the two thresholds in hours, and the
   collaborators it calls. The day windows are `days_ds` and every sample
   index is one of the downsampled data; `fs` is 20 when downsampling
   applies and the input rate otherwise. `wornSamples` counts samples of
   `wear_ds`, which is the whole recording when no wear detection was given.
   */
  datatype Env = Env(
    fs: real,
    minDayHrs: real,
    minWearHrs: real,
    wornSamples: (int, int) -> int,        // sum(dw_stops - dw_starts) over wear_ds for the day [start, stop)
    tso: (int, int) -> Tso,                // get_total_sleep_opportunity on the day
    date: int -> string,                   // the day's date string
    stamp: real -> string,                 // strftime of the TSO start time
    predictions: (int, int) -> seq<int>,   // sleep/wake per minute of the day
    metricNames: seq<string>,
    metric: (nat, seq<int>) -> Cell)       // metric m on the predictions during the TSO

  /** `int(60 * fs)` must be a positive divisor. */
  predicate ValidEnv(env: Env) {
    60.0 * env.fs >= 1.0
  }

  const FixedColumns: seq<string> := ["Day N", "Date", "TSO Start Timestamp", "TSO Start", "TSO Duration"]

  function ColumnSet(env: Env): set<string> {
    {"Day N", "Date", "TSO Start Timestamp", "TSO Start", "TSO Duration"} + (set c | c in env.metricNames)
  }

  /** No metric is named like one of the fixed columns (a metric so named would overwrite it). */
  predicate NoClash(env: Env) {
    forall m :: 0 <= m < |env.metricNames| ==> env.metricNames[m] !in FixedColumns
  }

  // ---------------------------------------------------------------------
  // The table and its rows

  /** `{name: [] for name in columns}`. */
  function EmptySheet(cols: seq<string>): (sh: Sheet)
    ensures sh.Keys == set c | c in cols
    ensures forall c :: c in sh ==> sh[c] == []
  {
    if |cols| == 0 then map[]
    else EmptySheet(cols[..|cols| - 1])[cols[|cols| - 1] := []]
  }

  /** Every column holds n cells. */
  ghost predicate Rectangular(sh: Sheet, n: nat) {
    forall c :: c in sh ==> |sh[c]| == n
  }

  /** `for k in sleep: sleep[k].append(nan)`. */
  function AppendRow(sh: Sheet): (r: Sheet)
    ensures r.Keys == sh.Keys
    ensures forall c :: c in sh ==> r[c] == sh[c] + [NaN]
  {
    map c | c in sh :: sh[c] + [NaN]
  }

  /** `sleep[c][-1] = v`. */
  function SetLast(sh: Sheet, c: string, v: Cell): (r: Sheet)
    requires c in sh && |sh[c]| > 0
    ensures r.Keys == sh.Keys
    ensures |r[c]| == |sh[c]| && r[c][|r[c]| - 1] == v
    ensures forall j :: 0 <= j < |sh[c]| - 1 ==> r[c][j] == sh[c][j]
    ensures forall d :: d in sh && d != c ==> r[d] == sh[d]
  {
    sh[c := sh[c][|sh[c]| - 1 := v]]
  }

  /** One assignment `sleep[col][-1] = val` of the day. */
  datatype Write = Write(col: string, val: Cell)

  ghost predicate WritesIn(ws: seq<Write>, cols: set<string>) {
    forall k :: 0 <= k < |ws| ==> ws[k].col in cols
  }

  /** The assignments to the last row, in program order. */
  function ApplyWrites(sh: Sheet, ws: seq<Write>): (r: Sheet)
    requires WritesIn(ws, sh.Keys)
    requires forall c :: c in sh ==> |sh[c]| > 0
    ensures r.Keys == sh.Keys
    ensures forall c :: c in sh ==> |r[c]| == |sh[c]|
    decreases |ws|
  {
    if |ws| == 0 then sh
    else ApplyWrites(SetLast(sh, ws[0].col, ws[0].val), ws[1..])
  }

  /** The same assignments made to a single row. */
  function ApplyRow(row: map<string, Cell>, ws: seq<Write>): (r: map<string, Cell>)
    requires WritesIn(ws, row.Keys)
    ensures r.Keys == row.Keys
    decreases |ws|
  {
    if |ws| == 0 then row
    else ApplyRow(row[ws[0].col := ws[0].val], ws[1..])
  }

  /** Assigning to the last cells of every column is assigning to a row kept apart and appending it. */
  lemma {:induction false} ApplyWritesAppend(sh: Sheet, base: Sheet, row: map<string, Cell>, ws: seq<Write>)
    requires sh.Keys == base.Keys == row.Keys && WritesIn(ws, sh.Keys)
    requires forall c :: c in sh ==> sh[c] == base[c] + [row[c]]
    ensures forall c :: c in sh ==> ApplyWrites(sh, ws)[c] == base[c] + [ApplyRow(row, ws)[c]]
    decreases |ws|
  {
    if |ws| > 0 {
      var w := ws[0];
      var sh1 := SetLast(sh, w.col, w.val);
      var row1 := row[w.col := w.val];
      assert forall c :: c in sh1 ==> sh1[c] == base[c] + [row1[c]];
      ApplyWritesAppend(sh1, base, row1, ws[1..]);
    }
  }

  /** An assignment to a column no later assignment touches survives. */
  lemma {:induction false} ApplyRowLastWrite(row: map<string, Cell>, ws: seq<Write>, k: nat)
    requires WritesIn(ws, row.Keys) && k < |ws|
    requires forall j :: k < j < |ws| ==> ws[j].col != ws[k].col
    ensures ApplyRow(row, ws)[ws[k].col] == ws[k].val
    decreases |ws|
  {
    if k > 0 {
      ApplyRowLastWrite(row[ws[0].col := ws[0].val], ws[1..], k - 1);
    } else {
      ApplyRowUntouched(row[ws[0].col := ws[0].val], ws[1..], ws[0].col);
    }
  }

  /** A column no assignment touches keeps its cell. */
  lemma {:induction false} ApplyRowUntouched(row: map<string, Cell>, ws: seq<Write>, c: string)
    requires WritesIn(ws, row.Keys) && c in row
    requires forall j :: 0 <= j < |ws| ==> ws[j].col != c
    ensures ApplyRow(row, ws)[c] == row[c]
    decreases |ws|
  {
    if |ws| > 0 {
      ApplyRowUntouched(row[ws[0].col := ws[0].val], ws[1..], c);
    }
  }

  // ---------------------------------------------------------------------
  // One day

  /** `(stop - start) / (3600 * fs) < min_day_hrs` fails. */
  predicate LongEnough(env: Env, d: (int, int))
    requires ValidEnv(env)
  {
    !((d.1 - d.0) as real / (3600.0 * env.fs) < env.minDayHrs)
  }

  /** `sum(dw_stops - dw_starts) / (3600 * fs) < min_wear_time` fails. */
  predicate WornEnough(env: Env, d: (int, int))
    requires ValidEnv(env)
  {
    !(env.wornSamples(d.0, d.1) as real / (3600.0 * env.fs) < env.minWearHrs)
  }

  /** Python's clamping of a slice bound, negative bounds counting from the end. */
  function SliceBound(i: int, n: nat): (b: nat)
    ensures b <= n
  {
    if i < 0 then (if i + n < 0 then 0 else i + n) else if i > n then n else i
  }

  /** Python's `a[lo:hi]`. */
  function PySlice<T>(a: seq<T>, lo: int, hi: int): (r: seq<T>)
    ensures 0 <= lo <= hi <= |a| ==> r == a[lo..hi]
    ensures |r| <= |a|
  {
    var s := SliceBound(lo, |a|);
    var e := SliceBound(hi, |a|);
    if s < e then a[s..e] else []
  }

  /** `int(idx / int(60 * fs))`: a sample index as a minute index. */
  function MinuteIndex(env: Env, idx: int): int
    requires ValidEnv(env)
  {
    var per := TruncToInt(60.0 * env.fs);
    assert per >= 1;
    TruncToInt(idx as real / per as real)
  }

  /** For a sample index at or after the day start, the minute index is integer division. */
  lemma MinuteIndexDivides(env: Env, idx: int)
    requires ValidEnv(env) && idx >= 0
    ensures TruncToInt(60.0 * env.fs) >= 1
    ensures MinuteIndex(env, idx) == idx / TruncToInt(60.0 * env.fs)
  {
    TruncOfQuotient(idx, TruncToInt(60.0 * env.fs));
  }

  /** `predictions[tso_start:tso_stop]`. */
  function PredictionsDuringTso(env: Env, d: (int, int), t: Tso): seq<int>
    requires ValidEnv(env) && t.Tso?
  {
    PySlice(env.predictions(d.0, d.1), MinuteIndex(env, t.startIdx), MinuteIndex(env, t.stopIdx))
  }

  /** `(tso[3] - tso[2]) / (fs * 60)`: the TSO length in minutes. */
  function TsoMinutes(env: Env, t: Tso): real
    requires ValidEnv(env) && t.Tso?
  {
    (t.stopIdx - t.startIdx) as real / (env.fs * 60.0)
  }

  /**
   The assignments made to the day's row after the NaN row is appended:
   day number and date always; then nothing more on low wear or with no
   TSO, and otherwise the TSO columns and each metric in turn.
   */
  function DayWrites(env: Env, iday: nat, d: (int, int)): (ws: seq<Write>)
    requires ValidEnv(env)
    ensures WritesIn(ws, ColumnSet(env))
  {
    var head := [Write("Day N", Int(iday + 1)), Write("Date", Str(env.date(d.0)))];
    if !WornEnough(env, d) then head
    else
      var t := env.tso(d.0, d.1);
      match t
      case NoTso => head
      case Tso(t0, _, _, _) =>
        var preds := PredictionsDuringTso(env, d, t);
        var metrics := seq(|env.metricNames|, m requires 0 <= m < |env.metricNames| =>
                           Write(env.metricNames[m], env.metric(m, preds)));
        assert forall m :: 0 <= m < |metrics| ==> metrics[m].col in env.metricNames;
        head + [Write("TSO Start Timestamp", Real(t0)), Write("TSO Start", Str(env.stamp(t0))),
                Write("TSO Duration", Real(TsoMinutes(env, t)))] + metrics
  }

  /** A row of NaN cells for the given columns. */
  function NaNRow(cols: set<string>): (row: map<string, Cell>)
    ensures row.Keys == cols
  {
    map c | c in cols :: NaN
  }

  /** The finished row of a day that is long enough, independently of every other day. */
  function DayRow(env: Env, iday: nat, d: (int, int)): (row: map<string, Cell>)
    requires ValidEnv(env)
    ensures row.Keys == ColumnSet(env)
  {
    ApplyRow(NaNRow(ColumnSet(env)), DayWrites(env, iday, d))
  }

  /**
   One iteration of `for iday, day_idx in enumerate(days)`: a day shorter
   than `min_day_hrs` leaves the table as it is; any other day appends one
   NaN cell to every column and assigns to the new last row only.
   */
  function DayStep(sh: Sheet, iday: nat, d: (int, int), env: Env): (r: Sheet)
    requires ValidEnv(env) && sh.Keys == ColumnSet(env)
    ensures r.Keys == sh.Keys
    ensures !LongEnough(env, d) ==> r == sh
    ensures LongEnough(env, d) ==> forall c :: c in sh ==> r[c] == sh[c] + [DayRow(env, iday, d)[c]]
  {
    if !LongEnough(env, d) then sh
    else
      var ws := DayWrites(env, iday, d);
      var s1 := AppendRow(sh);
      ApplyWritesAppend(s1, sh, NaNRow(sh.Keys), ws);
      ApplyWrites(s1, ws)
  }

  // ---------------------------------------------------------------------
  // What a row holds

  lemma DayWritesFixedPrefix(env: Env, iday: nat, d: (int, int))
    requires ValidEnv(env) && NoClash(env)
    ensures var ws := DayWrites(env, iday, d);
      && |ws| >= 2 && ws[0] == Write("Day N", Int(iday + 1)) && ws[1] == Write("Date", Str(env.date(d.0)))
      && forall j :: 2 <= j < |ws| ==> ws[j].col != "Day N" && ws[j].col != "Date"
  {
    var ws := DayWrites(env, iday, d);
    forall j | 2 <= j < |ws|
      ensures ws[j].col != "Day N" && ws[j].col != "Date"
    {
      if j >= 5 {
        assert ws[j].col == env.metricNames[j - 5];
      }
    }
  }

  /** The row's day number is `iday + 1` and its date is the day's date. */
  lemma RowDayAndDate(env: Env, iday: nat, d: (int, int))
    requires ValidEnv(env) && NoClash(env)
    ensures DayRow(env, iday, d)["Day N"] == Int(iday + 1)
    ensures DayRow(env, iday, d)["Date"] == Str(env.date(d.0))
  {
    DayWritesFixedPrefix(env, iday, d);
    ApplyRowLastWrite(NaNRow(ColumnSet(env)), DayWrites(env, iday, d), 0);
    ApplyRowLastWrite(NaNRow(ColumnSet(env)), DayWrites(env, iday, d), 1);
  }

  /**
   A day that fails the wear check, or has no TSO, keeps its row with
   every column other than day number and date left NaN.
   */
  lemma RejectedDayRow(env: Env, iday: nat, d: (int, int))
    requires ValidEnv(env)
    requires !WornEnough(env, d) || env.tso(d.0, d.1).NoTso?
    ensures forall c :: c in ColumnSet(env) && c != "Day N" && c != "Date" ==> DayRow(env, iday, d)[c] == NaN
  {
    var ws := DayWrites(env, iday, d);
    assert |ws| == 2;
    forall c | c in ColumnSet(env) && c != "Day N" && c != "Date"
      ensures DayRow(env, iday, d)[c] == NaN
    {
      ApplyRowUntouched(NaNRow(ColumnSet(env)), ws, c);
    }
  }

  /**
   A day with enough wear and a TSO gets the TSO start (as a timestamp and
   as a formatted string), its length in
   minutes, and each metric (of a name no later metric reuses) computed on
   the predictions during the TSO.
   */
  lemma AcceptedDayRow(env: Env, iday: nat, d: (int, int))
    requires ValidEnv(env) && NoClash(env)
    requires WornEnough(env, d) && env.tso(d.0, d.1).Tso?
    ensures DayRow(env, iday, d)["TSO Start Timestamp"] == Real(env.tso(d.0, d.1).startTime)
    ensures DayRow(env, iday, d)["TSO Start"] == Str(env.stamp(env.tso(d.0, d.1).startTime))
    ensures DayRow(env, iday, d)["TSO Duration"] == Real(TsoMinutes(env, env.tso(d.0, d.1)))
    ensures forall m :: 0 <= m < |env.metricNames| && env.metricNames[m] !in env.metricNames[m + 1..] ==>
      DayRow(env, iday, d)[env.metricNames[m]] == env.metric(m, PredictionsDuringTso(env, d, env.tso(d.0, d.1)))
  {
    var ws := DayWrites(env, iday, d);
    AcceptedWrites(env, iday, d);
    ApplyRowLastWrite(NaNRow(ColumnSet(env)), ws, 2);
    ApplyRowLastWrite(NaNRow(ColumnSet(env)), ws, 3);
    ApplyRowLastWrite(NaNRow(ColumnSet(env)), ws, 4);
    forall m | 0 <= m < |env.metricNames| && env.metricNames[m] !in env.metricNames[m + 1..]
      ensures DayRow(env, iday, d)[env.metricNames[m]] == env.metric(m, PredictionsDuringTso(env, d, env.tso(d.0, d.1)))
    {
      MetricCell(env, iday, d, m);
    }
  }

  /** The assignments of an accepted day, position by position. */
  lemma AcceptedWrites(env: Env, iday: nat, d: (int, int))
    requires ValidEnv(env) && NoClash(env)
    requires WornEnough(env, d) && env.tso(d.0, d.1).Tso?
    ensures var t := env.tso(d.0, d.1);
      var ws := DayWrites(env, iday, d);
      && |ws| == 5 + |env.metricNames|
      && ws[2] == Write("TSO Start Timestamp", Real(t.startTime))
      && ws[3] == Write("TSO Start", Str(env.stamp(t.startTime)))
      && ws[4] == Write("TSO Duration", Real(TsoMinutes(env, t)))
      && (forall j :: 3 <= j < |ws| ==> ws[j].col != "TSO Start Timestamp")
      && (forall j :: 4 <= j < |ws| ==> ws[j].col != "TSO Start")
      && (forall j :: 5 <= j < |ws| ==> ws[j] == Write(env.metricNames[j - 5], env.metric(j - 5, PredictionsDuringTso(env, d, t))))
  {
  }

  lemma MetricCell(env: Env, iday: nat, d: (int, int), m: nat)
    requires ValidEnv(env) && NoClash(env)
    requires WornEnough(env, d) && env.tso(d.0, d.1).Tso?
    requires m < |env.metricNames| && env.metricNames[m] !in env.metricNames[m + 1..]
    ensures DayRow(env, iday, d)[env.metricNames[m]] == env.metric(m, PredictionsDuringTso(env, d, env.tso(d.0, d.1)))
  {
    var ws := DayWrites(env, iday, d);
    AcceptedWrites(env, iday, d);
    forall j | 5 + m < j < |ws|
      ensures ws[j].col != ws[5 + m].col
    {
      assert ws[j].col == env.metricNames[m + 1..][j - 6 - m];
    }
    ApplyRowLastWrite(NaNRow(ColumnSet(env)), ws, 5 + m);
  }


  // ---------------------------------------------------------------------
  // All days

  /** The indices, in order, of the days among the first n that are long enough. */
  function Accepted(days: seq<(int, int)>, env: Env, n: nat): (acc: seq<nat>)
    requires ValidEnv(env) && n <= |days|
    ensures forall j :: 0 <= j < |acc| ==> acc[j] < n && LongEnough(env, days[acc[j]])
    ensures forall k :: 0 <= k < n && LongEnough(env, days[k]) ==> k in acc
    ensures StrictlyIncreasing(acc)
  {
    if n == 0 then []
    else
      var prev := Accepted(days, env, n - 1);
      if LongEnough(env, days[n - 1]) then
        AppendIncreasing(prev, n - 1);
        prev + [n - 1]
      else prev
  }

  lemma AppendIncreasing(p: seq<nat>, v: nat)
    requires StrictlyIncreasing(p) && forall j :: 0 <= j < |p| ==> p[j] < v
    ensures StrictlyIncreasing(p + [v])
  {
    var q := p + [v];
    forall i | 0 < i < |q|
      ensures StepsUp(q, i)
    {
      if i < |p| {
        assert StepsUp(p, i);
      }
    }
  }

  /** Row j of the table is the row of the j-th accepted day. */
  ghost predicate RowsAre(sh: Sheet, days: seq<(int, int)>, env: Env, acc: seq<nat>)
    requires ValidEnv(env)
    requires forall j :: 0 <= j < |acc| ==> acc[j] < |days|
  {
    forall c, j :: c in sh && c in ColumnSet(env) && 0 <= j < |acc| && j < |sh[c]| ==> sh[c][j] == DayRow(env, acc[j], days[acc[j]])[c]
  }

  /**
   The loop over the days. The table always has the same columns, all of
   the same length, one row per accepted day; each row is the finished
   row of its own day.
   */
  method Tabulate(days: seq<(int, int)>, env: Env) returns (sh: Sheet)
    requires ValidEnv(env)
    ensures sh.Keys == ColumnSet(env)
    ensures Rectangular(sh, |Accepted(days, env, |days|)|)
    ensures RowsAre(sh, days, env, Accepted(days, env, |days|))
    ensures NoClash(env) ==> "Day N" in sh && NumbersIncrease(sh["Day N"])
  {
    sh := EmptySheet(FixedColumns + env.metricNames);
    assert (set c | c in FixedColumns + env.metricNames) == ColumnSet(env);
    var iday := 0;
    while iday < |days|
      invariant 0 <= iday <= |days|
      invariant sh.Keys == ColumnSet(env)
      invariant Rectangular(sh, |Accepted(days, env, iday)|)
      invariant RowsAre(sh, days, env, Accepted(days, env, iday))
      decreases |days| - iday
    {
      StepKeepsRows(sh, days, env, iday);
      sh := DayStep(sh, iday, days[iday], env);
      iday := iday + 1;
    }
    if NoClash(env) {
      DayNumbersIncrease(sh, days, env);
    }
  }

  lemma StepKeepsRows(sh: Sheet, days: seq<(int, int)>, env: Env, iday: nat)
    requires ValidEnv(env) && iday < |days| && sh.Keys == ColumnSet(env)
    requires Rectangular(sh, |Accepted(days, env, iday)|)
    requires RowsAre(sh, days, env, Accepted(days, env, iday))
    ensures Rectangular(DayStep(sh, iday, days[iday], env), |Accepted(days, env, iday + 1)|)
    ensures RowsAre(DayStep(sh, iday, days[iday], env), days, env, Accepted(days, env, iday + 1))
  {
    var acc := Accepted(days, env, iday);
    if LongEnough(env, days[iday]) {
      assert Accepted(days, env, iday + 1) == acc + [iday];
      RowAppended(sh, days, env, acc, iday, DayStep(sh, iday, days[iday], env));
    }
  }

  /** Appending the row of a later day keeps the earlier rows and adds its own. */
  lemma RowAppended(sh: Sheet, days: seq<(int, int)>, env: Env, acc: seq<nat>, iday: nat, r: Sheet)
    requires ValidEnv(env) && iday < |days| && sh.Keys == ColumnSet(env) == r.Keys
    requires forall j :: 0 <= j < |acc| ==> acc[j] < |days|
    requires Rectangular(sh, |acc|) && RowsAre(sh, days, env, acc)
    requires forall c :: c in sh ==> r[c] == sh[c] + [DayRow(env, iday, days[iday])[c]]
    ensures Rectangular(r, |acc| + 1) && RowsAre(r, days, env, acc + [iday])
  {
    var acc1 := acc + [iday];
    forall c, j | c in r && c in ColumnSet(env) && 0 <= j < |acc1| && j < |r[c]|
      ensures r[c][j] == DayRow(env, acc1[j], days[acc1[j]])[c]
    {
      if j < |acc| {
        assert r[c][j] == sh[c][j];
      }
    }
  }


  lemma DayNumberAt(sh: Sheet, days: seq<(int, int)>, env: Env, acc: seq<nat>, j: nat)
    requires ValidEnv(env) && NoClash(env)
    requires forall k :: 0 <= k < |acc| ==> acc[k] < |days|
    requires sh.Keys == ColumnSet(env) && Rectangular(sh, |acc|) && RowsAre(sh, days, env, acc)
    requires j < |acc|
    ensures sh["Day N"][j] == Int(acc[j] + 1)
  {
    assert "Day N" in ColumnSet(env);
    assert sh["Day N"][j] == DayRow(env, acc[j], days[acc[j]])["Day N"];
    RowDayAndDate(env, acc[j], days[acc[j]]);
  }

  /**
   With no metric named like a fixed column, the "Day N" column lists the
   accepted days numbered from 1, strictly increasing down the rows.
   */
  lemma DayNumbersIncrease(sh: Sheet, days: seq<(int, int)>, env: Env)
    requires ValidEnv(env) && NoClash(env)
    requires sh.Keys == ColumnSet(env)
    requires Rectangular(sh, |Accepted(days, env, |days|)|)
    requires RowsAre(sh, days, env, Accepted(days, env, |days|))
    ensures "Day N" in sh
    ensures var acc := Accepted(days, env, |days|);
      |sh["Day N"]| == |acc| && forall j :: 0 <= j < |acc| ==> sh["Day N"][j] == Int(acc[j] + 1)
    ensures NumbersIncrease(sh["Day N"])
  {
    var acc := Accepted(days, env, |days|);
    assert "Day N" in ColumnSet(env);
    var col := sh["Day N"];
    forall j | 0 <= j < |acc|
      ensures col[j] == Int(acc[j] + 1)
    {
      DayNumberAt(sh, days, env, acc, j);
    }
    IncreasingNumbers(col, acc);
  }

  lemma IncreasingNumbers(col: seq<Cell>, acc: seq<nat>)
    requires |col| == |acc| && StrictlyIncreasing(acc)
    requires forall j :: 0 <= j < |acc| ==> col[j] == Int(acc[j] + 1)
    ensures NumbersIncrease(col)
  {
    forall j | 0 < j < |col|
      ensures IncreasesAt(col, j)
    {
      assert StepsUp(acc, j);
    }
  }


  /** Consecutive cells hold increasing integers. */
  ghost predicate IncreasesAt(col: seq<Cell>, j: int)
    requires 0 < j < |col|
  {
    col[j - 1].Int? && col[j].Int? && col[j - 1].i < col[j].i
  }

  ghost predicate NumbersIncrease(col: seq<Cell>) {
    forall j :: 0 < j < |col| ==> IncreasesAt(col, j)
  }


}
