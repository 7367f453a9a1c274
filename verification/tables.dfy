/**
 The per-day results table the activity endpoints write into, and the
 names of its columns. A column is a sequence of floating-point cells, one
 per day; a cell is either NaN or a number. Column names are the endpoint
 names qualified by the state ("wake" or "sleep") they are computed in.
 */
module Tables {
  // ---------------------------------------------------------------------
  // Cells

  /** A float cell of the results table: NaN or a finite number. */
  datatype Value = NaN | Num(r: real)

  /** IEEE addition restricted to NaN and numbers: NaN absorbs. */
  function Add(a: Value, b: Value): (c: Value)
    ensures c.Num? <==> a.Num? && b.Num?
    ensures c.Num? ==> c.r == a.r + b.r
  {
    if a.Num? && b.Num? then Num(a.r + b.r) else NaN
  }

  /** numpy `nanmax([a, b])`: the larger of the numbers, ignoring NaN; NaN only when both are NaN. */
  function NanMax(a: Value, b: Value): (c: Value)
    ensures c == NaN <==> a == NaN && b == NaN
    ensures c.Num? ==> (c == a || c == b)
    ensures a.Num? ==> c.Num? && a.r <= c.r
    ensures b.Num? ==> c.Num? && b.r <= c.r
  {
    match (a, b)
    case (NaN, _) => b
    case (_, NaN) => a
    case (Num(x), Num(y)) => if x >= y then a else b
  }

  /** `now` is no smaller than `before`, with NaN below every number. */
  predicate NoSmaller(now: Value, before: Value) {
    before == NaN || (now.Num? && before.r <= now.r)
  }

  /** Going from t to u, no day-i cell gets smaller. */
  ghost predicate Grows(t: Table, u: Table, i: nat) {
    forall n :: n in t && i < |t[n]| ==> n in u && i < |u[n]| && NoSmaller(u[n][i], t[n][i])
  }

  lemma GrowsTrans(t: Table, u: Table, w: Table, i: nat)
    requires Grows(t, u, i) && Grows(u, w, i)
    ensures Grows(t, w, i)
  {
  }

  /** Adding two numbers in turn is adding their sum. */
  lemma AddTwice(v: Value, x: real, y: real)
    ensures Add(Add(v, Num(x)), Num(y)) == Add(v, Num(x + y))
  {
  }

  // ---------------------------------------------------------------------
  // The table

  /** `results`: column name to one cell per day. */
  type Table = map<string, seq<Value>>

  /** `results[name][i]` exists. */
  predicate HasSlot(t: Table, name: string, i: nat) {
    name in t && i < |t[name]|
  }

  /** Two tables have the same columns, each of the same length. */
  predicate SameShape(t: Table, u: Table) {
    t.Keys == u.Keys && forall n :: n in t ==> |u[n]| == |t[n]|
  }

  /** `results[name][i] = v`. */
  function Put(t: Table, name: string, i: nat, v: Value): (u: Table)
    requires HasSlot(t, name, i)
    ensures SameShape(t, u)
    ensures u[name][i] == v
    ensures forall n :: n in t && n != name ==> u[n] == t[n]
    ensures forall j :: 0 <= j < |t[name]| && j != i ==> u[name][j] == t[name][j]
  {
    t[name := t[name][i := v]]
  }

  /** Going from t to u, only the day-i cells of the columns in `names` may change. */
  ghost predicate OnlyCells(t: Table, u: Table, names: set<string>, i: nat) {
    forall n, j :: n in t && 0 <= j < |t[n]| && (n !in names || j != i) && n in u && j < |u[n]| ==> u[n][j] == t[n][j]
  }

  /** A second write to the same cell overwrites the first. */
  lemma PutPut(t: Table, name: string, i: nat, v: Value, w: Value)
    requires HasSlot(t, name, i)
    ensures Put(Put(t, name, i, v), name, i, w) == Put(t, name, i, w)
  {
    assert t[name][i := v][i := w] == t[name][i := w];
  }

  /** Keeping the larger of a number and the cell makes the table grow. */
  lemma PutNanMaxGrows(t: Table, name: string, i: nat, m: real)
    requires HasSlot(t, name, i)
    ensures Grows(t, Put(t, name, i, NanMax(Num(m), t[name][i])), i)
  {
  }

  lemma PutOnlyCell(t: Table, name: string, i: nat, v: Value)
    requires HasSlot(t, name, i)
    ensures OnlyCells(t, Put(t, name, i, v), {name}, i)
  {
  }

  lemma OnlyCellsTrans(t: Table, u: Table, w: Table, a: set<string>, b: set<string>, i: nat)
    requires SameShape(t, u) && SameShape(u, w)
    requires OnlyCells(t, u, a, i) && OnlyCells(u, w, b, i)
    ensures SameShape(t, w) && OnlyCells(t, w, a + b, i)
  {
  }

  /** Every column of `names` has a day-i cell. */
  ghost predicate Slots(t: Table, names: seq<string>, i: nat) {
    forall m :: 0 <= m < |names| ==> HasSlot(t, names[m], i)
  }

  ghost function NamesFrom(names: seq<string>, k: nat): set<string> {
    set m | k <= m < |names| :: names[m]
  }

  /** A write to one column of `names` keeps every day-i cell of `names` in place and touches no other cell. */
  lemma PutSlots(t: Table, names: seq<string>, k: nat, i: nat, v: Value)
    requires k < |names| && Slots(t, names, i)
    ensures SameShape(t, Put(t, names[k], i, v)) && Slots(Put(t, names[k], i, v), names, i)
    ensures OnlyCells(t, Put(t, names[k], i, v), {names[k]}, i)
  {
    PutOnlyCell(t, names[k], i, v);
  }

  lemma NamesFromStep(names: seq<string>, k: nat)
    requires k < |names|
    ensures {names[k]} + NamesFrom(names, k + 1) == NamesFrom(names, k)
  {
  }

  /** The day-i cells of `names`, in order. */
  function Cells(t: Table, names: seq<string>, i: nat): (v: seq<Value>)
    requires Slots(t, names, i)
    ensures |v| == |names|
  {
    seq(|names|, m requires 0 <= m < |names| => t[names[m]][i])
  }

  /** Writes `vals` into the day-i cells of `names`, one by one. */
  function PutAll(t: Table, names: seq<string>, i: nat, vals: seq<Value>): (u: Table)
    requires |names| == |vals| && Slots(t, names, i)
    ensures SameShape(t, u) && Slots(u, names, i)
    ensures OnlyCells(t, u, NamesFrom(names, 0), i)
    ensures Distinct(names) ==> Cells(u, names, i) == vals
    decreases |names|
  {
    if |names| == 0 then t
    else
      var t1 := Put(t, names[0], i, vals[0]);
      PutOnlyCell(t, names[0], i, vals[0]);
      var u := PutAll(t1, names[1..], i, vals[1..]);
      OnlyCellsTrans(t, t1, u, {names[0]}, NamesFrom(names[1..], 0), i);
      assert {names[0]} + NamesFrom(names[1..], 0) == NamesFrom(names, 0);
      assert Distinct(names) ==> names[0] !in NamesFrom(names[1..], 0);
      u
  }

  // ---------------------------------------------------------------------
  // Decimal rendering of integers (Python's `f"{n}"` for n >= 0)

  function DigitChar(d: nat): (c: char)
    requires d < 10
    ensures '0' <= c <= '9'
  {
    ['0', '1', '2', '3', '4', '5', '6', '7', '8', '9'][d]
  }

  predicate IsDigits(s: string) {
    forall k :: 0 <= k < |s| ==> '0' <= s[k] <= '9'
  }

  function NatToString(n: nat): (s: string)
    ensures |s| >= 1 && IsDigits(s)
  {
    if n < 10 then [DigitChar(n)] else NatToString(n / 10) + [DigitChar(n % 10)]
  }

  /** The value of a string of decimal digits. */
  function ParseNat(s: string): nat
    requires IsDigits(s)
  {
    if |s| == 0 then 0
    else ParseNat(s[..|s| - 1]) * 10 + (s[|s| - 1] as int - '0' as int)
  }

  lemma DigitValue(d: nat)
    requires d < 10
    ensures DigitChar(d) as int - '0' as int == d
  {
  }

  /** Reading back a rendered number gives the number. */
  lemma {:induction false} ParseRendered(n: nat)
    ensures ParseNat(NatToString(n)) == n
  {
    var s := NatToString(n);
    DigitValue(n % 10);
    if n < 10 {
      assert s[..0] == [];
    } else {
      assert s[..|s| - 1] == NatToString(n / 10);
      ParseRendered(n / 10);
    }
  }

  /** Different numbers render differently. */
  lemma RenderInjective(a: nat, b: nat)
    ensures NatToString(a) == NatToString(b) ==> a == b
  {
    ParseRendered(a);
    ParseRendered(b);
  }

  /** A text embedded between a fixed prefix and suffix determines the embedded part. */
  lemma Unwrap(pre: string, a: string, b: string, post: string)
    requires pre + a + post == pre + b + post
    ensures a == b
  {
    var s := pre + a + post;
    assert |a| == |b|;
    assert a == s[|pre|..|pre| + |a|];
    assert b == (pre + b + post)[|pre|..|pre| + |b|];
  }

  /** A common prefix cancels. */
  lemma Cancel(pre: string, a: string, b: string)
    requires pre + a == pre + b
    ensures a == b
  {
    assert a == (pre + a)[|pre|..];
    assert b == (pre + b)[|pre|..];
  }

  // ---------------------------------------------------------------------
  // Qualified names (`ActivityEndpoint.__init__`)

  datatype State = Wake | Sleep

  function StateLabel(s: State): string {
    match s
    case Wake => "wake"
    case Sleep => "sleep"
  }

  /** `f"{state} {name}"`. */
  function Qualify(s: State, base: string): (q: string)
    ensures |q| == |StateLabel(s)| + 1 + |base|
  {
    StateLabel(s) + " " + base
  }

  /** A list of names is qualified element-wise. */
  function QualifyAll(s: State, bases: seq<string>): (qs: seq<string>)
    ensures |qs| == |bases|
    ensures forall k :: 0 <= k < |bases| ==> qs[k] == Qualify(s, bases[k])
  {
    seq(|bases|, k requires 0 <= k < |bases| => Qualify(s, bases[k]))
  }

  /** The qualified name determines both the state and the base name. */
  lemma QualifyInjective(s1: State, a: string, s2: State, b: string)
    requires Qualify(s1, a) == Qualify(s2, b)
    ensures s1 == s2 && a == b
  {
    var q := Qualify(s1, a);
    assert q[0] == StateLabel(s1)[0] && Qualify(s2, b)[0] == StateLabel(s2)[0];
    var k := |StateLabel(s1)| + 1;
    assert a == q[k..];
    assert b == Qualify(s2, b)[k..];
  }

  /** No two entries of a list of names coincide. */
  predicate Distinct(names: seq<string>) {
    forall k, m :: 0 <= k < m < |names| ==> names[k] != names[m]
  }

  /** Qualifying distinct base names keeps them distinct. */
  lemma QualifyAllDistinct(s: State, bases: seq<string>)
    requires Distinct(bases)
    ensures Distinct(QualifyAll(s, bases))
  {
    var qs := QualifyAll(s, bases);
    forall k, m | 0 <= k < m < |qs|
      ensures qs[k] != qs[m]
    {
      if qs[k] == qs[m] {
        QualifyInjective(s, bases[k], s, bases[m]);
      }
    }
  }

  /** Numbered names `pre + f"{n}" + post` are distinct when the numbers are. */
  function Numbered(pre: string, ns: seq<nat>, post: string): (names: seq<string>)
    ensures |names| == |ns|
    ensures forall k :: 0 <= k < |ns| ==> names[k] == pre + NatToString(ns[k]) + post
  {
    seq(|ns|, k requires 0 <= k < |ns| => pre + NatToString(ns[k]) + post)
  }

  predicate DistinctNats(ns: seq<nat>) {
    forall k, m :: 0 <= k < m < |ns| ==> ns[k] != ns[m]
  }

  lemma NumberedDistinct(pre: string, ns: seq<nat>, post: string)
    requires DistinctNats(ns)
    ensures Distinct(Numbered(pre, ns, post))
  {
    var names := Numbered(pre, ns, post);
    forall k, m | 0 <= k < m < |ns|
      ensures names[k] != names[m]
    {
      if names[k] == names[m] {
        Unwrap(pre, NatToString(ns[k]), NatToString(ns[m]), post);
        RenderInjective(ns[k], ns[m]);
      }
    }
  }
}
