/** The manual table of `generate_manual_table` and `update_manual_table`:
    one row per year holding the amount the user typed, the percent change
    against the row before (the base amount for year 1), and the total and
    average of the amounts that can be read. */
module Manual {
  import opened Wrappers
  import opened Text
  import opened Currency
  import opened Projection
  import Decimal

  /** One year of the manual table: the `Year i` label, the text in the
      entry, and the change shown in the percent label (`None` when the label
      is blank). */
  datatype ManualRow = ManualRow(year: string, typed: string, change: Option<real>)

  /** The rows and the amounts shown in the Total and Average labels. */
  datatype ManualTable = ManualTable(rows: seq<ManualRow>, total: real, average: real)

  /** The text of a percent label. */
  function ChangeText(change: Option<real>): string {
    match change
    case Some(p) => FormatPercent(p)
    case None => ""
  }

  /** `(current / reference - 1) * 100` when there is an amount and a
      non-zero reference to compare it with; nothing otherwise. A change is
      what turns the reference into the amount. */
  function Change(cur: Option<real>, ref: Option<real>): (r: Option<real>)
    ensures r.Some? <==> cur.Some? && ref.Some? && ref.value != 0.0
    ensures r.Some? ==> cur.value == ref.value * (1.0 + r.value / 100.0)
  {
    if cur.Some? && ref.Some? && ref.value != 0.0 then
      var p := (cur.value / ref.value - 1.0) * 100.0;
      assert ref.value * (1.0 + p / 100.0) == ref.value * (cur.value / ref.value);
      Some(p)
    else None
  }

  /** The amounts typed in the rows, as `parse_currency` reads them. */
  function Amounts(readFloat: FloatReader, rows: seq<ManualRow>): (r: seq<Option<real>>)
    ensures |r| == |rows|
  {
    seq(|rows|, i requires 0 <= i < |rows| => ParseCurrency(readFloat, rows[i].typed))
  }

  /** The amounts that can be read, in order; the ones that cannot are
      skipped. */
  function Present(vals: seq<Option<real>>): (r: seq<real>)
    ensures |r| <= |vals|
  {
    if vals == [] then []
    else
      var last := vals[|vals| - 1];
      Present(vals[..|vals| - 1]) + (if last.Some? then [last.value] else [])
  }

  /** When every amount can be read, none is skipped. */
  lemma {:induction false} PresentAll(vals: seq<Option<real>>)
    requires forall i | 0 <= i < |vals| :: vals[i].Some?
    ensures |Present(vals)| == |vals|
    ensures forall i | 0 <= i < |vals| :: Present(vals)[i] == vals[i].value
  {
    if vals != [] {
      var init := vals[..|vals| - 1];
      PresentAll(init);
      assert Present(vals) == Present(init) + [vals[|vals| - 1].value];
    }
  }

  /** An amount that cannot be read is left out of the count. */
  lemma {:induction false} PresentSkips(vals: seq<Option<real>>, i: nat)
    requires i < |vals| && vals[i].None?
    ensures |Present(vals)| < |vals|
  {
    var init := vals[..|vals| - 1];
    if i < |vals| - 1 {
      assert init[i] == vals[i];
      PresentSkips(init, i);
    }
  }

  lemma SumSnoc(s: seq<real>, x: real)
    ensures Sum(s + [x]) == Sum(s) + x
  {
  }

  lemma PresentSnoc(vals: seq<Option<real>>, i: nat)
    requires i < |vals|
    ensures Present(vals[..i + 1]) == Present(vals[..i]) + (if vals[i].Some? then [vals[i].value] else [])
  {
    assert vals[..i + 1][..i] == vals[..i];
  }

  /** The second loop of `update_manual_table`: add up the amounts that can
      be read and count them; the others are skipped. */
  method Tally(vals: seq<Option<real>>) returns (total: real, count: nat)
    ensures total == Sum(Present(vals))
    ensures count == |Present(vals)|
  {
    total := 0.0;
    count := 0;
    var i := 0;
    while i < |vals|
      invariant 0 <= i <= |vals|
      invariant total == Sum(Present(vals[..i]))
      invariant count == |Present(vals[..i])|
    {
      ghost var done := Present(vals[..i]);
      PresentSnoc(vals, i);
      if vals[i].Some? {
        SumSnoc(done, vals[i].value);
        total := total + vals[i].value;
        count := count + 1;
      } else {
        assert done + [] == done;
      }
      i := i + 1;
    }
    assert vals[..|vals|] == vals;
  }

  /** The percent change of every row: against the base for the first, and
      against the amount of the row above for the others. */
  function Changes(base: Option<real>, vals: seq<Option<real>>): (r: seq<Option<real>>)
    ensures |r| == |vals|
  {
    seq(|vals|, i requires 0 <= i < |vals| => Change(vals[i], if i == 0 then base else vals[i - 1]))
  }

  /** A row's percent label shows a change exactly when its amount can be
      read and its reference (the base for year 1, the amount of the year
      before for the others) can be read and is not zero; the change then
      turns the reference into the amount. */
  lemma ChangesAt(base: Option<real>, vals: seq<Option<real>>, i: nat)
    requires i < |vals|
    ensures var c := Changes(base, vals)[i];
      var ref := if i == 0 then base else vals[i - 1];
      && (c.Some? <==> vals[i].Some? && ref.Some? && ref.value != 0.0)
      && (c.Some? ==> vals[i].value == ref.value * (1.0 + c.value / 100.0))
  {
  }

  /** The rows with new percent labels; the year labels and the typed text
      stay as they are. */
  function WithChanges(rows: seq<ManualRow>, changes: seq<Option<real>>): (r: seq<ManualRow>)
    requires |changes| == |rows|
    ensures |r| == |rows|
    ensures forall i | 0 <= i < |rows| :: r[i].year == rows[i].year && r[i].typed == rows[i].typed
    ensures forall i | 0 <= i < |rows| :: r[i].change == changes[i]
  {
    seq(|rows|, i requires 0 <= i < |rows| => rows[i].(change := changes[i]))
  }

  /** The table once its labels reflect the amounts `vals` read from the
      entries and the base amount `base`. */
  function Refresh(base: Option<real>, vals: seq<Option<real>>, t: ManualTable): ManualTable
    requires |vals| == |t.rows|
  {
    var total := Sum(Present(vals));
    ManualTable(WithChanges(t.rows, Changes(base, vals)), total, Average(total, |Present(vals)|))
  }

  /** `update_manual_table`: every percent label is recomputed and so are
      the Total and Average labels; the year labels and the typed text stay
      as they are. */
  function Update(readFloat: FloatReader, baseText: string, t: ManualTable): (r: ManualTable)
    ensures |r.rows| == |t.rows|
    ensures forall i | 0 <= i < |t.rows| :: r.rows[i].year == t.rows[i].year && r.rows[i].typed == t.rows[i].typed
  {
    Refresh(ParseCurrency(readFloat, baseText), Amounts(readFloat, t.rows), t)
  }

  /** Row `i`'s percent label after an update is the change of its typed
      amount against the base (row 0) or the row above, as `ChangesAt`
      describes it. */
  lemma UpdateAt(readFloat: FloatReader, baseText: string, t: ManualTable, i: nat)
    requires i < |t.rows|
    ensures Update(readFloat, baseText, t).rows[i].change
      == Changes(ParseCurrency(readFloat, baseText), Amounts(readFloat, t.rows))[i]
  {
    var base := ParseCurrency(readFloat, baseText);
    var vals := Amounts(readFloat, t.rows);
    assert Refresh(base, vals, t).rows == WithChanges(t.rows, Changes(base, vals));
  }

  /** After an update the Total label is the sum of the entries that can be
      read, and the Average label divides it by how many there are. */
  lemma UpdateTotals(readFloat: FloatReader, baseText: string, t: ManualTable)
    ensures var r := Update(readFloat, baseText, t);
      var present := Present(Amounts(readFloat, t.rows));
      && r.total == Sum(present)
      && r.average == Average(Sum(present), |present|)
  {
  }

  /** The Total label adds the amounts that can be read, the Average label
      divides it by how many there are (0 when there are none). */
  lemma RefreshTotals(base: Option<real>, vals: seq<Option<real>>, t: ManualTable)
    requires |vals| == |t.rows|
    ensures var r := Refresh(base, vals, t);
      var present := Present(vals);
      && r.total == Sum(present)
      && (present == [] ==> r.average == 0.0)
      && (present != [] ==> r.average * |present| as real == r.total)
  {
  }

  /** Everything `update_manual_table` shows is recomputed from the typed
      text and the base, so running it again (as each focus change does)
      changes nothing. */
  lemma UpdateIdempotent(readFloat: FloatReader, baseText: string, t: ManualTable)
    ensures var u := Update(readFloat, baseText, t);
      Update(readFloat, baseText, u) == u
  {
    var u := Update(readFloat, baseText, t);
    var vals := Amounts(readFloat, t.rows);
    var base := ParseCurrency(readFloat, baseText);
    var c := Changes(base, vals);
    assert Amounts(readFloat, u.rows) == vals;
    assert WithChanges(u.rows, c) == u.rows;
  }

  /** `update_manual_table` as the program runs it: read every entry, set
      each percent label in a loop over the rows, then total the amounts. */
  method UpdateManualTable(readFloat: FloatReader, baseText: string, t: ManualTable) returns (r: ManualTable)
    ensures r == Update(readFloat, baseText, t)
  {
    var base := ParseCurrency(readFloat, baseText);
    var vals := Amounts(readFloat, t.rows);
    var rows := RefreshRows(base, vals, t.rows);
    var total, count := Tally(vals);
    r := ManualTable(rows, total, Average(total, count));
  }

  /** The first loop of `update_manual_table`. */
  method RefreshRows(base: Option<real>, vals: seq<Option<real>>, rows0: seq<ManualRow>) returns (rows: seq<ManualRow>)
    requires |vals| == |rows0|
    ensures rows == WithChanges(rows0, Changes(base, vals))
  {
    rows := [];
    var i := 0;
    while i < |rows0|
      invariant 0 <= i <= |rows0|
      invariant rows == WithChanges(rows0, Changes(base, vals))[..i]
    {
      var change: Option<real>;
      if i == 0 {
        change := Change(vals[i], base);
      } else {
        change := Change(vals[i], vals[i - 1]);
      }
      rows := rows + [rows0[i].(change := change)];
      i := i + 1;
    }
  }

  /** The rows of a fresh table: `Year 1` to `Year n`, each entry holding the
      placeholder, each percent label blank. */
  function FreshRows(n: nat): (r: seq<ManualRow>)
    ensures |r| == n
    ensures forall i | 0 <= i < n :: r[i] == ManualRow("Year " + Digits(i + 1), Placeholder, None)
  {
    seq(n, i requires 0 <= i < n => ManualRow("Year " + Digits(i + 1), Placeholder, None))
  }

  /** `generate_manual_table`: the years field must read as a whole number
      of at least 1, otherwise there is no table; then one row per year,
      brought up to date at once. */
  function GenerateManual(readFloat: FloatReader, readInt: IntReader, baseText: string, yearsText: string): (r: Option<ManualTable>)
    ensures r.None? <==> readInt(yearsText).None? || readInt(yearsText).value < 1
    ensures r.Some? ==> |r.value.rows| == readInt(yearsText).value
    ensures r.Some? ==> forall i | 0 <= i < |r.value.rows| ::
      r.value.rows[i].year == "Year " + Digits(i + 1) && r.value.rows[i].typed == Placeholder
    ensures r.Some? ==> r.value == Update(readFloat, baseText, ManualTable(FreshRows(|r.value.rows|), 0.0, 0.0))
  {
    match readInt(yearsText)
    case None => None
    case Some(n) =>
      if n < 1 then None
      else Some(Update(readFloat, baseText, ManualTable(FreshRows(n), 0.0, 0.0)))
  }

  /** A fresh table, read with plain decimals: every amount is the
      placeholder, which reads as 0, so the total and the average are 0; year
      1 shows -100.00% against a non-zero base and is blank otherwise, and
      every later year is blank because the year before it is 0. */
  lemma FreshTable(readInt: IntReader, baseText: string, yearsText: string)
    requires readInt(yearsText).Some? && readInt(yearsText).value >= 1
    ensures var r := GenerateManual(Decimal.ReadDecimal, readInt, baseText, yearsText).value;
      var base := ParseCurrency(Decimal.ReadDecimal, baseText);
      && r.total == 0.0 && r.average == 0.0
      && (base.Some? && base.value != 0.0 ==> r.rows[0].change == Some(-100.0))
      && (!(base.Some? && base.value != 0.0) ==> r.rows[0].change.None?)
      && forall i | 1 <= i < |r.rows| :: r.rows[i].change.None?
  {
    var n := readInt(yearsText).value;
    var rows := FreshRows(n);
    FreshAmounts(n);
    FreshRefresh(ParseCurrency(Decimal.ReadDecimal, baseText), Amounts(Decimal.ReadDecimal, rows), ManualTable(rows, 0.0, 0.0));
  }

  /** Every entry of a fresh table reads as 0. */
  lemma FreshAmounts(n: nat)
    ensures forall i | 0 <= i < n :: Amounts(Decimal.ReadDecimal, FreshRows(n))[i] == Some(0.0)
  {
    PlaceholderIsZero();
  }

  /** Refreshing a table whose amounts are all 0. */
  lemma FreshRefresh(base: Option<real>, vals: seq<Option<real>>, t: ManualTable)
    requires |vals| == |t.rows| >= 1
    requires forall i | 0 <= i < |vals| :: vals[i] == Some(0.0)
    ensures var r := Refresh(base, vals, t);
      && r.total == 0.0 && r.average == 0.0
      && (base.Some? && base.value != 0.0 ==> r.rows[0].change == Some(-100.0))
      && (!(base.Some? && base.value != 0.0) ==> r.rows[0].change.None?)
      && forall i | 1 <= i < |r.rows| :: r.rows[i].change.None?
  {
    PresentAll(vals);
    ZeroSum(Present(vals));
    FreshChanges(base, vals);
  }

  /** With every amount 0, only year 1 can show a change: -100% against a
      nonzero base. */
  lemma FreshChanges(base: Option<real>, vals: seq<Option<real>>)
    requires |vals| >= 1
    requires forall i | 0 <= i < |vals| :: vals[i] == Some(0.0)
    ensures var c := Changes(base, vals);
      && (base.Some? && base.value != 0.0 ==> c[0] == Some(-100.0))
      && (!(base.Some? && base.value != 0.0) ==> c[0].None?)
      && forall i | 1 <= i < |c| :: c[i].None?
  {
  }

  lemma {:induction false} ZeroSum(s: seq<real>)
    requires forall i | 0 <= i < |s| :: s[i] == 0.0
    ensures Sum(s) == 0.0
  {
    if s != [] {
      ZeroSum(s[..|s| - 1]);
    }
  }

  /** Typing the automatic table's values into the manual table gives back
      its percent: each year's value against the year before it (the base,
      for year 1) changes by exactly the percent, provided the base and the
      growth factor are not zero. */
  lemma ChangeRecoversPercent(base: real, pct: real, y: nat)
    requires base != 0.0 && Growth(pct) != 0.0
    ensures var c := Change(Some(YearValue(base, pct, y + 1)), Some(YearValue(base, pct, y)));
      c.Some? && c.value == pct
  {
    var g := Growth(pct);
    var prev := YearValue(base, pct, y);
    PowNonZero(g, y);
    assert YearValue(base, pct, y + 1) == prev * g;
    assert prev * g / prev == g;
  }

  lemma {:induction false} PowNonZero(x: real, n: nat)
    requires x != 0.0
    ensures Pow(x, n) != 0.0
  {
    if n > 0 {
      PowNonZero(x, n - 1);
    }
  }
}
