/** The automatic table of `generate_auto_table`: validation of the five
    input fields, the sweep of percents from start to end, the compound
    yearly values of each percent with their total and average, and the grid
    of label texts the frame ends up holding. */
module Projection {
  import opened Wrappers
  import opened Text
  import opened Currency
  import Decimal

  /** Python's `int()` on a string: a number, or `None` where it raises
      `ValueError`. The model takes it as a parameter. */
  type IntReader = string -> Option<int>

  /** The raw texts of the base, start, end, step and years fields. */
  datatype AutoInputs = AutoInputs(base: string, start: string, end: string, step: string, years: string)

  /** The error dialogs `generate_auto_table` can raise, in the order it
      checks for them. */
  datatype AutoError =
    | InvalidBase      // "Invalid base subscription amount."
    | InvalidPercent   // "Invalid percentage fields."
    | InvalidYears     // "Invalid number of years."
    | StartAfterEnd    // "Start percent must be ≤ end percent."
    | NonPositiveStep  // "Step percent must be > 0."

  /** The values the table is computed from once every field is accepted. */
  datatype Settings = Settings(base: real, start: real, end: real, step: real, years: nat)

  /** Where each error comes in the order of the checks. */
  function Rank(e: AutoError): nat {
    match e
    case InvalidBase => 0
    case InvalidPercent => 1
    case InvalidYears => 2
    case StartAfterEnd => 3
    case NonPositiveStep => 4
  }

  /** Whether the inputs break the rule that raises `e`, each rule judged on
      its own: the percent-order and step rules only where the percents
      involved can be read. */
  predicate Breaks(readFloat: FloatReader, readInt: IntReader, i: AutoInputs, e: AutoError) {
    match e
    case InvalidBase => ParseCurrency(readFloat, i.base).None?
    case InvalidPercent => readFloat(i.start).None? || readFloat(i.end).None? || readFloat(i.step).None?
    case InvalidYears => readInt(i.years).None? || readInt(i.years).value < 1
    case StartAfterEnd =>
      readFloat(i.start).Some? && readFloat(i.end).Some? && readFloat(i.start).value > readFloat(i.end).value
    case NonPositiveStep => readFloat(i.step).Some? && readFloat(i.step).value <= 0.0
  }

  /** The checks at the top of `generate_auto_table`, stopping at the first
      failure. The base goes through `parse_currency`, so a negative base is
      accepted; the percents and the years go straight to `float()` and
      `int()`. The result reports a rule the inputs break, and no rule
      checked earlier is broken; it succeeds only when no rule is broken. */
  function Validate(readFloat: FloatReader, readInt: IntReader, i: AutoInputs): (r: Result<Settings, AutoError>)
    ensures r.Failure? ==> Breaks(readFloat, readInt, i, r.error)
    ensures r.Failure? ==> forall e | Rank(e) < Rank(r.error) :: !Breaks(readFloat, readInt, i, e)
    ensures r.Success? ==> forall e :: !Breaks(readFloat, readInt, i, e)
    ensures r.Success? ==>
      && ParseCurrency(readFloat, i.base) == Some(r.value.base)
      && readFloat(i.start) == Some(r.value.start)
      && readFloat(i.end) == Some(r.value.end)
      && readFloat(i.step) == Some(r.value.step)
      && readInt(i.years) == Some(r.value.years as int)
    ensures r.Success? ==> Valid(r.value)
  {
    var base := ParseCurrency(readFloat, i.base);
    var start := readFloat(i.start);
    var end := readFloat(i.end);
    var step := readFloat(i.step);
    var years := readInt(i.years);
    if base.None? then Failure(InvalidBase)
    else if start.None? || end.None? || step.None? then Failure(InvalidPercent)
    else if years.None? || years.value < 1 then Failure(InvalidYears)
    else if start.value > end.value then Failure(StartAfterEnd)
    else if step.value <= 0.0 then Failure(NonPositiveStep)
    else Success(Settings(base.value, start.value, end.value, step.value, years.value))
  }

  /** Fields that read as a valid setting are accepted as exactly that
      setting, whatever their texts look like. */
  lemma ValidateAccepts(readFloat: FloatReader, readInt: IntReader, i: AutoInputs, s: Settings)
    requires ParseCurrency(readFloat, i.base) == Some(s.base)
    requires readFloat(i.start) == Some(s.start)
    requires readFloat(i.end) == Some(s.end)
    requires readFloat(i.step) == Some(s.step)
    requires readInt(i.years) == Some(s.years as int)
    requires Valid(s)
    ensures Validate(readFloat, readInt, i) == Success(s)
  {
  }

  /** What a table needs: at least one year, start at most end, and a
      positive step. */
  predicate Valid(s: Settings) {
    s.years >= 1 && s.start <= s.end && s.step > 0.0
  }

  /** A base written as a negative amount is accepted like any other: when
      the base is the only field that could be at fault, `$-5.00` passes and
      the table is computed from -5. */
  lemma NegativeBaseAccepted(readInt: IntReader, i: AutoInputs)
    requires i.base == FormatCents(-500)
    requires forall e | e != InvalidBase :: !Breaks(Decimal.ReadDecimal, readInt, i, e)
    ensures Validate(Decimal.ReadDecimal, readInt, i).Success?
    ensures Validate(Decimal.ReadDecimal, readInt, i).value.base == -5.0
  {
    MinusFiveReadsBack();
    AcceptedBase(Decimal.ReadDecimal, readInt, i);
  }

  /** When only the base could be at fault and it reads, the settings carry
      the base as read. */
  lemma AcceptedBase(readFloat: FloatReader, readInt: IntReader, i: AutoInputs)
    requires ParseCurrency(readFloat, i.base).Some?
    requires forall e | e != InvalidBase :: !Breaks(readFloat, readInt, i, e)
    ensures Validate(readFloat, readInt, i).Success?
    ensures Validate(readFloat, readInt, i).value.base == ParseCurrency(readFloat, i.base).value
  {
    assert !Breaks(readFloat, readInt, i, InvalidPercent);
    assert !Breaks(readFloat, readInt, i, InvalidYears);
    assert !Breaks(readFloat, readInt, i, StartAfterEnd);
    assert !Breaks(readFloat, readInt, i, NonPositiveStep);
  }

  /** `$-5.00` reads back as -5. */
  lemma MinusFiveReadsBack()
    ensures ParseCurrency(Decimal.ReadDecimal, FormatCents(-500)) == Some(-5.0)
  {
    FormatCentsRoundTrip(-500);
  }

  /** The slack the sweep allows past the end percent. */
  const Tolerance: real := 0.000001

  /** How many percents of the sweep from `cur` are still at most `limit`. */
  function StepsLeft(cur: real, limit: real, step: real): nat
    requires step > 0.0
  {
    if cur <= limit then ((limit - cur) / step).Floor + 1 else 0
  }

  /** One step uses up one of the remaining percents. */
  lemma StepsLeftDecrease(cur: real, limit: real, step: real)
    requires step > 0.0 && cur <= limit
    ensures StepsLeft(cur + step, limit, step) == StepsLeft(cur, limit, step) - 1
  {
    var x := (limit - cur) / step;
    DivMinusOne(limit - cur, step);
    assert limit - (cur + step) == (limit - cur) - step;
    assert (x - 1.0).Floor == x.Floor - 1;
  }

  lemma DivMinusOne(a: real, b: real)
    requires b > 0.0
    ensures (a - b) / b == a / b - 1.0
  {
    var q := a / b;
    var q2 := (a - b) / b;
    assert q * b == a;
    assert q2 * b == a - b;
    var d := q2 - (q - 1.0);
    assert d * b == 0.0;
    ZeroProduct(d, b);
  }

  lemma ZeroProduct(d: real, b: real)
    requires b > 0.0 && d * b == 0.0
    ensures d == 0.0
  {
  }

  /** The percents the `while` loop visits: `cur`, `cur + step`, ... as long
      as they stay at most `limit`. */
  function Sweep(cur: real, limit: real, step: real): (r: seq<real>)
    requires step > 0.0
    ensures r != [] <==> cur <= limit
    ensures r != [] ==> r[0] == cur
    decreases StepsLeft(cur, limit, step)
  {
    if cur <= limit then
      StepsLeftDecrease(cur, limit, step);
      [cur] + Sweep(cur + step, limit, step)
    else []
  }

  /** The sweep has one percent for each step left. */
  lemma {:induction false} SweepLength(cur: real, limit: real, step: real)
    requires step > 0.0
    ensures |Sweep(cur, limit, step)| == StepsLeft(cur, limit, step)
    decreases StepsLeft(cur, limit, step)
  {
    if cur <= limit {
      StepsLeftDecrease(cur, limit, step);
      SweepLength(cur + step, limit, step);
    }
  }

  /** The `k`-th percent of the sweep is `cur + k * step`. */
  lemma {:induction false} SweepAt(cur: real, limit: real, step: real, k: nat)
    requires step > 0.0 && k < |Sweep(cur, limit, step)|
    ensures Sweep(cur, limit, step)[k] == cur + k as real * step
    decreases k
  {
    if k > 0 {
      var rest := Sweep(cur + step, limit, step);
      assert Sweep(cur, limit, step) == [cur] + rest;
      SweepAt(cur + step, limit, step, k - 1);
      assert (cur + step) + (k - 1) as real * step == cur + k as real * step;
    }
  }

  /** The percents within the steps left are at most the limit, and the one
      after them is past it. */
  lemma StepsLeftBounds(cur: real, limit: real, step: real, k: nat)
    requires step > 0.0
    ensures k < StepsLeft(cur, limit, step) ==> cur + k as real * step <= limit
    ensures cur + StepsLeft(cur, limit, step) as real * step > limit
  {
    if cur <= limit {
      var x := (limit - cur) / step;
      var n := x.Floor;
      assert x * step == limit - cur;
      if k < n + 1 {
        assert k as real <= x;
        MulLe(k as real, x, step);
      }
      assert (n + 1) as real > x;
      MulLt(x, (n + 1) as real, step);
    }
  }

  lemma MulLe(a: real, b: real, c: real)
    requires a <= b && c > 0.0
    ensures a * c <= b * c
  {
  }

  lemma MulLt(a: real, b: real, c: real)
    requires a < b && c > 0.0
    ensures a * c < b * c
  {
  }

  /** The sweep has one percent for each step left; the `k`-th is
      `cur + k * step`; every one is within the limit and the next one would
      not be. */
  lemma SweepLayout(cur: real, limit: real, step: real)
    requires step > 0.0
    ensures var r := Sweep(cur, limit, step);
      && |r| == StepsLeft(cur, limit, step)
      && (forall k | 0 <= k < |r| :: r[k] == cur + k as real * step && r[k] <= limit)
      && cur + |r| as real * step > limit
  {
    var r := Sweep(cur, limit, step);
    SweepLength(cur, limit, step);
    forall k | 0 <= k < |r| ensures r[k] == cur + k as real * step && r[k] <= limit {
      SweepAt(cur, limit, step, k);
      StepsLeftBounds(cur, limit, step, k);
    }
    StepsLeftBounds(cur, limit, step, 0);
  }

  /** Each percent of the sweep is the one before it plus `step`, so the
      percents strictly increase. */
  lemma SweepIncreasing(cur: real, limit: real, step: real)
    requires step > 0.0
    ensures var r := Sweep(cur, limit, step);
      forall k | 1 <= k < |r| :: r[k] == r[k - 1] + step && r[k - 1] < r[k]
  {
    var r := Sweep(cur, limit, step);
    forall k | 1 <= k < |r| ensures r[k] == r[k - 1] + step {
      SweepAt(cur, limit, step, k);
      SweepAt(cur, limit, step, k - 1);
      assert cur + k as real * step == cur + (k - 1) as real * step + step;
    }
  }

  /** A sweep whose start is at most its end is never empty, and starts
      there. */
  lemma SweepStartsAtStart(start: real, end: real, step: real)
    requires step > 0.0 && start <= end
    ensures var r := Sweep(start, end + Tolerance, step); |r| >= 1 && r[0] == start
  {
  }

  function Pow(x: real, n: nat): real {
    if n == 0 then 1.0 else x * Pow(x, n - 1)
  }

  /** The yearly growth factor of a percent increase. */
  function Growth(pct: real): real {
    1.0 + pct / 100.0
  }

  /** The value of year `y` is the base compounded `y` times. */
  function YearValue(base: real, pct: real, y: nat): real {
    base * Pow(Growth(pct), y)
  }

  /** The values of years 1 to `years`. */
  function YearValues(base: real, pct: real, years: nat): (r: seq<real>)
    ensures |r| == years
  {
    if years == 0 then [] else YearValues(base, pct, years - 1) + [YearValue(base, pct, years)]
  }

  lemma {:induction false} YearValuesAt(base: real, pct: real, years: nat, k: nat)
    requires k < years
    ensures YearValues(base, pct, years)[k] == YearValue(base, pct, k + 1)
  {
    if k < years - 1 {
      YearValuesAt(base, pct, years - 1, k);
    }
  }

  function Sum(s: seq<real>): real {
    if s == [] then 0.0 else Sum(s[..|s| - 1]) + s[|s| - 1]
  }

  /** The total divided by the count, or 0 when the count is 0. */
  function Average(total: real, count: nat): real {
    if count > 0 then total / count as real else 0.0
  }

  /** The inner `for` loop of one row: each year's value, and their running
      total. */
  method ProjectRow(base: real, pct: real, years: nat) returns (values: seq<real>, total: real)
    ensures |values| == years
    ensures forall k | 0 <= k < years :: values[k] == YearValue(base, pct, k + 1)
    ensures total == Sum(values)
    ensures values == YearValues(base, pct, years)
  {
    values := [];
    total := 0.0;
    var year := 1;
    while year <= years
      invariant 1 <= year <= years + 1
      invariant values == YearValues(base, pct, year - 1)
      invariant total == Sum(values)
    {
      var val := YearValue(base, pct, year);
      values := values + [val];
      assert values[..|values| - 1] == YearValues(base, pct, year - 1);
      total := total + val;
      year := year + 1;
    }
    forall k | 0 <= k < years ensures values[k] == YearValue(base, pct, k + 1) {
      YearValuesAt(base, pct, years, k);
    }
  }

  /** The total of the years in closed form: the sum of a geometric series,
      `total * (g - 1) == base * (g^(n+1) - g)` with `g` the growth factor,
      so `total == base * (g^(n+1) - g) / (g - 1)` whenever the percent is
      not 0. */
  lemma {:induction false} TotalClosedForm(base: real, pct: real, n: nat)
    ensures ClosedForm(base, pct, n)
  {
    if n > 0 {
      TotalClosedForm(base, pct, n - 1);
      ClosedFormStep(base, pct, n);
    } else {
      assert Pow(Growth(pct), 1) == Growth(pct);
    }
  }

  predicate ClosedForm(base: real, pct: real, n: nat) {
    Sum(YearValues(base, pct, n)) * (Growth(pct) - 1.0) == base * (Pow(Growth(pct), n + 1) - Growth(pct))
  }

  lemma ClosedFormStep(base: real, pct: real, n: nat)
    requires n > 0 && ClosedForm(base, pct, n - 1)
    ensures ClosedForm(base, pct, n)
  {
  }

  /** With no increase, every year costs the base, so the total is the base
      times the number of years. */
  lemma {:induction false} FlatTotal(base: real, n: nat)
    ensures Sum(YearValues(base, 0.0, n)) == base * n as real
  {
    if n > 0 {
      var s := YearValues(base, 0.0, n);
      assert s[..|s| - 1] == YearValues(base, 0.0, n - 1);
      FlatTotal(base, n - 1);
      PowOne(n);
    }
  }

  lemma {:induction false} PowOne(n: nat)
    ensures Pow(1.0, n) == 1.0
  {
    if n > 0 {
      PowOne(n - 1);
    }
  }

  /** The header labels for `n` years: `Percent Increase`, `Year 1` to
      `Year n`, `Total`, `Average`. A count below 1 gives no year columns, as
      `range(1, n + 1)` does. */
  function AutoHeader(n: int): (r: seq<string>)
    ensures |r| == (if n > 0 then n else 0) + 3
    ensures r[0] == "Percent Increase"
    ensures forall y | 1 <= y <= n :: r[y] == "Year " + Digits(y)
    ensures r[|r| - 2] == "Total" && r[|r| - 1] == "Average"
  {
    var count := if n > 0 then n else 0;
    ["Percent Increase"] + seq(count, k requires 0 <= k < count => "Year " + Digits(k + 1)) + ["Total", "Average"]
  }

  /** A label of the automatic frame: fixed text, an amount shown with
      `format_currency`, or a percent shown with `.2f` and `%`. The label's
      text is `Render` of it. */
  datatype Cell = Label(text: string) | Money(amount: real) | Percent(pct: real)

  function Render(c: Cell): string {
    match c
    case Label(t) => t
    case Money(x) => FormatCurrency(x)
    case Percent(p) => FormatPercent(p)
  }

  /** The labels of one data row, as the loop body creates them. */
  function RowText(pct: real, values: seq<real>, total: real): seq<Cell> {
    [Percent(pct)]
      + seq(|values|, k requires 0 <= k < |values| => Money(values[k]))
      + [Money(total), Money(Average(total, |values|))]
  }

  /** The row for one percent. */
  function RowCells(base: real, pct: real, years: nat): seq<Cell> {
    var values := YearValues(base, pct, years);
    RowText(pct, values, Sum(values))
  }

  /** Column 0 of a row shows the percent, column `y` the value of year `y`,
      then come the total of the years and their average. */
  lemma RowCellsLayout(base: real, pct: real, years: nat)
    ensures var r := RowCells(base, pct, years);
      && |r| == years + 3
      && r[0] == Percent(pct)
      && (forall y | 1 <= y <= years :: r[y] == Money(YearValue(base, pct, y)))
      && r[years + 1] == Money(Sum(YearValues(base, pct, years)))
      && r[years + 2] == Money(Average(Sum(YearValues(base, pct, years)), years))
  {
    var values := YearValues(base, pct, years);
    forall y | 1 <= y <= years ensures values[y - 1] == YearValue(base, pct, y) {
      YearValuesAt(base, pct, years, y - 1);
    }
  }

  /** The header as labels. */
  function HeaderCells(years: nat): (r: seq<Cell>)
    ensures |r| == years + 3
    ensures forall c | 0 <= c < |r| :: r[c] == Label(AutoHeader(years)[c])
  {
    var h := AutoHeader(years);
    seq(|h|, c requires 0 <= c < |h| => Label(h[c]))
  }

  /** The rows for a list of percents, in order. */
  function Rows(base: real, years: nat, pcts: seq<real>): (r: seq<seq<Cell>>)
    ensures |r| == |pcts|
  {
    seq(|pcts|, k requires 0 <= k < |pcts| => RowCells(base, pcts[k], years))
  }

  /** The labels of a table computed from valid settings, by grid row,
      each row listing its labels by column from 0: the header, then one row
      per percent of the sweep. */
  function Table(s: Settings): seq<seq<Cell>>
    requires Valid(s)
  {
    [HeaderCells(s.years)] + Rows(s.base, s.years, Sweep(s.start, s.end + Tolerance, s.step))
  }

  /** The labels of the automatic frame. The frame is emptied before
      validation, so a rejected input leaves it empty. */
  function AutoGrid(readFloat: FloatReader, readInt: IntReader, i: AutoInputs): (r: seq<seq<Cell>>)
    ensures r == [] <==> Validate(readFloat, readInt, i).Failure?
    ensures Validate(readFloat, readInt, i).Success? ==>
      |r| >= 2 && r[0] == HeaderCells(Validate(readFloat, readInt, i).value.years)
  {
    match Validate(readFloat, readInt, i)
    case Failure(_) => []
    case Success(s) => Table(s)
  }

  /** An accepted input gives the header and one row per percent from the
      start up to the end plus the tolerance. */
  lemma GridSize(readFloat: FloatReader, readInt: IntReader, i: AutoInputs)
    requires Validate(readFloat, readInt, i).Success?
    ensures var s := Validate(readFloat, readInt, i).value;
      |AutoGrid(readFloat, readInt, i)| == 1 + StepsLeft(s.start, s.end + Tolerance, s.step)
  {
    var s := Validate(readFloat, readInt, i).value;
    TableLayout(s);
    SweepLayout(s.start, s.end + Tolerance, s.step);
  }

  /** The layout of a table: the header, then one row per percent of the
      sweep, in order (`SweepLayout` says which percents those are). */
  lemma TableLayout(s: Settings)
    requires Valid(s)
    ensures var g := Table(s);
      var ps := Sweep(s.start, s.end + Tolerance, s.step);
      && |g| == 1 + |ps|
      && |ps| >= 1 && ps[0] == s.start
      && g[0] == HeaderCells(s.years)
      && forall r | 1 <= r < |g| :: g[r] == RowCells(s.base, ps[r - 1], s.years)
  {
    var ps := Sweep(s.start, s.end + Tolerance, s.step);
    HeadedLayout(HeaderCells(s.years), Rows(s.base, s.years, ps));
  }

  /** A sequence with a head row put in front: the head, then the rows
      one place further down. */
  lemma HeadedLayout<T>(h: T, rows: seq<T>)
    ensures var g := [h] + rows;
      && |g| == 1 + |rows| && g[0] == h
      && forall r | 1 <= r < |g| :: g[r] == rows[r - 1]
  {
  }

  /** One more row, built from the values the year loop computed. */
  lemma RowsSnoc(base: real, years: nat, ps: seq<real>, p: real, values: seq<real>, total: real)
    requires values == YearValues(base, p, years) && total == Sum(values)
    ensures Rows(base, years, ps + [p]) == Rows(base, years, ps) + [RowText(p, values, total)]
  {
  }

  /** Once the running percent passes the limit, the percents visited are
      the whole sweep. */
  lemma SweepDone(start: real, cur: real, limit: real, step: real, done: seq<real>)
    requires step > 0.0 && cur > limit
    requires Sweep(start, limit, step) == done + Sweep(cur, limit, step)
    ensures done == Sweep(start, limit, step)
  {
  }

  lemma SweepUnfold(cur: real, limit: real, step: real)
    requires step > 0.0 && cur <= limit
    ensures Sweep(cur, limit, step) == [cur] + Sweep(cur + step, limit, step)
  {
  }

  /** `generate_auto_table` as the program runs it: validate, then walk the
      percents with a running `current_pct`, building each row with the
      inner year loop. */
  method GenerateAutoTable(readFloat: FloatReader, readInt: IntReader, i: AutoInputs)
    returns (grid: seq<seq<Cell>>)
    ensures grid == AutoGrid(readFloat, readInt, i)
  {
    var v := Validate(readFloat, readInt, i);
    if v.Failure? {
      return [];
    }
    var s := v.value;
    grid := FillTable(s);
  }

  lemma AppendAssoc<T>(a: seq<T>, b: seq<T>, c: seq<T>)
    ensures a + (b + c) == (a + b) + c
  {
  }

  /** One turn of the sweep loop: the row of the running percent extends
      the grid, and the percent moves from the rest of the sweep to the part
      already visited. */
  lemma FillStep(base: real, years: nat, start: real, limit: real, step: real, cur: real,
                 done: seq<real>, grid: seq<seq<Cell>>, values: seq<real>, total: real)
    requires step > 0.0 && cur <= limit
    requires Sweep(start, limit, step) == done + Sweep(cur, limit, step)
    requires grid == [HeaderCells(years)] + Rows(base, years, done)
    requires values == YearValues(base, cur, years) && total == Sum(values)
    ensures Sweep(start, limit, step) == (done + [cur]) + Sweep(cur + step, limit, step)
    ensures grid + [RowText(cur, values, total)] == [HeaderCells(years)] + Rows(base, years, done + [cur])
  {
    RowsSnoc(base, years, done, cur, values, total);
    AppendAssoc([HeaderCells(years)], Rows(base, years, done), [RowText(cur, values, total)]);
    SweepUnfold(cur, limit, step);
    AppendAssoc(done, [cur], Sweep(cur + step, limit, step));
  }

  method FillTable(s: Settings) returns (grid: seq<seq<Cell>>)
    requires Valid(s)
    ensures grid == Table(s)
  {
    var limit := s.end + Tolerance;
    grid := [HeaderCells(s.years)];
    var cur := s.start;
    ghost var done: seq<real> := [];
    while cur <= limit
      invariant Sweep(s.start, limit, s.step) == done + Sweep(cur, limit, s.step)
      invariant grid == [HeaderCells(s.years)] + Rows(s.base, s.years, done)
      decreases StepsLeft(cur, limit, s.step)
    {
      StepsLeftDecrease(cur, limit, s.step);
      var values, total := ProjectRow(s.base, cur, s.years);
      FillStep(s.base, s.years, s.start, limit, s.step, cur, done, grid, values, total);
      grid := grid + [RowText(cur, values, total)];
      done := done + [cur];
      cur := cur + s.step;
    }
    SweepDone(s.start, cur, limit, s.step, done);
  }
}
