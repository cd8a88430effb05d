# Subscription cost increase calculator: a Dafny model of its core

SubscriptionCalculator.py is a small desktop tool. It projects how a subscription
price grows when it rises by a fixed percent every year. It has three parts, and
this project models the calculation and the text each part produces:

- **Automatic table** (`generate_auto_table`). Five fields are checked in a fixed
  order: base amount, start, end and step percent, and number of years. The first
  failure is reported. Then the percents from start to end are swept in steps
  (with a tolerance of 1e-6 past the end). Each percent gets a row: the percent,
  the compounded value of every year, their total and their average.
- **Manual table** (`generate_manual_table`, `update_manual_table`). There is one
  row per year, holding an amount the user types, starting at `$0.00`. Each row
  shows the percent change against the row before it; the first row compares
  against the base amount. The table also shows the total and average of the
  amounts that can be read.
- **CSV export** (`download_csv`). The automatic table is read back from the grid
  positions of its labels. Then come a blank row and the manual table.

Money and percents are exact `real`s. `format_currency` (`$`, sign, thousands
separators, two decimals) and the `.2f` percent rendering go through a whole
number of cents, rounded half to even. Python's `float()` and `int()` are
parameters (`Currency.FloatReader`, `Projection.IntReader`). The module `Decimal`
is a concrete reader for plain decimal numerals; the round-trip properties and
the worked examples in `Worked` use it.

Modules, in dependency order:

- `Wrappers`: `Option` and `Result`.
- `Text`: whitespace stripping, character removal, decimal digits and the
  thousands grouping.
- `Decimal`: the plain-numeral reader.
- `Currency`: `parse_currency`, `format_currency` and the percent rendering.
- `Projection`: validation, the sweep, yearly values, and the automatic grid.
- `Manual`: the manual table and its refresh.
- `Export`: the rows of the CSV file.
- `Worked`: worked examples on concrete texts, such as `$1,234.50` and the
  starting values of the settings fields.

`parse_currency` never checks the sign of the base, so `$-5.00` is accepted and
the table is computed from -5 (see `Projection.NegativeBaseAccepted`).

## Model

| member | source | states |
|---|---|---|
| Currency.Clean | SubscriptionCalculator.py:20 | the cleaned text holds no `$` and no `,`, and neither starts nor ends with whitespace |
| Currency.CleanEmptyIffBlank | SubscriptionCalculator.py:20-21 | cleaning leaves nothing exactly when the text is only `$`, `,` and whitespace, which is when `parse_currency` returns 0.0 without calling `float()` |
| Currency.CleanKeeps | SubscriptionCalculator.py:20 | any character other than `$`, `,` and whitespace is in the cleaned text exactly when it is in the raw text |
| Currency.CleanIsTrimmed | SubscriptionCalculator.py:20 | the cleaned text is a contiguous slice of the text with `$` and `,` removed, and only whitespace is cut off before and after it |
| Currency.CleanIdempotent | SubscriptionCalculator.py:20 | cleaning an already cleaned text changes nothing |
| Currency.ParseCurrency | SubscriptionCalculator.py:18-21 | blank text reads as 0 whatever `float()` does; any other text reads as `float()` of its non-empty cleaned form |
| Currency.ParseIgnoresCleaning | SubscriptionCalculator.py:18-21 | parsing the cleaned text gives the same result as parsing the raw text |
| Currency.RoundCents | SubscriptionCalculator.py:25 | the cents shown are within half a cent of the value; a tie goes to the even count; a non-negative value never shows negative cents |
| Currency.RoundCentsNegate | SubscriptionCalculator.py:25 | rounding is symmetric: a negated value rounds to the negated number of cents |
| Currency.RoundCentsExact | SubscriptionCalculator.py:25 | an amount that is already a whole number of cents is shown as exactly those cents |
| Currency.FormatCurrency | SubscriptionCalculator.py:23-25 | a rendered amount starts with `$`, has a point three characters from the end, and shows `-` after the `$` exactly when the amount is negative |
| Currency.FormatCurrencyCents | SubscriptionCalculator.py:23-25 | an amount is rendered as its rounded number of cents; an amount that rounds to 0 cents from below renders as `$-0.00` |
| Currency.FormatCentsIsFormatCurrency | SubscriptionCalculator.py:23-25 | rendering `c / 100` gives the text of `c` whole cents |
| Currency.FormatCentsShape | SubscriptionCalculator.py:23-25 | a rendered amount starts with `$`; a `-` follows exactly when the amount is negative; the rest is the units grouped in threes by `,`, with no leading zero unless the units are just `0`, a point and two digits, spelling the absolute cents |
| Currency.FormatCentsRoundTrip | SubscriptionCalculator.py:18-25 | `parse_currency(format_currency(c / 100))` is exactly `c / 100` for every whole number of cents `c`, negative ones included |
| Currency.FormatCurrencyRoundTrip | SubscriptionCalculator.py:18-25 | every amount reads back as its rounded cents over 100, which is within half a cent of the amount |
| Currency.PlaceholderIsZero | SubscriptionCalculator.py:140 | the `$0.00` placeholder is the rendering of 0 and reads back as 0 |
| Currency.FormatPercent | SubscriptionCalculator.py:80 | a rendered percent ends in `%` with a point three characters before it, and starts with `-` exactly when the percent is negative |
| Currency.FormatPercentRoundTrip | SubscriptionCalculator.py:80 | a rendered percent ends in `%`, and the numeral before it reads back as the percent rounded to hundredths |
| Projection.Validate | SubscriptionCalculator.py:39-63 | a rejection names a rule the inputs break, and every rule checked before it holds; acceptance means no rule is broken; the accepted settings are the parsed field values, with years at least 1, start at most end and a positive step |
| Projection.ValidateAccepts | SubscriptionCalculator.py:39-63 | fields that read as a valid setting are accepted as exactly that setting |
| Projection.AcceptedBase | SubscriptionCalculator.py:39-63 | when only the base could be at fault and it reads, the input is accepted and the table uses the base as read |
| Projection.NegativeBaseAccepted | SubscriptionCalculator.py:40 | a base of `$-5.00` is accepted whenever the other fields are fine, and the table is computed from -5 |
| Projection.Sweep | SubscriptionCalculator.py:76-103 | the sweep visits at least one percent exactly when the start is at most the limit, and it then begins at the start |
| Projection.SweepLayout | SubscriptionCalculator.py:76-78 | the percents visited are `start + k * step` for consecutive `k` from 0; each is at most the limit, and the next one would pass it |
| Projection.SweepIncreasing | SubscriptionCalculator.py:103 | each swept percent is the one before it plus the step, so the percents strictly increase |
| Projection.SweepStartsAtStart | SubscriptionCalculator.py:76-78 | a sweep whose start is at most its end has at least one row, and its first percent is the start |
| Projection.ProjectRow | SubscriptionCalculator.py:82-88 | year `k` holds the base compounded `k` times, and the total is the sum of the year values |
| Projection.TotalClosedForm | SubscriptionCalculator.py:84-87 | the total over `n` years satisfies the geometric-series identity `total * (g - 1) == base * (g^(n+1) - g)`, where `g` is the growth factor |
| Projection.FlatTotal | SubscriptionCalculator.py:84-87 | at 0% the total is the base times the number of years |
| Projection.AutoHeader | SubscriptionCalculator.py:66-68 | the header has `Percent Increase`, then `Year 1` to `Year n`, then `Total` and `Average`; a count below 1 gives no year columns |
| Projection.HeaderCells | SubscriptionCalculator.py:69-74 | grid row 0 holds the header labels in column order |
| Projection.RowCellsLayout | SubscriptionCalculator.py:93-101 | a data row has the percent in column 0, year `y` in column `y`, then the total and the average of the years |
| Projection.TableLayout | SubscriptionCalculator.py:65-103 | the grid is the header row followed by one row per swept percent, in sweep order, starting at the start percent |
| Projection.AutoGrid | SubscriptionCalculator.py:34-103 | the frame is left empty exactly when validation rejects the inputs; otherwise it holds the header row and at least one data row |
| Projection.GridSize | SubscriptionCalculator.py:76-103 | an accepted input gives one row per percent from the start up to the end plus the tolerance, below the header |
| Projection.GenerateAutoTable | SubscriptionCalculator.py:34-103 | the loop-built grid is the empty frame on rejection, and otherwise the table of the accepted settings |
| Projection.FillStep | SubscriptionCalculator.py:78-103 | one turn of the loop appends the running percent's row and moves that percent from the rest of the sweep to the visited part |
| Projection.FillTable | SubscriptionCalculator.py:76-103 | the `while` loop with its running percent builds exactly the header and one row per swept percent |
| Manual.Change | SubscriptionCalculator.py:187-202 | a change is shown exactly when the amount and its reference can be read and the reference is not 0; applying the change to the reference gives back the amount |
| Manual.ChangeRecoversPercent | SubscriptionCalculator.py:189 | if the automatic table's yearly values are typed into the manual table, each year's change against the year before (the base, for year 1) is that table's percent, provided the base and the growth factor are nonzero |
| Manual.ChangesAt | SubscriptionCalculator.py:187-202 | row `i` shows a change exactly when its amount can be read and its reference (the base for row 0, the amount above otherwise) can be read and is not 0; the change then turns the reference into the amount |
| Manual.WithChanges | SubscriptionCalculator.py:181-202 | refreshing the percent labels leaves every year label and typed text unchanged |
| Manual.RefreshRows | SubscriptionCalculator.py:181-202 | the row loop gives every row the change of its amount against the base (row 0) or against the row above |
| Manual.Tally | SubscriptionCalculator.py:204-212 | the loop total is the sum of the amounts that can be read, and the count is how many there are |
| Manual.PresentAll | SubscriptionCalculator.py:206-212 | when every amount can be read, all of them are counted, in order |
| Manual.PresentSkips | SubscriptionCalculator.py:206-212 | an amount that cannot be read lowers the count below the number of rows |
| Manual.Update | SubscriptionCalculator.py:174-217 | refreshing keeps the number of rows, and every year label and typed text |
| Manual.UpdateAt | SubscriptionCalculator.py:181-202 | after an update, row `i`'s percent label is the change of its typed amount against the base (row 0) or the row above, as `Manual.ChangesAt` characterises it |
| Manual.UpdateTotals | SubscriptionCalculator.py:204-217 | after an update, the Total label is the sum of the entries that can be read and the Average label is that sum over their count, or 0 when there are none |
| Manual.RefreshTotals | SubscriptionCalculator.py:204-217 | the Total is the sum of the readable amounts; the Average is 0 when there are none, and otherwise times their count gives the Total |
| Manual.UpdateManualTable | SubscriptionCalculator.py:174-217 | the loops give the table whose labels are recomputed from the typed amounts and the base |
| Manual.UpdateIdempotent | SubscriptionCalculator.py:174-217 | refreshing an already refreshed table changes nothing |
| Manual.FreshRows | SubscriptionCalculator.py:133-150 | a new table has rows `Year 1` to `Year n`, each with the `$0.00` placeholder and a blank percent label |
| Manual.GenerateManual | SubscriptionCalculator.py:120-172 | there is no table exactly when the years field is not a whole number of at least 1; otherwise there is one row per year, labelled and holding the placeholder, already refreshed |
| Manual.FreshTable | SubscriptionCalculator.py:133-172 | a new table has total and average 0; year 1 shows -100% against a nonzero base and is blank otherwise; every later year is blank |
| Export.GridRowShown | SubscriptionCalculator.py:256-266 | a grid row is written as its labels' texts; columns past its last label are written as empty strings, and columns past the header's width are dropped |
| Export.AutoSection | SubscriptionCalculator.py:235-268 | the automatic part is the title, the header, then every grid row from row 0 down, each read across the header's width |
| Export.ManualSection | SubscriptionCalculator.py:271-279 | the manual part is the title, the column names, one `[year, typed text, percent label]` row per year, then the Total and Average rows with an empty third cell |
| Export.ExportRows | SubscriptionCalculator.py:235-282 | the export fails exactly when the frame is empty or there is no manual table, and reports the empty frame first; otherwise it writes the automatic part, a blank row, then the manual part |
| Export.ExportHeader | SubscriptionCalculator.py:236-242 | the CSV header is built from the years field at export time: `Percent Increase`, `Year 1` to `Year n`, `Total`, `Average`; a field that is not a number counts as 0 years |
| Export.HeaderWrittenTwice | SubscriptionCalculator.py:240-268 | with the years field unchanged since the table was built, the header row is written twice, and every grid row is written exactly as the frame shows it |
| Export.RejectedTableFails | SubscriptionCalculator.py:255 | after a rejected input there is nothing to export: the export fails with the empty-frame error |
| Worked.FormatThousands | SubscriptionCalculator.py:23-25 | 1234.5 is rendered `$1,234.50` |
| Worked.ParseThousands | SubscriptionCalculator.py:18-21 | `$1,234.50` reads back as 1234.5 |
| Worked.DefaultsAccepted | SubscriptionCalculator.py:308-331 | the starting fields `$0.00`, `0.5`, `3.0`, `0.5`, `3` are accepted as base 0, percents 0.5 to 3.0 in steps of 0.5, over 3 years |
| Worked.DefaultTableSize | SubscriptionCalculator.py:76-78 | the starting fields give the header and six rows, one per percent from 0.5 to 3.0 |
| Worked.ToleranceAdmitsRow | SubscriptionCalculator.py:78 | from 0 to 0.9999995 in steps of 1 the sweep visits 0 and 1 because of the 1e-6 tolerance, and only 0 without it |
| Worked.HeaderFromYearsField | SubscriptionCalculator.py:236-242 | a years field holding `n` gives a CSV header of width `n + 3` with `Year 1` to `Year n` |
| Worked.HeaderFromText | SubscriptionCalculator.py:236-242 | a years field holding `abc` gives the header `Percent Increase`, `Total`, `Average` |

## Left out

- Windows, widgets, focus handlers (`clear_placeholder`, the FocusOut refresh), message boxes, the Cancel button and the main-window setup. They only display results or route events.
- The file dialog and file writing in `download_csv`, including the partial file left when the export fails after opening it. The model gives the list of rows, or the error.
- The Tcl/Tk paths of the bundled app, and setup.py. They are packaging only.
- Python's `float()` and `int()` grammar beyond plain decimal numerals (`nan`, `inf`, exponents, underscores). The readers are parameters that yield reals, so the values `nan`, `inf` and `-0.0` are left out too; the lines below name what they would change. `Decimal` handles only plain numerals.
- The sort of `grid_slaves()` and the first-match search over it. Every label sits at a distinct position and the positions are contiguous, so the grid is a sequence of rows indexed by column.
- Currency.FormatCurrency: uses exact reals rounded half to even. Python rounds the nearest binary double, so values whose decimal form is not exact in binary may print one cent differently.
- Currency.FormatCurrency: never shows a negative zero, `nan` or `inf`, because the readers yield only reals. `float()` also accepts `-0`, `nan` and `inf`. A base of `-0` makes every year cell `$-0.00` (and a start percent of `-0` makes row 1 `-0.00%`), while the model shows `$0.00` and `0.00%`. A base of `nan` or `inf` fills the row with `$nan` or `$inf`.
- Projection.FillTable: adds `step` to the running percent exactly. Python accumulates `current_pct` in binary floating point, so after many steps the last row can be gained or lost near the 1e-6 tolerance.
- Projection.FillTable: proves that the sweep ends, which holds only for exact arithmetic. In doubles, `current_pct += step_pct` (line 103) can leave the percent unchanged: with start and end 1e16 and step 1, `1e16 + 1.0 == 1e16`, so the loop at line 78 never ends.
- Projection.FillTable: proves that the loop ends for every accepted input, but an end percent of `inf` (which `float()` accepts and every check at lines 58-63 lets through) keeps the loop condition true forever, so the loop at line 78 never ends.
- Projection.AutoGrid: promises at least one data row for an accepted input. A start or end percent of `nan` passes every check at lines 58-63, because each comparison with `nan` is false; the loop condition at line 78 is then false at once, and the frame holds only the header.
- Projection.ProjectRow: never fails. In Python the `**` at line 85 raises `OverflowError` for a large percent over many years (100000% over 200 years, say). The frame then keeps only the header and the rows before the first percent that overflows (just the header if the start percent overflows), and `download_csv` would export that partial frame.
- Projection.ProjectRow: computes the yearly values and total in exact arithmetic rather than binary floating point.
- Manual.Tally: a text that `float()` rejects is modelled as an unreadable amount. The bare `except` at line 211 would also swallow other exceptions, which cannot arise from parsing a string.
