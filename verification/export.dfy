/** The rows `download_csv` writes: the automatic table read back from the
    grid positions of its labels, a blank row, then the manual table. */
module Export {
  import opened Wrappers
  import opened Text
  import opened Currency
  import opened Projection
  import opened Manual

  /** Why the export stops with an error dialog: the automatic frame holds no
      labels (`max` of an empty list), or there is no manual table (its Total
      label is `None`). */
  datatype ExportError = NoAutoGrid | NoManualTable

  /** The text at grid position `(r, c)`, or the empty string when no label
      sits there. */
  function CellText(grid: seq<seq<Cell>>, r: nat, c: nat): string
    requires r < |grid|
  {
    if c < |grid[r]| then Render(grid[r][c]) else ""
  }

  /** Grid row `r` read across `width` columns, one cell per column from 0,
      as the inner loop over the header's columns reads it. */
  function GridRow(grid: seq<seq<Cell>>, r: nat, width: nat): (row: seq<string>)
    requires r < |grid|
    ensures |row| == width
  {
    seq(width, c requires 0 <= c < width => CellText(grid, r, c))
  }

  /** The texts of a row of labels, as the frame shows them. */
  function Shown(cells: seq<Cell>): seq<string> {
    seq(|cells|, c requires 0 <= c < |cells| => Render(cells[c]))
  }

  /** Reading a grid row across exactly its own width gives the texts the
      frame shows; a wider header pads it with `""`, a narrower one cuts it
      short. */
  lemma GridRowShown(grid: seq<seq<Cell>>, r: nat, width: nat)
    requires r < |grid|
    ensures width == |grid[r]| ==> GridRow(grid, r, width) == Shown(grid[r])
    ensures width >= |grid[r]| ==> GridRow(grid, r, width)[..|grid[r]|] == Shown(grid[r])
    ensures forall c | |grid[r]| <= c < width :: GridRow(grid, r, width)[c] == ""
    ensures width <= |grid[r]| ==> GridRow(grid, r, width) == Shown(grid[r])[..width]
  {
  }

  /** The CSV row of one manual year: its label, the raw entry text and the
      percent label. */
  function ManualLine(row: ManualRow): seq<string> {
    [row.year, row.typed, ChangeText(row.change)]
  }

  /** The header `download_csv` writes: built from whatever the years field
      holds at export time, 0 years when it does not read as a number. */
  function ExportHeader(readInt: IntReader, yearsText: string): (r: seq<string>)
    ensures var n := readInt(yearsText).GetOr(0);
      && |r| == (if n > 0 then n else 0) + 3
      && r[0] == "Percent Increase" && r[|r| - 2] == "Total" && r[|r| - 1] == "Average"
      && forall y | 1 <= y <= n :: r[y] == "Year " + Digits(y)
    ensures readInt(yearsText).None? ==> r == ["Percent Increase", "Total", "Average"]
  {
    AutoHeader(readInt(yearsText).GetOr(0))
  }

  /** The automatic part: the title, the header, then every grid row from
      row 0 (the on-screen header) down, read across the header's width. */
  function AutoSection(header: seq<string>, grid: seq<seq<Cell>>): (r: seq<seq<string>>)
    ensures |r| == 2 + |grid|
    ensures r[0] == ["Automatic Calculation Table"] && r[1] == header
    ensures forall k | 2 <= k < |r| :: r[k] == GridRow(grid, k - 2, |header|)
  {
    [["Automatic Calculation Table"], header] + seq(|grid|, k requires 0 <= k < |grid| => GridRow(grid, k, |header|))
  }

  /** The manual part: the title, the column names, one row per year, then
      the Total and Average rows with an empty third cell. */
  function ManualSection(m: ManualTable): (r: seq<seq<string>>)
    ensures |r| == 4 + |m.rows|
    ensures r[0] == ["Manual Entry Table"] && r[1] == ["Year", "Subscription Value", "Percent Change"]
    ensures forall k | 2 <= k < 2 + |m.rows| :: r[k] == ManualLine(m.rows[k - 2])
    ensures r[|r| - 2] == ["Total", FormatCurrency(m.total), ""]
    ensures r[|r| - 1] == ["Average", FormatCurrency(m.average), ""]
  {
    [["Manual Entry Table"], ["Year", "Subscription Value", "Percent Change"]]
      + seq(|m.rows|, k requires 0 <= k < |m.rows| => ManualLine(m.rows[k]))
      + [["Total", FormatCurrency(m.total), ""], ["Average", FormatCurrency(m.average), ""]]
  }

  /** The rows written, in order: the automatic part, a blank row, the
      manual part. The header comes from the years field as it is now. */
  function ExportRows(readInt: IntReader, yearsText: string, grid: seq<seq<Cell>>, manual: Option<ManualTable>)
    : (r: Result<seq<seq<string>>, ExportError>)
    ensures r.Failure? <==> grid == [] || manual.None?
    ensures r.Failure? ==> (r.error == NoAutoGrid <==> grid == [])
    ensures r.Success? ==>
      var a := AutoSection(ExportHeader(readInt, yearsText), grid);
      && |r.value| == |a| + 1 + 4 + |manual.value.rows|
      && r.value[..|a|] == a
      && r.value[|a|] == []
      && r.value[|a| + 1..] == ManualSection(manual.value)
  {
    if grid == [] then Failure(NoAutoGrid)
    else if manual.None? then Failure(NoManualTable)
    else
      var a := AutoSection(ExportHeader(readInt, yearsText), grid);
      var out := a + [[]] + ManualSection(manual.value);
      assert out[|a| + 1..] == ManualSection(manual.value);
      Success(out)
  }

  /** When the years field is unchanged since the automatic table was built,
      the header is written twice (once from the field, once as grid row 0),
      and each data row is written exactly as the frame shows it. */
  lemma HeaderWrittenTwice(readFloat: FloatReader, readInt: IntReader, i: AutoInputs, m: ManualTable)
    requires Validate(readFloat, readInt, i).Success?
    ensures var grid := AutoGrid(readFloat, readInt, i);
      var a := AutoSection(ExportHeader(readInt, i.years), grid);
      && ExportRows(readInt, i.years, grid, Some(m)).Success?
      && a[2] == a[1]
      && forall r | 0 <= r < |grid| :: GridRow(grid, r, |a[1]|) == Shown(grid[r])
  {
    var s := Validate(readFloat, readInt, i).value;
    var grid := AutoGrid(readFloat, readInt, i);
    var header := ExportHeader(readInt, i.years);
    assert header == AutoHeader(s.years);
    TableLayout(s);
    forall r | 0 <= r < |grid| ensures GridRow(grid, r, |header|) == Shown(grid[r]) {
      if r == 0 {
        assert grid[0] == HeaderCells(s.years);
      } else {
        var ps := Sweep(s.start, s.end + Tolerance, s.step);
        RowCellsLayout(s.base, ps[r - 1], s.years);
      }
      GridRowShown(grid, r, |header|);
    }
    assert Shown(grid[0]) == header;
  }

  /** A rejected automatic table leaves nothing to export. */
  lemma RejectedTableFails(readFloat: FloatReader, readInt: IntReader, i: AutoInputs, yearsText: string, manual: Option<ManualTable>)
    requires Validate(readFloat, readInt, i).Failure?
    ensures ExportRows(readInt, yearsText, AutoGrid(readFloat, readInt, i), manual) == Failure(NoAutoGrid)
  {
  }
}
