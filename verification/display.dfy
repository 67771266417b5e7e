/**
 * The fixed-width line shown for each listed record: the date padded to
 * 15 columns, the genre padded to 15 columns, the minutes right-aligned in
 * 5 columns, then " minutes".
 */
module Display {
  import opened Wrappers
  import opened Padding

  /** Width of the date and genre columns (`ljustDigit`). */
  const LeftWidth := 15
  /** Width of the minutes column (`rjustDigit`). */
  const RightWidth := 5
  /** Text after the minutes. */
  const Unit := " minutes"
  /** Length of a line whose fields fit their columns. */
  const LineWidth := LeftWidth + LeftWidth + RightWidth + |Unit|

  /** The three fields of a listed record: the date already formatted as
      text, the genre and the minutes as stored. */
  datatype Shown = Shown(date: string, genre: string, time: string)

  /** Fields no longer than their columns. */
  predicate Fits(row: Shown)
  {
    |row.date| <= LeftWidth && |row.genre| <= LeftWidth && |row.time| <= RightWidth
  }

  /** The display line of one record. */
  function ShapeLine(row: Shown): (line: string)
    ensures |line| >= LineWidth
    ensures line[|line| - |Unit|..] == Unit
  {
    LJust(row.date, LeftWidth, None) + LJust(row.genre, LeftWidth, None)
      + RJust(row.time, RightWidth, None) + Unit
  }

  /** When the fields fit, the line is exactly 43 characters, and each
      field is found in its own column: the date at column 0 followed by
      spaces up to column 15, the genre at column 15 followed by spaces up
      to column 30, the minutes ending at column 35 after spaces, and
      " minutes" last. */
  lemma ShapeLineColumns(row: Shown)
    requires Fits(row)
    ensures |ShapeLine(row)| == LineWidth == 43
    ensures ShapeLine(row)[..|row.date|] == row.date
    ensures forall i :: |row.date| <= i < 15 ==> ShapeLine(row)[i] == ' '
    ensures ShapeLine(row)[15..15 + |row.genre|] == row.genre
    ensures forall i :: 15 + |row.genre| <= i < 30 ==> ShapeLine(row)[i] == ' '
    ensures forall i :: 30 <= i < 35 - |row.time| ==> ShapeLine(row)[i] == ' '
    ensures ShapeLine(row)[35 - |row.time|..35] == row.time
    ensures ShapeLine(row)[35..] == Unit
  {
    var d, g, t := LJust(row.date, 15, None), LJust(row.genre, 15, None), RJust(row.time, 5, None);
    var line := ShapeLine(row);
    assert |d| == 15 && |g| == 15 && |t| == 5;
    assert line == d + g + t + Unit;
    assert line[..15] == d;
    assert line[15..30] == g;
    assert line[30..35] == t;
    assert line[35..] == Unit;
    assert line[..|row.date|] == d[..|row.date|];
    assert line[15..15 + |row.genre|] == g[..|row.genre|];
    assert line[35 - |row.time|..35] == t[5 - |row.time|..];
  }

  /** The `shapeRows` loop: one display line per record, in the order the
      records were given. */
  method ShapeRows(rows: seq<Shown>) returns (lines: seq<string>)
    ensures |lines| == |rows|
    ensures forall k :: 0 <= k < |rows| ==> lines[k] == ShapeLine(rows[k])
  {
    lines := [];
    for k := 0 to |rows|
      invariant |lines| == k
      invariant forall j :: 0 <= j < k ==> lines[j] == ShapeLine(rows[j])
    {
      lines := lines + [ShapeLine(rows[k])];
    }
  }
}
