/** The table `rowToGrid` builds, shared by all three revisions: one row per
    named line (a project and task, or a task alone) with one cell per day of the
    date range, first filled with the number 0 and then overwritten by the
    rounded hours of the entries, read in date order; and the src/index.js
    row of column totals. */
module Grid {
  import opened Wrappers
  import opened Duration
  import opened Calendar
  import opened Seqs

  /** A cell of the table: the number 0 a new row starts with, or a rounded-hours text. */
  datatype Cell = Zero | Text(s: string)

  /** A row object once `_.values` has read it: the naming columns, then one
      cell per day of the range, in header order. */
  datatype GridRow<L> = GridRow(name: L, cells: seq<Cell>)

  /** What `rowToGrid` returns: the header row, one row per name, and (in
      src/index.js only) the row of column totals. */
  datatype Table<L> = Table(header: seq<string>, body: seq<GridRow<L>>, totals: Option<seq<string>>)

  /** `_.values` of a row: its name columns, then its cells. */
  function Names<L>(rows: seq<GridRow<L>>): (ns: seq<L>)
    ensures |ns| == |rows|
  {
    seq(|rows|, i requires 0 <= i < |rows| => rows[i].name)
  }

  /** One entry as the write loop reads it: the row it belongs to, its day and its rounded text. */
  datatype Mark<L> = Mark(name: L, date: Date, text: string)

  /** A new row: every day cell holds 0. */
  function ZeroRow<L>(name: L, width: nat): GridRow<L> {
    GridRow(name, seq(width, _ => Zero))
  }

  /** `newRow = {}; columnHeaders.forEach(item => newRow[item] = 0)` and the
      name overwrite, for a range of `width` days. */
  method NewRow<L>(name: L, width: nat) returns (row: GridRow<L>)
    ensures row.name == name && |row.cells| == width
    ensures forall j :: 0 <= j < width ==> row.cells[j] == Zero
  {
    var cells: seq<Cell> := [];
    for j := 0 to width
      invariant |cells| == j && forall k :: 0 <= k < j ==> cells[k] == Zero
    {
      cells := cells + [Zero];
    }
    row := GridRow(name, cells);
  }

  /** One new row per name, in order. */
  function ZeroRows<L>(labels: seq<L>, width: nat): (rows: seq<GridRow<L>>)
    ensures |rows| == |labels|
  {
    seq(|labels|, i requires 0 <= i < |labels| => ZeroRow(labels[i], width))
  }

  /** The `forEach` that pushes a new row for each name onto `output`. */
  method PushZeroRows<L>(output: seq<GridRow<L>>, labels: seq<L>, width: nat) returns (result: seq<GridRow<L>>)
    ensures result == output + ZeroRows(labels, width)
  {
    result := output;
    for j := 0 to |labels|
      invariant result == output + ZeroRows(labels[..j], width)
    {
      var row := NewRow(labels[j], width);
      assert row == ZeroRow(labels[j], width);
      assert ZeroRows(labels[..j + 1], width) == ZeroRows(labels[..j], width) + [row];
      result := result + [row];
    }
    assert labels[..|labels|] == labels;
  }

  /** `inner[outer.date] = outer.text` when the row's name is the entry's:
      the cell of the entry's day takes the entry's text. */
  function WriteRow<L(==)>(row: GridRow<L>, m: Mark<L>, range: seq<Date>): GridRow<L> {
    if row.name == m.name then
      GridRow(row.name, seq(|row.cells|, j requires 0 <= j < |row.cells| =>
                               if j < |range| && range[j] == m.date then Text(m.text) else row.cells[j]))
    else row
  }

  /** `output = _.map(output, inner => ...)` for one entry. */
  function WriteAll<L(==)>(rows: seq<GridRow<L>>, m: Mark<L>, range: seq<Date>): (out: seq<GridRow<L>>)
    ensures |out| == |rows|
  {
    seq(|rows|, i requires 0 <= i < |rows| => WriteRow(rows[i], m, range))
  }

  /** The rows once the entries `ms` have been written one after the other. */
  function Stamp<L(==)>(rows: seq<GridRow<L>>, ms: seq<Mark<L>>, range: seq<Date>): (out: seq<GridRow<L>>)
    ensures |out| == |rows|
  {
    if ms == [] then rows else WriteAll(Stamp(rows, ms[..|ms| - 1], range), ms[|ms| - 1], range)
  }

  /** `sortedRows.forEach(outer => output = _.map(output, ...))`. */
  method ApplyWrites<L(==)>(rows: seq<GridRow<L>>, ms: seq<Mark<L>>, range: seq<Date>) returns (output: seq<GridRow<L>>)
    ensures output == Stamp(rows, ms, range)
  {
    output := rows;
    for j := 0 to |ms|
      invariant output == Stamp(rows, ms[..j], range)
    {
      assert ms[..j + 1][..j] == ms[..j];
      output := WriteAll(output, ms[j], range);
    }
    assert ms[..|ms|] == ms;
  }

  /** The text of the last entry written with this name and day. */
  function LastMark<L(==)>(ms: seq<Mark<L>>, name: L, d: Date): Option<string> {
    if ms == [] then None
    else if ms[|ms| - 1].name == name && ms[|ms| - 1].date == d then Some(ms[|ms| - 1].text)
    else LastMark(ms[..|ms| - 1], name, d)
  }

  /** Writing keeps every row's name and width. */
  lemma {:induction false} StampRow<L>(rows: seq<GridRow<L>>, ms: seq<Mark<L>>, range: seq<Date>, i: nat)
    requires i < |rows|
    ensures Stamp(rows, ms, range)[i].name == rows[i].name
    ensures |Stamp(rows, ms, range)[i].cells| == |rows[i].cells|
    decreases |ms|
  {
    if ms != [] {
      StampRow(rows, ms[..|ms| - 1], range, i);
    }
  }

  /** Each cell ends with the text of the last entry for its row and day, or
      keeps what it held. */
  lemma {:induction false} StampCell<L>(rows: seq<GridRow<L>>, ms: seq<Mark<L>>, range: seq<Date>, i: nat, j: nat)
    requires i < |rows| && j < |rows[i].cells| && j < |range|
    ensures var out := Stamp(rows, ms, range);
            && |out[i].cells| == |rows[i].cells|
            && out[i].cells[j] == match LastMark(ms, rows[i].name, range[j])
                                  case Some(t) => Text(t)
                                  case None => rows[i].cells[j]
    decreases |ms|
  {
    StampRow(rows, ms, range, i);
    if ms != [] {
      StampCell(rows, ms[..|ms| - 1], range, i, j);
      StampRow(rows, ms[..|ms| - 1], range, i);
    }
  }

  /** No row of `rows` carries the name `l`. */
  predicate Untouched<L(==)>(rows: seq<GridRow<L>>, l: L) {
    forall i :: 0 <= i < |rows| ==> rows[i].name != l
  }

  /** Entries written for other labels leave rows alone: rows in front of the
      written ones stay as they are. */
  lemma {:induction false} StampAppend<L>(a: seq<GridRow<L>>, z: seq<GridRow<L>>, ms: seq<Mark<L>>, range: seq<Date>)
    requires forall k :: 0 <= k < |ms| ==> Untouched(a, ms[k].name)
    ensures Stamp(a + z, ms, range) == a + Stamp(z, ms, range)
    decreases |ms|
  {
    if ms != [] {
      var init := ms[..|ms| - 1];
      var m := ms[|ms| - 1];
      assert Untouched(a, m.name);
      assert forall k :: 0 <= k < |init| ==> init[k] == ms[k];
      StampAppend(a, z, init, range);
      var s := Stamp(z, init, range);
      assert forall i :: 0 <= i < |a| ==> WriteRow(a[i], m, range) == a[i];
      assert WriteAll(a + s, m, range) == a + WriteAll(s, m, range);
    }
  }

  // ---------------------------------------------------------------------
  // The src/index.js row of column totals

  /** `parseFloat(cell.toString().replace(',', '.'))` as hundredths: 0 for an
      unwritten cell, and the rounded text read back otherwise. */
  function CellHours(c: Cell): Hours {
    match c
    case Zero => Hundredths(0)
    case Text(s) => ParseHours(s)
  }

  /** Every row has a cell in column `j`. */
  predicate HasColumn<L>(rows: seq<GridRow<L>>, j: nat) {
    forall i :: 0 <= i < |rows| ==> j < |rows[i].cells|
  }

  /** `_.reduce(_.pluck(newOutput, j), (one, two) => ... + ..., 0)`: the
      column's cells added up from 0, top to bottom. */
  function ColumnSum<L>(rows: seq<GridRow<L>>, j: nat): Hours
    requires HasColumn(rows, j)
  {
    if rows == [] then Hundredths(0)
    else Add(ColumnSum(rows[..|rows| - 1], j), CellHours(rows[|rows| - 1].cells[j]))
  }

  /** The src/index.js row of totals: two empty texts under the name
      columns, then each day column's sum printed with a comma. */
  function TotalsRow<L>(rows: seq<GridRow<L>>, width: nat): (t: seq<string>)
    requires forall i :: 0 <= i < |rows| ==> |rows[i].cells| == width
    ensures |t| == width + 2 && t[0] == "" && t[1] == ""
  {
    ["", ""] + seq(width, j requires 0 <= j < width => WidthHasColumn(rows, width, j); StringHours(ColumnSum(rows, j)))
  }

  /** Each day's total is the column's sum of cells in comma-decimal text. */
  lemma TotalsRowColumn<L>(rows: seq<GridRow<L>>, width: nat, j: nat)
    requires forall i :: 0 <= i < |rows| ==> |rows[i].cells| == width
    requires j < width
    ensures HasColumn(rows, j) && TotalsRow(rows, width)[j + 2] == StringHours(ColumnSum(rows, j))
  {
  }

  /** The `_.forEach(range, (header, index) => ...)` of src/index.js: `range`
      is the header itself after the `unshift`, so `index` runs over the two
      name columns and the days, and only the days (`index > 1`) get a total;
      each is printed with `.` turned into `,`, which is `stringHours`. */
  method ColumnTotals<L>(rows: seq<GridRow<L>>, width: nat) returns (totals: seq<string>)
    requires forall i :: 0 <= i < |rows| ==> |rows[i].cells| == width
    ensures totals == TotalsRow(rows, width)
  {
    totals := ["", ""];
    for index := 0 to width + 2
      invariant totals == TotalsRow(rows, width)[..if index > 2 then index else 2]
    {
      if index > 1 {
        WidthHasColumn(rows, width, index - 2);
        totals := totals + [StringHours(ColumnSum(rows, index - 2))];
      }
    }
  }

  lemma WidthHasColumn<L>(rows: seq<GridRow<L>>, width: nat, j: nat)
    requires forall i :: 0 <= i < |rows| ==> |rows[i].cells| == width
    requires j < width
    ensures HasColumn(rows, j)
  {
  }

  /** A total is NaN exactly when some cell of its column reads as NaN. */
  lemma {:induction false} ColumnSumNaN<L>(rows: seq<GridRow<L>>, j: nat)
    requires HasColumn(rows, j)
    ensures ColumnSum(rows, j).NaN? <==> exists i :: 0 <= i < |rows| && CellHours(rows[i].cells[j]).NaN?
    decreases |rows|
  {
    if rows != [] {
      var init := rows[..|rows| - 1];
      ColumnSumNaN(init, j);
      assert forall i :: 0 <= i < |init| ==> init[i] == rows[i];
    }
  }

  /** Every cell of column `j` reads as NaN or as a whole number of quarter hours. */
  predicate QuarterColumn<L>(rows: seq<GridRow<L>>, j: nat)
    requires HasColumn(rows, j)
  {
    forall i :: 0 <= i < |rows| ==> CellHours(rows[i].cells[j]).Hundredths? ==> CellHours(rows[i].cells[j]).n % 25 == 0
  }

  /** A column of quarter hours adds up to quarter hours. */
  lemma {:induction false} ColumnSumQuarters<L>(rows: seq<GridRow<L>>, j: nat)
    requires HasColumn(rows, j) && QuarterColumn(rows, j)
    ensures ColumnSum(rows, j).Hundredths? ==> ColumnSum(rows, j).n % 25 == 0
    decreases |rows|
  {
    if rows != [] {
      var init := rows[..|rows| - 1];
      assert forall i :: 0 <= i < |init| ==> init[i] == rows[i];
      assert HasColumn(init, j) && QuarterColumn(init, j);
      ColumnSumQuarters(init, j);
      QuartersAdd(ColumnSum(init, j), CellHours(rows[|rows| - 1].cells[j]));
    }
  }

  lemma QuartersAdd(a: Hours, b: Hours)
    requires a.Hundredths? ==> a.n % 25 == 0
    requires b.Hundredths? ==> b.n % 25 == 0
    ensures Add(a, b).Hundredths? ==> Add(a, b).n % 25 == 0
  {
    if a.Hundredths? && b.Hundredths? {
      assert a.n == 25 * (a.n / 25) && b.n == 25 * (b.n / 25);
      assert a.n + b.n == 25 * (a.n / 25 + b.n / 25);
    }
  }
}
