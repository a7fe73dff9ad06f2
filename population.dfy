/** The county population cleaning of scripts/03_housing_and_population_cleaning.py
    (`clean_population_data`): strip the column labels, keep the rows whose area
    name mentions "County", and turn every non-null cell of a column labelled
    with digits into one long (county name, year, population) record, county by
    county and, within a county, year column by year column. */
module PopulationCleaning {
  import opened Tables
  import opened Text

  /** A sheet row: the geographic-area cell (column 0) and the cells of the
      remaining columns, in column order. */
  datatype PopulationSourceRow = PopulationSourceRow(area: Option<string>, cells: seq<Option<real>>)

  /** The sheet after `skiprows=3`: the labels of the columns after the area column,
      as read, and the rows. */
  datatype PopulationSheet = PopulationSheet(headers: seq<string>, rows: seq<PopulationSourceRow>)

  /** A row of `population_df`. */
  datatype PopulationRecord = PopulationRecord(countyName: string, year: nat, population: real)

  /** `row[year_col]` with a label that two columns share yields a Series, and
      `pd.notna` of it inside `if` raises `ValueError`. */
  datatype PopulationError = AmbiguousYearColumn(yearLabel: string)

  /** `astype(str)` of the area cell: a null cell would become "nan". */
  function AreaText(area: Option<string>): string
  {
    match area
    case Some(s) => s
    case None => "nan"
  }

  // ---------------------------------------------------------------------------
  // Column labels and county rows (lines 30-34)

  /** Line 30: every label stripped, one per column, in column order. */
  function StripHeaders(headers: seq<string>): (r: seq<string>)
    ensures |r| == |headers|
    ensures forall c :: 0 <= c < |headers| ==> r[c] == Strip(headers[c])
  {
    seq(|headers|, c requires 0 <= c < |headers| => Strip(headers[c]))
  }

  /** Stripping the labels a second time changes nothing. */
  lemma StripHeadersIdempotent(headers: seq<string>)
    ensures StripHeaders(StripHeaders(headers)) == StripHeaders(headers)
  {
    forall c | 0 <= c < |headers| ensures Strip(Strip(headers[c])) == Strip(headers[c]) {
      StripIdempotent(headers[c]);
    }
  }

  predicate IsCountyArea(row: PopulationSourceRow)
  {
    Contains(AreaText(row.area), "County")
  }

  /** Line 34-35: the rows whose area text contains "County", in order, each as
      often as it occurs; a null area never matches. */
  function CountyRows(rows: seq<PopulationSourceRow>): (r: seq<PopulationSourceRow>)
    ensures |r| <= |rows|
    ensures forall x :: x in r <==> x in rows && x.area.Some? && exists i :: OccursAt(x.area.value, "County", i)
  {
    CountyAreaIff();
    Keep(rows, IsCountyArea)
  }

  /** The area test matches exactly the non-null areas in which "County" occurs. */
  lemma CountyAreaIff()
    ensures forall x :: IsCountyArea(x) <==> x.area.Some? && exists i :: OccursAt(x.area.value, "County", i)
  {
    forall x ensures IsCountyArea(x) <==> x.area.Some? && exists i :: OccursAt(x.area.value, "County", i) {
      ContainsIff(AreaText(x.area), "County");
      if x.area.None? {
        assert !OccursAt("nan", "County", 0);
      }
    }
  }

  // ---------------------------------------------------------------------------
  // Year columns (line 47)

  /** Line 47, `year_columns`: every column labelled with digits, left to right. */
  function YearColumns(headers: seq<string>): (r: seq<nat>)
    ensures forall k :: 0 <= k < |r| ==> r[k] < |headers| && IsDigits(headers[r[k]])
    ensures forall c :: 0 <= c < |headers| && IsDigits(headers[c]) ==> c in r
    ensures forall k, l :: 0 <= k < l < |r| ==> r[k] < r[l]
  {
    Positions(headers, IsDigits)
  }

  predicate ValidColumns(headers: seq<string>, cols: seq<nat>)
  {
    forall k :: 0 <= k < |cols| ==> cols[k] < |headers| && IsDigits(headers[cols[k]])
  }

  /** Two columns share a label made of digits. */
  predicate AmbiguousYearLabel(headers: seq<string>)
  {
    exists i, j :: 0 <= i < j < |headers| && IsDigits(headers[i]) && headers[i] == headers[j]
  }

  /** A label occurs at least twice exactly when two distinct columns carry it. */
  lemma {:induction false} Repeated(headers: seq<string>, yearLabel: string)
    ensures multiset(headers)[yearLabel] >= 2 <==>
      exists i, j :: 0 <= i < j < |headers| && headers[i] == yearLabel && headers[j] == yearLabel
  {
    if |headers| > 0 {
      var front := headers[..|headers| - 1];
      Repeated(front, yearLabel);
      assert headers == front + [headers[|headers| - 1]];
      if exists i, j :: 0 <= i < j < |headers| && headers[i] == yearLabel && headers[j] == yearLabel {
        var i, j :| 0 <= i < j < |headers| && headers[i] == yearLabel && headers[j] == yearLabel;
        if j < |headers| - 1 {
          assert front[i] == yearLabel && front[j] == yearLabel;
        } else {
          assert front[i] in front;
        }
      }
      if multiset(headers)[yearLabel] >= 2 {
        if multiset(front)[yearLabel] < 2 {
          assert headers[|headers| - 1] == yearLabel;
          assert yearLabel in front;
          var i :| 0 <= i < |front| && front[i] == yearLabel;
          assert headers[i] == yearLabel;
        }
      }
    }
  }

  // ---------------------------------------------------------------------------
  // The long table (lines 50-59)

  /** The cell of column `c`; a row shorter than the header is padded with nulls. */
  function Cell(row: PopulationSourceRow, c: nat): Option<real>
  {
    if c < |row.cells| then row.cells[c] else None
  }

  /** The record one cell contributes: the county name, `int` of the column label and
      the cell value, when the cell is non-null (line 54). */
  function CellRecords(name: string, headers: seq<string>, row: PopulationSourceRow, c: nat): seq<PopulationRecord>
    requires c < |headers|
  {
    match Cell(row, c)
    case Some(v) =>
      if IsDigits(headers[c]) then [PopulationRecord(name, DigitsValue(headers[c]), v)] else []
    case None => []
  }

  /** The inner loop over the year columns of one row. */
  function RowRecords(name: string, headers: seq<string>, row: PopulationSourceRow, cols: seq<nat>): (r: seq<PopulationRecord>)
    requires ValidColumns(headers, cols)
    ensures |r| <= |cols|
  {
    if |cols| == 0 then []
    else RowRecords(name, headers, row, cols[..|cols| - 1]) + CellRecords(name, headers, row, cols[|cols| - 1])
  }

  /** The outer loop over the county rows. */
  function PopulationRecords(rows: seq<PopulationSourceRow>, headers: seq<string>, cols: seq<nat>): (r: seq<PopulationRecord>)
    requires ValidColumns(headers, cols)
  {
    if |rows| == 0 then []
    else
      var last := rows[|rows| - 1];
      PopulationRecords(rows[..|rows| - 1], headers, cols) + RowRecords(AreaText(last.area), headers, last, cols)
  }

  /** Cell `(i, cols[k])` holds `r`'s value and `r` is named after row `i` and dated
      by that column's yearLabel. */
  predicate FromCell(rows: seq<PopulationSourceRow>, headers: seq<string>, cols: seq<nat>, i: int, k: int, r: PopulationRecord)
    requires ValidColumns(headers, cols)
  {
    0 <= i < |rows| && 0 <= k < |cols|
    && Cell(rows[i], cols[k]) == Some(r.population)
    && r.countyName == AreaText(rows[i].area)
    && r.year == DigitsValue(headers[cols[k]])
  }

  predicate RowCell(name: string, headers: seq<string>, row: PopulationSourceRow, cols: seq<nat>, k: int, r: PopulationRecord)
    requires ValidColumns(headers, cols)
  {
    0 <= k < |cols| && Cell(row, cols[k]) == Some(r.population)
    && r.countyName == name && r.year == DigitsValue(headers[cols[k]])
  }

  lemma {:induction false} RowRecordsMembers(name: string, headers: seq<string>, row: PopulationSourceRow, cols: seq<nat>, r: PopulationRecord)
    requires ValidColumns(headers, cols)
    ensures r in RowRecords(name, headers, row, cols) <==> exists k :: RowCell(name, headers, row, cols, k, r)
  {
    if |cols| > 0 {
      var front := cols[..|cols| - 1];
      var c := cols[|cols| - 1];
      RowRecordsMembers(name, headers, row, front, r);
      if exists k :: RowCell(name, headers, row, cols, k, r) {
        var k :| RowCell(name, headers, row, cols, k, r);
        if k < |cols| - 1 {
          assert RowCell(name, headers, row, front, k, r);
        }
      }
      if r in RowRecords(name, headers, row, front) {
        var k :| RowCell(name, headers, row, front, k, r);
        assert RowCell(name, headers, row, cols, k, r);
      }
      if r in CellRecords(name, headers, row, c) {
        assert RowCell(name, headers, row, cols, |cols| - 1, r);
      }
    }
  }

  /** The outer loop's last step: the records of a last row follow those before it. */
  lemma PopulationRecordsSnoc(rows: seq<PopulationSourceRow>, last: PopulationSourceRow, headers: seq<string>, cols: seq<nat>)
    requires ValidColumns(headers, cols)
    ensures PopulationRecords(rows + [last], headers, cols)
      == PopulationRecords(rows, headers, cols) + RowRecords(AreaText(last.area), headers, last, cols)
  {
    assert (rows + [last])[..|rows|] == rows;
  }

  /** Every record of the long table comes from a non-null cell of a year column in a
      county row. */
  lemma {:induction false} PopulationRecordsSound(rows: seq<PopulationSourceRow>, headers: seq<string>, cols: seq<nat>, r: PopulationRecord)
    requires ValidColumns(headers, cols)
    requires r in PopulationRecords(rows, headers, cols)
    ensures exists i, k :: FromCell(rows, headers, cols, i, k, r)
  {
    var n := |rows| - 1;
    var front := rows[..n];
    var last := rows[n];
    assert rows == front + [last];
    PopulationRecordsSnoc(front, last, headers, cols);
    if r in PopulationRecords(front, headers, cols) {
      PopulationRecordsSound(front, headers, cols, r);
      var i, k :| FromCell(front, headers, cols, i, k, r);
      assert FromCell(rows, headers, cols, i, k, r);
    } else {
      RowRecordsMembers(AreaText(last.area), headers, last, cols, r);
      var k :| RowCell(AreaText(last.area), headers, last, cols, k, r);
      assert FromCell(rows, headers, cols, n, k, r);
    }
  }

  /** Every non-null cell of a year column in a county row gives a record. */
  lemma {:induction false} PopulationRecordsCover(rows: seq<PopulationSourceRow>, headers: seq<string>, cols: seq<nat>, i: int, k: int, r: PopulationRecord)
    requires ValidColumns(headers, cols)
    requires FromCell(rows, headers, cols, i, k, r)
    ensures r in PopulationRecords(rows, headers, cols)
  {
    var n := |rows| - 1;
    var front := rows[..n];
    var last := rows[n];
    assert rows == front + [last];
    PopulationRecordsSnoc(front, last, headers, cols);
    if i < n {
      assert FromCell(front, headers, cols, i, k, r);
      PopulationRecordsCover(front, headers, cols, i, k, r);
    } else {
      assert RowCell(AreaText(last.area), headers, last, cols, k, r);
      RowRecordsMembers(AreaText(last.area), headers, last, cols, r);
    }
  }

  /** A record of the long table comes from exactly one kind of place: a non-null
      cell of a year column in a county row; and every such cell gives one. */
  lemma PopulationRecordsMembers(rows: seq<PopulationSourceRow>, headers: seq<string>, cols: seq<nat>, r: PopulationRecord)
    requires ValidColumns(headers, cols)
    ensures r in PopulationRecords(rows, headers, cols) <==> exists i, k :: FromCell(rows, headers, cols, i, k, r)
  {
    if r in PopulationRecords(rows, headers, cols) {
      PopulationRecordsSound(rows, headers, cols, r);
    }
    if exists i, k :: FromCell(rows, headers, cols, i, k, r) {
      var i, k :| FromCell(rows, headers, cols, i, k, r);
      PopulationRecordsCover(rows, headers, cols, i, k, r);
    }
  }

  /** County-major order: the records of a block of rows all precede those of a later block. */
  lemma {:induction false} PopulationRecordsAppend(a: seq<PopulationSourceRow>, b: seq<PopulationSourceRow>, headers: seq<string>, cols: seq<nat>)
    requires ValidColumns(headers, cols)
    ensures PopulationRecords(a + b, headers, cols) == PopulationRecords(a, headers, cols) + PopulationRecords(b, headers, cols)
  {
    if |b| == 0 {
      assert a + b == a;
    } else {
      var b', last := b[..|b| - 1], b[|b| - 1];
      SplitLast(a, b);
      PopulationRecordsAppend(a, b', headers, cols);
      PopulationRecordsSnoc(a + b', last, headers, cols);
      PopulationRecordsSnoc(b', last, headers, cols);
    }
  }

  lemma SplitLast<T>(a: seq<T>, b: seq<T>)
    requires |b| > 0
    ensures b == b[..|b| - 1] + [b[|b| - 1]]
    ensures a + b == (a + b[..|b| - 1]) + [b[|b| - 1]]
  {
  }

  /** A row whose year cells are all non-null gives one record per year column, in column order. */
  lemma {:induction false} RowRecordsComplete(name: string, headers: seq<string>, row: PopulationSourceRow, cols: seq<nat>)
    requires ValidColumns(headers, cols)
    requires forall k :: 0 <= k < |cols| ==> Cell(row, cols[k]).Some?
    ensures |RowRecords(name, headers, row, cols)| == |cols|
    ensures forall k :: 0 <= k < |cols| ==>
      RowRecords(name, headers, row, cols)[k]
        == PopulationRecord(name, DigitsValue(headers[cols[k]]), Cell(row, cols[k]).value)
  {
    if |cols| > 0 {
      RowRecordsComplete(name, headers, row, cols[..|cols| - 1]);
    }
  }

  /** With no missing cell the long table has exactly one record per county and year column. */
  lemma {:induction false} PopulationRecordsComplete(rows: seq<PopulationSourceRow>, headers: seq<string>, cols: seq<nat>)
    requires ValidColumns(headers, cols)
    requires forall i, k :: 0 <= i < |rows| && 0 <= k < |cols| ==> Cell(rows[i], cols[k]).Some?
    ensures |PopulationRecords(rows, headers, cols)| == |rows| * |cols|
  {
    if |rows| > 0 {
      var last := rows[|rows| - 1];
      PopulationRecordsComplete(rows[..|rows| - 1], headers, cols);
      RowRecordsComplete(AreaText(last.area), headers, last, cols);
      assert (|rows| - 1) * |cols| + |cols| == |rows| * |cols|;
    }
  }

  /** The cells of one row under the year columns, in column order. */
  function YearCells(row: PopulationSourceRow, cols: seq<nat>): (r: seq<Option<real>>)
    ensures |r| == |cols|
  {
    seq(|cols|, k requires 0 <= k < |cols| => Cell(row, cols[k]))
  }

  /** The year cells of every county row, row by row. */
  function TableCells(rows: seq<PopulationSourceRow>, cols: seq<nat>): (r: seq<seq<Option<real>>>)
    ensures |r| == |rows|
  {
    seq(|rows|, i requires 0 <= i < |rows| => YearCells(rows[i], cols))
  }

  lemma YearCellsSnoc(row: PopulationSourceRow, cols: seq<nat>)
    requires |cols| > 0
    ensures YearCells(row, cols) == YearCells(row, cols[..|cols| - 1]) + [Cell(row, cols[|cols| - 1])]
  {
  }

  lemma TableCellsSnoc(rows: seq<PopulationSourceRow>, cols: seq<nat>)
    requires |rows| > 0
    ensures TableCells(rows, cols) == TableCells(rows[..|rows| - 1], cols) + [YearCells(rows[|rows| - 1], cols)]
  {
  }

  /** A row gives exactly one record per non-null year cell. */
  lemma {:induction false} RowRecordsCount(name: string, headers: seq<string>, row: PopulationSourceRow, cols: seq<nat>)
    requires ValidColumns(headers, cols)
    ensures |RowRecords(name, headers, row, cols)| == CountPresent(YearCells(row, cols))
  {
    if |cols| > 0 {
      var front := cols[..|cols| - 1];
      var c := cols[|cols| - 1];
      ValidColumnsFront(headers, cols);
      RowRecordsCount(name, headers, row, front);
      YearCellsSnoc(row, cols);
      CountPresentAppend(YearCells(row, front), [Cell(row, c)]);
      assert [Cell(row, c)][1..] == [];
      assert IsDigits(headers[c]);
    }
  }

  /** The year columns whose cell in `row` is non-null. */
  function NonNullIn(row: PopulationSourceRow): nat -> bool
  {
    (c: nat) => Cell(row, c).Some?
  }

  lemma ValidColumnsFront(headers: seq<string>, cols: seq<nat>)
    requires ValidColumns(headers, cols) && |cols| > 0
    ensures ValidColumns(headers, cols[..|cols| - 1])
  {
    forall k | 0 <= k < |cols| - 1 ensures cols[..|cols| - 1][k] == cols[k] { }
  }

  /** Record `k` of `r` is the record of column `present[k]`, whose cell is non-null. */
  predicate RecordsFollow(name: string, headers: seq<string>, row: PopulationSourceRow, present: seq<nat>, r: seq<PopulationRecord>)
  {
    ValidColumns(headers, present) && |r| == |present|
    && forall k :: 0 <= k < |present| ==>
      Cell(row, present[k]).Some?
      && r[k] == PopulationRecord(name, DigitsValue(headers[present[k]]), Cell(row, present[k]).value)
  }

  lemma RecordsFollowSnoc(name: string, headers: seq<string>, row: PopulationSourceRow, present: seq<nat>, r: seq<PopulationRecord>, c: nat)
    requires RecordsFollow(name, headers, row, present, r)
    requires c < |headers| && IsDigits(headers[c]) && Cell(row, c).Some?
    ensures RecordsFollow(name, headers, row, present + [c],
      r + [PopulationRecord(name, DigitsValue(headers[c]), Cell(row, c).value)])
  {
    var present' := present + [c];
    var r' := r + [PopulationRecord(name, DigitsValue(headers[c]), Cell(row, c).value)];
    forall k | 0 <= k < |present'| ensures present'[k] < |headers| && IsDigits(headers[present'[k]]) {
      if k < |present| {
        assert present'[k] == present[k];
      }
    }
    forall k | 0 <= k < |present'|
      ensures Cell(row, present'[k]).Some?
        && r'[k] == PopulationRecord(name, DigitsValue(headers[present'[k]]), Cell(row, present'[k]).value)
    {
      if k < |present| {
        assert present'[k] == present[k] && r'[k] == r[k];
      }
    }
  }

  /** The records of a row follow its year columns left to right, null cells skipped:
      record `k` comes from the `k`-th year column with a non-null cell. */
  lemma {:induction false} RowRecordsInColumnOrder(name: string, headers: seq<string>, row: PopulationSourceRow, cols: seq<nat>)
    requires ValidColumns(headers, cols)
    ensures RecordsFollow(name, headers, row, Keep(cols, NonNullIn(row)), RowRecords(name, headers, row, cols))
  {
    if |cols| == 0 {
      assert Keep(cols, NonNullIn(row)) == [];
    } else {
      var front := cols[..|cols| - 1];
      var c := cols[|cols| - 1];
      ValidColumnsFront(headers, cols);
      RowRecordsInColumnOrder(name, headers, row, front);
      var presentFront := Keep(front, NonNullIn(row));
      var rFront := RowRecords(name, headers, row, front);
      assert cols == front + [c];
      KeepAppend(front, [c], NonNullIn(row));
      KeepSingleton(c, NonNullIn(row));
      assert IsDigits(headers[c]);
      CellRecordsOf(name, headers, row, c);
      assert RowRecords(name, headers, row, cols) == rFront + CellRecords(name, headers, row, c);
      if Cell(row, c).Some? {
        RecordsFollowSnoc(name, headers, row, presentFront, rFront, c);
      } else {
        assert Keep(cols, NonNullIn(row)) == presentFront;
      }
    }
  }

  /** The record a non-null year cell contributes; a null cell contributes none. */
  lemma CellRecordsOf(name: string, headers: seq<string>, row: PopulationSourceRow, c: nat)
    requires c < |headers| && IsDigits(headers[c])
    ensures CellRecords(name, headers, row, c)
      == if Cell(row, c).Some? then [PopulationRecord(name, DigitsValue(headers[c]), Cell(row, c).value)] else []
  {
  }

  /** The long table has exactly one record per non-null year cell of the county rows. */
  lemma {:induction false} PopulationRecordsCount(rows: seq<PopulationSourceRow>, headers: seq<string>, cols: seq<nat>)
    requires ValidColumns(headers, cols)
    ensures |PopulationRecords(rows, headers, cols)| == CountPresent(Flatten(TableCells(rows, cols)))
  {
    if |rows| > 0 {
      var front := rows[..|rows| - 1];
      var last := rows[|rows| - 1];
      PopulationRecordsCount(front, headers, cols);
      RowRecordsCount(AreaText(last.area), headers, last, cols);
      TableCellsSnoc(rows, cols);
      assert PopulationRecords(rows, headers, cols)
        == PopulationRecords(front, headers, cols) + RowRecords(AreaText(last.area), headers, last, cols);
      FlattenSnoc(TableCells(front, cols), YearCells(last, cols));
      CountPresentAppend(Flatten(TableCells(front, cols)), YearCells(last, cols));
    }
  }

  // ---------------------------------------------------------------------------
  // The whole function

  /** One more step of the inner loop adds the records of one more year column. */
  lemma RowRecordsPrefix(name: string, headers: seq<string>, row: PopulationSourceRow, cols: seq<nat>, k: nat)
    requires ValidColumns(headers, cols) && k < |cols|
    ensures ValidColumns(headers, cols[..k]) && ValidColumns(headers, cols[..k + 1])
    ensures RowRecords(name, headers, row, cols[..k + 1])
      == RowRecords(name, headers, row, cols[..k]) + CellRecords(name, headers, row, cols[k])
  {
    assert cols[..k + 1][..k] == cols[..k];
  }

  /** Some year column's label is carried by another column too. */
  predicate RepeatedYearColumn(headers: seq<string>, cols: seq<nat>)
    requires ValidColumns(headers, cols)
  {
    exists k :: 0 <= k < |cols| && multiset(headers)[headers[cols[k]]] >= 2
  }

  /** The inner loop's check, one more year column at a time; a shared label stops it. */
  lemma RepeatedPrefix(headers: seq<string>, cols: seq<nat>, k: nat)
    requires ValidColumns(headers, cols) && k < |cols|
    ensures ValidColumns(headers, cols[..k]) && ValidColumns(headers, cols[..k + 1])
    ensures RepeatedYearColumn(headers, cols[..k + 1])
      <==> RepeatedYearColumn(headers, cols[..k]) || multiset(headers)[headers[cols[k]]] >= 2
    ensures multiset(headers)[headers[cols[k]]] >= 2 ==> RepeatedYearColumn(headers, cols)
  {
    var front, next := cols[..k], cols[..k + 1];
    assert next[k] == cols[k];
    if RepeatedYearColumn(headers, next) {
      var j :| 0 <= j < |next| && multiset(headers)[headers[next[j]]] >= 2;
      if j < k {
        assert front[j] == next[j];
      }
    }
    if RepeatedYearColumn(headers, front) {
      var j :| 0 <= j < |front| && multiset(headers)[headers[front[j]]] >= 2;
      assert next[j] == front[j];
    }
  }

  /** Lines 53-59, the inner loop for one county row: the row's records, year column
      by year column, or the error of the first year column whose label is shared. */
  method ReshapeRow(countyName: string, headers: seq<string>, row: PopulationSourceRow, yearColumns: seq<nat>)
    returns (result: Result<seq<PopulationRecord>, PopulationError>)
    requires ValidColumns(headers, yearColumns)
    ensures result.Failure? <==> RepeatedYearColumn(headers, yearColumns)
    ensures result.Failure? ==>
      exists k :: 0 <= k < |yearColumns| && headers[yearColumns[k]] == result.error.yearLabel
        && multiset(headers)[result.error.yearLabel] >= 2
    ensures result.Success? ==> result.value == RowRecords(countyName, headers, row, yearColumns)
  {
    var rowData: seq<PopulationRecord> := [];
    var k := 0;
    while k < |yearColumns|
      invariant 0 <= k <= |yearColumns|
      invariant rowData == RowRecords(countyName, headers, row, yearColumns[..k])
      invariant !RepeatedYearColumn(headers, yearColumns[..k])
    {
      var yearCol := yearColumns[k];
      var yearLabel := headers[yearCol];
      RepeatedPrefix(headers, yearColumns, k);
      if multiset(headers)[yearLabel] >= 2 {
        result := Failure(AmbiguousYearColumn(yearLabel));
        return;
      }
      var value := Cell(row, yearCol);
      if value.Some? && IsDigits(yearLabel) {
        rowData := rowData + [PopulationRecord(countyName, DigitsValue(yearLabel), value.value)];
      }
      RowRecordsPrefix(countyName, headers, row, yearColumns, k);
      k := k + 1;
    }
    assert yearColumns[..k] == yearColumns;
    result := Success(rowData);
  }

  /** Lines 50-59: the outer loop over the county rows. A shared year label raises in
      the first county row; with no county row nothing is looked up. */
  method ReshapeCounties(countyDf: seq<PopulationSourceRow>, headers: seq<string>, yearColumns: seq<nat>)
    returns (result: Result<seq<PopulationRecord>, PopulationError>)
    requires ValidColumns(headers, yearColumns)
    ensures result.Failure? <==> |countyDf| > 0 && RepeatedYearColumn(headers, yearColumns)
    ensures result.Failure? ==>
      exists k :: 0 <= k < |yearColumns| && headers[yearColumns[k]] == result.error.yearLabel
        && multiset(headers)[result.error.yearLabel] >= 2
    ensures result.Success? ==> result.value == PopulationRecords(countyDf, headers, yearColumns)
  {
    var populationData: seq<PopulationRecord> := [];
    var i := 0;
    while i < |countyDf|
      invariant 0 <= i <= |countyDf|
      invariant populationData == PopulationRecords(countyDf[..i], headers, yearColumns)
      invariant i > 0 ==> !RepeatedYearColumn(headers, yearColumns)
    {
      var row := countyDf[i];
      var rowData := ReshapeRow(AreaText(row.area), headers, row, yearColumns);
      if rowData.Failure? {
        return rowData;
      }
      assert countyDf[..i + 1][..i] == countyDf[..i];
      populationData := populationData + rowData.value;
      i := i + 1;
    }
    assert countyDf[..i] == countyDf;
    result := Success(populationData);
  }

  /** `clean_population_data`: the records of the county rows, or the error the first
      county row raises when a year label is shared by two columns. */
  method CleanPopulationData(sheet: PopulationSheet) returns (result: Result<seq<PopulationRecord>, PopulationError>)
    ensures var headers := StripHeaders(sheet.headers);
      result.Failure? <==> |CountyRows(sheet.rows)| > 0 && AmbiguousYearLabel(headers)
    ensures var headers := StripHeaders(sheet.headers);
      result.Failure? ==> IsDigits(result.error.yearLabel) && multiset(headers)[result.error.yearLabel] >= 2
    ensures var headers := StripHeaders(sheet.headers);
      result.Success? ==> result.value == PopulationRecords(CountyRows(sheet.rows), headers, YearColumns(headers))
  {
    var headers := StripHeaders(sheet.headers);
    var countyDf := CountyRows(sheet.rows);
    var yearColumns := YearColumns(headers);
    AmbiguousIff(headers);
    result := ReshapeCounties(countyDf, headers, yearColumns);
  }

  /** Some year column's label is repeated exactly when two columns share a digit label. */
  lemma AmbiguousIff(headers: seq<string>)
    ensures RepeatedYearColumn(headers, YearColumns(headers)) <==> AmbiguousYearLabel(headers)
  {
    var cols := YearColumns(headers);
    if RepeatedYearColumn(headers, cols) {
      var k :| 0 <= k < |cols| && multiset(headers)[headers[cols[k]]] >= 2;
      var yearLabel := headers[cols[k]];
      Repeated(headers, yearLabel);
      var i, j :| 0 <= i < j < |headers| && headers[i] == yearLabel && headers[j] == yearLabel;
      assert IsDigits(headers[i]);
    }
    if AmbiguousYearLabel(headers) {
      var i, j :| 0 <= i < j < |headers| && IsDigits(headers[i]) && headers[i] == headers[j];
      assert i in cols;
      var k :| 0 <= k < |cols| && cols[k] == i;
      Repeated(headers, headers[i]);
    }
  }
}
