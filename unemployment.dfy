/** The unemployment/income workbook cleaning of scripts/02_data_cleaning.py
    (`clean_unemployment_data`): drop rows without a FIPS code, zero-pad the
    code to five characters, keep county rows only, project the county master
    table, reshape the per-year unemployment columns into long rows and
    left-join the 2022 median household income onto every year. */
module UnemploymentCleaning {
  import opened Tables
  import opened Text

  /** `range(2000, 2024)`: the years whose unemployment columns are read. */
  const FirstYear: int := 2000
  const EndYear: int := 2024

  /** The width passed to `zfill`. */
  const FipsWidth: nat := 5

  /** One row of the "Unemployment Med HH Income" sheet. The `Unemployment_rate_<year>`
      cells are a map from year to cell; a year missing from a row's map is an empty cell. */
  datatype SourceRow = SourceRow(
    fipsCode: Option<string>,
    state: string,
    areaName: string,
    ruralUrbanCode: Option<real>,
    urbanInfluenceCode: Option<real>,
    metro: Option<real>,
    unemploymentRate: map<int, Option<real>>,
    medianIncome2022: Option<real>)

  /** The sheet: the years that have an `Unemployment_rate_<year>` column, and the rows. */
  datatype UnemploymentSheet = UnemploymentSheet(rateYears: set<int>, rows: seq<SourceRow>)

  /** A row of the `counties` table (columns renamed positionally, lines 41-47). */
  datatype CountyRecord = CountyRecord(
    fipsCode: string,
    state: string,
    countyName: string,
    ruralUrbanCode: Option<real>,
    urbanInfluenceCode: Option<real>,
    metroStatus: Option<real>)

  /** A row of one year's frame, after the null-rate drop. */
  datatype EconomicRow = EconomicRow(fipsCode: string, unemploymentRate: real, year: int)

  /** A row of `income_data` (line 68-70). */
  datatype IncomeRow = IncomeRow(fipsCode: string, income: real)

  /** A row of the `economic_annual` table. */
  datatype EconomicFact = EconomicFact(
    fipsCode: string, unemploymentRate: real, year: int, medianHouseholdIncome2022: Option<real>)

  /** Selecting a column the sheet does not have raises `KeyError`. */
  datatype CleaningError = MissingRateColumn(year: int)

  // ---------------------------------------------------------------------------
  // The county universe (lines 29-36)

  /** `astype(str)`: a code as text; a null cell would become "nan". */
  function FipsText(c: Option<string>): string
  {
    match c
    case Some(s) => s
    case None => "nan"
  }

  predicate HasFips(row: SourceRow) { row.fipsCode.Some? }

  /** Line 29: rows whose FIPS cell is null are removed; every other row survives,
      as often as it occurs, in its original order (Tables.KeepAppend). */
  function DropNullFips(rows: seq<SourceRow>): (r: seq<SourceRow>)
    ensures forall x :: x in r <==> x in rows && x.fipsCode.Some?
    ensures forall x: SourceRow :: x.fipsCode.Some? ==> multiset(r)[x] == multiset(rows)[x]
  {
    KeepCount(rows, HasFips);
    Keep(rows, HasFips)
  }

  function PadRow(row: SourceRow): SourceRow
  {
    row.(fipsCode := Some(ZFill(FipsText(row.fipsCode), FipsWidth)))
  }

  /** Line 32: the FIPS column is replaced by its zero-padded text; one row per
      row, in order, and no other column changes. */
  function PadFips(rows: seq<SourceRow>): (r: seq<SourceRow>)
    ensures |r| == |rows|
    ensures forall i :: 0 <= i < |rows| ==> r[i].(fipsCode := rows[i].fipsCode) == rows[i]
    ensures forall i :: 0 <= i < |rows| ==>
      r[i].fipsCode.Some? && |r[i].fipsCode.value| >= FipsWidth
    ensures forall i :: 0 <= i < |rows| && rows[i].fipsCode.Some? && |rows[i].fipsCode.value| >= FipsWidth ==>
      r[i] == rows[i]
  {
    seq(|rows|, i requires 0 <= i < |rows| => PadRow(rows[i]))
  }

  /** Re-padding padded rows changes nothing. */
  lemma PadFipsIdempotent(rows: seq<SourceRow>)
    ensures PadFips(PadFips(rows)) == PadFips(rows)
  {
    var once := PadFips(rows);
    assert forall i :: 0 <= i < |rows| ==> PadRow(once[i]) == once[i];
  }

  /** State codes end in "000"; county codes do not. */
  predicate IsCountyCode(code: string) { !EndsWith(code, "000") }

  predicate IsCountyRow(row: SourceRow) { IsCountyCode(FipsText(row.fipsCode)) }

  /** Line 36: exactly the rows whose code does not end in "000" are kept,
      in their original order (Tables.KeepAppend). */
  function CountyFilter(rows: seq<SourceRow>): (r: seq<SourceRow>)
    ensures forall x :: x in r ==> !EndsWith(FipsText(x.fipsCode), "000")
    ensures forall x :: x in rows && !EndsWith(FipsText(x.fipsCode), "000") ==> x in r
    ensures forall x :: IsCountyRow(x) ==> multiset(r)[x] == multiset(rows)[x]
  {
    KeepCount(rows, IsCountyRow);
    Keep(rows, IsCountyRow)
  }

  /** Lines 29-36 together: the frame `df` after the county filter. */
  function CountyRows(rows: seq<SourceRow>): seq<SourceRow>
  {
    CountyFilter(PadFips(DropNullFips(rows)))
  }

  /** Every county row carries a padded code of at least five characters that
      does not end in "000". */
  lemma CountyRowsPadded(rows: seq<SourceRow>)
    ensures forall x :: x in CountyRows(rows) ==>
      x.fipsCode.Some? && |x.fipsCode.value| >= FipsWidth && !EndsWith(x.fipsCode.value, "000")
  {
    var p := PadFips(DropNullFips(rows));
    forall x | x in CountyRows(rows)
      ensures x.fipsCode.Some? && |x.fipsCode.value| >= FipsWidth
    {
      assert x in p;
      var i :| 0 <= i < |p| && p[i] == x;
    }
  }

  /** A code that keeps a county once padded. */
  predicate PadsToCounty(row: SourceRow)
  {
    row.fipsCode.Some? && IsCountyCode(ZFill(row.fipsCode.value, FipsWidth))
  }

  /** Every source row with a code whose padding does not end in "000" contributes
      its padded row. */
  lemma CountyRowsComplete(rows: seq<SourceRow>)
    ensures forall row :: row in rows && PadsToCounty(row) ==> PadRow(row) in CountyRows(rows)
  {
    var d := DropNullFips(rows);
    var p := PadFips(d);
    forall row | row in rows && PadsToCounty(row)
      ensures PadRow(row) in CountyRows(rows)
    {
      assert row in d;
      var i :| 0 <= i < |d| && d[i] == row;
      assert p[i] == PadRow(row);
      assert IsCountyRow(p[i]);
    }
  }

  // ---------------------------------------------------------------------------
  // The counties table (lines 41-47)

  function ToCounty(row: SourceRow): CountyRecord
  {
    CountyRecord(FipsText(row.fipsCode), row.state, row.areaName,
                 row.ruralUrbanCode, row.urbanInfluenceCode, row.metro)
  }

  /** One county record per filtered row, in order; the six selected columns keep their values. */
  function ProjectCounties(rows: seq<SourceRow>): (r: seq<CountyRecord>)
    ensures |r| == |rows|
    ensures forall i :: 0 <= i < |rows| ==> r[i] == ToCounty(rows[i])
  {
    seq(|rows|, i requires 0 <= i < |rows| => ToCounty(rows[i]))
  }

  /** The county master invariant: every code is at least five characters, does not
      end in "000", and a code that had at most five characters is exactly five long. */
  lemma CountyTableInvariant(rows: seq<SourceRow>)
    ensures forall c :: c in ProjectCounties(CountyRows(rows)) ==>
      |c.fipsCode| >= FipsWidth && !EndsWith(c.fipsCode, "000")
    ensures (forall row :: row in rows && row.fipsCode.Some? ==> |row.fipsCode.value| <= FipsWidth) ==>
      forall c :: c in ProjectCounties(CountyRows(rows)) ==> |c.fipsCode| == FipsWidth
  {
    CountyRowsPadded(rows);
    var f := CountyRows(rows);
    var counties := ProjectCounties(f);
    forall c | c in counties
      ensures |c.fipsCode| >= FipsWidth && !EndsWith(c.fipsCode, "000")
    {
      var i :| 0 <= i < |counties| && counties[i] == c;
      assert f[i] in f;
    }
    if forall row :: row in rows && row.fipsCode.Some? ==> |row.fipsCode.value| <= FipsWidth {
      forall c | c in counties ensures |c.fipsCode| == FipsWidth {
        var i :| 0 <= i < |counties| && counties[i] == c;
        assert f[i] in f;
        CountyRowPadded(rows, f[i]);
      }
    }
  }

  /** A county row is the padding of a source row with a code. */
  lemma CountyRowPadded(rows: seq<SourceRow>, x: SourceRow)
    requires x in CountyRows(rows)
    ensures exists row :: row in rows && row.fipsCode.Some? && x == PadRow(row)
  {
    var d := DropNullFips(rows);
    var p := PadFips(d);
    assert x in p;
    var i :| 0 <= i < |p| && p[i] == x;
    assert d[i] in d;
  }

  // ---------------------------------------------------------------------------
  // The per-year reshape (lines 57-65)

  /** The `Unemployment_rate_<year>` cell of a row. */
  function RateCell(row: SourceRow, year: int): Option<real>
  {
    if year in row.unemploymentRate then row.unemploymentRate[year] else None
  }

  /** Lines 58-61 for one year: one row per county row whose rate cell is non-null,
      in county order, stamped with the year. */
  function EconomicForYear(rows: seq<SourceRow>, year: int): (r: seq<EconomicRow>)
    ensures |r| <= |rows|
    ensures forall e :: e in r ==> e.year == year
  {
    if |rows| == 0 then []
    else
      var rest := EconomicForYear(rows[1..], year);
      match RateCell(rows[0], year)
      case None => rest
      case Some(v) => [EconomicRow(FipsText(rows[0].fipsCode), v, year)] + rest
  }

  /** The rate column of one year. */
  function RateColumn(rows: seq<SourceRow>, year: int): (r: seq<Option<real>>)
    ensures |r| == |rows|
  {
    seq(|rows|, i requires 0 <= i < |rows| => RateCell(rows[i], year))
  }

  /** Row `i` of the county rows has the code and the rate of `e` in `e`'s year. */
  predicate FromCountyRow(rows: seq<SourceRow>, i: int, e: EconomicRow)
  {
    0 <= i < |rows| && RateCell(rows[i], e.year) == Some(e.unemploymentRate)
    && FipsText(rows[i].fipsCode) == e.fipsCode
  }

  /** A year contributes exactly as many rows as it has non-null rate cells. */
  lemma {:induction false} EconomicForYearCount(rows: seq<SourceRow>, year: int)
    ensures |EconomicForYear(rows, year)| == CountPresent(RateColumn(rows, year))
  {
    if |rows| > 0 {
      EconomicForYearCount(rows[1..], year);
      assert RateColumn(rows, year)[1..] == RateColumn(rows[1..], year);
    }
  }

  /** A row of one year's frame comes from a county row with exactly that rate, and
      every county row with a non-null rate gives one. */
  lemma {:induction false} EconomicForYearMembers(rows: seq<SourceRow>, year: int, e: EconomicRow)
    ensures e in EconomicForYear(rows, year) <==>
      e.year == year && exists i :: FromCountyRow(rows, i, e)
  {
    if |rows| > 0 {
      EconomicForYearMembers(rows[1..], year, e);
      var rest := EconomicForYear(rows[1..], year);
      if e in EconomicForYear(rows, year) && e !in rest {
        assert FromCountyRow(rows, 0, e);
      }
      if e.year == year && exists i :: FromCountyRow(rows, i, e) {
        var i :| FromCountyRow(rows, i, e);
        if i > 0 {
          assert rows[1..][i - 1] == rows[i];
          assert FromCountyRow(rows[1..], i - 1, e);
        }
      }
      if e in EconomicForYear(rows[1..], year) {
        var i :| FromCountyRow(rows[1..], i, e);
        assert rows[i + 1] == rows[1..][i];
        assert FromCountyRow(rows, i + 1, e);
      }
    }
  }

  /** `pd.concat` of the per-year frames for the years FirstYear .. end-1: grouped
      by ascending year. */
  function EconomicRows(rows: seq<SourceRow>, end: int): (r: seq<EconomicRow>)
    ensures forall e :: e in r ==> FirstYear <= e.year < end
    decreases end - FirstYear
  {
    if end <= FirstYear then [] else EconomicRows(rows, end - 1) + EconomicForYear(rows, end - 1)
  }

  predicate YearSorted(r: seq<EconomicRow>)
  {
    forall i, j :: 0 <= i <= j < |r| ==> r[i].year <= r[j].year
  }

  /** The concatenated table is grouped by ascending year. */
  lemma {:induction false} EconomicRowsSorted(rows: seq<SourceRow>, end: int)
    ensures YearSorted(EconomicRows(rows, end))
    decreases end - FirstYear
  {
    if end > FirstYear {
      EconomicRowsSorted(rows, end - 1);
      var front := EconomicRows(rows, end - 1);
      var last := EconomicForYear(rows, end - 1);
      var r := front + last;
      assert EconomicRows(rows, end) == r;
      forall i, j | 0 <= i <= j < |r| ensures r[i].year <= r[j].year {
        if j < |front| {
          assert r[i] == front[i] && r[j] == front[j];
        } else if i < |front| {
          assert r[i] == front[i] && r[j] == last[j - |front|];
          assert front[i] in front;
          assert last[j - |front|] in last;
        } else {
          assert r[i] == last[i - |front|] && r[j] == last[j - |front|];
          assert last[i - |front|] in last;
          assert last[j - |front|] in last;
        }
      }
    }
  }

  function InYear(year: int): EconomicRow -> bool
  {
    (e: EconomicRow) => e.year == year
  }

  /** Within one year the reshaped rows are that year's frame, in county order. */
  lemma {:induction false} EconomicRowsOfYear(rows: seq<SourceRow>, end: int, year: int)
    requires FirstYear <= year < end
    ensures Keep(EconomicRows(rows, end), InYear(year)) == EconomicForYear(rows, year)
    decreases end - FirstYear
  {
    if year == end - 1 {
      EconomicRowsOfLastYear(rows, end, year);
    } else {
      EconomicRowsOfYear(rows, end - 1, year);
      EconomicRowsOfEarlierYear(rows, end, year);
    }
  }

  lemma EconomicRowsOfLastYear(rows: seq<SourceRow>, end: int, year: int)
    requires FirstYear <= year == end - 1
    ensures Keep(EconomicRows(rows, end), InYear(year)) == EconomicForYear(rows, year)
  {
    var p := InYear(year);
    var front := EconomicRows(rows, end - 1);
    var last := EconomicForYear(rows, end - 1);
    assert EconomicRows(rows, end) == front + last;
    KeepAppend(front, last, p);
    forall i | 0 <= i < |front| ensures !p(front[i]) {
      assert front[i] in front;
    }
    KeepNone(front, p);
    forall i | 0 <= i < |last| ensures p(last[i]) {
      assert last[i] in last;
    }
    KeepAll(last, p);
    assert Keep(front + last, p) == [] + last;
  }

  lemma EconomicRowsOfEarlierYear(rows: seq<SourceRow>, end: int, year: int)
    requires FirstYear <= year < end - 1
    ensures Keep(EconomicRows(rows, end), InYear(year)) == Keep(EconomicRows(rows, end - 1), InYear(year))
  {
    var p := InYear(year);
    var front := EconomicRows(rows, end - 1);
    var last := EconomicForYear(rows, end - 1);
    assert EconomicRows(rows, end) == front + last;
    KeepAppend(front, last, p);
    forall i | 0 <= i < |last| ensures !p(last[i]) {
      assert last[i] in last;
    }
    KeepNone(last, p);
    assert Keep(front + last, p) == Keep(front, p) + [];
  }

  /** A row of the reshaped table belongs to a year in range and to that year's frame. */
  lemma {:induction false} EconomicRowsMembers(rows: seq<SourceRow>, end: int, e: EconomicRow)
    ensures e in EconomicRows(rows, end) <==> FirstYear <= e.year < end && e in EconomicForYear(rows, e.year)
    decreases end - FirstYear
  {
    if end > FirstYear {
      var front := EconomicRows(rows, end - 1);
      var last := EconomicForYear(rows, end - 1);
      assert EconomicRows(rows, end) == front + last;
      EconomicRowsMembers(rows, end - 1, e);
      assert e in front + last <==> e in front || e in last;
    }
  }

  // ---------------------------------------------------------------------------
  // The income left-merge (lines 68-73)

  /** Lines 68-70: the non-null 2022 incomes, with their codes, in county order. */
  function IncomeData(rows: seq<SourceRow>): (r: seq<IncomeRow>)
    ensures |r| <= |rows|
  {
    if |rows| == 0 then []
    else
      var rest := IncomeData(rows[1..]);
      match rows[0].medianIncome2022
      case None => rest
      case Some(v) => [IncomeRow(FipsText(rows[0].fipsCode), v)] + rest
  }

  /** The incomes of the income rows with a given code, in order. */
  function IncomeMatches(income: seq<IncomeRow>, fips: string): (r: seq<real>)
    ensures |r| <= |income|
    ensures r == [] <==> forall k :: 0 <= k < |income| ==> income[k].fipsCode != fips
  {
    if |income| == 0 then []
    else
      var rest := IncomeMatches(income[1..], fips);
      assert forall k :: 1 <= k < |income| ==> income[k] == income[1..][k - 1];
      (if income[0].fipsCode == fips then [income[0].income] else []) + rest
  }

  /** The income of the first income row with the code, or null. */
  function IncomeOf(income: seq<IncomeRow>, fips: string): (r: Option<real>)
    ensures r.None? <==> forall k :: 0 <= k < |income| ==> income[k].fipsCode != fips
    ensures r.Some? ==> exists k :: 0 <= k < |income| && income[k] == IncomeRow(fips, r.value)
  {
    if |income| == 0 then None
    else if income[0].fipsCode == fips then Some(income[0].income)
    else
      var rest := IncomeOf(income[1..], fips);
      assert forall k :: 1 <= k < |income| ==> income[k] == income[1..][k - 1];
      rest
  }

  /** The rows one economic row turns into: one per matching income row, or a
      single row with a null income when none matches. */
  function MergeRow(e: EconomicRow, income: seq<IncomeRow>): (r: seq<EconomicFact>)
    ensures |r| >= 1
    ensures forall f :: f in r ==>
      f.fipsCode == e.fipsCode && f.unemploymentRate == e.unemploymentRate && f.year == e.year
  {
    var m := IncomeMatches(income, e.fipsCode);
    if |m| == 0 then [EconomicFact(e.fipsCode, e.unemploymentRate, e.year, None)]
    else seq(|m|, k requires 0 <= k < |m| => EconomicFact(e.fipsCode, e.unemploymentRate, e.year, Some(m[k])))
  }

  /** Line 73, `merge(..., on='fips_code', how='left')`: no economic row is lost
      and every merged row carries the key columns of an economic row. */
  function MergeIncome(econ: seq<EconomicRow>, income: seq<IncomeRow>): (r: seq<EconomicFact>)
    ensures |r| >= |econ|
  {
    if |econ| == 0 then [] else MergeRow(econ[0], income) + MergeIncome(econ[1..], income)
  }

  predicate UniqueFips(income: seq<IncomeRow>)
  {
    forall i, j :: 0 <= i < j < |income| ==> income[i].fipsCode != income[j].fipsCode
  }

  lemma {:induction false} MatchesUnique(income: seq<IncomeRow>, fips: string)
    requires UniqueFips(income)
    ensures IncomeMatches(income, fips) == match IncomeOf(income, fips) case None => [] case Some(v) => [v]
  {
    if |income| > 0 {
      MatchesUnique(income[1..], fips);
      if income[0].fipsCode == fips {
        assert IncomeMatches(income[1..], fips) == [] by {
          forall k | 0 <= k < |income[1..]| ensures income[1..][k].fipsCode != fips {
            assert income[1..][k] == income[k + 1];
          }
        }
      }
    }
  }

  /** With unique income codes the left merge keeps exactly one row per economic row,
      in order, and attaches that code's income, or null. */
  lemma {:induction false} MergeIncomeUnique(econ: seq<EconomicRow>, income: seq<IncomeRow>)
    requires UniqueFips(income)
    ensures |MergeIncome(econ, income)| == |econ|
    ensures forall i :: 0 <= i < |econ| ==>
      MergeIncome(econ, income)[i]
        == EconomicFact(econ[i].fipsCode, econ[i].unemploymentRate, econ[i].year, IncomeOf(income, econ[i].fipsCode))
  {
    if |econ| > 0 {
      MatchesUnique(income, econ[0].fipsCode);
      MergeIncomeUnique(econ[1..], income);
      var r := MergeIncome(econ, income);
      forall i | 0 <= i < |econ|
        ensures r[i] == EconomicFact(econ[i].fipsCode, econ[i].unemploymentRate, econ[i].year,
                                     IncomeOf(income, econ[i].fipsCode))
      {
        if i > 0 {
          assert r[i] == MergeIncome(econ[1..], income)[i - 1];
          assert econ[1..][i - 1] == econ[i];
        }
      }
    }
  }

  /** County codes are distinct (FIPS is the key of the county master table). */
  predicate DistinctCodes(rows: seq<SourceRow>)
  {
    forall i, j :: 0 <= i < j < |rows| ==> FipsText(rows[i].fipsCode) != FipsText(rows[j].fipsCode)
  }

  predicate IncomeFrom(rows: seq<SourceRow>, i: int, x: IncomeRow)
  {
    0 <= i < |rows| && FipsText(rows[i].fipsCode) == x.fipsCode && rows[i].medianIncome2022 == Some(x.income)
  }

  /** Row `i` of the county rows has the code and the rate of `f` in `f`'s year, and `f`
      carries that county's income. */
  predicate FactFrom(rows: seq<SourceRow>, i: int, f: EconomicFact)
  {
    0 <= i < |rows| && FipsText(rows[i].fipsCode) == f.fipsCode
    && RateCell(rows[i], f.year) == Some(f.unemploymentRate)
    && f.medianHouseholdIncome2022 == rows[i].medianIncome2022
  }

  /** Every income row comes from a county row with that code and that income. */
  lemma {:induction false} IncomeDataFrom(rows: seq<SourceRow>, k: int)
    requires 0 <= k < |IncomeData(rows)|
    ensures exists i :: IncomeFrom(rows, i, IncomeData(rows)[k])
  {
    var rest := IncomeData(rows[1..]);
    if rows[0].medianIncome2022.Some? && k == 0 {
      assert IncomeFrom(rows, 0, IncomeData(rows)[k]);
    } else {
      var k' := if rows[0].medianIncome2022.Some? then k - 1 else k;
      assert IncomeData(rows)[k] == rest[k'];
      IncomeDataFrom(rows[1..], k');
      var i :| IncomeFrom(rows[1..], i, rest[k']);
      assert rows[i + 1] == rows[1..][i];
      assert IncomeFrom(rows, i + 1, rest[k']);
    }
  }

  lemma {:induction false} IncomeDataUnique(rows: seq<SourceRow>)
    requires DistinctCodes(rows)
    ensures UniqueFips(IncomeData(rows))
  {
    if |rows| > 0 {
      IncomeDataUnique(rows[1..]);
      var rest := IncomeData(rows[1..]);
      if rows[0].medianIncome2022.Some? {
        forall k | 0 <= k < |rest| ensures rest[k].fipsCode != FipsText(rows[0].fipsCode) {
          IncomeDataFrom(rows[1..], k);
          var i :| IncomeFrom(rows[1..], i, rest[k]);
          assert rows[1..][i] == rows[i + 1];
        }
      }
    }
  }

  /** With distinct codes, looking up a county's code in the income rows gives that
      county's own 2022 income, or null when its cell was empty. */
  lemma {:induction false} IncomeOfCounty(rows: seq<SourceRow>, i: int)
    requires DistinctCodes(rows) && 0 <= i < |rows|
    ensures IncomeOf(IncomeData(rows), FipsText(rows[i].fipsCode)) == rows[i].medianIncome2022
  {
    var code := FipsText(rows[i].fipsCode);
    var rest := IncomeData(rows[1..]);
    if i == 0 {
      if rows[0].medianIncome2022.None? {
        forall k | 0 <= k < |rest| ensures rest[k].fipsCode != code {
          IncomeDataFrom(rows[1..], k);
          var j :| IncomeFrom(rows[1..], j, rest[k]);
          assert rows[1..][j] == rows[j + 1];
        }
      }
    } else {
      assert rows[1..][i - 1] == rows[i];
      IncomeOfCounty(rows[1..], i - 1);
      if rows[0].medianIncome2022.Some? {
        assert FipsText(rows[0].fipsCode) != code;
      }
    }
  }

  /** The economic table: with distinct county codes, one row per (county, year) with
      a non-null rate, and every row carries its county's 2022 income, whatever the year. */
  lemma EconomicTableIncome(rows: seq<SourceRow>)
    requires DistinctCodes(rows)
    ensures |MergeIncome(EconomicRows(rows, EndYear), IncomeData(rows))| == |EconomicRows(rows, EndYear)|
    ensures forall f :: f in MergeIncome(EconomicRows(rows, EndYear), IncomeData(rows)) ==>
      exists i :: FactFrom(rows, i, f)
  {
    var econ := EconomicRows(rows, EndYear);
    var income := IncomeData(rows);
    IncomeDataUnique(rows);
    MergeIncomeUnique(econ, income);
    var table := MergeIncome(econ, income);
    forall f | f in table ensures exists i :: FactFrom(rows, i, f) {
      var k :| 0 <= k < |table| && table[k] == f;
      MergedFactFrom(rows, econ, k);
    }
  }

  lemma MergedFactFrom(rows: seq<SourceRow>, econ: seq<EconomicRow>, k: int)
    requires DistinctCodes(rows) && econ == EconomicRows(rows, EndYear) && 0 <= k < |econ|
    requires MergeIncome(econ, IncomeData(rows))[k]
      == EconomicFact(econ[k].fipsCode, econ[k].unemploymentRate, econ[k].year, IncomeOf(IncomeData(rows), econ[k].fipsCode))
    ensures exists i :: FactFrom(rows, i, MergeIncome(econ, IncomeData(rows))[k])
  {
    var e := econ[k];
    assert e in econ;
    EconomicRowsMembers(rows, EndYear, e);
    EconomicForYearMembers(rows, e.year, e);
    var i :| FromCountyRow(rows, i, e);
    IncomeOfCounty(rows, i);
    assert FactFrom(rows, i, MergeIncome(econ, IncomeData(rows))[k]);
  }

  // ---------------------------------------------------------------------------
  // The whole function

  /** Lines 29-36: the frame is reassigned by the null drop, the padding and the
      county filter, in that order. */
  method SelectCountyRows(rows: seq<SourceRow>) returns (df: seq<SourceRow>)
    ensures df == CountyRows(rows)
  {
    df := DropNullFips(rows);
    df := PadFips(df);
    df := CountyFilter(df);
  }

  /** Lines 57-73: the year loop over `range(2000, 2024)`, which raises on the first
      missing rate column, then the concatenation and the income merge. */
  method ReshapeEconomic(df: seq<SourceRow>, rateYears: set<int>)
    returns (economic: Result<seq<EconomicFact>, CleaningError>)
    ensures economic.Failure? <==> exists y :: FirstYear <= y < EndYear && y !in rateYears
    ensures economic.Failure? ==>
      var y := economic.error.year;
      FirstYear <= y < EndYear && y !in rateYears
      && forall y' :: FirstYear <= y' < y ==> y' in rateYears
    ensures economic.Success? ==> economic.value == MergeIncome(EconomicRows(df, EndYear), IncomeData(df))
  {
    var economicData: seq<seq<EconomicRow>> := [];
    var year := FirstYear;
    while year < EndYear
      invariant FirstYear <= year <= EndYear
      invariant forall y :: FirstYear <= y < year ==> y in rateYears
      invariant Flatten(economicData) == EconomicRows(df, year)
    {
      if year !in rateYears {
        economic := Failure(MissingRateColumn(year));
        return;
      }
      var yearData := EconomicForYear(df, year);
      FlattenSnoc(economicData, yearData);
      assert EconomicRows(df, year + 1) == EconomicRows(df, year) + yearData;
      economicData := economicData + [yearData];
      year := year + 1;
    }
    var economicDf := Flatten(economicData);
    var incomeData := IncomeData(df);
    economic := Success(MergeIncome(economicDf, incomeData));
  }

  /** `clean_unemployment_data`. The counties table is written to its file before the
      year loop; when the loop raises, the function returns nothing, and `counties`
      stands for that file's contents. The economic table is the error of the first
      year whose rate column is missing, or the merged table. */
  method CleanUnemploymentData(sheet: UnemploymentSheet)
    returns (counties: seq<CountyRecord>, economic: Result<seq<EconomicFact>, CleaningError>)
    ensures counties == ProjectCounties(CountyRows(sheet.rows))
    ensures economic.Failure? <==> exists y :: FirstYear <= y < EndYear && y !in sheet.rateYears
    ensures economic.Failure? ==>
      var y := economic.error.year;
      FirstYear <= y < EndYear && y !in sheet.rateYears
      && forall y' :: FirstYear <= y' < y ==> y' in sheet.rateYears
    ensures economic.Success? ==>
      var df := CountyRows(sheet.rows);
      economic.value == MergeIncome(EconomicRows(df, EndYear), IncomeData(df))
  {
    var df := SelectCountyRows(sheet.rows);
    counties := ProjectCounties(df);
    economic := ReshapeEconomic(df, sheet.rateYears);
  }
}
