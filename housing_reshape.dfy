/** The monthly housing-price reshaping of scripts/03_housing_and_population_cleaning.py
    (`reshape_housing_data`): select the date columns of the bottom- and top-tier
    tables, melt each table to one row per (region, date) cell, outer-join the
    two tiers on (RegionID, date), parse the dates into year and month, copy the
    region name into `county_name`, and drop the rows that have neither price. */
module HousingReshape {
  import opened Tables
  import opened Text

  /** A row of a tier file: the four identifier columns kept by `melt`, and the cells
      of the remaining columns, in column order. */
  datatype PriceSourceRow = PriceSourceRow(
    regionId: int, regionName: string, stateName: string, state: string, cells: seq<Option<real>>)

  /** A tier file: the labels of the columns after the identifiers, and the rows. */
  datatype PriceTable = PriceTable(headers: seq<string>, rows: seq<PriceSourceRow>)

  /** A row of `bottom_melted` / `top_melted`. */
  datatype MeltedRow = MeltedRow(
    regionId: int, regionName: string, stateName: string, state: string, date: string, price: Option<real>)

  /** A row of `top_melted[['RegionID', 'date', 'top_tier_price']]`. */
  datatype TopRow = TopRow(regionId: int, date: string, price: Option<real>)

  /** The join key `['RegionID', 'date']`. */
  datatype Key = Key(regionId: int, date: string)

  /** A row of the outer merge: the identifier columns come from the bottom tier only. */
  datatype MergedRow = MergedRow(
    regionId: int, regionName: Option<string>, stateName: Option<string>, state: Option<string>,
    date: string, bottomPrice: Option<real>, topPrice: Option<real>)

  /** A calendar date as `pd.to_datetime` yields it (the time of day is always midnight). */
  datatype Date = Date(year: nat, month: nat, day: nat)

  /** A row of `housing_prices` as returned. */
  datatype HousingRow = HousingRow(
    regionId: int, regionName: Option<string>, stateName: Option<string>, state: Option<string>,
    date: Date, bottomPrice: Option<real>, topPrice: Option<real>,
    year: nat, month: nat, countyName: Option<string>)

  /** Line 87 indexes the empty list of bottom date columns (`IndexError`); line 113
      meets a date name it cannot parse. */
  datatype HousingError = NoBottomDateColumns | UnparsableDate(dateLabel: string)

  // ---------------------------------------------------------------------------
  // Date columns and melt (lines 83-103)

  /** Lines 83-84: a label is a date column when it contains '-' and is exactly 10 long. */
  predicate IsDateColumn(name: string)
  {
    '-' in name && |name| == 10
  }

  /** The date columns of a tier, left to right. */
  function DateColumns(headers: seq<string>): (r: seq<nat>)
    ensures forall k :: 0 <= k < |r| ==> r[k] < |headers| && IsDateColumn(headers[r[k]])
    ensures forall c :: 0 <= c < |headers| && IsDateColumn(headers[c]) ==> c in r
    ensures forall k, l :: 0 <= k < l < |r| ==> r[k] < r[l]
  {
    Positions(headers, IsDateColumn)
  }

  predicate InRange(headers: seq<string>, cols: seq<nat>)
  {
    forall k :: 0 <= k < |cols| ==> cols[k] < |headers|
  }

  function Cell(row: PriceSourceRow, c: nat): Option<real>
  {
    if c < |row.cells| then row.cells[c] else None
  }

  function MeltCell(row: PriceSourceRow, name: string, c: nat): MeltedRow
  {
    MeltedRow(row.regionId, row.regionName, row.stateName, row.state, name, Cell(row, c))
  }

  /** The block `melt` emits for one value column: one row per source row, in order. */
  function MeltColumn(rows: seq<PriceSourceRow>, name: string, c: nat): (r: seq<MeltedRow>)
    ensures |r| == |rows|
  {
    seq(|rows|, i requires 0 <= i < |rows| => MeltCell(rows[i], name, c))
  }

  /** `melt(id_vars=[...], value_vars=cols)`: the column blocks, in column order. */
  function Melt(table: PriceTable, cols: seq<nat>): (r: seq<MeltedRow>)
    requires InRange(table.headers, cols)
  {
    if |cols| == 0 then []
    else
      var c := cols[|cols| - 1];
      Melt(table, cols[..|cols| - 1]) + MeltColumn(table.rows, table.headers[c], c)
  }

  lemma BlockIndex(k: nat, i: nat, n: nat, m: nat)
    requires k < n && i < m
    ensures k * m + i < n * m
  {
    assert k * m + i < k * m + m == (k + 1) * m;
    assert (k + 1) * m <= n * m;
  }

  lemma {:induction false} MeltLength(table: PriceTable, cols: seq<nat>)
    requires InRange(table.headers, cols)
    ensures |Melt(table, cols)| == |cols| * |table.rows|
  {
    if |cols| > 0 {
      MeltLength(table, cols[..|cols| - 1]);
      assert (|cols| - 1) * |table.rows| + |table.rows| == |cols| * |table.rows|;
    }
  }

  /** Melting gives one row per (date column, source row) cell: the block of column `k`
      starts at `k * |rows|`, and within it row `i` is at offset `i`, carrying the
      column label as its date and the cell as its price, null or not. */
  lemma {:induction false} MeltAt(table: PriceTable, cols: seq<nat>, k: nat, i: nat)
    requires InRange(table.headers, cols) && k < |cols| && i < |table.rows|
    ensures k * |table.rows| + i < |Melt(table, cols)|
    ensures Melt(table, cols)[k * |table.rows| + i] == MeltCell(table.rows[i], table.headers[cols[k]], cols[k])
  {
    var n := |cols|;
    var m := |table.rows|;
    var front := cols[..n - 1];
    MeltLength(table, front);
    BlockIndex(k, i, n, m);
    MeltLength(table, cols);
    if k < n - 1 {
      MeltAt(table, front, k, i);
      assert front[k] == cols[k];
    } else {
      assert k * m + i == (n - 1) * m + i;
    }
  }

  /** `top_melted[['RegionID', 'date', 'top_tier_price']]`. */
  function TopColumns(top: seq<MeltedRow>): (r: seq<TopRow>)
    ensures |r| == |top|
    ensures forall i :: 0 <= i < |top| ==> r[i] == TopRow(top[i].regionId, top[i].date, top[i].price)
  {
    seq(|top|, i requires 0 <= i < |top| => TopRow(top[i].regionId, top[i].date, top[i].price))
  }

  // ---------------------------------------------------------------------------
  // The outer merge (lines 106-110)

  function BottomKey(b: MeltedRow): Key { Key(b.regionId, b.date) }
  function TopKey(t: TopRow): Key { Key(t.regionId, t.date) }
  function MergedKey(m: MergedRow): Key { Key(m.regionId, m.date) }

  function BottomKeys(bottom: seq<MeltedRow>): set<Key> { set b | b in bottom :: BottomKey(b) }
  function TopKeys(top: seq<TopRow>): set<Key> { set t | t in top :: TopKey(t) }
  function MergedKeys(merged: seq<MergedRow>): set<Key> { set m | m in merged :: MergedKey(m) }

  function HasKey(key: Key): TopRow -> bool
  {
    (t: TopRow) => TopKey(t) == key
  }

  /** A bottom row joined with each top row of its key, or with a null top price when
      there is none. */
  function MergeBottomRow(b: MeltedRow, top: seq<TopRow>): (r: seq<MergedRow>)
    ensures |r| >= 1
  {
    var matches := Keep(top, HasKey(BottomKey(b)));
    if |matches| == 0 then
      [MergedRow(b.regionId, Some(b.regionName), Some(b.stateName), Some(b.state), b.date, b.price, None)]
    else
      seq(|matches|, j requires 0 <= j < |matches| =>
        MergedRow(b.regionId, Some(b.regionName), Some(b.stateName), Some(b.state), b.date, b.price, matches[j].price))
  }

  function MergeBottom(bottom: seq<MeltedRow>, top: seq<TopRow>): (r: seq<MergedRow>)
    ensures |r| >= |bottom|
  {
    if |bottom| == 0 then [] else MergeBottomRow(bottom[0], top) + MergeBottom(bottom[1..], top)
  }

  function NotIn(keys: set<Key>): TopRow -> bool
  {
    (t: TopRow) => TopKey(t) !in keys
  }

  /** A top row whose key the bottom tier lacks: everything but the key and the top
      price is null. */
  function TopOnlyRow(t: TopRow): MergedRow
  {
    MergedRow(t.regionId, None, None, None, t.date, None, t.price)
  }

  function TopOnly(bottom: seq<MeltedRow>, top: seq<TopRow>): (r: seq<MergedRow>)
  {
    var rest := Keep(top, NotIn(BottomKeys(bottom)));
    seq(|rest|, j requires 0 <= j < |rest| => TopOnlyRow(rest[j]))
  }

  /** `bottom_melted.merge(top, on=['RegionID', 'date'], how='outer')`: the bottom rows
      with their matches, then the unmatched top rows. */
  function OuterMerge(bottom: seq<MeltedRow>, top: seq<TopRow>): seq<MergedRow>
  {
    MergeBottom(bottom, top) + TopOnly(bottom, top)
  }

  /** Every row produced for a bottom row has that row's key, identifiers and price,
      and a top price that belongs to a top row of the same key, or null when no top
      row has the key. */
  predicate FromBottom(b: MeltedRow, top: seq<TopRow>, m: MergedRow)
  {
    MergedKey(m) == BottomKey(b) && m.regionName == Some(b.regionName)
    && m.stateName == Some(b.stateName) && m.state == Some(b.state) && m.bottomPrice == b.price
    && (if BottomKey(b) in TopKeys(top) then exists t :: t in top && TopKey(t) == BottomKey(b) && m.topPrice == t.price
        else m.topPrice.None?)
  }

  lemma MergeBottomRowSpec(b: MeltedRow, top: seq<TopRow>)
    ensures forall m :: m in MergeBottomRow(b, top) ==> FromBottom(b, top, m)
  {
    var p := HasKey(BottomKey(b));
    var matches := Keep(top, p);
    forall m | m in MergeBottomRow(b, top) ensures FromBottom(b, top, m) {
      if |matches| > 0 {
        var j :| 0 <= j < |matches| && MergeBottomRow(b, top)[j] == m;
        assert matches[j] in matches;
      }
    }
  }

  lemma {:induction false} MergeBottomMembers(bottom: seq<MeltedRow>, top: seq<TopRow>, m: MergedRow)
    requires m in MergeBottom(bottom, top)
    ensures exists b :: b in bottom && FromBottom(b, top, m)
  {
    if m in MergeBottomRow(bottom[0], top) {
      MergeBottomRowSpec(bottom[0], top);
    } else {
      MergeBottomMembers(bottom[1..], top, m);
      var b :| b in bottom[1..] && FromBottom(b, top, m);
    }
  }

  lemma {:induction false} MergeBottomCovers(bottom: seq<MeltedRow>, top: seq<TopRow>, b: MeltedRow)
    requires b in bottom
    ensures exists m :: m in MergeBottom(bottom, top) && MergedKey(m) == BottomKey(b)
  {
    if b == bottom[0] {
      var m := MergeBottomRow(b, top)[0];
      MergeBottomRowSpec(b, top);
      assert m in MergeBottom(bottom, top);
    } else {
      MergeBottomCovers(bottom[1..], top, b);
      var m :| m in MergeBottom(bottom[1..], top) && MergedKey(m) == BottomKey(b);
      assert m in MergeBottom(bottom, top);
    }
  }

  lemma TopOnlyMembers(bottom: seq<MeltedRow>, top: seq<TopRow>, m: MergedRow)
    ensures m in TopOnly(bottom, top) <==>
      exists t :: t in top && TopKey(t) !in BottomKeys(bottom) && m == TopOnlyRow(t)
  {
    var rest := Keep(top, NotIn(BottomKeys(bottom)));
    if m in TopOnly(bottom, top) {
      var j :| 0 <= j < |rest| && TopOnly(bottom, top)[j] == m;
      assert rest[j] in rest;
    }
    if exists t :: t in top && TopKey(t) !in BottomKeys(bottom) && m == TopOnlyRow(t) {
      var t :| t in top && TopKey(t) !in BottomKeys(bottom) && m == TopOnlyRow(t);
      assert t in rest;
      var j :| 0 <= j < |rest| && rest[j] == t;
      assert TopOnly(bottom, top)[j] == m;
    }
  }

  /** The merged keys are exactly the keys of either tier. */
  lemma OuterMergeKeys(bottom: seq<MeltedRow>, top: seq<TopRow>)
    ensures MergedKeys(OuterMerge(bottom, top)) == BottomKeys(bottom) + TopKeys(top)
  {
    var merged := OuterMerge(bottom, top);
    forall key | key in MergedKeys(merged) ensures key in BottomKeys(bottom) + TopKeys(top) {
      var m :| m in merged && MergedKey(m) == key;
      if m in MergeBottom(bottom, top) {
        MergeBottomMembers(bottom, top, m);
        var b :| b in bottom && FromBottom(b, top, m);
      } else {
        TopOnlyMembers(bottom, top, m);
        var t :| t in top && TopKey(t) !in BottomKeys(bottom) && m == TopOnlyRow(t);
      }
    }
    forall key | key in BottomKeys(bottom) + TopKeys(top) ensures key in MergedKeys(merged) {
      if key in BottomKeys(bottom) {
        var b :| b in bottom && BottomKey(b) == key;
        MergeBottomCovers(bottom, top, b);
        var m :| m in MergeBottom(bottom, top) && MergedKey(m) == key;
        assert m in merged;
      } else {
        var t :| t in top && TopKey(t) == key;
        TopOnlyMembers(bottom, top, TopOnlyRow(t));
        assert TopOnlyRow(t) in merged;
      }
    }
  }

  /** A row whose key only the bottom tier has keeps the bottom identifiers and price
      and has a null top price; a row whose key only the top tier has has null
      identifiers and a null bottom price. */
  lemma OuterMergeNulls(bottom: seq<MeltedRow>, top: seq<TopRow>, m: MergedRow)
    requires m in OuterMerge(bottom, top)
    ensures MergedKey(m) !in TopKeys(top) ==> m.topPrice.None? && m.regionName.Some?
    ensures MergedKey(m) !in BottomKeys(bottom) ==>
      m.bottomPrice.None? && m.regionName.None? && m.stateName.None? && m.state.None?
    ensures MergedKey(m) in BottomKeys(bottom) ==> m.regionName.Some? && m.stateName.Some? && m.state.Some?
  {
    if m in MergeBottom(bottom, top) {
      MergeBottomMembers(bottom, top, m);
      var b :| b in bottom && FromBottom(b, top, m);
    } else {
      TopOnlyMembers(bottom, top, m);
      var t :| t in top && TopKey(t) !in BottomKeys(bottom) && m == TopOnlyRow(t);
    }
  }

  /** No two rows of a tier share a key. */
  predicate UniqueBottomKeys(bottom: seq<MeltedRow>)
  {
    forall i, j :: 0 <= i < j < |bottom| ==> BottomKey(bottom[i]) != BottomKey(bottom[j])
  }

  predicate UniqueTopKeys(top: seq<TopRow>)
  {
    forall i, j :: 0 <= i < j < |top| ==> TopKey(top[i]) != TopKey(top[j])
  }

  /** The top price a unique-key top tier holds for a key, or null. */
  function TopPriceOf(top: seq<TopRow>, key: Key): Option<real>
  {
    if |top| == 0 then None
    else if TopKey(top[0]) == key then top[0].price
    else TopPriceOf(top[1..], key)
  }

  lemma {:induction false} UniqueMatches(top: seq<TopRow>, key: Key)
    requires UniqueTopKeys(top)
    ensures |Keep(top, HasKey(key))| <= 1
    ensures |Keep(top, HasKey(key))| == 1 <==> key in TopKeys(top)
    ensures |Keep(top, HasKey(key))| == 1 ==> Keep(top, HasKey(key))[0].price == TopPriceOf(top, key)
  {
    if |top| > 0 {
      UniqueMatches(top[1..], key);
      var rest := Keep(top[1..], HasKey(key));
      if TopKey(top[0]) != key {
        if key in TopKeys(top) {
          var t :| t in top && TopKey(t) == key;
          assert t in top[1..];
        }
      }
    }
  }

  /** With unique keys in both tiers the merged frame has exactly one row per key of
      either tier: the bottom rows keep their order, each gaining its top price, and
      they are followed by the top-only rows. */
  lemma {:induction false} MergeBottomUnique(bottom: seq<MeltedRow>, top: seq<TopRow>)
    requires UniqueTopKeys(top)
    ensures |MergeBottom(bottom, top)| == |bottom|
    ensures forall i :: 0 <= i < |bottom| ==>
      MergeBottom(bottom, top)[i] == MergedRow(bottom[i].regionId, Some(bottom[i].regionName),
        Some(bottom[i].stateName), Some(bottom[i].state), bottom[i].date, bottom[i].price,
        TopPriceOf(top, BottomKey(bottom[i])))
  {
    if |bottom| > 0 {
      var b := bottom[0];
      UniqueMatches(top, BottomKey(b));
      if BottomKey(b) !in TopKeys(top) {
        TopPriceAbsent(top, BottomKey(b));
      }
      MergeBottomUnique(bottom[1..], top);
      var r := MergeBottom(bottom, top);
      forall i | 0 <= i < |bottom|
        ensures r[i] == MergedRow(bottom[i].regionId, Some(bottom[i].regionName),
          Some(bottom[i].stateName), Some(bottom[i].state), bottom[i].date, bottom[i].price,
          TopPriceOf(top, BottomKey(bottom[i])))
      {
        if i > 0 {
          assert r[i] == MergeBottom(bottom[1..], top)[i - 1];
          assert bottom[1..][i - 1] == bottom[i];
        }
      }
    }
  }

  lemma {:induction false} TopPriceAbsent(top: seq<TopRow>, key: Key)
    requires key !in TopKeys(top)
    ensures TopPriceOf(top, key).None?
  {
    if |top| > 0 {
      assert top[0] in top;
      forall t | t in top[1..] ensures TopKey(t) != key {
        assert t in top;
      }
      TopPriceAbsent(top[1..], key);
    }
  }

  /** The bottom part of the merge has the bottom tier's keys, in order. */
  lemma MergeBottomDistinct(bottom: seq<MeltedRow>, top: seq<TopRow>)
    requires UniqueBottomKeys(bottom) && UniqueTopKeys(top)
    ensures DistinctBy(MergeBottom(bottom, top), MergedKey)
    ensures forall m :: m in MergeBottom(bottom, top) ==> MergedKey(m) in BottomKeys(bottom)
  {
    MergeBottomUnique(bottom, top);
    var front := MergeBottom(bottom, top);
    forall i | 0 <= i < |front| ensures MergedKey(front[i]) == BottomKey(bottom[i]) && BottomKey(bottom[i]) in BottomKeys(bottom) {
      assert bottom[i] in bottom;
    }
  }

  /** The top-only part of the merge has distinct keys, none of them a bottom key. */
  lemma TopOnlyDistinct(bottom: seq<MeltedRow>, top: seq<TopRow>)
    requires UniqueTopKeys(top)
    ensures DistinctBy(TopOnly(bottom, top), MergedKey)
    ensures forall m :: m in TopOnly(bottom, top) ==> MergedKey(m) !in BottomKeys(bottom)
  {
    var rest := Keep(top, NotIn(BottomKeys(bottom)));
    var back := TopOnly(bottom, top);
    assert DistinctBy(top, TopKey) by {
      forall i, j | 0 <= i < j < |top| ensures TopKey(top[i]) != TopKey(top[j]) { }
    }
    KeepDistinct(top, NotIn(BottomKeys(bottom)), TopKey);
    forall k | 0 <= k < |back| ensures MergedKey(back[k]) == TopKey(rest[k]) && TopKey(rest[k]) !in BottomKeys(bottom) {
      assert rest[k] in rest;
    }
  }

  /** With unique keys per tier, no key occurs twice in the merged frame. */
  lemma OuterMergeUnique(bottom: seq<MeltedRow>, top: seq<TopRow>)
    requires UniqueBottomKeys(bottom) && UniqueTopKeys(top)
    ensures DistinctBy(OuterMerge(bottom, top), MergedKey)
  {
    var front := MergeBottom(bottom, top);
    var back := TopOnly(bottom, top);
    MergeBottomDistinct(bottom, top);
    TopOnlyDistinct(bottom, top);
    forall i, j | 0 <= i < |front| && 0 <= j < |back| ensures MergedKey(front[i]) != MergedKey(back[j]) {
      assert front[i] in front && back[j] in back;
    }
    DistinctAppend(front, back, MergedKey);
  }

  // ---------------------------------------------------------------------------
  // Dates (line 113): `pd.to_datetime` on the ISO labels `YYYY-MM-DD`

  predicate IsLeap(year: nat)
  {
    year % 4 == 0 && (year % 100 != 0 || year % 400 == 0)
  }

  function DaysInMonth(year: nat, month: nat): (r: nat)
    requires 1 <= month <= 12
    ensures 28 <= r <= 31
  {
    if month == 2 then (if IsLeap(year) then 29 else 28)
    else if month == 4 || month == 6 || month == 9 || month == 11 then 30
    else 31
  }

  /** A date of the proleptic Gregorian calendar with a four-digit year. */
  predicate ValidDate(d: Date)
  {
    1 <= d.year <= 9999 && 1 <= d.month <= 12 && 1 <= d.day <= DaysInMonth(d.year, d.month)
  }

  /** The label `YYYY-MM-DD` of a date. */
  function FormatIsoDate(d: Date): (r: string)
    ensures |r| == 10
  {
    FixedDigits(d.year, 4) + "-" + FixedDigits(d.month, 2) + "-" + FixedDigits(d.day, 2)
  }

  /** Parsing a label: four digits, '-', two digits, '-', two digits, naming a real
      date (see ParseIsoDateSound and FormatParse). */
  function ParseIsoDate(s: string): Option<Date>
  {
    if |s| == 10 && s[4] == '-' && s[7] == '-' && IsDigits(s[..4]) && IsDigits(s[5..7]) && IsDigits(s[8..]) then
      var d := Date(DigitsValue(s[..4]), DigitsValue(s[5..7]), DigitsValue(s[8..]));
      if ValidDate(d) then Some(d) else None
    else
      None
  }

  /** What parses is a date column naming a real date, and it is the label of the
      date it yields. */
  lemma ParseIsoDateSound(s: string)
    ensures var r := ParseIsoDate(s);
      r.Some? ==> ValidDate(r.value) && FormatIsoDate(r.value) == s && IsDateColumn(s)
  {
    if ParseIsoDate(s).Some? {
      DigitsValueFixed(s[..4]);
      DigitsValueFixed(s[5..7]);
      DigitsValueFixed(s[8..]);
      assert s == s[..4] + "-" + s[5..7] + "-" + s[8..];
      assert s[4] in s;
    }
  }

  /** Every valid date parses back from its label. */
  lemma FormatParse(d: Date)
    requires ValidDate(d)
    ensures ParseIsoDate(FormatIsoDate(d)) == Some(d)
  {
    var s := FormatIsoDate(d);
    assert Pow10(2) == 100 && Pow10(4) == 10000;
    FixedDigitsValue(d.year, 4);
    FixedDigitsValue(d.month, 2);
    FixedDigitsValue(d.day, 2);
    assert s[..4] == FixedDigits(d.year, 4);
    assert s[5..7] == FixedDigits(d.month, 2);
    assert s[8..] == FixedDigits(d.day, 2);
  }

  /** A leap day parses in a leap year. */
  lemma LeapDayParses()
    ensures ParseIsoDate("2020-02-29") == Some(Date(2020, 2, 29))
  {
    var s := "2020-02-29";
    assert s[..4] == "2020" && s[5..7] == "02" && s[8..] == "29";
    assert DigitsValue("2020") == 2020 by {
      assert "2020"[..3] == "202" && "202"[..2] == "20" && "20"[..1] == "2" && "2"[..0] == "";
    }
    assert DigitsValue("02") == 2 by { assert "02"[..1] == "0" && "0"[..0] == ""; }
    assert DigitsValue("29") == 29 by { assert "29"[..1] == "2" && "2"[..0] == ""; }
  }

  /** A leap day does not parse in a common year, so `to_datetime` raises on it. */
  lemma CommonYearLeapDayFails()
    ensures ParseIsoDate("2021-02-29") == None
  {
    var s := "2021-02-29";
    assert s[..4] == "2021" && s[5..7] == "02" && s[8..] == "29";
    assert DigitsValue("2021") == 2021 by {
      assert "2021"[..3] == "202" && "202"[..2] == "20" && "20"[..1] == "2" && "2"[..0] == "";
    }
    assert DigitsValue("02") == 2 by { assert "02"[..1] == "0" && "0"[..0] == ""; }
  }

  // ---------------------------------------------------------------------------
  // Year, month, county name and the final drop (lines 113-122)

  /** A merged row once its date is parsed: `year` and `month` come from the date and
      `county_name` is a copy of `RegionName`. */
  function DatedRow(m: MergedRow, d: Date): HousingRow
  {
    HousingRow(m.regionId, m.regionName, m.stateName, m.state, d, m.bottomPrice, m.topPrice,
      d.year, d.month, m.regionName)
  }

  predicate AllDatesParse(merged: seq<MergedRow>)
  {
    forall i :: 0 <= i < |merged| ==> ParseIsoDate(merged[i].date).Some?
  }

  /** Row `i` holds the first date label that does not parse. */
  predicate FirstUnparsable(merged: seq<MergedRow>, i: int)
  {
    0 <= i < |merged| && ParseIsoDate(merged[i].date).None?
    && forall k :: 0 <= k < i ==> ParseIsoDate(merged[k].date).Some?
  }

  function Dated(merged: seq<MergedRow>): (r: seq<HousingRow>)
    requires AllDatesParse(merged)
  {
    seq(|merged|, i requires 0 <= i < |merged| => DatedRow(merged[i], ParseIsoDate(merged[i].date).value))
  }

  /** A row with at least one of the two prices. */
  predicate Priced(h: HousingRow)
  {
    h.bottomPrice.Some? || h.topPrice.Some?
  }

  /** `dropna(subset=[bottom, top], how='all')`: the rows with a price, in order. */
  function DropUnpriced(rows: seq<HousingRow>): (r: seq<HousingRow>)
    ensures |r| <= |rows|
    ensures forall h :: h in r <==> h in rows && Priced(h)
  {
    Keep(rows, Priced)
  }

  /** The two melted tiers, outer-merged. */
  function MergedTiers(bottom: PriceTable, top: PriceTable): seq<MergedRow>
  {
    var bottomCols := DateColumns(bottom.headers);
    var topCols := DateColumns(top.headers);
    OuterMerge(Melt(bottom, bottomCols), TopColumns(Melt(top, topCols)))
  }

  /** Lines 113-117, row by row: parse each row's date and add `year`, `month` and
      `county_name`; the first label that does not parse raises. */
  method AddDateParts(merged: seq<MergedRow>) returns (result: Result<seq<HousingRow>, HousingError>)
    ensures result.Failure? <==> !AllDatesParse(merged)
    ensures result.Failure? ==> exists i :: FirstUnparsable(merged, i) && result.error == UnparsableDate(merged[i].date)
    ensures result.Success? ==> AllDatesParse(merged) && result.value == Dated(merged)
  {
    var rows: seq<HousingRow> := [];
    var i := 0;
    while i < |merged|
      invariant 0 <= i <= |merged|
      invariant forall k :: 0 <= k < i ==> ParseIsoDate(merged[k].date).Some?
      invariant |rows| == i
      invariant forall k :: 0 <= k < i ==> rows[k] == DatedRow(merged[k], ParseIsoDate(merged[k].date).value)
    {
      var d := ParseIsoDate(merged[i].date);
      if d.None? {
        assert FirstUnparsable(merged, i);
        return Failure(UnparsableDate(merged[i].date));
      }
      var next := rows + [DatedRow(merged[i], d.value)];
      assert forall k :: 0 <= k < i ==> next[k] == rows[k];
      rows := next;
      i := i + 1;
    }
    assert AllDatesParse(merged);
    return Success(rows);
  }

  /** `reshape_housing_data` on the two tier files: fails when the bottom tier has no
      date column (line 87 indexes the empty list) or when a date label does not parse;
      otherwise the priced rows of the merged, dated frame, in order. */
  method ReshapeHousingData(bottom: PriceTable, top: PriceTable) returns (result: Result<seq<HousingRow>, HousingError>)
    ensures result == Failure(NoBottomDateColumns) <==> |DateColumns(bottom.headers)| == 0
    ensures |DateColumns(bottom.headers)| > 0 ==> (result.Failure? <==> !AllDatesParse(MergedTiers(bottom, top)))
    ensures result.Failure? && |DateColumns(bottom.headers)| > 0 ==>
      exists i :: FirstUnparsable(MergedTiers(bottom, top), i) && result.error == UnparsableDate(MergedTiers(bottom, top)[i].date)
    ensures result.Success? ==> AllDatesParse(MergedTiers(bottom, top)) && result.value == DropUnpriced(Dated(MergedTiers(bottom, top)))
  {
    var bottomDateCols := DateColumns(bottom.headers);
    var topDateCols := DateColumns(top.headers);
    if |bottomDateCols| == 0 {
      return Failure(NoBottomDateColumns);
    }
    var bottomMelted := Melt(bottom, bottomDateCols);
    var topMelted := Melt(top, topDateCols);
    var housingPrices := OuterMerge(bottomMelted, TopColumns(topMelted));
    assert housingPrices == MergedTiers(bottom, top);
    var dated := AddDateParts(housingPrices);
    if dated.Failure? {
      return Failure(dated.error);
    }
    var housing := DropUnpriced(dated.value);
    return Success(housing);
  }

  /** Row `h` of the result came from merged row `i`: same key (its date printed back
      is the label), same identifiers and prices, and `county_name` equal to `RegionName`. */
  predicate DatedFrom(merged: seq<MergedRow>, i: int, h: HousingRow)
  {
    0 <= i < |merged| && FormatIsoDate(h.date) == merged[i].date && h.regionId == merged[i].regionId
    && h.regionName == merged[i].regionName && h.stateName == merged[i].stateName && h.state == merged[i].state
    && h.bottomPrice == merged[i].bottomPrice && h.topPrice == merged[i].topPrice
    && h.year == h.date.year && h.month == h.date.month && h.countyName == merged[i].regionName
  }

  /** Every returned row has a price and a month in 1..12, and comes from a merged row. */
  lemma HousingRowsFrom(merged: seq<MergedRow>)
    requires AllDatesParse(merged)
    ensures forall h :: h in DropUnpriced(Dated(merged)) ==> Priced(h) && 1 <= h.month <= 12 && exists i :: DatedFrom(merged, i, h)
  {
    var dated := Dated(merged);
    forall h | h in DropUnpriced(dated) ensures Priced(h) && 1 <= h.month <= 12 && exists i :: DatedFrom(merged, i, h) {
      var i :| 0 <= i < |dated| && dated[i] == h;
      ParseIsoDateSound(merged[i].date);
      assert DatedFrom(merged, i, h);
    }
  }

  /** A merged row survives the drop exactly when it has at least one price. */
  lemma HousingRowKept(merged: seq<MergedRow>, i: int)
    requires AllDatesParse(merged) && 0 <= i < |merged|
    ensures DatedRow(merged[i], ParseIsoDate(merged[i].date).value) in DropUnpriced(Dated(merged))
      <==> merged[i].bottomPrice.Some? || merged[i].topPrice.Some?
  {
    assert Dated(merged)[i] == DatedRow(merged[i], ParseIsoDate(merged[i].date).value);
  }

  /** The key of a returned row is a key of one of the tiers. A row whose key the
      bottom tier lacks has no county name and no bottom price, so only its top price
      keeps it; a row whose key the bottom tier has carries the bottom's region name. */
  lemma HousingRowOrigin(bottom: PriceTable, top: PriceTable, h: HousingRow)
    requires AllDatesParse(MergedTiers(bottom, top))
    requires h in DropUnpriced(Dated(MergedTiers(bottom, top)))
    ensures var bottomKeys := BottomKeys(Melt(bottom, DateColumns(bottom.headers)));
      var topKeys := TopKeys(TopColumns(Melt(top, DateColumns(top.headers))));
      var key := Key(h.regionId, FormatIsoDate(h.date));
      key in bottomKeys + topKeys
      && (key !in bottomKeys ==> h.countyName.None? && h.bottomPrice.None? && h.topPrice.Some?)
      && (key in bottomKeys ==> h.countyName.Some?)
  {
    var bottomMelted := Melt(bottom, DateColumns(bottom.headers));
    var topRows := TopColumns(Melt(top, DateColumns(top.headers)));
    var merged := MergedTiers(bottom, top);
    HousingRowsFrom(merged);
    var i :| DatedFrom(merged, i, h);
    assert merged[i] in OuterMerge(bottomMelted, topRows);
    OuterMergeNulls(bottomMelted, topRows, merged[i]);
    OuterMergeKeys(bottomMelted, topRows);
    assert MergedKey(merged[i]) in MergedKeys(merged);
  }
}
