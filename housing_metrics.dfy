/** The annual housing tables of scripts/03_housing_and_population_cleaning.py:
    the group-by-mean of monthly prices (`calculate_affordability_metrics` and
    `create_annual_price_trends` both start with it), the minimum-salary columns,
    and the per-region year-over-year growth. Prices are idealised as exact reals. */
module HousingMetrics {
  import opened Tables
  import opened Text
  import opened HousingReshape

  // ---------------------------------------------------------------------------
  // Group keys (lines 142 and 174): `groupby(['RegionID', 'county_name', 'year'])`

  datatype GroupKey = GroupKey(regionId: int, countyName: string, year: nat)

  /** A monthly row forms a group only when no part of its key is null; the rows
      that only the top tier has carry no county name. */
  predicate Keyed(h: HousingRow)
  {
    h.countyName.Some?
  }

  function KeyOf(h: HousingRow): GroupKey
    requires Keyed(h)
  {
    GroupKey(h.regionId, h.countyName.value, h.year)
  }

  /** The order `groupby` sorts its keys in: by region, then county name, then year. */
  predicate KeyLess(a: GroupKey, b: GroupKey)
  {
    a.regionId < b.regionId
    || (a.regionId == b.regionId && (StrLess(a.countyName, b.countyName)
        || (a.countyName == b.countyName && a.year < b.year)))
  }

  lemma KeyLessIrreflexive(a: GroupKey)
    ensures !KeyLess(a, a)
  {
    StrLessIrreflexive(a.countyName);
  }

  lemma KeyLessTransitive(a: GroupKey, b: GroupKey, c: GroupKey)
    requires KeyLess(a, b) && KeyLess(b, c)
    ensures KeyLess(a, c)
  {
    if a.regionId == b.regionId == c.regionId && StrLess(a.countyName, b.countyName) && StrLess(b.countyName, c.countyName) {
      StrLessTransitive(a.countyName, b.countyName, c.countyName);
    }
  }

  lemma KeyLessTotal(a: GroupKey, b: GroupKey)
    ensures a == b || KeyLess(a, b) || KeyLess(b, a)
  {
    StrLessTotal(a.countyName, b.countyName);
  }

  predicate StrictlySorted(keys: seq<GroupKey>)
  {
    forall i, j :: 0 <= i < j < |keys| ==> KeyLess(keys[i], keys[j])
  }

  /** Adds a key to a sorted list of distinct keys, unless it is already there. */
  function InsertKey(k: GroupKey, keys: seq<GroupKey>): (r: seq<GroupKey>)
    requires StrictlySorted(keys)
    ensures StrictlySorted(r)
    ensures forall z :: z in r <==> z == k || z in keys
  {
    if |keys| == 0 then [k]
    else if k == keys[0] then keys
    else if KeyLess(keys[0], k) then
      var rest := InsertKey(k, keys[1..]);
      assert forall z :: z in rest ==> KeyLess(keys[0], z) by {
        forall z | z in rest ensures KeyLess(keys[0], z) {
          if z != k {
            var j :| 0 <= j < |keys[1..]| && keys[1..][j] == z;
            assert keys[j + 1] == z;
          }
        }
      }
      InsertedSorted(keys[0], rest);
      [keys[0]] + rest
    else
      KeyLessTotal(k, keys[0]);
      assert forall j :: 0 <= j < |keys| ==> KeyLess(k, keys[j]) by {
        forall j | 0 <= j < |keys| ensures KeyLess(k, keys[j]) {
          if j > 0 {
            KeyLessTransitive(k, keys[0], keys[j]);
          }
        }
      }
      assert [k] + keys == [k] + keys;
      InsertedSorted(k, keys);
      [k] + keys
  }

  lemma InsertedSorted(k: GroupKey, keys: seq<GroupKey>)
    requires StrictlySorted(keys)
    requires forall z :: z in keys ==> KeyLess(k, z)
    ensures StrictlySorted([k] + keys)
  {
    var r := [k] + keys;
    forall i, j | 0 <= i < j < |r| ensures KeyLess(r[i], r[j]) {
      assert r[j] == keys[j - 1];
      if i > 0 {
        assert r[i] == keys[i - 1];
      } else {
        assert keys[j - 1] in keys;
      }
    }
  }

  /** Row `i` of the monthly table has key `k`. */
  predicate KeyedBy(rows: seq<HousingRow>, i: int, k: GroupKey)
  {
    0 <= i < |rows| && Keyed(rows[i]) && KeyOf(rows[i]) == k
  }

  /** The group keys in the order `groupby` emits them: sorted and distinct, one for
      each key some keyed monthly row has, and no other. */
  function GroupKeys(rows: seq<HousingRow>): (r: seq<GroupKey>)
    ensures StrictlySorted(r)
    ensures forall k :: k in r <==> exists i :: KeyedBy(rows, i, k)
  {
    if |rows| == 0 then []
    else
      var n := |rows| - 1;
      var front := GroupKeys(rows[..n]);
      assert forall i, k :: KeyedBy(rows[..n], i, k) <==> 0 <= i < n && KeyedBy(rows, i, k);
      if Keyed(rows[n]) then
        assert KeyedBy(rows, n, KeyOf(rows[n]));
        InsertKey(KeyOf(rows[n]), front)
      else
        front
  }

  // ---------------------------------------------------------------------------
  // Group means (lines 142-145 and 174-177)

  function InGroup(k: GroupKey): HousingRow -> bool
  {
    (h: HousingRow) => h.countyName == Some(k.countyName) && h.regionId == k.regionId && h.year == k.year
  }

  /** The monthly rows of one group, in order. */
  function Group(rows: seq<HousingRow>, k: GroupKey): (r: seq<HousingRow>)
    ensures forall h :: h in r <==> h in rows && Keyed(h) && KeyOf(h) == k
  {
    Keep(rows, InGroup(k))
  }

  function BottomPrices(rows: seq<HousingRow>): (r: seq<Option<real>>)
    ensures |r| == |rows|
  {
    seq(|rows|, i requires 0 <= i < |rows| => rows[i].bottomPrice)
  }

  function TopPrices(rows: seq<HousingRow>): (r: seq<Option<real>>)
    ensures |r| == |rows|
  {
    seq(|rows|, i requires 0 <= i < |rows| => rows[i].topPrice)
  }

  /** A row of `annual_housing` / `annual_trends` after `reset_index`. */
  datatype AnnualRow = AnnualRow(regionId: int, countyName: string, year: nat,
    bottomPrice: Option<real>, topPrice: Option<real>)

  function KeyOfAnnual(a: AnnualRow): GroupKey
  {
    GroupKey(a.regionId, a.countyName, a.year)
  }

  function AnnualFor(rows: seq<HousingRow>, k: GroupKey): AnnualRow
  {
    var g := Group(rows, k);
    AnnualRow(k.regionId, k.countyName, k.year, Mean(BottomPrices(g)), Mean(TopPrices(g)))
  }

  /** `.agg({'bottom_tier_price': 'mean', 'top_tier_price': 'mean'}).reset_index()`:
      one row per group key, in key order. */
  function AnnualHousing(rows: seq<HousingRow>): (r: seq<AnnualRow>)
  {
    var keys := GroupKeys(rows);
    seq(|keys|, j requires 0 <= j < |keys| => AnnualFor(rows, keys[j]))
  }

  /** Some annual row has key `k`. */
  predicate HasAnnualRow(annual: seq<AnnualRow>, k: GroupKey)
  {
    exists j :: 0 <= j < |annual| && KeyOfAnnual(annual[j]) == k
  }

  lemma AnnualKeysAre(rows: seq<HousingRow>)
    ensures |AnnualHousing(rows)| == |GroupKeys(rows)|
    ensures forall j :: 0 <= j < |GroupKeys(rows)| ==> KeyOfAnnual(AnnualHousing(rows)[j]) == GroupKeys(rows)[j]
  {
  }

  /** The annual rows come in increasing key order, so no key occurs twice. */
  lemma AnnualHousingSorted(rows: seq<HousingRow>)
    ensures var annual := AnnualHousing(rows);
      forall i, j :: 0 <= i < j < |annual| ==> KeyLess(KeyOfAnnual(annual[i]), KeyOfAnnual(annual[j]))
  {
    AnnualKeysAre(rows);
  }

  /** The annual table has a row for each key of a keyed monthly row and for no other
      key: rows without a county name form no group. */
  lemma AnnualHousingKeys(rows: seq<HousingRow>, k: GroupKey)
    ensures HasAnnualRow(AnnualHousing(rows), k) <==> exists i :: KeyedBy(rows, i, k)
  {
    var keys := GroupKeys(rows);
    AnnualKeysAre(rows);
    assert HasAnnualRow(AnnualHousing(rows), k) <==> k in keys by {
      var annual := AnnualHousing(rows);
      if HasAnnualRow(annual, k) {
        var j :| 0 <= j < |annual| && KeyOfAnnual(annual[j]) == k;
        assert keys[j] == k;
      }
      if k in keys {
        var j :| 0 <= j < |keys| && keys[j] == k;
        assert KeyOfAnnual(annual[j]) == k;
      }
    }
  }

  /** The rows of a group that have a price of the given tier. */
  predicate GroupPriced(g: seq<HousingRow>, bottom: bool)
  {
    exists i :: 0 <= i < |g| && (if bottom then g[i].bottomPrice.Some? else g[i].topPrice.Some?)
  }

  /** Each annual price is null exactly when no monthly row of its group has that
      price, and otherwise lies between the group's least and greatest monthly price. */
  lemma AnnualPriceMeaning(rows: seq<HousingRow>, k: GroupKey, lo: real, hi: real)
    requires forall h :: h in Group(rows, k) && h.bottomPrice.Some? ==> lo <= h.bottomPrice.value <= hi
    ensures AnnualFor(rows, k).bottomPrice.None? <==> !GroupPriced(Group(rows, k), true)
    ensures AnnualFor(rows, k).bottomPrice.Some? ==> lo <= AnnualFor(rows, k).bottomPrice.value <= hi
    ensures AnnualFor(rows, k).topPrice.None? <==> !GroupPriced(Group(rows, k), false)
  {
    var g := Group(rows, k);
    var bs := BottomPrices(g);
    var ts := TopPrices(g);
    forall c | c in bs && c.Some? ensures lo <= c.value <= hi {
      var i :| 0 <= i < |bs| && bs[i] == c;
      assert g[i] in g;
    }
    MeanWithin(bs, lo, hi);
    if GroupPriced(g, true) {
      var i :| 0 <= i < |g| && g[i].bottomPrice.Some?;
      assert bs[i] in bs;
    }
    if GroupPriced(g, false) {
      var i :| 0 <= i < |g| && g[i].topPrice.Some?;
      assert ts[i] in ts;
    }
  }

  // ---------------------------------------------------------------------------
  // Minimum salary (lines 147-153)

  /** A row of `annual_housing` once the cost and salary columns are added. */
  datatype AffordabilityRow = AffordabilityRow(annual: AnnualRow,
    bottomAnnualCost: Option<real>, topAnnualCost: Option<real>,
    bottomMinSalary: Option<real>, topMinSalary: Option<real>)

  /** The yearly cost of owning a home, as a share of its price. */
  const AnnualCostRate: real := 0.05
  /** The share of income housing may take (the 30% rule). */
  const IncomeShare: real := 0.30

  /** `price * 0.05`; a null price gives a null cost. */
  function AnnualCost(price: Option<real>): Option<real>
  {
    if price.None? then None else Some(price.value * AnnualCostRate)
  }

  /** `cost / 0.30`; a null cost gives a null salary. */
  function MinSalary(cost: Option<real>): Option<real>
  {
    if cost.None? then None else Some(cost.value / IncomeShare)
  }

  /** The salary for a price is one sixth of it, and null exactly when the price is. */
  predicate SixthOf(price: Option<real>, salary: Option<real>)
  {
    (price.None? ==> salary.None?) && (price.Some? ==> salary == Some(price.value / 6.0))
  }

  lemma MinSalaryIsSixth(price: Option<real>)
    ensures SixthOf(price, MinSalary(AnnualCost(price)))
  {
    if price.Some? {
      var p := price.value;
      calc {
        p * AnnualCostRate / IncomeShare;
        p * (1.0 / 20.0) / (3.0 / 10.0);
        p / 6.0;
      }
    }
  }

  lemma MinSalaryExample()
    ensures MinSalary(AnnualCost(Some(300000.0))) == Some(50000.0)
  {
    MinSalaryIsSixth(Some(300000.0));
  }

  /** `calculate_affordability_metrics` without its file output: the annual means,
      then the cost columns, then the salary columns, each added to every row. */
  method CalculateAffordabilityMetrics(housing: seq<HousingRow>) returns (annualHousing: seq<AffordabilityRow>)
    ensures |annualHousing| == |AnnualHousing(housing)|
    ensures forall i :: 0 <= i < |annualHousing| ==> annualHousing[i].annual == AnnualHousing(housing)[i]
    ensures forall i :: 0 <= i < |annualHousing| ==>
      annualHousing[i].bottomAnnualCost == AnnualCost(annualHousing[i].annual.bottomPrice)
      && annualHousing[i].topAnnualCost == AnnualCost(annualHousing[i].annual.topPrice)
    ensures forall i :: 0 <= i < |annualHousing| ==>
      SixthOf(annualHousing[i].annual.bottomPrice, annualHousing[i].bottomMinSalary)
      && SixthOf(annualHousing[i].annual.topPrice, annualHousing[i].topMinSalary)
  {
    var annual := AnnualHousing(housing);
    annualHousing := seq(|annual|, i requires 0 <= i < |annual| => AffordabilityRow(annual[i], None, None, None, None));
    annualHousing := seq(|annualHousing|, i requires 0 <= i < |annualHousing| =>
      annualHousing[i].(bottomAnnualCost := AnnualCost(annualHousing[i].annual.bottomPrice),
                        topAnnualCost := AnnualCost(annualHousing[i].annual.topPrice)));
    annualHousing := seq(|annualHousing|, i requires 0 <= i < |annualHousing| =>
      annualHousing[i].(bottomMinSalary := MinSalary(annualHousing[i].bottomAnnualCost),
                        topMinSalary := MinSalary(annualHousing[i].topAnnualCost)));
    forall i | 0 <= i < |annualHousing|
      ensures SixthOf(annualHousing[i].annual.bottomPrice, annualHousing[i].bottomMinSalary)
      ensures SixthOf(annualHousing[i].annual.topPrice, annualHousing[i].topMinSalary)
    {
      MinSalaryIsSixth(annualHousing[i].annual.bottomPrice);
      MinSalaryIsSixth(annualHousing[i].annual.topPrice);
    }
  }

  // ---------------------------------------------------------------------------
  // Sorting by region and year (line 180)

  predicate RegionYearLess(a: AnnualRow, b: AnnualRow)
  {
    a.regionId < b.regionId || (a.regionId == b.regionId && a.year < b.year)
  }

  predicate RegionYearLe(a: AnnualRow, b: AnnualRow)
  {
    a.regionId < b.regionId || (a.regionId == b.regionId && a.year <= b.year)
  }

  predicate SortedByRegionYear(rows: seq<AnnualRow>)
  {
    forall i, j :: 0 <= i < j < |rows| ==> RegionYearLe(rows[i], rows[j])
  }

  /** Inserts a row before the first row that does not sort strictly before it, so
      rows with the same region and year keep their input order. */
  function InsertRow(x: AnnualRow, rows: seq<AnnualRow>): (r: seq<AnnualRow>)
    requires SortedByRegionYear(rows)
    ensures SortedByRegionYear(r)
    ensures |r| == |rows| + 1
    ensures forall z :: z in r <==> z == x || z in rows
  {
    if |rows| == 0 then [x]
    else if RegionYearLess(rows[0], x) then
      var rest := InsertRow(x, rows[1..]);
      assert forall j :: 0 <= j < |rest| ==> RegionYearLe(rows[0], rest[j]) by {
        forall j | 0 <= j < |rest| ensures RegionYearLe(rows[0], rest[j]) {
          if rest[j] != x {
            assert rest[j] in rows[1..];
            var k :| 0 <= k < |rows[1..]| && rows[1..][k] == rest[j];
            assert rows[k + 1] == rest[j];
          }
        }
      }
      PrependSorted(rows[0], rest);
      [rows[0]] + rest
    else
      assert forall j :: 0 <= j < |rows| ==> RegionYearLe(x, rows[j]) by {
        forall j | 0 <= j < |rows| ensures RegionYearLe(x, rows[j]) {
          assert RegionYearLe(rows[0], rows[j]);
        }
      }
      PrependSorted(x, rows);
      [x] + rows
  }

  lemma PrependSorted(x: AnnualRow, rows: seq<AnnualRow>)
    requires SortedByRegionYear(rows)
    requires forall j :: 0 <= j < |rows| ==> RegionYearLe(x, rows[j])
    ensures SortedByRegionYear([x] + rows)
  {
    var r := [x] + rows;
    forall i, j | 0 <= i < j < |r| ensures RegionYearLe(r[i], r[j]) {
      assert r[j] == rows[j - 1];
      if i > 0 {
        assert r[i] == rows[i - 1];
      }
    }
  }

  /** `sort_values(['RegionID', 'year'])`, stable: an insertion sort. */
  function SortByRegionYear(rows: seq<AnnualRow>): (r: seq<AnnualRow>)
    ensures SortedByRegionYear(r)
    ensures |r| == |rows|
  {
    if |rows| == 0 then [] else InsertRow(rows[0], SortByRegionYear(rows[1..]))
  }

  lemma {:induction false} InsertRowCount(x: AnnualRow, rows: seq<AnnualRow>)
    requires SortedByRegionYear(rows)
    ensures multiset(InsertRow(x, rows)) == multiset(rows) + multiset{x}
  {
    if |rows| > 0 && RegionYearLess(rows[0], x) {
      InsertRowCount(x, rows[1..]);
      assert rows == [rows[0]] + rows[1..];
    }
  }

  /** Sorting only reorders the rows. */
  lemma {:induction false} SortPermutes(rows: seq<AnnualRow>)
    ensures multiset(SortByRegionYear(rows)) == multiset(rows)
  {
    if |rows| > 0 {
      SortPermutes(rows[1..]);
      InsertRowCount(rows[0], SortByRegionYear(rows[1..]));
      assert rows == [rows[0]] + rows[1..];
    }
  }

  /** The rows with a given region and year: the rows the sort cannot tell apart. */
  function TiedWith(id: int, year: nat): AnnualRow -> bool
  {
    (a: AnnualRow) => a.regionId == id && a.year == year
  }

  lemma SortedTail(rows: seq<AnnualRow>)
    requires SortedByRegionYear(rows) && |rows| > 0
    ensures SortedByRegionYear(rows[1..])
  {
    forall i, j | 0 <= i < j < |rows| - 1 ensures RegionYearLe(rows[1..][i], rows[1..][j]) {
      assert rows[1..][i] == rows[i + 1] && rows[1..][j] == rows[j + 1];
    }
  }

  /** Inserting a row puts it in front of the rows it ties with. */
  lemma {:induction false} InsertRowTies(x: AnnualRow, rows: seq<AnnualRow>, id: int, year: nat)
    requires SortedByRegionYear(rows)
    ensures Keep(InsertRow(x, rows), TiedWith(id, year))
      == (if TiedWith(id, year)(x) then [x] else []) + Keep(rows, TiedWith(id, year))
  {
    var tied := TiedWith(id, year);
    if |rows| == 0 {
      assert InsertRow(x, rows) == [x] + rows;
      KeepCons(x, rows, tied);
    } else if RegionYearLess(rows[0], x) {
      SortedTail(rows);
      var rest := InsertRow(x, rows[1..]);
      assert InsertRow(x, rows) == [rows[0]] + rest;
      InsertRowTies(x, rows[1..], id, year);
      assert rows == [rows[0]] + rows[1..];
      if tied(x) {
        assert !tied(rows[0]);
        KeepPastUntied(rows[0], x, rest, rows[1..], tied);
      } else {
        KeepSameFront(rows[0], rest, rows[1..], tied);
      }
    } else {
      assert InsertRow(x, rows) == [x] + rows;
      KeepCons(x, rows, tied);
    }
  }

  /** A row in front that does not tie with `x` keeps `x` first among the tied rows. */
  lemma KeepPastUntied(y: AnnualRow, x: AnnualRow, rest: seq<AnnualRow>, tail: seq<AnnualRow>, tied: AnnualRow -> bool)
    requires Keep(rest, tied) == [x] + Keep(tail, tied)
    requires !tied(y)
    ensures Keep([y] + rest, tied) == [x] + Keep([y] + tail, tied)
  {
    KeepCons(y, rest, tied);
    KeepCons(y, tail, tied);
  }

  /** A row in front selects alike from two tables that select alike. */
  lemma KeepSameFront(y: AnnualRow, rest: seq<AnnualRow>, tail: seq<AnnualRow>, tied: AnnualRow -> bool)
    requires Keep(rest, tied) == Keep(tail, tied)
    ensures Keep([y] + rest, tied) == Keep([y] + tail, tied)
  {
    KeepCons(y, rest, tied);
    KeepCons(y, tail, tied);
  }

  /** The sort is stable: rows tied on (RegionID, year) keep their input order. */
  lemma {:induction false} SortKeepsTies(rows: seq<AnnualRow>, id: int, year: nat)
    ensures Keep(SortByRegionYear(rows), TiedWith(id, year)) == Keep(rows, TiedWith(id, year))
  {
    if |rows| > 0 {
      SortKeepsTies(rows[1..], id, year);
      InsertRowTies(rows[0], SortByRegionYear(rows[1..]), id, year);
    }
  }

  // ---------------------------------------------------------------------------
  // Growth (lines 181-182): `groupby('RegionID')[price].pct_change() * 100`

  datatype Tier = Bottom | Top

  function Price(a: AnnualRow, tier: Tier): Option<real>
  {
    match tier
    case Bottom => a.bottomPrice
    case Top => a.topPrice
  }

  /** The last row before position `n` that belongs to region `id`: the row
      `pct_change` compares with inside the region's group. */
  function LastBefore(rows: seq<AnnualRow>, id: int, n: nat): (r: Option<nat>)
    requires n <= |rows|
    ensures r.Some? ==> r.value < n && rows[r.value].regionId == id
    ensures r.Some? ==> forall k :: r.value < k < n ==> rows[k].regionId != id
    ensures r.None? <==> forall k :: 0 <= k < n ==> rows[k].regionId != id
  {
    if n == 0 then None
    else if rows[n - 1].regionId == id then Some(n - 1)
    else LastBefore(rows, id, n - 1)
  }

  /** The case the formula covers: a row with a predecessor in its region has a price,
      and the predecessor a non-zero one. */
  predicate GrowthDefinedAt(rows: seq<AnnualRow>, i: nat, tier: Tier)
    requires i < |rows|
  {
    var prev := LastBefore(rows, rows[i].regionId, i);
    prev.Some? ==>
      (Price(rows[i], tier).Some? && Price(rows[prev.value], tier).Some? && Price(rows[prev.value], tier).value != 0.0)
  }

  predicate GrowthDefined(rows: seq<AnnualRow>)
  {
    forall i :: 0 <= i < |rows| ==> GrowthDefinedAt(rows, i, Bottom) && GrowthDefinedAt(rows, i, Top)
  }

  /** `pct_change() * 100`: `(cur / prev - 1) * 100`. */
  function PctChange(prev: real, cur: real): real
    requires prev != 0.0
  {
    (cur / prev - 1.0) * 100.0
  }

  lemma PctChangeFormula(prev: real, cur: real)
    requires prev != 0.0
    ensures PctChange(prev, cur) == (cur - prev) / prev * 100.0
  {
    calc {
      cur / prev - 1.0;
      cur / prev - prev / prev;
      (cur - prev) / prev;
    }
  }

  /** The growth of row `i`: null for the first row of its region, else the change
      from the previous row of the region. */
  function Growth(rows: seq<AnnualRow>, i: nat, tier: Tier): Option<real>
    requires i < |rows| && GrowthDefinedAt(rows, i, tier)
  {
    var prev := LastBefore(rows, rows[i].regionId, i);
    if prev.None? then None
    else Some(PctChange(Price(rows[prev.value], tier).value, Price(rows[i], tier).value))
  }

  /** After sorting, the first row of each region has null growth. */
  lemma FirstOfRegionGrowth(rows: seq<AnnualRow>, i: nat, tier: Tier)
    requires SortedByRegionYear(rows) && i < |rows| && GrowthDefinedAt(rows, i, tier)
    requires i == 0 || rows[i - 1].regionId != rows[i].regionId
    ensures Growth(rows, i, tier).None?
  {
    forall k | 0 <= k < i ensures rows[k].regionId != rows[i].regionId {
      assert RegionYearLe(rows[k], rows[i - 1]) || k == i - 1;
      assert RegionYearLe(rows[i - 1], rows[i]);
    }
  }

  /** After sorting, every later row of a region is compared with the row just
      before it, which is the same region's previous year (or the same year): the
      growth is `(cur - prev) / prev * 100`. */
  lemma LaterRowGrowth(rows: seq<AnnualRow>, i: nat, tier: Tier)
    requires SortedByRegionYear(rows) && 0 < i < |rows| && GrowthDefinedAt(rows, i, tier)
    requires rows[i - 1].regionId == rows[i].regionId
    ensures rows[i - 1].year <= rows[i].year
    ensures Price(rows[i - 1], tier).Some? && Price(rows[i], tier).Some?
    ensures Growth(rows, i, tier) == Some((Price(rows[i], tier).value - Price(rows[i - 1], tier).value)
      / Price(rows[i - 1], tier).value * 100.0)
  {
    assert RegionYearLe(rows[i - 1], rows[i]);
    PctChangeFormula(Price(rows[i - 1], tier).value, Price(rows[i], tier).value);
  }

  lemma GrowthExample()
    ensures var rows := [AnnualRow(7, "Kent", 2020, Some(100.0), None),
                         AnnualRow(7, "Kent", 2021, Some(110.0), None),
                         AnnualRow(7, "Kent", 2022, Some(99.0), None)];
      GrowthDefinedAt(rows, 1, Bottom) && GrowthDefinedAt(rows, 2, Bottom)
      && Growth(rows, 0, Bottom).None? && Growth(rows, 1, Bottom) == Some(10.0) && Growth(rows, 2, Bottom) == Some(-10.0)
  {
  }

  /** A row of `annual_trends` once the growth columns are added. */
  datatype TrendRow = TrendRow(annual: AnnualRow, bottomGrowth: Option<real>, topGrowth: Option<real>)

  /** The annual rows of a trends table. */
  function Annuals(trends: seq<TrendRow>): (r: seq<AnnualRow>)
    ensures |r| == |trends|
  {
    seq(|trends|, i requires 0 <= i < |trends| => trends[i].annual)
  }

  /** Lines 180-182 on the annual table: sort it by region and year, then add the
      growth of each tier. */
  method AddGrowthColumns(annual: seq<AnnualRow>) returns (annualTrends: seq<TrendRow>)
    requires GrowthDefined(SortByRegionYear(annual))
    ensures multiset(Annuals(annualTrends)) == multiset(annual)
    ensures SortedByRegionYear(Annuals(annualTrends))
    ensures var sorted := SortByRegionYear(annual);
      |annualTrends| == |sorted|
      && forall i :: 0 <= i < |annualTrends| ==>
        (annualTrends[i].annual == sorted[i] && annualTrends[i].bottomGrowth == Growth(sorted, i, Bottom)
         && annualTrends[i].topGrowth == Growth(sorted, i, Top))
  {
    var sorted := SortByRegionYear(annual);
    SortPermutes(annual);
    annualTrends := seq(|sorted|, i requires 0 <= i < |sorted| => TrendRow(sorted[i], Growth(sorted, i, Bottom), Growth(sorted, i, Top)));
    assert Annuals(annualTrends) == sorted;
  }

  /** `create_annual_price_trends` without its file output, for inputs whose growth the
      formula covers: the annual means, as a permutation sorted by region and year,
      each with its growth. */
  method CreateAnnualPriceTrends(housing: seq<HousingRow>) returns (annualTrends: seq<TrendRow>)
    requires GrowthDefined(SortByRegionYear(AnnualHousing(housing)))
    ensures multiset(Annuals(annualTrends)) == multiset(AnnualHousing(housing))
    ensures SortedByRegionYear(Annuals(annualTrends))
    ensures var sorted := SortByRegionYear(AnnualHousing(housing));
      |annualTrends| == |sorted|
      && forall i :: 0 <= i < |annualTrends| ==>
        (annualTrends[i].annual == sorted[i] && annualTrends[i].bottomGrowth == Growth(sorted, i, Bottom)
         && annualTrends[i].topGrowth == Growth(sorted, i, Top))
  {
    var annual := AnnualHousing(housing);
    annualTrends := AddGrowthColumns(annual);
  }
}
