/** The FIPS repair and name matching of scripts/04_fix_fips_codes.py: re-pad the
    codes of the counties and economic tables, build the cleaned-name to FIPS
    dictionary from the counties table (adding the cleaned name as a column of that
    table), and attach a FIPS code to the affordability, trends and population
    tables by looking up each row's cleaned county name. */
module FipsRepair {
  import opened Tables
  import opened Text
  import opened UnemploymentCleaning
  import opened HousingMetrics
  import PopulationCleaning

  // ---------------------------------------------------------------------------
  // Re-padding (lines 21 and 34)

  function RepadCounty(c: CountyRecord): CountyRecord
  {
    c.(fipsCode := ZFill(c.fipsCode, FipsWidth))
  }

  function RepadFact(f: EconomicFact): EconomicFact
  {
    f.(fipsCode := ZFill(f.fipsCode, FipsWidth))
  }

  /** Line 21: one row per row, in order; only the code changes, it becomes at least
      five characters long, and a code already that long is left alone. */
  function RepadCounties(counties: seq<CountyRecord>): (r: seq<CountyRecord>)
    ensures |r| == |counties|
    ensures forall i :: 0 <= i < |r| ==> r[i].(fipsCode := counties[i].fipsCode) == counties[i]
    ensures forall i :: 0 <= i < |r| ==> |r[i].fipsCode| >= FipsWidth
    ensures forall i :: 0 <= i < |r| && |counties[i].fipsCode| >= FipsWidth ==> r[i] == counties[i]
  {
    seq(|counties|, i requires 0 <= i < |counties| => RepadCounty(counties[i]))
  }

  /** Line 34, the same for the economic table. */
  function RepadEconomic(economic: seq<EconomicFact>): (r: seq<EconomicFact>)
    ensures |r| == |economic|
    ensures forall i :: 0 <= i < |r| ==> r[i].(fipsCode := economic[i].fipsCode) == economic[i]
    ensures forall i :: 0 <= i < |r| ==> |r[i].fipsCode| >= FipsWidth
    ensures forall i :: 0 <= i < |r| && |economic[i].fipsCode| >= FipsWidth ==> r[i] == economic[i]
  {
    seq(|economic|, i requires 0 <= i < |economic| => RepadFact(economic[i]))
  }

  /** Re-padding twice is re-padding once. */
  lemma RepadIdempotent(counties: seq<CountyRecord>, economic: seq<EconomicFact>)
    ensures RepadCounties(RepadCounties(counties)) == RepadCounties(counties)
    ensures RepadEconomic(RepadEconomic(economic)) == RepadEconomic(economic)
  {
    var c := RepadCounties(counties);
    var e := RepadEconomic(economic);
    assert RepadCounties(c) == c;
    assert RepadEconomic(e) == e;
  }

  /** The counties table written by the unemployment cleaning is already padded,
      so re-padding it changes nothing. */
  lemma RepadAfterCleaning(rows: seq<SourceRow>)
    ensures RepadCounties(ProjectCounties(CountyRows(rows))) == ProjectCounties(CountyRows(rows))
  {
    var counties := ProjectCounties(CountyRows(rows));
    CountyTableInvariant(rows);
    forall i | 0 <= i < |counties| ensures |counties[i].fipsCode| >= FipsWidth {
      assert counties[i] in counties;
    }
  }

  /** `check_and_fix_fips_codes` on the two tables as read back from CSV. */
  method CheckAndFixFipsCodes(countiesDf: seq<CountyRecord>, economicDf: seq<EconomicFact>)
    returns (counties: seq<CountyRecord>, economic: seq<EconomicFact>)
    ensures counties == RepadCounties(countiesDf) && economic == RepadEconomic(economicDf)
  {
    counties := countiesDf;
    counties := seq(|counties|, i requires 0 <= i < |counties| => counties[i].(fipsCode := ZFill(counties[i].fipsCode, FipsWidth)));
    economic := economicDf;
    economic := seq(|economic|, i requires 0 <= i < |economic| => economic[i].(fipsCode := ZFill(economic[i].fipsCode, FipsWidth)));
  }

  // ---------------------------------------------------------------------------
  // Name cleaning (lines 64, 91, 106 and 121-124)

  /** `str.lower().str.strip()`. */
  function CleanName(s: string): string
  {
    Strip(Lower(s))
  }

  /** A cleaned name is its own cleaning. */
  lemma CleanNameIdempotent(s: string)
    ensures CleanName(CleanName(s)) == CleanName(s)
  {
    LowerStrip(Lower(s));
    LowerIdempotent(s);
    StripIdempotent(Lower(s));
  }

  /** The population cleaner: every '.' removed, then `lower`, then `strip`. */
  function CleanPopulationName(s: string): string
  {
    Strip(Lower(RemoveChar(s, '.')))
  }

  lemma LowerKeepsNoDot(s: string)
    requires '.' !in s
    ensures '.' !in Lower(s)
  {
    forall i | 0 <= i < |s| ensures Lower(s)[i] != '.' {
      assert s[i] in s;
    }
  }

  lemma StripKeepsNoDot(s: string)
    requires '.' !in s
    ensures '.' !in Strip(s)
  {
    StripSlice(s);
    var i, j :| 0 <= i <= j <= |s| && Strip(s) == s[i..j];
    assert forall k :: 0 <= k < j - i ==> s[i..j][k] == s[i + k];
  }

  /** Stripping removes whitespace only: any other character of the input stays. */
  lemma StripKeeps(s: string, c: char)
    requires c in s && !IsSpace(c)
    ensures c in Strip(s)
  {
    var k :| 0 <= k < |s| && s[k] == c;
    var t := TrimLeft(s);
    var i := |s| - |t|;
    assert i <= k;
    assert t[k - i] == c;
    var r := TrimRight(t);
    assert k - i < |r|;
    assert r[k - i] == c;
  }

  /** A cleaned population name has no '.' left anywhere, and on a name without
      '.' the population cleaner agrees with the plain one. */
  lemma CleanPopulationNameSpec(s: string)
    ensures '.' !in CleanPopulationName(s)
    ensures '.' !in s ==> CleanPopulationName(s) == CleanName(s)
  {
    var t := RemoveChar(s, '.');
    LowerKeepsNoDot(t);
    StripKeepsNoDot(Lower(t));
    if '.' !in s {
      RemoveCharAbsent(s, '.');
    }
  }

  /** The census writes county names with a leading '.'; the population cleaner
      removes it, so such a name meets the plain cleaning of the bare name. */
  lemma LeadingPeriodRemoved(s: string)
    requires '.' !in s
    ensures CleanPopulationName(['.'] + s) == CleanName(s)
  {
    var t := ['.'] + s;
    assert t[0] == '.' && t[1..] == s;
    assert RemoveChar(t, '.') == RemoveChar(s, '.');
    RemoveCharAbsent(s, '.');
  }

  /** The period is removed everywhere, not only in front, while the mapping keys
      keep theirs: no population name can ever meet the key of a county whose name
      contains a '.' (as in "St. Clair"). */
  lemma PeriodKeysUnreachable(countyName: string, populationName: string)
    requires '.' in countyName
    ensures CleanPopulationName(populationName) != CleanName(countyName)
  {
    CleanPopulationNameSpec(populationName);
    var i :| 0 <= i < |countyName| && countyName[i] == '.';
    assert Lower(countyName)[i] == '.';
    StripKeeps(Lower(countyName), '.');
  }

  // ---------------------------------------------------------------------------
  // `dict(zip(keys, values))` (line 67)

  /** The dictionary built from two equally long columns: a later pair overwrites an
      earlier pair with the same key. */
  function DictZip(keys: seq<string>, values: seq<string>): (r: map<string, string>)
    requires |keys| == |values|
    ensures forall k :: k in r <==> k in keys
    ensures |r| <= |keys|
  {
    if |keys| == 0 then map[]
    else
      var n := |keys| - 1;
      var front := DictZip(keys[..n], values[..n]);
      assert keys == keys[..n] + [keys[n]];
      assert front.Keys + {keys[n]} == front[keys[n] := values[n]].Keys;
      front[keys[n] := values[n]]
  }

  /** The value of a key is the value paired with its last occurrence. */
  lemma {:induction false} DictZipLastWins(keys: seq<string>, values: seq<string>, i: nat)
    requires |keys| == |values| && i < |keys|
    requires forall j :: i < j < |keys| ==> keys[j] != keys[i]
    ensures keys[i] in DictZip(keys, values) && DictZip(keys, values)[keys[i]] == values[i]
  {
    var n := |keys| - 1;
    if i < n {
      DictZipLastWins(keys[..n], values[..n], i);
    }
  }

  /** With pairwise distinct keys the dictionary has one entry per pair. */
  lemma {:induction false} DictZipDistinct(keys: seq<string>, values: seq<string>)
    requires |keys| == |values|
    requires forall i, j :: 0 <= i < j < |keys| ==> keys[i] != keys[j]
    ensures |DictZip(keys, values)| == |keys|
  {
    if |keys| > 0 {
      var n := |keys| - 1;
      DictZipDistinct(keys[..n], values[..n]);
      var front := DictZip(keys[..n], values[..n]);
      assert keys[n] !in keys[..n];
    }
  }

  /** Every value the dictionary holds was paired with its key. */
  lemma {:induction false} DictZipValues(keys: seq<string>, values: seq<string>, k: string)
    requires |keys| == |values| && k in DictZip(keys, values)
    ensures exists i :: 0 <= i < |keys| && keys[i] == k && DictZip(keys, values)[k] == values[i]
  {
    var n := |keys| - 1;
    if keys[n] != k {
      DictZipValues(keys[..n], values[..n], k);
      var i :| 0 <= i < n && keys[..n][i] == k && DictZip(keys[..n], values[..n])[k] == values[..n][i];
      assert keys[i] == k && values[i] == values[..n][i];
    }
  }

  // ---------------------------------------------------------------------------
  // The name to FIPS mapping (lines 64-76)

  function CleanNames(counties: seq<CountyRecord>): (r: seq<string>)
    ensures |r| == |counties|
  {
    seq(|counties|, i requires 0 <= i < |counties| => CleanName(counties[i].countyName))
  }

  function FipsColumn(counties: seq<CountyRecord>): (r: seq<string>)
    ensures |r| == |counties|
  {
    seq(|counties|, i requires 0 <= i < |counties| => counties[i].fipsCode)
  }

  /** `fips_mapping`: cleaned county name to FIPS code. */
  function FipsMapping(counties: seq<CountyRecord>): map<string, string>
  {
    DictZip(CleanNames(counties), FipsColumn(counties))
  }

  /** County `i` has cleaned name `name`. */
  predicate NamedAt(counties: seq<CountyRecord>, i: int, name: string)
  {
    0 <= i < |counties| && CleanName(counties[i].countyName) == name
  }

  /** County `i` is the last county whose name cleans to `name`. */
  predicate LastNamed(counties: seq<CountyRecord>, i: int, name: string)
  {
    NamedAt(counties, i, name) && forall j :: i < j < |counties| ==> CleanName(counties[j].countyName) != name
  }

  /** The mapping's keys are exactly the cleaned county names. */
  lemma FipsMappingKeys(counties: seq<CountyRecord>, name: string)
    ensures name in FipsMapping(counties) <==> exists i :: NamedAt(counties, i, name)
  {
    var names := CleanNames(counties);
    if name in names {
      var i :| 0 <= i < |names| && names[i] == name;
      assert NamedAt(counties, i, name);
    }
    if exists i :: NamedAt(counties, i, name) {
      var i :| NamedAt(counties, i, name);
      assert names[i] == name;
    }
  }

  /** There are at most as many keys as counties, and as many when no two names
      clean alike. */
  lemma FipsMappingSize(counties: seq<CountyRecord>)
    ensures |FipsMapping(counties)| <= |counties|
    ensures (forall i, j :: 0 <= i < j < |counties| ==> CleanName(counties[i].countyName) != CleanName(counties[j].countyName))
      ==> |FipsMapping(counties)| == |counties|
  {
    var names := CleanNames(counties);
    if forall i, j :: 0 <= i < j < |counties| ==> CleanName(counties[i].countyName) != CleanName(counties[j].countyName) {
      assert forall i, j :: 0 <= i < j < |names| ==> names[i] != names[j];
      DictZipDistinct(names, FipsColumn(counties));
    }
  }

  /** Collisions are not detected: a name shared by several counties maps to the code
      of the last of them. */
  lemma FipsMappingLastWins(counties: seq<CountyRecord>, i: int, name: string)
    requires LastNamed(counties, i, name)
    ensures name in FipsMapping(counties) && FipsMapping(counties)[name] == counties[i].fipsCode
  {
    DictZipLastWins(CleanNames(counties), FipsColumn(counties), i);
  }

  /** Every code in the mapping is the code of a county with that cleaned name. */
  lemma FipsMappingValues(counties: seq<CountyRecord>, name: string)
    requires name in FipsMapping(counties)
    ensures exists i :: NamedAt(counties, i, name) && FipsMapping(counties)[name] == counties[i].fipsCode
  {
    DictZipValues(CleanNames(counties), FipsColumn(counties), name);
  }

  /** A row of `county_fips_mapping.csv`. */
  datatype MappingRow = MappingRow(fipsCode: string, countyName: string, state: string)

  /** Line 75: the code, name and state of every county, in county order. */
  function MappingFile(counties: seq<CountyRecord>): (r: seq<MappingRow>)
    ensures |r| == |counties|
    ensures forall i :: 0 <= i < |r| ==>
      r[i].fipsCode == counties[i].fipsCode && r[i].countyName == counties[i].countyName && r[i].state == counties[i].state
  {
    seq(|counties|, i requires 0 <= i < |counties| => MappingRow(counties[i].fipsCode, counties[i].countyName, counties[i].state))
  }

  /** The counties frame passed to `create_county_name_to_fips_mapping`, which gains a
      `clean_county_name` column visible to the caller. */
  class CountiesFrame {
    var rows: seq<CountyRecord>
    /** Null until the column is added. */
    var cleanCountyName: Option<seq<string>>

    constructor (rows: seq<CountyRecord>)
      ensures this.rows == rows && cleanCountyName.None?
    {
      this.rows := rows;
      cleanCountyName := None;
    }

    /** Lines 64-79: adds the cleaned names as a column of the frame, zips them with
        the codes into the mapping, and projects the reference file. */
    method CreateCountyNameToFipsMapping() returns (fipsMapping: map<string, string>, mappingDf: seq<MappingRow>)
      modifies this
      ensures rows == old(rows)
      ensures cleanCountyName == Some(CleanNames(rows))
      ensures fipsMapping == FipsMapping(rows)
      ensures mappingDf == MappingFile(rows)
    {
      var df := rows;
      var clean := seq(|df|, i requires 0 <= i < |df| => CleanName(df[i].countyName));
      assert clean == CleanNames(df);
      cleanCountyName := Some(clean);
      var codes := seq(|df|, i requires 0 <= i < |df| => df[i].fipsCode);
      assert codes == FipsColumn(df);
      fipsMapping := DictZip(clean, codes);
      mappingDf := seq(|df|, i requires 0 <= i < |df| => MappingRow(df[i].fipsCode, df[i].countyName, df[i].state));
      assert mappingDf == MappingFile(df);
    }
  }

  // ---------------------------------------------------------------------------
  // Attaching codes (lines 91-108 and 121-135)

  /** A saved row: the table's own columns and the added `fips_code`; the helper
      `clean_county_name` column is dropped before saving. */
  datatype WithFips<T> = WithFips(row: T, fipsCode: Option<string>)

  /** `Series.map(fips_mapping)` on one name: its code, or null when it is not a key. */
  function Lookup(mapping: map<string, string>, name: string): (r: Option<string>)
    ensures r.Some? <==> name in mapping
    ensures r.Some? ==> r.value == mapping[name]
  {
    if name in mapping then Some(mapping[name]) else None
  }

  function FipsCodes<T>(rows: seq<WithFips<T>>): (r: seq<Option<string>>)
    ensures |r| == |rows|
  {
    seq(|rows|, i requires 0 <= i < |rows| => rows[i].fipsCode)
  }

  /** The printed success rate `mapped / total * 100`; undefined for an empty table. */
  function SuccessPercent(mapped: nat, total: nat): (r: Option<real>)
    ensures r.None? <==> total == 0
  {
    if total == 0 then None else Some(mapped as real / total as real * 100.0)
  }

  lemma SuccessPercentBounds(mapped: nat, total: nat)
    requires mapped <= total
    ensures SuccessPercent(mapped, total).Some? ==> 0.0 <= SuccessPercent(mapped, total).value <= 100.0
    ensures total > 0 && mapped == total ==> SuccessPercent(mapped, total) == Some(100.0)
  {
    if total > 0 {
      QuotientBounds(mapped as real, total as real, 0.0, 1.0);
      if mapped == total {
        assert mapped as real / total as real == 1.0;
      }
    }
  }

  /** The mapping-success check: the mapped count, the rows whose attached code is
      not null, is at most the number of rows; it is zero exactly when no name was
      found, and equal to the row count exactly when every name was found; the rate
      is printed from the two. */
  method CheckMappingSuccess<T>(rows: seq<WithFips<T>>) returns (mappedCount: nat, totalCount: nat, successPercent: Option<real>)
    ensures mappedCount == CountPresent(FipsCodes(rows)) && totalCount == |rows|
    ensures successPercent == SuccessPercent(mappedCount, totalCount)
    ensures mappedCount <= totalCount
    ensures mappedCount == 0 <==> forall i :: 0 <= i < |rows| ==> rows[i].fipsCode.None?
    ensures mappedCount == totalCount <==> forall i :: 0 <= i < |rows| ==> rows[i].fipsCode.Some?
  {
    var codes := FipsCodes(rows);
    mappedCount := CountPresent(codes);
    totalCount := |rows|;
    assert forall i :: 0 <= i < |rows| ==> codes[i] == rows[i].fipsCode;
    successPercent := SuccessPercent(mappedCount, totalCount);
  }

  /** `df['fips_code'] = df['clean_county_name'].map(fips_mapping)` followed by dropping
      the helper column: each row, unchanged and in order, with the code of its cleaned
      name, or null when the name is not a key of the mapping. */
  method MapFips<T>(fipsMapping: map<string, string>, df: seq<T>, cleanCountyName: seq<string>)
    returns (tagged: seq<WithFips<T>>)
    requires |cleanCountyName| == |df|
    ensures |tagged| == |df|
    ensures forall i :: 0 <= i < |df| ==>
      tagged[i].row == df[i] && tagged[i].fipsCode == Lookup(fipsMapping, cleanCountyName[i])
  {
    var fipsCode := seq(|df|, i requires 0 <= i < |df| => Lookup(fipsMapping, cleanCountyName[i]));
    tagged := seq(|df|, i requires 0 <= i < |df| => WithFips(df[i], fipsCode[i]));
  }

  /** Lines 91-94: the affordability table with the code of each row's cleaned county name. */
  method MapAffordabilityFips(fipsMapping: map<string, string>, affordabilityDf: seq<AffordabilityRow>)
    returns (affordability: seq<WithFips<AffordabilityRow>>)
    ensures |affordability| == |affordabilityDf|
    ensures forall i :: 0 <= i < |affordability| ==>
      (affordability[i].row == affordabilityDf[i]
       && affordability[i].fipsCode == Lookup(fipsMapping, CleanName(affordabilityDf[i].annual.countyName)))
  {
    var cleanCountyName := seq(|affordabilityDf|, i requires 0 <= i < |affordabilityDf| => CleanName(affordabilityDf[i].annual.countyName));
    affordability := MapFips(fipsMapping, affordabilityDf, cleanCountyName);
  }

  /** Lines 106-107: the trends table with the code of each row's cleaned county name. */
  method MapTrendsFips(fipsMapping: map<string, string>, trendsDf: seq<TrendRow>)
    returns (trends: seq<WithFips<TrendRow>>)
    ensures |trends| == |trendsDf|
    ensures forall i :: 0 <= i < |trends| ==>
      (trends[i].row == trendsDf[i] && trends[i].fipsCode == Lookup(fipsMapping, CleanName(trendsDf[i].annual.countyName)))
  {
    var trendsCleanName := seq(|trendsDf|, i requires 0 <= i < |trendsDf| => CleanName(trendsDf[i].annual.countyName));
    trends := MapFips(fipsMapping, trendsDf, trendsCleanName);
  }

  /** Lines 88-108: the affordability and trends tables, each row with the code of its
      cleaned county name or null, in order and otherwise unchanged; the mapped and
      total counts and the rate printed for the affordability table. */
  method AddFipsToHousingData(fipsMapping: map<string, string>, affordabilityDf: seq<AffordabilityRow>, trendsDf: seq<TrendRow>)
    returns (affordability: seq<WithFips<AffordabilityRow>>, trends: seq<WithFips<TrendRow>>,
             mappedCount: nat, totalCount: nat, successPercent: Option<real>)
    ensures |affordability| == |affordabilityDf| && |trends| == |trendsDf|
    ensures forall i :: 0 <= i < |affordability| ==>
      (affordability[i].row == affordabilityDf[i]
       && affordability[i].fipsCode == Lookup(fipsMapping, CleanName(affordabilityDf[i].annual.countyName)))
    ensures forall i :: 0 <= i < |trends| ==>
      (trends[i].row == trendsDf[i] && trends[i].fipsCode == Lookup(fipsMapping, CleanName(trendsDf[i].annual.countyName)))
    ensures mappedCount == CountPresent(FipsCodes(affordability)) && totalCount == |affordabilityDf|
    ensures mappedCount <= totalCount && successPercent == SuccessPercent(mappedCount, totalCount)
  {
    affordability := MapAffordabilityFips(fipsMapping, affordabilityDf);
    mappedCount, totalCount, successPercent := CheckMappingSuccess(affordability);
    trends := MapTrendsFips(fipsMapping, trendsDf);
  }

  /** Lines 121-127: the population table with the code of each row's cleaned population name. */
  method MapPopulationFips(fipsMapping: map<string, string>, populationDf: seq<PopulationCleaning.PopulationRecord>)
    returns (population: seq<WithFips<PopulationCleaning.PopulationRecord>>)
    ensures |population| == |populationDf|
    ensures forall i :: 0 <= i < |population| ==>
      (population[i].row == populationDf[i]
       && population[i].fipsCode == Lookup(fipsMapping, CleanPopulationName(populationDf[i].countyName)))
  {
    var cleanCountyName := seq(|populationDf|, i requires 0 <= i < |populationDf| => CleanPopulationName(populationDf[i].countyName));
    population := MapFips(fipsMapping, populationDf, cleanCountyName);
  }

  /** Lines 118-135: the population table, each row with the code of its cleaned
      population name or null, in order and otherwise unchanged, with the counts. */
  method AddFipsToPopulationData(fipsMapping: map<string, string>, populationDf: seq<PopulationCleaning.PopulationRecord>)
    returns (population: seq<WithFips<PopulationCleaning.PopulationRecord>>, mappedCount: nat, totalCount: nat, successPercent: Option<real>)
    ensures |population| == |populationDf|
    ensures forall i :: 0 <= i < |population| ==>
      (population[i].row == populationDf[i]
       && population[i].fipsCode == Lookup(fipsMapping, CleanPopulationName(populationDf[i].countyName)))
    ensures mappedCount == CountPresent(FipsCodes(population)) && totalCount == |populationDf|
    ensures mappedCount <= totalCount && successPercent == SuccessPercent(mappedCount, totalCount)
  {
    population := MapPopulationFips(fipsMapping, populationDf);
    mappedCount, totalCount, successPercent := CheckMappingSuccess(population);
  }

  /** Across the pipeline: a code attached through the mapping built from the cleaned
      counties table is a county code of at least five characters, never a state code. */
  lemma AttachedCodeIsCounty(rows: seq<SourceRow>, name: string)
    requires name in FipsMapping(RepadCounties(ProjectCounties(CountyRows(rows))))
    ensures var code := FipsMapping(RepadCounties(ProjectCounties(CountyRows(rows))))[name];
      |code| >= FipsWidth && !EndsWith(code, "000")
  {
    var counties := ProjectCounties(CountyRows(rows));
    RepadAfterCleaning(rows);
    FipsMappingValues(counties, name);
    var i :| NamedAt(counties, i, name) && FipsMapping(counties)[name] == counties[i].fipsCode;
    CountyTableInvariant(rows);
    assert counties[i] in counties;
  }
}
