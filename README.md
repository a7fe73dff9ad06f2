# FIPS keys and table reshaping in the housing-market cleaning scripts

This project models the cleaning stage of a county housing-market analysis. Three
scripts turn raw sources into county-keyed tables:

- `scripts/02_data_cleaning.py` builds the county master table and the annual
  unemployment table from the unemployment/income sheet. It drops rows with a null
  FIPS code, zero-pads the code to five characters, and drops state rows (codes
  ending in `000`). It then reshapes the per-year rate columns into one row per
  county and year, and left-merges the 2022 median income.
- `scripts/03_housing_and_population_cleaning.py` does four things:
  - reshapes the census population sheet into one record per county row and year
    column;
  - melts the two Zillow price tiers over their date columns and outer-merges them
    on `(RegionID, date)`;
  - adds year and month and drops rows without a price;
  - computes annual group means, the minimum salary (`price * 0.05 / 0.30`) and the
    year-over-year growth per region.
- `scripts/04_fix_fips_codes.py` pads the codes again and builds a name-to-FIPS
  dictionary from cleaned county names. It attaches a code, or null, to the
  affordability, trend and population tables, and reports how many rows matched.

Tables are sequences of records, and a pandas null cell is an `Option`. The modules
are:

- `Tables`: row selection, concatenation, `mean`, null counts.
- `Text`: `zfill`, `lower`, `strip`, `isdigit`, `int`, `str.replace` of one character.
- `UnemploymentCleaning`: script 02.
- `PopulationCleaning`, `HousingReshape` and `HousingMetrics`: script 03.
- `FipsRepair`: script 04.

Steps that loop, or that reassign a frame step by step, are methods proved against
specification functions. The counties frame that gains a column inside
`create_county_name_to_fips_mapping` is a class. Element-wise rules are functions
with lemmas.

Where the project description and the code disagree, the model follows the code:

- A name shared by two counties maps to the last county's code (`dict(zip(...))`).
  Nothing detects the collision.
- The match rate is only printed; there is no threshold.
- Growth divides by the previous price with no guard.
- The population cleaner removes every `.` in the name, not only a leading one.
- `zfill(5)` gives a code of length `max(5, |s|)`, not always exactly five.

## Model

| member | source | states |
|---|---|---|
| Text.ZFill | scripts/02_data_cleaning.py:32 | `zfill` returns a string of length max(width, \|s\|); a string already `width` long is returned unchanged |
| Text.ZFillUnsigned | scripts/02_data_cleaning.py:32 | for a sign-free string the result ends with the input and has only `'0'` in front of it |
| Text.ZFillSigned | scripts/02_data_cleaning.py:32 | a leading sign stays first and the zeros go between it and the rest |
| Text.ZFillIdempotent | scripts/04_fix_fips_codes.py:21 | padding a padded code again changes nothing |
| Text.ZFillExamples | scripts/02_data_cleaning.py:32 | `"6001"` becomes `"06001"`, `"06001"` is unchanged, `"-42"` becomes `"-0042"` |
| Text.DropLeadingZeros | scripts/04_fix_fips_codes.py:16-21 | the code as read back from CSV as a number: a suffix of the digits, with only zeros removed and no leading zero left |
| Text.ZFillRestoresLeadingZeros | scripts/04_fix_fips_codes.py:16-21 | re-padding a five-digit code whose leading zeros were lost gives back the original code |
| Text.Lower | scripts/04_fix_fips_codes.py:64 | same length; each character is its lowercase form, and nothing else changes |
| Text.TrimLeft | scripts/04_fix_fips_codes.py:64 | a suffix of the input; only whitespace is removed; the result does not start with whitespace |
| Text.TrimRight | scripts/04_fix_fips_codes.py:64 | a prefix of the input; only whitespace is removed; the result does not end with whitespace |
| Text.StripSlice | scripts/04_fix_fips_codes.py:64 | `strip` keeps one contiguous slice, removes only whitespace around it, and the slice has no whitespace at either end |
| Text.StripIdempotent | scripts/04_fix_fips_codes.py:64 | stripping twice equals stripping once |
| Text.LowerStrip | scripts/04_fix_fips_codes.py:64 | lowercasing and stripping commute |
| Text.LowerIdempotent | scripts/04_fix_fips_codes.py:64 | lowercasing twice equals lowercasing once |
| Text.LowerTrimLeft | scripts/04_fix_fips_codes.py:64 | lowercasing and `lstrip` commute |
| Text.LowerTrimRight | scripts/04_fix_fips_codes.py:64 | lowercasing and `rstrip` commute |
| Text.RemoveChar | scripts/04_fix_fips_codes.py:122 | `replace('.', '')`: no `.` is left, and every other character keeps its count |
| Text.RemoveCharAbsent | scripts/04_fix_fips_codes.py:122 | a string without the character is unchanged |
| Text.DigitsValue | scripts/03_housing_and_population_cleaning.py:56 | `int` of an n-digit label is below 10^n |
| Text.DigitsValueExample | scripts/03_housing_and_population_cleaning.py:56 | `int("2020") == 2020` |
| Text.FixedDigitsValue | scripts/03_housing_and_population_cleaning.py:113 | reading back the fixed-width digits of a value that fits gives the value |
| Text.DigitsValueFixed | scripts/03_housing_and_population_cleaning.py:113 | writing a digit string's value at its own width gives back the string |
| Text.ContainsIff | scripts/03_housing_and_population_cleaning.py:34 | `str.contains` holds exactly when the substring occurs at some position |
| Text.StrLessIrreflexive | scripts/03_housing_and_population_cleaning.py:142 | the string order used to sort group keys is irreflexive |
| Text.StrLessTransitive | scripts/03_housing_and_population_cleaning.py:142 | that order is transitive |
| Text.StrLessTotal | scripts/03_housing_and_population_cleaning.py:142 | any two distinct strings are ordered |
| Text.StrLessAsymmetric | scripts/03_housing_and_population_cleaning.py:142 | that order is asymmetric |
| Tables.Keep | scripts/02_data_cleaning.py:29 | a boolean mask keeps exactly the rows that satisfy it, and never adds rows |
| Tables.KeepCount | scripts/02_data_cleaning.py:36 | each row that passes is kept as often as it occurs; no other row is kept |
| Tables.KeepAppend | scripts/02_data_cleaning.py:36 | selection distributes over concatenation, so rows keep their original order |
| Tables.KeepSingleton | scripts/02_data_cleaning.py:36 | one row is kept exactly when it passes the mask |
| Tables.KeepAll | scripts/02_data_cleaning.py:61 | a mask every row passes keeps the whole table |
| Tables.KeepNone | scripts/02_data_cleaning.py:61 | a mask no row passes keeps nothing |
| Tables.KeepDistinct | scripts/03_housing_and_population_cleaning.py:106-110 | selecting rows keeps a key column distinct |
| Tables.DistinctAppend | scripts/03_housing_and_population_cleaning.py:106-110 | two blocks with distinct keys, none shared between them, concatenate to a block with distinct keys |
| Tables.Positions | scripts/03_housing_and_population_cleaning.py:47 | a list comprehension over the columns: exactly the positions that satisfy the condition, in increasing order |
| Tables.FlattenSnoc | scripts/02_data_cleaning.py:65 | `pd.concat` of a frame list with one more frame appends that frame's rows |
| Tables.Present | scripts/03_housing_and_population_cleaning.py:143 | the non-null values of a column, and only those |
| Tables.Mean | scripts/03_housing_and_population_cleaning.py:142-145 | `mean` with `skipna` is null exactly when every cell is null |
| Tables.MeanWithin | scripts/03_housing_and_population_cleaning.py:142-145 | the mean lies between the bounds of the non-null values |
| Tables.CountPresent | scripts/04_fix_fips_codes.py:97 | `notna().sum()` is at most the row count; it is 0 exactly when all cells are null, and equal to the row count exactly when none is |
| Tables.CountPresentAppend | scripts/04_fix_fips_codes.py:97 | the non-null count of two concatenated columns is the sum of their counts |
| UnemploymentCleaning.DropNullFips | scripts/02_data_cleaning.py:29 | a row survives exactly when its FIPS cell is non-null, and keeps its multiplicity |
| UnemploymentCleaning.PadFips | scripts/02_data_cleaning.py:32 | one row per row and no other column changes; every code has at least five characters; a row whose code is already that long is unchanged |
| UnemploymentCleaning.PadFipsIdempotent | scripts/02_data_cleaning.py:32 | padding twice equals padding once |
| UnemploymentCleaning.CountyFilter | scripts/02_data_cleaning.py:36 | no kept code ends in `000`; every row whose code does not end in `000` is kept, with its multiplicity |
| UnemploymentCleaning.CountyRowsPadded | scripts/02_data_cleaning.py:29-36 | every county row has a non-null code of at least five characters that does not end in `000` |
| UnemploymentCleaning.CountyRowsComplete | scripts/02_data_cleaning.py:29-36 | every source row whose padded code does not end in `000` contributes its padded row |
| UnemploymentCleaning.CountyRowPadded | scripts/02_data_cleaning.py:29-36 | every county row is the padding of a source row that has a code |
| UnemploymentCleaning.ProjectCounties | scripts/02_data_cleaning.py:41-47 | one counties record per filtered row, in order, with the six selected columns renamed by position |
| UnemploymentCleaning.CountyTableInvariant | scripts/02_data_cleaning.py:29-47 | every code in the counties table has at least five characters and does not end in `000`; when the raw codes have at most five characters, every code has exactly five |
| UnemploymentCleaning.EconomicForYear | scripts/02_data_cleaning.py:58-61 | one year's frame has no more rows than the county table, all stamped with that year |
| UnemploymentCleaning.EconomicForYearCount | scripts/02_data_cleaning.py:61 | a year contributes exactly as many rows as it has non-null rate cells |
| UnemploymentCleaning.EconomicForYearMembers | scripts/02_data_cleaning.py:58-61 | a row belongs to one year's frame exactly when it comes from a county row with that non-null rate |
| UnemploymentCleaning.EconomicRows | scripts/02_data_cleaning.py:57-65 | every row of the concatenated table has a year in 2000..2023 |
| UnemploymentCleaning.EconomicRowsSorted | scripts/02_data_cleaning.py:57-65 | the concatenated table is grouped by ascending year |
| UnemploymentCleaning.EconomicRowsOfYear | scripts/02_data_cleaning.py:57-65 | the rows of one year, in table order, are exactly that year's frame, in county order |
| UnemploymentCleaning.EconomicRowsMembers | scripts/02_data_cleaning.py:57-65 | a row is in the table exactly when its year is in range and it is in that year's frame |
| UnemploymentCleaning.IncomeData | scripts/02_data_cleaning.py:68-70 | the income frame has at most one row per county row |
| UnemploymentCleaning.IncomeDataFrom | scripts/02_data_cleaning.py:68-70 | every income row comes from a county row with that code and a non-null 2022 income |
| UnemploymentCleaning.IncomeDataUnique | scripts/02_data_cleaning.py:68-70 | distinct county codes give distinct income codes |
| UnemploymentCleaning.IncomeMatches | scripts/02_data_cleaning.py:73 | the matching incomes are empty exactly when no income row has the code |
| UnemploymentCleaning.IncomeOf | scripts/02_data_cleaning.py:73 | null exactly when no income row has the code; otherwise an income row with that code carries the value |
| UnemploymentCleaning.MergeRow | scripts/02_data_cleaning.py:73 | a left merge keeps at least one row per economic row, with its code, rate and year |
| UnemploymentCleaning.MergeIncome | scripts/02_data_cleaning.py:73 | the left merge loses no economic row |
| UnemploymentCleaning.MatchesUnique | scripts/02_data_cleaning.py:73 | with unique income codes there is at most one match, and it is `IncomeOf` |
| UnemploymentCleaning.MergeIncomeUnique | scripts/02_data_cleaning.py:73 | with unique income codes the merge keeps exactly one row per economic row, in order, and attaches that code's income or null |
| UnemploymentCleaning.IncomeOfCounty | scripts/02_data_cleaning.py:68-73 | with distinct codes a county's lookup gives its own 2022 income, or null when its cell was empty |
| UnemploymentCleaning.EconomicTableIncome | scripts/02_data_cleaning.py:57-73 | with distinct codes the merged table has one row per (county, year), and every row carries its county's 2022 income whatever the year |
| UnemploymentCleaning.SelectCountyRows | scripts/02_data_cleaning.py:29-36 | the frame after the null drop, the padding and the county filter, in that order |
| UnemploymentCleaning.ReshapeEconomic | scripts/02_data_cleaning.py:54-73 | fails exactly when a rate column for a year in 2000..2023 is missing, naming the first such year; otherwise the merged long table |
| UnemploymentCleaning.CleanUnemploymentData | scripts/02_data_cleaning.py:12-79 | the counties table, which the source writes to its file before the year loop, and the economic table or the first missing year; when the loop raises the source returns nothing, and the model's counties table stands for the file already written |
| PopulationCleaning.StripHeaders | scripts/03_housing_and_population_cleaning.py:30 | every column label is stripped, one per column, in order |
| PopulationCleaning.StripHeadersIdempotent | scripts/03_housing_and_population_cleaning.py:30 | stripping the labels twice equals stripping them once |
| PopulationCleaning.CountyRows | scripts/03_housing_and_population_cleaning.py:34-35 | a row is kept exactly when its first cell is non-null and contains `County` |
| PopulationCleaning.CountyAreaIff | scripts/03_housing_and_population_cleaning.py:34 | the area test holds exactly when `County` occurs in a non-null area |
| PopulationCleaning.YearColumns | scripts/03_housing_and_population_cleaning.py:47 | exactly the columns whose label is all digits, left to right |
| PopulationCleaning.Repeated | scripts/03_housing_and_population_cleaning.py:54 | a label occurs twice in the multiset of labels exactly when two distinct columns carry it |
| PopulationCleaning.AmbiguousIff | scripts/03_housing_and_population_cleaning.py:47-54 | some year column's label is shared exactly when two columns share a digit label |
| PopulationCleaning.RowRecords | scripts/03_housing_and_population_cleaning.py:53-59 | a row gives at most one record per year column |
| PopulationCleaning.RowRecordsMembers | scripts/03_housing_and_population_cleaning.py:53-59 | a record comes from a row exactly when a year column's cell holds its value, with the county name and `int` of the label |
| PopulationCleaning.RowRecordsComplete | scripts/03_housing_and_population_cleaning.py:53-59 | a row with no null year cell gives one record per year column, in column order |
| PopulationCleaning.RowRecordsCount | scripts/03_housing_and_population_cleaning.py:53-59 | a row with any mix of null and non-null year cells gives exactly one record per non-null cell (`CountPresent` of its year cells) |
| PopulationCleaning.RowRecordsInColumnOrder | scripts/03_housing_and_population_cleaning.py:53-59 | record `k` of a row is the record of the `k`-th year column whose cell is non-null, with the county name, `int` of the label and the cell value: column order, null cells skipped |
| PopulationCleaning.PopulationRecordsSound | scripts/03_housing_and_population_cleaning.py:50-59 | every record comes from a non-null year cell of a county row |
| PopulationCleaning.PopulationRecordsCover | scripts/03_housing_and_population_cleaning.py:50-59 | every non-null year cell of a county row gives a record |
| PopulationCleaning.PopulationRecordsMembers | scripts/03_housing_and_population_cleaning.py:50-59 | both directions: a record is in the table exactly when it comes from such a cell |
| PopulationCleaning.PopulationRecordsAppend | scripts/03_housing_and_population_cleaning.py:50-59 | county-major order: the records of earlier rows precede those of later rows |
| PopulationCleaning.PopulationRecordsComplete | scripts/03_housing_and_population_cleaning.py:50-59 | with no null cell there are exactly rows × year columns records |
| PopulationCleaning.PopulationRecordsCount | scripts/03_housing_and_population_cleaning.py:50-59 | the long table has exactly as many records as the county rows have non-null year cells |
| PopulationCleaning.ReshapeRow | scripts/03_housing_and_population_cleaning.py:53-59 | the inner loop fails exactly when some year column's label is shared, naming such a label; otherwise it gives the row's records |
| PopulationCleaning.ReshapeCounties | scripts/03_housing_and_population_cleaning.py:50-59 | the outer loop fails exactly when there is a county row and a shared year label; otherwise it gives the long table |
| PopulationCleaning.CleanPopulationData | scripts/03_housing_and_population_cleaning.py:10-67 | `clean_population_data`: the long table of the county rows under the stripped labels, or the error for a shared digit label |
| HousingReshape.DateColumns | scripts/03_housing_and_population_cleaning.py:83-84 | exactly the columns whose label contains `-` and has length 10, left to right |
| HousingReshape.MeltColumn | scripts/03_housing_and_population_cleaning.py:90-95 | one melted row per source row for each value column |
| HousingReshape.MeltLength | scripts/03_housing_and_population_cleaning.py:90-103 | melting gives date columns × rows records |
| HousingReshape.MeltAt | scripts/03_housing_and_population_cleaning.py:90-103 | the record at `k * rows + i` is source row `i`'s identifiers, the label of date column `k`, and that cell, null or not |
| HousingReshape.TopColumns | scripts/03_housing_and_population_cleaning.py:107 | the top tier projected to `RegionID`, `date` and the price, one row per row |
| HousingReshape.MergeBottomRow | scripts/03_housing_and_population_cleaning.py:106-110 | each bottom row gives at least one merged row |
| HousingReshape.MergeBottom | scripts/03_housing_and_population_cleaning.py:106-110 | no bottom row is lost |
| HousingReshape.MergeBottomRowSpec | scripts/03_housing_and_population_cleaning.py:106-110 | each merged row of a bottom row has its identifiers and price, and either a matching top price or null when no top row matches |
| HousingReshape.MergeBottomMembers | scripts/03_housing_and_population_cleaning.py:106-110 | every row of the bottom part comes from a bottom row in that way |
| HousingReshape.MergeBottomCovers | scripts/03_housing_and_population_cleaning.py:106-110 | every bottom row's key appears in the merge |
| HousingReshape.TopOnlyMembers | scripts/03_housing_and_population_cleaning.py:106-110 | the top-only rows are exactly the top rows whose key no bottom row has, with null identifiers |
| HousingReshape.OuterMergeKeys | scripts/03_housing_and_population_cleaning.py:106-110 | the merged keys are the union of both tiers' keys |
| HousingReshape.OuterMergeNulls | scripts/03_housing_and_population_cleaning.py:106-110 | a key the top tier lacks has a null top price and a region name; a key the bottom tier lacks has a null bottom price, region name, state name and state; a key the bottom tier has carries all three identifiers |
| HousingReshape.UniqueMatches | scripts/03_housing_and_population_cleaning.py:106-110 | with unique top keys a bottom key matches at most one top row, one exactly when the key is a top key, with that row's price |
| HousingReshape.MergeBottomUnique | scripts/03_housing_and_population_cleaning.py:106-110 | with unique top keys the bottom part is one row per bottom row, in order, with its top price or null |
| HousingReshape.TopPriceAbsent | scripts/03_housing_and_population_cleaning.py:106-110 | a key the top tier lacks has a null top price |
| HousingReshape.MergeBottomDistinct | scripts/03_housing_and_population_cleaning.py:106-110 | with unique keys the bottom part has distinct keys, all of them bottom keys |
| HousingReshape.TopOnlyDistinct | scripts/03_housing_and_population_cleaning.py:106-110 | the top-only part has distinct keys, none of them a bottom key |
| HousingReshape.OuterMergeUnique | scripts/03_housing_and_population_cleaning.py:106-110 | with unique keys per tier no key occurs twice in the merged frame |
| HousingReshape.DaysInMonth | scripts/03_housing_and_population_cleaning.py:113 | a month has 28 to 31 days |
| HousingReshape.FormatIsoDate | scripts/03_housing_and_population_cleaning.py:113 | a date prints as a 10-character label |
| HousingReshape.ParseIsoDateSound | scripts/03_housing_and_population_cleaning.py:113 | a label that parses is a date column naming a real date, and prints back as itself |
| HousingReshape.FormatParse | scripts/03_housing_and_population_cleaning.py:113 | every valid date parses back from its label |
| HousingReshape.LeapDayParses | scripts/03_housing_and_population_cleaning.py:113 | `2020-02-29` parses |
| HousingReshape.CommonYearLeapDayFails | scripts/03_housing_and_population_cleaning.py:113 | `2021-02-29` does not parse |
| HousingReshape.DropUnpriced | scripts/03_housing_and_population_cleaning.py:122 | `dropna(how='all')` keeps exactly the rows with at least one price |
| HousingReshape.AddDateParts | scripts/03_housing_and_population_cleaning.py:113-119 | fails exactly when some label does not parse, naming the first such label; otherwise every row gains its parsed date, year, month and county name |
| HousingReshape.ReshapeHousingData | scripts/03_housing_and_population_cleaning.py:69-130 | fails exactly when the bottom tier has no date column or a date does not parse; otherwise the priced rows of the merged, dated frame |
| HousingReshape.HousingRowsFrom | scripts/03_housing_and_population_cleaning.py:113-122 | every returned row has a price and a month in 1..12, and comes from a merged row with the same key, identifiers and prices |
| HousingReshape.HousingRowKept | scripts/03_housing_and_population_cleaning.py:122 | a merged row survives exactly when at least one of its prices is non-null |
| HousingReshape.HousingRowOrigin | scripts/03_housing_and_population_cleaning.py:106-122 | a returned row's key belongs to one of the tiers; a top-only row has no county name, no bottom price and a top price |
| HousingMetrics.KeyLessIrreflexive | scripts/03_housing_and_population_cleaning.py:142 | the group-key order is irreflexive |
| HousingMetrics.KeyLessTransitive | scripts/03_housing_and_population_cleaning.py:142 | the group-key order is transitive |
| HousingMetrics.KeyLessTotal | scripts/03_housing_and_population_cleaning.py:142 | any two distinct group keys are ordered |
| HousingMetrics.InsertKey | scripts/03_housing_and_population_cleaning.py:142 | inserting a key into sorted distinct keys keeps them sorted and adds exactly that key |
| HousingMetrics.GroupKeys | scripts/03_housing_and_population_cleaning.py:142 | the groups are sorted, distinct, and exactly the keys of rows with a non-null county name |
| HousingMetrics.Group | scripts/03_housing_and_population_cleaning.py:142 | a group holds exactly the rows with that key |
| HousingMetrics.AnnualKeysAre | scripts/03_housing_and_population_cleaning.py:142-145 | one annual row per group, carrying its key |
| HousingMetrics.AnnualHousingSorted | scripts/03_housing_and_population_cleaning.py:142-145 | the annual rows are strictly ordered by key |
| HousingMetrics.AnnualHousingKeys | scripts/03_housing_and_population_cleaning.py:142-145 | an annual row exists for a key exactly when some monthly row with a county name has it; null-key rows form no group |
| HousingMetrics.AnnualPriceMeaning | scripts/03_housing_and_population_cleaning.py:142-145 | an annual price is null exactly when its group has no such price; the bottom mean lies within the bounds of the group's prices |
| HousingMetrics.MinSalaryIsSixth | scripts/03_housing_and_population_cleaning.py:149-153 | `price * 0.05 / 0.30` is the price divided by six; a null price gives a null salary |
| HousingMetrics.MinSalaryExample | scripts/03_housing_and_population_cleaning.py:149-153 | a price of 300000 needs a salary of 50000 |
| HousingMetrics.CalculateAffordabilityMetrics | scripts/03_housing_and_population_cleaning.py:132-165 | one row per annual group, in order, with the annual cost at 5% and a minimum salary of a sixth of the price |
| HousingMetrics.InsertRow | scripts/03_housing_and_population_cleaning.py:180 | inserting into rows sorted by (RegionID, year) keeps them sorted and adds exactly the new row |
| HousingMetrics.SortByRegionYear | scripts/03_housing_and_population_cleaning.py:180 | `sort_values(['RegionID', 'year'])` is sorted and keeps the row count |
| HousingMetrics.InsertRowCount | scripts/03_housing_and_population_cleaning.py:180 | insertion adds the new row to the multiset and nothing else |
| HousingMetrics.SortPermutes | scripts/03_housing_and_population_cleaning.py:180 | the sort is a permutation |
| HousingMetrics.InsertRowTies | scripts/03_housing_and_population_cleaning.py:180 | an inserted row goes in front of the rows it ties with on (RegionID, year), and their order is kept |
| HousingMetrics.SortKeepsTies | scripts/03_housing_and_population_cleaning.py:180 | the sort is stable: for every (RegionID, year), the rows with that key appear in the output in their input order |
| HousingMetrics.LastBefore | scripts/03_housing_and_population_cleaning.py:181 | the previous row of the same region is the nearest earlier row with that id, or none |
| HousingMetrics.PctChangeFormula | scripts/03_housing_and_population_cleaning.py:181 | `(cur / prev - 1) * 100` equals `(cur - prev) / prev * 100` |
| HousingMetrics.FirstOfRegionGrowth | scripts/03_housing_and_population_cleaning.py:180-182 | the first row of each region has null growth |
| HousingMetrics.LaterRowGrowth | scripts/03_housing_and_population_cleaning.py:180-182 | a later row of a region has growth `(cur - prev) / prev * 100` against the row just before it |
| HousingMetrics.GrowthExample | scripts/03_housing_and_population_cleaning.py:180-182 | prices 100, 110, 99 give growth null, 10 and -10 |
| HousingMetrics.AddGrowthColumns | scripts/03_housing_and_population_cleaning.py:180-182 | the rows sorted by (RegionID, year), a permutation of the input, each with the growth of both tiers |
| HousingMetrics.CreateAnnualPriceTrends | scripts/03_housing_and_population_cleaning.py:167-188 | the annual groups sorted by region and year, with per-region growth |
| FipsRepair.RepadCounties | scripts/04_fix_fips_codes.py:21 | row count, order and other columns are kept; every code has at least five characters; a code already that long is unchanged |
| FipsRepair.RepadEconomic | scripts/04_fix_fips_codes.py:34 | the same for the economic table |
| FipsRepair.RepadIdempotent | scripts/04_fix_fips_codes.py:21-34 | re-padding twice equals re-padding once |
| FipsRepair.RepadAfterCleaning | scripts/04_fix_fips_codes.py:21 | re-padding the counties table built by the unemployment cleaning changes nothing |
| FipsRepair.CheckAndFixFipsCodes | scripts/04_fix_fips_codes.py:7-54 | both returned tables are re-padded |
| FipsRepair.CleanNameIdempotent | scripts/04_fix_fips_codes.py:64 | a cleaned name is its own cleaning |
| FipsRepair.StripKeeps | scripts/04_fix_fips_codes.py:124 | `strip` keeps every non-whitespace character |
| FipsRepair.CleanPopulationNameSpec | scripts/04_fix_fips_codes.py:121-124 | a cleaned population name has no `.`; on a name without `.` it equals the plain cleaning |
| FipsRepair.LeadingPeriodRemoved | scripts/04_fix_fips_codes.py:120-124 | a name with a leading `.` cleans to the plain cleaning of the bare name |
| FipsRepair.PeriodKeysUnreachable | scripts/04_fix_fips_codes.py:121-124 | no population name can match the key of a county whose name contains `.` |
| FipsRepair.DictZip | scripts/04_fix_fips_codes.py:67 | the keys are exactly the zipped keys, and there are at most as many as zipped pairs |
| FipsRepair.DictZipLastWins | scripts/04_fix_fips_codes.py:67 | a key maps to the value of its last occurrence |
| FipsRepair.DictZipDistinct | scripts/04_fix_fips_codes.py:67 | with distinct keys the dictionary has one entry per pair |
| FipsRepair.DictZipValues | scripts/04_fix_fips_codes.py:67 | every value is paired with its key somewhere in the input |
| FipsRepair.FipsMappingKeys | scripts/04_fix_fips_codes.py:64-69 | a name is a key exactly when some county's cleaned name is that name |
| FipsRepair.FipsMappingSize | scripts/04_fix_fips_codes.py:64-69 | at most one key per county, and exactly one when cleaned names are distinct |
| FipsRepair.FipsMappingLastWins | scripts/04_fix_fips_codes.py:64-69 | for a shared cleaned name the last county's code wins |
| FipsRepair.FipsMappingValues | scripts/04_fix_fips_codes.py:64-69 | every mapped code is the code of a county with that cleaned name |
| FipsRepair.MappingFile | scripts/04_fix_fips_codes.py:75-76 | `fips_code`, `county_name` and `state` of every county, in county order |
| FipsRepair.CountiesFrame.CreateCountyNameToFipsMapping | scripts/04_fix_fips_codes.py:56-79 | adds the cleaned-name column to the frame it was given, and returns the dictionary and the reference file |
| FipsRepair.Lookup | scripts/04_fix_fips_codes.py:94 | `map`: the code when the name is a key, otherwise null |
| FipsRepair.SuccessPercent | scripts/04_fix_fips_codes.py:99 | the rate is undefined exactly when the table is empty |
| FipsRepair.SuccessPercentBounds | scripts/04_fix_fips_codes.py:99 | the rate lies in 0..100, and is 100 when every row matched |
| FipsRepair.CheckMappingSuccess | scripts/04_fix_fips_codes.py:97-99 | mapped is the non-null code count, at most the total; 0 exactly when nothing matched, the total exactly when everything matched; the rate |
| FipsRepair.MapFips | scripts/04_fix_fips_codes.py:94 | each row, unchanged and in order, with the lookup of its cleaned name |
| FipsRepair.MapAffordabilityFips | scripts/04_fix_fips_codes.py:91-94 | each affordability row with the code of `strip(lower(county_name))`, or null |
| FipsRepair.MapTrendsFips | scripts/04_fix_fips_codes.py:106-107 | each trend row with the code of `strip(lower(county_name))`, or null |
| FipsRepair.AddFipsToHousingData | scripts/04_fix_fips_codes.py:81-110 | both tables keep their rows unchanged and in order, and each row gains the lookup of its cleaned county name; the match counts and rate are those of the affordability table |
| FipsRepair.MapPopulationFips | scripts/04_fix_fips_codes.py:121-127 | each population row with the code of its name with every `.` removed, lowercased and stripped, or null |
| FipsRepair.AddFipsToPopulationData | scripts/04_fix_fips_codes.py:112-136 | the population table keeps row count and order and gains the lookup, with the counts and rate |
| FipsRepair.AttachedCodeIsCounty | scripts/04_fix_fips_codes.py:67 | a code found through the mapping has at least five characters and never ends in `000` |

## Left out

- All file and console I/O is left out: `read_excel`, `read_csv`, `to_csv` and `print`. Sheets and tables are inputs and results; the printed rate is a result.
- The `__main__` blocks, which only chain the stages, are left out.
- `scripts/05_create_sql_database.py` and `scripts/test_db.py` are not part of this model. They hold database loading and ad-hoc queries.
- The preview functions `clean_population_data` and `preview_housing_data` of `scripts/02_data_cleaning.py` (lines 81-114) are left out: they only load and print.
- The checks at `scripts/04_fix_fips_codes.py:41-52` are left out: they only read and print the housing and population files.
- The unused loads at `scripts/03_housing_and_population_cleaning.py:156,159` are left out.
- pandas dtype coercion is left out. FIPS codes are strings from the start, and `astype(str)` of a null is the text `nan`. `Text.DropLeadingZeros` stands for a code read back from CSV as a number.
- Floating point is idealised as `real`, for the means, the minimum salary and growth.
- `lower` and `strip` cover ASCII letters and ASCII whitespace only, with no Unicode case mapping or Unicode spaces.
- `isdigit` and `int` cover the ASCII digits `0`-`9` only. Python's `isdigit` also accepts other Unicode digits, such as Arabic-Indic or superscript digits, and `int` parses some of those and raises on others. The year-column test and the year value therefore differ from Python on such labels.
- pandas' outer merge sorts the merged keys. The model keeps the bottom rows in melt order, followed by the top-only rows in top order. Keys and contents are modelled; that order is not.
- `pd.to_datetime` is modelled on ISO `YYYY-MM-DD` labels with years 1 to 9999. Other formats it infers, and the bounds of pandas timestamps, are left out.
- The population sheet's first column is taken to be the area column (`iloc[:, 0]`).
- HousingMetrics.AddGrowthColumns: requires `GrowthDefined` of the whole sorted table, in both tiers. Every row that has an earlier row in its region must have a non-null price, and that earlier row a non-null, non-zero price. One such gap anywhere, such as a null top mean in a later year of one county, rules out the call. `pct_change` accepts these tables: it gives infinity for a zero previous price, and for a null price a result that depends on the pandas version's fill method. The model does not invent those values.
- HousingMetrics.CreateAnnualPriceTrends: has the same whole-table `GrowthDefined` requirement on the sorted annual table, for the same reason as `AddGrowthColumns`.
- HousingMetrics.AnnualPriceMeaning: bounds only the bottom mean. The top mean is the same function on the other column.
- HousingReshape.OuterMergeUnique: assumes keys are unique within each tier, like the other uniqueness lemmas of the merge. With repeated keys pandas forms every pairing; `MergeBottomRow` models that.
- UnemploymentCleaning.MergeIncomeUnique: assumes unique income codes. `MergeIncome` itself models repeated codes, with one row per match.
