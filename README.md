# Healthcare patient pipeline: cleaning rules and counting metrics

This project models the core of the batch script
`Experiment-1/Assignment-1/src/healthcare_pipeline.py`: the block that cleans and
enriches the patient table (lines 25–74) and the count aggregations computed from
the cleaned table (lines 84–103 and 115–118). Every proof is about the model.

The model assumes pandas before version 3.0. There `astype(str)` turns a missing
value into the text `"nan"`, and the period text of a missing date is `"NaT"`.
Several results below depend on this (see "## Left out").

A patient record is a `Records.Row`:
- one `Option` field per known column;
- `None` stands for a missing value (NaN / NaT);
- a column the table does not have is `None` in every row (`Records.Conforms`);
- CSV columns the script does not know travel along as `extra` cells, so they
  still take part in duplicate detection.

The script's table `df` is rewritten step by step. It is modelled twice: as a
class and as a chain of functions.
- The class is `Table.PatientTable`. Its methods replace `rows` and `columns` in
  the script's order.
- The trimming step keeps the script's loop over the six free-text columns.
- Each method is proved to produce the table that a pure function in
  `Cleaning` describes.
- The properties are proved about those functions.

The per-value rules are pure functions:
- the billing character filter;
- `strip`, `title` and the M/F map for Gender;
- the fixed age bins;
- the `"YYYY-MM"` period text and the three-letter month name.

The aggregations are functions over the cleaned rows:
- the KPI patient count;
- the `value_counts` tables for Medical Condition and Blood Type;
- admissions per month.

Modules:
- `Wrappers`: `Option`.
- `Text`:
  - Python `str.strip` over Python's whitespace set;
  - ASCII `str.title`;
  - Python string order;
  - zero-padded decimal digits.
- `Sorting`: a stable insertion sort, sums over sequences, duplicate-freedom.
- `Normalise`: the per-value rules.
- `Stats`: the median of exact reals.
- `Distinct`: `drop_duplicates` keeping first occurrences.
- `Counts`:
  - count tables;
  - `value_counts`;
  - `groupby(...).size()` sorted by key.
- `Records`: the columns, raw rows, rows, header handling, and the non-missing
  cells of a column (`dropna`).
- `Cleaning`: each cleaning step as a function on the table, and the whole block.
- `Table`: the `PatientTable` class and `CleanAndEnrich`.
- `Metrics`: the KPI count, the count tables and admissions by month.

Some steps of the script do not achieve what they are evidently there for. The
model follows the code as written:
- **The "Unknown" fills never change anything.** The `fillna("Unknown")` calls
  of lines 59–64 are evidently meant to give "Unknown" for a missing Gender,
  Insurance Provider or Blood Type. But these columns are text after
  `astype(str)` (lines 46 and 52), and pandas renders a missing value there as
  `"nan"`.
  - A missing Gender therefore becomes `"Nan"` (`Normalise.GenderValueMissing`,
    `Cleaning.MissingGenderIsNan`).
  - A missing Insurance Provider or Blood Type becomes `"nan"`
    (`Cleaning.MissingTextIsNan`, `Cleaning.MissingInsuranceIsNan`,
    `Cleaning.MissingBloodTypeIsNan`).
  - The fills are modelled as written and proved to be no-ops
    (`Cleaning.FillsChangeNothing`).
- **Billing Amount can stay missing.** The median imputation of lines 57–58 is
  evidently meant to leave no amount missing. When every amount is missing, the
  median is itself missing and the gaps remain (`Cleaning.ImputeAllMissing`,
  `Cleaning.CleanedBillingComplete`).
- **The date derivation has no guard.** Lines 72–74 read Date of Admission
  without checking that the column exists. The model requires the column there
  and for the whole block.
- **The KPI row has no guard either.** Line 86 reads Billing Amount without
  checking that the column exists, so without it the script stops before any
  metric is written. The lemmas about the metrics of the cleaned table
  (`Metrics.TotalPatientsIsDistinctRows`, `Metrics.CleanedCountsTotal`,
  `Metrics.CleanedMonthlyTotal`) require both columns.
- **Imputation runs after duplicate removal.** Filling a gap with the median can
  make two kept rows equal again (`Cleaning.ImputationCanCreateDuplicates`), so
  "no duplicate rows" holds after line 54 but not always at the end.
- **The monthly count drops rows without a date.** An undated row has the
  Admission Month text `"NaT"`, which is not missing. The rows that are dropped
  are those whose Date of Admission is missing (line 97), not those whose month
  is null. The model follows line 97, and `"NaT"` never becomes a month key.

Inputs that a library computes are parameters:
- The parsed Date of Admission and Age arrive in `Records.RawRow` already
  converted, as `pd.to_datetime` and `pd.to_numeric` would leave them.
- Billing Amount arrives as text. It is run through the modelled character
  filter, and the number parse is the function parameter `toNumeric`.

## Model

| member | source | states |
|---|---|---|
| Records.StripHeader | Experiment-1/Assignment-1/src/healthcare_pipeline.py:25 | every header entry is replaced by its stripped text, and the count of entries is unchanged |
| Records.PresentColumns | Experiment-1/Assignment-1/src/healthcare_pipeline.py:25 | the known columns of the stripped header (no contract of its own; Records.PresentColumnsSpec states it) |
| Records.PresentColumnsSpec | Experiment-1/Assignment-1/src/healthcare_pipeline.py:25-45 | a known column is present exactly when some header entry, once stripped, equals its name |
| Records.Present | Experiment-1/Assignment-1/src/healthcare_pipeline.py:92-97 | the non-missing cells of a column among the first k rows: each value as many times as those rows hold it, one per row with a value, and a value occurs exactly when some row holds it |
| Records.PaddedHeaderExample | Experiment-1/Assignment-1/src/healthcare_pipeline.py:25 | a header cell `" Age "` still makes the Age column present |
| Text.Strip | Experiment-1/Assignment-1/src/healthcare_pipeline.py:52 | the result is the input with its leading and trailing whitespace runs removed, and starts and ends with no whitespace |
| Text.StripIdempotent | Experiment-1/Assignment-1/src/healthcare_pipeline.py:52 | stripping twice is stripping once |
| Text.Title | Experiment-1/Assignment-1/src/healthcare_pipeline.py:46 | each letter is upper-cased after an uncased character and lower-cased after a cased one |
| Text.TitleKeepsClasses | Experiment-1/Assignment-1/src/healthcare_pipeline.py:46 | title-casing changes neither which characters have case nor which are whitespace |
| Text.TitleIdempotent | Experiment-1/Assignment-1/src/healthcare_pipeline.py:46 | title-casing twice is title-casing once |
| Text.TitleKeepsTrimmed | Experiment-1/Assignment-1/src/healthcare_pipeline.py:46 | a stripped text stays stripped after title-casing |
| Text.LexLessTransitive | Experiment-1/Assignment-1/src/healthcare_pipeline.py:101 | the string order used for sorting is transitive |
| Text.LexLessTotal | Experiment-1/Assignment-1/src/healthcare_pipeline.py:101 | any two different strings are ordered one way or the other |
| Text.PaddedValue | Experiment-1/Assignment-1/src/healthcare_pipeline.py:73 | a zero-padded number reads back as the same number |
| Text.PaddedLess | Experiment-1/Assignment-1/src/healthcare_pipeline.py:73 | two zero-padded numbers of one width are in string order exactly when they are in numeric order |
| Normalise.BillingFilter | Experiment-1/Assignment-1/src/healthcare_pipeline.py:36 | the result keeps only digits, `.` and `-`, and is never longer than the input |
| Normalise.BillingFilterMultiplicity | Experiment-1/Assignment-1/src/healthcare_pipeline.py:36 | every allowed character is kept as often as it occurs, and every other character is dropped |
| Normalise.BillingFilterAppend | Experiment-1/Assignment-1/src/healthcare_pipeline.py:36 | filtering works piece by piece, so the original order is kept |
| Normalise.BillingFilterFixes | Experiment-1/Assignment-1/src/healthcare_pipeline.py:36 | the filter leaves a text unchanged exactly when it has only allowed characters |
| Normalise.BillingFilterIdempotent | Experiment-1/Assignment-1/src/healthcare_pipeline.py:36 | filtering twice is filtering once |
| Normalise.BillingFilterExample | Experiment-1/Assignment-1/src/healthcare_pipeline.py:36 | `"$1,234.56"` becomes `"1234.56"` |
| Normalise.BillingFilterMissing | Experiment-1/Assignment-1/src/healthcare_pipeline.py:35-36 | a missing amount becomes `"nan"` and then the empty text |
| Normalise.AsText | Experiment-1/Assignment-1/src/healthcare_pipeline.py:35 | `astype(str)` of one cell, with a missing one rendered `"nan"` (no contract of its own; Normalise.BillingFilterMissing, Normalise.GenderValueMissing and Cleaning.TrimTextSpec state its effect at lines 35, 46 and 52) |
| Normalise.BillingAmount | Experiment-1/Assignment-1/src/healthcare_pipeline.py:36-38 | the filtered text handed to the number parse (no contract of its own; Normalise.BillingAmountMissing and Cleaning.CoerceAll state it) |
| Normalise.BillingAmountMissing | Experiment-1/Assignment-1/src/healthcare_pipeline.py:35-38 | a missing amount is still missing after the conversion, when the parse makes nothing of the empty text |
| Normalise.GenderValue | Experiment-1/Assignment-1/src/healthcare_pipeline.py:46-47 | with t the stripped and title-cased text: the result is "Male" exactly when t is "M" or "Male", "Female" exactly when t is "F" or "Female", and t itself whenever t is neither "M" nor "F"; it is never exactly "M" or "F" and is stripped and title-cased |
| Normalise.Expanded | Experiment-1/Assignment-1/src/healthcare_pipeline.py:47 | the whole-value replacement maps "M" to "Male" and "F" to "Female" and keeps every other text |
| Normalise.GenderValueIdempotent | Experiment-1/Assignment-1/src/healthcare_pipeline.py:46-47 | normalising a normalised gender changes nothing |
| Normalise.GenderValueMissing | Experiment-1/Assignment-1/src/healthcare_pipeline.py:46 | a missing gender becomes `"Nan"` |
| Normalise.GenderValuePaddedM | Experiment-1/Assignment-1/src/healthcare_pipeline.py:46-47 | `" m "` becomes "Male" |
| Normalise.GenderValueUpperCase | Experiment-1/Assignment-1/src/healthcare_pipeline.py:46-47 | `"FEMALE"` becomes "Female" and is not mapped further |
| Normalise.GenderValueLowerCase | Experiment-1/Assignment-1/src/healthcare_pipeline.py:46-47 | `"male"` becomes "Male" |
| Normalise.AgeGroupOf | Experiment-1/Assignment-1/src/healthcare_pipeline.py:68-70 | an age gets group g exactly when it lies in g's bin, right-closed with 0 included; it gets no group exactly when it is below 0 or above 200 |
| Normalise.BinsDisjoint | Experiment-1/Assignment-1/src/healthcare_pipeline.py:68 | no age lies in two bins |
| Normalise.BinsCover | Experiment-1/Assignment-1/src/healthcare_pipeline.py:68 | every age from 0 to 200 lies in some bin |
| Normalise.AgeGroupExamples | Experiment-1/Assignment-1/src/healthcare_pipeline.py:68-70 | the groups at 0, 17, 18, 18.5, 19, 40, 41, 60, 61 and 200, and no group at -1 or 201 |
| Normalise.AgeGroupFor | Experiment-1/Assignment-1/src/healthcare_pipeline.py:70 | a missing age gets no group; a present one gets group g exactly when it lies in g's bin |
| Normalise.LabelInjective | Experiment-1/Assignment-1/src/healthcare_pipeline.py:69 | different groups have different labels |
| Normalise.MonthKey | Experiment-1/Assignment-1/src/healthcare_pipeline.py:73 | the period text has 7 characters with `-` at position 4 |
| Normalise.MonthKeyFields | Experiment-1/Assignment-1/src/healthcare_pipeline.py:73 | the first four characters read back as the year and the last two as the month |
| Normalise.MonthKeyOrder | Experiment-1/Assignment-1/src/healthcare_pipeline.py:73 | one period text sorts before another exactly when its month comes earlier in time |
| Normalise.MonthKeySame | Experiment-1/Assignment-1/src/healthcare_pipeline.py:73 | two dates share a period text exactly when they share year and month |
| Normalise.MonthKeyExample | Experiment-1/Assignment-1/src/healthcare_pipeline.py:73 | 15 January 2023 gives `"2023-01"` |
| Normalise.MonthName | Experiment-1/Assignment-1/src/healthcare_pipeline.py:74 | the month name has three letters |
| Normalise.MonthNameRoundTrip | Experiment-1/Assignment-1/src/healthcare_pipeline.py:74 | the month name identifies the month |
| Stats.Median | Experiment-1/Assignment-1/src/healthcare_pipeline.py:58 | the median exists exactly when there is at least one value |
| Stats.MedianOfSorted | Experiment-1/Assignment-1/src/healthcare_pipeline.py:58 | for any ascending arrangement of the values, the median is its middle value for an odd count and the mean of its two middle values for an even count |
| Stats.SortedUnique | Experiment-1/Assignment-1/src/healthcare_pipeline.py:58 | two ascending arrangements of the same values are equal, so the middle of the sorted values does not depend on how they were sorted |
| Stats.MedianSplitsInHalf | Experiment-1/Assignment-1/src/healthcare_pipeline.py:58 | at least half of the values are at most the median, and at least half are at least the median |
| Stats.MedianOddExample | Experiment-1/Assignment-1/src/healthcare_pipeline.py:58 | the median of 5, 1, 3 is 3 |
| Stats.MedianEvenExample | Experiment-1/Assignment-1/src/healthcare_pipeline.py:58 | the median of 3, 1 is their mean 2 |
| Distinct.Dedup | Experiment-1/Assignment-1/src/healthcare_pipeline.py:54 | the result holds exactly the input's rows, with no row twice |
| Distinct.DedupKeepsFirstOrder | Experiment-1/Assignment-1/src/healthcare_pipeline.py:54 | kept rows are in the order of their first occurrence in the input |
| Distinct.DedupOfDistinct | Experiment-1/Assignment-1/src/healthcare_pipeline.py:54 | a table without duplicates is left as it is |
| Distinct.DedupIdempotent | Experiment-1/Assignment-1/src/healthcare_pipeline.py:54 | removing duplicates twice is removing them once |
| Distinct.DedupLength | Experiment-1/Assignment-1/src/healthcare_pipeline.py:54 | the number of kept rows is the number of distinct input rows |
| Distinct.DedupPairExample | Experiment-1/Assignment-1/src/healthcare_pipeline.py:54 | two equal rows leave one row |
| Counts.ValueCounts | Experiment-1/Assignment-1/src/healthcare_pipeline.py:92 | one row per distinct value; each count is that value's number of occurrences and at least 1; the counts add up to the number of values; counts do not increase down the table |
| Counts.KeyOrderedCounts | Experiment-1/Assignment-1/src/healthcare_pipeline.py:98-101 | one row per distinct key with its number of occurrences; counts add up to the number of keys; keys are strictly ascending |
| Counts.PermutedCountTable | Experiment-1/Assignment-1/src/healthcare_pipeline.py:101 | reordering the rows of a count table keeps it a count table of the same values |
| Counts.TallyExample | Experiment-1/Assignment-1/src/healthcare_pipeline.py:92 | two occurrences of a and one of b give the rows (a, 2) and (b, 1) |
| Counts.MonthlyCountsExample | Experiment-1/Assignment-1/src/healthcare_pipeline.py:96-102 | months "2023-01", "2023-01", "2023-02" give ("2023-01", 2) then ("2023-02", 1) |
| Cleaning.CoerceAll | Experiment-1/Assignment-1/src/healthcare_pipeline.py:28-42 | one row per loaded row; each present column's cell is carried from the load, Billing Amount is the filtered and parsed text, an absent column's cell is empty, unknown columns are kept, and the derived cells are empty |
| Cleaning.CoerceAllConforms | Experiment-1/Assignment-1/src/healthcare_pipeline.py:28-42 | after loading, every column the table lacks is empty |
| Cleaning.NormaliseGenders | Experiment-1/Assignment-1/src/healthcare_pipeline.py:45-47 | when Gender exists each row's gender becomes the normalised text of its old cell; nothing else in any row changes |
| Cleaning.NormaliseGendersConforms | Experiment-1/Assignment-1/src/healthcare_pipeline.py:45-47 | gender normalisation fills no absent column |
| Cleaning.TrimColumn | Experiment-1/Assignment-1/src/healthcare_pipeline.py:51-52 | one column stripped in every row (no contract beyond the row count; Cleaning.TrimColumnAt states each row) |
| Cleaning.Coerce | Experiment-1/Assignment-1/src/healthcare_pipeline.py:28-42 | the date, billing and age conversions of one row, keeping only present columns (no contract of its own; Cleaning.CoerceAll states it per row) |
| Cleaning.TrimmedCell | Experiment-1/Assignment-1/src/healthcare_pipeline.py:52 | `astype(str).str.strip()` of one cell (no contract of its own; Cleaning.TrimTextSpec and Cleaning.MissingTextIsNan state it) |
| Cleaning.TrimColumnAt | Experiment-1/Assignment-1/src/healthcare_pipeline.py:51-52 | the trimmed column of row i holds the stripped text of its old cell, and the row is otherwise unchanged |
| Cleaning.TrimTextUpTo | Experiment-1/Assignment-1/src/healthcare_pipeline.py:50-52 | the first n rounds of the loop (no contract beyond the row count; Cleaning.TrimTextUpToAt states it) |
| Cleaning.TrimTextUpToAt | Experiment-1/Assignment-1/src/healthcare_pipeline.py:50-52 | after the first n rounds of the loop, each of the first n free-text columns that the table has holds its stripped text, and every other free-text cell is unchanged |
| Cleaning.TrimTextUpToOutside | Experiment-1/Assignment-1/src/healthcare_pipeline.py:50-52 | the loop changes no cell outside the free-text columns |
| Cleaning.TrimText | Experiment-1/Assignment-1/src/healthcare_pipeline.py:50-52 | the whole loop (no contract of its own; Cleaning.TrimTextSpec states it) |
| Cleaning.TrimTextSpec | Experiment-1/Assignment-1/src/healthcare_pipeline.py:50-52 | after the loop, a present free-text column holds the stripped text of each old cell (a missing one becomes `"nan"`); absent columns and all other cells are unchanged |
| Cleaning.TrimColumnConforms | Experiment-1/Assignment-1/src/healthcare_pipeline.py:51-52 | trimming a present column fills no absent column |
| Cleaning.DedupConforms | Experiment-1/Assignment-1/src/healthcare_pipeline.py:54 | duplicate removal fills no absent column |
| Cleaning.BillingValues | Experiment-1/Assignment-1/src/healthcare_pipeline.py:58 | the median's input holds each amount as many times as rows hold it, one entry per row with an amount; it is non-empty exactly when some row has an amount |
| Cleaning.ImputeBilling | Experiment-1/Assignment-1/src/healthcare_pipeline.py:57-58 | the row count is kept; without the column nothing changes; a row with an amount is unchanged (Cleaning.ImputeSpec states the rest) |
| Cleaning.ImputeWithoutGap | Experiment-1/Assignment-1/src/healthcare_pipeline.py:57 | with no missing amount the table is unchanged |
| Cleaning.ImputeSpec | Experiment-1/Assignment-1/src/healthcare_pipeline.py:57-58 | each missing amount becomes the median of the present amounts, taken before any gap is filled; each present amount and every other cell is unchanged |
| Cleaning.ImputeComplete | Experiment-1/Assignment-1/src/healthcare_pipeline.py:57-58 | when at least one amount is present, no amount is missing afterwards |
| Cleaning.ImputeAllMissing | Experiment-1/Assignment-1/src/healthcare_pipeline.py:57-58 | when every amount is missing, the table is unchanged and so every amount stays missing |
| Cleaning.ImputeConforms | Experiment-1/Assignment-1/src/healthcare_pipeline.py:57-58 | imputation fills no absent column |
| Cleaning.DedupBilling | Experiment-1/Assignment-1/src/healthcare_pipeline.py:54 | duplicate removal keeps some billing amount exactly when there was one, and leaves an empty table exactly when it was given one |
| Cleaning.ImputedBillingComplete | Experiment-1/Assignment-1/src/healthcare_pipeline.py:54-58 | after duplicate removal and imputation, no amount is missing exactly when the table was empty or had some amount |
| Cleaning.CleanedBillingComplete | Experiment-1/Assignment-1/src/healthcare_pipeline.py:32-58 | after the whole block, no amount is missing exactly when there were no rows or some amount survived the billing conversion |
| Cleaning.FillCell | Experiment-1/Assignment-1/src/healthcare_pipeline.py:59-64 | `fillna("Unknown")` of one cell: a missing cell becomes `"Unknown"`, a text cell is kept |
| Cleaning.FillUnknown | Experiment-1/Assignment-1/src/healthcare_pipeline.py:59-64 | afterwards every present Gender, Insurance Provider and Blood Type cell holds text; a missing one of these becomes `"Unknown"`; a cell that held text keeps it; no other cell changes |
| Cleaning.FillUnknownNoop | Experiment-1/Assignment-1/src/healthcare_pipeline.py:59-64 | when every present Gender, Insurance Provider and Blood Type cell holds text, the fills change nothing |
| Cleaning.FillUnknownConforms | Experiment-1/Assignment-1/src/healthcare_pipeline.py:59-64 | the fills touch no absent column |
| Cleaning.TextStepsFilledIn | Experiment-1/Assignment-1/src/healthcare_pipeline.py:45-52 | after gender normalisation and trimming, every present Gender, Insurance Provider and Blood Type cell holds text |
| Cleaning.NormalisedFilledIn | Experiment-1/Assignment-1/src/healthcare_pipeline.py:25-52 | the same holds for the loaded and converted table |
| Cleaning.FillsChangeNothing | Experiment-1/Assignment-1/src/healthcare_pipeline.py:59-64 | in the script's sequence of steps the "Unknown" fills leave the table exactly as it was |
| Cleaning.MissingGenderIsNan | Experiment-1/Assignment-1/src/healthcare_pipeline.py:46 | a gender missing from the input is `"Nan"` after normalisation, not "Unknown" |
| Cleaning.MissingTextIsNan | Experiment-1/Assignment-1/src/healthcare_pipeline.py:52 | a missing free-text cell becomes the text `"nan"` when converted and stripped |
| Cleaning.TrimmedMissingIsNan | Experiment-1/Assignment-1/src/healthcare_pipeline.py:50-52 | the loop turns a missing cell of a present free-text column into `"nan"` |
| Cleaning.PreparedMissingIsNan | Experiment-1/Assignment-1/src/healthcare_pipeline.py:28-52 | a free-text cell missing after the conversions is `"nan"` once gender normalisation and the loop are done |
| Cleaning.MissingInsuranceIsNan | Experiment-1/Assignment-1/src/healthcare_pipeline.py:52 | an Insurance Provider missing from the input is `"nan"` after the text steps, not "Unknown" |
| Cleaning.MissingBloodTypeIsNan | Experiment-1/Assignment-1/src/healthcare_pipeline.py:52 | a Blood Type missing from the input is `"nan"` after the text steps, not "Unknown" |
| Cleaning.DeriveAgeGroup | Experiment-1/Assignment-1/src/healthcare_pipeline.py:67-70 | when Age exists each row's Age Group is the group of its age (Normalise.AgeGroupFor); nothing else changes |
| Cleaning.DeriveAgeGroupConforms | Experiment-1/Assignment-1/src/healthcare_pipeline.py:67-70 | Age Group is filled only when Age exists |
| Cleaning.DeriveDates | Experiment-1/Assignment-1/src/healthcare_pipeline.py:72-74 | an undated row gets no year, the month text `"NaT"` and no month name; only the three date-derived cells change (Cleaning.DeriveDatesSpec states the dated rows) |
| Cleaning.DeriveDatesSpec | Experiment-1/Assignment-1/src/healthcare_pipeline.py:72-74 | Admission Month is the period text of the date, or `"NaT"` without one; for a dated row the year is the date's year, the period text reads back as that year, and the month name identifies the month; the date is unchanged |
| Cleaning.DeriveDatesConforms | Experiment-1/Assignment-1/src/healthcare_pipeline.py:72-74 | only the three date columns are added |
| Cleaning.MissingBillingStaysMissing | Experiment-1/Assignment-1/src/healthcare_pipeline.py:32-52 | a billing cell missing from the input is still missing after the conversions and the text steps, when the parse makes nothing of the empty text |
| Cleaning.LoadedColumns | Experiment-1/Assignment-1/src/healthcare_pipeline.py:25 | the known columns of the loaded table (no contract of its own; Records.PresentColumnsSpec and Table.PatientTable.Load state it) |
| Cleaning.Normalised | Experiment-1/Assignment-1/src/healthcare_pipeline.py:25-52 | the table after loading, conversions, gender normalisation and trimming (no contract of its own; Cleaning.NormalisedFilledIn, Cleaning.MissingGenderIsNan, Cleaning.MissingInsuranceIsNan and Cleaning.MissingBillingStaysMissing state it) |
| Cleaning.Imputed | Experiment-1/Assignment-1/src/healthcare_pipeline.py:54-58 | the table after duplicate removal and imputation (no contract of its own; Cleaning.ImputedBillingComplete and Cleaning.FillsChangeNothing state it) |
| Cleaning.CleanedColumns | Experiment-1/Assignment-1/src/healthcare_pipeline.py:66-74 | the columns after Age Group and the date columns are added (no contract of its own; Table.PatientTable.DeriveColumns and Table.CleanAndEnrich state it) |
| Cleaning.Cleaned | Experiment-1/Assignment-1/src/healthcare_pipeline.py:25-74 | the whole block as one function (no contract of its own; Table.CleanAndEnrich, Cleaning.CleanedBillingComplete, Cleaning.FillsChangeNothing, Metrics.CleanedCountsTotal and Metrics.CleanedMonthlyTotal state it) |
| Cleaning.LaterStepsKeepBilling | Experiment-1/Assignment-1/src/healthcare_pipeline.py:59-74 | the fills and the derived columns change no billing amount and no row count |
| Cleaning.ImputationCanCreateDuplicates | Experiment-1/Assignment-1/src/healthcare_pipeline.py:54-58 | a table with no duplicate rows can have two equal rows after imputation |
| Table.PatientTable.Load | Experiment-1/Assignment-1/src/healthcare_pipeline.py:25-42 | the table's columns are the present known columns, and its rows are the loaded rows after the date, billing and age conversions |
| Table.PatientTable.NormaliseGender | Experiment-1/Assignment-1/src/healthcare_pipeline.py:45-47 | the rows become the gender-normalised rows, and the columns and the table's invariant are kept |
| Table.PatientTable.TrimTextColumns | Experiment-1/Assignment-1/src/healthcare_pipeline.py:50-52 | the loop leaves the rows described by `Cleaning.TrimTextSpec` |
| Table.PatientTable.DropDuplicates | Experiment-1/Assignment-1/src/healthcare_pipeline.py:54 | the rows become the first occurrences of the old rows, in order |
| Table.PatientTable.FillMissing | Experiment-1/Assignment-1/src/healthcare_pipeline.py:56-64 | the rows become the imputed rows with the "Unknown" fills applied |
| Table.PatientTable.DeriveColumns | Experiment-1/Assignment-1/src/healthcare_pipeline.py:66-74 | Age Group is added when Age exists, then the three date columns; the rows get exactly those cells |
| Table.CleanAndEnrich | Experiment-1/Assignment-1/src/healthcare_pipeline.py:25-74 | running the steps in order on one new table gives the cleaned rows and columns of `Cleaning.Cleaned` |
| Metrics.TotalPatients | Experiment-1/Assignment-1/src/healthcare_pipeline.py:85 | `len(df)` (no contract of its own; Metrics.TotalPatientsIsDistinctRows and Metrics.CleanedCountsTotal state it) |
| Metrics.TotalPatientsIsDistinctRows | Experiment-1/Assignment-1/src/healthcare_pipeline.py:85 | the patient count of the cleaned table is the number of distinct rows before duplicate removal |
| Metrics.PresentCells | Experiment-1/Assignment-1/src/healthcare_pipeline.py:92 | the counted values are the column's non-missing cells, each as many times as rows hold it; with no missing cell there is one per row |
| Metrics.ColumnCounts | Experiment-1/Assignment-1/src/healthcare_pipeline.py:91-93 | a count table exists exactly when the column does; it counts the column's non-missing cells, most frequent first |
| Metrics.ColumnCountsRows | Experiment-1/Assignment-1/src/healthcare_pipeline.py:91-93 | each count in a column's count table is the number of rows holding that text |
| Metrics.ConditionCounts | Experiment-1/Assignment-1/src/healthcare_pipeline.py:91-93 | the Medical Condition count table exists exactly when the column does, counts its non-missing cells, and lists them most frequent first |
| Metrics.BloodTypeCounts | Experiment-1/Assignment-1/src/healthcare_pipeline.py:115-117 | the Blood Type count table exists exactly when the column does, counts its non-missing cells, and lists them most frequent first |
| Metrics.CleanStepsCountsTotal | Experiment-1/Assignment-1/src/healthcare_pipeline.py:91-93 | for any converted rows, after the steps from gender normalisation on, a present free-text column has a count table whose counts add up to the number of rows |
| Metrics.CleanedCountsTotal | Experiment-1/Assignment-1/src/healthcare_pipeline.py:115-117 | on the cleaned table, a present Medical Condition or Blood Type column has a count table whose counts add up to the patient count |
| Metrics.LaterStepsKeepText | Experiment-1/Assignment-1/src/healthcare_pipeline.py:54-74 | steps after trimming never empty a free-text cell |
| Metrics.DatedMonths | Experiment-1/Assignment-1/src/healthcare_pipeline.py:97-98 | the grouped months are the Admission Month texts of the rows with a date, each as many times as such rows hold it, one per dated row with a month |
| Metrics.DatedCount | Experiment-1/Assignment-1/src/healthcare_pipeline.py:97 | the number of rows with a date of admission, as a count of row positions; Metrics.MonthlyTotal ties the monthly counts to it |
| Metrics.MonthlyCountsRows | Experiment-1/Assignment-1/src/healthcare_pipeline.py:96-102 | each month's count is the number of dated rows whose Admission Month is that month |
| Metrics.MonthKeysDated | Experiment-1/Assignment-1/src/healthcare_pipeline.py:96-102 | every month key comes from a row with a date |
| Metrics.MonthlyAdmissions | Experiment-1/Assignment-1/src/healthcare_pipeline.py:96-102 | one row per month of a dated row with its number of admissions; the counts add up to the dated months; months strictly ascending |
| Metrics.DatedMonthsOfDerived | Experiment-1/Assignment-1/src/healthcare_pipeline.py:72-98 | once the date columns are derived, each dated row gives exactly one month |
| Metrics.MonthlyTotal | Experiment-1/Assignment-1/src/healthcare_pipeline.py:96-102 | the monthly counts add up to the number of dated rows |
| Metrics.MonthlyChronological | Experiment-1/Assignment-1/src/healthcare_pipeline.py:96-102 | every month key is the period text of a dated row, `"NaT"` is never a key, and ascending keys are months in time order |
| Metrics.CleanedMonthlyTotal | Experiment-1/Assignment-1/src/healthcare_pipeline.py:96-102 | on the cleaned table the monthly counts add up to the number of rows with a date |

## Left out

- File and console I/O: creating the directories, reading the CSV, writing the
  cleaned table and the metric files, and the prints. These are side effects with
  nothing to state. The loaded CSV is the input `header` plus `raws`.
- `pd.to_datetime` and `pd.to_numeric`: the parsing is library code. Parsed dates
  and ages are inputs, and the number parse of the filtered billing text is the
  parameter `toNumeric`. Time of day is not modelled; a date is year, month and
  day. So two rows that differ only in the time of admission are duplicates at
  line 54 in the model, while pandas keeps both.
- A CSV column already named "Age Group", "Admission Year", "Admission Month" or
  "Month Name" is an `extra` cell in the model and stays one. pandas overwrites
  such a column at lines 70 and 72–74.
- pandas 3.0 and later: the default string dtype keeps a missing value missing
  under `astype(str)`. The fills of lines 59–64 then do take effect, a missing
  Gender does not become `"Nan"`, an undated row's Admission Month stays
  missing instead of `"NaT"`, and `value_counts` drops a missing condition or
  blood type. The model does not cover this, and it would change
  Cleaning.FillsChangeNothing, Cleaning.TextStepsFilledIn,
  Cleaning.NormalisedFilledIn, Cleaning.DeriveDates, Cleaning.DeriveDatesSpec,
  Cleaning.MissingTextIsNan, Cleaning.TrimmedMissingIsNan,
  Cleaning.PreparedMissingIsNan, Cleaning.MissingInsuranceIsNan,
  Cleaning.MissingBloodTypeIsNan, Cleaning.MissingGenderIsNan,
  Normalise.GenderValueMissing, Metrics.CleanStepsCountsTotal and
  Metrics.CleanedCountsTotal.
- Floating-point arithmetic: the billing total and average of the KPI row, and the
  average billing per condition and per blood type with their sorts (lines
  86–87, 105–112, 120–126).
- Stats.Median: uses exact reals, so it does not model float rounding of the mean
  of the two middle values.
- Charts: all plotting code (lines 128–219).
- Counts.ValueCounts: states no order among values with equal counts, since
  pandas' tie order is internal to the library.
- Text.Title: title-cases ASCII letters only; Unicode case mapping is not
  modelled, and every other character counts as uncased.
- Records.PresentColumns: a header naming one column twice after stripping is
  treated as one column. In pandas `df["Age"]` is then a table of two columns:
  `pd.to_numeric` at line 42 and `.str` at lines 36, 46 and 52 raise an error
  and the script stops, so no cleaned table exists for such a header.
- The categorical dtype of Age Group (`pd.cut` returns an ordered categorical) is
  modelled as an `Option` of an enumeration; the category order is not used
  by the modelled code.
- Table.PatientTable.DeriveColumns and Cleaning.Cleaned: require the Date of
  Admission column, because lines 72–74 read it without a guard and the script
  stops with an error when it is missing.
- Metrics.TotalPatientsIsDistinctRows, Metrics.CleanedCountsTotal and
  Metrics.CleanedMonthlyTotal: require the Billing Amount column as well,
  because line 86 reads it without a guard and the script stops before any
  metric is written when it is missing.
- The Billing Amount text: a loaded amount that pandas already read as a number
  is rendered by `astype(str)` at line 35 first, and `Records.RawRow` holds that
  rendering, not the number. The rendering of floats is not modelled. With it,
  the filter mangles exponent forms: `1e-05` becomes `"1-05"` and no number,
  `1e16` becomes `"1e+16"` and then `"116"`, and `inf` becomes the empty text
  and no number.
- The other text cells of `Records.RawRow` (Name, Gender, Blood Type, Medical
  Condition, Doctor, Hospital, Insurance Provider) hold the raw CSV text. pandas
  renders with `astype(str)` (lines 46 and 52) whatever type `read_csv`
  inferred for the column, and that rendering is not modelled: a numeric-looking
  column with a gap is read as floats, so a cell `1` comes back as `"1.0"`.
- Normalise.BillingAmount: nothing requires `toNumeric("")` to be missing; the
  lemmas that need it (Normalise.BillingAmountMissing,
  Cleaning.MissingBillingStaysMissing) require it.
- Normalise.MonthName: `strftime("%b")` depends on the locale; the model uses the
  English abbreviations of the C locale.
- Admission Year is a plain integer; the float form pandas uses when some dates
  are missing is not modelled.
