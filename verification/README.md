# Booking frequency analysis — a verified model

This project models the analysis core of a small booking-frequency dashboard. It takes a spreadsheet of class
bookings (person id, first name, class name, start timestamp) and a time window: a single month, or an inclusive
range of months. It drops "Self Practice" classes and counts each person's bookings. It then buckets persons by
that count into `1..max_upper` plus an overflow bucket `">max_upper"`. The result is a table with `#Students`,
`Cum 1->`, `Cum ->End` and a `Details` column of `"name : id"` entries per bucket. The dashboard draws a
histogram from the table and marks the mean and the median of the per-person counts, recovered by flattening the
table back into a sample.

Modules, following the data flow (filter, group, table, statistics):

- `Wrappers` (wrappers.dfy): `Option`.
- `Text` (text.dfy): ASCII case folding, substring search, decimal formatting and parsing, joining.
- `Seqs` (seqs.dfy): order-preserving filter, repetition, sums, sortedness.
- `Booking` (booking.dfy): rows, months, the window choice and the two row filters (app.py:21-30).
- `Grouping` (grouping.dfy): `groupby("Id_Person").size()` as an ascending list of `(id, count)` entries, and
  the count comparisons the table uses (app.py:33-43).
- `Frequency` (frequency.dfy): the table and its `Details` column (app.py:36-57), plus the intended details.
- `Stats` (stats.dfy): the flattened sample, its mean and its median (app.py:277-286).

Modelling choices:

- A timestamp is reduced to its period label, `to_period("M").astype(str)`: `InMonth(Month)` for a parsed
  timestamp, `NaT` for one that did not parse. `Month` is `(year, month)` ordered lexicographically, which is how
  zero-padded `YYYY-MM` strings compare. `"NaT"` sorts after every month, because `'N'` sorts after every digit
  (`Booking.PeriodLe`).
- The three selector values are `Option<Period>`. An absent or empty selector (falsy in Python) is `None`. The
  dropdowns list the labels of the data (app.py:198), so `"NaT"` is a selectable value and, whenever some
  timestamp did not parse, it is the default monthly period and the default range end (app.py:205, app.py:225).
- The mixed-type `Freq` column is the variant `Bucket = Numeric(i) | Overflow`. The label text `">max_upper"`
  is produced only where the source parses it back (`Stats.OverflowLabel`).
- The table is the data frame the source builds: the four counting columns (`Frequency.TableRow`, app.py:36-44),
  then the `Details` column assigned next to them (app.py:56). `Frequency.Table` holds the two parts side by side.
- The mean is an exact `real`.
- The overflow row enters the flattened sample as `max_upper`, not `max_upper + 1`: app.py:281 strips `'>'` from
  `">max_upper"` and parses the rest (`Stats.SampleValue`, `Stats.OverflowLabelParses`). So every sample value lies in `1..max_upper`.

## Model

| member | source | states |
|---|---|---|
| Booking.SelectWindow | app.py:21-27 | there is no window exactly when the period is absent and not both range ends are given; a period takes precedence over a range; any label, `"NaT"` included, selects |
| Booking.InWindow | app.py:22-25 | a label is in the window exactly when it lies between the window's first and last label in string order: equal to the single period, or inclusive between the range ends |
| Booking.IsSelfPractice | app.py:30 | a class name is excluded exactly when it is present and its ASCII lower-casing contains "self practice"; an empty cell is never excluded |
| Booking.Filtered | app.py:21-30 | the filtered data is the one-pass, order-preserving filter on "in the window and not self practice"; a row is in it exactly when it is a data row in the window whose class is not self practice |
| Booking.MonthlyWindowKeeps | app.py:21-22 | in monthly mode with a month, a (non-self-practice) row is kept exactly when its label is that month |
| Booking.RangeWindowKeeps | app.py:23-25 | in range mode between two months, a (non-self-practice) row is kept exactly when it has a month and `start <= month <= end`, both ends inclusive |
| Booking.UnparsedRowKept | app.py:22-25 | a (non-self-practice) row whose timestamp did not parse is kept exactly when the window ends at `"NaT"` |
| Booking.UnparsedMonthNeverKept | app.py:22-25 | a row whose timestamp did not parse is kept by no window that ends at a month |
| Booking.MonthSelectorsEndInMonth | app.py:21-27 | when every selector given is a month, the chosen window ends at a month |
| Booking.NaTSelectorExample | app.py:22-25 | with a `"NaT"` row and a January row, the period `"NaT"` keeps just the `"NaT"` row and the range January..`"NaT"` keeps both |
| Booking.IntendedFiltered | app.py:21-30 | the intended filter keeps a row exactly when `Filtered` does and it has a month; it equals `Filtered` whenever the window ends at a month |
| Booking.IntendedFilteredIgnoresDropped | app.py:21-30 | the intended filter is unchanged by inserting a self-practice row or an unparsable row anywhere |
| Booking.ReversedRangeKeepsNothing | app.py:23-25 | a range with `start > end` keeps no row at all |
| Booking.SelfPracticeNeverKept | app.py:30 | a row whose class name contains "Self Practice" in any ASCII letter case is never kept |
| Booking.MissingClassNameKept | app.py:30 | a row with an empty class-name cell is not excluded (`na=False`): it is kept whenever it is in the window |
| Booking.DroppedRowInvisible | app.py:21-30 | inserting a row that fails either filter anywhere in the data leaves the filtered data unchanged |
| Text.FindFrom | app.py:30 | the substring search behind `str.contains`: it returns the first occurrence at or after the start, or reports that there is none |
| Grouping.Group | app.py:33 | the grouped series has strictly ascending ids, exactly the persons of the rows, each with a count of at least one that equals that person's number of rows |
| Grouping.GroupEntryCounts | app.py:33 | every entry of the grouped series counts exactly its person's rows, and that count is at least one |
| Grouping.GroupNumWhere | app.py:38-43 | counting the grouped entries that satisfy `== i`, `<= i` or `> i` counts the distinct persons whose number of rows satisfies it |
| Grouping.GroupSize | app.py:41 | the length of the grouped series is the number of distinct persons |
| Frequency.FrequencyTable | app.py:19-56 | the result is absent exactly when no window is selected; otherwise the table has `max_upper + 1` rows labelled `1..max_upper` in order, then the overflow row, and one `Details` cell per row |
| Frequency.BuildTable | app.py:36-56 | shape only: the table of the filtered rows has `max_upper + 1` rows labelled `1..max_upper` in order, then the overflow row, and a `Details` column of the same length; what the columns count is stated by `RowsCountPersons` and `DetailsColumn` |
| Frequency.RowsCountPersons | app.py:36-44 | `#Students` is the number of persons in the bucket; on numeric rows `Cum 1->` counts persons with at most `i` bookings and `Cum ->End` those with more than `i`; on the overflow row `#Students` counts persons above `max_upper` and `Cum 1->` counts everybody |
| Frequency.CumulativeComplement | app.py:40-42 | on every numeric row `Cum 1->` plus `Cum ->End` is the number of distinct persons |
| Frequency.CumulativeMonotone | app.py:40-42 | `Cum 1->` never decreases and `Cum ->End` never increases down the numeric rows |
| Frequency.LastCumulativeToEnd | app.py:42-43 | `Cum ->End` of row `max_upper` equals the overflow row's `#Students` |
| Frequency.OverflowRow | app.py:41-43 | the overflow row's `Cum 1->` is the number of distinct persons and its `Cum ->End` is its own `#Students` |
| Frequency.PrefixStudents | app.py:38-40 | the `#Students` of the first `k` rows add up to the number of persons with at most `k` bookings |
| Frequency.CumulativeIsRunningSum | app.py:38-41 | `Cum 1->` on numeric row `i` is the running total of `#Students` over rows `1..i` |
| Frequency.SumStudentsIsPersons | app.py:33-39 | the `#Students` column sums to the number of distinct persons with a kept booking |
| Frequency.DropDuplicates | app.py:53 | `drop_duplicates` keeps every value of the input exactly once, only values of the input, in the order of their first occurrence |
| Frequency.DropDuplicatesUnique | app.py:53 | any listing of the input's values in first-occurrence order is the one `drop_duplicates` returns |
| Frequency.BucketIds | app.py:48-51 | the bucket's index holds one id per person of the bucket (as many as `#Students`): exactly the ids whose booking count satisfies the bucket's comparison (`== freq`, or `> max_upper` for the overflow row) |
| Frequency.BucketIdsAscending | app.py:48-51 | the bucket's ids come out in ascending order, as the sorted `groupby` index gives them, hence without repeats |
| Frequency.NamesOf | app.py:53 | every row of a person in the bucket contributes its `FirstName` to the selection |
| Frequency.NamesOfIsFilter | app.py:53 | the `isin(ids)` selection of `FirstName` is the order-preserving filter of the rows by person, projected to the name column, duplicates kept |
| Frequency.Zip | app.py:54 | `zip` stops at the shorter input, and pair `k` is the `k`-th name with the `k`-th id |
| Frequency.ZipUnzip | app.py:54 | unzipping the pairs gives both inputs back, each cut to the shorter length |
| Frequency.FormatEntry | app.py:54 | an entry `f"{name} : {id}"` is never empty |
| Frequency.FormatEntryParts | app.py:54 | an entry reads back: the name, then `" : "`, then text that parses back to the id |
| Text.Join | app.py:54 | only two facts: joining one part gives that part, and when no part is empty the result is empty exactly when there are no parts; `Text.JoinAppend` states how joins compose |
| Text.JoinAppend | app.py:54 | joining two non-empty lists of parts is joining each list and putting the separator between the two results |
| Frequency.RenderAppend | app.py:54 | the cell of two non-empty lists of pairs is the two cells joined by `", "` |
| Frequency.RenderEmpty | app.py:54 | a rendered cell is empty exactly when there are no pairs |
| Frequency.SourcePairsShape | app.py:47-54 | a bucket's name/id pairs number at most `#Students`; their ids are the bucket's ids in ascending order, position by position; their names are pairwise distinct |
| Frequency.SourceDetails | app.py:47-54 | a bucket's `Details` text is empty exactly when the bucket has no students |
| Frequency.SourceDetailsEntries | app.py:47-54 | a bucket's details are empty exactly when the bucket has no students; otherwise there are between one and `#Students` entries; their ids are the bucket's ids in ascending order (a prefix of them); their names are names of the bucket's rows |
| Frequency.DetailsColumn | app.py:47-56 | every `Details` cell of the table is empty exactly when its `#Students` is zero and never has more entries than `#Students` |
| Frequency.DetailsMispairing | app.py:53-54 | for two rows (id 2 "Bob", id 1 "Ann") in the same bucket, the source pairs Bob with id 1 and Ann with id 2 |
| Frequency.DetailsMispairingText | app.py:54 | the same two rows render as `"Bob : 1, Ann : 2"`, where the intended cell is `"Ann : 1, Bob : 2"` |
| Frequency.DetailsSharedName | app.py:53-54 | two persons named "Ann" (ids 1 and 2) in one bucket of two students render as the single entry `"Ann : 1"` |
| Frequency.FirstRow | app.py:53 | the first row of a person: it belongs to that person and no earlier row does |
| Frequency.IntendedPairs | app.py:47-54 | the intended details list every person of the bucket exactly once, in ascending id order, with the first name of that person's own first row |
| Frequency.IntendedFrequencyTable | app.py:19-56 | the table built from the intended filter and with the intended details exists exactly when the source table does |
| Frequency.IntendedAgreesWithSource | app.py:19-56 | the intended table exists exactly when the source table does; when every selector given is a month, the two have the same `Freq`, `#Students`, `Cum 1->` and `Cum ->End` columns, and only `Details` differs |
| Frequency.IntendedDroppedRowDoesNotCount | app.py:22-44 | in the intended table, inserting a self-practice row or a row with an unparsable timestamp anywhere changes nothing, whatever the selectors |
| Frequency.IntendedDetailsColumn | app.py:47-56 | with the intended details, each cell has exactly `#Students` entries and is empty exactly when `#Students` is zero |
| Frequency.DroppedRowDoesNotCount | app.py:22-44 | when every selector given is a month, inserting a self-practice row or a row with an unparsable timestamp anywhere in the data leaves the whole table unchanged; a self-practice row never changes it |
| Text.ParseNatToString | app.py:281 | parsing the decimal rendering of a natural number gives that number back |
| Stats.SampleValue | app.py:279-281 | a numeric label contributes its own number; the overflow label `">max_upper"`, with `'>'` removed and parsed by `int`, contributes `max_upper` |
| Stats.OverflowLabelParses | app.py:279-282 | the overflow label `">max_upper"` with `'>'` removed parses to `max_upper` |
| Text.RemoveChar | app.py:281 | `replace('>', '')` leaves no `'>'`, keeps exactly the other characters, and changes nothing when there is no `'>'` |
| Text.RemoveCharIsFilter | app.py:281 | removing a character is the order-preserving filter that keeps every other character |
| Text.ParseNat | app.py:281 | `int` succeeds exactly on a non-empty string of decimal digits |
| Stats.Flatten | app.py:278-282 | the sample exists exactly when every `Freq` label parses, and then has one value per student of the table |
| Stats.FlattenAscending | app.py:278-282 | flattening rows whose values ascend within `[lo, hi]` gives a sorted sample in `[lo, hi]` with one value per student |
| Stats.FlattenSum | app.py:278-285 | the sample's sum is the `#Students`-weighted sum of the row values |
| Stats.TableSample | app.py:278-282 | the flattened sample of a table has one value per distinct person; every value is in `1..max_upper`; it is already in ascending order |
| Stats.FlattenOccurrences | app.py:278-282 | the number of copies of a value in the sample is the `#Students` total of the rows whose label parses to that value |
| Stats.ShapedSampleCounts | app.py:278-282 | in a table whose rows carry the values `1..max_upper` and then `max_upper` again, value `w` occurs as often as row `w` counts students, plus the overflow row's students for `w == max_upper`, and no other value occurs |
| Stats.PersonCountsBelow | app.py:278-282 | in the sample of a table, a value `w` below `max_upper` occurs once per person with exactly `w` kept bookings |
| Stats.PersonCountsAtMax | app.py:278-282 | in the sample of a table, `max_upper` occurs once per person with `max_upper` kept bookings or more |
| Stats.SampleCounts | app.py:278-282 | the sample holds each value `w < max_upper` once per person with exactly `w` kept bookings, `max_upper` once per person with `max_upper` or more, and nothing else |
| Stats.Sort | app.py:286 | `sorted` returns a sorted permutation of its input |
| Stats.SortedUnique | app.py:286 | two sorted permutations of the same values are equal |
| Stats.SortSorted | app.py:286 | sorting an already sorted sample returns it unchanged |
| Stats.Mean | app.py:285 | the mean times the sample size is the sample's sum |
| Stats.MeanBounds | app.py:285 | the mean of values drawn from `[lo, hi]` lies in `[lo, hi]` |
| Stats.Median | app.py:286 | the median is the element at index `n / 2` of the sorted permutation of the sample; it is a sample value, no smaller than the sorted lower half and no larger than the upper half |
| Stats.MedianBetween | app.py:286 | the median lies between the smallest and the largest sample values |
| Stats.Statistics | app.py:284-286 | statistics exist exactly when the flattened sample is non-empty |
| Stats.TableStatisticsPresent | app.py:284 | a table has statistics exactly when some person has a kept booking |
| Stats.SampleStatistics | app.py:284-286 | for a sorted non-empty sample in `[lo, hi]`, the mean lies in `[lo, hi]` and equals the weighted sum over the sample size; the median is the value at index `n / 2` and lies in `[lo, hi]` |
| Stats.TableStatistics | app.py:284-286 | for a table with persons: the mean is the `#Students`-weighted sum of the row values over the number of persons and lies in `[1, max_upper]`; the median is the value at index `n / 2` of the ascending sample and lies in `[1, max_upper]` |

## Left out

- `parse_contents` (app.py:59-69) is not modelled: base64 decoding, `read_excel` and `to_datetime` are library calls. Their result is the input here: rows whose timestamp is reduced to a period label.
- The Dash layout and every callback's wiring are not modelled: `store_data`, `update_period_selector`, and the JSON round trip through the browser store (app.py:72-253).
- Figure construction, vline annotations and HTML table rendering (app.py:265-275, app.py:288-322) are presentation only.
- The two-decimal formatting of the mean and the median (app.py:290, app.py:296) is not modelled. The mean is kept as an exact rational.
- The Excel export (app.py:350) and server start-up (app.py:353-354) are I/O.
- Exception handling at the run boundary (app.py:326-327) is not modelled. Neither is the `dash.no_update` branch at app.py:262: `dash` is never imported there, so that line would raise and be caught.
- `max_upper <= 0` is a precondition, not modelled behaviour. The function does not check it (for `max_upper = 0` it builds a one-row table labelled `">0"` holding every person); the input field enforces `min=1` (app.py:124).
- Rows with a null `Id_Person` are not modelled; pandas `groupby` drops them silently.
- A `FirstName` cell holding a non-string value (such as NaN) is not modelled; names are strings.
- Booking.IsSelfPractice: case folding is ASCII only. Python's case-insensitive regex also folds some non-ASCII letters (the long s `ſ` matches `s`, and the dotless `ı` and dotted `İ` match `i`). The pattern "Self Practice" has no regex metacharacters, so a substring search is exact for it.
- Booking.IsSelfPractice: a `Class_Name` column with no string at all (every cell empty, read by pandas as floats) makes `.str.contains` raise at app.py:30, which app.py:326 catches; the model treats every such cell as an empty cell and keeps the row.
- Booking.SelectWindow: a selector value is a period label or absent. A non-empty string that is neither a `YYYY-MM` period nor `"NaT"` cannot come from the dropdowns, which list only the labels present in the data (app.py:198).
- Stats.SampleValue: `int` is modelled only on strings of decimal digits. Whitespace, signs and underscores are treated as parse failures; none of these occur in a label the table produces.
- Stats.Flatten: a label that does not parse gives `None` instead of raising. `Stats.SampleValue` shows this never happens for a label the model builds.

## Findings

| source | as written | input that shows it | evidently intended | confidence | as-written member | corrected member |
|---|---|---|---|---|---|---|
| app.py:53-54 | `Details` zips the bucket's distinct first names with the bucket's ascending ids by position. Names are deduplicated by value, in row order. | Two kept rows, `(id 2, "Bob")` then `(id 1, "Ann")`, both with one booking, give the cell `"Bob : 1, Ann : 2"`. Two persons both named "Ann" (ids 1 and 2) give the single entry `"Ann : 1"` (`Frequency.DetailsSharedName`). | Each person of the bucket is listed once, with the name from their own first row: `"Ann : 1, Bob : 2"`. | medium; not executed | Frequency.DetailsMispairing | Frequency.IntendedPairs |
| app.py:22-25 | The window compares period labels as strings, and an unparsable timestamp has the label `"NaT"`, which the dropdowns offer and pick by default (app.py:198, app.py:205, app.py:225). | Rows `(id 1, "Ann", NaT)` and `(id 2, "Bob", 2024-01)`: the period `"NaT"` keeps only Ann's row; the range `2024-01`..`"NaT"` keeps both. | A row whose timestamp did not parse belongs to no period and is kept by no window. | low; not executed | Booking.NaTSelectorExample | Booking.IntendedFiltered |

The source-faithful table (`Frequency.FrequencyTable`) keeps the positional pairing and the string comparison of
labels. `Frequency.IntendedFrequencyTable` is the table built from the intended filter with the intended `Details` column, and
`Frequency.IntendedAgreesWithSource` proves the two agree on every other column whenever every selector is a month. `Booking.IntendedFiltered` is the
filter that never keeps an unparsable row; it agrees with `Booking.Filtered` whenever the window ends at a month.
