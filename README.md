# HappyTime timesheet pivot, modelled in Dafny

HappyTime turns a semicolon-separated timesheet export into a "happy" one.
Each record of the export has five fields: PROJECT, TASK, START, END and HOURS.
HOURS is comma-decimal text such as `0,38`.
The output is a grid.
It has a header row and one row per project and task (per task in the oldest revision).
It has one column per calendar day from the earliest to the latest day of the entries.
Each cell holds the day's hours, rounded to quarter hours.
In `src/index.js` a totals row comes last.

The repository holds three revisions of the same program:

- `src/index.js` is the current ES2015 source.
- `dist/entry.js` is a compiled build of an earlier state. It has no totals row.
- `index.js` is the first version. It groups by task and day only, and its aggregation loop has no flush.

The model covers these parts of each revision:

- The duration codec: `parseHours`, `stringHours` and `roundHours`.
- The normaliser. It drops the header record and turns each record into `[project, task, day of START, hours]`. In `index.js` it gives `[task, day, hours]`.
- `Array.prototype.sort`, which orders the rows by their comma-joined text.
- The imperative aggregation loop of `processCSV`. Its quirks are reproduced, not fixed.
- `rowToGrid`: the day range, the zero-filled rows, the cell writes and the totals row.
- How the output path is derived when none is given.

Modules, one concept each:

| module | file | what it holds |
|---|---|---|
| `Duration` | duration.dfy | Hours as integer hundredths or JavaScript's NaN, and the three codec functions |
| `Digits`, `Text` | digits.dfy, text.dfy | Decimal digit strings, `split`/`join`, and the UTF-16 code-unit order of string comparison |
| `Calendar` | calendar.dfy | Gregorian days, `YYYY-MM-DD` and `YYYY/MM/DD` text, and the day-range loop |
| `Seqs`, `Runs`, `Sorting` | seqs.dfy, runs.dfy, sorting.dfy | `_.uniq`, `_.filter`, array stores, runs of equal keys, and a stable sort by a text key |
| `Normalise` | normalise.dfy | Records to rows, the sort, and why it puts equal keys side by side |
| `Aggregate`, `AggregateFacts` | aggregate.dfy, aggregate_facts.dfy | The loop of `src/index.js` and `dist/entry.js`, and what its `output2` holds |
| `TaskAggregate`, `TaskAggregateFacts` | task_aggregate.dfy, task_aggregate_facts.dfy | The loop of `index.js`, and what its `output2` holds |
| `Grid`, `Pivot`, `TaskPivot` | grid.dfy, pivot.dfy, task_pivot.dfy | `rowToGrid` of the two later revisions and of `index.js` |
| `Pipeline` | pipeline.dfy | `processCSV` end to end, and what each cell of the grid shows |
| `Paths` | paths.dfy | The output file name |

How the loops are modelled:

- **Aggregation loop.** Each loop is a `method` that runs the `forEach` callback statement by statement over a record of the variables it shares: `output2`, `project`, `task`, `date`, `hours`, `taskIndex` and `hasTemp`.
  - The methods are `Aggregate.Summarise` and `TaskAggregate.SummariseTasks`.
  - Each is proved against a reference function built from the groups of equal keys: `Expected` and `ExpectedTasks`.
  - What the loop promises is then proved about those functions: one entry per group, in order, and which hours the grid finally shows for each key.
- **Day range.** The `while (startDate <= maxDate)` loop is `Calendar.DayRange`, proved equal to `DaysFrom`.
- **Cell writes.** The `forEach` loops that write cells are `Grid.ApplyWrites` and `Pivot.BuildBody`.
- **Totals.** The totals loop is `Grid.ColumnTotals`. The model adds exact hundredths where JavaScript adds `parseFloat` values. Every cell is NaN, 0 or a multiple of a quarter hour (`Pivot.BodyQuarters`), and binary floats hold such values and their sums exactly, so the two agree within the number range stated under "Left out".

Behaviour of the code that the model keeps as it is:

- The day of an entry comes from the START field (`row[2]`). END is never read.
- Two entries of 0,25 and 0,33 hours on one task and day sum to 58 hundredths, which rounds to `0,5` (`Duration.RoundHoursExamples`, `AggregateFacts.SameDayExample`).
- Input with no data record does not give an empty grid. lodash 3's `_.min` of no days is `Infinity`, not a moment, so `.format` throws and `processCSV` ends in its `catch` block, which the model shows as `None`.
- A record without its HOURS field ends the same way. One bad record fails the whole batch.
- Only `src/index.js` appends a totals row.
- The loop flushes a group's sum only when the next row starts a new group, or pushes it at the last row.
  - In `src/index.js` and `dist/entry.js`, a last group of two or more rows keeps its first row's entry and gets its full sum pushed after it (`AggregateFacts.StaleEntry`).
  - In `index.js`, no group but the last is ever updated after its first row. The grid therefore shows, for every task and day except the last, the hours of its first record only (`TaskAggregateFacts.LostHoursExample`, `TaskAggregateFacts.LastTaskEntryHolds`).
- In `src/index.js` and `dist/entry.js`, `hours` carries on when only the project changes between neighbouring rows, because the test is `sameDay && sameTask`. The model keeps this (`AggregateFacts.CarryAcrossProjectsExample`). The per-key-sum results assume no such carry (`NoCarryAcrossProjects`).
- `sort()` compares the joined texts by UTF-16 code units, so a character above U+FFFF sorts by its high surrogate (`Text.SurrogateOrderExample`).

Names are a type parameter `N` in the loop and pivot modules, since those only compare them. `Pipeline` instantiates `N` with `string`.

## Model

| member | source | states |
|---|---|---|
| Duration.Add | src/index.js:204 | The running sum is NaN exactly when either addend is NaN, and otherwise the sum of the hundredths |
| Duration.AddAssociative | src/index.js:204 | Adding hours is associative, NaN included |
| Duration.ParseHoursWhole | src/index.js:69-71 | Comma-free digit text reads as that many whole hours |
| Duration.ParseHoursFraction | src/index.js:69-71 | Digits, a comma and digits read as the whole hours plus the first two fraction digits; further digits are truncated, and either side may be empty but not both |
| Duration.ParseHoursNaN | src/index.js:69-71 | `parseHours` gives NaN exactly when the text is not digits around at most one comma, or is a bare comma |
| Duration.ParseHoursExample | dist/entry.js:76-78 | "1,5" reads as 150 hundredths |
| Duration.ParseHoursQuarterThird | index.js:35-37 | "0,25" and "0,33" read as 25 and 33 hundredths |
| Duration.StringHours | src/index.js:73-75 | NaN prints as "NaN" |
| Duration.StringHoursDenotes | src/index.js:73-75 | The text of n hundredths has the canonical whole part n / 100. It has a comma exactly when n % 100 is not 0. After the comma come one or two digits, with no trailing zero, whose value is n % 100 |
| Duration.StringHoursExamples | dist/entry.js:80-82 | 150, 58 and 100 hundredths print as "1,5", "0,58" and "1" |
| Duration.BucketThresholds | src/index.js:82-92 | The rounding branches, read on the two leading fraction digits as a number v: v >= 83 goes to the next hour, 63-82 to ,75, 33-62 to ,5, 13-32 to ,25, and below 13 the fraction is dropped |
| Duration.WholePlusOne | src/index.js:83 | `segments[0] * 1 + 1` prints without a comma |
| Duration.RoundHoursKeepsBareText | src/index.js:81 | Text with nothing after its first comma comes back unchanged |
| Duration.RoundHoursBuckets | src/index.js:82-92 | With a fraction, the result is picked by the two leading fraction digits according to the thresholds above |
| Duration.RoundHoursExamples | src/index.js:77-95 | "0,58" rounds to "0,5" and "0,3" to "0,25" |
| Duration.RoundHoursUpperExamples | dist/entry.js:84-102 | "0,8" rounds to "0,75" and "0,9" to "1" |
| Duration.RoundHoursShape | src/index.js:77-95 | The result's fraction is absent, 25, 5 or 75; its whole part changes only in the top bucket |
| Duration.RoundHoursIdempotent | index.js:43-61 | Rounding a rounded text changes nothing |
| Duration.QuarterRoundBounds | src/index.js:77-95 | The value rounding lands on is a multiple of 25 hundredths, at most 12 below and 17 above the input |
| Duration.RoundHoursOfStringHours | src/index.js:198 | `roundHours(stringHours(n))` is the text of `n` rounded on the value of n % 100 |
| Duration.RoundedTextDenotes | src/index.js:198 | The rounded text of n hundredths reads back as n rounded to a quarter hour |
| Duration.NaNStaysNaN | src/index.js:198 | NaN hours print as "NaN", which rounding keeps and which reads back as NaN |
| Digits.DigitOrZero | src/index.js:82 | A fraction character compared with a threshold acts as its digit value, and a non-digit acts as 0 |
| Digits.NatToString | src/index.js:74 | `toString` of a whole number gives canonical digits that denote it |
| Text.Before | src/index.js:78 | `split(',')[0]` is the comma-free prefix up to the first comma |
| Text.After | src/index.js:78 | The text is the prefix, a comma and the rest whenever it has a comma |
| Text.Split | src/index.js:21 | `split('.')` gives at least one piece, none of which holds the separator |
| Text.JoinSplit | src/index.js:21-23 | Joining the pieces of a split gives the text back |
| Text.LexLeTotal | src/index.js:178 | Any two texts are ordered by the comparison `sort` uses |
| Text.LexLeTransitive | src/index.js:178 | That order is transitive |
| Text.Units | src/index.js:178 | A character is one code unit, its own value and never a surrogate, below U+10000, and otherwise a high and a low surrogate that encode it |
| Text.Utf16Injective | src/index.js:178 | Different strings have different code-unit sequences |
| Text.LexLeAntisymmetric | src/index.js:178 | Only equal texts are ordered both ways, so the sorted order of distinct texts is unique |
| Text.SurrogateOrderExample | src/index.js:178 | U+1F600 sorts before U+FF01, by its high surrogate 0xD83D |
| Text.LexBetweenSharesPrefix | src/index.js:178 | Whatever sorts between two texts with a common prefix has that prefix too |
| Calendar.NextDay | src/index.js:109 | `add(1, 'd')` gives a valid later day |
| Calendar.NoDayBetween | src/index.js:109 | No valid day lies strictly between a day and the next one |
| Calendar.MinDate | src/index.js:101 | `_.min` of the days is one of them and no later than any |
| Calendar.MaxDate | src/index.js:102 | `_.max` of the days is one of them and no earlier than any |
| Calendar.DaysFromShape | src/index.js:104-110 | The range is empty when the maximum is before the minimum. Otherwise it runs from the minimum to the maximum, each day the successor of the one before, strictly increasing, and it holds every valid day in between |
| Calendar.DayRange | src/index.js:104-110 | The loop collects exactly the days of `DaysFrom` |
| Calendar.FormatDate | src/index.js:175 | `format('YYYY-MM-DD')` gives ten characters with the separator at positions 4 and 7 |
| Calendar.ParseDate | src/index.js:100 | Text read as a day is a valid day |
| Calendar.ParseFormatDate | src/index.js:100-102 | Reading back a formatted day gives the day |
| Calendar.FormatParseDate | src/index.js:175 | Text that reads as a day with a four-digit year is that day's formatted text |
| Calendar.FormatDateInjective | src/index.js:140 | Distinct days have distinct texts |
| Calendar.DateText | src/index.js:101 | The column key of a normalised day is its `YYYY-MM-DD` text, comma-free and ten characters long |
| Calendar.DateTextInjective | src/index.js:140 | Equal column keys mean equal days, so `inner[outer[2]]` picks the entry's own day |
| Normalise.StampDate | src/index.js:175 | The day of START is the valid day, with a four-digit year, whose `YYYY/MM/DD` text opens the field |
| Normalise.NormaliseRow | src/index.js:171-177 | A record becomes project `row[0]`, task `row[1]`, the day of `row[2]`, and hours text `row[4]` |
| Normalise.NormaliseTaskRow | index.js:120-125 | A record becomes task `row[1]`, the day of `row[2]`, and hours text `row[4]` |
| Normalise.NormaliseAll | src/index.js:171-177 | Every record is normalised in place, in order |
| Normalise.NormaliseTasks | index.js:120-125 | Every record is normalised in place, in order |
| Normalise.SortRows | src/index.js:178 | `sort()` gives a permutation of the rows whose joined texts ascend |
| Normalise.SortTaskRows | index.js:126 | `sort()` gives a permutation of the rows whose joined texts ascend |
| Normalise.SortedKeysContiguous | src/index.js:178 | With comma-free names, rows sorted by joined text have equal (project, task, day) keys side by side |
| Normalise.SortedTaskKeysContiguous | index.js:126 | With comma-free task names, sorted rows have equal (task, day) keys side by side |
| Sorting.SortBy | src/index.js:135 | The sort is a permutation, and its keys ascend |
| Sorting.SortByStable | src/index.js:135 | `_.sortBy` is stable: elements that share a key keep their input order |
| Seqs.Uniq | src/index.js:98 | `_.uniq` holds each element of its input once and nothing else |
| Seqs.UniqFirstSeen | src/index.js:98 | `_.uniq` keeps first-seen order |
| Seqs.Filter | src/index.js:118 | `_.filter` keeps exactly the elements that pass |
| Seqs.Store | src/index.js:198 | `output2[i] = x` with i at most the length overwrites position i or appends at the end |
| Seqs.StoreKeeps | src/index.js:208 | Such a store leaves every other position alone |
| Paths.HappyPath | src/index.js:20-24 | Without a '.', the name is "happy." and the input. With one, ".happy" goes in front of the last '.' |
| Paths.HappyPathOf | dist/entry.js:38-42 | "happy" goes before the last extension |
| Paths.HappyPathExampleSimple | src/index.js:20-24 | "t.csv" becomes "t.happy.csv" |
| Paths.HappyPathExampleTwoDots | dist/entry.js:38-42 | "a.b.csv" becomes "a.b.happy.csv" |
| Paths.HappyPathExampleNoDot | src/index.js:20-24 | "f" becomes "happy.f" |
| Paths.OutputFile | src/index.js:20-24 | A non-empty second argument is the output file; otherwise the derived name is |
| Paths.EarlyOutputFile | index.js:8 | A non-empty second argument is the output file; otherwise "happy-" is put in front of the input path |
| Aggregate.Visit | src/index.js:192-215 | One call of the callback keeps every write to `output2` inside the array or just past its end, so no hole appears. In particular `taskIndex >= 1` whenever a pending entry is rewritten at `taskIndex - 1` |
| Aggregate.Callback | src/index.js:192-215 | The callback, statement by statement, makes the step that `Visit` describes |
| Aggregate.WalkNewGroup | src/index.js:197-210 | A row with a new key rewrites the pending entry of the previous group with its full sum, then opens its own entry with its own hours, keeping `taskIndex` just past the closed groups |
| Aggregate.WalkSameGroup | src/index.js:204-214 | A row with the same key only adds its hours, except on the last row, which pushes the sum as an extra entry |
| Aggregate.WalkedIsExpected | src/index.js:192-215 | Running the callback over all rows leaves the reference entries `Expected` in `output2` |
| Aggregate.Summarise | src/index.js:180-215 | The loop, started from empty text, zero hours, index 0 and no pending entry, leaves `Expected(r)` in `output2` |
| AggregateFacts.ClosedKeys | src/index.js:197-210 | Up to a group boundary, the entries of the closed groups carry the groups' keys in order |
| AggregateFacts.ExpectedKeys | dist/entry.js:200-223 | `output2` lists one entry per group in order, plus one more of the last key when the last group has two or more rows. So its length is the number of groups, plus one in that case |
| AggregateFacts.GroupKeysDistinct | src/index.js:178 | Once the sort has put equal keys side by side, the groups have distinct keys |
| AggregateFacts.AccFromFresh | src/index.js:204 | `hours` is the sum of the rows read since it last started afresh |
| AggregateFacts.FreshIsGroupStart | src/index.js:193-204 | With no sum running across projects, `hours` starts afresh exactly where a group starts |
| AggregateFacts.GroupIsFilter | src/index.js:178 | With equal keys side by side, the rows of a group's key are exactly that group |
| AggregateFacts.RunSum | src/index.js:204 | With no sum running across projects, a group's last running sum is the sum of its rows |
| AggregateFacts.GroupSum | src/index.js:204 | With equal keys side by side, that sum is the key's total over all rows |
| AggregateFacts.LastEntryForIndex | src/index.js:137-144 | The last entry of a key, whose text the grid keeps, is the entry at the last index with that key; there is none exactly when no entry has the key |
| AggregateFacts.LastEntryClosed | src/index.js:197-210 | Up to a group boundary, the last closed entry of a key holds the key's total exactly when the key occurs |
| AggregateFacts.LastEntryAsClosed | src/index.js:211-213 | The stale first-row entry of a long last group is shadowed by the pushed sum |
| AggregateFacts.LastEntryHoldsSum | src/index.js:192-215 | With equal keys side by side and no sum across projects, every key of the input has a last entry holding its total, and no other key has one |
| AggregateFacts.StaleEntry | src/index.js:207-213 | A long last group leaves its first row's entry second to last and its full sum last |
| AggregateFacts.SameDayExample | src/index.js:192-215 | 0,25 and 0,33 on one task and day give the entries 25 and then 58 hundredths |
| AggregateFacts.CarryAcrossProjectsExample | src/index.js:204 | Neighbouring rows that differ only in project carry `hours`: the second project's entry is 300 hundredths where its own total is 200 |
| AggregateFacts.KeySumPermutation | src/index.js:178 | Reordering the rows changes no key's total |
| AggregateFacts.KeysPermutation | src/index.js:178 | Reordering the rows keeps the set of keys |
| TaskAggregate.TaskAccAtStart | index.js:141 | At the start of a group the running sum is the first row's hours |
| TaskAggregate.OpenStep | index.js:143-145 | A row of a new (task, day) opens a group, with its own hours, after the entries of the earlier groups |
| TaskAggregate.CarryStep | index.js:141 | A row of the same (task, day) adds its hours to the running sum |
| TaskAggregate.TaskVisit | index.js:135-149 | One call of the callback keeps `taskIndex` within `output2` |
| TaskAggregate.TaskWalkNewGroup | index.js:143-145 | A row of a new (task, day) appends its entry and moves `taskIndex` past it; the previous group's entry is not updated |
| TaskAggregate.TaskWalkSameGroup | index.js:146-148 | A row of the same (task, day) adds to the sum, and on the last row pushes it as an extra entry |
| TaskAggregate.TaskWalkedIsExpected | index.js:135-149 | Running the callback over all rows leaves `ExpectedTasks` in `output2` |
| TaskAggregate.SummariseTasks | index.js:128-149 | The index.js loop, started from empty text, zero hours and index 0, leaves `ExpectedTasks(r)` in `output2` |
| TaskAggregateFacts.OpenedKeys | index.js:143-145 | Up to a group boundary, the opened entries carry the groups' keys in order |
| TaskAggregateFacts.TaskExpectedKeys | index.js:135-149 | `output2` lists one entry per (task, day) group in order, plus one more of the last key when the last group is long |
| TaskAggregateFacts.TaskEntryCount | index.js:135-149 | The number of entries is the number of groups, plus one for a long last group |
| TaskAggregateFacts.LastTaskEntryForIndex | index.js:99-106 | The last entry of a key is the entry at the last index with that key; there is none exactly when no entry has the key |
| TaskAggregateFacts.GroupStartIsFirst | index.js:126 | With equal keys side by side, a group starts at the first row of its key |
| TaskAggregateFacts.OpenedIsFirst | index.js:143-144 | The entry a group opens holds the hours of its key's first row |
| TaskAggregateFacts.LastTaskEntryOpened | index.js:143-145 | Up to a group boundary, a key's last opened entry holds its first row's hours exactly when the key occurs |
| TaskAggregateFacts.TaskRunSum | index.js:141 | The running sum is the sum of the group's rows read so far |
| TaskAggregateFacts.LongFinalEntry | index.js:146-148 | The pushed entry of a long last group is its key's last entry and holds the group's full sum |
| TaskAggregateFacts.OpenedEntry | index.js:146-148 | The pushed sum changes no other key's last entry |
| TaskAggregateFacts.LastTaskEntryHolds | index.js:135-149 | With equal keys side by side: a key absent from the input has no entry. The last key of a long last group shows its full sum. Every other key shows only its first row's hours |
| TaskAggregateFacts.LostHoursExample | index.js:135-149 | Rows of 1 and 2 hours on one task and day, then another task: the first group's entry keeps 100 hundredths and the 2 hours are lost |
| Grid.NewRow | src/index.js:123-130 | A new row carries its name and a 0 in every day column |
| Grid.PushZeroRows | src/index.js:121-132 | One zero row per name is pushed after the existing rows, in order |
| Grid.ApplyWrites | src/index.js:137-144 | The write loop leaves `Stamp` of the rows and entries |
| Grid.StampRow | src/index.js:137-144 | Writing keeps every row's name and width |
| Grid.StampCell | src/index.js:137-144 | Each cell ends with the text of the last entry for its row and day, or keeps its value if there is none |
| Grid.StampAppend | src/index.js:137-144 | Writes for other names leave the rows in front alone |
| Grid.TotalsRow | src/index.js:150-158 | The totals row opens with two empty texts and has one more cell per day |
| Grid.TotalsRowColumn | src/index.js:151-156 | Each day's total is the comma-decimal text of its column's sum |
| Grid.ColumnTotals | src/index.js:150-158 | The totals loop builds exactly `TotalsRow` |
| Grid.ColumnSumNaN | src/index.js:154 | A total is NaN exactly when some cell of its column reads as NaN |
| Grid.ColumnSumQuarters | src/index.js:154 | A column of quarter hours adds up to quarter hours |
| Pivot.LastEntryForFilter | src/index.js:118 | Filtering by project keeps the last entry of each of its keys |
| Pivot.SortedLast | src/index.js:135 | Sorting by day keeps the last entry of each key |
| Pivot.MarksLast | src/index.js:140 | The last write to a row and a day carries the rounded text of the key's last entry |
| Pivot.MarksOfProject | src/index.js:137-144 | A project's entries only write rows of that project |
| Pivot.BlockFromZero | src/index.js:121-144 | Writing a project's sorted entries over its zero rows gives its block of rows |
| Pivot.EarlierUntouched | src/index.js:137-144 | A project's writes touch none of the rows of earlier projects |
| Pivot.ProjectStep | src/index.js:117-145 | One turn of the project loop extends the body by that project's block |
| Pivot.BuildBody | src/index.js:117-145 | The project loop builds exactly `Body` |
| Pivot.RowToGridDist | dist/entry.js:104-168 | `rowToGrid` of dist/entry.js returns `DistTable` |
| Pivot.RowToGridSrc | src/index.js:97-163 | `rowToGrid` of src/index.js returns `SrcTable` |
| Pivot.BodyWidth | src/index.js:112-113 | Every row has one cell per day, and the header has two more columns |
| Pivot.BodyCell | src/index.js:137-144 | Each cell is the rounded text of the last entry for its project, task and day, or 0 |
| Pivot.BodyNames | src/index.js:117-132 | There is a row for a project and task exactly when some entry has them |
| Pivot.BodyDistinct | src/index.js:117-132 | No two rows share a project and task |
| Pivot.EveryDayHasColumn | src/index.js:99-110 | Every entry's day has a column |
| Pivot.CellForHours | src/index.js:154 | A cell reads back as the quarter-rounded hours of its key's last entry, NaN or 0 |
| Pivot.BodyQuarters | src/index.js:149-157 | Every column adds up to NaN or to whole quarter hours |
| TaskPivot.TaskSortedLast | index.js:95-97 | Sorting by day keeps the last entry of each key |
| TaskPivot.TaskMarksLast | index.js:102 | The last write to a row and a day carries the rounded text of the key's last entry |
| TaskPivot.TaskBodyFromZero | index.js:85-106 | Writing the sorted entries over the zero rows gives the body |
| TaskPivot.RowToGridTasks | index.js:63-114 | `rowToGrid` of index.js returns `TaskTable` |
| TaskPivot.TaskBodyWidth | index.js:80-81 | Every row has one cell per day, and the header has one more column |
| TaskPivot.TaskBodyNames | index.js:85-93 | There is exactly one row per task that some entry has |
| TaskPivot.TaskEveryDayHasColumn | index.js:66-78 | Every entry's day has a column |
| TaskPivot.TaskCellHours | index.js:99-106 | A cell reads back as the quarter-rounded hours of its key's last entry, NaN or 0 |
| Pipeline.Data | src/index.js:168 | `input.shift()` drops the header record |
| Pipeline.ReadableData | src/index.js:171-177 | Without a failure, every data record can be normalised |
| Pipeline.SortedRecords | src/index.js:171-178 | `output1` is a permutation of the normalised records, all on valid days |
| Pipeline.ExpectedFromRows | src/index.js:192-215 | Every entry of `output2` has the key of some row |
| Pipeline.SrcEntries | src/index.js:192-215 | `output2` is empty exactly when there is no data record |
| Pipeline.ProcessedSrc | src/index.js:165-231 | `processCSV` of src/index.js fails exactly when there is no data record or a record lacks a field |
| Pipeline.ProcessedDist | dist/entry.js:170-235 | `processCSV` of dist/entry.js fails in the same cases |
| Pipeline.ProcessCsvSrc | src/index.js:165-231 | The method computes `ProcessedSrc` |
| Pipeline.ProcessCsvDist | dist/entry.js:170-235 | The method computes `ProcessedDist` |
| Pipeline.SortedGrouped | src/index.js:178 | With comma-free names, the sorted records have equal keys side by side |
| Pipeline.SrcHeader | src/index.js:161 | The header is "Project", "Task", then every day of the range as `YYYY-MM-DD` |
| Pipeline.SrcCell | src/index.js:137-144 | With comma-free names and no sum across projects, a cell shows the rounded total of its project, task and day over all records, or 0 if there is no record |
| Pipeline.CellFromRecords | src/index.js:192-215 | Through the loop, the cell of a key is the rounded text of its total over any reordering of the rows |
| Pipeline.DistMatchesSrc | dist/entry.js:162-167 | dist/entry.js has the same header and body as src/index.js and no totals row |
| Pipeline.SortedTaskRecords | index.js:120-126 | `output1` of index.js is a permutation of its normalised records |
| Pipeline.ExpectedTasksFromRows | index.js:135-149 | Every entry of index.js's `output2` has the key of some row |
| Pipeline.TaskEntries | index.js:135-149 | index.js's `output2` is empty exactly when there is no data record |
| Pipeline.ProcessedTasks | index.js:116-158 | `processCSV` of index.js fails exactly when there is no data record or a record lacks a field |
| Pipeline.ProcessCsvTasks | index.js:116-158 | The method computes `ProcessedTasks` |
| Pipeline.SortedTasksGrouped | index.js:126 | With comma-free task names, the sorted records have equal keys side by side |
| Pipeline.TaskHeaderAt | index.js:80-81 | The header is "Task", then every day of the range |
| Pipeline.TaskCell | index.js:99-106 | With comma-free task names, a cell shows 0 for a key without a record. The last key of a long last group shows its full sum. Every other key shows only its first record's hours |

## Left out

- File reading and writing (fast-csv), console output, `process.exit`, the `-v`/`--version` flag and `package.json` are I/O around the core. The model starts from the records fast-csv hands over and ends with the table it writes.
- moment's leniency is not modelled. The model reads START only when it opens with a valid `YYYY/MM/DD` day with a four-digit year (`Pipeline.StampsReadable`), and takes that day. The time part is not checked: moment gives "Invalid date" for an out-of-range time such as `5:75 PM` and the next day for `24:00`, where the model keeps the opening day. Other text gives moment's "Invalid date" column, which is outside the model.
- The day-range loop compares `YYYY-MM-DD` texts. The model compares days, which is the same order for four-digit years. At the edge of year 9999 they differ: moment formats the day after 9999-12-31 as "10000-01-01", which compares as text below "9999-12-31", so JavaScript pushes one extra column before the next parse fails. `Calendar.DayRange` stops at 9999-12-31.
- Duration.ParseHours: reads the decimal exactly. JavaScript multiplies a binary float by 100 and truncates, so some texts come out one hundredth low ("0,29" gives 28). For the same reason no `parseHours(stringHours(n)) == n` round trip is claimed.
- Duration.ParseHoursFraction: a zero whole part whose fraction starts with at least eight zeros gives 0 in the model. In JavaScript the product is then below 10^-6 and `toString` gives exponent form, whose leading digit `parseInt` reads. `parseHours("0,000000009")` is 9 and `parseHours(",000000001")` is 1 in JavaScript, up to nine hundredths high.
- Duration.ParseHours: `Number` also accepts signs, spaces, exponents, a '.' and the `0x`, `0b` and `0o` prefixes in the text (`parseHours("0x10")` is 1600 in JavaScript). The model treats such text as NaN.
- Duration.ParseHoursWhole: exact for every digit string. JavaScript computes in doubles, which agree with the model only below 2^53 hundredths. Above that the parse loses precision, and from 10^19 whole hours `parseInt` reads the exponent form of the product (`parseHours("10000000000000000000")` is 1 in JavaScript).
- Duration.StringHoursDenotes: canonical digits for every n. JavaScript prints n / 100 exactly only below 2^46 whole hours (about 7.04 x 10^15 hundredths). Above that, neighbouring doubles are 1/64 apart, so some hundredths print as their neighbours (n = 7036874417766401 prints as "70368744177664,02", where the model gives "70368744177664,01"). From 10^21 whole hours `toString` prints exponent form (`stringHours(10^23)` is "1e+21"). The same bound holds for the total text of every `output2` entry, which passes through `stringHours`.
- Digits.NatToString: canonical digits for every n, where JavaScript's `toString` switches to exponent form at 10^21. The sums of `Duration.Add` and `Grid.ColumnSum` are likewise exact, where JavaScript's are exact only below 2^53 hundredths.
- Duration.WholePlusOne: a whole part that is not a digit string gives "NaN". JavaScript's `Number` also reads signs, spaces, a '.' and exponents there, so `roundHours("-1,9")` is 0 and `roundHours("1.5,9")` is 2.5. Duration.RoundHoursBuckets, Duration.RoundHoursShape and Duration.RoundHoursIdempotent are stated with this reading. In the pipeline `roundHours` only sees `stringHours` text, whose whole part is digits or which is "NaN" (`Duration.RoundHoursOfStringHours`), so the grid is unaffected.
- Digits.DigitOrZero: a non-digit fraction character counts as 0. `Number` gives NaN or 0 for it, and both fail every `>= k` test with k >= 1.
- Pipeline.SrcCell: the per-key totals are stated for inputs without a running sum across projects (`NoCarryAcrossProjects`) and with comma-free names. `AggregateFacts.CarryAcrossProjectsExample` shows what happens otherwise. With a ',' in a name, different rows can have equal joined texts. `Array.prototype.sort` leaves their order to the engine, while `Normalise.SortRows` keeps them in input order, and `Pipeline.ProcessedSrc` follows that choice.
- Pipeline.TaskCell: stated for comma-free task names, which the sort needs to put equal keys side by side. With a ',' in a task name, different rows can have equal joined texts, whose order `Array.prototype.sort` leaves to the engine. `Normalise.SortTaskRows` keeps them in input order, and `Pipeline.ProcessedTasks` follows that choice.
- The `catch` blocks print a message and return `undefined`. The model returns `None`, and the message text is left out.
- The gulp build file is not part of this model.
