# Student roster, modelled in Dafny

This project models the in-memory student roster of a small record-keeping
program (`main.py`, class `Student`). The roster is an ordered table of
student records (id, name, gender, age, enrollment date, midterm score,
final score, GPA) together with a counter, `last_id`, from which the next
student id is made. The roster supports these operations:

- loading, with ids normalised to zero-padded text and the counter taken
  from the last row;
- `add`, which appends a student with the next id and a computed GPA;
- `update`, which overwrites named fields of every row with a given id;
- `calculate_gpa`, which recomputes every GPA and then prints, and so
  sorts, the roster;
- `print_all` and `save_to_disk`, which sort the roster by GPA, highest
  first, in place;
- `calculate_grad_date`, which adds whole years and months to a student's
  enrollment date.

Files:

- `ids.dfy` (module `Ids`) holds identifiers: Python's `str(n).zfill(3)`
  and the `int(...)` that reads the counter back.
- `calendar.dfy` (module `Calendar`) holds proleptic Gregorian dates. It
  also has the years-and-months delta, modelled step by step as the delta
  normalises and applies itself, and proved equal to a plain shift of
  `12 * years + months` months with the day clamped.
- `records.dfy` (module `Records`) holds the record, row and change
  datatypes and the pure functions that specify each operation. The
  lemmas about them live here too.
- `roster.dfy` (module `StudentRoster`) holds the `Roster` class. Its
  `records` sequence and `lastId` counter are updated in place by methods
  with loops for the update, the recomputation and the sort. A client
  method, `Scenario`, replays a worked example:
  1. Three students are on file and `Ann` is added as `"004"`, with
     GPA 84.
  2. After recomputation Ann heads the listing.
  3. Her graduation date four years on is 2025/09/01.

Scores and GPAs are `real`, so `0.4 * midterm + 0.6 * final` is exact.
Dates inside the roster have the subset type `CalendarDate`, since a date
object is always a real date. Errors are values of
`Result<T> = Ok(value) | Err(error)`. The errors are `MalformedDate`,
`EmptyRoster`, `MalformedId` and `NotFound`.

Behaviour of the program worth noting:

- The counter comes from the last row of the table, not the largest id.
  `LoadCounterAhead` proves that the two agree exactly when the last row
  holds the largest id. `LastRowNotLargestReusesId` exhibits the duplicate
  id the program hands out otherwise.
- The sort is pandas' default, which is not stable. The model promises
  only order by GPA and a permutation, not a tie order.
  `SortedGpasUnique` shows that the GPA column of the listing is the same
  whichever order ties come out in.
- `update` cannot change `student_id`. That name is the method's own
  positional parameter, so passing it again as a field raises a
  `TypeError`. `Changes` therefore has no id field.

## Model

| member | source | states |
|---|---|---|
| `Ids.ZFill` | main.py:20 | the padded text is as long as the longer of the text and the width; text already that long comes back unchanged; text that reads as an integer still reads as the same integer after padding, so the zeros go in front of the digits, after any minus sign |
| `Ids.ParseInt` | main.py:22 | a string reads as an integer exactly when it is digits, optionally after a minus sign; plain digits give a non-negative value, a minus sign a non-positive one |
| `Ids.Digits` | main.py:20 | the decimal digits of a natural number: never empty, all digits, no leading zero for a positive number, and at most one, two or three digits below 10, 100 and 1000 |
| `Ids.Decimal` | main.py:20 | `str(n)`: digits for a non-negative number, a minus sign and digits for a negative one, with no leading zero for a non-zero number, and it reads back as `n` |
| `Ids.ZeroPad` | main.py:20-22 | `str(n).zfill(3)`: as long as the longer of `str(n)` and 3, and reading the id back gives `n` for every integer (with `ZeroPadShape` for its form) |
| `Ids.ZeroPadShape` | main.py:25 | an id is max(3, length of str(n)) characters long; for non-negative numbers it is all digits; negative numbers keep the minus sign first; numbers of 1000 or more are not truncated; every integer from -99 to 999 gets an id of exactly three characters |
| `Ids.ZeroPadExamples` | main.py:25 | 4 becomes "004", 42 becomes "042", 1000 stays "1000" and -5 becomes "-05" |
| `Ids.ZeroPadInjective` | main.py:25 | different counter values give different ids |
| `Calendar.DaysInMonth` | main.py:58 | month lengths are 28 to 31 days; February has 29 exactly in Gregorian leap years |
| `Calendar.ShiftMonths` | main.py:58 | reference date arithmetic: the result lies exactly n months on in the calendar, and its day is the original day clamped to the length of the month reached |
| `Calendar.NormaliseDelta` | main.py:58 | a delta's month count is carried into whole years, leaving at most 11 months with the sign of the original count, and the total number of months is kept |
| `Calendar.AddRelative` | main.py:58 | the date plus a delta of `years` years and `months` months lies exactly `12*years + months` months on, with the day clamped to the length of the month reached (with `AddRelativeIsShift` tying it to the reference shift) |
| `Calendar.AddRelativeIsShift` | main.py:58 | adding a delta of `years` years and `months` months moves a date by exactly `12*years + months` months, clamping the day |
| `Calendar.ShiftZero` | main.py:58 | a zero delta leaves a date unchanged |
| `Calendar.ShiftCompose` | main.py:58 | two deltas reach the same year and month as their sum, and the day is never larger |
| `Calendar.ShiftBack` | main.py:58 | when the day needed no clamping, the opposite delta restores the original date |
| `Calendar.ShiftKeepsEarlyDay` | main.py:58 | days up to the 28th are never clamped |
| `Calendar.GraduationExamples` | main.py:58 | 2020/01/31 plus one month is 2020/02/29; 2021/01/31 plus one month is 2021/02/28; 2020/02/29 plus a year is 2021/02/28; 2021/09/01 plus four years is 2025/09/01; negative deltas and deltas over 12 months work too |
| `Records.Gpa` | main.py:34 | the GPA, 40% midterm plus 60% final, lies between the two scores |
| `Records.Normalise` | main.py:20 | a loaded row's id becomes text that reads back as the original number |
| `Records.NormaliseAll` | main.py:20 | the loaded table keeps its rows in file order, each normalised |
| `Records.LastId` | main.py:22 | the counter is the last row's id read as an integer; an empty table is an error, and so is a last id that is not a number |
| `Records.Load` | main.py:20-22 | loading fails with `MalformedDate` exactly when some date is not a real date, and with `EmptyRoster` exactly when there are no rows; otherwise the records are the normalised rows in order and the counter is the last row's id, which is the last record's id read back |
| `Records.NextId` | main.py:25 | the next id reads back as the counter plus one |
| `Records.NextIdIsFresh` | main.py:25 | while the counter is at least every id present, the next id is not already in use |
| `Records.AddKeepsCounterAhead` | main.py:24-37 | appending the record with the next id and advancing the counter keeps the counter ahead of every id |
| `Records.UpdateKeepsCounterAhead` | main.py:45 | an update keeps the counter ahead of every id |
| `Records.ReorderKeepsCounterAhead` | main.py:49 | a reordering keeps the counter ahead of every id |
| `Records.LoadCounterAhead` | main.py:22 | after loading, the counter is ahead of every id if and only if the table's last row holds the largest id |
| `Records.LastRowNotLargestReusesId` | main.py:22-25 | with table ids 1, 3, 2 the counter starts at 2, and the next id, "003", duplicates the second row's |
| `Records.Apply` | main.py:45 | applying changes never alters the id, and leaves the GPA alone unless the GPA itself is among the changes |
| `Records.ApplyNoChanges` | main.py:45 | an update naming no fields leaves a record as it is |
| `Records.ApplyMerge` | main.py:45 | two successive updates equal one update in which the later value of each field wins |
| `Records.UpdateMatching` | main.py:45 | length and order are kept; each record with the target id gets exactly the named fields overwritten, and every other record is unchanged |
| `Records.UpdateKeepsIds` | main.py:45 | an update leaves every record's id as it was |
| `Records.UpdateNoMatch` | main.py:45 | updating an id nobody has leaves the roster unchanged |
| `Records.UpdateTwice` | main.py:45 | two updates of the same id equal one update with the changes merged |
| `Records.UpdateIdempotent` | main.py:45 | repeating an update changes nothing more |
| `Records.UpdateScoreLeavesGpaStale` | main.py:45 | changing a score keeps the stored GPA, which stops matching the scores unless the score did not change |
| `Records.WithCurrentGpa` | main.py:40 | the recomputed record's GPA matches its scores, and every other field is unchanged |
| `Records.WithCurrentGpas` | main.py:40 | recomputation keeps length and order and recomputes each record's GPA |
| `Records.WithCurrentGpasCurrent` | main.py:40 | after recomputation every GPA matches its scores, and recomputing again changes nothing |
| `Records.SortedHeadIsBest` | main.py:49 | the first record of a sorted reordering has the highest GPA of all |
| `Records.SortedHeadIsUniqueBest` | main.py:49 | a record whose GPA is strictly the highest comes first after sorting |
| `Records.SortedGpasUnique` | main.py:63 | two sorted reorderings of the same records list the same GPAs in the same order, however ties were broken |
| `Records.FindFirst` | main.py:57 | the lookup returns a position holding the id with no earlier match, or nothing when no record has the id |
| `StudentRoster.IndexOfBestGpa` | main.py:49 | finds a position in the unsorted part of the table whose GPA is at least every other GPA there |
| `StudentRoster.Roster.constructor` | main.py:20-22 | given a non-empty table whose counter is its last record's id read back, the roster holds those records and that counter |
| `StudentRoster.Roster.Open` | main.py:7-22 | opening from rows fails exactly when loading does, with the same error; otherwise a new roster holds the loaded records and counter |
| `StudentRoster.Roster.Add` | main.py:24-37 | with a real date: the result is the new id, which is the zero-padded counter plus one; exactly one record is appended after the unchanged earlier ones; its GPA is 0.4*midterm + 0.6*final; the counter goes up by one. With a date that does not exist: `MalformedDate`, and the roster and counter are unchanged |
| `StudentRoster.Roster.Update` | main.py:43-45 | the new records are the old ones with the changes applied to every record having the id; the counter is unchanged |
| `StudentRoster.Roster.RecomputeGpa` | main.py:40 | every record's GPA is recomputed in place; order, other fields and counter are unchanged |
| `StudentRoster.Roster.SortByGpa` | main.py:49 | the records end up ordered by GPA, highest first, as a permutation of the records before |
| `StudentRoster.Roster.PrintAll` | main.py:47-50 | the printed listing is the roster, now sorted by GPA as a permutation of before |
| `StudentRoster.Roster.SaveToDisk` | main.py:61-64 | the rows written are the roster, now sorted by GPA as a permutation of before |
| `StudentRoster.Roster.CalculateGpa` | main.py:39-41 | afterwards every GPA matches its scores; the records are the recomputed old records, sorted by GPA, highest first; the listing is returned |
| `StudentRoster.Roster.CalculateGradDate` | main.py:52-59 | an unknown id gives `NotFound`. Otherwise the date is the first matching student's enrollment date moved on by 12*years + months months, with the day clamped. The roster is only read |

## Left out

- StudentRoster.Roster.Update: overwrites each named field with its value, as the method's docstring describes (main.py:44). main.py:45 assigns a `dict_values` view, and pandas handles that right-hand side differently when exactly one field is named. That case is not modelled: it stores the view object itself in the cell of a single matching row, and it raises for several matching rows.
- StudentRoster.Roster.CalculateGradDate: looks up the first record with the id in the current order. The source selects pandas index label 0 (main.py:57), which is the row that was first in the table after loading or after the latest add (that add relabels every row in its current order), and the label moves with its row when the table is sorted. The model does not capture the `KeyError` raised for every other student.
- File I/O is not modelled. This covers reading the tab-separated file, renaming its columns (main.py:8-19) and writing the sorted table (main.py:64). Loading starts from rows that are already read, so the save-then-load round trip is not stated.
- Printing (main.py:50, main.py:59) is not modelled. The listing and the date are returned instead.
- The interactive menu is not modelled (main.py:67-110). Nor is its coercion of digit tokens and its `key=value` splitting. Operations take typed arguments.
- Text parsing is not modelled. Dates arrive as year, month and day numbers: `strptime` and `to_datetime` are replaced by a check that the date exists. The duration arrives as two integers, not a string to split.
- Calendar range limits are not modelled. Years are unbounded, so the errors Python's date type (years 1 to 9999) or pandas timestamps raise outside their range are absent.
- Floating-point arithmetic is not modelled. Scores and GPAs are exact reals, so IEEE rounding, NaN ordering in the sort and non-numeric scores are out.
- Dynamic typing in `update` is not modelled. Field names outside the record's schema, and values of other types, are out: `Changes` is a closed set of typed optional fields.
- Loaded ids are integers, as pandas reads a numeric id column. Non-numeric id text in the file is not modelled. `Ids.ParseInt` accepts digits with an optional minus sign, a subset of what `int()` accepts: no `+`, spaces or underscores.
- The gender and age ranges are not validated, just as the source does not validate them.
