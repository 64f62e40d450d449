# A verified model of the PulsePilot validators, health store and gym serialiser

This project models three parts of the PulsePilot command-line fitness and
health tracker:

- **Input validation** (`utility/Validation.java`). Each validator runs an
  ordered chain of checks and throws on the first one that fails. Each becomes
  a function (module `Validation`) that returns `Pass` or the exception it
  would throw. The exception is `InsufficientInput` or `InvalidInput`, with a
  reason standing for the error message constant, or the parse exception of a
  date with year 0000 escaping from the BMI and period validators. The validators cover:
  - dates in DD-MM-YYYY;
  - times in HH:MM;
  - run times in MM:SS or HH:MM:SS;
  - category filters and delete commands;
  - the BMI, period and appointment field triples.

  The clock (`LocalDate.now()`) is the parameter `today`.
- **The health record store** (`health/HealthList.java`). The class
  `Health.HealthList` has three `seq` fields: `bmis`, `periods` and
  `appointments`. Its methods change them in place: append, index-checked
  delete (zero-based for BMI entries and periods, one-based for
  appointments), the null-returning getters (returning `Option`), clear, and
  the size getters. Two operations keep derived state:
  - `AddPeriod` back-fills the previous last period's cycle length from the
    new start date.
  - `AddAppointment` re-sorts the list stably by (date, time).

  The records and the functions that specify these rules are in module
  `HealthRecords`. There, `Sort` is a stable insertion sort, proved sorted, a
  permutation, and order-preserving on equal keys.
- **The gym session** (`workouts/Gym.java`). The class `Workouts.Gym` holds a
  `seq` of stations and supports append and bounds-checked lookup. Its
  `ToFileString` loop is proved to build `GYM:<count>:<date>:` followed by
  the station texts joined by `:`. A separate lemma reads that line back
  field by field. `HistoryFields` models the prefix and date selection of
  one history row.

Supporting modules:
- `Text`: digits and numerals, upper/lower case, and `String.split` / join
  on one character.
- `Errors`: the outcome and error types.
- `Calendar`: dates as `LocalDate.toEpochDay` day numbers. It also holds
  java.time's resolution of a day past the end of its month.

Where the project's design documentation and the code disagree, the model
follows the code:
- Adding a period and then deleting it does not restore the list, against
  the design's round-trip property for add then delete. The add overwrote the
  previous period's cycle length, and the delete does not undo that
  (`HealthRecords.AddThenDeletePeriod`).

The design documentation also disagrees with itself on one point the model
has to settle. Its prediction rule adds the averaged cycle length to the
latest period's start date, while its two-period example adds 28 days to the
latest period's end date (2 February 2024). The model follows the rule: for
periods starting on 1 and 29 January 2024 it predicts 26 February 2024
(`HealthRecords.TwoPeriodsExample`).

## Model

| member | source | states |
|---|---|---|
| Validation.ValidateDate | src/main/java/utility/Validation.java:17-32 | Passes iff the text is DD-MM-YYYY, the day is in [1, 31] and the month in [1, 12]; a format failure gives the date error before anything is parsed, the day is checked before the month, and every failure is InvalidInput |
| Validation.DateParts | src/main/java/utility/Validation.java:21-23 | Splitting a well-formed date on "-" gives exactly its day, month and year fields |
| Validation.DateTextRoundTrip | src/main/java/utility/Validation.java:17-32 | Every DD-MM-YYYY text of a day 1–31, a month 1–12 and a year below 10000 passes, and its fields read back as that day, month and year |
| Validation.ValidDateIsDateText | src/main/java/utility/Validation.java:17-32 | A date that passes is the zero-padded text of its own fields |
| Validation.ValidDateIffDateText | src/main/java/utility/Validation.java:17-32 | validateDate accepts exactly the texts DD-MM-YYYY of days 1–31, months 1–12 and four-digit years |
| Validation.ThirtyFirstOfFebruaryAccepted | src/main/java/utility/Validation.java:25-31 | "31-02-2024" passes: the day is never checked against the length of its month |
| Validation.DayCheckedBeforeMonth | src/main/java/utility/Validation.java:25-31 | "32-13-2024", with both day and month out of range, reports the day error |
| Validation.MonthOutOfRange | src/main/java/utility/Validation.java:29-31 | "15-13-2024", with only the month out of range, reports the month error |
| Validation.ValidateFilter | src/main/java/utility/Validation.java:60-72 | Passes iff the filter is one of run, gym, bmi, period, appointment, all; anything else is InvalidInput with the invalid-item reason |
| Validation.ValidateDeleteInput | src/main/java/utility/Validation.java:41-51 | InsufficientInput iff a field is empty, checked first, with the insufficient-delete-parameters message; then the lower-cased category must pass validateFilter; then the index must be a positive integer without leading zero; passes iff all three hold |
| Validation.DeleteCategoryIgnoresCase | src/main/java/utility/Validation.java:46 | The delete check gives the same outcome for a category and its lower-cased form |
| Validation.PositiveIntegerText | src/main/java/utility/Validation.java:48-50 | An index text that passes denotes a number of at least 1 and is that number's decimal numeral |
| Validation.NumeralIsPositiveInteger | src/main/java/utility/Validation.java:48-50 | The decimal numeral of every number of at least 1 passes the index check |
| Validation.ValidateBmiInput | src/main/java/utility/Validation.java:80-98 | InsufficientInput iff a field is empty, with the insufficient-BMI-parameters message; then height and weight must be two-decimal-place numbers; then the date's own error; then the parse exception iff the year is 0000; then a date after today fails; passes iff all hold, so a date equal to today passes |
| Validation.ParseDate | src/main/java/utility/Validation.java:93 | Parsing a validated date fails iff its year is 0000; otherwise it gives the date's own day number when the date exists, else the day number of the last day of its month |
| Validation.BmiYearZeroNotParsed | src/main/java/utility/Validation.java:92-93 | "01-01-0000" passes validateDate, and a BMI entry with that date then fails with the parse exception |
| Calendar.ResolvedDay | src/main/java/utility/Validation.java:93 | The day a validated date text denotes: the date itself when valid, else the last day of its month |
| Validation.ValidatePeriodInput | src/main/java/utility/Validation.java:106-135 | First failure wins: an empty field (InsufficientInput with the insufficient-period-parameters message, and only then), then the start date's error wrapped as a start-date error, then the end date's wrapped as an end-date error, then the parse exception iff either year is 0000, then a start after today, then a start after the end; passes iff both dates are valid and parse, start <= today and start <= end, so equal dates and a future end pass |
| Validation.PeriodYearZeroNotParsed | src/main/java/utility/Validation.java:127-128 | A period whose start date is "01-01-0000" fails with the parse exception, whatever valid end date it has |
| Validation.ValidateTimeInput | src/main/java/utility/Validation.java:143-157 | Passes iff the text is HH:MM with hours in [0, 23] and minutes in [0, 59]; format, then hours, then minutes errors, all InvalidInput |
| Validation.TimeParts | src/main/java/utility/Validation.java:147-149 | Splitting HH:MM or HH:MM:SS on ":" gives exactly its two or three fields |
| Validation.TimeTextRoundTrip | src/main/java/utility/Validation.java:143-157 | Every HH:MM text of a time of day passes and its fields read back |
| Validation.ValidTimeIffTimeText | src/main/java/utility/Validation.java:143-157 | validateTimeInput accepts exactly the zero-padded HH:MM texts of hours 0–23 and minutes 0–59 |
| Validation.ValidateRunTimeInput | src/main/java/utility/Validation.java:166-198 | Passes iff MM:SS with both fields in [1, 60] (hours then NO_HOURS_PRESENT, which is not 0), or HH:MM:SS with non-zero hours and minutes and seconds in [1, 60]; an unmatched format is the format error; a matched one with minutes or seconds outside [1, 60] gives the range error, whatever its hours; only once both pass can an HH:MM:SS with hours 00 give the zero-hours error |
| Validation.RunTimeZeroMinutes | src/main/java/utility/Validation.java:187-189 | "00:30" fails the range check: 00 minutes are refused |
| Validation.RunTimeZeroSeconds | src/main/java/utility/Validation.java:191-193 | "10:00" fails the range check: 00 seconds are refused |
| Validation.RunTimeSixtyMinutes | src/main/java/utility/Validation.java:187-193 | "60:60" passes: 60 minutes and 60 seconds are accepted |
| Validation.RunTimeZeroHours | src/main/java/utility/Validation.java:195-197 | "00:01:01" fails with the zero-hours error |
| Validation.RunTimeAllZero | src/main/java/utility/Validation.java:187-197 | "00:00:00" fails with the range error, because minutes are checked before hours |
| Validation.RunTimeSixtySeconds | src/main/java/utility/Validation.java:191-193 | "01:01:60" passes |
| Validation.ValidateIndexWithinBounds | src/main/java/workouts/Gym.java:79 | Assumed, not proved: true exactly when lower <= index < upper, since the helper's body is not part of this model (see "## Left out") |
| Validation.ValidateAppointmentDetails | src/main/java/utility/Validation.java:206-220 | InsufficientInput iff a field is empty, with the insufficient-appointment-parameters message; then the date's error, then the time's error, then a description longer than 100 characters; passes iff date and time pass and the description has 1 to 100 characters |
| HealthRecords.RemoveAt | src/main/java/health/HealthList.java:185 | Removing position i keeps the elements before i, shifts those after it down by one, and removes exactly one copy of the element at i |
| HealthRecords.WithCycleLength | src/main/java/health/HealthList.java:65 | The period keeps its start and end dates and gets a cycle length that takes its start to the next start |
| HealthRecords.AppendPeriod | src/main/java/health/HealthList.java:61-68 | The new period is appended last; on a non-empty list only the previous last period changes, getting the cycle length from its start to the new start; every earlier period is unchanged |
| HealthRecords.AppendPeriodBackFilled | src/main/java/health/HealthList.java:61-68 | Adding periods with unset cycle length keeps every period but the last holding the gap to its successor's start, and the last holding none |
| HealthRecords.AddThenDeletePeriod | src/main/java/health/HealthList.java:61-68 | Adding a period then deleting it restores the list iff the previous last period already held the cycle length the add wrote |
| HealthRecords.Gaps | src/main/java/health/HealthList.java:63-66 | The start-to-start gaps: one fewer than the periods, the i-th being the (i+1)-th start minus the i-th |
| HealthRecords.FilledCycleLengths | src/main/java/health/HealthList.java:63-66 | When each period but the last holds the gap to its successor, the recorded cycle lengths are those gaps, plus the last one's own if set |
| HealthRecords.BackFilledCycleLengths | src/main/java/health/HealthList.java:63-66 | In a list built by addPeriod the recorded cycle lengths are exactly the start-to-start gaps |
| HealthRecords.LastThree | src/main/java/health/HealthList.java:127-138 | The last min(3, n) recorded cycle lengths, as a suffix of the list |
| HealthRecords.AverageBounds | src/main/java/health/HealthList.java:127-138 | The rounded-down average of one to three values lies between their bounds |
| HealthRecords.SumBounds | src/main/java/health/HealthList.java:127-138 | A sum of n values in [lo, hi] lies in [n·lo, n·hi] |
| HealthRecords.AverageCycleLength | src/main/java/health/HealthList.java:138 | 28 when no cycle length is recorded; otherwise the average of the last three recorded cycle lengths rounded down: the count times it is at most their sum, and the count times one more exceeds the sum |
| HealthRecords.PredictNextStart | src/main/java/health/HealthList.java:137-138 | The latest period's start plus 28 days when no cycle length is recorded, otherwise plus the rounded-down average of the last three recorded cycle lengths |
| HealthRecords.PredictionWithinRecentCycles | src/main/java/health/HealthList.java:127-138 | The predicted start is the latest start plus 28 days when no cycle length is recorded, otherwise plus a value between the shortest and longest of the last three recorded cycle lengths |
| HealthRecords.TwoPeriodsExample | src/main/java/health/HealthList.java:61-68 | Periods starting 2024-01-01 and 2024-01-29: the first gets cycle length 28, the second none, and the next start is predicted on 2024-02-26 |
| HealthRecords.Compare | src/main/java/health/HealthList.java:210 | The comparator's sign, -1, 0 or 1: zero exactly on equal (date, time), negative exactly when a's date is earlier, or the dates are equal and a's time is earlier |
| HealthRecords.KeyLe | src/main/java/health/HealthList.java:210 | a may stay before b exactly when the comparator, dates first and then times, does not order a after b |
| HealthRecords.KeyLeTotalPreorder | src/main/java/health/HealthList.java:210 | The comparator is total and transitive, antisymmetric in sign, and ties exactly the appointments with equal (date, time) |
| HealthRecords.InsertLastSplit | src/main/java/health/HealthList.java:210 | Inserting into a list places the new appointment after a prefix ending in a not-greater key and before a suffix of strictly greater keys |
| HealthRecords.InsertLastSorted | src/main/java/health/HealthList.java:210 | Inserting into a (date, time)-sorted list keeps it sorted |
| HealthRecords.InsertLastPermutation | src/main/java/health/HealthList.java:210 | Inserting adds exactly the new appointment to the multiset of appointments |
| HealthRecords.SortedAround | src/main/java/health/HealthList.java:210 | An element placed between a not-greater left part and a not-smaller right part of a sorted list keeps it sorted |
| HealthRecords.KeyFilterConcat | src/main/java/health/HealthList.java:210 | The appointments with a given key in a concatenation are those of each part, in order |
| HealthRecords.KeyFilterNone | src/main/java/health/HealthList.java:210 | A list with no appointment of a key has none to filter |
| HealthRecords.InsertLastStable | src/main/java/health/HealthList.java:210 | The inserted appointment comes after every appointment with the same (date, time) |
| HealthRecords.Sort | src/main/java/health/HealthList.java:210 | The sorted list has as many appointments as the input; that it is List.sort's stable result is HealthRecords.SortCorrect |
| HealthRecords.SortSorted | src/main/java/health/HealthList.java:210 | The sort's result is in (date, time) order |
| HealthRecords.SortPermutation | src/main/java/health/HealthList.java:210 | The sort's result has the same multiset of appointments as its input |
| HealthRecords.SortStable | src/main/java/health/HealthList.java:210 | For every (date, time), the appointments with that key appear in the sort's result in their input order |
| HealthRecords.SortCorrect | src/main/java/health/HealthList.java:210 | The stable sort by (date, time) gives a sorted permutation of its input in which appointments with equal keys keep their input order |
| HealthRecords.SortOfSorted | src/main/java/health/HealthList.java:210 | Sorting a sorted list leaves it unchanged |
| HealthRecords.AppendThenSort | src/main/java/health/HealthList.java:209-210 | Appending to a sorted list and sorting equals inserting after every appointment with an earlier or equal (date, time) |
| HealthRecords.RemoveAtSorted | src/main/java/health/HealthList.java:224 | Deleting an appointment keeps the list sorted |
| HealthRecords.AddThenDeleteAppointment | src/main/java/health/HealthList.java:207-227 | After adding an appointment to a sorted list there is a position holding it whose deletion gives back the original list |
| Health.HealthList.constructor | src/main/java/health/HealthList.java:15-17 | All three lists start empty |
| Health.HealthList.AddBmi | src/main/java/health/HealthList.java:26-29 | The BMI entry is appended last; the other two lists are unchanged |
| Health.HealthList.AddPeriod | src/main/java/health/HealthList.java:61-68 | The list becomes AppendPeriod of the old list: the new period is last, the previous last period gets the cycle length to the new start, earlier periods and the other lists are unchanged |
| Health.HealthList.GetLatestCycle | src/main/java/health/HealthList.java:97-102 | None iff there are no periods, otherwise the last period |
| Health.HealthList.GetPeriodSize | src/main/java/health/HealthList.java:110-112 | The number of periods |
| Health.HealthList.GetPeriod | src/main/java/health/HealthList.java:120-125 | None iff the index is outside [0, size), otherwise the period at that index |
| Health.HealthList.PredictNextPeriodStartDate | src/main/java/health/HealthList.java:132-139 | None iff there are no periods, otherwise the latest period's predicted next start |
| Health.HealthList.ClearBmisAndPeriods | src/main/java/health/HealthList.java:146-151 | BMI entries and periods become empty; appointments are unchanged |
| Health.HealthList.GetPeriodsSize | src/main/java/health/HealthList.java:160-162 | The number of periods, the same count GetPeriodSize gives |
| Health.HealthList.GetBmisSize | src/main/java/health/HealthList.java:169-171 | The number of BMI entries |
| Health.HealthList.DeleteBmi | src/main/java/health/HealthList.java:176-187 | Zero-based: fails with OutOfBounds and changes nothing iff the index is outside [0, size); otherwise removes exactly that entry; the other lists are unchanged |
| Health.HealthList.DeletePeriod | src/main/java/health/HealthList.java:193-204 | Zero-based: fails with OutOfBounds and changes nothing iff the index is outside [0, size); otherwise removes exactly that period; the other lists are unchanged |
| Health.HealthList.AddAppointment | src/main/java/health/HealthList.java:207-211 | The list becomes the stable (date, time) sort of the old list plus the new appointment: sorted, a permutation of old list plus new item, equal keys in insertion order |
| Health.HealthList.DeleteAppointment | src/main/java/health/HealthList.java:213-227 | One-based: fails with OutOfBounds and changes nothing iff the index is outside [1, size]; otherwise removes the element at index - 1 and the list stays sorted |
| Health.HealthList.ClearAppointments | src/main/java/health/HealthList.java:238-241 | Appointments become empty; the other lists are unchanged |
| Text.NatToString | src/main/java/workouts/Gym.java:109 | The decimal numeral of a count: digits only, no leading zero, reading back as the count |
| Text.ToLower | src/main/java/utility/Validation.java:46 | Lower-cases each character and keeps the length |
| Text.DigitsValue | src/main/java/utility/Validation.java:22-23 | Integer.parseInt of a digit field: a value below 10 to the power of the field's width |
| Text.PaddedDigitsValue | src/main/java/utility/Validation.java:148-149 | A digit field's value, padded back to the field's width, gives the field again, so each fixed-width field has exactly one reading |
| Text.SplitOn | src/main/java/utility/Validation.java:21 | String.split on one character always gives at least one field |
| Text.SplitOnNoSeparator | src/main/java/utility/Validation.java:172 | A text without the separator splits into itself alone |
| Text.SplitOnConcat | src/main/java/utility/Validation.java:147 | Splitting a + separator + b gives the fields of a followed by the fields of b |
| Text.SplitJoin | src/main/java/workouts/Gym.java:114-120 | Splitting the separator-joined list gives the fields of each element in order |
| Text.ToUpper | src/main/java/workouts/Gym.java:107 | Upper-cases each character and keeps the length |
| Workouts.StationStrings | src/main/java/workouts/Gym.java:115-116 | The station texts, one per station, in list order |
| Workouts.FileString | src/main/java/workouts/Gym.java:103-122 | The file line starts with the header GYM:<count>:<date>:, is exactly the header when there are no stations, and otherwise ends with the last station's text |
| Workouts.FileStringFields | src/main/java/workouts/Gym.java:103-122 | Splitting the file line on ":" gives "GYM", the count (whose value is the number of stations), the date, then the fields of every station text in list order; with no stations a single empty field follows the date's colon |
| Workouts.Gym.constructor | src/main/java/workouts/Gym.java:26-38 | A session starts with no stations and the given dates |
| Workouts.Gym.AddStation | src/main/java/workouts/Gym.java:50-60 | Exactly the new station is appended at the end; earlier stations are unchanged |
| Workouts.Gym.AppendIntoStations | src/main/java/workouts/Gym.java:145-147 | Exactly the new station is appended at the end |
| Workouts.Gym.GetStationByIndex | src/main/java/workouts/Gym.java:78-84 | Ok with the station at the index iff the index is in [0, size), otherwise OutOfBounds with the invalid-search reason |
| Workouts.Gym.ToFileString | src/main/java/workouts/Gym.java:103-122 | The loop builds the header GYM:<count>:<date>: followed by the station texts in order, separated by ":" with none after the last |
| Workouts.Gym.HistoryFields | src/main/java/workouts/Gym.java:130-143 | The "gym" prefix and the date only on row 0, empty strings on every other row, then that station's name and number of sets |

## Left out

- Console output is not modelled. That covers `showCurrentBmi`, `showBmiHistory`, `showLatestPeriod`, `showPeriodHistory` and `showAppointmentList`, the delete confirmations, and the call to `showAppointmentList` after a delete.
- `LogFile.writeLog` is not modelled: it is an append-only file sink.
- `LocalDate.now()` is the parameter `today`.
- Java `assert` statements are modelled as disabled, the JVM default. The design also treats them as programming-contract checks, not as user-facing errors.
- Health.HealthList.DeleteBmi: with assertions enabled, a delete on an empty list throws `AssertionError` before the bounds check. The model gives `OutOfBounds` there.
- Health.HealthList.DeletePeriod: the same holds for an empty period list.
- Health.HealthList.DeleteAppointment: the same holds for an empty appointment list. With assertions enabled, deleting the only appointment removes it and then throws `AssertionError` from the non-empty assertion in `showAppointmentList`. The model ends after the removal.
- Health.HealthList.AddBmi, Health.HealthList.AddPeriod and Health.HealthList.AddAppointment: the null-argument assertions are not modelled, because a record here is a value and cannot be null.
- Health.HealthList.ClearBmisAndPeriods and Health.HealthList.ClearAppointments: the assertions that the lists are empty after clearing always hold, and their ensures state it.
- `Parser.parseDate` is not part of this model. It is taken to read dd-MM-yyyy with java.time's default resolution (`Validation.ParseDate`). That resolution moves a day past the end of its month to the month's last day (`Calendar.ResolvedDay`). It also rejects year 0000, because yyyy is the year of the era and there is no year 0 of an era; the model gives that the error `DateTimeParse`, an exception the validators do not catch.
- The values of `UiConstant`, `HealthConstant`, `WorkoutConstant` and `ErrorConstant` are not part of this model. The regular expressions are written out as the documented formats:
  - dates: two digits, dash, two digits, dash, four digits;
  - times: two-digit groups;
  - positive integers: a non-zero digit followed by digits;
  - two-decimal-place numbers: digits with an optional point and one or two digits.
- The constants are taken to be: days 1–31, months 1–12, hours 0–23, minutes 0–59, `MAX_DESCRIPTION_LENGTH` = 100, `NO_HOURS_PRESENT` = -1, and `WorkoutConstant.GYM` = "gym". Error messages are reasons, not texts. The second error message of `validateRunTimeInput`, which repeats the minutes text for seconds, is the same reason `RunTimeRange`.
- Workouts.Gym.GetStationByIndex: `validateIndexWithinBounds` is not part of this model. It is taken to be the half-open check lower <= index < upper (`Validation.ValidateIndexWithinBounds`).
- `Period.setCycleLength` and `Period.nextCyclePrediction` are not part of this model:
  - the cycle length is taken to be the days between the two start dates;
  - the prediction is taken to be the latest start plus the average, rounded down, of the last three recorded cycle lengths (fewer when fewer are recorded), or 28 days when none is recorded.
- A period is a value. In Java, `addPeriod` mutates the previous period object, so a reference obtained earlier through `getLatestCycle` or `getPeriod` also sees the new cycle length. The model replaces the list element and does not capture that aliasing. The same holds for `Gym.getStations`, which returns the live list and is not modelled.
- BMI entries keep their height, weight and date texts. The floating-point BMI value is not modelled.
- `GymStation` is its name, its number of sets and the text of its own `toFileString`. Building a station from its input fields (parsing sets, repetitions and weights, and their errors) is not part of this model.
- Registering a new `Gym` in the global workout list (`Workout.addIntoWorkoutList`) is not modelled. Neither is `Gym.toString`.
- Workouts.Gym.HistoryFields gives the fields of a history row, not the `String.format` layout around them.
- Workouts.Gym.HistoryFields requires an index in [0, size). With any other index `getStations().get(index)` throws `IndexOutOfBoundsException`, which the model does not capture.
- `String.split` is modelled keeping trailing empty fields, while Java drops them. No string the validators split after their format check has an empty field, so nothing here depends on the difference. `Workouts.FileStringFields` reads the file line with the same keep-everything split.
- `toLowerCase` and `toUpperCase` are modelled on ASCII letters only. String length counts characters, not UTF-16 code units.
- Integers are unbounded. `Integer.parseInt` never overflows on the two- and four-digit fields the format checks admit.
