/** The input validators of utility/Validation.java: stateless checks over the
    fields of a command that run an ordered chain of tests and throw on the
    first one that fails. Each is a function returning Pass or the exception
    it would throw. The regular expressions of UiConstant are written out as
    format predicates, its bounds as named constants, and the clock
    (LocalDate.now()) is the parameter `today`. */
module Validation {
  import opened Text
  import opened Errors
  import opened Calendar

  // Bounds of UiConstant and HealthConstant.
  const MinDay := 1
  const MaxDay := 31
  const MinMonth := 1
  const MaxMonth := 12
  const MinHours := 0
  const MaxHours := 23
  const MinMinutes := 0
  const MaxMinutes := 59
  const MaxDescriptionLength := 100
  /** WorkoutConstant.NO_HOURS_PRESENT: the hours of an MM:SS run time. */
  const NoHoursPresent := -1

  const Dash := '-'
  const Colon := ':'

  // Category names of WorkoutConstant and HealthConstant.
  const RunCategory := "run"
  const GymCategory := "gym"
  const BmiCategory := "bmi"
  const PeriodCategory := "period"
  const AppointmentCategory := "appointment"
  const AllCategory := "all"

  /** VALID_DATE_REGEX: two digits, a dash, two digits, a dash, four digits. */
  predicate IsDateFormat(s: string)
  {
    |s| == 10 && s[2] == Dash && s[5] == Dash
    && AllDigits(s[0..2]) && AllDigits(s[3..5]) && AllDigits(s[6..10])
  }

  function DayField(s: string): nat requires IsDateFormat(s) { DigitsValue(s[0..2]) }
  function MonthField(s: string): nat requires IsDateFormat(s) { DigitsValue(s[3..5]) }
  function YearField(s: string): nat requires IsDateFormat(s) { DigitsValue(s[6..10]) }

  /** VALID_TIME_REGEX: two digits, a colon, two digits. */
  predicate IsTimeFormat(s: string)
  {
    |s| == 5 && s[2] == Colon && AllDigits(s[0..2]) && AllDigits(s[3..5])
  }

  /** VALID_TIME_WITH_HOURS_REGEX: three two-digit groups separated by colons. */
  predicate IsTimeWithHoursFormat(s: string)
  {
    |s| == 8 && s[2] == Colon && s[5] == Colon
    && AllDigits(s[0..2]) && AllDigits(s[3..5]) && AllDigits(s[6..8])
  }

  /** VALID_POSITIVE_INTEGER_REGEX: a non-zero digit followed by digits. */
  predicate IsPositiveInteger(s: string)
  {
    |s| >= 1 && AllDigits(s) && s[0] != '0'
  }

  /** VALID_TWO_DP_NUMBER_REGEX: digits, optionally followed by a point and
      one or two digits. */
  predicate IsTwoDpNumber(s: string)
  {
    (|s| >= 1 && AllDigits(s))
    || (|s| >= 3 && s[|s| - 2] == '.' && AllDigits(s[..|s| - 2]) && IsDigit(s[|s| - 1]))
    || (|s| >= 4 && s[|s| - 3] == '.' && AllDigits(s[..|s| - 3]) && AllDigits(s[|s| - 2..]))
  }

  /** The fields String.split("-") gives for a well-formed date. */
  lemma DateParts(s: string)
    requires IsDateFormat(s)
    ensures SplitOn(s, Dash) == [s[0..2], s[3..5], s[6..10]]
  {
    assert s == s[0..2] + [Dash] + (s[3..5] + [Dash] + s[6..10]);
    SplitOnConcat(s[0..2], s[3..5] + [Dash] + s[6..10], Dash);
    SplitOnConcat(s[3..5], s[6..10], Dash);
    SplitOnNoSeparator(s[0..2], Dash);
    SplitOnNoSeparator(s[3..5], Dash);
    SplitOnNoSeparator(s[6..10], Dash);
  }

  /** The fields String.split(":") gives for HH:MM. */
  lemma ShortTimeParts(s: string)
    requires IsTimeFormat(s)
    ensures SplitOn(s, Colon) == [s[0..2], s[3..5]]
  {
    assert s == s[0..2] + [Colon] + s[3..5];
    SplitOnConcat(s[0..2], s[3..5], Colon);
    SplitOnNoSeparator(s[0..2], Colon);
    SplitOnNoSeparator(s[3..5], Colon);
  }

  /** The fields String.split(":") gives for HH:MM:SS. */
  lemma LongTimeParts(s: string)
    requires IsTimeWithHoursFormat(s)
    ensures SplitOn(s, Colon) == [s[0..2], s[3..5], s[6..8]]
  {
    assert s == s[0..2] + [Colon] + (s[3..5] + [Colon] + s[6..8]);
    SplitOnConcat(s[0..2], s[3..5] + [Colon] + s[6..8], Colon);
    SplitOnConcat(s[3..5], s[6..8], Colon);
    SplitOnNoSeparator(s[0..2], Colon);
    SplitOnNoSeparator(s[3..5], Colon);
    SplitOnNoSeparator(s[6..8], Colon);
  }

  /** The fields String.split(":") gives for HH:MM and HH:MM:SS. */
  lemma TimeParts(s: string)
    requires IsTimeFormat(s) || IsTimeWithHoursFormat(s)
    ensures IsTimeFormat(s) ==> SplitOn(s, Colon) == [s[0..2], s[3..5]]
    ensures IsTimeWithHoursFormat(s) ==> SplitOn(s, Colon) == [s[0..2], s[3..5], s[6..8]]
  {
    if IsTimeFormat(s) {
      ShortTimeParts(s);
    } else {
      LongTimeParts(s);
    }
  }

  /** validateDate: the format first, then the day range, then the month
      range; days are never checked against the length of the month. */
  function ValidateDate(date: string): (r: Outcome)
    ensures r.Fail? ==> r.error.InvalidInput?
    ensures r == Pass <==>
      IsDateFormat(date) && MinDay <= DayField(date) <= MaxDay && MinMonth <= MonthField(date) <= MaxMonth
    ensures !IsDateFormat(date) ==> r == Fail(InvalidInput(InvalidDate))
    ensures IsDateFormat(date) && !(MinDay <= DayField(date) <= MaxDay) ==> r == Fail(InvalidInput(InvalidDay))
    ensures IsDateFormat(date) && MinDay <= DayField(date) <= MaxDay && !(MinMonth <= MonthField(date) <= MaxMonth)
      ==> r == Fail(InvalidInput(InvalidMonth))
  {
    if !IsDateFormat(date) then Fail(InvalidInput(InvalidDate))
    else
      DateParts(date);
      var parts := SplitOn(date, Dash);
      var day := DigitsValue(parts[0]);
      var month := DigitsValue(parts[1]);
      if day < MinDay || day > MaxDay then Fail(InvalidInput(InvalidDay))
      else if month < MinMonth || month > MaxMonth then Fail(InvalidInput(InvalidMonth))
      else Pass
  }

  /** Parser.parseDate on a date that passed validateDate, read as dd-MM-yyyy
      with java.time's default (smart) resolution: yyyy is the year of the
      era, which has no year 0, so year 0000 throws; a day past the end of
      its month is resolved to the month's last day. */
  function ParseDate(date: string): (r: Option<Day>)
    requires ValidateDate(date) == Pass
    ensures r.None? <==> YearField(date) == 0
    ensures r.Some? && IsValidDate(YearField(date), MonthField(date), DayField(date))
      ==> r.value == EpochDay(YearField(date), MonthField(date), DayField(date))
    ensures r.Some? && !IsValidDate(YearField(date), MonthField(date), DayField(date))
      ==> r.value == EpochDay(YearField(date), MonthField(date), DaysInMonth(YearField(date), MonthField(date)))
  {
    if YearField(date) == 0 then None
    else Some(ResolvedDay(YearField(date), MonthField(date), DayField(date)))
  }

  /** The text DD-MM-YYYY of a day, a month and a year. */
  function DateText(d: nat, m: nat, y: nat): string
  {
    Padded(d, 2) + [Dash] + Padded(m, 2) + [Dash] + Padded(y, 4)
  }

  /** validateDate accepts exactly the DD-MM-YYYY texts of days 1 to 31 and
      months 1 to 12 of any four-digit year, and its fields read back. */
  lemma DateTextRoundTrip(d: nat, m: nat, y: nat)
    requires 1 <= d <= 31 && 1 <= m <= 12 && y < 10000
    ensures ValidateDate(DateText(d, m, y)) == Pass
    ensures DayField(DateText(d, m, y)) == d && MonthField(DateText(d, m, y)) == m
    ensures YearField(DateText(d, m, y)) == y
  {
    var dd, mm, yy := Padded(d, 2), Padded(m, 2), Padded(y, 4);
    assert Pow10(2) == 100 && Pow10(4) == 10000 by {
      assert Pow10(1) == 10 && Pow10(3) == 1000;
    }
    var s := DateText(d, m, y);
    assert s == dd + [Dash] + mm + [Dash] + yy;
    assert s[0..2] == dd && s[3..5] == mm && s[6..10] == yy;
    assert IsDateFormat(s);
  }

  lemma ValidDateIsDateText(s: string)
    requires ValidateDate(s) == Pass
    ensures YearField(s) < 10000
    ensures s == DateText(DayField(s), MonthField(s), YearField(s))
  {
    var dd, mm, yy := s[0..2], s[3..5], s[6..10];
    PaddedDigitsValue(dd);
    PaddedDigitsValue(mm);
    PaddedDigitsValue(yy);
    assert Pow10(4) == 10000;
    assert Padded(DayField(s), 2) == dd && Padded(MonthField(s), 2) == mm && Padded(YearField(s), 4) == yy;
    assert s == dd + [Dash] + mm + [Dash] + yy;
  }

  lemma ValidDateIffDateText(s: string)
    ensures ValidateDate(s) == Pass <==>
      exists d: nat, m: nat, y: nat :: 1 <= d <= 31 && 1 <= m <= 12 && y < 10000 && s == DateText(d, m, y)
  {
    if ValidateDate(s) == Pass {
      ValidDateIsDateText(s);
      var d, m, y := DayField(s), MonthField(s), YearField(s);
      assert 1 <= d <= 31 && 1 <= m <= 12 && y < 10000 && s == DateText(d, m, y);
    } else {
      forall d: nat, m: nat, y: nat | 1 <= d <= 31 && 1 <= m <= 12 && y < 10000
        ensures s != DateText(d, m, y)
      {
        DateTextRoundTrip(d, m, y);
      }
    }
  }

  /** The value of a two-digit field. */
  lemma TwoDigits(s: string)
    requires |s| == 2 && AllDigits(s)
    ensures DigitsValue(s) == 10 * DigitValue(s[0]) + DigitValue(s[1])
  {
    assert s[..1][..0] == [] && s[..1][0] == s[0];
    assert DigitsValue(s[..1]) == DigitValue(s[0]);
  }

  /** A DD-MM-YYYY text given character by character, and its day and
      month. */
  lemma DateChars(s: string)
    requires |s| == 10 && s[2] == Dash && s[5] == Dash
    requires IsDigit(s[0]) && IsDigit(s[1]) && IsDigit(s[3]) && IsDigit(s[4])
    requires IsDigit(s[6]) && IsDigit(s[7]) && IsDigit(s[8]) && IsDigit(s[9])
    ensures IsDateFormat(s)
    ensures DayField(s) == 10 * DigitValue(s[0]) + DigitValue(s[1])
    ensures MonthField(s) == 10 * DigitValue(s[3]) + DigitValue(s[4])
  {
    TwoDigitField(s, 0);
    TwoDigitField(s, 3);
    assert AllDigits(s[6..10]);
  }

  /** "01-01-0000" is a valid date text whose year field is 0. */
  lemma YearZeroDate()
    ensures ValidateDate("01-01-0000") == Pass
    ensures YearField("01-01-0000") == 0
  {
    var s := "01-01-0000";
    DateChars(s);
    ZerosValue(s[6..10]);
  }

  /** validateDate accepts 31 February. */
  lemma ThirtyFirstOfFebruaryAccepted()
    ensures ValidateDate("31-02-2024") == Pass
  {
    DateChars("31-02-2024");
  }

  /** A date with both the day and the month out of range reports the day. */
  lemma DayCheckedBeforeMonth()
    ensures ValidateDate("32-13-2024") == Fail(InvalidInput(InvalidDay))
  {
    DateChars("32-13-2024");
  }

  /** A date with only the month out of range reports the month. */
  lemma MonthOutOfRange()
    ensures ValidateDate("15-13-2024") == Fail(InvalidInput(InvalidMonth))
  {
    DateChars("15-13-2024");
  }

  /** validateFilter: exactly the six category names pass. */
  function ValidateFilter(filter: string): (r: Outcome)
    ensures r == Pass <==>
      filter in {RunCategory, GymCategory, BmiCategory, PeriodCategory, AppointmentCategory, AllCategory}
    ensures r.Fail? ==> r == Fail(InvalidInput(InvalidItem))
  {
    if filter == RunCategory
      || filter == GymCategory
      || filter == BmiCategory
      || filter == PeriodCategory
      || filter == AppointmentCategory
      || filter == AllCategory
    then Pass
    else Fail(InvalidInput(InvalidItem))
  }

  /** validateDeleteInput: both fields present, then the lower-cased category,
      then the index text. */
  function ValidateDeleteInput(category: string, index: string): (r: Outcome)
    ensures r.Fail? && r.error.InsufficientInput? <==> category == [] || index == []
    ensures category == [] || index == [] ==> r == Fail(InsufficientInput(InsufficientDeleteParameters))
    ensures r.Fail? ==> r.error.InsufficientInput? || r.error.InvalidInput?
    ensures r == Pass <==>
      category != [] && ValidateFilter(ToLower(category)) == Pass && IsPositiveInteger(index)
    ensures category != [] && index != [] && ValidateFilter(ToLower(category)).Fail?
      ==> r == Fail(InvalidInput(InvalidItem))
    ensures category != [] && ValidateFilter(ToLower(category)) == Pass && index != [] && !IsPositiveInteger(index)
      ==> r == Fail(InvalidInput(InvalidIndex))
  {
    if category == [] || index == [] then Fail(InsufficientInput(InsufficientDeleteParameters))
    else
      var filter := ValidateFilter(ToLower(category));
      if filter.Fail? then filter
      else if !IsPositiveInteger(index) then Fail(InvalidInput(InvalidIndex))
      else Pass
  }

  lemma ToLowerIdempotent(s: string)
    ensures ToLower(ToLower(s)) == ToLower(s)
  {
  }

  /** The category of a delete command is matched without regard to case. */
  lemma DeleteCategoryIgnoresCase(category: string, index: string)
    ensures ValidateDeleteInput(category, index) == ValidateDeleteInput(ToLower(category), index)
  {
    ToLowerIdempotent(category);
  }

  /** The index texts that pass are exactly the decimal numerals of positive
      numbers, written without leading zeros. */
  lemma {:induction false} PositiveIntegerText(s: string)
    requires IsPositiveInteger(s)
    ensures DigitsValue(s) >= 1 && NatToString(DigitsValue(s)) == s
  {
    if |s| > 1 {
      var init := s[..|s| - 1];
      assert init[0] == s[0];
      PositiveIntegerText(init);
      var v := DigitsValue(s);
      assert v == DigitsValue(init) * 10 + DigitValue(s[|s| - 1]);
      assert v / 10 == DigitsValue(init) && v % 10 == DigitValue(s[|s| - 1]);
      assert s == init + [s[|s| - 1]];
    }
  }

  lemma NumeralIsPositiveInteger(n: nat)
    requires n >= 1
    ensures IsPositiveInteger(NatToString(n))
  {
    var s := NatToString(n);
    if |s| == 1 {
      assert DigitsValue(s) == DigitValue(s[0]);
    }
  }

  /** validateBmiInput: all three fields present, then height and weight in
      the two-decimal-place format, then the date, then its parse, then the
      date not after today (a date equal to today passes). */
  function ValidateBmiInput(height: string, weight: string, date: string, today: Day): (r: Outcome)
    ensures r.Fail? && r.error.InsufficientInput? <==> height == [] || weight == [] || date == []
    ensures height == [] || weight == [] || date == [] ==> r == Fail(InsufficientInput(InsufficientBmiParameters))
    ensures r.Fail? ==> r.error.InsufficientInput? || r.error.InvalidInput? || r.error.DateTimeParse?
    ensures r == Pass <==>
      && IsTwoDpNumber(height) && IsTwoDpNumber(weight) && date != []
      && ValidateDate(date) == Pass && ParseDate(date).Some? && ParseDate(date).value <= today
    ensures height != [] && weight != [] && date != [] && !(IsTwoDpNumber(height) && IsTwoDpNumber(weight))
      ==> r == Fail(InvalidInput(HeightWeightInput))
    ensures IsTwoDpNumber(height) && IsTwoDpNumber(weight) && date != [] && ValidateDate(date).Fail?
      ==> r == ValidateDate(date)
    ensures r == Fail(DateTimeParse) <==>
      IsTwoDpNumber(height) && IsTwoDpNumber(weight) && ValidateDate(date) == Pass && YearField(date) == 0
    ensures IsTwoDpNumber(height) && IsTwoDpNumber(weight) && ValidateDate(date) == Pass
      && ParseDate(date).Some? && ParseDate(date).value > today
      ==> r == Fail(InvalidInput(DateInFuture))
  {
    if height == [] || weight == [] || date == [] then Fail(InsufficientInput(InsufficientBmiParameters))
    else if !IsTwoDpNumber(height) || !IsTwoDpNumber(weight) then Fail(InvalidInput(HeightWeightInput))
    else
      var dateCheck := ValidateDate(date);
      if dateCheck.Fail? then dateCheck
      else match ParseDate(date)
        case None => Fail(DateTimeParse)
        case Some(day) => if day > today then Fail(InvalidInput(DateInFuture)) else Pass
  }

  /** A BMI entry dated in year 0000 passes validateDate and then fails to
      parse. */
  lemma BmiYearZeroNotParsed(height: string, weight: string, today: Day)
    requires IsTwoDpNumber(height) && IsTwoDpNumber(weight)
    ensures ValidateDate("01-01-0000") == Pass
    ensures ValidateBmiInput(height, weight, "01-01-0000", today) == Fail(DateTimeParse)
  {
    YearZeroDate();
  }

  /** validatePeriodInput: both dates present; each date valid, its failure
      wrapped with a start or end prefix; then both dates parsed, start
      first; then the start not after today, then the start not after the
      end. The end date may lie in the future and may equal the start. */
  function ValidatePeriodInput(start: string, end: string, today: Day): (r: Outcome)
    ensures r.Fail? && r.error.InsufficientInput? <==> start == [] || end == []
    ensures start == [] || end == [] ==> r == Fail(InsufficientInput(InsufficientPeriodParameters))
    ensures r.Fail? ==> r.error.InsufficientInput? || r.error.InvalidInput? || r.error.DateTimeParse?
    ensures r == Pass <==>
      && ValidateDate(start) == Pass && ValidateDate(end) == Pass
      && ParseDate(start).Some? && ParseDate(end).Some?
      && ParseDate(start).value <= today && ParseDate(start).value <= ParseDate(end).value
    ensures start != [] && end != [] && ValidateDate(start).Fail?
      ==> r == Fail(InvalidInput(InvalidStartDate(ValidateDate(start).error.reason)))
    ensures start != [] && end != [] && ValidateDate(start) == Pass && ValidateDate(end).Fail?
      ==> r == Fail(InvalidInput(InvalidEndDate(ValidateDate(end).error.reason)))
    ensures r == Fail(DateTimeParse) <==>
      ValidateDate(start) == Pass && ValidateDate(end) == Pass && (YearField(start) == 0 || YearField(end) == 0)
    ensures ValidateDate(start) == Pass && ValidateDate(end) == Pass
      && ParseDate(start).Some? && ParseDate(end).Some? && ParseDate(start).value > today
      ==> r == Fail(InvalidInput(StartDateInFuture))
    ensures ValidateDate(start) == Pass && ValidateDate(end) == Pass
      && ParseDate(start).Some? && ParseDate(end).Some? && ParseDate(start).value <= today
      && ParseDate(start).value > ParseDate(end).value
      ==> r == Fail(InvalidInput(PeriodEndBeforeStart))
  {
    if start == [] || end == [] then Fail(InsufficientInput(InsufficientPeriodParameters))
    else
      var startCheck := ValidateDate(start);
      if startCheck.Fail? then Fail(InvalidInput(InvalidStartDate(startCheck.error.reason)))
      else
        var endCheck := ValidateDate(end);
        if endCheck.Fail? then Fail(InvalidInput(InvalidEndDate(endCheck.error.reason)))
        else match (ParseDate(start), ParseDate(end))
          case (None, _) => Fail(DateTimeParse)
          case (_, None) => Fail(DateTimeParse)
          case (Some(startDate), Some(endDate)) =>
            if startDate > today then Fail(InvalidInput(StartDateInFuture))
            else if startDate > endDate then Fail(InvalidInput(PeriodEndBeforeStart))
            else Pass
  }

  /** A period whose start is in year 0000 passes both date checks and then
      fails to parse, before any comparison of the dates. */
  lemma PeriodYearZeroNotParsed(end: string, today: Day)
    requires ValidateDate(end) == Pass
    ensures ValidatePeriodInput("01-01-0000", end, today) == Fail(DateTimeParse)
  {
    YearZeroDate();
  }

  /** validateTimeInput: the HH:MM format, then hours in [0, 23], then
      minutes in [0, 59]. */
  function ValidateTimeInput(time: string): (r: Outcome)
    ensures r.Fail? ==> r.error.InvalidInput?
    ensures r == Pass <==>
      && IsTimeFormat(time)
      && MinHours <= DigitsValue(time[0..2]) <= MaxHours
      && MinMinutes <= DigitsValue(time[3..5]) <= MaxMinutes
    ensures !IsTimeFormat(time) ==> r == Fail(InvalidInput(InvalidTime))
    ensures IsTimeFormat(time) && DigitsValue(time[0..2]) > MaxHours ==> r == Fail(InvalidInput(InvalidHours))
    ensures IsTimeFormat(time) && DigitsValue(time[0..2]) <= MaxHours && DigitsValue(time[3..5]) > MaxMinutes
      ==> r == Fail(InvalidInput(InvalidMinutes))
  {
    if !IsTimeFormat(time) then Fail(InvalidInput(InvalidTime))
    else
      ShortTimeParts(time);
      var parts := SplitOn(time, Colon);
      var hours := DigitsValue(parts[0]);
      var minutes := DigitsValue(parts[1]);
      if hours < MinHours || hours > MaxHours then Fail(InvalidInput(InvalidHours))
      else if minutes < MinMinutes || minutes > MaxMinutes then Fail(InvalidInput(InvalidMinutes))
      else Pass
  }

  /** The text HH:MM of an hour and a minute. */
  function TimeText(h: nat, m: nat): string
  {
    Padded(h, 2) + [Colon] + Padded(m, 2)
  }

  lemma TimeTextRoundTrip(h: nat, m: nat)
    requires h <= 23 && m <= 59
    ensures ValidateTimeInput(TimeText(h, m)) == Pass
    ensures DigitsValue(TimeText(h, m)[0..2]) == h && DigitsValue(TimeText(h, m)[3..5]) == m
  {
    var s := TimeText(h, m);
    assert s[0..2] == Padded(h, 2) && s[3..5] == Padded(m, 2);
  }

  lemma ValidTimeIsTimeText(s: string)
    requires ValidateTimeInput(s) == Pass
    ensures s == TimeText(DigitsValue(s[0..2]), DigitsValue(s[3..5]))
  {
    PaddedDigitsValue(s[0..2]);
    PaddedDigitsValue(s[3..5]);
    assert s == s[0..2] + [Colon] + s[3..5];
  }

  /** validateTimeInput accepts exactly the HH:MM texts of the times of day. */
  lemma ValidTimeIffTimeText(s: string)
    ensures ValidateTimeInput(s) == Pass <==> exists h: nat, m: nat :: h <= 23 && m <= 59 && s == TimeText(h, m)
  {
    if ValidateTimeInput(s) == Pass {
      ValidTimeIsTimeText(s);
      var h, m := DigitsValue(s[0..2]), DigitsValue(s[3..5]);
      assert h <= 23 && m <= 59 && s == TimeText(h, m);
    } else {
      forall h: nat, m: nat | h <= 23 && m <= 59 ensures s != TimeText(h, m) {
        TimeTextRoundTrip(h, m);
      }
    }
  }

  predicate InRunRange(n: int) { 1 <= n <= 60 }

  /** The range checks validateRunTimeInput applies once the fields are read:
      minutes, then seconds, then hours. */
  function RunTimeRangeChecks(hours: int, minutes: int, seconds: int): Outcome
  {
    if minutes < 1 || minutes > 60 then Fail(InvalidInput(RunTimeRange))
    else if seconds < 1 || seconds > 60 then Fail(InvalidInput(RunTimeRange))
    else if hours == 0 then Fail(InvalidInput(ZeroHours))
    else Pass
  }

  /** validateRunTimeInput: MM:SS or HH:MM:SS; minutes and seconds each in
      [1, 60]; an explicit hours field of 0 is refused, while MM:SS stands
      for NO_HOURS_PRESENT hours. */
  function ValidateRunTimeInput(time: string): (r: Outcome)
    ensures r.Fail? ==> r.error.InvalidInput?
    ensures r == Pass <==>
      || (IsTimeFormat(time) && InRunRange(DigitsValue(time[0..2])) && InRunRange(DigitsValue(time[3..5]))
          && NoHoursPresent != 0)
      || (IsTimeWithHoursFormat(time) && DigitsValue(time[0..2]) != 0
          && InRunRange(DigitsValue(time[3..5])) && InRunRange(DigitsValue(time[6..8])))
    ensures !IsTimeFormat(time) && !IsTimeWithHoursFormat(time) ==> r == Fail(InvalidInput(RunTimeFormat))
    ensures (IsTimeFormat(time) || IsTimeWithHoursFormat(time)) && r.Fail?
      ==> r.error.reason == RunTimeRange || r.error.reason == ZeroHours
    ensures IsTimeWithHoursFormat(time) && DigitsValue(time[0..2]) == 0
      && InRunRange(DigitsValue(time[3..5])) && InRunRange(DigitsValue(time[6..8]))
      ==> r == Fail(InvalidInput(ZeroHours))
    ensures IsTimeFormat(time) && !(InRunRange(DigitsValue(time[0..2])) && InRunRange(DigitsValue(time[3..5])))
      ==> r == Fail(InvalidInput(RunTimeRange))
    ensures IsTimeWithHoursFormat(time) && !(InRunRange(DigitsValue(time[3..5])) && InRunRange(DigitsValue(time[6..8])))
      ==> r == Fail(InvalidInput(RunTimeRange))
  {
    if !IsTimeFormat(time) && !IsTimeWithHoursFormat(time) then Fail(InvalidInput(RunTimeFormat))
    else
      TimeParts(time);
      var parts := SplitOn(time, Colon);
      if |parts| == 2 then
        RunTimeRangeChecks(NoHoursPresent, DigitsValue(parts[0]), DigitsValue(parts[1]))
      else if |parts| == 3 then
        RunTimeRangeChecks(DigitsValue(parts[0]), DigitsValue(parts[1]), DigitsValue(parts[2]))
      else
        Fail(InvalidInput(RunTimeFormat))
  }

  /** Two digit characters at position k form a two-digit field. */
  lemma TwoDigitField(s: string, k: nat)
    requires k + 2 <= |s| && IsDigit(s[k]) && IsDigit(s[k + 1])
    ensures AllDigits(s[k..k + 2])
    ensures DigitsValue(s[k..k + 2]) == 10 * DigitValue(s[k]) + DigitValue(s[k + 1])
  {
    var f := s[k..k + 2];
    assert f[0] == s[k] && f[1] == s[k + 1];
    TwoDigits(f);
  }

  /** An MM:SS text given character by character, and its fields. */
  lemma TimeChars(s: string)
    requires |s| == 5 && s[2] == Colon
    requires IsDigit(s[0]) && IsDigit(s[1]) && IsDigit(s[3]) && IsDigit(s[4])
    ensures IsTimeFormat(s) && !IsTimeWithHoursFormat(s)
    ensures SplitOn(s, Colon) == [s[0..2], s[3..5]]
    ensures DigitsValue(s[0..2]) == 10 * DigitValue(s[0]) + DigitValue(s[1])
    ensures DigitsValue(s[3..5]) == 10 * DigitValue(s[3]) + DigitValue(s[4])
  {
    TwoDigitField(s, 0);
    TwoDigitField(s, 3);
    ShortTimeParts(s);
  }

  /** An HH:MM:SS text given character by character, and its fields. */
  lemma HoursTimeChars(s: string)
    requires |s| == 8 && s[2] == Colon && s[5] == Colon
    requires IsDigit(s[0]) && IsDigit(s[1]) && IsDigit(s[3]) && IsDigit(s[4])
    requires IsDigit(s[6]) && IsDigit(s[7])
    ensures IsTimeWithHoursFormat(s) && !IsTimeFormat(s)
    ensures SplitOn(s, Colon) == [s[0..2], s[3..5], s[6..8]]
    ensures DigitsValue(s[0..2]) == 10 * DigitValue(s[0]) + DigitValue(s[1])
    ensures DigitsValue(s[3..5]) == 10 * DigitValue(s[3]) + DigitValue(s[4])
    ensures DigitsValue(s[6..8]) == 10 * DigitValue(s[6]) + DigitValue(s[7])
  {
    TwoDigitField(s, 0);
    TwoDigitField(s, 3);
    TwoDigitField(s, 6);
    LongTimeParts(s);
  }

  /** In MM:SS, 00 minutes fail the range check. */
  lemma RunTimeZeroMinutes()
    ensures ValidateRunTimeInput("00:30") == Fail(InvalidInput(RunTimeRange))
  {
    TimeChars("00:30");
  }

  /** In MM:SS, 00 seconds fail the range check. */
  lemma RunTimeZeroSeconds()
    ensures ValidateRunTimeInput("10:00") == Fail(InvalidInput(RunTimeRange))
  {
    TimeChars("10:00");
  }

  /** In MM:SS, 60 minutes and 60 seconds pass. */
  lemma RunTimeSixtyMinutes()
    ensures ValidateRunTimeInput("60:60") == Pass
  {
    TimeChars("60:60");
  }

  /** In HH:MM:SS an explicit zero hours fails, but only after the minute and
      second checks have passed. */
  lemma RunTimeZeroHours()
    ensures ValidateRunTimeInput("00:01:01") == Fail(InvalidInput(ZeroHours))
  {
    HoursTimeChars("00:01:01");
  }

  /** With every field zero the minute check reports first. */
  lemma RunTimeAllZero()
    ensures ValidateRunTimeInput("00:00:00") == Fail(InvalidInput(RunTimeRange))
  {
    HoursTimeChars("00:00:00");
  }

  /** In HH:MM:SS, 60 seconds passes. */
  lemma RunTimeSixtySeconds()
    ensures ValidateRunTimeInput("01:01:60") == Pass
  {
    HoursTimeChars("01:01:60");
  }

  /** validateAppointmentDetails: all three fields present, then the date,
      then the time, then a description no longer than
      MAX_DESCRIPTION_LENGTH (a description of exactly that length passes). */
  function ValidateAppointmentDetails(date: string, time: string, description: string): (r: Outcome)
    ensures r.Fail? && r.error.InsufficientInput? <==> date == [] || time == [] || description == []
    ensures date == [] || time == [] || description == [] ==> r == Fail(InsufficientInput(InsufficientAppointmentParameters))
    ensures r.Fail? ==> r.error.InsufficientInput? || r.error.InvalidInput?
    ensures r == Pass <==>
      && ValidateDate(date) == Pass && ValidateTimeInput(time) == Pass
      && 1 <= |description| <= MaxDescriptionLength
    ensures date != [] && time != [] && description != [] && ValidateDate(date).Fail? ==> r == ValidateDate(date)
    ensures time != [] && description != [] && ValidateDate(date) == Pass && ValidateTimeInput(time).Fail?
      ==> r == ValidateTimeInput(time)
    ensures ValidateDate(date) == Pass && ValidateTimeInput(time) == Pass && |description| > MaxDescriptionLength
      ==> r == Fail(InvalidInput(DescriptionLength))
  {
    if date == [] || time == [] || description == [] then
      Fail(InsufficientInput(InsufficientAppointmentParameters))
    else
      var dateCheck := ValidateDate(date);
      if dateCheck.Fail? then dateCheck
      else
        var timeCheck := ValidateTimeInput(time);
        if timeCheck.Fail? then timeCheck
        else if |description| > MaxDescriptionLength then Fail(InvalidInput(DescriptionLength))
        else Pass
  }

  /** validateIndexWithinBounds(index, lower, upper), whose body is not part
      of this model: assumed to be the half-open range check
      lower <= index < upper. The contract records the assumption. */
  function ValidateIndexWithinBounds(index: int, lower: int, upper: int): (r: bool)
    ensures r <==> lower <= index < upper
  {
    lower <= index < upper
  }
}
