/** health/HealthList.java: the store of BMI entries, periods and
    appointments. The three static ArrayLists become the three fields of one
    HealthList object; each operation changes them in place. Console output
    and log lines are not modelled. */
module Health {
  import opened Errors
  import opened Calendar
  import opened HealthRecords

  class HealthList {
    var bmis: seq<Bmi>
    var periods: seq<Period>
    var appointments: seq<Appointment>

    /** addAppointment re-sorts after every insertion, and nothing else
        reorders the list, so it is always in (date, time) order. */
    ghost predicate Valid()
      reads this
    {
      SortedByKey(appointments)
    }

    constructor ()
      ensures Valid()
      ensures bmis == [] && periods == [] && appointments == []
    {
      bmis, periods, appointments := [], [], [];
    }

    /** addBmi: appends the entry; the other lists are untouched. */
    method AddBmi(bmi: Bmi)
      requires Valid()
      modifies this
      ensures Valid()
      ensures bmis == old(bmis) + [bmi]
      ensures periods == old(periods) && appointments == old(appointments)
    {
      bmis := bmis + [bmi];
    }

    /** addPeriod: sets the previous last period's cycle length from the new
        start date (overwriting any earlier value), then appends. */
    method AddPeriod(period: Period)
      requires Valid()
      modifies this
      ensures Valid()
      ensures periods == AppendPeriod(old(periods), period)
      ensures |periods| == |old(periods)| + 1 && periods[|old(periods)|] == period
      ensures forall i :: 0 <= i < |old(periods)| - 1 ==> periods[i] == old(periods)[i]
      ensures old(periods) != [] ==>
        periods[|old(periods)| - 1] == WithCycleLength(old(periods)[|old(periods)| - 1], period.start)
      ensures bmis == old(bmis) && appointments == old(appointments)
    {
      if periods != [] {
        var previousPeriod := periods[|periods| - 1];
        periods := periods[|periods| - 1 := WithCycleLength(previousPeriod, period.start)];
      }
      periods := periods + [period];
    }

    /** getLatestCycle: the last period, or null when there is none. */
    method GetLatestCycle() returns (latest: Option<Period>)
      ensures latest.None? <==> periods == []
      ensures latest.Some? ==> latest.value == periods[|periods| - 1]
    {
      if periods == [] {
        return None;
      }
      return Some(periods[|periods| - 1]);
    }

    /** getPeriodSize. */
    method GetPeriodSize() returns (n: int)
      ensures n == |periods|
    {
      n := |periods|;
    }

    /** getPeriod: the period at a zero-based index, or null outside
        [0, size) instead of an exception. */
    method GetPeriod(index: int) returns (p: Option<Period>)
      ensures p.None? <==> index < 0 || index >= |periods|
      ensures p.Some? ==> p.value == periods[index]
    {
      if index < 0 || index >= |periods| {
        return None;
      }
      return Some(periods[index]);
    }

    /** predictNextPeriodStartDate: null without periods, otherwise the
        latest period's own next-cycle prediction. */
    method PredictNextPeriodStartDate() returns (date: Option<Day>)
      ensures date.None? <==> periods == []
      ensures date.Some? ==> date.value == PredictNextStart(periods)
    {
      if periods == [] {
        return None;
      }
      return Some(PredictNextStart(periods));
    }

    /** clearBmisAndPeriods: empties those two lists only. */
    method ClearBmisAndPeriods()
      requires Valid()
      modifies this
      ensures Valid()
      ensures bmis == [] && periods == []
      ensures appointments == old(appointments)
    {
      periods := [];
      bmis := [];
    }

    /** getPeriodsSize: the same count as getPeriodSize. */
    method GetPeriodsSize() returns (n: int)
      ensures n == |periods|
    {
      n := |periods|;
    }

    /** getBmisSize. */
    method GetBmisSize() returns (n: int)
      ensures n == |bmis|
    {
      n := |bmis|;
    }

    /** deleteBmi: zero-based; an index outside [0, size) throws OutOfBounds
        and changes nothing, otherwise exactly that entry is removed. */
    method DeleteBmi(index: int) returns (r: Outcome)
      requires Valid()
      modifies this
      ensures Valid()
      ensures r.Pass? <==> 0 <= index < |old(bmis)|
      ensures r.Fail? ==> r == Fail(OutOfBounds(InvalidIndexDelete)) && bmis == old(bmis)
      ensures r.Pass? ==> bmis == RemoveAt(old(bmis), index)
      ensures periods == old(periods) && appointments == old(appointments)
    {
      if index < 0 || index >= |bmis| {
        return Fail(OutOfBounds(InvalidIndexDelete));
      }
      bmis := RemoveAt(bmis, index);
      return Pass;
    }

    /** deletePeriod: zero-based, as deleteBmi. */
    method DeletePeriod(index: int) returns (r: Outcome)
      requires Valid()
      modifies this
      ensures Valid()
      ensures r.Pass? <==> 0 <= index < |old(periods)|
      ensures r.Fail? ==> r == Fail(OutOfBounds(InvalidIndexDelete)) && periods == old(periods)
      ensures r.Pass? ==> periods == RemoveAt(old(periods), index)
      ensures bmis == old(bmis) && appointments == old(appointments)
    {
      if index < 0 || index >= |periods| {
        return Fail(OutOfBounds(InvalidIndexDelete));
      }
      periods := RemoveAt(periods, index);
      return Pass;
    }

    /** addAppointment: appends, then sorts the whole list stably by
        (date, time); the new appointment lands after every appointment with
        an earlier or equal date and time. */
    method AddAppointment(appointment: Appointment)
      requires Valid()
      modifies this
      ensures Valid()
      ensures appointments == Sort(old(appointments) + [appointment])
      ensures appointments == InsertLast(old(appointments), appointment)
      ensures multiset(appointments) == multiset(old(appointments)) + multiset{appointment}
      ensures forall k :: KeyFilter(appointments, k) == KeyFilter(old(appointments) + [appointment], k)
      ensures bmis == old(bmis) && periods == old(periods)
    {
      appointments := appointments + [appointment];
      SortCorrect(appointments);
      AppendThenSort(old(appointments), appointment);
      appointments := Sort(appointments);
    }

    /** deleteAppointment: one-based; an index outside [1, size] throws
        OutOfBounds and changes nothing, otherwise the appointment at
        index - 1 is removed and the list stays sorted. */
    method DeleteAppointment(index: int) returns (r: Outcome)
      requires Valid()
      modifies this
      ensures Valid()
      ensures r.Pass? <==> 1 <= index <= |old(appointments)|
      ensures r.Fail? ==> r == Fail(OutOfBounds(InvalidIndexDelete)) && appointments == old(appointments)
      ensures r.Pass? ==> appointments == RemoveAt(old(appointments), index - 1)
      ensures bmis == old(bmis) && periods == old(periods)
    {
      if index < 1 || index > |appointments| {
        return Fail(OutOfBounds(InvalidIndexDelete));
      }
      var position := index - 1;
      RemoveAtSorted(appointments, position);
      appointments := RemoveAt(appointments, position);
      return Pass;
    }

    /** clearAppointments: empties the appointment list only. */
    method ClearAppointments()
      requires Valid()
      modifies this
      ensures Valid()
      ensures appointments == []
      ensures bmis == old(bmis) && periods == old(periods)
    {
      appointments := [];
    }
  }
}
