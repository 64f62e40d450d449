/** workouts/Gym.java: a gym session holding an ordered list of stations,
    with append, bounds-checked lookup, the line written to the data file,
    and the fields of one history row. A station is taken as its name, its
    number of sets and the text its own toFileString gives; the session's
    dates are the texts Workout.getDate and getDateForFile give. */
module Workouts {
  import opened Text
  import opened Errors
  import Validation

  datatype GymStation = GymStation(name: string, numberOfSets: int, fileString: string)

  /** UiConstant.EMPTY_STRING. */
  const EmptyString: string := ""

  /** The station texts, in list order. */
  function StationStrings(stations: seq<GymStation>): (r: seq<string>)
    ensures |r| == |stations|
    ensures forall i :: 0 <= i < |stations| ==> r[i] == stations[i].fileString
  {
    if stations == [] then []
    else StationStrings(stations[..|stations| - 1]) + [stations[|stations| - 1].fileString]
  }

  /** GYM:<number of stations>:<date>: */
  function Header(count: nat, fileDate: string): string
  {
    ToUpper(Validation.GymCategory) + [Validation.Colon] + NatToString(count) + [Validation.Colon]
      + fileDate + [Validation.Colon]
  }

  /** The line toFileString produces: the header, then the station texts
      separated by colons, with no colon after the last. */
  function FileString(stations: seq<GymStation>, fileDate: string): (r: string)
    ensures Header(|stations|, fileDate) <= r
    ensures stations == [] ==> r == Header(|stations|, fileDate)
    ensures stations != [] ==> var t := stations[|stations| - 1].fileString;
      |t| <= |r| && r[|r| - |t|..] == t
  {
    Header(|stations|, fileDate) + Join(StationStrings(stations), Validation.Colon)
  }

  /** What the first i rounds of the toFileString loop have appended: each
      station text, followed by a colon unless it is the last station. */
  function JoinedPrefix(xs: seq<string>, i: nat): string
    requires i <= |xs|
  {
    if i == 0 then "" else Join(xs[..i], Validation.Colon) + (if i < |xs| then [Validation.Colon] else "")
  }

  /** One more round of the loop appends the next text and, unless it was
      the last, a colon. */
  lemma JoinedPrefixStep(xs: seq<string>, i: nat)
    requires i < |xs|
    ensures JoinedPrefix(xs, i + 1) == JoinedPrefix(xs, i) + xs[i] + (if i + 1 < |xs| then [Validation.Colon] else "")
  {
    assert xs[..i + 1][..i] == xs[..i];
    assert xs[..i + 1][i] == xs[i];
  }

  lemma JoinedPrefixAll(xs: seq<string>)
    ensures JoinedPrefix(xs, |xs|) == Join(xs, Validation.Colon)
  {
    assert xs[..|xs|] == xs;
  }

  /** Reading the line back field by field: "GYM", the count (whose value is
      the number of stations), the date, then the fields of each station in
      order; with no stations one empty field follows the date's colon. */
  lemma FileStringFields(stations: seq<GymStation>, fileDate: string)
    requires Validation.Colon !in fileDate
    ensures var f := SplitOn(FileString(stations, fileDate), Validation.Colon);
      && |f| >= 4 && f[0] == "GYM" && f[2] == fileDate
      && f[1] == NatToString(|stations|) && DigitsValue(f[1]) == |stations|
      && f[3..] == (if stations == [] then [""] else SplitEach(StationStrings(stations), Validation.Colon))
  {
    var c := Validation.Colon;
    var tag, count := ToUpper(Validation.GymCategory), NatToString(|stations|);
    assert tag == "GYM";
    assert c !in count by {
      forall i | 0 <= i < |count| ensures count[i] != c {
        assert IsDigit(count[i]);
      }
    }
    SplitThreeFields(tag, count, fileDate, Join(StationStrings(stations), c), c);
    if stations != [] {
      SplitJoin(StationStrings(stations), c);
    }
  }

  class Gym {
    var stations: seq<GymStation>
    /** Workout.getDate(): the date as shown in the history. */
    const date: string
    /** Workout.getDateForFile(): the date as written to the data file. */
    const fileDate: string

    constructor (date: string, fileDate: string)
      ensures stations == [] && this.date == date && this.fileDate == fileDate
    {
      stations := [];
      this.date := date;
      this.fileDate := fileDate;
    }

    /** addStation, once the station has been built from its input fields:
        appended at the end of the list. */
    method AddStation(station: GymStation)
      modifies this
      ensures stations == old(stations) + [station]
    {
      AppendIntoStations(station);
    }

    /** appendIntoStations. */
    method AppendIntoStations(station: GymStation)
      modifies this
      ensures stations == old(stations) + [station]
    {
      stations := stations + [station];
    }

    /** getStationByIndex: the station at a zero-based index; outside
        [0, size) it throws OutOfBounds. */
    method GetStationByIndex(index: int) returns (r: Result<GymStation>)
      ensures r.Ok? <==> 0 <= index < |stations|
      ensures r.Ok? ==> r.value == stations[index]
      ensures r.Err? ==> r.error == OutOfBounds(InvalidIndexSearch)
    {
      var isIndexValid := Validation.ValidateIndexWithinBounds(index, 0, |stations|);
      if !isIndexValid {
        return Err(OutOfBounds(InvalidIndexSearch));
      }
      return Ok(stations[index]);
    }

    /** toFileString, built up in a loop as the StringBuilder is. */
    method ToFileString() returns (s: string)
      ensures s == FileString(stations, fileDate)
    {
      var colon := Validation.Colon;
      s := ToUpper(Validation.GymCategory) + [colon] + NatToString(|stations|) + [colon] + fileDate + [colon];
      ghost var header := s;
      ghost var texts := StationStrings(stations);
      var lastIndex := |stations| - 1;
      var i := 0;
      while i < |stations|
        invariant 0 <= i <= |stations|
        invariant s == header + JoinedPrefix(texts, i)
      {
        JoinedPrefixStep(texts, i);
        s := s + stations[i].fileString;
        if i != lastIndex {
          s := s + [colon];
        }
        i := i + 1;
      }
      JoinedPrefixAll(texts);
    }

    /** The fields of one history row (getHistoryFormatForSpecificGymStation):
        the "gym" prefix and the date only on the first station's row, empty
        on every other row, then the station's name and number of sets. */
    method HistoryFields(index: int) returns (prefix: string, shownDate: string, stationName: string, sets: int)
      requires 0 <= index < |stations|
      ensures prefix == (if index == 0 then Validation.GymCategory else EmptyString)
      ensures shownDate == (if index == 0 then date else EmptyString)
      ensures stationName == stations[index].name && sets == stations[index].numberOfSets
    {
      var station := stations[index];
      stationName := station.name;
      sets := station.numberOfSets;
      prefix := if index == 0 then Validation.GymCategory else EmptyString;
      shownDate := if index == 0 then date else EmptyString;
    }
  }
}
