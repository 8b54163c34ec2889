/**
  * The LED decision of `process`: from the user's mode, the two timetables and
  * the current hour and minute, the state the Arduino's LED must take.  The
  * JSON files the handler reads and writes and the clock become parameters.
  */
module LedDecision {
  import opened Outcomes
  import opened Schedule
  import opened Tables

  /** `any(start <= minute <= end for (start, end) in intervals)` */
  function Covers(intervals: seq<Interval>, minute: int): (b: bool)
    ensures b <==> exists j :: 0 <= j < |intervals| && intervals[j].start <= minute <= intervals[j].end
  {
    if |intervals| == 0 then false
    else (intervals[0].start <= minute <= intervals[0].end) || Covers(intervals[1..], minute)
  }

  /** `table[hour]`: KeyError when the timetable has no entry for the hour. */
  function Lookup(table: Timetable, hour: int): (r: Result<seq<Interval>>)
    ensures r.Success? <==> hour in table
    ensures r.Success? ==> r.value == table[hour]
    ensures r.Failure? ==> r.error == KeyError
  {
    if hour in table then Success(table[hour]) else Failure(KeyError)
  }

  /**
    * The value `process` stores under "LED": 0 when forced off; otherwise 1
    * exactly when the minute lies in an interval of the hour's entry in the
    * timetable the mode selects.  An unknown mode raises AttributeError and an
    * hour missing from the selected timetable raises KeyError.
    */
  function Decide(schedule: Timetable, scheduleAllDay: Timetable, custom: string, hour: int, minute: int): (r: Result<int>)
    ensures r.Success? ==> r.value == 0 || r.value == 1
    ensures custom == "forcibly_off" ==> r == Success(0)
    ensures r == Failure(AttributeError) <==> custom !in {"forcibly_off", "neglect_hours", "normal"}
    ensures custom == "neglect_hours" ==> (r == Failure(KeyError) <==> hour !in scheduleAllDay)
    ensures custom == "normal" ==> (r == Failure(KeyError) <==> hour !in schedule)
    ensures r == Success(1) <==>
              || (custom == "neglect_hours" && hour in scheduleAllDay && Covers(scheduleAllDay[hour], minute))
              || (custom == "normal" && hour in schedule && Covers(schedule[hour], minute))
    ensures r == Success(0) <==>
              || custom == "forcibly_off"
              || (custom == "neglect_hours" && hour in scheduleAllDay && !Covers(scheduleAllDay[hour], minute))
              || (custom == "normal" && hour in schedule && !Covers(schedule[hour], minute))
    ensures r.Failure? ==> r.error == KeyError || r.error == AttributeError
  {
    if custom != "forcibly_off" then
      var hourly :=
        if custom == "neglect_hours" then Lookup(scheduleAllDay, hour)
        else if custom == "normal" then Lookup(schedule, hour)
        else Failure(AttributeError);
      match hourly
      case Failure(e) => Failure(e)
      case Success(intervals) => Success(if Covers(intervals, minute) then 1 else 0)
    else
      Success(0)
  }

  /**
    * The states `process` returns: the required states with "LED" set to the
    * decision, every other entry unchanged; an error of the decision is raised.
    */
  function Process(states: map<string, int>, schedule: Timetable, scheduleAllDay: Timetable,
                   custom: string, hour: int, minute: int): (r: Result<map<string, int>>)
    ensures r.Success? <==> Decide(schedule, scheduleAllDay, custom, hour, minute).Success?
    ensures r.Failure? ==> r.error == Decide(schedule, scheduleAllDay, custom, hour, minute).error
    ensures r.Success? ==>
              && r.value.Keys == states.Keys + {"LED"}
              && r.value["LED"] == Decide(schedule, scheduleAllDay, custom, hour, minute).value
              && (forall key :: key in states && key != "LED" ==> r.value[key] == states[key])
  {
    match Decide(schedule, scheduleAllDay, custom, hour, minute)
    case Failure(e) => Failure(e)
    case Success(led) => Success(states["LED" := led])
  }

  /** Within one hour of FiveOnFiveOff the LED is on exactly in the first five minutes of every ten. */
  lemma FiveOnFiveOffCovers(minute: int)
    requires 0 <= minute < 60
    ensures Covers(FiveOnFiveOff, minute) <==> minute % 10 < 5
  {
    if minute % 10 < 5 {
      var j := minute / 10;
      assert FiveOnFiveOff[j].start <= minute <= FiveOnFiveOff[j].end;
    }
  }

  /**
    * With the server's timetables, in normal mode or when the hours are
    * neglected, at an hour the selected timetable holds, the LED is on exactly
    * when the minute modulo 10 is below 5.
    */
  lemma TablesDutyCycle(custom: string, hour: int, minute: int)
    requires custom == "normal" || custom == "neglect_hours"
    requires 0 <= minute < 60
    requires hour in (if custom == "normal" then NormalKeys else AllDayKeys)
    ensures Decide(EveryHour(NormalKeys), EveryHour(AllDayKeys), custom, hour, minute)
            == Success(if minute % 10 < 5 then 1 else 0)
  {
    FiveOnFiveOffCovers(minute);
  }

  /**
    * In normal mode the timetable has no hours 1..7, so during the night the
    * handler raises KeyError instead of answering.
    */
  lemma NormalModeFailsAtNight(hour: int, minute: int)
    requires 1 <= hour <= 7
    ensures Decide(EveryHour(NormalKeys), EveryHour(AllDayKeys), "normal", hour, minute) == Failure(KeyError)
  {
    assert hour !in NormalKeys;
  }

  /** When the hours are neglected, every hour of the day gets an answer. */
  lemma NeglectHoursNeverFails(hour: int, minute: int)
    requires 0 <= hour < 24
    ensures Decide(EveryHour(NormalKeys), EveryHour(AllDayKeys), "neglect_hours", hour, minute).Success?
  {
    assert hour in AllDayKeys;
  }
}
