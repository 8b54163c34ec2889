/**
  * The two timetables the server builds when it starts: the normal one for
  * hours 8..23 and 0, and the all-day one, both with 5 minutes on and 5 off.
  */
module Tables {
  import opened Outcomes
  import opened Schedule
  import opened ScheduleProperties
  import opened IntendedSchedule

  const WorkTime := 5
  const SleepTime := 5

  /** `[i for i in range(8, 24)] + [0]` */
  function NormalHours(): seq<int>
  {
    PyRange(8, 24, 1) + [0]
  }

  /** `[i for i in range(24)]` */
  function AllDayHours(): seq<int>
  {
    PyRange(0, 24, 1)
  }

  /** The hours the normal timetable has: none of 1..7. */
  const NormalKeys: set<int> := {0} + set h | 8 <= h < 24
  const AllDayKeys: set<int> := set h | 0 <= h < 24

  /** Five minutes on and five off, from minute 0 of the hour. */
  const FiveOnFiveOff: seq<Interval> :=
    [Interval(0, 4), Interval(10, 14), Interval(20, 24), Interval(30, 34), Interval(40, 44), Interval(50, 54)]

  /** The timetable giving every one of `keys` the list FiveOnFiveOff. */
  function EveryHour(keys: set<int>): (r: Timetable)
  {
    map h | h in keys :: FiveOnFiveOff
  }

  /** `range(a, b)` holds exactly a, a + 1, ..., b - 1. */
  lemma UnitRange(a: int, b: int)
    requires a <= b
    ensures forall h :: h in PyRange(a, b, 1) <==> a <= h < b
  {
    var r := PyRange(a, b, 1);
    RangeProgression(a, b, 1);
    if a < b {
      assert r[|r| - 1] == a + (|r| - 1) * 1;
      assert |r| == b - a;
      forall h | a <= h < b ensures h in r {
        assert r[h - a] == a + (h - a) * 1;
      }
    }
  }

  lemma NormalHoursAreNormalKeys()
    ensures forall h :: h in NormalHours() <==> h in NormalKeys
  {
    UnitRange(8, 24);
  }

  lemma AllDayHoursAreAllDayKeys()
    ensures forall h :: h in AllDayHours() <==> h in AllDayKeys
  {
    UnitRange(0, 24);
  }

  /** One hour with 5 on and 5 off from phase 0 is FiveOnFiveOff. */
  lemma FiveOnFiveOffHour()
    ensures HourList(0, WorkTime, SleepTime) == Success(FiveOnFiveOff)
  {
    TenMinuteStarts();
    FiveMinuteIntervals();
    assert ClipLast(FiveOnFiveOff) == FiveOnFiveOff;
  }

  lemma TenMinuteStarts()
    ensures PyRange(0, 60, 10) == [0, 10, 20, 30, 40, 50]
  {
  }

  lemma FiveMinuteIntervals()
    ensures OnIntervals([0, 10, 20, 30, 40, 50], 5) == FiveOnFiveOff
  {
  }

  lemma TableOf(hours: seq<int>, keys: set<int>)
    requires forall h :: h in hours <==> h in keys
    ensures ScheduleSpec(hours, WorkTime, SleepTime) == Success(EveryHour(keys))
    ensures ScheduleWithReset(hours, WorkTime, SleepTime) == Success(EveryHour(keys))
  {
    DividingPeriodSchedule(hours, WorkTime, SleepTime);
    ScheduleKeys(hours, WorkTime, SleepTime);
    FiveOnFiveOffHour();
    AsWrittenAgreesWithIntended(hours, WorkTime, SleepTime);
    var m: Timetable := ScheduleSpec(hours, WorkTime, SleepTime).value;
    var fromInput := set h | h in hours;
    forall h | h in fromInput ensures h in keys {
      assert h in hours;
    }
    forall h | h in keys ensures h in fromInput {
      assert h in hours;
    }
    assert fromInput == keys;
    assert m.Keys == keys;
    forall h | h in m ensures m[h] == EveryHour(keys)[h] {
      assert m[h] == HourList(0, WorkTime, SleepTime).value;
    }
    assert m == EveryHour(keys);
  }

  /**
    * The normal timetable gives hours 0 and 8..23 FiveOnFiveOff and holds no
    * other hour; the reset the documentation promises would not change it.
    */
  lemma NormalTableIsFiveOnFiveOff()
    ensures ScheduleSpec(NormalHours(), WorkTime, SleepTime) == Success(EveryHour(NormalKeys))
    ensures ScheduleWithReset(NormalHours(), WorkTime, SleepTime) == Success(EveryHour(NormalKeys))
  {
    NormalHoursAreNormalKeys();
    TableOf(NormalHours(), NormalKeys);
  }

  /** The all-day timetable gives every hour 0..23 FiveOnFiveOff, with or without the reset. */
  lemma AllDayTableIsFiveOnFiveOff()
    ensures ScheduleSpec(AllDayHours(), WorkTime, SleepTime) == Success(EveryHour(AllDayKeys))
    ensures ScheduleWithReset(AllDayHours(), WorkTime, SleepTime) == Success(EveryHour(AllDayKeys))
  {
    AllDayHoursAreAllDayKeys();
    TableOf(AllDayHours(), AllDayKeys);
  }

  /** `create_schedule(hours, work_time, sleep_time)` for hours whose distinct values are `keys`. */
  method BuildTable(hours: seq<int>, keys: set<int>) returns (table: Timetable)
    requires forall h :: h in hours <==> h in keys
    ensures table == EveryHour(keys)
  {
    TableOf(hours, keys);
    var r := CreateSchedule(hours, WorkTime, SleepTime);
    table := r.value;
  }

  /** Builds `schedule` and `schedule_all_day` as the server does at start-up. */
  method BuildTables() returns (schedule: Timetable, scheduleAllDay: Timetable)
    ensures schedule == EveryHour(NormalKeys)
    ensures scheduleAllDay == EveryHour(AllDayKeys)
  {
    NormalHoursAreNormalKeys();
    AllDayHoursAreAllDayKeys();
    schedule := BuildTable(NormalHours(), NormalKeys);
    scheduleAllDay := BuildTable(AllDayHours(), AllDayKeys);
  }
}
