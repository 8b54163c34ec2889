/**
  * The timetable builder `create_schedule` of server/main.py: for each active
  * hour, the on-intervals `(start, end)` of a duty cycle of `workTime` minutes
  * on and `sleepTime` minutes off, whose phase carries from one processed hour
  * to the next.
  */
module Schedule {
  import opened Outcomes
  import opened Sorting

  /** An inclusive on-window `start..end` (minutes) inside one hour. */
  datatype Interval = Interval(start: int, end: int)

  type Timetable = map<int, seq<Interval>>

  /** Python's `range(start, stop, step)` for a non-zero step, either sign. */
  function PyRange(start: int, stop: int, step: int): (r: seq<int>)
    requires step != 0
    decreases if step > 0 then stop - start else start - stop
  {
    if step > 0 then
      if start < stop then [start] + PyRange(start + step, stop, step) else []
    else
      if start > stop then [start] + PyRange(start + step, stop, step) else []
  }

  /** The list comprehension `[(i, i + work_time - 1) for i in starts]`. */
  function OnIntervals(starts: seq<int>, workTime: int): (r: seq<Interval>)
    ensures |r| == |starts|
  {
    if |starts| == 0 then []
    else [Interval(starts[0], starts[0] + workTime - 1)] + OnIntervals(starts[1..], workTime)
  }

  /** Replaces the last interval by `(start, 59)` when it ends at minute 60 or later. */
  function ClipLast(l: seq<Interval>): (r: seq<Interval>)
    requires |l| > 0
    ensures |r| == |l| && r[..|r| - 1] == l[..|l| - 1]
    ensures r[|r| - 1].start == l[|l| - 1].start
    ensures r[|r| - 1].end == if l[|l| - 1].end >= 60 then 59 else l[|l| - 1].end
  {
    var last := l[|l| - 1];
    if last.end >= 60 then l[..|l| - 1] + [Interval(last.start, 59)] else l
  }

  /**
    * The interval list one hour receives when its phase is `start`: ValueError
    * from `range` for a zero step, IndexError from `[-1]` when the range is empty.
    */
  function HourList(start: int, workTime: int, sleepTime: int): (r: Result<seq<Interval>>)
  {
    var step := sleepTime + workTime;
    if step == 0 then Failure(ValueError)
    else
      var l := OnIntervals(PyRange(start, 60, step), workTime);
      if |l| == 0 then Failure(IndexError) else Success(ClipLast(l))
  }

  /** The phase carried into the next hour: last start plus one period, less an hour. */
  function NextStart(l: seq<Interval>, step: int): (r: int)
    requires |l| > 0
  {
    l[|l| - 1].start + step - 60
  }

  /**
    * The interval lists of `n` consecutively processed hours, the first of which
    * has phase `start`. Which hours they are plays no part.
    */
  function PhaseLists(n: nat, start: int, workTime: int, sleepTime: int): (r: Result<seq<seq<Interval>>>)
    ensures r.Success? ==> |r.value| == n
  {
    if n == 0 then Success([])
    else
      match HourList(start, workTime, sleepTime)
      case Failure(e) => Failure(e)
      case Success(l) =>
        Prepend([l], PhaseLists(n - 1, NextStart(l, sleepTime + workTime), workTime, sleepTime))
  }

  /**
    * The dict filled by assigning `ls[k]` to `s[k]` for k = 0, 1, ... on top of
    * `acc`: a later occurrence of an hour overwrites an earlier one.
    */
  function Assign(acc: Timetable, s: seq<int>, ls: seq<seq<Interval>>): (r: Timetable)
    requires |s| == |ls|
    decreases |s|
  {
    if |s| == 0 then acc else Assign(acc[s[0] := ls[0]], s[1..], ls[1..])
  }

  /** What `create_schedule(hours, workTime, sleepTime)` returns or raises. */
  function ScheduleSpec(hours: seq<int>, workTime: int, sleepTime: int): (r: Result<Timetable>)
  {
    var s := SortHours(hours);
    match PhaseLists(|s|, 0, workTime, sleepTime)
    case Failure(e) => Failure(e)
    case Success(ls) => Success(Assign(map[], s, ls))
  }

  /**
    * The rest of the loop of `create_schedule` from position `i` of the sorted
    * hours `s`, with phase `start` and the dict built so far `acc`.
    */
  function Run(s: seq<int>, i: nat, start: int, workTime: int, sleepTime: int, acc: Timetable): (r: Result<Timetable>)
    requires i <= |s|
    decreases |s| - i
  {
    if i == |s| then Success(acc)
    else
      match HourList(start, workTime, sleepTime)
      case Failure(e) => Failure(e)
      case Success(l) => Run(s, i + 1, NextStart(l, sleepTime + workTime), workTime, sleepTime, acc[s[i] := l])
  }

  lemma {:induction false} RunFollowsPhases(s: seq<int>, i: nat, start: int, workTime: int, sleepTime: int, acc: Timetable)
    requires i <= |s|
    ensures PhaseLists(|s| - i, start, workTime, sleepTime).Failure? ==>
              Run(s, i, start, workTime, sleepTime, acc) == Failure(PhaseLists(|s| - i, start, workTime, sleepTime).error)
    ensures PhaseLists(|s| - i, start, workTime, sleepTime).Success? ==>
              Run(s, i, start, workTime, sleepTime, acc) == Success(Assign(acc, s[i..], PhaseLists(|s| - i, start, workTime, sleepTime).value))
    decreases |s| - i
  {
    if i < |s| {
      var h := HourList(start, workTime, sleepTime);
      if h.Success? {
        var next := NextStart(h.value, sleepTime + workTime);
        RunFollowsPhases(s, i + 1, next, workTime, sleepTime, acc[s[i] := h.value]);
        assert s[i..][1..] == s[i + 1..];
      }
    }
  }

  lemma RunIsScheduleSpec(hours: seq<int>, workTime: int, sleepTime: int)
    ensures Run(SortHours(hours), 0, 0, workTime, sleepTime, map[]) == ScheduleSpec(hours, workTime, sleepTime)
  {
    var s := SortHours(hours);
    RunFollowsPhases(s, 0, 0, workTime, sleepTime, map[]);
    assert s[0..] == s;
  }

  lemma UpdateTwice(m: Timetable, h: int, a: seq<Interval>, b: seq<Interval>)
    ensures m[h := a][h := b] == m[h := b]
  {
  }

  /**
    * One turn of the loop at position i with phase `start`: `intervals` is what
    * the comprehension builds; the turn raises IndexError when it is empty and
    * otherwise stores the clipped list under the hour and moves the phase on.
    */
  lemma LoopTurn(s: seq<int>, i: nat, start: int, workTime: int, sleepTime: int, acc: Timetable,
                 intervals: seq<Interval>)
    requires i < |s| && sleepTime + workTime != 0
    requires intervals == OnIntervals(PyRange(start, 60, sleepTime + workTime), workTime)
    ensures |intervals| == 0 ==> Run(s, i, start, workTime, sleepTime, acc) == Failure(IndexError)
    ensures |intervals| > 0 ==>
              Run(s, i, start, workTime, sleepTime, acc)
              == Run(s, i + 1, NextStart(ClipLast(intervals), sleepTime + workTime), workTime, sleepTime,
                     acc[s[i] := ClipLast(intervals)])
  {
  }

  /**
    * `create_schedule` step by step, including the gap reset of `startMinute`
    * that line 38 overwrites before anything reads it.
    */
  method CreateSchedule(workHours: seq<int>, workTime: int, sleepTime: int) returns (r: Result<Timetable>)
    ensures r == ScheduleSpec(workHours, workTime, sleepTime)
  {
    var hours := SortHours(workHours);
    var startMinute := 0;
    var schedule: Timetable := map[];
    ghost var total := Run(hours, 0, 0, workTime, sleepTime, map[]);
    var i := 0;
    while i < |hours|
      invariant 0 <= i <= |hours|
      invariant Run(hours, i, startMinute, workTime, sleepTime, schedule) == total
    {
      var hour := hours[i];
      ghost var phase, before := startMinute, schedule;
      var step := sleepTime + workTime;
      if step == 0 {
        r := Failure(ValueError);  // range() arg 3 must not be zero
        assert Run(hours, i, startMinute, workTime, sleepTime, schedule) == r;
        RunIsScheduleSpec(workHours, workTime, sleepTime);
        return;
      }
      var intervals := OnIntervals(PyRange(startMinute, 60, step), workTime);
      LoopTurn(hours, i, startMinute, workTime, sleepTime, schedule, intervals);
      schedule := schedule[hour := intervals];
      // The reset after a gap: overwritten below before anything reads it.
      startMinute := if i != 0 && hour - hours[i - 1] > 1 then 0 else startMinute;
      if |intervals| == 0 {
        r := Failure(IndexError);  // schedule[hour][-1] of an empty list
        RunIsScheduleSpec(workHours, workTime, sleepTime);
        return;
      }
      var lastFinMinute := intervals[|intervals| - 1].end;
      var lastStartMinute := intervals[|intervals| - 1].start;
      if lastFinMinute >= 60 {
        // The list stored in the dict is changed in place.
        schedule := schedule[hour := intervals[..|intervals| - 1] + [Interval(lastStartMinute, 59)]];
        UpdateTwice(before, hour, intervals, schedule[hour]);
      }
      startMinute := lastStartMinute + sleepTime + workTime - 60;
      assert startMinute == NextStart(ClipLast(intervals), sleepTime + workTime);
      assert schedule == before[hour := ClipLast(intervals)];
      i := i + 1;
    }
    r := Success(schedule);
    RunIsScheduleSpec(workHours, workTime, sleepTime);
  }
}
