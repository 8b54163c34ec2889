/**
  * The phase reset the documentation of `create_schedule` describes: after a
  * break in the hours, the next hour starts again at minute 0.  The code as
  * written computes the reset and then overwrites it, so the reset never takes
  * effect; this module gives the intended schedule and compares the two.
  */
module IntendedSchedule {
  import opened Outcomes
  import opened Sorting
  import opened Schedule
  import opened ScheduleProperties

  /** The phase used at position i: 0 right after a break of more than one hour, else the carry. */
  function PhaseAt(s: seq<int>, i: int, carry: int): (r: int)
    requires 0 <= i < |s|
  {
    if i > 0 && s[i] - s[i - 1] > 1 then 0 else carry
  }

  /** The interval lists of positions i.. of the sorted hours when the reset takes effect. */
  function ResetPhases(s: seq<int>, i: nat, carry: int, workTime: int, sleepTime: int): (r: Result<seq<seq<Interval>>>)
    requires i <= |s|
    ensures r.Success? ==> |r.value| == |s| - i
    decreases |s| - i
  {
    if i == |s| then Success([])
    else
      match HourList(PhaseAt(s, i, carry), workTime, sleepTime)
      case Failure(e) => Failure(e)
      case Success(l) => Prepend([l], ResetPhases(s, i + 1, NextStart(l, workTime + sleepTime), workTime, sleepTime))
  }

  /** The schedule the documentation describes. */
  function ScheduleWithReset(hours: seq<int>, workTime: int, sleepTime: int): (r: Result<Timetable>)
  {
    var s := SortHours(hours);
    match ResetPhases(s, 0, 0, workTime, sleepTime)
    case Failure(e) => Failure(e)
    case Success(ls) => Success(Assign(map[], s, ls))
  }

  lemma {:induction false} ResetPhasesStarts(s: seq<int>, i: nat, carry: int, workTime: int, sleepTime: int)
    requires i <= |s|
    requires ResetPhases(s, i, carry, workTime, sleepTime).Success?
    ensures var ls := ResetPhases(s, i, carry, workTime, sleepTime).value;
            && (forall k :: 0 <= k < |ls| ==> |ls[k]| > 0)
            && (|ls| > 0 ==> ls[0][0].start == PhaseAt(s, i, carry))
            && (forall k :: 0 < k < |ls| ==> s[i + k] - s[i + k - 1] > 1 ==> ls[k][0].start == 0)
    decreases |s| - i
  {
    if i < |s| {
      var l := HourList(PhaseAt(s, i, carry), workTime, sleepTime).value;
      var next := NextStart(l, workTime + sleepTime);
      HourListFirst(PhaseAt(s, i, carry), workTime, sleepTime);
      ResetPhasesStarts(s, i + 1, next, workTime, sleepTime);
      var rest: seq<seq<Interval>> := ResetPhases(s, i + 1, next, workTime, sleepTime).value;
      var ls: seq<seq<Interval>> := ResetPhases(s, i, carry, workTime, sleepTime).value;
      assert ls == [l] + rest;
      forall k | 0 < k < |ls| && s[i + k] - s[i + k - 1] > 1 ensures ls[k][0].start == 0 {
        assert ls[k] == rest[k - 1];
        if k == 1 {
          assert rest[0][0].start == PhaseAt(s, i + 1, next);
        }
      }
    }
  }

  lemma {:induction false} TwoOccurrences(s: seq<int>, i: int, j: int)
    requires 0 <= i < j < |s| && s[i] == s[j]
    ensures multiset(s)[s[j]] >= 2
  {
    assert s == s[..j] + [s[j]] + s[j + 1..];
    assert s[i] in multiset(s[..j]);
  }

  /**
    * The documented promise, proved of the intended schedule: an hour that
    * occurs once and follows a break (its predecessor hour is not in the list)
    * starts at minute 0.
    */
  lemma ResetAfterGap(hours: seq<int>, workTime: int, sleepTime: int, h: int)
    requires ScheduleWithReset(hours, workTime, sleepTime).Success?
    requires multiset(hours)[h] == 1 && h - 1 !in hours
    ensures h in ScheduleWithReset(hours, workTime, sleepTime).value
    ensures |ScheduleWithReset(hours, workTime, sleepTime).value[h]| > 0
    ensures ScheduleWithReset(hours, workTime, sleepTime).value[h][0].start == 0
  {
    var s := SortHours(hours);
    var ls: seq<seq<Interval>> := ResetPhases(s, 0, 0, workTime, sleepTime).value;
    SortHoursCorrect(hours);
    SortHoursElements(hours);
    assert h in multiset(s);
    var k :| 0 <= k < |s| && s[k] == h;
    forall j | 0 <= j < |s| && j != k ensures s[j] != h {
      if s[j] == h {
        if j < k { TwoOccurrences(s, j, k); } else { TwoOccurrences(s, k, j); }
      }
    }
    AssignLastOccurrence(map[], s, ls, k);
    ResetPhasesStarts(s, 0, 0, workTime, sleepTime);
    if k > 0 {
      assert s[k - 1] <= s[k] && s[k - 1] != h && s[k - 1] != h - 1;
    }
  }

  /** 5 minutes on and 2 off from phase 0: starts 0, 7, ..., 56, so the next hour gets phase 3. */
  lemma FirstHourCarriesThree()
    ensures HourList(0, 5, 2).Success?
    ensures NextStart(HourList(0, 5, 2).value, 7) == 3
  {
    assert PyRange(0, 60, 7) == [0, 7, 14, 21, 28, 35, 42, 49, 56];
  }

  lemma SortEightTen()
    ensures SortHours([8, 10]) == [8, 10]
  {
    assert [8, 10][..1] == [8];
    assert SortHours([8]) == Insert(8, []) == [8];
  }

  /**
    * The code as written on hours 8 and 10 with 5 minutes on and 2 off: hour 10
    * follows a break, yet it starts at minute 3, the carry from hour 8.
    */
  lemma AsWrittenIgnoresGap()
    ensures ScheduleSpec([8, 10], 5, 2).Success?
    ensures 10 in ScheduleSpec([8, 10], 5, 2).value
    ensures |ScheduleSpec([8, 10], 5, 2).value[10]| > 0
    ensures ScheduleSpec([8, 10], 5, 2).value[10][0].start == 3
  {
    SortEightTen();
    FirstHourCarriesThree();
    ShortPeriodNeverRaises([8, 10], 5, 2);
    PhaseContinuity(2, 0, 5, 2);
    ScheduleEntry([8, 10], 5, 2, 1);
  }

  /** With a period of 1..60 minutes no position of the intended schedule raises. */
  lemma {:induction false} ResetPhasesShortPeriod(s: seq<int>, i: nat, carry: int, workTime: int, sleepTime: int)
    requires i <= |s| && 0 < workTime + sleepTime <= 60 && 0 <= carry < workTime + sleepTime
    ensures ResetPhases(s, i, carry, workTime, sleepTime).Success?
    decreases |s| - i
  {
    if i < |s| {
      var phase := PhaseAt(s, i, carry);
      HourListIsProgression(phase, workTime, sleepTime);
      CarryBounds(phase, workTime, sleepTime);
      var l := HourList(phase, workTime, sleepTime).value;
      ResetPhasesShortPeriod(s, i + 1, NextStart(l, workTime + sleepTime), workTime, sleepTime);
    }
  }

  /** The corrected schedule on hours 8 and 10 with 5 minutes on and 2 off: hour 10 starts at minute 0. */
  lemma IntendedResetsAfterGap()
    ensures ScheduleWithReset([8, 10], 5, 2).Success?
    ensures 10 in ScheduleWithReset([8, 10], 5, 2).value
    ensures |ScheduleWithReset([8, 10], 5, 2).value[10]| > 0
    ensures ScheduleWithReset([8, 10], 5, 2).value[10][0].start == 0
  {
    IntendedShortPeriodNeverRaises([8, 10], 5, 2);
    HourTenFollowsABreak();
    ResetAfterGap([8, 10], 5, 2, 10);
  }

  lemma HourTenFollowsABreak()
    ensures multiset([8, 10])[10] == 1 && 9 !in [8, 10]
  {
    assert multiset([8, 10]) == multiset{8, 10};
  }

  /** With a period of 1..60 minutes the intended schedule never raises. */
  lemma IntendedShortPeriodNeverRaises(hours: seq<int>, workTime: int, sleepTime: int)
    requires 0 < workTime + sleepTime <= 60
    ensures ScheduleWithReset(hours, workTime, sleepTime).Success?
  {
    ResetPhasesShortPeriod(SortHours(hours), 0, 0, workTime, sleepTime);
  }

  /** No two consecutive sorted hours are more than one hour apart. */
  predicate NoBreaks(s: seq<int>)
  {
    forall j :: 0 < j < |s| ==> s[j] - s[j - 1] <= 1
  }

  /** Without breaks between consecutive sorted hours the reset changes nothing. */
  lemma {:induction false} ResetPhasesWithoutGaps(s: seq<int>, i: nat, carry: int, workTime: int, sleepTime: int)
    requires i <= |s|
    requires NoBreaks(s)
    ensures ResetPhases(s, i, carry, workTime, sleepTime) == PhaseLists(|s| - i, carry, workTime, sleepTime)
    decreases |s| - i
  {
    if i < |s| {
      match HourList(carry, workTime, sleepTime)
      case Failure(e) =>
      case Success(l) =>
        ResetPhasesWithoutGaps(s, i + 1, NextStart(l, workTime + sleepTime), workTime, sleepTime);
    }
  }

  /** When the period divides 60 every carry is 0 already, so the reset changes nothing. */
  lemma {:induction false} ResetPhasesDividingPeriod(s: seq<int>, i: nat, workTime: int, sleepTime: int)
    requires i <= |s|
    requires 0 < workTime + sleepTime <= 60 && 60 % (workTime + sleepTime) == 0
    ensures ResetPhases(s, i, 0, workTime, sleepTime) == PhaseLists(|s| - i, 0, workTime, sleepTime)
    decreases |s| - i
  {
    if i < |s| {
      DividingPeriodCarry(workTime, sleepTime);
      ResetPhasesDividingPeriod(s, i + 1, workTime, sleepTime);
    }
  }

  /**
    * The code as written and the intended schedule agree when the sorted hours
    * have no breaks, or when the period divides 60.
    */
  lemma AsWrittenAgreesWithIntended(hours: seq<int>, workTime: int, sleepTime: int)
    requires NoBreaks(SortHours(hours))
             || (0 < workTime + sleepTime <= 60 && 60 % (workTime + sleepTime) == 0)
    ensures ScheduleSpec(hours, workTime, sleepTime) == ScheduleWithReset(hours, workTime, sleepTime)
  {
    var s := SortHours(hours);
    if 0 < workTime + sleepTime <= 60 && 60 % (workTime + sleepTime) == 0 {
      ResetPhasesDividingPeriod(s, 0, workTime, sleepTime);
    } else {
      ResetPhasesWithoutGaps(s, 0, 0, workTime, sleepTime);
    }
  }
}
