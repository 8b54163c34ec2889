/** What `create_schedule` guarantees, and where it raises, stated over ScheduleSpec. */
module ScheduleProperties {
  import opened Outcomes
  import opened Sorting
  import opened Schedule

  function Min(a: int, b: int): int
  {
    if a <= b then a else b
  }

  /** The intervals of one hour are ordered, disjoint and inside minutes 0..59. */
  predicate WellFormedHour(l: seq<Interval>)
  {
    && (forall j :: 0 <= j < |l| ==> 0 <= l[j].start <= l[j].end <= 59)
    && (forall j :: 0 <= j < |l| - 1 ==> l[j].end < l[j + 1].start)
  }

  // ---------------------------------------------------------------------------
  // One hour
  // ---------------------------------------------------------------------------

  /** `range(start, stop, step)` with a positive step is the progression start + k*step below stop. */
  lemma {:induction false} RangeProgression(start: int, stop: int, step: int)
    requires step > 0
    ensures |PyRange(start, stop, step)| == 0 <==> start >= stop
    ensures forall k :: 0 <= k < |PyRange(start, stop, step)| ==>
              PyRange(start, stop, step)[k] == start + k * step && PyRange(start, stop, step)[k] < stop
    ensures |PyRange(start, stop, step)| > 0 ==>
              PyRange(start, stop, step)[|PyRange(start, stop, step)| - 1] + step >= stop
    decreases stop - start
  {
    RangeSteps(start, stop, step);
    if start < stop {
      var r := PyRange(start, stop, step);
      var rest := PyRange(start + step, stop, step);
      RangeProgression(start + step, stop, step);
      assert r == [start] + rest;
      forall k | 0 < k < |r|
        ensures r[k] == start + k * step
      {
        assert r[k] == rest[k - 1] == start + step + (k - 1) * step;
      }
    }
  }

  /**
    * The same progression stated without multiplication: it begins at start and
    * rises by step. RangeProgression is the headline statement; this linear form
    * exists because proofs by induction over hours go through it cheaply.
    */
  lemma {:induction false} RangeSteps(start: int, stop: int, step: int)
    requires step > 0
    ensures |PyRange(start, stop, step)| == 0 <==> start >= stop
    ensures |PyRange(start, stop, step)| > 0 ==> PyRange(start, stop, step)[0] == start
    ensures |PyRange(start, stop, step)| > 1 ==> PyRange(start, stop, step)[1] == start + step
    ensures |PyRange(start, stop, step)| > 0 ==>
              PyRange(start, stop, step)[|PyRange(start, stop, step)| - 1] + step >= stop
    ensures forall k :: 0 <= k < |PyRange(start, stop, step)| ==>
              start <= PyRange(start, stop, step)[k] < stop
    ensures forall k :: 0 <= k < |PyRange(start, stop, step)| - 1 ==>
              PyRange(start, stop, step)[k + 1] == PyRange(start, stop, step)[k] + step
    decreases stop - start
  {
    if start < stop {
      RangeSteps(start + step, stop, step);
      assert PyRange(start, stop, step) == [start] + PyRange(start + step, stop, step);
    }
  }

  lemma {:induction false} OnIntervalsAt(starts: seq<int>, workTime: int, k: int)
    requires 0 <= k < |starts|
    ensures OnIntervals(starts, workTime)[k] == Interval(starts[k], starts[k] + workTime - 1)
  {
    if k > 0 {
      OnIntervalsAt(starts[1..], workTime, k - 1);
    }
  }

  /**
    * With a positive period, an hour whose phase is below 60 gets the starts
    * start, start + step, ... below 60, each interval lasting workTime minutes
    * except the last, cut at minute 59; a phase of 60 or more raises IndexError.
    */
  lemma HourListIsProgression(start: int, workTime: int, sleepTime: int)
    requires workTime + sleepTime > 0
    ensures HourList(start, workTime, sleepTime).Success? <==> start < 60
    ensures HourList(start, workTime, sleepTime).Failure? ==>
              HourList(start, workTime, sleepTime).error == IndexError
    ensures HourList(start, workTime, sleepTime).Success? ==>
              var l := HourList(start, workTime, sleepTime).value;
              var step := workTime + sleepTime;
              && |l| > 0
              && (forall j :: 0 <= j < |l| ==> l[j].start == start + j * step && l[j].start < 60)
              && (forall j :: 0 <= j < |l| - 1 ==> l[j].end == l[j].start + workTime - 1)
              && l[|l| - 1].end == Min(l[|l| - 1].start + workTime - 1, 59)
              && l[|l| - 1].start + step >= 60
  {
    var step := workTime + sleepTime;
    var starts := PyRange(start, 60, step);
    RangeProgression(start, 60, step);
    var raw := OnIntervals(starts, workTime);
    forall j | 0 <= j < |raw| ensures raw[j] == Interval(starts[j], starts[j] + workTime - 1) {
      OnIntervalsAt(starts, workTime, j);
    }
  }

  /** Where one hour raises: ValueError for a zero period, IndexError for an empty range. */
  lemma HourListErrors(start: int, workTime: int, sleepTime: int)
    ensures workTime + sleepTime == 0 ==> HourList(start, workTime, sleepTime) == Failure(ValueError)
    ensures workTime + sleepTime != 0 ==>
              (HourList(start, workTime, sleepTime) == Failure(IndexError) <==>
                 (workTime + sleepTime > 0 && start >= 60) || (workTime + sleepTime < 0 && start <= 60))
    ensures HourList(start, workTime, sleepTime).Failure? ==>
              HourList(start, workTime, sleepTime).error in {ValueError, IndexError}
  {
    var step := workTime + sleepTime;
    if step > 0 {
      HourListIsProgression(start, workTime, sleepTime);
    } else if step < 0 && start > 60 {
      assert PyRange(start, 60, step) == [start] + PyRange(start + step, 60, step);
    }
  }

  /**
    * One hour's starts begin at the phase, stay below 60 and rise by the period.
    * HourListIsProgression is the headline statement; this linear form exists
    * because the inductive proofs over successive hours go through it cheaply.
    */
  lemma HourListSteps(start: int, workTime: int, sleepTime: int)
    requires workTime + sleepTime > 0
    ensures HourList(start, workTime, sleepTime).Success? <==> start < 60
    ensures HourList(start, workTime, sleepTime).Failure? ==> HourList(start, workTime, sleepTime).error == IndexError
    ensures HourList(start, workTime, sleepTime).Success? ==>
            var l := HourList(start, workTime, sleepTime).value;
            && |l| > 0 && l[0].start == start
            && (|l| > 1 ==> l[1].start == start + workTime + sleepTime)
            && (forall j :: 0 <= j < |l| ==> start <= l[j].start < 60)
            && (forall j :: 0 <= j < |l| - 1 ==> l[j + 1].start == l[j].start + workTime + sleepTime)
            && (forall j :: 0 <= j < |l| - 1 ==> l[j].end == l[j].start + workTime - 1)
            && l[|l| - 1].end == Min(l[|l| - 1].start + workTime - 1, 59)
            && l[|l| - 1].start + workTime + sleepTime >= 60
  {
    var starts := PyRange(start, 60, workTime + sleepTime);
    RangeSteps(start, 60, workTime + sleepTime);
    var raw := OnIntervals(starts, workTime);
    forall j | 0 <= j < |raw| ensures raw[j] == Interval(starts[j], starts[j] + workTime - 1) {
      OnIntervalsAt(starts, workTime, j);
    }
  }

  /** The last start of an hour, in closed form: the phase plus (count - 1) periods. */
  lemma HourListLastStart(start: int, workTime: int, sleepTime: int)
    requires workTime + sleepTime > 0 && start < 60
    ensures HourList(start, workTime, sleepTime).Success?
    ensures var l := HourList(start, workTime, sleepTime).value;
            l[|l| - 1].start == start + (|l| - 1) * (workTime + sleepTime)
  {
    var starts := PyRange(start, 60, workTime + sleepTime);
    RangeProgression(start, 60, workTime + sleepTime);
    OnIntervalsAt(starts, workTime, |starts| - 1);
  }

  /**
    * For a non-negative phase, work > 0 and sleep >= 0, one hour's intervals are
    * ordered, do not overlap and lie within minutes 0..59.
    */
  lemma HourListWellFormed(start: int, workTime: int, sleepTime: int)
    requires 0 <= start && workTime > 0 && sleepTime >= 0
    requires HourList(start, workTime, sleepTime).Success?
    ensures WellFormedHour(HourList(start, workTime, sleepTime).value)
  {
    HourListSteps(start, workTime, sleepTime);
    var l := HourList(start, workTime, sleepTime).value;
    forall j | 0 <= j < |l| ensures 0 <= l[j].start <= l[j].end <= 59 {
      if j < |l| - 1 {
        assert l[j + 1].start == l[j].start + workTime + sleepTime;
      }
    }
  }

  /** The phase carried to the next hour lies in [0, step) when this hour's phase is non-negative. */
  lemma CarryBounds(start: int, workTime: int, sleepTime: int)
    requires workTime + sleepTime > 0 && 0 <= start
    requires HourList(start, workTime, sleepTime).Success?
    ensures 0 <= NextStart(HourList(start, workTime, sleepTime).value, workTime + sleepTime) < workTime + sleepTime
  {
    HourListIsProgression(start, workTime, sleepTime);
  }

  // ---------------------------------------------------------------------------
  // Successive hours
  // ---------------------------------------------------------------------------

  /** A successful hour begins at its phase, whatever the sign of the period. */
  lemma HourListFirst(start: int, workTime: int, sleepTime: int)
    requires HourList(start, workTime, sleepTime).Success?
    ensures |HourList(start, workTime, sleepTime).value| > 0
    ensures HourList(start, workTime, sleepTime).value[0].start == start
  {
    var starts := PyRange(start, 60, workTime + sleepTime);
    assert starts[0] == start;
    OnIntervalsAt(starts, workTime, 0);
  }

  /**
    * The first processed hour starts at the initial phase and each later one at
    * the phase carried from the hour before it: last start + step - 60.
    */
  lemma {:induction false} PhaseContinuity(n: nat, start: int, workTime: int, sleepTime: int)
    requires PhaseLists(n, start, workTime, sleepTime).Success?
    ensures var ls := PhaseLists(n, start, workTime, sleepTime).value;
            && (forall k :: 0 <= k < n ==> |ls[k]| > 0)
            && (n > 0 ==> ls[0][0].start == start)
            && (forall k :: 0 <= k < n - 1 ==> ls[k + 1][0].start == NextStart(ls[k], workTime + sleepTime))
  {
    if n > 0 {
      var l := HourList(start, workTime, sleepTime).value;
      var next := NextStart(l, workTime + sleepTime);
      HourListFirst(start, workTime, sleepTime);
      PhaseContinuity(n - 1, next, workTime, sleepTime);
      var rest := PhaseLists(n - 1, next, workTime, sleepTime).value;
      assert PhaseLists(n, start, workTime, sleepTime).value == [l] + rest;
    }
  }

  /** With a period in 1..60 no hour ever raises and every phase stays in [0, step). */
  lemma {:induction false} PhasesInFirstPeriod(n: nat, start: int, workTime: int, sleepTime: int)
    requires 0 < workTime + sleepTime <= 60
    requires 0 <= start < workTime + sleepTime
    ensures PhaseLists(n, start, workTime, sleepTime).Success?
    ensures forall k :: 0 <= k < n ==>
              var l := PhaseLists(n, start, workTime, sleepTime).value[k];
              |l| > 0 && 0 <= l[0].start < workTime + sleepTime
  {
    if n > 0 {
      HourListIsProgression(start, workTime, sleepTime);
      CarryBounds(start, workTime, sleepTime);
      var l := HourList(start, workTime, sleepTime).value;
      var next := NextStart(l, workTime + sleepTime);
      PhasesInFirstPeriod(n - 1, next, workTime, sleepTime);
      var rest := PhaseLists(n - 1, next, workTime, sleepTime).value;
      assert PhaseLists(n, start, workTime, sleepTime).value == [l] + rest;
    }
  }

  /** With work > 0 and sleep >= 0 every hour that is produced is well formed, whatever the period. */
  lemma {:induction false} PhasesWellFormed(n: nat, start: int, workTime: int, sleepTime: int)
    requires 0 <= start && workTime > 0 && sleepTime >= 0
    requires PhaseLists(n, start, workTime, sleepTime).Success?
    ensures forall k :: 0 <= k < n ==> WellFormedHour(PhaseLists(n, start, workTime, sleepTime).value[k])
  {
    if n > 0 {
      HourListWellFormed(start, workTime, sleepTime);
      CarryBounds(start, workTime, sleepTime);
      var l := HourList(start, workTime, sleepTime).value;
      var next := NextStart(l, workTime + sleepTime);
      PhasesWellFormed(n - 1, next, workTime, sleepTime);
      var rest := PhaseLists(n - 1, next, workTime, sleepTime).value;
      assert PhaseLists(n, start, workTime, sleepTime).value == [l] + rest;
    }
  }

  /**
    * With a period above 60 every hour has one interval and the phase grows by
    * step - 60 per hour, so n hours succeed exactly when the last phase,
    * start + (n-1)*(step-60), is still below 60; otherwise IndexError.
    */
  lemma {:induction false} LongPeriodPhases(n: nat, start: int, workTime: int, sleepTime: int)
    requires workTime + sleepTime > 60 && 0 <= start
    ensures PhaseLists(n, start, workTime, sleepTime).Success? <==>
              n == 0 || start + (n - 1) * (workTime + sleepTime - 60) < 60
    ensures PhaseLists(n, start, workTime, sleepTime).Failure? ==>
              PhaseLists(n, start, workTime, sleepTime).error == IndexError
    ensures PhaseLists(n, start, workTime, sleepTime).Success? ==>
              var ls := PhaseLists(n, start, workTime, sleepTime).value;
              && (forall k :: 0 <= k < n ==> |ls[k]| == 1)
              && (n > 0 ==> ls[0][0].start == start)
              && (forall k :: 0 <= k < n - 1 ==> ls[k + 1][0].start == ls[k][0].start + workTime + sleepTime - 60)
  {
    var d := workTime + sleepTime - 60;
    if n > 0 {
      HourListSteps(start, workTime, sleepTime);
      LongPeriodArithmetic(n, d);
      if start < 60 {
        var l := HourList(start, workTime, sleepTime).value;
        assert |l| == 1;
        assert NextStart(l, workTime + sleepTime) == start + d;
        LongPeriodPhases(n - 1, start + d, workTime, sleepTime);
        if PhaseLists(n - 1, start + d, workTime, sleepTime).Success? {
          var rest: seq<seq<Interval>> := PhaseLists(n - 1, start + d, workTime, sleepTime).value;
          var ls: seq<seq<Interval>> := PhaseLists(n, start, workTime, sleepTime).value;
          assert ls == [l] + rest;
          assert n > 1 ==> ls[1][0].start == ls[0][0].start + d;
        }
      }
    }
  }

  lemma LongPeriodArithmetic(n: int, d: int)
    requires n > 0 && d > 0
    ensures (n - 1) * d >= 0
    ensures n > 1 ==> (n - 1) * d == d + (n - 2) * d
  {
    MulMonotone(0, n - 1, d);
  }

  /** When the period divides 60 the hour of phase 0 hands the next hour phase 0 again. */
  lemma DividingPeriodCarry(workTime: int, sleepTime: int)
    requires 0 < workTime + sleepTime <= 60 && 60 % (workTime + sleepTime) == 0
    ensures HourList(0, workTime, sleepTime).Success?
    ensures NextStart(HourList(0, workTime, sleepTime).value, workTime + sleepTime) == 0
  {
    var step := workTime + sleepTime;
    HourListSteps(0, workTime, sleepTime);
    HourListLastStart(0, workTime, sleepTime);
    var l := HourList(0, workTime, sleepTime).value;
    var a := |l| - 1;
    assert (60 / step) * step == 60;
    LastPeriodEndsAtSixty(a, 60 / step, step);
  }

  /**
    * The arithmetic step behind DividingPeriodCarry: if q periods make 60 minutes
    * and the a-th period starts below 60 but the next does not, a + 1 == q.
    */
  lemma LastPeriodEndsAtSixty(a: int, q: int, step: int)
    requires a >= 0 && step > 0 && q * step == 60
    requires a * step < 60 <= a * step + step
    ensures a * step + step == 60
  {
    if a + 1 < q {
      MulMonotone(a + 2, q, step);
      assert false;
    } else if a >= q {
      MulMonotone(q, a, step);
    }
    assert a + 1 == q;
    assert (a + 1) * step == a * step + step;
  }

  lemma {:induction false} MulMonotone(a: int, b: int, c: int)
    requires 0 <= a <= b && 0 <= c
    ensures a * c <= b * c
    decreases b - a
  {
    if a < b {
      MulMonotone(a + 1, b, c);
      assert (a + 1) * c == a * c + c;
    }
  }

  /** When the period divides 60, every carry is 0 and every hour gets the list of phase 0. */
  lemma {:induction false} DividingPeriodPhases(n: nat, workTime: int, sleepTime: int)
    requires 0 < workTime + sleepTime <= 60 && 60 % (workTime + sleepTime) == 0
    ensures PhaseLists(n, 0, workTime, sleepTime).Success?
    ensures forall k :: 0 <= k < n ==>
              PhaseLists(n, 0, workTime, sleepTime).value[k] == HourList(0, workTime, sleepTime).value
  {
    if n > 0 {
      DividingPeriodCarry(workTime, sleepTime);
      var l := HourList(0, workTime, sleepTime).value;
      DividingPeriodPhases(n - 1, workTime, sleepTime);
      assert PhaseLists(n, 0, workTime, sleepTime).value == [l] + PhaseLists(n - 1, 0, workTime, sleepTime).value;
    }
  }

  // ---------------------------------------------------------------------------
  // The dict
  // ---------------------------------------------------------------------------

  lemma {:induction false} AssignKeys(acc: Timetable, s: seq<int>, ls: seq<seq<Interval>>)
    requires |s| == |ls|
    ensures Assign(acc, s, ls).Keys == acc.Keys + (set h | h in s)
    decreases |s|
  {
    if |s| > 0 {
      AssignKeys(acc[s[0] := ls[0]], s[1..], ls[1..]);
      assert s == [s[0]] + s[1..];
    }
  }

  lemma {:induction false} AssignUntouched(acc: Timetable, s: seq<int>, ls: seq<seq<Interval>>, h: int)
    requires |s| == |ls| && h in acc && h !in s
    ensures h in Assign(acc, s, ls) && Assign(acc, s, ls)[h] == acc[h]
    decreases |s|
  {
    if |s| > 0 {
      AssignUntouched(acc[s[0] := ls[0]], s[1..], ls[1..], h);
    }
  }

  /** The entry of an hour is the list assigned at its last occurrence. */
  lemma {:induction false} AssignLastOccurrence(acc: Timetable, s: seq<int>, ls: seq<seq<Interval>>, k: int)
    requires |s| == |ls| && 0 <= k < |s|
    requires forall j :: k < j < |s| ==> s[j] != s[k]
    ensures s[k] in Assign(acc, s, ls) && Assign(acc, s, ls)[s[k]] == ls[k]
    decreases |s|
  {
    if k == 0 {
      assert s[0] !in s[1..];
      AssignUntouched(acc[s[0] := ls[0]], s[1..], ls[1..], s[0]);
    } else {
      AssignLastOccurrence(acc[s[0] := ls[0]], s[1..], ls[1..], k - 1);
    }
  }

  lemma {:induction false} AssignUniform(acc: Timetable, s: seq<int>, ls: seq<seq<Interval>>, v: seq<Interval>)
    requires |s| == |ls|
    requires forall h :: h in acc ==> acc[h] == v
    requires forall k :: 0 <= k < |ls| ==> ls[k] == v
    ensures forall h :: h in Assign(acc, s, ls) ==> Assign(acc, s, ls)[h] == v
    decreases |s|
  {
    if |s| > 0 {
      AssignUniform(acc[s[0] := ls[0]], s[1..], ls[1..], v);
    }
  }

  // ---------------------------------------------------------------------------
  // The whole schedule
  // ---------------------------------------------------------------------------

  /**
    * The keys of the schedule are exactly the distinct input hours; no hours
    * give an empty schedule.
    */
  lemma ScheduleKeys(hours: seq<int>, workTime: int, sleepTime: int)
    ensures |hours| == 0 ==> ScheduleSpec(hours, workTime, sleepTime) == Success(map[])
    ensures ScheduleSpec(hours, workTime, sleepTime).Success? ==>
              ScheduleSpec(hours, workTime, sleepTime).value.Keys == set h | h in hours
  {
    var s := SortHours(hours);
    SortHoursElements(hours);
    var r := PhaseLists(|s|, 0, workTime, sleepTime);
    if r.Success? {
      AssignKeys(map[], s, r.value);
      var fromSorted, fromInput := set h | h in s, set h | h in hours;
      forall h | h in fromSorted ensures h in fromInput {
        assert h in s;
      }
      forall h | h in fromInput ensures h in fromSorted {
        assert h in hours;
      }
      assert fromSorted == fromInput;
    }
  }

  /**
    * The entry of an hour is the list of its LAST position in sorted order: a
    * repeated hour keeps only what its last occurrence produced.
    */
  lemma ScheduleEntry(hours: seq<int>, workTime: int, sleepTime: int, k: int)
    requires ScheduleSpec(hours, workTime, sleepTime).Success?
    requires 0 <= k < |hours|
    requires k == |hours| - 1 || SortHours(hours)[k + 1] != SortHours(hours)[k]
    ensures SortHours(hours)[k] in ScheduleSpec(hours, workTime, sleepTime).value
    ensures ScheduleSpec(hours, workTime, sleepTime).value[SortHours(hours)[k]]
            == PhaseLists(|hours|, 0, workTime, sleepTime).value[k]
  {
    var s := SortHours(hours);
    SortHoursCorrect(hours);
    assert forall j :: k < j < |s| ==> s[j] != s[k] by {
      forall j | k < j < |s| ensures s[j] != s[k] {
        assert s[k] <= s[k + 1] <= s[j];
      }
    }
    AssignLastOccurrence(map[], s, PhaseLists(|s|, 0, workTime, sleepTime).value, k);
  }

  /**
    * The gap reset has no effect: two hour lists of the same length raise the
    * same error or both succeed, and their k-th hours in sorted order get the
    * same intervals, whatever the gaps between the hours.
    */
  lemma GapsDoNotMatter(a: seq<int>, b: seq<int>, workTime: int, sleepTime: int, k: int)
    requires |a| == |b| && 0 <= k < |a|
    requires k == |a| - 1 || (SortHours(a)[k + 1] != SortHours(a)[k] && SortHours(b)[k + 1] != SortHours(b)[k])
    ensures ScheduleSpec(a, workTime, sleepTime).Failure? ==> ScheduleSpec(b, workTime, sleepTime) == ScheduleSpec(a, workTime, sleepTime)
    ensures ScheduleSpec(a, workTime, sleepTime).Success? ==>
              && ScheduleSpec(b, workTime, sleepTime).Success?
              && SortHours(a)[k] in ScheduleSpec(a, workTime, sleepTime).value
              && SortHours(b)[k] in ScheduleSpec(b, workTime, sleepTime).value
              && ScheduleSpec(a, workTime, sleepTime).value[SortHours(a)[k]]
                 == ScheduleSpec(b, workTime, sleepTime).value[SortHours(b)[k]]
  {
    if ScheduleSpec(a, workTime, sleepTime).Success? {
      ScheduleEntry(a, workTime, sleepTime, k);
      ScheduleEntry(b, workTime, sleepTime, k);
    }
  }

  /** Every entry of the schedule is the list of some position in sorted order. */
  lemma EntryIndex(hours: seq<int>, workTime: int, sleepTime: int, h: int) returns (k: int)
    requires ScheduleSpec(hours, workTime, sleepTime).Success?
    requires h in ScheduleSpec(hours, workTime, sleepTime).value
    ensures 0 <= k < |hours| && SortHours(hours)[k] == h
    ensures ScheduleSpec(hours, workTime, sleepTime).value[h] == PhaseLists(|hours|, 0, workTime, sleepTime).value[k]
  {
    var s := SortHours(hours);
    var ls := PhaseLists(|s|, 0, workTime, sleepTime).value;
    AssignKeys(map[], s, ls);
    var i :| 0 <= i < |s| && s[i] == h;
    k := LastIndexOf(s, i);
    AssignLastOccurrence(map[], s, ls, k);
  }

  /**
    * With work > 0 and sleep >= 0, every hour of a schedule that is returned is
    * well formed: ordered, non-overlapping intervals within minutes 0..59.
    */
  lemma ScheduleWellFormed(hours: seq<int>, workTime: int, sleepTime: int)
    requires workTime > 0 && sleepTime >= 0
    requires ScheduleSpec(hours, workTime, sleepTime).Success?
    ensures forall h :: h in ScheduleSpec(hours, workTime, sleepTime).value ==>
              WellFormedHour(ScheduleSpec(hours, workTime, sleepTime).value[h])
  {
    var m: Timetable := ScheduleSpec(hours, workTime, sleepTime).value;
    PhasesWellFormed(|hours|, 0, workTime, sleepTime);
    forall h | h in m ensures WellFormedHour(m[h]) {
      var k := EntryIndex(hours, workTime, sleepTime, h);
    }
  }

  /**
    * With a period of 1..60 minutes create_schedule never raises, and every
    * hour's first interval starts within the first period of the hour.
    */
  lemma ShortPeriodNeverRaises(hours: seq<int>, workTime: int, sleepTime: int)
    requires 0 < workTime + sleepTime <= 60
    ensures ScheduleSpec(hours, workTime, sleepTime).Success?
    ensures forall h :: h in ScheduleSpec(hours, workTime, sleepTime).value ==>
              var l := ScheduleSpec(hours, workTime, sleepTime).value[h];
              |l| > 0 && 0 <= l[0].start < workTime + sleepTime
  {
    PhasesInFirstPeriod(|hours|, 0, workTime, sleepTime);
    var m: Timetable := ScheduleSpec(hours, workTime, sleepTime).value;
    forall h | h in m ensures |m[h]| > 0 && 0 <= m[h][0].start < workTime + sleepTime {
      var k := EntryIndex(hours, workTime, sleepTime, h);
    }
  }

  /** The position of the last occurrence of s[k] in s. */
  function LastIndexOf(s: seq<int>, k: int): (j: int)
    requires 0 <= k < |s|
    ensures k <= j < |s| && s[j] == s[k]
    ensures forall i :: j < i < |s| ==> s[i] != s[k]
    decreases |s| - k
  {
    if exists i :: k < i < |s| && s[i] == s[k] then
      var i :| k < i < |s| && s[i] == s[k];
      LastIndexOf(s, i)
    else k
  }

  /** A zero period raises ValueError and a negative one IndexError, for any non-empty hour list. */
  lemma NonPositivePeriodRaises(hours: seq<int>, workTime: int, sleepTime: int)
    requires |hours| > 0
    ensures workTime + sleepTime == 0 ==> ScheduleSpec(hours, workTime, sleepTime) == Failure(ValueError)
    ensures workTime + sleepTime < 0 ==> ScheduleSpec(hours, workTime, sleepTime) == Failure(IndexError)
  {
    HourListErrors(0, workTime, sleepTime);
  }

  /**
    * With a period above 60 the carried phase grows hour by hour, and the
    * schedule raises IndexError exactly when some hour's phase reaches 60.
    */
  lemma LongPeriodRaises(hours: seq<int>, workTime: int, sleepTime: int)
    requires workTime + sleepTime > 60
    ensures ScheduleSpec(hours, workTime, sleepTime).Success? <==>
              |hours| == 0 || (|hours| - 1) * (workTime + sleepTime - 60) < 60
    ensures ScheduleSpec(hours, workTime, sleepTime).Failure? ==>
              ScheduleSpec(hours, workTime, sleepTime).error == IndexError
  {
    LongPeriodPhases(|hours|, 0, workTime, sleepTime);
  }

  /** When the period divides 60 every hour of the schedule gets the list of phase 0. */
  lemma DividingPeriodSchedule(hours: seq<int>, workTime: int, sleepTime: int)
    requires 0 < workTime + sleepTime <= 60 && 60 % (workTime + sleepTime) == 0
    ensures ScheduleSpec(hours, workTime, sleepTime).Success?
    ensures forall h :: h in ScheduleSpec(hours, workTime, sleepTime).value ==>
              ScheduleSpec(hours, workTime, sleepTime).value[h] == HourList(0, workTime, sleepTime).value
  {
    var s := SortHours(hours);
    DividingPeriodPhases(|s|, workTime, sleepTime);
    AssignUniform(map[], s, PhaseLists(|s|, 0, workTime, sleepTime).value, HourList(0, workTime, sleepTime).value);
  }
}
