# homefarm duty-cycle core in Dafny

This project models the scheduling core of the homefarm server (`server/main.py`).

**`create_schedule`** turns a list of active hours, a `work_time` and a `sleep_time` into a timetable. The timetable maps each hour to a list of inclusive on-intervals `(start, end)` in minutes. Within an hour:

- the starts run `start_minute, start_minute + step, ...` while they stay below 60, where `step = work_time + sleep_time`;
- the last interval is cut at minute 59;
- the phase carried to the next hour is `last_start + step - 60`.

**The two module-level timetables** are built with 5 minutes on and 5 off: `schedule` for hours 8..23 and 0, and `schedule_all_day` for every hour.

**The LED decision in `process`** uses the user's mode, the timetables and the current hour and minute. It sets `states["LED"]` to 1 or 0, or raises.

The model is split into modules:

- `Outcomes`: the Python exceptions that can escape the core (`ValueError`, `IndexError`, `KeyError`, `AttributeError`) and a `Result` type carrying them.
- `Sorting`: Python's `sorted` on the hour list. It is an insertion sort, proved to return the unique ascending permutation of its input.
- `Schedule`:
  - `range`, the list comprehension and the clip of one hour;
  - `CreateSchedule`, the loop of `create_schedule` written imperatively, as in the source. It includes the gap reset and the in-place replacement of the last tuple.
  - `CreateSchedule` is proved equal to `ScheduleSpec`. That declarative definition sorts the hours, computes one interval list per sorted position, and stores them in order in a map, so a later duplicate overwrites an earlier one.
- `ScheduleProperties`: what the schedule guarantees and where it raises, stated over `ScheduleSpec`.
- `IntendedSchedule`: the phase reset the docstring and comment of `create_schedule` describe, compared with the code as written (see Findings).
- `Tables`: the timetables built at import time.
- `LedDecision`: the decision of `process`, taken out of its file input and output. The mode, the hour and the minute are parameters.

Where the code does something other than a reader might expect, the model follows the code:

- **An hour missing from the selected timetable.** One might expect the LED off. The code raises `KeyError` (`schedule_all_day[current_hour]` at server/main.py:126 and `schedule[current_hour]` at server/main.py:128), and so does `Decide`.
- **An unknown mode** raises `AttributeError`, as at server/main.py:130.
- **No input validation.** One might expect the builder to reject hours outside 0..23 or a non-positive work time. `create_schedule` validates nothing, so the model takes any integers. It raises only where Python would:
  - `ValueError` from `range` when the step is 0;
  - `IndexError` from `[-1]` when an hour's range is empty.
- **The gap reset.** The docstring and a comment of `create_schedule` call for a phase reset after a gap. The code does not reset; see Findings.

## Model

| member | source | states |
|---|---|---|
| Schedule.CreateSchedule | server/main.py:12-39 | The loop as written returns exactly `ScheduleSpec`: the same table, or the same exception. Its invariant says that what remains of the loop, from the current phase and dict, yields the final result. |
| Schedule.RunIsScheduleSpec | server/main.py:23-39 | Running the loop from the first sorted hour with phase 0 and an empty dict is the declarative schedule: sort, one list per position, stored in order. |
| Schedule.ClipLast | server/main.py:33-36 | Only the last interval changes. It keeps its start, and its end becomes 59 when it was 60 or more. |
| Sorting.SortHoursCorrect | server/main.py:23 | `sorted(work_hours)` is ascending and a permutation of its input, duplicates kept. |
| Sorting.SortedPermutationIsUnique | server/main.py:23 | Two ascending permutations of the same hours are equal, so any correct `sorted` gives the same list as `SortHours`. |
| Sorting.SortHoursElements | server/main.py:23 | Sorting keeps exactly the hours of the input. |
| ScheduleProperties.RangeProgression | server/main.py:27 | `range(start, stop, step)` with step > 0 is `start + k*step` for every k, with each element below stop. It is empty iff `start >= stop`, and the last element plus step reaches stop. |
| ScheduleProperties.RangeSteps | server/main.py:27 | The same range without multiplication: it begins at start, rises by step, and stays within `[start, stop)`. |
| ScheduleProperties.HourListIsProgression | server/main.py:27-36 | With a positive period, an hour succeeds iff its phase is below 60, and otherwise raises `IndexError`. The starts are `phase + j*step`, all below 60. Every end is `start + work - 1`, except the last end, which is `min(start + work - 1, 59)`. |
| ScheduleProperties.HourListSteps | server/main.py:27-36 | The same shape stated step by step: the first start is the phase, and each start is the previous one plus the period. |
| ScheduleProperties.HourListLastStart | server/main.py:27-34 | The last start is the phase plus (count - 1) periods. |
| ScheduleProperties.HourListErrors | server/main.py:27-33 | A zero period raises `ValueError`. Otherwise the hour raises `IndexError` iff the range is empty: phase >= 60 for a positive step, phase <= 60 for a negative one. No other error occurs. |
| ScheduleProperties.HourListFirst | server/main.py:27 | A successful hour begins at its phase, whatever the sign of the period. |
| ScheduleProperties.HourListWellFormed | server/main.py:27-36 | With phase >= 0, work > 0 and sleep >= 0, one hour's intervals are ordered, do not overlap, and lie in minutes 0..59. |
| ScheduleProperties.CarryBounds | server/main.py:38 | From a non-negative phase, the phase carried to the next hour lies in `[0, step)`. |
| ScheduleProperties.PhaseContinuity | server/main.py:24-38 | The first processed hour starts at the initial phase, which `ScheduleSpec` sets to 0. Each later hour starts at `last_start + step - 60` of the hour before it. |
| ScheduleProperties.PhasesInFirstPeriod | server/main.py:24-38 | With a period of 1..60 minutes, no hour raises and every hour's first start lies in `[0, step)`. |
| ScheduleProperties.PhasesWellFormed | server/main.py:24-38 | With work > 0 and sleep >= 0, every hour produced is well formed, whatever the period. |
| ScheduleProperties.LongPeriodPhases | server/main.py:27-38 | With a period above 60, each hour of a success has one interval, the first starts at the initial phase, and each later hour starts `step - 60` after the one before it. n hours succeed iff `start + (n-1)*(step-60) < 60`; otherwise `IndexError`. |
| ScheduleProperties.DividingPeriodCarry | server/main.py:27-38 | When the period divides 60, the hour at phase 0 hands phase 0 to the next hour. |
| ScheduleProperties.LastPeriodEndsAtSixty | server/main.py:38 | The arithmetic step behind `DividingPeriodCarry`: if q periods make 60 minutes and the a-th period is the last to start below 60, then it ends exactly at 60. |
| ScheduleProperties.DividingPeriodPhases | server/main.py:24-38 | When the period divides 60, every position gets the list of phase 0. |
| ScheduleProperties.AssignKeys | server/main.py:27 | Storing lists under hours in order yields the keys already present plus those hours. |
| ScheduleProperties.AssignLastOccurrence | server/main.py:27 | An hour's entry is the list stored at its last occurrence. |
| ScheduleProperties.ScheduleKeys | server/main.py:23-27 | The keys of a returned schedule are exactly the distinct input hours. No hours give an empty map. |
| ScheduleProperties.ScheduleEntry | server/main.py:23-27 | The entry of the hour at sorted position k is the list of its last position. A repeated hour keeps only its last occurrence. |
| ScheduleProperties.EntryIndex | server/main.py:23-27 | Every entry of the schedule is the list of some sorted position holding that hour. |
| ScheduleProperties.GapsDoNotMatter | server/main.py:29-38 | Two hour lists of the same length fail alike or succeed alike, and their k-th sorted hours get the same intervals, whatever the gaps between hours. |
| ScheduleProperties.ScheduleWellFormed | server/main.py:27-36 | With work > 0 and sleep >= 0, every hour of a returned schedule is ordered, non-overlapping, and inside minutes 0..59. |
| ScheduleProperties.ShortPeriodNeverRaises | server/main.py:12-39 | With a period of 1..60 minutes the function returns. Every hour's first interval starts within the first period. |
| ScheduleProperties.NonPositivePeriodRaises | server/main.py:27-33 | For any non-empty hour list, a zero period raises `ValueError` and a negative one raises `IndexError`. |
| ScheduleProperties.LongPeriodRaises | server/main.py:27-38 | With a period above 60, the schedule returns iff `(len(hours) - 1) * (step - 60) < 60`; otherwise it raises `IndexError`. |
| ScheduleProperties.DividingPeriodSchedule | server/main.py:24-38 | When the period divides 60, the function returns and every hour gets the list of phase 0. |
| IntendedSchedule.ResetPhasesStarts | server/main.py:28-31 | In the intended schedule, the first position starts at its phase, and every position right after a break starts at minute 0. |
| IntendedSchedule.ResetAfterGap | server/main.py:21-31 | In the intended schedule, an hour that occurs once and whose predecessor hour is absent starts at minute 0. |
| IntendedSchedule.AsWrittenIgnoresGap | server/main.py:29-38 | As written, hours [8, 10] with 5 on and 2 off give hour 10 a first start of 3, the carry from hour 8, although hour 10 follows a break. |
| IntendedSchedule.IntendedResetsAfterGap | server/main.py:28-31 | The intended schedule starts hour 10 of the same input at minute 0. |
| IntendedSchedule.ResetPhasesShortPeriod | server/main.py:27 | With a period of 1..60, no position of the intended schedule raises. |
| IntendedSchedule.IntendedShortPeriodNeverRaises | server/main.py:27 | With a period of 1..60, the intended schedule always returns. |
| IntendedSchedule.ResetPhasesWithoutGaps | server/main.py:29-31 | Without breaks between sorted hours, the reset changes no interval list. |
| IntendedSchedule.ResetPhasesDividingPeriod | server/main.py:29-38 | When the period divides 60, the reset changes no interval list. |
| IntendedSchedule.AsWrittenAgreesWithIntended | server/main.py:21-38 | The code as written and the intended schedule agree when the sorted hours have no break, or when the period divides 60. |
| Tables.UnitRange | server/main.py:44-47 | `range(a, b)` holds exactly the integers a..b-1. |
| Tables.NormalHoursAreNormalKeys | server/main.py:44 | `[i for i in range(8, 24)] + [0]` holds exactly hours 0 and 8..23. |
| Tables.AllDayHoursAreAllDayKeys | server/main.py:47 | `[i for i in range(24)]` holds exactly hours 0..23. |
| Tables.FiveOnFiveOffHour | server/main.py:27-36 | One hour with 5 on and 5 off from phase 0 is `[(0,4),(10,14),(20,24),(30,34),(40,44),(50,54)]`. |
| Tables.TableOf | server/main.py:42-49 | Any hour list built with 5 on and 5 off gives each of its distinct hours the 5-on/5-off list, with or without the reset. |
| Tables.NormalTableIsFiveOnFiveOff | server/main.py:42-46 | `schedule` holds exactly hours 0 and 8..23, each with the 5-on/5-off list. The documented reset would not change it. |
| Tables.AllDayTableIsFiveOnFiveOff | server/main.py:47-49 | `schedule_all_day` holds every hour 0..23 with the 5-on/5-off list. The documented reset would not change it. |
| Tables.BuildTable | server/main.py:44-49 | Calling `create_schedule` with 5 on and 5 off yields the 5-on/5-off table over the distinct hours. |
| Tables.BuildTables | server/main.py:42-49 | The two tables built at start-up are the 5-on/5-off tables over {0, 8..23} and over 0..23. |
| LedDecision.Covers | server/main.py:131 | The `any(...)` test holds iff some interval satisfies `start <= minute <= end`. |
| LedDecision.Lookup | server/main.py:126-128 | A dict lookup returns the entry iff the hour is a key, and otherwise raises `KeyError`. |
| LedDecision.Decide | server/main.py:124-136 | The decision is always 0 or 1, and `forcibly_off` gives 0. `AttributeError` arises iff the mode is none of the three. `KeyError` arises iff the hour is missing from the selected table. The result is 1 iff the minute lies in an interval of the selected hour, and 0 iff the mode is `forcibly_off` or the minute lies in no interval of the selected hour. No error other than `KeyError` and `AttributeError` arises. |
| LedDecision.Process | server/main.py:124-137 | The returned states are the required states with only "LED" set to the decision. An error of the decision propagates. |
| LedDecision.FiveOnFiveOffCovers | server/main.py:131 | Within a 5-on/5-off hour, the minute is covered iff `minute % 10 < 5`. |
| LedDecision.TablesDutyCycle | server/main.py:124-134 | With the server's tables, in `normal` or `neglect_hours` mode at an hour the selected table holds, the LED is 1 iff `minute % 10 < 5`. |
| LedDecision.NormalModeFailsAtNight | server/main.py:128 | In `normal` mode, hours 1..7 raise `KeyError`, because the table has no such hours. |
| LedDecision.NeglectHoursNeverFails | server/main.py:126 | In `neglect_hours` mode, every hour 0..23 gets an answer. |

## Left out

- File input and output: the reads of `states.json`, `required.json` and `custom.json`, and the write of `states.json`. The mode and the required states are parameters instead.
- `datetime.now()`: the hour and minute are parameters.
- The HTML page of `read_root`, the `/led` route, FastAPI and `uvicorn.run`. They are input and output with no logic of the core.
- `server/server.py`, `db/sql/models.py` and `db/tsdb/actions.py`. They are routing, exports and database clients that depend on modules not shown, so they are not part of this model.
- The insertion order of Python dicts is not modelled. A timetable is a Dafny `map`, and nothing in the core reads the order.
- Schedule.CreateSchedule: the replacement of the last tuple in the list the dict already holds (server/main.py:36) is modelled as storing the clipped list under the hour again. Aliasing between the dict entry and the local list is not modelled, and nothing else holds that list.
- LedDecision.Process: the states dict is modelled as `map<string, int>`. JSON values of other types in `required.json` are not modelled, and the required states are taken to be a dict.
- LedDecision.Decide: the mode is modelled as a string. A non-string JSON value for `custom` behaves like an unknown string and raises `AttributeError`, as in the source.
- The `Tuple[float, float]` annotation is not followed. All values are integers.

## Findings

| source | as written | input that shows it | evidently intended | confidence | as-written member | corrected member |
|---|---|---|---|---|---|---|
| server/main.py:28-38 | `start_minute = 0` after a break (lines 29-31) is overwritten at line 38 before anything reads it, so the phase never resets | `create_schedule([8, 10], 5, 2)`: hour 10 follows a break but starts at minute 3, the carry from hour 8 | The docstring (line 21) and comment (line 28) say the start minute resets after a break: the hour after a gap starts at minute 0 | not executed | IntendedSchedule.AsWrittenIgnoresGap | IntendedSchedule.ResetAfterGap |

The module tables do not expose the defect. Their period, 10 minutes, divides 60, so every carry is already 0. `AsWrittenAgreesWithIntended` proves that the two versions agree there, and `TableOf` proves that both give the same tables.
