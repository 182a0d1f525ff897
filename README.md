# Physiotimer: a verified model of the exam timer

Physiotimer is a small Streamlit app for practical assessments. An exam has a
base assessment time and a reading time. Each student group gets that standard
time, extended by its additional-needs percentage. The app lists the distinct
group times and runs a spoken countdown for the chosen one.

This Dafny project models the deterministic core of `Timer.py`:

- **`TimeModel`**: `Exam`, with its validating constructor and its total
  standard time, and `calculate_group_time`. Durations are exact `real`s.
- **`ClockFormat`**: `format_time_hh_mm_ss`. A parser for the `HH:MM:SS` form
  is the partner the rendering is proved against.
- **`Schedule`**: the announcement schedule that
  `run_countdown_timer_streamlit` builds. Two loops fill a set of minute marks,
  and the set is then listed in strictly descending order. The fixed second
  marks are 30, 10 and 5.
- **`Countdown`**: the `while True` loop of the countdown.
  - The wall clock is replaced by a sequence of elapsed-second samples, one per
    iteration.
  - Every spoken or displayed output is replaced by an event appended to a log.
  - One iteration is the pure function `Tick`.
  - `RunFrom` is a reference definition of the whole run.
  - The method `RunTicks` runs the loop over the samples, with loop invariants.
  - `RunCountdown` connects the schedule, the loop and the reference.
- **`Durations`**: the list of distinct group durations in `main_streamlit`.
  Each time is kept once, together with the label of the first group that
  produced it, and the list is then sorted.
- **`Rounding`**, **`Sequences`** and **`Wrappers`**: Python's `int()` and
  `math.ceil` on reals, a no-duplicates predicate, and `Option`/`Result`.

Two places where the code accepts inputs an exam timer might be expected to
reject; the model follows the code:

- A negative additional-needs percentage is not an error. `calculate_group_time`
  treats it like zero (`GroupTimeCases`).
- A zero or negative timer duration is not rejected. `RunCountdown` has no
  precondition. The first iteration shows `00:00:00` and says "Time's up"
  (`DeadlineAtFirstSample`).

## Model

| member | source | states |
|---|---|---|
| TimeModel.NewExam | Timer.py:25-29 | construction fails exactly when the base or the reading time is negative; otherwise the exam is valid and stores both values unchanged |
| TimeModel.TotalStandardTime | Timer.py:31-33 | `get_total_standard_time`: the standard time less the reading time is the base time, and for a valid exam it is at least each of the two |
| TimeModel.GroupTime | Timer.py:35-49 | `calculate_group_time`: a percentage of zero or less gives exactly the standard time, and for a valid exam the result is never below the standard time, which is non-negative |
| TimeModel.NewExamStandardTime | Timer.py:25-33 | non-negative inputs always build an exam, whose standard time is exactly base + reading and at least each of them |
| TimeModel.GroupTimeCases | Timer.py:35-49 | a percentage of zero or less gives exactly the standard time; a positive percentage p gives standard + standard·p/100 |
| TimeModel.GroupTimeAtLeastStandard | Timer.py:35-49 | for a valid exam the group time is never below the standard time, and equals it exactly when the percentage is not positive or the standard time is zero |
| TimeModel.GroupTimeMonotone | Timer.py:35-49 | for a valid exam a larger percentage never gives less time |
| TimeModel.TwentyOneMinutesPlusQuarter | Timer.py:25-49 | 20 + 1 minutes builds an exam; 25% extra gives 26.25 minutes and 0% gives 21 |
| Rounding.TruncToInt | Timer.py:72 | `int(x)` truncates toward zero: the largest integer not above x for x >= 0, the smallest not below x for x < 0 |
| Rounding.CeilToInt | Timer.py:77 | `math.ceil(x)` is the least integer not below x |
| Rounding.CeilDiv | Timer.py:114 | `math.ceil(a / b)` for a positive divisor: (q-1)·b < a <= q·b |
| ClockFormat.Split | Timer.py:53-55 | hours·3600 + minutes·60 + seconds gives back the input; minutes and seconds lie in [0, 60); for a non-negative input the hours are non-negative and below 100 under 360000 seconds |
| ClockFormat.Pad2 | Timer.py:56 | `{:02d}` of a non-negative value is at least two digits, exactly two below 100, with no leading zero from 10 on |
| ClockFormat.FormatTime | Timer.py:51-56 | for a non-negative input: digits, then `:MM:SS` with two-digit fields at the end; exactly 8 characters below 360000 seconds, and from 100 hours on the hours carry no leading zero |
| ClockFormat.FormatParseRoundTrip | Timer.py:51-56 | parsing the rendering of any non-negative number of seconds gives that number back, hours unbounded |
| ClockFormat.FormatTimeInjective | Timer.py:51-56 | distinct non-negative second counts are rendered as distinct strings |
| ClockFormat.FormatExample | Timer.py:51-56 | 1575 seconds are rendered as `00:26:15` |
| Schedule.SortDescending | Timer.py:85 | `sorted(..., reverse=True)` of a set: strictly descending, the same elements, each once |
| Schedule.BuildMinuteMarks | Timer.py:72-85 | the minute-mark list is strictly descending, holds exactly the minutes the two loops add, and each is between 1 and ceil(duration) |
| Schedule.MinuteMarkBounds | Timer.py:77-85 | every minute mark is a positive minute no later than ceil(duration) |
| Schedule.MinuteMarkClosedForm | Timer.py:77-83 | m is a mark iff 1 <= m <= ceil(d) and m is a multiple of ten, one of 15, 5, 4, 3, 2, 1, or 25 with d >= 25 |
| Schedule.DescendingUnique | Timer.py:85 | a strictly descending list is determined by its elements |
| Schedule.TwentyMinuteSchedule | Timer.py:77-85 | the schedule of a 20-minute run is [20, 15, 10, 5, 4, 3, 2, 1] |
| Schedule.HourSchedule | Timer.py:77-85 | the schedule of a 60-minute run is [60, 50, 40, 30, 25, 20, 15, 10, 5, 4, 3, 2, 1] |
| Countdown.TotalSeconds | Timer.py:72 | `int(total_duration_minutes * 60)`: for a non-negative duration, the whole seconds it contains (the largest integer not above d·60); zero or less for a duration of zero or less |
| Countdown.Clamp | Timer.py:106 | the shown value is max(0, remaining): never negative, never below the remaining time, and one of the two |
| Countdown.PickedAppend | Timer.py:102-128 | projecting a log onto one kind of event distributes over concatenation |
| Countdown.MinuteStep | Timer.py:114-121 | at most one minute announcement, and the index moves on by one exactly when there is one; what is announced is the schedule mark the index pointed at; the second-mark state is untouched and the loop state's invariant is kept |
| Countdown.SecondStep | Timer.py:123-126 | at most one second announcement, only of a still-pending mark equal to the remaining seconds, which then stops being pending; the pending set only shrinks, nothing changes without an announcement, the minute state is untouched, and the last announced second is never pending |
| Countdown.Tick | Timer.py:103-126 | every iteration first shows max(0, remaining); it stops iff remaining <= 0, emitting only the display and "Time's up" and leaving the loop state alone; it keeps the loop state's invariant |
| Countdown.TickDisplayAndStop | Timer.py:104-112 | each iteration shows exactly one value, max(0, remaining), and emits "Time's up" exactly when remaining <= 0 |
| Countdown.TickMinute | Timer.py:114-121 | at most one minute announcement per iteration, the mark at the index, exactly when the guard `MinuteDue` of lines 116-118 holds: time remains, ceil(remaining/60) <= that mark and it differs from the last announced minute; the index advances by one exactly then, and never otherwise |
| Countdown.TickSecond | Timer.py:123-126 | a second mark is announced exactly when the guard `SecondDue` of line 123 holds (the remaining seconds equal a still-pending mark other than the last announced one); it is then recorded as the last announced second and removed from the pending set, and otherwise both stay as they were |
| Countdown.RunFromStep | Timer.py:102-128 | the reference run unrolls one iteration: its events, then the rest of the run unless this iteration stopped |
| Countdown.LoopStep | Timer.py:102-128 | one more iteration preserves the loop invariant: stop, displays, minute and second announcements in terms of the samples seen |
| Countdown.InvariantStep | Timer.py:102-128 | any step whose log and state changes are those of one iteration preserves the loop invariant |
| Countdown.RunTicks | Timer.py:94-128 | the loop's log is the start announcement followed by the reference run; it consumes the samples in order and stops only at the deadline or when they run out |
| Countdown.RunConclusion | Timer.py:102-128 | once the loop has ended, the invariant gives the run's outcome in terms of all the samples |
| Countdown.RunCountdown | Timer.py:66-128 | the schedule as above. The log starts with the start announcement and equals the reference run. The loop stops at the first sample at or past the deadline, with exactly one "Time's up", as the last event. It shows max(0, remaining) once per iteration. The minute announcements are the schedule's first marks in order, each of them reached, at some iteration of the run, by the rounded-up remaining minutes (the iteration of each announcement is stated per step by `TickMinute`). Each second mark is announced at most once, exactly when some iteration had it remaining |
| Countdown.ShortRunLog | Timer.py:72-128 | a 0.1-minute run is 6 seconds long with the schedule [1]; sampled at 0, 1, 6, 9 shows 6 and announces 1 minute, shows 5 and announces 5 seconds, then shows 0 and stops |
| Countdown.DeadlineAtFirstSample | Timer.py:104-112 | when the first sample is already at or past the deadline, the run is just `00:00:00` and "Time's up" |
| Durations.LabelOf | Timer.py:223 | the label is "Standard" exactly when the percentage is not positive, and otherwise the percentage itself |
| Durations.GroupTimes | Timer.py:220-221 | one time per group, in table order, each that group's `calculate_group_time` |
| Durations.Insert | Timer.py:237 | inserting a new value into an ascending list keeps it ascending and adds exactly that value |
| Durations.SortAscending | Timer.py:237 | `list.sort()` on a list without repeats: strictly ascending, the same values |
| Durations.DistinctDurations | Timer.py:214-237 | the durations are strictly ascending, are exactly the group times (so each appears once), are at most as many as the groups, and are exactly the keys of the label map, each mapped to the label of the first group with that time |
| Durations.AscendingUnique | Timer.py:237 | a strictly ascending list is determined by its values |
| Durations.TwoGroupsOneDuration | Timer.py:214-237 | groups at 25%, 0%, 25% on a 50 + 10 minute exam give the durations 60 and 75, labelled "Standard" and 25% |

## Left out

- Streamlit UI: the `st.*` calls, placeholders, forms, buttons, session state and reruns (Timer.py:89-91, 132-263). A Streamlit frame is not part of the logic.
- `time.time()` and `time.sleep(1)` (Timer.py:96, 103, 128). The clock is a supplied sequence of elapsed-second samples. The model also ends the run when the samples run out, which the real loop never does.
- `speak` and the text of the announcements (Timer.py:14-19, 93-94, 110-111, 119, 124). They are abstract events; the start announcement keeps only `math.ceil` of the duration.
- Countdown.Tick: the display event holds the shown number of seconds, not its `HH:MM:SS` text; `ClockFormat.FormatTime` models that rendering separately.
- Floating point: durations, percentages and the group-time product are exact reals, not IEEE doubles. So the model does not capture rounding in `d * 60`, or float equality in the duplicate check of the durations list.
- The float parse of the selected option string (Timer.py:251-252). It is UI text parsing.
- The labels' text formatting (`{:.0f}%`) and the option strings (Timer.py:223, 241). A label is modelled as `Standard` or the percentage itself.
- Durations.DistinctDurations: the first-seen order of the list before sorting is not stated, only the sorted result. The in-place `sort()` is modelled by its result on a sequence.
- The `threading` import (Timer.py:5) is unused.
