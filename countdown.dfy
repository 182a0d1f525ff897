/**
 * The countdown loop of `run_countdown_timer_streamlit`. The wall clock is
 * replaced by a sequence of elapsed-second samples (one per loop iteration)
 * and every spoken or displayed output by an event appended to a log.
 */
module Countdown {
  import opened Rounding
  import opened Schedule
  import opened Sequences

  /** What the loop outputs, in order. */
  datatype Event =
    | Started(minutes: int)      // the start announcement, with the duration rounded up
    | Shown(seconds: int)        // the remaining-time display of one iteration
    | MinutesLeft(minutes: int)  // "<m> minutes remaining."
    | SecondsLeft(seconds: int)  // "<s> seconds remaining."
    | TimesUp                    // "Time's up! Please stop writing."

  /** The kinds of output a log is projected onto. */
  datatype Kind = MinuteCall | SecondCall | Display | Finish

  /** The value one event contributes to the projection of kind `k`, if any. */
  function PickOne(e: Event, k: Kind): seq<int>
  {
    match (e, k)
    case (MinutesLeft(m), MinuteCall) => [m]
    case (SecondsLeft(x), SecondCall) => [x]
    case (Shown(x), Display) => [x]
    case (TimesUp, Finish) => [0]  // "Time's up" carries no value: 0 only marks that it occurred
    case _ => []
  }

  /** The values of kind `k` in a log, in log order. */
  function Picked(log: seq<Event>, k: Kind): seq<int>
  {
    if log == [] then [] else Picked(log[..|log| - 1], k) + PickOne(log[|log| - 1], k)
  }

  lemma PickedSingleton(e: Event, k: Kind)
    ensures Picked([e], k) == PickOne(e, k)
  {
    assert [e][..0] == [];
  }

  /** What `Picked` selects from the events of one iteration: a display, then up to two announcements. */
  lemma PickedOfTick(e: Event, xs: seq<Event>, ys: seq<Event>, k: Kind)
    requires |xs| <= 1 && |ys| <= 1
    ensures Picked([e] + xs + ys, k) ==
      PickOne(e, k) + (if xs == [] then [] else PickOne(xs[0], k)) + (if ys == [] then [] else PickOne(ys[0], k))
  {
    PickedAppend([e] + xs, ys, k);
    PickedAppend([e], xs, k);
    PickedSingleton(e, k);
    if xs != [] {
      assert xs == [xs[0]];
      PickedSingleton(xs[0], k);
    }
    if ys != [] {
      assert ys == [ys[0]];
      PickedSingleton(ys[0], k);
    }
  }

  /** Selecting from a concatenation selects from each part. */
  lemma {:induction false} PickedAppend(a: seq<Event>, b: seq<Event>, k: Kind)
    ensures Picked(a + b, k) == Picked(a, k) + Picked(b, k)
    decreases |b|
  {
    if b != [] {
      var b' := b[..|b| - 1];
      assert (a + b)[..|a + b| - 1] == a + b';
      assert (a + b)[|a + b| - 1] == b[|b| - 1];
      PickedAppend(a, b', k);
    } else {
      assert a + b == a;
    }
  }

  /** `total_seconds = int(total_duration_minutes * 60)`. */
  function TotalSeconds(durationMinutes: real): (s: int)
    ensures durationMinutes >= 0.0 ==> 0 <= s && s as real <= durationMinutes * 60.0 < s as real + 1.0
    ensures durationMinutes <= 0.0 ==> s <= 0
  {
    TruncToInt(durationMinutes * 60.0)
  }

  /** `max(0, remaining_seconds)`. */
  function Clamp(remaining: int): (shown: int)
    ensures shown >= 0 && shown >= remaining
    ensures shown == remaining || shown == 0
  {
    if remaining < 0 then 0 else remaining
  }

  /**
   * The variables the loop updates: `next_minute_announcement_index`,
   * `last_announced_minute`, `last_announced_second` and what is left of
   * `announcement_seconds_at_end`.
   */
  datatype Clock = Clock(nextMinuteIndex: nat, lastMinute: int, lastSecond: int, pendingSeconds: set<int>)

  /** The values the loop starts from. */
  const InitialClock: Clock := Clock(0, -1, -1, SecondMarks)

  /** What stays true of the loop variables from one iteration to the next. */
  predicate ClockValid(marks: seq<int>, c: Clock) {
    && c.nextMinuteIndex <= |marks|
    && c.pendingSeconds <= SecondMarks
    && c.lastSecond !in c.pendingSeconds
  }

  /** The guard of the minute announcement (lines 116-118). */
  predicate MinuteDue(marks: seq<int>, c: Clock, remaining: int) {
    && remaining > 0
    && c.nextMinuteIndex < |marks|
    && CeilDiv(remaining, 60) <= marks[c.nextMinuteIndex]
    && CeilDiv(remaining, 60) != c.lastMinute
  }

  /** The guard of the second-mark announcement (line 123). */
  predicate SecondDue(c: Clock, remaining: int) {
    remaining > 0 && remaining in c.pendingSeconds && remaining != c.lastSecond
  }

  datatype TickResult = TickResult(clock: Clock, events: seq<Event>, stop: bool)

  /** Lines 116-121: announce the mark the index points at and move the index on, when due. */
  function MinuteStep(marks: seq<int>, c: Clock, remaining: int): (r: (Clock, seq<Event>))
    // at most one announcement, and the index moves on by one exactly when there is one
    ensures |r.1| <= 1 && r.0.nextMinuteIndex == c.nextMinuteIndex + |r.1|
    // what is announced is the schedule mark the index pointed at
    ensures r.1 != [] ==> c.nextMinuteIndex < |marks| && r.1 == [MinutesLeft(marks[c.nextMinuteIndex])]
    // the second-mark state is not touched
    ensures r.0.lastSecond == c.lastSecond && r.0.pendingSeconds == c.pendingSeconds
    ensures ClockValid(marks, c) ==> ClockValid(marks, r.0)
  {
    if MinuteDue(marks, c, remaining) then
      var index := c.nextMinuteIndex;
      (c.(lastMinute := CeilDiv(remaining, 60), nextMinuteIndex := index + 1), [MinutesLeft(marks[index])])
    else
      (c, [])
  }

  /** Lines 123-126: announce the remaining seconds when they are a pending mark, and drop that mark. */
  function SecondStep(c: Clock, remaining: int): (r: (Clock, seq<Event>))
    ensures |r.1| <= 1
    // only a still-pending mark equal to the remaining seconds is announced, and it stops being pending
    ensures forall e :: e in r.1 ==>
      e == SecondsLeft(remaining) && remaining in c.pendingSeconds && remaining !in r.0.pendingSeconds
    // marks only ever leave the pending set, and only when announced
    ensures r.0.pendingSeconds <= c.pendingSeconds
    ensures r.1 == [] ==> r.0 == c
    // the minute state is not touched
    ensures r.0.nextMinuteIndex == c.nextMinuteIndex && r.0.lastMinute == c.lastMinute
    // the announced mark is remembered as the last one, and that can never be pending
    ensures c.lastSecond !in c.pendingSeconds ==> r.0.lastSecond !in r.0.pendingSeconds
  {
    if SecondDue(c, remaining) then
      (c.(lastSecond := remaining, pendingSeconds := c.pendingSeconds - {remaining}), [SecondsLeft(remaining)])
    else
      (c, [])
  }

  /**
   * One iteration of the `while True` loop for the elapsed-second sample
   * `elapsed`: display the clamped remaining time, stop with "Time's up" once
   * nothing remains, otherwise fire at most one minute mark and at most one
   * second mark. What each iteration promises is stated by the lemmas below.
   */
  function Tick(totalSeconds: int, marks: seq<int>, c: Clock, elapsed: int): (r: TickResult)
    ensures |r.events| >= 1 && r.events[0] == Shown(Clamp(totalSeconds - elapsed))
    ensures r.stop <==> totalSeconds - elapsed <= 0
    ensures r.stop ==> r.events == [Shown(0), TimesUp] && r.clock == c
    ensures ClockValid(marks, c) ==> ClockValid(marks, r.clock)
  {
    var remaining := totalSeconds - elapsed;
    var shown := Shown(Clamp(remaining));
    if remaining <= 0 then
      TickResult(c, [shown, TimesUp], true)
    else
      var (c1, minuteEvents) := MinuteStep(marks, c, remaining);
      var (c2, secondEvents) := SecondStep(c1, remaining);
      TickResult(c2, [shown] + minuteEvents + secondEvents, false)
  }

  /** Every iteration shows the remaining time exactly once, clamped at zero; "Time's up" comes only with the stop. */
  lemma TickDisplayAndStop(totalSeconds: int, marks: seq<int>, c: Clock, elapsed: int)
    ensures Picked(Tick(totalSeconds, marks, c, elapsed).events, Display) == [Clamp(totalSeconds - elapsed)]
    ensures Picked(Tick(totalSeconds, marks, c, elapsed).events, Finish) ==
      if totalSeconds - elapsed <= 0 then [0] else []
  {
    var r := Tick(totalSeconds, marks, c, elapsed);
    var remaining := totalSeconds - elapsed;
    var shown := Shown(Clamp(remaining));
    if remaining <= 0 {
      assert r.events == [shown] + [TimesUp] + [];
      PickedOfTick(shown, [TimesUp], [], Display);
      PickedOfTick(shown, [TimesUp], [], Finish);
    } else {
      var (c1, minuteEvents) := MinuteStep(marks, c, remaining);
      var (c2, secondEvents) := SecondStep(c1, remaining);
      assert r.events == [shown] + minuteEvents + secondEvents;
      AnnouncementsNotPicked(minuteEvents, secondEvents);
      PickedOfTick(shown, minuteEvents, secondEvents, Display);
      PickedOfTick(shown, minuteEvents, secondEvents, Finish);
    }
  }

  /** Announcements are neither displays nor "Time's up". */
  lemma AnnouncementsNotPicked(xs: seq<Event>, ys: seq<Event>)
    requires |xs| <= 1 && |ys| <= 1
    requires forall e :: e in xs ==> e.MinutesLeft?
    requires forall e :: e in ys ==> e.SecondsLeft?
    ensures xs != [] ==> PickOne(xs[0], Display) == [] && PickOne(xs[0], Finish) == []
    ensures ys != [] ==> PickOne(ys[0], Display) == [] && PickOne(ys[0], Finish) == []
  {
    if xs != [] { assert xs[0] in xs; }
    if ys != [] { assert ys[0] in ys; }
  }

  /**
   * At most one minute announcement per iteration: when the guard holds, the
   * mark the index points at is announced and the index moves on by one;
   * otherwise nothing is announced and the minute state is unchanged.
   */
  lemma TickMinute(totalSeconds: int, marks: seq<int>, c: Clock, elapsed: int)
    ensures Picked(Tick(totalSeconds, marks, c, elapsed).events, MinuteCall) ==
      if MinuteDue(marks, c, totalSeconds - elapsed) then [marks[c.nextMinuteIndex]] else []
    ensures Tick(totalSeconds, marks, c, elapsed).clock.nextMinuteIndex ==
      c.nextMinuteIndex + if MinuteDue(marks, c, totalSeconds - elapsed) then 1 else 0
    ensures Tick(totalSeconds, marks, c, elapsed).clock.lastMinute ==
      if MinuteDue(marks, c, totalSeconds - elapsed) then CeilDiv(totalSeconds - elapsed, 60) else c.lastMinute
  {
    var r := Tick(totalSeconds, marks, c, elapsed);
    var remaining := totalSeconds - elapsed;
    var shown := Shown(Clamp(remaining));
    if remaining <= 0 {
      assert r.events == [shown] + [TimesUp] + [];
      PickedOfTick(shown, [TimesUp], [], MinuteCall);
    } else {
      var (c1, minuteEvents) := MinuteStep(marks, c, remaining);
      var (c2, secondEvents) := SecondStep(c1, remaining);
      assert r.events == [shown] + minuteEvents + secondEvents;
      PickedOfTick(shown, minuteEvents, secondEvents, MinuteCall);
    }
  }

  /**
   * A second mark is announced only in an iteration whose remaining seconds
   * equal it, only while it is still pending, and it is then dropped.
   */
  lemma TickSecond(totalSeconds: int, marks: seq<int>, c: Clock, elapsed: int)
    ensures Picked(Tick(totalSeconds, marks, c, elapsed).events, SecondCall) ==
      if SecondDue(c, totalSeconds - elapsed) then [totalSeconds - elapsed] else []
    ensures Tick(totalSeconds, marks, c, elapsed).clock.pendingSeconds ==
      if SecondDue(c, totalSeconds - elapsed) then c.pendingSeconds - {totalSeconds - elapsed} else c.pendingSeconds
    ensures Tick(totalSeconds, marks, c, elapsed).clock.lastSecond ==
      if SecondDue(c, totalSeconds - elapsed) then totalSeconds - elapsed else c.lastSecond
  {
    var r := Tick(totalSeconds, marks, c, elapsed);
    var remaining := totalSeconds - elapsed;
    var shown := Shown(Clamp(remaining));
    if remaining <= 0 {
      assert r.events == [shown] + [TimesUp] + [];
      PickedOfTick(shown, [TimesUp], [], SecondCall);
    } else {
      var (c1, minuteEvents) := MinuteStep(marks, c, remaining);
      assert SecondDue(c1, remaining) == SecondDue(c, remaining);
      var (c2, secondEvents) := SecondStep(c1, remaining);
      assert r.events == [shown] + minuteEvents + secondEvents;
      PickedOfTick(shown, minuteEvents, secondEvents, SecondCall);
    }
  }

  /**
   * The events of the loop started from `c` over `samples`, one sample per
   * iteration: each iteration's events, up to and including the one that
   * stops, or until the samples run out.
   */
  function RunFrom(totalSeconds: int, marks: seq<int>, c: Clock, samples: seq<int>): seq<Event>
    decreases |samples|
  {
    if |samples| == 0 then []
    else
      var r := Tick(totalSeconds, marks, c, samples[0]);
      if r.stop then r.events else r.events + RunFrom(totalSeconds, marks, r.clock, samples[1..])
  }

  /** Unrolls one iteration of RunFrom at position `n` of the samples. */
  lemma RunFromStep(totalSeconds: int, marks: seq<int>, c: Clock, samples: seq<int>, n: nat, elapsed: int)
    requires n < |samples| && elapsed == samples[n]
    ensures var r := Tick(totalSeconds, marks, c, elapsed);
      RunFrom(totalSeconds, marks, c, samples[n..]) ==
        r.events + if r.stop then [] else RunFrom(totalSeconds, marks, r.clock, samples[n + 1..])
  {
    var rest := samples[n..];
    assert rest[0] == elapsed;
    assert rest[1..] == samples[n + 1..];
    var r := Tick(totalSeconds, marks, c, elapsed);
    if r.stop {
      assert r.events + [] == r.events;
    }
  }

  /** One iteration moves its events from the part still to run onto the log. */
  lemma LogStep(totalSeconds: int, marks: seq<int>, samples: seq<int>, n: nat, elapsed: int,
                log: seq<Event>, c: Clock, whole: seq<Event>)
    requires n < |samples| && elapsed == samples[n]
    requires whole == log + RunFrom(totalSeconds, marks, c, samples[n..])
    ensures var r := Tick(totalSeconds, marks, c, elapsed);
      whole == (log + r.events) + if r.stop then [] else RunFrom(totalSeconds, marks, r.clock, samples[n + 1..])
  {
    RunFromStep(totalSeconds, marks, c, samples, n, elapsed);
  }

  // The loop invariant of RunCountdown, in four parts, each with the lemma that
  // one more iteration preserves it. `seen` holds the elapsed-second samples the
  // loop has consumed so far, in order.

  /** How far the loop got: it stops at the first sample at or past the deadline. */
  ghost predicate StopInvariant(totalSeconds: int, seen: seq<int>, log: seq<Event>, finished: bool) {
    && |log| > 0
    && (finished ==> 0 < |seen| && totalSeconds - seen[|seen| - 1] <= 0 && log[|log| - 1] == TimesUp)
    && (forall i :: 0 <= i < |seen| - 1 ==> totalSeconds - seen[i] > 0)
    && (!finished ==> forall i :: 0 <= i < |seen| ==> totalSeconds - seen[i] > 0)
    && Picked(log, Finish) == (if finished then [0] else [])
  }

  /** One display per iteration so far, each showing max(0, remaining). */
  ghost predicate DisplayInvariant(totalSeconds: int, seen: seq<int>, log: seq<Event>) {
    && |Picked(log, Display)| == |seen|
    && forall i :: 0 <= i < |seen| ==> Picked(log, Display)[i] == Clamp(totalSeconds - seen[i])
  }

  /** Some iteration had time left and at most `mark` minutes remaining, rounded up. */
  ghost predicate ReachedBy(totalSeconds: int, seen: seq<int>, mark: int) {
    exists i :: 0 <= i < |seen| && 0 < totalSeconds - seen[i] && CeilDiv(totalSeconds - seen[i], 60) <= mark
  }

  /** The minute announcements so far are the marks before the index, each announced once due. */
  ghost predicate MinuteInvariant(totalSeconds: int, marks: seq<int>, seen: seq<int>, log: seq<Event>, clock: Clock) {
    && clock.nextMinuteIndex <= |marks|
    && Picked(log, MinuteCall) == marks[..clock.nextMinuteIndex]
    && forall k :: 0 <= k < clock.nextMinuteIndex ==> ReachedBy(totalSeconds, seen, marks[k])
  }

  /** Some iteration had exactly `x` seconds remaining. */
  ghost predicate SeenRemaining(totalSeconds: int, seen: seq<int>, x: int) {
    exists i :: 0 <= i < |seen| && totalSeconds - seen[i] == x
  }

  /** The second marks announced so far are those no longer pending, which are those some iteration saw. */
  ghost predicate SecondInvariant(totalSeconds: int, seen: seq<int>, log: seq<Event>, clock: Clock) {
    && clock.pendingSeconds <= SecondMarks
    && clock.lastSecond !in clock.pendingSeconds
    && NoDuplicates(Picked(log, SecondCall))
    && (forall x :: x in Picked(log, SecondCall) <==> x in SecondMarks && x !in clock.pendingSeconds)
    && (forall x :: x in SecondMarks ==> (x !in clock.pendingSeconds <==> SeenRemaining(totalSeconds, seen, x)))
  }

  lemma StopStep(totalSeconds: int, seen: seq<int>, elapsed: int, log: seq<Event>, log': seq<Event>, stop: bool)
    requires StopInvariant(totalSeconds, seen, log, false)
    requires |log'| >= |log|
    requires stop <==> totalSeconds - elapsed <= 0
    requires stop ==> log'[|log'| - 1] == TimesUp
    requires Picked(log', Finish) == Picked(log, Finish) + (if stop then [0] else [])
    ensures StopInvariant(totalSeconds, seen + [elapsed], log', stop)
  {
  }

  lemma DisplayStep(totalSeconds: int, seen: seq<int>, elapsed: int, log: seq<Event>, log': seq<Event>)
    requires DisplayInvariant(totalSeconds, seen, log)
    requires Picked(log', Display) == Picked(log, Display) + [Clamp(totalSeconds - elapsed)]
    ensures DisplayInvariant(totalSeconds, seen + [elapsed], log')
  {
  }

  /** Seeing one more sample keeps every mark reached. */
  lemma ReachedByExtends(totalSeconds: int, seen: seq<int>, elapsed: int, mark: int)
    requires ReachedBy(totalSeconds, seen, mark)
    ensures ReachedBy(totalSeconds, seen + [elapsed], mark)
  {
    var i :| 0 <= i < |seen| && 0 < totalSeconds - seen[i] && CeilDiv(totalSeconds - seen[i], 60) <= mark;
    assert (seen + [elapsed])[i] == seen[i];
  }

  lemma MinuteStepPreserves(totalSeconds: int, marks: seq<int>, seen: seq<int>, elapsed: int,
                            log: seq<Event>, log': seq<Event>, clock: Clock, clock': Clock)
    requires MinuteInvariant(totalSeconds, marks, seen, log, clock)
    requires var due := MinuteDue(marks, clock, totalSeconds - elapsed);
      && Picked(log', MinuteCall) == Picked(log, MinuteCall) + (if due then [marks[clock.nextMinuteIndex]] else [])
      && clock'.nextMinuteIndex == clock.nextMinuteIndex + (if due then 1 else 0)
    ensures MinuteInvariant(totalSeconds, marks, seen + [elapsed], log', clock')
  {
    var index := clock.nextMinuteIndex;
    var due := MinuteDue(marks, clock, totalSeconds - elapsed);
    var seen' := seen + [elapsed];
    if due {
      assert marks[..index + 1] == marks[..index] + [marks[index]];
    }
    forall k | 0 <= k < clock'.nextMinuteIndex
      ensures ReachedBy(totalSeconds, seen', marks[k])
    {
      if k < index {
        ReachedByExtends(totalSeconds, seen, elapsed, marks[k]);
      } else {
        assert seen'[|seen|] == elapsed;
        assert 0 < totalSeconds - seen'[|seen|] && CeilDiv(totalSeconds - seen'[|seen|], 60) <= marks[k];
      }
    }
  }

  lemma SecondStepPreserves(totalSeconds: int, seen: seq<int>, elapsed: int,
                            log: seq<Event>, log': seq<Event>, clock: Clock, clock': Clock)
    requires SecondInvariant(totalSeconds, seen, log, clock)
    requires clock'.lastSecond == clock.lastSecond || clock'.lastSecond == totalSeconds - elapsed
    requires var remaining := totalSeconds - elapsed;
      && Picked(log', SecondCall) == Picked(log, SecondCall) + (if SecondDue(clock, remaining) then [remaining] else [])
      && clock'.pendingSeconds == if SecondDue(clock, remaining) then clock.pendingSeconds - {remaining} else clock.pendingSeconds
    ensures SecondInvariant(totalSeconds, seen + [elapsed], log', clock')
  {
    var remaining := totalSeconds - elapsed;
    var seen' := seen + [elapsed];
    var before := Picked(log, SecondCall);
    var after := Picked(log', SecondCall);
    if SecondDue(clock, remaining) {
      assert remaining !in before;
      forall i, j | 0 <= i < j < |after| ensures after[i] != after[j] {
        if j < |before| {
          assert after[i] == before[i] && after[j] == before[j];
        } else {
          assert after[i] == before[i];
        }
      }
    }
    forall x | x in SecondMarks
      ensures x !in clock'.pendingSeconds <==> SeenRemaining(totalSeconds, seen', x)
    {
      if SeenRemaining(totalSeconds, seen, x) {
        var i :| 0 <= i < |seen| && totalSeconds - seen[i] == x;
        assert seen'[i] == seen[i];
      }
      if remaining == x {
        assert seen'[|seen|] == elapsed;
      }
      if SeenRemaining(totalSeconds, seen', x) {
        var i :| 0 <= i < |seen'| && totalSeconds - seen'[i] == x;
        if i < |seen| {
          assert seen'[i] == seen[i];
          assert SeenRemaining(totalSeconds, seen, x);
        } else {
          assert remaining == x;
        }
      }
    }
  }

  /** What appending one iteration's events does to each projection of the log. */
  lemma TickStep(totalSeconds: int, marks: seq<int>, c: Clock, elapsed: int, log: seq<Event>)
    ensures var r := Tick(totalSeconds, marks, c, elapsed);
      && Picked(log + r.events, Display) == Picked(log, Display) + [Clamp(totalSeconds - elapsed)]
      && Picked(log + r.events, Finish) == Picked(log, Finish) + (if r.stop then [0] else [])
      && Picked(log + r.events, MinuteCall) == Picked(log, MinuteCall) + Picked(r.events, MinuteCall)
      && Picked(log + r.events, SecondCall) == Picked(log, SecondCall) + Picked(r.events, SecondCall)
  {
    var r := Tick(totalSeconds, marks, c, elapsed);
    PickedAppend(log, r.events, Display);
    PickedAppend(log, r.events, Finish);
    PickedAppend(log, r.events, MinuteCall);
    PickedAppend(log, r.events, SecondCall);
    TickDisplayAndStop(totalSeconds, marks, c, elapsed);
  }

  /** The four parts of the loop invariant together, with the clock's own invariant. */
  ghost predicate LoopInvariant(totalSeconds: int, marks: seq<int>, seen: seq<int>, log: seq<Event>, clock: Clock, finished: bool) {
    && ClockValid(marks, clock)
    && StopInvariant(totalSeconds, seen, log, finished)
    && DisplayInvariant(totalSeconds, seen, log)
    && MinuteInvariant(totalSeconds, marks, seen, log, clock)
    && SecondInvariant(totalSeconds, seen, log, clock)
  }

  /**
   * The loop invariant survives any step whose log and clock changes are those
   * the Tick lemmas describe.
   */
  lemma InvariantStep(totalSeconds: int, marks: seq<int>, seen: seq<int>, elapsed: int,
                      log: seq<Event>, clock: Clock, log': seq<Event>, clock': Clock, stop: bool)
    requires LoopInvariant(totalSeconds, marks, seen, log, clock, false)
    requires ClockValid(marks, clock')
    requires |log'| >= |log|
    requires stop <==> totalSeconds - elapsed <= 0
    requires stop ==> log'[|log'| - 1] == TimesUp
    requires Picked(log', Finish) == Picked(log, Finish) + (if stop then [0] else [])
    requires Picked(log', Display) == Picked(log, Display) + [Clamp(totalSeconds - elapsed)]
    requires var due := MinuteDue(marks, clock, totalSeconds - elapsed);
      && Picked(log', MinuteCall) == Picked(log, MinuteCall) + (if due then [marks[clock.nextMinuteIndex]] else [])
      && clock'.nextMinuteIndex == clock.nextMinuteIndex + (if due then 1 else 0)
    requires clock'.lastSecond == clock.lastSecond || clock'.lastSecond == totalSeconds - elapsed
    requires var remaining := totalSeconds - elapsed;
      && Picked(log', SecondCall) == Picked(log, SecondCall) + (if SecondDue(clock, remaining) then [remaining] else [])
      && clock'.pendingSeconds == if SecondDue(clock, remaining) then clock.pendingSeconds - {remaining} else clock.pendingSeconds
    ensures LoopInvariant(totalSeconds, marks, seen + [elapsed], log', clock', stop)
  {
    StopStep(totalSeconds, seen, elapsed, log, log', stop);
    DisplayStep(totalSeconds, seen, elapsed, log, log');
    MinuteStepPreserves(totalSeconds, marks, seen, elapsed, log, log', clock, clock');
    SecondStepPreserves(totalSeconds, seen, elapsed, log, log', clock, clock');
  }

  /** One more iteration preserves the whole loop invariant. */
  lemma LoopStep(totalSeconds: int, marks: seq<int>, seen: seq<int>, elapsed: int, log: seq<Event>, clock: Clock)
    requires LoopInvariant(totalSeconds, marks, seen, log, clock, false)
    ensures var r := Tick(totalSeconds, marks, clock, elapsed);
      LoopInvariant(totalSeconds, marks, seen + [elapsed], log + r.events, r.clock, r.stop)
  {
    var r := Tick(totalSeconds, marks, clock, elapsed);
    TickStep(totalSeconds, marks, clock, elapsed, log);
    TickMinute(totalSeconds, marks, clock, elapsed);
    TickSecond(totalSeconds, marks, clock, elapsed);
    InvariantStep(totalSeconds, marks, seen, elapsed, log, clock, log + r.events, r.clock, r.stop);
  }

  /**
   * `run_countdown_timer_streamlit` with the clock replaced by
   * `elapsedSamples`, the value of `int(time.time() - start_time)` at each
   * iteration. It returns the schedule it built, the event log, and how many
   * samples the loop consumed before it stopped or the samples ran out.
   */
  method RunCountdown(durationMinutes: real, elapsedSamples: seq<int>)
    returns (marks: seq<int>, log: seq<Event>, ticks: nat, finished: bool)
    // the schedule (lines 72-85)
    ensures StrictlyDescending(marks)
    ensures forall m :: m in marks <==> IsMinuteMark(durationMinutes, m)
    // the start announcement comes first
    ensures |log| > 0 && log[0] == Started(CeilToInt(durationMinutes))
    // the whole log is that of the reference definition
    ensures log == [Started(CeilToInt(durationMinutes))] + RunFrom(TotalSeconds(durationMinutes), marks, InitialClock, elapsedSamples)
    // the loop stops at the first sample at or past the deadline, and only there
    ensures ticks <= |elapsedSamples|
    ensures finished <==> exists i :: 0 <= i < |elapsedSamples| && TotalSeconds(durationMinutes) - elapsedSamples[i] <= 0
    ensures finished ==> 0 < ticks && TotalSeconds(durationMinutes) - elapsedSamples[ticks - 1] <= 0
    ensures forall i :: 0 <= i < ticks - 1 ==> TotalSeconds(durationMinutes) - elapsedSamples[i] > 0
    ensures !finished ==> ticks == |elapsedSamples|
    // exactly one "Time's up", as the very last event, when the loop stops; none otherwise
    ensures Picked(log, Finish) == if finished then [0] else []
    ensures finished ==> log[|log| - 1] == TimesUp
    // one display per iteration, showing max(0, remaining)
    ensures |Picked(log, Display)| == ticks
    ensures forall i :: 0 <= i < ticks ==> Picked(log, Display)[i] == Clamp(TotalSeconds(durationMinutes) - elapsedSamples[i])
    // the minute announcements are the schedule's first marks in order, each of them reached, at
    // some iteration of the run, by the rounded-up remaining minutes
    ensures Picked(log, MinuteCall) <= marks
    ensures forall k :: 0 <= k < |Picked(log, MinuteCall)| ==>
      ReachedBy(TotalSeconds(durationMinutes), elapsedSamples[..ticks], Picked(log, MinuteCall)[k])
    // each second mark is announced at most once, exactly when some iteration saw it remaining
    ensures NoDuplicates(Picked(log, SecondCall))
    ensures forall x :: x in Picked(log, SecondCall) <==>
      x in SecondMarks && exists i :: 0 <= i < ticks && TotalSeconds(durationMinutes) - elapsedSamples[i] == x
  {
    marks := BuildMinuteMarks(durationMinutes);
    var totalSeconds := TotalSeconds(durationMinutes);
    ghost var seen, clock;
    log, ticks, finished, seen, clock := RunTicks(totalSeconds, marks, CeilToInt(durationMinutes), elapsedSamples);
    RunConclusion(totalSeconds, marks, elapsedSamples, seen, log, clock, ticks, finished);
  }

  /**
   * The announcement that the timer started, then the `while True` loop of
   * `run_countdown_timer_streamlit`, one iteration per sample, until the
   * deadline passes or the samples run out. Besides the log it returns, as
   * ghosts, the samples it consumed and the final loop variables, which the
   * loop invariant relates to the log.
   */
  method RunTicks(totalSeconds: int, marks: seq<int>, startMinutes: int, elapsedSamples: seq<int>)
    returns (log: seq<Event>, ticks: nat, finished: bool, ghost seen: seq<int>, ghost clock: Clock)
    ensures log == [Started(startMinutes)] + RunFrom(totalSeconds, marks, InitialClock, elapsedSamples)
    ensures ticks == |seen| <= |elapsedSamples| && seen == elapsedSamples[..ticks]
    ensures !(ticks < |elapsedSamples| && !finished)
    ensures LoopInvariant(totalSeconds, marks, seen, log, clock, finished)
  {
    log := [Started(startMinutes)];
    var current := InitialClock;
    ticks, finished := 0, false;
    seen := [];
    ghost var whole := [Started(startMinutes)] + RunFrom(totalSeconds, marks, InitialClock, elapsedSamples);
    LoopStart(totalSeconds, marks, startMinutes);
    while ticks < |elapsedSamples| && !finished
      invariant ticks <= |elapsedSamples|
      invariant seen == elapsedSamples[..ticks]
      invariant LoopInvariant(totalSeconds, marks, seen, log, current, finished)
      invariant whole == log + if finished then [] else RunFrom(totalSeconds, marks, current, elapsedSamples[ticks..])
    {
      var elapsed := elapsedSamples[ticks];
      var out := Tick(totalSeconds, marks, current, elapsed);
      LoopStep(totalSeconds, marks, seen, elapsed, log, current);
      PrefixStep(elapsedSamples, seen, ticks);
      LogStep(totalSeconds, marks, elapsedSamples, ticks, elapsed, log, current, whole);
      log := log + out.events;
      current := out.clock;
      finished := out.stop;
      seen := seen + [elapsed];
      ticks := ticks + 1;
    }
    clock := current;
    if !finished {
      assert elapsedSamples[ticks..] == [];
    }
  }

  /** The loop invariant holds before the first iteration. */
  lemma LoopStart(totalSeconds: int, marks: seq<int>, startMinutes: int)
    ensures LoopInvariant(totalSeconds, marks, [], [Started(startMinutes)], InitialClock, false)
  {
    var log := [Started(startMinutes)];
    PickedSingleton(log[0], MinuteCall);
    PickedSingleton(log[0], SecondCall);
    PickedSingleton(log[0], Display);
    PickedSingleton(log[0], Finish);
  }

  /** Extending a prefix of `samples` by the next sample. */
  lemma PrefixStep(samples: seq<int>, seen: seq<int>, n: nat)
    requires n < |samples| && seen == samples[..n]
    ensures seen + [samples[n]] == samples[..n + 1]
  {
  }

  /** Where the loop stopped, in terms of all the samples. */
  lemma StopConclusion(totalSeconds: int, samples: seq<int>, seen: seq<int>, log: seq<Event>, ticks: nat, finished: bool)
    requires ticks == |seen| <= |samples| && seen == samples[..ticks]
    requires StopInvariant(totalSeconds, seen, log, finished)
    requires !(ticks < |samples| && !finished)
    ensures finished <==> exists i :: 0 <= i < |samples| && totalSeconds - samples[i] <= 0
    ensures finished ==> 0 < ticks && totalSeconds - samples[ticks - 1] <= 0
    ensures forall i :: 0 <= i < ticks - 1 ==> totalSeconds - samples[i] > 0
    ensures !finished ==> ticks == |samples|
  {
    assert forall i :: 0 <= i < ticks ==> seen[i] == samples[i];
    if finished {
      assert 0 <= ticks - 1 < |samples| && totalSeconds - samples[ticks - 1] <= 0;
    }
  }

  /** The displays, in terms of the samples. */
  lemma DisplayConclusion(totalSeconds: int, samples: seq<int>, seen: seq<int>, log: seq<Event>, ticks: nat)
    requires ticks == |seen| <= |samples| && seen == samples[..ticks]
    requires DisplayInvariant(totalSeconds, seen, log)
    ensures |Picked(log, Display)| == ticks
    ensures forall i :: 0 <= i < ticks ==> Picked(log, Display)[i] == Clamp(totalSeconds - samples[i])
  {
    assert forall i :: 0 <= i < ticks ==> seen[i] == samples[i];
  }

  /** The minute announcements are a prefix of the schedule, each of its marks reached. */
  lemma MinuteConclusion(totalSeconds: int, marks: seq<int>, seen: seq<int>, log: seq<Event>, clock: Clock)
    requires MinuteInvariant(totalSeconds, marks, seen, log, clock)
    ensures Picked(log, MinuteCall) <= marks
    ensures forall k :: 0 <= k < |Picked(log, MinuteCall)| ==> ReachedBy(totalSeconds, seen, Picked(log, MinuteCall)[k])
  {
    var minutes := Picked(log, MinuteCall);
    forall k | 0 <= k < |minutes| ensures ReachedBy(totalSeconds, seen, minutes[k]) {
      assert minutes[k] == marks[k];
    }
  }

  /** The second announcements, in terms of the samples. */
  lemma SecondConclusion(totalSeconds: int, samples: seq<int>, seen: seq<int>, log: seq<Event>, clock: Clock, ticks: nat)
    requires ticks == |seen| <= |samples| && seen == samples[..ticks]
    requires SecondInvariant(totalSeconds, seen, log, clock)
    ensures NoDuplicates(Picked(log, SecondCall))
    ensures forall x :: x in Picked(log, SecondCall) <==>
      x in SecondMarks && exists i :: 0 <= i < ticks && totalSeconds - samples[i] == x
  {
    forall x | x in SecondMarks
      ensures SeenRemaining(totalSeconds, seen, x) <==> exists i :: 0 <= i < ticks && totalSeconds - samples[i] == x
    {
      if SeenRemaining(totalSeconds, seen, x) {
        var i :| 0 <= i < |seen| && totalSeconds - seen[i] == x;
        assert totalSeconds - samples[i] == x;
      }
      if exists i :: 0 <= i < ticks && totalSeconds - samples[i] == x {
        var i :| 0 <= i < ticks && totalSeconds - samples[i] == x;
        assert totalSeconds - seen[i] == x;
      }
    }
  }

  /** What the four parts of the loop invariant give once the loop has stopped. */
  lemma RunConclusion(totalSeconds: int, marks: seq<int>, samples: seq<int>, seen: seq<int>, log: seq<Event>,
                      clock: Clock, ticks: nat, finished: bool)
    requires ticks == |seen| <= |samples| && seen == samples[..ticks]
    requires LoopInvariant(totalSeconds, marks, seen, log, clock, finished)
    requires !(ticks < |samples| && !finished)
    ensures |log| > 0
    ensures finished <==> exists i :: 0 <= i < |samples| && totalSeconds - samples[i] <= 0
    ensures finished ==> 0 < ticks && totalSeconds - samples[ticks - 1] <= 0
    ensures forall i :: 0 <= i < ticks - 1 ==> totalSeconds - samples[i] > 0
    ensures !finished ==> ticks == |samples|
    ensures Picked(log, Finish) == if finished then [0] else []
    ensures finished ==> log[|log| - 1] == TimesUp
    ensures |Picked(log, Display)| == ticks
    ensures forall i :: 0 <= i < ticks ==> Picked(log, Display)[i] == Clamp(totalSeconds - samples[i])
    ensures Picked(log, MinuteCall) <= marks
    ensures forall k :: 0 <= k < |Picked(log, MinuteCall)| ==>
      ReachedBy(totalSeconds, samples[..ticks], Picked(log, MinuteCall)[k])
    ensures NoDuplicates(Picked(log, SecondCall))
    ensures forall x :: x in Picked(log, SecondCall) <==>
      x in SecondMarks && exists i :: 0 <= i < ticks && totalSeconds - samples[i] == x
  {
    StopConclusion(totalSeconds, samples, seen, log, ticks, finished);
    DisplayConclusion(totalSeconds, samples, seen, log, ticks);
    MinuteConclusion(totalSeconds, marks, seen, log, clock);
    SecondConclusion(totalSeconds, samples, seen, log, clock, ticks);
  }

  /**
   * A run of 0.1 minutes (six seconds, schedule [1]), sampled at 0, 1, 6 and 9
   * seconds: it shows 6 and announces the minute mark, shows 5 and announces
   * the 5-second mark, then shows 0 and stops, leaving the last sample unused.
   */
  lemma ShortRunLog()
    ensures TotalSeconds(0.1) == 6 && CeilToInt(0.1) == 1
    ensures forall m :: IsMinuteMark(0.1, m) <==> m == 1
    ensures RunFrom(6, [1], InitialClock, [0, 1, 6, 9]) ==
      [Shown(6), MinutesLeft(1), Shown(5), SecondsLeft(5), Shown(0), TimesUp]
  {
    forall m ensures IsMinuteMark(0.1, m) <==> m == 1 {
      MinuteMarkClosedForm(0.1, m);
    }
    var samples := [0, 1, 6, 9];
    var c1 := Clock(1, 1, -1, SecondMarks);
    var c2 := Clock(1, 1, 5, SecondMarks - {5});
    assert Tick(6, [1], InitialClock, 0) == TickResult(c1, [Shown(6), MinutesLeft(1)], false);
    assert Tick(6, [1], c1, 1) == TickResult(c2, [Shown(5), SecondsLeft(5)], false);
    assert Tick(6, [1], c2, 6) == TickResult(c2, [Shown(0), TimesUp], true);
    assert samples[1..] == [1, 6, 9] && samples[1..][1..] == [6, 9];
  }

  /**
   * When the first sample is already at or past the deadline (as for a
   * duration of zero or less, which nothing rejects) the run shows 00:00:00,
   * says "Time's up" and ends, whatever the schedule and the later samples.
   */
  lemma DeadlineAtFirstSample(totalSeconds: int, marks: seq<int>, c: Clock, samples: seq<int>)
    requires |samples| > 0 && totalSeconds - samples[0] <= 0
    ensures RunFrom(totalSeconds, marks, c, samples) == [Shown(0), TimesUp]
  {
  }
}
