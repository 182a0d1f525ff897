/**
 * The announcement schedule built at the start of
 * `run_countdown_timer_streamlit`: a set of minute marks filled by two
 * loops and then listed in strictly descending order, plus the fixed set of
 * second marks announced in the last half minute.
 */
module Schedule {
  import opened Rounding

  /** The values the first loop keeps besides multiples of ten. */
  const FirstLoopMarks: seq<int> := [60, 30, 20, 15, 10, 5, 4, 3, 2, 1]

  /** The values the second loop adds whenever they do not exceed the duration. */
  const SecondLoopMarks: seq<int> := [30, 25, 20, 15, 10, 5, 4, 3, 2, 1]

  /** `announcement_seconds_at_end`. */
  const SecondMarks: set<int> := {30, 10, 5}

  /**
   * Which minutes end up in the schedule: those the first loop adds (from
   * `ceil(d)` down to 1, a multiple of ten or one of `FirstLoopMarks`) and
   * those the second loop adds (one of `SecondLoopMarks` not above `d`).
   */
  predicate IsMinuteMark(durationMinutes: real, m: int) {
    || (1 <= m <= CeilToInt(durationMinutes) && (m % 10 == 0 || m in FirstLoopMarks))
    || (m in SecondLoopMarks && m as real <= durationMinutes)
  }

  /** Integer minutes, largest first; `Durations.StrictlyAscending` is the ascending counterpart over reals. */
  predicate StrictlyDescending(s: seq<int>) {
    forall i, j :: 0 <= i < j < |s| ==> s[i] > s[j]
  }

  /** Every non-empty finite set of integers has a largest element. */
  lemma {:induction false} SetHasMax(s: set<int>) returns (top: int)
    requires s != {}
    ensures top in s && forall y :: y in s ==> y <= top
    decreases |s|
  {
    if forall y :: y !in s {
      assert false;
    }
    var x :| x in s;
    if s == {x} {
      top := x;
    } else {
      var below := SetHasMax(s - {x});
      top := if x < below then below else x;
      forall y | y in s ensures y <= top {
        if y != x { assert y in s - {x}; }
      }
    }
  }

  /** `sorted(..., reverse=True)` on a set: its elements, largest first, each once. */
  method SortDescending(s: set<int>) returns (r: seq<int>)
    ensures StrictlyDescending(r)
    ensures forall x :: x in r <==> x in s
    ensures |r| == |s|
  {
    r := [];
    var rest := s;
    while rest != {}
      invariant rest <= s
      invariant forall x :: x in r <==> x in s && x !in rest
      invariant StrictlyDescending(r)
      invariant forall i, y :: 0 <= i < |r| && y in rest ==> y < r[i]
      invariant |r| + |rest| == |s|
      decreases |rest|
    {
      ghost var top := SetHasMax(rest);
      var m :| m in rest && forall y :: y in rest ==> y <= m;
      r := r + [m];
      rest := rest - {m};
    }
  }

  /** Lines 72-85: the minute-mark list of a run lasting `durationMinutes`. */
  method BuildMinuteMarks(durationMinutes: real) returns (marks: seq<int>)
    ensures StrictlyDescending(marks)
    ensures forall m :: m in marks <==> IsMinuteMark(durationMinutes, m)
    ensures forall i :: 0 <= i < |marks| ==> 1 <= marks[i] <= CeilToInt(durationMinutes)
  {
    var top := CeilToInt(durationMinutes);
    var chosen: set<int> := {};
    var m := top;
    while m > 0
      invariant m <= top && (m < 0 ==> m == top)
      invariant forall k :: k in chosen <==> m < k <= top && (k % 10 == 0 || k in FirstLoopMarks)
    {
      if m % 10 == 0 || m in FirstLoopMarks {
        chosen := chosen + {m};
      }
      m := m - 1;
    }
    for i := 0 to |SecondLoopMarks|
      invariant forall k :: k in chosen <==>
        || (1 <= k <= top && (k % 10 == 0 || k in FirstLoopMarks))
        || (k in SecondLoopMarks[..i] && k as real <= durationMinutes)
    {
      var k := SecondLoopMarks[i];
      if k as real <= durationMinutes {
        chosen := chosen + {k};
      }
    }
    assert SecondLoopMarks[..|SecondLoopMarks|] == SecondLoopMarks;
    marks := SortDescending(set k | k in chosen && k > 0);
    forall i | 0 <= i < |marks| ensures 1 <= marks[i] <= top {
      var k := marks[i];
      assert k in marks;
      MinuteMarkBounds(durationMinutes, k);
    }
  }

  /** Every mark is a positive minute no later than the rounded-up duration. */
  lemma MinuteMarkBounds(durationMinutes: real, m: int)
    requires IsMinuteMark(durationMinutes, m)
    ensures 1 <= m <= CeilToInt(durationMinutes)
  {
  }

  /**
   * The schedule in closed form: every multiple of ten up to `ceil(d)`, the
   * minutes 15, 5, 4, 3, 2 and 1 up to `ceil(d)`, and 25 only when `d` is at
   * least 25 (the one mark that only the second loop contributes).
   */
  lemma MinuteMarkClosedForm(durationMinutes: real, m: int)
    ensures IsMinuteMark(durationMinutes, m) <==>
      1 <= m <= CeilToInt(durationMinutes)
      && (m % 10 == 0 || m in {15, 5, 4, 3, 2, 1} || (m == 25 && 25.0 <= durationMinutes))
  {
    var top := CeilToInt(durationMinutes);
    if m in SecondLoopMarks && m as real <= durationMinutes {
      assert m <= top;
    }
  }

  /** A strictly descending list is determined by the set of its elements. */
  lemma {:induction false} DescendingUnique(a: seq<int>, b: seq<int>)
    requires StrictlyDescending(a) && StrictlyDescending(b)
    requires forall x :: x in a <==> x in b
    ensures a == b
    decreases |a|
  {
    if |b| > 0 {
      var hb := b[0];
      assert hb in b;
      assert hb in a;
    }
    if |a| > 0 {
      var ha := a[0];
      assert ha in a;
      assert ha in b;
      var hb := b[0];
      assert hb in b;
      assert ha == hb by {
        var i :| 0 <= i < |b| && b[i] == ha;
        var j :| 0 <= j < |a| && a[j] == hb;
        assert ha >= a[j] && hb >= b[i];
      }
      forall x ensures x in a[1..] <==> x in b[1..] {
        if x in a[1..] {
          var j :| 1 <= j < |a| && a[j] == x;
          assert x < a[0];
          assert x in b;
        }
        if x in b[1..] {
          var j :| 1 <= j < |b| && b[j] == x;
          assert x < b[0];
          assert x in a;
        }
      }
      DescendingUnique(a[1..], b[1..]);
    }
  }

  /** The schedule of a 20-minute run: 20, 15, 10, 5, 4, 3, 2, 1 (each once, 10 not repeated). */
  method TwentyMinuteSchedule() returns (marks: seq<int>)
    ensures marks == [20, 15, 10, 5, 4, 3, 2, 1]
  {
    marks := BuildMinuteMarks(20.0);
    var expected := [20, 15, 10, 5, 4, 3, 2, 1];
    forall x ensures x in marks <==> x in expected {
      MinuteMarkClosedForm(20.0, x);
      if 1 <= x <= 20 && x % 10 == 0 {
        assert x == 10 || x == 20;
      }
    }
    DescendingUnique(marks, expected);
  }

  /** The schedule of a one-hour run: every ten minutes, then 25, 15, 5, 4, 3, 2, 1. */
  method HourSchedule() returns (marks: seq<int>)
    ensures marks == [60, 50, 40, 30, 25, 20, 15, 10, 5, 4, 3, 2, 1]
  {
    marks := BuildMinuteMarks(60.0);
    var expected := [60, 50, 40, 30, 25, 20, 15, 10, 5, 4, 3, 2, 1];
    forall x ensures x in marks <==> x in expected {
      MinuteMarkClosedForm(60.0, x);
      if 1 <= x <= 60 && x % 10 == 0 {
        assert x / 10 in {1, 2, 3, 4, 5, 6};
      }
    }
    DescendingUnique(marks, expected);
  }
}
