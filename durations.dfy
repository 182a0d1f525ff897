/**
 * The list of distinct group durations that `main_streamlit` offers to the
 * timer: one total time per distinct value over the student groups, in
 * first-seen order, each remembered with the label of the first group
 * that produced it, then sorted ascending.
 */
module Durations {
  import opened Sequences
  import opened TimeModel

  /** A row of the student-group table: how many students and their additional-needs percentage. */
  datatype StudentGroup = StudentGroup(count: int, additionalPercent: real)

  /**
   * The table's percentage cell: "Standard" for a group without a positive
   * percentage, the percentage itself otherwise.
   */
  datatype Label = Standard | Extra(percent: real)

  function LabelOf(additionalPercent: real): (l: Label)
    ensures l.Standard? <==> additionalPercent <= 0.0
    ensures l.Extra? ==> l.percent == additionalPercent
  {
    if additionalPercent > 0.0 then Extra(additionalPercent) else Standard
  }

  /** Each group's allotted time, in table order. */
  function GroupTimes(exam: Exam, groups: seq<StudentGroup>): (times: seq<real>)
    ensures |times| == |groups|
    ensures forall i :: 0 <= i < |groups| ==> times[i] == GroupTime(exam, groups[i].additionalPercent)
  {
    if |groups| == 0 then []
    else GroupTimes(exam, groups[..|groups| - 1]) + [GroupTime(exam, groups[|groups| - 1].additionalPercent)]
  }

  /** Real durations, smallest first; the counterpart of `Schedule.StrictlyDescending` for the minute marks. */
  predicate StrictlyAscending(s: seq<real>) {
    forall i, j :: 0 <= i < j < |s| ==> s[i] < s[j]
  }

  /** `j` is the first position holding `t`. */
  predicate FirstAt(times: seq<real>, j: int, t: real) {
    0 <= j < |times| && times[j] == t && forall k :: 0 <= k < j ==> times[k] != t
  }

  /** Inserts `x` into an ascending list without it, keeping it ascending. */
  function Insert(sorted: seq<real>, x: real): (r: seq<real>)
    requires StrictlyAscending(sorted) && x !in sorted
    ensures StrictlyAscending(r)
    ensures multiset(r) == multiset(sorted) + multiset{x}
    ensures |r| == |sorted| + 1
  {
    if |sorted| == 0 then [x]
    else if x < sorted[0] then [x] + sorted
    else
      var rest := Insert(sorted[1..], x);
      HeadBelowRest(sorted, x, rest);
      assert sorted == [sorted[0]] + sorted[1..];
      [sorted[0]] + rest
  }

  /** Every value of the tail, and any larger `x`, lies above the head. */
  lemma HeadBelowRest(sorted: seq<real>, x: real, rest: seq<real>)
    requires StrictlyAscending(sorted) && |sorted| > 0 && sorted[0] < x
    requires multiset(rest) == multiset(sorted[1..]) + multiset{x}
    ensures forall k :: 0 <= k < |rest| ==> sorted[0] < rest[k]
  {
    forall k | 0 <= k < |rest| ensures sorted[0] < rest[k] {
      assert rest[k] in multiset(rest);
      if rest[k] != x {
        assert rest[k] in sorted[1..];
        var j :| 0 <= j < |sorted[1..]| && sorted[1..][j] == rest[k];
        assert sorted[j + 1] == rest[k];
      }
    }
  }

  /**
   * `all_distinct_times_for_timer.sort()` on a list without repeats: the
   * result is ascending and holds the same values.
   */
  method SortAscending(xs: seq<real>) returns (r: seq<real>)
    requires NoDuplicates(xs)
    ensures StrictlyAscending(r)
    ensures multiset(r) == multiset(xs)
  {
    r := [];
    for i := 0 to |xs|
      invariant StrictlyAscending(r)
      invariant multiset(r) == multiset(xs[..i])
    {
      assert xs[i] !in xs[..i];
      assert xs[i] !in multiset(r);
      assert xs[..i + 1] == xs[..i] + [xs[i]];
      r := Insert(r, xs[i]);
    }
    assert xs[..|xs|] == xs;
  }

  /**
   * Lines 214-237 of `main_streamlit`: each group's time is computed; a time not
   * seen before is recorded with its group's label and appended to the
   * list; finally the list is sorted. `labels` maps each duration to the
   * label of the first group that produced it.
   */
  method DistinctDurations(exam: Exam, groups: seq<StudentGroup>) returns (durations: seq<real>, labels: map<real, Label>)
    ensures StrictlyAscending(durations)
    ensures forall t :: t in durations <==> t in GroupTimes(exam, groups)
    ensures forall t :: t in labels <==> t in durations
    ensures forall t :: t in labels ==>
      exists j :: FirstAt(GroupTimes(exam, groups), j, t) && labels[t] == LabelOf(groups[j].additionalPercent)
    ensures |durations| <= |groups|
  {
    ghost var times := GroupTimes(exam, groups);
    var distinct: seq<real> := [];
    labels := map[];
    for i := 0 to |groups|
      invariant NoDuplicates(distinct)
      invariant |distinct| <= i
      invariant forall t :: t in distinct <==> t in times[..i]
      invariant forall t :: t in labels <==> t in distinct
      invariant forall t :: t in labels ==>
        exists j :: 0 <= j < i && FirstAt(times, j, t) && labels[t] == LabelOf(groups[j].additionalPercent)
    {
      var total := GroupTime(exam, groups[i].additionalPercent);
      assert times[..i + 1] == times[..i] + [total];
      if total !in labels {
        assert FirstAt(times, i, total) by {
          forall k | 0 <= k < i ensures times[k] != total {
            assert times[k] in times[..i];
          }
        }
        labels := labels[total := LabelOf(groups[i].additionalPercent)];
        distinct := distinct + [total];
      }
    }
    assert times[..|groups|] == times;
    durations := SortAscending(distinct);
    forall t ensures t in durations <==> t in distinct {
      assert t in durations <==> t in multiset(durations);
      assert t in distinct <==> t in multiset(distinct);
    }
    assert |durations| == |multiset(durations)| == |distinct|;
  }

  /** A strictly ascending list is determined by the values it holds (as `Schedule.DescendingUnique` is for descending ones). */
  lemma {:induction false} AscendingUnique(a: seq<real>, b: seq<real>)
    requires StrictlyAscending(a) && StrictlyAscending(b)
    requires forall x :: x in a <==> x in b
    ensures a == b
    decreases |a|
  {
    if |b| > 0 {
      var hb := b[0];
      assert hb in b;
      assert hb in a;
    }
    if |a| > 0 {
      var ha := a[0];
      assert ha in a;
      assert ha in b;
      var hb := b[0];
      assert hb in b;
      assert ha == hb by {
        var i :| 0 <= i < |b| && b[i] == ha;
        var j :| 0 <= j < |a| && a[j] == hb;
        assert ha <= a[j] && hb <= b[i];
      }
      forall x ensures x in a[1..] <==> x in b[1..] {
        if x in a[1..] {
          var j :| 1 <= j < |a| && a[j] == x;
          assert x > a[0];
          assert x in b;
        }
        if x in b[1..] {
          var j :| 1 <= j < |b| && b[j] == x;
          assert x > b[0];
          assert x in a;
        }
      }
      AscendingUnique(a[1..], b[1..]);
    }
  }

  /** Two groups with the same percentage get one entry; the list comes out ascending. */
  method TwoGroupsOneDuration() returns (durations: seq<real>, labels: map<real, Label>)
    ensures durations == [60.0, 75.0]
    ensures labels.Keys == {60.0, 75.0}
    ensures labels[60.0] == Standard && labels[75.0] == Extra(25.0)
  {
    var exam := Exam(50.0, 10.0);
    var groups := [StudentGroup(3, 25.0), StudentGroup(5, 0.0), StudentGroup(2, 25.0)];
    durations, labels := DistinctDurations(exam, groups);
    assert GroupTime(exam, 25.0) == 75.0 && GroupTime(exam, 0.0) == 60.0;
    var times := GroupTimes(exam, groups);
    assert times == [75.0, 60.0, 75.0];
    AscendingUnique(durations, [60.0, 75.0]);
    assert 60.0 in labels && 75.0 in labels;
    var j :| FirstAt(times, j, 75.0) && labels[75.0] == LabelOf(groups[j].additionalPercent);
    assert times[0] == 75.0 && times[2] == 75.0;
    assert j == 0;
    var k :| FirstAt(times, k, 60.0) && labels[60.0] == LabelOf(groups[k].additionalPercent);
    assert times[0] != 60.0 && times[1] == 60.0;
    assert k == 1;
  }
}
