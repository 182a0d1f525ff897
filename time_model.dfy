/**
 * The time model of Timer.py: an exam has a base assessment time and a
 * reading time (both in minutes); a student group's allotted time is the
 * standard total extended by its additional-needs percentage.
 */
module TimeModel {
  import opened Wrappers

  /** The only failure of the time model: `ValueError("Time values cannot be negative.")`. */
  datatype ExamError = NegativeTime

  datatype Exam = Exam(baseAssessmentMinutes: real, readingMinutes: real)
  {
    /** What the constructor guarantees of every exam it lets through. */
    predicate Valid() {
      baseAssessmentMinutes >= 0.0 && readingMinutes >= 0.0
    }
  }

  /** `Exam.__init__`: rejects a negative base or reading time, stores both otherwise. */
  function NewExam(baseMinutes: real, readingMinutes: real): (r: Result<Exam, ExamError>)
    ensures r.Failure? <==> baseMinutes < 0.0 || readingMinutes < 0.0
    ensures r.Success? ==> r.value.Valid()
    ensures r.Success? ==> r.value.baseAssessmentMinutes == baseMinutes && r.value.readingMinutes == readingMinutes
  {
    if baseMinutes < 0.0 || readingMinutes < 0.0 then Failure(NegativeTime)
    else Success(Exam(baseMinutes, readingMinutes))
  }

  /** `Exam.get_total_standard_time`: base plus reading time. */
  function TotalStandardTime(exam: Exam): (t: real)
    ensures exam.Valid() ==> t >= exam.baseAssessmentMinutes && t >= exam.readingMinutes
    ensures t - exam.readingMinutes == exam.baseAssessmentMinutes
  {
    exam.baseAssessmentMinutes + exam.readingMinutes
  }

  /**
   * `calculate_group_time`: a positive percentage extends the standard total
   * by that fraction; zero or a negative percentage leaves it unchanged.
   */
  function GroupTime(exam: Exam, additionalPercent: real): (g: real)
    ensures additionalPercent <= 0.0 ==> g == TotalStandardTime(exam)
    ensures exam.Valid() ==> g >= TotalStandardTime(exam) >= 0.0
  {
    var standard := TotalStandardTime(exam);
    if additionalPercent > 0.0 then
      var factor := 1.0 + additionalPercent / 100.0;
      ProductMonotone(standard, 1.0, factor);
      standard * factor
    else standard
  }

  /** A successfully built exam has exactly base + reading as its standard time, and it is never negative. */
  lemma NewExamStandardTime(baseMinutes: real, readingMinutes: real)
    requires baseMinutes >= 0.0 && readingMinutes >= 0.0
    ensures NewExam(baseMinutes, readingMinutes).Success?
    ensures TotalStandardTime(NewExam(baseMinutes, readingMinutes).value) == baseMinutes + readingMinutes
    ensures TotalStandardTime(NewExam(baseMinutes, readingMinutes).value) >= baseMinutes
    ensures TotalStandardTime(NewExam(baseMinutes, readingMinutes).value) >= readingMinutes
  {
  }

  /** The two branches of `calculate_group_time`, stated in terms of the percentage. */
  lemma GroupTimeCases(exam: Exam, additionalPercent: real)
    ensures additionalPercent <= 0.0 ==> GroupTime(exam, additionalPercent) == TotalStandardTime(exam)
    ensures additionalPercent > 0.0 ==>
      GroupTime(exam, additionalPercent) == TotalStandardTime(exam) + TotalStandardTime(exam) * additionalPercent / 100.0
  {
  }

  /**
   * For a valid exam the group time never falls below the standard time, and
   * it equals the standard time exactly when no extension applies (the
   * percentage is not positive) or there is no time to extend.
   */
  lemma GroupTimeAtLeastStandard(exam: Exam, additionalPercent: real)
    requires exam.Valid()
    ensures GroupTime(exam, additionalPercent) >= TotalStandardTime(exam)
    ensures GroupTime(exam, additionalPercent) == TotalStandardTime(exam)
        <==> additionalPercent <= 0.0 || TotalStandardTime(exam) == 0.0
  {
    var standard := TotalStandardTime(exam);
    if additionalPercent > 0.0 {
      assert GroupTime(exam, additionalPercent) == standard + standard * (additionalPercent / 100.0);
      if standard > 0.0 {
        assert standard * (additionalPercent / 100.0) > 0.0;
      }
    }
  }

  /** A larger percentage never gives a group less time (for a valid exam). */
  lemma GroupTimeMonotone(exam: Exam, p: real, q: real)
    requires exam.Valid()
    requires p <= q
    ensures GroupTime(exam, p) <= GroupTime(exam, q)
  {
    var standard := TotalStandardTime(exam);
    GroupTimeAtLeastStandard(exam, q);
    if p > 0.0 {
      var fp, fq := 1.0 + p / 100.0, 1.0 + q / 100.0;
      ProductMonotone(standard, fp, fq);
      calc {
        GroupTime(exam, p);
        standard * fp;
      <= standard * fq;
        GroupTime(exam, q);
      }
    }
  }

  /** Scaling a non-negative amount by a larger factor gives no less. */
  lemma ProductMonotone(x: real, a: real, b: real)
    ensures x >= 0.0 && a <= b ==> x * a <= x * b
  {
    assert x * b - x * a == x * (b - a);
  }

  /** The app's default exam, 20 + 1 minutes (Timer.py:145-146): 25% extra gives 26.25 minutes, none gives 21. */
  lemma TwentyOneMinutesPlusQuarter()
    ensures NewExam(20.0, 1.0) == Success(Exam(20.0, 1.0))
    ensures GroupTime(Exam(20.0, 1.0), 25.0) == 26.25
    ensures GroupTime(Exam(20.0, 1.0), 0.0) == 21.0
  {
  }
}
