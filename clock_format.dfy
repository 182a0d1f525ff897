/**
 * `format_time_hh_mm_ss`: a whole number of seconds rendered as
 * `HH:MM:SS`, every field printed with Python's `{:02d}` (at least two
 * characters, zero-padded; hours are not capped at 24). A parser for the
 * rendered form is the partner against which the rendering is proved.
 */
module ClockFormat {
  import opened Wrappers

  /**
   * The three fields: `s // 3600`, `(s % 3600) // 60` and `s % 60`. For a
   * positive divisor Python's floor division and modulo agree with Dafny's
   * Euclidean ones, so negative inputs are covered as well.
   */
  function Split(totalSeconds: int): (f: (int, int, int))
    ensures f.0 * 3600 + f.1 * 60 + f.2 == totalSeconds
    ensures 0 <= f.1 < 60 && 0 <= f.2 < 60
    ensures totalSeconds >= 0 ==> 0 <= f.0 && f.0 * 3600 <= totalSeconds
    ensures 0 <= totalSeconds < 360000 ==> f.0 < 100
  {
    var hours := totalSeconds / 3600;
    var rest := totalSeconds % 3600;
    var minutes := rest / 60;
    var secs := totalSeconds % 60;
    assert rest == minutes * 60 + rest % 60;
    assert totalSeconds == (hours * 60 + minutes) * 60 + rest % 60;
    assert secs == rest % 60;
    (hours, minutes, secs)
  }

  predicate IsDigit(c: char) {
    '0' <= c <= '9'
  }

  predicate AllDigits(s: string) {
    forall i :: 0 <= i < |s| ==> IsDigit(s[i])
  }

  function DigitChar(d: int): (c: char)
    requires 0 <= d < 10
    ensures IsDigit(c)
  {
    ('0' as int + d) as char
  }

  function DigitValue(c: char): int {
    c as int - '0' as int
  }

  /** Decimal digits of a non-negative integer, without leading zeros. */
  function Decimal(n: nat): (s: string)
    ensures |s| >= 1 && AllDigits(s)
    ensures |s| == 1 <==> n < 10
    ensures n < 100 ==> |s| <= 2
    ensures n > 0 ==> s[0] != '0'
    decreases n
  {
    if n < 10 then [DigitChar(n)] else Decimal(n / 10) + [DigitChar(n % 10)]
  }

  /** Python's `f"{x:02d}"`: zero-padded to two characters, a sign in front of a negative value. */
  function Pad2(x: int): (s: string)
    ensures x >= 0 ==> 2 <= |s| && AllDigits(s)
    ensures 0 <= x < 100 ==> |s| == 2
    ensures x >= 10 ==> s[0] != '0'
  {
    if x < 0 then "-" + Decimal(-x)
    else if x < 10 then "0" + Decimal(x)
    else Decimal(x)
  }

  /** `format_time_hh_mm_ss`. */
  function FormatTime(totalSeconds: int): (t: string)
    ensures totalSeconds >= 0 ==> |t| >= 8 && t[|t| - 6] == ':' && t[|t| - 3] == ':'
    ensures totalSeconds >= 0 ==>
      AllDigits(t[..|t| - 6]) && AllDigits(t[|t| - 5..|t| - 3]) && AllDigits(t[|t| - 2..])
    ensures 0 <= totalSeconds < 360000 ==> |t| == 8
    // from 100 hours on the hours field is printed in full, with no leading zero
    ensures totalSeconds >= 360000 ==> t[0] != '0'
  {
    var (hours, minutes, secs) := Split(totalSeconds);
    Fields(Pad2(hours), Pad2(minutes), Pad2(secs));
    Pad2(hours) + ":" + Pad2(minutes) + ":" + Pad2(secs)
  }

  /** Where the three fields sit in `a:b:c` when the last two are two characters wide. */
  lemma Fields(a: string, b: string, c: string)
    requires |b| == 2 && |c| == 2
    ensures var t := a + ":" + b + ":" + c;
      && |t| == |a| + 6 && t[|t| - 6] == ':' && t[|t| - 3] == ':'
      && t[..|t| - 6] == a && t[|t| - 5..|t| - 3] == b && t[|t| - 2..] == c
  {
    var t := a + ":" + b + ":" + c;
    assert t[..|t| - 6] == a;
    assert t[|t| - 5..|t| - 3] == b;
    assert t[|t| - 2..] == c;
  }

  /** The value of a string of decimal digits (leading zeros allowed). */
  function DecimalValue(s: string): nat
    requires AllDigits(s)
  {
    if s == [] then 0 else DecimalValue(s[..|s| - 1]) * 10 + DigitValue(s[|s| - 1])
  }

  /**
   * Reads the three fields of `H...H:MM:SS`: at least two hour digits, then
   * two-digit minutes and seconds below 60; anything else is rejected.
   */
  function ParseFields(t: string): Option<(nat, nat, nat)>
  {
    if |t| >= 8 && t[|t| - 6] == ':' && t[|t| - 3] == ':'
       && AllDigits(t[..|t| - 6]) && AllDigits(t[|t| - 5..|t| - 3]) && AllDigits(t[|t| - 2..])
    then
      var hours := DecimalValue(t[..|t| - 6]);
      var minutes := DecimalValue(t[|t| - 5..|t| - 3]);
      var secs := DecimalValue(t[|t| - 2..]);
      if minutes < 60 && secs < 60 then Some((hours, minutes, secs)) else None
    else None
  }

  /** Reads back a number of seconds from `H...H:MM:SS`. */
  function ParseTime(t: string): Option<int>
  {
    match ParseFields(t)
    case None => None
    case Some((hours, minutes, secs)) => Some(hours * 3600 + minutes * 60 + secs)
  }

  lemma {:induction false} DecimalRoundTrip(n: nat)
    ensures DecimalValue(Decimal(n)) == n
    decreases n
  {
    if n >= 10 {
      DecimalRoundTrip(n / 10);
      var s := Decimal(n);
      assert s[..|s| - 1] == Decimal(n / 10);
    }
  }

  lemma Pad2RoundTrip(x: nat)
    ensures DecimalValue(Pad2(x)) == x
  {
    DecimalRoundTrip(x);
    if x < 10 {
      var s := Pad2(x);
      assert s[..|s| - 1] == "0";
    }
  }

  /** Parsing `a:b:c` built from digit fields reads back each field's value. */
  lemma ParseJoined(a: string, b: string, c: string)
    requires 2 <= |a| && |b| == 2 && |c| == 2
    requires AllDigits(a) && AllDigits(b) && AllDigits(c)
    requires DecimalValue(b) < 60 && DecimalValue(c) < 60
    ensures ParseFields(a + ":" + b + ":" + c) == Some((DecimalValue(a), DecimalValue(b), DecimalValue(c)))
  {
    Fields(a, b, c);
  }

  /** The three padded fields of a clock reading parse back to their values. */
  lemma PaddedFieldsRoundTrip(hours: nat, minutes: nat, secs: nat)
    requires minutes < 60 && secs < 60
    ensures ParseFields(Pad2(hours) + ":" + Pad2(minutes) + ":" + Pad2(secs)) == Some((hours, minutes, secs))
  {
    Pad2RoundTrip(hours);
    Pad2RoundTrip(minutes);
    Pad2RoundTrip(secs);
    ParseJoined(Pad2(hours), Pad2(minutes), Pad2(secs));
  }

  /** Rendering and then parsing gives back every non-negative number of seconds, hours unbounded. */
  lemma FormatParseRoundTrip(totalSeconds: int)
    requires totalSeconds >= 0
    ensures ParseTime(FormatTime(totalSeconds)) == Some(totalSeconds)
  {
    var f := Split(totalSeconds);
    PaddedFieldsRoundTrip(f.0, f.1, f.2);
  }

  /** Distinct second counts are shown as distinct strings. */
  lemma FormatTimeInjective(s1: int, s2: int)
    requires s1 >= 0 && s2 >= 0
    requires FormatTime(s1) == FormatTime(s2)
    ensures s1 == s2
  {
    FormatParseRoundTrip(s1);
    FormatParseRoundTrip(s2);
  }

  /** A 26.25-minute group time (the default exam with 25% extra) is 1575 seconds, shown as 00:26:15. */
  lemma FormatExample()
    ensures FormatTime(1575) == "00:26:15"
  {
    assert Split(1575) == (0, 26, 15);
    assert Pad2(0) == "00";
    assert Pad2(26) == "26" by { assert Decimal(26) == Decimal(2) + [DigitChar(6)]; }
    assert Pad2(15) == "15" by { assert Decimal(15) == Decimal(1) + [DigitChar(5)]; }
  }
}
