/**
 * Session durations.  The tracker computes (end - start) in minutes and stores
 * it with one digit after the decimal point ("%.1f").  Here a duration is an
 * integer count of tenths of a minute, and its text is the fixed-point
 * numeral of that count.
 */
module Duration {
  import opened Wrappers
  import opened Digits

  /** Seconds to tenths of a minute (6 seconds each), rounded to the nearest tenth, halves upward. */
  function TenthsOfMinute(seconds: int): (t: int)
    ensures 6 * t - 3 <= seconds < 6 * t + 3
  {
    (seconds + 3) / 6
  }

  /** The "%.1f" text of a count of tenths: optional minus sign, integer part, '.', one digit. */
  function Render(tenths: int): (s: string)
    ensures 3 <= |s|
  {
    if tenths < 0 then "-" + Unsigned(-tenths) else Unsigned(tenths)
  }

  function Unsigned(tenths: nat): (s: string)
    ensures 3 <= |s|
  {
    Numeral(tenths / 10) + "." + [DigitChar(tenths % 10)]
  }

  /**
   * The value, in tenths of a minute, of a fixed-point numeral with exactly
   * one decimal digit; None for any other text.
   */
  function ParseTenths(s: string): (r: Option<int>)
  {
    if |s| < 3 || s[|s| - 2] != '.' || !IsDigit(s[|s| - 1]) then None
    else
      var whole := s[..|s| - 2];
      var negative := whole[0] == '-';
      var digits := if negative then whole[1..] else whole;
      if digits == [] || !AllDigits(digits) then None
      else
        var v := ValueOf(digits) * 10 + DigitValue(s[|s| - 1]);
        Some(if negative then -v else v)
  }

  /** Reading back the text of a duration gives the same number of tenths. */
  lemma ParseRender(tenths: int)
    ensures ParseTenths(Render(tenths)) == Some(tenths)
  {
    var n: nat := if tenths < 0 then -tenths else tenths;
    var body := Numeral(n / 10);
    var u := Unsigned(n);
    assert u == body + "." + [DigitChar(n % 10)];
    var s := Render(tenths);
    assert s[..|s| - 2] == (if tenths < 0 then "-" + body else body);
    assert s[|s| - 1] == DigitChar(n % 10);
    if tenths >= 0 {
      assert body[0] != '-' by {
        assert IsDigit(body[0]);
      }
    } else {
      assert ("-" + body)[1..] == body;
    }
  }

  /** A half-hour session is stored as "30.0". */
  lemma HalfHourIsThirtyMinutes()
    ensures Render(TenthsOfMinute(30 * 60)) == "30.0"
  {
  }
}
