/**
 The issue date printed in the footer of a confirmation. The source reads the
 clock (`datetime.today()`) and formats it with `strftime('%d.%m.%Y')`; here the
 calendar date is a parameter and the formatting a pure function of it.
 */
module IssueDate {
  import opened Options
  import opened Decimal

  /** A calendar date as Python's `datetime.date` holds it. */
  datatype Date = Date(day: nat, month: nat, year: nat)

  /** Leap years of the proleptic Gregorian calendar Python uses. */
  predicate IsLeapYear(y: nat) {
    y % 4 == 0 && (y % 100 != 0 || y % 400 == 0)
  }

  function DaysInMonth(y: nat, m: nat): (d: nat)
    requires 1 <= m <= 12
    ensures 28 <= d <= 31
  {
    if m == 2 then (if IsLeapYear(y) then 29 else 28)
    else if m == 4 || m == 6 || m == 9 || m == 11 then 30
    else 31
  }

  /** The dates `datetime.date` can represent (years 1 to 9999). */
  predicate Valid(d: Date) {
    && 1 <= d.year <= 9999
    && 1 <= d.month <= 12
    && 1 <= d.day <= DaysInMonth(d.year, d.month)
  }

  /** `strftime('%d.%m.%Y')`: day and month on two digits, year on four. */
  function Format(d: Date): (s: string)
    requires Valid(d)
    ensures |s| == 10
    ensures s[2] == '.' && s[5] == '.'
  {
    FixedDigits(d.day, 2) + "." + FixedDigits(d.month, 2) + "." + FixedDigits(d.year, 4)
  }

  /** Reads a `DD.MM.YYYY` string back into a date; `None` for anything else. */
  function Parse(s: string): (r: Option<Date>)
    ensures r.Some? ==> |s| == 10 && s[2] == '.' && s[5] == '.'
  {
    if |s| == 10 && s[2] == '.' && s[5] == '.'
       && AllDigits(s[..2]) && AllDigits(s[3..5]) && AllDigits(s[6..])
    then Some(Date(ParseDecimal(s[..2]), ParseDecimal(s[3..5]), ParseDecimal(s[6..])))
    else None
  }

  /** Reading back a formatted date gives the date. */
  lemma FormatRoundTrip(d: Date)
    requires Valid(d)
    ensures Parse(Format(d)) == Some(d)
  {
    var s := Format(d);
    assert s[..2] == FixedDigits(d.day, 2);
    assert s[3..5] == FixedDigits(d.month, 2);
    assert s[6..] == FixedDigits(d.year, 4);
    FixedDigitsRoundTrip(d.day, 2);
    FixedDigitsRoundTrip(d.month, 2);
    FixedDigitsRoundTrip(d.year, 4);
  }

  /** Formatting a string that parses to a valid date gives the string back. */
  lemma ParseRoundTrip(s: string)
    requires Parse(s).Some? && Valid(Parse(s).value)
    ensures Format(Parse(s).value) == s
  {
    ParseDecimalRoundTrip(s[..2]);
    ParseDecimalRoundTrip(s[3..5]);
    ParseDecimalRoundTrip(s[6..]);
    var f := Format(Parse(s).value);
    assert f[..2] == s[..2] && f[3..5] == s[3..5] && f[6..] == s[6..];
    assert forall i :: 0 <= i < 10 ==> f[i] == s[i] by {
      forall i | 0 <= i < 10
        ensures f[i] == s[i]
      {
        if i < 2 {
          assert f[i] == f[..2][i];
        } else if 2 < i < 5 {
          assert f[i] == f[3..5][i - 3];
        } else if 5 < i {
          assert f[i] == f[6..][i - 6];
        }
      }
    }
  }

  /** Different dates are printed differently. */
  lemma FormatInjective(d1: Date, d2: Date)
    requires Valid(d1) && Valid(d2) && d1 != d2
    ensures Format(d1) != Format(d2)
  {
    FormatRoundTrip(d1);
    FormatRoundTrip(d2);
  }
}
