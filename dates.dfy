/** Calendar dates, as the `trade_date` column holds them after
    `pd.to_datetime`, their order, and the `"YYYY-MM"` month label that
    `dt.to_period("M").astype(str)` renders. */
module Dates {
  import opened Wrappers

  datatype CalDate = CalDate(year: int, month: int, day: int)

  predicate IsLeapYear(y: int)
  {
    y % 4 == 0 && (y % 100 != 0 || y % 400 == 0)
  }

  function DaysInMonth(y: int, m: int): (n: int)
    requires 1 <= m <= 12
    ensures 28 <= n <= 31
  {
    if m == 2 then (if IsLeapYear(y) then 29 else 28)
    else if m == 4 || m == 6 || m == 9 || m == 11 then 30
    else 31
  }

  /** A real calendar day with a four-digit year. */
  predicate IsValidDate(d: CalDate)
  {
    1000 <= d.year <= 9999 && 1 <= d.month <= 12 && 1 <= d.day <= DaysInMonth(d.year, d.month)
  }

  type Date = d: CalDate | IsValidDate(d) witness CalDate(2000, 1, 1)

  /** Chronological order: `a` is a strictly earlier day than `b`. */
  predicate Before(a: Date, b: Date)
  {
    a.year < b.year || (a.year == b.year && (a.month < b.month || (a.month == b.month && a.day < b.day)))
  }

  /** `a <= b` on `datetime64` values. */
  predicate OnOrBefore(a: Date, b: Date)
  {
    a == b || Before(a, b)
  }

  /** A day number that orders dates chronologically. */
  function DayKey(d: Date): int
  {
    d.year * 10000 + d.month * 100 + d.day
  }

  lemma DayKeyOrdersDates(a: Date, b: Date)
    ensures Before(a, b) <==> DayKey(a) < DayKey(b)
    ensures DayKey(a) == DayKey(b) <==> a == b
  {
  }

  function DigitChar(n: int): (c: char)
    requires 0 <= n <= 9
  {
    "0123456789"[n]
  }

  function DigitValue(c: char): Option<nat>
  {
    if '0' <= c <= '9' then Some(c as int - '0' as int) else None
  }

  function Pow10(w: nat): (p: nat)
    ensures p > 0
  {
    if w == 0 then 1 else 10 * Pow10(w - 1)
  }

  /** `n` written in decimal with exactly `w` digits, zero-padded on the left
      (`"{:0w}"`), for `n < 10^w`. */
  function PadDigits(n: nat, w: nat): (s: string)
    requires n < Pow10(w)
    ensures |s| == w
  {
    if w == 0 then "" else PadDigits(n / 10, w - 1) + [DigitChar(n % 10)]
  }

  /** The value of a string of decimal digits; `None` if any character is not a digit. */
  function DigitsValue(s: string): Option<nat>
  {
    if |s| == 0 then Some(0)
    else
      match (DigitsValue(s[..|s| - 1]), DigitValue(s[|s| - 1]))
      case (Some(v), Some(d)) => Some(v * 10 + d)
      case _ => None
  }

  lemma {:induction false} PadDigitsRoundTrip(n: nat, w: nat)
    requires n < Pow10(w)
    ensures DigitsValue(PadDigits(n, w)) == Some(n)
  {
    if w > 0 {
      var s := PadDigits(n, w);
      PadDigitsRoundTrip(n / 10, w - 1);
      DigitRoundTrip(n % 10);
      assert s[..|s| - 1] == PadDigits(n / 10, w - 1);
    }
  }

  /** The month label `"YYYY-MM"` of a date, year and month zero-padded. */
  function YearMonth(d: Date): (s: string)
    ensures |s| == 7 && s[4] == '-'
  {
    PadDigits(d.year, 4) + "-" + PadDigits(d.month, 2)
  }

  /** Reads a `"YYYY-MM"` label back into its year and month. */
  function ParseYearMonth(s: string): Option<(int, int)>
  {
    if |s| != 7 || s[4] != '-' then None
    else
      match (DigitsValue(s[..4]), DigitsValue(s[5..]))
      case (Some(y), Some(m)) => Some((y, m))
      case _ => None
  }

  lemma DigitRoundTrip(n: int)
    requires 0 <= n <= 9
    ensures DigitValue(DigitChar(n)) == Some(n)
  {
    var digits := "0123456789";
    assert digits[n] as int == '0' as int + n by {
      assert digits[0] == '0' && digits[1] == '1' && digits[2] == '2' && digits[3] == '3' && digits[4] == '4';
      assert digits[5] == '5' && digits[6] == '6' && digits[7] == '7' && digits[8] == '8' && digits[9] == '9';
    }
  }

  /** The month label identifies the year and month of a date: parsing it back
      gives exactly them. */
  lemma YearMonthRoundTrip(d: Date)
    ensures ParseYearMonth(YearMonth(d)) == Some((d.year, d.month))
  {
    var s := YearMonth(d);
    assert Pow10(4) == 10000 && Pow10(2) == 100;
    PadDigitsRoundTrip(d.year, 4);
    PadDigitsRoundTrip(d.month, 2);
    assert s[..4] == PadDigits(d.year, 4);
    assert s[5..] == PadDigits(d.month, 2);
  }

  /** Two dates have the same month label exactly when they fall in the same
      calendar month. */
  lemma YearMonthSameMonth(a: Date, b: Date)
    ensures YearMonth(a) == YearMonth(b) <==> a.year == b.year && a.month == b.month
  {
    if YearMonth(a) == YearMonth(b) {
      YearMonthRoundTrip(a);
      YearMonthRoundTrip(b);
    }
  }
}
