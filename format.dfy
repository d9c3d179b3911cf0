/** The `fmt_dt` template filter: `dt.strftime("%Y-%m-%d %H:%M")`. */
module Format {
  import opened Optional

  /** A `datetime`, field by field. */
  datatype DateTime = DateTime(year: int, month: int, day: int, hour: int, minute: int, second: int, microsecond: int)

  /** What the format keeps of a `datetime`: everything down to the minute. */
  datatype Minute = Minute(year: int, month: int, day: int, hour: int, minute: int)

  /** The ranges `datetime` enforces on its fields (the day only against 31). */
  predicate ValidDateTime(dt: DateTime) {
    && 1 <= dt.year <= 9999 && 1 <= dt.month <= 12 && 1 <= dt.day <= 31
    && 0 <= dt.hour <= 23 && 0 <= dt.minute <= 59 && 0 <= dt.second <= 59
    && 0 <= dt.microsecond <= 999999
  }

  function Pow10(n: nat): nat {
    if n == 0 then 1 else 10 * Pow10(n - 1)
  }

  predicate IsDigit(c: char) {
    '0' <= c <= '9'
  }

  predicate AllDigits(s: string) {
    forall k :: 0 <= k < |s| ==> IsDigit(s[k])
  }

  /** `n` in decimal, zero-padded to `width` digits (`%Y` is 4 wide, the others 2). */
  function Digits(n: nat, width: nat): (s: string)
    requires n < Pow10(width)
    ensures |s| == width && AllDigits(s)
  {
    if width == 0 then []
    else Digits(n / 10, width - 1) + [('0' as int + n % 10) as char]
  }

  /** The number a string of decimal digits denotes. */
  function Value(s: string): nat
    requires AllDigits(s)
  {
    if s == [] then 0 else 10 * Value(s[..|s| - 1]) + (s[|s| - 1] as int - '0' as int)
  }

  /** Reading the padded digits back gives the number. */
  lemma {:induction false} ValueOfDigits(n: nat, width: nat)
    requires n < Pow10(width)
    ensures Value(Digits(n, width)) == n
  {
    if width > 0 {
      var s := Digits(n, width);
      assert s[..|s| - 1] == Digits(n / 10, width - 1);
      ValueOfDigits(n / 10, width - 1);
    }
  }

  /** `fmt_dt`: `YYYY-MM-DD HH:MM`, sixteen characters with fixed separators. */
  function FmtDt(dt: DateTime): (s: string)
    requires ValidDateTime(dt)
    ensures |s| == 16
    ensures s[4] == '-' && s[7] == '-' && s[10] == ' ' && s[13] == ':'
    ensures AllDigits(s[..4]) && AllDigits(s[5..7]) && AllDigits(s[8..10])
    ensures AllDigits(s[11..13]) && AllDigits(s[14..])
  {
    var s := Digits(dt.year, 4) + "-" + Digits(dt.month, 2) + "-" + Digits(dt.day, 2)
             + " " + Digits(dt.hour, 2) + ":" + Digits(dt.minute, 2);
    assert s[..4] == Digits(dt.year, 4) && s[5..7] == Digits(dt.month, 2);
    assert s[8..10] == Digits(dt.day, 2) && s[11..13] == Digits(dt.hour, 2);
    assert s[14..] == Digits(dt.minute, 2);
    s
  }

  /** Reads a `YYYY-MM-DD HH:MM` string back; anything else is `None`. */
  function ParseMinute(s: string): Option<Minute> {
    if |s| == 16 && s[4] == '-' && s[7] == '-' && s[10] == ' ' && s[13] == ':'
       && AllDigits(s[..4]) && AllDigits(s[5..7]) && AllDigits(s[8..10])
       && AllDigits(s[11..13]) && AllDigits(s[14..])
    then Some(Minute(Value(s[..4]), Value(s[5..7]), Value(s[8..10]), Value(s[11..13]), Value(s[14..])))
    else None
  }

  /** The formatted text determines the date and time to the minute. */
  lemma {:induction false} FmtDtRoundTrip(dt: DateTime)
    requires ValidDateTime(dt)
    ensures ParseMinute(FmtDt(dt)) == Some(Minute(dt.year, dt.month, dt.day, dt.hour, dt.minute))
  {
    var s := FmtDt(dt);
    assert s[..4] == Digits(dt.year, 4) && s[5..7] == Digits(dt.month, 2);
    assert s[8..10] == Digits(dt.day, 2) && s[11..13] == Digits(dt.hour, 2);
    assert s[14..] == Digits(dt.minute, 2);
    ValueOfDigits(dt.year, 4);
    ValueOfDigits(dt.month, 2);
    ValueOfDigits(dt.day, 2);
    ValueOfDigits(dt.hour, 2);
    ValueOfDigits(dt.minute, 2);
  }

  /** Two datetimes print alike exactly when they agree down to the minute. */
  lemma FmtDtSameMinute(a: DateTime, b: DateTime)
    requires ValidDateTime(a) && ValidDateTime(b)
    ensures FmtDt(a) == FmtDt(b) <==>
      a.year == b.year && a.month == b.month && a.day == b.day && a.hour == b.hour && a.minute == b.minute
  {
    FmtDtRoundTrip(a);
    FmtDtRoundTrip(b);
  }
}
