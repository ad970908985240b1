/**
 * The part of Python's `datetime` the uploader relies on: proleptic
 * Gregorian dates, the fixed `%Y-%m-%d` and `%Y-%m-%d %H-%M-%S` patterns
 * (parsed strictly, fixed width), day ordinals for date differences, and the
 * `%b%d` and `%I-%M%p` renderings in the C locale.
 */
module Calendar {
  import opened Wrappers
  import opened PyStrings

  datatype Date = Date(year: int, month: int, day: int) {
    /** What `datetime.date` accepts: years 1..9999, a real day of the month. */
    predicate Valid() {
      1 <= year <= 9999 && 1 <= month <= 12 && 1 <= day <= DaysInMonth(year, month)
    }
  }

  datatype DateTime = DateTime(date: Date, hour: int, minute: int, second: int) {
    predicate Valid() {
      date.Valid() && 0 <= hour <= 23 && 0 <= minute <= 59 && 0 <= second <= 59
    }
  }

  predicate IsLeapYear(y: int) {
    y % 4 == 0 && (y % 100 != 0 || y % 400 == 0)
  }

  function DaysInMonth(y: int, m: int): (n: int)
    requires 1 <= m <= 12
    ensures 28 <= n <= 31
  {
    if m == 2 then (if IsLeapYear(y) then 29 else 28)
    else if m == 4 || m == 6 || m == 9 || m == 11 then 30
    else 31
  }

  // ---- fixed-width formatting and strict parsing ----

  /** `strftime("%Y-%m-%d")`. */
  function FormatDate(d: Date): (s: string)
    requires d.Valid()
    ensures |s| == 10 && s[4] == '-' && s[7] == '-'
  {
    PadDigits(d.year, 4) + "-" + PadDigits(d.month, 2) + "-" + PadDigits(d.day, 2)
  }

  /** `strftime("%H-%M-%S")`. */
  function FormatClock(h: nat, mi: nat, sec: nat): (s: string)
    requires h < 100 && mi < 100 && sec < 100
    ensures |s| == 8
  {
    PadDigits(h, 2) + "-" + PadDigits(mi, 2) + "-" + PadDigits(sec, 2)
  }

  /** `strftime("%Y-%m-%d %H-%M-%S")`. */
  function FormatTimestamp(t: DateTime): (s: string)
    requires t.Valid()
    ensures |s| == 19
  {
    FormatDate(t.date) + " " + FormatClock(t.hour, t.minute, t.second)
  }

  /** Reads a fixed-width run of ASCII digits. */
  function DigitsAt(s: string, lo: int, hi: int): (r: Option<nat>)
    requires 0 <= lo <= hi <= |s|
    ensures r.Some? ==> AllDigits(s[lo..hi]) && r.value == DecimalValue(s[lo..hi])
    ensures r.Some? ==> r.value < Pow10(hi - lo)
  {
    if AllDigits(s[lo..hi]) then
      DecimalBound(s[lo..hi]);
      Some(DecimalValue(s[lo..hi]))
    else None
  }

  lemma {:induction false} DecimalBound(s: string)
    requires AllDigits(s)
    ensures DecimalValue(s) < Pow10(|s|)
    decreases |s|
  {
    if |s| > 0 {
      DecimalBound(s[..|s| - 1]);
    }
  }

  /**
   * `strptime(s, "%Y-%m-%d").date()`, read strictly: exactly ten characters,
   * four, two and two ASCII digits, and a date that exists. When it succeeds
   * the date is valid and formats back to exactly `s`.
   */
  function ParseDate(s: string): (r: Option<Date>)
    ensures r.Some? ==> r.value.Valid() && FormatDate(r.value) == s
  {
    if |s| != 10 || s[4] != '-' || s[7] != '-' then None
    else
      match (DigitsAt(s, 0, 4), DigitsAt(s, 5, 7), DigitsAt(s, 8, 10))
      case (Some(y), Some(m), Some(d)) =>
        var date := Date(y, m, d);
        if date.Valid() then
          DateOfFields(s);
          Some(date)
        else None
      case _ => None
  }

  /**
   * The `%H-%M-%S` half of a timestamp, read strictly; when it succeeds the
   * hour, minute and second are in range and format back to exactly `s`.
   */
  function ParseClock(s: string): (r: Option<(nat, nat, nat)>)
    ensures r.Some? ==> r.value.0 <= 23 && r.value.1 <= 59 && r.value.2 <= 59
    ensures r.Some? ==> FormatClock(r.value.0, r.value.1, r.value.2) == s
  {
    if |s| != 8 || s[2] != '-' || s[5] != '-' then None
    else
      match (DigitsAt(s, 0, 2), DigitsAt(s, 3, 5), DigitsAt(s, 6, 8))
      case (Some(h), Some(mi), Some(sec)) =>
        if h <= 23 && mi <= 59 && sec <= 59 then
          ClockOfFields(s);
          Some((h, mi, sec))
        else None
      case _ => None
  }

  /**
   * `strptime(s, "%Y-%m-%d %H-%M-%S")`, read strictly: exactly nineteen
   * characters, fixed-width ASCII digit fields, and values `datetime`
   * accepts. When it succeeds the timestamp is valid and formats back to
   * exactly `s`.
   */
  function ParseTimestamp(s: string): (r: Option<DateTime>)
    ensures r.Some? ==> r.value.Valid() && FormatTimestamp(r.value) == s
  {
    if |s| != 19 || s[10] != ' ' then None
    else
      match (ParseDate(s[..10]), ParseClock(s[11..]))
      case (Some(date), Some((h, mi, sec))) =>
        var t := DateTime(date, h, mi, sec);
        TimestampOfFields(s, t);
        Some(t)
      case _ => None
  }

  /** A date read field by field renders back to the text it was read from. */
  lemma DateOfFields(s: string)
    requires |s| == 10 && s[4] == '-' && s[7] == '-'
    requires AllDigits(s[0..4]) && AllDigits(s[5..7]) && AllDigits(s[8..10])
    requires Date(DecimalValue(s[0..4]), DecimalValue(s[5..7]), DecimalValue(s[8..10])).Valid()
    ensures FormatDate(Date(DecimalValue(s[0..4]), DecimalValue(s[5..7]), DecimalValue(s[8..10]))) == s
  {
    PadDigitsOfDigits(s[0..4]);
    PadDigitsOfDigits(s[5..7]);
    PadDigitsOfDigits(s[8..10]);
    assert s == s[0..4] + "-" + s[5..7] + "-" + s[8..10];
  }

  /** A clock time read field by field renders back to the text it was read from. */
  lemma ClockOfFields(s: string)
    requires |s| == 8 && s[2] == '-' && s[5] == '-'
    requires AllDigits(s[0..2]) && AllDigits(s[3..5]) && AllDigits(s[6..8])
    ensures DecimalValue(s[0..2]) < 100 && DecimalValue(s[3..5]) < 100 && DecimalValue(s[6..8]) < 100
    ensures FormatClock(DecimalValue(s[0..2]), DecimalValue(s[3..5]), DecimalValue(s[6..8])) == s
  {
    PadDigitsOfDigits(s[0..2]);
    PadDigitsOfDigits(s[3..5]);
    PadDigitsOfDigits(s[6..8]);
    assert s == s[0..2] + "-" + s[3..5] + "-" + s[6..8];
  }

  /** A run of digits is its own zero-padded rendering. */
  lemma {:induction false} PadDigitsOfDigits(s: string)
    requires AllDigits(s)
    ensures DecimalValue(s) < Pow10(|s|) && PadDigits(DecimalValue(s), |s|) == s
    decreases |s|
  {
    DecimalBound(s);
    if |s| > 0 {
      var init := s[..|s| - 1];
      PadDigitsOfDigits(init);
      var n := DecimalValue(s);
      assert n / 10 == DecimalValue(init);
      assert n % 10 == DigitValue(s[|s| - 1]);
      assert DigitChar(DigitValue(s[|s| - 1])) == s[|s| - 1];
      assert s == init + [s[|s| - 1]];
    }
  }

  /** A rendered date is digits and dashes only: no space and no `/`. */
  lemma FormatDateChars(d: Date)
    requires d.Valid()
    ensures ' ' !in FormatDate(d) && '/' !in FormatDate(d) && IsDigit(FormatDate(d)[0])
  {
    var y, m, dd := PadDigits(d.year, 4), PadDigits(d.month, 2), PadDigits(d.day, 2);
    NonDigitAbsent(y, ' ');
    NonDigitAbsent(m, ' ');
    NonDigitAbsent(dd, ' ');
    NonDigitAbsent(y, '/');
    NonDigitAbsent(m, '/');
    NonDigitAbsent(dd, '/');
    DigitAt(y, 0);
  }

  /** A rendered clock time is digits and dashes only, and starts with a digit. */
  lemma FormatClockChars(h: nat, mi: nat, sec: nat)
    requires h < 100 && mi < 100 && sec < 100
    ensures ' ' !in FormatClock(h, mi, sec) && '/' !in FormatClock(h, mi, sec)
    ensures IsDigit(FormatClock(h, mi, sec)[0]) && FormatClock(h, mi, sec)[0] != '-'
  {
    var a, b, c := PadDigits(h, 2), PadDigits(mi, 2), PadDigits(sec, 2);
    NonDigitAbsent(a, ' ');
    NonDigitAbsent(b, ' ');
    NonDigitAbsent(c, ' ');
    NonDigitAbsent(a, '/');
    NonDigitAbsent(b, '/');
    NonDigitAbsent(c, '/');
    DigitAt(a, 0);
  }

  /** Rendering a valid date and reading it back gives the same date. */
  lemma ParseFormatDate(d: Date)
    requires d.Valid()
    ensures ParseDate(FormatDate(d)) == Some(d)
  {
    var s := FormatDate(d);
    assert s[0..4] == PadDigits(d.year, 4);
    assert s[5..7] == PadDigits(d.month, 2);
    assert s[8..10] == PadDigits(d.day, 2);
  }

  /** Rendering a valid timestamp and reading it back gives the same timestamp. */
  lemma ParseFormatTimestamp(t: DateTime)
    requires t.Valid()
    ensures ParseTimestamp(FormatTimestamp(t)) == Some(t)
  {
    SpacedFields(FormatDate(t.date), FormatClock(t.hour, t.minute, t.second));
    ParseFormatDate(t.date);
    ParseFormatClock(t.hour, t.minute, t.second);
  }

  /** Rendering an in-range clock time and reading it back gives the same time. */
  lemma ParseFormatClock(h: nat, mi: nat, sec: nat)
    requires h <= 23 && mi <= 59 && sec <= 59
    ensures ParseClock(FormatClock(h, mi, sec)) == Some((h, mi, sec))
  {
    var a, b, c := PadDigits(h, 2), PadDigits(mi, 2), PadDigits(sec, 2);
    DashedFields(a, b, c);
  }

  lemma TimestampOfFields(s: string, t: DateTime)
    requires |s| == 19 && s[10] == ' ' && t.Valid()
    requires FormatDate(t.date) == s[..10] && FormatClock(t.hour, t.minute, t.second) == s[11..]
    ensures FormatTimestamp(t) == s
  {
    assert s[..10] + " " + s[11..] == s;
  }

  /** Slicing a date and a clock back out of `date + " " + clock`. */
  lemma SpacedFields(a: string, b: string)
    requires |a| == 10 && |b| == 8
    ensures var s := a + " " + b;
      |s| == 19 && s[..10] == a && s[10] == ' ' && s[11..] == b
  {
  }

  /** Slicing three two-character fields back out of `a-b-c`. */
  lemma DashedFields(a: string, b: string, c: string)
    requires |a| == 2 && |b| == 2 && |c| == 2
    ensures var s := a + "-" + b + "-" + c;
      |s| == 8 && s[0..2] == a && s[2] == '-' && s[3..5] == b && s[5] == '-' && s[6..8] == c
  {
  }

  /** `%Y-%m-%d` keys of distinct dates differ. */
  lemma FormatDateInjective(a: Date, b: Date)
    requires a.Valid() && b.Valid() && FormatDate(a) == FormatDate(b)
    ensures a == b
  {
    ParseFormatDate(a);
    ParseFormatDate(b);
  }

  // ---- day ordinals (`date.toordinal`) ----

  function DaysBeforeYear(y: int): int
    requires y >= 1
  {
    var p := y - 1;
    p * 365 + p / 4 - p / 100 + p / 400
  }

  function DaysInYear(y: int): int {
    if IsLeapYear(y) then 366 else 365
  }

  /** Days in the months of year `y` before month `m`. */
  function DaysBeforeMonth(y: int, m: int): (n: int)
    requires 1 <= m <= 13
    ensures n >= 0
    decreases m
  {
    if m == 1 then 0 else DaysBeforeMonth(y, m - 1) + DaysInMonth(y, m - 1)
  }

  /** `date.toordinal()`: 1 for 0001-01-01, counting every day since. */
  function Ordinal(d: Date): (n: int)
    requires d.Valid()
    ensures n >= 1
  {
    DaysBeforeYear(d.year) + DaysBeforeMonth(d.year, d.month) + d.day
  }

  lemma YearStep(y: int)
    requires y >= 1
    ensures DaysBeforeYear(y + 1) == DaysBeforeYear(y) + DaysInYear(y)
  {
    QuadStep(y);
    CenturyStep(y);
    QuadCenturyStep(y);
  }

  lemma QuadStep(y: int)
    requires y >= 1
    ensures y / 4 - (y - 1) / 4 == (if y % 4 == 0 then 1 else 0)
  {
    DivisionStep(y, 4);
  }

  lemma CenturyStep(y: int)
    requires y >= 1
    ensures y / 100 - (y - 1) / 100 == (if y % 100 == 0 then 1 else 0)
    ensures y % 100 == 0 ==> y % 4 == 0
  {
    DivisionStep(y, 100);
    var q := y / 100;
    if y % 100 == 0 {
      assert y == 4 * (25 * q);
    }
  }

  lemma QuadCenturyStep(y: int)
    requires y >= 1
    ensures y / 400 - (y - 1) / 400 == (if y % 400 == 0 then 1 else 0)
    ensures y % 400 == 0 ==> y % 100 == 0
  {
    DivisionStep(y, 400);
    var q := y / 400;
    if y % 400 == 0 {
      assert y == 100 * (4 * q);
    }
  }

  /** Stepping back one from `y` lowers `y / k` exactly when `k` divides `y`. */
  lemma DivisionStep(y: int, k: int)
    requires k > 0
    ensures y / k - (y - 1) / k == (if y % k == 0 then 1 else 0)
  {
    var q, r := y / k, y % k;
    assert y == q * k + r && 0 <= r < k;
    if r == 0 {
      assert y - 1 == (q - 1) * k + (k - 1);
      DivisionUnique(y - 1, k, q - 1, k - 1);
    } else {
      assert y - 1 == q * k + (r - 1);
      DivisionUnique(y - 1, k, q, r - 1);
    }
  }

  lemma DivisionUnique(n: int, k: int, q: int, r: int)
    requires k > 0 && 0 <= r < k && n == q * k + r
    ensures n / k == q && n % k == r
  {
    var q', r' := n / k, n % k;
    assert n == q' * k + r' && 0 <= r' < k;
    if q > q' {
      Distribute(q, q', k);
      MultipleAtLeast(q - q', k);
    } else if q < q' {
      Distribute(q', q, k);
      MultipleAtLeast(q' - q, k);
    }
  }

  lemma Distribute(a: int, b: int, k: int)
    ensures (a - b) * k == a * k - b * k
  {
  }

  lemma {:induction false} MultipleAtLeast(d: int, k: int)
    requires d >= 1 && k > 0
    ensures d * k >= k
    decreases d
  {
    if d > 1 {
      MultipleAtLeast(d - 1, k);
      assert d * k == (d - 1) * k + k;
    }
  }

  lemma {:induction false} YearsAdvance(y1: int, y2: int)
    requires 1 <= y1 < y2
    ensures DaysBeforeYear(y1) + DaysInYear(y1) <= DaysBeforeYear(y2)
    decreases y2 - y1
  {
    YearStep(y1);
    if y1 + 1 < y2 {
      YearsAdvance(y1 + 1, y2);
    }
  }

  lemma {:induction false} MonthsAdvance(y: int, m1: int, m2: int)
    requires 1 <= m1 < m2 <= 13
    ensures DaysBeforeMonth(y, m1) + DaysInMonth(y, m1) <= DaysBeforeMonth(y, m2)
    decreases m2 - m1
  {
    if m1 + 1 < m2 {
      MonthsAdvance(y, m1 + 1, m2);
    }
  }

  lemma MonthsMakeYear(y: int)
    ensures DaysBeforeMonth(y, 13) == DaysInYear(y)
  {
  }

  /** Calendar order: `a` falls strictly before `b`. */
  predicate Before(a: Date, b: Date) {
    a.year < b.year || (a.year == b.year && (a.month < b.month || (a.month == b.month && a.day < b.day)))
  }

  /** Ordinals increase strictly with the calendar. */
  lemma OrdinalMonotone(a: Date, b: Date)
    requires a.Valid() && b.Valid() && Before(a, b)
    ensures Ordinal(a) < Ordinal(b)
  {
    if a.year < b.year {
      if a.month < 12 {
        MonthsAdvance(a.year, a.month, 13);
      }
      MonthsMakeYear(a.year);
      YearsAdvance(a.year, b.year);
    } else if a.month < b.month {
      MonthsAdvance(a.year, a.month, b.month);
    }
  }

  // ---- `strftime` tokens in the C locale ----

  /** `%b`: English three-letter month abbreviation. */
  function MonthAbbr(m: int): (s: string)
    requires 1 <= m <= 12
    ensures |s| == 3 && Capitalised(s)
  {
    ["Jan", "Feb", "Mar", "Apr", "May", "Jun", "Jul", "Aug", "Sep", "Oct", "Nov", "Dec"][m - 1]
  }

  /** The month an abbreviation stands for, 0 for anything else. */
  function MonthOfAbbr(s: string): int {
    if s == "Jan" then 1 else if s == "Feb" then 2 else if s == "Mar" then 3 else if s == "Apr" then 4
    else if s == "May" then 5 else if s == "Jun" then 6 else if s == "Jul" then 7 else if s == "Aug" then 8
    else if s == "Sep" then 9 else if s == "Oct" then 10 else if s == "Nov" then 11 else if s == "Dec" then 12
    else 0
  }

  lemma MonthOfAbbrInverse(m: int)
    requires 1 <= m <= 12
    ensures MonthOfAbbr(MonthAbbr(m)) == m
  {
    if m <= 4 {
      FirstMonthsInverse(m);
    } else if m <= 8 {
      MiddleMonthsInverse(m);
    } else if m <= 10 {
      AutumnMonthsInverse(m);
    } else {
      LastMonthsInverse(m);
    }
  }

  lemma FirstMonthsInverse(m: int)
    requires 1 <= m <= 4
    ensures MonthOfAbbr(MonthAbbr(m)) == m
  {
  }

  lemma MiddleMonthsInverse(m: int)
    requires 5 <= m <= 8
    ensures MonthOfAbbr(MonthAbbr(m)) == m
  {
  }

  lemma AutumnMonthsInverse(m: int)
    requires 9 <= m <= 10
    ensures MonthOfAbbr(MonthAbbr(m)) == m
  {
  }

  lemma LastMonthsInverse(m: int)
    requires 11 <= m <= 12
    ensures MonthOfAbbr(MonthAbbr(m)) == m
  {
  }

  /** Different months have different abbreviations. */
  lemma MonthAbbrInjective(a: int, b: int)
    requires 1 <= a <= 12 && 1 <= b <= 12 && a != b
    ensures MonthAbbr(a) != MonthAbbr(b)
  {
    MonthOfAbbrInverse(a);
    MonthOfAbbrInverse(b);
  }

  /** English full month name. */
  function MonthName(m: int): (s: string)
    requires 1 <= m <= 12
    ensures |s| >= 3 && Capitalised(s) && s[..3] == MonthAbbr(m)
  {
    ["January", "February", "March", "April", "May", "June", "July", "August",
     "September", "October", "November", "December"][m - 1]
  }

  /** `%I`: the hour on a 12-hour clock, 12 standing for 0 and 12. */
  function Hour12(h: int): (r: int)
    requires 0 <= h <= 23
    ensures 1 <= r <= 12
    ensures r % 12 == h % 12
  {
    if h % 12 == 0 then 12 else h % 12
  }

  /** `%p`: the meridiem marker. */
  function Meridiem(h: int): string {
    if h < 12 then "AM" else "PM"
  }

  /** Reading a 12-hour clock back: the hour and its marker determine the 24-hour hour. */
  function Hour24(h12: int, marker: string): int {
    h12 % 12 + (if marker == "PM" then 12 else 0)
  }

  lemma Hour12RoundTrip(h: int)
    requires 0 <= h <= 23
    ensures Hour24(Hour12(h), Meridiem(h)) == h
  {
  }

  /** `strftime("%b%d")`, e.g. `Sep03`. */
  function DateToken(d: Date): (s: string)
    requires d.Valid()
    ensures |s| == 5 && s[..3] == MonthAbbr(d.month) && AllDigits(s[3..])
  {
    MonthAbbr(d.month) + PadDigits(d.day, 2)
  }

  /** `strftime("%I-%M%p")`, e.g. `10-16PM`. */
  function TimeToken(t: DateTime): (s: string)
    requires t.Valid()
  {
    PadDigits(Hour12(t.hour), 2) + "-" + PadDigits(t.minute, 2) + Meridiem(t.hour)
  }

  /**
   * The time token is seven characters: a two-digit hour between 01 and 12,
   * a dash, two minute digits and `PM` exactly when the hour is 12 or later.
   */
  lemma TimeTokenShape(t: DateTime)
    requires t.Valid()
    ensures var s := TimeToken(t);
      |s| == 7 && AllDigits(s[..2]) && 1 <= DecimalValue(s[..2]) <= 12 && s[2] == '-' &&
      AllDigits(s[3..5]) && DecimalValue(s[3..5]) == t.minute &&
      (s[5..] == "PM" <==> t.hour >= 12) && (s[5..] == "AM" <==> t.hour < 12) &&
      Hour24(DecimalValue(s[..2]), s[5..]) == t.hour
  {
    var s := TimeToken(t);
    assert s[..2] == PadDigits(Hour12(t.hour), 2);
    assert s[3..5] == PadDigits(t.minute, 2);
    assert s[5..] == Meridiem(t.hour);
  }
}
