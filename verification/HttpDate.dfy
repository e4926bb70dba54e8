/** HTTP dates (section 7.1.1.1 of RFC 7231): seconds since 1970 to a calendar date and back, printed and parsed. */
module HttpDate {
  import opened Arith
  import opened Headers

  const YEAR_9999_SECONDS: nat := 253402300800
  const SECONDS_IN_DAY: nat := 86400
  const SECONDS_IN_HOUR: nat := 3600

  datatype Date = Date(second: nat, minute: nat, hour: nat, day: nat, month: nat, year: nat, weekDay: nat) {
    predicate IsValid() {
      second < 60 && minute < 60 && hour < 24 && 0 < day < 32 && 0 < month <= 12 && 1970 <= year <= 9999
        && 1 <= weekDay < 8
    }
  }

  // ----- the calendar

  predicate IsLeapYear(y: nat) {
    y % 4 == 0 && (y % 100 != 0 || y % 400 == 0)
  }

  function YearLength(y: nat): nat {
    if IsLeapYear(y) then 366 else 365
  }

  function MonthLength(y: nat, m: nat): nat {
    if m == 2 then (if IsLeapYear(y) then 29 else 28)
    else if m == 4 || m == 6 || m == 9 || m == 11 then 30
    else 31
  }

  /** Days from the first of 1970 to the first of year `y`. */
  function DaysBeforeYear(y: nat): nat
    requires y >= 1970
  {
    if y == 1970 then 0 else DaysBeforeYear(y - 1) + YearLength(y - 1)
  }

  /** Days from the first of year `y` to the first of its month `m`. */
  function DaysBeforeMonth(y: nat, m: nat): nat
    requires 1 <= m <= 13
  {
    if m == 1 then 0 else DaysBeforeMonth(y, m - 1) + MonthLength(y, m - 1)
  }

  function DayNumber(y: nat, m: nat, d: nat): nat
    requires y >= 1970 && 1 <= m <= 12 && d >= 1
  {
    DaysBeforeYear(y) + DaysBeforeMonth(y, m) + (d - 1)
  }

  /** Monday is 1; the first of 1970 was a Thursday. */
  function WeekDay(n: nat): nat {
    (n + 3) % 7 + 1
  }

  /** A date that exists, on its true weekday. */
  predicate Real(d: Date) {
    d.IsValid() && d.day <= MonthLength(d.year, d.month) && d.weekDay == WeekDay(DayNumber(d.year, d.month, d.day))
  }

  /** The seconds from the start of 1970 to `d`. */
  function Seconds(d: Date): nat
    requires d.IsValid()
  {
    DayNumber(d.year, d.month, d.day) * SECONDS_IN_DAY + d.hour * SECONDS_IN_HOUR + d.minute * 60 + d.second
  }

  // ----- closed forms

  /** Leap years up to `y`. */
  function Leaps(y: nat): int {
    y / 4 - y / 100 + y / 400
  }

  lemma LeapsStep(y: nat)
    requires y > 0
    ensures Leaps(y) == Leaps(y - 1) + if IsLeapYear(y) then 1 else 0
  {
    DivStep(y, 4);
    DivStep(y, 100);
    DivStep(y, 400);
    MultipleOfMultiple(y, 100, 4);
    MultipleOfMultiple(y, 4, 25);
    LeapCount(y / 4, y / 100, y / 400, (y - 1) / 4, (y - 1) / 100, (y - 1) / 400, y % 4 == 0, y % 100 == 0,
              y % 400 == 0);
  }

  lemma LeapCount(a: int, b: int, c: int, a': int, b': int, c': int, by4: bool, by100: bool, by400: bool)
    requires a == a' + (if by4 then 1 else 0) && b == b' + (if by100 then 1 else 0)
      && c == c' + (if by400 then 1 else 0)
    requires (by400 ==> by100) && (by100 ==> by4)
    ensures a - b + c == a' - b' + c' + if by4 && (!by100 || by400) then 1 else 0
  {
  }

  lemma DivStep(y: nat, k: nat)
    requires y > 0 && k > 0
    ensures y / k == (y - 1) / k + if y % k == 0 then 1 else 0
  {
    var q, r := Quotient(y - 1, k);
    if r + 1 == k {
      Distribute(q, 1, k);
      ModIs(y, k, q + 1, 0);
      DivIs(y, k, q + 1, 0);
    } else {
      ModIs(y, k, q, r + 1);
      DivIs(y, k, q, r + 1);
    }
  }

  lemma MultipleOfMultiple(y: nat, k: nat, n: nat)
    requires k > 0 && n > 0
    ensures k * n > 0 && (y % (k * n) == 0 ==> y % k == 0)
  {
    Positive(k, n);
    var q, r := Quotient(y, k * n);
    if r == 0 {
      Assoc(k, n, q);
      ModIs(y, k, n * q, 0);
    }
  }

  lemma {:induction false} DaysBeforeYearIs(y: nat)
    requires y >= 1970
    ensures DaysBeforeYear(y) == 365 * (y - 1970) + Leaps(y - 1) - 477
  {
    if y > 1970 {
      DaysBeforeYearIs(y - 1);
      LeapsStep(y - 1);
    }
  }

  lemma DaysBeforeMonthIs(y: nat, m: nat)
    requires 1 <= m <= 13
    ensures var leap := if IsLeapYear(y) && m > 2 then 1 else 0;
      DaysBeforeMonth(y, m) == [0, 31, 59, 90, 120, 151, 181, 212, 243, 273, 304, 334, 365][m - 1] + leap
  {
    assert DaysBeforeMonth(y, 1) == 0;
    assert DaysBeforeMonth(y, 2) == 31;
    assert DaysBeforeMonth(y, 3) == 59 + if IsLeapYear(y) then 1 else 0;
    assert DaysBeforeMonth(y, 4) == DaysBeforeMonth(y, 3) + 31;
    assert DaysBeforeMonth(y, 5) == DaysBeforeMonth(y, 4) + 30;
    assert DaysBeforeMonth(y, 6) == DaysBeforeMonth(y, 5) + 31;
    assert DaysBeforeMonth(y, 7) == DaysBeforeMonth(y, 6) + 30;
    assert DaysBeforeMonth(y, 8) == DaysBeforeMonth(y, 7) + 31;
    assert DaysBeforeMonth(y, 9) == DaysBeforeMonth(y, 8) + 31;
    assert DaysBeforeMonth(y, 10) == DaysBeforeMonth(y, 9) + 30;
    assert DaysBeforeMonth(y, 11) == DaysBeforeMonth(y, 10) + 31;
    assert DaysBeforeMonth(y, 12) == DaysBeforeMonth(y, 11) + 30;
    assert DaysBeforeMonth(y, 13) == DaysBeforeMonth(y, 12) + 31;
  }

  // ----- from a date to seconds

  /** The leap days before year `y` since 1970, as the source counts them. */
  function LeapYears(y: nat): (n: int)
    requires 1970 <= y <= 9999
    ensures n == Leaps(y - 1) - 477
  {
    ((y - 1) - 1968) / 4 - ((y - 1) - 1900) / 100 + ((y - 1) - 1600) / 400
  }

  function YearDays(d: Date): (n: nat)
    requires d.IsValid()
    ensures n == DaysBeforeMonth(d.year, d.month) + d.day - 1
  {
    DaysBeforeMonthIs(d.year, d.month);
    var before := match d.month
      case 1 => 0
      case 2 => 31
      case 3 => 59
      case 4 => 90
      case 5 => 120
      case 6 => 151
      case 7 => 181
      case 8 => 212
      case 9 => 243
      case 10 => 273
      case 11 => 304
      case _ => 334;
    before + d.day - 1 + if IsLeapYear(d.year) && d.month > 2 then 1 else 0
  }

  /** The conversion of the source gives the seconds of the date. A day past the end of its month counts on into
      the next. */
  function ToTime(d: Date): (t: nat)
    requires d.IsValid()
    ensures t == Seconds(d)
  {
    DaysBeforeYearIs(d.year);
    var days: nat := (d.year - 1970) * 365 + LeapYears(d.year) + YearDays(d);
    d.second + d.minute * 60 + d.hour * SECONDS_IN_HOUR + days * SECONDS_IN_DAY
  }

  // ----- from seconds to a date

  const LEAPOCH: nat := 11017
  const DAYS_PER_400Y: nat := 365 * 400 + 97
  const DAYS_PER_100Y: nat := 365 * 100 + 24
  const DAYS_PER_4Y: nat := 365 * 4 + 1

  /** A day in a year that begins in March: `days` is counted from the first of March 2000. */
  predicate InMarchYear(days: int, year: int, rem: int) {
    && 0 <= rem <= 365 && year >= 1969
    && days + LEAPOCH == 365 * (year - 1970) + Leaps(year) - 477 + 59 + rem
    && (rem == 365 ==> IsLeapYear(year + 1))
  }

  function Capped(c: int, n: nat): int {
    if c == n then c - 1 else c
  }

  lemma Cycles400(days: int)
    ensures var (q, r) := (TruncDiv(days, DAYS_PER_400Y), TruncMod(days, DAYS_PER_400Y));
      && days == (if r < 0 then q - 1 else q) * DAYS_PER_400Y + (if r < 0 then r + DAYS_PER_400Y else r)
      && 0 <= (if r < 0 then r + DAYS_PER_400Y else r) < DAYS_PER_400Y
  {
  }

  lemma Cycles100(rem: int)
    requires 0 <= rem < DAYS_PER_400Y
    ensures var c := Capped(TruncDiv(rem, DAYS_PER_100Y), 4);
      0 <= c <= 3 && 0 <= rem - c * DAYS_PER_100Y <= DAYS_PER_100Y
        && (rem - c * DAYS_PER_100Y == DAYS_PER_100Y ==> c == 3)
  {
  }

  lemma Cycles4(rem: int)
    requires 0 <= rem <= DAYS_PER_100Y
    ensures var q := Capped(TruncDiv(rem, DAYS_PER_4Y), 25);
      0 <= q <= 24 && 0 <= rem - q * DAYS_PER_4Y < DAYS_PER_4Y
        && (rem - q * DAYS_PER_4Y == 1460 && q == 24 ==> rem == DAYS_PER_100Y)
  {
  }

  lemma Cycles1(rem: int)
    requires 0 <= rem < DAYS_PER_4Y
    ensures var r := Capped(TruncDiv(rem, 365), 4);
      0 <= r <= 3 && 0 <= rem - r * 365 <= 365 && (rem - r * 365 == 365 ==> r == 3 && rem == 1460)
  {
  }

  /** Finds the year that begins in March: cycles of 400, 100, 4 and 1 years are taken off in turn, and the last of
      each kind may be a day longer. */
  method MarchYear(days: int) returns (year: int, remdays: int)
    requires days + LEAPOCH >= 0
    ensures InMarchYear(days, year, remdays) && 0 <= remdays <= 365
  {
    hide TruncDiv, TruncMod, InMarchYear, Leaps;
    Cycles400(days);
    var qcCycles := TruncDiv(days, DAYS_PER_400Y);
    remdays := TruncMod(days, DAYS_PER_400Y);
    if remdays < 0 {
      remdays := remdays + DAYS_PER_400Y;
      qcCycles := qcCycles - 1;
    }
    Cycles100(remdays);
    var cCycles := TruncDiv(remdays, DAYS_PER_100Y);
    if cCycles == 4 {
      cCycles := cCycles - 1;
    }
    remdays := remdays - cCycles * DAYS_PER_100Y;
    Cycles4(remdays);
    var qCycles := TruncDiv(remdays, DAYS_PER_4Y);
    if qCycles == 25 {
      qCycles := qCycles - 1;
    }
    remdays := remdays - qCycles * DAYS_PER_4Y;
    Cycles1(remdays);
    var remyears := TruncDiv(remdays, 365);
    if remyears == 4 {
      remyears := remyears - 1;
    }
    remdays := remdays - remyears * 365;
    year := 2000 + remyears + 4 * qCycles + 100 * cCycles + 400 * qcCycles;
    CyclesAre(days, qcCycles, cCycles, qCycles, remyears, remdays);
  }

  lemma CyclesAre(days: int, qc: int, c: int, q: int, r: int, rem: int)
    requires 0 <= c <= 3 && 0 <= q <= 24 && 0 <= r <= 3 && 0 <= rem <= 365 && days + LEAPOCH >= 0
    requires days == qc * DAYS_PER_400Y + c * DAYS_PER_100Y + q * DAYS_PER_4Y + r * 365 + rem
    requires rem == 365 ==> r == 3 && (q == 24 ==> c == 3)
    ensures InMarchYear(days, 2000 + r + 4 * q + 100 * c + 400 * qc, rem)
  {
    hide Leaps, IsLeapYear;
    assert qc >= -1;
    var year := 2000 + r + 4 * q + 100 * c + 400 * qc;
    LeapsOfCycles(qc, c, q, r);
    assert year >= 1969;
    if rem == 365 {
      LeapAfterCycles(qc, c, q);
    }
  }

  lemma LeapsOfCycles(qc: int, c: int, q: int, r: int)
    requires 0 <= c <= 3 && 0 <= q <= 24 && 0 <= r <= 3 && qc >= -1
    ensures Leaps(2000 + r + 4 * q + 100 * c + 400 * qc) == 485 + 97 * qc + 24 * c + q
  {
    var y := 2000 + r + 4 * q + 100 * c + 400 * qc;
    assert y / 4 == 500 + 100 * qc + 25 * c + q;
    assert y / 100 == 20 + 4 * qc + c;
    assert y / 400 == 5 + qc;
  }

  lemma LeapAfterCycles(qc: int, c: int, q: int)
    requires 0 <= c <= 3 && 0 <= q <= 24 && qc >= -1 && (q == 24 ==> c == 3)
    ensures IsLeapYear(2000 + 3 + 4 * q + 100 * c + 400 * qc + 1)
  {
    var y := 2004 + 4 * q + 100 * c + 400 * qc;
    assert y % 4 == 0;
    if q == 24 {
      assert y == 400 * (6 + qc);
    } else {
      assert y % 100 == 4 * (q + 1);
    }
  }

  const MONTHS: seq<nat> := [31, 30, 31, 30, 31, 31, 30, 31, 30, 31, 31, 29]

  /** Days before the `i`-th month of a year that begins in March. */
  function MarchDays(i: nat): (n: nat)
    requires i <= 11
  {
    [0, 31, 61, 92, 122, 153, 184, 214, 245, 275, 306, 337][i]
  }

  /** Splits a day of a year that begins in March into month and day. */
  method MarchMonth(rem: int) returns (month: nat, remdays: nat)
    requires 0 <= rem <= 365
    ensures 1 <= month <= 12 && rem == MarchDays(month - 1) + remdays && remdays < MONTHS[month - 1]
  {
    month, remdays := 0, rem;
    for i := 0 to 12
      invariant month == i && remdays + (if i < 12 then MarchDays(i) else 366) == rem
    {
      month := month + 1;
      if remdays < MONTHS[i] {
        return;
      }
      remdays := remdays - MONTHS[i];
    }
  }

  /** A day of a year that begins in March, as a date of the year that begins in January. */
  lemma MarchDate(days: int, year: int, rem: int, i: nat, dd: nat)
    requires InMarchYear(days, year, rem) && i <= 11 && rem == MarchDays(i) + dd && dd < MONTHS[i]
      && days + LEAPOCH >= 0
    ensures var (y, m) := if i + 3 > 12 then (year + 1, i - 9) else (year, i + 3);
      && y >= 1970 && 1 <= m <= 12 && dd + 1 <= MonthLength(y, m) && DayNumber(y, m, dd + 1) == days + LEAPOCH
  {
    if i + 3 > 12 {
      var y, m := year + 1, i - 9;
      DaysBeforeYearIs(y);
      DaysBeforeMonthIs(y, m);
    } else {
      if year >= 1970 {
        DaysBeforeYearIs(year);
        LeapsStep(year);
        DaysBeforeMonthIs(year, i + 3);
      }
    }
  }

  /** The date of a point in time; `None` is the panic from the year 10000 on. */
  method FromTime(secs: nat) returns (d: Option<Date>)
    ensures d.None? <==> secs >= YEAR_9999_SECONDS
    ensures d.Some? ==> Real(d.value) && Seconds(d.value) == secs
  {
    hide InMarchYear, MarchDays, TruncMod, DaysBeforeYear, DaysBeforeMonth, IsLeapYear, Leaps;
    if secs >= YEAR_9999_SECONDS {
      return None;
    }
    var days := secs / SECONDS_IN_DAY - LEAPOCH;
    var secsOfDay := secs % SECONDS_IN_DAY;
    var year, remdays := MarchYear(days);
    var month, rem := MarchMonth(remdays);
    MarchDate(days, year, remdays, month - 1, rem);
    var mday := rem + 1;
    if month + 2 > 12 {
      year := year + 1;
      month := month - 10;
    } else {
      month := month + 2;
    }
    var weekDay := TruncMod(3 + days, 7);
    if weekDay <= 0 {
      weekDay := weekDay + 7;
    }
    WeekDayIs(days, weekDay);
    YearBound(year, month, mday, secs);
    TimeOfDay(secsOfDay);
    d := Some(Date(secsOfDay % 60, secsOfDay % SECONDS_IN_HOUR / 60, secsOfDay / SECONDS_IN_HOUR, mday, month, year,
                   weekDay));
  }

  lemma WeekDayIs(days: int, w: int)
    requires days + LEAPOCH >= 0
      && w == (if TruncMod(3 + days, 7) <= 0 then TruncMod(3 + days, 7) + 7 else TruncMod(3 + days, 7))
    ensures w == WeekDay(days + LEAPOCH)
  {
  }

  lemma YearBound(y: nat, m: nat, d: nat, secs: nat)
    requires y >= 1970 && 1 <= m <= 12 && d >= 1 && secs < YEAR_9999_SECONDS
      && DayNumber(y, m, d) == secs / SECONDS_IN_DAY
    ensures y <= 9999
  {
    if y > 9999 {
      DaysBeforeYearMonotone(10000, y);
      DaysBeforeYearIs(10000);
    }
  }

  lemma {:induction false} DaysBeforeYearMonotone(y: nat, y': nat)
    requires 1970 <= y <= y'
    ensures DaysBeforeYear(y') >= DaysBeforeYear(y) + 365 * (y' - y)
  {
    if y < y' {
      DaysBeforeYearMonotone(y, y' - 1);
    }
  }

  lemma TimeOfDay(s: nat)
    requires s < SECONDS_IN_DAY
    ensures s / SECONDS_IN_HOUR < 24 && s % SECONDS_IN_HOUR / 60 < 60
    ensures s == s / SECONDS_IN_HOUR * SECONDS_IN_HOUR + s % SECONDS_IN_HOUR / 60 * 60 + s % 60
  {
  }

  // ----- dates and seconds correspond

  lemma WithinYear(y: nat, m: nat, d: nat)
    requires y >= 1970 && 1 <= m <= 12 && 1 <= d <= MonthLength(y, m)
    ensures DaysBeforeMonth(y, m) + d - 1 < YearLength(y)
  {
    DaysBeforeMonthIs(y, m);
  }

  lemma {:induction false} LaterMonth(y: nat, m: nat, m': nat)
    requires 1 <= m < m' <= 12
    ensures DaysBeforeMonth(y, m) + MonthLength(y, m) <= DaysBeforeMonth(y, m')
  {
    if m + 1 < m' {
      LaterMonth(y, m, m' - 1);
    }
  }

  /** Later dates have larger numbers. */
  lemma LaterDate(y: nat, m: nat, d: nat, y': nat, m': nat, d': nat)
    requires y >= 1970 && 1 <= m <= 12 && 1 <= d <= MonthLength(y, m)
    requires y' >= 1970 && 1 <= m' <= 12 && 1 <= d' <= MonthLength(y', m')
    requires y < y' || (y == y' && (m < m' || (m == m' && d < d')))
    ensures DayNumber(y, m, d) < DayNumber(y', m', d')
  {
    hide MonthLength, DaysBeforeMonth, YearLength;
    if y < y' {
      WithinYear(y, m, d);
      DaysBeforeYearMonotone(y + 1, y');
    } else if m < m' {
      LaterMonth(y, m, m');
    }
  }

  lemma DayNumberIsUnique(y: nat, m: nat, d: nat, y': nat, m': nat, d': nat)
    requires y >= 1970 && 1 <= m <= 12 && 1 <= d <= MonthLength(y, m)
    requires y' >= 1970 && 1 <= m' <= 12 && 1 <= d' <= MonthLength(y', m')
    requires DayNumber(y, m, d) == DayNumber(y', m', d')
    ensures y == y' && m == m' && d == d'
  {
    hide MonthLength, DayNumber;
    if y < y' || (y == y' && (m < m' || (m == m' && d < d'))) {
      LaterDate(y, m, d, y', m', d');
    } else if y' < y || (y == y' && (m' < m || (m == m' && d' < d))) {
      LaterDate(y', m', d', y, m, d);
    }
  }

  /** A second belongs to one real date only. */
  lemma SecondsAreUnique(d: Date, d': Date)
    requires Real(d) && Real(d') && Seconds(d) == Seconds(d')
    ensures d == d'
  {
    hide MonthLength, DayNumber, WeekDay;
    SplitSeconds(DayNumber(d.year, d.month, d.day), d.hour, d.minute, d.second,
                 DayNumber(d'.year, d'.month, d'.day), d'.hour, d'.minute, d'.second);
    DayNumberIsUnique(d.year, d.month, d.day, d'.year, d'.month, d'.day);
  }

  lemma SplitSeconds(n: nat, h: nat, m: nat, s: nat, n': nat, h': nat, m': nat, s': nat)
    requires h < 24 && m < 60 && s < 60 && h' < 24 && m' < 60 && s' < 60
    requires n * SECONDS_IN_DAY + h * SECONDS_IN_HOUR + m * 60 + s ==
      n' * SECONDS_IN_DAY + h' * SECONDS_IN_HOUR + m' * 60 + s'
    ensures n == n' && h == h' && m == m' && s == s'
  {
  }

  /** A valid date survives conversion to seconds and back exactly if it exists and names its true weekday: day and
      weekday are not checked against the calendar when a date is parsed. */
  lemma SurvivesExactlyIfReal(d: Date, back: Date)
    requires d.IsValid() && Real(back) && Seconds(back) == ToTime(d)
    ensures back == d <==> Real(d)
  {
    hide MonthLength, DayNumber, WeekDay;
    if Real(d) {
      SecondsAreUnique(d, back);
    }
  }

  /** No valid date lies beyond what can be converted back. */
  lemma ValidIsInRange(d: Date)
    requires d.IsValid()
    ensures ToTime(d) < YEAR_9999_SECONDS
  {
    hide DaysBeforeYear, DaysBeforeMonth, Leaps, IsLeapYear;
    DaysBeforeMonthIs(d.year, d.month);
    NextYear(d.year);
    DaysBeforeYearMonotone(d.year + 1, 10000);
    FirstOf10000();
  }

  lemma NextYear(y: nat)
    requires y >= 1970
    ensures DaysBeforeYear(y + 1) == DaysBeforeYear(y) + YearLength(y)
  {
  }

  lemma FirstOf10000()
    ensures DaysBeforeYear(10000) * SECONDS_IN_DAY == YEAR_9999_SECONDS
  {
    hide DaysBeforeYear;
    DaysBeforeYearIs(10000);
  }

  /** Any valid date to seconds and back: the result is a real date of the same second, and the same date exactly if
      that was real. */
  method ThereAndBack(d: Date) returns (back: Date)
    requires d.IsValid()
    ensures Real(back) && Seconds(back) == ToTime(d)
    ensures back == d <==> Real(d)
  {
    hide MonthLength, DayNumber, WeekDay;
    ValidIsInRange(d);
    var date := FromTime(ToTime(d));
    back := date.value;
    SurvivesExactlyIfReal(d, back);
  }

  // ----- text

  function Digit(n: nat): char
    requires n < 10
  {
    ('0' as int + n) as char
  }

  function TwoDigits(n: nat): (s: string)
    requires n < 100
    ensures |s| == 2
  {
    [Digit(n / 10), Digit(n % 10)]
  }

  function FourDigits(n: nat): (s: string)
    requires n < 10000
    ensures |s| == 4
  {
    TwoDigits(n / 100) + TwoDigits(n % 100)
  }

  const DAY_NAMES: seq<string> := ["Mon", "Tue", "Wed", "Thu", "Fri", "Sat", "Sun"]
  const MONTH_NAMES: seq<string> := ["Jan", "Feb", "Mar", "Apr", "May", "Jun", "Jul", "Aug", "Sep", "Oct", "Nov", "Dec"]

  function DayName(w: nat): (s: string)
    requires 1 <= w <= 7
    ensures |s| == 3
  {
    DAY_NAMES[w - 1]
  }

  function MonthName(m: nat): (s: string)
    requires 1 <= m <= 12
    ensures |s| == 3
  {
    MONTH_NAMES[m - 1]
  }

  /** The IMF-fixdate form: `Sun, 06 Nov 1994 08:49:37 GMT`. */
  function ImfFixdate(d: Date): (s: string)
    requires d.IsValid()
    ensures |s| == 29
  {
    DateText(d) + TimeText(d)
  }

  /** The template `   , 00     0000 00:00:00 GMT`. */
  function Template(i: nat): char {
    if i == 3 then ','
    else if i == 19 || i == 22 then ':'
    else if i == 26 then 'G'
    else if i == 27 then 'M'
    else if i == 28 then 'T'
    else if i < 5 || i == 7 || 8 <= i <= 11 || i == 16 || i == 25 then ' '
    else '0'
  }

  /** Prints a date by filling in a template. */
  method Display(d: Date) returns (buf: array<char>)
    requires d.IsValid()
    ensures fresh(buf) && buf[..] == ImfFixdate(d)
  {
    hide DayName, MonthName, Digit, Template, TwoDigits, FourDigits;
    buf := new char[29](i => Template(i));
    FillDate(buf, d);
    FillTime(buf, d);
    assert buf[..29] == buf[..];
  }

  function DateText(d: Date): (s: string)
    requires d.IsValid()
    ensures |s| == 17
  {
    DayName(d.weekDay) + ", " + TwoDigits(d.day) + " " + MonthName(d.month) + " " + FourDigits(d.year) + " "
  }

  function TimeText(d: Date): (s: string)
    requires d.IsValid()
    ensures |s| == 12
  {
    TwoDigits(d.hour) + ":" + TwoDigits(d.minute) + ":" + TwoDigits(d.second) + " GMT"
  }

  method FillDate(buf: array<char>, d: Date)
    requires d.IsValid() && buf.Length == 29 && forall j :: 0 <= j < 29 ==> buf[j] == Template(j)
    modifies buf
    ensures buf[..17] == DateText(d) && forall j :: 17 <= j < 29 ==> buf[j] == Template(j)
  {
    hide DayName, MonthName, Template, TwoDigits, FourDigits;
    ghost var s := FillDay(buf, d);
    Separators();
    var year := LastFour(d.year);
    s := Fill(buf, 8, MonthName(d.month), s);
    s := Keep(buf, 11, " ", s);
    s := Fill(buf, 12, year, s);
    s := Keep(buf, 16, " ", s);
  }

  method FillDay(buf: array<char>, d: Date) returns (ghost s: string)
    requires d.IsValid() && buf.Length == 29 && forall j :: 0 <= j < 29 ==> buf[j] == Template(j)
    modifies buf
    ensures buf[..8] == s == DayName(d.weekDay) + ", " + TwoDigits(d.day) + " "
    ensures forall j :: 8 <= j < 29 ==> buf[j] == Template(j)
  {
    hide DayName, Template, TwoDigits;
    Separators();
    var day := LastTwo(d.day);
    s := Fill(buf, 0, DayName(d.weekDay), "");
    s := Keep(buf, 3, ", ", s);
    s := Fill(buf, 5, day, s);
    s := Keep(buf, 7, " ", s);
    assert "" + DayName(d.weekDay) == DayName(d.weekDay);
  }

  method FillTime(buf: array<char>, d: Date)
    requires d.IsValid() && buf.Length == 29 && buf[..17] == DateText(d) && forall j :: 17 <= j < 29 ==>
      buf[j] == Template(j)
    modifies buf
    ensures buf[..29] == DateText(d) + TimeText(d)
  {
    hide DateText, Template, TwoDigits;
    Separators();
    var hour := LastTwo(d.hour);
    var minute := LastTwo(d.minute);
    var second := LastTwo(d.second);
    ghost var t, s := DateText(d), DateText(d);
    s := Fill(buf, 17, hour, s);
    s := Keep(buf, 19, ":", s);
    s := Fill(buf, 20, minute, s);
    s := Keep(buf, 22, ":", s);
    s := Fill(buf, 23, second, s);
    s := Keep(buf, 25, " GMT", s);
    TimeGrouped(t, hour, minute, second);
  }

  lemma TimeGrouped(t: string, h: string, m: string, s: string)
    ensures t + h + ":" + m + ":" + s + " GMT" == t + (h + ":" + m + ":" + s + " GMT")
  {
  }

  lemma Separators()
    ensures Template(3) == ',' && Template(4) == Template(7) == Template(11) == Template(16) == Template(25) == ' '
    ensures Template(19) == Template(22) == ':' && Template(26) == 'G' && Template(27) == 'M' && Template(28) == 'T'
  {
  }

  /** The digits of a number one by one, as the source writes them. */
  method LastTwo(n: nat) returns (s: string)
    requires n < 100
    ensures s == TwoDigits(n)
  {
    hide Digit;
    s := [Digit(n / 10), Digit(n % 10)];
  }

  method LastFour(n: nat) returns (s: string)
    requires n < 10000
    ensures s == FourDigits(n)
  {
    hide Digit;
    YearDigits(n);
    s := [Digit(n / 1000), Digit(n / 100 % 10), Digit(n / 10 % 10), Digit(n % 10)];
  }

  /** Overwrites the template from `at` on with the next letters. */
  method Fill(buf: array<char>, at: nat, letters: string, ghost before: string) returns (ghost after: string)
    requires at + |letters| <= buf.Length == 29 && buf[..at] == before
    requires forall j :: at <= j < 29 ==> buf[j] == Template(j)
    modifies buf
    ensures after == before + letters && buf[..at + |letters|] == after
    ensures forall j :: at + |letters| <= j < 29 ==> buf[j] == Template(j)
  {
    hide Template;
    for i := 0 to |letters|
      invariant buf[..at + i] == before + letters[..i]
      invariant forall j :: at + i <= j < 29 ==> buf[j] == Template(j)
    {
      buf[at + i] := letters[i];
      assert buf[..at + (i + 1)] == buf[..at + i] + [letters[i]];
      assert letters[..i + 1] == letters[..i] + [letters[i]];
    }
    return before + letters;
  }

  /** What the template has there already. */
  ghost method Keep(buf: array<char>, at: nat, letters: string, before: string) returns (after: string)
    requires at + |letters| <= buf.Length == 29 && buf[..at] == before
    requires forall j :: at <= j < 29 ==> buf[j] == Template(j)
    requires forall i :: 0 <= i < |letters| ==> Template(at + i) == letters[i]
    ensures after == before + letters && buf[..at + |letters|] == after
    ensures forall j :: at + |letters| <= j < 29 ==> buf[j] == Template(j)
  {
    hide Template;
    return before + letters;
  }

  lemma YearDigits(y: nat)
    requires y < 10000
    ensures y / 100 / 10 == y / 1000 && y / 100 % 10 == y / 100 % 10 && y % 100 / 10 == y / 10 % 10
      && y % 100 % 10 == y % 10
  {
  }

  // ----- parsing

  function ParseDigits(s: string): Option<nat>
    requires s != ""
  {
    var c := s[|s| - 1];
    if !('0' <= c <= '9') then None
    else if |s| == 1 then Some(c as int - '0' as int)
    else
      match ParseDigits(s[..|s| - 1])
      case None => None
      case Some(n) => Some(n * 10 + (c as int - '0' as int))
  }

  /** An unsigned number, with a plus sign if need be. */
  function ParseNat(s: string): Option<nat> {
    if s == "" then None
    else if s[0] == '+' then (if |s| == 1 then None else ParseDigits(s[1..]))
    else ParseDigits(s)
  }

  lemma ParseTwo(n: nat)
    requires n < 100
    ensures ParseNat(TwoDigits(n)) == Some(n)
  {
    var s := TwoDigits(n);
    assert s[..1] == [Digit(n / 10)];
    OneDigit(n / 10);
  }

  lemma OneDigit(n: nat)
    requires n < 10
    ensures ParseDigits([Digit(n)]) == Some(n) && Digit(n) != '+'
  {
  }

  lemma ParseFour(n: nat)
    requires n < 10000
    ensures ParseNat(FourDigits(n)) == Some(n)
  {
    var s := FourDigits(n);
    var a, b := n / 100, n % 100;
    assert s[..3] == [Digit(a / 10), Digit(a % 10), Digit(b / 10)];
    assert s[..3][..2] == TwoDigits(a);
    ParseTwo(a);
    assert ParseDigits(s[..3]) == Some(a * 10 + b / 10);
  }

  /** Which of `names`, set between `before` and `after`, is `x`; counted from 1. */
  function WhichName(x: string, names: seq<string>, before: string, after: string): (r: Option<nat>)
    ensures r.Some? ==> 1 <= r.value <= |names| && x == before + names[r.value - 1] + after
    ensures r.None? ==> forall i :: 0 <= i < |names| ==> x != before + names[i] + after
  {
    if names == [] then None
    else if x == before + names[|names| - 1] + after then Some(|names|)
    else WhichName(x, names[..|names| - 1], before, after)
  }

  lemma {:induction false} NameFound(names: seq<string>, i: nat, before: string, after: string)
    requires i < |names| && forall j, k :: 0 <= j < k < |names| ==> names[j] != names[k]
    ensures WhichName(before + names[i] + after, names, before, after) == Some(i + 1)
  {
    var r := WhichName(before + names[i] + after, names, before, after);
    var j := r.value - 1;
    assert (before + names[i] + after)[|before|..|before| + |names[i]|] == names[i];
    SameMiddle(before, names[i], names[j], after);
  }

  lemma SameMiddle(before: string, x: string, y: string, after: string)
    requires before + x + after == before + y + after
    ensures x == y
  {
    assert |x| == |y|;
    assert x == (before + x + after)[|before|..|before| + |x|];
    assert y == (before + y + after)[|before|..|before| + |y|];
  }

  lemma MonthFound(m: nat, before: string, after: string)
    requires 1 <= m <= 12
    ensures WhichName(before + MonthName(m) + after, MONTH_NAMES, before, after) == Some(m)
  {
    NameFound(MONTH_NAMES, m - 1, before, after);
  }

  lemma DayFound(w: nat, before: string, after: string)
    requires 1 <= w <= 7
    ensures WhichName(before + DayName(w) + after, DAY_NAMES, before, after) == Some(w)
  {
    NameFound(DAY_NAMES, w - 1, before, after);
  }

  /** A date of the parts, if all of them could be read. */
  function FromParts(second: Option<nat>, minute: Option<nat>, hour: Option<nat>, day: Option<nat>, month: Option<nat>,
                     year: Option<nat>, weekDay: Option<nat>): Option<Date> {
    if second.Some? && minute.Some? && hour.Some? && day.Some? && month.Some? && year.Some? && weekDay.Some?
    then Some(Date(second.value, minute.value, hour.value, day.value, month.value, year.value, weekDay.value))
    else None
  }

  function ParseImfFixdate(s: string): Option<Date> {
    if |s| != 29 || s[25..] != " GMT" || s[16] != ' ' || s[19] != ':' || s[22] != ':' then None
    else
      FromParts(ParseNat(s[23..25]), ParseNat(s[20..22]), ParseNat(s[17..19]), ParseNat(s[5..7]),
                WhichName(s[7..12], MONTH_NAMES, " ", " "), ParseNat(s[12..16]), WhichName(s[..5], DAY_NAMES, "", ", "))
  }

  const LONG_DAY_NAMES: seq<string> := ["Monday", "Tuesday", "Wednesday", "Thursday", "Friday", "Saturday", "Sunday"]

  /** Which of the names the string begins with. */
  function WhichPrefix(s: string, names: seq<string>): (r: Option<nat>)
    ensures r.Some? ==> 1 <= r.value <= |names| && names[r.value - 1] + ", " <= s
    ensures r.None? ==> forall i :: 0 <= i < |names| ==> !(names[i] + ", " <= s)
  {
    if names == [] then None
    else
      match WhichPrefix(s, names[..|names| - 1])
      case Some(i) => Some(i)
      case None => if names[|names| - 1] + ", " <= s then Some(|names|) else None
  }

  function ParseRfc850(s0: string): Option<Date> {
    if |s0| < 23 then None
    else
      match WhichPrefix(s0, LONG_DAY_NAMES)
      case None => None
      case Some(w) =>
        var s := s0[|LONG_DAY_NAMES[w - 1]| + 2..];
        if |s| != 22 || s[12] != ':' || s[15] != ':' || s[18..22] != " GMT" then None
        else
          var year := match ParseNat(s[7..9])
            case None => None
            case Some(y) => Some(if y < 70 then y + 2000 else y + 1900);
          FromParts(ParseNat(s[16..18]), ParseNat(s[13..15]), ParseNat(s[10..12]), ParseNat(s[0..2]),
                    WhichName(s[2..7], MONTH_NAMES, "-", "-"), year, Some(w))
  }

  function ParseAsctime(s: string): Option<Date> {
    if |s| != 24 || s[10] != ' ' || s[13] != ':' || s[16] != ':' || s[19] != ' ' then None
    else
      FromParts(ParseNat(s[17..19]), ParseNat(s[14..16]), ParseNat(s[11..13]),
                ParseNat(if s[8] == ' ' then s[9..10] else s[8..10]),
                WhichName(s[4..8], MONTH_NAMES, "", " "), ParseNat(s[20..24]), WhichName(s[0..4], DAY_NAMES, "", " "))
  }

  predicate IsSpace(c: char) {
    c == ' ' || '\t' <= c <= '\r'
  }

  function TrimStart(s: string): string {
    if s != "" && IsSpace(s[0]) then TrimStart(s[1..]) else s
  }

  function TrimEnd(s: string): string {
    if s != "" && IsSpace(s[|s| - 1]) then TrimEnd(s[..|s| - 1]) else s
  }

  /** Any of the three forms of a date, with white space around it. Only the ranges of the fields are checked. */
  function Parse(s: string): (r: Option<Date>)
    ensures r.Some? ==> r.value.IsValid()
  {
    if exists i :: 0 <= i < |s| && s[i] as int >= 128 then None
    else
      var x := TrimEnd(TrimStart(s));
      var d := if ParseImfFixdate(x).Some? then ParseImfFixdate(x) else if ParseRfc850(x).Some? then ParseRfc850(x)
        else ParseAsctime(x);
      if d.Some? && d.value.IsValid() then d else None
  }

  // ----- printing and parsing undo each other

  lemma {:induction false} TrimInside(before: string, x: string, after: string)
    requires x != "" && !IsSpace(x[0]) && !IsSpace(x[|x| - 1])
    requires (forall i :: 0 <= i < |before| ==> IsSpace(before[i]))
      && (forall i :: 0 <= i < |after| ==> IsSpace(after[i]))
    ensures TrimEnd(TrimStart(before + x + after)) == x
  {
    TrimmedStart(before, x + after);
    assert before + x + after == before + (x + after);
    TrimmedEnd(x, after);
  }

  lemma {:induction false} TrimmedStart(before: string, x: string)
    requires x != "" && !IsSpace(x[0]) && forall i :: 0 <= i < |before| ==> IsSpace(before[i])
    ensures TrimStart(before + x) == x
  {
    if before == "" {
      assert before + x == x;
    } else {
      assert (before + x)[1..] == before[1..] + x;
      TrimmedStart(before[1..], x);
    }
  }

  lemma {:induction false} TrimmedEnd(x: string, after: string)
    requires x != "" && !IsSpace(x[|x| - 1]) && forall i :: 0 <= i < |after| ==> IsSpace(after[i])
    ensures TrimEnd(x + after) == x
  {
    if after == "" {
      assert x + after == x;
    } else {
      assert (x + after)[..|x + after| - 1] == x + after[..|after| - 1];
      TrimmedEnd(x, after[..|after| - 1]);
    }
  }

  predicate Ascii(s: string) {
    forall i :: 0 <= i < |s| ==> s[i] as int < 128
  }

  lemma NamesAreAscii(w: nat, m: nat)
    requires 1 <= w <= 7 && 1 <= m <= 12
    ensures Ascii(DayName(w)) && Ascii(MonthName(m)) && !IsSpace(DayName(w)[0])
  {
  }

  lemma DigitsAreAscii(n: nat)
    ensures n < 100 ==> Ascii(TwoDigits(n))
    ensures n < 10000 ==> Ascii(FourDigits(n))
  {
  }

  /** The fields of a printed date are where the parser looks for them. */
  lemma ImfFields(d: Date)
    requires d.IsValid()
    ensures var s := ImfFixdate(d);
      && s[25..] == " GMT" && s[16] == ' ' && s[19] == ':' && s[22] == ':'
      && s[23..25] == TwoDigits(d.second) && s[20..22] == TwoDigits(d.minute) && s[17..19] == TwoDigits(d.hour)
      && s[5..7] == TwoDigits(d.day) && s[7..12] == " " + MonthName(d.month) + " " && s[12..16] == FourDigits(d.year)
      && s[..5] == "" + DayName(d.weekDay) + ", "
  {
    hide DayName, MonthName, TwoDigits, FourDigits;
    var s, a, b := ImfFixdate(d), DateText(d), TimeText(d);
    assert s[..17] == a && s[17..] == b;
    assert a[..5] == "" + DayName(d.weekDay) + ", " && a[5..7] == TwoDigits(d.day);
    assert a[7..12] == " " + MonthName(d.month) + " " && a[12..16] == FourDigits(d.year) && a[16] == ' ';
    assert b[0..2] == TwoDigits(d.hour) && b[2] == ':' && b[3..5] == TwoDigits(d.minute) && b[5] == ':';
    assert b[6..8] == TwoDigits(d.second) && b[8..] == " GMT";
    assert s[..5] == a[..5] && s[5..7] == a[5..7] && s[7..12] == a[7..12] && s[12..16] == a[12..16];
    assert s[17..19] == b[0..2] && s[20..22] == b[3..5] && s[23..25] == b[6..8] && s[25..] == b[8..];
  }

  lemma ImfParsed(d: Date)
    requires d.IsValid()
    ensures ParseImfFixdate(ImfFixdate(d)) == Some(d)
  {
    hide DayName, MonthName, TwoDigits, FourDigits, ImfFixdate, WhichName, ParseNat;
    ImfFields(d);
    ParseTwo(d.second);
    ParseTwo(d.minute);
    ParseTwo(d.hour);
    ParseTwo(d.day);
    ParseFour(d.year);
    MonthFound(d.month, " ", " ");
    DayFound(d.weekDay, "", ", ");
  }

  lemma ImfIsAscii(d: Date)
    requires d.IsValid()
    ensures Ascii(ImfFixdate(d)) && !IsSpace(ImfFixdate(d)[0]) && !IsSpace(ImfFixdate(d)[28])
  {
    hide DayName, MonthName, TwoDigits, FourDigits;
    NamesAreAscii(d.weekDay, d.month);
    DigitsAreAscii(d.second);
    DigitsAreAscii(d.minute);
    DigitsAreAscii(d.hour);
    DigitsAreAscii(d.day);
    DigitsAreAscii(d.year);
    ImfFields(d);
    var s := ImfFixdate(d);
    assert s[28] == s[25..][3];
    assert s[0] == DayName(d.weekDay)[0];
  }

  /** Parsing a printed date yields it again, white space around it or not. */
  lemma PrintedIsParsed(d: Date, before: string, after: string)
    requires d.IsValid()
    requires (forall i :: 0 <= i < |before| ==> IsSpace(before[i]))
      && (forall i :: 0 <= i < |after| ==> IsSpace(after[i]))
    ensures Parse(before + ImfFixdate(d) + after) == Some(d)
  {
    hide ImfFixdate, ParseImfFixdate, ParseRfc850, ParseAsctime, TrimEnd, TrimStart;
    ImfIsAscii(d);
    ImfParsed(d);
    TrimInside(before, ImfFixdate(d), after);
  }

  /** Prints a point in time. Parsing the text and converting back yields the same second, and the text is that of
      a real date on its true weekday. */
  method FmtHttpDate(secs: nat) returns (text: Option<string>, ghost d: Date)
    ensures text.None? <==> secs >= YEAR_9999_SECONDS
    ensures text.Some? ==> Real(d) && text.value == ImfFixdate(d) && Parse(text.value) == Some(d) && ToTime(d) == secs
  {
    hide ImfFixdate, Parse, MonthLength, DayNumber, WeekDay;
    d := Date(0, 0, 0, 1, 1, 1970, 1);
    var date := FromTime(secs);
    if date.None? {
      return None, d;
    }
    d := date.value;
    var buf := Display(date.value);
    PrintedIsParsed(d, "", "");
    assert "" + ImfFixdate(d) + "" == ImfFixdate(d);
    return Some(buf[..]), d;
  }

  // ----- the older forms

  /** The form of C's asctime: `Sun Nov  6 08:49:37 1994`. */
  function Asctime(d: Date): (s: string)
    requires d.IsValid()
    ensures |s| == 24
  {
    DayName(d.weekDay) + " " + MonthName(d.month) + " " + (if d.day < 10 then [' ', Digit(d.day)] else TwoDigits(d.day))
      + " "
      + TwoDigits(d.hour) + ":" + TwoDigits(d.minute) + ":" + TwoDigits(d.second) + " " + FourDigits(d.year)
  }

  lemma AsctimeFields(d: Date)
    requires d.IsValid()
    ensures var s := Asctime(d);
      && s[10] == ' ' && s[13] == ':' && s[16] == ':' && s[19] == ' ' && s[3] == ' '
      && s[17..19] == TwoDigits(d.second) && s[14..16] == TwoDigits(d.minute) && s[11..13] == TwoDigits(d.hour)
      && s[8..10] == (if d.day < 10 then [' ', Digit(d.day)] else TwoDigits(d.day))
      && s[4..8] == "" + MonthName(d.month) + " "
      && s[20..24] == FourDigits(d.year) && s[0..4] == "" + DayName(d.weekDay) + " "
  {
    hide DayName, MonthName, TwoDigits, FourDigits, Digit;
    var day := if d.day < 10 then [' ', Digit(d.day)] else TwoDigits(d.day);
    var a := DayName(d.weekDay) + " " + MonthName(d.month) + " " + day + " ";
    var b := TwoDigits(d.hour) + ":" + TwoDigits(d.minute) + ":" + TwoDigits(d.second) + " " + FourDigits(d.year);
    var s := Asctime(d);
    assert s == a + b;
    FieldsOfDay(DayName(d.weekDay), MonthName(d.month), day);
    FieldsOfTime(TwoDigits(d.hour), TwoDigits(d.minute), TwoDigits(d.second), FourDigits(d.year));
    FieldsBehind(a, b);
  }

  lemma FieldsOfDay(name: string, month: string, day: string)
    requires |name| == |month| == 3 && |day| == 2
    ensures var a := name + " " + month + " " + day + " ";
      |a| == 11 && a[0..4] == "" + name + " " && a[3] == ' ' && a[4..8] == "" + month + " " && a[8..10] == day
        && a[10] == ' '
  {
  }

  lemma FieldsOfTime(hour: string, minute: string, second: string, year: string)
    requires |hour| == |minute| == |second| == 2 && |year| == 4
    ensures var b := hour + ":" + minute + ":" + second + " " + year;
      && |b| == 13 && b[0..2] == hour && b[2] == ':' && b[3..5] == minute && b[5] == ':'
      && b[6..8] == second && b[8] == ' ' && b[9..13] == year
  {
  }

  lemma FieldsBehind(a: string, b: string)
    requires |a| == 11 && |b| == 13
    ensures var s := a + b;
      && s[0..4] == a[0..4] && s[3] == a[3] && s[4..8] == a[4..8] && s[8..10] == a[8..10] && s[10] == a[10]
      && s[11..13] == b[0..2] && s[13] == b[2] && s[14..16] == b[3..5] && s[16] == b[5]
      && s[17..19] == b[6..8] && s[19] == b[8] && s[20..24] == b[9..13]
  {
  }

  lemma NotSpaceDigit(n: nat)
    requires n < 10
    ensures Digit(n) != ' '
  {
  }

  lemma AsctimeParsed(d: Date)
    requires d.IsValid()
    ensures ParseAsctime(Asctime(d)) == Some(d)
  {
    hide DayName, MonthName, FourDigits, Asctime, WhichName, ParseNat, Digit;
    AsctimeFields(d);
    ParseTwo(d.second);
    ParseTwo(d.minute);
    ParseTwo(d.hour);
    ParseTwo(d.day);
    ParseFour(d.year);
    MonthFound(d.month, "", " ");
    DayFound(d.weekDay, "", " ");
    var s := Asctime(d);
    assert s[8] == s[8..10][0] && s[9..10] == s[8..10][1..];
    if d.day < 10 {
      NatDigit(d.day);
      assert s[9..10] == [Digit(d.day)];
    } else {
      NotSpaceDigit(d.day / 10);
    }
  }

  lemma NatDigit(n: nat)
    requires n < 10
    ensures ParseNat([Digit(n)]) == Some(n)
  {
    OneDigit(n);
  }

  /** The form of RFC 850, with two digits for the year: `Sunday, 06-Nov-94 08:49:37 GMT`. */
  function Rfc850(d: Date): (s: string)
    requires d.IsValid()
  {
    LONG_DAY_NAMES[d.weekDay - 1] + ", " + Rfc850Rest(d)
  }

  function Rfc850Rest(d: Date): (s: string)
    requires d.IsValid()
    ensures |s| == 22
  {
    TwoDigits(d.day) + ("-" + MonthName(d.month) + "-") + TwoDigits(d.year % 100) + " "
      + TwoDigits(d.hour) + ":" + TwoDigits(d.minute) + ":" + TwoDigits(d.second) + " GMT"
  }

  lemma Rfc850Fields(d: Date)
    requires d.IsValid()
    ensures var s := Rfc850Rest(d);
      && s[12] == ':' && s[15] == ':' && s[18..22] == " GMT"
      && s[16..18] == TwoDigits(d.second) && s[13..15] == TwoDigits(d.minute) && s[10..12] == TwoDigits(d.hour)
      && s[0..2] == TwoDigits(d.day) && s[2..7] == "-" + MonthName(d.month) + "-" && s[7..9] == TwoDigits(d.year % 100)
  {
    hide MonthName, TwoDigits;
    var a := TwoDigits(d.day) + ("-" + MonthName(d.month) + "-") + TwoDigits(d.year % 100) + " ";
    var b := TwoDigits(d.hour) + ":" + TwoDigits(d.minute) + ":" + TwoDigits(d.second) + " GMT";
    var s := Rfc850Rest(d);
    assert s == a + b;
    assert a[0..2] == TwoDigits(d.day) && a[2..7] == "-" + MonthName(d.month) + "-"
      && a[7..9] == TwoDigits(d.year % 100);
    assert b[0..2] == TwoDigits(d.hour) && b[2] == ':' && b[3..5] == TwoDigits(d.minute) && b[5] == ':';
    assert b[6..8] == TwoDigits(d.second) && b[8..12] == " GMT";
    assert s[0..2] == a[0..2] && s[2..7] == a[2..7] && s[7..9] == a[7..9];
    assert s[10..12] == b[0..2] && s[13..15] == b[3..5] && s[16..18] == b[6..8] && s[18..22] == b[8..12];
  }

  lemma LongDayFound(w: nat, rest: string)
    requires 1 <= w <= 7
    ensures WhichPrefix(LONG_DAY_NAMES[w - 1] + ", " + rest, LONG_DAY_NAMES) == Some(w)
  {
    var s := LONG_DAY_NAMES[w - 1] + ", " + rest;
    assert LONG_DAY_NAMES[w - 1] + ", " <= s;
    var r := WhichPrefix(s, LONG_DAY_NAMES);
    if r.Some? {
      assert s[0] == LONG_DAY_NAMES[w - 1][0] == LONG_DAY_NAMES[r.value - 1][0];
      assert s[1] == LONG_DAY_NAMES[w - 1][1] == LONG_DAY_NAMES[r.value - 1][1];
    }
  }

  /** The year two digits stand for. */
  function ShortYear(n: nat): nat {
    if n < 70 then n + 2000 else n + 1900
  }

  lemma Rfc850Parsed(d: Date)
    requires d.IsValid()
    ensures ParseRfc850(Rfc850(d)) == Some(d.(year := ShortYear(d.year % 100)))
  {
    hide MonthName, TwoDigits, WhichName, WhichPrefix, ParseNat, Rfc850Rest;
    var s0, name := Rfc850(d), LONG_DAY_NAMES[d.weekDay - 1];
    LongNames(d.weekDay);
    LongDayFound(d.weekDay, Rfc850Rest(d));
    assert s0[|name| + 2..] == Rfc850Rest(d);
    Rfc850Fields(d);
    ParseTwo(d.second);
    ParseTwo(d.minute);
    ParseTwo(d.hour);
    ParseTwo(d.day);
    ParseTwo(d.year % 100);
    MonthFound(d.month, "-", "-");
  }

  lemma Rfc850IsAscii(d: Date)
    requires d.IsValid()
    ensures Ascii(Rfc850(d)) && |Rfc850(d)| >= 30 && !IsSpace(Rfc850(d)[0]) && !IsSpace(Rfc850(d)[|Rfc850(d)| - 1])
  {
    hide MonthName, TwoDigits;
    NamesAreAscii(d.weekDay, d.month);
    DigitsAreAscii(d.second);
    DigitsAreAscii(d.minute);
    DigitsAreAscii(d.hour);
    DigitsAreAscii(d.day);
    DigitsAreAscii(d.year % 100);
    LongNames(d.weekDay);
    var s := Rfc850(d);
    assert s[0] == LONG_DAY_NAMES[d.weekDay - 1][0];
    assert s[|s| - 1] == Rfc850Rest(d)[21] == 'T' by { Rfc850Fields(d); assert Rfc850Rest(d)[18..22][3] == 'T'; }
  }

  /** The asctime form is understood as the same date; so is the form of RFC 850, but only while two digits tell the
      year. */
  lemma AllFormsAgree(d: Date)
    requires d.IsValid()
    ensures Parse(ImfFixdate(d)) == Some(d)
    ensures Parse(Asctime(d)) == Some(d)
    ensures Parse(Rfc850(d)) == Some(d) <==> 1970 <= d.year < 2070
  {
    hide ImfFixdate, ParseImfFixdate, ParseRfc850, ParseAsctime, TrimEnd, TrimStart, Asctime, Rfc850;
    PrintedIsParsed(d, "", "");
    assert "" + ImfFixdate(d) + "" == ImfFixdate(d);
    AsctimeIsAscii(d);
    AsctimeParsed(d);
    AsctimeIsNoOther(d);
    TrimInside("", Asctime(d), "");
    assert "" + Asctime(d) + "" == Asctime(d);
    Rfc850IsAscii(d);
    Rfc850Parsed(d);
    LongIsNotImf(Rfc850(d));
    TrimInside("", Rfc850(d), "");
    assert "" + Rfc850(d) + "" == Rfc850(d);
  }

  lemma LongIsNotImf(s: string)
    requires |s| >= 30
    ensures ParseImfFixdate(s) == None
  {
  }

  lemma AsctimeIsAscii(d: Date)
    requires d.IsValid()
    ensures Ascii(Asctime(d)) && !IsSpace(Asctime(d)[0]) && !IsSpace(Asctime(d)[23])
  {
    hide DayName, MonthName, TwoDigits, FourDigits, Digit;
    NamesAreAscii(d.weekDay, d.month);
    DigitsAreAscii(d.second);
    DigitsAreAscii(d.minute);
    DigitsAreAscii(d.hour);
    DigitsAreAscii(d.day);
    DigitsAreAscii(d.year);
    AsctimeFields(d);
    assert d.day < 10 ==> Digit(d.day) as int < 128 by { if d.day < 10 { DigitIsAscii(d.day); } }
    var s := Asctime(d);
    assert s[0] == DayName(d.weekDay)[0];
    assert s[23] == s[20..24][3];
    LastDigit(d.year);
  }

  lemma DigitIsAscii(n: nat)
    requires n < 10
    ensures Digit(n) as int < 128
  {
  }

  lemma LastDigit(n: nat)
    requires n < 10000
    ensures !IsSpace(FourDigits(n)[3])
  {
  }

  lemma AsctimeIsNoOther(d: Date)
    requires d.IsValid()
    ensures ParseImfFixdate(Asctime(d)) == None && ParseRfc850(Asctime(d)) == None
  {
    hide DayName, MonthName, TwoDigits, FourDigits, Asctime, WhichName, ParseNat;
    AsctimeFields(d);
    var s := Asctime(d);
    var r := WhichPrefix(s, LONG_DAY_NAMES);
    if r.Some? {
      assert s[3] == (LONG_DAY_NAMES[r.value - 1] + ", ")[3];
      LongNames(r.value);
    }
  }

  lemma LongNames(w: nat)
    requires 1 <= w <= 7
    ensures |LONG_DAY_NAMES[w - 1]| >= 6 && LONG_DAY_NAMES[w - 1][3] != ' ' && !IsSpace(LONG_DAY_NAMES[w - 1][0])
    ensures Ascii(LONG_DAY_NAMES[w - 1])
  {
  }

  // ----- the grammar by name

  /** The names of the grammar in section 7.1.1.1 of RFC 7231, Monday and January first. */
  lemma NamesAre()
    ensures DayName(1) == "Mon" && DayName(2) == "Tue" && DayName(3) == "Wed" && DayName(4) == "Thu"
    ensures DayName(5) == "Fri" && DayName(6) == "Sat" && DayName(7) == "Sun"
    ensures MonthName(1) == "Jan" && MonthName(2) == "Feb" && MonthName(3) == "Mar" && MonthName(4) == "Apr"
    ensures MonthName(5) == "May" && MonthName(6) == "Jun" && MonthName(7) == "Jul" && MonthName(8) == "Aug"
    ensures MonthName(9) == "Sep" && MonthName(10) == "Oct" && MonthName(11) == "Nov" && MonthName(12) == "Dec"
    ensures LONG_DAY_NAMES == ["Monday", "Tuesday", "Wednesday", "Thursday", "Friday", "Saturday", "Sunday"]
  {
  }

  /** A number may have a plus sign in front, and no other. */
  lemma SignExamples()
    ensures ParseNat("+6") == Some(6) && ParseNat("6") == Some(6)
    ensures ParseNat("+") == None && ParseNat("") == None && ParseNat("-6") == None && ParseNat(" 6") == None
  {
    assert "+6"[1..] == "6" && "-6"[..1] == "-" && " 6"[..1] == " ";
    assert ParseDigits("6") == Some(6) && ParseDigits("-") == None && ParseDigits(" ") == None;
  }

  /** What a valid date is: every field within what its names and the longest month admit. */
  lemma ValidIs(d: Date)
    ensures d.IsValid() <==>
      && d.second <= 59 && d.minute <= 59 && d.hour <= 23 && 1 <= d.day <= MonthLength(d.year, 1)
      && 1 <= d.month <= |MONTH_NAMES| && d.year <= 9999 && d.year >= 1970 && 1 <= d.weekDay <= |DAY_NAMES|
  {
  }

  /** The three examples given there are one date, that of second 784111777. */
  lemma StandardExample()
    ensures var d := Date(37, 49, 8, 6, 11, 1994, 7);
      && Real(d) && Seconds(d) == 784111777
      && Parse("Sun, 06 Nov 1994 08:49:37 GMT") == Parse("Sunday, 06-Nov-94 08:49:37 GMT") ==
        Parse("Sun Nov  6 08:49:37 1994") == Some(d)
  {
    hide Parse, ImfFixdate, Rfc850, Asctime, Real, Seconds;
    var d := Date(37, 49, 8, 6, 11, 1994, 7);
    StandardDate(d);
    StandardImf(d);
    StandardRfc850(d);
    StandardAsctime(d);
    AllFormsAgree(d);
  }

  lemma StandardDate(d: Date)
    requires d == Date(37, 49, 8, 6, 11, 1994, 7)
    ensures Real(d) && Seconds(d) == 784111777
  {
    hide DayNumber;
    DaysBeforeNovember();
    assert DayNumber(1994, 11, 6) == 9075;
  }

  lemma DaysBeforeNovember()
    ensures DayNumber(1994, 11, 6) == 9075
  {
    hide DaysBeforeYear;
    DaysBeforeYearIs(1994);
    assert Leaps(1993) == 483;
    assert DaysBeforeMonth(1994, 4) == 90;
    assert DaysBeforeMonth(1994, 7) == 181;
    assert DaysBeforeMonth(1994, 9) == 243;
  }

  lemma StandardImf(d: Date)
    requires d == Date(37, 49, 8, 6, 11, 1994, 7)
    ensures ImfFixdate(d) == "Sun, 06 Nov 1994 08:49:37 GMT"
  {
    hide DayName, MonthName, TwoDigits, FourDigits, DateText, TimeText;
    StandardDay(d);
    StandardTime(d);
  }

  lemma StandardDay(d: Date)
    requires d == Date(37, 49, 8, 6, 11, 1994, 7)
    ensures DateText(d) == "Sun, 06 Nov 1994 "
  {
    hide DayName, MonthName, TwoDigits, FourDigits;
    NamesAre();
    StandardDigits();
  }

  lemma StandardTime(d: Date)
    requires d == Date(37, 49, 8, 6, 11, 1994, 7)
    ensures TimeText(d) == "08:49:37 GMT"
  {
    hide TwoDigits;
    StandardDigits();
  }

  lemma StandardRfc850(d: Date)
    requires d == Date(37, 49, 8, 6, 11, 1994, 7)
    ensures Rfc850(d) == "Sunday, 06-Nov-94 08:49:37 GMT"
  {
    hide MonthName, TwoDigits, Rfc850Rest;
    StandardRest(d);
    NamesAre();
  }

  lemma StandardRest(d: Date)
    requires d == Date(37, 49, 8, 6, 11, 1994, 7)
    ensures Rfc850Rest(d) == "06-Nov-94 08:49:37 GMT"
  {
    hide DayName, MonthName, TwoDigits;
    NamesAre();
    StandardDigits();
  }

  lemma StandardAsctime(d: Date)
    requires d == Date(37, 49, 8, 6, 11, 1994, 7)
    ensures Asctime(d) == "Sun Nov  6 08:49:37 1994"
  {
    hide DayName, MonthName, TwoDigits, FourDigits;
    NamesAre();
    StandardDigits();
  }

  lemma StandardDigits()
    ensures TwoDigits(37) == "37" && TwoDigits(49) == "49" && TwoDigits(8) == "08" && TwoDigits(6) == "06"
    ensures TwoDigits(94) == "94" && FourDigits(1994) == "1994"
  {
  }
}
