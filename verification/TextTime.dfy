/**
 * Times as the database stores them, `YYYY-MM-DD HH:MM:SS` for the years 0 to 9999, and the
 * seconds they stand for. SQL compares the text; the service parses it.
 */
module TextTime {
  import opened Basics
  import opened Clock

  datatype DateTime = DateTime(year: nat, month: nat, day: nat, hour: nat, minute: nat, second: nat)

  // ---- The calendar -------------------------------------------------------------------------

  predicate Leap(year: nat) {
    year % 4 == 0 && (year % 100 != 0 || year % 400 == 0)
  }

  function MonthDays(year: nat, month: nat): nat {
    if month == 2 then (if Leap(year) then 29 else 28)
    else if month in {4, 6, 9, 11} then 30
    else 31
  }

  /** The days of a year before a month. */
  function DaysBefore(year: nat, month: nat): nat {
    if month <= 1 then 0 else DaysBefore(year, month - 1) + MonthDays(year, month - 1)
  }

  function YearDays(year: nat): nat {
    if Leap(year) then 366 else 365
  }

  /** The days before the first of January of a year. */
  function DaysBeforeYear(year: nat): nat {
    if year == 0 then 0 else DaysBeforeYear(year - 1) + YearDays(year - 1)
  }

  predicate Valid(c: DateTime) {
    && c.year <= 9999
    && 1 <= c.month <= 12
    && 1 <= c.day <= MonthDays(c.year, c.month)
    && c.hour < 24 && c.minute < 60 && c.second < 60
  }

  function DayNumber(c: DateTime): int {
    DaysBeforeYear(c.year) + DaysBefore(c.year, c.month) + c.day - 1
  }

  function SecondOfDay(c: DateTime): nat {
    c.hour * 3600 + c.minute * 60 + c.second
  }

  /** The seconds since the start of year 0. */
  function Seconds(c: DateTime): int {
    DayNumber(c) * SECONDS_PER_DAY + SecondOfDay(c)
  }

  // ---- The text -------------------------------------------------------------------------------

  function Digit(n: nat): char
    requires n < 10
  {
    ('0' as int + n) as char
  }

  function Two(n: nat): string
    requires n < 100
  {
    [Digit(n / 10), Digit(n % 10)]
  }

  function Four(n: nat): string
    requires n < 10000
  {
    Two(n / 100) + Two(n % 100)
  }

  function DateText(c: DateTime): string
    requires Valid(c)
  {
    MonthBound(c.year, c.month);
    Four(c.year) + "-" + Two(c.month) + "-" + Two(c.day)
  }

  function TimeText(c: DateTime): string
    requires Valid(c)
  {
    Two(c.hour) + ":" + Two(c.minute) + ":" + Two(c.second)
  }

  function Text(c: DateTime): string
    requires Valid(c)
  {
    DateText(c) + " " + TimeText(c)
  }

  lemma MonthBound(year: nat, month: nat)
    ensures 28 <= MonthDays(year, month) <= 31
  {
  }

  /** The order of text in SQL: character by character, a proper prefix first. */
  predicate Before(a: string, b: string) {
    if b == "" then false
    else if a == "" then true
    else a[0] < b[0] || (a[0] == b[0] && Before(a[1..], b[1..]))
  }

  // ---- Reading it back --------------------------------------------------------------------------

  predicate IsDigit(c: char) {
    '0' <= c <= '9'
  }

  function DigitValue(c: char): nat
    requires IsDigit(c)
  {
    c as int - '0' as int
  }

  function TwoValue(s: string): nat
    requires |s| == 2 && IsDigit(s[0]) && IsDigit(s[1])
  {
    10 * DigitValue(s[0]) + DigitValue(s[1])
  }

  /** The shape of a stored time: digits and separators in their places. */
  predicate Shaped(s: string) {
    && |s| == 19
    && s[4] == '-' && s[7] == '-' && s[10] == ' ' && s[13] == ':' && s[16] == ':'
    && forall i :: 0 <= i < 19 && i !in {4, 7, 10, 13, 16} ==> IsDigit(s[i])
  }

  /** What parsing with the same format yields; text that is not a date and time yields nothing. */
  function Parse(s: string): Option<DateTime> {
    if !Shaped(s) then None
    else
      var c := DateTime(100 * TwoValue(s[0..2]) + TwoValue(s[2..4]), TwoValue(s[5..7]), TwoValue(s[8..10]),
                        TwoValue(s[11..13]), TwoValue(s[14..16]), TwoValue(s[17..19]));
      if Valid(c) then Some(c) else None
  }

  /** Remaining seconds as computed from the stored text; nothing remains of text that does not parse. */
  function RemainingOfText(expiresAt: string, now: nat): int {
    match Parse(expiresAt)
    case None => 0
    case Some(c) => Remaining(Seconds(c), now)
  }

  // ---- Chronology ---------------------------------------------------------------------------------

  lemma {:induction false} YearsGrow(a: nat, b: nat)
    requires a < b
    ensures DaysBeforeYear(a) + YearDays(a) <= DaysBeforeYear(b)
    decreases b - a
  {
    if a + 1 < b { YearsGrow(a, b - 1); }
  }

  lemma {:induction false} MonthsGrow(year: nat, a: nat, b: nat)
    requires 1 <= a < b
    ensures DaysBefore(year, a) + MonthDays(year, a) <= DaysBefore(year, b)
    decreases b - a
  {
    if a + 1 < b { MonthsGrow(year, a, b - 1); }
  }

  lemma YearIsFull(year: nat)
    ensures DaysBefore(year, 12) + MonthDays(year, 12) == YearDays(year)
  {
    var leap := if Leap(year) then 1 else 0;
    assert DaysBefore(year, 2) == 31 && DaysBefore(year, 3) == 59 + leap;
    assert DaysBefore(year, 4) == 90 + leap && DaysBefore(year, 5) == 120 + leap;
    assert DaysBefore(year, 6) == 151 + leap && DaysBefore(year, 7) == 181 + leap;
    assert DaysBefore(year, 8) == 212 + leap && DaysBefore(year, 9) == 243 + leap;
    assert DaysBefore(year, 10) == 273 + leap && DaysBefore(year, 11) == 304 + leap;
    assert DaysBefore(year, 12) == 334 + leap;
  }

  lemma DayInYear(c: DateTime)
    requires Valid(c)
    ensures 0 <= DaysBefore(c.year, c.month) + c.day - 1 < YearDays(c.year)
  {
    YearIsFull(c.year);
    if c.month < 12 { MonthsGrow(c.year, c.month, 12); }
  }

  /** A date is earlier in year, month and day exactly when its day number is smaller. */
  predicate EarlierDate(a: DateTime, b: DateTime) {
    a.year < b.year || (a.year == b.year && (a.month < b.month || (a.month == b.month && a.day < b.day)))
  }

  lemma EarlierIsLess(a: DateTime, b: DateTime)
    requires Valid(a) && Valid(b) && EarlierDate(a, b)
    ensures DayNumber(a) < DayNumber(b)
  {
    DayInYear(a);
    DayInYear(b);
    if a.year < b.year {
      YearsGrow(a.year, b.year);
    } else if a.month < b.month {
      MonthsGrow(a.year, a.month, b.month);
    }
  }

  lemma DatesChronological(a: DateTime, b: DateTime)
    requires Valid(a) && Valid(b)
    ensures EarlierDate(a, b) <==> DayNumber(a) < DayNumber(b)
    ensures DayNumber(a) == DayNumber(b) <==> a.year == b.year && a.month == b.month && a.day == b.day
  {
    if EarlierDate(a, b) {
      EarlierIsLess(a, b);
    } else if EarlierDate(b, a) {
      EarlierIsLess(b, a);
    }
  }

  lemma DaySplit(c: DateTime)
    requires Valid(c)
    ensures 0 <= SecondOfDay(c) < SECONDS_PER_DAY
    ensures Seconds(c) / SECONDS_PER_DAY == DayNumber(c)
  {
  }

  // ---- Text order -------------------------------------------------------------------------------

  /** Comparing texts that start with parts of equal length compares the parts first. */
  lemma {:induction false} BeforeByParts(a: string, b: string, x: string, y: string)
    requires |a| == |b|
    ensures Before(a + x, b + y) <==> Before(a, b) || (a == b && Before(x, y))
  {
    if a == "" {
      assert a + x == x && b + y == y;
    } else {
      assert (a + x)[1..] == a[1..] + x && (b + y)[1..] == b[1..] + y;
      BeforeByParts(a[1..], b[1..], x, y);
      assert a == b <==> a[0] == b[0] && a[1..] == b[1..];
    }
  }

  lemma OneOrder(a: char, b: char)
    ensures Before([a], [b]) <==> a < b
  {
    assert [a][1..] == "" && [b][1..] == "";
  }

  lemma TwoOrder(m: nat, n: nat)
    requires m < 100 && n < 100
    ensures Before(Two(m), Two(n)) <==> m < n
    ensures Two(m) == Two(n) <==> m == n
  {
    var a, b := Two(m), Two(n);
    assert a[1..] == [Digit(m % 10)] && b[1..] == [Digit(n % 10)];
    OneOrder(Digit(m % 10), Digit(n % 10));
    assert Before(a, b) <==> a[0] < b[0] || (a[0] == b[0] && Before(a[1..], b[1..]));
    assert m == 10 * (m / 10) + m % 10 && n == 10 * (n / 10) + n % 10;
    assert a == b ==> a[0] == b[0] && a[1] == b[1];
  }

  lemma FourOrder(m: nat, n: nat)
    requires m < 10000 && n < 10000
    ensures Before(Four(m), Four(n)) <==> m < n
    ensures Four(m) == Four(n) <==> m == n
  {
    BeforeByParts(Two(m / 100), Two(n / 100), Two(m % 100), Two(n % 100));
    TwoOrder(m / 100, n / 100);
    TwoOrder(m % 100, n % 100);
    assert Four(m)[..2] == Two(m / 100) && Four(m)[2..] == Two(m % 100);
    assert Four(n)[..2] == Two(n / 100) && Four(n)[2..] == Two(n % 100);
  }

  lemma PartsEqual(a: string, b: string, x: string, y: string)
    requires |a| == |b|
    ensures a + x == b + y <==> a == b && x == y
  {
    assert (a + x)[..|a|] == a && (a + x)[|a|..] == x;
    assert (b + y)[..|b|] == b && (b + y)[|b|..] == y;
  }

  /** A separator between two parts of fixed length decides nothing. */
  lemma Separated(a: string, b: string, sep: string, x: string, y: string)
    requires |a| == |b| && |sep| == 1
    ensures Before(a + sep + x, b + sep + y) <==> Before(a, b) || (a == b && Before(x, y))
    ensures a + sep + x == b + sep + y <==> a == b && x == y
  {
    BeforeByParts(a + sep, b + sep, x, y);
    BeforeByParts(a, b, sep, sep);
    PartsEqual(a + sep, b + sep, x, y);
    PartsEqual(a, b, sep, sep);
    assert sep[1..] == "";
  }

  lemma DateTextOrder(a: DateTime, b: DateTime)
    requires Valid(a) && Valid(b)
    ensures |DateText(a)| == 10
    ensures Before(DateText(a), DateText(b)) <==> DayNumber(a) < DayNumber(b)
    ensures DateText(a) == DateText(b) <==> DayNumber(a) == DayNumber(b)
  {
    MonthBound(a.year, a.month);
    MonthBound(b.year, b.month);
    FourOrder(a.year, b.year);
    TwoOrder(a.month, b.month);
    TwoOrder(a.day, b.day);
    Separated(Four(a.year), Four(b.year), "-", Two(a.month), Two(b.month));
    Separated(Four(a.year) + "-" + Two(a.month), Four(b.year) + "-" + Two(b.month), "-", Two(a.day), Two(b.day));
    DatesChronological(a, b);
  }

  lemma TimeTextOrder(a: DateTime, b: DateTime)
    requires Valid(a) && Valid(b)
    ensures Before(TimeText(a), TimeText(b)) <==> SecondOfDay(a) < SecondOfDay(b)
    ensures TimeText(a) == TimeText(b) <==> SecondOfDay(a) == SecondOfDay(b)
  {
    TwoOrder(a.hour, b.hour);
    TwoOrder(a.minute, b.minute);
    TwoOrder(a.second, b.second);
    Separated(Two(a.hour), Two(b.hour), ":", Two(a.minute), Two(b.minute));
    Separated(Two(a.hour) + ":" + Two(a.minute), Two(b.hour) + ":" + Two(b.minute), ":", Two(a.second), Two(b.second));
  }

  /** Stored times compare as text exactly as the instants they stand for. */
  lemma TextOrderIsChronological(a: DateTime, b: DateTime)
    requires Valid(a) && Valid(b)
    ensures Before(Text(a), Text(b)) <==> Seconds(a) < Seconds(b)
    ensures Text(a) == Text(b) <==> Seconds(a) == Seconds(b)
  {
    DateTextOrder(a, b);
    TimeTextOrder(a, b);
    Separated(DateText(a), DateText(b), " ", TimeText(a), TimeText(b));
    DaySplit(a);
    DaySplit(b);
    if DayNumber(a) < DayNumber(b) {
      assert DayNumber(a) + 1 <= DayNumber(b);
    }
  }

  /**
   * `redeemed_at >= date(...)`, a whole time against the ten characters of a date, holds
   * exactly from midnight on; `date(redeemed_at) = ...` holds exactly on that day.
   */
  lemma DateComparison(a: DateTime, day: DateTime)
    requires Valid(a) && Valid(day)
    ensures !Before(Text(a), DateText(day)) <==> Seconds(a) >= DayNumber(day) * SECONDS_PER_DAY
    ensures Text(a)[..10] == DateText(day) <==> Seconds(a) / SECONDS_PER_DAY == DayNumber(day)
  {
    DateTextOrder(a, day);
    DaySplit(a);
    BeforeByParts(DateText(a), DateText(day), " " + TimeText(a), "");
    assert DateText(day) + "" == DateText(day);
    assert Text(a) == DateText(a) + (" " + TimeText(a));
    assert Text(a)[..10] == DateText(a);
  }

  lemma TwoRoundTrip(n: nat)
    requires n < 100
    ensures IsDigit(Two(n)[0]) && IsDigit(Two(n)[1]) && TwoValue(Two(n)) == n
  {
  }

  /** Formatting a time and parsing it back gives the time. */
  lemma TextRoundTrip(c: DateTime)
    requires Valid(c)
    ensures Parse(Text(c)) == Some(c)
  {
    MonthBound(c.year, c.month);
    var s := Text(c);
    TwoRoundTrip(c.year / 100);
    TwoRoundTrip(c.year % 100);
    TwoRoundTrip(c.month);
    TwoRoundTrip(c.day);
    TwoRoundTrip(c.hour);
    TwoRoundTrip(c.minute);
    TwoRoundTrip(c.second);
    assert s[0..2] == Two(c.year / 100) && s[2..4] == Two(c.year % 100);
    assert s[5..7] == Two(c.month) && s[8..10] == Two(c.day);
    assert s[11..13] == Two(c.hour) && s[14..16] == Two(c.minute) && s[17..19] == Two(c.second);
    forall i | 0 <= i < 19 && i !in {4, 7, 10, 13, 16} ensures IsDigit(s[i]) {
      assert s[i] == if i < 2 then Two(c.year / 100)[i] else if i < 4 then Two(c.year % 100)[i - 2]
        else if i < 7 then Two(c.month)[i - 5] else if i < 10 then Two(c.day)[i - 8]
        else if i < 13 then Two(c.hour)[i - 11] else if i < 16 then Two(c.minute)[i - 14] else Two(c.second)[i - 17];
    }
  }

  /**
   * A stored expiry against the current instant: SQL, comparing with the text of the current
   * second, calls it live exactly when it lies in the future, and the service, parsing it,
   * finds a second remaining exactly when at least one second is left. They differ in the
   * last second and nowhere else.
   */
  lemma TextAndParsedTimeAgree(expiry: DateTime, current: DateTime, now: nat)
    requires Valid(expiry) && Valid(current) && Seconds(current) == Stamp(now)
    ensures Before(Text(current), Text(expiry)) <==> SqlLive(Seconds(expiry), now)
    ensures Before(Text(current), Text(expiry)) <==> MS * Seconds(expiry) > now
    ensures RemainingOfText(Text(expiry), now) > 0 <==> MS * Seconds(expiry) - now >= MS
    ensures (Before(Text(current), Text(expiry)) <==> RemainingOfText(Text(expiry), now) > 0)
       <==> !(0 < MS * Seconds(expiry) - now < MS)
  {
    TextOrderIsChronological(current, expiry);
    TextRoundTrip(expiry);
    LivenessGap(Seconds(expiry), now);
  }

  // ---- The calendar, independently -----------------------------------------------------------

  /** The Gregorian count of leap years before a year. */
  function LeapsBefore(year: nat): int {
    (year + 3) / 4 - (year + 99) / 100 + (year + 399) / 400
  }

  lemma FourthStep(y: nat)
    ensures (y + 4) / 4 == (y + 3) / 4 + if y % 4 == 0 then 1 else 0
  {
  }

  lemma HundredthStep(y: nat)
    ensures (y + 100) / 100 == (y + 99) / 100 + if y % 100 == 0 then 1 else 0
  {
  }

  lemma FourHundredthStep(y: nat)
    ensures (y + 400) / 400 == (y + 399) / 400 + if y % 400 == 0 then 1 else 0
  {
  }

  lemma MultiplesDivide(k: int)
    ensures (4 * k) % 4 == 0 && (100 * k) % 100 == 0
  {
  }

  lemma CenturiesAreFourths(y: nat)
    ensures y % 400 == 0 ==> y % 100 == 0
    ensures y % 100 == 0 ==> y % 4 == 0
  {
    if y % 100 == 0 {
      assert y == 4 * (25 * (y / 100));
      MultiplesDivide(25 * (y / 100));
    }
    if y % 400 == 0 {
      assert y == 100 * (4 * (y / 400));
      MultiplesDivide(4 * (y / 400));
    }
  }

  /** How many leap years one more year makes, from the three divisions. */
  lemma LeapStep(y: nat)
    ensures LeapsBefore(y + 1) == LeapsBefore(y) + YearDays(y) - 365
  {
    var fourth := if y % 4 == 0 then 1 else 0;
    var hundredth := if y % 100 == 0 then 1 else 0;
    var fourHundredth := if y % 400 == 0 then 1 else 0;
    assert YearDays(y) - 365 == fourth - hundredth + fourHundredth by { CenturiesAreFourths(y); }
    assert (y + 1 + 3) / 4 == (y + 3) / 4 + fourth by { FourthStep(y); }
    assert (y + 1 + 99) / 100 == (y + 99) / 100 + hundredth by { HundredthStep(y); }
    assert (y + 1 + 399) / 400 == (y + 399) / 400 + fourHundredth by { FourHundredthStep(y); }
  }

  lemma {:induction false} YearsCounted(year: nat)
    ensures DaysBeforeYear(year) == 365 * year + LeapsBefore(year)
  {
    if year > 0 {
      LeapStep(year - 1);
      YearsCounted(year - 1);
    }
  }

  const MONTH_STARTS := [0, 31, 59, 90, 120, 151, 181, 212, 243, 273, 304, 334]

  lemma {:induction false} MonthsCounted(year: nat, month: nat)
    requires 1 <= month <= 12
    ensures DaysBefore(year, month) == MONTH_STARTS[month - 1] + if month > 2 && YearDays(year) == 366 then 1 else 0
  {
    if month > 1 { MonthsCounted(year, month - 1); }
  }

  /** A stored date is the day the Gregorian calendar says it is, and its time so many seconds into it. */
  lemma SecondsCounted(c: DateTime)
    requires Valid(c)
    ensures YearDays(c.year) == 366 <==> c.year % 400 == 0 || (c.year % 4 == 0 && c.year % 100 != 0)
    ensures Seconds(c) ==
      86400 * (365 * c.year + LeapsBefore(c.year) + MONTH_STARTS[c.month - 1] + c.day - 1
               + if c.month > 2 && YearDays(c.year) == 366 then 1 else 0)
      + 3600 * c.hour + 60 * c.minute + c.second
  {
    YearsCounted(c.year);
    MonthsCounted(c.year, c.month);
  }

  /** The layout of the text, on one time with digits of all kinds. */
  lemma TextExample()
    ensures Valid(DateTime(1987, 6, 25, 14, 30, 9))
    ensures Text(DateTime(1987, 6, 25, 14, 30, 9)) == "1987-06-25 14:30:09"
  {
  }
}
