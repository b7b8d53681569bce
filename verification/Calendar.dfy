/**
 * The UTC stamps of the trust chain: exactly `YYYY-MM-DDTHH:MM:SSZ`, converted to and from
 * Unix seconds with closed-form Gregorian arithmetic. The reference is a calendar that only
 * knows how long each month is and steps one day at a time.
 */
module Calendar {
  import opened Wrappers
  import opened TufErrors
  import opened Text

  // ---------- the reference calendar ----------

  datatype Date = Date(year: int, month: int, day: int)

  predicate Leap(year: int)
  {
    year % 4 == 0 && (year % 100 != 0 || year % 400 == 0)
  }

  function MonthDays(year: int, month: int): (n: int)
    requires 1 <= month <= 12
    ensures 28 <= n <= 31
  {
    if month == 2 then (if Leap(year) then 29 else 28)
    else if month in {4, 6, 9, 11} then 30
    else 31
  }

  predicate ValidDate(d: Date)
  {
    1 <= d.month <= 12 && 1 <= d.day <= MonthDays(d.year, d.month)
  }

  function PreviousDay(d: Date): (p: Date)
    requires ValidDate(d)
    ensures ValidDate(p)
  {
    if d.day > 1 then d.(day := d.day - 1)
    else if d.month > 1 then Date(d.year, d.month - 1, MonthDays(d.year, d.month - 1))
    else Date(d.year - 1, 12, 31)
  }

  /** How many single-day steps lead back from `d` to 0000-01-01. */
  function DaysSinceYearZero(d: Date): nat
    requires ValidDate(d) && d.year >= 0
    decreases d.year, d.month, d.day
  {
    if d == Date(0, 1, 1) then 0 else 1 + DaysSinceYearZero(PreviousDay(d))
  }

  // ---------- the closed forms ----------

  /** Days in the `y` March-based years before March-based year `y` (negative for y < 0). */
  function YearStart(y: int): int
  {
    365 * y + y / 4 - y / 100 + y / 400
  }

  /** The day number of a date counted from 1970-01-01, as the parser computes it. */
  function DaysFromCivil(d: Date): int
    requires 1 <= d.month <= 12
  {
    var adjustedYear := d.year - (if d.month <= 2 then 1 else 0);
    var era := adjustedYear / 400;
    var yoe := adjustedYear % 400;
    var adjustedMonth := d.month + (if d.month > 2 then -3 else 9);
    var doy := (153 * adjustedMonth + 2) / 5 + d.day - 1;
    var doe := yoe * 365 + yoe / 4 - yoe / 100 + doy;
    era * 146097 + doe - 719468
  }

  function YearOfEra(doe: int): int
  {
    (doe - doe / 1460 + doe / 36524 - doe / 146096) / 365
  }

  /** The date of a day number counted from 1970-01-01, as the formatter computes it. */
  function CivilFromDays(days: nat): Date
  {
    var z := days + 719468;
    var era := z / 146097;
    var doe := z % 146097;
    var yoe := YearOfEra(doe);
    var doy := doe - (365 * yoe + yoe / 4 - yoe / 100);
    var mp := (5 * doy + 2) / 153;
    var day := doy - (153 * mp + 2) / 5 + 1;
    var month := if mp < 10 then mp + 3 else mp - 9;
    Date(yoe + era * 400 + (if month <= 2 then 1 else 0), month, day)
  }

  lemma EraForm(y: int)
    ensures (y / 400) * 146097 + (y % 400) * 365 + (y % 400) / 4 - (y % 400) / 100 == YearStart(y)
  {
    var e, r := y / 400, y % 400;
    assert y == 400 * e + r;
    assert y / 4 == 100 * e + r / 4;
    assert y / 100 == 4 * e + r / 100;
  }

  /** A March-based year has 366 days when the February that ends it is leap. */
  lemma YearLength(y: int)
    ensures YearStart(y + 1) == YearStart(y) + 365 + (if Leap(y + 1) then 1 else 0)
  {
    DivisionStep(y, 4);
    DivisionStep(y, 100);
    DivisionStep(y, 400);
  }

  lemma DivisionStep(y: int, k: int)
    requires k in {4, 100, 400}
    ensures (y + 1) / k == y / k + (if (y + 1) % k == 0 then 1 else 0)
  {
  }

  /** The day number, read off the start of the March-based year. */
  function MarchDay(d: Date): int
    requires 1 <= d.month <= 12
  {
    YearStart(if d.month > 2 then d.year else d.year - 1)
    + (153 * (if d.month > 2 then d.month - 3 else d.month + 9) + 2) / 5 + d.day - 719469
  }

  lemma ClosedForm(d: Date)
    requires 1 <= d.month <= 12
    ensures DaysFromCivil(d) == MarchDay(d)
  {
    EraForm(if d.month > 2 then d.year else d.year - 1);
  }

  /** The divided month offset grows by exactly the length of the month it passes. */
  lemma MonthLength(year: int, month: int)
    requires 1 <= month <= 12 && month != 2
    ensures var m := if month > 2 then month - 3 else month + 9;
            (153 * (m + 1) + 2) / 5 == (153 * m + 2) / 5 + MonthDays(year, month)
  {
  }

  lemma PreviousMarchDay(d: Date)
    requires ValidDate(d)
    ensures MarchDay(d) == MarchDay(PreviousDay(d)) + 1
  {
    if d.day == 1 {
      if d.month == 3 {
        YearLength(d.year - 1);
      } else if d.month > 1 {
        MonthLength(d.year, d.month - 1);
      }
    }
  }

  lemma PreviousDayIsOneLess(d: Date)
    requires ValidDate(d)
    ensures DaysFromCivil(d) == DaysFromCivil(PreviousDay(d)) + 1
  {
    var p := PreviousDay(d);
    PreviousMarchDay(d);
    ClosedForm(d);
    ClosedForm(p);
  }

  lemma CountedOneByOne(d: Date)
    requires ValidDate(d) && d.year >= 0 && d != Date(0, 1, 1)
    ensures PreviousDay(d).year >= 0 && DaysSinceYearZero(d) == 1 + DaysSinceYearZero(PreviousDay(d))
  {
  }

  /** The closed form counts days one at a time under the leap rule, for every year from 0000 on. */
  lemma {:induction false} ClosedFormCountsDays(d: Date)
    requires ValidDate(d) && d.year >= 0
    ensures DaysFromCivil(d) == DaysSinceYearZero(d) - 719528
    decreases d.year, d.month, d.day
  {
    if d != Date(0, 1, 1) {
      CountedOneByOne(d);
      PreviousDayIsOneLess(d);
      hide DaysFromCivil, DaysSinceYearZero;
      ClosedFormCountsDays(PreviousDay(d));
    }
  }

  // ---------- the closed form is strictly monotone ----------

  predicate Before(a: Date, b: Date)
  {
    a.year < b.year || (a.year == b.year && (a.month < b.month || (a.month == b.month && a.day < b.day)))
  }

  lemma DayNumberInYear(d: Date)
    requires ValidDate(d)
    ensures MarchDay(Date(d.year, 1, 1)) <= MarchDay(d) < MarchDay(Date(d.year + 1, 1, 1))
  {
    YearLength(d.year - 1);
  }

  lemma {:induction false} NewYearsIncrease(a: int, b: int)
    requires a <= b
    ensures MarchDay(Date(a, 1, 1)) <= MarchDay(Date(b, 1, 1))
    decreases b - a
  {
    if a < b {
      DayNumberInYear(Date(a, 1, 1));
      NewYearsIncrease(a + 1, b);
    }
  }

  /** Within a year, a later month starts after every day of an earlier one. */
  lemma {:induction false} MonthsIncrease(year: int, a: int, b: int)
    requires 1 <= a < b <= 12
    ensures MarchDay(Date(year, a, MonthDays(year, a))) < MarchDay(Date(year, b, 1))
    decreases b - a
  {
    PreviousMarchDay(Date(year, a + 1, 1));
    if a + 1 < b {
      MonthsIncrease(year, a + 1, b);
    }
  }

  lemma DayNumberInMonth(d: Date)
    requires ValidDate(d)
    ensures MarchDay(Date(d.year, d.month, 1)) <= MarchDay(d)
            <= MarchDay(Date(d.year, d.month, MonthDays(d.year, d.month)))
  {
  }

  lemma LaterDateLaterMarchDay(a: Date, b: Date)
    requires ValidDate(a) && ValidDate(b) && Before(a, b)
    ensures MarchDay(a) < MarchDay(b)
  {
    if a.year < b.year {
      DayNumberInYear(a);
      NewYearsIncrease(a.year + 1, b.year);
      DayNumberInYear(b);
    } else if a.month < b.month {
      DayNumberInMonth(a);
      MonthsIncrease(a.year, a.month, b.month);
      DayNumberInMonth(b);
    }
  }

  lemma LaterDateLaterDay(a: Date, b: Date)
    requires ValidDate(a) && ValidDate(b) && Before(a, b)
    ensures DaysFromCivil(a) < DaysFromCivil(b)
  {
    LaterDateLaterMarchDay(a, b);
    ClosedForm(a);
    ClosedForm(b);
  }

  // ---------- the inverse ----------

  /** The last day of March-based year `yoe` of an era: 365 when its February is leap. */
  function LastDay(yoe: int): int
  {
    if Leap(yoe + 1) then 365 else 364
  }

  lemma YearOfEraInverts(c: int, q: int, r: int, doy: int)
    requires 0 <= c < 4 && 0 <= q < 25 && 0 <= r < 4
    requires 0 <= doy <= (if r == 3 && (q != 24 || c == 3) then 365 else 364)
    ensures YearOfEra(36524 * c + 1461 * q + 365 * r + doy) == 100 * c + 4 * q + r
  {
    var doe := 36524 * c + 1461 * q + 365 * r + doy;
    assert doe < 146096 || (doe == 146096 && c == 3 && q == 24 && r == 3 && doy == 365);
    if doe < 146096 {
      assert doe / 146096 == 0;
      assert doe / 36524 == c by { assert 1461 * q + 365 * r + doy < 36524; }
      assert doe / 1460 == 25 * c + q + (if 24 * c + q + 365 * r + doy >= 1460 then 1 else 0);
    }
  }

  /** Every day of an era lies in exactly one of its 400 years. */
  lemma EraDay(doe: int) returns (yoe: int, doy: int)
    requires 0 <= doe < 146097
    ensures 0 <= yoe < 400 && 0 <= doy <= LastDay(yoe)
    ensures doe == 365 * yoe + yoe / 4 - yoe / 100 + doy && YearOfEra(doe) == yoe
  {
    var c := if doe == 146096 then 3 else doe / 36524;
    var inCentury := doe - 36524 * c;
    var q := inCentury / 1461;
    var inQuad := inCentury - 1461 * q;
    var r := if inQuad == 1460 then 3 else inQuad / 365;
    doy := inQuad - 365 * r;
    yoe := 100 * c + 4 * q + r;
    YearOfEraInverts(c, q, r, doy);
    assert yoe / 100 == c && yoe / 4 == 25 * c + q;
    LeapYearOfEra(c, q, r);
  }

  lemma LeapYearOfEra(c: int, q: int, r: int)
    requires 0 <= c < 4 && 0 <= q < 25 && 0 <= r < 4
    ensures Leap(100 * c + 4 * q + r + 1) <==> r == 3 && (q != 24 || c == 3)
  {
    var y := 100 * c + 4 * q + r + 1;
    assert y % 4 == (r + 1) % 4;
    if r == 3 {
      assert y == 100 * c + 4 * (q + 1);
      assert y % 100 == 0 <==> q == 24;
      if q == 24 { assert y == 100 * (c + 1); }
    }
  }

  lemma MonthOfDay(doy: int)
    requires 0 <= doy <= 365
    ensures var mp := (5 * doy + 2) / 153;
            0 <= mp < 12 && (153 * mp + 2) / 5 <= doy &&
            (mp < 11 ==> doy < (153 * (mp + 1) + 2) / 5)
  {
  }

  lemma LeapPeriod(e: int, y: int)
    ensures Leap(400 * e + y) == Leap(y)
  {
    ModShift(4, 100 * e, y);
    ModShift(100, 4 * e, y);
    ModShift(400, e, y);
  }

  lemma ModShift(k: int, q: int, y: int)
    requires k in {4, 100, 400}
    ensures (k * q + y) % k == y % k
  {
    var n := k * q + y;
    assert n == k * (q + y / k) + y % k;
    if k == 4 { } else if k == 100 { } else { }
  }

  lemma DatesBeforeTheEpoch(d: Date)
    requires ValidDate(d) && d.year < 1970
    ensures DaysFromCivil(d) < 0
  {
    LaterDateLaterDay(d, Date(1970, 1, 1));
    assert DaysFromCivil(Date(1970, 1, 1)) == 0;
  }

  lemma EraOfDays(days: nat) returns (era: int, yoe: int, doy: int)
    ensures 0 <= yoe < 400 && 0 <= doy <= LastDay(yoe)
    ensures CivilFromDays(days) == DateOfEra(era, yoe, doy)
    ensures days == era * 146097 + 365 * yoe + yoe / 4 - yoe / 100 + doy - 719468
  {
    era := (days + 719468) / 146097;
    yoe, doy := EraDay((days + 719468) % 146097);
  }

  /** The formatter's date is a real date and has the day number it was computed from. */
  lemma CivilFromDaysInverts(days: nat)
    ensures ValidDate(CivilFromDays(days)) && CivilFromDays(days).year >= 1970
    ensures DaysFromCivil(CivilFromDays(days)) == days
  {
    var d := CivilFromDays(days);
    assert ValidDate(d) && DaysFromCivil(d) == days by {
      var era, yoe, doy := EraOfDays(days);
      DateInYear(era, yoe, doy);
      DayFromEra(era, yoe, doy, d);
    }
    if d.year < 1970 { DatesBeforeTheEpoch(d); }
  }

  lemma DayFromEra(era: int, yoe: int, doy: int, d: Date)
    requires 0 <= yoe < 400 && 1 <= d.month <= 12
    requires d.year - (if d.month <= 2 then 1 else 0) == 400 * era + yoe
    requires (153 * (d.month + (if d.month > 2 then -3 else 9)) + 2) / 5 + d.day - 1 == doy
    ensures DaysFromCivil(d) == era * 146097 + 365 * yoe + yoe / 4 - yoe / 100 + doy - 719468
  {
    assert (400 * era + yoe) / 400 == era && (400 * era + yoe) % 400 == yoe;
  }

  function DateOfEra(era: int, yoe: int, doy: int): Date
  {
    var mp := (5 * doy + 2) / 153;
    var month := if mp < 10 then mp + 3 else mp - 9;
    Date(yoe + era * 400 + (if month <= 2 then 1 else 0), month, doy - (153 * mp + 2) / 5 + 1)
  }

  /** A day of a March-based year is a real date whose month offset and day add up to it again. */
  lemma DateInYear(era: int, yoe: int, doy: int)
    requires 0 <= yoe < 400 && 0 <= doy <= LastDay(yoe)
    ensures var d := DateOfEra(era, yoe, doy);
            ValidDate(d) && d.year - (if d.month <= 2 then 1 else 0) == 400 * era + yoe &&
            (153 * (d.month + (if d.month > 2 then -3 else 9)) + 2) / 5 + d.day - 1 == doy
  {
    var mp := (5 * doy + 2) / 153;
    MonthOfDay(doy);
    var d := DateOfEra(era, yoe, doy);
    if mp == 11 {
      LeapPeriod(era, yoe + 1);
    } else {
      MonthLength(d.year, d.month);
    }
  }

  lemma DayNumberInjective(a: Date, b: Date)
    requires ValidDate(a) && ValidDate(b) && DaysFromCivil(a) == DaysFromCivil(b)
    ensures a == b
  {
    if Before(a, b) { LaterDateLaterDay(a, b); }
    if Before(b, a) { LaterDateLaterDay(b, a); }
  }

  // ---------- stamps as text ----------

  datatype Stamp = Stamp(date: Date, hour: int, minute: int, second: int)

  predicate ValidStamp(t: Stamp)
  {
    ValidDate(t.date) && 0 <= t.hour <= 23 && 0 <= t.minute <= 59 && 0 <= t.second <= 59
  }

  function Instant(t: Stamp): int
    requires 1 <= t.date.month <= 12
  {
    DaysFromCivil(t.date) * 86400 + t.hour * 3600 + t.minute * 60 + t.second
  }

  predicate Separator(i: int)
  {
    i in {4, 7, 10, 13, 16, 19}
  }

  predicate StampShape(s: string)
  {
    && |s| == 20
    && s[4] == '-' && s[7] == '-' && s[10] == 'T' && s[13] == ':' && s[16] == ':' && s[19] == 'Z'
    && forall i :: 0 <= i < 20 && !Separator(i) ==> IsDigit(s[i])
  }

  /** The digit groups of a well-shaped stamp. */
  function Fields(s: string): Stamp
    requires StampShape(s)
  {
    Stamp(Date(Number(s[0..4]), Number(s[5..7]), Number(s[8..10])),
          Number(s[11..13]), Number(s[14..16]), Number(s[17..19]))
  }

  function ParseCanonicalUtcSeconds(s: string): Result<int, TufError>
  {
    if !StampShape(s) then Err(Malformed)
    else if !ValidStamp(Fields(s)) then Err(Malformed)
    else Ok(Instant(Fields(s)))
  }

  /** A number padded with leading zeros to at least `width` characters. */
  function Padded(n: nat, width: nat): string
  {
    var digits := Decimal(n);
    if |digits| < width then seq(width - |digits|, _ => '0') + digits else digits
  }

  function Joined(y: string, mo: string, d: string, h: string, mi: string, sec: string): string
  {
    y + "-" + mo + "-" + d + "T" + h + ":" + mi + ":" + sec + "Z"
  }

  function FormatStamp(t: Stamp): string
    requires ValidStamp(t) && t.date.year >= 0
  {
    Joined(Padded(t.date.year, 4), Padded(t.date.month, 2), Padded(t.date.day, 2),
           Padded(t.hour, 2), Padded(t.minute, 2), Padded(t.second, 2))
  }

  function StampOf(secs: nat): (t: Stamp)
    ensures ValidStamp(t) && t.date.year >= 1970 && Instant(t) == secs
  {
    var days := secs / 86400;
    var rem := secs % 86400;
    CivilFromDaysInverts(days);
    TimeOfDay(rem);
    Stamp(CivilFromDays(days), rem / 3600, (rem % 3600) / 60, rem % 60)
  }

  lemma TimeOfDay(rem: int)
    requires 0 <= rem < 86400
    ensures 0 <= rem / 3600 <= 23 && 0 <= (rem % 3600) / 60 <= 59 && 0 <= rem % 60 <= 59
    ensures (rem / 3600) * 3600 + ((rem % 3600) / 60) * 60 + rem % 60 == rem
  {
    assert rem == 3600 * (rem / 3600) + rem % 3600;
    assert (rem % 3600) % 60 == rem % 60;
  }

  /** The text of the clock reading `secs`. */
  function NowRfc3339(secs: nat): string
  {
    FormatStamp(StampOf(secs))
  }

  // ---------- digit groups ----------

  lemma NumberOfTwo(s: string)
    requires |s| == 2 && AllDigits(s)
    ensures Number(s) == 10 * DigitValue(s[0]) + DigitValue(s[1])
  {
    assert Number(s[..1][..0]) == 0;
    assert s[..1][0] == s[0];
  }

  lemma NumberOfFour(s: string)
    requires |s| == 4 && AllDigits(s)
    ensures Number(s) == 1000 * DigitValue(s[0]) + 100 * DigitValue(s[1]) + 10 * DigitValue(s[2]) + DigitValue(s[3])
  {
    var t := s[..3];
    assert t[..2] == s[..2];
    NumberOfTwo(s[..2]);
    assert Number(t) == 10 * Number(t[..2]) + DigitValue(t[2]);
  }

  lemma {:induction false} NumberAfterZeros(k: nat, s: string)
    requires AllDigits(s)
    ensures AllDigits(seq(k, _ => '0') + s) && Number(seq(k, _ => '0') + s) == Number(s)
    decreases k + |s|
  {
    var t := seq(k, _ => '0') + s;
    if s != [] {
      NumberAfterZeros(k, s[..|s| - 1]);
      assert t[..|t| - 1] == seq(k, _ => '0') + s[..|s| - 1];
    } else if k > 0 {
      NumberAfterZeros(k - 1, s);
      assert t[..|t| - 1] == seq(k - 1, _ => '0') + s;
    }
  }

  function Pow10(k: nat): (r: nat)
    ensures r > 0
  {
    if k == 0 then 1 else 10 * Pow10(k - 1)
  }

  /** A number has at most `k` digits exactly when it is below 10^k. */
  lemma {:induction false} DecimalLength(n: nat, k: nat)
    requires k > 0
    ensures |Decimal(n)| <= k <==> n < Pow10(k)
  {
    if n >= 10 && k > 1 { DecimalLength(n / 10, k - 1); }
  }

  lemma PaddedGroup(n: nat, width: nat)
    requires (width == 2 && n < 100) || (width == 4 && n < 10000)
    ensures |Padded(n, width)| == width && AllDigits(Padded(n, width)) && Number(Padded(n, width)) == n
  {
    assert Pow10(2) == 100 && Pow10(4) == 10 * (10 * Pow10(2));
    DecimalLength(n, width);
    NumberAfterZeros(width - |Decimal(n)|, Decimal(n));
    assert seq(0, _ => '0') + Decimal(n) == Decimal(n);
  }

  /** Two digit groups of one stamp width with the same value are the same text. */
  lemma SameGroup(a: string, b: string)
    requires |a| == |b| && |a| in {2, 4} && AllDigits(a) && AllDigits(b) && Number(a) == Number(b)
    ensures a == b
  {
    if |a| == 2 {
      NumberOfTwo(a);
      NumberOfTwo(b);
    } else {
      NumberOfFour(a);
      NumberOfFour(b);
      assert DigitValue(a[0]) == DigitValue(b[0]);
      assert DigitValue(a[1]) == DigitValue(b[1]);
    }
  }

  // ---------- formatting and parsing are inverse ----------

  const LAST_SECOND_OF_9999: int := 253402300799

  lemma YearsOfDays(d: Date)
    requires ValidDate(d)
    ensures d.year <= 9999 <==> DaysFromCivil(d) <= 2932896
  {
    var last := Date(9999, 12, 31);
    ClosedForm(last);
    if Before(last, d) { LaterDateLaterDay(last, d); }
    if Before(d, last) { LaterDateLaterDay(d, last); }
  }

  lemma YearsOfInstants(secs: nat)
    ensures StampOf(secs).date.year <= 9999 <==> secs <= LAST_SECOND_OF_9999
  {
    YearsOfDays(StampOf(secs).date);
  }

  predicate Digits(s: string, width: nat)
  {
    |s| == width && AllDigits(s)
  }

  lemma JoinedShape(y: string, mo: string, d: string, h: string, mi: string, sec: string)
    requires Digits(y, 4) && Digits(mo, 2) && Digits(d, 2) && Digits(h, 2) && Digits(mi, 2) && Digits(sec, 2)
    ensures var s := Joined(y, mo, d, h, mi, sec);
            StampShape(s) && s[0..4] == y && s[5..7] == mo && s[8..10] == d &&
            s[11..13] == h && s[14..16] == mi && s[17..19] == sec
  {
    var s := Joined(y, mo, d, h, mi, sec);
    assert s[0..4] == y && s[5..7] == mo && s[8..10] == d;
    assert s[11..13] == h && s[14..16] == mi && s[17..19] == sec;
    forall i | 0 <= i < 20 && !Separator(i)
      ensures IsDigit(s[i])
    {
      StampDigit(s, i);
    }
  }

  lemma FormatShape(t: Stamp)
    requires ValidStamp(t) && 0 <= t.date.year <= 9999
    ensures StampShape(FormatStamp(t)) && Fields(FormatStamp(t)) == t
  {
    PaddedGroup(t.date.year, 4);
    PaddedGroup(t.date.month, 2);
    PaddedGroup(t.date.day, 2);
    PaddedGroup(t.hour, 2);
    PaddedGroup(t.minute, 2);
    PaddedGroup(t.second, 2);
    JoinedShape(Padded(t.date.year, 4), Padded(t.date.month, 2), Padded(t.date.day, 2),
                Padded(t.hour, 2), Padded(t.minute, 2), Padded(t.second, 2));
  }

  lemma StampDigit(s: string, i: int)
    requires |s| == 20 && 0 <= i < 20 && !Separator(i)
    requires AllDigits(s[0..4]) && AllDigits(s[5..7]) && AllDigits(s[8..10])
    requires AllDigits(s[11..13]) && AllDigits(s[14..16]) && AllDigits(s[17..19])
    ensures IsDigit(s[i])
  {
    if i < 4 { assert s[i] == s[0..4][i]; }
    else if i < 7 { assert s[i] == s[5..7][i - 5]; }
    else if i < 10 { assert s[i] == s[8..10][i - 8]; }
    else if i < 13 { assert s[i] == s[11..13][i - 11]; }
    else if i < 16 { assert s[i] == s[14..16][i - 14]; }
    else { assert s[i] == s[17..19][i - 17]; }
  }

  /** The clock text of an instant parses back to it exactly up to the last second of year 9999. */
  lemma FormatThenParse(secs: nat)
    ensures ParseCanonicalUtcSeconds(NowRfc3339(secs)) == Ok(secs) <==> secs <= LAST_SECOND_OF_9999
    ensures secs > LAST_SECOND_OF_9999 ==> ParseCanonicalUtcSeconds(NowRfc3339(secs)) == Err(Malformed)
  {
    var t := StampOf(secs);
    YearsOfInstants(secs);
    if t.date.year <= 9999 {
      FormatShape(t);
    } else {
      assert Pow10(4) == 10 * (10 * Pow10(2));
      DecimalLength(t.date.year, 4);
      PaddedGroup(t.date.month, 2);
      PaddedGroup(t.date.day, 2);
      PaddedGroup(t.hour, 2);
      PaddedGroup(t.minute, 2);
      PaddedGroup(t.second, 2);
      assert |NowRfc3339(secs)| > 20;
    }
  }

  lemma SameInstantSameStamp(a: Stamp, b: Stamp)
    requires ValidStamp(a) && ValidStamp(b) && Instant(a) == Instant(b)
    ensures a == b
  {
    assert DaysFromCivil(a.date) == DaysFromCivil(b.date);
    DayNumberInjective(a.date, b.date);
  }

  lemma GroupOfField(group: string, width: nat)
    requires Digits(group, width) && width in {2, 4}
    ensures Padded(Number(group), width) == group
  {
    if width == 2 { NumberOfTwo(group); } else { NumberOfFour(group); }
    PaddedGroup(Number(group), width);
    SameGroup(Padded(Number(group), width), group);
  }

  lemma FormatOfFields(s: string)
    requires StampShape(s) && ValidStamp(Fields(s))
    ensures FormatStamp(Fields(s)) == s
  {
    GroupOfField(s[0..4], 4);
    GroupOfField(s[5..7], 2);
    GroupOfField(s[8..10], 2);
    GroupOfField(s[11..13], 2);
    GroupOfField(s[14..16], 2);
    GroupOfField(s[17..19], 2);
    Reassemble(s);
  }

  lemma Reassemble(s: string)
    requires |s| == 20
    ensures s == s[0..4] + [s[4]] + s[5..7] + [s[7]] + s[8..10] + [s[10]] + s[11..13] + [s[13]]
                 + s[14..16] + [s[16]] + s[17..19] + [s[19]]
  {
  }

  /** Every accepted stamp from 1970 on is the clock text of the instant it parses to. */
  lemma ParseThenFormat(s: string)
    requires var r := ParseCanonicalUtcSeconds(s); r.Ok? && r.value >= 0
    ensures NowRfc3339(ParseCanonicalUtcSeconds(s).value) == s
  {
    SameInstantSameStamp(StampOf(Instant(Fields(s))), Fields(s));
    FormatOfFields(s);
  }

  /** An accepted stamp's instant is its day count since year zero plus its time of day. */
  lemma ParsedInstantCountsDays(s: string)
    requires ParseCanonicalUtcSeconds(s).Ok?
    ensures var t := Fields(s);
            ParseCanonicalUtcSeconds(s).value ==
            (DaysSinceYearZero(t.date) - 719528) * 86400 + t.hour * 3600 + t.minute * 60 + t.second
  {
    ClosedFormCountsDays(Fields(s).date);
  }

  // ---------- the profile, character by character ----------

  /** A stamp has digits where this text has zeros, and is this text elsewhere. */
  const TEMPLATE := "0000-00-00T00:00:00Z"

  predicate FitsTemplate(s: string)
  {
    |s| == 20 && forall i :: 0 <= i < 20 ==> if TEMPLATE[i] == '0' then '0' <= s[i] <= '9' else s[i] == TEMPLATE[i]
  }

  /** The number of the two digits at `i`. */
  function TwoDigits(s: string, i: nat): int
    requires i + 2 <= |s|
  {
    10 * (s[i] as int - '0' as int) + (s[i + 1] as int - '0' as int)
  }

  lemma ShapeMeans(s: string)
    ensures StampShape(s) <==> FitsTemplate(s)
  {
    var t := TEMPLATE;
    assert t[4] == '-' && t[7] == '-' && t[10] == 'T' && t[13] == ':' && t[16] == ':' && t[19] == 'Z';
    assert forall i :: 0 <= i < 20 && !Separator(i) ==> t[i] == '0';
    assert forall i :: 0 <= i < 20 && Separator(i) ==> t[i] != '0';
  }

  lemma FieldsMean(s: string)
    requires StampShape(s)
    ensures var t := Fields(s);
            t.date == Date(100 * TwoDigits(s, 0) + TwoDigits(s, 2), TwoDigits(s, 5), TwoDigits(s, 8)) &&
            t.hour == TwoDigits(s, 11) && t.minute == TwoDigits(s, 14) && t.second == TwoDigits(s, 17)
  {
    NumberOfFour(s[0..4]);
    NumberOfTwo(s[5..7]);
    NumberOfTwo(s[8..10]);
    NumberOfTwo(s[11..13]);
    NumberOfTwo(s[14..16]);
    NumberOfTwo(s[17..19]);
  }

  /** Exactly the stamps of the profile that name a day of the calendar and a time of day are accepted. */
  lemma AcceptedStamps(s: string)
    ensures ParseCanonicalUtcSeconds(s).Ok? <==>
            FitsTemplate(s) && 1 <= TwoDigits(s, 5) <= 12 &&
            1 <= TwoDigits(s, 8) <= MonthDays(100 * TwoDigits(s, 0) + TwoDigits(s, 2), TwoDigits(s, 5)) &&
            TwoDigits(s, 11) <= 23 && TwoDigits(s, 14) <= 59 && TwoDigits(s, 17) <= 59
    ensures ParseCanonicalUtcSeconds(s).Err? ==> ParseCanonicalUtcSeconds(s).error == Malformed
  {
    ShapeMeans(s);
    if StampShape(s) { FieldsMean(s); }
    hide Fields, StampShape;
    assert FitsTemplate(s) ==> TwoDigits(s, 11) >= 0 && TwoDigits(s, 14) >= 0 && TwoDigits(s, 17) >= 0 by {
      var t := TEMPLATE;
      assert t[11] == t[12] == t[14] == t[15] == t[17] == t[18] == '0';
    }
  }

  // ---------- text order is time order ----------

  /** The first differing character decides the first differing field. */
  predicate EarlierField(a: Stamp, b: Stamp)
  {
    Before(a.date, b.date) ||
    (a.date == b.date && (a.hour < b.hour || (a.hour == b.hour &&
    (a.minute < b.minute || (a.minute == b.minute && a.second < b.second)))))
  }

  lemma EarlierFieldEarlierInstant(a: Stamp, b: Stamp)
    requires ValidStamp(a) && ValidStamp(b) && EarlierField(a, b)
    ensures Instant(a) < Instant(b)
  {
    if Before(a.date, b.date) { LaterDateLaterDay(a.date, b.date); }
  }

  lemma GroupOrder(a: string, b: string, p: nat)
    requires |a| == |b| && |a| in {2, 4} && AllDigits(a) && AllDigits(b)
    requires p < |a| && a[..p] == b[..p] && a[p] < b[p]
    ensures Number(a) < Number(b)
  {
    assert DigitValue(a[p]) < DigitValue(b[p]);
    assert forall i :: 0 <= i < p ==> a[i] == a[..p][i] == b[..p][i] == b[i];
    if |a| == 2 {
      NumberOfTwo(a);
      NumberOfTwo(b);
    } else {
      NumberOfFour(a);
      NumberOfFour(b);
    }
  }

  lemma SameSlice(s: string, t: string, p: nat, lo: nat, hi: nat)
    requires lo <= hi <= p <= |s| && p <= |t| && s[..p] == t[..p]
    ensures s[lo..hi] == t[lo..hi]
  {
    assert s[lo..hi] == s[..p][lo..hi] == t[..p][lo..hi] == t[lo..hi];
  }

  /** The groups before the first difference are equal. */
  lemma SameFields(s: string, t: string, p: nat)
    requires |s| == |t| == 20 && p < 20 && s[..p] == t[..p]
    ensures (p >= 4 ==> s[0..4] == t[0..4]) && (p >= 7 ==> s[5..7] == t[5..7]) && (p >= 10 ==> s[8..10] == t[8..10])
    ensures (p >= 13 ==> s[11..13] == t[11..13]) && (p >= 16 ==> s[14..16] == t[14..16])
  {
    if p >= 4 { SameSlice(s, t, p, 0, 4); }
    if p >= 7 { SameSlice(s, t, p, 5, 7); }
    if p >= 10 { SameSlice(s, t, p, 8, 10); }
    if p >= 13 { SameSlice(s, t, p, 11, 13); }
    if p >= 16 { SameSlice(s, t, p, 14, 16); }
  }

  lemma FirstDifferenceDecides(s: string, t: string, p: nat)
    requires StampShape(s) && StampShape(t) && p < 20 && s[..p] == t[..p] && s[p] < t[p]
    ensures EarlierField(Fields(s), Fields(t))
  {
    SameFields(s, t, p);
    hide StampShape;
    if p < 4 {
      InGroup(s, t, 0, 4, p);
    } else if p < 7 {
      InGroup(s, t, 5, 7, p);
    } else if p < 10 {
      InGroup(s, t, 8, 10, p);
    } else if p < 13 {
      InGroup(s, t, 11, 13, p);
    } else if p < 16 {
      InGroup(s, t, 14, 16, p);
    } else {
      InGroup(s, t, 17, 19, p);
    }
  }

  lemma InGroup(s: string, t: string, lo: nat, hi: nat, p: nat)
    requires StampShape(s) && StampShape(t) && lo <= p < hi <= 20 && hi - lo in {2, 4}
    requires AllDigits(s[lo..hi]) && AllDigits(t[lo..hi])
    requires s[..p] == t[..p] && s[p] < t[p]
    ensures Number(s[lo..hi]) < Number(t[lo..hi])
  {
    assert s[lo..hi][..p - lo] == s[..p][lo..] == t[..p][lo..] == t[lo..hi][..p - lo];
    GroupOrder(s[lo..hi], t[lo..hi], p - lo);
  }

  lemma TextOrderImpliesTimeOrder(s: string, t: string)
    requires ParseCanonicalUtcSeconds(s).Ok? && ParseCanonicalUtcSeconds(t).Ok? && Less(s, t)
    ensures ParseCanonicalUtcSeconds(s).value < ParseCanonicalUtcSeconds(t).value
  {
    var p := FirstDifference(s, t);
    FirstDifferenceDecides(s, t, p);
    EarlierFieldEarlierInstant(Fields(s), Fields(t));
  }

  /** Comparing accepted stamps as text is comparing their instants. */
  lemma TextOrderIsTimeOrder(s: string, t: string)
    requires ParseCanonicalUtcSeconds(s).Ok? && ParseCanonicalUtcSeconds(t).Ok?
    ensures Less(s, t) <==> ParseCanonicalUtcSeconds(s).value < ParseCanonicalUtcSeconds(t).value
  {
    LessTotal(s, t);
    if Less(s, t) { TextOrderImpliesTimeOrder(s, t); }
    if Less(t, s) { TextOrderImpliesTimeOrder(t, s); }
  }
}
