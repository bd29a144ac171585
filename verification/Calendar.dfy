/**
`ogs_time_from_lt` (`lib/core/ogs-time.c`): a broken-down date and time to microseconds since
1970, by a closed form, against the Gregorian calendar gone through day by day.
*/
module Calendar {
  /** `struct tm`: years since 1900, months from 0, days from 1. */
  datatype Tm = Tm(year: int, mon: int, mday: int, hour: int, min: int, sec: int)

  datatype Result = Time(t: int) | Error

  const USEC_PER_SEC := 1000000

  const DAY_OFFSET := [306, 337, 0, 31, 61, 92, 122, 153, 184, 214, 245, 275]

  /** Division as C does it, towards zero. */
  function Quot(a: int, b: int): int
    requires b > 0
  {
    if a >= 0 then a / b else -((-a) / b)
  }

  /** Days from 1 March 1900 to 1 March of the year `y` after it. */
  function MarchYears(y: int): int {
    y * 365 + Quot(y, 4) - Quot(y, 100) + Quot(Quot(y, 100) + 3, 4)
  }

  /** The closed form: days since 1 January 1970. */
  function Days(year: int, mon: int, mday: int): int
    requires 0 <= mon < 12
  {
    MarchYears(if mon < 2 then year - 1 else year) + DAY_OFFSET[mon] + mday - 1 - 25508
  }

  function Seconds(tm: Tm): int
    requires 0 <= tm.mon < 12
  {
    ((Days(tm.year, tm.mon, tm.mday) * 24 + tm.hour) * 60 + tm.min) * 60 + tm.sec
  }

  function Micros(tm: Tm, usec: int): int
    requires 0 <= tm.mon < 12
  {
    Seconds(tm) * USEC_PER_SEC + usec
  }

  /** ogs_time_from_lt() */
  method FromLt(tm: Tm, usec: int) returns (r: Result)
    ensures r == if 0 <= tm.mon < 12 && Seconds(tm) >= 0 then Time(Micros(tm, usec)) else Error
  {
    var year := tm.year;
    if tm.mon < 0 || tm.mon >= 12 {
      return Error;
    }
    if tm.mon < 2 {
      year := year - 1;
    }
    var days := year * 365 + Quot(year, 4) - Quot(year, 100) + Quot(Quot(year, 100) + 3, 4);
    days := days + DAY_OFFSET[tm.mon] + tm.mday - 1;
    days := days - 25508;
    days := ((days * 24 + tm.hour) * 60 + tm.min) * 60 + tm.sec;
    if days < 0 {
      return Error;
    }
    return Time(days * USEC_PER_SEC + usec);
  }

  // ---- the calendar ----------------------------------------------------------

  datatype Date = Date(year: int, mon: int, mday: int)

  predicate Leap(y: int) {
    (1900 + y) % 4 == 0 && ((1900 + y) % 100 != 0 || (1900 + y) % 400 == 0)
  }

  function MonthLength(y: int, m: int): int {
    if m == 1 then (if Leap(y) then 29 else 28) else if m == 3 || m == 5 || m == 8 || m == 10 then 30 else 31
  }

  predicate ValidDate(d: Date) {
    0 <= d.year && 0 <= d.mon < 12 && 1 <= d.mday <= MonthLength(d.year, d.mon)
  }

  /** The day after. */
  function Next(d: Date): (e: Date)
    requires ValidDate(d)
    ensures ValidDate(e) && Before(d, e)
  {
    if d.mday < MonthLength(d.year, d.mon) then d.(mday := d.mday + 1)
    else if d.mon < 11 then Date(d.year, d.mon + 1, 1)
    else Date(d.year + 1, 0, 1)
  }

  /** The day `n` days after 1 January 1900. */
  function Walk(n: nat): (d: Date)
    ensures ValidDate(d)
  {
    if n == 0 then Date(0, 0, 1) else Next(Walk(n - 1))
  }

  predicate Before(d: Date, e: Date) {
    d.year < e.year || (d.year == e.year && (d.mon < e.mon || (d.mon == e.mon && d.mday < e.mday)))
  }

  /** 1 January 1970, on the walk from 1900. */
  const EPOCH: nat := 25567

  lemma {:induction false} YearStep(y: nat)
    ensures MarchYears(y) - MarchYears(y - 1) == 365 + if Leap(y) then 1 else 0
  {
    if y == 0 {
      FirstYear(y);
    } else {
      LeapSplit(y);
      YearDiff(y);
    }
  }

  lemma FirstYear(y: nat)
    requires y == 0
    ensures MarchYears(y) - MarchYears(y - 1) == 365 && !Leap(y)
  {
  }

  lemma {:induction false} YearDiff(y: nat)
    requires y > 0
    ensures MarchYears(y) - MarchYears(y - 1) == 365 + if LeapFrom1900(y) then 1 else 0
  {
    MarchForm(y);
    MarchForm(y - 1);
    Quotient(y, 4);
    CenturyStep(y);
    CenturyFourth(y);
  }

  lemma CenturyFourth(y: nat)
    ensures y % 100 == 0 ==> y % 4 == 0
  {
    var c := y / 100;
    assert y == 4 * (25 * c) + y % 100;
    if y % 100 == 0 {
      QuotientIs(y, 4, 25 * c, 0);
    }
  }

  /** Only a century year loses its leap day, and only three in four do. */
  lemma {:induction false} CenturyStep(y: nat)
    requires y > 0
    ensures (y / 100 + 3) / 4 - y / 100 - ((y - 1) / 100 + 3) / 4 + (y - 1) / 100
         == if y % 100 == 0 && (y / 100 + 3) % 4 != 0 then -1 else 0
  {
    Quotient(y, 100);
    Quotient(y / 100 + 3, 4);
  }

  lemma MarchForm(y: nat)
    ensures MarchYears(y) == y * 365 + y / 4 - y / 100 + (y / 100 + 3) / 4
  {
  }

  /** A quotient goes up by one exactly at the multiples. */
  lemma Quotient(a: nat, b: nat)
    requires a > 0 && b > 0
    ensures (a - 1) / b == if a % b == 0 then a / b - 1 else a / b
  {
    var q, r := a / b, a % b;
    assert a == b * q + r;
    if r == 0 {
      assert a - 1 == b * (q - 1) + (b - 1);
      QuotientIs(a - 1, b, q - 1, b - 1);
    } else {
      QuotientIs(a - 1, b, q, r - 1);
    }
  }

  lemma QuotientIs(a: int, b: int, q: int, r: int)
    requires 0 <= r < b && a == b * q + r
    ensures a / b == q && a % b == r
  {
    var d := a / b - q;
    assert a % b == r - b * d;
    assert d >= 1 ==> b * d >= b;
    assert d <= -1 ==> b * d <= -b;
  }

  /** The leap years, counted from 1900. */
  predicate LeapFrom1900(y: nat) {
    y % 4 == 0 && (y % 100 != 0 || (y / 100 + 3) % 4 == 0)
  }

  lemma {:induction false} LeapSplit(y: nat)
    ensures Leap(y) <==> LeapFrom1900(y)
  {
    SameRemainder(y, 475, 4);
    SameRemainder(y, 19, 100);
    if y % 100 == 0 {
      CenturyLeap(y);
    }
  }

  lemma SameRemainder(y: nat, k: nat, b: nat)
    requires b > 0
    ensures (b * k + y) % b == y % b
  {
    var q := y / b;
    assert b * k + y == b * (k + q) + y % b;
    QuotientIs(b * k + y, b, k + q, y % b);
  }

  lemma {:induction false} CenturyLeap(y: nat)
    requires y % 100 == 0
    ensures (1900 + y) % 400 == 0 <==> (y / 100 + 3) % 4 == 0
  {
    var c := y / 100;
    var q, r := (c + 3) / 4, (c + 3) % 4;
    assert 1900 + y == 400 * (q + 4) + 100 * r;
    QuotientIs(1900 + y, 400, q + 4, 100 * r);
  }

  lemma MonthStep(y: int, m: int)
    requires 0 <= m < 11 && m != 1
    ensures DAY_OFFSET[m + 1] == DAY_OFFSET[m] + MonthLength(y, m)
  {
  }

  /** The closed form moves by one from each day to the next. */
  lemma {:induction false} DaysStep(d: Date)
    requires ValidDate(d)
    ensures Days(Next(d).year, Next(d).mon, Next(d).mday) == Days(d.year, d.mon, d.mday) + 1
  {
    if d.mday < MonthLength(d.year, d.mon) {
    } else if d.mon == 1 {
      YearStep(d.year);
    } else if d.mon < 11 {
      MonthStep(d.year, d.mon);
    }
  }

  /** The closed form counts the days one by one. */
  lemma {:induction false} DaysCount(n: nat)
    ensures var d := Walk(n); Days(d.year, d.mon, d.mday) == n - EPOCH
  {
    if n == 0 {
      assert Days(0, 0, 1) == -25567;
    } else {
      DaysCount(n - 1);
      var d := Walk(n - 1);
      DaysStep(d);
      assert Walk(n) == Next(d);
    }
  }

  /** The day before. */
  function Prev(d: Date): (e: Date)
    requires ValidDate(d) && d != Date(0, 0, 1)
    ensures ValidDate(e) && Next(e) == d
  {
    if d.mday > 1 then d.(mday := d.mday - 1)
    else if d.mon > 0 then Date(d.year, d.mon - 1, MonthLength(d.year, d.mon - 1))
    else Date(d.year - 1, 11, 31)
  }

  /** Every date from 1900 on is met on the walk. */
  lemma {:induction false} Met(d: Date) returns (n: nat)
    requires ValidDate(d)
    ensures Walk(n) == d
    decreases d.year, d.mon, d.mday
  {
    if d == Date(0, 0, 1) {
      n := 0;
    } else {
      n := Met(Prev(d));
      n := n + 1;
    }
  }

  /** For every date from 1900 on, the closed form is the number of days counted through the
      calendar from 1 January 1970 to it. */
  lemma {:induction false} DaysCounted(d: Date)
    requires ValidDate(d)
    ensures Days(d.year, d.mon, d.mday) + EPOCH >= 0
    ensures Walk(Days(d.year, d.mon, d.mday) + EPOCH) == d
  {
    var n := Met(d);
    DaysCount(n);
  }

  lemma {:induction false} WalkOrder(m: nat, n: nat)
    requires m < n
    ensures Before(Walk(m), Walk(n))
  {
    if m < n - 1 {
      WalkOrder(m, n - 1);
    }
  }

  lemma {:induction false} WalkCompares(m: nat, n: nat)
    ensures Before(Walk(m), Walk(n)) <==> m < n
  {
    if m < n {
      WalkOrder(m, n);
    } else if n < m {
      WalkOrder(n, m);
    }
  }

  /** Later dates count more days. */
  lemma {:induction false} DaysIncrease(d: Date, e: Date)
    requires ValidDate(d) && ValidDate(e)
    ensures Before(d, e) <==> Days(d.year, d.mon, d.mday) < Days(e.year, e.mon, e.mday)
  {
    DaysCounted(d);
    DaysCounted(e);
    WalkCompares(Days(d.year, d.mon, d.mday) + EPOCH, Days(e.year, e.mon, e.mday) + EPOCH);
  }

  lemma {:induction false} SameDays(d: Date, e: Date)
    requires ValidDate(d) && ValidDate(e) && Days(d.year, d.mon, d.mday) == Days(e.year, e.mon, e.mday)
    ensures d == e
  {
    DaysIncrease(d, e);
    DaysIncrease(e, d);
  }

  // ---- date and time ---------------------------------------------------------

  function DateOf(tm: Tm): Date {
    Date(tm.year, tm.mon, tm.mday)
  }

  /** As `struct tm` allows, a leap second included. */
  predicate ValidTm(tm: Tm) {
    ValidDate(DateOf(tm)) && 0 <= tm.hour < 24 && 0 <= tm.min < 60 && 0 <= tm.sec <= 60
  }

  predicate Earlier(a: Tm, b: Tm) {
    || Before(DateOf(a), DateOf(b))
    || (DateOf(a) == DateOf(b) &&
        (a.hour < b.hour || (a.hour == b.hour && (a.min < b.min || (a.min == b.min && a.sec < b.sec)))))
  }

  /** The time increases strictly with the date and the time of day, but for a leap second, which
      counts as the second after it. */
  lemma {:induction false} SecondsIncrease(a: Tm, b: Tm)
    requires ValidTm(a) && ValidTm(b)
    ensures Earlier(a, b) <==> Seconds(a) < Seconds(b) || (Seconds(a) == Seconds(b) && a.sec == 60 && b.sec == 0)
  {
    DaysIncrease(DateOf(a), DateOf(b));
    DaysIncrease(DateOf(b), DateOf(a));
  }

  /** Within a second the time increases with the microseconds, and a microsecond counts one. */
  lemma {:induction false} MicrosIncrease(a: Tm, u: int, b: Tm, v: int)
    requires ValidTm(a) && ValidTm(b) && 0 <= u < 1000000 && 0 <= v < 1000000
    ensures Micros(a, u) < Micros(b, v) <==> Seconds(a) < Seconds(b) || (Seconds(a) == Seconds(b) && u < v)
    ensures Micros(a, u) - Micros(a, 0) == u && Micros(Tm(70, 0, 1, 0, 0, 0), 0) == 0
  {
  }

  /** The last second of 1969, had it been a leap second. */
  const LEAP_1969 := Tm(69, 11, 31, 23, 59, 60)

  /** The error is reported exactly for times before 1 January 1970, but for a leap second at the
      end of 1969. */
  lemma {:induction false} ErrorBeforeEpoch(tm: Tm)
    requires ValidTm(tm)
    ensures Seconds(tm) < 0 <==> tm.year < 70 && tm != LEAP_1969
  {
    EpochOrder(tm);
    LeapAtEpoch(tm);
  }

  lemma {:induction false} EpochOrder(tm: Tm)
    requires ValidTm(tm)
    ensures tm.year < 70 <==> Seconds(tm) < 0 || (Seconds(tm) == 0 && tm.sec == 60)
  {
    EpochDays(DateOf(tm));
    DaySign(Days(tm.year, tm.mon, tm.mday), tm.hour, tm.min, tm.sec);
  }

  lemma {:induction false} EpochDays(d: Date)
    requires ValidDate(d)
    ensures d.year < 70 <==> Days(d.year, d.mon, d.mday) < 0
  {
    DaysIncrease(d, Date(70, 0, 1));
  }

  lemma DaySign(days: int, hour: int, min: int, sec: int)
    requires 0 <= hour < 24 && 0 <= min < 60 && 0 <= sec <= 60
    ensures var t := ((days * 24 + hour) * 60 + min) * 60 + sec; days < 0 <==> t < 0 || (t == 0 && sec == 60)
  {
    var m := (days * 24 + hour) * 60 + min;
    assert m < 0 <==> days < 0;
  }

  lemma {:induction false} LeapAtEpoch(tm: Tm)
    requires ValidTm(tm)
    ensures Seconds(tm) == 0 && tm.sec == 60 <==> tm == LEAP_1969
  {
    if Seconds(tm) == 0 && tm.sec == 60 {
      LastMinute(Days(tm.year, tm.mon, tm.mday), tm.hour, tm.min);
      SameDays(DateOf(tm), Date(69, 11, 31));
    }
  }

  lemma LastMinute(days: int, hour: int, min: int)
    requires 0 <= hour < 24 && 0 <= min < 60 && ((days * 24 + hour) * 60 + min) * 60 + 60 == 0
    ensures days == -1 && hour == 23 && min == 59
  {
    assert (days * 24 + hour) * 60 + min == -1;
    assert days * 24 + hour == -1;
  }

  /** 04:00:54 on 10 January 294247. */
  const LAST := Tm(292347, 0, 10, 4, 0, 54)
  const LAST_USEC := 775807

  lemma {:induction false} LastSeconds()
    ensures ValidTm(LAST) && Seconds(LAST) == 9223372036854
  {
    MarchForm(292346);
    assert Days(292347, 0, 10) == 106751991;
  }

  lemma {:induction false} LastFits(seconds: int, usec: int)
    requires 0 <= usec < USEC_PER_SEC
    ensures seconds * USEC_PER_SEC + usec < 0x8000_0000_0000_0000
       <==> seconds < 9223372036854 || (seconds == 9223372036854 && usec <= LAST_USEC)
  {
  }

  /** The result fits ogs_time_t exactly up to the last microsecond 64 bits can count. */
  lemma {:induction false} FitsTime(tm: Tm, usec: int)
    requires ValidTm(tm) && 0 <= usec < USEC_PER_SEC
    ensures Micros(tm, usec) < 0x8000_0000_0000_0000
       <==> !Earlier(LAST, tm) && (tm == LAST ==> usec <= LAST_USEC)
  {
    LastSeconds();
    LastFits(Seconds(tm), usec);
    SecondsIncrease(LAST, tm);
    SecondsIncrease(tm, LAST);
  }

  /** Nothing before that overflows, for any date of a year an `int` can hold. */
  lemma {:induction false} StepsFit(tm: Tm)
    requires ValidTm(tm) && tm.year < 0x8000_0000
    ensures -0x8000_0000_0000_0000 <= Seconds(tm) < 0x8000_0000_0000_0000
    ensures var y := if tm.mon < 2 then tm.year - 1 else tm.year; -0x8000_0000_0000_0000 <= MarchYears(y) < 0x8000_0000_0000_0000
  {
    var y := if tm.mon < 2 then tm.year - 1 else tm.year;
    YearsFit(y);
  }

  lemma YearsFit(y: int)
    requires -1 <= y < 0x8000_0000
    ensures -400 <= MarchYears(y) <= 366 * 0x8000_0000
  {
    if y >= 0 {
      MarchForm(y);
      assert 0 <= y / 100 <= y / 4 <= y;
    }
  }
}
