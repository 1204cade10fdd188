/** The UTC civil calendar behind `mktime` and `localtime`: section 4.16, "Seconds Since the
    Epoch", of POSIX.1-2017 Base Definitions, extended to every year by flooring the divisions. */
module Calendar {

  /** The broken-down time of <time.h>: years count from 1900, months from 0, weekdays from Sunday. */
  datatype Tm = Tm(year: int, mon: int, mday: int, hour: int, min: int, sec: int, wday: int)

  predicate Leap(y: int) {
    y % 4 == 0 && (y % 100 != 0 || (y + 300) % 400 == 0)
  }

  function MonthLen(y: int, m: int): int {
    if m == 1 then (if Leap(y) then 29 else 28)
    else if m == 3 || m == 5 || m == 8 || m == 10 then 30
    else 31
  }

  function YearLen(y: int): int {
    if Leap(y) then 366 else 365
  }

  /** Days of year `y` before month `m`; month 12 stands for the end of the year. */
  function DaysBefore(y: int, m: int): int
    decreases m
  {
    if m <= 0 then 0 else DaysBefore(y, m - 1) + MonthLen(y, m - 1)
  }

  lemma MonthsMakeYear(y: int)
    ensures DaysBefore(y, 12) == YearLen(y)
  {
    var feb := MonthLen(y, 1);
    assert DaysBefore(y, 1) == 31;
    assert DaysBefore(y, 2) == 31 + feb;
    assert DaysBefore(y, 3) == 62 + feb;
    assert DaysBefore(y, 4) == 92 + feb;
    assert DaysBefore(y, 5) == 123 + feb;
    assert DaysBefore(y, 6) == 153 + feb;
    assert DaysBefore(y, 7) == 184 + feb;
    assert DaysBefore(y, 8) == 215 + feb;
    assert DaysBefore(y, 9) == 245 + feb;
    assert DaysBefore(y, 10) == 276 + feb;
    assert DaysBefore(y, 11) == 306 + feb;
  }

  /** Days from 1 January 1970 to 1 January of year `y`, counted year by year. */
  function YearStart(y: int): int
    decreases if y < 70 then 70 - y else y - 70
  {
    if y == 70 then 0
    else if y > 70 then YearStart(y - 1) + YearLen(y - 1)
    else YearStart(y + 1) - YearLen(y)
  }

  /** The closed form that POSIX gives. */
  function EpochDays(y: int): int {
    (y - 70) * 365 + (y - 69) / 4 - (y - 1) / 100 + (y + 299) / 400
  }

  predicate ValidDate(y: int, m: int, d: int) {
    0 <= m <= 11 && 1 <= d <= MonthLen(y, m)
  }

  predicate ValidTm(tm: Tm) {
    ValidDate(tm.year, tm.mon, tm.mday) && 0 <= tm.hour <= 23 && 0 <= tm.min <= 59 && 0 <= tm.sec <= 59
  }

  function DayNumber(y: int, m: int, d: int): int {
    YearStart(y) + DaysBefore(y, m) + d - 1
  }

  /** 1 January 1970 was a Thursday. */
  function Weekday(day: int): int {
    (day + 4) % 7
  }

  /** Like the library's, this ignores the weekday it is given. It is only asked for valid times. */
  function Mktime(tm: Tm): int {
    DayNumber(tm.year, tm.mon, tm.mday) * 86400 + tm.hour * 3600 + tm.min * 60 + tm.sec
  }

  predicate TrueWeekday(tm: Tm) {
    tm.wday == Weekday(DayNumber(tm.year, tm.mon, tm.mday))
  }

  /** `tm` is the broken-down form of the instant `t`. */
  predicate BreaksDown(t: int, tm: Tm) {
    ValidTm(tm) && Mktime(tm) == t && TrueWeekday(tm)
  }

  lemma DivStep(a: int, n: int)
    requires n > 0
    ensures (a + 1) / n == a / n + if (a + 1) % n == 0 then 1 else 0
  {
    var q, r := a / n, a % n;
    assert a + 1 == q * n + (r + 1);
    if r + 1 == n {
      assert a + 1 == (q + 1) * n;
      DivUnique(a + 1, n, q + 1, 0);
    } else {
      DivUnique(a + 1, n, q, r + 1);
    }
  }

  lemma {:induction false} MulMono(a: int, b: int, n: int)
    requires a <= b && n > 0
    ensures a * n <= b * n
    decreases b - a
  {
    if a < b {
      MulMono(a + 1, b, n);
      assert (a + 1) * n == a * n + n;
    }
  }

  lemma BetweenMultiples(k: int, n: int)
    requires n > 0 && -n < k * n < n
    ensures k == 0
  {
    if k > 0 {
      MulMono(1, k, n);
    } else if k < 0 {
      MulMono(k, -1, n);
    }
  }

  lemma DivUnique(a: int, n: int, q: int, r: int)
    requires n > 0 && a == q * n + r && 0 <= r < n
    ensures a / n == q && a % n == r
  {
    var k := a / n - q;
    assert a / n * n + a % n == a;
    assert k * n == r - a % n;
    assert k == 0 by { BetweenMultiples(k, n); }
  }

  lemma EpochYear(y: int)
    ensures EpochDays(y + 1) == EpochDays(y) + YearLen(y)
  {
    DivStep(y - 69, 4);
    DivStep(y - 1, 100);
    DivStep(y + 299, 400);
    DivCycle(y - 68, 4, 17);
    assert y - 68 + 17 * 4 == y;
  }

  /** Counting year by year gives the formula of section 4.16. */
  lemma {:induction false} YearStartIsEpochDays(y: int)
    ensures YearStart(y) == EpochDays(y)
    decreases if y < 70 then 70 - y else y - 70
  {
    if y > 70 {
      EpochYear(y - 1);
      YearStartIsEpochDays(y - 1);
    } else if y < 70 {
      EpochYear(y);
      YearStartIsEpochDays(y + 1);
    }
  }

  lemma YearLength(y: int)
    ensures YearStart(y + 1) == YearStart(y) + YearLen(y)
  {
    if y < 70 { assert y + 1 <= 70; }
  }

  lemma {:induction false} YearsOrdered(y: int, z: int)
    requires y < z
    ensures YearStart(y) + YearLen(y) <= YearStart(z)
    decreases z - y
  {
    YearLength(y);
    if y + 1 < z { YearsOrdered(y + 1, z); }
  }

  lemma {:induction false} MonthsOrdered(y: int, m: int, n: int)
    requires 0 <= m < n <= 12
    ensures DaysBefore(y, m) + MonthLen(y, m) <= DaysBefore(y, n)
    decreases n - m
  {
    if m + 1 < n { MonthsOrdered(y, m + 1, n); }
  }

  /** Dates are numbered in calendar order, so a day number has one date. */
  lemma DatesOrdered(y: int, m: int, d: int, z: int, n: int, e: int)
    requires ValidDate(y, m, d) && ValidDate(z, n, e)
    requires y < z || (y == z && (m < n || (m == n && d < e)))
    ensures DayNumber(y, m, d) < DayNumber(z, n, e)
  {
    if y < z {
      MonthsOrdered(y, m, 12);
      MonthsMakeYear(y);
      YearsOrdered(y, z);
      if n > 0 { MonthsOrdered(z, 0, n); }
    } else if m < n {
      MonthsOrdered(y, m, n);
    }
  }

  lemma YearsGrow(y: int)
    ensures YearStart(y - 1) < YearStart(y) <= YearStart(y - 1) + 366
    ensures YearStart(y) < YearStart(y + 1)
  {
    YearLength(y);
    YearLength(y - 1);
  }

  lemma DatesOnce(p: Tm, q: Tm)
    requires ValidTm(p) && ValidTm(q)
    requires DayNumber(p.year, p.mon, p.mday) == DayNumber(q.year, q.mon, q.mday)
    ensures p.year == q.year && p.mon == q.mon && p.mday == q.mday
  {
    if p.year < q.year || (p.year == q.year && (p.mon < q.mon || (p.mon == q.mon && p.mday < q.mday))) {
      DatesOrdered(p.year, p.mon, p.mday, q.year, q.mon, q.mday);
    } else if p.year != q.year || p.mon != q.mon || p.mday != q.mday {
      DatesOrdered(q.year, q.mon, q.mday, p.year, p.mon, p.mday);
    }
  }

  /** An instant has one broken-down form. */
  lemma BreaksDownOnce(t: int, p: Tm, q: Tm)
    requires BreaksDown(t, p) && BreaksDown(t, q)
    ensures p == q
  {
    ClockOnce(DayNumber(p.year, p.mon, p.mday), p.hour, p.min, p.sec, DayNumber(q.year, q.mon, q.mday), q.hour, q.min, q.sec);
    DatesOnce(p, q);
  }

  lemma SecondsSplit(s: int)
    requires 0 <= s < 86400
    ensures 0 <= s / 3600 <= 23 && s / 3600 * 3600 + s / 60 % 60 * 60 + s % 60 == s
  {
    DivUnique(s / 60, 60, s / 3600, s / 60 % 60);
  }

  function MonthOf(y: int, yday: int, guess: nat): (m: int)
    requires guess <= 11 && DaysBefore(y, guess) <= yday < DaysBefore(y, 12)
    ensures 0 <= m <= 11 && DaysBefore(y, m) <= yday < DaysBefore(y, m) + MonthLen(y, m)
    decreases 12 - guess
  {
    if yday < DaysBefore(y, guess + 1) then guess else MonthOf(y, yday, guess + 1)
  }

  /** Searching backwards may overshoot by part of a year, searching forwards never does. */
  ghost function Distance(day: int, y: int): nat {
    if day < YearStart(y) then YearStart(y) - day + 366 else day - YearStart(y)
  }

  function YearOf(day: int, guess: int): (y: int)
    ensures YearStart(y) <= day < YearStart(y) + YearLen(y)
    decreases Distance(day, guess)
  {
    YearsGrow(guess);
    YearLength(guess);
    if day < YearStart(guess) then YearOf(day, guess - 1)
    else if day >= YearStart(guess + 1) then YearOf(day, guess + 1)
    else guess
  }

  function BrokenDown(t: int): (tm: Tm)
    ensures BreaksDown(t, tm)
  {
    var day, s := t / 86400, t % 86400;
    var y := YearOf(day, 70);
    MonthsMakeYear(y);
    SecondsSplit(s);
    var m := MonthOf(y, day - YearStart(y), 0);
    Tm(y, m, day - YearStart(y) - DaysBefore(y, m) + 1, s / 3600, s / 60 % 60, s % 60, Weekday(day))
  }

  /** The two library functions. */
  datatype Clib = Clib(mktime: Tm -> int, localtime: int -> Tm)

  /** A library that converts between valid times and instants as POSIX says. */
  ghost predicate Utc(lib: Clib) {
    && (forall tm {:trigger Mktime(tm)} :: ValidTm(tm) ==> lib.mktime(tm) == Mktime(tm))
    && (forall t {:trigger BreaksDown(t, lib.localtime(t))} :: BreaksDown(t, lib.localtime(t)))
  }

  lemma UtcExists()
    ensures Utc(Clib(Mktime, BrokenDown))
  {
  }

  lemma LocaltimeIs(lib: Clib, t: int, tm: Tm)
    requires Utc(lib) && BreaksDown(t, tm)
    ensures lib.localtime(t) == tm && lib.mktime(tm) == t
  {
    assert BreaksDown(t, lib.localtime(t));
    BreaksDownOnce(t, tm, lib.localtime(t));
  }

  /** A number of seconds has one reading as days, hours, minutes and seconds. */
  lemma ClockOnce(d: int, h: int, m: int, s: int, d': int, h': int, m': int, s': int)
    requires 0 <= h <= 23 && 0 <= m <= 59 && 0 <= s <= 59 && 0 <= h' <= 23 && 0 <= m' <= 59 && 0 <= s' <= 59
    requires d * 86400 + h * 3600 + m * 60 + s == d' * 86400 + h' * 3600 + m' * 60 + s'
    ensures d == d' && h == h' && m == m' && s == s'
  {
    assert (d * 24 + h) * 60 + m == (d' * 24 + h') * 60 + m';
    assert d * 24 + h == d' * 24 + h';
  }

  /** The first of the next month follows the last day of this one, December included. */
  lemma NextMonth(y: int, m: int)
    requires 0 <= m <= 11
    ensures DayNumber(y, m, 1) + MonthLen(y, m) == if m == 11 then DayNumber(y + 1, 0, 1) else DayNumber(y, m + 1, 1)
  {
    YearLength(y);
    MonthsMakeYear(y);
  }

  /** The calendar, weekdays included, repeats every 400 years. */
  lemma {:induction false} Cycle(y: int, m: int, d: int, k: nat)
    requires ValidDate(y, m, d)
    ensures ValidDate(y + 400 * k, m, d)
    ensures DayNumber(y + 400 * k, m, d) == DayNumber(y, m, d) + 146097 * k
    ensures Weekday(DayNumber(y + 400 * k, m, d)) == Weekday(DayNumber(y, m, d))
  {
    if k > 0 {
      Cycle(y, m, d, k - 1);
      CycleOnce(y + 400 * (k - 1), m, d);
      assert y + 400 * (k - 1) + 400 == y + 400 * k;
    }
  }

  lemma DivCycle(a: int, n: int, k: int)
    requires n > 0
    ensures (a + k * n) / n == a / n + k && (a + k * n) % n == a % n
  {
    assert a + k * n == (a / n + k) * n + a % n;
    DivUnique(a + k * n, n, a / n + k, a % n);
  }

  lemma {:induction false} SameMonths(y: int, z: int, m: nat)
    requires Leap(y) == Leap(z)
    ensures DaysBefore(y, m) == DaysBefore(z, m)
  {
    if m > 0 { SameMonths(y, z, m - 1); }
  }

  lemma CycleOnce(y: int, m: int, d: int)
    requires ValidDate(y, m, d)
    ensures ValidDate(y + 400, m, d)
    ensures DayNumber(y + 400, m, d) == DayNumber(y, m, d) + 146097
    ensures Weekday(DayNumber(y + 400, m, d)) == Weekday(DayNumber(y, m, d))
  {
    DivCycle(y - 69, 4, 100);
    DivCycle(y - 1, 100, 4);
    DivCycle(y + 299, 400, 1);
    DivCycle(y + 300, 400, 1);
    DivCycle(y, 4, 100);
    DivCycle(y, 100, 4);
    YearStartIsEpochDays(y);
    YearStartIsEpochDays(y + 400);
    SameMonths(y, y + 400, m);
    DivCycle(DayNumber(y, m, d) + 4, 7, 20871);
  }
}
