/** When the cron search comes to an end, right or wrong: exactly which expressions stop from every start. */
module CronHalts {
  import opened Calendar
  import opened Loop
  import opened CronSearch
  import opened CronProof

  predicate ThirtyDays(m: int) {
    m == 3 || m == 5 || m == 8 || m == 10
  }

  /** What a caller can check of an expression before the search. */
  predicate Stops(c: Cron) {
    FitsCalendar(c) && (Tame(c) || c.day == -1 || ThirtyDays(c.month) || (c.hour <= 0 && c.minute <= 0))
  }

  // ----- from the first after a month to the month's next first

  /** Days before a month in a year of 365 days. */
  function Before(m: int): int {
    if m <= 0 then 0 else Before(m - 1) + if m == 2 then 28 else if ThirtyDays(m - 1) then 30 else 31
  }

  lemma {:induction false} DaysBeforeIs(y: int, m: nat)
    ensures DaysBefore(y, m) == Before(m) + if m >= 2 && Leap(y) then 1 else 0
  {
    if m > 0 { DaysBeforeIs(y, m - 1); }
  }

  /** The first of the month after month m that comes last before, or on, the first of month `mon`. */
  function FollowYear(m: int, y: int, mon: int): int {
    if m == 11 || mon > m then y else y - 1
  }

  function NextMon(m: int): int {
    if m == 11 then 0 else m + 1
  }

  function FollowDay(m: int, y: int, mon: int): int {
    DayNumber(FollowYear(m, y, mon), NextMon(m), 1)
  }

  /** It changes only when month m is left. */
  lemma FollowStays(m: int, y: int, mon: int)
    requires 0 <= m <= 11 && 0 <= mon <= 11 && mon != m
    ensures FollowDay(m, y, mon) == if mon == 11 then FollowDay(m, y + 1, 0) else FollowDay(m, y, mon + 1)
  {
  }

  lemma BeforeTable(m: int)
    requires 0 <= m <= 11
    ensures m < 11 ==> Before(m + 1) - Before(m) == if m == 1 then 28 else if ThirtyDays(m) then 30 else 31
    ensures Before(11) == 334
  {
    assert Before(1) == 31 && Before(2) == 59 && Before(3) == 90 && Before(4) == 120 && Before(5) == 151;
    assert Before(6) == 181 && Before(7) == 212 && Before(8) == 243 && Before(9) == 273 && Before(10) == 304;
  }

  lemma FollowWithin(m: int, y: int)
    requires 0 <= m < 11
    ensures DayNumber(y, m, 1) - FollowDay(m, y, m) ==
            365 - MonthLen(if m == 1 then y - 1 else y, m) + if Leap(if m >= 2 then y else y - 1) then 1 else 0
  {
    YearLength(y - 1);
    BeforeTable(m);
    DaysBeforeIs(y, m);
    DaysBeforeIs(y - 1, m + 1);
    assert FollowDay(m, y, m) == DayNumber(y - 1, m + 1, 1);
  }

  /** From the first after month m to the next first of month m: for a month of 30 days a multiple of seven
      in leap years, for any other month never. */
  lemma FollowDistance(m: int, y: int)
    requires 0 <= m <= 11
    ensures var d := DayNumber(y, m, 1) - FollowDay(m, y, m);
            if m == 1 then d == 337
            else if ThirtyDays(m) then d == (if Leap(y) then 336 else 335)
            else d == 334 || d == 335
  {
    if m == 11 {
      DaysBeforeIs(y, 11);
      BeforeTable(11);
      assert FollowDay(11, y, 11) == DayNumber(y, 0, 1);
    } else {
      FollowWithin(m, y);
    }
  }

  // ----- searches that do not end

  /** The states of a search that has entered month m once: days 2 and later, month firsts that still carry
      the weekday of the first after month m, and a first of month m whose true weekday is a wrong one. */
  predicate Endless(c: Cron, tm: Tm) {
    && OnMinute(tm)
    && if tm.mon == c.month && tm.mday > 1 then true
       else if tm.mon == c.month && TrueWeekday(tm) && tm.wday != c.dayOfWeek then true
       else tm.mday == 1 && tm.hour == 0 && tm.min == 0 && tm.wday == Weekday(FollowDay(c.month, tm.year, tm.mon))
  }

  /** The expressions that have such searches. */
  predicate HasEndless(c: Cron) {
    && 0 <= c.month && c.day == 1 && c.dayOfWeek != -1
    && !ThirtyDays(c.month) && (1 <= c.hour || 1 <= c.minute)
  }

  lemma DayStep(c: Cron, tm: Tm) returns (nx: Tm)
    requires Utc(c.lib) && HasEndless(c) && OnMinute(tm) && tm.mon == c.month && (tm.mday > 1 || tm.wday != c.dayOfWeek)
    ensures c.Step(tm) == Some(nx) && OnMinute(nx) && TrueWeekday(nx)
    ensures tm.mday < MonthLen(tm.year, tm.mon) ==> nx.mon == tm.mon && nx.mday == tm.mday + 1
    ensures tm.mday == MonthLen(tm.year, tm.mon) ==> nx.(wday := tm.wday) == ToNextMonth(tm)
  {
    nx := NextDate(c.lib, tm);
    DayMove(c.lib, tm);
  }

  lemma FollowStarts(m: int, tm: Tm)
    requires 0 <= m <= 11 && tm.mon == m
    ensures var nx := ToNextMonth(tm); nx.mon != m && nx.mday == 1 && FollowDay(m, nx.year, nx.mon) == Day(nx)
  {
    var nx := ToNextMonth(tm);
    assert nx.mon == NextMon(m) && FollowYear(m, nx.year, nx.mon) == nx.year;
  }

  lemma EndlessDay(c: Cron, tm: Tm)
    requires Utc(c.lib) && c.Valid() && HasEndless(c) && OnMinute(tm) && tm.mon == c.month
    requires tm.mday > 1 || tm.wday != c.dayOfWeek
    ensures c.Step(tm).Some? && Endless(c, c.Step(tm).value)
  {
    var nx := DayStep(c, tm);
    FollowStarts(c.month, tm);
    if tm.mday == MonthLen(tm.year, tm.mon) {
      NextIsEndless(c, nx, FollowDay(c.month, nx.year, nx.mon));
    }
  }

  lemma NextIsEndless(c: Cron, nx: Tm, f: int)
    requires OnMinute(nx) && nx.mday == 1 && nx.hour == 0 && nx.min == 0 && nx.mon != c.month
    requires f == FollowDay(c.month, nx.year, nx.mon) && nx.wday == Weekday(f)
    ensures Endless(c, nx)
  {
  }

  lemma WrongWeekday(c: Cron, tm: Tm)
    requires HasEndless(c) && c.Valid() && OnMinute(tm) && tm.mon == c.month && tm.mday == 1
    requires c.dayOfWeek == Weekday(FollowDay(c.month, tm.year, tm.mon))
    ensures Weekday(Day(tm)) != c.dayOfWeek
  {
    FollowDistance(c.month, tm.year);
    var f := FollowDay(c.month, tm.year, c.month);
    assert (f + 337 + 4) % 7 == (f + 4 + 1) % 7 && (f + 334 + 4) % 7 == (f + 4 + 5) % 7 && (f + 335 + 4) % 7 == (f + 4 + 6) % 7;
  }

  /** Off midnight the weekday comes back true. */
  lemma OffMidnight(lib: Clib, tm: Tm, seconds: int) returns (to: Tm)
    requires Utc(lib) && OnMinute(tm) && tm.hour == 0 && tm.min == 0 && (seconds == 60 || seconds == 3600)
    ensures to == Add(lib, tm, seconds) && OnMinute(to) && to.wday == Weekday(Day(tm)) && TrueWeekday(to)
    ensures to.year == tm.year && to.mon == tm.mon && to.mday == tm.mday && (seconds == 3600 ==> to.min == 0)
  {
    MktimeIs(lib, tm);
    to := tm.(hour := if seconds == 3600 then 1 else 0, min := if seconds == 60 then 1 else 0, wday := Weekday(Day(tm)));
    LocaltimeIs(lib, lib.mktime(tm) + seconds, to);
  }

  lemma EndlessFirst(c: Cron, tm: Tm) returns (to: Tm)
    requires Utc(c.lib) && c.Valid() && HasEndless(c) && Endless(c, tm)
    requires tm.mon == c.month && tm.mday == 1 && tm.wday == c.dayOfWeek
    ensures c.Step(tm) == Some(to) && Endless(c, to)
  {
    WrongWeekday(c, tm);
    to := OffMidnight(c.lib, tm, if 1 <= c.hour then 3600 else 60);
  }

  lemma EndlessStep(c: Cron, tm: Tm)
    requires Utc(c.lib) && c.Valid() && HasEndless(c) && Endless(c, tm)
    ensures c.Step(tm).Some? && Endless(c, c.Step(tm).value)
  {
    if tm.mon != c.month {
      MonthMove(c.lib, tm);
      FollowStays(c.month, tm.year, tm.mon);
    } else if tm.mday > 1 || tm.wday != c.dayOfWeek {
      EndlessDay(c, tm);
    } else {
      var to := EndlessFirst(c, tm);
    }
  }

  /** Asked for late in their month, these expressions are searched for ever: the jump off midnight corrects
      the weekday exactly where the stale one was accepted. */
  lemma NeverEnds(c: Cron, from: int)
    requires Utc(c.lib) && c.Valid() && HasEndless(c)
    requires Start(c, from).mon == c.month && Start(c, from).mday > 1
    ensures FitsCalendar(c) && !Halts(c.Step, Start(c, from))
  {
    StartIs(c, from);
    forall tm | Endless(c, tm)
      ensures c.Step(tm).Some? && Endless(c, c.Step(tm).value)
    {
      EndlessStep(c, tm);
    }
    forall n: nat
      ensures c.Step(After(c.Step, Start(c, from), n)).Some?
    {
      Monotone(c.Step, Start(c, from), (tm: Tm) => Endless(c, tm), (tm: Tm) => 0, n, n);
    }
  }

  /** Noon on the second of the month, say. */
  lemma SomeEndless(c: Cron) returns (from: int)
    requires Utc(c.lib) && c.Valid() && HasEndless(c)
    ensures !Halts(c.Step, Start(c, from))
  {
    var noon := Tm(100, c.month, 2, 12, 0, 0, Weekday(DayNumber(100, c.month, 2)));
    from := Mktime(noon);
    LocaltimeIs(c.lib, from, noon);
    LocaltimeIs(c.lib, from + 60, noon.(min := 1));
    NeverEnds(c, from);
  }

  // ----- searches that end although a weekday is stale: any day of the month

  /** Only firsts of a month may carry another weekday. */
  predicate Loose(tm: Tm) {
    TrueWeekday(tm) || tm.mday == 1
  }

  /** No match on another day than a first is jumped over. */
  lemma LooseSkips(c: Cron, tm: Tm, t: int)
    requires Utc(c.lib) && c.day == -1 && OnMinute(tm) && Loose(tm) && c.Step(tm).Some?
    requires c.lib.mktime(tm) <= t < c.lib.mktime(c.Step(tm).value) && c.lib.localtime(t).mday != 1
    ensures !Match(c, t)
  {
    MktimeIs(c.lib, tm);
    if c.month != -1 && tm.mon != c.month {
      MonthMove(c.lib, tm);
      var u := OnDate(c.lib, tm.year, tm.mon, tm.mday + t / 86400 - Day(tm), t);
    } else if c.dayOfWeek != -1 && tm.wday != c.dayOfWeek {
      DayMove(c.lib, tm);
      var u := OnDate(c.lib, tm.year, tm.mon, tm.mday, t);
    } else if c.hour != -1 && tm.hour != c.hour {
      HourMove(c.lib, tm);
      var u := OnDate(c.lib, tm.year, tm.mon, tm.mday, t);
    } else {
      MinuteMove(c.lib, tm);
      if t % 60 == 0 {
        WholeMinutes(t, Day(tm), tm.hour, tm.min);
        FieldsAt(c.lib, tm);
      }
    }
  }

  lemma LooseStep(c: Cron, tm: Tm)
    requires Utc(c.lib) && OnMinute(tm) && c.Step(tm).Some?
    ensures Loose(c.Step(tm).value)
  {
    if c.month != -1 && tm.mon != c.month {
    } else if (c.day != -1 && tm.mday != c.day) || (c.dayOfWeek != -1 && tm.wday != c.dayOfWeek) {
      DayMove(c.lib, tm);
    } else if c.hour != -1 && tm.hour != c.hour {
      HourMove(c.lib, tm);
    } else {
      MinuteMove(c.lib, tm);
    }
  }

  lemma {:induction false} LooseHalts(c: Cron, s: Tm, g: int, n: nat)
    requires Utc(c.lib) && c.day == -1 && Match(c, g) && c.lib.localtime(g).mday != 1
    requires var tm := After(c.Step, s, n); OnMinute(tm) && Loose(tm) && c.lib.mktime(tm) <= g
    ensures Halts(c.Step, s)
    decreases g - c.lib.mktime(After(c.Step, s, n))
  {
    var tm := After(c.Step, s, n);
    if c.Step(tm).Some? {
      StepAdvances(c, tm);
      LooseStep(c, tm);
      if g < c.lib.mktime(c.Step(tm).value) {
        LooseSkips(c, tm, g);
      }
      assert After(c.Step, s, n + 1) == c.Step(tm).value;
      LooseHalts(c, s, g, n + 1);
    }
  }

  /** A match on a second of the month, after any instant. */
  lemma SecondAhead(c: Cron, from: int) returns (t: int)
    requires Utc(c.lib) && c.Valid() && c.day == -1
    ensures from < t && Match(c, t) && c.lib.localtime(t).mday != 1
  {
    var m := if c.month == -1 then 0 else c.month;
    var y := DateOnWeekday(m, 2, if c.dayOfWeek == -1 then 0 else c.dayOfWeek);
    var n := DayNumber(y, m, 2);
    var k: nat := (if from < 0 then -from else from) + (if n < 0 then -n else n) + 1;
    Cycle(y, m, 2, k);
    t := MatchOnDate(c, y + 400 * k, m, 2);
    var u := OnDate(c.lib, y + 400 * k, m, 2, t);
    assert n + 146097 * k > from && n + 146097 * k > 0;
  }

  lemma AnyDayHalts(c: Cron, from: int)
    requires Utc(c.lib) && c.Valid() && c.day == -1
    ensures Halts(c.Step, Start(c, from))
  {
    StartIs(c, from);
    var g := SecondAhead(c, Minute(from));
    NextMinute(from, g);
    LooseHalts(c, Start(c, from), g, 0);
  }

  // ----- searches that end although a weekday is stale: the first of the month

  /** A search that has passed the first after month m of some year, a wanted weekday `w`, carries this
      weekday to the next first of month m. */
  ghost predicate Carries(c: Cron, tm: Tm, first: int, w: int, g: int) {
    && OnMinute(tm) && c.lib.mktime(tm) <= g
    && (first * 86400 <= c.lib.mktime(tm) ==> tm.mday == 1 && tm.wday == w)
  }

  /** The year in which the carried weekday arrives: `first` is the day from which it is carried, and
      `g` the instant on the first of the month at which the search ends. */
  ghost predicate Arrives(c: Cron, y: int, first: int, g: int) {
    && 0 <= c.month <= 11 && c.day == 1 && c.dayOfWeek != -1
    && first == FollowDay(c.month, y, c.month) && Weekday(first) == c.dayOfWeek
    && g == DayNumber(y, c.month, 1) * 86400 + (if c.hour == -1 then 0 else c.hour) * 3600 + (if c.minute == -1 then 0 else c.minute) * 60
    && ((c.hour <= 0 && c.minute <= 0) || Weekday(DayNumber(y, c.month, 1)) == c.dayOfWeek)
  }

  /** A midnight is not jumped over, and the weekday is true there. */
  lemma UpToFirst(c: Cron, tm: Tm, nx: Tm, y: int, first: int)
    requires Utc(c.lib) && OnMinute(nx) && TrueWeekday(nx) && 0 <= c.month <= 11
    requires first == FollowDay(c.month, y, c.month) && c.lib.mktime(nx) <= first * 86400
    ensures first * 86400 <= c.lib.mktime(nx) ==> nx.mday == 1 && nx.wday == Weekday(first)
  {
    MktimeIs(c.lib, nx);
    if first * 86400 <= c.lib.mktime(nx) {
      ClockOnce(Day(nx), nx.hour, nx.min, 0, first, 0, 0, 0);
      var f := Tm(FollowYear(c.month, y, c.month), NextMon(c.month), 1, 0, 0, 0, 0);
      DatesOnce(nx, f);
    }
  }

  /** Months in order. */
  predicate Earlier(y: int, m: int, z: int, n: int) {
    y < z || (y == z && m < n)
  }

  lemma FirstsOrdered(y: int, m: int, z: int, n: int)
    requires 0 <= m <= 11 && 0 <= n <= 11
    ensures Earlier(y, m, z, n) <==> DayNumber(y, m, 1) < DayNumber(z, n, 1)
  {
    if Earlier(y, m, z, n) {
      DatesOrdered(y, m, 1, z, n, 1);
    } else if Earlier(z, n, y, m) {
      DatesOrdered(z, n, 1, y, m, 1);
    }
  }

  /** A day before the first of a month lies in an earlier month. */
  lemma EarlierMonth(tm: Tm, z: int, n: int)
    requires ValidTm(tm) && 0 <= n <= 11 && Day(tm) < DayNumber(z, n, 1)
    ensures Earlier(tm.year, tm.mon, z, n)
  {
    FirstsOrdered(tm.year, tm.mon, z, n);
    assert DayNumber(tm.year, tm.mon, 1) <= Day(tm);
  }

  lemma BeforeMonth(c: Cron, tm: Tm, y: int, first: int)
    requires Utc(c.lib) && OnMinute(tm) && 0 <= c.month <= 11 && first == FollowDay(c.month, y, c.month)
    requires c.lib.mktime(tm) < first * 86400 && tm.mon != c.month
    ensures OnMinute(ToNextMonth(tm)) && c.lib.mktime(ToNextMonth(tm)) < first * 86400
  {
    var nx := ToNextMonth(tm);
    MktimeIs(c.lib, tm);
    MonthMove(c.lib, tm);
    EarlierMonth(tm, FollowYear(c.month, y, c.month), NextMon(c.month));
    FirstsOrdered(nx.year, nx.mon, FollowYear(c.month, y, c.month), NextMon(c.month));
    MktimeIs(c.lib, nx);
  }

  /** Moves that recompute the weekday go to the next midnight at most. */
  lemma WithinDay(c: Cron, tm: Tm)
    requires Utc(c.lib) && OnMinute(tm) && c.Step(tm).Some? && (c.month == -1 || tm.mon == c.month)
    ensures var nx := c.Step(tm).value;
            OnMinute(nx) && TrueWeekday(nx) && c.lib.mktime(nx) <= (Day(tm) + 1) * 86400
  {
    MktimeIs(c.lib, tm);
    if (c.day != -1 && tm.mday != c.day) || (c.dayOfWeek != -1 && tm.wday != c.dayOfWeek) {
      DayMove(c.lib, tm);
    } else if c.hour != -1 && tm.hour != c.hour {
      HourMove(c.lib, tm);
    } else {
      MinuteMove(c.lib, tm);
    }
  }

  /** Before the carried weekday begins: every move stays before it or lands on it. */
  lemma BeforeFirst(c: Cron, tm: Tm, y: int, first: int)
    requires Utc(c.lib) && OnMinute(tm) && 0 <= c.month <= 11 && first == FollowDay(c.month, y, c.month)
    requires c.lib.mktime(tm) < first * 86400 && c.Step(tm).Some?
    ensures var nx := c.Step(tm).value;
            OnMinute(nx) && c.lib.mktime(nx) <= first * 86400
            && (first * 86400 <= c.lib.mktime(nx) ==> nx.mday == 1 && nx.wday == Weekday(first))
  {
    if tm.mon != c.month {
      BeforeMonth(c, tm, y, first);
    } else {
      MktimeIs(c.lib, tm);
      WithinDay(c, tm);
      UpToFirst(c, tm, c.Step(tm).value, y, first);
    }
  }

  /** A month first between the two, not in month m: the weekday is carried on. */
  lemma BetweenFirsts(c: Cron, tm: Tm, y: int, first: int, g: int)
    requires Utc(c.lib) && OnMinute(tm) && Arrives(c, y, first, g) && c.Valid()
    requires tm.mday == 1 && tm.mon != c.month && c.lib.mktime(tm) <= g
    ensures var nx := ToNextMonth(tm); c.Step(tm) == Some(nx) && OnMinute(nx) && c.lib.mktime(nx) <= g
  {
    MktimeIs(c.lib, tm);
    var nx := ToNextMonth(tm);
    MonthMove(c.lib, tm);
    MktimeIs(c.lib, nx);
    if Day(tm) < DayNumber(y, c.month, 1) {
      EarlierMonth(tm, y, c.month);
    } else {
      FirstsOrdered(y, c.month, tm.year, tm.mon);
      FirstsOrdered(tm.year, tm.mon, y, c.month);
    }
    FirstsOrdered(y, c.month, nx.year, nx.mon);
  }

  /** Month m is entered only in the year of arrival. */
  lemma ArrivalYear(c: Cron, tm: Tm, y: int, first: int, g: int)
    requires Utc(c.lib) && OnMinute(tm) && Arrives(c, y, first, g) && c.Valid()
    requires tm.mday == 1 && tm.mon == c.month && first * 86400 <= c.lib.mktime(tm) <= g
    ensures tm.year == y
  {
    MktimeIs(c.lib, tm);
    FirstsOrdered(y, c.month, tm.year, tm.mon);
    FirstsOrdered(tm.year, tm.mon, FollowYear(c.month, y, c.month), NextMon(c.month));
  }

  /** A later minute of the same day. */
  lemma SameDay(lib: Clib, tm: Tm, nx: Tm, h: int, m: int)
    requires Utc(lib) && OnMinute(tm) && OnMinute(nx) && TrueWeekday(nx) && 0 <= h <= 23 && 0 <= m <= 59
    requires lib.mktime(nx) == Day(tm) * 86400 + h * 3600 + m * 60
    ensures nx.year == tm.year && nx.mon == tm.mon && nx.mday == tm.mday && nx.wday == Weekday(Day(tm))
  {
    MktimeIs(lib, nx);
    ClockOnce(Day(nx), nx.hour, nx.min, 0, Day(tm), h, m, 0);
    DatesOnce(nx, tm);
  }

  /** On the first of month m the search moves up to g at most, and the weekday is not lost. */
  lemma OnFirst(c: Cron, tm: Tm, y: int, first: int, g: int)
    requires Utc(c.lib) && OnMinute(tm) && Arrives(c, y, first, g) && c.Valid() && c.Step(tm).Some?
    requires tm.mday == 1 && tm.mon == c.month && tm.year == y && tm.wday == c.dayOfWeek && c.lib.mktime(tm) <= g
    ensures var nx := c.Step(tm).value;
            OnMinute(nx) && c.lib.mktime(nx) <= g && nx.mday == 1 && nx.wday == c.dayOfWeek
  {
    MktimeIs(c.lib, tm);
    if c.hour != -1 && tm.hour != c.hour {
      OnFirstHour(c, tm, g);
    } else {
      OnFirstMinute(c, tm, g);
    }
  }

  lemma OnFirstHour(c: Cron, tm: Tm, g: int)
    requires Utc(c.lib) && OnMinute(tm) && c.Valid() && tm.mday == 1 && c.lib.mktime(tm) <= g && c.hour != -1 && tm.hour != c.hour
    requires g == Day(tm) * 86400 + c.hour * 3600 + (if c.minute == -1 then 0 else c.minute) * 60
    ensures tm.hour < c.hour
    ensures var nx := Add(c.lib, tm, 3600).(min := 0);
            OnMinute(nx) && c.lib.mktime(nx) <= g && nx.mday == 1 && nx.wday == Weekday(Day(tm))
  {
    MktimeIs(c.lib, tm);
    HourMove(c.lib, tm);
    SameDay(c.lib, tm, Add(c.lib, tm, 3600).(min := 0), tm.hour + 1, 0);
  }

  lemma OnFirstMinute(c: Cron, tm: Tm, g: int)
    requires Utc(c.lib) && OnMinute(tm) && c.Valid() && tm.mday == 1 && c.lib.mktime(tm) <= g
    requires (c.hour == -1 || tm.hour == c.hour) && c.minute != -1 && tm.min != c.minute
    requires g == Day(tm) * 86400 + (if c.hour == -1 then 0 else c.hour) * 3600 + c.minute * 60
    ensures tm.min < c.minute
    ensures var nx := Add(c.lib, tm, 60);
            OnMinute(nx) && c.lib.mktime(nx) <= g && nx.mday == 1 && nx.wday == Weekday(Day(tm))
  {
    MktimeIs(c.lib, tm);
    MinuteMove(c.lib, tm);
    SameDay(c.lib, tm, Add(c.lib, tm, 60), tm.hour, tm.min + 1);
  }

  /** The search comes to g with the weekday it carries. */
  lemma CarriesOn(c: Cron, tm: Tm, y: int, first: int, g: int)
    requires Utc(c.lib) && c.Valid() && Arrives(c, y, first, g) && Carries(c, tm, first, c.dayOfWeek, g) && c.Step(tm).Some?
    requires first * 86400 <= g
    ensures Carries(c, c.Step(tm).value, first, c.dayOfWeek, g) && c.lib.mktime(tm) < c.lib.mktime(c.Step(tm).value)
  {
    StepAdvances(c, tm);
    if c.lib.mktime(tm) < first * 86400 {
      BeforeFirst(c, tm, y, first);
    } else if tm.mon != c.month {
      BetweenFirsts(c, tm, y, first, g);
    } else {
      ArrivalYear(c, tm, y, first, g);
      OnFirst(c, tm, y, first, g);
    }
  }

  lemma {:induction false} CarriedHalts(c: Cron, s: Tm, y: int, first: int, g: int, n: nat)
    requires Utc(c.lib) && c.Valid() && Arrives(c, y, first, g) && first * 86400 <= g
    requires Carries(c, After(c.Step, s, n), first, c.dayOfWeek, g)
    ensures Halts(c.Step, s)
    decreases g - c.lib.mktime(After(c.Step, s, n))
  {
    var tm := After(c.Step, s, n);
    if c.Step(tm).Some? {
      CarriesOn(c, tm, y, first, g);
      assert After(c.Step, s, n + 1) == c.Step(tm).value;
      CarriedHalts(c, s, y, first, g, n + 1);
    }
  }

  lemma ArrivalHalts(c: Cron, from: int, y: int, first: int, g: int)
    requires Utc(c.lib) && c.Valid() && Arrives(c, y, first, g) && Minute(from) + 60 < first * 86400
    ensures Halts(c.Step, Start(c, from))
  {
    StartIs(c, from);
    FollowDistance(c.month, y);
    CarriedHalts(c, Start(c, from), y, first, g, 0);
  }

  // ----- the years in which they arrive

  function End(c: Cron, y: int): int {
    DayNumber(y, c.month, 1) * 86400 + (if c.hour == -1 then 0 else c.hour) * 3600 + (if c.minute == -1 then 0 else c.minute) * 60
  }

  /** At midnight any year will do in which the first after the month falls on the weekday. */
  lemma MidnightHalts(c: Cron, from: int)
    requires Utc(c.lib) && c.Valid() && 0 <= c.month && c.day == 1 && c.dayOfWeek != -1 && c.hour <= 0 && c.minute <= 0
    ensures Halts(c.Step, Start(c, from))
  {
    var y := DateOnWeekday(NextMon(c.month), 1, c.dayOfWeek);
    var n := DayNumber(y, NextMon(c.month), 1);
    var k: nat := (if from < 0 then -from else from) + (if n < 0 then -n else n) + 1;
    Cycle(y, NextMon(c.month), 1, k);
    var z := if c.month == 11 then y + 400 * k else y + 400 * k + 1;
    assert FollowYear(c.month, z, c.month) == y + 400 * k;
    ArrivalHalts(c, from, z, n + 146097 * k, End(c, z));
  }

  lemma LeapDate(m: int, w: int) returns (y: int)
    requires 0 <= m <= 11 && 0 <= w <= 6
    ensures Leap(y) && Weekday(DayNumber(y, m, 1)) == w
  {
    LeapYears(m, 1, 0);
    var d0 := DayNumber(104, m, 1);
    var v := w - Weekday(d0);
    var k := 3 * v % 7;
    LeapYears(m, 1, k);
    LeapYears(1, 29, k);
    y := 104 + 4 * k;
    DivUnique(d0 + 1461 * k + 4, 7, (d0 + 4) / 7 + 208 * k + 2 * v - 5 * (3 * v / 7), w);
  }

  lemma LeapFollow(m: int, z: int)
    requires 0 <= m <= 11 && ThirtyDays(m) && Leap(z)
    ensures DayNumber(z, m, 1) == FollowDay(m, z, m) + 336
    ensures Weekday(DayNumber(z, m, 1)) == Weekday(FollowDay(m, z, m))
  {
    FollowDistance(m, z);
    var first := FollowDay(m, z, m);
    assert (first + 336 + 4) % 7 == (first + 4) % 7;
  }

  /** For a month of 30 days it has to be a leap year in which the first itself falls on the weekday. */
  lemma ThirtyDaysHalts(c: Cron, from: int)
    requires Utc(c.lib) && c.Valid() && ThirtyDays(c.month) && c.day == 1 && c.dayOfWeek != -1
    ensures Halts(c.Step, Start(c, from))
  {
    var y := LeapDate(c.month, c.dayOfWeek);
    var n := DayNumber(y, c.month, 1);
    var k: nat := (if from < 0 then -from else from) + (if n < 0 then -n else n) + 400;
    Cycle(y, c.month, 1, k);
    Cycle(y, 1, 29, k);
    var z := y + 400 * k;
    var first := FollowDay(c.month, z, c.month);
    LeapFollow(c.month, z);
    assert Arrives(c, z, first, End(c, z));
    ArrivalHalts(c, from, z, first, End(c, z));
  }

  /** The search ends from every start if and only if the expression can match at all and the month, the
      weekday and the day are not set so that a stale weekday keeps it going: see `Stops`. */
  lemma EndsExactlyIfStops(c: Cron)
    requires Utc(c.lib) && c.Valid()
    ensures Stops(c) <==> forall from :: Halts(c.Step, Start(c, from))
  {
    if Stops(c) {
      forall from
        ensures Halts(c.Step, Start(c, from))
      {
        if Tame(c) {
          SearchIsNext(c, from);
        } else if c.day == -1 {
          AnyDayHalts(c, from);
        } else if ThirtyDays(c.month) {
          ThirtyDaysHalts(c, from);
        } else {
          MidnightHalts(c, from);
        }
      }
    } else if HasEndless(c) {
      var from := SomeEndless(c);
    } else if Halts(c.Step, Start(c, 0)) {
      StopsOnlyIfFits(c, 0);
    }
  }
}
