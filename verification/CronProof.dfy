/** What the cron search computes: for which expressions it is the next match, and when it ends. */
module CronProof {
  import opened Calendar
  import opened Loop
  import opened CronSearch

  predicate OnMinute(tm: Tm) {
    ValidTm(tm) && tm.sec == 0
  }

  function Day(tm: Tm): int {
    DayNumber(tm.year, tm.mon, tm.mday)
  }

  // ----- the moves

  lemma MktimeIs(lib: Clib, tm: Tm)
    requires Utc(lib) && ValidTm(tm)
    ensures lib.mktime(tm) == Day(tm) * 86400 + tm.hour * 3600 + tm.min * 60 + tm.sec
  {
    assert lib.mktime(tm) == Mktime(tm);
  }

  lemma Landing(lib: Clib, t: int, d: int, h: int, m: int, s: int) returns (tm: Tm)
    requires Utc(lib) && t == d * 86400 + h * 3600 + m * 60 + s && 0 <= h <= 23 && 0 <= m <= 59 && 0 <= s <= 59
    ensures tm == lib.localtime(t) && ValidTm(tm) && TrueWeekday(tm) && lib.mktime(tm) == t
    ensures Day(tm) == d && tm.hour == h && tm.min == m && tm.sec == s
  {
    tm := lib.localtime(t);
    assert BreaksDown(t, tm);
    ClockOnce(d, h, m, s, Day(tm), tm.hour, tm.min, tm.sec);
  }

  lemma DayMove(lib: Clib, tm: Tm)
    requires Utc(lib) && OnMinute(tm)
    ensures var nx := Add(lib, tm, 24 * 3600).(hour := 0, min := 0);
            OnMinute(nx) && TrueWeekday(nx) && lib.mktime(nx) == (Day(tm) + 1) * 86400
  {
    MktimeIs(lib, tm);
    var nx := Landing(lib, lib.mktime(tm) + 24 * 3600, Day(tm) + 1, tm.hour, tm.min, 0);
    MktimeIs(lib, nx.(hour := 0, min := 0));
  }

  lemma HourMove(lib: Clib, tm: Tm)
    requires Utc(lib) && OnMinute(tm)
    ensures var nx := Add(lib, tm, 3600).(min := 0);
            OnMinute(nx) && TrueWeekday(nx) && lib.mktime(nx) == Day(tm) * 86400 + tm.hour * 3600 + 3600
  {
    MktimeIs(lib, tm);
    var d, h := if tm.hour < 23 then Day(tm) else Day(tm) + 1, if tm.hour < 23 then tm.hour + 1 else 0;
    var nx := Landing(lib, lib.mktime(tm) + 3600, d, h, tm.min, 0);
    MktimeIs(lib, nx.(min := 0));
  }

  lemma MinuteMove(lib: Clib, tm: Tm)
    requires Utc(lib) && OnMinute(tm)
    ensures var nx := Add(lib, tm, 60);
            OnMinute(nx) && TrueWeekday(nx) && lib.mktime(nx) == lib.mktime(tm) + 60
  {
    MktimeIs(lib, tm);
    var d, h, m := Day(tm), tm.hour, tm.min + 1;
    if m == 60 { h, m := h + 1, 0; }
    if h == 24 { d, h := d + 1, 0; }
    var nx := Landing(lib, lib.mktime(tm) + 60, d, h, m, 0);
  }

  function ToNextMonth(tm: Tm): Tm {
    if tm.mon + 1 > 11
    then tm.(mon := 0, year := tm.year + 1, mday := 1, hour := 0, min := 0)
    else tm.(mon := tm.mon + 1, mday := 1, hour := 0, min := 0)
  }

  lemma MonthMove(lib: Clib, tm: Tm)
    requires Utc(lib) && OnMinute(tm)
    ensures OnMinute(ToNextMonth(tm))
    ensures lib.mktime(ToNextMonth(tm)) == (Day(tm) - tm.mday + 1 + MonthLen(tm.year, tm.mon)) * 86400
  {
    NextMonth(tm.year, tm.mon);
    MktimeIs(lib, ToNextMonth(tm));
  }

  lemma StartIs(c: Cron, from: int)
    requires Utc(c.lib)
    ensures OnMinute(Start(c, from)) && TrueWeekday(Start(c, from))
    ensures c.lib.mktime(Start(c, from)) == Minute(from) + 60
  {
    assert BreaksDown(from, c.lib.localtime(from));
    var tm := c.lib.localtime(from);
    DivUnique(from, 60, Day(tm) * 1440 + tm.hour * 60 + tm.min, tm.sec);
    MktimeIs(c.lib, tm.(sec := 0));
    MinuteMove(c.lib, tm.(sec := 0));
  }

  // ----- one turn

  /** The expressions the stale weekday cannot hurt. */
  predicate Tame(c: Cron) {
    c.month == -1 || c.dayOfWeek == -1 || c.day !in {-1, 1}
  }

  /** The weekday may be stale only on the first of a month, and only where it is not looked at. */
  predicate WeekdayOk(c: Cron, tm: Tm) {
    TrueWeekday(tm) || c.dayOfWeek == -1 || (c.day !in {-1, 1} && tm.mday == 1)
  }

  /** Whatever the expression, each turn moves forward in time by whole minutes. */
  lemma StepAdvances(c: Cron, tm: Tm)
    requires Utc(c.lib) && OnMinute(tm) && c.Step(tm).Some?
    ensures OnMinute(c.Step(tm).value) && c.lib.mktime(tm) < c.lib.mktime(c.Step(tm).value)
    ensures Tame(c) && WeekdayOk(c, tm) ==> WeekdayOk(c, c.Step(tm).value)
  {
    MktimeIs(c.lib, tm);
    if c.month != -1 && tm.mon != c.month {
      MonthMove(c.lib, tm);
    } else if (c.day != -1 && tm.mday != c.day) || (c.dayOfWeek != -1 && tm.wday != c.dayOfWeek) {
      DayMove(c.lib, tm);
    } else if c.hour != -1 && tm.hour != c.hour {
      HourMove(c.lib, tm);
    } else {
      MinuteMove(c.lib, tm);
    }
  }

  /** An instant in a known date. */
  lemma OnDate(lib: Clib, y: int, m: int, d: int, t: int) returns (tm: Tm)
    requires Utc(lib) && ValidDate(y, m, d)
    requires DayNumber(y, m, d) * 86400 <= t < (DayNumber(y, m, d) + 1) * 86400
    ensures tm == lib.localtime(t)
    ensures tm.year == y && tm.mon == m && tm.mday == d && tm.wday == Weekday(DayNumber(y, m, d))
    ensures t == DayNumber(y, m, d) * 86400 + tm.hour * 3600 + tm.min * 60 + tm.sec
    ensures 0 <= tm.hour <= 23 && 0 <= tm.min <= 59 && 0 <= tm.sec <= 59
  {
    var s := t - DayNumber(y, m, d) * 86400;
    SecondsSplit(s);
    tm := Tm(y, m, d, s / 3600, s / 60 % 60, s % 60, Weekday(DayNumber(y, m, d)));
    LocaltimeIs(lib, t, tm);
  }

  /** No instant a turn jumps over is a match. */
  lemma StepSkipsNoMatch(c: Cron, tm: Tm, t: int)
    requires Utc(c.lib) && OnMinute(tm) && Tame(c) && WeekdayOk(c, tm) && c.Step(tm).Some?
    requires c.lib.mktime(tm) <= t < c.lib.mktime(c.Step(tm).value)
    ensures !Match(c, t)
  {
    MktimeIs(c.lib, tm);
    if c.month != -1 && tm.mon != c.month {
      MonthMove(c.lib, tm);
      var u := OnDate(c.lib, tm.year, tm.mon, tm.mday + t / 86400 - Day(tm), t);
    } else if (c.day != -1 && tm.mday != c.day) || (c.dayOfWeek != -1 && tm.wday != c.dayOfWeek) {
      DayMove(c.lib, tm);
      var u := OnDate(c.lib, tm.year, tm.mon, tm.mday, t);
    } else if c.hour != -1 && tm.hour != c.hour {
      HourMove(c.lib, tm);
      var u := OnDate(c.lib, tm.year, tm.mon, tm.mday, t);
    } else {
      MinuteMove(c.lib, tm);
      if t % 60 == 0 {
        WholeMinutes(t, Day(tm), tm.hour, tm.min);
        FieldsAt(c.lib, tm);
      }
    }
  }

  lemma WholeMinutes(t: int, d: int, h: int, m: int)
    requires t % 60 == 0
    requires d * 86400 + h * 3600 + m * 60 <= t < d * 86400 + h * 3600 + m * 60 + 60
    ensures t == d * 86400 + h * 3600 + m * 60
  {
    DivUnique(t, 60, d * 1440 + h * 60 + m, t - d * 86400 - h * 3600 - m * 60);
  }

  /** The fields at an instant whose fields are known. */
  lemma FieldsAt(lib: Clib, tm: Tm)
    requires Utc(lib) && OnMinute(tm)
    ensures lib.localtime(lib.mktime(tm)) == tm.(wday := Weekday(Day(tm))) && lib.mktime(tm) % 60 == 0
  {
    var u := tm.(wday := Weekday(Day(tm)));
    MktimeIs(lib, tm);
    MktimeIs(lib, u);
    LocaltimeIs(lib, lib.mktime(tm), u);
    DivUnique(lib.mktime(tm), 60, Day(tm) * 1440 + tm.hour * 60 + tm.min, 0);
  }

  // ----- the whole search

  /** As long as the next match `g` is ahead, the loop moves towards it, and it stops on it. */
  lemma {:induction false} SearchReaches(c: Cron, from: int, g: int, n: nat)
    requires Utc(c.lib) && Tame(c) && IsNext(c, from, g)
    requires var tm := After(c.Step, Start(c, from), n);
             OnMinute(tm) && WeekdayOk(c, tm) && Minute(from) < c.lib.mktime(tm) <= g
    ensures Halts(c.Step, Start(c, from)) && c.lib.mktime(Final(c.Step, Start(c, from))) == g
    decreases g - c.lib.mktime(After(c.Step, Start(c, from), n))
  {
    var tm := After(c.Step, Start(c, from), n);
    if c.Step(tm).None? {
      FieldsAt(c.lib, tm);
      assert Match(c, c.lib.mktime(tm));
      FinalIs(c.Step, Start(c, from), n);
    } else {
      StepAdvances(c, tm);
      if g < c.lib.mktime(c.Step(tm).value) {
        StepSkipsNoMatch(c, tm, g);
      }
      assert After(c.Step, Start(c, from), n + 1) == c.Step(tm).value;
      SearchReaches(c, from, g, n + 1);
    }
  }

  /** If anything matches later, something matches first. */
  lemma {:induction false} NextExists(c: Cron, from: int, t: int)
    requires Minute(from) < t && Match(c, t)
    ensures exists g :: IsNext(c, from, g)
    decreases t - Minute(from)
  {
    if u :| Minute(from) < u < t && Match(c, u) {
      NextExists(c, from, u);
    } else {
      assert IsNext(c, from, t);
    }
  }

  /** The longest form of a month. */
  function LongestLen(m: int): int {
    if m == 1 then 29 else MonthLen(0, m)
  }

  /** The expression can match at all: its day fits the longest form of its month. */
  predicate FitsCalendar(c: Cron) {
    c.month == -1 || c.day == -1 || c.day <= LongestLen(c.month)
  }

  /** In the leap years 2004, 2008, ..., 2028 a date moves by five weekdays each time. */
  lemma LeapYears(m: int, d: int, k: nat)
    requires 0 <= m <= 11 && 1 <= d <= LongestLen(m) && k <= 6
    ensures ValidDate(104 + 4 * k, m, d)
    ensures DayNumber(104 + 4 * k, m, d) == DayNumber(104, m, d) + 1461 * k
  {
    YearStartIsEpochDays(104);
    YearStartIsEpochDays(104 + 4 * k);
    DivUnique(35 + 4 * k, 4, 8 + k, 3);
    DivUnique(103 + 4 * k, 100, 1, 3 + 4 * k);
    DivUnique(403 + 4 * k, 400, 1, 3 + 4 * k);
    DivUnique(104 + 4 * k, 4, 26 + k, 0);
    DivUnique(104 + 4 * k, 100, 1, 4 + 4 * k);
    SameMonths(104, 104 + 4 * k, m);
  }

  /** Every date that exists falls on every weekday, in some year. */
  lemma DateOnWeekday(m: int, d: int, w: int) returns (y: int)
    requires 0 <= m <= 11 && 1 <= d <= LongestLen(m) && 0 <= w <= 6
    ensures ValidDate(y, m, d) && Weekday(DayNumber(y, m, d)) == w
  {
    LeapYears(m, d, 0);
    var d0 := DayNumber(104, m, d);
    var v := w - Weekday(d0);
    var k := 3 * v % 7;
    LeapYears(m, d, k);
    y := 104 + 4 * k;
    DivUnique(d0 + 1461 * k + 4, 7, (d0 + 4) / 7 + 208 * k + 2 * v - 5 * (3 * v / 7), w);
  }

  /** A date with the wanted fields holds a match. */
  lemma MatchOnDate(c: Cron, y: int, m: int, d: int) returns (t: int)
    requires Utc(c.lib) && c.Valid() && ValidDate(y, m, d)
    requires (c.month == -1 || c.month == m) && (c.day == -1 || c.day == d)
    requires c.dayOfWeek == -1 || c.dayOfWeek == Weekday(DayNumber(y, m, d))
    ensures DayNumber(y, m, d) * 86400 <= t < (DayNumber(y, m, d) + 1) * 86400 && Match(c, t)
  {
    var tm := Tm(y, m, d, if c.hour == -1 then 0 else c.hour, if c.minute == -1 then 0 else c.minute, 0, 0);
    t := c.lib.mktime(tm);
    MktimeIs(c.lib, tm);
    FieldsAt(c.lib, tm);
  }

  lemma MatchAhead(c: Cron, from: int) returns (t: int)
    requires Utc(c.lib) && c.Valid() && FitsCalendar(c)
    ensures from < t && Match(c, t)
  {
    var m, d := if c.month == -1 then 0 else c.month, if c.day == -1 then 1 else c.day;
    var y := DateOnWeekday(m, d, if c.dayOfWeek == -1 then 0 else c.dayOfWeek);
    var n := DayNumber(y, m, d);
    var k: nat := (if from < 0 then -from else from) + (if n < 0 then -n else n) + 1;
    Cycle(y, m, d, k);
    t := MatchOnDate(c, y + 400 * k, m, d);
    assert n + 146097 * k > from && n + 146097 * k > 0;
  }

  /** Whatever the expression, the loop never goes back. */
  lemma SearchAdvances(c: Cron, s: Tm, n: nat, k: nat)
    requires Utc(c.lib) && OnMinute(s) && n <= k
    ensures OnMinute(After(c.Step, s, n))
    ensures c.lib.mktime(After(c.Step, s, n)) <= c.lib.mktime(After(c.Step, s, k))
  {
    forall p | OnMinute(p) && c.Step(p).Some?
      ensures OnMinute(c.Step(p).value) && c.lib.mktime(p) <= c.lib.mktime(c.Step(p).value)
    {
      StepAdvances(c, p);
    }
    Monotone(c.Step, s, OnMinute, c.lib.mktime, n, k);
  }

  /** A loop that stops has found a day that fits its month, stale weekday or not. */
  lemma StopsOnlyIfFits(c: Cron, from: int)
    requires Utc(c.lib) && Halts(c.Step, Start(c, from))
    ensures FitsCalendar(c)
  {
    var s := Start(c, from);
    var n: nat :| c.Step(After(c.Step, s, n)).None?;
    StartIs(c, from);
    SearchAdvances(c, s, n, n);
    assert After(c.Step, s, n).mday <= LongestLen(After(c.Step, s, n).mon);
  }

  /** For every valid tame expression and every start the loop ends exactly when the expression can
      match at all, and then on the earliest later match. */
  lemma SearchIsNext(c: Cron, from: int)
    requires Utc(c.lib) && c.Valid() && Tame(c)
    ensures Halts(c.Step, Start(c, from)) <==> FitsCalendar(c)
    ensures FitsCalendar(c) ==> IsNext(c, from, c.lib.mktime(Final(c.Step, Start(c, from))))
  {
    if FitsCalendar(c) {
      var t := MatchAhead(c, Minute(from));
      NextExists(c, from, t);
      var g :| IsNext(c, from, g);
      StartIs(c, from);
      NextMinute(from, g);
      SearchReaches(c, from, g, 0);
    } else if Halts(c.Step, Start(c, from)) {
      StopsOnlyIfFits(c, from);
    }
  }

  lemma NextMinute(from: int, g: int)
    requires Minute(from) < g && g % 60 == 0
    ensures Minute(from) + 60 <= g
  {
    assert g - Minute(from) == 60 * (g / 60 - from / 60);
  }

  // ----- expressions that are not tame

  /** The minute before a month starts. */
  function Eve(y: int, m: int): Tm {
    var y', m' := if m == 0 then y - 1 else y, if m == 0 then 11 else m - 1;
    Tm(y', m', MonthLen(y', m'), 23, 59, 0, Weekday(DayNumber(y, m, 1) - 1))
  }

  lemma EveIs(y: int, m: int)
    requires 0 <= m <= 11
    ensures ValidTm(Eve(y, m)) && Day(Eve(y, m)) == DayNumber(y, m, 1) - 1
  {
    NextMonth(Eve(y, m).year, Eve(y, m).mon);
  }

  lemma StartOnEve(c: Cron, y: int, m: int, from: int)
    requires Utc(c.lib) && 0 <= m <= 11 && from == DayNumber(y, m, 1) * 86400 - 120
    ensures Start(c, from) == Eve(y, m)
  {
    var e := Eve(y, m);
    EveIs(y, m);
    LocaltimeIs(c.lib, from, e.(min := 58));
    LocaltimeIs(c.lib, from + 60, e);
  }

  /** Two minutes before a month that begins on the wanted weekday, the search jumps to the month with
      the weekday of the day before and steps over the whole first day, although it holds a match. */
  lemma StaleWeekdayMisses(c: Cron) returns (from: int, missed: int)
    requires Utc(c.lib) && c.Valid() && !Tame(c)
    ensures Minute(from) < missed && Match(c, missed)
    ensures Halts(c.Step, Start(c, from)) ==> missed < c.lib.mktime(Final(c.Step, Start(c, from)))
  {
    var y := DateOnWeekday(c.month, 1, c.dayOfWeek);
    var first := DayNumber(y, c.month, 1);
    from := first * 86400 - 120;
    missed := MatchOnDate(c, y, c.month, 1);
    StartOnEve(c, y, c.month, from);
    assert Minute(from) <= from < missed;
    FirstDaySkipped(c, y);
    if Halts(c.Step, Start(c, from)) {
      EveIs(y, c.month);
      FinalAfter(c, Start(c, from), 2);
    }
  }

  lemma FinalAfter(c: Cron, s: Tm, k: nat)
    requires Utc(c.lib) && OnMinute(s) && Halts(c.Step, s)
    ensures c.lib.mktime(After(c.Step, s, k)) <= c.lib.mktime(Final(c.Step, s))
  {
    var n: nat :| c.Step(After(c.Step, s, n)).None? && Final(c.Step, s) == After(c.Step, s, n);
    if n >= k { SearchAdvances(c, s, k, n); } else { AfterStill(c.Step, s, n, k); }
  }

  function Jumped(c: Cron, y: int): Tm {
    Tm(y, c.month, 1, 0, 0, 0, Weekday(DayNumber(y, c.month, 1) - 1))
  }

  lemma JumpToMonth(c: Cron, y: int)
    requires 0 <= c.month <= 11
    ensures After(c.Step, Eve(y, c.month), 1) == Jumped(c, y)
  {
    assert c.Step(Eve(y, c.month)) == Some(Jumped(c, y));
  }

  lemma StaleWeekdaySkips(c: Cron, tm: Tm)
    requires tm.mon == c.month && (c.day == -1 || c.day == tm.mday) && c.dayOfWeek != -1 && tm.wday != c.dayOfWeek
    ensures c.Step(tm) == Some(Add(c.lib, tm, 24 * 3600).(hour := 0, min := 0))
  {
  }

  lemma FirstDaySkipped(c: Cron, y: int)
    requires Utc(c.lib) && c.Valid() && !Tame(c) && Weekday(DayNumber(y, c.month, 1)) == c.dayOfWeek
    ensures c.lib.mktime(After(c.Step, Eve(y, c.month), 2)) == (DayNumber(y, c.month, 1) + 1) * 86400
  {
    var j := Jumped(c, y);
    JumpToMonth(c, y);
    StaleWeekdaySkips(c, j);
    DayMove(c.lib, j);
    assert c.Step(After(c.Step, Eve(y, c.month), 1)) == c.Step(j);
  }

  /** Exactly the tame expressions are searched correctly from every start. */
  lemma CorrectExactlyIfTame(c: Cron)
    requires Utc(c.lib) && c.Valid() && FitsCalendar(c)
    ensures Tame(c) <==>
            forall from :: Halts(c.Step, Start(c, from)) && IsNext(c, from, c.lib.mktime(Final(c.Step, Start(c, from))))
  {
    if Tame(c) {
      forall from
        ensures Halts(c.Step, Start(c, from)) && IsNext(c, from, c.lib.mktime(Final(c.Step, Start(c, from))))
      {
        SearchIsNext(c, from);
      }
    } else {
      var from, missed := StaleWeekdayMisses(c);
      assert !(Halts(c.Step, Start(c, from)) && IsNext(c, from, c.lib.mktime(Final(c.Step, Start(c, from)))));
    }
  }

  // ----- the next date

  lemma NextDate(lib: Clib, tm: Tm) returns (nx: Tm)
    requires Utc(lib) && OnMinute(tm)
    ensures nx == Add(lib, tm, 24 * 3600).(hour := 0, min := 0) && TrueWeekday(nx)
    ensures tm.mday < MonthLen(tm.year, tm.mon) ==> nx.year == tm.year && nx.mon == tm.mon && nx.mday == tm.mday + 1
    ensures tm.mday == MonthLen(tm.year, tm.mon) ==> nx.(wday := tm.wday) == ToNextMonth(tm)
  {
    MktimeIs(lib, tm);
    var to := DayAfter(tm);
    LocaltimeIs(lib, lib.mktime(tm) + 24 * 3600, to);
    nx := to.(hour := 0, min := 0);
  }

  lemma DayAfter(tm: Tm) returns (to: Tm)
    requires OnMinute(tm)
    ensures BreaksDown(Mktime(tm) + 86400, to)
    ensures to.(year := tm.year, mon := tm.mon, mday := tm.mday, wday := tm.wday) == tm
    ensures tm.mday < MonthLen(tm.year, tm.mon) ==> to.year == tm.year && to.mon == tm.mon && to.mday == tm.mday + 1
    ensures tm.mday == MonthLen(tm.year, tm.mon) ==> to.(wday := tm.wday, hour := 0, min := 0) == ToNextMonth(tm)
  {
    NextMonth(tm.year, tm.mon);
    to := if tm.mday < MonthLen(tm.year, tm.mon) then tm.(mday := tm.mday + 1) else ToNextMonth(tm);
    to := to.(hour := tm.hour, min := tm.min, wday := Weekday(Day(tm) + 1));
    assert DayNumber(to.year, to.mon, to.mday) == Day(tm) + 1;
  }
}
