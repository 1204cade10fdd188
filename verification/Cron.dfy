/** The cron search of scheduler/Cron.h: the calendar is walked field by field until every field
    matches. Day and weekday are both required, as in the code. */
module CronSearch {
  import opened Calendar
  import opened Loop

  /** A field of -1 is a `*`; months count from 0, as `verify_and_set` leaves them. The library's two
      calendar functions come with the expression. */
  datatype Cron = Cron(minute: int, hour: int, day: int, month: int, dayOfWeek: int, lib: Clib) {
    predicate Valid() {
      && -1 <= minute <= 59 && -1 <= hour <= 23
      && (day == -1 || 1 <= day <= 31) && -1 <= month <= 11 && -1 <= dayOfWeek <= 6
    }

    /** One turn of the loop at Cron.h:82; None where it breaks out. The month branch keeps the old weekday. */
    function Step(tm: Tm): Option<Tm> {
      if month != -1 && tm.mon != month then
        Some(if tm.mon + 1 > 11
             then tm.(mon := 0, year := tm.year + 1, mday := 1, hour := 0, min := 0)
             else tm.(mon := tm.mon + 1, mday := 1, hour := 0, min := 0))
      else if day != -1 && tm.mday != day then
        Some(Add(lib, tm, 24 * 3600).(hour := 0, min := 0))
      else if dayOfWeek != -1 && tm.wday != dayOfWeek then
        Some(Add(lib, tm, 24 * 3600).(hour := 0, min := 0))
      else if hour != -1 && tm.hour != hour then
        Some(Add(lib, tm, 3600).(min := 0))
      else if minute != -1 && tm.min != minute then
        Some(Add(lib, tm, 60))
      else
        None
    }
  }

  // ----- what is searched for

  predicate MatchesTm(c: Cron, tm: Tm) {
    && (c.month == -1 || tm.mon == c.month)
    && (c.day == -1 || tm.mday == c.day)
    && (c.dayOfWeek == -1 || tm.wday == c.dayOfWeek)
    && (c.hour == -1 || tm.hour == c.hour)
    && (c.minute == -1 || tm.min == c.minute)
  }

  predicate Match(c: Cron, t: int) {
    t % 60 == 0 && MatchesTm(c, c.lib.localtime(t))
  }

  /** The minute that contains the instant `t`. */
  function Minute(t: int): int {
    t - t % 60
  }

  /** `r` is the earliest matching minute after the minute of `from`. */
  ghost predicate IsNext(c: Cron, from: int, r: int) {
    && Minute(from) < r && Match(c, r)
    && forall t | Minute(from) < t < r :: !Match(c, t)
  }

  // ----- the search

  /** The weekday comes back recomputed. */
  function Add(lib: Clib, tm: Tm, seconds: int): Tm {
    lib.localtime(lib.mktime(tm) + seconds)
  }

  /** The broken-down time the loop starts from: the minute after that of `from`. */
  function Start(c: Cron, from: int): Tm {
    Add(c.lib, c.lib.localtime(from).(sec := 0), 60)
  }

  /** The loop as the code has it. It is called only where it comes to an end: the lemmas below say
      which expressions those are. */
  method CronToNext(c: Cron, from: int) returns (r: int)
    requires Halts(c.Step, Start(c, from))
    ensures r == c.lib.mktime(Final(c.Step, Start(c, from)))
  {
    var next := c.lib.localtime(from);
    next := next.(sec := 0);
    next := Add(c.lib, next, 60);
    ghost var n: nat := 0;
    ghost var last: nat :| c.Step(After(c.Step, Start(c, from), last)).None?;
    while true
      invariant n <= last && next == After(c.Step, Start(c, from), n)
      decreases last - n
    {
      Turn(c.Step, Start(c, from), n, last);
      ghost var turn := c.Step(next);
      n := if turn.Some? then n + 1 else n;
      if c.month != -1 && next.mon != c.month {
        if next.mon + 1 > 11 {
          next := next.(mon := 0, year := next.year + 1, mday := 1, hour := 0, min := 0);
        } else {
          next := next.(mon := next.mon + 1, mday := 1, hour := 0, min := 0);
        }
        assert turn == Some(next);
        continue;
      }
      if c.day != -1 && next.mday != c.day {
        next := Add(c.lib, next, 24 * 3600);
        next := next.(hour := 0, min := 0);
        assert turn == Some(next);
        continue;
      }
      if c.dayOfWeek != -1 && next.wday != c.dayOfWeek {
        next := Add(c.lib, next, 24 * 3600);
        next := next.(hour := 0, min := 0);
        assert turn == Some(next);
        continue;
      }
      if c.hour != -1 && next.hour != c.hour {
        next := Add(c.lib, next, 3600);
        next := next.(min := 0);
        assert turn == Some(next);
        continue;
      }
      if c.minute != -1 && next.min != c.minute {
        next := Add(c.lib, next, 60);
        assert turn == Some(next);
        continue;
      }
      break;
    }
    r := c.lib.mktime(next);
  }
}
