/**
 Expressions with every month listed, whatever their day fields restrict. No month is ever changed, so the search
 always settles, and what remains of the exact condition is the day scan and the seconds.
 */
module CronEveryMonth {
  import opened Gregorian
  import opened CronExpr
  import opened CronSearch
  import opened CronSound
  import opened CronExact

  predicate EveryMonth(e: Expr) { Full(e.months, 0, 12) }

  lemma MonthIsListed(e: Expr, k: int)
    requires EveryMonth(e)
    ensures MonthOk(e, k)
  {
  }

  lemma {:induction false} AlwaysSettles(e: Expr, d: int, dot: int)
    requires WellFormed(e) && EveryMonth(e)
    ensures Settles(e, d, dot)
    decreases DayMonthsLeft(d, dot), DayGap(e, d)
  {
    hide *;
    SettlesIs(e, d, dot);
    if SeemsStill(e, d) {
      MonthIsListed(e, MonthOf(Scan(e, d)));
    } else {
      StillAtRest(e, d);
      ScanCloser(e, d, dot);
      AlwaysSettles(e, Scan(e, d), dot);
    }
  }

  lemma EveryMonthReaches(e: Expr)
    requires WellFormed(e) && EveryMonth(e)
    ensures Reaches(e)
  {
    hide Settles, YearOf, LastListed, WellFormed, EveryMonth;
    forall d | 0 <= d < CYCLE_DAYS ensures ReachesFrom(e, d) {
      AlwaysSettles(e, d, YearOf(d));
      AlwaysSettles(e, d + 1, YearOf(d));
    }
  }

  lemma NothingOverflows(e: Expr)
    requires WellFormed(e) && EveryMonth(e)
    ensures NoHarmfulOverflow(e)
  {
    hide WellFormed, EveryMonth, Scan, MonthOf, NextMonth, MonthLen, DayOfMonth, DayOkIn, SeemsStill, MonthOk;
    forall d | 0 <= d < CYCLE_DAYS ensures !OverflowHarms(e, d) {
      MonthIsListed(e, MonthOf(Scan(e, d)));
    }
  }

  /** With every month listed, exactness is a matter of the day scan and the seconds. */
  lemma EveryMonthExactIff(e: Expr)
    requires WellFormed(e) && EveryMonth(e)
    ensures Exact(e) <==> ScanTells(e) && SecondsExact(e)
  {
    hide *;
    NothingOverflows(e);
    EveryMonthReaches(e);
    ExactIff(e);
    ConditionParts(e);
  }

  /** The first to the 30th, on any day but Saturday, at a single second: both day fields restrict, and it is exact. */
  lemma DenseIsExact(e: Expr, s: int)
    requires WellFormed(e) && EveryMonth(e) && e.seconds == {s}
    requires (forall q | 1 <= q <= 30 :: q in e.daysOfMonth) && (forall w | 0 <= w <= 5 :: w in e.daysOfWeek)
    ensures Exact(e)
  {
    DenseExample(e);
    assert SecondsExact(e);
    hide *;
    EveryMonthExactIff(e);
  }

  /** 9:00 on such a day. */
  const WORKDAYS := Expr({0}, {0}, {9}, set q | 1 <= q <= 30, set m | 0 <= m < 12, {0, 1, 2, 3, 4, 5})

  lemma WorkdaysExample(e: Expr)
    requires e == WORKDAYS
    ensures WellFormed(e) && !OneStar(e) && Exact(e)
  {
    assert 0 in e.seconds && 0 in e.minutes && 9 in e.hours && 1 in e.daysOfMonth && 0 in e.months && 0 in e.daysOfWeek;
    assert 31 !in e.daysOfMonth && 6 !in e.daysOfWeek;
    assert WellFormed(e) && EveryMonth(e) && !EveryDay(e) && !EveryWeekday(e);
    hide Exact;
    DenseIsExact(e, 0);
  }
}
