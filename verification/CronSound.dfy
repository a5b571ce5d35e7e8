/**
 When every result of `cron_next` lies ahead and matches: exactly when the day scan is honest, that is,
 when an unnoticed move into a listed month never ends off a match. This is a matter of the expression's
 sets and of one 400-year cycle of days.
 */
module CronSound {
  import opened Gregorian
  import opened Wrappers
  import opened CronExpr
  import opened CronSearch
  import opened CronMoves

  /** `cron_next`: a search that stays where it started is made again from one second later. */
  ghost function CronNextInstant(e: Expr, date: int): Option<int>
    requires WellFormed(e)
  {
    var r := Search(e, date, Year(date));
    if r == Some(date) then Search(e, date + 1, Year(date + 1)) else r
  }

  lemma SearchIsAhead(e: Expr, t: int, dot: int)
    requires WellFormed(e) && Search(e, t, dot).Some?
    ensures t <= Search(e, t, dot).value
  {
    hide Result, NotBehind, FirstMinute, Match;
  }

  lemma CronNextIs(e: Expr, date: int)
    requires WellFormed(e)
    ensures CronNextInstant(e, date)
      == if Search(e, date, Year(date)) == Some(date) then Search(e, date + 1, Year(date + 1))
         else Search(e, date, Year(date))
  {
    hide Search, Year, WellFormed, Promised;
  }

  lemma CronNextIsLater(e: Expr, date: int)
    requires WellFormed(e) && CronNextInstant(e, date).Some?
    ensures date < CronNextInstant(e, date).value
  {
    hide *;
    CronNextIs(e, date);
    if Search(e, date, Year(date)).Some? {
      SearchIsAhead(e, date, Year(date));
    }
    if Search(e, date + 1, Year(date + 1)).Some? {
      SearchIsAhead(e, date + 1, Year(date + 1));
    }
  }

  /** The scan is honest on every day of a cycle. */
  predicate ScanTells(e: Expr) {
    forall d | 0 <= d < CYCLE_DAYS :: Honest(e, d)
  }

  lemma SeemsStillRepeats(e: Expr, d: int)
    ensures SeemsStill(e, d + CYCLE_DAYS) == SeemsStill(e, d)
    ensures MonthOk(e, MonthOf(Scan(e, d + CYCLE_DAYS))) == MonthOk(e, MonthOf(Scan(e, d)))
  {
    hide *;
    StillIs(e, d);
    StillIs(e, d + CYCLE_DAYS);
    ScanRepeats(e, d);
    DayRepeats(d);
    DayRepeats(Scan(e, d));
    MonthOkRepeats(e, MonthOf(Scan(e, d)));
  }

  lemma StillIs(e: Expr, d: int)
    ensures SeemsStill(e, d) <==> DayOfMonth(Scan(e, d)) == DayOfMonth(d)
  {
    hide DayOfMonth, Scan;
  }

  lemma HonestRepeats(e: Expr, d: int)
    ensures Honest(e, d + CYCLE_DAYS) == Honest(e, d)
  {
    hide Scan, DayOk, MonthOf, SeemsStill, MonthOk;
    SeemsStillRepeats(e, d);
    ScanRepeats(e, d);
    DayRepeatsFor(e, Scan(e, d));
  }

  lemma MonthOkRepeats(e: Expr, k: int)
    ensures MonthOk(e, k + CYCLE_MONTHS) == MonthOk(e, k)
  {
  }

  lemma {:induction false} HonestOn(e: Expr, d: int)
    requires ScanTells(e)
    ensures Honest(e, d)
    decreases if d < 0 then CYCLE_DAYS - d else d
  {
    hide Honest;
    if d < 0 {
      HonestOn(e, d + CYCLE_DAYS);
      HonestRepeats(e, d);
    } else if CYCLE_DAYS <= d {
      HonestOn(e, d - CYCLE_DAYS);
      HonestRepeats(e, d - CYCLE_DAYS);
    }
  }

  lemma HonestAlways(e: Expr)
    requires ScanTells(e)
    ensures AlwaysHonest(e)
  {
    hide Honest, ScanTells;
    forall d ensures Honest(e, d) { HonestOn(e, d); }
  }

  /** Every result of `cron_next` for a date from the epoch on is later and matches. */
  ghost predicate Sound(e: Expr)
    requires WellFormed(e)
  {
    forall date | 0 <= date && CronNextInstant(e, date).Some? ::
      date < CronNextInstant(e, date).value && Match(e, CronNextInstant(e, date).value)
  }

  /** From the first clock minute of a day whose scan moves unnoticed, the answer is midnight of the scan's day. */
  lemma UnnoticedMove(e: Expr, d: int, t: int)
    requires WellFormed(e) && SeemsStill(e, d) && Scan(e, d) != d && MonthOk(e, MonthOf(Scan(e, d)))
    requires t == 60 * ClockOfDay(e, d) + FirstBit(e.seconds, 0, 60)
    ensures t < 86400 * Scan(e, d) && CronNextInstant(e, t) == Some(86400 * Scan(e, d))
  {
    hide SeemsStill, Scan, MonthOf, MonthOk, Search, AtDay, AtMonth, ClockOfDay, MinuteOk, HourOk, Year, At,
      FirstMinute, FirstInstant, MinuteIx, DayOf, DayIx, Second, DayTo;
    var u, x := ClockOfDay(e, d), Scan(e, d);
    FirstOfClock(e, u, t);
    MinuteBeforeDay(u, x);
    var dot := Year(t);
    ToDay(e, t, dot);
    AtFits(e, t, 2);
    SilentDay(e, t, true, dot);
    LandsAtMidnight(e, t, true);
    LandsOnDay(e, t, x);
    MonthPasses(e, DayTo(e, t, true), true, dot);
  }

  lemma FirstOfClock(e: Expr, u: int, t: int)
    requires WellFormed(e) && t == 60 * u + FirstBit(e.seconds, 0, 60)
    ensures FirstMinute(e, t) == MinuteIx(t) == u && FirstInstant(e, t) == t && Second(t) in e.seconds
    ensures DayIx(t) == DayOf(u)
  {
    assert MinuteIx(t) == u && Second(t) == FirstBit(e.seconds, 0, 60);
  }

  lemma LandsOnDay(e: Expr, t: int, x: int)
    requires WellFormed(e) && x == Scan(e, DayOf(MinuteIx(t)))
    ensures DayTo(e, t, true) == 86400 * x
  {
    hide Scan, DayOf, MinuteIx;
  }

  lemma MidnightFields(x: int)
    ensures MinuteIx(86400 * x) == 1440 * x && Second(86400 * x) == 0 && DayIx(86400 * x) == x
  {
  }

  lemma MidnightMatch(e: Expr, x: int)
    requires Match(e, 86400 * x)
    ensures DayOk(e, x) && 0 in e.seconds && 0 in e.minutes && 0 in e.hours
  {
    hide DayOk, MonthOk, MinuteOk, HourOk, MinuteIx, Second, DayOf, HourOf, MonthOf;
    MidnightFields(x);
    DayOfMidnight(x);
    MidnightClock(e, x);
  }

  lemma MidnightClock(e: Expr, x: int)
    ensures MinuteOk(e, 1440 * x) <==> 0 in e.minutes
    ensures HourOk(e, HourOf(1440 * x)) <==> 0 in e.hours
  {
    DayOfMidnight(x);
  }

  lemma DishonestIsUnsound(e: Expr, d: int)
    requires WellFormed(e) && 0 <= d && !Honest(e, d)
    ensures !Sound(e)
  {
    hide SeemsStill, Scan, MonthOf, MonthOk, DayOk, ClockOfDay, Match, CronNextInstant;
    var t := 60 * ClockOfDay(e, d) + FirstBit(e.seconds, 0, 60);
    UnnoticedMove(e, d, t);
    if Match(e, 86400 * Scan(e, d)) {
      MidnightMatch(e, Scan(e, d));
    }
  }

  /** Soundness: whatever `cron_next` returns is later and matches all six fields, if the scan is honest. */
  lemma CronNextIsSound(e: Expr, date: int)
    requires WellFormed(e) && ScanTells(e) && CronNextInstant(e, date).Some?
    ensures date < CronNextInstant(e, date).value && Match(e, CronNextInstant(e, date).value)
  {
    hide *;
    HonestAlways(e);
    CronNextIs(e, date);
    CronNextIsLater(e, date);
    if Search(e, date, Year(date)).Some? {
      SearchMatches(e, date, Year(date));
    }
    if Search(e, date + 1, Year(date + 1)).Some? {
      SearchMatches(e, date + 1, Year(date + 1));
    }
  }

  /** The exact condition for soundness, for every expression that parses. */
  lemma SoundIff(e: Expr)
    requires WellFormed(e)
    ensures Sound(e) <==> ScanTells(e)
  {
    hide Honest, Match, CronNextInstant;
    if ScanTells(e) {
      forall date | 0 <= date && CronNextInstant(e, date).Some?
        ensures date < CronNextInstant(e, date).value && Match(e, CronNextInstant(e, date).value)
      {
        CronNextIsSound(e, date);
      }
    } else {
      var d :| 0 <= d < CYCLE_DAYS && !Honest(e, d);
      DishonestIsUnsound(e, d);
    }
  }

  /** With one star the scan is always honest. */
  lemma OneStarIsHonest(e: Expr)
    requires OneStar(e)
    ensures ScanTells(e)
  {
    hide OneStar, Scan, DayOk, SeemsStill, MonthOk, MonthOf;
    forall d | 0 <= d < CYCLE_DAYS ensures Honest(e, d) {
      OneStarScan(e, d);
      if DayOk(e, d) {
        ScanIs(e, d, d);
      }
    }
  }

  /** So it is when no four weeks are without a matching day, whatever the two day fields restrict. */
  lemma DenseIsHonest(e: Expr)
    requires WellFormed(e) && forall d :: NextDay(e, d) <= d + 27
    ensures ScanTells(e)
  {
    hide Scan, DayOk, MonthOk, MonthOf, DayOfMonth, NextDay;
    forall d | 0 <= d < CYCLE_DAYS ensures Honest(e, d) {
      ScanOfNear(e, d);
      if Scan(e, d) != d {
        DayNumberChanges(d, Scan(e, d));
      }
    }
  }

  lemma ScanOfNear(e: Expr, d: int)
    requires WellFormed(e) && NextDay(e, d) <= d + 27
    ensures Scan(e, d) == NextDay(e, d)
  {
    hide DayOk, NextDay, Scan;
    ScanIs(e, d, NextDay(e, d));
  }

  // ---- Examples.

  /** 9:00 on the first Monday of a month. */
  const FIRST_MONDAY := Expr({0}, {0}, {9}, {1, 2, 3, 4, 5, 6, 7}, {0, 1, 2, 3, 4, 5, 6, 7, 8, 9, 10, 11}, {1})

  lemma FirstMondayIsWellFormed(e: Expr)
    requires e == FIRST_MONDAY
    ensures WellFormed(e)
    ensures FirstBit(e.hours, 0, 24) == 9 && FirstBit(e.minutes, 0, 60) == FirstBit(e.seconds, 0, 60) == 0
  {
    assert 0 in e.seconds && 0 in e.minutes && 9 in e.hours && 1 in e.daysOfMonth && 0 in e.months && 1 in e.daysOfWeek;
  }

  lemma Winter2024()
    ensures MonthStart(12 * 124) == 19723 && MonthStart(12 * 124 + 1) == 19754 && MonthStart(12 * 124 + 2) == 19783
  {
    assert YearStart(124) == 19723;
    assert LeapYear(124);
    hide YearStart, LeapYear;
    MonthInYear(124, 0);
    MonthInYear(124, 1);
    MonthInYear(124, 2);
    hide MonthStart;
  }

  lemma FirstMondayOf2024(e: Expr, y: int)
    requires e == FIRST_MONDAY && 19727 <= y <= 19758
    ensures DayOk(e, y) <==> y == 19758
    ensures MonthOf(y) == 12 * 124 + if y < 19754 then 0 else 1
  {
    Winter2024();
    hide MonthStart;
    MonthOfUnique(y, 12 * 124 + if y < 19754 then 0 else 1);
  }

  lemma FirstMondayScan(e: Expr)
    requires e == FIRST_MONDAY
    ensures Scan(e, 19727) == 19758 && SeemsStill(e, 19727) && MonthOk(e, MonthOf(19758))
  {
    hide DayOk, MonthOf, Scan;
    forall y | 19727 <= y <= 19758 ensures DayOk(e, y) <==> y == 19758 { FirstMondayOf2024(e, y); }
    ScanIs(e, 19727, 19758);
    FirstMondayOf2024(e, 19727);
    FirstMondayOf2024(e, 19758);
    Winter2024();
    hide MonthStart;
  }

  /**
   From 9:00 on Friday 5 January 2024 the answer is midnight of Monday 5 February, whose day number is the
   same: not a match. Asked again from there, it is 9:00, so a script runs twice that day.
   */
  lemma FirstMondayFiresTwice(e: Expr)
    requires e == FIRST_MONDAY
    ensures WellFormed(e) && !Match(e, 86400 * 19758) && !ScanTells(e)
    ensures CronNextInstant(e, 86400 * 19727 + 9 * 3600) == Some(86400 * 19758)
    ensures CronNextInstant(e, 86400 * 19758) == Some(86400 * 19758 + 9 * 3600)
  {
    FirstMondayIsWellFormed(e);
    FirstMondayScan(e);
    hide Scan, SeemsStill, MonthOf, CronNextInstant, Match, WellFormed;
    var t := 86400 * 19727 + 9 * 3600;
    assert t == 60 * ClockOfDay(e, 19727) + FirstBit(e.seconds, 0, 60);
    UnnoticedMove(e, 19727, t);
    NotAtMidnight(e);
    assert !Honest(e, 19727);
    NineOClock(e);
  }

  lemma NotAtMidnight(e: Expr)
    requires e == FIRST_MONDAY
    ensures !Match(e, 86400 * 19758)
  {
    hide MonthOf;
    if Match(e, 86400 * 19758) {
      MidnightMatch(e, 19758);
    }
  }

  lemma NineOClock(e: Expr)
    requires e == FIRST_MONDAY && WellFormed(e)
    ensures CronNextInstant(e, 86400 * 19758) == Some(86400 * 19758 + 9 * 3600)
  {
    var t, r := 86400 * 19758, 86400 * 19758 + 9 * 3600;
    var dot := Year(t);
    NineMatches(e);
    NineIsNext(e);
    hide *;
    SearchStarts(e, t, dot);
    FreshIsAt(e, t, 1);
    MinutePasses(e, t, true, dot);
    SearchOfMatch(e, r, dot);
    HourTakes(e, t, true, dot, r);
    CronNextIs(e, t);
  }

  lemma NineMatches(e: Expr)
    requires e == FIRST_MONDAY
    ensures Match(e, 86400 * 19758 + 9 * 3600)
  {
    FirstMondayOf2024(e, 19758);
    FirstMondaySets(e);
    hide *;
    NineFields();
    MatchBy(e, 86400 * 19758 + 9 * 3600, 1440 * 19758 + 540, 19758);
  }

  lemma FirstMondaySets(e: Expr)
    requires e == FIRST_MONDAY
    ensures 0 in e.seconds && 0 in e.minutes && 9 in e.hours && MonthOk(e, 12 * 124 + 1)
  {
  }

  lemma MatchBy(e: Expr, r: int, u: int, d: int)
    requires MinuteIx(r) == u && DayOf(u) == d
    requires Second(r) in e.seconds && u % 60 in e.minutes && HourOf(u) % 24 in e.hours
    requires DayOk(e, d) && MonthOk(e, MonthOf(d))
    ensures Match(e, r)
  {
    hide MinuteIx, DayOf, Second, HourOf, DayOk, MonthOk, MonthOf;
  }

  lemma NineFields()
    ensures var r, u := 86400 * 19758 + 9 * 3600, 1440 * 19758 + 540;
      MinuteIx(r) == u && Second(r) == 0 && u % 60 == 0 && HourOf(u) % 24 == 9 && DayOf(u) == 19758
  {
    assert MinuteIx(86400 * 19758 + 9 * 3600) == 1440 * 19758 + 540;
    assert HourOf(1440 * 19758 + 540) == 24 * 19758 + 9;
  }

  lemma NineIsNext(e: Expr)
    requires e == FIRST_MONDAY && WellFormed(e)
    ensures var t := 86400 * 19758;
      && FirstInstant(e, t) == t && HourTo(e, t, true) == t + 9 * 3600 && Second(t) in e.seconds
      && MinuteOk(e, MinuteIx(t)) && !HourOk(e, HourOf(MinuteIx(t))) && Fresh(e, t, 1) && t != t + 9 * 3600
  {
    var t, h := 86400 * 19758, 24 * 19758;
    MidnightFields(19758);
    DayOfMidnight(19758);
    var w := NextIndex(e.hours, 24, h);
    assert (h + 9) % 24 == 9 && h % 24 == 0;
    assert w == h + 9;
  }

  lemma HourTakes(e: Expr, now: int, second: bool, dot: int, r: int)
    requires WellFormed(e) && At(e, now, 1) && !HourOk(e, HourOf(MinuteIx(now)))
    requires Search(e, HourTo(e, now, second), dot) == Some(r) && Match(e, r)
    ensures AtHour(e, now, second, dot) == Some(r)
  {
    hide Match, HourOk, MinuteIx, Promised, AtDay, Search, HourTo, At, HourOf;
    MatchPasses(e, r, second, dot);
  }

  /** The first to the 30th, on any day but Saturday: both fields restrict, and the scan is honest. */
  lemma DenseExample(e: Expr)
    requires WellFormed(e)
    requires (forall q | 1 <= q <= 30 :: q in e.daysOfMonth) && (forall w | 0 <= w <= 5 :: w in e.daysOfWeek)
    ensures ScanTells(e)
  {
    hide DayOk, NextDay, DayOfMonth, Weekday;
    forall d ensures NextDay(e, d) <= d + 27 {
      var x := DenseDay(e, d);
      assert DayOk(e, x);
    }
    DenseIsHonest(e);
  }

  lemma DenseDay(e: Expr, d: int) returns (x: int)
    requires WellFormed(e)
    requires (forall q | 1 <= q <= 30 :: q in e.daysOfMonth) && (forall w | 0 <= w <= 5 :: w in e.daysOfWeek)
    ensures d <= x <= d + 3 && DayOk(e, x)
  {
    NumberSteps(d);
    NumberSteps(d + 1);
    hide DayOfMonth;
    x := if DayOk(e, d) then d else if DayOk(e, d + 1) then d + 1 else d + 2;
  }

  lemma NumberSteps(d: int)
    ensures DayOfMonth(d + 1) == DayOfMonth(d) + 1 || DayOfMonth(d + 1) == 1
  {
    hide MonthStart;
    var k := MonthOf(d);
    MonthLenBounds(k + 1);
    MonthOfUnique(d + 1, if d + 1 < MonthStart(k + 1) then k else k + 1);
  }

  /** Midnight of Monday the 31st, in January. */
  const THE_31ST_ON_MONDAY := Expr({0}, {0}, {0}, {31}, {0}, {1})
  const NEW_YEAR_2024 := MonthStart(12 * 124)

  /**
   Even with midnight listed: no 31st of 2024 is a Monday, so from 1 January 2024 the scan meets its cap on
   1 January 2025, takes it for the same day, and the answer is no match.
   */
  lemma CapIsUnnoticed(e: Expr, d: int)
    requires e == THE_31ST_ON_MONDAY && d == NEW_YEAR_2024
    ensures WellFormed(e)
    ensures CronNextInstant(e, 86400 * d) == Some(86400 * (d + SCAN_DAYS)) && !Match(e, 86400 * (d + SCAN_DAYS))
  {
    hide MonthStart, Scan, DayOfMonth, Weekday, MonthOf, DayOk, WellFormed, Match, CronNextInstant;
    MondayThe31stIsWellFormed(e);
    NewYears();
    forall y | d <= y <= d + SCAN_DAYS ensures !DayOk(e, y) {
      No31stIsMonday(e, y);
    }
    ScanIs(e, d, d + SCAN_DAYS);
    assert MonthOk(e, 12 * 125);
    assert 86400 * d == 60 * ClockOfDay(e, d) + FirstBit(e.seconds, 0, 60);
    UnnoticedMove(e, d, 86400 * d);
    if Match(e, 86400 * (d + SCAN_DAYS)) {
      MidnightMatch(e, d + SCAN_DAYS);
    }
  }

  lemma MondayThe31stIsWellFormed(e: Expr)
    requires e == THE_31ST_ON_MONDAY
    ensures WellFormed(e) && FirstBit(e.hours, 0, 24) == FirstBit(e.minutes, 0, 60) == FirstBit(e.seconds, 0, 60) == 0
  {
    assert 0 in {0} && 31 in {31} && 1 in {1};
  }

  lemma NewYears()
    ensures DayOfMonth(NEW_YEAR_2024) == DayOfMonth(NEW_YEAR_2024 + SCAN_DAYS) == 1
    ensures MonthOf(NEW_YEAR_2024) == 12 * 124 && MonthOf(NEW_YEAR_2024 + SCAN_DAYS) == 12 * 125
  {
    NewYear2025();
    hide MonthStart;
    MonthLenBounds(12 * 124);
    MonthLenBounds(12 * 125);
    MonthOfUnique(NEW_YEAR_2024, 12 * 124);
    MonthOfUnique(NEW_YEAR_2024 + SCAN_DAYS, 12 * 125);
  }

  lemma NewYear2025()
    ensures MonthStart(12 * 125) == NEW_YEAR_2024 + SCAN_DAYS
  {
    YearLength(124);
    hide YearStart;
  }

  lemma No31stIsMonday(e: Expr, y: int)
    requires e == THE_31ST_ON_MONDAY && NEW_YEAR_2024 <= y <= NEW_YEAR_2024 + SCAN_DAYS
    ensures !DayOk(e, y)
  {
    hide MonthStart, Weekday;
    NewYears();
    if y < NEW_YEAR_2024 + SCAN_DAYS {
      NewYear2025();
      MonthOfRange(NEW_YEAR_2024, y, 12 * 125);
      Last2024(MonthOf(y));
    }
  }

  lemma Last2024(k: int)
    requires 12 * 124 <= k < 12 * 125
    ensures MonthStart(k + 1) - MonthStart(k) >= 31 ==> Weekday(MonthStart(k) + 30) != 1
  {
    assert k / 12 == 124;
    assert YearStart(124) == 19723;
    MonthLength(k);
    assert LeapYear(124);
    hide YearStart, MonthStart, LeapYear;
    assert MonthStart(k) == 19723 + DaysBefore(k % 12, true) by { MonthStart2024(k); }
  }

  lemma MonthStart2024(k: int)
    requires k / 12 == 124
    ensures MonthStart(k) == 19723 + DaysBefore(k % 12, true)
  {
  }
}
