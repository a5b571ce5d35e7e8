/**
 `cron_next` repeats every 400 years when the day scan is honest: a search from the same instant of the next
 cycle gives the same instant of that cycle.
 */
module CronCycle {
  import opened Gregorian
  import opened Wrappers
  import opened CronExpr
  import opened CronSearch
  import opened CronMoves
  import opened CronSound
  import opened CronExact

  const CYCLE_MINUTES := 1440 * CYCLE_DAYS
  const CYCLE_SECONDS := 86400 * CYCLE_DAYS

  lemma InstantRepeats(t: int)
    ensures MinuteIx(t + CYCLE_SECONDS) == MinuteIx(t) + CYCLE_MINUTES && Second(t + CYCLE_SECONDS) == Second(t)
  {
    assert CYCLE_SECONDS == 60 * CYCLE_MINUTES;
  }

  lemma ClockRepeats(u: int)
    ensures (u + CYCLE_MINUTES) % 60 == u % 60 && HourOf(u + CYCLE_MINUTES) == HourOf(u) + 24 * CYCLE_DAYS
    ensures HourOf(u + CYCLE_MINUTES) % 24 == HourOf(u) % 24 && DayOf(u + CYCLE_MINUTES) == DayOf(u) + CYCLE_DAYS
  {
    assert u == 60 * HourOf(u) + u % 60;
    Residue(u + CYCLE_MINUTES, 60, HourOf(u) + 24 * CYCLE_DAYS, 60 * (HourOf(u) + 24 * CYCLE_DAYS));
    HourRepeats(HourOf(u));
  }

  lemma HourRepeats(h: int)
    ensures (h + 24 * CYCLE_DAYS) % 24 == h % 24 && (h + 24 * CYCLE_DAYS) / 24 == h / 24 + CYCLE_DAYS
  {
  }

  /** The months of the days repeat as the years do. */
  lemma MonthsRepeat(e: Expr, d: int)
    ensures MonthOk(e, MonthOf(d + CYCLE_DAYS)) == MonthOk(e, MonthOf(d)) && YearOf(d + CYCLE_DAYS) == YearOf(d) + 400
  {
    hide MonthOf, DayOfMonth, Weekday;
    DayRepeats(d);
    MonthOkRepeats(e, MonthOf(d));
  }

  lemma MatchRepeats(e: Expr, t: int)
    ensures Match(e, t + CYCLE_SECONDS) == Match(e, t)
  {
    hide MinuteIx, Second, HourOf, DayOf, DayOk, MonthOk, MonthOf;
    var u := MinuteIx(t);
    InstantRepeats(t);
    ClockRepeats(u);
    DayRepeatsFor(e, DayOf(u));
    MonthsRepeat(e, DayOf(u));
  }

  function MoveOn(m: Move): Move {
    match m
    case Stay => Stay
    case Step(v) => Step(v + CYCLE_MINUTES)
    case Jump(v) => Jump(v + CYCLE_MINUTES)
  }

  lemma IndicesRepeat(e: Expr, u: int)
    requires WellFormed(e)
    ensures NextIndex(e.minutes, 60, u + CYCLE_MINUTES) == NextIndex(e.minutes, 60, u) + CYCLE_MINUTES
    ensures NextIndex(e.hours, 24, HourOf(u) + 24 * CYCLE_DAYS) == NextIndex(e.hours, 24, HourOf(u)) + 24 * CYCLE_DAYS
  {
    assert CYCLE_MINUTES % 60 == 0 && (24 * CYCLE_DAYS) % 24 == 0;
    NextIndexRepeats(e.minutes, 60, u, CYCLE_MINUTES);
    NextIndexRepeats(e.hours, 24, HourOf(u), 24 * CYCLE_DAYS);
  }

  lemma MoveRepeats(e: Expr, u: int)
    requires WellFormed(e)
    ensures MoveFrom(e, u + CYCLE_MINUTES) == MoveOn(MoveFrom(e, u))
  {
    IndicesRepeat(e, u);
    hide *;
    var d := DayOf(u);
    ClockRepeats(u);
    VisitsRepeat(e, d);
    MovePair(e, u, u + CYCLE_MINUTES, HourOf(u), HourOf(u + CYCLE_MINUTES), d, d + CYCLE_DAYS);
  }

  /** Two minutes a cycle apart, by what their moves depend on. */
  lemma MovePair(e: Expr, u: int, u': int, h: int, h': int, d: int, d': int)
    requires WellFormed(e) && h == HourOf(u) && h' == HourOf(u') && d == DayOf(u) && d' == DayOf(u')
    requires u' % 60 == u % 60 && h' % 24 == h % 24 && Scan(e, d') == Scan(e, d) + CYCLE_DAYS
    requires NextIndex(e.minutes, 60, u') == NextIndex(e.minutes, 60, u) + CYCLE_MINUTES
    requires NextIndex(e.hours, 24, h') == NextIndex(e.hours, 24, h) + 24 * CYCLE_DAYS
    requires SeemsStill(e, d') == SeemsStill(e, d) && d' == d + CYCLE_DAYS
    requires MonthOk(e, MonthOf(Scan(e, d'))) == MonthOk(e, MonthOf(Scan(e, d)))
    requires MonthTarget(e, Scan(e, d')) == MonthTarget(e, Scan(e, d)) + CYCLE_DAYS
    ensures MoveFrom(e, u') == MoveOn(MoveFrom(e, u))
  {
    hide NextIndex, HourOf, DayOf, Scan, SeemsStill, MonthTarget, MonthOk, MonthOf, WellFormed;
  }

  lemma FirstRepeats(e: Expr, t: int)
    requires WellFormed(e)
    ensures FirstMinute(e, t + CYCLE_SECONDS) == FirstMinute(e, t) + CYCLE_MINUTES
    ensures FirstInstant(e, t + CYCLE_SECONDS) == FirstInstant(e, t) + CYCLE_SECONDS
    ensures Carried(e, t + CYCLE_SECONDS) == Carried(e, t)
  {
    hide MinuteIx, Second, NextBit;
    InstantRepeats(t);
  }

  lemma LandingRepeats(e: Expr, t: int, v: int)
    requires WellFormed(e)
    ensures Target(e, t + CYCLE_SECONDS, v + CYCLE_MINUTES) == Target(e, t, v) + CYCLE_SECONDS
  {
    hide Target, Carried, FirstMinute, MinuteIx, DayIx, DayOf, Second, FirstInstant;
    FirstRepeats(e, t);
    TargetFields(e, t, v);
    TargetFields(e, t + CYCLE_SECONDS, v + CYCLE_MINUTES);
  }

  lemma DayIxRepeats(t: int)
    ensures DayIx(t + CYCLE_SECONDS) == DayIx(t) + CYCLE_DAYS
  {
    hide *;
    InstantRepeats(t);
    ClockRepeats(MinuteIx(t));
    DayOfMinuteIx(t);
    DayOfMinuteIx(t + CYCLE_SECONDS);
  }

  lemma YearShifts(e: Expr, t: int)
    ensures Year(t + CYCLE_SECONDS) == Year(t) + 400
  {
    hide DayIx, YearOf, MonthOk, MonthOf;
    DayIxRepeats(t);
    MonthsRepeat(e, DayIx(t));
  }

  function Later(r: Option<int>): Option<int> {
    match r
    case None => None
    case Some(t) => Some(t + CYCLE_SECONDS)
  }

  /** A search that moves, and the same search a cycle later, go on in the same way. */
  lemma StepRepeats(e: Expr, t: int, dot: int, v: int)
    requires WellFormed(e) && AlwaysHonest(e) && MoveFrom(e, FirstMinute(e, t)) == Step(v)
    ensures var l, t' := Target(e, t, v), t + CYCLE_SECONDS;
      && Search(e, t, dot) == Search(e, l, dot)
      && Search(e, t', dot + 400) == Search(e, l + CYCLE_SECONDS, dot + 400)
  {
    MoveRepeats(e, FirstMinute(e, t));
    hide *;
    FirstRepeats(e, t);
    LandingRepeats(e, t, v);
    SearchSteps(e, t, dot, v);
    SearchSteps(e, t + CYCLE_SECONDS, dot + 400, v + CYCLE_MINUTES);
  }

  lemma JumpRepeats(e: Expr, t: int, dot: int, v: int)
    requires WellFormed(e) && MoveFrom(e, FirstMinute(e, t)) == Jump(v)
    ensures var l, t' := Target(e, t, v), t + CYCLE_SECONDS;
      if Year(l) - dot > 4 then Search(e, t, dot) == Search(e, t', dot + 400) == None
      else Search(e, t, dot) == Search(e, l, dot) && Search(e, t', dot + 400) == Search(e, l + CYCLE_SECONDS, dot + 400)
  {
    MoveRepeats(e, FirstMinute(e, t));
    hide *;
    var l := Target(e, t, v);
    FirstRepeats(e, t);
    LandingRepeats(e, t, v);
    YearShifts(e, l);
    SearchJumps(e, t, dot, v);
    JumpsTo(e, t + CYCLE_SECONDS, dot + 400, v + CYCLE_MINUTES, l + CYCLE_SECONDS, Year(l) + 400);
  }

  /** `SearchJumps`, for a target and its year by other names. */
  lemma JumpsTo(e: Expr, t: int, dot: int, v: int, l: int, y: int)
    requires WellFormed(e) && MoveFrom(e, FirstMinute(e, t)) == Jump(v) && l == Target(e, t, v) && y == Year(l)
    ensures Search(e, t, dot) == if y - dot > 4 then None else Search(e, l, dot)
  {
    hide *;
    SearchJumps(e, t, dot, v);
  }

  lemma StayRepeats(e: Expr, t: int, dot: int)
    requires WellFormed(e) && MoveFrom(e, FirstMinute(e, t)).Stay?
    ensures Search(e, t, dot) == Some(FirstInstant(e, t))
    ensures Search(e, t + CYCLE_SECONDS, dot + 400) == Some(FirstInstant(e, t) + CYCLE_SECONDS)
  {
    MoveRepeats(e, FirstMinute(e, t));
    hide *;
    FirstRepeats(e, t);
    SearchStaysHere(e, t, dot);
    SearchStaysHere(e, t + CYCLE_SECONDS, dot + 400);
  }

  lemma {:induction false} SearchRepeats(e: Expr, t: int, dot: int)
    requires WellFormed(e) && AlwaysHonest(e)
    ensures Search(e, t + CYCLE_SECONDS, dot + 400) == Later(Search(e, t, dot))
    decreases MonthsLeft(t, dot), Gap(e, FirstMinute(e, t))
  {
    hide Search, MoveFrom, AlwaysHonest, Match, Gap, MonthsLeft, FirstMinute, Target, FirstInstant, Year, WellFormed,
      Promised, CYCLE_SECONDS;
    match MoveFrom(e, FirstMinute(e, t))
    case Stay =>
      StayRepeats(e, t, dot);
    case Step(v) =>
      StepRepeats(e, t, dot, v);
      StepDecreases(e, t, dot, v);
      SearchRepeats(e, Target(e, t, v), dot);
    case Jump(v) =>
      JumpRepeats(e, t, dot, v);
      JumpDecreases(e, t, dot, v);
      if Year(Target(e, t, v)) - dot <= 4 {
        SearchRepeats(e, Target(e, t, v), dot);
      }
  }

  /** What is returned for a date, moved on by a cycle, is returned for the date moved on by a cycle. */
  lemma CronNextRepeats(e: Expr, date: int)
    requires WellFormed(e) && ScanTells(e)
    ensures CronNextInstant(e, date + CYCLE_SECONDS) == Later(CronNextInstant(e, date))
  {
    hide *;
    HonestAlways(e);
    var later := date + CYCLE_SECONDS;
    CronNextIs(e, date);
    CronNextIs(e, later);
    YearShifts(e, date);
    YearShifts(e, date + 1);
    assert later + 1 == date + 1 + CYCLE_SECONDS;
    SearchRepeats(e, date, Year(date));
    SearchRepeats(e, date + 1, Year(date + 1));
    LaterIs(Search(e, date, Year(date)), date);
  }

  lemma LaterIs(r: Option<int>, t: int)
    ensures Later(r) == Some(t + CYCLE_SECONDS) <==> r == Some(t)
  {
  }

  // ---- Expressions that match.

  /** Some day of the cycle matches. */
  predicate HasMatch(e: Expr) {
    exists d | 0 <= d < CYCLE_DAYS :: DayOk(e, d) && MonthOk(e, MonthOf(d))
  }

  lemma DayAndMonthRepeat(e: Expr, d: int)
    ensures (DayOk(e, d + CYCLE_DAYS) && MonthOk(e, MonthOf(d + CYCLE_DAYS))) == (DayOk(e, d) && MonthOk(e, MonthOf(d)))
  {
    hide DayOk, MonthOk, MonthOf;
    DayRepeatsFor(e, d);
    MonthsRepeat(e, d);
  }

  lemma {:induction false} DayInCycle(e: Expr, d: int)
    requires DayOk(e, d) && MonthOk(e, MonthOf(d))
    ensures HasMatch(e)
    decreases if d < 0 then CYCLE_DAYS - d else d
  {
    hide DayOk, MonthOk, MonthOf;
    if d < 0 {
      DayAndMonthRepeat(e, d);
      DayInCycle(e, d + CYCLE_DAYS);
    } else if CYCLE_DAYS <= d {
      DayAndMonthRepeat(e, d - CYCLE_DAYS);
      DayInCycle(e, d - CYCLE_DAYS);
    } else {
    }
  }

  /** An expression matches some instant exactly when it matches some day of the cycle. */
  lemma HasMatchIff(e: Expr)
    requires WellFormed(e)
    ensures HasMatch(e) <==> exists x :: Match(e, x)
  {
    hide Match, DayOk, MonthOk, MonthOf, WellFormed, HasMatch, DayOf, MinuteIx;
    if HasMatch(e) {
      var x := MatchOfCycle(e);
    }
    if x :| Match(e, x) {
      MatchOnDay(e, x);
      DayInCycle(e, DayOf(MinuteIx(x)));
    }
  }

  lemma MatchOfCycle(e: Expr) returns (x: int)
    requires WellFormed(e) && HasMatch(e)
    ensures Match(e, x)
  {
    hide DayOk, MonthOk, MonthOf, WellFormed, Match;
    var d :| 0 <= d < CYCLE_DAYS && DayOk(e, d) && MonthOk(e, MonthOf(d));
    hide HasMatch;
    ClockOfDayMatches(e, d);
    var s := SomeSecond(e);
    x := 60 * ClockOfDay(e, d) + s;
    MatchAt(e, ClockOfDay(e, d), s, x);
  }

  /** Then a match lies ahead of every instant. */
  lemma {:induction false} MatchAhead(e: Expr, x: int, t: int) returns (y: int)
    requires Match(e, x)
    ensures t < y && Match(e, y)
    decreases t - x
  {
    hide Match;
    if t < x {
      y := x;
    } else {
      MatchRepeats(e, x);
      y := MatchAhead(e, x + CYCLE_SECONDS, t);
    }
  }

  /** The least match after `t`, up to a given one. */
  lemma {:induction false} LeastMatch(e: Expr, t: int, y: int) returns (x: int)
    requires t < y && Match(e, y)
    ensures IsNext(e, t, x)
    decreases y - t
  {
    hide Match;
    if Match(e, t + 1) {
      x := t + 1;
    } else {
      x := LeastMatch(e, t + 1, y);
    }
  }
}
