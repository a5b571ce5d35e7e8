/**
 When `cron_next` returns exactly the least matching instant after its argument, for every expression that
 parses. The condition is about the expression's sets and one 400-year cycle of days: the day scan is
 honest, no change of month overflows past a month that has a matching day, the seconds have no inner gap
 unless every other field is `*`, and from every day the search settles before it gives up.
 */
module CronExact {
  import opened Gregorian
  import opened Wrappers
  import opened CronExpr
  import opened CronSearch
  import opened CronMoves
  import opened CronSound

  predicate Contiguous(bits: set<int>) {
    forall a, c | a in bits && c in bits :: forall b | a < b < c :: b in bits
  }

  /** Every field but the second is `*`. */
  predicate RestIsStar(e: Expr) {
    Full(e.minutes, 0, 60) && Full(e.hours, 0, 24) && EveryDay(e) && EveryWeekday(e) && Full(e.months, 0, 12)
  }

  predicate SecondsExact(e: Expr) {
    Contiguous(e.seconds) || RestIsStar(e)
  }

  /** Some day of a month matches. */
  predicate DayOkIn(e: Expr, n: int) {
    exists y | MonthStart(n) <= y < MonthStart(n + 1) :: DayOk(e, y)
  }

  /**
   The month is changed on the day where the scan from `d` stops, its number does not exist in the next
   listed month, so that month is left out, and it has a matching day.
   */
  predicate OverflowHarms(e: Expr, d: int)
    requires WellFormed(e)
  {
    var x := Scan(e, d);
    var n := NextMonth(e, MonthOf(x));
    && SeemsStill(e, d) && !MonthOk(e, MonthOf(x)) && MonthLen(n) < DayOfMonth(x)
    && DayOkIn(e, n)
  }

  predicate NoHarmfulOverflow(e: Expr)
    requires WellFormed(e)
  {
    forall d | 0 <= d < CYCLE_DAYS :: !OverflowHarms(e, d)
  }

  // The days that a search visits, whatever its clock fields.

  ghost function DayGap(e: Expr, d: int): (g: int)
    requires WellFormed(e)
    ensures 0 <= g
  {
    NextDay(e, d) - d
  }

  lemma ScanCloser(e: Expr, d: int, dot: int)
    requires WellFormed(e) && Scan(e, d) != d
    ensures DayMonthsLeft(Scan(e, d), dot) <= DayMonthsLeft(d, dot) && DayGap(e, Scan(e, d)) < DayGap(e, d)
  {
    hide DayOk, Scan, MonthOf;
    MonthOfMonotone(d, Scan(e, d));
    assert Scan(e, d) <= NextDay(e, d);
    NextDayUnique(e, Scan(e, d), NextDay(e, d));
  }

  lemma JumpCloser(e: Expr, d: int, dot: int)
    requires WellFormed(e)
    ensures var m := MonthTarget(e, Scan(e, d));
      YearOf(m) - dot <= 4 ==> DayMonthsLeft(m, dot) < DayMonthsLeft(d, dot)
  {
    hide DayOk, Scan, MonthOf, MonthTarget, NextMonth, MonthStart, MonthLen, DayOfMonth;
    MonthOfMonotone(d, Scan(e, d));
    MonthAhead(e, Scan(e, d));
  }

  /** From `d` the search comes to a matching day before a change of month takes it past the fourth year after `dot`. */
  predicate Settles(e: Expr, d: int, dot: int)
    requires WellFormed(e)
    decreases DayMonthsLeft(d, dot), DayGap(e, d)
  {
    hide DayMonthsLeft, DayGap, MonthOf, MonthTarget, Scan;
    var x := Scan(e, d);
    if SeemsStill(e, d) then
      JumpCloser(e, d, dot);
      var m := MonthTarget(e, x);
      MonthOk(e, MonthOf(x)) || (YearOf(m) - dot <= 4 && Settles(e, m, dot))
    else
      ScanCloser(e, d, dot);
      Settles(e, x, dot)
  }

  /** The last instant of a day matches by its clock. */
  predicate LastListed(e: Expr) { 59 in e.seconds && 59 in e.minutes && 23 in e.hours }

  /** A search from day `d` settles; also when it starts so late on `d` that it begins on the next day. */
  predicate ReachesFrom(e: Expr, d: int)
    requires WellFormed(e)
  {
    Settles(e, d, YearOf(d)) && (LastListed(e) || Settles(e, d + 1, YearOf(d)))
  }

  predicate Reaches(e: Expr)
    requires WellFormed(e)
  {
    forall d | 0 <= d < CYCLE_DAYS :: ReachesFrom(e, d)
  }

  predicate ExactCondition(e: Expr)
    requires WellFormed(e)
  {
    ScanTells(e) && NoHarmfulOverflow(e) && SecondsExact(e) && Reaches(e)
  }

  /** `r` is the next firing instant after `date`. */
  ghost predicate IsNext(e: Expr, date: int, r: int) {
    date < r && Match(e, r) && forall x | date < x < r :: !Match(e, x)
  }

  /** For every date from the epoch on, `cron_next` finds the next firing instant. */
  ghost predicate Exact(e: Expr)
    requires WellFormed(e)
  {
    forall date :: 0 <= date ==> CronNextInstant(e, date).Some? && IsNext(e, date, CronNextInstant(e, date).value)
  }

  // ---- One cycle stands for all days.

  lemma NextIndexRepeats(bits: set<int>, m: int, v: int, s: int)
    requires Fits(bits, 0, m) && s % m == 0
    ensures NextIndex(bits, m, v + s) == NextIndex(bits, m, v) + s
  {
    var a, b := NextIndex(bits, m, v), NextIndex(bits, m, v + s);
    SameResidue(a, s, m);
    SameResidue(b - s, s, m);
    assert (a + s) % m in bits && (b - s) % m in bits;
  }

  lemma SameResidue(x: int, s: int, m: int)
    requires 0 < m && s % m == 0
    ensures (x + s) % m == x % m
  {
    var q := x / m + s / m;
    assert x + s == m * q + x % m;
    Residue(x + s, m, q, m * q);
  }

  lemma NextMonthRepeats(e: Expr, k: int)
    requires WellFormed(e)
    ensures NextMonth(e, k + CYCLE_MONTHS) == NextMonth(e, k) + CYCLE_MONTHS
  {
    NextIndexRepeats(e.months, 12, k, CYCLE_MONTHS);
  }

  lemma DayOkInRepeats(e: Expr, n: int)
    ensures DayOkIn(e, n + CYCLE_MONTHS) == DayOkIn(e, n)
  {
    hide DayOk, MonthStart;
    MonthRepeats(n);
    MonthRepeats(n + 1);
    assert n + CYCLE_MONTHS + 1 == n + 1 + CYCLE_MONTHS;
    if y :| MonthStart(n) <= y < MonthStart(n + 1) && DayOk(e, y) {
      DayRepeatsFor(e, y);
      assert DayOk(e, y + CYCLE_DAYS);
    }
    if y :| MonthStart(n + CYCLE_MONTHS) <= y < MonthStart(n + CYCLE_MONTHS + 1) && DayOk(e, y) {
      DayRepeatsFor(e, y - CYCLE_DAYS);
      assert DayOk(e, y - CYCLE_DAYS);
    }
  }

  lemma MonthLenRepeats(n: int)
    ensures MonthLen(n + CYCLE_MONTHS) == MonthLen(n)
  {
    hide MonthStart;
    MonthRepeats(n);
    MonthRepeats(n + 1);
    assert n + CYCLE_MONTHS + 1 == n + 1 + CYCLE_MONTHS;
  }

  lemma OverflowIs(e: Expr, d: int, x: int, n: int)
    requires WellFormed(e) && x == Scan(e, d) && n == NextMonth(e, MonthOf(x))
    ensures OverflowHarms(e, d) <==>
      SeemsStill(e, d) && !MonthOk(e, MonthOf(x)) && MonthLen(n) < DayOfMonth(x) && DayOkIn(e, n)
  {
    hide DayOkIn, Scan, MonthOf, MonthLen, NextMonth, SeemsStill, MonthOk, DayOfMonth, WellFormed;
  }

  lemma OverflowRepeats(e: Expr, d: int)
    requires WellFormed(e)
    ensures OverflowHarms(e, d + CYCLE_DAYS) == OverflowHarms(e, d)
  {
    hide *;
    var x := Scan(e, d);
    var n := NextMonth(e, MonthOf(x));
    SeemsStillRepeats(e, d);
    ScanRepeats(e, d);
    DayRepeats(x);
    NextMonthRepeats(e, MonthOf(x));
    MonthLenRepeats(n);
    DayOkInRepeats(e, n);
    OverflowIs(e, d, x, n);
    OverflowIs(e, d + CYCLE_DAYS, x + CYCLE_DAYS, n + CYCLE_MONTHS);
  }

  lemma {:induction false} NeverHarms(e: Expr, d: int)
    requires WellFormed(e) && NoHarmfulOverflow(e)
    ensures !OverflowHarms(e, d)
    decreases if d < 0 then CYCLE_DAYS - d else d
  {
    hide OverflowHarms;
    if d < 0 {
      NeverHarms(e, d + CYCLE_DAYS);
      OverflowRepeats(e, d);
    } else if CYCLE_DAYS <= d {
      NeverHarms(e, d - CYCLE_DAYS);
      OverflowRepeats(e, d - CYCLE_DAYS);
    }
  }

  lemma TargetRepeats(e: Expr, x: int)
    requires WellFormed(e)
    ensures MonthTarget(e, x + CYCLE_DAYS) == MonthTarget(e, x) + CYCLE_DAYS
  {
    hide MonthOf, MonthStart, NextMonth, DayOfMonth;
    DayRepeats(x);
    var n := NextMonth(e, MonthOf(x));
    NextMonthRepeats(e, MonthOf(x));
    MonthRepeats(n);
    MonthRepeats(n + 1);
    assert n + CYCLE_MONTHS + 1 == n + 1 + CYCLE_MONTHS;
  }

  lemma SettlesIs(e: Expr, d: int, dot: int)
    requires WellFormed(e)
    ensures var x := Scan(e, d); var m := MonthTarget(e, x);
      Settles(e, d, dot)
        == if SeemsStill(e, d) then MonthOk(e, MonthOf(x)) || (YearOf(m) - dot <= 4 && Settles(e, m, dot))
        else Settles(e, x, dot)
  {
    hide DayMonthsLeft, DayGap, MonthOf, MonthTarget, Scan, SeemsStill, MonthOk, YearOf;
  }

  lemma VisitsRepeat(e: Expr, d: int)
    requires WellFormed(e)
    ensures var x := Scan(e, d); var m := MonthTarget(e, x);
      && Scan(e, d + CYCLE_DAYS) == x + CYCLE_DAYS && MonthTarget(e, x + CYCLE_DAYS) == m + CYCLE_DAYS
      && YearOf(m + CYCLE_DAYS) == YearOf(m) + 400
      && SeemsStill(e, d + CYCLE_DAYS) == SeemsStill(e, d)
      && MonthOk(e, MonthOf(x + CYCLE_DAYS)) == MonthOk(e, MonthOf(x))
  {
    hide *;
    var x := Scan(e, d);
    SeemsStillRepeats(e, d);
    ScanRepeats(e, d);
    TargetRepeats(e, x);
    DayRepeats(MonthTarget(e, x));
  }

  lemma {:induction false} SettlesRepeats(e: Expr, d: int, dot: int)
    requires WellFormed(e)
    ensures Settles(e, d + CYCLE_DAYS, dot + 400) == Settles(e, d, dot)
    decreases DayMonthsLeft(d, dot), DayGap(e, d)
  {
    hide *;
    var x := Scan(e, d);
    var m := MonthTarget(e, x);
    VisitsRepeat(e, d);
    SettlesIs(e, d, dot);
    SettlesIs(e, d + CYCLE_DAYS, dot + 400);
    if SeemsStill(e, d) {
      JumpCloser(e, d, dot);
      if YearOf(m) - dot <= 4 {
        SettlesRepeats(e, m, dot);
      }
    } else {
      StillAtRest(e, d);
      ScanCloser(e, d, dot);
      SettlesRepeats(e, x, dot);
    }
  }

  lemma StillAtRest(e: Expr, d: int)
    ensures Scan(e, d) == d ==> SeemsStill(e, d)
  {
  }

  lemma ReachesRepeats(e: Expr, d: int)
    requires WellFormed(e)
    ensures ReachesFrom(e, d + CYCLE_DAYS) == ReachesFrom(e, d)
  {
    hide Settles, YearOf, LastListed, MonthOf, DayOfMonth, Weekday, WellFormed;
    DayRepeats(d);
    SettlesRepeats(e, d, YearOf(d));
    SettlesRepeats(e, d + 1, YearOf(d));
    assert d + CYCLE_DAYS + 1 == d + 1 + CYCLE_DAYS;
  }

  lemma {:induction false} ReachesOn(e: Expr, d: int)
    requires WellFormed(e) && Reaches(e)
    ensures ReachesFrom(e, d)
    decreases if d < 0 then CYCLE_DAYS - d else d
  {
    hide ReachesFrom;
    if d < 0 {
      ReachesOn(e, d + CYCLE_DAYS);
      ReachesRepeats(e, d);
    } else if CYCLE_DAYS <= d {
      ReachesOn(e, d - CYCLE_DAYS);
      ReachesRepeats(e, d - CYCLE_DAYS);
    }
  }

  // ---- No move passes over a matching minute.

  lemma NextMonthSkips(e: Expr, k: int)
    requires WellFormed(e)
    ensures forall z | k < z < NextMonth(e, k) :: !MonthOk(e, z)
  {
  }

  /** Between the scan's day and the month where the change lands no day of a listed month matches. */
  lemma JumpedDay(e: Expr, d: int, y: int)
    requires WellFormed(e) && NoHarmfulOverflow(e) && SeemsStill(e, d) && !MonthOk(e, MonthOf(Scan(e, d)))
    requires Scan(e, d) <= y < MonthTarget(e, Scan(e, d))
    ensures !DayOk(e, y) || !MonthOk(e, MonthOf(y))
  {
    hide DayOk, NextMonth, MonthLen, MonthStart, MonthOk, MonthOf, DayOfMonth, Scan, SeemsStill, MonthTarget,
      NoHarmfulOverflow, DayOkIn;
    var x := Scan(e, d);
    NeverHarms(e, d);
    MonthAhead(e, x);
    NextMonthSkips(e, MonthOf(x));
    MonthOfRange(x, y, MonthOf(MonthTarget(e, x)));
    if MonthOf(y) == NextMonth(e, MonthOf(x)) && DayOk(e, y) {
      MatchesIn(e, y);
    }
  }

  lemma MatchesIn(e: Expr, y: int)
    requires DayOk(e, y)
    ensures DayOkIn(e, MonthOf(y))
  {
    hide DayOk, MonthStart;
  }

  lemma JumpSkipsNothing(e: Expr, u: int)
    requires WellFormed(e) && NoHarmfulOverflow(e) && MoveFrom(e, u).Jump?
    ensures forall w | u <= w < MoveFrom(e, u).minute :: !MinuteMatch(e, w)
  {
    hide DayOk, MoveFrom, DayOf, MonthOk, MonthOf, MinuteOk, HourOk, Scan, SeemsStill, MonthTarget, NoHarmfulOverflow;
    JumpReason(e, u);
    var d := DayOf(u);
    forall w | u <= w < MoveFrom(e, u).minute ensures !MinuteMatch(e, w) {
      DayOfRange(u, w, MonthTarget(e, Scan(e, d)));
      if Scan(e, d) <= DayOf(w) {
        JumpedDay(e, d, DayOf(w));
      }
    }
  }

  lemma MoveSkipsNothing(e: Expr, u: int)
    requires WellFormed(e) && NoHarmfulOverflow(e) && !MoveFrom(e, u).Stay?
    ensures u < MoveFrom(e, u).minute
    ensures forall x | u <= x < MoveFrom(e, u).minute :: !MinuteMatch(e, x)
  {
    hide MoveFrom, NoHarmfulOverflow, ClockMatch;
    if MoveFrom(e, u).Jump? {
      JumpAhead(e, u);
      JumpSkipsNothing(e, u);
    } else {
      StepSkipsNothing(e, u);
    }
  }

  /** No round, and so no search, passes over a minute that matches. */
  lemma {:induction false} SearchSkipsNothing(e: Expr, t: int, dot: int)
    requires WellFormed(e) && AlwaysHonest(e) && NoHarmfulOverflow(e) && Search(e, t, dot).Some?
    ensures FirstMinute(e, t) <= MinuteIx(Search(e, t, dot).value)
    ensures forall x | FirstMinute(e, t) <= x < MinuteIx(Search(e, t, dot).value) :: !MinuteMatch(e, x)
    decreases MonthsLeft(t, dot), Gap(e, FirstMinute(e, t))
  {
    var u := FirstMinute(e, t);
    hide Search, MoveFrom, NoHarmfulOverflow, MinuteMatch, AlwaysHonest, Match, Gap, MonthsLeft, FirstMinute, Target,
      MinuteIx, FirstInstant;
    FirstInstantAhead(e, t);
    match MoveFrom(e, u)
    case Stay =>
      SearchStaysHere(e, t, dot);
    case Step(v) =>
      StepDecreases(e, t, dot, v);
      SearchSteps(e, t, dot, v);
      MoveSkipsNothing(e, u);
      TargetFields(e, t, v);
      SearchSkipsNothing(e, Target(e, t, v), dot);
    case Jump(v) =>
      JumpDecreases(e, t, dot, v);
      SearchJumps(e, t, dot, v);
      MoveSkipsNothing(e, u);
      TargetFields(e, t, v);
      SearchSkipsNothing(e, Target(e, t, v), dot);
  }

  /** With no inner gap the second carried into another minute is already the first one. */
  lemma CarriedIsFirst(e: Expr, t: int)
    requires WellFormed(e) && Contiguous(e.seconds)
    ensures Carried(e, t) == 0 || Carried(e, t) == FirstBit(e.seconds, 0, 60)
  {
    var s, first := Second(t), FirstBit(e.seconds, 0, 60);
    var n := NextBit(e.seconds, 60, s);
    assert n < 60 && first < s < n ==> s in e.seconds;
    if s <= first {
      NextBitFound(e.seconds, 60, s, first);
    }
  }

  lemma TargetSecond(e: Expr, t: int, v: int)
    requires WellFormed(e) && Contiguous(e.seconds)
    ensures FirstSecond(e, Target(e, t, v)) == FirstBit(e.seconds, 0, 60)
  {
    CarriedIsFirst(e, t);
    TargetFields(e, t, v);
    var c, first := Carried(e, t), FirstBit(e.seconds, 0, 60);
    NextBitFound(e.seconds, 60, c, first);
  }

  /** A search that leaves its first minute ends on the first second of the set. */
  lemma {:induction false} SearchSecond(e: Expr, t: int, dot: int)
    requires WellFormed(e) && AlwaysHonest(e) && Contiguous(e.seconds) && Search(e, t, dot).Some?
    ensures var r := Search(e, t, dot).value;
      r == FirstInstant(e, t) || Second(r) == FirstBit(e.seconds, 0, 60)
    decreases MonthsLeft(t, dot), Gap(e, FirstMinute(e, t))
  {
    hide Search, MoveFrom, AlwaysHonest, Match, Gap, MonthsLeft, FirstMinute, Target, Contiguous;
    match MoveFrom(e, FirstMinute(e, t))
    case Stay =>
      SearchStaysHere(e, t, dot);
    case Step(v) =>
      StepDecreases(e, t, dot, v);
      SearchSteps(e, t, dot, v);
      SearchSecond(e, Target(e, t, v), dot);
      FirstInstantAhead(e, Target(e, t, v));
      TargetSecond(e, t, v);
    case Jump(v) =>
      JumpDecreases(e, t, dot, v);
      SearchJumps(e, t, dot, v);
      SearchSecond(e, Target(e, t, v), dot);
      FirstInstantAhead(e, Target(e, t, v));
      TargetSecond(e, t, v);
  }

  /** A matching second at or after `t` is at or after the first one. */
  lemma MatchAfter(e: Expr, t: int, x: int)
    requires WellFormed(e) && t <= x && Second(x) in e.seconds
    ensures FirstMinute(e, t) <= MinuteIx(x) && FirstInstant(e, t) <= x
  {
    assert t == 60 * MinuteIx(t) + Second(t) && x == 60 * MinuteIx(x) + Second(x);
    if MinuteIx(x) == MinuteIx(t) {
      NextBitFound(e.seconds, 60, Second(t), Second(x));
    }
  }


  lemma StarStays(e: Expr, u: int)
    requires WellFormed(e) && RestIsStar(e)
    ensures MoveFrom(e, u).Stay?
  {
    hide MonthStart, Scan, MonthOf, DayOfMonth, MonthTarget, NextIndex;
    ScanIs(e, DayOf(u), DayOf(u));
  }

  /** A search from `t` that finds something ends on the least match at or after `t`. */
  lemma FoundIsLeast(e: Expr, t: int, dot: int)
    requires WellFormed(e) && AlwaysHonest(e) && NoHarmfulOverflow(e) && SecondsExact(e) && Search(e, t, dot).Some?
    ensures var r := Search(e, t, dot).value;
      t <= r && Match(e, r) && forall x | t <= x < r :: !Match(e, x)
  {
    hide *;
    var r := Search(e, t, dot).value;
    SearchMatches(e, t, dot);
    SearchSkipsNothing(e, t, dot);
    FirstOrLeast(e, t, dot);
    forall x | t <= x < r ensures !Match(e, x) {
      if Match(e, x) {
        MatchParts(e, x);
        MatchParts(e, r);
        MatchAfter(e, t, x);
        FirstInstantAhead(e, t);
      }
    }
  }

  lemma MatchParts(e: Expr, x: int)
    requires Match(e, x)
    ensures Second(x) in e.seconds && MinuteMatch(e, MinuteIx(x)) && x == 60 * MinuteIx(x) + Second(x)
  {
    hide MinuteMatch;
  }

  lemma FirstOrLeast(e: Expr, t: int, dot: int)
    requires WellFormed(e) && AlwaysHonest(e) && SecondsExact(e) && Search(e, t, dot).Some?
    ensures var r := Search(e, t, dot).value;
      r == FirstInstant(e, t) || forall s | s in e.seconds :: Second(r) <= s
  {
    hide Search, AlwaysHonest, FirstInstant, RestIsStar, Contiguous, Match, Second, WellFormed;
    if Contiguous(e.seconds) {
      SearchSecond(e, t, dot);
    } else {
      StarStays(e, FirstMinute(e, t));
      SearchStaysHere(e, t, dot);
    }
  }

  // ---- Whether the search settles is a matter of the days it visits.

  /** A listed minute and hour lies ahead on the day of `u`. */
  predicate TimeLeft(e: Expr, u: int) {
    exists v | u <= v < 1440 * (DayOf(u) + 1) :: MinuteOk(e, v) && HourOk(e, HourOf(v))
  }

  /** The day on which a search from minute `u` looks first. */
  function StartDay(e: Expr, u: int): int {
    if TimeLeft(e, u) then DayOf(u) else DayOf(u) + 1
  }

  lemma MinutesOfDay(v: int, d: int)
    ensures 1440 * d <= v < 1440 * (d + 1) <==> DayOf(v) == d
  {
  }

  lemma StartsToday(e: Expr, u: int, v: int)
    requires WellFormed(e) && u <= v && DayOf(v) == DayOf(u) && MinuteOk(e, v) && HourOk(e, HourOf(v))
    ensures StartDay(e, u) == DayOf(u)
  {
    hide MinuteOk, HourOk, HourOf, DayOf, WellFormed;
    MinutesOfDay(v, DayOf(u));
  }

  lemma StartsAtMidnight(e: Expr, d: int)
    requires WellFormed(e)
    ensures StartDay(e, 1440 * d) == d
  {
    hide MinuteOk, HourOk, HourOf, DayOf, StartDay, ClockOfDay;
    DayOfMidnight(d);
    StartsToday(e, 1440 * d, ClockOfDay(e, d));
  }

  /** Passing over minutes that are not listed does not change it. */
  lemma StartsSame(e: Expr, u: int, v: int)
    requires WellFormed(e) && u <= v <= ClockOfDay(e, DayOf(u) + 1)
    requires forall x | u <= x < v :: !(MinuteOk(e, x) && HourOk(e, HourOf(x)))
    ensures StartDay(e, v) == StartDay(e, u)
  {
    hide MinuteOk, HourOk, HourOf, DayOf, ClockOfDay, WellFormed;
    var d := DayOf(u);
    var w := ClockOfDay(e, d + 1);
    DayOfMonotone(u, v);
    DayOfMonotone(v, w);
    if DayOf(v) == d + 1 {
      StartsToday(e, v, w);
      MinutesOfDay(v, d + 1);
      assert !TimeLeft(e, u);
    } else {
      assert TimeLeft(e, v) <==> TimeLeft(e, u);
    }
  }

  lemma MinuteStart(e: Expr, u: int)
    requires WellFormed(e) && !MinuteOk(e, u)
    ensures StartDay(e, NextIndex(e.minutes, 60, u)) == StartDay(e, u)
  {
    hide HourOk, HourOf, StartDay, ClockOfDay, DayOf;
    var w := ClockOfDay(e, DayOf(u) + 1);
    MinuteBeforeDay(u, DayOf(u) + 1);
    StartsSame(e, u, NextIndex(e.minutes, 60, u));
  }

  lemma HourStart(e: Expr, u: int)
    requires WellFormed(e) && !HourOk(e, HourOf(u))
    ensures StartDay(e, 60 * NextIndex(e.hours, 24, HourOf(u))) == StartDay(e, u)
  {
    hide MinuteOk, StartDay, ClockOfDay, DayOf;
    var w, n := ClockOfDay(e, DayOf(u) + 1), NextIndex(e.hours, 24, HourOf(u));
    MinuteBeforeDay(u, DayOf(u) + 1);
    assert HourOf(u) <= HourOf(w) && n <= HourOf(w);
    forall x | u <= x < 60 * n ensures !(MinuteOk(e, x) && HourOk(e, HourOf(x))) {
      HourOfRange(u, x, n);
    }
    StartsSame(e, u, 60 * n);
  }

  lemma SearchSettlesDay(e: Expr, u: int, dot: int)
    requires WellFormed(e) && AlwaysHonest(e) && MinuteOk(e, u) && HourOk(e, HourOf(u))
    ensures StartDay(e, u) == DayOf(u)
    ensures match MoveFrom(e, u)
      case Stay => Settles(e, DayOf(u), dot)
      case Step(v) =>
        StartDay(e, v) == Scan(e, DayOf(u)) && Settles(e, DayOf(u), dot) == Settles(e, Scan(e, DayOf(u)), dot)
      case Jump(v) =>
        var m := MonthTarget(e, Scan(e, DayOf(u)));
        && v == 1440 * m && StartDay(e, v) == m
        && Settles(e, DayOf(u), dot) == (YearOf(m) - dot <= 4 && Settles(e, m, dot))
  {
    hide AlwaysHonest, MinuteOk, HourOk, HourOf, DayOf, StartDay, Settles, Scan, MonthTarget, MonthOf, MonthOk,
      SeemsStill, NextIndex, YearOf;
    var d := DayOf(u);
    var x := Scan(e, d);
    StartsToday(e, u, u);
    StartsAtMidnight(e, x);
    StartsAtMidnight(e, MonthTarget(e, x));
    SettlesIs(e, d, dot);
    StillAtRest(e, d);
    if x != d && SeemsStill(e, d) && MonthOk(e, MonthOf(x)) {
      HonestMove(e, d);
      SettlesOnMatch(e, x, dot);
    }
  }

  lemma SettlesOnMatch(e: Expr, x: int, dot: int)
    requires WellFormed(e) && DayOk(e, x) && MonthOk(e, MonthOf(x))
    ensures Settles(e, x, dot)
  {
    hide DayOk, MonthOk, MonthOf, Settles, Scan, SeemsStill;
    ScanIs(e, x, x);
    StillAtRest(e, x);
    SettlesIs(e, x, dot);
  }

  /** The search finds something exactly when the day on which it first looks settles. */
  lemma {:induction false} SearchSettles(e: Expr, t: int, dot: int)
    requires WellFormed(e) && AlwaysHonest(e)
    ensures Search(e, t, dot).Some? <==> Settles(e, StartDay(e, FirstMinute(e, t)), dot)
    decreases MonthsLeft(t, dot), Gap(e, FirstMinute(e, t))
  {
    hide *;
    var u := FirstMinute(e, t);
    MoveCases(e, u);
    match MoveFrom(e, u)
    case Stay =>
      SearchStaysHere(e, t, dot);
      SearchSettlesDay(e, u, dot);
    case Step(v) =>
      StepDecreases(e, t, dot, v);
      SearchSteps(e, t, dot, v);
      TargetFields(e, t, v);
      SearchSettles(e, Target(e, t, v), dot);
      if MinuteOk(e, u) && HourOk(e, HourOf(u)) {
        SearchSettlesDay(e, u, dot);
      }
    case Jump(v) =>
      JumpDecreases(e, t, dot, v);
      SearchJumps(e, t, dot, v);
      TargetFields(e, t, v);
      SearchSettlesDay(e, u, dot);
      YearOfTarget(e, t, v);
      DayOfMidnight(MonthTarget(e, Scan(e, DayOf(u))));
      if Year(Target(e, t, v)) - dot <= 4 {
        SearchSettles(e, Target(e, t, v), dot);
      }
  }

  lemma MoveCases(e: Expr, u: int)
    requires WellFormed(e)
    ensures MoveFrom(e, u).Stay? || MoveFrom(e, u).Jump? ==> MinuteOk(e, u) && HourOk(e, HourOf(u))
    ensures !MinuteOk(e, u) || !HourOk(e, HourOf(u)) ==>
      MoveFrom(e, u).Step? && StartDay(e, MoveFrom(e, u).minute) == StartDay(e, u)
  {
    hide MinuteOk, HourOk, HourOf, DayOf, StartDay, Scan, MonthTarget, MonthOf, MonthOk, SeemsStill, NextIndex;
    if !MinuteOk(e, u) {
      MinuteStart(e, u);
    } else if !HourOk(e, HourOf(u)) {
      HourStart(e, u);
    }
  }

  lemma YearOfTarget(e: Expr, t: int, v: int)
    requires WellFormed(e)
    ensures Year(Target(e, t, v)) == YearOf(DayOf(v))
  {
    hide Target, YearOf, DayOf, DayIx;
    TargetFields(e, t, v);
  }

  /** Late on a day the search begins on the next one, unless the last instant of the day is listed. */
  lemma LateStart(e: Expr, d: int)
    requires WellFormed(e) && !LastListed(e)
    ensures var t := 86400 * d + 86399; DayIx(t) == d && StartDay(e, FirstMinute(e, t)) == d + 1
  {
    hide StartDay;
    LastInstant(d);
    var t := 86400 * d + 86399;
    hide DayIx, MinuteIx, Second, DayOf, HourOf;
    if 59 in e.seconds {
      NextBitFound(e.seconds, 60, 59, 59);
      LastMinute(e, d);
    } else {
      assert NextBit(e.seconds, 60, 59) == NextBit(e.seconds, 60, 60) == 60;
      StartsAtMidnight(e, d + 1);
    }
  }

  lemma LastInstant(d: int)
    ensures var t := 86400 * d + 86399;
      DayIx(t) == d && MinuteIx(t) == 1440 * d + 1439 && Second(t) == 59
    ensures var u := 1440 * d + 1439; DayOf(u) == d && HourOf(u) == 24 * d + 23 && u % 60 == 59 && HourOf(u) % 24 == 23
  {
    assert MinuteIx(86400 * d + 86399) == 1440 * d + 1439;
    assert HourOf(1440 * d + 1439) == 24 * d + 23;
  }

  lemma LastMinute(e: Expr, d: int)
    requires WellFormed(e) && !(59 in e.minutes && 23 in e.hours)
    ensures StartDay(e, 1440 * d + 1439) == d + 1
  {
    LastInstant(d);
    hide DayOf, HourOf;
    var u := 1440 * d + 1439;
    assert !(MinuteOk(e, u) && HourOk(e, HourOf(u)));
    assert forall v | u <= v < 1440 * (DayOf(u) + 1) :: !(MinuteOk(e, v) && HourOk(e, HourOf(v)));
  }

  lemma FirstLook(e: Expr, t: int)
    requires WellFormed(e)
    ensures var d := StartDay(e, FirstMinute(e, t)); d == DayIx(t) || (d == DayIx(t) + 1 && !LastListed(e))
  {
    hide StartDay, DayIx, DayOf, HourOf, MinuteOk, HourOk;
    var d, u := DayIx(t), FirstMinute(e, t);
    DayOfMinuteIx(t);
    MinutesOfDay(MinuteIx(t), d);
    if LastListed(e) {
      LastIsFirst(e, t);
    } else if DayOf(u) == d {
      StartIsNear(e, u);
    } else {
      MinutesOfDay(u, d);
      StartsAtMidnight(e, d + 1);
    }
  }

  lemma StartIsNear(e: Expr, u: int)
    ensures StartDay(e, u) == DayOf(u) || StartDay(e, u) == DayOf(u) + 1
  {
    hide TimeLeft, DayOf;
  }

  lemma LastIsFirst(e: Expr, t: int)
    requires WellFormed(e) && LastListed(e)
    ensures StartDay(e, FirstMinute(e, t)) == DayIx(t)
  {
    var d := DayIx(t);
    NextBitFound(e.seconds, 60, Second(t), 59);
    DayOfMinuteIx(t);
    MinutesOfDay(MinuteIx(t), d);
    LastInstant(d);
    hide StartDay, DayIx, DayOf, HourOf, MinuteIx, Second;
    StartsToday(e, MinuteIx(t), 1440 * d + 1439);
  }

  lemma ReachesFinds(e: Expr, t: int)
    requires WellFormed(e) && AlwaysHonest(e) && Reaches(e)
    ensures Search(e, t, Year(t)).Some?
  {
    hide Search, Settles, StartDay, FirstMinute, Reaches, YearOf, DayIx, AlwaysHonest, LastListed, Match;
    FirstLook(e, t);
    ReachesOn(e, DayIx(t));
    SearchSettles(e, t, Year(t));
  }

  // ---- The condition is sufficient and necessary.

  lemma ConditionSuffices(e: Expr)
    requires WellFormed(e) && ExactCondition(e)
    ensures Exact(e)
  {
    hide *;
    ConditionParts(e);
    HonestAlways(e);
    forall date | 0 <= date
      ensures CronNextInstant(e, date).Some? && IsNext(e, date, CronNextInstant(e, date).value)
    {
      ReachesFinds(e, date);
      ReachesFinds(e, date + 1);
      FoundIsNext(e, date);
    }
    ExactFrom(e);
  }

  lemma ConditionParts(e: Expr)
    requires WellFormed(e)
    ensures ExactCondition(e) <==> ScanTells(e) && NoHarmfulOverflow(e) && SecondsExact(e) && Reaches(e)
  {
    hide ScanTells, NoHarmfulOverflow, SecondsExact, Reaches, WellFormed;
  }

  lemma ExactFrom(e: Expr)
    requires WellFormed(e)
    requires forall date | 0 <= date ::
      CronNextInstant(e, date).Some? && IsNext(e, date, CronNextInstant(e, date).value)
    ensures Exact(e)
  {
    hide CronNextInstant, IsNext, WellFormed;
  }

  lemma FoundIsNext(e: Expr, date: int)
    requires WellFormed(e) && AlwaysHonest(e) && NoHarmfulOverflow(e) && SecondsExact(e)
    requires Search(e, date, Year(date)).Some? && Search(e, date + 1, Year(date + 1)).Some?
    ensures CronNextInstant(e, date).Some? && IsNext(e, date, CronNextInstant(e, date).value)
  {
    hide *;
    CronNextIs(e, date);
    if Search(e, date, Year(date)) == Some(date) {
      FoundIsLeast(e, date + 1, Year(date + 1));
      IsNextBy(e, date, Search(e, date + 1, Year(date + 1)).value);
    } else {
      FoundIsLeast(e, date, Year(date));
      IsNextBy(e, date, Search(e, date, Year(date)).value);
    }
  }

  lemma IsNextBy(e: Expr, date: int, r: int)
    requires date < r && Match(e, r) && forall x | date < x < r :: !Match(e, x)
    ensures IsNext(e, date, r)
  {
    hide Match;
  }

  /** What a search that has to move finds lies at or after the place it moves to. */
  lemma ResultAfterMove(e: Expr, t: int, v: int)
    requires WellFormed(e) && AlwaysHonest(e)
    requires MoveFrom(e, FirstMinute(e, t)) == Step(v) || MoveFrom(e, FirstMinute(e, t)) == Jump(v)
    requires CronNextInstant(e, t).Some?
    ensures Target(e, t, v) <= CronNextInstant(e, t).value
  {
    hide MoveFrom, FirstMinute, Match, AlwaysHonest, Target, Year, MonthsLeft, Gap, Search, CronNextInstant,
      Result, NotBehind, WellFormed;
    CronNextIs(e, t);
    if MoveFrom(e, FirstMinute(e, t)).Step? {
      StepDecreases(e, t, Year(t), v);
      SearchSteps(e, t, Year(t), v);
    } else {
      JumpDecreases(e, t, Year(t), v);
      SearchJumps(e, t, Year(t), v);
    }
  }

  lemma MatchingSecond(e: Expr, u: int, s: int)
    requires WellFormed(e) && s in e.seconds
    ensures Second(60 * u + s) == s && MinuteIx(60 * u + s) == u
    ensures FirstMinute(e, 60 * u + s) == u && FirstSecond(e, 60 * u + s) == s
  {
    assert Second(60 * u + s) == s && MinuteIx(60 * u + s) == u;
    NextBitFound(e.seconds, 60, s, s);
  }

  lemma JumpsFrom(e: Expr, d: int)
    requires WellFormed(e) && SeemsStill(e, d) && !MonthOk(e, MonthOf(Scan(e, d)))
    ensures MoveFrom(e, ClockOfDay(e, d)) == Jump(1440 * MonthTarget(e, Scan(e, d)))
  {
    hide MonthOk, MinuteOk, HourOk, MonthOf, MonthTarget, SeemsStill, Scan;
  }

  lemma ClockOfDayMatches(e: Expr, d: int)
    requires WellFormed(e) && DayOk(e, d) && MonthOk(e, MonthOf(d))
    ensures MinuteMatch(e, ClockOfDay(e, d))
  {
    hide DayOk, MonthOk, MinuteOk, HourOk, MonthOf;
  }

  lemma NextMonthIsListed(e: Expr, k: int)
    requires WellFormed(e)
    ensures k < NextMonth(e, k) && MonthOk(e, NextMonth(e, k))
  {
  }

  lemma MonthOrder(y: int, z: int)
    requires MonthOf(y) < MonthOf(z)
    ensures y < z
  {
    hide MonthOf;
    if z <= y {
      MonthOfMonotone(z, y);
    }
  }

  lemma DayOrder(w: int, v: int)
    requires DayOf(w) < DayOf(v)
    ensures w < v
  {
    hide DayOf;
    if v <= w {
      DayOfMonotone(v, w);
    }
  }

  /** A harmful overflow from day `d` jumps over the matching day `y` of the next listed month. */
  lemma OverflowPasses(e: Expr, d: int, y: int)
    requires WellFormed(e) && SeemsStill(e, d) && !MonthOk(e, MonthOf(Scan(e, d)))
    requires MonthLen(NextMonth(e, MonthOf(Scan(e, d)))) < DayOfMonth(Scan(e, d))
    requires MonthOf(y) == NextMonth(e, MonthOf(Scan(e, d)))
    ensures d < y < MonthTarget(e, Scan(e, d))
    ensures ClockOfDay(e, d) < ClockOfDay(e, y) < 1440 * MonthTarget(e, Scan(e, d))
  {
    hide *;
    var x := Scan(e, d);
    ScanIsAhead(e, d);
    MonthAhead(e, x);
    MonthOrder(x, y);
    MonthOrder(y, MonthTarget(e, x));
    DayOrder(ClockOfDay(e, d), ClockOfDay(e, y));
    MinuteBeforeDay(ClockOfDay(e, y), MonthTarget(e, x));
  }

  lemma ScanIsAhead(e: Expr, d: int)
    ensures d <= Scan(e, d)
  {
    hide DayOk;
  }

  /** A move from minute `u` that lands past a matching instant shows the search inexact. */
  lemma MissedMatch(e: Expr, u: int, t: int, v: int, x: int)
    requires WellFormed(e) && AlwaysHonest(e) && 0 <= t && FirstMinute(e, t) == u
    requires MoveFrom(e, u) == Step(v) || MoveFrom(e, u) == Jump(v)
    requires Match(e, x) && t < x < 60 * v + Carried(e, t)
    ensures !Exact(e)
  {
    hide *;
    TargetFields(e, t, v);
    if Exact(e) {
      ExactAt(e, t);
      ResultAfterMove(e, t, v);
    }
  }

  lemma JumpedOver(e: Expr, u: int, w: int, v: int)
    requires WellFormed(e) && AlwaysHonest(e) && MoveFrom(e, u) == Jump(v) && MinuteMatch(e, w) && 0 <= u < w < v
    ensures !Exact(e)
  {
    var s := SomeSecond(e);
    var t, x := 60 * u + s, 60 * w + s;
    assert 0 <= t < x < 60 * v;
    hide *;
    FirstMinuteAt(e, u, s, t);
    MatchAt(e, w, s, x);
    CarriedIsNat(e, t);
    MissedMatch(e, u, t, v, x);
  }

  lemma CarriedIsNat(e: Expr, t: int)
    requires WellFormed(e)
    ensures 0 <= Carried(e, t)
  {
  }

  lemma OverflowMisses(e: Expr, d: int, y: int)
    requires WellFormed(e) && AlwaysHonest(e)
    requires 0 <= d && SeemsStill(e, d) && !MonthOk(e, MonthOf(Scan(e, d)))
    requires MonthLen(NextMonth(e, MonthOf(Scan(e, d)))) < DayOfMonth(Scan(e, d))
    requires MonthOf(y) == NextMonth(e, MonthOf(Scan(e, d))) && DayOk(e, y)
    ensures !Exact(e)
  {
    hide *;
    NextMonthIsListed(e, MonthOf(Scan(e, d)));
    ClockOfDayMatches(e, y);
    JumpsFrom(e, d);
    OverflowPasses(e, d, y);
    JumpedOver(e, ClockOfDay(e, d), ClockOfDay(e, y), 1440 * MonthTarget(e, Scan(e, d)));
  }

  lemma FirstMinuteAt(e: Expr, u: int, s: int, t: int)
    requires WellFormed(e) && s in e.seconds && t == 60 * u + s
    ensures FirstMinute(e, t) == u
  {
    hide *;
    MatchingSecond(e, u, s);
  }

  lemma SomeSecond(e: Expr) returns (s: int)
    requires WellFormed(e)
    ensures s in e.seconds && 0 <= s < 60
  {
    s := FirstBit(e.seconds, 0, 60);
  }

  lemma MatchAt(e: Expr, w: int, s: int, x: int)
    requires WellFormed(e) && s in e.seconds && MinuteMatch(e, w) && x == 60 * w + s
    ensures Match(e, x)
  {
    hide MinuteMatch, MinuteIx, Second;
    MatchingSecond(e, w, s);
  }

  lemma ExactAt(e: Expr, date: int)
    requires WellFormed(e) && Exact(e) && 0 <= date
    ensures var r := CronNextInstant(e, date);
      r.Some? && date < r.value && Match(e, r.value) && forall x | date < x < r.value :: !Match(e, x)
  {
    hide CronNextInstant, Match;
  }

  lemma OverflowIsInexact(e: Expr)
    requires WellFormed(e) && AlwaysHonest(e) && !NoHarmfulOverflow(e)
    ensures !Exact(e)
  {
    hide OverflowHarms, Exact, AlwaysHonest, DayOk, MonthStart, Scan, MonthOf, NextMonth, MonthLen, DayOfMonth,
      MonthOk, SeemsStill;
    var d :| 0 <= d < CYCLE_DAYS && OverflowHarms(e, d);
    var n := NextMonth(e, MonthOf(Scan(e, d)));
    OverflowIs(e, d, Scan(e, d), n);
    var y :| MonthStart(n) <= y < MonthStart(n + 1) && DayOk(e, y);
    MonthOfUnique(y, n);
    OverflowMisses(e, d, y);
  }

  /** Some minute from the epoch on does not match, when the fields above the second are not all `*`. */
  lemma SomeMinuteFails(e: Expr) returns (u: int)
    requires WellFormed(e) && !RestIsStar(e)
    ensures 0 <= u && !MinuteMatch(e, u)
  {
    hide WellFormed, Full, MinuteMatch, DayOk, MonthOk, MonthOf;
    if !Full(e.minutes, 0, 60) {
      u := Missing(e.minutes, 0, 60);
      UnlistedClock(e, u, u, 0);
    } else if !Full(e.hours, 0, 24) {
      var h := Missing(e.hours, 0, 24);
      u := 60 * h;
      UnlistedClock(e, u, 0, h);
    } else {
      var d := SomeDayFails(e);
      u := 1440 * d;
      UnlistedDay(e, d);
    }
  }

  lemma Missing(bits: set<int>, lo: int, hi: int) returns (b: int)
    requires !Full(bits, lo, hi)
    ensures lo <= b < hi && b !in bits
  {
    b :| lo <= b < hi && b !in bits;
  }

  lemma UnlistedClock(e: Expr, u: int, minute: int, hour: int)
    requires u == 60 * hour + minute && 0 <= minute < 60 && 0 <= hour < 24
    requires minute !in e.minutes || hour !in e.hours
    ensures !MinuteMatch(e, u)
  {
    Residue(u, 60, hour, 60 * hour);
    HourAt(u, hour, minute);
    hide DayOk, MonthOk, MonthOf, HourOf;
    assert hour % 24 == hour;
  }

  lemma HourAt(u: int, hour: int, minute: int)
    requires u == 60 * hour + minute && 0 <= minute < 60
    ensures HourOf(u) == hour
  {
  }

  lemma UnlistedDay(e: Expr, d: int)
    requires !(DayOk(e, d) && MonthOk(e, MonthOf(d)))
    ensures !MinuteMatch(e, 1440 * d)
  {
    hide DayOk, MonthOk, MonthOf;
    DayOfMidnight(d);
  }

  lemma EpochIsDayZero()
    ensures MonthStart(EPOCH_MONTH) == 0 && MonthLen(EPOCH_MONTH) == 31
  {
  }

  lemma SomeDayFails(e: Expr) returns (d: int)
    requires WellFormed(e) && !(EveryDay(e) && EveryWeekday(e) && Full(e.months, 0, 12))
    ensures 0 <= d && !(DayOk(e, d) && MonthOk(e, MonthOf(d)))
  {
    EpochIsDayZero();
    hide MonthStart, LeapYear;
    if q :| 1 <= q < 32 && q !in e.daysOfMonth {
      d := q - 1;
      MonthOfUnique(d, EPOCH_MONTH);
    } else if w :| 0 <= w < 7 && w !in e.daysOfWeek {
      d := WeekdayHit(0, w);
    } else {
      var m :| 0 <= m < 12 && m !in e.months;
      d := MonthStart(EPOCH_MONTH + m);
      MonthStartIncreases(EPOCH_MONTH, EPOCH_MONTH + m);
      MonthLenBounds(EPOCH_MONTH + m);
      MonthOfUnique(d, EPOCH_MONTH + m);
    }
  }

  lemma {:induction false} FirstMatchAfter(e: Expr, u: int, w: int) returns (v: int)
    requires u <= w && !MinuteMatch(e, u) && MinuteMatch(e, w)
    ensures u < v && !MinuteMatch(e, v - 1) && MinuteMatch(e, v)
    decreases w - u
  {
    hide MinuteMatch;
    if MinuteMatch(e, u + 1) {
      v := u + 1;
    } else {
      v := FirstMatchAfter(e, u + 1, w);
    }
  }

  /**
   A gap in the seconds: in the minute before a matching one, starting inside the gap, the advanced
   second is carried into the matching minute although an earlier second of the set exists there.
   */
  lemma GapMisses(e: Expr, g: int, v: int)
    requires WellFormed(e) && AlwaysHonest(e) && NoHarmfulOverflow(e)
    requires g !in e.seconds && FirstBit(e.seconds, 0, 60) < g && exists c :: c in e.seconds && g < c
    requires 0 < v && !MinuteMatch(e, v - 1) && MinuteMatch(e, v)
    ensures !Exact(e)
  {
    var first := FirstBit(e.seconds, 0, 60);
    assert first in e.seconds && 0 <= g;
    hide *;
    var t, x := 60 * (v - 1) + g, 60 * v + first;
    AdvancedPastGap(e, g, v - 1);
    MoveToNextMinute(e, v);
    MatchAt(e, v, first, x);
    GapIsSmall(e, g);
    MissedMatch(e, v - 1, t, v, x);
  }

  lemma GapIsSmall(e: Expr, g: int)
    requires WellFormed(e) && exists c :: c in e.seconds && g < c
    ensures g < 60
  {
  }

  lemma AdvancedPastGap(e: Expr, g: int, u: int)
    requires WellFormed(e) && g !in e.seconds && 0 <= g && exists c :: c in e.seconds && g < c
    ensures FirstMinute(e, 60 * u + g) == u && g < Carried(e, 60 * u + g)
  {
    var c :| c in e.seconds && g < c;
    NextBitFound(e.seconds, 60, g, c);
    assert Second(60 * u + g) == g && MinuteIx(60 * u + g) == u;
  }

  lemma MoveToNextMinute(e: Expr, v: int)
    requires WellFormed(e) && NoHarmfulOverflow(e) && !MinuteMatch(e, v - 1) && MinuteMatch(e, v)
    ensures MoveFrom(e, v - 1) == Step(v) || MoveFrom(e, v - 1) == Jump(v)
  {
    hide MoveFrom, NoHarmfulOverflow, MinuteMatch, WellFormed;
    if MoveFrom(e, v - 1).Stay? {
      StayMatches(e, v - 1);
    } else {
      MoveSkipsNothing(e, v - 1);
    }
  }

  /** An exact search finds a match after a minute that fails, and with it a minute to enter. */
  lemma SecondsGapIsInexact(e: Expr)
    requires WellFormed(e) && AlwaysHonest(e) && NoHarmfulOverflow(e) && !SecondsExact(e)
    ensures !Exact(e)
  {
    hide MinuteMatch, NoHarmfulOverflow, AlwaysHonest, Exact, RestIsStar, WellFormed, MinuteIx, CronNextInstant;
    if Exact(e) {
      var a, c :| a in e.seconds && c in e.seconds && exists b | a < b < c :: b !in e.seconds;
      var g :| a < g < c && g !in e.seconds;
      var u := SomeMinuteFails(e);
      EntryPoint(e, u, g);
    }
  }

  lemma EntryPoint(e: Expr, u: int, g: int)
    requires WellFormed(e) && AlwaysHonest(e) && NoHarmfulOverflow(e) && 0 <= u && !MinuteMatch(e, u)
    requires g !in e.seconds && (exists a :: a in e.seconds && a < g) && exists c :: c in e.seconds && g < c
    ensures !Exact(e)
  {
    assert Fits(e.seconds, 0, 60);
    hide *;
    if Exact(e) {
      ExactAt(e, 60 * u);
      var r := CronNextInstant(e, 60 * u).value;
      MatchParts(e, r);
      assert u <= MinuteIx(r) by { MinuteOrder(u, r); }
      var v := FirstMatchAfter(e, u, MinuteIx(r));
      GapMisses(e, g, v);
    }
  }

  lemma MinuteOrder(u: int, r: int)
    requires 60 * u <= r
    ensures u <= MinuteIx(r)
  {
  }

  lemma NotReachingIsInexact(e: Expr)
    requires WellFormed(e) && AlwaysHonest(e) && !Reaches(e)
    ensures !Exact(e)
  {
    hide Settles, Exact, AlwaysHonest, YearOf, LastListed, StartDay, FirstMinute, Search, DayIx, WellFormed;
    var d :| 0 <= d < CYCLE_DAYS && !ReachesFrom(e, d);
    if Settles(e, d, YearOf(d)) {
      LateStart(e, d);
      NeverFinds(e, d, 86400 * d + 86399);
    } else {
      EarlyStart(e, d);
      NeverFinds(e, d, 86400 * d);
    }
  }

  lemma EarlyStart(e: Expr, d: int)
    requires WellFormed(e)
    ensures DayIx(86400 * d) == d && StartDay(e, FirstMinute(e, 86400 * d)) == d
  {
    hide StartDay;
    MidnightFields(d);
    NextBitFound(e.seconds, 60, 0, FirstBit(e.seconds, 0, 60));
    StartsAtMidnight(e, d);
  }

  lemma NeverFinds(e: Expr, d: int, t: int)
    requires WellFormed(e) && AlwaysHonest(e) && 0 <= t && DayIx(t) == d
    requires !Settles(e, StartDay(e, FirstMinute(e, t)), YearOf(d))
    ensures !Exact(e)
  {
    hide *;
    assert Year(t) == YearOf(d) by { YearIs(t); }
    SearchSettles(e, t, YearOf(d));
    CronNextIs(e, t);
    if Exact(e) {
      ExactAt(e, t);
    }
  }

  lemma YearIs(t: int)
    ensures Year(t) == YearOf(DayIx(t))
  {
    hide YearOf, DayIx;
  }

  lemma ExactIsSound(e: Expr)
    requires WellFormed(e) && Exact(e)
    ensures ScanTells(e)
  {
    hide ScanTells, CronNextInstant, Match, WellFormed;
    SoundIff(e);
  }

  /**
   The exact condition under which `cron_next` always finds the next firing instant, for every expression
   that parses.
   */
  lemma ExactIff(e: Expr)
    requires WellFormed(e)
    ensures Exact(e) <==> ExactCondition(e)
  {
    hide *;
    ConditionParts(e);
    if Exact(e) {
      ExactIsSound(e);
      HonestAlways(e);
      if !NoHarmfulOverflow(e) {
        OverflowIsInexact(e);
      } else if !SecondsExact(e) {
        SecondsGapIsInexact(e);
      } else if !Reaches(e) {
        NotReachingIsInexact(e);
      }
    }
    if ExactCondition(e) {
      ConditionSuffices(e);
    }
  }
}
