/**
 An honest search, move by move. When the day scan tells whether it moved, a search from `t` is one move
 and a search from where it lands: whatever comes back matches, so the later stages keep it.
 */
module CronMoves {
  import opened Gregorian
  import opened Wrappers
  import opened CronExpr
  import opened CronSearch

  /** What one round does: nothing, a move of minute, hour or day, or a change of month. */
  datatype Move = Stay | Step(minute: int) | Jump(minute: int)

  ghost function MoveFrom(e: Expr, u: int): Move
    requires WellFormed(e)
  {
    var d := DayOf(u);
    var x := Scan(e, d);
    if !MinuteOk(e, u) then Step(NextIndex(e.minutes, 60, u))
    else if !HourOk(e, HourOf(u)) then Step(60 * NextIndex(e.hours, 24, HourOf(u)))
    else if SeemsStill(e, d) && !MonthOk(e, MonthOf(x)) then Jump(1440 * MonthTarget(e, x))
    else if x != d then Step(1440 * x)
    else Stay
  }

  /** Where a move from the first instant lands. */
  function Target(e: Expr, t: int, v: int): int
    requires WellFormed(e)
  {
    Lands(FirstInstant(e, t), Second(t) in e.seconds, v)
  }

  /** The second carried to the target: it is reset only when it was not just advanced. */
  function Carried(e: Expr, t: int): (s: int)
    requires WellFormed(e)
    ensures 0 <= s < 60 && (s == 0 || s in e.seconds)
  {
    if Second(t) in e.seconds then 0 else FirstSecond(e, t)
  }

  lemma TargetFields(e: Expr, t: int, v: int)
    requires WellFormed(e)
    ensures var l := Target(e, t, v);
      && FirstMinute(e, l) == MinuteIx(l) == v && DayIx(l) == DayOf(v) && Second(l) == Carried(e, t)
      && l == 60 * v + Carried(e, t)
    ensures FirstMinute(e, t) < v ==> t < Target(e, t, v)
  {
    hide FirstMinute, FirstSecond, MinuteIx, DayIx, DayOf, Second, FirstInstant;
    FirstInstantAhead(e, t);
    LandsAt(e, FirstInstant(e, t), Second(t) in e.seconds, v);
  }

  // ---- Moves pass over nothing.

  /** A move of minute, hour or day passes over no minute that matches by minute, hour and day. */
  lemma StepSkipsNothing(e: Expr, u: int)
    requires WellFormed(e) && MoveFrom(e, u).Step?
    ensures u < MoveFrom(e, u).minute
    ensures forall x | u <= x < MoveFrom(e, u).minute :: !ClockMatch(e, x)
  {
    hide MinuteOk, HourOk, ClockMatch, MonthOk, MonthOf, MonthTarget, Scan, DayOf, HourOf, SeemsStill, NextIndex;
    if !MinuteOk(e, u) {
      MinuteSkips(e, u);
    } else if !HourOk(e, HourOf(u)) {
      HourSkips(e, u);
    } else {
      DaySkips(e, u);
    }
  }

  lemma JumpReason(e: Expr, u: int)
    requires WellFormed(e) && MoveFrom(e, u).Jump?
    ensures var x := Scan(e, DayOf(u));
      && SeemsStill(e, DayOf(u)) && !MonthOk(e, MonthOf(x)) && MoveFrom(e, u) == Jump(1440 * MonthTarget(e, x))
  {
    hide MonthOk, MonthTarget, DayOf, MonthOf, Scan, SeemsStill;
  }

  /** A change of month goes to the next listed month, or past it exactly when the day number does not exist there. */
  lemma JumpAhead(e: Expr, u: int)
    requires WellFormed(e) && MoveFrom(e, u).Jump?
    ensures var x, v := Scan(e, DayOf(u)), MoveFrom(e, u).minute;
      var k, n, l := MonthOf(x), NextMonth(e, MonthOf(x)), MonthOf(DayOf(v));
      && u < v == 1440 * MonthStart(l) && DayOf(v) == MonthStart(l)
      && k < n <= l
      && l == if DayOfMonth(x) <= MonthLen(n) then n else n + 1
  {
    hide MoveFrom, MonthStart, MonthTarget, MonthOf, Scan, DayOf, NextMonth, DayOfMonth, MonthLen;
    JumpReason(e, u);
    var x := Scan(e, DayOf(u));
    MonthAhead(e, x);
    DayOfMidnight(MonthTarget(e, x));
    MinuteBeforeDay(u, MonthTarget(e, x));
  }

  // ---- Each move decreases the measure.

  lemma StepDecreases(e: Expr, t: int, dot: int, v: int)
    requires WellFormed(e) && MoveFrom(e, FirstMinute(e, t)) == Step(v)
    ensures t < Target(e, t, v)
    ensures MonthsLeft(Target(e, t, v), dot) <= MonthsLeft(t, dot)
    ensures Gap(e, FirstMinute(e, Target(e, t, v))) < Gap(e, FirstMinute(e, t))
  {
    hide *;
    var now := FirstInstant(e, t);
    Starts(e, t, dot);
    FreshFits(e, now);
    StepSkipsNothing(e, FirstMinute(e, t));
    MoveAdvances(e, now, Second(t) in e.seconds, v, dot);
    TargetAdvances(e, t, dot, v);
  }

  lemma FreshFits(e: Expr, now: int)
    requires Fresh(e, now, 0)
    ensures SecondFits(e, now)
  {
  }

  lemma TargetAdvances(e: Expr, t: int, dot: int, v: int)
    requires WellFormed(e) && Advances(e, dot, FirstInstant(e, t), Lands(FirstInstant(e, t), Second(t) in e.seconds, v))
    ensures var l := Target(e, t, v);
      && FirstInstant(e, t) < l && MonthsLeft(l, dot) <= MonthsLeft(FirstInstant(e, t), dot)
      && Gap(e, FirstMinute(e, l)) < Gap(e, MinuteIx(FirstInstant(e, t)))
  {
    hide Gap, FirstMinute, MonthsLeft, MinuteIx, FirstInstant, Lands, SecondFits;
  }

  lemma JumpDecreases(e: Expr, t: int, dot: int, v: int)
    requires WellFormed(e) && MoveFrom(e, FirstMinute(e, t)) == Jump(v)
    ensures t < Target(e, t, v)
    ensures Year(Target(e, t, v)) - dot <= 4 ==> MonthsLeft(Target(e, t, v), dot) < MonthsLeft(t, dot)
  {
    hide MoveFrom, MonthOf, NextMonth, MonthStart, FirstMinute, Target, DayIx, DayOf, Scan, MonthLen, DayOfMonth;
    var u := FirstMinute(e, t);
    FirstInstantAhead(e, t);
    JumpAhead(e, u);
    TargetFields(e, t, v);
    MonthOfMonotone(DayIx(t), DayOf(u));
    MonthOfMonotone(DayOf(u), Scan(e, DayOf(u)));
  }

  // ---- The equations of an honest search.

  lemma MatchPasses(e: Expr, r: int, second: bool, dot: int)
    requires WellFormed(e) && Match(e, r)
    ensures At(e, r, 1) && AtHour(e, r, second, dot) == Some(r)
    ensures At(e, r, 2) && AtDay(e, r, second, dot) == Some(r)
    ensures At(e, r, 3) && AtMonth(e, r, second, dot) == Some(r)
  {
    hide Search, Scan, SeemsStill, AtHour, AtDay, AtMonth, Midnight, DayIx, MonthOf, MinuteIx, DayOf;
    MatchFits(e, r);
    MatchScan(e, r);
    assert AtMonth(e, r, second, dot) == Some(r) by { MonthPasses(e, r, second, dot); }
    assert AtDay(e, r, second, dot) == Some(r) by { DayPasses(e, r, second, dot); }
    HourPasses(e, r, second, dot);
  }

  lemma MatchFits(e: Expr, r: int)
    requires Match(e, r)
    ensures At(e, r, 1) && At(e, r, 2) && At(e, r, 3) && HourOk(e, HourOf(MinuteIx(r))) && MonthOk(e, MonthOf(DayIx(r)))
  {
    hide MinuteOk, HourOk, DayOk, MonthOk, MonthOf, Midnight;
  }

  lemma MonthPasses(e: Expr, r: int, second: bool, dot: int)
    requires WellFormed(e) && At(e, r, 3) && MonthOk(e, MonthOf(DayIx(r)))
    ensures AtMonth(e, r, second, dot) == Some(r)
  {
    hide MonthOk, MonthOf, DayIx, Search, Promised, At, MonthTo;
  }

  lemma DayPasses(e: Expr, r: int, second: bool, dot: int)
    requires WellFormed(e) && At(e, r, 2) && At(e, r, 3) && Scan(e, DayOf(MinuteIx(r))) == DayOf(MinuteIx(r))
    ensures AtDay(e, r, second, dot) == AtMonth(e, r, second, dot)
  {
    hide DayOf, MinuteIx, Scan, SeemsStill, AtMonth, Search, Promised, At, DayTo;
  }

  lemma HourPasses(e: Expr, r: int, second: bool, dot: int)
    requires WellFormed(e) && At(e, r, 1) && At(e, r, 2) && HourOk(e, HourOf(MinuteIx(r)))
    ensures AtHour(e, r, second, dot) == AtDay(e, r, second, dot)
  {
    hide HourOf, MinuteIx, HourOk, AtDay, Search, Promised, At, HourTo;
  }

  lemma MinutePasses(e: Expr, r: int, second: bool, dot: int)
    requires WellFormed(e) && Fresh(e, r, 0) && At(e, r, 1) && MinuteOk(e, MinuteIx(r))
    ensures AtMinute(e, r, second, dot) == AtHour(e, r, second, dot)
  {
    hide MinuteIx, MinuteOk, AtHour, Search, Promised, At, Fresh, MinuteTo;
  }

  lemma MatchScan(e: Expr, r: int)
    requires Match(e, r)
    ensures Scan(e, DayOf(MinuteIx(r))) == DayOf(MinuteIx(r))
  {
    hide DayOk, MinuteOk, HourOk, MonthOk;
    ScanIs(e, DayOf(MinuteIx(r)), DayOf(MinuteIx(r)));
  }

  lemma SearchMatches(e: Expr, t: int, dot: int)
    requires WellFormed(e) && AlwaysHonest(e) && Search(e, t, dot).Some?
    ensures t <= Search(e, t, dot).value && Match(e, Search(e, t, dot).value)
  {
    hide AlwaysHonest, Match, Result, NotBehind;
  }

  lemma SearchStarts(e: Expr, t: int, dot: int)
    requires WellFormed(e)
    ensures Fresh(e, FirstInstant(e, t), 0) && MinuteIx(FirstInstant(e, t)) == FirstMinute(e, t)
    ensures Search(e, t, dot) == AtMinute(e, FirstInstant(e, t), Second(t) in e.seconds, dot)
  {
    hide Fresh, AtMinute, FirstInstant, FirstMinute, MinuteIx, Match, Promised;
    Starts(e, t, dot);
  }

  lemma MinuteStep(e: Expr, now: int, second: bool, dot: int)
    requires WellFormed(e) && AlwaysHonest(e) && Fresh(e, now, 0) && !MinuteOk(e, MinuteIx(now))
    ensures AtMinute(e, now, second, dot) == Search(e, MinuteTo(e, now, second), dot)
  {
    hide AlwaysHonest, Match, MinuteOk, MinuteIx, Promised, AtHour, Search, MinuteTo, Fresh, At;
    var l := MinuteTo(e, now, second);
    if Search(e, l, dot).Some? {
      SearchMatches(e, l, dot);
      MatchPasses(e, Search(e, l, dot).value, second, dot);
    }
  }

  lemma HourStep(e: Expr, now: int, second: bool, dot: int)
    requires WellFormed(e) && AlwaysHonest(e) && At(e, now, 1) && !HourOk(e, HourOf(MinuteIx(now)))
    ensures AtHour(e, now, second, dot) == Search(e, HourTo(e, now, second), dot)
  {
    hide AlwaysHonest, Match, HourOk, MinuteIx, Promised, AtDay, Search, HourTo, At, HourOf;
    var l := HourTo(e, now, second);
    if Search(e, l, dot).Some? {
      SearchMatches(e, l, dot);
      MatchPasses(e, Search(e, l, dot).value, second, dot);
    }
  }

  lemma DayStep(e: Expr, now: int, second: bool, dot: int)
    requires WellFormed(e) && AlwaysHonest(e) && At(e, now, 2) && !SeemsStill(e, DayOf(MinuteIx(now)))
    ensures AtDay(e, now, second, dot) == Search(e, DayTo(e, now, second), dot)
  {
    hide AlwaysHonest, Match, MinuteIx, Promised, AtMonth, Search, DayTo, At, DayOf, Scan, DayOfMonth;
    var l := DayTo(e, now, second);
    if Search(e, l, dot).Some? {
      SearchMatches(e, l, dot);
      MatchPasses(e, Search(e, l, dot).value, second, dot);
    }
  }

  /** A scan whose move went unnoticed goes on to the month. */
  lemma SilentDay(e: Expr, now: int, second: bool, dot: int)
    requires WellFormed(e) && At(e, now, 2)
    requires SeemsStill(e, DayOf(MinuteIx(now))) && Scan(e, DayOf(MinuteIx(now))) != DayOf(MinuteIx(now))
    ensures At(e, DayTo(e, now, second), 3)
    ensures AtDay(e, now, second, dot) == AtMonth(e, DayTo(e, now, second), second, dot)
  {
    hide MinuteIx, Promised, AtMonth, Search, DayTo, At, DayOf, Scan, SeemsStill, Advances, Gap, MonthsLeft;
    AtFits(e, now, 2);
    DayMove(e, now, second, dot);
    StillDay(e, dot, now, DayTo(e, now, second));
  }

  lemma MonthJump(e: Expr, now: int, second: bool, dot: int)
    requires WellFormed(e) && At(e, now, 3) && !MonthOk(e, MonthOf(DayIx(now)))
    ensures var l := MonthTo(e, now, second);
      AtMonth(e, now, second, dot) == if Year(l) - dot > 4 then None else Search(e, l, dot)
  {
    hide MonthOk, MonthOf, DayIx, Search, Promised, At, MonthTo, Year;
  }

  /** With minute and hour in place a search starts with the day. */
  lemma ToDay(e: Expr, t: int, dot: int)
    requires WellFormed(e) && MinuteOk(e, FirstMinute(e, t)) && HourOk(e, HourOf(FirstMinute(e, t)))
    ensures var now := FirstInstant(e, t);
      && MinuteIx(now) == FirstMinute(e, t) && At(e, now, 2)
      && Search(e, t, dot) == AtDay(e, now, Second(t) in e.seconds, dot)
  {
    hide FirstInstant, FirstMinute, MinuteIx, MinuteOk, HourOk, HourOf, AtMinute, AtHour, AtDay, Search, Second,
      Midnight;
    SearchStarts(e, t, dot);
    MinutePasses(e, FirstInstant(e, t), Second(t) in e.seconds, dot);
    HourPasses(e, FirstInstant(e, t), Second(t) in e.seconds, dot);
  }

  lemma SearchOfMatch(e: Expr, r: int, dot: int)
    requires WellFormed(e) && Match(e, r)
    ensures FirstInstant(e, r) == r && Search(e, r, dot) == Some(r)
  {
    hide AtMinute, AtHour, AtDay, Search, MinuteOk, HourOk, HourOf, MonthOf, DayOk, At;
    assert r == 60 * MinuteIx(r) + Second(r);
    assert FirstInstant(e, r) == r;
    hide FirstInstant, FirstMinute, MinuteIx, Second;
    ToDay(e, r, dot);
    MatchPasses(e, r, Second(r) in e.seconds, dot);
  }

  lemma MinuteCase(e: Expr, t: int, dot: int)
    requires WellFormed(e) && AlwaysHonest(e) && !MinuteOk(e, FirstMinute(e, t))
    ensures Search(e, t, dot) == Search(e, Target(e, t, NextIndex(e.minutes, 60, FirstMinute(e, t))), dot)
  {
    hide AlwaysHonest, FirstInstant, FirstMinute, MinuteIx, MinuteOk, AtMinute, Search, Second, Lands, NextIndex,
      Fresh;
    SearchStarts(e, t, dot);
    MinuteStep(e, FirstInstant(e, t), Second(t) in e.seconds, dot);
  }

  lemma HourCase(e: Expr, t: int, dot: int)
    requires WellFormed(e) && AlwaysHonest(e)
    requires MinuteOk(e, FirstMinute(e, t)) && !HourOk(e, HourOf(FirstMinute(e, t)))
    ensures Search(e, t, dot) == Search(e, Target(e, t, 60 * NextIndex(e.hours, 24, HourOf(FirstMinute(e, t)))), dot)
  {
    hide AlwaysHonest, FirstInstant, FirstMinute, MinuteIx, MinuteOk, HourOk, HourOf, AtMinute, AtHour, Search,
      Second, Lands, NextIndex, Midnight;
    var now, second := FirstInstant(e, t), Second(t) in e.seconds;
    SearchStarts(e, t, dot);
    MinutePasses(e, now, second, dot);
    HourStep(e, now, second, dot);
  }

  lemma DayCase(e: Expr, t: int, dot: int)
    requires WellFormed(e) && AlwaysHonest(e)
    requires MinuteOk(e, FirstMinute(e, t)) && HourOk(e, HourOf(FirstMinute(e, t)))
    requires var d := DayOf(FirstMinute(e, t));
      Scan(e, d) != d && (SeemsStill(e, d) ==> MonthOk(e, MonthOf(Scan(e, d))))
    ensures Search(e, t, dot) == Search(e, Target(e, t, 1440 * Scan(e, DayOf(FirstMinute(e, t)))), dot)
  {
    hide AlwaysHonest, FirstInstant, FirstMinute, MinuteIx, MinuteOk, HourOk, HourOf, AtDay, Search, Second, DayOf,
      Lands, Scan, SeemsStill, MonthOk, MonthOf, Midnight;
    var now, second := FirstInstant(e, t), Second(t) in e.seconds;
    Starts(e, t, dot);
    ToDay(e, t, dot);
    if SeemsStill(e, DayOf(FirstMinute(e, t))) {
      SilentStep(e, now, second, dot);
    } else {
      DayStep(e, now, second, dot);
    }
  }

  /** A search that has to move a field is the search from where it lands. */
  lemma SearchSteps(e: Expr, t: int, dot: int, v: int)
    requires WellFormed(e) && AlwaysHonest(e) && MoveFrom(e, FirstMinute(e, t)) == Step(v)
    ensures Search(e, t, dot) == Search(e, Target(e, t, v), dot)
  {
    hide AlwaysHonest, FirstMinute, MinuteOk, HourOk, HourOf, DayOf, Search, Target, Scan, SeemsStill, MonthTarget,
      MonthOf, NextIndex, MonthOk;
    var u := FirstMinute(e, t);
    if !MinuteOk(e, u) {
      MinuteCase(e, t, dot);
    } else if !HourOk(e, HourOf(u)) {
      HourCase(e, t, dot);
    } else {
      DayCase(e, t, dot);
    }
  }

  /** An honest scan that moved unnoticed has found a match, as a search from there would. */
  lemma SilentStep(e: Expr, now: int, second: bool, dot: int)
    requires WellFormed(e) && AlwaysHonest(e) && Fresh(e, now, 2)
    requires var d := DayOf(MinuteIx(now)); Scan(e, d) != d && SeemsStill(e, d) && MonthOk(e, MonthOf(Scan(e, d)))
    ensures AtDay(e, now, second, dot) == Search(e, DayTo(e, now, second), dot)
  {
    hide *;
    var l := DayTo(e, now, second);
    FreshIsAt(e, now, 2);
    AtFits(e, now, 2);
    SilentDay(e, now, second, dot);
    SilentIsFresh(e, now, second);
    LandsAtMidnight(e, now, second);
    FreshIsMatch(e, dot, l);
    MonthPasses(e, l, second, dot);
    SearchOfMatch(e, l, dot);
  }

  lemma FreshIsAt(e: Expr, now: int, level: nat)
    requires Fresh(e, now, level)
    ensures At(e, now, level)
  {
    hide Midnight;
  }

  lemma JumpTarget(e: Expr, now: int, second: bool)
    requires WellFormed(e) && SecondFits(e, now)
    ensures var d := DayOf(MinuteIx(now));
      MonthTo(e, DayTo(e, now, second), second) == Lands(now, second, 1440 * MonthTarget(e, Scan(e, d)))
  {
    hide MinuteIx, DayOf, DayIx, MonthTarget, Scan, SecondFits, Second;
    LandsAtMidnight(e, now, second);
    DayOfMinuteIx(DayTo(e, now, second));
  }

  /** The month is changed from the day of the scan, noticed or not. */
  lemma DayJumps(e: Expr, now: int, second: bool, dot: int)
    requires WellFormed(e) && At(e, now, 2)
    requires var d := DayOf(MinuteIx(now)); SeemsStill(e, d) && !MonthOk(e, MonthOf(Scan(e, d)))
    ensures var l := Lands(now, second, 1440 * MonthTarget(e, Scan(e, DayOf(MinuteIx(now)))));
      AtDay(e, now, second, dot) == if Year(l) - dot > 4 then None else Search(e, l, dot)
  {
    hide MinuteIx, DayOf, DayIx, AtMonth, AtDay, Search, Scan, SeemsStill, MonthTarget, MonthOf, MonthOk, At, Year,
      Lands;
    AtFits(e, now, 2);
    DayOfMinuteIx(now);
    if Scan(e, DayOf(MinuteIx(now))) == DayOf(MinuteIx(now)) {
      StillIsAt(e, now);
      DayPasses(e, now, second, dot);
      MonthJump(e, now, second, dot);
    } else {
      SilentDay(e, now, second, dot);
      LandsAtMidnight(e, now, second);
      JumpTarget(e, now, second);
      MonthJump(e, DayTo(e, now, second), second, dot);
    }
  }

  lemma SearchJumps(e: Expr, t: int, dot: int, v: int)
    requires WellFormed(e) && MoveFrom(e, FirstMinute(e, t)) == Jump(v)
    ensures Search(e, t, dot) == if Year(Target(e, t, v)) - dot > 4 then None else Search(e, Target(e, t, v), dot)
  {
    hide FirstInstant, FirstMinute, MinuteIx, MinuteOk, HourOk, HourOf, DayOf, AtDay, Search, Second, Scan,
      SeemsStill, MonthTarget, MonthOf, NextIndex, MonthOk, At, Year, Lands;
    ToDay(e, t, dot);
    DayJumps(e, FirstInstant(e, t), Second(t) in e.seconds, dot);
  }

  lemma StillIsAt(e: Expr, now: int)
    requires At(e, now, 2) && Scan(e, DayOf(MinuteIx(now))) == DayOf(MinuteIx(now))
    ensures At(e, now, 3)
  {
    hide Scan, DayOf, MinuteIx, DayOk, MinuteOk, HourOk, Midnight, SecondFits;
    ScanStays(e, DayOf(MinuteIx(now)));
  }

  lemma StayMatches(e: Expr, u: int)
    requires WellFormed(e) && MoveFrom(e, u).Stay?
    ensures MinuteMatch(e, u)
  {
    hide Scan, SeemsStill, DayOk, MonthOk, MinuteOk, HourOk, MonthOf, DayOf, HourOf;
    ScanStays(e, DayOf(u));
  }

  lemma SearchStaysHere(e: Expr, t: int, dot: int)
    requires WellFormed(e) && MoveFrom(e, FirstMinute(e, t)).Stay?
    ensures Search(e, t, dot) == Some(FirstInstant(e, t)) && Match(e, FirstInstant(e, t))
  {
    hide FirstInstant, FirstMinute, FirstSecond, MinuteIx, Second, AtDay, Search, MoveFrom, ClockMatch, At;
    StayMatches(e, FirstMinute(e, t));
    FirstInstantAhead(e, t);
    assert Match(e, FirstInstant(e, t));
    ToDayOfMatch(e, FirstMinute(e, t));
    ToDay(e, t, dot);
    MatchPasses(e, FirstInstant(e, t), Second(t) in e.seconds, dot);
  }

  lemma ToDayOfMatch(e: Expr, u: int)
    requires MinuteMatch(e, u)
    ensures MinuteOk(e, u) && HourOk(e, HourOf(u))
  {
    hide MinuteOk, HourOk, DayOk, MonthOk;
  }
}
