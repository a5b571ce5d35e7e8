/**
 The search of `do_next` and `cron_next` on instants, stage by stage: the second, then the minute, the
 hour, the day and the month. A stage keeps its field, or moves it and makes a whole search from there;
 whatever that search returns, the stages after it go on from its result.
 */
module CronSearch {
  import opened Gregorian
  import opened Wrappers
  import opened CronExpr

  /** The minute of the first instant at or after `t` whose second is in the set. */
  function FirstMinute(e: Expr, t: int): int
    requires WellFormed(e)
  {
    if NextBit(e.seconds, 60, Second(t)) < 60 then MinuteIx(t) else MinuteIx(t) + 1
  }

  /** The second of that instant. */
  function FirstSecond(e: Expr, t: int): (s: int)
    requires WellFormed(e)
    ensures s in e.seconds && 0 <= s < 60
  {
    var n := NextBit(e.seconds, 60, Second(t));
    if n < 60 then n else FirstBit(e.seconds, 0, 60)
  }

  function FirstInstant(e: Expr, t: int): int
    requires WellFormed(e)
  {
    60 * FirstMinute(e, t) + FirstSecond(e, t)
  }

  /** The day on which a change of month lands: a day number too large overflows into the month after. */
  function MonthTarget(e: Expr, d: int): int
    requires WellFormed(e)
  {
    var k := NextMonth(e, MonthOf(d));
    if DayOfMonth(d) <= MonthLen(k) then MonthStart(k) else MonthStart(k + 1)
  }

  /** A move to the start of minute `v`; the second is reset when it is on the reset list, else carried along. */
  function Lands(now: int, second: bool, v: int): int {
    60 * v + if second then 0 else Second(now)
  }

  predicate Midnight(t: int) { MinuteIx(t) == 1440 * DayIx(t) }

  predicate SecondFits(e: Expr, t: int) { Second(t) == 0 || Second(t) in e.seconds }

  /** The fields below a level match. */
  predicate Fresh(e: Expr, now: int, level: nat) {
    && Second(now) in e.seconds
    && (1 <= level ==> MinuteOk(e, MinuteIx(now)))
    && (2 <= level ==> HourOk(e, HourOf(MinuteIx(now))))
    && (3 <= level ==> DayOk(e, DayOf(MinuteIx(now))))
  }

  /** What a stage may start from: the fields below it match, or a search has returned a midnight. */
  predicate At(e: Expr, now: int, level: nat) {
    SecondFits(e, now) && (Fresh(e, now, level) || Midnight(now))
  }

  /** What a search may return. */
  predicate Result(e: Expr, r: int) {
    SecondFits(e, r) && MonthOk(e, MonthOf(DayIx(r))) && (Match(e, r) || Midnight(r))
  }

  // ---- The measure.

  /** How far the least minute that matches by minute, hour and day still is. */
  ghost function Gap(e: Expr, u: int): (g: int)
    requires WellFormed(e)
    ensures 0 <= g
  {
    NextClock(e, u) - u
  }

  /** Months left before the search gives up: it looks four years past `dot`. */
  function DayMonthsLeft(d: int, dot: int): nat {
    var n := 12 * (dot + 5) - MonthOf(d);
    if n < 0 then 0 else n
  }

  function MonthsLeft(t: int, dot: int): nat { DayMonthsLeft(DayIx(t), dot) }

  function Year(t: int): int { YearOf(DayIx(t)) }

  lemma HourOfRange(u: int, x: int, h: int)
    requires u <= x < 60 * h
    ensures HourOf(u) <= HourOf(x) < h
  {
  }

  lemma DayOfRange(u: int, x: int, d: int)
    requires u <= x < 1440 * d
    ensures DayOf(u) <= DayOf(x) < d
  {
    HourOfRange(u, x, 24 * d);
  }

  lemma MonthOfRange(d: int, y: int, k: int)
    requires d <= y < MonthStart(k)
    ensures MonthOf(d) <= MonthOf(y) < k
  {
    hide MonthStart;
    MonthOfMonotone(d, y);
    if k <= MonthOf(y) {
      MonthStartIncreases(k, MonthOf(y));
    }
  }

  lemma DayOfMonotone(u: int, v: int)
    requires u <= v
    ensures DayOf(u) <= DayOf(v)
  {
  }

  lemma MonthsLeftMonotone(t: int, t': int, dot: int)
    requires DayIx(t) <= DayIx(t')
    ensures MonthsLeft(t', dot) <= MonthsLeft(t, dot)
  {
    hide MonthOf, DayIx;
    MonthOfMonotone(DayIx(t), DayIx(t'));
  }

  lemma MinuteParts(v: int, c: int)
    requires 0 <= c < 60
    ensures MinuteIx(60 * v + c) == v && Second(60 * v + c) == c && DayIx(60 * v + c) == DayOf(v)
  {
  }

  lemma LandsAt(e: Expr, now: int, second: bool, v: int)
    requires WellFormed(e) && SecondFits(e, now)
    ensures var l := Lands(now, second, v);
      && MinuteIx(l) == v == FirstMinute(e, l) && DayIx(l) == DayOf(v) && SecondFits(e, l)
      && Second(l) == if second then 0 else Second(now)
    ensures MinuteIx(now) < v ==> now < Lands(now, second, v)
  {
    var c := if second then 0 else Second(now);
    assert now == 60 * MinuteIx(now) + Second(now);
    MinuteParts(v, c);
    hide MinuteIx, DayIx, DayOf;
    NextBitFound(e.seconds, 60, c, if c in e.seconds then c else FirstBit(e.seconds, 0, 60));
  }

  /** `r` is no farther from the end than `t`, whose first minute is `u`. */
  ghost predicate NotBehind(e: Expr, dot: int, r: int, t: int, u: int)
    requires WellFormed(e)
  {
    || MonthsLeft(r, dot) < MonthsLeft(t, dot)
    || (MonthsLeft(r, dot) <= MonthsLeft(t, dot) && Gap(e, MinuteIx(r)) <= Gap(e, u))
  }

  /** What the search promises of its answer. */
  ghost predicate Promised(e: Expr, dot: int, t: int, u: int, r: Option<int>)
    requires WellFormed(e)
  {
    r.Some? ==> t <= r.value && Result(e, r.value) && NotBehind(e, dot, r.value, t, u)
  }

  /** A move forward that comes closer to the end. */
  ghost predicate Advances(e: Expr, dot: int, now: int, l: int)
    requires WellFormed(e)
  {
    && now < l && SecondFits(e, l) && MinuteIx(l) == FirstMinute(e, l)
    && MonthsLeft(l, dot) <= MonthsLeft(now, dot) && Gap(e, MinuteIx(l)) < Gap(e, MinuteIx(now))
  }

  lemma MoveAdvances(e: Expr, now: int, second: bool, v: int, dot: int)
    requires WellFormed(e) && SecondFits(e, now) && MinuteIx(now) < v
    requires forall x | MinuteIx(now) <= x < v :: !ClockMatch(e, x)
    ensures Advances(e, dot, now, Lands(now, second, v)) && MinuteIx(Lands(now, second, v)) == v
  {
    hide ClockMatch, Lands, FirstMinute, MonthsLeft, DayOf, MinuteIx, DayIx, SecondFits;
    LandsAt(e, now, second, v);
    NextClockSame(e, MinuteIx(now), v);
    DayOfMonotone(MinuteIx(now), v);
    DayOfMinuteIx(now);
    MonthsLeftMonotone(now, Lands(now, second, v), dot);
  }

  /** After a move and the search from there the next stage starts closer to the end. */
  lemma Resumes(e: Expr, dot: int, now: int, l: int, r: int)
    requires WellFormed(e) && Advances(e, dot, now, l) && Promised(e, dot, l, FirstMinute(e, l), Some(r))
    ensures now < r && Result(e, r)
    ensures MonthsLeft(r, dot) < MonthsLeft(now, dot)
      || (MonthsLeft(r, dot) <= MonthsLeft(now, dot) && Gap(e, MinuteIx(r)) < Gap(e, MinuteIx(now)))
  {
    hide Gap, MonthsLeft, FirstMinute, MinuteIx, Result, SecondFits;
  }

  lemma Onward(e: Expr, dot: int, now: int, l: int, r: int, last: Option<int>)
    requires WellFormed(e) && Advances(e, dot, now, l) && Promised(e, dot, l, FirstMinute(e, l), Some(r))
    requires Promised(e, dot, r, MinuteIx(r), last)
    ensures Promised(e, dot, now, MinuteIx(now), last)
  {
    hide Gap, MonthsLeft, FirstMinute, MinuteIx, Result, SecondFits;
  }

  lemma MatchIsFresh(e: Expr, r: int, level: nat)
    requires Result(e, r)
    ensures At(e, r, level)
    ensures Match(e, r) ==> Fresh(e, r, level) && MonthOk(e, MonthOf(DayIx(r)))
  {
    hide MinuteOk, HourOk, DayOk, MonthOk, Midnight, MonthOf, DayIx;
  }

  lemma MinuteSkips(e: Expr, u: int)
    requires WellFormed(e) && !MinuteOk(e, u)
    ensures u < NextIndex(e.minutes, 60, u)
    ensures forall x | u <= x < NextIndex(e.minutes, 60, u) :: !ClockMatch(e, x)
  {
    hide DayOk;
  }

  lemma HourSkips(e: Expr, u: int)
    requires WellFormed(e) && !HourOk(e, HourOf(u))
    ensures u < 60 * NextIndex(e.hours, 24, HourOf(u))
    ensures forall x | u <= x < 60 * NextIndex(e.hours, 24, HourOf(u)) :: !ClockMatch(e, x)
  {
    hide DayOk;
    var h := NextIndex(e.hours, 24, HourOf(u));
    forall x | u <= x < 60 * h ensures !ClockMatch(e, x) {
      HourOfRange(u, x, h);
    }
  }

  lemma DaySkips(e: Expr, u: int)
    requires WellFormed(e) && Scan(e, DayOf(u)) != DayOf(u)
    ensures u < 1440 * Scan(e, DayOf(u))
    ensures forall x | u <= x < 1440 * Scan(e, DayOf(u)) :: !ClockMatch(e, x)
  {
    hide DayOk, Scan;
    var d := Scan(e, DayOf(u));
    forall x | u <= x < 1440 * d ensures !ClockMatch(e, x) {
      DayOfRange(u, x, d);
    }
  }

  // Where the four fields move to.

  function MinuteTo(e: Expr, now: int, second: bool): int
    requires WellFormed(e)
  {
    Lands(now, second, NextIndex(e.minutes, 60, MinuteIx(now)))
  }

  function HourTo(e: Expr, now: int, second: bool): int
    requires WellFormed(e)
  {
    Lands(now, second, 60 * NextIndex(e.hours, 24, HourOf(MinuteIx(now))))
  }

  function DayTo(e: Expr, now: int, second: bool): int {
    Lands(now, second, 1440 * Scan(e, DayOf(MinuteIx(now))))
  }

  function MonthTo(e: Expr, now: int, second: bool): int
    requires WellFormed(e)
  {
    Lands(now, second, 1440 * MonthTarget(e, DayOf(MinuteIx(now))))
  }

  lemma MinuteMove(e: Expr, now: int, second: bool, dot: int)
    requires WellFormed(e) && SecondFits(e, now) && !MinuteOk(e, MinuteIx(now))
    ensures Advances(e, dot, now, MinuteTo(e, now, second))
  {
    hide MinuteOk, NextIndex, ClockMatch, SecondFits, MinuteIx, Advances, Lands;
    MinuteSkips(e, MinuteIx(now));
    MoveAdvances(e, now, second, NextIndex(e.minutes, 60, MinuteIx(now)), dot);
  }

  lemma HourMove(e: Expr, now: int, second: bool, dot: int)
    requires WellFormed(e) && SecondFits(e, now) && !HourOk(e, HourOf(MinuteIx(now)))
    ensures Advances(e, dot, now, HourTo(e, now, second))
  {
    hide HourOk, NextIndex, ClockMatch, SecondFits, MinuteIx, Advances, Lands, HourOf;
    HourSkips(e, MinuteIx(now));
    MoveAdvances(e, now, second, 60 * NextIndex(e.hours, 24, HourOf(MinuteIx(now))), dot);
  }

  /** A day scan that moved lands on a midnight. */
  lemma DayMove(e: Expr, now: int, second: bool, dot: int)
    requires WellFormed(e) && SecondFits(e, now) && Scan(e, DayOf(MinuteIx(now))) != DayOf(MinuteIx(now))
    ensures var l := DayTo(e, now, second);
      && Advances(e, dot, now, l)
      && MinuteIx(l) == 1440 * Scan(e, DayOf(MinuteIx(now))) && DayIx(l) == Scan(e, DayOf(MinuteIx(now)))
  {
    hide Scan, ClockMatch, SecondFits, MinuteIx, Advances, Lands, DayOf, DayIx;
    var x := Scan(e, DayOf(MinuteIx(now)));
    DaySkips(e, MinuteIx(now));
    MoveAdvances(e, now, second, 1440 * x, dot);
    DayOfMidnight(x);
    DayOfMinuteIx(DayTo(e, now, second));
  }

  /** A change of month goes to the next listed month, or past it exactly when the day number does not exist there. */
  lemma MonthAhead(e: Expr, d: int)
    requires WellFormed(e)
    ensures var k, n, l := MonthOf(d), NextMonth(e, MonthOf(d)), MonthOf(MonthTarget(e, d));
      && d < MonthTarget(e, d) == MonthStart(l)
      && k < n <= l
      && l == if DayOfMonth(d) <= MonthLen(n) then n else n + 1
  {
    hide MonthStart;
    var k := MonthOf(d);
    var n := NextMonth(e, k);
    var l := if DayOfMonth(d) <= MonthLen(n) then n else n + 1;
    MonthLenBounds(l);
    MonthOfUnique(MonthStart(l), l);
    MonthStartIncreases(k + 1, l);
  }

  lemma MonthMove(e: Expr, now: int, second: bool, dot: int)
    requires WellFormed(e) && SecondFits(e, now)
    ensures var l := MonthTo(e, now, second);
      && now < l && SecondFits(e, l) && MinuteIx(l) == FirstMinute(e, l)
      && DayIx(l) == MonthTarget(e, DayIx(now)) && MinuteIx(l) == 1440 * MonthTarget(e, DayIx(now))
      && (Year(l) - dot <= 4 ==> MonthsLeft(l, dot) < MonthsLeft(now, dot))
  {
    hide MonthStart, MonthTarget, Lands, FirstMinute, DayIx, DayOf, MinuteIx, MonthOf, MonthLen, DayOfMonth,
      NextMonth;
    DayOfMinuteIx(now);
    var d := MonthTarget(e, DayIx(now));
    MonthAhead(e, DayIx(now));
    MinuteBeforeDay(MinuteIx(now), d);
    LandsAt(e, now, second, 1440 * d);
    DayOfMidnight(d);
  }

  lemma DayOfMidnight(d: int)
    ensures DayOf(1440 * d) == d && HourOf(1440 * d) == 24 * d
  {
  }

  lemma FirstInstantAhead(e: Expr, t: int)
    requires WellFormed(e)
    ensures t <= FirstInstant(e, t)
    ensures MinuteIx(t) <= FirstMinute(e, t) == MinuteIx(FirstInstant(e, t))
    ensures Second(FirstInstant(e, t)) == FirstSecond(e, t)
    ensures DayIx(t) <= DayOf(FirstMinute(e, t)) == DayIx(FirstInstant(e, t))
  {
    var u, s := FirstMinute(e, t), FirstSecond(e, t);
    assert t == 60 * MinuteIx(t) + Second(t);
    assert MinuteIx(60 * u + s) == u && Second(60 * u + s) == s;
  }

  // ---- The search.

  /** The scan tells whether it moved, where that matters for the result. */
  predicate Honest(e: Expr, d: int) {
    SeemsStill(e, d) && Scan(e, d) != d && MonthOk(e, MonthOf(Scan(e, d)))
    ==> DayOk(e, Scan(e, d)) && 0 in e.seconds && 0 in e.minutes && 0 in e.hours
  }

  ghost predicate AlwaysHonest(e: Expr) {
    forall d :: Honest(e, d)
  }

  /** `do_next`: the instant it leaves in the calendar, or none when it gives up. */
  ghost function Search(e: Expr, t: int, dot: int): (r: Option<int>)
    requires WellFormed(e)
    ensures Promised(e, dot, t, FirstMinute(e, t), r)
    ensures r.Some? && AlwaysHonest(e) ==> Match(e, r.value)
    decreases MonthsLeft(t, dot), Gap(e, FirstMinute(e, t)), 4
  {
    hide Gap, MonthsLeft, FirstMinute, FirstInstant, Match, AlwaysHonest, Promised, Fresh, MinuteIx, Second;
    Starts(e, t, dot);
    var r := AtMinute(e, FirstInstant(e, t), Second(t) in e.seconds, dot);
    StartPromise(e, t, dot, r);
    r
  }

  /** From the minute on; `second` tells whether the second is on the reset list. */
  ghost function AtMinute(e: Expr, now: int, second: bool, dot: int): (r: Option<int>)
    requires WellFormed(e) && Fresh(e, now, 0)
    ensures Promised(e, dot, now, MinuteIx(now), r)
    ensures r.Some? && AlwaysHonest(e) ==> Match(e, r.value)
    decreases MonthsLeft(now, dot), Gap(e, MinuteIx(now)), 3
  {
    hide Gap, MonthsLeft, FirstMinute, MinuteIx, HourOf, DayOf, AlwaysHonest, Midnight, MinuteTo, Match, Promised,
      Advances, MinuteOk, HourOk, DayOk, Result;
    if MinuteOk(e, MinuteIx(now)) then AtHour(e, now, second, dot)
    else
      var l := MinuteTo(e, now, second);
      MinuteMove(e, now, second, dot);
      match Search(e, l, dot)
      case None =>
        NonePromised(e, dot, now);
        None
      case Some(r) =>
        Resumes(e, dot, now, l, r);
        MatchIsFresh(e, r, 1);
        Onward(e, dot, now, l, r, AtHour(e, r, second, dot));
        AtHour(e, r, second, dot)
  }

  ghost function AtHour(e: Expr, now: int, second: bool, dot: int): (r: Option<int>)
    requires WellFormed(e) && At(e, now, 1)
    ensures Promised(e, dot, now, MinuteIx(now), r)
    ensures r.Some? && AlwaysHonest(e) && Fresh(e, now, 1) ==> Match(e, r.value)
    decreases MonthsLeft(now, dot), Gap(e, MinuteIx(now)), 2
  {
    hide Gap, MonthsLeft, FirstMinute, MinuteIx, HourOf, DayOf, AlwaysHonest, Midnight, HourTo, Match, Promised,
      Advances, MinuteOk, HourOk, DayOk, Result;
    if HourOk(e, HourOf(MinuteIx(now))) then AtDay(e, now, second, dot)
    else
      var l := HourTo(e, now, second);
      HourMove(e, now, second, dot);
      match Search(e, l, dot)
      case None =>
        NonePromised(e, dot, now);
        None
      case Some(r) =>
        Resumes(e, dot, now, l, r);
        MatchIsFresh(e, r, 2);
        Onward(e, dot, now, l, r, AtDay(e, r, second, dot));
        AtDay(e, r, second, dot)
  }

  ghost function AtDay(e: Expr, now: int, second: bool, dot: int): (r: Option<int>)
    requires WellFormed(e) && At(e, now, 2)
    ensures Promised(e, dot, now, MinuteIx(now), r)
    ensures r.Some? && AlwaysHonest(e) && Fresh(e, now, 2) ==> Match(e, r.value)
    decreases MonthsLeft(now, dot), Gap(e, MinuteIx(now)), 1
  {
    hide Gap, MonthsLeft, FirstMinute, MinuteIx, HourOf, DayOf, AlwaysHonest, Midnight, DayTo, Match, Promised,
      Advances, MinuteOk, HourOk, DayOk, Result, Scan, SeemsStill;
    var d := DayOf(MinuteIx(now));
    if Scan(e, d) == d then
      ScanStays(e, d);
      AtMonth(e, now, second, dot)
    else
      var l := DayTo(e, now, second);
      DayMove(e, now, second, dot);
      if SeemsStill(e, d) then
        StillDay(e, dot, now, l);
        SilentIsFresh(e, now, second);
        var r := AtMonth(e, l, second, dot);
        SilentPromise(e, dot, now, l, r);
        r
      else
        match Search(e, l, dot)
        case None =>
          NonePromised(e, dot, now);
          None
        case Some(r) =>
          Resumes(e, dot, now, l, r);
          MatchIsFresh(e, r, 3);
          Onward(e, dot, now, l, r, AtMonth(e, r, second, dot));
          AtMonth(e, r, second, dot)
  }

  ghost function AtMonth(e: Expr, now: int, second: bool, dot: int): (r: Option<int>)
    requires WellFormed(e) && At(e, now, 3)
    ensures Promised(e, dot, now, MinuteIx(now), r)
    ensures r.Some? && AlwaysHonest(e) && (Fresh(e, now, 3) || !MonthOk(e, MonthOf(DayIx(now)))) ==> Match(e, r.value)
    decreases MonthsLeft(now, dot), Gap(e, MinuteIx(now)), 0
  {
    hide Gap, MonthsLeft, FirstMinute, MinuteIx, HourOf, DayOf, AlwaysHonest, Midnight, MonthTo, Match, Promised,
      Advances, MinuteOk, HourOk, DayOk, MonthOk, MonthOf, Result, Year, At;
    if MonthOk(e, MonthOf(DayIx(now))) then
      FreshIsMatch(e, dot, now);
      Some(now)
    else
      var l := MonthTo(e, now, second);
      AtFits(e, now, 3);
      MonthMove(e, now, second, dot);
      if Year(l) - dot > 4 then
        NonePromised(e, dot, now);
        None
      else
        JumpPromise(e, dot, now, l, Search(e, l, dot));
        Search(e, l, dot)
  }

  lemma ScanStays(e: Expr, d: int)
    requires Scan(e, d) == d
    ensures DayOk(e, d) && SeemsStill(e, d)
  {
    hide DayOk, DayOfMonth;
  }

  lemma Starts(e: Expr, t: int, dot: int)
    requires WellFormed(e)
    ensures Fresh(e, FirstInstant(e, t), 0) && MinuteIx(FirstInstant(e, t)) == FirstMinute(e, t)
    ensures t <= FirstInstant(e, t) && MonthsLeft(FirstInstant(e, t), dot) <= MonthsLeft(t, dot)
  {
    hide MonthsLeft, FirstMinute, FirstSecond, Second, MinuteIx, FirstInstant, DayIx, DayOf;
    FirstInstantAhead(e, t);
    MonthsLeftMonotone(t, FirstInstant(e, t), dot);
  }

  lemma StartPromise(e: Expr, t: int, dot: int, r: Option<int>)
    requires WellFormed(e) && Promised(e, dot, FirstInstant(e, t), MinuteIx(FirstInstant(e, t)), r)
    ensures Promised(e, dot, t, FirstMinute(e, t), r)
  {
    hide Gap, MonthsLeft, FirstMinute, FirstInstant, MinuteIx, Result;
    Starts(e, t, dot);
  }

  lemma AtFits(e: Expr, now: int, level: nat)
    requires At(e, now, level)
    ensures SecondFits(e, now)
  {
    hide Fresh, Midnight, SecondFits;
  }

  lemma NonePromised(e: Expr, dot: int, now: int)
    requires WellFormed(e)
    ensures Promised(e, dot, now, MinuteIx(now), None)
  {
  }

  lemma FreshIsMatch(e: Expr, dot: int, now: int)
    requires WellFormed(e) && At(e, now, 3) && MonthOk(e, MonthOf(DayIx(now)))
    ensures Promised(e, dot, now, MinuteIx(now), Some(now))
    ensures Fresh(e, now, 3) ==> Match(e, now)
  {
    hide MinuteOk, HourOk, DayOk, MonthOk, Midnight, MonthOf, DayIx, DayOf, Gap, MonthsLeft, MinuteIx;
    DayOfMinuteIx(now);
  }

  lemma StillDay(e: Expr, dot: int, now: int, l: int)
    requires WellFormed(e) && Advances(e, dot, now, l) && MinuteIx(l) == 1440 * DayIx(l)
    ensures At(e, l, 3)
    ensures MonthsLeft(l, dot) <= MonthsLeft(now, dot) && Gap(e, MinuteIx(l)) < Gap(e, MinuteIx(now))
  {
    hide Gap, MonthsLeft, FirstMinute, MinuteIx, DayIx, SecondFits, Fresh;
  }

  /** When the scan is honest, an unnoticed move into a listed month leaves a match behind. */
  lemma SilentIsFresh(e: Expr, now: int, second: bool)
    requires WellFormed(e) && SecondFits(e, now)
    requires SeemsStill(e, DayOf(MinuteIx(now))) && Scan(e, DayOf(MinuteIx(now))) != DayOf(MinuteIx(now))
    ensures var l := DayTo(e, now, second);
      AlwaysHonest(e) && Fresh(e, now, 2) && MonthOk(e, MonthOf(DayIx(l))) ==> Fresh(e, l, 3)
  {
    hide *;
    var d := DayOf(MinuteIx(now));
    var x := Scan(e, d);
    var l := DayTo(e, now, second);
    LandsAtMidnight(e, now, second);
    if AlwaysHonest(e) && Fresh(e, now, 2) && MonthOk(e, MonthOf(DayIx(l))) {
      HonestMove(e, d);
      FreshSecond(e, now, 2);
      MidnightIsFresh(e, l, x);
    }
  }

  lemma LandsAtMidnight(e: Expr, now: int, second: bool)
    requires WellFormed(e) && SecondFits(e, now)
    ensures var l, x := DayTo(e, now, second), Scan(e, DayOf(MinuteIx(now)));
      MinuteIx(l) == 1440 * x && DayIx(l) == x && Second(l) == if second then 0 else Second(now)
  {
    hide Scan, MinuteIx, DayIx, DayOf, Lands, SecondFits;
    var x := Scan(e, DayOf(MinuteIx(now)));
    LandsAt(e, now, second, 1440 * x);
    DayOfMidnight(x);
  }

  lemma HonestMove(e: Expr, d: int)
    requires AlwaysHonest(e) && SeemsStill(e, d) && Scan(e, d) != d && MonthOk(e, MonthOf(Scan(e, d)))
    ensures DayOk(e, Scan(e, d)) && 0 in e.seconds && 0 in e.minutes && 0 in e.hours
  {
    hide SeemsStill, Scan, MonthOk, MonthOf, DayOk;
    assert Honest(e, d);
  }

  lemma FreshSecond(e: Expr, now: int, level: nat)
    requires Fresh(e, now, level)
    ensures Second(now) in e.seconds
  {
  }

  lemma MidnightIsFresh(e: Expr, l: int, x: int)
    requires MinuteIx(l) == 1440 * x && Second(l) in e.seconds
    requires 0 in e.minutes && 0 in e.hours && DayOk(e, x)
    ensures Fresh(e, l, 3)
  {
    hide DayOk, MinuteIx, Second;
    DayOfMidnight(x);
  }

  lemma SilentPromise(e: Expr, dot: int, now: int, l: int, r: Option<int>)
    requires WellFormed(e) && Advances(e, dot, now, l) && Promised(e, dot, l, MinuteIx(l), r)
    ensures Promised(e, dot, now, MinuteIx(now), r)
  {
    hide Gap, MonthsLeft, FirstMinute, MinuteIx, Result, SecondFits;
  }

  lemma JumpPromise(e: Expr, dot: int, now: int, l: int, r: Option<int>)
    requires WellFormed(e) && now < l && MonthsLeft(l, dot) < MonthsLeft(now, dot)
    requires Promised(e, dot, l, FirstMinute(e, l), r)
    ensures Promised(e, dot, now, MinuteIx(now), r)
  {
    hide Gap, MonthsLeft, FirstMinute, MinuteIx, Result, SecondFits;
  }
}
