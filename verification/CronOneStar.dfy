/**
 Expressions that leave the day of month or the day of week free. For them the exact condition comes down
 to the listed numbers: some listed day exists in every common year, no listed day number overflows past a
 month that can match, and the seconds have no inner gap.
 */
module CronOneStar {
  import opened Gregorian
  import opened Wrappers
  import opened CronExpr
  import opened CronSearch
  import opened CronMoves
  import opened CronSound
  import opened CronExact

  /** Some listed day exists in some listed month of a common year. */
  predicate DayInEveryYear(e: Expr)
    requires WellFormed(e)
  {
    exists m, q | m in e.months && q in e.daysOfMonth :: q <= CommonLen(m)
  }

  // ---- A matching day ahead keeps the search from giving up.

  lemma {:induction false} SettlesFinds(e: Expr, d: int, dot: int, w: int)
    requires WellFormed(e) && NoHarmfulOverflow(e)
    requires d <= w && DayOk(e, w) && MonthOk(e, MonthOf(w)) && YearOf(w) - dot <= 4
    ensures Settles(e, d, dot)
    decreases DayMonthsLeft(d, dot), DayGap(e, d)
  {
    hide *;
    var x := Scan(e, d);
    var m := MonthTarget(e, x);
    SettlesIs(e, d, dot);
    ScanUpTo(e, d, w);
    if SeemsStill(e, d) {
      if !MonthOk(e, MonthOf(x)) {
        if w < m {
          JumpedDay(e, d, w);
        }
        YearMonotone(m, w);
        JumpCloser(e, d, dot);
        SettlesFinds(e, m, dot, w);
      }
    } else {
      StillAtRest(e, d);
      ScanCloser(e, d, dot);
      SettlesFinds(e, x, dot, w);
    }
  }

  lemma ScanUpTo(e: Expr, d: int, w: int)
    requires d <= w && DayOk(e, w)
    ensures d <= Scan(e, d) <= w
  {
    hide DayOk;
  }

  lemma YearMonotone(a: int, b: int)
    requires a <= b
    ensures YearOf(a) <= YearOf(b)
  {
    hide MonthOf;
    MonthOfMonotone(a, b);
  }

  lemma DayOfYear(e: Expr, y: int) returns (d: int)
    requires OneStar(e) && DayInEveryYear(e)
    ensures DayOk(e, d) && MonthOk(e, MonthOf(d)) && YearOf(d) == y
  {
    hide MonthOf, DayOk, MonthOk, CommonLen, EveryDay, EveryWeekday;
    var m, q :| m in e.months && q in e.daysOfMonth && q <= CommonLen(m);
    d := DayOfYearAt(e, y, m, q);
  }

  lemma DayOfYearAt(e: Expr, y: int, m: int, q: int) returns (d: int)
    requires OneStar(e) && m in e.months && q in e.daysOfMonth && q <= CommonLen(m)
    ensures DayOk(e, d) && MonthOk(e, MonthOf(d)) && YearOf(d) == y
  {
    NumbersInRange(e, m, q);
    hide *;
    MonthInYear(y, m);
    var k := 12 * y + m;
    d := DayOfMonthAt(e, k, q);
    ListedMonth(e, d, y, m);
  }

  lemma NumbersInRange(e: Expr, m: int, q: int)
    requires OneStar(e) && m in e.months && q in e.daysOfMonth
    ensures 0 <= m < 12 && 1 <= q <= 31
  {
    hide EveryDay, EveryWeekday;
  }

  /** Month `k` has a matching day when it can hold a listed number. */
  lemma DayOfMonthAt(e: Expr, k: int, q: int) returns (d: int)
    requires OneStar(e) && q in e.daysOfMonth && 1 <= q <= MonthLen(k)
    ensures DayOk(e, d) && MonthOf(d) == k
  {
    hide *;
    StarIsWellFormed(e);
    StarIsEither(e);
    if EveryWeekday(e) {
      d := MonthStart(k) + q - 1;
      DayInMonth(k, q);
      ListedDayNumber(e, d);
    } else {
      d := WeekdayOfMonth(e, k);
    }
  }

  lemma WeekdayOfMonth(e: Expr, k: int) returns (d: int)
    requires WellFormed(e) && EveryDay(e)
    ensures DayOk(e, d) && MonthOf(d) == k
  {
    var w := FirstBit(e.daysOfWeek, 0, 7);
    assert w in e.daysOfWeek;
    d := WeekdayHit(MonthStart(k), w);
    hide *;
    MonthLenBounds(k);
    InMonth(k, d);
    ListedWeekday(e, d);
  }

  lemma InMonth(k: int, d: int)
    requires MonthStart(k) <= d < MonthStart(k) + MonthLen(k)
    ensures MonthOf(d) == k
  {
    hide MonthStart;
    MonthOfUnique(d, k);
  }

  lemma StarIsEither(e: Expr)
    requires OneStar(e)
    ensures EveryDay(e) || EveryWeekday(e)
  {
    hide EveryDay, EveryWeekday;
  }

  lemma ListedMonth(e: Expr, d: int, y: int, m: int)
    requires 0 <= m < 12 && MonthOf(d) == 12 * y + m && m in e.months
    ensures MonthOk(e, MonthOf(d)) && YearOf(d) == y
  {
    hide MonthOf;
  }

  lemma EveryYearReaches(e: Expr)
    requires OneStar(e) && DayInEveryYear(e) && NoHarmfulOverflow(e)
    ensures Reaches(e)
  {
    hide Settles, DayInEveryYear, NoHarmfulOverflow, DayOk, MonthOk, MonthOf, YearOf, LastListed, EveryDay,
      EveryWeekday;
    forall d | 0 <= d < CYCLE_DAYS ensures ReachesFrom(e, d) {
      var w := DayOfYear(e, YearOf(d) + 1);
      InLaterYear(d, w);
      SettlesFinds(e, d, YearOf(d), w);
      SettlesFinds(e, d + 1, YearOf(d), w);
    }
  }

  // ---- Leap days alone are not enough.

  const MARCH_2096 := 12 * 196 + 2

  lemma NoLeapYearBefore2104(y: int)
    requires 197 <= y <= 201
    ensures !LeapYear(y)
  {
  }

  lemma LeapDayOnly(e: Expr, d: int)
    requires WellFormed(e) && !DayInEveryYear(e) && DayOk(e, d) && MonthOk(e, MonthOf(d))
    ensures MonthOf(d) % 12 == 1 && LeapYear(YearOf(d))
  {
    var k := MonthOf(d);
    MonthLength(k);
    hide MonthStart, LeapYear;
    assert DayOfMonth(d) <= MonthLen(k);
    assert k % 12 in e.months && DayOfMonth(d) in e.daysOfMonth;
  }

  /** Without a day in every common year only 29 February matches; 2100 has none, and the search ends in 2100. */
  lemma {:induction false} NeverSettles(e: Expr, d: int)
    requires OneStar(e) && !DayInEveryYear(e)
    requires MARCH_2096 <= MonthOf(d) && YearOf(NextDay(e, d)) <= 201
    ensures !Settles(e, d, 196)
    decreases DayMonthsLeft(d, 196), DayGap(e, d)
  {
    hide *;
    StarIsWellFormed(e);
    var m := MonthTarget(e, d);
    SettlesIs(e, d, 196);
    OneStarScan(e, d);
    if DayOk(e, d) {
      StillToday(e, d);
      if MonthOk(e, MonthOf(d)) {
        LeapDayOnly(e, d);
        AfterFebruary(d);
        NoLeapYearBefore2104(YearOf(d));
      }
      JumpCloser(e, d, 196);
      if YearOf(m) - 196 <= 4 {
        MonthAhead(e, d);
        NextDayYear(e, m);
        NeverSettles(e, m);
      }
    } else {
      NextDayAhead(e, d);
      MonthOfMonotone(d, NextDay(e, d));
      StillAtRest(e, d);
      ScanCloser(e, d, 196);
      NeverSettles(e, NextDay(e, d));
    }
  }

  lemma StarIsWellFormed(e: Expr)
    requires OneStar(e)
    ensures WellFormed(e)
  {
  }

  lemma StillToday(e: Expr, d: int)
    requires WellFormed(e) && DayOk(e, d)
    ensures NextDay(e, d) == d
  {
    hide DayOk;
  }

  lemma NextDayAhead(e: Expr, d: int)
    requires WellFormed(e)
    ensures d <= NextDay(e, d) && NextDay(e, NextDay(e, d)) == NextDay(e, d)
  {
    hide DayOk;
  }

  lemma AfterFebruary(d: int)
    requires MARCH_2096 <= MonthOf(d) && MonthOf(d) % 12 == 1
    ensures 197 <= YearOf(d)
  {
    hide MonthOf;
  }

  /** A matching day comes within two months, so at most a year later. */
  lemma NextDayYear(e: Expr, d: int)
    requires OneStar(e)
    ensures YearOf(NextDay(e, d)) <= YearOf(d) + 1
  {
    hide DayOk, MonthStart, EveryDay, EveryWeekday;
    OneStarIsNear(e, d);
    var k, x := MonthOf(d), NextDay(e, d);
    MonthStartIncreases(k + 1, k + 4);
    MonthOfRange(d, x, k + 4);
    hide *;
    YearSoon(k, MonthOf(x), d, x);
  }

  lemma YearSoon(k: int, l: int, d: int, x: int)
    requires k == MonthOf(d) && l == MonthOf(x) && l < k + 4
    ensures YearOf(x) <= YearOf(d) + 1
  {
    hide MonthOf;
  }

  lemma LeapDayIsMissed(e: Expr)
    requires OneStar(e) && !DayInEveryYear(e)
    ensures !Settles(e, MonthStart(MARCH_2096), 196) && !Reaches(e)
  {
    hide Settles, DayInEveryYear, MonthOf, EveryDay, EveryWeekday, LastListed, WellFormed;
    StarIsWellFormed(e);
    March2096();
    hide MonthStart;
    var d := MonthStart(MARCH_2096);
    NextDayYear(e, d);
    NeverSettles(e, d);
    assert !ReachesFrom(e, d);
  }

  lemma YearStart2096()
    ensures YearStart(196) == 46021 && LeapYear(196) && DaysBefore(2, true) == 60
  {
  }

  lemma March2096()
    ensures 0 <= MonthStart(MARCH_2096) < CYCLE_DAYS
    ensures MonthOf(MonthStart(MARCH_2096)) == MARCH_2096 && YearOf(MonthStart(MARCH_2096)) == 196
  {
    hide YearStart, LeapYear, MonthStart, MonthOf, DaysBefore, DayOfMonth;
    YearStart2096();
    MonthInYear(196, 2);
    MonthLenBounds(MARCH_2096);
    DayInMonth(MARCH_2096, 1);
  }

  // ---- Overflow, by the listed numbers.

  /** The length of month `m` in a leap or a common year; the former is the longest it can be. */
  function LenIn(m: int, leap: bool): int
    requires 0 <= m < 12
  {
    CommonLen(m) + if m == 1 && leap then 1 else 0
  }

  /** The listed month after month `m`, from 12 on in the next year. */
  function NextListed(e: Expr, m: int): (l: int)
    requires WellFormed(e) && 0 <= m < 12
    ensures m < l && l % 12 in e.months
  {
    NextMonth(e, m)
  }

  /**
   With every weekday listed: no listed number that an unlisted month can hold, and the next listed month
   cannot, stands beside a listed number that the latter holds. With every number listed: no unlisted month
   is longer than the next listed one.
   */
  predicate OverflowSafe(e: Expr)
    requires WellFormed(e)
  {
    if EveryWeekday(e) then
      forall m, q, q' | 0 <= m < 12 && m !in e.months && q in e.daysOfMonth && q' in e.daysOfMonth ::
        forall leap: bool :: !Displaces(e, m, q, q', leap)
    else
      forall m | 0 <= m < 12 && m !in e.months :: CommonLen(m) <= CommonLen(NextListed(e, m) % 12)
  }

  predicate Displaces(e: Expr, m: int, q: int, q': int, leap: bool)
    requires WellFormed(e) && 0 <= m < 12
  {
    var len := LenIn(NextListed(e, m) % 12, leap);
    q <= LenIn(m, true) && len < q && q' <= len
  }

  lemma NextMonthOf(e: Expr, y: int, m: int)
    requires WellFormed(e) && 0 <= m < 12
    ensures NextMonth(e, 12 * y + m) == 12 * y + NextListed(e, m)
  {
    Residue(12 * y, 12, y, 12 * y);
    var shift := 12 * y;
    NextIndexRepeats(e.months, 12, m, shift);
    hide *;
    NextMonthIs(e, m);
    NextMonthIs(e, m + shift);
  }

  lemma NextMonthIs(e: Expr, k: int)
    requires WellFormed(e)
    ensures NextMonth(e, k) == NextIndex(e.months, 12, k)
  {
    hide NextIndex;
  }

  lemma LenOf(k: int)
    ensures MonthLen(k) == LenIn(k % 12, LeapYear(YearOfMonth(k))) && MonthLen(k) <= LenIn(k % 12, true)
  {
    MonthLength(k);
    hide MonthLen, CommonLen, LeapYear;
  }

  function YearOfMonth(k: int): int { k / 12 }

  lemma OnlyFebruaryIsShort(m: int)
    requires 0 <= m < 12
    ensures if m == 1 then CommonLen(m) == 28 else 30 <= CommonLen(m) <= 31
  {
  }

  lemma NumberInMonth(d: int)
    ensures 1 <= DayOfMonth(d) <= MonthLen(MonthOf(d))
  {
    hide MonthStart;
  }

  /** A harmful overflow breaks the rule for the numbers. */
  lemma HarmIsUnsafe(e: Expr, d: int)
    requires OneStar(e) && OverflowHarms(e, d)
    ensures !OverflowSafe(e)
  {
    hide MonthOf, MonthLen, MonthStart, Scan, SeemsStill, DayOk, DayOfMonth, NextListed, LenIn, CommonLen,
      EveryDay, EveryWeekday, NextMonth, LeapYear, DayOkIn, NextDay;
    StarIsWellFormed(e);
    OneStarScan(e, d);
    OverflowIs(e, d, Scan(e, d), NextMonth(e, MonthOf(Scan(e, d))));
    StillToday(e, d);
    var k := MonthOf(d);
    var n := NextMonth(e, k);
    var y := DayIn(e, n);
    HarmAt(e, d, y, k % 12, k / 12);
  }

  lemma DayIn(e: Expr, n: int) returns (y: int)
    requires DayOkIn(e, n)
    ensures MonthOf(y) == n && DayOk(e, y)
  {
    hide DayOk, MonthStart;
    y :| MonthStart(n) <= y < MonthStart(n + 1) && DayOk(e, y);
    MonthOfUnique(y, n);
  }

  lemma HarmAt(e: Expr, d: int, y: int, m: int, z: int)
    requires OneStar(e) && DayOk(e, d) && DayOk(e, y) && 0 <= m < 12 && MonthOf(d) == 12 * z + m && m !in e.months
    requires MonthOf(y) == NextMonth(e, MonthOf(d)) && MonthLen(MonthOf(y)) < DayOfMonth(d)
    ensures !OverflowSafe(e)
  {
    hide *;
    StarIsWellFormed(e);
    NextMonthOf(e, z, m);
    NumberInMonth(d);
    NumberInMonth(y);
    LenOf(MonthOf(d));
    LenOf(MonthOf(y));
    MonthsOfYear(MonthOf(d), MonthOf(y), z, m, NextListed(e, m));
    if EveryWeekday(e) {
      ListedDayNumber(e, d);
      ListedDayNumber(e, y);
    }
    Unsafe(e, m, DayOfMonth(d), DayOfMonth(y), LeapYear(YearOfMonth(MonthOf(y))));
  }

  lemma MonthsOfYear(k: int, n: int, z: int, m: int, l: int)
    requires k == 12 * z + m && n == 12 * z + l
    ensures k % 12 == m % 12 && n % 12 == l % 12
    ensures 0 <= m < 12 ==> k % 12 == m
  {
    MonthOfYear(k, z, m);
    MonthOfYear(n, z, l);
  }

  lemma MonthOfYear(k: int, z: int, m: int)
    requires k == 12 * z + m
    ensures k % 12 == m % 12
  {
    Residue(k, 12, z + m / 12, 12 * (z + m / 12));
  }

  /** A number that an unlisted month can hold and the next listed month cannot breaks the rule. */
  lemma Unsafe(e: Expr, m: int, q: int, q': int, leap: bool)
    requires OneStar(e) && 0 <= m < 12 && m !in e.months
    requires LenIn(NextListed(e, m) % 12, leap) < q <= LenIn(m, true)
    requires EveryWeekday(e) ==>
      q in e.daysOfMonth && q' in e.daysOfMonth && q' <= LenIn(NextListed(e, m) % 12, leap)
    ensures !OverflowSafe(e)
  {
    hide NextListed, LenIn, CommonLen, EveryDay, EveryWeekday;
    if EveryWeekday(e) {
      assert Displaces(e, m, q, q', leap);
    } else {
      LongerMonth(e, m, NextListed(e, m) % 12, q, leap);
    }
  }

  lemma LongerMonth(e: Expr, m: int, l: int, q: int, leap: bool)
    requires 0 <= m < 12 && 0 <= l < 12 && m != l && LenIn(l, leap) < q <= LenIn(m, true)
    ensures CommonLen(l) < CommonLen(m)
  {
    hide CommonLen;
    OnlyFebruaryIsShort(m);
    OnlyFebruaryIsShort(l);
  }

  // ---- And a broken rule is a harmful overflow.

  lemma HarmFrom(e: Expr, d: int, y: int)
    requires OneStar(e) && DayOk(e, d) && DayOk(e, y) && !MonthOk(e, MonthOf(d))
    requires MonthOf(y) == NextMonth(e, MonthOf(d)) && MonthLen(MonthOf(y)) < DayOfMonth(d)
    ensures !NoHarmfulOverflow(e)
  {
    hide *;
    StarIsWellFormed(e);
    OneStarScan(e, d);
    StillToday(e, d);
    MatchesIn(e, y);
    OverflowIs(e, d, d, MonthOf(y));
    if NoHarmfulOverflow(e) {
      NeverHarms(e, d);
    }
  }

  /** Month `k` is month `m` of year `y`, and `n` the next listed one. */
  lemma MonthsAt(e: Expr, m: int, y: int, k: int, n: int)
    requires WellFormed(e) && 0 <= m < 12 && m !in e.months && k == 12 * y + m && n == 12 * y + NextListed(e, m)
    ensures n == NextMonth(e, k) && !MonthOk(e, k) && n % 12 == NextListed(e, m) % 12
    ensures MonthLen(k) == LenIn(m, LeapYear(y)) && m != NextListed(e, m) % 12
    ensures MonthLen(n) == LenIn(n % 12, LeapYear(y + NextListed(e, m) / 12))
  {
    hide NextMonth, MonthLen, LeapYear, LenIn, NextListed;
    NextMonthOf(e, y, m);
    LenOf(k);
    LenOf(n);
    assert k % 12 == m && k / 12 == y && n / 12 == y + NextListed(e, m) / 12;
  }

  lemma TwoYears()
    ensures LeapYear(104) && !LeapYear(105)
  {
  }

  /** The year of the next listed month can be chosen, and other months than February do not depend on it. */
  lemma DisplacedByNumber(e: Expr, m: int, q: int, q': int, leap: bool)
    requires OneStar(e) && EveryWeekday(e) && 0 <= m < 12 && m !in e.months && q in e.daysOfMonth && q' in e.daysOfMonth
    requires 1 <= q && 1 <= q' && Displaces(e, m, q, q', leap)
    ensures !NoHarmfulOverflow(e)
  {
    hide *;
    StarIsWellFormed(e);
    var k, n := ChosenMonths(e, m, q, q', leap);
    NumbersAt(e, k, n, q, q');
  }

  lemma ChosenMonths(e: Expr, m: int, q: int, q': int, leap: bool) returns (k: int, n: int)
    requires WellFormed(e) && 0 <= m < 12 && m !in e.months && Displaces(e, m, q, q', leap)
    ensures n == NextMonth(e, k) && !MonthOk(e, k) && q <= MonthLen(k) && q' <= MonthLen(n) < q
  {
    hide NextMonth, MonthLen, LeapYear, LenIn, NextListed, MonthOk, WellFormed;
    var l := NextListed(e, m);
    var y := (if leap then 104 else 105) - l / 12;
    k, n := 12 * y + m, 12 * y + l;
    TwoYears();
    MonthsAt(e, m, y, k, n);
    ShortFebruary(m, l % 12, q, leap);
    NotFebruary(m, q, LeapYear(y));
  }

  lemma ShortFebruary(m: int, l: int, q: int, leap: bool)
    requires 0 <= m < 12 && 0 <= l < 12 && m != l && LenIn(l, leap) < q <= LenIn(m, true)
    ensures m != 1
  {
    hide CommonLen;
    OnlyFebruaryIsShort(m);
    OnlyFebruaryIsShort(l);
  }

  lemma NumbersAt(e: Expr, k: int, n: int, q: int, q': int)
    requires OneStar(e) && EveryWeekday(e) && q in e.daysOfMonth && q' in e.daysOfMonth && 1 <= q && 1 <= q'
    requires WellFormed(e) && n == NextMonth(e, k) && !MonthOk(e, k) && q <= MonthLen(k) && q' <= MonthLen(n) < q
    ensures !NoHarmfulOverflow(e)
  {
    hide *;
    DayInMonth(k, q);
    DayInMonth(n, q');
    var d, d' := MonthStart(k) + q - 1, MonthStart(n) + q' - 1;
    ListedDayNumber(e, d);
    ListedDayNumber(e, d');
    HarmFrom(e, d, d');
  }

  lemma NotFebruary(m: int, q: int, leap: bool)
    requires 0 <= m < 12 && q <= LenIn(m, true) && (m != 1)
    ensures q <= LenIn(m, leap) && LenIn(m, true) == CommonLen(m)
  {
    hide CommonLen;
  }

  /** Common years between 2001 and 2010 start on every weekday. */
  function CommonYear(w: int): (y: int)
    requires 0 <= w < 7
    ensures !LeapYear(y) && Weekday(YearStart(y)) == w
  {
    [106, 101, 102, 103, 109, 110, 105][w]
  }

  /** Some common year has a given date on a given weekday. */
  lemma DateOnWeekday(m: int, q: int, w: int) returns (y: int)
    requires 0 <= m < 12 && 1 <= q <= CommonLen(m) && 0 <= w < 7
    ensures var k := 12 * y + m;
      !LeapYear(y) && MonthLen(k) == CommonLen(m) && Weekday(MonthStart(k) + q - 1) == w
  {
    y := CommonYear((w - q + 1 - DaysBefore(m, false)) % 7);
    hide YearStart, LeapYear, MonthStart, MonthLen, CommonLen;
    MonthInYear(y, m);
    var before := DaysBefore(m, false);
    hide DaysBefore;
    WeekdaySum(YearStart(y), before, q, w);
  }

  lemma WeekdaySum(start: int, before: int, q: int, w: int)
    requires 0 <= w < 7 && Weekday(start) == (w - q + 1 - before) % 7
    ensures Weekday(start + before + q - 1) == w
  {
  }

  /** With every number listed, the last day of a longer unlisted month falls on a listed weekday in some year. */
  lemma DisplacedByWeekday(e: Expr, m: int)
    requires OneStar(e) && EveryDay(e) && 0 <= m < 12 && m !in e.months && WellFormed(e)
    requires CommonLen(NextListed(e, m) % 12) < CommonLen(m)
    ensures !NoHarmfulOverflow(e)
  {
    var w := FirstBit(e.daysOfWeek, 0, 7);
    assert w in e.daysOfWeek;
    var k, n, d := WeekdayMonths(e, m, w);
    hide *;
    ListedWeekday(e, d);
    var d' := WeekdayOfMonth(e, n);
    HarmFrom(e, d, d');
  }

  lemma WeekdayMonths(e: Expr, m: int, w: int) returns (k: int, n: int, d: int)
    requires WellFormed(e) && 0 <= m < 12 && m !in e.months && 0 <= w < 7
    requires CommonLen(NextListed(e, m) % 12) < CommonLen(m)
    ensures n == NextMonth(e, k) && !MonthOk(e, k) && MonthLen(n) < CommonLen(m)
    ensures MonthOf(d) == k && DayOfMonth(d) == CommonLen(m) && Weekday(d) == w
  {
    hide *;
    var q, l := CommonLen(m), NextListed(e, m);
    OnlyFebruaryIsShort(m);
    OnlyFebruaryIsShort(l % 12);
    var y := DateOnWeekday(m, q, w);
    k, n := 12 * y + m, 12 * y + l;
    MonthsAt(e, m, y, k, n);
    ShortNext(l % 12, LeapYear(y + l / 12), q);
    d := MonthStart(k) + q - 1;
    DayInMonth(k, q);
  }

  lemma ShortNext(l: int, leap: bool, q: int)
    requires 0 <= l < 12 && CommonLen(l) < q && 30 <= q
    ensures LenIn(l, leap) < q
  {
    hide CommonLen;
    OnlyFebruaryIsShort(l);
  }

  /** For an expression with one star the rule on the numbers decides. */
  lemma OverflowIff(e: Expr)
    requires OneStar(e)
    ensures NoHarmfulOverflow(e) <==> OverflowSafe(e)
  {
    hide OverflowHarms, Displaces, CommonLen, EveryDay, EveryWeekday, NextListed;
    if !NoHarmfulOverflow(e) {
      var d :| 0 <= d < CYCLE_DAYS && OverflowHarms(e, d);
      HarmIsUnsafe(e, d);
    } else if !OverflowSafe(e) {
      if EveryWeekday(e) {
        var m, q, q', leap :| 0 <= m < 12 && m !in e.months && q in e.daysOfMonth && q' in e.daysOfMonth
          && Displaces(e, m, q, q', leap);
        DisplacedByNumber(e, m, q, q', leap);
      } else {
        var m :| 0 <= m < 12 && m !in e.months && CommonLen(NextListed(e, m) % 12) < CommonLen(m);
        DisplacedByWeekday(e, m);
      }
    }
  }

  /** The exact condition for expressions with one star, on the listed numbers alone. */
  lemma OneStarExactIff(e: Expr)
    requires OneStar(e)
    ensures Exact(e) <==> DayInEveryYear(e) && OverflowSafe(e) && SecondsExact(e)
  {
    hide *;
    StarIsWellFormed(e);
    ExactIff(e);
    ConditionParts(e);
    OneStarIsHonest(e);
    OverflowIff(e);
    if !DayInEveryYear(e) {
      LeapDayIsMissed(e);
    } else if NoHarmfulOverflow(e) {
      EveryYearReaches(e);
    }
  }

  /**
   The everyday case: seconds `*` or a single value, day of month or day of week `*`, and either
   all months or only days up to 28.
   */
  lemma PlainScheduleIsExact(e: Expr)
    requires OneStar(e)
    requires Full(e.seconds, 0, 60) || exists s :: e.seconds == {s}
    requires Full(e.months, 0, 12) || forall q | q in e.daysOfMonth :: q <= 28
    ensures Exact(e) && ExactCondition(e)
  {
    PlainReaches(e);
    PlainIsSafe(e);
    assert SecondsExact(e);
    hide *;
    StarIsWellFormed(e);
    OneStarExactIff(e);
    ExactIff(e);
  }

  lemma PlainReaches(e: Expr)
    requires OneStar(e)
    requires Full(e.months, 0, 12) || forall q | q in e.daysOfMonth :: q <= 28
    ensures DayInEveryYear(e)
  {
    var m, q := FirstBit(e.months, 0, 12), FirstBit(e.daysOfMonth, 1, 32);
    if Full(e.months, 0, 12) {
      assert 0 in e.months && q <= CommonLen(0);
    } else {
      assert q <= CommonLen(m);
    }
  }

  lemma PlainIsSafe(e: Expr)
    requires OneStar(e)
    requires Full(e.months, 0, 12) || forall q | q in e.daysOfMonth :: q <= 28
    ensures OverflowSafe(e)
  {
    hide NextListed;
    assert !Full(e.months, 0, 12) && !EveryWeekday(e) ==> 31 in e.daysOfMonth;
  }

  // ---- Examples: each part of the condition fails for some expression, at some date.

  const ANY_WEEKDAY: set<int> := {0, 1, 2, 3, 4, 5, 6}
  const ANY_HOUR: set<int> := set h | 0 <= h < 24
  const ANY_DAY: set<int> := set q | 1 <= q < 32
  const ANY_MONTH: set<int> := {0, 1, 2, 3, 4, 5, 6, 7, 8, 9, 10, 11}

  /** Midnight of 29 February: from 1 March 2096 the answer is that there is none. */
  lemma LeapDayExample(e: Expr)
    requires e == Expr({0}, {0}, {0}, {29}, {1}, ANY_WEEKDAY)
    ensures OneStar(e) && CronNextInstant(e, 86400 * MonthStart(MARCH_2096)) == None && !Exact(e)
  {
    assert 0 in e.seconds && 29 in e.daysOfMonth && 1 in e.months && 0 in e.daysOfWeek;
    assert WellFormed(e) && OneStar(e) && !DayInEveryYear(e);
    hide *;
    OneStarExactIff(e);
    OneStarIsHonest(e);
    HonestAlways(e);
    March2096();
    var d := MonthStart(MARCH_2096);
    LeapDayIsMissed(e);
    EarlyStart(e, d);
    YearIs(86400 * d);
    SearchSettles(e, 86400 * d, 196);
    CronNextIs(e, 86400 * d);
  }

  lemma Winter2023()
    ensures MonthStart(12 * 123) == 19358 && MonthStart(12 * 123 + 1) == 19389 && MonthStart(12 * 123 + 2) == 19417
  {
    assert YearStart(123) == 19358;
    assert !LeapYear(123);
    hide YearStart, LeapYear;
    MonthInYear(123, 0);
    MonthInYear(123, 1);
    MonthInYear(123, 2);
    hide MonthStart;
  }

  /** Midnight of 1 and 31 February: from 31 January 2023 the answer is in March or later, but 1 February matches. */
  lemma OverflowExample(e: Expr)
    requires e == Expr({0}, {0}, {0}, {1, 31}, {1}, ANY_WEEKDAY)
    ensures OneStar(e) && Match(e, 86400 * 19389) && !Exact(e)
    ensures var r := CronNextInstant(e, 86400 * 19388); r.Some? ==> 86400 * 19417 <= r.value
  {
    FebruarySets(e);
    FebruaryDays(e);
    hide *;
    OneStarIsHonest(e);
    HonestAlways(e);
    OneStarScan(e, 19388);
    StillToday(e, 19388);
    MidnightFields(19388);
    MidnightFields(19389);
    DayOfMidnight(19388);
    DayOfMidnight(19389);
    MatchBy(e, 86400 * 19389, 1440 * 19389, 19389);
    JumpsFrom(e, 19388);
    FirstMinuteAt(e, 1440 * 19388, 0, 86400 * 19388);
    TargetFields(e, 86400 * 19388, 1440 * 19417);
    if CronNextInstant(e, 86400 * 19388).Some? {
      ResultAfterMove(e, 86400 * 19388, 1440 * 19417);
    }
    if Exact(e) {
      ExactAt(e, 86400 * 19388);
    }
  }

  lemma FebruarySets(e: Expr)
    requires e == Expr({0}, {0}, {0}, {1, 31}, {1}, ANY_WEEKDAY)
    ensures WellFormed(e) && OneStar(e) && 0 in e.seconds && 0 in e.minutes && 0 in e.hours
    ensures ClockOfDay(e, 19388) == 1440 * 19388 && NextMonth(e, 12 * 123) == 12 * 123 + 1
  {
    assert 0 in e.seconds && 0 in e.minutes && 0 in e.hours && 1 in e.daysOfMonth && 1 in e.months && 0 in e.daysOfWeek;
    assert (12 * 123 + 1) % 12 == 1;
    assert FirstBit(e.hours, 0, 24) == 0 && FirstBit(e.minutes, 0, 60) == 0;
  }

  lemma FebruaryDays(e: Expr)
    requires e == Expr({0}, {0}, {0}, {1, 31}, {1}, ANY_WEEKDAY) && WellFormed(e)
    requires NextMonth(e, 12 * 123) == 12 * 123 + 1
    ensures DayOk(e, 19388) && MonthOf(19388) == 12 * 123 && !MonthOk(e, 12 * 123) && MonthTarget(e, 19388) == 19417
    ensures DayOk(e, 19389) && MonthOf(19389) == 12 * 123 + 1 && MonthOk(e, 12 * 123 + 1)
  {
    Winter2023();
    hide MonthStart, NextMonth;
    MonthOfUnique(19388, 12 * 123);
    MonthOfUnique(19389, 12 * 123 + 1);
  }

  /**
   Seconds 0 and 30 of the first minute of every hour: from 0:59:15 the answer is 1:00:30 or later, although
   1:00:00 matches.
   */
  lemma GapExample(e: Expr)
    requires e == Expr({0, 30}, {0}, ANY_HOUR, ANY_DAY, ANY_MONTH, ANY_WEEKDAY)
    ensures OneStar(e) && Match(e, 3600) && !Exact(e)
    ensures var r := CronNextInstant(e, 3555); r.Some? ==> 3630 <= r.value
  {
    HourlySets(e);
    HourlyMove(e);
    hide *;
    OneStarIsHonest(e);
    HonestAlways(e);
    if CronNextInstant(e, 3555).Some? {
      ResultAfterMove(e, 3555, 60);
    }
    if Exact(e) {
      ExactAt(e, 3555);
    }
  }

  lemma HourlySets(e: Expr)
    requires e == Expr({0, 30}, {0}, ANY_HOUR, ANY_DAY, ANY_MONTH, ANY_WEEKDAY)
    ensures WellFormed(e) && OneStar(e)
  {
    assert 0 in e.seconds && 0 in e.minutes && 0 in e.hours && 1 in e.daysOfMonth && 0 in e.months && 0 in e.daysOfWeek;
  }

  lemma HourlyMove(e: Expr)
    requires e == Expr({0, 30}, {0}, ANY_HOUR, ANY_DAY, ANY_MONTH, ANY_WEEKDAY) && WellFormed(e)
    ensures MoveFrom(e, FirstMinute(e, 3555)) == Step(60) && Target(e, 3555, 60) == 3630 && Match(e, 3600)
  {
    hide MonthOf, DayOfMonth, Scan, MonthTarget, SeemsStill;
    assert MinuteIx(3555) == 59 && Second(3555) == 15 && MinuteIx(3600) == 60 && Second(3600) == 0;
    assert NextBit(e.seconds, 60, 15) == 30 by { NextBitFound(e.seconds, 60, 15, 30); }
    assert FirstMinute(e, 3555) == 59 && Carried(e, 3555) == 30;
    assert 60 % 60 in e.minutes && NextIndex(e.minutes, 60, 59) == 60;
    TargetFields(e, 3555, 60);
    assert HourOf(60) == 1 && DayOf(60) == 0;
  }
}
