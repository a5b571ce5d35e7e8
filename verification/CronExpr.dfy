/**
 Parsed cron expressions and what it means for an instant to match one: the second,
 minute, hour, day of month, month and day of week all lie in the expression's sets.
 */
module CronExpr {
  import opened Gregorian

  /** `cron_expr`: six bit sets, here the sets of the positions of their one bits. */
  datatype Expr = Expr(
    seconds: set<int>, minutes: set<int>, hours: set<int>,
    daysOfMonth: set<int>, months: set<int>, daysOfWeek: set<int>)

  predicate Fits(bits: set<int>, lo: int, hi: int) {
    && (exists b :: b in bits)
    && (forall b | b in bits :: lo <= b < hi)
  }

  predicate Full(bits: set<int>, lo: int, hi: int) {
    forall b | lo <= b < hi :: b in bits
  }

  /** What the parser guarantees: every set is non-empty and in the range of its field. */
  predicate WellFormed(e: Expr) {
    && Fits(e.seconds, 0, 60) && Fits(e.minutes, 0, 60) && Fits(e.hours, 0, 24)
    && Fits(e.daysOfMonth, 1, 32) && Fits(e.months, 0, 12) && Fits(e.daysOfWeek, 0, 7)
  }

  predicate EveryDay(e: Expr) { Full(e.daysOfMonth, 1, 32) }
  predicate EveryWeekday(e: Expr) { Full(e.daysOfWeek, 0, 7) }

  /** Expressions that restrict the day of month or the day of week, not both. */
  predicate OneStar(e: Expr) {
    WellFormed(e) && (EveryDay(e) || EveryWeekday(e))
  }

  function NextMonth(e: Expr, k: int): int
    requires WellFormed(e)
  {
    NextIndex(e.months, 12, k)
  }

  predicate MinuteOk(e: Expr, u: int) { u % 60 in e.minutes }
  predicate HourOk(e: Expr, h: int) { h % 24 in e.hours }
  predicate DayOk(e: Expr, d: int) { DayOfMonth(d) in e.daysOfMonth && Weekday(d) in e.daysOfWeek }
  predicate MonthOk(e: Expr, k: int) { k % 12 in e.months }

  function HourOf(u: int): int { u / 60 }
  function DayOf(u: int): int { HourOf(u) / 24 }

  lemma DayOfMinuteIx(t: int)
    ensures DayOf(MinuteIx(t)) == DayIx(t) && HourOf(MinuteIx(t)) == HourIx(t)
  {
  }

  /** Minute, hour and day match; the month may not. */
  predicate ClockMatch(e: Expr, u: int) {
    MinuteOk(e, u) && HourOk(e, HourOf(u)) && DayOk(e, DayOf(u))
  }

  /** Everything but the second matches. */
  predicate MinuteMatch(e: Expr, u: int) {
    ClockMatch(e, u) && MonthOk(e, MonthOf(DayOf(u)))
  }

  predicate Match(e: Expr, t: int) {
    Second(t) in e.seconds && MinuteMatch(e, MinuteIx(t))
  }

  lemma MatchOnDay(e: Expr, now: int)
    ensures Match(e, now) ==> DayOk(e, DayOf(MinuteIx(now))) && MonthOk(e, MonthOf(DayOf(MinuteIx(now))))
  {
    hide HourOk, MinuteOk, DayOk, MonthOk, MonthOf;
  }

  /** The first one bit at or after `from`, or `max` when there is none. */
  function NextBit(bits: set<int>, max: int, from: int): (r: int)
    requires from <= max
    ensures from <= r <= max
    ensures r < max ==> r in bits
    ensures forall i | from <= i < r :: i !in bits
    decreases max - from
  {
    if from == max || from in bits then from else NextBit(bits, max, from + 1)
  }

  lemma NextBitFound(bits: set<int>, max: int, from: int, b: int)
    requires from <= b < max && b in bits
    ensures NextBit(bits, max, from) <= b
  {
  }

  lemma FirstBitExists(bits: set<int>, lo: int, hi: int)
    requires Fits(bits, lo, hi)
    ensures lo <= hi && NextBit(bits, hi, lo) < hi
  {
    var b :| b in bits;
    NextBitFound(bits, hi, lo, b);
  }

  function FirstBit(bits: set<int>, lo: int, hi: int): (r: int)
    requires Fits(bits, lo, hi)
    ensures lo <= r < hi && r in bits && forall b | b in bits :: r <= b
  {
    FirstBitExists(bits, lo, hi);
    NextBit(bits, hi, lo)
  }

  lemma Residue(x: int, m: int, q: int, base: int)
    requires 0 < m && base == m * q && base <= x < base + m
    ensures x % m == x - base
  {
    var d := x / m - q;
    assert x - base == m * d + x % m;
    assert d >= 1 ==> m * d >= m;
    assert d <= -1 ==> m * d <= -m;
  }

  lemma NextIndexIsLeast(bits: set<int>, m: int, q: int, base: int, r: int, w: int)
    requires Fits(bits, 0, m) && base == m * q && 0 <= r < m
    requires w == var n := NextBit(bits, m, r + 1); base + if n < m then n else m + FirstBit(bits, 0, m)
    ensures base + r < w && w % m in bits
    ensures forall x | base + r < x < w :: x % m !in bits
  {
    var next := base + m;
    assert next == m * (q + 1);
    if w < next { Residue(w, m, q, base); } else { Residue(w, m, q + 1, next); }
    forall x | base + r < x < w ensures x % m !in bits {
      if x < next { Residue(x, m, q, base); } else { Residue(x, m, q + 1, next); }
    }
  }

  /**
   The least index after `v` whose value modulo `m` is in the set: the value search of
   `find_next`, with its carry into the next field.
   */
  function NextIndex(bits: set<int>, m: int, v: int): (w: int)
    requires Fits(bits, 0, m)
    ensures v < w && w % m in bits && forall x | v < x < w :: x % m !in bits
  {
    var base, r := v - v % m, v % m;
    var n := NextBit(bits, m, r + 1);
    var w := base + if n < m then n else m + FirstBit(bits, 0, m);
    NextIndexIsLeast(bits, m, v / m, base, r, w);
    w
  }

  // ---- Days.

  ghost function ScanDay(e: Expr, d: int, hit: int): (x: int)
    requires d <= hit && DayOk(e, hit)
    ensures d <= x <= hit && DayOk(e, x) && forall y | d <= y < x :: !DayOk(e, y)
    decreases hit - d
  {
    hide DayOk;
    if DayOk(e, d) then d else ScanDay(e, d + 1, hit)
  }

  /** A matching day always lies ahead: every listed number meets every listed weekday again and again. */
  function DayHit(e: Expr, d: int): (x: int)
    requires WellFormed(e)
    ensures d <= x && DayOk(e, x)
  {
    NextDate(d, FirstBit(e.daysOfMonth, 1, 32), FirstBit(e.daysOfWeek, 0, 7))
  }

  /** The first matching day at or after `d`. */
  ghost function NextDay(e: Expr, d: int): (x: int)
    requires WellFormed(e)
    ensures d <= x && DayOk(e, x) && forall y | d <= y < x :: !DayOk(e, y)
  {
    ScanDay(e, d, DayHit(e, d))
  }

  lemma NextDayUnique(e: Expr, d: int, x: int)
    requires WellFormed(e) && d <= x && DayOk(e, x) && forall y | d <= y < x :: !DayOk(e, y)
    ensures NextDay(e, d) == x
  {
    hide DayOk;
  }

  const SCAN_DAYS := 366

  /** Where a scan of at most `n` days from `d` stops: on a matching day, or at its cap. */
  function Stop(e: Expr, d: int, n: nat): (x: int)
    ensures d <= x <= d + n && (x < d + n ==> DayOk(e, x)) && forall y | d <= y < x :: !DayOk(e, y)
    decreases n
  {
    hide DayOk;
    if n == 0 || DayOk(e, d) then d else Stop(e, d + 1, n - 1)
  }

  /** The day on which the scan of `find_next_day` stops. */
  function Scan(e: Expr, d: int): (x: int)
    ensures d <= x <= d + SCAN_DAYS && (x < d + SCAN_DAYS ==> DayOk(e, x)) && forall y | d <= y < x :: !DayOk(e, y)
  {
    hide DayOk;
    Stop(e, d, SCAN_DAYS)
  }

  lemma StopIs(e: Expr, d: int, n: nat, x: int)
    requires d <= x <= d + n && (x < d + n ==> DayOk(e, x)) && forall y | d <= y < x :: !DayOk(e, y)
    ensures Stop(e, d, n) == x
  {
    hide DayOk, Stop;
    assert Stop(e, d, n) < x ==> DayOk(e, Stop(e, d, n));
  }

  /** The caller of the scan takes equal day numbers for "it did not move". */
  predicate SeemsStill(e: Expr, d: int) {
    DayOfMonth(Scan(e, d)) == DayOfMonth(d)
  }

  /** Within four weeks the day number tells. */
  lemma DayNumberChanges(d: int, x: int)
    requires d < x <= d + 27
    ensures DayOfMonth(x) != DayOfMonth(d)
  {
    hide MonthStart;
    var k := MonthOf(d);
    MonthLenBounds(k);
    MonthLenBounds(k + 1);
    if MonthStart(k + 1) <= x {
      MonthOfUnique(x, k + 1);
    } else {
      MonthOfUnique(x, k);
    }
  }

  lemma DayRepeatsFor(e: Expr, d: int)
    ensures DayOk(e, d + CYCLE_DAYS) == DayOk(e, d)
  {
    hide DayOfMonth, Weekday;
    DayRepeats(d);
  }

  lemma ScanRepeats(e: Expr, d: int)
    ensures Scan(e, d + CYCLE_DAYS) == Scan(e, d) + CYCLE_DAYS
  {
    hide DayOk, Stop, Scan;
    var x := Scan(e, d);
    DayRepeatsFor(e, x);
    forall y | d + CYCLE_DAYS <= y < x + CYCLE_DAYS ensures !DayOk(e, y) {
      DayRepeatsFor(e, y - CYCLE_DAYS);
    }
    ScanIs(e, d + CYCLE_DAYS, x + CYCLE_DAYS);
  }

  lemma ScanIs(e: Expr, d: int, x: int)
    requires d <= x <= d + SCAN_DAYS && (x < d + SCAN_DAYS ==> DayOk(e, x)) && forall y | d <= y < x :: !DayOk(e, y)
    ensures Scan(e, d) == x
  {
    hide DayOk, Stop;
    StopIs(e, d, SCAN_DAYS, x);
  }

  // Expressions with one star: the scan ends soon, and then it tells.

  function WeekdayHit(d: int, w: int): (x: int)
    requires 0 <= w < 7
    ensures d <= x <= d + 6 && Weekday(x) == w
  {
    d + (w - Weekday(d)) % 7
  }

  /** Any day number comes up within 62 days. */
  function DayNumberHit(d: int, q: int): (x: int)
    requires 1 <= q <= 31
    ensures d <= x <= d + 61 && DayOfMonth(x) == q
  {
    hide MonthStart;
    var k := MonthOf(d);
    MonthLenBounds(k);
    MonthLenBounds(k + 1);
    OneOfTwoMonthsIsLong(k);
    OneOfTwoMonthsIsLong(k + 1);
    var j := if q <= MonthLen(k) && d <= MonthStart(k) + q - 1 then k
      else if q <= MonthLen(k + 1) then k + 1 else k + 2;
    MonthOfUnique(MonthStart(j) + q - 1, j);
    MonthStart(j) + q - 1
  }

  lemma ListedDayNumber(e: Expr, d: int)
    requires WellFormed(e) && EveryWeekday(e)
    ensures DayOk(e, d) <==> DayOfMonth(d) in e.daysOfMonth
  {
    hide DayOfMonth;
  }

  lemma ListedWeekday(e: Expr, d: int)
    requires WellFormed(e) && EveryDay(e)
    ensures DayOk(e, d) <==> Weekday(d) in e.daysOfWeek
  {
    hide Weekday;
  }

  lemma OneStarIsNear(e: Expr, d: int)
    requires OneStar(e)
    ensures NextDay(e, d) <= d + 61
    ensures !EveryWeekday(e) ==> NextDay(e, d) <= d + 6
  {
    hide DayOfMonth, Weekday, DayOk, EveryDay, EveryWeekday;
    if EveryWeekday(e) {
      var x := DayNumberHit(d, FirstBit(e.daysOfMonth, 1, 32));
      ListedDayNumber(e, x);
      assert DayOk(e, x);
    } else {
      var x := WeekdayHit(d, FirstBit(e.daysOfWeek, 0, 7));
      ListedWeekday(e, x);
      assert DayOk(e, x);
    }
  }

  /**
   With the day of month or the day of week `*` the cap is never met, the scan ends on the first
   matching day, and the day number alone tells whether it moved.
   */
  lemma OneStarScan(e: Expr, d: int)
    requires OneStar(e)
    ensures Scan(e, d) == NextDay(e, d)
    ensures SeemsStill(e, d) <==> DayOk(e, d)
  {
    hide DayOfMonth, DayOk, Scan, EveryDay, EveryWeekday;
    OneStarIsNear(e, d);
    var x := NextDay(e, d);
    ScanIs(e, d, x);
    if DayOk(e, d) {
      NextDayUnique(e, d, d);
    } else if EveryWeekday(e) {
      ListedDayNumber(e, d);
      ListedDayNumber(e, x);
    } else {
      DayNumberChanges(d, x);
    }
  }

  // ---- The least minute at or after a given one that matches by minute, hour and day.

  ghost function ScanMinute(e: Expr, u: int, hit: int): (v: int)
    requires u <= hit && ClockMatch(e, hit)
    ensures u <= v && ClockMatch(e, v) && forall x | u <= x < v :: !ClockMatch(e, x)
    decreases hit - u
  {
    hide ClockMatch;
    if ClockMatch(e, u) then u else ScanMinute(e, u + 1, hit)
  }

  lemma ClockParts(w: int, d: int, hour: int, minute: int)
    requires w == (d * 24 + hour) * 60 + minute && 0 <= hour < 24 && 0 <= minute < 60
    ensures w % 60 == minute && HourOf(w) % 24 == hour && DayOf(w) == d
  {
    Quotient(w, 60, d * 24 + hour, minute);
    Quotient(d * 24 + hour, 24, d, hour);
  }

  lemma Quotient(x: int, m: int, q: int, r: int)
    requires 0 <= r < m && x == q * m + r
    ensures x / m == q && x % m == r
  {
    Residue(x, m, q, m * q);
    var e := x / m - q;
    assert x == m * (x / m) + x % m && m * e == 0;
    assert e != 0 ==> m * e != 0;
  }

  /** The first minute of a day that matches by minute and hour. */
  function ClockOfDay(e: Expr, d: int): (w: int)
    requires WellFormed(e)
    ensures MinuteOk(e, w) && HourOk(e, HourOf(w)) && DayOf(w) == d
    ensures 1440 * d <= w && (0 <= d ==> 0 <= w)
  {
    var hour, minute := FirstBit(e.hours, 0, 24), FirstBit(e.minutes, 0, 60);
    var w := (d * 24 + hour) * 60 + minute;
    ClockParts(w, d, hour, minute);
    w
  }

  lemma MinuteBeforeDay(u: int, d: int)
    requires DayOf(u) < d
    ensures u < 1440 * d
  {
  }

  function ClockHit(e: Expr, u: int): (v: int)
    requires WellFormed(e)
    ensures u <= v && ClockMatch(e, v)
  {
    hide DayOk, MinuteOk, HourOk;
    var x := DayHit(e, DayOf(u) + 1);
    MinuteBeforeDay(u, x);
    ClockOfDay(e, x)
  }

  ghost function NextClock(e: Expr, u: int): (v: int)
    requires WellFormed(e)
    ensures u <= v && ClockMatch(e, v) && forall x | u <= x < v :: !ClockMatch(e, x)
  {
    hide ClockMatch;
    ScanMinute(e, u, ClockHit(e, u))
  }

  lemma NextClockSame(e: Expr, u: int, v: int)
    requires WellFormed(e) && u <= v && forall x | u <= x < v :: !ClockMatch(e, x)
    ensures NextClock(e, v) == NextClock(e, u)
  {
    hide ClockMatch;
  }
}
