/**
 The proleptic Gregorian calendar behind `timegm` and `gmtime_r`, after section 4.16
 ("Seconds Since the Epoch") of the POSIX.1-2017 Base Definitions. Years count from 1900,
 as in `tm_year`; a month index is 12 * tm_year + tm_mon, so January 1970 is month 840.
 Instants are unbounded integers.
 */
module Gregorian {

  const EPOCH_MONTH := 840

  // 1900 + y is divisible by 4, by 100 and by 400.
  predicate By4(y: int) { y % 4 == 0 }
  predicate By100(y: int) { y % 100 == 0 }
  predicate By400(y: int) { (y + 300) % 400 == 0 }

  predicate LeapYear(y: int) {
    By4(y) && (!By100(y) || By400(y))
  }

  // The three corrections of the POSIX formula.
  function Quads(y: int): int { (y - 69) / 4 }
  function Centuries(y: int): int { (y - 1) / 100 }
  function QuadCenturies(y: int): int { (y + 299) / 400 }

  /** Days from the epoch to 1 January of year `y`, by the POSIX formula. */
  function YearStart(y: int): int {
    365 * (y - 70) + Quads(y) - Centuries(y) + QuadCenturies(y)
  }

  /** Days of a year that precede month `m`. */
  function DaysBefore(m: int, leap: bool): int
    requires 0 <= m <= 12
  {
    [0, 31, 59, 90, 120, 151, 181, 212, 243, 273, 304, 334, 365][m] + if leap && 2 <= m then 1 else 0
  }

  /** Days from the epoch to the first day of month index `k`. */
  function MonthStart(k: int): int {
    YearStart(k / 12) + DaysBefore(k % 12, LeapYear(k / 12))
  }

  function MonthLen(k: int): int {
    MonthStart(k + 1) - MonthStart(k)
  }

  /** The length of month `m` in a common year. */
  function CommonLen(m: int): int
    requires 0 <= m < 12
  {
    DaysBefore(m + 1, false) - DaysBefore(m, false)
  }

  lemma QuadsStep(y: int)
    ensures Quads(y + 1) == Quads(y) + if By4(y) then 1 else 0
  {
    assert (y - 68) % 4 == y % 4;
  }

  lemma CenturiesStep(y: int)
    ensures Centuries(y + 1) == Centuries(y) + if By100(y) then 1 else 0
  {
  }

  lemma QuadCenturiesStep(y: int)
    ensures QuadCenturies(y + 1) == QuadCenturies(y) + if By400(y) then 1 else 0
  {
  }

  lemma By100IsBy4(y: int)
    ensures By100(y) ==> By4(y)
  {
    var q := y / 100;
    if By100(y) {
      assert y == 4 * (25 * q);
    }
  }

  lemma By400IsBy100(y: int)
    ensures By400(y) ==> By100(y)
  {
    var q := (y + 300) / 400;
    if By400(y) {
      assert y == 100 * (4 * q - 3);
    }
  }

  lemma YearLength(y: int)
    ensures YearStart(y + 1) - YearStart(y) == if LeapYear(y) then 366 else 365
  {
    hide By4, By100, By400, Quads, Centuries, QuadCenturies;
    QuadsStep(y);
    CenturiesStep(y);
    QuadCenturiesStep(y);
    By100IsBy4(y);
    By400IsBy100(y);
  }

  /** Only February changes its length; the table of months is the familiar one. */
  lemma MonthLength(k: int)
    ensures MonthLen(k) == CommonLen(k % 12) + if k % 12 == 1 && LeapYear(k / 12) then 1 else 0
  {
    hide LeapYear, YearStart;
    if k % 12 == 11 {
      YearLength(k / 12);
      assert (k + 1) / 12 == k / 12 + 1;
    } else {
      assert (k + 1) / 12 == k / 12 && (k + 1) % 12 == k % 12 + 1;
    }
  }

  lemma MonthLenBounds(k: int)
    ensures 28 <= MonthLen(k) <= 31
  {
    MonthLength(k);
    hide MonthLen, LeapYear;
  }

  /** Of two months in a row one has 31 days. */
  lemma OneOfTwoMonthsIsLong(k: int)
    ensures MonthLen(k) == 31 || MonthLen(k + 1) == 31
  {
    hide MonthStart, LeapYear;
    MonthLength(k);
    MonthLength(k + 1);
    assert (k + 1) % 12 == if k % 12 == 11 then 0 else k % 12 + 1;
  }

  lemma MonthLenIs(k: int, l: int)
    requires l == k + 1
    ensures MonthLen(k) == MonthStart(l) - MonthStart(k)
  {
    hide MonthStart;
  }

  lemma {:induction false} MonthStartIncreases(k: int, l: int)
    requires k <= l
    ensures MonthStart(k) + 28 * (l - k) <= MonthStart(l) <= MonthStart(k) + 31 * (l - k)
    decreases l - k
  {
    if k == l {
    } else {
      MonthStartIncreases(k, l - 1);
      MonthLenBounds(l - 1);
      MonthLenIs(l - 1, l);
      hide *;
    }
  }

  function MonthUp(day: int, k: int): (m: int)
    requires MonthStart(k) <= day
    ensures k <= m && MonthStart(m) <= day < MonthStart(m + 1)
    decreases day - MonthStart(k)
  {
    hide MonthStart;
    MonthLenBounds(k);
    if day < MonthStart(k + 1) then k else MonthUp(day, k + 1)
  }

  function MonthDown(day: int, k: int): (m: int)
    requires day < MonthStart(k + 1)
    ensures m <= k && MonthStart(m) <= day < MonthStart(m + 1)
    decreases MonthStart(k + 1) - day
  {
    hide MonthStart;
    MonthLenBounds(k);
    if MonthStart(k) <= day then k else MonthDown(day, k - 1)
  }

  /** The month that holds a day. */
  function MonthOf(day: int): (k: int)
    ensures MonthStart(k) <= day < MonthStart(k + 1)
  {
    hide MonthStart;
    if MonthStart(EPOCH_MONTH) <= day then MonthUp(day, EPOCH_MONTH) else MonthDown(day, EPOCH_MONTH - 1)
  }

  lemma MonthOfUnique(day: int, k: int)
    requires MonthStart(k) <= day < MonthStart(k + 1)
    ensures MonthOf(day) == k
  {
    hide MonthStart;
    var m := MonthOf(day);
    if m < k {
      MonthStartIncreases(m + 1, k);
    } else if k < m {
      MonthStartIncreases(k + 1, m);
    }
  }

  lemma MonthOfMonotone(a: int, b: int)
    requires a <= b
    ensures MonthOf(a) <= MonthOf(b)
  {
    if MonthOf(b) < MonthOf(a) {
      MonthStartIncreases(MonthOf(b) + 1, MonthOf(a));
    }
  }

  // The fields of an instant. Each level divides by one constant only.

  function MinuteIx(t: int): int { t / 60 }
  function HourIx(t: int): int { MinuteIx(t) / 60 }
  function DayIx(t: int): int { HourIx(t) / 24 }

  function Second(t: int): int { t % 60 }
  function Minute(t: int): int { MinuteIx(t) % 60 }
  function Hour(t: int): int { HourIx(t) % 24 }
  function Weekday(day: int): int { (day + 4) % 7 }
  function DayOfMonth(day: int): (d: int)
    ensures 1 <= d <= 31
  {
    MonthLenBounds(MonthOf(day));
    day - MonthStart(MonthOf(day)) + 1
  }

  function YearOf(day: int): int { MonthOf(day) / 12 }

  // ---- Every day number meets every weekday.

  /** Some month of 31 days starts `delta` weekdays after the year; one `delta` is missing in each kind of year. */
  function LongMonth(leap: bool, delta: int): (m: int)
    requires 0 <= delta < 7 && delta != if leap then 5 else 4
    ensures 0 <= m < 12 && CommonLen(m) == 31 && DaysBefore(m, leap) % 7 == delta
  {
    if leap then [0, 9, 4, 7, 2, 0, 11][delta] else [0, 4, 7, 2, 0, 11, 6][delta]
  }

  /** The years start on weekdays that are one or two apart, so of two years one has the month looked for. */
  lemma WeekdayOfYears(y: int)
    ensures Weekday(YearStart(y + 1)) == (Weekday(YearStart(y)) + if LeapYear(y) then 2 else 1) % 7
  {
    YearLength(y);
    hide YearStart, LeapYear;
  }

  /** A day on or after `d` with the given number and weekday. */
  function NextDate(d: int, q: int, w: int): (x: int)
    requires 1 <= q <= 31 && 0 <= w < 7
    ensures d <= x && DayOfMonth(x) == q && Weekday(x) == w
  {
    hide MonthOf, YearStart, LeapYear;
    var y := YearOf(d) + 1;
    var delta := (w - q + 1 - Weekday(YearStart(y))) % 7;
    WeekdayOfYears(y);
    var z := if delta == (if LeapYear(y) then 5 else 4) then y + 1 else y;
    var delta' := (w - q + 1 - Weekday(YearStart(z))) % 7;
    DateOfYear(d, z, delta', q, w);
    YearStart(z) + DaysBefore(LongMonth(LeapYear(z), delta'), LeapYear(z)) + q - 1
  }

  lemma DateOfYear(d: int, y: int, delta: int, q: int, w: int)
    requires YearOf(d) < y && 1 <= q <= 31 && 0 <= w < 7
    requires delta == (w - q + 1 - Weekday(YearStart(y))) % 7 && delta != if LeapYear(y) then 5 else 4
    ensures var x := YearStart(y) + DaysBefore(LongMonth(LeapYear(y), delta), LeapYear(y)) + q - 1;
      d <= x && DayOfMonth(x) == q && Weekday(x) == w
  {
    hide YearStart, LeapYear, MonthStart, MonthLen, DaysBefore, CommonLen, DayOfMonth, Weekday;
    var m := LongMonth(LeapYear(y), delta);
    MonthInYear(y, m);
    var k := 12 * y + m;
    var x := MonthStart(k) + q - 1;
    DayInMonth(k, q);
    InLaterYear(d, x);
    WeekdayAdds(YearStart(y), DaysBefore(m, LeapYear(y)), q, delta, w);
  }

  lemma InLaterYear(d: int, x: int)
    requires YearOf(d) < YearOf(x)
    ensures d < x
  {
    hide MonthOf;
    if x <= d {
      MonthOfMonotone(x, d);
    }
  }

  lemma MonthInYear(y: int, m: int)
    requires 0 <= m < 12
    ensures (12 * y + m) / 12 == y && (12 * y + m) % 12 == m
    ensures MonthStart(12 * y + m) == YearStart(y) + DaysBefore(m, LeapYear(y))
    ensures MonthLen(12 * y + m) == CommonLen(m) + if m == 1 && LeapYear(y) then 1 else 0
  {
    MonthLength(12 * y + m);
    hide YearStart, LeapYear, MonthLen, CommonLen;
  }

  lemma DayInMonth(k: int, q: int)
    requires 1 <= q <= MonthLen(k)
    ensures MonthOf(MonthStart(k) + q - 1) == k && DayOfMonth(MonthStart(k) + q - 1) == q
  {
    hide MonthStart;
    MonthOfUnique(MonthStart(k) + q - 1, k);
  }

  lemma WeekdayAdds(start: int, before: int, q: int, delta: int, w: int)
    requires 0 <= w < 7 && before % 7 == delta == (w - q + 1 - Weekday(start)) % 7
    ensures Weekday(start + before + q - 1) == w
  {
  }

  // ---- The calendar repeats after 400 years, which are whole weeks.

  const CYCLE_DAYS := 146097
  const CYCLE_MONTHS := 4800

  lemma By4Repeats(y: int)
    ensures By4(y + 400) == By4(y)
  {
  }

  lemma By100Repeats(y: int)
    ensures By100(y + 400) == By100(y)
  {
  }

  lemma By400Repeats(y: int)
    ensures By400(y + 400) == By400(y)
  {
  }

  lemma LeapYearRepeats(y: int)
    ensures LeapYear(y + 400) == LeapYear(y)
  {
    hide By4, By100, By400;
    By4Repeats(y);
    By100Repeats(y);
    By400Repeats(y);
  }

  lemma YearRepeats(y: int)
    ensures YearStart(y + 400) == YearStart(y) + CYCLE_DAYS
  {
    assert Quads(y + 400) == Quads(y) + 100;
    assert Centuries(y + 400) == Centuries(y) + 4;
    assert QuadCenturies(y + 400) == QuadCenturies(y) + 1;
    hide Quads, Centuries, QuadCenturies;
  }

  lemma MonthRepeats(k: int)
    ensures MonthStart(k + CYCLE_MONTHS) == MonthStart(k) + CYCLE_DAYS
  {
    assert (k + CYCLE_MONTHS) / 12 == k / 12 + 400 && (k + CYCLE_MONTHS) % 12 == k % 12;
    LeapYearRepeats(k / 12);
    YearRepeats(k / 12);
    hide LeapYear, YearStart;
  }

  lemma DayRepeats(d: int)
    ensures MonthOf(d + CYCLE_DAYS) == MonthOf(d) + CYCLE_MONTHS && YearOf(d + CYCLE_DAYS) == YearOf(d) + 400
    ensures DayOfMonth(d + CYCLE_DAYS) == DayOfMonth(d) && Weekday(d + CYCLE_DAYS) == Weekday(d)
  {
    hide MonthStart;
    var k := MonthOf(d);
    MonthRepeats(k);
    MonthRepeats(k + 1);
    assert k + 1 + CYCLE_MONTHS == k + CYCLE_MONTHS + 1;
    MonthOfUnique(d + CYCLE_DAYS, k + CYCLE_MONTHS);
  }

  function Instant(day: int, hour: int, minute: int, second: int): int {
    ((day * 24 + hour) * 60 + minute) * 60 + second
  }

  lemma InstantFields(day: int, hour: int, minute: int, second: int)
    requires 0 <= hour < 24 && 0 <= minute < 60 && 0 <= second < 60
    ensures var t := Instant(day, hour, minute, second);
      && DayIx(t) == day && Hour(t) == hour && Minute(t) == minute && Second(t) == second
  {
    var t := Instant(day, hour, minute, second);
    assert MinuteIx(t) == (day * 24 + hour) * 60 + minute;
    assert HourIx(t) == day * 24 + hour;
  }

  lemma InstantOfFields(t: int)
    ensures t == Instant(DayIx(t), Hour(t), Minute(t), Second(t))
  {
  }

  /** The calendar fields of `struct tm`; any integers before normalisation. */
  datatype Tm = Tm(sec: int, min: int, hour: int, mday: int, mon: int, year: int, wday: int)

  /** The instant that `timegm` computes; `tm_wday` is ignored. */
  function Timegm(tm: Tm): int {
    Instant(MonthStart(12 * tm.year + tm.mon) + tm.mday - 1, tm.hour, tm.min, tm.sec)
  }

  /** The broken-down time that `gmtime_r` stores for an instant. */
  function Gmtime(t: int): Tm {
    var k := MonthOf(DayIx(t));
    Tm(Second(t), Minute(t), Hour(t), DayOfMonth(DayIx(t)), k % 12, k / 12, Weekday(DayIx(t)))
  }

  lemma TimegmOfGmtime(t: int)
    ensures Timegm(Gmtime(t)) == t
  {
    hide MonthStart;
    InstantOfFields(t);
  }

  /** Fields in range are kept by normalisation: `gmtime_r` undoes `timegm`. */
  lemma GmtimeOfTimegm(tm: Tm)
    requires 0 <= tm.sec < 60 && 0 <= tm.min < 60 && 0 <= tm.hour < 24
    requires 0 <= tm.mon < 12 && 1 <= tm.mday <= MonthLen(12 * tm.year + tm.mon)
    ensures Gmtime(Timegm(tm)) == tm.(wday := Weekday(MonthStart(12 * tm.year + tm.mon) + tm.mday - 1))
  {
    var k := 12 * tm.year + tm.mon;
    var day := MonthStart(k) + tm.mday - 1;
    hide MonthStart;
    InstantFields(day, tm.hour, tm.min, tm.sec);
    MonthOfUnique(day, k);
    YearAndMonth(tm.year, tm.mon);
    hide MonthOf, MonthLen, Instant, DayIx, Hour, Minute, Second, Weekday;
  }

  lemma YearAndMonth(y: int, m: int)
    requires 0 <= m < 12
    ensures (12 * y + m) / 12 == y && (12 * y + m) % 12 == m
  {
  }
}
