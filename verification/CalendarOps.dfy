/**
 The calendar changes of `add_to_field`, `reset_min` and `set_field`: write one field of a
 normalised `struct tm`, then let `timegm` normalise it again. Stated on instants, with what each
 change means for the instant.
 */
module CalendarOps {
  import opened Gregorian
  import opened CronExpr
  import opened CronSearch

  datatype Field = SecondF | MinuteF | HourF | WeekdayF | DayF | MonthF | YearF

  function Added(tm: Tm, f: Field, val: int): Tm {
    match f
    case SecondF => tm.(sec := tm.sec + val)
    case MinuteF => tm.(min := tm.min + val)
    case HourF => tm.(hour := tm.hour + val)
    case WeekdayF => tm.(mday := tm.mday + val)
    case DayF => tm.(mday := tm.mday + val)
    case MonthF => tm.(mon := tm.mon + val)
    case YearF => tm.(year := tm.year + val)
  }

  function Assigned(tm: Tm, f: Field, val: int): Tm {
    match f
    case SecondF => tm.(sec := val)
    case MinuteF => tm.(min := val)
    case HourF => tm.(hour := val)
    case WeekdayF => tm.(wday := val)
    case DayF => tm.(mday := val)
    case MonthF => tm.(mon := val)
    case YearF => tm.(year := val)
  }

  /** The least value of a field, as `reset_min` stores it. */
  function Least(f: Field): int {
    if f == DayF then 1 else 0
  }

  function AddTo(t: int, f: Field, val: int): int { Timegm(Added(Gmtime(t), f, val)) }
  function SetTo(t: int, f: Field, val: int): int { Timegm(Assigned(Gmtime(t), f, val)) }
  function Reset(t: int, f: Field): int { SetTo(t, f, Least(f)) }

  function ResetAll(t: int, fields: seq<Field>): int
    decreases |fields|
  {
    if fields == [] then t else ResetAll(Reset(t, fields[0]), fields[1..])
  }

  /** Carry into the next field, then set the field. */
  function Rolled(t: int, field: Field, next: Field, val: int): int {
    SetTo(Reset(AddTo(t, next, 1), field), field, val)
  }

  /** What `find_next` does to an instant whose `field` is `value`, not in the set. */
  function Moved(bits: set<int>, max: int, value: int, t: int, field: Field, next: Field, lower: seq<Field>): int
    requires 0 <= value < max && Fits(bits, 0, max)
  {
    var n := NextBit(bits, max, value);
    ResetAll(if n < max then SetTo(t, field, n) else Rolled(t, field, next, FirstBit(bits, 0, max)), lower)
  }

  // ---- Each change as arithmetic on the instant.

  lemma SetSecond(t: int, n: int)
    ensures SetTo(t, SecondF, n) == t + n - Second(t)
  {
    hide MonthStart, MonthOf, Weekday, DayOfMonth, DayIx, Hour, Minute, Second;
    TimegmOfGmtime(t);
  }

  lemma SetMinute(t: int, n: int)
    ensures SetTo(t, MinuteF, n) == t + 60 * (n - Minute(t))
  {
    hide MonthStart, MonthOf, Weekday, DayOfMonth, DayIx, Hour, Minute, Second;
    TimegmOfGmtime(t);
  }

  lemma SetHour(t: int, n: int)
    ensures SetTo(t, HourF, n) == t + 3600 * (n - Hour(t))
  {
    hide MonthStart, MonthOf, Weekday, DayOfMonth, DayIx, Hour, Minute, Second;
    TimegmOfGmtime(t);
  }

  lemma SetDay(t: int, n: int)
    ensures SetTo(t, DayF, n) == t + 86400 * (n - DayOfMonth(DayIx(t)))
  {
    hide MonthStart, MonthOf, Weekday, DayIx, Hour, Minute, Second;
    TimegmOfGmtime(t);
  }

  lemma AddClock(t: int, n: int)
    ensures AddTo(t, SecondF, n) == t + n
    ensures AddTo(t, MinuteF, n) == t + 60 * n
    ensures AddTo(t, HourF, n) == t + 3600 * n
    ensures AddTo(t, DayF, n) == AddTo(t, WeekdayF, n) == t + 86400 * n
  {
    hide MonthStart, MonthOf, Weekday, DayOfMonth, DayIx, Hour, Minute, Second;
    TimegmOfGmtime(t);
  }

  lemma Parts(u: int, s: int)
    requires 0 <= s < 60
    ensures MinuteIx(60 * u + s) == u && Second(60 * u + s) == s
    ensures Minute(60 * u + s) == u % 60 && HourIx(60 * u + s) == HourOf(u)
    ensures Hour(60 * u + s) == HourOf(u) % 24 && DayIx(60 * u + s) == DayOf(u)
  {
  }

  function Maybe(c: bool, f: Field): seq<Field> { if c then [f] else [] }

  /** A reset list: in order, those of second, minute, hour and day that are on it. */
  function Kept(second: bool, minute: bool, hour: bool, day: bool): seq<Field> {
    Maybe(second, SecondF) + Maybe(minute, MinuteF) + Maybe(hour, HourF) + Maybe(day, DayF)
  }

  /** The first minute of the hour, day or month that holds minute `u`. */
  function Floor(u: int, level: nat): int
    requires level <= 3
  {
    match level
    case 0 => u
    case 1 => 60 * HourOf(u)
    case 2 => 1440 * DayOf(u)
    case 3 => 1440 * MonthStart(MonthOf(DayOf(u)))
  }

  lemma {:induction false} ResetAllConcat(t: int, a: seq<Field>, b: seq<Field>)
    ensures ResetAll(t, a + b) == ResetAll(ResetAll(t, a), b)
    decreases |a|
  {
    if a == [] {
      assert [] + b == b;
    } else {
      assert (a + b)[1..] == a[1..] + b;
      ResetAllConcat(Reset(t, a[0]), a[1..], b);
    }
  }

  lemma ResetMaybe(t: int, c: bool, f: Field)
    ensures ResetAll(t, Maybe(c, f)) == if c then Reset(t, f) else t
  {
    hide Reset;
    assert Maybe(true, f)[1..] == [];
  }

  /** A minute or hour that is already zero need not be on the list. */
  predicate Clears(u: int, level: nat, minute: bool, hour: bool) {
    && level <= 3
    && (if 1 <= level then minute || u % 60 == 0 else !minute)
    && (if 2 <= level then hour || HourOf(u) % 24 == 0 else !hour)
  }

  /** Resetting the listed fields below a level goes to its start; the second stays when it is not listed. */
  lemma ResetKept(second: bool, minute: bool, hour: bool, level: nat, u: int, s: int)
    requires 0 <= s < 60 && Clears(u, level, minute, hour)
    ensures ResetAll(60 * u + s, Kept(second, minute, hour, level == 3))
      == 60 * Floor(u, level) + if second then 0 else s
  {
    hide Reset, Maybe, MonthStart, MonthOf, Floor;
    var c := if second then 0 else s;
    var t := 60 * u + s;
    var a, b, h, d := Maybe(second, SecondF), Maybe(minute, MinuteF), Maybe(hour, HourF), Maybe(level == 3, DayF);
    ResetAllConcat(t, a + b + h, d);
    ResetAllConcat(t, a + b, h);
    ResetAllConcat(t, a, b);
    ResetSecondOf(second, u, s);
    ResetThree(minute, hour, level, u, c);
    ResetMaybe(60 * u + c, minute, MinuteF);
    ResetMaybe(if minute then Reset(60 * u + c, MinuteF) else 60 * u + c, hour, HourF);
    ResetMaybe(60 * Floor(u, if level == 3 then 2 else level) + c, level == 3, DayF);
    ResetLastDay(level, u, c);
  }

  lemma ResetSecondOf(second: bool, u: int, s: int)
    requires 0 <= s < 60
    ensures ResetAll(60 * u + s, Maybe(second, SecondF)) == 60 * u + if second then 0 else s
  {
    hide SetTo, Second, Maybe;
    ResetMaybe(60 * u + s, second, SecondF);
    Parts(u, s);
    SetSecond(60 * u + s, 0);
  }

  lemma ResetThree(minute: bool, hour: bool, level: nat, u: int, c: int)
    requires 0 <= c < 60 && Clears(u, level, minute, hour)
    ensures var t1 := if minute then Reset(60 * u + c, MinuteF) else 60 * u + c;
      (if hour then Reset(t1, HourF) else t1) == 60 * Floor(u, if level == 3 then 2 else level) + c
  {
    hide Reset, MonthStart, MonthOf;
    if minute { ResetMinuteOf(u, c); }
    assert 1 <= level ==> (if minute then Reset(60 * u + c, MinuteF) else 60 * u + c) == 3600 * HourOf(u) + c;
    if hour { ResetHourOf(HourOf(u), c); }
  }

  lemma ResetLastDay(level: nat, u: int, c: int)
    requires 0 <= c < 60 && level <= 3
    ensures var t := 60 * Floor(u, if level == 3 then 2 else level) + c;
      (if level == 3 then Reset(t, DayF) else t) == 60 * Floor(u, level) + c
  {
    hide Reset, MonthStart, MonthOf;
    ResetDayOf(DayOf(u), c);
  }

  lemma ResetMinuteOf(u: int, s: int)
    requires 0 <= s < 60
    ensures Reset(60 * u + s, MinuteF) == 3600 * HourOf(u) + s
  {
    hide SetTo, Minute;
    Parts(u, s);
    SetMinute(60 * u + s, 0);
  }

  lemma ResetHourOf(h: int, s: int)
    requires 0 <= s < 60
    ensures Reset(3600 * h + s, HourF) == 86400 * (h / 24) + s
  {
    hide SetTo, Hour;
    Parts(60 * h, s);
    SetHour(3600 * h + s, 0);
  }

  lemma ResetDayOf(d: int, s: int)
    requires 0 <= s < 60
    ensures Reset(86400 * d + s, DayF) == 86400 * MonthStart(MonthOf(d)) + s
  {
    hide SetTo, MonthStart, MonthOf, DayIx;
    Parts(1440 * d, s);
    assert DayOf(1440 * d) == d;
    SetDay(86400 * d + s, 1);
  }

  // ---- Each use of `find_next` moves its field to the next listed value and resets what lies below.

  lemma NextIndexBySearch(bits: set<int>, m: int, v: int)
    requires Fits(bits, 0, m) && v % m !in bits
    ensures var n := NextBit(bits, m, v % m);
      NextIndex(bits, m, v) == v - v % m + if n < m then n else m + FirstBit(bits, 0, m)
  {
    assert NextBit(bits, m, v % m) == NextBit(bits, m, v % m + 1);
  }

  lemma RolledSecond(u: int, s: int, n: int)
    requires 0 <= s < 60
    ensures Rolled(60 * u + s, SecondF, MinuteF, n) == 60 * (u + 1) + n
  {
    hide SetTo, AddTo, Second;
    AddClock(60 * u + s, 1);
    Parts(u + 1, s);
    SetSecond(60 * (u + 1) + s, 0);
    Parts(u + 1, 0);
    SetSecond(60 * (u + 1), n);
  }

  lemma NextHourOf(u: int)
    ensures HourOf(u + 60) == HourOf(u) + 1
  {
  }

  lemma RolledMinute(u: int, s: int, n: int)
    requires 0 <= s < 60
    ensures Rolled(60 * u + s, MinuteF, HourF, n) == 60 * (60 * HourOf(u) + 60 + n) + s
  {
    hide SetTo, AddTo, Minute, HourOf, Hour, DayOf, DayIx, HourIx, MinuteIx, Second;
    AddClock(60 * u + s, 1);
    ResetMinuteOf(u + 60, s);
    var h := HourOf(u) + 1;
    NextHourOf(u);
    Parts(60 * h, s);
    SetMinute(60 * (60 * h) + s, n);
  }

  lemma RolledHour(u: int, s: int, n: int)
    requires 0 <= s < 60
    ensures Rolled(60 * u + s, HourF, WeekdayF, n) == 60 * (1440 * DayOf(u) + 1440 + 60 * n + u % 60) + s
  {
    hide SetTo, AddTo, Hour;
    AddClock(60 * u + s, 1);
    var v := u + 1440;
    assert HourOf(v) == HourOf(u) + 24;
    Parts(v, s);
    SetHour(60 * v + s, 0);
    var w := v - 60 * (HourOf(u) % 24);
    assert HourOf(w) == 24 * (DayOf(u) + 1) && w % 60 == u % 60;
    Parts(w, s);
    SetHour(60 * w + s, n);
  }

  lemma MovedSecond(e: Expr, t: int)
    requires WellFormed(e)
    ensures Second(t) in e.seconds ==> FirstInstant(e, t) == t
    ensures Second(t) !in e.seconds
      ==> Moved(e.seconds, 60, Second(t), t, SecondF, MinuteF, []) == FirstInstant(e, t)
  {
    hide SetTo, AddTo, Rolled;
    assert t == 60 * MinuteIx(t) + Second(t);
    SetSecond(t, NextBit(e.seconds, 60, Second(t)));
    RolledSecond(MinuteIx(t), Second(t), FirstBit(e.seconds, 0, 60));
  }

  lemma MovedMinute(e: Expr, u: int, s: int, second: bool)
    requires WellFormed(e) && !MinuteOk(e, u) && 0 <= s < 60
    ensures Moved(e.minutes, 60, u % 60, 60 * u + s, MinuteF, HourF, Kept(second, false, false, false))
      == 60 * NextIndex(e.minutes, 60, u) + if second then 0 else s
  {
    hide SetTo, Rolled, Minute, NextIndex, Kept, ResetAll;
    NextIndexBySearch(e.minutes, 60, u);
    Parts(u, s);
    SetMinute(60 * u + s, NextBit(e.minutes, 60, u % 60));
    RolledMinute(u, s, FirstBit(e.minutes, 0, 60));
    ResetKept(second, false, false, 0, NextIndex(e.minutes, 60, u), s);
  }

  lemma HourParts(u: int, s: int, t: int, d: int, q: int, r: int)
    requires 0 <= s < 60 && t == 60 * u + s && d == DayOf(u) && q == HourOf(u) % 24 && r == u % 60
    ensures Hour(t) == q && u == 60 * (24 * d + q) + r && HourOf(u) == 24 * d + q
  {
    Parts(u, s);
  }

  lemma HourSet(u: int, s: int, t: int, q: int, r: int, n: int)
    requires 0 <= s < 60 && t == 60 * u + s && q == HourOf(u) % 24 && r == u % 60
    ensures SetTo(t, HourF, n) == 60 * (60 * (HourOf(u) - q + n) + r) + s
  {
    hide *;
    HourParts(u, s, t, DayOf(u), q, r);
    SetHour(t, n);
  }

  lemma HourRolled(u: int, s: int, t: int, q: int, r: int, n: int)
    requires 0 <= s < 60 && t == 60 * u + s && q == HourOf(u) % 24 && r == u % 60
    ensures Rolled(t, HourF, WeekdayF, n) == 60 * (60 * (HourOf(u) - q + 24 + n) + r) + s
  {
    hide *;
    HourParts(u, s, t, DayOf(u), q, r);
    RolledHour(u, s, n);
  }

  /** Hour `q` becomes the next listed one, the minute and the second being as before. */
  lemma HourLands(e: Expr, u: int, s: int, t: int, q: int, r: int, n: int)
    requires WellFormed(e) && q !in e.hours && 0 <= q < 24 && n == NextBit(e.hours, 24, q)
    requires 0 <= s < 60 && t == 60 * u + s && q == HourOf(u) % 24 && r == u % 60
    ensures (if n < 24 then SetTo(t, HourF, n) else Rolled(t, HourF, WeekdayF, FirstBit(e.hours, 0, 24)))
      == 60 * (60 * NextIndex(e.hours, 24, HourOf(u)) + r) + s
  {
    hide SetTo, Rolled, HourOf;
    NextIndexBySearch(e.hours, 24, HourOf(u));
    hide NextIndex, NextBit, FirstBit;
    HourSet(u, s, t, q, r, n);
    HourRolled(u, s, t, q, r, FirstBit(e.hours, 0, 24));
  }

  lemma MovedHour(e: Expr, u: int, s: int, second: bool, minute: bool)
    requires WellFormed(e) && !HourOk(e, HourOf(u)) && 0 <= s < 60 && (minute || u % 60 == 0)
    ensures Moved(e.hours, 24, HourOf(u) % 24, 60 * u + s, HourF, WeekdayF, Kept(second, minute, false, false))
      == 3600 * NextIndex(e.hours, 24, HourOf(u)) + if second then 0 else s
  {
    hide SetTo, Rolled, Hour, HourOf, NextIndex, Kept, ResetAll, Floor;
    var w, r := NextIndex(e.hours, 24, HourOf(u)), u % 60;
    HourLands(e, u, s, 60 * u + s, HourOf(u) % 24, r, NextBit(e.hours, 24, HourOf(u) % 24));
    var v := 60 * w + r;
    StartOfHour(w, r, v);
    ResetKept(second, minute, false, 1, v, s);
  }

  lemma StartOfHour(h: int, r: int, u: int)
    requires u == 60 * h + r && 0 <= r < 60
    ensures Floor(u, 1) == 60 * h && u % 60 == r
  {
  }

  lemma SetMonth(t: int, n: int)
    ensures var k := MonthOf(DayIx(t));
      SetTo(t, MonthF, n) == t + 86400 * (MonthStart(k - k % 12 + n) - MonthStart(k))
  {
    hide MonthStart, MonthOf;
    TimegmOfGmtime(t);
    var k := MonthOf(DayIx(t));
    assert 12 * (k / 12) + n == k - k % 12 + n;
  }

  lemma AddYear(t: int)
    ensures var k := MonthOf(DayIx(t));
      AddTo(t, YearF, 1) == t + 86400 * (MonthStart(k + 12) - MonthStart(k))
  {
    hide MonthStart, MonthOf;
    TimegmOfGmtime(t);
    var k := MonthOf(DayIx(t));
    assert 12 * (k / 12 + 1) + k % 12 == k + 12;
  }

  /** A day number too large for a month overflows into the month after it. */
  lemma MonthOfOverflow(k: int, q: int)
    requires 1 <= q <= 31
    ensures MonthOf(MonthStart(k) + q - 1) == if q <= MonthLen(k) then k else k + 1
    ensures DayOfMonth(MonthStart(k) + q - 1) == if q <= MonthLen(k) then q else q - MonthLen(k)
  {
    hide MonthStart;
    MonthLenBounds(k);
    MonthLenBounds(k + 1);
    MonthOfUnique(MonthStart(k) + q - 1, if q <= MonthLen(k) then k else k + 1);
  }

  lemma JanuaryIsLong(k: int)
    requires k % 12 == 0
    ensures MonthLen(k) == 31
  {
    MonthLength(k);
    hide MonthStart;
  }

  /** Twelve months later only 29 February can be missing. */
  lemma SameMonthNextYear(k: int)
    requires k % 12 != 1
    ensures MonthLen(k + 12) == MonthLen(k)
  {
    MonthLength(k);
    MonthLength(k + 12);
    hide MonthStart;
  }

  lemma ShiftDays(u: int, n: int)
    ensures DayOf(u + 1440 * n) == DayOf(u) + n && SameClock(u, u + 1440 * n)
  {
    assert HourOf(u + 1440 * n) == HourOf(u) + 24 * n;
  }

  predicate SameClock(u: int, v: int) { v % 60 == u % 60 && HourOf(v) % 24 == HourOf(u) % 24 }

  /** A change of month within the year. */
  lemma SetMonthLands(u: int, s: int, n: int) returns (v: int)
    requires 0 <= s < 60
    ensures var d := DayOf(u); var k := MonthOf(d);
      && SetTo(60 * u + s, MonthF, n) == 60 * v + s && SameClock(u, v)
      && DayOf(v) == MonthStart(k - k % 12 + n) + DayOfMonth(d) - 1
  {
    var d := DayOf(u);
    var k := MonthOf(d);
    hide MonthStart, MonthOf, SetTo, DayIx, DayOf;
    var shift := MonthStart(k - k % 12 + n) - MonthStart(k);
    Parts(u, s);
    SetMonth(60 * u + s, n);
    v := u + 1440 * shift;
    ShiftDays(u, shift);
  }

  lemma AddYearLands(u: int, s: int) returns (v: int)
    requires 0 <= s < 60
    ensures var d := DayOf(u); var k := MonthOf(d);
      && AddTo(60 * u + s, YearF, 1) == 60 * v + s && SameClock(u, v)
      && DayOf(v) == MonthStart(k + 12) + DayOfMonth(d) - 1
  {
    var d := DayOf(u);
    var k := MonthOf(d);
    hide MonthStart, MonthOf, AddTo, DayIx, DayOf;
    var shift := MonthStart(k + 12) - MonthStart(k);
    Parts(u, s);
    AddYear(60 * u + s);
    v := u + 1440 * shift;
    ShiftDays(u, shift);
  }

  lemma OverflowIsFebruary(d: int)
    ensures DayOfMonth(d) <= MonthLen(MonthOf(d) + 12) || MonthOf(d) % 12 == 1
  {
    hide MonthStart, MonthOf;
    if MonthOf(d) % 12 != 1 {
      SameMonthNextYear(MonthOf(d));
    }
  }

  lemma YearAfter(k: int, q: int)
    requires 1 <= q <= 31
    ensures var k1 := if q <= MonthLen(k + 12) then k + 12 else k + 13; k1 - k1 % 12 == k - k % 12 + 12
  {
    var z, m := k / 12, k % 12;
    MonthLength(k + 12);
    Residue(k + 12, 12, z + 1, 12 * (z + 1));
    if m < 11 {
      Residue(k + 13, 12, z + 1, 12 * (z + 1));
    }
    hide MonthStart, MonthLen, LeapYear;
  }

  /** A change of month into the next year: the year first, then January, then the month. */
  lemma RolledMonthLands(u: int, s: int, n: int) returns (v: int, q: int)
    requires 0 <= s < 60
    ensures var d := DayOf(u); var k := MonthOf(d);
      && Rolled(60 * u + s, MonthF, YearF, n) == 60 * v + s && SameClock(u, v)
      && DayOf(v) == MonthStart(k - k % 12 + 12 + n) + q - 1 && 1 <= q <= 31
      && (q == DayOfMonth(d) || k % 12 == 1)
  {
    hide MonthStart, MonthLen, MonthOf, SetTo, AddTo, DayOf, DayOfMonth;
    var d := DayOf(u);
    var k := MonthOf(d);
    var j := k - k % 12 + 12;
    var q0 := DayOfMonth(d);
    var v1 := AddYearLands(u, s);
    MonthOfOverflow(k + 12, q0);
    MonthLenBounds(k + 12);
    YearAfter(k, q0);
    q := if q0 <= MonthLen(k + 12) then q0 else q0 - MonthLen(k + 12);
    OverflowIsFebruary(d);
    var v2 := SetMonthLands(v1, s, 0);
    assert j % 12 == 0;
    JanuaryIsLong(j);
    MonthOfOverflow(j, q);
    v := SetMonthLands(v2, s, n);
  }

  /** Where a change of month lands before the lower fields are reset. */
  lemma MonthLands(e: Expr, u: int, s: int) returns (v: int)
    requires WellFormed(e) && !MonthOk(e, MonthOf(DayOf(u))) && 0 <= s < 60
    ensures Moved(e.months, 12, MonthOf(DayOf(u)) % 12, 60 * u + s, MonthF, YearF, []) == 60 * v + s && SameClock(u, v)
    ensures MonthStart(MonthOf(DayOf(v))) == MonthTarget(e, DayOf(u))
  {
    hide MonthStart, MonthLen, MonthOf, SetTo, Rolled, DayOf, NextIndex, DayOfMonth;
    var d := DayOf(u);
    var k := MonthOf(d);
    var n, first := NextBit(e.months, 12, k % 12), FirstBit(e.months, 0, 12);
    NextIndexBySearch(e.months, 12, k);
    var l, q: int;
    if n < 12 {
      l, q := k - k % 12 + n, DayOfMonth(d);
      v := SetMonthLands(u, s, n);
    } else {
      l := k - k % 12 + 12 + first;
      v, q := RolledMonthLands(u, s, first);
      if k % 12 == 1 {
        RollFromFebruary(e, first);
        JanuaryIsLong(l);
      }
    }
    MonthOfOverflow(l, q);
  }

  lemma RollFromFebruary(e: Expr, first: int)
    requires WellFormed(e) && 1 !in e.months && NextBit(e.months, 12, 1) == 12 && first == FirstBit(e.months, 0, 12)
    ensures first == 0
  {
  }

  lemma MovedMonth(e: Expr, u: int, s: int, second: bool, minute: bool, hour: bool)
    requires WellFormed(e) && !MonthOk(e, MonthOf(DayOf(u))) && 0 <= s < 60 && Clears(u, 3, minute, hour)
    ensures Moved(e.months, 12, MonthOf(DayOf(u)) % 12, 60 * u + s, MonthF, YearF, Kept(second, minute, hour, true))
      == 86400 * MonthTarget(e, DayOf(u)) + if second then 0 else s
  {
    hide MonthStart, MonthOf, SetTo, Rolled, DayOf, Kept, HourOf, MonthTarget;
    var v := MonthLands(e, u, s);
    ResetKept(second, minute, hour, 3, v, s);
  }

  // ---- From the epoch on no change reaches the invalid instant -1.

  lemma TimeFloors(t: int)
    requires 0 <= t
    ensures Second(t) <= t && 60 * Minute(t) <= t && 3600 * Hour(t) <= t && 86400 * DayIx(t) <= t
  {
  }

  lemma SetNonNegative(t: int, f: Field, n: int)
    requires 0 <= t && Least(f) <= n && f != YearF
    ensures 0 <= SetTo(t, f, n)
  {
    hide MonthStart, SetTo, MonthOf, Second, Minute, Hour, DayIx;
    TimeFloors(t);
    var k := MonthOf(DayIx(t));
    EpochMonth(t);
    match f
    case SecondF => SetSecond(t, n);
    case MinuteF => SetMinute(t, n);
    case HourF => SetHour(t, n);
    case DayF => SetDay(t, n);
    case WeekdayF => WeekdayIsIgnored(t, n);
    case MonthF =>
      SetMonth(t, n);
      MonthStartIncreases(EPOCH_MONTH, k - k % 12 + n);
  }

  lemma WeekdayIsIgnored(t: int, n: int)
    ensures SetTo(t, WeekdayF, n) == t
  {
    hide MonthStart, MonthOf, Weekday, DayOfMonth;
    TimegmOfGmtime(t);
  }

  lemma EpochIsZero()
    ensures MonthStart(EPOCH_MONTH) == 0
  {
  }

  lemma EpochMonth(t: int)
    requires 0 <= t
    ensures EPOCH_MONTH <= MonthOf(DayIx(t)) && 0 <= MonthStart(MonthOf(DayIx(t))) && MonthStart(EPOCH_MONTH) == 0
  {
    hide MonthStart;
    EpochIsZero();
    var k := MonthOf(DayIx(t));
    if k < EPOCH_MONTH {
      MonthStartIncreases(k + 1, EPOCH_MONTH);
    }
    MonthStartIncreases(EPOCH_MONTH, k);
  }

  lemma AddNonNegative(t: int, f: Field)
    requires 0 <= t && f in {MinuteF, HourF, WeekdayF, DayF, YearF, SecondF}
    ensures 0 <= AddTo(t, f, 1)
  {
    hide MonthStart, AddTo, MonthOf;
    AddClock(t, 1);
    AddYear(t);
    var k := MonthOf(DayIx(t));
    MonthStartIncreases(k, k + 12);
  }
}
