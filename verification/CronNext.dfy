/**
 `do_next` and `cron_next` as they run: a calendar whose fields are changed in place and
 normalised by `timegm` after every change, proved to compute the search on instants.
 */
module CronNext {
  import opened Gregorian
  import opened Wrappers
  import opened CronExpr
  import opened CronSearch
  import opened CronMoves
  import opened CronSound
  import opened CronExact
  import opened CalendarOps

  const INVALID_INSTANT := -1

  /** `struct tm`. */
  class Calendar {
    var sec: int
    var min: int
    var hour: int
    var mday: int
    var mon: int
    var year: int
    var wday: int

    function Value(): Tm
      reads this
    {
      Tm(sec, min, hour, mday, mon, year, wday)
    }

    function Now(): int
      reads this
    {
      Timegm(Value())
    }

    /** The fields are those of an instant. */
    predicate Normal()
      reads this
    {
      Value() == Gmtime(Now())
    }

    /** `cron_time` (`gmtime_r`). */
    constructor (date: int)
      ensures Normal() && Now() == date
    {
      var tm := Gmtime(date);
      sec, min, hour, mday, mon, year, wday := tm.sec, tm.min, tm.hour, tm.mday, tm.mon, tm.year, tm.wday;
      TimegmOfGmtime(date);
    }

    /** `cron_mktime` (`timegm`): the instant, and the fields normalised. */
    method Mktime() returns (t: int)
      modifies this
      ensures Normal() && t == Now() == old(Now())
    {
      hide Timegm, Gmtime;
      t := Now();
      var tm := Gmtime(t);
      sec, min, hour, mday, mon, year, wday := tm.sec, tm.min, tm.hour, tm.mday, tm.mon, tm.year, tm.wday;
      TimegmOfGmtime(t);
    }

    method AddToField(field: Field, val: int) returns (err: bool)
      requires Normal()
      modifies this
      ensures Normal() && Now() == AddTo(old(Now()), field, val)
      ensures err == (Now() == INVALID_INSTANT)
    {
      hide Timegm, Gmtime;
      match field {
        case SecondF => sec := sec + val;
        case MinuteF => min := min + val;
        case HourF => hour := hour + val;
        case WeekdayF => mday := mday + val;
        case DayF => mday := mday + val;
        case MonthF => mon := mon + val;
        case YearF => year := year + val;
      }
      var res := Mktime();
      err := res == INVALID_INSTANT;
    }

    method SetField(field: Field, val: int) returns (err: bool)
      requires Normal()
      modifies this
      ensures Normal() && Now() == SetTo(old(Now()), field, val)
      ensures err == (Now() == INVALID_INSTANT)
    {
      hide Timegm, Gmtime;
      match field {
        case SecondF => sec := val;
        case MinuteF => min := val;
        case HourF => hour := val;
        case WeekdayF => wday := val;
        case DayF => mday := val;
        case MonthF => mon := val;
        case YearF => year := val;
      }
      var res := Mktime();
      err := res == INVALID_INSTANT;
    }

    method ResetMin(field: Field) returns (err: bool)
      requires Normal()
      modifies this
      ensures Normal() && Now() == Reset(old(Now()), field)
      ensures err == (Now() == INVALID_INSTANT)
    {
      hide Timegm, Gmtime;
      match field {
        case SecondF => sec := 0;
        case MinuteF => min := 0;
        case HourF => hour := 0;
        case WeekdayF => wday := 0;
        case DayF => mday := 1;
        case MonthF => mon := 0;
        case YearF => year := 0;
      }
      var res := Mktime();
      err := res == INVALID_INSTANT;
    }

    method ResetAllMin(fields: seq<Field>) returns (err: bool)
      requires Normal() && 0 <= Now() && YearF !in fields
      modifies this
      ensures Normal() && !err && 0 <= Now() && Now() == ResetAll(old(Now()), fields)
    {
      hide Normal, Now, Reset;
      var i := 0;
      while i < |fields|
        invariant 0 <= i <= |fields| && Normal() && 0 <= Now()
        invariant ResetAll(Now(), fields[i..]) == ResetAll(old(Now()), fields)
      {
        ResetNonNegative(Now(), fields[i]);
        err := ResetMin(fields[i]);
        if err {
          return;
        }
        assert fields[i..][0] == fields[i] && fields[i..][1..] == fields[i + 1..];
        i := i + 1;
      }
      assert fields[i..] == [];
      return false;
    }

    /**
     Keeps a listed value; otherwise moves to the next listed one, with a carry into `next` when
     there is none left, and resets the fields in `lower`.
     */
    method FindNext(bits: set<int>, max: int, value: int, field: Field, next: Field, lower: seq<Field>)
      returns (r: int, err: bool)
      requires Normal() && 0 <= Now() && Fits(bits, 0, max) && 0 <= value < max
      requires next in {MinuteF, HourF, WeekdayF, YearF} && field in {SecondF, MinuteF, HourF, MonthF}
      requires YearF !in lower
      modifies this
      ensures Normal() && !err && 0 <= Now() && r in bits
      ensures value in bits ==> r == value && Now() == old(Now())
      ensures value !in bits ==> Now() == Moved(bits, max, value, old(Now()), field, next, lower)
    {
      hide Normal, Now, Reset, AddTo, SetTo;
      var notfound := false;
      r, notfound := NextSetBit(bits, max, value);
      if notfound {
        AddNonNegative(Now(), next);
        err := AddToField(next, 1);
        if err { return; }
        ResetNonNegative(Now(), field);
        err := ResetMin(field);
        if err { return; }
        r, notfound := NextSetBit(bits, max, 0);
      }
      if notfound || r != value {
        SetNonNegative(Now(), field, r);
        err := SetField(field, r);
        if err { return; }
        err := ResetAllMin(lower);
        if err { return; }
      }
      err := false;
    }

    /** Scans forward day by day, at most 366 times, and returns the day number where it stops. */
    method FindNextDay(e: Expr, dayOfMonth: int, dayOfWeek: int, resets: seq<Field>) returns (r: int, err: bool)
      requires Normal() && 0 <= Now()
      requires DayOk(e, DayIx(Now())) || ClearsDay(Now(), resets)
      requires dayOfMonth == DayOfMonth(DayIx(Now())) && dayOfWeek == Weekday(DayIx(Now()))
      modifies this
      ensures Normal() && !err && 0 <= Now()
      ensures var d := old(DayIx(Now())); var x := Scan(e, d);
        && r == DayOfMonth(x)
        && Now() == if x == d then old(Now()) else 86400 * x + if SecondF in resets then 0 else old(Second(Now()))
    {
      hide Now, Normal, AddTo, ResetAll, Scanning, ClearsDay, DayOk, Scan, MonthOf, DayIx, DayOfMonth, Weekday, Second;
      var count, max := 0, SCAN_DAYS;
      var dom, dow := dayOfMonth, dayOfWeek;
      ghost var start := Now();
      ScanBegins(e, start, resets, dom, dow);
      while !(dom in e.daysOfMonth && dow in e.daysOfWeek) && count < max
        invariant 0 <= count <= max && Normal() && 0 <= Now()
        invariant Scanning(e, start, resets, count, dom, dow, Now())
      {
        ScanGoesOn(e, start, resets, count, dom, dow, Now());
        count := count + 1;
        err := AddToField(DayF, 1);
        if err { return; }
        NowFields();
        dom := mday;
        dow := wday;
        err := ResetAllMin(resets);
      }
      ScanEnds(e, start, resets, count, dom, dow, Now());
      r, err := dom, false;
    }

    /** The minute of `do_next`: kept, or moved and the round made again from there. */
    method SettleMinute(e: Expr, dot: int, ghost second: bool, resets: seq<Field>)
      returns (res: int, resets': seq<Field>)
      requires WellFormed(e) && Normal() && 0 <= Now() && Fresh(e, Now(), 0) && Listed(e, Now(), resets, second, 0)
      modifies this
      ensures Normal() && 0 <= Now()
      ensures res != 0 ==> AtMinute(e, old(Now()), second, dot) == None
      ensures res == 0 ==>
        && At(e, Now(), 1) && Listed(e, Now(), resets', second, 1)
        && NotBehind(e, dot, Now(), old(Now()), MinuteIx(old(Now())))
        && AtMinute(e, old(Now()), second, dot) == AtHour(e, Now(), second, dot)
      decreases MonthsLeft(Now(), dot), Gap(e, MinuteIx(Now())), 3
    {
      hide *;
      NowFields();
      ghost var now := Now();
      MinuteStage(e, now, second, dot, resets);
      var err;
      res, resets' := 0, resets;
      var minute, updateMinute := min, 0;
      updateMinute, err := FindNext(e.minutes, 60, minute, MinuteF, HourF, resets);
      if err { return 1, resets; }
      if minute == updateMinute {
        resets' := Push(resets, MinuteF);
      } else {
        res := DoNext(e, dot);
        AfterMinute(e, now, second, dot, resets);
      }
    }

    /** The hour of `do_next`. */
    method SettleHour(e: Expr, dot: int, ghost second: bool, resets: seq<Field>) returns (res: int, resets': seq<Field>)
      requires WellFormed(e) && Normal() && 0 <= Now() && At(e, Now(), 1) && Listed(e, Now(), resets, second, 1)
      modifies this
      ensures Normal() && 0 <= Now()
      ensures res != 0 ==> AtHour(e, old(Now()), second, dot) == None
      ensures res == 0 ==>
        && At(e, Now(), 2) && Listed(e, Now(), resets', second, 2)
        && NotBehind(e, dot, Now(), old(Now()), MinuteIx(old(Now())))
        && AtHour(e, old(Now()), second, dot) == AtDay(e, Now(), second, dot)
      decreases MonthsLeft(Now(), dot), Gap(e, MinuteIx(Now())), 2
    {
      hide *;
      NowFields();
      ghost var now := Now();
      HourStage(e, now, second, dot, resets);
      var err;
      res, resets' := 0, resets;
      var hour, updateHour := this.hour, 0;
      updateHour, err := FindNext(e.hours, 24, hour, HourF, WeekdayF, resets);
      if err { return 1, resets; }
      if hour == updateHour {
        resets' := Push(resets, HourF);
      } else {
        res := DoNext(e, dot);
        AfterHour(e, now, second, dot, resets);
      }
    }

    /** The day of `do_next`: day of month and day of week together. */
    method SettleDay(e: Expr, dot: int, ghost second: bool, resets: seq<Field>) returns (res: int, resets': seq<Field>)
      requires WellFormed(e) && Normal() && 0 <= Now() && At(e, Now(), 2) && Listed(e, Now(), resets, second, 2)
      modifies this
      ensures Normal() && 0 <= Now()
      ensures res != 0 ==> AtDay(e, old(Now()), second, dot) == None
      ensures res == 0 ==>
        && At(e, Now(), 3) && Listed(e, Now(), resets', second, 3)
        && NotBehind(e, dot, Now(), old(Now()), MinuteIx(old(Now())))
        && AtDay(e, old(Now()), second, dot) == AtMonth(e, Now(), second, dot)
      decreases MonthsLeft(Now(), dot), Gap(e, MinuteIx(Now())), 1
    {
      hide *;
      NowFields();
      ghost var now := Now();
      DayStage(e, now, second, dot, resets);
      var err;
      res, resets' := 0, resets;
      var dayOfWeek, dayOfMonth, updateDayOfMonth := wday, mday, 0;
      updateDayOfMonth, err := FindNextDay(e, dayOfMonth, dayOfWeek, resets);
      if err { return 1, resets; }
      if dayOfMonth == updateDayOfMonth {
        resets' := Push(resets, DayF);
      } else {
        res := DoNext(e, dot);
        AfterDay(e, now, second, dot, resets);
      }
    }

    /** The month of `do_next`, which gives up more than four years after `dot`. */
    method SettleMonth(e: Expr, dot: int, ghost second: bool, resets: seq<Field>) returns (res: int)
      requires WellFormed(e) && Normal() && 0 <= Now() && At(e, Now(), 3) && Listed(e, Now(), resets, second, 3)
      modifies this
      ensures Normal() && 0 <= Now()
      ensures AtMonth(e, old(Now()), second, dot) == if res == 0 then Some(Now()) else None
      decreases MonthsLeft(Now(), dot), Gap(e, MinuteIx(Now())), 0
    {
      hide *;
      NowFields();
      MonthStage(e, Now(), second, dot, resets);
      var month, updateMonth := mon, 0;
      var err;
      updateMonth, err := FindNext(e.months, 12, month, MonthF, YearF, resets);
      if err { return 1; }
      res := 0;
      if month != updateMonth {
        NowFields();
        if year - dot > 4 { return -1; }
        res := DoNext(e, dot);
      }
    }

    /** Advances the calendar to the next matching instant; `res` is zero when it succeeds. */
    method DoNext(e: Expr, dot: int) returns (res: int)
      requires WellFormed(e) && Normal() && 0 <= Now()
      modifies this
      ensures Normal() && 0 <= Now()
      ensures if res == 0 then Search(e, old(Now()), dot) == Some(Now()) else Search(e, old(Now()), dot) == None
      decreases MonthsLeft(Now(), dot), Gap(e, FirstMinute(e, Now())), 4
    {
      hide *;
      ghost var t, second := Now(), Second(Now()) in e.seconds;
      var resets: seq<Field> := [];
      var err;
      NowFields();
      SecondStage(e, t, dot);
      var sec, updateSecond := this.sec, 0;
      updateSecond, err := FindNext(e.seconds, 60, sec, SecondF, MinuteF, []);
      if err { return 1; }
      if sec == updateSecond {
        resets := Push(resets, SecondF);
      }
      res, resets := SettleMinute(e, dot, second, resets);
      if res != 0 { return; }
      NotBehindIs(e, dot, Now(), FirstInstant(e, t));
      ghost var now := Now();
      res, resets := SettleHour(e, dot, second, resets);
      if res != 0 { return; }
      NotBehindTrans(e, dot, Now(), now, FirstInstant(e, t));
      now := Now();
      res, resets := SettleDay(e, dot, second, resets);
      if res != 0 { return; }
      NotBehindTrans(e, dot, Now(), now, FirstInstant(e, t));
      res := SettleMonth(e, dot, second, resets);
    }

    lemma NowFields()
      requires Normal()
      ensures sec == Second(Now()) && min == Minute(Now()) && hour == Hour(Now())
      ensures mday == DayOfMonth(DayIx(Now())) && wday == Weekday(DayIx(Now()))
      ensures mon == MonthOf(DayIx(Now())) % 12 && year == Year(Now())
    {
      hide Now;
    }
  }

  function Push(fields: seq<Field>, f: Field): seq<Field> {
    if f in fields then fields else fields + [f]
  }

  // ---- The reset list.

  /**
   A reset list on the way through a round. Exactly the fields that were kept are on it; a field that was
   moved is missing, but then a search has returned a match, where nothing moves any more, or a midnight,
   where the hour and the minute are zero already.
   */
  ghost predicate Listed(e: Expr, now: int, resets: seq<Field>, second: bool, level: nat) {
    && resets == Kept(second, MinuteF in resets, HourF in resets, DayF in resets)
    && (level < 1 ==> MinuteF !in resets) && (level < 2 ==> HourF !in resets) && (level < 3 ==> DayF !in resets)
    && (Midnight(now) || Match(e, now) || ((1 <= level ==> MinuteF in resets) && (2 <= level ==> HourF in resets)))
    && (3 <= level ==> DayF in resets || MonthOk(e, MonthOf(DayIx(now))))
  }

  lemma KeptMembers(second: bool, minute: bool, hour: bool, day: bool)
    ensures var r := Kept(second, minute, hour, day);
      && (SecondF in r <==> second) && (MinuteF in r <==> minute) && (HourF in r <==> hour) && (DayF in r <==> day)
      && YearF !in r
  {
  }

  lemma PushMinute(second: bool)
    ensures Push(Kept(second, false, false, false), MinuteF) == Kept(second, true, false, false)
  {
  }

  lemma PushHour(second: bool, minute: bool)
    ensures Push(Kept(second, minute, false, false), HourF) == Kept(second, minute, true, false)
  {
  }

  lemma PushDay(second: bool, minute: bool, hour: bool)
    ensures Push(Kept(second, minute, hour, false), DayF) == Kept(second, minute, hour, true)
  {
  }

  /** The clock is cleared by the listed fields, as far as it is not zero already. */
  ghost predicate ClearsDay(now: int, resets: seq<Field>) {
    && resets == Kept(SecondF in resets, MinuteF in resets, HourF in resets, false)
    && Clears(MinuteIx(now), 2, MinuteF in resets, HourF in resets)
  }

  lemma NoYear(now: int, resets: seq<Field>)
    requires ClearsDay(now, resets)
    ensures YearF !in resets
  {
    KeptMembers(SecondF in resets, MinuteF in resets, HourF in resets, false);
  }

  /** The day scan from `start`, `count` days on: the fields of that day, and the instant, after the resets. */
  ghost predicate Scanning(e: Expr, start: int, resets: seq<Field>, count: int, dom: int, dow: int, now: int) {
    && 0 <= count <= SCAN_DAYS
    && var d := DayIx(start) + count;
      && dom == DayOfMonth(d) && dow == Weekday(d) && DayIx(now) == d
      && now == (if count == 0 then start else 86400 * d + if SecondF in resets then 0 else Second(start))
      && (DayOk(e, d) || ClearsDay(now, resets))
      && Scan(e, DayIx(start)) == Stop(e, d, SCAN_DAYS - count)
  }

  lemma ScanBegins(e: Expr, start: int, resets: seq<Field>, dom: int, dow: int)
    requires DayOk(e, DayIx(start)) || ClearsDay(start, resets)
    requires dom == DayOfMonth(DayIx(start)) && dow == Weekday(DayIx(start))
    ensures Scanning(e, start, resets, 0, dom, dow, start)
  {
    hide DayOk, ClearsDay, Stop, DayOfMonth, Weekday, DayIx, Second;
  }

  lemma ScanGoesOn(e: Expr, start: int, resets: seq<Field>, count: int, dom: int, dow: int, now: int)
    requires Scanning(e, start, resets, count, dom, dow, now) && 0 <= now
    requires !(dom in e.daysOfMonth && dow in e.daysOfWeek) && count < SCAN_DAYS
    ensures YearF !in resets && 0 <= AddTo(now, DayF, 1) != INVALID_INSTANT
    ensures var d := DayIx(AddTo(now, DayF, 1));
      Scanning(e, start, resets, count + 1, DayOfMonth(d), Weekday(d), ResetAll(AddTo(now, DayF, 1), resets))
  {
    hide ClearsDay, AddTo, ResetAll, DayOfMonth, Weekday, DayIx, Second, Stop;
    var d := DayIx(start) + count;
    NoYear(now, resets);
    NextMidnight(now, resets);
    AddNonNegative(now, DayF);
    StopStep(e, d, SCAN_DAYS - count);
    SecondStays(start, resets, d);
  }

  lemma StopStep(e: Expr, d: int, n: nat)
    requires !DayOk(e, d) && 0 < n
    ensures Stop(e, d, n) == Stop(e, d + 1, n - 1)
  {
    hide DayOk;
  }

  lemma SecondStays(start: int, resets: seq<Field>, d: int)
    ensures var s := if SecondF in resets then 0 else Second(start); Second(86400 * d + s) == s
  {
    assert 86400 * d == 60 * (1440 * d);
  }

  lemma ScanEnds(e: Expr, start: int, resets: seq<Field>, count: int, dom: int, dow: int, now: int)
    requires Scanning(e, start, resets, count, dom, dow, now)
    requires (dom in e.daysOfMonth && dow in e.daysOfWeek) || count == SCAN_DAYS
    ensures var d := DayIx(start); var x := Scan(e, d);
      && dom == DayOfMonth(x)
      && now == if x == d then start else 86400 * x + if SecondF in resets then 0 else Second(start)
  {
    hide ClearsDay, DayOfMonth, Weekday, DayIx, Second, Scan;
  }

  lemma NotBehindIs(e: Expr, dot: int, r: int, t: int)
    requires WellFormed(e)
    ensures NotBehind(e, dot, r, t, MinuteIx(t)) <==>
      MonthsLeft(r, dot) < MonthsLeft(t, dot)
      || (MonthsLeft(r, dot) <= MonthsLeft(t, dot) && Gap(e, MinuteIx(r)) <= Gap(e, MinuteIx(t)))
  {
    hide MonthsLeft, Gap, MinuteIx, WellFormed;
  }

  lemma NotBehindTrans(e: Expr, dot: int, c: int, b: int, a: int)
    requires WellFormed(e) && NotBehind(e, dot, c, b, MinuteIx(b)) && NotBehind(e, dot, b, a, MinuteIx(a))
    ensures NotBehind(e, dot, c, a, MinuteIx(a))
    ensures MonthsLeft(c, dot) < MonthsLeft(a, dot)
      || (MonthsLeft(c, dot) <= MonthsLeft(a, dot) && Gap(e, MinuteIx(c)) <= Gap(e, MinuteIx(a)))
  {
    hide MonthsLeft, Gap, MinuteIx, WellFormed;
  }

  // ---- The stages of a round, with their reset lists.

  lemma InRange(t: int)
    ensures 0 <= Second(t) < 60 && 0 <= Minute(t) < 60 && 0 <= Hour(t) < 24 && 0 <= MonthOf(DayIx(t)) % 12 < 12
  {
  }

  lemma Instants(t: int)
    ensures t == 60 * MinuteIx(t) + Second(t) && 0 <= Second(t) < 60
    ensures Minute(t) == MinuteIx(t) % 60 && Hour(t) == HourOf(MinuteIx(t)) % 24 && DayIx(t) == DayOf(MinuteIx(t))
  {
  }

  lemma MidnightIsZero(t: int)
    requires Midnight(t)
    ensures MinuteIx(t) % 60 == 0 && HourOf(MinuteIx(t)) % 24 == 0
  {
    hide MinuteIx;
    DayOfMidnight(DayIx(t));
  }

  lemma SecondStage(e: Expr, t: int, dot: int)
    requires WellFormed(e)
    ensures Fits(e.seconds, 0, 60) && 0 <= Second(t) < 60
    ensures Second(t) in e.seconds ==> FirstInstant(e, t) == t && Listed(e, t, Push([], SecondF), true, 0)
    ensures Second(t) !in e.seconds ==>
      && Moved(e.seconds, 60, Second(t), t, SecondF, MinuteF, []) == FirstInstant(e, t)
      && Listed(e, FirstInstant(e, t), [], false, 0)
    ensures Fresh(e, FirstInstant(e, t), 0) && MinuteIx(FirstInstant(e, t)) == FirstMinute(e, t)
    ensures MonthsLeft(FirstInstant(e, t), dot) <= MonthsLeft(t, dot)
    ensures Search(e, t, dot) == AtMinute(e, FirstInstant(e, t), Second(t) in e.seconds, dot)
  {
    SecondsFit(e);
    hide *;
    InRange(t);
    MovedSecond(e, t);
    Starts(e, t, dot);
    SearchStarts(e, t, dot);
    ListedAtSecond(e, FirstInstant(e, t));
  }

  lemma SecondsFit(e: Expr)
    requires WellFormed(e)
    ensures Fits(e.seconds, 0, 60)
  {
  }

  /** The reset list before the minute is looked at. */
  lemma ListedAtSecond(e: Expr, t: int)
    ensures Listed(e, t, Push([], SecondF), true, 0) && Listed(e, t, [], false, 0)
  {
    hide Match, Midnight;
  }

  lemma MinuteStage(e: Expr, now: int, second: bool, dot: int, resets: seq<Field>)
    requires WellFormed(e) && Fresh(e, now, 0) && Listed(e, now, resets, second, 0)
    ensures Fits(e.minutes, 0, 60) && 0 <= Minute(now) < 60 && YearF !in resets
    ensures Minute(now) in e.minutes ==>
      && At(e, now, 1) && Listed(e, now, Push(resets, MinuteF), second, 1) && NotBehind(e, dot, now, now, MinuteIx(now))
      && AtMinute(e, now, second, dot) == AtHour(e, now, second, dot)
    ensures Minute(now) !in e.minutes ==>
      var l := Moved(e.minutes, 60, Minute(now), now, MinuteF, HourF, resets);
      && l == MinuteTo(e, now, second)
      && MonthsLeft(l, dot) <= MonthsLeft(now, dot) && Gap(e, FirstMinute(e, l)) < Gap(e, MinuteIx(now))
  {
    hide *;
    InRange(now);
    ListedFields(e, now);
    ListedYear(e, now, resets, second, 0);
    FreshSecondFits(e, now);
    NotBehindIs(e, dot, now, now);
    MinuteSet(e);
    if MinuteOk(e, MinuteIx(now)) {
      FreshNext(e, now);
      MinutePasses(e, now, second, dot);
      ListedMinute(e, now, resets, second);
    } else {
      MinuteMoves(e, now, second, resets);
      MinuteMove(e, now, second, dot);
      AdvancesIs(e, dot, now, MinuteTo(e, now, second));
    }
  }

  lemma MinuteSet(e: Expr)
    requires WellFormed(e)
    ensures Fits(e.minutes, 0, 60)
  {
  }

  lemma FreshNext(e: Expr, now: int)
    requires Fresh(e, now, 0) && MinuteOk(e, MinuteIx(now))
    ensures At(e, now, 1)
  {
    hide MinuteOk, MinuteIx, Midnight;
  }

  lemma ListedMinute(e: Expr, now: int, resets: seq<Field>, second: bool)
    requires Listed(e, now, resets, second, 0)
    ensures Listed(e, now, Push(resets, MinuteF), second, 1)
  {
    hide Match, Midnight, MonthOk, MonthOf, DayIx, Kept;
    PushMinute(second);
    KeptMembers(second, true, false, false);
    KeptMembers(second, false, false, false);
  }

  lemma MinuteMoves(e: Expr, now: int, second: bool, resets: seq<Field>)
    requires WellFormed(e) && Listed(e, now, resets, second, 0) && !MinuteOk(e, MinuteIx(now)) && 0 <= Minute(now) < 60
    ensures Moved(e.minutes, 60, Minute(now), now, MinuteF, HourF, resets) == MinuteTo(e, now, second)
  {
    hide *;
    Instants(now);
    MinuteSet(e);
    NothingListed(e, now, resets, second);
    MovedMinute(e, MinuteIx(now), Second(now), second);
    MinuteToIs(e, now, second);
  }

  lemma NothingListed(e: Expr, now: int, resets: seq<Field>, second: bool)
    requires Listed(e, now, resets, second, 0)
    ensures resets == Kept(second, false, false, false)
  {
    hide Match, Midnight, MonthOk, MonthOf, DayIx, Kept;
  }

  lemma MinuteToIs(e: Expr, now: int, second: bool)
    requires WellFormed(e)
    ensures MinuteTo(e, now, second) == 60 * NextIndex(e.minutes, 60, MinuteIx(now)) + if second then 0 else Second(now)
  {
    hide NextIndex, MinuteIx, Second;
  }

  lemma ListedFields(e: Expr, now: int)
    ensures Minute(now) in e.minutes <==> MinuteOk(e, MinuteIx(now))
    ensures Hour(now) in e.hours <==> HourOk(e, HourOf(MinuteIx(now)))
  {
    Instants(now);
    hide MinuteIx, HourOf, Minute, Hour;
  }

  /** What a search returns is no farther from the end, and the reset list fits it one level up. */
  lemma Returned(e: Expr, dot: int, now: int, l: int, r: int, resets: seq<Field>, second: bool, level: nat)
    requires WellFormed(e) && Advances(e, dot, now, l) && Search(e, l, dot) == Some(r)
    requires level <= 2 && Listed(e, now, resets, second, level)
    ensures Result(e, r) && At(e, r, level + 1) && Listed(e, r, resets, second, level + 1)
    ensures NotBehind(e, dot, r, now, MinuteIx(now))
  {
    hide *;
    SearchPromises(e, l, dot);
    Resumes(e, dot, now, l, r);
    NotBehindIs(e, dot, r, now);
    MatchIsFresh(e, r, level + 1);
    ListedLater(e, now, r, resets, second, level);
  }

  lemma SearchPromises(e: Expr, t: int, dot: int)
    requires WellFormed(e)
    ensures Promised(e, dot, t, FirstMinute(e, t), Search(e, t, dot))
  {
    hide Promised, FirstMinute, WellFormed, Match;
  }

  lemma ListedLater(e: Expr, now: int, r: int, resets: seq<Field>, second: bool, level: nat)
    requires level <= 2 && Listed(e, now, resets, second, level) && Result(e, r)
    ensures Listed(e, r, resets, second, level + 1)
  {
    hide Match, Midnight, MonthOk, MonthOf, DayIx, Kept, SecondFits;
  }

  lemma AfterMinute(e: Expr, now: int, second: bool, dot: int, resets: seq<Field>)
    requires WellFormed(e) && Fresh(e, now, 0) && Listed(e, now, resets, second, 0) && Minute(now) !in e.minutes
    ensures match Search(e, MinuteTo(e, now, second), dot)
      case None => AtMinute(e, now, second, dot) == None
      case Some(r) =>
        && At(e, r, 1) && Listed(e, r, resets, second, 1) && NotBehind(e, dot, r, now, MinuteIx(now))
        && AtMinute(e, now, second, dot) == AtHour(e, r, second, dot)
  {
    hide *;
    ListedFields(e, now);
    FreshSecondFits(e, now);
    MinuteMove(e, now, second, dot);
    var l := MinuteTo(e, now, second);
    if Search(e, l, dot).Some? {
      Returned(e, dot, now, l, Search(e, l, dot).value, resets, second, 0);
    }
    MinuteResumes(e, now, second, dot);
  }

  lemma FreshSecondFits(e: Expr, now: int)
    requires Fresh(e, now, 0)
    ensures SecondFits(e, now)
  {
  }

  lemma MinuteResumes(e: Expr, now: int, second: bool, dot: int)
    requires WellFormed(e) && Fresh(e, now, 0) && !MinuteOk(e, MinuteIx(now))
    ensures match Search(e, MinuteTo(e, now, second), dot)
      case None => AtMinute(e, now, second, dot) == None
      case Some(r) => At(e, r, 1) ==> AtMinute(e, now, second, dot) == AtHour(e, r, second, dot)
  {
    hide Search, AtHour, MinuteTo, Fresh, MinuteOk, MinuteIx, Promised, Match, At, WellFormed;
  }

  lemma HourStage(e: Expr, now: int, second: bool, dot: int, resets: seq<Field>)
    requires WellFormed(e) && At(e, now, 1) && Listed(e, now, resets, second, 1)
    ensures Fits(e.hours, 0, 24) && 0 <= Hour(now) < 24 && YearF !in resets
    ensures Hour(now) in e.hours ==>
      && At(e, now, 2) && Listed(e, now, Push(resets, HourF), second, 2) && NotBehind(e, dot, now, now, MinuteIx(now))
      && AtHour(e, now, second, dot) == AtDay(e, now, second, dot)
    ensures Hour(now) !in e.hours ==>
      var l := Moved(e.hours, 24, Hour(now), now, HourF, WeekdayF, resets);
      && l == HourTo(e, now, second)
      && MonthsLeft(l, dot) <= MonthsLeft(now, dot) && Gap(e, FirstMinute(e, l)) < Gap(e, MinuteIx(now))
  {
    hide *;
    InRange(now);
    ListedFields(e, now);
    ListedYear(e, now, resets, second, 1);
    AtFits(e, now, 1);
    NotBehindIs(e, dot, now, now);
    HourSet(e);
    if HourOk(e, HourOf(MinuteIx(now))) {
      AtNext(e, now, 1);
      HourPasses(e, now, second, dot);
      ListedHour(e, now, resets, second);
    } else {
      HourMoves(e, now, second, resets);
      HourMove(e, now, second, dot);
      AdvancesIs(e, dot, now, HourTo(e, now, second));
    }
  }

  lemma HourSet(e: Expr)
    requires WellFormed(e)
    ensures Fits(e.hours, 0, 24) && Fits(e.months, 0, 12)
  {
  }

  lemma AdvancesIs(e: Expr, dot: int, now: int, l: int)
    requires WellFormed(e) && Advances(e, dot, now, l)
    ensures MonthsLeft(l, dot) <= MonthsLeft(now, dot) && Gap(e, FirstMinute(e, l)) < Gap(e, MinuteIx(now))
  {
    hide MonthsLeft, Gap, FirstMinute, MinuteIx, WellFormed, SecondFits;
  }

  lemma ListedYear(e: Expr, now: int, resets: seq<Field>, second: bool, level: nat)
    requires Listed(e, now, resets, second, level)
    ensures YearF !in resets && (SecondF in resets <==> second)
  {
    hide Match, Midnight, MonthOk, MonthOf, DayIx;
    KeptMembers(second, MinuteF in resets, HourF in resets, DayF in resets);
  }

  /** The next level is reached when its field matches. */
  lemma AtNext(e: Expr, now: int, level: nat)
    requires At(e, now, level)
    requires level == 1 ==> HourOk(e, HourOf(MinuteIx(now)))
    requires level == 2 ==> DayOk(e, DayOf(MinuteIx(now)))
    requires level == 1 || level == 2
    ensures At(e, now, level + 1)
  {
    hide Midnight, MinuteOk, HourOk, DayOk, SecondFits, MinuteIx;
  }

  lemma ListedHour(e: Expr, now: int, resets: seq<Field>, second: bool)
    requires Listed(e, now, resets, second, 1)
    ensures Listed(e, now, Push(resets, HourF), second, 2)
  {
    hide Match, Midnight, MonthOk, MonthOf, DayIx, Kept;
    PushHour(second, MinuteF in resets);
    KeptMembers(second, MinuteF in resets, true, false);
    KeptMembers(second, MinuteF in resets, false, false);
  }

  lemma HourMoves(e: Expr, now: int, second: bool, resets: seq<Field>)
    requires WellFormed(e) && Listed(e, now, resets, second, 1)
    requires !HourOk(e, HourOf(MinuteIx(now))) && 0 <= Hour(now) < 24
    ensures Moved(e.hours, 24, Hour(now), now, HourF, WeekdayF, resets) == HourTo(e, now, second)
  {
    hide *;
    Instants(now);
    HourCleared(e, now, resets, second);
    HourSet(e);
    MovedHour(e, MinuteIx(now), Second(now), second, MinuteF in resets);
    HourToIs(e, now, second);
  }

  lemma HourCleared(e: Expr, now: int, resets: seq<Field>, second: bool)
    requires Listed(e, now, resets, second, 1) && !HourOk(e, HourOf(MinuteIx(now)))
    ensures resets == Kept(second, MinuteF in resets, false, false) && (MinuteF in resets || MinuteIx(now) % 60 == 0)
  {
    NoMatchHour(e, now);
    hide Match, MonthOk, MonthOf, DayIx, Kept, MinuteIx, HourOf, HourOk;
    if Midnight(now) {
      MidnightIsZero(now);
    }
  }

  lemma HourToIs(e: Expr, now: int, second: bool)
    requires WellFormed(e)
    ensures HourTo(e, now, second)
      == 3600 * NextIndex(e.hours, 24, HourOf(MinuteIx(now))) + if second then 0 else Second(now)
  {
    hide NextIndex, HourOf, MinuteIx, Second;
  }

  lemma NoMatchHour(e: Expr, now: int)
    ensures Match(e, now) ==> HourOk(e, HourOf(MinuteIx(now)))
  {
    hide HourOk, MinuteOk, DayOk, MonthOk;
  }

  lemma AfterHour(e: Expr, now: int, second: bool, dot: int, resets: seq<Field>)
    requires WellFormed(e) && At(e, now, 1) && Listed(e, now, resets, second, 1) && Hour(now) !in e.hours
    ensures match Search(e, HourTo(e, now, second), dot)
      case None => AtHour(e, now, second, dot) == None
      case Some(r) =>
        && At(e, r, 2) && Listed(e, r, resets, second, 2) && NotBehind(e, dot, r, now, MinuteIx(now))
        && AtHour(e, now, second, dot) == AtDay(e, r, second, dot)
  {
    hide *;
    ListedFields(e, now);
    AtFits(e, now, 1);
    HourMove(e, now, second, dot);
    var l := HourTo(e, now, second);
    if Search(e, l, dot).Some? {
      Returned(e, dot, now, l, Search(e, l, dot).value, resets, second, 1);
    }
    HourResumes(e, now, second, dot);
  }

  lemma HourResumes(e: Expr, now: int, second: bool, dot: int)
    requires WellFormed(e) && At(e, now, 1) && !HourOk(e, HourOf(MinuteIx(now)))
    ensures match Search(e, HourTo(e, now, second), dot)
      case None => AtHour(e, now, second, dot) == None
      case Some(r) => At(e, r, 2) ==> AtHour(e, now, second, dot) == AtDay(e, r, second, dot)
  {
    hide Search, AtDay, HourTo, HourOk, MinuteIx, HourOf, Promised, Match, At, WellFormed;
  }

  lemma DayStage(e: Expr, now: int, second: bool, dot: int, resets: seq<Field>)
    requires WellFormed(e) && At(e, now, 2) && Listed(e, now, resets, second, 2)
    ensures DayOk(e, DayIx(now)) || ClearsDay(now, resets)
    ensures var d := DayIx(now); var x := Scan(e, d);
      var l := if x == d then now else 86400 * x + if SecondF in resets then 0 else Second(now);
      && (x == d ==> SeemsStill(e, d))
      && (DayOfMonth(x) == DayOfMonth(d) ==>
            && At(e, l, 3) && Listed(e, l, Push(resets, DayF), second, 3) && NotBehind(e, dot, l, now, MinuteIx(now))
            && AtDay(e, now, second, dot) == AtMonth(e, l, second, dot))
      && (DayOfMonth(x) != DayOfMonth(d) ==>
            && x != d && !SeemsStill(e, d) && l == DayTo(e, now, second)
            && MonthsLeft(l, dot) <= MonthsLeft(now, dot) && Gap(e, FirstMinute(e, l)) < Gap(e, MinuteIx(now)))
  {
    hide *;
    var d := DayIx(now);
    ListedYear(e, now, resets, second, 2);
    ListedClears(e, now, resets, second);
    AtFits(e, now, 2);
    DayOfMinuteIx(now);
    StillIs(e, d);
    StillAtRest(e, d);
    if Scan(e, d) == d {
      ScanStays(e, d);
      NotBehindIs(e, dot, now, now);
      StillIsAt(e, now);
      DayPasses(e, now, second, dot);
      ListedDay(e, now, now, resets, second);
    } else {
      var l := DayTo(e, now, second);
      DayToIs(e, now, second);
      DayMove(e, now, second, dot);
      AdvancesIs(e, dot, now, l);
      if SeemsStill(e, d) {
        SilentDay(e, now, second, dot);
        SilentNotBehind(e, dot, now, l);
        LandsAtMidnight(e, now, second);
        MidnightIs(l);
        ListedDay(e, now, l, resets, second);
      }
    }
  }

  lemma DayToIs(e: Expr, now: int, second: bool)
    ensures DayTo(e, now, second) == 86400 * Scan(e, DayOf(MinuteIx(now))) + if second then 0 else Second(now)
  {
    hide Scan, DayOf, MinuteIx, Second;
  }

  lemma MidnightIs(l: int)
    ensures Midnight(l) <==> MinuteIx(l) == 1440 * DayIx(l)
  {
    hide MinuteIx, DayIx;
  }

  lemma SilentNotBehind(e: Expr, dot: int, now: int, l: int)
    requires WellFormed(e) && Advances(e, dot, now, l)
    ensures NotBehind(e, dot, l, now, MinuteIx(now))
  {
    hide *;
    AdvancesIs(e, dot, now, l);
    AdvancesFirst(e, dot, now, l);
    NotBehindIs(e, dot, l, now);
  }

  lemma AdvancesFirst(e: Expr, dot: int, now: int, l: int)
    requires WellFormed(e) && Advances(e, dot, now, l)
    ensures MinuteIx(l) == FirstMinute(e, l)
  {
    hide MonthsLeft, Gap, FirstMinute, MinuteIx, WellFormed, SecondFits;
  }

  /** Before the day scan the reset list clears the clock, or nothing moves. */
  lemma ListedClears(e: Expr, now: int, resets: seq<Field>, second: bool)
    requires Listed(e, now, resets, second, 2)
    ensures DayOk(e, DayIx(now)) || ClearsDay(now, resets)
  {
    DayOfMinuteIx(now);
    MatchOnDay(e, now);
    hide Match, MonthOk, MonthOf, DayIx, DayOk, Kept, MinuteIx, HourOf;
    KeptMembers(second, MinuteF in resets, HourF in resets, false);
    if Midnight(now) {
      MidnightIsZero(now);
    }
  }

  lemma ListedDay(e: Expr, now: int, l: int, resets: seq<Field>, second: bool)
    requires Listed(e, now, resets, second, 2) && (l == now || Midnight(l))
    ensures Listed(e, l, Push(resets, DayF), second, 3)
  {
    hide Match, Midnight, MonthOk, MonthOf, DayIx, Kept;
    PushDay(second, MinuteF in resets, HourF in resets);
    KeptMembers(second, MinuteF in resets, HourF in resets, true);
    KeptMembers(second, MinuteF in resets, HourF in resets, false);
  }

  lemma AfterDay(e: Expr, now: int, second: bool, dot: int, resets: seq<Field>)
    requires WellFormed(e) && At(e, now, 2) && Listed(e, now, resets, second, 2) && !SeemsStill(e, DayIx(now))
    ensures match Search(e, DayTo(e, now, second), dot)
      case None => AtDay(e, now, second, dot) == None
      case Some(r) =>
        && At(e, r, 3) && Listed(e, r, resets, second, 3) && NotBehind(e, dot, r, now, MinuteIx(now))
        && AtDay(e, now, second, dot) == AtMonth(e, r, second, dot)
  {
    hide *;
    DayOfMinuteIx(now);
    StillAtRest(e, DayIx(now));
    AtFits(e, now, 2);
    DayMove(e, now, second, dot);
    var l := DayTo(e, now, second);
    if Search(e, l, dot).Some? {
      Returned(e, dot, now, l, Search(e, l, dot).value, resets, second, 2);
    }
    DayResumes(e, now, second, dot);
  }

  lemma DayResumes(e: Expr, now: int, second: bool, dot: int)
    requires WellFormed(e) && At(e, now, 2) && !SeemsStill(e, DayOf(MinuteIx(now)))
    ensures match Search(e, DayTo(e, now, second), dot)
      case None => AtDay(e, now, second, dot) == None
      case Some(r) => At(e, r, 3) ==> AtDay(e, now, second, dot) == AtMonth(e, r, second, dot)
  {
    StillAtRest(e, DayOf(MinuteIx(now)));
    hide Search, AtMonth, DayTo, MinuteIx, DayOf, Promised, Match, At, WellFormed, Scan, SeemsStill;
  }

  lemma MonthStage(e: Expr, now: int, second: bool, dot: int, resets: seq<Field>)
    requires WellFormed(e) && At(e, now, 3) && Listed(e, now, resets, second, 3)
    ensures Fits(e.months, 0, 12) && YearF !in resets && 0 <= MonthOf(DayIx(now)) % 12 < 12
    ensures MonthOf(DayIx(now)) % 12 in e.months ==> AtMonth(e, now, second, dot) == Some(now)
    ensures MonthOf(DayIx(now)) % 12 !in e.months ==>
      var l := Moved(e.months, 12, MonthOf(DayIx(now)) % 12, now, MonthF, YearF, resets);
      if Year(l) - dot > 4 then AtMonth(e, now, second, dot) == None
      else MonthsLeft(l, dot) < MonthsLeft(now, dot) && AtMonth(e, now, second, dot) == Search(e, l, dot)
  {
    hide *;
    ListedYear(e, now, resets, second, 3);
    InRange(now);
    HourSet(e);
    AtFits(e, now, 3);
    MonthIs(e, MonthOf(DayIx(now)));
    if MonthOk(e, MonthOf(DayIx(now))) {
      MonthPasses(e, now, second, dot);
    } else {
      MonthMoves(e, now, second, resets);
      MonthMove(e, now, second, dot);
      MonthJump(e, now, second, dot);
    }
  }

  lemma MonthIs(e: Expr, k: int)
    ensures MonthOk(e, k) <==> k % 12 in e.months
  {
  }

  lemma MonthMoves(e: Expr, now: int, second: bool, resets: seq<Field>)
    requires WellFormed(e) && Listed(e, now, resets, second, 3) && !MonthOk(e, MonthOf(DayIx(now)))
    requires 0 <= MonthOf(DayIx(now)) % 12 < 12
    ensures Moved(e.months, 12, MonthOf(DayIx(now)) % 12, now, MonthF, YearF, resets) == MonthTo(e, now, second)
  {
    hide *;
    Instants(now);
    MonthCleared(e, now, resets, second);
    HourSet(e);
    MovedMonth(e, MinuteIx(now), Second(now), second, MinuteF in resets, HourF in resets);
    MonthToIs(e, now, second);
  }

  lemma MonthCleared(e: Expr, now: int, resets: seq<Field>, second: bool)
    requires Listed(e, now, resets, second, 3) && !MonthOk(e, MonthOf(DayIx(now)))
    ensures resets == Kept(second, MinuteF in resets, HourF in resets, true)
    ensures Clears(MinuteIx(now), 3, MinuteF in resets, HourF in resets)
  {
    DayOfMinuteIx(now);
    MatchOnDay(e, now);
    hide Match, MonthOk, MonthOf, DayIx, Kept, MinuteIx, HourOf;
    if Midnight(now) {
      MidnightIsZero(now);
    }
  }

  lemma MonthToIs(e: Expr, now: int, second: bool)
    requires WellFormed(e)
    ensures MonthTo(e, now, second) == 86400 * MonthTarget(e, DayOf(MinuteIx(now))) + if second then 0 else Second(now)
  {
    hide MonthTarget, DayOf, MinuteIx, Second;
  }

  lemma ResetNonNegative(t: int, f: Field)
    requires 0 <= t && f != YearF
    ensures 0 <= Reset(t, f)
  {
    SetNonNegative(t, f, Least(f));
  }

  method NextSetBit(bits: set<int>, max: int, from: int) returns (r: int, notfound: bool)
    requires 0 <= from <= max
    ensures notfound == (NextBit(bits, max, from) == max)
    ensures r == if notfound then 0 else NextBit(bits, max, from)
  {
    var i := from;
    while i < max
      invariant from <= i <= max
      invariant NextBit(bits, max, from) == NextBit(bits, max, i)
    {
      if i in bits {
        return i, false;
      }
      i := i + 1;
    }
    return 0, true;
  }

  /** One day on, with hour and minute reset. */
  lemma NextMidnight(t: int, resets: seq<Field>)
    requires 0 <= t && ClearsDay(t, resets)
    ensures var d := DayIx(t) + 1; var s := if SecondF in resets then 0 else Second(t);
      && ResetAll(AddTo(t, DayF, 1), resets) == 86400 * d + s
      && DayIx(AddTo(t, DayF, 1)) == DayIx(86400 * d + s) == d && Second(86400 * d + s) == s
      && ClearsDay(86400 * d + s, resets)
  {
    Instants(t);
    hide AddTo, ResetAll, Kept, MinuteIx, Second, DayIx, DayOf, HourOf;
    var u, s := MinuteIx(t), Second(t);
    var d, c := DayIx(t) + 1, if SecondF in resets then 0 else s;
    AddClock(t, 1);
    ShiftDays(u, 1);
    Parts(u + 1440, s);
    ResetKept(SecondF in resets, MinuteF in resets, HourF in resets, 2, u + 1440, s);
    DayOfMidnight(d);
    Parts(1440 * d, c);
  }

  /**
   `cron_next`. Whatever it returns other than -1 lies after `date`, and matches all six fields when the
   day scan is honest; under the exact condition it is the least such instant, and -1 is never returned.
   */
  method CronNext(e: Expr, date: int) returns (r: int)
    requires WellFormed(e) && 0 <= date
    ensures r == match CronNextInstant(e, date) case Some(t) => t case None => -1
    ensures r != -1 ==> date < r
    ensures r != -1 && ScanTells(e) ==> Match(e, r)
    ensures ExactCondition(e) ==> IsNext(e, date, r)
  {
    hide *;
    r := Compute(e, date);
    if CronNextInstant(e, date).Some? {
      CronNextIsLater(e, date);
      if ScanTells(e) {
        CronNextIsSound(e, date);
      }
    }
    if ExactCondition(e) {
      ConditionSuffices(e);
      ExactAt(e, date);
      IsNextBy(e, date, r);
    }
  }

  method Compute(e: Expr, date: int) returns (r: int)
    requires WellFormed(e) && 0 <= date
    ensures r == match CronNextInstant(e, date) case Some(t) => t case None => -1
  {
    hide Search, Match, Year, Calendar.Normal, Calendar.Now, AddTo, MonthOf, CronNextInstant, Promised, WellFormed,
      FirstMinute;
    CronNextIs(e, date);
    var calendar := new Calendar(date);
    var original := calendar.Mktime();
    if original == INVALID_INSTANT {
      return INVALID_INSTANT;
    }
    calendar.NowFields();
    var res := calendar.DoNext(e, calendar.year);
    if res != 0 {
      return INVALID_INSTANT;
    }
    var calculated := calendar.Mktime();
    if calculated == INVALID_INSTANT {
      return INVALID_INSTANT;
    }
    if calculated == original {
      AddClock(date, 1);
      var err := calendar.AddToField(SecondF, 1);
      if err {
        return INVALID_INSTANT;
      }
      calendar.NowFields();
      res := calendar.DoNext(e, calendar.year);
      if res != 0 {
        return INVALID_INSTANT;
      }
    }
    r := calendar.Mktime();
  }
}
