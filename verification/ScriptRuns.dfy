/**
 Runs of the script scheduler: for which schedules a script runs only when a firing instant has passed since the
 check before, and for which it runs exactly then. Both answers are about the expression's sets and one 400-year
 cycle of days.
 */
module ScriptRuns {
  import opened Gregorian
  import opened Wrappers
  import opened CronExpr
  import opened CronSearch
  import opened CronSound
  import opened CronExact
  import opened CronCycle
  import opened Scripts

  /** One effective check: boot time and calendar time. */
  datatype Check = Check(now: int, time: int)

  /** Checks that take effect: the calendar time is known and does not run back, and half a minute has passed. */
  ghost predicate Effective(checks: seq<Check>) {
    && (forall i | 0 <= i < |checks| :: 0 < checks[i].time && CRON_CHECK_MS <= checks[i].now)
    && forall i, j | 0 <= i < j < |checks| ::
      checks[i].time <= checks[j].time && checks[i].now + CRON_CHECK_MS <= checks[j].now
  }

  /** The script after the first `n` checks of a run. */
  ghost function After(s: Script, checks: seq<Check>, n: nat): (r: Script)
    requires n <= |checks| && Ready(s)
    ensures Ready(r) && r.schedule == s.schedule && r.valid == s.valid
  {
    hide WellFormed;
    if n == 0 then s else Checked(After(s, checks, n - 1), checks[n - 1].now, checks[n - 1].time)
  }

  /** The scheduler makes these runs: a check that takes effect does to every script what `After` says. */
  method CheckAll(scheduler: Scheduler, checks: seq<Check>)
    requires scheduler.Valid() && scheduler.lastCron == 0 && Effective(checks)
    modifies scheduler, scheduler.scripts
    ensures scheduler.Valid()
    ensures forall i | 0 <= i < scheduler.scripts.Length ::
      old(Ready(scheduler.scripts[i])) && scheduler.scripts[i] == After(old(scheduler.scripts[i]), checks, |checks|)
  {
    hide WellFormed, Checked;
    for n := 0 to |checks|
      invariant scheduler.Valid() && scheduler.lastCron == if n == 0 then 0 else checks[n - 1].now
      invariant forall i | 0 <= i < scheduler.scripts.Length ::
        old(Ready(scheduler.scripts[i])) && scheduler.scripts[i] == After(old(scheduler.scripts[i]), checks, n)
    {
      scheduler.CronCheck(checks[n].now, true, Some(checks[n].time));
    }
  }

  /** An enabled script with this schedule that is not armed yet, as after loading. */
  predicate Unarmed(s: Script, e: Expr) {
    s.schedule == e && s.valid && s.enable && s.next <= 0
  }

  lemma UnarmedIsReady(s: Script, e: Expr)
    requires WellFormed(e) && Unarmed(s, e)
    ensures Ready(s)
  {
    hide WellFormed;
  }

  // ---- Soundness: no script runs without a firing instant.

  /** Check `n` requests a run only when a firing instant lies since the check before; the first one never does. */
  ghost predicate SoundAt(s: Script, checks: seq<Check>, n: nat)
    requires n < |checks| && Ready(s)
  {
    Due(After(s, checks, n), checks[n].time) ==> 1 <= n && FiringIn(s.schedule, checks[n - 1].time, checks[n].time)
  }

  ghost predicate RunsSound(e: Expr)
    requires WellFormed(e)
  {
    forall s, checks, n: nat | Unarmed(s, e) && Ready(s) && Effective(checks) && n < |checks| :: SoundAt(s, checks, n)
  }

  lemma {:induction false} WaitsThroughout(s: Script, e: Expr, checks: seq<Check>, n: nat)
    requires Unarmed(s, e) && Ready(s) && ScanTells(e) && Effective(checks) && n <= |checks|
    ensures if n == 0 then After(s, checks, n).next <= 0 else Waits(After(s, checks, n), checks[n - 1].time)
    decreases n
  {
    hide WellFormed, ScanTells, Checked, CronNextInstant, Match;
    if n == 0 {
    } else {
      WaitsThroughout(s, e, checks, n - 1);
      var last := if n == 1 then 0 else checks[n - 2].time;
      CheckIsSound(After(s, checks, n - 1), last, checks[n - 1].now, checks[n - 1].time);
    }
  }

  /** When the day scan is honest, every run is sound. */
  lemma RunIsSound(s: Script, e: Expr, checks: seq<Check>, n: nat)
    requires Unarmed(s, e) && Ready(s) && ScanTells(e) && Effective(checks) && n < |checks|
    ensures SoundAt(s, checks, n)
  {
    hide WellFormed, ScanTells, Checked, FiringIn;
    WaitsThroughout(s, e, checks, n);
    if n > 0 {
      hide Waits, Due;
      CheckIsSound(After(s, checks, n), checks[n - 1].time, checks[n].now, checks[n].time);
    }
  }

  function Two(t: int, t': int): seq<Check> {
    [Check(CRON_CHECK_MS, t), Check(2 * CRON_CHECK_MS, t')]
  }

  /** A script armed by the first of two checks is due at the second when the answer for the first has come. */
  lemma TwoChecks(s: Script, e: Expr, t: int, t': int)
    requires WellFormed(e) && Unarmed(s, e) && Ready(s) && 0 < t <= t'
    ensures Effective(Two(t, t'))
    ensures Due(After(s, Two(t, t'), 1), t') <==> CronNextInstant(e, t).Some? && 0 < CronNextInstant(e, t).value <= t'
    ensures var r := CronNextInstant(e, t);
      After(s, Two(t, t'), 1) == s.(next := if r.Some? then r.value else -1)
  {
    hide WellFormed, CronNextInstant;
    assert After(s, Two(t, t'), 0) == s;
  }

  /** A day whose scan ends unnoticed off a match: checked on it and at midnight of the scan's day, a script runs. */
  lemma SpuriousRun(s: Script, e: Expr, d: int)
    requires WellFormed(e) && Unarmed(s, e) && Ready(s) && 0 < d && !Honest(e, d)
    ensures !RunsSound(e)
  {
    var x := Scan(e, d);
    var t := 60 * ClockOfDay(e, d) + FirstBit(e.seconds, 0, 60);
    assert 1440 * d <= ClockOfDay(e, d);
    hide WellFormed, CronNextInstant, Match, MonthOk, MonthOf, DayOk, ClockOfDay, Scan, SeemsStill, After, Due,
      FiringIn;
    UnnoticedMove(e, d, t);
    TwoChecks(s, e, t, 86400 * x);
    NoFiringBefore(e, d, t);
    var checks := Two(t, 86400 * x);
    assert !SoundAt(s, checks, 1);
  }

  lemma NoFiringBefore(e: Expr, d: int, t: int)
    requires WellFormed(e) && !Honest(e, d) && 86400 * d <= t
    ensures !FiringIn(e, t, 86400 * Scan(e, d))
  {
    hide WellFormed, Match, MonthOk, MonthOf, DayOk, Scan, SeemsStill;
    forall x | t < x <= 86400 * Scan(e, d) ensures !Match(e, x) {
      if x == 86400 * Scan(e, d) {
        if Match(e, x) {
          MidnightMatch(e, Scan(e, d));
        }
      } else {
        NoMatchInScan(e, d, x);
      }
    }
  }

  lemma NoMatchInScan(e: Expr, d: int, x: int)
    requires 86400 * d <= x < 86400 * Scan(e, d)
    ensures !Match(e, x)
  {
    hide Match, MonthOk, MonthOf, DayOk, Scan, DayOf;
    MatchOnDay(e, x);
    DayOfMinuteIx(x);
    assert d <= DayIx(x) < Scan(e, d);
  }

  /** The exact condition for sound runs: a script never runs without a firing instant just when the scan is honest. */
  lemma RunsSoundIff(e: Expr)
    requires WellFormed(e)
    ensures RunsSound(e) <==> ScanTells(e)
  {
    hide WellFormed, Honest, SoundAt;
    if ScanTells(e) {
      hide ScanTells;
      forall s, checks, n: nat | Unarmed(s, e) && Ready(s) && Effective(checks) && n < |checks|
        ensures SoundAt(s, checks, n)
      {
        RunIsSound(s, e, checks, n);
      }
    } else {
      var d :| 0 <= d < CYCLE_DAYS && !Honest(e, d);
      HonestRepeats(e, d);
      SpuriousRun(Loaded(e), e, d + CYCLE_DAYS);
    }
  }

  function Loaded(e: Expr): (s: Script)
    ensures Unarmed(s, e)
  {
    Script(true, true, e, 0, 0)
  }

  // ---- Exactness.

  /** Check `n` requests a run just when a firing instant lies since the check before; the first one never does. */
  ghost predicate ExactRunAt(s: Script, checks: seq<Check>, n: nat)
    requires n < |checks| && Ready(s)
  {
    Due(After(s, checks, n), checks[n].time) <==> 1 <= n && FiringIn(s.schedule, checks[n - 1].time, checks[n].time)
  }

  ghost predicate RunsExact(e: Expr)
    requires WellFormed(e)
  {
    forall s, checks, n: nat | Unarmed(s, e) && Ready(s) && Effective(checks) && n < |checks| ::
      ExactRunAt(s, checks, n)
  }

  /** `cron_next` is exact, or its scan is honest and there is nothing to find. */
  predicate RunCondition(e: Expr)
    requires WellFormed(e)
  {
    ExactCondition(e) || (ScanTells(e) && !HasMatch(e))
  }

  /** Under the exact condition an armed script waits for the first firing instant after the last check. */
  lemma {:induction false} ArmedThroughout(s: Script, e: Expr, checks: seq<Check>, n: nat)
    requires WellFormed(e) && Unarmed(s, e) && Ready(s) && ExactCondition(e) && Effective(checks) && 1 <= n <= |checks|
    ensures Armed(After(s, checks, n), checks[n - 1].time)
  {
    hide WellFormed, ExactCondition, Armed, Checked;
    if n == 1 {
      assert After(s, checks, 0) == s;
      FirstCheckArms(s, checks[0].now, checks[0].time);
    } else {
      ArmedThroughout(s, e, checks, n - 1);
      CheckIsExact(After(s, checks, n - 1), checks[n - 2].time, checks[n - 1].now, checks[n - 1].time);
    }
  }

  lemma {:induction false} StaysEnabled(s: Script, e: Expr, checks: seq<Check>, n: nat)
    requires Unarmed(s, e) && Ready(s) && n <= |checks|
    ensures After(s, checks, n).valid && After(s, checks, n).enable
  {
    hide WellFormed, CronNextInstant;
    if n == 0 {
    } else {
      StaysEnabled(s, e, checks, n - 1);
    }
  }

  /** In every run a check requests a run exactly when the script is due. */
  lemma CheckRequests(s: Script, e: Expr, checks: seq<Check>, n: nat)
    requires Unarmed(s, e) && Ready(s) && n < |checks|
    ensures var before, after := After(s, checks, n), After(s, checks, n + 1);
      after.runNow == if Due(before, checks[n].time) then checks[n].now else before.runNow
  {
    hide WellFormed, CronNextInstant;
    StaysEnabled(s, e, checks, n);
  }

  /** Under the condition every check is exact. */
  lemma RunIsExact(s: Script, e: Expr, checks: seq<Check>, n: nat)
    requires WellFormed(e) && Unarmed(s, e) && Ready(s) && RunCondition(e) && Effective(checks) && n < |checks|
    ensures ExactRunAt(s, checks, n)
  {
    hide WellFormed, ExactCondition, ScanTells, HasMatch, Armed, Checked, Match;
    if n == 0 {
    } else if ExactCondition(e) {
      hide FiringIn, Due;
      ArmedThroughout(s, e, checks, n);
      CheckIsExact(After(s, checks, n), checks[n - 1].time, checks[n].now, checks[n].time);
    } else {
      RunIsSound(s, e, checks, n);
      HasMatchIff(e);
    }
  }

  /** Runs that are exact make `cron_next` exact, when there is something to find. */
  lemma RunsShowNext(e: Expr, date: int)
    requires WellFormed(e) && RunsExact(e) && ScanTells(e) && HasMatch(e) && 0 <= date
    ensures CronNextInstant(e, date).Some? && IsNext(e, date, CronNextInstant(e, date).value)
  {
    var later := date + CYCLE_SECONDS;
    assert 0 < later;
    hide *;
    var z := MatchOfCycle(e);
    var y := MatchAhead(e, z, later);
    var x := LeastMatch(e, later, y);
    RunFinds(Loaded(e), e, later, x);
    CronNextRepeats(e, date);
    LaterOf(CronNextInstant(e, date), x);
    NextRepeats(e, date, later, x - CYCLE_SECONDS, x);
  }

  lemma LaterOf(r: Option<int>, x: int)
    requires Later(r) == Some(x)
    ensures r == Some(x - CYCLE_SECONDS)
  {
  }

  lemma NextRepeats(e: Expr, date: int, later: int, x: int, x': int)
    requires later == date + CYCLE_SECONDS && x' == x + CYCLE_SECONDS && IsNext(e, later, x')
    ensures IsNext(e, date, x)
  {
    hide Match;
    MatchRepeats(e, x);
    forall y | date < y < x ensures !Match(e, y) {
      MatchRepeats(e, y);
      assert date + CYCLE_SECONDS < y + CYCLE_SECONDS < x + CYCLE_SECONDS;
    }
  }

  /** Checked at `t` and at the next firing instant, the script runs, so the answer for `t` is that instant. */
  lemma RunFinds(s: Script, e: Expr, t: int, x: int)
    requires WellFormed(e) && RunsExact(e) && ScanTells(e) && Unarmed(s, e) && 0 < t && IsNext(e, t, x)
    ensures CronNextInstant(e, t) == Some(x)
  {
    hide WellFormed, ScanTells, CronNextInstant, Match, After, Due;
    UnarmedIsReady(s, e);
    TwoChecks(s, e, t, x);
    assert ExactRunAt(s, Two(t, x), 1);
    assert FiringIn(e, t, x);
    CronNextIsSound(e, t);
  }

  /**
   The exact condition for exact runs: `cron_next` is exact, or the scan is honest and the expression never
   matches.
   */
  lemma RunsExactIff(e: Expr)
    requires WellFormed(e)
    ensures RunsExact(e) <==> RunCondition(e)
  {
    hide WellFormed, ExactCondition, ScanTells, HasMatch, SoundAt, Effective;
    if RunCondition(e) {
      hide RunCondition, ExactRunAt;
      forall s, checks, n: nat | Unarmed(s, e) && Ready(s) && Effective(checks) && n < |checks|
        ensures ExactRunAt(s, checks, n)
      {
        RunIsExact(s, e, checks, n);
      }
    }
    if RunsExact(e) {
      ExactRunsAreSound(e);
      RunsSoundIff(e);
      hide RunsExact, RunsSound, CronNextInstant, IsNext;
      if HasMatch(e) {
        forall date | 0 <= date
          ensures CronNextInstant(e, date).Some? && IsNext(e, date, CronNextInstant(e, date).value)
        {
          RunsShowNext(e, date);
        }
        ExactIff(e);
      }
    }
  }

  lemma ExactRunsAreSound(e: Expr)
    requires WellFormed(e) && RunsExact(e)
    ensures RunsSound(e)
  {
    hide WellFormed, After, Due, FiringIn, Effective;
    forall s, checks, n: nat | Unarmed(s, e) && Ready(s) && Effective(checks) && n < |checks|
      ensures SoundAt(s, checks, n)
    {
      assert ExactRunAt(s, checks, n);
    }
  }

  // ---- The number of requests.

  /** The run requests of the first `n` checks. */
  ghost function Requests(s: Script, checks: seq<Check>, n: nat): nat
    requires n <= |checks| && Ready(s)
  {
    if n == 0 then 0
    else Requests(s, checks, n - 1) + if Due(After(s, checks, n - 1), checks[n - 1].time) then 1 else 0
  }

  /** The intervals between the first `n` checks that hold a firing instant. */
  ghost function FiringIntervals(e: Expr, checks: seq<Check>, n: nat): nat
    requires n <= |checks|
  {
    if n <= 1 then 0
    else FiringIntervals(e, checks, n - 1) + if FiringIn(e, checks[n - 2].time, checks[n - 1].time) then 1 else 0
  }

  /** A run makes as many requests as there are intervals with a firing instant. */
  lemma {:induction false} RequestsCountIntervals(s: Script, e: Expr, checks: seq<Check>, n: nat)
    requires WellFormed(e) && Unarmed(s, e) && Ready(s) && RunCondition(e) && Effective(checks) && n <= |checks|
    ensures Requests(s, checks, n) == FiringIntervals(e, checks, n)
    decreases n
  {
    hide WellFormed, RunCondition, Due, FiringIn, After, Effective;
    if n == 0 {
    } else {
      RequestsCountIntervals(s, e, checks, n - 1);
      RunIsExact(s, e, checks, n - 1);
    }
  }

  ghost predicate RunsCount(e: Expr)
    requires WellFormed(e)
  {
    forall s, checks, n: nat | Unarmed(s, e) && Ready(s) && Effective(checks) && n <= |checks| ::
      Requests(s, checks, n) == FiringIntervals(e, checks, n)
  }

  /** Counting requests tells as much as looking at each check. */
  lemma RunsCountIff(e: Expr)
    requires WellFormed(e)
    ensures RunsCount(e) <==> RunCondition(e)
  {
    hide WellFormed, RunCondition, Due, FiringIn, After, Effective;
    if RunCondition(e) {
      forall s, checks, n: nat | Unarmed(s, e) && Ready(s) && Effective(checks) && n <= |checks|
        ensures Requests(s, checks, n) == FiringIntervals(e, checks, n)
      {
        RequestsCountIntervals(s, e, checks, n);
      }
    }
    if RunsCount(e) {
      forall s, checks, n: nat | Unarmed(s, e) && Ready(s) && Effective(checks) && n < |checks|
        ensures ExactRunAt(s, checks, n)
      {
        assert Requests(s, checks, n) == FiringIntervals(e, checks, n);
        assert Requests(s, checks, n + 1) == FiringIntervals(e, checks, n + 1);
      }
      RunsExactIff(e);
    }
  }

  // ---- Examples.

  /** Midnight of 31 February: nothing ever matches, so all runs are exact, although `cron_next` never answers. */
  const NEVER := Expr({0}, {0}, {0}, {31}, {1}, {0, 1, 2, 3, 4, 5, 6})

  lemma NeverRuns()
    ensures WellFormed(NEVER) && RunsExact(NEVER) && !ExactCondition(NEVER) && !HasMatch(NEVER)
    ensures forall date :: CronNextInstant(NEVER, date) == None
  {
    NeverIsStar();
    hide *;
    NeverMatches();
    OneStarIsHonest(NEVER);
    forall date ensures CronNextInstant(NEVER, date) == None {
      NothingToAnswer(NEVER, date);
    }
    if ExactCondition(NEVER) {
      ExactHasMatch(NEVER);
    }
    NeverMeets();
    RunsExactIff(NEVER);
  }

  lemma NothingToAnswer(e: Expr, date: int)
    requires WellFormed(e) && ScanTells(e) && !HasMatch(e)
    ensures CronNextInstant(e, date) == None
  {
    hide *;
    HasMatchIff(e);
    if CronNextInstant(e, date).Some? {
      CronNextIsSound(e, date);
    }
  }

  lemma NeverIsStar()
    ensures OneStar(NEVER) && WellFormed(NEVER)
  {
    assert 0 in NEVER.seconds && 31 in NEVER.daysOfMonth && 1 in NEVER.months && 0 in NEVER.daysOfWeek;
  }

  lemma NeverMatches()
    ensures !HasMatch(NEVER)
  {
    hide DayOfMonth, MonthOf, Weekday;
    forall d | 0 <= d < CYCLE_DAYS ensures !(DayOk(NEVER, d) && MonthOk(NEVER, MonthOf(d))) {
      FebruaryIsShort(d);
    }
  }

  lemma FebruaryIsShort(d: int)
    ensures MonthOf(d) % 12 == 1 ==> DayOfMonth(d) <= 29
  {
    hide MonthStart, LeapYear;
    MonthLength(MonthOf(d));
  }

  lemma NeverMeets()
    requires WellFormed(NEVER) && ScanTells(NEVER) && !HasMatch(NEVER)
    ensures RunCondition(NEVER)
  {
    hide ScanTells, HasMatch, ExactCondition;
  }

  /** Where every date has an answer there is something to find. */
  lemma ExactHasMatch(e: Expr)
    requires WellFormed(e) && ExactCondition(e)
    ensures HasMatch(e)
  {
    hide *;
    ConditionSuffices(e);
    ExactAt(e, 0);
    assert Match(e, CronNextInstant(e, 0).value);
    HasMatchIff(e);
  }
}
