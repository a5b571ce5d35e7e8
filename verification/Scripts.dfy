/**
 The script scheduler: the periodic check that turns due cron schedules into run requests, and
 the choice of the script to run. The two clocks are parameters: milliseconds since boot, and
 the calendar time of the one reading a check makes.
 */
module Scripts {
  import opened Gregorian
  import opened Wrappers
  import opened CronExpr
  import opened CronSound
  import opened CronExact
  import opened CronNext

  const CRON_CHECK_MS := 30000

  /** `script_t`, with its `script_cron_t` flattened. `runNow` is 0 when no run is requested. */
  datatype Script = Script(valid: bool, enable: bool, schedule: Expr, next: int, runNow: int)

  ghost predicate Ready(s: Script) {
    s.valid ==> WellFormed(s.schedule)
  }

  ghost function NextFiring(e: Expr, t: int): int
    requires WellFormed(e)
  {
    match CronNextInstant(e, t) case Some(r) => r case None => INVALID_INSTANT
  }

  /** A check makes this script run. */
  predicate Due(s: Script, t: int) {
    s.valid && s.enable && 0 < s.next <= t
  }

  /** What a check at boot time `now` and calendar time `t` does to one script. */
  ghost function Checked(s: Script, now: int, t: int): Script
    requires Ready(s)
  {
    if !s.valid || !s.enable then s
    else if s.next <= 0 then s.(next := NextFiring(s.schedule, t))
    else if s.next <= t then s.(runNow := now, next := NextFiring(s.schedule, t))
    else s
  }

  class Scheduler {
    const scripts: array<Script>
    var lastCron: int

    /** Every valid schedule is a parsed one. */
    ghost predicate Valid()
      reads this, scripts
    {
      0 <= lastCron && forall i | 0 <= i < scripts.Length :: Ready(scripts[i])
    }

    constructor (loaded: array<Script>)
      requires forall i | 0 <= i < loaded.Length :: Ready(loaded[i])
      ensures Valid() && scripts == loaded && lastCron == 0
    {
      scripts := loaded;
      lastCron := 0;
    }

    /** `script_cron_set_next`, on the clock reading of the check. */
    method CronSetNext(i: nat, t: int)
      requires i < scripts.Length && Ready(scripts[i]) && 0 <= t
      modifies scripts
      ensures forall j | 0 <= j < scripts.Length && j != i :: scripts[j] == old(scripts[j])
      ensures var s := old(scripts[i]);
        scripts[i] == if s.valid then s.(next := NextFiring(s.schedule, t)) else s
    {
      if !scripts[i].valid {
        return;
      }
      var next := CronNext.CronNext(scripts[i].schedule, t);
      scripts[i] := scripts[i].(next := next);
    }

    /**
     `script_cron_check`. It does nothing until the time is known, within 30 s of the last check, or
     when the clock cannot be read; a calendar time of 0 counts as a failed reading.
     */
    method CronCheck(now: int, timeValid: bool, clock: Option<int>)
      requires Valid() && lastCron <= now
      requires clock.Some? ==> 0 <= clock.value
      modifies this`lastCron, scripts
      ensures Valid()
      ensures var runs := timeValid && 30000 <= now - old(lastCron) && clock.Some? && clock.value != 0;
        if runs then
          && lastCron == now
          && forall i | 0 <= i < scripts.Length :: scripts[i] == Checked(old(scripts[i]), now, clock.value)
        else lastCron == old(lastCron) && scripts[..] == old(scripts[..])
      ensures forall i | 0 <= i < scripts.Length && !(old(scripts[i]).valid && old(scripts[i]).enable) ::
        scripts[i] == old(scripts[i])
    {
      hide WellFormed, CronNextInstant;
      if !timeValid || now - lastCron < CRON_CHECK_MS || clock.None? || clock.value == 0 {
        return;
      }
      var t := clock.value;
      var i := 0;
      while i < scripts.Length
        invariant 0 <= i <= scripts.Length && lastCron == old(lastCron)
        invariant forall j | 0 <= j < scripts.Length :: Ready(scripts[j])
        invariant forall j | 0 <= j < i :: scripts[j] == Checked(old(scripts[j]), now, t)
        invariant forall j | i <= j < scripts.Length :: scripts[j] == old(scripts[j])
      {
        var s := scripts[i];
        if !s.valid || !s.enable {
        } else if s.next <= 0 {
          CronSetNext(i, t);
        } else if s.next <= t {
          scripts[i] := s.(runNow := now);
          CronSetNext(i, t);
        }
        i := i + 1;
      }
      lastCron := now;
    }

    /**
     The selection of `sys_scripts_run`: the earliest request, the first one among equals, is taken
     and cleared; -1 when there is none.
     */
    method TakeRequest() returns (chosen: int)
      modifies scripts
      ensures -1 <= chosen < scripts.Length
      ensures chosen == -1 ==> forall i | 0 <= i < scripts.Length :: old(scripts[i]).runNow == 0
      ensures chosen == -1 ==> scripts[..] == old(scripts[..])
      ensures chosen != -1 ==>
        var r := old(scripts[chosen]).runNow;
        && r != 0
        && (forall i | 0 <= i < scripts.Length && old(scripts[i]).runNow != 0 ::
              r < old(scripts[i]).runNow || (r == old(scripts[i]).runNow && chosen <= i))
        && scripts[..] == old(scripts[..])[chosen := old(scripts[chosen]).(runNow := 0)]
    {
      chosen := -1;
      for i := 0 to scripts.Length
        invariant -1 <= chosen < i
        invariant chosen == -1 ==> forall k | 0 <= k < i :: scripts[k].runNow == 0
        invariant chosen != -1 ==> scripts[chosen].runNow != 0
        invariant chosen != -1 ==> forall k | 0 <= k < i && scripts[k].runNow != 0 ::
          scripts[chosen].runNow < scripts[k].runNow || (scripts[chosen].runNow == scripts[k].runNow && chosen <= k)
        invariant scripts[..] == old(scripts[..])
      {
        if scripts[i].runNow != 0 && (chosen < 0 || scripts[i].runNow < scripts[chosen].runNow) {
          chosen := i;
        }
      }
      if chosen >= 0 {
        scripts[chosen] := scripts[chosen].(runNow := 0);
      }
    }
  }

  // ---- One check.

  /** The script waits for the first firing instant after `last`. */
  ghost predicate Armed(s: Script, last: int) {
    s.valid && s.enable && IsNext(s.schedule, last, s.next)
  }

  /** Some firing instant lies after `last` and not after `t`. */
  ghost predicate FiringIn(e: Expr, last: int, t: int) {
    exists x :: last < x <= t && Match(e, x)
  }

  /**
   From one check to the next: the script runs exactly when a firing instant lies in between, once
   however many there are, and then waits for the first one in the future.
   */
  lemma CheckIsExact(s: Script, last: int, now: int, t: int)
    requires Ready(s) && Armed(s, last) && ExactCondition(s.schedule) && 0 <= last <= t
    ensures Due(s, t) <==> FiringIn(s.schedule, last, t)
    ensures Checked(s, now, t).runNow == if FiringIn(s.schedule, last, t) then now else s.runNow
    ensures Armed(Checked(s, now, t), t) && t < Checked(s, now, t).next
  {
    hide WellFormed, Match, ExactCondition, CronNextInstant;
    ConditionSuffices(s.schedule);
    if Due(s, t) {
      assert Match(s.schedule, s.next);
    }
  }

  /** The first check of an enabled script arms it. */
  lemma FirstCheckArms(s: Script, now: int, t: int)
    requires Ready(s) && s.valid && s.enable && s.next <= 0 && ExactCondition(s.schedule) && 0 <= t
    ensures Armed(Checked(s, now, t), t) && Checked(s, now, t).runNow == s.runNow
  {
    hide WellFormed, Match, ExactCondition, CronNextInstant;
    ConditionSuffices(s.schedule);
  }

  /** The script is to be armed, or waits for some firing instant after `last`. */
  ghost predicate Waits(s: Script, last: int) {
    s.valid && s.enable && (s.next <= 0 || (last < s.next && Match(s.schedule, s.next)))
  }

  lemma CheckIsSound(s: Script, last: int, now: int, t: int)
    requires Ready(s) && Waits(s, last) && ScanTells(s.schedule) && 0 <= last <= t
    ensures Due(s, t) ==> FiringIn(s.schedule, last, t)
    ensures Checked(s, now, t).runNow == if Due(s, t) then now else s.runNow
    ensures Waits(Checked(s, now, t), t)
  {
    hide WellFormed, Match, ScanTells, CronNextInstant;
    if CronNextInstant(s.schedule, t).Some? {
      CronNextIsSound(s.schedule, t);
    }
    if Due(s, t) {
      assert Match(s.schedule, s.next);
    }
  }

  /**
   The script of the first Monday of a month, 9:00, checked when due at 9:00 on Friday 5 January 2024: it runs
   at midnight of Monday 5 February, with no firing instant since, and again at 9:00.
   */
  lemma MidnightRun(s: Script, now: int)
    requires s.schedule == FIRST_MONDAY && s.valid && s.enable && s.next == 86400 * 19727 + 9 * 3600
    ensures Ready(s)
    ensures var e, friday, midnight := s.schedule, s.next, 86400 * 19758;
      var first := Checked(s, now, friday);
      var second := Checked(first, now + 1, midnight);
      && Due(s, friday) && Due(first, midnight) && Due(second, midnight + 9 * 3600)
      && !FiringIn(e, friday, midnight) && FiringIn(e, midnight, midnight + 9 * 3600)
  {
    var e := s.schedule;
    FirstMondayFiresTwice(e);
    NineMatches(e);
    hide WellFormed, CronNextInstant, Match, ScanTells;
    forall x | 86400 * 19727 + 9 * 3600 < x <= 86400 * 19758 ensures !Match(e, x) {
      NothingSinceFriday(e, x);
    }
  }

  lemma NothingSinceFriday(e: Expr, x: int)
    requires e == FIRST_MONDAY && 86400 * 19727 < x <= 86400 * 19758
    ensures !Match(e, x)
  {
    MatchOnDay(e, x);
    DayOfMinuteIx(x);
    NotAtMidnight(e);
    hide Match, DayOk, MonthOk, MonthOf, DayOf;
    if x < 86400 * 19758 {
      assert 19727 <= DayIx(x) < 19758;
      FirstMondayOf2024(e, DayIx(x));
    }
  }
}
