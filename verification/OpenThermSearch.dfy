/**
 The first loop of `opentherm_dev_pio_find`: a search for the receive frequency that climbs in large
 steps while the device is silent, turns back in smaller ones when the answer is garbled, and so on
 down to single hertz.
 */
module OpenThermSearch {
  import opened Manchester

  const MAX_SEARCH_HZ := 1000000
  const END_BIT := 0x8000_0000

  /** What an exchange leaves behind: its return code and the three words received. */
  datatype Reply = Reply(ret: int, in0: nat, in1: nat, in2: nat)

  predicate IsReply(r: Reply) {
    r.in0 < TWO_32 && r.in1 < TWO_32 && r.in2 < TWO_32
  }

  datatype Kind = Silent | Garbled | Clean

  function KindOf(r: Reply): Kind {
    if r.in2 == 0 || r.ret != 0 then Silent
    else if r.in2 != END_BIT || DecodeBits(BitsOf(r.in0 * TWO_32 + r.in1, 64), false).None? then Garbled
    else Clean
  }

  datatype Tuning = Tuning(hz: nat, step: nat, up: bool)

  const START := Tuning(1, 10000, true)

  /** The states in which an exchange takes place: the step fits the direction, the frequency the range. */
  predicate Searching(s: Tuning) {
    && 1 <= s.hz < MAX_SEARCH_HZ
    && (if s.up then s.step == 10000 || s.step == 100 || s.step == 1 else s.step == 1000 || s.step == 10)
  }

  /** Unsigned subtraction wraps around. */
  function Minus32(a: nat, b: nat): nat
    requires b <= TWO_32
  {
    (a + TWO_32 - b) % TWO_32
  }

  /** The divider of the system clock for a sampling frequency. */
  function Divider(clock: nat, hz: nat): real
    requires 0 < hz
  {
    clock as real / hz as real
  }

  predicate IsDivider(divider: real, clock: nat, hz: nat) {
    divider * hz as real == clock as real
  }

  lemma DividerDivides(clock: nat, hz: nat)
    requires 0 < hz
    ensures IsDivider(Divider(clock, hz), clock, hz)
  {
  }

  /** The next frequency. */
  function Adjust(s: Tuning, silent: bool): Tuning
    requires Searching(s)
  {
    var step := if s.up == silent then s.step else s.step / 10;
    Tuning(if silent then s.hz + step else Minus32(s.hz, step), step, silent)
  }

  /** The loop condition. */
  predicate Goes(s: Tuning) {
    s.step != 0 && 0 < s.hz < MAX_SEARCH_HZ
  }

  /** Rounds that the steps smaller than the given one can take. */
  function Below(step: nat): nat {
    if step == 10000 then 1110999 else if step == 1000 then 1109999
    else if step == 100 then 1099999 else if step == 10 then 999999 else 0
  }

  /** A bound on the rounds after this one. */
  function Left(s: Tuning): nat
    requires Searching(s)
  {
    (if s.up then MAX_SEARCH_HZ - 1 - s.hz else s.hz - 1) / s.step + Below(s.step)
  }

  /** Whatever the device answers, the search either stops or comes closer to its end. */
  lemma SearchAdvances(s: Tuning, silent: bool)
    requires Searching(s) && Goes(Adjust(s, silent))
    ensures Searching(Adjust(s, silent)) && Left(Adjust(s, silent)) < Left(s)
  {
    var n := Adjust(s, silent);
    assert n.hz == (if silent then s.hz + n.step else s.hz - n.step);
    if s.step == 10000 {
    } else if s.step == 1000 {
    } else if s.step == 100 {
    } else if s.step == 10 {
    }
  }

  datatype Outcome = Found(hz: nat, round: nat) | Lost(last: Tuning, round: nat)

  /** The search against a device that may answer differently in every round and at every frequency. */
  function Run(s: Tuning, answer: (nat, nat) -> Reply, round: nat): Outcome
    requires Searching(s)
    decreases Left(s)
  {
    var k := KindOf(answer(round, s.hz));
    if k == Clean then Found(s.hz, round)
    else
      var n := Adjust(s, k == Silent);
      if Goes(n) then
        SearchAdvances(s, k == Silent);
        Run(n, answer, round + 1)
      else Lost(n, round)
  }

  predicate OutOfRange(s: Tuning) {
    || s.step == 0
    || s.hz == 0
    || MAX_SEARCH_HZ <= s.hz < MAX_SEARCH_HZ + 10000
    || TWO_32 - 1000 < s.hz < TWO_32
  }

  /**
   The search ends within a fixed number of rounds. It ends on a frequency in range whose answer was
   clean, or because single steps came back, or outside the range: at zero, past the top, or wrapped
   around from below.
   */
  lemma {:induction false} SearchEnds(s: Tuning, answer: (nat, nat) -> Reply, round: nat)
    requires Searching(s)
    ensures var o := Run(s, answer, round);
      && round <= o.round <= round + Left(s)
      && (o.Found? ==> 1 <= o.hz < MAX_SEARCH_HZ && KindOf(answer(o.round, o.hz)) == Clean)
      && (o.Lost? ==> OutOfRange(o.last))
    decreases Left(s)
  {
    hide KindOf, Left;
    var k := KindOf(answer(round, s.hz));
    if k != Clean && Goes(Adjust(s, k == Silent)) {
      SearchAdvances(s, k == Silent);
      SearchEnds(Adjust(s, k == Silent), answer, round + 1);
    }
  }

  /** The loop; `answer` stands for the device. No division is by zero. `rounds` counts the exchanges. */
  method Find(answer: (nat, nat) -> Reply, clock: nat) returns (found: bool, hz: nat, divider: real, rounds: nat)
    requires forall t: nat, f: nat :: IsReply(answer(t, f))
    ensures var o := Run(START, answer, 0);
      && found == o.Found? && (found ==> 0 < hz == o.hz && divider == Divider(clock, hz))
      && rounds == o.round + 1 && rounds <= 1111099
    ensures found ==> IsDivider(divider, clock, hz)
  {
    var step: nat, up := 10000, true;
    found, hz, rounds := false, 1, 0;
    SearchEnds(START, answer, 0);
    hide KindOf, Left, BitsOf, DecodeBits, Run, Minus32, Divider, IsDivider;
    while true
      invariant Searching(Tuning(hz, step, up))
      invariant Run(START, answer, 0) == Run(Tuning(hz, step, up), answer, rounds)
      decreases Left(Tuning(hz, step, up))
    {
      ghost var s := Tuning(hz, step, up);
      divider := Divider(clock, hz);
      var r := answer(rounds, hz);
      RunStep(s, answer, rounds);
      KindIs(r);
      rounds := rounds + 1;
      if r.in2 == 0 || r.ret != 0 {
        if !up {
          up := true;
          step := step / 10;
        }
        hz := hz + step;
      } else if r.in2 != END_BIT {
        if up {
          up := false;
          step := step / 10;
        }
        hz := Minus32(hz, step);
      } else {
        var decoded := Decodes(r);
        if !decoded {
          if up {
            up := false;
            step := step / 10;
          }
          hz := Minus32(hz, step);
        } else {
          found := true;
          DividerDivides(clock, hz);
          return;
        }
      }
      assert Tuning(hz, step, up) == Adjust(s, KindOf(r) == Silent);
      if !(step != 0 && hz > 0 && hz < MAX_SEARCH_HZ) {
        return;
      }
      SearchAdvances(s, KindOf(r) == Silent);
    }
  }

  /** The reply's line word is a code. */
  method Decodes(r: Reply) returns (decoded: bool)
    requires IsReply(r)
    ensures decoded == DecodeBits(BitsOf(r.in0 * TWO_32 + r.in1, 64), false).Some?
  {
    hide DecodeBits, BitsOf;
    var failed, f := ManchesterDecode(r.in0 * TWO_32 + r.in1, false, 0);
    decoded := failed == 0;
  }

  /** A reply is silence without an end word, and clean when only the end bit is in it and the line decodes. */
  lemma KindIs(r: Reply)
    ensures KindOf(r) == Silent <==> r.in2 == 0 || r.ret != 0
    ensures KindOf(r) == Clean <==>
      r.in2 == 0x8000_0000 && r.ret == 0 && DecodeBits(BitsOf(r.in0 * TWO_32 + r.in1, 64), false).Some?
  {
    hide BitsOf, DecodeBits;
  }

  lemma RunStep(s: Tuning, answer: (nat, nat) -> Reply, round: nat)
    requires Searching(s)
    ensures var k, n := KindOf(answer(round, s.hz)), Adjust(s, KindOf(answer(round, s.hz)) == Silent);
      && (k == Clean ==> Run(s, answer, round) == Found(s.hz, round))
      && (k != Clean && !Goes(n) ==> Run(s, answer, round) == Lost(n, round))
      && (k != Clean && Goes(n) ==> Searching(n) && Run(s, answer, round) == Run(n, answer, round + 1))
  {
    hide KindOf, Left;
    var silent := KindOf(answer(round, s.hz)) == Silent;
    if Goes(Adjust(s, silent)) {
      SearchAdvances(s, silent);
    }
  }

  // ---- A device with a window of frequencies.

  /** Silent below the window, garbled above it, clean inside: the device the search is made for. */
  ghost predicate HasWindow(answer: (nat, nat) -> Reply, lo: nat, hi: nat) {
    && 1 <= lo <= hi
    && forall t: nat, f: nat :: KindOf(answer(t, f)) == if f < lo then Silent else if f <= hi then Clean else Garbled
  }

  /**
   What the search knows: the frequency tried before was on the other side of the window, and `other`, a
   whole number of steps ahead, is on the far side of it.
   */
  predicate Bracketed(s: Tuning, other: int, lo: nat, hi: nat) {
    && Searching(s)
    && (s.step == 10000 ==> s.hz % 10000 == 1 && (s.hz == 1 || s.hz < lo + 10000))
    && (s.step == 1000 ==> Ahead(s, other, lo, hi, 1000))
    && (s.step == 100 ==> Ahead(s, other, lo, hi, 100))
    && (s.step == 10 ==> Ahead(s, other, lo, hi, 10))
    && (s.step == 1 ==> Ahead(s, other, lo, hi, 1))
  }

  predicate Ahead(s: Tuning, other: int, lo: nat, hi: nat, step: nat)
    requires 0 < step
  {
    && (other - s.hz) % step == 0
    && if s.up then step < s.hz < lo + step && s.hz <= other <= 990001 && hi < other
       else hi < s.hz + step <= 990001 && 1 <= other <= s.hz && other < lo
  }

  lemma SilentUp(s: Tuning, other: int, lo: nat, hi: nat)
    requires Bracketed(s, other, lo, hi) && 1 <= lo <= hi && lo <= 990001 && s.up && s.hz < lo
    ensures Goes(Adjust(s, true)) && Bracketed(Adjust(s, true), other, lo, hi)
  {
  }

  lemma GarbledDown(s: Tuning, other: int, lo: nat, hi: nat)
    requires Bracketed(s, other, lo, hi) && 1 <= lo <= hi && !s.up && hi < s.hz
    ensures Goes(Adjust(s, false)) && Bracketed(Adjust(s, false), other, lo, hi)
  {
    assert s.hz - s.step >= other;
    assert (s.hz + TWO_32 - s.step) % TWO_32 == s.hz - s.step;
  }

  lemma SilentDown(s: Tuning, other: int, lo: nat, hi: nat)
    requires Bracketed(s, other, lo, hi) && 1 <= lo <= hi && !s.up && s.hz < lo
    ensures Goes(Adjust(s, true)) && Bracketed(Adjust(s, true), s.hz + s.step, lo, hi)
  {
  }

  lemma GarbledUp(s: Tuning, other: int, lo: nat, hi: nat)
    requires Bracketed(s, other, lo, hi) && 1 <= lo <= hi && lo <= 990001 && s.up && hi < s.hz
    ensures Goes(Adjust(s, false)) && Bracketed(Adjust(s, false), s.hz - s.step, lo, hi)
  {
    assert s.step != 1;
    assert s.step < s.hz;
    assert (s.hz + TWO_32 - s.step / 10) % TWO_32 == s.hz - s.step / 10;
  }

  /** The bracket closes on the window: a round that is not clean goes on with a smaller one. */
  lemma BracketShrinks(s: Tuning, other: int, lo: nat, hi: nat, silent: bool) returns (next: int)
    requires Bracketed(s, other, lo, hi) && 1 <= lo <= hi && lo <= 990001
    requires if silent then s.hz < lo else hi < s.hz
    ensures Goes(Adjust(s, silent)) && Bracketed(Adjust(s, silent), next, lo, hi)
  {
    hide Bracketed;
    BracketIsSearching(s, other, lo, hi);
    if s.up == silent {
      next := other;
    } else {
      next := if silent then s.hz + s.step else s.hz - s.step;
    }
    if s.up {
      if silent { SilentUp(s, other, lo, hi); } else { GarbledUp(s, other, lo, hi); }
    } else {
      if silent { SilentDown(s, other, lo, hi); } else { GarbledDown(s, other, lo, hi); }
    }
  }

  lemma {:induction false} BracketedIsFound(s: Tuning, other: int, answer: (nat, nat) -> Reply, round: nat,
    lo: nat, hi: nat)
    requires Bracketed(s, other, lo, hi) && HasWindow(answer, lo, hi) && lo <= 990001
    ensures var o := Run(s, answer, round); o.Found? && lo <= o.hz <= hi
    decreases Left(s)
  {
    hide KindOf, Left, Bracketed;
    assert Searching(s) by { BracketIsSearching(s, other, lo, hi); }
    var k := KindOf(answer(round, s.hz));
    if k != Clean {
      var next := BracketShrinks(s, other, lo, hi, k == Silent);
      SearchAdvances(s, k == Silent);
      BracketedIsFound(Adjust(s, k == Silent), next, answer, round + 1, lo, hi);
    }
  }

  lemma BracketIsSearching(s: Tuning, other: int, lo: nat, hi: nat)
    requires Bracketed(s, other, lo, hi)
    ensures Searching(s)
  {
  }

  /** Beyond the last rung of the ladder the search leaves the range without an answer. */
  lemma {:induction false} BeyondIsLost(s: Tuning, answer: (nat, nat) -> Reply, round: nat, lo: nat, hi: nat)
    requires Searching(s) && s.step == 10000 && s.hz % 10000 == 1 && HasWindow(answer, lo, hi) && 990001 < lo
    ensures Run(s, answer, round).Lost?
    decreases Left(s)
  {
    hide KindOf, Left;
    if Goes(Adjust(s, true)) {
      SearchAdvances(s, true);
      BeyondIsLost(Adjust(s, true), answer, round + 1, lo, hi);
    }
  }

  /**
   A device with a window, however narrow, is found inside it, unless the window starts above the last
   frequency that the large steps try.
   */
  lemma WindowIsFound(answer: (nat, nat) -> Reply, lo: nat, hi: nat)
    requires HasWindow(answer, lo, hi)
    ensures var o := Run(START, answer, 0);
      && (o.Found? <==> lo <= 990001)
      && (o.Found? ==> lo <= o.hz <= hi)
  {
    if lo <= 990001 {
      BracketedIsFound(START, 0, answer, 0, lo, hi);
    } else {
      BeyondIsLost(START, answer, 0, lo, hi);
    }
  }
}
