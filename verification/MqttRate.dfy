/**
 The rate limiter of `mqtt_msg_publish`: at most a configured number of packets per window of at least a
 minute. The clock is in milliseconds since boot; counters have the widths of the source.
 */
module MqttRate {

  const MSEC2MIN := 60000
  const TWO_32 := 0x1_0000_0000
  const TWO_64 := 0x1_0000_0000_0000_0000

  datatype Limiter = Limiter(lastSend: nat, pktCount: nat, pktSend: nat)

  const BOOT := Limiter(0, 0, 0)

  /**
   What happens to the limiter: a message that reaches it, with the result of handing it to the client, or
   a connection attempt, which also stamps the time of the last send.
   */
  datatype Event = Publish(now: nat, sent: bool) | Connect(now: nat)

  function Minus64(a: nat, b: nat): nat {
    (a - b) % TWO_64
  }

  predicate InWidth(s: Limiter) {
    s.pktCount < TWO_32 && s.pktSend < TWO_64
  }

  predicate Resets(s: Limiter, maxPpm: nat, now: nat) {
    s.pktCount >= maxPpm && Minus64(now, s.pktSend) >= MSEC2MIN
  }

  /** The message is held back. */
  predicate Blocks(s: Limiter, maxPpm: nat, now: nat) {
    s.pktCount >= maxPpm && Minus64(now, s.pktSend) < MSEC2MIN && s.lastSend != 0
  }

  function Step(s: Limiter, maxPpm: nat, e: Event): Limiter {
    match e
    case Connect(now) => s.(lastSend := now)
    case Publish(now, sent) =>
      if Blocks(s, maxPpm, now) then s
      else if !sent then s.(pktCount := (s.pktCount + 1) % TWO_32)
      else if Resets(s, maxPpm, now) then Limiter(now, 1, now)
      else Limiter(now, (s.pktCount + 1) % TWO_32, s.pktSend)
  }

  /** The event publishes a packet. */
  predicate Succeeds(s: Limiter, maxPpm: nat, e: Event) {
    e.Publish? && e.sent && !Blocks(s, maxPpm, e.now)
  }

  // ---- Runs, with a record of what they publish.

  /**
   The limiter with the packets sent and the sends failed in the current window, the packets published and the
   windows opened since boot, the time of the event that opened the window, 0 for the first, and that of the last
   connection or published packet, 0 if there was none. A window opens with the packet that resets the counter.
   */
  datatype Record = Record(
    limiter: Limiter, wins: nat, fails: nat, published: nat, windows: nat, openedAt: nat, stamp: nat)

  const START := Record(BOOT, 0, 0, 0, 0, 0, 0)

  function Next(r: Record, maxPpm: nat, e: Event): Record {
    var s := Step(r.limiter, maxPpm, e);
    if e.Connect? then r.(limiter := s, stamp := e.now)
    else if Blocks(r.limiter, maxPpm, e.now) then r.(limiter := s)
    else if !e.sent then r.(limiter := s, fails := r.fails + 1)
    else if Resets(r.limiter, maxPpm, e.now) then Record(s, 1, 0, r.published + 1, r.windows + 1, e.now, e.now)
    else r.(limiter := s, wins := r.wins + 1, published := r.published + 1, stamp := e.now)
  }

  /** From boot, after some events. */
  function After(maxPpm: nat, events: seq<Event>): Record {
    if events == [] then START
    else Next(After(maxPpm, events[..|events| - 1]), maxPpm, events[|events| - 1])
  }

  lemma AfterNext(maxPpm: nat, events: seq<Event>, n: nat)
    requires n < |events|
    ensures After(maxPpm, events[..n + 1]) == Next(After(maxPpm, events[..n]), maxPpm, events[n])
  {
    assert events[..n + 1][..n] == events[..n];
    hide Next;
  }

  lemma AfterNone(maxPpm: nat, events: seq<Event>)
    ensures After(maxPpm, events[..0]) == START
  {
  }

  /** A clock that is never 0, does not run back and does not wrap around. */
  ghost predicate Clocked(events: seq<Event>) {
    && (forall i | 0 <= i < |events| :: 0 < events[i].now < TWO_64)
    && forall i, j | 0 <= i < j < |events| :: events[i].now <= events[j].now
  }

  /** No window sees more than `f` failed sends. */
  ghost predicate FewFailures(maxPpm: nat, events: seq<Event>, f: nat) {
    forall n | 0 <= n <= |events| :: After(maxPpm, events[..n]).fails <= f
  }

  /** A limit of zero still lets one packet through. */
  function Limit(maxPpm: nat): nat { if maxPpm == 0 then 1 else maxPpm }

  /** No window sees more packets than allowed. */
  ghost predicate WithinLimit(maxPpm: nat, events: seq<Event>) {
    forall n | 0 <= n <= |events| :: After(maxPpm, events[..n]).wins <= Limit(maxPpm)
  }

  // ---- Without a wrap-around of the counter the limit holds.

  /** So many failed sends in a window cannot make the packet counter wrap around. */
  predicate NoWrap(maxPpm: nat, f: nat) {
    maxPpm == 0 || f + maxPpm < TWO_32
  }

  /** The counter counts the sends of the window, of which no more succeeded than allowed. */
  predicate Accounted(r: Record, maxPpm: nat) {
    && (maxPpm == 0 || r.limiter.pktCount == r.wins + r.fails)
    && r.wins <= Limit(maxPpm) && (r.limiter.lastSend == 0 ==> r.wins == 0)
  }

  lemma AccountedNext(r: Record, maxPpm: nat, e: Event, f: nat)
    requires Accounted(r, maxPpm) && NoWrap(maxPpm, f) && 0 < e.now
    requires r.fails <= f && Next(r, maxPpm, e).fails <= f
    ensures Accounted(Next(r, maxPpm, e), maxPpm)
  {
    hide Minus64;
  }

  lemma {:induction false} StaysAccounted(maxPpm: nat, events: seq<Event>, f: nat, n: nat)
    requires Clocked(events) && FewFailures(maxPpm, events, f) && NoWrap(maxPpm, f) && n <= |events|
    ensures Accounted(After(maxPpm, events[..n]), maxPpm)
  {
    hide Accounted, Next, After;
    if n == 0 {
      AfterNone(maxPpm, events);
      StartAccounted(maxPpm);
    } else {
      StaysAccounted(maxPpm, events, f, n - 1);
      AfterNext(maxPpm, events, n - 1);
      AccountedNext(After(maxPpm, events[..n - 1]), maxPpm, events[n - 1], f);
    }
  }

  lemma StartAccounted(maxPpm: nat)
    ensures Accounted(START, maxPpm)
  {
  }

  /** A limit of zero lets one packet through per window, whatever sends fail. */
  lemma ZeroLimit(events: seq<Event>)
    requires Clocked(events)
    ensures WithinLimit(0, events)
  {
    hide After, Next;
    var f := MostFailures(0, events, |events|);
    forall n | 0 <= n <= |events| ensures After(0, events[..n]).wins <= 1 {
      StaysAccounted(0, events, f, n);
    }
  }

  lemma {:induction false} MostFailures(maxPpm: nat, events: seq<Event>, k: nat) returns (f: nat)
    requires k <= |events|
    ensures forall n | 0 <= n <= k :: After(maxPpm, events[..n]).fails <= f
  {
    hide After;
    if k == 0 {
      f := After(maxPpm, events[..0]).fails;
    } else {
      var g := MostFailures(maxPpm, events, k - 1);
      var h := After(maxPpm, events[..k]).fails;
      f := if g < h then h else g;
    }
  }

  // ---- When a message is held back.

  /** The limiter holds what the events say: the last stamp, the sends of the window, and when it opened. */
  predicate Reflects(r: Record) {
    r.limiter == Limiter(r.stamp, (r.wins + r.fails) % TWO_32, r.openedAt)
  }

  lemma CountNext(n: nat)
    ensures (n % TWO_32 + 1) % TWO_32 == (n + 1) % TWO_32
  {
  }

  lemma ReflectsNext(r: Record, maxPpm: nat, e: Event)
    requires Reflects(r)
    ensures Reflects(Next(r, maxPpm, e))
  {
    CountNext(r.wins + r.fails);
    hide Blocks, Resets;
  }

  lemma {:induction false} AlwaysReflects(maxPpm: nat, events: seq<Event>)
    ensures Reflects(After(maxPpm, events))
  {
    hide Reflects, Next;
    if events == [] {
      StartReflects();
    } else {
      AlwaysReflects(maxPpm, events[..|events| - 1]);
      ReflectsNext(After(maxPpm, events[..|events| - 1]), maxPpm, events[|events| - 1]);
    }
  }

  lemma StartReflects()
    ensures Reflects(START)
  {
  }

  /** The current window has counted at least the limit, in 32 bits. */
  predicate IsFull(r: Record, maxPpm: nat) {
    (r.wins + r.fails) % 0x1_0000_0000 >= maxPpm
  }

  /**
   After every run, a message is held back if and only if the window is full, less than 60000 ms have passed since
   the event that opened it, or since boot, and the time of a last send is stamped. A published message opens a
   window if and only if the window is full and 60000 ms have passed.
   */
  lemma HeldBackIff(maxPpm: nat, events: seq<Event>, now: nat)
    requires Clocked(events) && (forall e | e in events :: e.now <= now) && 0 < now < TWO_64
    ensures var r := After(maxPpm, events);
      && r.openedAt <= now
      && (Blocks(r.limiter, maxPpm, now) <==> IsFull(r, maxPpm) && now - r.openedAt < 60000 && r.stamp != 0)
      && (Resets(r.limiter, maxPpm, now) <==> IsFull(r, maxPpm) && now - r.openedAt >= 60000)
  {
    hide After;
    AlwaysReflects(maxPpm, events);
    assert events[..|events|] == events;
    PktSendIsPast(maxPpm, events, |events|, now);
  }

  /** What a message with a working send does to the record. */
  lemma PublishedIff(maxPpm: nat, events: seq<Event>, now: nat)
    requires Clocked(events) && (forall e | e in events :: e.now <= now) && 0 < now < TWO_64
    ensures var r := After(maxPpm, events); var t := After(maxPpm, events + [Publish(now, true)]);
      if IsFull(r, maxPpm) && now - r.openedAt < 60000 && r.stamp != 0 then t == r
      else
        && t.published == r.published + 1 && t.stamp == now
        && if IsFull(r, maxPpm) && now - r.openedAt >= 60000
           then t.windows == r.windows + 1 && t.wins == 1 && t.fails == 0 && t.openedAt == now
           else t.windows == r.windows && t.wins == r.wins + 1 && t.fails == r.fails && t.openedAt == r.openedAt
  {
    var all := events + [Publish(now, true)];
    assert all[..|events|] == events && all[..|events| + 1] == all;
    AfterNext(maxPpm, all, |events|);
    HeldBackIff(maxPpm, events, now);
    hide After, Resets, IsFull;
  }

  /** A message that comes at least 60000 ms after the window opened is published, if its send works. */
  lemma MinuteLaterPublished(maxPpm: nat, events: seq<Event>, now: nat)
    requires Clocked(events) && (forall e | e in events :: e.now <= now) && 0 < now < TWO_64
    requires now - After(maxPpm, events).openedAt >= 60000
    ensures After(maxPpm, events + [Publish(now, true)]).published == After(maxPpm, events).published + 1
  {
    hide After, IsFull;
    PublishedIff(maxPpm, events, now);
  }

  /** A message with a working send every minute, `times` of them. */
  function EveryMinute(times: nat): (r: seq<Event>)
    ensures |r| == times && forall i | 0 <= i < times :: r[i] == Publish(60000 * i + 1, true)
  {
    seq(times, i requires 0 <= i < times => Publish(60000 * i + 1, true))
  }

  lemma EveryMinuteNext(times: nat)
    ensures EveryMinute(times + 1) == EveryMinute(times) + [Publish(60000 * times + 1, true)]
  {
  }

  /** With a limit of one, all of them go through. */
  lemma {:induction false} EveryMinutePublished(times: nat)
    requires 60000 * times < TWO_64
    ensures var r := After(1, EveryMinute(times));
      && r.published == times && r.fails == 0 && r.wins == (if times == 0 then 0 else 1)
      && r.openedAt <= if times == 0 then 0 else 60000 * (times - 1) + 1
    decreases times
  {
    hide After, EveryMinute;
    if times == 0 {
      AfterNone(1, []);
    } else {
      EveryMinutePublished(times - 1);
      EveryMinuteNext(times - 1);
      PublishedIff(1, EveryMinute(times - 1), 60000 * (times - 1) + 1);
    }
  }

  // ---- With it the limit fails.

  /** The limit's packets at once, failed sends a minute later until the counter is back at 0, one more packet. */
  function BreakingEvent(maxPpm: nat, i: int): Event {
    if i < maxPpm then Publish(1, true) else Publish(MSEC2MIN, i == TWO_32)
  }

  function Breaking(maxPpm: nat): (r: seq<Event>)
    ensures |r| == TWO_32 + 1
    ensures forall i | 0 <= i <= TWO_32 :: r[i] == BreakingEvent(maxPpm, i)
  {
    seq(TWO_32 + 1, i => BreakingEvent(maxPpm, i))
  }

  /** The window after `i` of these events, before the last one. */
  ghost predicate OnTheWay(r: Record, maxPpm: nat, i: nat) {
    && r.limiter == Limiter(if i == 0 then 0 else 1, i % TWO_32, 0)
    && (if i <= maxPpm then r.wins == i && r.fails == 0 else r.wins == maxPpm && r.fails == i - maxPpm)
  }

  lemma OneStep(r: Record, maxPpm: nat, i: nat)
    requires 1 <= maxPpm < TWO_32 && OnTheWay(r, maxPpm, i) && i < TWO_32
    ensures OnTheWay(Next(r, maxPpm, BreakingEvent(maxPpm, i)), maxPpm, i + 1)
  {
    assert Minus64(MSEC2MIN, 0) == MSEC2MIN && Minus64(1, 0) == 1;
    hide Minus64;
  }

  lemma {:induction false} BreakingAt(maxPpm: nat, i: nat)
    requires 1 <= maxPpm < TWO_32 && i <= TWO_32
    ensures OnTheWay(After(maxPpm, Breaking(maxPpm)[..i]), maxPpm, i)
  {
    hide After, Next, BreakingEvent, Breaking;
    if i == 0 {
      AfterNone(maxPpm, Breaking(maxPpm));
    } else {
      BreakingAt(maxPpm, i - 1);
      AfterNext(maxPpm, Breaking(maxPpm), i - 1);
      hide OnTheWay;
      OneStep(After(maxPpm, Breaking(maxPpm)[..i - 1]), maxPpm, i - 1);
    }
  }

  lemma LastBreaks(r: Record, maxPpm: nat)
    requires 1 <= maxPpm < TWO_32 && OnTheWay(r, maxPpm, TWO_32)
    ensures var t := Next(r, maxPpm, Publish(MSEC2MIN, true)); t.wins == maxPpm + 1 && t.fails == TWO_32 - maxPpm
  {
  }

  /** Failed sends are counted too, and after a minute nothing holds them back until the counter has wrapped around. */
  lemma WrapBreaksLimit(maxPpm: nat)
    requires 1 <= maxPpm < TWO_32
    ensures Clocked(Breaking(maxPpm)) && FewFailures(maxPpm, Breaking(maxPpm), TWO_32 - maxPpm)
    ensures After(maxPpm, Breaking(maxPpm)).wins == maxPpm + 1 && !WithinLimit(maxPpm, Breaking(maxPpm))
  {
    hide After, Next;
    var events := Breaking(maxPpm);
    assert events[..|events|] == events && events[TWO_32] == Publish(MSEC2MIN, true);
    hide Breaking;
    BreakingAt(maxPpm, TWO_32);
    AfterNext(maxPpm, events, TWO_32);
    LastBreaks(After(maxPpm, events[..TWO_32]), maxPpm);
    forall n | 0 <= n <= |events| ensures After(maxPpm, events[..n]).fails <= TWO_32 - maxPpm {
      if n <= TWO_32 {
        BreakingAt(maxPpm, n);
      }
    }
  }

  /**
   The exact condition: the limit holds in every run in which no window sees more than `f` failed sends, if and
   only if that many failures and the packets of a window together stay within the counter's 32 bits.
   */
  lemma LimitIff(maxPpm: nat, f: nat)
    requires 1 <= maxPpm < TWO_32
    ensures (forall events :: Clocked(events) && FewFailures(maxPpm, events, f) ==> WithinLimit(maxPpm, events))
      <==> f + maxPpm < TWO_32
  {
    hide After, Next, Breaking;
    if f + maxPpm < TWO_32 {
      forall events | Clocked(events) && FewFailures(maxPpm, events, f) ensures WithinLimit(maxPpm, events) {
        forall n | 0 <= n <= |events| ensures After(maxPpm, events[..n]).wins <= Limit(maxPpm) {
          StaysAccounted(maxPpm, events, f, n);
        }
      }
    } else {
      WrapBreaksLimit(maxPpm);
      assert FewFailures(maxPpm, Breaking(maxPpm), f);
    }
  }

  // ---- What that means per minute.

  lemma PktSendNext(r: Record, maxPpm: nat, e: Event)
    requires e.now < TWO_64 && r.limiter.pktSend <= e.now
    ensures var t := Next(r, maxPpm, e);
      if t.windows == r.windows then t.limiter.pktSend == r.limiter.pktSend
      else t.windows == r.windows + 1 && t.limiter.pktSend == e.now >= r.limiter.pktSend + MSEC2MIN
  {
  }

  lemma {:induction false} PktSendIsPast(maxPpm: nat, events: seq<Event>, n: nat, now: nat)
    requires Clocked(events) && n <= |events| && (n == 0 || events[n - 1].now <= now)
    ensures After(maxPpm, events[..n]).limiter.pktSend <= now
  {
    hide After, Next;
    if n == 0 {
      AfterNone(maxPpm, events);
    } else {
      PktSendIsPast(maxPpm, events, n - 1, events[n - 1].now);
      AfterNext(maxPpm, events, n - 1);
      PktSendNext(After(maxPpm, events[..n - 1]), maxPpm, events[n - 1]);
    }
  }

  /** New windows are at least a minute apart, and a minute after boot. */
  lemma {:induction false} WindowsApart(maxPpm: nat, events: seq<Event>, n: nat)
    requires Clocked(events) && n <= |events|
    ensures var r := After(maxPpm, events[..n]); MSEC2MIN * r.windows <= r.limiter.pktSend
  {
    hide After, Next;
    if n == 0 {
      AfterNone(maxPpm, events);
    } else {
      WindowsApart(maxPpm, events, n - 1);
      PktSendIsPast(maxPpm, events, n - 1, events[n - 1].now);
      AfterNext(maxPpm, events, n - 1);
      PktSendNext(After(maxPpm, events[..n - 1]), maxPpm, events[n - 1]);
    }
  }

  /** From event `i` on, windows are a minute apart: less than a minute opens at most one. */
  lemma {:induction false} OneWindowPerMinute(maxPpm: nat, events: seq<Event>, i: nat, n: nat)
    requires Clocked(events) && i <= n <= |events|
    requires i < n ==> events[n - 1].now < events[i].now + MSEC2MIN
    ensures var r, t := After(maxPpm, events[..i]), After(maxPpm, events[..n]);
      && r.windows <= t.windows <= r.windows + 1
      && (r.windows < t.windows ==> i < n && events[i].now <= t.limiter.pktSend)
    decreases n
  {
    hide After, Next;
    if i == n {
    } else {
      OneWindowPerMinute(maxPpm, events, i, n - 1);
      PktSendIsPast(maxPpm, events, n - 1, events[n - 1].now);
      AfterNext(maxPpm, events, n - 1);
      PktSendNext(After(maxPpm, events[..n - 1]), maxPpm, events[n - 1]);
    }
  }

  /** What is published from event `i` on, by the windows opened since. */
  lemma {:induction false} WindowBound(maxPpm: nat, events: seq<Event>, f: nat, i: nat, n: nat)
    requires Clocked(events) && FewFailures(maxPpm, events, f) && NoWrap(maxPpm, f) && i <= n <= |events|
    ensures var r, t := After(maxPpm, events[..i]), After(maxPpm, events[..n]);
      && r.windows <= t.windows && r.wins <= Limit(maxPpm) && t.wins <= Limit(maxPpm)
      && t.published - r.published <= Limit(maxPpm) * (t.windows - r.windows) + t.wins - r.wins
    decreases n
  {
    hide After, Next, Limit;
    StaysAccounted(maxPpm, events, f, i);
    StaysAccounted(maxPpm, events, f, n);
    if i == n {
      assert Limit(maxPpm) * 0 == 0;
    } else {
      WindowBound(maxPpm, events, f, i, n - 1);
      AfterNext(maxPpm, events, n - 1);
      var r, s := After(maxPpm, events[..i]), After(maxPpm, events[..n - 1]);
      PublishedNext(s, maxPpm, events[n - 1], Limit(maxPpm), s.windows - r.windows);
    }
  }

  lemma PublishedNext(s: Record, maxPpm: nat, e: Event, limit: nat, k: nat)
    requires s.wins <= limit
    ensures var t := Next(s, maxPpm, e);
      && s.windows <= t.windows
      && t.published - s.published <= limit * (k + t.windows - s.windows) - limit * k + t.wins - s.wins
  {
    assert limit * (k + 1) == limit * k + limit;
    hide Step, Resets, Blocks;
  }

  /** In less than a minute at most twice the limit is published, at any time in a run. */
  lemma MinuteBound(maxPpm: nat, events: seq<Event>, f: nat, i: nat, n: nat)
    requires Clocked(events) && FewFailures(maxPpm, events, f) && NoWrap(maxPpm, f)
    requires i < n <= |events| && events[n - 1].now < events[i].now + MSEC2MIN
    ensures After(maxPpm, events[..n]).published - After(maxPpm, events[..i]).published <= 2 * Limit(maxPpm)
  {
    hide After, Limit;
    WindowBound(maxPpm, events, f, i, n);
    OneWindowPerMinute(maxPpm, events, i, n);
    var k := After(maxPpm, events[..n]).windows - After(maxPpm, events[..i]).windows;
    assert k == 0 || k == 1;
    assert Limit(maxPpm) * 0 == 0 && Limit(maxPpm) * 1 == Limit(maxPpm);
  }

  /** From boot on: the limit for every minute begun. */
  lemma BootBound(maxPpm: nat, events: seq<Event>, f: nat, end: nat)
    requires Clocked(events) && FewFailures(maxPpm, events, f) && NoWrap(maxPpm, f)
    requires forall e | e in events :: e.now <= end
    ensures After(maxPpm, events).published <= Limit(maxPpm) * (end / MSEC2MIN + 1)
  {
    hide After, Limit;
    var n := |events|;
    assert events[..n] == events;
    AfterNone(maxPpm, events);
    WindowBound(maxPpm, events, f, 0, n);
    WindowsApart(maxPpm, events, n);
    PktSendIsPast(maxPpm, events, n, end);
    Monotone(Limit(maxPpm), After(maxPpm, events).windows, end / MSEC2MIN);
  }

  lemma Monotone(m: nat, a: nat, b: nat)
    requires a <= b
    ensures m * a <= m * b && m * (b + 1) == m * b + m
  {
  }

  // ---- The context.

  class Context {
    var connected: bool
    const maxPayloadSize: nat
    const maxPpm: nat
    var lastSend: nat
    var filterPktCount: nat
    var filterPktSend: nat

    ghost function Now(): Limiter
      reads this
    {
      Limiter(lastSend, filterPktCount, filterPktSend)
    }

    constructor (maxPayloadSize: nat, maxPpm: nat)
      ensures Now() == BOOT && InWidth(Now()) && this.maxPpm == maxPpm && this.maxPayloadSize == maxPayloadSize
    {
      this.maxPayloadSize, this.maxPpm := maxPayloadSize, maxPpm;
      connected, lastSend, filterPktCount, filterPktSend := false, 0, 0, 0;
    }

    /** `mqtt_msg_publish`; `sent` is what the client makes of the message, if it comes to that. */
    method MsgPublish(length: nat, now: nat, sent: bool) returns (ret: int)
      requires InWidth(Now()) && now < TWO_64
      modifies this
      ensures InWidth(Now()) && connected == old(connected)
      ensures if connected && length <= maxPayloadSize
        then Now() == Step(old(Now()), maxPpm, Publish(now, sent))
        else Now() == old(Now())
      ensures ret == if connected && length <= maxPayloadSize && old(Succeeds(Now(), maxPpm, Publish(now, sent)))
        then 0 else -1
      ensures ret == 0 <==>
        && connected && length <= maxPayloadSize && sent
        && !(old(filterPktCount) >= maxPpm && (now - old(filterPktSend)) % TWO_64 < 60000 && old(lastSend) != 0)
    {
      var resetFilter := false;
      if !connected {
        return -1;
      }
      if length > maxPayloadSize {
        return -1;
      }
      if filterPktCount >= maxPpm {
        if Minus64(now, filterPktSend) >= MSEC2MIN {
          resetFilter := true;
        } else if lastSend != 0 {
          return -1;
        }
      }
      ret := if sent then 0 else -1;
      if ret == 0 {
        lastSend := now;
        if resetFilter {
          filterPktCount := 0;
          filterPktSend := now;
        }
      }
      filterPktCount := (filterPktCount + 1) % TWO_32;
    }
  }
}
