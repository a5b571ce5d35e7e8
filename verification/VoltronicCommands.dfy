/**
 The command scheduler of the Voltronic link: a table of commands, some asked once, some again and
 again, and a round-robin over those still to be sent.
 */
module VoltronicCommands {

  const CMD_COUNT := 12

  datatype Command = QID | QVFW | QFLAG | QDI | QPIRI | QPIGS | QMOD | QPIWS | QET | QMN | QGMN | QT

  datatype Handler = Handler(id: Command, oneTime: bool, minReplySize: nat)

  /** The constant columns of `voltron_commnds_handler`. */
  const HANDLERS: seq<Handler> := [
    Handler(QID, true, 15), Handler(QVFW, true, 15), Handler(QFLAG, true, 12), Handler(QDI, true, 76),
    Handler(QPIRI, true, 95), Handler(QPIGS, false, 107), Handler(QMOD, true, 2), Handler(QPIWS, true, 37),
    Handler(QET, false, 9), Handler(QMN, true, 11), Handler(QGMN, true, 4), Handler(QT, false, 15)]

  /** The position of a command that is asked again and again. */
  const RECURRING := 5

  function IsOneTime(i: nat): bool
    requires i < CMD_COUNT
  {
    HANDLERS[i].oneTime
  }

  /** The next position of the round. */
  function Next(i: nat): nat
    requires i < CMD_COUNT
  {
    if i + 1 == CMD_COUNT then 0 else i + 1
  }

  /** How many positions after `i` the position `k` comes. */
  function Distance(i: nat, k: nat): (d: nat)
    requires i <= CMD_COUNT && k < CMD_COUNT
    ensures d < CMD_COUNT
  {
    var from := if i == CMD_COUNT then 0 else i;
    if from <= k then k - from else k + CMD_COUNT - from
  }

  /** The first position from `i` on, in the order of the round, whose command is to be sent. */
  ghost predicate IsChoice(send: seq<bool>, i: nat, c: nat)
    requires |send| == CMD_COUNT && i <= CMD_COUNT
  {
    && c < CMD_COUNT && send[c]
    && forall k | 0 <= k < CMD_COUNT && send[k] :: Distance(i, c) <= Distance(i, k)
  }

  /** Commands asked again and again have their turn. */
  predicate Recurs(send: seq<bool>) {
    |send| == CMD_COUNT && forall k | 0 <= k < CMD_COUNT && !IsOneTime(k) :: send[k]
  }

  /** The first position from `i` on, going round, with a turn. */
  function ScanFrom(send: seq<bool>, i: nat): (c: nat)
    requires Recurs(send) && i < CMD_COUNT
    ensures c < CMD_COUNT && send[c]
    decreases Distance(i, RECURRING)
  {
    assert send[RECURRING];
    if send[i] then i else ScanFrom(send, Next(i))
  }

  function Choice(send: seq<bool>, i: nat): (c: nat)
    requires Recurs(send) && i <= CMD_COUNT
    ensures c < CMD_COUNT && send[c]
  {
    ScanFrom(send, if i == CMD_COUNT then 0 else i)
  }

  class Context {
    const send: array<bool>
    var idx: nat
    var cmdIdx: Command
    var usbConnected: bool
    var sendInProgress: bool
    var timeoutState: bool

    /** Commands asked again and again never lose their turn, so a choice always exists. */
    ghost predicate Valid()
      reads this, send
    {
      send.Length == CMD_COUNT && idx <= CMD_COUNT && Recurs(send[..])
    }

    constructor ()
      ensures Valid() && idx == 0 && fresh(send) && forall i | 0 <= i < CMD_COUNT :: send[i]
    {
      send := new bool[CMD_COUNT](_ => true);
      idx, cmdIdx, usbConnected, sendInProgress, timeoutState := 0, QID, false, false, false;
    }

    ghost function Now(): Turns
      requires send.Length == CMD_COUNT
      reads this, send
    {
      Turns(send[..], idx, cmdIdx)
    }

    /** `reset_state`. */
    method ResetState()
      requires Valid()
      modifies this`usbConnected, this`sendInProgress, this`timeoutState, send
      ensures Valid() && !usbConnected && !sendInProgress && !timeoutState
      ensures forall i | 0 <= i < CMD_COUNT :: send[i]
    {
      usbConnected, sendInProgress, timeoutState := false, false, false;
      for i := 0 to CMD_COUNT
        invariant forall k | 0 <= k < i :: send[k]
        invariant Valid() && !usbConnected && !sendInProgress && !timeoutState
      {
        send[i] := true;
      }
    }

    /**
     `mppt_solar_cmd_next`: takes the first command to be sent at or after the current position, going
     round, and moves past it. The scan always ends.
     */
    method CmdNext() returns (id: Command, ghost chosen: nat)
      requires Valid()
      modifies this`idx
      ensures Valid() && IsChoice(send[..], old(idx), chosen)
      ensures id == HANDLERS[chosen].id && idx == chosen + 1 && chosen == Choice(send[..], old(idx))
    {
      hide IsChoice;
      if idx >= CMD_COUNT {
        idx := 0;
      }
      ghost var turns := send[..];
      while !send[idx]
        invariant Valid() && idx < CMD_COUNT && send[..] == turns
        invariant ScanFrom(turns, idx) == Choice(turns, old(idx))
        decreases Distance(idx, RECURRING)
      {
        assert turns[RECURRING] && !turns[idx];
        NextDistance(idx, RECURRING);
        idx := Next(idx);
      }
      assert turns[idx];
      ChoiceIsFirst(turns, old(idx));
      chosen := idx;
      id := HANDLERS[idx].id;
      idx := idx + 1;
    }

    /**
     `mppt_cmd_process_known`: a long enough reply that its handler accepts retires a one-time command;
     nothing else changes a turn.
     */
    method ProcessKnown(len: int, handled: bool) returns (r: int)
      requires Valid()
      modifies send
      ensures Valid() && r == 0
      ensures forall i | 0 <= i < CMD_COUNT ::
        send[i] ==
          (old(send[i]) && !(HANDLERS[i].id == cmdIdx && IsOneTime(i) && handled && len >= HANDLERS[i].minReplySize))
    {
      var i := 0;
      while i < CMD_COUNT && HANDLERS[i].id != cmdIdx
        invariant 0 <= i <= CMD_COUNT && forall k | 0 <= k < i :: HANDLERS[k].id != cmdIdx
      {
        i := i + 1;
      }
      if i >= CMD_COUNT {
        EveryCommandIsKnown(cmdIdx);
        return -1;
      }
      UniqueIds(i);
      if len >= HANDLERS[i].minReplySize {
        if handled {
          if HANDLERS[i].oneTime {
            send[i] := false;
          }
        }
      }
      return 0;
    }

    /** One event; a selection issues its command. */
    method Handle(e: Event) returns (issued: seq<Command>)
      requires Valid()
      modifies this, send
      ensures Valid() && Now() == Step(old(Now()), e)
      ensures issued == if e.Select? then [HANDLERS[Choice(old(Now()).send, old(Now()).idx)].id] else []
    {
      hide IsChoice, Choice;
      issued := [];
      match e
      case Select =>
        var id, chosen := CmdNext();
        cmdIdx := id;
        issued := [id];
      case Reply(len, handled) =>
        var r := ProcessKnown(len, handled);
      case Plug(attached) =>
        ResetState();
        usbConnected := attached;
    }
  }

  lemma EveryCommandIsKnown(c: Command)
    ensures exists i | 0 <= i < CMD_COUNT :: HANDLERS[i].id == c
  {
    match c
    case QID => assert HANDLERS[0].id == c;
    case QVFW => assert HANDLERS[1].id == c;
    case QFLAG => assert HANDLERS[2].id == c;
    case QDI => assert HANDLERS[3].id == c;
    case QPIRI => assert HANDLERS[4].id == c;
    case QPIGS => assert HANDLERS[5].id == c;
    case QMOD => assert HANDLERS[6].id == c;
    case QPIWS => assert HANDLERS[7].id == c;
    case QET => assert HANDLERS[8].id == c;
    case QMN => assert HANDLERS[9].id == c;
    case QGMN => assert HANDLERS[10].id == c;
    case QT => assert HANDLERS[11].id == c;
  }

  lemma UniqueIds(i: nat)
    requires i < CMD_COUNT
    ensures forall k | 0 <= k < CMD_COUNT && HANDLERS[k].id == HANDLERS[i].id :: k == i
  {
  }

  // ---- Liveness.

  /** A selection of another command brings the round closer to `k`. */
  lemma ChoiceApproaches(send: seq<bool>, i: nat, c: nat, k: nat)
    requires |send| == CMD_COUNT && i <= CMD_COUNT && k < CMD_COUNT && send[k] && IsChoice(send, i, c) && c != k
    ensures Distance(c + 1, k) < Distance(i, k)
  {
    assert Distance(i, c) <= Distance(i, k);
  }

  /** A run of selections: position and turns before each, and the choice made. */
  ghost predicate IsRun(at: seq<nat>, sends: seq<seq<bool>>, choices: seq<nat>) {
    && |at| == |sends| + 1 == |choices| + 1
    && (forall j | 0 <= j < |at| :: at[j] <= CMD_COUNT)
    && (forall j | 0 <= j < |sends| :: |sends[j]| == CMD_COUNT)
    && (forall j | 0 <= j < |choices| :: IsChoice(sends[j], at[j], choices[j]) && at[j + 1] == choices[j] + 1)
  }

  lemma {:induction false} DistanceShrinks(at: seq<nat>, sends: seq<seq<bool>>, choices: seq<nat>, k: nat, n: nat)
    requires IsRun(at, sends, choices) && k < CMD_COUNT && n <= |choices|
    requires forall j | 0 <= j < n :: sends[j][k] && choices[j] != k
    ensures Distance(at[n], k) + n <= Distance(at[0], k)
    decreases n
  {
    if n == 0 {
    } else {
      hide Distance, IsChoice;
      DistanceShrinks(at, sends, choices, k, n - 1);
      ChoiceApproaches(sends[n - 1], at[n - 1], choices[n - 1], k);
      assert at[n - 1 + 1] == choices[n - 1] + 1;
    }
  }

  /**
   From any position, and however replies retire other commands in between, a command that keeps its
   turn is issued within as many selections as there are commands.
   */
  lemma EveryTurnComes(at: seq<nat>, sends: seq<seq<bool>>, choices: seq<nat>, k: nat)
    requires IsRun(at, sends, choices) && k < CMD_COUNT
    requires |choices| == CMD_COUNT && forall j | 0 <= j < CMD_COUNT :: sends[j][k]
    ensures k in choices
  {
    if k !in choices {
      DistanceShrinks(at, sends, choices, k, CMD_COUNT);
    }
  }

  // ---- Runs, as values.

  /** A command is to be sent, a reply is processed, or the device is attached or detached. */
  datatype Event = Select | Reply(len: int, handled: bool) | Plug(attached: bool)

  /** Whose turn it is, where the round stands, and what was sent last. */
  datatype Turns = Turns(send: seq<bool>, idx: nat, cmdIdx: Command)

  predicate Fit(s: Turns) {
    Recurs(s.send) && s.idx <= CMD_COUNT
  }

  /** The reply answers command `k`, which is asked once, well enough. */
  predicate Retires(cmdIdx: Command, e: Event, k: nat)
    requires k < CMD_COUNT
  {
    e.Reply? && e.handled && HANDLERS[k].id == cmdIdx && IsOneTime(k) && e.len >= HANDLERS[k].minReplySize
  }

  function Step(s: Turns, e: Event): (t: Turns)
    requires Fit(s)
    ensures Fit(t)
  {
    match e
    case Select => var c := Choice(s.send, s.idx); Turns(s.send, c + 1, HANDLERS[c].id)
    case Reply(_, _) =>
      s.(send := seq(CMD_COUNT, k requires 0 <= k < CMD_COUNT => s.send[k] && !Retires(s.cmdIdx, e, k)))
    case Plug(_) => s.(send := seq(CMD_COUNT, _ => true))
  }

  /** The commands of the round; three are asked again and again. */
  lemma CommandTable(k: nat)
    requires k < CMD_COUNT
    ensures CMD_COUNT == 12
    ensures HANDLERS[k].id == [QID, QVFW, QFLAG, QDI, QPIRI, QPIGS, QMOD, QPIWS, QET, QMN, QGMN, QT][k]
    ensures IsOneTime(k) <==> HANDLERS[k].id !in {QPIGS, QET, QT}
    ensures HANDLERS[k].minReplySize == [15, 15, 12, 76, 95, 107, 2, 37, 9, 11, 4, 15][k]
  {
  }

  /** A reply retires the command sent last, when it is asked once and the reply is accepted and long enough. */
  lemma AnswersRetire(s: Turns, len: int, handled: bool, k: nat)
    requires Fit(s) && k < CMD_COUNT
    ensures var order := [QID, QVFW, QFLAG, QDI, QPIRI, QPIGS, QMOD, QPIWS, QET, QMN, QGMN, QT];
      var sizes := [15, 15, 12, 76, 95, 107, 2, 37, 9, 11, 4, 15];
      var retired := handled && s.cmdIdx == order[k] && order[k] !in {QPIGS, QET, QT} && len >= sizes[k];
      Step(s, Reply(len, handled)).send[k] == (s.send[k] && !retired)
  {
    CommandTable(k);
    hide IsOneTime;
    assert Step(s, Reply(len, handled)).send[k] == (s.send[k] && !Retires(s.cmdIdx, Reply(len, handled), k));
  }

  function Run(s: Turns, events: seq<Event>): (t: Turns)
    requires Fit(s)
    ensures Fit(t)
  {
    if events == [] then s else Step(Run(s, events[..|events| - 1]), events[|events| - 1])
  }

  /** The turns before each selection of a run. */
  function Sends(s: Turns, events: seq<Event>): seq<seq<bool>>
    requires Fit(s)
  {
    if events == [] then []
    else
      var n := |events| - 1;
      if events[n].Select? then Sends(s, events[..n]) + [Run(s, events[..n]).send] else Sends(s, events[..n])
  }

  /** The positions of the round before each selection and after the last. */
  function Positions(s: Turns, events: seq<Event>): seq<nat>
    requires Fit(s)
  {
    if events == [] then [s.idx]
    else
      var n := |events| - 1;
      if events[n].Select? then Positions(s, events[..n]) + [Run(s, events).idx] else Positions(s, events[..n])
  }

  /** The positions of the commands chosen. */
  function Choices(s: Turns, events: seq<Event>): seq<nat>
    requires Fit(s)
  {
    if events == [] then []
    else
      var n := |events| - 1;
      var before := Run(s, events[..n]);
      if events[n].Select? then Choices(s, events[..n]) + [Choice(before.send, before.idx)] else Choices(s, events[..n])
  }

  predicate InRange(choices: seq<nat>) {
    forall j | 0 <= j < |choices| :: choices[j] < CMD_COUNT
  }

  /** The commands at the chosen positions. */
  function Issued(choices: seq<nat>): (r: seq<Command>)
    requires InRange(choices)
    ensures |r| == |choices|
  {
    seq(|choices|, i requires 0 <= i < |choices| => HANDLERS[choices[i]].id)
  }

  lemma NextDistance(i: nat, k: nat)
    requires i < CMD_COUNT && k < CMD_COUNT && i != k
    ensures Distance(i, k) == Distance(Next(i), k) + 1
  {
  }

  /** The scan ends on the first command of the round that has a turn. */
  lemma {:induction false} ScanIsChoice(send: seq<bool>, i: nat)
    requires Recurs(send) && i < CMD_COUNT
    ensures IsChoice(send, i, ScanFrom(send, i))
    decreases Distance(i, RECURRING)
  {
    var c := ScanFrom(send, i);
    if send[i] {
      assert Distance(i, i) == 0;
    } else {
      assert send[RECURRING];
      NextDistance(i, RECURRING);
      ScanIsChoice(send, Next(i));
      NextDistance(i, c);
      forall k | 0 <= k < CMD_COUNT && send[k] ensures Distance(i, c) <= Distance(i, k) {
        NextDistance(i, k);
      }
    }
  }

  lemma ChoiceIsFirst(send: seq<bool>, i: nat)
    requires Recurs(send) && i <= CMD_COUNT
    ensures |send| == CMD_COUNT && IsChoice(send, i, Choice(send, i))
  {
    ScanIsChoice(send, if i == CMD_COUNT then 0 else i);
  }

  /** The choice is the first with a turn from the position on, or, if there is none, the first of all. */
  lemma ChoiceIsNext(send: seq<bool>, i: nat, c: nat)
    requires |send| == CMD_COUNT && i <= CMD_COUNT && IsChoice(send, i, c)
    ensures c < CMD_COUNT && send[c]
    ensures if i <= c then !HasTurn(send, i, c) else !HasTurn(send, i, CMD_COUNT) && !HasTurn(send, 0, c)
  {
    forall k | 0 <= k < CMD_COUNT && send[k] ensures if i <= c then k < i || c <= k else c <= k < i {
      assert Distance(i, c) <= Distance(i, k);
    }
  }

  predicate HasTurn(send: seq<bool>, from: nat, to: nat)
    requires to <= |send|
  {
    exists k | from <= k < to :: send[k]
  }

  lemma RunGrows(at: seq<nat>, sends: seq<seq<bool>>, choices: seq<nat>, send: seq<bool>, c: nat)
    requires IsRun(at, sends, choices) && |send| == CMD_COUNT && IsChoice(send, at[|choices|], c)
    ensures IsRun(at + [c + 1], sends + [send], choices + [c])
  {
    hide IsChoice;
    ChoiceIsPosition(send, at[|choices|], c);
  }

  lemma ChoiceIsPosition(send: seq<bool>, i: nat, c: nat)
    requires |send| == CMD_COUNT && i <= CMD_COUNT && IsChoice(send, i, c)
    ensures c < CMD_COUNT && send[c]
  {
  }

  lemma EmptyRun(i: nat)
    requires i <= CMD_COUNT
    ensures IsRun([i], [], [])
  {
  }

  lemma StepMovesOn(s: Turns, e: Event)
    requires Fit(s)
    ensures Step(s, e).idx == if e.Select? then Choice(s.send, s.idx) + 1 else s.idx
  {
    hide Choice, Retires;
  }

  lemma RunLengths(at: seq<nat>, sends: seq<seq<bool>>, choices: seq<nat>)
    requires IsRun(at, sends, choices)
    ensures |at| == |sends| + 1 == |choices| + 1
  {
  }

  /** The selections of every sequence of events make a run. */
  lemma {:induction false} EventsMakeRun(s: Turns, events: seq<Event>)
    requires Fit(s)
    ensures IsRun(Positions(s, events), Sends(s, events), Choices(s, events)) && InRange(Choices(s, events))
    ensures |Positions(s, events)| == |Choices(s, events)| + 1 == |Sends(s, events)| + 1
    ensures Positions(s, events)[|Choices(s, events)|] == Run(s, events).idx
  {
    hide IsChoice, Choice, Recurs, Step, IsRun;
    if events == [] {
      EmptyRun(s.idx);
    } else {
      var n := |events| - 1;
      var before := Run(s, events[..n]);
      StepMovesOn(before, events[n]);
      EventsMakeRun(s, events[..n]);
      if events[n].Select? {
        ChoiceIsFirst(before.send, before.idx);
        RunGrows(Positions(s, events[..n]), Sends(s, events[..n]), Choices(s, events[..n]), before.send,
          Choice(before.send, before.idx));
      }
      RunLengths(Positions(s, events), Sends(s, events), Choices(s, events));
    }
  }

  // ---- What comes up, and what does not.

  /** Command `k` has its turn before the selections from `i` on, as many as there are commands. */
  ghost predicate Kept(sends: seq<seq<bool>>, k: nat, i: nat) {
    && i + CMD_COUNT <= |sends|
    && forall j | i <= j < i + CMD_COUNT :: k < |sends[j]| && sends[j][k]
  }

  /** Command `k` is among so many issued ones from the `i`th on. */
  predicate ComesUp(issued: seq<Command>, k: nat, i: nat)
    requires k < CMD_COUNT && i + CMD_COUNT <= |issued|
  {
    HANDLERS[k].id in issued[i..i + CMD_COUNT]
  }

  /** Any stretch of a run is a run. */
  lemma RunPart(at: seq<nat>, sends: seq<seq<bool>>, choices: seq<nat>, i: nat, n: nat)
    requires IsRun(at, sends, choices) && i + n <= |choices|
    ensures IsRun(at[i..i + n + 1], sends[i..i + n], choices[i..i + n])
  {
    hide IsChoice;
    var at', sends', choices' := at[i..i + n + 1], sends[i..i + n], choices[i..i + n];
    forall j | 0 <= j < n ensures IsChoice(sends'[j], at'[j], choices'[j]) && at'[j + 1] == choices'[j] + 1 {
      var m := i + j;
      assert sends'[j] == sends[m] && at'[j] == at[m] && at'[j + 1] == at[m + 1] && choices'[j] == choices[m];
    }
  }

  /** In any stretch of as many selections as there are commands, one that kept its turn is among the issued. */
  lemma TurnInStretch(at: seq<nat>, sends: seq<seq<bool>>, choices: seq<nat>, k: nat, i: nat)
    requires IsRun(at, sends, choices) && InRange(choices) && k < CMD_COUNT && Kept(sends, k, i)
    ensures ComesUp(Issued(choices), k, i)
  {
    var part := choices[i..i + CMD_COUNT];
    assert |at[i..i + CMD_COUNT + 1]| == CMD_COUNT + 1;
    RunPart(at, sends, choices, i, CMD_COUNT);
    hide IsRun;
    EveryTurnComes(at[i..i + CMD_COUNT + 1], sends[i..i + CMD_COUNT], part, k);
    var j :| 0 <= j < CMD_COUNT && part[j] == k;
    assert choices[i + j] == k && Issued(choices)[i + j] == HANDLERS[k].id;
    assert Issued(choices)[i..i + CMD_COUNT][j] == HANDLERS[k].id;
  }

  /** A command that has its turn throughout a stretch of twelve selections of a run is issued in it. */
  lemma TurnInRun(s: Turns, events: seq<Event>, k: nat, i: nat)
    requires Fit(s) && k < CMD_COUNT && Kept(Sends(s, events), k, i)
    ensures InRange(Choices(s, events)) && i + CMD_COUNT <= |Choices(s, events)|
    ensures ComesUp(Issued(Choices(s, events)), k, i)
  {
    EventsMakeRun(s, events);
    assert i + CMD_COUNT <= |Sends(s, events)|;
    hide Kept, Run, Choices, Sends, Positions, Issued, ComesUp, IsRun;
    TurnInStretch(Positions(s, events), Sends(s, events), Choices(s, events), k, i);
  }

  /** No reply of the run answers command `k` when it was the last one sent, or it is asked again and again. */
  ghost predicate Unanswered(s: Turns, events: seq<Event>, k: nat)
    requires Fit(s) && k < CMD_COUNT
  {
    forall n | 0 <= n < |events| :: !Retires(Run(s, events[..n]).cmdIdx, events[n], k)
  }

  lemma Width(s: Turns)
    requires Fit(s)
    ensures |s.send| == CMD_COUNT
  {
  }

  lemma StepKeepsTurn(s: Turns, e: Event, k: nat)
    requires Fit(s) && k < CMD_COUNT && s.send[k] && !Retires(s.cmdIdx, e, k)
    ensures Step(s, e).send[k]
  {
    hide Retires, Choice;
  }

  lemma {:induction false} KeepsTurn(s: Turns, events: seq<Event>, k: nat)
    requires Fit(s) && k < CMD_COUNT && s.send[k] && Unanswered(s, events, k)
    ensures Run(s, events).send[k]
    ensures forall j | 0 <= j < |Sends(s, events)| :: k < |Sends(s, events)[j]| && Sends(s, events)[j][k]
  {
    hide Step, Retires, Recurs;
    if events == [] {
    } else {
      var n := |events| - 1;
      forall m | 0 <= m < n ensures !Retires(Run(s, events[..n][..m]).cmdIdx, events[..n][m], k) {
        assert events[..n][..m] == events[..m];
      }
      KeepsTurn(s, events[..n], k);
      Width(Run(s, events[..n]));
      StepKeepsTurn(Run(s, events[..n]), events[n], k);
    }
  }

  /**
   Liveness: a command that has a turn comes up in any twelve selections in a row until a reply answers it; a
   recurring one always.
   */
  lemma TurnComesUp(s: Turns, events: seq<Event>, k: nat, i: nat)
    requires Fit(s) && k < CMD_COUNT && s.send[k] && Unanswered(s, events, k)
    requires InRange(Choices(s, events)) && i + CMD_COUNT <= |Choices(s, events)|
    ensures ComesUp(Issued(Choices(s, events)), k, i)
  {
    hide Unanswered, Run, Choices, Sends, Positions, Issued, ComesUp;
    KeepsTurn(s, events, k);
    EventsMakeRun(s, events);
    TurnInRun(s, events, k, i);
  }

  lemma StepStaysSilent(s: Turns, e: Event, k: nat)
    requires Fit(s) && k < CMD_COUNT && !s.send[k] && !e.Plug?
    ensures !Step(s, e).send[k] && (e.Select? ==> Choice(s.send, s.idx) != k)
  {
    hide Retires;
  }

  /** And once it has lost its turn it is not chosen until the device is attached or detached. */
  lemma {:induction false} StaysSilent(s: Turns, events: seq<Event>, k: nat)
    requires Fit(s) && k < CMD_COUNT && !s.send[k] && forall n | 0 <= n < |events| :: !events[n].Plug?
    ensures !Run(s, events).send[k] && k !in Choices(s, events)
  {
    hide Step, Choice, Recurs;
    if events == [] {
    } else {
      var n := |events| - 1;
      StaysSilent(s, events[..n], k);
      StepStaysSilent(Run(s, events[..n]), events[n], k);
    }
  }

  /** A reply that is too short for command `k`, or that its handler does not accept, leaves it its turn. */
  lemma NoAnswer(s: Turns, events: seq<Event>, k: nat)
    requires Fit(s) && k < CMD_COUNT
    requires !IsOneTime(k) || forall n | 0 <= n < |events| && events[n].Reply? && events[n].handled ::
        events[n].len < HANDLERS[k].minReplySize
    ensures Unanswered(s, events, k)
  {
    hide Run;
  }

  // ---- Runs of the context.

  /** The scheduler makes these runs, and issues what they choose. */
  method Drive(context: Context, events: seq<Event>) returns (issued: seq<Command>)
    requires context.Valid()
    modifies context, context.send
    ensures context.Valid() && context.Now() == Run(old(context.Now()), events)
    ensures var choices := Choices(old(context.Now()), events); InRange(choices) && issued == Issued(choices)
    ensures forall k: nat, i: nat | k < CMD_COUNT && i + CMD_COUNT <= |issued|
      && old(context.Now()).send[k] && Unanswered(old(context.Now()), events, k) :: ComesUp(issued, k, i)
    ensures forall k: nat, i: nat | k < CMD_COUNT && !IsOneTime(k) && i + CMD_COUNT <= |issued| :: ComesUp(issued, k, i)
  {
    ghost var s := context.Now();
    hide Step, IsChoice, Choice, Unanswered, ComesUp, Recurs;
    issued := [];
    assert events[..0] == [];
    for n := 0 to |events|
      invariant context.Valid() && context.Now() == Run(s, events[..n])
      invariant InRange(Choices(s, events[..n])) && issued == Issued(Choices(s, events[..n]))
    {
      assert events[..n + 1][..n] == events[..n];
      var next := context.Handle(events[n]);
      issued := issued + next;
    }
    assert events[..|events|] == events;
    forall k: nat, i: nat | k < CMD_COUNT && i + CMD_COUNT <= |issued| && s.send[k] && Unanswered(s, events, k)
      ensures ComesUp(issued, k, i)
    {
      TurnComesUp(s, events, k, i);
    }
    forall k: nat, i: nat | k < CMD_COUNT && !IsOneTime(k) && i + CMD_COUNT <= |issued| ensures ComesUp(issued, k, i) {
      NoAnswer(s, events, k);
      RecurringTurn(s, k);
      TurnComesUp(s, events, k, i);
    }
  }

  lemma RecurringTurn(s: Turns, k: nat)
    requires Fit(s) && k < CMD_COUNT && !IsOneTime(k)
    ensures s.send[k]
  {
  }
}
