/**
 Reassembly of the 300-byte notification frames of a JK battery monitor from Bluetooth value fragments.
 */
module JkBms {
  import opened Bytes
  import opened Sequences

  const NOTIFY_PACKET_SIZE := 300
  const PKT_START: seq<Byte> := [0x55, 0xAA, 0xEB, 0x90]

  predicate Starts(data: seq<Byte>) {
    4 <= |data| && data[..4] == PKT_START
  }

  /** The eight-bit sum of some bytes. */
  function Sum(data: seq<Byte>): Byte {
    if data == [] then 0 else (Sum(data[..|data| - 1]) + data[|data| - 1]) % 256
  }

  /** A full frame with the start magic whose last byte is the sum of the others. */
  predicate IsFrame(data: seq<Byte>) {
    |data| == NOTIFY_PACKET_SIZE && Starts(data) && Sum(data[..NOTIFY_PACKET_SIZE - 1]) == data[NOTIFY_PACKET_SIZE - 1]
  }

  function Total(data: seq<Byte>): nat {
    if data == [] then 0 else Total(data[..|data| - 1]) + data[|data| - 1]
  }

  lemma {:induction false} SumIsTotal(data: seq<Byte>)
    ensures Sum(data) == Total(data) % 256
  {
    if data == [] {
    } else {
      SumIsTotal(data[..|data| - 1]);
    }
  }

  /** 300 bytes, beginning with 55 AA EB 90, the last of which is what the others add up to, modulo 256. */
  lemma FrameIs(data: seq<Byte>)
    ensures IsFrame(data) <==>
      |data| == 300 && data[..4] == [0x55, 0xAA, 0xEB, 0x90] && Total(data[..299]) % 256 == data[299]
  {
    if |data| == 300 {
      SumIsTotal(data[..299]);
    }
    hide Sum;
  }

  lemma FrameLength(data: seq<Byte>)
    requires IsFrame(data)
    ensures |data| == NOTIFY_PACKET_SIZE
  {
  }

  // ---- The buffer as a value: its filled part and whether it waits to be processed.

  datatype View = View(bytes: seq<Byte>, ready: bool)

  predicate Good(v: View) {
    if v.ready then IsFrame(v.bytes) else |v.bytes| < NOTIFY_PACKET_SIZE
  }

  datatype Event = Value(terminal: bool, data: seq<Byte>) | Process | Reset

  function Collected(v: View, data: seq<Byte>): View {
    var got := Prefix((if Starts(data) then [] else v.bytes) + data, NOTIFY_PACKET_SIZE);
    if |got| < NOTIFY_PACKET_SIZE then View(got, false)
    else if IsFrame(got) then View(got, true)
    else View([], false)
  }

  function Step(v: View, e: Event): View {
    match e
    case Value(terminal, data) => if v.ready || !terminal || |data| < 4 then v else Collected(v, data)
    case Process => if v.ready then View([], false) else v
    case Reset => View([], false)
  }

  function Run(v: View, events: seq<Event>): View {
    if events == [] then v else Step(Run(v, events[..|events| - 1]), events[|events| - 1])
  }

  /** In every run the fill stays within the buffer, and a frame is only handed over when it is valid. */
  lemma {:induction false} RunIsGood(v: View, events: seq<Event>)
    requires Good(v)
    ensures Good(Run(v, events)) && |Run(v, events).bytes| <= NOTIFY_PACKET_SIZE
  {
    if events == [] {
    } else {
      RunIsGood(v, events[..|events| - 1]);
      hide IsFrame, Starts;
    }
  }

  // ---- Where the bytes come from.

  /** The fragments of a run that are long enough and on the terminal. */
  function Accepted(events: seq<Event>): seq<seq<Byte>> {
    if events == [] then []
    else
      var e := events[|events| - 1];
      Accepted(events[..|events| - 1]) + if e.Value? && e.terminal && |e.data| >= 4 then [e.data] else []
  }

  /** The buffer holds the beginning of what was accepted from event `i` on. */
  predicate FromEvent(v: View, events: seq<Event>, i: nat) {
    i <= |events| && v.bytes == Prefix(Concat(Accepted(events[i..])), NOTIFY_PACKET_SIZE)
  }

  lemma PrefixExtends(s: seq<Byte>, t: seq<Byte>, n: nat)
    ensures Prefix(s + t, n) == Prefix(Prefix(s, n) + t, n)
    ensures |Prefix(s, n)| == n ==> Prefix(s + t, n) == Prefix(s, n)
  {
  }

  function Piece(e: Event): seq<Byte> {
    if e.Value? && e.terminal && |e.data| >= 4 then e.data else []
  }

  lemma StreamGrows(events: seq<Event>, i: nat)
    requires i < |events|
    ensures var n := |events| - 1;
      Concat(Accepted(events[i..])) == Concat(Accepted(events[..n][i..])) + Piece(events[n])
  {
    hide Accepted, Concat;
    var n := |events| - 1;
    var init := events[..n][i..];
    assert events[i..] == init + [events[n]];
    AcceptedGrows(init, events[n]);
    if Piece(events[n]) == [] {
      assert Accepted(init) + [] == Accepted(init);
    } else {
      ConcatAppend(Accepted(init), Piece(events[n]));
    }
  }

  lemma AcceptedGrows(events: seq<Event>, e: Event)
    ensures Accepted(events + [e]) == Accepted(events) + if Piece(e) == [] then [] else [Piece(e)]
  {
    assert (events + [e])[..|events|] == events;
  }

  lemma StepFromEvent(u: View, events: seq<Event>, j: nat) returns (i: nat)
    requires events != [] && Good(u) && FromEvent(u, events[..|events| - 1], j)
    ensures FromEvent(Step(u, events[|events| - 1]), events, i)
  {
    var n := |events| - 1;
    var e := events[n];
    var v := Step(u, e);
    hide IsFrame, Starts, Accepted, Concat, Sum, Step;
    StepIs(u, e);
    if v.bytes == [] {
      i := n + 1;
      NothingAccepted();
      assert events[n + 1..] == [];
    } else if Piece(e) != [] && !u.ready && Starts(e.data) {
      i := n;
      StreamGrows(events, n);
      NothingAccepted();
      assert events[..n][n..] == [];
    } else {
      i := j;
      StreamGrows(events, j);
      PrefixExtends(Concat(Accepted(events[..n][j..])), Piece(e), NOTIFY_PACKET_SIZE);
    }
  }

  /** A step empties the buffer, starts it anew, or goes on with it. */
  lemma StepIs(u: View, e: Event)
    requires Good(u)
    ensures var v := Step(u, e);
      v.bytes == [] || v.bytes == (if Piece(e) != [] && !u.ready && Starts(e.data)
        then Prefix(Piece(e), NOTIFY_PACKET_SIZE) else Prefix(u.bytes + Piece(e), NOTIFY_PACKET_SIZE))
  {
    if u.ready {
      FrameLength(u.bytes);
    }
    hide IsFrame, Starts, Sum;
    assert u.bytes + [] == u.bytes;
    PrefixExtends(u.bytes, Piece(e), NOTIFY_PACKET_SIZE);
    if Piece(e) != [] {
      assert [] + Piece(e) == Piece(e);
    }
  }

  lemma NothingAccepted()
    ensures Concat(Accepted([])) == []
  {
  }

  /** At any time the buffer holds the unbroken beginning of what was accepted since some event. */
  lemma {:induction false} RunIsFromStream(events: seq<Event>) returns (i: nat)
    ensures FromEvent(Run(View([], false), events), events, i)
  {
    if events == [] {
      i := 0;
      NothingAccepted();
    } else {
      var n := |events| - 1;
      var j := RunIsFromStream(events[..n]);
      RunIsGood(View([], false), events[..n]);
      hide FromEvent, Good, Step;
      i := StepFromEvent(Run(View([], false), events[..n]), events, j);
    }
  }

  // ---- Synchronisation.

  function Values(pieces: seq<seq<Byte>>): (r: seq<Event>)
    ensures |r| == |pieces|
  {
    seq(|pieces|, i requires 0 <= i < |pieces| => Value(true, pieces[i]))
  }

  predicate StartsAfterFirst(pieces: seq<seq<Byte>>) {
    exists i :: 1 <= i < |pieces| && Starts(pieces[i])
  }

  /** A buffer on the way through a frame: it holds the pieces so far, or what came since a false start. */
  predicate OnTheWay(v: View, pieces: seq<seq<Byte>>) {
    !v.ready && (if StartsAfterFirst(pieces) then |v.bytes| < |Concat(pieces)| else v.bytes == Concat(pieces))
  }

  lemma StartsGrows(pieces: seq<seq<Byte>>, k: nat)
    requires 1 <= k < |pieces|
    ensures StartsAfterFirst(pieces[..k + 1]) <==> StartsAfterFirst(pieces[..k]) || Starts(pieces[k])
  {
    hide Starts;
    var more := pieces[..k + 1];
    assert more[k] == pieces[k] && forall i | 0 <= i < k :: more[i] == pieces[..k][i];
  }

  /** One more piece, short of the end or at it. */
  lemma NextPiece(u: View, pieces: seq<seq<Byte>>, k: nat)
    requires 1 <= k < |pieces| && OnTheWay(u, pieces[..k]) && |pieces[k]| >= 4
    requires 0 < |Concat(pieces[..k])| && |Concat(pieces[..k + 1])| <= NOTIFY_PACKET_SIZE
    ensures var r, all := Step(u, Value(true, pieces[k])), Concat(pieces[..k + 1]);
      if |all| < NOTIFY_PACKET_SIZE then OnTheWay(r, pieces[..k + 1])
      else if StartsAfterFirst(pieces[..k + 1]) then !r.ready
      else IsFrame(all) ==> r == View(all, true)
  {
    StartsGrows(pieces, k);
    ConcatPrefix(pieces, k);
    hide Starts, IsFrame, StartsAfterFirst, Concat;
  }

  lemma RunValues(v: View, pieces: seq<seq<Byte>>, k: nat)
    requires k < |pieces|
    ensures Run(v, Values(pieces[..k + 1])) == Step(Run(v, Values(pieces[..k])), Value(true, pieces[k]))
  {
    hide Step;
    assert Values(pieces[..k + 1])[..k] == Values(pieces[..k]);
  }

  /** Before its last piece a frame is neither empty nor full. */
  lemma Inside(pieces: seq<seq<Byte>>, k: nat)
    requires 1 <= k <= |pieces| && |Concat(pieces)| == NOTIFY_PACKET_SIZE && forall p | p in pieces :: |p| >= 4
    ensures 4 <= |Concat(pieces[..k])| <= NOTIFY_PACKET_SIZE
    ensures |Concat(pieces[..k])| == NOTIFY_PACKET_SIZE <==> k == |pieces|
    ensures pieces[0] <= Concat(pieces[..k])
  {
    ConcatSplit(pieces, k);
    assert pieces[..k][0] == pieces[0] && pieces[0] in pieces;
    if k < |pieces| {
      assert pieces[k..][0] == pieces[k] && pieces[k] in pieces;
    } else {
      assert pieces[..k] == pieces;
    }
  }

  lemma FirstHasMagic(pieces: seq<seq<Byte>>)
    requires pieces != [] && Starts(Concat(pieces)) && |pieces[0]| >= 4
    ensures Starts(pieces[0]) && Concat(pieces[..1]) == pieces[0]
  {
    assert pieces[..1] == [pieces[0]] && pieces[..1][1..] == [];
    assert Concat(pieces)[..4] == pieces[0][..4];
  }

  lemma StartingPiece(v: View, data: seq<Byte>)
    requires !v.ready && Starts(data) && |data| <= NOTIFY_PACKET_SIZE
    ensures |data| < NOTIFY_PACKET_SIZE ==> Step(v, Value(true, data)) == View(data, false)
    ensures IsFrame(data) ==> Step(v, Value(true, data)) == View(data, true)
  {
    assert [] + data == data && data[..|data|] == data;
    hide Sum;
  }

  /** The first piece of a frame carries the magic and starts the buffer anew. */
  lemma FirstPiece(v: View, pieces: seq<seq<Byte>>)
    requires pieces != [] && !v.ready && IsFrame(Concat(pieces)) && forall p | p in pieces :: |p| >= 4
    ensures var r := Step(v, Value(true, pieces[0]));
      if |pieces| == 1 then r == View(Concat(pieces), true) else OnTheWay(r, pieces[..1])
  {
    assert pieces[0] in pieces;
    assert Starts(Concat(pieces)) && |Concat(pieces)| == NOTIFY_PACKET_SIZE;
    hide IsFrame, Starts, Concat, Step, StartsAfterFirst;
    Inside(pieces, 1);
    FirstHasMagic(pieces);
    OneStart(pieces[..1]);
    StartingPiece(v, pieces[0]);
    assert |pieces| == 1 ==> pieces[..1] == pieces;
  }

  lemma AfterInnerPiece(u: View, pieces: seq<seq<Byte>>, k: nat)
    requires 1 <= k && k + 1 < |pieces| && |Concat(pieces)| == NOTIFY_PACKET_SIZE && forall p | p in pieces :: |p| >= 4
    requires OnTheWay(u, pieces[..k])
    ensures OnTheWay(Step(u, Value(true, pieces[k])), pieces[..k + 1])
  {
    hide IsFrame, OnTheWay, Step, Starts, StartsAfterFirst, Concat;
    Inside(pieces, k);
    Inside(pieces, k + 1);
    NextPiece(u, pieces, k);
  }

  lemma AfterLastPiece(u: View, pieces: seq<seq<Byte>>, k: nat)
    requires 1 <= k && k + 1 == |pieces| && IsFrame(Concat(pieces)) && forall p | p in pieces :: |p| >= 4
    requires OnTheWay(u, pieces[..k])
    ensures var r := Step(u, Value(true, pieces[k]));
      if StartsAfterFirst(pieces) then !r.ready else r == View(Concat(pieces), true)
  {
    FrameLength(Concat(pieces));
    hide IsFrame, OnTheWay, Step, Starts, StartsAfterFirst, Concat;
    Inside(pieces, k);
    assert pieces[..k + 1] == pieces;
    NextPiece(u, pieces, k);
  }

  lemma {:induction false} Approach(v: View, pieces: seq<seq<Byte>>, k: nat)
    requires 1 <= k <= |pieces| && !v.ready && IsFrame(Concat(pieces)) && forall p | p in pieces :: |p| >= 4
    ensures var r := Run(v, Values(pieces[..k]));
      if k < |pieces| then OnTheWay(r, pieces[..k])
      else if StartsAfterFirst(pieces) then !r.ready
      else r == View(Concat(pieces), true)
    decreases k
  {
    hide Starts, Concat, IsFrame, Step, OnTheWay, StartsAfterFirst, Values, Run;
    RunValues(v, pieces, k - 1);
    if k == 1 {
      NoValues(v, pieces);
      FirstPiece(v, pieces);
      OneStart(pieces);
    } else {
      Approach(v, pieces, k - 1);
      var u := Run(v, Values(pieces[..k - 1]));
      if k < |pieces| {
        FrameLength(Concat(pieces));
        AfterInnerPiece(u, pieces, k - 1);
      } else {
        assert pieces[..k] == pieces;
        AfterLastPiece(u, pieces, k - 1);
      }
    }
  }

  lemma NoValues(v: View, pieces: seq<seq<Byte>>)
    ensures Run(v, Values(pieces[..0])) == v
  {
    assert Values(pieces[..0]) == [];
  }

  lemma OneStart(pieces: seq<seq<Byte>>)
    ensures |pieces| <= 1 ==> !StartsAfterFirst(pieces)
  {
  }

  /**
   From any state that is not waiting, a frame cut into pieces of at least four bytes is received, and
   exactly that frame, just when no piece after the first starts with the magic; else the buffer is not
   handed over.
   */
  lemma FrameReceived(v: View, pieces: seq<seq<Byte>>)
    requires Good(v) && !v.ready && IsFrame(Concat(pieces))
    requires forall p | p in pieces :: |p| >= 4
    ensures var r := Run(v, Values(pieces));
      if StartsAfterFirst(pieces) then !r.ready else r == View(Concat(pieces), true)
  {
    hide Run, IsFrame, Starts, Good, StartsAfterFirst, OnTheWay;
    NotEmpty(pieces);
    Approach(v, pieces, |pieces|);
    assert pieces[..|pieces|] == pieces;
  }

  // ---- One frame after another.

  /** The frames that a run hands over. */
  function Handed(v: View, events: seq<Event>): seq<seq<Byte>> {
    if events == [] then []
    else
      var before := events[..|events| - 1];
      Handed(v, before)
        + if events[|events| - 1].Process? && Run(v, before).ready then [Run(v, before).bytes] else []
  }

  /** Frames in pieces, the buffer being processed after each. */
  function Session(frames: seq<seq<seq<Byte>>>): seq<Event> {
    if frames == [] then [] else Session(frames[..|frames| - 1]) + Values(frames[|frames| - 1]) + [Process]
  }

  /** A frame, in pieces of at least four bytes. */
  predicate IsCut(pieces: seq<seq<Byte>>) {
    IsFrame(Concat(pieces)) && forall p | p in pieces :: |p| >= 4
  }

  /** The frames of which no later piece starts with the magic, in their order. */
  function Unbroken(frames: seq<seq<seq<Byte>>>): seq<seq<Byte>> {
    if frames == [] then []
    else
      var pieces := frames[|frames| - 1];
      Unbroken(frames[..|frames| - 1]) + if StartsAfterFirst(pieces) then [] else [Concat(pieces)]
  }

  lemma {:induction false} RunAppend(v: View, a: seq<Event>, b: seq<Event>)
    ensures Run(v, a + b) == Run(Run(v, a), b)
    decreases |b|
  {
    hide Step;
    if b == [] {
      assert a + b == a;
    } else {
      var n := |b| - 1;
      RunAppend(v, a, b[..n]);
      assert (a + b)[..|a| + n] == a + b[..n] && (a + b)[|a| + n] == b[n];
    }
  }

  lemma {:induction false} ValuesHandNothing(v: View, a: seq<Event>, b: seq<Event>)
    requires forall e | e in b :: e.Value?
    ensures Handed(v, a + b) == Handed(v, a)
    decreases |b|
  {
    hide Run;
    if b == [] {
      assert a + b == a;
    } else {
      var n := |b| - 1;
      assert forall e | e in b[..n] :: e in b;
      ValuesHandNothing(v, a, b[..n]);
      assert (a + b)[..|a| + n] == a + b[..n] && (a + b)[|a| + n] == b[n] && b[n] in b;
    }
  }

  lemma ProcessHands(v: View, events: seq<Event>)
    ensures var before := Run(v, events);
      && Handed(v, events + [Process]) == Handed(v, events) + (if before.ready then [before.bytes] else [])
      && Run(v, events + [Process]) == if before.ready then View([], false) else before
  {
    assert (events + [Process])[..|events|] == events;
  }

  /** Frames on end: all of them are handed over, whole and in order, but those with the magic in a later piece. */
  lemma {:induction false} SessionHandsOver(v: View, frames: seq<seq<seq<Byte>>>)
    requires Good(v) && !v.ready && forall pieces | pieces in frames :: IsCut(pieces)
    ensures Handed(v, Session(frames)) == Unbroken(frames)
    ensures !Run(v, Session(frames)).ready
    decreases |frames|
  {
    hide Run, Handed, Step, Good, StartsAfterFirst, IsCut, Values;
    if frames == [] {
      NoSession(v);
    } else {
      var n := |frames| - 1;
      SessionHandsOver(v, frames[..n]);
      assert IsCut(frames[n]);
      RunIsGood(v, Session(frames[..n]));
      OneMore(v, Session(frames[..n]), frames[n]);
    }
  }

  lemma NoSession(v: View)
    ensures Handed(v, []) == [] && Run(v, []) == v
  {
  }

  lemma OneMore(v: View, events: seq<Event>, pieces: seq<seq<Byte>>)
    requires Good(Run(v, events)) && !Run(v, events).ready && IsCut(pieces)
    ensures var all := events + Values(pieces) + [Process];
      && Handed(v, all) == Handed(v, events) + (if StartsAfterFirst(pieces) then [] else [Concat(pieces)])
      && !Run(v, all).ready
  {
    hide Run, Handed, Step, Good, StartsAfterFirst, IsFrame;
    ValuesHandNothing(v, events, Values(pieces));
    RunAppend(v, events, Values(pieces));
    FrameReceived(Run(v, events), pieces);
    ProcessHands(v, events + Values(pieces));
  }

  /** When no later piece starts with the magic, every frame is handed over, in order. */
  lemma {:induction false} NoneIsLost(frames: seq<seq<seq<Byte>>>)
    requires forall pieces | pieces in frames :: !StartsAfterFirst(pieces)
    ensures |Unbroken(frames)| == |frames| && forall i | 0 <= i < |frames| :: Unbroken(frames)[i] == Concat(frames[i])
    decreases |frames|
  {
    hide StartsAfterFirst, Concat;
    if frames == [] {
    } else {
      var n := |frames| - 1;
      NoneIsLost(frames[..n]);
      assert frames[n] in frames;
    }
  }

  lemma NotEmpty(pieces: seq<seq<Byte>>)
    requires IsFrame(Concat(pieces))
    ensures pieces != []
  {
  }

  // ---- The device.

  /** `calc_crc`, in an eight-bit accumulator. */
  method CalcCrc(data: array<Byte>, len: nat) returns (crc: Byte)
    requires len <= data.Length && len < 0x1_0000
    ensures crc == Sum(data[..len])
  {
    crc := 0;
    for i := 0 to len
      invariant crc == Sum(data[..i])
    {
      crc := (crc + data[i]) % 256;
      assert data[..i + 1][..i] == data[..i];
    }
  }

  method MemCpy(buffer: array<Byte>, at: nat, data: seq<Byte>, n: nat)
    requires at + n <= buffer.Length && n <= |data|
    modifies buffer
    ensures buffer[..at + n] == old(buffer[..at]) + data[..n]
  {
    forall i | 0 <= i < n {
      buffer[at + i] := data[i];
    }
  }

  lemma FitsInBuffer(kept: seq<Byte>, data: seq<Byte>, csize: nat)
    requires csize <= |data| && |kept| + csize <= NOTIFY_PACKET_SIZE
    requires csize == |data| || |kept| + csize == NOTIFY_PACKET_SIZE
    ensures kept + data[..csize] == Prefix(kept + data, NOTIFY_PACKET_SIZE)
  {
    assert (kept + data)[..|kept| + csize] == kept + data[..csize];
  }

  class Device {
    const nbuff: array<Byte>
    var nbuffCurr: nat
    var nbuffReady: bool
    var charId: int

    ghost predicate Valid()
      reads this, nbuff
    {
      nbuff.Length == NOTIFY_PACKET_SIZE && nbuffCurr <= NOTIFY_PACKET_SIZE && Good(Now())
    }

    ghost function Now(): View
      requires nbuffCurr <= nbuff.Length
      reads this, nbuff
    {
      View(nbuff[..nbuffCurr], nbuffReady)
    }

    constructor ()
      ensures Valid() && Now() == View([], false) && fresh(nbuff)
    {
      nbuff := new Byte[NOTIFY_PACKET_SIZE];
      nbuffCurr, nbuffReady, charId := 0, false, 0;
    }

    /** `charc_reset`, on the buffer. */
    method CharcReset()
      requires Valid()
      modifies this
      ensures Valid() && Now() == Step(old(Now()), Reset) && charId == old(charId)
      ensures nbuffCurr == 0 && !nbuffReady
    {
      nbuffCurr := 0;
      nbuffReady := false;
    }

    /** `jk_bt_process_terminal`. */
    method ProcessTerminal(valId: int, data: seq<Byte>)
      requires Valid()
      modifies this, nbuff
      ensures Valid() && Now() == Step(old(Now()), Value(valId == charId, data)) && charId == old(charId)
      ensures old(nbuffReady) || valId != charId || |data| < 4 ==> Now() == old(Now())
    {
      hide Sum, Prefix;
      if nbuffReady {
        return;
      }
      if charId != valId {
        return;
      }
      if |data| < 4 {
        return;
      }
      var csize;
      if data[..4] == PKT_START {
        nbuffCurr := 0;
        csize := if |data| < NOTIFY_PACKET_SIZE then |data| else NOTIFY_PACKET_SIZE;
      } else {
        csize := NOTIFY_PACKET_SIZE - nbuffCurr;
        csize := if |data| < csize then |data| else csize;
      }
      FitsInBuffer(nbuff[..nbuffCurr], data, csize);
      MemCpy(nbuff, nbuffCurr, data, csize);
      nbuffCurr := nbuffCurr + csize;
      if nbuffCurr == NOTIFY_PACKET_SIZE {
        assert nbuff[..nbuffCurr] == nbuff[..];
        if nbuff[..4] != PKT_START {
          nbuffCurr := 0;
          return;
        }
        var crc := CalcCrc(nbuff, nbuffCurr - 1);
        if crc != nbuff[nbuffCurr - 1] {
          nbuffCurr := 0;
          return;
        }
        nbuffReady := true;
      }
    }

    /** `bms_jk_frame_process`: hands the frame over and frees the buffer. */
    method FrameProcess() returns (frame: seq<Byte>)
      requires Valid()
      modifies this
      ensures Valid() && Now() == Step(old(Now()), Process) && charId == old(charId)
      ensures if old(nbuffReady) then frame == old(Now()).bytes && IsFrame(frame) && nbuffCurr == 0 else frame == []
      ensures !nbuffReady && (!old(nbuffReady) ==> Now() == old(Now()))
    {
      if !nbuffReady {
        return [];
      }
      assert nbuff[..nbuffCurr] == nbuff[..];
      frame := nbuff[..];
      nbuffCurr := 0;
      nbuffReady := false;
    }
  }

  /** A device that gets frames in pieces, and processes its buffer after each. */
  method Serve(device: Device, frames: seq<seq<seq<Byte>>>) returns (handed: seq<seq<Byte>>)
    requires device.Valid() && !device.nbuffReady && forall pieces | pieces in frames :: IsCut(pieces)
    modifies device, device.nbuff
    ensures device.Valid() && !device.nbuffReady && handed == Unbroken(frames)
    ensures (forall pieces | pieces in frames :: !StartsAfterFirst(pieces)) ==>
      |handed| == |frames| && forall i | 0 <= i < |frames| :: handed[i] == Concat(frames[i])
  {
    hide Run, Step, Good, StartsAfterFirst, IsCut, Concat;
    handed := [];
    for n := 0 to |frames|
      invariant device.Valid() && !device.nbuffReady && handed == Unbroken(frames[..n])
    {
      var frame := ServeOne(device, frames[n]);
      handed := handed + frame;
      assert frames[..n + 1][..n] == frames[..n];
    }
    assert frames[..|frames|] == frames;
    if forall pieces | pieces in frames :: !StartsAfterFirst(pieces) {
      NoneIsLost(frames);
    }
  }

  method ServeOne(device: Device, pieces: seq<seq<Byte>>) returns (handed: seq<seq<Byte>>)
    requires device.Valid() && !device.nbuffReady && IsCut(pieces)
    modifies device, device.nbuff
    ensures device.Valid() && !device.nbuffReady
    ensures handed == if StartsAfterFirst(pieces) then [] else [Concat(pieces)]
  {
    hide Run, Step, StartsAfterFirst, Concat, Values, IsFrame;
    ghost var v := device.Now();
    NoValues(v, pieces);
    for k := 0 to |pieces|
      invariant device.Valid() && device.Now() == Run(v, Values(pieces[..k]))
    {
      RunValues(v, pieces, k);
      device.ProcessTerminal(device.charId, pieces[k]);
    }
    assert pieces[..|pieces|] == pieces;
    FrameReceived(v, pieces);
    var ready := device.nbuffReady;
    var frame := device.FrameProcess();
    handed := if ready then [frame] else [];
  }
}
