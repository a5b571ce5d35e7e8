/**
 The firmware update: TFTP callbacks that stream an image into the download slot through a
 256-byte buffer, and the tick that validates the slot and boots it. The flash device, the digest
 and the bootloader's image check are parameters; flash writes may fail at any attempt.
 */
module Ota {
  import opened Bytes
  import opened Sequences

  const BUFF_SIZE := 256
  const UPDATE_TIMEOUT_MS := 300000
  const APPLY_DELAY_MS := 2000

  /** Milliseconds since boot, never 0 once the system runs. */
  type Time = t: int | 0 < t witness 1

  /** What can happen to an update. `Start` carries the expected digest, empty for none. */
  datatype Event =
    | Start(now: Time, sha: string)
    | Open(matches: bool)
    | Write(packet: seq<Byte>)
    | Close
    | Error
    | Tick(now: Time)

  // ---- What drives an update, as a value.

  datatype Control = Control(inProgress: bool, started: int, ready: bool, apply: int, shaVerify: string, rebooted: bool)

  /** No update is under way or waits to be booted, so a start takes effect. */
  predicate IsIdle(c: Control) {
    c.started == 0 && c.apply == 0
  }

  /** A transfer belongs to a started update, and there is none while a slot waits to be booted. */
  predicate Sane(c: Control) {
    && (c.inProgress || c.ready ==> c.started != 0)
    && (c.apply != 0 ==> c.started == 0)
  }

  function Cleared(c: Control): Control {
    c.(inProgress := false, started := 0, ready := false, shaVerify := "")
  }

  /** What an event makes of it. Only the outcome of a validation is open. */
  predicate Follows(c: Control, e: Event, d: Control) {
    match e
    case Start(now, sha) => d == if IsIdle(c) then c.(started := now, shaVerify := sha) else c
    case Open(matches) => d == if matches && c.started != 0 then c.(inProgress := true) else c
    case Write(_) => d == c.(inProgress := c.inProgress || c.started != 0)
    case Close => d == if c.inProgress then c.(ready := true) else Cleared(c)
    case Error => d == Cleared(c)
    case Tick(now) =>
      if IsIdle(c) then d == c
      else if c.apply != 0 then d == c.(rebooted := c.rebooted || now - c.apply > APPLY_DELAY_MS)
      else if c.ready then d == Cleared(c) || d == Cleared(c).(apply := now)
      else d == if now - c.started > UPDATE_TIMEOUT_MS then Cleared(c) else c
  }

  lemma StaysSane(c: Control, e: Event, d: Control)
    requires Sane(c) && Follows(c, e, d)
    ensures Sane(d)
  {
  }

  /** The states before, between and after the events of a run. */
  ghost predicate IsRun(trace: seq<Control>, events: seq<Event>) {
    |trace| == |events| + 1 && forall i | 0 <= i < |events| :: Follows(trace[i], events[i], trace[i + 1])
  }

  /** The digests of the starts that took effect, in their order. */
  function Digests(trace: seq<Control>, events: seq<Event>): seq<string>
    requires |trace| == |events| + 1
  {
    if events == [] then []
    else
      var n := |events| - 1;
      Digests(trace[..n + 1], events[..n]) + if events[n].Start? && IsIdle(trace[n]) then [events[n].sha] else []
  }

  /** The digest that the last of some starts carried, if there was one. */
  function Last(starts: seq<string>): string {
    if starts == [] then "" else starts[|starts| - 1]
  }

  lemma {:induction false} SaneThroughout(trace: seq<Control>, events: seq<Event>, n: nat)
    requires IsRun(trace, events) && Sane(trace[0]) && n <= |events|
    ensures Sane(trace[n])
  {
    hide Sane, Follows;
    if n == 0 {
    } else {
      SaneThroughout(trace, events, n - 1);
      StaysSane(trace[n - 1], events[n - 1], trace[n]);
    }
  }

  lemma StaysIdle(c: Control, e: Event, d: Control)
    requires Sane(c) && IsIdle(c) && Follows(c, e, d) && !e.Start?
    ensures IsIdle(d)
  {
  }

  /** From an idle device the first start takes effect, and until then the device stays idle. */
  lemma {:induction false} FirstStart(trace: seq<Control>, events: seq<Event>, n: nat)
    requires IsRun(trace, events) && Sane(trace[0]) && IsIdle(trace[0]) && n <= |events|
    requires forall i | 0 <= i < n :: !events[i].Start?
    ensures IsIdle(trace[n]) && Digests(trace[..n + 1], events[..n]) == []
  {
    hide Sane, Follows, IsIdle;
    if n == 0 {
    } else {
      FirstStart(trace, events, n - 1);
      SaneThroughout(trace, events, n - 1);
      StaysIdle(trace[n - 1], events[n - 1], trace[n]);
      assert trace[..n + 1][..n] == trace[..n] && events[..n][..n - 1] == events[..n - 1];
    }
  }

  /** A run that begins with its only start, on an idle device, has just its digest. */
  lemma {:induction false} OnlyStart(trace: seq<Control>, events: seq<Event>, n: nat)
    requires IsRun(trace, events) && IsIdle(trace[0]) && 1 <= n <= |events|
    requires events[0].Start? && forall i | 1 <= i < n :: !events[i].Start?
    ensures Digests(trace[..n + 1], events[..n]) == [events[0].sha]
  {
    hide Follows, IsIdle;
    assert trace[..n + 1][..n] == trace[..n] && events[..n][..n - 1] == events[..n - 1];
    if n == 1 {
      assert Digests(trace[..1], events[..0]) == [];
    } else {
      OnlyStart(trace, events, n - 1);
    }
  }

  /** A packet comes after a close that no tick and no error has followed. */
  ghost predicate IsLate(events: seq<Event>, i: nat)
    requires i < |events|
  {
    events[i].Write? && exists j :: Pending(events, j, i)
  }

  ghost predicate Pending(events: seq<Event>, j: nat, i: nat)
    requires i <= |events|
  {
    j < i && events[j].Close? && forall k | j < k < i :: !events[k].Tick? && !events[k].Error?
  }

  /** A transfer is only closed by a close, and stays so until a tick or an error. */
  lemma {:induction false} ReadyIsPending(trace: seq<Control>, events: seq<Event>, n: nat)
    requires IsRun(trace, events) && Sane(trace[0]) && !trace[0].ready && n <= |events| && trace[n].ready
    ensures exists j :: Pending(events, j, n)
  {
    hide Sane, Follows, Pending;
    if n == 0 {
      assert false;
    } else {
      SaneThroughout(trace, events, n - 1);
      ReadyBy(trace[n - 1], events[n - 1], trace[n]);
      if events[n - 1].Close? {
        PendingNow(events, n - 1);
      } else {
        ReadyIsPending(trace, events, n - 1);
        var j :| Pending(events, j, n - 1);
        StillPending(events, j, n - 1);
      }
    }
  }

  lemma ReadyBy(c: Control, e: Event, d: Control)
    requires Sane(c) && Follows(c, e, d) && d.ready
    ensures e.Close? || (c.ready && !e.Tick? && !e.Error?)
  {
  }

  lemma PendingNow(events: seq<Event>, j: nat)
    requires j < |events| && events[j].Close?
    ensures Pending(events, j, j + 1)
  {
  }

  lemma StillPending(events: seq<Event>, j: nat, i: nat)
    requires i < |events| && Pending(events, j, i) && !events[i].Tick? && !events[i].Error?
    ensures Pending(events, j, i + 1)
  {
  }

  /** Without late packets no packet finds a closed transfer. */
  ghost predicate InOrder(events: seq<Event>) {
    forall i | 0 <= i < |events| :: !IsLate(events, i)
  }

  lemma OpenWhenWritten(trace: seq<Control>, events: seq<Event>, i: nat)
    requires IsRun(trace, events) && Sane(trace[0]) && !trace[0].ready
    requires InOrder(events) && i < |events| && events[i].Write?
    ensures !trace[i].ready
  {
    hide Sane, Follows, Pending;
    assert !IsLate(events, i);
    if trace[i].ready {
      ReadyIsPending(trace, events, i);
    }
  }

  // ---- The update.

  class Update {
    // The environment.
    const digest: seq<Byte> -> string
    const firmwareOk: seq<Byte> -> bool
    const flashWorks: nat -> bool
    const slotSize: nat
    var flash: seq<Byte>
    var slotValid: bool
    var attempts: nat
    var rebooted: bool

    // `ota_update_t`.
    var inProgress: bool
    const buff: array<Byte>
    var buffP: nat
    var flashOffset: nat
    var sha: seq<Byte>
    var shaVerify: string
    var started: int
    var ready: bool
    var apply: int

    // The digests that the effective starts carried so far, and the image that passed validation.
    ghost var starts: seq<string>
    ghost var accepted: seq<Byte>

    // Since the slot was erased, a write began within a page; what the flash then holds is not known.
    ghost var torn: bool

    ghost function Now(): Control
      reads this
    {
      Control(inProgress, started, ready, apply, shaVerify, rebooted)
    }

    /** The hashed bytes are the flash up to the offset, unless a page is torn; the rest of the buffer is zero. */
    ghost predicate Valid()
      reads this, buff
    {
      && buff.Length == BUFF_SIZE && buffP <= BUFF_SIZE
      && |flash| == slotSize && flashOffset == |sha| && |sha| <= |flash| && (torn || sha <= flash)
      && (forall i | buffP <= i < BUFF_SIZE :: buff[i] == 0)
      && 0 <= started && 0 <= apply
    }

    /**
     An update waiting to be applied: the slot is marked valid and still holds an image that passed the firmware
     check, of the length of what was hashed and, unless a page is torn, exactly that; the digest is the expected
     one, and no transfer can touch the slot. Only then is it booted. Until then a started update keeps the digest
     it was started with, and until a transfer is closed the flash is written page by page.
     */
    ghost predicate Safe()
      reads this
    {
      && (apply != 0 ==>
            && slotValid && |accepted| <= |flash| && firmwareOk(flash[..|accepted|]) && (torn || accepted <= flash)
            && (Last(starts) == "" || digest(accepted) == Last(starts)))
      && Sane(Now()) && (started != 0 ==> shaVerify == Last(starts))
      && (ready || apply != 0 || Paged())
      && (rebooted ==> apply != 0)
    }

    /** So far only whole pages were written. */
    ghost predicate Paged()
      reads this
    {
      !torn && flashOffset % BUFF_SIZE == 0
    }

    /** No page is torn, and none will be unless more is received. */
    ghost predicate Whole()
      reads this
    {
      !torn && (flashOffset % BUFF_SIZE == 0 || buffP == 0)
    }

    /** Everything received: what is in flash and what waits in the buffer. */
    ghost function Stream(): seq<Byte>
      requires Valid()
      reads this, buff
    {
      sha + buff[..buffP]
    }

    constructor (digest: seq<Byte> -> string, firmwareOk: seq<Byte> -> bool, flashWorks: nat -> bool, slot: seq<Byte>)
      ensures Valid() && Safe() && Whole() && !rebooted && apply == 0 && fresh(buff)
      ensures this.digest == digest && this.firmwareOk == firmwareOk && this.flashWorks == flashWorks
      ensures slotSize == |slot|
    {
      this.digest, this.firmwareOk, this.flashWorks := digest, firmwareOk, flashWorks;
      slotSize, flash, slotValid, attempts, rebooted := |slot|, slot, false, 0, false;
      inProgress, buff, buffP, flashOffset := false, new Byte[BUFF_SIZE](_ => 0), 0, 0;
      sha, shaVerify, started, ready, apply := [], "", 0, false, 0;
      starts, accepted, torn := [], [], false;
    }

    method ClearBuff()
      requires buff.Length == BUFF_SIZE
      modifies buff
      ensures forall i | 0 <= i < BUFF_SIZE :: buff[i] == 0
    {
      forall i | 0 <= i < BUFF_SIZE {
        buff[i] := 0;
      }
    }

    /**
     `pfb_write_to_flash_aligned_256_bytes` of the whole buffer. A failed attempt may leave any bytes from the
     offset on, and one that begins within a page any bytes from that page on.
     */
    method WriteFlash() returns (failed: bool)
      requires Valid()
      modifies this`flash, this`attempts, this`torn
      ensures Valid() && |flash| == |old(flash)|
      ensures attempts == old(attempts) + 1 && torn == (old(torn) || flashOffset % BUFF_SIZE != 0)
      ensures failed == !(flashWorks(old(attempts)) && flashOffset + BUFF_SIZE <= slotSize)
      ensures !failed && flashOffset % BUFF_SIZE == 0 ==>
        flash == old(flash)[..flashOffset] + buff[..] + old(flash)[flashOffset + BUFF_SIZE..]
    {
      failed := !(flashWorks(attempts) && flashOffset + BUFF_SIZE <= slotSize);
      attempts := attempts + 1;
      var within := flashOffset % BUFF_SIZE;
      if within != 0 {
        torn := true;
        AnyFrom(flashOffset - within);
      } else if failed {
        AnyFrom(flashOffset);
      } else {
        flash := flash[..flashOffset] + buff[..] + flash[flashOffset + BUFF_SIZE..];
      }
    }

    /** From an offset on the flash may hold any bytes. */
    method AnyFrom(offset: nat)
      requires offset <= |flash|
      modifies this`flash
      ensures |flash| == |old(flash)| && flash[..offset] == old(flash)[..offset]
    {
      var junk: seq<Byte> := *;
      if |junk| == |flash| - offset {
        flash := flash[..offset] + junk;
      }
    }

    /** `ota_buff_commit`: writes the whole buffer, hashes its first `size` bytes, empties it. */
    method BuffCommit(size: nat) returns (failed: bool)
      requires Valid() && size == buffP
      modifies this`flash, this`attempts, this`torn, this`sha, this`flashOffset, this`buffP, buff
      ensures Valid() && Stream() == old(Stream()) && attempts == old(attempts) + 1
      ensures torn == (old(torn) || old(flashOffset) % BUFF_SIZE != 0)
      ensures failed == !(flashWorks(old(attempts)) && old(flashOffset) + BUFF_SIZE <= slotSize)
      ensures failed ==> sha == old(sha) && buffP == old(buffP)
      ensures !failed ==> sha == old(Stream()) && buffP == 0
      ensures !failed && old(flashOffset) % BUFF_SIZE == 0 ==>
        flash[old(flashOffset)..old(flashOffset) + BUFF_SIZE] == old(buff[..])
    {
      failed := WriteFlash();
      if failed {
        return;
      }
      if flashOffset % BUFF_SIZE == 0 {
        assert flash[flashOffset..flashOffset + BUFF_SIZE] == buff[..];
        if !torn {
          PageExtends(flash, sha, buff[..], size);
        }
      }
      sha := sha + buff[..size];
      flashOffset := flashOffset + size;
      buffP := 0;
      ClearBuff();
    }

    /** `pfb_mark_download_slot_as_invalid` and `pfb_initialize_download_slot`. */
    method EraseSlot()
      requires |flash| == slotSize
      modifies this`flash, this`torn, this`slotValid
      ensures |flash| == slotSize && !slotValid && !torn
    {
      slotValid, torn := false, false;
      flash := seq(slotSize, _ => 0xFF);
    }

    /** `ota_update_reset`. A slot waiting to be applied is left alone. */
    method Reset()
      requires Valid()
      modifies this`flash, this`torn, this`slotValid, this`sha, this`flashOffset, this`buffP, this`inProgress,
        this`started, this`ready, this`shaVerify, buff
      ensures Valid() && sha == [] && buffP == 0 && !inProgress && started == 0 && !ready && shaVerify == ""
      ensures flashOffset == 0
      ensures apply != 0 ==> slotValid == old(slotValid) && flash == old(flash) && torn == old(torn)
      ensures apply == 0 ==> !slotValid && !torn
    {
      inProgress, started, buffP, ready := false, 0, 0, false;
      ClearBuff();
      shaVerify, sha, flashOffset := "", [], 0;
      if apply == 0 {
        EraseSlot();
      }
    }

    /** `ota_tftp_update_open`. */
    method OpenImage(matches: bool) returns (ok: bool)
      requires Valid()
      modifies this`flash, this`torn, this`slotValid, this`sha, this`flashOffset, this`buffP, this`inProgress, buff
      ensures Valid() && ok == (matches && started != 0)
      ensures ok ==> inProgress && !slotValid && sha == [] && flashOffset == buffP == 0 && !torn
      ensures !ok ==>
        && flash == old(flash) && torn == old(torn) && slotValid == old(slotValid) && sha == old(sha)
        && flashOffset == old(flashOffset) && buffP == old(buffP) && inProgress == old(inProgress)
        && buff[..] == old(buff[..])
    {
      if !matches || started == 0 {
        return false;
      }
      EraseSlot();
      sha, buffP, flashOffset := [], 0, 0;
      ClearBuff();
      inProgress := true;
      return true;
    }

    /** Copies bytes that fit to the end of the buffered ones. */
    method Append(bytes: seq<Byte>)
      requires Valid() && buffP + |bytes| <= BUFF_SIZE
      modifies this`buffP, buff
      ensures Valid() && buffP == old(buffP) + |bytes| && Stream() == old(Stream()) + bytes
    {
      ghost var before := buff[..buffP];
      forall i | 0 <= i < |bytes| {
        buff[buffP + i] := bytes[i];
      }
      buffP := buffP + |bytes|;
      assert buff[..buffP] == before + bytes;
    }

    /** A transfer under way with no failed write behind it. */
    predicate Streaming()
      reads this
    {
      inProgress && buffP < BUFF_SIZE && flashOffset % BUFF_SIZE == 0
    }

    /**
     `ota_tftp_update_write`: what it accepts is appended to the stream. Without flash failures every
     packet that fits is accepted.
     */
    method WritePacket(packet: seq<Byte>) returns (ok: bool)
      requires Valid()
      modifies this`flash, this`torn, this`attempts, this`slotValid, this`sha, this`flashOffset, this`buffP,
        this`inProgress, buff
      ensures Valid()
      ensures !old(inProgress) && started == 0 ==>
        !ok && flash == old(flash) && slotValid == old(slotValid) && !inProgress && attempts == old(attempts)
        && torn == old(torn) && flashOffset == old(flashOffset) && buffP == old(buffP)
      ensures inProgress == (old(inProgress) || started != 0)
      ensures slotValid ==> old(slotValid)
      ensures old(Paged()) ==> Paged()
      ensures ok ==> inProgress && Stream() == (if old(inProgress) then old(Stream()) else []) + packet
      ensures old(Streaming()) && (forall n :: flashWorks(n)) && |old(Stream())| + |packet| <= slotSize
        ==> ok && Streaming()
    {
      if !inProgress {
        var begun := OpenImage(true);
      }
      if !inProgress {
        return false;
      }
      ok := StreamBytes(packet);
    }

    /** Buffers bytes that fit, and commits the buffer when it is full. */
    method Fill(bytes: seq<Byte>) returns (failed: bool)
      requires Valid() && buffP + |bytes| <= BUFF_SIZE
      modifies this`flash, this`torn, this`attempts, this`sha, this`flashOffset, this`buffP, buff
      ensures Valid()
      ensures old(Paged()) ==> Paged()
      ensures !failed ==> Stream() == old(Stream()) + bytes
      ensures !failed ==> buffP == (old(buffP) + |bytes|) % BUFF_SIZE
      ensures old(Streaming()) && (forall n :: flashWorks(n)) && |old(Stream())| + |bytes| <= slotSize
        ==> !failed && Streaming()
    {
      Append(bytes);
      failed := false;
      if buffP == BUFF_SIZE {
        failed := BuffCommit(buffP);
      }
    }

    /** The copy loop of the write hook; a full buffer is committed before the loop goes on. */
    method StreamBytes(packet: seq<Byte>) returns (ok: bool)
      requires Valid()
      modifies this`flash, this`torn, this`attempts, this`sha, this`flashOffset, this`buffP, buff
      ensures Valid()
      ensures old(Paged()) ==> Paged()
      ensures ok ==> Stream() == old(Stream()) + packet
      ensures old(Streaming()) && (forall n :: flashWorks(n)) && |old(Stream())| + |packet| <= slotSize
        ==> ok && Streaming()
    {
      hide Stream, Streaming, Paged;
      ghost var paged := Paged();
      ghost var base := Stream();
      ghost var smooth := Streaming() && (forall n :: flashWorks(n)) && |base| + |packet| <= slotSize;
      var wsize, wp := |packet|, 0;
      var again := true;
      while again
        invariant Valid() && 0 <= wsize && 0 <= wp && wp + wsize == |packet|
        invariant Stream() == base + packet[..wp]
        invariant again || wsize == 0
        invariant (smooth ==> Streaming()) && (paged ==> Paged())
        decreases again, wsize, buffP
      {
        var bsize := BUFF_SIZE - buffP;
        var csize := if wsize <= bsize then wsize else bsize;
        CutPacket(packet, wp, csize);
        var failed := Fill(packet[wp..wp + csize]);
        if failed {
          return false;
        }
        wsize, wp := wsize - csize, wp + csize;
        again := wsize > 0;
      }
      assert packet[..wp] == packet;
      return true;
    }

    /** `ota_tftp_update_close`: commits what is left, whether or not that works, and asks for validation. */
    method CloseImage()
      requires Valid()
      modifies this`flash, this`torn, this`attempts, this`slotValid, this`sha, this`flashOffset, this`buffP,
        this`inProgress, this`started, this`ready, this`shaVerify, buff
      ensures Valid()
      ensures !old(inProgress) ==> !ready && !inProgress && started == 0 && buffP == 0 && shaVerify == ""
      ensures !old(inProgress) && apply != 0 ==> slotValid == old(slotValid) && flash == old(flash) && torn == old(torn)
      ensures !old(inProgress) && apply == 0 ==> Paged()
      ensures old(Whole()) ==> Whole()
      ensures old(inProgress) ==> ready && inProgress && started == old(started) && slotValid == old(slotValid)
      ensures old(inProgress) ==> shaVerify == old(shaVerify)
      ensures old(Streaming() && Paged()) && (forall n :: flashWorks(n)) && RoundUp(|old(Stream())|) <= slotSize ==>
        sha == old(Stream()) && flash[..RoundUp(|sha|)] == sha + Zeros(RoundUp(|sha|) - |sha|)
    {
      if !inProgress {
        Reset();
        return;
      }
      hide Stream, RoundUp;
      CommitRest();
      ready := true;
    }

    /** Commits what the buffer still holds. */
    method CommitRest()
      requires Valid()
      modifies this`flash, this`torn, this`attempts, this`sha, this`flashOffset, this`buffP, buff
      ensures Valid() && (old(Whole()) ==> Whole())
      ensures old(Streaming() && Paged()) && (forall n :: flashWorks(n)) && RoundUp(|old(Stream())|) <= slotSize ==>
        sha == old(Stream()) && flash[..RoundUp(|sha|)] == sha + Zeros(RoundUp(|sha|) - |sha|)
    {
      hide RoundUp;
      ghost var whole, tail, rest := sha, buff[..], buffP;
      ghost var smooth := Streaming() && Paged() && (forall n :: flashWorks(n)) && RoundUp(|Stream()|) <= slotSize;
      if smooth {
        RoundUpOf(|whole|, rest);
      }
      if buffP != 0 {
        var failed := BuffCommit(buffP);
      } else {
        assert Stream() == sha;
      }
      if smooth {
        PaddedTail(flash, whole, tail, rest);
      }
    }

    /**
     `ota_update_validate`: the digest of what was hashed, when one is expected, then the bootloader's
     check of the flash up to the offset.
     */
    method Validate(now: Time) returns (ok: bool)
      requires Valid() && apply == 0
      modifies this, buff
      ensures Valid() && !inProgress && started == 0 && !ready && rebooted == old(rebooted) && starts == old(starts)
      ensures ok == ((old(shaVerify) == "" || digest(old(sha)) == old(shaVerify))
                     && firmwareOk(old(flash)[..old(flashOffset)]))
      ensures !old(torn) ==> old(flash)[..old(flashOffset)] == old(sha)
      ensures ok ==> apply == now && slotValid && flash == old(flash) && accepted == old(sha) && torn == old(torn)
      ensures !ok ==> apply == 0 && !slotValid && Paged()
      ensures flashOffset == buffP == 0 && shaVerify == ""
    {
      ok := false;
      if shaVerify == "" || digest(sha) == shaVerify {
        if firmwareOk(flash[..flashOffset]) {
          slotValid := true;
          apply := now;
          accepted := sha;
          ok := true;
        }
      }
      Reset();
    }

    /** The expected digest, when there is one, is that of what was hashed, and the bootloader accepts the flash. */
    ghost predicate Accepts()
      requires Valid()
      reads this, buff
    {
      (shaVerify == "" || digest(sha) == shaVerify) && firmwareOk(flash[..flashOffset])
    }

    /** `sys_ota_run` and `ota_update_run`. */
    method RunTick(now: Time)
      requires Valid() && Safe()
      modifies this, buff
      ensures Valid() && Safe() && starts == old(starts) && Follows(old(Now()), Tick(now), Now())
      ensures old(apply) != 0 ==> apply == old(apply) && rebooted == (old(rebooted) || now - old(apply) > 2000)
      ensures old(apply) == 0 ==> rebooted == old(rebooted)
      ensures old(ready) ==>
        && slotValid == ((old(shaVerify) == "" || digest(old(sha)) == old(shaVerify))
                         && firmwareOk(old(flash)[..old(flashOffset)]))
        && apply == (if slotValid then now else 0)
        && (slotValid ==> flash == old(flash) && accepted == old(sha))
      ensures !old(ready) && old(started) != 0 && now - old(started) > 300000 ==>
        started == 0 && !inProgress && !slotValid && sha == [] && buffP == 0
      ensures !old(ready) && (old(started) == 0 || now - old(started) <= 300000) ==>
        && flash == old(flash) && slotValid == old(slotValid) && accepted == old(accepted)
        && Stream() == old(Stream()) && Streaming() == old(Streaming()) && Paged() == old(Paged())
        && (old(apply) == 0 ==> Now() == old(Now()))
      ensures old(Whole()) ==> Whole()
    {
      if started == 0 && apply == 0 {
        return;
      }
      if apply != 0 {
        if now - apply > APPLY_DELAY_MS {
          rebooted := true;
        }
        return;
      }
      if ready {
        var ok := Validate(now);
        return;
      }
      if now - started > UPDATE_TIMEOUT_MS {
        Reset();
      }
    }

    /** A command to update, with the digest to expect. */
    method Begin(now: Time, digest: string)
      requires Valid() && Safe()
      modifies this`started, this`shaVerify, this`starts
      ensures Valid() && Safe() && (old(Whole()) ==> Whole())
      ensures Follows(old(Now()), Start(now, digest), Now())
      ensures starts == old(starts) + if IsIdle(old(Now())) then [digest] else []
    {
      if started == 0 && apply == 0 {
        started, shaVerify := now, digest;
        starts := starts + [digest];
      }
    }

    /** The open hook as an event. */
    method OnOpen(matches: bool)
      requires Valid() && Safe()
      modifies this`flash, this`torn, this`slotValid, this`sha, this`flashOffset, this`buffP, this`inProgress, buff
      ensures Valid() && Safe() && (old(Whole()) ==> Whole())
      ensures Follows(old(Now()), Open(matches), Now())
      ensures matches && started != 0 ==> Streaming() && Paged() && Stream() == []
    {
      hide Valid;
      var ok := OpenImage(matches);
    }

    /** The write hook as an event. */
    method OnWrite(packet: seq<Byte>)
      requires Valid() && Safe()
      modifies this`flash, this`torn, this`attempts, this`slotValid, this`sha, this`flashOffset, this`buffP,
        this`inProgress, buff
      ensures Valid() && Safe() && (old(Whole() && !ready) ==> Whole())
      ensures Follows(old(Now()), Write(packet), Now())
      ensures old(Streaming()) && (forall n :: flashWorks(n)) && |old(Stream())| + |packet| <= slotSize ==>
        Streaming() && (old(Paged()) ==> Paged()) && Stream() == old(Stream()) + packet
    {
      hide Valid, Stream;
      var ok := WritePacket(packet);
    }

    /** The close hook as an event. */
    method OnClose()
      requires Valid() && Safe()
      modifies this`flash, this`torn, this`attempts, this`slotValid, this`sha, this`flashOffset, this`buffP,
        this`inProgress, this`started, this`ready, this`shaVerify, buff
      ensures Valid() && Safe() && (old(Whole()) ==> Whole())
      ensures Follows(old(Now()), Close, Now())
      ensures old(Streaming() && Paged()) && (forall n :: flashWorks(n)) && RoundUp(|old(Stream())|) <= slotSize ==>
        sha == old(Stream()) && flash[..RoundUp(|sha|)] == sha + Zeros(RoundUp(|sha|) - |sha|)
    {
      hide Valid, Stream, RoundUp;
      CloseImage();
    }

    /** The error hook as an event. */
    method OnError()
      requires Valid() && Safe()
      modifies this`flash, this`torn, this`slotValid, this`sha, this`flashOffset, this`buffP, this`inProgress,
        this`started, this`ready, this`shaVerify, buff
      ensures Valid() && Safe() && (old(Whole()) ==> Whole())
      ensures Follows(old(Now()), Error, Now())
      ensures apply == 0 ==> !slotValid && sha == [] && buffP == 0
    {
      hide Valid;
      Reset();
    }

    /**
     One event. Commands are taken as refused between validation and reboot; apart from them every
     callback may come at any time.
     */
    method Step(event: Event)
      requires Valid() && Safe()
      modifies this, buff
      ensures Valid() && Safe()
      ensures rebooted && !old(rebooted) ==> event.Tick? && old(apply) != 0
      ensures Follows(old(Now()), event, Now())
      ensures starts == old(starts) + if event.Start? && IsIdle(old(Now())) then [event.sha] else []
      ensures old(Whole()) && !(event.Write? && old(ready)) ==> Whole()
      ensures event == Open(true) && old(started) != 0 ==> Streaming() && Paged() && Stream() == []
      ensures event.Write? && old(Streaming()) && (forall n :: flashWorks(n))
              && |old(Stream())| + |event.packet| <= slotSize ==>
        Streaming() && (old(Paged()) ==> Paged()) && Stream() == old(Stream()) + event.packet
      ensures event.Close? && old(Streaming() && Paged()) && (forall n :: flashWorks(n))
              && RoundUp(|old(Stream())|) <= slotSize ==>
        sha == old(Stream()) && flash[..RoundUp(|sha|)] == sha + Zeros(RoundUp(|sha|) - |sha|)
      ensures event.Tick? && old(ready) ==>
        && slotValid == old(Accepts()) && apply == (if slotValid then event.now else 0)
        && (slotValid ==> flash == old(flash) && accepted == old(sha))
      ensures event.Tick? && old(apply) != 0 ==>
        apply == old(apply) && rebooted == (old(rebooted) || event.now - old(apply) > 2000)
      ensures event.Tick? && !old(ready) && (old(started) == 0 || event.now - old(started) <= 300000) ==>
        && flash == old(flash) && slotValid == old(slotValid) && accepted == old(accepted)
        && Stream() == old(Stream()) && Streaming() == old(Streaming()) && Paged() == old(Paged())
        && (old(apply) == 0 ==> Now() == old(Now()))
      ensures event.Tick? && !old(ready) && old(started) != 0 && event.now - old(started) > 300000 ==>
        started == 0 && !inProgress && !slotValid && sha == [] && buffP == 0
      ensures !event.Tick? ==> accepted == old(accepted)
      ensures event.Error? && old(apply) == 0 ==> !slotValid && sha == [] && buffP == 0
    {
      hide Valid, Safe, Paged, Whole, Streaming, Stream, Follows, IsIdle, RoundUp;
      match event
      case Start(now, digest) =>
        Begin(now, digest);
      case Open(matches) =>
        OnOpen(matches);
      case Write(packet) =>
        OnWrite(packet);
      case Close =>
        OnClose();
      case Error =>
        OnError();
      case Tick(now) =>
        RunTick(now);
    }

    lemma Outcome()
      requires Valid() && Safe()
      ensures rebooted ==>
        && slotValid && |accepted| <= |flash| && firmwareOk(flash[..|accepted|])
        && (Last(starts) == "" || digest(accepted) == Last(starts))
      ensures Whole() ==> sha <= flash && (rebooted ==> accepted <= flash && firmwareOk(accepted))
    {
      if accepted <= flash {
        assert flash[..|accepted|] == accepted;
      }
    }

    /**
     Over every run of events, with flash writes failing at any attempts: if the device boots the
     slot, the slot is marked valid and holds an image that passed the firmware check and has the digest
     which the last effective start carried, when it carried one. Unless a packet comes after a close, the image
     in the slot is the one whose digest was taken. The trace is that of the device's own state.
     */
    method Run(events: seq<Event>) returns (ghost trace: seq<Control>)
      requires Valid() && Safe() && Whole() && !rebooted
      modifies this, buff
      ensures Valid() && Safe()
      ensures IsRun(trace, events) && trace[0] == old(Now()) && trace[|events|] == Now()
      ensures starts == old(starts) + Digests(trace, events)
      ensures rebooted ==>
        && slotValid && |accepted| <= |flash| && firmwareOk(flash[..|accepted|])
        && (Last(starts) == "" || digest(accepted) == Last(starts))
      ensures old(!ready) && InOrder(events) ==>
        && sha <= flash
        && (rebooted ==> accepted <= flash && firmwareOk(accepted))
    {
      hide Valid, Safe, Whole, Digests, Last, Sane, Follows, IsLate;
      trace := [Now()];
      NoDigests(trace, events);
      IsSane();
      for i := 0 to |events|
        invariant Valid() && Safe()
        invariant |trace| == i + 1 && trace[0] == old(Now()) && trace[i] == Now() && IsRun(trace, events[..i])
        invariant starts == old(starts) + Digests(trace, events[..i])
        invariant (forall k | 0 <= k < i && events[k].Write? :: !trace[k].ready) ==> Whole()
      {
        Step(events[i]);
        RunGrows(trace, events, i, Now());
        DigestsNext(trace, events, i, Now());
        trace := trace + [Now()];
      }
      assert events[..|events|] == events;
      if old(!ready) && InOrder(events) {
        forall k | 0 <= k < |events| && events[k].Write? ensures !trace[k].ready {
          OpenWhenWritten(trace, events, k);
        }
      }
      Outcome();
    }

    lemma IsSane()
      requires Safe()
      ensures Sane(Now())
    {
    }

    /**
     One update: from an idle device, a start and then anything but another start. If the device boots the slot,
     the image in it has the digest that the start carried, when it carried one.
     */
    method OneUpdate(now: Time, digestText: string, events: seq<Event>)
      requires Valid() && Safe() && Whole() && !rebooted && IsIdle(Now())
      requires forall e | e in events :: !e.Start?
      modifies this, buff
      ensures Valid() && Safe()
      ensures rebooted ==>
        && slotValid && |accepted| <= |flash| && firmwareOk(flash[..|accepted|])
        && (digestText == "" || digest(accepted) == digestText)
      ensures InOrder([Start(now, digestText)] + events) ==>
        && sha <= flash
        && (rebooted ==> accepted <= flash && firmwareOk(accepted))
    {
      hide Valid, Whole, Digests, Follows, InOrder;
      var run := [Start(now, digestText)] + events;
      ghost var before := starts;
      ghost var trace := Run(run);
      assert forall i | 1 <= i < |run| :: run[i] in events;
      OnlyStart(trace, run, |run|);
      assert trace[..|run| + 1] == trace && run[..|run|] == run;
      assert Last(before + [digestText]) == digestText;
    }

    /**
     A whole update without flash failures, on an idle device: a start, an open, the packets with ticks between them
     that do not time out, a close, a tick, and a later tick. However the image is cut into packets, it is booted if
     and only if the later tick comes more than 2000 ms after the first, the digest of the image is the expected
     one or none is expected, and the firmware check accepts the image; then the slot holds it.
     */
    method Deliver(begun: Time, digestText: string, transfer: seq<Event>, closed: Time, later: Time)
      requires Valid() && Safe() && Whole() && !rebooted && IsIdle(Now())
      requires IsTransfer(transfer, begun) && (forall n :: flashWorks(n))
      requires RoundUp(|Concat(Packets(transfer))|) <= slotSize
      modifies this, buff
      ensures Valid() && Safe()
      ensures var image := Concat(Packets(transfer));
        && slotValid == ((digestText == "" || digest(image) == digestText) && firmwareOk(image))
        && (slotValid ==> image <= flash && apply == closed)
        && rebooted == (slotValid && later - closed > 2000)
    {
      hide Valid, Safe, Whole, Streaming, Paged, Stream, Concat, Packets, RoundUp, IsTransfer;
      Submit(begun, digestText, transfer);
      Settle(closed, later);
    }

    /** The update up to its close. */
    method Submit(begun: Time, digestText: string, transfer: seq<Event>)
      requires Valid() && Safe() && Whole() && !rebooted && IsIdle(Now())
      requires IsTransfer(transfer, begun) && (forall n :: flashWorks(n))
      requires RoundUp(|Concat(Packets(transfer))|) <= slotSize
      modifies this, buff
      ensures Valid() && Safe() && Whole() && ready && !rebooted
      ensures sha == Concat(Packets(transfer)) && shaVerify == digestText
    {
      hide Valid, Safe, Whole, Streaming, Paged, Stream, Concat, Packets, RoundUp, IsTransfer;
      IsSane();
      Step(Start(begun, digestText));
      Step(Open(true));
      ReceiveEvents(transfer, begun);
      assert inProgress by { StreamsInProgress(); }
      Step(Close);
    }

    /** The tick that validates, and the one that boots. */
    method Settle(closed: Time, later: Time)
      requires Valid() && Safe() && Whole() && ready && !rebooted
      modifies this, buff
      ensures Valid() && Safe()
      ensures slotValid == ((old(shaVerify) == "" || digest(old(sha)) == old(shaVerify)) && firmwareOk(old(sha)))
      ensures slotValid ==> old(sha) <= flash && apply == closed
      ensures rebooted == (slotValid && later - closed > 2000)
    {
      hide Valid, Safe, Whole, Streaming, Paged, Stream;
      IsSane();
      InFlash();
      Step(Tick(closed));
      IsSane();
      Step(Tick(later));
    }

    lemma StreamsInProgress()
      requires Streaming()
      ensures inProgress
    {
    }

    /** What is hashed is in flash, while no page is torn. */
    lemma InFlash()
      requires Valid()
      ensures |sha| <= |flash|
      ensures Whole() ==> flash[..flashOffset] == sha && sha <= flash
    {
    }

    /** The packets of a transfer as events, with ticks between them. */
    method ReceiveEvents(transfer: seq<Event>, begun: Time)
      requires Valid() && Safe() && Whole() && Streaming() && Paged() && Stream() == [] && (forall n :: flashWorks(n))
      requires started == begun && !ready && IsTransfer(transfer, begun)
      requires |Concat(Packets(transfer))| <= slotSize
      modifies this, buff
      ensures Valid() && Safe() && Whole() && Streaming() && Paged() && Stream() == Concat(Packets(transfer))
      ensures Now() == old(Now())
    {
      hide Valid, Safe, Whole, Paged, Stream, Concat, Packets;
      assert started != 0 && apply == 0 by { IsSane(); }
      NoPacketEvents(transfer);
      for i := 0 to |transfer|
        invariant Valid() && Safe() && Whole() && Streaming() && Paged()
        invariant Stream() == Concat(Packets(transfer[..i])) && Now() == old(Now())
      {
        PacketsNext(transfer, i);
        Step(transfer[i]);
      }
      assert transfer[..|transfer|] == transfer;
    }

    /**
     A transfer without flash failures: however the image is cut into packets, in the end exactly the
     image is hashed, and the flash holds it followed by zeros up to the next 256 bytes.
     */
    method Transfer(packets: seq<seq<Byte>>)
      requires Valid() && started != 0 && (forall n :: flashWorks(n))
      requires RoundUp(|Concat(packets)|) <= slotSize
      modifies this, buff
      ensures Valid() && ready
      ensures var image := Concat(packets);
        && sha == image && flashOffset == |image|
        && flash[..RoundUp(|image|)] == image + Zeros(RoundUp(|image|) - |image|)
    {
      var ok := OpenImage(true);
      Receive(packets);
      CloseImage();
    }

    /** The packets of a transfer, one after another. */
    method Receive(packets: seq<seq<Byte>>)
      requires Valid() && Streaming() && Paged() && Stream() == [] && (forall n :: flashWorks(n))
      requires |Concat(packets)| <= slotSize
      modifies this`flash, this`torn, this`attempts, this`slotValid, this`sha, this`flashOffset, this`buffP,
        this`inProgress, buff
      ensures Valid() && Streaming() && Paged() && Stream() == Concat(packets)
    {
      hide Valid, Stream, Paged, Concat;
      NoPackets(packets);
      for i := 0 to |packets|
        invariant Valid() && Streaming() && Paged() && Stream() == Concat(packets[..i])
      {
        ConcatPrefix(packets, i);
        ConcatSplit(packets, i + 1);
        var ok := WritePacket(packets[i]);
      }
      assert packets[..|packets|] == packets;
    }
  }

  /** Packets, and ticks that come before the timeout. */
  ghost predicate IsTransfer(events: seq<Event>, begun: Time) {
    forall e | e in events :: e.Write? || (e.Tick? && e.now - begun <= 300000)
  }

  /** The packets among some events. */
  function Packets(events: seq<Event>): seq<seq<Byte>> {
    if events == [] then []
    else (if events[0].Write? then [events[0].packet] else []) + Packets(events[1..])
  }

  lemma NoPacketEvents(events: seq<Event>)
    ensures Concat(Packets(events[..0])) == []
  {
  }

  lemma {:induction false} PacketsAppend(events: seq<Event>, e: Event)
    ensures Packets(events + [e]) == Packets(events) + if e.Write? then [e.packet] else []
  {
    hide Packets;
    NoPacketsIn([]);
    if events == [] {
      FirstPacket(events + [e], e, []);
    } else {
      var first, rest := events[0], events[1..];
      PacketsAppend(rest, e);
      FirstPacket(events, first, rest);
      FirstPacket(events + [e], first, rest + [e]);
    }
  }

  lemma NoPacketsIn(events: seq<Event>)
    requires events == []
    ensures Packets(events) == []
  {
  }

  lemma FirstPacket(events: seq<Event>, e: Event, rest: seq<Event>)
    requires events == [e] + rest
    ensures Packets(events) == if e.Write? then [e.packet] + Packets(rest) else Packets(rest)
  {
    assert events[1..] == rest;
  }

  lemma {:induction false} PacketsSplit(events: seq<Event>, i: nat)
    requires i <= |events|
    ensures Packets(events) == Packets(events[..i]) + Packets(events[i..])
  {
    if i == 0 {
      assert events[..0] == [] && events[0..] == events;
    } else {
      assert events[..i][1..] == events[1..][..i - 1] && events[1..][i - 1..] == events[i..];
      PacketsSplit(events[1..], i - 1);
    }
  }

  /** The next event of a transfer adds its packet, and no more than there is in all. */
  lemma PacketsNext(events: seq<Event>, i: nat)
    requires i < |events|
    ensures Concat(Packets(events[..i + 1]))
      == Concat(Packets(events[..i])) + if events[i].Write? then events[i].packet else []
    ensures |Concat(Packets(events[..i + 1]))| <= |Concat(Packets(events))|
  {
    hide Packets, Concat;
    assert events[..i + 1] == events[..i] + [events[i]];
    PacketsAppend(events[..i], events[i]);
    if events[i].Write? {
      ConcatAppend(Packets(events[..i]), events[i].packet);
    } else {
      assert Packets(events[..i]) + [] == Packets(events[..i]);
    }
    PacketsSplit(events, i + 1);
    var before, after := Packets(events[..i + 1]), Packets(events[i + 1..]);
    ConcatSplit(before + after, |before|);
    assert (before + after)[..|before|] == before;
  }

  lemma NoPackets(packets: seq<seq<Byte>>)
    ensures Concat(packets[..0]) == []
  {
  }

  /** A page written at its start extends what was hashed. */
  lemma PageExtends(flash: seq<Byte>, sha: seq<Byte>, page: seq<Byte>, size: nat)
    requires sha <= flash && |page| == BUFF_SIZE && size <= BUFF_SIZE && |sha| + BUFF_SIZE <= |flash|
    requires flash[|sha|..|sha| + BUFF_SIZE] == page
    ensures sha + page[..size] <= flash
  {
    assert flash[..|sha|] == sha;
    assert sha + page[..size] == flash[..|sha| + size];
  }

  lemma NoDigests(trace: seq<Control>, events: seq<Event>)
    requires |trace| == 1
    ensures Digests(trace, events[..0]) == []
  {
  }

  lemma RunGrows(trace: seq<Control>, events: seq<Event>, i: nat, d: Control)
    requires i < |events| && IsRun(trace, events[..i]) && Follows(trace[i], events[i], d)
    ensures IsRun(trace + [d], events[..i + 1])
  {
    hide Follows;
  }

  lemma DigestsNext(trace: seq<Control>, events: seq<Event>, i: nat, d: Control)
    requires i < |events| && |trace| == i + 1
    ensures Digests(trace + [d], events[..i + 1])
      == Digests(trace, events[..i]) + if events[i].Start? && IsIdle(trace[i]) then [events[i].sha] else []
  {
    hide IsIdle;
    assert (trace + [d])[..i + 1] == trace && events[..i + 1][..i] == events[..i];
  }

  lemma CutPacket(packet: seq<Byte>, wp: nat, n: nat)
    requires wp + n <= |packet|
    ensures packet[..wp] + packet[wp..wp + n] == packet[..wp + n]
  {
  }

  /** The next multiple of the buffer size. */
  function RoundUp(n: nat): (m: nat)
    ensures n <= m < n + 256 && m % 256 == 0
  {
    var k := (n + BUFF_SIZE - 1) / BUFF_SIZE;
    Pages(n, k, (n + BUFF_SIZE - 1) % BUFF_SIZE);
    k * BUFF_SIZE
  }

  lemma Pages(n: nat, k: nat, r: nat)
    requires n + BUFF_SIZE - 1 == BUFF_SIZE * k + r && r < BUFF_SIZE
    ensures n <= k * BUFF_SIZE < n + BUFF_SIZE && (k * BUFF_SIZE) % BUFF_SIZE == 0
  {
  }

  lemma RoundUpOf(offset: nat, rest: nat)
    requires offset % BUFF_SIZE == 0 && rest < BUFF_SIZE
    ensures RoundUp(offset + rest) == if rest == 0 then offset else offset + BUFF_SIZE
  {
  }

  lemma PaddedTail(flash: seq<Byte>, whole: seq<Byte>, tail: seq<Byte>, rest: nat)
    requires |tail| == BUFF_SIZE && rest < BUFF_SIZE && forall i | rest <= i < BUFF_SIZE :: tail[i] == 0
    requires |whole| % BUFF_SIZE == 0 && RoundUp(|whole| + rest) <= |flash| && whole + tail[..rest] <= flash
    requires rest != 0 ==>
      |whole| + BUFF_SIZE <= |flash| && flash[|whole|..|whole| + BUFF_SIZE] == tail
    ensures var sha := whole + tail[..rest];
      flash[..RoundUp(|sha|)] == sha + Zeros(RoundUp(|sha|) - |sha|)
  {
    hide RoundUp;
    var sha := whole + tail[..rest];
    RoundUpOf(|whole|, rest);
    if rest == 0 {
      assert sha == whole && flash[..|whole|] == whole + Zeros(0);
    } else {
      assert tail == tail[..rest] + Zeros(BUFF_SIZE - rest);
      assert flash[..|whole| + BUFF_SIZE] == flash[..|whole|] + flash[|whole|..|whole| + BUFF_SIZE];
      assert flash[..|whole|] == sha[..|whole|] == whole;
    }
  }
}
