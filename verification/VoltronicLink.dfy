/**
 The Voltronic link: replies framed by a checksum and a carriage return, verified in place, and
 reassembled from HID reports in a fixed buffer.
 */
module VoltronicLink {
  import opened Sequences
  import opened VoltronicCrc

  const START: bv8 := 0x28
  const END_OF_INPUT: bv8 := 0x0D
  const CMD_BUF_SIZE := 128

  /** The position of the first `c`, or the length. */
  function Find(s: seq<bv8>, c: bv8): (i: nat)
    ensures i <= |s| && (i < |s| ==> s[i] == c) && forall k | 0 <= k < i :: s[k] != c
  {
    if s == [] || s[0] == c then 0 else 1 + Find(s[1..], c)
  }

  lemma FindIs(s: seq<bv8>, c: bv8, i: nat)
    requires i <= |s| && (i < |s| ==> s[i] == c) && forall k | 0 <= k < i :: s[k] != c
    ensures Find(s, c) == i
  {
  }

  /** A payload followed by its checksum, high byte first, and a carriage return. */
  function Frame(payload: seq<bv8>): seq<bv8> {
    var crc := Adjusted(Remainder(payload));
    payload + [High(crc), Low(crc), END_OF_INPUT]
  }

  /** The bytes of a frame: the payload, the two halves of its remainder, stepped where reserved, and a return. */
  lemma FrameBytes(payload: seq<bv8>)
    ensures var frame, rem, n := Frame(payload), Remainder(payload), |payload|;
      && |frame| == n + 3 && frame[..n] == payload && frame[n + 2] == 0x0D
      && Steps(rem >> 8, frame[n] as bv16) && Steps(rem & 0xFF, frame[n + 1] as bv16)
  {
    var crc := Adjusted(Remainder(payload));
    AdjustedHalves(Remainder(payload));
    Halves(crc, High(crc), Low(crc));
    hide Remainder, Adjusted, High, Low, Steps;
    var frame := Frame(payload);
    assert frame == payload + [High(crc), Low(crc), END_OF_INPUT];
  }

  lemma Halves(crc: bv16, high: bv8, low: bv8)
    requires high == High(crc) && low == Low(crc)
    ensures high as bv16 == crc >> 8 && low as bv16 == crc & 0xFF
  {
  }

  /** A text to be framed: it starts with "(" and has no carriage return. */
  predicate IsText(p: seq<bv8>) {
    2 <= |p| && p[0] == 0x28 && 0x0D !in p
  }

  /** The result of `mppt_verify_reply`: the length of the text it leaves, or -1. */
  function VerifyResult(reply: seq<bv8>): int {
    var i := Find(reply, END_OF_INPUT);
    if |reply| < 4 || reply[0] != START || i == |reply| || i < 4 then -1
    else
      var crc := Adjusted(Remainder(reply[..i - 2]));
      if reply[i - 1] != Low(crc) || reply[i - 2] != High(crc) then -1
      else Find(reply[..i - 2], 0)
  }

  /** `mppt_verify_reply`, which cuts an accepted reply off after its payload. */
  method VerifyReply(reply: array<bv8>, len: nat) returns (r: int)
    requires len <= reply.Length
    modifies reply
    ensures r == VerifyResult(old(reply[..len]))
    ensures r == -1 ==> reply[..] == old(reply[..])
    ensures r != -1 ==> var i := Find(old(reply[..len]), END_OF_INPUT);
      2 <= i < len && reply[..] == old(reply[..])[i - 2 := 0]
  {
    hide Remainder, Adjusted, Low, High, Find, VerifyResult;
    ghost var text := reply[..len];
    Verdict(text);
    if len < 4 {
      return -1;
    }
    if reply[0] != START {
      return -1;
    }
    var i := ScanEnd(reply, len);
    if i >= len || i < 4 {
      return -1;
    }
    assert reply[..i - 2] == text[..i - 2];
    var crc := CalculateCrc(reply[..i - 2]);
    if reply[i - 1] != Low(crc) {
      return -1;
    }
    if reply[i - 2] != High(crc) {
      return -1;
    }
    reply[i - 2] := 0;
    r := StrLen(reply);
    FindCut(text, reply[..], i - 2);
  }

  /** The verdict on a text, by the position of its first carriage return. */
  lemma Verdict(text: seq<bv8>)
    ensures var i, r := Find(text, END_OF_INPUT), VerifyResult(text);
      if |text| < 4 || text[0] != START || i >= |text| || i < 4 then r == -1
      else
        var crc := Adjusted(Remainder(text[..i - 2]));
        r == if text[i - 1] != Low(crc) || text[i - 2] != High(crc) then -1 else Find(text[..i - 2], 0)
  {
    hide Remainder, Adjusted, Low, High;
  }

  /** The scan for the carriage return. */
  method ScanEnd(reply: array<bv8>, len: nat) returns (i: nat)
    requires len <= reply.Length
    ensures i == Find(reply[..len], END_OF_INPUT)
  {
    i := 0;
    while i < len && reply[i] != END_OF_INPUT
      invariant 0 <= i <= len && forall k | 0 <= k < i :: reply[..len][k] != END_OF_INPUT
    {
      i := i + 1;
    }
    FindIs(reply[..len], END_OF_INPUT, i);
  }

  lemma FindCut(text: seq<bv8>, cut: seq<bv8>, n: nat)
    requires n < |text| <= |cut| && cut[..n] == text[..n] && cut[n] == 0
    ensures Find(cut, 0) == Find(text[..n], 0)
  {
    var i := Find(text[..n], 0);
    assert forall k | 0 <= k < n :: cut[k] == text[..n][k] by {
      forall k | 0 <= k < n ensures cut[k] == text[..n][k] {
        assert cut[..n][k] == text[..n][k];
      }
    }
    FindIs(cut, 0, i);
  }

  method StrLen(s: array<bv8>) returns (n: nat)
    requires 0 in s[..]
    ensures n == Find(s[..], 0)
  {
    ghost var k :| 0 <= k < s.Length && s[k] == 0;
    n := 0;
    while s[n] != 0
      invariant 0 <= n <= k && forall j | 0 <= j < n :: s[j] != 0
      decreases k - n
    {
      n := n + 1;
    }
    FindIs(s[..], 0, n);
  }

  lemma TwoBytes()
    ensures TableCrc(0, [0x28, 0x42]) == 0xE7C9
  {
    assert ByteStep(0, 0x28) == 0xA56A && ByteStep(0xA56A, 0x42) == 0xE7C9;
    hide ByteStep, TableCrc;
    OneByte(0, [0x28, 0x42], 0x28, [0x42], 0xA56A);
    OneByte(0xA56A, [0x42], 0x42, [], 0xE7C9);
    NoBytes(0xE7C9);
  }

  lemma NotStepped()
    ensures Adjusted(0xE7C9) == 0xE7C9 && High(0xE7C9) == 0xE7 && Low(0xE7C9) == 0xC9
  {
  }

  lemma IsShortText()
    ensures var text: seq<bv8> := [0x28, 0x42]; IsText(text) && 0 !in text
  {
  }

  /** The reply "(B", whose remainder 0xE7C9 has no reserved byte. */
  lemma FrameExample()
    ensures Frame([0x28, 0x42]) == [0x28, 0x42, 0xE7, 0xC9, 0x0D]
    ensures VerifyResult([0x28, 0x42, 0xE7, 0xC9, 0x0D]) == 2
  {
    hide TableCrc, DivideBits, MessageBits, Adjusted, High, Low, VerifyResult;
    var text: seq<bv8>, reply: seq<bv8> := [0x28, 0x42], [0x28, 0x42, 0xE7, 0xC9, 0x0D];
    TwoBytes();
    NotStepped();
    TableIsDivision(0, text);
    assert Frame(text) == reply;
    IsShortText();
    FrameIsAccepted(text, []);
    assert Frame(text) + [] == reply;
  }

  /** Every frame is accepted, whatever follows it; without a NUL its own length is reported. */
  lemma FrameIsAccepted(payload: seq<bv8>, rest: seq<bv8>)
    requires IsText(payload)
    ensures VerifyResult(Frame(payload) + rest) == Find(payload, 0)
    ensures 0 !in payload ==> Find(payload, 0) == |payload|
    ensures Find(Frame(payload) + rest, END_OF_INPUT) == |payload| + 2
  {
    var reply := Frame(payload) + rest;
    var n := |payload|;
    AdjustedIsClean(Remainder(payload));
    hide Remainder, Adjusted, Low, High;
    var crc := Adjusted(Remainder(payload));
    assert reply[n] == High(crc) && reply[n + 1] == Low(crc) && reply[n + 2] == END_OF_INPUT;
    assert forall k | 0 <= k < n :: reply[k] == payload[k];
    FindIs(reply, END_OF_INPUT, n + 2);
    assert reply[..n] == payload;
  }

  /** Only frames are accepted: what ends at the first carriage return is a text and its checksum. */
  lemma AcceptedIsFrame(reply: seq<bv8>)
    requires VerifyResult(reply) != -1
    ensures var i := Find(reply, END_OF_INPUT);
      2 <= i < |reply| && IsText(reply[..i - 2]) && reply[..i + 1] == Frame(reply[..i - 2])
  {
    hide Remainder, Adjusted, Low, High, Find;
    var i := Find(reply, END_OF_INPUT);
    var n := i - 2;
    var crc := Adjusted(Remainder(reply[..n]));
    assert reply[n] == High(crc) && reply[n + 1] == Low(crc) && reply[n + 2] == END_OF_INPUT;
    SplitLastThree(reply, n);
  }

  lemma SplitLastThree(s: seq<bv8>, n: nat)
    requires n + 3 <= |s|
    ensures s[..n + 3] == s[..n] + [s[n], s[n + 1], s[n + 2]]
  {
  }

  /** A reply verifies exactly when it begins with a frame. */
  lemma VerifiesIffFrame(reply: seq<bv8>)
    ensures VerifyResult(reply) != -1 <==> exists payload :: IsText(payload) && Frame(payload) <= reply
  {
    hide VerifyResult, Frame, IsText;
    if VerifyResult(reply) != -1 {
      AcceptedIsFrame(reply);
    }
    forall payload | IsText(payload) && Frame(payload) <= reply
      ensures VerifyResult(reply) != -1
    {
      assert reply == Frame(payload) + reply[|Frame(payload)|..];
      FrameIsAccepted(payload, reply[|Frame(payload)|..]);
    }
  }

  // ---- Reassembly from HID reports.

  /**
   The receiving side of `mppt_context`. `seen` counts the reports, and `results` records for each
   processed reply the report that closed it and what it verified to.
   */
  class Link {
    const cmdBuff: array<bv8>
    var cmdBufLen: nat
    var sendInProgress: bool
    var timeoutState: bool
    ghost var seen: nat
    ghost var results: seq<(nat, int)>

    ghost predicate Valid()
      reads this
    {
      cmdBuff.Length == CMD_BUF_SIZE && cmdBufLen < CMD_BUF_SIZE
    }

    constructor ()
      ensures Valid() && cmdBufLen == 0 && results == [] && seen == 0 && fresh(cmdBuff)
    {
      cmdBuff := new bv8[CMD_BUF_SIZE](_ => 0);
      cmdBufLen, sendInProgress, timeoutState, seen, results := 0, false, false, 0, [];
    }

    /** The bytes collected since the last processed reply. */
    function Collected(): seq<bv8>
      requires Valid()
      reads this, cmdBuff
    {
      cmdBuff[..cmdBufLen]
    }

    /**
     `HID_REPORT`: a report that does not fit is dropped; one with a carriage return closes the reply,
     which is verified, and empties the buffer.
     */
    method HidReport(data: seq<bv8>)
      requires Valid()
      modifies this, cmdBuff
      ensures Valid() && seen == old(seen) + 1
      ensures var fits := old(cmdBufLen) + |data| < 128;
        if fits && 0x0D in data then
          Collected() == [] && results == old(results) + [(old(seen), VerifyResult(old(Collected()) + data))]
          && !sendInProgress && !timeoutState
        else
          results == old(results) && Collected() == (if fits then old(Collected()) + data else old(Collected()))
          && sendInProgress == old(sendInProgress) && timeoutState == old(timeoutState)
    {
      hide VerifyResult;
      seen := seen + 1;
      if cmdBufLen + |data| < CMD_BUF_SIZE {
        ghost var before := Collected();
        forall k | 0 <= k < |data| {
          cmdBuff[cmdBufLen + k] := data[k];
        }
        cmdBufLen := cmdBufLen + |data|;
        assert Collected() == before + data;
        var i := 0;
        while i < |data| && data[i] != END_OF_INPUT
          invariant 0 <= i <= |data| && END_OF_INPUT !in data[..i]
        {
          i := i + 1;
        }
        if i < |data| {
          var len := VerifyReply(cmdBuff, cmdBufLen);
          results := results + [(seen - 1, len)];
          cmdBufLen := 0;
          sendInProgress := false;
          timeoutState := false;
        } else {
          assert data[..i] == data;
        }
      }
    }

    /**
     A framed payload with CR-free padding, cut into reports in any way: nothing is processed until
     the report that brings the carriage return, and then the payload's own length is verified.
     */
    method ReceiveFrame(payload: seq<bv8>, padding: seq<bv8>, reports: seq<seq<bv8>>) returns (ghost at: nat)
      requires Valid() && Collected() == []
      requires IsText(payload) && 0 !in payload && END_OF_INPUT !in padding
      requires Concat(reports) == Frame(payload) + padding && |Concat(reports)| < CMD_BUF_SIZE
      modifies this, cmdBuff
      ensures Valid() && at < |reports| && END_OF_INPUT in reports[at]
      ensures forall j | 0 <= j < at :: END_OF_INPUT !in reports[j]
      ensures results == old(results) + [(old(seen) + at, |payload|)]
    {
      hide Frame, VerifyResult, IsText, Concat, Receiving;
      ghost var text, cr := Frame(payload) + padding, |payload| + 2;
      OnlyOneEnd(payload, padding);
      NothingYet(reports, text, cr, old(results), old(seen), |payload|, Collected());
      for i := 0 to |reports|
        invariant Valid() && seen == old(seen) + i
        invariant Receiving(reports, i, text, cr, old(results), old(seen), |payload|, Collected(), results)
      {
        forall m | cr < m <= |text| ensures VerifyResult(text[..m]) == |payload| {
          PrefixVerifies(payload, padding, m);
        }
        ghost var before, so := Collected(), results;
        HidReport(reports[i]);
        NextReport(reports, i, text, cr);
        ReportReceived(reports, i, text, cr, old(results), old(seen), |payload|, before, so, Collected(), results);
      }
      at := AllReceived(reports, text, cr, old(results), old(seen), |payload|, Collected(), results);
    }
  }

  /** Report `at` is the first with a carriage return. */
  ghost predicate Closes(reports: seq<seq<bv8>>, at: nat) {
    at < |reports| && END_OF_INPUT in reports[at] && forall j | 0 <= j < at :: END_OF_INPUT !in reports[j]
  }

  /**
   After `i` reports of a text with its carriage return at `cr`: before it, the text so far is collected; past it,
   one result of `n` was added to those `before` by the report that closed the reply.
   */
  ghost predicate Receiving(reports: seq<seq<bv8>>, i: nat, text: seq<bv8>, cr: nat,
    before: seq<(nat, int)>, seen: nat, n: int, collected: seq<bv8>, results: seq<(nat, int)>)
  {
    && i <= |reports| && |Concat(reports[..i])| <= |text|
    && var fed := |Concat(reports[..i])|;
      if fed <= cr then
        results == before && collected == text[..fed] && forall j | 0 <= j < i :: END_OF_INPUT !in reports[j]
      else |collected| <= fed && exists at: nat :: at < i && Closes(reports, at) && results == before + [(seen + at, n)]
  }

  lemma NothingYet(reports: seq<seq<bv8>>, text: seq<bv8>, cr: nat,
    before: seq<(nat, int)>, seen: nat, n: int, collected: seq<bv8>)
    requires collected == []
    ensures Receiving(reports, 0, text, cr, before, seen, n, collected, before)
  {
    assert reports[..0] == [] && text[..0] == [];
  }

  lemma ReportReceived(reports: seq<seq<bv8>>, i: nat, text: seq<bv8>, cr: nat,
    before: seq<(nat, int)>, seen: nat, n: int, collected: seq<bv8>, results: seq<(nat, int)>,
    collectedAfter: seq<bv8>, resultsAfter: seq<(nat, int)>)
    requires i < |reports| && |text| < CMD_BUF_SIZE
    requires Receiving(reports, i, text, cr, before, seen, n, collected, results)
    requires forall m | cr < m <= |text| :: VerifyResult(text[..m]) == n
    requires var fed, r := |Concat(reports[..i])|, reports[i];
      && fed + |r| <= |text| && Concat(reports[..i]) == text[..fed]
      && Concat(reports[..i + 1]) == text[..fed + |r|] == text[..fed] + r
      && (END_OF_INPUT in r <==> fed <= cr < fed + |r|)
    requires var r := reports[i];
      if |collected| + |r| < CMD_BUF_SIZE && END_OF_INPUT in r then
        collectedAfter == [] && resultsAfter == results + [(seen + i, VerifyResult(collected + r))]
      else
        && resultsAfter == results
        && collectedAfter == if |collected| + |r| < CMD_BUF_SIZE then collected + r else collected
    ensures Receiving(reports, i + 1, text, cr, before, seen, n, collectedAfter, resultsAfter)
  {
    hide VerifyResult, Concat;
    var fed, r := |Concat(reports[..i])|, reports[i];
    if fed <= cr < fed + |r| {
      assert collected + r == text[..fed + |r|];
      assert Closes(reports, i);
    }
  }

  lemma AllReceived(reports: seq<seq<bv8>>, text: seq<bv8>, cr: nat, before: seq<(nat, int)>, seen: nat, n: int,
    collected: seq<bv8>, results: seq<(nat, int)>) returns (at: nat)
    requires Receiving(reports, |reports|, text, cr, before, seen, n, collected, results)
    requires Concat(reports) == text && cr < |text|
    ensures Closes(reports, at) && results == before + [(seen + at, n)]
  {
    hide Concat, Closes;
    assert reports[..|reports|] == reports;
    at :| Closes(reports, at) && results == before + [(seen + at, n)];
  }

  /** A framed text holds one carriage return, its last byte. */
  lemma OnlyOneEnd(payload: seq<bv8>, padding: seq<bv8>)
    requires IsText(payload) && END_OF_INPUT !in padding
    ensures var text := Frame(payload) + padding;
      |payload| + 2 < |text| && forall k | 0 <= k < |text| :: text[k] == END_OF_INPUT <==> k == |payload| + 2
  {
    FrameIsAccepted(payload, padding);
    hide Remainder, Adjusted, High, Low;
  }

  /** Report `i` continues the text, and brings its carriage return when that is where it lies. */
  lemma NextReport(reports: seq<seq<bv8>>, i: nat, text: seq<bv8>, cr: nat)
    requires i < |reports| && Concat(reports) == text
    requires cr < |text| && forall k | 0 <= k < |text| :: text[k] == END_OF_INPUT <==> k == cr
    ensures var fed, r := |Concat(reports[..i])|, reports[i];
      && fed + |r| <= |text| && Concat(reports[..i]) == text[..fed]
      && Concat(reports[..i + 1]) == text[..fed + |r|] == text[..fed] + r
      && (END_OF_INPUT in r <==> fed <= cr < fed + |r|)
  {
    ConcatPrefix(reports, i);
    ConcatSplit(reports, i + 1);
    var fed, r := |Concat(reports[..i])|, reports[i];
    assert r == text[fed..fed + |r|];
    if fed <= cr < fed + |r| {
      assert r[cr - fed] == END_OF_INPUT;
    }
  }

  lemma PrefixVerifies(payload: seq<bv8>, padding: seq<bv8>, m: nat)
    requires IsText(payload) && 0 !in payload && |payload| + 2 < m <= |Frame(payload) + padding|
    ensures VerifyResult((Frame(payload) + padding)[..m]) == |payload|
  {
    hide VerifyResult, Remainder, Adjusted, High, Low, IsText;
    var text := Frame(payload) + padding;
    assert text[..m] == Frame(payload) + padding[..m - |payload| - 3];
    FrameIsAccepted(payload, padding[..m - |payload| - 3]);
  }
}
