/**
 OpenTherm frames over the Manchester code, after section 4.2 of the OpenTherm Protocol
 Specification v2.2: even parity, message type, data identifier and value. The two codes together
 have distance four.
 */
module OpenTherm {
  import opened Manchester
  import opened Wrappers

  datatype Msg = Msg(msgType: nat, id: nat, value: nat)

  predicate IsMsg(m: Msg) {
    m.msgType < 8 && m.id < 0x100 && m.value < 0x1_0000
  }

  /** `__builtin_popcount`, on the bits of a word. */
  function Ones(bits: seq<bool>): nat {
    if bits == [] then 0 else Ones(bits[..|bits| - 1]) + (if bits[|bits| - 1] then 1 else 0)
  }

  function PopCount(w: nat): nat {
    Ones(BitsOf(w, 32))
  }

  const PARITY := 0x8000_0000

  /** The 31 bits under the parity bit. */
  function Body(m: Msg): nat
    requires IsMsg(m)
  {
    m.msgType * 0x1000_0000 + m.id * 0x1_0000 + m.value
  }

  /** The top bit makes the number of ones even. */
  function WithParity(body: nat): (f: nat) {
    if PopCount(body) % 2 == 1 then body + PARITY else body
  }

  /** `opentherm_frame_encode`; the fields are cut to their widths first. */
  function FrameEncode(msgType: nat, id: nat, value: nat): (f: nat) {
    WithParity(Body(Msg(msgType % 8, id % 0x100, value % 0x1_0000)))
  }

  /** `opentherm_frame_decode`; none where it reports an error. */
  function FrameDecode(f: nat): Option<Msg> {
    if PopCount(f) % 2 == 1 then None
    else Some(Msg(f / 0x1000_0000 % 8, f / 0x1_0000 % 0x100, f % 0x1_0000))
  }

  lemma {:induction false} TopBit(w: nat, n: nat)
    requires w < Pow2(n)
    ensures BitsOf(w, n + 1) == [false] + BitsOf(w, n)
    ensures BitsOf(w + Pow2(n), n + 1) == [true] + BitsOf(w, n)
    decreases n
  {
    if n == 0 {
      assert BitsOf(0, 1) == [false] && BitsOf(1, 1) == [true];
    } else {
      TopBit(w / 2, n - 1);
      assert (w + Pow2(n)) / 2 == w / 2 + Pow2(n - 1) && (w + Pow2(n)) % 2 == w % 2;
    }
  }

  lemma {:induction false} OnesOfCons(b: bool, bits: seq<bool>)
    ensures Ones([b] + bits) == Ones(bits) + if b then 1 else 0
  {
    if bits == [] {
      assert [b] + bits == [b] && [b][..0] == [];
    } else {
      var n := |bits| - 1;
      assert ([b] + bits)[..n + 1] == [b] + bits[..n];
      OnesOfCons(b, bits[..n]);
    }
  }

  lemma ParityBit(body: nat)
    requires body < PARITY
    ensures PopCount(body + PARITY) == PopCount(body) + 1
  {
    Pow2Is31();
    hide Pow2, BitsOf;
    TopBit(body, 31);
    OnesOfCons(true, BitsOf(body, 31));
    OnesOfCons(false, BitsOf(body, 31));
  }

  lemma EvenParity(body: nat)
    requires body < PARITY
    ensures PopCount(WithParity(body)) % 2 == 0 && (WithParity(body) == body || WithParity(body) == body + PARITY)
  {
    hide PopCount;
    ParityBit(body);
  }

  /** A frame has even parity, and decoding it gives the message back. */
  lemma FrameRoundTrip(m: Msg)
    requires IsMsg(m)
    ensures var f := FrameEncode(m.msgType, m.id, m.value);
      f < TWO_32 && PopCount(f) % 2 == 0 && FrameDecode(f) == Some(m)
  {
    BodyFits(m);
    hide PopCount, Body, WithParity;
    var f := WithParity(Body(m));
    EvenParity(Body(m));
    Fields(m, f);
    assert FrameEncode(m.msgType, m.id, m.value) == f;
  }

  lemma BodyFits(m: Msg)
    requires IsMsg(m)
    ensures Body(m) < PARITY && Msg(m.msgType % 8, m.id % 0x100, m.value % 0x1_0000) == m
  {
  }

  lemma Fields(m: Msg, f: nat)
    requires IsMsg(m) && (f == Body(m) || f == Body(m) + PARITY)
    ensures f / 0x1000_0000 % 8 == m.msgType && f / 0x1_0000 % 0x100 == m.id && f % 0x1_0000 == m.value
  {
    var top := if f == Body(m) then m.msgType else m.msgType + 8;
    assert f / 0x1000_0000 == top;
    assert f / 0x1_0000 == top * 0x1000 + m.id;
  }

  // ---- Layout.

  /** The bits of a word whose lowest `k` bits are those of `b`. */
  lemma {:induction false} BitsAppend(a: nat, b: nat, n: nat, k: nat)
    requires b < Pow2(k)
    ensures BitsOf(a * Pow2(k) + b, n + k) == BitsOf(a, n) + BitsOf(b, k)
    decreases k
  {
    if k != 0 {
      var p := Pow2(k - 1);
      BitsAppend(a, b / 2, n, k - 1);
      EvenPart(a, p, b);
    } else {
      assert a * Pow2(0) + b == a;
    }
  }

  lemma EvenPart(a: nat, p: nat, b: nat)
    ensures (a * (2 * p) + b) / 2 == a * p + b / 2 && (a * (2 * p) + b) % 2 == b % 2
  {
    assert a * (2 * p) == 2 * (a * p);
  }

  lemma FieldWidths()
    ensures Pow2(16) == 0x1_0000 && Pow2(12) == 0x1000 && Pow2(8) == 0x100
  {
    assert Pow2(8) == 0x100;
    assert Pow2(12) == 0x1000;
  }

  lemma BodyBits(m: Msg)
    requires IsMsg(m)
    ensures BitsOf(Body(m), 31) == BitsOf(m.msgType, 3) + (BitsOf(0, 4) + BitsOf(m.id, 8)) + BitsOf(m.value, 16)
  {
    FieldWidths();
    hide BitsOf, Pow2;
    var high := m.msgType * 0x1000 + m.id;
    assert Body(m) == high * 0x1_0000 + m.value;
    BitsAppend(high, m.value, 15, 16);
    BitsAppend(m.msgType, m.id, 3, 12);
    BitsAppend(0, m.id, 4, 8);
    assert 0 * Pow2(8) + m.id == m.id;
  }

  lemma CountOfBody(body: nat)
    requires body < PARITY
    ensures PopCount(body) == Ones(BitsOf(body, 31))
  {
    Pow2Is31();
    hide Pow2, BitsOf, Ones;
    TopBit(body, 31);
    OnesOfCons(false, BitsOf(body, 31));
  }

  /**
   A frame on the wire, highest bit first: the parity of the rest, three bits of message type, four spare bits, eight of
   the data identifier, sixteen of the value.
   */
  lemma FrameLayout(m: Msg)
    requires IsMsg(m)
    ensures var fields := BitsOf(m.msgType, 3) + (BitsOf(0, 4) + BitsOf(m.id, 8)) + BitsOf(m.value, 16);
      BitsOf(FrameEncode(m.msgType, m.id, m.value), 32) == [Ones(fields) % 2 == 1] + fields
  {
    BodyFits(m);
    hide PopCount, Body, BitsOf, WithParity, IsMsg, Ones;
    BodyBits(m);
    ParityFirst(Body(m));
    CountOfBody(Body(m));
    assert FrameEncode(m.msgType, m.id, m.value) == WithParity(Body(m));
  }

  lemma ParityFirst(body: nat)
    requires body < PARITY
    ensures BitsOf(WithParity(body), 32) == [PopCount(body) % 2 == 1] + BitsOf(body, 31)
  {
    Pow2Is31();
    hide PopCount, Pow2, BitsOf;
    TopBit(body, 31);
  }

  lemma WordFields(f: nat, top: nat, msgType: nat, spare: nat, id: nat, value: nat)
    requires msgType < 8 && spare < 16 && id < 0x100 && value < 0x1_0000
    requires f == (((top * 8 + msgType) * 16 + spare) * 0x100 + id) * 0x1_0000 + value
    ensures BitsOf(f, 32) == BitsOf(top, 1) + BitsOf(msgType, 3) + BitsOf(spare, 4) + BitsOf(id, 8) + BitsOf(value, 16)
  {
    FieldWidths();
    NarrowWidths();
    hide BitsOf, Pow2;
    var a := top * 8 + msgType;
    var b := a * 16 + spare;
    var c := b * 0x100 + id;
    BitsAppend(top, msgType, 1, 3);
    BitsAppend(a, spare, 4, 4);
    BitsAppend(b, id, 8, 8);
    BitsAppend(c, value, 16, 16);
  }

  lemma NarrowWidths()
    ensures Pow2(3) == 8 && Pow2(4) == 16
  {
  }

  lemma Slices(b: seq<bool>, top: seq<bool>, t: seq<bool>, spare: seq<bool>, id: seq<bool>, value: seq<bool>)
    requires b == top + t + spare + id + value
    requires |top| == 1 && |t| == 3 && |spare| == 4 && |id| == 8 && |value| == 16
    ensures |b| == 32 && b[1..4] == t && b[8..16] == id && b[16..] == value
  {
  }

  /** Any word of even parity is decoded, whatever its spare bits, to the fields that stand in these places. */
  lemma FrameDecodes(f: nat)
    requires f < TWO_32
    ensures var b, r := BitsOf(f, 32), FrameDecode(f);
      && (r.Some? <==> Ones(b) % 2 == 0)
      && (r.Some? ==>
            && IsMsg(r.value) && b[1..4] == BitsOf(r.value.msgType, 3) && b[8..16] == BitsOf(r.value.id, 8)
            && b[16..] == BitsOf(r.value.value, 16))
  {
    var value, high := f % 0x1_0000, f / 0x1_0000;
    var id, rest := high % 0x100, high / 0x100;
    var spare, start := rest % 16, rest / 16;
    var msgType, top := start % 8, start / 8;
    QuotientOf(f, start, spare, id, value);
    hide BitsOf, Ones;
    WordFields(f, top, msgType, spare, id, value);
    Slices(BitsOf(f, 32), BitsOf(top, 1), BitsOf(msgType, 3), BitsOf(spare, 4), BitsOf(id, 8), BitsOf(value, 16));
  }

  lemma QuotientOf(f: nat, start: nat, spare: nat, id: nat, value: nat)
    requires spare < 16 && id < 0x100 && value < 0x1_0000
    requires f == ((start * 16 + spare) * 0x100 + id) * 0x1_0000 + value
    ensures f / 0x1000_0000 == start
  {
  }

  // ---- Distance.

  /** The number of positions where two bit strings differ. */
  function Hamming(a: seq<bool>, b: seq<bool>): nat
    requires |a| == |b|
  {
    if a == [] then 0
    else Hamming(a[..|a| - 1], b[..|b| - 1]) + (if a[|a| - 1] != b[|b| - 1] then 1 else 0)
  }

  lemma {:induction false} HammingZero(a: seq<bool>, b: seq<bool>)
    requires |a| == |b|
    ensures Hamming(a, b) == 0 <==> a == b
  {
    if a == [] {
    } else {
      var n := |a| - 1;
      HammingZero(a[..n], b[..n]);
      assert a == a[..n] + [a[n]] && b == b[..n] + [b[n]];
    }
  }

  /** Flipping bits changes the parity with each of them. */
  lemma {:induction false} ParityOfDistance(a: seq<bool>, b: seq<bool>)
    requires |a| == |b|
    ensures (Ones(a) + Ones(b) + Hamming(a, b)) % 2 == 0
  {
    if a == [] {
    } else {
      ParityOfDistance(a[..|a| - 1], b[..|b| - 1]);
    }
  }

  /**
   A line that still decodes differs from a code word in whole pairs: twice as often as the bits it
   decodes to.
   */
  lemma {:induction false} PairsDiffer(line: seq<bool>, bits: seq<bool>, invert: bool)
    requires |line| == 2 * |bits| && DecodeBits(line, invert).Some?
    ensures Hamming(line, EncodeBits(bits, invert)) == 2 * Hamming(DecodeBits(line, invert).value, bits)
    decreases |bits|
  {
    if bits == [] {
    } else {
      hide *;
      var n := |bits| - 1;
      var front, back := line[..2 * n], bits[..n];
      Even(front, n);
      LastDecoded(line, front, n, invert);
      PairsDiffer(front, back, invert);
      LastEncoded(bits, back, n, invert);
      PairDiffers(line, front, EncodeBits(bits, invert), EncodeBits(back, invert), DecodeBits(line, invert).value,
        bits, n, invert);
    }
  }

  lemma Even(s: seq<bool>, n: nat)
    requires |s| == 2 * n
    ensures |s| % 2 == 0
  {
  }

  /** One more pair differs in both of its bits or in none. */
  lemma PairDiffers(line: seq<bool>, front: seq<bool>, code: seq<bool>, start: seq<bool>, decoded: seq<bool>,
    bits: seq<bool>, n: nat, invert: bool)
    requires |line| == |code| == 2 * n + 2 && |decoded| == |bits| == n + 1
    requires front == line[..2 * n] && start == code[..2 * n]
    requires line[2 * n] != line[2 * n + 1] && decoded[n] == (line[2 * n] != invert)
    requires code[2 * n] == (bits[n] != invert) && code[2 * n + 1] == (bits[n] == invert)
    requires Hamming(front, start) == 2 * Hamming(decoded[..n], bits[..n])
    ensures Hamming(line, code) == 2 * Hamming(decoded, bits)
  {
    hide Hamming;
    LastPair(line, code);
    HammingStep(decoded, bits);
  }

  lemma LastDecoded(line: seq<bool>, front: seq<bool>, n: nat, invert: bool)
    requires |line| == 2 * n + 2 && front == line[..2 * n] && DecodeBits(line, invert).Some?
    ensures var r := DecodeBits(line, invert).value;
      && |r| == n + 1 && DecodeBits(front, invert).Some? && DecodeBits(front, invert).value == r[..n]
      && line[2 * n] != line[2 * n + 1] && r[n] == (line[2 * n] != invert)
  {
  }

  lemma LastEncoded(bits: seq<bool>, back: seq<bool>, n: nat, invert: bool)
    requires |bits| == n + 1 && back == bits[..n]
    ensures var code := EncodeBits(bits, invert);
      && |code| == 2 * n + 2 && code[..2 * n] == EncodeBits(back, invert)
      && code[2 * n] == (bits[n] != invert) && code[2 * n + 1] == (bits[n] == invert)
  {
  }

  lemma HammingStep(a: seq<bool>, b: seq<bool>)
    requires |a| == |b| && 1 <= |a|
    ensures var n := |a| - 1; Hamming(a, b) == Hamming(a[..n], b[..n]) + if a[n] != b[n] then 1 else 0
  {
  }

  lemma LastPair(a: seq<bool>, b: seq<bool>)
    requires |a| == |b| && 2 <= |a|
    ensures var n := |a| - 2;
      Hamming(a, b)
        == Hamming(a[..n], b[..n]) + (if a[n] != b[n] then 1 else 0) + (if a[n + 1] != b[n + 1] then 1 else 0)
  {
    hide Hamming;
    var n := |a| - 2;
    HammingStep(a, b);
    HammingStep(a[..n + 1], b[..n + 1]);
    assert a[..n + 1][..n] == a[..n] && b[..n + 1][..n] == b[..n];
  }

  /** The word with given bits. */
  function Value(bits: seq<bool>): nat {
    if bits == [] then 0 else 2 * Value(bits[..|bits| - 1]) + (if bits[|bits| - 1] then 1 else 0)
  }

  lemma {:induction false} BitsOfValue(bits: seq<bool>)
    ensures Value(bits) < Pow2(|bits|) && BitsOf(Value(bits), |bits|) == bits
  {
    if bits == [] {
    } else {
      var n := |bits| - 1;
      BitsOfValue(bits[..n]);
      assert Value(bits) / 2 == Value(bits[..n]);
      assert bits == bits[..n] + [bits[n]];
    }
  }

  lemma ValueOfBits(f: nat)
    requires f < TWO_32
    ensures Value(BitsOf(f, 32)) == f
  {
    Pow2Is32();
    hide Pow2, BitsOf;
    BitsOfValue(BitsOf(f, 32));
    WordOfBits(f, Value(BitsOf(f, 32)), 32);
  }

  /** What the receiver makes of a 64-bit line word: a message, or none when either code rejects it. */
  function Received(line: seq<bool>, invert: bool): Option<Msg>
    requires |line| == 64
  {
    match DecodeBits(line, invert)
    case None => None
    case Some(bits) => FrameDecode(Value(bits))
  }

  /** The receiving half of `opentherm_exchange_run`, after the end bit. */
  method ReceiveWord(mframe: nat, invert: bool) returns (r: Option<Msg>)
    requires mframe < TWO_64
    ensures r == Received(BitsOf(mframe, 64), invert)
  {
    hide DecodeBits, BitsOf, FrameDecode;
    var code, f := ManchesterDecode(mframe, invert, 0);
    if code != 0 {
      return None;
    }
    ValueOfBits(f);
    r := FrameDecode(f);
  }

  /** The sending half: the line word of a request. */
  method SendWord(m: Msg, invert: bool) returns (mframe: nat)
    requires IsMsg(m)
    ensures mframe < TWO_64 && BitsOf(mframe, 64) == LineCode(m, invert)
  {
    hide FrameEncode, BitsOf, EncodeBits;
    FrameRoundTrip(m);
    mframe := ManchesterEncode(FrameEncode(m.msgType, m.id, m.value), invert);
  }

  function LineCode(m: Msg, invert: bool): (r: seq<bool>)
    ensures |r| == 64
  {
    EncodeBits(BitsOf(FrameEncode(m.msgType, m.id, m.value), 32), invert)
  }

  /**
   A line that differs from the code of a message in no bit is received as that message; in one, two or
   three bits, it is rejected. Only a multiple of four flips can pass.
   */
  lemma DistanceFour(m: Msg, line: seq<bool>, invert: bool)
    requires IsMsg(m) && |line| == 64
    ensures var d := Hamming(line, LineCode(m, invert));
      && (d == 0 ==> Received(line, invert) == Some(m))
      && (1 <= d <= 3 ==> Received(line, invert) == None)
      && (Received(line, invert).Some? ==> d % 4 == 0)
  {
    FrameRoundTrip(m);
    hide *;
    var f := FrameEncode(m.msgType, m.id, m.value);
    LineCodeIs(m, f, invert);
    SameLine(m, f, line, invert);
    PassedDistance(f, line, invert);
    NotAMultiple(Hamming(line, LineCode(m, invert)));
  }

  lemma NotAMultiple(d: nat)
    ensures 1 <= d <= 3 ==> d % 4 != 0
  {
  }

  lemma LineCodeIs(m: Msg, f: nat, invert: bool)
    requires f == FrameEncode(m.msgType, m.id, m.value)
    ensures LineCode(m, invert) == EncodeBits(BitsOf(f, 32), invert)
  {
    hide FrameEncode, EncodeBits, BitsOf;
  }

  lemma SameLine(m: Msg, f: nat, line: seq<bool>, invert: bool)
    requires f < TWO_32 && FrameDecode(f) == Some(m) && |line| == 64
    ensures Hamming(line, EncodeBits(BitsOf(f, 32), invert)) == 0 ==> Received(line, invert) == Some(m)
  {
    hide Hamming, DecodeBits, EncodeBits, BitsOf, FrameDecode, Value;
    ValueOfBits(f);
    DecodeOfEncode(BitsOf(f, 32), invert);
    HammingZero(line, EncodeBits(BitsOf(f, 32), invert));
  }

  lemma PassedDistance(f: nat, line: seq<bool>, invert: bool)
    requires f < TWO_32 && PopCount(f) % 2 == 0 && |line| == 64
    ensures Received(line, invert).Some? ==> Hamming(line, EncodeBits(BitsOf(f, 32), invert)) % 4 == 0
  {
    FrameParity(f);
    hide Ones, Hamming, DecodeBits, EncodeBits, BitsOf, FrameDecode, Value, PopCount;
    BitsDistance(BitsOf(f, 32), line, invert);
    if DecodeBits(line, invert).Some? {
      DecodedParity(DecodeBits(line, invert).value);
    }
  }

  /** Of even words, those whose codes differ do so in a multiple of four bits. */
  lemma BitsDistance(frame: seq<bool>, line: seq<bool>, invert: bool)
    requires |frame| == 32 && |line| == 64 && Ones(frame) % 2 == 0
    ensures var r := DecodeBits(line, invert);
      r.Some? && Ones(r.value) % 2 == 0 ==> Hamming(line, EncodeBits(frame, invert)) % 4 == 0
  {
    hide Ones, Hamming, DecodeBits, EncodeBits;
    if DecodeBits(line, invert).Some? {
      PairsDiffer(line, frame, invert);
      ParityOfDistance(DecodeBits(line, invert).value, frame);
    }
  }

  lemma DecodedParity(bits: seq<bool>)
    requires |bits| == 32
    ensures FrameDecode(Value(bits)).Some? <==> Ones(bits) % 2 == 0
  {
    hide Ones, BitsOf;
    BitsOfValue(bits);
  }

  lemma FrameParity(f: nat)
    ensures PopCount(f) == Ones(BitsOf(f, 32))
  {
  }

  /** The bound is met: the codes of two messages whose values are 0 and 3 are four flips apart. */
  lemma DistanceIsTight(line: seq<bool>)
    requires line == LineCode(Msg(0, 0, 3), false)
    ensures Received(line, false) == Some(Msg(0, 0, 3)) && Hamming(line, LineCode(Msg(0, 0, 0), false)) == 4
  {
    DistanceFour(Msg(0, 0, 3), line, false);
    HammingZero(line, line);
    SmallFrames();
    hide Hamming, BitsOf, EncodeBits, Received, FrameEncode, Ones;
    DecodeOfEncode(BitsOf(3, 32), false);
    PairsDiffer(line, BitsOf(0, 32), false);
    TwoFlips();
  }

  lemma SmallFrames()
    ensures FrameEncode(0, 0, 0) == 0 && FrameEncode(0, 0, 3) == 3
  {
    hide PopCount, FrameEncode;
    SmallCounts();
    SmallFrame(0);
    SmallFrame(3);
  }

  lemma SmallFrame(value: nat)
    requires value < 0x1_0000 && PopCount(value) % 2 == 0
    ensures FrameEncode(0, 0, value) == value
  {
    hide PopCount;
  }

  lemma SmallCounts()
    ensures PopCount(0) == 0 && PopCount(3) == 2
  {
    hide BitsOf;
    FrontOfSmall();
    OnesOfZeros(30);
    OnesOfZeros(32);
    hide Ones;
    LastTwoOnes(BitsOf(3, 32));
    assert BitsOf(3, 32)[..30] == BitsOf(0, 30);
  }

  lemma LastTwoOnes(bits: seq<bool>)
    requires |bits| == 32 && bits[30] && bits[31]
    ensures Ones(bits) == Ones(bits[..30]) + 2
  {
    assert bits[..31][..30] == bits[..30];
  }

  lemma FrontOfSmall()
    ensures BitsOf(3, 32) == BitsOf(0, 30) + [true, true] && BitsOf(0, 32) == BitsOf(0, 30) + [false, false]
  {
    TwoLowestBits(3, 1, 0, 30);
    TwoLowestBits(0, 0, 0, 30);
  }

  lemma {:induction false} OnesOfZeros(n: nat)
    ensures Ones(BitsOf(0, n)) == 0
  {
    if n == 0 {
    } else {
      OnesOfZeros(n - 1);
      assert BitsOf(0, n)[..n - 1] == BitsOf(0, n - 1);
    }
  }

  lemma TwoFlips()
    ensures Hamming(BitsOf(3, 32), BitsOf(0, 32)) == 2
  {
    hide BitsOf, Hamming;
    FrontOfSmall();
    LastPair(BitsOf(3, 32), BitsOf(0, 32));
    assert BitsOf(3, 32)[..30] == BitsOf(0, 30) && BitsOf(0, 32)[..30] == BitsOf(0, 30);
    HammingZero(BitsOf(0, 30), BitsOf(0, 30));
  }
}
