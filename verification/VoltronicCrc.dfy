/**
 The checksum of the Voltronic protocol: a table loop over nibbles, shown to be the division of the
 message by the polynomial 0x1021, and an adjustment that keeps reserved bytes out of it.
 */
module VoltronicCrc {

  /** `crc_table`. */
  function CrcTable(i: bv16): bv16 {
    match i
    case 0 => 0x0000 case 1 => 0x1021 case 2 => 0x2042 case 3 => 0x3063
    case 4 => 0x4084 case 5 => 0x50A5 case 6 => 0x60C6 case 7 => 0x70E7
    case 8 => 0x8108 case 9 => 0x9129 case 10 => 0xA14A case 11 => 0xB16B
    case 12 => 0xC18C case 13 => 0xD1AD case 14 => 0xE1CE case _ => 0xF1EF
  }

  // ---- The reference: long division, one bit at a time.

  /** Shifts one message bit in; when the leading term appears, the polynomial is subtracted. */
  function DivideBit(rem: bv16, bit: bv16): bv16 {
    if (rem >> 15) ^ bit == 1 then (rem << 1) ^ 0x1021 else rem << 1
  }

  function Digit(b: bool): bv16 { if b then 1 else 0 }

  function DivideBits(rem: bv16, bits: seq<bool>): bv16
    decreases |bits|
  {
    if bits == [] then rem else DivideBits(DivideBit(rem, Digit(bits[0])), bits[1..])
  }

  /** The bits of a byte, highest first. */
  function Bits(b: bv8): (r: seq<bool>)
    ensures |r| == 8
  {
    [b & 0x80 != 0, b & 0x40 != 0, b & 0x20 != 0, b & 0x10 != 0,
     b & 0x08 != 0, b & 0x04 != 0, b & 0x02 != 0, b & 0x01 != 0]
  }

  function MessageBits(m: seq<bv8>): seq<bool> {
    if m == [] then [] else Bits(m[0]) + MessageBits(m[1..])
  }

  /** The remainder of the message, times x^16, by x^16 + x^12 + x^5 + 1. */
  function Remainder(m: seq<bv8>): bv16 {
    DivideBits(0, MessageBits(m))
  }

  // ---- The fast form.

  function Nibble(crc: bv16, n: bv16): bv16 {
    CrcTable((crc >> 12) ^ n) ^ (crc << 4)
  }

  function ByteStep(crc: bv16, b: bv8): bv16 {
    Nibble(Nibble(crc, (b >> 4) as bv16), (b & 0x0F) as bv16)
  }

  function TableCrc(crc: bv16, m: seq<bv8>): bv16
    decreases |m|
  {
    if m == [] then crc else TableCrc(ByteStep(crc, m[0]), m[1..])
  }

  /** The polynomial taken `i` times, without carries. */
  function Poly(i: bv16): bv16 {
    (i << 12) ^ (i << 5) ^ i
  }

  lemma TableIsPoly(i: bv16)
    requires i < 16
    ensures CrcTable(i) == Poly(i)
  {
    if i < 8 {
      if i < 4 {
        assert i == 0 || i == 1 || i == 2 || i == 3;
      } else {
        assert i == 4 || i == 5 || i == 6 || i == 7;
      }
    } else if i < 12 {
      assert i == 8 || i == 9 || i == 10 || i == 11;
    } else {
      assert i == 12 || i == 13 || i == 14 || i == 15;
    }
  }

  lemma DivideBitIsPoly(rem: bv16, bit: bv16)
    requires bit <= 1
    ensures DivideBit(rem, bit) == (rem << 1) ^ Poly((rem >> 15) ^ bit)
  {
    var top := (rem >> 15) ^ bit;
    TopBit(rem, bit);
    if top == 1 {
      assert Poly(1) == 0x1021;
    } else {
      assert Poly(0) == 0;
      XorZero(rem << 1);
    }
  }

  lemma TopBit(rem: bv16, bit: bv16)
    requires bit <= 1
    ensures (rem >> 15) ^ bit == 0 || (rem >> 15) ^ bit == 1
  {
  }

  lemma XorZero(x: bv16)
    ensures x ^ 0 == x
  {
  }

  /** `b3 b2 b1 b0` are the bits of a nibble. */
  predicate IsNibble(n: bv16, b3: bv16, b2: bv16, b1: bv16, b0: bv16) {
    n == (b3 << 3) | (b2 << 2) | (b1 << 1) | b0 && b3 <= 1 && b2 <= 1 && b1 <= 1 && b0 <= 1
  }

  lemma FourPolys(crc: bv16, n: bv16, b3: bv16, b2: bv16, b1: bv16, b0: bv16, r1: bv16, r2: bv16, r3: bv16, r4: bv16)
    requires IsNibble(n, b3, b2, b1, b0)
    requires r1 == (crc << 1) ^ Poly((crc >> 15) ^ b3)
    requires r2 == (r1 << 1) ^ Poly((r1 >> 15) ^ b2)
    requires r3 == (r2 << 1) ^ Poly((r2 >> 15) ^ b1)
    requires r4 == (r3 << 1) ^ Poly((r3 >> 15) ^ b0)
    ensures r4 == Poly((crc >> 12) ^ n) ^ (crc << 4)
  {
  }

  lemma SmallIndex(crc: bv16, n: bv16, b3: bv16, b2: bv16, b1: bv16, b0: bv16)
    requires IsNibble(n, b3, b2, b1, b0)
    ensures (crc >> 12) ^ n < 16
  {
  }

  /** One table step is four steps of the division. */
  lemma NibbleIsFourBits(crc: bv16, n: bv16, b3: bv16, b2: bv16, b1: bv16, b0: bv16)
    requires IsNibble(n, b3, b2, b1, b0)
    ensures Nibble(crc, n) == DivideBit(DivideBit(DivideBit(DivideBit(crc, b3), b2), b1), b0)
  {
    assert b3 <= 1 && b2 <= 1 && b1 <= 1 && b0 <= 1;
    hide DivideBit, CrcTable, Poly, IsNibble;
    SmallIndex(crc, n, b3, b2, b1, b0);
    TableIsPoly((crc >> 12) ^ n);
    var r1 := DivideBit(crc, b3);
    var r2 := DivideBit(r1, b2);
    var r3 := DivideBit(r2, b1);
    var r4 := DivideBit(r3, b0);
    DivideBitIsPoly(crc, b3);
    DivideBitIsPoly(r1, b2);
    DivideBitIsPoly(r2, b1);
    DivideBitIsPoly(r3, b0);
    FourPolys(crc, n, b3, b2, b1, b0, r1, r2, r3, r4);
  }

  lemma NibblesOfByte(b: bv8)
    ensures var d := Bits(b);
      && IsNibble((b >> 4) as bv16, Digit(d[0]), Digit(d[1]), Digit(d[2]), Digit(d[3]))
      && IsNibble((b & 0x0F) as bv16, Digit(d[4]), Digit(d[5]), Digit(d[6]), Digit(d[7]))
  {
    assert b & 0x80 != 0 <==> (b >> 7) == 1;
    HighNibble(b);
    LowNibble(b);
  }

  lemma HighNibble(b: bv8)
    ensures IsNibble((b >> 4) as bv16,
      Digit(b & 0x80 != 0), Digit(b & 0x40 != 0), Digit(b & 0x20 != 0), Digit(b & 0x10 != 0))
  {
  }

  lemma LowNibble(b: bv8)
    ensures IsNibble((b & 0x0F) as bv16,
      Digit(b & 0x08 != 0), Digit(b & 0x04 != 0), Digit(b & 0x02 != 0), Digit(b & 0x01 != 0))
  {
  }

  lemma {:induction false} DivideBitsAppend(rem: bv16, a: seq<bool>, b: seq<bool>)
    ensures DivideBits(rem, a + b) == DivideBits(DivideBits(rem, a), b)
    decreases |a|
  {
    hide DivideBit;
    if a == [] {
      assert a + b == b;
    } else {
      assert (a + b)[1..] == a[1..] + b;
      DivideBitsAppend(DivideBit(rem, Digit(a[0])), a[1..], b);
    }
  }

  lemma FourBits(rem: bv16, bits: seq<bool>)
    requires 4 <= |bits|
    ensures DivideBits(rem, bits) == DivideBits(
      DivideBit(DivideBit(DivideBit(DivideBit(rem, Digit(bits[0])), Digit(bits[1])), Digit(bits[2])), Digit(bits[3])),
      bits[4..])
  {
    hide DivideBit, Digit;
    var r1 := DivideBit(rem, Digit(bits[0]));
    var r2 := DivideBit(r1, Digit(bits[1]));
    var r3 := DivideBit(r2, Digit(bits[2]));
    assert bits[1..][0] == bits[1] && bits[2..][0] == bits[2] && bits[3..][0] == bits[3];
    assert bits[1..][1..] == bits[2..] && bits[2..][1..] == bits[3..] && bits[3..][1..] == bits[4..];
    assert DivideBits(rem, bits) == DivideBits(r1, bits[1..]) == DivideBits(r2, bits[2..]);
    assert DivideBits(r2, bits[2..]) == DivideBits(r3, bits[3..]);
  }

  /** One byte of the table loop is eight steps of the division. */
  lemma ByteIsEightBits(crc: bv16, b: bv8)
    ensures ByteStep(crc, b) == DivideBits(crc, Bits(b))
  {
    var d := Bits(b);
    NibblesOfByte(b);
    hide DivideBit, Digit, Bits, Nibble, IsNibble;
    var mid := Nibble(crc, (b >> 4) as bv16);
    NibbleIsFourBits(crc, (b >> 4) as bv16, Digit(d[0]), Digit(d[1]), Digit(d[2]), Digit(d[3]));
    NibbleIsFourBits(mid, (b & 0x0F) as bv16, Digit(d[4]), Digit(d[5]), Digit(d[6]), Digit(d[7]));
    FourBits(crc, d);
    FourBits(mid, d[4..]);
    assert d[4..][0] == d[4] && d[4..][1] == d[5] && d[4..][2] == d[6] && d[4..][3] == d[7] && d[4..][4..] == [];
  }

  /** The table loop computes the remainder of the message. */
  lemma {:induction false} TableIsDivision(crc: bv16, m: seq<bv8>)
    ensures TableCrc(crc, m) == DivideBits(crc, MessageBits(m))
    decreases |m|
  {
    hide ByteStep, Bits;
    if m == [] {
    } else {
      ByteIsEightBits(crc, m[0]);
      TableIsDivision(ByteStep(crc, m[0]), m[1..]);
      DivideBitsAppend(crc, Bits(m[0]), MessageBits(m[1..]));
    }
  }

  lemma {:induction false} MessageBitsAppend(a: seq<bv8>, b: seq<bv8>)
    ensures MessageBits(a + b) == MessageBits(a) + MessageBits(b)
  {
    hide Bits;
    if a == [] {
      assert a + b == b;
    } else {
      assert (a + b)[1..] == a[1..] + b;
      MessageBitsAppend(a[1..], b);
    }
  }

  /** A bit that equals the leading term is shifted in without a subtraction. */
  lemma OwnBit(rem: bv16, bit: bool)
    requires bit == (rem & 0x8000 != 0)
    ensures DivideBit(rem, Digit(bit)) == rem << 1
  {
    assert (rem >> 15) ^ Digit(bit) == 0;
  }

  /** The highest bits of a remainder. */
  function TopBits(rem: bv16, n: nat): (r: seq<bool>)
    ensures |r| == n
    decreases n
  {
    if n == 0 then [] else [Leading(rem)] + TopBits(rem << 1, n - 1)
  }

  function Shifted(rem: bv16, n: nat): bv16
    decreases n
  {
    if n == 0 then rem else Shifted(rem << 1, n - 1)
  }

  lemma {:induction false} OwnBits(rem: bv16, n: nat)
    ensures DivideBits(rem, TopBits(rem, n)) == Shifted(rem, n)
    decreases n
  {
    hide DivideBit, Digit;
    if n == 0 {
    } else {
      OwnBit(rem, Leading(rem));
      OwnBits(rem << 1, n - 1);
      assert TopBits(rem, n)[1..] == TopBits(rem << 1, n - 1);
    }
  }

  lemma FourShifts(rem: bv16, r1: bv16, r2: bv16, r3: bv16, r4: bv16)
    requires r1 == rem << 1 && r2 == r1 << 1 && r3 == r2 << 1 && r4 == r3 << 1
    ensures r4 == rem << 4
    ensures r1 & 0x8000 != 0 <==> rem & 0x4000 != 0
    ensures r2 & 0x8000 != 0 <==> rem & 0x2000 != 0
    ensures r3 & 0x8000 != 0 <==> rem & 0x1000 != 0
  {
  }

  function Leading(rem: bv16): bool {
    rem & 0x8000 != 0
  }

  lemma NextTop(rem: bv16, next: bv16, n: nat)
    requires next == rem << 1
    ensures Shifted(rem, n + 1) == Shifted(next, n) && TopBits(rem, n + 1) == [Leading(rem)] + TopBits(next, n)
  {
  }

  lemma FourTops(rem: bv16, r1: bv16, r2: bv16, r3: bv16, r4: bv16, n: nat)
    requires r1 == rem << 1 && r2 == r1 << 1 && r3 == r2 << 1 && r4 == r3 << 1
    ensures Shifted(rem, n + 4) == Shifted(r4, n)
    ensures TopBits(rem, n + 4) == [Leading(rem), Leading(r1), Leading(r2), Leading(r3)] + TopBits(r4, n)
  {
    hide Leading, TopBits, Shifted;
    NextTop(rem, r1, n + 3);
    NextTop(r1, r2, n + 2);
    NextTop(r2, r3, n + 1);
    NextTop(r3, r4, n);
  }

  function LeadingFour(rem: bv16): seq<bool> {
    [rem & 0x8000 != 0, rem & 0x4000 != 0, rem & 0x2000 != 0, rem & 0x1000 != 0]
  }

  /** The four bits that lead a remainder, and those of the remainder without them. */
  lemma TopNibble(rem: bv16, r4: bv16, n: nat)
    requires r4 == rem << 4
    ensures Shifted(rem, n + 4) == Shifted(r4, n)
    ensures TopBits(rem, n + 4) == LeadingFour(rem) + TopBits(r4, n)
  {
    hide TopBits, Shifted;
    var r1 := rem << 1;
    var r2 := r1 << 1;
    var r3 := r2 << 1;
    var s4 := r3 << 1;
    FourShifts(rem, r1, r2, r3, s4);
    FourTops(rem, r1, r2, r3, r4, n);
  }

  lemma HighBits(rem: bv16, r4: bv16, h: bv8)
    requires h == (rem >> 8) as bv8 && r4 == rem << 4
    ensures Bits(h) == LeadingFour(rem) + LeadingFour(r4)
  {
  }

  lemma LowBits(rem: bv16, r8: bv16, r12: bv16, l: bv8)
    requires l == (rem & 0xFF) as bv8 && r8 == rem << 8 && r12 == r8 << 4
    ensures Bits(l) == LeadingFour(r8) + LeadingFour(r12) && r12 << 4 == 0
  {
  }

  lemma ShiftEight(rem: bv16, r4: bv16, r8: bv16)
    requires r4 == rem << 4 && r8 == r4 << 4
    ensures r8 == rem << 8
  {
  }

  lemma NothingLeft(rem: bv16)
    requires rem == 0
    ensures TopBits(rem, 0) == [] && Shifted(rem, 0) == 0
  {
  }

  lemma FourByFour(n1: seq<bool>, n2: seq<bool>, n3: seq<bool>, n4: seq<bool>, h: seq<bool>, l: seq<bool>)
    requires h == n1 + n2 && l == n3 + n4
    ensures n1 + (n2 + (n3 + (n4 + []))) == h + l
  {
  }

  /** All sixteen bits of a remainder are those of its two bytes, and shifting them out leaves nothing. */
  lemma SixteenBits(rem: bv16, h: bv8, l: bv8)
    requires h == (rem >> 8) as bv8 && l == (rem & 0xFF) as bv8
    ensures TopBits(rem, 16) == Bits(h) + Bits(l) && Shifted(rem, 16) == 0
  {
    hide Bits, LeadingFour, TopBits, Shifted;
    var r4 := rem << 4;
    var r8 := r4 << 4;
    var r12 := r8 << 4;
    ShiftEight(rem, r4, r8);
    HighBits(rem, r4, h);
    LowBits(rem, r8, r12, l);
    TopNibble(rem, r4, 12);
    TopNibble(r4, r8, 8);
    TopNibble(r8, r12, 4);
    TopNibble(r12, 0, 0);
    NothingLeft(0);
    FourByFour(LeadingFour(rem), LeadingFour(r4), LeadingFour(r8), LeadingFour(r12), Bits(h), Bits(l));
  }

  /** A message followed by its remainder, high byte first, is divided without remainder. */
  lemma RemainderDivides(m: seq<bv8>, h: bv8, l: bv8)
    requires h == (Remainder(m) >> 8) as bv8 && l == (Remainder(m) & 0xFF) as bv8
    ensures Remainder(m + [h, l]) == 0
  {
    hide Bits, DivideBit, TopBits;
    var rem := Remainder(m);
    MessageBitsAppend(m, [h, l]);
    assert MessageBits([h, l]) == Bits(h) + MessageBits([h, l][1..]);
    assert MessageBits([l]) == Bits(l) + MessageBits([l][1..]);
    assert [h, l][1..] == [l] && [l][1..] == [] && MessageBits([]) == [];
    assert MessageBits([h, l]) == Bits(h) + Bits(l);
    DivideBitsAppend(0, MessageBits(m), Bits(h) + Bits(l));
    SixteenBits(rem, h, l);
    OwnBits(rem, 16);
  }

  lemma OneByte(crc: bv16, m: seq<bv8>, b: bv8, rest: seq<bv8>, next: bv16)
    requires m == [b] + rest && next == ByteStep(crc, b)
    ensures TableCrc(crc, m) == TableCrc(next, rest)
  {
    assert m[1..] == rest;
  }

  lemma ThreeBytes(crc: bv16, c1: bv16, c2: bv16, c3: bv16, a: bv8, b: bv8, c: bv8, rest: seq<bv8>)
    requires c1 == ByteStep(crc, a) && c2 == ByteStep(c1, b) && c3 == ByteStep(c2, c)
    ensures TableCrc(crc, [a, b, c] + rest) == TableCrc(c3, rest)
  {
    hide ByteStep, TableCrc;
    OneByte(crc, [a, b, c] + rest, a, [b, c] + rest, c1);
    OneByte(c1, [b, c] + rest, b, [c] + rest, c2);
    OneByte(c2, [c] + rest, c, rest, c3);
  }

  lemma CheckValueStart(rest: seq<bv8>)
    ensures TableCrc(0, [0x31, 0x32, 0x33] + rest) == TableCrc(0x9752, rest)
  {
    hide TableCrc;
    ThreeBytes(0, 0x2672, 0x20B5, 0x9752, 0x31, 0x32, 0x33, rest);
  }

  lemma CheckValueMiddle(rest: seq<bv8>)
    ensures TableCrc(0x9752, [0x34, 0x35, 0x36] + rest) == TableCrc(0x20E4, rest)
  {
    hide TableCrc;
    ThreeBytes(0x9752, 0xD789, 0x546C, 0x20E4, 0x34, 0x35, 0x36, rest);
  }

  lemma CheckValueEnd()
    ensures TableCrc(0x20E4, [0x37, 0x38, 0x39] + []) == 0x31C3
  {
    NoBytes(0x31C3);
    hide TableCrc;
    ThreeBytes(0x20E4, 0x86D6, 0x9015, 0x31C3, 0x37, 0x38, 0x39, []);
  }

  /** The check value of this division, that of the text "123456789". */
  lemma CheckValue()
    ensures Remainder([0x31, 0x32, 0x33, 0x34, 0x35, 0x36, 0x37, 0x38, 0x39]) == 0x31C3
  {
    hide TableCrc, DivideBits, MessageBits;
    var tail: seq<bv8> := [0x37, 0x38, 0x39] + [];
    CheckValueStart([0x34, 0x35, 0x36] + tail);
    CheckValueMiddle(tail);
    CheckValueEnd();
    TableIsDivision(0, [0x31, 0x32, 0x33] + ([0x34, 0x35, 0x36] + tail));
    assert [0x31, 0x32, 0x33] + ([0x34, 0x35, 0x36] + tail) == [0x31, 0x32, 0x33, 0x34, 0x35, 0x36, 0x37, 0x38, 0x39];
  }

  lemma NoBytes(crc: bv16)
    ensures TableCrc(crc, []) == crc
  {
  }

  // ---- Bytes the protocol reserves.

  predicate Reserved(b: bv8) {
    b == 0x28 || b == 0x0D || b == 0x0A
  }

  function Low(crc: bv16): bv8 { (crc & 0xFF) as bv8 }
  function High(crc: bv16): bv8 { (crc >> 8) as bv8 }

  /** Steps each reserved byte of the checksum by one. */
  function Adjusted(crc: bv16): bv16 {
    var c := if Reserved(Low(crc)) then crc + 1 else crc;
    if Reserved(High(c)) then c + 0x100 else c
  }

  lemma AdjustedIsClean(crc: bv16)
    ensures !Reserved(Low(Adjusted(crc))) && !Reserved(High(Adjusted(crc)))
  {
  }

  /** A half of the checksum is that of the remainder, or one more where that is "(", a return or a line feed. */
  predicate Steps(half: bv16, to: bv16) {
    to == if half == 0x28 || half == 0x0D || half == 0x0A then half + 1 else half
  }

  lemma AdjustedHalves(crc: bv16)
    ensures Steps(crc & 0xFF, Adjusted(crc) & 0xFF) && Steps(crc >> 8, Adjusted(crc) >> 8)
    ensures !Reserved(Low(crc)) && !Reserved(High(crc)) ==> Adjusted(crc) == crc
  {
  }

  /** `calculate_crc`. */
  method CalculateCrc(buffer: seq<bv8>) returns (crc: bv16)
    ensures crc == Adjusted(Remainder(buffer))
    ensures Steps(Remainder(buffer) & 0xFF, crc & 0xFF) && Steps(Remainder(buffer) >> 8, crc >> 8)
    ensures !Reserved(Low(crc)) && !Reserved(High(crc))
  {
    hide Nibble, DivideBit, MessageBits, Reserved, Low, High, Adjusted, Steps;
    TableIsDivision(0, buffer);
    AdjustedIsClean(Remainder(buffer));
    AdjustedHalves(Remainder(buffer));
    crc := 0;
    if |buffer| < 1 {
      EmptyRemainder();
      return;
    }
    var i := 0;
    while i < |buffer|
      invariant 0 <= i <= |buffer|
      invariant TableCrc(crc, buffer[i..]) == TableCrc(0, buffer)
    {
      assert buffer[i..][1..] == buffer[i + 1..];
      var byte := buffer[i];
      crc := Nibble(crc, (byte >> 4) as bv16);
      crc := Nibble(crc, (byte & 0x0F) as bv16);
      i := i + 1;
    }
    crc := Adjusted(crc);
  }

  lemma EmptyRemainder()
    ensures Remainder([]) == 0 && Adjusted(0) == 0
  {
  }
}
