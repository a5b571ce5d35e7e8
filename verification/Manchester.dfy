/**
 Manchester coding of 32-bit frames. Machine words are natural numbers below 2^32 and 2^64; testing
 a bit under a one-bit mask, shifting and setting clear low bits are written as arithmetic.
 */
module Manchester {
  import opened Wrappers

  const TWO_32 := 0x1_0000_0000
  const TWO_64 := 0x1_0000_0000_0000_0000

  function Pow2(n: nat): (p: nat)
    ensures 0 < p
  {
    if n == 0 then 1 else 2 * Pow2(n - 1)
  }

  /** The lowest `n` bits of a word, highest first. */
  function BitsOf(w: nat, n: nat): (b: seq<bool>)
    ensures |b| == n
  {
    if n == 0 then [] else BitsOf(w / 2, n - 1) + [w % 2 == 1]
  }

  lemma HalfOfQuotient(w: nat, p: nat)
    requires 0 < p
    ensures (w / 2) / p == w / (2 * p)
  {
    var q, r := w / (2 * p), w % (2 * p);
    assert w == 2 * p * q + r;
    assert w / 2 == p * q + r / 2;
    assert r / 2 < p;
    QuotientIs(w / 2, p, q, r / 2);
  }

  lemma QuotientIs(x: nat, p: nat, q: nat, r: nat)
    requires 0 < p && x == p * q + r && r < p
    ensures x / p == q
  {
    var d := x / p - q;
    assert x == p * (x / p) + x % p;
    assert p * (x / p) - p * q == p * d;
    assert d >= 1 ==> p * d >= p;
    assert d <= -1 ==> p * d + p <= 0;
  }

  /** `w & mask` is not zero, for a mask of one bit. */
  predicate Test(w: nat, mask: nat)
    requires 0 < mask
  {
    (w / mask) % 2 == 1
  }

  /** Testing with a one-bit mask reads one of the bits. */
  lemma {:induction false} MaskReadsBit(w: nat, n: nat, i: nat)
    requires i < n
    ensures BitsOf(w, n)[i] == Test(w, Pow2(n - 1 - i))
    decreases n
  {
    if i < n - 1 {
      MaskReadsBit(w / 2, n - 1, i);
      HalfOfQuotient(w, Pow2(n - 2 - i));
    }
  }

  /** A word is determined by its bits. */
  lemma {:induction false} WordOfBits(v: nat, w: nat, n: nat)
    requires v < Pow2(n) && w < Pow2(n) && BitsOf(v, n) == BitsOf(w, n)
    ensures v == w
    decreases n
  {
    if n == 0 {
    } else {
      var a, b := BitsOf(v, n), BitsOf(w, n);
      assert a[..n - 1] == BitsOf(v / 2, n - 1) && b[..n - 1] == BitsOf(w / 2, n - 1);
      assert a[n - 1] == (v % 2 == 1) && b[n - 1] == (w % 2 == 1);
      WordOfBits(v / 2, w / 2, n - 1);
    }
  }

  // Shifts of the two accumulators, which drop what leaves the word.
  function TwoLeft64(w: nat): nat { 4 * w % TWO_64 }
  function OneLeft32(w: nat): nat { 2 * w % TWO_32 }

  // ---- The code.

  /** A bit becomes a pair of unequal line bits: 10 and 01, or the other way round when inverted. */
  function EncodeBits(bits: seq<bool>, invert: bool): (r: seq<bool>)
    ensures |r| == 2 * |bits|
  {
    if bits == [] then []
    else
      var n := |bits| - 1;
      EncodeBits(bits[..n], invert) + [bits[n] != invert, bits[n] == invert]
  }

  /** The reverse; none when the two bits of a pair are equal. */
  function DecodeBits(line: seq<bool>, invert: bool): (r: Option<seq<bool>>)
    requires |line| % 2 == 0
    ensures r.Some? ==> 2 * |r.value| == |line|
  {
    if line == [] then Some([])
    else
      var n := |line| - 2;
      match DecodeBits(line[..n], invert)
      case None => None
      case Some(bits) => if line[n] == line[n + 1] then None else Some(bits + [line[n] != invert])
  }

  lemma EncodeAppend(front: seq<bool>, bit: bool, invert: bool)
    ensures EncodeBits(front + [bit], invert) == EncodeBits(front, invert) + [bit != invert, bit == invert]
  {
    assert (front + [bit])[..|front|] == front;
  }

  lemma DecodeAppend(line: seq<bool>, a: bool, b: bool, invert: bool)
    requires |line| % 2 == 0 && DecodeBits(line, invert).Some? && a != b
    ensures DecodeBits(line + [a, b], invert) == Some(DecodeBits(line, invert).value + [a != invert])
  {
    assert (line + [a, b])[..|line|] == line;
  }

  /** Bit `i` is sent as the line bits `2 * i` and `2 * i + 1`: the bit and its opposite, exchanged when inverted. */
  lemma {:induction false} EncodedPair(bits: seq<bool>, invert: bool, i: nat)
    requires i < |bits|
    ensures var line := EncodeBits(bits, invert);
      if invert then line[2 * i] == !bits[i] && line[2 * i + 1] == bits[i]
      else line[2 * i] == bits[i] && line[2 * i + 1] == !bits[i]
  {
    var n := |bits| - 1;
    if i < n {
      EncodedPair(bits[..n], invert, i);
    }
  }

  /** A line is decoded if and only if the two bits of each pair differ, and then to the first bits of the pairs. */
  lemma {:induction false} DecodedPairs(line: seq<bool>, invert: bool)
    requires |line| % 2 == 0
    ensures DecodeBits(line, invert).Some? <==> forall i | 0 <= i < |line| / 2 :: line[2 * i] != line[2 * i + 1]
    ensures DecodeBits(line, invert).Some? ==>
      forall i | 0 <= i < |line| / 2 :: DecodeBits(line, invert).value[i] == (line[2 * i] != invert)
  {
    if line == [] {
    } else {
      var n := |line| - 2;
      DecodedPairs(line[..n], invert);
      assert n == 2 * (n / 2);
      assert line[2 * (n / 2)] == line[n] && line[2 * (n / 2) + 1] == line[n + 1];
    }
  }

  lemma {:induction false} DecodeOfEncode(bits: seq<bool>, invert: bool)
    ensures DecodeBits(EncodeBits(bits, invert), invert) == Some(bits)
  {
    if bits == [] {
    } else {
      var n := |bits| - 1;
      var front, bit := bits[..n], bits[n];
      assert bits == front + [bit];
      DecodeOfEncode(front, invert);
      hide DecodeBits, EncodeBits;
      EncodeAppend(front, bit, invert);
      DecodeAppend(EncodeBits(front, invert), bit != invert, bit == invert, invert);
    }
  }

  lemma {:induction false} EncodeOfDecode(line: seq<bool>, invert: bool)
    requires |line| % 2 == 0 && DecodeBits(line, invert).Some?
    ensures EncodeBits(DecodeBits(line, invert).value, invert) == line
    decreases |line|
  {
    hide EncodeBits;
    if line == [] {
      assert EncodeBits([], invert) == [];
    } else {
      var n := |line| - 2;
      EncodeOfDecode(line[..n], invert);
      EncodeAppend(DecodeBits(line[..n], invert).value, line[n] != invert, invert);
      assert line == line[..n] + [line[n], line[n + 1]];
    }
  }

  /** `manchester_encode`. */
  method ManchesterEncode(frame: nat, invert: bool) returns (mframe: nat)
    requires frame < TWO_32
    ensures mframe < TWO_64 && BitsOf(mframe, 64) == EncodeBits(BitsOf(frame, 32), invert)
  {
    mframe := 0;
    var mask: nat := 0x8000_0000;
    var one: nat, zero: nat := if invert then 1 else 2, if invert then 2 else 1;
    ghost var i := 0;
    Pow2Is31();
    EncodeStart(frame, invert);
    hide Pow2, BitsOf, EncodeBits, Test, TwoLeft64, Encoded;
    while mask != 0
      invariant 0 <= i <= 32 && mask == (if i == 32 then 0 else Pow2(31 - i))
      invariant Encoded(frame, invert, i, mframe)
      decreases 32 - i
    {
      MaskHalves(i);
      EncodeStep(frame, invert, i, mframe);
      if Test(frame, mask) {
        mframe := TwoLeft64(mframe);
        mframe := mframe + one;
      } else {
        mframe := TwoLeft64(mframe);
        mframe := mframe + zero;
      }
      mask := mask / 2;
      i := i + 1;
    }
    EncodeEnd(frame, invert, mframe);
  }

  /** After `i` rounds `m` holds the pairs of the first `i` bits. */
  ghost predicate Encoded(frame: nat, invert: bool, i: nat, m: nat) {
    i <= 32 && m < Pow2(2 * i) && BitsOf(m, 2 * i) == EncodeBits(BitsOf(frame, 32)[..i], invert)
  }

  lemma EncodeStart(frame: nat, invert: bool)
    ensures Encoded(frame, invert, 0, 0)
  {
    assert BitsOf(frame, 32)[..0] == [];
  }

  lemma EncodeStep(frame: nat, invert: bool, i: nat, m: nat)
    requires i < 32 && Encoded(frame, invert, i, m)
    ensures Encoded(frame, invert, i + 1, TwoLeft64(m) + if Test(frame, Pow2(31 - i)) == invert then 1 else 2)
  {
    hide Pow2, BitsOf, EncodeBits, Test, TwoLeft64;
    MaskReadsBit(frame, 32, i);
    assert 32 - 1 - i == 31 - i;
    ShiftInPair(m, i, BitsOf(frame, 32), invert);
  }

  lemma EncodeEnd(frame: nat, invert: bool, m: nat)
    requires Encoded(frame, invert, 32, m)
    ensures m < TWO_64 && BitsOf(m, 64) == EncodeBits(BitsOf(frame, 32), invert)
  {
    hide BitsOf, EncodeBits;
    Pow2Is64();
    assert BitsOf(frame, 32)[..32] == BitsOf(frame, 32);
  }

  lemma MaskHalves(i: nat)
    requires i < 32
    ensures Pow2(31 - i) / 2 == if i == 31 then 0 else Pow2(31 - (i + 1))
  {
  }

  lemma Pow2Is31()
    ensures Pow2(31) == 0x8000_0000
  {
    assert Pow2(8) == 0x100;
    assert Pow2(16) == 0x1_0000;
    assert Pow2(24) == 0x100_0000;
  }

  lemma Pow2Is64()
    ensures Pow2(64) == TWO_64
  {
    Pow2Is31();
    assert Pow2(40) == 0x100_0000_0000;
    assert Pow2(48) == 0x1_0000_0000_0000;
    assert Pow2(56) == 0x100_0000_0000_0000;
  }

  lemma {:induction false} Pow2Grows(a: nat, b: nat)
    requires a <= b
    ensures Pow2(a) <= Pow2(b) && (a < b ==> 2 * Pow2(a) <= Pow2(b))
    decreases b - a
  {
    if a < b {
      Pow2Grows(a, b - 1);
    }
  }

  /** Shifting two bits in from the right appends them. */
  lemma AppendPair(w: nat, n: nat, pair: nat)
    requires n + 2 <= 64 && w < Pow2(n) && 1 <= pair <= 2
    ensures TwoLeft64(w) == 4 * w && 4 * w + pair < Pow2(n + 2)
    ensures BitsOf(4 * w + pair, n + 2) == BitsOf(w, n) + [pair == 2, pair == 1]
  {
    Pow2Grows(n + 2, 64);
    Pow2Is64();
    Pow2Twice(n);
    hide *;
    var v := 4 * w + pair;
    var half := 2 * w + pair / 2;
    HalvesOfPair(w, pair, v, half);
    TwoLowestBits(v, half, w, n);
    FitsTwice(w, pair, Pow2(n));
  }

  lemma HalvesOfPair(w: nat, pair: nat, v: nat, half: nat)
    requires 1 <= pair <= 2 && v == 4 * w + pair && half == 2 * w + pair / 2
    ensures v / 2 == half && half / 2 == w && (v % 2 == 1 <==> pair == 1) && (half % 2 == 1 <==> pair == 2)
  {
    if pair == 1 {
      assert v == 2 * half + 1 && half == 2 * w;
    } else {
      assert v == 2 * half && half == 2 * w + 1;
    }
  }

  lemma FitsTwice(w: nat, pair: nat, p: nat)
    requires w < p && pair <= 2 && 4 * p <= TWO_64
    ensures TwoLeft64(w) == 4 * w && 4 * w + pair < 4 * p
  {
  }

  lemma Pow2Twice(n: nat)
    ensures Pow2(n + 2) == 4 * Pow2(n)
  {
    assert Pow2(n + 1) == 2 * Pow2(n);
  }

  lemma TwoLowestBits(v: nat, half: nat, w: nat, n: nat)
    requires v / 2 == half && half / 2 == w
    ensures BitsOf(v, n + 2) == BitsOf(w, n) + [half % 2 == 1, v % 2 == 1]
  {
    assert BitsOf(v, n + 2) == BitsOf(half, n + 1) + [v % 2 == 1];
    assert BitsOf(half, n + 1) == BitsOf(w, n) + [half % 2 == 1];
  }

  lemma ShiftInPair(w: nat, i: nat, bits: seq<bool>, invert: bool)
    requires i < 32 && |bits| == 32 && w < Pow2(2 * i) && BitsOf(w, 2 * i) == EncodeBits(bits[..i], invert)
    ensures var v := TwoLeft64(w) + if bits[i] == invert then 1 else 2;
      v < Pow2(2 * (i + 1)) && BitsOf(v, 2 * (i + 1)) == EncodeBits(bits[..i + 1], invert)
  {
    hide Pow2, BitsOf, TwoLeft64;
    AppendPair(w, 2 * i, if bits[i] == invert then 1 else 2);
    assert 2 * i + 2 == 2 * (i + 1);
    assert bits[..i + 1][..i] == bits[..i];
  }

  /** `manchester_decode`; `value` is only written when it succeeds. */
  method ManchesterDecode(mframe: nat, invert: bool, value: nat) returns (r: int, frame: nat)
    requires mframe < TWO_64
    ensures r == (if DecodeBits(BitsOf(mframe, 64), invert).Some? then 0 else -1)
    ensures r == 0 ==> frame < TWO_32 && DecodeBits(BitsOf(mframe, 64), invert) == Some(BitsOf(frame, 32))
    ensures r != 0 ==> frame == value
  {
    var mask: nat, mask2: nat := 0x8000_0000_0000_0000, 0x4000_0000_0000_0000;
    var one: nat, zero: nat := if invert then 0 else 1, if invert then 1 else 0;
    frame := 0;
    FirstMasks();
    DecodeStart(mframe, invert);
    hide HighMask, LowMask, Pow2, BitsOf, DecodeBits, Test, OneLeft32, Decoded;
    for i := 0 to 32
      invariant mask == HighMask(i) && mask2 == LowMask(i)
      invariant Decoded(mframe, invert, i, frame)
    {
      MasksQuarter(i);
      DecodeStep(mframe, invert, i, frame);
      if Test(mframe, mask) {
        if Test(mframe, mask2) {
          return -1, value;
        }
        frame := OneLeft32(frame);
        frame := frame + one;
      } else {
        if !Test(mframe, mask2) {
          return -1, value;
        }
        frame := OneLeft32(frame);
        frame := frame + zero;
      }
      mask, mask2 := mask / 4, mask2 / 4;
    }
    DecodeEnd(mframe, invert, frame);
    r := 0;
  }

  /** After `i` rounds `f` holds the bits of the first `i` pairs, all of them unequal. */
  ghost predicate Decoded(mframe: nat, invert: bool, i: nat, f: nat) {
    i <= 32 && f < Pow2(i) && DecodeBits(BitsOf(mframe, 64)[..2 * i], invert) == Some(BitsOf(f, i))
  }

  lemma DecodeStart(mframe: nat, invert: bool)
    ensures Decoded(mframe, invert, 0, 0)
  {
    assert BitsOf(mframe, 64)[..2 * 0] == [];
  }

  lemma DecodeEnd(mframe: nat, invert: bool, f: nat)
    requires Decoded(mframe, invert, 32, f)
    ensures f < TWO_32 && DecodeBits(BitsOf(mframe, 64), invert) == Some(BitsOf(f, 32))
  {
    hide BitsOf, DecodeBits;
    Pow2Is32();
    var line := BitsOf(mframe, 64);
    assert line[..2 * 32] == line;
  }

  /** The masks of the two bits of pair `i`. */
  function HighMask(i: nat): nat { if i < 32 then Pow2(63 - 2 * i) else 0 }
  function LowMask(i: nat): nat { if i < 32 then Pow2(62 - 2 * i) else 0 }

  lemma FirstMasks()
    ensures HighMask(0) == 0x8000_0000_0000_0000 && LowMask(0) == 0x4000_0000_0000_0000
  {
    Pow2Is64();
    assert Pow2(64) == 2 * Pow2(63) && Pow2(63) == 2 * Pow2(62);
  }

  /** What one round of the decoding loop does. */
  lemma DecodeStep(mframe: nat, invert: bool, i: nat, f: nat)
    requires i < 32 && Decoded(mframe, invert, i, f)
    ensures 0 < HighMask(i) && 0 < LowMask(i)
    ensures var high, low := Test(mframe, HighMask(i)), Test(mframe, LowMask(i));
      if high == low then DecodeBits(BitsOf(mframe, 64), invert).None?
      else Decoded(mframe, invert, i + 1, OneLeft32(f) + if high != invert then 1 else 0)
  {
    hide Pow2, BitsOf, DecodeBits, Test, OneLeft32;
    var line := BitsOf(mframe, 64);
    MaskReadsBit(mframe, 64, 2 * i);
    MaskReadsBit(mframe, 64, 2 * i + 1);
    assert 64 - 1 - 2 * i == 63 - 2 * i && 64 - 1 - (2 * i + 1) == 62 - 2 * i && 2 * i + 2 == 2 * (i + 1);
    DecodePair(line, invert, i);
    ShiftInBit(f, i, if line[2 * i] != invert then 1 else 0);
  }

  lemma MasksQuarter(i: nat)
    requires i < 32
    ensures HighMask(i) / 4 == HighMask(i + 1) && LowMask(i) / 4 == LowMask(i + 1)
  {
  }

  lemma Pow2Is32()
    ensures Pow2(32) == TWO_32
  {
    Pow2Is31();
  }

  /** An unequal pair continues the decoding; an equal one ends it for good. */
  lemma DecodePair(line: seq<bool>, invert: bool, i: nat)
    requires 2 * i + 2 <= |line| && |line| % 2 == 0 && DecodeBits(line[..2 * i], invert).Some?
    ensures line[2 * i] == line[2 * i + 1] ==> DecodeBits(line, invert).None?
    ensures line[2 * i] != line[2 * i + 1] ==>
      DecodeBits(line[..2 * i + 2], invert) == Some(DecodeBits(line[..2 * i], invert).value + [line[2 * i] != invert])
  {
    assert line[..2 * i + 2][..2 * i] == line[..2 * i];
    if line[2 * i] == line[2 * i + 1] {
      PrefixFails(line, invert, 2 * i + 2);
    }
  }

  lemma {:induction false} PrefixFails(line: seq<bool>, invert: bool, n: nat)
    requires n <= |line| && n % 2 == 0 && |line| % 2 == 0 && DecodeBits(line[..n], invert).None?
    ensures DecodeBits(line, invert).None?
    decreases |line|
  {
    if n == |line| {
      assert line[..n] == line;
    } else {
      assert line[..|line| - 2][..n] == line[..n];
      PrefixFails(line[..|line| - 2], invert, n);
    }
  }

  lemma ShiftInBit(w: nat, i: nat, b: nat)
    requires i < 32 && w < Pow2(i) && b <= 1
    ensures OneLeft32(w) + b < Pow2(i + 1) && BitsOf(OneLeft32(w) + b, i + 1) == BitsOf(w, i) + [b == 1]
  {
    Pow2Grows(i + 1, 32);
    Pow2Is32();
    assert Pow2(i + 1) == 2 * Pow2(i);
    LowestBit(2 * w + b, w, i);
    hide Pow2, BitsOf;
  }

  lemma LowestBit(v: nat, w: nat, n: nat)
    requires v / 2 == w
    ensures BitsOf(v, n + 1) == BitsOf(w, n) + [v % 2 == 1]
  {
  }
}
