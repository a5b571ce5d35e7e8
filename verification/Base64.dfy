/**
 Base64, after section 4 of RFC 4648, as the firmware writes and reads it: the encoder and the decoder
 fill buffers sized from the length of their input. Characters are unsigned bytes.
 */
module Base64 {
  import opened Bytes

  const PAD: Byte := 61

  /** `base46_map`: A-Z, a-z, 0-9, plus and slash. */
  function Letter(k: nat): Byte
    requires k < 64
  {
    if k < 26 then 65 + k else if k < 52 then 71 + k else if k < 62 then k - 4 else if k == 62 then 43 else 47
  }

  /** Where the linear scan of the table stops: at the letter, or past the end. */
  function Index(c: Byte): (k: nat)
    ensures k <= 64 && (k < 64 ==> Letter(k) == c)
  {
    if 65 <= c <= 90 then c - 65 else if 97 <= c <= 122 then c - 71 else if 48 <= c <= 57 then c + 4
    else if c == 43 then 62 else if c == 47 then 63 else 64
  }

  lemma LettersAreDistinct(k: nat)
    requires k < 64
    ensures Index(Letter(k)) == k && Letter(k) != PAD && Letter(k) != 0
  {
  }

  /** Table 1 of the RFC. */
  const ALPHABET: string := "ABCDEFGHIJKLMNOPQRSTUVWXYZ" + "abcdefghijklmnopqrstuvwxyz" + "0123456789" + "+/"

  /** The letters are those of the table, and the pad is "=". */
  lemma LetterTable(k: nat)
    requires k < 64
    ensures |ALPHABET| == 64 && ALPHABET[k] == Letter(k) as char && ALPHABET[k] as int == Letter(k)
    ensures PAD == '=' as int
  {
  }

  /** Only what is none of the letters has no index. */
  lemma IndexTable(c: Byte)
    ensures |ALPHABET| == 64
    ensures Index(c) == 64 <==> forall k | 0 <= k < 64 :: ALPHABET[k] as int != c
  {
    LetterTable(0);
    hide ALPHABET, Letter, Index;
    if Index(c) < 64 {
      var k := Index(c);
      LetterTable(k);
      assert ALPHABET[k] as int == c;
    } else {
      forall k | 0 <= k < 64 ensures ALPHABET[k] as int != c {
        LetterTable(k);
        LettersAreDistinct(k);
      }
    }
  }

  // ---- Groups.

  function ThreeBytes(a: Byte, b: Byte, c: Byte): (r: seq<Byte>)
    ensures |r| == 4
  {
    [Letter(a / 4), Letter(a % 4 * 16 + b / 16), Letter(b % 16 * 4 + c / 64), Letter(c % 64)]
  }

  function LastBytes(s: seq<Byte>): (r: seq<Byte>)
    requires |s| == 1 || |s| == 2
    ensures |r| == 4
  {
    if |s| == 1 then [Letter(s[0] / 4), Letter(s[0] % 4 * 16), PAD, PAD]
    else [Letter(s[0] / 4), Letter(s[0] % 4 * 16 + s[1] / 16), Letter(s[1] % 16 * 4), PAD]
  }

  /** What four letters decode to; sums are cut to eight bits, and an index of 64 leaves a byte out. */
  function FourLetters(k: seq<nat>): (r: seq<Byte>)
    requires |k| == 4 && forall i | 0 <= i < 4 :: k[i] <= 64
    ensures 1 <= |r| <= 3
  {
    [(k[0] * 4 + k[1] / 16) % 256]
    + (if k[2] != 64 then [(k[1] * 16 + k[2] / 4) % 256] else [])
    + (if k[3] != 64 then [(k[2] * 64 + k[3]) % 256] else [])
  }

  function Indices(c: seq<Byte>): (k: seq<nat>)
    ensures |k| == |c| && forall i | 0 <= i < |c| :: k[i] == Index(c[i])
  {
    seq(|c|, i requires 0 <= i < |c| => Index(c[i]))
  }

  function Encode(s: seq<Byte>): seq<Byte> {
    if s == [] then []
    else if |s| < 3 then LastBytes(s)
    else ThreeBytes(s[0], s[1], s[2]) + Encode(s[3..])
  }

  /** Letters that do not fill a group at the end are dropped. */
  function Decode(c: seq<Byte>): seq<Byte> {
    if |c| < 4 then [] else FourLetters(Indices(c[..4])) + Decode(c[4..])
  }

  // ---- Round trip.

  lemma FirstByte(a: Byte, x: nat)
    requires x < 16
    ensures (a / 4 * 4 + (a % 4 * 16 + x) / 16) % 256 == a
  {
    assert (a % 4 * 16 + x) / 16 == a % 4;
  }

  lemma SecondByte(m: nat, b: Byte, z: nat)
    requires m < 4 && z < 4
    ensures ((m * 16 + b / 16) * 16 + (b % 16 * 4 + z) / 4) % 256 == b
  {
    assert (b % 16 * 4 + z) / 4 == b % 16;
    assert (m * 16 + b / 16) * 16 + b % 16 == m * 256 + b;
  }

  lemma ThirdByte(n: nat, c: Byte)
    requires n < 16
    ensures ((n * 4 + c / 64) * 64 + c % 64) % 256 == c
  {
    assert (n * 4 + c / 64) * 64 + c % 64 == n * 256 + c;
  }

  lemma IndicesOf(c: seq<Byte>, k: seq<nat>)
    requires |c| == |k| && forall i | 0 <= i < |c| :: (k[i] < 64 && c[i] == Letter(k[i])) || (k[i] == 64 && c[i] == PAD)
    ensures Indices(c) == k
  {
    PadIsNoLetter();
    hide Letter, Index;
    forall i | 0 <= i < |c| ensures Index(c[i]) == k[i] {
      if k[i] < 64 { LettersAreDistinct(k[i]); }
    }
  }

  lemma GroupRoundTrip(a: Byte, b: Byte, c: Byte)
    ensures FourLetters(Indices(ThreeBytes(a, b, c))) == [a, b, c]
  {
    hide Letter, Indices;
    IndicesOf(ThreeBytes(a, b, c), [a / 4, a % 4 * 16 + b / 16, b % 16 * 4 + c / 64, c % 64]);
    hide ThreeBytes;
    FirstByte(a, b / 16);
    SecondByte(a % 4, b, c / 64);
    ThirdByte(b % 16, c);
  }

  lemma LastRoundTrip(s: seq<Byte>)
    requires |s| == 1 || |s| == 2
    ensures FourLetters(Indices(LastBytes(s))) == s
  {
    hide Letter, Indices;
    if |s| == 1 {
      OneRoundTrip(s[0]);
      assert s == [s[0]];
    } else {
      TwoRoundTrip(s[0], s[1]);
      assert s == [s[0], s[1]];
    }
  }

  lemma OneRoundTrip(a: Byte)
    ensures FourLetters(Indices(LastBytes([a]))) == [a]
  {
    hide Letter, Indices;
    IndicesOf(LastBytes([a]), [a / 4, a % 4 * 16, 64, 64]);
    hide LastBytes;
    FirstByte(a, 0);
  }

  lemma TwoRoundTrip(a: Byte, b: Byte)
    ensures FourLetters(Indices(LastBytes([a, b]))) == [a, b]
  {
    hide Letter, Indices;
    IndicesOf(LastBytes([a, b]), [a / 4, a % 4 * 16 + b / 16, b % 16 * 4, 64]);
    hide LastBytes;
    FirstByte(a, b / 16);
    SecondByte(a % 4, b, 0);
  }

  /** Three bytes are one number of 24 bits, read as four digits of six bits. */
  lemma GroupDigits(a: Byte, b: Byte, c: Byte)
    ensures var k := Indices(ThreeBytes(a, b, c));
      (forall i | 0 <= i < 4 :: k[i] < 64) && ((k[0] * 64 + k[1]) * 64 + k[2]) * 64 + k[3] == (a * 256 + b) * 256 + c
  {
    hide Letter, Indices;
    IndicesOf(ThreeBytes(a, b, c), [a / 4, a % 4 * 16 + b / 16, b % 16 * 4 + c / 64, c % 64]);
  }

  /** One or two bytes at the end are filled up with zero bits to whole digits, and with pads to a group. */
  lemma LastDigits(s: seq<Byte>)
    requires |s| == 1 || |s| == 2
    ensures var r, k := LastBytes(s), Indices(LastBytes(s));
      && k[0] < 64 && k[1] < 64
      && (|s| == 1 ==> k[0] * 64 + k[1] == 16 * (s[0] as int) && r[2..] == [PAD, PAD])
      && (|s| == 2 ==>
            k[2] < 64 && (k[0] * 64 + k[1]) * 64 + k[2] == 4 * (256 * (s[0] as int) + s[1]) && r[3..] == [PAD])
  {
    hide Letter, Indices;
    if |s| == 1 {
      IndicesOf(LastBytes(s), [s[0] / 4, s[0] % 4 * 16, 64, 64]);
    } else {
      IndicesOf(LastBytes(s), [s[0] / 4, s[0] % 4 * 16 + s[1] / 16, s[1] % 16 * 4, 64]);
    }
  }

  lemma SixAndTwo(x: nat, y: nat, h: nat, l: nat)
    requires x < 64 && y == 16 * h + l && h < 4 && l < 16
    ensures (x * 4 + y / 16) % 256 == x * 4 + h
  {
    assert y / 16 == h;
  }

  lemma FourAndFour(y: nat, z: nat, h: nat, l: nat, m: nat, n: nat)
    requires y == 16 * h + l && l < 16 && z == 4 * m + n && m < 16 && n < 4
    ensures (y * 16 + z / 4) % 256 == l * 16 + m
  {
    assert z / 4 == m;
    assert y * 16 + m == 256 * h + (l * 16 + m);
  }

  lemma TwoAndSix(z: nat, w: nat, m: nat, n: nat)
    requires z == 4 * m + n && n < 4 && w < 64
    ensures (z * 64 + w) % 256 == n * 64 + w
  {
    assert z * 64 + w == 256 * m + (n * 64 + w);
  }

  /** Four letters are read back as the number they write; a group with pads gives its whole bytes only. */
  lemma LettersNumber(x: nat, y: nat, z: nat, w: nat)
    requires x < 64 && y < 64 && z < 64 && w < 64
    ensures var r := FourLetters([x, y, z, w]);
      |r| == 3 && (r[0] as int * 256 + r[1]) * 256 + r[2] == ((x * 64 + y) * 64 + z) * 64 + w
    ensures var r := FourLetters([x, y, z, 64]);
      |r| == 2 && r[0] as int * 256 + r[1] == ((x * 64 + y) * 64 + z) / 4
    ensures var r := FourLetters([x, y, 64, 64]);
      |r| == 1 && r[0] as int == (x * 64 + y) / 16
  {
    var h, l, m, n := y / 16, y % 16, z / 4, z % 4;
    SixAndTwo(x, y, h, l);
    FourAndFour(y, z, h, l, m, n);
    TwoAndSix(z, w, m, n);
    BySixteen(x * 64 + y, x * 4 + h, l);
    ByFour((x * 64 + y) * 64 + z, (x * 64 + y) * 16 + m, n);
    FourLettersAre(x, y, z, w);
  }

  lemma BySixteen(a: nat, q: nat, r: nat)
    requires a == 16 * q + r && r < 16
    ensures a / 16 == q
  {
  }

  lemma ByFour(a: nat, q: nat, r: nat)
    requires a == 4 * q + r && r < 4
    ensures a / 4 == q
  {
  }

  lemma FourLettersAre(x: nat, y: nat, z: nat, w: nat)
    requires x < 64 && y < 64 && z < 64 && w < 64
    ensures FourLetters([x, y, z, w]) == [(x * 4 + y / 16) % 256, (y * 16 + z / 4) % 256, (z * 64 + w) % 256]
    ensures FourLetters([x, y, z, 64]) == [(x * 4 + y / 16) % 256, (y * 16 + z / 4) % 256]
    ensures FourLetters([x, y, 64, 64]) == [(x * 4 + y / 16) % 256]
  {
  }

  function Text(c: seq<Byte>): string {
    seq(|c|, i requires 0 <= i < |c| => c[i] as char)
  }

  /** "Man" and its beginnings. */
  lemma ManExample()
    ensures Text(Encode([77, 97, 110])) == "TWFu" && Text(Encode([77, 97])) == "TWE=" && Text(Encode([77])) == "TQ=="
  {
    assert Encode([77, 97, 110]) == ThreeBytes(77, 97, 110) + Encode([77, 97, 110][3..]);
  }

  lemma PadIsNoLetter()
    ensures Index(PAD) == 64
  {
  }

  /** Decoding undoes encoding, for every byte string. */
  lemma {:induction false} DecodeOfEncode(s: seq<Byte>)
    ensures Decode(Encode(s)) == s
  {
    hide FourLetters, Indices, ThreeBytes, LastBytes;
    if s == [] {
    } else if |s| >= 3 {
      var group := ThreeBytes(s[0], s[1], s[2]);
      DecodeOfEncode(s[3..]);
      GroupRoundTrip(s[0], s[1], s[2]);
      assert (group + Encode(s[3..]))[..4] == group && (group + Encode(s[3..]))[4..] == Encode(s[3..]);
      assert s == [s[0], s[1], s[2]] + s[3..];
    } else {
      LastRoundTrip(s);
      assert LastBytes(s)[..4] == LastBytes(s);
    }
  }

  lemma {:induction false} EncodedLength(s: seq<Byte>)
    ensures |Encode(s)| == (|s| + 2) / 3 * 4
  {
    if |s| < 3 {
    } else {
      EncodedLength(s[3..]);
    }
  }

  /** The size of the buffer the encoder allocates. */
  function EncodedSize(len: nat): (size: nat)
    ensures 0 < size
  {
    len * 4 / 3 + 4
  }

  /** The encoded text and its terminator fit the buffer; it is used up exactly when one byte is left over. */
  lemma EncodedFits(s: seq<Byte>)
    ensures |Encode(s)| + 1 <= EncodedSize(|s|)
    ensures |Encode(s)| + 1 == EncodedSize(|s|) <==> |s| % 3 == 1
  {
    hide Encode;
    EncodedLength(s);
    SizeOfGroups(|s|, |s| / 3, |s| % 3);
  }

  lemma SizeOfGroups(n: nat, k: nat, r: nat)
    requires n == 3 * k + r && r < 3
    ensures (n + 2) / 3 * 4 == 4 * k + if r == 0 then 0 else 4
    ensures EncodedSize(n) == 4 * k + 4 + r
    ensures n % 3 == r
  {
  }

  /** Encoded text has no zero byte, so it can be kept as a string. */
  lemma {:induction false} EncodedIsText(s: seq<Byte>)
    ensures 0 !in Encode(s)
  {
    hide Letter;
    if s == [] {
    } else if |s| >= 3 {
      EncodedIsText(s[3..]);
      forall k: nat | k < 64 ensures Letter(k) != 0 { LettersAreDistinct(k); }
    } else {
      forall k: nat | k < 64 ensures Letter(k) != 0 { LettersAreDistinct(k); }
    }
  }

  /** Whole groups are encoded independently of what follows. */
  lemma {:induction false} EncodeSplit(s: seq<Byte>, k: nat)
    requires 3 * k <= |s|
    ensures Encode(s) == Encode(s[..3 * k]) + Encode(s[3 * k..])
  {
    hide ThreeBytes, LastBytes;
    if k == 0 {
      assert s[..0] == [] && s[0..] == s;
    } else {
      EncodeSplit(s[3..], k - 1);
      var front := s[..3 * k];
      assert front[3..] == s[3..][..3 * (k - 1)] && s[3..][3 * (k - 1)..] == s[3 * k..];
      assert front[0] == s[0] && front[1] == s[1] && front[2] == s[2];
    }
  }

  /** A prefix of the encoded text, in whole groups, decodes to the bytes of those groups. */
  lemma DecodePrefix(s: seq<Byte>, k: nat)
    requires 4 * k <= |Encode(s)|
    ensures Decode(Encode(s)[..4 * k]) == s[..if 3 * k <= |s| then 3 * k else |s|]
  {
    EncodedLength(s);
    hide Encode, Decode;
    if 3 * k <= |s| {
      EncodeSplit(s, k);
      EncodedLength(s[..3 * k]);
      assert Encode(s)[..4 * k] == Encode(s[..3 * k]);
      DecodeOfEncode(s[..3 * k]);
    } else {
      assert Encode(s)[..4 * k] == Encode(s);
      DecodeOfEncode(s);
      assert s[..|s|] == s;
    }
  }

  lemma {:induction false} DecodeAppend(c: seq<Byte>, group: seq<Byte>)
    requires |c| % 4 == 0 && |group| == 4
    ensures Decode(c + group) == Decode(c) + FourLetters(Indices(group))
  {
    hide FourLetters, Indices;
    if c == [] {
      assert c + group == group && group[..4] == group && group[4..] == [];
    } else {
      assert (c + group)[..4] == c[..4] && (c + group)[4..] == c[4..] + group;
      DecodeAppend(c[4..], group);
    }
  }

  lemma {:induction false} DecodeIgnoresRest(c: seq<Byte>, rest: seq<Byte>)
    requires |c| % 4 == 0 && |rest| < 4
    ensures Decode(c + rest) == Decode(c)
  {
    hide FourLetters, Indices;
    if c == [] {
      assert c + rest == rest;
    } else {
      assert (c + rest)[..4] == c[..4] && (c + rest)[4..] == c[4..] + rest;
      DecodeIgnoresRest(c[4..], rest);
    }
  }

  lemma EncodeAppend(s: seq<Byte>, group: seq<Byte>)
    requires |s| % 3 == 0 && |group| <= 3
    ensures Encode(s + group) == Encode(s) + Encode(group)
  {
    assert (s + group)[..3 * (|s| / 3)] == s && (s + group)[3 * (|s| / 3)..] == group;
    hide Encode;
    EncodeSplit(s + group, |s| / 3);
  }

  // ---- The loops.

  method PutGroup(cipher: array<Byte>, at: nat, a: Byte, b: Byte, c: Byte)
    requires at + 4 <= cipher.Length
    modifies cipher
    ensures cipher[..at + 4] == old(cipher[..at]) + ThreeBytes(a, b, c)
  {
    hide Letter;
    cipher[at] := Letter(a / 4);
    cipher[at + 1] := Letter(a % 4 * 16 + b / 16);
    cipher[at + 2] := Letter(b % 16 * 4 + c / 64);
    cipher[at + 3] := Letter(c % 64);
  }

  method PutLast(cipher: array<Byte>, at: nat, last: seq<Byte>)
    requires at + 4 <= cipher.Length && (|last| == 1 || |last| == 2)
    modifies cipher
    ensures cipher[..at + 4] == old(cipher[..at]) + LastBytes(last)
  {
    hide Letter;
    cipher[at] := Letter(last[0] / 4);
    if |last| == 1 {
      cipher[at + 1] := Letter(last[0] % 4 * 16);
      cipher[at + 2] := PAD;
    } else {
      cipher[at + 1] := Letter(last[0] % 4 * 16 + last[1] / 16);
      cipher[at + 2] := Letter(last[1] % 16 * 4);
    }
    cipher[at + 3] := PAD;
  }

  /** `base64_encode`: the text and a terminating zero, in the buffer. */
  method Base64Encode(plain: seq<Byte>) returns (cipher: array<Byte>)
    ensures cipher.Length == EncodedSize(|plain|)
    ensures |Encode(plain)| < cipher.Length
    ensures cipher[..|Encode(plain)|] == Encode(plain) && cipher[|Encode(plain)|] == 0
  {
    var len := |plain|;
    cipher := new Byte[EncodedSize(len)];
    var counts: nat, c: nat := 0, 0;
    var buffer: seq<Byte> := [0, 0, 0];
    EncodeEmpty();
    hide *;
    ghost var q := 0;
    assert plain[..3 * q] == [];
    for i := 0 to len
      invariant |buffer| == 3 && counts < 3 && i == 3 * q + counts && c == 4 * q
      invariant forall j | 0 <= j < counts :: buffer[j] == plain[3 * q + j]
      invariant c < cipher.Length && cipher[..c] == Encode(plain[..3 * q])
    {
      buffer := buffer[counts := plain[i]];
      counts := counts + 1;
      if counts == 3 {
        Room(q, len);
        PutGroup(cipher, c, buffer[0], buffer[1], buffer[2]);
        NextGroup(plain, q, buffer[0], buffer[1], buffer[2]);
        c := c + 4;
        counts := 0;
        q := q + 1;
      }
    }
    if counts > 0 {
      Room(q, len);
      PutLast(cipher, c, buffer[..counts]);
      LastGroup(plain, q, buffer[..counts]);
      c := c + 4;
    }
    assert plain[..len] == plain;
    cipher[c] := 0;
  }

  lemma EncodeEmpty()
    ensures Encode([]) == []
  {
  }

  /** The buffer has room for another group. */
  lemma Room(q: nat, len: nat)
    requires 3 * q < len
    ensures 4 * q + 4 < EncodedSize(len)
  {
  }

  lemma NextGroup(plain: seq<Byte>, q: nat, a: Byte, b: Byte, c: Byte)
    requires 3 * q + 3 <= |plain| && plain[3 * q] == a && plain[3 * q + 1] == b && plain[3 * q + 2] == c
    ensures Encode(plain[..3 * (q + 1)]) == Encode(plain[..3 * q]) + ThreeBytes(a, b, c)
  {
    hide ThreeBytes, LastBytes;
    var group := [a, b, c];
    assert Encode(group) == ThreeBytes(a, b, c) + Encode([]);
    EncodeEmpty();
    hide Encode;
    assert plain[..3 * (q + 1)] == plain[..3 * q] + group;
    WholeGroups(plain, q);
    EncodeAppend(plain[..3 * q], group);
  }

  lemma LastGroup(plain: seq<Byte>, q: nat, last: seq<Byte>)
    requires 3 * q <= |plain| && last == plain[3 * q..] && 1 <= |last| <= 2
    ensures Encode(plain) == Encode(plain[..3 * q]) + LastBytes(last)
  {
    hide *;
    EncodeLast(last);
    WholeGroups(plain, q);
    EncodeAppend(plain[..3 * q], last);
  }

  lemma EncodeLast(last: seq<Byte>)
    requires 1 <= |last| <= 2
    ensures Encode(last) == LastBytes(last)
  {
    hide ThreeBytes, LastBytes;
  }

  lemma WholeGroups(s: seq<Byte>, q: nat)
    requires 3 * q <= |s|
    ensures |s[..3 * q]| % 3 == 0 && s == s[..3 * q] + s[3 * q..]
  {
  }

  /** The scan of the letter table. */
  method Scan(c: Byte) returns (k: nat)
    ensures k == Index(c)
  {
    k := 0;
    while k < 64 && Letter(k) != c
      invariant k <= 64 && forall j: nat | j < k :: Letter(j) != c
    {
      k := k + 1;
    }
    if k < 64 {
      LettersAreDistinct(k);
    }
  }

  method PutLetters(plain: array<Byte>, at: nat, k: seq<nat>) returns (p: nat)
    requires |k| == 4 && (forall i | 0 <= i < 4 :: k[i] <= 64) && at + 3 <= plain.Length
    modifies plain
    ensures p == at + |FourLetters(k)| && plain[..p] == old(plain[..at]) + FourLetters(k)
  {
    p := at;
    plain[p] := (k[0] * 4 + k[1] / 16) % 256;
    p := p + 1;
    if k[2] != 64 {
      plain[p] := (k[1] * 16 + k[2] / 4) % 256;
      p := p + 1;
    }
    if k[3] != 64 {
      plain[p] := (k[2] * 64 + k[3]) % 256;
      p := p + 1;
    }
  }

  /** `base64_decode`: none for an empty text; else the bytes and a terminating zero, in the buffer. */
  method Base64Decode(cipher: seq<Byte>) returns (plain: array?<Byte>)
    ensures plain == null <==> cipher == []
    ensures plain != null ==>
      (plain.Length == |cipher| && |Decode(cipher)| < plain.Length
       && plain[..|Decode(cipher)|] == Decode(cipher) && plain[|Decode(cipher)|] == 0)
  {
    var len := |cipher|;
    if len < 1 {
      return null;
    }
    plain := new Byte[len];
    var counts: nat, p: nat := 0, 0;
    var buffer: seq<nat> := [0, 0, 0, 0];
    DecodeEmpty();
    hide *;
    ghost var q, text: seq<Byte> := 0, [];
    NoGroup(buffer, cipher, q);
    assert cipher[..4 * q] == [];
    for i := 0 to len
      invariant |buffer| == 4 && counts < 4 && i == 4 * q + counts && p <= 3 * q
      invariant Group(buffer, cipher, q, counts)
      invariant p < len && plain[..p] == text && text == Decode(cipher[..4 * q])
    {
      var k := Scan(cipher[i]);
      GroupNext(buffer, cipher, q, counts, k);
      buffer := buffer[counts := k];
      counts := counts + 1;
      if counts == 4 {
        GroupIsWhole(buffer, cipher, q);
        NextLetters(cipher, q, buffer);
        p := PutLetters(plain, p, buffer);
        text := text + FourLetters(buffer);
        counts := 0;
        q := q + 1;
        NoGroup(buffer, cipher, q);
      }
    }
    DecodeTail(cipher, q);
    assert |text| == p;
    plain[p] := 0;
    assert plain[..p] == text;
  }

  lemma DecodeEmpty()
    ensures Decode([]) == []
  {
  }

  /** The buffer holds the first `n` indices of group `q`. */
  ghost predicate Group(buffer: seq<nat>, cipher: seq<Byte>, q: nat, n: nat) {
    |buffer| == 4 && n <= 4 && 4 * q + n <= |cipher| && forall j | 0 <= j < n :: buffer[j] == Index(cipher[4 * q + j])
  }

  lemma NoGroup(buffer: seq<nat>, cipher: seq<Byte>, q: nat)
    requires |buffer| == 4 && 4 * q <= |cipher|
    ensures Group(buffer, cipher, q, 0)
  {
  }

  lemma GroupNext(buffer: seq<nat>, cipher: seq<Byte>, q: nat, n: nat, k: nat)
    requires Group(buffer, cipher, q, n) && n < 4 && 4 * q + n < |cipher| && k == Index(cipher[4 * q + n])
    ensures n < |buffer| && Group(buffer[n := k], cipher, q, n + 1)
  {
    hide Index;
  }

  lemma GroupIsWhole(buffer: seq<nat>, cipher: seq<Byte>, q: nat)
    requires Group(buffer, cipher, q, 4)
    ensures 4 * q + 4 <= |cipher| && |buffer| == 4 && forall j | 0 <= j < 4 :: buffer[j] == Index(cipher[4 * q + j])
  {
    hide Index;
  }

  lemma NextLetters(cipher: seq<Byte>, q: nat, k: seq<nat>)
    requires 4 * q + 4 <= |cipher| && |k| == 4 && forall j | 0 <= j < 4 :: k[j] == Index(cipher[4 * q + j])
    ensures (forall j | 0 <= j < 4 :: k[j] <= 64)
    ensures Decode(cipher[..4 * (q + 1)]) == Decode(cipher[..4 * q]) + FourLetters(k)
  {
    var group := cipher[4 * q..4 * q + 4];
    hide FourLetters, Decode, Index;
    assert cipher[..4 * (q + 1)] == cipher[..4 * q] + group;
    assert Indices(group) == k;
    DecodeAppend(cipher[..4 * q], group);
  }

  lemma DecodeTail(cipher: seq<Byte>, q: nat)
    requires 4 * q <= |cipher| < 4 * q + 4
    ensures Decode(cipher) == Decode(cipher[..4 * q])
  {
    hide Decode;
    var front, rest := cipher[..4 * q], cipher[4 * q..];
    assert |front| % 4 == 0;
    assert cipher == front + rest;
    DecodeIgnoresRest(front, rest);
  }
}
