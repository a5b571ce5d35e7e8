/**
 The cron expression parser. Names of months and days are taken as already replaced by numbers.
 Every field text denotes a set of numbers; parsing computes exactly that set.
 */
module CronParser {
  import opened Gregorian
  import opened CronExpr
  import opened Wrappers

  const MAX_STR_LEN := 256
  const INT_MAX := 0x7fff_ffff

  predicate IsSpace(c: char) {
    c == ' ' || c == '\t' || c == '\n' || c == '\r' || c as int == 11 || c as int == 12
  }

  // ---- Splitting.

  /** The text without white space. */
  function Squeeze(s: string): (r: string) {
    if s == "" then "" else (if IsSpace(s[0]) then "" else [s[0]]) + Squeeze(s[1..])
  }

  function IndexOf(s: string, del: char): (i: nat)
    ensures i <= |s| && (i < |s| ==> s[i] == del) && del !in s[..i]
  {
    if s == "" || s[0] == del then 0 else 1 + IndexOf(s[1..], del)
  }

  /** The stretches between delimiters, squeezed, the empty ones dropped. */
  function Pieces(s: string, del: char): (r: seq<string>)
    decreases |s|
  {
    var i := IndexOf(s, del);
    var first := if Squeeze(s[..i]) == "" then [] else [Squeeze(s[..i])];
    first + if i < |s| then Pieces(s[i + 1..], del) else []
  }

  /** The pieces of `s` when `acc` was collected before it. */
  function Scan(s: string, del: char, acc: string): seq<string> {
    if s == "" then (if acc == "" then [] else [acc])
    else if s[0] == del then (if acc == "" then [] else [acc]) + Scan(s[1..], del, "")
    else if IsSpace(s[0]) then Scan(s[1..], del, acc)
    else Scan(s[1..], del, acc + [s[0]])
  }

  /** What `acc` and the text up to the next delimiter make, and the pieces after it. */
  function Collected(s: string, del: char, acc: string): seq<string> {
    var i := IndexOf(s, del);
    var first := acc + Squeeze(s[..i]);
    (if first == "" then [] else [first]) + if i < |s| then Pieces(s[i + 1..], del) else []
  }

  lemma {:induction false} ScanIsPieces(s: string, del: char, acc: string)
    ensures Scan(s, del, acc) == Collected(s, del, acc)
    decreases |s|
  {
    hide IsSpace, Collected, Pieces;
    if s == "" {
      CollectedAtEnd(del, acc);
    } else if s[0] == del {
      ScanIsPieces(s[1..], del, "");
      CollectedAtDelimiter(s, del, acc);
    } else {
      var acc' := if IsSpace(s[0]) then acc else acc + [s[0]];
      ScanIsPieces(s[1..], del, acc');
      CollectedInside(s, del, acc);
    }
  }

  lemma CollectedAtEnd(del: char, acc: string)
    ensures Collected("", del, acc) == if acc == "" then [] else [acc]
  {
    assert acc + Squeeze(""[..0]) == acc;
  }

  lemma CollectedAtDelimiter(s: string, del: char, acc: string)
    requires s != "" && s[0] == del
    ensures Collected(s, del, acc) == (if acc == "" then [] else [acc]) + Collected(s[1..], del, "")
  {
    hide IsSpace;
    assert acc + Squeeze(s[..0]) == acc;
    NoPrefix(s[1..], del);
  }

  lemma CollectedInside(s: string, del: char, acc: string)
    requires s != "" && s[0] != del
    ensures Collected(s, del, acc) == Collected(s[1..], del, if IsSpace(s[0]) then acc else acc + [s[0]])
  {
    hide IsSpace, Pieces;
    var i := IndexOf(s, del);
    assert s[..i][1..] == s[1..][..i - 1];
    if i < |s| {
      assert s[1..][i..] == s[i + 1..];
    }
    var acc' := if IsSpace(s[0]) then acc else acc + [s[0]];
    assert acc + Squeeze(s[..i]) == acc' + Squeeze(s[1..][..i - 1]);
  }

  lemma NoPrefix(s: string, del: char)
    ensures var i := IndexOf(s, del); "" + Squeeze(s[..i]) == Squeeze(s[..i])
  {
  }

  lemma PiecesByScan(s: string, del: char)
    ensures Scan(s, del, "") == Pieces(s, del)
  {
    ScanIsPieces(s, del, "");
    NoPrefix(s, del);
  }

  lemma {:induction false} PiecesNonEmpty(s: string, del: char)
    ensures forall p | p in Pieces(s, del) :: p != ""
    decreases |s|
  {
    var i := IndexOf(s, del);
    if i < |s| {
      PiecesNonEmpty(s[i + 1..], del);
    }
  }

  /** The first pass of `split_str`. */
  method CountPieces(str: string, del: char) returns (len: nat)
    ensures len == |Pieces(str, del)|
  {
    hide Pieces, IsSpace;
    PiecesByScan(str, del);
    len := 0;
    var accum, i := 0, 0;
    ghost var acc := "";
    while i < |str|
      invariant 0 <= i <= |str| && accum == |acc|
      invariant len + |Scan(str[i..], del, acc)| == |Scan(str, del, "")|
    {
      assert str[i..][1..] == str[i + 1..];
      if str[i] == del {
        if accum > 0 {
          len, accum, acc := len + 1, 0, "";
        }
      } else if !IsSpace(str[i]) {
        accum, acc := accum + 1, acc + [str[i]];
      }
      i := i + 1;
    }
    if accum > 0 {
      len := len + 1;
    }
  }

  /** The second pass of `split_str`, into an array with room for `len` pieces: it is filled exactly. */
  method StorePieces(str: string, del: char, len: nat) returns (res: array<string>)
    requires len == |Pieces(str, del)|
    ensures res[..] == Pieces(str, del)
  {
    hide Pieces, IsSpace;
    PiecesByScan(str, del);
    res := new string[len];
    var buf, ri, i := "", 0, 0;
    while i < |str|
      invariant 0 <= i <= |str| && 0 <= ri <= len
      invariant res[..ri] + Scan(str[i..], del, buf) == Pieces(str, del)
    {
      ScanLength(str[i..], del, buf);
      assert str[i..][1..] == str[i + 1..];
      if str[i] == del {
        if |buf| > 0 {
          res[ri] := buf;
          ri, buf := ri + 1, "";
        }
      } else if !IsSpace(str[i]) {
        buf := buf + [str[i]];
      }
      i := i + 1;
    }
    assert str[i..] == "";
    if |buf| > 0 {
      res[ri] := buf;
      ri := ri + 1;
    }
    assert res[..ri] == Pieces(str, del);
    assert res[..ri] == res[..];
  }

  /**
   `split_str`: one pass counts the pieces, the result is allocated, a second pass stores them. Too
   long a text, or one without pieces, gives none.
   */
  method SplitStr(str: string, del: char) returns (r: Option<seq<string>>)
    ensures r == if |str| < 256 && Pieces(str, del) != [] then Some(Pieces(str, del)) else None
  {
    hide Pieces;
    if |str| >= MAX_STR_LEN {
      return None;
    }
    var len := CountPieces(str, del);
    if len == 0 {
      return None;
    }
    var res := StorePieces(str, del, len);
    r := Some(res[..]);
  }

  lemma ScanLength(s: string, del: char, acc: string)
    requires s != ""
    ensures s[0] == del && acc != "" ==> 1 <= |Scan(s, del, acc)|
  {
  }

  // ---- Numbers.

  predicate IsDigit(c: char) { '0' <= c <= '9' }

  function Decimal(s: string): nat
    requires forall c | c in s :: IsDigit(c)
  {
    assert s != "" ==> IsDigit(s[|s| - 1]);
    if s == "" then 0 else 10 * Decimal(s[..|s| - 1]) + (s[|s| - 1] as int - '0' as int)
  }

  /** `strtol` in base 10 on a text without white space; none where `parse_uint` reports an error. */
  function ParseUint(s: string): Option<nat> {
    if s == "" then Some(0)
    else
      var signed := s[0] == '+' || s[0] == '-';
      var digits := if signed then s[1..] else s;
      if digits == "" || exists c | c in digits :: !IsDigit(c) then None
      else
        var v := Decimal(digits);
        if v > INT_MAX || (s[0] == '-' && v != 0) then None else Some(v)
  }

  // ---- The meaning of a field.

  /** `*`, n, or a-b, within [min, max). */
  function RangeOf(field: string, min: nat, max: nat): Option<(nat, nat)>
    requires min < max
  {
    var r: Option<(nat, nat)> :=
      if field == "*" then Some((min, max - 1 as nat))
      else if '-' !in field then
        match ParseUint(field) case Some(v) => Some((v, v)) case None => None
      else if |field| < MAX_STR_LEN && |Pieces(field, '-')| == 2 then
        match (ParseUint(Pieces(field, '-')[0]), ParseUint(Pieces(field, '-')[1]))
        case (Some(a), Some(b)) => Some((a, b))
        case _ => None
      else None;
    match r
    case Some((a, b)) => if min <= a <= b < max then r else None
    case None => None
  }

  predicate Hits(x: int, a: int, k: nat)
    requires 0 < k
  {
    (x - a) % k == 0
  }

  /** Every `k`-th number from `a` up to `b`. */
  function Every(a: int, b: int, k: nat): (r: set<int>)
    requires 0 < k
    ensures k == 1 ==> forall x :: x in r <==> a <= x <= b
  {
    set x | a <= x <= b && Hits(x, a, k)
  }

  /** The numbers an item stands for: a range, or every k-th number from its start. */
  function ItemBits(item: string, min: nat, max: nat): Option<set<int>>
    requires min < max
  {
    if '/' !in item then
      match RangeOf(item, min, max)
      case Some((a, b)) => Some(Every(a, b, 1))
      case None => None
    else if |item| < MAX_STR_LEN && |Pieces(item, '/')| == 2 then
      var start, step := Pieces(item, '/')[0], Pieces(item, '/')[1];
      match (RangeOf(start, min, max), ParseUint(step))
      case (Some((a, b)), Some(k)) =>
        var end := if '-' in start then b else max - 1;
        if k == 0 then None else Some(Every(a, end, k))
      case _ => None
    else None
  }

  /** The union over the items; none when an item is wrong. */
  function ItemsBits(items: seq<string>, min: nat, max: nat): Option<set<int>>
    requires min < max
  {
    if items == [] then Some({})
    else match (ItemsBits(items[..|items| - 1], min, max), ItemBits(items[|items| - 1], min, max))
      case (Some(a), Some(b)) => Some(a + b)
      case _ => None
  }

  /** What a field means: the comma-separated items, at least one. */
  function FieldBits(value: string, min: nat, max: nat): Option<set<int>>
    requires min < max
  {
    if |value| < MAX_STR_LEN && Pieces(value, ',') != [] then ItemsBits(Pieces(value, ','), min, max) else None
  }

  method GetRange(field: string, min: nat, max: nat) returns (r: Option<(nat, nat)>)
    requires min < max
    ensures r == RangeOf(field, min, max)
  {
    var lo, hi := 0, 0;
    if |field| == 1 && field[0] == '*' {
      lo, hi := min, max - 1;
    } else if '-' !in field {
      var v := ParseUint(field);
      if v.None? {
        return None;
      }
      lo, hi := v.value, v.value;
    } else {
      var parts := SplitStr(field, '-');
      if parts.None? || |parts.value| != 2 {
        return None;
      }
      var a, b := ParseUint(parts.value[0]), ParseUint(parts.value[1]);
      if a.None? || b.None? {
        return None;
      }
      lo, hi := a.value, b.value;
    }
    if lo >= max || hi >= max || lo < min || hi < min || lo > hi {
      return None;
    }
    r := Some((lo, hi));
  }

  lemma NextHit(i: int, a: int, k: nat)
    requires 0 < k && Hits(i, a, k)
    ensures Hits(i + k, a, k) && forall x | i < x < i + k :: !Hits(x, a, k)
  {
    var q := (i - a) / k;
    assert i - a == k * q;
    assert k * (q + 1) == k * q + k;
    Residue(i + k - a, k, q + 1, k * (q + 1));
    forall x | i < x < i + k ensures !Hits(x, a, k) {
      Residue(x - a, k, q, k * q);
    }
  }

  /** Sets every `delta`-th bit from `lo` to `hi`. */
  method SetEvery(target: set<int>, lo: nat, hi: int, delta: nat) returns (r: set<int>)
    requires 0 < delta
    ensures r == target + Every(lo, hi, delta)
  {
    hide Hits;
    r := target;
    var i := lo;
    HitsStart(lo, delta);
    while i <= hi
      invariant lo <= i && Hits(i, lo, delta)
      invariant r == target + set x | lo <= x <= hi && x < i && Hits(x, lo, delta)
      decreases hi - i
    {
      NextHit(i, lo, delta);
      r := r + {i};
      i := i + delta;
    }
  }

  lemma HitsStart(a: int, k: nat)
    requires 0 < k
    ensures Hits(a, a, k)
  {
  }

  /** Sets the bits of one item: a range, or an incrementer. */
  method SetItemHits(item: string, target: set<int>, min: nat, max: nat) returns (r: set<int>, ok: bool)
    requires min < max
    ensures ok == ItemBits(item, min, max).Some?
    ensures ok ==> r == target + ItemBits(item, min, max).value
  {
    hide RangeOf, Every, Pieces, ParseUint;
    r, ok := target, false;
    if '/' !in item {
      var range := GetRange(item, min, max);
      if range.None? {
        return;
      }
      r := SetEvery(r, range.value.0, range.value.1, 1);
    } else {
      var split := SplitStr(item, '/');
      if split.None? || |split.value| != 2 {
        return;
      }
      var range := GetRange(split.value[0], min, max);
      if range.None? {
        return;
      }
      var end := range.value.1;
      if '-' !in split.value[0] {
        end := max - 1;
      }
      var delta := ParseUint(split.value[1]);
      if delta.None? || delta.value == 0 {
        return;
      }
      r := SetEvery(r, range.value.0, end, delta.value);
    }
    ok := true;
  }

  /** Sets the bits of all items; stops at the first wrong one. */
  method SetNumberHits(value: string, target: set<int>, min: nat, max: nat) returns (r: set<int>, ok: bool)
    requires min < max
    ensures ok == FieldBits(value, min, max).Some?
    ensures ok ==> r == target + FieldBits(value, min, max).value
    ensures ok && target == {} ==> r == FieldBits(value, min, max).value
  {
    hide ItemBits, ItemsBits, Pieces;
    r, ok := target, false;
    var fields := SplitStr(value, ',');
    if fields.None? {
      return;
    }
    var items := fields.value;
    NoItems(min, max);
    assert items[..0] == [];
    var i := 0;
    while i < |items|
      invariant 0 <= i <= |items|
      invariant ItemsBits(items[..i], min, max).Some? && r == target + ItemsBits(items[..i], min, max).value
    {
      if ItemBits(items[i], min, max).None? {
        ItemsFail(items, i, min, max);
      } else {
        ItemsStep(items, i, min, max);
      }
      r, ok := SetItemHits(items[i], r, min, max);
      if !ok {
        return;
      }
      i := i + 1;
    }
    assert items[..i] == items;
    ok := true;
  }

  lemma NoItems(min: nat, max: nat)
    requires min < max
    ensures ItemsBits([], min, max) == Some({})
  {
  }

  lemma ItemsStep(items: seq<string>, i: nat, min: nat, max: nat)
    requires min < max && i < |items| && ItemsBits(items[..i], min, max).Some? && ItemBits(items[i], min, max).Some?
    ensures ItemsBits(items[..i + 1], min, max)
      == Some(ItemsBits(items[..i], min, max).value + ItemBits(items[i], min, max).value)
  {
    hide ItemBits;
    assert items[..i + 1][..i] == items[..i];
  }

  lemma {:induction false} ItemsFail(items: seq<string>, i: nat, min: nat, max: nat)
    requires min < max && i < |items| && ItemBits(items[i], min, max).None?
    ensures ItemsBits(items, min, max).None?
    decreases |items|
  {
    if i == |items| - 1 {
    } else {
      assert items[..|items| - 1][i] == items[i];
      ItemsFail(items[..|items| - 1], i, min, max);
    }
  }

  /** A field that parses is the union of its items, whatever their order, and is not empty. */
  lemma {:induction false} FieldIsUnion(items: seq<string>, min: nat, max: nat, x: int)
    requires min < max && ItemsBits(items, min, max).Some?
    ensures forall i | 0 <= i < |items| :: ItemBits(items[i], min, max).Some?
    ensures x in ItemsBits(items, min, max).value
      <==> exists i | 0 <= i < |items| :: x in ItemBits(items[i], min, max).value
    decreases |items|
  {
    hide ItemBits;
    if items == [] {
    } else {
      var n := |items| - 1;
      FieldIsUnion(items[..n], min, max, x);
      forall i | 0 <= i < n ensures items[..n][i] == items[i] {
      }
    }
  }

  lemma ItemBitsFit(item: string, min: nat, max: nat)
    requires min < max && ItemBits(item, min, max).Some?
    ensures Fits(ItemBits(item, min, max).value, min, max)
  {
    var bits := ItemBits(item, min, max).value;
    var head := if '/' in item then Pieces(item, '/')[0] else item;
    var a := RangeOf(head, min, max).value.0;
    hide ParseUint, Pieces;
    assert a in bits by {
      if '/' in item {
        HitsStart(a, ParseUint(Pieces(item, '/')[1]).value);
      }
    }
  }

  lemma {:induction false} ItemsBitsFit(items: seq<string>, min: nat, max: nat)
    requires min < max && items != [] && ItemsBits(items, min, max).Some?
    ensures Fits(ItemsBits(items, min, max).value, min, max)
    decreases |items|
  {
    hide ItemBits;
    var n := |items| - 1;
    ItemBitsFit(items[n], min, max);
    if n == 0 {
    } else {
      ItemsBitsFit(items[..n], min, max);
    }
  }

  // ---- The six fields.

  /** Months are counted from 1 in the text and from 0 in `tm_mon`. */
  function FromZero(months: set<int>): set<int> {
    set m | m in months :: m - 1
  }

  /** Sunday is 0 or 7 in the text and 0 in `tm_wday`. */
  function FoldSunday(days: set<int>): set<int> {
    if 7 in days then days - {7} + {0} else days
  }

  function AnyMark(field: string): string {
    if field == "?" then "*" else field
  }

  /** Membership when the months below `i` have been moved down by one. */
  predicate MovedDown(months: set<int>, i: int, x: int) {
    (x + 1 in months && x + 1 < i) || (x in months && i <= x)
  }

  ghost predicate Rotated(months: set<int>, i: int, r: set<int>) {
    forall x :: x in r <==> MovedDown(months, i, x)
  }

  function RotateOne(r: set<int>, i: int): set<int> {
    if i in r then r + {i - 1} - {i} else r
  }

  lemma RotateStep(months: set<int>, i: int, r: set<int>)
    requires Rotated(months, i, r)
    ensures Rotated(months, i + 1, RotateOne(r, i))
  {
    assert MovedDown(months, i, i) <==> i in months;
    assert i in r <==> i in months;
  }

  lemma NoneRotated(months: set<int>)
    requires Fits(months, 1, 13)
    ensures Rotated(months, 1, months)
  {
  }

  lemma AllRotated(months: set<int>, r: set<int>)
    requires Fits(months, 1, 13) && Rotated(months, 13, r)
    ensures r == FromZero(months)
  {
    forall x ensures x in r <==> x in FromZero(months) {
      assert x in r <==> MovedDown(months, 13, x);
      assert x + 1 in months ==> (x + 1) - 1 in FromZero(months);
    }
  }

  /** Moves every bit from 1 to 12 down by one, in place. */
  method RotateMonths(months: set<int>) returns (r: set<int>)
    requires Fits(months, 1, 13)
    ensures r == FromZero(months)
  {
    hide Rotated, Fits, FromZero;
    NoneRotated(months);
    r := months;
    var i := 1;
    while i <= 12
      invariant 1 <= i <= 13 && Rotated(months, i, r)
    {
      RotateStep(months, i, r);
      if i in r {
        r := r + {i - 1};
        r := r - {i};
      }
      i := i + 1;
    }
    AllRotated(months, r);
  }

  method SetMonths(value: string) returns (r: set<int>, ok: bool)
    ensures ok == FieldBits(value, 1, 13).Some?
    ensures ok ==> r == FromZero(FieldBits(value, 1, 13).value)
  {
    hide FieldBits, FromZero, Fits;
    r, ok := SetNumberHits(value, {}, 1, 13);
    if ok {
      FieldBitsFit(value, 1, 13);
      r := RotateMonths(r);
    }
  }

  method SetDaysOfWeek(field: string) returns (r: set<int>, ok: bool)
    ensures ok == FieldBits(AnyMark(field), 0, 8).Some?
    ensures ok ==> r == FoldSunday(FieldBits(AnyMark(field), 0, 8).value)
  {
    hide ItemsBits, Pieces;
    r, ok := SetNumberHits(AnyMark(field), {}, 0, 8);
    if 7 in r {
      r := r + {0};
      r := r - {7};
    }
  }

  method SetDaysOfMonth(field: string) returns (r: set<int>, ok: bool)
    ensures ok == FieldBits(AnyMark(field), 1, 32).Some?
    ensures ok ==> r == FieldBits(AnyMark(field), 1, 32).value
  {
    hide ItemsBits, Pieces;
    r, ok := SetNumberHits(AnyMark(field), {}, 1, 32);
  }

  /** What an expression of six fields means. */
  function Meaning(fields: seq<string>): Option<Expr>
    requires |fields| == 6
  {
    match (FieldBits(fields[0], 0, 60), FieldBits(fields[1], 0, 60), FieldBits(fields[2], 0, 24),
           FieldBits(AnyMark(fields[3]), 1, 32), FieldBits(fields[4], 1, 13), FieldBits(AnyMark(fields[5]), 0, 8))
    case (Some(s), Some(m), Some(h), Some(d), Some(mon), Some(w)) =>
      Some(Expr(s, m, h, d, FromZero(mon), FoldSunday(w)))
    case _ => None
  }

  /** What a whole expression means, within 255 characters. */
  function Parsed(expression: string): Option<Expr> {
    if |expression| < 256 && |Pieces(expression, ' ')| == 6 then Meaning(Pieces(expression, ' ')) else None
  }

  /**
   `cron_parse_expr`: succeeds exactly when the text has six fields that all have a meaning, and then
   yields that meaning, with no set empty and every value in the range of its field.
   */
  method CronParseExpr(expression: string) returns (r: Option<Expr>)
    ensures r == Parsed(expression)
    ensures r.Some? ==> WellFormed(r.value)
  {
    hide FieldBits, Pieces, FromZero, FoldSunday, WellFormed;
    var split := SplitStr(expression, ' ');
    if split.None? || |split.value| != 6 {
      return None;
    }
    var fields := split.value;
    var ok;
    var s, m, h, d, mon, w;
    s, ok := SetNumberHits(fields[0], {}, 0, 60);
    if !ok { return None; }
    m, ok := SetNumberHits(fields[1], {}, 0, 60);
    if !ok { return None; }
    h, ok := SetNumberHits(fields[2], {}, 0, 24);
    if !ok { return None; }
    d, ok := SetDaysOfMonth(fields[3]);
    if !ok { return None; }
    mon, ok := SetMonths(fields[4]);
    if !ok { return None; }
    w, ok := SetDaysOfWeek(fields[5]);
    if !ok { return None; }
    r := Some(Expr(s, m, h, d, mon, w));
    MeaningIsWellFormed(fields);
  }

  lemma FieldBitsFit(value: string, min: nat, max: nat)
    requires min < max && FieldBits(value, min, max).Some?
    ensures Fits(FieldBits(value, min, max).value, min, max)
  {
    hide Pieces, ItemsBits;
    ItemsBitsFit(Pieces(value, ','), min, max);
  }

  lemma FromZeroFits(months: set<int>)
    requires Fits(months, 1, 13)
    ensures Fits(FromZero(months), 0, 12)
  {
    var m :| m in months;
    assert m - 1 in FromZero(months);
  }

  lemma FoldSundayFits(days: set<int>)
    requires Fits(days, 0, 8)
    ensures Fits(FoldSunday(days), 0, 7)
  {
    var d :| d in days;
    assert (if d == 7 then 0 else d) in FoldSunday(days);
  }

  lemma MeaningIsWellFormed(fields: seq<string>)
    requires |fields| == 6 && Meaning(fields).Some?
    ensures WellFormed(Meaning(fields).value)
  {
    hide FieldBits, FromZero, FoldSunday, Fits;
    FieldBitsFit(fields[0], 0, 60);
    FieldBitsFit(fields[1], 0, 60);
    FieldBitsFit(fields[2], 0, 24);
    FieldBitsFit(AnyMark(fields[3]), 1, 32);
    FieldBitsFit(fields[4], 1, 13);
    FieldBitsFit(AnyMark(fields[5]), 0, 8);
    FromZeroFits(FieldBits(fields[4], 1, 13).value);
    FoldSundayFits(FieldBits(AnyMark(fields[5]), 0, 8).value);
  }

  lemma FromZeroMember(months: set<int>, m: int)
    ensures m in FromZero(months) <==> m + 1 in months
  {
    assert m + 1 in months ==> (m + 1) - 1 in FromZero(months);
  }

  lemma FoldSundayMember(days: set<int>, w: int)
    requires 0 <= w < 7
    ensures w in FoldSunday(days) <==> w in days || (w == 0 && 7 in days)
  {
  }

  /** Which field is which: an instant matches the meaning when each of its parts is in its own field. */
  lemma MeaningMatches(fields: seq<string>, t: int)
    requires |fields| == 6 && Meaning(fields).Some?
    ensures FieldBits(fields[0], 0, 60).Some? && FieldBits(fields[1], 0, 60).Some? && FieldBits(fields[2], 0, 24).Some?
    ensures FieldBits(AnyMark(fields[3]), 1, 32).Some? && FieldBits(fields[4], 1, 13).Some?
    ensures FieldBits(AnyMark(fields[5]), 0, 8).Some?
    ensures var day := DayIx(t);
      var weekdays := FieldBits(AnyMark(fields[5]), 0, 8).value;
      Match(Meaning(fields).value, t) <==>
        && Second(t) in FieldBits(fields[0], 0, 60).value
        && Minute(t) in FieldBits(fields[1], 0, 60).value
        && Hour(t) in FieldBits(fields[2], 0, 24).value
        && DayOfMonth(day) in FieldBits(AnyMark(fields[3]), 1, 32).value
        && MonthOf(day) % 12 + 1 in FieldBits(fields[4], 1, 13).value
        && (Weekday(day) in weekdays || (Weekday(day) == 0 && 7 in weekdays))
  {
    var day := DayIx(t);
    DayOfMinuteIx(t);
    WeekdayRange(day);
    hide FieldBits, FromZero, FoldSunday, DayOfMonth, MonthOf, AnyMark, Weekday, DayOf;
    FromZeroMember(FieldBits(fields[4], 1, 13).value, MonthOf(day) % 12);
    FoldSundayMember(FieldBits(AnyMark(fields[5]), 0, 8).value, Weekday(day));
  }

  lemma WeekdayRange(day: int)
    ensures 0 <= Weekday(day) < 7
  {
  }

  /** `*` stands for the whole range of its field. */
  lemma StarMeansAll(min: nat, max: nat)
    requires min < max
    ensures FieldBits("*", min, max) == Some(Every(min, max - 1, 1))
  {
    hide Every;
    var s := "*";
    assert IndexOf(s, ',') == 1 by {
      assert s[1..] == "";
    }
    assert s[..1] == s && Squeeze(s) == s by {
      assert s[1..] == "" && !IsSpace('*');
    }
    assert Pieces(s, ',') == [s];
    assert ItemBits(s, min, max) == Some(Every(min, max - 1, 1));
    var items: seq<string> := [s];
    assert Pieces(s, ',') == items && items[..|items| - 1] == [];
    var none: set<int> := {};
    assert none + Every(min, max - 1, 1) == Every(min, max - 1, 1);
    assert ItemsBits(items, min, max) == Some(none + Every(min, max - 1, 1));
  }

  /** A star for the day of month or the day of week leaves that field unrestricted. */
  lemma StarDayIsOneStar(fields: seq<string>)
    requires |fields| == 6 && Meaning(fields).Some?
    requires AnyMark(fields[3]) == "*" || AnyMark(fields[5]) == "*"
    ensures OneStar(Meaning(fields).value)
  {
    hide FieldBits, FromZero, Fits;
    MeaningIsWellFormed(fields);
    StarMeansAll(1, 32);
    StarMeansAll(0, 8);
  }
}
