/**
 The language of cron expressions, from the side of the writer: fields are lists of `*`, numbers and ranges, each
 perhaps with a step. What the parser makes of their text is what they stand for, and the instants that the parsed
 expression matches are those of its six fields.
 */
module CronGrammar {
  import opened Gregorian
  import opened Wrappers
  import opened CronExpr
  import opened CronParser

  // ---- Texts.

  function Digit(d: nat): (c: char)
    requires d < 10
    ensures IsDigit(c)
  {
    "0123456789"[d]
  }

  /** The decimal digits of a number. */
  function Digits(n: nat): (s: string)
    ensures s != "" && forall c | c in s :: IsDigit(c)
  {
    if n < 10 then [Digit(n)] else Digits(n / 10) + [Digit(n % 10)]
  }

  datatype Span = All | One(n: nat) | Between(a: nat, b: nat)

  datatype Item = Item(span: Span, step: Option<nat>)

  function SpanText(s: Span): (r: string)
    ensures r != ""
  {
    match s
    case All => "*"
    case One(n) => Digits(n)
    case Between(a, b) => Joined([Digits(a), Digits(b)], '-')
  }

  function ItemText(i: Item): (r: string)
    ensures r != ""
  {
    match i.step
    case None => SpanText(i.span)
    case Some(k) => Joined([SpanText(i.span), Digits(k)], '/')
  }

  function ItemTexts(items: seq<Item>): (r: seq<string>)
    ensures |r| == |items| && forall i | 0 <= i < |items| :: r[i] == ItemText(items[i])
  {
    seq(|items|, i requires 0 <= i < |items| => ItemText(items[i]))
  }

  function FieldText(items: seq<Item>): string {
    Joined(ItemTexts(items), ',')
  }

  function Joined(parts: seq<string>, del: char): string {
    if parts == [] then ""
    else if |parts| == 1 then parts[0]
    else parts[0] + [del] + Joined(parts[1..], del)
  }

  // ---- What they stand for.

  /** The first and the last number: with a step a single number stands for all from there on. */
  function Low(i: Item, min: nat): nat {
    match i.span
    case All => min
    case One(n) => n
    case Between(a, _) => a
  }

  function High(i: Item, max: nat): int {
    match i.span
    case All => max - 1
    case One(n) => if i.step.Some? then max - 1 else n
    case Between(_, b) => b
  }

  /** A number is one of the item's. */
  predicate Holds(i: Item, min: nat, max: nat, x: int) {
    && Low(i, min) <= x <= High(i, max)
    && (i.step.Some? && i.step.value != 0 ==> exists j | 0 <= j <= x :: x == Low(i, min) + j * i.step.value)
  }

  /** The item stands for something: its numbers lie within the limits and in order, and its step is not 0. */
  predicate Proper(i: Item, min: nat, max: nat) {
    && min <= Low(i, min) && Low(i, min) <= High(i, max) < max
    && (i.span.One? ==> i.span.n < max)
    && i.step != Some(0) && (i.step.Some? ==> i.step.value <= 2147483647)
  }

  // ---- Numbers are read back.

  lemma DecimalAppend(s: string, c: char)
    requires (forall d | d in s :: IsDigit(d)) && IsDigit(c)
    ensures Decimal(s + [c]) == 10 * Decimal(s) + (c as int - '0' as int)
  {
    assert (s + [c])[..|s|] == s;
  }

  lemma DigitIs(d: nat)
    requires d < 10
    ensures Digit(d) as int - '0' as int == d
  {
  }

  lemma {:induction false} DigitsRead(n: nat)
    ensures Decimal(Digits(n)) == n
  {
    if n < 10 {
      DigitIs(n);
      DecimalAppend("", Digit(n));
      assert "" + [Digit(n)] == Digits(n);
    } else {
      DigitsRead(n / 10);
      DigitIs(n % 10);
      DecimalAppend(Digits(n / 10), Digit(n % 10));
    }
  }

  /** A number is read back when it fits the parser's integers. */
  lemma NumberRead(n: nat)
    ensures ParseUint(Digits(n)) == if n <= 2147483647 then Some(n) else None
  {
    DigitsRead(n);
    var s := Digits(n);
    assert IsDigit(s[0]);
  }

  // ---- Lists are taken apart.

  /** A part of a text: not empty, and without the delimiter and white space. */
  predicate Solid(s: string, del: char) {
    s != "" && del !in s && forall c | c in s :: !IsSpace(c)
  }

  lemma {:induction false} NothingToSqueeze(s: string)
    requires forall c | c in s :: !IsSpace(c)
    ensures Squeeze(s) == s
  {
    if s == "" {
    } else {
      assert s[0] in s;
      NothingToSqueeze(s[1..]);
      assert s == [s[0]] + s[1..];
    }
  }

  lemma FirstDelimiter(s: string, del: char, i: nat)
    requires i <= |s| && (i < |s| ==> s[i] == del) && del !in s[..i]
    ensures IndexOf(s, del) == i
  {
    var j := IndexOf(s, del);
    assert forall k | 0 <= k < i :: s[..i][k] != del;
    assert forall k | 0 <= k < j :: s[..j][k] != del;
  }

  lemma LastPart(p: string, del: char)
    requires Solid(p, del)
    ensures Pieces(p, del) == [p]
  {
    NothingToSqueeze(p);
    assert p[..|p|] == p;
    FirstDelimiter(p, del, |p|);
    hide Squeeze;
  }

  lemma FirstPart(s: string, p: string, rest: string, del: char)
    requires Solid(p, del) && s == p + [del] + rest
    ensures Pieces(s, del) == [p] + Pieces(rest, del)
  {
    NothingToSqueeze(p);
    assert s[..|p|] == p && s[|p| + 1..] == rest;
    FirstDelimiter(s, del, |p|);
    hide Squeeze;
  }

  /** Joined parts are taken apart into the same parts. */
  lemma {:induction false} JoinedApart(parts: seq<string>, del: char)
    requires parts != [] && forall p | p in parts :: Solid(p, del)
    ensures Pieces(Joined(parts, del), del) == parts
    decreases |parts|
  {
    hide Solid, Pieces;
    var p, rest := parts[0], parts[1..];
    assert parts == [p] + rest;
    if rest == [] {
      LastPart(p, del);
    } else {
      assert forall q | q in rest :: q in parts;
      JoinedApart(rest, del);
      FirstPart(Joined(parts, del), p, Joined(rest, del), del);
    }
  }

  lemma DigitsAreSolid(n: nat, del: char)
    requires !IsDigit(del)
    ensures Solid(Digits(n), del)
  {
  }

  lemma TwoParts(a: string, b: string, del: char)
    requires Solid(a, del) && Solid(b, del)
    ensures Pieces(Joined([a, b], del), del) == [a, b] && Joined([a, b], del) == a + [del] + b
  {
    JoinedApart([a, b], del);
    assert [a, b][1..] == [b];
  }

  // ---- Items are read back.

  lemma TwoDigits(a: nat, b: nat)
    ensures Pieces(Joined([Digits(a), Digits(b)], '-'), '-') == [Digits(a), Digits(b)]
    ensures Joined([Digits(a), Digits(b)], '-') == Digits(a) + "-" + Digits(b)
  {
    DigitsAreSolid(a, '-');
    DigitsAreSolid(b, '-');
    TwoParts(Digits(a), Digits(b), '-');
  }

  lemma BetweenIsSolid(a: nat, b: nat, del: char)
    requires !IsDigit(del) && del != '-'
    ensures Solid(SpanText(Between(a, b)), del)
    ensures '-' in SpanText(Between(a, b)) && SpanText(Between(a, b)) != "*"
  {
    TwoDigits(a, b);
    DigitsAreSolid(a, del);
    DigitsAreSolid(b, del);
    assert SpanText(Between(a, b)) == Digits(a) + "-" + Digits(b);
    hide Digits, SpanText;
    assert (Digits(a) + "-" + Digits(b))[|Digits(a)|] == '-';
  }

  lemma SpanIsSolid(s: Span)
    ensures Solid(SpanText(s), ',') && Solid(SpanText(s), '/') && Solid(SpanText(s), ' ')
    ensures '-' in SpanText(s) <==> s.Between?
    ensures SpanText(s) == "*" <==> s.All?
  {
    match s
    case All =>
    case One(n) =>
      assert IsDigit(Digits(n)[0]);
      hide Digits;
    case Between(a, b) =>
      BetweenIsSolid(a, b, ',');
      BetweenIsSolid(a, b, '/');
      BetweenIsSolid(a, b, ' ');
      hide SpanText;
  }

  lemma SpanRead(s: Span, min: nat, max: nat)
    requires min < max <= 100 && |SpanText(s)| < 256
    ensures match s
      case All => RangeOf(SpanText(s), min, max) == Some((min, max - 1))
      case One(n) => RangeOf(SpanText(s), min, max) == if min <= n < max then Some((n, n)) else None
      case Between(a, b) => RangeOf(SpanText(s), min, max) == if min <= a <= b < max then Some((a, b)) else None
  {
    SpanIsSolid(s);
    hide ParseUint, Pieces, Digits;
    match s
    case All =>
    case One(n) =>
      NumberRead(n);
    case Between(a, b) =>
      NumberRead(a);
      NumberRead(b);
      TwoDigits(a, b);
  }

  lemma EveryHolds(a: int, b: int, k: nat, x: int)
    requires 0 < k && 0 <= a
    ensures x in Every(a, b, k) <==> a <= x <= b && exists j | 0 <= j <= x :: x == a + j * k
  {
    if a <= x <= b {
      if Hits(x, a, k) {
        var j := (x - a) / k;
        assert x - a == k * j + (x - a) % k;
        StepBound(k, j, x - a);
        assert x == a + j * k;
      }
      if j :| 0 <= j <= x && x == a + j * k {
        MultipleOf(k, j, x - a);
      }
    }
  }

  lemma StepBound(k: nat, j: int, d: int)
    requires 0 < k && d == k * j && 0 <= d
    ensures 0 <= j <= d
  {
    assert j < 0 ==> k * j < 0;
    assert 0 <= j ==> j <= k * j;
  }

  lemma MultipleOf(k: nat, j: int, d: int)
    requires 0 < k && d == j * k
    ensures d % k == 0
  {
    Residue(d, k, j, k * j);
  }

  lemma ItemIsSolid(i: Item)
    ensures Solid(ItemText(i), ',') && Solid(ItemText(i), ' ')
    ensures '/' in ItemText(i) <==> i.step.Some?
  {
    SpanIsSolid(i.span);
    if i.step.Some? {
      var k := i.step.value;
      DigitsAreSolid(k, '/');
      DigitsAreSolid(k, ',');
      DigitsAreSolid(k, ' ');
      TwoParts(SpanText(i.span), Digits(k), '/');
      var t := SpanText(i.span) + "/" + Digits(k);
      assert t[|SpanText(i.span)|] == '/';
      hide SpanText, Digits;
    }
  }

  lemma StepParts(i: Item)
    requires i.step.Some?
    ensures Pieces(ItemText(i), '/') == [SpanText(i.span), Digits(i.step.value)]
    ensures |SpanText(i.span)| < |ItemText(i)|
  {
    SpanIsSolid(i.span);
    DigitsAreSolid(i.step.value, '/');
    TwoParts(SpanText(i.span), Digits(i.step.value), '/');
    hide SpanText, Digits;
  }

  /** An item is read as what it stands for, and refused exactly when it stands for nothing. */
  lemma ItemRead(i: Item, min: nat, max: nat, x: int)
    requires min < max <= 100 && |ItemText(i)| < 256
    ensures ItemBits(ItemText(i), min, max).Some? <==> Proper(i, min, max)
    ensures Proper(i, min, max) ==> (x in ItemBits(ItemText(i), min, max).value <==> Holds(i, min, max, x))
  {
    ItemIsSolid(i);
    SpanIsSolid(i.span);
    if i.step.Some? {
      var k := i.step.value;
      StepParts(i);
      NumberRead(k);
      SpanRead(i.span, min, max);
      if 0 < k {
        EveryHolds(Low(i, min), High(i, max), k, x);
      }
    } else {
      SpanRead(i.span, min, max);
    }
    hide ItemText, SpanText, RangeOf, ParseUint, Pieces, Digits, Every, Hits;
  }

  // ---- Fields are read back.

  /** A number is in the field when one of its items holds it. */
  predicate FieldHolds(items: seq<Item>, min: nat, max: nat, x: int) {
    exists i | 0 <= i < |items| :: Holds(items[i], min, max, x)
  }

  predicate ProperField(items: seq<Item>, min: nat, max: nat) {
    forall i | 0 <= i < |items| :: Proper(items[i], min, max)
  }

  lemma {:induction false} PartIsShort(parts: seq<string>, del: char, i: nat)
    requires i < |parts|
    ensures |parts[i]| <= |Joined(parts, del)|
    decreases |parts|
  {
    if |parts| == 1 || i == 0 {
    } else {
      PartIsShort(parts[1..], del, i - 1);
    }
  }

  lemma FieldApart(items: seq<Item>)
    requires items != []
    ensures Pieces(FieldText(items), ',') == ItemTexts(items)
    ensures forall i | 0 <= i < |items| :: |ItemText(items[i])| <= |FieldText(items)|
  {
    var texts := ItemTexts(items);
    hide ItemText, ItemTexts, Pieces, Joined, Solid;
    forall p | p in texts ensures Solid(p, ',') {
      var i :| 0 <= i < |texts| && texts[i] == p;
      ItemIsSolid(items[i]);
    }
    JoinedApart(texts, ',');
    forall i | 0 <= i < |items| ensures |ItemText(items[i])| <= |FieldText(items)| {
      PartIsShort(texts, ',', i);
    }
  }

  lemma {:induction false} AllItems(texts: seq<string>, min: nat, max: nat)
    requires min < max && forall i | 0 <= i < |texts| :: ItemBits(texts[i], min, max).Some?
    ensures ItemsBits(texts, min, max).Some?
    decreases |texts|
  {
    hide ItemBits;
    if texts == [] {
    } else {
      AllItems(texts[..|texts| - 1], min, max);
    }
  }

  /** A field is read as the union of its items, and refused exactly when one of them stands for nothing. */
  lemma FieldRead(items: seq<Item>, min: nat, max: nat, x: int)
    requires min < max <= 100 && items != [] && |FieldText(items)| < 256
    ensures FieldBits(FieldText(items), min, max).Some? <==> ProperField(items, min, max)
    ensures ProperField(items, min, max) ==>
      (x in FieldBits(FieldText(items), min, max).value <==> FieldHolds(items, min, max, x))
  {
    FieldApart(items);
    hide ItemText, FieldText, Pieces, Proper, Holds, ItemBits, ItemsBits;
    var texts := ItemTexts(items);
    forall i | 0 <= i < |items|
      ensures ItemBits(texts[i], min, max).Some? <==> Proper(items[i], min, max)
      ensures Proper(items[i], min, max) ==>
        (x in ItemBits(texts[i], min, max).value <==> Holds(items[i], min, max, x))
    {
      ItemRead(items[i], min, max, x);
    }
    if ProperField(items, min, max) {
      AllItems(texts, min, max);
      FieldIsUnion(texts, min, max, x);
    } else {
      var i :| 0 <= i < |items| && !Proper(items[i], min, max);
      ItemsFail(texts, i, min, max);
    }
  }

  // ---- Expressions are read back.

  /** The texts of six fields, separated by blanks. */
  function ScheduleText(fields: seq<seq<Item>>): string {
    Joined(FieldTexts(fields), ' ')
  }

  function FieldTexts(fields: seq<seq<Item>>): (r: seq<string>)
    ensures |r| == |fields| && forall i | 0 <= i < |fields| :: r[i] == FieldText(fields[i])
  {
    seq(|fields|, i requires 0 <= i < |fields| => FieldText(fields[i]))
  }

  predicate IsSchedule(fields: seq<seq<Item>>) {
    |fields| == 6 && forall i | 0 <= i < 6 :: fields[i] != []
  }

  predicate ProperSchedule(fields: seq<seq<Item>>)
    requires IsSchedule(fields)
  {
    && ProperField(fields[0], 0, 60) && ProperField(fields[1], 0, 60) && ProperField(fields[2], 0, 24)
    && ProperField(fields[3], 1, 32) && ProperField(fields[4], 1, 13) && ProperField(fields[5], 0, 8)
  }

  /** Second, minute, hour, day of month, month from 1 on and weekday, with Sunday as 0 or 7. */
  predicate Scheduled(fields: seq<seq<Item>>, t: int)
    requires IsSchedule(fields)
  {
    var day := DayIx(t);
    && FieldHolds(fields[0], 0, 60, Second(t))
    && FieldHolds(fields[1], 0, 60, Minute(t))
    && FieldHolds(fields[2], 0, 24, Hour(t))
    && FieldHolds(fields[3], 1, 32, DayOfMonth(day))
    && FieldHolds(fields[4], 1, 13, MonthOf(day) % 12 + 1)
    && (FieldHolds(fields[5], 0, 8, Weekday(day)) || (Weekday(day) == 0 && FieldHolds(fields[5], 0, 8, 7)))
  }

  lemma {:induction false} JoinedSolid(parts: seq<string>, del: char, c: char)
    requires parts != [] && (forall p | p in parts :: Solid(p, c)) && del != c && !IsSpace(del)
    ensures Solid(Joined(parts, del), c)
    decreases |parts|
  {
    assert Solid(parts[0], c);
    if |parts| == 1 {
    } else {
      JoinedSolid(parts[1..], del, c);
    }
  }

  lemma FieldIsSolid(items: seq<Item>)
    requires items != []
    ensures Solid(FieldText(items), ' ')
  {
    var texts := ItemTexts(items);
    hide ItemText, ItemTexts, Joined, Solid;
    forall p | p in texts ensures Solid(p, ' ') {
      var i :| 0 <= i < |texts| && texts[i] == p;
      ItemIsSolid(items[i]);
    }
    JoinedSolid(texts, ',', ' ');
  }

  lemma ScheduleApart(fields: seq<seq<Item>>)
    requires IsSchedule(fields)
    ensures Pieces(ScheduleText(fields), ' ') == FieldTexts(fields)
    ensures forall i | 0 <= i < 6 :: |FieldText(fields[i])| <= |ScheduleText(fields)|
  {
    var texts := FieldTexts(fields);
    hide FieldText, FieldTexts, Pieces, Joined, Solid;
    forall p | p in texts ensures Solid(p, ' ') {
      var i :| 0 <= i < |texts| && texts[i] == p;
      FieldIsSolid(fields[i]);
    }
    JoinedApart(texts, ' ');
    forall i | 0 <= i < 6 ensures |FieldText(fields[i])| <= |ScheduleText(fields)| {
      PartIsShort(texts, ' ', i);
    }
  }

  /** `*` for a day may be written `?`. */
  lemma FieldIsNotMark(items: seq<Item>)
    requires items != []
    ensures AnyMark(FieldText(items)) == FieldText(items)
  {
    ItemStart(items[0]);
    hide ItemText;
  }

  lemma ItemStart(i: Item)
    ensures ItemText(i)[0] != '?'
  {
    hide Digits;
    match i.span
    case All =>
    case One(n) => assert Digits(n)[0] in Digits(n);
    case Between(a, b) => assert Digits(a)[0] in Digits(a);
  }

  lemma OneFieldRead(fields: seq<seq<Item>>, text: string, k: nat, min: nat, max: nat, x: int)
    requires IsSchedule(fields) && |ScheduleText(fields)| < 256 && k < 6 && min < max <= 100
    requires text == FieldTexts(fields)[k]
    ensures FieldBits(text, min, max).Some? <==> ProperField(fields[k], min, max)
    ensures ProperField(fields[k], min, max) ==>
      (x in FieldBits(text, min, max).value <==> FieldHolds(fields[k], min, max, x))
  {
    ScheduleApart(fields);
    hide FieldText, FieldBits, ScheduleText, ProperField, FieldHolds;
    FieldRead(fields[k], min, max, x);
  }

  lemma DayTexts(fields: seq<seq<Item>>)
    requires IsSchedule(fields)
    ensures var texts := FieldTexts(fields); AnyMark(texts[3]) == texts[3] && AnyMark(texts[5]) == texts[5]
  {
    hide FieldText, AnyMark;
    FieldIsNotMark(fields[3]);
    FieldIsNotMark(fields[5]);
  }

  lemma MeaningParses(texts: seq<string>)
    requires |texts| == 6
    ensures Meaning(texts).Some? <==>
      && FieldBits(texts[0], 0, 60).Some? && FieldBits(texts[1], 0, 60).Some? && FieldBits(texts[2], 0, 24).Some?
      && FieldBits(AnyMark(texts[3]), 1, 32).Some? && FieldBits(texts[4], 1, 13).Some?
      && FieldBits(AnyMark(texts[5]), 0, 8).Some?
  {
    hide FieldBits, FromZero, FoldSunday, AnyMark;
  }

  lemma ScheduleIsParsed(fields: seq<seq<Item>>)
    requires IsSchedule(fields) && |ScheduleText(fields)| < 256
    ensures Parsed(ScheduleText(fields)) == Meaning(FieldTexts(fields))
  {
    hide ScheduleText, FieldTexts, Meaning, Pieces;
    ScheduleApart(fields);
  }

  /** The text of six fields parses exactly when all of them stand for something. */
  lemma ScheduleParses(fields: seq<seq<Item>>)
    requires IsSchedule(fields) && |ScheduleText(fields)| < 256
    ensures Parsed(ScheduleText(fields)).Some? <==> ProperSchedule(fields)
  {
    ProperParts(fields);
    hide *;
    var texts := FieldTexts(fields);
    ScheduleIsParsed(fields);
    DayTexts(fields);
    MeaningParses(texts);
    OneFieldRead(fields, texts[0], 0, 0, 60, 0);
    OneFieldRead(fields, texts[1], 1, 0, 60, 0);
    OneFieldRead(fields, texts[2], 2, 0, 24, 0);
    OneFieldRead(fields, texts[3], 3, 1, 32, 0);
    OneFieldRead(fields, texts[4], 4, 1, 13, 0);
    OneFieldRead(fields, texts[5], 5, 0, 8, 0);
  }

  lemma ProperParts(fields: seq<seq<Item>>)
    requires IsSchedule(fields)
    ensures |fields| == 6
    ensures ProperSchedule(fields) <==>
      && ProperField(fields[0], 0, 60) && ProperField(fields[1], 0, 60) && ProperField(fields[2], 0, 24)
      && ProperField(fields[3], 1, 32) && ProperField(fields[4], 1, 13) && ProperField(fields[5], 0, 8)
  {
    hide ProperField;
  }

  lemma ScheduledParts(fields: seq<seq<Item>>, t: int, day: int)
    requires IsSchedule(fields) && day == DayIx(t)
    ensures Scheduled(fields, t) <==>
      && FieldHolds(fields[0], 0, 60, Second(t)) && FieldHolds(fields[1], 0, 60, Minute(t))
      && FieldHolds(fields[2], 0, 24, Hour(t)) && FieldHolds(fields[3], 1, 32, DayOfMonth(day))
      && FieldHolds(fields[4], 1, 13, MonthOf(day) % 12 + 1)
      && (FieldHolds(fields[5], 0, 8, Weekday(day)) || (Weekday(day) == 0 && FieldHolds(fields[5], 0, 8, 7)))
  {
    hide FieldHolds, DayIx, MonthOf, DayOfMonth, Weekday, Second, Minute, Hour;
  }

  /** Three of the fields at once. */
  lemma ClockRead(fields: seq<seq<Item>>, texts: seq<string>, t: int)
    requires IsSchedule(fields) && |ScheduleText(fields)| < 256 && ProperSchedule(fields) && texts == FieldTexts(fields)
    ensures FieldBits(texts[0], 0, 60).Some? && FieldBits(texts[1], 0, 60).Some? && FieldBits(texts[2], 0, 24).Some?
    ensures Second(t) in FieldBits(texts[0], 0, 60).value <==> FieldHolds(fields[0], 0, 60, Second(t))
    ensures Minute(t) in FieldBits(texts[1], 0, 60).value <==> FieldHolds(fields[1], 0, 60, Minute(t))
    ensures Hour(t) in FieldBits(texts[2], 0, 24).value <==> FieldHolds(fields[2], 0, 24, Hour(t))
  {
    ProperParts(fields);
    hide *;
    OneFieldRead(fields, texts[0], 0, 0, 60, Second(t));
    OneFieldRead(fields, texts[1], 1, 0, 60, Minute(t));
    OneFieldRead(fields, texts[2], 2, 0, 24, Hour(t));
  }

  lemma DayRead(fields: seq<seq<Item>>, texts: seq<string>, q: int, m: int, w: int)
    requires IsSchedule(fields) && |ScheduleText(fields)| < 256 && ProperSchedule(fields) && texts == FieldTexts(fields)
    ensures FieldBits(texts[3], 1, 32).Some? && FieldBits(texts[4], 1, 13).Some? && FieldBits(texts[5], 0, 8).Some?
    ensures q in FieldBits(texts[3], 1, 32).value <==> FieldHolds(fields[3], 1, 32, q)
    ensures m in FieldBits(texts[4], 1, 13).value <==> FieldHolds(fields[4], 1, 13, m)
    ensures w in FieldBits(texts[5], 0, 8).value <==> FieldHolds(fields[5], 0, 8, w)
    ensures 7 in FieldBits(texts[5], 0, 8).value <==> FieldHolds(fields[5], 0, 8, 7)
  {
    ProperParts(fields);
    hide *;
    OneFieldRead(fields, texts[3], 3, 1, 32, q);
    OneFieldRead(fields, texts[4], 4, 1, 13, m);
    OneFieldRead(fields, texts[5], 5, 0, 8, w);
    OneFieldRead(fields, texts[5], 5, 0, 8, 7);
  }

  lemma MeaningRead(fields: seq<seq<Item>>, texts: seq<string>, t: int)
    requires IsSchedule(fields) && |ScheduleText(fields)| < 256 && ProperSchedule(fields) && texts == FieldTexts(fields)
    requires Meaning(texts).Some? && AnyMark(texts[3]) == texts[3] && AnyMark(texts[5]) == texts[5]
    ensures Match(Meaning(texts).value, t) <==> Scheduled(fields, t)
  {
    ProperParts(fields);
    hide *;
    var day := DayIx(t);
    ScheduledParts(fields, t, day);
    ClockRead(fields, texts, t);
    DayRead(fields, texts, DayOfMonth(day), MonthOf(day) % 12 + 1, Weekday(day));
    MeaningMatches(texts, t);
  }

  /** And then it matches exactly the instants whose six fields it holds. */
  lemma ScheduleRead(fields: seq<seq<Item>>, t: int)
    requires IsSchedule(fields) && |ScheduleText(fields)| < 256 && ProperSchedule(fields)
    ensures Parsed(ScheduleText(fields)).Some?
    ensures Match(Parsed(ScheduleText(fields)).value, t) <==> Scheduled(fields, t)
  {
    hide *;
    var texts := FieldTexts(fields);
    ScheduleParses(fields);
    ScheduleIsParsed(fields);
    DayTexts(fields);
    MeaningRead(fields, texts, t);
  }

  /** For both day fields `?` is another way to write `*`. */
  lemma MarkIsStar(texts: seq<string>)
    requires |texts| == 6
    ensures Meaning(texts[3 := "?"]) == Meaning(texts[3 := "*"]) && Meaning(texts[5 := "?"]) == Meaning(texts[5 := "*"])
  {
    hide FieldBits, FromZero, FoldSunday;
  }

  // ---- A time of day.

  /** "s m h * * *". */
  function Daily(s: nat, m: nat, h: nat): (r: seq<seq<Item>>)
    ensures IsSchedule(r)
  {
    var any := [Item(All, None)];
    [[Item(One(s), None)], [Item(One(m), None)], [Item(One(h), None)], any, any, any]
  }

  function DailyLine(s: nat, m: nat, h: nat): string {
    Digits(s) + " " + Digits(m) + " " + Digits(h) + " * * *"
  }

  lemma OneNumber(n: nat, min: nat, max: nat, x: int)
    requires min <= n < max
    ensures ProperField([Item(One(n), None)], min, max)
    ensures FieldHolds([Item(One(n), None)], min, max, x) <==> x == n
  {
    assert [Item(One(n), None)][0].step == None;
  }

  lemma AnyNumber(min: nat, max: nat, x: int)
    requires min < max
    ensures ProperField([Item(All, None)], min, max)
    ensures FieldHolds([Item(All, None)], min, max, x) <==> min <= x < max
  {
    assert [Item(All, None)][0].step == None;
  }

  lemma ShortDigits(n: nat)
    requires n < 60
    ensures |Digits(n)| <= 2 && FieldText([Item(One(n), None)]) == Digits(n)
    ensures FieldText([Item(All, None)]) == "*"
  {
  }

  lemma DailyText(s: nat, m: nat, h: nat)
    requires s < 60 && m < 60 && h < 24
    ensures ScheduleText(Daily(s, m, h)) == DailyLine(s, m, h)
    ensures |ScheduleText(Daily(s, m, h))| < 256
  {
    ShortDigits(s);
    ShortDigits(m);
    ShortDigits(h);
    hide FieldText, Digits;
    var a, b, c, star := Digits(s), Digits(m), Digits(h), "*";
    assert FieldTexts(Daily(s, m, h)) == [a, b, c, star, star, star];
    SixJoined(a, b, c, star, star, star);
  }

  lemma SixJoined(a: string, b: string, c: string, d: string, e: string, f: string)
    ensures Joined([a, b, c, d, e, f], ' ') == a + " " + b + " " + c + " " + d + " " + e + " " + f
  {
    assert [a, b, c, d, e, f][1..] == [b, c, d, e, f] && [b, c, d, e, f][1..] == [c, d, e, f];
    assert [c, d, e, f][1..] == [d, e, f] && [d, e, f][1..] == [e, f] && [e, f][1..] == [f];
    assert Joined([e, f], ' ') == e + [' '] + f;
    assert Joined([d, e, f], ' ') == d + [' '] + Joined([e, f], ' ');
    assert Joined([c, d, e, f], ' ') == c + [' '] + Joined([d, e, f], ' ');
    assert Joined([b, c, d, e, f], ' ') == b + [' '] + Joined([c, d, e, f], ' ');
  }

  lemma DailyHolds(s: nat, m: nat, h: nat, t: int)
    requires s < 60 && m < 60 && h < 24
    ensures ProperSchedule(Daily(s, m, h))
    ensures Scheduled(Daily(s, m, h), t) <==> Second(t) == s && Minute(t) == m && Hour(t) == h
  {
    var fields, day := Daily(s, m, h), DayIx(t);
    ProperParts(fields);
    ScheduledParts(fields, t, day);
    hide ProperField, FieldHolds, Scheduled, ProperSchedule, DayIx, MonthOf, DayOfMonth, Weekday, Second, Minute, Hour;
    OneNumber(s, 0, 60, Second(t));
    OneNumber(m, 0, 60, Minute(t));
    OneNumber(h, 0, 24, Hour(t));
    AnyNumber(1, 32, DayOfMonth(day));
    AnyNumber(1, 13, MonthOf(day) % 12 + 1);
    AnyNumber(0, 8, Weekday(day));
    WeekdayBounds(day);
  }

  /** Second, minute and hour, in this order, and stars: every day at that time. */
  lemma DailyMatches(s: nat, m: nat, h: nat, t: int)
    requires s < 60 && m < 60 && h < 24
    ensures Parsed(DailyLine(s, m, h)).Some?
    ensures Match(Parsed(DailyLine(s, m, h)).value, t)
      <==> Second(t) == s && Minute(t) == m && Hour(t) == h
  {
    hide *;
    DailyText(s, m, h);
    DailyHolds(s, m, h, t);
    ScheduleRead(Daily(s, m, h), t);
  }

  lemma WeekdayBounds(day: int)
    ensures 0 <= Weekday(day) < 7 && 0 <= MonthOf(day) % 12 < 12
  {
    hide MonthOf;
  }

  /** A quarter past nine. */
  lemma QuarterPastNine(t: int)
    ensures Parsed("0 15 9 * * *").Some?
    ensures Match(Parsed("0 15 9 * * *").value, t) <==> Second(t) == 0 && Minute(t) == 15 && Hour(t) == 9
  {
    assert Digits(0) == "0" && Digits(9) == "9" && Digits(1) == "1";
    assert Digits(15) == Digits(1) + "5";
    assert Digits(0) + " " + Digits(15) + " " + Digits(9) + " * * *" == "0 15 9 * * *";
    hide Digits, Parsed, Match, Second, Minute, Hour;
    DailyMatches(0, 15, 9, t);
  }
}
