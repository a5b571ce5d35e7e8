/**
 From the text of a schedule to the runs of its script: what everyday texts mean is exact.
 */
module CronTexts {
  import opened Gregorian
  import opened Wrappers
  import opened CronExpr
  import opened CronExact
  import opened CronGrammar
  import opened CronOneStar
  import opened CronParser
  import opened Scripts
  import opened ScriptRuns

  /** A text without commas, dashes and slashes: a number or `*`, when it means anything. */
  predicate Simple(text: string) {
    ',' !in text && '-' !in text && '/' !in text
  }

  lemma {:induction false} SqueezeAdds(s: string, c: char)
    requires c !in s
    ensures c !in Squeeze(s)
  {
    if s == "" {
    } else {
      SqueezeAdds(s[1..], c);
    }
  }

  lemma {:induction false} NoDelimiter(s: string, del: char)
    requires del !in s
    ensures IndexOf(s, del) == |s|
  {
    if s == "" {
    } else {
      NoDelimiter(s[1..], del);
    }
  }

  lemma OnePiece(s: string)
    requires ',' !in s && Pieces(s, ',') != []
    ensures Pieces(s, ',') == [Squeeze(s)]
  {
    NoDelimiter(s, ',');
    assert s[..|s|] == s;
    hide Squeeze;
  }

  lemma {:induction false} OneItem(item: string, min: nat, max: nat)
    requires min < max
    ensures ItemsBits([item], min, max) == ItemBits(item, min, max)
  {
    hide ItemBits;
    var none: set<int> := {};
    assert [item][..0] == [];
    assert ItemsBits([item][..0], min, max) == Some(none);
    if ItemBits(item, min, max).Some? {
      assert none + ItemBits(item, min, max).value == ItemBits(item, min, max).value;
    }
  }

  lemma SimpleItem(item: string, min: nat, max: nat)
    requires min < max && '/' !in item && '-' !in item && ItemBits(item, min, max).Some?
    ensures var bits := ItemBits(item, min, max).value; Full(bits, min, max) || exists v :: bits == {v}
  {
    hide ParseUint, Pieces;
    var r := RangeOf(item, min, max).value;
    if item != "*" {
      assert Every(r.0, r.1, 1) == {r.0};
    }
  }

  /** A simple text that means anything means the whole range or one number. */
  lemma SimpleField(text: string, min: nat, max: nat)
    requires min < max && Simple(text) && FieldBits(text, min, max).Some?
    ensures var bits := FieldBits(text, min, max).value; Full(bits, min, max) || exists v :: bits == {v}
  {
    hide ItemBits, ItemsBits, Squeeze, Pieces, Full;
    OnePiece(text);
    SqueezeAdds(text, '-');
    SqueezeAdds(text, '/');
    OneItem(Squeeze(text), min, max);
    SimpleItem(Squeeze(text), min, max);
  }

  /** Simple seconds, a star for the day of month or the day of week, and a star for the months. */
  predicate Plain(fields: seq<string>) {
    |fields| == 6 && Simple(fields[0]) && (AnyMark(fields[3]) == "*" || AnyMark(fields[5]) == "*") && fields[4] == "*"
  }

  lemma StarMonths(months: set<int>)
    requires months == Every(1, 12, 1)
    ensures Full(FromZero(months), 0, 12)
  {
    forall m | 0 <= m < 12 ensures m in FromZero(months) {
      assert m + 1 in months && (m + 1) - 1 in FromZero(months);
    }
  }

  lemma MeaningParts(fields: seq<string>)
    requires |fields| == 6 && Meaning(fields).Some?
    ensures FieldBits(fields[0], 0, 60) == Some(Meaning(fields).value.seconds)
    ensures FieldBits(fields[4], 1, 13).Some?
    ensures Meaning(fields).value.months == FromZero(FieldBits(fields[4], 1, 13).value)
  {
    hide FieldBits, FromZero, FoldSunday;
  }

  /** Every such text that parses means an expression for which `cron_next`, and every run of its script, is exact. */
  lemma PlainTextIsExact(fields: seq<string>)
    requires Plain(fields) && Meaning(fields).Some?
    ensures WellFormed(Meaning(fields).value) && Exact(Meaning(fields).value) && RunsExact(Meaning(fields).value)
  {
    var e := Meaning(fields).value;
    MeaningIsWellFormed(fields);
    MeaningParts(fields);
    SimpleField(fields[0], 0, 60);
    StarMeansAll(1, 13);
    StarMonths(FieldBits(fields[4], 1, 13).value);
    StarDayIsOneStar(fields);
    hide Meaning, FieldBits, Exact, ExactCondition, RunsExact, WellFormed, OneStar, Full;
    PlainScheduleIsExact(e);
    RunsExactIff(e);
  }

  /** The schedule line of a script: it is valid when its text parses, and is not armed yet. */
  method LoadSchedule(script: Script, text: string) returns (r: Script)
    requires !script.valid && script.next <= 0
    ensures Ready(r) && r.enable == script.enable && r.next == script.next && r.runNow == script.runNow
    ensures r.valid == Parsed(text).Some? && (r.valid ==> r.schedule == Parsed(text).value)
    ensures r.valid && Plain(Pieces(text, ' ')) ==> WellFormed(r.schedule) && RunsExact(r.schedule)
    ensures forall s: nat, m: nat, h: nat | s < 60 && m < 60 && h < 24 && text == DailyLine(s, m, h) ::
      r.valid && forall t :: Match(r.schedule, t) <==> Second(t) == s && Minute(t) == m && Hour(t) == h
  {
    hide Meaning, Pieces, WellFormed, RunsExact, Plain, DailyLine, Match, Second, Minute, Hour;
    var schedule := CronParseExpr(text);
    forall s: nat, m: nat, h: nat | s < 60 && m < 60 && h < 24 && text == DailyLine(s, m, h)
      ensures Parsed(text).Some?
    {
      DailyMatches(s, m, h, 0);
    }
    forall s: nat, m: nat, h: nat, t | s < 60 && m < 60 && h < 24 && text == DailyLine(s, m, h)
      ensures Match(Parsed(text).value, t) <==> Second(t) == s && Minute(t) == m && Hour(t) == h
    {
      DailyMatches(s, m, h, t);
    }
    if schedule.None? {
      return script;
    }
    r := script.(valid := true, schedule := schedule.value);
    if Plain(Pieces(text, ' ')) {
      PlainTextIsExact(Pieces(text, ' '));
    }
  }
}
