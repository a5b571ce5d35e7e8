/**
 The configuration store: a table of at most 100 parameter names and one file per parameter, holding its
 value in base64. Strings are byte sequences without zeros; the file system is a map from paths to
 contents whose operations may fail.
 */
module ConfigStore {
  import opened Bytes
  import opened Sequences
  import opened Wrappers
  import Base64

  const MAX_VARS := 100
  const BUFF_SIZE := 300

  type Text = seq<Byte>

  /** `CFG_DIR` and a slash: "/device_cfg/". */
  const CFG_DIR: Text := [47, 100, 101, 118, 105, 99, 101, 95, 99, 102, 103, 47]

  /** The path of a parameter, cut to the shared buffer with its terminator. */
  function Path(name: Text): (p: Text)
    ensures |p| < BUFF_SIZE
  {
    var p := CFG_DIR + name;
    if |p| < BUFF_SIZE then p else p[..BUFF_SIZE - 1]
  }

  /** Names share a file exactly when they agree in their first 287 bytes. */
  lemma SamePath(a: Text, b: Text)
    ensures Path(a) == Path(b) <==> a == b || (|a| >= 287 && |b| >= 287 && a[..287] == b[..287])
  {
    var p, q := CFG_DIR + a, CFG_DIR + b;
    assert |CFG_DIR| == 12 && p[12..] == a && q[12..] == b;
    assert |a| >= 287 ==> Path(a) == CFG_DIR + a[..287];
    assert |b| >= 287 ==> Path(b) == CFG_DIR + b[..287];
    assert |a| >= 287 ==> Path(a)[12..] == a[..287];
    assert |b| >= 287 ==> Path(b)[12..] == b[..287];
    assert |a| < 287 ==> Path(a) == p;
    assert |b| < 287 ==> Path(b) == q;
  }

  /** What a read of a file gives: its first 300 bytes decoded; nothing for a file of at most one byte. */
  function FileValue(files: map<Text, Text>, path: Text): Option<Text> {
    if path !in files then None
    else
      var got := if |files[path]| <= BUFF_SIZE then files[path] else files[path][..BUFF_SIZE];
      if |got| > 1 then Some(Base64.Decode(got)) else None
  }

  /** The part of a value that survives being stored and read. */
  function Readable(value: Text): Option<Text> {
    if value == [] then None else Some(if |value| <= 225 then value else value[..225])
  }

  /** Storing encodes, reading decodes: a non-empty value comes back up to its first 225 bytes. */
  lemma StoredValue(files: map<Text, Text>, path: Text, value: Text)
    requires path in files && files[path] == Base64.Encode(value)
    ensures FileValue(files, path) == Readable(value)
  {
    var code := Base64.Encode(value);
    Base64.EncodedLength(value);
    if |code| <= BUFF_SIZE {
      Base64.DecodeOfEncode(value);
    } else {
      Base64.DecodePrefix(value, 75);
    }
  }

  /** What is read of a value when only some bytes of its text were written: the bytes of the whole groups. */
  function Torn(value: Text, accepted: nat): Option<Text> {
    var n := 3 * ((if accepted <= 300 then accepted else 300) / 4);
    if accepted <= 1 then None else Some(Prefix(value, n))
  }

  lemma WholeGroupsFit(value: Text, n: nat, k: nat)
    requires n < |Base64.Encode(value)| && 4 * k <= n
    ensures 3 * k <= |value|
  {
    Base64.EncodedLength(value);
    hide Base64.Encode;
  }

  lemma FourTimes(p: nat, k: nat)
    requires p == 4 * k
    ensures p % 4 == 0
  {
  }

  lemma CutAt(code: Text, p: nat, n: nat)
    requires p <= n <= |code|
    ensures code[..n] == code[..p] + code[p..n]
  {
  }

  /** A text cut off within is decoded up to its last whole group. */
  lemma CutText(value: Text, n: nat, p: nat, k: nat)
    requires n < |Base64.Encode(value)| && p == 4 * k && p <= n < p + 4
    ensures 3 * k <= |value| && Base64.Decode(Base64.Encode(value)[..n]) == value[..3 * k]
  {
    hide *;
    WholeGroupsFit(value, n, k);
    FourTimes(p, k);
    var code := Base64.Encode(value);
    CutAt(code, p, n);
    Base64.DecodeIgnoresRest(code[..p], code[p..n]);
    Base64.DecodePrefix(value, k);
  }

  lemma TornValue(files: map<Text, Text>, path: Text, value: Text, accepted: nat)
    requires accepted < |Base64.Encode(value)|
    requires path in files && files[path] == Base64.Encode(value)[..accepted]
    ensures FileValue(files, path) == Torn(value, accepted)
  {
    hide Base64.Encode, Base64.Decode;
    var n := if accepted <= 300 then accepted else 300;
    CutText(value, n, 4 * (n / 4), n / 4);
    assert Base64.Encode(value)[..accepted][..n] == Base64.Encode(value)[..n];
    assert files[path][..n] == Base64.Encode(value)[..n];
    assert |files[path]| <= BUFF_SIZE ==> files[path][..n] == files[path];
    assert Prefix(value, 3 * (n / 4)) == value[..3 * (n / 4)];
  }

  predicate NoRepeats(names: seq<Text>) {
    forall i, j :: 0 <= i < j < |names| ==> names[i] != names[j]
  }

  // ---- States.

  datatype State = State(files: map<Text, Text>, names: seq<Text>)

  predicate Good(s: State) {
    |s.names| <= MAX_VARS && NoRepeats(s.names)
  }

  /** Find or register. */
  function Registered(names: seq<Text>, name: Text): seq<Text> {
    if name in names || |names| >= MAX_VARS then names else names + [name]
  }

  /** A write accepts the given number of bytes of the encoded value. */
  datatype Op =
    | Set(name: Text, value: Text, opens: bool, accepted: nat)
    | Get(name: Text, works: bool)
    | Check(name: Text, works: bool)
    | Del(name: Text, removed: bool)

  function Step(s: State, op: Op): State {
    match op
    case Set(name, value, opens, accepted) =>
      State(if opens then s.files[Path(name) := Prefix(Base64.Encode(value), accepted)] else s.files,
            Registered(s.names, name))
    case Get(name, _) => s.(names := Registered(s.names, name))
    case Check(name, works) =>
      if works && FileValue(s.files, Path(name)).Some? then s.(names := Registered(s.names, name)) else s
    case Del(name, removed) => if removed then s.(files := s.files - {Path(name)}) else s
  }

  function Run(s: State, ops: seq<Op>): State {
    if ops == [] then s else Step(Run(s, ops[..|ops| - 1]), ops[|ops| - 1])
  }

  /** `cfgs_param_set`: success means that the whole text was written. */
  function SetResult(value: Text, opens: bool, accepted: nat): int {
    if opens && accepted >= |Base64.Encode(value)| then 0 else -1
  }

  /** `cfgs_param_get`. */
  function GetResult(s: State, name: Text, works: bool): Option<Text> {
    if name in Registered(s.names, name) && works then FileValue(s.files, Path(name)) else None
  }

  /** What a path holds after a run: the last write to it that opened, unless removed since. */
  datatype Held = Nothing | Partial(value: Text, accepted: nat) | Whole(value: Text) | Untouched

  function LastHeld(ops: seq<Op>, path: Text): Held {
    if ops == [] then Untouched
    else
      var op := ops[|ops| - 1];
      var before := LastHeld(ops[..|ops| - 1], path);
      if op.Set? && Path(op.name) == path && op.opens then
        if SetResult(op.value, true, op.accepted) == 0 then Whole(op.value) else Partial(op.value, op.accepted)
      else if op.Del? && Path(op.name) == path && op.removed then Nothing
      else before
  }

  /** The table never overflows, never holds a name twice and never forgets one. */
  lemma {:induction false} RunKeepsTable(s: State, ops: seq<Op>)
    requires Good(s)
    ensures Good(Run(s, ops)) && s.names <= Run(s, ops).names
  {
    if ops == [] {
    } else {
      RunKeepsTable(s, ops[..|ops| - 1]);
    }
  }

  predicate Agrees(files: map<Text, Text>, first: map<Text, Text>, path: Text, h: Held) {
    match h
    case Nothing => path !in files
    case Partial(value, accepted) =>
      accepted < |Base64.Encode(value)| && path in files && files[path] == Base64.Encode(value)[..accepted]
    case Whole(value) => path in files && files[path] == Base64.Encode(value)
    case Untouched => (path in files <==> path in first) && (path in files ==> files[path] == first[path])
  }

  /** The event asks for a place in the table. */
  predicate Asks(op: Op, name: Text) {
    (op.Set? || op.Get?) && op.name == name
  }

  /** The event may give the name a place. */
  predicate MayAsk(op: Op, name: Text) {
    (op.Set? || op.Get? || op.Check?) && op.name == name
  }

  /** A name gets a place when it is set or read while there is one, and only names that were asked for get one. */
  lemma {:induction false} RunRegisters(s: State, ops: seq<Op>, name: Text)
    requires Good(s)
    ensures (exists op | op in ops :: Asks(op, name)) ==> name in Run(s, ops).names || |Run(s, ops).names| == 100
    ensures name in Run(s, ops).names ==> name in s.names || exists op | op in ops :: MayAsk(op, name)
  {
    if ops == [] {
    } else {
      var n := |ops| - 1;
      RunRegisters(s, ops[..n], name);
      RunKeepsTable(s, ops[..n]);
      assert ops[n] in ops && forall op | op in ops :: op in ops[..n] || op == ops[n];
      assert forall op | op in ops[..n] :: op in ops;
      StepRegisters(Run(s, ops[..n]), ops[n], name);
    }
  }

  lemma StepRegisters(s: State, op: Op, name: Text)
    requires Good(s)
    ensures Asks(op, name) ==> name in Step(s, op).names || |Step(s, op).names| == 100
    ensures s.names <= Step(s, op).names && |Step(s, op).names| <= 100
    ensures name in Step(s, op).names ==> name in s.names || MayAsk(op, name)
  {
  }

  /** A check gives a name a place when its file has a value. */
  lemma CheckRegisters(s: State, name: Text)
    requires Good(s) && FileValue(s.files, Path(name)).Some?
    ensures var t := Step(s, Check(name, true)); t.files == s.files && (name in t.names || |t.names| == 100)
  {
  }

  /** Other parameters, as long as their paths differ, do not disturb what a path holds. */
  lemma {:induction false} RunHolds(s: State, ops: seq<Op>, path: Text)
    ensures Agrees(Run(s, ops).files, s.files, path, LastHeld(ops, path))
  {
    if ops == [] {
    } else {
      RunHolds(s, ops[..|ops| - 1], path);
    }
  }

  /**
   After any run, getting a parameter whose last write succeeded gives the beginning of that value, if the
   name has a place in the table: otherwise, although the write reported success, nothing.
   */
  lemma GetAfterRun(s: State, ops: seq<Op>, name: Text)
    requires Good(s) && LastHeld(ops, Path(name)).Whole?
    ensures var t, value := Run(s, ops), LastHeld(ops, Path(name)).value;
      GetResult(t, name, true) == if name in t.names || |t.names| < MAX_VARS then Readable(value) else None
  {
    hide Path, LastHeld;
    var t := Run(s, ops);
    RunHolds(s, ops, Path(name));
    StoredValue(t.files, Path(name), LastHeld(ops, Path(name)).value);
  }

  /** The same after a write that was cut off, which reported failure: the whole groups that were written. */
  lemma GetAfterCut(s: State, ops: seq<Op>, name: Text)
    requires Good(s) && LastHeld(ops, Path(name)).Partial?
    ensures var t, h := Run(s, ops), LastHeld(ops, Path(name));
      GetResult(t, name, true) == if name in t.names || |t.names| < MAX_VARS then Torn(h.value, h.accepted) else None
  {
    hide Path, LastHeld, Torn;
    var t := Run(s, ops);
    RunHolds(s, ops, Path(name));
    TornValue(t.files, Path(name), LastHeld(ops, Path(name)).value, LastHeld(ops, Path(name)).accepted);
  }

  /** A parameter set and then read, with a free place in the table. */
  lemma SetThenGet(s: State, name: Text, value: Text, opens: bool, accepted: nat)
    requires Good(s)
    ensures var t := Step(s, Set(name, value, opens, accepted));
      && Good(t)
      && (SetResult(value, opens, accepted) == 0 ==>
          GetResult(t, name, true) == if name in s.names || |s.names| < MAX_VARS then Readable(value) else None)
  {
    hide Path;
    var op := Set(name, value, opens, accepted);
    var t := Step(s, op);
    RunKeepsTable(s, [op]);
    assert [op][..0] == [];
    if SetResult(value, opens, accepted) == 0 {
      assert Prefix(Base64.Encode(value), accepted) == Base64.Encode(value);
      StoredValue(t.files, Path(name), value);
    }
  }

  // ---- A full table.

  const EMPTY := State(map[], [])
  const LETTER_A: Text := [65]

  /** Sets of `n` parameters, all with complete writes. */
  function Filling(n: nat): seq<Op>
    requires n <= MAX_VARS
  {
    seq(n, i requires 0 <= i < n => Set([i + 1], LETTER_A, true, 4))
  }

  lemma {:induction false} Filled(n: nat)
    requires n <= MAX_VARS
    ensures var names := Run(EMPTY, Filling(n)).names;
      |names| == n && forall i | 0 <= i < n :: names[i] == [i + 1]
  {
    hide Base64.Encode;
    if n == 0 {
    } else {
      Filled(n - 1);
      assert Filling(n)[..n - 1] == Filling(n - 1);
      var names, name: Text := Run(EMPTY, Filling(n - 1)).names, [n];
      assert forall i | 0 <= i < n - 1 :: names[i][0] != name[0];
    }
  }

  /** The 101st parameter is set with success, its file holds the value, and getting it gives nothing. */
  lemma TableIsFull()
    ensures var s := Step(Run(EMPTY, Filling(MAX_VARS)), Set([101], LETTER_A, true, 4));
      && SetResult(LETTER_A, true, 4) == 0 && FileValue(s.files, Path([101])) == Some(LETTER_A)
      && GetResult(s, [101], true) == None
  {
    hide Path, FileValue, Base64.Encode;
    var name: Text := [101];
    Filled(MAX_VARS);
    Base64.EncodedLength(LETTER_A);
    var t := Run(EMPTY, Filling(MAX_VARS));
    assert forall i | 0 <= i < MAX_VARS :: t.names[i][0] != name[0];
    StoredValue(Step(t, Set(name, LETTER_A, true, 4)).files, Path(name), LETTER_A);
  }

  // ---- The context.

  /** A C string in its buffer, or a null pointer. */
  ghost predicate Holds(a: array?<Byte>, r: Option<Text>)
    reads a
  {
    match r
    case None => a == null
    case Some(v) => a != null && |v| < a.Length && a[..|v|] == v && a[|v|] == 0
  }

  method StrLen(a: array<Byte>, ghost text: Text) returns (n: nat)
    requires Holds(a, Some(text)) && 0 !in text
    ensures n == |text|
  {
    assert forall i | 0 <= i < |text| :: a[i] == text[i] && text[i] in text;
    n := 0;
    while a[n] != 0
      invariant n <= |text|
      decreases |text| - n
    {
      n := n + 1;
    }
  }

  class Store {
    var files: map<Text, Text>
    var names: seq<Text>
    const buff: array<Byte>

    ghost predicate Valid()
      reads this
    {
      buff.Length == BUFF_SIZE && Good(Now())
    }

    ghost function Now(): State
      reads this
    {
      State(files, names)
    }

    constructor (files: map<Text, Text>)
      ensures Valid() && Now() == State(files, []) && fresh(buff)
    {
      this.files, names := files, [];
      buff := new Byte[BUFF_SIZE];
    }

    /** The path, printed into the shared buffer. */
    method PrintPath(name: Text) returns (path: Text)
      requires Valid()
      modifies buff
      ensures path == Path(name) && Holds(buff, Some(path))
    {
      path := Path(name);
      forall i | 0 <= i < |path| {
        buff[i] := path[i];
      }
      buff[|path|] := 0;
    }

    /** `cfgs_param_find`. */
    method Find(name: Text) returns (found: bool)
      requires Valid()
      ensures found == (name in names)
    {
      var i := 0;
      while i < MAX_VARS && i < |names|
        invariant 0 <= i <= |names| && name !in names[..i]
      {
        if name == names[i] {
          return true;
        }
        i := i + 1;
      }
      found := false;
    }

    /** `cfgs_param_register`, for a name that was not found. */
    method Register(name: Text) returns (done: bool)
      requires Valid() && name !in names
      modifies this
      ensures Valid() && files == old(files) && names == Registered(old(names), name)
      ensures done == (name in names)
    {
      if |names| >= MAX_VARS {
        return false;
      }
      names := names + [name];
      done := true;
    }

    /** `cfgs_param_read`; the buffer holds the path first, then the contents. */
    method Read(name: Text, works: bool) returns (r: array?<Byte>)
      requires Valid()
      modifies buff
      ensures Holds(r, if works then FileValue(files, Path(name)) else None)
    {
      var path := PrintPath(name);
      if !works || path !in files {
        return null;
      }
      var data := files[path];
      var sz := if |data| <= BUFF_SIZE then |data| else BUFF_SIZE;
      forall i | 0 <= i < sz {
        buff[i] := data[i];
      }
      if sz > 1 {
        assert buff[..sz] == data[..sz] && (|data| <= BUFF_SIZE ==> data[..sz] == data);
        r := Base64.Base64Decode(buff[..sz]);
      } else {
        r := null;
      }
    }

    /** `cfgs_param_get`. */
    method ParamGet(name: Text, works: bool) returns (r: array?<Byte>)
      requires Valid()
      modifies this, buff
      ensures Valid() && Now() == Step(old(Now()), Get(name, works))
      ensures Holds(r, GetResult(old(Now()), name, works))
    {
      var found := Find(name);
      if !found {
        found := Register(name);
      }
      if !found {
        return null;
      }
      r := Read(name, works);
    }

    /** `cfgs_param_set`: the file is emptied, then takes as much of the text as it accepts. */
    method ParamSet(name: Text, value: Text, opens: bool, accepted: nat) returns (r: int)
      requires Valid()
      modifies this, buff
      ensures Valid() && Now() == Step(old(Now()), Set(name, value, opens, accepted))
      ensures r == SetResult(value, opens, accepted)
    {
      r := -1;
      var found := Find(name);
      if !found {
        found := Register(name);
      }
      var path := PrintPath(name);
      if !opens {
        return;
      }
      var text := Base64.Base64Encode(value);
      Base64.EncodedIsText(value);
      var len := StrLen(text, Base64.Encode(value));
      var sz := if accepted <= len then accepted else len;
      files := files[path := text[..sz]];
      assert text[..sz] == Prefix(Base64.Encode(value), accepted);
      if sz == len {
        r := 0;
      }
    }

    /** `cfgs_param_check`. */
    method ParamCheck(name: Text, works: bool) returns (known: bool)
      requires Valid()
      modifies this, buff
      ensures Valid() && Now() == Step(old(Now()), Check(name, works))
      ensures known == (name in old(names) || (works && FileValue(files, Path(name)).Some?))
    {
      known := Find(name);
      if known {
        return;
      }
      var value := Read(name, works);
      if value != null {
        var done := Register(name);
        known := true;
      }
    }

    /** `cfgs_param_del`. */
    method ParamDel(name: Text, removed: bool)
      requires Valid()
      modifies this, buff
      ensures Valid() && Now() == Step(old(Now()), Del(name, removed))
    {
      var path := PrintPath(name);
      if removed {
        files := files - {path};
      }
    }
  }
}
