/** The argument resolver and the `sc.exe` command builders: how a loosely typed
    call becomes the argument vector of one `sc` invocation, or of one
    invocation per service for the control commands. */
module ScCommand {
  import opened Wrappers
  import opened JsText
  import opened JsValue

  // ---------------------------------------------------------------------------
  // Data model
  // ---------------------------------------------------------------------------

  /** The canonical form of a variable-arity call: the server (present only when
      truthy), the remaining positional arguments in order, and the options. */
  datatype ArgsOut = ArgsOut(server: Option<Value>, args: seq<Value>, options: map<string, Value>)

  /** One `sc` invocation. The argument vector holds the values the builders
      pushed, which are strings except where a caller passed something else.
      `service` and `server` are set only on the commands of a control batch. */
  datatype BuiltCommand = BuiltCommand(
    path: string,
    args: seq<Value>,
    successCodes: seq<int>,
    service: Option<Value>,
    server: Option<Value>)

  /** One control operation (start, stop, pause, continue) over several services.
      Of the options merged into the batch, the four the caller acts on are kept:
      `serial`, `waitForExit`, `timeout` and `args`. */
  datatype BuiltControlCommand = BuiltControlCommand(
    command: string,
    commands: seq<BuiltCommand>,
    server: Option<Value>,
    serial: Value,
    waitForExit: Value,
    timeout: Value,
    args: Value)

  // ---------------------------------------------------------------------------
  // Argument resolver
  // ---------------------------------------------------------------------------

  /** The last argument is a plain object (`_.isObject` and not an array). */
  predicate HasOptions(argv: seq<Value>) {
    |argv| > 0 && argv[|argv| - 1].Obj?
  }

  /** The arguments without a trailing options object. */
  function Positionals(argv: seq<Value>): seq<Value> {
    if HasOptions(argv) then argv[..|argv| - 1] else argv
  }

  /** The first positional argument is shifted off as the server: exactly when
      the number of positional arguments equals `fixed`. */
  predicate TakesServer(argv: seq<Value>, fixed: int) {
    |Positionals(argv)| == fixed && fixed > 0
  }

  /** Resolves the `arguments` of a call against the number of `fixed`
      parameters, the optional server included. */
  function GetArgs(argv: seq<Value>, fixed: int): (r: ArgsOut)
    ensures HasOptions(argv) ==> r.options == argv[|argv| - 1].props
    ensures !HasOptions(argv) ==> r.options == map[]
    ensures r.server.Some? <==> TakesServer(argv, fixed) && Truthy(argv[0])
    ensures r.server.Some? ==> r.server.value == argv[0] && Truthy(r.server.value)
    ensures |r.args| == |argv| - (if HasOptions(argv) then 1 else 0) - (if TakesServer(argv, fixed) then 1 else 0)
    ensures TakesServer(argv, fixed) ==> r.args == argv[1..1 + |r.args|]
    ensures !TakesServer(argv, fixed) ==> r.args == argv[..|r.args|]
  {
    var rest := Positionals(argv);
    var options := if HasOptions(argv) then argv[|argv| - 1].props else map[];
    if |rest| == fixed && fixed > 0 then
      ArgsOut(if Truthy(rest[0]) then Some(rest[0]) else None, rest[1..], options)
    else
      ArgsOut(None, rest, options)
  }

  /** The `arguments` of a call in one of the shapes the public overloads
      declare: an optional server, the positional values, an optional options
      object. */
  function Call(server: Option<Value>, positionals: seq<Value>, options: Option<map<string, Value>>): seq<Value> {
    (if server.Some? then [server.value] else [])
    + positionals
    + (if options.Some? then [Obj(options.value)] else [])
  }

  /** None of the values is a plain object (which would be taken for options). */
  predicate NoObjects(vs: seq<Value>) {
    forall k | 0 <= k < |vs| :: !vs[k].Obj?
  }

  /** The server a call names: recorded only when truthy. */
  function RecordedServer(server: Option<Value>): Option<Value> {
    if server.Some? && Truthy(server.value) then server else None
  }

  /** Every overload shape resolves to what the caller meant: with or without a
      server, with or without options, a single item or a list. A falsy server
      (`undefined`) is consumed without being recorded. */
  lemma GetArgsOfCall(server: Option<Value>, ps: seq<Value>, options: Option<map<string, Value>>)
    requires NoObjects(ps)
    requires server.Some? ==> !server.value.Obj?
    ensures GetArgs(Call(server, ps, options), |ps| + 1)
         == ArgsOut(RecordedServer(server), ps, options.GetOr(map[]))
  {
    var argv := Call(server, ps, options);
    var rest := (if server.Some? then [server.value] else []) + ps;
    if options.Some? {
      assert argv == rest + [Obj(options.value)];
      assert Positionals(argv) == rest;
    } else {
      assert argv == rest;
      if |rest| > 0 {
        assert rest[|rest| - 1] == (if |ps| > 0 then ps[|ps| - 1] else server.value);
      }
      assert !HasOptions(argv);
    }
    if server.Some? {
      assert rest[1..] == ps;
    }
  }

  // ---------------------------------------------------------------------------
  // Command builder
  // ---------------------------------------------------------------------------

  /** lodash `_.trimStart` with a backslash: `s` without its leading backslashes. */
  function TrimLeadingBackslashes(s: string): (t: string)
    ensures |t| <= |s| && t == s[|s| - |t|..]
    ensures forall k | 0 <= k < |s| - |t| :: s[k] == '\\'
    ensures t == [] || t[0] != '\\'
    decreases |s|
  {
    if |s| > 0 && s[0] == '\\' then
      var r := TrimLeadingBackslashes(s[1..]);
      assert forall k | 1 <= k < |s| - |r| :: s[k] == s[1..][k - 1];
      assert s[1..][|s| - 1 - |r|..] == s[|s| - |r|..];
      r
    else s
  }

  /** A UNC host prefix: two backslashes. */
  predicate IsUNC(t: string) {
    |t| >= 2 && t[0] == '\\' && t[1] == '\\'
  }

  /** The computer name as a UNC path: its leading backslashes normalised to
      exactly two. */
  function QualifyUNCPath(computerName: string): (r: string)
    ensures IsUNC(r)
    ensures 2 <= |r| <= |computerName| + 2
    ensures |r| > 2 ==> r[2] != '\\'
    ensures r[2..] == computerName[|computerName| - (|r| - 2)..]
    ensures forall k | 0 <= k < |computerName| - (|r| - 2) :: computerName[k] == '\\'
  {
    "\\\\" + TrimLeadingBackslashes(computerName)
  }

  /** Qualifying a qualified path changes nothing. */
  lemma QualifyUNCPathIdempotent(computerName: string)
    ensures QualifyUNCPath(QualifyUNCPath(computerName)) == QualifyUNCPath(computerName)
  {
    var t := TrimLeadingBackslashes(computerName);
    TrimTwoBackslashes(t);
    TrimWithoutBackslash(t);
  }

  /** Two leading backslashes are trimmed away. */
  lemma TrimTwoBackslashes(t: string)
    ensures TrimLeadingBackslashes("\\\\" + t) == TrimLeadingBackslashes(t)
  {
    var q := "\\\\" + t;
    assert q[1..][1..] == t;
  }

  /** A string that does not start with a backslash is left alone. */
  lemma TrimWithoutBackslash(t: string)
    requires t == [] || t[0] != '\\'
    ensures TrimLeadingBackslashes(t) == t
  {
  }

  /** The leading UNC token for a recorded server, nothing otherwise. */
  function ServerPrefix(server: Option<Value>): seq<Value> {
    if server.Some? && Truthy(server.value) then [Str(QualifyUNCPath(ToStr(server.value)))] else []
  }

  /** The `sc` command `[\\server] commandName argsIn...` with the given success
      codes (none when absent). The argument list is always an array in this
      code base. */
  function BuildCommand(commandName: string, server: Option<Value>, argsIn: seq<Value>, successCodes: Option<seq<int>>): BuiltCommand {
    BuiltCommand("sc", ServerPrefix(server) + [Str(commandName)] + argsIn, successCodes.GetOr([]), None, None)
  }

  /** How `sc.exe` reads its command line: a leading UNC token names the server,
      the next token is the sub-command, the rest are its arguments. */
  function ReadCommandLine(args: seq<Value>): Option<(Option<string>, string, seq<Value>)> {
    if |args| >= 2 && args[0].Str? && IsUNC(args[0].s) && args[1].Str? then
      Some((Some(args[0].s[2..]), args[1].s, args[2..]))
    else if |args| >= 1 && args[0].Str? && !IsUNC(args[0].s) then
      Some((None, args[0].s, args[1..]))
    else
      None
  }

  /** The host name `sc.exe` sees for a recorded server. */
  function ServerName(server: Option<Value>): Option<string> {
    if server.Some? && Truthy(server.value) then Some(TrimLeadingBackslashes(ToStr(server.value))) else None
  }

  /** A built command reads back as the server (with its leading backslashes
      normalised away), the sub-command and the arguments it was built from;
      the executable is `sc` and the success codes default to none. */
  lemma BuildCommandReadsBack(commandName: string, server: Option<Value>, argsIn: seq<Value>, successCodes: Option<seq<int>>, c: BuiltCommand)
    requires !IsUNC(commandName)
    requires c == BuildCommand(commandName, server, argsIn, successCodes)
    ensures c.path == "sc"
    ensures ReadCommandLine(c.args) == Some((ServerName(server), commandName, argsIn))
    ensures c.successCodes == (if successCodes.Some? then successCodes.value else [])
  {
    if server.Some? && Truthy(server.value) {
      var q := QualifyUNCPath(ToStr(server.value));
      assert c.args == [Str(q), Str(commandName)] + argsIn;
      assert c.args[2..] == argsIn;
    } else {
      assert c.args == [Str(commandName)] + argsIn;
      assert c.args[1..] == argsIn;
    }
  }

  /** `buildSimpleCommand`: the resolved arguments, followed by the buffer size
      when one is given (0 stands for no buffer). */
  function BuildSimpleCommand(commandName: string, argv: seq<Value>, fixed: int, buffer: nat): BuiltCommand {
    var a := GetArgs(argv, fixed);
    var positional := if buffer != 0 then a.args + [Str(IntToString(buffer))] else a.args;
    BuildCommand(commandName, a.server, positional, None)
  }

  /** The exported builders that are one `buildSimpleCommand` call each. */
  datatype SimpleBuilder =
    | Control | Interrogate | GetDisplayName | GetKeyName | GetDescription
    | SetDescription | GetDependencies | SetDescriptor | GetDescriptor
    | GetConfig | GetFailureConfig | Delete | SetBoot | Lock | GetLock

  /** The `sc` sub-command of each builder. */
  function SubCommand(b: SimpleBuilder): string {
    match b
    case Control => "control"
    case Interrogate => "interrogate"
    case GetDisplayName => "getdisplayname"
    case GetKeyName => "getkeyname"
    case GetDescription => "qdescription"
    case SetDescription => "description"
    case GetDependencies => "enumdepend"
    case SetDescriptor => "sdset"
    case GetDescriptor => "sdshow"
    case GetConfig => "qc"
    case GetFailureConfig => "qfailure"
    case Delete => "delete"
    case SetBoot => "boot"
    case Lock => "lock"
    case GetLock => "querylock"
  }

  /** The number of fixed parameters of each builder, the optional server included. */
  function FixedCount(b: SimpleBuilder): nat {
    match b
    case Control => 3
    case SetDescription => 3
    case SetDescriptor => 3
    case Lock => 1
    case GetLock => 1
    case _ => 2
  }

  /** The buffer size each query passes to `sc` (0 when it passes none). */
  function BufferSize(b: SimpleBuilder): nat {
    match b
    case GetDisplayName => 4096
    case GetKeyName => 4096
    case GetDescription => 8192
    case GetDependencies => 262144
    case GetConfig => 8192
    case GetFailureConfig => 8192
    case _ => 0
  }

  function BuildSimple(b: SimpleBuilder, argv: seq<Value>): BuiltCommand {
    BuildSimpleCommand(SubCommand(b), argv, FixedCount(b), BufferSize(b))
  }

  /** The buffer-size argument, if any. */
  function BufferArg(buffer: nat): seq<Value> {
    if buffer != 0 then [Str(IntToString(buffer))] else []
  }

  /** Every simple builder, called in an overload shape, yields
      `[\\server] sub-command positionals... [buffer]`: naming a server only
      prepends the UNC token, and the buffer size is always last. */
  lemma SimpleCommandLayout(b: SimpleBuilder, server: Option<Value>, ps: seq<Value>, c: BuiltCommand)
    requires |ps| + 1 == FixedCount(b)
    requires NoObjects(ps)
    requires server.Some? ==> !server.value.Obj?
    requires c == BuildSimple(b, Call(server, ps, None))
    ensures c.path == "sc"
    ensures c.args == ServerPrefix(server) + [Str(SubCommand(b))] + ps + BufferArg(BufferSize(b))
    ensures c.successCodes == []
  {
    SimpleCommandOf(SubCommand(b), server, ps, FixedCount(b), BufferSize(b), c);
  }

  /** `buildSimpleCommand` on a call with exactly the fixed positionals. */
  lemma SimpleCommandOf(name: string, server: Option<Value>, ps: seq<Value>, fixed: int, buffer: nat, c: BuiltCommand)
    requires |ps| + 1 == fixed
    requires NoObjects(ps)
    requires server.Some? ==> !server.value.Obj?
    requires c == BuildSimpleCommand(name, Call(server, ps, None), fixed, buffer)
    ensures c.path == "sc"
    ensures c.args == ServerPrefix(server) + [Str(name)] + ps + BufferArg(buffer)
    ensures c.successCodes == []
  {
    GetArgsOfCall(server, ps, None);
    assert ServerPrefix(RecordedServer(server)) == ServerPrefix(server);
  }

  // ---------------------------------------------------------------------------
  // Option encoding
  // ---------------------------------------------------------------------------

  /** `addArg`: appends `name=` and `String(value)` when the value is truthy. */
  function AddArg(args: seq<Value>, name: string, value: Value): seq<Value> {
    if Truthy(value) then args + [Str(name + "="), Str(ToStr(value))] else args
  }

  /** `toYesNo`: booleans become `yes`/`no`, anything else is kept. */
  function ToYesNo(v: Value): Value {
    if v == Bool(true) then Str("yes") else if v == Bool(false) then Str("no") else v
  }

  /** `toSlashSeperated`: an array is joined with slashes, a falsy value is kept;
      any other value has no `join` method, so the call throws. */
  function ToSlashSeparated(v: Value): Result<Value> {
    if !Truthy(v) then Ok(v)
    else if v.Arr? then Ok(Str(Join(v.items, "/")))
    else Fail("TypeError")
  }

  /** The tokens of a list of option pairs: `name=` followed by the value. */
  function PairTokens(ps: seq<(string, string)>): (r: seq<Value>)
    ensures |r| == 2 * |ps|
  {
    if |ps| == 0 then [] else [Str(ps[0].0 + "="), Str(ps[0].1)] + PairTokens(ps[1..])
  }

  lemma {:induction false} PairTokensAppend(ps: seq<(string, string)>, qs: seq<(string, string)>)
    ensures PairTokens(ps + qs) == PairTokens(ps) + PairTokens(qs)
    decreases |ps|
  {
    if |ps| == 0 {
      assert ps + qs == qs;
    } else {
      assert (ps + qs)[1..] == ps[1..] + qs;
      PairTokensAppend(ps[1..], qs);
    }
  }

  /** How `sc.exe` reads `name= value` options: two tokens at a time, the first
      ending in `=`. */
  function ReadPairs(tokens: seq<Value>): Option<seq<(string, string)>>
    decreases |tokens|
  {
    if |tokens| == 0 then Some([])
    else if |tokens| >= 2 && tokens[0].Str? && |tokens[0].s| > 0
            && tokens[0].s[|tokens[0].s| - 1] == '=' && tokens[1].Str? then
      match ReadPairs(tokens[2..])
      case Some(rest) => Some([(tokens[0].s[..|tokens[0].s| - 1], tokens[1].s)] + rest)
      case None => None
    else None
  }

  /** Option tokens read back as the pairs they encode. */
  lemma {:induction false} ReadPairTokens(ps: seq<(string, string)>)
    ensures ReadPairs(PairTokens(ps)) == Some(ps)
    decreases |ps|
  {
    if |ps| > 0 {
      var t := PairTokens(ps);
      var name := ps[0].0 + "=";
      assert t[0] == Str(name) && t[1] == Str(ps[0].1);
      assert t[2..] == PairTokens(ps[1..]);
      assert name[..|name| - 1] == ps[0].0;
      ReadPairTokens(ps[1..]);
      assert ps == [ps[0]] + ps[1..];
    }
  }

  /** The pair `addArg` contributes. */
  function ArgPair(name: string, value: Value): seq<(string, string)> {
    if Truthy(value) then [(name, ToStr(value))] else []
  }

  lemma AddArgIsPair(args: seq<Value>, name: string, value: Value)
    ensures AddArg(args, name, value) == args + PairTokens(ArgPair(name, value))
  {
    if Truthy(value) {
      assert PairTokens(ArgPair(name, value)) == [Str(name + "="), Str(ToStr(value))] + PairTokens([]);
    }
  }

  /** Appending one option to an encoded list of pairs encodes the extended list. */
  lemma AddArgExtends(args: seq<Value>, cur: seq<Value>, ps: seq<(string, string)>, name: string, value: Value)
    requires cur == args + PairTokens(ps)
    ensures AddArg(cur, name, value) == args + PairTokens(ps + ArgPair(name, value))
  {
    AddArgIsPair(cur, name, value);
    PairTokensAppend(ps, ArgPair(name, value));
  }

  /** The configuration options in the order `create` and `config` emit them:
      the `sc` option name and the options key it is read from. */
  const ConfigTable: seq<(string, string)> := [
    ("type", "type"), ("type", "interact"), ("start", "start"), ("error", "error"),
    ("binpath", "binpath"), ("group", "group"), ("tag", "tag"), ("depend", "depend"),
    ("obj", "obj"), ("displayname", "displayname"), ("password", "password")]

  /** How a configuration option's value is rendered: `tag` as yes/no, `depend`
      joined with slashes, everything else as given. */
  function EncodeConfigValue(key: string, v: Value): Result<Value> {
    if key == "tag" then Ok(ToYesNo(v))
    else if key == "depend" then ToSlashSeparated(v)
    else Ok(v)
  }

  /** The option pairs a table of options yields: every row whose encoded value
      is truthy, in table order. */
  function TablePairs(rows: seq<(string, string)>, options: map<string, Value>): Result<seq<(string, string)>>
    decreases |rows|
  {
    if |rows| == 0 then Ok([])
    else
      var enc :- EncodeConfigValue(rows[0].1, Get(options, rows[0].1));
      var rest :- TablePairs(rows[1..], options);
      Ok(ArgPair(rows[0].0, enc) + rest)
  }

  /** The option pairs a table of plain options yields: every row whose value
      is truthy, in table order, with the value as given. */
  function RowPairs(rows: seq<(string, string)>, options: map<string, Value>): seq<(string, string)>
    decreases |rows|
  {
    if |rows| == 0 then []
    else ArgPair(rows[0].0, Get(options, rows[0].1)) + RowPairs(rows[1..], options)
  }

  /** `addConfigArgs`: appends the configuration options to `args`. */
  function AddConfigArgs(args: seq<Value>, options: map<string, Value>): Result<seq<Value>> {
    var before := AddArgsBeforeDepend(args, options);
    var depend :- ToSlashSeparated(Get(options, "depend"));
    Ok(AddArgsAfterDepend(AddArg(before, "depend", depend), options))
  }

  /** The `addArg` calls of `addConfigArgs` before `depend`. */
  function AddArgsBeforeDepend(args: seq<Value>, options: map<string, Value>): seq<Value> {
    var a1 := AddArg(args, "type", Get(options, "type"));
    var a2 := AddArg(a1, "type", Get(options, "interact"));
    var a3 := AddArg(a2, "start", Get(options, "start"));
    var a4 := AddArg(a3, "error", Get(options, "error"));
    var a5 := AddArg(a4, "binpath", Get(options, "binpath"));
    var a6 := AddArg(a5, "group", Get(options, "group"));
    AddArg(a6, "tag", ToYesNo(Get(options, "tag")))
  }

  /** The `addArg` calls of `addConfigArgs` after `depend`. */
  function AddArgsAfterDepend(args: seq<Value>, options: map<string, Value>): seq<Value> {
    var a9 := AddArg(args, "obj", Get(options, "obj"));
    var a10 := AddArg(a9, "displayname", Get(options, "displayname"));
    AddArg(a10, "password", Get(options, "password"))
  }

  /** Sequencing of two fallible pair lists: the first failure wins. */
  function Concat(a: Result<seq<(string, string)>>, b: Result<seq<(string, string)>>): Result<seq<(string, string)>> {
    if a.Fail? then a else if b.Fail? then b else Ok(a.value + b.value)
  }

  lemma {:induction false} TablePairsAppend(r1: seq<(string, string)>, r2: seq<(string, string)>, o: map<string, Value>)
    ensures TablePairs(r1 + r2, o) == Concat(TablePairs(r1, o), TablePairs(r2, o))
    decreases |r1|
  {
    if |r1| == 0 {
      assert r1 + r2 == r2;
      if TablePairs(r2, o).Ok? {
        assert [] + TablePairs(r2, o).value == TablePairs(r2, o).value;
      }
    } else {
      assert (r1 + r2)[0] == r1[0];
      assert (r1 + r2)[1..] == r1[1..] + r2;
      TablePairsAppend(r1[1..], r2, o);
      var enc := EncodeConfigValue(r1[0].1, Get(o, r1[0].1));
      if enc.Ok? && TablePairs(r1[1..], o).Ok? && TablePairs(r2, o).Ok? {
        var p := ArgPair(r1[0].0, enc.value);
        assert p + (TablePairs(r1[1..], o).value + TablePairs(r2, o).value)
            == (p + TablePairs(r1[1..], o).value) + TablePairs(r2, o).value;
      }
    }
  }

  /** The pairs of a one-row table. */
  lemma TablePairsOne(row: (string, string), o: map<string, Value>)
    ensures TablePairs([row], o) ==
              match EncodeConfigValue(row.1, Get(o, row.1))
              case Fail(e) => Fail(e)
              case Ok(enc) => Ok(ArgPair(row.0, enc))
  {
    assert [row][1..] == [];
    var enc := EncodeConfigValue(row.1, Get(o, row.1));
    if enc.Ok? {
      assert ArgPair(row.0, enc.value) + [] == ArgPair(row.0, enc.value);
    }
  }

  /** The pairs of the options before `depend`: type, interact (also as
      `type`), start, error, binpath, group and tag, each when truthy. */
  function ConfigPairsBefore(o: map<string, Value>): seq<(string, string)> {
    ArgPair("type", Get(o, "type")) + ArgPair("type", Get(o, "interact"))
    + ArgPair("start", Get(o, "start")) + ArgPair("error", Get(o, "error"))
    + ArgPair("binpath", Get(o, "binpath")) + ArgPair("group", Get(o, "group"))
    + ArgPair("tag", ToYesNo(Get(o, "tag")))
  }

  /** The pairs of the options after `depend`: obj, displayname and password. */
  function ConfigPairsAfter(o: map<string, Value>): seq<(string, string)> {
    ArgPair("obj", Get(o, "obj")) + ArgPair("displayname", Get(o, "displayname"))
    + ArgPair("password", Get(o, "password"))
  }

  /** The configuration table's pairs, written out option by option. */
  function ConfigPairs(o: map<string, Value>): Result<seq<(string, string)>> {
    match ToSlashSeparated(Get(o, "depend"))
    case Fail(e) => Fail(e)
    case Ok(d) => Ok(ConfigPairsBefore(o) + ArgPair("depend", d) + ConfigPairsAfter(o))
  }

  /** One more row of the table, when its value encodes. */
  lemma TablePairsStep(t: seq<(string, string)>, k: nat, o: map<string, Value>, ps: seq<(string, string)>, enc: Value)
    requires k < |t| && TablePairs(t[..k], o) == Ok(ps)
    requires EncodeConfigValue(t[k].1, Get(o, t[k].1)) == Ok(enc)
    ensures TablePairs(t[..k + 1], o) == Ok(ps + ArgPair(t[k].0, enc))
  {
    assert t[..k + 1] == t[..k] + [t[k]];
    TablePairsAppend(t[..k], [t[k]], o);
    TablePairsOne(t[k], o);
  }

  /** The rows before `depend`. */
  lemma TablePairsBefore(o: map<string, Value>)
    ensures TablePairs(ConfigTable[..7], o) == Ok(ConfigPairsBefore(o))
  {
    var t := ConfigTable;
    assert t[..0] == [];
    var p0: seq<(string, string)> := [];
    TablePairsStep(t, 0, o, p0, Get(o, "type"));
    var p1 := p0 + ArgPair("type", Get(o, "type"));
    TablePairsStep(t, 1, o, p1, Get(o, "interact"));
    var p2 := p1 + ArgPair("type", Get(o, "interact"));
    TablePairsStep(t, 2, o, p2, Get(o, "start"));
    var p3 := p2 + ArgPair("start", Get(o, "start"));
    TablePairsStep(t, 3, o, p3, Get(o, "error"));
    var p4 := p3 + ArgPair("error", Get(o, "error"));
    TablePairsStep(t, 4, o, p4, Get(o, "binpath"));
    var p5 := p4 + ArgPair("binpath", Get(o, "binpath"));
    TablePairsStep(t, 5, o, p5, Get(o, "group"));
    var p6 := p5 + ArgPair("group", Get(o, "group"));
    TablePairsStep(t, 6, o, p6, ToYesNo(Get(o, "tag")));
    assert p1 == ArgPair("type", Get(o, "type"));
  }

  /** The rows after `depend`. */
  lemma TablePairsAfter(o: map<string, Value>)
    ensures TablePairs(ConfigTable[8..], o) == Ok(ConfigPairsAfter(o))
  {
    var t := ConfigTable[8..];
    assert t[..0] == [];
    var p0: seq<(string, string)> := [];
    TablePairsStep(t, 0, o, p0, Get(o, "obj"));
    var p1 := p0 + ArgPair("obj", Get(o, "obj"));
    TablePairsStep(t, 1, o, p1, Get(o, "displayname"));
    var p2 := p1 + ArgPair("displayname", Get(o, "displayname"));
    TablePairsStep(t, 2, o, p2, Get(o, "password"));
    assert p1 == ArgPair("obj", Get(o, "obj"));
    assert t[..3] == t;
  }

  /** The table yields the pairs written out option by option. */
  lemma TablePairsUnfold(o: map<string, Value>)
    ensures TablePairs(ConfigTable, o) == ConfigPairs(o)
  {
    var t := ConfigTable;
    TablePairsBefore(o);
    TablePairsAfter(o);
    TablePairsOne(t[7], o);
    assert t[..8] == t[..7] + [t[7]];
    TablePairsAppend(t[..7], [t[7]], o);
    TablePairsAppend(t[..8], t[8..], o);
    assert t[..8] + t[8..] == t;
  }

  /** `addConfigArgs` emits exactly the table's options, in table order
      whatever the order of the input keys: each option whose rendered value is
      truthy (so `tag: false` still gives `tag= no`, and an empty `depend`
      gives nothing), and it throws exactly when `depend` is a truthy
      non-array. */
  lemma ConfigArgsFollowTable(args: seq<Value>, options: map<string, Value>)
    ensures TablePairs(ConfigTable, options).Fail? <==> AddConfigArgs(args, options).Fail?
    ensures TablePairs(ConfigTable, options).Ok? ==>
              AddConfigArgs(args, options).value == args + PairTokens(TablePairs(ConfigTable, options).value)
  {
    TablePairsUnfold(options);
    var o := options;
    var d := ToSlashSeparated(Get(o, "depend"));
    if d.Ok? {
      var b := ConfigPairsBefore(o);
      var m := ArgPair("depend", d.value);
      var a := ConfigPairsAfter(o);
      AddArgsBeforeDependArePairs(args, o);
      AddArgExtends(args, AddArgsBeforeDepend(args, o), b, "depend", d.value);
      var cur := AddArg(AddArgsBeforeDepend(args, o), "depend", d.value);
      AddArgsAfterDependArePairs(cur, o);
      PairTokensAppend(b + m, a);
      AppendAssoc(args, PairTokens(b + m), PairTokens(a));
    }
  }

  /** The options before `depend` are appended as the pairs of `ConfigPairsBefore`. */
  lemma AddArgsBeforeDependArePairs(args: seq<Value>, o: map<string, Value>)
    ensures AddArgsBeforeDepend(args, o) == args + PairTokens(ConfigPairsBefore(o))
  {
    assert args == args + PairTokens([]);
    var cur := args;
    var ps: seq<(string, string)> := [];
    AddArgExtends(args, cur, ps, "type", Get(o, "type"));
    cur, ps := AddArg(cur, "type", Get(o, "type")), ps + ArgPair("type", Get(o, "type"));
    AddArgExtends(args, cur, ps, "type", Get(o, "interact"));
    cur, ps := AddArg(cur, "type", Get(o, "interact")), ps + ArgPair("type", Get(o, "interact"));
    AddArgExtends(args, cur, ps, "start", Get(o, "start"));
    cur, ps := AddArg(cur, "start", Get(o, "start")), ps + ArgPair("start", Get(o, "start"));
    AddArgExtends(args, cur, ps, "error", Get(o, "error"));
    cur, ps := AddArg(cur, "error", Get(o, "error")), ps + ArgPair("error", Get(o, "error"));
    AddArgExtends(args, cur, ps, "binpath", Get(o, "binpath"));
    cur, ps := AddArg(cur, "binpath", Get(o, "binpath")), ps + ArgPair("binpath", Get(o, "binpath"));
    AddArgExtends(args, cur, ps, "group", Get(o, "group"));
    cur, ps := AddArg(cur, "group", Get(o, "group")), ps + ArgPair("group", Get(o, "group"));
    AddArgExtends(args, cur, ps, "tag", ToYesNo(Get(o, "tag")));
    assert [] + ArgPair("type", Get(o, "type")) == ArgPair("type", Get(o, "type"));
  }

  /** The options after `depend` are appended as the pairs of `ConfigPairsAfter`. */
  lemma AddArgsAfterDependArePairs(args: seq<Value>, o: map<string, Value>)
    ensures AddArgsAfterDepend(args, o) == args + PairTokens(ConfigPairsAfter(o))
  {
    assert args == args + PairTokens([]);
    var cur := args;
    var ps: seq<(string, string)> := [];
    AddArgExtends(args, cur, ps, "obj", Get(o, "obj"));
    cur, ps := AddArg(cur, "obj", Get(o, "obj")), ps + ArgPair("obj", Get(o, "obj"));
    AddArgExtends(args, cur, ps, "displayname", Get(o, "displayname"));
    cur, ps := AddArg(cur, "displayname", Get(o, "displayname")), ps + ArgPair("displayname", Get(o, "displayname"));
    AddArgExtends(args, cur, ps, "password", Get(o, "password"));
    assert [] + ArgPair("obj", Get(o, "obj")) == ArgPair("obj", Get(o, "obj"));
  }

  /** A boolean tag is emitted as `tag= yes` or `tag= no`: `false` too, since
      its encoding `no` is truthy. */
  lemma ConfigTagEmitsYesNo(options: map<string, Value>, b: bool)
    requires Get(options, "tag") == Bool(b)
    requires TablePairs(ConfigTable, options).Ok?
    ensures ("tag", if b then "yes" else "no") in TablePairs(ConfigTable, options).value
  {
    TablePairsUnfold(options);
    assert ArgPair("tag", ToYesNo(Get(options, "tag"))) == [("tag", if b then "yes" else "no")];
  }

  /** An empty dependency list emits no `depend=` option; a non-empty one is
      joined with slashes. */
  lemma ConfigDependEncoding(options: map<string, Value>, deps: seq<string>, r: Result<seq<(string, string)>>)
    requires Get(options, "depend") == Arr(deps)
    requires r == TablePairs(ConfigTable, options)
    ensures r.Ok?
    ensures Join(deps, "/") == "" ==> forall k | 0 <= k < |r.value| :: r.value[k].0 != "depend"
    ensures Join(deps, "/") != "" ==> ("depend", Join(deps, "/")) in r.value
  {
    TablePairsUnfold(options);
    ConfigPairsDepend(options, deps, r);
  }

  lemma ConfigPairsDepend(o: map<string, Value>, deps: seq<string>, r: Result<seq<(string, string)>>)
    requires Get(o, "depend") == Arr(deps)
    requires r == ConfigPairs(o)
    ensures r.Ok?
    ensures Join(deps, "/") == "" ==> forall k | 0 <= k < |r.value| :: r.value[k].0 != "depend"
    ensures Join(deps, "/") != "" ==> ("depend", Join(deps, "/")) in r.value
  {
    var pre := ConfigPairsBefore(o);
    var post := ConfigPairsAfter(o);
    var mid := ArgPair("depend", Str(Join(deps, "/")));
    assert ToSlashSeparated(Get(o, "depend")) == Ok(Str(Join(deps, "/")));
    assert r.value == pre + mid + post;
    NamesNotDepend(o);
    if Join(deps, "/") != "" {
      assert r.value[|pre|] == ("depend", Join(deps, "/"));
    } else {
      assert mid == [] && pre + mid == pre;
      NoDependAppend(pre, post);
    }
  }

  /** No pair of `ps` is a `depend` option. */
  predicate NoDepend(ps: seq<(string, string)>) {
    forall k | 0 <= k < |ps| :: ps[k].0 != "depend"
  }

  lemma NoDependAppend(ps: seq<(string, string)>, qs: seq<(string, string)>)
    requires NoDepend(ps) && NoDepend(qs)
    ensures NoDepend(ps + qs)
  {
    assert forall k | |ps| <= k < |ps + qs| :: (ps + qs)[k] == qs[k - |ps|];
  }

  /** Only the `depend` row emits a `depend` option. */
  lemma NamesNotDepend(o: map<string, Value>)
    ensures NoDepend(ConfigPairsBefore(o))
    ensures NoDepend(ConfigPairsAfter(o))
  {
    var a := ArgPair("type", Get(o, "type")) + ArgPair("type", Get(o, "interact"));
    NoDependAppend(ArgPair("type", Get(o, "type")), ArgPair("type", Get(o, "interact")));
    NoDependAppend(a, ArgPair("start", Get(o, "start")));
    a := a + ArgPair("start", Get(o, "start"));
    NoDependAppend(a, ArgPair("error", Get(o, "error")));
    a := a + ArgPair("error", Get(o, "error"));
    NoDependAppend(a, ArgPair("binpath", Get(o, "binpath")));
    a := a + ArgPair("binpath", Get(o, "binpath"));
    NoDependAppend(a, ArgPair("group", Get(o, "group")));
    a := a + ArgPair("group", Get(o, "group"));
    NoDependAppend(a, ArgPair("tag", ToYesNo(Get(o, "tag"))));
    var b := ArgPair("obj", Get(o, "obj")) + ArgPair("displayname", Get(o, "displayname"));
    NoDependAppend(ArgPair("obj", Get(o, "obj")), ArgPair("displayname", Get(o, "displayname")));
    NoDependAppend(b, ArgPair("password", Get(o, "password")));
  }

  // ---------------------------------------------------------------------------
  // Management builders
  // ---------------------------------------------------------------------------

  /** The first positional argument (`argsIn.args[0]`), `undefined` when there is none. */
  function FirstPositional(a: ArgsOut): Value {
    if |a.args| > 0 then a.args[0] else Undefined
  }

  /** `create`: the service name followed by the configuration options. */
  function Create(argv: seq<Value>): Result<BuiltCommand> {
    var a := GetArgs(argv, 2);
    var args :- AddConfigArgs([FirstPositional(a)], a.options);
    Ok(BuildCommand("create", a.server, args, None))
  }

  /** `setConfig`: `sc config` with the same options as `create`. */
  function SetConfig(argv: seq<Value>): Result<BuiltCommand> {
    var a := GetArgs(argv, 2);
    var args :- AddConfigArgs([FirstPositional(a)], a.options);
    Ok(BuildCommand("config", a.server, args, None))
  }

  /** `create` and `config` called as `(server?, service, options)` produce
      `[\\server] create|config service` and then the table's options. */
  lemma ConfigCommandLayout(server: Option<Value>, service: Value, options: map<string, Value>, argv: seq<Value>)
    requires !service.Obj?
    requires server.Some? ==> !server.value.Obj?
    requires argv == Call(server, [service], Some(options))
    ensures Create(argv).Ok? <==> TablePairs(ConfigTable, options).Ok?
    ensures SetConfig(argv).Ok? <==> TablePairs(ConfigTable, options).Ok?
    ensures Create(argv).Ok? ==>
              Create(argv).value.args
              == ServerPrefix(server) + [Str("create")] + ([service] + PairTokens(TablePairs(ConfigTable, options).value))
    ensures SetConfig(argv).Ok? ==>
              SetConfig(argv).value.args
              == ServerPrefix(server) + [Str("config")] + ([service] + PairTokens(TablePairs(ConfigTable, options).value))
  {
    GetArgsOfCall(server, [service], Some(options));
    ConfigArgsFollowTable([service], options);
    assert ServerPrefix(RecordedServer(server)) == ServerPrefix(server);
  }

  /** The action kinds `sc failure` accepts, in the order they are emitted. */
  const ActionKinds: seq<string> := ["restart", "run", "reboot"]

  /** One action and its delay, when the delay is truthy. */
  function ActionPair(kind: string, delay: Value): seq<string> {
    if Truthy(delay) then [kind, ToStr(delay)] else []
  }

  /** The failure actions in the order restart, run, reboot, each with its
      delay, for the delays that are truthy. */
  function FailureActions(actions: Value): seq<string> {
    ActionPair("restart", Prop(actions, "restart"))
    + ActionPair("run", Prop(actions, "run"))
    + ActionPair("reboot", Prop(actions, "reboot"))
  }

  /** `setFailureConfig`: reset period, reboot message and command, then the
      actions as one slash-separated value when there are any. */
  function SetFailureConfig(argv: seq<Value>): BuiltCommand {
    var a := GetArgs(argv, 2);
    BuildCommand("failure", a.server, FailureOptionArgs([FirstPositional(a)], a.options), None)
  }

  /** The `addArg` calls of `setFailureConfig`. */
  function FailureOptionArgs(args: seq<Value>, o: map<string, Value>): seq<Value> {
    var t1 := AddArg(args, "reset", Get(o, "reset"));
    var t2 := AddArg(t1, "reboot", Get(o, "reboot"));
    var t3 := AddArg(t2, "command", Get(o, "command"));
    var acts := if Truthy(Get(o, "actions")) then FailureActions(Get(o, "actions")) else [];
    if |acts| > 0 then AddArg(t3, "actions", Str(Join(acts, "/"))) else t3
  }

  /** The scalar options of `sc failure` in the order they are emitted: the
      `sc` option name and the options key it is read from. */
  const FailureTable: seq<(string, string)> := [("reset", "reset"), ("reboot", "reboot"), ("command", "command")]

  /** The option pairs `setFailureConfig` emits: the truthy scalars of the
      table, then `actions` when any action has a truthy delay. */
  function FailurePairs(o: map<string, Value>): seq<(string, string)> {
    var acts := if Truthy(Get(o, "actions")) then FailureActions(Get(o, "actions")) else [];
    RowPairs(FailureTable, o) + (if |acts| > 0 then [("actions", Join(acts, "/"))] else [])
  }

  /** The failure table's pairs, row by row. */
  lemma FailureRows(o: map<string, Value>)
    ensures RowPairs(FailureTable, o)
         == ArgPair("reset", Get(o, "reset")) + ArgPair("reboot", Get(o, "reboot"))
            + ArgPair("command", Get(o, "command"))
  {
    var t := FailureTable;
    assert t[1..] == [("reboot", "reboot"), ("command", "command")];
    assert t[1..][1..] == [("command", "command")];
    assert t[1..][1..][1..] == [];
  }

  /** `setFailureConfig` called as `(server?, service, options)` produces
      `[\\server] failure service` followed by exactly the option pairs of
      `FailurePairs`. */
  lemma FailureConfigLayout(server: Option<Value>, service: Value, options: map<string, Value>)
    requires !service.Obj?
    requires server.Some? ==> !server.value.Obj?
    ensures SetFailureConfig(Call(server, [service], Some(options))).args
         == ServerPrefix(server) + [Str("failure")] + ([service] + PairTokens(FailurePairs(options)))
  {
    GetArgsOfCall(server, [service], Some(options));
    assert ServerPrefix(RecordedServer(server)) == ServerPrefix(server);
    FailureOptionArgsArePairs([service], options);
  }

  /** The options `setFailureConfig` appends are the pairs of `FailurePairs`. */
  lemma FailureOptionArgsArePairs(t0: seq<Value>, o: map<string, Value>)
    ensures FailureOptionArgs(t0, o) == t0 + PairTokens(FailurePairs(o))
  {
    FailureRows(o);
    assert t0 == t0 + PairTokens([]);
    var p1 := ArgPair("reset", Get(o, "reset"));
    var p2 := ArgPair("reboot", Get(o, "reboot"));
    var p3 := ArgPair("command", Get(o, "command"));
    var t1 := AddArg(t0, "reset", Get(o, "reset"));
    AddArgExtends(t0, t0, [], "reset", Get(o, "reset"));
    assert [] + p1 == p1;
    var t2 := AddArg(t1, "reboot", Get(o, "reboot"));
    AddArgExtends(t0, t1, p1, "reboot", Get(o, "reboot"));
    var t3 := AddArg(t2, "command", Get(o, "command"));
    AddArgExtends(t0, t2, p1 + p2, "command", Get(o, "command"));
    var acts := if Truthy(Get(o, "actions")) then FailureActions(Get(o, "actions")) else [];
    if |acts| > 0 {
      var joined := Join(acts, "/");
      assert acts[0] in ActionKinds;
      assert |joined| > 0 by {
        if |acts| > 1 {
          assert joined == acts[0] + "/" + Join(acts[1..], "/");
        }
      }
      AddArgExtends(t0, t3, p1 + p2 + p3, "actions", Str(joined));
    } else {
      assert p1 + p2 + p3 + [] == p1 + p2 + p3;
    }
  }

  /** A delay `sc failure` can read: a number, or nothing. */
  predicate NumericDelay(v: Value) {
    v.Num? || v == Undefined
  }

  /** `acts` alternates action kinds and delays, and every delay is the text of
      the number set for its kind in `actions`. */
  predicate ReadsBackAs(acts: seq<string>, actions: Value) {
    && |acts| % 2 == 0
    && forall k | 0 <= k < |acts| / 2 ::
         && acts[2 * k] in ActionKinds
         && Prop(actions, acts[2 * k]).Num?
         && ParseInt(acts[2 * k + 1]) == Some(Prop(actions, acts[2 * k]).n)
  }

  lemma ReadsBackAppend(xs: seq<string>, ys: seq<string>, actions: Value)
    requires ReadsBackAs(xs, actions) && ReadsBackAs(ys, actions)
    ensures ReadsBackAs(xs + ys, actions)
  {
    var zs := xs + ys;
    var h := |xs| / 2;
    forall k | 0 <= k < |zs| / 2
      ensures && zs[2 * k] in ActionKinds
              && Prop(actions, zs[2 * k]).Num?
              && ParseInt(zs[2 * k + 1]) == Some(Prop(actions, zs[2 * k]).n)
    {
      if k < h {
        assert zs[2 * k] == xs[2 * k] && zs[2 * k + 1] == xs[2 * k + 1];
      } else {
        var j := k - h;
        assert 2 * k - |xs| == 2 * j;
        assert zs[2 * k] == ys[2 * j] && zs[2 * k + 1] == ys[2 * j + 1];
      }
    }
  }

  lemma ActionPairReadsBack(kind: string, actions: Value)
    requires kind in ActionKinds
    requires NumericDelay(Prop(actions, kind))
    ensures ReadsBackAs(ActionPair(kind, Prop(actions, kind)), actions)
    ensures forall k | 0 <= k < |ActionPair(kind, Prop(actions, kind))| :: '/' !in ActionPair(kind, Prop(actions, kind))[k]
  {
    var v := Prop(actions, kind);
    if Truthy(v) {
      ParseIntOfString(v.n);
      NoSlashInNumber(v.n);
      var p := ActionPair(kind, v);
      assert p[2 * 0] == kind && p[2 * 0 + 1] == IntToString(v.n);
    }
  }

  /** With numeric delays the `actions` value is the kinds and delays joined
      with `/`: it splits back into them, and every delay reads back as the
      number set for its kind. */
  lemma FailureActionsReadBack(actions: Value, acts: seq<string>)
    requires forall kind | kind in ActionKinds :: NumericDelay(Prop(actions, kind))
    requires acts == FailureActions(actions)
    ensures ReadsBackAs(acts, actions)
    ensures |acts| > 0 ==> Split(Join(acts, "/"), "/") == acts
  {
    var p1 := ActionPair("restart", Prop(actions, "restart"));
    var p2 := ActionPair("run", Prop(actions, "run"));
    var p3 := ActionPair("reboot", Prop(actions, "reboot"));
    assert "restart" in ActionKinds && "run" in ActionKinds && "reboot" in ActionKinds;
    ActionPairReadsBack("restart", actions);
    ActionPairReadsBack("run", actions);
    ActionPairReadsBack("reboot", actions);
    ReadsBackAppend(p1, p2, actions);
    ReadsBackAppend(p1 + p2, p3, actions);
    if |acts| > 0 {
      forall k | 0 <= k < |acts|
        ensures "/"[0] !in acts[k]
      {
        if k < |p1| {
          assert acts[k] == p1[k];
        } else if k < |p1| + |p2| {
          assert acts[k] == p2[k - |p1|];
        } else {
          assert acts[k] == p3[k - |p1| - |p2|];
        }
      }
      SplitJoin(acts, "/");
    }
  }

  lemma NoSlashInNumber(n: int)
    ensures '/' !in IntToString(n)
  {
    var s := IntToString(n);
    var ds := NatToString(if n < 0 then -n else n);
    assert forall k | 0 <= k < |ds| :: IsDigit(ds[k]);
    if n < 0 {
      assert forall k | 1 <= k < |s| :: s[k] == ds[k - 1];
    }
  }

  /** `query`: a single service by name, or an enumeration filtered by class,
      type, state and group with a 256 KiB buffer. */
  function Query(argv: seq<Value>): BuiltCommand {
    var a := GetArgs(argv, 1);
    var o := a.options;
    var name := Get(o, "name");
    var args := if Truthy(name) then [name] else QueryFilters(o);
    BuildCommand("queryex", a.server, args, None)
  }

  /** The `addArg` calls of an enumerating `query`. */
  function QueryFilters(o: map<string, Value>): seq<Value> {
    var q1 := AddArg([], "type", Get(o, "class"));
    var q2 := AddArg(q1, "type", Get(o, "type"));
    var q3 := AddArg(q2, "state", Get(o, "state"));
    var q4 := AddArg(q3, "group", Get(o, "group"));
    AddArg(q4, "bufsize", Num(262144))
  }

  /** The decimal text of the enumeration buffer size. */
  lemma BufSizeText()
    ensures ToStr(Num(262144)) == "262144"
  {
    assert NatToString(2) == "2";
    assert NatToString(26) == "26";
    assert NatToString(262) == "262";
    assert NatToString(2621) == "2621";
    assert NatToString(26214) == "26214";
    assert NatToString(262144) == "262144";
  }

  /** The filters of an enumerating `query` in the order they are emitted: the
      `sc` option name and the options key it is read from. */
  const QueryTable: seq<(string, string)> := [("type", "class"), ("type", "type"), ("state", "state"), ("group", "group")]

  /** The option pairs of an enumerating `query`: the truthy filters of the
      table, then the buffer size. */
  function QueryPairs(o: map<string, Value>): seq<(string, string)> {
    RowPairs(QueryTable, o) + [("bufsize", "262144")]
  }

  /** The query table's pairs, row by row. */
  lemma QueryRows(o: map<string, Value>)
    ensures RowPairs(QueryTable, o)
         == ArgPair("type", Get(o, "class")) + ArgPair("type", Get(o, "type"))
            + ArgPair("state", Get(o, "state")) + ArgPair("group", Get(o, "group"))
  {
    var t := QueryTable;
    assert t[1..] == [("type", "type"), ("state", "state"), ("group", "group")];
    assert t[1..][1..] == [("state", "state"), ("group", "group")];
    assert t[1..][1..][1..] == [("group", "group")];
    assert t[1..][1..][1..][1..] == [];
  }

  /** `query` names one service when `name` is set; otherwise it emits exactly
      the pairs of `QueryPairs`. */
  lemma QueryLayout(server: Option<Value>, options: map<string, Value>, c: seq<Value>)
    requires server.Some? ==> !server.value.Obj?
    requires c == Query(Call(server, [], Some(options))).args
    ensures Truthy(Get(options, "name")) ==>
              c == ServerPrefix(server) + [Str("queryex")] + [Get(options, "name")]
    ensures !Truthy(Get(options, "name")) ==>
              c == ServerPrefix(server) + [Str("queryex")] + PairTokens(QueryPairs(options))
  {
    GetArgsOfCall(server, [], Some(options));
    assert ServerPrefix(RecordedServer(server)) == ServerPrefix(server);
    if !Truthy(Get(options, "name")) {
      QueryFiltersArePairs(options);
    }
  }

  /** The filters of an enumerating `query` are the pairs of `QueryPairs`. */
  lemma QueryFiltersArePairs(o: map<string, Value>)
    ensures QueryFilters(o) == PairTokens(QueryPairs(o))
  {
    QueryRows(o);
    var e: seq<Value> := [];
    assert e == e + PairTokens([]);
    var p1 := ArgPair("type", Get(o, "class"));
    var p2 := ArgPair("type", Get(o, "type"));
    var p3 := ArgPair("state", Get(o, "state"));
    var p4 := ArgPair("group", Get(o, "group"));
    BufSizeText();
    var q1 := AddArg(e, "type", Get(o, "class"));
    AddArgExtends(e, e, [], "type", Get(o, "class"));
    assert [] + p1 == p1;
    var q2 := AddArg(q1, "type", Get(o, "type"));
    AddArgExtends(e, q1, p1, "type", Get(o, "type"));
    var q3 := AddArg(q2, "state", Get(o, "state"));
    AddArgExtends(e, q2, p1 + p2, "state", Get(o, "state"));
    var q4 := AddArg(q3, "group", Get(o, "group"));
    AddArgExtends(e, q3, p1 + p2 + p3, "group", Get(o, "group"));
    AddArgExtends(e, q4, p1 + p2 + p3 + p4, "bufsize", Num(262144));
    assert ArgPair("bufsize", Num(262144)) == [("bufsize", "262144")];
  }

  // ---------------------------------------------------------------------------
  // Control commands
  // ---------------------------------------------------------------------------

  /** The services a control command addresses: a list, or a single name
      wrapped into a one-element list. */
  function ServiceList(first: Value): seq<Value> {
    if first.Arr? then Strs(first.items) else [first]
  }

  /** The extra per-service arguments of `options.args`: an array is spread, a
      plain object spreads nothing, and any other truthy value makes
      `push.apply` throw. */
  function ExtraArgs(v: Value): Result<seq<Value>> {
    if !Truthy(v) then Ok([])
    else match v
      case Arr(xs) => Ok(Strs(xs))
      case Obj(_) => Ok([])
      case _ => Fail("TypeError")
  }

  /** The command for one service of a control batch. */
  function ControlCommandFor(commandName: string, server: Option<Value>, service: Value, extra: seq<Value>, successCodes: Option<seq<int>>): BuiltCommand {
    BuildCommand(commandName, server, [service] + extra, successCodes)
      .(service := Some(service), server := RecordedServer(server))
  }

  /** `buildControlCommand`: one command per service, in input order, all
      sharing the sub-command, the server and the success codes. */
  function BuildControlCommand(argv: seq<Value>, commandName: string, successCodes: Option<seq<int>>): Result<BuiltControlCommand> {
    var a := GetArgs(argv, 2);
    var services := ServiceList(FirstPositional(a));
    var extra := ExtraArgs(Get(a.options, "args"));
    if |services| > 0 && extra.Fail? then Fail(extra.error)
    else
      var ex := if extra.Ok? then extra.value else [];
      Ok(BuiltControlCommand(
        commandName,
        seq(|services|, i requires 0 <= i < |services| => ControlCommandFor(commandName, a.server, services[i], ex, successCodes)),
        a.server,
        Get(a.options, "serial"),
        Get(a.options, "waitForExit"),
        Get(a.options, "timeout"),
        Get(a.options, "args")))
  }

  /** A control batch, given the resolved arguments `a`, the services they
      address and the extra arguments: it fails exactly when there is a service
      and the extra arguments throw; otherwise command `i` is
      `[\\server] commandName services[i] extra...` for service `i`, with the
      batch's success codes. */
  lemma BuildControlCommandShape(argv: seq<Value>, commandName: string, successCodes: Option<seq<int>>, a: ArgsOut, services: seq<Value>, extra: Result<seq<Value>>, r: Result<BuiltControlCommand>)
    requires a == GetArgs(argv, 2)
    requires services == ServiceList(FirstPositional(a))
    requires extra == ExtraArgs(Get(a.options, "args"))
    requires r == BuildControlCommand(argv, commandName, successCodes)
    ensures r.Fail? <==> |services| > 0 && extra.Fail?
    ensures r.Ok? ==> r.value.command == commandName && |r.value.commands| == |services| && r.value.server == a.server
    ensures r.Ok? && extra.Ok? ==>
              forall i | 0 <= i < |services| ::
                && r.value.commands[i].service == Some(services[i])
                && r.value.commands[i].path == "sc"
                && r.value.commands[i].args == ServerPrefix(a.server) + [Str(commandName)] + ([services[i]] + extra.value)
                && r.value.commands[i].successCodes == successCodes.GetOr([])
    ensures r.Ok? && extra.Fail? ==> r.value.commands == []
  {
  }

  /** `start` treats exit code 1056 (already running) as success. */
  function Start(argv: seq<Value>): Result<BuiltControlCommand> {
    BuildControlCommand(argv, "start", Some([1056]))
  }

  /** `stop` treats exit code 1062 (not started) as success. */
  function Stop(argv: seq<Value>): Result<BuiltControlCommand> {
    BuildControlCommand(argv, "stop", Some([1062]))
  }

  function Pause(argv: seq<Value>): Result<BuiltControlCommand> {
    BuildControlCommand(argv, "pause", None)
  }

  function Continue(argv: seq<Value>): Result<BuiltControlCommand> {
    BuildControlCommand(argv, "continue", None)
  }

  /** The process runner's acceptance rule: exit code 0, or one of the
      command's success codes. */
  predicate ExitAccepted(c: BuiltCommand, code: int) {
    code == 0 || code in c.successCodes
  }

  /** Every command of a `start` batch accepts exactly 0 and 1056, every command
      of a `stop` batch exactly 0 and 1062, and `pause`/`continue` only 0. */
  lemma ControlAcceptance(argv: seq<Value>, code: int)
    ensures Start(argv).Ok? ==> forall c | c in Start(argv).value.commands :: ExitAccepted(c, code) <==> code in {0, 1056}
    ensures Stop(argv).Ok? ==> forall c | c in Stop(argv).value.commands :: ExitAccepted(c, code) <==> code in {0, 1062}
    ensures Pause(argv).Ok? ==> forall c | c in Pause(argv).value.commands :: ExitAccepted(c, code) <==> code == 0
    ensures Continue(argv).Ok? ==> forall c | c in Continue(argv).value.commands :: ExitAccepted(c, code) <==> code == 0
  {
    ControlCodes(argv, "start", Some([1056]));
    ControlCodes(argv, "stop", Some([1062]));
    ControlCodes(argv, "pause", None);
    ControlCodes(argv, "continue", None);
  }

  /** Every command of a batch carries the batch's success codes. */
  lemma ControlCodes(argv: seq<Value>, commandName: string, successCodes: Option<seq<int>>)
    ensures BuildControlCommand(argv, commandName, successCodes).Ok? ==>
              forall c | c in BuildControlCommand(argv, commandName, successCodes).value.commands ::
                c.successCodes == successCodes.GetOr([])
  {
    var a := GetArgs(argv, 2);
    BuildControlCommandShape(argv, commandName, successCodes, a, ServiceList(FirstPositional(a)),
      ExtraArgs(Get(a.options, "args")), BuildControlCommand(argv, commandName, successCodes));
  }

  /** A list of services, called as `(server?, names, options?)` with no extra
      arguments, expands into one command per name, in order, each reading back
      as `[\\server] sub-command name`; the batch keeps `serial`. */
  lemma ControlBatchOfNames(commandName: string, server: Option<Value>, names: seq<string>, options: map<string, Value>, successCodes: Option<seq<int>>, r: Result<BuiltControlCommand>)
    requires !IsUNC(commandName)
    requires server.Some? ==> !server.value.Obj?
    requires !Truthy(Get(options, "args"))
    requires r == BuildControlCommand(Call(server, [Arr(names)], Some(options)), commandName, successCodes)
    ensures r.Ok?
    ensures |r.value.commands| == |names|
    ensures r.value.serial == Get(options, "serial")
    ensures forall i | 0 <= i < |names| ::
              && r.value.commands[i].service == Some(Str(names[i]))
              && ReadCommandLine(r.value.commands[i].args) == Some((ServerName(server), commandName, [Str(names[i])]))
  {
    var argv := Call(server, [Arr(names)], Some(options));
    GetArgsOfCall(server, [Arr(names)], Some(options));
    var a := GetArgs(argv, 2);
    assert ExtraArgs(Get(a.options, "args")) == Ok([]);
    BuildControlCommandShape(argv, commandName, successCodes, a, Strs(names), Ok([]), r);
    forall i | 0 <= i < |names|
      ensures ReadCommandLine(r.value.commands[i].args) == Some((ServerName(server), commandName, [Str(names[i])]))
    {
      BuildCommandReadsBack(commandName, server, [Str(names[i])], successCodes,
        BuildCommand(commandName, server, [Str(names[i])], successCodes));
      assert ServerPrefix(RecordedServer(server)) == ServerPrefix(server);
      assert [Str(names[i])] + [] == [Str(names[i])];
    }
  }

  /** A single service name is wrapped into a one-element batch. */
  lemma ControlSingleName(commandName: string, server: Option<Value>, name: string, r: Result<BuiltControlCommand>)
    requires server.Some? ==> !server.value.Obj?
    requires r == BuildControlCommand(Call(server, [Str(name)], None), commandName, None)
    ensures r.Ok?
    ensures |r.value.commands| == 1
    ensures r.value.commands[0].service == Some(Str(name))
    ensures r.value.commands[0].args == ServerPrefix(server) + [Str(commandName), Str(name)]
  {
    var argv := Call(server, [Str(name)], None);
    GetArgsOfCall(server, [Str(name)], None);
    var a := GetArgs(argv, 2);
    assert ServerPrefix(a.server) == ServerPrefix(server);
    BuildControlCommandShape(argv, commandName, None, a, [Str(name)], Ok([]), r);
    assert r.value.commands[0].args == ServerPrefix(server) + [Str(commandName)] + ([Str(name)] + []);
  }

  /** Starting `["a", "b"]` serially yields two commands, `start a` then
      `start b`, each accepting exit code 1056. */
  lemma StartTwoServicesSerially(r: Result<BuiltControlCommand>)
    requires r == Start([Arr(["a", "b"]), Obj(map["serial" := Bool(true)])])
    ensures r.Ok?
    ensures r.value.serial == Bool(true)
    ensures |r.value.commands| == 2
    ensures r.value.commands[0].args == [Str("start"), Str("a")]
    ensures r.value.commands[1].args == [Str("start"), Str("b")]
    ensures r.value.commands[0].successCodes == [1056]
  {
    var o := map["serial" := Bool(true)];
    var argv := [Arr(["a", "b"]), Obj(o)];
    assert Positionals(argv) == [Arr(["a", "b"])];
    assert GetArgs(argv, 2) == ArgsOut(None, [Arr(["a", "b"])], o);
    assert ServiceList(Arr(["a", "b"])) == [Str("a"), Str("b")];
    assert "args" !in o;
    assert ExtraArgs(Get(o, "args")) == Ok([]);
    BuildControlCommandShape(argv, "start", Some([1056]), ArgsOut(None, [Arr(["a", "b"])], o), [Str("a"), Str("b")], Ok([]), r);
    assert r.value.commands[0].args == [] + [Str("start")] + ([Str("a")] + []);
    assert r.value.commands[1].args == [] + [Str("start")] + ([Str("b")] + []);
  }
}
