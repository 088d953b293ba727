/** The record parsers of the `sc` output parser: each reads what `sc.exe`
    printed for one subcommand into a record, and every field it cannot find
    falls back to a fallback, so no parser fails. */
module ScParser {
  import opened Wrappers
  import opened JsText
  import opened ScFields

  // ---------------------------------------------------------------------------
  // error
  // ---------------------------------------------------------------------------

  /** `error`: the `ERROR` field when it is non-empty, else the line after a
      leading `[SC]` line when that is non-empty, else the whole output. */
  function Error(output: string): (r: string)
    ensures output != "" ==> r != ""
    ensures r == output || (OneLine(r) && IsTrimmed(r))
  {
    var field := GetValue(output, "ERROR").GetOr("");
    if field != "" then field
    else
      var message := Capture(ScPrefixed, output).GetOr("");
      if message != "" then message else output
  }

  /** An `ERROR` field with a value is the error, whatever else was printed. */
  lemma ErrorOfField(pre: string, gap: string, sep: char, value: string, post: string)
    requires Blank(gap) && IsSeparator(sep) && OneLine(value) && EndsLine(post)
    requires Trim(value) != ""
    requires FirstMention(pre + "ERROR" + gap + [sep] + value + post, "ERROR", |pre|, false)
    ensures Error(pre + "ERROR" + gap + [sep] + value + post) == Trim(value)
  {
    GetValueOfField(pre, "ERROR", gap, sep, value, post);
  }

  /** Where the scanners stop on `[SC] first brk message post`. */
  lemma ScLineScans(first: string, brk: string, message: string, post: string, s: string)
    requires OneLine(first) && Blank(brk) && |brk| > 0 && IsLineTerminator(brk[0])
    requires |message| > 0 && !IsSpace(message[0])
    requires s == "[SC]" + (first + (brk + (message + post)))
    ensures OccursAt(s, "[SC]", 0)
    ensures LineEnd(s, 4) == 4 + |first|
    ensures SkipSpace(s, 4 + |first|) == 4 + |first| + |brk|
  {
    var rest := brk + (message + post);
    assert s[0..4] == "[SC]";
    assert rest[0] == brk[0];
    LineEndShift("[SC]", first + rest, 4, 0);
    LineEndOver(first, rest);
    LineEndIs(rest, 0, 0);
    AppendAssoc("[SC]", first, rest);
    assert (message + post)[0] == message[0];
    SpaceRunIs(brk, message + post);
    SkipSpaceShift("[SC]" + first, rest, 4 + |first|, 0);
  }

  /** Where the message after the `[SC]` line ends, and its text. */
  lemma ScMessageScans(head: string, message: string, post: string, s: string, q: nat)
    requires OneLine(message) && EndsLine(post)
    requires s == head + (message + post) && q == |head|
    ensures LineEnd(s, q) == q + |message|
    ensures s[q..q + |message|] == message
  {
    LineEndShift(head, message + post, q, 0);
    LineEndOver(message, post);
    LineEndIs(post, 0, 0);
    PieceAfter(head, message, post);
  }

  /** The line after a leading `[SC]` line, as in
      `[SC] OpenService FAILED 1060:` followed by a blank line and the message. */
  lemma ScPrefixedCapture(first: string, brk: string, message: string, post: string, s: string)
    requires OneLine(first) && Blank(brk) && |brk| > 0 && IsLineTerminator(brk[0])
    requires |message| > 0 && IsTrimmed(message) && OneLine(message) && EndsLine(post)
    requires s == "[SC]" + (first + (brk + (message + post)))
    ensures Capture(ScPrefixed, s) == Some(message)
  {
    var head := "[SC]" + first + brk;
    var lo := |head|;
    var hi := lo + |message|;
    ScLineScans(first, brk, message, post, s);
    assert LineEnd(s, lo) == hi && s[lo..hi] == message by {
      assert s == head + (message + post);
      ScMessageScans(head, message, post, s, lo);
    }
    TaggedLineMatchIs(s, 4 + |first|, lo, hi);
    CaptureBetween(ScPrefixed, s, 0, lo, hi);
    TrimOfTrimmed(message);
  }

  /** Without an `ERROR` label, an `[SC]` report yields the message after its
      first line. */
  lemma ErrorOfScReport(first: string, brk: string, message: string, post: string, s: string)
    requires OneLine(first) && Blank(brk) && |brk| > 0 && IsLineTerminator(brk[0])
    requires |message| > 0 && IsTrimmed(message) && OneLine(message) && EndsLine(post)
    requires s == "[SC]" + (first + (brk + (message + post)))
    requires Unmentioned(s, "ERROR")
    ensures Error(s) == message
  {
    AbsentValue(s, "ERROR");
    ScPrefixedCapture(first, brk, message, post, s);
  }

  /** Output that neither has an `ERROR` label nor starts with `[SC]` is its
      own error message. */
  lemma ErrorFallsBack(output: string)
    requires Unmentioned(output, "ERROR") && !OccursAt(output, "[SC]", 0)
    ensures Error(output) == output
  {
    AbsentValue(output, "ERROR");
    forall i | 0 <= i <= |output|
      ensures MatchAt(ScPrefixed, output, i).None?
    {
    }
    CaptureNone(ScPrefixed, output);
  }

  // ---------------------------------------------------------------------------
  // displayName, keyName, description, descriptor
  // ---------------------------------------------------------------------------

  /** The value of a labelled field, or the whole output when the label with a
      separator is nowhere. */
  function ValueOrOutput(output: string, name: string): string {
    GetValue(output, name).GetOr(output)
  }

  /** `displayName`: the `Name` field of `sc GetDisplayName`. */
  function DisplayName(output: string): string {
    ValueOrOutput(output, "Name")
  }

  /** `keyName`: the `Name` field of `sc GetKeyName`. */
  function KeyName(output: string): string {
    ValueOrOutput(output, "Name")
  }

  /** `description`: the `DESCRIPTION` field of `sc qdescription`. */
  function Description(output: string): string {
    ValueOrOutput(output, "DESCRIPTION")
  }

  /** A labelled field reads back as its trimmed value, in each of the three
      single-value parsers. */
  lemma ValueOrOutputOfField(pre: string, name: string, gap: string, sep: char, value: string, post: string)
    requires Blank(gap) && IsSeparator(sep) && OneLine(value) && EndsLine(post)
    requires FirstMention(pre + name + gap + [sep] + value + post, name, |pre|, false)
    ensures ValueOrOutput(pre + name + gap + [sep] + value + post, name) == Trim(value)
    ensures name == "Name" ==> DisplayName(pre + name + gap + [sep] + value + post) == Trim(value)
    ensures name == "Name" ==> KeyName(pre + name + gap + [sep] + value + post) == Trim(value)
    ensures name == "DESCRIPTION" ==> Description(pre + name + gap + [sep] + value + post) == Trim(value)
  {
    GetValueOfField(pre, name, gap, sep, value, post);
  }

  /** Without the label the parsers return the output unchanged: they never fail. */
  lemma ValueOrOutputFallsBack(output: string, name: string)
    requires Unmentioned(output, name)
    ensures ValueOrOutput(output, name) == output
    ensures name == "Name" ==> DisplayName(output) == output && KeyName(output) == output
    ensures name == "DESCRIPTION" ==> Description(output) == output
  {
    AbsentValue(output, name);
  }

  /** `descriptor`: the first line that is not blank, trimmed. The pattern
      `\s*(.*)\s*` matches at the start of any text, so the fallback is never used. */
  function Descriptor(output: string): (r: string)
    ensures OneLine(r) && IsTrimmed(r)
  {
    assert MatchAt(LeadingLine, output, 0).Some?;
    CaptureNone(LeadingLine, output);
    Capture(LeadingLine, output).GetOr(output)
  }

  /** The security descriptor printed by `sc sdshow` after blank lines is read
      back trimmed. */
  lemma DescriptorOfText(gap: string, line: string, post: string)
    requires Blank(gap) && |line| > 0 && !IsSpace(line[0]) && OneLine(line) && EndsLine(post)
    ensures Descriptor(gap + (line + post)) == Trim(line)
  {
    var s := gap + (line + post);
    assert (line + post)[0] == line[0];
    SpaceRunIs(gap, line + post);
    ScMessageScans(gap, line, post, s, |gap|);
    assert MatchAt(LeadingLine, s, 0) == Some(Span(|gap|, |gap| + |line|));
    CaptureAt(LeadingLine, s, 0);
  }

  /** Blank output has the empty descriptor. */
  lemma DescriptorOfBlank(output: string)
    requires Blank(output)
    ensures Descriptor(output) == ""
  {
    SkipSpaceIs(output, 0, |output|);
    assert MatchAt(LeadingLine, output, 0) == Some(Span(|output|, |output|));
    CaptureAt(LeadingLine, output, 0);
    SkipSpaceIs("", 0, 0);
  }

  // ---------------------------------------------------------------------------
  // lock and failureConfig
  // ---------------------------------------------------------------------------

  /** What `sc querylock` reports. `duration` is `None` for `NaN`. */
  datatype LockStatus = LockStatus(locked: bool, owner: string, duration: Option<int>)

  /** `lock`, under a reading of its boolean and numeric fields. */
  function Lock(output: string, reading: Reading): (r: LockStatus)
    ensures OneLine(r.owner) && IsTrimmed(r.owner)
  {
    LockStatus(
      BooleanRead(reading, output, "IsLocked", false),
      GetValue(output, "LockOwner").GetOr(""),
      NumberRead(reading, output, "LockDuration", false, "0"))
  }

  /** Without any of its labels the lock is free, unowned and of duration 0. */
  lemma LockDefaults(output: string, reading: Reading)
    requires forall i | 0 <= i <= |output| :: !NameAt(output, "IsLocked", i, true)
    requires Unmentioned(output, "LockOwner") && Unmentioned(output, "LockDuration")
    ensures Lock(output, reading) == LockStatus(false, "", Some(0))
  {
    AbsentBoolean(output, "IsLocked", false);
    AbsentValue(output, "LockOwner");
    AbsentNumber(output, "LockDuration", false);
  }

  /** `IsLocked : TRUE` or `FALSE` (label and word in any case): as written
      every such line reports the lock as held; in the corrected reading it is
      held exactly for `true`. */
  lemma LockedOfField(pre: string, shown: string, gap: string, sep: char, gap2: string, word: string, post: string, s: string)
    requires EqualsIgnoreCase(shown, "IsLocked")
    requires Blank(gap) && IsSeparator(sep) && Blank(gap2)
    requires EqualsIgnoreCase(word, "true") || EqualsIgnoreCase(word, "false")
    requires s == pre + shown + gap + [sep] + (gap2 + (word + post))
    requires FirstMention(s, "IsLocked", |pre|, true)
    ensures Lock(s, AsWritten).locked
    ensures Lock(s, Intended).locked <==> EqualsIgnoreCase(word, "true")
  {
    BooleanOfField(pre, shown, "IsLocked", gap, sep, gap2, word, post, s);
  }

  /** `LockDuration : 5 (seconds since acquired)` reads back as 5. */
  lemma LockDurationOfField(pre: string, gap: string, sep: char, gap2: string, n: nat, rest: string, s: string, reading: Reading)
    requires Blank(gap) && IsSeparator(sep) && Blank(gap2)
    requires rest == [] || IsSpace(rest[0])
    requires s == pre + "LockDuration" + gap + [sep] + (gap2 + (NatToString(n) + rest))
    requires FirstMention(s, "LockDuration", |pre|, false)
    ensures Lock(s, reading).duration == Some(n)
  {
    DecimalOfField(pre, "LockDuration", gap, sep, gap2, n, rest, "0", s);
  }

  /** What `sc qfailure` reports. */
  datatype FailureSettings = FailureSettings(
    resetPeriod: Option<int>,
    rebootMessage: string,
    commandLine: string,
    failureActions: string)

  /** The label of the reset period, with its unit. */
  const ResetPeriodLabel := "RESET_PERIOD (in seconds)"

  /** `failureConfig`. */
  function FailureConfig(output: string): (r: FailureSettings)
    ensures OneLine(r.rebootMessage) && OneLine(r.commandLine) && OneLine(r.failureActions)
  {
    FailureSettings(
      NumericValueAsWritten(output, ResetPeriodLabel, false, "0"),
      GetValue(output, "REBOOT_MESSAGE").GetOr(""),
      GetValue(output, "COMMAND_LINE").GetOr(""),
      GetValue(output, "FAILURE_ACTIONS").GetOr(""))
  }

  /** Without any of its labels the failure settings are 0 and empty texts. */
  lemma FailureConfigDefaults(output: string)
    requires Unmentioned(output, ResetPeriodLabel) && Unmentioned(output, "REBOOT_MESSAGE")
    requires Unmentioned(output, "COMMAND_LINE") && Unmentioned(output, "FAILURE_ACTIONS")
    ensures FailureConfig(output) == FailureSettings(Some(0), "", "", "")
  {
    AbsentNumber(output, ResetPeriodLabel, false);
    AbsentValue(output, "REBOOT_MESSAGE");
    AbsentValue(output, "COMMAND_LINE");
    AbsentValue(output, "FAILURE_ACTIONS");
  }

  /** `RESET_PERIOD (in seconds) : 86400` reads back as 86400. */
  lemma ResetPeriodOfField(pre: string, gap: string, sep: char, gap2: string, n: nat, rest: string, s: string)
    requires Blank(gap) && IsSeparator(sep) && Blank(gap2)
    requires rest == [] || IsSpace(rest[0])
    requires s == pre + ResetPeriodLabel + gap + [sep] + (gap2 + (NatToString(n) + rest))
    requires FirstMention(s, ResetPeriodLabel, |pre|, false)
    ensures FailureConfig(s).resetPeriod == Some(n)
  {
    DecimalOfField(pre, ResetPeriodLabel, gap, sep, gap2, n, rest, "0", s);
  }

  // ---------------------------------------------------------------------------
  // config
  // ---------------------------------------------------------------------------

  /** A code printed in hexadecimal without a prefix, followed by its name, as
      in `TYPE : 10  WIN32_OWN_PROCESS`. */
  datatype Coded = Coded(code: Option<int>, name: string)

  /** The code and name of a coded field, under a reading of the code; the
      code defaults to 0. */
  function CodedValue(output: string, name: string, reading: Reading): (r: Coded)
    ensures OneLine(r.name) && IsTrimmed(r.name)
  {
    Coded(NumberRead(reading, output, name, true, "0"), CodeNameValue(output, name).GetOr(""))
  }

  /** A coded field reads back as its hexadecimal code and its trimmed name. */
  lemma CodedOfField(pre: string, name: string, gap: string, sep: char, gap2: string, digits: string, gap3: string, codeName: string, post: string, s: string, reading: Reading)
    requires Blank(gap) && IsSeparator(sep) && Blank(gap2) && Blank(gap3) && |gap3| > 0
    requires |digits| > 0 && AllDigits(digits)
    requires |codeName| > 0 && !IsSpace(codeName[0]) && OneLine(codeName) && EndsLine(post)
    requires s == pre + name + gap + [sep] + (gap2 + (digits + (gap3 + (codeName + post))))
    requires FirstMention(s, name, |pre|, false)
    ensures CodedValue(s, name, reading) == Coded(Some(DigitsValue(digits, 16) as int), Trim(codeName))
  {
    CodeOfField(pre, name, gap, sep, gap2, digits, gap3, codeName, post, s);
  }

  /** Without its label a coded field is code 0 with an empty name. */
  lemma CodedDefault(output: string, name: string, reading: Reading)
    requires Unmentioned(output, name)
    ensures CodedValue(output, name, reading) == Coded(Some(0), "")
  {
    AbsentNumber(output, name, true);
    AbsentValue(output, name);
  }

  /** A code already written with `0x`, as in `TYPE : 0x10`: as written the
      parser puts a second `0x` in front and reads code 0, while the corrected
      reading gives the code's value. */
  lemma CodedHexPrefixed(pre: string, name: string, gap: string, sep: char, gap2: string, digits: string, rest: string, s: string)
    requires Blank(gap) && IsSeparator(sep) && Blank(gap2)
    requires |digits| > 0 && AllDigits(digits)
    requires rest == [] || IsSpace(rest[0])
    requires s == pre + name + gap + [sep] + (gap2 + ("0x" + (digits + rest)))
    requires FirstMention(s, name, |pre|, false)
    ensures CodedValue(s, name, AsWritten).code == Some(0)
    ensures CodedValue(s, name, Intended).code == Some(DigitsValue(digits, 16) as int)
  {
    HexPrefixedField(pre, name, gap, sep, gap2, digits, rest, s);
  }

  /** What `sc qc` reports. */
  datatype ServiceConfig = ServiceConfig(
    serviceType: Coded,
    startType: Coded,
    errorControl: Coded,
    binPath: string,
    loadOrderGroup: string,
    tag: Option<int>,
    displayName: string,
    dependencies: seq<string>,
    serviceStartName: string)

  /** `config`, under a reading of its codes. */
  function Config(output: string, reading: Reading): (r: ServiceConfig)
    ensures forall k | 0 <= k < |r.dependencies| :: r.dependencies[k] != ""
    ensures OneLine(r.binPath) && OneLine(r.displayName) && OneLine(r.serviceStartName)
  {
    ServiceConfig(
      CodedValue(output, "TYPE", reading),
      CodedValue(output, "START_TYPE", reading),
      CodedValue(output, "ERROR_CONTROL", reading),
      GetValue(output, "BINARY_PATH_NAME").GetOr(""),
      GetValue(output, "LOAD_ORDER_GROUP").GetOr(""),
      NumberRead(reading, output, "TAG", false, "0"),
      GetValue(output, "DISPLAY_NAME").GetOr(""),
      ArrayValue(output, "DEPENDENCIES"),
      GetValue(output, "SERVICE_START_NAME").GetOr(""))
  }

  /** Without any of its labels the configuration is all zero codes and empty
      texts. (`TYPE` is part of `START_TYPE`, so its absence covers both.) */
  lemma ConfigDefaults(output: string, reading: Reading)
    requires Unmentioned(output, "TYPE") && Unmentioned(output, "ERROR_CONTROL")
    requires Unmentioned(output, "BINARY_PATH_NAME") && Unmentioned(output, "LOAD_ORDER_GROUP")
    requires Unmentioned(output, "TAG") && Unmentioned(output, "DISPLAY_NAME")
    requires Unmentioned(output, "DEPENDENCIES") && Unmentioned(output, "SERVICE_START_NAME")
    ensures Config(output, reading) == ServiceConfig(Coded(Some(0), ""), Coded(Some(0), ""), Coded(Some(0), ""), "", "", Some(0), "", [], "")
  {
    var c := Config(output, reading);
    assert c.serviceType == Coded(Some(0), "") by {
      CodedDefault(output, "TYPE", reading);
    }
    assert c.startType == Coded(Some(0), "") by {
      StartTypeUnmentioned(output);
      CodedDefault(output, "START_TYPE", reading);
    }
    assert c.errorControl == Coded(Some(0), "") by {
      CodedDefault(output, "ERROR_CONTROL", reading);
    }
    assert c.tag == Some(0) by {
      AbsentNumber(output, "TAG", false);
    }
    AbsentValue(output, "BINARY_PATH_NAME");
    AbsentValue(output, "LOAD_ORDER_GROUP");
    AbsentValue(output, "DISPLAY_NAME");
    AbsentValue(output, "SERVICE_START_NAME");
  }

  /** Without `TYPE` there is no `START_TYPE` either. */
  lemma StartTypeUnmentioned(output: string)
    requires Unmentioned(output, "TYPE")
    ensures Unmentioned(output, "START_TYPE")
  {
    UnmentionedWithin(output, "TYPE", "START_TYPE", 6);
  }

  /** A label that never occurs is not part of a longer label that occurs. */
  lemma UnmentionedWithin(s: string, name: string, longer: string, at: nat)
    requires at + |name| <= |longer| && longer[at..at + |name|] == name
    requires Unmentioned(s, name)
    ensures Unmentioned(s, longer)
  {
    forall i | 0 <= i <= |s|
      ensures !OccursAt(s, longer, i)
    {
      if OccursAt(s, longer, i) {
        forall k | 0 <= k < |name|
          ensures s[i + at + k] == name[k]
        {
          assert longer[at..at + |name|][k] == longer[at + k];
          assert s[i..i + |longer|][at + k] == s[i + at + k];
        }
        assert s[i + at..i + at + |name|] == name;
        assert OccursAt(s, name, i + at);
      }
    }
  }

  /** The type, start type and error control read back from their lines. */
  lemma ConfigCodeOfField(pre: string, name: string, gap: string, sep: char, gap2: string, digits: string, gap3: string, codeName: string, post: string, s: string, reading: Reading)
    requires name == "TYPE" || name == "START_TYPE" || name == "ERROR_CONTROL"
    requires Blank(gap) && IsSeparator(sep) && Blank(gap2) && Blank(gap3) && |gap3| > 0
    requires |digits| > 0 && AllDigits(digits)
    requires |codeName| > 0 && !IsSpace(codeName[0]) && OneLine(codeName) && EndsLine(post)
    requires s == pre + name + gap + [sep] + (gap2 + (digits + (gap3 + (codeName + post))))
    requires FirstMention(s, name, |pre|, false)
    ensures name == "TYPE" ==> Config(s, reading).serviceType == Coded(Some(DigitsValue(digits, 16) as int), Trim(codeName))
    ensures name == "START_TYPE" ==> Config(s, reading).startType == Coded(Some(DigitsValue(digits, 16) as int), Trim(codeName))
    ensures name == "ERROR_CONTROL" ==> Config(s, reading).errorControl == Coded(Some(DigitsValue(digits, 16) as int), Trim(codeName))
  {
    CodedOfField(pre, name, gap, sep, gap2, digits, gap3, codeName, post, s, reading);
  }

  /** The dependencies read back as the values of the `: value` lines after
      `DEPENDENCIES`, in order. */
  lemma ConfigDependenciesOfList(pre: string, gaps: seq<string>, values: seq<string>, post: string, s: string, reading: Reading)
    requires WellListed(gaps, values) && ListStops(post)
    requires s == pre + "DEPENDENCIES" + (ListText(gaps, values) + post)
    requires FirstMention(s, "DEPENDENCIES", |pre|, false)
    ensures Config(s, reading).dependencies == values
  {
    ArrayOfList(pre, "DEPENDENCIES", gaps, values, post, s);
  }

  // ---------------------------------------------------------------------------
  // services: the output split into blocks at blank lines
  // ---------------------------------------------------------------------------

  /** `\r?\n` at `i`: the end of the line break. */
  function LineBreakAt(s: string, i: nat): (r: Option<nat>)
    requires i <= |s|
    ensures r.Some? ==> i < r.value <= |s| && s[r.value - 1] == '\n'
  {
    if i < |s| && s[i] == '\n' then Some(i + 1)
    else if i + 1 < |s| && s[i] == '\r' && s[i + 1] == '\n' then Some(i + 2)
    else None
  }

  /** `\r?\n\r?\n` at `i`: two line breaks in a row. An optional `\r` that was
      taken never has to be given back, since `\n` does not match `\r`. */
  function BlankLineAt(s: string, i: nat): (r: Option<nat>)
    requires i <= |s|
    ensures r.Some? ==> i + 2 <= r.value <= |s|
  {
    match LineBreakAt(s, i)
    case None => None
    case Some(m) => LineBreakAt(s, m)
  }

  /** No blank-line separator starts anywhere in `b`. */
  predicate NoBlankLine(b: string) {
    forall j | 0 <= j <= |b| :: BlankLineAt(b, j).None?
  }

  /** The first position at or after `from` where a separator starts. */
  function NextBlankLine(s: string, from: nat): (r: Option<nat>)
    requires from <= |s|
    ensures r.Some? ==> from <= r.value < |s| && BlankLineAt(s, r.value).Some?
    ensures r.Some? ==> forall j | from <= j < r.value :: BlankLineAt(s, j).None?
    ensures r.None? ==> forall j | from <= j <= |s| :: BlankLineAt(s, j).None?
    decreases |s| - from
  {
    if from == |s| then None
    else if BlankLineAt(s, from).Some? then Some(from)
    else NextBlankLine(s, from + 1)
  }

  /** `output.split(/\r?\n\r?\n/)`. The expression only looks forward, so
      searching the rest of the text is the same as searching on from the end
      of the previous separator. */
  function SplitBlankLines(s: string): (r: seq<string>)
    ensures |r| > 0
    ensures forall k | 0 <= k < |r| :: NoBlankLine(r[k])
    decreases |s|
  {
    match NextBlankLine(s, 0)
    case None => [s]
    case Some(j) =>
      var e := BlankLineAt(s, j).value;
      NoBlankLineBefore(s, j);
      [s[..j]] + SplitBlankLines(s[e..])
  }

  /** The text before the first separator holds none. */
  lemma NoBlankLineBefore(s: string, j: nat)
    requires j <= |s|
    requires forall i | 0 <= i < j :: BlankLineAt(s, i).None?
    ensures NoBlankLine(s[..j])
  {
    var a := s[..j];
    assert s == a + s[j..];
    forall i | 0 <= i <= |a|
      ensures BlankLineAt(a, i).None?
    {
      if BlankLineAt(a, i).Some? {
        BlankLineGrows(a, s[j..], i);
      }
    }
  }

  /** A line break found in a text is found the same in any longer text. */
  lemma LineBreakGrows(a: string, b: string, i: nat)
    requires i <= |a| && LineBreakAt(a, i).Some?
    ensures LineBreakAt(a + b, i) == LineBreakAt(a, i)
  {
    assert (a + b)[i] == a[i];
    if i + 1 < |a| {
      assert (a + b)[i + 1] == a[i + 1];
    }
  }

  lemma BlankLineGrows(a: string, b: string, i: nat)
    requires i <= |a| && BlankLineAt(a, i).Some?
    ensures BlankLineAt(a + b, i) == BlankLineAt(a, i)
  {
    LineBreakGrows(a, b, i);
    LineBreakGrows(a, b, LineBreakAt(a, i).value);
  }

  /** The scanners look only at the text they scan: a prefix shifts the result. */
  lemma LineBreakShift(a: string, b: string, i: nat, j: nat)
    requires j <= |b| && i == |a| + j
    ensures LineBreakAt(a + b, i) == if LineBreakAt(b, j).Some? then Some(|a| + LineBreakAt(b, j).value) else None
  {
    var s := a + b;
    if j < |b| {
      assert s[i] == b[j];
    }
    if j + 1 < |b| {
      assert s[i + 1] == b[j + 1];
    }
  }

  lemma BlankLineShift(a: string, b: string, i: nat, j: nat)
    requires j <= |b| && i == |a| + j
    ensures BlankLineAt(a + b, i) == if BlankLineAt(b, j).Some? then Some(|a| + BlankLineAt(b, j).value) else None
  {
    LineBreakShift(a, b, i, j);
    if LineBreakAt(b, j).Some? {
      LineBreakShift(a, b, i + LineBreakAt(b, j).value - j, LineBreakAt(b, j).value);
    }
  }

  /** A block that does not end with `\r` or `\n`: no line break that starts
      inside it can run on into what follows. */
  predicate EndsInText(b: string) {
    b == [] || (b[|b| - 1] != '\r' && b[|b| - 1] != '\n')
  }

  lemma LineBreakWithin(x: string, t: string, j: nat)
    requires j < |x| && EndsInText(x)
    ensures LineBreakAt(x + t, j) == LineBreakAt(x, j)
    ensures LineBreakAt(x, j).Some? ==> LineBreakAt(x, j).value < |x|
  {
    var s := x + t;
    assert s[j] == x[j];
    if x[j] == '\r' {
      assert s[j + 1] == x[j + 1];
    }
  }

  /** Inside a block that ends in text, separators are found as in the block alone. */
  lemma BlankLineWithin(x: string, t: string, j: nat)
    requires j < |x| && EndsInText(x)
    ensures BlankLineAt(x + t, j) == BlankLineAt(x, j)
  {
    LineBreakWithin(x, t, j);
    if LineBreakAt(x, j).Some? {
      LineBreakWithin(x, t, LineBreakAt(x, j).value);
    }
  }

  /** One of `\n\n`, `\r\n\n`, `\n\r\n` and `\r\n\r\n`. */
  predicate IsBlankLineSeparator(sep: string) {
    BlankLineAt(sep, 0) == Some(|sep|)
  }

  /** Between two blocks, the separator is found right after the first block. */
  lemma NextBlankLineAfter(x: string, sep: string, rest: string)
    requires NoBlankLine(x) && EndsInText(x) && IsBlankLineSeparator(sep)
    ensures NextBlankLine(x + sep + rest, 0) == Some(|x|)
    ensures BlankLineAt(x + sep + rest, |x|) == Some(|x| + |sep|)
  {
    var s := x + sep + rest;
    AppendAssoc(x, sep, rest);
    BlankLineGrows(sep, rest, 0);
    BlankLineShift(x, sep + rest, |x|, 0);
    forall j | 0 <= j < |x|
      ensures BlankLineAt(s, j).None?
    {
      BlankLineWithin(x, sep + rest, j);
    }
    var r := NextBlankLine(s, 0);
    assert r.Some?;
    assert !(r.value < |x|);
  }

  /** Joining blocks with a blank-line separator and splitting again gives
      the blocks back, when no block contains a blank line or ends with a
      line break. */
  lemma {:induction false} SplitJoinBlankLines(blocks: seq<string>, sep: string)
    requires |blocks| > 0 && IsBlankLineSeparator(sep)
    requires forall k | 0 <= k < |blocks| :: NoBlankLine(blocks[k]) && EndsInText(blocks[k])
    ensures SplitBlankLines(Join(blocks, sep)) == blocks
    decreases |blocks|
  {
    var x := blocks[0];
    if |blocks| == 1 {
      assert Join(blocks, sep) == x;
      NoBlankLineNext(x);
    } else {
      var rest := Join(blocks[1..], sep);
      var s := x + sep + rest;
      assert Join(blocks, sep) == s;
      NextBlankLineAfter(x, sep, rest);
      assert s[..|x|] == x;
      assert s[|x| + |sep|..] == rest;
      SplitJoinBlankLines(blocks[1..], sep);
      assert blocks == [x] + blocks[1..];
    }
  }

  lemma NoBlankLineNext(x: string)
    requires NoBlankLine(x)
    ensures NextBlankLine(x, 0).None?
  {
  }

  /** The blocks that name a service (`/SERVICE_NAME/.test(block)`), in order. */
  function Kept(blocks: seq<string>): (r: seq<string>)
    ensures |r| <= |blocks|
    ensures forall k | 0 <= k < |r| :: Contains(r[k], "SERVICE_NAME") && r[k] in blocks
    decreases |blocks|
  {
    if |blocks| == 0 then []
    else (if Contains(blocks[0], "SERVICE_NAME") then [blocks[0]] else []) + Kept(blocks[1..])
  }

  /** Filtering distributes over concatenation. */
  lemma {:induction false} KeptAppend(a: seq<string>, b: seq<string>)
    ensures Kept(a + b) == Kept(a) + Kept(b)
    decreases |a|
  {
    if |a| == 0 {
      assert a + b == b;
    } else {
      assert (a + b)[0] == a[0];
      assert (a + b)[1..] == a[1..] + b;
      KeptAppend(a[1..], b);
    }
  }

  /** Every block is kept exactly when every block names a service, and none
      is kept exactly when none does. */
  lemma {:induction false} KeptAllOrNone(blocks: seq<string>)
    ensures (forall k | 0 <= k < |blocks| :: Contains(blocks[k], "SERVICE_NAME")) <==> Kept(blocks) == blocks
    ensures (forall k | 0 <= k < |blocks| :: !Contains(blocks[k], "SERVICE_NAME")) <==> Kept(blocks) == []
    decreases |blocks|
  {
    if |blocks| > 0 {
      KeptAllOrNone(blocks[1..]);
      assert forall k | 1 <= k < |blocks| :: blocks[k] == blocks[1..][k - 1];
      if !Contains(blocks[0], "SERVICE_NAME") {
        assert |Kept(blocks)| <= |blocks[1..]| < |blocks|;
      }
      if Contains(blocks[0], "SERVICE_NAME") {
        assert Kept(blocks)[0] == blocks[0];
      }
    }
  }

  // ---------------------------------------------------------------------------
  // services: one record per block
  // ---------------------------------------------------------------------------

  /** The state of a service, with the three flags derived from its code. */
  datatype ServiceState = ServiceState(code: Option<int>, name: string, running: bool, paused: bool, stopped: bool)

  /** `running`, `paused` and `stopped` compare the code with 4, 7 and 1
      (`NaN` equals none of them). */
  function StateOf(code: Option<int>, name: string): (r: ServiceState)
    ensures !(r.running && r.paused) && !(r.running && r.stopped) && !(r.paused && r.stopped)
    ensures r.running <==> code == Some(4)
    ensures r.paused <==> code == Some(7)
    ensures r.stopped <==> code == Some(1)
  {
    ServiceState(code, name, code == Some(4), code == Some(7), code == Some(1))
  }

  /** One service of `sc query` or `sc queryex`. The last three fields are set
      only when their value is truthy. */
  datatype ServiceStatus = ServiceStatus(
    name: string,
    displayName: string,
    serviceType: Coded,
    state: ServiceState,
    win32ExitCode: Option<int>,
    serviceExitCode: Option<int>,
    checkpoint: Option<int>,
    waitHint: Option<int>,
    accepted: Option<seq<string>>,
    pid: Option<int>,
    flags: Option<string>)

  /** The record of one block, under a reading of its numeric fields. */
  function ParseService(block: string, reading: Reading): (r: ServiceStatus)
    ensures !(r.state.running && r.state.paused) && !(r.state.running && r.state.stopped) && !(r.state.paused && r.state.stopped)
    ensures r.pid.Some? ==> r.pid.value != 0
    ensures r.flags.Some? ==> r.flags.value != ""
    ensures r.accepted.Some? ==> |r.accepted.value| > 0
  {
    var flagsText := Flags(block, "STATE").GetOr("");
    var pid := NumberRead(reading, block, "PID", false, "null");
    var flags := GetValue(block, "FLAGS").GetOr("");
    ServiceStatus(
      GetValue(block, "SERVICE_NAME").GetOr(""),
      GetValue(block, "DISPLAY_NAME").GetOr(""),
      CodedValue(block, "TYPE", reading),
      StateOf(NumberRead(reading, block, "STATE", true, "0"), CodeNameValue(block, "STATE").GetOr("")),
      NumberRead(reading, block, "WIN32_EXIT_CODE", false, "0"),
      NumberRead(reading, block, "SERVICE_EXIT_CODE", false, "0"),
      HexValue(block, "CHECKPOINT", "0"),
      HexValue(block, "WAIT_HINT", "0"),
      if flagsText != "" then Some(Split(flagsText, ", ")) else None,
      if pid.Some? && pid.value != 0 then pid else None,
      if flags != "" then Some(flags) else None)
  }

  /** The records of the blocks, in order. */
  function ParseServices(blocks: seq<string>, reading: Reading): (r: seq<ServiceStatus>)
    ensures |r| == |blocks|
  {
    seq(|blocks|, k requires 0 <= k < |blocks| => ParseService(blocks[k], reading))
  }

  /** `services`: one record per block that names a service. */
  function Services(output: string, reading: Reading): (r: seq<ServiceStatus>)
    ensures |r| <= |SplitBlankLines(output)|
  {
    ParseServices(Kept(SplitBlankLines(output)), reading)
  }

  /** Blocks joined with blank lines parse to one record per block that names
      a service, in block order; to one record per block when all do. */
  lemma ServicesOfBlocks(blocks: seq<string>, sep: string, reading: Reading)
    requires |blocks| > 0 && IsBlankLineSeparator(sep)
    requires forall k | 0 <= k < |blocks| :: NoBlankLine(blocks[k]) && EndsInText(blocks[k])
    ensures Services(Join(blocks, sep), reading) == ParseServices(Kept(blocks), reading)
    ensures (forall k | 0 <= k < |blocks| :: Contains(blocks[k], "SERVICE_NAME")) ==>
              |Services(Join(blocks, sep), reading)| == |blocks| &&
              forall k | 0 <= k < |blocks| :: Services(Join(blocks, sep), reading)[k] == ParseService(blocks[k], reading)
  {
    SplitJoinBlankLines(blocks, sep);
    KeptAllOrNone(blocks);
  }

  /** The state line `STATE : 4  RUNNING` sets the code (read as hexadecimal)
      and exactly the flag that matches it. */
  lemma ServiceStateOfField(pre: string, gap: string, sep: char, gap2: string, digits: string, gap3: string, codeName: string, post: string, block: string, reading: Reading)
    requires Blank(gap) && IsSeparator(sep) && Blank(gap2) && Blank(gap3) && |gap3| > 0
    requires |digits| > 0 && AllDigits(digits)
    requires |codeName| > 0 && !IsSpace(codeName[0]) && OneLine(codeName) && EndsLine(post)
    requires block == pre + "STATE" + gap + [sep] + (gap2 + (digits + (gap3 + (codeName + post))))
    requires FirstMention(block, "STATE", |pre|, false)
    ensures ParseService(block, reading).state.code == Some(DigitsValue(digits, 16) as int)
    ensures ParseService(block, reading).state.name == Trim(codeName)
    ensures ParseService(block, reading).state.running <==> DigitsValue(digits, 16) == 4
    ensures ParseService(block, reading).state.paused <==> DigitsValue(digits, 16) == 7
    ensures ParseService(block, reading).state.stopped <==> DigitsValue(digits, 16) == 1
  {
    CodeOfField(pre, "STATE", gap, sep, gap2, digits, gap3, codeName, post, block);
  }

  /** `PID : n` sets the process id exactly when n is not 0. */
  lemma ServicePidOfField(pre: string, gap: string, sep: char, gap2: string, n: nat, rest: string, block: string, reading: Reading)
    requires Blank(gap) && IsSeparator(sep) && Blank(gap2)
    requires rest == [] || IsSpace(rest[0])
    requires block == pre + "PID" + gap + [sep] + (gap2 + (NatToString(n) + rest))
    requires FirstMention(block, "PID", |pre|, false)
    ensures ParseService(block, reading).pid == if n == 0 then None else Some(n)
  {
    DecimalOfField(pre, "PID", gap, sep, gap2, n, rest, "null", block);
  }

  /** Without a `PID` label (plain `sc query`) no process id is set: the
      fallback `null` reads as `NaN`, which is falsy. */
  lemma ServicePidAbsent(block: string, reading: Reading)
    requires Unmentioned(block, "PID")
    ensures ParseService(block, reading).pid == None
  {
    AbsentNumber(block, "PID", false);
  }

  /** The parenthesised line under the state line becomes the accepted
      controls, split at `", "`; joined again they give the trimmed flags. */
  lemma ServiceAcceptedOfField(pre: string, gap: string, line: string, gap2: string, flags: string, post: string, block: string, reading: Reading)
    requires Blank(gap) && |line| > 0 && IsSpace(line[0]) && OneLine(line[1..])
    requires Blank(gap2) && |gap2| > 0 && IsLineTerminator(gap2[0])
    requires OneLine(flags) && EndsLine(post)
    requires block == pre + "STATE" + gap + [':'] + (line + (gap2 + ("(" + (flags + (")" + post)))))
    requires FirstMention(block, "STATE", |pre|, false)
    ensures ParseService(block, reading).accepted == if Trim(flags) == "" then None else Some(Split(Trim(flags), ", "))
    ensures ParseService(block, reading).accepted.Some? ==> Join(ParseService(block, reading).accepted.value, ", ") == Trim(flags)
  {
    FlagsOfField(pre, "STATE", gap, line, gap2, flags, post, block);
  }

  /** Control names without commas, listed with `", "`, are read back one by one. */
  lemma ServiceAcceptedList(pre: string, gap: string, line: string, gap2: string, names: seq<string>, post: string, block: string, reading: Reading)
    requires Blank(gap) && |line| > 0 && IsSpace(line[0]) && OneLine(line[1..])
    requires Blank(gap2) && |gap2| > 0 && IsLineTerminator(gap2[0])
    requires |names| > 0 && forall k | 0 <= k < |names| :: ',' !in names[k]
    requires Join(names, ", ") != "" && IsTrimmed(Join(names, ", ")) && OneLine(Join(names, ", ")) && EndsLine(post)
    requires block == pre + "STATE" + gap + [':'] + (line + (gap2 + ("(" + (Join(names, ", ") + (")" + post)))))
    requires FirstMention(block, "STATE", |pre|, false)
    ensures ParseService(block, reading).accepted == Some(names)
  {
    ServiceAcceptedOfField(pre, gap, line, gap2, Join(names, ", "), post, block, reading);
    TrimOfTrimmed(Join(names, ", "));
    SplitJoin(names, ", ");
  }
}
