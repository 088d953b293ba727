/** The parser of `tasklist /fo csv /nh` output: one record per line, each line
    a row of double-quoted fields separated by commas, or the informational
    line printed when no process matches. */
module TasklistParser {
  import opened Wrappers
  import opened JsText

  /** The line `tasklist` prints instead of a table when no process matches. */
  const NoTasks := "INFO: No tasks are running"

  /** The double quote around every field of a row. */
  const Quote: char := '"'

  /** What separates two quoted fields of a row. */
  const FieldSeparator := [Quote, ',', Quote]

  /** One process. Positions missing from a row are `undefined` in the source,
      and `parseInt` of a missing or non-numeric field is `NaN`: both are `None`
      here. The name is always present, because splitting yields at least one
      piece. */
  datatype Task = Task(name: string, pid: Option<int>, sessionName: Option<string>, session: Option<int>, memory: Option<string>)

  /** The record of a line that holds no fields at all. */
  const EmptyTask := Task("", None, None, None, None)

  // ---------------------------------------------------------------------------
  // Rows
  // ---------------------------------------------------------------------------

  /** The quote stripping of a trimmed line: one double quote is dropped at the
      start and one at the end. A lone double quote is dropped once, since the
      start alternative of the pattern consumes it. */
  function StripQuotes(t: string): (r: string)
    ensures |t| - 2 <= |r| <= |t|
    ensures Quote !in t ==> r == t
  {
    var a := if |t| > 0 && t[0] == Quote then 1 else 0;
    var b := if |t| > a && t[|t| - 1] == Quote then |t| - 1 else |t|;
    t[a..b]
  }

  /** The fields of a row: the trimmed line without its outer quotes, split at
      each `","`. */
  function Fields(line: string): (r: seq<string>)
    ensures |r| > 0
  {
    Split(StripQuotes(Trim(line)), FieldSeparator)
  }

  /** The field at position `k`, if the row has one. */
  function FieldAt(fields: seq<string>, k: nat): (r: Option<string>)
    ensures r.Some? <==> k < |fields|
    ensures r.Some? ==> r.value == fields[k]
  {
    if k < |fields| then Some(fields[k]) else None
  }

  /** `parseInt` of the field at position `k`; `None` stands for `NaN`. */
  function NumberAt(fields: seq<string>, k: nat): (r: Option<int>)
    ensures k >= |fields| ==> r.None?
  {
    if k < |fields| then ParseInt(fields[k]) else None
  }

  /** The record of one line: name, PID, session name, session number and
      memory usage, by position. */
  function ParseLine(line: string): (r: Task)
    ensures r.name == Fields(line)[0]
    ensures r.sessionName.Some? <==> |Fields(line)| >= 3
    ensures r.memory.Some? <==> |Fields(line)| >= 5
    ensures |Fields(line)| < 2 ==> r.pid.None?
    ensures |Fields(line)| < 4 ==> r.session.None?
  {
    var fields := Fields(line);
    Task(fields[0], NumberAt(fields, 1), FieldAt(fields, 2), NumberAt(fields, 3), FieldAt(fields, 4))
  }

  /** `parser`: no records when the output says no task is running, otherwise
      one record per `\n`-separated line, the empty piece after a final line
      break included. */
  function Parse(output: string): (r: seq<Task>)
    ensures Contains(output, NoTasks) ==> r == []
    ensures !Contains(output, NoTasks) ==> |r| == |Split(output, "\n")| && |r| > 0
  {
    if Contains(output, NoTasks) then []
    else
      var lines := Split(output, "\n");
      seq(|lines|, k requires 0 <= k < |lines| => ParseLine(lines[k]))
  }

  // ---------------------------------------------------------------------------
  // How a row is laid out, and what the parser reads back from it
  // ---------------------------------------------------------------------------

  /** A CSV row as `tasklist /fo csv` prints it: every field in double quotes,
      separated by commas. */
  function Row(fields: seq<string>): string {
    [Quote] + Join(fields, FieldSeparator) + [Quote]
  }

  /** A text is quote-free when it holds no double quote, as process names, session
      names and memory figures do not. */
  predicate QuoteFree(x: string) {
    Quote !in x
  }

  /** Quotes around any text are stripped, whatever the text holds. */
  lemma StripQuotesOfQuoted(x: string)
    ensures StripQuotes([Quote] + x + [Quote]) == x
  {
    var t := [Quote] + x + [Quote];
    assert t[0] == Quote && t[|t| - 1] == Quote;
    assert t[1..|t| - 1] == x;
  }

  /** A text that neither starts nor ends with a quote is kept as it is. */
  lemma StripQuotesOfBare(t: string)
    requires |t| == 0 || (t[0] != Quote && t[|t| - 1] != Quote)
    ensures StripQuotes(t) == t
  {
  }

  /** A row is trimmed: it starts and ends with a quote. */
  lemma RowTrimmed(fields: seq<string>)
    ensures |Row(fields)| >= 2 && Row(fields)[0] == Quote && Row(fields)[|Row(fields)| - 1] == Quote
    ensures IsTrimmed(Row(fields))
  {
  }

  /** The fields of a row, with any whitespace around it (such as the `\r` of a
      Windows line break), are the fields it was printed from. */
  lemma RowFields(pre: string, fields: seq<string>, post: string)
    requires Blank(pre) && Blank(post) && |fields| > 0
    requires forall k | 0 <= k < |fields| :: QuoteFree(fields[k])
    ensures Fields(pre + Row(fields) + post) == fields
  {
    var inner := Join(fields, FieldSeparator);
    RowTrimmed(fields);
    TrimAround(pre, Row(fields), post);
    StripQuotesOfQuoted(inner);
    SplitJoin(fields, FieldSeparator);
  }

  /** `String(n)` holds no quote. */
  lemma IntToStringQuoteFree(n: int)
    ensures QuoteFree(IntToString(n))
  {
    var d := NatToString(if n < 0 then -n else n);
    assert forall k | 0 <= k < |d| :: d[k] != Quote by {
      assert AllDigits(d);
    }
    if n < 0 {
      assert forall k | 1 <= k < |"-" + d| :: ("-" + d)[k] == d[k - 1];
    }
  }

  /** A process row reads back as the process it describes. */
  lemma RecordReadsBack(pre: string, post: string, name: string, pid: int, sessionName: string, session: int, memory: string)
    requires Blank(pre) && Blank(post)
    requires QuoteFree(name) && QuoteFree(sessionName) && QuoteFree(memory)
    ensures ParseLine(pre + Row([name, IntToString(pid), sessionName, IntToString(session), memory]) + post)
         == Task(name, Some(pid), Some(sessionName), Some(session), Some(memory))
  {
    var fields := [name, IntToString(pid), sessionName, IntToString(session), memory];
    IntToStringQuoteFree(pid);
    IntToStringQuoteFree(session);
    RowFields(pre, fields, post);
    ParseIntOfString(pid);
    ParseIntOfString(session);
  }

  /** A line without the field separator is all name: every other position is
      missing, so the record has no PID, session or memory. */
  lemma NameOnlyLine(line: string)
    requires !Contains(StripQuotes(Trim(line)), FieldSeparator)
    ensures ParseLine(line) == Task(StripQuotes(Trim(line)), None, None, None, None)
  {
  }

  /** A blank line, such as the piece after the final line break, is a record
      with an empty name and nothing else. */
  lemma BlankLine(line: string)
    requires Blank(line)
    ensures ParseLine(line) == EmptyTask
  {
    TrimAround(line, "", "");
    assert line + "" + "" == line;
    NameOnlyLine(line);
  }

  // ---------------------------------------------------------------------------
  // Whole outputs
  // ---------------------------------------------------------------------------

  /** Lines joined with `\n` are parsed one record per line, in order. */
  lemma ParseOfLines(lines: seq<string>)
    requires |lines| > 0
    requires forall k | 0 <= k < |lines| :: '\n' !in lines[k]
    requires !Contains(Join(lines, "\n"), NoTasks)
    ensures |Parse(Join(lines, "\n"))| == |lines|
    ensures forall k | 0 <= k < |lines| :: Parse(Join(lines, "\n"))[k] == ParseLine(lines[k])
  {
    SplitJoin(lines, "\n");
  }

  /** The informational line anywhere in the output, even after rows, leaves no
      records. */
  lemma NoTasksAnywhere(pre: string, post: string)
    ensures Parse(pre + NoTasks + post) == []
  {
    var s := pre + NoTasks + post;
    assert s[|pre|..|pre| + |NoTasks|] == NoTasks;
    assert OccursAt(s, NoTasks, |pre|);
  }

  /** A line break cannot complete the informational line, which ends in `g`. */
  lemma NoTasksAfterLineBreak(s: string)
    requires !Contains(s, NoTasks)
    ensures !Contains(s + "\n", NoTasks)
  {
    var t := s + "\n";
    var n := |NoTasks|;
    forall k | 0 <= k <= |t|
      ensures !OccursAt(t, NoTasks, k)
    {
      if k + n <= |s| {
        assert !OccursAt(s, NoTasks, k);
        assert t[k..k + n] == s[k..k + n];
      } else if k + n == |t| {
        assert t[k..k + n][n - 1] == '\n' != NoTasks[n - 1];
      }
    }
  }

  /** A final line break adds one empty record and changes no other. */
  lemma ParseTrailingLineBreak(output: string)
    requires !Contains(output, NoTasks)
    ensures Parse(output + "\n") == Parse(output) + [EmptyTask]
  {
    var r := Parse(output + "\n");
    var lines := Split(output, "\n");
    NoTasksAfterLineBreak(output);
    SplitTrailingSeparator(output, '\n');
    assert Split(output + "\n", "\n") == lines + [""];
    BlankLine("");
    assert r[|lines|] == EmptyTask;
    forall k | 0 <= k < |lines|
      ensures r[k] == Parse(output)[k]
    {
      assert r[k] == ParseLine(lines[k]);
    }
  }
}
