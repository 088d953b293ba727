/** The field extractors of the `sc` output parser. Each regular expression the
    parser uses is one `Pattern`; `MatchAt` says what it matches at a given
    position (greedy quantifiers and backtracking worked out by hand for that
    pattern), `FirstMatch` finds the leftmost position as `String.prototype.match`
    does, and the extractors trim the first capture group. */
module ScFields {
  import opened Wrappers
  import opened JsText

  // ---------------------------------------------------------------------------
  // Patterns and where they match
  // ---------------------------------------------------------------------------

  /** The parentheses that delimit the flags of a `NAME : value (flags)` line. */
  const OpenParen: char := '\U{28}'
  const CloseParen: char := '\U{29}'

  /** The text a capture group covers: `s[start..end]`. */
  datatype Span = Span(start: nat, end: nat)

  /** The regular expressions of the parser. `name` is a literal label (the
      parser escapes it).
      - `NameValue`:   NAME\s*[=:](.*)
      - `NameCode`:    NAME\s*[=:]\s*\d*\s*(.*)
      - `NameNumber`:  NAME\s*[=:]\s*((0x)?\d*)
      - `NameBoolean`: NAME\s*[=:]\s*(true|false), case-insensitive
      - `NameFlags`:   NAME\s*:\s.*\s*\((.*)\)
      - `NameList`:    NAME((\s*:.*)*)
      - `ScPrefixed`:  ^\[SC\].*\s*(.*)
      - `LeadingLine`: \s*(.*)\s* */
  datatype Pattern =
    | NameValue(name: string)
    | NameCode(name: string)
    | NameNumber(name: string)
    | NameBoolean(name: string)
    | NameFlags(name: string)
    | NameList(name: string)
    | ScPrefixed
    | LeadingLine

  /** `name` occurs at `i`, compared case-insensitively when `ignoreCase`. */
  predicate NameAt(s: string, name: string, i: nat, ignoreCase: bool) {
    && i + |name| <= |s|
    && if ignoreCase then EqualsIgnoreCase(s[i..i + |name|], name) else s[i..i + |name|] == name
  }

  /** `NAME\s*[=:]` (only `:` when `colonOnly`) at `i`: the position after the
      separator. The whitespace run cannot give characters back, because a
      separator is no whitespace. */
  function ValueStart(s: string, name: string, i: nat, ignoreCase: bool, colonOnly: bool): (r: Option<nat>)
    requires i <= |s|
    ensures r.Some? ==> i + |name| < r.value <= |s|
    ensures r.Some? ==> NameAt(s, name, i, ignoreCase)
    ensures r.Some? ==> forall k | i + |name| <= k < r.value - 1 :: IsSpace(s[k])
    ensures r.Some? ==> s[r.value - 1] == ':' || (!colonOnly && s[r.value - 1] == '=')
    ensures NameAt(s, name, i, ignoreCase) && r.None? ==>
              var p := SkipSpace(s, i + |name|);
              p == |s| || (s[p] != ':' && (colonOnly || s[p] != '='))
  {
    if !NameAt(s, name, i, ignoreCase) then None
    else
      var p := SkipSpace(s, i + |name|);
      if p < |s| && (s[p] == ':' || (!colonOnly && s[p] == '=')) then Some(p + 1) else None
  }

  /** `true|false` (any case) at `q`: the end of the word. */
  function BoolWord(s: string, q: nat): (r: Option<nat>)
    requires q <= |s|
    ensures r.Some? ==> q < r.value <= |s|
    ensures r.Some? ==> EqualsIgnoreCase(s[q..r.value], "true") || EqualsIgnoreCase(s[q..r.value], "false")
  {
    if q + 4 <= |s| && EqualsIgnoreCase(s[q..q + 4], "true") then Some(q + 4)
    else if q + 5 <= |s| && EqualsIgnoreCase(s[q..q + 5], "false") then Some(q + 5)
    else None
  }

  /** The last `)` in `s[lo..hi]`: where a backtracking `(.*)\)` ends its group. */
  function LastCloseParen(s: string, lo: nat, hi: nat): (r: Option<nat>)
    requires lo <= hi <= |s|
    ensures r.Some? ==> lo <= r.value < hi && s[r.value] == CloseParen
    ensures r.Some? ==> forall k | r.value < k < hi :: s[k] != CloseParen
    ensures r.None? ==> forall k | lo <= k < hi :: s[k] != CloseParen
    decreases hi - lo
  {
    if hi <= lo then None
    else if s[hi - 1] == CloseParen then Some(hi - 1)
    else LastCloseParen(s, lo, hi - 1)
  }

  /** `\s*\((.*)\)` at `e`: the group between `(` and the last `)` of its line. */
  function ParenGroup(s: string, e: nat): (r: Option<Span>)
    requires e <= |s|
    ensures r.Some? ==> e < r.value.start <= r.value.end < |s|
    ensures r.Some? ==> OneLine(s[r.value.start..r.value.end])
  {
    var w := SkipSpace(s, e);
    if w < |s| && s[w] == OpenParen then
      var l := LineEnd(s, w + 1);
      match LastCloseParen(s, w + 1, l)
      case Some(c) => Some(Span(w + 1, c))
      case None => None
    else None
  }

  /** `.*\s*\((.*)\)` where the `.*` may end anywhere in `[lo, e]`: the longest
      `.*` is tried first, then shorter ones. */
  function FlagsGroup(s: string, e: nat, lo: nat): (r: Option<Span>)
    requires lo <= e <= |s|
    ensures r.Some? ==> lo < r.value.start <= r.value.end < |s|
    ensures r.Some? ==> OneLine(s[r.value.start..r.value.end])
    decreases e - lo
  {
    match ParenGroup(s, e)
    case Some(g) => Some(g)
    case None => if e > lo then FlagsGroup(s, e - 1, lo) else None
  }

  /** The length of `(\s*:.*)*` at the start of `t`: as many `: rest-of-line`
      lines as follow. Every round consumes a colon, so the greedy loop never
      stops on an empty round. */
  function ListLength(t: string): (r: nat)
    ensures r <= |t|
    decreases |t|
  {
    var w := SkipSpace(t, 0);
    if w < |t| && t[w] == ':' then
      var e := LineEnd(t, w + 1);
      e + ListLength(t[e..])
    else 0
  }

  /** `(.*)` at `i`: the rest of the line. */
  function RestOfLine(s: string, i: nat): (r: Span)
    requires i <= |s|
    ensures r.start == i <= r.end <= |s|
    ensures OneLine(s[r.start..r.end])
  {
    var e := LineEnd(s, i);
    assert forall k | 0 <= k < e - i :: s[i..e][k] == s[i + k];
    Span(i, e)
  }

  /** `NAME\s*[=:](.*)` at `i`. */
  function ValueMatch(s: string, name: string, i: nat): (r: Option<Span>)
    requires i <= |s|
    ensures r.Some? ==> i <= r.value.start <= r.value.end <= |s|
    ensures r.Some? ==> OneLine(s[r.value.start..r.value.end])
  {
    match ValueStart(s, name, i, false, false)
    case None => None
    case Some(v) => Some(RestOfLine(s, v))
  }

  /** `NAME\s*[=:]\s*\d*\s*(.*)` at `i`: each greedy run ends where its class
      stops, and giving characters back never lets a later part match more. */
  function CodeMatch(s: string, name: string, i: nat): (r: Option<Span>)
    requires i <= |s|
    ensures r.Some? ==> i <= r.value.start <= r.value.end <= |s|
    ensures r.Some? ==> OneLine(s[r.value.start..r.value.end])
  {
    match ValueStart(s, name, i, false, false)
    case None => None
    case Some(v) => Some(RestOfLine(s, SkipSpace(s, SkipDigits(s, SkipSpace(s, v)))))
  }

  /** `NAME\s*[=:]\s*((0x)?\d*)` at `i`. */
  function NumberMatch(s: string, name: string, i: nat): (r: Option<Span>)
    requires i <= |s|
    ensures r.Some? ==> i <= r.value.start <= r.value.end <= |s|
  {
    match ValueStart(s, name, i, false, false)
    case None => None
    case Some(v) =>
      var q := SkipSpace(s, v);
      var d := if OccursAt(s, "0x", q) then q + 2 else q;
      Some(Span(q, SkipDigits(s, d)))
  }

  /** `NAME\s*[=:]\s*(true|false)` at `i`, case-insensitive. */
  function BooleanMatch(s: string, name: string, i: nat): (r: Option<Span>)
    requires i <= |s|
    ensures r.Some? ==> i <= r.value.start <= r.value.end <= |s|
  {
    match ValueStart(s, name, i, true, false)
    case None => None
    case Some(v) =>
      var q := SkipSpace(s, v);
      match BoolWord(s, q)
      case None => None
      case Some(e) => Some(Span(q, e))
  }

  /** `NAME\s*:\s.*\s*\((.*)\)` at `i`: the `\s` after the colon is one
      character, then the `.*` rest of that line backtracks as needed. */
  function FlagsMatch(s: string, name: string, i: nat): (r: Option<Span>)
    requires i <= |s|
    ensures r.Some? ==> i <= r.value.start <= r.value.end <= |s|
    ensures r.Some? ==> OneLine(s[r.value.start..r.value.end])
  {
    match ValueStart(s, name, i, false, true)
    case None => None
    case Some(v) =>
      if v < |s| && IsSpace(s[v]) then FlagsGroup(s, LineEnd(s, v + 1), v + 1) else None
  }

  /** `NAME((\s*:.*)*)` at `i`. */
  function ListMatch(s: string, name: string, i: nat): (r: Option<Span>)
    requires i <= |s|
    ensures r.Some? ==> i <= r.value.start <= r.value.end <= |s|
  {
    if OccursAt(s, name, i) then Some(Span(i + |name|, i + |name| + ListLength(s[i + |name|..]))) else None
  }

  /** The `ScPrefixed` pattern at `i`: it is anchored, so it matches only at the
      start of the text. */
  function TaggedLineMatch(s: string, i: nat): (r: Option<Span>)
    requires i <= |s|
    ensures r.Some? ==> i <= r.value.start <= r.value.end <= |s|
  {
    if i == 0 && OccursAt(s, "[SC]", 0) then Some(RestOfLine(s, SkipSpace(s, LineEnd(s, 4))))
    else None
  }

  /** `\s*(.*)\s*` at `i`: matches everywhere. */
  function LeadingLineMatch(s: string, i: nat): (r: Option<Span>)
    requires i <= |s|
    ensures r.Some? && i <= r.value.start <= r.value.end <= |s|
  {
    Some(RestOfLine(s, SkipSpace(s, i)))
  }

  /** What pattern `p` matches at position `i`: the span of its first capture
      group, or `None`. */
  function MatchAt(p: Pattern, s: string, i: nat): (r: Option<Span>)
    requires i <= |s|
    ensures r.Some? ==> i <= r.value.start <= r.value.end <= |s|
  {
    match p
    case NameValue(name) => ValueMatch(s, name, i)
    case NameCode(name) => CodeMatch(s, name, i)
    case NameNumber(name) => NumberMatch(s, name, i)
    case NameBoolean(name) => BooleanMatch(s, name, i)
    case NameFlags(name) => FlagsMatch(s, name, i)
    case NameList(name) => ListMatch(s, name, i)
    case ScPrefixed => TaggedLineMatch(s, i)
    case LeadingLine => LeadingLineMatch(s, i)
  }

  /** The patterns whose group ends in `.*` capture within one line. */
  lemma MatchAtOneLine(p: Pattern, s: string, i: nat)
    requires i <= |s| && MatchAt(p, s, i).Some?
    ensures p.NameValue? || p.NameCode? || p.NameFlags? || p.ScPrefixed? || p.LeadingLine? ==>
              OneLine(s[MatchAt(p, s, i).value.start..MatchAt(p, s, i).value.end])
  {
  }

  /** The leftmost position at or after `from` where `p` matches. */
  function FirstMatch(p: Pattern, s: string, from: nat): (r: Option<nat>)
    requires from <= |s|
    ensures r.Some? ==> from <= r.value <= |s|
    decreases |s| - from
  {
    if MatchAt(p, s, from).Some? then Some(from)
    else if from == |s| then None
    else FirstMatch(p, s, from + 1)
  }

  /** `FirstMatch` finds a match, and none before it; `None` means no match
      at all from `from` on. */
  lemma FirstMatchSpec(p: Pattern, s: string, from: nat)
    requires from <= |s|
    ensures FirstMatch(p, s, from).Some? ==> MatchAt(p, s, FirstMatch(p, s, from).value).Some?
    ensures FirstMatch(p, s, from).Some? ==>
              forall j | from <= j < FirstMatch(p, s, from).value :: MatchAt(p, s, j).None?
    ensures FirstMatch(p, s, from).None? ==> forall j | from <= j <= |s| :: MatchAt(p, s, j).None?
  {
    FirstMatchHits(p, s, from);
    FirstMatchSkips(p, s, from);
    FirstMatchMisses(p, s, from);
  }

  lemma {:induction false} FirstMatchHits(p: Pattern, s: string, from: nat)
    requires from <= |s|
    ensures FirstMatch(p, s, from).Some? ==> MatchAt(p, s, FirstMatch(p, s, from).value).Some?
    decreases |s| - from
  {
    if MatchAt(p, s, from).None? && from < |s| {
      FirstMatchHits(p, s, from + 1);
    }
  }

  lemma FirstMatchSkips(p: Pattern, s: string, from: nat)
    requires from <= |s|
    ensures FirstMatch(p, s, from).Some? ==>
              forall j | from <= j < FirstMatch(p, s, from).value :: MatchAt(p, s, j).None?
  {
    forall j | from <= j <= |s| && FirstMatch(p, s, from).Some? && j < FirstMatch(p, s, from).value
      ensures MatchAt(p, s, j).None?
    {
      FirstMatchBefore(p, s, from, j);
    }
  }

  lemma FirstMatchMisses(p: Pattern, s: string, from: nat)
    requires from <= |s|
    ensures FirstMatch(p, s, from).None? ==> forall j | from <= j <= |s| :: MatchAt(p, s, j).None?
  {
    forall j | from <= j <= |s| && FirstMatch(p, s, from).None?
      ensures MatchAt(p, s, j).None?
    {
      FirstMatchBefore(p, s, from, j);
    }
  }

  /** No match between `from` and the leftmost one. */
  lemma {:induction false} FirstMatchBefore(p: Pattern, s: string, from: nat, j: nat)
    requires from <= j <= |s|
    requires FirstMatch(p, s, from).None? || j < FirstMatch(p, s, from).value
    ensures MatchAt(p, s, j).None?
    decreases j - from
  {
    if from < j {
      assert FirstMatch(p, s, from) == FirstMatch(p, s, from + 1);
      FirstMatchBefore(p, s, from + 1, j);
    }
  }

  /** The leftmost match is the first position that matches. */
  lemma FirstMatchIs(p: Pattern, s: string, k: nat)
    requires k <= |s| && MatchAt(p, s, k).Some?
    requires forall j | 0 <= j < k :: MatchAt(p, s, j).None?
    ensures FirstMatch(p, s, 0) == Some(k)
  {
    var r := FirstMatch(p, s, 0);
    FirstMatchSpec(p, s, 0);
    assert r.Some?;
    assert !(r.value < k);
    assert !(k < r.value);
  }

  /** `matchGroupOrDefault` without its fallback: the trimmed first group of the
      leftmost match, `None` when nothing matches. */
  function Capture(p: Pattern, s: string): (r: Option<string>)
    ensures r.Some? ==> IsTrimmed(r.value)
    ensures r.Some? && (p.NameValue? || p.NameCode? || p.NameFlags? || p.ScPrefixed? || p.LeadingLine?) ==>
              OneLine(r.value)
  {
    FirstMatchSpec(p, s, 0);
    match FirstMatch(p, s, 0)
    case None => None
    case Some(k) =>
      var g := MatchAt(p, s, k).value;
      MatchAtOneLine(p, s, k);
      TrimOneLine(s[g.start..g.end]);
      Some(Trim(s[g.start..g.end]))
  }

  /** There is no capture exactly when the pattern matches nowhere. */
  lemma CaptureNone(p: Pattern, s: string)
    ensures Capture(p, s).None? <==> forall j | 0 <= j <= |s| :: MatchAt(p, s, j).None?
  {
    FirstMatchSpec(p, s, 0);
    if FirstMatch(p, s, 0).Some? {
      var k := FirstMatch(p, s, 0).value;
      assert MatchAt(p, s, k).Some?;
    }
  }

  /** The capture of the leftmost match at `k`. */
  lemma CaptureAt(p: Pattern, s: string, k: nat)
    requires k <= |s| && MatchAt(p, s, k).Some?
    requires forall j | 0 <= j < k :: MatchAt(p, s, j).None?
    ensures Capture(p, s) == Some(Trim(s[MatchAt(p, s, k).value.start..MatchAt(p, s, k).value.end]))
  {
    FirstMatchIs(p, s, k);
  }

  /** The capture of the leftmost match, given its group. */
  lemma CaptureIs(p: Pattern, s: string, k: nat, g: Span)
    requires k <= |s| && MatchAt(p, s, k) == Some(g)
    requires forall j | 0 <= j < k :: MatchAt(p, s, j).None?
    ensures g.start <= g.end <= |s|
    ensures Capture(p, s) == Some(Trim(s[g.start..g.end]))
  {
    CaptureAt(p, s, k);
  }

  /** Where the `ScPrefixed` pattern matches, given where its scans stop: the
      end of the tagged line, the start of the next text and the end of its
      line. */
  lemma TaggedLineMatchIs(s: string, e: nat, lo: nat, hi: nat)
    requires OccursAt(s, "[SC]", 0)
    requires LineEnd(s, 4) == e && SkipSpace(s, e) == lo && LineEnd(s, lo) == hi
    ensures MatchAt(ScPrefixed, s, 0) == Some(Span(lo, hi))
  {
  }

  /** The capture of the leftmost match, given the bounds of its group. */
  lemma CaptureBetween(p: Pattern, s: string, k: nat, lo: nat, hi: nat)
    requires k <= |s| && MatchAt(p, s, k) == Some(Span(lo, hi))
    requires forall j | 0 <= j < k :: MatchAt(p, s, j).None?
    ensures lo <= hi <= |s|
    ensures Capture(p, s) == Some(Trim(s[lo..hi]))
  {
    CaptureIs(p, s, k, Span(lo, hi));
  }

  /** Trimming a single line leaves a single line. */
  lemma TrimOneLine(t: string)
    ensures OneLine(t) ==> OneLine(Trim(t))
  {
    var a := SkipSpace(t, 0);
    var b := TrimEnd(t, a);
    assert Trim(t) == t[a..b];
    assert forall k | 0 <= k < b - a :: t[a..b][k] == t[a + k];
  }

  /** `NameCode` or `NameValue`. */
  function ValuePattern(name: string, code: bool): Pattern {
    if code then NameCode(name) else NameValue(name)
  }

  /** The value patterns match exactly where a labelled separator is. */
  lemma ValueMatches(s: string, name: string, code: bool)
    ensures (forall i | 0 <= i <= |s| :: MatchAt(ValuePattern(name, code), s, i).None?)
        <==> (forall i | 0 <= i <= |s| :: ValueStart(s, name, i, false, false).None?)
  {
    forall i | 0 <= i <= |s|
      ensures MatchAt(ValuePattern(name, code), s, i).None?
          <==> ValueStart(s, name, i, false, false).None?
    {
    }
  }

  // ---------------------------------------------------------------------------
  // Extractors
  // ---------------------------------------------------------------------------

  /** `getValue` without its fallback: the trimmed rest of the line after the
      leftmost `name` that is followed by optional whitespace and `=` or `:`. */
  function GetValue(s: string, name: string): (r: Option<string>)
    ensures r.Some? ==> OneLine(r.value) && IsTrimmed(r.value)
  {
    Capture(NameValue(name), s)
  }

  /** `getValue` finds nothing exactly when no labelled separator is present. */
  lemma GetValueNone(s: string, name: string)
    ensures GetValue(s, name).None? <==> forall i | 0 <= i <= |s| :: ValueStart(s, name, i, false, false).None?
  {
    ValueMatches(s, name, false);
    CaptureNone(NameValue(name), s);
  }

  /** `getCodeNameValue` without its fallback: the trimmed rest of the line after
      the separator, a run of decimal digits and the whitespace around it. */
  function CodeNameValue(s: string, name: string): (r: Option<string>)
    ensures r.Some? ==> OneLine(r.value) && IsTrimmed(r.value)
  {
    Capture(NameCode(name), s)
  }

  /** `getCodeNameValue` finds nothing exactly when no labelled separator is
      present: the code pattern's digits and name may both be empty. */
  lemma CodeNameValueNone(s: string, name: string)
    ensures CodeNameValue(s, name).None? <==> forall i | 0 <= i <= |s| :: ValueStart(s, name, i, false, false).None?
  {
    ValueMatches(s, name, true);
    CaptureNone(NameCode(name), s);
  }

  /** `getFlags`: the text between `(` and the last `)` of the line that
      follows `name :` (on the same line or after line breaks), trimmed. */
  function Flags(s: string, name: string): (r: Option<string>)
    ensures r.Some? ==> OneLine(r.value) && IsTrimmed(r.value)
  {
    Capture(NameFlags(name), s)
  }

  /** The `exec` loop of `getArrayValue` over the trimmed list text `t`: each
      `: value` yields the rest of its line (after whitespace that may cross a
      line break), and empty values are skipped. The expression only looks
      forward, so searching on from `lastIndex` is searching the rest of the text. */
  function ListItems(t: string): (r: seq<string>)
    ensures forall k | 0 <= k < |r| :: r[k] != "" && OneLine(r[k])
    decreases |t|
  {
    match IndexOf(t, ":", 0)
    case None => []
    case Some(m) =>
      var q := SkipSpace(t, m + 1);
      var e := LineEnd(t, q);
      assert forall k | 0 <= k < e - q :: t[q..e][k] == t[q + k];
      (if q < e then [t[q..e]] else []) + ListItems(t[e..])
  }

  /** The label occurs nowhere in the text. */
  predicate Unmentioned(s: string, name: string) {
    forall i | 0 <= i <= |s| :: !OccursAt(s, name, i)
  }

  /** `getArrayValue`: the values of the `: value` lines that follow the first
      `name`; empty when `name` is absent or nothing follows it. */
  function ArrayValue(s: string, name: string): (r: seq<string>)
    ensures forall k | 0 <= k < |r| :: r[k] != "" && OneLine(r[k])
    ensures Unmentioned(s, name) ==> r == []
  {
    CaptureNone(NameList(name), s);
    match Capture(NameList(name), s)
    case None => []
    case Some(t) => if t == "" then [] else ListItems(t)
  }

  /** The text starts with `0x`. */
  predicate HasHexPrefix(t: string) {
    |t| >= 2 && t[0] == '0' && t[1] == 'x'
  }

  /** `getNumericValue`, as intended: the captured number (or the fallback, given
      as its `String` form) read with `parseInt`; with `hex`, a `0x` prefix is
      added unless the text already has one. */
  function NumericValue(s: string, name: string, hex: bool, fallback: string): Option<int> {
    var value := Capture(NameNumber(name), s).GetOr(fallback);
    ParseInt(if hex && !HasHexPrefix(value) then "0x" + value else value)
  }

  /** `getNumericValue` as written: `_.startsWith('0x')` tests the string "0x"
      against an absent target, which is always false, so with `hex` the prefix
      is always added. */
  function NumericValueAsWritten(s: string, name: string, hex: bool, fallback: string): Option<int> {
    var value := Capture(NameNumber(name), s).GetOr(fallback);
    ParseInt(if hex then "0x" + value else value)
  }

  /** `getHexValue`: the whole trimmed value read with `parseInt`, which honours
      a `0x` prefix by itself. */
  function HexValue(s: string, name: string, fallback: string): Option<int> {
    ParseInt(GetValue(s, name).GetOr(fallback))
  }

  /** `getBooleanValue`, as intended: true exactly when the matched word is
      `true` in any case. */
  function BooleanValue(s: string, name: string, fallback: bool): bool {
    match Capture(NameBoolean(name), s)
    case Some(word) => EqualsIgnoreCase(word, "true")
    case None => fallback
  }

  /** `getBooleanValue` as written: `Boolean` of the matched word, which is a
      non-empty string and so true for `FALSE` as much as for `TRUE`. */
  function BooleanValueAsWritten(s: string, name: string, fallback: bool): bool {
    match Capture(NameBoolean(name), s)
    case Some(word) => word != ""
    case None => fallback
  }

  /** Which reading of numeric and boolean fields a record parser applies: the
      program's as written, or the corrected one. */
  datatype Reading = AsWritten | Intended

  /** `getNumericValue` under a reading. The two readings agree except for a
      hexadecimal field whose text already starts with `0x`. */
  function NumberRead(reading: Reading, s: string, name: string, hex: bool, fallback: string): (r: Option<int>)
    ensures !hex || !HasHexPrefix(Capture(NameNumber(name), s).GetOr(fallback)) ==> r == NumericValue(s, name, hex, fallback)
  {
    match reading
    case AsWritten => NumericValueAsWritten(s, name, hex, fallback)
    case Intended => NumericValue(s, name, hex, fallback)
  }

  /** `getBooleanValue` under a reading. */
  function BooleanRead(reading: Reading, s: string, name: string, fallback: bool): bool {
    match reading
    case AsWritten => BooleanValueAsWritten(s, name, fallback)
    case Intended => BooleanValue(s, name, fallback)
  }

  // ---------------------------------------------------------------------------
  // Field lines read back
  // ---------------------------------------------------------------------------

  /** The label is not mentioned before position `k`. */
  predicate FirstMention(s: string, name: string, k: nat, ignoreCase: bool) {
    forall j | 0 <= j < k :: !NameAt(s, name, j, ignoreCase)
  }

  /** What follows a value on its line: nothing, or a line break. */
  predicate EndsLine(post: string) {
    post == [] || IsLineTerminator(post[0])
  }

  /** A `=` or `:` separator. */
  predicate IsSeparator(c: char) {
    c == ':' || c == '='
  }

  /** No earlier position matches a pattern that needs the label. */
  lemma NoMatchBefore(p: Pattern, s: string, name: string, k: nat, ignoreCase: bool)
    requires k <= |s|
    requires p == NameValue(name) || p == NameCode(name) || p == NameNumber(name) || p == NameFlags(name) || p == NameList(name)
             || p == NameBoolean(name)
    requires ignoreCase <==> p.NameBoolean?
    requires FirstMention(s, name, k, ignoreCase)
    ensures forall j | 0 <= j < k :: MatchAt(p, s, j).None?
  {
    forall j | 0 <= j < k
      ensures MatchAt(p, s, j).None?
    {
      assert !NameAt(s, name, j, ignoreCase);
    }
  }

  /** A label (as it appears), whitespace and a separator: the value starts right after. */
  lemma ValueStartOfField(s: string, pre: string, shown: string, name: string, gap: string, sep: char, rest: string, ignoreCase: bool)
    requires s == pre + shown + gap + [sep] + rest
    requires if ignoreCase then EqualsIgnoreCase(shown, name) else shown == name
    requires Blank(gap) && IsSeparator(sep)
    ensures ValueStart(s, name, |pre|, ignoreCase, false) == Some(|pre| + |name| + |gap| + 1)
    ensures sep == ':' ==> ValueStart(s, name, |pre|, ignoreCase, true) == Some(|pre| + |name| + |gap| + 1)
  {
    var i := |pre| + |shown|;
    assert s[|pre|..i] == shown;
    forall k | i <= k < i + |gap|
      ensures IsSpace(s[k])
    {
      assert s[k] == gap[k - i];
    }
    assert s[i + |gap|] == sep;
    SkipSpaceIs(s, i, i + |gap|);
  }

  /** A field line `label gap sep value`, ending its line, reads back as its
      trimmed value when it is the first mention of its label. */
  lemma GetValueOfField(pre: string, name: string, gap: string, sep: char, value: string, post: string)
    requires Blank(gap) && IsSeparator(sep) && OneLine(value) && EndsLine(post)
    requires FirstMention(pre + name + gap + [sep] + value + post, name, |pre|, false)
    ensures GetValue(pre + name + gap + [sep] + value + post, name) == Some(Trim(value))
  {
    var s := pre + name + gap + [sep] + value + post;
    var v := |pre| + |name| + |gap| + 1;
    ValueStartOfField(s, pre, name, name, gap, sep, value + post, false);
    forall k | v <= k < v + |value|
      ensures !IsLineTerminator(s[k])
    {
      assert s[k] == value[k - v];
    }
    LineEndIs(s, v, v + |value|);
    assert s[v..v + |value|] == value;
    NoMatchBefore(NameValue(name), s, name, |pre|, false);
    CaptureAt(NameValue(name), s, |pre|);
  }

  /** Two single lines joined make a single line. */
  lemma OneLineConcat(a: string, b: string)
    requires OneLine(a) && OneLine(b)
    ensures OneLine(a + b)
  {
    forall k | 0 <= k < |a + b|
      ensures !IsLineTerminator((a + b)[k])
    {
      if k >= |a| {
        assert (a + b)[k] == b[k - |a|];
      }
    }
  }

  /** A `0x`-prefixed run of base-16 digits between blanks on one line: one
      line, and trimmed to the prefixed digits, which read in base 16. */
  lemma HexText(gap2: string, digits: string, gap3: string)
    requires Blank(gap2) && OneLine(gap2) && Blank(gap3) && OneLine(gap3)
    requires |digits| > 0 && AllHexDigits(digits)
    ensures OneLine(gap2 + ("0x" + digits) + gap3)
    ensures ParseInt(Trim(gap2 + ("0x" + digits) + gap3)) == Some(DigitsValue(digits, 16) as int)
  {
    var x := "0x" + digits;
    HexDigitsPlain(digits);
    OneLineConcat("0x", digits);
    OneLineConcat(gap2, x);
    OneLineConcat(gap2 + x, gap3);
    assert x[0] == '0' && x[|x| - 1] == digits[|digits| - 1];
    TrimAround(gap2, x, gap3);
    ParseIntHexDigits(digits);
  }

  /** `getHexValue` of a field such as `CHECKPOINT : 0x1f`: the `0x` prefix
      selects base 16 and the digits after it are read in that base. */
  lemma HexValueOfField(pre: string, name: string, gap: string, sep: char, gap2: string, digits: string, gap3: string, post: string, fallback: string)
    requires Blank(gap) && IsSeparator(sep) && EndsLine(post)
    requires Blank(gap2) && OneLine(gap2) && Blank(gap3) && OneLine(gap3)
    requires |digits| > 0 && AllHexDigits(digits)
    requires FirstMention(pre + name + gap + [sep] + (gap2 + ("0x" + digits) + gap3) + post, name, |pre|, false)
    ensures HexValue(pre + name + gap + [sep] + (gap2 + ("0x" + digits) + gap3) + post, name, fallback)
         == Some(DigitsValue(digits, 16) as int)
  {
    HexText(gap2, digits, gap3);
    GetValueOfField(pre, name, gap, sep, gap2 + ("0x" + digits) + gap3, post);
  }

  // ---------------------------------------------------------------------------
  // Captures located by their scanner positions, on any text
  // ---------------------------------------------------------------------------

  /** The code pattern's capture, given where its scans stop. */
  lemma CodeCaptureOf(s: string, name: string, k: nat, v: nat, q: nat, e: nat, t: string)
    requires k <= |s| && FirstMention(s, name, k, false)
    requires ValueStart(s, name, k, false, false) == Some(v)
    requires SkipSpace(s, SkipDigits(s, SkipSpace(s, v))) == q
    requires q <= |s| && LineEnd(s, q) == e && s[q..e] == t
    ensures CodeNameValue(s, name) == Some(Trim(t))
  {
    assert MatchAt(NameCode(name), s, k) == Some(Span(q, e));
    NoMatchBefore(NameCode(name), s, name, k, false);
    CaptureAt(NameCode(name), s, k);
  }

  /** The number pattern's capture, given where its scans stop. */
  lemma NumberCaptureOf(s: string, name: string, k: nat, v: nat, q: nat, d: nat, e: nat, t: string)
    requires k <= |s| && FirstMention(s, name, k, false)
    requires ValueStart(s, name, k, false, false) == Some(v)
    requires SkipSpace(s, v) == q
    requires d == if OccursAt(s, "0x", q) then q + 2 else q
    requires d <= |s| && SkipDigits(s, d) == e
    requires q <= e && s[q..e] == t && IsTrimmed(t)
    ensures Capture(NameNumber(name), s) == Some(t)
  {
    assert MatchAt(NameNumber(name), s, k) == Some(Span(q, e));
    NoMatchBefore(NameNumber(name), s, name, k, false);
    CaptureAt(NameNumber(name), s, k);
    TrimOfTrimmed(t);
  }

  /** The boolean pattern's capture, given where its scans stop. */
  lemma BoolCaptureOf(s: string, name: string, k: nat, v: nat, q: nat, e: nat, t: string)
    requires k <= |s| && FirstMention(s, name, k, true)
    requires ValueStart(s, name, k, true, false) == Some(v)
    requires SkipSpace(s, v) == q && BoolWord(s, q) == Some(e)
    requires q <= e <= |s| && s[q..e] == t && IsTrimmed(t)
    ensures Capture(NameBoolean(name), s) == Some(t)
  {
    assert MatchAt(NameBoolean(name), s, k) == Some(Span(q, e));
    NoMatchBefore(NameBoolean(name), s, name, k, true);
    CaptureAt(NameBoolean(name), s, k);
    TrimOfTrimmed(t);
  }

  /** How the numeric readers use a captured number. */
  lemma NumberReadsAs(s: string, name: string, hex: bool, fallback: string, t: string)
    requires Capture(NameNumber(name), s) == Some(t)
    ensures NumericValue(s, name, hex, fallback) == ParseInt(if hex && !HasHexPrefix(t) then "0x" + t else t)
    ensures NumericValueAsWritten(s, name, hex, fallback) == ParseInt(if hex then "0x" + t else t)
  {
  }

  /** The flags pattern's capture when the parenthesised line is the first one
      after the labelled line. */
  lemma FlagsCaptureOf(s: string, name: string, k: nat, v: nat, e: nat, w: nat, c: nat)
    requires k <= |s| && FirstMention(s, name, k, false)
    requires ValueStart(s, name, k, false, true) == Some(v)
    requires v < |s| && IsSpace(s[v]) && LineEnd(s, v + 1) == e
    requires SkipSpace(s, e) == w && w < |s| && s[w] == OpenParen
    requires LineEnd(s, w + 1) == c + 1 && s[c] == CloseParen
    ensures Flags(s, name) == Some(Trim(s[w + 1..c]))
  {
    FlagsMatchOf(s, name, k, v, e, w, c);
    FlagsCaptureIs(s, name, k, w, c);
  }

  /** Where the flags pattern's group is when the parenthesised line is the
      first one after the labelled line. */
  lemma FlagsMatchOf(s: string, name: string, k: nat, v: nat, e: nat, w: nat, c: nat)
    requires k <= |s| && ValueStart(s, name, k, false, true) == Some(v)
    requires v < |s| && IsSpace(s[v]) && LineEnd(s, v + 1) == e
    requires SkipSpace(s, e) == w && w < |s| && s[w] == OpenParen
    requires LineEnd(s, w + 1) == c + 1 && s[c] == CloseParen
    ensures MatchAt(NameFlags(name), s, k) == Some(Span(w + 1, c))
  {
    ParenGroupAt(s, e, w, c);
    FlagsGroupOfParen(s, e, v + 1, Span(w + 1, c));
    FlagsMatchIs(s, name, k, v, e, Span(w + 1, c));
  }

  /** The longest `.*` is tried first: a group right after it is the one taken. */
  lemma FlagsGroupOfParen(s: string, e: nat, lo: nat, g: Span)
    requires lo <= e <= |s| && ParenGroup(s, e) == Some(g)
    ensures FlagsGroup(s, e, lo) == Some(g)
  {
  }

  /** The flags pattern at `k`, given where its group is. */
  lemma FlagsMatchIs(s: string, name: string, k: nat, v: nat, e: nat, g: Span)
    requires k <= |s| && ValueStart(s, name, k, false, true) == Some(v)
    requires v < |s| && IsSpace(s[v]) && LineEnd(s, v + 1) == e
    requires FlagsGroup(s, e, v + 1) == Some(g)
    ensures MatchAt(NameFlags(name), s, k) == Some(g)
  {
    assert FlagsGroup(s, LineEnd(s, v + 1), v + 1) == Some(g);
  }

  /** The flags capture at the first mention of the label. */
  lemma FlagsCaptureIs(s: string, name: string, k: nat, w: nat, c: nat)
    requires k <= |s| && FirstMention(s, name, k, false)
    requires MatchAt(NameFlags(name), s, k) == Some(Span(w + 1, c))
    ensures w + 1 <= c <= |s|
    ensures Flags(s, name) == Some(Trim(s[w + 1..c]))
  {
    NoMatchBefore(NameFlags(name), s, name, k, false);
    CaptureIs(NameFlags(name), s, k, Span(w + 1, c));
  }

  /** A `(` after whitespace, and a `)` that ends the line. */
  lemma ParenGroupAt(s: string, e: nat, w: nat, c: nat)
    requires e <= |s| && SkipSpace(s, e) == w && w < |s| && s[w] == OpenParen
    requires LineEnd(s, w + 1) == c + 1 && s[c] == CloseParen
    ensures ParenGroup(s, e) == Some(Span(w + 1, c))
  {
    assert LastCloseParen(s, w + 1, c + 1) == Some(c);
  }

  // ---------------------------------------------------------------------------
  // Field lines as `head + body`: `head` runs up to and including the
  // separator, and the scanners behave on the line as on the body, shifted
  // by `|head|`.
  // ---------------------------------------------------------------------------

  lemma ScansShift(head: string, body: string, k: nat, j: nat)
    requires j <= |body| && k == |head| + j
    ensures SkipSpace(head + body, k) == |head| + SkipSpace(body, j)
    ensures SkipDigits(head + body, k) == |head| + SkipDigits(body, j)
    ensures LineEnd(head + body, k) == |head| + LineEnd(body, j)
    ensures OccursAt(head + body, "0x", k) <==> OccursAt(body, "0x", j)
  {
    SkipSpaceShift(head, body, k, j);
    SkipDigitsShift(head, body, k, j);
    LineEndShift(head, body, k, j);
    OccursAtShift(head, body, "0x", k, j);
  }

  lemma BoolWordShift(head: string, body: string, s: string, k: nat, q: nat, e: nat, f: nat)
    requires s == head + body && q <= |body| && k == |head| + q
    requires BoolWord(body, q) == Some(e) && f == |head| + e
    ensures BoolWord(s, k) == Some(f)
  {
    if q + 4 <= |body| {
      SliceAt(head, body, s, q, q + 4, k, k + 4, body[q..q + 4]);
    }
    if q + 5 <= |body| {
      SliceAt(head, body, s, q, q + 5, k, k + 5, body[q..q + 5]);
    }
  }

  /** Whitespace followed by something else: the run ends after it. */
  lemma SpaceRunIs(gap: string, r: string)
    requires Blank(gap) && |r| > 0 && !IsSpace(r[0])
    ensures SkipSpace(gap + r, 0) == |gap|
  {
    SkipSpaceOver(gap, r);
    SkipSpaceIs(r, 0, 0);
  }

  /** The piece after a prefix, sliced back out. */
  lemma PieceAfter(gap: string, x: string, rest: string)
    ensures (gap + (x + rest))[|gap|..|gap| + |x|] == x
  {
    SliceShift(gap, x + rest, 0, |x|);
    assert (x + rest)[0..|x|] == x;
  }

  /** Digits followed by whitespace or nothing: the digit run ends after them. */
  lemma DigitRunIs(gap: string, digits: string, rest: string)
    requires AllDigits(digits)
    requires rest == [] || IsSpace(rest[0])
    ensures SkipDigits(gap + (digits + rest), |gap|) == |gap| + |digits|
  {
    SkipDigitsShift(gap, digits + rest, |gap|, 0);
    SkipDigitsOver(digits, rest);
    SkipDigitsIs(rest, 0, 0);
  }

  /** Decimal digits followed by whitespace or nothing do not start with `0x`. */
  lemma NoHexPrefixAt(gap: string, digits: string, rest: string)
    requires |digits| > 0 && AllDigits(digits)
    requires rest == [] || IsSpace(rest[0])
    ensures !OccursAt(gap + (digits + rest), "0x", |gap|)
  {
    var r1 := digits + rest;
    OccursAtShift(gap, r1, "0x", |gap|, 0);
    if 2 <= |r1| {
      assert r1[0..2][1] == r1[1];
      assert r1[1] == if |digits| > 1 then digits[1] else rest[0];
    }
  }


  /** `NAME\s*[=:]\s*((0x)?\d*)` over `b = gap digits rest`, where the digits
      are not followed by a further digit or an `x`. */
  lemma NumberBody(gap: string, digits: string, rest: string, b: string)
    requires Blank(gap) && |digits| > 0 && AllDigits(digits)
    requires rest == [] || IsSpace(rest[0])
    requires b == gap + (digits + rest)
    ensures SkipSpace(b, 0) == |gap|
    ensures !OccursAt(b, "0x", |gap|)
    ensures SkipDigits(b, |gap|) == |gap| + |digits|
    ensures b[|gap|..|gap| + |digits|] == digits
  {
    assert (digits + rest)[0] == digits[0];
    SpaceRunIs(gap, digits + rest);
    NoHexPrefixAt(gap, digits, rest);
    DigitRunIs(gap, digits, rest);
    PieceAfter(gap, digits, rest);
  }

  /** Where the name of a code starts (`q`) and ends, after the digits. */
  lemma CodeNameBody(gap: string, digits: string, gap3: string, codeName: string, post: string, b: string, q: nat)
    requires Blank(gap3) && |codeName| > 0 && !IsSpace(codeName[0]) && OneLine(codeName) && EndsLine(post)
    requires b == gap + (digits + (gap3 + (codeName + post)))
    requires q == |gap| + |digits| + |gap3|
    ensures SkipSpace(b, |gap| + |digits|) == q
    ensures LineEnd(b, q) == q + |codeName|
  {
    var r3 := codeName + post;
    var r2 := gap3 + r3;
    var r1 := digits + r2;
    assert r3[0] == codeName[0];
    SkipSpaceShift(gap, r1, |gap| + |digits|, |digits|);
    SkipSpaceShift(digits, r2, |digits|, 0);
    SpaceRunIs(gap3, r3);
    LineEndShift(gap, r1, q, |digits| + |gap3|);
    LineEndShift(digits, r2, |digits| + |gap3|, |gap3|);
    LineEndShift(gap3, r3, |gap3|, 0);
    LineEndOver(codeName, post);
    LineEndIs(post, 0, 0);
  }

  lemma CodeNameSlice(gap: string, digits: string, gap3: string, codeName: string, post: string, b: string, q: nat)
    requires b == gap + (digits + (gap3 + (codeName + post)))
    requires q == |gap| + |digits| + |gap3|
    ensures b[q..q + |codeName|] == codeName
  {
    var r2 := gap3 + (codeName + post);
    var r1 := digits + r2;
    SliceShift(gap, r1, |digits| + |gap3|, |digits| + |gap3| + |codeName|);
    SliceShift(digits, r2, |gap3|, |gap3| + |codeName|);
    PieceAfter(gap3, codeName, post);
  }

  /** Where the scanners stop on a line `s = head gap2 digits rest`, whose
      digits start at `d0`; `head` runs up to and including the separator. */
  lemma NumberLineScans(head: string, body: string, gap2: string, digits: string, rest: string, s: string, d0: nat)
    requires body == gap2 + (digits + rest)
    requires Blank(gap2) && |digits| > 0 && AllDigits(digits)
    requires rest == [] || IsSpace(rest[0])
    requires s == head + body && d0 == |head| + |gap2|
    ensures SkipSpace(s, |head|) == d0
    ensures !OccursAt(s, "0x", d0)
    ensures SkipDigits(s, d0) == d0 + |digits|
  {
    NumberBody(gap2, digits, rest, body);
    SkipSpaceShift(head, body, |head|, 0);
    OccursAtShift(head, body, "0x", d0, |gap2|);
    SkipDigitsShift(head, body, d0, |gap2|);
  }

  /** The piece `x` of a line `s = head gap2 x rest`, sliced back out at `d0`. */
  lemma PieceOfLine(head: string, body: string, gap2: string, x: string, rest: string, s: string, d0: nat)
    requires body == gap2 + (x + rest)
    requires s == head + body && d0 == |head| + |gap2|
    ensures s[d0..d0 + |x|] == x
  {
    PieceAfter(gap2, x, rest);
    SliceAt(head, body, s, |gap2|, |gap2| + |x|, d0, d0 + |x|, x);
  }

  /** Where the scanners stop on a line `s = head gap2 digits gap3 codeName
      post`, whose digits end at `n` and whose code name starts at `q`. */
  lemma CodeLineScans(head: string, body: string, gap2: string, digits: string, gap3: string, codeName: string, post: string, s: string, n: nat, q: nat)
    requires Blank(gap3) && |codeName| > 0 && !IsSpace(codeName[0]) && OneLine(codeName) && EndsLine(post)
    requires body == gap2 + (digits + (gap3 + (codeName + post)))
    requires s == head + body
    requires n == |head| + |gap2| + |digits| && q == n + |gap3|
    ensures SkipSpace(s, n) == q
    ensures LineEnd(s, q) == q + |codeName|
  {
    var bn := |gap2| + |digits|;
    CodeNameBody(gap2, digits, gap3, codeName, post, body, bn + |gap3|);
    SkipSpaceShift(head, body, n, bn);
    LineEndShift(head, body, q, bn + |gap3|);
  }

  /** The code's name, sliced back out of the line at `q`. */
  lemma CodeNameOfLine(head: string, body: string, gap2: string, digits: string, gap3: string, codeName: string, post: string, s: string, q: nat)
    requires body == gap2 + (digits + (gap3 + (codeName + post)))
    requires s == head + body && q == |head| + |gap2| + |digits| + |gap3|
    ensures s[q..q + |codeName|] == codeName
  {
    var bq := |gap2| + |digits| + |gap3|;
    CodeNameSlice(gap2, digits, gap3, codeName, post, body, bq);
    SliceAt(head, body, s, bq, bq + |codeName|, q, q + |codeName|, codeName);
  }

  /** Where the scanners stop on a labelled run of digits: the value starts at
      `v` and the digits, unprefixed, start at `d0`. */
  predicate DigitsLaidOut(s: string, name: string, k: nat, v: nat, d0: nat, digits: string) {
    && k <= |s|
    && ValueStart(s, name, k, false, false) == Some(v)
    && SkipSpace(s, v) == d0 && !OccursAt(s, "0x", d0)
    && SkipDigits(s, d0) == d0 + |digits| <= |s| && s[d0..d0 + |digits|] == digits
  }

  /** Where the scanners stop on a code field: the digits run from `d0` to
      `n`, and the code's name starts at `q`. */
  predicate CodeLaidOut(s: string, name: string, k: nat, v: nat, d0: nat, n: nat, q: nat, digits: string, codeName: string) {
    && DigitsLaidOut(s, name, k, v, d0, digits)
    && n == d0 + |digits|
    && SkipSpace(s, n) == q && q + |codeName| <= |s|
    && LineEnd(s, q) == q + |codeName| && s[q..q + |codeName|] == codeName
  }

  /** The line `s = label gap sep gap2 digits gap3 codeName post`, as the
      scanners see it. */
  lemma CodeLineLayout(pre: string, name: string, gap: string, sep: char, gap2: string, digits: string, gap3: string, codeName: string, post: string, s: string, v: nat, d0: nat, n: nat, q: nat)
    requires Blank(gap) && IsSeparator(sep) && Blank(gap2) && Blank(gap3) && |gap3| > 0
    requires |digits| > 0 && AllDigits(digits)
    requires |codeName| > 0 && !IsSpace(codeName[0]) && OneLine(codeName) && EndsLine(post)
    requires s == pre + name + gap + [sep] + (gap2 + (digits + (gap3 + (codeName + post))))
    requires v == |pre| + |name| + |gap| + 1 && d0 == v + |gap2| && n == d0 + |digits| && q == n + |gap3|
    ensures CodeLaidOut(s, name, |pre|, v, d0, n, q, digits, codeName)
  {
    var rest := gap3 + (codeName + post);
    var body := gap2 + (digits + rest);
    var head := pre + name + gap + [sep];
    assert rest[0] == gap3[0];
    ValueStartOfField(s, pre, name, name, gap, sep, body, false);
    NumberLineScans(head, body, gap2, digits, rest, s, d0);
    PieceOfLine(head, body, gap2, digits, rest, s, d0);
    CodeLineScans(head, body, gap2, digits, gap3, codeName, post, s, n, q);
    CodeNameOfLine(head, body, gap2, digits, gap3, codeName, post, s, q);
  }

  /** The shape of `TYPE : 10  WIN32_OWN_PROCESS`: a code in decimal digits,
      whitespace, then the code's name. The name reads back trimmed, and the
      code reads back as hexadecimal (sc prints these codes in hexadecimal
      without a prefix). */
  lemma CodeOfField(pre: string, name: string, gap: string, sep: char, gap2: string, digits: string, gap3: string, codeName: string, post: string, s: string)
    requires Blank(gap) && IsSeparator(sep) && Blank(gap2) && Blank(gap3) && |gap3| > 0
    requires |digits| > 0 && AllDigits(digits)
    requires |codeName| > 0 && !IsSpace(codeName[0]) && OneLine(codeName) && EndsLine(post)
    requires s == pre + name + gap + [sep] + (gap2 + (digits + (gap3 + (codeName + post))))
    requires FirstMention(s, name, |pre|, false)
    ensures CodeNameValue(s, name) == Some(Trim(codeName))
    ensures NumericValue(s, name, true, "0") == Some(DigitsValue(digits, 16) as int)
    ensures NumericValueAsWritten(s, name, true, "0") == Some(DigitsValue(digits, 16) as int)
  {
    var v := |pre| + |name| + |gap| + 1;
    var d0 := v + |gap2|;
    var n := d0 + |digits|;
    var q := n + |gap3|;
    CodeLineLayout(pre, name, gap, sep, gap2, digits, gap3, codeName, post, s, v, d0, n, q);
    CodeNameAt(s, name, |pre|, v, d0, n, q, digits, codeName);
    NumberFieldAt(s, name, |pre|, v, d0, digits, "0");
  }

  /** The name of a code located by the scanners reads back trimmed. */
  lemma CodeNameAt(s: string, name: string, k: nat, v: nat, d0: nat, n: nat, q: nat, digits: string, codeName: string)
    requires FirstMention(s, name, k, false)
    requires CodeLaidOut(s, name, k, v, d0, n, q, digits, codeName)
    ensures CodeNameValue(s, name) == Some(Trim(codeName))
  {
    CodeCaptureOf(s, name, k, v, q, q + |codeName|, codeName);
  }

  /** A labelled run of digits at `d0`, located by the scanners, read in
      decimal and in hexadecimal. */
  lemma NumberFieldAt(s: string, name: string, k: nat, v: nat, d0: nat, digits: string, fallback: string)
    requires |digits| > 0 && AllDigits(digits)
    requires DigitsLaidOut(s, name, k, v, d0, digits) && FirstMention(s, name, k, false)
    ensures NumericValue(s, name, false, fallback) == ParseInt(digits)
    ensures NumericValue(s, name, true, fallback) == Some(DigitsValue(digits, 16) as int)
    ensures NumericValueAsWritten(s, name, true, fallback) == Some(DigitsValue(digits, 16) as int)
  {
    DigitsCaptureAt(s, name, k, v, d0, digits);
    DigitsCaptured(s, name, fallback, digits);
  }

  /** A labelled run of digits at `d0`, located by the scanners, is what the
      number pattern captures. */
  lemma DigitsCaptureAt(s: string, name: string, k: nat, v: nat, d0: nat, digits: string)
    requires AllDigits(digits)
    requires DigitsLaidOut(s, name, k, v, d0, digits) && FirstMention(s, name, k, false)
    ensures Capture(NameNumber(name), s) == Some(digits)
  {
    DigitsTrimmed(digits);
    NumberCaptureOf(s, name, k, v, d0, d0, d0 + |digits|, digits);
  }

  /** A captured run of digits, read in decimal and in hexadecimal. */
  lemma DigitsCaptured(s: string, name: string, fallback: string, digits: string)
    requires |digits| > 0 && AllDigits(digits)
    requires Capture(NameNumber(name), s) == Some(digits)
    ensures NumericValue(s, name, false, fallback) == ParseInt(digits)
    ensures NumericValue(s, name, true, fallback) == Some(DigitsValue(digits, 16) as int)
    ensures NumericValueAsWritten(s, name, true, fallback) == Some(DigitsValue(digits, 16) as int)
  {
    NumberReadsAs(s, name, false, fallback, digits);
    NumberReadsAs(s, name, true, fallback, digits);
    assert !HasHexPrefix(digits) by {
      assert |digits| >= 2 ==> IsDigit(digits[1]);
    }
    DecimalDigitsAreHex(digits);
    ParseIntHexDigits(digits);
  }

  /** A decimal field such as `LockDuration : 0 (seconds since acquired)` reads
      back as its number, whatever the fallback. */
  lemma DecimalOfField(pre: string, name: string, gap: string, sep: char, gap2: string, n: nat, rest: string, fallback: string, s: string)
    requires Blank(gap) && IsSeparator(sep) && Blank(gap2)
    requires rest == [] || IsSpace(rest[0])
    requires s == pre + name + gap + [sep] + (gap2 + (NatToString(n) + rest))
    requires FirstMention(s, name, |pre|, false)
    ensures NumericValue(s, name, false, fallback) == Some(n)
  {
    var ds := NatToString(n);
    var body := gap2 + (ds + rest);
    var v := |pre| + |name| + |gap| + 1;
    var d0 := v + |gap2|;
    var head := pre + name + gap + [sep];
    ValueStartOfField(s, pre, name, name, gap, sep, body, false);
    NumberLineScans(head, body, gap2, ds, rest, s, d0);
    PieceOfLine(head, body, gap2, ds, rest, s, d0);
    NumberFieldAt(s, name, |pre|, v, d0, ds, fallback);
    ParseIntOfString(n);
    assert IntToString(n) == ds;
  }

  /** `b = gap 0x digits rest`: the number pattern takes the prefix and the digits. */
  lemma HexBody(gap: string, digits: string, rest: string, b: string)
    requires Blank(gap) && AllDigits(digits)
    requires rest == [] || IsSpace(rest[0])
    requires b == gap + ("0x" + (digits + rest))
    ensures SkipSpace(b, 0) == |gap|
    ensures OccursAt(b, "0x", |gap|)
    ensures SkipDigits(b, |gap| + 2) == |gap| + 2 + |digits|
    ensures b[|gap|..|gap| + 2 + |digits|] == "0x" + digits
  {
    var r2 := digits + rest;
    var r1 := "0x" + r2;
    assert r1[0] == '0';
    SpaceRunIs(gap, r1);
    PieceAfter(gap, "0x", r2);
    SkipDigitsShift(gap, r1, |gap| + 2, 2);
    DigitRunIs("0x", digits, rest);
    HexSlice(gap, digits, rest);
  }

  lemma HexSlice(gap: string, digits: string, rest: string)
    ensures (gap + ("0x" + (digits + rest)))[|gap|..|gap| + 2 + |digits|] == "0x" + digits
  {
    var r1 := "0x" + (digits + rest);
    SliceShift(gap, r1, 0, 2 + |digits|);
    assert r1[0..2 + |digits|] == "0x" + digits;
  }

  /** Where the scanners stop on a line `s = head gap2 0x digits rest`. */
  lemma HexLineScans(head: string, body: string, gap2: string, digits: string, rest: string, s: string, d0: nat)
    requires body == gap2 + ("0x" + (digits + rest))
    requires Blank(gap2) && AllDigits(digits)
    requires rest == [] || IsSpace(rest[0])
    requires s == head + body && d0 == |head| + |gap2|
    ensures SkipSpace(s, |head|) == d0
    ensures OccursAt(s, "0x", d0)
    ensures SkipDigits(s, d0 + 2) == d0 + 2 + |digits|
  {
    HexBody(gap2, digits, rest, body);
    SkipSpaceShift(head, body, |head|, 0);
    OccursAtShift(head, body, "0x", d0, |gap2|);
    SkipDigitsShift(head, body, d0 + 2, |gap2| + 2);
  }

  /** The prefixed digits of a line `s = head gap2 0x digits rest`, sliced back
      out at `d0`. */
  lemma HexPieceOfLine(head: string, body: string, gap2: string, digits: string, rest: string, s: string, d0: nat)
    requires body == gap2 + ("0x" + (digits + rest))
    requires s == head + body && d0 == |head| + |gap2|
    ensures s[d0..d0 + 2 + |digits|] == "0x" + digits
  {
    HexSlice(gap2, digits, rest);
    SliceAt(head, body, s, |gap2|, |gap2| + 2 + |digits|, d0, d0 + 2 + |digits|, "0x" + digits);
  }

  /** A hexadecimal field already written with `0x` reads back as its value;
      as written the parser prefixes a second `0x` and reads 0. */
  lemma HexPrefixedField(pre: string, name: string, gap: string, sep: char, gap2: string, digits: string, rest: string, s: string)
    requires Blank(gap) && IsSeparator(sep) && Blank(gap2)
    requires |digits| > 0 && AllDigits(digits)
    requires rest == [] || IsSpace(rest[0])
    requires s == pre + name + gap + [sep] + (gap2 + ("0x" + (digits + rest)))
    requires FirstMention(s, name, |pre|, false)
    ensures NumericValue(s, name, true, "0") == Some(DigitsValue(digits, 16) as int)
    ensures NumericValueAsWritten(s, name, true, "0") == Some(0)
  {
    var body := gap2 + ("0x" + (digits + rest));
    var v := |pre| + |name| + |gap| + 1;
    var d0 := v + |gap2|;
    var head := pre + name + gap + [sep];
    ValueStartOfField(s, pre, name, name, gap, sep, body, false);
    HexLineScans(head, body, gap2, digits, rest, s, d0);
    HexPieceOfLine(head, body, gap2, digits, rest, s, d0);
    HexFieldAt(s, name, |pre|, v, d0, digits);
  }

  /** A labelled `0x digits` at `d0`, located by the scanners, read as
      hexadecimal, as intended and as written. */
  lemma HexFieldAt(s: string, name: string, k: nat, v: nat, d0: nat, digits: string)
    requires |digits| > 0 && AllDigits(digits)
    requires k <= |s| && FirstMention(s, name, k, false)
    requires ValueStart(s, name, k, false, false) == Some(v)
    requires SkipSpace(s, v) == d0 && OccursAt(s, "0x", d0)
    requires SkipDigits(s, d0 + 2) == d0 + 2 + |digits| <= |s|
    requires s[d0..d0 + 2 + |digits|] == "0x" + digits
    ensures NumericValue(s, name, true, "0") == Some(DigitsValue(digits, 16) as int)
    ensures NumericValueAsWritten(s, name, true, "0") == Some(0)
  {
    HexCaptureAt(s, name, k, v, d0, digits);
    NumberReadsAs(s, name, true, "0", "0x" + digits);
    DecimalDigitsAreHex(digits);
    ParseIntHexDigits(digits);
    ParseIntDoubledHexPrefix(digits);
  }

  /** A labelled `0x`-prefixed run of digits at `d0`, located by the scanners,
      is captured with its prefix. */
  lemma HexCaptureAt(s: string, name: string, k: nat, v: nat, d0: nat, digits: string)
    requires |digits| > 0 && AllDigits(digits)
    requires k <= |s| && FirstMention(s, name, k, false)
    requires ValueStart(s, name, k, false, false) == Some(v)
    requires SkipSpace(s, v) == d0 && OccursAt(s, "0x", d0)
    requires SkipDigits(s, d0 + 2) == d0 + 2 + |digits| <= |s|
    requires s[d0..d0 + 2 + |digits|] == "0x" + digits
    ensures Capture(NameNumber(name), s) == Some("0x" + digits)
  {
    var h := "0x" + digits;
    assert IsTrimmed(h) by {
      assert h[|h| - 1] == digits[|digits| - 1];
    }
    NumberCaptureOf(s, name, k, v, d0, d0 + 2, d0 + 2 + |digits|, h);
  }

  /** Without its label the numeric field falls back to the fallback: 0 for the
      fallback 0, with or without `hex`, and `NaN` for the fallback `null`. */
  lemma AbsentNumber(s: string, name: string, hex: bool)
    requires Unmentioned(s, name)
    ensures NumericValue(s, name, hex, "0") == Some(0)
    ensures NumericValueAsWritten(s, name, hex, "0") == Some(0)
    ensures NumericValue(s, name, hex, "null") == None
  {
    NumberCaptureAbsent(s, name);
    DefaultTexts();
  }

  lemma NumberCaptureAbsent(s: string, name: string)
    requires Unmentioned(s, name)
    ensures Capture(NameNumber(name), s) == None
  {
    forall i | 0 <= i <= |s|
      ensures MatchAt(NameNumber(name), s, i).None?
    {
      assert !OccursAt(s, name, i);
    }
    CaptureNone(NameNumber(name), s);
  }

  /** How `parseInt` reads the defaults `"0"` and `"null"`, with and without a
      `0x` prefix. */
  lemma DefaultTexts()
    ensures !HasHexPrefix("0") && !HasHexPrefix("null")
    ensures ParseInt("0") == Some(0) && ParseInt("0x" + "0") == Some(0)
    ensures ParseInt("null") == None && ParseInt("0x" + "null") == None
  {
    DecimalDigitsAreHex("0");
    ParseIntHexDigits("0");
    assert DigitsValue("0", 16) == 0 by {
      assert "0"[..0] == "";
    }
    ParseIntOfString(0);
    assert IntToString(0) == "0";
    SkipSpaceIs("null", 0, 0);
    SkipRadixDigitsIs("null", 0, 10, 0);
    assert "0x" + "null" == "0xnull";
    SkipSpaceIs("0xnull", 0, 0);
    SkipRadixDigitsIs("0xnull", 2, 16, 2);
  }

  /** Without its label no text extractor finds anything. */
  lemma AbsentValue(s: string, name: string)
    requires Unmentioned(s, name)
    ensures GetValue(s, name) == None
    ensures CodeNameValue(s, name) == None
    ensures Flags(s, name) == None
  {
    forall i | 0 <= i <= |s|
      ensures ValueStart(s, name, i, false, false).None?
      ensures MatchAt(NameFlags(name), s, i).None?
    {
      assert !OccursAt(s, name, i);
    }
    GetValueNone(s, name);
    CodeNameValueNone(s, name);
    CaptureNone(NameFlags(name), s);
  }

  /** Without its label, in any case, the boolean readers return the fallback. */
  lemma AbsentBoolean(s: string, name: string, fallback: bool)
    requires forall i | 0 <= i <= |s| :: !NameAt(s, name, i, true)
    ensures BooleanValue(s, name, fallback) == fallback
    ensures BooleanValueAsWritten(s, name, fallback) == fallback
  {
    forall i | 0 <= i <= |s|
      ensures MatchAt(NameBoolean(name), s, i).None?
    {
      assert !NameAt(s, name, i, true);
    }
    CaptureNone(NameBoolean(name), s);
  }

  /** `p = gap2 ( flags ) post`: the parenthesised line after a line break. */
  lemma ParenBody(gap2: string, flags: string, post: string, p: string)
    requires Blank(gap2) && OneLine(flags) && EndsLine(post)
    requires p == gap2 + ("(" + (flags + (")" + post)))
    ensures SkipSpace(p, 0) == |gap2|
    ensures p[|gap2|] == OpenParen && p[|gap2| + 1 + |flags|] == CloseParen
    ensures LineEnd(p, |gap2| + 1) == |gap2| + 2 + |flags|
  {
    var r1 := "(" + (flags + (")" + post));
    assert r1[0] == OpenParen;
    SpaceRunIs(gap2, r1);
    var o := |gap2| + 1;
    assert forall k | o <= k < o + |flags| :: p[k] == flags[k - o];
    assert p[o + |flags|] == CloseParen;
    assert o + |flags| + 1 < |p| ==> p[o + |flags| + 1] == post[0];
    LineEndIs(p, o, o + |flags| + 1);
  }

  /** The flags, sliced back out of `p = gap2 ( flags ) post`. */
  lemma ParenSlice(gap2: string, flags: string, post: string, p: string)
    requires p == gap2 + ("(" + (flags + (")" + post)))
    ensures p[|gap2| + 1..|gap2| + 1 + |flags|] == flags
  {
    PieceAfter(gap2 + "(", flags, ")" + post);
    AppendAssoc(gap2, "(", flags + (")" + post));
  }

  /** The rest of a labelled line: its first character, then text up to a line break. */
  lemma LineBody(line: string, r: string)
    requires |line| > 0 && OneLine(line[1..])
    requires |r| > 0 && IsLineTerminator(r[0])
    ensures LineEnd(line + r, 1) == |line|
    ensures (line + r)[0] == line[0]
  {
    var b := line + r;
    assert forall k | 1 <= k < |line| :: b[k] == line[1..][k - 1];
    assert b[|line|] == r[0];
    LineEndIs(b, 1, |line|);
  }

  /** Where the scanners stop on `s = head line p`: the labelled line ends
      where `p` starts with a line break. */
  lemma FlagsLineFirst(head: string, line: string, p: string, s: string)
    requires |line| > 0 && OneLine(line[1..])
    requires |p| > 0 && IsLineTerminator(p[0])
    requires s == head + (line + p)
    ensures s[|head|] == line[0]
    ensures LineEnd(s, |head| + 1) == |head| + |line|
  {
    LineBody(line, p);
    LineEndShift(head, line + p, |head| + 1, 1);
  }

  /** Where the scanners stop on `s = head2 p`, with `p` the parenthesised line. */
  lemma FlagsLineParen(head2: string, gap2: string, flags: string, post: string, p: string, s: string, w: nat, c: nat)
    requires Blank(gap2) && OneLine(flags) && EndsLine(post)
    requires p == gap2 + ("(" + (flags + (")" + post)))
    requires s == head2 + p && w == |head2| + |gap2| && c == w + 1 + |flags|
    ensures SkipSpace(s, |head2|) == w && w < |s| && s[w] == OpenParen
    ensures LineEnd(s, w + 1) == c + 1 && s[c] == CloseParen
    ensures s[w + 1..c] == flags
  {
    ParenBody(gap2, flags, post, p);
    SkipSpaceShift(head2, p, |head2|, 0);
    LineEndShift(head2, p, w + 1, |gap2| + 1);
    assert s[w] == p[|gap2|] && s[c] == p[|gap2| + 1 + |flags|];
    FlagsSliceShift(head2, gap2, flags, post, p, s, w, c);
  }

  /** The flags sit between the parentheses, after the labelled line. */
  lemma FlagsSliceShift(head2: string, gap2: string, flags: string, post: string, p: string, s: string, w: nat, c: nat)
    requires p == gap2 + ("(" + (flags + (")" + post)))
    requires s == head2 + p && w == |head2| + |gap2| && c == w + 1 + |flags|
    ensures s[w + 1..c] == flags
  {
    ParenSlice(gap2, flags, post, p);
    SliceAt(head2, p, s, |gap2| + 1, |gap2| + 1 + |flags|, w + 1, c, flags);
  }

  /** A labelled line followed by a parenthesised line, as `sc query` prints
      `STATE : 4  RUNNING` above `(STOPPABLE, NOT_PAUSABLE, ACCEPTS_SHUTDOWN)`:
      the flags are the text between the parentheses, trimmed. */
  lemma FlagsOfField(pre: string, name: string, gap: string, line: string, gap2: string, flags: string, post: string, s: string)
    requires Blank(gap) && |line| > 0 && IsSpace(line[0]) && OneLine(line[1..])
    requires Blank(gap2) && |gap2| > 0 && IsLineTerminator(gap2[0])
    requires OneLine(flags) && EndsLine(post)
    requires s == pre + name + gap + [':'] + (line + (gap2 + ("(" + (flags + (")" + post)))))
    requires FirstMention(s, name, |pre|, false)
    ensures Flags(s, name) == Some(Trim(flags))
  {
    var head := pre + name + gap + [':'];
    var p := gap2 + ("(" + (flags + (")" + post)));
    var v := |head|;
    var e := v + |line|;
    var w := e + |gap2|;
    var c := w + 1 + |flags|;
    ValueStartOfField(s, pre, name, name, gap, ':', line + p, false);
    assert p[0] == gap2[0];
    FlagsLineFirst(head, line, p, s);
    AppendAssoc(head, line, p);
    FlagsLineParen(head + line, gap2, flags, post, p, s, w, c);
    FlagsCaptureOf(s, name, |pre|, v, e, w, c);
  }

  /** Case-insensitive `true`/`false`. */
  lemma BoolWordIsTrimmed(word: string)
    requires EqualsIgnoreCase(word, "true") || EqualsIgnoreCase(word, "false")
    ensures IsTrimmed(word) && |word| > 0
  {
    assert Upper(word[0]) == 'T' || Upper(word[0]) == 'F';
    assert Upper(word[|word| - 1]) == 'E';
  }

  /** `b = gap word post`: the boolean pattern takes exactly the word. */
  lemma BoolBody(gap: string, word: string, post: string, b: string)
    requires Blank(gap)
    requires EqualsIgnoreCase(word, "true") || EqualsIgnoreCase(word, "false")
    requires b == gap + (word + post)
    ensures SkipSpace(b, 0) == |gap|
    ensures BoolWord(b, |gap|) == Some(|gap| + |word|)
    ensures b[|gap|..|gap| + |word|] == word
  {
    var r1 := word + post;
    BoolWordIsTrimmed(word);
    assert r1[0] == word[0];
    SpaceRunIs(gap, r1);
    PieceAfter(gap, word, post);
    if EqualsIgnoreCase(word, "false") {
      SliceShift(gap, r1, 0, 4);
      assert b[|gap|..|gap| + 4][0] == word[0];
      assert Upper(word[0]) == 'F';
    }
  }

  /** Where the scanners stop on a line `s = head gap2 word post`. */
  lemma BoolLineScans(head: string, body: string, gap2: string, word: string, post: string, s: string, q: nat)
    requires Blank(gap2) && body == gap2 + (word + post)
    requires EqualsIgnoreCase(word, "true") || EqualsIgnoreCase(word, "false")
    requires s == head + body && q == |head| + |gap2|
    ensures SkipSpace(s, |head|) == q
    ensures BoolWord(s, q) == Some(q + |word|)
  {
    BoolBody(gap2, word, post, body);
    SkipSpaceShift(head, body, |head|, 0);
    BoolWordShift(head, body, s, q, |gap2|, |gap2| + |word|, q + |word|);
  }

  /** A boolean field such as `IsLocked : FALSE` (label matched in any case):
      the intended reading is true exactly for `true` in any case, while as
      written any present word reads as true. */
  lemma BooleanOfField(pre: string, shown: string, name: string, gap: string, sep: char, gap2: string, word: string, post: string, s: string)
    requires EqualsIgnoreCase(shown, name)
    requires Blank(gap) && IsSeparator(sep) && Blank(gap2)
    requires EqualsIgnoreCase(word, "true") || EqualsIgnoreCase(word, "false")
    requires s == pre + shown + gap + [sep] + (gap2 + (word + post))
    requires FirstMention(s, name, |pre|, true)
    ensures BooleanValue(s, name, false) == EqualsIgnoreCase(word, "true")
    ensures BooleanValueAsWritten(s, name, false)
  {
    var body := gap2 + (word + post);
    var v := |pre| + |name| + |gap| + 1;
    var q := v + |gap2|;
    var head := pre + shown + gap + [sep];
    ValueStartOfField(s, pre, shown, name, gap, sep, body, true);
    BoolLineScans(head, body, gap2, word, post, s, q);
    PieceOfLine(head, body, gap2, word, post, s, q);
    BoolWordIsTrimmed(word);
    BoolCaptureOf(s, name, |pre|, v, q, q + |word|, word);
  }

  // ---------------------------------------------------------------------------
  // List fields: `DEPENDENCIES : a` followed by lines `: b`
  // ---------------------------------------------------------------------------

  /** One line of a list: whitespace (a line break before all but the first),
      a colon, a space and the value. */
  function ListLine(gap: string, value: string): string {
    gap + ": " + value
  }

  /** The lines of a list, one per value. */
  function ListText(gaps: seq<string>, values: seq<string>): string
    requires |gaps| == |values|
    decreases |values|
  {
    if |values| == 0 then "" else ListLine(gaps[0], values[0]) + ListText(gaps[1..], values[1..])
  }

  /** A list as `sc qc` prints it: non-empty trimmed values, each line after the
      first starting with a line break. */
  predicate WellListed(gaps: seq<string>, values: seq<string>) {
    && |gaps| == |values|
    && (forall k | 0 <= k < |values| :: Blank(gaps[k]) && values[k] != "" && OneLine(values[k]) && IsTrimmed(values[k]))
    && (forall k | 1 <= k < |gaps| :: |gaps[k]| > 0 && IsLineTerminator(gaps[k][0]))
  }

  /** What follows a list: a line break or nothing, and no further `:` line. */
  predicate ListStops(post: string) {
    EndsLine(post) && (SkipSpace(post, 0) == |post| || post[SkipSpace(post, 0)] != ':')
  }

  /** The first character after the first line of a list. */
  lemma ListTextStart(gaps: seq<string>, values: seq<string>)
    requires WellListed(gaps, values) && |values| > 1
    ensures ListText(gaps[1..], values[1..])[0] == gaps[1][0]
  {
    var t := ListText(gaps[1..], values[1..]);
    assert gaps[1..][0] == gaps[1];
    assert ListLine(gaps[1], values[1])[0] == gaps[1][0];
  }

  /** The tail of a well-listed list is well listed. */
  lemma WellListedTail(gaps: seq<string>, values: seq<string>)
    requires WellListed(gaps, values) && |values| > 0
    ensures WellListed(gaps[1..], values[1..])
  {
    assert forall k | 0 <= k < |values| - 1 :: gaps[1..][k] == gaps[k + 1] && values[1..][k] == values[k + 1];
  }

  /** A list line followed by more text, regrouped for the scanners. */
  lemma ListLineLayout(gap: string, value: string, r: string, u: string)
    requires u == ListLine(gap, value) + r
    ensures u == gap + (": " + (value + r))
    ensures u == (gap + ":") + ((" " + value) + r)
    ensures u == (gap + ": ") + (value + r)
    ensures u[|ListLine(gap, value)|..] == r
  {
    AppendAssoc(gap + ": ", value, r);
    AppendAssoc(gap, ": ", value + r);
    assert gap + ": " == (gap + ":") + " ";
    AppendAssoc(gap + ":", " ", value + r);
    AppendAssoc(" ", value, r);
  }

  /** Nothing, or a line break: a `.*` stops at once. */
  lemma LineEndAtBreak(r: string)
    requires r == [] || IsLineTerminator(r[0])
    ensures LineEnd(r, 0) == 0
  {
    LineEndIs(r, 0, 0);
  }

  /** A space before a single line is still a single line. */
  lemma SpacedOneLine(value: string)
    requires OneLine(value)
    ensures OneLine(" " + value)
  {
    assert forall k | 1 <= k < |value| + 1 :: (" " + value)[k] == value[k - 1];
  }

  /** One list line, then a line break or nothing: the list runs on past it. */
  lemma ListLengthStep(gap: string, value: string, r: string)
    requires Blank(gap) && OneLine(value)
    requires r == [] || IsLineTerminator(r[0])
    ensures ListLength(ListLine(gap, value) + r) == |ListLine(gap, value)| + ListLength(r)
  {
    var u := ListLine(gap, value) + r;
    var g := |gap|;
    var tail := ": " + (value + r);
    ListLineLayout(gap, value, r, u);
    SkipSpaceOver(gap, tail);
    SkipSpaceIs(tail, 0, 0);
    assert u[g] == tail[0] == ':';
    var b := (" " + value) + r;
    LineEndShift(gap + ":", b, g + 1, 0);
    SpacedOneLine(value);
    LineEndOver(" " + value, r);
    LineEndAtBreak(r);
  }

  /** The list pattern takes exactly the lines of a well-listed list. */
  lemma {:induction false} ListLengthOfText(gaps: seq<string>, values: seq<string>, post: string)
    requires WellListed(gaps, values) && ListStops(post)
    ensures ListLength(ListText(gaps, values) + post) == |ListText(gaps, values)|
    decreases |values|
  {
    if |values| == 0 {
      assert ListText(gaps, values) + post == post;
    } else {
      var l := ListLine(gaps[0], values[0]);
      var rest := ListText(gaps[1..], values[1..]);
      WellListedTail(gaps, values);
      ListLengthOfText(gaps[1..], values[1..], post);
      if |values| > 1 {
        ListTextStart(gaps, values);
      }
      assert (rest + post) == [] || IsLineTerminator((rest + post)[0]);
      ListLengthStep(gaps[0], values[0], rest + post);
      AppendAssoc(l, rest, post);
    }
  }

  /** Where the scans of the `exec` loop stop on one list line. */
  lemma ListLineScans(gap: string, value: string, rest: string, u: string)
    requires Blank(gap) && |value| > 0 && OneLine(value) && !IsSpace(value[0])
    requires rest == [] || IsLineTerminator(rest[0])
    requires u == ListLine(gap, value) + rest
    ensures IndexOf(u, ":", 0) == Some(|gap|)
    ensures SkipSpace(u, |gap| + 1) == |gap| + 2
    ensures LineEnd(u, |gap| + 2) == |ListLine(gap, value)|
    ensures u[|gap| + 2..|ListLine(gap, value)|] == value
    ensures u[|ListLine(gap, value)|..] == rest
  {
    var g := |gap|;
    ListLineLayout(gap, value, rest, u);
    ListColonFirst(gap, value + rest, u);
    var head := gap + ": ";
    assert u[g + 1] == head[g + 1] == ' ';
    assert u[g + 2] == (value + rest)[0] == value[0];
    SkipSpaceIs(u, g + 1, g + 2);
    LineEndShift(head, value + rest, g + 2, 0);
    LineEndOver(value, rest);
    LineEndAtBreak(rest);
    PieceAfter(head, value, rest);
  }

  /** The first colon after blank text is the one that follows it. */
  lemma ListColonFirst(gap: string, r: string, u: string)
    requires Blank(gap) && u == gap + (": " + r)
    ensures IndexOf(u, ":", 0) == Some(|gap|)
  {
    var g := |gap|;
    forall k | 0 <= k < g
      ensures !OccursAt(u, ":", k)
    {
      assert u[k] == gap[k];
      assert u[k..k + 1][0] == u[k];
    }
    assert u[g] == ':';
    assert u[g..g + 1] == ":";
    IndexOfIs(u, ":", g);
  }

  /** The `exec` loop reads one list line and goes on after it. */
  lemma ListItemsStep(gap: string, value: string, rest: string)
    requires Blank(gap) && |value| > 0 && OneLine(value) && !IsSpace(value[0])
    requires rest == [] || IsLineTerminator(rest[0])
    ensures ListItems(ListLine(gap, value) + rest) == [value] + ListItems(rest)
  {
    ListLineScans(gap, value, rest, ListLine(gap, value) + rest);
  }

  /** The `exec` loop reads back the values of a well-listed list. */
  lemma {:induction false} ListItemsOfText(gaps: seq<string>, values: seq<string>)
    requires WellListed(gaps, values)
    ensures ListItems(ListText(gaps, values)) == values
    decreases |values|
  {
    if |values| > 0 {
      var rest := ListText(gaps[1..], values[1..]);
      WellListedTail(gaps, values);
      ListItemsOfText(gaps[1..], values[1..]);
      if |values| > 1 {
        ListTextStart(gaps, values);
      }
      ListItemsStep(gaps[0], values[0], rest);
      assert values == [values[0]] + values[1..];
    }
  }

  /** A well-listed list ends with the last character of its last value. */
  lemma {:induction false} ListTextEnd(gaps: seq<string>, values: seq<string>)
    requires WellListed(gaps, values) && |values| > 0
    ensures |ListText(gaps, values)| > 0 && !IsSpace(ListText(gaps, values)[|ListText(gaps, values)| - 1])
    decreases |values|
  {
    var l := ListLine(gaps[0], values[0]);
    var rest := ListText(gaps[1..], values[1..]);
    if |values| == 1 {
      assert l + rest == l;
      assert l[|l| - 1] == values[0][|values[0]| - 1];
    } else {
      WellListedTail(gaps, values);
      ListTextEnd(gaps[1..], values[1..]);
      assert (l + rest)[|l + rest| - 1] == rest[|rest| - 1];
    }
  }

  /** A list with the whitespace before its first colon dropped is still
      well listed. */
  lemma WellListedRegap(gaps: seq<string>, values: seq<string>)
    requires WellListed(gaps, values) && |values| > 0
    ensures WellListed([""] + gaps[1..], values)
  {
    var gaps' := [""] + gaps[1..];
    assert forall k | 1 <= k < |gaps'| :: gaps'[k] == gaps[k];
  }

  /** The text of a list with the whitespace before its first colon dropped. */
  lemma ListTextUngapped(gaps: seq<string>, values: seq<string>)
    requires |gaps| == |values| > 0
    ensures ListText([""] + gaps[1..], values) == ": " + values[0] + ListText(gaps[1..], values[1..])
  {
    var gaps' := [""] + gaps[1..];
    assert gaps'[1..] == gaps[1..];
    assert gaps'[0] == "";
  }

  /** A list is its first gap followed by the list without it. */
  lemma ListTextRegap(gaps: seq<string>, values: seq<string>)
    requires |gaps| == |values| > 0
    ensures ListText(gaps, values) == gaps[0] + ListText([""] + gaps[1..], values)
  {
    var rest := ListText(gaps[1..], values[1..]);
    ListTextUngapped(gaps, values);
    assert ListText(gaps, values) == gaps[0] + ": " + values[0] + rest;
    AppendAssoc(gaps[0], ": ", values[0]);
    AppendAssoc(gaps[0], ": " + values[0], rest);
  }

  /** Trimming a list removes the whitespace before its first colon. */
  lemma ListTextTrim(gaps: seq<string>, values: seq<string>)
    requires WellListed(gaps, values) && |values| > 0
    ensures WellListed([""] + gaps[1..], values)
    ensures Trim(ListText(gaps, values)) == ListText([""] + gaps[1..], values)
  {
    var gaps' := [""] + gaps[1..];
    var t := ListText(gaps', values);
    WellListedRegap(gaps, values);
    ListTextRegap(gaps, values);
    ListTextEnd(gaps', values);
    assert t[0] == ':';
    assert IsTrimmed(t);
    assert gaps[0] + t + [] == gaps[0] + t;
    TrimAround(gaps[0], t, []);
  }

  /** The list capture at the first mention of the label, given what the list
      pattern matches there. */
  lemma ListCaptureIs(s: string, name: string, k: nat, l: string)
    requires k + |name| + |l| <= |s| && FirstMention(s, name, k, false)
    requires MatchAt(NameList(name), s, k) == Some(Span(k + |name|, k + |name| + |l|))
    requires s[k + |name|..k + |name| + |l|] == l
    ensures Capture(NameList(name), s) == Some(Trim(l))
  {
    NoMatchBefore(NameList(name), s, name, k, false);
    CaptureBetween(NameList(name), s, k, k + |name|, k + |name| + |l|);
  }

  /** The list pattern at a mention of its label. */
  lemma ListMatchIs(s: string, name: string, k: nat, l: string)
    requires k + |name| + |l| <= |s| && OccursAt(s, name, k)
    requires ListLength(s[k + |name|..]) == |l|
    ensures MatchAt(NameList(name), s, k) == Some(Span(k + |name|, k + |name| + |l|))
  {
  }

  /** The label and the list text, as they sit in the output. */
  lemma ListLabelAt(pre: string, name: string, l: string, post: string, s: string)
    requires s == pre + name + (l + post)
    ensures OccursAt(s, name, |pre|)
    ensures s[|pre| + |name|..] == l + post
    ensures s[|pre| + |name|..|pre| + |name| + |l|] == l
  {
    AppendAssoc(pre, name, l + post);
    PieceAfter(pre, name, l + post);
    PieceAfter(pre + name, l, post);
  }

  /** The list pattern captures the list text after the first mention of its
      label. */
  lemma ListCaptureAt(pre: string, name: string, l: string, post: string, s: string)
    requires ListLength(l + post) == |l|
    requires s == pre + name + (l + post)
    requires FirstMention(s, name, |pre|, false)
    ensures Capture(NameList(name), s) == Some(Trim(l))
  {
    var k := |pre|;
    ListLabelAt(pre, name, l, post, s);
    assert MatchAt(NameList(name), s, k) == Some(Span(k + |name|, k + |name| + |l|)) by {
      ListMatchIs(s, name, k, l);
    }
    ListCaptureIs(s, name, k, l);
  }

  /** What the list pattern captures from a well-listed list. */
  lemma ListCaptureOf(pre: string, name: string, gaps: seq<string>, values: seq<string>, post: string, s: string)
    requires WellListed(gaps, values) && ListStops(post)
    requires s == pre + name + (ListText(gaps, values) + post)
    requires FirstMention(s, name, |pre|, false)
    ensures Capture(NameList(name), s) == Some(Trim(ListText(gaps, values)))
  {
    ListLengthOfText(gaps, values, post);
    ListCaptureAt(pre, name, ListText(gaps, values), post, s);
  }

  /** A list field such as `DEPENDENCIES : RpcSs` over `: Tcpip` reads back
      as its values, in order. */
  lemma ArrayOfList(pre: string, name: string, gaps: seq<string>, values: seq<string>, post: string, s: string)
    requires WellListed(gaps, values) && ListStops(post)
    requires s == pre + name + (ListText(gaps, values) + post)
    requires FirstMention(s, name, |pre|, false)
    ensures ArrayValue(s, name) == values
  {
    ListCaptureOf(pre, name, gaps, values, post, s);
    if |values| == 0 {
      SkipSpaceIs("", 0, 0);
    } else {
      ListTextTrim(gaps, values);
      ListItemsOfText([""] + gaps[1..], values);
    }
  }
}
