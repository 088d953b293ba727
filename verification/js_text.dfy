/** The string primitives of the JavaScript runtime that the wrapper relies on:
    the `\s` class and line terminators of regular expressions, `trim`,
    `indexOf`, `split` and `join` with a literal separator, `String(n)` for
    integers and `parseInt`. Strings are sequences of characters; UTF-16
    surrogate pairs are not distinguished from single characters. */
module JsText {
  import opened Wrappers

  // ---------------------------------------------------------------------------
  // Character classes
  // ---------------------------------------------------------------------------

  /** JavaScript's `\s`: the WhiteSpace and LineTerminator characters of
      ECMAScript. The same set is removed by `String.prototype.trim`, by lodash
      `_.trim` and skipped by `parseInt`. */
  predicate IsSpace(c: char) {
    || c == '\t' || c == '\n' || c == '\U{B}' || c == '\U{C}' || c == '\r' || c == ' '
    || c == '\U{A0}' || c == '\U{1680}' || ('\U{2000}' <= c <= '\U{200A}')
    || c == '\U{2028}' || c == '\U{2029}' || c == '\U{202F}' || c == '\U{205F}'
    || c == '\U{3000}' || c == '\U{FEFF}'
  }

  /** The characters a regular-expression `.` does not match. */
  predicate IsLineTerminator(c: char) {
    c == '\n' || c == '\r' || c == '\U{2028}' || c == '\U{2029}'
  }

  /** JavaScript's `\d`. */
  predicate IsDigit(c: char) {
    '0' <= c <= '9'
  }

  /** True when every character of `t` is whitespace. */
  predicate Blank(t: string) {
    forall k | 0 <= k < |t| :: IsSpace(t[k])
  }

  /** True when `t` holds no line terminator, so a `.*` can run across all of it. */
  predicate OneLine(t: string) {
    forall k | 0 <= k < |t| :: !IsLineTerminator(t[k])
  }

  /** True when `t` consists of decimal digits only. */
  predicate AllDigits(t: string) {
    forall k | 0 <= k < |t| :: IsDigit(t[k])
  }

  /** True when `t` consists of base-16 digits only (`0`-`9`, `a`-`f`, `A`-`F`). */
  predicate AllHexDigits(t: string) {
    forall k | 0 <= k < |t| :: DigitValue(t[k]) < 16
  }

  /** Decimal digits are base-16 digits too. */
  lemma DecimalDigitsAreHex(t: string)
    requires AllDigits(t)
    ensures AllHexDigits(t)
  {
    forall k | 0 <= k < |t|
      ensures DigitValue(t[k]) < 16
    {
      assert IsDigit(t[k]);
    }
  }

  /** A run of base-16 digits holds no whitespace, so it is one trimmed line. */
  lemma HexDigitsPlain(t: string)
    requires AllHexDigits(t)
    ensures OneLine(t) && IsTrimmed(t)
  {
    forall k | 0 <= k < |t|
      ensures !IsSpace(t[k]) && !IsLineTerminator(t[k])
    {
      assert DigitValue(t[k]) < 16;
    }
  }

  /** ASCII upper-casing. A case-insensitive JavaScript regular expression whose
      pattern is ASCII matches a character exactly when the ASCII upper-cased
      forms agree: non-ASCII characters never canonicalise to ASCII ones. */
  function Upper(c: char): char {
    if 'a' <= c <= 'z' then (c as int - 32) as char else c
  }

  /** Case-insensitive equality of two strings, as an `i` regular expression
      compares an ASCII pattern with the text. */
  predicate EqualsIgnoreCase(a: string, b: string) {
    |a| == |b| && forall k | 0 <= k < |a| :: Upper(a[k]) == Upper(b[k])
  }

  // ---------------------------------------------------------------------------
  // Scanners: each returns the end of the longest run of a character class
  // ---------------------------------------------------------------------------

  /** The end of the longest whitespace run starting at `i` (a greedy `\s*`). */
  function SkipSpace(s: string, i: nat): (j: nat)
    requires i <= |s|
    ensures i <= j <= |s|
    ensures forall k | i <= k < j :: IsSpace(s[k])
    ensures j == |s| || !IsSpace(s[j])
    decreases |s| - i
  {
    if i < |s| && IsSpace(s[i]) then SkipSpace(s, i + 1) else i
  }

  /** The end of the longest run of decimal digits starting at `i` (a greedy `\d*`). */
  function SkipDigits(s: string, i: nat): (j: nat)
    requires i <= |s|
    ensures i <= j <= |s|
    ensures forall k | i <= k < j :: IsDigit(s[k])
    ensures j == |s| || !IsDigit(s[j])
    decreases |s| - i
  {
    if i < |s| && IsDigit(s[i]) then SkipDigits(s, i + 1) else i
  }

  /** The end of the line that contains position `i` (a greedy `.*` from `i`). */
  function LineEnd(s: string, i: nat): (j: nat)
    requires i <= |s|
    ensures i <= j <= |s|
    ensures forall k | i <= k < j :: !IsLineTerminator(s[k])
    ensures j == |s| || IsLineTerminator(s[j])
    decreases |s| - i
  {
    if i < |s| && !IsLineTerminator(s[i]) then LineEnd(s, i + 1) else i
  }

  /** A greedy run ends exactly where the class stops holding. */
  lemma SkipSpaceIs(s: string, i: nat, j: nat)
    requires i <= j <= |s|
    requires forall k | i <= k < j :: IsSpace(s[k])
    requires j == |s| || !IsSpace(s[j])
    ensures SkipSpace(s, i) == j
  {
  }

  lemma SkipDigitsIs(s: string, i: nat, j: nat)
    requires i <= j <= |s|
    requires forall k | i <= k < j :: IsDigit(s[k])
    requires j == |s| || !IsDigit(s[j])
    ensures SkipDigits(s, i) == j
  {
  }

  lemma LineEndIs(s: string, i: nat, j: nat)
    requires i <= j <= |s|
    requires forall k | i <= k < j :: !IsLineTerminator(s[k])
    requires j == |s| || IsLineTerminator(s[j])
    ensures LineEnd(s, i) == j
  {
  }

  /** A greedy run may be entered anywhere inside it. */
  lemma SkipSpaceSkips(s: string, i: nat, j: nat)
    requires i <= j <= |s|
    requires forall k | i <= k < j :: IsSpace(s[k])
    ensures SkipSpace(s, i) == SkipSpace(s, j)
  {
    SkipSpaceIs(s, i, SkipSpace(s, j));
  }

  /** The scanners look only at the text they scan: a prefix shifts the result. */
  lemma SkipSpaceShift(a: string, b: string, i: nat, j: nat)
    requires j <= |b| && i == |a| + j
    ensures SkipSpace(a + b, i) == |a| + SkipSpace(b, j)
  {
    var s := a + b;
    var t := SkipSpace(b, j);
    assert forall k | i <= k < |a| + t :: s[k] == b[k - |a|];
    assert |a| + t < |s| ==> s[|a| + t] == b[t];
    SkipSpaceIs(s, i, |a| + t);
  }

  lemma SkipDigitsShift(a: string, b: string, i: nat, j: nat)
    requires j <= |b| && i == |a| + j
    ensures SkipDigits(a + b, i) == |a| + SkipDigits(b, j)
  {
    var s := a + b;
    var t := SkipDigits(b, j);
    assert forall k | i <= k < |a| + t :: s[k] == b[k - |a|];
    assert |a| + t < |s| ==> s[|a| + t] == b[t];
    SkipDigitsIs(s, i, |a| + t);
  }

  lemma LineEndShift(a: string, b: string, i: nat, j: nat)
    requires j <= |b| && i == |a| + j
    ensures LineEnd(a + b, i) == |a| + LineEnd(b, j)
  {
    var s := a + b;
    var t := LineEnd(b, j);
    assert forall k | i <= k < |a| + t :: s[k] == b[k - |a|];
    assert |a| + t < |s| ==> s[|a| + t] == b[t];
    LineEndIs(s, i, |a| + t);
  }

  /** A whitespace run over a blank piece continues into what follows. */
  lemma SkipSpaceOver(g: string, r: string)
    requires Blank(g)
    ensures SkipSpace(g + r, 0) == |g| + SkipSpace(r, 0)
  {
    assert forall k | 0 <= k < |g| :: (g + r)[k] == g[k];
    SkipSpaceSkips(g + r, 0, |g|);
    SkipSpaceShift(g, r, |g|, 0);
  }

  lemma SkipDigitsOver(d: string, r: string)
    requires AllDigits(d)
    ensures SkipDigits(d + r, 0) == |d| + SkipDigits(r, 0)
  {
    var s := d + r;
    var t := SkipDigits(r, 0);
    assert forall k | 0 <= k < |d| :: s[k] == d[k];
    assert forall k | |d| <= k < |d| + t :: s[k] == r[k - |d|];
    assert |d| + t < |s| ==> s[|d| + t] == r[t];
    SkipDigitsIs(s, 0, |d| + t);
  }

  lemma LineEndOver(l: string, r: string)
    requires OneLine(l)
    ensures LineEnd(l + r, 0) == |l| + LineEnd(r, 0)
  {
    var s := l + r;
    var t := LineEnd(r, 0);
    assert forall k | 0 <= k < |l| :: s[k] == l[k];
    assert forall k | |l| <= k < |l| + t :: s[k] == r[k - |l|];
    assert |l| + t < |s| ==> s[|l| + t] == r[t];
    LineEndIs(s, 0, |l| + t);
  }

  /** Slicing past a prefix slices the rest. */
  lemma SliceShift(a: string, b: string, x: nat, y: nat)
    requires x <= y <= |b|
    ensures (a + b)[|a| + x..|a| + y] == b[x..y]
  {
    assert forall k | 0 <= k < y - x :: (a + b)[|a| + x..|a| + y][k] == b[x..y][k];
  }

  /** The same, for a line `s = a + b` and positions `i`, `j` already shifted. */
  lemma SliceAt(a: string, b: string, s: string, x: nat, y: nat, i: nat, j: nat, t: string)
    requires s == a + b && x <= y <= |b| && i == |a| + x && j == |a| + y && b[x..y] == t
    ensures s[i..j] == t
  {
    SliceShift(a, b, x, y);
  }

  /** Concatenation is associative; stated once so that long concatenations
      can be regrouped with one call. */
  lemma AppendAssoc<T>(a: seq<T>, b: seq<T>, c: seq<T>)
    ensures (a + b) + c == a + (b + c)
  {
  }

  /** An occurrence past a prefix is an occurrence in the rest. */
  lemma OccursAtShift(a: string, b: string, pat: string, i: nat, j: nat)
    requires j <= |b| && i == |a| + j
    ensures OccursAt(a + b, pat, i) <==> OccursAt(b, pat, j)
  {
    if j + |pat| <= |b| {
      SliceShift(a, b, j, j + |pat|);
    }
  }

  // ---------------------------------------------------------------------------
  // trim
  // ---------------------------------------------------------------------------

  /** The least `j >= i` such that `s[j..]` is all whitespace. */
  function TrimEnd(s: string, i: nat): (j: nat)
    requires i <= |s|
    ensures i <= j <= |s|
    ensures forall k | j <= k < |s| :: IsSpace(s[k])
    ensures j == i || !IsSpace(s[j - 1])
    decreases |s|
  {
    if i < |s| && IsSpace(s[|s| - 1]) then TrimEnd(s[..|s| - 1], i) else |s|
  }

  /** True when `t` neither starts nor ends with whitespace. */
  predicate IsTrimmed(t: string) {
    t == [] || (!IsSpace(t[0]) && !IsSpace(t[|t| - 1]))
  }

  /** `String.prototype.trim` and lodash `_.trim` (without a character list). */
  function Trim(s: string): (t: string)
    ensures IsTrimmed(t)
    ensures |t| <= |s|
  {
    var a := SkipSpace(s, 0);
    s[a..TrimEnd(s, a)]
  }

  /** Trimming removes exactly the surrounding whitespace and nothing else. */
  lemma TrimAround(pre: string, t: string, post: string)
    requires Blank(pre) && Blank(post) && IsTrimmed(t)
    ensures Trim(pre + t + post) == t
  {
    var s := pre + t + post;
    if t == [] {
      SkipSpaceIs(s, 0, |s|);
    } else {
      SkipSpaceIs(s, 0, |pre|);
      assert s[|pre| + |t| - 1] == t[|t| - 1];
      assert forall k | |pre| + |t| <= k < |s| :: s[k] == post[k - |pre| - |t|];
      TrimEndIs(s, |pre|, |pre| + |t|);
      assert s[|pre|..|pre| + |t|] == t;
    }
  }

  /** Trimming text that is already trimmed changes nothing. */
  lemma TrimOfTrimmed(t: string)
    requires IsTrimmed(t)
    ensures Trim(t) == t
  {
    TrimAround([], t, []);
    assert [] + t + [] == t;
  }

  /** A run of digits is trimmed. */
  lemma DigitsTrimmed(d: string)
    requires AllDigits(d)
    ensures IsTrimmed(d)
  {
    if d != [] {
      assert IsDigit(d[0]) && IsDigit(d[|d| - 1]);
    }
  }

  lemma TrimEndIs(s: string, i: nat, j: nat)
    requires i <= j <= |s|
    requires forall k | j <= k < |s| :: IsSpace(s[k])
    requires j == i || !IsSpace(s[j - 1])
    ensures TrimEnd(s, i) == j
  {
  }

  /** `trim` is idempotent. */
  lemma TrimIdempotent(s: string)
    ensures Trim(Trim(s)) == Trim(s)
  {
    TrimAround([], Trim(s), []);
    assert [] + Trim(s) + [] == Trim(s);
  }

  // ---------------------------------------------------------------------------
  // indexOf, split and join with a literal separator
  // ---------------------------------------------------------------------------

  /** `pat` occurs in `s` at position `i`. */
  predicate OccursAt(s: string, pat: string, i: nat) {
    i + |pat| <= |s| && s[i..i + |pat|] == pat
  }

  /** The first occurrence of `pat` at or after `from` (`String.prototype.indexOf`). */
  function IndexOf(s: string, pat: string, from: nat): (r: Option<nat>)
    requires from <= |s|
    ensures r.Some? ==> from <= r.value && OccursAt(s, pat, r.value)
    ensures r.Some? ==> forall k | from <= k < r.value :: !OccursAt(s, pat, k)
    ensures r.None? ==> forall k | from <= k <= |s| :: !OccursAt(s, pat, k)
    decreases |s| - from
  {
    if OccursAt(s, pat, from) then Some(from)
    else if from == |s| then None
    else IndexOf(s, pat, from + 1)
  }

  /** `s` contains `pat` (a regular expression made of literal characters only, tested with `match` or `test`). */
  predicate Contains(s: string, pat: string) {
    IndexOf(s, pat, 0).Some?
  }

  /** `Array.prototype.join` over strings. */
  function Join(xs: seq<string>, sep: string): string
  {
    if |xs| == 0 then ""
    else if |xs| == 1 then xs[0]
    else xs[0] + sep + Join(xs[1..], sep)
  }

  /** `String.prototype.split` with a non-empty literal separator: the pieces
      between the non-overlapping occurrences of `sep` found left to right. */
  function Split(s: string, sep: string): (r: seq<string>)
    requires |sep| > 0
    ensures |r| > 0
    ensures Join(r, sep) == s
    ensures forall k | 0 <= k < |r| :: !Contains(r[k], sep)
    decreases |s|
  {
    match IndexOf(s, sep, 0)
    case None => [s]
    case Some(i) =>
      var rest := Split(s[i + |sep|..], sep);
      NoOccurrenceBefore(s, sep, i);
      JoinCons(s[..i], rest, sep);
      assert s == s[..i] + sep + s[i + |sep|..];
      [s[..i]] + rest
  }

  /** The text before the first occurrence of `sep` does not contain `sep`. */
  lemma NoOccurrenceBefore(s: string, sep: string, i: nat)
    requires i <= |s| && |sep| > 0
    requires forall k | 0 <= k < i :: !OccursAt(s, sep, k)
    ensures !Contains(s[..i], sep)
  {
    var t := s[..i];
    forall k | 0 <= k <= |t|
      ensures !OccursAt(t, sep, k)
    {
      if k + |sep| <= |t| {
        assert !OccursAt(s, sep, k);
        assert t[k..k + |sep|] == s[k..k + |sep|];
      }
    }
  }

  lemma JoinCons(x: string, rest: seq<string>, sep: string)
    requires |rest| > 0
    ensures Join([x] + rest, sep) == x + sep + Join(rest, sep)
  {
    var xs := [x] + rest;
    assert xs[0] == x && xs[1..] == rest;
  }

  /** A text without the separator's first character holds no occurrence of it. */
  lemma NoOccurrenceWithoutFirstChar(x: string, sep: string)
    requires |sep| > 0 && sep[0] !in x
    ensures forall k | 0 <= k <= |x| :: !OccursAt(x, sep, k)
    ensures !Contains(x, sep)
  {
    forall k | 0 <= k <= |x|
      ensures !OccursAt(x, sep, k)
    {
      if k + |sep| <= |x| {
        assert x[k..k + |sep|][0] == x[k];
      }
    }
  }

  /** When the part before a separator lacks the separator's first character,
      the first occurrence of the separator is the one right after that part. */
  lemma FirstOccurrenceAfter(x: string, sep: string, rest: string)
    requires |sep| > 0 && sep[0] !in x
    ensures IndexOf(x + sep + rest, sep, 0) == Some(|x|)
  {
    var s := x + sep + rest;
    assert s[|x|..|x| + |sep|] == sep;
    assert OccursAt(s, sep, |x|);
    forall k | 0 <= k < |x|
      ensures !OccursAt(s, sep, k)
    {
      assert s[k] == x[k];
      if k + |sep| <= |s| {
        assert s[k..k + |sep|][0] == s[k];
      }
    }
  }

  /** Splitting on a separator whose first character occurs in none of the parts
      recovers the parts that were joined. */
  lemma {:induction false} SplitJoin(xs: seq<string>, sep: string)
    requires |xs| > 0 && |sep| > 0
    requires forall k | 0 <= k < |xs| :: sep[0] !in xs[k]
    ensures Split(Join(xs, sep), sep) == xs
    decreases |xs|
  {
    var x := xs[0];
    if |xs| == 1 {
      NoOccurrenceWithoutFirstChar(x, sep);
    } else {
      var rest := Join(xs[1..], sep);
      var s := x + sep + rest;
      assert Join(xs, sep) == s;
      FirstOccurrenceAfter(x, sep, rest);
      assert s[..|x|] == x;
      assert s[|x| + |sep|..] == rest;
      SplitJoin(xs[1..], sep);
      assert xs == [x] + xs[1..];
    }
  }

  lemma CharOccurs(s: string, k: nat)
    requires k < |s|
    ensures OccursAt(s, [s[k]], k)
  {
    assert s[k..k + 1] == [s[k]];
  }

  /** Without the separator, `s + [c]` splits into `s` and an empty piece. */
  lemma SplitWithoutSeparator(s: string, c: char)
    requires IndexOf(s, [c], 0).None?
    ensures Split(s + [c], [c]) == [s, ""]
  {
    var t := s + [c];
    forall k | 0 <= k < |s|
      ensures s[k] != c
    {
      CharOccurs(s, k);
    }
    FirstOccurrenceAfter(s, [c], "");
    assert t == s + [c] + "";
    assert t[..|s|] == s;
    assert t[|s| + 1..] == "";
  }

  /** The first occurrence is the first position where the pattern occurs. */
  lemma IndexOfIs(s: string, pat: string, i: nat)
    requires i <= |s| && OccursAt(s, pat, i)
    requires forall k | 0 <= k < i :: !OccursAt(s, pat, k)
    ensures IndexOf(s, pat, 0) == Some(i)
  {
    var r := IndexOf(s, pat, 0);
    assert r.Some?;
    assert !(r.value < i);
    assert !(i < r.value);
  }

  /** Appending text does not move the first occurrence of a character. */
  lemma IndexOfAppend(s: string, c: char, i: nat)
    requires IndexOf(s, [c], 0) == Some(i)
    ensures IndexOf(s + [c], [c], 0) == Some(i)
  {
    var t := s + [c];
    assert t[i..i + 1] == s[i..i + 1];
    forall k | 0 <= k < i
      ensures !OccursAt(t, [c], k)
    {
      assert !OccursAt(s, [c], k);
      assert t[k..k + 1] == s[k..k + 1];
    }
    IndexOfIs(t, [c], i);
  }

  /** A trailing one-character separator adds exactly one empty piece. */
  lemma {:induction false} SplitTrailingSeparator(s: string, c: char)
    ensures Split(s + [c], [c]) == Split(s, [c]) + [""]
    decreases |s|
  {
    var t := s + [c];
    var r := IndexOf(s, [c], 0);
    if r.None? {
      SplitWithoutSeparator(s, c);
    } else {
      var i := r.value;
      IndexOfAppend(s, c, i);
      assert t[..i] == s[..i];
      assert t[i + 1..] == s[i + 1..] + [c];
      SplitTrailingSeparator(s[i + 1..], c);
    }
  }

  // ---------------------------------------------------------------------------
  // Integers as text: String(n) and parseInt
  // ---------------------------------------------------------------------------

  /** The decimal digit for `d < 10`. */
  function DigitChar(d: nat): char
    requires d < 10
  {
    ('0' as int + d) as char
  }

  /** `String(n)` for a non-negative integer. */
  function NatToString(n: nat): (s: string)
    ensures |s| > 0 && AllDigits(s)
    ensures s[0] == '0' ==> n == 0 && |s| == 1
    decreases n
  {
    if n < 10 then [DigitChar(n)] else NatToString(n / 10) + [DigitChar(n % 10)]
  }

  /** `String(n)` for an integer. */
  function IntToString(n: int): string {
    if n < 0 then "-" + NatToString(-n) else NatToString(n)
  }

  /** The value of a character as a digit of any radix up to 36 (36 or more when
      it is no digit at all), as `parseInt` reads it. */
  function DigitValue(c: char): nat {
    if '0' <= c <= '9' then c as int - '0' as int
    else if 'a' <= c <= 'z' then c as int - 'a' as int + 10
    else if 'A' <= c <= 'Z' then c as int - 'A' as int + 10
    else 36
  }

  /** The end of the longest run of digits of `radix` starting at `i`. */
  function SkipRadixDigits(s: string, i: nat, radix: nat): (j: nat)
    requires i <= |s|
    ensures i <= j <= |s|
    ensures forall k | i <= k < j :: DigitValue(s[k]) < radix
    ensures j == |s| || DigitValue(s[j]) >= radix
    decreases |s| - i
  {
    if i < |s| && DigitValue(s[i]) < radix then SkipRadixDigits(s, i + 1, radix) else i
  }

  /** The value of a digit string in `radix`, most significant digit first. */
  function DigitsValue(ds: string, radix: nat): nat
    decreases |ds|
  {
    if |ds| == 0 then 0
    else DigitsValue(ds[..|ds| - 1], radix) * radix + DigitValue(ds[|ds| - 1])
  }

  /** `parseInt(s)` without a radix argument: leading whitespace is skipped, an
      optional sign is read, a `0x`/`0X` prefix selects base 16 (otherwise base
      10), and the longest prefix of valid digits is converted. `None` stands
      for `NaN`, which is the result when no digit follows. Numbers are exact
      integers here, not IEEE doubles. */
  function ParseInt(s: string): Option<int>
  {
    var i := SkipSpace(s, 0);
    if i < |s| && s[i] == '-' then
      match ParseUnsigned(s, i + 1)
      case Some(v) => Some(-v)
      case None => None
    else if i < |s| && s[i] == '+' then ParseUnsigned(s, i + 1)
    else ParseUnsigned(s, i)
  }

  /** The digits after the sign: base 16 behind a `0x`/`0X` prefix, base 10 otherwise. */
  function ParseUnsigned(s: string, i: nat): Option<int>
    requires i <= |s|
  {
    if i + 2 <= |s| && s[i] == '0' && (s[i + 1] == 'x' || s[i + 1] == 'X') then ParseDigits(s, i + 2, 16)
    else ParseDigits(s, i, 10)
  }

  /** The value of the longest run of `radix` digits at `i`, or `None` when the run is empty. */
  function ParseDigits(s: string, i: nat, radix: nat): Option<int>
    requires i <= |s|
  {
    var j := SkipRadixDigits(s, i, radix);
    if j == i then None else Some(DigitsValue(s[i..j], radix))
  }

  /** A text that is all digits of `radix` from `i` on reads as their value. */
  lemma ParseDigitsToEnd(s: string, i: nat, radix: nat)
    requires i < |s|
    requires forall k | i <= k < |s| :: DigitValue(s[k]) < radix
    ensures ParseDigits(s, i, radix) == Some(DigitsValue(s[i..], radix) as int)
  {
    SkipRadixDigitsIs(s, i, radix, |s|);
    assert s[i..|s|] == s[i..];
  }

  lemma SkipRadixDigitsIs(s: string, i: nat, radix: nat, j: nat)
    requires i <= j <= |s|
    requires forall k | i <= k < j :: DigitValue(s[k]) < radix
    requires j == |s| || DigitValue(s[j]) >= radix
    ensures SkipRadixDigits(s, i, radix) == j
  {
  }

  lemma {:induction false} DigitsValueOfNatToString(n: nat)
    ensures DigitsValue(NatToString(n), 10) == n
    decreases n
  {
    var s := NatToString(n);
    if n < 10 {
      assert s[..0] == [];
    } else {
      DigitsValueOfNatToString(n / 10);
      assert s[..|s| - 1] == NatToString(n / 10);
    }
  }

  /** `parseInt(String(n)) == n`: the text of an integer reads back as that integer. */
  lemma ParseIntOfString(n: int)
    ensures ParseInt(IntToString(n)) == Some(n)
  {
    if n < 0 {
      ParseIntOfNegative(-n);
    } else {
      ParseIntOfNat(n);
    }
  }

  lemma ParseIntOfNat(m: nat)
    ensures ParseInt(NatToString(m)) == Some(m)
  {
    ParseUnsignedOfNatString(m, "");
    assert "" + NatToString(m) == NatToString(m);
  }

  lemma ParseIntOfNegative(m: nat)
    ensures ParseInt("-" + NatToString(m)) == Some(-(m as int))
  {
    ParseUnsignedOfNatString(m, "-");
  }

  /** After a sign or nothing, the decimal text of `m` reads as `m`. */
  lemma ParseUnsignedOfNatString(m: nat, sign: string)
    requires sign == "" || sign == "-"
    ensures SkipSpace(sign + NatToString(m), 0) == 0
    ensures sign == "" ==> NatToString(m)[0] != '-' && NatToString(m)[0] != '+'
    ensures ParseUnsigned(sign + NatToString(m), |sign|) == Some(m)
  {
    var ds := NatToString(m);
    var s := sign + ds;
    var i := |sign|;
    assert s[i..] == ds;
    assert s[0] == if sign == "-" then '-' else ds[0];
    SkipSpaceIs(s, 0, 0);
    assert s[i] == ds[0];
    assert |ds| >= 2 ==> ds[0] != '0';
    forall k | i <= k < |s|
      ensures DigitValue(s[k]) < 10
    {
      assert s[k] == ds[k - i];
    }
    ParseDigitsToEnd(s, i, 10);
    DigitsValueOfNatToString(m);
  }

  /** Base-16 digits after a `0x` prefix are read in base 16. */
  lemma ParseIntHexDigits(d: string)
    requires |d| > 0 && AllHexDigits(d)
    ensures ParseInt("0x" + d) == Some(DigitsValue(d, 16) as int)
  {
    var s := "0x" + d;
    assert s[0] == '0' && s[1] == 'x';
    assert s[2..] == d;
    SkipSpaceIs(s, 0, 0);
    forall k | 2 <= k < |s|
      ensures DigitValue(s[k]) < 16
    {
      assert s[k] == d[k - 2];
    }
    ParseDigitsToEnd(s, 2, 16);
    assert ParseUnsigned(s, 0) == ParseDigits(s, 2, 16);
  }

  /** A run of decimal digits reads as its decimal value. */
  lemma ParseIntDecimalDigits(d: string)
    requires |d| > 0 && AllDigits(d)
    ensures ParseInt(d) == Some(DigitsValue(d, 10) as int)
  {
    SkipSpaceIs(d, 0, 0);
    assert |d| >= 2 ==> IsDigit(d[1]);
    forall k | 0 <= k < |d|
      ensures DigitValue(d[k]) < 10
    {
      assert IsDigit(d[k]);
    }
    ParseDigitsToEnd(d, 0, 10);
    assert d[0..] == d;
  }

  /** A second `0x` prefix stops the digits after the first `0`. */
  lemma ParseIntDoubledHexPrefix(rest: string)
    ensures ParseInt("0x" + ("0x" + rest)) == Some(0)
  {
    var s := "0x" + ("0x" + rest);
    assert s[0] == '0' && s[1] == 'x' && s[2] == '0' && s[3] == 'x';
    SkipSpaceIs(s, 0, 0);
    SkipRadixDigitsIs(s, 2, 16, 3);
    assert s[2..3] == "0";
    assert "0"[..0] == "";
  }

  /** A lone `0x` prefix, or nothing at all, is `NaN`. */
  lemma ParseIntNoDigits()
    ensures ParseInt("0x") == None
    ensures ParseInt("") == None
  {
    SkipSpaceIs("0x", 0, 0);
    assert SkipRadixDigits("0x", 2, 16) == 2;
  }
}
