/**
 * The slice of Rust's `str` API the model relies on: Unicode `trim`,
 * `lines`, `split` on a character, `join`, and prefix/suffix stripping.
 * Strings are sequences of Unicode scalar values, as Rust's `char`s are.
 */
module Text {
  import opened Wrappers

  /** Unicode White_Space: the characters `char::is_whitespace` and `str::trim` accept. */
  predicate IsWhitespace(c: char) {
    || ('\t' <= c <= '\r')
    || c == ' '
    || c == '\U{85}'
    || c == '\U{A0}'
    || c == '\U{1680}'
    || ('\U{2000}' <= c <= '\U{200A}')
    || c == '\U{2028}'
    || c == '\U{2029}'
    || c == '\U{202F}'
    || c == '\U{205F}'
    || c == '\U{3000}'
  }

  /** Every character is white space (so `s.trim().is_empty()`). */
  predicate IsBlank(s: string) {
    forall i :: 0 <= i < |s| ==> IsWhitespace(s[i])
  }

  lemma {:induction false} BlankByMembership(s: string)
    ensures IsBlank(s) <==> forall c :: c in s ==> IsWhitespace(c)
  {
    if IsBlank(s) {
      forall c | c in s ensures IsWhitespace(c) {
        var i :| 0 <= i < |s| && s[i] == c;
      }
    }
  }

  lemma {:induction false} BlankConcat(a: string, b: string)
    ensures IsBlank(a + b) <==> IsBlank(a) && IsBlank(b)
  {
    if IsBlank(a + b) {
      forall i | 0 <= i < |a| ensures IsWhitespace(a[i]) {
        assert (a + b)[i] == a[i];
      }
      forall i | 0 <= i < |b| ensures IsWhitespace(b[i]) {
        assert (a + b)[|a| + i] == b[i];
      }
    }
    if IsBlank(a) && IsBlank(b) {
      forall i | 0 <= i < |a + b| ensures IsWhitespace((a + b)[i]) {
        if i < |a| {
          assert (a + b)[i] == a[i];
        } else {
          assert (a + b)[i] == b[i - |a|];
        }
      }
    }
  }

  /** Where the run of white space starting at `i` ends. */
  function LeadingEnd(s: string, i: nat): (k: nat)
    requires i <= |s|
    ensures i <= k <= |s|
    decreases |s| - i
  {
    if i < |s| && IsWhitespace(s[i]) then LeadingEnd(s, i + 1) else i
  }

  /** The run found is all white space and cannot be extended. */
  lemma {:induction false} LeadingEndSpec(s: string, i: nat)
    requires i <= |s|
    ensures forall j :: i <= j < LeadingEnd(s, i) ==> IsWhitespace(s[j])
    ensures LeadingEnd(s, i) == |s| || !IsWhitespace(s[LeadingEnd(s, i)])
    decreases |s| - i
  {
    if i < |s| && IsWhitespace(s[i]) {
      LeadingEndSpec(s, i + 1);
    }
  }

  /** Where the run of white space ending just before `n` starts. */
  function TrailingStart(s: string, n: nat): (k: nat)
    requires n <= |s|
    ensures k <= n
    decreases n
  {
    if n > 0 && IsWhitespace(s[n - 1]) then TrailingStart(s, n - 1) else n
  }

  /** The run found is all white space and cannot be extended. */
  lemma {:induction false} TrailingStartSpec(s: string, n: nat)
    requires n <= |s|
    ensures forall j :: TrailingStart(s, n) <= j < n ==> IsWhitespace(s[j])
    ensures TrailingStart(s, n) == 0 || !IsWhitespace(s[TrailingStart(s, n) - 1])
    decreases n
  {
    if n > 0 && IsWhitespace(s[n - 1]) {
      TrailingStartSpec(s, n - 1);
    }
  }

  /** `str::trim_start`: drops leading white space. */
  function TrimStart(s: string): string {
    s[LeadingEnd(s, 0)..]
  }

  /** `str::trim_end`: drops trailing white space. */
  function TrimEnd(s: string): string {
    s[..TrailingStart(s, |s|)]
  }

  /** `trim_start` keeps the longest suffix that does not start with white space. */
  lemma {:induction false} TrimStartSpec(s: string)
    ensures |TrimStart(s)| <= |s| && TrimStart(s) == s[|s| - |TrimStart(s)|..]
    ensures IsBlank(s[..|s| - |TrimStart(s)|])
    ensures TrimStart(s) == [] || !IsWhitespace(TrimStart(s)[0])
  {
    var k := LeadingEnd(s, 0);
    LeadingEndSpec(s, 0);
    assert |s| - |TrimStart(s)| == k;
    forall j | 0 <= j < k
      ensures IsWhitespace(s[..k][j])
    {
      assert s[..k][j] == s[j];
    }
  }

  /** `trim_end` keeps the longest prefix that does not end with white space. */
  lemma {:induction false} TrimEndSpec(s: string)
    ensures |TrimEnd(s)| <= |s| && TrimEnd(s) == s[..|TrimEnd(s)|]
    ensures IsBlank(s[|TrimEnd(s)|..])
    ensures TrimEnd(s) == [] || !IsWhitespace(TrimEnd(s)[|TrimEnd(s)| - 1])
  {
    var k := TrailingStart(s, |s|);
    TrailingStartSpec(s, |s|);
    assert |TrimEnd(s)| == k;
    forall j | 0 <= j < |s| - k
      ensures IsWhitespace(s[k..][j])
    {
      assert s[k..][j] == s[k + j];
    }
  }

  /** `str::trim`. */
  function Trim(s: string): string {
    TrimEnd(TrimStart(s))
  }

  lemma {:induction false} TrimStartOfBlank(s: string)
    requires IsBlank(s)
    ensures TrimStart(s) == []
  {
    LeadingEndSpec(s, 0);
  }

  lemma {:induction false} TrimEmptyIsBlank(s: string)
    requires Trim(s) == []
    ensures IsBlank(s)
  {
    var k := LeadingEnd(s, 0);
    var a := s[k..];
    assert TrimStart(s) == a;
    assert TrailingStart(a, |a|) == 0;
    forall j | 0 <= j < |s|
      ensures IsWhitespace(s[j])
    {
      if j < k {
        LeadingEndSpec(s, 0);
      } else {
        TrailingStartSpec(a, |a|);
        assert a[j - k] == s[j];
      }
    }
  }

  /** Text that neither starts nor ends with white space is its own trim. */
  lemma {:induction false} TrimUnchanged(s: string)
    requires |s| > 0 && !IsWhitespace(s[0]) && !IsWhitespace(s[|s| - 1])
    ensures Trim(s) == s
  {
    assert LeadingEnd(s, 0) == 0;
    assert TrimStart(s) == s;
    assert TrailingStart(s, |s|) == |s|;
  }

  /** `s.trim().is_empty()` holds exactly for the blank strings. */
  lemma {:induction false} TrimEmptyIffBlank(s: string)
    ensures Trim(s) == [] <==> IsBlank(s)
  {
    if IsBlank(s) {
      TrimStartOfBlank(s);
    }
    if Trim(s) == [] {
      TrimEmptyIsBlank(s);
    }
  }

  /** Position of the first `c` in `s`, or `|s|` when there is none. */
  function IndexOf(s: string, c: char): (i: nat)
    ensures i <= |s|
    ensures forall j :: 0 <= j < i ==> s[j] != c
    ensures i < |s| ==> s[i] == c
  {
    if |s| == 0 then 0
    else if s[0] == c then 0
    else 1 + IndexOf(s[1..], c)
  }

  /** Position of the last `c` in `s` (Rust's `rfind`). */
  function LastIndexOf(s: string, c: char): (r: Option<nat>)
    ensures r.None? <==> c !in s
    ensures r.Some? ==> r.value < |s| && s[r.value] == c && c !in s[r.value + 1..]
  {
    if |s| == 0 then None
    else if s[|s| - 1] == c then Some(|s| - 1)
    else
      var r := LastIndexOf(s[..|s| - 1], c);
      assert s == s[..|s| - 1] + [s[|s| - 1]];
      if r.Some? then
        assert s[r.value + 1..] == s[..|s| - 1][r.value + 1..] + [s[|s| - 1]];
        r
      else
        r
  }

  /** The last `c` of `a + b` is the last character of `a` when `b` holds no `c`. */
  lemma {:induction false} LastIndexOfAfter(a: string, b: string, c: char)
    requires |a| > 0 && a[|a| - 1] == c && c !in b
    ensures LastIndexOf(a + b, c) == Some(|a| - 1)
    decreases |b|
  {
    if |b| > 0 {
      var b' := b[..|b| - 1];
      assert (a + b)[..|a + b| - 1] == a + b';
      assert (a + b)[|a + b| - 1] == b[|b| - 1];
      LastIndexOfAfter(a, b', c);
    } else {
      assert a + b == a;
    }
  }

  /** `str::split(sep)`: the pieces between separators; always at least one. */
  function Split(s: string, sep: char): (parts: seq<string>)
    ensures |parts| >= 1
    decreases |s|
  {
    var i := IndexOf(s, sep);
    if i == |s| then [s] else [s[..i]] + Split(s[i + 1..], sep)
  }

  /** No part of a split holds the separator. */
  lemma {:induction false} SplitPartFree(s: string, sep: char, k: nat)
    requires k < |Split(s, sep)|
    ensures sep !in Split(s, sep)[k]
    decreases |s|
  {
    var i := IndexOf(s, sep);
    if i < |s| && k > 0 {
      SplitPartFree(s[i + 1..], sep, k - 1);
    }
  }

  lemma {:induction false} SplitPartsFree(s: string, sep: char)
    ensures forall k :: 0 <= k < |Split(s, sep)| ==> sep !in Split(s, sep)[k]
  {
    forall k | 0 <= k < |Split(s, sep)|
      ensures sep !in Split(s, sep)[k]
    {
      SplitPartFree(s, sep, k);
    }
  }

  /** `[String]::join(sep)` for a one-character separator. */
  function JoinWith(parts: seq<string>, sep: char): string
    decreases |parts|
  {
    if |parts| == 0 then ""
    else if |parts| == 1 then parts[0]
    else parts[0] + [sep] + JoinWith(parts[1..], sep)
  }

  /** A split at a separator: the piece before it, then the split of the rest. */
  lemma {:induction false} SplitAtSeparator(s: string, sep: char)
    requires IndexOf(s, sep) < |s|
    ensures Split(s, sep) == [s[..IndexOf(s, sep)]] + Split(s[IndexOf(s, sep) + 1..], sep)
  {
  }

  /** Joining a piece in front of at least one more. */
  lemma {:induction false} JoinCons(p: string, rest: seq<string>, sep: char)
    requires |rest| >= 1
    ensures JoinWith([p] + rest, sep) == p + [sep] + JoinWith(rest, sep)
  {
    assert ([p] + rest)[1..] == rest;
  }

  /** Joining the pieces of a split gives back the string. */
  lemma {:induction false} SplitJoinRoundTrip(s: string, sep: char)
    ensures JoinWith(Split(s, sep), sep) == s
    decreases |s|
  {
    var i := IndexOf(s, sep);
    if i < |s| {
      var tail := s[i + 1..];
      SplitAtSeparator(s, sep);
      JoinCons(s[..i], Split(tail, sep), sep);
      SplitJoinRoundTrip(tail, sep);
      assert s == s[..i] + [sep] + tail;
    }
  }

  /** Splitting a join of separator-free pieces gives back the pieces. */
  lemma {:induction false} JoinSplitRoundTrip(parts: seq<string>, sep: char)
    requires |parts| >= 1
    requires forall k :: 0 <= k < |parts| ==> sep !in parts[k]
    ensures Split(JoinWith(parts, sep), sep) == parts
    decreases |parts|
  {
    var s := JoinWith(parts, sep);
    var i := IndexOf(s, sep);
    if |parts| == 1 {
      assert i == |s|;
    } else {
      var rest := JoinWith(parts[1..], sep);
      assert s == parts[0] + [sep] + rest;
      assert s[|parts[0]|] == sep;
      assert i == |parts[0]|;
      assert s[..i] == parts[0];
      assert s[i + 1..] == rest;
      JoinSplitRoundTrip(parts[1..], sep);
    }
  }

  /** Drops one trailing carriage return, as `lines` does before a line feed. */
  function StripCr(line: string): string {
    if |line| > 0 && line[|line| - 1] == '\r' then line[..|line| - 1] else line
  }

  /**
   * `str::lines`: pieces ending at `\n`, each with a `\r` right before the
   * `\n` removed; a trailing `\n` does not start an empty final line, and a
   * final piece without `\n` is kept as it is.
   */
  function Lines(s: string): (ls: seq<string>)
    ensures |ls| == 0 <==> |s| == 0
    decreases |s|
  {
    if |s| == 0 then []
    else
      var i := IndexOf(s, '\n');
      if i == |s| then [s]
      else [StripCr(s[..i])] + Lines(s[i + 1..])
  }

  /** No line holds a line feed. */
  lemma {:induction false} LinesHaveNoNewline(s: string, k: nat)
    requires k < |Lines(s)|
    ensures '\n' !in Lines(s)[k]
    decreases |s|
  {
    var i := IndexOf(s, '\n');
    if i < |s| && k > 0 {
      LinesHaveNoNewline(s[i + 1..], k - 1);
    } else if i < |s| {
      StripCrChars(s[..i], '\n');
    }
  }

  /** `s` without its final line feed, if it has one. */
  function DropFinalNewline(s: string): string {
    if |s| > 0 && s[|s| - 1] == '\n' then s[..|s| - 1] else s
  }

  lemma {:induction false} DropFinalNewlineAppend(x: string, y: string)
    requires |y| > 0
    ensures DropFinalNewline(x + y) == x + DropFinalNewline(y)
  {
    assert (x + y)[|x + y| - 1] == y[|y| - 1];
    if y[|y| - 1] == '\n' {
      assert (x + y)[..|x + y| - 1] == x + y[..|y| - 1];
    }
  }

  /** A line feed ends the first line; the rest of the text gives the other lines. */
  lemma {:induction false} LinesAtNewline(s: string)
    requires IndexOf(s, '\n') < |s|
    ensures Lines(s) == [StripCr(s[..IndexOf(s, '\n')])] + Lines(s[IndexOf(s, '\n') + 1..])
  {
  }

  /** The first line followed by the rest, rejoined. */
  lemma {:induction false} LinesJoinAtNewline(s: string)
    requires IndexOf(s, '\n') < |s|
    ensures var i := IndexOf(s, '\n');
      s == s[..i] + "\n" + s[i + 1..]
      && JoinWith(Lines(s), '\n')
         == if |s[i + 1..]| == 0 then StripCr(s[..i])
            else StripCr(s[..i]) + "\n" + JoinWith(Lines(s[i + 1..]), '\n')
  {
    var i := IndexOf(s, '\n');
    LinesAtNewline(s);
    if |s[i + 1..]| > 0 {
      JoinCons(StripCr(s[..i]), Lines(s[i + 1..]), '\n');
    }
  }

  /** Stripping a carriage return loses at most that character. */
  lemma {:induction false} StripCrChars(h: string, c: char)
    ensures c in StripCr(h) ==> c in h
    ensures c in h ==> c in StripCr(h) || c == '\r'
  {
    if |h| > 0 && h[|h| - 1] == '\r' {
      assert h == StripCr(h) + "\r";
    }
  }

  /** For text without carriage returns, joining the lines with `\n` loses only a final line feed. */
  lemma {:induction false} LinesJoinRoundTrip(s: string)
    requires '\r' !in s
    ensures JoinWith(Lines(s), '\n') == DropFinalNewline(s)
    decreases |s|
  {
    if |s| > 0 {
      var i := IndexOf(s, '\n');
      if i < |s| {
        var head := s[..i];
        var rest := s[i + 1..];
        LinesJoinAtNewline(s);
        StripCrChars(head, '\r');
        assert StripCr(head) == head;
        LinesJoinRoundTrip(rest);
        if |rest| > 0 {
          DropFinalNewlineAppend(head + "\n", rest);
        }
      }
    }
  }

  /** A character of the rejoined lines occurs in the text. */
  lemma {:induction false} LinesJoinCharFrom(s: string, c: char)
    requires c in JoinWith(Lines(s), '\n')
    ensures c in s
    decreases |s|
  {
    var i := IndexOf(s, '\n');
    if i < |s| {
      var rest := s[i + 1..];
      LinesJoinAtNewline(s);
      StripCrChars(s[..i], c);
      if |rest| > 0 && c in JoinWith(Lines(rest), '\n') {
        LinesJoinCharFrom(rest, c);
      }
    }
  }

  /** A character of the text other than a line feed or carriage return survives the rejoining. */
  lemma {:induction false} LinesJoinCharTo(s: string, c: char)
    requires c in s && c != '\n' && c != '\r'
    ensures c in JoinWith(Lines(s), '\n')
    decreases |s|
  {
    var i := IndexOf(s, '\n');
    if i < |s| {
      var rest := s[i + 1..];
      LinesJoinAtNewline(s);
      StripCrChars(s[..i], c);
      if c !in s[..i] {
        LinesJoinCharTo(rest, c);
      }
    }
  }

  /** Every character of the joined lines occurs in the text. */
  lemma {:induction false} LinesJoinChars(s: string)
    ensures forall c :: c in JoinWith(Lines(s), '\n') ==> c in s
    ensures forall c :: c in s ==> c in JoinWith(Lines(s), '\n') || c == '\n' || c == '\r'
  {
    forall c | c in JoinWith(Lines(s), '\n')
      ensures c in s
    {
      LinesJoinCharFrom(s, c);
    }
    forall c | c in s && c != '\n' && c != '\r'
      ensures c in JoinWith(Lines(s), '\n')
    {
      LinesJoinCharTo(s, c);
    }
  }

  /** The text is blank exactly when its lines, rejoined, are blank. */
  lemma {:induction false} LinesPreserveBlank(s: string)
    ensures IsBlank(JoinWith(Lines(s), '\n')) <==> IsBlank(s)
  {
    LinesJoinChars(s);
    BlankByMembership(s);
    BlankByMembership(JoinWith(Lines(s), '\n'));
  }

  /** `str::strip_prefix`. */
  function StripPrefix(s: string, prefix: string): (r: Option<string>)
    ensures r.Some? <==> prefix <= s
    ensures r.Some? ==> s == prefix + r.value
  {
    if prefix <= s then Some(s[|prefix|..]) else None
  }

  /** `str::strip_suffix`. */
  function StripSuffix(s: string, suffix: string): (r: Option<string>)
    ensures r.Some? <==> |suffix| <= |s| && s[|s| - |suffix|..] == suffix
    ensures r.Some? ==> s == r.value + suffix
  {
    if |suffix| <= |s| && s[|s| - |suffix|..] == suffix then Some(s[..|s| - |suffix|]) else None
  }

  /** `str::ends_with`. */
  predicate EndsWith(s: string, suffix: string) {
    |suffix| <= |s| && s[|s| - |suffix|..] == suffix
  }
}
