/** Character classes, trimming and line splitting as Rust's `str` and the
    `regex` crate define them, over Dafny strings (sequences of Unicode
    scalar values). */
module Text {

  /** Unicode White_Space: what `char::is_whitespace`, `str::trim` and the
      regex class `\s` (in Unicode mode) all accept. */
  predicate IsWhitespace(c: char) {
    var n := c as int;
    || (0x09 <= n <= 0x0D)
    || n == 0x20
    || n == 0x85
    || n == 0xA0
    || n == 0x1680
    || (0x2000 <= n <= 0x200A)
    || n == 0x2028
    || n == 0x2029
    || n == 0x202F
    || n == 0x205F
    || n == 0x3000
  }

  predicate AllWhitespace(s: string) {
    forall i :: 0 <= i < |s| ==> IsWhitespace(s[i])
  }

  predicate IsAsciiDigit(c: char) {
    '0' <= c <= '9'
  }

  predicate AllDigits(s: string) {
    forall i :: 0 <= i < |s| ==> IsAsciiDigit(s[i])
  }

  predicate StartsWith(s: string, prefix: string) {
    |prefix| <= |s| && s[..|prefix|] == prefix
  }

  /** Length of the longest whitespace prefix of `s`. */
  function LeadingWhitespace(s: string): (n: nat)
    ensures n <= |s|
    ensures AllWhitespace(s[..n])
    ensures n == |s| || !IsWhitespace(s[n])
  {
    if s == [] || !IsWhitespace(s[0]) then 0 else 1 + LeadingWhitespace(s[1..])
  }

  /** Whitespace followed by whitespace is whitespace. */
  lemma AllWhitespaceSnoc(s: string, c: char)
    requires AllWhitespace(s) && IsWhitespace(c)
    ensures AllWhitespace(s + [c])
  {
  }

  /** Length of the longest whitespace suffix of `s`. */
  function TrailingWhitespace(s: string): (n: nat)
    ensures n <= |s|
    ensures AllWhitespace(s[|s| - n..])
    ensures n == |s| || !IsWhitespace(s[|s| - n - 1])
  {
    if s == [] || !IsWhitespace(s[|s| - 1]) then 0
    else
      var n := TrailingWhitespace(s[..|s| - 1]);
      SliceOfFront(s, |s| - 1 - n);
      AllWhitespaceSnoc(s[..|s| - 1][|s| - 1 - n..], s[|s| - 1]);
      1 + n
  }

  /** Length of the longest ASCII-digit prefix of `s`: what a greedy `\d+`
      consumes. */
  function LeadingDigits(s: string): (n: nat)
    ensures n <= |s|
    ensures AllDigits(s[..n])
    ensures n == |s| || !IsAsciiDigit(s[n])
  {
    if s == [] || !IsAsciiDigit(s[0]) then 0 else 1 + LeadingDigits(s[1..])
  }

  /** `str::trim_start`: `s` without its leading whitespace. */
  function TrimStart(s: string): (r: string)
    ensures |r| <= |s| && r == s[|s| - |r|..]
    ensures AllWhitespace(s[..|s| - |r|])
    ensures r == [] || !IsWhitespace(r[0])
  {
    s[LeadingWhitespace(s)..]
  }

  /** `str::trim_end`: `s` without its trailing whitespace. */
  function TrimEnd(s: string): (r: string)
    ensures |r| <= |s| && r == s[..|r|]
    ensures AllWhitespace(s[|r|..])
    ensures r == [] || !IsWhitespace(r[|r| - 1])
  {
    s[..|s| - TrailingWhitespace(s)]
  }

  /** `str::trim`: both ends stripped of whitespace. */
  function Trim(s: string): (r: string)
    ensures |r| <= |s|
    ensures r == [] <==> AllWhitespace(s)
    ensures r != [] ==> !IsWhitespace(r[0]) && !IsWhitespace(r[|r| - 1])
  {
    var t := TrimStart(s);
    var r := TrimEnd(t);
    assert r != [] ==> r[0] == t[0];
    assert r == [] ==> s == s[..|s| - |t|] + t && AllWhitespace(t);
    r
  }

  /** Trimming a string that already has no whitespace at its ends changes
      nothing, so `Trim` is idempotent. */
  lemma TrimOfTrimmed(s: string)
    requires s == [] || (!IsWhitespace(s[0]) && !IsWhitespace(s[|s| - 1]))
    ensures Trim(s) == s
  {
    assert LeadingWhitespace(s) == 0;
    assert TrailingWhitespace(s) == 0;
  }

  lemma TrimIdempotent(s: string)
    ensures Trim(Trim(s)) == Trim(s)
  {
    TrimOfTrimmed(Trim(s));
  }

  /** `Trim` removes exactly the whitespace padding around a core that
      begins and ends with a non-whitespace character. */
  lemma {:induction false} TrimOfPadded(front: string, core: string, back: string)
    requires AllWhitespace(front) && AllWhitespace(back)
    requires core != [] && !IsWhitespace(core[0]) && !IsWhitespace(core[|core| - 1])
    ensures Trim(front + core + back) == core
  {
    var s := front + core + back;
    LeadingWhitespaceOfPadded(front, core + back);
    assert front + (core + back) == s;
    assert TrimStart(s) == core + back;
    TrailingWhitespaceOfPadded(core, back);
  }

  lemma {:induction false} LeadingWhitespaceOfPadded(front: string, rest: string)
    requires AllWhitespace(front)
    requires rest != [] && !IsWhitespace(rest[0])
    ensures LeadingWhitespace(front + rest) == |front|
    decreases |front|
  {
    if front != [] {
      TailOfAppend(front, rest);
      assert IsWhitespace(front[0]);
      LeadingWhitespaceOfPadded(front[1..], rest);
    } else {
      assert front + rest == rest;
    }
  }


  lemma {:induction false} TrailingWhitespaceOfPadded(core: string, back: string)
    requires AllWhitespace(back)
    requires core != [] && !IsWhitespace(core[|core| - 1])
    ensures TrailingWhitespace(core + back) == |back|
    decreases |back|
  {
    if back != [] {
      var s := core + back;
      assert s[..|s| - 1] == core + back[..|back| - 1];
      TrailingWhitespaceOfPadded(core, back[..|back| - 1]);
    } else {
      assert core + back == core;
    }
  }

  // ---------------------------------------------------------------------
  // str::lines

  /** Index of the first '\n' in `s`, or `|s|` when there is none. */
  function IndexOfNewline(s: string): (i: nat)
    ensures i <= |s|
    ensures '\n' !in s[..i]
    ensures i < |s| ==> s[i] == '\n'
  {
    if s == [] then 0
    else if s[0] == '\n' then 0
    else
      var j := IndexOfNewline(s[1..]);
      assert s[..j + 1] == [s[0]] + s[1..][..j];
      j + 1
  }

  /** Removes one trailing carriage return, if there is one. */
  function StripCr(piece: string): string {
    if piece != [] && piece[|piece| - 1] == '\r' then piece[..|piece| - 1] else piece
  }
  /** A line as `lines()` yields it from "\n"-terminated text: no line feed,
      and no carriage return at the end (that one would be stripped). */
  predicate IsLine(s: string) {
    '\n' !in s && (s == [] || s[|s| - 1] != '\r')
  }


  /** `str::lines`: the text is cut after every '\n'; each piece loses its
      '\n' and then one '\r' before it.  A final piece without '\n' is a line
      of its own (kept verbatim), and a text ending in '\n' has no empty last
      line. */
  function Lines(text: string): (r: seq<string>)
    ensures forall i :: 0 <= i < |r| ==> '\n' !in r[i]
    ensures text == [] <==> r == []
    decreases |text|
  {
    if text == [] then []
    else
      var i := IndexOfNewline(text);
      if i == |text| then [text]
      else [StripCr(text[..i])] + Lines(text[i + 1..])
  }

  /** Lines written back with a terminator after each one. */
  function JoinLines(lines: seq<string>, terminator: string): string {
    if lines == [] then [] else lines[0] + terminator + JoinLines(lines[1..], terminator)
  }

  lemma {:induction false} IndexOfNewlineAfterLine(line: string, rest: string)
    requires '\n' !in line
    requires rest != [] && rest[0] == '\n'
    ensures IndexOfNewline(line + rest) == |line|
    decreases |line|
  {
    if line == [] {
      assert line + rest == rest;
    } else {
      assert (line + rest)[1..] == line[1..] + rest;
      IndexOfNewlineAfterLine(line[1..], rest);
    }
  }

  /** One step of `Lines`: the text up to the first '\n' is the first line. */
  lemma LinesOfLineThen(line: string, tail: string)
    requires '\n' !in line
    ensures Lines(line + "\n" + tail) == [StripCr(line)] + Lines(tail)
  {
    var text := line + "\n" + tail;
    assert text == line + ("\n" + tail);
    IndexOfNewlineAfterLine(line, "\n" + tail);
    assert text[..|line|] == line;
    assert text[|line| + 1..] == tail;
  }

  /** Splitting text written as "line\n" per line gives the lines back,
      followed by a final unterminated line when there is one. */
  lemma {:induction false} LinesOfJoinedLf(lines: seq<string>, last: string)
    requires forall i :: 0 <= i < |lines| ==> IsLine(lines[i])
    requires '\n' !in last
    ensures Lines(JoinLines(lines, "\n") + last) == lines + (if last == [] then [] else [last])
    decreases |lines|
  {
    if lines == [] {
      assert JoinLines(lines, "\n") + last == last;
      if last != [] {
        assert IndexOfNewline(last) == |last|;
      }
    } else {
      var l, rest := lines[0], lines[1..];
      var lastLine := if last == [] then [] else [last];
      var tail := JoinLines(rest, "\n") + last;
      LinesOfJoinedLfStep(l, rest, last);
      assert IsLine(l);
      assert forall i :: 0 <= i < |rest| ==> rest[i] == lines[i + 1];
      LinesOfJoinedLf(rest, last);
      AppendAssoc([l], rest, lastLine);
      assert lines == [l] + rest;
    }
  }

  /** One step of the join: the first line comes back, unchanged when it
      does not end in a carriage return. */
  lemma LinesOfJoinedLfStep(l: string, rest: seq<string>, last: string)
    requires IsLine(l)
    ensures Lines(JoinLines([l] + rest, "\n") + last) == [l] + Lines(JoinLines(rest, "\n") + last)
  {
    var j := JoinLines(rest, "\n");
    assert ([l] + rest)[1..] == rest;
    AppendAssoc(l + "\n", j, last);
    LinesOfLineThen(l, j + last);
  }


  /** Splitting text written as "line\n" per line gives every line back. */
  lemma LinesOfJoinedLfLines(lines: seq<string>)
    requires forall i :: 0 <= i < |lines| ==> IsLine(lines[i])
    ensures Lines(JoinLines(lines, "\n")) == lines
  {
    LinesOfJoinedLf(lines, []);
    assert JoinLines(lines, "\n") + [] == JoinLines(lines, "\n");
    assert lines + [] == lines;
  }

  /** Splitting text written as "line\r\n" per line gives every line back,
      even one that itself ends in '\r'. */
  lemma {:induction false} LinesOfJoinedCrLf(lines: seq<string>)
    requires forall i :: 0 <= i < |lines| ==> '\n' !in lines[i]
    ensures Lines(JoinLines(lines, "\r\n")) == lines
    decreases |lines|
  {
    if lines != [] {
      var l := lines[0];
      var tail := JoinLines(lines[1..], "\r\n");
      assert JoinLines(lines, "\r\n") == (l + "\r") + "\n" + tail;
      assert '\n' !in l + "\r";
      LinesOfLineThen(l + "\r", tail);
      assert StripCr(l + "\r") == l;
      LinesOfJoinedCrLf(lines[1..]);
      assert lines == [l] + lines[1..];
    }
  }

  /** A prefix stays a prefix when the same text is put in front of both. */
  lemma StartsWithPrepend(a: string, b: string, u: string)
    requires StartsWith(b, u)
    ensures StartsWith(a + b, a + u)
  {
    assert (a + b)[..|a + u|] == a + b[..|u|];
  }

  /** The head and tail of a concatenation with a non-empty left side. */
  lemma TailOfAppend<T>(a: seq<T>, b: seq<T>)
    requires a != []
    ensures (a + b)[0] == a[0] && (a + b)[1..] == a[1..] + b
  {
  }

  /** A non-empty sequence is its front followed by its last element. */
  lemma SplitLast<T>(s: seq<T>)
    requires s != []
    ensures s == s[..|s| - 1] + [s[|s| - 1]]
  {
  }

  lemma AppendAssoc<T>(a: seq<T>, b: seq<T>, c: seq<T>)
    ensures (a + b) + c == a + (b + c)
  {
  }

  /** A suffix of the front of `s`, followed by the last element of `s`. */
  lemma SliceOfFront<T>(s: seq<T>, k: nat)
    requires k < |s|
    ensures s[..|s| - 1][k..] + [s[|s| - 1]] == s[k..]
  {
  }

  /** Each side of a concatenation is a slice of it. */
  lemma SidesOfAppend<T>(a: seq<T>, b: seq<T>)
    ensures (a + b)[..|a|] == a && (a + b)[|a|..] == b
  {
  }
}
