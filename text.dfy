/** The JavaScript string operations the typewriter relies on, on Dafny strings.
    A JavaScript string is a sequence of UTF-16 code units; here a string is a
    `seq<char>` and every character the typewriter handles is a single unit. */
module Text {

  /** Number of line breaks in `s`. */
  function NewlineCount(s: string): nat
  {
    multiset(s)['\n']
  }

  /** Line breaks add up over a concatenation. */
  lemma NewlineCountAppend(a: string, b: string)
    ensures NewlineCount(a + b) == NewlineCount(a) + NewlineCount(b)
  {
    assert multiset(a + b) == multiset(a) + multiset(b);
  }

  /** Text without a line break counts none. */
  lemma NewlineCountNone(b: string)
    requires '\n' !in b
    ensures NewlineCount(b) == 0
  {
  }

  /** `s.endsWith(suffix)`. */
  predicate EndsWith(s: string, suffix: string)
  {
    |suffix| <= |s| && s[|s| - |suffix|..] == suffix
  }

  /** `s[i] === c`: reading past either end gives `undefined`, which equals no character. */
  predicate CharAtIs(s: string, i: int, c: char)
  {
    0 <= i < |s| && s[i] == c
  }

  /** `s.lastIndexOf(c)` for a one-character search string: the position of the
      last `c`, or -1 when there is none. */
  function LastIndexOf(s: string, c: char): (r: int)
    ensures -1 <= r < |s|
    ensures r == -1 ==> forall j :: 0 <= j < |s| ==> s[j] != c
    ensures r >= 0 ==> s[r] == c && forall j :: r < j < |s| ==> s[j] != c
  {
    if |s| == 0 then -1
    else if s[|s| - 1] == c then |s| - 1
    else LastIndexOf(s[..|s| - 1], c)
  }

  /** `s.split("\n")`: the pieces between line breaks, in order; there is always
      one more piece than there are line breaks, and no piece holds one. */
  function Split(s: string): (parts: seq<string>)
    ensures |parts| == NewlineCount(s) + 1
    ensures forall k :: 0 <= k < |parts| ==> '\n' !in parts[k]
    decreases |s|
  {
    if |s| == 0 then [""]
    else
      var init := Split(s[..|s| - 1]);
      var last := s[|s| - 1];
      assert s == s[..|s| - 1] + [last];
      if last == '\n' then init + [""]
      else init[..|init| - 1] + [init[|init| - 1] + [last]]
  }

  /** `parts.join("\n")`. */
  function JoinLines(parts: seq<string>): string
  {
    if |parts| == 0 then ""
    else if |parts| == 1 then parts[0]
    else JoinLines(parts[..|parts| - 1]) + "\n" + parts[|parts| - 1]
  }

  /** Joining after an extra empty piece adds one line break. */
  lemma JoinLinesNewPiece(parts: seq<string>)
    requires |parts| >= 1
    ensures JoinLines(parts + [""]) == JoinLines(parts) + "\n"
  {
    var p := parts + [""];
    assert p[..|p| - 1] == parts;
  }

  /** Joining after extending the last piece extends the result. */
  lemma JoinLinesExtendLast(parts: seq<string>, x: string)
    requires |parts| >= 1
    ensures JoinLines(parts[..|parts| - 1] + [parts[|parts| - 1] + x]) == JoinLines(parts) + x
  {
    var init := parts[..|parts| - 1];
    var last := parts[|parts| - 1];
    var p := init + [last + x];
    if |parts| > 1 {
      assert p[..|p| - 1] == init;
      assert p[|p| - 1] == last + x;
      var front := JoinLines(init) + "\n";
      assert JoinLines(p) == front + (last + x);
      assert JoinLines(parts) == front + last;
      ConcatAssoc(front, last, x);
    } else {
      assert p == [last + x];
      assert JoinLines(p) == last + x;
      assert parts == [last];
    }
  }

  lemma ConcatAssoc(a: string, b: string, c: string)
    ensures a + (b + c) == (a + b) + c
  {
  }

  /** Splitting at line breaks and joining again gives back the string. */
  lemma {:induction false} SplitJoin(s: string)
    ensures JoinLines(Split(s)) == s
    decreases |s|
  {
    if |s| > 0 {
      var init := s[..|s| - 1];
      var c := s[|s| - 1];
      assert s == init + [c];
      SplitJoin(init);
      if c == '\n' {
        JoinLinesNewPiece(Split(init));
      } else {
        JoinLinesExtendLast(Split(init), [c]);
      }
    }
  }

  /** The text after the last line break of `s` (all of `s` when it has none). */
  function TailLine(s: string): (t: string)
    ensures |t| <= |s|
  {
    if |s| == 0 || s[|s| - 1] == '\n' then ""
    else TailLine(s[..|s| - 1]) + [s[|s| - 1]]
  }

  /** The tail line is a suffix of `s` without line breaks, preceded by a line
      break unless it is all of `s`. */
  lemma {:induction false} TailLineSuffix(s: string)
    ensures var t := TailLine(s);
            && t == s[|s| - |t|..]
            && (|t| < |s| ==> s[|s| - |t| - 1] == '\n')
            && '\n' !in t
    decreases |s|
  {
    if |s| > 0 && s[|s| - 1] != '\n' {
      var s' := s[..|s| - 1];
      TailLineSuffix(s');
      var t' := TailLine(s');
      var last := s[|s| - 1];
      assert s == s' + [last];
      assert TailLine(s) == t' + [last];
      var k := |s'| - |t'|;
      assert s[k..] == s[k..|s| - 1] + [last];
      assert s[k..|s| - 1] == s'[k..];
      if k > 0 {
        assert s[k - 1] == s'[k - 1];
      }
    }
  }

  /** The last piece of `s.split("\n")` is the tail line. */
  lemma {:induction false} SplitLast(s: string)
    ensures Split(s)[|Split(s)| - 1] == TailLine(s)
    decreases |s|
  {
    if |s| > 0 && s[|s| - 1] != '\n' {
      SplitLast(s[..|s| - 1]);
    }
  }

  /** Appending text without line breaks extends the tail line by that text;
      appending a line break starts an empty one. */
  lemma {:induction false} TailLineAppend(a: string, b: string)
    requires '\n' !in b
    ensures TailLine(a + b) == TailLine(a) + b
    decreases |b|
  {
    if |b| > 0 {
      var b' := b[..|b| - 1];
      assert (a + b)[..|a + b| - 1] == a + b';
      TailLineAppend(a, b');
      assert b == b' + [b[|b| - 1]];
    } else {
      assert a + b == a;
    }
  }

  /** The characters `String.prototype.trim` removes: the ECMAScript WhiteSpace
      and LineTerminator code points. */
  predicate IsJsWhitespace(c: char)
  {
    || c == '\t' || c == '\n' || c == '\U{B}' || c == '\U{C}' || c == '\r' || c == ' '
    || c == '\U{A0}' || c == '\U{1680}' || ('\U{2000}' <= c <= '\U{200A}')
    || c == '\U{2028}' || c == '\U{2029}' || c == '\U{202F}' || c == '\U{205F}'
    || c == '\U{3000}' || c == '\U{FEFF}'
  }

  /** `s` with its leading whitespace removed. */
  function TrimStart(s: string): (r: string)
    ensures |r| <= |s| && r == s[|s| - |r|..]
    ensures forall i :: 0 <= i < |s| - |r| ==> IsJsWhitespace(s[i])
    ensures |r| > 0 ==> !IsJsWhitespace(r[0])
  {
    if |s| > 0 && IsJsWhitespace(s[0]) then TrimStart(s[1..]) else s
  }

  /** `s` with its trailing whitespace removed. */
  function TrimEnd(s: string): (r: string)
    ensures |r| <= |s| && r == s[..|r|]
    ensures forall i :: |r| <= i < |s| ==> IsJsWhitespace(s[i])
    ensures |r| > 0 ==> !IsJsWhitespace(r[|r| - 1])
  {
    if |s| > 0 && IsJsWhitespace(s[|s| - 1]) then TrimEnd(s[..|s| - 1]) else s
  }

  /** `s.trim()`. */
  function Trim(s: string): string
  {
    TrimEnd(TrimStart(s))
  }

  /** `s.trim()` is empty exactly when every character of `s` is whitespace. */
  lemma TrimEmptyIffBlank(s: string)
    ensures |Trim(s)| == 0 <==> forall i :: 0 <= i < |s| ==> IsJsWhitespace(s[i])
  {
    var t := TrimStart(s);
    if |t| > 0 {
      assert !IsJsWhitespace(s[|s| - |t|]);
      assert |TrimEnd(t)| > 0;
    }
  }
}
