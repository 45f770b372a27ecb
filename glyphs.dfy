/** The ink-marker alphabet and the line builder that turns a raw typewriter
    string into lines of coloured glyphs. The live paper and the note cards run
    the same left-to-right scan; they differ only in the sentinel literal they
    compare against, so the scan takes the sentinel as a parameter. */
module Glyphs {
  import opened Text

  /** The sentinel the keyboard handler writes before an ink tag. */
  const SENTINEL: char := '§'
  const RED_TAG: char := 'r'
  const BLACK_TAG: char := 'b'
  /** The sentinel literal the live paper compares each character with. */
  const PAPER_SENTINEL: string := "§"

  /** Glyph colours: the CSS colours the decoder assigns. */
  const RED: string := "#dc2626"
  const BLACK: string := "black"

  predicate IsTag(c: char)
  {
    c == RED_TAG || c == BLACK_TAG
  }

  /** A sentinel literal; a line break is never one, so markers never eat a line break. */
  type Sentinel = s: string | s != "\n" witness "§"

  /** One rendered character and its colour. */
  datatype Glyph = Glyph(text: char, color: string)

  /** `char === sentinel`, comparing a one-character string with the literal:
      only a one-character literal can ever be equal to it. */
  function IsSentinel(c: char, sentinel: string): (r: bool)
    ensures r <==> |sentinel| == 1 && sentinel[0] == c
  {
    [c] == sentinel
  }

  /** `s` begins with the sentinel followed by `tag`. */
  predicate StartsWithMarker(s: string, sentinel: string, tag: char)
  {
    |s| >= 2 && IsSentinel(s[0], sentinel) && s[1] == tag
  }

  /** The scan's reading of `s`, starting in ink `color`: a marker switches the
      ink and shows nothing, a line break closes a line, any other character is
      a glyph in the current ink; the last line is always kept, even when empty. */
  function Decode(s: string, sentinel: Sentinel, color: string): (lines: seq<seq<Glyph>>)
    ensures |lines| >= 1
    decreases |s|
  {
    if |s| == 0 then [[]]
    else if StartsWithMarker(s, sentinel, RED_TAG) then
      assert s == s[..2] + s[2..];
      Decode(s[2..], sentinel, RED)
    else if StartsWithMarker(s, sentinel, BLACK_TAG) then
      assert s == s[..2] + s[2..];
      Decode(s[2..], sentinel, BLACK)
    else
      assert s == [s[0]] + s[1..];
      var rest := Decode(s[1..], sentinel, color);
      if s[0] == '\n' then [[]] + rest
      else [[Glyph(s[0], color)] + rest[0]] + rest[1..]
  }

  /** A marker at the front switches the ink and shows nothing. */
  lemma DecodeMarkerStep(s: string, sentinel: Sentinel, color: string, tag: char)
    requires IsTag(tag) && StartsWithMarker(s, sentinel, tag)
    ensures Decode(s, sentinel, color) == Decode(s[2..], sentinel, if tag == RED_TAG then RED else BLACK)
  {
  }

  /** Any other character at the front is a line break or a glyph in the
      current ink. */
  lemma DecodePlainStep(s: string, sentinel: Sentinel, color: string)
    requires |s| > 0 && !StartsWithMarker(s, sentinel, RED_TAG) && !StartsWithMarker(s, sentinel, BLACK_TAG)
    ensures var rest := Decode(s[1..], sentinel, color);
            Decode(s, sentinel, color) ==
              if s[0] == '\n' then [[]] + rest else [[Glyph(s[0], color)] + rest[0]] + rest[1..]
  {
  }

  /** There is one line more than there are line breaks. */
  lemma {:induction false} DecodeLineCount(s: string, sentinel: Sentinel, color: string)
    ensures |Decode(s, sentinel, color)| == NewlineCount(s) + 1
    decreases |s|
  {
    if |s| > 0 {
      if StartsWithMarker(s, sentinel, RED_TAG) || StartsWithMarker(s, sentinel, BLACK_TAG) {
        assert s == s[..2] + s[2..];
        assert multiset(s[..2])['\n'] == 0;
        DecodeLineCount(s[2..], sentinel, if s[1] == RED_TAG then RED else BLACK);
      } else {
        assert s == [s[0]] + s[1..];
        DecodeLineCount(s[1..], sentinel, color);
      }
    }
  }

  /** No glyph of `lines` is a line break. */
  predicate NoBreakGlyph(lines: seq<seq<Glyph>>)
  {
    forall k, j :: 0 <= k < |lines| && 0 <= j < |lines[k]| ==> lines[k][j].text != '\n'
  }

  /** Every glyph of `lines` is in ink `color`. */
  predicate AllInk(lines: seq<seq<Glyph>>, color: string)
  {
    forall k, j :: 0 <= k < |lines| && 0 <= j < |lines[k]| ==> lines[k][j].color == color
  }

  /** No glyph is a line break: line breaks only ever separate lines. */
  lemma {:induction false} DecodeNoBreakGlyph(s: string, sentinel: Sentinel, color: string)
    ensures NoBreakGlyph(Decode(s, sentinel, color))
    decreases |s|
  {
    if |s| > 0 {
      if StartsWithMarker(s, sentinel, RED_TAG) {
        DecodeNoBreakGlyph(s[2..], sentinel, RED);
      } else if StartsWithMarker(s, sentinel, BLACK_TAG) {
        DecodeNoBreakGlyph(s[2..], sentinel, BLACK);
      } else {
        DecodeNoBreakGlyph(s[1..], sentinel, color);
        var d := Decode(s[1..], sentinel, color);
        if s[0] == '\n' {
          var r: seq<seq<Glyph>> := [[]] + d;
          assert Decode(s, sentinel, color) == r;
          forall k, j | 0 <= k < |r| && 0 <= j < |r[k]| ensures r[k][j].text != '\n' {
            assert r[k] == d[k - 1];
          }
        } else {
          var line := [Glyph(s[0], color)] + d[0];
          var r: seq<seq<Glyph>> := [line] + d[1..];
          assert Decode(s, sentinel, color) == r;
          forall k, j | 0 <= k < |r| && 0 <= j < |r[k]| ensures r[k][j].text != '\n' {
            if k == 0 {
              if j > 0 { assert line[j] == d[0][j - 1]; }
            } else {
              assert r[k] == d[k];
            }
          }
        }
      }
    }
  }

  /** A lone character other than a line break is one glyph in the ink given. */
  lemma SingleGlyph(c: char, sentinel: Sentinel, color: string)
    requires c != '\n'
    ensures Decode([c], sentinel, color) == [[Glyph(c, color)]]
  {
    var s := [c];
    assert s[1..] == "";
    assert !StartsWithMarker(s, sentinel, RED_TAG);
    assert !StartsWithMarker(s, sentinel, BLACK_TAG);
    var rest := Decode(s[1..], sentinel, color);
    assert rest == [[]];
    assert [Glyph(c, color)] + rest[0] == [Glyph(c, color)];
  }

  /** The ink in force after scanning `s` from ink `color`. */
  function InkAfter(s: string, sentinel: Sentinel, color: string): string
    decreases |s|
  {
    if |s| == 0 then color
    else if StartsWithMarker(s, sentinel, RED_TAG) then InkAfter(s[2..], sentinel, RED)
    else if StartsWithMarker(s, sentinel, BLACK_TAG) then InkAfter(s[2..], sentinel, BLACK)
    else InkAfter(s[1..], sentinel, color)
  }

  /** Two runs of lines laid end to end: the last line of `a` continues into the
      first line of `b`. */
  function Concat(a: seq<seq<Glyph>>, b: seq<seq<Glyph>>): (r: seq<seq<Glyph>>)
    requires |a| >= 1 && |b| >= 1
    ensures |r| == |a| + |b| - 1
  {
    a[..|a| - 1] + [a[|a| - 1] + b[0]] + b[1..]
  }

  lemma ConcatEmptyLeft(b: seq<seq<Glyph>>)
    requires |b| >= 1
    ensures Concat([[]], b) == b
  {
    assert [] + b[0] == b[0];
  }

  lemma ConcatEmptyRight(a: seq<seq<Glyph>>)
    requires |a| >= 1
    ensures Concat(a, [[]]) == a
    ensures Concat(a, [[], []]) == a + [[]]
  {
    var n := |a|;
    var e: seq<Glyph> := [];
    assert a[n - 1] + e == a[n - 1];
    assert a[..n - 1] + [a[n - 1]] == a;
    assert [e, e][1..] == [e];
  }

  lemma ConcatNewline(a: seq<seq<Glyph>>, b: seq<seq<Glyph>>)
    requires |a| >= 1 && |b| >= 1
    ensures Concat(a, [[]] + b) == Concat(a + [[]], b)
  {
    var n := |a|;
    var a' := a + [[]];
    assert a'[..|a'| - 1] == a;
    assert ([[]] + b)[1..] == b;
    assert a[n - 1] + [] == a[n - 1];
    assert a[..n - 1] + [a[n - 1]] == a;
    assert [] + b[0] == b[0];
    assert [b[0]] + b[1..] == b;
    calc {
      Concat(a, [[]] + b);
      a[..n - 1] + [a[n - 1]] + b;
      a + b;
      a + [b[0]] + b[1..];
      Concat(a + [[]], b);
    }
  }

  lemma ConcatGlyph(a: seq<seq<Glyph>>, g: Glyph, b: seq<seq<Glyph>>)
    requires |a| >= 1 && |b| >= 1
    ensures Concat(a, [[g] + b[0]] + b[1..]) == Concat(a[..|a| - 1] + [a[|a| - 1] + [g]], b)
  {
    var a' := a[..|a| - 1] + [a[|a| - 1] + [g]];
    assert a'[..|a'| - 1] == a[..|a| - 1];
    assert a[|a| - 1] + ([g] + b[0]) == (a[|a| - 1] + [g]) + b[0];
  }

  lemma NewlineConcat(a: seq<seq<Glyph>>, b: seq<seq<Glyph>>)
    requires |a| >= 1 && |b| >= 1
    ensures [[]] + Concat(a, b) == Concat([[]] + a, b)
  {
    var a' := [[]] + a;
    assert a'[..|a'| - 1] == [[]] + a[..|a| - 1];
  }

  lemma GlyphConcat(g: Glyph, a: seq<seq<Glyph>>, b: seq<seq<Glyph>>)
    requires |a| >= 1 && |b| >= 1
    ensures var x := Concat(a, b);
            [[g] + x[0]] + x[1..] == Concat([[g] + a[0]] + a[1..], b)
  {
    var x := Concat(a, b);
    var a' := [[g] + a[0]] + a[1..];
    if |a| == 1 {
      assert x[0] == a[0] + b[0];
      assert x[1..] == b[1..];
      assert [g] + (a[0] + b[0]) == ([g] + a[0]) + b[0];
      assert a' == [[g] + a[0]];
    } else {
      assert x[0] == a[0];
      assert x[1..] == a[1..|a| - 1] + [a[|a| - 1] + b[0]] + b[1..];
      assert a'[..|a'| - 1] == [[g] + a[0]] + a[1..|a| - 1];
    }
  }

  /** No scan step can join the last character of `s` with the first of `t`. */
  predicate Seam(s: string, t: string, sentinel: string)
  {
    !(|s| > 0 && IsSentinel(s[|s| - 1], sentinel) && |t| > 0 && IsTag(t[0]))
  }

  /** Scanning `s + t` is scanning `s`, then scanning `t` in the ink `s` left
      behind, with the last line of one continuing into the first of the other;
      the only exception is a sentinel at the end of `s` that a tag in `t` completes. */
  lemma {:induction false} DecodeAppend(s: string, t: string, sentinel: Sentinel, color: string)
    requires Seam(s, t, sentinel)
    ensures Decode(s + t, sentinel, color)
         == Concat(Decode(s, sentinel, color), Decode(t, sentinel, InkAfter(s, sentinel, color)))
    decreases |s|
  {
    var dt := Decode(t, sentinel, InkAfter(s, sentinel, color));
    if |s| == 0 {
      assert s + t == t;
      ConcatEmptyLeft(dt);
    } else if StartsWithMarker(s, sentinel, RED_TAG) {
      assert (s + t)[2..] == s[2..] + t;
      DecodeAppend(s[2..], t, sentinel, RED);
    } else if StartsWithMarker(s, sentinel, BLACK_TAG) {
      assert (s + t)[2..] == s[2..] + t;
      DecodeAppend(s[2..], t, sentinel, BLACK);
    } else {
      assert (s + t)[1..] == s[1..] + t;
      assert !StartsWithMarker(s + t, sentinel, RED_TAG) && !StartsWithMarker(s + t, sentinel, BLACK_TAG);
      DecodeAppend(s[1..], t, sentinel, color);
      var ds := Decode(s[1..], sentinel, color);
      if s[0] == '\n' {
        NewlineConcat(ds, dt);
      } else {
        GlyphConcat(Glyph(s[0], color), ds, dt);
      }
    }
  }

  /** The ink after `s + t` is the ink after `t`, started from the ink after `s`. */
  lemma {:induction false} InkAfterAppend(s: string, t: string, sentinel: Sentinel, color: string)
    requires Seam(s, t, sentinel)
    ensures InkAfter(s + t, sentinel, color) == InkAfter(t, sentinel, InkAfter(s, sentinel, color))
    decreases |s|
  {
    if |s| == 0 {
      assert s + t == t;
    } else if StartsWithMarker(s, sentinel, RED_TAG) {
      assert (s + t)[2..] == s[2..] + t;
      InkAfterAppend(s[2..], t, sentinel, RED);
    } else if StartsWithMarker(s, sentinel, BLACK_TAG) {
      assert (s + t)[2..] == s[2..] + t;
      InkAfterAppend(s[2..], t, sentinel, BLACK);
    } else {
      assert (s + t)[1..] == s[1..] + t;
      assert !StartsWithMarker(s + t, sentinel, RED_TAG) && !StartsWithMarker(s + t, sentinel, BLACK_TAG);
      InkAfterAppend(s[1..], t, sentinel, color);
    }
  }

  /** The characters of a line of glyphs. */
  function Texts(line: seq<Glyph>): (r: string)
    ensures |r| == |line|
  {
    if |line| == 0 then "" else [line[0].text] + Texts(line[1..])
  }

  /** The lines' texts joined with line breaks. */
  function Flatten(lines: seq<seq<Glyph>>): string
    requires |lines| >= 1
  {
    Texts(lines[0]) + BrokenLines(lines[1..])
  }

  /** Each line's text preceded by a line break. */
  function BrokenLines(lines: seq<seq<Glyph>>): string
  {
    if |lines| == 0 then "" else "\n" + Texts(lines[0]) + BrokenLines(lines[1..])
  }

  /** Number of glyphs over all lines. */
  function TotalGlyphs(lines: seq<seq<Glyph>>): nat
  {
    if |lines| == 0 then 0 else |lines[0]| + TotalGlyphs(lines[1..])
  }

  /** `s.replace(/§[rb]/g, "")`: every marker removed, scanning left to right. */
  function StripMarkers(s: string): string
    decreases |s|
  {
    if |s| == 0 then ""
    else if |s| >= 2 && s[0] == SENTINEL && IsTag(s[1]) then StripMarkers(s[2..])
    else [s[0]] + StripMarkers(s[1..])
  }

  /** Number of markers the left-to-right scan recognises in `s`. */
  function MarkerCount(s: string): nat
    decreases |s|
  {
    if |s| == 0 then 0
    else if |s| >= 2 && s[0] == SENTINEL && IsTag(s[1]) then 1 + MarkerCount(s[2..])
    else MarkerCount(s[1..])
  }

  /** Each recognised marker takes two characters out, and no line break. */
  lemma {:induction false} StripMarkersCounts(s: string)
    ensures |StripMarkers(s)| == |s| - 2 * MarkerCount(s)
    ensures NewlineCount(StripMarkers(s)) == NewlineCount(s)
    decreases |s|
  {
    if |s| >= 2 && s[0] == SENTINEL && IsTag(s[1]) {
      assert s == s[..2] + s[2..];
      StripMarkersCounts(s[2..]);
      StripMarkersMarker(s);
      NewlineCountAppend(s[..2], s[2..]);
      NewlineCountNone(s[..2]);
    } else if |s| > 0 {
      assert s == [s[0]] + s[1..];
      StripMarkersCounts(s[1..]);
      StripMarkersPlain(s);
      NewlineCountAppend([s[0]], s[1..]);
      NewlineCountAppend([s[0]], StripMarkers(s[1..]));
    }
  }

  lemma PaperSentinel(c: char)
    ensures IsSentinel(c, PAPER_SENTINEL) <==> c == SENTINEL
  {
  }

  lemma TextsGlyph(g: Glyph, line: seq<Glyph>)
    ensures Texts([g] + line) == [g.text] + Texts(line)
  {
    assert ([g] + line)[1..] == line;
  }

  lemma FlattenGlyph(g: Glyph, d: seq<seq<Glyph>>)
    requires |d| >= 1
    ensures Flatten([[g] + d[0]] + d[1..]) == [g.text] + Flatten(d)
  {
    var x := [[g] + d[0]] + d[1..];
    TextsGlyph(g, d[0]);
    assert x[0] == [g] + d[0];
    assert x[1..] == d[1..];
  }

  lemma DecodeFlattenBreak(d: seq<seq<Glyph>>)
    requires |d| >= 1
    ensures Flatten([[]] + d) == "\n" + Flatten(d)
  {
    assert ([[]] + d)[1..] == d;
    assert ([[]] + d)[0] == [];
  }

  /** Joining the decoded lines with line breaks gives back the raw string with
      every recognised marker removed. */
  lemma {:induction false} DecodeFlatten(s: string, color: string)
    ensures Flatten(Decode(s, PAPER_SENTINEL, color)) == StripMarkers(s)
    decreases |s|
  {
    if |s| > 0 {
      PaperSentinel(s[0]);
      if StartsWithMarker(s, PAPER_SENTINEL, RED_TAG) {
        DecodeFlatten(s[2..], RED);
        assert StripMarkers(s) == StripMarkers(s[2..]);
      } else if StartsWithMarker(s, PAPER_SENTINEL, BLACK_TAG) {
        DecodeFlatten(s[2..], BLACK);
        assert StripMarkers(s) == StripMarkers(s[2..]);
      } else {
        assert StripMarkers(s) == [s[0]] + StripMarkers(s[1..]);
        DecodeFlatten(s[1..], color);
        var d := Decode(s[1..], PAPER_SENTINEL, color);
        if s[0] == '\n' {
          DecodeFlattenBreak(d);
          assert Decode(s, PAPER_SENTINEL, color) == [[]] + d;
        } else {
          FlattenGlyph(Glyph(s[0], color), d);
          assert Decode(s, PAPER_SENTINEL, color) == [[Glyph(s[0], color)] + d[0]] + d[1..];
        }
      }
    }
  }

  /** The joined text has one line break between consecutive lines. */
  lemma {:induction false} BrokenLinesLength(lines: seq<seq<Glyph>>)
    ensures |BrokenLines(lines)| == TotalGlyphs(lines) + |lines|
    decreases |lines|
  {
    if |lines| > 0 {
      BrokenLinesLength(lines[1..]);
    }
  }

  lemma FlattenLength(lines: seq<seq<Glyph>>)
    requires |lines| >= 1
    ensures |Flatten(lines)| == TotalGlyphs(lines) + |lines| - 1
  {
    BrokenLinesLength(lines[1..]);
  }

  /** The paper shows one glyph per character, less the line breaks and the two
      characters of every recognised marker. */
  lemma GlyphCount(s: string, color: string)
    ensures TotalGlyphs(Decode(s, PAPER_SENTINEL, color)) == |s| - NewlineCount(s) - 2 * MarkerCount(s)
  {
    DecodeFlatten(s, color);
    FlattenLength(Decode(s, PAPER_SENTINEL, color));
    StripMarkersCounts(s);
    DecodeLineCount(s, PAPER_SENTINEL, color);
  }

  /** No sentinel–tag pair anywhere in `s`. */
  predicate MarkerFree(s: string, sentinel: string)
  {
    forall i :: 0 <= i < |s| - 1 ==> !(IsSentinel(s[i], sentinel) && IsTag(s[i + 1]))
  }

  lemma MarkerFreeTail(s: string, sentinel: string)
    requires |s| > 0 && MarkerFree(s, sentinel)
    ensures MarkerFree(s[1..], sentinel)
    ensures !StartsWithMarker(s, sentinel, RED_TAG) && !StartsWithMarker(s, sentinel, BLACK_TAG)
  {
    forall i | 0 <= i < |s[1..]| - 1 ensures !(IsSentinel(s[1..][i], sentinel) && IsTag(s[1..][i + 1])) {
      assert s[1..][i] == s[i + 1] && s[1..][i + 1] == s[i + 2];
    }
  }

  /** Text without markers is shown verbatim. */
  lemma {:induction false} MarkerFreeFlatten(s: string, sentinel: Sentinel, color: string)
    requires MarkerFree(s, sentinel)
    ensures Flatten(Decode(s, sentinel, color)) == s
    decreases |s|
  {
    if |s| > 0 {
      MarkerFreeTail(s, sentinel);
      MarkerFreeFlatten(s[1..], sentinel, color);
      var d := Decode(s[1..], sentinel, color);
      DecodePlainStep(s, sentinel, color);
      assert s == [s[0]] + s[1..];
      if s[0] == '\n' {
        DecodeFlattenBreak(d);
      } else {
        FlattenGlyph(Glyph(s[0], color), d);
      }
    }
  }

  /** Text without markers shows every glyph in the ink the scan started with. */
  lemma {:induction false} MarkerFreeInk(s: string, sentinel: Sentinel, color: string)
    requires MarkerFree(s, sentinel)
    ensures AllInk(Decode(s, sentinel, color), color)
    decreases |s|
  {
    if |s| > 0 {
      MarkerFreeTail(s, sentinel);
      MarkerFreeInk(s[1..], sentinel, color);
      var d := Decode(s[1..], sentinel, color);
      if s[0] != '\n' {
        var line := [Glyph(s[0], color)] + d[0];
        var r: seq<seq<Glyph>> := [line] + d[1..];
        assert Decode(s, sentinel, color) == r;
        forall k, j | 0 <= k < |r| && 0 <= j < |r[k]| ensures r[k][j].color == color {
          if k == 0 {
            if j > 0 { assert line[j] == d[0][j - 1]; }
          } else {
            assert r[k] == d[k];
          }
        }
      } else {
        var r: seq<seq<Glyph>> := [[]] + d;
        assert Decode(s, sentinel, color) == r;
        forall k, j | 0 <= k < |r| && 0 <= j < |r[k]| ensures r[k][j].color == color {
          assert r[k] == d[k - 1];
        }
      }
    }
  }

  /** Text without markers leaves the ink unchanged. */
  lemma {:induction false} MarkerFreeInkAfter(s: string, sentinel: Sentinel, color: string)
    requires MarkerFree(s, sentinel)
    ensures InkAfter(s, sentinel, color) == color
    decreases |s|
  {
    if |s| > 0 {
      MarkerFreeTail(s, sentinel);
      MarkerFreeInkAfter(s[1..], sentinel, color);
    }
  }

  /** Every sentinel in `s` is followed by a tag: the text holds no sentinel
      except as the first half of a marker. */
  predicate Sealed(s: string)
  {
    forall i :: 0 <= i < |s| && s[i] == SENTINEL ==> i + 1 < |s| && IsTag(s[i + 1])
  }

  /** Markers are removed piece by piece when no marker straddles the seam. */
  lemma {:induction false} StripMarkersAppend(a: string, b: string)
    requires Seam(a, b, PAPER_SENTINEL)
    ensures StripMarkers(a + b) == StripMarkers(a) + StripMarkers(b)
    decreases |a|
  {
    if |a| == 0 {
      assert a + b == b;
    } else {
      PaperSentinel(a[|a| - 1]);
      var ab := a + b;
      if |a| >= 2 && a[0] == SENTINEL && IsTag(a[1]) {
        var a' := a[2..];
        assert ab[2..] == a' + b;
        assert |a'| > 0 ==> a'[|a'| - 1] == a[|a| - 1];
        StripMarkersAppend(a', b);
        StripMarkersMarkerStep(a, b);
      } else {
        var a' := a[1..];
        assert ab[1..] == a' + b;
        assert !(|ab| >= 2 && ab[0] == SENTINEL && IsTag(ab[1]));
        StripMarkersAppend(a', b);
        StripMarkersPlain(a);
        StripMarkersPlain(ab);
        ConcatAssoc([a[0]], StripMarkers(a'), StripMarkers(b));
      }
    }
  }

  /** The inductive step of `StripMarkersAppend` when `a` opens with a marker. */
  lemma StripMarkersMarkerStep(a: string, b: string)
    requires |a| >= 2 && a[0] == SENTINEL && IsTag(a[1])
    requires StripMarkers(a[2..] + b) == StripMarkers(a[2..]) + StripMarkers(b)
    ensures StripMarkers(a + b) == StripMarkers(a) + StripMarkers(b)
  {
    var ab := a + b;
    var a' := a[2..];
    assert ab[2..] == a' + b;
    StripMarkersMarker(ab);
    assert StripMarkers(ab) == StripMarkers(a' + b);
    StripMarkersMarker(a);
    assert StripMarkers(a) == StripMarkers(a');
  }

  lemma StripMarkersMarker(s: string)
    requires |s| >= 2 && s[0] == SENTINEL && IsTag(s[1])
    ensures StripMarkers(s) == StripMarkers(s[2..])
  {
  }

  /** A marker on its own shows nothing. */
  lemma StripMarkersLoneMarker(tag: char)
    requires IsTag(tag)
    ensures StripMarkers([SENTINEL, tag]) == ""
  {
    var m := [SENTINEL, tag];
    assert m[2..] == "";
  }

  lemma StripMarkersPlain(s: string)
    requires |s| >= 1 && !(|s| >= 2 && s[0] == SENTINEL && IsTag(s[1]))
    ensures StripMarkers(s) == [s[0]] + StripMarkers(s[1..])
  {
  }

  /** Joining two sealed texts gives a sealed text. */
  lemma SealedAppend(a: string, b: string)
    requires Sealed(a) && Sealed(b)
    ensures Sealed(a + b)
  {
    forall i | 0 <= i < |a + b| && (a + b)[i] == SENTINEL
      ensures i + 1 < |a + b| && IsTag((a + b)[i + 1])
    {
      if i < |a| {
        assert a[i] == SENTINEL;
      } else {
        assert b[i - |a|] == SENTINEL;
      }
    }
  }

  /** Cutting a sealed text anywhere but right after a sentinel leaves it sealed. */
  lemma SealedPrefix(s: string, k: nat)
    requires Sealed(s) && k <= |s| && (k == 0 || s[k - 1] != SENTINEL)
    ensures Sealed(s[..k])
  {
    forall i | 0 <= i < k && s[..k][i] == SENTINEL ensures i + 1 < k && IsTag(s[..k][i + 1]) {
      assert s[i] == SENTINEL;
    }
  }

  /** The ink named by the tag after the last sentinel of `s`, or `color` when
      `s` holds no sentinel. */
  function LastMarkerInk(s: string, color: string): string
  {
    var last := LastIndexOf(s, SENTINEL);
    if last == -1 then color
    else if CharAtIs(s, last + 1, RED_TAG) then RED
    else BLACK
  }

  /** In a sealed text the ink in force after the scan is the one the last
      sentinel's tag names. */
  lemma InkAfterSealed(s: string, color: string)
    requires Sealed(s)
    ensures InkAfter(s, PAPER_SENTINEL, color) == LastMarkerInk(s, color)
  {
    var last := LastIndexOf(s, SENTINEL);
    if last == -1 {
      MarkerFreeInkAfter(s, PAPER_SENTINEL, color);
    } else {
      var pre, post := s[..last], s[last..];
      assert s == pre + post;
      InkAfterAppend(pre, post, PAPER_SENTINEL, color);
      var ink := InkAfter(pre, PAPER_SENTINEL, color);
      PaperSentinel(post[0]);
      var v := post[2..];
      assert forall i :: 0 <= i < |v| ==> v[i] == s[last + 2 + i];
      MarkerFreeInkAfter(v, PAPER_SENTINEL, if s[last + 1] == RED_TAG then RED else BLACK);
    }
  }

  /** Decoding a text that ends in a line break, or an empty one, leaves an empty last line. */
  lemma DecodeEndsEmpty(p: string, color: string)
    requires |p| == 0 || p[|p| - 1] == '\n'
    ensures var d := Decode(p, PAPER_SENTINEL, color);
            d[|d| - 1] == []
  {
    if |p| > 0 {
      var q := p[..|p| - 1];
      assert p == q + "\n";
      DecodeAppend(q, "\n", PAPER_SENTINEL, color);
    }
  }

  /** A text without line breaks decodes to a single line showing it without markers. */
  lemma DecodeSingleLine(t: string, color: string)
    requires '\n' !in t
    ensures var d := Decode(t, PAPER_SENTINEL, color);
            |d| == 1 && Texts(d[0]) == StripMarkers(t)
  {
    assert multiset(t)['\n'] == 0;
    DecodeLineCount(t, PAPER_SENTINEL, color);
    DecodeFlatten(t, color);
  }

  lemma LastOfConcat(a: seq<seq<Glyph>>, b: seq<seq<Glyph>>)
    requires |a| >= 1 && |b| == 1
    ensures var c := Concat(a, b);
            c[|c| - 1] == a[|a| - 1] + b[0]
  {
  }

  /** The paper's last line shows the text after the last line break with its
      markers removed. */
  lemma DecodeLastLine(s: string, color: string)
    ensures var d := Decode(s, PAPER_SENTINEL, color);
            Texts(d[|d| - 1]) == StripMarkers(TailLine(s))
    ensures var d := Decode(s, PAPER_SENTINEL, color);
            |d[|d| - 1]| == |StripMarkers(TailLine(s))|
  {
    var t := TailLine(s);
    var p := s[..|s| - |t|];
    TailLineSuffix(s);
    assert s == p + t;
    if |p| > 0 {
      assert p[|p| - 1] == '\n';
    }
    LastLineAfterBreak(s, p, t, color);
  }

  /** When `s` is `p` up to a line break, then `t` without one, the last line
      shows `t` without its markers. */
  lemma LastLineAfterBreak(s: string, p: string, t: string, color: string)
    requires s == p + t
    requires |p| == 0 || p[|p| - 1] == '\n'
    requires '\n' !in t
    ensures var d := Decode(s, PAPER_SENTINEL, color);
            Texts(d[|d| - 1]) == StripMarkers(t)
    ensures var d := Decode(s, PAPER_SENTINEL, color);
            |d[|d| - 1]| == |StripMarkers(t)|
  {
    var ink := InkAfter(p, PAPER_SENTINEL, color);
    var dp := Decode(p, PAPER_SENTINEL, color);
    var dt := Decode(t, PAPER_SENTINEL, ink);
    assert Seam(p, t, PAPER_SENTINEL);
    DecodeAppend(p, t, PAPER_SENTINEL, color);
    DecodeEndsEmpty(p, color);
    DecodeSingleLine(t, ink);
    LastOfConcat(dp, dt);
    var e: seq<Glyph> := [];
    assert e + dt[0] == dt[0];
  }

  /** The line builder: a left-to-right scan over `text` that switches ink at
      each marker, closes a line at each line break and pushes the final line. */
  method Scan(text: string, sentinel: Sentinel) returns (lines: seq<seq<Glyph>>)
    ensures lines == Decode(text, sentinel, BLACK)
  {
    lines := [];
    var currentLine: seq<Glyph> := [];
    var currentColor := BLACK;
    var i := 0;
    assert text[i..] == text;
    ConcatEmptyLeft(Decode(text, sentinel, BLACK));
    assert lines + [currentLine] == [[]];
    while i < |text|
      invariant 0 <= i <= |text|
      invariant Concat(lines + [currentLine], Decode(text[i..], sentinel, currentColor))
             == Decode(text, sentinel, BLACK)
    {
      var ch := text[i];
      ghost var rest := text[i..];
      if IsSentinel(ch, sentinel) && CharAtIs(text, i + 1, RED_TAG) {
        assert rest[2..] == text[i + 2..];
        DecodeMarkerStep(rest, sentinel, currentColor, RED_TAG);
        currentColor := RED;
        i := i + 2;
      } else if IsSentinel(ch, sentinel) && CharAtIs(text, i + 1, BLACK_TAG) {
        assert rest[2..] == text[i + 2..];
        DecodeMarkerStep(rest, sentinel, currentColor, BLACK_TAG);
        currentColor := BLACK;
        i := i + 2;
      } else if ch == '\n' {
        assert rest[1..] == text[i + 1..];
        DecodePlainStep(rest, sentinel, currentColor);
        ConcatNewline(lines + [currentLine], Decode(text[i + 1..], sentinel, currentColor));
        assert lines + [currentLine] + [[]] == (lines + [currentLine]) + [[]];
        lines := lines + [currentLine];
        currentLine := [];
        i := i + 1;
      } else {
        assert rest[1..] == text[i + 1..];
        DecodePlainStep(rest, sentinel, currentColor);
        ghost var a := lines + [currentLine];
        ConcatGlyph(a, Glyph(ch, currentColor), Decode(text[i + 1..], sentinel, currentColor));
        assert a[..|a| - 1] + [a[|a| - 1] + [Glyph(ch, currentColor)]]
            == lines + [currentLine + [Glyph(ch, currentColor)]];
        currentLine := currentLine + [Glyph(ch, currentColor)];
        i := i + 1;
      }
    }
    assert text[i..] == [];
    assert currentLine + [] == currentLine;
    lines := lines + [currentLine];
  }
}
