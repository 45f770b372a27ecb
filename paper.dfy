/** The live sheet of paper (src/app/components/Typewriter.tsx): how the buffer
    is laid out as coloured lines, which keyboard events reach the buffer, and
    when the send button shows. */
module Paper {
  import opened Text
  import opened Glyphs

  /** Width of one glyph and height of one line, in pixels. */
  const CHAR_WIDTH := 12
  const LINE_HEIGHT := 24

  /** Typewriter.tsx declares its own characters-per-line constant; nothing
      reads it, and wrapping is decided by the buffer's 30. */
  const DECLARED_CHARS_PER_LINE := 52

  /** Width of the sheet's writing area: 450 px less 45 px of padding each side. */
  const PAPER_CONTENT_WIDTH := 450 - 45 * 2

  /** The line builder: one left-to-right pass over the buffer that starts in
      black; it always yields the final line, empty or not. */
  method LayoutLines(currentText: string) returns (lines: seq<seq<Glyph>>)
    ensures lines == Decode(currentText, PAPER_SENTINEL, BLACK)
    ensures currentText == "" ==> lines == [[]]
    ensures |lines| == NewlineCount(currentText) + 1
    ensures NoBreakGlyph(lines)
    ensures Flatten(lines) == StripMarkers(currentText)
    ensures TotalGlyphs(lines) == |currentText| - NewlineCount(currentText) - 2 * MarkerCount(currentText)
  {
    lines := Scan(currentText, PAPER_SENTINEL);
    DecodeLineCount(currentText, PAPER_SENTINEL, BLACK);
    DecodeNoBreakGlyph(currentText, PAPER_SENTINEL, BLACK);
    DecodeFlatten(currentText, BLACK);
    GlyphCount(currentText, BLACK);
  }

  /** `lines` with glyph `g` added at the end of the last line. */
  function Extend(lines: seq<seq<Glyph>>, g: Glyph): seq<seq<Glyph>>
    requires |lines| >= 1
  {
    lines[..|lines| - 1] + [lines[|lines| - 1] + [g]]
  }

  /** A line break at the end of the text opens one more, empty, line. */
  lemma AppendBreak(text: string, color: string)
    ensures Decode(text + "\n", PAPER_SENTINEL, color) == Decode(text, PAPER_SENTINEL, color) + [[]]
  {
    var a := Decode(text, PAPER_SENTINEL, color);
    var ink := InkAfter(text, PAPER_SENTINEL, color);
    DecodeAppend(text, "\n", PAPER_SENTINEL, color);
    assert "\n"[1..] == "";
    assert Decode("\n", PAPER_SENTINEL, ink) == [[], []];
    ConcatEmptyRight(a);
  }

  /** A marker at the end of the text shows nothing. */
  lemma AppendMarker(text: string, tag: char, color: string)
    requires IsTag(tag)
    ensures Decode(text + [SENTINEL, tag], PAPER_SENTINEL, color) == Decode(text, PAPER_SENTINEL, color)
  {
    var a := Decode(text, PAPER_SENTINEL, color);
    var m := [SENTINEL, tag];
    DecodeAppend(text, m, PAPER_SENTINEL, color);
    assert m[2..] == "";
    PaperSentinel(SENTINEL);
    assert |Decode(m, PAPER_SENTINEL, InkAfter(text, PAPER_SENTINEL, color))| == 1;
    assert Decode(m, PAPER_SENTINEL, InkAfter(text, PAPER_SENTINEL, color)) == [[]];
    ConcatEmptyRight(a);
  }

  /** A character that is not a line break, and does not complete a marker
      with what precedes it, lands at the end of the last line in the ink in
      force after everything before it. This covers a sentinel not followed by
      a tag, the last character of the text included: it is an ordinary glyph. */
  lemma AppendGlyph(text: string, c: char, color: string)
    requires c != '\n'
    requires Seam(text, [c], PAPER_SENTINEL)
    ensures Decode(text + [c], PAPER_SENTINEL, color)
         == Extend(Decode(text, PAPER_SENTINEL, color), Glyph(c, InkAfter(text, PAPER_SENTINEL, color)))
  {
    var ink := InkAfter(text, PAPER_SENTINEL, color);
    DecodeAppend(text, [c], PAPER_SENTINEL, color);
    SingleGlyph(c, PAPER_SENTINEL, ink);
  }

  /** The ink starts black, a `§r` turns it red until a `§b`, and a line break
      leaves it as it was, even after a lone sentinel: the colour carries over
      to the next line. */
  lemma InkAcrossLines(p: string, color: string)
    ensures InkAfter("", PAPER_SENTINEL, color) == color
    ensures InkAfter(p + [SENTINEL, RED_TAG], PAPER_SENTINEL, color) == RED
    ensures InkAfter(p + [SENTINEL, BLACK_TAG], PAPER_SENTINEL, color) == BLACK
    ensures InkAfter(p + "\n", PAPER_SENTINEL, color) == InkAfter(p, PAPER_SENTINEL, color)
  {
    if |p| > 0 {
      PaperSentinel(p[|p| - 1]);
    }
    InkAfterAppend(p, [SENTINEL, RED_TAG], PAPER_SENTINEL, color);
    assert [SENTINEL, RED_TAG][2..] == "";
    InkAfterAppend(p, [SENTINEL, BLACK_TAG], PAPER_SENTINEL, color);
    assert [SENTINEL, BLACK_TAG][2..] == "";
    InkAfterAppend(p, "\n", PAPER_SENTINEL, color);
  }

  /** A keyboard event as the window delivers it. */
  datatype KeyEvent = KeyEvent(key: string, ctrlKey: bool, metaKey: bool)

  /** Which buffer handler an event triggers. */
  datatype Command = Backspace | Return | Press(key: char) | Ignore

  /** The keydown dispatcher. */
  function Dispatch(e: KeyEvent): (c: Command)
    ensures c == Backspace <==> e.key == "Backspace"
    ensures c == Return <==> e.key == "Enter"
    ensures c.Press? <==> |e.key| == 1 && !e.ctrlKey && !e.metaKey
    ensures c.Press? ==> c.key == e.key[0]
  {
    if e.key == "Backspace" then Backspace
    else if e.key == "Enter" then Return
    else if |e.key| == 1 && !e.ctrlKey && !e.metaKey then Press(e.key[0])
    else Ignore
  }

  /** Whether the browser's default action for the event is suppressed. */
  predicate PreventsDefault(e: KeyEvent)
  {
    |e.key| == 1 || e.key == "Backspace" || e.key == "Enter"
  }

  /** Every event that reaches the buffer has its default action suppressed;
      a one-character key pressed with ctrl or meta is suppressed and ignored. */
  lemma HandledKeysPreventDefault(e: KeyEvent)
    ensures Dispatch(e) != Ignore ==> PreventsDefault(e)
    ensures PreventsDefault(e) && Dispatch(e) == Ignore <==> |e.key| == 1 && (e.ctrlKey || e.metaKey)
  {
  }

  /** The send button shows exactly when the buffer holds a character that is
      not whitespace. */
  function ShowsSendButton(currentText: string): (shown: bool)
    ensures shown <==> exists i :: 0 <= i < |currentText| && !IsJsWhitespace(currentText[i])
  {
    TrimEmptyIffBlank(currentText);
    |Trim(currentText)| > 0
  }
}
