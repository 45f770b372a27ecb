/** The typewriter's buffer (src/app/App.tsx): the raw text with its inline ink
    markers, the carriage and paper positions, the current line's length and
    number, the selected ink, and the archived notes. Each handler is one
    atomic transition; `State` and the functions on it specify the `Desk`
    class at the end, whose methods perform the handlers field by field. */
module Desk {
  import opened Text
  import opened Glyphs
  import opened Paper
  import opened Wall

  /** Glyphs per line before the carriage wraps: 360 px of paper at 12 px each. */
  const CHARS_PER_LINE := 30
  /** Carriage position at the start of a line. */
  const INITIAL_CARRIAGE_OFFSET := 100
  /** The ink names the ribbon selector sends. */
  const RED_INK := "red"
  const BLACK_INK := "black"

  /** The buffer's state; `carriage`, `paper`, `lineLength` and `lineNumber`
      are kept beside the text rather than recomputed from it. */
  datatype State = State(
    text: string,
    carriage: int,
    paper: int,
    lineLength: int,
    lineNumber: int,
    ink: string,
    notes: seq<Note>)

  const Initial := State("", INITIAL_CARRIAGE_OFFSET, 0, 0, 0, BLACK_INK, [])

  function Max(a: int, b: int): int
  {
    if a >= b then a else b
  }

  /** The ink a selector value paints in. */
  function InkOf(ink: string): string
  {
    if ink == RED_INK then RED else BLACK
  }

  /** The marker a key press writes before its key, judged from the text
      `seen`: with red ink, "§r" unless the last sentinel is followed by 'r';
      with any other ink, "§b" only when it is. */
  function MarkerPrefix(ink: string, seen: string): string
  {
    var last := LastIndexOf(seen, SENTINEL);
    if ink == RED_INK then
      if last == -1 || !CharAtIs(seen, last + 1, RED_TAG) then [SENTINEL, RED_TAG] else ""
    else
      if last != -1 && CharAtIs(seen, last + 1, RED_TAG) then [SENTINEL, BLACK_TAG] else ""
  }

  /** On a sealed text the marker is written exactly when the ink in force at
      the end of the text is not the selected one, and it names the selected
      ink: markers are never doubled. */
  lemma MarkerOnlyOnInkChange(ink: string, seen: string)
    requires Sealed(seen)
    ensures MarkerPrefix(ink, seen) == "" <==> InkAfter(seen, PAPER_SENTINEL, BLACK) == InkOf(ink)
    ensures MarkerPrefix(ink, seen) != "" ==>
              MarkerPrefix(ink, seen) == [SENTINEL, if ink == RED_INK then RED_TAG else BLACK_TAG]
  {
    InkAfterSealed(seen, BLACK);
  }

  /** A line break does not move the last sentinel, so judging the marker from
      the text before an automatic wrap gives the same marker as after it. */
  lemma MarkerIgnoresWrap(ink: string, seen: string)
    ensures MarkerPrefix(ink, seen + "\n") == MarkerPrefix(ink, seen)
  {
    var t := seen + "\n";
    assert t[..|t| - 1] == seen;
    var last := LastIndexOf(seen, SENTINEL);
    assert LastIndexOf(t, SENTINEL) == last;
    assert CharAtIs(t, last + 1, RED_TAG) == CharAtIs(seen, last + 1, RED_TAG);
  }

  /** handleReturn. */
  function Returned(s: State): State
  {
    s.(text := s.text + "\n", carriage := INITIAL_CARRIAGE_OFFSET, paper := s.paper + LINE_HEIGHT,
       lineLength := 0, lineNumber := s.lineNumber + 1)
  }

  /** The state handleKeyPress types into: a full line is returned first. */
  function Wrapped(s: State): State
  {
    if s.lineLength >= CHARS_PER_LINE then Returned(s) else s
  }

  /** handleKeyPress: the marker is judged from the text as it was before any
      wrap, which is what the handler's closure sees. */
  function KeyPressed(s: State, key: char): State
  {
    Typed(Wrapped(s), s.text, key)
  }

  /** The key, with the marker judged from `seen`, typed at the carriage. */
  function Typed(w: State, seen: string, key: char): State
  {
    w.(text := w.text + MarkerPrefix(w.ink, seen) + [key], carriage := w.carriage - CHAR_WIDTH,
       lineLength := w.lineLength + 1)
  }

  /** The length of the last line of `text` without its markers, read from
      `text.split("\n")`. */
  function LastLineWidth(text: string): nat
  {
    var lines := Split(text);
    |StripMarkers(lines[|lines| - 1])|
  }

  /** handleBackspace: nothing on an empty text; a trailing marker goes whole;
      a trailing line break goes and the carriage returns to the end of the
      line before it, its markers not counted; any other character goes and
      the carriage steps back. */
  function Backspaced(s: State): State
  {
    var n := |s.text|;
    if n == 0 then s
    else if EndsWith(s.text, [SENTINEL, RED_TAG]) || EndsWith(s.text, [SENTINEL, BLACK_TAG]) then
      s.(text := s.text[..n - 2])
    else if s.text[n - 1] == '\n' then
      var width := LastLineWidth(s.text[..n - 1]);
      s.(text := s.text[..n - 1], lineNumber := Max(0, s.lineNumber - 1), lineLength := width,
         carriage := INITIAL_CARRIAGE_OFFSET - width * CHAR_WIDTH, paper := Max(0, s.paper - LINE_HEIGHT))
    else
      s.(text := s.text[..n - 1], carriage := s.carriage + CHAR_WIDTH, lineLength := Max(0, s.lineLength - 1))
  }

  /** handleInkColorChange. */
  function InkChanged(s: State, color: string): State
  {
    s.(ink := color)
  }

  /** Decimal digits of `n`, as `Number.prototype.toString` writes them. */
  function DecimalString(n: nat): string
  {
    if n < 10 then ["0123456789"[n]] else DecimalString(n / 10) + ["0123456789"[n % 10]]
  }

  /** handleSendNote at clock reading `now`: a blank text is left alone;
      otherwise the text is archived at the front of the notes and the sheet
      is reset. The selected ink is kept. */
  function Sent(s: State, now: nat): State
  {
    if |Trim(s.text)| == 0 then s
    else s.(notes := [Note(DecimalString(now), s.text, now)] + s.notes, text := "",
            carriage := INITIAL_CARRIAGE_OFFSET, paper := 0, lineLength := 0, lineNumber := 0)
  }

  /** The keydown listener. */
  function KeyDown(s: State, e: KeyEvent): State
  {
    match Dispatch(e)
    case Backspace => Backspaced(s)
    case Return => Returned(s)
    case Press(key) => KeyPressed(s, key)
    case Ignore => s
  }

  /** Glyphs on the line the carriage is on. */
  function VisibleTail(text: string): nat
  {
    |StripMarkers(TailLine(text))|
  }

  /** No line holds more than `width` glyphs. */
  predicate LinesWithin(lines: seq<seq<Glyph>>, width: int)
  {
    forall k :: 0 <= k < |lines| ==> |lines[k]| <= width
  }

  /** The cached fields agree with the text, and no line of the paper is
      longer than the carriage allows. */
  predicate Consistent(s: State)
  {
    && Sealed(s.text)
    && s.lineLength == VisibleTail(s.text)
    && s.carriage == INITIAL_CARRIAGE_OFFSET - CHAR_WIDTH * s.lineLength
    && s.lineNumber == NewlineCount(s.text)
    && s.paper == LINE_HEIGHT * s.lineNumber
    && LinesWithin(Decode(s.text, PAPER_SENTINEL, BLACK), CHARS_PER_LINE)
  }

  /** A blank sheet with the carriage at the margin is consistent, whatever
      the ink and the notes. */
  lemma BlankSheetConsistent(ink: string, notes: seq<Note>)
    ensures Consistent(State("", INITIAL_CARRIAGE_OFFSET, 0, 0, 0, ink, notes))
  {
    assert Decode("", PAPER_SENTINEL, BLACK) == [[]];
  }

  lemma InitialConsistent()
    ensures Consistent(Initial)
  {
    BlankSheetConsistent(BLACK_INK, []);
  }

  /** In a consistent state the line length is the number of glyphs on the
      last line of the paper. */
  lemma LineLengthIsLastLine(s: State)
    requires Consistent(s)
    ensures var d := Decode(s.text, PAPER_SENTINEL, BLACK);
            s.lineLength == |d[|d| - 1]|
  {
    DecodeLastLine(s.text, BLACK);
  }

  /** Every line of a consistent state fits the paper's writing area, so the
      52 characters per line declared by the paper are never reached. */
  lemma LinesFitPaper(s: State)
    requires Consistent(s)
    ensures forall line | line in Decode(s.text, PAPER_SENTINEL, BLACK) ::
              CHAR_WIDTH * |line| <= PAPER_CONTENT_WIDTH && |line| < DECLARED_CHARS_PER_LINE
  {
    var d := Decode(s.text, PAPER_SENTINEL, BLACK);
    forall line | line in d ensures CHAR_WIDTH * |line| <= PAPER_CONTENT_WIDTH {
      var k :| 0 <= k < |d| && d[k] == line;
      assert |d[k]| <= CHARS_PER_LINE;
    }
  }

  lemma ReturnKeepsConsistent(s: State)
    requires Consistent(s)
    ensures Consistent(Returned(s))
  {
    var t := s.text + "\n";
    SealedAppend(s.text, "\n");
    assert t[|t| - 1] == '\n';
    assert TailLine(t) == "";
    NewlineCountAppend(s.text, "\n");
    AppendBreak(s.text, BLACK);
    var d := Decode(s.text, PAPER_SENTINEL, BLACK);
    forall k | 0 <= k < |d + [[]]| ensures |(d + [[]])[k]| <= CHARS_PER_LINE {
      if k < |d| {
        assert (d + [[]])[k] == d[k];
      }
    }
  }

  /** What a key press appends after any wrap. */
  lemma ChunkFacts(prefix: string, key: char)
    requires prefix == "" || prefix == [SENTINEL, RED_TAG] || prefix == [SENTINEL, BLACK_TAG]
    requires key != SENTINEL && key != '\n'
    ensures Sealed(prefix + [key])
    ensures '\n' !in prefix + [key]
    ensures StripMarkers(prefix + [key]) == [key]
  {
    var c := prefix + [key];
    assert StripMarkers([key]) == [key];
    if prefix != "" {
      assert c[2..] == [key];
    }
  }

  /** Text without line breaks, appended after a character that is not a
      sentinel, adds its visible characters to the tail line. */
  lemma TailGrows(base: string, chunk: string)
    requires |base| == 0 || base[|base| - 1] != SENTINEL
    requires '\n' !in chunk
    ensures VisibleTail(base + chunk) == VisibleTail(base) + |StripMarkers(chunk)|
  {
    TailLineAppend(base, chunk);
    TailLineSuffix(base);
    var tail := TailLine(base);
    if |tail| > 0 {
      assert tail[|tail| - 1] == base[|base| - 1];
      PaperSentinel(tail[|tail| - 1]);
    }
    StripMarkersAppend(tail, chunk);
  }

  /** After a sealed text, the marker written for a key press leaves the
      selected ink in force. */
  lemma MarkerSetsInk(base: string, seen: string, ink: string)
    requires Sealed(seen)
    requires |base| == 0 || base[|base| - 1] != SENTINEL
    requires InkAfter(base, PAPER_SENTINEL, BLACK) == InkAfter(seen, PAPER_SENTINEL, BLACK)
    ensures InkAfter(base + MarkerPrefix(ink, seen), PAPER_SENTINEL, BLACK) == InkOf(ink)
  {
    var prefix := MarkerPrefix(ink, seen);
    MarkerOnlyOnInkChange(ink, seen);
    if prefix == "" {
      assert base + prefix == base;
    } else {
      InkAcrossLines(base, BLACK);
    }
  }

  /** A key after a marker or none, itself after a character that is not a
      sentinel, lands at the end of the last line in the ink then in force. */
  lemma TypeDecode(base: string, prefix: string, key: char, ink: string)
    requires |base| == 0 || base[|base| - 1] != SENTINEL
    requires prefix == "" || prefix == [SENTINEL, RED_TAG] || prefix == [SENTINEL, BLACK_TAG]
    requires InkAfter(base + prefix, PAPER_SENTINEL, BLACK) == ink
    requires key != '\n'
    ensures Decode(base + prefix + [key], PAPER_SENTINEL, BLACK)
         == Extend(Decode(base, PAPER_SENTINEL, BLACK), Glyph(key, ink))
  {
    var mid := base + prefix;
    if prefix == "" {
      assert mid == base;
    } else {
      AppendMarker(base, prefix[1], BLACK);
    }
    if |mid| > 0 {
      PaperSentinel(mid[|mid| - 1]);
    }
    AppendGlyph(mid, key, BLACK);
  }

  /** The last character of a sealed text is not a sentinel. */
  lemma SealedLast(s: string)
    requires Sealed(s)
    ensures |s| == 0 || s[|s| - 1] != SENTINEL
  {
  }

  /** Typing `key` with its marker after a sealed `base` adds one glyph, in the
      selected ink, at the end of the last line, and one visible character to
      the tail line. `seen` is the text the marker is judged from. */
  lemma TypeOnto(base: string, seen: string, ink: string, key: char)
    requires Sealed(base) && Sealed(seen)
    requires InkAfter(base, PAPER_SENTINEL, BLACK) == InkAfter(seen, PAPER_SENTINEL, BLACK)
    requires key != SENTINEL && key != '\n'
    ensures Sealed(base + MarkerPrefix(ink, seen) + [key])
    ensures Decode(base + MarkerPrefix(ink, seen) + [key], PAPER_SENTINEL, BLACK)
         == Extend(Decode(base, PAPER_SENTINEL, BLACK), Glyph(key, InkOf(ink)))
    ensures VisibleTail(base + MarkerPrefix(ink, seen) + [key]) == VisibleTail(base) + 1
    ensures NewlineCount(base + MarkerPrefix(ink, seen) + [key]) == NewlineCount(base)
  {
    MarkerOnlyOnInkChange(ink, seen);
    SealedLast(base);
    MarkerSetsInk(base, seen, ink);
    TypeChunk(base, MarkerPrefix(ink, seen), key, InkOf(ink));
  }

  /** Typing `key` after a sealed `base` and a marker, or none, that leaves
      `color` in force. */
  lemma TypeChunk(base: string, prefix: string, key: char, color: string)
    requires Sealed(base)
    requires prefix == "" || prefix == [SENTINEL, RED_TAG] || prefix == [SENTINEL, BLACK_TAG]
    requires InkAfter(base + prefix, PAPER_SENTINEL, BLACK) == color
    requires key != SENTINEL && key != '\n'
    ensures Sealed(base + prefix + [key])
    ensures Decode(base + prefix + [key], PAPER_SENTINEL, BLACK)
         == Extend(Decode(base, PAPER_SENTINEL, BLACK), Glyph(key, color))
    ensures VisibleTail(base + prefix + [key]) == VisibleTail(base) + 1
    ensures NewlineCount(base + prefix + [key]) == NewlineCount(base)
  {
    var chunk := prefix + [key];
    var t := base + prefix + [key];
    assert t == base + chunk;
    ChunkFacts(prefix, key);
    SealedAppend(base, chunk);
    SealedLast(base);
    TypeDecode(base, prefix, key, color);
    TailGrows(base, chunk);
    NewlineCountAppend(base, chunk);
    NewlineCountNone(chunk);
  }

  /** Adding one glyph to a last line shorter than `width` keeps every line
      within `width`. */
  lemma ExtendWithin(d: seq<seq<Glyph>>, g: Glyph, width: int)
    requires |d| >= 1 && LinesWithin(d, width) && |d[|d| - 1]| < width
    ensures LinesWithin(Extend(d, g), width)
  {
    var e := Extend(d, g);
    forall k | 0 <= k < |e| ensures |e[k]| <= width {
      if k < |d| - 1 {
        assert e[k] == d[k];
      }
    }
  }

  /** Removing the glyph added last keeps every line within `width`. */
  lemma UnextendWithin(d: seq<seq<Glyph>>, g: Glyph, width: int)
    requires |d| >= 1 && LinesWithin(Extend(d, g), width)
    ensures LinesWithin(d, width)
  {
    var e := Extend(d, g);
    forall k | 0 <= k < |d| ensures |d[k]| <= width {
      if k < |d| - 1 {
        assert e[k] == d[k];
      } else {
        assert |e[k]| == |d[k]| + 1;
      }
    }
  }

  /** The newly typed character decodes in the selected ink, whatever marker
      and wrap the key press needed, provided the text is sealed and the key is
      neither the sentinel nor a line break. */
  lemma TypedKeyTakesInk(s: State, key: char)
    requires Sealed(s.text)
    requires key != SENTINEL && key != '\n'
    ensures var d := Decode(KeyPressed(s, key).text, PAPER_SENTINEL, BLACK);
            var last := d[|d| - 1];
            |last| > 0 && last[|last| - 1] == Glyph(key, InkOf(s.ink))
  {
    var w := Wrapped(s);
    WrapKeepsInk(s);
    ExtendLast(Decode(w.text, PAPER_SENTINEL, BLACK), Glyph(key, InkOf(s.ink)));
    TypeOnto(w.text, s.text, s.ink, key);
    assert KeyPressed(s, key).text == w.text + MarkerPrefix(s.ink, s.text) + [key];
  }

  /** A wrap before a key keeps the text sealed and the ink in force. */
  lemma WrapKeepsInk(s: State)
    requires Sealed(s.text)
    ensures Sealed(Wrapped(s).text)
    ensures InkAfter(Wrapped(s).text, PAPER_SENTINEL, BLACK) == InkAfter(s.text, PAPER_SENTINEL, BLACK)
  {
    if s.lineLength >= CHARS_PER_LINE {
      SealedAppend(s.text, "\n");
      InkAcrossLines(s.text, BLACK);
      if |s.text| > 0 {
        PaperSentinel(s.text[|s.text| - 1]);
      }
    }
  }

  /** Extending puts the glyph at the end of the last line. */
  lemma ExtendLast(d: seq<seq<Glyph>>, g: Glyph)
    requires |d| >= 1
    ensures var e := Extend(d, g);
            var last := e[|e| - 1];
            |last| > 0 && last[|last| - 1] == g
  {
  }

  lemma KeyPressKeepsConsistent(s: State, key: char)
    requires Consistent(s)
    requires key != SENTINEL && key != '\n'
    ensures Consistent(KeyPressed(s, key))
  {
    if s.lineLength >= CHARS_PER_LINE {
      WrappedKeyKeepsConsistent(s, key);
    } else {
      TypeKeepsConsistent(s, s.text, key);
    }
  }

  /** A key press on a full line: the return, then the key on the new line. */
  lemma WrappedKeyKeepsConsistent(s: State, key: char)
    requires Consistent(s) && s.lineLength >= CHARS_PER_LINE
    requires key != SENTINEL && key != '\n'
    ensures Consistent(KeyPressed(s, key))
  {
    var w := Returned(s);
    ReturnKeepsConsistent(s);
    InkAcrossLines(s.text, BLACK);
    SealedLast(s.text);
    if |s.text| > 0 {
      PaperSentinel(s.text[|s.text| - 1]);
    }
    TypeKeepsConsistent(w, s.text, key);
  }

  /** Typing on a line with room, after any wrap, keeps the state consistent;
      `seen` is the text the marker is judged from. */
  lemma TypeKeepsConsistent(w: State, seen: string, key: char)
    requires Consistent(w) && w.lineLength < CHARS_PER_LINE
    requires Sealed(seen) && InkAfter(w.text, PAPER_SENTINEL, BLACK) == InkAfter(seen, PAPER_SENTINEL, BLACK)
    requires key != SENTINEL && key != '\n'
    ensures Consistent(Typed(w, seen, key))
  {
    TypeOnto(w.text, seen, w.ink, key);
    TypeWithin(w.text, seen, w.ink, key);
  }

  /** A key typed on a line with room keeps every line within the paper. */
  lemma TypeWithin(base: string, seen: string, ink: string, key: char)
    requires Sealed(base) && Sealed(seen)
    requires InkAfter(base, PAPER_SENTINEL, BLACK) == InkAfter(seen, PAPER_SENTINEL, BLACK)
    requires key != SENTINEL && key != '\n'
    requires VisibleTail(base) < CHARS_PER_LINE
    requires LinesWithin(Decode(base, PAPER_SENTINEL, BLACK), CHARS_PER_LINE)
    ensures LinesWithin(Decode(base + MarkerPrefix(ink, seen) + [key], PAPER_SENTINEL, BLACK), CHARS_PER_LINE)
  {
    var d := Decode(base, PAPER_SENTINEL, BLACK);
    DecodeLastLine(base, BLACK);
    ExtendWithin(d, Glyph(key, InkOf(ink)), CHARS_PER_LINE);
    TypeOnto(base, seen, ink, key);
  }

  /** A sealed text that ends in a marker, a line break or a plain character:
      the three cases of a backspace. */
  lemma SealedCut(text: string, k: nat)
    requires Sealed(text) && 0 < k <= 2 && k <= |text|
    requires k == 1 ==> !EndsWith(text, [SENTINEL, RED_TAG]) && !EndsWith(text, [SENTINEL, BLACK_TAG])
    requires k == 2 ==> EndsWith(text, [SENTINEL, RED_TAG]) || EndsWith(text, [SENTINEL, BLACK_TAG])
    ensures Sealed(text[..|text| - k])
    ensures text == text[..|text| - k] + text[|text| - k..]
  {
    var n := |text|;
    if k == 1 && n >= 2 {
      assert text[n - 2..] == [text[n - 2], text[n - 1]];
    } else if k == 2 {
      assert text[n - 2] == SENTINEL;
    }
    SealedPrefix(text, n - k);
  }

  lemma BackspaceKeepsConsistent(s: State)
    requires Consistent(s)
    ensures Consistent(Backspaced(s))
  {
    var n := |s.text|;
    if n > 0 {
      var r := Backspaced(s);
      if EndsWith(s.text, [SENTINEL, RED_TAG]) || EndsWith(s.text, [SENTINEL, BLACK_TAG]) {
        BackspaceOverMarker(s);
      } else if s.text[n - 1] == '\n' {
        BackspaceOverBreakKeepsConsistent(s);
      } else {
        BackspaceOverGlyph(s);
      }
    }
  }

  /** Backspace over a trailing marker removes its two characters and leaves
      the carriage, the line and the paper where they were; the paper looks
      the same. */
  lemma BackspaceOverMarker(s: State)
    requires EndsWith(s.text, [SENTINEL, RED_TAG]) || EndsWith(s.text, [SENTINEL, BLACK_TAG])
    ensures Backspaced(s) == s.(text := s.text[..|s.text| - 2])
    ensures Decode(Backspaced(s).text, PAPER_SENTINEL, BLACK) == Decode(s.text, PAPER_SENTINEL, BLACK)
    ensures Consistent(s) ==> Consistent(Backspaced(s))
  {
    var n := |s.text|;
    var rest := s.text[..n - 2];
    var tag := s.text[n - 1];
    assert s.text[n - 2..] == [SENTINEL, tag];
    assert s.text == rest + [SENTINEL, tag];
    BackspaceMarkerCase(s);
    AppendMarker(rest, tag, BLACK);
    if Consistent(s) {
      SealedCut(s.text, 2);
      MarkerRemoved(rest, tag);
    }
  }

  /** A marker at the end of a sealed text changes neither the paper, nor the
      tail line's glyphs, nor the line count. */
  lemma MarkerRemoved(rest: string, tag: char)
    requires Sealed(rest) && IsTag(tag)
    ensures Decode(rest + [SENTINEL, tag], PAPER_SENTINEL, BLACK) == Decode(rest, PAPER_SENTINEL, BLACK)
    ensures VisibleTail(rest + [SENTINEL, tag]) == VisibleTail(rest)
    ensures NewlineCount(rest + [SENTINEL, tag]) == NewlineCount(rest)
  {
    var m := [SENTINEL, tag];
    AppendMarker(rest, tag, BLACK);
    SealedLast(rest);
    TailGrows(rest, m);
    StripMarkersLoneMarker(tag);
    NewlineCountAppend(rest, m);
    NewlineCountNone(m);
  }

  /** Backspace over a trailing line break returns the carriage to the end of
      the line before it: the line length becomes that line's glyph count, and
      the line number and paper offset step back one line. */
  lemma BackspaceOverBreak(s: State)
    requires Consistent(s)
    requires |s.text| > 0 && s.text[|s.text| - 1] == '\n'
    ensures Backspaced(s).text == s.text[..|s.text| - 1]
    ensures Backspaced(s).lineNumber == s.lineNumber - 1
    ensures Backspaced(s).paper == s.paper - LINE_HEIGHT
    ensures var d := Decode(s.text[..|s.text| - 1], PAPER_SENTINEL, BLACK);
            Backspaced(s).lineLength == |d[|d| - 1]|
    ensures Backspaced(s).carriage == INITIAL_CARRIAGE_OFFSET - CHAR_WIDTH * Backspaced(s).lineLength
  {
    var rest := s.text[..|s.text| - 1];
    assert s.text == rest + "\n";
    BreakRemoved(rest);
    BackspaceBreakCase(s);
  }

  /** ... and keeps the state consistent. */
  lemma BackspaceOverBreakKeepsConsistent(s: State)
    requires Consistent(s)
    requires |s.text| > 0 && s.text[|s.text| - 1] == '\n'
    ensures Consistent(Backspaced(s))
  {
    var rest := s.text[..|s.text| - 1];
    assert s.text == rest + "\n";
    SealedBeforeBreak(s.text, rest);
    BreakRemoved(rest);
    UnbreakConsistent(s, rest);
    BreakCaseUnbroken(s, rest);
  }

  /** The text before a trailing line break is sealed when the text is. */
  lemma SealedBeforeBreak(text: string, rest: string)
    requires Sealed(text) && text == rest + "\n"
    ensures Sealed(rest)
  {
    var n := |text|;
    assert !EndsWith(text, [SENTINEL, RED_TAG]) && !EndsWith(text, [SENTINEL, BLACK_TAG]) by {
      if n >= 2 {
        assert text[n - 2..][1] == '\n';
      }
    }
    SealedCut(text, 1);
    assert text[..n - 1] == rest;
  }

  /** The line-break branch of backspace, once the line before the break is
      known to be as long as the tail's visible part. */
  lemma BreakCaseUnbroken(s: State, rest: string)
    requires s.text == rest + "\n"
    requires s.lineNumber >= 1 && s.paper >= LINE_HEIGHT
    requires LastLineWidth(rest) == VisibleTail(rest)
    ensures Backspaced(s) == Unbroken(s, rest)
  {
    BackspaceBreakCase(s);
    assert s.text[..|s.text| - 1] == rest;
  }

  /** The state after removing the line break that ends `rest + "\n"`. */
  function Unbroken(s: State, rest: string): State
  {
    s.(text := rest, lineNumber := s.lineNumber - 1, lineLength := VisibleTail(rest),
       carriage := INITIAL_CARRIAGE_OFFSET - VisibleTail(rest) * CHAR_WIDTH, paper := s.paper - LINE_HEIGHT)
  }

  lemma UnbreakConsistent(s: State, rest: string)
    requires Consistent(s) && s.text == rest + "\n" && Sealed(rest)
    ensures Consistent(Unbroken(s, rest))
  {
    BreakRemoved(rest);
  }

  /** The branch a backspace takes over a trailing line break. */
  lemma BackspaceBreakCase(s: State)
    requires |s.text| > 0 && s.text[|s.text| - 1] == '\n'
    ensures var width := LastLineWidth(s.text[..|s.text| - 1]);
            Backspaced(s) == s.(text := s.text[..|s.text| - 1], lineNumber := Max(0, s.lineNumber - 1),
                                lineLength := width, carriage := INITIAL_CARRIAGE_OFFSET - width * CHAR_WIDTH,
                                paper := Max(0, s.paper - LINE_HEIGHT))
  {
    var n := |s.text|;
    assert !EndsWith(s.text, [SENTINEL, RED_TAG]) && !EndsWith(s.text, [SENTINEL, BLACK_TAG]) by {
      if n >= 2 {
        assert s.text[n - 2..][1] == '\n';
      }
    }
  }

  /** The line before a trailing line break: its piece of the split, without
      markers, is as long as the last decoded line and the tail line's visible
      part, and removing the break keeps every line within the paper. */
  lemma BreakRemoved(rest: string)
    ensures LastLineWidth(rest) == VisibleTail(rest)
    ensures var d := Decode(rest, PAPER_SENTINEL, BLACK);
            |d[|d| - 1]| == VisibleTail(rest)
    ensures LinesWithin(Decode(rest + "\n", PAPER_SENTINEL, BLACK), CHARS_PER_LINE) ==>
              LinesWithin(Decode(rest, PAPER_SENTINEL, BLACK), CHARS_PER_LINE)
    ensures NewlineCount(rest + "\n") == NewlineCount(rest) + 1
  {
    NewlineCountAppend(rest, "\n");
    SplitLast(rest);
    DecodeLastLine(rest, BLACK);
    AppendBreak(rest, BLACK);
    WithinWithoutLast(Decode(rest, PAPER_SENTINEL, BLACK), CHARS_PER_LINE);
  }

  /** Dropping a trailing empty line keeps every line within `width`. */
  lemma WithinWithoutLast(d: seq<seq<Glyph>>, width: int)
    ensures LinesWithin(d + [[]], width) ==> LinesWithin(d, width)
  {
    if LinesWithin(d + [[]], width) {
      forall k | 0 <= k < |d| ensures |d[k]| <= width {
        assert (d + [[]])[k] == d[k];
      }
    }
  }

  /** Backspace over any other character removes it and steps the carriage
      back one glyph. */
  lemma BackspaceOverGlyph(s: State)
    requires Consistent(s)
    requires |s.text| > 0 && s.text[|s.text| - 1] != '\n'
    requires !EndsWith(s.text, [SENTINEL, RED_TAG]) && !EndsWith(s.text, [SENTINEL, BLACK_TAG])
    ensures Backspaced(s) == s.(text := s.text[..|s.text| - 1], carriage := s.carriage + CHAR_WIDTH,
                                lineLength := s.lineLength - 1)
    ensures Consistent(Backspaced(s))
  {
    var n := |s.text|;
    var rest := s.text[..n - 1];
    var c := s.text[n - 1];
    SealedCut(s.text, 1);
    assert s.text == rest + [c];
    SealedLast(s.text);
    GlyphRemoved(rest, c);
    BackspaceGlyphCase(s);
  }

  /** A plain character at the end of a sealed text is one glyph on the last
      line, one visible character of the tail line and no line break. */
  lemma GlyphRemoved(rest: string, c: char)
    requires Sealed(rest) && c != SENTINEL && c != '\n'
    ensures LinesWithin(Decode(rest + [c], PAPER_SENTINEL, BLACK), CHARS_PER_LINE) ==>
              LinesWithin(Decode(rest, PAPER_SENTINEL, BLACK), CHARS_PER_LINE)
    ensures VisibleTail(rest + [c]) == VisibleTail(rest) + 1
    ensures NewlineCount(rest + [c]) == NewlineCount(rest)
  {
    SealedLast(rest);
    if |rest| > 0 {
      PaperSentinel(rest[|rest| - 1]);
    }
    AppendGlyph(rest, c, BLACK);
    var d := Decode(rest, PAPER_SENTINEL, BLACK);
    var g := Glyph(c, InkAfter(rest, PAPER_SENTINEL, BLACK));
    if LinesWithin(Extend(d, g), CHARS_PER_LINE) {
      UnextendWithin(d, g, CHARS_PER_LINE);
    }
    TailGrows(rest, [c]);
    assert StripMarkers([c]) == [c];
    NewlineCountAppend(rest, [c]);
    NewlineCountNone([c]);
  }

  /** Backspace on an empty text changes nothing. */
  lemma BackspaceOnEmpty(s: State)
    requires s.text == ""
    ensures Backspaced(s) == s
  {
  }

  /** The branch a backspace takes over a trailing marker. */
  lemma BackspaceMarkerCase(s: State)
    requires EndsWith(s.text, [SENTINEL, RED_TAG]) || EndsWith(s.text, [SENTINEL, BLACK_TAG])
    ensures Backspaced(s) == s.(text := s.text[..|s.text| - 2])
  {
  }

  /** The branch a backspace takes over a trailing glyph. */
  lemma BackspaceGlyphCase(s: State)
    requires |s.text| > 0 && s.text[|s.text| - 1] != '\n'
    requires !EndsWith(s.text, [SENTINEL, RED_TAG]) && !EndsWith(s.text, [SENTINEL, BLACK_TAG])
    ensures Backspaced(s) == s.(text := s.text[..|s.text| - 1], carriage := s.carriage + CHAR_WIDTH,
                                lineLength := Max(0, s.lineLength - 1))
  {
  }

  /** A key press on a line with room that needs no marker appends exactly the
      key and moves the carriage one glyph; a backspace then restores the state
      exactly. */
  lemma KeyPressThenBackspace(s: State, key: char)
    requires 0 <= s.lineLength < CHARS_PER_LINE
    requires key != '\n'
    requires MarkerPrefix(s.ink, s.text) == "" && Seam(s.text, [key], PAPER_SENTINEL)
    ensures KeyPressed(s, key) == s.(text := s.text + [key], carriage := s.carriage - CHAR_WIDTH,
                                     lineLength := s.lineLength + 1)
    ensures Backspaced(KeyPressed(s, key)) == s
  {
    var t := s.text + [key];
    var n := |t|;
    var r1 := KeyPressed(s, key);
    assert r1 == s.(text := t, carriage := s.carriage - CHAR_WIDTH, lineLength := s.lineLength + 1);
    assert t[n - 1] == key && t[..n - 1] == s.text;
    if |s.text| > 0 {
      PaperSentinel(s.text[|s.text| - 1]);
    }
    if n >= 2 {
      assert t[n - 2..] == [t[n - 2], key];
    }
    assert !EndsWith(t, [SENTINEL, RED_TAG]) && !EndsWith(t, [SENTINEL, BLACK_TAG]);
    BackspaceGlyphCase(r1);
  }

  /** When the key press needs a marker, two backspaces restore the state
      exactly: the first removes the key, the second the marker. */
  lemma MarkedKeyPressThenBackspace(s: State, key: char)
    requires 0 <= s.lineLength < CHARS_PER_LINE
    requires key != '\n'
    requires MarkerPrefix(s.ink, s.text) != ""
    ensures Backspaced(Backspaced(KeyPressed(s, key))) == s
  {
    var prefix := MarkerPrefix(s.ink, s.text);
    var u := s.text + prefix;
    KeyThenBackspaceLeavesMarker(s, key);
    var r2 := s.(text := u);
    assert u[|u| - 2..] == prefix;
    BackspaceMarkerCase(r2);
    assert u[..|u| - 2] == s.text;
  }

  /** The first of those backspaces removes the key and leaves its marker. */
  lemma KeyThenBackspaceLeavesMarker(s: State, key: char)
    requires 0 <= s.lineLength < CHARS_PER_LINE
    requires key != '\n'
    requires MarkerPrefix(s.ink, s.text) != ""
    ensures Backspaced(KeyPressed(s, key)) == s.(text := s.text + MarkerPrefix(s.ink, s.text))
  {
    var prefix := MarkerPrefix(s.ink, s.text);
    assert |prefix| == 2 && prefix[0] == SENTINEL && IsTag(prefix[1]);
    var u := s.text + prefix;
    var t := u + [key];
    var n := |t|;
    var r1 := KeyPressed(s, key);
    assert r1 == s.(text := t, carriage := s.carriage - CHAR_WIDTH, lineLength := s.lineLength + 1);
    assert t[n - 1] == key && t[..n - 1] == u;
    assert t[n - 2..] == [prefix[1], key];
    assert !EndsWith(t, [SENTINEL, RED_TAG]) && !EndsWith(t, [SENTINEL, BLACK_TAG]);
    BackspaceGlyphCase(r1);
  }

  /** A return followed by a backspace restores a consistent state exactly. */
  lemma ReturnThenBackspace(s: State)
    requires Consistent(s)
    ensures Backspaced(Returned(s)) == s
  {
    var r := Returned(s);
    assert r.text[..|r.text| - 1] == s.text;
    BackspaceBreakCase(r);
    SplitLast(s.text);
  }

  /** On a full line a key press first returns the carriage: the text gains a
      line break before the key (and its marker), the key opens a new line,
      and the paper advances one line. After any key press the line length is
      at most the characters per line. */
  lemma AutoWrap(s: State, key: char)
    ensures KeyPressed(s, key).lineLength <= CHARS_PER_LINE
    ensures s.lineLength >= CHARS_PER_LINE ==>
              var r := KeyPressed(s, key);
              && r.text == s.text + "\n" + MarkerPrefix(s.ink, s.text) + [key]
              && r.lineLength == 1
              && r.carriage == INITIAL_CARRIAGE_OFFSET - CHAR_WIDTH
              && r.lineNumber == s.lineNumber + 1
              && r.paper == s.paper + LINE_HEIGHT
  {
  }

  /** A key press grows the text by the key, a marker of two characters or
      none, and a line break when it wraps. */
  lemma KeyPressGrowth(s: State, key: char)
    ensures var r := KeyPressed(s, key);
            var wrap := if s.lineLength >= CHARS_PER_LINE then 1 else 0;
            |r.text| == |s.text| + wrap + 1 || |r.text| == |s.text| + wrap + 3
  {
  }

  /** The sentinel is an ordinary key, so typing '§' then 'r' on a fresh sheet
      writes a red marker: the two keys show nothing on the paper although the
      carriage moved twice, and a backspace removes both at once and leaves the
      carriage two glyphs from the margin on an empty sheet. */
  lemma SentinelKeyCollision()
    ensures var s1 := KeyPressed(Initial, SENTINEL);
            var s2 := KeyPressed(s1, RED_TAG);
            var s3 := Backspaced(s2);
            && s2.text == [SENTINEL, RED_TAG]
            && Decode(s2.text, PAPER_SENTINEL, BLACK) == [[]]
            && s2.lineLength == 2
            && s3.text == ""
            && s3.carriage == INITIAL_CARRIAGE_OFFSET - 2 * CHAR_WIDTH
            && !Consistent(s3)
  {
    var s1 := KeyPressed(Initial, SENTINEL);
    assert s1.text == [SENTINEL];
    assert LastIndexOf(s1.text, SENTINEL) == 0;
    var s2 := KeyPressed(s1, RED_TAG);
    assert s2.text == [SENTINEL, RED_TAG];
    assert s2.text[2..] == "";
    assert EndsWith(s2.text, [SENTINEL, RED_TAG]);
  }

  /** A blank text is not sent; any other is archived at the front of the
      notes, unchanged, and the sheet starts afresh in the same ink. The send
      button is shown exactly when sending changes the state. */
  lemma SendGuard(s: State, now: nat)
    ensures !ShowsSendButton(s.text) ==> Sent(s, now) == s
    ensures ShowsSendButton(s.text) ==>
              Sent(s, now) == State("", INITIAL_CARRIAGE_OFFSET, 0, 0, 0, s.ink,
                                    [Note(DecimalString(now), s.text, now)] + s.notes)
    ensures ShowsSendButton(s.text) <==> Sent(s, now) != s
  {
    if ShowsSendButton(s.text) {
      assert |s.text| > 0;
    }
  }

  lemma SendKeepsConsistent(s: State, now: nat)
    requires Consistent(s)
    ensures Consistent(Sent(s, now))
  {
    BlankSheetConsistent(s.ink, [Note(DecimalString(now), s.text, now)] + s.notes);
  }

  /** Every handler keeps the state consistent, as long as no key typed is the
      sentinel or a line break. */
  lemma KeyDownKeepsConsistent(s: State, e: KeyEvent)
    requires Consistent(s)
    requires Dispatch(e).Press? ==> Dispatch(e).key != SENTINEL && Dispatch(e).key != '\n'
    ensures Consistent(KeyDown(s, e))
  {
    match Dispatch(e)
    case Backspace => BackspaceKeepsConsistent(s);
    case Return => ReturnKeepsConsistent(s);
    case Press(key) => KeyPressKeepsConsistent(s, key);
    case Ignore =>
  }

  /** The buffer as the App component holds it. */
  class Desk {
    var currentText: string
    var carriageOffset: int
    var paperOffset: int
    var currentLineLength: int
    var currentLineNumber: int
    var inkColor: string
    var notes: seq<Note>

    function Snapshot(): State
      reads this
    {
      State(currentText, carriageOffset, paperOffset, currentLineLength, currentLineNumber, inkColor, notes)
    }

    predicate Valid()
      reads this
    {
      Consistent(Snapshot())
    }

    constructor ()
      ensures Snapshot() == Initial
      ensures Valid()
    {
      currentText := "";
      carriageOffset := INITIAL_CARRIAGE_OFFSET;
      paperOffset := 0;
      currentLineLength := 0;
      currentLineNumber := 0;
      inkColor := BLACK_INK;
      notes := [];
      InitialConsistent();
    }

    method HandleReturn()
      modifies this
      ensures Snapshot() == Returned(old(Snapshot()))
      ensures old(Valid()) ==> Valid()
    {
      ghost var before := Snapshot();
      currentText := currentText + "\n";
      carriageOffset := INITIAL_CARRIAGE_OFFSET;
      paperOffset := paperOffset + LINE_HEIGHT;
      currentLineLength := 0;
      currentLineNumber := currentLineNumber + 1;
      assert Snapshot() == Returned(before);
      if Consistent(before) {
        ReturnKeepsConsistent(before);
        assert Valid();
      }
    }

    method HandleKeyPress(key: char)
      modifies this
      ensures Snapshot() == KeyPressed(old(Snapshot()), key)
      ensures old(Valid()) && key != SENTINEL && key != '\n' ==> Valid()
    {
      ghost var before := Snapshot();
      var seen := currentText;
      if currentLineLength >= CHARS_PER_LINE {
        HandleReturn();
      }
      ghost var w := Snapshot();
      assert w == Wrapped(before);
      var textToAdd := [key];
      var lastColorMarker := LastIndexOf(seen, SENTINEL);
      if inkColor == RED_INK {
        if lastColorMarker == -1 || !CharAtIs(seen, lastColorMarker + 1, RED_TAG) {
          textToAdd := [SENTINEL, RED_TAG] + [key];
        }
      } else if lastColorMarker != -1 && CharAtIs(seen, lastColorMarker + 1, RED_TAG) {
        textToAdd := [SENTINEL, BLACK_TAG] + [key];
      }
      assert textToAdd == MarkerPrefix(w.ink, seen) + [key];
      ConcatAssoc(w.text, MarkerPrefix(w.ink, seen), [key]);
      currentText := currentText + textToAdd;
      carriageOffset := carriageOffset - CHAR_WIDTH;
      currentLineLength := currentLineLength + 1;
      assert Snapshot() == Typed(w, seen, key);
      if Consistent(before) && key != SENTINEL && key != '\n' {
        KeyPressKeepsConsistent(before, key);
        assert Valid();
      }
    }

    method HandleBackspace()
      modifies this
      ensures Snapshot() == Backspaced(old(Snapshot()))
      ensures old(Valid()) ==> Valid()
    {
      ghost var before := Snapshot();
      if |currentText| == 0 {
        return;
      }
      var prev := currentText;
      if EndsWith(prev, [SENTINEL, RED_TAG]) || EndsWith(prev, [SENTINEL, BLACK_TAG]) {
        BackspaceMarkerCase(before);
        currentText := prev[..|prev| - 2];
        assert Snapshot() == Backspaced(before);
      } else {
        var lastChar := prev[|prev| - 1];
        if lastChar == '\n' {
          BackspaceBreakCase(before);
          currentLineNumber := Max(0, currentLineNumber - 1);
          var lines := Split(prev[..|prev| - 1]);
          var prevLine := lines[|lines| - 1];
          var visible := StripMarkers(prevLine);
          currentLineLength := |visible|;
          carriageOffset := INITIAL_CARRIAGE_OFFSET - |visible| * CHAR_WIDTH;
          paperOffset := Max(0, paperOffset - LINE_HEIGHT);
          currentText := prev[..|prev| - 1];
          assert Snapshot() == Backspaced(before);
        } else {
          BackspaceGlyphCase(before);
          carriageOffset := carriageOffset + CHAR_WIDTH;
          currentLineLength := Max(0, currentLineLength - 1);
          currentText := prev[..|prev| - 1];
          assert Snapshot() == Backspaced(before);
        }
      }
      ghost var after := Snapshot();
      assert after == Backspaced(before);
      if Consistent(before) {
        BackspaceKeepsConsistent(before);
        assert Consistent(after);
      }
    }

    method HandleInkColorChange(color: string)
      modifies this
      ensures Snapshot() == InkChanged(old(Snapshot()), color)
      ensures old(Valid()) ==> Valid()
    {
      inkColor := color;
    }

    /** The sheet is reset at once here; the saving of the note elsewhere is
        not part of this model. */
    method HandleSendNote(now: nat)
      modifies this
      ensures Snapshot() == Sent(old(Snapshot()), now)
      ensures |Trim(old(currentText))| > 0 || old(Valid()) ==> Valid()
    {
      ghost var before := Snapshot();
      if |Trim(currentText)| == 0 {
        return;
      }
      var newNote := Note(DecimalString(now), currentText, now);
      notes := [newNote] + notes;
      currentText := "";
      carriageOffset := INITIAL_CARRIAGE_OFFSET;
      paperOffset := 0;
      currentLineLength := 0;
      currentLineNumber := 0;
      assert Snapshot() == Sent(before, now);
      BlankSheetConsistent(inkColor, notes);
      assert Valid();
    }

    /** The keydown listener the paper installs. */
    method HandleKeyDown(e: KeyEvent)
      modifies this
      ensures Snapshot() == KeyDown(old(Snapshot()), e)
      ensures old(Valid()) && (Dispatch(e).Press? ==> Dispatch(e).key != SENTINEL && Dispatch(e).key != '\n')
              ==> Valid()
    {
      match Dispatch(e)
      case Backspace => HandleBackspace();
      case Return => HandleReturn();
      case Press(key) => HandleKeyPress(key);
      case Ignore =>
    }
  }
}
