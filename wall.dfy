/** The wall of archived notes (src/app/components/NotesWall.tsx): each note
    is decoded into coloured lines as the live paper is, and its card shows at
    most fourteen of them. */
module Wall {
  import opened Text
  import opened Glyphs

  /** An archived page. */
  datatype Note = Note(id: string, content: string, timestamp: int)

  /** The sentinel literal the card decoder compares against. It is the UTF-8
      encoding of '§' (bytes C2 A7) read back as TIS-620 Thai: two characters,
      U+0E22 and U+0E07. */
  const CARD_SENTINEL: Sentinel := "\U{E22}\U{E07}"

  /** Lines a card shows before it is cut off. */
  const MAX_CARD_LINES := 14

  /** No single character equals the two-character card sentinel. */
  lemma CardSentinelNeverMatches(c: char)
    ensures !IsSentinel(c, CARD_SENTINEL)
  {
  }

  /** So no content holds a marker the card decoder recognises. */
  lemma CardContentMarkerFree(content: string)
    ensures MarkerFree(content, CARD_SENTINEL)
  {
    forall i | 0 <= i < |content| - 1
      ensures !(IsSentinel(content[i], CARD_SENTINEL) && IsTag(content[i + 1]))
    {
      CardSentinelNeverMatches(content[i]);
    }
  }

  /** parseNoteContent as written: the pass of the live paper, compared against
      the two-character sentinel. Every line break separates two lines and every
      other character, '§', 'r' and 'b' included, is a black glyph, in order. */
  method ParseNoteContent(content: string) returns (lines: seq<seq<Glyph>>)
    ensures lines == Decode(content, CARD_SENTINEL, BLACK)
    ensures content == "" ==> lines == [[]]
    ensures |lines| == NewlineCount(content) + 1
    ensures NoBreakGlyph(lines)
    ensures Flatten(lines) == content
    ensures AllInk(lines, BLACK)
  {
    lines := Scan(content, CARD_SENTINEL);
    DecodeLineCount(content, CARD_SENTINEL, BLACK);
    DecodeNoBreakGlyph(content, CARD_SENTINEL, BLACK);
    CardContentMarkerFree(content);
    MarkerFreeFlatten(content, CARD_SENTINEL, BLACK);
    MarkerFreeInk(content, CARD_SENTINEL, BLACK);
  }

  /** parseNoteContent with the sentinel the buffer writes: the card then reads
      a note exactly as the live paper read it while it was typed. */
  method ParseNoteContentIntended(content: string) returns (lines: seq<seq<Glyph>>)
    ensures lines == Decode(content, PAPER_SENTINEL, BLACK)
    ensures content == "" ==> lines == [[]]
    ensures |lines| == NewlineCount(content) + 1
    ensures NoBreakGlyph(lines)
    ensures Flatten(lines) == StripMarkers(content)
  {
    lines := Scan(content, PAPER_SENTINEL);
    DecodeLineCount(content, PAPER_SENTINEL, BLACK);
    DecodeNoBreakGlyph(content, PAPER_SENTINEL, BLACK);
    DecodeFlatten(content, BLACK);
  }

  /** A note typed as "§r" then 'X' (red ink, one key): the paper shows a red
      X, the card as written shows the marker's two characters and a black X. */
  lemma CardShowsMarkers()
    ensures Decode([SENTINEL, RED_TAG, 'X'], PAPER_SENTINEL, BLACK) == [[Glyph('X', RED)]]
    ensures Decode([SENTINEL, RED_TAG, 'X'], CARD_SENTINEL, BLACK)
         == [[Glyph(SENTINEL, BLACK), Glyph(RED_TAG, BLACK), Glyph('X', BLACK)]]
  {
    var s := [SENTINEL, RED_TAG, 'X'];
    assert s[2..] == "X";
    SingleGlyph('X', PAPER_SENTINEL, RED);
    SingleGlyph('X', CARD_SENTINEL, BLACK);
    CardSentinelNeverMatches(SENTINEL);
    CardSentinelNeverMatches(RED_TAG);
    CardGlyphThen(RED_TAG, "X");
    var dx := Decode("X", CARD_SENTINEL, BLACK);
    assert dx == [[Glyph('X', BLACK)]];
    assert [Glyph(RED_TAG, BLACK)] + dx[0] == [Glyph(RED_TAG, BLACK), Glyph('X', BLACK)];
    assert dx[1..] == [];
    assert [RED_TAG] + "X" == s[1..];
    var d := Decode(s[1..], CARD_SENTINEL, BLACK);
    assert d == [[Glyph(RED_TAG, BLACK), Glyph('X', BLACK)]];
    CardGlyphThen(SENTINEL, s[1..]);
    assert [SENTINEL] + s[1..] == s;
    assert [Glyph(SENTINEL, BLACK)] + d[0] == [Glyph(SENTINEL, BLACK), Glyph(RED_TAG, BLACK), Glyph('X', BLACK)];
  }

  /** On a card as written, a character other than a line break always opens
      with a black glyph of its own. */
  lemma CardGlyphThen(c: char, t: string)
    requires c != '\n'
    ensures var d := Decode(t, CARD_SENTINEL, BLACK);
            Decode([c] + t, CARD_SENTINEL, BLACK) == [[Glyph(c, BLACK)] + d[0]] + d[1..]
  {
    CardSentinelNeverMatches(c);
    assert ([c] + t)[1..] == t;
  }

  /** What a card shows: its first lines, and whether the ellipsis follows. */
  datatype CardFace = CardFace(shown: seq<seq<Glyph>>, ellipsis: bool)

  /** `lines.slice(0, 14)` and `lines.length > 14`. */
  function CardView(lines: seq<seq<Glyph>>): (face: CardFace)
    ensures |face.shown| <= MAX_CARD_LINES && |face.shown| <= |lines|
    ensures face.shown == lines[..|face.shown|]
    ensures |lines| <= MAX_CARD_LINES ==> face.shown == lines
    ensures face.ellipsis <==> |lines| > MAX_CARD_LINES
    ensures face.ellipsis <==> |face.shown| < |lines|
    ensures |face.shown| == if |lines| <= MAX_CARD_LINES then |lines| else MAX_CARD_LINES
  {
    CardFace(if |lines| <= MAX_CARD_LINES then lines else lines[..MAX_CARD_LINES],
             |lines| > MAX_CARD_LINES)
  }

  /** The card of a note as the wall renders it, through the decoder as
      written: the ellipsis shows exactly when the note has more than thirteen
      line breaks, every shown glyph is black, and the cut is the one the
      corrected decoder would give. */
  function NoteCard(note: Note): (face: CardFace)
    ensures face.ellipsis <==> NewlineCount(note.content) >= MAX_CARD_LINES
    ensures |face.shown| == if NewlineCount(note.content) < MAX_CARD_LINES
                             then NewlineCount(note.content) + 1 else MAX_CARD_LINES
    ensures AllInk(face.shown, BLACK)
    ensures var intended := CardView(Decode(note.content, PAPER_SENTINEL, BLACK));
            |face.shown| == |intended.shown| && face.ellipsis == intended.ellipsis
  {
    DecodeLineCount(note.content, CARD_SENTINEL, BLACK);
    DecodeLineCount(note.content, PAPER_SENTINEL, BLACK);
    CardContentMarkerFree(note.content);
    MarkerFreeInk(note.content, CARD_SENTINEL, BLACK);
    var lines := Decode(note.content, CARD_SENTINEL, BLACK);
    var face := CardView(lines);
    face
  }
}
