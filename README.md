# Typewriter: the buffer, the paper and the notes wall

This project models the core of a browser typewriter. The user types onto a
sheet of paper. The carriage moves one glyph per key and wraps at thirty
glyphs per line. Ink is black or red. A finished page is sent to a wall of
archived notes, where each note shows as a small card.

Ink changes are recorded inside the text itself. Before a key typed in a new
ink, the keyboard handler writes a two-character marker: `§r` for red, `§b`
for black. The paper and the note cards both decode the raw text again with
the same left-to-right scan. A marker switches the ink and shows nothing, a
line break closes a line, and every other character is a glyph in the ink in
force. Beside the text, the buffer caches the carriage offset, the paper
offset, and the current line's length and number. Backspace reads these back.

The Dafny modules follow the source files:

- `Text` (`text.dfy`): the JavaScript string operations the handlers use.
  These are `lastIndexOf`, `split("\n")`, `trim`, `endsWith` and indexing
  past either end. `JoinLines` is not a call the code makes: it is the
  inverse of `split`, used only to state the split round trip.
- `Glyphs` (`glyphs.dfy`): the marker alphabet and the line decoder.
  `Decode` is the reference definition. `Scan` is the loop as written, proved
  equal to it. The decoder takes the sentinel literal as a parameter because
  the paper and the cards compare against different literals. `StripMarkers`
  is the backspace handler's `replace(/§[rb]/g, "")`.
- `Paper` (`paper.dfy`): `src/app/components/Typewriter.tsx`. It covers the
  line builder, the keydown dispatcher and its `preventDefault` guard, and the
  send button's condition.
- `Wall` (`wall.dfy`): `src/app/components/NotesWall.tsx`. It covers the card
  decoder, as written and corrected, and the fourteen-line cut with its
  ellipsis.
- `Desk` (`desk.dfy`): `src/app/App.tsx`. The `State` datatype and one
  function per handler (`Returned`, `KeyPressed`, `Backspaced`, `InkChanged`,
  `Sent`, `KeyDown`) say what each handler does as one atomic transition. The
  class `Desk.Desk` holds the component's state as fields. Its methods perform
  each handler field by field, and each method is proved to produce exactly
  the transition's result.

The main invariant is `Desk.Consistent`. It requires the following:

- every sentinel in the text begins a marker;
- the cached line length is the visible length of the text after the last
  line break;
- the carriage is at `100 - 12 * lineLength`;
- the line number is the number of line breaks;
- the paper offset is `24 * lineNumber`;
- no decoded line holds more than thirty glyphs.

Every handler keeps the invariant, provided the typed key is neither `§` nor
a line break. For `§` the invariant does fail: `Desk.SentinelKeyCollision`
shows typing `§` then `r` on a fresh sheet. The two keys write a red marker.
The paper shows nothing, yet the carriage moved twice. A backspace then
removes both characters at once and leaves the carriage two glyphs from the
margin on an empty sheet. The source's behaviour here is modelled faithfully.
It is not listed as a finding because the source gives no other intended
behaviour to prove.

Two behaviours of the code worth stating plainly:

- Sending a note keeps the selected ink. The code clears only the text and
  the four cached positions (`src/app/App.tsx:234-242`).
- The cached fields are not recomputed from the text on every mutation.
  They are updated by increments, which is why the `§` key can desynchronise
  them.

## Model

| member | source | states |
|---|---|---|
| Text.LastIndexOf | src/app/App.tsx:113 | -1 exactly when the character does not occur; otherwise an index holding it, with no later occurrence |
| Text.Split | src/app/App.tsx:154 | one more piece than the text has line breaks; no piece holds a line break |
| Text.SplitJoin | src/app/App.tsx:154 | joining the split pieces with line breaks gives back the text |
| Text.SplitLast | src/app/App.tsx:154-155 | the last piece of the split is the text after the last line break |
| Text.TrimEmptyIffBlank | src/app/App.tsx:191 | the trimmed text is empty exactly when every character is JavaScript whitespace |
| Glyphs.IsSentinel | src/app/components/NotesWall.tsx:24 | a character equals the sentinel literal exactly when the literal is that one character |
| Glyphs.Scan | src/app/components/Typewriter.tsx:72-98 | the loop, with its index skip after a marker and its final push, computes `Decode` of the text from black ink |
| Glyphs.DecodeLineCount | src/app/components/Typewriter.tsx:91-98 | the decoder yields exactly one line more than there are line breaks, the last line always included |
| Glyphs.DecodeNoBreakGlyph | src/app/components/Typewriter.tsx:91-96 | no decoded glyph is a line break |
| Glyphs.DecodeAppend | src/app/components/Typewriter.tsx:77-97 | decoding `s + t` decodes `s`, then `t` from the ink `s` left, the last line of one running into the first of the other, unless a marker straddles the seam |
| Glyphs.InkAfterAppend | src/app/components/Typewriter.tsx:75-89 | the ink after `s + t` is the ink after `t` started from the ink after `s` |
| Glyphs.StripMarkersCounts | src/app/App.tsx:156 | removing the markers takes two characters per marker and no line break |
| Glyphs.StripMarkersAppend | src/app/App.tsx:156 | marker removal distributes over a concatenation that no marker straddles |
| Glyphs.DecodeFlatten | src/app/components/Typewriter.tsx:77-98 | joining the decoded lines with line breaks gives the text with every marker removed |
| Glyphs.GlyphCount | src/app/components/Typewriter.tsx:77-98 | the paper shows one glyph per character, less the line breaks and two characters per marker |
| Glyphs.MarkerFreeFlatten | src/app/components/NotesWall.tsx:20-41 | text without markers is shown verbatim |
| Glyphs.MarkerFreeInk | src/app/components/NotesWall.tsx:20-41 | text without markers shows every glyph in the starting ink |
| Glyphs.InkAfterSealed | src/app/App.tsx:109-124 | when every sentinel starts a marker, the decoder's final ink is the one named by the tag after the last sentinel, which is what the key handler inspects |
| Glyphs.DecodeLastLine | src/app/components/Typewriter.tsx:91-98 | the paper's last line shows the text after the last line break, markers removed |
| Paper.LayoutLines | src/app/components/Typewriter.tsx:72-98 | the paper's lines are the decoding of the buffer from black: one per line break plus one, none containing a line break, their texts joined being the text without markers, and as many glyphs as visible characters |
| Paper.AppendBreak | src/app/components/Typewriter.tsx:91-93 | a trailing line break adds one empty line |
| Paper.AppendMarker | src/app/components/Typewriter.tsx:81-89 | a trailing marker changes no line |
| Paper.AppendGlyph | src/app/components/Typewriter.tsx:94-96 | a trailing character that completes no marker lands at the end of the last line in the ink in force |
| Paper.InkAcrossLines | src/app/components/Typewriter.tsx:75-93 | the ink starts black, follows the last marker, and carries across a line break, whatever the text ends with |
| Paper.Dispatch | src/app/components/Typewriter.tsx:46-52 | Backspace and Enter go to their handlers; a one-character key without ctrl or meta is typed as that character; nothing else reaches the buffer |
| Paper.HandledKeysPreventDefault | src/app/components/Typewriter.tsx:38-52 | every event that reaches the buffer has its default suppressed; the events suppressed but ignored are exactly one-character keys with ctrl or meta |
| Paper.ShowsSendButton | src/app/components/Typewriter.tsx:215 | the send button shows exactly when the buffer holds a character that is not whitespace |
| Wall.CardSentinelNeverMatches | src/app/components/NotesWall.tsx:24 | no single character equals the card's two-character sentinel literal |
| Wall.CardContentMarkerFree | src/app/components/NotesWall.tsx:24-32 | so no note content has a marker the card decoder recognises |
| Wall.ParseNoteContent | src/app/components/NotesWall.tsx:15-43 | the card decoder as written: one line per line break plus one, every other character a black glyph, markers included, in order |
| Wall.CardShowsMarkers | src/app/components/NotesWall.tsx:24-28 | a note typed as a red `X` shows a red `X` on the paper, but `§`, `r` and a black `X` on its card |
| Wall.ParseNoteContentIntended | src/app/components/NotesWall.tsx:15-43 | with the buffer's sentinel, a card decodes a note exactly as the paper did, its text being the content without markers |
| Wall.CardView | src/app/components/NotesWall.tsx:94-118 | a card shows exactly the first `min(lines, 14)` lines, and the ellipsis exactly when lines were cut, that is when there are more than fourteen |
| Wall.NoteCard | src/app/components/NotesWall.tsx:94-114 | the card the wall renders, through the decoder as written, has the ellipsis exactly when the note has fourteen or more line breaks, shows `min(breaks + 1, 14)` lines, all in black, and is cut exactly where the corrected decoder's card would be |
| Desk.MarkerOnlyOnInkChange | src/app/App.tsx:109-124 | on a text in which every sentinel starts a marker, a marker is written exactly when the ink in force at the end of the text differs from the selected one, and it names the selected ink |
| Desk.MarkerIgnoresWrap | src/app/App.tsx:104-124 | judging the marker from the text before the automatic wrap gives the same marker as after it |
| Desk.InitialConsistent | src/app/App.tsx:16-23 | the initial state satisfies the buffer invariant |
| Desk.LineLengthIsLastLine | src/app/App.tsx:126-128 | in a consistent state the cached line length is the glyph count of the paper's last line |
| Desk.LinesFitPaper | src/app/App.tsx:9-11 | every line of a consistent state fits the 360-pixel writing area, so fewer than the paper's declared 52 characters |
| Desk.ReturnKeepsConsistent | src/app/App.tsx:169-184 | a return keeps the buffer invariant |
| Desk.TypeOnto | src/app/App.tsx:110-128 | a key with its marker adds one glyph, in the selected ink, at the end of the last line; one visible character to the line; no line break |
| Desk.TypedKeyTakesInk | src/app/App.tsx:96-128 | after any key press, whatever wrap and marker it needed, the last glyph on the paper is the key in the selected ink |
| Desk.KeyPressKeepsConsistent | src/app/App.tsx:96-132 | a key press keeps the buffer invariant, wrap included |
| Desk.AutoWrap | src/app/App.tsx:103-107 | a key press never leaves the cached line length above thirty; on a full line it first writes a line break, and the key opens the next line with line length 1 |
| Desk.KeyPressGrowth | src/app/App.tsx:104-126 | a key press grows the text by one or three characters, plus one when it wraps |
| Desk.BackspaceKeepsConsistent | src/app/App.tsx:134-167 | a backspace keeps the buffer invariant |
| Desk.BackspaceOnEmpty | src/app/App.tsx:135 | a backspace on an empty text changes nothing |
| Desk.BackspaceOverMarker | src/app/App.tsx:145-147 | in any state, a trailing marker is removed whole, the cached positions stay, and the paper looks the same; a consistent state stays consistent |
| Desk.BackspaceOverBreak | src/app/App.tsx:150-158 | a trailing line break is removed; the line number and paper step back one line; the line length becomes the glyph count of the line before |
| Desk.BreakRemoved | src/app/App.tsx:154-156 | the recomputed length of the previous line, markers not counted, equals its glyph count on the paper |
| Desk.BackspaceOverGlyph | src/app/App.tsx:159-163 | any other trailing character is removed, and the carriage and line length step back one glyph |
| Desk.KeyPressThenBackspace | src/app/App.tsx:96-167 | on a line with room, a key needing no marker appends just the key, and a backspace restores the state exactly |
| Desk.MarkedKeyPressThenBackspace | src/app/App.tsx:110-147 | on a line with room, a key that needed a marker is undone exactly by two backspaces: one for the key, one for the marker |
| Desk.ReturnThenBackspace | src/app/App.tsx:148-180 | in a consistent state a return followed by a backspace restores the state exactly |
| Desk.SentinelKeyCollision | src/app/App.tsx:113-146 | typing `§` then `r` on a fresh sheet writes a marker that shows nothing while the carriage moved twice; a backspace leaves an inconsistent state |
| Desk.SendGuard | src/app/App.tsx:190-242 | a blank text is not sent; otherwise the text is archived unchanged at the front of the notes and the sheet is reset with the ink kept; sending changes the state exactly when the send button shows |
| Desk.SendKeepsConsistent | src/app/App.tsx:233-242 | sending keeps the buffer invariant |
| Desk.KeyDownKeepsConsistent | src/app/components/Typewriter.tsx:46-52 | every dispatched event keeps the buffer invariant, provided no typed key is `§` or a line break |
| Desk.Desk.constructor | src/app/App.tsx:16-23 | the component starts blank, black, with the carriage at 100, consistent |
| Desk.Desk.HandleReturn | src/app/App.tsx:169-184 | the fields become `Returned` of the old state; consistency is kept |
| Desk.Desk.HandleKeyPress | src/app/App.tsx:96-132 | the fields become `KeyPressed` of the old state, the marker judged from the text before any wrap; consistency is kept for keys other than `§` and a line break |
| Desk.Desk.HandleBackspace | src/app/App.tsx:134-167 | the fields become `Backspaced` of the old state; consistency is kept |
| Desk.Desk.HandleInkColorChange | src/app/App.tsx:186-188 | only the ink changes; consistency is kept |
| Desk.Desk.HandleSendNote | src/app/App.tsx:190-242 | the fields become `Sent` of the old state and the clock reading; a non-blank send leaves a consistent state from any state, and a blank one keeps consistency |
| Desk.Desk.HandleKeyDown | src/app/components/Typewriter.tsx:36-53 | the fields become `KeyDown` of the old state; consistency is kept under the same key proviso |

## Left out

- Desk.KeyPressKeepsConsistent: the invariant is proved only for keys other than `§` and a line break. A `§` key can desynchronise the cached fields (see `Desk.SentinelKeyCollision`). A line break cannot arrive as a typed key, because Enter is dispatched to the return handler.
- Desk.Desk.HandleKeyPress: the same key proviso as `Desk.KeyPressKeepsConsistent`.
- Desk.KeyDownKeepsConsistent: the same key proviso, for typed keys.
- Desk.Desk.HandleKeyDown: the same key proviso.
- Scrolling is not modelled: the paper scroll offset, the scrolling flag, the wheel handler and the auto-scroll reset at the top of each handler. None of them affects the text or the cached fields.
- Sound is not modelled (`SoundEngine`). It is output only.
- Network and storage are not modelled: loading notes from the server, posting a note, the `localStorage` fallback, JSON encoding and the loading flag. These are I/O. The model keeps only the optimistic prepend of the new note.
- The delay before the sheet is reset, and the new-sheet animation flag, are not modelled. In the code the reset runs only after the awaited POST completes or fails and a further 300 ms timer fires (`src/app/App.tsx:203-242`). Keys typed in that window are erased by the reset and never archived, and a second click on send archives the same text again. The model resets the sheet in the same transition that archives the note, so it captures none of this window.
- The clock is a parameter: `Date.now()` becomes the `now` argument of `Sent` and `HandleSendNote`. The code reads the clock twice, once for the id and once for the timestamp (`src/app/App.tsx:194`, `:196`), and the two readings can differ. The model uses one reading for both: the id is the decimal digits of `now` and the timestamp is `now`.
- Rendering is not modelled: motion, CSS, the carriage and paper transforms, the card rotation and the date formatting on a card. The model keeps only which glyphs, in which ink, on which lines, and the card's line cut and ellipsis.
- React state updates are modelled as applied in order, with no interleaving. Each functional updater sees the value left by the previous one. The value read in `handleKeyPress` is the text as it was when the handler began, before any automatic wrap (`Desk.MarkerIgnoresWrap` shows that this gives the same marker).
- Strings are sequences of characters. JavaScript's UTF-16 code units are not modelled, so a key that a browser reports as two code units is outside the model.
- The server (`supabase/functions/server/index.tsx`) is not part of this model.

## Findings

| source | as written | input that shows it | evidently intended | confidence | as-written member | corrected member |
|---|---|---|---|---|---|---|
| src/app/components/NotesWall.tsx:24-28 | the card decoder compares each character with the two-character literal U+0E22 U+0E07, which is the UTF-8 bytes of `§` read as Thai TIS-620, so no character ever matches and every marker shows on the card as `§r` or `§b` in black | a note typed as red `X`, whose content is `§rX` | a card decodes markers with the `§` sentinel the keyboard handler writes, showing the note as the paper did | not executed | Wall.CardShowsMarkers | Wall.ParseNoteContentIntended |
