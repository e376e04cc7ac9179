# Verification of the remote desktop tool's cores

A Dafny model of six cores of the repository, with proofs about every input and
every run. Each core that the program updates in place is a class whose methods
run the program's own loops; every method is proved to reach the state that a
specification function gives, and the theorems are about those functions.

| core | modules |
|---|---|
| VT100/xterm emulator (`rdt-terminal`) | `VtParser`, `ParserTheorems`, `Utf8Theorems`, `DecodeErrorTheorems`, `CsiTheorems`, `StringTheorems`, `Grid`, `Sgr`, `SgrTheorems`, `Screen`, `MotionTheorems`, `EditTheorems`, `ControlTheorems`, `ScrollTheorems`, `ResizeTheorems`, `Emulator`, `TerminalTheorems`, `AlternateTheorems`, `HistoryTheorems`, `RowTheorems`, `LayoutTheorems` |
| host key database (`rdt-ssh`) | `Glob`, `KnownHosts`, `HostPatternTheorems`, `KnownHostsTheorems` |
| redaction and the redacting log writer (`rdt-types`, `rdt-logging`) | `Redact`, `RedactTheorems`, `ScrubTheorems`, `KeyTheorems`, `LogWriter`, `FlushTheorems` |
| RDP framebuffer (`rdt-rdp`) | `Framebuffer`, `FramebufferTheorems` |
| calendar arithmetic and timestamps (`rdt-types`) | `Civil`, `Rfc3339` |
| session manager (`rdt-session`) | `Sessions` |

`Basics` and `Text` hold the vocabulary they share. `dafny verify dfyconfig.toml`
checks the whole project.

## What the main results say

- **Parser.** Ground with no partial character is a clean restart point, and
  nothing else is: an equivalence kept by all fourteen states shows that what a
  sequence leaves behind is never observed (`CleanIffLikeNew`). UTF-8 decoding
  inverts encoding, what is not well formed becomes U+FFFD in a known way, and
  arbitrary bytes leave the ASCII in them intact. Control sequences, escape
  sequences, operating system commands and device control strings each come out
  once and as they were printed, whatever follows them (`CsiRoundTrip`,
  `EscRoundTrip`, `OscRoundTrip`, `DcsRoundTrip`).
- **Screen.** Text of any length, cut into any chunks, is laid out exactly as
  its lines cut to the terminal's width (`TextLayout`). The screen invariant
  holds over all runs, up to an exact condition on `resize` (`RunsStaySound`),
  and chunking is invisible up to an exact condition on `ESC c`
  (`CutIsInvisibleIff`). Leaving the alternate screen restores the main one
  whatever happened in between (`LeavingRestores`); what reaches the scrollback,
  and how long rows are, is known exactly for every run (`HistoryStaysIff`,
  `RowsStayExactIff`). What each sequence means is said on its own, not by the
  function that computes it: where the cursor goes, from the bytes
  (`MotionTheorems`), which cells and rows change and how (`EditTheorems`,
  `ControlTheorems`), every attribute (`SgrTheorems`), and a resize cell by cell,
  with the exact condition under which the way back undoes it (`ThereAndBackIff`).
- **Host keys.** The backtracking matcher is the recursive glob exactly on texts
  without `*`; every form of pattern covers exactly the hosts and ports it says
  (`HostPatternTheorems`); printing a database is a normal form; `check` has its declarative
  reading, and `accept` and `forget` do what it promises of them, and
  exactly when also after saving and loading (`AcceptedSurvivesIff`).
- **Redaction.** No registered secret that cannot overlap the marker survives in
  any text, through replacements, pair scrubbing and line assembly; the sensitive
  keys are the sixteen words, in any case, and what ends in one (`KeyMeaning`),
  and a pair loses its value exactly for them (`PairMeaning`); sensitive
  values are shown as the marker up to an exact condition (`ScrubShowsAllIff`),
  and so are flushes harmless (`FlushIsHarmlessIff`, `NeverLeaksIff`).
- **Framebuffer.** A consumer that copies only the damage it takes always holds
  the frame (`DamageIsComplete`).
- **Calendar.** The arithmetic is the Gregorian calendar on all of the integers,
  and timestamps denote their instants and sort as time does through 9999.
- **Sessions.** The table is what the events say, and the concurrency limit
  holds exactly as long as callers revive no finished session at the limit.

## Where the code differs from what is said of it

The model follows the code. Where a natural claim fails of it, the named lemma
gives the exact condition under which it holds, or a concrete input.

- `ESC \` does not end a SOS, PM or APC string; only BEL, CAN or SUB does
  (crates/rdt-terminal/src/parser.rs:529-533, `SosStringVanishes`).
- `ESC c` replaces the parser after the whole chunk was parsed, so a cut inside a
  later sequence can change what is shown (crates/rdt-terminal/src/term.rs:472-474,
  `CutIsInvisibleIff`, `CutAfterResetShows`).
- `resize` leaves the saved screen and the saved cursor as they are, so a resize
  under the alternate screen can leave a screen of the wrong size to restore
  (crates/rdt-terminal/src/term.rs:180-205, `ResizeKeepsSoundness`,
  `RestoredRowsIff`, `ResizeUnderAlternateScreen`).
- Rows added by a resize go out at the top when the resize is taken back, text
  first, so only a resize that keeps the height can be undone
  (crates/rdt-terminal/src/term.rs:180-205, `ThereAndBackIff`, `RowsThereAndBack`).
- `delete_chars` with the cursor past the last column lengthens the row, which is
  why the invariant asks for at least `cols` cells a row
  (crates/rdt-terminal/src/term.rs:689-697, `RowsStayExactIff`,
  `DeletePastMarginLengthens`).
- The alternate screen shares the scrollback: scrolling a full-screen program
  pushes its rows (crates/rdt-terminal/src/term.rs:348-358,
  `AlternateScreenScrollsHistory`, `QuietVisitKeepsHistory`).
- On port 22, any host with exactly one colon is written in a form that is read
  back as another host and port (crates/rdt-ssh/src/known_hosts.rs:233-248,
  `RecordedMatchesIff`).
- A host with a comma, or a comment with a line feed, does not come back from
  saving and loading as it was accepted
  (crates/rdt-ssh/src/known_hosts.rs:428-464, `AcceptedSurvivesIff`).
- The status `Excluded`, which the code treats as fatal, is never produced: a host
  that a negated pattern excludes is at most unknown
  (crates/rdt-ssh/src/known_hosts.rs:30-58, `VerdictMeaning`).
- docs/SECURITY.md:17 and crates/rdt-types/src/redact.rs:69 promise that every
  sensitive value is removed. A pair inside the value of a key that is not
  sensitive is skipped: `user=a&password=hunter2` goes out as it is
  (crates/rdt-types/src/redact.rs:137-158, `ScrubShowsAllIff`, `NestedPasswordLeaks`).
- A secret that can overlap the marker may reappear after its own replacement
  (crates/rdt-types/src/redact.rs:32-37, `ReplacementRemovesIff`, `ActeReappears`).
- A flush in the middle of a line redacts its two halves separately
  (crates/rdt-logging/src/redact_writer.rs:94-102, `FlushInsideSecretLeaks`,
  `FlushIsHarmlessIff`), and a secret of several lines is never seen whole
  (crates/rdt-logging/src/redact_writer.rs:76-92, `OneLineSecretsIff`).
- `blit` reads a bitmap with the width left after clamping, and `clamped` moves a
  rectangle that lies outside the frame onto its edge
  (crates/rdt-rdp/src/framebuffer.rs:25-34, 131-150, `BitmapsAreShownIff`).
- Years from 10000 on print with five digits or more, outside RFC 3339, and need
  not sort after earlier ones (crates/rdt-types/src/timeutil.rs:68-76,
  `RfcShapeIff`, `StringOrderIsTimeOrderIff`).
- `cancel` removes the slot, although a unit test expects the cancelled session to
  stay in the table (crates/rdt-session/src/lib.rs:280-286 and 401-413); and
  `transition` accepts any move, so a finished session can be revived over the
  limit (`LimitHoldsIff`, `RevivalOverrunsLimit`).

## Model

| member | source | states |
|---|---|---|
| `ParserTheorems.StepKeeps` | crates/rdt-terminal/src/parser.rs:143-533 | one byte keeps two indistinguishable parsers indistinguishable, in each of the fourteen states, and both emit the same actions |
| `ParserTheorems.RunKeeps` | crates/rdt-terminal/src/parser.rs:128-134 | indistinguishable parsers emit the same actions on every continuation and stay indistinguishable |
| `ParserTheorems.CleanIffLikeNew` | crates/rdt-terminal/src/parser.rs:186-251 | a parser answers every continuation as a new one does if and only if it is in Ground with no partial character; leftovers such as a pending DCS header or a stale UTF-8 buffer are never observed |
| `ParserTheorems.AbortIsRestart` | crates/rdt-terminal/src/parser.rs:143-184 | CAN or SUB in any state yields its own Execute, and everything after it is parsed as by a new parser |
| `ParserTheorems.SosStringVanishes` | crates/rdt-terminal/src/parser.rs:529-533 | a SOS, PM or APC string leaves no trace, and ESC inside it is swallowed: what follows BEL is parsed as by a new parser |
| `Utf8Theorems.DecodeIffEncoded` | crates/rdt-terminal/src/parser.rs:216-251 | a completed multi-byte buffer decodes to c exactly when it is the RFC 3629 encoding of c, for all byte sequences and scalars |
| `Utf8Theorems.DecodingInvertsEncoding` | crates/rdt-terminal/src/parser.rs:201-251 | from Ground, the UTF-8 encoding of any text without ESC gives one Print (or Execute below 0x20) per scalar, in order, and ends with no partial character |
| `Utf8Theorems.AsciiIsTransparent` | crates/rdt-terminal/src/parser.rs:201-251 | for arbitrary bytes without ESC, malformed UTF-8 included, the ASCII actions are exactly the ASCII bytes received, in order |
| `CsiTheorems.ReadDigits` | crates/rdt-terminal/src/parser.rs:328-356 | a digit string of any length parses to the smaller of its value and 65535 |
| `CsiTheorems.CsiRoundTrip` | crates/rdt-terminal/src/parser.rs:299-404 | ESC [ with any private marker, non-empty parameter list, intermediates and final byte gives back exactly one non-ignored Csi with those fields, and a clean parser (section 5.4 of ECMA-48) |
| `StringTheorems.OscRoundTrip` | crates/rdt-terminal/src/parser.rs:503-527 | from any state outside a string, `ESC ]`, any body without BEL, ESC, CAN and SUB, and BEL or `ESC \` come out as one Osc, whose fields joined by `;` are the body's bytes from 0x20 to 0x7F; nothing else is emitted, and what follows is read as by a new parser |
| `StringTheorems.DcsRoundTrip` | crates/rdt-terminal/src/parser.rs:406-499 | a device control string ended by ST comes out as its header with the parameters and intermediates as printed, its data in one piece (BEL kept, DEL dropped) when there is any, and its end, once each and in this order |
| `StringTheorems.HighByteEnds` | crates/rdt-terminal/src/parser.rs:470-499 | a byte from 0x80 up ends the data in the same way and is lost |
| `StringTheorems.SpoiledDcsVanishes` | crates/rdt-terminal/src/parser.rs:429-449 | a late private marker makes a device control string vanish up to its ST |
| `StringTheorems.EscRoundTrip` | crates/rdt-terminal/src/parser.rs:253-297 | ESC, any intermediates and a final byte that opens nothing come out as one escape sequence, from any state outside a string |
| `StringTheorems.BrokenEscape` | crates/rdt-terminal/src/parser.rs:253-297 | a control code or a byte from 0x7F up breaks an escape sequence off and is lost with it |
| `StringTheorems.LoneTerminator` | crates/rdt-terminal/src/parser.rs:253-280 | `ESC \` on its own emits nothing |
| `StringTheorems.EscapeRestarts` | crates/rdt-terminal/src/parser.rs:143-184 | ESC anywhere outside a string drops what is in progress: what follows is read as by a new parser |
| `StringTheorems.ColonSpoils` | crates/rdt-terminal/src/parser.rs:328-388 | a colon makes a control sequence come out marked as ignored, at its final byte and no earlier, with the parameters up to the colon |
| `StringTheorems.LateMarkerSpoils` | crates/rdt-terminal/src/parser.rs:328-388 | a private marker behind the parameters does too, and the parameter it interrupts is lost |
| `StringTheorems.LateParameterSpoils` | crates/rdt-terminal/src/parser.rs:358-388 | and a parameter byte behind an intermediate |
| `StringTheorems.DroppedInSequence` | crates/rdt-terminal/src/parser.rs:299-368 | a control code or a byte from 0x7F up inside a control sequence is lost alone |
| `DecodeErrorTheorems.StrayByte` | crates/rdt-terminal/src/parser.rs:216-251 | a byte that neither begins nor continues a character is shown as one U+FFFD |
| `DecodeErrorTheorems.BrokenCharacter` | crates/rdt-terminal/src/parser.rs:216-251 | a character broken off by a byte that does not continue it is shown as one U+FFFD, and that byte is read as if it came first |
| `DecodeErrorTheorems.AbandonedCharacter` | crates/rdt-terminal/src/parser.rs:143-184 | one broken off by ESC, CAN or SUB is not shown at all |
| `DecodeErrorTheorems.MalformedCharacter` | crates/rdt-terminal/src/parser.rs:216-251 | a whole sequence that is the encoding of no scalar is shown as one U+FFFD |
| `VtParser.RunConcat` | crates/rdt-terminal/src/parser.rs:128-134 | feeding a then b is feeding a + b: same actions in the same order, same final state |
| `VtParser.Parser.Advance` | crates/rdt-terminal/src/parser.rs:128-134 | the imperative parser emits and becomes what the transition function says, for every slice |
| `VtParser.Parser.StepByte` | crates/rdt-terminal/src/parser.rs:143-184 | one byte through the imperative dispatch: anywhere transitions first, then the state's own handler |
| `VtParser.Parser.Reset` | crates/rdt-terminal/src/parser.rs:137-139 | after a reset the parser equals a new one |
| `VtParser.Parser.OnGround` | crates/rdt-terminal/src/parser.rs:201-214 | control codes (C0 without CAN, SUB and ESC) execute, 0x20 to 0x7F print, and everything else, or an ASCII byte inside a character, goes to the UTF-8 decoder |
| `VtParser.Parser.OnUtf8` | crates/rdt-terminal/src/parser.rs:216-251 | the decoder's in-place buffer: lead, continuation, completion, and replay of a byte that breaks a character |
| `VtParser.Parser.OnEscape` | crates/rdt-terminal/src/parser.rs:253-280 | `[`, `]`, `P` and `X ^ _` open their sequences, intermediates are collected, a final byte is dispatched, and `\` or any other byte returns to Ground |
| `VtParser.Parser.OnEscapeIntermediate` | crates/rdt-terminal/src/parser.rs:282-297 | further intermediates are collected in order, a final byte dispatches them all, any other byte drops the sequence |
| `VtParser.Parser.OnCsiEntry` | crates/rdt-terminal/src/parser.rs:299-326 | the first byte after `ESC [` starts a parameter, keeps a private marker, collects an intermediate, dispatches, or (a colon) makes the sequence ignored |
| `VtParser.Parser.OnCsiParam` | crates/rdt-terminal/src/parser.rs:328-356 | digits accumulate and saturate, `;` ends a parameter, a colon or a late private marker makes the sequence ignored, a final byte dispatches |
| `VtParser.Parser.OnCsiIntermediate` | crates/rdt-terminal/src/parser.rs:358-368 | intermediates are collected; a parameter byte after one makes the sequence ignored |
| `VtParser.Parser.OnCsiIgnore` | crates/rdt-terminal/src/parser.rs:370-388 | only a final byte ends an ignored sequence; it is emitted as ignored, with the parameters completed so far |
| `VtParser.Parser.DispatchCsi` | crates/rdt-terminal/src/parser.rs:390-404 | the sequence is emitted once with the last parameter completed, and no field of it is left for the next |
| `VtParser.Parser.OnDcsEntry` | crates/rdt-terminal/src/parser.rs:406-427 | the first byte of a device control string's header, with the same classes as for a control sequence but nothing emitted |
| `VtParser.Parser.OnDcsParam` | crates/rdt-terminal/src/parser.rs:429-449 | its parameters accumulate and saturate; a late private marker makes the string ignored |
| `VtParser.Parser.OnDcsIntermediate` | crates/rdt-terminal/src/parser.rs:451-458 | its intermediates are collected; a parameter byte after one makes the string ignored |
| `VtParser.Parser.OnDcsPassthrough` | crates/rdt-terminal/src/parser.rs:470-499 | the header goes out before the first byte, the data and the end when a byte ends it, in that order |
| `VtParser.Parser.OnOscString` | crates/rdt-terminal/src/parser.rs:503-527 | BEL or ESC emits the whole buffer split at semicolons and empties it; control codes are dropped; `OscRoundTrip` says what that makes of a whole command |
| `LayoutTheorems.TextLayout` | crates/rdt-terminal/src/term.rs:259-358 | a new terminal of any size, fed the UTF-8 of any lines of narrow printable characters joined by CR LF, holds in scrollback and screen exactly the lines cut to its width (an empty line one blank row, a full line no extra one), with only the newest rows the scrollback can hold |
| `LayoutTheorems.TextLayoutInChunks` | crates/rdt-terminal/src/term.rs:120-124 | the same whatever chunks the bytes arrive in, even cut inside a character |
| `LayoutTheorems.PrintStep` | crates/rdt-terminal/src/term.rs:259-304 | deferred wrap: a printed character extends the last piece, or starts the next one when it is full; nothing is lost or repeated |
| `LayoutTheorems.NewLine` | crates/rdt-terminal/src/term.rs:331-358 | CR LF starts a new piece, scrolling the oldest visible piece into the scrollback when the cursor is in the last row |
| `MotionTheorems.CursorUp` | crates/rdt-terminal/src/term.rs:385 | `CSI n A` moves n rows up, not above the region's top, and changes nothing else; a zero or missing parameter is one here and below |
| `MotionTheorems.CursorDown` | crates/rdt-terminal/src/term.rs:386 | `CSI n B` and `CSI n e` move down, not below the screen |
| `MotionTheorems.CursorRight` | crates/rdt-terminal/src/term.rs:387 | `CSI n C` and `CSI n a` move right, not past the last column |
| `MotionTheorems.CursorLeft` | crates/rdt-terminal/src/term.rs:388 | `CSI n D` moves left, not before the first |
| `MotionTheorems.LinesDown` | crates/rdt-terminal/src/term.rs:389-392 | `CSI n E` moves down to column 0 |
| `MotionTheorems.LinesUp` | crates/rdt-terminal/src/term.rs:393-396 | `CSI n F` moves up to column 0 |
| `MotionTheorems.ColumnAddress` | crates/rdt-terminal/src/term.rs:397-399 | `CSI n G` names the column, from one, and leaves a pending wrap |
| `MotionTheorems.CellAddress` | crates/rdt-terminal/src/term.rs:400-406 | `CSI r ; c H` and `f` name row and column, from one, clamped, from the region's top in origin mode |
| `MotionTheorems.RowAddress` | crates/rdt-terminal/src/term.rs:407-409 | `CSI n d` names the row in the same way and leaves a pending wrap |
| `MotionTheorems.SequenceFed` | crates/rdt-terminal/src/term.rs:120-124 | the bytes of any control sequence, fed to a terminal whose parser is in Ground, act as that sequence with its printed fields |
| `MotionTheorems.UpFed` | crates/rdt-terminal/src/term.rs:385 | so the bytes `ESC [ n A`, for a numeral of any length, move the cursor up by n (at most 65535), and the same holds for B to G and d |
| `MotionTheorems.CellFed` | crates/rdt-terminal/src/term.rs:400-406 | and the bytes `ESC [ r ; c H` move it to the cell named |
| `EditTheorems.LineErased` | crates/rdt-terminal/src/term.rs:641-655 | `CSI K`, cell by cell: from the cursor on, up to and including it, or the whole line become spaces in the cursor's colours, and nothing else changes |
| `EditTheorems.CharsErased` | crates/rdt-terminal/src/term.rs:711-719 | `CSI n X` does this to n cells from the cursor on, none past the margin |
| `EditTheorems.BelowErased` | crates/rdt-terminal/src/term.rs:617-623 | `CSI J` erases the line as `CSI K` does and empties the rows below |
| `EditTheorems.AboveErased` | crates/rdt-terminal/src/term.rs:625-630 | `CSI 1 J` empties the rows above and erases the line as `CSI 1 K` does |
| `EditTheorems.AllErased` | crates/rdt-terminal/src/term.rs:631-637 | any other variant empties every row, drops the scrollback and homes the cursor |
| `EditTheorems.CharsDeleted` | crates/rdt-terminal/src/term.rs:689-697 | `CSI n P`, cell by cell: those behind the n cells move up, empty ones follow |
| `EditTheorems.CharsDeletedPastEnd` | crates/rdt-terminal/src/term.rs:689-697 | behind the last cell it appends one empty cell, for every n |
| `EditTheorems.CharsInserted` | crates/rdt-terminal/src/term.rs:699-709 | `CSI n @`, cell by cell: n empty cells at the cursor, those behind move on and drop out at the margin; the case past the margin included |
| `EditTheorems.LinesInserted` | crates/rdt-terminal/src/term.rs:664-675 | `CSI n L`, row by row: n blank lines at the cursor's row, the rows below move down inside the region; outside the region, nothing at all |
| `EditTheorems.LinesDeleted` | crates/rdt-terminal/src/term.rs:677-687 | `CSI n M`, row by row: the rows below move up, blank ones follow |
| `EditTheorems.ScrolledUp` | crates/rdt-terminal/src/term.rs:348-358 | `CSI n S`, row by row, with the rows that a whole screen loses at the end of the scrollback, in order and blank ones after them, of which the newest 10000 stay |
| `EditTheorems.ScrolledDown` | crates/rdt-terminal/src/term.rs:360-368 | `CSI n T`, row by row; the scrollback stays |
| `ControlTheorems.PendingWrap` | crates/rdt-terminal/src/term.rs:259-277 | with a wrap pending, a character is printed as after a line feed and a carriage return |
| `ControlTheorems.Printed` | crates/rdt-terminal/src/term.rs:279-304 | a character goes into the cell at the cursor with its columns and attributes, a space behind a wide one where there is room, no other cell changes, and the cursor moves on, to the margin with a wrap pending, or to the last column when lines do not wrap |
| `ControlTheorems.PrintedInserting` | crates/rdt-terminal/src/term.rs:259-277 | in insert mode it is printed as after `CSI w @` for its w columns |
| `ControlTheorems.PrintedPastMargin` | crates/rdt-terminal/src/term.rs:279-304 | past the margin with no wrap pending nothing is written |
| `ControlTheorems.ColumnsAre` | crates/rdt-terminal/src/grid.rs:157-176 | which blocks take one column and which take two |
| `ControlTheorems.CodesExecuted` | crates/rdt-terminal/src/term.rs:306-329 | where backspace, tab and carriage return put the cursor; no other code but the line feeds does anything |
| `ControlTheorems.LineFed` | crates/rdt-terminal/src/term.rs:331-338 | line feed, vertical tab, form feed and `ESC D` scroll as `CSI S` at the bottom of the region, and elsewhere move down unless in the last row |
| `ControlTheorems.NextLineFed` | crates/rdt-terminal/src/term.rs:468-471 | `ESC E` is the same from column 0 |
| `ControlTheorems.LineReversed` | crates/rdt-terminal/src/term.rs:340-346 | `ESC M` scrolls as `CSI T` at the top of the region, and elsewhere moves up |
| `ControlTheorems.SavedComesBack` | crates/rdt-terminal/src/term.rs:429-434 | a cursor saved by `ESC 7`, `CSI s` or mode 1048 comes back by any of their counterparts, position and attributes, after any actions that save no other and do not switch the screen |
| `ControlTheorems.RegionSet` | crates/rdt-terminal/src/term.rs:419-428 | `CSI t ; b r` takes exactly the regions of at least one row inside the screen, and then sends the cursor home |
| `ControlTheorems.ModesSwitched` | crates/rdt-terminal/src/term.rs:500-523 | each private mode that is a switch sets its own field and no other; unknown ones change nothing |
| `ControlTheorems.OriginSwitched` | crates/rdt-terminal/src/term.rs:504-508 | origin mode also moves the cursor to the top of what it addresses |
| `ControlTheorems.AlternateEntered` | crates/rdt-terminal/src/term.rs:525-535 | entering the alternate screen saves screen and cursor and shows a blank one |
| `ControlTheorems.AlternateLeft` | crates/rdt-terminal/src/term.rs:536-544 | leaving it brings both back |
| `ControlTheorems.OtherModes` | crates/rdt-terminal/src/term.rs:443-452 | `CSI 4 h`, `CSI 4 l`, `ESC =` and `ESC >` switch their modes |
| `ControlTheorems.FullReset` | crates/rdt-terminal/src/term.rs:472-474 | after `ESC c` the screen is a new one of the same size |
| `ControlTheorems.NothingChanges` | crates/rdt-terminal/src/term.rs:228-257 | ignored sequences, operating system commands, device control strings and unknown escape sequences change nothing |
| `ControlTheorems.UnknownSequence` | crates/rdt-terminal/src/term.rs:436-453 | nor do control sequences with any other final byte |
| `SgrTheorems.OnlyAttributes` | crates/rdt-terminal/src/term.rs:546-550 | SGR changes the attributes to print with and nothing else; without parameters they become plain |
| `SgrTheorems.OneCode` | crates/rdt-terminal/src/term.rs:555-581 | each of the eight styles and the two colours by the codes that set and clear it, for every code |
| `SgrTheorems.CodesInOrder` | crates/rdt-terminal/src/term.rs:551-594 | a list of codes takes effect from left to right |
| `SgrTheorems.PaletteColour` | crates/rdt-terminal/src/term.rs:597-605 | `38 ; 5 ; n` and `48 ; 5 ; n` set a colour of the palette, and what follows goes on |
| `SgrTheorems.TrueColour` | crates/rdt-terminal/src/term.rs:606-612 | `2 ; r ; g ; b` sets one by its components |
| `SgrTheorems.BrokenColour` | crates/rdt-terminal/src/term.rs:597-615 | cut short or of another kind they set no colour, and what follows the kind is read as codes |
| `ResizeTheorems.ResizedRow` | crates/rdt-terminal/src/term.rs:180-205 | resize, cell by cell: row i comes from the old row as many rows down as are lost, with its cells up to the new width and empty ones beyond; added rows are blank |
| `ResizeTheorems.ResizedHistory` | crates/rdt-terminal/src/term.rs:180-205 | the rows lost are the top ones, fitted alike and in order, at the end of the scrollback, whose newest 10000 rows stay |
| `ResizeTheorems.ResizedRest` | crates/rdt-terminal/src/term.rs:180-205 | the region becomes whole, the cursor is brought inside, nothing else changes, and resizing to the same size does nothing |
| `ResizeTheorems.ColumnsThereAndBack` | crates/rdt-terminal/src/term.rs:180-205 | a change of width and the way back keep the scrollback, and restore the screen if and only if every row had its width and the columns cut off held nothing |
| `ResizeTheorems.RowsThereAndBack` | crates/rdt-terminal/src/term.rs:180-205 | a change of height and the way back leave as many rows more in the scrollback as the heights are apart, in either direction |
| `ResizeTheorems.ThereAndBackIff` | crates/rdt-terminal/src/term.rs:180-205 | while the scrollback is not full, the way back restores screen and scrollback if and only if the height is the same and nothing was cut off |
| `ResizeTheorems.NewMeaning` | crates/rdt-terminal/src/term.rs:93-117 | a new terminal has the size asked for between 1 and 500 by 200, is blank, homed and in the default modes |
| `ResizeTheorems.ClearMeaning` | crates/rdt-terminal/src/term.rs:208-218 | clear_all empties every cell, drops the scrollback and homes the cursor |
| `TerminalTheorems.RunsStaySound` | crates/rdt-terminal/src/term.rs:120-226 | from any sound terminal, a run of advance, clear_all, reset_parser, snapshot and resize calls keeps the screen invariant (row and cell counts, region, cursor, saved screen and cursor) if and only if every resize in it is safe |
| `TerminalTheorems.ResizeKeepsSoundness` | crates/rdt-terminal/src/term.rs:180-205 | resize keeps the invariant exactly when the saved screen and saved cursor, which it does not touch, fit the new size |
| `TerminalTheorems.ResizeWithoutAlternateScreen` | crates/rdt-terminal/src/term.rs:180-205 | without an alternate screen a resize is safe for any new size that holds the saved cursor |
| `TerminalTheorems.ResizeUnderAlternateScreen` | crates/rdt-terminal/src/term.rs:180-205 | a concrete run: alternate screen on, one row more, alternate screen off, and `CSI 2 d` names a row that the restored screen does not have |
| `TerminalTheorems.RestoredRowsIff` | crates/rdt-terminal/src/term.rs:525-544 | leaving the alternate screen after a resize, every row an address can name is a row of the restored screen if and only if the resize added no rows |
| `TerminalTheorems.ChunkingIsInvisible` | crates/rdt-terminal/src/term.rs:120-124 | cutting a stream with no `ESC c` anywhere reaches the same parser and screen |
| `TerminalTheorems.ChunksAreInvisible` | crates/rdt-terminal/src/term.rs:120-124 | the same for any division into any number of chunks |
| `TerminalTheorems.CutIsInvisibleIff` | crates/rdt-terminal/src/term.rs:472-474 | a cut never changes the actions of any continuation if and only if the part before it has no `ESC c` or ends in Ground with no partial character; `ESC c` replaces the parser only after the whole chunk was parsed |
| `TerminalTheorems.CleanCutsAreInvisible` | crates/rdt-terminal/src/term.rs:472-474 | at such a cut the screen reached is the same for every continuation |
| `TerminalTheorems.CutAfterResetShows` | crates/rdt-terminal/src/term.rs:472-474 | a concrete stream that shows different text when cut inside a sequence after `ESC c` |
| `AlternateTheorems.LeavingRestores` | crates/rdt-terminal/src/term.rs:525-544 | whatever is drawn, scrolled, moved or set under the alternate screen, leaving it brings back the main screen cell for cell, and the cursor too unless a cursor was saved in between |
| `AlternateTheorems.ActionKeeps` | crates/rdt-terminal/src/term.rs:228-257 | under the alternate screen every action keeps the saved screen unless it leaves, and the saved cursor unless it saves one |
| `HistoryTheorems.ActionPushes` | crates/rdt-terminal/src/term.rs:228-257 | what every action makes of the scrollback: nothing is left of it after a full reset or an erased display, otherwise the newest rows of it and of exactly the rows the action scrolls off a full-screen region |
| `HistoryTheorems.ActionIsQuietIff` | crates/rdt-terminal/src/term.rs:228-257 | an action leaves a scrollback that is not full alone if and only if it pushes and drops nothing |
| `HistoryTheorems.HistoryStaysIff` | crates/rdt-terminal/src/term.rs:348-358 | over every run, under either screen, the scrollback stays as it is at every point if no action pushes or drops rows, and while it is not full only then |
| `HistoryTheorems.QuietVisitKeepsHistory` | crates/rdt-terminal/src/term.rs:525-544 | a visit to the alternate screen with only such actions leaves the scrollback of the main screen alone |
| `HistoryTheorems.AlternateScreenScrollsHistory` | crates/rdt-terminal/src/term.rs:348-358 | the scrollback is not set aside: on an alternate screen of any height, a line feed in the last row pushes the full-screen program's top row |
| `RowTheorems.RowsStayExactIff` | crates/rdt-terminal/src/term.rs:228-257 | over every run, all rows, saved ones too, keep exactly `cols` cells at every point if and only if no unignored `CSI P` is applied with the cursor past the last column |
| `RowTheorems.ActionKeepsIff` | crates/rdt-terminal/src/term.rs:370-456 | the same for one action, from exact rows |
| `RowTheorems.DeleteLengthensIff` | crates/rdt-terminal/src/term.rs:689-697 | deleting n cells keeps the length of a row if and only if the cursor stands on a cell or n is zero |
| `RowTheorems.DeletePastMarginLengthens` | crates/rdt-terminal/src/term.rs:689-697 | a concrete terminal of one column whose row has two cells after a character and `CSI P` |
| `ScrollTheorems.ShiftUpRow` | crates/rdt-terminal/src/term.rs:348-358 | row by row, what scroll_up by n leaves: rows outside the region untouched, inside it row i + n or a blank |
| `ScrollTheorems.ShiftDownRow` | crates/rdt-terminal/src/term.rs:360-368 | row by row, what scroll_down by n leaves |
| `ScrollTheorems.ShiftUpStep` | crates/rdt-terminal/src/term.rs:348-358 | one more removal and insertion turns the closed form for n into the one for n + 1 |
| `ScrollTheorems.ShiftDownStep` | crates/rdt-terminal/src/term.rs:360-368 | the same for scrolling down |
| `ScrollTheorems.ScrollUpAdds` | crates/rdt-terminal/src/term.rs:348-358 | scrolling up by m and then n is scrolling up by m + n, scrollback included |
| `ScrollTheorems.InsertThenDelete` | crates/rdt-terminal/src/term.rs:664-687 | insert_lines(n) then delete_lines(n) restores every row of the region except the last n, which are blank, and touches nothing outside it |
| `ScrollTheorems.DeleteThenInsert` | crates/rdt-terminal/src/term.rs:664-687 | the other order blanks the first n rows from the cursor and restores the rest |
| `Screen.ApplyConcat` | crates/rdt-terminal/src/term.rs:120-124 | applying two action lists in turn is applying their concatenation |
| `Emulator.Terminal.constructor` | crates/rdt-terminal/src/term.rs:93-117 | the size is clamped to 1..500 by 1..200; the screen is blank, the region whole, nothing saved, the parser new |
| `Emulator.Terminal.Advance` | crates/rdt-terminal/src/term.rs:120-124 | parses the whole slice, then applies the actions in order |
| `Emulator.Terminal.ResizeTo` | crates/rdt-terminal/src/term.rs:180-205 | the row loops of resize reach its closed form: rows cut or extended, excess rows pushed into the scrollback, cursor clamped, region reset; `ResizedRow`, `ResizedHistory` and `ResizedRest` say cell by cell what that is |
| `Emulator.Terminal.ClearEverything` | crates/rdt-terminal/src/term.rs:208-218 | every cell blank, scrollback empty, cursor home |
| `Emulator.Terminal.ResetParser` | crates/rdt-terminal/src/term.rs:221-224 | a new parser and no pending wrap; the screen is unchanged |
| `Emulator.Terminal.ApplyAction` | crates/rdt-terminal/src/term.rs:228-257 | an ignored sequence, an operating system command and a device control string leave the screen as it is |
| `Emulator.Terminal.OnPrint` | crates/rdt-terminal/src/term.rs:259-277 | deferred wrap, insert mode, then the character |
| `Emulator.Terminal.Put` | crates/rdt-terminal/src/term.rs:279-304 | a character of width one or two is stored and the cursor moves, defers the wrap, or stays at the margin |
| `Emulator.Terminal.OnExecute` | crates/rdt-terminal/src/term.rs:306-329 | backspace stops at column 0, tab at the last column, line feeds scroll at the region's end, carriage return cancels the deferred wrap |
| `Emulator.Terminal.OnLineFeed` | crates/rdt-terminal/src/term.rs:331-338 | down one row, or scroll at the bottom of the region |
| `Emulator.Terminal.OnReverseIndex` | crates/rdt-terminal/src/term.rs:340-346 | up one row, or scroll down at the top of the region |
| `Emulator.Terminal.ScrollRegionUp` | crates/rdt-terminal/src/term.rs:348-358 | for every count, the loop of removals and insertions equals the shift by n, and with a full-screen region appends exactly the removed rows to the scrollback in order |
| `Emulator.Terminal.ScrollRegionDown` | crates/rdt-terminal/src/term.rs:360-368 | for every count, the loop equals the shift down by n |
| `Emulator.Terminal.OnCsi` | crates/rdt-terminal/src/term.rs:370-456 | each final byte reaches its operation with the parameters' defaults (a zero counts as missing), a private marker only the private modes |
| `Emulator.Terminal.OnMotion` | crates/rdt-terminal/src/term.rs:385-409 | the motions stop at the margins of the screen, up at the top of the region, and only some of them cancel a deferred wrap; the rows of `MotionTheorems` say where each one goes |
| `Emulator.Terminal.OnSetRegion` | crates/rdt-terminal/src/term.rs:419-428 | DECSTBM: an empty or inverted region is refused |
| `Emulator.Terminal.OnEsc` | crates/rdt-terminal/src/term.rs:458-484 | save and restore, index, reverse index, next line, full reset and keypad modes; any other final does nothing |
| `Emulator.Terminal.FullReset` | crates/rdt-terminal/src/term.rs:472-474 | `ESC c`: everything as new, size kept |
| `Emulator.Terminal.OnPrivateMode` | crates/rdt-terminal/src/term.rs:500-523 | each private mode switches its own field; origin mode also moves the cursor, and the three alternate-screen modes share one switch |
| `Emulator.Terminal.OnSwitchScreen` | crates/rdt-terminal/src/term.rs:525-544 | the alternate screen saves and restores the screen and the cursor |
| `Emulator.Terminal.OnSgr` | crates/rdt-terminal/src/term.rs:546-595 | the loop over SGR parameters ends and computes the attribute function |
| `Emulator.Terminal.OnEraseDisplay` | crates/rdt-terminal/src/term.rs:617-639 | erase to the end, to the start, the whole screen, or the scrollback too |
| `Emulator.Terminal.OnEraseLine` | crates/rdt-terminal/src/term.rs:641-655 | erase a part of the line or all of it |
| `Emulator.Terminal.OnInsertLines` | crates/rdt-terminal/src/term.rs:664-675 | for every count, rows shift down from the cursor inside the region only |
| `Emulator.Terminal.OnDeleteLines` | crates/rdt-terminal/src/term.rs:677-687 | for every count, rows shift up from the cursor inside the region only |
| `Emulator.Terminal.OnDeleteChars` | crates/rdt-terminal/src/term.rs:689-697 | for every count, the remove-and-append loop equals its closed form, also with the cursor past the last column |
| `Emulator.Terminal.OnInsertChars` | crates/rdt-terminal/src/term.rs:699-709 | for every count, the insert-and-truncate loop equals its closed form |
| `Emulator.Terminal.OnEraseChars` | crates/rdt-terminal/src/term.rs:711-719 | cells from the cursor are blanked, no further than the row |
| `Grid.Scrollback.Push` | crates/rdt-terminal/src/grid.rs:210-218 | after a push the scrollback is the newest `limit` rows of what it held and the new one |
| `Grid.Scrollback.SetLimit` | crates/rdt-terminal/src/grid.rs:231-236 | a smaller limit keeps the newest rows |
| `Glob.WildcardMatch` | crates/rdt-ssh/src/known_hosts.rs:251-275 | the backtracking loop ends and computes its transition function from the start, by the measure (pattern after the star, text after the star, text left) |
| `Glob.ScanDecidesGlob` | crates/rdt-ssh/src/known_hosts.rs:251-275 | from every reachable loop state, for a text without `*`, the scan succeeds exactly when the recursive glob matches from here or from one further along the last star |
| `Glob.MatcherIsExactIff` | crates/rdt-ssh/src/known_hosts.rs:251-275 | the matcher agrees with the recursive glob on every pattern if and only if the text has no literal `*` |
| `Glob.MatchesItself` | crates/rdt-ssh/src/known_hosts.rs:251-275 | every text matches itself as a pattern, wildcards in it included |
| `KnownHostsTheorems.NormalForm` | crates/rdt-ssh/src/known_hosts.rs:116-210 | for every text, parsing what printing the parsed entries gives yields the same entries, only renumbered |
| `KnownHostsTheorems.PrintingIsIdempotent` | crates/rdt-ssh/src/known_hosts.rs:343-354 | printing is a normal form: a printed file parses and prints to itself |
| `KnownHostsTheorems.LineMeaning` | crates/rdt-ssh/src/known_hosts.rs:116-168 | a line read by its words: marker, patterns between commas, type, key, comment; malformed exactly with fewer than three words after the marker or no key |
| `KnownHostsTheorems.CommentsSkipped` | crates/rdt-ssh/src/known_hosts.rs:116-168 | a blank line and a comment hold no entry |
| `HostPatternTheorems.BracketedPattern` | crates/rdt-ssh/src/known_hosts.rs:219-248 | for a host without a literal `*` here and below: a line with the one pattern `[h]:p` applies to it on port p and no other, if and only if the recursive glob of h matches the lower-cased host |
| `HostPatternTheorems.ColonPattern` | crates/rdt-ssh/src/known_hosts.rs:219-248 | `h:p` with its one colon does the same |
| `HostPatternTheorems.PlainPattern` | crates/rdt-ssh/src/known_hosts.rs:219-248 | with no colon or several and no bracket in front, the whole pattern is matched, on every port |
| `HostPatternTheorems.BracketedHost` | crates/rdt-ssh/src/known_hosts.rs:219-248 | `[h]` with no port number behind it matches h on every port |
| `HostPatternTheorems.UnclosedBracket` | crates/rdt-ssh/src/known_hosts.rs:233-248 | a bracket that is not closed is dropped |
| `HostPatternTheorems.ColonWithoutPort` | crates/rdt-ssh/src/known_hosts.rs:233-248 | what follows the one colon and is no port number is dropped with it |
| `HostPatternTheorems.NoPort` | crates/rdt-ssh/src/known_hosts.rs:233-248 | which texts are no port number, whatever their length |
| `HostPatternTheorems.HashedPattern` | crates/rdt-ssh/src/known_hosts.rs:278-296 | `|1|a|b` applies if and only if both fields decode and the MAC of the recorded name of host and port verifies, a its salt and b its digest |
| `HostPatternTheorems.HalfHashed` | crates/rdt-ssh/src/known_hosts.rs:278-281 | without a second field it applies to nothing |
| `HostPatternTheorems.NegatedPattern` | crates/rdt-ssh/src/known_hosts.rs:174-189 | a negated pattern that covers the host takes the line away from it, wherever it stands |
| `HostPatternTheorems.SeveralPatterns` | crates/rdt-ssh/src/known_hosts.rs:174-189 | a line applies if and only if one of its patterns alone does and no negated one |
| `KnownHostsTheorems.VerdictMeaning` | crates/rdt-ssh/src/known_hosts.rs:385-425 | check, read declaratively: the earliest line with this key (not a CA line) decides Trusted or Revoked; Changed exactly when there is none but a non-revoked line of this type has another key; Unknown otherwise; and never Excluded |
| `KnownHostsTheorems.ChangedReportsFirst` | crates/rdt-ssh/src/known_hosts.rs:412-420 | Changed carries the fingerprint and type of the earliest contradicting line |
| `KnownHostsTheorems.RecordedMatches` | crates/rdt-ssh/src/known_hosts.rs:219-248 | the entry accept writes for a recordable host matches that host and port |
| `KnownHostsTheorems.RecordedMatchesIff` | crates/rdt-ssh/src/known_hosts.rs:219-248 | it matches if and only if the host is recordable: on port 22 no leading `!` or `[` and not exactly one colon, on other ports no `]`; only a host in brackets with a `*` on port 22 is left out |
| `KnownHostsTheorems.BracketedStarMatches` | crates/rdt-ssh/src/known_hosts.rs:233-248 | such a host does match: the entry recorded for `[*]` applies to it although it is not recordable |
| `Glob.PrefixFallsShort` | crates/rdt-ssh/src/known_hosts.rs:251-275 | a proper prefix of a text never matches it, wildcards in it or not: it is consumed literally and runs out |
| `KnownHostsTheorems.ParsesBackIff` | crates/rdt-ssh/src/known_hosts.rs:116-210 | any list of entries comes back from being printed and parsed if and only if each can be printed: patterns that make one word without commas of their own, a type that is a word, a key that is not empty, a comment of words with single blanks |
| `KnownHostsTheorems.CanPrintIff` | crates/rdt-ssh/src/known_hosts.rs:116-168 | the words that make a comment printable are the words found in it, so the condition can be computed from the entry |
| `KnownHostsTheorems.KeptMeaning` | crates/rdt-ssh/src/known_hosts.rs:428-447 | accept drops exactly the unmarked lines of the key type that apply to the host; revoked lines and certificate authorities stay, in order |
| `KnownHostsTheorems.AcceptedLine` | crates/rdt-ssh/src/known_hosts.rs:428-469 | what accept adds to the saved file is one line at its end: the lower-cased name of host and port, the type, the key and the comment |
| `KnownHostsTheorems.AcceptedSurvivesIff` | crates/rdt-ssh/src/known_hosts.rs:428-464 | after accept, saving and loading brings all entries back, and with them every verdict on every query, if and only if the recorded entry can be printed |
| `KnownHostsTheorems.AcceptThenCheck` | crates/rdt-ssh/src/known_hosts.rs:428-447 | after accept, check gives Trusted unless a @revoked line for the host with this very key stands before every unrevoked line that holds it under another type, then Revoked |
| `KnownHostsTheorems.ForgottenMeaning` | crates/rdt-ssh/src/known_hosts.rs:450-454 | forget drops exactly the lines that apply to the host, marked ones too |
| `KnownHostsTheorems.ForgetThenCheck` | crates/rdt-ssh/src/known_hosts.rs:450-454 | after forget, every check for that host and port is Unknown, whatever the key |
| `KnownHostsTheorems.ForgetSparesOthers` | crates/rdt-ssh/src/known_hosts.rs:450-454 | forget leaves the verdict of every host that shares no line with the forgotten one |
| `KnownHosts.Database.Parse` | crates/rdt-ssh/src/known_hosts.rs:343-354 | the line loop keeps the parsed entries in order, numbered, and skips blank, comment and malformed lines |
| `KnownHosts.Database.Check` | crates/rdt-ssh/src/known_hosts.rs:385-425 | the loop over the entries computes the verdict |
| `KnownHosts.Database.Accept` | crates/rdt-ssh/src/known_hosts.rs:428-447 | runs the retain loop, which drops the lines for this host, port and type that carry no marker, and appends the new line at the end |
| `KnownHosts.Database.Forget` | crates/rdt-ssh/src/known_hosts.rs:450-454 | runs the retain loop, which drops every matching line, and counts what it dropped |
| `KnownHosts.RetainFresh` | crates/rdt-ssh/src/known_hosts.rs:436-438 | the loop keeps, in order, exactly the entries that are not replaced |
| `KnownHosts.RetainOthers` | crates/rdt-ssh/src/known_hosts.rs:452 | the loop keeps, in order, exactly the entries that do not match |
| `KnownHosts.Database.ToStringLossy` | crates/rdt-ssh/src/known_hosts.rs:457-464 | one printed line per entry, in order |
| `KnownHosts.EntryMatches` | crates/rdt-ssh/src/known_hosts.rs:174-189 | the pattern loop: some pattern matches and no negated one does, wherever it stands; the rows of `HostPatternTheorems` say which hosts and ports that are |
| `Text.JoinSplit` | crates/rdt-ssh/src/known_hosts.rs:343-354 | splitting at a separator and joining gives the text back |
| `Text.TokensJoin` | crates/rdt-ssh/src/known_hosts.rs:116-168 | splitting joined words at white space gives the words back |
| `Text.LinesUnlines` | crates/rdt-ssh/src/known_hosts.rs:457-464 | the lines of a printed file are the lines printed |
| `RedactTheorems.NoSecretSurvives` | crates/rdt-types/src/redact.rs:57-160 | after redact, no registered secret occurs anywhere, for any text and any set of secrets none of which can overlap the marker: neither later replacements nor pair scrubbing recreate one |
| `RedactTheorems.PlainSecretsDoNotTouch` | crates/rdt-types/src/redact.rs:7-10 | a secret without `<` and `>` that is no substring of "redacted" cannot overlap the marker |
| `RedactTheorems.ReplacementMeaning` | crates/rdt-types/src/redact.rs:32-37 | replacing keeps all of the text but the leftmost occurrences: the same pieces, joined by the secret, are the text, and joined by the marker, the result |
| `KeyTheorems.KeyMeaning` | crates/rdt-types/src/redact.rs:12-29 | the sensitive keys are the sixteen words with any of their letters as capitals, and whatever ends in one of them exactly, and no others |
| `KeyTheorems.PairMeaning` | crates/rdt-types/src/redact.rs:94-160 | a pair behind text without separators keeps key and separator, and its value unless the key is one of these and the value not empty, when the marker stands for it; a header's value runs to the line feed, any other to white space, comma or semicolon, and what follows is scrubbed as it would be alone |
| `KeyTheorems.PairAlone` | crates/rdt-types/src/redact.rs:94-160 | the same for a text that is one pair: `PASSWORD=hunter2` loses its value |
| `KeyTheorems.ByteLengthMeaning` | crates/rdt-types/src/redact.rs:57-62 | the length that a secret must have is that of its UTF-8 encoding |
| `RedactTheorems.ReplacementRemovesIff` | crates/rdt-types/src/redact.rs:32-37 | replacing a secret removes it from every text if and only if it cannot reappear where it meets the marker |
| `RedactTheorems.ActeReappears` | crates/rdt-types/src/redact.rs:32-37 | a concrete secret that replacement puts back into the text |
| `RedactTheorems.ScrubTwice` | crates/rdt-types/src/redact.rs:94-160 | scrubbing key=value pairs is idempotent, from any point of any text |
| `RedactTheorems.RedactTwice` | crates/rdt-types/src/redact.rs:70-78 | redacting redacted text changes nothing |
| `ScrubTheorems.ScrubShowsAllIff` | crates/rdt-types/src/redact.rs:94-160 | at every position of the output where a separator follows a sensitive key, the value is empty or the marker, if and only if no sensitive pair lies inside the value of an earlier pair at which the scan stops and whose key is not sensitive |
| `ScrubTheorems.RedactShowsAllIff` | crates/rdt-types/src/redact.rs:69-78 | the same for redact: every sensitive value is removed exactly when no such pair is left once the secrets are replaced |
| `ScrubTheorems.ScrubIsIdentityIff` | crates/rdt-types/src/redact.rs:94-160 | scrubbing is the identity if and only if no separator at which the scan stops has a sensitive key before it and a value after it that is neither empty nor the marker |
| `ScrubTheorems.HidesByPosition` | crates/rdt-types/src/redact.rs:98-160 | the positions at which the scan stops are those that no earlier stop's separator or value covers |
| `ScrubTheorems.ValueKept` | crates/rdt-types/src/redact.rs:137-158 | a key that is not sensitive keeps its whole value, to the next delimiter or the end of the line, whatever pairs it contains |
| `ScrubTheorems.NestedPairLeaks` | crates/rdt-types/src/redact.rs:137-158 | for any such key, a sensitive pair in its value goes out as it is and the output does not show it |
| `ScrubTheorems.NestedPasswordLeaks` | crates/rdt-types/src/redact.rs:137-158 | two concrete leaks: a password behind `user=a&` and one in a `user: ` header |
| `Redact.ScrubSensitivePairs` | crates/rdt-types/src/redact.rs:94-160 | the nested scanning loops, with their pops and pushes, compute the text with the non-empty values of sensitive keys replaced and nothing else changed; `PairMeaning` and `KeyMeaning` say what that shows |
| `Redact.DropAndRestore` | crates/rdt-types/src/redact.rs:127-133 | popping the key off the output and writing it again restores the output: what is popped is exactly the key just copied |
| `Redact.KeyIsLast` | crates/rdt-types/src/redact.rs:113-133 | the key walked back to stands at the very end of the output: the walk never enters a value already replaced |
| `Redact.KeyStart` | crates/rdt-types/src/redact.rs:113-121 | the walk back finds the start of the key before the separator |
| `Redact.ValueEnd` | crates/rdt-types/src/redact.rs:140-152 | the scan finds the end of the value, to the end of the line for a header |
| `Redact.Redactor.WithSecret` | crates/rdt-types/src/redact.rs:57-62 | a secret is registered, once, exactly when it has at least four bytes |
| `Redact.Redactor.Redact` | crates/rdt-types/src/redact.rs:70-78 | each secret in registration order, then the pairs |
| `LogWriter.RedactingWriter.Write` | crates/rdt-logging/src/redact_writer.rs:76-92 | for any division of the text into chunks, the sink holds the redacted complete lines, `pending` the newline-free tail, and the buffer the newest non-empty redacted lines, with `dropped` the rest: the writer's invariant says so of everything written so far |
| `LogWriter.RedactingWriter.Flush` | crates/rdt-logging/src/redact_writer.rs:94-102 | a flush redacts the tail on its own, without a line feed, and starts a new text |
| `LogWriter.RedactingWriter.WriteLine` | crates/rdt-logging/src/redact_writer.rs:80-90 | one complete line: a bare line feed when it is empty, its redaction otherwise |
| `LogWriter.RedactingWriter.RedactLine` | crates/rdt-logging/src/redact_writer.rs:63-72 | a redacted line is mirrored with its level and target |
| `LogWriter.WriteMeaning` | crates/rdt-logging/src/redact_writer.rs:76-92 | a chunk without a line feed is held back; with one, what is held and what comes before it go out as one redacted line, or as an empty one, and writing goes on behind it |
| `LogWriter.TrimmedEnd` | crates/rdt-logging/src/redact_writer.rs:81-87 | what is trimmed off a line is its ending of line feeds and carriage returns and no more |
| `LogWriter.EntryMeaning` | crates/rdt-logging/src/redact_writer.rs:63-72 | a mirrored line carries its writer's level and target, or INFO and rdt |
| `LogWriter.SinkHoldsNoSecret` | crates/rdt-logging/src/redact_writer.rs:63-92 | no registered secret without a line feed occurs in what complete lines become in the sink and the mirror, across line ends included; FlushTheorems.SinkStaysFree extends it to sinks that were flushed |
| `LogWriter.FlushInsideSecretLeaks` | crates/rdt-logging/src/redact_writer.rs:94-102 | for every secret of ordinary characters and every place to cut it: its first part flushed and its second written come out as the secret |
| `FlushTheorems.FlushIsHarmlessIff` | crates/rdt-logging/src/redact_writer.rs:94-102 | after complete lines, a flush is harmless for every text that may follow if and only if the redacted tail it sends out does not end in a proper prefix of the secret whose rest the scrubber lets pass |
| `FlushTheorems.HarmlessIff` | crates/rdt-logging/src/redact_writer.rs:76-102 | the same for any sink with nothing pending |
| `FlushTheorems.PlainLeads` | crates/rdt-logging/src/redact_writer.rs:94-102 | for a secret without separators that is: the sink ends in no non-empty proper prefix of it |
| `FlushTheorems.NeverLeaksIff` | crates/rdt-logging/src/redact_writer.rs:76-102 | over every run of writes and flushes, a secret never occurs in the sink at any point and whatever text follows, if and only if no flush leaves such an ending |
| `FlushTheorems.SinkStaysFree` | crates/rdt-logging/src/redact_writer.rs:76-102 | for any set of secrets and any run, the whole sink, flushes included, holds none of them when no flush leaves such an ending |
| `FlushTheorems.LineEndFlushesKeepFree` | crates/rdt-logging/src/redact_writer.rs:76-102 | in particular when every flush finds nothing pending |
| `FlushTheorems.PrefixIsScrubbed` | crates/rdt-types/src/redact.rs:94-160 | any front part of scrubbed text that does not end inside a marker is itself left alone by scrubbing |
| `FlushTheorems.FixedStaysFront` | crates/rdt-types/src/redact.rs:94-160 | what scrubbing leaves alone stays at the front when more text follows |
| `FlushTheorems.OneLineSecretsIff` | crates/rdt-logging/src/redact_writer.rs:76-92 | without flushes, a secret of ordinary characters stays out of the sink for every text if and only if it has no line feed |
| `FlushTheorems.SeveralLinesLeak` | crates/rdt-logging/src/redact_writer.rs:76-92 | a secret of several lines is written out as it is |
| `LogWriter.SplitAppend` | crates/rdt-logging/src/redact_writer.rs:76-92 | the complete lines of a + b are those of a followed by those of the tail of a and b |
| `LogWriter.LogBuffer.Push` | crates/rdt-logging/src/buffer.rs:41-50 | the buffer holds the newest `capacity` entries and counts the others as dropped; with capacity zero it drops silently |
| `FramebufferTheorems.DamageIsComplete` | crates/rdt-rdp/src/framebuffer.rs:72-178 | over every run of blit, fill, resize, mark_dirty and take_damage, a consumer that copies only the rectangle it takes holds exactly the frame after each take |
| `FramebufferTheorems.RunsKeepSync` | crates/rdt-rdp/src/framebuffer.rs:104-178 | at every point of a run, every byte outside the pending damage is already shown by the consumer |
| `FramebufferTheorems.PresentIsExactIff` | crates/rdt-rdp/src/framebuffer.rs:176-178 | uploading the damage makes the texture exact if and only if what is not damaged was already shown |
| `FramebufferTheorems.UnionIsLeast` | crates/rdt-rdp/src/framebuffer.rs:37-54 | the union is the least bounding box: a rectangle holds it exactly when it holds both, empty ones included |
| `FramebufferTheorems.UnionIsAssociative` | crates/rdt-rdp/src/framebuffer.rs:37-54 | union is associative on all rectangles, and commutative on non-empty ones |
| `FramebufferTheorems.PendingDamageIsLeastBox` | crates/rdt-rdp/src/framebuffer.rs:166-173 | however many rectangles are marked, one is pending, and it is the least box around them all |
| `FramebufferTheorems.BlitChangesItsRectangle` | crates/rdt-rdp/src/framebuffer.rs:131-150 | an in-bounds blit writes exactly its rectangle, each pixel from its place in the bitmap; a truncated bitmap writes nothing |
| `FramebufferTheorems.FillPaints` | crates/rdt-rdp/src/framebuffer.rs:153-163 | fill, byte by byte: the covered pixels of the frame get the four bytes of the colour in their order, no other pixel changes; outside rectangles are drawn from the last column or row on |
| `FramebufferTheorems.NewIsBlack` | crates/rdt-rdp/src/framebuffer.rs:72-82 | a new frame is black, has at least one pixel and nothing to show |
| `FramebufferTheorems.BitmapsAreShownIff` | crates/rdt-rdp/src/framebuffer.rs:131-150 | every bitmap of a rectangle's size is shown in its place if and only if the rectangle starts inside the frame and no column is cut off, or at most one row of it is drawn: the rows are read with the clamped width, and a rectangle outside is moved to the edge |
| `FramebufferTheorems.OutsideIsDrawn` | crates/rdt-rdp/src/framebuffer.rs:25-34 | a bitmap for a rectangle outside the frame that changes a pixel inside it |
| `FramebufferTheorems.CutRowsAreSheared` | crates/rdt-rdp/src/framebuffer.rs:143-148 | a bitmap cut off at the right whose second row is read from the middle of its first |
| `FramebufferTheorems.ResizeKeepsOverlap` | crates/rdt-rdp/src/framebuffer.rs:104-128 | a resize keeps every pixel that lies in both frames and leaves the others black |
| `FramebufferTheorems.GrowThenShrink` | crates/rdt-rdp/src/framebuffer.rs:104-128 | growing and going back restores the pixels |
| `Framebuffer.Framebuffer.constructor` | crates/rdt-rdp/src/framebuffer.rs:72-81 | a black frame of at least one pixel, no damage |
| `Framebuffer.Framebuffer.ResizeTo` | crates/rdt-rdp/src/framebuffer.rs:104-128 | the row-copy loop reaches the overlap-preserving frame, all of it damaged |
| `Framebuffer.Framebuffer.BlitBitmap` | crates/rdt-rdp/src/framebuffer.rs:131-150 | clamps, drops truncated data, copies row by row in place, marks |
| `Framebuffer.Framebuffer.FillRect` | crates/rdt-rdp/src/framebuffer.rs:153-163 | the row and column loops fill exactly the clamped rectangle, and it is marked |
| `Framebuffer.Framebuffer.MarkRect` | crates/rdt-rdp/src/framebuffer.rs:166-173 | merges into the one pending rectangle |
| `Framebuffer.Framebuffer.TakeDamage` | crates/rdt-rdp/src/framebuffer.rs:176-178 | returns at most one rectangle and clears it |
| `Framebuffer.RowIsContiguous` | crates/rdt-rdp/src/framebuffer.rs:143-148 | the bytes between two addresses of a row are exactly those of the pixels of that row between two columns |
| `Framebuffer.AddressRoundTrip` | crates/rdt-rdp/src/framebuffer.rs:143-148 | byte addresses and pixel coordinates are inverse to each other |
| `Civil.EveryDayIsADate` | crates/rdt-types/src/timeutil.rs:92-103 | every day number, negative ones included, gives a valid Gregorian date |
| `Civil.DaysOfCivil` | crates/rdt-types/src/timeutil.rs:155-163 | days to date and back is the identity on all day numbers |
| `Civil.CivilOfDays` | crates/rdt-types/src/timeutil.rs:155-163 | date to days and back is the identity on all valid dates |
| `Civil.DaysFollowTheCalendar` | crates/rdt-types/src/timeutil.rs:92-103 | day n + 1 is the next day of the calendar after day n |
| `Civil.DatesKeepOrder` | crates/rdt-types/src/timeutil.rs:92-103 | later days are later dates, both ways |
| `Civil.Epoch` | crates/rdt-types/src/timeutil.rs:92-103 | day 0 is 1970-01-01; with DaysFollowTheCalendar this fixes every date |
| `Civil.YearOfEraInverts` | crates/rdt-types/src/timeutil.rs:96-97 | the yoe formula recovers the year of an era from any of its days |
| `Civil.TruncatedIsFloor` | crates/rdt-types/src/timeutil.rs:94-95 | stepping back before a truncating division rounds down, for negative days as for positive ones |
| `Rfc3339.StampsReadBack` | crates/rdt-types/src/timeutil.rs:68-76 | the printed stamp, read field by field, denotes the instant it was printed from |
| `Rfc3339.FormatIsInjective` | crates/rdt-types/src/timeutil.rs:68-76 | no two instants print alike |
| `Rfc3339.RfcShapeIff` | crates/rdt-types/src/timeutil.rs:68-76 | a stamp has the shape 0000-00-00T00:00:00.000Z (section 5.6 of RFC 3339) if and only if its instant lies before the year 10000 |
| `Rfc3339.StampsInOrder` | crates/rdt-types/src/timeutil.rs:68-76 | among instants whose years have equally many digits, string order is time order, both ways |
| `Rfc3339.StringOrderIsTimeOrderIff` | crates/rdt-types/src/timeutil.rs:68-76 | the strings of all instants up to a bound are in time order if and only if the bound lies before the year 10000 |
| `Rfc3339.TheYear10000PrintsFirst` | crates/rdt-types/src/timeutil.rs:68-76 | the first instant of 10000 sorts before the last of 9999 |
| `Sessions.RunsAgree` | crates/rdt-session/src/lib.rs:161-312 | over every run of register, transition, cancel, cancel_all and prune, the table holds exactly the sessions registered and neither cancelled nor pruned since, each with the state and detail last broadcast and its Reconnecting events counted; the audit trail has one classified record per broadcast |
| `Sessions.StepKeepsLimitIff` | crates/rdt-session/src/lib.rs:161-312 | a step exceeds the limit if and only if it moves a finished session back to a live state while the limit is reached |
| `Sessions.LimitHoldsIff` | crates/rdt-session/src/lib.rs:161-312 | at every point of a run the active sessions are within max_concurrent if and only if that never happens |
| `Sessions.RevivalOverrunsLimit` | crates/rdt-session/src/lib.rs:227-262 | a concrete run: two live sessions under a limit of one |
| `Sessions.CancelForgets` | crates/rdt-session/src/lib.rs:280-286 | cancel removes the slot at once; a second cancel changes nothing but broadcasts again |
| `Sessions.RefusedIff` | crates/rdt-session/src/lib.rs:184-224 | register is refused exactly when as many sessions as the limit are in one of the five states that are not final |
| `Sessions.AuditMeaning` | crates/rdt-session/src/lib.rs:227-262 | which kind and outcome each state is audited as, once per transition, and nothing when there is no log |
| `Sessions.PruneKeepsLive` | crates/rdt-session/src/lib.rs:307-312 | prune keeps exactly the live sessions |
| `Sessions.SessionManager.New` | crates/rdt-session/src/lib.rs:139-153 | refused exactly when the limit is zero |
| `Sessions.SessionManager.CountActive` | crates/rdt-session/src/lib.rs:161-163 | the count of sessions not finished, taken one by one, is the size of the live set |
| `Sessions.SessionManager.RegisterSession` | crates/rdt-session/src/lib.rs:184-224 | refused, with nothing changed, exactly when the limit is reached; otherwise inserted and broadcast as Connecting |
| `Sessions.SessionManager.MoveTo` | crates/rdt-session/src/lib.rs:227-262 | updates a known session, counts a reconnect, broadcasts and audits in every case |
| `Sessions.SessionManager.CancelSession` | crates/rdt-session/src/lib.rs:280-286 | the slot goes, its token is signalled once, Cancelled is broadcast |
| `Sessions.SessionManager.CancelAll` | crates/rdt-session/src/lib.rs:289-294 | whatever order the map gives, each session is cancelled once and the map ends empty |
| `Sessions.SessionManager.PruneFinished` | crates/rdt-session/src/lib.rs:307-312 | the retain loop keeps exactly the sessions not finished, each as it was, and the number returned is the number dropped |

## Left out

- Emulator.Terminal.Advance: does not model the window title, the bell count, the dirty flag and rendering; they never influence the screen.
- LayoutTheorems.TextLayout: lines are joined by CR LF and hold narrow printable characters; a bare line feed after a full row keeps the cursor past the last column, and wide characters take two columns and may be cut at the margin, so neither lays text out this way.
- KnownHosts.Database.Check: base64, HMAC-SHA1, SHA-256 and the Unicode case tables are parameters; what the proofs assume of them is `Library.Lawful`. Comparing keys in constant time is plain equality here.
- KnownHostsTheorems.RecordedMatches: a recorded name that starts with `|1|` is read as a hashed one and is excluded, since what it matches then depends on the HMAC.
- KnownHostsTheorems.RecordedMatchesIff: a host that starts with `[` and holds a `*`, on port 22, is outside the equivalence, because what stands in its brackets is read as a pattern by itself and may match the whole (`BracketedStarMatches`).
- LogWriter.RedactingWriter.Write: chunks are strings, so the lossy decoding of a UTF-8 sequence cut by a chunk boundary is not modelled; neither are time stamps, clones that share the pending text, nor a sink that fails.
- FlushTheorems.FlushIsHarmlessIff: the equivalence is for one registered secret; for sets of secrets SinkStaysFree gives the safe direction, since the text that completes one secret may be redacted as part of another.
- HistoryTheorems.HistoryStaysIff: a full scrollback can also look the same after pushing rows equal to those dropped, so there the condition is sufficient only.
- RedactTheorems.NoSecretSurvives: the condition on the secrets is sufficient; the exact one, ReplacementRemovesIff, is for a single replacement, because several secrets and scrubbed keys can put a marker next to almost any text.
- TerminalTheorems.CutIsInvisibleIff: the equivalence is about actions; on the screen a cut may stay invisible besides, for instance when the action that differs prints past the last column.
- FramebufferTheorems.DamageIsComplete: sizes and rectangle edges stay within u32, as the arithmetic in the code needs; the consumer is the one the documentation describes, since the code that would upload a texture only logs the rectangles.
- Civil.EveryDayIsADate: days are unbounded integers; the i64 sums in the code overflow only within 719468 days of the type's limit, which no u64 of milliseconds reaches.
- Sessions.RunsAgree: methods are atomic steps; `register` releases its lock before it broadcasts, and interleavings in between are not modelled. The attempt counter is unbounded, subscribers never lag, and command channels, time stamps and addresses are left out.
- Loading and saving files, the log filter, the uptime format, retry delays and the list order of sessions: short or I/O, without a property that spans operations.
- The user interface, the agent, the command line, configuration, keystores, SSH and RDP sessions and the vendoring script: not part of this model.
