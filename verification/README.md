# Hermito: a verified model of its state machines

Hermito is a terminal IDE. This project models the parts of it that decide something by
themselves and proves what they are for: the terminal emulator, text positions and edits, crash
journal and saving, the project tree, framing and request routing, and the rules that tie a
terminal to trust.

Objects the program updates in place are classes with the same fields (`TerminalSurface`,
`VtParser`, `Buffer`, `JournalWorker`, `JournalOutbox`, `SaveCoalesceState`, `Project`, `Pipe`,
`AggregateBudget`, `TerminalApp`); each of their methods is proved to act like a function on values,
and the theorems are about those functions, over whole streams, edits, runs and interleavings.

| files | what they cover |
|---|---|
| `Utf8`, `ScreenSpec`, `ScreenLaws`, `Surface`, `VtSpec`, `VtParser`, `Transcript`, `ControlStrings`, `ControlSequences`, `MalformedText` | the terminal: the flat, rotated cell array refines a list of lines; the byte-driven parser refines a step function; what whole streams leave behind |
| `Sums`, `Document`, `Coordinate` | documents as lines of graphemes; bytes, UTF-16 columns, cells, grapheme indices and cursor motion as views of one caret |
| `Wrappers`, `Checkpoint`, `TextEdit` | the buffer, edits in bytes carried out on characters, the text difference, rows and columns |
| `JournalFile`, `Journal`, `JournalDelivery`, `SaveQueue` | the journal file from its bytes and its recovery, the worker with failing writes, the bounded queue before it, and the serialization of saves |
| `ProjectTree`, `TreePaths`, `ProjectScan` | visible rows, toggling and selection; building the sorted tree from a flat scan |
| `Multiplexer`, `Frame`, `ProcessClosure`, `TerminalLifecycle` | requests against concurrent loss, framing and budget, descendants of a process, launches and trust |

The standards followed are ECMA-48 (sections 5.4 and 5.6), RFC 3629 (section 3), UAX #29
(section 3) and the `Position` of LSP 3.17.

## Where the code does less than it says

Each of these is proved with the exact condition under which the code does meet its promise; the
less obvious failing inputs and runs are lemmas of their own.

- The journal comments promise that a newer revision is never dropped. Nothing handed over is lost
  on the way (`NewestNeverLost`), but a retained checkpoint is retried without comparing it to what
  was sent since, and the worker stores whatever it gets. Once nothing of a document is on its way,
  a checkpoint not covered by a compaction, or a newer one, is on disk after a flush exactly if the
  last checkpoint of the document that entered the queue is at least as new
  (`PreservedIffLastIsNew`). Otherwise it is lost with nothing left to correct it
  (`LossIsReachable`). A stale retry is what breaks the order of submissions
  (`OrderlyIffNoStaleRetry`), though a later edit may repair it (`StaleRetryRepaired`).
- Saving does not look at what is retained either, so a saved document can come back as recoverable
  (`ReturnIsReachable`). A successful compaction is final exactly if no revision it covers enters
  the queue behind it (`CompactionFinal`).
- Recovery promises to skip a corrupt line. It does so exactly if the bytes of that line are valid
  UTF-8, or nothing was recoverable anyway (`CorruptLineIgnored`): the file is decoded as a whole,
  so one bad byte discards every checkpoint, and the next write replaces the file
  (`BadByteLosesAll`).
- The cap on device control strings counts every byte but is checked for plain bytes only. A string
  is left early exactly if a byte outside an ESC pair stands at offset 4096 or later
  (`DeviceStringCap`), so the count can exceed the cap (`CapExceeded`).
- The byte that cuts off a character is swallowed with it (`LetterSwallowed`). The terminal shows
  what lossy decoding gives, at every point of a stream, exactly if no character of the stream is
  cut off (`LossyIffNoneCutOff`).
- Erasing up to the cursor reaches one cell into the next line while a wrap is pending
  (`EraseToCursor`); on every new terminal of two lines or more a short stream gets there
  (`EraseGoesTooFar`).
- The row of the entry to select is cut to 16 bits, so the selection follows the entry exactly if
  it stands among the first 65536 rows (`Project.ToggleDir`); expanding one large directory is
  enough to miss it (`SelectionJumps`).
- A title is cut at its first semicolon (`TitleCommand`).
- Going to a cell and back does not return behind a zero-width grapheme (`CellRoundTrip`), and
  right then left does not return from the end of a line (`RightThenLeft`), because a line's end
  and the next line's start share a grapheme index.

## Model

| member | source | states |
|---|---|---|
| Utf8.ScanEncoded | crates/hermito/src/terminal/vt_parser.rs:148-163 | scanning the encoding of a character followed by anything yields that character and its length |
| Utf8.ScanOnlyEncodings | crates/hermito/src/terminal/vt_parser.rs:148-163 | whatever is accepted is the one encoding of its character: no overlong form, no surrogate |
| Utf8.IncompleteIffProperPrefix | crates/hermito/src/terminal/vt_parser.rs:148-163 | bytes are held back as incomplete exactly when they are a proper prefix of some character's encoding |
| Utf8.FromUtf8Encoded | crates/hermito/src/terminal/vt_parser.rs:148-163 | strict and lossy decoding both invert encoding |
| Utf8.FromUtf8OnlyEncodings | crates/hermito/src/terminal/vt_parser.rs:148-163 | strict decoding succeeds only on the encoding of its result |
| ScreenSpec.BoundedDimensions | crates/hermito/src/terminal/surface.rs:245-256 | dimensions end up between 1 and 500 whatever was asked for |
| ScreenSpec.EraseToCursor | crates/hermito/src/terminal/surface.rs:188-205 | erase mode 1 spares everything behind the cursor if and only if no wrap is pending, or there is no line below, or the cell it would hit is blank |
| ScreenLaws.NewScreen | crates/hermito/src/terminal/surface.rs:61-75 | a new picture is blank, of the size asked for within 1 and 500, with the cursor visible at the top left and nothing scrolled |
| ScreenLaws.PutOneCell | crates/hermito/src/terminal/surface.rs:139-153 | a character changes the cell under the cursor and no other, and the cursor moves one column on |
| ScreenLaws.NewlineAtBottom | crates/hermito/src/terminal/surface.rs:155-162 | at the bottom every cell takes the one below it, the last line is blank, and the first goes to the scrollback, displacing the oldest when that is full |
| ScreenLaws.NewlineInside | crates/hermito/src/terminal/surface.rs:155-162 | above the bottom only the cursor moves |
| ScreenLaws.ReturnAndBack | crates/hermito/src/terminal/surface.rs:164-169 | carriage return and backspace leave column 0 and one column less, and nothing else changes |
| ScreenLaws.TabStop | crates/hermito/src/terminal/surface.rs:171-174 | a tab goes to the first multiple of eight beyond the cursor, or to the last column if that is nearer |
| ScreenLaws.ResizeKeepsCorner | crates/hermito/src/terminal/surface.rs:118-137 | cell by cell, a resize keeps the common corner and blanks the rest; cursor and size are clamped, scrollback and title kept |
| ScreenLaws.DisplayErased | crates/hermito/src/terminal/surface.rs:188-205 | for each mode, cell by cell, what erasing the display blanks and what it keeps |
| ScreenLaws.LineErased | crates/hermito/src/terminal/surface.rs:207-217 | for each mode, cell by cell, what erasing the line blanks and what it keeps |
| Surface.TerminalSurface.constructor | crates/hermito/src/terminal/surface.rs:61-75 | a new surface is blank with bounded size and scrollback |
| Surface.TerminalSurface.Resize | crates/hermito/src/terminal/surface.rs:118-137 | the common top left corner is kept, the rest blank, the cursor clamped |
| Surface.TerminalSurface.Put | crates/hermito/src/terminal/surface.rs:139-153 | a pending wrap starts a new line first; then one cell of one line changes and the cursor advances; control characters do nothing |
| Surface.TerminalSurface.Newline | crates/hermito/src/terminal/surface.rs:155-162 | the cursor goes to the start of the next line, scrolling at the bottom |
| Surface.TerminalSurface.ScrollUp | crates/hermito/src/terminal/surface.rs:231-242 | the rotation drops the first line into the bounded scrollback and adds a blank last line |
| Surface.TerminalSurface.Tab | crates/hermito/src/terminal/surface.rs:171-174 | the cursor goes to the next multiple of eight, at most to the last column |
| Surface.TerminalSurface.MoveCursor | crates/hermito/src/terminal/surface.rs:176-181 | relative motion, clamped in both directions, ends any pending wrap |
| Surface.TerminalSurface.SetCursor | crates/hermito/src/terminal/surface.rs:183-186 | absolute motion, clamped |
| Surface.TerminalSurface.ClearDisplay | crates/hermito/src/terminal/surface.rs:188-205 | each mode blanks exactly its stretch in reading order |
| Surface.TerminalSurface.ClearLine | crates/hermito/src/terminal/surface.rs:207-217 | each mode blanks exactly its part of the cursor's line |
| Surface.TerminalSurface.SetTitle | crates/hermito/src/terminal/surface.rs:219-222 | the title is the first 256 characters of the text |
| Surface.CopyCorner | crates/hermito/src/terminal/surface.rs:118-137 | the copying loop produces, row by row, the cropped picture |
| Surface.FlatOrder | crates/hermito/src/terminal/surface.rs:188-217 | positions in the flat array compare as positions in reading order do |
| Surface.RowsAfterUpdate | crates/hermito/src/terminal/surface.rs:139-153 | storing at row * width + col changes that cell of that line and nothing else |
| Surface.RowsAfterScroll | crates/hermito/src/terminal/surface.rs:231-242 | rotating by one width and blanking the tail shifts the lines up by one |
| Surface.RowsAfterCopy | crates/hermito/src/terminal/surface.rs:118-137 | copying part of a row into a new array changes the start of one line only |
| Surface.RowsAfterFill | crates/hermito/src/terminal/surface.rs:188-217 | filling a flat range erases the positions between its two ends and no other |
| VtSpec.Step | crates/hermito/src/terminal/vt_parser.rs:38-99 | after any byte CSI holds at most 128 bytes, OSC at most 4096, undecoded text at most 3 and only in the ground state, and the picture is well formed |
| VtParser.VtParser.Feed | crates/hermito/src/terminal/vt_parser.rs:37-100 | the parser object acts on any bytes like the step function iterated |
| VtParser.VtParser.FeedByte | crates/hermito/src/terminal/vt_parser.rs:38-99 | one byte in every state acts like one step |
| VtParser.VtParser.GroundByte | crates/hermito/src/terminal/vt_parser.rs:102-137 | control bytes flush incomplete text and act; others are text |
| VtParser.VtParser.PushTextByte | crates/hermito/src/terminal/vt_parser.rs:148-163 | text is shown once complete, held while incomplete, replaced when malformed |
| VtParser.VtParser.FlushIncompleteUtf8 | crates/hermito/src/terminal/vt_parser.rs:165-170 | incomplete text becomes one replacement character |
| VtParser.VtParser.ApplyCsi | crates/hermito/src/terminal/vt_parser.rs:172-207 | parameters are parsed and the sequence applied to style or picture, as the laws of `ControlSequences` describe |
| VtParser.VtParser.ApplySgr | crates/hermito/src/terminal/vt_parser.rs:209-265 | the loop over the moving index equals the recursive meaning of the parameters |
| VtParser.VtParser.ApplyOsc | crates/hermito/src/terminal/vt_parser.rs:267-292 | title and hyperlink commands take effect, all others none |
| Transcript.FeedAppend | crates/hermito/src/terminal/vt_parser.rs:37-100 | a stream may be cut anywhere: feeding a then b equals feeding a + b |
| Transcript.Run | crates/hermito/src/terminal/surface.rs:118-242 | every bound of parser and picture survives any interleaving of output and resizing |
| Transcript.ScrollbackCapOnlyForgets | crates/hermito/src/terminal/surface.rs:231-242 | after any byte stream a smaller scrollback cap shows the same terminal minus its oldest lines |
| Transcript.FeedScalar | crates/hermito/src/terminal/vt_parser.rs:148-163 | the bytes of one character put exactly that character |
| Transcript.NewlineOnPaper | crates/hermito/src/terminal/surface.rs:155-162 | a line feed finishes the current line of the transcript and opens an empty one |
| Transcript.PutOnPaper | crates/hermito/src/terminal/surface.rs:139-153 | a character extends the current line of the transcript, or opens the next when the line is full |
| Transcript.WriteIsWrap | crates/hermito/src/terminal/surface.rs:139-162 | writing character by character breaks a paragraph into lines of the screen's width |
| Transcript.PrintedText | crates/hermito/src/terminal/surface.rs:139-242 | paragraphs of printable text, fed as bytes to a new terminal, appear as their wrapped lines: the grid is the end, the scrollback what left it, only the oldest whole lines beyond the cap are gone, and the cursor stands behind the last character |
| ControlStrings.DeviceStringIsInert | crates/hermito/src/terminal/vt_parser.rs:83-97 | a complete DCS, APC or PM string, ESC pairs in its payload included, leaves the terminal as it was |
| ControlStrings.DeviceStringCap | crates/hermito/src/terminal/vt_parser.rs:83-97 | for every payload: the parser stays in the string throughout if and only if nothing closes it and no byte outside an ESC pair stands at offset 4096 or later, and then the count is the number of bytes read, less a waiting ESC |
| ControlStrings.CapExceeded | crates/hermito/src/terminal/vt_parser.rs:83-97 | 4096 plain bytes and one ESC pair are still being skipped, with a count of 4098 |
| ControlStrings.OscString | crates/hermito/src/terminal/vt_parser.rs:65-82 | BEL and ESC backslash both end the command, ESC pairs in its payload included, which is applied once and not shown |
| ControlStrings.OscTooLong | crates/hermito/src/terminal/vt_parser.rs:55-82 | a payload longer than 4096 bytes, with pairs or without, is given up within two bytes of the cap, shown text resumes and the picture is marked truncated |
| ControlStrings.OscKeepsPicture | crates/hermito/src/terminal/vt_parser.rs:267-292 | a command changes nothing but the title and the hyperlink |
| ControlStrings.ClipboardRequestIgnored | crates/hermito/src/terminal/vt_parser.rs:267-292 | OSC 52 with any payload changes nothing at all |
| ControlStrings.TitleCommand | crates/hermito/src/terminal/vt_parser.rs:267-292 | OSC 0 and OSC 2 alike: the title becomes the text up to its first semicolon, cut to 256; it is the text asked for if and only if that has no semicolon and fits |
| ControlStrings.HyperlinkCommand | crates/hermito/src/terminal/vt_parser.rs:267-292 | OSC 8 gives the text that follows the link if it is a web address of at most 2048 bytes, and none otherwise |
| ControlSequences.CursorAddress | crates/hermito/src/terminal/vt_parser.rs:172-207 | CUP and HVP with row and column in decimal move the cursor there, one-based and clamped, zero and a missing column meaning one |
| ControlSequences.SequenceApplied | crates/hermito/src/terminal/vt_parser.rs:172-207 | up to sixteen parameters in decimal reach the sequence they are written for, which is applied once and not shown |
| ControlSequences.ParamsRead | crates/hermito/src/terminal/vt_parser.rs:175-188 | parameters separated by semicolons are read back, the first sixteen of them |
| ControlSequences.LargeIsZero | crates/hermito/src/terminal/vt_parser.rs:172-185 | a parameter beyond 16 bits counts as 0 |
| ControlSequences.NoParameter | crates/hermito/src/terminal/vt_parser.rs:172-185 | a missing parameter counts as 0 |
| ControlSequences.CursorUp | crates/hermito/src/terminal/vt_parser.rs:190-194 | CUU moves that many rows up, at least one, and stops at the first |
| ControlSequences.CursorDown | crates/hermito/src/terminal/vt_parser.rs:190-194 | CUD moves that many rows down, at least one, and stops at the last |
| ControlSequences.CursorForward | crates/hermito/src/terminal/vt_parser.rs:190-194 | CUF moves that many columns right, at least one, and stops at the last |
| ControlSequences.CursorBack | crates/hermito/src/terminal/vt_parser.rs:190-194 | CUB moves that many columns left, at least one, and stops at the first |
| ControlSequences.EraseDisplay | crates/hermito/src/terminal/vt_parser.rs:172-207 | ED for every mode, cell by cell: what is blank afterwards and what is kept |
| ControlSequences.EraseLine | crates/hermito/src/terminal/vt_parser.rs:172-207 | EL for every mode, cell by cell |
| ControlSequences.CursorVisibility | crates/hermito/src/terminal/vt_parser.rs:172-207 | private mode 25 shows and hides the cursor; other modes, and 25 without the question mark, do nothing |
| ControlSequences.UnknownIgnored | crates/hermito/src/terminal/vt_parser.rs:172-207 | every other final byte leaves the terminal alone |
| ControlSequences.SequenceGivenUp | crates/hermito/src/terminal/vt_parser.rs:38-55 | a byte foreign to sequences, or a 129th parameter byte, ends the sequence unapplied and marks the picture truncated |
| ControlSequences.EscapeIgnored | crates/hermito/src/terminal/vt_parser.rs:139-146 | an escape with an unknown second byte does nothing |
| ControlSequences.ControlBytes | crates/hermito/src/terminal/vt_parser.rs:102-137 | what each control byte does once incomplete text is flushed |
| ControlSequences.GraphicRendition | crates/hermito/src/terminal/vt_parser.rs:209-265 | for every SGR parameter, the bold, italic, underline and reverse attributes, both colours and the hyperlink afterwards |
| ControlSequences.ExtendedColor | crates/hermito/src/terminal/vt_parser.rs:232-258 | parameters 38 and 48 set the foreground and the background from the palette after 5 and directly after 2 |
| ControlSequences.RenditionInTurn | crates/hermito/src/terminal/vt_parser.rs:209-265 | parameters together do what single sequences do in turn |
| ControlSequences.EraseCommand | crates/hermito/src/terminal/vt_parser.rs:172-207 | the four bytes of ED with parameter 1 erase up to the cursor |
| ControlSequences.EraseGoesTooFar | crates/hermito/src/terminal/surface.rs:195-201 | on every new terminal of two lines or more a short stream shows a letter behind the cursor and then erases it |
| MalformedText.TextShowsDecoded | crates/hermito/src/terminal/vt_parser.rs:148-170 | any text bytes, valid or not, put exactly the characters of the byte-wise decoding |
| MalformedText.LossyIffNoneCutOff | crates/hermito/src/terminal/vt_parser.rs:148-170 | at every point of a stream the characters put are those of the lossy decoding if and only if no begun character is followed by a byte that cannot continue it |
| MalformedText.SwallowedIsMissing | crates/hermito/src/terminal/vt_parser.rs:158-161 | where a character is first cut off the terminal shows fewer characters than the lossy decoding |
| MalformedText.LetterSwallowed | crates/hermito/src/terminal/vt_parser.rs:158-161 | of a cut-off character and a letter only the replacement character is shown |
| MalformedText.AgreementByChance | crates/hermito/src/terminal/vt_parser.rs:158-161 | a whole stream with a cut-off character may still agree at its end |
| Document.SnapIsGreatestCaret | crates/hermito/src/coordinate.rs:28-77 | snapping gives the greatest caret position not above the byte and keeps carets |
| Document.SnapMonotone | crates/hermito/src/coordinate.rs:28-77 | snapping never reorders two bytes |
| Document.CaretRoundTrip | crates/hermito/src/coordinate.rs:28-77 | a caret is found again from its byte, over any lines and terminators |
| Document.CaretIsBoundary | crates/hermito/src/coordinate.rs:87-104 | every caret lies on a character boundary |
| Coordinate.SnapToGraphemeStart | crates/hermito/src/coordinate.rs:28-77 | the scanning loops compute the greatest caret not above the byte |
| Coordinate.CellToByte | crates/hermito/src/coordinate.rs:133-165 | the loop stops at the first place of the greatest column not beyond the one asked for, on the clamped line |
| Coordinate.ByteToCell | crates/hermito/src/coordinate.rs:169-196 | line and display column of the snapped byte |
| Coordinate.ByteToUtf16Position | crates/hermito/src/coordinate.rs:227-237 | line and UTF-16 column of the snapped byte, surrogate pairs counted twice |
| Coordinate.Utf16PositionToByte | crates/hermito/src/coordinate.rs:241-273 | the caret of the greatest UTF-16 column not beyond the one asked for, also from inside a pair or a grapheme |
| Coordinate.ByteToGrapheme | crates/hermito/src/coordinate.rs:277-298 | the number of graphemes before the snapped byte, over all lines |
| Coordinate.GraphemeToByte | crates/hermito/src/coordinate.rs:301-321 | the byte at which so many graphemes have passed, blank lines included |
| Coordinate.MoveLeft | crates/hermito/src/coordinate.rs:392-399 | goes to the previous grapheme index, or stays at the start |
| Coordinate.MoveRight | crates/hermito/src/coordinate.rs:403-411 | goes to the next grapheme index, or to the end |
| Coordinate.MoveVertical | crates/hermito/src/coordinate.rs:416-429 | goes to the clamped line at the same column |
| Coordinate.CellLandsLeft | crates/hermito/src/coordinate.rs:133-165 | the place found is on the clamped line and has the greatest column not above the one asked for; of places at that very column it is the first, of others the last |
| Coordinate.CellRoundTrip | crates/hermito/src/coordinate.rs:133-196 | cells and back is snapping if and only if the grapheme before the caret has a width, or there is none on the line |
| Coordinate.Utf16RoundTrip | crates/hermito/src/coordinate.rs:227-273 | UTF-16 position and back is snapping, for every byte |
| Coordinate.Utf16LandsLeft | crates/hermito/src/coordinate.rs:241-273 | the place found is on the clamped line, the last whose UTF-16 offset is not above the column |
| Coordinate.SizesOfEncodings | crates/hermito/src/coordinate.rs:227-237 | sizes are those of the encodings, two UTF-16 units from U+10000 on |
| Coordinate.Utf16PositionSurvives | crates/hermito/src/coordinate.rs:227-273 | a position survives the way to a byte and back if and only if it names a caret |
| Coordinate.GraphemeRoundTrip | crates/hermito/src/coordinate.rs:277-321 | a grapheme index is found again from its byte, for every index up to the total |
| Coordinate.MotionsStepByOne | crates/hermito/src/coordinate.rs:392-411 | left and right change the grapheme index by exactly one or stay at the ends, and land on carets |
| Coordinate.RightThenLeft | crates/hermito/src/coordinate.rs:392-411 | right then left returns if and only if the byte starts a grapheme (or the document has none and the byte is 0) |
| Coordinate.LeftThenRight | crates/hermito/src/coordinate.rs:392-411 | left then right returns if and only if the byte starts a grapheme other than the first, or is the end of the document |
| Coordinate.VerticalMotion | crates/hermito/src/coordinate.rs:416-429 | a vertical motion goes as many lines down as asked for, or up if negative, stopping at the first and last; it lands on the caret of the greatest column there that is not further right |
| Coordinate.VerticalReturn | crates/hermito/src/coordinate.rs:416-429 | down and up again returns to the same line as long as no end of the document was reached |
| TextEdit.BoundaryIffCharStart | crates/hermito/src/buffer.rs:254-272 | a byte is a boundary if and only if some number of whole characters ends there |
| TextEdit.PrevCharBoundary | crates/hermito/src/buffer.rs:275-282 | the decrementing loop finds the greatest boundary not above the byte |
| TextEdit.CharRange | crates/hermito/src/buffer.rs:212-226 | both offsets are clamped and snapped to characters, in order |
| TextEdit.EditIsByteSplice | crates/hermito/src/buffer.rs:202-229 | the edit done in character indices is the byte splice at the snapped offsets; on boundaries nothing moves |
| TextEdit.EditSnapsDown | crates/hermito/src/buffer.rs:212-226 | each offset goes to the greatest boundary not above it; an end before the start counts as the start |
| TextEdit.Buffer.ApplyEdit | crates/hermito/src/buffer.rs:202-244 | a stale revision changes nothing; otherwise text, revision, dirty flag and checkpoint describe the edited buffer |
| TextEdit.Buffer.constructor | crates/hermito/src/buffer.rs:52-64 | a new buffer is clean at its first revision |
| TextEdit.Buffer.FromCheckpoint | crates/hermito/src/buffer.rs:88-95 | a recovered buffer is dirty and holds the checkpoint's text and revision |
| TextEdit.Buffer.MarkClean | crates/hermito/src/buffer.rs:161-166 | the dirty flag falls exactly for the current revision; any other changes nothing |
| TextEdit.Buffer.RecordLastCheckpoint | crates/hermito/src/buffer.rs:170-174 | only an ack of the current revision is recorded, and the dirty flag is left alone |
| TextEdit.PrefixIsLongest | crates/hermito/src/syntax/tree_sitter.rs:95-124 | the common prefix is at least as long as any other |
| TextEdit.SuffixIsLongest | crates/hermito/src/syntax/tree_sitter.rs:95-124 | the common suffix is at least as long as any other |
| TextEdit.DiffRebuilds | crates/hermito/src/syntax/tree_sitter.rs:95-124 | the difference of two texts, applied to the old one by the buffer, yields exactly the new one |
| TextEdit.DiffOnBoundaries | crates/hermito/src/syntax/tree_sitter.rs:95-124 | all three offsets of the difference are character boundaries in order, and the byte lengths agree |
| TextEdit.DiffIsSmallest | crates/hermito/src/syntax/tree_sitter.rs:95-124 | no description as prefix, change and suffix keeps more: the prefix is longest, then the suffix |
| TextEdit.DiffPoints | crates/hermito/src/syntax/tree_sitter.rs:95-124 | each of the three points leads back to its own byte of its own text |
| TextEdit.ByteToPoint | crates/hermito/src/syntax/tree_sitter.rs:126-145 | the loop computes newlines passed and bytes since the last one |
| TextEdit.PointRoundTrip | crates/hermito/src/syntax/tree_sitter.rs:126-145 | row and column lead back to the byte they were computed from |
| JournalFile.Recover | crates/hermito/src/persistence/journal.rs:170-219 | recovery from the bytes: nothing if they are not UTF-8, otherwise the lines folded into the latest map |
| JournalFile.RecoveredIsLatest | crates/hermito/src/persistence/journal.rs:182-215 | per document recovery returns the first record of highest revision, and a document exactly if some record holds it |
| JournalFile.ForeignLineIgnored | crates/hermito/src/persistence/journal.rs:182-215 | among decoded lines an empty, garbled or foreign one changes nothing |
| JournalFile.CorruptLineIgnored | crates/hermito/src/persistence/journal.rs:174-215 | a corrupt line of bytes among others changes nothing if and only if it is valid UTF-8 or nothing was recoverable |
| JournalFile.BadByteDiscardsAll | crates/hermito/src/persistence/journal.rs:174-177 | one byte that is not UTF-8 on a line of its own discards every checkpoint of the file |
| JournalFile.RecordReadsBack | crates/hermito/src/persistence/journal.rs:308-349 | a written record reads back as the same checkpoint, language included |
| JournalFile.WrittenRecord | crates/hermito/src/persistence/journal.rs:308-349 | the record on disk by its names: version 1, kind checkpoint, and the name of each language |
| JournalFile.BlanksIgnored | crates/hermito/src/persistence/journal.rs:178-182 | blanks and a carriage return around a record do not matter |
| JournalFile.Serialize | crates/hermito/src/persistence/journal.rs:308-349 | whatever order the map is written in, recovery from the written bytes finds exactly the map |
| Journal.JournalWorker.constructor | crates/hermito/src/persistence/journal.rs:235-257 | the worker starts with everything recovery found in the bytes of the file |
| Journal.JournalWorker.PersistCurrent | crates/hermito/src/persistence/journal.rs:308-349 | a write replaces the whole file, keeps it and fails, or replaces it and still fails |
| Journal.JournalWorker.Handle | crates/hermito/src/persistence/journal.rs:258-303 | one command with any outcome of its write acts like one step |
| Journal.AckMeansDurable | crates/hermito/src/persistence/journal.rs:261-279 | an ack is sent only when recovery would now return that very checkpoint, and exactly for submissions whose write succeeds |
| Journal.DurableStays | crates/hermito/src/persistence/journal.rs:258-303 | a durable checkpoint stays recoverable through any commands and failures until it is superseded |
| Journal.SeedsSurvive | crates/hermito/src/persistence/journal.rs:235-257 | what startup recovered is not lost by work on other documents |
| Journal.BadByteLosesAll | crates/hermito/src/persistence/journal.rs:170-279 | after a file with one bad byte the first successful write leaves only what it was given |
| Journal.NothingInvented | crates/hermito/src/persistence/journal.rs:258-303 | the file shows only what it started with or what was submitted |
| Journal.CompactionRemoves | crates/hermito/src/persistence/journal.rs:280-294 | a save removes its document exactly if the revision covers it and the write succeeds, and then from the file as well |
| Journal.CompactedStaysGone | crates/hermito/src/persistence/journal.rs:280-294 | a removed document stays away until submitted again |
| Journal.CompactionFinal | crates/hermito/src/persistence/journal.rs:258-303 | what a successful compaction covers stays out of the map for good, whatever fails later, if and only if no covered revision is submitted after it |
| Journal.NoRegress | crates/hermito/src/persistence/journal.rs:258-303 | with ascending submissions the revision on disk never goes back, in any run |
| Journal.RegressesExactlyBackward | crates/hermito/src/persistence/journal.rs:263-268 | the file goes back if and only if a checkpoint below the one in the file is submitted and its write replaces the file, whether it then succeeds or fails |
| JournalDelivery.JournalOutbox.TrySend | crates/hermito/src/persistence/journal.rs:65-83 | a command enters the queue exactly if the worker is connected and fewer than 16 are waiting |
| JournalDelivery.JournalOutbox.TryCheckpoint | crates/hermito/src/app.rs:1070-1088 | if there is room the checkpoint is queued, otherwise it is retained as it is unless one as new is; everything held before is held afterwards |
| JournalDelivery.JournalOutbox.CompactAfterSave | crates/hermito/src/app.rs:866-870 | afterwards the compaction or a later one is retained or queued, and so is every one that was before |
| JournalDelivery.JournalOutbox.ApplyJournalAck | crates/hermito/src/app.rs:1095-1110 | only what the ack covers may go, and afterwards nothing it covers is retained |
| JournalDelivery.JournalOutbox.RetryPendingCheckpoints | crates/hermito/src/app.rs:1112-1122 | the round offers every retained checkpoint once in some order, and everything held before is held afterwards |
| JournalDelivery.NewestNeverLost | crates/hermito/src/app.rs:1070-1158 | in every run each checkpoint handed over, or a newer one of its document, is retained or has entered the queue; likewise each compaction |
| JournalDelivery.RunMakesNothingUp | crates/hermito/src/app.rs:1070-1158 | over every run whatever is retained or was sent is one of the very payloads and compactions handed over |
| JournalDelivery.WorkerFollowsQueue | crates/hermito/src/persistence/journal.rs:144-155 | the worker's state is that of the journal run on what left the queue, in order |
| JournalDelivery.OrderlyIffNoStaleRetry | crates/hermito/src/app.rs:1112-1122 | the worker is given ascending revisions of every document if and only if no retry sent a checkpoint behind a newer one |
| JournalDelivery.PreservedIffLastIsNew | crates/hermito/src/app.rs:1070-1158 | in every run a checkpoint of whose document nothing is retained or queued, and which no compaction covers, is on disk after a flush exactly as it was handed over, or a newer one is, if and only if the last checkpoint of that document that entered the queue is at least as new |
| JournalDelivery.SettledMeansNewest | crates/hermito/src/app.rs:1150-1158 | so without stale retries every settled checkpoint, or a newer one, is on disk after a flush |
| JournalDelivery.StaleRetryLosesNewest | crates/hermito/src/app.rs:1112-1122 | a new checkpoint followed by a stale retry leaves the old one on disk with nothing retained or queued |
| JournalDelivery.StaleRetryRepaired | crates/hermito/src/app.rs:1112-1122 | a newer checkpoint behind a stale retry is on disk in the end |
| JournalDelivery.SavedComesBack | crates/hermito/src/app.rs:866-870 | a save whose checkpoint is still retained, then the retry: the saved revision is in the file again, with no stale retry and nothing retained or queued |
| JournalDelivery.RetentionIsReachable | crates/hermito/src/app.rs:1070-1088 | a checkpoint that meets a full queue is still retained when the queue is idle again |
| JournalDelivery.LossIsReachable | crates/hermito/src/app.rs:1112-1122 | the losing run exists from the start, with revisions submitted in ascending order |
| JournalDelivery.ReturnIsReachable | crates/hermito/src/app.rs:1112-1122 | so does the run that brings a saved document back |
| JournalDelivery.CompactionFinal | crates/hermito/src/app.rs:1124-1145 | in every run of application and worker a successful compaction has been final if and only if no covered revision entered the queue behind it and was handled |
| SaveQueue.SaveCoalesceState.Requested | crates/hermito/src/event_loop.rs:248-260 | a write starts exactly if none of the document is running; otherwise the request joins those made since |
| SaveQueue.SaveCoalesceState.Finished | crates/hermito/src/event_loop.rs:264-272 | the next write is the last request made since the finished one started; without any the document is idle |
| SaveQueue.SaveCompleted | crates/hermito/src/app.rs:850-880 | a successful write of the current revision cleans the buffer and asks for compaction; any other result leaves it |
| SaveQueue.WritesFollowRequests | crates/hermito/src/event_loop.rs:240-278 | in every run at most one write per document is running, writes follow the requests in order, and once idle the last written is the last requested |
| SaveQueue.CleanMeansWritten | crates/hermito/src/app.rs:850-880 | a buffer cleaned by a save and not edited since holds exactly the text of that write |
| SaveQueue.OnlyMatchingWriteCleans | crates/hermito/src/buffer.rs:161-166 | the dirty flag falls only at the successful result of writing the text the buffer still has |
| SaveQueue.MatchingWriteCleans | crates/hermito/src/app.rs:850-880 | a result cleans its buffer if and only if it is a success for the current revision and epoch, and touches no other |
| SaveQueue.RequestsAndEdits | crates/hermito/src/event_loop.rs:745-800 | a request carries revision and text of its buffer at that moment; an edit raises the revision and makes it dirty |
| ProjectTree.VisibleEntryCount | crates/hermito/src/project/tree.rs:80-92 | the count is the number of visible rows |
| ProjectTree.EntryPathAtRow | crates/hermito/src/project/tree.rs:96-122 | a row below the count gives the path shown there, any other none |
| ProjectTree.RowForEntryPath | crates/hermito/src/project/tree.rs:182-215 | a path gives the first row showing it, and none exactly if no row does |
| ProjectTree.VisibleMeansShown | crates/hermito/src/project/tree.rs:96-122 | a path is among the rows if and only if every directory above it is expanded |
| ProjectTree.RowsAreDistinct | crates/hermito/src/project/tree.rs:182-215 | with unique sibling names no path has two rows, so row and path determine each other |
| ProjectTree.AncestorsShow | crates/hermito/src/project/tree.rs:96-122 | whatever is visible has all its ancestors visible |
| ProjectTree.Flatten | crates/hermito/src/ui/project_tree.rs:84-95 | the renderer's recursion appends the rendered rows |
| ProjectTree.RenderedMatchesRows | crates/hermito/src/ui/project_tree.rs:84-95 | the rendered rows show, in the same order, the entries the row functions count |
| ProjectTree.Toggle | crates/hermito/src/project/tree.rs:154-178 | the recursion flips the flag at the named path, as the laws of `TreePaths` describe |
| TreePaths.ToggleSucceeds | crates/hermito/src/project/tree.rs:154-178 | a toggle succeeds if and only if the tree has a directory at that path, at any depth |
| TreePaths.ToggleFlipsOne | crates/hermito/src/project/tree.rs:154-178 | it negates the expansion flag at exactly that path and leaves every other flag |
| TreePaths.VisibleIffExpanded | crates/hermito/src/project/tree.rs:96-122 | a path shows if and only if the tree has it and every directory above it is expanded |
| TreePaths.ToggleShows | crates/hermito/src/project/tree.rs:154-178 | below the directory a path shows afterwards if and only if only that flag had hidden it |
| ProjectTree.ToggleTwice | crates/hermito/src/project/tree.rs:154-178 | toggling twice is no change |
| ProjectTree.ToggleKeepsShape | crates/hermito/src/project/tree.rs:154-178 | toggling keeps names, kinds and well-formedness |
| ProjectTree.ToggleVisibility | crates/hermito/src/project/tree.rs:154-178 | rows not below the toggled directory stay as they were, and rows below it show on at most one side |
| ProjectTree.HiddenMeansBelow | crates/hermito/src/app.rs:725-762 | what a toggle hides lies below the toggled directory, which stays visible |
| ProjectTree.SelectionJumps | crates/hermito/src/app.rs:748-750 | a tree whose expansion puts the selected file at row 65537, so that the stored row is that of another entry |
| ProjectTree.Project.TogglePath | crates/hermito/src/project/tree.rs:126-152 | a path below the root toggles its directory; the root and foreign paths do nothing |
| ProjectTree.Project.ToggleDir | crates/hermito/src/app.rs:725-762 | the selection goes to the entry selected before if it is still visible, otherwise to the toggled directory, and reaches it if and only if it stands among the first 65536 rows; a selection beyond the rows moves to the toggled directory, or to the last row |
| ProjectScan.BuildNested | crates/hermito/src/project/fs.rs:93-129 | grouping by first component and recursing ends, and builds the specified tree |
| ProjectScan.Group | crates/hermito/src/project/fs.rs:94-111 | one pass collects per first component the last kind listed and the remaining paths in order |
| ProjectScan.SortEntries | crates/hermito/src/project/fs.rs:131-145 | every level is sorted, and every directory below it |
| ProjectScan.BuiltContainsExactly | crates/hermito/src/project/fs.rs:93-129 | the tree of a proper scan contains exactly the listed paths with their kinds |
| ProjectScan.ReproducedIffScannable | crates/hermito/src/project/fs.rs:93-129 | the tree reproduces the list if and only if the list has no empty path, no path of two kinds and every parent listed as a directory |
| ProjectScan.BuiltIsWellFormed | crates/hermito/src/project/fs.rs:93-129 | for every list at all sibling names are unique and files childless |
| ProjectScan.SortedIsSorted | crates/hermito/src/project/fs.rs:131-145 | at every level directories come before files and names ascend |
| ProjectScan.SortedContainsSame | crates/hermito/src/project/fs.rs:131-145 | sorting neither loses nor adds an entry |
| ProjectScan.SortedIsWellFormed | crates/hermito/src/project/fs.rs:131-145 | sorting keeps names unique and files childless |
| ProjectScan.ScanBecomesTree | crates/hermito/src/project/fs.rs:47-145 | a proper scan becomes a sorted, well-formed tree with exactly its entries |
| ProjectScan.ScanShowsAll | crates/hermito/src/project/fs.rs:113-127 | after a scan exactly the listed paths show |
| ProjectScan.DirectoriesFirst | crates/hermito/src/project/fs.rs:131-145 | at every level no file comes before a directory, and names of one kind ascend |
| ProjectScan.NamesLexicographic | crates/hermito/src/project/fs.rs:131-145 | names are compared letter by letter, the shorter first |
| Multiplexer.NextKeepsSound | crates/hermito/src/remote/multiplexer.rs:305-341 | every step keeps table and channels matched, the table within 64 and answers with their own identifier |
| Multiplexer.ResultsAreFinal | crates/hermito/src/remote/multiplexer.rs:305-341 | over every interleaving a result and a delivered answer never change, so a request is answered at most once |
| Multiplexer.AnswersAreOwn | crates/hermito/src/remote/multiplexer.rs:305-411 | over every interleaving the table has at most 64 entries and an answered request has its own answer |
| Multiplexer.BeginEnters | crates/hermito/src/remote/multiplexer.rs:312-321 | a call is refused if and only if 64 are pending or its identifier is, and enters the table otherwise |
| Multiplexer.RoutedIsReceived | crates/hermito/src/remote/multiplexer.rs:372-411 | a waiting call whose answer is routed receives it, whatever others do in between |
| Multiplexer.AnsweredIffRouted | crates/hermito/src/remote/multiplexer.rs:305-411 | in every run a call that receives is answered if and only if its answer was routed while its entry was in the table |
| Multiplexer.CallIsAnswered | crates/hermito/src/remote/multiplexer.rs:305-411 | on a live transport with room a new call runs through to its own answer |
| Multiplexer.FailureTells | crates/hermito/src/remote/multiplexer.rs:322-339 | a call that fails reports why, and its entry leaves the table |
| Multiplexer.NobodyLeftWaiting | crates/hermito/src/remote/multiplexer.rs:463-480 | once the table is cleared no request that passed its alive check waits on an open channel |
| Multiplexer.LossReleasesCallers | crates/hermito/src/remote/multiplexer.rs:463-480 | after the loss every unfinished request can take a step of its own |
| Multiplexer.StepsLowerRank | crates/hermito/src/remote/multiplexer.rs:305-341 | each step of its own brings a request closer to a result and no step of others sets it back |
| Multiplexer.LossEndsCalls | crates/hermito/src/remote/multiplexer.rs:305-341 | however the steps interleave, after the loss a request takes at most three of its own, and three finish it |
| Multiplexer.NoneFoundAliveAfterLoss | crates/hermito/src/remote/multiplexer.rs:262-271 | after the loss is declared the alive check always refuses |
| Frame.BigEndianRoundTrip | crates/hermito-protocol/src/frame.rs:23-50 | the length field's bytes and number invert each other both ways |
| Frame.ClassRoundTrip | crates/hermito-protocol/src/frame.rs:23-50 | class and class byte invert each other both ways |
| Frame.HeaderRoundTrip | crates/hermito-protocol/src/frame.rs:23-50 | decoding inverts encoding, and whatever decodes is the encoding of its result |
| Frame.HeaderLayout | crates/hermito-protocol/src/frame.rs:23-34 | which byte of a header holds what, the length with its highest byte first |
| Frame.Pipe.WriteMessage | crates/hermito-protocol/src/frame.rs:264-291 | a message within its class limit is appended as one frame, any other leaves the stream alone |
| Frame.Pipe.ReadFrame | crates/hermito-protocol/src/frame.rs:228-254 | a read waits exactly while the budget lacks room for its payload, else takes one frame off the front or fails with the error and the leftover the code leaves; the budget is charged for the frame and for nothing else |
| Frame.FrameRoundTrip | crates/hermito-protocol/src/frame.rs:228-291 | an accepted message is read back whole and nothing behind it is touched |
| Frame.ReadIffFrame | crates/hermito-protocol/src/frame.rs:228-254 | a read succeeds if and only if the stream starts with a whole frame within the limits, and yields that frame and what follows |
| Frame.WhichError | crates/hermito-protocol/src/frame.rs:228-254 | which error a failing read reports and how much of the stream is gone |
| Frame.AcceptedSize | crates/hermito-protocol/src/frame.rs:76-87 | each class has its own limit for accepted messages, the extension classes one together |
| Frame.StreamRoundTrip | crates/hermito-protocol/src/frame.rs:228-291 | any list of accepted messages is read back in order with the same headers and payloads if and only if each finds room in the budget beside what is still held; otherwise right up to the read that waits |
| Frame.RoomIfDropped | crates/hermito-protocol/src/frame.rs:102-176 | a reader that drops each frame before the next read never waits |
| Frame.RoomIfKept | crates/hermito-protocol/src/frame.rs:102-176 | one that keeps every frame never waits if and only if the payloads fit the budget together |
| Frame.BudgetStaysBalanced | crates/hermito-protocol/src/frame.rs:102-176 | every step of reserving and dropping keeps semaphore and counter equal to what the permits hold |
| Frame.UsageWithinLimit | crates/hermito-protocol/src/frame.rs:102-176 | in every interleaving usage stays within the limit and returns to zero once all permits are gone |
| ProcessClosure.OwnedProcesses | crates/hermito/src/process/supervisor.rs:306-317 | for every snapshot the loop ends with the least closed set containing the start |
| ProcessClosure.OwnedMeansDescendant | crates/hermito/src/process/supervisor.rs:306-317 | that set is exactly the processes with a line of descent from the start |
| TerminalLifecycle.StepKeepsSafe | crates/hermito/src/app.rs:309-614 | no action leaves a terminal present or starting without trust, both at once, or captured without being present |
| TerminalLifecycle.RunKeepsSafe | crates/hermito/src/app.rs:309-614 | the same over every run |
| TerminalLifecycle.TrustRisesByGrantOnly | crates/hermito/src/app.rs:564-585 | an authority becomes trusted only by a grant with the grant control focused in the review, and only the current one |
| TerminalLifecycle.TrustHasAGrant | crates/hermito/src/app.rs:564-585 | in every run an authority trusted at the end but not at the start was granted in between while current |
| TerminalLifecycle.LaunchStep | crates/hermito/src/app.rs:455-614 | a launch stays wanted across an action exactly if the action is not a new start, blocked open, close, change of authority or revocation |
| TerminalLifecycle.WantedUntilInvalidated | crates/hermito/src/app.rs:455-614 | over every run a launch is still wanted if and only if nothing invalidated it |
| TerminalLifecycle.AttachOnlyIfWanted | crates/hermito/src/app.rs:1783-1828 | a result attaches a terminal if and only if nothing invalidated its launch, the session fits the epoch and takes the size |
| TerminalLifecycle.AttachesWhereStarted | crates/hermito/src/app.rs:1783-1820 | a launch that nothing invalidated attaches under the authority it was started for, still current and trusted |
| TerminalLifecycle.LaunchStarts | crates/hermito/src/app.rs:484-498 | a new launch is wanted if and only if opening was allowed and no terminal was running |
| TerminalLifecycle.WhenPresent | crates/hermito/src/app.rs:455-614 | when a terminal is present after an action: attached, or present before and not given up, replaced or failing |
| TerminalLifecycle.WhenCaptured | crates/hermito/src/app.rs:309-614 | when input goes to the terminal after an action |
| TerminalLifecycle.WhichAuthority | crates/hermito/src/app.rs:317-321 | cycling goes to the next authority and from the last to the first, selecting to the one named, nothing else moves |
| TerminalLifecycle.PaletteOffers | crates/hermito/src/app.rs:398-405 | the palette offers the review always and the revocation to a trusted authority only |
| TerminalLifecycle.ReviewStartsOnDeny | crates/hermito/src/app.rs:547-563 | a review never starts on the grant control |
| TerminalLifecycle.TerminalApp.constructor | crates/hermito/src/app.rs:1487-1516 | a restored application runs no terminal |
| TerminalLifecycle.TerminalApp.OpenTerminal | crates/hermito/src/app.rs:455-505 | a launch is wanted afterwards only under a trusted, connected authority, and no earlier one unless a running terminal was captured |
| TerminalLifecycle.TerminalApp.ApplyAction | crates/hermito/src/app.rs:309-614 | over every action: no terminal without trust, trust gained only by the focused grant, and a launch wanted until its result comes or something invalidates it |
| TerminalLifecycle.FocusReturns | crates/hermito/src/app.rs:346-373 | moving to the next control and back, in either order, leaves review and palette as they were |
| TerminalLifecycle.FocusMoves | crates/hermito/src/app.rs:346-373 | the next control is the other one of the review and the item below in the palette, and backwards the one above |
| TerminalLifecycle.TerminalApp.RegisterSshAuthority | crates/hermito/src/app.rs:1582-1615 | the authority is known afterwards, no authority became trusted and none changed its place |
| TerminalLifecycle.TerminalApp.TerminalInput | crates/hermito/src/app.rs:506-523 | a terminal ends exactly if captured input fails, and then nothing is captured |
| TerminalLifecycle.TerminalApp.CloseTerminal | crates/hermito/src/app.rs:529-539 | nothing runs, and no launch made so far can attach any more |
| TerminalLifecycle.TerminalApp.CycleAuthority | crates/hermito/src/app.rs:317-345 | once another authority is current nothing of the former one runs or can attach; no trust changes |
| TerminalLifecycle.TerminalApp.SelectSshAuthority | crates/hermito/src/app.rs:1617-1647 | the authority of that name is current, only as trusted as it was; nothing of the former one runs or can attach |
| TerminalLifecycle.TerminalApp.GrantTrust | crates/hermito/src/app.rs:564-585 | exactly the current authority gains trust, if the grant control of the review is focused, and no other ever does |
| TerminalLifecycle.TerminalApp.RevokeTrust | crates/hermito/src/app.rs:586-614 | exactly the current authority loses its trust, nothing runs and no launch made so far can attach |
| TerminalLifecycle.TerminalApp.ActivateFocused | crates/hermito/src/app.rs:374-391 | no palette item grants trust, and what takes trust away stops the terminal and every launch |
| TerminalLifecycle.TerminalApp.AttachTerminal | crates/hermito/src/app.rs:1783-1820 | a terminal appears if and only if its launch was wanted and the session fits; the result is used up, other launches are not touched |
| TerminalLifecycle.TerminalApp.FailTerminalStart | crates/hermito/src/app.rs:1822-1828 | a failure ends the wait for its own launch only and touches no terminal |

## Left out

- TerminalLifecycle.LaunchStep: launch numbers are unbounded, so the wrap-around of the 64-bit counter is not modelled; nor is that of revisions.
- Frame.Pipe.ReadFrame: what others give back while a read waits is a parameter, so the order in which waiting reads are served is not modelled.
- JournalFile.Recover: the JSON library is a parameter of which only the round trip of one record is used; a file that cannot be opened is not told apart from an empty one.
- SaveQueue.WritesFollowRequests: the event loop and its channels are steps over values in `System`; the coalescing object and the buffer are the classes.
- Coordinate.SnapToGraphemeStart: grapheme clusters and widths are given with the document, so segmentation by the Unicode tables is not modelled, nor are line breaks other than CR, LF and CRLF.
- The recording of an ack in its buffer is `RecordLastCheckpoint`; the table of open buffers is not modelled.
- The coalescing of project file reads and of syntax jobs: the saving queue without its per-document bookkeeping.
- PTY streams, version negotiation and the generation counter of the multiplexer.
- The second branch of `bounded_dimensions` can never be taken, because 500 times 500 is exactly the cell limit; it is kept in `BoundedDimensions`.
- `next_char_boundary` in snapping is never reached on text and is not modelled.
- The rounds of signals around the descendant search, and process output capture.
- Rendering, themes, layout, key and mouse mapping, configuration, and file names that are not UTF-8.
- Real input and output, SSH, update metadata, child processes and their signals.
