# emrl — embedded readline, modelled in Dafny

emrl is a line editor for small systems. Bytes arrive one at a time through
`emrl_process_char`. It keeps one record, `struct emrl_res`, which holds:

- a 128-byte command buffer with a cursor and a fill pointer;
- a matcher for a caller-chosen line delimiter;
- a four-state parser for ANSI escape sequences (`none`, `new`, `ss3`, `csi`) with a 6-byte capture buffer.

Every edit writes control strings through an `fputs`-like callback so that the
terminal keeps showing the line as it is in the buffer. The POSIX example
program queues this output in a circular byte buffer, the output ring, and
writes one byte of it per timer tick.

The project has these modules:

- `Types` (types.dfy): bytes, the buffer sizes (`EMRL_MAX_CMD_LEN` = 127, `esc_buf[6]`) and the ASCII constants.
- `Decimal` (decimal.dfy): the `%zu` decimal rendering used in `ESC [ n @`, with its parser as a partner.
- `Printable` (printable.dfy): `char_to_printable` as a pure function, its decoder, and the `^[…` echo of an unrecognised escape sequence.
- `Terminal` (terminal.dfy): an idealised ECMA-48 / VT100 line. It is written from the meaning of BS, ICH (`CSI n @`), CUF (`CSI n C`), CUB (`CSI n D`) and DCH (`CSI n P`), independently of the editor. It is the reference the editor's output is checked against.
- `LineEdit` (line_edit.dfy): the buffer edits `add_string`, `erase_back`, `erase_forward` and the arrow steps, as functions on a value `Line(text, cursor)`. Lemmas show that a terminal that showed the old line shows the new one after reading what was printed, and that the edits undo one another.
- `Engine` (engine.dfy): `emrl_process_char` as a function `Step` on a value `State`, and `Run` over a whole input. Lemmas cover the delimiter matcher, the escape parser, CSI interpretation, the unknown-sequence echo and the invariants of a whole run.
- `Mem` (mem.dfy): `memmove` and `memcpy` on a byte array.
- `Emrl` (emrl.dfy): `struct emrl_res` as the class `Editor`. It has a 128-byte `cmdBuf` array and a 6-byte `escBuf` array, shifted in place with `Memmove`/`Memcpy`. A ghost log `out` holds every string handed to `fputs`. Each method is proved to leave the record in exactly the state, and to print exactly the strings, that the matching `Engine`/`LineEdit` function gives.
- `PosixRing` (ring.dfy): `struct ring` as the class `Ring`. The ghost fields `queued` and `sent` record every byte put in and every byte written out. The class invariant `queued == sent + Pending()` states that bytes leave in the order they were queued.

### Where the code and its documentation differ

The model follows the code in each of these cases:

- **Control bytes take two buffer positions.** A control byte is stored in the buffer as its two-byte caret rendering (`^A`), so it occupies two positions, not one (`Engine.ControlByteTakesTwoPositions`).
- **Delimiter prefixes are inserted as keys.** A byte that only advances a multi-byte delimiter is still inserted as an ordinary key (`Engine.NonFinalByteIsKey`).
- **Overlapping delimiter prefixes are missed.** A mismatch restarts the delimiter match without re-testing the byte, so an input such as "aab" never matches the delimiter "ab" (`Engine.OverlappingPrefixUnderMatches`).
- **No history.** Up and Down are recognised and do nothing; there is no history in this code.
- **High bytes can render as non-printable.** For a byte of 128 or more, `char_to_printable` always uses the caret form after `M-`. So 0xBF to 0xFE render with a last byte of DEL or above (`Printable.HighByteRenderingNotPrintable`).

## Model

| member | source | states |
|---|---|---|
| Decimal.Format | emrl.c:284 | the `%zu` rendering of n: non-empty, all digits, no leading zero, one digit exactly when n < 10 |
| Decimal.FormatValue | emrl.c:284 | the rendering reads back as n |
| Printable.CaretOf | emrl.c:376 | the caret letter is never a C0 control byte (it is at least 0x20; DEL renders as `?`) |
| Printable.CharToPrintable | emrl.c:351-382 | length 1, 2 or 4 (the C return value); a printable byte is itself; otherwise `^` then the caret letter, preceded by `M-` exactly for bytes of 128 or more; no byte below 0x20 (DEL and 0x80–0xBE can occur, see `Printable.HighByteRenderingNotPrintable`) |
| Printable.PrintableExactlyWhenSelf | emrl.c:355-358 | `IsPrint` is `isprint` in the C locale (0x20–0x7E): a byte is printable exactly when `char_to_printable` passes it through unchanged |
| Printable.PrintableRoundTrip | emrl.c:351-382 | decoding the rendering gives the byte back |
| Printable.FromPrintableExact | emrl.c:351-382 | any string that decodes to c is exactly c's rendering |
| Printable.PrintableInjective | emrl.c:351-382 | different bytes render differently |
| Printable.HighByteRenderingNotPrintable | emrl.c:363-376 | bytes 0xBF to 0xFE render with a last byte that is DEL or above |
| Printable.Rendered | emrl.c:338-342 | the rendering of each captured byte in turn: between one and four bytes per byte, no byte below 0x20 (DEL and 0x80–0xBE can occur) |
| Printable.RenderedPrintable | emrl.c:355-358 | printable bytes render as themselves |
| Printable.RenderedAppend | emrl.c:338-342 | rendering distributes over concatenation |
| Printable.UnknownEcho | emrl.c:330-342 | `^[` and then the rendering of the capture; no byte below 0x20 (DEL and 0x80–0xBE can occur); at most 4 bytes per captured byte plus 2 |
| Printable.UnknownEchoExample | emrl.c:323-345 | the capture `[99~` echoes as `^[[99~` |
| LineEdit.AddString | emrl.c:248-296 | all or nothing: if the string fits (fill + len < 127), it is inserted at the cursor with the rest of the line kept after it and the cursor just past it; otherwise nothing changes and nothing is printed; at the end of the line exactly the string is printed; in the middle a single byte is printed after `ESC [ @` in one string, a longer string after `ESC [ n @` |
| LineEdit.AcceptedExactlyWhenFits | emrl.c:253 | `Fits` is the capacity test `p_cmd_last - p_cmd_free > add_len`: a non-empty string is inserted exactly when it fits, and an accepted string leaves at most 126 bytes, so the NUL still has room |
| LineEdit.InsertBlanks | emrl.c:284 | the `"\033[%zu@"` string: `ESC [`, then decimal digits that read back as n, then `@` |
| LineEdit.FeedInsertBlanks | emrl.c:284 | a terminal reading `ESC [ n @` opens n blank cells at the cursor and leaves the cursor where it was |
| LineEdit.EraseBack | emrl.c:216-246 | no-op at the start; otherwise the byte before the cursor is removed, cursor and fill drop by one, and `\b \b` is printed at the end of the line or `\b ESC [ P` in the middle |
| LineEdit.EraseForward | emrl.c:199-214 | no-op at the end; otherwise the byte under the cursor is removed, the cursor stays, and `ESC [ P` is printed |
| LineEdit.StepRight | emrl.c:160-167 | the cursor moves right one place, printing `ESC [ C`, unless it is at the fill point; the content is unchanged |
| LineEdit.StepLeft | emrl.c:169-176 | the cursor moves left one place, printing BS, unless it is at the start; the content is unchanged |
| LineEdit.AddStringKeepsDisplay | emrl.c:255-291 | after `add_string` of a non-empty string, a terminal that showed the old line shows the new line and cursor |
| LineEdit.EraseBackKeepsDisplay | emrl.c:219-243 | after `erase_back` the terminal shows the new line and cursor |
| LineEdit.EraseForwardKeepsDisplay | emrl.c:202-213 | after `erase_forward` the terminal shows the new line and cursor |
| LineEdit.StepKeepsDisplay | emrl.c:160-176 | after an arrow step the terminal shows the line and the new cursor |
| LineEdit.EraseBackUndoesAdd | emrl.c:216-296 | `erase_back` right after an `add_string` of one byte that fit restores the buffer |
| LineEdit.EraseForwardUndoesAdd | emrl.c:169-296 | a Left step then `erase_forward` right after an `add_string` of one byte that fit restores the buffer |
| LineEdit.ArrowsUndo | emrl.c:160-176 | Left then Right, or Right then Left, restores the cursor wherever the first step moved |
| LineEdit.TypedFromEmpty | emrl.c:248-296 | adding fewer than 127 bytes one by one with `add_string` to an empty buffer leaves exactly those bytes, with the cursor at the end; by `Engine.TypingPrintableText` this is what typing printable text that shares no byte with the delimiter does |
| LineEdit.LeftStepsFrom | emrl.c:169-176 | n Left steps from cursor c (n ≤ c) leave the cursor at c − n |
| LineEdit.ForwardDeletesFromStart | emrl.c:199-214 | n forward deletes at the start remove the first n bytes |
| LineEdit.TypeWalkBackDelete | emrl.c:160-296 | adding bytes one by one with `add_string`, stepping back over them and deleting them forward leaves the empty buffer |
| Engine.ResetEsc | emrl.c:323-349 | afterwards no escape is open and the capture is empty; a recognised sequence changes nothing else; nothing is returned |
| Engine.InterpretCsi | emrl.c:144-197 | a complete CSI sequence always ends with the parser reset and no line returned |
| Engine.EscapeStep | emrl.c:103-142 | a byte inside an escape never returns a line or moves the delimiter match |
| Engine.Key | emrl.c:83-99 | an ordinary key never returns a line or moves the delimiter match |
| Engine.Step | emrl.c:56-100 | the editor's invariant is kept: 0 ≤ cursor ≤ fill ≤ 126, no byte below 0x20 in the buffer (DEL and 0x80–0xBE can occur), match position inside the delimiter, capture consistent with the parser state |
| Engine.Run | emrl.c:56-100 | the invariant holds after any input |
| Engine.InitialState | emrl.c:41-53 | the state `emrl_init` sets up: empty buffer, cursor at the start, match at the delimiter's first byte, no escape, empty capture; the invariant holds |
| Engine.RunAppend | emrl.c:56-100 | feeding two inputs one after the other is the same as feeding their concatenation: the lines and the output of the second follow those of the first |
| Engine.StepReturnsLine | emrl.c:60-76 | a line is returned exactly when no escape is open and the byte completes the delimiter; it is the whole buffer content, nothing is printed, and buffer and matcher are reset |
| Engine.EscapeBypassesDelimiter | emrl.c:60-64 | while an escape is open no line is returned and the delimiter match is untouched |
| Engine.NonFinalByteIsKey | emrl.c:66-97 | a byte that does not complete the delimiter is processed as a key, advancing the match on a hit and resetting it on a miss |
| Engine.OverlappingPrefixUnderMatches | emrl.c:66-81 | with delimiter "ab", input "aab" returns no line |
| Engine.EscNewTransitions | emrl.c:109-125 | from `new`, `[` opens CSI, `O` opens SS3, anything else is rejected and echoed |
| Engine.Ss3AlwaysRejects | emrl.c:126-129 | the byte after `ESC O` always ends the sequence as unknown |
| Engine.CsiTransitions | emrl.c:130-141 | in CSI a final byte 0x40–0x7E is interpreted, a non-final fifth byte is rejected, any other byte is kept |
| Engine.CsiMeaning | emrl.c:144-197 | `[C`/`[D` step right/left, `[A`/`[B` do nothing, `[3~` deletes forward, anything else is echoed as text |
| Engine.EscOpensCsi | emrl.c:109-115 | ESC `[` opens a CSI capture holding `[`, printing nothing and returning no line |
| Engine.CsiCapturesQuietly | emrl.c:130-141 | inside CSI, bytes outside 0x40–0x7E are appended to the capture without output while the capture has room |
| Engine.CsiFinalByte | emrl.c:130-135 | a byte in 0x40–0x7E ends a CSI sequence: it is interpreted together with the capture, and no line is returned |
| Engine.UnknownSequenceEchoed | emrl.c:103-197 | ESC `[99~` inserts `^[[99~` (subject to capacity) and returns the parser to no escape |
| Engine.BackspaceByteIsText | emrl.c:83-96 | only DEL erases backward; BS is inserted as `^H` |
| Engine.ControlByteTakesTwoPositions | emrl.c:93-96 | Ctrl-A at the end of the line adds the two bytes `^A` and prints them |
| Engine.PrintableByteIsTyped | emrl.c:66-96 | outside an escape, a printable byte that is not the next delimiter byte is `add_string` of the byte itself, prints what that prints, and restarts the match |
| Engine.TypingPrintableText | emrl.c:56-100 | feeding printable text that shares no byte with the delimiter returns no line and leaves the buffer as adding its bytes one by one with `add_string` (`Typed`) |
| Engine.RunLinesWellFormed | emrl.c:56-100 | every line returned during any run has at most 126 bytes and no byte below 0x20, hence no NUL (DEL and 0x80–0xBE can occur) |
| Engine.StepKeepsDisplay | emrl.c:56-100 | after any byte, a terminal that showed the buffer shows the new buffer; after a returned line the buffer is empty |
| Mem.Memmove | emrl.c:206 | each destination byte holds the old source byte at the same offset, everything else is unchanged, overlap included |
| Mem.Memcpy | emrl.c:259 | the string is copied at the destination, everything else is unchanged |
| Emrl.Editor.constructor | emrl.c:41-53 | the record starts empty: cursor and fill at the start, no escape, match at the delimiter's first byte, nothing printed |
| Emrl.Editor.ProcessChar | emrl.c:56-100 | the record and the log change exactly as `Step` says; a returned line sits NUL-terminated at the start of `cmd_buf` |
| Emrl.Editor.ProcessEscapeState | emrl.c:103-142 | the byte is captured and the record and log change exactly as `EscapeStep` says |
| Emrl.Editor.Capture | emrl.c:107 | `*p_esc++ = chr`: the byte is appended to the capture, which grows by one; the command buffer is untouched |
| Emrl.Editor.InterpretCsiEscape | emrl.c:144-197 | the record and log change exactly as `InterpretCsi` says |
| Emrl.Editor.EraseForward | emrl.c:199-214 | `cmd_buf`, fill and log change exactly as `LineEdit.EraseForward` says |
| Emrl.Editor.EraseBack | emrl.c:216-246 | `cmd_buf`, cursor, fill and log change exactly as `LineEdit.EraseBack` says |
| Emrl.Editor.AddString | emrl.c:248-296 | `cmd_buf`, cursor, fill and log change exactly as `LineEdit.AddString` says |
| Emrl.Editor.CopyAtFill | emrl.c:259-260 | `memcpy` at the fill point: the string follows the old content and fill advances by its length |
| Emrl.Editor.InsertAtCursor | emrl.c:266-269 | `memmove` of the tail then `memcpy` at the cursor: the string sits at the cursor with the old tail after it, and fill advances by its length |
| Emrl.Editor.RemoveAt | emrl.c:206-207 | `memmove` down by one closes the gap: the byte at the given offset is removed, the bytes after it move down, and fill drops by one |
| Emrl.Editor.ResetEsc | emrl.c:323-349 | the capture is echoed unless recognised, then cleared, as `Engine.ResetEsc` says |
| Emrl.Editor.RenderCapture | emrl.c:330-342 | the do-while loop builds `^[` followed by the rendering of every captured byte |
| PosixRing.Ring.constructor | examples/posix.c:73-79 | both pointers at the start of the buffer; nothing pending |
| PosixRing.Ring.IsEmpty | examples/posix.c:410-413 | the pointers meet exactly when nothing is pending |
| PosixRing.Ring.Puts | examples/posix.c:415-430 | the string is appended to the pending bytes in order; `p_put` advances by its length, restarting from the start of the buffer at `p_end` (an exact fit leaves it at the start); `p_get` is unchanged |
| PosixRing.Ring.CopyIn | examples/posix.c:415-430 | each slot holds the string byte meant for it, with one wrap at `p_end`, or its old byte; `p_put` advances by the string's length, restarting at the start |
| PosixRing.PutsPending | examples/posix.c:419-429 | copying with one wrap appends the string to the bytes read forward from `p_get` |
| PosixRing.Ring.WriteFromRing | examples/posix.c:439-461 | empty ring: nothing happens; a positive write sends the oldest pending byte and advances `p_get` by one, wrapping at `p_end`; zero or EAGAIN/EWOULDBLOCK changes nothing; any other error is fatal; bytes leave in the order they were queued |

## Left out

- `reprint_from_cursor` (emrl.c:298-321) is compiled out, because both `USE_INSERT_ESCAPE_SEQUENCE` and `USE_DELETE_ESCAPE_SEQUENCE` are defined (emrl_config.h:17-18). Only the escape-sequence output paths are modelled.
- The `fputs` callback and its `FILE*` are a ghost log of the strings printed. Their result is ignored by the code, so sink errors are not modelled.
- `snprintf` is replaced by `Decimal.Format`. The 16-byte buffer is never short, because at most 126 bytes are ever inserted.
- `isprint` is taken in the C locale: 0x20 to 0x7E are printable.
- `char` signedness is not modelled: bytes are 0 to 255. Every comparison the code makes gives the same answer for a signed or an unsigned `char`.
- There is no history ring. `emrl_add_to_history` (examples/posix.c:501) is not part of this model.
- Most of examples/posix.c is outside the model: argument parsing, termios, sockets, signals, timers, the `read`/`write` system calls, `feed_emrl` and `perror_exit`. The result of `write` and whether its error was EAGAIN/EWOULDBLOCK are parameters of `WriteFromRing`; a fatal error is reported as `fatal`, not acted on.
- PosixRing.Ring.Puts requires the pending bytes plus the string to be fewer than the 159-byte buffer. The C code does not check this, and an overrun would silently lose the queued bytes. The example program only feeds a byte to the editor when the ring is empty.
- LineEdit.AddStringKeepsDisplay requires a non-empty string, because `ESC [ 0 @` inserts one blank on a real terminal. The editor never adds an empty string: every rendering has at least one byte.
- The terminal reference treats every byte of 0x20 or more as one glyph cell, including DEL and 0x80 to 0xBE, which the caret rendering of high bytes can produce. Real terminals ignore DEL and may treat those bytes as parts of UTF-8 or C1 controls, so the display lemmas are about an 8-bit terminal that shows them.
- The terminal has no right margin and no line wrap: a line of up to 126 bytes after the prompt is taken to fit.
