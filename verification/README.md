# Console line editor, camera capture and formatted output: a verified model

Dafny model and proofs for three parts of the firmware that carry real algorithms:

* **microrl**, the line editor behind the debug console. A 64-byte ring of length-prefixed records keeps the
  history, a 101-byte buffer is edited in place, a tokenizer finds the words of a line, and an escape-sequence
  automaton and about twenty keys drive a terminal through cursor codes. The ring is proved to be a queue of
  lines, the buffer a text split at the cursor, and the terminal row a mirror of the buffer, key after key over
  whole runs.
* **Frame capture** by DCMI over double-buffered DMA. A frame too long for one DMA request is split into `2^m`
  chunks, and an interrupt handler re-aims two address registers while the stream alternates between them. The
  walk is proved over unboundedly many completions, together with what it leaves in memory, where it goes when it
  begins on the wrong foot, and the state and lock discipline of the DMA handle.
* **tiny-printf**: digits generated last one first into 32-character buffers, padding, rounding, and the same
  text whatever the sink. Reference: ISO/IEC 9899:2011 sections 7.21.6.1 and 7.21.6.5. The terminal codes are
  those of ECMA-48 sections 8.3.18 (CUB), 8.3.20 (CUF) and 8.3.41 (EL).

Code that updates state in place is a class whose methods are proved against functions on values
(`Microrl.Editor` against `LineEditor.Step` and over whole runs in `Console.Process`, `History.RingHistory` against `HistoryQueue.Save` and `Navigate`,
`DmaStream.Stream` against `DmaHandle.Serve`, `Camera.Dcmi` against `FrameWalk.XferCplt`, `Formatter.Vsnprintf`
against `Formatter.Render`); the lemmas about whole runs are about those functions.

`dafny verify dfyconfig.toml` checks everything.

## Files

| files | what they model |
|---|---|
| `Config`, `Memory`, `Text`, `Arithmetic` | constants, `memmove`/`memset`/`strcpy`, shared character functions, quotient lemmas |
| `HistoryQueue`, `History` | the history as a queue of lines; the ring that implements it |
| `Tokens`, `CursorCodes`, `Terminal` | words of a line, cursor codes, one terminal row |
| `LineEditor`, `Microrl` | keys on values; the editor that runs |
| `ScreenMirror`, `EditorRuns`, `TypedLines`, `CursorRuns`, `HistoryKeys` | properties of whole runs of keys |
| `EnterLines`, `OtherKeys`, `ShownRows` | what Enter executes, prints and keeps; keys and sequences that do little or nothing; what a typed line looks like |
| `Console` | the editor at work on everything it receives |
| `DmaHandle`, `DmaStream` | the DMA handle on values; the driver |
| `DmaCalls` | what each call and interrupt does to registers, handle and callbacks |
| `FrameWalk`, `FrameMemory`, `StaleTarget`, `Camera` | splitting and walking a frame; memory after it; a start on a leftover target bit; the DCMI driver |
| `Digits`, `Output`, `IntegerText`, `FloatText`, `ScientificText`, `Formatter` | digit strings, sinks, conversions, formats |
| `IntegerLayout`, `Directives`, `StandardText` | integer layouts, directives as they are written, and their meaning by section 7.21.6.1 |
| `HashLayout`, `HashDirectives` | the same with '#' |
| `TextDirectives`, `FixedDirectives`, `ExponentDirectives` | the same for strings, characters and addresses, for "%f", and for "%e", "%g" and special values |
| `Formats` | whole formats of plain text and directives |

## Where the code is not what one would expect

Each of these is kept as it is in the code, and proved with its exact condition.

* ^K shortens the line without writing a terminator, so a command receives the last word together with stale
  bytes behind it (`EditorRuns.ArgvIsWordsIffTerminated`; what it receives is `CutWordRunsOn`).
* The escape character does not wipe the trace of the sequence before it, so after any sequence in brackets an escape
  and a letter A to D without a bracket act as an arrow key (`OtherKeys.LeftoverActs`).
* Enter on eight or more words prints a message that ends in a carriage return only, so the new prompt overwrites
  just its beginning; the console's own ^C message loses the prompt. Every other key keeps the row right
  (`ScreenMirror.StepMirrors`); ^R repairs it (`RedrawRecovers`). Eight words are refused although eight fit the
  token array, so seven are the most; the configuration comment reads as if eight were allowed.
* A start of a double-buffered capture does not clear the stream's target bit, which a capture stopped after an odd
  number of chunks leaves set (`StaleTarget.StoppingLeavesTarget`). The capture then goes through the frame chunk by
  chunk if and only if the bit was clear (`CaptureWalksIff`). With the bit set and four chunks or more, the first
  round is scrambled chunk by chunk (`StaleChunks`) and chunk `n` is written behind the end of the frame buffer
  (`StaysInsideIff`, `StrayChunkIsStored`); after `n + 1` chunks the walk is right again, one chunk late
  (`StaleHeals`, `StaleWalksOn`). `Camera.Dcmi.StartDma` states the outcome for the driver.
* A frame whose length is no multiple of the number of chunks leaves words over. They are not skipped: they become
  the beginning of the next round, so every round drifts further from the camera's frames. Frame `f` is shown in its
  place if and only if `f` is 0 or nothing is left over (`FrameMemory.FrameIsShownIff`, by how much: `DriftIs`).
* The polling multi-buffer start keeps the lock when the handle is not ready (`DmaHandle.MultiBufferStartKeepsOwnedIff`).
* Integer directives without '#' differ from the standard's reading in five ways, and in no other (`StandardText.FormatIsStandardIff`
  says when): `-` drops the zeros a precision asks for; what exceeds 32 characters loses its front, where a `' '` sign
  can be made up for by a padding space (`BlankMadeUp`); a negative precision argument counts as zero instead of none
  (`NegativePrecisionLosesZero`, `NegativePrecisionLosesFill`); `%hhd` has no negative values; widths and precisions
  in the format wrap at 2^32.
* `#` makes the base prefix take the place of real digits when they fill the width, or in hexadecimal would with one
  padding zero (`IntegerLayout.HashShowsDigitsIff`, example `HashDropsDigits`). In base 8 a precision gets one zero too many, and in
  base 2 a width filled with zeros does; `HashDirectives.HashDirectiveIsStandardIff` says exactly when the text is right.
* A negative precision argument counts as zero for strings and reals too: `%.*s` with -1 prints nothing
  (`TextDirectives.StringIsStandardIff`, example `NegativePrecisionLosesString`), and `%.*f` prints no decimals instead
  of six (`FixedDirectives.FixedIsStandardIff`).
* `%e` of a number whose mantissa is rounded up to ten prints two digits before the point
  (`ExponentDirectives.ExponentIsStandardIff`, example `MantissaOfTen`). `%g` keeps trailing zeros, and without a
  precision prints one digit too many outside 0.0001 to 1000000 (`GeneralIsFixed`, `GeneralIsExponent`). Above a billion
  `%f` prints an exponent (`LargeIsExponent`). Infinities and NaN are in lower case whatever the conversion, and `0`
  takes away the spaces around them (`SpecialIsWord`).
* A fraction exactly half a unit above all nines forgets the carry and prints a one among zeros, without a point
  (`FloatText.PrintedIsNearIff`, `TiePrints`, example 0.95 with one decimal). From the tenth decimal on only zeros are
  printed (`WideIsNearIff`), and past a precision of 41 the table of powers is read out of bounds
  (`TableIsInBoundsIff`).

## Model

| member | source | states |
|---|---|---|
| HistoryQueue.EvictIsMinimal | 3rdparty/microrl/microrl.c:65-87 | eviction ends, drops the oldest lines only, makes room, and no smaller number of lines would have |
| HistoryQueue.SaveKeepsProper | 3rdparty/microrl/microrl.c:81-105 | saving a non-empty line keeps at most 63 bytes of records and every line savable |
| HistoryQueue.HistoryIsLongestFittingSuffix | 3rdparty/microrl/microrl.c:81-105 | after any run of saves the history is the longest run of most recent lines (of at most 62 bytes) that fits beside the terminator |
| HistoryQueue.UpsWalkBack | 3rdparty/microrl/microrl.c:126-151 | k Ups show the k-th newest line and stop at the oldest with nothing shown |
| HistoryQueue.DownsWalkForward | 3rdparty/microrl/microrl.c:153-174 | j Downs show the next newer lines and end at the empty line |
| HistoryQueue.UpsThenDowns | 3rdparty/microrl/microrl.c:113-177 | k Ups and then j < k Downs show line count-(k-j) |
| History.DecodeEncode | 3rdparty/microrl/microrl.c:113-124 | walking the headers of encoded records up to the zero terminator recovers the lines |
| History.StoredIsDecoded | 3rdparty/microrl/microrl.c:113-124 | the 64 bytes read from `begin`, wrapping, decode to exactly the stored lines for every wrap of header and payload |
| History.HeaderAt | 3rdparty/microrl/microrl.c:117-124 | after any prefix of records a header walk meets the next line's length and bytes, and the wrapped next header |
| History.StoresOneMore | 3rdparty/microrl/microrl.c:93-104 | header, payload and new terminator written over the old terminator store one more line |
| History.RecordWritten | 3rdparty/microrl/microrl.c:93-104 | copying the payload and setting header and terminator keeps all older records and appends the line |
| History.RingHistory.constructor | 3rdparty/microrl/microrl.c:320-327 | a fresh ring is valid and empty |
| History.RingHistory.HeaderAtBegin | 3rdparty/microrl/microrl.c:67-68 | `begin == end` exactly when the history is empty, and then the header at `begin` is zero |
| History.RingHistory.DecodesToLines | 3rdparty/microrl/microrl.c:113-124 | the bytes of a valid ring alone determine its lines |
| History.RingHistory.EraseOlder | 3rdparty/microrl/microrl.c:54-61 | drops exactly the oldest line |
| History.RingHistory.IsSpaceForNew | 3rdparty/microrl/microrl.c:65-77 | true exactly when the ring is empty or used + len + 2 is at most 64 |
| History.RingHistory.SaveLine | 3rdparty/microrl/microrl.c:81-109 | refines the queue's save: appends after minimal eviction, ignores lines over 62 bytes and then leaves `cur` |
| History.RingHistory.AppendRecord | 3rdparty/microrl/microrl.c:88-104 | writes the record with any wrap of payload or terminator; the lines grow by exactly the new one |
| History.RingHistory.CopyPayload | 3rdparty/microrl/microrl.c:92-99 | the payload lands behind the header, wrapped, and nothing else changes |
| History.RingHistory.CountRecords | 3rdparty/microrl/microrl.c:115-124 | the header walk counts the lines |
| History.RingHistory.Seek | 3rdparty/microrl/microrl.c:128-136 | the second walk ends at the header of the wanted record, or at the terminator if there is none |
| History.RingHistory.CopyOut | 3rdparty/microrl/microrl.c:139-147 | the record's payload reaches the line unchanged for every wrap, and nothing behind it changes |
| History.RingHistory.RestoreLine | 3rdparty/microrl/microrl.c:113-177 | refines navigation: line, length and `cur`; an Up at the oldest line changes nothing |
| Tokens.StartsAreExact | 3rdparty/microrl/microrl.c:189-210 | the word starts are all places a word begins, in order, once each |
| Tokens.WordIsMaximal | 3rdparty/microrl/microrl.c:189-210 | every word is non-empty, separator-free and bounded by separators or the ends of the text |
| Tokens.Split | 3rdparty/microrl/microrl.c:189-210 | returns exactly the word starts of the first `limit` bytes when there are at most seven, else -1 |
| Terminal.ExecControl | 3rdparty/microrl/microrl.c:257-279 | a terminal that receives a control sequence performs it with exactly the number written in it |
| CursorCodes.U16BitToStr | 3rdparty/microrl/microrl.c:237-253 | writes the decimal digits of 1..65535 and a terminator, no digits for 0 or larger numbers, and touches nothing else |
| CursorCodes.MoveCursorCode | 3rdparty/microrl/microrl.c:257-279 | forward code for positive, back code for negative, nothing for zero, and its 16-byte buffer holds it |
| CursorCodes.ResetCursorCode | 3rdparty/microrl/microrl.c:282-299 | the two codes that go past the margin and forward over the prompt fit the 16-byte buffer |
| LineEditor.SavedStorable | 3rdparty/microrl/microrl.c:544-546 | saving a line keeps the history's storage bound, and keeps it free of spaces and control characters if the line is |
| LineEditor.Run | 3rdparty/microrl/microrl.c:566-697 | every run keeps: text of at most 100 bytes with the cursor inside, a final zero, no space or control character in line or history, records of at most 63 bytes, `cur` within the history |
| LineEditor.InsertedOneByOne | 3rdparty/microrl/microrl.c:433-452 | inserting a text that fits equals inserting its characters one after the other, bytes behind the text included |
| LineEditor.RunConcat | 3rdparty/microrl/microrl.c:566-697 | a run of keys is the run of its parts: output and calls concatenate |
| Microrl.InsertedIsInsert | 3rdparty/microrl/microrl.c:436-449 | the buffer after move, copy and terminator is the split text with the new text at the cursor |
| Microrl.RubbedOutIsBackspace | 3rdparty/microrl/microrl.c:459-464 | the buffer after the move down is the split text without its last left character |
| Microrl.RestoredIsRecalled | 3rdparty/microrl/microrl.c:366-369 | a restored buffer is the recalled line with the bytes an Up or a Down leaves behind it |
| Microrl.Editor.constructor | 3rdparty/microrl/microrl.c:320-342 | empty line, empty history, prompt printed; `escape_seq` keeps what was in memory |
| Microrl.Editor.InsertText | 3rdparty/microrl/microrl.c:433-452 | inserts a text that fits at the cursor with spaces as zeros, refuses any other |
| Microrl.Editor.StoreText | 3rdparty/microrl/microrl.c:440-445 | writes exactly the text over the bytes at the cursor |
| Microrl.Editor.Backspace | 3rdparty/microrl/microrl.c:456-467 | removes the character before the cursor and rubs it out, or does nothing |
| Microrl.Editor.TerminalPrintLine | 3rdparty/microrl/microrl.c:302-317 | erases, draws the text from a position on, and puts the cursor back |
| Microrl.Editor.RubOutLeft | 3rdparty/microrl/microrl.c:618-622 | ^U's loop removes exactly the characters before the cursor |
| Microrl.Editor.EditLine | 3rdparty/microrl/microrl.c:618-694 | every editing key acts on text, cursor, stale bytes and output as its zipper operation |
| Microrl.Editor.HistSearch | 3rdparty/microrl/microrl.c:364-373 | shows the line navigation selects, or nothing changes |
| Microrl.Editor.EscapeProcess | 3rdparty/microrl/microrl.c:379-428 | one key of an escape sequence, for any leftover `escape_seq` |
| Microrl.Editor.RunLine | 3rdparty/microrl/microrl.c:547-555 | calls `execute` once with the arguments for one to seven words, complains for more, does nothing for none |
| Microrl.Editor.NewLineHandler | 3rdparty/microrl/microrl.c:538-562 | saves a non-empty line, runs it and starts an empty one with a fresh prompt |
| Microrl.Editor.InsertChar | 3rdparty/microrl/microrl.c:566-697 | every key in every state refines the step on values: text, cursor, history, escape state, output and calls |
| ScreenMirror.MoveWorks | 3rdparty/microrl/microrl.c:257-279 | the cursor code moves the terminal's column by exactly the offset |
| ScreenMirror.ResetWorks | 3rdparty/microrl/microrl.c:282-299 | the reset code ends right behind the prompt from every column a line can reach |
| ScreenMirror.PrintLineWorks | 3rdparty/microrl/microrl.c:302-317 | redrawing from a position completes the row and places the cursor, if the row is right before it |
| ScreenMirror.RubOutsWork | 3rdparty/microrl/microrl.c:618-622 | during ^U the row up to the cursor stays right after every backspace |
| ScreenMirror.RedrawRecovers | 3rdparty/microrl/microrl.c:672-677 | ^R restores the mirror from any row |
| ScreenMirror.EnterMirrors | 3rdparty/microrl/microrl.c:538-562 | after Enter the row is the bare prompt if and only if there were fewer than eight words |
| ScreenMirror.ErrorStaysOnRow | 3rdparty/microrl/microrl.c:549-553 | the message for too many words remains on the prompt's row |
| ScreenMirror.StepMirrors | 3rdparty/microrl/microrl.c:566-697 | one key keeps prompt, text and column mirrored if and only if it is no Enter on eight words and no disturbing ^C, for commands that end on a fresh row |
| ScreenMirror.RunMirrors | 3rdparty/microrl/microrl.c:566-697 | the row mirrors the buffer after every run without such keys, whatever is typed, recalled or moved |
| ScreenMirror.InterruptMessageDisturbs | system/cmd_line.c:11-14 | the console's ^C message always disturbs the row |
| EditorRuns.ArgvIsWordsIffTerminated | 3rdparty/microrl/microrl.c:547-555 | Enter passes exactly the line's words if and only if a zero ends the last one |
| EditorRuns.StepKeepsTerminator | 3rdparty/microrl/microrl.c:625-628 | every key but ^K keeps the terminator behind the text |
| EditorRuns.RunKeepsTerminator | 3rdparty/microrl/microrl.c:566-697 | after every run without ^K the arguments are the words |
| EditorRuns.CutWordRunsOn | 3rdparty/microrl/microrl.c:625-628 | after ^K behind a word character the last argument is the last word shown, continued by the bytes cut off and whatever is stale behind them |
| EditorRuns.CutWordIsPassedWhole | 3rdparty/microrl/microrl.c:625-628 | for example, "ab" cut to "a" is passed as "ab" |
| EditorRuns.RunRemembers | 3rdparty/microrl/microrl.c:544-546 | over any run the history is the queue's saves of the non-empty lines entered |
| EditorRuns.HistoryAfterRun | 3rdparty/microrl/microrl.c:538-562 | after any run from start-up the history is the longest fitting run of most recent entered lines |
| EditorRuns.LongSequence | 3rdparty/microrl/microrl.c:407-424 | ESC [ 7 ~ and ESC [ 8 ~ act as Home and End for any leftover `escape_seq` |
| EditorRuns.SequenceIsKey | 3rdparty/microrl/microrl.c:379-428 | each arrow, Home or End sequence equals its control key in text, cursor, history, output and calls |
| EditorRuns.ArrowsAreControlKeys | 3rdparty/microrl/microrl.c:379-428 | replacing control keys by sequences in a whole run changes nothing observable |
| EnterLines.EnterCalls | 3rdparty/microrl/microrl.c:547-555 | wherever the cursor is, Enter makes one call for one to seven words of the whole text, argument by argument the words, the last one continued by the bytes behind the text if it ends there, and none otherwise |
| EnterLines.EnterCallsWords | 3rdparty/microrl/microrl.c:547-555 | on a terminated line, at any cursor, the call gets exactly the words |
| EnterLines.EnterPrints | 3rdparty/microrl/microrl.c:538-562 | between newline and prompt stands the command's reply for one to seven words, the complaint for more, nothing for none |
| EnterLines.EnterKeeps | 3rdparty/microrl/microrl.c:544-562 | a non-empty line is saved and an empty one with wiped bytes begins at the newest history line |
| EnterLines.TypeMoveEnter | 3rdparty/microrl/microrl.c:538-562 | a line typed, the cursor moved to any place, and Enter: exactly the typed words are executed |
| ShownRows.TypedIsShown | 3rdparty/microrl/microrl.c:302-317 | typing on an empty line shows prompt and the characters typed, spaces as spaces, without leading ones and as many as the line holds, the cursor behind them |
| ShownRows.InsertedIsShown | 3rdparty/microrl/microrl.c:302-317 | with the cursor anywhere, the typed text is shown between what was left and right of it |
| OtherKeys.UnboundKeyIsSilent | 3rdparty/microrl/microrl.c:685-694 | control characters without a meaning, and a space on an empty line, do nothing |
| OtherKeys.StateIsKept | 3rdparty/microrl/microrl.c:672-684 | ^R and ^C change no state, and ^C prints only what its callback does |
| OtherKeys.BackspaceIsDelete | 3rdparty/microrl/microrl.c:666-670 | both rub-out keys do the same |
| OtherKeys.FullLineRefuses | 3rdparty/microrl/microrl.c:433-452 | a printable key on a full line does nothing |
| OtherKeys.UnknownKeyEndsSequence | 3rdparty/microrl/microrl.c:379-428 | a key without a meaning ends the sequence and changes nothing else |
| OtherKeys.UnknownSequence | 3rdparty/microrl/microrl.c:379-428 | an unknown sequence in brackets leaves all but its trace as it was |
| OtherKeys.LeftoverActs | 3rdparty/microrl/microrl.c:379-428 | after a sequence in brackets, escape and A to D without a bracket act as the arrow |
| TypedLines.TypingFills | 3rdparty/microrl/microrl.c:685-694 | typing on an empty line stores the text without leading spaces, cut at 100 characters |
| TypedLines.TypedLineExecutes | 3rdparty/microrl/microrl.c:538-562 | typing and Enter calls `execute` once with exactly the space-separated words if there are one to seven, else never |
| TypedLines.UpEnterRuns | 3rdparty/microrl/microrl.c:364-373 | Up and Enter execute the words of the newest saved line |
| TypedLines.TypedLineAgain | 3rdparty/microrl/microrl.c:538-562 | a typed line of at most 62 bytes is executed again, words unchanged, by Up and Enter |
| TypedLines.TypingInserts | 3rdparty/microrl/microrl.c:433-452 | typing anywhere inserts exactly the typed text at the cursor |
| TypedLines.RubOutsUndoTyping | 3rdparty/microrl/microrl.c:456-467 | as many rub-outs as characters typed restore text, cursor and history |
| CursorRuns.HomeThenForwards | 3rdparty/microrl/microrl.c:635-645 | ^A and n times ^F reach place n from anywhere and change nothing else |
| CursorRuns.EndThenBacks | 3rdparty/microrl/microrl.c:630-652 | ^E and n times ^B reach place n from the end and change nothing else |
| CursorRuns.InsertAnywhere | 3rdparty/microrl/microrl.c:433-452 | text typed at any place appears exactly there, the rest of the line around it |
| CursorRuns.DeleteAnywhere | 3rdparty/microrl/microrl.c:456-467 | rub-outs at any place remove exactly the characters before it |
| CursorRuns.KillsSplitText | 3rdparty/microrl/microrl.c:618-628 | ^K and ^U keep the two halves of the line at the cursor |
| HistoryKeys.KeysFollowQueue | 3rdparty/microrl/microrl.c:654-664 | any number of ^P or ^N does to line, cursor and history what as many steps do on the queue |
| HistoryKeys.UpKeyAtOldest | 3rdparty/microrl/microrl.c:126-151 | ^P at the oldest line changes nothing and prints nothing |
| HistoryKeys.KeysFollowBothWays | 3rdparty/microrl/microrl.c:654-664 | so do k times ^P and then j times ^N |
| HistoryKeys.UpThenDownIs | 3rdparty/microrl/microrl.c:113-177 | which from the prompt show line count-(k-j) |
| Console.Process | system/cmd_line.c:23-35 | an editor handed any characters holds, prints and executes what the run on values says, and a terminal that began blank mirrors its line as long as no key disturbs the row |
| DmaHandle.ServeKeepsOwned | hal/st-hal/stm32f4xx_hal_dma.c:408-739 | every call keeps: a running transfer holds the lock, and only a transfer or an abort under way does |
| DmaHandle.InterruptKeepsOwned | hal/st-hal/stm32f4xx_hal_dma.c:747-956 | so does every interrupt, with any set of flags |
| DmaHandle.RunKeepsOwned | hal/st-hal/stm32f4xx_hal_dma.c:171-956 | ownership holds after every run of calls and interrupts |
| DmaHandle.StartSucceedsWhenReady | hal/st-hal/stm32f4xx_hal_dma.c:408-497 | after any run a start succeeds if and only if the handle is ready (and, multi-buffer, direction and callbacks allow it) |
| DmaHandle.TransferEndsIff | hal/st-hal/stm32f4xx_hal_dma.c:171-956 | a call or interrupt leaves a running transfer running exactly if it does not end it: initialisation, aborts, completion of a single buffer, a transfer fault, a poll that sees one, completes or expires; else only errors and enabled interrupts change |
| DmaHandle.TransferIsExclusive | hal/st-hal/stm32f4xx_hal_dma.c:408-956 | over runs of calls, interrupts and polls none of which ends the transfer, it stays the same transfer and every start is refused |
| DmaHandle.TransferRunsUntilEnd | hal/st-hal/stm32f4xx_hal_dma.c:408-956 | and it is still running after one more call if and only if that does not end it either |
| DmaHandle.MultiBufferStartKeepsOwnedIff | hal/st-hal/stm32f4xx_hal_dma_ex.c:101-143 | the polling start leaks the lock exactly when it finds an unlocked handle that is not ready |
| DmaCalls.StartMoves | hal/st-hal/stm32f4xx_hal_dma.c:408-499 | a start that succeeds enables the stream from source to destination, memory and peripheral address by direction, with exactly the interrupts the call wants, under the lock |
| DmaCalls.RefusedStartKeeps | hal/st-hal/stm32f4xx_hal_dma.c:408-499 | a start that fails changes nothing but the errors, and nothing at all when busy |
| DmaCalls.PollingStartMoves | hal/st-hal/stm32f4xx_hal_dma_ex.c:101-143 | the polling multi-buffer start moves the same way and touches no interrupt |
| DmaCalls.AbortStops | hal/st-hal/stm32f4xx_hal_dma.c:514-573 | an aborted stream is disabled, its interrupts off and its handle ready and unlocked; one that does not stop is timed out |
| DmaCalls.NothingToAbort | hal/st-hal/stm32f4xx_hal_dma.c:514-598 | without a transfer both aborts fail and say so |
| DmaCalls.AbortItCompletes | hal/st-hal/stm32f4xx_hal_dma.c:581-598 | the stream is disabled at once; the completion interrupt frees the handle, silences the stream and calls only the abort callback |
| DmaCalls.PollAnswers | hal/st-hal/stm32f4xx_hal_dma.c:611-739 | a poll fails on a fault, times out without one, and says whether the whole transfer is over |
| DmaCalls.PollRefuses | hal/st-hal/stm32f4xx_hal_dma.c:611-632 | without a transfer and in circular mode it fails |
| DmaCalls.InitClears | hal/st-hal/stm32f4xx_hal_dma.c:171-302 | an initialised stream is disabled with one buffer and a clear target bit, its handle free |
| DmaCalls.DeInitClears | hal/st-hal/stm32f4xx_hal_dma.c:310-376 | everything is zero and off, unless a transfer runs |
| DmaCalls.RegisteredIsThere | hal/st-hal/stm32f4xx_hal_dma.c:968-1086 | on a ready handle registering adds and unregistering removes exactly the one callback, or all |
| DmaCalls.CallbacksAreKept | hal/st-hal/stm32f4xx_hal_dma.c:968-1086 | a handle that is not ready, or locked, keeps its callbacks |
| DmaCalls.InterruptCalls | hal/st-hal/stm32f4xx_hal_dma.c:747-956 | any interrupt calls exactly the registered callbacks that are due (half, complete, by target bit with two buffers, error, abort), each once, in that order |
| DmaCalls.InterruptRecords | hal/st-hal/stm32f4xx_hal_dma.c:759-796 | exactly the faults whose flag is up and enabled are recorded, and none is forgotten |
| DmaCalls.InterruptFrees | hal/st-hal/stm32f4xx_hal_dma.c:845-950 | the handle is freed exactly by the end of a transfer or an abort and by a fault, and a fault disables the stream |
| DmaCalls.InterruptSwitchesOff | hal/st-hal/stm32f4xx_hal_dma.c:759-950 | exactly the interrupts that have done their work are switched off |
| DmaCalls.SingleBufferCompletes | hal/st-hal/stm32f4xx_hal_dma.c:827-920 | a faultless single-buffer transfer calls the half callback on a half flag and then the complete callback on a complete flag, and outside circular mode ends ready and unlocked |
| DmaStream.Stream.Start | hal/st-hal/stm32f4xx_hal_dma.c:408-441 | refines the start on values, status included |
| DmaStream.Stream.StartIt | hal/st-hal/stm32f4xx_hal_dma.c:452-499 | the same with the interrupts it enables |
| DmaStream.Stream.MultiBufferStartIt | hal/st-hal/stm32f4xx_hal_dma_ex.c:155-224 | the same with two buffers, and its error cases |
| DmaStream.Stream.MultiBufferStart | hal/st-hal/stm32f4xx_hal_dma_ex.c:101-143 | the polling variant with the lock it keeps |
| DmaStream.Stream.Abort | hal/st-hal/stm32f4xx_hal_dma.c:514-573 | refines the abort: errors, lock, state and silenced interrupts for both outcomes of the wait |
| DmaStream.Stream.AbortIt | hal/st-hal/stm32f4xx_hal_dma.c:581-598 | only marks the handle as aborting; the lock stays |
| DmaStream.Stream.PollForTransfer | hal/st-hal/stm32f4xx_hal_dma.c:611-739 | refines polling with its fault, timeout and half-transfer outcomes |
| DmaStream.Stream.Init | hal/st-hal/stm32f4xx_hal_dma.c:171-302 | refines initialisation with its two failures |
| DmaStream.Stream.DeInit | hal/st-hal/stm32f4xx_hal_dma.c:310-376 | resets everything unless a transfer runs |
| DmaStream.Stream.RegisterCallback | hal/st-hal/stm32f4xx_hal_dma.c:968-1018 | sets or clears one callback only on a ready, unlocked handle; other numbers are passed over |
| DmaStream.Stream.UnRegisterCallback | hal/st-hal/stm32f4xx_hal_dma.c:1028-1086 | removes one or all under the same conditions; other numbers are an error |
| DmaStream.Stream.Interrupt | hal/st-hal/stm32f4xx_hal_dma.c:747-956 | refines the handler: flags noted, callback chosen by the target bit, abort and error completion, order of calls |
| DmaStream.Stream.ChangeMemory | hal/st-hal/stm32f4xx_hal_dma_ex.c:240-254 | re-aims exactly the buffer it is told to |
| FrameWalk.SplitFrame | hal/st-hal/stm32f4xx_hal_dcmi.c:392-404 | the halving loop ends with the first power of two that makes chunks of at most 65535 words |
| FrameWalk.SplitBounds | hal/st-hal/stm32f4xx_hal_dcmi.c:392-409 | chunks have 0x8000 to 0xFFFF words, fewer than n words are lost, and the count minus 2 does not underflow |
| FrameWalk.SplitIsUnique | hal/st-hal/stm32f4xx_hal_dcmi.c:392-404 | the split is determined by the length |
| FrameWalk.HandlerMovesIdleBuffer | hal/st-hal/stm32f4xx_hal_dcmi.c:1074-1103 | the handler writes one address register, and never the one the stream is using |
| FrameWalk.CompletionIsHandled | hal/st-hal/stm32f4xx_hal_dma.c:879-898 | a completion calls exactly the callback of the buffer just filled |
| FrameWalk.HandlerAdvances | hal/st-hal/stm32f4xx_hal_dcmi.c:1068-1116 | when chunk j completes the filled buffer is re-aimed two chunks ahead, cyclically, modulo 2^32 |
| FrameWalk.StepOfWalk | hal/st-hal/stm32f4xx_hal_dcmi.c:1068-1116 | one completion takes the walk one chunk on; the frame interrupt is enabled exactly at the last chunk (n = 2: at each) |
| FrameWalk.WalkReaches | hal/st-hal/stm32f4xx_hal_dcmi.c:1068-1116 | for every number of completions k the stream fills chunk k mod n and the walk state is right |
| FrameMemory.MemoryHoldsLatest | hal/st-hal/stm32f4xx_hal_dcmi.c:1068-1116 | after any number of completions every word of the buffer is that of the latest chunk that belongs there |
| FrameMemory.OutsideIsKept | hal/st-hal/stm32f4xx_hal_dcmi.c:1068-1116 | nothing outside the frame is ever written |
| FrameMemory.FrameIsComplete | hal/st-hal/stm32f4xx_hal_dcmi.c:1106-1116 | at the end of frame f the buffer holds exactly its words in order |
| FrameMemory.SplitCaptureFills | hal/st-hal/stm32f4xx_hal_dcmi.c:387-413 | after every n completions the buffer holds n*size consecutive words of the stream, and fewer than n words of a frame have no place in it |
| FrameMemory.DriftIs | hal/st-hal/stm32f4xx_hal_dcmi.c:387-413 | round f begins f times the words left over before the camera's frame f |
| FrameMemory.FrameIsShownIff | hal/st-hal/stm32f4xx_hal_dcmi.c:387-413 | the buffer shows the camera's frame f from its first word, whatever the camera sends, if and only if f is 0 or n divides the frame's length |
| StaleTarget.NextManyIsAfterMany | hal/st-hal/stm32f4xx_hal_dma.c:747-956 | the interrupts of a faultless double-buffered transfer come to no more than flips and the capture handler |
| StaleTarget.StoppingLeavesTarget | hal/st-hal/stm32f4xx_hal_dma.c:514-573 | a capture aborted after k chunks and started again has the target bit set exactly if k was odd |
| StaleTarget.StaleChunks | hal/st-hal/stm32f4xx_hal_dcmi.c:1068-1116 | started with the bit set and n >= 4, the chunks of the first round go to places 1, 0, 3, 0, 5, 2, 7, 4, ... up to n + 1 |
| StaleTarget.StaleHeals | hal/st-hal/stm32f4xx_hal_dcmi.c:1068-1116 | after n + 1 chunks (n = 2: after one) the walk is at its beginning |
| StaleTarget.StaleWalksOn | hal/st-hal/stm32f4xx_hal_dcmi.c:1068-1116 | from then on chunk k goes to place k mod n for ever, counted from there |
| StaleTarget.CaptureWalksIff | hal/st-hal/stm32f4xx_hal_dcmi.c:387-413 | the chunks follow each other through the frame for ever if and only if the target bit was clear at the start |
| StaleTarget.StaysInsideIff | hal/st-hal/stm32f4xx_hal_dcmi.c:1068-1116 | no chunk is ever written outside the frame buffer if and only if the bit was clear or n is 2 (or frame and one chunk fill the address space) |
| StaleTarget.StrayChunkIsStored | hal/st-hal/stm32f4xx_hal_dcmi.c:1068-1116 | otherwise words of the camera's stand behind the buffer after n + 1 completions |
| Camera.StreamStarts | hal/st-hal/stm32f4xx_hal_dcmi.c:387-413 | a free stream takes the split capture from the given source, enabled, and leaves its target bit as it is, with what follows from that |
| Camera.StreamStartsSingle | hal/st-hal/stm32f4xx_hal_dcmi.c:379-386 | a free stream takes the capture in one piece from the given source into the frame buffer |
| Camera.SingleCompletes | hal/st-hal/stm32f4xx_hal_dma.c:909-920 | its completion calls the capture handler, which ends the frame, and outside circular mode frees the stream |
| Camera.Dcmi.SingleDone | hal/st-hal/stm32f4xx_hal_dcmi.c:1068-1117 | one completion of a capture in one piece enables the frame interrupt and ends a snapshot |
| Camera.Dcmi.StartDma | hal/st-hal/stm32f4xx_hal_dcmi.c:348-423 | starts a single or a split capture with the capture handlers as callbacks; a free stream is enabled and reads the data register, a taken one goes on as it was, and a split capture walks the frame if and only if the target bit was clear, and leaves the buffer as `StaysInsideIff` says |
| Camera.Dcmi.OnTransferComplete | hal/st-hal/stm32f4xx_hal_dcmi.c:1068-1117 | refines the handler on values and ends a snapshot with its frame |
| Camera.Dcmi.ChunkDone | hal/st-hal/stm32f4xx_hal_dma.c:870-898 | the stream's flip, the interrupt and the handler together are one step of the walk |
| Digits.DigitsReadBack | 3rdparty/tiny-printf/printf.c:281-301 | the digits that fit the room read back as the value modulo base^room |
| Digits.NoLeadingZero | 3rdparty/tiny-printf/printf.c:281-301 | no leading zero; zero is one digit |
| Digits.DigitRoundTrip | 3rdparty/tiny-printf/printf.c:281-301 | every 32-bit value in every base fits 32 digits, reads back as itself and has no leading zero |
| Digits.NumeralIsLastFirst | 3rdparty/tiny-printf/printf.c:281-301 | digits for which there is room, reversed, are the number's numeral |
| Digits.NumeralFits | 3rdparty/tiny-printf/printf.c:306-330 | a 64-bit value's numeral fits the buffer exactly unless it is binary and wider than 32 bits |
| Digits.WriteDigits | 3rdparty/tiny-printf/printf.c:292-299 | the loop appends exactly those digits to the buffer |
| Digits.Atoi | 3rdparty/tiny-printf/printf.c:188-195 | reads the maximal run of digits, 32 bits wide |
| Digits.AtoiReadsDigits | 3rdparty/tiny-printf/printf.c:188-195 | reading generated decimal digits consumes exactly them and returns the value |
| Output.BufferAfter | 3rdparty/tiny-printf/printf.c:133-138 | a buffer ends up with exactly the characters below its limit |
| Output.DeviceAfter | 3rdparty/tiny-printf/printf.c:149-155 | a device gets every character but NUL |
| Output.Sink.Out | 3rdparty/tiny-printf/printf.c:133-155 | one character to any of the sinks |
| IntegerText.OutRev | 3rdparty/tiny-printf/printf.c:199-223 | spaces, the buffer reversed, spaces, at consecutive indices of any sink |
| IntegerText.FillZeros | 3rdparty/tiny-printf/printf.c:234-239 | fills up to a target but never past the buffer |
| IntegerText.NtoaFormat | 3rdparty/tiny-printf/printf.c:227-277 | zeros, prefix and sign as the buffer allows, then the padded text |
| IntegerText.NtoaLong | 3rdparty/tiny-printf/printf.c:281-301 | the text of a value in any base, and its length, to any sink |
| IntegerLayout.LayoutLength | 3rdparty/tiny-printf/printf.c:199-223 | the reference layout has length max(width, sign + max(precision, digits)) |
| IntegerLayout.LayoutIsStandardIff | 3rdparty/tiny-printf/printf.c:227-277 | without '#' the printed text is the reference layout if and only if it fits the buffer and '-' has no zeros to add |
| IntegerLayout.ConversionIsStandardIff | 3rdparty/tiny-printf/printf.c:281-301 | the same for every 64-bit value in base 2, 8, 10 or 16, whose digits are those of its numeral |
| IntegerLayout.CutIsNeverStandard | 3rdparty/tiny-printf/printf.c:281-301 | digits cut at 32 are never the reference layout, whatever the padding |
| IntegerLayout.TextIsBounded | 3rdparty/tiny-printf/printf.c:199-301 | no integer conversion is longer than its width and 32 |
| IntegerLayout.HashShowsDigitsIff | 3rdparty/tiny-printf/printf.c:242-261 | with '#' the text ends in all digits of a 64-bit value if and only if they fit and the prefix does not take their place, a condition on digit count, base, width and flags |
| IntegerLayout.HashDropsDigits | 3rdparty/tiny-printf/printf.c:242-249 | "%#4x" of 0x1234 prints 0x34 |
| HashLayout.HashIsStandardIff | 3rdparty/tiny-printf/printf.c:227-277 | with '#' a number other than zero in base 2, 8 or 16 is the standard's text, prefix, zeros, digits and padding, if and only if a condition on digit count, base, precision, width and flags holds |
| HashLayout.ZeroDropsHash | 3rdparty/tiny-printf/printf.c:286-289 | zero is printed as if there were no '#' |
| HashDirectives.HashDirectiveIsStandardIff | 3rdparty/tiny-printf/printf.c:601-756 | the same for a written directive, negative precisions and numbers past 32 bits included |
| HashDirectives.DecimalDropsHash | 3rdparty/tiny-printf/printf.c:684-698 | in base ten '#' plays no part |
| HashDirectives.OctalZeroTooMany | 3rdparty/tiny-printf/printf.c:258-260 | "%#.4o" of 8 prints "00010" where the standard asks for "0010" |
| Directives.ReadAsWritten | 3rdparty/tiny-printf/printf.c:601-680 | every well-formed directive of any conversion, in any context, is read as it is written: flags in any order, width, precision, length, conversion, and '*' arguments in order |
| Directives.TakesItsOwn | 3rdparty/tiny-printf/printf.c:601-756 | it takes exactly its own characters and arguments |
| StandardText.DirectiveIsStandardIff | 3rdparty/tiny-printf/printf.c:601-756 | a written integer directive without '#' is printed as the standard reads it if and only if it conforms: 32-bit numbers, room in the buffer, no zeros under '-', no negative `%hhd`, no negative precision that shows |
| StandardText.FormatIsStandardIff | 3rdparty/tiny-printf/printf.c:577-857 | the same for the whole output of a format made of that directive |
| StandardText.NegativePrecisionLosesZero | 3rdparty/tiny-printf/printf.c:634-643 | "%.*d" with -1 and 0 gives nothing instead of "0" |
| StandardText.NegativePrecisionLosesFill | 3rdparty/tiny-printf/printf.c:715-718 | "%05.*d" with -1 and 42 gives spaces instead of zeros |
| TextDirectives.StringIsFramed | 3rdparty/tiny-printf/printf.c:796-820 | "%s" with any flags, width and precision prints the first characters its precision takes, all without one, framed by spaces character by character |
| TextDirectives.StringIsStandardIff | 3rdparty/tiny-printf/printf.c:796-820 | that is the standard's text if and only if no negative precision cuts anything and the numbers have 32 bits or do not matter |
| TextDirectives.NegativePrecisionLosesString | 3rdparty/tiny-printf/printf.c:634-643 | "%.*s" with -1 and "abc" prints nothing |
| TextDirectives.CharIsFramed | 3rdparty/tiny-printf/printf.c:776-795 | "%c" prints its argument's low byte, framed by spaces |
| TextDirectives.LiteralIsItself | 3rdparty/tiny-printf/printf.c:840-848 | a percent sign and characters without a meaning print themselves and take no argument |
| TextDirectives.OthersTakeOne | 3rdparty/tiny-printf/printf.c:682-838 | every other conversion takes one argument |
| TextDirectives.AddressIsEightDigits | 3rdparty/tiny-printf/printf.c:822-838 | "%p" prints eight upper-case hexadecimal digits |
| FixedDirectives.FixedIsStandardIff | 3rdparty/tiny-printf/printf.c:339-462 | from the format on: "%f" has six decimals and "%.Nf" has N, within half a unit of the last, sign, padding and length as the standard asks, if and only if the precision is not negative, the number no all-nines tie, and zeros fill at most 32 characters |
| FixedDirectives.HalvesHaveSixDecimals | 3rdparty/tiny-printf/printf.c:373-376 | "%f" of a digit and a half prints the digit and ".500000" |
| ExponentDirectives.ExponentIsStandardIff | 3rdparty/tiny-printf/printf.c:467-570 | for a number that comes with its right exponent, "%e" has one digit, the decimals asked for within half a unit, and an exponent of at least two digits, laid out as the standard asks, if and only if the mantissa stays below ten and the conditions of "%f" hold |
| ExponentDirectives.MantissaOfTen | 3rdparty/tiny-printf/printf.c:467-570 | "%.e" of 9.75 prints "10e+00" |
| ExponentDirectives.GeneralIsFixed | 3rdparty/tiny-printf/printf.c:516-530 | from 0.0001 to below 1000000 "%g" of precision P prints what "%f" does with P - 1 - X decimals |
| ExponentDirectives.GeneralIsExponent | 3rdparty/tiny-printf/printf.c:531-537 | elsewhere it prints what "%e" does with one decimal less if a precision was written |
| ExponentDirectives.LargeIsExponent | 3rdparty/tiny-printf/printf.c:358-366 | above a billion "%f" prints what "%e" does |
| ExponentDirectives.SpecialIsWord | 3rdparty/tiny-printf/printf.c:350-356 | NaN and infinities are their word framed by spaces, or bare under '0' |
| Formats.FormatPrintsItems | 3rdparty/tiny-printf/printf.c:577-857 | a format of plain text and directives in any order prints the text as it is, percent signs for "%%", and each directive's own text, one behind the other, each directive with its own arguments |
| Formats.ConformingMeets | 3rdparty/tiny-printf/printf.c:682-848 | each conforming directive among them prints what the standard asks for |
| Formats.TwoHalves | app/mqtt_client.c:120 | "%f;%f" of two halves prints six decimals each |
| FloatText.RoundedIsNear | 3rdparty/tiny-printf/printf.c:383-409 | the rounded parts are within half a unit, and the fraction overflows exactly in the all-nines tie |
| FloatText.PrintedIsNearIff | 3rdparty/tiny-printf/printf.c:339-437 | the printed decimal has exactly the asked decimals and is within half a unit if and only if it is no all-nines tie |
| FloatText.TiePrints | 3rdparty/tiny-printf/printf.c:388-437 | in such a tie a one among zeros fills the buffer, without a point |
| FloatText.NinesTieExample | 3rdparty/tiny-printf/printf.c:388-437 | 0.95 with one decimal prints thirty zeros and "10" |
| FloatText.WideIsNearIff | 3rdparty/tiny-printf/printf.c:377-381 | with 10 to 41 decimals the bound holds if and only if the number is that close to one of nine decimals, its whole part fits, and it is no tie |
| FloatText.TenDecimalsMiss | 3rdparty/tiny-printf/printf.c:377-381 | 0.0000000004 misses it from ten decimals on |
| FloatText.TableIsInBoundsIff | 3rdparty/tiny-printf/printf.c:377-384 | the table of powers is indexed in bounds if and only if the precision is at most 41 |
| FloatText.LimitPrecision | 3rdparty/tiny-printf/printf.c:377-381 | the loop leaves that index and as many zeros |
| FloatText.FixedTextIsStandardIff | 3rdparty/tiny-printf/printf.c:438-461 | sign, width and padding around it are the reference's exactly unless zeros should fill more than 32 characters (all-nines ties excepted) |
| FloatText.Round | 3rdparty/tiny-printf/printf.c:383-409 | the code's rounding yields the rounded parts |
| FloatText.WriteFraction | 3rdparty/tiny-printf/printf.c:410-430 | digits, zeros counted by a wrapping counter, and the point |
| FloatText.FixedToText | 3rdparty/tiny-printf/printf.c:364-462 | the fixed-point text of a number up to 1e9 and its length, to any sink |
| ScientificText.Ftoa | 3rdparty/tiny-printf/printf.c:339-462 | any double: the special values, the fixed-point text, or an exponent for larger numbers |
| ScientificText.Etoa | 3rdparty/tiny-printf/printf.c:467-570 | the text of `%e` and `%g` for a given decimal exponent: mantissa, mark, exponent and padding, and its length |
| Formatter.ReadDirective | 3rdparty/tiny-printf/printf.c:601-680 | flags, width, precision and size as parsed, arguments taken by '*' included |
| Formatter.Convert | 3rdparty/tiny-printf/printf.c:682-849 | every conversion emits its text, and nothing but it, at consecutive indices |
| Formatter.Vsnprintf | 3rdparty/tiny-printf/printf.c:577-857 | for every format and sink: the whole text, a terminator at its end or in the last place, and the unbounded length returned |
| Formatter.BoundedText | 3rdparty/tiny-printf/printf.c:852-856 | a bounded buffer keeps the first count-1 characters, a terminator, and everything behind it |
| Formatter.Snprintf | 3rdparty/tiny-printf/printf.c:883-890 | stores the first min(L, count-1) characters and NUL, touches nothing past them, returns L whatever the count |
| Formatter.Printf | 3rdparty/tiny-printf/printf.c:862-870 | sends every character but NUL and returns the same length |
| Formatter.MeasureText | 3rdparty/tiny-printf/printf.c:582-585 | without a buffer the length is the same, whatever the count |

## Left out

- Tab completion: no completion callback is ever set, so the key does nothing in the model.
- Microrl.Editor.InsertChar: what a callback prints is a parameter, and `execute` is taken not to re-enter the editor.
- ScreenMirror.RunMirrors: one byte is one cell, the row is at least 105 columns wide and the row below it is blank; UTF-8 and C1 controls are not modelled.
- Bytes are Dafny characters; `char` is taken as unsigned, as the target's compiler does.
- DmaStream.Stream.Interrupt: callbacks do not touch the handle, a call or an interrupt is atomic, and clearing flags in the hardware is not modelled.
- DmaStream.Stream.PollForTransfer: waits are parameters for their outcome (ready, faults seen, timed out), not real time.
- DmaStream.Stream.RegisterCallback: which function a callback is plays no part; null handles are not modelled.
- Camera.Dcmi.StartDma: the stream's own answer is ignored, as in the code; register bits outside the walk, peripheral clocks and the frame interrupt's handler are not modelled.
- Camera.Dcmi.ChunkDone: the capture handler runs right after the stream's interrupt instead of inside it, which makes no difference without faults.
- DCMI stop, suspend, resume, cropping and its error callback: register writes and small case splits.
- FloatText.FixedToText: doubles are real numbers, so the rounding of the products themselves is not modelled; a precision above 41 is excluded, since the code then reads past its table (`TableIsInBoundsIff`).
- FixedDirectives.FixedIsStandardIff: at most nine decimals, and no '#'; from the tenth decimal on the standard's bound fails as `WideIsNearIff` says.
- ExponentDirectives.ExponentIsStandardIff: at most nine decimals, no '#', and not zero, for which the code finds an exponent of its own making.
- ScientificText.Etoa: the decimal exponent and its power of ten, which the code finds by bit arithmetic on the double, come with the argument; that they are the right ones is not shown, and `ExponentDirectives` takes them as right.
- StandardText.FormatIsStandardIff: leaves out '#', which is `HashDirectives.HashDirectiveIsStandardIff`'s for every number but zero; zero with '#' is printed as without (`ZeroDropsHash`), where the standard asks for a "0" of "%#.0o". `%b` is read as a fourth base with the prefix "0b", which the 2011 standard does not have.
- StandardText.DirectiveIsStandardIff: the negative of the least `int` is taken as its mathematical value, where the code relies on wrapping.
- Formatter.Vsnprintf: formats that end inside a directive or ask for missing or wrongly typed arguments are excluded, as the standard leaves them undefined; the returned length does not wrap.
- IntegerText.NtoaLong: also stands for the 64-bit conversion, whose body is the same; argument values are those of their C types.
- `sprintf` and `fctprintf`: the same engine with an unlimited count or a caller's function as sink.
- ADC, DAC, CAN, CRC, flash and clock drivers, lwIP, MQTT, USB, FreeRTOS wrappers, the hex dump and the accelerometer arithmetic: register writes, thin wrappers or library floating point.
