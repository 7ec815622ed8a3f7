# Dynamic-Input line editor in Dafny

This project models the line-editing engine of Dynamic-Input, a Python
library that reads one line from the terminal key by key. While the user
types, it fetches completions from a user callback and shows them in a
shade after the cursor. Tab accepts a completion, and other code may
rewrite the line while it is being edited.

The repository holds three generations of the engine, and each is modelled
as its own class:

- `DynamicIO.DynamicInput` models the current editor in `src/dynamicio.py`:
  - a handler table for Tab, Enter and Backspace;
  - a bind key that fetches at once;
  - an inactivity fetch whose interval is the mean key delay;
  - the `edit` channel;
  - the parse of the terminal's cursor position report.
- `DynamicInputs.DynamicInput` models the earlier editor in
  `src/dynamic-inputs.py`. It has the same handlers, a fixed interval, and
  a Tab that does not consume the completion.
- `MainEngine.DynamicInput` models the first editor in `src/main.py`. Its
  key dispatch is written inline, and it clears the completion once the
  typed text has run past it. Its Tab shows the completion but never adds
  it to the text.
- `Completer.Complete` models `src/utils/completer.py`: the length-stamp
  guard and the fixed six-write display.
- `Autocompletion` models the prefix completer `call_to_example`.
- `ManipulatingInput` models the keyword replacer `RTDynamicReplacing`.

Shared pieces:

- `PyText` states the Python built-ins the engine relies on, over
  `seq<char>`:
  - `s[i:]`, `s[:-1]` and `s[::-1]`;
  - `str.replace` (all non-overlapping matches, left to right, with
    CPython's empty-pattern case);
  - `str.split` / `str.join` on one character;
  - `lstrip` / `rstrip` with a character set;
  - `int()` (whitespace, a sign, digits with single underscores) and
    `str()` of a natural number.
- `Packets` holds the completion record.
- `Terminal` describes standard output as a trace of writes (`Op`).
- `Session` holds what the three editors share: handler responses, errors
  with the source's messages, keyboard polls and how `input` ends.

How the model runs:

- Each completion thread becomes an atomic call, made where the source
  starts the thread.
- The keyboard becomes a sequence of `Poll(now, key)` values: the clock
  reading at the top of a pass of the loop, and the key read on that pass,
  if any.
- A session whose keys run out before Enter ends as `Waiting`.
- The cursor being visible between operations is each class's `Valid()`
  invariant, checked on the `out` trace.

Points where the code behaves differently from what a reader might expect:

- Staleness is decided only by the length rule
  `len(buffer) > packet.bufferlenght` (src/utils/completer.py:12). A buffer
  edited back to the stamped length still renders.
- The current Tab accepts a cached completion without looking at its stamp.
- `_edit` keeps `buffer[returnRange:]` (src/dynamicio.py:256) and so drops
  the first `returnRange` characters. Its docstring (src/dynamicio.py:248)
  and its screen writes (src/dynamicio.py:253) step back over the last
  ones. `DynamicIO.EditSplice` states when the two agree.
- `edit(returnRange, new_text)` takes no cursor position.
- Each version's input loop is split into a fetch test at the top of a
  pass (`InactivityCheck` or `Tick`) and the key part of the pass
  (`KeyPass`, or `HandleKey` in src/main.py, whose key dispatch is inline).

## Model

| member | source | states |
|---|---|---|
| DynamicIO.DynamicInput.constructor | src/dynamicio.py:14-33 | a new session has an empty packet, both flags clear, and nothing typed or written |
| DynamicIO.DynamicInput.ProcessCompletion | src/dynamicio.py:43-62 | while a fetch runs, nothing changes; otherwise the packet is the callback's answer stamped with the snapshot's length, it is shown only when the session is not exiting and the buffer has not grown past the stamp, and the flag ends clear |
| DynamicIO.DynamicInput.Input | src/dynamicio.py:64-141 | a bind longer than one character raises KeyError before anything is printed; the only way to return text is an accepted Enter, which sets `exit`, and the text is then non-empty unless empty input is allowed; the fetch flag is left as found |
| DynamicIO.DynamicInput.InactivityCheck | src/dynamicio.py:90-100 | a fetch starts exactly when more than five delays are recorded, `called` is set, a callback exists, inactivity triggering is on and the time since the last accepted key exceeds the interval; it is a completion fetch for the buffer with autocompletion on and a plain call of the callback on the text otherwise; the interval then becomes the mean delay and `called` is false; when the test fails nothing changes |
| DynamicIO.DynamicInput.KeyPass | src/dynamicio.py:102-136 | every key records its delay; the bind key is echoed and appended exactly when `output_bind` is set, fetches at once with autocompletion on, and leaves `called` alone; other keys go to their handlers and `called` becomes the handler's truthiness; the key's time becomes `ts` exactly when the handler answered neither CONTINUE nor EXIT, the bind branch included; only an accepted Enter ends the loop |
| DynamicIO.IdleAfterFetch | src/dynamicio.py:93-100 | after an inactivity fetch, a later pass with no key starts no fetch and writes nothing, however long the pause |
| DynamicIO.DynamicInput.HandleBind | src/dynamicio.py:106-114 | the bind key is appended and echoed exactly when `output_bind` is set, then a fetch for the whole buffer runs at once |
| DynamicIO.ExceedsIsAboveQuotient | src/dynamicio.py:93-94 | the integer test `elapsed * count > total` holds exactly when the elapsed time is above the mean delay `total / count` |
| DynamicIO.DynamicInput.HandleEnter | src/dynamicio.py:143-161 | an empty buffer with empty input refused gives CONTINUE and changes nothing; otherwise `exit` is set, the line is cleared, `end` is printed and the result is EXIT |
| DynamicIO.DynamicInput.HandleBackspace | src/dynamicio.py:163-177 | on a non-empty buffer, exactly the last character goes, one back-delete is written, and the result is True; on an empty one, nothing changes and the result is None |
| DynamicIO.DynamicInput.HandleTab | src/dynamicio.py:179-195 | cached content, whatever its stamp, is printed and appended, and is then emptied; with none, `indent` spaces are printed and the buffer is kept; the result is False either way |
| DynamicIO.DynamicInput.HandleRegular | src/dynamicio.py:197-209 | the key is appended and echoed, and the result is True |
| DynamicIO.TypeThenErase | src/dynamicio.py:173-209 | a regular key followed by Backspace restores the buffer |
| DynamicIO.TabTwice | src/dynamicio.py:189-195 | with the buffer holding any text, after one fetch a first Tab appends the completion and a second prints only spaces |
| DynamicIO.DynamicInput.GetCursorPosition | src/dynamicio.py:211-241 | the reply is read up to its first 'R' and parsed; a reply without 'R' yields no position |
| DynamicIO.ReadReport | src/dynamicio.py:228-233 | the characters read are a prefix of the stream that ends at its first 'R' and holds no earlier 'R' |
| DynamicIO.ThroughFirstUnique | src/dynamicio.py:228-233 | the prefix ending at the first 'R' is the only prefix that ends in 'R' with no earlier 'R' |
| DynamicIO.ParseCursorReportRoundTrip | src/dynamicio.py:237-241 | a report ESC [ row ; col R parses back to (row, col), even after any run of ESC and '[' characters |
| DynamicIO.ParseDigitReport | src/dynamicio.py:237-241 | stripping, dropping the 'R' and splitting at ';' gives two digit runs, read as their values |
| DynamicIO.LStripIntroducer | src/dynamicio.py:238 | `lstrip("\033[")` removes every leading ESC and '[', not a fixed prefix |
| DynamicIO.DynamicInput.ApplyEdit | src/dynamicio.py:243-261 | the buffer becomes `buffer[returnRange:] + text`; the writes are hide, move back, clear, the text, show |
| DynamicIO.DynamicInput.Edit | src/dynamicio.py:263-277 | empty text raises ValueError and changes nothing; otherwise the edit is applied |
| DynamicIO.EditSplice | src/dynamicio.py:256-259 | the splice is exactly the new text when the range covers the buffer, and equals "replace the last `returnRange` characters" only when dropping them from either end leaves the same characters |
| DynamicIO.EditShowsCursor | src/dynamicio.py:251-261 | an edit leaves the cursor visible |
| Completer.Complete | src/utils/completer.py:5-28 | nothing is written exactly when the buffer is longer than the stamp, so an equal length still renders; otherwise the six writes come in order; every hide is followed by a show |
| Completer.RenderShowsCursor | src/utils/completer.py:19-28 | whatever came before, the cursor is visible after a display |
| DynamicInputs.DynamicInput.constructor | src/dynamic-inputs.py:8-22 | a new session has an empty packet and both flags clear |
| DynamicInputs.DynamicInput.Complete | src/dynamic-inputs.py:30-56 | the display is written unless the buffer is longer than the stamp |
| DynamicInputs.DynamicInput.ProcessCompletion | src/dynamic-inputs.py:58-75 | no change while a fetch runs; otherwise the packet is stamped with the snapshot's length, shown unless exiting or stale, and the flag ends clear |
| DynamicInputs.DynamicInput.Input | src/dynamic-inputs.py:77-132 | a missing callback raises ValueError after the buffer is emptied and before the prompt; only an accepted Enter returns, with `exit` set; `exit` is otherwise never reset |
| DynamicInputs.DynamicInput.Tick | src/dynamic-inputs.py:110-116 | a fetch for the buffer starts exactly when more than `time_buffer` has passed since the last accepted key and `called` is set, and `called` is then false; otherwise nothing changes |
| DynamicInputs.DynamicInput.KeyPass | src/dynamic-inputs.py:118-130 | Tab, Enter and Backspace go to their handlers and other keys to the regular handler; `called` becomes the handler's truthiness; the key's time becomes `ts` exactly when the handler answered neither CONTINUE nor EXIT; only an accepted Enter ends the loop |
| DynamicInputs.IdleAfterFetch | src/dynamic-inputs.py:113-116 | after a fetch, a later pass with no key starts no fetch and writes nothing |
| DynamicInputs.DynamicInput.HandleEnter | src/dynamic-inputs.py:134-152 | an empty line with empty input refused gives CONTINUE and changes nothing; otherwise EXIT with `exit` set, the line cleared and `end` printed |
| DynamicInputs.DynamicInput.HandleBackspace | src/dynamic-inputs.py:154-170 | on a non-empty buffer, exactly the last character goes and the result is True; on an empty one, the result is None with no change |
| DynamicInputs.DynamicInput.HandleTab | src/dynamic-inputs.py:172-189 | cached content is printed and appended and stays cached; with none, `indent` spaces are printed and the buffer is kept; the result is False |
| DynamicInputs.DynamicInput.HandleRegular | src/dynamic-inputs.py:191-202 | the key is appended and echoed, and the result is True |
| DynamicInputs.CompletionAfterExit | src/dynamic-inputs.py:73-75 | once Enter has set `exit`, a fetch still caches its packet but writes nothing |
| DynamicInputs.TabTwice | src/dynamic-inputs.py:183-186 | with the buffer holding any text, two Tabs after one fetch append the completion twice |
| MainEngine.DynamicInput.constructor | src/main.py:9-24 | a new session has no completion, zero lengths and both flags clear |
| MainEngine.DynamicInput.Complete | src/main.py:26-41 | the display is save, clear, the coloured text, restore, with no guard |
| MainEngine.RenderPlainKeepsCursor | src/main.py:33-41 | that display neither hides nor shows the cursor |
| MainEngine.DynamicInput.ProcessCompletion | src/main.py:43-62 | no change while a fetch runs; otherwise the buffer length, the completion and its length are recorded, the completion is shown unless exiting, and the flag ends clear |
| MainEngine.DynamicInput.HandleKey | src/main.py:101-134 | every key sets `called` except a refused empty Enter and a Tab with a completion; Backspace pops only a non-empty buffer; Tab prints the completion or spaces and never changes the buffer; a regular key is appended and clears the completion exactly when the text has run past it; only an accepted Enter finishes, setting `exit`; the key's time becomes `ts` exactly when the pass was neither skipped nor finished |
| MainEngine.DynamicInput.Tick | src/main.py:95-99 | a fetch for the buffer starts exactly when more than `time_buffer` has passed since the last accepted key and `called` is set, and `called` is then false; otherwise nothing changes |
| MainEngine.DynamicInput.Input | src/main.py:64-136 | a missing callback raises ValueError before the prompt; only an accepted Enter returns, with `exit` set and the text non-empty unless empty input is allowed |
| MainEngine.TabLeavesBuffer | src/main.py:122-125 | Tab after a fetch shows the completion but leaves the typed text unchanged |
| Autocompletion.LastWordIsMaximalSuffix | Examples/autocompletion.py:16 | the matched word is the longest suffix of the input without a space |
| Autocompletion.LastWordOfWord | Examples/autocompletion.py:16 | a text without spaces is matched whole |
| Autocompletion.LastWordAfterSpace | Examples/autocompletion.py:16 | everything up to the last space is ignored |
| Autocompletion.FirstCompletionFound | Examples/autocompletion.py:17-19 | when some choice starts with the word, word + result is the first such choice, and the result has that choice's length minus the word's |
| Autocompletion.FirstCompletionNone | Examples/autocompletion.py:17-21 | when no choice starts with the word, the result is empty |
| Autocompletion.FirstMatchWins | Examples/autocompletion.py:14-19 | "ap" completes to "ple" (apple), not "ricot" |
| Autocompletion.EmptyWordOffersFirstChoice | Examples/autocompletion.py:16-19 | empty input or a trailing space is offered "apple" whole |
| Autocompletion.LastWordIsMatched | Examples/autocompletion.py:14-19 | in "I like bl" only "bl" is matched, giving "ueberry" |
| Autocompletion.NoMatchNoCompletion | src/dynamic-inputs.py:214-221 | "kiwi", which no choice starts with, gets "" |
| ManipulatingInput.RTDynamicReplacing.constructor | Examples/manipulating_input.py:8-14 | the table is exit→EXIT then continue→CONTINUE, and the session is new |
| ManipulatingInput.RTDynamicReplacing.Check | Examples/manipulating_input.py:16-30 | the replacements are applied in table order; an unchanged text issues no edit; a changed one issues exactly one edit stepping back over the original length with the new text, which is never empty |
| ManipulatingInput.ApplyAllSnoc | Examples/manipulating_input.py:21-22 | each further pair is one more `replace` on the result so far |
| ManipulatingInput.ApplyReplacements | Examples/manipulating_input.py:11-22 | the example's table is "exit" first, then "continue" |
| ManipulatingInput.ApplyAllKeepsEmptiness | Examples/manipulating_input.py:21-22 | with no empty key or value, the result is empty exactly when the text is |
| ManipulatingInput.ChangedTextIsNonEmpty | Examples/manipulating_input.py:24-30 | an issued edit never has the empty text that `edit` refuses |
| ManipulatingInput.NoKeywordNoChange | Examples/manipulating_input.py:21-25 | a text with neither keyword is unchanged, so no edit is issued |
| ManipulatingInput.ExitIsCapitalised | Examples/manipulating_input.py:12-22 | "exit" becomes "EXIT" |
| ManipulatingInput.ExitScenario | Examples/manipulating_input.py:16-30 | typing "exit" key by key and checking it leads to `edit(4, "EXIT")`: the buffer becomes "EXIT" |
| PyText.SliceFrom | src/dynamicio.py:256 | `s[i:]` is a suffix of `s`, of length `len(s) - i` in range, empty past the end, and the last `-i` elements for negative `i` |
| PyText.DropLast | src/dynamicio.py:239 | `s[:-1]` is `s` without its last element, and empty stays empty |
| PyText.Reversed | Examples/autocompletion.py:16 | `s[::-1]` has the same length, with the elements in opposite order |
| PyText.ReplaceLength | Examples/manipulating_input.py:22 | each replacement changes the length by `len(rep) - len(pat)` |
| PyText.ReplaceFixedIff | Examples/manipulating_input.py:22-25 | `replace` leaves the text as it is exactly when `pat == rep` or `pat` does not occur |
| PyText.ReplaceChangesMatch | Examples/manipulating_input.py:22 | a text that starts with the pattern is changed by a replacement that differs from it |
| PyText.Split | src/dynamicio.py:239 | `split` gives at least one piece, and no piece holds the separator |
| PyText.JoinSplit | src/dynamicio.py:239 | joining the pieces of a split gives back the text |
| PyText.SplitJoin | src/dynamicio.py:239 | splitting a join of separator-free pieces gives back the pieces |
| PyText.SplitSingle | Examples/autocompletion.py:16 | a split has one piece exactly when the separator does not occur |
| PyText.LastPieceIsMaximalSuffix | Examples/autocompletion.py:16 | the last piece of a split is the longest separator-free suffix |
| PyText.LStrip | src/dynamicio.py:238 | `lstrip` gives a suffix that starts outside the set |
| PyText.LStripRemovesOnly | src/dynamicio.py:238 | `lstrip` removes only characters of the set |
| PyText.RStrip | src/dynamicio.py:239 | `rstrip` gives a prefix that ends outside the set |
| PyText.RStripRemovesOnly | src/dynamicio.py:239 | `rstrip` removes only characters of the set |
| PyText.ParseIntGroup | src/dynamicio.py:239 | `int()` of an unsigned digit group is its value |
| PyText.ParseIntDecimal | src/dynamicio.py:239 | `int(str(n)) == n` |
| PyText.DecimalValue | src/dynamicio.py:239 | the digits of `str(n)` have the value `n` |
| Terminal.Spaces | src/dynamicio.py:194 | `" " * n` is `n` spaces, none when `n` is not positive |

## Left out

- Keyboard I/O (`msvcrt.kbhit`, `getch`, `getwch`) is replaced by the poll sequence. The model has no UTF-8 decoding: a byte that fails to decode raises in the source, which the model does not capture.
- Threads are left out. Each fetch and each edit is one atomic call. So the races between a completion display, an edit and the key loop are not modelled, and neither is the list aliasing through which a running fetch sees later keys.
- Clocks are integer ticks. The float mean `sum(delay_buffer) / len(delay_buffer)` is kept as an exact quotient.
- `time.sleep(monitor_delay)` only paces the loop and is left out.
- Escape bytes, `rich` markup and colours are left out, and so is `src/utils/cursor.py`. Each write is one `Terminal.Op`.
- The raw-mode terminal setup of `get_cursor_position` (`termios`, `tty`) is left out. A reply that never holds 'R' yields `NoReply`, where the source reads forever.
- `int()` accepts only ASCII whitespace and ASCII digits in this model.
- `call_to_example` in src/main.py uses `difflib.get_close_matches`, a float similarity ratio, and is not modelled.
- The module-level `input` wrapper (src/dynamicio.py:279-292) passes `raw_call`, which `DynamicInput.input` does not accept. The same goes for `realtime_check` (Examples/manipulating_input.py:32-43) and the `time_buffer` argument at Examples/autocompletion.py:33. None of them is modelled as working. `Check` is modelled on its own.
- The `__main__` blocks are left out (Examples/autocompletion.py:23-52, Examples/manipulating_input.py:45-47, src/dynamic-inputs.py:204-224, src/main.py:138-155). They run interactive sessions on the real keyboard, and most print what was typed; only their completion callbacks are modelled.
- The bind branch at src/dynamicio.py:115-119 needs `call_to is None` and starts a thread with no target. It is kept in `DynamicIO.DynamicInput.Input` as echoing the key only.
- `InputConfigsPacket` is unpacked into method parameters. `completionLen` in src/dynamic-inputs.py is set and never read, so it is omitted.
- Python's dynamic `self.buffer` attribute is created in `input`. Here it is a field that each constructor sets to empty.
- DynamicIO.DynamicInput.Input: states the returned text only as the buffer at the accepted Enter, with `exit` and the empty-input rule; it does not relate that text to the keys that were read. The fetch rules of each pass are the contracts of `InactivityCheck` and `KeyPass`, which the loop calls.
- DynamicInputs.DynamicInput.Input: as above; the fetch rules are the contracts of `Tick` and `KeyPass`.
- MainEngine.DynamicInput.Input: does not state the returned text beyond `exit` and the empty-input rule; the text leaves out accepted completions, as in the source. The fetch rules are the contracts of `Tick` and `HandleKey`.
- DynamicIO.DynamicInput.ProcessCompletion, DynamicInputs.DynamicInput.ProcessCompletion and MainEngine.DynamicInput.ProcessCompletion: the callback is a total function. In the source a `call_to` that raises leaves `fetchInProgress` set for good, since nothing clears it in a `finally`, and every later fetch then returns at once; the model does not capture that.
