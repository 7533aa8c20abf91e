# nenu's filter-and-select engine in Dafny

nenu is a small X11 menu. It reads lines (the *options*) from standard
input, shows them under an input bar, and narrows the list to the options
that start with the typed text. When the user accepts, it prints a line.
This project models the editing core of `nenu.c`:

- the NUL-terminated text buffer `text[MAX_LEN]` and its `cursor`;
- `insert`, the single memmove primitive behind typing and deleting;
- `nextrune`, which steps the cursor over UTF-8 continuation bytes;
- `update_valid_options`, the prefix filter that rebuilds the `valid` list;
- the circular Up/Down and scroll-wheel selection;
- Tab completion (`copy_first`);
- the per-key logic of `handle_key` and `handle_button`, including the
  Control remapping and the `-a` exit-on-one check;
- `finish`'s choice of the line to print.

The project has two layers.

- **Specification on values.** Modules `Bytes`, `Runes`, `Filtering`,
  `Selection` and `Handlers` state what each step does to a value
  `Editor(text, cursor, valid, sel)` and prove its properties. `text` is
  the buffer's content without its NUL. `valid` holds positions in the
  option list. `sel` is a position in `valid`; it stands for the `valid`
  pointer, which in nenu is also the selection.
- **The program as written.** Module `Nenu` is a class `Session` whose
  `text` field is the `MAX_LEN`-byte array. Its methods run nenu's loops:
  strlen, the `nextrune` loop, memmove/memcpy, the filter loop, the
  list-walking Up/Down, End's and `copy_first`'s cursor walks and the
  `-a` counting loop. Each method is proved to leave the state the
  corresponding `Handlers` function describes.

`MAX_LEN` comes from a header outside this model, so it is a field
`maxLen` of `Config`. The C library's `iscntrl` is an abstract predicate
`Config.isCntrl`. A key event carries what the input method looked up:
the bytes written (`chars`) and the first byte of the lookup buffer
(`lead`). `handle_key` tests `lead` with `iscntrl`. When the lookup
writes nothing (an arrow key, say), that byte of the stack buffer was
never initialised, so `lead` may be any value. A NULL dereference is the
outcome `Crashed`. `finish` and `exit` are the outcomes `Printed(line)`
and `Exited(status)`. Of `render()` the model keeps only what it does to
the state: `render_options` reads `valid->prev`, so it crashes whenever
the valid list is empty (`Handlers.Render`).

## Model

| member | source | states |
|---|---|---|
| Bytes.Strlen | nenu.c:154 | `strlen` is the offset of the first NUL, and no byte before it is NUL |
| Bytes.CString | nenu.c:89-91 | the text a buffer holds (what `printf("%s")` prints) is NUL-free, shorter than the buffer, and followed by a NUL |
| Bytes.CStringOf | nenu.c:89-91 | a buffer that starts with a NUL-free `t` and a NUL holds exactly the C string `t` |
| Bytes.StrncmpEqualFrom | nenu.c:333 | `strncmp(a, b, n) == 0` from position `i` holds exactly when the strings agree at every position below `n` that the text reaches before a NUL |
| Bytes.StrncmpEqualFromAgrees | nenu.c:333 | the byte-by-byte `strncmp(text, o, strlen(text)) == 0` test from position `i` holds exactly when the two strings agree on every position from `i` up to the length of the text |
| Bytes.StrncmpIsPrefix | nenu.c:333 | `strncmp(text, o, strlen(text)) == 0` holds exactly when the text is a byte prefix of the option |
| Bytes.MovedBytes | nenu.c:157 | byte by byte, `memmove` puts the source range's bytes in the destination range, as if through a temporary buffer, and leaves every other byte alone |
| Bytes.CopiedBytes | nenu.c:158-159 | byte by byte, `memcpy` writes `str` from the cursor on and leaves every other byte alone |
| Bytes.RawInsert | nenu.c:157-160 | `insert`'s move and copy stay inside the buffer: its length does not change |
| Bytes.RawInsertMoveLength | nenu.c:157 | the memmove count `MAX_LEN - cursor - MAX(n, 0)` is the one `RawInsert` uses for both insertion and deletion |
| Bytes.RawInsertShape | nenu.c:157-159 | an insertion puts `str` between the bytes before the cursor and the bytes after it, and the last `|str|` bytes of the buffer fall off its end |
| Bytes.RawDeleteShape | nenu.c:157 | a deletion of `k` bytes before the cursor cuts them out, and the last `k` bytes of the buffer stay where they were |
| Bytes.FillShape | nenu.c:154-159 | an insertion that fills the buffer exactly leaves the spliced text and no NUL |
| Bytes.SpliceShape | nenu.c:154-159 | an insertion that leaves room puts the spliced text and a NUL at the start of the buffer |
| Bytes.CutShape | nenu.c:157 | a deletion puts the cut text and a NUL at the start of the buffer |
| Bytes.AsWrittenLosesTerminator | nenu.c:154 | the capacity test as written lets through an insertion that leaves no NUL in the buffer (see Findings) |
| Bytes.RawInsertSplices | nenu.c:151-161 | with the corrected test, an insertion keeps a C string whose text is the old text with `str` spliced in at the cursor |
| Bytes.RawDeleteCuts | nenu.c:151-161 | a deletion keeps a C string whose text is the old text without the `k` bytes before the cursor |
| Bytes.InsertEdits | nenu.c:151-161 | both directions of `insert` together: the buffer stays a C string, the text is edited at the cursor, and the moved cursor stays within the text |
| Runes.ContinuationIsMasked | nenu.c:175 | the mask test `(b & 0xc0) == 0x80` is exactly the continuation-byte range `0x80..0xBF` |
| Runes.BoundaryFrom | nenu.c:175 | the scan forward stops at the first offset that ends the text or holds a byte that is not a continuation byte, and every byte it passes is a continuation byte |
| Runes.BoundaryUpTo | nenu.c:175 | the scan backward stops at the last offset that is 0 or holds a byte that is not a continuation byte, and every byte it passes is a continuation byte |
| Runes.NextRune | nenu.c:172-177 | `nextrune(+1)` is strictly after the cursor, at most the NUL, and not on a continuation byte; every byte it skips is a continuation byte |
| Runes.PrevRune | nenu.c:172-177 | `nextrune(-1)` is strictly before the cursor and is 0 or not on a continuation byte; every byte it skips is a continuation byte |
| Runes.NextRuneIsFirst | nenu.c:172-177 | any offset after the cursor that ends the run of continuation bytes is `nextrune(+1)` |
| Runes.PrevRuneIsLast | nenu.c:172-177 | any offset before the cursor that starts the run of continuation bytes (or is 0) is `nextrune(-1)` |
| Runes.LeftUndoesRight | nenu.c:277-285 | from a rune boundary, a step right and then a step left come back |
| Runes.RightUndoesLeft | nenu.c:277-285 | to a rune boundary, a step left and then a step right come back |
| Runes.RuneCountAppend | nenu.c:172-177 | the rune count of a concatenation is the sum of the counts |
| Runes.NoRuneStarts | nenu.c:175 | a run of continuation bytes starts no rune |
| Runes.StepsCountRunes | nenu.c:291-293 | End's walk from `c` takes one step plus one step per rune starting after `c` |
| Runes.WalkFromStartCountsRunes | nenu.c:291-293 | from offset 0, End's walk takes exactly as many steps as the text has runes |
| Filtering.Filter | nenu.c:326-346 | every entry of the valid list is the position of an option that the text is a prefix of, in input order and with no repeats |
| Filtering.FilterStep | nenu.c:332-340 | one more iteration of the filter loop appends option `i` exactly when the text is its prefix |
| Filtering.FilterAppend | nenu.c:332-340 | reading one more option extends the valid list by its position exactly when it matches |
| Filtering.FilterExact | nenu.c:326-346 | an option's position is in the valid list if and only if the text is a prefix of that option |
| Filtering.FilterNarrows | nenu.c:326-346 | a longer text can only drop options from the valid list |
| Filtering.FilterKeepsCompleted | nenu.c:163-170 | filtering by an option's own text keeps that option |
| Filtering.FilterEmptyText | nenu.c:326-346 | with nothing typed, every option is valid, in input order |
| Selection.Advance | nenu.c:303-308 | Down selects the next entry, wrapping from the last to the first: `(sel + 1) mod n` |
| Selection.Retreat | nenu.c:297-302 | Up selects the previous entry, wrapping from the first to the last: the entry that Down would leave for `sel` |
| Selection.RetreatUndoesAdvance | nenu.c:297-308 | Up undoes Down, and Down undoes Up |
| Selection.Wraparound | nenu.c:182-193 | Down from the last entry selects the first; Up from the first selects the last; with one entry both stay put |
| Selection.AdvanceTimesAdds | nenu.c:303-308 | `a + b` presses of Down equal `a` presses followed by `b` presses |
| Selection.AdvanceTimesBelowEnd | nenu.c:303-308 | below the end, `k` presses of Down move the selection `k` entries |
| Selection.FullCircle | nenu.c:303-308 | pressing Down once per entry returns to the starting entry |
| Handlers.Render | nenu.c:108-147 | the `render()` after a handler leaves the state alone; it crashes exactly when the program would go on running with an empty valid list (`valid->prev` at nenu.c:116), so a running program always has a list |
| Handlers.Start | nenu.c:467-488 | at start-up nothing is typed and every option is valid; the first `render()` (nenu.c:572) crashes exactly when there are no options (under `-e`; empty input crashes earlier, in `read_input`, with the same outcome) |
| Handlers.ControlRemap | nenu.c:219-244 | with Control, only a, e, p, n, f, b and d are renamed, each to one of Home, End, Up, Down, Right, Left or Delete; every other key keeps its name |
| Handlers.InsertChars | nenu.c:151-161 | a key's bytes that do not fit with the terminator change nothing; otherwise they appear at the cursor, the bytes on either side stay in order, the cursor moves past them, and the list is untouched |
| Handlers.Backspace | nenu.c:266-271 | Backspace exits with status 0 exactly at offset 0, changing nothing; elsewhere the cursor moves back, the text before it and from the old cursor on are kept, and the list is recomputed with its head selected |
| Handlers.CopyFirst | nenu.c:163-170 | Tab with an empty list changes nothing; otherwise the text becomes the selected option, the cursor is at its end, and the recomputed list keeps that option with its head selected |
| Handlers.EditKey | nenu.c:251-295 | the input-bar switch never crashes or prints; it exits (status 0, state unchanged) exactly for Backspace at offset 0 |
| Handlers.FinishLine | nenu.c:86-94 | the printed line is a C string that fits the buffer and starts with the typed text; without `-c` and `-a` it is the typed text |
| Handlers.AutoExit | nenu.c:318-321 | the `-a` check changes no state and finishes exactly when the selection is the last entry of a non-empty list, printing that entry |
| Handlers.NavigateKey | nenu.c:297-321 | the navigation switch leaves text, cursor and list alone, and crashes exactly when Up or Down finds the list empty |
| Handlers.KeyStep | nenu.c:208-324 | a key that leaves the program running leaves it with a non-empty valid list |
| Handlers.ButtonStep | nenu.c:179-206 | a button moves at most the selection, prints exactly for buttons 1 to 3, and leaves a running program with a non-empty list; on a non-empty list, scrolling up selects `Retreat` and scrolling down `Advance` of the selection, each wrapping around, and the program runs on |
| Handlers.Step | nenu.c:578-586 | a lookup overflow and an Expose leave the state alone, and from a state with a non-empty list no event leaves the program running without one |
| Handlers.ControlCut | nenu.c:245-247 | Control-k's truncation keeps the state invariant without recomputing the list |
| Handlers.RefilterKeepsWF | nenu.c:326-346 | a recomputed list satisfies the state invariant for any text that fits |
| Handlers.BackspaceKeepsWF | nenu.c:266-271 | Backspace keeps the state invariant |
| Handlers.InsertKeepsWF | nenu.c:253-258 | typing keeps the state invariant |
| Handlers.EditKeyKeepsWF | nenu.c:251-295 | every case of the input-bar switch keeps the state invariant |
| Handlers.NavigateKeepsWF | nenu.c:297-321 | the navigation switch and the `-a` check keep the state invariant |
| Handlers.CursorKeepsWF | nenu.c:277-293 | moving the cursor anywhere inside the text keeps the state invariant |
| Handlers.CopyFirstKeepsWF | nenu.c:163-170 | Tab keeps the state invariant |
| Handlers.StepKeepsWF | nenu.c:208-324 | every event keeps the invariant: the text is a C string that fits with its NUL, the cursor is inside it, every valid entry still starts with the text, the list is in input order with no repeats, and the selection is an entry (or 0 for an empty list) |
| Handlers.InsertKeepsRunes | nenu.c:252-258 | typing bytes that start with a rune, at a cursor between runes, leaves the text starting with a rune and the cursor between runes |
| Handlers.BackspaceKeepsRunes | nenu.c:266-271 | Backspace from a cursor between runes cuts a whole rune and leaves the cursor between runes |
| Handlers.DeleteKeepsRunes | nenu.c:260-271 | Delete from a cursor between runes leaves the cursor between runes |
| Handlers.TypeKeepsRunes | nenu.c:252-258 | a key of the default case keeps the cursor between runes |
| Handlers.EditKeyKeepsRunes | nenu.c:251-295 | every case of the input-bar switch keeps the text starting with a rune and the cursor between runes |
| Handlers.StepKeepsRunes | nenu.c:208-324 | when the options and every key's bytes start with a rune, every event keeps the text starting with a rune and the cursor on a rune boundary |
| Handlers.InitialState | nenu.c:467-488 | at start-up every option is valid, in input order, the first is selected, and the invariant holds |
| Handlers.BackspaceAtStartExits | nenu.c:266-268 | Backspace at offset 0 exits with status 0 and prints nothing |
| Handlers.BackspaceCutsRune | nenu.c:266-271 | Backspace elsewhere cuts the previous rune (its lead byte and continuation bytes), moves the cursor to where it began, and recomputes the list and selects its head; it then crashes in `render()` when no option matches, finishes under `-a` with one match, and runs otherwise |
| Handlers.DeleteCutsRune | nenu.c:260-271 | Delete on a boundary inside the text cuts the rune after the cursor, leaves the cursor in place and recomputes the list; it then crashes in `render()` when no option matches, finishes under `-a` with one match, and runs otherwise |
| Handlers.DeleteAtEndKeepsState | nenu.c:260-261 | Delete at the end of the text changes nothing; only the `-a` check and `render()` run |
| Handlers.CursorKeysMoveOnlyCursor | nenu.c:277-293 | Left, Right, Home and End change only the cursor and keep it on a rune boundary: Home goes to 0, End to the end of the text, Left strictly back unless at 0, Right strictly forward unless at the end |
| Handlers.LeftRightInverse | nenu.c:277-285 | from a boundary, Right then Left, and Left then Right, restore the state |
| Handlers.UpDownMoveSelection | nenu.c:297-309 | Up and Down move only the selection, one entry with wrap-around, and each undoes the other |
| Handlers.NavigateEmptyListCrashes | nenu.c:297-309 | Up, Down and the scroll buttons dereference NULL when the valid list is empty |
| Handlers.ArrowAfterPrintableRestartsSelection | nenu.c:252-258 | Down, when the uninitialised lookup byte happens to be printable, first recomputes the list and selects its head, and only then moves the selection |
| Handlers.TabCompletes | nenu.c:163-170 | Tab replaces the text with the selected option, puts the cursor at its end, and keeps that option in the recomputed list, so `render()` does not crash; with an empty list it changes nothing and `render()` crashes |
| Handlers.TypingInserts | nenu.c:252-258 | a printable key splices its bytes in at the cursor unless they do not fit; the list is recomputed with its head selected, `render()` crashes when it is empty, `-a` finishes when it has one entry, and typing at the end only narrows it |
| Handlers.ReturnAndEscape | nenu.c:86-94 | Return and buttons 1-3 print the selected option under `-c` or `-a` when the list is not empty, and the typed text otherwise; Escape exits with status 1 |
| Handlers.ExitOnOneAfterEveryKey | nenu.c:318-321 | under `-a`, no key leaves the program running with exactly one entry from the selection to the end of the list |
| Handlers.DownOntoLastFinishes | nenu.c:303-321 | under `-a`, moving the selection onto the last of several matches finishes with that match |
| Handlers.ScrollSkipsExitOnOne | nenu.c:188-193 | the scroll wheel skips the `-a` check and leaves one entry after the selection without finishing |
| Handlers.ControlBindings | nenu.c:219-244 | Control with a, e, p, n, f, b or d acts exactly like Home, End, Up, Down, Right, Left or Delete |
| Handlers.ControlKCuts | nenu.c:245-247 | Control-k cuts the text at the cursor and leaves the valid list and selection as they were |
| Handlers.NulKeyInsertsNothing | nenu.c:252-258 | Control-Space, whose lookup is the single byte NUL, inserts nothing and does not recompute the list: only the `-a` check and `render()` run |
| Handlers.TypeAtEnd | nenu.c:252-258 | typing one printable byte at the end of the text appends it and recomputes the list; `render()` crashes when no option is left, `-a` finishes when one is |
| Handlers.FilterOfOne | nenu.c:332-340 | the valid list of one option is that option exactly when it matches |
| Handlers.FilterOfTwo | nenu.c:332-340 | the valid list of two options lists each matching one in turn |
| Handlers.FilterOfThree | nenu.c:332-340 | the valid list of three options lists each matching one in turn |
| Handlers.FruitFilter | nenu.c:326-346 | with the options apple, apply and banana, each prefix of `apple` keeps apple and apply until the fifth byte, which keeps apple alone |
| Handlers.TypedAppleWF | nenu.c:326-346 | every state reached by typing a prefix of `apple` satisfies the invariant |
| Handlers.AppendStep | nenu.c:252-258 | from a state whose list was computed from its text, typing a printable byte appends it and recomputes the list, with the outcome `render()` and `-a` give |
| Handlers.AppleOutcome | nenu.c:318-321 | typing a byte of `apple` never empties the list; only the fifth byte leaves one option, and only under `-a` does it finish, printing `apple` |
| Handlers.ScenarioTypeApple | nenu.c:252-258 | typing `apple` byte by byte appends each byte; under `-a`, the fifth byte finishes with `apple` and no earlier byte does |
| Handlers.TypedApp | nenu.c:326-346 | after `app`, apple and apply are valid and apple is selected |
| Handlers.ScenarioDownAfterApp | nenu.c:252-309 | after `app`, Down (whose uninitialised lookup byte happens to be printable) selects apply |
| Handlers.ScenarioReturnAfterApp | nenu.c:86-94 | without `-c` or `-a`, Return then prints the typed `app`, not apply |
| Handlers.FruitsMiss | nenu.c:326-346 | a first byte other than `a` and `b` matches none of apple, apply and banana |
| Handlers.ScenarioNoMatchCrashes | nenu.c:108-147 | typing into the empty text a byte that starts no option empties the valid list, and the `render()` that ends `handle_key` crashes |
| Handlers.ScenarioNoOptions | nenu.c:569-572 | with no options (`-e`) the first `render()` crashes before any event; empty input crashes earlier, in `read_input` |
| Nenu.Session.constructor | nenu.c:467-488 | the zeroed buffer plus `read_input`'s call to `update_valid_options` give the initial state |
| Nenu.Session.TextLength | nenu.c:154 | the strlen loop returns the length of the text |
| Nenu.Session.NextRune | nenu.c:172-177 | the `nextrune` loop with its mask test returns `Runes.NextRune` or `Runes.PrevRune` of the text |
| Nenu.Session.MemMove | nenu.c:157 | the buffer becomes `Moved` of the old one |
| Nenu.Session.MemCopy | nenu.c:158-159 | the buffer becomes `Copied` of the old one |
| Nenu.Session.Shift | nenu.c:157-160 | every byte of the buffer becomes `RawInsert` of the old buffer, and the cursor moves by `n` |
| Nenu.Session.Insert | nenu.c:151-161 | an edit that does not fit changes nothing; otherwise the text is spliced or cut at the cursor and the cursor moves by `n` (corrected capacity test) |
| Nenu.Session.Matches | nenu.c:332-340 | the list-building loop returns exactly `Filter(text, options)` |
| Nenu.Session.UpdateValidOptions | nenu.c:326-346 | `update_valid_options` leaves exactly `Filter(text, options)` and selects its head |
| Nenu.Session.MoveUp | nenu.c:297-302 | the Up pointer walk selects `Retreat` of the old selection |
| Nenu.Session.MoveDown | nenu.c:303-308 | the Down pointer walk selects `Advance` of the old selection |
| Nenu.Session.MoveToEnd | nenu.c:291-293 | End's loop puts the cursor at the end of the text |
| Nenu.Session.CopyFirst | nenu.c:163-170 | `copy_first` leaves the state `Handlers.CopyFirst` describes |
| Nenu.Session.Backspace | nenu.c:266-271 | leaves the outcome and state `Handlers.Backspace` describes |
| Nenu.Session.CutRune | nenu.c:269 | `insert(NULL, nextrune(-1) - cursor)` cuts the bytes from the previous rune start up to the cursor and moves the cursor there |
| Nenu.Session.DeleteForward | nenu.c:260-271 | Delete does nothing at the end; elsewhere it steps right one rune and then acts as Backspace |
| Nenu.Session.MoveLeft | nenu.c:277-280 | Left moves the cursor to `PrevRune` unless it is at 0 |
| Nenu.Session.MoveRight | nenu.c:282-285 | Right moves the cursor to `NextRune` unless it is at the NUL |
| Nenu.Session.TypeKey | nenu.c:252-258 | the default case inserts the bytes and recomputes the list unless `iscntrl` holds for the lead byte |
| Nenu.Session.EditKey | nenu.c:251-295 | the input-bar switch leaves the outcome and state `Handlers.EditKey` describes |
| Nenu.Session.EditText | nenu.c:253-275 | the cases that change the text (default, Delete, BackSpace, Tab) leave the outcome and state `Handlers.EditKey` describes |
| Nenu.Session.MoveCursor | nenu.c:277-293 | Left, Right, Home and End leave the state `Handlers.EditKey` describes |
| Nenu.Session.CountMatchesFromSelection | nenu.c:319 | the counting loop returns the number of entries from the selection to the end of the list |
| Nenu.Session.Finish | nenu.c:86-94 | prints the line `Handlers.FinishLine` chooses |
| Nenu.Session.ExitOnOne | nenu.c:318-321 | the `-a` check finishes exactly when one entry remains from the selection on |
| Nenu.Session.Navigate | nenu.c:297-321 | the navigation switch and the `-a` check leave the outcome and state `Handlers.NavigateKey` describes |
| Nenu.Session.Render | nenu.c:108-147 | `render()` crashes on an empty valid list and otherwise changes nothing, as `Handlers.Render` says |
| Nenu.Session.KillToEnd | nenu.c:245-247 | Control-k's NUL at the cursor leaves the state `Handlers.ControlCut` describes |
| Nenu.Session.HandleKey | nenu.c:208-324 | `handle_key` leaves the outcome and state `Handlers.KeyStep` describes, including the crash of its closing `render()` |
| Nenu.Session.HandleButton | nenu.c:179-206 | `handle_button` leaves the outcome and state `Handlers.ButtonStep` describes, including the crash of its closing `render()` |
| Nenu.Session.HandleEvent | nenu.c:578-586 | one event of the main loop (key, button or Expose) leaves the outcome and state `Handlers.Step` describes |

## Left out

- X11 and Xft: window setup, fonts, drawing, sizing and positioning,
  `grab_keyboard_pointer` (a timed retry loop) and `keep_in_screen`
  (Xinerama). These are foreign library calls and pixel layout. Of
  `render` only its NULL dereference on an empty valid list is modelled;
  what it draws is not.
- `XmbLookupString` key decoding. Events are abstract values carrying the
  key symbol, the Control flag, the looked-up bytes and the first byte of
  the lookup buffer. `KeyWF` assumes the input method delivers the bytes
  of a C string, or the single NUL of Control-Space; `WF` assumes that
  `iscntrl(0)` holds, as it does in every C locale.
- The main event loop itself. `Nenu.Session.HandleEvent` models one
  iteration, Expose's redraw included; a session is a sequence of calls.
  `XRaiseWindow` is not modelled.
- Argument parsing and `usage`. The flags are fields of `Config`. On the
  command line, `-n` also sets `-c`; this model treats the flags as
  independent.
- `read_input`: fgets-based I/O. The options are given to the constructor
  as byte strings. The source drops the last character of each line, so
  a final line without a newline loses a real character; this is not
  modelled. Empty input dereferences NULL at nenu.c:485, before the first
  `render()`; `Handlers.Start` gives `Crashed` for it, as for `-e`.
- Options are assumed to be NUL-free and shorter than `MAX_LEN`
  (`OptionsFit`). `copy_first`'s `strcpy` would overflow the buffer
  otherwise.
- `iscntrl` is locale-dependent and is an abstract predicate.
- `malloc`/`free` and the leaked old valid lists. Lists are sequences.
- `printf` and `exit` are outcomes, not effects; `clean_resources` is not
  modelled.
- Nenu.Session.Insert: uses the corrected capacity test
  `strlen(text) + n >= MAX_LEN` (see Findings). With the source's `>`,
  an insertion that fills the buffer exactly destroys the terminator, and
  no C-string invariant can hold afterwards.
- Handlers.InsertChars: uses the same corrected capacity test as
  `Nenu.Session.Insert`.
- Handlers.TypingInserts: states the corrected capacity test, under which
  a text of `MAX_LEN - 1` bytes takes no more bytes.
- Handlers.TypeAtEnd: requires room for the byte and the terminator, as
  the corrected capacity test does.
- Nenu.Session.Insert: its contract states the text the buffer holds, not
  every byte past the terminator. `Nenu.Session.Shift`, which `Insert`
  calls, states every byte.

Where nenu's documented design and the code differ, the model follows the
code:

- Up, Down and the scroll buttons with an empty valid list dereference
  NULL (`Crashed`). They are not no-ops.
- The `render()` that ends every handler, redraws on Expose and runs
  before the event loop dereferences NULL when the valid list is empty.
  So typing a byte that no option starts with, Backspace or Delete that
  leaves no match, Tab with an empty list, and starting with no options
  all crash. The model does not treat an empty list as a state the
  program can run in.
- The `-a` check counts from the selection to the end of the list, not
  the whole list. It runs after every key event, not only after edits,
  and never after a button event.
- Control-k truncates the text without recomputing the valid list.
- Up or Down, when the uninitialised lookup byte is printable, takes the
  insertion path (Left and Right have cases of their own). Nothing is inserted, but the list is recomputed and the selection
  reset before the arrow moves it.
- The usage text describes `-c` as returning the match at the head of the
  list; `finish` prints the selected entry (the `valid` pointer), which
  Up and Down may have moved off the head.

## Findings

| source | as written | input that shows it | evidently intended | confidence | as-written member | corrected member |
|---|---|---|---|---|---|---|
| nenu.c:154 | `if (strlen(text) + n > MAX_LEN) return;` lets through an insertion that makes the text exactly `MAX_LEN` bytes long. The memmove then shifts the NUL terminator out of the buffer, and later `strlen` calls run past its end. | the text holds `MAX_LEN - 1` bytes and one more printable byte is typed | reject when `strlen(text) + n >= MAX_LEN`, so that the text and its NUL both fit | not executed | Bytes.AsWrittenLosesTerminator | Bytes.RawInsertSplices |
