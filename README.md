# kfs console: a Dafny model

This project models the interactive console of the kfs kernel. The console spans kernel.c, keyboard.c and utils.c, with the constants of kernel.h and keyboard.h. It is described in five parts.

**The 80×25 text-mode screen.** The screen is `terminal_buffer`. It is backed by ten sessions (`tty`), each with its own saved grid. Each session also has its own cursor row and column (`terminal_row`, `terminal_column`), its written extent (`terminal_written_column`) and its colour (`terminal_color`). Every session edits the bottom row, which starts with the `kfs> ` prompt.

**The keyboard interrupt.** `isr_keyboard` turns one scancode into one of the following:

- the insertion of a character, which honours shift and caps lock;
- a fresh prompt (Enter);
- backspace;
- through `handle_extended_byte`: forward delete, the cursor arrows and keypad Enter;
- a session switch (F1..F10, `swap_tty`);
- an update of the shift and caps lock flags.

**The screen primitives.**

- `terminal_putentryat`, `terminal_putchar`, `terminal_write` and `terminal_writestring`;
- `terminal_insert_char`;
- `move_cursor_left` and `move_cursor_right`;
- `update_cursor`;
- `terminal_putnbr_base`;
- `kmemset`;
- `terminal_initialize`, which blanks every grid and draws a prompt in every session.

**Two views of the console.** The console is modelled twice.

- `Terminal` describes the whole state as one value, `Term`, with one function per console operation. Its lemmas state the round trips and invariants those operations keep.
- `Console.Console` is a class whose fields are the arrays and per-session variables of the source. Its methods do what the C functions do, loop by loop and cell by cell. Each method is proved to change the class's abstraction `Abs()` exactly as the matching `Terminal` function says.

**The other modules.**

- `Editing` states the line editor's invariant and proves that every key except the left arrow keeps it. The invariant has three parts: the prompt sits in the first five cells, the cursor lies between the prompt and the written extent, and the cells after the written extent are blank. `Editing` also proves what each key does to the typed text.
- `Decoder` models the scancode step as a function of the keyboard flags.
- `Keymap` holds the scancode table and the codes.
- `Vga` holds the colour and cell encodings and `strlen`.
- `Utils` holds the cursor arithmetic and the digits of `terminal_putnbr_base`.

## Model

| member | source | states |
|---|---|---|
| Vga.VgaEntryColor | src/kernel/kernel.c:17-19 | the foreground colour is the low nibble of the attribute and the background colour is the high nibble, so both come back out of the byte |
| Vga.VgaEntry | src/kernel/kernel.c:21-23 | the character is the low byte of the 16-bit cell and the attribute is the high byte |
| Vga.Strlen | src/kernel/kernel.c:25-31 | the count returned is the index of the first NUL, and every character before it is not NUL |
| Vga.StrlenUnique | src/kernel/kernel.c:25-31 | a string holds at most one C-string length |
| Vga.CString | src/kernel/kernel.c:101-103 | the characters `terminal_writestring` writes are exactly the prefix of the string before its first NUL |
| Vga.PromptStrlen | src/include/kernel.h:47-48 | `strlen("kfs> ")` is TERMINAL_PROMPT_LEN (5), and its C string is the prompt itself |
| Keymap.Lookup | src/kernel/keyboard.c:104 | the corrected table read: any code past the table's last row gives NUL |
| Keymap.TableSize | src/include/keyboard.h:4-21 | the table has 128 rows, so every code with bit 7 set (every release, and 0xE0) gives NUL in both shift states |
| Keymap.LetterRows | src/include/keyboard.h:7-11 | every row with a lowercase letter pairs it with its uppercase letter, and no other row holds a letter in either column |
| Keymap.ControlCodesUnmapped | src/include/keyboard.h:25-45 | backspace, Enter, both shift presses, caps lock and F1..F10 have NUL in both columns, so they reach the switch of `isr_keyboard` |
| Keymap.ReleaseCodes | src/include/keyboard.h:25-31 | each shift or caps lock release code is its press code plus 0x80 |
| Keymap.FunctionKeyCodes | src/include/keyboard.h:36-45 | the ten case labels of the function-key arm are F1 + k for k below MAX_TTY, and a code is one of them exactly when it lies between F1 and F10 |
| Keymap.EnterCodes | src/include/keyboard.h:49-51 | keypad Enter sends the main Enter code after 0xE0, and 0xE0 lies past the table |
| Utils.CursorRegisterWrites | src/kernel/utils.c:75-82 | `update_cursor` writes register 0x0F and then 0x0E, and their two data bytes recombine into the 16-bit position |
| Utils.CursorOffsetOnScreen | src/kernel/utils.c:76 | on the screen the 16-bit position is exact (`y*80+x < 2000`) and splits back into the column and the row |
| Utils.NbrDigits | src/kernel/utils.c:106-110 | the digit indices the recursion emits are each below the base, denote the value, have no leading zero, and are a single digit exactly when the value is below the base |
| Utils.DigitChars | src/kernel/utils.c:106-110 | the recursion prints at least one character, exactly one when the value is below the base, and each is a character of `base[..base_len]` |
| Utils.DigitCharsSpec | src/kernel/utils.c:106-110 | the characters printed by the recursion are the value's digits, most significant first, each looked up in `base` |
| Utils.PutNbrBase | src/kernel/utils.c:98-111 | a negative number prints `-` followed by at least one digit; every character after the sign comes from `base[..base_len]` |
| Utils.PutNbrBaseSpec | src/kernel/utils.c:98-111 | a minus sign comes first exactly when `n` is negative, followed by the digits of abs(n) in the given base with no leading zeros |
| Utils.Kmemset | src/kernel/utils.c:113-119 | the first `num` bytes take `value` and the rest are unchanged |
| Terminal.SizeIndexWraps | src/kernel/kernel.c:68-72 | the `size_t` flat index `y*80 + x` is the sum reduced modulo 2^32 |
| Terminal.Decrement | src/kernel/keyboard.c:28 | `--` on a `size_t` is the inverse of `++` modulo 2^32 |
| Terminal.MoveLeft | src/kernel/utils.c:84-89 | only the active session's column changes: it drops by one, and stays put exactly when it is 0 |
| Terminal.MoveRight | src/kernel/utils.c:91-96 | only the active session's column changes: it rises by one, and stays put exactly when it is 79 |
| Terminal.PutCharCells | src/kernel/kernel.c:74-77 | the cell under the cursor takes `c` in the session colour, no other cell changes, and the rest of the state is `MoveRight` of the old one |
| Terminal.WriteCursor | src/kernel/kernel.c:95-99 | writing changes only the display and the active session's column, which advances by the length of the string and stops at column 79 |
| Terminal.Insert | src/kernel/kernel.c:79-93 | on a full line (80 written) nothing changes. Otherwise the written extent grows by one, `c` lands under the cursor in the session colour, and the cursor moves right except at column 79 |
| Terminal.DeleteLast | src/kernel/keyboard.c:16-30 | just after the prompt nothing changes. Otherwise the written extent drops by one modulo 2^32, and the cursor moves left except at column 0. The row's last cell is blanked, and at column 0 the cell before the row takes the row's first character |
| Terminal.DeleteNext | src/kernel/keyboard.c:32-45 | at or past the written extent nothing changes. Otherwise the extent drops by one, the cursor stays, and the row's last cell is blanked |
| Terminal.NewPrompt | src/kernel/keyboard.c:47-59 | the active session and the saved grids stay the same. Its cursor goes to column 5 of the bottom row. Its extent becomes 5 and its colour light grey |
| Terminal.Perform | src/kernel/keyboard.c:102-171 | no action leaves the state unchanged; only a session switch changes the active session or the saved grids, and a switch makes its target active |
| Terminal.Initial | src/kernel/kernel.c:33-62 | session 0 is active, and every session has its cursor and extent just after the prompt and a grid showing the prompted blank screen |
| Terminal.Swap | src/kernel/keyboard.c:88-100 | session `n` becomes active and the display shows its grid (or stays unchanged when `n` is already active). The old display is saved into the previously active session. No other session's grid changes, and no cursor, extent or colour changes |
| Terminal.SwapRoundTrip | src/kernel/keyboard.c:88-100 | switching to another session and back restores the whole state, apart from saving the display into the active session's grid |
| Terminal.WriteOnRow | src/kernel/kernel.c:95-99 | writing a string that fits on the cursor's row paints it from the cursor in the session colour and advances the cursor by its length |
| Terminal.WritePromptString | src/kernel/keyboard.c:52 | `terminal_writestring(TERMINAL_PROMPT)` from column 0 of the bottom row paints the prompt in the first five cells and leaves the cursor in column 5 |
| Terminal.WriteAppend | src/kernel/kernel.c:95-99 | writing `a + b` is writing `a` and then `b` |
| Terminal.CursorMovesInverse | src/kernel/utils.c:84-96 | away from the clamps, moving the cursor left then right (or right then left) restores the state |
| Terminal.NewPromptIdempotent | src/kernel/keyboard.c:47-59 | drawing the prompt twice is the same as drawing it once |
| Terminal.PerformKeepsValid | src/kernel/keyboard.c:102-171 | no key moves a session's cursor off the bottom row |
| Terminal.InitStep | src/kernel/kernel.c:58-61 | one round of the closing loop of `terminal_initialize` (prompt, then switch to session `tmp`) leads from one loop stage to the next |
| Terminal.InitStages | src/kernel/kernel.c:44-61 | that loop starts from the blank screens and ends with every session prompted on the bottom row and session 0 active |
| Editing.InsertAtLine | src/kernel/kernel.c:79-93 | on a well-formed line that is not full, the insertion puts `c` into the typed text at the cursor and keeps the line well formed |
| Editing.InsertEdits | src/kernel/kernel.c:79-93 | inserting keeps every session's edit line well formed. It puts `c` at the cursor in the typed text and moves the cursor right, except at the last column. On a full line (80 written) it changes nothing |
| Editing.ShiftLeftLine | src/kernel/keyboard.c:24-27 | the left shift removes one character from the typed text and keeps the line well formed |
| Editing.DeleteLastEdits | src/kernel/keyboard.c:16-30 | backspace removes the character before the cursor and moves the cursor left. Just after the prompt it changes nothing |
| Editing.DeleteNextEdits | src/kernel/keyboard.c:32-45 | forward delete removes the character under the cursor and keeps the cursor where it is. At the written extent it changes nothing |
| Editing.InsertThenBackspace | src/kernel/keyboard.c:16-30 | typing a character and then backspace gives back every character on the screen, the cursor and the written extent |
| Editing.PromptRowLine | src/kernel/keyboard.c:47-59 | a freshly drawn prompt row is an empty, well-formed edit line |
| Editing.NewPromptEdits | src/kernel/keyboard.c:47-59 | Enter keeps every edit line well formed and leaves the active one empty, with the cursor just after the prompt |
| Editing.SwapEdits | src/kernel/keyboard.c:88-100 | switching sessions keeps every session's edit line well formed |
| Editing.PerformEdits | src/kernel/keyboard.c:102-171 | every key except the left arrow keeps every edit line well formed |
| Editing.CursorLeftLeavesLine | src/kernel/utils.c:84-89 | `move_cursor_left` stops only at column 0, so from just after the prompt the left arrow puts the cursor inside the prompt and breaks the invariant |
| Editing.InitialEditing | src/kernel/kernel.c:33-62 | after `terminal_initialize` every session holds an empty, well-formed edit line |
| Decoder.TypedChar | src/kernel/keyboard.c:104-111 | without caps lock the inserted character is the table entry for the current shift state; with caps lock it is one of the key's two table entries |
| Decoder.ExtendedAction | src/kernel/keyboard.c:61-86 | the byte after 0xE0 does something exactly when it is keypad Enter, Delete, right or left, and it never inserts, erases backwards or switches sessions |
| Decoder.ModifierStep | src/kernel/keyboard.c:124-152 | codes other than shift and caps lock leave the flags unchanged |
| Decoder.ControlAction | src/kernel/keyboard.c:113-169 | the switch only selects sessions below MAX_TTY, and the shift and caps lock arms ask the console for nothing |
| Decoder.ControlActionArms | src/kernel/keyboard.c:113-169 | Enter redraws the prompt, 0xE0 goes to `handle_extended_byte`, and backspace deletes the last character. F1..F10 switch sessions when the target is not already active; anything else leaves the console unchanged |
| Decoder.Decode | src/kernel/keyboard.c:102-171 | every session that a scancode selects is below MAX_TTY |
| Decoder.ShiftInvariant | src/kernel/keyboard.c:124-139 | after any shift press or release, `shift` is the union of the two shift keys, and every byte preserves that union |
| Decoder.ShiftReleasesUnmapped | src/kernel/keyboard.c:104-106 | the release codes of shift and caps lock have no table character |
| Decoder.ModsFrame | src/kernel/keyboard.c:113-169 | only shift and caps lock codes change the flags: only caps lock changes `maj`, and only the shift codes change `shift` |
| Decoder.CapsLockSteps | src/kernel/keyboard.c:140-152 | caps lock press sets `maj` exactly when no release is pending; the first release arms the next one, and the armed release clears both flags |
| Decoder.CapsLockSequences | src/kernel/keyboard.c:140-152 | from rest, press-release leaves caps lock on; press-release-release and press-release-press-release both turn it off with nothing pending |
| Decoder.LetterCase | src/kernel/keyboard.c:104-111 | on a letter key the uppercase letter is inserted exactly when one of shift and caps lock is on (not both), otherwise the lowercase one |
| Decoder.NonLetterIgnoresCaps | src/kernel/keyboard.c:106-111 | on any other key with a character, caps lock is ignored and the character follows shift alone |
| Decoder.CharacterBranch | src/kernel/keyboard.c:106-112 | the character branch never inserts NUL, and every control press reaches the switch |
| Decoder.FunctionKeys | src/kernel/keyboard.c:153-166 | F1..F10 select sessions 0..9 in order, and nothing else selects a session |
| Decoder.EnterKeys | src/kernel/keyboard.c:63-82 | Enter and keypad Enter both redraw the prompt, 0xE0 Delete is forward delete, and up and down do nothing |
| Decoder.DecodeAsWritten | src/kernel/keyboard.c:102-171 | as written, the handler asks for a session switch only on caps lock release or F1..F10, and the target is the 8-bit `scan_code - F1_PRESSED` |
| Decoder.SwitchAsWritten | src/kernel/keyboard.c:113-169 | the switch as written, with the caps lock release arm falling into the function-key arm: only those two arms ask for a switch, always with an 8-bit target |
| Decoder.SwitchAgrees | src/kernel/keyboard.c:113-169 | the switch as written updates the flags as `ModifierStep` does, and asks for the same action as `ControlAction` on every code except caps lock release |
| Decoder.AsWrittenAgrees | src/kernel/keyboard.c:102-171 | the handler as written and `Decode` always agree on the flags, and agree on the action for every code except caps lock release |
| Decoder.CapsReleaseFallsThrough | src/kernel/keyboard.c:146-166 | as written, every caps lock release asks to switch to session 127, which does not exist; the corrected switch does nothing |
| Decoder.DispatchedCodesOutsideTable | src/kernel/keyboard.c:104 | the shift and caps lock releases and 0xE0, which the switch handles, all index past the end of the table |
| Console.Console.constructor | src/kernel/kernel.c:33-62 | the new console is the initial state: every session prompted, session 0 active, flags clear, and the hardware cursor just after the prompt |
| Console.Console.FillScreens | src/kernel/kernel.c:44-54 | the display and all ten session grids become blank cells in the default colour |
| Console.Console.PromptAll | src/kernel/kernel.c:58-61 | the loop from session 9 down to 0 reaches the initial state |
| Console.Console.PutEntryAt | src/kernel/kernel.c:68-72 | exactly the cell at the `size_t` index of column `x` in row `y` changes |
| Console.Console.UpdateCursor | src/kernel/utils.c:75-82 | the hardware cursor takes the 16-bit position of column `x` in row `y` |
| Console.Console.MoveCursorLeft | src/kernel/utils.c:84-89 | the state becomes `MoveLeft` of the old one, and the hardware cursor follows only when the column changes |
| Console.Console.MoveCursorRight | src/kernel/utils.c:91-96 | the state becomes `MoveRight` of the old one, and the hardware cursor follows only when the column changes |
| Console.Console.PutChar | src/kernel/kernel.c:74-77 | the cell under the cursor takes `c` in the session colour, then the cursor moves right |
| Console.Console.Write | src/kernel/kernel.c:95-99 | the state becomes `terminal_putchar` of the first `size` characters, applied in order |
| Console.Console.WriteString | src/kernel/kernel.c:101-103 | the state becomes the write of the characters before the first NUL |
| Console.Console.InsertChar | src/kernel/kernel.c:79-93 | the state becomes `Insert` of the old one, whose meaning for the typed text is `Editing.InsertEdits` |
| Console.Console.PlaceChar | src/kernel/kernel.c:80-89 | the cells from the cursor to the written extent move one to the right, and `c` lands under the cursor |
| Console.Console.ShiftRight | src/kernel/kernel.c:82-87 | each cell in (cursor, written] takes its left neighbour's character in the session colour, and nothing else changes |
| Console.Console.DeleteLastChar | src/kernel/keyboard.c:16-30 | the state becomes `DeleteLast` of the old one, whose meaning is `Editing.DeleteLastEdits` |
| Console.Console.CopyLeftOverCursor | src/kernel/keyboard.c:21-27 | the row from the cell before the cursor takes the characters one to its right, and the last cell of the row is blanked |
| Console.Console.DeleteNextChar | src/kernel/keyboard.c:32-45 | the state becomes `DeleteNext` of the old one, whose meaning is `Editing.DeleteNextEdits` |
| Console.Console.CopyLeftAfterCursor | src/kernel/keyboard.c:37-43 | the row from the cursor takes the characters one to its right, and the last cell of the row is blanked |
| Console.Console.Prompt | src/kernel/keyboard.c:47-59 | the state becomes `NewPrompt` of the old one, and the hardware cursor sits just after the prompt |
| Console.Console.WritePrompt | src/kernel/keyboard.c:48-52 | the prompt is painted in light green on the bottom row, and the cursor ends in column 5 of that row |
| Console.Console.ClearAfterPrompt | src/kernel/keyboard.c:56-58 | the rest of the bottom row after the prompt is blanked in light grey |
| Console.Console.SwapTty | src/kernel/keyboard.c:88-100 | the state becomes `Swap` of the old one, and the hardware cursor shows session `n`'s cursor |
| Console.Console.SwapRow | src/kernel/keyboard.c:90-95 | row `y` of the display is saved into the active session's grid and replaced by session `n`'s row (unless `n` is active). Nothing else changes |
| Console.Console.HandleExtendedByte | src/kernel/keyboard.c:61-86 | the state becomes `Perform` of the extended action for the byte. The cursor registers keep showing the active session's cursor |
| Console.Console.IsrKeyboard | src/kernel/keyboard.c:102-171 | the flags become those `Decoder.Decode` gives, the console performs the action it gives, and every cursor stays on the bottom row. The cursor registers keep showing the active session's cursor |
| Console.Console.CharacterKey | src/kernel/keyboard.c:104-111 | a code with a table character inserts the character `Decoder.TypedChar` gives, and the cursor registers follow the cursor |
| Console.Console.ControlKey | src/kernel/keyboard.c:112-170 | the switch updates the flags as `ModifierStep` says and the console as `ControlAction` says. The cursor registers keep showing the active session's cursor |
| Console.Console.FunctionOrModifierKey | src/kernel/keyboard.c:124-166 | F1..F10 switch to their session when it is not active, and the flags follow `ModifierStep`. The cursor registers keep showing the active session's cursor |
| Console.Console.ModifierKey | src/kernel/keyboard.c:124-152 | the flags follow `ModifierStep` |
| Console.Console.PutNbrBase | src/kernel/utils.c:98-111 | the console shows the write of the characters `Utils.PutNbrBaseSpec` describes. The cursor registers keep showing the active session's cursor |
| Console.Console.PutDigits | src/kernel/utils.c:106-110 | the console shows the write of the digits of the non-negative value, most significant first. The cursor registers keep showing the active session's cursor |
| Console.NumberSplits | src/kernel/utils.c:98-111 | writing the number is writing its sign (when negative) and then its digits |

## Left out

- Port I/O is not modelled: `inb`, `outb`, `io_wait`, the PIC remap, the IDT and GDT setup, and the interrupt acknowledge at the end of `isr_keyboard`. `update_cursor` is modelled by the position it sends, held in the `hwCursor` field. The scancode `isr_keyboard` reads, and the byte read after 0xE0, are parameters.
- `kmain` is not modelled: it is the boot sequence, with interrupts masked and then unmasked.
- The command history is not modelled. The up and down handlers are commented out.
- `init_history` and `init_colors` (called at kernel.c:56-57) are not part of this model: their definitions are not in these files. They are modelled as doing nothing. `Terminal.Initial`, which gives every session the default colour, depends on that.
- `terminal_setcolor` (kernel.c:64-66) is not modelled: nothing calls it.
- The kernel.h structures for the IDT and GDT are not modelled. The per-session arrays are `seq` fields of the class and the screens are arrays, so aliasing between the VGA memory and `tty` is not modelled.
- A VGA cell is modelled as a pair of a character and a colour, not as a 16-bit word. `Vga.VgaEntry` proves the packing. The copy loops keep only the character and repaint in the session colour, as the source's call to `terminal_putentryat` does.
- TERMINAL_PROMPT_SIZE and `current_tty` in keyboard.c are not defined in kernel.h or keyboard.h. They are taken to be TERMINAL_PROMPT_LEN (5) and `curr_tty`.
- Terminal.DeleteLast: requires the cursor not to be at the screen's first cell. There, the source's `x - 1` wraps and writes before the buffer. No state after `terminal_initialize` gets there, because every cursor stays on the bottom row.
- Console.Console.DeleteLastChar: has the same requirement as Terminal.DeleteLast, for the same reason.
- Utils.PutNbrBaseSpec: for n = -2^31 the source negates `n` in a 32-bit `long` and overflows. The model prints the digits of 2^31 instead.
- Console.Console.PutNbrBase: inherits the same choice as Utils.PutNbrBaseSpec for n = -2^31.
- Utils.PutNbrBase: requires `2 <= base_len`. The source does not check it: `base_len == 0` divides by zero, and `base_len == 1` recurses without end for any `n >= 1`.
- Utils.DigitChars: has the same `2 <= base_len` requirement as Utils.PutNbrBase, for the same reason.
- A cell's character is a Dafny `char`, not a C `char`. `Console.Console.Write` and `Console.Console.PutNbrBase` therefore also accept characters above 0xFF, which a C `char` cannot hold.
- The left arrow can move the cursor into the prompt, and the model keeps that behaviour. `Editing.CursorLeftLeavesLine` proves that it breaks the editing invariant, and `Editing.PerformEdits` excludes that key.

## Findings

| source | as written | input that shows it | evidently intended | confidence | as-written member | corrected member |
|---|---|---|---|---|---|---|
| src/kernel/keyboard.c:146-166 | the caps lock release arm has no `break`, so it falls into the F1..F10 arm and computes session `0xBA - 0x3B = 127`, which is not `current_tty`, and calls `swap_tty(127)` | scancode 0xBA (caps lock released), in any state | the arm ends with `break` and leaves the console unchanged | high (not executed) | Decoder.CapsReleaseFallsThrough | Decoder.Decode |
| src/kernel/keyboard.c:104 | `qwerty_keyboard_table[scan_code][shift]` runs before any check, and the table has 128 rows, so every release code and 0xE0 reads past its end | scancode 0xAA (left shift released) or 0xE0 | codes of 0x80 and above give no character, so they reach the switch | high (not executed) | Decoder.DispatchedCodesOutsideTable | Keymap.Lookup |
