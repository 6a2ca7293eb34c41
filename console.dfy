/** The console of kernel.c, keyboard.c and utils.c as the source keeps it: the
    text-mode screen and the session grids updated cell by cell, the per-session
    cursor, extent and colour, the active session, and the keyboard flags. Every
    method is proved to do to `Abs()` what the Terminal function of the same
    operation states. */
module Console {
  import opened Vga
  import opened Terminal
  import opened Decoder
  import Keymap
  import Utils

  /** The session grids held in `a` as values: grid `s` is row `s` of `a`. */
  ghost function GridsOf(a: array2<Cell>): (g: seq<seq<Cell>>)
    requires a.Length0 == MaxTty && a.Length1 == ScreenSize
    reads a
    ensures |g| == MaxTty
  {
    seq(MaxTty, s requires 0 <= s < MaxTty reads a =>
      seq(ScreenSize, i requires 0 <= i < ScreenSize reads a => a[s, i]))
  }

  class Console {
    /** `terminal_buffer`: the text-mode screen, cell `y * 80 + x` for column x of row y. */
    var display: array<Cell>
    /** `tty`: the saved grid of every session, one row of `tty` per session. */
    var tty: array2<Cell>
    /** `terminal_row`, `terminal_column`, `terminal_written_column`, `terminal_color`. */
    var row: seq<nat>
    var column: seq<nat>
    var written: seq<nat>
    var color: seq<Attr>
    /** `curr_tty`: the active session. */
    var curr: nat
    /** The keyboard flags of keyboard.c. */
    var lshift: bool
    var rshift: bool
    var shift: bool
    var maj: bool
    var rdyToDisableMaj: bool
    /** The position last sent to the cursor registers by `update_cursor`. */
    var hwCursor: Utils.Word

    ghost predicate Shaped()
      reads this
    {
      display.Length == ScreenSize && tty.Length0 == MaxTty && tty.Length1 == ScreenSize
    }

    /** The console as a Terminal value. */
    ghost function Abs(): Term
      requires Shaped()
      reads this, display, tty
    {
      Term(display[..], GridsOf(tty), row, column, written, color, curr)
    }

    /** The keyboard flags as a Decoder value. */
    function ModsOf(): Mods
      reads this`lshift, this`rshift, this`shift, this`maj, this`rdyToDisableMaj
    {
      Mods(lshift, rshift, shift, maj, rdyToDisableMaj)
    }

    /** The cursor registers show the active session's cursor. */
    ghost predicate CursorShown()
      reads this`curr, this`row, this`column, this`hwCursor
    {
      curr < |row| && curr < |column| && hwCursor == Utils.CursorOffset(column[curr], row[curr])
    }

    /** `terminal_initialize`, with the flags of keyboard.c at their static initial
        values: every session starts at row 0, column 0, extent 0 and the default
        colour, every screen is filled with blanks, and then, from session 9 down to
        0, the active session is prompted and session `tmp` becomes active. */
    constructor ()
      ensures Shaped() && Abs() == Initial() && ModsOf() == InitialMods
      ensures hwCursor == Utils.CursorOffset(PromptLen, Height - 1) && CursorShown()
      ensures fresh(display) && fresh(tty)
    {
      row, column, written := ZeroCounters(), ZeroCounters(), ZeroCounters();
      color := DefaultColors();
      curr := 0;
      display := new Cell[ScreenSize];
      tty := new Cell[MaxTty, ScreenSize];
      lshift, rshift, shift, maj, rdyToDisableMaj := false, false, false, false, false;
      hwCursor := 0;
      new;
      FillScreens();
      InitStages();
      PromptAll();
    }

    /** The closing loop of `terminal_initialize`: from session 9 down to 0, prompt
        the active session, then make session `tmp` active. */
    method PromptAll()
      requires Shaped() && Abs() == InitStage(MaxTty - 1)
      modifies display, tty, this`color, this`column, this`row, this`written, this`curr, this`hwCursor
      ensures Abs() == Initial()
      ensures hwCursor == Utils.CursorOffset(PromptLen, Height - 1)
    {
      var tmp: int := MaxTty - 1;
      while tmp >= 0
        invariant -1 <= tmp < MaxTty
        invariant Abs() == InitStage(tmp)
        invariant tmp < MaxTty - 1 ==> hwCursor == Utils.CursorOffset(column[tmp + 1], row[tmp + 1])
        decreases tmp
      {
        ghost var t0 := Abs();
        Prompt();
        assert Abs() == NewPrompt(t0);
        SwapTty(tmp);
        InitStep(tmp);
        assert Abs() == InitStage(tmp - 1);
        tmp := tmp - 1;
      }
      InitStages();
    }

    /** The fill loops of `terminal_initialize`: every cell of the display and of
        every session grid becomes a blank in the active session's colour. */
    method FillScreens()
      requires Shaped() && curr < |color| && color[curr] == DefaultColor
      modifies display, tty
      ensures display[..] == BlankScreen()
      ensures GridsOf(tty) == BlankGrids()
    {
      var blank := Cell(Empty, color[curr]);
      var y := 0;
      while y < Height
        invariant y <= Height
        invariant forall k :: 0 <= k < y * Width ==> display[k] == blank
        invariant forall s, k :: 0 <= s < MaxTty && 0 <= k < y * Width ==> tty[s, k] == blank
      {
        var x := 0;
        while x < Width
          invariant x <= Width
          invariant forall k :: 0 <= k < y * Width + x ==> display[k] == blank
          invariant forall s, k :: 0 <= s < MaxTty && 0 <= k < y * Width + x ==> tty[s, k] == blank
        {
          var index := y * Width + x;
          display[index] := blank;
          var i := 0;
          while i < MaxTty
            invariant i <= MaxTty
            invariant forall k :: 0 <= k <= index ==> display[k] == blank
            invariant forall s, k :: 0 <= s < MaxTty && 0 <= k < index ==> tty[s, k] == blank
            invariant forall s :: 0 <= s < i ==> tty[s, index] == blank
          {
            tty[i, index] := blank;
            i := i + 1;
          }
          x := x + 1;
        }
        y := y + 1;
      }
      assert display[..] == BlankScreen();
      forall s | 0 <= s < MaxTty
        ensures GridsOf(tty)[s] == BlankScreen()
      {
        assert forall k :: 0 <= k < ScreenSize ==> GridsOf(tty)[s][k] == BlankScreen()[k];
      }
      assert GridsOf(tty) == BlankGrids();
    }

    /** `terminal_putentryat`: exactly the cell of column `x` in row `y` changes. The
        column is a `size_t`, so the flat index wraps modulo 2^32. */
    method PutEntryAt(c: char, cellColor: Attr, x: nat, y: nat)
      requires Shaped() && x < SizeMod && y < Height && SizeIndex(x, y) < ScreenSize
      modifies display
      ensures display[..] == old(display[..])[SizeIndex(x, y) := Cell(c, cellColor)]
      ensures display[SizeIndex(x, y)] == Cell(c, cellColor)
      ensures forall i :: 0 <= i < ScreenSize && i != SizeIndex(x, y) ==> display[i] == old(display[i])
    {
      var index := SizeIndex(x, y);
      display[index] := Cell(c, cellColor);
    }

    /** `update_cursor`: the cursor registers take the position of column `x`, row `y`. */
    method UpdateCursor(x: nat, y: nat)
      modifies this`hwCursor
      ensures hwCursor == Utils.CursorOffset(x, y)
    {
      hwCursor := Utils.CursorOffset(x, y);
    }

    /** `move_cursor_left`. */
    method MoveCursorLeft()
      requires Shaped() && Wf(Abs())
      modifies this`column, this`hwCursor
      ensures Abs() == MoveLeft(old(Abs()))
      ensures hwCursor == if column[curr] == old(column[curr]) then old(hwCursor)
                          else Utils.CursorOffset(column[curr], row[curr])
    {
      if column[curr] > 0 {
        column := column[curr := column[curr] - 1];
        UpdateCursor(column[curr], row[curr]);
      }
    }

    /** `move_cursor_right`. */
    method MoveCursorRight()
      requires Shaped() && Wf(Abs())
      modifies this`column, this`hwCursor
      ensures Abs() == MoveRight(old(Abs()))
      ensures hwCursor == if column[curr] == old(column[curr]) then old(hwCursor)
                          else Utils.CursorOffset(column[curr], row[curr])
    {
      if column[curr] < Width - 1 {
        column := column[curr := column[curr] + 1];
        UpdateCursor(column[curr], row[curr]);
      }
    }

    /** `terminal_putchar`. */
    method PutChar(c: char)
      requires Shaped() && Wf(Abs())
      modifies display, this`column, this`hwCursor
      ensures Abs() == Terminal.PutChar(old(Abs()), c)
      ensures hwCursor == if column[curr] == old(column[curr]) then old(hwCursor)
                          else Utils.CursorOffset(column[curr], row[curr])
    {
      PutEntryAt(c, color[curr], column[curr], row[curr]);
      MoveCursorRight();
    }

    /** `terminal_write`: the first `size` characters of `data`, in order. */
    method Write(data: seq<char>, size: nat)
      requires Shaped() && Wf(Abs()) && size <= |data|
      modifies display, this`column, this`hwCursor
      ensures Abs() == Terminal.Write(old(Abs()), data[..size])
      ensures hwCursor == if column[curr] == old(column[curr]) then old(hwCursor)
                          else Utils.CursorOffset(column[curr], row[curr])
    {
      var i := 0;
      while i < size
        invariant i <= size
        invariant Shaped() && Abs() == Terminal.Write(old(Abs()), data[..i])
        invariant column[curr] >= old(column[curr])
        invariant hwCursor == if column[curr] == old(column[curr]) then old(hwCursor)
                              else Utils.CursorOffset(column[curr], row[curr])
      {
        PutChar(data[i]);
        assert data[..i + 1][..i] == data[..i];
        i := i + 1;
      }
    }

    /** `terminal_writestring`: the characters before the first NUL. */
    method WriteString(data: seq<char>)
      requires Shaped() && Wf(Abs()) && '\0' in data
      modifies display, this`column, this`hwCursor
      ensures Abs() == Terminal.Write(old(Abs()), CString(data))
      ensures hwCursor == if column[curr] == old(column[curr]) then old(hwCursor)
                          else Utils.CursorOffset(column[curr], row[curr])
    {
      var len := Strlen(data);
      StrlenUnique(data, len, |CString(data)|);
      Write(data, len);
    }

    /** `terminal_insert_char`: on a line that is not full, the text from the cursor
        moves one cell right and `c` lands under the cursor; then the written extent
        grows by one and the cursor moves right. */
    method InsertChar(c: char)
      requires Shaped() && Wf(Abs())
      modifies display, this`written, this`column, this`hwCursor
      ensures Abs() == Insert(old(Abs()), c)
      ensures hwCursor == if column[curr] == old(column[curr]) then old(hwCursor)
                          else Utils.CursorOffset(column[curr], row[curr])
    {
      if written[curr] < Width {
        ghost var t0 := Abs();
        PlaceChar(c);
        written := written[curr := written[curr] + 1];
        ghost var t1 := t0.(display := InsertAt(t0.display, Base(t0), Col(t0), Written(t0), c, Color(t0)),
                            written := t0.written[t0.curr := Written(t0) + 1]);
        assert Abs() == t1;
        MoveCursorRight();
        assert Abs() == MoveRight(t1);
      }
    }

    /** The display part of `terminal_insert_char`: when the cursor is before the
        written extent, the shifting loop; then `c` goes under the cursor. */
    method PlaceChar(c: char)
      requires Shaped() && Wf(Abs()) && written[curr] < Width
      modifies display
      ensures display[..] == InsertAt(old(display[..]), row[curr] * Width, column[curr], written[curr], c, color[curr])
    {
      ghost var g0 := display[..];
      ghost var b := row[curr] * Width;
      ghost var w := written[curr];
      var clr := color[curr];
      if column[curr] < written[curr] {
        ShiftRight();
      }
      assert SizeIndex(column[curr], row[curr]) == b + column[curr];
      PutEntryAt(c, clr, column[curr], row[curr]);
      ghost var g1 := InsertAt(g0, b, column[curr], w, c, clr);
      forall i | 0 <= i < ScreenSize
        ensures display[i] == g1[i]
      {
        if i == b + column[curr] {
          assert display[i] == Cell(c, clr);
        } else if b + column[curr] < i <= b + w {
          assert display[i] == Cell(g0[i - 1].ch, clr);
        } else {
          assert display[i] == g0[i];
        }
      }
      assert display[..] == g1;
    }

    /** The loop of `terminal_insert_char`: from the written extent down to just
        after the cursor, each cell takes the character of the cell to its left, in
        the session colour. */
    method ShiftRight()
      requires Shaped() && Wf(Abs()) && column[curr] < written[curr] < Width
      modifies display
      ensures forall i :: 0 <= i < ScreenSize && !(row[curr] * Width + column[curr] < i <= row[curr] * Width + written[curr]) ==>
        display[i] == old(display[i])
      ensures forall i :: row[curr] * Width + column[curr] < i <= row[curr] * Width + written[curr] ==>
        display[i] == Cell(old(display[i - 1]).ch, color[curr])
    {
      ghost var g0 := display[..];
      ghost var b := row[curr] * Width;
      ghost var w := written[curr];
      var writtenIndex := row[curr] * Width + written[curr];
      var x := written[curr];
      while x > column[curr]
        invariant column[curr] <= x <= w
        invariant writtenIndex == b + x
        invariant forall i :: 0 <= i < ScreenSize && !(b + x < i <= b + w) ==> display[i] == g0[i]
        invariant forall i :: b + x < i <= b + w ==> display[i] == Cell(g0[i - 1].ch, color[curr])
      {
        PutEntryAt(display[writtenIndex - 1].ch, color[curr], x, row[curr]);
        x := x - 1;
        writtenIndex := writtenIndex - 1;
      }
    }

    /** `delete_last_char` (backspace): unless the cursor sits just after the prompt,
        the row from the cursor shifts one cell left, the written extent drops by one
        and the cursor moves left. */
    method DeleteLastChar()
      requires Shaped() && Wf(Abs()) && Base(Abs()) + Col(Abs()) >= 1
      modifies display, this`written, this`column, this`hwCursor
      ensures Abs() == DeleteLast(old(Abs()))
      ensures hwCursor == if column[curr] == old(column[curr]) then old(hwCursor)
                          else Utils.CursorOffset(column[curr], row[curr])
    {
      if column[curr] == PromptLen {
        return;
      }
      ghost var t0 := Abs();
      CopyLeftOverCursor();
      written := written[curr := Decrement(written[curr])];
      ghost var t1 := t0.(display := ShiftLeft(t0.display, Base(t0), Col(t0) - 1, Color(t0)),
                          written := t0.written[t0.curr := Decrement(Written(t0))]);
      assert Abs() == t1;
      MoveCursorLeft();
      assert Abs() == MoveLeft(t1);
    }

    /** The loop and the closing blank of `delete_last_char`: each cell from the
        cursor to the row's end is copied one cell left, then the row's last cell is
        cleared, all in the session colour. The columns are `size_t`: at column 0 the
        first target column is 2^32 - 1, one cell before the row. */
    method CopyLeftOverCursor()
      requires Shaped() && Wf(Abs()) && Base(Abs()) + Col(Abs()) >= 1
      modifies display
      ensures display[..] == ShiftLeft(old(display[..]), row[curr] * Width, column[curr] as int - 1, color[curr])
    {
      ghost var g0 := display[..];
      ghost var b := row[curr] * Width;
      ghost var lo: nat := b + column[curr] - 1;
      var clr := color[curr];
      var index := row[curr] * Width + column[curr];
      var x := column[curr];
      CopiedLeftStart(g0, lo, clr);
      while x < Width
        invariant column[curr] <= x <= Width
        invariant index == b + x
        invariant display[..] == CopiedLeft(g0, lo, index - 1, clr)
      {
        WrapLeft(row[curr], x);
        CopiedLeftStep(g0, lo, index - 1, clr);
        PutEntryAt(display[index].ch, clr, Decrement(x), row[curr]);
        x := x + 1;
        index := index + 1;
      }
      WrapLeft(row[curr], x);
      CopiedLeftCompleted(g0, b, column[curr] as int - 1, clr);
      PutEntryAt(Empty, clr, Decrement(x), row[curr]);
    }

    /** `delete_next_char` (forward delete): when the cursor is before the written
        extent, the row after the cursor shifts one cell left over the cursor's cell
        and the written extent drops by one; the cursor stays. */
    method DeleteNextChar()
      requires Shaped() && Wf(Abs())
      modifies display, this`written
      ensures Abs() == DeleteNext(old(Abs()))
    {
      if column[curr] >= written[curr] {
        return;
      }
      ghost var t0 := Abs();
      CopyLeftAfterCursor();
      written := written[curr := written[curr] - 1];
      assert Abs() == t0.(display := ShiftLeft(t0.display, Base(t0), Col(t0), Color(t0)),
                          written := t0.written[t0.curr := Written(t0) - 1]);
    }

    /** The loop and the closing blank of `delete_next_char`: each cell after the
        cursor is copied one cell left, then the row's last cell is cleared, all in
        the session colour. */
    method CopyLeftAfterCursor()
      requires Shaped() && Wf(Abs())
      modifies display
      ensures display[..] == ShiftLeft(old(display[..]), row[curr] * Width, column[curr], color[curr])
    {
      ghost var g0 := display[..];
      ghost var b := row[curr] * Width;
      ghost var lo: nat := b + column[curr];
      var clr := color[curr];
      var index := row[curr] * Width + column[curr];
      var x := column[curr];
      CopiedLeftStart(g0, lo, clr);
      while x < Width - 1
        invariant column[curr] <= x <= Width - 1
        invariant index == b + x
        invariant display[..] == CopiedLeft(g0, lo, index, clr)
      {
        CopiedLeftStep(g0, lo, index, clr);
        PutEntryAt(display[index + 1].ch, clr, x, row[curr]);
        x := x + 1;
        index := index + 1;
      }
      CopiedLeftCompleted(g0, b, column[curr], clr);
      PutEntryAt(Empty, clr, x, row[curr]);
    }

    /** `terminal_prompt`: writes the prompt in light green from column 0 of the
        bottom row, records the written extent, switches the session colour to light
        grey and blanks the rest of the row. */
    method Prompt()
      requires Shaped() && Wf(Abs())
      modifies display, this`color, this`column, this`row, this`written, this`hwCursor
      ensures Abs() == NewPrompt(old(Abs()))
      ensures hwCursor == Utils.CursorOffset(PromptLen, Height - 1) && CursorShown()
    {
      ghost var g0 := display[..];
      WritePrompt();
      written := written[curr := column[curr]];
      color := color[curr := VgaEntryColor(LightGrey, Black)];
      ClearAfterPrompt(g0);
      assert written == old(written)[curr := PromptLen];
      assert color == old(color)[curr := DefaultColor];
    }

    /** The opening of `terminal_prompt`: the session colour turns light green, the
        cursor goes to column 0 of the bottom row and the prompt string is written
        there, leaving the cursor just after it. */
    method WritePrompt()
      requires Shaped() && Wf(Abs())
      modifies display, this`color, this`column, this`row, this`hwCursor
      ensures display[..] == Paint(old(display[..]), PromptBase, Vga.Prompt, PromptColor)
      ensures row == old(row)[curr := Height - 1]
      ensures column == old(column)[curr := PromptLen]
      ensures color == old(color)[curr := PromptColor]
      ensures hwCursor == Utils.CursorOffset(PromptLen, Height - 1)
    {
      color := color[curr := VgaEntryColor(LightGreen, Black)];
      column := column[curr := 0];
      row := row[curr := Height - 1];
      WritePromptString(Abs());
      WriteString(Vga.Prompt + "\0");
    }

    /** The closing loop of `terminal_prompt`: blanks the row after the prompt, in
        the session colour. */
    method ClearAfterPrompt(ghost g0: seq<Cell>)
      requires Shaped() && |g0| == ScreenSize && curr < |row| && curr < |column| && curr < |color|
      requires row[curr] == Height - 1 && column[curr] == PromptLen && color[curr] == DefaultColor
      requires display[..] == Paint(g0, PromptBase, Vga.Prompt, PromptColor)
      modifies display
      ensures display[..] == WithPromptRow(g0)
    {
      ghost var painted := display[..];
      var i := 0;
      while i < Width - PromptLen
        invariant i <= Width - PromptLen
        invariant forall k :: 0 <= k < ScreenSize && !(PromptBase + PromptLen <= k < PromptBase + PromptLen + i) ==>
          display[k] == painted[k]
        invariant forall k :: PromptBase + PromptLen <= k < PromptBase + PromptLen + i ==>
          display[k] == Cell(Empty, DefaultColor)
      {
        PutEntryAt(Empty, color[curr], column[curr] + i, row[curr]);
        i := i + 1;
      }
      ghost var g1 := WithPromptRow(g0);
      forall k | 0 <= k < ScreenSize
        ensures display[k] == g1[k]
      {
        if k < PromptBase {
          assert display[k] == painted[k] == g0[k] == g1[k];
        } else if k < PromptBase + PromptLen {
          assert display[k] == painted[k] == Cell(Vga.Prompt[k - PromptBase], PromptColor);
          assert g1[k] == PromptCell(k - PromptBase);
        } else {
          assert display[k] == Cell(Empty, DefaultColor);
          assert g1[k] == PromptCell(k - PromptBase) == Cell(Empty, DefaultColor);
        }
      }
      assert display[..] == g1;
    }

    /** `swap_tty`: cell by cell, the display is saved into the active session's grid
        and replaced by session `n`'s grid; then `n` becomes active and the cursor
        registers take its cursor. */
    method SwapTty(n: nat)
      requires Shaped() && Wf(Abs()) && n < MaxTty
      modifies display, tty, this`curr, this`hwCursor
      ensures Abs() == Swap(old(Abs()), n)
      ensures hwCursor == Utils.CursorOffset(column[n], row[n])
    {
      ghost var d0 := display[..];
      ghost var t0 := GridsOf(tty);
      ghost var saved := t0[curr := d0];
      var y := 0;
      while y < Height
        modifies display, tty
        invariant y <= Height
        invariant forall k :: 0 <= k < y * Width ==> tty[curr, k] == d0[k] && display[k] == saved[n][k]
        invariant forall k :: y * Width <= k < ScreenSize ==> tty[curr, k] == t0[curr][k] && display[k] == d0[k]
        invariant forall s, k :: 0 <= s < MaxTty && s != curr && 0 <= k < ScreenSize ==> tty[s, k] == t0[s][k]
      {
        SwapRow(n, y);
        y := y + 1;
      }
      assert display[..] == saved[n];
      forall s | 0 <= s < MaxTty
        ensures GridsOf(tty)[s] == saved[s]
      {
        assert forall k :: 0 <= k < ScreenSize ==> GridsOf(tty)[s][k] == saved[s][k];
      }
      assert GridsOf(tty) == saved;
      curr := n;
      UpdateCursor(column[curr], row[curr]);
    }

    /** The inner loop of `swap_tty` for row `y`: each cell of the row is saved into
        the active session's grid, then takes the cell of session `n`'s grid (which is
        the cell just saved when `n` is the active session). */
    method SwapRow(n: nat, y: nat)
      requires Shaped() && curr < MaxTty && n < MaxTty && y < Height
      modifies display, tty
      ensures forall k :: y * Width <= k < y * Width + Width ==>
        tty[curr, k] == old(display[k]) && display[k] == (if n == curr then old(display[k]) else old(tty[n, k]))
      ensures forall k :: 0 <= k < ScreenSize && !(y * Width <= k < y * Width + Width) ==>
        tty[curr, k] == old(tty[curr, k]) && display[k] == old(display[k])
      ensures forall s, k :: 0 <= s < MaxTty && s != curr && 0 <= k < ScreenSize ==> tty[s, k] == old(tty[s, k])
    {
      var x := 0;
      while x < Width
        invariant x <= Width
        invariant forall k :: y * Width <= k < y * Width + x ==>
          tty[curr, k] == old(display[k]) && display[k] == (if n == curr then old(display[k]) else old(tty[n, k]))
        invariant forall k :: 0 <= k < ScreenSize && !(y * Width <= k < y * Width + x) ==>
          tty[curr, k] == old(tty[curr, k]) && display[k] == old(display[k])
        invariant forall s, k :: 0 <= s < MaxTty && s != curr && 0 <= k < ScreenSize ==> tty[s, k] == old(tty[s, k])
      {
        var index := y * Width + x;
        tty[curr, index] := display[index];
        display[index] := tty[n, index];
        x := x + 1;
      }
    }

    /** `handle_extended_byte`: the byte after an 0xE0 marker. */
    method HandleExtendedByte(code: Byte)
      requires Shaped() && Valid(Abs()) && CursorShown()
      modifies display, this`color, this`column, this`row, this`written, this`hwCursor
      ensures Abs() == Perform(old(Abs()), ExtendedAction(code))
      ensures CursorShown()
    {
      if code == Keymap.ExtendedEnterPress {
        Prompt();
      } else if code == Keymap.DeletePress {
        DeleteNextChar();
      } else if code == Keymap.CursorRightPress {
        if written[curr] > column[curr] {
          MoveCursorRight();
        }
      } else if code == Keymap.CursorLeftPress {
        MoveCursorLeft();
      }
    }

    /** `isr_keyboard` for the scancode `code` read from the keyboard port, with `next`
        the byte read after an 0xE0 marker: the flags and the console change as the
        decoder says. */
    method IsrKeyboard(code: Byte, next: Byte)
      requires Shaped() && Valid(Abs()) && CursorShown()
      modifies this, display, tty
      ensures Shaped() && display == old(display) && tty == old(tty)
      ensures CursorShown()
      ensures ModsOf() == Decode(old(ModsOf()), code, next).0
      ensures Abs() == Perform(old(Abs()), Decode(old(ModsOf()), code, next).1)
      ensures Valid(Abs())
    {
      ghost var t0, m0 := Abs(), ModsOf();
      PerformKeepsValid(t0, Decode(m0, code, next).1);
      if Keymap.Lookup(code, shift) != '\0' {
        assert Decode(m0, code, next) == (m0, Terminal.InsertChar(TypedChar(m0, code)));
        CharacterKey(code);
      } else {
        assert Decode(m0, code, next) == (ModifierStep(m0, code), ControlAction(code, next));
        ControlKey(code, next);
      }
    }

    /** The first branch of `isr_keyboard`: a code with a table character inserts
        that character, or its other-case form when caps lock is on and it is a
        letter. */
    method CharacterKey(code: Byte)
      requires Shaped() && Valid(Abs()) && CursorShown()
      requires Keymap.Lookup(code, shift) != '\0'
      modifies display, this`written, this`column, this`hwCursor
      ensures Abs() == Perform(old(Abs()), Terminal.InsertChar(TypedChar(ModsOf(), code)))
      ensures CursorShown()
    {
      var c := Keymap.Lookup(code, shift);
      if maj && Keymap.IsAlpha(c) {
        c := Keymap.Lookup(code, !shift);
      }
      InsertChar(c);
    }

    /** The switch of `isr_keyboard` on a code with no table character: Enter, the
        extended marker and backspace act on the console; the other arms follow in
        FunctionOrModifierKey. */
    method ControlKey(code: Byte, next: Byte)
      requires Shaped() && Valid(Abs()) && CursorShown()
      modifies display, tty, this`curr, this`color, this`column, this`row, this`written, this`hwCursor
      modifies this`lshift, this`rshift, this`shift, this`maj, this`rdyToDisableMaj
      ensures ModsOf() == ModifierStep(old(ModsOf()), code)
      ensures Abs() == Perform(old(Abs()), ControlAction(code, next))
      ensures CursorShown()
    {
      ControlActionArms(Abs(), code, next);
      if code == Keymap.EnterPress {
        Prompt();
      } else if code == Keymap.ExtendedByte {
        HandleExtendedByte(next);
      } else if code == Keymap.BackspacePress {
        DeleteLastChar();
      } else {
        FunctionOrModifierKey(code);
      }
    }

    /** The remaining arms of that switch: a function key F1..F10 makes its session
        active unless it already is; the shift and caps lock codes update the flags;
        any other code does nothing. */
    method FunctionOrModifierKey(code: Byte)
      requires Shaped() && Valid(Abs()) && CursorShown()
      requires code != Keymap.EnterPress && code != Keymap.ExtendedByte && code != Keymap.BackspacePress
      modifies display, tty, this`curr, this`hwCursor
      modifies this`lshift, this`rshift, this`shift, this`maj, this`rdyToDisableMaj
      ensures ModsOf() == ModifierStep(old(ModsOf()), code)
      ensures Abs() == if Keymap.F1Pressed <= code <= Keymap.F10Pressed && code - Keymap.F1Pressed != old(curr)
                       then Swap(old(Abs()), code - Keymap.F1Pressed) else old(Abs())
      ensures CursorShown()
    {
      if Keymap.F1Pressed <= code <= Keymap.F10Pressed {
        var newTty := code - Keymap.F1Pressed;
        if curr != newTty {
          SwapTty(newTty);
        }
      } else {
        ModifierKey(code);
      }
    }

    /** The shift and caps lock arms of the switch in `isr_keyboard`; any other code
        leaves the flags alone. */
    method ModifierKey(code: Byte)
      modifies this`lshift, this`rshift, this`shift, this`maj, this`rdyToDisableMaj
      ensures ModsOf() == ModifierStep(old(ModsOf()), code)
    {
      if code == Keymap.LShiftPress {
        lshift := true;
        shift := lshift || rshift;
      } else if code == Keymap.RShiftPress {
        rshift := true;
        shift := lshift || rshift;
      } else if code == Keymap.LShiftRelease {
        lshift := false;
        shift := lshift || rshift;
      } else if code == Keymap.RShiftRelease {
        rshift := false;
        shift := lshift || rshift;
      } else if code == Keymap.CapsLockPress {
        if !rdyToDisableMaj {
          maj := true;
          rdyToDisableMaj := false;
        }
      } else if code == Keymap.CapsLockRelease {
        if !rdyToDisableMaj {
          rdyToDisableMaj := true;
        } else {
          maj := false;
          rdyToDisableMaj := false;
        }
      }
    }

    /** `terminal_putnbr_base`: a minus sign for a negative `n`, then the digits of
        its magnitude, each looked up in `base`. */
    method PutNbrBase(n: int, base: seq<char>, baseLen: nat)
      requires Shaped() && Wf(Abs()) && CursorShown() && Utils.IsInt32(n) && 2 <= baseLen <= |base|
      modifies display, this`column, this`hwCursor
      ensures Abs() == Terminal.Write(old(Abs()), Utils.PutNbrBase(n, base, baseLen))
      ensures CursorShown()
    {
      ghost var t0 := Abs();
      var nb := n;
      if nb < 0 {
        PutChar('-');
        nb := -nb;
      }
      assert nb == Utils.Abs(n);
      assert Abs() == if n < 0 then Terminal.PutChar(t0, '-') else t0;
      NumberSplits(t0, n, base, baseLen);
      PutDigits(nb, base, baseLen);
    }

    /** The recursion of `terminal_putnbr_base` on a non-negative value: the digits of
        the quotient first, then the digit of the remainder. */
    method PutDigits(nb: nat, base: seq<char>, baseLen: nat)
      requires Shaped() && Wf(Abs()) && CursorShown() && 2 <= baseLen <= |base|
      modifies display, this`column, this`hwCursor
      ensures Abs() == Terminal.Write(old(Abs()), Utils.DigitChars(nb, base, baseLen))
      ensures CursorShown()
      decreases nb
    {
      ghost var t0 := Abs();
      Utils.QuotientRemainder(nb, baseLen);
      ghost var prefix: seq<char> := [];
      if nb >= baseLen {
        PutDigits(nb / baseLen, base, baseLen);
        prefix := Utils.DigitChars(nb / baseLen, base, baseLen);
      }
      var digit := base[nb % baseLen];
      ghost var digits := Utils.DigitChars(nb, base, baseLen);
      assert digits == prefix + [digit];
      ghost var t1 := Abs();
      assert t1 == Terminal.Write(t0, prefix);
      WriteSnoc(t0, prefix, digit);
      PutChar(digit);
      assert Abs() == Terminal.PutChar(t1, digit) == Terminal.Write(t0, prefix + [digit]);
    }
  }

  /** The output of `terminal_putnbr_base` is written as its sign, then its digits. */
  lemma NumberSplits(t: Term, n: int, base: seq<char>, baseLen: nat)
    requires Wf(t) && Utils.IsInt32(n) && 2 <= baseLen <= |base|
    ensures Terminal.Write(t, Utils.PutNbrBase(n, base, baseLen))
         == Terminal.Write(if n < 0 then Terminal.PutChar(t, '-') else t, Utils.DigitChars(Utils.Abs(n), base, baseLen))
  {
    WriteSnoc(t, [], '-');
    assert [] + ['-'] == ['-'];
    var sign: seq<char> := if n < 0 then ['-'] else [];
    WriteAppend(t, sign, Utils.DigitChars(Utils.Abs(n), base, baseLen));
  }

  /** The flat index of column `x - 1` of the row starting at `b`, with `x - 1`
      computed on a `size_t`. */
  lemma WrapLeft(y: nat, x: nat)
    requires x <= Width && y < Height && y * Width + x >= 1
    ensures SizeIndex(Decrement(x), y) == y * Width + x - 1
  {
  }
}
