/** The console state of kernel.c as one value, and what each console operation of
    kernel.c, keyboard.c and utils.c does to it. The class in console.dfy performs
    these operations in place; this module states their meaning and proves the
    invariants and round trips they keep. */
module Terminal {
  import opened Vga

  /** `size_t` on the 32-bit target: the per-session counters wrap modulo 2^32. */
  const SizeMod: nat := 0x1_0000_0000
  /** Flat index of the first cell of the bottom row, where every prompt is drawn. */
  const PromptBase: nat := (Height - 1) * Width

  /** The display grid, the backing grid of every session (`tty`), the per-session
      cursor row and column, written extent and colour, and the active session. */
  datatype Term = Term(
    display: seq<Cell>,
    tty: seq<seq<Cell>>,
    row: seq<nat>,
    column: seq<nat>,
    written: seq<nat>,
    color: seq<Attr>,
    curr: nat)

  /** Shapes and the ranges of the source's integer types. */
  predicate Wf(t: Term)
  {
    |t.display| == ScreenSize && |t.tty| == MaxTty
    && (forall s :: 0 <= s < MaxTty ==> |t.tty[s]| == ScreenSize)
    && |t.row| == MaxTty && |t.column| == MaxTty && |t.written| == MaxTty && |t.color| == MaxTty
    && t.curr < MaxTty
    && (forall s :: 0 <= s < MaxTty ==> t.row[s] < Height)
    && (forall s :: 0 <= s < MaxTty ==> t.column[s] < Width)
    && (forall s :: 0 <= s < MaxTty ==> t.written[s] < SizeMod)
  }

  /** Every state after `terminal_initialize`: each session edits the bottom row. */
  predicate Valid(t: Term)
  {
    Wf(t) && forall s :: 0 <= s < MaxTty ==> t.row[s] == Height - 1
  }

  function Col(t: Term): nat requires Wf(t) { t.column[t.curr] }
  function Written(t: Term): nat requires Wf(t) { t.written[t.curr] }
  function Color(t: Term): Attr requires Wf(t) { t.color[t.curr] }
  /** Flat index of the first cell of the active session's cursor row. */
  function Base(t: Term): nat requires Wf(t) { t.row[t.curr] * Width }

  /** The grid session `s` shows: the display for the active one, its backing grid otherwise. */
  function Grid(t: Term, s: nat): seq<Cell>
    requires Wf(t) && s < MaxTty
  {
    if s == t.curr then t.display else t.tty[s]
  }

  // ---------------------------------------------------------------- grid edits

  /** The left shift shared by backspace and forward delete: the cells from flat index
      `base + from` to the row's next-to-last cell take the characters one cell to their
      right, repainted in `color`, and the row's last cell is cleared. */
  function ShiftLeft(g: seq<Cell>, base: nat, from: int, color: Attr): (r: seq<Cell>)
    requires |g| == ScreenSize && base + Width <= ScreenSize
    requires 0 <= base + from && from < Width
    ensures |r| == ScreenSize
  {
    seq(ScreenSize, i requires 0 <= i < ScreenSize =>
      if base + from <= i < base + Width - 1 then Cell(g[i + 1].ch, color)
      else if i == base + Width - 1 then Cell(Empty, color)
      else g[i])
  }

  /** The grid while a left-copy loop runs: the cells from flat index `lo` up to
      `hi` (excluded) have taken the characters one cell to their right, in `color`. */
  function CopiedLeft(g: seq<Cell>, lo: nat, hi: nat, color: Attr): (r: seq<Cell>)
    requires |g| == ScreenSize && lo <= hi < ScreenSize
    ensures |r| == ScreenSize
  {
    seq(ScreenSize, i requires 0 <= i < ScreenSize =>
      if lo <= i < hi then Cell(g[i + 1].ch, color) else g[i])
  }

  /** Before the loop nothing is copied. */
  lemma CopiedLeftStart(g: seq<Cell>, lo: nat, color: Attr)
    requires |g| == ScreenSize && lo < ScreenSize
    ensures CopiedLeft(g, lo, lo, color) == g
  {
    assert CopiedLeft(g, lo, lo, color) == g;
  }

  /** One more round copies the cell at `hi`, whose right neighbour is still as it was. */
  lemma CopiedLeftStep(g: seq<Cell>, lo: nat, hi: nat, color: Attr)
    requires |g| == ScreenSize && lo <= hi && hi + 1 < ScreenSize
    ensures CopiedLeft(g, lo, hi, color)[hi + 1] == g[hi + 1]
    ensures CopiedLeft(g, lo, hi, color)[hi := Cell(g[hi + 1].ch, color)] == CopiedLeft(g, lo, hi + 1, color)
  {
    assert CopiedLeft(g, lo, hi, color)[hi := Cell(g[hi + 1].ch, color)] == CopiedLeft(g, lo, hi + 1, color);
  }

  /** Copying up to the row's next-to-last cell and then clearing the last cell is
      the shift of ShiftLeft. */
  lemma CopiedLeftCompleted(g: seq<Cell>, base: nat, from: int, color: Attr)
    requires |g| == ScreenSize && base + Width <= ScreenSize
    requires 0 <= base + from && from < Width
    ensures CopiedLeft(g, base + from, base + Width - 1, color)[base + Width - 1 := Cell(Empty, color)]
         == ShiftLeft(g, base, from, color)
  {
    assert CopiedLeft(g, base + from, base + Width - 1, color)[base + Width - 1 := Cell(Empty, color)]
        == ShiftLeft(g, base, from, color);
  }

  /** The insertion of `terminal_insert_char`: cells `(col, w]` of the row take the
      characters one cell to their left, repainted in `color`, and `c` lands at `col`. */
  function InsertAt(g: seq<Cell>, base: nat, col: nat, w: nat, c: char, color: Attr): (r: seq<Cell>)
    requires |g| == ScreenSize && base + Width <= ScreenSize
    requires col < Width && w < Width
    ensures |r| == ScreenSize
  {
    seq(ScreenSize, i requires 0 <= i < ScreenSize =>
      if i == base + col then Cell(c, color)
      else if base + col < i <= base + w then Cell(g[i - 1].ch, color)
      else g[i])
  }

  /** Column `x` of a freshly drawn prompt row. */
  function PromptCell(x: nat): Cell
    requires x < Width
  {
    if x < PromptLen then Cell(Prompt[x], PromptColor) else Cell(Empty, DefaultColor)
  }

  /** `g` with its bottom row replaced by a fresh prompt. */
  function WithPromptRow(g: seq<Cell>): (r: seq<Cell>)
    requires |g| == ScreenSize
    ensures |r| == ScreenSize
  {
    seq(ScreenSize, i requires 0 <= i < ScreenSize =>
      if i < PromptBase then g[i] else PromptCell(i - PromptBase))
  }

  // ----------------------------------------------------------- console operations

  /** `move_cursor_left`: one column left, stopping at column 0 (not at the prompt). */
  function MoveLeft(t: Term): (r: Term)
    requires Wf(t)
    ensures Wf(r)
    ensures r.(column := t.column) == t
    ensures r.column == t.column[t.curr := Col(r)]
    ensures Col(r) <= Col(t) <= Col(r) + 1 && (Col(r) == Col(t) <==> Col(t) == 0)
  {
    if Col(t) > 0 then t.(column := t.column[t.curr := Col(t) - 1]) else t
  }

  /** `move_cursor_right`: one column right, stopping at the last column. */
  function MoveRight(t: Term): (r: Term)
    requires Wf(t)
    ensures Wf(r)
    ensures r.(column := t.column) == t
    ensures r.column == t.column[t.curr := Col(r)]
    ensures Col(t) <= Col(r) <= Col(t) + 1 && (Col(r) == Col(t) <==> Col(t) == Width - 1)
  {
    if Col(t) < Width - 1 then t.(column := t.column[t.curr := Col(t) + 1]) else t
  }

  /** `terminal_putchar`: the cell under the cursor takes `c` in the session colour,
      then the cursor moves right. */
  function PutChar(t: Term, c: char): (r: Term)
    requires Wf(t)
    ensures Wf(r)
  {
    MoveRight(t.(display := t.display[Base(t) + Col(t) := Cell(c, Color(t))]))
  }

  /** `terminal_write`: `terminal_putchar` of every character in order. */
  function Write(t: Term, s: seq<char>): (r: Term)
    requires Wf(t)
    ensures Wf(r)
    decreases |s|
  {
    if s == [] then t else PutChar(Write(t, s[..|s| - 1]), s[|s| - 1])
  }

  /** Writing changes only the display and the active session's column, which
      advances by the length of the string and stops at the last column. */
  lemma {:induction false} WriteCursor(t: Term, s: seq<char>)
    requires Wf(t)
    ensures Write(t, s).(display := t.display, column := t.column) == t
    ensures Write(t, s).column == t.column[t.curr := Col(Write(t, s))]
    ensures Col(Write(t, s)) == if Col(t) + |s| < Width then Col(t) + |s| else Width - 1
    decreases |s|
  {
    if s != [] {
      WriteCursor(t, s[..|s| - 1]);
    }
  }

  /** `terminal_putchar` changes exactly the cell under the cursor, which takes `c`
      in the session colour, and otherwise only moves the cursor right. */
  lemma PutCharCells(t: Term, c: char)
    requires Wf(t)
    ensures PutChar(t, c).display[Base(t) + Col(t)] == Cell(c, Color(t))
    ensures forall i :: 0 <= i < ScreenSize && i != Base(t) + Col(t) ==> PutChar(t, c).display[i] == t.display[i]
    ensures PutChar(t, c).(display := t.display) == MoveRight(t)
  {
  }

  /** `terminal_insert_char`: rejected when the line is full; otherwise the text from
      the cursor shifts one cell right, `c` lands under the cursor, the written extent
      grows by one and the cursor moves right. */
  function Insert(t: Term, c: char): (r: Term)
    requires Wf(t)
    ensures Wf(r)
    ensures Written(t) >= Width ==> r == t
    ensures Written(t) < Width ==>
      Written(r) == Written(t) + 1 && r.display[Base(t) + Col(t)] == Cell(c, Color(t))
      && Col(r) == (if Col(t) < Width - 1 then Col(t) + 1 else Col(t))
  {
    if Written(t) < Width then
      MoveRight(t.(display := InsertAt(t.display, Base(t), Col(t), Written(t), c, Color(t)),
                   written := t.written[t.curr := Written(t) + 1]))
    else t
  }

  /** The flat index `y * VGA_WIDTH + x` computed on a `size_t`, for a row on the
      screen: the sum wraps at most once. */
  function SizeIndex(x: nat, y: nat): nat
    requires x < SizeMod && y < Height
  {
    if y * Width + x < SizeMod then y * Width + x else y * Width + x - SizeMod
  }

  /** The single subtraction is the reduction modulo 2^32. */
  lemma SizeIndexWraps(x: nat, y: nat)
    requires x < SizeMod && y < Height
    ensures SizeIndex(x, y) == (y * Width + x) % SizeMod
  {
  }

  /** `--` on a `size_t`. */
  function Decrement(w: nat): (r: nat)
    requires w < SizeMod
    ensures r < SizeMod
    ensures (r + 1) % SizeMod == w
  {
    if w == 0 then SizeMod - 1 else w - 1
  }

  /** `delete_last_char` (backspace): nothing when the cursor sits just after the
      prompt; otherwise the row from the cursor shifts one cell left over the cell
      before the cursor, the written extent drops by one and the cursor moves left.
      The source only tests `column == 5`: at a cursor moved left of the prompt the
      shift starts at flat index `Base - 1` when the cursor is in column 0. */
  function DeleteLast(t: Term): (r: Term)
    requires Wf(t) && Base(t) + Col(t) >= 1
    ensures Wf(r)
    ensures Col(t) == PromptLen ==> r == t
    ensures Col(t) != PromptLen ==>
      (Written(r) + 1) % SizeMod == Written(t)
      && Col(r) == (if Col(t) > 0 then Col(t) - 1 else 0)
      && r.display[Base(t) + Width - 1] == Cell(Empty, Color(t))
    ensures Col(t) == 0 ==> r.display[Base(t) - 1] == Cell(t.display[Base(t)].ch, Color(t))
  {
    if Col(t) == PromptLen then t
    else
      MoveLeft(t.(display := ShiftLeft(t.display, Base(t), Col(t) - 1, Color(t)),
                  written := t.written[t.curr := Decrement(Written(t))]))
  }

  /** `delete_next_char` (forward delete): nothing when the cursor is at or past the
      written extent; otherwise the row after the cursor shifts one cell left over
      the cursor's cell and the written extent drops by one. */
  function DeleteNext(t: Term): (r: Term)
    requires Wf(t)
    ensures Wf(r)
    ensures Col(t) >= Written(t) ==> r == t
    ensures Col(t) < Written(t) ==>
      Written(r) == Written(t) - 1 && Col(r) == Col(t)
      && r.display[Base(t) + Width - 1] == Cell(Empty, Color(t))
  {
    if Col(t) >= Written(t) then t
    else
      t.(display := ShiftLeft(t.display, Base(t), Col(t), Color(t)),
         written := t.written[t.curr := Written(t) - 1])
  }

  /** `terminal_prompt`: the bottom row shows a fresh prompt, the cursor and the
      written extent sit just after it, and the session colour is light grey. */
  function NewPrompt(t: Term): (r: Term)
    requires Wf(t)
    ensures Wf(r)
    ensures r.curr == t.curr && r.tty == t.tty
    ensures r.row[t.curr] == Height - 1 && Col(r) == PromptLen && Written(r) == PromptLen
    ensures Color(r) == DefaultColor
  {
    t.(display := WithPromptRow(t.display),
       row := t.row[t.curr := Height - 1],
       column := t.column[t.curr := PromptLen],
       written := t.written[t.curr := PromptLen],
       color := t.color[t.curr := DefaultColor])
  }

  /** `swap_tty`: the display is saved into the active session's grid, then the
      display takes session `n`'s grid, and `n` becomes active. The copy runs cell by
      cell, so when `n` is already active the display is left as it was. */
  function Swap(t: Term, n: nat): (r: Term)
    requires Wf(t) && n < MaxTty
    ensures Wf(r)
    ensures r.curr == n && r.display == (if n == t.curr then t.display else t.tty[n])
    ensures r.tty[t.curr] == t.display
    ensures forall s :: 0 <= s < MaxTty && s != t.curr ==> r.tty[s] == t.tty[s]
    ensures r.row == t.row && r.column == t.column && r.written == t.written && r.color == t.color
  {
    var saved := t.tty[t.curr := t.display];
    t.(tty := saved, display := saved[n], curr := n)
  }

  /** `s` painted in `color` over the cells from flat index `start` on. */
  function Paint(g: seq<Cell>, start: nat, s: seq<char>, color: Attr): (r: seq<Cell>)
    requires |g| == ScreenSize && start + |s| <= ScreenSize
    ensures |r| == ScreenSize
  {
    seq(ScreenSize, i requires 0 <= i < ScreenSize =>
      if start <= i < start + |s| then Cell(s[i - start], color) else g[i])
  }

  /** Painting one more character is one more cell update. */
  lemma PaintSnoc(g: seq<Cell>, start: nat, s: seq<char>, color: Attr)
    requires |g| == ScreenSize && start + |s| <= ScreenSize && s != []
    ensures Paint(g, start, s[..|s| - 1], color)[start + |s| - 1 := Cell(s[|s| - 1], color)]
         == Paint(g, start, s, color)
  {
    var p := s[..|s| - 1];
    var h := Paint(g, start, s, color);
    var q := Paint(g, start, p, color)[start + |p| := Cell(s[|s| - 1], color)];
    forall i | 0 <= i < ScreenSize
      ensures q[i] == h[i]
    {
      if start <= i < start + |p| {
        assert s[i - start] == p[i - start];
      }
    }
  }

  /** Writing a string that ends before the row's last column paints it from the
      cursor on in the session colour and leaves the cursor just after it. */
  lemma {:induction false} WriteOnRow(t: Term, s: seq<char>)
    requires Wf(t) && Col(t) + |s| < Width
    ensures Write(t, s) == t.(display := Paint(t.display, Base(t) + Col(t), s, Color(t)),
                              column := t.column[t.curr := Col(t) + |s|])
    decreases |s|
  {
    var start := Base(t) + Col(t);
    if s == [] {
      assert Paint(t.display, start, s, Color(t)) == t.display;
      assert t.column[t.curr := Col(t)] == t.column;
    } else {
      var p := s[..|s| - 1];
      WriteOnRow(t, p);
      assert Write(t, s) == PutChar(Write(t, p), s[|s| - 1]);
      PutCharOnRow(t, s);
    }
  }

  /** The step of WriteOnRow: one more `terminal_putchar` paints one more cell. */
  lemma PutCharOnRow(t: Term, s: seq<char>)
    requires Wf(t) && Col(t) + |s| < Width && s != []
    ensures var p := s[..|s| - 1];
            PutChar(t.(display := Paint(t.display, Base(t) + Col(t), p, Color(t)),
                       column := t.column[t.curr := Col(t) + |p|]), s[|s| - 1])
            == t.(display := Paint(t.display, Base(t) + Col(t), s, Color(t)),
                  column := t.column[t.curr := Col(t) + |s|])
  {
    var start := Base(t) + Col(t);
    var p := s[..|s| - 1];
    var c := s[|s| - 1];
    var g := Paint(t.display, start, p, Color(t));
    var u := t.(display := g, column := t.column[t.curr := Col(t) + |p|]);
    assert PutChar(u, c) == u.(display := g[start + |p| := Cell(c, Color(t))],
                               column := t.column[t.curr := Col(t) + |s|]);
    PaintSnoc(t.display, start, s, Color(t));
  }

  /** The prompt string as `terminal_prompt` writes it, from column 0 of the bottom
      row in the prompt colour: painted at the start of that row, with the cursor
      left just after it. */
  lemma WritePromptString(t: Term)
    requires Wf(t) && t.row[t.curr] == Height - 1 && Col(t) == 0 && Color(t) == PromptColor
    ensures Write(t, CString(Prompt + "\0"))
         == t.(display := Paint(t.display, PromptBase, Prompt, PromptColor),
               column := t.column[t.curr := PromptLen])
  {
    PromptStrlen(PromptLen);
    WriteOnRow(t, Prompt);
  }

  /** Writing one more character is one more `terminal_putchar`. */
  lemma WriteSnoc(t: Term, s: seq<char>, c: char)
    requires Wf(t)
    ensures Write(t, s + [c]) == PutChar(Write(t, s), c)
  {
    assert (s + [c])[..|s|] == s;
  }

  /** Writing two strings one after the other is writing their concatenation. */
  lemma {:induction false} WriteAppend(t: Term, a: seq<char>, b: seq<char>)
    requires Wf(t)
    ensures Write(t, a + b) == Write(Write(t, a), b)
    decreases |b|
  {
    if b == [] {
      assert a + b == a;
    } else {
      WriteAppend(t, a, b[..|b| - 1]);
      assert (a + b)[..|a + b| - 1] == a + b[..|b| - 1];
    }
  }

  /** A horizontal cursor move is undone by the opposite move away from the edges. */
  lemma CursorMovesInverse(t: Term)
    requires Wf(t)
    ensures 0 < Col(t) ==> MoveRight(MoveLeft(t)) == t
    ensures Col(t) < Width - 1 ==> MoveLeft(MoveRight(t)) == t
  {
  }

  /** Redrawing the prompt twice is redrawing it once. */
  lemma NewPromptIdempotent(t: Term)
    requires Wf(t)
    ensures NewPrompt(NewPrompt(t)) == NewPrompt(t)
  {
    assert WithPromptRow(WithPromptRow(t.display)) == WithPromptRow(t.display);
  }

  /** Switching to another session and back gives back the display, the active
      session and every other session's grid; the grid of the session left now holds
      the display it showed. */
  lemma SwapRoundTrip(t: Term, n: nat)
    requires Wf(t) && n < MaxTty && n != t.curr
    ensures Swap(t, n).display == t.tty[n] && Swap(t, n).tty[t.curr] == t.display
    ensures Swap(Swap(t, n), t.curr) == t.(tty := t.tty[t.curr := t.display])
  {
    var u := Swap(t, n);
    assert u.tty[n := u.display] == t.tty[t.curr := t.display];
  }

  // --------------------------------------------------------------------- actions

  /** What one keyboard interrupt asks of the console. */
  datatype Action =
    | InsertChar(c: char)
    | Enter
    | Backspace
    | ForwardDelete
    | CursorRight
    | CursorLeft
    | SwitchTo(target: nat)
    | NoAction

  predicate WfAction(a: Action)
  {
    a.SwitchTo? ==> a.target < MaxTty
  }

  /** The console update for one action, as `isr_keyboard` and
      `handle_extended_byte` carry it out. */
  function Perform(t: Term, a: Action): (r: Term)
    requires Valid(t) && WfAction(a)
    ensures Wf(r)
    ensures a == NoAction ==> r == t
    ensures !a.SwitchTo? ==> r.curr == t.curr && r.tty == t.tty
    ensures a.SwitchTo? ==> r.curr == a.target
  {
    match a
    case InsertChar(c) => Insert(t, c)
    case Enter => NewPrompt(t)
    case Backspace => DeleteLast(t)
    case ForwardDelete => DeleteNext(t)
    case CursorRight => if Written(t) > Col(t) then MoveRight(t) else t
    case CursorLeft => MoveLeft(t)
    case SwitchTo(n) => if n != t.curr then Swap(t, n) else t
    case NoAction => t
  }

  /** No action moves an edit line off the bottom row. */
  lemma PerformKeepsValid(t: Term, a: Action)
    requires Valid(t) && WfAction(a)
    ensures Valid(Perform(t, a))
  {
  }

  // ------------------------------------------------------------ initial state

  /** The screen after the fill loops of `terminal_initialize`: blank light-grey cells. */
  function BlankScreen(): (g: seq<Cell>)
    ensures |g| == ScreenSize
  {
    seq(ScreenSize, i => Cell(Empty, DefaultColor))
  }

  /** The screen every session shows after `terminal_initialize`: blank light-grey
      cells with a prompt on the bottom row. */
  function PromptedScreen(): (g: seq<Cell>)
    ensures |g| == ScreenSize
  {
    WithPromptRow(BlankScreen())
  }

  /** The state `terminal_initialize` leaves. */
  function Initial(): (t: Term)
    ensures Valid(t)
    ensures t.curr == 0
    ensures forall s :: 0 <= s < MaxTty ==> t.column[s] == PromptLen && t.written[s] == PromptLen
    ensures forall s :: 0 <= s < MaxTty ==> Grid(t, s) == PromptedScreen()
  {
    Term(PromptedScreen(), seq(MaxTty, s => PromptedScreen()),
         seq(MaxTty, s => Height - 1), seq(MaxTty, s => PromptLen),
         seq(MaxTty, s => PromptLen), seq(MaxTty, s => DefaultColor), 0)
  }

  /** The per-session counters and colours after the first loop of
      `terminal_initialize`, and the session grids after its fill loops. */
  function ZeroCounters(): (r: seq<nat>) ensures |r| == MaxTty { seq(MaxTty, s => 0) }
  function DefaultColors(): (r: seq<Attr>) ensures |r| == MaxTty { seq(MaxTty, s => DefaultColor) }
  function BlankGrids(): (r: seq<seq<Cell>>) ensures |r| == MaxTty { seq(MaxTty, s => BlankScreen()) }

  /** The state after the fill loops of `terminal_initialize`. */
  function Filled(): Term
  {
    Term(BlankScreen(), BlankGrids(), ZeroCounters(), ZeroCounters(), ZeroCounters(), DefaultColors(), 0)
  }

  /** Whether session `s` has been prompted when the initialisation loop is about to
      run with counter `tmp` (9 down to 0; -1 once it is done). */
  predicate InitPrompted(s: int, tmp: int)
  {
    s > tmp + 1 || (s == 0 && tmp < MaxTty - 1)
  }

  /** The state at the head of the initialisation loop: the loop prompts the active
      session and switches to session `tmp`, so the sessions above `tmp + 1`, and
      session 0 after the first round, already show a prompt. */
  function InitStage(tmp: int): (t: Term)
    requires -1 <= tmp < MaxTty
    ensures Wf(t)
  {
    Term(if tmp == -1 then PromptedScreen() else BlankScreen(),
         seq(MaxTty, s => if InitPrompted(s, tmp) then PromptedScreen() else BlankScreen()),
         seq(MaxTty, s => if InitPrompted(s, tmp) then Height - 1 else 0),
         seq(MaxTty, s => if InitPrompted(s, tmp) then PromptLen else 0),
         seq(MaxTty, s => if InitPrompted(s, tmp) then PromptLen else 0),
         seq(MaxTty, s => DefaultColor),
         if tmp == MaxTty - 1 then 0 else tmp + 1)
  }

  /** One round of the initialisation loop (prompt, then switch to session `tmp`)
      moves from one stage to the next. */
  lemma InitStep(tmp: int)
    requires 0 <= tmp < MaxTty
    ensures Swap(NewPrompt(InitStage(tmp)), tmp) == InitStage(tmp - 1)
  {
    var t := InitStage(tmp);
    var p := NewPrompt(t);
    var r := Swap(p, tmp);
    var e := InitStage(tmp - 1);
    assert p.display == PromptedScreen();
    assert r.tty == e.tty;
    assert r.row == e.row;
    assert r.column == e.column;
    assert r.written == e.written;
    assert r.color == e.color;
  }

  /** The loop starts from the filled screens and ends in the initial state. */
  lemma InitStages()
    ensures InitStage(-1) == Initial()
    ensures InitStage(MaxTty - 1) == Filled()
  {
    assert InitStage(MaxTty - 1).tty == BlankGrids();
    assert InitStage(MaxTty - 1).row == ZeroCounters();
    assert InitStage(MaxTty - 1).column == ZeroCounters();
    assert InitStage(MaxTty - 1).written == ZeroCounters();
    assert InitStage(MaxTty - 1).color == DefaultColors();
    assert InitStage(-1).tty == Initial().tty;
    assert InitStage(-1).row == Initial().row;
    assert InitStage(-1).column == Initial().column;
    assert InitStage(-1).written == Initial().written;
  }
}
