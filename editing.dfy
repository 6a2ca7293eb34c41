/** The line editor's invariant and its effect on the typed text: every operation
    except the left arrow keeps each session's edit line well formed, and insert,
    backspace and forward delete edit the typed text at the cursor position. */
module Editing {
  import opened Vga
  import opened Terminal

  /** Column `x` of the bottom row of `g`. */
  function RowCell(g: seq<Cell>, x: int): Cell
    requires |g| == ScreenSize && 0 <= x < Width
  {
    g[PromptBase + x]
  }

  /** A well-formed edit line: the prompt in its cells, the cursor between the end
      of the prompt and the written extent, and blanks from there to the row's end. */
  predicate LineOk(g: seq<Cell>, col: int, w: int)
    requires |g| == ScreenSize
  {
    PromptLen <= col <= w <= Width
    && (forall x :: 0 <= x < PromptLen ==> RowCell(g, x) == PromptCell(x))
    && (forall x :: w <= x < Width ==> RowCell(g, x).ch == Empty)
  }

  /** Every session's edit line is well formed, the active one on the display. */
  predicate Editing(t: Term)
  {
    Valid(t) && forall s :: 0 <= s < MaxTty ==> LineOk(Grid(t, s), t.column[s], t.written[s])
  }

  /** The text typed after the prompt: the characters of columns [prompt end, w). */
  function Text(g: seq<Cell>, w: int): (text: seq<char>)
    requires |g| == ScreenSize && PromptLen <= w <= Width
    ensures |text| == w - PromptLen
  {
    seq(w - PromptLen, k requires 0 <= k < w - PromptLen => RowCell(g, PromptLen + k).ch)
  }

  /** The active session's typed text. */
  function TextOf(t: Term): seq<char>
    requires Editing(t)
  {
    Text(t.display, Written(t))
  }

  /** Position of the cursor inside the typed text. */
  function Cursor(t: Term): nat
    requires Editing(t)
  {
    Col(t) - PromptLen
  }

  /** An update of the active session only keeps every other session's line. */
  lemma OthersKept(t: Term, r: Term)
    requires Editing(t) && Valid(r)
    requires r.tty == t.tty && r.curr == t.curr
    requires forall s :: 0 <= s < MaxTty && s != t.curr ==> r.column[s] == t.column[s] && r.written[s] == t.written[s]
    requires LineOk(r.display, Col(r), Written(r))
    ensures Editing(r)
  {
    forall s | 0 <= s < MaxTty
      ensures LineOk(Grid(r, s), r.column[s], r.written[s])
    {
      if s != r.curr {
        assert Grid(r, s) == Grid(t, s);
      }
    }
  }

  // ------------------------------------------------------------------- insert

  lemma InsertAtLine(g: seq<Cell>, col: nat, w: nat, c: char, color: Attr)
    requires |g| == ScreenSize && LineOk(g, col, w) && w < Width
    ensures var g' := InsertAt(g, PromptBase, col, w, c, color);
            var col' := if col < Width - 1 then col + 1 else col;
            LineOk(g', col', w + 1)
            && Text(g', w + 1) == Text(g, w)[..col - PromptLen] + [c] + Text(g, w)[col - PromptLen..]
  {
    var g' := InsertAt(g, PromptBase, col, w, c, color);
    var text := Text(g, w);
    var expected := text[..col - PromptLen] + [c] + text[col - PromptLen..];
    forall k | 0 <= k < w + 1 - PromptLen
      ensures Text(g', w + 1)[k] == expected[k]
    {
      var i := PromptBase + PromptLen + k;
      var j := col - PromptLen;
      assert Text(g', w + 1)[k] == RowCell(g', PromptLen + k).ch == g'[i].ch;
      if k > j {
        assert expected[k] == text[k - 1];
        assert text[k - 1] == RowCell(g, PromptLen + (k - 1)).ch == g[i - 1].ch;
      } else if k < j {
        assert expected[k] == text[k];
        assert text[k] == RowCell(g, PromptLen + k).ch == g[i].ch;
      } else {
        assert expected[k] == c;
      }
    }
    assert forall x :: w + 1 <= x < Width ==> RowCell(g', x) == RowCell(g, x);
  }

  /** Insertion puts `c` at the cursor in the typed text and keeps every edit line
      well formed; on a full line it changes nothing. */
  lemma InsertEdits(t: Term, c: char)
    requires Editing(t)
    ensures Editing(Insert(t, c))
    ensures Written(t) == Width ==> Insert(t, c) == t
    ensures Written(t) < Width ==>
      TextOf(Insert(t, c)) == TextOf(t)[..Cursor(t)] + [c] + TextOf(t)[Cursor(t)..]
      && Col(Insert(t, c)) == (if Col(t) < Width - 1 then Col(t) + 1 else Col(t))
  {
    if Written(t) < Width {
      InsertAtLine(t.display, Col(t), Written(t), c, Color(t));
      OthersKept(t, Insert(t, c));
    }
  }

  // ------------------------------------------------------- backspace and delete

  lemma ShiftLeftLine(g: seq<Cell>, col: nat, w: nat, from: nat, color: Attr)
    requires |g| == ScreenSize && LineOk(g, col, w)
    requires PromptLen <= from < w
    ensures var g' := ShiftLeft(g, PromptBase, from, color);
            (forall x :: 0 <= x < PromptLen ==> RowCell(g', x) == PromptCell(x))
            && (forall x :: w - 1 <= x < Width ==> RowCell(g', x).ch == Empty)
            && Text(g', w - 1) == Text(g, w)[..from - PromptLen] + Text(g, w)[from - PromptLen + 1..]
  {
    var g' := ShiftLeft(g, PromptBase, from, color);
    var text := Text(g, w);
    var expected := text[..from - PromptLen] + text[from - PromptLen + 1..];
    forall k | 0 <= k < w - 1 - PromptLen
      ensures Text(g', w - 1)[k] == expected[k]
    {
      var i := PromptBase + PromptLen + k;
      var j := from - PromptLen;
      assert Text(g', w - 1)[k] == RowCell(g', PromptLen + k).ch == g'[i].ch;
      if k >= j {
        assert expected[k] == text[k + 1];
        assert text[k + 1] == RowCell(g, PromptLen + (k + 1)).ch == g[i + 1].ch;
      } else {
        assert expected[k] == text[k];
        assert text[k] == RowCell(g, PromptLen + k).ch == g[i].ch;
      }
    }
    forall x | w - 1 <= x < Width
      ensures RowCell(g', x).ch == Empty
    {
      if x < Width - 1 {
        assert RowCell(g', x).ch == RowCell(g, x + 1).ch;
      }
    }
  }

  /** Backspace removes the character before the cursor from the typed text and keeps
      every edit line well formed; just after the prompt it changes nothing. */
  lemma DeleteLastEdits(t: Term)
    requires Editing(t)
    ensures Editing(DeleteLast(t))
    ensures Col(t) == PromptLen ==> DeleteLast(t) == t
    ensures Col(t) > PromptLen ==>
      TextOf(DeleteLast(t)) == TextOf(t)[..Cursor(t) - 1] + TextOf(t)[Cursor(t)..]
      && Col(DeleteLast(t)) == Col(t) - 1
  {
    if Col(t) > PromptLen {
      ShiftLeftLine(t.display, Col(t), Written(t), Col(t) - 1, Color(t));
      OthersKept(t, DeleteLast(t));
    }
  }

  /** Forward delete removes the character under the cursor from the typed text and
      keeps every edit line well formed; at the written extent it changes nothing. */
  lemma DeleteNextEdits(t: Term)
    requires Editing(t)
    ensures Editing(DeleteNext(t))
    ensures Col(t) == Written(t) ==> DeleteNext(t) == t
    ensures Col(t) < Written(t) ==>
      TextOf(DeleteNext(t)) == TextOf(t)[..Cursor(t)] + TextOf(t)[Cursor(t) + 1..]
      && Col(DeleteNext(t)) == Col(t)
  {
    if Col(t) < Written(t) {
      ShiftLeftLine(t.display, Col(t), Written(t), Col(t), Color(t));
      OthersKept(t, DeleteNext(t));
    }
  }

  /** Typing a character and erasing it again with backspace gives back every
      character on the screen, the cursor and the written extent (the colours of the
      shifted cells become the session colour). */
  lemma InsertThenBackspace(t: Term, c: char)
    requires Editing(t) && Written(t) < Width && Col(t) < Width - 1
    ensures var r := DeleteLast(Insert(t, c));
            Col(r) == Col(t) && Written(r) == Written(t)
            && forall i :: 0 <= i < ScreenSize ==> r.display[i].ch == t.display[i].ch
  {
    InsertEdits(t, c);
    var u := Insert(t, c);
    var r := DeleteLast(u);
    forall i | 0 <= i < ScreenSize
      ensures r.display[i].ch == t.display[i].ch
    {
      var b := PromptBase;
      if b + Col(t) <= i < b + Written(t) {
        assert r.display[i].ch == u.display[i + 1].ch == t.display[i].ch;
      } else if b + Written(t) <= i < b + Width - 1 {
        assert r.display[i].ch == u.display[i + 1].ch == t.display[i + 1].ch;
        assert RowCell(t.display, i + 1 - b).ch == Empty;
        assert RowCell(t.display, i - b).ch == Empty;
      } else if i == b + Width - 1 {
        assert RowCell(t.display, Width - 1).ch == Empty;
      } else {
        assert r.display[i] == u.display[i] == t.display[i];
      }
    }
  }

  // -------------------------------------------------------- prompt and swap

  /** A freshly drawn prompt row is a well-formed, empty edit line. */
  lemma PromptRowLine(g: seq<Cell>)
    requires |g| == ScreenSize
    ensures LineOk(WithPromptRow(g), PromptLen, PromptLen)
  {
    var r := WithPromptRow(g);
    forall x | PromptLen <= x < Width
      ensures RowCell(r, x).ch == Empty
    {
      assert RowCell(r, x) == r[PromptBase + x] == PromptCell(x);
    }
    forall x | 0 <= x < PromptLen
      ensures RowCell(r, x) == PromptCell(x)
    {
      assert RowCell(r, x) == r[PromptBase + x];
    }
  }

  /** A fresh prompt leaves a well-formed, empty edit line. */
  lemma NewPromptEdits(t: Term)
    requires Editing(t)
    ensures Editing(NewPrompt(t))
    ensures TextOf(NewPrompt(t)) == [] && Col(NewPrompt(t)) == PromptLen
  {
    var r := NewPrompt(t);
    PromptRowLine(t.display);
    OthersKept(t, r);
  }

  /** Switching sessions keeps every session's edit line well formed. */
  lemma SwapEdits(t: Term, n: nat)
    requires Editing(t) && n < MaxTty
    ensures Editing(Swap(t, n))
  {
    var r := Swap(t, n);
    forall s | 0 <= s < MaxTty
      ensures LineOk(Grid(r, s), r.column[s], r.written[s])
    {
      if s == t.curr {
        assert Grid(r, s) == Grid(t, s);
      } else {
        assert Grid(r, s) == t.tty[s] == Grid(t, s);
      }
    }
  }

  /** Every action but the left arrow keeps every edit line well formed. */
  lemma PerformEdits(t: Term, a: Action)
    requires Editing(t) && WfAction(a) && a != CursorLeft
    ensures Editing(Perform(t, a))
  {
    match a
    case InsertChar(c) => InsertEdits(t, c);
    case Enter => NewPromptEdits(t);
    case Backspace => DeleteLastEdits(t);
    case ForwardDelete => DeleteNextEdits(t);
    case CursorRight =>
      if Written(t) > Col(t) {
        OthersKept(t, MoveRight(t));
      }
    case SwitchTo(n) =>
      if n != t.curr {
        SwapEdits(t, n);
      }
    case NoAction =>
  }

  /** The left arrow is clamped at column 0 only: from just after the prompt it puts
      the cursor on the prompt, breaking the invariant. */
  lemma CursorLeftLeavesLine(t: Term)
    requires Editing(t) && Col(t) == PromptLen
    ensures !Editing(Perform(t, CursorLeft))
    ensures Col(Perform(t, CursorLeft)) == PromptLen - 1
  {
  }

  /** Every session of the initial state holds an empty, well-formed edit line. */
  lemma InitialEditing()
    ensures Editing(Initial())
    ensures TextOf(Initial()) == []
  {
    var t := Initial();
    PromptRowLine(seq(ScreenSize, i => Cell(Empty, DefaultColor)));
    forall s | 0 <= s < MaxTty
      ensures LineOk(Grid(t, s), t.column[s], t.written[s])
    {
      assert Grid(t, s) == PromptedScreen();
    }
  }
}
