/** The scancode set of keyboard.h: the QWERTY table (one row per press code,
    unshifted and shifted character, NUL for "no character") and the control codes. */
module Keymap {
  import opened Vga

  /** `QWERTY_KEYBOARD_TABLE`, one row per press code 0x00..0x7F, written as the
      source lays it out: eight rows per line. */
  const QwertyTable: seq<(char, char)> :=
    Rows00 + Rows08 + Rows10 + Rows18 + Rows20 + Rows28 + Rows30 + Rows38 +
    Unmapped8 + Unmapped8 + Unmapped8 + Unmapped8 + Unmapped8 + Unmapped8 + Unmapped8 + Unmapped8

  const Rows00: seq<(char, char)> :=
    [('\0', '\0'), ('\0', '\0'), ('1', '!'), ('2', '@'), ('3', '#'), ('4', '$'), ('5', '%'), ('6', '^')]
  const Rows08: seq<(char, char)> :=
    [('7', '&'), ('8', '*'), ('9', '('), ('0', ')'), ('-', '_'), ('=', '+'), ('\0', '\0'), ('\0', '\0')]
  const Rows10: seq<(char, char)> :=
    [('q', 'Q'), ('w', 'W'), ('e', 'E'), ('r', 'R'), ('t', 'T'), ('y', 'Y'), ('u', 'U'), ('i', 'I')]
  const Rows18: seq<(char, char)> :=
    [('o', 'O'), ('p', 'P'), ('[', '{'), (']', '}'), ('\0', '\0'), ('\0', '\0'), ('a', 'A'), ('s', 'S')]
  const Rows20: seq<(char, char)> :=
    [('d', 'D'), ('f', 'F'), ('g', 'G'), ('h', 'H'), ('j', 'J'), ('k', 'K'), ('l', 'L'), (';', ':')]
  const Rows28: seq<(char, char)> :=
    [('\'', '"'), ('`', '~'), ('\0', '\0'), ('\\', '|'), ('z', 'Z'), ('x', 'X'), ('c', 'C'), ('v', 'V')]
  const Rows30: seq<(char, char)> :=
    [('b', 'B'), ('n', 'N'), ('m', 'M'), (',', '<'), ('.', '>'), ('/', '?'), ('\0', '\0'), ('*', '*')]
  const Rows38: seq<(char, char)> :=
    [('\0', '\0'), (' ', ' '), ('\0', '\0'), ('\0', '\0'), ('\0', '\0'), ('\0', '\0'), ('\0', '\0'), ('\0', '\0')]
  /** Eight rows without a character; rows 0x40..0x7F are eight such lines. */
  const Unmapped8: seq<(char, char)> :=
    [('\0', '\0'), ('\0', '\0'), ('\0', '\0'), ('\0', '\0'), ('\0', '\0'), ('\0', '\0'), ('\0', '\0'), ('\0', '\0')]

  const LShiftPress: Byte := 0x2A
  const LShiftRelease: Byte := 0xAA
  const RShiftPress: Byte := 0x36
  const RShiftRelease: Byte := 0xB6
  const CapsLockPress: Byte := 0x3A
  const CapsLockRelease: Byte := 0xBA
  const BackspacePress: Byte := 0x0E
  const EnterPress: Byte := 0x1C
  const F1Pressed: Byte := 0x3B
  const F2Pressed: Byte := 0x3C
  const F3Pressed: Byte := 0x3D
  const F4Pressed: Byte := 0x3E
  const F5Pressed: Byte := 0x3F
  const F6Pressed: Byte := 0x40
  const F7Pressed: Byte := 0x41
  const F8Pressed: Byte := 0x42
  const F9Pressed: Byte := 0x43
  const F10Pressed: Byte := 0x44
  /** The ten case labels of the function-key arm of `isr_keyboard`, in order. */
  const FunctionKeyLabels: seq<Byte> :=
    [F1Pressed, F2Pressed, F3Pressed, F4Pressed, F5Pressed,
     F6Pressed, F7Pressed, F8Pressed, F9Pressed, F10Pressed]
  const ExtendedByte: Byte := 0xE0
  // Second bytes of a sequence that starts with ExtendedByte.
  const ExtendedEnterPress: Byte := 0x1C
  const DeletePress: Byte := 0x53
  const CursorRightPress: Byte := 0x4D
  const CursorLeftPress: Byte := 0x4B
  const CursorUpPress: Byte := 0x48
  const CursorDownPress: Byte := 0x50

  predicate IsLower(c: char) { 'a' <= c <= 'z' }
  predicate IsUpper(c: char) { 'A' <= c <= 'Z' }
  /** The letter test `isr_keyboard` applies before honouring caps lock. */
  predicate IsAlpha(c: char) { IsLower(c) || IsUpper(c) }

  function ToUpper(c: char): char
    requires IsLower(c)
  {
    (c as int - 'a' as int + 'A' as int) as char
  }

  /** A press code whose row holds a letter. */
  predicate IsLetterCode(code: Byte) { code < |QwertyTable| && IsLower(QwertyTable[code].0) }

  /** The character the table gives for `code`; codes past the table's last row
      (release codes, the extended marker) give NUL. */
  function Lookup(code: Byte, shifted: bool): (c: char)
    ensures code >= |QwertyTable| ==> c == '\0'
  {
    if code < |QwertyTable| then
      (if shifted then QwertyTable[code].1 else QwertyTable[code].0)
    else '\0'
  }

  /** The table has one row per 7-bit press code. */
  lemma TableSize()
    ensures |QwertyTable| == 128
    ensures forall code: Byte, sh: bool :: code >= 0x80 ==> Lookup(code, sh) == '\0'
  {
  }

  /** A table row is a letter row (a lowercase letter beside its uppercase) or
      holds no letter at all. */
  predicate RowCaseOk(row: (char, char))
  {
    (IsLower(row.0) ==> row.1 == ToUpper(row.0))
    && (IsAlpha(row.0) || IsAlpha(row.1) ==> IsLower(row.0))
  }

  /** Every letter row pairs a lowercase letter with its uppercase, and no other
      row holds a letter in either column. */
  lemma LetterRows(code: Byte)
    requires code < |QwertyTable|
    ensures RowCaseOk(QwertyTable[code])
  {
    if code < 0x20 {
      LetterRowsBelow20(code);
    } else if code < 0x40 {
      LetterRowsBelow40(code);
    } else {
      assert QwertyTable[code] == ('\0', '\0');
    }
  }

  lemma LetterRowsBelow20(code: Byte)
    requires code < 0x20
    ensures RowCaseOk(QwertyTable[code])
  {
    if code < 0x08 {
      assert QwertyTable[code] == Rows00[code];
    } else if code < 0x10 {
      assert QwertyTable[code] == Rows08[code - 0x08];
    } else if code < 0x18 {
      assert QwertyTable[code] == Rows10[code - 0x10];
    } else {
      assert QwertyTable[code] == Rows18[code - 0x18];
    }
  }

  lemma LetterRowsBelow40(code: Byte)
    requires 0x20 <= code < 0x40
    ensures RowCaseOk(QwertyTable[code])
  {
    if code < 0x28 {
      assert QwertyTable[code] == Rows20[code - 0x20];
    } else if code < 0x30 {
      assert QwertyTable[code] == Rows28[code - 0x28];
    } else if code < 0x38 {
      assert QwertyTable[code] == Rows30[code - 0x30];
    } else {
      assert QwertyTable[code] == Rows38[code - 0x38];
    }
  }

  /** A press code that `isr_keyboard` handles in its control-code switch. */
  predicate IsControlPress(code: Byte)
  {
    code == BackspacePress || code == EnterPress || code == LShiftPress
    || code == RShiftPress || code == CapsLockPress || F1Pressed <= code <= F10Pressed
  }

  /** Every control press code has NUL in both columns, so the character branch of
      `isr_keyboard` never swallows it. */
  lemma ControlCodesUnmapped(code: Byte, shifted: bool)
    requires IsControlPress(code)
    ensures Lookup(code, shifted) == '\0'
  {
    if code < 0x38 {
      assert code in {BackspacePress, EnterPress, LShiftPress, RShiftPress};
    } else if code < 0x40 {
      assert QwertyTable[code] == Rows38[code - 0x38];
    } else {
      assert QwertyTable[code] == ('\0', '\0');
    }
  }

  /** Releases of shift and caps lock are their press codes with bit 7 set. */
  lemma ReleaseCodes()
    ensures LShiftRelease == LShiftPress + 0x80
    ensures RShiftRelease == RShiftPress + 0x80
    ensures CapsLockRelease == CapsLockPress + 0x80
  {
  }

  /** F1..F10 are MAX_TTY consecutive codes, F(k+1) being F1 + k, so the ten case
      labels are exactly the codes from F1 to F10. */
  lemma FunctionKeyCodes()
    ensures |FunctionKeyLabels| == MaxTty
    ensures forall k :: 0 <= k < MaxTty ==> FunctionKeyLabels[k] == F1Pressed + k
    ensures forall code: Byte :: code in FunctionKeyLabels <==> F1Pressed <= code <= F10Pressed
  {
    forall code: Byte | F1Pressed <= code <= F10Pressed
      ensures code in FunctionKeyLabels
    {
      assert FunctionKeyLabels[code - F1Pressed] == code;
    }
  }

  /** The keypad Enter sends the main Enter code behind the extended marker. */
  lemma EnterCodes()
    ensures ExtendedEnterPress == EnterPress
    ensures ExtendedByte >= |QwertyTable|
  {
  }
}
