/** The pure parts of utils.c: the cursor-position arithmetic of `update_cursor`,
    the digits `terminal_putnbr_base` emits, and `kmemset`. */
module Utils {
  import opened Vga

  /** A 16-bit unsigned value (`uint16_t`). */
  type Word = x: int | 0 <= x < 0x1_0000
  /** A signed byte (`int8_t`). */
  type Int8 = x: int | -0x80 <= x < 0x80

  const CursorLowRegister: Byte := 0x0F
  const CursorHighRegister: Byte := 0x0E

  /** The linear cursor position `update_cursor` stores in its `uint16_t pos`. */
  function CursorOffset(x: nat, y: nat): (pos: Word)
  {
    (y * Width + x) % 0x1_0000
  }

  /** The (register index, data byte) pairs `update_cursor` sends through the
      CRT controller's index/data ports, in order: low byte, then high byte. */
  function CursorRegisterWrites(x: nat, y: nat): (writes: seq<(Byte, Byte)>)
    ensures |writes| == 2
    ensures writes[0].0 == CursorLowRegister && writes[1].0 == CursorHighRegister
    ensures writes[0].1 as int + 0x100 * writes[1].1 as int == CursorOffset(x, y)
  {
    var pos := CursorOffset(x, y);
    [(CursorLowRegister, pos % 0x100), (CursorHighRegister, (pos / 0x100) % 0x100)]
  }

  /** On the screen the 16-bit position is exact, below 2000, and splits back into
      the column and the row. */
  lemma CursorOffsetOnScreen(x: nat, y: nat)
    requires x < Width && y < Height
    ensures CursorOffset(x, y) == y * Width + x < ScreenSize
    ensures CursorOffset(x, y) % Width == x && CursorOffset(x, y) / Width == y
  {
  }

  /** The number a sequence of digits denotes in base `b`, most significant first. */
  function DigitsValue(digits: seq<nat>, b: nat): nat
  {
    if digits == [] then 0
    else DigitsValue(digits[..|digits| - 1], b) * b + digits[|digits| - 1]
  }

  /** The digit indices `terminal_putnbr_base` emits for the non-negative `v`:
      the recursive call prints the quotient's digits first, then `v % b`. */
  function NbrDigits(v: nat, b: nat): (digits: seq<nat>)
    requires b >= 2
    ensures |digits| >= 1
    ensures forall i :: 0 <= i < |digits| ==> digits[i] < b
    ensures DigitsValue(digits, b) == v
    ensures v > 0 ==> digits[0] != 0
    ensures |digits| == 1 <==> v < b
    decreases v
  {
    if v >= b then
      DivisionStep(v, b);
      var prefix := NbrDigits(v / b, b);
      assert (prefix + [v % b])[..|prefix|] == prefix;
      prefix + [v % b]
    else
      [v]
  }

  lemma DivisionStep(v: nat, b: nat)
    requires 2 <= b <= v
    ensures v / b * b + v % b == v && 0 <= v % b < b
    ensures 1 <= v / b < v
  {
  }

  /** The quotient and remainder the recursion of `terminal_putnbr_base` uses. */
  lemma QuotientRemainder(v: nat, b: nat)
    requires b >= 2
    ensures 0 <= v % b < b
    ensures v >= b ==> v / b < v
  {
    if v >= b {
      DivisionStep(v, b);
    }
  }

  predicate IsInt32(n: int) { -0x8000_0000 <= n < 0x8000_0000 }

  function Abs(n: int): nat { if n < 0 then -n else n }

  /** The characters `terminal_putnbr_base` prints for the non-negative `v`, by its
      own recursion: those of the quotient when `v` has more than one digit, then the
      character of the remainder. */
  function DigitChars(v: nat, base: seq<char>, baseLen: nat): (out: seq<char>)
    requires 2 <= baseLen <= |base|
    ensures |out| >= 1 && (|out| == 1 <==> v < baseLen)
    ensures forall i :: 0 <= i < |out| ==> out[i] in base[..baseLen]
    decreases v
  {
    QuotientRemainder(v, baseLen);
    (if v >= baseLen then DigitChars(v / baseLen, base, baseLen) else []) + [base[v % baseLen]]
  }

  /** Those characters are the digits of `v`, most significant first, each looked up
      in `base`. */
  lemma {:induction false} DigitCharsSpec(v: nat, base: seq<char>, baseLen: nat)
    requires 2 <= baseLen <= |base|
    ensures var digits := NbrDigits(v, baseLen);
            DigitChars(v, base, baseLen) == seq(|digits|, i requires 0 <= i < |digits| => base[digits[i]])
    decreases v
  {
    var digits := NbrDigits(v, baseLen);
    var expected := seq(|digits|, i requires 0 <= i < |digits| => base[digits[i]]);
    if v >= baseLen {
      DivisionStep(v, baseLen);
      DigitCharsSpec(v / baseLen, base, baseLen);
      var prefix := NbrDigits(v / baseLen, baseLen);
      var rest := DigitChars(v / baseLen, base, baseLen);
      assert digits == prefix + [v % baseLen];
      forall i | 0 <= i < |expected|
        ensures expected[i] == (rest + [base[v % baseLen]])[i]
      {
        if i < |prefix| {
          assert digits[i] == prefix[i];
        }
      }
      assert expected == rest + [base[v % baseLen]];
      assert DigitChars(v, base, baseLen) == rest + [base[v % baseLen]];
    } else {
      assert digits == [v];
      assert v % baseLen == v;
      assert DigitChars(v, base, baseLen) == [base[v]];
      assert expected == [base[v]];
    }
  }

  /** The characters `terminal_putnbr_base(n, base, base_len)` passes to
      `terminal_putchar`, in order. */
  function PutNbrBase(n: int, base: seq<char>, baseLen: nat): (out: seq<char>)
    requires IsInt32(n) && 2 <= baseLen <= |base|
    ensures n < 0 ==> |out| >= 2 && out[0] == '-'
    ensures n >= 0 ==> |out| >= 1
    ensures forall i :: (if n < 0 then 1 else 0) <= i < |out| ==> out[i] in base[..baseLen]
  {
    (if n < 0 then ['-'] else []) + DigitChars(Abs(n), base, baseLen)
  }

  /** The output is a minus sign exactly for a negative `n`, followed by the digits of
      |n| in the given base, most significant first and without leading zeros. */
  lemma PutNbrBaseSpec(n: int, base: seq<char>, baseLen: nat)
    requires IsInt32(n) && 2 <= baseLen <= |base|
    requires '-' !in base[..baseLen]
    ensures var out := PutNbrBase(n, base, baseLen);
            var digits := NbrDigits(Abs(n), baseLen);
            var sign := if n < 0 then 1 else 0;
            |out| == sign + |digits|
            && (out[0] == '-' <==> n < 0)
            && (forall i :: 0 <= i < |digits| ==> out[sign + i] == base[digits[i]])
            && DigitsValue(digits, baseLen) == Abs(n)
            && (Abs(n) < baseLen ==> |out| == sign + 1)
  {
    var digits := NbrDigits(Abs(n), baseLen);
    var out := PutNbrBase(n, base, baseLen);
    DigitCharsSpec(Abs(n), base, baseLen);
    if n >= 0 {
      assert out[0] == base[digits[0]];
      assert base[digits[0]] in base[..baseLen];
    }
  }

  /** `kmemset`: the first `num` bytes take `value`, the rest keep theirs. */
  method Kmemset(ptr: array<Int8>, value: Int8, num: nat)
    requires num <= ptr.Length
    modifies ptr
    ensures forall i :: 0 <= i < num ==> ptr[i] == value
    ensures forall i :: num <= i < ptr.Length ==> ptr[i] == old(ptr[i])
  {
    var i := 0;
    while i < num
      invariant i <= num
      invariant forall k :: 0 <= k < i ==> ptr[k] == value
      invariant forall k :: i <= k < ptr.Length ==> ptr[k] == old(ptr[k])
    {
      ptr[i] := value;
      i := i + 1;
    }
  }
}
