/** Console constants of kernel.h and the pure display helpers of kernel.c:
    attribute and cell packing, and the NUL-terminated string length. */
module Vga {

  /** An 8-bit unsigned value (`uint8_t`, `unsigned char`). */
  type Byte = x: int | 0 <= x < 0x100
  /** A text-mode attribute byte (`uint8_t`): foreground and background colour. */
  type Attr = bv8
  /** One of the sixteen text-mode colours of `enum vga_color`. */
  type VgaColor = c: bv8 | c < 16

  const Width: nat := 80
  const Height: nat := 25
  const ScreenSize: nat := Width * Height
  const MaxTty: nat := 10
  const Prompt: string := "kfs> "
  const PromptLen: nat := 5
  const Empty: char := ' '

  const Black: VgaColor := 0
  const Blue: VgaColor := 1
  const Green: VgaColor := 2
  const Cyan: VgaColor := 3
  const Red: VgaColor := 4
  const Magenta: VgaColor := 5
  const Brown: VgaColor := 6
  const LightGrey: VgaColor := 7
  const DarkGrey: VgaColor := 8
  const LightBlue: VgaColor := 9
  const LightGreen: VgaColor := 10
  const LightCyan: VgaColor := 11
  const LightRed: VgaColor := 12
  const LightMagenta: VgaColor := 13
  const LightBrown: VgaColor := 14
  const White: VgaColor := 15

  /** A display cell: the character byte and its attribute byte. */
  datatype Cell = Cell(ch: char, color: Attr)

  /** `vga_entry_color`: foreground in the low nibble, background in the high one. */
  function VgaEntryColor(fg: VgaColor, bg: VgaColor): (attr: Attr)
    ensures attr & 0xF == fg && attr >> 4 == bg
  {
    fg | (bg << 4)
  }

  /** DEFAULT_COLOR: light grey on black. */
  const DefaultColor: Attr := VgaEntryColor(LightGrey, Black)
  /** The colour `terminal_prompt` draws the prompt text in. */
  const PromptColor: Attr := VgaEntryColor(LightGreen, Black)

  /** `vga_entry`: the character in the low byte, the attribute in the high byte. */
  function VgaEntry(uc: bv8, color: Attr): (entry: bv16)
    ensures entry & 0xFF == uc as bv16 && entry >> 8 == color as bv16
  {
    (uc as bv16) | ((color as bv16) << 8)
  }

  /** `n` is the length of the C string held in `s`: the index of its first NUL. */
  ghost predicate IsStrlen(s: seq<char>, n: int)
  {
    0 <= n < |s| && s[n] == '\0' && forall i :: 0 <= i < n ==> s[i] != '\0'
  }

  /** `strlen`: counts the characters before the terminating NUL. */
  method Strlen(s: seq<char>) returns (len: nat)
    requires '\0' in s
    ensures IsStrlen(s, len)
  {
    len := 0;
    while s[len] != '\0'
      invariant len < |s|
      invariant '\0' in s[len..]
      invariant forall i :: 0 <= i < len ==> s[i] != '\0'
      decreases |s| - len
    {
      assert s[len..] == [s[len]] + s[len + 1..];
      len := len + 1;
    }
  }

  /** A string holds at most one C string: its length is determined. */
  lemma StrlenUnique(s: seq<char>, n: int, m: int)
    requires IsStrlen(s, n) && IsStrlen(s, m)
    ensures n == m
  {
  }

  /** The characters of the C string held in `s`: everything before its first NUL. */
  function CString(s: seq<char>): (r: seq<char>)
    requires '\0' in s
    ensures IsStrlen(s, |r|) && r == s[..|r|]
  {
    if s[0] == '\0' then []
    else
      assert s == [s[0]] + s[1..];
      [s[0]] + CString(s[1..])
  }

  /** The prompt as a C string measures TERMINAL_PROMPT_LEN characters. */
  lemma PromptStrlen(n: int)
    ensures IsStrlen(Prompt + "\0", n) <==> n == PromptLen
    ensures CString(Prompt + "\0") == Prompt
  {
    var r := CString(Prompt + "\0");
    if IsStrlen(Prompt + "\0", n) {
      StrlenUnique(Prompt + "\0", n, PromptLen);
    }
    StrlenUnique(Prompt + "\0", |r|, PromptLen);
  }
}
