/** The scancode step of `isr_keyboard` and `handle_extended_byte` (keyboard.c): the
    modifier flags it updates and the console action it asks for. */
module Decoder {
  import opened Vga
  import opened Keymap
  import opened Terminal

  /** The static flags of keyboard.c: both shift keys, their union, caps lock, and
      whether the next caps lock release turns caps lock off. */
  datatype Mods = Mods(lshift: bool, rshift: bool, shift: bool, maj: bool, rdyToDisableMaj: bool)

  /** The flags at boot: all false. */
  const InitialMods: Mods := Mods(false, false, false, false, false)

  /** `shift` is the union of the two shift keys. */
  predicate ShiftOk(m: Mods)
  {
    m.shift == (m.lshift || m.rshift)
  }

  /** `handle_extended_byte`: the action for the byte that follows 0xE0. Up and down
      have no effect (their handlers are commented out), nor has any other byte. */
  function ExtendedAction(code: Byte): (a: Action)
    ensures a != NoAction <==>
      code in {ExtendedEnterPress, DeletePress, CursorRightPress, CursorLeftPress}
    ensures !a.SwitchTo? && !a.InsertChar? && !a.Backspace?
  {
    if code == ExtendedEnterPress then Enter
    else if code == DeletePress then ForwardDelete
    else if code == CursorRightPress then CursorRight
    else if code == CursorLeftPress then CursorLeft
    else NoAction
  }

  /** The character the character branch inserts: the table entry for the shift
      state, or for the opposite shift state when caps lock is on and it is a letter. */
  function TypedChar(m: Mods, code: Byte): (c: char)
    ensures !m.maj ==> c == Lookup(code, m.shift)
    ensures c == Lookup(code, m.shift) || c == Lookup(code, !m.shift)
  {
    var c := Lookup(code, m.shift);
    if m.maj && IsAlpha(c) then Lookup(code, !m.shift) else c
  }

  /** `shift = lshift | rshift`, done after every shift press or release. */
  function WithUnion(m: Mods): Mods
  {
    m.(shift := m.lshift || m.rshift)
  }

  /** The shift and caps lock codes: the arms of the control-code switch that only
      update the flags. */
  predicate IsModifierCode(code: Byte)
  {
    code in {LShiftPress, RShiftPress, LShiftRelease, RShiftRelease, CapsLockPress, CapsLockRelease}
  }

  /** The flag updates of the control-code switch. Caps lock press sets `maj` only
      when no release is pending; caps lock release arms the next release or, when
      armed, clears both flags. Caps lock release does not fall through into the
      function-key arm (see CapsReleaseFallsThrough). */
  function ModifierStep(m: Mods, code: Byte): (r: Mods)
    ensures !IsModifierCode(code) ==> r == m
  {
    if code == LShiftPress then WithUnion(m.(lshift := true))
    else if code == RShiftPress then WithUnion(m.(rshift := true))
    else if code == LShiftRelease then WithUnion(m.(lshift := false))
    else if code == RShiftRelease then WithUnion(m.(rshift := false))
    else if code == CapsLockPress then
      (if !m.rdyToDisableMaj then m.(maj := true, rdyToDisableMaj := false) else m)
    else if code == CapsLockRelease then
      (if !m.rdyToDisableMaj then m.(rdyToDisableMaj := true)
       else m.(maj := false, rdyToDisableMaj := false))
    else m
  }

  /** The console action of the control-code switch: Enter, the extended marker,
      backspace and the function keys; every other code, the modifiers included,
      asks for nothing. */
  function ControlAction(code: Byte, next: Byte): (a: Action)
    ensures WfAction(a)
    ensures IsModifierCode(code) ==> a == NoAction
  {
    if code == EnterPress then Enter
    else if code == ExtendedByte then ExtendedAction(next)
    else if code == BackspacePress then Backspace
    else if F1Pressed <= code <= F10Pressed then SwitchTo(code - F1Pressed)
    else NoAction
  }

  /** The console update of each arm of the control-code switch. */
  lemma ControlActionArms(t: Term, code: Byte, next: Byte)
    requires Valid(t)
    ensures code == EnterPress ==> Perform(t, ControlAction(code, next)) == NewPrompt(t)
    ensures code == ExtendedByte ==> Perform(t, ControlAction(code, next)) == Perform(t, ExtendedAction(next))
    ensures code == BackspacePress ==> Perform(t, ControlAction(code, next)) == DeleteLast(t)
    ensures code != EnterPress && code != ExtendedByte && code != BackspacePress ==>
      Perform(t, ControlAction(code, next))
        == if F1Pressed <= code <= F10Pressed && code - F1Pressed != t.curr
           then Swap(t, code - F1Pressed) else t
  {
  }

  /** One call of `isr_keyboard` for the byte `code`; `next` is the byte read after
      an 0xE0 marker and is ignored otherwise. A code with a table character inserts
      it; the others go through the control-code switch. */
  function Decode(m: Mods, code: Byte, next: Byte): (r: (Mods, Action))
    ensures WfAction(r.1)
  {
    if Lookup(code, m.shift) != '\0' then (m, InsertChar(TypedChar(m, code)))
    else (ModifierStep(m, code), ControlAction(code, next))
  }

  /** The flags after a sequence of bytes, none of them an 0xE0 marker. */
  function DecodeAll(m: Mods, codes: seq<Byte>): Mods
    decreases |codes|
  {
    if codes == [] then m else DecodeAll(Decode(m, codes[0], 0).0, codes[1..])
  }

  // ------------------------------------------------------------------ modifiers

  /** Every shift press or release leaves `shift` equal to the union of the two keys,
      and no other byte touches the shift flags, so the union is an invariant. */
  lemma ShiftInvariant(m: Mods, code: Byte, next: Byte)
    ensures code in {LShiftPress, RShiftPress, LShiftRelease, RShiftRelease} ==>
      ShiftOk(Decode(m, code, next).0)
    ensures ShiftOk(m) ==> ShiftOk(Decode(m, code, next).0)
  {
    if code == LShiftPress || code == RShiftPress {
      ControlCodesUnmapped(code, m.shift);
    } else if code == LShiftRelease || code == RShiftRelease {
      ShiftReleasesUnmapped(code, m.shift);
    }
  }

  lemma ShiftReleasesUnmapped(code: Byte, shifted: bool)
    requires code in {LShiftRelease, RShiftRelease, CapsLockRelease}
    ensures Lookup(code, shifted) == '\0'
  {
  }

  /** Only the shift and caps lock codes change the flags, and the shift codes only
      the shift flags. */
  lemma ModsFrame(m: Mods, code: Byte, next: Byte)
    ensures !(code in {LShiftPress, RShiftPress, LShiftRelease, RShiftRelease, CapsLockPress, CapsLockRelease})
      ==> Decode(m, code, next).0 == m
    ensures Decode(m, code, next).0.maj != m.maj ==> code in {CapsLockPress, CapsLockRelease}
    ensures Decode(m, code, next).0.shift != m.shift ==>
      code in {LShiftPress, RShiftPress, LShiftRelease, RShiftRelease}
  {
  }

  /** Caps lock press sets `maj` exactly when no release is pending; a first release
      arms the next one, which clears both flags. */
  lemma CapsLockSteps(m: Mods, next: Byte)
    ensures var p := Decode(m, CapsLockPress, next).0;
            (m.rdyToDisableMaj ==> p == m)
            && (!m.rdyToDisableMaj ==> p.maj && !p.rdyToDisableMaj)
    ensures var r := Decode(m, CapsLockRelease, next).0;
            (!m.rdyToDisableMaj ==> r.rdyToDisableMaj && r.maj == m.maj)
            && (m.rdyToDisableMaj ==> !r.maj && !r.rdyToDisableMaj)
  {
    ControlCodesUnmapped(CapsLockPress, m.shift);
    ShiftReleasesUnmapped(CapsLockRelease, m.shift);
  }

  /** From rest (no release pending): press, release, release and press, release,
      press, release both end with caps lock off and nothing pending; press, release
      alone leaves it on. */
  lemma {:induction false} CapsLockSequences(m: Mods)
    requires !m.rdyToDisableMaj
    ensures var r := DecodeAll(m, [CapsLockPress, CapsLockRelease]);
            r.maj && r.rdyToDisableMaj
    ensures var r := DecodeAll(m, [CapsLockPress, CapsLockRelease, CapsLockRelease]);
            !r.maj && !r.rdyToDisableMaj
    ensures var r := DecodeAll(m, [CapsLockPress, CapsLockRelease, CapsLockPress, CapsLockRelease]);
            !r.maj && !r.rdyToDisableMaj
  {
    var m1 := Decode(m, CapsLockPress, 0).0;
    CapsLockSteps(m, 0);
    var m2 := Decode(m1, CapsLockRelease, 0).0;
    CapsLockSteps(m1, 0);
    var m3 := Decode(m2, CapsLockRelease, 0).0;
    CapsLockSteps(m2, 0);
    var m4 := Decode(m2, CapsLockPress, 0).0;
    var m5 := Decode(m4, CapsLockRelease, 0).0;
    CapsLockSteps(m4, 0);
    assert DecodeAll(m, [CapsLockPress, CapsLockRelease]) == DecodeAll(m1, [CapsLockRelease]) == DecodeAll(m2, []);
    assert DecodeAll(m, [CapsLockPress, CapsLockRelease, CapsLockRelease])
      == DecodeAll(m1, [CapsLockRelease, CapsLockRelease]) == DecodeAll(m2, [CapsLockRelease]) == DecodeAll(m3, []);
    assert DecodeAll(m, [CapsLockPress, CapsLockRelease, CapsLockPress, CapsLockRelease])
      == DecodeAll(m1, [CapsLockRelease, CapsLockPress, CapsLockRelease])
      == DecodeAll(m2, [CapsLockPress, CapsLockRelease]) == DecodeAll(m4, [CapsLockRelease]) == DecodeAll(m5, []);
  }

  // ---------------------------------------------------------------- characters

  /** On a letter key the inserted character is the uppercase letter exactly when one
      of shift and caps lock is on, the lowercase one otherwise. */
  lemma LetterCase(m: Mods, code: Byte, next: Byte)
    requires IsLetterCode(code)
    ensures var lower := QwertyTable[code].0;
            Decode(m, code, next).1 == InsertChar(if m.shift != m.maj then ToUpper(lower) else lower)
            && Decode(m, code, next).0 == m
  {
    LetterRows(code);
  }

  /** On any other key with a character, caps lock changes nothing: the character is
      the table entry for the shift state. */
  lemma NonLetterIgnoresCaps(m: Mods, code: Byte, next: Byte)
    requires code < |QwertyTable| && !IsLetterCode(code)
    requires Lookup(code, m.shift) != '\0'
    ensures Decode(m, code, next).1 == InsertChar(Lookup(code, m.shift))
    ensures Lookup(code, m.shift) != '\0' && !IsAlpha(Lookup(code, m.shift))
  {
    LetterRows(code);
  }

  /** The character branch never inserts NUL, and every control press reaches the
      control-code switch. */
  lemma CharacterBranch(m: Mods, code: Byte, next: Byte)
    ensures Decode(m, code, next).1.InsertChar? ==> Decode(m, code, next).1.c != '\0'
    ensures IsControlPress(code) ==> !Decode(m, code, next).1.InsertChar?
  {
    if code < |QwertyTable| {
      LetterRows(code);
    }
    if IsControlPress(code) {
      ControlCodesUnmapped(code, m.shift);
    }
  }

  // ---------------------------------------------------------------- sessions

  /** F1..F10 select sessions 0..9, in order, and nothing else selects a session. */
  lemma FunctionKeys(m: Mods, code: Byte, next: Byte)
    ensures F1Pressed <= code <= F10Pressed ==>
      Decode(m, code, next) == (m, SwitchTo(code - F1Pressed)) && code - F1Pressed < MaxTty
    ensures Decode(m, code, next).1.SwitchTo? ==> F1Pressed <= code <= F10Pressed
  {
    if F1Pressed <= code <= F10Pressed {
      ControlCodesUnmapped(code, m.shift);
    }
  }

  /** Enter and keypad Enter both redraw the prompt; 0xE0 followed by another byte
      selects the arrows and delete. */
  lemma EnterKeys(m: Mods)
    ensures Decode(m, EnterPress, 0) == (m, Enter)
    ensures Decode(m, ExtendedByte, ExtendedEnterPress) == (m, Enter)
    ensures Decode(m, ExtendedByte, DeletePress) == (m, ForwardDelete)
    ensures Decode(m, ExtendedByte, CursorUpPress) == (m, NoAction)
    ensures Decode(m, ExtendedByte, CursorDownPress) == (m, NoAction)
  {
    ControlCodesUnmapped(EnterPress, m.shift);
  }

  // ------------------------------------------------------------------ finding

  /** `isr_keyboard` as written: the character branch, else the switch. The table
      read that comes first is taken to give NUL past the table's last row, where the
      source reads outside the table (see DispatchedCodesOutsideTable). */
  function DecodeAsWritten(m: Mods, code: Byte, next: Byte): (r: (Mods, Action))
    ensures r.1.SwitchTo? ==> r.1.target < 0x100
    ensures r.1.SwitchTo? ==> code == CapsLockRelease || F1Pressed <= code <= F10Pressed
  {
    var c := Lookup(code, m.shift);
    if c != '\0' then
      (m, InsertChar(if m.maj && IsAlpha(c) then Lookup(code, !m.shift) else c))
    else SwitchAsWritten(m, code, next)
  }

  /** The switch of `isr_keyboard` as written, arm by arm in the source's order. The
      caps lock release arm has no `break`: after updating the flags it runs the
      function-key arm, whose target `scan_code - F1_PRESSED` is computed in a
      `uint8_t`. That arm's `current_tty != new_tty` test is the one `Perform` makes. */
  function SwitchAsWritten(m: Mods, code: Byte, next: Byte): (r: (Mods, Action))
    ensures r.1.SwitchTo? ==> r.1.target < 0x100
    ensures r.1.SwitchTo? ==> code == CapsLockRelease || F1Pressed <= code <= F10Pressed
  {
    if code == EnterPress then (m, Enter)
    else if code == ExtendedByte then (m, ExtendedAction(next))
    else if code == BackspacePress then (m, Backspace)
    else if code == LShiftPress then (WithUnion(m.(lshift := true)), NoAction)
    else if code == RShiftPress then (WithUnion(m.(rshift := true)), NoAction)
    else if code == LShiftRelease then (WithUnion(m.(lshift := false)), NoAction)
    else if code == RShiftRelease then (WithUnion(m.(rshift := false)), NoAction)
    else if code == CapsLockPress then
      (if !m.rdyToDisableMaj then m.(maj := true, rdyToDisableMaj := false) else m, NoAction)
    else if code == CapsLockRelease then
      var m' := if !m.rdyToDisableMaj then m.(rdyToDisableMaj := true)
                else m.(maj := false, rdyToDisableMaj := false);
      (m', SwitchTo((code - F1Pressed) % 0x100))
    else if code in FunctionKeyLabels then (m, SwitchTo((code - F1Pressed) % 0x100))
    else (m, NoAction)
  }

  /** Away from caps lock release the switch as written and the corrected one agree,
      and on every code they update the flags alike. */
  lemma SwitchAgrees(m: Mods, code: Byte, next: Byte)
    ensures SwitchAsWritten(m, code, next).0 == ModifierStep(m, code)
    ensures code != CapsLockRelease ==> SwitchAsWritten(m, code, next).1 == ControlAction(code, next)
  {
    FunctionKeyCodes();
    assert code in FunctionKeyLabels <==> F1Pressed <= code <= F10Pressed;
  }

  /** So away from caps lock release `isr_keyboard` as written and the corrected
      decoder agree, and on every byte they update the flags alike. */
  lemma AsWrittenAgrees(m: Mods, code: Byte, next: Byte)
    ensures DecodeAsWritten(m, code, next).0 == Decode(m, code, next).0
    ensures code != CapsLockRelease ==> DecodeAsWritten(m, code, next) == Decode(m, code, next)
  {
    SwitchAgrees(m, code, next);
  }

  /** As written, every caps lock release asks to switch to session 127, which the
      ten sessions do not have; the corrected decoder switches nowhere. */
  lemma CapsReleaseFallsThrough(m: Mods, next: Byte)
    ensures DecodeAsWritten(m, CapsLockRelease, next).1 == SwitchTo(127)
    ensures !WfAction(DecodeAsWritten(m, CapsLockRelease, next).1)
    ensures Decode(m, CapsLockRelease, next).1 == NoAction
  {
    ShiftReleasesUnmapped(CapsLockRelease, m.shift);
  }

  /** The first thing `isr_keyboard` does is the table read, before the switch: for
      the releases of shift and caps lock and for the 0xE0 marker, which the switch
      handles, that read indexes past the table's last row (row 127). */
  lemma DispatchedCodesOutsideTable(code: Byte)
    requires code in {LShiftRelease, RShiftRelease, CapsLockRelease, ExtendedByte}
    ensures |QwertyTable| == 128 && code >= |QwertyTable|
    ensures Lookup(code, false) == '\0' && Lookup(code, true) == '\0'
  {
    TableSize();
  }
}
