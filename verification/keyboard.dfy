/**
 * The PS/2 keyboard interrupt handler without its port read: one scancode
 * (scan code set 1) moves a two-bit modifier status and may print one byte.
 *
 * Status bit 0 is "left shift held", bit 1 is "caps lock on".  The byte the
 * handler passes to `putchar` comes from one of two 59-entry tables
 * (scancodes 0x00..0x3A).  Three entries of the upper-case table are
 * written as the non-ASCII character constants for the pound sign, e-grave
 * and c-cedilla; each is two UTF-8 bytes, and a multi-character constant
 * stored into a `char` keeps its last byte, so they hold 0xA3, 0xA8 and 0xA7.
 */
module Keyboard {
  import opened Options

  const KEY_RELEASED_MASK: bv8 := 0x80
  const LEFT_SHIFT_PRESSED: bv8 := 0x2A
  const LEFT_SHIFT_RELEASED: bv8 := 0xAA
  const CAPS_LOCK_PRESSED: bv8 := 0x3A

  const SHIFT_BIT: bv8 := 0x01
  const CAPS_BIT: bv8 := 0x02

  const LOWERCASE: seq<bv8> := [
      0x00, 0x1B, 0x31, 0x32, 0x33, 0x34, 0x35, 0x36, 0x37, 0x38,
      0x39, 0x30, 0x2D, 0x3D, 0x08, 0x09, 0x71, 0x77, 0x65, 0x72,
      0x74, 0x79, 0x75, 0x69, 0x6F, 0x70, 0x5B, 0x5D, 0x0A, 0x00,
      0x61, 0x73, 0x64, 0x66, 0x67, 0x68, 0x6A, 0x6B, 0x6C, 0x3B,
      0x27, 0x60, 0x00, 0x5C, 0x7A, 0x78, 0x63, 0x76, 0x62, 0x6E,
      0x6D, 0x2C, 0x2E, 0x2F, 0x00, 0x2A, 0x00, 0x20, 0x00]

  const UPPERCASE: seq<bv8> := [
      0x00, 0x1B, 0x21, 0x22, 0xA3, 0x24, 0x25, 0x26, 0x2F, 0x28,
      0x29, 0x3D, 0x2D, 0x3D, 0x08, 0x09, 0x51, 0x57, 0x45, 0x52,
      0x54, 0x59, 0x55, 0x49, 0x4F, 0x50, 0xA8, 0x2A, 0x0A, 0x00,
      0x41, 0x53, 0x44, 0x46, 0x47, 0x48, 0x4A, 0x4B, 0x4C, 0xA7,
      0x27, 0x60, 0x00, 0x5C, 0x5A, 0x58, 0x43, 0x56, 0x42, 0x4E,
      0x4D, 0x3B, 0x3A, 0x5F, 0x00, 0x2A, 0x00, 0x20, 0x00]

  /** The new status and the byte handed to `putchar`, if any. */
  datatype Step = Step(status: bv8, printed: Option<bv8>)

  predicate Released(sc: bv8)
  {
    sc & KEY_RELEASED_MASK != 0
  }

  /**
   * The scancodes the handler can process: every release, and the presses
   * the tables cover.  A press of 0x3B..0x7F would index past both tables.
   */
  predicate Handled(sc: bv8)
  {
    Released(sc) || (sc as int) < |LOWERCASE|
  }

  /** Only the shift and caps-lock bits are ever set. */
  predicate StatusOk(status: bv8)
  {
    status & !(SHIFT_BIT | CAPS_BIT) == 0
  }

  /** `keyboard_main` after the `inb`: one scancode in, one status and maybe one byte out. */
  function KeyboardStep(status: bv8, sc: bv8): (r: Step)
    requires Handled(sc)
    ensures StatusOk(status) ==> StatusOk(r.status)
    ensures r.printed.Some? <==> !Released(sc) && sc != LEFT_SHIFT_PRESSED && sc != CAPS_LOCK_PRESSED
  {
    if Released(sc) then
      if sc == LEFT_SHIFT_RELEASED then Step(status & !SHIFT_BIT, None)
      else Step(status, None)
    else if sc == LEFT_SHIFT_PRESSED then Step(status | SHIFT_BIT, None)
    else if sc == CAPS_LOCK_PRESSED then Step(status ^ CAPS_BIT, None)
    else if status & (SHIFT_BIT | CAPS_BIT) != 0 then Step(status, Some(UPPERCASE[sc]))
    else Step(status, Some(LOWERCASE[sc]))
  }

  /** A run of scancodes, one interrupt each. */
  function Run(status: bv8, scs: seq<bv8>): (r: bv8)
    requires forall i :: 0 <= i < |scs| ==> Handled(scs[i])
    decreases |scs|
  {
    if scs == [] then status else Run(KeyboardStep(status, scs[0]).status, scs[1..])
  }

  // ---------------------------------------------------------------------
  // Properties.

  lemma TablesCover()
    ensures |LOWERCASE| == 59 && |UPPERCASE| == 59
    ensures forall sc: bv8 :: Handled(sc) <==> sc >= 0x80 || sc < 0x3B
  {
  }

  /** Pressing left shift sets bit 0 and prints nothing. */
  lemma ShiftPress(status: bv8)
    ensures KeyboardStep(status, LEFT_SHIFT_PRESSED).status & SHIFT_BIT == SHIFT_BIT
    ensures KeyboardStep(status, LEFT_SHIFT_PRESSED).status & CAPS_BIT == status & CAPS_BIT
    ensures KeyboardStep(status, LEFT_SHIFT_PRESSED).printed == None
  {
  }

  /** Releasing left shift clears bit 0 and leaves caps lock alone. */
  lemma ShiftRelease(status: bv8)
    ensures KeyboardStep(status, LEFT_SHIFT_RELEASED).status & SHIFT_BIT == 0
    ensures KeyboardStep(status, LEFT_SHIFT_RELEASED).status & CAPS_BIT == status & CAPS_BIT
    ensures KeyboardStep(status, LEFT_SHIFT_RELEASED).printed == None
  {
  }

  /** Pressing and releasing shift leaves no trace in the caps-lock bit. */
  lemma ShiftPressRelease(status: bv8)
    requires StatusOk(status) && status & SHIFT_BIT == 0
    ensures Run(status, [LEFT_SHIFT_PRESSED, LEFT_SHIFT_RELEASED]) == status
  {
    var held := KeyboardStep(status, LEFT_SHIFT_PRESSED).status;
    assert [LEFT_SHIFT_PRESSED, LEFT_SHIFT_RELEASED][1..] == [LEFT_SHIFT_RELEASED];
    assert Run(held, [LEFT_SHIFT_RELEASED]) == Run(KeyboardStep(held, LEFT_SHIFT_RELEASED).status, []);
  }

  /** A caps-lock press flips bit 1 and nothing else. */
  lemma CapsToggles(status: bv8)
    ensures KeyboardStep(status, CAPS_LOCK_PRESSED).status & CAPS_BIT != status & CAPS_BIT
    ensures KeyboardStep(status, CAPS_LOCK_PRESSED).status & !CAPS_BIT == status & !CAPS_BIT
    ensures KeyboardStep(status, CAPS_LOCK_PRESSED).printed == None
  {
  }

  /** Two caps-lock presses restore the status. */
  lemma CapsTwice(status: bv8)
    ensures Run(status, [CAPS_LOCK_PRESSED, CAPS_LOCK_PRESSED]) == status
  {
    var toggled := KeyboardStep(status, CAPS_LOCK_PRESSED).status;
    assert [CAPS_LOCK_PRESSED, CAPS_LOCK_PRESSED][1..] == [CAPS_LOCK_PRESSED];
    assert Run(toggled, [CAPS_LOCK_PRESSED]) == Run(KeyboardStep(toggled, CAPS_LOCK_PRESSED).status, []);
  }

  /** Any other release changes nothing and prints nothing. */
  lemma OtherRelease(status: bv8, sc: bv8)
    requires Released(sc) && sc != LEFT_SHIFT_RELEASED
    ensures KeyboardStep(status, sc) == Step(status, None)
  {
  }

  /**
   * Any other press prints from the upper-case table when shift or caps
   * lock is on, and from the lower-case table otherwise; the two modifiers
   * are not told apart and do not cancel each other.
   */
  lemma PressPrints(status: bv8, sc: bv8)
    requires !Released(sc) && (sc as int) < |LOWERCASE|
    requires sc != LEFT_SHIFT_PRESSED && sc != CAPS_LOCK_PRESSED
    ensures KeyboardStep(status, sc).status == status
    ensures status & SHIFT_BIT != 0 || status & CAPS_BIT != 0 ==>
      KeyboardStep(status, sc).printed == Some(UPPERCASE[sc])
    ensures status & SHIFT_BIT == 0 && status & CAPS_BIT == 0 ==>
      KeyboardStep(status, sc).printed == Some(LOWERCASE[sc])
  {
  }

  /** Over any run of interrupts the status keeps to bits 0 and 1. */
  lemma {:induction false} RunKeepsStatusOk(status: bv8, scs: seq<bv8>)
    requires StatusOk(status)
    requires forall i :: 0 <= i < |scs| ==> Handled(scs[i])
    ensures StatusOk(Run(status, scs))
    decreases |scs|
  {
    if scs != [] {
      RunKeepsStatusOk(KeyboardStep(status, scs[0]).status, scs[1..]);
    }
  }
}
