/** Keys, modifiers and input events (crates/kmsync-core/src/event.rs). */
module Events {
  import opened Bytes

  const KEY_CODE_SPACE: nat := 0x1100

  /** The codes for which `Key::from_u16` returns a key. */
  predicate IsKeyCode(code: nat) {
    4 <= code <= 49 || 51 <= code <= 99 || 103 <= code <= 115 || code == 0x88 || code == 0x89
    || code == 0x90 || code == 0x91 || 224 <= code <= 231 || code == 0x106f || code == 0x1070
    || 0x10b0 <= code <= 0x10b7 || code == 0x10cd || code == 0x10e2 || code == 0x10e9
    || code == 0x10ea || code == 0x10f0 || code == 0x10f1
  }

  /** A key is its code; every code is below KEY_CODE_SPACE. */
  type Key = code: nat | code < KEY_CODE_SPACE && IsKeyCode(code) witness 4

  const KEY_A: Key := 4
  const KEY_C: Key := 6
  const KEY_F: Key := 9
  const KEY_V: Key := 25
  const KEY_X: Key := 27
  const KEY_Y: Key := 28
  const KEY_Z: Key := 29
  const KEY_TAB: Key := 43
  const LEFT_CONTROL: Key := 224
  const LEFT_SHIFT: Key := 225
  const LEFT_ALT: Key := 226
  const LEFT_META: Key := 227
  const RIGHT_CONTROL: Key := 228
  const RIGHT_SHIFT: Key := 229
  const RIGHT_ALT: Key := 230
  const RIGHT_META: Key := 231
  const BRIGHTNESS_DOWN: Key := 0x106F
  const BRIGHTNESS_UP: Key := 0x1070
  const MEDIA_NEXT_TRACK: Key := 0x10B5
  const MEDIA_PREVIOUS_TRACK: Key := 0x10B6
  const MEDIA_PLAY_PAUSE: Key := 0x10CD
  const VOLUME_MUTE: Key := 0x10E2
  const VOLUME_UP: Key := 0x10E9
  const VOLUME_DOWN: Key := 0x10EA

  datatype OsKind = MacOs | Windows | Linux

  datatype Modifiers = Modifiers(control: bool, shift: bool, alt: bool, meta: bool)

  const NO_MODIFIERS := Modifiers(false, false, false, false)
  const ONLY_CONTROL := Modifiers(true, false, false, false)
  const ONLY_ALT := Modifiers(false, false, true, false)
  const ONLY_META := Modifiers(false, false, false, true)
  const META_SHIFT := Modifiers(false, true, false, true)

  function With(a: Modifiers, b: Modifiers): Modifiers {
    Modifiers(a.control || b.control, a.shift || b.shift, a.alt || b.alt, a.meta || b.meta)
  }

  function ModifierBits(m: Modifiers): (r: byte)
    ensures r < 16
  {
    (if m.control then 1 else 0) + (if m.shift then 2 else 0) + (if m.alt then 4 else 0) + (if m.meta then 8 else 0)
  }

  /** `Modifiers::from_bits`: only the low four bits count. */
  function ModifiersFromBits(b: byte): Modifiers {
    Modifiers(b % 2 == 1, b / 2 % 2 == 1, b / 4 % 2 == 1, b / 8 % 2 == 1)
  }

  datatype KeyState = Pressed | Released

  datatype KeyEvent = KeyEvent(key: Key, state: KeyState, modifiers: Modifiers)

  datatype MouseButton = Left | Right | Middle | Back | Forward

  /** An `f32` is kept as its 32-bit pattern. */
  type F32 = u32

  datatype MouseEvent =
    | Move(dx: F32, dy: F32)
    | Position(xRatio: F32, yRatio: F32)
    | Button(button: MouseButton, state: KeyState)

  datatype InputEvent =
    | KeyInput(key: KeyEvent)
    | MouseInput(mouse: MouseEvent)
    | ScrollInput(scrollDx: F32, scrollDy: F32)

  /** The codes below 232 that are no keys; above that there are only the keys of the consumer page. */
  lemma KeyCodesExactly(code: nat)
    ensures IsKeyCode(code)
       <==> if code < 0xE8
            then code !in [0, 1, 2, 3, 50, 100, 101, 102] && !(116 <= code < 136) && !(138 <= code < 144)
                 && !(146 <= code < 224)
            else code in [0x106F, 0x1070, 0x10B0, 0x10B1, 0x10B2, 0x10B3, 0x10B4, 0x10B5, 0x10B6, 0x10B7, 0x10CD,
                          0x10E2, 0x10E9, 0x10EA, 0x10F0, 0x10F1]
  {
  }
}
