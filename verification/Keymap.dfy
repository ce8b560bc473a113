/** Key tables and the transformation of input events (crates/kmsync-core/src/keymap.rs). */
module Keymap {
  import opened Events
  import opened InputState
  import opened Wrappers

  datatype FunctionKeyMode = Standard | Media
  datatype KeyboardMode = Physical | Text

  datatype KeyMapping = KeyMapping(from: Key, to: Key)

  datatype Profile = Profile(
    sourceOs: OsKind,
    targetOs: OsKind,
    keyMappings: seq<KeyMapping>,
    functionKeyMode: FunctionKeyMode,
    keyboardMode: KeyboardMode,
    scrollX: F32,
    scrollY: F32,
    pointer: F32)

  datatype MappingError = DuplicateSourceKey(key: Key)

  datatype CompiledProfile = CompiledProfile(
    sourceOs: OsKind,
    targetOs: OsKind,
    functionKeyMode: FunctionKeyMode,
    keyboardMode: KeyboardMode,
    keyMap: seq<Key>,
    scrollX: F32,
    scrollY: F32,
    pointer: F32)

  predicate IsCompiled(p: CompiledProfile) {
    |p.keyMap| == KEY_CODE_SPACE
  }

  // ---- Compiling ----

  predicate DistinctSources(mappings: seq<KeyMapping>) {
    forall i, j :: 0 <= i < j < |mappings| ==> mappings[i].from != mappings[j].from
  }

  predicate HasSource(mappings: seq<KeyMapping>, from: Key) {
    exists m <- mappings :: m.from == from
  }

  /** What a table entry stands for: the mapping of the key if there is one, else the key itself. */
  predicate MapsTo(mappings: seq<KeyMapping>, from: Key, to: Key) {
    if HasSource(mappings, from) then KeyMapping(from, to) in mappings else to == from
  }

  lemma NothingMapped()
    ensures DistinctSources([]) && forall k: Key :: !HasSource([], k) && MapsTo([], k, k)
  {
  }

  /** What one more mapping of a new source adds. */
  lemma MapsToOneMore(before: seq<KeyMapping>, m: KeyMapping, k: Key, to: Key)
    ensures HasSource(before + [m], k) <==> HasSource(before, k) || k == m.from
    ensures !HasSource(before, m.from) ==>
              (MapsTo(before + [m], k, to) <==> if k == m.from then to == m.to else MapsTo(before, k, to))
  {
    var all := before + [m];
    assert all[|before|] == m && forall b <- before :: b in all;
  }

  lemma OneMoreSource(before: seq<KeyMapping>, m: KeyMapping)
    ensures DistinctSources(before + [m]) <==> DistinctSources(before) && !HasSource(before, m.from)
  {
    var all := before + [m];
    if DistinctSources(all) {
      forall i, j | 0 <= i < j < |before| ensures before[i].from != before[j].from {
        assert all[i] == before[i] && all[j] == before[j];
      }
      forall b | b in before ensures b.from != m.from {
        var i :| 0 <= i < |before| && before[i] == b;
        assert all[i] == b && all[|before|] == m;
      }
    }
  }

  lemma DistinctPrefix(mappings: seq<KeyMapping>, n: nat)
    requires n <= |mappings|
    ensures DistinctSources(mappings) ==> DistinctSources(mappings[..n])
  {
  }

  /** `CompiledProfile::compile`: the first key with two mappings is an error. */
  method Compile(profile: Profile) returns (r: Result<CompiledProfile, MappingError>)
    ensures r.Success? <==> DistinctSources(profile.keyMappings)
    ensures r.Success? ==>
              var p := r.value;
              IsCompiled(p) && p.sourceOs == profile.sourceOs && p.targetOs == profile.targetOs
              && p.functionKeyMode == profile.functionKeyMode && p.keyboardMode == profile.keyboardMode
              && p.scrollX == profile.scrollX && p.scrollY == profile.scrollY && p.pointer == profile.pointer
              && forall k: Key :: MapsTo(profile.keyMappings, k, p.keyMap[k])
    ensures r.Failure? ==>
              exists n :: 0 <= n < |profile.keyMappings| && profile.keyMappings[n].from == r.error.key
                          && DistinctSources(profile.keyMappings[..n])
                          && HasSource(profile.keyMappings[..n], r.error.key)
  {
    hide MapsTo, DistinctSources, HasSource;
    var keyMap := new Key[KEY_CODE_SPACE](_ => KEY_A);
    for index := 0 to KEY_CODE_SPACE
      invariant forall k: Key :: k < index ==> keyMap[k] == k
    {
      if IsKeyCode(index) {
        keyMap[index] := index;
      }
    }

    var seen := new bool[KEY_CODE_SPACE](_ => false);
    var mappings := profile.keyMappings;
    NothingMapped();
    for n := 0 to |mappings|
      invariant DistinctSources(mappings[..n])
      invariant forall k: Key :: seen[k] <==> HasSource(mappings[..n], k)
      invariant forall k: Key :: MapsTo(mappings[..n], k, keyMap[k])
    {
      var mapping := mappings[n];
      assert mappings[..n + 1] == mappings[..n] + [mapping];
      OneMoreSource(mappings[..n], mapping);
      DistinctPrefix(mappings, n + 1);
      if seen[mapping.from] {
        return Failure(DuplicateSourceKey(mapping.from));
      }
      forall k: Key {
        MapsToOneMore(mappings[..n], mapping, k, if k == mapping.from then mapping.to else keyMap[k]);
      }
      seen[mapping.from] := true;
      keyMap[mapping.from] := mapping.to;
    }
    assert mappings[..|mappings|] == mappings;
    return Success(CompiledProfile(profile.sourceOs, profile.targetOs, profile.functionKeyMode, profile.keyboardMode,
                                   keyMap[..], profile.scrollX, profile.scrollY, profile.pointer));
  }

  // ---- Shortcuts ----

  datatype ShortcutAction = Copy | Paste | Cut | Undo | Redo | SelectAll | Find | SwitchApp

  function PrimaryModifier(os: OsKind): Modifiers {
    if os == MacOs then ONLY_META else ONLY_CONTROL
  }

  function FromPrimaryKey(k: Key): Option<ShortcutAction> {
    if k == KEY_C then Some(Copy)
    else if k == KEY_V then Some(Paste)
    else if k == KEY_X then Some(Cut)
    else if k == KEY_Z then Some(Undo)
    else if k == KEY_A then Some(SelectAll)
    else if k == KEY_F then Some(Find)
    else None
  }

  function ActionOf(os: OsKind, e: KeyEvent): Option<ShortcutAction> {
    if os == MacOs then
      if e.key == KEY_TAB && e.modifiers == ONLY_META then Some(SwitchApp)
      else if e.key == KEY_Z && e.modifiers == META_SHIFT then Some(Redo)
      else if e.modifiers != ONLY_META then None
      else FromPrimaryKey(e.key)
    else
      if e.key == KEY_TAB && e.modifiers == ONLY_ALT then Some(SwitchApp)
      else if e.key == KEY_Y && e.modifiers == ONLY_CONTROL then Some(Redo)
      else if e.modifiers != ONLY_CONTROL then None
      else FromPrimaryKey(e.key)
  }

  function RedoKey(os: OsKind): Key {
    if os == MacOs then KEY_Z else KEY_Y
  }

  function ActionEvent(action: ShortcutAction, os: OsKind, state: KeyState): KeyEvent {
    match action
    case Copy => KeyEvent(KEY_C, state, PrimaryModifier(os))
    case Paste => KeyEvent(KEY_V, state, PrimaryModifier(os))
    case Cut => KeyEvent(KEY_X, state, PrimaryModifier(os))
    case Undo => KeyEvent(KEY_Z, state, PrimaryModifier(os))
    case Redo => KeyEvent(RedoKey(os), state, if os == MacOs then META_SHIFT else ONLY_CONTROL)
    case SelectAll => KeyEvent(KEY_A, state, PrimaryModifier(os))
    case Find => KeyEvent(KEY_F, state, PrimaryModifier(os))
    case SwitchApp => KeyEvent(KEY_TAB, state, if os == MacOs then ONLY_META else ONLY_ALT)
  }

  // ---- Transforming ----

  /** The media keys on the function row: F1, F2 and F7 to F12. */
  function MediaKey(k: Key): Option<Key> {
    match k
    case 58 => Some(0x106f)
    case 59 => Some(0x1070)
    case 64 => Some(0x10b6)
    case 65 => Some(0x10cd)
    case 66 => Some(0x10b5)
    case 67 => Some(0x10e2)
    case 68 => Some(0x10ea)
    case 69 => Some(0x10e9)
    case _ => None
  }

  function TransformKey(p: CompiledProfile, k: Key): Key
    requires IsCompiled(p)
  {
    if p.functionKeyMode == Media && MediaKey(k).Some? then MediaKey(k).value else p.keyMap[k]
  }

  function ModifierForKey(k: Key): Modifiers {
    if k == LEFT_CONTROL || k == RIGHT_CONTROL then ONLY_CONTROL
    else if k == LEFT_SHIFT || k == RIGHT_SHIFT then Modifiers(false, true, false, false)
    else if k == LEFT_ALT || k == RIGHT_ALT then ONLY_ALT
    else if k == LEFT_META || k == RIGHT_META then ONLY_META
    else NO_MODIFIERS
  }

  function TransformModifiers(p: CompiledProfile, m: Modifiers): Modifiers
    requires IsCompiled(p)
  {
    var afterShift := if m.shift then Modifiers(false, true, false, false) else NO_MODIFIERS;
    var afterControl :=
      if m.control then With(afterShift, ModifierForKey(TransformKey(p, LEFT_CONTROL))) else afterShift;
    var afterAlt := if m.alt then With(afterControl, ModifierForKey(TransformKey(p, LEFT_ALT))) else afterControl;
    if m.meta then With(afterAlt, ModifierForKey(TransformKey(p, LEFT_META))) else afterAlt
  }

  function TransformKeyEvent(p: CompiledProfile, e: KeyEvent): KeyEvent
    requires IsCompiled(p)
  {
    var action := if p.keyboardMode == Text then ActionOf(p.sourceOs, e) else None;
    if action.Some? then ActionEvent(action.value, p.targetOs, e.state)
    else if e.modifiers == NO_MODIFIERS && p.functionKeyMode == Media && MediaKey(e.key).Some? then
      e.(key := MediaKey(e.key).value)
    else KeyEvent(TransformKey(p, e.key), e.state, TransformModifiers(p, e.modifiers))
  }

  /** `scale` is the product of two floating-point numbers. */
  function Transform(p: CompiledProfile, scale: (F32, F32) -> F32, event: InputEvent): InputEvent
    requires IsCompiled(p)
  {
    match event
    case KeyInput(e) => KeyInput(TransformKeyEvent(p, e))
    case ScrollInput(dx, dy) => ScrollInput(scale(dx, p.scrollX), scale(dy, p.scrollY))
    case MouseInput(Move(dx, dy)) => MouseInput(Move(scale(dx, p.pointer), scale(dy, p.pointer)))
    case MouseInput(_) => event
  }

  function TransformAll(p: CompiledProfile, scale: (F32, F32) -> F32, events: seq<InputEvent>): seq<InputEvent>
    requires IsCompiled(p)
  {
    seq(|events|, i requires 0 <= i < |events| => Transform(p, scale, events[i]))
  }

  // ---- What shortcuts and modifiers mean ----

  /** In media mode F1 and F2 change the brightness, and F7 to F12 play and set the volume; F3 to F6 stay. */
  lemma MediaKeysExactly(k: Key)
    ensures var row: seq<Key> := [58, 59, 64, 65, 66, 67, 68, 69];
            var media: seq<Key> := [BRIGHTNESS_DOWN, BRIGHTNESS_UP, MEDIA_PREVIOUS_TRACK, MEDIA_PLAY_PAUSE,
                                    MEDIA_NEXT_TRACK, VOLUME_MUTE, VOLUME_DOWN, VOLUME_UP];
            if k in row then exists i :: 0 <= i < 8 && row[i] == k && MediaKey(k) == Some(media[i])
            else MediaKey(k) == None
  {
    var row: seq<Key> := [58, 59, 64, 65, 66, 67, 68, 69];
    assert row[0] == 58 && row[1] == 59 && row[2] == 64 && row[3] == 65;
    assert row[4] == 66 && row[5] == 67 && row[6] == 68 && row[7] == 69;
  }

  /** A key stands for the modifier of its kind, on either side of the keyboard. */
  lemma ModifierForKeyExactly(k: Key)
    ensures ModifierForKey(k)
         == Modifiers(k == LEFT_CONTROL || k == RIGHT_CONTROL, k == LEFT_SHIFT || k == RIGHT_SHIFT,
                      k == LEFT_ALT || k == RIGHT_ALT, k == LEFT_META || k == RIGHT_META)
  {
  }

  /** Some modifier held at the source, other than shift, has its left key mapped to one of these. */
  predicate HeldAs(p: CompiledProfile, m: Modifiers, left: Key, right: Key)
    requires IsCompiled(p)
  {
    || (m.control && (TransformKey(p, LEFT_CONTROL) == left || TransformKey(p, LEFT_CONTROL) == right))
    || (m.alt && (TransformKey(p, LEFT_ALT) == left || TransformKey(p, LEFT_ALT) == right))
    || (m.meta && (TransformKey(p, LEFT_META) == left || TransformKey(p, LEFT_META) == right))
  }

  /** The modifiers that the three held ones add up to. */
  lemma TransformAdds(p: CompiledProfile, m: Modifiers)
    requires IsCompiled(p)
    ensures var c := ModifierForKey(TransformKey(p, LEFT_CONTROL));
            var a := ModifierForKey(TransformKey(p, LEFT_ALT));
            var t := ModifierForKey(TransformKey(p, LEFT_META));
            TransformModifiers(p, m)
              == Modifiers((m.control && c.control) || (m.alt && a.control) || (m.meta && t.control),
                           m.shift || (m.control && c.shift) || (m.alt && a.shift) || (m.meta && t.shift),
                           (m.control && c.alt) || (m.alt && a.alt) || (m.meta && t.alt),
                           (m.control && c.meta) || (m.alt && a.meta) || (m.meta && t.meta))
  {
    hide TransformKey, ModifierForKey;
  }

  /** Which modifiers are held on the target: shift stays shift, the others follow the keys they are mapped to. */
  lemma HeldModifiersExactly(p: CompiledProfile, m: Modifiers)
    requires IsCompiled(p)
    ensures TransformModifiers(p, m)
         == Modifiers(HeldAs(p, m, LEFT_CONTROL, RIGHT_CONTROL), m.shift || HeldAs(p, m, LEFT_SHIFT, RIGHT_SHIFT),
                      HeldAs(p, m, LEFT_ALT, RIGHT_ALT), HeldAs(p, m, LEFT_META, RIGHT_META))
  {
    hide TransformKey, ModifierForKey, TransformModifiers;
    TransformAdds(p, m);
    ModifierForKeyExactly(TransformKey(p, LEFT_CONTROL));
    ModifierForKeyExactly(TransformKey(p, LEFT_ALT));
    ModifierForKeyExactly(TransformKey(p, LEFT_META));
  }

  /** A key without a shortcut goes to what the table or, in media mode, the function row makes of it. */
  lemma KeyGoesWhere(p: CompiledProfile, e: KeyEvent)
    requires IsCompiled(p) && (p.keyboardMode == Physical || ActionOf(p.sourceOs, e) == None)
    ensures var t := TransformKeyEvent(p, e);
            && t.state == e.state
            && t.key == (if p.functionKeyMode == Media && MediaKey(e.key).Some? then MediaKey(e.key).value
                         else p.keyMap[e.key])
            && t.modifiers == TransformModifiers(p, e.modifiers)
  {
    assert TransformModifiers(p, NO_MODIFIERS) == NO_MODIFIERS;
    hide ActionOf, MediaKey, TransformModifiers;
  }

  /** Scrolling is scaled by its own factor on each axis, movement by one factor on both; clicks stay as they are. */
  lemma PointerEventsScale(p: CompiledProfile, scale: (F32, F32) -> F32, event: InputEvent)
    requires IsCompiled(p) && !event.KeyInput?
    ensures var t := Transform(p, scale, event);
            if event.ScrollInput? then
              t.ScrollInput? && t.scrollDx == scale(event.scrollDx, p.scrollX)
              && t.scrollDy == scale(event.scrollDy, p.scrollY)
            else if event.mouse.Move? then
              t.MouseInput? && t.mouse.Move? && t.mouse.dx == scale(event.mouse.dx, p.pointer)
              && t.mouse.dy == scale(event.mouse.dy, p.pointer)
            else t == event
  {
  }

  /** On either kind of system the chord of an action is recognised as that action, and as nothing else. */
  lemma ShortcutIsRecognisedExactly(os: OsKind, action: ShortcutAction, e: KeyEvent)
    ensures ActionOf(os, e) == Some(action) <==> e == ActionEvent(action, os, e.state)
  {
  }

  lemma ActionEventState(action: ShortcutAction, os: OsKind, state: KeyState)
    ensures ActionEvent(action, os, state).state == state
  {
  }

  /** In text mode the chord of an action becomes its chord on the target. */
  lemma ActionCarriesOver(p: CompiledProfile, action: ShortcutAction, state: KeyState)
    requires IsCompiled(p) && p.keyboardMode == Text
    ensures TransformKeyEvent(p, ActionEvent(action, p.sourceOs, state)) == ActionEvent(action, p.targetOs, state)
  {
    hide ActionOf, ActionEvent, TransformKey, TransformModifiers, MediaKey;
    ActionEventState(action, p.sourceOs, state);
    ShortcutIsRecognisedExactly(p.sourceOs, action, ActionEvent(action, p.sourceOs, state));
  }

  /** In text mode an action on one system becomes the same action on the other, and comes back as the chord it was. */
  lemma ShortcutRoundTrip(p: CompiledProfile, back: CompiledProfile, e: KeyEvent)
    requires IsCompiled(p) && IsCompiled(back) && p.keyboardMode == Text && back.keyboardMode == Text
    requires back.sourceOs == p.targetOs && back.targetOs == p.sourceOs
    requires ActionOf(p.sourceOs, e).Some?
    ensures ActionOf(p.targetOs, TransformKeyEvent(p, e)) == ActionOf(p.sourceOs, e)
    ensures TransformKeyEvent(back, TransformKeyEvent(p, e)) == e
  {
    hide ActionOf, ActionEvent, TransformKeyEvent;
    var action := ActionOf(p.sourceOs, e).value;
    ActionEventState(action, p.targetOs, e.state);
    ShortcutIsRecognisedExactly(p.sourceOs, action, e);
    ShortcutIsRecognisedExactly(p.targetOs, action, ActionEvent(action, p.targetOs, e.state));
    ActionCarriesOver(p, action, e.state);
    ActionCarriesOver(back, action, e.state);
  }

  /** `p` sends the modifier of `k` to that of another key, and `back` sends it back. */
  predicate SendsBack(p: CompiledProfile, back: CompiledProfile, k: Key)
    requires IsCompiled(p) && IsCompiled(back)
  {
    exists j <- [LEFT_CONTROL, LEFT_ALT, LEFT_META] ::
      && ModifierForKey(TransformKey(p, k)) == ModifierForKey(j)
      && ModifierForKey(TransformKey(back, j)) == ModifierForKey(k)
  }

  /** Tables that permute control, alt and meta in opposite ways undo each other on every set of held modifiers. */
  lemma ModifiersRoundTrip(p: CompiledProfile, back: CompiledProfile, m: Modifiers)
    requires IsCompiled(p) && IsCompiled(back)
    requires SendsBack(p, back, LEFT_CONTROL) && SendsBack(p, back, LEFT_ALT) && SendsBack(p, back, LEFT_META)
    ensures TransformModifiers(back, TransformModifiers(p, m)) == m
  {
    assert ModifierForKey(LEFT_CONTROL) == ONLY_CONTROL;
    assert ModifierForKey(LEFT_ALT) == ONLY_ALT;
    assert ModifierForKey(LEFT_META) == ONLY_META;
    hide TransformKey, ModifierForKey;
  }

  // ---- No stuck keys ----

  /** Every source run that ends with everything up also ends so on the target. */
  ghost predicate NeverSticks(p: CompiledProfile, scale: (F32, F32) -> F32)
    requires IsCompiled(p)
  {
    forall events :: Replay(ALL_UP, events) == ALL_UP ==> Replay(ALL_UP, TransformAll(p, scale, events)) == ALL_UP
  }

  /**
   The check a caller can make: outside text mode, always; in text mode, each
   shortcut presses on the target the key that its source key is mapped to.
   */
  predicate ShortcutsAgree(p: CompiledProfile)
    requires IsCompiled(p)
  {
    p.keyboardMode == Text ==>
      && (forall k <- [KEY_C, KEY_V, KEY_X, KEY_Z, KEY_A, KEY_F, KEY_TAB] :: TransformKey(p, k) == k)
      && TransformKey(p, RedoKey(p.sourceOs)) == RedoKey(p.targetOs)
  }

  /** The target key depends on the source key alone, not on the modifiers held. */
  predicate KeyIsStable(p: CompiledProfile, e: KeyEvent)
    requires IsCompiled(p)
  {
    TransformKeyEvent(p, e).key == TransformKey(p, e.key)
  }

  lemma AgreeingAction(p: CompiledProfile, action: ShortcutAction, state: KeyState)
    requires IsCompiled(p) && ShortcutsAgree(p) && p.keyboardMode == Text
    ensures TransformKey(p, ActionEvent(action, p.sourceOs, state).key) == ActionEvent(action, p.targetOs, state).key
  {
    hide TransformKey;
  }

  lemma AgreeingShortcutsAreStable(p: CompiledProfile, e: KeyEvent)
    requires IsCompiled(p) && ShortcutsAgree(p)
    ensures KeyIsStable(p, e)
  {
    if p.keyboardMode == Text && ActionOf(p.sourceOs, e).Some? {
      var action := ActionOf(p.sourceOs, e).value;
      ShortcutIsRecognisedExactly(p.sourceOs, action, e);
      hide ActionOf, ActionEvent, TransformKey, TransformKeyEvent, ShortcutsAgree;
      ActionCarriesOver(p, action, e.state);
      AgreeingAction(p, action, e.state);
    } else {
      hide ActionOf, ShortcutsAgree, TransformModifiers;
    }
  }

  /** A held target key always comes from a held source key; the buttons are the same. */
  predicate Follows(p: CompiledProfile, source: Held, target: Held)
    requires IsCompiled(p)
  {
    && target.buttons == source.buttons
    && forall t <- target.keys :: exists k <- source.keys :: IsKeyCode(k) && TransformKey(p, k) == t
  }

  lemma TransformKeepsState(p: CompiledProfile, e: KeyEvent)
    requires IsCompiled(p)
    ensures TransformKeyEvent(p, e).state == e.state
  {
    hide ActionOf, TransformKey, TransformModifiers;
  }

  lemma FollowsStep(p: CompiledProfile, scale: (F32, F32) -> F32, source: Held, target: Held, event: InputEvent)
    requires IsCompiled(p) && ShortcutsAgree(p) && Follows(p, source, target)
    ensures Follows(p, After(source, event), After(target, Transform(p, scale, event)))
  {
    if event.KeyInput? {
      var e := event.key;
      AgreeingShortcutsAreStable(p, e);
      TransformKeepsState(p, e);
      hide TransformKeyEvent, TransformKey, ShortcutsAgree;
      var source', target' := After(source, event), After(target, Transform(p, scale, event));
      forall t | t in target'.keys ensures exists k <- source'.keys :: IsKeyCode(k) && TransformKey(p, k) == t {
        if t in target.keys && t != TransformKey(p, e.key) {
          var k :| k in source.keys && IsKeyCode(k) && TransformKey(p, k) == t;
          assert k in source'.keys;
        } else {
          assert e.key in source'.keys;
        }
      }
    }
  }

  lemma {:induction false} FollowsRun(p: CompiledProfile, scale: (F32, F32) -> F32, events: seq<InputEvent>)
    requires IsCompiled(p) && ShortcutsAgree(p)
    ensures Follows(p, Replay(ALL_UP, events), Replay(ALL_UP, TransformAll(p, scale, events)))
  {
    if events != [] {
      var before, last := events[..|events| - 1], events[|events| - 1];
      FollowsRun(p, scale, before);
      FollowsStep(p, scale, Replay(ALL_UP, before), Replay(ALL_UP, TransformAll(p, scale, before)), last);
      assert TransformAll(p, scale, events)[..|events| - 1] == TransformAll(p, scale, before);
      hide Follows, Transform, ShortcutsAgree;
    }
  }

  /** A press under a shortcut's modifiers and a release without them. */
  function PressThenRelease(k: Key, m: Modifiers): seq<InputEvent> {
    [KeyInput(KeyEvent(k, Pressed, m)), KeyInput(KeyEvent(k, Released, NO_MODIFIERS))]
  }

  lemma UnstableKeySticks(p: CompiledProfile, scale: (F32, F32) -> F32, k: Key, m: Modifiers)
    requires IsCompiled(p) && !KeyIsStable(p, KeyEvent(k, Pressed, m))
    ensures !NeverSticks(p, scale)
  {
    var events := PressThenRelease(k, m);
    var press, release := TransformKeyEvent(p, events[0].key), TransformKeyEvent(p, events[1].key);
    TransformKeepsState(p, events[0].key);
    TransformKeepsState(p, events[1].key);
    UnmodifiedIsStable(p, events[1].key);
    assert TransformAll(p, scale, events) == [KeyInput(press), KeyInput(release)];
    hide TransformKeyEvent, TransformKey, Replay, TransformAll;
    PressAndRelease(events[0].key, events[1].key);
    PressAndRelease(press, release);
  }

  /** No chord is recognised without modifiers. */
  lemma UnmodifiedIsStable(p: CompiledProfile, e: KeyEvent)
    requires IsCompiled(p) && e.modifiers == NO_MODIFIERS
    ensures KeyIsStable(p, e)
  {
    assert ActionOf(p.sourceOs, e) == None;
    hide ActionOf, TransformModifiers;
  }

  lemma PressAndRelease(press: KeyEvent, release: KeyEvent)
    requires press.state == Pressed && release.state == Released
    ensures Replay(ALL_UP, [KeyInput(press), KeyInput(release)]) == ALL_UP <==> press.key == release.key
  {
    ReplayOfTwo(KeyInput(press), KeyInput(release));
    hide Replay;
  }

  lemma ReplayOfTwo(a: InputEvent, b: InputEvent)
    ensures Replay(ALL_UP, [a, b]) == After(After(ALL_UP, a), b)
  {
    assert [a, b][..1] == [a] && [a][..0] == [];
    assert Replay(ALL_UP, [a]) == After(ALL_UP, a);
  }

  /** A shortcut whose keys on the two systems the table does not connect. */
  lemma DisagreeingAction(p: CompiledProfile) returns (action: ShortcutAction)
    requires IsCompiled(p) && !ShortcutsAgree(p)
    ensures TransformKey(p, ActionEvent(action, p.sourceOs, Pressed).key)
         != ActionEvent(action, p.targetOs, Pressed).key
  {
    hide TransformKey;
    if TransformKey(p, RedoKey(p.sourceOs)) != RedoKey(p.targetOs) {
      action := Redo;
    } else {
      var k :| k in [KEY_C, KEY_V, KEY_X, KEY_Z, KEY_A, KEY_F, KEY_TAB] && TransformKey(p, k) != k;
      action := if k == KEY_TAB then SwitchApp else FromPrimaryKey(k).value;
    }
  }

  lemma DisagreeingShortcutIsUnstable(p: CompiledProfile) returns (k: Key, m: Modifiers)
    requires IsCompiled(p) && !ShortcutsAgree(p)
    ensures !KeyIsStable(p, KeyEvent(k, Pressed, m))
  {
    var action := DisagreeingAction(p);
    var e := ActionEvent(action, p.sourceOs, Pressed);
    k, m := e.key, e.modifiers;
    assert e == KeyEvent(k, Pressed, m);
    hide TransformKeyEvent, TransformKey, ActionEvent;
    ActionCarriesOver(p, action, Pressed);
  }

  /** No run leaves a key stuck exactly when the shortcuts agree with the key table. */
  lemma NeverSticksExactly(p: CompiledProfile, scale: (F32, F32) -> F32)
    requires IsCompiled(p)
    ensures NeverSticks(p, scale) <==> ShortcutsAgree(p)
  {
    if ShortcutsAgree(p) {
      forall events | Replay(ALL_UP, events) == ALL_UP
        ensures Replay(ALL_UP, TransformAll(p, scale, events)) == ALL_UP
      {
        FollowsRun(p, scale, events);
      }
    } else {
      var k, m := DisagreeingShortcutIsUnstable(p);
      UnstableKeySticks(p, scale, k, m);
    }
  }

  /** In physical mode nothing ever sticks, whatever the key table and the function row do. */
  lemma PhysicalNeverSticks(p: CompiledProfile, scale: (F32, F32) -> F32)
    requires IsCompiled(p) && p.keyboardMode == Physical
    ensures NeverSticks(p, scale)
  {
    NeverSticksExactly(p, scale);
  }

  /** From macOS to another system text mode can always leave a key stuck: Z would have to be both Z and Y there. */
  lemma MacTextModeSticks(p: CompiledProfile, scale: (F32, F32) -> F32)
    requires IsCompiled(p) && p.keyboardMode == Text && p.sourceOs == MacOs && p.targetOs != MacOs
    ensures !NeverSticks(p, scale)
  {
    NeverSticksExactly(p, scale);
  }
}
