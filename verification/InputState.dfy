/** Which keys and buttons are held on the receiving side (crates/kmsync-core/src/input_state.rs). */
module InputState {
  import opened Events
  import opened Wrappers

  datatype Held = Held(keys: set<nat>, buttons: set<MouseButton>)

  const ALL_UP := Held({}, {})

  /** The effect of one event on what is held. */
  function After(h: Held, event: InputEvent): Held {
    match event
    case KeyInput(e) => h.(keys := if e.state == Pressed then h.keys + {e.key} else h.keys - {e.key})
    case MouseInput(Button(button, state)) =>
      h.(buttons := if state == Pressed then h.buttons + {button} else h.buttons - {button})
    case _ => h
  }

  /** The effect of a run of events. */
  function Replay(h: Held, events: seq<InputEvent>): Held {
    if events == [] then h else After(Replay(h, events[..|events| - 1]), events[|events| - 1])
  }

  lemma {:induction false} ReplayOfConcat(h: Held, a: seq<InputEvent>, b: seq<InputEvent>)
    ensures Replay(h, a + b) == Replay(Replay(h, a), b)
  {
    if b == [] {
      assert a + b == a;
    } else {
      ReplayOfConcat(h, a, b[..|b| - 1]);
      assert (a + b)[..|a + b| - 1] == a + b[..|b| - 1];
    }
  }

  function KeyRelease(k: Key): InputEvent {
    KeyInput(KeyEvent(k, Released, NO_MODIFIERS))
  }

  function ButtonRelease(b: MouseButton): InputEvent {
    MouseInput(Button(b, Released))
  }

  predicate IsKeyRelease(e: InputEvent) {
    e.KeyInput? && e == KeyRelease(e.key.key)
  }

  predicate IsButtonRelease(e: InputEvent) {
    e.MouseInput? && e.mouse.Button? && e == ButtonRelease(e.mouse.button)
  }

  /** `events` are releases of held keys and buttons, one for each and none twice. */
  ghost predicate ReleasesExactly(h: Held, events: seq<InputEvent>) {
    && (forall k: Key :: k in h.keys <==> KeyRelease(k) in events)
    && (forall b: MouseButton :: b in h.buttons <==> ButtonRelease(b) in events)
    && (forall e <- events :: IsKeyRelease(e) || IsButtonRelease(e))
    && (forall i, j :: 0 <= i < j < |events| ==> events[i] != events[j])
  }

  datatype Item = KeyItem(key: Key) | ButtonItem(button: MouseButton)

  /** What an event says of a key or a button: that it is down, that it is up, or nothing. */
  function Says(e: InputEvent, item: Item): Option<bool> {
    match (e, item)
    case (KeyInput(k), KeyItem(key)) => if k.key == key then Some(k.state == Pressed) else None
    case (MouseInput(Button(b, state)), ButtonItem(button)) => if b == button then Some(state == Pressed) else None
    case _ => None
  }

  predicate IsHeld(h: Held, item: Item) {
    match item
    case KeyItem(key) => key in h.keys
    case ButtonItem(button) => button in h.buttons
  }

  /** The last event that says something of the item, if there is one, says that it is down. */
  predicate PressedLast(events: seq<InputEvent>, item: Item) {
    exists i :: 0 <= i < |events| && Says(events[i], item) == Some(true)
                && forall j :: i < j < |events| ==> Says(events[j], item) == None
  }

  lemma PressedLastStep(before: seq<InputEvent>, last: InputEvent, item: Item)
    ensures PressedLast(before + [last], item) <==> Says(last, item) == Some(true)
                                                    || (Says(last, item) == None && PressedLast(before, item))
  {
    hide Says;
    var events := before + [last];
    assert events[|before|] == last;
    if PressedLast(before, item) && Says(last, item) == None {
      var i :| 0 <= i < |before| && Says(before[i], item) == Some(true)
               && forall j :: i < j < |before| ==> Says(before[j], item) == None;
      assert events[i] == before[i];
    }
    if PressedLast(events, item) {
      var i :| 0 <= i < |events| && Says(events[i], item) == Some(true)
               && forall j :: i < j < |events| ==> Says(events[j], item) == None;
      if i < |before| {
        assert before[i] == events[i];
        forall j | i < j < |before| ensures Says(before[j], item) == None {
          assert before[j] == events[j];
        }
      }
    }
  }

  lemma HeldStep(h: Held, e: InputEvent, item: Item)
    ensures IsHeld(After(h, e), item) <==> Says(e, item) == Some(true) || (Says(e, item) == None && IsHeld(h, item))
  {
  }

  /** After any run of events from all up, a key or a button is held exactly when the last event about it pressed it. */
  lemma {:induction false} HeldExactly(events: seq<InputEvent>, item: Item)
    ensures IsHeld(Replay(ALL_UP, events), item) <==> PressedLast(events, item)
  {
    if events != [] {
      var before, last := events[..|events| - 1], events[|events| - 1];
      HeldExactly(before, item);
      assert events == before + [last];
      PressedLastStep(before, last, item);
      HeldStep(Replay(ALL_UP, before), last, item);
      hide PressedLast, IsHeld, After, Says;
    }
  }

  /** After a run of releases, a key is held exactly when it was held before and not released. */
  lemma {:induction false} ReplayOfReleases(h: Held, events: seq<InputEvent>)
    requires forall e <- events :: IsKeyRelease(e) || IsButtonRelease(e)
    ensures forall k: nat :: k in Replay(h, events).keys <==> k in h.keys && !(IsKeyCode(k) && KeyRelease(k) in events)
    ensures forall b: MouseButton :: b in Replay(h, events).buttons <==> b in h.buttons && ButtonRelease(b) !in events
  {
    if events != [] {
      var before, last := events[..|events| - 1], events[|events| - 1];
      assert events == before + [last];
      assert last in events && forall e <- before :: e in events;
      ReplayOfReleases(h, before);
      forall k: nat
        ensures k in Replay(h, events).keys <==> k in h.keys && !(IsKeyCode(k) && KeyRelease(k) in events)
      {
        assert IsKeyCode(k) ==> (KeyRelease(k) in events <==> KeyRelease(k) in before || KeyRelease(k) == last);
        assert IsKeyRelease(last) ==> (k == last.key.key <==> IsKeyCode(k) && KeyRelease(k) == last);
      }
      forall b: MouseButton
        ensures b in Replay(h, events).buttons <==> b in h.buttons && ButtonRelease(b) !in events
      {
        assert ButtonRelease(b) in events <==> ButtonRelease(b) in before || ButtonRelease(b) == last;
        assert IsButtonRelease(last) ==> (b == last.mouse.button <==> ButtonRelease(b) == last);
      }
    }
  }

  lemma ReleasesTogether(h: Held, keys: seq<InputEvent>, buttons: seq<InputEvent>)
    requires forall k: Key :: k in h.keys <==> KeyRelease(k) in keys
    requires forall b: MouseButton :: b in h.buttons <==> ButtonRelease(b) in buttons
    requires (forall e <- keys :: IsKeyRelease(e)) && (forall e <- buttons :: IsButtonRelease(e))
    requires forall i, j :: 0 <= i < j < |keys| ==> keys[i] != keys[j]
    requires forall i, j :: 0 <= i < j < |buttons| ==> buttons[i] != buttons[j]
    ensures ReleasesExactly(h, keys + buttons)
  {
    var all := keys + buttons;
    forall k: Key ensures k in h.keys <==> KeyRelease(k) in all {
      assert KeyRelease(k) in buttons ==> IsButtonRelease(KeyRelease(k));
    }
    forall b: MouseButton ensures b in h.buttons <==> ButtonRelease(b) in all {
      assert ButtonRelease(b) in keys ==> IsKeyRelease(ButtonRelease(b));
    }
    forall i, j | 0 <= i < j < |all| ensures all[i] != all[j] {
      assert i < |keys| <= j ==> all[i] in keys && all[j] in buttons;
    }
  }

  /** Playing the releases leaves nothing held. */
  lemma ReleasesLeaveAllUp(h: Held, events: seq<InputEvent>)
    requires (forall k <- h.keys :: IsKeyCode(k)) && ReleasesExactly(h, events)
    ensures Replay(h, events) == ALL_UP
  {
    ReplayOfReleases(h, events);
    var after := Replay(h, events);
    assert forall k: nat :: k !in after.keys;
    assert forall b: MouseButton :: b !in after.buttons;
  }

  function ButtonIndex(b: MouseButton): nat {
    match b
    case Left => 0
    case Right => 1
    case Middle => 2
    case Back => 3
    case Forward => 4
  }

  const BUTTONS: seq<MouseButton> := [Left, Right, Middle, Back, Forward]

  class RemoteInputState {
    const pressedKeys: array<bool>
    const pressedButtons: array<bool>

    ghost predicate Valid()
      reads this, pressedKeys, pressedButtons
    {
      && pressedKeys.Length == KEY_CODE_SPACE && pressedButtons.Length == 5 && pressedKeys != pressedButtons
      && forall i :: 0 <= i < KEY_CODE_SPACE && pressedKeys[i] ==> IsKeyCode(i)
    }

    /** What the two arrays say is held. */
    ghost function View(): Held
      requires Valid()
      reads this, pressedKeys, pressedButtons
    {
      Held(set k: nat | k < KEY_CODE_SPACE && pressedKeys[k],
           set b: MouseButton | pressedButtons[ButtonIndex(b)])
    }

    constructor ()
      ensures Valid() && View() == ALL_UP && fresh(pressedKeys) && fresh(pressedButtons)
    {
      pressedKeys := new bool[KEY_CODE_SPACE](_ => false);
      pressedButtons := new bool[5](_ => false);
    }

    /** `RemoteInputState::apply`. */
    method Apply(event: InputEvent)
      requires Valid()
      modifies pressedKeys, pressedButtons
      ensures Valid() && View() == After(old(View()), event)
    {
      match event {
        case KeyInput(e) =>
          pressedKeys[e.key] := e.state == Pressed;
        case MouseInput(Button(button, state)) =>
          pressedButtons[ButtonIndex(button)] := state == Pressed;
        case _ =>
      }
    }

    /** `RemoteInputState::release_all`: every held key and button is released once, and nothing stays held. */
    method ReleaseAll() returns (releases: seq<InputEvent>)
      requires Valid()
      modifies pressedKeys, pressedButtons
      ensures Valid() && View() == ALL_UP
      ensures ReleasesExactly(old(View()), releases)
      ensures Replay(old(View()), releases) == ALL_UP
    {
      ghost var held := View();
      releases := ReleaseKeys();
      var buttons := ReleaseButtons();
      ReleasesTogether(held, releases, buttons);
      releases := releases + buttons;
      ReleasesLeaveAllUp(held, releases);
    }

    method ReleaseKeys() returns (releases: seq<InputEvent>)
      requires Valid()
      modifies pressedKeys
      ensures Valid() && View() == old(View()).(keys := {})
      ensures forall k: Key :: k in old(View()).keys <==> KeyRelease(k) in releases
      ensures forall e <- releases :: IsKeyRelease(e)
      ensures forall i, j :: 0 <= i < j < |releases| ==> releases[i] != releases[j]
    {
      releases := [];
      for index := 0 to KEY_CODE_SPACE
        invariant Valid()
        invariant forall i :: 0 <= i < index ==> !pressedKeys[i]
        invariant forall i :: index <= i < KEY_CODE_SPACE ==> pressedKeys[i] == old(pressedKeys[i])
        invariant forall e <- releases :: IsKeyRelease(e) && e.key.key < index
        invariant forall k: Key :: k < index ==> (KeyRelease(k) in releases <==> old(pressedKeys[k]))
        invariant forall i, j :: 0 <= i < j < |releases| ==> releases[i] != releases[j]
      {
        if pressedKeys[index] {
          pressedKeys[index] := false;
          if IsKeyCode(index) {
            releases := releases + [KeyRelease(index)];
          }
        }
      }
    }

    method ReleaseButtons() returns (releases: seq<InputEvent>)
      requires Valid()
      modifies pressedButtons
      ensures Valid() && View() == old(View()).(buttons := {})
      ensures forall b: MouseButton :: b in old(View()).buttons <==> ButtonRelease(b) in releases
      ensures forall e <- releases :: IsButtonRelease(e)
      ensures forall i, j :: 0 <= i < j < |releases| ==> releases[i] != releases[j]
    {
      releases := [];
      for n := 0 to 5
        invariant Valid()
        invariant forall b: MouseButton :: ButtonIndex(b) < n ==> !pressedButtons[ButtonIndex(b)]
        invariant forall b: MouseButton :: ButtonIndex(b) >= n ==>
                    pressedButtons[ButtonIndex(b)] == old(pressedButtons[ButtonIndex(b)])
        invariant forall e <- releases :: IsButtonRelease(e) && ButtonIndex(e.mouse.button) < n
        invariant forall b: MouseButton :: ButtonIndex(b) < n ==>
                    (ButtonRelease(b) in releases <==> old(pressedButtons[ButtonIndex(b)]))
        invariant forall i, j :: 0 <= i < j < |releases| ==> releases[i] != releases[j]
      {
        var button := BUTTONS[n];
        assert ButtonIndex(button) == n && forall b: MouseButton :: ButtonIndex(b) == n ==> b == button;
        if pressedButtons[ButtonIndex(button)] {
          pressedButtons[ButtonIndex(button)] := false;
          releases := releases + [ButtonRelease(button)];
        }
      }
    }
  }
}
