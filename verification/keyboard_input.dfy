/**
 * gambaterm/keyboard_input.py: the key tables, the getter that fires console
 * events for newly pressed keys and maps held keys to buttons, and the fold
 * of Xlib XInput2 events into the set of pressed keysyms.
 */
module KeyboardInput {
  import opened Common
  import opened Console
  import opened Keysyms

  /** get_xlib_input_mapping. */
  const XlibInputMapping: map<int, Input> := map[
    XK_Up := Up, XK_Down := Down, XK_Left := Left, XK_Right := Right,
    XK_f := A, XK_v := A, XK_space := A,
    XK_d := B, XK_c := B, XK_Alt_L := B, XK_Alt_R := B,
    XK_Return := Start, XK_Control_R := Start,
    XK_Shift_R := Select, XK_Delete := Select]

  /** get_xlib_event_mapping. */
  const XlibEventMapping: map<int, Event> := map[
    XK_0 := SelectState(0), XK_1 := SelectState(1), XK_2 := SelectState(2),
    XK_3 := SelectState(3), XK_4 := SelectState(4), XK_5 := SelectState(5),
    XK_6 := SelectState(6), XK_7 := SelectState(7), XK_8 := SelectState(8),
    XK_9 := SelectState(9), XK_l := LoadState, XK_k := SaveState]

  /** get_keyboard_input_mapping (key names of the portable backend). */
  const KeyboardInputMapping: map<string, Input> := map[
    "up" := Up, "down" := Down, "left" := Left, "right" := Right,
    "f" := A, "v" := A, "space" := A,
    "d" := B, "c" := B, "alt" := B, "alt_r" := B,
    "enter" := Start, "ctrl_r" := Start,
    "shift_r" := Select, "delete" := Select]

  /** get_keyboard_event_mapping. */
  const KeyboardEventMapping: map<string, Event> := map[
    "0" := SelectState(0), "1" := SelectState(1), "2" := SelectState(2),
    "3" := SelectState(3), "4" := SelectState(4), "5" := SelectState(5),
    "6" := SelectState(6), "7" := SelectState(7), "8" := SelectState(8),
    "9" := SelectState(9), "l" := LoadState, "k" := SaveState]

  /** The events a sequence of keys fires, in order; keys without an event are skipped. */
  function EventsOf<K>(mapping: map<K, Event>, keys: seq<K>): seq<Event>
  {
    if keys == [] then []
    else EventsOf(mapping, keys[..|keys| - 1])
         + (if keys[|keys| - 1] in mapping then [mapping[keys[|keys| - 1]]] else [])
  }

  /** Keys without an event mapping fire nothing. */
  lemma {:induction false} UnmappedKeysFireNothing<K>(mapping: map<K, Event>, keys: seq<K>)
    requires forall j :: 0 <= j < |keys| ==> keys[j] !in mapping
    ensures EventsOf(mapping, keys) == []
  {
    if keys != [] {
      UnmappedKeysFireNothing(mapping, keys[..|keys| - 1]);
    }
  }

  /** Every fired event is the event of one of the keys. */
  lemma {:induction false} EventsComeFromKeys<K>(mapping: map<K, Event>, keys: seq<K>)
    ensures forall e :: e in EventsOf(mapping, keys) ==>
              exists j :: 0 <= j < |keys| && keys[j] in mapping && mapping[keys[j]] == e
  {
    if keys != [] {
      var init := keys[..|keys| - 1];
      EventsComeFromKeys(mapping, init);
      forall e | e in EventsOf(mapping, keys)
        ensures exists j :: 0 <= j < |keys| && keys[j] in mapping && mapping[keys[j]] == e
      {
        if e in EventsOf(mapping, init) {
          var j :| 0 <= j < |init| && init[j] in mapping && mapping[init[j]] == e;
          assert keys[j] == init[j];
        } else {
          assert keys[|keys| - 1] in mapping && mapping[keys[|keys| - 1]] == e;
        }
      }
    }
  }

  /** A visiting order of the empty set is empty. */
  lemma NoKeysNoOrder<K>(order: seq<K>, keys: set<K>)
    requires multiset(order) == multiset(keys)
    requires keys == {}
    ensures order == []
  {
    assert multiset(keys) == multiset{};
    assert |order| == |multiset(order)|;
  }

  /** Moving one key from the unvisited set to the end of the visiting order. */
  lemma VisitStep<K>(order: seq<K>, todo: set<K>, k: K)
    requires k in todo
    ensures multiset(order + [k]) + multiset(todo - {k}) == multiset(order) + multiset(todo)
  {
    assert multiset(todo) == multiset(todo - {k}) + multiset{k};
  }

  /**
   * The `get_input` closure (and the controller's `get_gb_input`): it remembers
   * the keys pressed at the previous call, fires the console event of each
   * newly pressed key, and returns the buttons of the keys held now.
   */
  class PressedTracker<K(==)> {
    const inputMapping: map<K, Input>
    const eventMapping: map<K, Event>
    const console: GameboyColor
    var currentPressed: set<K>

    constructor(inputMapping: map<K, Input>, eventMapping: map<K, Event>, console: GameboyColor)
      ensures this.inputMapping == inputMapping && this.eventMapping == eventMapping
      ensures this.console == console && currentPressed == {}
    {
      this.inputMapping := inputMapping;
      this.eventMapping := eventMapping;
      this.console := console;
      currentPressed := {};
    }

    /**
     * One call with the snapshot `get_pressed()` returns. `order` is the order in
     * which the set of newly pressed keys was visited; `fired` the events handled.
     */
    method GetInput(snapshot: set<K>) returns (inputs: set<Input>, fired: seq<Event>, ghost order: seq<K>)
      modifies this, console
      ensures currentPressed == snapshot
      ensures inputs == Pressing(inputMapping, snapshot)
      ensures multiset(order) == multiset(snapshot - old(currentPressed))
      ensures fired == EventsOf(eventMapping, order)
      ensures snapshot <= old(currentPressed) ==> fired == []
      ensures console.selected == SlotAfterAll(old(console.selected), fired)
      ensures console.requests == old(console.requests) + RequestsFor(old(console.selected), fired)
    {
      var oldPressed := currentPressed;
      currentPressed := snapshot;
      var todo := currentPressed - oldPressed;
      fired, order := [], [];
      while todo != {}
        invariant todo <= snapshot - oldPressed
        invariant multiset(order) + multiset(todo) == multiset(snapshot - oldPressed)
        invariant fired == EventsOf(eventMapping, order)
        invariant currentPressed == snapshot
        invariant console.selected == SlotAfterAll(old(console.selected), fired)
        invariant console.requests == old(console.requests) + RequestsFor(old(console.selected), fired)
        decreases |todo|
      {
        var k :| k in todo;
        if k in eventMapping {
          RequestsForAppend(old(console.selected), fired, eventMapping[k]);
          console.HandleEvent(eventMapping[k]);
          fired := fired + [eventMapping[k]];
        }
        assert (order + [k])[..|order|] == order;
        VisitStep(order, todo, k);
        order := order + [k];
        todo := todo - {k};
      }
      inputs := Pressing(inputMapping, currentPressed);
      if snapshot <= oldPressed {
        assert snapshot - oldPressed == {};
        assert multiset(snapshot - oldPressed) == multiset{};
        assert |order| == |multiset(order)| == 0;
      }
    }
  }

  /** XInput2 event types the fold tells apart. */
  datatype XiEventType = KeyPress | KeyRelease | FocusIn | FocusOut | OtherType

  /**
   * An X event as the fold sees it: the extension opcode if the event has one,
   * its type, the keysym of its keycode (looked up with no modifiers) and its flags.
   */
  datatype XEvent = XEvent(extension: Option<int>, evtype: XiEventType, keysym: int, flags: bv32)

  /** The key-repeat bit of an XInput2 key event's flags. */
  const RepeatFlag: bv32 := 0x10000

  /** The state `get_pressed` keeps between calls. */
  datatype KeyState = KeyState(pressed: set<int>, focused: bool)

  /** The effect of one pending event, for the XInput extension opcode `major`. */
  function ApplyEvent(st: KeyState, ev: XEvent, major: int): (r: KeyState)
    ensures r.pressed <= st.pressed + {ev.keysym}
    ensures r == KeyState({}, false) || st.pressed - {ev.keysym} <= r.pressed
  {
    if ev.extension.None? || ev.extension.value != major then st
    else if ev.evtype == FocusOut then KeyState({}, false)
    else if ev.evtype == FocusIn then st.(focused := true)
    else if !st.focused then st
    else
      var isPressed := ev.evtype == KeyPress && ev.flags & RepeatFlag == 0;
      var isReleased := ev.evtype == KeyRelease;
      var added := if isPressed then st.pressed + {ev.keysym} else st.pressed;
      st.(pressed := if isReleased then added - {ev.keysym} else added)
  }

  /** The effect of a batch of pending events, in order. */
  function ApplyEvents(st: KeyState, evs: seq<XEvent>, major: int): KeyState
  {
    if evs == [] then st else ApplyEvent(ApplyEvents(st, evs[..|evs| - 1], major), evs[|evs| - 1], major)
  }

  /** An event that changes the focus for our extension. */
  predicate IsFocusChange(ev: XEvent, major: int)
  {
    ev.extension == Some(major) && (ev.evtype == FocusIn || ev.evtype == FocusOut)
  }

  /** Per-event rules of the fold. */
  lemma EventRules(st: KeyState, ev: XEvent, major: int)
    ensures ev.extension != Some(major) ==> ApplyEvent(st, ev, major) == st
    ensures ev.extension == Some(major) && ev.evtype == FocusOut ==> ApplyEvent(st, ev, major) == KeyState({}, false)
    ensures ev.extension == Some(major) && ev.evtype == KeyPress && ev.flags & RepeatFlag != 0
            ==> ApplyEvent(st, ev, major) == st
    ensures ev.extension == Some(major) && ev.evtype == KeyRelease
            ==> ApplyEvent(st, ev, major).pressed == (if st.focused then st.pressed - {ev.keysym} else st.pressed)
    ensures ev.extension == Some(major) && ev.evtype == KeyPress && ev.flags & RepeatFlag == 0 && st.focused
            ==> ApplyEvent(st, ev, major).pressed == st.pressed + {ev.keysym}
  {
  }

  /** While the window is unfocused and the focus does not change, key events leave the state alone. */
  lemma {:induction false} UnfocusedIgnoresKeys(st: KeyState, evs: seq<XEvent>, major: int)
    requires !st.focused
    requires forall j :: 0 <= j < |evs| ==> !IsFocusChange(evs[j], major)
    ensures ApplyEvents(st, evs, major) == st
  {
    if evs != [] {
      UnfocusedIgnoresKeys(st, evs[..|evs| - 1], major);
    }
  }

  /** After losing the focus no key is pressed until the focus comes back. */
  lemma {:induction false} FocusLossReleasesAll(st: KeyState, evs: seq<XEvent>, major: int)
    requires forall j :: 0 <= j < |evs| ==> !IsFocusChange(evs[j], major)
    ensures ApplyEvents(st, [XEvent(Some(major), FocusOut, 0, 0)] + evs, major) == KeyState({}, false)
  {
    var out := XEvent(Some(major), FocusOut, 0, 0);
    if evs == [] {
      assert [out] + evs == [out];
      assert [out][..0] == [];
    } else {
      var init := evs[..|evs| - 1];
      FocusLossReleasesAll(st, init, major);
      assert ([out] + evs)[..|evs|] == [out] + init;
      UnfocusedIgnoresKeys(KeyState({}, false), [evs[|evs| - 1]], major);
      assert [evs[|evs| - 1]][..0] == [];
    }
  }

  /** Events of other extensions, or without one, leave the state unchanged. */
  lemma {:induction false} ForeignEventsIgnored(st: KeyState, evs: seq<XEvent>, major: int)
    requires forall j :: 0 <= j < |evs| ==> evs[j].extension != Some(major)
    ensures ApplyEvents(st, evs, major) == st
  {
    if evs != [] {
      ForeignEventsIgnored(st, evs[..|evs| - 1], major);
    }
  }

  /** The `pressed` set and `focused` flag of xlib_key_pressed_context, and its `get_pressed`. */
  class XlibKeyState {
    const major: int
    var pressed: set<int>
    var focused: bool

    constructor(major: int)
      ensures this.major == major && pressed == {} && focused
    {
      this.major := major;
      pressed := {};
      focused := true;
    }

    /** Drains the pending events and returns the keys pressed now. */
    method GetPressed(pending: seq<XEvent>) returns (p: set<int>)
      modifies this
      ensures KeyState(pressed, focused) == ApplyEvents(old(KeyState(pressed, focused)), pending, major)
      ensures p == pressed
    {
      var i := 0;
      while i < |pending|
        invariant 0 <= i <= |pending|
        invariant KeyState(pressed, focused) == ApplyEvents(old(KeyState(pressed, focused)), pending[..i], major)
      {
        var event := pending[i];
        assert pending[..i + 1][..i] == pending[..i];
        if event.extension.None? || event.extension.value != major {
          // an unexpected event
        } else if event.evtype == FocusOut {
          focused := false;
          pressed := {};
        } else if event.evtype == FocusIn {
          focused := true;
        } else if focused {
          var isPressed := event.evtype == KeyPress && event.flags & RepeatFlag == 0;
          var isReleased := event.evtype == KeyRelease;
          if isPressed {
            pressed := pressed + {event.keysym};
          }
          if isReleased {
            pressed := pressed - {event.keysym};
          }
        }
        i := i + 1;
      }
      assert pending[..i] == pending;
      p := pressed;
    }
  }

  /** Several keys mapped to one button collapse into a single button. */
  lemma SeveralKeysOneButton()
    ensures Pressing(XlibInputMapping, {XK_f, XK_v, XK_space}) == {A}
    ensures Pressing(KeyboardInputMapping, {"f", "v", "space"}) == {A}
  {
    assert XlibInputMapping[XK_f] == A;
    assert KeyboardInputMapping["f"] == A;
  }

  /** One call of the listener: on_press or on_release, with the key's name if it has one. */
  datatype Callback = Press(key: Option<string>) | Release(key: Option<string>)

  /** The callback is about the key whose lowered name is `name`. */
  predicate Names(c: Callback, name: string)
  {
    c.key.Some? && Lower(c.key.value) == name
  }

  /** What one callback does to the pressed set. */
  function AfterCallback(pressed: set<string>, c: Callback): set<string>
  {
    match c.key
    case None => pressed
    case Some(k) => if c.Press? then pressed + {Lower(k)} else pressed - {Lower(k)}
  }

  /** The pressed set after the callbacks, in the order the listener made them. */
  function AfterCallbacks(pressed: set<string>, cs: seq<Callback>): set<string>
    decreases |cs|
  {
    if cs == [] then pressed else AfterCallback(AfterCallbacks(pressed, cs[..|cs| - 1]), cs[|cs| - 1])
  }

  /**
   * A key counts as pressed exactly when its last callback was on_press; a key
   * without callbacks keeps its state. Case does not matter.
   */
  lemma {:induction false} LastCallbackDecides(pressed: set<string>, cs: seq<Callback>, name: string, j: nat)
    ensures (forall k :: 0 <= k < |cs| ==> !Names(cs[k], name)) ==>
              (name in AfterCallbacks(pressed, cs) <==> name in pressed)
    ensures j < |cs| && Names(cs[j], name) && (forall k :: j < k < |cs| ==> !Names(cs[k], name)) ==>
              (name in AfterCallbacks(pressed, cs) <==> cs[j].Press?)
    decreases |cs|
  {
    if cs != [] {
      var n := |cs| - 1;
      var init := cs[..n];
      assert forall k :: 0 <= k < n ==> init[k] == cs[k];
      LastCallbackDecides(pressed, init, name, j);
    }
  }

  /**
   * The `pressed` set of pynput_key_pressed_context, fed by the listener's
   * callbacks. A key is named by its character or, failing that, its name;
   * `None` stands for a key with neither, which the callbacks ignore.
   */
  class PynputKeyState {
    var pressed: set<string>

    constructor()
      ensures pressed == {}
    {
      pressed := {};
    }

    method OnPress(key: Option<string>)
      modifies this
      ensures pressed == AfterCallback(old(pressed), Press(key))
      ensures key.None? ==> pressed == old(pressed)
      ensures key.Some? ==> pressed == old(pressed) + {Lower(key.value)}
    {
      if key.Some? {
        pressed := pressed + {Lower(key.value)};
      }
    }

    method OnRelease(key: Option<string>)
      modifies this
      ensures pressed == AfterCallback(old(pressed), Release(key))
      ensures key.None? ==> pressed == old(pressed)
      ensures key.Some? ==> pressed == old(pressed) - {Lower(key.value)}
    {
      if key.Some? {
        pressed := pressed - {Lower(key.value)};
      }
    }
  }

  /** A release undoes a press of the same key, whatever its case, and leaves every other key as it was. */
  lemma {:induction false} PressThenRelease(pressed: set<string>, a: string, b: string)
    requires Lower(a) == Lower(b)
    ensures AfterCallbacks(pressed, [Press(Some(a)), Release(Some(b))]) == pressed - {Lower(a)}
  {
    var cs := [Press(Some(a)), Release(Some(b))];
    assert cs[..1] == [Press(Some(a))] && cs[..1][..0] == [];
    assert AfterCallbacks(pressed, cs[..1]) == pressed + {Lower(a)};
  }
}
