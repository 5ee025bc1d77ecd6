/**
 * gambaterm/controller_input.py: the game-controller tables, the getter that
 * fires console events for newly pressed controller buttons (the same
 * PressedTracker as the keyboard), and the getter that unions two getters.
 * Controller names are "B<n>" for button n, "H0±"/"H1±" for the first hat
 * and "A0±"/"A1±" for the first two axes.
 */
module ControllerInput {
  import opened Console
  import opened KeyboardInput

  /** get_controller_input_mapping. */
  const ControllerInputMapping: map<string, Input> := map[
    "A1-" := Up, "H1-" := Up, "A1+" := Down, "H1+" := Down,
    "A0-" := Left, "H0-" := Left, "A0+" := Right, "H0+" := Right,
    "B0" := A, "B3" := A, "B1" := B, "B2" := B,
    "B7" := Start, "B6" := Select]

  /** get_controller_event_mapping. */
  const ControllerEventMapping: map<string, Event> := map[
    "B4" := IncrementState, "B5" := DecrementState, "B8" := LoadState, "B9" := SaveState]

  /** Only B4, B5, B8 and B9 fire events, and each fires its own. */
  lemma ControllerEvents()
    ensures ControllerEventMapping.Keys == {"B4", "B5", "B8", "B9"}
    ensures ControllerEventMapping["B4"] == IncrementState && ControllerEventMapping["B5"] == DecrementState
    ensures ControllerEventMapping["B8"] == LoadState && ControllerEventMapping["B9"] == SaveState
  {
  }

  /** The hat and the axis of one direction press the same button. */
  lemma HatAndAxisAgree()
    ensures ControllerInputMapping["H0-"] == ControllerInputMapping["A0-"] == Left
    ensures ControllerInputMapping["H0+"] == ControllerInputMapping["A0+"] == Right
    ensures ControllerInputMapping["H1-"] == ControllerInputMapping["A1-"] == Up
    ensures ControllerInputMapping["H1+"] == ControllerInputMapping["A1+"] == Down
  {
  }

  /** No controller name both presses a button and fires an event. */
  lemma ButtonsAndEventsDisjoint()
    ensures ControllerInputMapping.Keys !! ControllerEventMapping.Keys
  {
  }

  /** console_input_from_controller_context: a tracker over the controller tables. */
  method ControllerGetter(console: GameboyColor) returns (getter: PressedTracker<string>)
    ensures fresh(getter)
    ensures getter.inputMapping == ControllerInputMapping && getter.eventMapping == ControllerEventMapping
    ensures getter.console == console && getter.currentPressed == {}
  {
    getter := new PressedTracker(ControllerInputMapping, ControllerEventMapping, console);
  }

  /**
   * A snapshot of the controller that only holds names the tables do not
   * know gives no button and fires no event.
   */
  lemma {:induction false} UnknownNamesDoNothing(snapshot: set<string>, order: seq<string>)
    requires snapshot !! ControllerInputMapping.Keys
    requires snapshot !! ControllerEventMapping.Keys
    requires multiset(order) <= multiset(snapshot)
    ensures Pressing(ControllerInputMapping, snapshot) == {}
    ensures EventsOf(ControllerEventMapping, order) == []
  {
    forall j | 0 <= j < |order|
      ensures order[j] !in ControllerEventMapping
    {
      assert order[j] in multiset(order);
    }
    UnmappedKeysFireNothing(ControllerEventMapping, order);
  }

  /**
   * The getter combine_console_input_from_controller_context yields:
   * `getter1() | getter2()`, with `first` the result of the wrapped getter,
   * called first, and the controller getter called second. The controller
   * fires the events of its newly pressed buttons into the console, in the
   * order `order` visits them.
   */
  method CombinedGet(first: set<Input>, controller: PressedTracker<string>, snapshot: set<string>)
    returns (inputs: set<Input>, fired: seq<Event>, ghost order: seq<string>)
    modifies controller, controller.console
    ensures inputs == first + Pressing(controller.inputMapping, snapshot)
    ensures controller.currentPressed == snapshot
    ensures multiset(order) == multiset(snapshot - old(controller.currentPressed))
    ensures fired == EventsOf(controller.eventMapping, order)
    ensures controller.console.selected == SlotAfterAll(old(controller.console.selected), fired)
    ensures controller.console.requests
              == old(controller.console.requests) + RequestsFor(old(controller.console.selected), fired)
  {
    var second;
    second, fired, order := controller.GetInput(snapshot);
    inputs := first + second;
  }
}
