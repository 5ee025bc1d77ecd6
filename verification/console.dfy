/**
 * The console abstraction of gambaterm/console.py: the eight Game Boy buttons
 * with their one-bit flags, the save-slot events, and the Game Boy Color
 * wrapper around the emulation engine. The engine itself is opaque; the
 * wrapper records the requests it sends to it.
 */
module Console {
  import opened Common

  /** Console.Input: the eight buttons. */
  datatype Input = A | B | Select | Start | Right | Left | Up | Down

  /** The IntEnum value of a button, a single bit. */
  function Flag(i: Input): nat
  {
    match i
    case A => 0x01
    case B => 0x02
    case Select => 0x04
    case Start => 0x08
    case Right => 0x10
    case Left => 0x20
    case Up => 0x40
    case Down => 0x80
  }

  /** The bit-vector form of Flag. */
  function FlagBit(i: Input): bv8
  {
    match i
    case A => 0x01
    case B => 0x02
    case Select => 0x04
    case Start => 0x08
    case Right => 0x10
    case Left => 0x20
    case Up => 0x40
    case Down => 0x80
  }

  /** `sum(input_set)`: the sum of the flags of the pressed buttons. */
  function Mask(s: set<Input>): nat
  {
    (if A in s then 0x01 else 0) + (if B in s then 0x02 else 0)
    + (if Select in s then 0x04 else 0) + (if Start in s then 0x08 else 0)
    + (if Right in s then 0x10 else 0) + (if Left in s then 0x20 else 0)
    + (if Up in s then 0x40 else 0) + (if Down in s then 0x80 else 0)
  }

  /** The bitwise OR of the flags of the pressed buttons. */
  function Bits(s: set<Input>): bv8
  {
    (if A in s then 0x01 else 0) | (if B in s then 0x02 else 0)
    | (if Select in s then 0x04 else 0) | (if Start in s then 0x08 else 0)
    | (if Right in s then 0x10 else 0) | (if Left in s then 0x20 else 0)
    | (if Up in s then 0x40 else 0) | (if Down in s then 0x80 else 0)
  }

  lemma FlagBitIsFlag(i: Input)
    ensures FlagBit(i) as int == Flag(i)
  {
  }

  /** The flags are distinct single bits, so their sum is their OR and fits in a byte. */
  lemma MaskIsBitwiseOr(s: set<Input>)
    ensures Mask(s) < 256
    ensures Bits(s) as int == Mask(s)
  {
    var a: bv8 := if A in s then 0x01 else 0;
    var b: bv8 := if B in s then 0x02 else 0;
    var c: bv8 := if Select in s then 0x04 else 0;
    var d: bv8 := if Start in s then 0x08 else 0;
    var e: bv8 := if Right in s then 0x10 else 0;
    var f: bv8 := if Left in s then 0x20 else 0;
    var g: bv8 := if Up in s then 0x40 else 0;
    var h: bv8 := if Down in s then 0x80 else 0;
    assert Bits(s) == a | b | c | d | e | f | g | h;
    assert a | b | c | d | e | f | g | h == a + b + c + d + e + f + g + h;
    assert Mask(s) == a as int + b as int + c as int + d as int + e as int + f as int + g as int + h as int;
  }

  /** Adding one button to the set ORs in its flag. */
  lemma BitsInsert(s: set<Input>, x: Input)
    ensures Bits(s + {x}) == Bits(s) | FlagBit(x)
  {
    match x
    case A =>
    case B =>
    case Select =>
    case Start =>
    case Right =>
    case Left =>
    case Up =>
    case Down =>
  }

  /** A button is in the set exactly when its bit is set in the OR of the flags. */
  lemma BitsMember(s: set<Input>, i: Input)
    ensures Bits(s) & FlagBit(i) != 0 <==> i in s
  {
  }

  /** A mask determines the set of buttons it was made from. */
  lemma {:induction false} MaskInjective(s1: set<Input>, s2: set<Input>)
    requires Mask(s1) == Mask(s2)
    ensures s1 == s2
  {
    MaskIsBitwiseOr(s1);
    MaskIsBitwiseOr(s2);
    assert Bits(s1) == Bits(s2);
    forall i: Input
      ensures i in s1 <==> i in s2
    {
      BitsMember(s1, i);
      BitsMember(s2, i);
    }
  }

  /** The buttons a key mapping assigns to the pressed keys; unmapped keys are ignored. */
  function Pressing<K>(mapping: map<K, Input>, keys: set<K>): (r: set<Input>)
    ensures forall i :: i in r <==> exists k :: k in keys && k in mapping && mapping[k] == i
  {
    set k | k in keys && k in mapping :: mapping[k]
  }

  lemma PressingInsert<K>(mapping: map<K, Input>, keys: set<K>, k: K)
    ensures Pressing(mapping, keys + {k})
         == Pressing(mapping, keys) + (if k in mapping then {mapping[k]} else {})
  {
  }

  /** A save-slot number. */
  type Slot = n: int | 0 <= n < 10

  /** Console.Event. */
  datatype Event = SelectState(slot: Slot) | IncrementState | DecrementState | LoadState | SaveState
  {
    /** The IntEnum value: 0..9 for the slot selections, then 10..13. */
    function Value(): (v: nat)
      ensures v < 14
      ensures v < 10 <==> SelectState?
    {
      match this
      case SelectState(n) => n
      case IncrementState => 10
      case DecrementState => 11
      case LoadState => 12
      case SaveState => 13
    }
  }

  /** Why constructing the wrapper fails: the ROM file cannot be opened (an OSError), or `RuntimeError(code)`. */
  datatype OpenFailure = RomUnreadable | LoadCode(code: int)

  /** A call the wrapper makes into the engine. */
  datatype EngineRequest = SelectSlot(slot: int) | LoadSlot | SaveSlot | SetInput(mask: nat)

  /** The engine request `handle_event(e)` issues when the engine's current state is `cur`. */
  function RequestFor(cur: int, e: Event): (r: EngineRequest)
    ensures r.SelectSlot? <==> !(e.LoadState? || e.SaveState?)
    ensures r.SelectSlot? ==> 0 <= r.slot < 10
    ensures e.LoadState? ==> r == LoadSlot
    ensures e.SaveState? ==> r == SaveSlot
  {
    if e.Value() < 10 then SelectSlot(e.Value() % 10)
    else if e.IncrementState? then SelectSlot((cur % 10 + 1) % 10)
    else if e.DecrementState? then SelectSlot((cur % 10 - 1) % 10)
    else if e.LoadState? then LoadSlot
    else SaveSlot
  }

  /** The engine's current state after `handle_event(e)`. */
  function SlotAfter(cur: int, e: Event): int
  {
    match RequestFor(cur, e)
    case SelectSlot(n) => n
    case _ => cur
  }

  /** The requests a sequence of events issues, in order. */
  function RequestsFor(cur: int, es: seq<Event>): seq<EngineRequest>
    decreases |es|
  {
    if es == [] then [] else [RequestFor(cur, es[0])] + RequestsFor(SlotAfter(cur, es[0]), es[1..])
  }

  /** The engine's current state after a sequence of events. */
  function SlotAfterAll(cur: int, es: seq<Event>): int
    decreases |es|
  {
    if es == [] then cur else SlotAfterAll(SlotAfter(cur, es[0]), es[1..])
  }

  lemma {:induction false} RequestsForAppend(cur: int, es: seq<Event>, e: Event)
    ensures RequestsFor(cur, es + [e]) == RequestsFor(cur, es) + [RequestFor(SlotAfterAll(cur, es), e)]
    ensures SlotAfterAll(cur, es + [e]) == SlotAfter(SlotAfterAll(cur, es), e)
    decreases |es|
  {
    if es != [] {
      assert (es + [e])[0] == es[0] && (es + [e])[1..] == es[1..] + [e];
      RequestsForAppend(SlotAfter(cur, es[0]), es[1..], e);
    } else {
      assert [e][1..] == [];
    }
  }

  /** The slot transitions of handle_event, stated per event kind. */
  lemma SlotTransitions(cur: int, e: Event)
    ensures e.SelectState? ==> SlotAfter(cur, e) == e.slot
    ensures e.IncrementState? ==> SlotAfter(cur, e) == (cur % 10 + 1) % 10
    ensures e.DecrementState? ==> SlotAfter(cur, e) == (cur % 10 + 9) % 10
    ensures e.LoadState? || e.SaveState? ==> SlotAfter(cur, e) == cur
    ensures e.IncrementState? && cur % 10 == 9 ==> SlotAfter(cur, e) == 0
    ensures e.DecrementState? && cur % 10 == 0 ==> SlotAfter(cur, e) == 9
    ensures !(e.LoadState? || e.SaveState?) ==> 0 <= SlotAfter(cur, e) < 10
  {
  }

  /** Incrementing then decrementing the slot returns to the slot `get_current_state` reports. */
  lemma IncrementThenDecrement(cur: int)
    ensures SlotAfterAll(cur, [IncrementState, DecrementState]) == cur % 10
  {
    assert [IncrementState, DecrementState][1..] == [DecrementState];
    assert [DecrementState][1..] == [];
    var up := SlotAfter(cur, IncrementState);
    assert up == (cur % 10 + 1) % 10;
    assert 0 <= up < 10 && up % 10 == up;
    assert SlotAfter(up, DecrementState) == (up - 1) % 10;
    if cur % 10 == 9 {
      assert up == 0;
    } else {
      assert up == cur % 10 + 1;
    }
  }

  /** Ten increments cycle through every slot and come back to the start. */
  lemma {:induction false} IncrementCycle(cur: Slot, k: nat)
    ensures SlotAfterAll(cur, seq(k, _ => IncrementState)) == (cur + k) % 10
  {
    if k > 0 {
      var es := seq(k - 1, _ => IncrementState);
      assert seq(k, _ => IncrementState) == es + [IncrementState];
      RequestsForAppend(cur, es, IncrementState);
      IncrementCycle(cur, k - 1);
      var x := (cur + k - 1) % 10;
      assert x % 10 == x;
      assert SlotAfter(x, IncrementState) == (x + 1) % 10;
      DivShift((cur + k - 1) / 10, x + 1, 10);
    } else {
      assert seq(k, _ => IncrementState) == [];
    }
  }

  /**
   * GameboyColor: the console wrapper around the engine. `selected` is the
   * engine's current save state; `requests` logs every call made into the engine.
   */
  class GameboyColor {
    var selected: int
    var requests: seq<EngineRequest>

    /**
     * Opening a ROM: a non-zero load code makes construction fail. Before
     * raising that code the wrapper reopens the ROM file, so a file that
     * cannot be opened fails with the file error instead.
     */
    static method Open(returnCode: int, romOpenable: bool, engineState: int)
      returns (console: GameboyColor?, error: Option<OpenFailure>)
      ensures returnCode != 0 && !romOpenable ==> console == null && error == Some(RomUnreadable)
      ensures returnCode != 0 && romOpenable ==> console == null && error == Some(LoadCode(returnCode))
      ensures returnCode == 0 ==> console != null && fresh(console) && error == None
      ensures console != null ==> console.selected == engineState && console.requests == []
    {
      if returnCode != 0 {
        if !romOpenable {
          return null, Some(RomUnreadable);
        }
        return null, Some(LoadCode(returnCode));
      }
      console := new GameboyColor(engineState);
      error := None;
    }

    constructor(engineState: int)
      ensures selected == engineState && requests == []
    {
      selected := engineState;
      requests := [];
    }

    /** `gb.current_state() % 10`. */
    method GetCurrentState() returns (s: int)
      ensures 0 <= s < 10
      ensures s == selected % 10
    {
      s := selected % 10;
    }

    /** `gb.select_state(value % 10)`. */
    method SetCurrentState(value: int)
      modifies this
      ensures selected == value % 10 && 0 <= selected < 10
      ensures requests == old(requests) + [SelectSlot(value % 10)]
    {
      selected := value % 10;
      requests := requests + [SelectSlot(value % 10)];
    }

    /** `gb.set_input(sum(input_set))`. */
    method SetInputs(inputs: set<Input>)
      modifies this
      ensures selected == old(selected)
      ensures requests == old(requests) + [SetInput(Mask(inputs))]
      ensures requests[|requests| - 1].mask < 256
    {
      MaskIsBitwiseOr(inputs);
      requests := requests + [SetInput(Mask(inputs))];
    }

    /** Console.handle_event. */
    method HandleEvent(e: Event)
      modifies this
      ensures selected == SlotAfter(old(selected), e)
      ensures requests == old(requests) + [RequestFor(old(selected), e)]
    {
      if e.Value() < 10 {
        SetCurrentState(e.Value());
      } else if e == IncrementState {
        var cur := GetCurrentState();
        SetCurrentState(cur + 1);
      } else if e == DecrementState {
        var cur := GetCurrentState();
        SetCurrentState(cur - 1);
      } else if e == LoadState {
        requests := requests + [LoadSlot];
      } else {
        requests := requests + [SaveSlot];
      }
    }
  }
}
