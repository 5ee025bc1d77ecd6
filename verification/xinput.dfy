/**
 * gambaterm/xinput.py: the keysym table and the getter that folds the pressed
 * keysyms into the engine's button byte. GBInput has the same eight one-bit
 * values as the console buttons, so it is Console.Input with Console.FlagBit.
 */
module XInput {
  import opened Common
  import opened Console
  import opened Keysyms

  /** get_mapping. */
  const Mapping: map<int, Input> := map[
    XK_Up := Up, XK_Down := Down, XK_Left := Left, XK_Right := Right,
    XK_f := A, XK_space := A, XK_d := B, XK_Alt_L := B,
    XK_Return := Start, XK_Control_R := Start,
    XK_Shift_L := Select, XK_Shift_R := Select]

  /** `mapping.get(keysym, 0)`. */
  function FlagOf(keysym: int): bv8
  {
    if keysym in Mapping then FlagBit(Mapping[keysym]) else 0
  }

  /** The OR of the flags of keysyms visited in the given order, repetitions allowed. */
  function OrOf(keysyms: seq<int>): bv8
  {
    if keysyms == [] then 0 else OrOf(keysyms[..|keysyms| - 1]) | FlagOf(keysyms[|keysyms| - 1])
  }

  /** Pressing one more key ORs in its flag. */
  lemma {:induction false} BitsPressingInsert(keys: set<int>, k: int)
    ensures Bits(Pressing(Mapping, keys + {k})) == Bits(Pressing(Mapping, keys)) | FlagOf(k)
  {
    PressingInsert(Mapping, keys, k);
    if k in Mapping {
      BitsInsert(Pressing(Mapping, keys), Mapping[k]);
    } else {
      assert Pressing(Mapping, keys + {k}) == Pressing(Mapping, keys);
    }
  }

  /** The elements of a sequence of keysyms. */
  function Elements(keysyms: seq<int>): set<int>
  {
    set i | 0 <= i < |keysyms| :: keysyms[i]
  }

  /** The fold gives the OR of the buttons of the keysyms: neither order nor repetition matters. */
  lemma {:induction false} OrOfIsBits(keysyms: seq<int>)
    ensures OrOf(keysyms) == Bits(Pressing(Mapping, Elements(keysyms)))
  {
    if keysyms == [] {
      assert Elements(keysyms) == {};
    } else {
      var init := keysyms[..|keysyms| - 1];
      var last := keysyms[|keysyms| - 1];
      OrOfIsBits(init);
      assert Elements(keysyms) == Elements(init) + {last};
      BitsPressingInsert(Elements(init), last);
    }
  }

  /** get_gb_input: ORs in the flag of every pressed keysym. */
  method GetGbInput(pressed: set<int>) returns (value: bv8)
    ensures value == Bits(Pressing(Mapping, pressed))
    ensures value as int == Mask(Pressing(Mapping, pressed)) < 256
  {
    value := 0;
    var todo := pressed;
    ghost var seen: set<int> := {};
    while todo != {}
      invariant seen + todo == pressed && seen !! todo
      invariant value == Bits(Pressing(Mapping, seen))
      decreases |todo|
    {
      ghost var some := Pick(todo);
      var keysym :| keysym in todo;
      BitsPressingInsert(seen, keysym);
      value := value | FlagOf(keysym);
      seen := seen + {keysym};
      todo := todo - {keysym};
    }
    MaskIsBitwiseOr(Pressing(Mapping, pressed));
  }

  /** No key pressed gives 0. */
  lemma NothingPressed()
    ensures Bits(Pressing(Mapping, {})) == 0
  {
  }

  /** Both shift keys together give exactly SELECT. */
  lemma BothShifts()
    ensures Bits(Pressing(Mapping, {XK_Shift_L, XK_Shift_R})) == 0x04
  {
    assert Pressing(Mapping, {XK_Shift_L, XK_Shift_R}) == {Select};
  }
}
