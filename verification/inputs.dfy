/**
 * The BizHawk "Input Log" replay of gambaterm/inputs.py: the order of the
 * eight buttons in a log line, the mask parser, and the generator that
 * skips lines and then yields a neutral value forever. The generator is
 * generic in what a line parses to, so gambaterm/file_input.py reuses it
 * with sets of buttons.
 */
module Inputs {
  import opened Console

  /** INPUTS: the buttons in the order of the eight columns of a log line. */
  const Order: seq<Input> := [Up, Down, Left, Right, Start, Select, B, A]

  lemma OrderCoversAllButtons(i: Input)
    ensures exists k :: 0 <= k < 8 && Order[k] == i
  {
    match i
    case Up => assert Order[0] == i;
    case Down => assert Order[1] == i;
    case Left => assert Order[2] == i;
    case Right => assert Order[3] == i;
    case Start => assert Order[4] == i;
    case Select => assert Order[5] == i;
    case B => assert Order[6] == i;
    case A => assert Order[7] == i;
  }

  /**
   * Column k of `line[1:9]` counts as pressed: it exists (zip stops at the
   * shorter side) and is not '.'.
   */
  predicate Column(line: string, k: nat)
  {
    k < 8 && 1 + k < |line| && line[1 + k] != '.'
  }

  /** The value of one column: the flag of its button when pressed, else 0. */
  function ColumnValue(line: string, k: nat): nat
    requires k < 8
  {
    if Column(line, k) then Flag(Order[k]) else 0
  }

  /** `sum(v for c, v in zip(line[1:9], INPUTS) if c != ".")`. */
  function ParseMask(line: string): nat
  {
    ColumnValue(line, 0) + ColumnValue(line, 1) + ColumnValue(line, 2) + ColumnValue(line, 3)
    + ColumnValue(line, 4) + ColumnValue(line, 5) + ColumnValue(line, 6) + ColumnValue(line, 7)
  }

  /** The buttons whose column is pressed. */
  function ColumnsPressed(line: string): set<Input>
  {
    set k | 0 <= k < 8 && Column(line, k) :: Order[k]
  }

  /** Button Order[k] is pressed exactly when column k is not a dot. */
  lemma {:induction false} ColumnsPressedMembers(line: string)
    ensures forall k :: 0 <= k < 8 ==> (Order[k] in ColumnsPressed(line) <==> Column(line, k))
  {
    var s := ColumnsPressed(line);
    forall k | 0 <= k < 8
      ensures Order[k] in s <==> Column(line, k)
    {
      if Order[k] in s {
        var j :| 0 <= j < 8 && Column(line, j) && Order[j] == Order[k];
        assert j == k;
      }
    }
  }

  /** The parsed value is the mask of the pressed columns' buttons, so it lies in 0..255. */
  lemma {:induction false} ParseMaskIsMask(line: string)
    ensures ParseMask(line) == Mask(ColumnsPressed(line))
    ensures ParseMask(line) < 256
  {
    var s := ColumnsPressed(line);
    ColumnsPressedMembers(line);
    assert Up in s <==> Column(line, 0);
    assert Down in s <==> Column(line, 1);
    assert Left in s <==> Column(line, 2);
    assert Right in s <==> Column(line, 3);
    assert Start in s <==> Column(line, 4);
    assert Select in s <==> Column(line, 5);
    assert B in s <==> Column(line, 6);
    assert A in s <==> Column(line, 7);
    MaskIsBitwiseOr(s);
  }

  /** Characters after position 8 of a line are ignored. */
  lemma {:induction false} ParseIgnoresTail(line: string, extra: string)
    requires |line| >= 9
    ensures ParseMask(line + extra) == ParseMask(line)
    ensures ColumnsPressed(line + extra) == ColumnsPressed(line)
  {
    forall k | 0 <= k < 8
      ensures Column(line + extra, k) == Column(line, k)
    {
      assert (line + extra)[1 + k] == line[1 + k];
    }
  }

  /** A line the generator parses: it starts with '|' and its index is not below skip_first_frames. */
  predicate Kept(lines: seq<string>, skip: int, i: nat)
    requires i < |lines|
  {
    |lines[i]| > 0 && lines[i][0] == '|' && i >= skip
  }

  /** The values the generator yields from line `from` on, before its endless neutral tail. */
  function Yielded<T>(lines: seq<string>, skip: int, parse: string -> T, from: nat): seq<T>
    decreases |lines| - from
  {
    if from >= |lines| then []
    else if Kept(lines, skip, from) then [parse(lines[from])] + Yielded(lines, skip, parse, from + 1)
    else Yielded(lines, skip, parse, from + 1)
  }

  /** Lines that are not kept contribute nothing. */
  lemma {:induction false} YieldedSkips<T>(lines: seq<string>, skip: int, parse: string -> T, from: nat)
    requires from <= |lines|
    requires forall i :: from <= i < |lines| ==> !Kept(lines, skip, i)
    ensures Yielded(lines, skip, parse, from) == []
    decreases |lines| - from
  {
    if from < |lines| {
      YieldedSkips(lines, skip, parse, from + 1);
    }
  }

  /** Each line parsed, in order. */
  function ParseAll<T>(ls: seq<string>, parse: string -> T): (r: seq<T>)
    ensures |r| == |ls|
    ensures forall j :: 0 <= j < |ls| ==> r[j] == parse(ls[j])
  {
    seq(|ls|, j requires 0 <= j < |ls| => parse(ls[j]))
  }

  /** With every line a log line, the generator yields exactly the lines from skip_first_frames on. */
  lemma {:induction false} YieldedAllLogLines<T>(lines: seq<string>, skip: int, parse: string -> T, from: nat)
    requires from <= |lines|
    requires forall i :: 0 <= i < |lines| ==> |lines[i]| > 0 && lines[i][0] == '|'
    ensures Yielded(lines, skip, parse, from) == ParseAll(lines[Clamp(skip, from, |lines|)..], parse)
    decreases |lines| - from
  {
    if from < |lines| {
      YieldedAllLogLines(lines, skip, parse, from + 1);
      if from >= skip {
        assert lines[from..] == [lines[from]] + lines[from + 1..];
      }
    }
  }

  /** `x` moved into the range lo..hi. */
  function Clamp(x: int, lo: int, hi: int): int
  {
    if x < lo then lo else if x > hi then hi else x
  }

  /**
   * The generator `gen()` behind the getter `lambda: next(input_generator)`.
   * `cursor` is the index of the next line the generator will examine.
   */
  class LogReplay<T> {
    const lines: seq<string>
    const skip: int
    const parse: string -> T
    const idle: T
    var cursor: nat

    ghost predicate Valid()
      reads this
    {
      cursor <= |lines|
    }

    /** The values still to come before the endless neutral tail. */
    ghost function Remaining(): seq<T>
      reads this
    {
      Yielded(lines, skip, parse, cursor)
    }

    constructor(lines: seq<string>, skip: int, parse: string -> T, idle: T)
      ensures Valid()
      ensures this.lines == lines && this.skip == skip && this.parse == parse && this.idle == idle
      ensures Remaining() == Yielded(lines, skip, parse, 0)
    {
      this.lines := lines;
      this.skip := skip;
      this.parse := parse;
      this.idle := idle;
      cursor := 0;
    }

    /** One call of the getter: it consumes exactly one generated value. */
    method Next() returns (v: T)
      requires Valid()
      modifies this
      ensures Valid()
      ensures old(Remaining()) != [] ==> v == old(Remaining())[0] && Remaining() == old(Remaining())[1..]
      ensures old(Remaining()) == [] ==> v == idle && Remaining() == []
    {
      while cursor < |lines| && !Kept(lines, skip, cursor)
        invariant cursor <= |lines|
        invariant Remaining() == old(Remaining())
        decreases |lines| - cursor
      {
        cursor := cursor + 1;
      }
      if cursor < |lines| {
        v := parse(lines[cursor]);
        cursor := cursor + 1;
      } else {
        v := idle;
      }
    }
  }

  /** gb_input_from_file_context: the replay getter yielding masks, 0 once the log is exhausted. */
  method MaskReplay(lines: seq<string>, skip: int) returns (getter: LogReplay<nat>)
    ensures fresh(getter) && getter.Valid() && getter.idle == 0
    ensures getter.Remaining() == Yielded(lines, skip, ParseMask, 0)
  {
    getter := new LogReplay(lines, skip, ParseMask, 0);
  }
}
