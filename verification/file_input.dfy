/**
 * gambaterm/file_input.py: writing and replaying BizHawk "Input Log" lines
 * as sets of console buttons. A line is '|', eight columns in the order of
 * Inputs.Order holding the button's upper-case initial or '.', then '|'.
 */
module FileInput {
  import opened Console
  import opened Inputs

  /** `key.name[0].upper()`. */
  function Initial(i: Input): (c: char)
    ensures c != '.' && c != '|'
  {
    match i
    case A => 'A'
    case B => 'B'
    case Select => 'S'
    case Start => 'S'
    case Right => 'R'
    case Left => 'L'
    case Up => 'U'
    case Down => 'D'
  }

  /** The character of column k for the set of pressed buttons. */
  function ColumnChar(s: set<Input>, k: nat): char
    requires k < 8
  {
    if Order[k] in s then Initial(Order[k]) else '.'
  }

  /** The log line of a set of pressed buttons. */
  function LineOf(s: set<Input>): (line: string)
    ensures |line| == 10 && line[0] == '|' && line[9] == '|'
    ensures forall k :: 0 <= k < 8 ==> (line[1 + k] == '.' <==> Order[k] !in s)
  {
    ['|'] + seq(8, k requires 0 <= k < 8 => ColumnChar(s, k)) + ['|']
  }

  /** value_to_line: accumulates the line column by column. */
  method ValueToLine(s: set<Input>) returns (line: string)
    ensures |line| == 10 && line[0] == '|' && line[9] == '|'
    ensures forall k :: 0 <= k < 8 ==> line[k + 1] == (if Order[k] in s then Initial(Order[k]) else '.')
    ensures line == LineOf(s)
  {
    line := "|";
    for k := 0 to 8
      invariant |line| == k + 1 && line[0] == '|'
      invariant forall j :: 0 <= j < k ==> line[j + 1] == ColumnChar(s, j)
    {
      line := line + [if Order[k] in s then Initial(Order[k]) else '.'];
    }
    ghost var columns := line;
    line := line + "|";
    forall k | 0 <= k < 8
      ensures line[k + 1] == (if Order[k] in s then Initial(Order[k]) else '.')
    {
      assert line[k + 1] == columns[k + 1] == ColumnChar(s, k);
    }
  }

  /** `set(v for c, v in zip(line[1:9], inputs_ref) if c != ".")`. */
  function ParseInputSet(line: string): set<Input>
  {
    ColumnsPressed(line)
  }

  /** Parsing the columns of a written line gives back the set that was written. */
  lemma {:induction false} LineRoundTrip(s: set<Input>)
    ensures ParseInputSet(LineOf(s)) == s
  {
    var line := LineOf(s);
    forall i: Input
      ensures i in ParseInputSet(line) <==> i in s
    {
      OrderCoversAllButtons(i);
      var k :| 0 <= k < 8 && Order[k] == i;
      assert line[1 + k] == ColumnChar(s, k);
      if i in s {
        assert Column(line, k);
      }
      if i in ParseInputSet(line) {
        var j :| 0 <= j < 8 && Column(line, j) && Order[j] == i;
        assert j == k;
      }
    }
  }

  /** The file replay yields the mask of what the set replay yields, line by line. */
  lemma {:induction false} ReplaysAgree(lines: seq<string>, skip: int, from: nat)
    ensures |Yielded(lines, skip, ParseMask, from)| == |Yielded(lines, skip, ParseInputSet, from)|
    ensures forall j :: 0 <= j < |Yielded(lines, skip, ParseMask, from)| ==>
              Yielded(lines, skip, ParseMask, from)[j] == Mask(Yielded(lines, skip, ParseInputSet, from)[j])
    decreases |lines| - from
  {
    if from < |lines| {
      ReplaysAgree(lines, skip, from + 1);
      ParseMaskIsMask(lines[from]);
    }
  }

  /** console_input_from_file_context: the replay getter yielding sets, the empty set once exhausted. */
  method SetReplay(lines: seq<string>, skip: int) returns (getter: LogReplay<set<Input>>)
    ensures fresh(getter) && getter.Valid() && getter.idle == {}
    ensures getter.Remaining() == Yielded(lines, skip, ParseInputSet, 0)
  {
    getter := new LogReplay(lines, skip, ParseInputSet, {});
  }

  /** write_input_context: a getter that logs one line per value it passes through. */
  class InputRecorder {
    var log: seq<string>

    constructor()
      ensures log == []
    {
      log := [];
    }

    /**
     * `value = getter(); print(value_to_line(value), file=f); return value`, with
     * `value` the wrapped getter's result; print ends the line with a newline.
     */
    method Get(value: set<Input>) returns (r: set<Input>)
      modifies this
      ensures r == value
      ensures log == old(log) + [LineOf(value) + "\n"]
    {
      var line := ValueToLine(value);
      log := log + [line + "\n"];
      r := value;
    }
  }

  /** The log lines written for a sequence of values, each with its newline, as the file gives them back. */
  function LinesOf(values: seq<set<Input>>): (lines: seq<string>)
    ensures |lines| == |values|
    ensures forall j :: 0 <= j < |values| ==> lines[j] == LineOf(values[j]) + "\n"
  {
    seq(|values|, j requires 0 <= j < |values| => LineOf(values[j]) + "\n")
  }

  /** A recorded line, newline included, parses back as the value it records. */
  lemma {:induction false} RecordedLineRoundTrip(value: set<Input>)
    ensures ParseInputSet(LineOf(value) + "\n") == value
  {
    LineRoundTrip(value);
    ParseIgnoresTail(LineOf(value), "\n");
  }

  /** Replaying a recorded log gives back the recorded values, minus the skipped first lines. */
  lemma {:induction false} RecordThenReplay(values: seq<set<Input>>, skip: nat)
    requires skip <= |values|
    ensures Yielded(LinesOf(values), skip, ParseInputSet, 0) == values[skip..]
  {
    var lines := LinesOf(values);
    YieldedAllLogLines(lines, skip, ParseInputSet, 0);
    var got := Yielded(lines, skip, ParseInputSet, 0);
    forall j | 0 <= j < |values| - skip
      ensures got[j] == values[skip + j]
    {
      RecordedLineRoundTrip(values[skip + j]);
    }
  }
}
