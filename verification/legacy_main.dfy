/**
 * gambaterm/__main__.py: the older front-end loop. It recognises the terminal's
 * cursor position report (`ESC [ row ; col R`) in what stdin delivers, waits for
 * one before every frame but the first, and paints every tick (every other one
 * when not in fast mode) at the fixed origin 1, 1.
 */
module LegacyMain {
  import opened Common
  import Scheduler

  // ---------------------------------------------------------------- the CPR pattern

  const Esc: Byte := 27
  const LeftBracket: Byte := 91
  const Semicolon: Byte := 59
  const UpperR: Byte := 82

  /** `CSI`, the control sequence introducer `ESC [`. */
  const Csi: seq<Byte> := [Esc, LeftBracket]

  /** `CSI 6n`, the device status report request that makes the terminal answer with a CPR. */
  const Dsr: seq<Byte> := Csi + [54, 110]

  predicate IsDigit(b: Byte)
  {
    48 <= b <= 57
  }

  /** d[i..j] is a non-empty run of ASCII digits: what `\d+` matches on bytes. */
  ghost predicate DigitRun(d: seq<Byte>, i: nat, j: nat)
  {
    i < j <= |d| && forall k :: i <= k < j ==> IsDigit(d[k])
  }

  /** `ESC [ digits ; digits R` occupies d[p..r+1], with the `;` at q. */
  ghost predicate CprSpan(d: seq<Byte>, p: nat, q: nat, r: nat)
  {
    && p + 2 <= q < r < |d|
    && d[p] == Esc && d[p + 1] == LeftBracket
    && DigitRun(d, p + 2, q) && d[q] == Semicolon
    && DigitRun(d, q + 1, r) && d[r] == UpperR
  }

  /** CPR_PATTERN matches at position p. */
  ghost predicate CprAt(d: seq<Byte>, p: nat)
  {
    exists q: nat, r: nat :: CprSpan(d, p, q, r)
  }

  /** CPR_PATTERN matches somewhere in d. */
  ghost predicate HasCpr(d: seq<Byte>)
  {
    exists p: nat :: p < |d| && CprAt(d, p)
  }

  /** The end of the longest run of digits starting at i. */
  function DigitsEnd(d: seq<Byte>, i: nat): (j: nat)
    requires i <= |d|
    ensures i <= j <= |d|
    ensures forall k :: i <= k < j ==> IsDigit(d[k])
    ensures j < |d| ==> !IsDigit(d[j])
    decreases |d| - i
  {
    if i < |d| && IsDigit(d[i]) then DigitsEnd(d, i + 1) else i
  }

  /** A run of digits followed by a non-digit ends exactly there. */
  lemma {:induction false} DigitsEndAt(d: seq<Byte>, i: nat, j: nat)
    requires i <= j < |d| && !IsDigit(d[j])
    requires forall k :: i <= k < j ==> IsDigit(d[k])
    ensures DigitsEnd(d, i) == j
    decreases j - i
  {
    if i < j {
      DigitsEndAt(d, i + 1, j);
    }
  }

  /** The matcher at one position: each `\d+` takes the maximal digit run, and the next byte must follow. */
  function MatchesAt(d: seq<Byte>, p: nat): bool
    requires p <= |d|
  {
    && p + 2 < |d| && d[p] == Esc && d[p + 1] == LeftBracket
    && var q := DigitsEnd(d, p + 2);
    && p + 2 < q < |d| && d[q] == Semicolon
    && var r := DigitsEnd(d, q + 1);
    && q + 1 < r < |d| && d[r] == UpperR
  }

  /** Taking maximal digit runs loses no match: a `;` or `R` is never a digit. */
  lemma {:induction false} MatchesAtIsCprAt(d: seq<Byte>, p: nat)
    requires p <= |d|
    ensures MatchesAt(d, p) <==> CprAt(d, p)
  {
    if CprAt(d, p) {
      var q: nat, r: nat :| CprSpan(d, p, q, r);
      DigitsEndAt(d, p + 2, q);
      DigitsEndAt(d, q + 1, r);
    }
    if MatchesAt(d, p) {
      var q := DigitsEnd(d, p + 2);
      var r := DigitsEnd(d, q + 1);
      assert CprSpan(d, p, q, r);
    }
  }

  /** `CPR_PATTERN.search(d[p..])` read as the leftmost position at or after p where it matches. */
  function SearchFrom(d: seq<Byte>, p: nat): (r: Option<nat>)
    requires p <= |d|
    ensures r.Some? ==> p <= r.value < |d| && CprAt(d, r.value)
    ensures r.Some? ==> forall k: nat :: p <= k < r.value ==> !CprAt(d, k)
    ensures r.None? ==> forall k: nat :: p <= k < |d| ==> !CprAt(d, k)
    decreases |d| - p
  {
    MatchesAtIsCprAt(d, p);
    if p == |d| then None else if MatchesAt(d, p) then Some(p) else SearchFrom(d, p + 1)
  }

  /** `CPR_PATTERN.search(d)`: the leftmost match, if any. */
  function Search(d: seq<Byte>): Option<nat>
  {
    SearchFrom(d, 0)
  }

  /** The search succeeds exactly when the pattern occurs. */
  lemma {:induction false} SearchFinds(d: seq<Byte>)
    ensures Search(d).Some? <==> HasCpr(d)
  {
    if HasCpr(d) {
      var p: nat :| p < |d| && CprAt(d, p);
      assert Search(d).Some?;
    }
  }

  /** A match stays a match when more bytes arrive: appending never undoes a CPR. */
  lemma {:induction false} CprAtAppend(d: seq<Byte>, more: seq<Byte>, p: nat)
    requires CprAt(d, p)
    ensures CprAt(d + more, p)
  {
    var q: nat, r: nat :| CprSpan(d, p, q, r);
    var e := d + more;
    assert forall k :: p <= k <= r ==> e[k] == d[k];
    assert CprSpan(e, p, q, r);
  }

  /** Matching is monotone in the accumulated data. */
  lemma {:induction false} HasCprAppend(d: seq<Byte>, more: seq<Byte>)
    requires HasCpr(d)
    ensures HasCpr(d + more)
  {
    var p: nat :| p < |d| && CprAt(d, p);
    CprAtAppend(d, more, p);
  }

  /** A run of digits keeps being one behind a prefix. */
  lemma {:induction false} DigitRunPrepend(before: seq<Byte>, d: seq<Byte>, i: nat, j: nat)
    requires DigitRun(d, i, j)
    ensures DigitRun(before + d, |before| + i, |before| + j)
  {
    var e, n := before + d, |before|;
    forall k | n + i <= k < n + j
      ensures IsDigit(e[k])
    {
      assert e[k] == d[k - n];
    }
  }

  /** A match in the right part of a concatenation is a match in the whole. */
  lemma {:induction false} CprAtPrepend(before: seq<Byte>, d: seq<Byte>, p: nat)
    requires CprAt(d, p)
    ensures CprAt(before + d, |before| + p)
  {
    var q: nat, r: nat :| CprSpan(d, p, q, r);
    var e, n := before + d, |before|;
    assert e[n + p] == d[p] && e[n + p + 1] == d[p + 1];
    assert e[n + q] == d[q] && e[n + r] == d[r];
    DigitRunPrepend(before, d, p + 2, q);
    DigitRunPrepend(before, d, q + 1, r);
    assert CprSpan(e, n + p, n + q, n + r);
  }

  /** Every match ends in an `R`: a buffer without one never matches. */
  lemma {:induction false} CprHasR(d: seq<Byte>)
    requires HasCpr(d)
    ensures UpperR in d
  {
    var p: nat :| p < |d| && CprAt(d, p);
    var q: nat, r: nat :| CprSpan(d, p, q, r);
    assert d[r] == UpperR;
  }

  /** The ASCII decimal digits of n, as the terminal writes a row or column number. */
  function DecimalBytes(n: nat): (b: seq<Byte>)
    ensures |b| == |NatToString(n)|
    ensures forall k :: 0 <= k < |b| ==> b[k] == NatToString(n)[k] as int
  {
    if n < 10 then [48 + n] else DecimalBytes(n / 10) + [48 + n % 10]
  }

  /** `ESC [ row ; col R`, the report a terminal sends for cursor position (row, col). */
  function Report(row: nat, col: nat): seq<Byte>
  {
    Csi + DecimalBytes(row) + [Semicolon] + DecimalBytes(col) + [UpperR]
  }

  /** A report matches at its first byte. */
  lemma {:induction false} ReportIsCpr(row: nat, col: nat)
    ensures CprAt(Report(row, col), 0)
  {
    var a, b := DecimalBytes(row), DecimalBytes(col);
    var d := Report(row, col);
    var q := 2 + |a|;
    var r := q + 1 + |b|;
    assert d == (Csi + a) + [Semicolon] + b + [UpperR];
    assert forall k :: 2 <= k < q ==> d[k] == a[k - 2];
    assert forall k :: q + 1 <= k < r ==> d[k] == b[k - q - 1];
    assert CprSpan(d, 0, q, r);
  }

  /** A report anywhere in the data, whatever surrounds it, is found. */
  lemma {:induction false} ReportFound(before: seq<Byte>, row: nat, col: nat, after: seq<Byte>)
    ensures HasCpr(before + Report(row, col) + after)
    ensures Search(before + Report(row, col) + after).Some?
  {
    ReportIsCpr(row, col);
    CprAtPrepend(before, Report(row, col), 0);
    CprAtAppend(before + Report(row, col), after, |before|);
    SearchFinds(before + Report(row, col) + after);
  }

  // ---------------------------------------------------------------- wait_for_cpr

  /**
   * What wait_for_cpr does with stdin's reads chunks[j], chunks[j + 1], ... and the
   * data gathered so far: the index of the first chunk it leaves unread once the data
   * holds a report, or None when the reads run out before one arrives.
   */
  function WaitFrom(chunks: seq<seq<Byte>>, j: nat, data: seq<Byte>): (r: Option<nat>)
    requires j <= |chunks|
    ensures r.Some? ==> j <= r.value <= |chunks|
    decreases |chunks| - j
  {
    if Search(data).Some? then Some(j)
    else if j == |chunks| then None
    else WaitFrom(chunks, j + 1, data + chunks[j])
  }

  /** The reads j..m, in order, after the data already gathered. */
  function Gathered(chunks: seq<seq<Byte>>, j: nat, m: nat, data: seq<Byte>): seq<Byte>
    requires j <= m <= |chunks|
  {
    data + Flatten(chunks[j..m])
  }

  /** Gathering one read more. */
  lemma {:induction false} GatheredStep(chunks: seq<seq<Byte>>, j: nat, m: nat, data: seq<Byte>)
    requires j < m <= |chunks|
    ensures Gathered(chunks, j, m, data) == Gathered(chunks, j + 1, m, data + chunks[j])
  {
    assert chunks[j..m][0] == chunks[j] && chunks[j..m][1..] == chunks[j + 1..m];
    ConcatAssoc(data, chunks[j], Flatten(chunks[j + 1..m]));
  }

  /**
   * wait_for_cpr returns as soon as what it gathered holds a report, and not
   * before: the reads it makes are the shortest run after which the pattern
   * matches. When it finds none, no prefix of the reads matched.
   */
  lemma {:induction false} WaitFromMeaning(chunks: seq<seq<Byte>>, j: nat, data: seq<Byte>)
    requires j <= |chunks|
    ensures WaitFrom(chunks, j, data).Some? ==>
      var m := WaitFrom(chunks, j, data).value;
      && HasCpr(Gathered(chunks, j, m, data))
      && forall n :: j <= n < m ==> !HasCpr(Gathered(chunks, j, n, data))
    ensures WaitFrom(chunks, j, data).None? ==>
      forall n :: j <= n <= |chunks| ==> !HasCpr(Gathered(chunks, j, n, data))
    decreases |chunks| - j
  {
    SearchFinds(data);
    assert Gathered(chunks, j, j, data) == data;
    if Search(data).None? && j < |chunks| {
      WaitFromMeaning(chunks, j + 1, data + chunks[j]);
      forall n | j < n <= |chunks|
        ensures Gathered(chunks, j, n, data) == Gathered(chunks, j + 1, n, data + chunks[j])
      {
        GatheredStep(chunks, j, n, data);
      }
    }
  }

  /**
   * wait_for_cpr(stdin, data): read chunk after chunk, from the `from`-th read of
   * stdin on, until the data holds a report. It answers how many reads stdin has
   * given in all, and whether a report arrived before they ran out.
   */
  method WaitForCpr(chunks: seq<seq<Byte>>, from: nat, data0: seq<Byte>) returns (to: nat, matched: bool)
    requires from <= |chunks|
    ensures matched <==> WaitFrom(chunks, from, data0).Some?
    ensures matched ==> to == WaitFrom(chunks, from, data0).value
    ensures !matched ==> to == |chunks|
  {
    var data := data0;
    to := from;
    while Search(data).None? && to < |chunks|
      invariant from <= to <= |chunks|
      invariant WaitFrom(chunks, to, data) == WaitFrom(chunks, from, data0)
      decreases |chunks| - to
    {
      data := data + chunks[to];
      to := to + 1;
    }
    matched := Search(data).Some?;
  }

  // ---------------------------------------------------------------- run

  /** `test` stops the loop at this tick: one minute of frames at 60 per second. */
  const TestTicks: nat := 60 * 60

  /** The arguments of the engine's paint_frame: origin and terminal size are fixed for the run. */
  datatype PaintArgs = PaintArgs(video: Scheduler.Frame, lastFrame: Scheduler.Frame, refx: int, refy: int, width: int, height: int)

  /** What a tick does outside the loop's own variables, in order. */
  datatype Effect =
    | SetInput(value: int)
    | Paint(args: PaintArgs)        // paint_frame, whose bytes are kept for the write
    | AwaitCpr(from: nat, to: nat)  // wait_for_cpr, reading stdin's chunks from..to-1
    | WritePainted                  // stdout.write of the painted bytes
    | WriteBytes(bytes: seq<Byte>)

  /** How run ends. */
  datatype Outcome =
    | Exit(code: int)    // the load failed: exit(return_code)
    | Finished           // test mode reached its last tick
    | AssertionFailed    // the engine reported no video at all
    | Blocked            // stdin ran out while waiting for a report
    | Suspended          // the ticks given to the model ran out; the loop itself has no end

  /** The flags of run and the terminal size measured once before the loop. */
  datatype Config = Config(test: bool, fast: bool, width: int, height: int)

  /** What the engine and the input reader give for one tick: get_input() and run_for's offset and video. */
  datatype Step = Step(input: int, offset: int, video: Scheduler.Frame)

  /** The variables the loop carries: last_frame, and how many reads of stdin were consumed. */
  datatype State = State(lastFrame: Scheduler.Frame, read: nat)

  datatype TickResult = TickResult(effects: seq<Effect>, next: State, stop: Option<Outcome>)

  datatype Result = Result(outcome: Outcome, logs: seq<seq<Effect>>, final: State)

  /** Ticks that paint: every tick in fast mode, the even ones otherwise. */
  predicate Paints(cfg: Config, i: nat)
  {
    cfg.fast || i % 2 == 0
  }

  /** One pass of the loop body for tick i, after the test-mode break. */
  function Tick(cfg: Config, chunks: seq<seq<Byte>>, st: State, i: nat, step: Step): (r: TickResult)
    requires st.read <= |chunks|
    ensures st.read <= r.next.read <= |chunks|
  {
    if step.offset <= 0 then TickResult([SetInput(step.input)], st, Some(AssertionFailed))
    else if !Paints(cfg, i) then TickResult([SetInput(step.input)], st, None)
    else
      var painted := [SetInput(step.input), Paint(PaintArgs(step.video, st.lastFrame, 1, 1, cfg.width, cfg.height))];
      if i == 0 then
        TickResult(painted + [WritePainted, WriteBytes(Dsr)], State(step.video, st.read), None)
      else
        match WaitFrom(chunks, st.read, [])
        case None => TickResult(painted, State(step.video, |chunks|), Some(Blocked))
        case Some(m) => TickResult(painted + [AwaitCpr(st.read, m), WritePainted, WriteBytes(Dsr)], State(step.video, m), None)
  }

  /** The loop from tick i on, one log of effects per tick. */
  function RunFrom(cfg: Config, chunks: seq<seq<Byte>>, st: State, steps: seq<Step>, i: nat): Result
    requires st.read <= |chunks| && i <= |steps|
    decreases |steps| - i
  {
    if cfg.test && i == TestTicks then Result(Finished, [], st)
    else if i == |steps| then Result(Suspended, [], st)
    else
      var t := Tick(cfg, chunks, st, i, steps[i]);
      if t.stop.Some? then Result(t.stop.value, [t.effects], t.next)
      else
        var rest := RunFrom(cfg, chunks, t.next, steps, i + 1);
        Result(rest.outcome, [t.effects] + rest.logs, rest.final)
  }

  /** The state before the first tick: last_frame filled with -1, nothing read from stdin. */
  const Start: State := State(Scheduler.InvalidFrame, 0)

  /** run, given the load code, stdin's reads and the ticks. */
  function Legacy(cfg: Config, loadCode: int, chunks: seq<seq<Byte>>, steps: seq<Step>): Result
  {
    if loadCode != 0 then Result(Exit(loadCode), [], Start) else RunFrom(cfg, chunks, Start, steps, 0)
  }

  /**
   * The frame protocol of a painting tick: it sets the input, paints against
   * last_frame at origin 1, 1, then (on every tick but the first) waits until
   * stdin has delivered a cursor position report, and only then writes the frame
   * followed by exactly one `CSI 6n` request. Afterwards last_frame is the painted video.
   */
  lemma {:induction false} FrameProtocol(cfg: Config, chunks: seq<seq<Byte>>, st: State, i: nat, step: Step)
    requires st.read <= |chunks|
    requires step.offset > 0 && Paints(cfg, i)
    ensures var t := Tick(cfg, chunks, st, i, step);
      && t.next.lastFrame == step.video
      && |t.effects| >= 2
      && t.effects[..2] == [SetInput(step.input), Paint(PaintArgs(step.video, st.lastFrame, 1, 1, cfg.width, cfg.height))]
      && (i == 0 ==> t.stop.None? && t.effects[2..] == [WritePainted, WriteBytes(Dsr)] && t.next.read == st.read)
      && (i != 0 && t.stop.None? ==>
            && t.effects[2..] == [AwaitCpr(st.read, t.next.read), WritePainted, WriteBytes(Dsr)]
            && HasCpr(Gathered(chunks, st.read, t.next.read, []))
            && forall n :: st.read <= n < t.next.read ==> !HasCpr(Gathered(chunks, st.read, n, [])))
      && (t.stop.Some? ==>
            && i != 0 && t.stop == Some(Blocked) && t.effects[2..] == [] && t.next.read == |chunks|
            && forall n :: st.read <= n <= |chunks| ==> !HasCpr(Gathered(chunks, st.read, n, [])))
  {
    WaitFromMeaning(chunks, st.read, []);
  }

  /**
   * The other ticks: no video ends the run at the `assert offset > 0`, and an odd
   * tick outside fast mode only sets the input and changes nothing.
   */
  lemma {:induction false} SkipOrFail(cfg: Config, chunks: seq<seq<Byte>>, st: State, i: nat, step: Step)
    requires st.read <= |chunks|
    ensures Tick(cfg, chunks, st, i, step).stop == Some(AssertionFailed) <==> step.offset <= 0
    ensures step.offset > 0 && !cfg.fast && i % 2 == 1 ==>
      Tick(cfg, chunks, st, i, step) == TickResult([SetInput(step.input)], st, None)
    ensures WritePainted in Tick(cfg, chunks, st, i, step).effects
        <==> step.offset > 0 && Paints(cfg, i) && Tick(cfg, chunks, st, i, step).stop.None?
  {
    var t := Tick(cfg, chunks, st, i, step);
    if step.offset > 0 && Paints(cfg, i) {
      FrameProtocol(cfg, chunks, st, i, step);
      if t.stop.Some? {
        assert t.effects == t.effects[..2];
      } else {
        assert t.effects == t.effects[..2] + t.effects[2..];
      }
    }
  }

  /**
   * How a run ends: never after more ticks than there are steps; in test mode
   * after at most 3600 ticks, and Finished exactly at tick 3600; Suspended only
   * once every step is used; never with an exit code, which only the load gives.
   */
  lemma {:induction false} LegacyRunShape(cfg: Config, chunks: seq<seq<Byte>>, st: State, steps: seq<Step>, i: nat)
    requires st.read <= |chunks| && i <= |steps|
    ensures var r := RunFrom(cfg, chunks, st, steps, i);
      && |r.logs| <= |steps| - i
      && (cfg.test && i <= TestTicks ==> |r.logs| <= TestTicks - i)
      && (r.outcome == Finished ==> cfg.test && i <= TestTicks && |r.logs| == TestTicks - i)
      && (r.outcome == Suspended ==> |r.logs| == |steps| - i)
      && !r.outcome.Exit?
    decreases |steps| - i
  {
    if !(cfg.test && i == TestTicks) && i < |steps| {
      var t := Tick(cfg, chunks, st, i, steps[i]);
      if t.stop.None? {
        LegacyRunShape(cfg, chunks, t.next, steps, i + 1);
      }
    }
  }

  /** The video of the last tick in i..n-1 that painted, or `init` when none did. */
  ghost function PreviousFrame(cfg: Config, steps: seq<Step>, i: nat, n: nat, init: Scheduler.Frame): Scheduler.Frame
    requires i <= n <= |steps|
    decreases n - i
  {
    if n == i then init else if Paints(cfg, n - 1) then steps[n - 1].video else PreviousFrame(cfg, steps, i, n - 1, init)
  }

  /** Starting one tick later, with that tick's painting already in last_frame. */
  lemma {:induction false} PreviousFrameShift(cfg: Config, steps: seq<Step>, i: nat, n: nat, init: Scheduler.Frame)
    requires i < n <= |steps|
    ensures PreviousFrame(cfg, steps, i, n, init)
         == PreviousFrame(cfg, steps, i + 1, n, if Paints(cfg, i) then steps[i].video else init)
    decreases n - i
  {
    if n > i + 1 {
      PreviousFrameShift(cfg, steps, i, n - 1, init);
    }
  }

  /** Outside fast mode, an even tick paints against the video of two ticks before. */
  lemma {:induction false} SlowModePrevious(cfg: Config, steps: seq<Step>, n: nat, init: Scheduler.Frame)
    requires !cfg.fast && n % 2 == 0 && 2 <= n <= |steps|
    ensures PreviousFrame(cfg, steps, 0, n, init) == steps[n - 2].video
  {
    assert !Paints(cfg, n - 1);
    assert Paints(cfg, n - 2);
  }

  /** A run that logs a tick after tick i went through tick i, which left last_frame as painted. */
  lemma {:induction false} LogAfter(cfg: Config, chunks: seq<seq<Byte>>, st: State, steps: seq<Step>, i: nat, k: nat)
    requires st.read <= |chunks| && i <= |steps|
    requires 0 < k < |RunFrom(cfg, chunks, st, steps, i).logs|
    ensures i < |steps| && !(cfg.test && i == TestTicks)
    ensures var t := Tick(cfg, chunks, st, i, steps[i]);
      && t.stop.None?
      && t.next.lastFrame == (if Paints(cfg, i) then steps[i].video else st.lastFrame)
      && k - 1 < |RunFrom(cfg, chunks, t.next, steps, i + 1).logs|
      && RunFrom(cfg, chunks, st, steps, i).logs[k] == RunFrom(cfg, chunks, t.next, steps, i + 1).logs[k - 1]
  {
    var t := Tick(cfg, chunks, st, i, steps[i]);
    SkipOrFail(cfg, chunks, st, i, steps[i]);
    if Paints(cfg, i) {
      FrameProtocol(cfg, chunks, st, i, steps[i]);
    }
  }

  /**
   * last_frame: the k-th tick of a run that paints does so against the video of
   * the last tick before it that painted, or against the starting last_frame.
   */
  lemma {:induction false} LastPainted(cfg: Config, chunks: seq<seq<Byte>>, st: State, steps: seq<Step>, i: nat, k: nat)
    requires st.read <= |chunks| && i <= |steps|
    requires k < |RunFrom(cfg, chunks, st, steps, i).logs|
    ensures i + k < |steps|
    ensures steps[i + k].offset > 0 && Paints(cfg, i + k) ==>
      var log := RunFrom(cfg, chunks, st, steps, i).logs[k];
      |log| >= 2 && log[1] == Paint(PaintArgs(steps[i + k].video, PreviousFrame(cfg, steps, i, i + k, st.lastFrame),
                                              1, 1, cfg.width, cfg.height))
    decreases k
  {
    LegacyRunShape(cfg, chunks, st, steps, i);
    if k == 0 {
      var t := Tick(cfg, chunks, st, i, steps[i]);
      assert RunFrom(cfg, chunks, st, steps, i).logs[0] == t.effects;
      if steps[i].offset > 0 && Paints(cfg, i) {
        FrameProtocol(cfg, chunks, st, i, steps[i]);
      }
    } else {
      LogAfter(cfg, chunks, st, steps, i, k);
      var t := Tick(cfg, chunks, st, i, steps[i]);
      LastPainted(cfg, chunks, t.next, steps, i + 1, k - 1);
      PreviousFrameShift(cfg, steps, i, i + k, st.lastFrame);
    }
  }

  /** One pass of the loop body of run for tick i, on the loop's variables. */
  method LegacyTick(cfg: Config, chunks: seq<seq<Byte>>, st: State, i: nat, step: Step)
    returns (effects: seq<Effect>, stop: Option<Outcome>, next: State)
    requires st.read <= |chunks|
    ensures effects == Tick(cfg, chunks, st, i, step).effects
    ensures stop == Tick(cfg, chunks, st, i, step).stop
    ensures next == Tick(cfg, chunks, st, i, step).next
  {
    effects := [SetInput(step.input)];
    next := st;
    stop := None;
    if step.offset <= 0 {
      stop := Some(AssertionFailed);
      return;
    }
    if i % 2 == 1 && !cfg.fast {
      return;
    }
    effects := effects + [Paint(PaintArgs(step.video, next.lastFrame, 1, 1, cfg.width, cfg.height))];
    next := next.(lastFrame := step.video);
    if i != 0 {
      var to, matched := WaitForCpr(chunks, next.read, []);
      next := next.(read := to);
      if !matched {
        stop := Some(Blocked);
        return;
      }
      effects := effects + [AwaitCpr(st.read, to)];
    }
    effects := effects + [WritePainted, WriteBytes(Dsr)];
  }

  /**
   * run, with the load code, stdin's reads and the ticks as parameters: the
   * loop over emulator frames, ending as Legacy says.
   */
  method LegacyRun(cfg: Config, loadCode: int, chunks: seq<seq<Byte>>, steps: seq<Step>)
    returns (outcome: Outcome, logs: seq<seq<Effect>>)
    ensures outcome == Legacy(cfg, loadCode, chunks, steps).outcome
    ensures logs == Legacy(cfg, loadCode, chunks, steps).logs
    ensures loadCode != 0 ==> outcome == Exit(loadCode) && logs == []
  {
    if loadCode != 0 {
      return Exit(loadCode), [];
    }
    var st := Start;
    logs := [];
    var i := 0;
    while true
      invariant i <= |steps| && st.read <= |chunks|
      invariant Legacy(cfg, loadCode, chunks, steps).outcome == RunFrom(cfg, chunks, st, steps, i).outcome
      invariant Legacy(cfg, loadCode, chunks, steps).logs == logs + RunFrom(cfg, chunks, st, steps, i).logs
      decreases |steps| - i
    {
      if cfg.test && i == TestTicks {
        return Finished, logs;
      }
      if i == |steps| {
        return Suspended, logs;
      }
      var effects, stop, next := LegacyTick(cfg, chunks, st, i, steps[i]);
      if stop.Some? {
        return stop.value, logs + [effects];
      }
      ConcatAssoc(logs, [effects], RunFrom(cfg, chunks, next, steps, i + 1).logs);
      logs := logs + [effects];
      st := next;
      i := i + 1;
    }
  }
}
