/**
 * gambaterm/run.py: where the picture sits on the terminal (get_ref) and the
 * frame loop of run.
 *
 * The engine, the diff encoder `blit`, the terminal and the clock are outside
 * the model. What they hand to the loop during one tick is a Step, and what
 * the loop does to them during one tick is a log of Effects. The loop is
 * written twice: Tick/RunFrom/Game say what happens, and the method Run does
 * it with the variables of the source and is proved to produce the same logs.
 */
module Scheduler {
  import opened Common

  const GbWidth: int := 160
  const GbHeight: int := 144
  const TicksInFrame: int := 35112
  const GbFps: real := 59.727500569606

  /** The key names read_keys reports for ctrl-c, ctrl-d and a cursor position report (ECMA-48 section 8.3.14). */
  const CtrlC: string := "c-c"
  const CtrlD: string := "c-d"
  const CursorPositionResponse: string := "<cursor-position-response>"

  function Max(a: int, b: int): int
  {
    if a < b then b else a
  }

  /**
   * get_ref: the terminal row and column of the top-left corner of the
   * 72-row, 160-column picture. The space left over is split in two, the odd
   * row or column going below or to the right, after a margin of 2 rows and
   * 3 columns; a terminal too small for the picture gets the bare margin.
   */
  function GetRef(width: int, height: int): (ref: (int, int))
    ensures ref.0 >= 2 && ref.1 >= 3
    ensures height < GbHeight / 2 ==> ref.0 == 2
    ensures height >= GbHeight / 2 ==> 2 * (ref.0 - 2) <= height - GbHeight / 2 <= 2 * (ref.0 - 2) + 1
    ensures width < GbWidth ==> ref.1 == 3
    ensures width >= GbWidth ==> 2 * (ref.1 - 3) <= width - GbWidth <= 2 * (ref.1 - 3) + 1
  {
    (2 + Max(0, (height - GbHeight / 2) / 2), 3 + Max(0, (width - GbWidth) / 2))
  }

  /** A larger terminal never moves the picture up or left. */
  lemma {:induction false} GetRefMonotone(width: int, height: int, width': int, height': int)
    requires width <= width' && height <= height'
    ensures GetRef(width, height).0 <= GetRef(width', height').0
    ensures GetRef(width, height).1 <= GetRef(width', height').1
  {
    var a, a' := GetRef(width, height), GetRef(width', height');
    if height >= GbHeight / 2 {
      assert 2 * (a.0 - 2) <= height - GbHeight / 2 <= height' - GbHeight / 2 <= 2 * (a'.0 - 2) + 1;
    }
    if width >= GbWidth {
      assert 2 * (a.1 - 3) <= width - GbWidth <= width' - GbWidth <= 2 * (a'.1 - 3) + 1;
    }
  }

  /** The 144 x 160 video buffer of the engine, one 0xRRGGBB value per pixel. */
  type Frame = seq<seq<int>>

  /** `np.full((144, 160), -1)`: a picture no real frame equals, so blit redraws every cell against it. */
  const InvalidFrame: Frame := Filled(GbHeight, Filled(GbWidth, -1))

  /** `get_size()`: rows, then columns. */
  datatype Size = Size(height: int, width: int)

  /**
   * What the outside world supplies during tick i: the value of get_input(),
   * the (offset, samples) that run_for returns and the video buffer it leaves,
   * the key events read_keys yields, and the size get_size reports if asked.
   */
  datatype Step = Step(input: int, offset: int, samples: nat, video: Frame, keys: seq<string>, size: Size)

  /** The arguments of one call to blit: the frame, the frame the terminal shows, placement, area and colour mode. */
  datatype BlitArgs = BlitArgs(video: Frame, lastFrame: Frame, refx: int, refy: int, width: int, height: int, colorMode: int)

  /** What one tick does to the engine, the audio sink and the terminal, in order. */
  datatype Effect =
    | SetInput(value: int)        // gb.set_input, just before run_for
    | SendAudio(samples: nat)     // audio_out.send(audio[:samples])
    | EraseScreen                 // output.erase_screen() on a size change
    | Flush                       // output.flush() after it
    | WriteFrame(args: BlitArgs)  // os.write of what blit returns
    | AskForCpr                   // output.ask_for_cpr(): a DSR request, ECMA-48 section 8.3.35
    | SyncAudio                   // audio_out.sync()
    | Pace(deadline: real)        // the deadline the tick sleeps towards

  /**
   * How run ends: `assert color_mode > 0` failing, a load code, `return 0`,
   * KeyboardInterrupt, OSError, or still running when the steps run out.
   */
  datatype Outcome = AssertionFailed | LoadFailed(code: int) | Finished | Interrupted | Closed | Suspended

  /** The arguments of run that the loop reads, with fps = GB_FPS * speed_factor. */
  datatype Config = Config(frameAdvance: int, breakAfter: Option<int>, hasAudio: bool, colorMode: int, fps: real)

  /**
   * `i % frame_advance` needs a non-zero divisor. The reporting takes
   * `i % int(round(fps))`, and Python rounds every fps up to 0.5 to 0, so it
   * needs fps above one half.
   */
  predicate ValidConfig(cfg: Config)
  {
    cfg.frameAdvance != 0 && cfg.fps > 0.5
  }

  /** fps for a speed factor. */
  function Fps(speedFactor: real): real
  {
    GbFps * speedFactor
  }

  /** The local variables of run that survive from one tick to the next. */
  datatype State = State(newFrame: bool, gotCpr: bool, lastFrame: Frame, size: Size, refx: int, refy: int, start: real)

  /** The state before the first tick: no frame pending, no request outstanding, nothing shown. */
  function Initial(size: Size, start: real): State
  {
    var ref := GetRef(size.width, size.height);
    State(false, true, InvalidFrame, size, ref.0, ref.1, start)
  }

  /** The picture is placed for the size it was placed for. */
  predicate Placed(st: State)
  {
    (st.refx, st.refy) == GetRef(st.size.width, st.size.height)
  }

  /** Some key event of the tick is ctrl-c or ctrl-d. */
  predicate StopKey(keys: seq<string>)
  {
    exists j :: 0 <= j < |keys| && (keys[j] == CtrlC || keys[j] == CtrlD)
  }

  /** A non-empty key list has a stop key in its head or in its tail. */
  lemma {:induction false} StopKeySplit(keys: seq<string>)
    requires keys != []
    ensures StopKey(keys) <==> keys[0] == CtrlC || keys[0] == CtrlD || StopKey(keys[1..])
  {
    if StopKey(keys[1..]) {
      var j :| 0 <= j < |keys[1..]| && (keys[1..][j] == CtrlC || keys[1..][j] == CtrlD);
      assert keys[j + 1] == keys[1..][j];
    }
    if StopKey(keys) && keys[0] != CtrlC && keys[0] != CtrlD {
      var j :| 0 <= j < |keys| && (keys[j] == CtrlC || keys[j] == CtrlD);
      assert j > 0 && keys[1..][j - 1] == keys[j];
    }
  }

  /** The outcome of the key loop: an exception, or the new value of got_cpr_response. */
  datatype KeyScan = Raised(outcome: Outcome) | Read(gotCpr: bool)

  /** The `for event in read_keys()` loop: the first ctrl-c or ctrl-d raises; a cursor position report sets the flag. */
  function ScanKeys(keys: seq<string>, gotCpr: bool): (r: KeyScan)
    ensures r.Raised? <==> StopKey(keys)
    ensures r.Raised? ==> r.outcome == Interrupted || r.outcome == Closed
    ensures r.Read? ==> r.gotCpr == (gotCpr || CursorPositionResponse in keys)
  {
    if keys == [] then Read(gotCpr)
    else
      StopKeySplit(keys);
      if keys[0] == CtrlC then Raised(Interrupted)
      else if keys[0] == CtrlD then Raised(Closed)
      else
        assert keys == [keys[0]] + keys[1..];
        ScanKeys(keys[1..], gotCpr || keys[0] == CursorPositionResponse)
  }

  /** How far the deadline moves in one tick: samples / 35112 frames at fps frames a second. */
  function Increment(step: Step, fps: real): real
    requires fps > 0.0
  {
    (step.samples as real / TicksInFrame as real) / fps
  }

  /** set_input and, with an audio sink, send: what every tick does before reading keys. */
  function Head(cfg: Config, step: Step): seq<Effect>
  {
    [SetInput(step.input)] + (if cfg.hasAudio then [SendAudio(step.samples)] else [])
  }

  /** sync and the pacing towards the deadline: what every tick that is not interrupted ends with. */
  function Tail(cfg: Config, deadline: real): seq<Effect>
  {
    (if cfg.hasAudio then [SyncAudio] else []) + [Pace(deadline)]
  }

  /** Where the picture goes for a frame written at the size of `step`: re-centred only on a size change. */
  function Placement(st: State, step: Step): (int, int)
  {
    if step.size != st.size then GetRef(step.size.width, step.size.height) else (st.refx, st.refy)
  }

  /** The arguments blit gets for the frame of `step`. */
  function RenderArgs(cfg: Config, st: State, step: Step): BlitArgs
  {
    var last := if step.size != st.size then InvalidFrame else st.lastFrame;
    var ref := Placement(st, step);
    BlitArgs(step.video, last, ref.0, ref.1, step.size.width - 1, step.size.height, cfg.colorMode)
  }

  /** What the render branch writes: an erase on a size change, the frame, and the DSR request. */
  function Render(cfg: Config, st: State, step: Step): seq<Effect>
  {
    (if step.size != st.size then [EraseScreen, Flush] else []) + [WriteFrame(RenderArgs(cfg, st, step)), AskForCpr]
  }

  /** The variables after the render branch: nothing pending, a request outstanding, the frame shown. */
  function Rendered(st: State, step: Step): State
  {
    var ref := Placement(st, step);
    State(false, false, step.video, step.size, ref.0, ref.1, st.start)
  }

  datatype TickResult = TickResult(effects: seq<Effect>, next: State, stop: Option<Outcome>)

  /** One pass of the loop body for tick i, after the break_after test. */
  function Tick(cfg: Config, st: State, i: nat, step: Step): TickResult
    requires ValidConfig(cfg)
  {
    var pending := st.newFrame || step.offset > 0;
    match ScanKeys(step.keys, st.gotCpr)
    case Raised(o) => TickResult(Head(cfg, step), st.(newFrame := pending), Some(o))
    case Read(got) =>
      var deadline := st.start + Increment(step, cfg.fps);
      if i % cfg.frameAdvance == 0 && pending && got then
        TickResult(Head(cfg, step) + Render(cfg, st, step) + Tail(cfg, deadline), Rendered(st, step).(start := deadline), None)
      else
        TickResult(Head(cfg, step) + Tail(cfg, deadline), st.(newFrame := pending, gotCpr := got, start := deadline), None)
  }

  /** The logs of a run, one per tick that called the engine, and how it ended. */
  datatype Result = Result(outcome: Outcome, logs: seq<seq<Effect>>, final: State)

  /** The `for i in count()` loop from tick i on, as long as the steps last. */
  function RunFrom(cfg: Config, st: State, steps: seq<Step>, i: nat): Result
    requires ValidConfig(cfg) && i <= |steps|
    decreases |steps| - i
  {
    if cfg.breakAfter.Some? && i >= cfg.breakAfter.value then Result(Finished, [], st)
    else if i == |steps| then Result(Suspended, [], st)
    else
      var t := Tick(cfg, st, i, steps[i]);
      if t.stop.Some? then Result(t.stop.value, [t.effects], t.next)
      else
        var r := RunFrom(cfg, t.next, steps, i + 1);
        r.(logs := [t.effects] + r.logs)
  }

  /** run: the colour mode is checked first, then a non-zero load code is returned before any tick. */
  function Game(cfg: Config, loadCode: int, size: Size, start: real, steps: seq<Step>): Result
    requires ValidConfig(cfg)
  {
    if cfg.colorMode <= 0 then Result(AssertionFailed, [], Initial(size, start))
    else if loadCode != 0 then Result(LoadFailed(loadCode), [], Initial(size, start))
    else RunFrom(cfg, Initial(size, start), steps, 0)
  }

  /** The log holds a frame write. */
  predicate Writes(effects: seq<Effect>)
  {
    exists j :: 0 <= j < |effects| && effects[j].WriteFrame?
  }

  lemma {:induction false} WritesConcat(a: seq<Effect>, b: seq<Effect>)
    ensures Writes(a + b) <==> Writes(a) || Writes(b)
  {
    if Writes(a + b) {
      var j :| 0 <= j < |a + b| && (a + b)[j].WriteFrame?;
      if j >= |a| {
        assert b[j - |a|] == (a + b)[j];
      } else {
        assert a[j] == (a + b)[j];
      }
    }
    if Writes(b) {
      var j :| 0 <= j < |b| && b[j].WriteFrame?;
      assert (a + b)[|a| + j] == b[j];
    }
    if Writes(a) {
      var j :| 0 <= j < |a| && a[j].WriteFrame?;
      assert (a + b)[j] == a[j];
    }
  }

  /** Only the render branch writes a frame. */
  lemma {:induction false} TickFrameParts(cfg: Config, st: State, step: Step, deadline: real)
    ensures !Writes(Head(cfg, step)) && !Writes(Tail(cfg, deadline))
    ensures Writes(Render(cfg, st, step)) && WriteFrame(RenderArgs(cfg, st, step)) in Render(cfg, st, step)
  {
    var head, tail, render := Head(cfg, step), Tail(cfg, deadline), Render(cfg, st, step);
    assert forall j :: 0 <= j < |head| ==> !head[j].WriteFrame?;
    assert forall j :: 0 <= j < |tail| ==> !tail[j].WriteFrame?;
    assert render[|render| - 2] == WriteFrame(RenderArgs(cfg, st, step));
  }

  /**
   * The render gate: a tick writes a frame exactly when it is not interrupted,
   * i is a multiple of frame_advance, a new frame is pending and the
   * terminal has answered the previous request (possibly during this tick).
   */
  lemma {:induction false} RenderGate(cfg: Config, st: State, i: nat, step: Step)
    requires ValidConfig(cfg)
    ensures Tick(cfg, st, i, step).stop.None? <==> !StopKey(step.keys)
    ensures Writes(Tick(cfg, st, i, step).effects)
        <==> !StopKey(step.keys) && i % cfg.frameAdvance == 0 && (st.newFrame || step.offset > 0)
             && (st.gotCpr || CursorPositionResponse in step.keys)
  {
    var deadline := st.start + Increment(step, cfg.fps);
    var head, tail, render := Head(cfg, step), Tail(cfg, deadline), Render(cfg, st, step);
    TickFrameParts(cfg, st, step, deadline);
    WritesConcat(head, tail);
    WritesConcat(head, render);
    WritesConcat(head + render, tail);
  }

  /**
   * The flags after a tick that was not interrupted: new_frame stays set until
   * a frame is written, and got_cpr_response is false after a write until a
   * cursor position report arrives.
   */
  lemma {:induction false} FlagsAfterTick(cfg: Config, st: State, i: nat, step: Step)
    requires ValidConfig(cfg) && !StopKey(step.keys)
    ensures Tick(cfg, st, i, step).next.newFrame
        == ((st.newFrame || step.offset > 0) && !Writes(Tick(cfg, st, i, step).effects))
    ensures Tick(cfg, st, i, step).next.gotCpr
        == ((st.gotCpr || CursorPositionResponse in step.keys) && !Writes(Tick(cfg, st, i, step).effects))
  {
    RenderGate(cfg, st, i, step);
  }

  /**
   * A tick that writes a frame redraws against an invalid frame and
   * re-centres the picture when the terminal changed size, and afterwards
   * remembers the written video as what the terminal shows; a tick that
   * writes nothing keeps the remembered frame and placement.
   */
  lemma {:induction false} ResizeInvalidates(cfg: Config, st: State, i: nat, step: Step)
    requires ValidConfig(cfg) && Placed(st)
    ensures Placed(Tick(cfg, st, i, step).next)
    ensures Writes(Tick(cfg, st, i, step).effects) ==>
      var args := BlitArgs(step.video, if step.size != st.size then InvalidFrame else st.lastFrame,
                           GetRef(step.size.width, step.size.height).0, GetRef(step.size.width, step.size.height).1,
                           step.size.width - 1, step.size.height, cfg.colorMode);
      && WriteFrame(args) in Tick(cfg, st, i, step).effects
      && Tick(cfg, st, i, step).next.lastFrame == step.video
      && Tick(cfg, st, i, step).next.size == step.size
    ensures !Writes(Tick(cfg, st, i, step).effects) ==>
      Tick(cfg, st, i, step).next.lastFrame == st.lastFrame && Tick(cfg, st, i, step).next.size == st.size
  {
    RenderGate(cfg, st, i, step);
    var deadline := st.start + Increment(step, cfg.fps);
    var head, tail, render := Head(cfg, step), Tail(cfg, deadline), Render(cfg, st, step);
    TickFrameParts(cfg, st, step, deadline);
    if Writes(Tick(cfg, st, i, step).effects) {
      var w := WriteFrame(RenderArgs(cfg, st, step));
      var k :| 0 <= k < |render| && render[k] == w;
      assert (head + render + tail)[|head| + k] == w;
    }
  }

  /** The placement invariant holds from the start. */
  lemma {:induction false} InitialPlaced(size: Size, start: real)
    ensures Placed(Initial(size, start))
    ensures Initial(size, start).gotCpr && !Initial(size, start).newFrame
  {
  }

  /** Where tick i's log sits in a run started at tick `from`. */
  lemma {:induction false} RunTail(cfg: Config, st: State, steps: seq<Step>, i: nat)
    requires ValidConfig(cfg) && i < |steps| && !(cfg.breakAfter.Some? && i >= cfg.breakAfter.value)
    requires Tick(cfg, st, i, steps[i]).stop.None?
    ensures RunFrom(cfg, st, steps, i).logs
         == [Tick(cfg, st, i, steps[i]).effects] + RunFrom(cfg, Tick(cfg, st, i, steps[i]).next, steps, i + 1).logs
    ensures RunFrom(cfg, st, steps, i).outcome == RunFrom(cfg, Tick(cfg, st, i, steps[i]).next, steps, i + 1).outcome
  {
  }

  /**
   * How a run ends: it never runs more ticks than there are steps; it is
   * suspended only once every step is used; it returns 0 only at break_after;
   * and an exception ends it during the last tick it ran, which had ctrl-c or ctrl-d.
   */
  lemma {:induction false} RunShape(cfg: Config, st: State, steps: seq<Step>, i: nat)
    requires ValidConfig(cfg) && i <= |steps|
    ensures var r := RunFrom(cfg, st, steps, i);
      && i + |r.logs| <= |steps|
      && (r.outcome.Suspended? ==> i + |r.logs| == |steps|)
      && (r.outcome.Finished? ==> cfg.breakAfter.Some? && i + |r.logs| == Max(i, cfg.breakAfter.value))
      && (r.outcome.Interrupted? || r.outcome.Closed? ==> |r.logs| > 0 && StopKey(steps[i + |r.logs| - 1].keys))
      && !r.outcome.LoadFailed? && !r.outcome.AssertionFailed?
    decreases |steps| - i
  {
    if cfg.breakAfter.Some? && i >= cfg.breakAfter.value {
    } else if i == |steps| {
    } else {
      var t := Tick(cfg, st, i, steps[i]);
      RenderGate(cfg, st, i, steps[i]);
      if t.stop.None? {
        RunShape(cfg, t.next, steps, i + 1);
        RunTail(cfg, st, steps, i);
      }
    }
  }

  /**
   * break_after = n: when the first n ticks see neither ctrl-c nor ctrl-d and
   * the steps last that long, exactly n ticks run and run returns 0.
   */
  lemma {:induction false} BreakAfterExact(cfg: Config, st: State, steps: seq<Step>, i: nat)
    requires ValidConfig(cfg) && cfg.breakAfter.Some? && i <= |steps|
    requires cfg.breakAfter.value <= |steps|
    requires forall t :: i <= t < cfg.breakAfter.value ==> !StopKey(steps[t].keys)
    ensures RunFrom(cfg, st, steps, i).outcome == Finished
    ensures |RunFrom(cfg, st, steps, i).logs| == Max(0, cfg.breakAfter.value - i)
    decreases |steps| - i
  {
    if i < cfg.breakAfter.value {
      RenderGate(cfg, st, i, steps[i]);
      var t := Tick(cfg, st, i, steps[i]);
      BreakAfterExact(cfg, t.next, steps, i + 1);
      RunTail(cfg, st, steps, i);
    }
  }

  /** A cursor position report arrived during tick t. */
  predicate CprAt(steps: seq<Step>, t: int)
  {
    0 <= t < |steps| && CursorPositionResponse in steps[t].keys
  }

  /** With a request outstanding, the first frame written comes at or after a cursor position report. */
  lemma {:induction false} FirstWriteNeedsCpr(cfg: Config, st: State, steps: seq<Step>, i: nat, k: nat)
    requires ValidConfig(cfg) && i <= |steps| && !st.gotCpr
    requires k < |RunFrom(cfg, st, steps, i).logs| && Writes(RunFrom(cfg, st, steps, i).logs[k])
    ensures exists m :: i <= m <= i + k && CprAt(steps, m)
    decreases k
  {
    var t := Tick(cfg, st, i, steps[i]);
    RunFirst(cfg, st, steps, i);
    RenderGate(cfg, st, i, steps[i]);
    if !CprAt(steps, i) {
      assert t.stop.None?;
      RunTail(cfg, st, steps, i);
      FlagsAfterTick(cfg, st, i, steps[i]);
      assert k != 0;
      assert RunFrom(cfg, st, steps, i).logs[k] == RunFrom(cfg, t.next, steps, i + 1).logs[k - 1];
      FirstWriteNeedsCpr(cfg, t.next, steps, i + 1, k - 1);
    }
  }

  /**
   * At most one frame is unacknowledged: between the ticks of two frame
   * writes, after the first and up to the second, a cursor position report arrived.
   */
  lemma {:induction false} OneFrameInFlight(cfg: Config, st: State, steps: seq<Step>, i: nat, j: nat, k: nat)
    requires ValidConfig(cfg) && i <= |steps| && j < k
    requires k < |RunFrom(cfg, st, steps, i).logs|
    requires Writes(RunFrom(cfg, st, steps, i).logs[j]) && Writes(RunFrom(cfg, st, steps, i).logs[k])
    ensures exists m :: i + j < m <= i + k && CprAt(steps, m)
    decreases j
  {
    var t := Tick(cfg, st, i, steps[i]);
    RunFirst(cfg, st, steps, i);
    RenderGate(cfg, st, i, steps[i]);
    RunTail(cfg, st, steps, i);
    var rest := RunFrom(cfg, t.next, steps, i + 1);
    assert RunFrom(cfg, st, steps, i).logs[k] == rest.logs[k - 1];
    if j == 0 {
      FlagsAfterTick(cfg, st, i, steps[i]);
      FirstWriteNeedsCpr(cfg, t.next, steps, i + 1, k - 1);
    } else {
      assert RunFrom(cfg, st, steps, i).logs[j] == rest.logs[j - 1];
      OneFrameInFlight(cfg, t.next, steps, i + 1, j - 1, k - 1);
    }
  }

  /** The time the steps a .. b-1 account for. */
  function Elapsed(steps: seq<Step>, a: nat, b: nat, fps: real): real
    requires a <= b <= |steps| && fps > 0.0
    decreases b - a
  {
    if a == b then 0.0 else Increment(steps[a], fps) + Elapsed(steps, a + 1, b, fps)
  }

  /** The last effect of a tick's log. */
  function LastEffect(effects: seq<Effect>): Option<Effect>
  {
    if effects == [] then None else Some(effects[|effects| - 1])
  }

  /**
   * The deadline recurrence: every tick that is not interrupted paces itself
   * towards the starting time plus the time of all samples produced so far,
   * whatever the clock said in between.
   */
  lemma {:induction false} DeadlineChain(cfg: Config, st: State, steps: seq<Step>, i: nat, k: nat)
    requires ValidConfig(cfg) && i <= |steps|
    requires i + k < |steps| && k < |RunFrom(cfg, st, steps, i).logs| && !StopKey(steps[i + k].keys)
    ensures LastEffect(RunFrom(cfg, st, steps, i).logs[k]) == Some(Pace(st.start + Elapsed(steps, i, i + k + 1, cfg.fps)))
    decreases k
  {
    RunFirst(cfg, st, steps, i);
    var t := Tick(cfg, st, i, steps[i]);
    if k == 0 {
      TickPaces(cfg, st, i, steps[i]);
      assert Elapsed(steps, i + 1, i + 1, cfg.fps) == 0.0;
    } else {
      RunTail(cfg, st, steps, i);
      assert RunFrom(cfg, st, steps, i).logs[k] == RunFrom(cfg, t.next, steps, i + 1).logs[k - 1];
      DeadlineChain(cfg, t.next, steps, i + 1, k - 1);
      TickStart(cfg, st, i, steps[i]);
    }
  }

  /** The first log of a run is its first tick's, and a run that logs again went on after that tick. */
  lemma {:induction false} RunFirst(cfg: Config, st: State, steps: seq<Step>, i: nat)
    requires ValidConfig(cfg) && i <= |steps| && 0 < |RunFrom(cfg, st, steps, i).logs|
    ensures i < |steps| && !(cfg.breakAfter.Some? && i >= cfg.breakAfter.value)
    ensures RunFrom(cfg, st, steps, i).logs[0] == Tick(cfg, st, i, steps[i]).effects
    ensures 1 < |RunFrom(cfg, st, steps, i).logs| ==> Tick(cfg, st, i, steps[i]).stop.None?
  {
  }

  /** A tick that is not interrupted ends by pacing towards its own deadline. */
  lemma {:induction false} TickPaces(cfg: Config, st: State, i: nat, step: Step)
    requires ValidConfig(cfg) && !StopKey(step.keys)
    ensures LastEffect(Tick(cfg, st, i, step).effects) == Some(Pace(st.start + Increment(step, cfg.fps)))
  {
    var deadline := st.start + Increment(step, cfg.fps);
    var tail := Tail(cfg, deadline);
    var e := Tick(cfg, st, i, step).effects;
    assert ScanKeys(step.keys, st.gotCpr).Read?;
    assert e[|e| - |tail|..] == tail;
  }

  /** A tick that goes on moves the start to its deadline. */
  lemma {:induction false} TickStart(cfg: Config, st: State, i: nat, step: Step)
    requires ValidConfig(cfg) && Tick(cfg, st, i, step).stop.None?
    ensures Tick(cfg, st, i, step).next.start == st.start + Increment(step, cfg.fps)
  {
  }

  /** The `for event in read_keys()` loop. */
  method ReadKeys(keys: seq<string>, gotCpr: bool) returns (raised: Option<Outcome>, got: bool)
    ensures ScanKeys(keys, gotCpr) == if raised.Some? then Raised(raised.value) else Read(got)
  {
    got := gotCpr;
    for j := 0 to |keys|
      invariant ScanKeys(keys, gotCpr) == ScanKeys(keys[j..], got)
    {
      assert keys[j..][1..] == keys[j + 1..];
      if keys[j] == CtrlC {
        return Some(Interrupted), got;
      }
      if keys[j] == CtrlD {
        return Some(Closed), got;
      }
      if keys[j] == CursorPositionResponse {
        got := true;
      }
    }
    assert keys[|keys|..] == [];
    raised := None;
  }

  /** Prepending one tick's log to the rest of a run. */
  lemma {:induction false} LogsSnoc(logs: seq<seq<Effect>>, effects: seq<Effect>, rest: seq<seq<Effect>>)
    ensures logs + ([effects] + rest) == (logs + [effects]) + rest
  {
    ConcatAssoc(logs, [effects], rest);
  }

  /** The render branch of the loop body: lines that check the size, blit, write and ask for a report. */
  method RenderFrame(cfg: Config, st: State, step: Step) returns (render: seq<Effect>, next: State)
    ensures render == Render(cfg, st, step) && next == Rendered(st, step)
  {
    var lastFrame, height, width, refx, refy := st.lastFrame, st.size.height, st.size.width, st.refx, st.refy;
    render := [];
    if step.size != Size(height, width) {
      render := render + [EraseScreen, Flush];
      height, width := step.size.height, step.size.width;
      var ref := GetRef(width, height);
      refx, refy := ref.0, ref.1;
      lastFrame := InvalidFrame;
    }
    render := render + [WriteFrame(BlitArgs(step.video, lastFrame, refx, refy, width - 1, height, cfg.colorMode))];
    lastFrame := step.video;
    render := render + [AskForCpr];
    next := State(false, false, lastFrame, Size(height, width), refx, refy, st.start);
  }

  /**
   * One pass of the loop body of run for tick i, on the variables of run.
   * On ctrl-c or ctrl-d it stops with what it did so far; otherwise it returns
   * the new values of the variables.
   */
  method RunTick(cfg: Config, st: State, i: nat, step: Step) returns (effects: seq<Effect>, stop: Option<Outcome>, next: State)
    requires ValidConfig(cfg)
    ensures effects == Tick(cfg, st, i, step).effects && stop == Tick(cfg, st, i, step).stop
    ensures stop.None? ==> next == Tick(cfg, st, i, step).next
  {
    next := st;
    effects := [SetInput(step.input)];
    next := next.(newFrame := next.newFrame || step.offset > 0);
    if cfg.hasAudio {
      effects := effects + [SendAudio(step.samples)];
    }
    assert effects == Head(cfg, step);
    var gotCpr;
    stop, gotCpr := ReadKeys(step.keys, next.gotCpr);
    if stop.Some? {
      return;
    }
    assert ScanKeys(step.keys, st.gotCpr) == Read(gotCpr);
    next := next.(gotCpr := gotCpr);
    if i % cfg.frameAdvance == 0 && next.newFrame && next.gotCpr {
      var render;
      render, next := RenderFrame(cfg, st, step);
      effects := effects + render;
    }
    var tail: seq<Effect> := [];
    if cfg.hasAudio {
      tail := tail + [SyncAudio];
    }
    var deadline := next.start + (step.samples as real / TicksInFrame as real) / cfg.fps;
    tail := tail + [Pace(deadline)];
    assert tail == Tail(cfg, deadline);
    effects := effects + tail;
    next := next.(start := deadline);
  }

  /**
   * run, with the load code, the first get_size(), time.time() and every
   * tick's outside values as parameters; the logs are what it does.
   */
  method Run(cfg: Config, loadCode: int, size: Size, start0: real, steps: seq<Step>)
    returns (outcome: Outcome, logs: seq<seq<Effect>>)
    requires ValidConfig(cfg)
    ensures outcome == Game(cfg, loadCode, size, start0, steps).outcome
    ensures logs == Game(cfg, loadCode, size, start0, steps).logs
    ensures cfg.colorMode <= 0 ==> outcome == AssertionFailed && logs == []
    ensures cfg.colorMode > 0 && loadCode != 0 ==> outcome == LoadFailed(loadCode) && logs == []
  {
    if cfg.colorMode <= 0 {
      return AssertionFailed, [];
    }
    if loadCode != 0 {
      return LoadFailed(loadCode), [];
    }
    var st := Initial(size, start0);
    logs := [];
    var i := 0;
    while true
      invariant i <= |steps|
      invariant Game(cfg, loadCode, size, start0, steps).outcome == RunFrom(cfg, st, steps, i).outcome
      invariant Game(cfg, loadCode, size, start0, steps).logs == logs + RunFrom(cfg, st, steps, i).logs
      decreases |steps| - i
    {
      if cfg.breakAfter.Some? && i >= cfg.breakAfter.value {
        return Finished, logs;
      }
      if i == |steps| {
        return Suspended, logs;
      }
      var effects, stop, next := RunTick(cfg, st, i, steps[i]);
      if stop.Some? {
        return stop.value, logs + [effects];
      }
      RunTail(cfg, st, steps, i);
      LogsSnoc(logs, effects, RunFrom(cfg, next, steps, i + 1).logs);
      logs := logs + [effects];
      st := next;
      i := i + 1;
    }
  }
}
