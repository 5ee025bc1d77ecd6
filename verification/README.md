# gambatte-terminal, modelled in Dafny

gambatte-terminal plays Game Boy games in a terminal. A compiled engine emulates
the console. Python code around it does the rest:

- it turns key presses, game-controller buttons or a recorded BizHawk input log
  into the console's eight input flags;
- it fires the save-slot events;
- it packs the engine's audio into fixed blocks for the sound card;
- it decides which colour depth the terminal supports;
- it paces the frame loop and writes a frame only after the terminal has
  answered the previous one with a cursor position report. The request is the
  DSR sequence `ESC [ 6 n` and the reply the CPR sequence `ESC [ row ; col R`,
  sections 8.3.35 and 8.3.14 of ECMA-48;
- the older front-end paints frames as half-block characters coloured by SGR
  direct-colour fields.

The model covers that Python code, one module per source file:

| module | file | form |
|---|---|---|
| `Common` | helpers | options, bytes, sequence and division facts |
| `Console` | gambaterm/console.py | input flags and bit masks, the event values, the modulo-10 save slot, `GameboyColor` as a class over the engine's requests |
| `Inputs` | gambaterm/inputs.py | the input-log line parser, the skip rules, the replay getter as a class (`LogReplay`) |
| `FileInput` | gambaterm/file_input.py | `value_to_line`, the set-valued replay, the recording getter (`InputRecorder`) |
| `KeyboardInput` | gambaterm/keyboard_input.py | the newly-pressed event dispatch (`PressedTracker`), the X11 event fold (`XlibKeyState`), the pynput callbacks (`PynputKeyState`) |
| `Keysyms` | X11 keysym constants used by the mappings | constants only |
| `ControllerInput` | gambaterm/controller_input.py | the controller mappings and the combined getter |
| `XInput` | gambaterm/xinput.py | the keysym-to-flag fold |
| `Colors` | gambaterm/colors.py | the colour-depth decision chain over the environment |
| `Audio` | gambaterm/audio.py | `AudioOut` as a class with an array buffer and a bounded block queue |
| `HalfBlock` | gambatte-terminal.py | the `rrr;ggg;bbb` field encoder, the byte template of `make_data` and the in-place painter `paint_frame` (`Painter`) |
| `Scheduler` | gambaterm/run.py | `get_ref` and the frame loop of `run` |
| `LegacyMain` | gambaterm/__main__.py | the CPR recogniser, `wait_for_cpr` and the frame loop of `run` |

Pure code is written as functions. Code that updates state is written as
classes and methods, each proved against a function that says what it computes.

The engine (`GB`), the diff encoder `blit` and the compiled `paint_frame` used
by the newer loops are outside the model. So are the terminal, stdin, the
clock and the terminal size. What a loop receives from them in one frame is a
step value, and what the loop does to them is a log of effects:

- `Scheduler.Step` and `Scheduler.Effect` for run.py;
- `LegacyMain.Step` and `LegacyMain.Effect` for `__main__.py`.

For `__main__.py`, stdin is the sequence of chunks its successive 1024-byte
reads return.

The key, button and keysym tables, and the list of basic terminals, are constants:

| constant | source |
|---|---|
| `Inputs.Order` | gambaterm/inputs.py:18-27 |
| `KeyboardInput.XlibInputMapping` | gambaterm/keyboard_input.py:16-40 |
| `KeyboardInput.XlibEventMapping` | gambaterm/keyboard_input.py:43-59 |
| `KeyboardInput.KeyboardInputMapping` | gambaterm/keyboard_input.py:62-84 |
| `KeyboardInput.KeyboardEventMapping` | gambaterm/keyboard_input.py:87-101 |
| `ControllerInput.ControllerInputMapping` | gambaterm/controller_input.py:10-31 |
| `ControllerInput.ControllerEventMapping` | gambaterm/controller_input.py:34-41 |
| `XInput.Mapping` | gambaterm/xinput.py:27-44 |
| `Colors.BasicTerminals` | gambaterm/colors.py:9-19 |

What the tables say is stated by SeveralKeysOneButton, ControllerEvents,
HatAndAxisAgree, ButtonsAndEventsDisjoint, BothShifts and BasicTerminalHasColor.

## Model

| member | source | states |
|---|---|---|
| Console.FlagBitIsFlag | gambaterm/console.py:20-28 | The bit-vector flag of every input equals its integer value |
| Console.Mask | gambaterm/console.py:133-134 | `sum(input_set)` over the flags; MaskIsBitwiseOr, BitsMember and MaskInjective state what it is |
| Console.MaskIsBitwiseOr | gambaterm/console.py:133-134 | The sum of a set of input flags equals their bitwise OR and is below 256 |
| Console.BitsInsert | gambaterm/console.py:20-28 | Adding an input to a set ORs its flag into the mask |
| Console.BitsMember | gambaterm/console.py:20-28 | An input's bit is set in the mask exactly when the input is in the set |
| Console.MaskInjective | gambaterm/console.py:20-28 | Two input sets with the same sum are the same set, since the flags are distinct bits |
| Console.Pressing | gambaterm/keyboard_input.py:241-245 | An input is in the result exactly when some pressed key maps to it |
| Console.PressingInsert | gambaterm/keyboard_input.py:241-245 | One more key adds exactly that key's mapped input, if it has one |
| Console.Event.Value | gambaterm/console.py:30-44 | Event values lie below 14, and only the slot selections are below 10 |
| Console.RequestFor | gambaterm/console.py:76-88 | An event selects a slot in 0..9 exactly when it is neither load nor save, which ask the engine to load or save |
| Console.RequestsForAppend | gambaterm/console.py:76-88 | Handling one more event appends its engine request, made against the slot left by the earlier events |
| Console.SlotTransitions | gambaterm/console.py:76-88 | A selection sets slot n; increment and decrement move modulo 10, so 9 wraps to 0 and 0 to 9; load and save keep the slot; otherwise the slot lies in 0..9 |
| Console.IncrementThenDecrement | gambaterm/console.py:79-82 | Incrementing and then decrementing returns to the slot read modulo 10 |
| Console.IncrementCycle | gambaterm/console.py:79-80 | k increments from slot s select slot (s + k) mod 10 |
| Console.GameboyColor.Open | gambaterm/console.py:126-131 | A non-zero load code gives no console: it fails with the file error when the ROM cannot be opened and with that code otherwise; a zero code gives a fresh console on the engine's slot |
| Console.GameboyColor.constructor | gambaterm/console.py:114-131 | A new console starts on the engine's slot with no requests |
| Console.GameboyColor.GetCurrentState | gambaterm/console.py:142-143 | The current slot is the engine's slot modulo 10, always in 0..9 |
| Console.GameboyColor.SetCurrentState | gambaterm/console.py:145-146 | Asks the engine for slot value mod 10 (non-negative) and records it |
| Console.GameboyColor.SetInputs | gambaterm/console.py:133-134 | Sends the sum of the flags, a mask below 256, and leaves the slot alone |
| Console.GameboyColor.HandleEvent | gambaterm/console.py:76-88 | The slot moves as the event says and exactly one engine request is sent |
| Inputs.OrderCoversAllButtons | gambaterm/inputs.py:18-27 | Every input has a column in the log line |
| Inputs.ColumnsPressedMembers | gambaterm/inputs.py:51 | The k-th input counts as pressed exactly when column k+1 is a character other than '.' |
| Inputs.ParseMask | gambaterm/inputs.py:51 | The sum over the non-dot columns; ParseMaskIsMask and ParseIgnoresTail state what it computes |
| Inputs.ParseMaskIsMask | gambaterm/inputs.py:51 | The parsed value is the mask of the pressed columns' inputs, so it is below 256 |
| Inputs.ParseIgnoresTail | gambaterm/inputs.py:51 | Characters after position 8 of a line do not change what it parses to |
| Inputs.Yielded | gambaterm/inputs.py:45-52 | The finite part of the generator from line `from` on; YieldedSkips and YieldedAllLogLines state what it yields |
| Inputs.YieldedSkips | gambaterm/inputs.py:46-50 | Lines that do not start with '\|' or sit below the skip count yield nothing |
| Inputs.ParseAll | gambaterm/inputs.py:45-52 | Parses every line, in order |
| Inputs.YieldedAllLogLines | gambaterm/inputs.py:45-52 | When every line is a log line, the generator yields the lines from index max(skip, 0) on, each parsed |
| Inputs.LogReplay.constructor | gambaterm/inputs.py:42-57 | The getter starts with exactly the values the generator would yield |
| Inputs.LogReplay.Next | gambaterm/inputs.py:53-57 | Each call consumes one yielded value, in order, and returns the idle value forever once the log is exhausted |
| Inputs.MaskReplay | gambaterm/inputs.py:42-57 | The file getter yields the parsed masks of the kept lines and then 0 |
| FileInput.Initial | gambaterm/file_input.py:11-21 | The letter written for an input is neither '.' nor '\|' |
| FileInput.LineOf | gambaterm/file_input.py:24-29 | The written line has ten characters framed by '\|', and column k is '.' exactly when the k-th input is not pressed |
| FileInput.ValueToLine | gambaterm/file_input.py:24-29 | The line has 10 characters with '\|' at both ends, and column k+1 holds the k-th input's initial when pressed and '.' otherwise |
| FileInput.ParseInputSet | gambaterm/file_input.py:58 | The set of inputs of the non-dot columns; LineRoundTrip and ReplaysAgree state what it reads |
| FileInput.LineRoundTrip | gambaterm/file_input.py:24-29 | Parsing columns 1..8 of a written line gives back the input set |
| FileInput.RecordedLineRoundTrip | gambaterm/file_input.py:58-76 | A line the recorder prints, newline included, parses back as the value it records |
| FileInput.ReplaysAgree | gambaterm/file_input.py:52-61 | The set-valued and the mask-valued replays yield the same number of values, each mask being the sum of the set |
| FileInput.SetReplay | gambaterm/file_input.py:46-64 | The set getter yields the parsed sets of the kept lines and then the empty set |
| FileInput.InputRecorder.constructor | gambaterm/file_input.py:67-79 | A fresh recorder has written nothing |
| FileInput.InputRecorder.Get | gambaterm/file_input.py:74-77 | Returns the wrapped getter's value unchanged and appends exactly its line, ended by the newline print adds, to the log |
| FileInput.LinesOf | gambaterm/file_input.py:74-77 | The log of a sequence of values holds one newline-ended line per value, in order |
| FileInput.RecordThenReplay | gambaterm/file_input.py:52-77 | Replaying a recorded log, newlines included, with skip s yields the recorded values from s on |
| KeyboardInput.EventsOf | gambaterm/keyboard_input.py:237-240 | The events fired while visiting the newly pressed keys in a given order; UnmappedKeysFireNothing and EventsComeFromKeys state which |
| KeyboardInput.UnmappedKeysFireNothing | gambaterm/keyboard_input.py:237-239 | Keys without an event mapping fire no event |
| KeyboardInput.EventsComeFromKeys | gambaterm/keyboard_input.py:237-240 | Every fired event is the mapping of one of the visited keys |
| KeyboardInput.NoKeysNoOrder | gambaterm/keyboard_input.py:236-237 | When no key is newly pressed, no key is visited |
| KeyboardInput.VisitStep | gambaterm/keyboard_input.py:237 | Visiting one more key keeps the visited and remaining keys a partition of the new keys |
| KeyboardInput.PressedTracker.constructor | gambaterm/keyboard_input.py:220-233 | The getter starts with no key pressed and the given mappings |
| KeyboardInput.PressedTracker.GetInput | gambaterm/keyboard_input.py:234-245 | Remembers the snapshot; returns the mapped inputs of the pressed keys; fires events only for newly pressed keys, none when nothing is new; the console's slot and requests follow those events |
| KeyboardInput.ApplyEvent | gambaterm/keyboard_input.py:133-172 | One pending event adds at most its own keysym, and only FocusOut releases any other key |
| KeyboardInput.ApplyEvents | gambaterm/keyboard_input.py:133-173 | The pending events applied in order; EventRules, FocusLossReleasesAll and ForeignEventsIgnored state what they do |
| KeyboardInput.EventRules | gambaterm/keyboard_input.py:136-170 | Foreign events change nothing; FocusOut empties the set and unfocuses; a repeated KeyPress adds nothing; a focused KeyRelease removes the keysym and a focused KeyPress adds it |
| KeyboardInput.UnfocusedIgnoresKeys | gambaterm/keyboard_input.py:150-151 | While unfocused, events other than focus changes leave the state unchanged |
| KeyboardInput.FocusLossReleasesAll | gambaterm/keyboard_input.py:141-151 | After FocusOut no key is pressed until FocusIn, whatever key events follow |
| KeyboardInput.ForeignEventsIgnored | gambaterm/keyboard_input.py:136-139 | Events from another extension, or without one, leave the state unchanged |
| KeyboardInput.XlibKeyState.constructor | gambaterm/keyboard_input.py:105-129 | The fold starts focused with no key pressed |
| KeyboardInput.XlibKeyState.GetPressed | gambaterm/keyboard_input.py:130-173 | Folds the pending events into the state as the event rules say and returns the pressed set |
| KeyboardInput.SeveralKeysOneButton | gambaterm/keyboard_input.py:16-40 | f, v and space all give the single input A, on both keyboard back-ends |
| KeyboardInput.AfterCallback | gambaterm/keyboard_input.py:187-207 | What one on_press or on_release does to the pressed set; OnPress and OnRelease are proved equal to it |
| KeyboardInput.AfterCallbacks | gambaterm/keyboard_input.py:182-209 | The pressed set after the listener's callbacks, in order; LastCallbackDecides states what it holds |
| KeyboardInput.PynputKeyState.constructor | gambaterm/keyboard_input.py:209 | No key starts pressed |
| KeyboardInput.PynputKeyState.OnPress | gambaterm/keyboard_input.py:187-196 | The set becomes AfterCallback of an on_press: a key without a name is ignored, otherwise its lower-cased name is added |
| KeyboardInput.PynputKeyState.OnRelease | gambaterm/keyboard_input.py:198-207 | The set becomes AfterCallback of an on_release: a key without a name is ignored, otherwise its lower-cased name is removed |
| KeyboardInput.PressThenRelease | gambaterm/keyboard_input.py:187-207 | An on_press followed by an on_release of keys with the same lower-cased name leaves that name unpressed and every other key as it was |
| KeyboardInput.LastCallbackDecides | gambaterm/keyboard_input.py:187-207 | After any sequence of callbacks a name is pressed exactly when its last callback was on_press, and a name without callbacks keeps its state |
| ControllerInput.ControllerEvents | gambaterm/controller_input.py:34-41 | B4, B5, B8 and B9 fire increment, decrement, load and save, and no other button fires an event |
| ControllerInput.HatAndAxisAgree | gambaterm/controller_input.py:13-20 | The hat and the axis for one direction give the same input |
| ControllerInput.ButtonsAndEventsDisjoint | gambaterm/controller_input.py:10-41 | No controller name is both an input and an event |
| ControllerInput.ControllerGetter | gambaterm/controller_input.py:100-116 | The controller getter starts with nothing pressed and uses the controller mappings |
| ControllerInput.UnknownNamesDoNothing | gambaterm/controller_input.py:105-116 | Names without a mapping give no input and fire no event |
| ControllerInput.CombinedGet | gambaterm/controller_input.py:100-128 | The combined getter returns the union of the first getter's inputs and the controller's. The controller remembers its snapshot and fires the mapped events of exactly its newly pressed buttons. The console's slot and requests become those of handling these events in order |
| XInput.BitsPressingInsert | gambaterm/xinput.py:108-112 | One more keysym ORs in its flag, or 0 when it is unmapped |
| XInput.OrOfIsBits | gambaterm/xinput.py:108-112 | The OR over a keysym sequence depends only on the set of keysyms, not on order or duplicates |
| XInput.GetGbInput | gambaterm/xinput.py:108-112 | Returns the OR of the flags of the pressed mapped keysyms, equal to their sum and below 256 |
| XInput.NothingPressed | gambaterm/xinput.py:109-112 | No key pressed gives 0 |
| XInput.BothShifts | gambaterm/xinput.py:41-42 | Shift_L and Shift_R together give exactly SELECT, 0x04 |
| Colors.ColorMode.Level | gambaterm/colors.py:22-27 | The levels are ordered, with 0 meaning no colour and 4 meaning 24-bit |
| Colors.ContainsExtend | gambaterm/colors.py:50-73 | A substring stays a substring of any extension |
| Colors.Strip | gambaterm/colors.py:61 | The stripped text neither starts nor ends with a blank and is no longer than the input |
| Colors.StripTrims | gambaterm/colors.py:61 | Strip only cuts blanks: its result is a slice of the input with nothing but blanks before and after it |
| Colors.StripBlank | gambaterm/colors.py:61 | Text made only of blanks strips to nothing |
| Colors.StripFront | gambaterm/colors.py:61 | Leading blanks do not change the stripped text |
| Colors.StripBack | gambaterm/colors.py:61 | Trailing blanks do not change the stripped text |
| Colors.RejectedAt | gambaterm/colors.py:61-63 | A character that is neither a digit nor an underscore between digits makes the text unreadable as an integer |
| Colors.ParseInt | gambaterm/colors.py:61-63 | Blank text never parses as an integer |
| Colors.ParseDigits | gambaterm/colors.py:61 | A literal of digits with single underscores between them parses as the value of its digits |
| Colors.DigitsValueOfString | gambaterm/colors.py:61 | The decimal digits of n read back as n |
| Colors.ParseIntOfString | gambaterm/colors.py:61 | `int(str(n))` is n |
| Colors.BeforeDot | gambaterm/colors.py:61 | The result is the longest prefix without a dot, ending where the first dot is |
| Colors.BeforeDotCut | gambaterm/colors.py:61 | A dot-free text followed by a dot and anything is cut back to that text |
| Colors.Classify | gambaterm/colors.py:50-75 | The decision chain never yields 2-bit colour |
| Colors.DetectColorMode | gambaterm/colors.py:42-75 | Detection never yields 2-bit colour |
| Colors.TrueColorWins | gambaterm/colors.py:45-51 | COLORTERM containing "truecolor" or "24bit" gives 24-bit colour whatever else is set |
| Colors.ConEmuOn | gambaterm/colors.py:48-54 | ConEmuANSI equal to "on" in any case gives 24-bit colour |
| Colors.AppleTerminal | gambaterm/colors.py:56-57 | Apple's terminal, past the earlier rules, gives 8-bit colour |
| Colors.ITerm | gambaterm/colors.py:59-64 | iTerm gives 24-bit colour from major version 3 on, and 8-bit for older or unreadable versions |
| Colors.ITermReleases | gambaterm/colors.py:61 | For every n and every tail, the version string `n.tail` gives major version n |
| Colors.UnderscoreSkipped | gambaterm/colors.py:61 | Joining any two well-formed literals with an underscore gives a well-formed literal with the value of the digits alone |
| Colors.BlanksStripped | gambaterm/colors.py:61 | `int` of any text gives the same answer with any blanks added before and after it |
| Colors.ITermBlanksAndUnderscores | gambaterm/colors.py:61 | A major version written as two digit groups joined by an underscore, with any blanks around it and any text after the dot, gives the value of its digits |
| Colors.ITermUnreadable | gambaterm/colors.py:61-63 | A version whose stripped text before the first dot is empty, or holds a character that is not a digit, an underscore before a digit or a leading sign, is unreadable |
| Colors.ITermMajor | gambaterm/colors.py:61 | The major version is `int` of the text before the first dot; the lemmas ITerm, ITermReleases, ITermBlanksAndUnderscores and ITermUnreadable state what it reads |
| Colors.Has256 | gambaterm/colors.py:66-67 | "256" in TERM or COLORTERM, past the earlier rules, gives 8-bit colour |
| Colors.NoColorExactly | gambaterm/colors.py:50-75 | No colour is returned exactly when no rule fires, which includes an empty COLORTERM |
| Colors.BasicTerminalHasColor | gambaterm/colors.py:66-73 | Past the earlier rules and without "256" in TERM or COLORTERM, a basic terminal in TERM or any other non-empty COLORTERM gives exactly 4-bit colour |
| Colors.EmptyEnvironment | gambaterm/colors.py:44-48 | An empty environment gives no colour |
| Colors.LowerValues | gambaterm/colors.py:44-48 | Lowering keeps the variable names and lowers every value |
| Colors.CaseInsensitive | gambaterm/colors.py:44-48 | Detection gives the same result on lowered values, so it ignores case |
| Colors.ProbeReplyRecognised | gambaterm/colors.py:78-95 | A DECRQSS reply confirming `48:2:1:2:3m` anywhere in the data counts as true colour |
| Colors.TrueColorReply | gambaterm/colors.py:95 | The reply test; ProbeReplyRecognised and ErrorReplyRejected state what it accepts and rejects |
| Colors.ErrorReplyRejected | gambaterm/colors.py:78-95 | The terminal's error reply does not count as true colour |
| Colors.LocalColorMode | gambaterm/colors.py:30-39 | detect_local_color_mode with the probe's reply as a parameter; LocalAtLeastEnvironment states what it returns |
| Colors.LocalAtLeastEnvironment | gambaterm/colors.py:30-39 | The local mode is 24-bit when the probe succeeds and the environment's mode otherwise, so never lower |
| Audio.Attenuate | gambaterm/audio.py:55 | Each channel is floor-divided by 4 |
| Audio.AttenuateAll | gambaterm/audio.py:55 | Attenuates every frame, keeping the order |
| Audio.Blocks | gambaterm/audio.py:46-66 | A stream holds one completed block per whole 800 frames, block k being frames 800k..800k+799, attenuated |
| Audio.Offer | gambaterm/audio.py:57-61 | One put_nowait per completed block, in order; OfferKeepsFirst states what the queue ends up holding |
| Audio.OfferKeepsFirst | gambaterm/audio.py:57-61 | Offering blocks to the queue keeps the earliest ones that fit below 6 and drops the rest |
| Audio.NothingCompleted | gambaterm/audio.py:48-53 | Fewer than 800 pending frames complete no block and leave the queue alone |
| Audio.StreamStep | gambaterm/audio.py:48-66 | Filling the buffer up to 800 frames completes the next block of the stream |
| Audio.StreamEnd | gambaterm/audio.py:48-53 | When the data runs out before the buffer fills, the buffer holds the stream's last incomplete block |
| Audio.OfferStep | gambaterm/audio.py:57-61 | Offering one more block is one more put_nowait, dropped when the queue is full |
| Audio.AudioOut.constructor | gambaterm/audio.py:28-36 | Starts with an all-zero 800-frame buffer, offset 0 and an empty queue |
| Audio.AudioOut.Write | gambaterm/audio.py:48-49 | Copies the data that fits after the offset and touches nothing else |
| Audio.AudioOut.Complete | gambaterm/audio.py:55-63 | Queues the attenuated full buffer unless the queue is full, and continues in a fresh zero buffer |
| Audio.AudioOut.Step | gambaterm/audio.py:46-66 | One pass of the loop either stores the data and returns, or completes the next block and hands back the rest |
| Audio.AudioOut.Send | gambaterm/audio.py:42-66 | The queue receives the stream's completed blocks up to its bound; the offset is the stream length mod 800; frames are conserved; queued blocks are never changed; empty data changes nothing |
| Audio.AudioOut.StreamCallback | gambaterm/audio.py:68-72 | Plays the oldest queued block, or silence when the queue is empty |
| HalfBlock.Pad3 | gambatte-terminal.py:18 | `%03d` of a number below 1000 is three digits |
| HalfBlock.Channels | gambatte-terminal.py:21-25 | Each channel is below 256 |
| HalfBlock.Int32ToAnsiBytes | gambatte-terminal.py:18-25 | The field is 11 bytes, digits with semicolons at positions 3 and 7 |
| HalfBlock.Pad3RoundTrip | gambatte-terminal.py:18 | Three padded digits read back as the number |
| HalfBlock.AnsiBytesRoundTrip | gambatte-terminal.py:21-25 | Reading the field gives back the red, green and blue channels |
| HalfBlock.SameChannelsSameField | gambatte-terminal.py:21-25 | Colours with the same channels give the same field |
| HalfBlock.HighBitsIgnored | gambatte-terminal.py:21-25 | Bits above the lower 24 do not change the field |
| HalfBlock.FieldNamesValue | gambatte-terminal.py:21-25 | Different 24-bit colours give different fields |
| HalfBlock.ChannelsCompose | gambatte-terminal.py:21-25 | The channels of a 24-bit colour recompose it |
| HalfBlock.ColorSequence | gambatte-terminal.py:39-40 | An SGR colour sequence is 19 bytes |
| HalfBlock.CellBytes | gambatte-terminal.py:39-41 | A cell is 41 bytes |
| HalfBlock.CellTexts | gambatte-terminal.py:38-41 | Every cell of a row gives a 41-byte text |
| HalfBlock.RowBytes | gambatte-terminal.py:38-42 | A row of n cells is 41n + 5 bytes |
| HalfBlock.RowTexts | gambatte-terminal.py:36-42 | One text per row |
| HalfBlock.Columns | gambatte-terminal.py:50 | The column count is the width, capped at 160 |
| HalfBlock.PaintedRow | gambatte-terminal.py:50-58 | A painted row has one cell per column |
| HalfBlock.PaintedRowStep | gambatte-terminal.py:50-58 | Painting one more column extends the painted prefix of the row |
| HalfBlock.Painted | gambatte-terminal.py:49-58 | A painted frame has 72 rows of the column count |
| HalfBlock.PaintedStep | gambatte-terminal.py:49-58 | Painting one more row pair extends the painted prefix of the frame |
| HalfBlock.BlankRow | gambatte-terminal.py:38-41 | A blank row has the requested cell count |
| HalfBlock.BlankRows | gambatte-terminal.py:36 | n blank rows |
| HalfBlock.Blank | gambatte-terminal.py:36-42 | The blank frame has 72 rows of the column count |
| HalfBlock.Screen | gambatte-terminal.py:28-44 | The bytes of a frame: the header, then one text per row pair; ScreenLength, RowInScreen and CellInScreen state its layout |
| HalfBlock.ScreenLength | gambatte-terminal.py:28-44 | The template is 10 + 72 × (41 × columns + 5) bytes |
| HalfBlock.CellInRow | gambatte-terminal.py:38-42 | Cell c of a row sits at byte 41c |
| HalfBlock.RowInScreen | gambatte-terminal.py:31-42 | Row pair r sits at byte 10 + r × (41 × columns + 5) |
| HalfBlock.CellInScreen | gambatte-terminal.py:48-63 | Each cell sits at the offset paint_frame computes for it |
| HalfBlock.FieldsOfScreen | gambatte-terminal.py:52-59 | The foreground and background fields of each cell sit at offsets +7 and +26 |
| HalfBlock.ColorSequenceUpdate | gambatte-terminal.py:58 | Replacing a colour sequence's field is an 11-byte splice at offset 7 |
| HalfBlock.UpperUpdate | gambatte-terminal.py:58 | Changing a cell's foreground is a splice at byte 7 of the cell |
| HalfBlock.LowerUpdate | gambatte-terminal.py:58 | Changing a cell's background is a splice at byte 26 of the cell |
| HalfBlock.CellUpdate | gambatte-terminal.py:51-59 | Changing half h of a cell is a splice at byte 7 + 19h |
| HalfBlock.CellFields | gambatte-terminal.py:39-41 | Bytes 7..17 of a cell are its foreground field and bytes 26..36 its background field |
| HalfBlock.RowUpdate | gambatte-terminal.py:58 | Replacing cell c of a row is a splice at byte 41c |
| HalfBlock.ScreenUpdate | gambatte-terminal.py:58 | Replacing a row is a splice at that row's offset |
| HalfBlock.RowFieldUpdate | gambatte-terminal.py:58 | Changing one field of a row is a splice at that field's offset in the row |
| HalfBlock.RowSpliceInScreen | gambatte-terminal.py:58 | A splice inside a row is the same splice of the frame at the row's offset |
| HalfBlock.FieldUpdate | gambatte-terminal.py:48-59 | Changing one field of the frame is an 11-byte splice at the offset paint_frame computes |
| HalfBlock.BlackCell | gambatte-terminal.py:39-41 | The blank cell is black foreground, black background and the upper half block |
| HalfBlock.BlankRowStep | gambatte-terminal.py:38-41 | One more loop pass appends one black cell |
| HalfBlock.BlankScreenStep | gambatte-terminal.py:36-42 | One more row loop pass appends one blank row |
| HalfBlock.AppendBlankRow | gambatte-terminal.py:38-42 | The inner loop appends exactly one blank row |
| HalfBlock.BlankScreen | gambatte-terminal.py:29-43 | The loops build exactly the blank frame |
| HalfBlock.MakeData | gambatte-terminal.py:28-44 | The buffer is the blank frame for the capped width, 10 + 72 × (41 × columns + 5) bytes long, and the width is handed back |
| HalfBlock.FieldInField | gambatte-terminal.py:52-59 | Every byte of a painted field is a field byte |
| HalfBlock.Painter.constructor | gambatte-terminal.py:47 | The cache starts empty |
| HalfBlock.Painter.Lookup | gambatte-terminal.py:53-57 | Returns the field of the key, and every cache entry stays the field of its key |
| HalfBlock.Painter.WriteField | gambatte-terminal.py:58 | Writes 11 bytes at the index and nothing else |
| HalfBlock.Painter.PaintHalf | gambatte-terminal.py:51-59 | Writes one pixel's field into its cell half and advances the index by 19 |
| HalfBlock.Painter.PaintCell | gambatte-terminal.py:51-59 | Writes both fields of one cell and advances the index by 38 |
| HalfBlock.Painter.PaintRow | gambatte-terminal.py:50-61 | Paints one row pair and advances the index over its cells |
| HalfBlock.Painter.PaintFrame | gambatte-terminal.py:47-63 | Afterwards the buffer is the frame of the video, cell (r, c) carrying pixel (2r, c) above and (2r+1, c) below; no byte outside the fields changes; the length is kept |
| Scheduler.GetRef | gambaterm/run.py:30-33 | The picture is centred: the margins are at least 2 rows and 3 columns and split the spare room evenly, rounding down |
| Scheduler.GetRefMonotone | gambaterm/run.py:30-33 | A larger terminal never moves the picture up or left |
| Scheduler.StopKeySplit | gambaterm/run.py:105-109 | A stop key is Ctrl-C or Ctrl-D at the head, or one later in the key list |
| Scheduler.ScanKeys | gambaterm/run.py:105-111 | Ctrl-C interrupts and Ctrl-D closes; otherwise the CPR flag is set exactly when it was set or a cursor position report arrived |
| Scheduler.WritesConcat | gambaterm/run.py:132-134 | A log writes a frame exactly when one of its parts does |
| Scheduler.TickFrameParts | gambaterm/run.py:93-153 | Only the render part of a tick writes a frame, and it writes the blit of the frame |
| Scheduler.RenderGate | gambaterm/run.py:105-134 | A tick stops exactly on a stop key, and it writes a frame exactly when it is on the frame_advance grid, a frame is pending and the terminal has answered |
| Scheduler.FlagsAfterTick | gambaterm/run.py:96-134 | The pending-frame flag is sticky and the CPR flag is set by a report; both are cleared by a write |
| Scheduler.ResizeInvalidates | gambaterm/run.py:119-130 | A write after a resize blits against an invalid frame and re-centres the picture; the written video becomes the last frame; a tick that writes nothing keeps both |
| Scheduler.InitialPlaced | gambaterm/run.py:66-85 | The loop starts centred, with the CPR flag set and no frame pending |
| Scheduler.Tick | gambaterm/run.py:92-153 | One pass of the loop body; TickFrameParts, RenderGate, FlagsAfterTick and ResizeInvalidates state what it does |
| Scheduler.RunFrom | gambaterm/run.py:86-153 | The loop from tick i on while the steps last; RunShape, BreakAfterExact, OneFrameInFlight and DeadlineChain state what it does |
| Scheduler.Game | gambaterm/run.py:48-153 | The colour-mode assertion, the load and the loop from the initial state; Run is proved equal to it |
| Scheduler.RunTail | gambaterm/run.py:86-153 | A tick that does not stop is followed by the rest of the loop |
| Scheduler.RunShape | gambaterm/run.py:86-90 | The loop never has more ticks than steps; it ends Finished exactly at break_after and stops on the key it read; it never ends with a load failure or a failed assertion |
| Scheduler.BreakAfterExact | gambaterm/run.py:89-90 | Without stop keys the loop runs exactly break_after ticks and returns 0 |
| Scheduler.FirstWriteNeedsCpr | gambaterm/run.py:110-116 | Without a pending CPR, any written frame comes after a cursor position report |
| Scheduler.OneFrameInFlight | gambaterm/run.py:110-134 | Between two written frames a cursor position report arrived |
| Scheduler.DeadlineChain | gambaterm/run.py:147-153 | The k-th deadline is the start plus the summed increments of the ticks so far, never re-anchored to the clock |
| Scheduler.ReadKeys | gambaterm/run.py:105-111 | The key loop stops at the first Ctrl-C or Ctrl-D, else reports whether a CPR arrived |
| Scheduler.LogsSnoc | gambaterm/run.py:86 | Appending one tick's log after the earlier logs is the same as putting it in front of the later ones |
| Scheduler.RenderFrame | gambaterm/run.py:117-134 | The render block emits the erase on resize, the blit and the CPR request, and leaves the state the write implies |
| Scheduler.RunTick | gambaterm/run.py:92-153 | One loop pass produces exactly the tick's effects, stop and next state |
| Scheduler.Run | gambaterm/run.py:48-153 | The loop produces the logs and outcome of the game; color_mode ≤ 0 fails the assertion with no effects; a failing load returns its code with no effects |
| LegacyMain.DigitsEnd | gambaterm/__main__.py:17 | Returns the end of the longest digit run starting at i |
| LegacyMain.DigitsEndAt | gambaterm/__main__.py:17 | A digit run ended by a non-digit is the one found |
| LegacyMain.MatchesAtIsCprAt | gambaterm/__main__.py:17 | The scanner matches at p exactly when `ESC [ digits ; digits R` starts at p |
| LegacyMain.SearchFrom | gambaterm/__main__.py:17-29 | Finds the leftmost report at or after p, or none exists there |
| LegacyMain.Search | gambaterm/__main__.py:29 | `CPR_PATTERN.search(data)`; SearchFinds and SearchFrom state what it finds |
| LegacyMain.SearchFinds | gambaterm/__main__.py:29 | The search finds something exactly when the data holds a report |
| LegacyMain.CprAtAppend | gambaterm/__main__.py:29-30 | More data keeps a report a report |
| LegacyMain.HasCprAppend | gambaterm/__main__.py:29-30 | Data that holds a report still holds one after more is read |
| LegacyMain.DigitRunPrepend | gambaterm/__main__.py:17 | Data in front shifts a digit run |
| LegacyMain.CprAtPrepend | gambaterm/__main__.py:17 | Data in front shifts a report |
| LegacyMain.CprHasR | gambaterm/__main__.py:17 | Data that holds a report holds an R byte |
| LegacyMain.DecimalBytes | gambaterm/__main__.py:17 | The ASCII digits of n |
| LegacyMain.ReportIsCpr | gambaterm/__main__.py:17 | A terminal's report for any row and column matches |
| LegacyMain.ReportFound | gambaterm/__main__.py:17-30 | A report surrounded by any bytes is found |
| LegacyMain.WaitFrom | gambaterm/__main__.py:28-30 | Waiting ends at a chunk index between where it started and the end of stdin |
| LegacyMain.GatheredStep | gambaterm/__main__.py:30 | Reading one more chunk appends it to the data |
| LegacyMain.WaitFromMeaning | gambaterm/__main__.py:28-30 | Waiting stops after the first read that makes the data hold a report; when none does, the wait never ends |
| LegacyMain.WaitForCpr | gambaterm/__main__.py:28-30 | The read loop stops at the wait's chunk index, or reports that stdin ran out |
| LegacyMain.Tick | gambaterm/__main__.py:74-95 | A tick only moves forward in stdin |
| LegacyMain.FrameProtocol | gambaterm/__main__.py:83-95 | A painting tick paints at 1, 1 against the last frame, waits for the first report after tick 0, then writes the frame and DSR; if no report ever arrives it blocks before writing |
| LegacyMain.SkipOrFail | gambaterm/__main__.py:77-81 | A tick fails exactly when there is no video; an odd tick outside fast mode only sets the input; a frame is written exactly on the painting ticks that do not block |
| LegacyMain.LegacyRunShape | gambaterm/__main__.py:68-72 | The loop never has more ticks than steps; test mode stops at 3600 ticks and returns there; the loop never exits with a code |
| LegacyMain.RunFrom | gambaterm/__main__.py:68-95 | The loop from tick i on while the steps last; LegacyRunShape, LogAfter and LastPainted state what it does |
| LegacyMain.Legacy | gambaterm/__main__.py:41-95 | The load and the loop from the start; LegacyRun is proved equal to it |
| LegacyMain.PreviousFrameShift | gambaterm/__main__.py:85-86 | The last painted frame before n, seen one tick later |
| LegacyMain.SlowModePrevious | gambaterm/__main__.py:80-86 | Outside fast mode, the frame painted before tick n is tick n − 2's |
| LegacyMain.LogAfter | gambaterm/__main__.py:68-86 | A later tick's log is the log of the loop from the next tick, and last_frame moves only on painting ticks |
| LegacyMain.LastPainted | gambaterm/__main__.py:85-86 | Each painting tick paints against the video of the last earlier painting tick |
| LegacyMain.LegacyTick | gambaterm/__main__.py:74-95 | One loop pass produces exactly the tick's effects, stop and next state |
| LegacyMain.LegacyRun | gambaterm/__main__.py:41-95 | The loop produces the legacy run's logs and outcome; a failing load exits with its code and writes nothing |

## Left out

- The engine `GB` (`load`, `run_for`, save states) is compiled C++ and is not part of this model. Its results are inputs: a load code and a per-tick step.
- The diff encoder `blit` is compiled code and is not part of this model. So is the compiled `paint_frame` used by gambaterm/__main__.py. Both appear only as effects carrying their arguments.
- Wall-clock sleeping, `time.time()` and the FPS and bandwidth reporting use floating point and the clock. The deadline recurrence of run.py is kept over `real`; the sleep, the reporting and the legacy time control are not modelled.
- Scheduler.ValidConfig: run.py takes `i % frame_advance` and `i % int(round(fps))`, so the model requires a non-zero `frame_advance` and an `fps` above 0.5. The command line admits the other values, and the model has none of the outcomes they cause. A `frame_advance` of 0 raises ZeroDivisionError at run.py:116. An `fps` of 0 raises ZeroDivisionError at `increment / fps`, run.py:148. Any other `fps` from -0.5 to 0.5 rounds to 0 and raises ZeroDivisionError at run.py:156. An `fps` below -0.5 rounds to a negative `maxlen`, so `deque` raises ValueError at run.py:72, after the load and before the first tick.
- Scheduler.Tick and Scheduler.RunFrom: the reporting block of run.py:156-170 is not modelled. On a reporting tick whose window of the last `round(fps)` sample counts sums to 0, `len(ticks) / sum(ticks)` raises ZeroDivisionError and ends run; the model carries on, since it keeps no window of sample counts.
- Scheduler.Tick: the audio sync is the `SyncAudio` effect, following run.py:144-145. `AudioOut` in gambaterm/audio.py defines no `sync` method, and the model does not say what that call does.
- Scheduler.RunFrom and LegacyMain.RunFrom: the loops never end on their own. The model ends them when the finite step sequence runs out (outcome `Suspended`), or when stdin runs out while waiting for a report (outcome `Blocked`).
- LegacyMain.WaitForCpr: `wait_for_cpr` keeps the bytes it reads locally, so the bytes after a report are dropped. The model starts the next wait with empty data, which is the same behaviour.
- The assertions in run.py:48 and gambaterm/__main__.py:77 are modelled as an `AssertionFailed` outcome. Python's `-O` flag, which removes them, is not modelled.
- The audio resampler (`AudioOut.ratio`, samplerate), the sounddevice stream and `audio_player` are foreign. The resampler's output is taken to be its input.
- The X11 listener thread of gambaterm/xinput.py (`key_pressed_context`) and the Xlib connection setup are not modelled. Neither are the pygame polling of the controller and the Wayland input. Their snapshots of pressed keys are parameters.
- Concurrency is not modelled. The pynput callbacks run on a listener thread and the audio callback on the sound card's thread; the model treats each call as atomic.
- The command-line front-ends (`main` in gambaterm/main.py, gambaterm/__main__.py and gambatte-terminal.py), `purge`, `cbreak_mode`, the ssh server and the prompt_toolkit session are not modelled.
- `open_input_log_file` reads a zip archive, which is not modelled. The log is the sequence of its lines.
- The terminal size (`get_terminal_size`, `get_size`) is a parameter of `MakeData` and a field of each step.
- The main loop of gambatte-terminal.py:66-125 is not modelled beyond `make_data` and `paint_frame`.
- HalfBlock.Painter.PaintFrame requires the buffer to hold a frame laid out as `make_data` builds it for the same width. The source relies on its caller for that.
- Colors.Strip and Colors.ParseInt cover ASCII blanks and digits only. Unicode whitespace and digits, which Python's `int` also accepts, are not modelled.
- Common.Lower lowers ASCII letters only, not the rest of Unicode.
- `detect_true_color_support` sends the probe and waits with a timeout. Only the test applied to the reply is modelled (`TrueColorReply`).
