# elm-gamepad: the gamepad simulator and the per-frame normalisers, in Dafny

elm-gamepad lets an Elm program read gamepads. Its JavaScript side does two
jobs, and both are modelled here.

The first job is to sample the browser's gamepad list once per animation
frame and turn it into a plain snapshot for Elm. There are three places
that do this:
- the native module (`src/Native/Gamepad.js`);
- the port adapter (`port/gamepadPort.js`);
- the mock page `controller/gamepadPortMock.js`, which also pairs each frame
  with the previous one.

The second job is a keyboard-driven **mock gamepad**. There are two copies
of it, and they differ in detail:
- `controller/gamepadPortMock.js` drives its frame loop directly;
- `port/gamepadPortMock.js` replaces `navigator.getGamepads`.

In both copies, digit keys 1 to 4 select a pad and create it on first use.
Keys 5 to 9 set a speed multiplier, and 0 makes the speed unbounded. Every
other key is held while pressed. On each update, a table of key bindings
moves the active pad's axes and buttons by a speed proportional to the
elapsed time. Axes step with `clamp` while a direction is held and decay
with `recoil` otherwise.

Modules:

- `Common`: shared vocabulary.
  - Optional values.
  - Buttons and their `[pressed, value]` pairs.
  - JavaScript arrays with holes (`Sparse`, `Lookup`, `Store`).
  - The positions a filtering loop keeps (`Positions`).
- `Motion`: the integrator of the two mock copies. `clamp`, `recoil` and the
  per-tick speed are identical in both copies and are defined once. The axis
  step is shared once the axis has been read: the controller copy reads
  `gamepad.axes[axisIndex]`, the port copy `gamepad.axes[axisIndex] || 0`.
  The analog-button step belongs to the port copy alone.
- `Keys`: the key-state map, the keyup and keydown bookkeeping, key bindings,
  and the digit command surface. It also models the part of JavaScript's
  `+key` conversion that the keydown handlers rely on: blank names give 0,
  decimal digits give their value, anything else gives NaN.
- `ControllerMock`: `controller/gamepadPortMock.js`.
  - Mock state, handlers and `updateMockGamepads`.
  - `getFrame` with its zombie filter.
  - The priming read and `onAnimationFrame`.
  - A whole run of the page over a sequence of events.
- `PortMock`: `port/gamepadPortMock.js`.
  - Mock state and handlers.
  - The twelve-entry key map with axis, digital and analog bindings.
  - `getGamepadsMock`, which advances the mock and then returns the list.
- `NativeGamepad`: the snapshot built inside `animationFrameAndGamepads`.
- `Port`: `port/gamepadPort.js`, covering `copyGamepad`, the `getGamepads`
  fallback, and the `[delta, pads]` frame messages with `previousTimestamp`
  rotation.
- `UnboundedSpeed`: the speed computed with JavaScript's own `Infinity` and
  NaN. It backs the finding below.
- `Variants`: where the two mock copies disagree.
  - The left stick's X polarity.
  - Which keys count as the cheat key.
  - The shape of a new pad.

State that the source keeps in closure variables is an explicit record in
the model. Each event handler is a function from state to state.

Axis and button values are `real`, so floating-point rounding is not
modelled. The clock readings (`Date.now()`, `performance.now()`, the frame
callback's timestamp) are inputs. Whether `navigator.getGamepads` exists is
a boolean input, and the list it returns is a parameter.

Behaviour worth noting:
- `getFrame` drops non-live entries and closes up the list. It does not
  leave a null in their slot.
- An entry needs `connected` as well as a positive timestamp to be kept.
- `updateMockGamepads` moves only the active pad, not every populated one.
- The port mock's new pads have no axes and no buttons until their first
  update.
- An analog button's `pressed` is exactly "one of its keys is held".
- In the controller copy, every key whose name converts to 0 is the cheat
  key, and that includes the space bar.
- The controller page's frames share each pad's `axes` array with the mock
  pad. `ControllerMock.OnAnimationFrame` sends the stored previous frame as
  it was taken; the sharing itself is the second finding below.

## Model

| member | source | states |
|---|---|---|
| `Common.Pairs` | controller/gamepadPortMock.js:46 | each button becomes the pair of its `pressed` and `value`, same length, same order |
| `Common.PairsRoundTrip` | src/Native/Gamepad.js:31 | the pair projection loses nothing a button carries: unpairing gives the buttons back |
| `Common.Store` | port/gamepadPortMock.js:38 | writing index `i` of a JS array makes `i` read the value, leaves every other index as it read before, and grows the array to `i + 1` when needed |
| `Common.Positions` | controller/gamepadPortMock.js:38-44 | a loop that pushes only accepted entries visits exactly the accepted indices, in increasing order |
| `Common.PositionsSnoc` | controller/gamepadPortMock.js:38-44 | one more input entry adds its index to the kept positions exactly when it is accepted |
| `Motion.TickSpeed` | controller/gamepadPortMock.js:116-120 | the speed is non-negative; a finite multiplier gives `dt * factor / 100`; the unbounded one gives the snap speed for `dt > 0` and no motion for `dt = 0` |
| `Motion.Clamp` | controller/gamepadPortMock.js:143-147 | the result lies in `[min, max]`, is the identity on in-range input, and is one of `min`, `max`, `n` |
| `Motion.ClampIsNearest` | controller/gamepadPortMock.js:143-147 | the clamped value is the point of the interval nearest the input |
| `Motion.Recoil` | controller/gamepadPortMock.js:150-154 | 0 stays 0; a positive value lands in `[0, v]` and a negative one in `[v, 0]`; the distance to 0 shrinks by exactly `speed` or becomes 0 |
| `Motion.RecoilKeepsSign` | port/gamepadPortMock.js:116-120 | the result is 0 or has the input's sign, and a value farther than `speed` from 0 keeps its sign and does not reach 0 |
| `Motion.Settle` | port/gamepadPortMock.js:116-120 | at a finite speed the release step is exactly `recoil`; decay toward rest never crosses 0; the unbounded speed sends every released control to 0 |
| `Motion.StepAxis` | controller/gamepadPortMock.js:124-133 | with a direction held the axis lies in [-1, 1] and moves only in that direction, by exactly the tick's speed or up to the held extreme, whichever is nearer; with none it is `recoil`; an in-range axis stays in range; the unbounded speed snaps to the held extreme |
| `Motion.StepAxisIdle` | controller/gamepadPortMock.js:129-132 | with no elapsed time an in-range axis does not move, whatever keys are held |
| `Motion.StepAnalog` | port/gamepadPortMock.js:90-95 | while held the value rises by exactly the tick's speed or up to 1, whichever is nearer, and a value at 1 or above becomes 1; once released it is `recoil`; a value in [0, 1] stays in [0, 1] |
| `Keys.Release` | controller/gamepadPortMock.js:108-110 | keyup leaves the key not held and every other key as it was |
| `Keys.Press` | controller/gamepadPortMock.js:102-104 | an ordinary keydown makes the key held and leaves every other key as it was |
| `Keys.PressThenRelease` | port/gamepadPortMock.js:51-59 | a press followed by a release leaves the key recorded as released |
| `Keys.Direction` | controller/gamepadPortMock.js:125-128 | the direction is in {-1, 0, 1}; it is 1 exactly when only the positive key is held and -1 exactly when only the negative one is |
| `Keys.ToNumberShape` | controller/gamepadPortMock.js:84 | `+key` gives a number only for names made of blanks and digits, and NaN for a name starting with anything else; `Keys.ToNumberOfDigit`, `Keys.ToNumberOfZero`, `Keys.ToNumberOfBlank` and `Keys.ToNumberOfName` give its value on each kind of name |
| `Keys.ToNumberOfDigit` | controller/gamepadPortMock.js:84 | a digit key converts to its digit |
| `Keys.ToNumberOfZero` | port/gamepadPortMock.js:33 | the key `'0'` converts to 0 |
| `Keys.ToNumberOfBlank` | controller/gamepadPortMock.js:84 | a key name made only of white space, the space bar among them, converts to 0 |
| `Keys.ToNumberOfName` | controller/gamepadPortMock.js:84 | a key name starting with a letter converts to NaN |
| `Keys.SpeedFactor` | controller/gamepadPortMock.js:95 | the speed keys 5 to 9 give a multiplier in (0, 1] |
| `ControllerMock.InitGamepad` | controller/gamepadPortMock.js:68-79 | a new pad is connected with timestamp 1 and an empty mapping, has four axes at 0 and four released buttons, and carries its index and the mock id |
| `ControllerMock.Start` | controller/gamepadPortMock.js:58-62 | the page starts with no pad, no key held, pad 0 active, multiplier 1 and a well-formed state |
| `ControllerMock.Classify` | controller/gamepadPortMock.js:84-104 | a selected pad index is below 4, a chosen multiplier is valid, and any other key is held under its own name |
| `ControllerMock.ClassifyDigit` | controller/gamepadPortMock.js:86-101 | digit keys mean: 1 to 4 select pad `n - 1`, 5 to 9 set `(n - 4) / 5`, 0 sets the unbounded multiplier |
| `ControllerMock.ClassifyCheat` | controller/gamepadPortMock.js:98-99 | a key selects the unbounded multiplier exactly when it converts to 0 |
| `ControllerMock.ClassifySpace` | controller/gamepadPortMock.js:98-99 | the space bar selects the unbounded multiplier |
| `ControllerMock.ClassifyNamedKey` | controller/gamepadPortMock.js:102-104 | a named key is always an ordinary held key |
| `ControllerMock.KeyDown` | controller/gamepadPortMock.js:82-105 | selecting pad `i` makes it active, creates it only if its slot is empty and touches no other slot; a speed key changes only the multiplier; any other key changes only its own held flag; well-formedness is kept |
| `ControllerMock.KeyUp` | controller/gamepadPortMock.js:108-110 | keyup releases the key for every kind of key and changes nothing else |
| `ControllerMock.Axis` | controller/gamepadPortMock.js:124-133 | one axis binding changes only its own axis: while a direction is held it takes that direction's `Motion.StepAxis` step and lies in range, otherwise it is `recoil`, and an in-range axis stays in range |
| `ControllerMock.ApplyKeyMap` | controller/gamepadPortMock.js:120 | a pass of the binding table changes only the pad's axes and adds none |
| `ControllerMock.ApplyKeyMapSole` | controller/gamepadPortMock.js:136-140 | an axis driven by a single binding takes exactly that binding's step from its previous value |
| `ControllerMock.ApplyKeyMapInRange` | controller/gamepadPortMock.js:129-132 | a pass of the table keeps every axis within [-1, 1] |
| `ControllerMock.ApplyKeyMapIdle` | controller/gamepadPortMock.js:120 | with no elapsed time a pass of the table leaves an in-range pad unchanged |
| `ControllerMock.UpdateMockGamepads` | controller/gamepadPortMock.js:114-121 | the clock moves to `now`; with no pad nothing else changes; otherwise only the active pad's axes change; well-formedness is kept |
| `ControllerMock.UpdateSteersActivePad` | controller/gamepadPortMock.js:136-140 | each bound axis of the active pad takes exactly one step driven by its two keys at the elapsed interval's speed |
| `ControllerMock.HoldAndRelease` | controller/gamepadPortMock.js:139 | holding `w` alone never lowers the left stick's Y and keeps it at most 1; releasing both its keys moves it toward 0 without crossing 0 |
| `ControllerMock.UpdateIdle` | controller/gamepadPortMock.js:114-121 | an update in the same instant as the previous one changes nothing |
| `ControllerMock.Serialise` | controller/gamepadPortMock.js:44-50 | a serialised pad has index `g.index + 1` and one `[pressed, value]` pair per button, in order |
| `ControllerMock.SerialiseRoundTrip` | controller/gamepadPortMock.js:44-50 | serialising drops only `connected` and `timestamp` |
| `ControllerMock.Serialised` | controller/gamepadPortMock.js:37-51 | the output is the live entries, serialised, in input order, and nothing else |
| `ControllerMock.GetFrame` | controller/gamepadPortMock.js:34-54 | the frame holds one serialised pad per live entry in input order, never more than the input, stamped with the clock reading |
| `ControllerMock.GetFrameKeepsExactlyLive` | controller/gamepadPortMock.js:44 | an entry appears in the frame if and only if it is non-null, connected and has a positive timestamp; zombies with timestamp 0 never appear |
| `ControllerMock.FrameListsEveryMockPad` | controller/gamepadPortMock.js:70-72 | mock pads are never zombies: every pad of a reachable state is in the frame |
| `ControllerMock.FrameOfWfInRange` | controller/gamepadPortMock.js:45 | every axis of every pad in the frame of a reachable state lies within [-1, 1] |
| `ControllerMock.Prime` | controller/gamepadPortMock.js:16-20 | the priming read fills the previous-frame slot with exactly `getFrame()` of the current pads (`GetFrame`), stamped with the clock, and sends nothing |
| `ControllerMock.OnAnimationFrame` | controller/gamepadPortMock.js:23-31 | the payload pairs the new frame (read after advancing the mock) with the stored previous one exactly as it was taken, and the environment; the slot then holds the frame just sent |
| `ControllerMock.OnAnimationFrameAsWritten` | controller/gamepadPortMock.js:23-31 | with the axes arrays shared, the payload's previous frame differs from the stored one only in its pads' axes; the state and the current frame are those of `OnAnimationFrame` |
| `ControllerMock.FramePadFromSlot` | controller/gamepadPortMock.js:44-48 | a pad of a frame names, by `index - 1`, the slot it was read from, and carries that slot's axes |
| `ControllerMock.FrameFromSlots` | controller/gamepadPortMock.js:44-48 | every pad of the frame of a reachable state names a slot that holds a pad |
| `ControllerMock.FrameReadsThroughItself` | controller/gamepadPortMock.js:45 | a frame read through the state it was taken from shows the same axes it was taken with |
| `ControllerMock.UpdateKeepsFromSlots` | controller/gamepadPortMock.js:114-121 | an update never empties a slot, so a stored frame's pads still name slots that hold pads |
| `ControllerMock.KeyDownKeepsFromSlots` | controller/gamepadPortMock.js:82-105 | keydown never empties a slot either |
| `ControllerMock.StepKeepsFromSlots` | controller/gamepadPortMock.js:23-31 | every event keeps the stored frame's pads tied to slots that still hold them |
| `ControllerMock.ReadThroughMatchesFrame` | controller/gamepadPortMock.js:45 | a frame read through a state and that state's own frame agree on the axes of every pad they share |
| `ControllerMock.PreviousShowsCurrentAxes` | controller/gamepadPortMock.js:28 | as written, every pad present in both frames of a payload shows the same axes in both |
| `ControllerMock.ExampleReachable` | controller/gamepadPortMock.js:58-104 | the example state is the start state after pressing `1` and then holding `w` |
| `ControllerMock.ExampleUpdate` | controller/gamepadPortMock.js:139 | 100 ms with `w` held moves pad 1's left stick Y from 0 to 1 |
| `ControllerMock.AliasedAxesCounterexample` | controller/gamepadPortMock.js:28 | a concrete run in which the stored previous frame holds axes at rest, the payload as written carries them moved, and the corrected payload carries them at rest |
| `ControllerMock.Step` | controller/gamepadPortMock.js:23-31 | a keydown is exactly `KeyDown` and a keyup exactly `KeyUp`, each sending nothing and leaving the slot alone; a frame is exactly `OnAnimationFrame`, sending one in-range payload and rotating the slot; well-formedness is kept |
| `ControllerMock.ChainAppend` | controller/gamepadPortMock.js:28-30 | appending what one step sends keeps the payloads threaded: each carries its predecessor's current frame and the slot holds the last one sent |
| `ControllerMock.ReplayStep` | controller/gamepadPortMock.js:23-31 | replaying events from a position is one step followed by the replay of the rest, with that step's payloads first |
| `ControllerMock.Run` | controller/gamepadPortMock.js:17-31 | over any run, one payload per frame; each payload's previous frame is the current frame of the payload before (the first's is the primed frame); the slot ends holding the last frame sent; every frame is in range; the final state and the payloads are exactly those of `Step` fed each event in turn (`Replay`) |
| `PortMock.InitGamepad` | port/gamepadPortMock.js:18-28 | a new pad is connected with timestamp 1 and an empty mapping, and has no axes and no buttons |
| `PortMock.Start` | port/gamepadPortMock.js:11-15 | the page starts with no pad, no key held, pad 0 active, multiplier 1 and a well-formed state |
| `PortMock.Classify` | port/gamepadPortMock.js:31-54 | a selected pad index is below 4, a chosen multiplier is valid, the unbounded multiplier comes only from the key `'0'`, and any other key is held under its own name |
| `PortMock.ClassifyDigit` | port/gamepadPortMock.js:35-50 | digit keys mean: 1 to 4 select pad `n - 1`, 5 to 9 set `(n - 4) / 5`, 0 sets the unbounded multiplier |
| `PortMock.ClassifyCheat` | port/gamepadPortMock.js:47-48 | the unbounded multiplier is chosen by the key `'0'` and by no other key |
| `PortMock.ClassifySpace` | port/gamepadPortMock.js:47-53 | the space bar is an ordinary held key |
| `PortMock.KeyDown` | port/gamepadPortMock.js:31-54 | selecting pad `i` makes it active, creates it only if its slot is empty and touches no other slot; a speed key changes only the multiplier; any other key changes only its own held flag; well-formedness is kept |
| `PortMock.KeyUp` | port/gamepadPortMock.js:57-59 | keyup releases the key and changes nothing else |
| `PortMock.AxisValue` | port/gamepadPortMock.js:76 | an axis reads as its value when present and as 0 when missing |
| `PortMock.ButtonValue` | port/gamepadPortMock.js:88 | a button reads as its value when present and as 0 when missing |
| `PortMock.Axis` | port/gamepadPortMock.js:73-83 | a missing axis reads as 0; the axis is always populated afterwards, takes the held direction's `Motion.StepAxis` step from its reading and lies in [-1, 1] while a direction is held, is `recoil` of the old value otherwise, and no other axis changes |
| `PortMock.AnalogButton` | port/gamepadPortMock.js:86-97 | `pressed` is true iff a bound key is held; while held the value is the `Motion.StepAnalog` step of its reading, and recoils otherwise; a value in [0, 1] stays there; no other button changes |
| `PortMock.DigitalButton` | port/gamepadPortMock.js:100-106 | the value is 1 when a bound key is held and 0 otherwise, with `pressed == (value == 1)`; no other button changes |
| `PortMock.DigitalButtonForgetsHistory` | port/gamepadPortMock.js:100-106 | a digital button's new reading does not depend on its previous reading |
| `PortMock.ApplyBinding` | port/gamepadPortMock.js:73-106 | every kind of binding populates its own control |
| `PortMock.ApplyBindingFrame` | port/gamepadPortMock.js:73-106 | a binding leaves every control but its own as it read |
| `PortMock.ApplyBindingOk` | port/gamepadPortMock.js:73-106 | a binding of the right kind keeps axes in [-1, 1], buttons in [0, 1] and digital buttons at 0 or 1, and changes only axes and buttons |
| `PortMock.SameReadSameStep` | port/gamepadPortMock.js:76 | a binding's effect on its control depends only on that control's previous reading |
| `PortMock.ApplyKeyMap` | port/gamepadPortMock.js:69 | a pass of the binding table changes only axes and buttons |
| `PortMock.ApplyKeyMapFrame` | port/gamepadPortMock.js:69 | a control no binding writes keeps its reading |
| `PortMock.ApplyKeyMapSole` | port/gamepadPortMock.js:69 | a control with a single binding reads what that binding alone leaves in it |
| `PortMock.ApplyKeyMapOk` | port/gamepadPortMock.js:69 | a table of bindings of the right kinds keeps the pad invariant |
| `PortMock.KeyMapControls` | port/gamepadPortMock.js:124-146 | the key map has twelve entries; entries 0 to 3 drive axes 0 to 3 and entries 4 to 11 drive buttons 0 to 7 |
| `PortMock.KeyMapSole` | port/gamepadPortMock.js:124-146 | no two entries of the key map drive the same control |
| `PortMock.KeyMapCompatible` | port/gamepadPortMock.js:133-145 | digital entries drive buttons 0 to 5 and analog entries buttons 6 and 7 |
| `PortMock.KeyMapKeepsPadOk` | port/gamepadPortMock.js:124-146 | a pass of the key map keeps the pad invariant |
| `PortMock.SoleBindingPopulates` | port/gamepadPortMock.js:69 | a control with a single binding is populated after a pass |
| `PortMock.KeyMapPopulatesSlot` | port/gamepadPortMock.js:124-146 | after a pass, the control of each key-map entry is populated |
| `PortMock.KeyMapPopulates` | port/gamepadPortMock.js:124-146 | after one pass, axes 0 to 3 and buttons 0 to 7 are populated, whatever the pad held before |
| `PortMock.UpdateMockGamepads` | port/gamepadPortMock.js:63-70 | the clock moves to `now`; with no pad nothing else changes; otherwise the active pad becomes one pass of the key map at the elapsed interval's speed and no other slot changes; well-formedness is kept |
| `PortMock.ReplaceActive` | port/gamepadPortMock.js:69 | replacing the active pad touches no other slot, and a well-formed replacement keeps the state well-formed |
| `PortMock.GetGamepadsMock` | port/gamepadPortMock.js:5-8 | the query advances the state exactly as `PortMock.UpdateMockGamepads` does and then returns the advanced list: empty when there is no pad, every slot but the active one unchanged |
| `PortMock.SettledAfterStep` | port/gamepadPortMock.js:73-106 | a control a binding has just written is at rest for that binding when no time has elapsed |
| `PortMock.ApplyKeyMapSettles` | port/gamepadPortMock.js:69 | when each control has a single binding, a second pass with no elapsed time leaves a first pass's result as it is |
| `PortMock.KeyMapSettles` | port/gamepadPortMock.js:124-146 | a second pass of the key map with no elapsed time changes nothing |
| `PortMock.QueryTwiceSameInstant` | port/gamepadPortMock.js:5-8 | two queries in the same instant return the same list, and the second leaves the state as the first left it |
| `PortMock.UpdateTwiceSameInstant` | port/gamepadPortMock.js:63-70 | a second update in the instant of the first leaves the state as the first left it |
| `PortMock.ActiveSettled` | port/gamepadPortMock.js:63-70 | after an update the active pad is at rest: a pass of the key map with no elapsed time leaves it unchanged |
| `PortMock.UpdateAtRest` | port/gamepadPortMock.js:63-70 | an update in the instant of the previous one leaves a state whose active pad is at rest unchanged |
| `PortMock.EmptyPadFilled` | port/gamepadPortMock.js:124-146 | one pass over a pad with no axes and no buttons yields exactly four axes and eight buttons, none of them holes |
| `PortMock.KeyDownSelects` | port/gamepadPortMock.js:35-40 | a key that selects slot `i` makes it active, keeps a pad already there or puts a new one in an empty slot, and keeps the state well-formed |
| `PortMock.SelectEmptySlot` | port/gamepadPortMock.js:35-40 | pressing digit `d` on an empty slot makes `d - 1` active and puts a new pad there |
| `PortMock.SelectThenQuery` | port/gamepadPortMock.js:18-28 | selecting an empty slot and querying once yields a pad with exactly axes 0 to 3 and buttons 0 to 7 |
| `PortMock.QueryFreshActive` | port/gamepadPortMock.js:5-8 | querying a state whose active slot holds a new pad fills that pad |
| `PortMock.UpdateFillsFresh` | port/gamepadPortMock.js:63-70 | an update fills an active pad that has no axes and no buttons with exactly four axes and eight buttons |
| `PortMock.KeyMapSpan` | port/gamepadPortMock.js:124-146 | on an empty pad, the key map writes nothing past axis 3 or button 7 |
| `NativeGamepad.Truthy` | src/Native/Gamepad.js:32 | `!!connected` is true exactly when `connected` is `true`; a missing flag is false |
| `NativeGamepad.Project` | src/Native/Gamepad.js:28-33 | the index is copied; missing axes or buttons become empty; buttons map one-to-one to `[pressed, value]` pairs; `connected` is a boolean |
| `NativeGamepad.ProjectRoundTrip` | src/Native/Gamepad.js:28-33 | an entry with every field present is recovered from its record |
| `NativeGamepad.TakeSnapshot` | src/Native/Gamepad.js:16-35 | without the gamepad API the list is empty; otherwise there is one record per non-null entry, in list order, each the projection of its entry |
| `NativeGamepad.SnapshotKeepsExactlyPresent` | src/Native/Gamepad.js:22-27 | an entry has a record exactly when it is not null, and records keep list order |
| `NativeGamepad.PositionsOfDense` | src/Native/Gamepad.js:22-35 | a list without nulls gives one record per entry, record `i` from entry `i` |
| `NativeGamepad.PositionsCount` | src/Native/Gamepad.js:22-35 | the snapshot is as long as the list minus its nulls, so never longer than the list |
| `Port.SparsePairs` | port/gamepadPort.js:7 | each button becomes its `[pressed, value]` pair at the same index, and holes stay holes |
| `Port.CopyGamepad` | port/gamepadPort.js:4-12 | `null` copies to `null`; a pad copies `axes`, `connected`, `id` and `index` unchanged and has as many button pairs as buttons |
| `Port.CopyRoundTrip` | port/gamepadPort.js:4-12 | copying loses only `timestamp` and `mapping` |
| `Port.GetGamepads` | port/gamepadPort.js:15-18 | without `navigator.getGamepads` the result is always `[]`; otherwise it has the input's length, and a slot is null exactly when the input's is |
| `Port.GetGamepadsKeepsSlots` | port/gamepadPort.js:18 | slot `i` of the result is the copy of slot `i` of the input, from which the input pad is recovered |
| `Port.OnFrame` | port/gamepadPort.js:28-35 | a frame sends `timestamp - previousTimestamp` and the copied list, then `previousTimestamp` becomes the frame's timestamp |
| `Port.RunFrames` | port/gamepadPort.js:21-38 | one message per frame, each message that frame's; the deltas add up to the time elapsed since start-up |
| `Port.MessageAtMeaning` | port/gamepadPort.js:30-33 | frame `k`'s delta is measured from frame `k - 1`, the first from start-up |
| `Port.FrameOfMock` | port/gamepadPortMock.js:5-8 | with the port mock installed, each message lists every mock slot in place; every slot but the active one is copied as it was; every mock pad arrives connected with its own index |
| `UnboundedSpeed.JsSpeed` | controller/gamepadPortMock.js:120 | in JavaScript arithmetic the speed is NaN exactly after the cheat key over a zero interval, and `Infinity` exactly after it over a positive one |
| `UnboundedSpeed.AxisAgreesAsWritten` | controller/gamepadPortMock.js:124-133 | outside that case, the model's axis step is what JavaScript computes (`AsWrittenAxis`, which uses `JsRecoil` when no direction is held) |
| `UnboundedSpeed.AnalogAgreesAsWritten` | port/gamepadPortMock.js:86-97 | outside that case, the model's analog step is what JavaScript computes (`AsWrittenAnalog`, which uses `JsRecoil` when released) |
| `UnboundedSpeed.AsWrittenAxisNaN` | controller/gamepadPortMock.js:120 | as written (`AsWrittenAxis`, with `JsRecoil` returning 0 for an axis already at 0), an axis becomes NaN exactly after the cheat key with no elapsed time, when a direction is held or the axis is away from 0 |
| `UnboundedSpeed.CheatKeyCounterexample` | port/gamepadPortMock.js:69 | a concrete input for which an axis and an analog trigger leave their ranges for NaN |
| `UnboundedSpeed.CorrectedCheatKeyIdle` | port/gamepadPortMock.js:47-48 | with the corrected speed, an update with no elapsed time after the cheat key leaves in-range axes and analog values where they are |
| `Variants.LeftStickXOpposite` | port/gamepadPortMock.js:126 | the two copies bind the left stick's X axis with opposite polarity |
| `Variants.HoldingAOnly` | controller/gamepadPortMock.js:138 | holding `a` alone drives the left stick's X positive in the controller copy and negative in the port copy |
| `ControllerMock.ClassifyBlank` | controller/gamepadPortMock.js:98-99 | every key name made only of blanks selects the unbounded multiplier |
| `PortMock.ClassifyBlank` | port/gamepadPortMock.js:47-53 | every key name made only of blanks is an ordinary held key |
| `Variants.ClassifyDiffers` | controller/gamepadPortMock.js:98 | the two keydown handlers read a key differently exactly when it converts to 0 without being `'0'`: the controller copy takes it for the cheat key, the port copy holds it |
| `Variants.InitialShapesDiffer` | port/gamepadPortMock.js:22-23 | a new pad has four axes at rest and four released buttons in the controller copy, and no axes and no buttons in the port copy |

## Left out

- Page wiring is not modelled: `requestAnimationFrame` and `cancelAnimationFrame` scheduling, the Elm `Task.nativeBinding` wrapper, `elmApp.ports.*.send`, and `console.info`. A frame is one step function. What would be sent is a return value.
- The environment record, built from `localStorage` and `navigator.languages`, is a parameter. `port/localStoragePort.js` is not part of this model.
- Clock readings are inputs: `Date.now()`, `performance.now()`, and the frame callback's timestamp.
- Monkey-patching `navigator.getGamepads` is not modelled. Whether the API exists is a boolean, and the list it returns is a parameter.
- Floating point is not modelled: values are `real`. `Infinity` appears in the model as the `Snap` speed. NaN appears only in `UnboundedSpeed`.
- `+key` is modelled only for the names a key can have: blank names, decimal digits, and names that are NaN. Signs, exponents, hexadecimal, fractions and `Infinity` are not modelled, because no key name uses them (`+"Infinity"` is `Infinity`, which the model reads as NaN; both fall through to an ordinary held key).
- In sparse arrays, a hole and an explicit `null` are both `None`. Copying keeps holes as holes, so the two cannot be told apart in what is sent.
- `ControllerMock.UpdateMockGamepads` requires the clock not to run backwards. A negative interval would give a negative speed, which `recoil` turns into growth away from 0.
- `PortMock.UpdateMockGamepads` requires the clock not to run backwards, for the same reason.
- `PortMock.GetGamepadsMock` requires the clock not to run backwards, for the same reason.
- `ControllerMock.OnAnimationFrame` requires the clock not to run backwards, for the same reason.
- `ControllerMock.OnAnimationFrame` sends the previous frame as it was taken, the corrected behaviour of the second finding. The as-written payload is `ControllerMock.OnAnimationFrameAsWritten`.
- `ControllerMock.Step` and `ControllerMock.Run` are built on the corrected `OnAnimationFrame`, so their chain of previous frames is the corrected one.
- `ControllerMock.Run` requires the update clock not to run backwards over the run, for the same reason.
- `Port.CopyGamepad` models only pads that have a `buttons` array. On a pad without one, the source throws a `TypeError` that the model does not represent.
- `NativeGamepad.Project` treats only a missing `axes`, `buttons` or `connected` as absent. Other falsy values, such as `0` or `''`, are not modelled, because the browser never supplies them.

## Findings

Two queries in the same instant leave the state unchanged, but not after the
cheat key: see the first row. `PortMock.QueryTwiceSameInstant` proves the
property for the corrected speed. For the second row,
`ControllerMock.PreviousShowsCurrentAxes` states the sharing for every run,
and `ControllerMock.AliasedAxesCounterexample` gives the concrete input.

| source | as written | input that shows it | evidently intended | confidence | as-written member | corrected member |
|---|---|---|---|---|---|---|
| controller/gamepadPortMock.js:120 | after the cheat key (`inputSpeedMultiplier = Infinity`), an update within the same millisecond as the previous one computes the speed as `0 * Infinity`, which is NaN; NaN then passes through `clamp` and `recoil` into the active pad (the same code is at port/gamepadPortMock.js:69) | cheat key pressed, left stick at 0.5 with its positive key held, two updates with `dt = 0`: the axis becomes NaN, outside [-1, 1] | no elapsed time means no motion at any speed, so axes stay in [-1, 1] and a repeated query in the same instant changes nothing | not executed | `UnboundedSpeed.AsWrittenAxisNaN` | `UnboundedSpeed.CorrectedCheatKeyIdle` |
| controller/gamepadPortMock.js:45 | `getFrame` stores `axes: g.axes`, the mock pad's own array, and `axis` (line 129) writes into that array in place; the stored previous frame is sent (line 28) after the update, so its axes are already the new ones | pad 1 selected and at rest, `w` held, a frame 100 ms after priming: the previous frame is sent with left stick Y at 1, the same as the current frame | the previous frame carries the axes as they were when it was taken (`axes: g.axes.slice()`) | not executed | `ControllerMock.AliasedAxesCounterexample` | `ControllerMock.OnAnimationFrame` |
