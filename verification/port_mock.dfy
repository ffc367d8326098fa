/** port/gamepadPortMock.js: a replacement for `navigator.getGamepads` that
    advances keyboard-driven mock gamepads and then returns them. Pads start
    with no axes and no buttons; the twelve-entry key map fills four axes,
    six digital buttons and two analog triggers the first time a pad is
    advanced. The file's closure variables are an explicit record here. */
module PortMock {
  import opened Common
  import opened Keys
  import opened Motion

  /** A gamepad as this file builds it; `axes` and `buttons` are arrays the
      key map writes into by index, so they may have holes. */
  datatype Pad = Pad(
    connected: bool,
    timestamp: real,
    axes: Sparse<real>,
    buttons: Sparse<Button>,
    id: string,
    index: int,
    mapping: string)

  const MockId: string := "Elm Gamepad mock gamepad"

  /** `initGamepad(index)`: connected, timestamp 1, no axes, no buttons. */
  function InitGamepad(index: nat): (p: Pad)
    ensures p.axes == [] && p.buttons == []
    ensures p.connected && p.timestamp > 0.0 && p.index == index && p.id == MockId
    ensures p.timestamp == 1.0 && p.mapping == ""
  {
    Pad(true, 1.0, [], [], MockId, index, "")
  }

  /** A digital button's reading: 0 or 1, pressed exactly at 1. */
  predicate DigitalOk(b: Button) {
    (b.value == 0.0 || b.value == 1.0) && b.pressed == (b.value == 1.0)
  }

  /** Buttons below this index are the digital ones of the key map. */
  const DigitalCount: nat := 6

  /** The invariant every pad of this file keeps: live, axes within [-1, 1],
      button values within [0, 1], digital buttons reading 0 or 1. */
  predicate PadOk(p: Pad) {
    && p.connected && p.timestamp > 0.0
    && (forall j :: 0 <= j < |p.axes| && p.axes[j].Some? ==> -1.0 <= p.axes[j].value <= 1.0)
    && (forall k :: 0 <= k < |p.buttons| && p.buttons[k].Some? ==> 0.0 <= p.buttons[k].value.value <= 1.0)
    && (forall k :: 0 <= k < |p.buttons| && k < DigitalCount && p.buttons[k].Some? ==> DigitalOk(p.buttons[k].value))
  }

  datatype Mock = Mock(
    pads: Sparse<Pad>,
    active: nat,
    multiplier: Multiplier,
    keys: KeyState,
    previousTimestamp: int)

  predicate Wf(m: Mock) {
    && |m.pads| <= 4 && m.active < 4 && ValidMultiplier(m.multiplier)
    && (|m.pads| > 0 ==> m.active < |m.pads| && m.pads[m.active].Some?)
    && forall i :: 0 <= i < |m.pads| && m.pads[i].Some? ==>
         PadOk(m.pads[i].value) && m.pads[i].value.index == i
  }

  function Start(now: int): (m: Mock)
    ensures Wf(m) && m.pads == [] && m.keys == map[] && m.previousTimestamp == now
    ensures m.active == 0 && m.multiplier == Finite(1.0)
  {
    Mock([], 0, Finite(1.0), map[], now)
  }

  /** The keydown handler's reading of a key: only the exact name `'0'`
      is the cheat key. */
  function Classify(key: string): (c: Command)
    ensures c.SelectPad? ==> c.index < 4
    ensures c.SetSpeed? ==> ValidMultiplier(c.multiplier)
    ensures c.Hold? ==> c.key == key
    ensures c == SetSpeed(Unbounded) ==> key == "0"
  {
    var n := ToNumber(key);
    if n.Some? && 1 <= n.value <= 4 then SelectPad(n.value - 1)
    else if n.Some? && 5 <= n.value <= 9 then SetSpeed(Finite(SpeedFactor(n.value)))
    else if key == "0" then SetSpeed(Unbounded)
    else Hold(key)
  }

  lemma ClassifyDigit(d: nat)
    requires d < 10
    ensures Classify(DigitKey(d)) == DigitCommand(d)
  {
    ToNumberOfDigit(d);
  }

  /** The cheat speed is chosen by the key `'0'` and by no other key. */
  lemma ClassifyCheat(key: string)
    ensures Classify(key) == SetSpeed(Unbounded) <==> key == "0"
  {
    if key == "0" {
      ToNumberOfZero();
    }
  }

  /** Every blank key name is an ordinary held key here. */
  lemma ClassifyBlank(key: string)
    requires |key| > 0 && forall i :: 0 <= i < |key| ==> IsJsSpace(key[i])
    ensures Classify(key) == Hold(key)
  {
    ToNumberOfBlank(key);
    assert key[0] != '0';
  }

  /** The space bar is an ordinary held key here (it drives button 2). */
  lemma ClassifySpace()
    ensures Classify(" ") == Hold(" ")
  {
    ClassifyBlank(" ");
  }

  /** The keydown handler. */
  function KeyDown(m: Mock, key: string): (r: Mock)
    ensures r.previousTimestamp == m.previousTimestamp
    ensures Wf(m) ==> Wf(r)
    ensures match Classify(key)
      case SelectPad(i) =>
        && r == m.(pads := r.pads, active := i)
        && Lookup(r.pads, i) == (if Lookup(m.pads, i).Some? then Lookup(m.pads, i) else Some(InitGamepad(i)))
        && forall j: nat :: j != i ==> Lookup(r.pads, j) == Lookup(m.pads, j)
      case SetSpeed(mult) => r == m.(multiplier := mult)
      case Hold(k) => r == m.(keys := Press(m.keys, k))
  {
    match Classify(key)
    case SelectPad(i) =>
      var r := m.(pads := Store(m.pads, i, Lookup(m.pads, i).GetOr(InitGamepad(i))), active := i);
      assert Wf(m) ==> Wf(r) by {
        if Wf(m) {
          forall j | 0 <= j < |r.pads| && r.pads[j].Some?
            ensures PadOk(r.pads[j].value) && r.pads[j].value.index == j
          {
            assert Lookup(r.pads, j) == r.pads[j];
            if j != i {
              assert Lookup(m.pads, j) == r.pads[j];
            }
          }
          assert Lookup(r.pads, i) == r.pads[i];
        }
      }
      r
    case SetSpeed(mult) => m.(multiplier := mult)
    case Hold(k) => m.(keys := Press(m.keys, k))
  }

  /** The keyup handler. */
  function KeyUp(m: Mock, key: string): (r: Mock)
    ensures r == m.(keys := r.keys)
    ensures !Held(r.keys, key)
    ensures forall k :: k != key ==> Held(r.keys, k) == Held(m.keys, k)
    ensures Wf(m) ==> Wf(r)
  {
    m.(keys := Release(m.keys, key))
  }

  /** `gamepad.axes[i] || 0`: a missing axis reads as rest. */
  function AxisValue(pad: Pad, i: nat): (v: real)
    ensures i < |pad.axes| && pad.axes[i].Some? ==> v == pad.axes[i].value
    ensures i >= |pad.axes| || pad.axes[i].None? ==> v == 0.0
  {
    Lookup(pad.axes, i).GetOr(0.0)
  }

  /** `(gamepad.buttons[i] || {}).value || 0`: a missing button reads as 0. */
  function ButtonValue(pad: Pad, i: nat): (v: real)
    ensures i < |pad.buttons| && pad.buttons[i].Some? ==> v == pad.buttons[i].value.value
    ensures i >= |pad.buttons| || pad.buttons[i].None? ==> v == 0.0
  {
    match Lookup(pad.buttons, i)
    case None => 0.0
    case Some(b) => b.value
  }

  /** `axis(axisIndex, positiveKeyName, negativeKeyName)` applied to one pad. */
  function Axis(b: AxisBinding, keys: KeyState, pad: Pad, sp: Speed): (r: Pad)
    requires ValidSpeed(sp)
    ensures r == pad.(axes := r.axes)
    ensures Lookup(r.axes, b.axis).Some?
    ensures forall j: nat :: j != b.axis ==> Lookup(r.axes, j) == Lookup(pad.axes, j)
    ensures Direction(keys, b) != 0 ==> -1.0 <= AxisValue(r, b.axis) <= 1.0
    ensures Direction(keys, b) == 0 ==> AxisValue(r, b.axis) == Settle(AxisValue(pad, b.axis), sp)
    ensures Lookup(pad.axes, b.axis).None? && Direction(keys, b) == 0 ==> AxisValue(r, b.axis) == 0.0
    ensures -1.0 <= AxisValue(pad, b.axis) <= 1.0 ==> -1.0 <= AxisValue(r, b.axis) <= 1.0
    ensures Direction(keys, b) != 0 ==> AxisValue(r, b.axis) == StepAxis(AxisValue(pad, b.axis), Direction(keys, b), sp)
  {
    pad.(axes := Store(pad.axes, b.axis, StepAxis(AxisValue(pad, b.axis), Direction(keys, b), sp)))
  }

  /** `analogButton(buttonIndex, keyNames)` applied to one pad. */
  function AnalogButton(i: nat, names: seq<string>, keys: KeyState, pad: Pad, sp: Speed): (r: Pad)
    requires ValidSpeed(sp)
    ensures r == pad.(buttons := r.buttons)
    ensures Lookup(r.buttons, i).Some?
    ensures forall k: nat :: k != i ==> Lookup(r.buttons, k) == Lookup(pad.buttons, k)
    ensures Lookup(r.buttons, i).value.pressed == AnyHeld(keys, names)
    ensures AnyHeld(keys, names) ==> ButtonValue(pad, i) <= 1.0 ==> ButtonValue(pad, i) <= ButtonValue(r, i) <= 1.0
    ensures !AnyHeld(keys, names) ==> ButtonValue(r, i) == Settle(ButtonValue(pad, i), sp)
    ensures 0.0 <= ButtonValue(pad, i) <= 1.0 ==> 0.0 <= ButtonValue(r, i) <= 1.0
    ensures AnyHeld(keys, names) ==> ButtonValue(r, i) == StepAnalog(ButtonValue(pad, i), true, sp)
  {
    var held := AnyHeld(keys, names);
    pad.(buttons := Store(pad.buttons, i, Button(held, StepAnalog(ButtonValue(pad, i), held, sp))))
  }

  /** `digitalButton(buttonIndex, keyNames)` applied to one pad; the speed
      plays no part. */
  function DigitalButton(i: nat, names: seq<string>, keys: KeyState, pad: Pad): (r: Pad)
    ensures r == pad.(buttons := r.buttons)
    ensures Lookup(r.buttons, i).Some?
    ensures forall k: nat :: k != i ==> Lookup(r.buttons, k) == Lookup(pad.buttons, k)
    ensures DigitalOk(Lookup(r.buttons, i).value)
    ensures Lookup(r.buttons, i).value.pressed == AnyHeld(keys, names)
  {
    var held := AnyHeld(keys, names);
    pad.(buttons := Store(pad.buttons, i, Button(held, if held then 1.0 else 0.0)))
  }

  /** A digital button's new reading depends on its keys alone, not on the
      button's previous reading. */
  lemma DigitalButtonForgetsHistory(i: nat, names: seq<string>, keys: KeyState, p: Pad, q: Pad)
    ensures Lookup(DigitalButton(i, names, keys, p).buttons, i) == Lookup(DigitalButton(i, names, keys, q).buttons, i)
  {
  }

  /** One entry of the key map applied to one pad: its control is populated. */
  function ApplyBinding(b: Binding, keys: KeyState, pad: Pad, sp: Speed): (r: Pad)
    requires ValidSpeed(sp)
    ensures Populated(r, ControlOf(b))
  {
    match b
    case OnAxis(a) => Axis(a, keys, pad, sp)
    case Digital(i, names) => DigitalButton(i, names, keys, pad)
    case Analog(i, names) => AnalogButton(i, names, keys, pad, sp)
  }

  /** `keyMap`. */
  const KeyMap: seq<Binding> := [
    // left stick
    OnAxis(AxisBinding(0, "d", "a")),
    OnAxis(AxisBinding(1, "w", "s")),
    // right stick
    OnAxis(AxisBinding(2, "RightArrow", "LeftArrow")),
    OnAxis(AxisBinding(3, "UpArrow", "DownArrow")),
    // face buttons
    Digital(0, ["x"]),
    Digital(1, ["y", "f"]),
    Digital(2, [" "]),
    Digital(3, ["b", "e"]),
    // bumpers
    Digital(4, ["Home"]),
    Digital(5, ["Enter"]),
    // triggers
    Analog(6, ["Control"]),
    Analog(7, ["Alt"])
  ]

  /** Digital bindings drive the digital buttons, analog ones the others. */
  predicate Compatible(b: Binding) {
    (b.Digital? ==> b.button < DigitalCount) && (b.Analog? ==> b.button >= DigitalCount)
  }

  /** The control a binding writes: an axis slot or a button slot. */
  datatype Control = AxisControl(axis: nat) | ButtonControl(button: nat)

  function ControlOf(b: Binding): Control {
    match b
    case OnAxis(a) => AxisControl(a.axis)
    case Digital(i, _) => ButtonControl(i)
    case Analog(i, _) => ButtonControl(i)
  }

  /** What a pad holds in the slot of a control. */
  datatype Reading = AxisReading(axis: Option<real>) | ButtonReading(button: Option<Button>)

  function Read(p: Pad, c: Control): Reading {
    match c
    case AxisControl(j) => AxisReading(Lookup(p.axes, j))
    case ButtonControl(k) => ButtonReading(Lookup(p.buttons, k))
  }

  /** The pad holds a value (not a hole) in the slot of `c`. */
  predicate Populated(p: Pad, c: Control) {
    match Read(p, c)
    case AxisReading(a) => a.Some?
    case ButtonReading(b) => b.Some?
  }

  /** A binding writes its own control and leaves every other one alone. */
  lemma ApplyBindingFrame(b: Binding, keys: KeyState, pad: Pad, sp: Speed, c: Control)
    requires ValidSpeed(sp) && c != ControlOf(b)
    ensures Read(ApplyBinding(b, keys, pad, sp), c) == Read(pad, c)
  {
  }

  /** Every binding keeps the pad invariant, provided it drives a button of its kind. */
  lemma ApplyBindingOk(b: Binding, keys: KeyState, pad: Pad, sp: Speed)
    requires ValidSpeed(sp) && Compatible(b) && PadOk(pad)
    ensures PadOk(ApplyBinding(b, keys, pad, sp))
    ensures ApplyBinding(b, keys, pad, sp) == pad.(axes := ApplyBinding(b, keys, pad, sp).axes,
                                                   buttons := ApplyBinding(b, keys, pad, sp).buttons)
  {
    var r := ApplyBinding(b, keys, pad, sp);
    match b
    case OnAxis(a) =>
      forall j | 0 <= j < |r.axes| && r.axes[j].Some?
        ensures -1.0 <= r.axes[j].value <= 1.0
      {
        assert Lookup(r.axes, j) == r.axes[j];
        if j != a.axis {
          assert Lookup(pad.axes, j) == r.axes[j];
        } else {
          assert -1.0 <= AxisValue(pad, a.axis) <= 1.0 by {
            if Lookup(pad.axes, a.axis).Some? {
              assert Lookup(pad.axes, a.axis) == pad.axes[a.axis];
            }
          }
        }
      }
    case Digital(i, names) =>
      forall k | 0 <= k < |r.buttons| && r.buttons[k].Some?
        ensures 0.0 <= r.buttons[k].value.value <= 1.0
        ensures k < DigitalCount ==> DigitalOk(r.buttons[k].value)
      {
        assert Lookup(r.buttons, k) == r.buttons[k];
        if k != i {
          assert Lookup(pad.buttons, k) == r.buttons[k];
        }
      }
    case Analog(i, names) =>
      forall k | 0 <= k < |r.buttons| && r.buttons[k].Some?
        ensures 0.0 <= r.buttons[k].value.value <= 1.0
        ensures k < DigitalCount ==> DigitalOk(r.buttons[k].value)
      {
        assert Lookup(r.buttons, k) == r.buttons[k];
        if k != i {
          assert Lookup(pad.buttons, k) == r.buttons[k];
        } else {
          assert 0.0 <= ButtonValue(pad, i) <= 1.0 by {
            if Lookup(pad.buttons, i).Some? {
              assert Lookup(pad.buttons, i) == pad.buttons[i];
            }
          }
        }
      }
  }

  /** No other binding of `bs` writes the control of `bs[k]`. */
  predicate SoleBinding(bs: seq<Binding>, k: nat)
    requires k < |bs|
  {
    forall l :: 0 <= l < |bs| && l != k ==> ControlOf(bs[l]) != ControlOf(bs[k])
  }

  /** `keyMap.forEach(m => m(gamepad, speed))`: the entries from `k` on,
      in table order. Only the axes and buttons change. */
  function ApplyFrom(bs: seq<Binding>, k: nat, keys: KeyState, pad: Pad, sp: Speed): (r: Pad)
    requires ValidSpeed(sp) && k <= |bs|
    ensures r == pad.(axes := r.axes, buttons := r.buttons)
    decreases |bs| - k
  {
    if k == |bs| then pad
    else ApplyFrom(bs, k + 1, keys, ApplyBinding(bs[k], keys, pad, sp), sp)
  }

  /** One pass of a whole binding table over a pad. */
  function ApplyKeyMap(bs: seq<Binding>, keys: KeyState, pad: Pad, sp: Speed): (r: Pad)
    requires ValidSpeed(sp)
    ensures r == pad.(axes := r.axes, buttons := r.buttons)
  {
    ApplyFrom(bs, 0, keys, pad, sp)
  }

  lemma {:induction false} ApplyFromFrame(bs: seq<Binding>, k: nat, keys: KeyState, pad: Pad, sp: Speed, c: Control)
    requires ValidSpeed(sp) && k <= |bs|
    requires forall l :: k <= l < |bs| ==> ControlOf(bs[l]) != c
    ensures Read(ApplyFrom(bs, k, keys, pad, sp), c) == Read(pad, c)
    decreases |bs| - k
  {
    if k < |bs| {
      ApplyBindingFrame(bs[k], keys, pad, sp, c);
      ApplyFromFrame(bs, k + 1, keys, ApplyBinding(bs[k], keys, pad, sp), sp, c);
    }
  }

  /** A control no binding of the table writes keeps its reading. */
  lemma ApplyKeyMapFrame(bs: seq<Binding>, keys: KeyState, pad: Pad, sp: Speed, c: Control)
    requires ValidSpeed(sp) && forall b <- bs :: ControlOf(b) != c
    ensures Read(ApplyKeyMap(bs, keys, pad, sp), c) == Read(pad, c)
  {
    assert forall l :: 0 <= l < |bs| ==> bs[l] in bs;
    ApplyFromFrame(bs, 0, keys, pad, sp, c);
  }

  lemma {:induction false} ApplyFromSole(bs: seq<Binding>, k: nat, j: nat, keys: KeyState, pad: Pad, sp: Speed)
    requires ValidSpeed(sp) && k <= j < |bs|
    requires forall l :: k <= l < |bs| && l != j ==> ControlOf(bs[l]) != ControlOf(bs[j])
    ensures Read(ApplyFrom(bs, k, keys, pad, sp), ControlOf(bs[j])) ==
            Read(ApplyBinding(bs[j], keys, pad, sp), ControlOf(bs[j]))
    decreases |bs| - k
  {
    var c := ControlOf(bs[j]);
    var next := ApplyBinding(bs[k], keys, pad, sp);
    if k == j {
      ApplyFromFrame(bs, k + 1, keys, next, sp, c);
    } else {
      ApplyFromSole(bs, k + 1, j, keys, next, sp);
      ApplyBindingFrame(bs[k], keys, pad, sp, c);
      SameReadSameStep(bs[j], keys, pad, next, sp);
    }
  }

  /** A control written by a single binding of the table reads what that
      binding alone would have left in it. */
  lemma ApplyKeyMapSole(bs: seq<Binding>, keys: KeyState, pad: Pad, sp: Speed, k: nat)
    requires ValidSpeed(sp) && k < |bs| && SoleBinding(bs, k)
    ensures Read(ApplyKeyMap(bs, keys, pad, sp), ControlOf(bs[k])) ==
            Read(ApplyBinding(bs[k], keys, pad, sp), ControlOf(bs[k]))
  {
    ApplyFromSole(bs, 0, k, keys, pad, sp);
  }

  lemma {:induction false} ApplyFromOk(bs: seq<Binding>, k: nat, keys: KeyState, pad: Pad, sp: Speed)
    requires ValidSpeed(sp) && k <= |bs| && PadOk(pad)
    requires forall l :: k <= l < |bs| ==> Compatible(bs[l])
    ensures PadOk(ApplyFrom(bs, k, keys, pad, sp))
    decreases |bs| - k
  {
    if k < |bs| {
      ApplyBindingOk(bs[k], keys, pad, sp);
      ApplyFromOk(bs, k + 1, keys, ApplyBinding(bs[k], keys, pad, sp), sp);
    }
  }

  /** A table of compatible bindings keeps the pad invariant. */
  lemma ApplyKeyMapOk(bs: seq<Binding>, keys: KeyState, pad: Pad, sp: Speed)
    requires ValidSpeed(sp) && PadOk(pad) && forall b <- bs :: Compatible(b)
    ensures PadOk(ApplyKeyMap(bs, keys, pad, sp))
  {
    assert forall l :: 0 <= l < |bs| ==> bs[l] in bs;
    ApplyFromOk(bs, 0, keys, pad, sp);
  }

  /** A binding's effect on its control depends only on what that control held. */
  lemma SameReadSameStep(b: Binding, keys: KeyState, p: Pad, q: Pad, sp: Speed)
    requires ValidSpeed(sp) && Read(p, ControlOf(b)) == Read(q, ControlOf(b))
    ensures Read(ApplyBinding(b, keys, p, sp), ControlOf(b)) == Read(ApplyBinding(b, keys, q, sp), ControlOf(b))
  {
    match b
    case OnAxis(a) =>
      assert AxisValue(p, a.axis) == AxisValue(q, a.axis);
    case Digital(i, names) =>
    case Analog(i, names) =>
      assert ButtonValue(p, i) == ButtonValue(q, i);
  }

  /** The control entry `k` of the key map writes: entries 0 to 3 drive
      axes 0 to 3, entries 4 to 11 drive buttons 0 to 7. */
  function Slot(k: nat): Control {
    if k < 4 then AxisControl(k) else ButtonControl(k - 4)
  }

  lemma KeyMapControls()
    ensures |KeyMap| == 12
    ensures forall k :: 0 <= k < 12 ==> ControlOf(KeyMap[k]) == Slot(k)
  {
  }

  /** Every control of the key map has exactly one binding. */
  lemma KeyMapSole(k: nat)
    requires k < 12
    ensures SoleBinding(KeyMap, k)
  {
    KeyMapControls();
  }

  lemma KeyMapCompatible()
    ensures forall b <- KeyMap :: Compatible(b)
  {
    forall b <- KeyMap ensures Compatible(b) {
      var k :| 0 <= k < |KeyMap| && KeyMap[k] == b;
    }
  }

  /** One pass of the key map keeps the pad invariant and every field but
      the axes and buttons. */
  lemma KeyMapKeepsPadOk(keys: KeyState, pad: Pad, sp: Speed)
    requires ValidSpeed(sp) && PadOk(pad)
    ensures PadOk(ApplyKeyMap(KeyMap, keys, pad, sp))
  {
    KeyMapCompatible();
    ApplyKeyMapOk(KeyMap, keys, pad, sp);
  }

  /** A control with a single binding is populated after a pass of the table. */
  lemma SoleBindingPopulates(bs: seq<Binding>, keys: KeyState, pad: Pad, sp: Speed, k: nat)
    requires ValidSpeed(sp) && k < |bs| && SoleBinding(bs, k)
    ensures Populated(ApplyKeyMap(bs, keys, pad, sp), ControlOf(bs[k]))
  {
    ApplyKeyMapSole(bs, keys, pad, sp, k);
  }

  /** After one pass of the key map the control of entry `k` is populated. */
  lemma KeyMapPopulatesSlot(keys: KeyState, pad: Pad, sp: Speed, k: nat)
    requires ValidSpeed(sp) && k < 12
    ensures var r := ApplyKeyMap(KeyMap, keys, pad, sp);
      if k < 4 then Lookup(r.axes, k).Some? else Lookup(r.buttons, k - 4).Some?
  {
    KeyMapControls();
    KeyMapSole(k);
    var r := ApplyKeyMap(KeyMap, keys, pad, sp);
    SoleBindingPopulates(KeyMap, keys, pad, sp, k);
    SlotPopulated(r, k);
  }

  lemma SlotPopulated(r: Pad, k: nat)
    requires Populated(r, Slot(k))
    ensures if k < 4 then Lookup(r.axes, k).Some? else Lookup(r.buttons, k - 4).Some?
  {
  }

  /** After one pass of the key map, axes 0 to 3 and buttons 0 to 7 are
      populated, whatever the pad held before. */
  lemma KeyMapPopulates(keys: KeyState, pad: Pad, sp: Speed)
    requires ValidSpeed(sp)
    ensures var r := ApplyKeyMap(KeyMap, keys, pad, sp);
      && (forall j: nat :: j < 4 ==> Lookup(r.axes, j).Some?)
      && (forall k: nat :: k < 8 ==> Lookup(r.buttons, k).Some?)
  {
    forall j: nat | j < 4 ensures Lookup(ApplyKeyMap(KeyMap, keys, pad, sp).axes, j).Some? {
      KeyMapPopulatesSlot(keys, pad, sp, j);
    }
    forall k: nat | k < 8 ensures Lookup(ApplyKeyMap(KeyMap, keys, pad, sp).buttons, k).Some? {
      KeyMapPopulatesSlot(keys, pad, sp, k + 4);
    }
  }

  /** What `updateMockGamepads` needs of the state. */
  predicate Ready(m: Mock) {
    && ValidMultiplier(m.multiplier)
    && (|m.pads| > 0 ==> m.active < |m.pads| && m.pads[m.active].Some?)
  }

  /** `updateMockGamepads` at clock reading `now`. */
  function UpdateMockGamepads(m: Mock, now: int): (r: Mock)
    requires m.previousTimestamp <= now && Ready(m)
    ensures r == m.(pads := r.pads, previousTimestamp := now)
    ensures |r.pads| == |m.pads|
    ensures |m.pads| == 0 ==> r.pads == m.pads
    ensures forall i :: 0 <= i < |m.pads| && i != m.active ==> r.pads[i] == m.pads[i]
    ensures |m.pads| > 0 ==>
      r.pads[m.active] == Some(ApplyKeyMap(KeyMap, m.keys, m.pads[m.active].value, TickSpeed(now - m.previousTimestamp, m.multiplier)))
    ensures Wf(m) ==> Wf(r)
  {
    if |m.pads| < 1 then m.(previousTimestamp := now)
    else
      var pad := m.pads[m.active].value;
      var speed := TickSpeed(now - m.previousTimestamp, m.multiplier);
      var next := ApplyKeyMap(KeyMap, m.keys, pad, speed);
      assert Wf(m) ==> PadOk(next) && next.index == pad.index by {
        if Wf(m) {
          KeyMapKeepsPadOk(m.keys, pad, speed);
        }
      }
      ReplaceActive(m, next, now)
  }

  /** The active pad replaced by `next`, the clock advanced to `now`. */
  function ReplaceActive(m: Mock, next: Pad, now: int): (r: Mock)
    requires |m.pads| > 0 && m.active < |m.pads| && m.pads[m.active].Some?
    ensures r == m.(pads := r.pads, previousTimestamp := now)
    ensures |r.pads| == |m.pads| && r.pads[m.active] == Some(next)
    ensures forall i :: 0 <= i < |m.pads| && i != m.active ==> r.pads[i] == m.pads[i]
    ensures Wf(m) && PadOk(next) && next.index == m.pads[m.active].value.index ==> Wf(r)
  {
    m.(pads := m.pads[m.active := Some(next)], previousTimestamp := now)
  }

  /** `getGamepadsMock`: advance, then return the pad list. */
  function GetGamepadsMock(m: Mock, now: int): (r: (Mock, Sparse<Pad>))
    requires m.previousTimestamp <= now && Ready(m)
    ensures r.0 == UpdateMockGamepads(m, now)
    ensures r.1 == r.0.pads && |r.1| == |m.pads|
    ensures r.0 == m.(pads := r.0.pads, previousTimestamp := now)
    ensures |m.pads| == 0 ==> r.1 == []
    ensures forall i :: 0 <= i < |m.pads| && i != m.active ==> r.1[i] == m.pads[i]
    ensures Wf(m) ==> Wf(r.0)
  {
    var m' := UpdateMockGamepads(m, now);
    (m', m'.pads)
  }

  /** A control that a binding has just written is at rest for that
      binding: applying it again with no time elapsed changes nothing. */
  lemma SettledAfterStep(b: Binding, keys: KeyState, p: Pad, sp: Speed, q: Pad)
    requires ValidSpeed(sp) && PadOk(p)
    requires Read(q, ControlOf(b)) == Read(ApplyBinding(b, keys, p, sp), ControlOf(b))
    ensures ApplyBinding(b, keys, q, Rate(0.0)) == q
  {
    var p1 := ApplyBinding(b, keys, p, sp);
    match b
    case OnAxis(a) =>
      var j := a.axis;
      assert -1.0 <= AxisValue(p, j) <= 1.0 by {
        if Lookup(p.axes, j).Some? {
          assert Lookup(p.axes, j) == p.axes[j];
        }
      }
      assert Lookup(q.axes, j) == Lookup(p1.axes, j);
      StepAxisIdle(AxisValue(q, j), Direction(keys, a));
      assert q.axes[j := Some(AxisValue(q, j))] == q.axes;
    case Digital(i, names) =>
      assert Lookup(q.buttons, i) == Lookup(p1.buttons, i);
      assert q.buttons[i := q.buttons[i]] == q.buttons;
    case Analog(i, names) =>
      assert 0.0 <= ButtonValue(p, i) <= 1.0 by {
        if Lookup(p.buttons, i).Some? {
          assert Lookup(p.buttons, i) == p.buttons[i];
        }
      }
      assert Lookup(q.buttons, i) == Lookup(p1.buttons, i);
      assert q.buttons[i := q.buttons[i]] == q.buttons;
  }

  lemma {:induction false} ApplyFromFixed(bs: seq<Binding>, k: nat, keys: KeyState, q: Pad)
    requires k <= |bs|
    requires forall l :: k <= l < |bs| ==> ApplyBinding(bs[l], keys, q, Rate(0.0)) == q
    ensures ApplyFrom(bs, k, keys, q, Rate(0.0)) == q
    decreases |bs| - k
  {
    if k < |bs| {
      ApplyFromFixed(bs, k + 1, keys, q);
    }
  }

  /** When every control of the table has a single binding, a second pass
      with no time elapsed leaves the result of a first pass as it is. */
  lemma ApplyKeyMapSettles(bs: seq<Binding>, keys: KeyState, pad: Pad, sp: Speed)
    requires ValidSpeed(sp) && PadOk(pad)
    requires forall k :: 0 <= k < |bs| ==> SoleBinding(bs, k)
    ensures var q := ApplyKeyMap(bs, keys, pad, sp);
      ApplyKeyMap(bs, keys, q, Rate(0.0)) == q
  {
    var q := ApplyKeyMap(bs, keys, pad, sp);
    forall l | 0 <= l < |bs| ensures ApplyBinding(bs[l], keys, q, Rate(0.0)) == q {
      ApplyKeyMapSole(bs, keys, pad, sp, l);
      SettledAfterStep(bs[l], keys, pad, sp, q);
    }
    ApplyFromFixed(bs, 0, keys, q);
  }

  /** Two queries in the same instant: the second changes nothing and
      returns the list the first returned. */
  lemma QueryTwiceSameInstant(m: Mock, now: int)
    requires Wf(m) && m.previousTimestamp <= now
    ensures var (m1, pads1) := GetGamepadsMock(m, now);
      Ready(m1) && m1.previousTimestamp == now && GetGamepadsMock(m1, now) == (m1, pads1)
  {
    UpdateTwiceSameInstant(m, now);
  }

  /** Two updates in the same instant: the second leaves the state as the
      first left it. */
  lemma UpdateTwiceSameInstant(m: Mock, now: int)
    requires Wf(m) && m.previousTimestamp <= now
    ensures var m1 := UpdateMockGamepads(m, now);
      Ready(m1) && m1.previousTimestamp == now && UpdateMockGamepads(m1, now) == m1
  {
    var m1 := UpdateMockGamepads(m, now);
    if |m.pads| > 0 {
      ActiveSettled(m, now);
    }
    UpdateAtRest(m1);
  }

  /** After an update the active pad is at rest for the key map. */
  lemma ActiveSettled(m: Mock, now: int)
    requires Wf(m) && m.previousTimestamp <= now && |m.pads| > 0
    ensures var m1 := UpdateMockGamepads(m, now);
      m1.active < |m1.pads| && m1.pads[m1.active].Some? &&
      ApplyKeyMap(KeyMap, m1.keys, m1.pads[m1.active].value, Rate(0.0)) == m1.pads[m1.active].value
  {
    UpdateActivePad(m, now);
    KeyMapSettles(m.keys, m.pads[m.active].value, TickSpeed(now - m.previousTimestamp, m.multiplier));
  }

  /** An update in the instant of the last one leaves a state whose active
      pad is at rest for the key map unchanged. */
  lemma UpdateAtRest(m: Mock)
    requires Ready(m)
    requires |m.pads| > 0 ==>
      ApplyKeyMap(KeyMap, m.keys, m.pads[m.active].value, Rate(0.0)) == m.pads[m.active].value
    ensures UpdateMockGamepads(m, m.previousTimestamp) == m
  {
    var m2 := UpdateMockGamepads(m, m.previousTimestamp);
    if |m.pads| > 0 {
      assert m2.pads[m.active] == m.pads[m.active];
      assert m2.pads == m.pads;
    }
  }

  lemma KeyMapSettles(keys: KeyState, pad: Pad, sp: Speed)
    requires ValidSpeed(sp) && PadOk(pad)
    ensures var q := ApplyKeyMap(KeyMap, keys, pad, sp);
      ApplyKeyMap(KeyMap, keys, q, Rate(0.0)) == q
  {
    forall k | 0 <= k < |KeyMap| ensures SoleBinding(KeyMap, k) {
      KeyMapSole(k);
    }
    ApplyKeyMapSettles(KeyMap, keys, pad, sp);
  }

  /** Exactly axes 0 to 3 and buttons 0 to 7, none of them holes: the
      shape every pad has after its first query. */
  predicate Filled(p: Pad) {
    && |p.axes| == 4 && (forall j :: 0 <= j < 4 ==> p.axes[j].Some?)
    && |p.buttons| == 8 && (forall k :: 0 <= k < 8 ==> p.buttons[k].Some?)
  }

  /** One pass of the key map over a pad with no axes and no buttons yields
      exactly four axes and eight buttons, none of them holes. */
  lemma EmptyPadFilled(keys: KeyState, pad: Pad, sp: Speed)
    requires ValidSpeed(sp) && pad.axes == [] && pad.buttons == []
    ensures Filled(ApplyKeyMap(KeyMap, keys, pad, sp))
  {
    var p := ApplyKeyMap(KeyMap, keys, pad, sp);
    KeyMapPopulates(keys, pad, sp);
    KeyMapSpan(keys, pad, sp);
    assert Lookup(p.axes, 3).Some? && Lookup(p.buttons, 7).Some?;
    forall j | 0 <= j < 4 ensures p.axes[j].Some? {
      assert Lookup(p.axes, j).Some?;
    }
    forall k | 0 <= k < 8 ensures p.buttons[k].Some? {
      assert Lookup(p.buttons, k).Some?;
    }
  }

  /** Pressing digit `d` from 1 to 4 on a state where slot `d - 1` is empty
      makes that slot active and puts a fresh pad there. */
  lemma SelectEmptySlot(m: Mock, d: nat)
    requires Wf(m) && 1 <= d <= 4 && Lookup(m.pads, d - 1).None?
    ensures var m1 := KeyDown(m, DigitKey(d));
      && Ready(m1) && m1.active == d - 1 && d - 1 < |m1.pads|
      && m1.pads[d - 1] == Some(InitGamepad(d - 1))
      && m1.previousTimestamp == m.previousTimestamp
  {
    ClassifyDigit(d);
    KeyDownSelects(m, DigitKey(d), d - 1);
    var m1 := KeyDown(m, DigitKey(d));
    assert Lookup(m1.pads, d - 1).Some?;
  }

  /** A key that selects slot `i` makes it active and fills it with a new
      pad when it was empty. */
  lemma KeyDownSelects(m: Mock, key: string, i: nat)
    requires Wf(m) && Classify(key) == SelectPad(i)
    ensures var r := KeyDown(m, key);
      && Wf(r) && r.active == i && r.previousTimestamp == m.previousTimestamp
      && Lookup(r.pads, i) == (if Lookup(m.pads, i).Some? then Lookup(m.pads, i) else Some(InitGamepad(i)))
  {
  }

  /** Selecting an empty slot and querying once yields a pad with axes 0 to
      3 and buttons 0 to 7 populated, and no more. */
  lemma SelectThenQuery(m: Mock, d: nat, now: int)
    requires Wf(m) && 1 <= d <= 4 && Lookup(m.pads, d - 1).None? && m.previousTimestamp <= now
    ensures Ready(KeyDown(m, DigitKey(d))) && KeyDown(m, DigitKey(d)).previousTimestamp <= now
    ensures var pads := GetGamepadsMock(KeyDown(m, DigitKey(d)), now).1;
      && d - 1 < |pads| && pads[d - 1].Some?
      && Filled(pads[d - 1].value)
  {
    SelectEmptySlot(m, d);
    QueryFreshActive(KeyDown(m, DigitKey(d)), now);
  }

  /** Querying a state whose active slot holds a fresh pad fills that pad. */
  lemma QueryFreshActive(m: Mock, now: int)
    requires Ready(m) && m.previousTimestamp <= now && m.active < |m.pads|
    requires m.pads[m.active] == Some(InitGamepad(m.active))
    ensures var pads := GetGamepadsMock(m, now).1;
      && m.active < |pads| && pads[m.active].Some?
      && Filled(pads[m.active].value)
  {
    UpdateFillsFresh(m, now);
    assert GetGamepadsMock(m, now).1 == UpdateMockGamepads(m, now).pads;
  }

  lemma UpdateFillsFresh(m: Mock, now: int)
    requires Ready(m) && m.previousTimestamp <= now && m.active < |m.pads|
    requires m.pads[m.active].Some? && m.pads[m.active].value.axes == [] && m.pads[m.active].value.buttons == []
    ensures var pads := UpdateMockGamepads(m, now).pads;
      m.active < |pads| && pads[m.active].Some? && Filled(pads[m.active].value)
  {
    var sp := TickSpeed(now - m.previousTimestamp, m.multiplier);
    UpdateActivePad(m, now);
    EmptyPadFilledAt(UpdateMockGamepads(m, now).pads[m.active], m.keys, m.pads[m.active].value, sp);
  }

  /** The active slot after an update holds one pass of the key map over
      the pad it held before. */
  lemma UpdateActivePad(m: Mock, now: int)
    requires Ready(m) && m.previousTimestamp <= now && m.active < |m.pads|
    ensures UpdateMockGamepads(m, now).pads[m.active] ==
      Some(ApplyKeyMap(KeyMap, m.keys, m.pads[m.active].value, TickSpeed(now - m.previousTimestamp, m.multiplier)))
  {
  }

  lemma EmptyPadFilledAt(q: Option<Pad>, keys: KeyState, pad: Pad, sp: Speed)
    requires ValidSpeed(sp) && pad.axes == [] && pad.buttons == []
    requires q == Some(ApplyKeyMap(KeyMap, keys, pad, sp))
    ensures q.Some? && Filled(q.value)
  {
    EmptyPadFilled(keys, pad, sp);
  }

  /** On an empty pad the key map writes nothing past axis 3 or button 7. */
  lemma KeyMapSpan(keys: KeyState, pad: Pad, sp: Speed)
    requires ValidSpeed(sp) && pad.axes == [] && pad.buttons == []
    ensures |ApplyKeyMap(KeyMap, keys, pad, sp).axes| <= 4
    ensures |ApplyKeyMap(KeyMap, keys, pad, sp).buttons| <= 8
  {
    KeyMapControls();
    SpanBound(KeyMap, 0, keys, pad, sp, 4, 8);
  }

  lemma {:induction false} SpanBound(bs: seq<Binding>, k: nat, keys: KeyState, pad: Pad, sp: Speed, na: nat, nb: nat)
    requires ValidSpeed(sp) && k <= |bs| && |pad.axes| <= na && |pad.buttons| <= nb
    requires forall l :: k <= l < |bs| ==>
      match ControlOf(bs[l]) case AxisControl(j) => j < na case ButtonControl(i) => i < nb
    ensures |ApplyFrom(bs, k, keys, pad, sp).axes| <= na
    ensures |ApplyFrom(bs, k, keys, pad, sp).buttons| <= nb
    decreases |bs| - k
  {
    if k < |bs| {
      var next := ApplyBinding(bs[k], keys, pad, sp);
      assert |next.axes| <= na && |next.buttons| <= nb;
      SpanBound(bs, k + 1, keys, next, sp, na, nb);
    }
  }

}
