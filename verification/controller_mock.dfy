/** controller/gamepadPortMock.js: keyboard-driven mock gamepads feeding a
    frame loop that sends `[current, previous, environment]` once per
    animation frame. State that the file keeps in closure variables
    (`mockGamepads`, `activeGamepad`, `inputSpeedMultiplier`,
    `keyStateByName`, `previousTimestamp`, `previousFrame`) is an explicit
    record here, and each handler is a function from state to state. */
module ControllerMock {
  import opened Common
  import opened Keys
  import opened Motion

  /** A gamepad as this file builds it. */
  datatype Pad = Pad(
    connected: bool,
    timestamp: real,
    axes: seq<real>,
    buttons: seq<Button>,
    id: string,
    index: int,
    mapping: string)

  const MockId: string := "Elm Gamepad mock gamepad"

  /** Every axis at 0 and every button released. */
  predicate AtRest(p: Pad) {
    && (forall j :: 0 <= j < |p.axes| ==> p.axes[j] == 0.0)
    && (forall k :: 0 <= k < |p.buttons| ==> !p.buttons[k].pressed && p.buttons[k].value == 0.0)
  }

  /** The shape every pad of this file keeps: connected with a positive
      timestamp, four axes within [-1, 1], four buttons. */
  predicate PadOk(p: Pad) {
    && p.connected && p.timestamp > 0.0
    && |p.axes| == 4 && |p.buttons| == 4
    && forall j :: 0 <= j < 4 ==> -1.0 <= p.axes[j] <= 1.0
  }

  /** `initGamepad(index)`. */
  function InitGamepad(index: nat): (p: Pad)
    ensures PadOk(p) && AtRest(p) && p.index == index && p.id == MockId
    ensures p.timestamp == 1.0 && p.mapping == ""
  {
    Pad(true, 1.0, [0.0, 0.0, 0.0, 0.0], seq(4, _ => Button(false, 0.0)), MockId, index, "")
  }

  /** The mock's state. `pads` may have holes: selecting pad 3 first leaves
      slots 0 and 1 empty. */
  datatype Mock = Mock(
    pads: Sparse<Pad>,
    active: nat,
    multiplier: Multiplier,
    keys: KeyState,
    previousTimestamp: int)

  /** The invariant every reachable state keeps. */
  predicate Wf(m: Mock) {
    && |m.pads| <= 4 && m.active < 4 && ValidMultiplier(m.multiplier)
    && (|m.pads| > 0 ==> m.active < |m.pads| && m.pads[m.active].Some?)
    && forall i :: 0 <= i < |m.pads| && m.pads[i].Some? ==>
         PadOk(m.pads[i].value) && m.pads[i].value.index == i
  }

  /** The state when the page loads: no pad, pad 0 active, multiplier 1. */
  function Start(now: int): (m: Mock)
    ensures Wf(m) && m.pads == [] && m.keys == map[] && m.previousTimestamp == now
    ensures m.active == 0 && m.multiplier == Finite(1.0)
  {
    Mock([], 0, Finite(1.0), map[], now)
  }

  /** The keydown handler's reading of a key. A key `+key` converts to 0
      (`'0'`, but also `' '` and every other blank name) is the cheat key. */
  function Classify(key: string): (c: Command)
    ensures c.SelectPad? ==> c.index < 4
    ensures c.SetSpeed? ==> ValidMultiplier(c.multiplier)
    ensures c.Hold? ==> c.key == key
  {
    var n := ToNumber(key);
    if n.Some? && 1 <= n.value <= 4 then SelectPad(n.value - 1)
    else if n.Some? && 5 <= n.value <= 9 then SetSpeed(Finite(SpeedFactor(n.value)))
    else if n == Some(0) then SetSpeed(Unbounded)
    else Hold(key)
  }

  lemma ClassifyDigit(d: nat)
    requires d < 10
    ensures Classify(DigitKey(d)) == DigitCommand(d)
  {
    ToNumberOfDigit(d);
  }

  /** The cheat speed is chosen exactly by the keys that convert to 0; the
      space bar is one of them. */
  lemma ClassifyCheat(key: string)
    ensures Classify(key) == SetSpeed(Unbounded) <==> ToNumber(key) == Some(0)
  {
  }

  /** Every key made of blanks only is the cheat key. */
  lemma ClassifyBlank(key: string)
    requires forall i :: 0 <= i < |key| ==> IsJsSpace(key[i])
    ensures Classify(key) == SetSpeed(Unbounded)
  {
    ToNumberOfBlank(key);
  }

  lemma ClassifySpace()
    ensures Classify(" ") == SetSpeed(Unbounded)
  {
    ClassifyBlank(" ");
  }

  /** A named key (one starting with a letter) is always a held key. */
  lemma ClassifyNamedKey(key: string)
    requires |key| > 0 && ('a' <= key[0] <= 'z' || 'A' <= key[0] <= 'Z')
    ensures Classify(key) == Hold(key)
  {
    ToNumberOfName(key);
  }

  /** The keydown handler. */
  function KeyDown(m: Mock, key: string): (r: Mock)
    ensures r.previousTimestamp == m.previousTimestamp
    ensures Wf(m) ==> Wf(r)
    ensures match Classify(key)
      case SelectPad(i) =>
        && r == m.(pads := r.pads, active := i)
        && Lookup(r.pads, i) == (if Lookup(m.pads, i).Some? then Lookup(m.pads, i) else Some(InitGamepad(i)))
        && forall j: nat :: j != i ==> Lookup(r.pads, j) == Lookup(m.pads, j)
      case SetSpeed(mult) => r == m.(multiplier := mult)
      case Hold(k) => r == m.(keys := Press(m.keys, k))
  {
    match Classify(key)
    case SelectPad(i) =>
      var r := m.(pads := Store(m.pads, i, Lookup(m.pads, i).GetOr(InitGamepad(i))), active := i);
      assert Wf(m) ==> Wf(r) by {
        if Wf(m) {
          forall j | 0 <= j < |r.pads| && r.pads[j].Some?
            ensures PadOk(r.pads[j].value) && r.pads[j].value.index == j
          {
            assert Lookup(r.pads, j) == r.pads[j];
            if j != i {
              assert Lookup(m.pads, j) == r.pads[j];
            }
          }
          assert Lookup(r.pads, i) == r.pads[i];
        }
      }
      r
    case SetSpeed(mult) => m.(multiplier := mult)
    case Hold(k) => m.(keys := Press(m.keys, k))
  }

  /** The keyup handler: the key is released, whatever kind of key it is. */
  function KeyUp(m: Mock, key: string): (r: Mock)
    ensures r == m.(keys := r.keys)
    ensures !Held(r.keys, key)
    ensures forall k :: k != key ==> Held(r.keys, k) == Held(m.keys, k)
    ensures Wf(m) ==> Wf(r)
  {
    m.(keys := Release(m.keys, key))
  }

  /** `axis(axisIndex, positiveKeyName, negativeKeyName)` applied to one pad. */
  function Axis(b: AxisBinding, keys: KeyState, pad: Pad, sp: Speed): (r: Pad)
    requires b.axis < |pad.axes| && ValidSpeed(sp)
    ensures r == pad.(axes := r.axes) && |r.axes| == |pad.axes|
    ensures forall j :: 0 <= j < |pad.axes| && j != b.axis ==> r.axes[j] == pad.axes[j]
    ensures Direction(keys, b) != 0 ==> -1.0 <= r.axes[b.axis] <= 1.0
    ensures Direction(keys, b) == 0 ==> r.axes[b.axis] == Settle(pad.axes[b.axis], sp)
    ensures -1.0 <= pad.axes[b.axis] <= 1.0 ==> -1.0 <= r.axes[b.axis] <= 1.0
    ensures Direction(keys, b) != 0 ==> r.axes[b.axis] == StepAxis(pad.axes[b.axis], Direction(keys, b), sp)
  {
    pad.(axes := pad.axes[b.axis := StepAxis(pad.axes[b.axis], Direction(keys, b), sp)])
  }

  /** `keyMap`: the left stick only, X driven by `a` (positive) and `d`. */
  const KeyMap: seq<AxisBinding> := [AxisBinding(0, "a", "d"), AxisBinding(1, "w", "s")]

  /** No other binding of `bs` drives the axis of `bs[k]`. */
  predicate SoleBinding(bs: seq<AxisBinding>, k: nat)
    requires k < |bs|
  {
    forall l :: 0 <= l < |bs| && l != k ==> bs[l].axis != bs[k].axis
  }

  /** `keyMap.forEach(m => m(gamepad, speed))`: the entries from `k` on,
      in table order. Only the axes change, and none is added. */
  function ApplyFrom(bs: seq<AxisBinding>, k: nat, keys: KeyState, pad: Pad, sp: Speed): (r: Pad)
    requires ValidSpeed(sp) && k <= |bs|
    requires forall l :: k <= l < |bs| ==> bs[l].axis < |pad.axes|
    ensures r == pad.(axes := r.axes) && |r.axes| == |pad.axes|
    decreases |bs| - k
  {
    if k == |bs| then pad
    else ApplyFrom(bs, k + 1, keys, Axis(bs[k], keys, pad, sp), sp)
  }

  /** One pass of a whole binding table over a pad. */
  function ApplyKeyMap(bs: seq<AxisBinding>, keys: KeyState, pad: Pad, sp: Speed): (r: Pad)
    requires ValidSpeed(sp)
    requires forall b <- bs :: b.axis < |pad.axes|
    ensures r == pad.(axes := r.axes) && |r.axes| == |pad.axes|
  {
    assert forall l :: 0 <= l < |bs| ==> bs[l] in bs;
    ApplyFrom(bs, 0, keys, pad, sp)
  }

  lemma {:induction false} ApplyFromFrame(bs: seq<AxisBinding>, k: nat, keys: KeyState, pad: Pad, sp: Speed, j: nat)
    requires ValidSpeed(sp) && k <= |bs| && j < |pad.axes|
    requires forall l :: k <= l < |bs| ==> bs[l].axis < |pad.axes| && bs[l].axis != j
    ensures ApplyFrom(bs, k, keys, pad, sp).axes[j] == pad.axes[j]
    decreases |bs| - k
  {
    if k < |bs| {
      var next := Axis(bs[k], keys, pad, sp);
      assert next.axes[j] == pad.axes[j];
      ApplyFromFrame(bs, k + 1, keys, next, sp, j);
    }
  }

  lemma {:induction false} ApplyFromSole(bs: seq<AxisBinding>, k: nat, j: nat, keys: KeyState, pad: Pad, sp: Speed)
    requires ValidSpeed(sp) && k <= j < |bs|
    requires forall l :: k <= l < |bs| ==> bs[l].axis < |pad.axes|
    requires forall l :: k <= l < |bs| && l != j ==> bs[l].axis != bs[j].axis
    ensures ApplyFrom(bs, k, keys, pad, sp).axes[bs[j].axis] ==
            StepAxis(pad.axes[bs[j].axis], Direction(keys, bs[j]), sp)
    decreases |bs| - k
  {
    var a := bs[j].axis;
    var next := Axis(bs[k], keys, pad, sp);
    if k == j {
      assert next.axes[a] == StepAxis(pad.axes[a], Direction(keys, bs[j]), sp);
      ApplyFromFrame(bs, k + 1, keys, next, sp, a);
    } else {
      assert next.axes[a] == pad.axes[a];
      ApplyFromSole(bs, k + 1, j, keys, next, sp);
    }
  }

  /** An axis driven by a single binding of the table takes exactly the
      step that binding computes from the axis's previous value. */
  lemma ApplyKeyMapSole(bs: seq<AxisBinding>, keys: KeyState, pad: Pad, sp: Speed, k: nat)
    requires ValidSpeed(sp) && k < |bs| && SoleBinding(bs, k)
    requires forall b <- bs :: b.axis < |pad.axes|
    ensures ApplyKeyMap(bs, keys, pad, sp).axes[bs[k].axis] ==
            StepAxis(pad.axes[bs[k].axis], Direction(keys, bs[k]), sp)
  {
    assert forall l :: 0 <= l < |bs| ==> bs[l] in bs;
    ApplyFromSole(bs, 0, k, keys, pad, sp);
  }

  lemma {:induction false} ApplyFromInRange(bs: seq<AxisBinding>, k: nat, keys: KeyState, pad: Pad, sp: Speed)
    requires ValidSpeed(sp) && k <= |bs|
    requires forall l :: k <= l < |bs| ==> bs[l].axis < |pad.axes|
    requires forall j :: 0 <= j < |pad.axes| ==> -1.0 <= pad.axes[j] <= 1.0
    ensures var r := ApplyFrom(bs, k, keys, pad, sp);
      forall j :: 0 <= j < |r.axes| ==> -1.0 <= r.axes[j] <= 1.0
    decreases |bs| - k
  {
    if k < |bs| {
      var next := Axis(bs[k], keys, pad, sp);
      forall j | 0 <= j < |next.axes| ensures -1.0 <= next.axes[j] <= 1.0 {
        if j != bs[k].axis {
          assert next.axes[j] == pad.axes[j];
        }
      }
      ApplyFromInRange(bs, k + 1, keys, next, sp);
      assert ApplyFrom(bs, k, keys, pad, sp) == ApplyFrom(bs, k + 1, keys, next, sp);
      var r := ApplyFrom(bs, k + 1, keys, next, sp);
      assert forall j :: 0 <= j < |r.axes| ==> -1.0 <= r.axes[j] <= 1.0;
    } else {
      assert ApplyFrom(bs, k, keys, pad, sp) == pad;
    }
  }

  /** A pass keeps every axis within [-1, 1]. */
  lemma ApplyKeyMapInRange(bs: seq<AxisBinding>, keys: KeyState, pad: Pad, sp: Speed)
    requires ValidSpeed(sp) && forall b <- bs :: b.axis < |pad.axes|
    requires forall j :: 0 <= j < |pad.axes| ==> -1.0 <= pad.axes[j] <= 1.0
    ensures var r := ApplyKeyMap(bs, keys, pad, sp);
      forall j :: 0 <= j < |r.axes| ==> -1.0 <= r.axes[j] <= 1.0
  {
    assert forall l :: 0 <= l < |bs| ==> bs[l] in bs;
    ApplyFromInRange(bs, 0, keys, pad, sp);
    assert ApplyKeyMap(bs, keys, pad, sp) == ApplyFrom(bs, 0, keys, pad, sp);
    var r := ApplyFrom(bs, 0, keys, pad, sp);
    assert forall j :: 0 <= j < |r.axes| ==> -1.0 <= r.axes[j] <= 1.0;
  }

  /** What `updateMockGamepads` needs of the state: a live multiplier and,
      once any pad exists, an active pad holding every bound axis. */
  predicate Ready(m: Mock) {
    && ValidMultiplier(m.multiplier)
    && (|m.pads| > 0 ==>
          && m.active < |m.pads| && m.pads[m.active].Some?
          && forall b <- KeyMap :: b.axis < |m.pads[m.active].value.axes|)
  }

  lemma WfIsReady(m: Mock)
    requires Wf(m)
    ensures Ready(m)
  {
  }

  /** `updateMockGamepads` at clock reading `now`. */
  function UpdateMockGamepads(m: Mock, now: int): (r: Mock)
    requires m.previousTimestamp <= now && Ready(m)
    ensures r == m.(pads := r.pads, previousTimestamp := now)
    ensures |r.pads| == |m.pads|
    ensures |m.pads| == 0 ==> r.pads == m.pads
    ensures forall i :: 0 <= i < |m.pads| && i != m.active ==> r.pads[i] == m.pads[i]
    ensures |m.pads| > 0 ==>
      && r.pads[m.active].Some?
      && r.pads[m.active].value == m.pads[m.active].value.(axes := r.pads[m.active].value.axes)
    ensures Wf(m) ==> Wf(r)
  {
    if |m.pads| < 1 then m.(previousTimestamp := now)
    else
      var pad := m.pads[m.active].value;
      var speed := TickSpeed(now - m.previousTimestamp, m.multiplier);
      var next := ApplyKeyMap(KeyMap, m.keys, pad, speed);
      assert Wf(m) ==> PadOk(next) by {
        if Wf(m) {
          ApplyKeyMapInRange(KeyMap, m.keys, pad, speed);
        }
      }
      m.(pads := m.pads[m.active := Some(next)], previousTimestamp := now)
  }

  /** Each bound axis of the active pad takes exactly one integrator step
      driven by its two keys, at the speed of the elapsed interval. */
  lemma UpdateSteersActivePad(m: Mock, now: int, k: nat)
    requires m.previousTimestamp <= now && Wf(m) && |m.pads| > 0 && k < |KeyMap|
    ensures var b := KeyMap[k];
      UpdateMockGamepads(m, now).pads[m.active].value.axes[b.axis]
        == StepAxis(m.pads[m.active].value.axes[b.axis], Direction(m.keys, b),
                    TickSpeed(now - m.previousTimestamp, m.multiplier))
  {
    assert SoleBinding(KeyMap, k);
    var pad := m.pads[m.active].value;
    ApplyKeyMapSole(KeyMap, m.keys, pad, TickSpeed(now - m.previousTimestamp, m.multiplier), k);
  }

  /** Holding `w` alone never lowers the left stick's Y axis, which stays
      within [-1, 1]; releasing every key of an axis moves it toward rest
      without crossing 0. */
  lemma HoldAndRelease(m: Mock, now: int)
    requires m.previousTimestamp <= now && Wf(m) && |m.pads| > 0
    ensures var y := m.pads[m.active].value.axes[1];
      var y' := UpdateMockGamepads(m, now).pads[m.active].value.axes[1];
      && (Held(m.keys, "w") && !Held(m.keys, "s") ==> y <= y' <= 1.0)
      && (!Held(m.keys, "w") && !Held(m.keys, "s") ==>
            (y >= 0.0 ==> 0.0 <= y' <= y) && (y <= 0.0 ==> y <= y' <= 0.0))
  {
    UpdateSteersActivePad(m, now, 1);
  }

  lemma {:induction false} ApplyFromIdle(bs: seq<AxisBinding>, k: nat, keys: KeyState, pad: Pad)
    requires k <= |bs| && forall l :: k <= l < |bs| ==> bs[l].axis < |pad.axes|
    requires forall j :: 0 <= j < |pad.axes| ==> -1.0 <= pad.axes[j] <= 1.0
    ensures ApplyFrom(bs, k, keys, pad, Rate(0.0)) == pad
    decreases |bs| - k
  {
    if k < |bs| {
      var b := bs[k];
      StepAxisIdle(pad.axes[b.axis], Direction(keys, b));
      assert pad.axes[b.axis := pad.axes[b.axis]] == pad.axes;
      assert Axis(b, keys, pad, Rate(0.0)) == pad;
      ApplyFromIdle(bs, k + 1, keys, pad);
    }
  }

  /** Without elapsed time nothing moves: two updates in the same instant
      leave the state as it was. */
  lemma ApplyKeyMapIdle(bs: seq<AxisBinding>, keys: KeyState, pad: Pad)
    requires forall b <- bs :: b.axis < |pad.axes|
    requires forall j :: 0 <= j < |pad.axes| ==> -1.0 <= pad.axes[j] <= 1.0
    ensures ApplyKeyMap(bs, keys, pad, Rate(0.0)) == pad
  {
    assert forall l :: 0 <= l < |bs| ==> bs[l] in bs;
    ApplyFromIdle(bs, 0, keys, pad);
  }

  lemma UpdateIdle(m: Mock)
    requires Wf(m)
    ensures UpdateMockGamepads(m, m.previousTimestamp) == m
  {
    if |m.pads| > 0 {
      var pad := m.pads[m.active].value;
      ApplyKeyMapIdle(KeyMap, m.keys, pad);
      assert m.pads[m.active := Some(pad)] == m.pads;
    }
  }

  /** A pad as `getFrame` serialises it. */
  datatype FramePad = FramePad(
    axes: seq<real>,
    buttons: seq<ButtonPair>,
    id: string,
    index: int,
    mapping: string)

  /** The `{ gamepads, timestamp }` object `getFrame` returns. */
  datatype Frame = Frame(gamepads: seq<FramePad>, timestamp: int)

  /** `g && g.connected && g.timestamp > 0`: a zombie reports timestamp 0. */
  predicate Live(g: Option<Pad>) {
    g.Some? && g.value.connected && g.value.timestamp > 0.0
  }

  /** One pad as `getFrame` pushes it: buttons become `[pressed, value]`
      pairs and the index is shifted to count from 1. */
  function Serialise(g: Pad): (f: FramePad)
    ensures f.index == g.index + 1
    ensures |f.buttons| == |g.buttons|
    ensures forall k :: 0 <= k < |g.buttons| ==> f.buttons[k] == (g.buttons[k].pressed, g.buttons[k].value)
  {
    FramePad(g.axes, Pairs(g.buttons), g.id, g.index + 1, g.mapping)
  }

  /** Rebuilds a pad from its serialised form and the two fields dropped. */
  function Deserialise(f: FramePad, connected: bool, timestamp: real): Pad {
    Pad(connected, timestamp, f.axes, Unpair(f.buttons), f.id, f.index - 1, f.mapping)
  }

  /** Serialising drops `connected` and `timestamp` and nothing else. */
  lemma SerialiseRoundTrip(g: Pad)
    ensures Deserialise(Serialise(g), g.connected, g.timestamp) == g
  {
    PairsRoundTrip(g.buttons);
  }

  /** The loop of `getFrame`: the live entries, serialised, in input order. */
  function Serialised(raw: Sparse<Pad>): (out: seq<FramePad>)
    ensures |out| == |Positions(raw, Live)|
    ensures forall j :: 0 <= j < |out| ==>
      var i := Positions(raw, Live)[j]; raw[i].Some? && out[j] == Serialise(raw[i].value)
  {
    if |raw| == 0 then []
    else
      var front := raw[..|raw| - 1];
      var last := raw[|raw| - 1];
      PositionsSnoc(front, last, Live);
      assert front + [last] == raw;
      Serialised(front) + (if Live(last) then [Serialise(last.value)] else [])
  }

  /** `getFrame` at clock reading `now`. */
  function GetFrame(raw: Sparse<Pad>, now: int): (f: Frame)
    ensures f.timestamp == now
    ensures |f.gamepads| == |Positions(raw, Live)| <= |raw|
    ensures forall j :: 0 <= j < |f.gamepads| ==>
      var i := Positions(raw, Live)[j]; Live(raw[i]) && f.gamepads[j] == Serialise(raw[i].value)
  {
    Frame(Serialised(raw), now)
  }

  /** Zombie filtering: an entry is serialised if and only if it is live,
      and the entries keep their order. */
  lemma GetFrameKeepsExactlyLive(raw: Sparse<Pad>, now: int)
    ensures forall i :: 0 <= i < |raw| ==> (i in Positions(raw, Live) <==> Live(raw[i]))
    ensures forall j, k :: 0 <= j < k < |GetFrame(raw, now).gamepads| ==>
      Positions(raw, Live)[j] < Positions(raw, Live)[k]
  {
  }

  /** Mock pads are never zombies: every pad of a reachable state is in the frame. */
  lemma FrameListsEveryMockPad(m: Mock, now: int)
    requires Wf(m)
    ensures forall i :: 0 <= i < |m.pads| && m.pads[i].Some? ==> i in Positions(m.pads, Live)
  {
  }

  /** Every axis of every pad in the frame lies within [-1, 1]. */
  predicate FrameInRange(f: Frame) {
    forall j, a :: 0 <= j < |f.gamepads| && 0 <= a < |f.gamepads[j].axes| ==>
      -1.0 <= f.gamepads[j].axes[a] <= 1.0
  }

  lemma FrameOfWfInRange(m: Mock, now: int)
    requires Wf(m)
    ensures FrameInRange(GetFrame(m.pads, now))
  {
    var f := GetFrame(m.pads, now);
    forall j | 0 <= j < |f.gamepads|
      ensures forall a :: 0 <= a < |f.gamepads[j].axes| ==> -1.0 <= f.gamepads[j].axes[a] <= 1.0
    {
      var i := Positions(m.pads, Live)[j];
      assert PadOk(m.pads[i].value);
    }
  }

  /** The `environment` record captured once at start-up. */
  datatype Environment = Environment(userMappings: string, languages: seq<string>)

  /** The `[currentFrame, previousFrame, environment]` payload of one tick. */
  datatype Blob = Blob(current: Frame, previous: Frame, environment: Environment)

  /** The frame loop's state: the mock, the `previousFrame` slot, the environment. */
  datatype Session = Session(mock: Mock, previousFrame: Frame, environment: Environment)

  /** The priming read: it fills `previousFrame` and sends nothing. */
  function Prime(mock: Mock, env: Environment, stamp: int): (s: Session)
    ensures s.mock == mock && s.environment == env
    ensures s.previousFrame == GetFrame(mock.pads, stamp)
    ensures s.previousFrame.timestamp == stamp
    ensures |s.previousFrame.gamepads| == |Positions(mock.pads, Live)|
  {
    Session(mock, GetFrame(mock.pads, stamp), env)
  }

  /** `onAnimationFrame`: advance the mock at `now`, read a frame stamped
      `stamp`, send it with the previous one, then rotate the slot. */
  function OnAnimationFrame(s: Session, now: int, stamp: int): (r: (Session, Blob))
    requires s.mock.previousTimestamp <= now && Ready(s.mock)
    ensures r.1.previous == s.previousFrame
    ensures r.0.previousFrame == r.1.current
    ensures r.1.environment == s.environment && r.0.environment == s.environment
    ensures r.0.mock == UpdateMockGamepads(s.mock, now)
    ensures r.1.current == GetFrame(r.0.mock.pads, stamp)
  {
    var mock := UpdateMockGamepads(s.mock, now);
    var current := GetFrame(mock.pads, stamp);
    (Session(mock, current, s.environment), Blob(current, s.previousFrame, s.environment))
  }

  /** Every pad of `f` came from a slot of `pads` that still holds a pad:
      a frame pad's `index` is its slot plus one. */
  predicate FromSlots(f: Frame, pads: Sparse<Pad>) {
    forall j :: 0 <= j < |f.gamepads| ==>
      1 <= f.gamepads[j].index <= |pads| && pads[f.gamepads[j].index - 1].Some?
  }

  /** A frame pad as it reads once the mock has moved on: `getFrame` keeps
      the mock pad's own `axes` array rather than a copy, so the frame pad
      shows whatever axes its slot holds now. */
  function ReadThrough(fp: FramePad, pads: Sparse<Pad>): FramePad {
    if 1 <= fp.index <= |pads| && pads[fp.index - 1].Some? then fp.(axes := pads[fp.index - 1].value.axes) else fp
  }

  function FrameReadThrough(f: Frame, pads: Sparse<Pad>): Frame {
    Frame(seq(|f.gamepads|, j requires 0 <= j < |f.gamepads| => ReadThrough(f.gamepads[j], pads)), f.timestamp)
  }

  /** `onAnimationFrame` with the array sharing of `getFrame` made explicit:
      the stored previous frame is sent after `updateMockGamepads` has
      written into the axes arrays it shares with the mock, so it reaches
      Elm with the updated axes and its other fields as stored. */
  function OnAnimationFrameAsWritten(s: Session, now: int, stamp: int): (r: (Session, Blob))
    requires s.mock.previousTimestamp <= now && Ready(s.mock)
    ensures r.0 == OnAnimationFrame(s, now, stamp).0
    ensures r.1.current == OnAnimationFrame(s, now, stamp).1.current && r.1.environment == s.environment
    ensures r.1.previous.timestamp == s.previousFrame.timestamp
    ensures |r.1.previous.gamepads| == |s.previousFrame.gamepads|
    ensures forall j :: 0 <= j < |s.previousFrame.gamepads| ==>
      r.1.previous.gamepads[j] == s.previousFrame.gamepads[j].(axes := r.1.previous.gamepads[j].axes)
  {
    var mock := UpdateMockGamepads(s.mock, now);
    var current := GetFrame(mock.pads, stamp);
    (Session(mock, current, s.environment), Blob(current, FrameReadThrough(s.previousFrame, mock.pads), s.environment))
  }

  /** Each pad of the frame of a reachable state is the serialised pad of
      the slot its index names, so it carries that slot's axes. */
  lemma FramePadFromSlot(m: Mock, stamp: int, k: nat)
    requires Wf(m) && k < |GetFrame(m.pads, stamp).gamepads|
    ensures var fp := GetFrame(m.pads, stamp).gamepads[k];
      && 1 <= fp.index <= |m.pads| && m.pads[fp.index - 1].Some?
      && fp.axes == m.pads[fp.index - 1].value.axes
  {
    var i := Positions(m.pads, Live)[k];
    assert GetFrame(m.pads, stamp).gamepads[k] == Serialise(m.pads[i].value);
  }

  /** The frame of a reachable state names, for each pad, the slot it was
      read from. */
  lemma FrameFromSlots(m: Mock, stamp: int)
    requires Wf(m)
    ensures FromSlots(GetFrame(m.pads, stamp), m.pads)
  {
    forall j | 0 <= j < |GetFrame(m.pads, stamp).gamepads|
      ensures var fp := GetFrame(m.pads, stamp).gamepads[j];
        1 <= fp.index <= |m.pads| && m.pads[fp.index - 1].Some?
    {
      FramePadFromSlot(m, stamp, j);
    }
  }

  /** Reading the frame of a reachable state through that state changes
      nothing. */
  lemma FrameReadsThroughItself(m: Mock, stamp: int)
    requires Wf(m)
    ensures FrameReadThrough(GetFrame(m.pads, stamp), m.pads) == GetFrame(m.pads, stamp)
  {
    var f := GetFrame(m.pads, stamp);
    forall j | 0 <= j < |f.gamepads|
      ensures ReadThrough(f.gamepads[j], m.pads) == f.gamepads[j]
    {
      FramePadFromSlot(m, stamp, j);
    }
    ReadThroughIdentity(f, m.pads);
  }

  lemma ReadThroughIdentity(f: Frame, pads: Sparse<Pad>)
    requires forall j :: 0 <= j < |f.gamepads| ==> ReadThrough(f.gamepads[j], pads) == f.gamepads[j]
    ensures FrameReadThrough(f, pads) == f
  {
  }

  /** A pad of a frame read through `pads` shows the axes of its slot. */
  lemma ReadThroughAxes(f: Frame, pads: Sparse<Pad>, j: nat)
    requires FromSlots(f, pads) && j < |f.gamepads|
    ensures |FrameReadThrough(f, pads).gamepads| == |f.gamepads|
    ensures FrameReadThrough(f, pads).gamepads[j].axes == pads[f.gamepads[j].index - 1].value.axes
  {
  }

  /** An update keeps every slot that holds a pad holding one. */
  lemma UpdateKeepsFromSlots(f: Frame, m: Mock, now: int)
    requires Wf(m) && m.previousTimestamp <= now && FromSlots(f, m.pads)
    ensures FromSlots(f, UpdateMockGamepads(m, now).pads)
  {
    var r := UpdateMockGamepads(m, now);
    forall j | 0 <= j < |f.gamepads|
      ensures 1 <= f.gamepads[j].index <= |r.pads| && r.pads[f.gamepads[j].index - 1].Some?
    {
      var slot := f.gamepads[j].index - 1;
      if slot != m.active {
        assert r.pads[slot] == m.pads[slot];
      }
    }
  }

  /** A frame read through a reachable state and that state's own frame
      agree on the axes of every pad they share. */
  lemma ReadThroughMatchesFrame(prev: Frame, m: Mock, stamp: int)
    requires Wf(m) && FromSlots(prev, m.pads)
    ensures var p := FrameReadThrough(prev, m.pads);
      var c := GetFrame(m.pads, stamp);
      forall j, k :: (0 <= j < |p.gamepads| && 0 <= k < |c.gamepads| &&
        p.gamepads[j].index == c.gamepads[k].index) ==> p.gamepads[j].axes == c.gamepads[k].axes
  {
    var p := FrameReadThrough(prev, m.pads);
    var c := GetFrame(m.pads, stamp);
    forall j, k | 0 <= j < |p.gamepads| && 0 <= k < |c.gamepads| && p.gamepads[j].index == c.gamepads[k].index
      ensures p.gamepads[j].axes == c.gamepads[k].axes
    {
      SharedPadAxes(prev, m, stamp, j, k);
    }
  }

  lemma SharedPadAxes(prev: Frame, m: Mock, stamp: int, j: nat, k: nat)
    requires Wf(m) && FromSlots(prev, m.pads)
    requires j < |prev.gamepads| && k < |GetFrame(m.pads, stamp).gamepads|
    requires prev.gamepads[j].index == GetFrame(m.pads, stamp).gamepads[k].index
    ensures |FrameReadThrough(prev, m.pads).gamepads| == |prev.gamepads|
    ensures FrameReadThrough(prev, m.pads).gamepads[j].axes == GetFrame(m.pads, stamp).gamepads[k].axes
  {
    ReadThroughAxes(prev, m.pads, j);
    FramePadFromSlot(m, stamp, k);
  }

  /** As written, every pad that appears in both frames of a payload shows
      the same axes in both: the previous frame no longer tells Elm where
      the axes were. */
  lemma PreviousShowsCurrentAxes(s: Session, now: int, stamp: int)
    requires Wf(s.mock) && s.mock.previousTimestamp <= now && FromSlots(s.previousFrame, s.mock.pads)
    ensures var b := OnAnimationFrameAsWritten(s, now, stamp).1;
      forall j, k :: (0 <= j < |b.previous.gamepads| && 0 <= k < |b.current.gamepads| &&
        b.previous.gamepads[j].index == b.current.gamepads[k].index) ==>
        b.previous.gamepads[j].axes == b.current.gamepads[k].axes
  {
    var mock := UpdateMockGamepads(s.mock, now);
    UpdateKeepsFromSlots(s.previousFrame, s.mock, now);
    ReadThroughMatchesFrame(s.previousFrame, mock, stamp);
  }

  /** Every step of the page keeps the stored frame's pads tied to slots
      that still hold them, so the sharing above applies on every frame. */
  lemma StepKeepsFromSlots(s: Session, e: Event)
    requires Wf(s.mock) && (e.AnimationFrame? ==> s.mock.previousTimestamp <= e.now)
    requires FromSlots(s.previousFrame, s.mock.pads)
    ensures FromSlots(Step(s, e).0.previousFrame, Step(s, e).0.mock.pads)
  {
    match e
    case KeyPress(key) =>
      KeyDownKeepsFromSlots(s.previousFrame, s.mock, key);
    case KeyRelease(key) =>
    case AnimationFrame(now, stamp) =>
      FrameFromSlots(UpdateMockGamepads(s.mock, now), stamp);
  }

  lemma KeyDownKeepsFromSlots(f: Frame, m: Mock, key: string)
    requires FromSlots(f, m.pads)
    ensures FromSlots(f, KeyDown(m, key).pads)
  {
    var r := KeyDown(m, key);
    forall j | 0 <= j < |f.gamepads|
      ensures 1 <= f.gamepads[j].index <= |r.pads| && r.pads[f.gamepads[j].index - 1].Some?
    {
      var slot := f.gamepads[j].index - 1;
      assert Lookup(m.pads, slot).Some?;
      assert Lookup(r.pads, slot).Some?;
    }
  }

  /** The state of the example below: pad 0 selected and at rest, `w`
      held, multiplier 1, clock at 0. */
  function ExampleMock(): Mock {
    Mock([Some(InitGamepad(0))], 0, Finite(1.0), map["w" := true], 0)
  }

  /** The example state is reached from the start state by pressing `1`
      and then holding `w`. */
  lemma ExampleReachable()
    ensures KeyDown(KeyDown(Start(0), "1"), "w") == ExampleMock()
  {
    ClassifyDigit(1);
    assert DigitKey(1) == "1";
    ClassifyNamedKey("w");
  }

  /** A one-pad list yields a one-pad frame. */
  lemma OnePadFrame(p: Pad, stamp: int)
    requires Live(Some(p))
    ensures GetFrame([Some(p)], stamp).gamepads == [Serialise(p)]
  {
    PositionsSnoc([], Some(p), Live);
    assert [] + [Some(p)] == [Some(p)];
  }

  /** 100 ms with `w` held moves the example pad's Y axis from 0 to 1. */
  lemma ExampleUpdate()
    ensures UpdateMockGamepads(ExampleMock(), 100).pads ==
      [Some(InitGamepad(0).(axes := [0.0, 1.0, 0.0, 0.0]))]
  {
    var m := ExampleMock();
    var sp := TickSpeed(100, Finite(1.0));
    assert sp == Rate(1.0);
    var pad := m.pads[0].value;
    var next := UpdateMockGamepads(m, 100).pads[0].value;
    UpdateSteersActivePad(m, 100, 0);
    UpdateSteersActivePad(m, 100, 1);
    assert !Held(m.keys, "a") && !Held(m.keys, "d") && !Held(m.keys, "s") && Held(m.keys, "w");
    ApplyFromFrame(KeyMap, 0, m.keys, pad, sp, 2);
    ApplyFromFrame(KeyMap, 0, m.keys, pad, sp, 3);
    assert next.axes == [0.0, 1.0, 0.0, 0.0];
  }

  /** The page primed on the example state, then one frame 100 ms later:
      the stored previous frame holds the axes at rest, the payload as
      written delivers them already moved, and the copying version
      delivers them at rest. */
  lemma AliasedAxesCounterexample()
    ensures var s := Prime(ExampleMock(), Environment("", []), 0);
      && |s.previousFrame.gamepads| == 1
      && s.previousFrame.gamepads[0].axes == [0.0, 0.0, 0.0, 0.0]
      && |OnAnimationFrameAsWritten(s, 100, 100).1.previous.gamepads| == 1
      && OnAnimationFrameAsWritten(s, 100, 100).1.previous.gamepads[0].axes == [0.0, 1.0, 0.0, 0.0]
      && OnAnimationFrame(s, 100, 100).1.previous.gamepads[0].axes == [0.0, 0.0, 0.0, 0.0]
  {
    var s := Prime(ExampleMock(), Environment("", []), 0);
    OnePadFrame(InitGamepad(0), 0);
    ExampleUpdate();
    var pads := UpdateMockGamepads(ExampleMock(), 100).pads;
    assert FrameReadThrough(s.previousFrame, pads).gamepads[0] == ReadThrough(s.previousFrame.gamepads[0], pads);
  }

  /** What reaches the page: key presses, key releases and animation frames
      (with the clock readings of `updateMockGamepads` and `getFrame`). */
  datatype Event = KeyPress(key: string) | KeyRelease(key: string) | AnimationFrame(now: int, stamp: int)

  /** The update clock never runs backwards from `t` over the events from
      position `i` on. */
  predicate ClockOk(t: int, evs: seq<Event>, i: nat)
    decreases |evs| - i
  {
    i >= |evs| ||
    (if evs[i].AnimationFrame? then t <= evs[i].now && ClockOk(evs[i].now, evs, i + 1)
     else ClockOk(t, evs, i + 1))
  }

  /** The number of animation frames from position `i` on. */
  function FrameCount(evs: seq<Event>, i: nat): nat
    decreases |evs| - i
  {
    if i >= |evs| then 0 else (if evs[i].AnimationFrame? then 1 else 0) + FrameCount(evs, i + 1)
  }

  /** One event of the page. A frame yields exactly one blob that pairs the
      stored previous frame with the new current one, which it then stores. */
  function Step(s: Session, e: Event): (r: (Session, seq<Blob>))
    requires Wf(s.mock) && (e.AnimationFrame? ==> s.mock.previousTimestamp <= e.now)
    ensures Wf(r.0.mock) && r.0.environment == s.environment
    ensures r.0.mock.previousTimestamp == if e.AnimationFrame? then e.now else s.mock.previousTimestamp
    ensures |r.1| == if e.AnimationFrame? then 1 else 0
    ensures |r.1| == 0 ==> r.0.previousFrame == s.previousFrame
    ensures |r.1| == 1 ==>
      && r.1[0].previous == s.previousFrame && r.0.previousFrame == r.1[0].current
      && FrameInRange(r.1[0].current) && r.1[0].environment == s.environment
    ensures e.KeyPress? ==> r.0 == s.(mock := KeyDown(s.mock, e.key))
    ensures e.KeyRelease? ==> r.0 == s.(mock := KeyUp(s.mock, e.key))
    ensures e.AnimationFrame? ==> (r.0, r.1[0]) == OnAnimationFrame(s, e.now, e.stamp)
  {
    match e
    case KeyPress(key) => (s.(mock := KeyDown(s.mock, key)), [])
    case KeyRelease(key) => (s.(mock := KeyUp(s.mock, key)), [])
    case AnimationFrame(now, stamp) =>
      WfIsReady(s.mock);
      var (s', blob) := OnAnimationFrame(s, now, stamp);
      FrameOfWfInRange(s'.mock, stamp);
      (s', [blob])
  }

  /** Each blob carries the previous blob's current frame as its previous
      frame. */
  ghost predicate Chained(blobs: seq<Blob>) {
    forall j, k :: 0 <= j && k == j + 1 && k < |blobs| ==> blobs[k].previous == blobs[j].current
  }

  /** Every blob's current frame is within range and every blob carries the
      page's environment. */
  predicate AllInRange(blobs: seq<Blob>, env: Environment) {
    forall k :: 0 <= k < |blobs| ==> FrameInRange(blobs[k].current) && blobs[k].environment == env
  }

  /** The payloads sent so far thread the frames: the first carries `first`
      as its previous frame, each carries its predecessor's current frame,
      and the slot holds the last current frame (`first` when none was
      sent). */
  ghost predicate Threads(first: Frame, blobs: seq<Blob>, slot: Frame) {
    && Chained(blobs)
    && (|blobs| == 0 ==> slot == first)
    && (|blobs| > 0 ==> blobs[0].previous == first && slot == blobs[|blobs| - 1].current)
  }

  /** Appending the payloads of one step (none, or one blob that pairs the
      slot with the new frame it leaves there) keeps the thread. */
  lemma ChainAppend(first: Frame, blobs: seq<Blob>, slot: Frame, more: seq<Blob>, slot': Frame, env: Environment)
    requires Threads(first, blobs, slot) && AllInRange(blobs, env) && |more| <= 1
    requires |more| == 0 ==> slot' == slot
    requires |more| == 1 ==>
      && more[0].previous == slot && slot' == more[0].current
      && FrameInRange(more[0].current) && more[0].environment == env
    ensures Threads(first, blobs + more, slot') && AllInRange(blobs + more, env)
    ensures |blobs + more| == |blobs| + |more|
  {
    var t := blobs + more;
    if |more| == 0 {
      assert t == blobs;
    } else {
      assert t[|blobs|] == more[0];
      if |blobs| > 0 {
        assert t[0] == blobs[0];
      }
      forall j, k | 0 <= j && k == j + 1 && k < |t| ensures t[k].previous == t[j].current {
        if k < |blobs| {
          assert t[k] == blobs[k] && t[j] == blobs[j];
        }
      }
    }
  }

  /** The events from position `i` on, fed to `Step` one after another:
      the final state and every payload sent, in order. */
  function Replay(s: Session, evs: seq<Event>, i: nat): (Session, seq<Blob>)
    requires Wf(s.mock) && ClockOk(s.mock.previousTimestamp, evs, i)
    decreases |evs| - i
  {
    if i >= |evs| then (s, [])
    else
      var r := Step(s, evs[i]);
      var rest := Replay(r.0, evs, i + 1);
      (rest.0, r.1 + rest.1)
  }

  /** Replaying from position `i` is one step followed by the replay of the
      rest, with the step's payloads first. */
  lemma ReplayStep(s: Session, evs: seq<Event>, i: nat, before: seq<Blob>)
    requires Wf(s.mock) && ClockOk(s.mock.previousTimestamp, evs, i) && i < |evs|
    ensures var r := Step(s, evs[i]);
      && ClockOk(r.0.mock.previousTimestamp, evs, i + 1)
      && Replay(s, evs, i).0 == Replay(r.0, evs, i + 1).0
      && before + Replay(s, evs, i).1 == (before + r.1) + Replay(r.0, evs, i + 1).1
  {
    var r := Step(s, evs[i]);
    assert before + (r.1 + Replay(r.0, evs, i + 1).1) == (before + r.1) + Replay(r.0, evs, i + 1).1;
  }

  /** A run of the page after priming: one blob per animation frame, each
      carrying the previous blob's current frame as its previous frame,
      every frame within range. */
  method Run(s: Session, evs: seq<Event>) returns (last: Session, blobs: seq<Blob>)
    requires Wf(s.mock) && ClockOk(s.mock.previousTimestamp, evs, 0)
    ensures Wf(last.mock) && last.environment == s.environment
    ensures |blobs| == FrameCount(evs, 0)
    ensures |blobs| == 0 ==> last.previousFrame == s.previousFrame
    ensures |blobs| > 0 ==> blobs[0].previous == s.previousFrame && last.previousFrame == blobs[|blobs| - 1].current
    ensures forall j, k :: 0 <= j && k == j + 1 && k < |blobs| ==> blobs[k].previous == blobs[j].current
    ensures forall k :: 0 <= k < |blobs| ==> FrameInRange(blobs[k].current) && blobs[k].environment == s.environment
    ensures (last, blobs) == Replay(s, evs, 0)
  {
    last, blobs := s, [];
    var i := 0;
    while i < |evs|
      invariant 0 <= i <= |evs|
      invariant Wf(last.mock) && last.environment == s.environment
      invariant ClockOk(last.mock.previousTimestamp, evs, i)
      invariant |blobs| + FrameCount(evs, i) == FrameCount(evs, 0)
      invariant Threads(s.previousFrame, blobs, last.previousFrame) && AllInRange(blobs, s.environment)
      invariant Replay(last, evs, i).0 == Replay(s, evs, 0).0
      invariant blobs + Replay(last, evs, i).1 == Replay(s, evs, 0).1
    {
      var r := Step(last, evs[i]);
      ReplayStep(last, evs, i, blobs);
      ChainAppend(s.previousFrame, blobs, last.previousFrame, r.1, r.0.previousFrame, s.environment);
      last, blobs := r.0, blobs + r.1;
      i := i + 1;
    }
    assert blobs + [] == blobs;
  }
}
