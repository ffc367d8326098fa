/** port/gamepadPort.js: the port-based replacement for the native module.
    Once per animation frame it sends `[timestamp - previousTimestamp, pads]`
    to Elm, where `pads` is a copy of the browser's gamepad list, and then
    remembers the frame's timestamp. The browser's list is an input here;
    when the port mock is installed it is the mock's list. */
module Port {
  import opened Common
  import opened Motion
  import PortMock

  /** The copy of one gamepad sent through the port. `axes` is the same
      array; `buttons` holds `[pressed, value]` pairs, keeping any hole. */
  datatype CopiedPad = CopiedPad(
    axes: Sparse<real>,
    buttons: Sparse<ButtonPair>,
    connected: bool,
    id: string,
    index: int)

  /** `buttons.map(b => [b.pressed, b.value])` on an array that may have
      holes: `map` skips a hole and leaves it in place. */
  function SparsePairs(bs: Sparse<Button>): (r: Sparse<ButtonPair>)
    ensures |r| == |bs|
    ensures forall k :: 0 <= k < |bs| ==> (r[k].Some? <==> bs[k].Some?)
    ensures forall k :: 0 <= k < |bs| && bs[k].Some? ==>
      r[k].value == (bs[k].value.pressed, bs[k].value.value)
  {
    seq(|bs|, k requires 0 <= k < |bs| =>
      if bs[k].Some? then Some((bs[k].value.pressed, bs[k].value.value)) else None)
  }

  function SparseUnpair(ps: Sparse<ButtonPair>): Sparse<Button> {
    seq(|ps|, k requires 0 <= k < |ps| =>
      if ps[k].Some? then Some(Button(ps[k].value.0, ps[k].value.1)) else None)
  }

  /** `copyGamepad(g)`: `null` for a missing pad, otherwise the five fields
      the port sends. */
  function CopyGamepad(g: Option<PortMock.Pad>): (r: Option<CopiedPad>)
    ensures r.None? <==> g.None?
    ensures g.Some? ==>
      && r.value.axes == g.value.axes
      && r.value.connected == g.value.connected
      && r.value.id == g.value.id
      && r.value.index == g.value.index
      && |r.value.buttons| == |g.value.buttons|
  {
    match g
    case None => None
    case Some(p) => Some(CopiedPad(p.axes, SparsePairs(p.buttons), p.connected, p.id, p.index))
  }

  /** Rebuilds a pad from its copy and the two fields the copy drops. */
  function Uncopy(c: CopiedPad, timestamp: real, mapping: string): PortMock.Pad {
    PortMock.Pad(c.connected, timestamp, c.axes, SparseUnpair(c.buttons), c.id, c.index, mapping)
  }

  /** Copying loses only `timestamp` and `mapping`. */
  lemma CopyRoundTrip(g: PortMock.Pad)
    ensures Uncopy(CopyGamepad(Some(g)).value, g.timestamp, g.mapping) == g
  {
    var ps := SparsePairs(g.buttons);
    assert SparseUnpair(ps) == g.buttons;
  }

  /** `getGamepads()`: without `navigator.getGamepads` (`hasApi` false) it
      always yields `[]`; otherwise it copies the browser's list slot by
      slot. */
  function GetGamepads(hasApi: bool, navigatorList: Sparse<PortMock.Pad>): (r: Sparse<CopiedPad>)
    ensures !hasApi ==> r == []
    ensures hasApi ==> |r| == |navigatorList|
    ensures hasApi ==> forall i :: 0 <= i < |r| ==> (r[i].Some? <==> navigatorList[i].Some?)
    ensures hasApi ==> forall i :: 0 <= i < |r| && r[i].Some? ==>
      r[i].value.index == navigatorList[i].value.index && r[i].value.axes == navigatorList[i].value.axes
  {
    if !hasApi then []
    else seq(|navigatorList|, i requires 0 <= i < |navigatorList| => CopyGamepad(navigatorList[i]))
  }

  /** Slot positions survive: slot `i` of the result is the copy of slot
      `i` of the browser's list, so an empty slot stays where it was. */
  lemma GetGamepadsKeepsSlots(navigatorList: Sparse<PortMock.Pad>, i: nat)
    requires i < |navigatorList|
    ensures GetGamepads(true, navigatorList)[i] == CopyGamepad(navigatorList[i])
    ensures navigatorList[i].Some? ==>
      Uncopy(GetGamepads(true, navigatorList)[i].value, navigatorList[i].value.timestamp,
             navigatorList[i].value.mapping) == navigatorList[i].value
  {
    if navigatorList[i].Some? {
      CopyRoundTrip(navigatorList[i].value);
    }
  }

  /** The `[timestamp - previousTimestamp, getGamepads()]` message. */
  datatype Message = Message(delta: real, pads: Sparse<CopiedPad>)

  /** What the page supplies to one frame: the callback's timestamp and the
      list `navigator.getGamepads()` returns at that moment. */
  datatype FrameInput = FrameInput(timestamp: real, navigatorList: Sparse<PortMock.Pad>)

  /** One `requestAnimationFrame` callback: send the message, then move
      `previousTimestamp` to the frame's timestamp. */
  function OnFrame(previousTimestamp: real, hasApi: bool, f: FrameInput): (r: (real, Message))
    ensures r.0 == f.timestamp
    ensures previousTimestamp + r.1.delta == f.timestamp
    ensures r.1.pads == GetGamepads(hasApi, f.navigatorList)
  {
    (f.timestamp, Message(f.timestamp - previousTimestamp, GetGamepads(hasApi, f.navigatorList)))
  }

  /** The sum of the first `n` deltas. */
  function SumDeltas(msgs: seq<Message>, n: nat): real
    requires n <= |msgs|
  {
    if n == 0 then 0.0 else SumDeltas(msgs, n - 1) + msgs[n - 1].delta
  }

  /** The value `previousTimestamp` holds when frame `k` runs: the start-up
      reading for the first frame, the frame before's timestamp after that. */
  function Before(start: real, frames: seq<FrameInput>, k: nat): real
    requires k < |frames|
  {
    if k == 0 then start else frames[k - 1].timestamp
  }

  /** The message frame `k` sends. */
  function MessageAt(start: real, hasApi: bool, frames: seq<FrameInput>, k: nat): Message
    requires k < |frames|
  {
    OnFrame(Before(start, frames, k), hasApi, frames[k]).1
  }

  /** The frame loop from the start-up reading `start` of `performance.now()`:
      one message per frame, each delta measured from the frame before (the
      first from `start`), so the deltas add up to the time elapsed. */
  method RunFrames(start: real, hasApi: bool, frames: seq<FrameInput>) returns (previousTimestamp: real, msgs: seq<Message>)
    ensures |msgs| == |frames|
    ensures previousTimestamp == if |frames| == 0 then start else frames[|frames| - 1].timestamp
    ensures forall k :: 0 <= k < |msgs| ==> msgs[k] == MessageAt(start, hasApi, frames, k)
    ensures SumDeltas(msgs, |msgs|) == previousTimestamp - start
  {
    previousTimestamp, msgs := start, [];
    var i := 0;
    while i < |frames|
      invariant 0 <= i <= |frames| && |msgs| == i
      invariant previousTimestamp == if i == 0 then start else frames[i - 1].timestamp
      invariant forall k :: 0 <= k < |msgs| ==> msgs[k] == MessageAt(start, hasApi, frames, k)
      invariant SumDeltas(msgs, |msgs|) == previousTimestamp - start
    {
      var r := OnFrame(previousTimestamp, hasApi, frames[i]);
      assert r.1 == MessageAt(start, hasApi, frames, i);
      SumDeltasSnoc(msgs, r.1);
      previousTimestamp, msgs := r.0, msgs + [r.1];
      i := i + 1;
    }
  }

  /** Each message of the run carries the time since the frame before (the
      first one the time since start-up) and the copied list of its frame. */
  lemma MessageAtMeaning(start: real, hasApi: bool, frames: seq<FrameInput>, k: nat)
    requires k < |frames|
    ensures MessageAt(start, hasApi, frames, k).delta ==
      frames[k].timestamp - (if k == 0 then start else frames[k - 1].timestamp)
    ensures MessageAt(start, hasApi, frames, k).pads == GetGamepads(hasApi, frames[k].navigatorList)
  {
  }

  lemma SumDeltasSnoc(msgs: seq<Message>, m: Message)
    ensures SumDeltas(msgs + [m], |msgs| + 1) == SumDeltas(msgs, |msgs|) + m.delta
  {
    assert (msgs + [m])[|msgs|] == m;
    SumDeltasPrefix(msgs, [m], |msgs|);
  }

  /** Appending messages leaves the sums of earlier prefixes alone. */
  lemma {:induction false} SumDeltasPrefix(msgs: seq<Message>, more: seq<Message>, n: nat)
    requires n <= |msgs|
    ensures SumDeltas(msgs + more, n) == SumDeltas(msgs, n)
  {
    if n > 0 {
      SumDeltasPrefix(msgs, more, n - 1);
      assert (msgs + more)[n - 1] == msgs[n - 1];
    }
  }

  /** With the port mock installed, a frame's message lists every mock slot
      in place: the advanced active pad, and every other pad as it was. */
  lemma FrameOfMock(m: PortMock.Mock, now: int, timestamp: real, previousTimestamp: real)
    requires PortMock.Wf(m) && m.previousTimestamp <= now
    ensures var (m1, list) := PortMock.GetGamepadsMock(m, now);
      var msg := OnFrame(previousTimestamp, true, FrameInput(timestamp, list)).1;
      && PortMock.Wf(m1)
      && |msg.pads| == |m.pads|
      && (forall i :: 0 <= i < |m.pads| ==> (msg.pads[i].Some? <==> m.pads[i].Some?))
      && (forall i :: 0 <= i < |m.pads| && i != m.active ==> msg.pads[i] == CopyGamepad(m.pads[i]))
      && (forall i :: 0 <= i < |m.pads| && m.pads[i].Some? ==>
            msg.pads[i].value.connected && msg.pads[i].value.index == i)
  {
    var (m1, list) := PortMock.GetGamepadsMock(m, now);
    var msg := OnFrame(previousTimestamp, true, FrameInput(timestamp, list)).1;
    forall i | 0 <= i < |m.pads|
      ensures msg.pads[i].Some? <==> m.pads[i].Some?
      ensures m.pads[i].Some? ==> msg.pads[i].value.connected && msg.pads[i].value.index == i
    {
      GetGamepadsKeepsSlots(list, i);
      if i == m.active {
        assert list[i].Some?;
      }
    }
    forall i | 0 <= i < |m.pads| && i != m.active ensures msg.pads[i] == CopyGamepad(m.pads[i]) {
      GetGamepadsKeepsSlots(list, i);
    }
  }
}
