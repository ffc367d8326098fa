/** src/Native/Gamepad.js: the Elm native module's per-frame snapshot. On
    every animation frame it reads the browser's gamepad list and builds
    one plain record per entry that is not null. */
module NativeGamepad {
  import opened Common

  /** What a browser gamepad object offers to the snapshot: `axes` and
      `buttons` may be missing, and `connected` may be missing too. */
  datatype RawPad = RawPad(
    index: int,
    axes: Option<seq<real>>,
    buttons: Option<seq<Button>>,
    connected: Option<bool>)

  /** The record pushed for one gamepad. */
  datatype OutPad = OutPad(index: int, axes: seq<real>, buttons: seq<ButtonPair>, connected: bool)

  /** The `{ time, gamepads }` value the task succeeds with. */
  datatype Snapshot = Snapshot(time: real, gamepads: seq<OutPad>)

  /** `!!x`: a missing flag is false. */
  function Truthy(x: Option<bool>): (b: bool)
    ensures b <==> x == Some(true)
  {
    x.GetOr(false)
  }

  /** `if (gpIn)`: a list entry that is an object. */
  predicate Present(g: Option<RawPad>) {
    g.Some?
  }

  /** The record built for one non-null entry. */
  function Project(g: RawPad): (o: OutPad)
    ensures o.index == g.index
    ensures g.axes.Some? ==> o.axes == g.axes.value
    ensures g.axes.None? ==> o.axes == []
    ensures |o.buttons| == (if g.buttons.Some? then |g.buttons.value| else 0)
    ensures g.buttons.Some? ==> forall k :: 0 <= k < |o.buttons| ==>
      o.buttons[k] == (g.buttons.value[k].pressed, g.buttons.value[k].value)
    ensures o.connected <==> g.connected == Some(true)
  {
    OutPad(g.index, g.axes.GetOr([]), Pairs(g.buttons.GetOr([])), Truthy(g.connected))
  }

  /** Rebuilds an entry from its record; the missing-versus-empty
      distinction and a missing `connected` are what the record drops. */
  function Unproject(o: OutPad): RawPad {
    RawPad(o.index, Some(o.axes), Some(Unpair(o.buttons)), Some(o.connected))
  }

  /** An entry that has all its fields is recovered from its record. */
  lemma ProjectRoundTrip(g: RawPad)
    requires g.axes.Some? && g.buttons.Some? && g.connected.Some?
    ensures Unproject(Project(g)) == g
  {
    PairsRoundTrip(g.buttons.value);
  }

  /** The frame callback: `navigator.getGamepads()` when the API exists
      (`hasGamepads`), otherwise an empty list, then one record per non-null
      entry in list order. */
  method TakeSnapshot(hasGamepads: bool, navigatorList: Sparse<RawPad>, time: real) returns (r: Snapshot)
    ensures r.time == time
    ensures !hasGamepads ==> r.gamepads == []
    ensures hasGamepads ==>
      && |r.gamepads| == |Positions(navigatorList, Present)|
      && forall j :: 0 <= j < |r.gamepads| ==>
           var i := Positions(navigatorList, Present)[j];
           navigatorList[i].Some? && r.gamepads[j] == Project(navigatorList[i].value)
  {
    var list := if hasGamepads then navigatorList else [];
    var out: seq<OutPad> := [];
    var i := 0;
    while i < |list|
      invariant 0 <= i <= |list|
      invariant |out| == |Positions(list[..i], Present)|
      invariant forall j :: 0 <= j < |out| ==>
        var p := Positions(list[..i], Present)[j];
        list[p].Some? && out[j] == Project(list[p].value)
    {
      PositionsSnoc(list[..i], list[i], Present);
      assert list[..i + 1] == list[..i] + [list[i]];
      if list[i].Some? {
        out := out + [Project(list[i].value)];
      }
      i := i + 1;
    }
    assert list[..i] == list;
    r := Snapshot(time, out);
  }

  /** Null entries are dropped and every other entry kept: entry `i` has a
      record exactly when it is not null, and records keep list order. */
  lemma SnapshotKeepsExactlyPresent(list: Sparse<RawPad>)
    ensures forall i :: 0 <= i < |list| ==> (i in Positions(list, Present) <==> list[i].Some?)
    ensures forall j, k :: 0 <= j < k < |Positions(list, Present)| ==>
      Positions(list, Present)[j] < Positions(list, Present)[k]
  {
  }

  /** A list without nulls keeps every position, so the snapshot has one
      record per entry, entry `i` giving record `i`. */
  lemma {:induction false} PositionsOfDense(list: Sparse<RawPad>)
    requires forall i :: 0 <= i < |list| ==> list[i].Some?
    ensures |Positions(list, Present)| == |list|
    ensures forall j :: 0 <= j < |list| ==> Positions(list, Present)[j] == j
  {
    if |list| > 0 {
      var front := list[..|list| - 1];
      PositionsOfDense(front);
      PositionsSnoc(front, list[|list| - 1], Present);
      assert front + [list[|list| - 1]] == list;
    }
  }

  /** Each null entry costs exactly one record: the snapshot is as long as
      the list minus its nulls. */
  lemma {:induction false} PositionsCount(list: Sparse<RawPad>)
    ensures |Positions(list, Present)| + NullCount(list) == |list|
  {
    if |list| > 0 {
      var front := list[..|list| - 1];
      PositionsCount(front);
      PositionsSnoc(front, list[|list| - 1], Present);
      assert front + [list[|list| - 1]] == list;
    }
  }

  /** The number of null entries of the list. */
  function NullCount(list: Sparse<RawPad>): nat {
    if |list| == 0 then 0
    else NullCount(list[..|list| - 1]) + (if list[|list| - 1].None? then 1 else 0)
  }
}
