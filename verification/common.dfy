/** Vocabulary shared by every part of the gamepad model: optional values,
    buttons and their `[pressed, value]` projection, JavaScript arrays that
    may have holes, and the ordered positions a filter keeps. */
module Common {

  /** `null`/`undefined` versus a present value. */
  datatype Option<+T> = None | Some(value: T) {
    /** `x || fallback` for a value whose present form is never falsy. */
    function GetOr(default: T): T {
      match this
      case Some(v) => v
      case None => default
    }
  }

  /** A gamepad button as the browser (or a mock) reports it. */
  datatype Button = Button(pressed: bool, value: real)

  /** The `[pressed, value]` pair every normaliser emits for a button. */
  type ButtonPair = (bool, real)

  /** `buttons.map(b => [b.pressed, b.value])`. */
  function Pairs(bs: seq<Button>): (r: seq<ButtonPair>)
    ensures |r| == |bs|
    ensures forall k :: 0 <= k < |r| ==> r[k].0 == bs[k].pressed && r[k].1 == bs[k].value
  {
    seq(|bs|, k requires 0 <= k < |bs| => (bs[k].pressed, bs[k].value))
  }

  /** Rebuilds buttons from their pairs; the partner of `Pairs`. */
  function Unpair(ps: seq<ButtonPair>): seq<Button> {
    seq(|ps|, k requires 0 <= k < |ps| => Button(ps[k].0, ps[k].1))
  }

  /** The projection to pairs loses nothing a button carries. */
  lemma PairsRoundTrip(bs: seq<Button>)
    ensures Unpair(Pairs(bs)) == bs
  {
    var ps := Pairs(bs);
    assert forall k :: 0 <= k < |bs| ==> Unpair(ps)[k] == bs[k];
  }

  /** A JavaScript array that may have holes: a hole reads as `undefined`. */
  type Sparse<T> = seq<Option<T>>

  /** `a[i]`: a hole or an index past the end reads as `undefined`. */
  function Lookup<T>(s: Sparse<T>, i: nat): Option<T> {
    if i < |s| then s[i] else None
  }

  /** `a[i] = v`: writing past the end grows the array, leaving holes. */
  function Store<T>(s: Sparse<T>, i: nat, v: T): (r: Sparse<T>)
    ensures |r| == if i < |s| then |s| else i + 1
    ensures Lookup(r, i) == Some(v)
    ensures forall j: nat :: j != i ==> Lookup(r, j) == Lookup(s, j)
  {
    if i < |s| then s[i := Some(v)]
    else s + seq(i - |s|, _ => None) + [Some(v)]
  }

  /** The indices of `s` whose element `keep` accepts, in increasing order:
      what a `for` loop that pushes only the accepted elements visits. */
  function Positions<T>(s: seq<T>, keep: T -> bool): (r: seq<nat>)
    ensures |r| <= |s|
    ensures forall j :: 0 <= j < |r| ==> r[j] < |s| && keep(s[r[j]])
    ensures forall j, k :: 0 <= j < k < |r| ==> r[j] < r[k]
    ensures forall i :: 0 <= i < |s| && keep(s[i]) ==> i in r
  {
    if |s| == 0 then []
    else
      var init := s[..|s| - 1];
      var front := Positions(init, keep);
      assert forall i :: 0 <= i < |init| ==> s[i] == init[i];
      var r := front + (if keep(s[|s| - 1]) then [|s| - 1] else []);
      assert forall j :: 0 <= j < |front| ==> r[j] == front[j];
      r
  }

  /** Growing the input by one element extends the positions by at most that element. */
  lemma PositionsSnoc<T>(s: seq<T>, x: T, keep: T -> bool)
    ensures Positions(s + [x], keep) == Positions(s, keep) + (if keep(x) then [|s|] else [])
  {
    assert (s + [x])[..|s|] == s;
  }
}
