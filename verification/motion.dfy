/** The analog integrator both mock variants use: the per-tick speed derived
    from elapsed time and the speed multiplier, `clamp`, `recoil`, and the
    three ways a control moves in one tick (axis, analog button). The two
    source copies of `clamp` and `recoil` are identical, so they are defined
    once here. */
module Motion {

  /** The global speed multiplier: `(n - 4) / 5` after keys 5 to 9, or
      `Infinity` after the cheat key. */
  datatype Multiplier = Finite(factor: real) | Unbounded

  predicate ValidMultiplier(m: Multiplier) {
    m.Finite? ==> m.factor >= 0.0
  }

  /** The distance a control may move in one tick. `Snap` is the infinite
      speed the unbounded multiplier yields: every held control jumps to its
      extreme and every released one to rest. */
  datatype Speed = Rate(perTick: real) | Snap

  predicate ValidSpeed(s: Speed) {
    s.Rate? ==> s.perTick >= 0.0
  }

  /** `baseSpeed`: a full deflection per 100 ms at multiplier 1. */
  const BaseSpeed: real := 10.0

  function Abs(x: real): real {
    if x < 0.0 then -x else x
  }

  /** `dt * inputSpeedMultiplier * baseSpeed / 1000` for `dt` milliseconds.
      An unbounded multiplier over a zero interval is taken as no motion
      (the source computes `0 * Infinity`, see the UnboundedSpeed module). */
  function TickSpeed(dt: nat, m: Multiplier): (s: Speed)
    requires ValidMultiplier(m)
    ensures ValidSpeed(s)
    ensures dt == 0 ==> s == Rate(0.0)
    ensures m.Unbounded? && dt > 0 ==> s == Snap
    ensures m.Finite? ==> s.Rate? && s.perTick * 100.0 == dt as real * m.factor
  {
    match m
    case Finite(f) => Rate(dt as real * f * BaseSpeed / 1000.0)
    case Unbounded => if dt == 0 then Rate(0.0) else Snap
  }

  /** `clamp(min, max, n)`. */
  function Clamp(lo: real, hi: real, n: real): (r: real)
    ensures lo <= hi ==> lo <= r <= hi
    ensures lo <= n <= hi ==> r == n
    ensures r == lo || r == hi || r == n
  {
    if n < lo then lo
    else if n > hi then hi
    else n
  }

  /** On a non-empty interval, `Clamp` yields the point of the interval
      nearest to `n`. */
  lemma ClampIsNearest(lo: real, hi: real, n: real, x: real)
    requires lo <= hi && lo <= x <= hi
    ensures Abs(Clamp(lo, hi, n) - n) <= Abs(x - n)
  {
  }

  /** `recoil(v, speed)`: linear decay toward 0 that stops at 0. */
  function Recoil(v: real, s: real): (r: real)
    requires s >= 0.0
    ensures v == 0.0 ==> r == 0.0
    ensures v > 0.0 ==> 0.0 <= r <= v
    ensures v < 0.0 ==> v <= r <= 0.0
    ensures Abs(r) == if Abs(v) > s then Abs(v) - s else 0.0
  {
    if v > 0.0 then (if 0.0 > v - s then 0.0 else v - s)
    else if v < 0.0 then (if 0.0 < v + s then 0.0 else v + s)
    else 0.0
  }

  /** A value already at rest stays there; a value farther than `s` from
      rest keeps its sign. */
  lemma RecoilKeepsSign(v: real, s: real)
    requires s >= 0.0
    ensures Recoil(v, s) == 0.0 || (Recoil(v, s) > 0.0 <==> v > 0.0)
    ensures Abs(v) > s ==> (Recoil(v, s) > 0.0 <==> v > 0.0) && Recoil(v, s) != 0.0
  {
  }

  /** Recoil at the tick's speed; `Snap` releases straight to rest
      (`Math.max(0, v - Infinity)` is 0). */
  function Settle(v: real, sp: Speed): (r: real)
    requires ValidSpeed(sp)
    ensures v >= 0.0 ==> 0.0 <= r <= v
    ensures v <= 0.0 ==> v <= r <= 0.0
    ensures sp == Snap ==> r == 0.0
    ensures sp.Rate? ==> r == Recoil(v, sp.perTick)
  {
    match sp
    case Rate(s) => Recoil(v, s)
    case Snap => 0.0
  }

  /** One tick of an axis with `direction` in {-1, 0, 1}: while a key is
      held the axis moves toward that key's extreme by the tick's speed,
      stopping at the extreme; with no key held it recoils toward 0. */
  function StepAxis(v: real, direction: int, sp: Speed): (r: real)
    requires -1 <= direction <= 1 && ValidSpeed(sp)
    ensures direction != 0 ==> -1.0 <= r <= 1.0
    ensures direction == 0 ==> r == Settle(v, sp)
    ensures -1.0 <= v <= 1.0 ==> -1.0 <= r <= 1.0
    ensures direction == 1 && v <= 1.0 ==> v <= r
    ensures direction == -1 && v >= -1.0 ==> r <= v
    ensures direction != 0 && sp == Snap ==> r == direction as real
    ensures direction != 0 && sp.Rate? && -1.0 <= v <= 1.0 ==>
      Abs(r - v) == (if sp.perTick <= 1.0 - direction as real * v then sp.perTick else 1.0 - direction as real * v)
  {
    if direction == 0 then Settle(v, sp)
    else
      match sp
      case Rate(s) => Clamp(-1.0, 1.0, v + direction as real * s)
      case Snap => direction as real
  }

  /** With no time elapsed an in-range axis does not move. */
  lemma {:induction false} StepAxisIdle(v: real, direction: int)
    requires -1 <= direction <= 1 && -1.0 <= v <= 1.0
    ensures StepAxis(v, direction, Rate(0.0)) == v
  {
    if direction == 0 {
      assert Recoil(v, 0.0) == v;
    } else {
      assert v + direction as real * 0.0 == v;
    }
  }

  /** One tick of an analog button: while held its value rises by the
      tick's speed, stopping at 1; once released it recoils toward 0. */
  function StepAnalog(v: real, held: bool, sp: Speed): (r: real)
    requires ValidSpeed(sp)
    ensures held ==> r <= 1.0 && (v <= 1.0 ==> v <= r)
    ensures !held ==> r == Settle(v, sp)
    ensures 0.0 <= v <= 1.0 ==> 0.0 <= r <= 1.0
    ensures held && sp == Snap ==> r == 1.0
    ensures held && sp.Rate? && v <= 1.0 ==> r - v == (if sp.perTick <= 1.0 - v then sp.perTick else 1.0 - v)
    ensures held && 1.0 <= v ==> r == 1.0
  {
    if held then
      match sp
      case Rate(s) => if 1.0 < v + s then 1.0 else v + s
      case Snap => 1.0
    else Settle(v, sp)
  }
}
