/** What the cheat key's `Infinity` multiplier does in JavaScript's own
    arithmetic, next to the model's reading of it. Both mock variants
    compute the speed as `dt * inputSpeedMultiplier * baseSpeed / 1000`;
    with `inputSpeedMultiplier = Infinity` and an interval of 0 ms this is
    `0 * Infinity`, which is NaN, and NaN then flows through `clamp` and
    `recoil` into the pad. The rest of the model uses `Motion.TickSpeed`,
    which reads that case as no motion. */
module UnboundedSpeed {
  import opened Motion

  /** The JavaScript numbers the speed computation can produce: finite
      values, `Infinity`, and NaN. */
  datatype JsNum = Num(x: real) | Infinity | NaN

  /** `dt * inputSpeedMultiplier * baseSpeed / 1000` as JavaScript computes it. */
  function JsSpeed(dt: nat, m: Multiplier): (s: JsNum)
    requires ValidMultiplier(m)
    ensures s == NaN <==> m.Unbounded? && dt == 0
    ensures s == Infinity <==> m.Unbounded? && dt > 0
  {
    match m
    case Finite(f) => Num(dt as real * f * BaseSpeed / 1000.0)
    case Unbounded => if dt == 0 then NaN else Infinity
  }

  /** `recoil(v, speed)` for any speed: `Math.max` and `Math.min` return NaN
      when either argument is NaN, and `v - Infinity` is below any bound. */
  function JsRecoil(v: real, s: JsNum): JsNum
    requires s.Num? ==> s.x >= 0.0
  {
    if v == 0.0 then Num(0.0)
    else
      match s
      case Num(x) => Num(Recoil(v, x))
      case Infinity => Num(0.0)
      case NaN => NaN
  }

  /** The axis step of either variant as written: with a direction held,
      `clamp(-1, 1, v + direction * speed)`, where a NaN sum fails both of
      `clamp`'s comparisons and comes out unchanged and an infinite one is
      clamped to the extreme; otherwise `recoil(v, speed)`. */
  function AsWrittenAxis(v: real, direction: int, s: JsNum): JsNum
    requires -1 <= direction <= 1 && (s.Num? ==> s.x >= 0.0)
  {
    if direction == 0 then JsRecoil(v, s)
    else
      match s
      case Num(x) => Num(Clamp(-1.0, 1.0, v + direction as real * x))
      case Infinity => Num(direction as real)
      case NaN => NaN
  }

  /** The analog-button step of the port variant as written:
      `Math.min(1, v + speed)` while held, `recoil(v, speed)` otherwise. */
  function AsWrittenAnalog(v: real, held: bool, s: JsNum): JsNum
    requires s.Num? ==> s.x >= 0.0
  {
    if !held then JsRecoil(v, s)
    else
      match s
      case Num(x) => Num(if 1.0 < v + x then 1.0 else v + x)
      case Infinity => Num(1.0)
      case NaN => NaN
  }

  /** Away from the cheat key over a zero interval, the model's axis step is
      exactly what JavaScript computes, `Snap` standing for `Infinity`. */
  lemma AxisAgreesAsWritten(v: real, direction: int, dt: nat, m: Multiplier)
    requires -1 <= direction <= 1 && ValidMultiplier(m) && !(m.Unbounded? && dt == 0)
    ensures AsWrittenAxis(v, direction, JsSpeed(dt, m)) == Num(StepAxis(v, direction, TickSpeed(dt, m)))
  {
  }

  lemma AnalogAgreesAsWritten(v: real, held: bool, dt: nat, m: Multiplier)
    requires ValidMultiplier(m) && !(m.Unbounded? && dt == 0)
    ensures AsWrittenAnalog(v, held, JsSpeed(dt, m)) == Num(StepAnalog(v, held, TickSpeed(dt, m)))
  {
  }

  /** As written, an update in the same millisecond as the last one after
      the cheat key turns every axis that is held or away from rest into
      NaN, and only those. */
  lemma AsWrittenAxisNaN(v: real, direction: int, dt: nat, m: Multiplier)
    requires -1 <= direction <= 1 && ValidMultiplier(m)
    ensures AsWrittenAxis(v, direction, JsSpeed(dt, m)) == NaN <==>
      m.Unbounded? && dt == 0 && (direction != 0 || v != 0.0)
  {
    if !(m.Unbounded? && dt == 0) {
      AxisAgreesAsWritten(v, direction, dt, m);
    }
  }

  /** The concrete case: left stick at 0.5 with its positive key held, the
      cheat key pressed, two updates within one millisecond. The axis leaves
      [-1, 1] for NaN. */
  lemma CheatKeyCounterexample()
    ensures AsWrittenAxis(0.5, 1, JsSpeed(0, Unbounded)) == NaN
    ensures AsWrittenAnalog(0.5, true, JsSpeed(0, Unbounded)) == NaN
  {
  }

  /** The corrected reading used by the rest of the model: after the cheat
      key, an update with no elapsed time moves nothing, so in-range axes
      and analog values stay where they are. */
  lemma CorrectedCheatKeyIdle(v: real, direction: int, b: real, held: bool)
    requires -1 <= direction <= 1 && -1.0 <= v <= 1.0 && 0.0 <= b <= 1.0
    ensures StepAxis(v, direction, TickSpeed(0, Unbounded)) == v
    ensures StepAnalog(b, held, TickSpeed(0, Unbounded)) == b
  {
    StepAxisIdle(v, direction);
  }
}
