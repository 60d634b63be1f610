/** The clamp shared by the compositor's multi-input mix operations: an optional clamp of
    all four channels of an RGBA pixel into [0, 1]. */
module MultiMixOperation {
  import opened Common

  /** An RGBA pixel, four floats. */
  datatype Color4 = Color4(r: real, g: real, b: real, a: real)

  predicate InUnitRange(c: Color4) {
    0.0 <= c.r <= 1.0 && 0.0 <= c.g <= 1.0 && 0.0 <= c.b <= 1.0 && 0.0 <= c.a <= 1.0
  }

  /** The operation's own state that the mix helpers touch; `numInputs` is the number of
      input sockets it was built with. */
  datatype Operation = Operation(useClamp: bool, numInputs: nat)

  /** `clampIfNeeded`. */
  function ClampIfNeeded(op: Operation, c: Color4): (r: Color4)
    ensures op.useClamp ==> InUnitRange(r)
    ensures !op.useClamp ==> r == c
    ensures InUnitRange(c) ==> r == c
  {
    if op.useClamp then Color4(Clamp01(c.r), Clamp01(c.g), Clamp01(c.b), Clamp01(c.a)) else c
  }

  /** Clamping twice is clamping once. */
  lemma ClampIdempotent(op: Operation, c: Color4)
    ensures ClampIfNeeded(op, ClampIfNeeded(op, c)) == ClampIfNeeded(op, c)
  {
  }

  /** Each clamped channel is the nearest value in [0, 1]. */
  lemma ClampIsNearest(op: Operation, c: Color4)
    requires op.useClamp
    ensures var r := ClampIfNeeded(op, c);
            (c.r < 0.0 ==> r.r == 0.0) && (c.r > 1.0 ==> r.r == 1.0)
            && (c.g < 0.0 ==> r.g == 0.0) && (c.g > 1.0 ==> r.g == 1.0)
            && (c.b < 0.0 ==> r.b == 0.0) && (c.b > 1.0 ==> r.b == 1.0)
            && (c.a < 0.0 ==> r.a == 0.0) && (c.a > 1.0 ==> r.a == 1.0)
  {
  }

  /** `setUseClamp`: the flag becomes `value`; nothing else changes. */
  function SetUseClamp(op: Operation, value: bool): (r: Operation)
    ensures r.useClamp == value && r.numInputs == op.numInputs
  {
    op.(useClamp := value)
  }
}
