/** Shared value types: optional results and three-channel colours over the reals.
    Single-precision floats of the renderer are modelled as mathematical reals. */
module Common {

  /** The conventional optional value, used where the source returns a sentinel
      or where its behaviour is undefined. */
  datatype Option<+T> = None | Some(value: T)

  /** A `float3` colour or weight triple. */
  datatype Rgb = Rgb(r: real, g: real, b: real) {

    function Plus(o: Rgb): Rgb {
      Rgb(r + o.r, g + o.g, b + o.b)
    }

    function Times(o: Rgb): Rgb {
      Rgb(r * o.r, g * o.g, b * o.b)
    }

    function Scale(k: real): Rgb {
      Rgb(r * k, g * k, b * k)
    }

    /** `average()` of the kernel: the mean of the three channels. */
    function Average(): real {
      (r + g + b) / 3.0
    }

    predicate InUnitRange() {
      0.0 <= r <= 1.0 && 0.0 <= g <= 1.0 && 0.0 <= b <= 1.0
    }
  }

  lemma PlusSwap(a: Rgb, b: Rgb, c: Rgb, d: Rgb)
    ensures a.Plus(b).Plus(c.Plus(d)) == a.Plus(c).Plus(b.Plus(d))
  {
  }

  lemma ScaleDistributes(x: Rgb, y: Rgb, k: real)
    ensures x.Plus(y).Scale(k) == x.Scale(k).Plus(y.Scale(k))
  {
    assert (x.r + y.r) * k == x.r * k + y.r * k;
    assert (x.g + y.g) * k == x.g * k + y.g * k;
    assert (x.b + y.b) * k == x.b * k + y.b * k;
  }

  lemma TimesDistributes(e: Rgb, x: Rgb, y: Rgb)
    ensures e.Times(x.Plus(y)) == e.Times(x).Plus(e.Times(y))
  {
    assert e.r * (x.r + y.r) == e.r * x.r + e.r * y.r;
    assert e.g * (x.g + y.g) == e.g * x.g + e.g * y.g;
    assert e.b * (x.b + y.b) == e.b * x.b + e.b * y.b;
  }

  const Black: Rgb := Rgb(0.0, 0.0, 0.0)
  const White: Rgb := Rgb(1.0, 1.0, 1.0)

  /** `CLAMP(x, 0, 1)` on one channel. */
  function Clamp01(x: real): (c: real)
    ensures 0.0 <= c <= 1.0
    ensures 0.0 <= x <= 1.0 ==> c == x
    ensures x < 0.0 ==> c == 0.0
    ensures x > 1.0 ==> c == 1.0
  {
    if x < 0.0 then 0.0 else if x > 1.0 then 1.0 else x
  }

  function Min(a: int, b: int): int {
    if a <= b then a else b
  }
}
