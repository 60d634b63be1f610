/** The compositor's multi-add operation: a pixel is the channel-wise sum of all its
    inputs' colours, keeping the first input's alpha; its resolution is taken from the
    first input that has one. */
module MultiAdd {
  import opened Common
  import opened MultiMixOperation

  /** The operation's sockets: `numInputs` colour inputs and one colour output. */
  datatype Sockets = Sockets(inputs: seq<SocketType>, outputs: seq<SocketType>)
  datatype SocketType = ColorSocket

  /** The constructor: one colour input per requested input, one colour output, and no
      clamping. */
  function New(numInputs: nat): (r: (Operation, Sockets))
    ensures r.0.numInputs == numInputs && !r.0.useClamp
    ensures |r.1.inputs| == numInputs && r.1.outputs == [ColorSocket]
    ensures forall i :: 0 <= i < |r.1.inputs| ==> r.1.inputs[i] == ColorSocket
  {
    (SetUseClamp(Operation(true, numInputs), false), Sockets(seq(numInputs, _ => ColorSocket), [ColorSocket]))
  }

  /** The red, green and blue sums of a list of colours, added in order. */
  function SumR(cs: seq<Color4>): real
    decreases |cs|
  {
    if cs == [] then 0.0 else SumR(cs[..|cs| - 1]) + cs[|cs| - 1].r
  }

  function SumG(cs: seq<Color4>): real
    decreases |cs|
  {
    if cs == [] then 0.0 else SumG(cs[..|cs| - 1]) + cs[|cs| - 1].g
  }

  function SumB(cs: seq<Color4>): real
    decreases |cs|
  {
    if cs == [] then 0.0 else SumB(cs[..|cs| - 1]) + cs[|cs| - 1].b
  }

  /** The colour a pixel gets before the clamp: the sum of the inputs' colours with the
      first input's alpha. */
  function Added(cs: seq<Color4>): Color4
    requires cs != []
  {
    Color4(SumR(cs), SumG(cs), SumB(cs), cs[0].a)
  }

  /** `executePixelSampled`. `colors` are the colours the input readers return for the
      pixel, in socket order; `output` is what the output buffer held before, which
      stays when there are no inputs. The clamp comes last, once. */
  method ExecutePixel(op: Operation, output: Color4, colors: seq<Color4>) returns (r: Color4)
    ensures colors == [] ==> r == ClampIfNeeded(op, output)
    ensures colors != [] ==> r == ClampIfNeeded(op, Added(colors))
  {
    r := output;
    var i := 0;
    while i < |colors|
      invariant 0 <= i <= |colors|
      invariant i == 0 ==> r == output
      invariant i > 0 ==> r == Added(colors[..i])
    {
      var c := colors[i];
      if i == 0 {
        r := Color4(c.r, c.g, c.b, c.a);
        assert colors[..1] == [c];
        SingleInputPassesThrough(c);
      } else {
        assert colors[..i + 1] == colors[..i] + [c];
        AddedSnoc(colors[..i], c);
        r := Color4(r.r + c.r, r.g + c.g, r.b + c.b, r.a);
      }
      i := i + 1;
    }
    assert colors[..|colors|] == colors;
    r := ClampIfNeeded(op, r);
  }

  /** With one input the pixel is that input, clamped if the operation clamps. */
  lemma SingleInputPassesThrough(c: Color4)
    ensures Added([c]) == c
  {
    var one := [c];
    assert one[..|one| - 1] == [] && one[|one| - 1] == c;
    assert SumR(one) == SumR([]) + c.r;
    assert SumG(one) == SumG([]) + c.g;
    assert SumB(one) == SumB([]) + c.b;
  }

  /** Later inputs' alpha does not matter. */
  lemma AlphaFromFirstInput(cs: seq<Color4>, i: nat, a: real)
    requires 1 <= i < |cs|
    ensures Added(cs[i := cs[i].(a := a)]).a == Added(cs).a
    ensures Added(cs[i := cs[i].(a := a)]) == Added(cs)
  {
    SumsIgnoreAlpha(cs, cs[i := cs[i].(a := a)]);
  }

  lemma {:induction false} SumsIgnoreAlpha(cs: seq<Color4>, ds: seq<Color4>)
    requires |cs| == |ds|
    requires forall k :: 0 <= k < |cs| ==> cs[k].r == ds[k].r && cs[k].g == ds[k].g && cs[k].b == ds[k].b
    ensures SumR(cs) == SumR(ds) && SumG(cs) == SumG(ds) && SumB(cs) == SumB(ds)
    decreases |cs|
  {
    if cs != [] {
      SumsIgnoreAlpha(cs[..|cs| - 1], ds[..|ds| - 1]);
    }
  }

  /** Adding one more input adds its colour channel by channel. */
  lemma AddedSnoc(cs: seq<Color4>, c: Color4)
    requires cs != []
    ensures Added(cs + [c]) == Color4(Added(cs).r + c.r, Added(cs).g + c.g, Added(cs).b + c.b, Added(cs).a)
  {
    assert (cs + [c])[..|cs|] == cs;
  }

  /** `determineResolution`'s choice of input: the first one whose resolution has both
      dimensions non-zero, or none. */
  function ResolutionInput(resolutions: seq<(nat, nat)>): (r: Option<nat>)
    ensures r.Some? ==> r.value < |resolutions| && resolutions[r.value].0 != 0 && resolutions[r.value].1 != 0
    ensures r.Some? ==> forall j :: 0 <= j < r.value ==> resolutions[j].0 == 0 || resolutions[j].1 == 0
    ensures r.None? <==> forall j :: 0 <= j < |resolutions| ==> resolutions[j].0 == 0 || resolutions[j].1 == 0
    decreases |resolutions|
  {
    if resolutions == [] then None
    else if resolutions[0].0 != 0 && resolutions[0].1 != 0 then Some(0)
    else match ResolutionInput(resolutions[1..])
      case None => None
      case Some(j) => Some(j + 1)
  }
}
