/** The shader evaluator around the closure array: the accumulations over it, and the
    entry points that reset it and run a shader program to fill it. The node
    interpreter (`svm_eval_nodes`) is a parameter that yields the closures a shader
    emits; closure allocation stops at a fixed capacity. */
module ShaderEval {
  import opened Common
  import opened Closure
  import opened ClosureMerge

  // ---------------------------------------------------------------------------
  // Accumulations over the closure array
  // ---------------------------------------------------------------------------

  /** `shader_bsdf_transparency`: a volume-only shader is fully transparent; otherwise
      the summed weight of the transparent BSDFs. */
  function Transparency(cs: seq<Closure>, onlyVolume: bool): (t: Rgb)
    ensures onlyVolume ==> t == White
    ensures !onlyVolume ==> t == WeightSum(cs, IsTransparentKey)
  {
    if onlyVolume then White else WeightSum(cs, IsTransparentKey)
  }

  /** `shader_bsdf_alpha`: one minus the transparency, clamped per channel to [0, 1]. */
  function Alpha(cs: seq<Closure>, onlyVolume: bool): (a: Rgb)
    ensures a.InUnitRange()
    ensures Transparency(cs, onlyVolume).InUnitRange() ==> a == White.Plus(Transparency(cs, onlyVolume).Scale(-1.0))
    // out of range, each channel is clamped to the nearer end
    ensures var t := Transparency(cs, onlyVolume);
            (t.r >= 1.0 ==> a.r == 0.0) && (t.r <= 0.0 ==> a.r == 1.0)
            && (t.g >= 1.0 ==> a.g == 0.0) && (t.g <= 0.0 ==> a.g == 1.0)
            && (t.b >= 1.0 ==> a.b == 0.0) && (t.b <= 0.0 ==> a.b == 1.0)
  {
    var t := Transparency(cs, onlyVolume);
    Rgb(Clamp01(1.0 - t.r), Clamp01(1.0 - t.g), Clamp01(1.0 - t.b))
  }

  /** `shader_bsdf_disable_transparency`: transparent closures keep their place but lose
      all colour and sampling weight. */
  function DisableTransparency(cs: seq<Closure>): (r: seq<Closure>)
    ensures |r| == |cs|
    ensures forall i :: 0 <= i < |cs| ==> r[i].ctype == cs[i].ctype && r[i].payload == cs[i].payload
    ensures forall i :: 0 <= i < |cs| && !cs[i].ctype.BsdfTransparent? ==> r[i] == cs[i]
    ensures forall i :: 0 <= i < |cs| && cs[i].ctype.BsdfTransparent? ==>
              r[i].weight == Black && r[i].sampleWeight == 0.0
    decreases |cs|
  {
    if cs == [] then []
    else
      var c := cs[0];
      var c' := if c.ctype.BsdfTransparent? then c.(weight := Black, sampleWeight := 0.0) else c;
      [c'] + DisableTransparency(cs[1..])
  }

  /** After disabling, the surface is opaque, and every sum that does not count the
      transparent BSDF is unchanged. */
  lemma {:induction false} DisableTransparencyEffect(cs: seq<Closure>, p: KeyPredicate)
    requires forall t, x :: p(t, x) ==> !t.BsdfTransparent?
    ensures WeightSum(DisableTransparency(cs), IsTransparentKey) == Black
    ensures SampleWeightSum(DisableTransparency(cs), IsTransparentKey) == 0.0
    ensures WeightSum(DisableTransparency(cs), p) == WeightSum(cs, p)
    ensures SampleWeightSum(DisableTransparency(cs), p) == SampleWeightSum(cs, p)
    decreases |cs|
  {
    if cs != [] {
      DisableTransparencyEffect(cs[1..], p);
      var r := DisableTransparency(cs);
      assert r[1..] == DisableTransparency(cs[1..]);
      assert Black.Plus(Black) == Black;
    }
  }

  /** Hence alpha becomes one on every channel. */
  lemma DisabledTransparencyIsOpaque(cs: seq<Closure>)
    ensures Alpha(DisableTransparency(cs), false) == White
  {
    DisableTransparencyEffect(cs, IsDiffuseKey);
  }

  /** `shader_bsdf_ao`'s value: diffuse weights scaled by the AO factor plus the weights
      of ambient-occlusion closures, in array order. It is the diffuse total scaled by the
      AO factor plus the AO total. */
  function AoSum(cs: seq<Closure>, aoFactor: real): (r: Rgb)
    ensures r == WeightSum(cs, IsDiffuseKey).Scale(aoFactor).Plus(WeightSum(cs, IsAmbientOcclusionKey))
    decreases |cs|
  {
    if cs == [] then
      assert Black.Scale(aoFactor).Plus(Black) == Black;
      Black
    else
      var c := cs[0];
      var rest := AoSum(cs[1..], aoFactor);
      var d, o := WeightSum(cs[1..], IsDiffuseKey), WeightSum(cs[1..], IsAmbientOcclusionKey);
      var d0 := if c.ctype.BsdfDiffuse? then c.weight else Black;
      var o0 := if c.ctype.AmbientOcclusion? then c.weight else Black;
      var term := if c.ctype.BsdfDiffuse? then c.weight.Scale(aoFactor)
                  else if c.ctype.AmbientOcclusion? then c.weight else Black;
      assert WeightSum(cs, IsDiffuseKey) == d0.Plus(d);
      assert WeightSum(cs, IsAmbientOcclusionKey) == o0.Plus(o);
      ScaleDistributes(d0, d, aoFactor);
      PlusSwap(d0.Scale(aoFactor), d.Scale(aoFactor), o0, o);
      assert Black.Scale(aoFactor) == Black;
      assert term == d0.Scale(aoFactor).Plus(o0);
      term.Plus(rest)
  }

  /** `shader_emissive_eval`: every emission closure scales the same emitted value
      (`emissive_simple_eval` of the geometry, a parameter here) by its weight, so the
      emission is the emitted value times the total emission weight. */
  function EmissiveSum(cs: seq<Closure>, emitted: Rgb): (r: Rgb)
    ensures r == emitted.Times(WeightSum(cs, IsEmissionKey))
    decreases |cs|
  {
    if cs == [] then
      assert emitted.Times(Black) == Black;
      Black
    else
      var rest := EmissiveSum(cs[1..], emitted);
      var w0 := if cs[0].ctype.Emission? then cs[0].weight else Black;
      assert WeightSum(cs, IsEmissionKey) == w0.Plus(WeightSum(cs[1..], IsEmissionKey));
      TimesDistributes(emitted, w0, WeightSum(cs[1..], IsEmissionKey));
      assert emitted.Times(Black) == Black;
      (if cs[0].ctype.Emission? then emitted.Times(cs[0].weight) else Black).Plus(rest)
  }

  /** `shader_bssrdf_sum`'s value: subsurface closures proper, not the BSSRDF-backed
      BSDFs that `shader_bsdf_subsurface` also counts. */
  function BssrdfSum(cs: seq<Closure>): (r: Rgb)
    ensures r.Plus(WeightSum(cs, IsBsdfBssrdfKey)) == WeightSum(cs, IsSubsurfaceKey)
  {
    WeightSumDisjointUnion(cs, IsBssrdfKey, IsBsdfBssrdfKey, IsSubsurfaceKey);
    WeightSum(cs, IsBssrdfKey)
  }

  function IsBssrdfKey(t: ClosureType, x: seq<real>): bool { t.Bssrdf? }

  /** Summing over two disjoint classes is summing over each. */
  lemma {:induction false} WeightSumDisjointUnion(cs: seq<Closure>, p: KeyPredicate, q: KeyPredicate, u: KeyPredicate)
    requires forall t, x :: u(t, x) == (p(t, x) || q(t, x))
    requires forall t, x :: !(p(t, x) && q(t, x))
    ensures WeightSum(cs, u) == WeightSum(cs, p).Plus(WeightSum(cs, q))
    decreases |cs|
  {
    if cs != [] {
      WeightSumDisjointUnion(cs[1..], p, q, u);
      var c := cs[0];
      var p0 := if p(c.ctype, c.payload) then c.weight else Black;
      var q0 := if q(c.ctype, c.payload) then c.weight else Black;
      var u0 := if u(c.ctype, c.payload) then c.weight else Black;
      assert u0 == p0.Plus(q0);
      PlusSwap(p0, q0, WeightSum(cs[1..], p), WeightSum(cs[1..], q));
    }
  }

  /** Every BSDF is diffuse, glossy, transmissive, BSSRDF-backed or transparent, so the
      BSDF total is the sum of the per-category passes. */
  lemma BsdfTotalSplits(cs: seq<Closure>)
    ensures WeightSum(cs, IsBsdfKey)
            == WeightSum(cs, IsDiffuseKey)
               .Plus(WeightSum(cs, IsGlossyKey))
               .Plus(WeightSum(cs, IsTransmissionKey))
               .Plus(WeightSum(cs, IsBsdfBssrdfKey))
               .Plus(WeightSum(cs, IsTransparentKey))
  {
    SplitDiffuseGlossy(cs);
    SplitReflectTransmit(cs);
    SplitOpaque(cs);
    SplitBsdf(cs);
  }

  lemma SplitDiffuseGlossy(cs: seq<Closure>)
    ensures WeightSum(cs, IsDiffuseGlossyKey) == WeightSum(cs, IsDiffuseKey).Plus(WeightSum(cs, IsGlossyKey))
  {
    forall t, x ensures IsDiffuseGlossyKey(t, x) == (IsDiffuseKey(t, x) || IsGlossyKey(t, x))
                        && !(IsDiffuseKey(t, x) && IsGlossyKey(t, x)) {
    }
    WeightSumDisjointUnion(cs, IsDiffuseKey, IsGlossyKey, IsDiffuseGlossyKey);
  }

  lemma SplitReflectTransmit(cs: seq<Closure>)
    ensures WeightSum(cs, IsReflectTransmitKey)
            == WeightSum(cs, IsDiffuseGlossyKey).Plus(WeightSum(cs, IsTransmissionKey))
  {
    forall t, x ensures IsReflectTransmitKey(t, x) == (IsDiffuseGlossyKey(t, x) || IsTransmissionKey(t, x))
                        && !(IsDiffuseGlossyKey(t, x) && IsTransmissionKey(t, x)) {
    }
    WeightSumDisjointUnion(cs, IsDiffuseGlossyKey, IsTransmissionKey, IsReflectTransmitKey);
  }

  lemma SplitOpaque(cs: seq<Closure>)
    ensures WeightSum(cs, IsOpaqueBsdfKey)
            == WeightSum(cs, IsReflectTransmitKey).Plus(WeightSum(cs, IsBsdfBssrdfKey))
  {
    forall t, x ensures IsOpaqueBsdfKey(t, x) == (IsReflectTransmitKey(t, x) || IsBsdfBssrdfKey(t, x))
                        && !(IsReflectTransmitKey(t, x) && IsBsdfBssrdfKey(t, x)) {
    }
    WeightSumDisjointUnion(cs, IsReflectTransmitKey, IsBsdfBssrdfKey, IsOpaqueBsdfKey);
  }

  lemma SplitBsdf(cs: seq<Closure>)
    ensures WeightSum(cs, IsBsdfKey) == WeightSum(cs, IsOpaqueBsdfKey).Plus(WeightSum(cs, IsTransparentKey))
  {
    forall t, x ensures IsBsdfKey(t, x) == (IsOpaqueBsdfKey(t, x) || IsTransparentKey(t, x))
                        && !(IsOpaqueBsdfKey(t, x) && IsTransparentKey(t, x)) {
    }
    WeightSumDisjointUnion(cs, IsOpaqueBsdfKey, IsTransparentKey, IsBsdfKey);
  }

  function IsBsdfBssrdfKey(t: ClosureType, x: seq<real>): bool { t.BsdfBssrdf? }
  function IsDiffuseGlossyKey(t: ClosureType, x: seq<real>): bool { t.BsdfDiffuse? || t.BsdfGlossy? }
  function IsReflectTransmitKey(t: ClosureType, x: seq<real>): bool { IsDiffuseGlossyKey(t, x) || t.BsdfTransmission? }
  function IsOpaqueBsdfKey(t: ClosureType, x: seq<real>): bool { IsReflectTransmitKey(t, x) || t.BsdfBssrdf? }

  // ---------------------------------------------------------------------------
  // Evaluation entry points
  // ---------------------------------------------------------------------------

  datatype ShaderKind = Surface | Volume | Displacement | AoSurface

  /** The node interpreter: the closures a shader program emits, in order. */
  type Interpreter = (ShaderKind, int) -> seq<Closure>

  /** The per-point state the evaluator touches. */
  datatype ShaderData = ShaderData(closures: seq<Closure>, randbClosure: real, obj: int, shader: int, rayLength: real)

  /** Closure allocation: emitted closures are appended until the array is full; the
      rest are dropped. */
  function Allocate(cs: seq<Closure>, emitted: seq<Closure>, cap: nat): (r: seq<Closure>)
    ensures |cs| <= cap ==> |r| <= cap
    ensures |cs| + |emitted| <= cap ==> r == cs + emitted
    ensures |cs| <= cap ==> r == cs + emitted[..Min(|emitted|, cap - |cs|)]
  {
    if |cs| >= cap then cs
    else cs + emitted[..Min(|emitted|, cap - |cs|)]
  }

  /** `shader_eval_surface`: the array is reset, the surface program fills it, and the
      closure-selection random number is stored. */
  function EvalSurface(sd: ShaderData, svm: Interpreter, cap: nat, randb: real): (r: ShaderData)
    ensures r.closures == Allocate([], svm(Surface, sd.shader), cap)
    ensures |r.closures| <= cap && r.randbClosure == randb
    ensures r.obj == sd.obj && r.shader == sd.shader && r.rayLength == sd.rayLength
  {
    sd.(closures := Allocate([], svm(Surface, sd.shader), cap), randbClosure := randb)
  }

  /** `shader_eval_background`: reset, run the program, sum the background closures. */
  function EvalBackground(sd: ShaderData, svm: Interpreter, cap: nat): (r: (ShaderData, Rgb))
    ensures r.0.closures == Allocate([], svm(Surface, sd.shader), cap) && r.0.randbClosure == 0.0
    ensures r.1 == WeightSum(r.0.closures, IsBackgroundKey)
  {
    var sd' := sd.(closures := Allocate([], svm(Surface, sd.shader), cap), randbClosure := 0.0);
    (sd', WeightSum(sd'.closures, IsBackgroundKey))
  }

  /** `shader_eval_ao_env`: reset and run the AO program. With the OSL interpreter
      (`osl`) the result is always white; with SVM no closure at all means white, and
      otherwise the background closures are summed. `svm` stands for whichever
      interpreter runs. */
  function EvalAoEnv(sd: ShaderData, svm: Interpreter, cap: nat, osl: bool): (r: (ShaderData, Rgb))
    ensures r.0.closures == Allocate([], svm(AoSurface, sd.shader), cap) && r.0.randbClosure == 0.0
    ensures osl || r.0.closures == [] ==> r.1 == White
    ensures !osl && r.0.closures != [] ==> r.1 == WeightSum(r.0.closures, IsBackgroundKey)
  {
    var sd' := sd.(closures := Allocate([], svm(AoSurface, sd.shader), cap), randbClosure := 0.0);
    if osl || |sd'.closures| == 0 then (sd', White) else (sd', WeightSum(sd'.closures, IsBackgroundKey))
  }

  /** `shader_eval_displacement`: reset and run the displacement program (its effect on
      the position is not modelled). */
  function EvalDisplacement(sd: ShaderData, svm: Interpreter, cap: nat): (r: ShaderData)
    ensures r.closures == Allocate([], svm(Displacement, sd.shader), cap)
    ensures r.randbClosure == 0.0 && r.obj == sd.obj && r.shader == sd.shader
  {
    sd.(closures := Allocate([], svm(Displacement, sd.shader), cap), randbClosure := 0.0)
  }

  /** Whether the layer does not contain the current point along the ray. */
  predicate Outside(e: VolumeLayer, rayLength: real) {
    e.tEnter > rayLength || e.tExit < rayLength
  }

  /** One entry of the volume stack; `shader == -1` is the terminating `SHADER_NONE`. */
  datatype VolumeLayer = VolumeLayer(obj: int, shader: int, tEnter: real, tExit: real)

  const ShaderNone: int := -1

  /** Whether the volume loop goes on at index `i`: the entry is a real shader and it is
      not the last slot of the stack. */
  predicate Continues(stack: seq<VolumeLayer>, size: nat, i: nat)
    requires i < |stack|
  {
    stack[i].shader != ShaderNone && i < size - 1
  }

  /** The volume loop from index `i` on: layers that contain the point are evaluated in
      turn into the one shared array, merging after every layer but the first. */
  function VolumeLoop(sd: ShaderData, stack: seq<VolumeLayer>, size: nat, svm: Interpreter,
                      m: MergePredicate, cap: nat, i: nat): (r: ShaderData)
    requires 1 <= size <= |stack| && i <= size - 1
    ensures |sd.closures| <= cap ==> |r.closures| <= cap
    ensures r.rayLength == sd.rayLength && r.randbClosure == sd.randbClosure
    decreases size - i
  {
    if !Continues(stack, size, i) then sd
    else if Outside(stack[i], sd.rayLength) then VolumeLoop(sd, stack, size, svm, m, cap, i + 1)
    else
      var grown := Allocate(sd.closures, svm(Volume, stack[i].shader), cap);
      var merged := if i > 0 then Merge(m, grown) else grown;
      VolumeLoop(sd.(closures := merged, obj := stack[i].obj, shader := stack[i].shader),
                 stack, size, svm, m, cap, i + 1)
  }

  /** `shader_eval_volume`: the array is reset once and then accumulates every volume of
      the stack that contains the point. */
  function EvalVolume(sd: ShaderData, stack: seq<VolumeLayer>, size: nat, svm: Interpreter,
                      m: MergePredicate, cap: nat): (r: ShaderData)
    requires 1 <= size <= |stack|
    ensures |r.closures| <= cap
    ensures r.rayLength == sd.rayLength
    // the closures held before the call play no part
    ensures Evaluated(stack, size, sd.rayLength, 0) == [] ==> r.closures == []
    ensures var e := Evaluated(stack, size, sd.rayLength, 0);
            e != [] && e[|e| - 1] > 0 ==> NoMergeablePair(m, r.closures)
    // when everything fits, every type's weight is what the evaluated layers emitted
    ensures EmittedCount(stack, size, svm, sd.rayLength, 0) <= cap ==>
              forall p :: TypeOnly(p) ==> WeightSum(r.closures, p) == EmittedWeight(stack, size, svm, sd.rayLength, p, 0)
  {
    var sd0 := sd.(closures := []);
    VolumeFromEmpty(sd0, stack, size, svm, m, cap);
    VolumeLoop(sd0, stack, size, svm, m, cap, 0)
  }

  /** What the volume loop gives when it starts from an empty array. */
  lemma VolumeFromEmpty(sd: ShaderData, stack: seq<VolumeLayer>, size: nat, svm: Interpreter,
                        m: MergePredicate, cap: nat)
    requires 1 <= size <= |stack| && sd.closures == []
    ensures var r := VolumeLoop(sd, stack, size, svm, m, cap, 0);
            var e := Evaluated(stack, size, sd.rayLength, 0);
            (e == [] ==> r.closures == [])
            && (e != [] && e[|e| - 1] > 0 ==> NoMergeablePair(m, r.closures))
    ensures EmittedCount(stack, size, svm, sd.rayLength, 0) <= cap ==>
              forall p :: TypeOnly(p) ==>
                WeightSum(VolumeLoop(sd, stack, size, svm, m, cap, 0).closures, p)
                == EmittedWeight(stack, size, svm, sd.rayLength, p, 0)
  {
    EvalVolumeWeights(sd, stack, size, svm, m, cap);
    var e := Evaluated(stack, size, sd.rayLength, 0);
    if e == [] {
      NoLayerNoClosures(sd, stack, size, svm, m, cap, 0);
    } else if e[|e| - 1] > 0 {
      VolumeEndsMerged(sd, stack, size, svm, m, cap, 0);
    }
  }

  /** Volume conservation from an empty array, for every type class at once. */
  lemma EvalVolumeWeights(sd: ShaderData, stack: seq<VolumeLayer>, size: nat, svm: Interpreter,
                          m: MergePredicate, cap: nat)
    requires 1 <= size <= |stack| && sd.closures == []
    ensures EmittedCount(stack, size, svm, sd.rayLength, 0) <= cap ==>
              forall p :: TypeOnly(p) ==>
                WeightSum(VolumeLoop(sd, stack, size, svm, m, cap, 0).closures, p)
                == EmittedWeight(stack, size, svm, sd.rayLength, p, 0)
  {
    if EmittedCount(stack, size, svm, sd.rayLength, 0) <= cap {
      forall p | TypeOnly(p)
        ensures WeightSum(VolumeLoop(sd, stack, size, svm, m, cap, 0).closures, p)
                == EmittedWeight(stack, size, svm, sd.rayLength, p, 0)
      {
        VolumeConservesWeight(sd, stack, size, svm, m, cap, p, 0);
        var w := EmittedWeight(stack, size, svm, sd.rayLength, p, 0);
        assert Black.Plus(w) == w;
      }
    }
  }

  /** Whatever the array held before, the volume evaluation gives the same result. */
  lemma EvalVolumeIgnoresOldClosures(sd: ShaderData, held: seq<Closure>, stack: seq<VolumeLayer>, size: nat,
                                     svm: Interpreter, m: MergePredicate, cap: nat)
    requires 1 <= size <= |stack|
    ensures EvalVolume(sd.(closures := held), stack, size, svm, m, cap) == EvalVolume(sd, stack, size, svm, m, cap)
  {
  }

  /** No volume shader entry occurs from `i` through `j`. */
  ghost predicate LiveThrough(stack: seq<VolumeLayer>, i: nat, j: nat)
    requires j < |stack|
  {
    forall l :: i <= l <= j ==> stack[l].shader != ShaderNone
  }

  /** The layers the loop evaluates from index `i` on. */
  function Evaluated(stack: seq<VolumeLayer>, size: nat, rayLength: real, i: nat): (r: seq<nat>)
    requires 1 <= size <= |stack| && i <= size - 1
    ensures forall k :: 0 <= k < |r| ==> i <= r[k] < size - 1 && !Outside(stack[r[k]], rayLength)
    ensures forall a, b :: 0 <= a < b < |r| ==> r[a] < r[b]
    decreases size - i
  {
    if !Continues(stack, size, i) then []
    else if Outside(stack[i], rayLength) then Evaluated(stack, size, rayLength, i + 1)
    else [i] + Evaluated(stack, size, rayLength, i + 1)
  }

  /** The loop evaluates exactly the layers before the first SHADER_NONE (and before the
      last slot) that contain the point. */
  lemma {:induction false} EvaluatedExactly(stack: seq<VolumeLayer>, size: nat, rayLength: real, i: nat, j: nat)
    requires 1 <= size <= |stack| && i <= size - 1
    requires i <= j < size - 1
    ensures j in Evaluated(stack, size, rayLength, i) <==> LiveThrough(stack, i, j) && !Outside(stack[j], rayLength)
    decreases size - i
  {
    var r := Evaluated(stack, size, rayLength, i);
    if !Continues(stack, size, i) {
      assert !LiveThrough(stack, i, j);
    } else if j == i {
      if Outside(stack[i], rayLength) {
        assert forall k :: 0 <= k < |r| ==> r[k] > i;
      }
    } else {
      EvaluatedExactly(stack, size, rayLength, i + 1, j);
      assert LiveThrough(stack, i, j) <==> LiveThrough(stack, i + 1, j);
    }
  }

  /** When no layer contains the point, the volume has no closures. */
  lemma {:induction false} NoLayerNoClosures(sd: ShaderData, stack: seq<VolumeLayer>, size: nat, svm: Interpreter,
                                             m: MergePredicate, cap: nat, i: nat)
    requires 1 <= size <= |stack| && i <= size - 1
    requires Evaluated(stack, size, sd.rayLength, i) == []
    ensures VolumeLoop(sd, stack, size, svm, m, cap, i) == sd
    decreases size - i
  {
    if Continues(stack, size, i) && Outside(stack[i], sd.rayLength) {
      NoLayerNoClosures(sd, stack, size, svm, m, cap, i + 1);
    }
  }

  /** When the last layer evaluated is not the first slot, the array was merged after it,
      so no two remaining closures could be merged. */
  lemma {:induction false} VolumeEndsMerged(sd: ShaderData, stack: seq<VolumeLayer>, size: nat, svm: Interpreter,
                                            m: MergePredicate, cap: nat, i: nat)
    requires 1 <= size <= |stack| && i <= size - 1
    requires var e := Evaluated(stack, size, sd.rayLength, i); e != [] && e[|e| - 1] > 0
    ensures NoMergeablePair(m, VolumeLoop(sd, stack, size, svm, m, cap, i).closures)
    decreases size - i
  {
    var e := Evaluated(stack, size, sd.rayLength, i);
    if Outside(stack[i], sd.rayLength) {
      VolumeEndsMerged(sd, stack, size, svm, m, cap, i + 1);
    } else {
      var grown := Allocate(sd.closures, svm(Volume, stack[i].shader), cap);
      var merged := if i > 0 then Merge(m, grown) else grown;
      var sd' := sd.(closures := merged, obj := stack[i].obj, shader := stack[i].shader);
      var rest := Evaluated(stack, size, sd.rayLength, i + 1);
      assert e == [i] + rest;
      if rest == [] {
        NoLayerNoClosures(sd', stack, size, svm, m, cap, i + 1);
        MergeLeavesNoMergeablePair(m, grown);
      } else {
        assert e[|e| - 1] == rest[|rest| - 1];
        VolumeEndsMerged(sd', stack, size, svm, m, cap, i + 1);
      }
    }
  }

  /** The total number of closures the evaluated layers emit. */
  function EmittedCount(stack: seq<VolumeLayer>, size: nat, svm: Interpreter, rayLength: real, i: nat): nat
    requires 1 <= size <= |stack| && i <= size - 1
    decreases size - i
  {
    if !Continues(stack, size, i) then 0
    else if Outside(stack[i], rayLength) then EmittedCount(stack, size, svm, rayLength, i + 1)
    else |svm(Volume, stack[i].shader)| + EmittedCount(stack, size, svm, rayLength, i + 1)
  }

  /** The summed weight of the closures the evaluated layers emit, for one class. */
  function EmittedWeight(stack: seq<VolumeLayer>, size: nat, svm: Interpreter, rayLength: real, p: KeyPredicate, i: nat): Rgb
    requires 1 <= size <= |stack| && i <= size - 1
    decreases size - i
  {
    if !Continues(stack, size, i) then Black
    else if Outside(stack[i], rayLength) then EmittedWeight(stack, size, svm, rayLength, p, i + 1)
    else WeightSum(svm(Volume, stack[i].shader), p).Plus(EmittedWeight(stack, size, svm, rayLength, p, i + 1))
  }

  /** When everything fits, merging between layers loses nothing: the array ends with the
      weight of every closure type that all the layers together emitted. */
  lemma {:induction false} VolumeConservesWeight(sd: ShaderData, stack: seq<VolumeLayer>, size: nat, svm: Interpreter,
                                                 m: MergePredicate, cap: nat, p: KeyPredicate, i: nat)
    requires 1 <= size <= |stack| && i <= size - 1
    requires TypeOnly(p)
    requires |sd.closures| + EmittedCount(stack, size, svm, sd.rayLength, i) <= cap
    ensures WeightSum(VolumeLoop(sd, stack, size, svm, m, cap, i).closures, p)
            == WeightSum(sd.closures, p).Plus(EmittedWeight(stack, size, svm, sd.rayLength, p, i))
    decreases size - i
  {
    if !Continues(stack, size, i) {
      var w := WeightSum(sd.closures, p);
      assert w.Plus(Black) == w;
    } else if Outside(stack[i], sd.rayLength) {
      VolumeConservesWeight(sd, stack, size, svm, m, cap, p, i + 1);
    } else {
      var emitted := svm(Volume, stack[i].shader);
      var grown := Allocate(sd.closures, emitted, cap);
      assert grown == sd.closures + emitted;
      var merged := if i > 0 then Merge(m, grown) else grown;
      WeightSumAppend(sd.closures, emitted, p);
      if i > 0 {
        MergeConservesTypeWeight(m, grown, p);
      }
      assert |merged| <= |grown|;
      var sd' := sd.(closures := merged, obj := stack[i].obj, shader := stack[i].shader);
      VolumeConservesWeight(sd', stack, size, svm, m, cap, p, i + 1);
      PlusAssociative(WeightSum(sd.closures, p), WeightSum(emitted, p),
                      EmittedWeight(stack, size, svm, sd.rayLength, p, i + 1));
    }
  }
}
