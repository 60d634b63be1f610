/** The per-ray path state of the path tracer: transport flags, bounce counters,
    random-number offsets and the russian-roulette termination decision.
    The C bit set `flag` is a set of `PathFlag`s and a scattering label is a set of
    `LabelBit`s; kernel-global integrator settings are an explicit `KernelConfig`. */
module PathStates {
  import opened Common

  /** The `PATH_RAY_*` bits this component reads or writes. */
  datatype PathFlag =
    | Camera | Reflect | Transmit | Diffuse | Glossy | Singular
    | Transparent | VolumeScatter | MisSkip | StoreShadowInfo | DiffuseAncestor

  /** The `LABEL_*` bits of a scattering event. */
  datatype LabelBit =
    | LTransparent | LVolumeScatter | LReflect | LTransmit | LDiffuse | LGlossy | LSingular

  type Label = set<LabelBit>

  /** Integrator and film settings read from kernel data. The PRNG strides, the volume
      bounds cap and the visibility mask are defined in headers outside this model, so
      they are parameters here. */
  datatype KernelConfig = KernelConfig(
    passDenoising: bool,
    transparentShadows: bool,
    useVolumes: bool,
    aaSamples: int,
    maxBounce: int,
    minBounce: int,
    maxDiffuseBounce: int,
    maxGlossyBounce: int,
    maxTransmissionBounce: int,
    maxVolumeBounce: int,
    transparentMaxBounce: int,
    transparentMinBounce: int,
    prngBaseNum: int,
    prngBounceNum: int,
    volumeBoundsMax: int)

  /** A shader reference on the volume stack; `NoShader` is `SHADER_NONE` and ends the stack. */
  datatype VolumeShader = NoShader | Shader(id: int)

  datatype VolumeStackEntry = VolumeStackEntry(object: int, shader: VolumeShader, tEnter: real, tExit: real)

  /** `OBJECT_NONE`. */
  const ObjectNone: int := -1

  /** `FLT_MAX`, the largest finite single-precision value. */
  const FltMax: real := 340282346638528859811704183484516925440.0

  datatype PathState = PathState(
    flag: set<PathFlag>,
    rngHash: int,
    rngOffset: int,
    sample: int,
    numSamples: int,
    bounce: int,
    diffuseBounce: int,
    glossyBounce: int,
    transmissionBounce: int,
    transparentBounce: int,
    volumeBounce: int,
    volumeBoundsBounce: int,
    denoisingFeatureWeight: real,
    minRayPdf: real,
    rayPdf: real,
    rayT: real,
    matteWeight: real,
    writtenAovs: int,
    volumeStack: seq<VolumeStackEntry>,
    catcherObject: int)

  /** The bounce counters of a path, named so that contracts can say which one moved. */
  datatype Counter =
    | BounceC | DiffuseC | GlossyC | TransmissionC | TransparentC | VolumeC | VolumeBoundsC

  function Count(s: PathState, c: Counter): int {
    match c
    case BounceC => s.bounce
    case DiffuseC => s.diffuseBounce
    case GlossyC => s.glossyBounce
    case TransmissionC => s.transmissionBounce
    case TransparentC => s.transparentBounce
    case VolumeC => s.volumeBounce
    case VolumeBoundsC => s.volumeBoundsBounce
  }

  /** Exactly the counters in `moved` went up by one; every other counter is unchanged. */
  predicate IncrementedExactly(s: PathState, t: PathState, moved: set<Counter>) {
    forall c: Counter :: Count(t, c) == Count(s, c) + (if c in moved then 1 else 0)
  }

  /** The fields of the state that are neither flags nor bounce counters nor the RNG offset. */
  predicate SameHistory(s: PathState, t: PathState) {
    && t.rngHash == s.rngHash && t.sample == s.sample && t.numSamples == s.numSamples
    && t.denoisingFeatureWeight == s.denoisingFeatureWeight
    && t.minRayPdf == s.minRayPdf && t.rayPdf == s.rayPdf && t.rayT == s.rayT
    && t.matteWeight == s.matteWeight && t.writtenAovs == s.writtenAovs
    && t.volumeStack == s.volumeStack && t.catcherObject == s.catcherObject
  }

  /** Exactly one of the three mutually exclusive scattering categories is set. */
  predicate OneCategory(flag: set<PathFlag>) {
    || (VolumeScatter in flag && Reflect !in flag && Transmit !in flag)
    || (VolumeScatter !in flag && Reflect in flag && Transmit !in flag)
    || (VolumeScatter !in flag && Reflect !in flag && Transmit in flag)
  }

  /** The counter a non-transparent event of this label moves besides the total. */
  function EventCounter(ev: Label): Counter {
    if LVolumeScatter in ev then VolumeC
    else if LReflect in ev then (if LDiffuse in ev then DiffuseC else GlossyC)
    else TransmissionC
  }

  /** The terminated volume stack used when volumes are disabled. */
  const EmptyVolumeStack: seq<VolumeStackEntry> := [VolumeStackEntry(ObjectNone, NoShader, 0.0, 0.0)]

  /** `path_state_init`. The stack walk of `kernel_volume_stack_init` is a collaborator;
      its result is passed in as `initialStack`. */
  function Init(cfg: KernelConfig, rngHash: int, sample: int, initialStack: seq<VolumeStackEntry>): (s: PathState)
    ensures s.flag == {Camera, MisSkip} + (if cfg.passDenoising then {StoreShadowInfo} else {})
    ensures s.denoisingFeatureWeight == (if cfg.passDenoising then 1.0 else 0.0)
    ensures forall c: Counter :: Count(s, c) == 0
    ensures s.rngOffset == cfg.prngBaseNum && s.rngHash == rngHash
    ensures s.sample == sample && s.numSamples == cfg.aaSamples
    ensures s.minRayPdf == FltMax && s.rayPdf == 0.0
    ensures s.volumeStack == (if cfg.useVolumes then initialStack else EmptyVolumeStack)
  {
    var denoise := cfg.passDenoising;
    PathState(
      flag := {Camera, MisSkip} + (if denoise then {StoreShadowInfo} else {}),
      rngHash := rngHash,
      rngOffset := cfg.prngBaseNum,
      sample := sample,
      numSamples := cfg.aaSamples,
      bounce := 0, diffuseBounce := 0, glossyBounce := 0, transmissionBounce := 0,
      transparentBounce := 0, volumeBounce := 0, volumeBoundsBounce := 0,
      denoisingFeatureWeight := if denoise then 1.0 else 0.0,
      minRayPdf := FltMax,
      rayPdf := 0.0,
      rayT := 0.0,
      matteWeight := 1.0,
      writtenAovs := 0,
      volumeStack := if cfg.useVolumes then initialStack else EmptyVolumeStack,
      catcherObject := ObjectNone)
  }

  /** The flag set after the scattering-category part of a non-transparent event. */
  function CategoryFlags(flag: set<PathFlag>, ev: Label): (f: set<PathFlag>)
    ensures OneCategory(f) && Camera !in f && Transparent !in f
    ensures LVolumeScatter in ev ==> VolumeScatter in f
    ensures LVolumeScatter !in ev && LReflect in ev ==> Reflect in f
    ensures LVolumeScatter !in ev && LReflect !in ev ==> Transmit in f
    ensures LVolumeScatter in ev ==>
      Diffuse !in f && Glossy !in f && Singular !in f && MisSkip !in f
    ensures LVolumeScatter !in ev && LDiffuse in ev ==>
      Diffuse in f && DiffuseAncestor in f && Glossy !in f && Singular !in f && MisSkip !in f
    ensures LVolumeScatter !in ev && LDiffuse !in ev && LGlossy in ev ==>
      Glossy in f && Diffuse !in f && Singular !in f && MisSkip !in f
    ensures LVolumeScatter !in ev && LDiffuse !in ev && LGlossy !in ev ==>
      Glossy in f && Singular in f && MisSkip in f && Diffuse !in f
    ensures DiffuseAncestor in flag ==> DiffuseAncestor in f
    ensures LVolumeScatter in ev || LDiffuse !in ev ==> (DiffuseAncestor in f <==> DiffuseAncestor in flag)
    ensures StoreShadowInfo in f <==> StoreShadowInfo in flag
  {
    if LVolumeScatter in ev then
      flag + {VolumeScatter} - {Reflect, Transmit, Camera, Transparent, Diffuse, Glossy, Singular, MisSkip}
    else
      var f := if LReflect in ev then flag + {Reflect} - {Transmit, VolumeScatter, Camera, Transparent}
               else flag + {Transmit} - {Reflect, VolumeScatter, Camera, Transparent};
      if LDiffuse in ev then f + {Diffuse, DiffuseAncestor} - {Glossy, Singular, MisSkip}
      else if LGlossy in ev then f + {Glossy} - {Diffuse, Singular, MisSkip}
      else f + {Glossy, Singular, MisSkip} - {Diffuse}
  }

  /** `path_state_next`. */
  function Next(cfg: KernelConfig, s: PathState, ev: Label): (t: PathState)
    // a transparent pass-through is not a real bounce
    ensures LTransparent in ev ==>
      && t.flag == s.flag + {Transparent} + (if cfg.transparentShadows then {} else {MisSkip})
      && IncrementedExactly(s, t, {TransparentC})
      && t.rngOffset == s.rngOffset
    ensures LTransparent !in ev ==>
      && IncrementedExactly(s, t, {BounceC, EventCounter(ev)})
      && t.rngOffset == s.rngOffset + cfg.prngBounceNum
      && OneCategory(t.flag)
      && Camera !in t.flag && Transparent !in t.flag
      && (LVolumeScatter in ev ==> VolumeScatter in t.flag)
      && (LVolumeScatter !in ev && LReflect in ev ==> Reflect in t.flag)
      && (LVolumeScatter !in ev && LReflect !in ev ==> Transmit in t.flag)
    // the lobe part of a surface event
    ensures LTransparent !in ev && LVolumeScatter in ev ==>
      Diffuse !in t.flag && Glossy !in t.flag && Singular !in t.flag && MisSkip !in t.flag
    ensures LTransparent !in ev && LVolumeScatter !in ev && LDiffuse in ev ==>
      Diffuse in t.flag && DiffuseAncestor in t.flag
      && Glossy !in t.flag && Singular !in t.flag && MisSkip !in t.flag
    ensures LTransparent !in ev && LVolumeScatter !in ev && LDiffuse !in ev && LGlossy in ev ==>
      Glossy in t.flag && Diffuse !in t.flag && Singular !in t.flag && MisSkip !in t.flag
    ensures LTransparent !in ev && LVolumeScatter !in ev && LDiffuse !in ev && LGlossy !in ev ==>
      Glossy in t.flag && Singular in t.flag && MisSkip in t.flag && Diffuse !in t.flag
    // the sticky and one-way flags
    ensures DiffuseAncestor in s.flag ==> DiffuseAncestor in t.flag
    ensures LTransparent in ev || LVolumeScatter in ev || LDiffuse !in ev ==>
      (DiffuseAncestor in t.flag <==> DiffuseAncestor in s.flag)
    ensures StoreShadowInfo in t.flag ==> StoreShadowInfo in s.flag
    ensures LTransparent !in ev && s.denoisingFeatureWeight == 0.0 ==> StoreShadowInfo !in t.flag
    ensures LTransparent !in ev && s.denoisingFeatureWeight != 0.0 ==>
      (StoreShadowInfo in t.flag <==> StoreShadowInfo in s.flag)
    ensures SameHistory(s, t)
  {
    if LTransparent in ev then
      s.(flag := s.flag + {Transparent} + (if cfg.transparentShadows then {} else {MisSkip}),
         transparentBounce := s.transparentBounce + 1)
    else
      var flag := CategoryFlags(s.flag, ev);
      var s1 := if LVolumeScatter in ev then s.(volumeBounce := s.volumeBounce + 1)
                else if LReflect in ev then
                  (if LDiffuse in ev then s.(diffuseBounce := s.diffuseBounce + 1)
                   else s.(glossyBounce := s.glossyBounce + 1))
                else s.(transmissionBounce := s.transmissionBounce + 1);
      var flag' := if s.denoisingFeatureWeight == 0.0 then flag - {StoreShadowInfo} else flag;
      s1.(flag := flag', bounce := s.bounce + 1, rngOffset := s.rngOffset + cfg.prngBounceNum)
  }

  /** `path_state_volume_next`: pass-through of a volume bounding mesh; the boolean is
      false once the crossing count exceeds the cap. */
  function VolumeNext(cfg: KernelConfig, s: PathState): (res: (bool, PathState))
    ensures IncrementedExactly(s, res.1, {VolumeBoundsC})
    ensures res.0 <==> res.1.volumeBoundsBounce <= cfg.volumeBoundsMax
    ensures !res.0 ==> res.1.rngOffset == s.rngOffset
    ensures res.0 && res.1.volumeBoundsBounce > 1 ==> res.1.rngOffset == s.rngOffset + cfg.prngBounceNum
    ensures res.0 && res.1.volumeBoundsBounce <= 1 ==> res.1.rngOffset == s.rngOffset
    ensures res.1.flag == s.flag && SameHistory(s, res.1)
  {
    var n := s.volumeBoundsBounce + 1;
    var t := s.(volumeBoundsBounce := n);
    if n > cfg.volumeBoundsMax then (false, t)
    else if n > 1 then (true, t.(rngOffset := s.rngOffset + cfg.prngBounceNum))
    else (true, t)
  }

  /** `path_state_ray_visibility`. `allVisibility` is `PATH_RAY_ALL_VISIBILITY`. */
  function RayVisibility(flag: set<PathFlag>, allVisibility: set<PathFlag>): (vis: set<PathFlag>)
    ensures Transmit in vis && VolumeScatter !in flag ==> Diffuse !in vis && Glossy !in vis
    ensures Transmit !in flag * allVisibility ==> flag * allVisibility <= vis
    ensures VolumeScatter in flag ==> Diffuse in vis
    ensures Diffuse in vis <==>
      VolumeScatter in flag || (Diffuse in flag * allVisibility && Transmit !in flag * allVisibility)
    ensures Glossy in vis <==> Glossy in flag * allVisibility && Transmit !in flag * allVisibility
    ensures vis <= (flag * allVisibility) + {Diffuse}
    ensures forall f :: f in flag * allVisibility && f != Diffuse && f != Glossy ==> f in vis
  {
    var masked := flag * allVisibility;
    var v := if Transmit in masked then masked - {Diffuse, Glossy} else masked;
    if VolumeScatter in flag then v + {Diffuse} else v
  }

  /** Per-shader bounce overrides copied into the shading point. */
  datatype ShaderBounces = ShaderBounces(overrideBounces: bool, diffuseBounces: int, glossyBounces: int, transmissionBounces: int)

  /** Some bounce counter of a non-transparent path has reached its maximum; the diffuse,
      glossy and transmission maxima come from the shader when it overrides them. */
  predicate AnyBounceAtMax(cfg: KernelConfig, s: PathState, sd: ShaderBounces) {
    var maxDiffuse := if sd.overrideBounces then sd.diffuseBounces else cfg.maxDiffuseBounce;
    var maxGlossy := if sd.overrideBounces then sd.glossyBounces else cfg.maxGlossyBounce;
    var maxTransmission := if sd.overrideBounces then sd.transmissionBounces else cfg.maxTransmissionBounce;
    || s.bounce >= cfg.maxBounce
    || s.diffuseBounce >= maxDiffuse
    || s.glossyBounce >= maxGlossy
    || s.volumeBounce >= cfg.maxVolumeBounce
    || s.transmissionBounce >= maxTransmission
  }

  /** `path_state_terminate_probability`: the russian-roulette continuation probability. */
  function TerminateProbability(cfg: KernelConfig, s: PathState, sd: ShaderBounces, throughput: Rgb): (p: real)
    ensures Transparent in s.flag && s.transparentBounce >= cfg.transparentMaxBounce ==> p == 0.0
    ensures (Transparent in s.flag && s.transparentBounce < cfg.transparentMaxBounce
             && s.transparentBounce <= cfg.transparentMinBounce) ==> p == 1.0
    ensures Transparent !in s.flag && AnyBounceAtMax(cfg, s, sd) ==> p == 0.0
    ensures Transparent !in s.flag && !AnyBounceAtMax(cfg, s, sd) && s.bounce <= cfg.minBounce ==> p == 1.0
    // otherwise the probability is the mean throughput
    ensures p != 0.0 && p != 1.0 ==> p == throughput.Average()
    ensures (Transparent in s.flag && cfg.transparentMinBounce < s.transparentBounce < cfg.transparentMaxBounce)
            ==> p == throughput.Average()
    ensures (Transparent !in s.flag && !AnyBounceAtMax(cfg, s, sd) && s.bounce > cfg.minBounce)
            ==> p == throughput.Average()
  {
    if Transparent in s.flag then
      if s.transparentBounce >= cfg.transparentMaxBounce then 0.0
      else if s.transparentBounce <= cfg.transparentMinBounce then 1.0
      else throughput.Average()
    else if AnyBounceAtMax(cfg, s, sd) then 0.0
    else if s.bounce <= cfg.minBounce then 1.0
    else throughput.Average()
  }

  /** `path_state_modify_bounce`: a temporary +1 or -1 on the total bounce count. */
  function ModifyBounce(s: PathState, increase: bool): (t: PathState)
    ensures t.bounce == (if increase then s.bounce + 1 else s.bounce - 1)
    ensures forall c: Counter :: c != BounceC ==> Count(t, c) == Count(s, c)
    ensures t.flag == s.flag && t.rngOffset == s.rngOffset && SameHistory(s, t)
  {
    if increase then s.(bounce := s.bounce + 1) else s.(bounce := s.bounce - 1)
  }

  /** Increasing and then decreasing the bounce count, in either order, restores the state. */
  lemma ModifyBounceRestores(s: PathState)
    ensures ModifyBounce(ModifyBounce(s, true), false) == s
    ensures ModifyBounce(ModifyBounce(s, false), true) == s
  {
  }

  /** The state after a sequence of scattering events. */
  function Run(cfg: KernelConfig, s: PathState, labels: seq<Label>): PathState
    decreases |labels|
  {
    if labels == [] then s else Run(cfg, Next(cfg, s, labels[0]), labels[1..])
  }

  /** The number of real (non-transparent) bounces in a ev sequence. */
  function RealBounces(labels: seq<Label>): nat {
    if labels == [] then 0
    else (if LTransparent in labels[0] then 0 else 1) + RealBounces(labels[1..])
  }

  /** The total bounce count and the RNG offset move only with real bounces: one bounce and
      one PRNG stride per non-transparent event; every other event is a transparent one. */
  lemma RunCountsRealBounces(cfg: KernelConfig, s: PathState, labels: seq<Label>)
    ensures Run(cfg, s, labels).bounce == s.bounce + RealBounces(labels)
    ensures Run(cfg, s, labels).rngOffset == s.rngOffset + RealBounces(labels) * cfg.prngBounceNum
    ensures Run(cfg, s, labels).transparentBounce == s.transparentBounce + |labels| - RealBounces(labels)
  {
    RunBounces(cfg, s, labels);
    RunRngOffset(cfg, s, labels);
    RunTransparentBounces(cfg, s, labels);
  }

  lemma {:induction false} RunBounces(cfg: KernelConfig, s: PathState, labels: seq<Label>)
    ensures Run(cfg, s, labels).bounce == s.bounce + RealBounces(labels)
    decreases |labels|
  {
    if labels != [] {
      NextCounts(cfg, s, labels[0]);
      RunBounces(cfg, Next(cfg, s, labels[0]), labels[1..]);
    }
  }

  lemma {:induction false} RunRngOffset(cfg: KernelConfig, s: PathState, labels: seq<Label>)
    ensures Run(cfg, s, labels).rngOffset == s.rngOffset + RealBounces(labels) * cfg.prngBounceNum
    decreases |labels|
  {
    if labels != [] {
      var d := if LTransparent in labels[0] then 0 else 1;
      var k := RealBounces(labels[1..]);
      var t := Next(cfg, s, labels[0]);
      NextCounts(cfg, s, labels[0]);
      assert t.rngOffset == s.rngOffset + d * cfg.prngBounceNum;
      RunRngOffset(cfg, t, labels[1..]);
      assert RealBounces(labels) == d + k;
      MulAdd(d, k, cfg.prngBounceNum);
    }
  }

  lemma {:induction false} RunTransparentBounces(cfg: KernelConfig, s: PathState, labels: seq<Label>)
    ensures Run(cfg, s, labels).transparentBounce == s.transparentBounce + |labels| - RealBounces(labels)
    decreases |labels|
  {
    if labels != [] {
      NextCounts(cfg, s, labels[0]);
      RunTransparentBounces(cfg, Next(cfg, s, labels[0]), labels[1..]);
    }
  }

  lemma MulAdd(d: int, k: int, p: int)
    ensures (d + k) * p == d * p + k * p
  {
  }

  /** One event's effect on the three counters `Run` tracks. */
  lemma NextCounts(cfg: KernelConfig, s: PathState, ev: Label)
    ensures var t := Next(cfg, s, ev);
            t.bounce == s.bounce + (if LTransparent in ev then 0 else 1)
            && t.rngOffset == s.rngOffset + (if LTransparent in ev then 0 else cfg.prngBounceNum)
            && t.transparentBounce == s.transparentBounce + (if LTransparent in ev then 1 else 0)
  {
    var t := Next(cfg, s, ev);
    assert Count(t, BounceC) == t.bounce;
    assert Count(t, TransparentC) == t.transparentBounce;
  }

  /** Once a diffuse bounce happened, the diffuse-ancestor flag stays for the rest of the path. */
  lemma {:induction false} RunKeepsDiffuseAncestor(cfg: KernelConfig, s: PathState, labels: seq<Label>)
    requires DiffuseAncestor in s.flag
    ensures DiffuseAncestor in Run(cfg, s, labels).flag
    decreases |labels|
  {
    if labels != [] {
      RunKeepsDiffuseAncestor(cfg, Next(cfg, s, labels[0]), labels[1..]);
    }
  }

  /** Shadow-info storage is a one-way switch: once off it stays off, and a path whose
      feature weight is zero loses it at its first real bounce. */
  lemma {:induction false} RunNeverRestoresShadowInfo(cfg: KernelConfig, s: PathState, labels: seq<Label>)
    requires StoreShadowInfo !in s.flag || (s.denoisingFeatureWeight == 0.0 && RealBounces(labels) > 0)
    ensures StoreShadowInfo !in Run(cfg, s, labels).flag
    decreases |labels|
  {
    if labels != [] {
      var t := Next(cfg, s, labels[0]);
      assert t.denoisingFeatureWeight == s.denoisingFeatureWeight;
      RunNeverRestoresShadowInfo(cfg, t, labels[1..]);
    }
  }

  /** Without the denoising pass a path never stores shadow information. */
  lemma NoDenoisingNoShadowInfo(cfg: KernelConfig, rngHash: int, sample: int, stack: seq<VolumeStackEntry>, labels: seq<Label>)
    requires !cfg.passDenoising
    ensures StoreShadowInfo !in Run(cfg, Init(cfg, rngHash, sample, stack), labels).flag
  {
    RunNeverRestoresShadowInfo(cfg, Init(cfg, rngHash, sample, stack), labels);
  }

  /** With throughput channels in [0, 1] the termination probability is a probability. */
  lemma TerminateProbabilityInUnitRange(cfg: KernelConfig, s: PathState, sd: ShaderBounces, throughput: Rgb)
    requires throughput.InUnitRange()
    ensures 0.0 <= TerminateProbability(cfg, s, sd, throughput) <= 1.0
  {
  }

  /** A path initialised with a maximum of four bounces and then reflected diffusely four
      times terminates with certainty, whatever its throughput. */
  lemma FourDiffuseBouncesTerminate(cfg: KernelConfig, rngHash: int, sample: int, stack: seq<VolumeStackEntry>,
                                    sd: ShaderBounces, throughput: Rgb)
    requires cfg.maxBounce == 4
    ensures var s := Run(cfg, Init(cfg, rngHash, sample, stack),
                         [{LReflect, LDiffuse}, {LReflect, LDiffuse}, {LReflect, LDiffuse}, {LReflect, LDiffuse}]);
            s.bounce == 4 && TerminateProbability(cfg, s, sd, throughput) == 0.0
  {
    var labels := [{LReflect, LDiffuse}, {LReflect, LDiffuse}, {LReflect, LDiffuse}, {LReflect, LDiffuse}];
    var s0 := Init(cfg, rngHash, sample, stack);
    RunCountsRealBounces(cfg, s0, labels);
    assert RealBounces(labels) == 4;
    var s := Run(cfg, s0, labels);
    assert Transparent !in s.flag by {
      var s1 := Next(cfg, s0, labels[0]);
      var s2 := Next(cfg, s1, labels[1]);
      var s3 := Next(cfg, s2, labels[2]);
      var s4 := Next(cfg, s3, labels[3]);
      assert labels[1..][1..][1..][1..] == [];
      assert s == s4;
    }
  }
}
