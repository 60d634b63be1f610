/** Picking one scattering closure in proportion to its sampling weight, sampling a
    direction from it, and evaluating all closures of the same kind in that direction
    (the one-sample model with the balance heuristic). The per-lobe routines
    `bsdf_sample`/`bsdf_eval` and `volume_phase_sample`/`volume_phase_eval` are
    parameters. */
module ClosureSampling {
  import opened Common
  import opened Closure
  import opened PathStates

  datatype Vec3 = Vec3(x: real, y: real, z: real)

  /** What a lobe's sampling routine produces: the scattering label, the unweighted
      value, the sampled direction and its density. */
  datatype LobeSample = LobeSample(ev: Label, eval: Rgb, omegaIn: Vec3, pdf: real)

  /** What a lobe's evaluation routine produces for a given direction. */
  datatype LobeEval = LobeEval(eval: Rgb, pdf: real)

  type LobeSampler = (Closure, real, real) -> LobeSample
  type LobeEvaluator = (Closure, Vec3) -> LobeEval

  /** A kind of scattering closure: BSDFs (whose value is scaled by the closure weight)
      or volume phase functions (whose value is not). */
  datatype LobeKind = LobeKind(sel: KeyPredicate, evaluate: LobeEvaluator, weighted: bool)

  function Selected(k: LobeKind, c: Closure): bool {
    k.sel(c.ctype, c.payload)
  }

  /** The value a closure contributes to a `BsdfEval`. */
  function Term(k: LobeKind, c: Closure, e: Rgb): Rgb {
    if k.weighted then e.Times(c.weight) else e
  }

  // ---------------------------------------------------------------------------
  // Selection
  // ---------------------------------------------------------------------------

  /** The running sum of selectable sampling weights over the first `n` closures. */
  function Prefix(cs: seq<Closure>, k: LobeKind, n: nat): real
    requires n <= |cs|
  {
    SampleWeightSum(cs[..n], k.sel)
  }

  /** Closure `i` is selectable and the running sum through it reaches `x`. */
  predicate Reaches(cs: seq<Closure>, k: LobeKind, x: real, i: nat)
    requires i < |cs|
  {
    Selected(k, cs[i]) && x <= Prefix(cs, k, i + 1)
  }

  /** The second loop of the selection, from index `i` with running sum `acc`. */
  function Scan(cs: seq<Closure>, k: LobeKind, x: real, i: nat, acc: real): (res: Option<nat>)
    requires i <= |cs| && acc == Prefix(cs, k, i)
    ensures res.Some? ==> i <= res.value < |cs| && Reaches(cs, k, x, res.value)
    ensures res.Some? ==> forall j :: i <= j < res.value ==> !Reaches(cs, k, x, j)
    ensures res.None? ==> forall j :: i <= j < |cs| ==> !Reaches(cs, k, x, j)
    decreases |cs| - i
  {
    if i == |cs| then None
    else
      SampleWeightSumSnoc(cs[..i], cs[i], k.sel);
      assert cs[..i + 1] == cs[..i] + [cs[i]];
      if Selected(k, cs[i]) then
        if x <= acc + cs[i].sampleWeight then Some(i)
        else Scan(cs, k, x, i + 1, acc + cs[i].sampleWeight)
      else Scan(cs, k, x, i + 1, acc)
  }

  /** The point the selection looks for: the random number scaled by the total
      sampling weight of the kind. */
  function Threshold(cs: seq<Closure>, k: LobeKind, randb: real): real {
    randb * SampleWeightSum(cs, k.sel)
  }

  /** The index of the sampled closure, `None` when the scan runs off the end. With a
      single closure that closure is used, whatever its type. */
  function Select(cs: seq<Closure>, k: LobeKind, randb: real): (res: Option<nat>)
    requires |cs| >= 1
    ensures |cs| == 1 ==> res == Some(0)
    ensures |cs| > 1 ==> (res.Some? <==> exists j :: 0 <= j < |cs| && Reaches(cs, k, Threshold(cs, k, randb), j))
    ensures |cs| > 1 && res.Some? ==>
              (res.value < |cs| && Reaches(cs, k, Threshold(cs, k, randb), res.value)
               && forall j :: 0 <= j < res.value ==> !Reaches(cs, k, Threshold(cs, k, randb), j))
  {
    if |cs| <= 1 then Some(0)
    else
      assert cs[..0] == [];
      Scan(cs, k, Threshold(cs, k, randb), 0, 0.0)
  }

  lemma {:induction false} SampleWeightSumNonNegative(cs: seq<Closure>, p: KeyPredicate)
    requires forall i :: 0 <= i < |cs| && p(cs[i].ctype, cs[i].payload) ==> cs[i].sampleWeight >= 0.0
    ensures SampleWeightSum(cs, p) >= 0.0
    decreases |cs|
  {
    if cs != [] {
      SampleWeightSumNonNegative(cs[1..], p);
    }
  }

  lemma {:induction false} SampleWeightSumNoneSelected(cs: seq<Closure>, p: KeyPredicate)
    requires forall i :: 0 <= i < |cs| ==> !p(cs[i].ctype, cs[i].payload)
    ensures SampleWeightSum(cs, p) == 0.0
    decreases |cs|
  {
    if cs != [] {
      SampleWeightSumNoneSelected(cs[1..], p);
    }
  }

  /** The last closure of the kind: nothing after it adds to the running sum, so the
      running sum through it is the total. */
  lemma LastSelectedReachesTotal(cs: seq<Closure>, k: LobeKind, last: nat)
    requires last < |cs| && forall j :: last < j < |cs| ==> !Selected(k, cs[j])
    ensures Prefix(cs, k, last + 1) == SampleWeightSum(cs, k.sel)
  {
    SampleWeightSumNoneSelected(cs[last + 1..], k.sel);
    assert cs == cs[..last + 1] + cs[last + 1..];
    SampleWeightSumAppend(cs[..last + 1], cs[last + 1..], k.sel);
  }

  lemma FindLastSelected(cs: seq<Closure>, k: LobeKind, i: nat) returns (last: nat)
    requires i < |cs| && Selected(k, cs[i])
    ensures i <= last < |cs| && Selected(k, cs[last])
    ensures forall j :: last < j < |cs| ==> !Selected(k, cs[j])
    decreases |cs| - i
  {
    if j :| i < j < |cs| && Selected(k, cs[j]) {
      last := FindLastSelected(cs, k, j);
    } else {
      last := i;
    }
  }

  /** Over the reals the selection cannot fall off the end: whenever some closure of the
      requested kind exists, sampling weights are non-negative and the random number lies
      in [0, 1], a closure is picked. */
  lemma SelectionSucceeds(cs: seq<Closure>, k: LobeKind, randb: real)
    requires |cs| >= 1
    requires exists i :: 0 <= i < |cs| && Selected(k, cs[i])
    requires forall i :: 0 <= i < |cs| && Selected(k, cs[i]) ==> cs[i].sampleWeight >= 0.0
    requires 0.0 <= randb <= 1.0
    ensures Select(cs, k, randb).Some?
  {
    if |cs| > 1 {
      var i :| 0 <= i < |cs| && Selected(k, cs[i]);
      var last := FindLastSelected(cs, k, i);
      var total := SampleWeightSum(cs, k.sel);
      SampleWeightSumNonNegative(cs, k.sel);
      LastSelectedReachesTotal(cs, k, last);
      assert Threshold(cs, k, randb) <= total by {
        assert (1.0 - randb) * total >= 0.0;
      }
      assert Reaches(cs, k, Threshold(cs, k, randb), last);
    }
  }

  // ---------------------------------------------------------------------------
  // Evaluation of all closures of one kind in a direction
  // ---------------------------------------------------------------------------

  /** The three running sums of the evaluation loop: the accumulated value, the sum of
      pdf times sampling weight, and the sum of sampling weights. */
  datatype Acc = Acc(eval: Rgb, pdf: real, sw: real)

  const Zero: Acc := Acc(Black, 0.0, 0.0)

  /** One iteration: a closure of the kind always adds its sampling weight; its value and
      weighted pdf are added only when its pdf in this direction is non-zero. */
  function Step(k: LobeKind, omega: Vec3, a: Acc, c: Closure): Acc {
    if !Selected(k, c) then a
    else
      var e := k.evaluate(c, omega);
      if e.pdf != 0.0 then Acc(a.eval.Plus(Term(k, c, e.eval)), a.pdf + e.pdf * c.sampleWeight, a.sw + c.sampleWeight)
      else a.(sw := a.sw + c.sampleWeight)
  }

  /** The sums after the first `n` closures, leaving out index `skip` (-1: none). */
  function MultiAcc(cs: seq<Closure>, k: LobeKind, omega: Vec3, skip: int, init: Acc, n: nat): Acc
    requires n <= |cs|
  {
    if n == 0 then init
    else
      var a := MultiAcc(cs, k, omega, skip, init, n - 1);
      if n - 1 == skip then a else Step(k, omega, a, cs[n - 1])
  }

  /** The combined density: the sampling-weighted average of the closure pdfs. */
  function CombinedPdf(a: Acc): real {
    if a.sw > 0.0 then a.pdf / a.sw else 0.0
  }

  /** `_shader_bsdf_multi_eval` and `_shader_volume_phase_multi_eval` as a loop. */
  method MultiEval(cs: seq<Closure>, k: LobeKind, omega: Vec3, skip: int, init: Acc)
    returns (eval: Rgb, pdf: real)
    ensures eval == MultiAcc(cs, k, omega, skip, init, |cs|).eval
    ensures pdf == CombinedPdf(MultiAcc(cs, k, omega, skip, init, |cs|))
  {
    var acc := init;
    var i := 0;
    while i < |cs|
      invariant 0 <= i <= |cs|
      invariant acc == MultiAcc(cs, k, omega, skip, init, i)
    {
      if i != skip && Selected(k, cs[i]) {
        var e := k.evaluate(cs[i], omega);
        if e.pdf != 0.0 {
          acc := Acc(acc.eval.Plus(Term(k, cs[i], e.eval)), acc.pdf + e.pdf * cs[i].sampleWeight, acc.sw);
        }
        acc := acc.(sw := acc.sw + cs[i].sampleWeight);
      }
      i := i + 1;
    }
    eval := acc.eval;
    pdf := if acc.sw > 0.0 then acc.pdf / acc.sw else 0.0;
  }

  lemma StepsCommute(k: LobeKind, omega: Vec3, a: Acc, c1: Closure, c2: Closure)
    ensures Step(k, omega, Step(k, omega, a, c1), c2) == Step(k, omega, Step(k, omega, a, c2), c1)
  {
  }

  /** Taking closure `skip` into the initial sums and then leaving it out of the loop is
      the same as running the loop over every closure. */
  lemma {:induction false} SkipThenSeed(cs: seq<Closure>, k: LobeKind, omega: Vec3, skip: nat, init: Acc, n: nat)
    requires skip < |cs| && n <= |cs|
    ensures MultiAcc(cs, k, omega, skip, Step(k, omega, init, cs[skip]), n)
            == if n <= skip then Step(k, omega, MultiAcc(cs, k, omega, -1, init, n), cs[skip])
               else MultiAcc(cs, k, omega, -1, init, n)
  {
    if n > 0 {
      SkipThenSeed(cs, k, omega, skip, init, n - 1);
      if n - 1 != skip {
        StepsCommute(k, omega, MultiAcc(cs, k, omega, -1, init, n - 1), cs[skip], cs[n - 1]);
      }
    }
  }

  lemma {:induction false} MultiAccNonNegative(cs: seq<Closure>, k: LobeKind, omega: Vec3, skip: int, init: Acc, n: nat)
    requires n <= |cs| && init.pdf >= 0.0 && init.sw >= 0.0
    requires forall i :: 0 <= i < |cs| && Selected(k, cs[i]) ==> cs[i].sampleWeight >= 0.0
    requires forall i :: 0 <= i < |cs| && Selected(k, cs[i]) ==> k.evaluate(cs[i], omega).pdf >= 0.0
    ensures MultiAcc(cs, k, omega, skip, init, n).pdf >= 0.0
    ensures MultiAcc(cs, k, omega, skip, init, n).sw >= 0.0
  {
    if n > 0 {
      MultiAccNonNegative(cs, k, omega, skip, init, n - 1);
      var a := MultiAcc(cs, k, omega, skip, init, n - 1);
      var c := cs[n - 1];
      if Selected(k, c) {
        var e := k.evaluate(c, omega);
        assert e.pdf * c.sampleWeight >= 0.0;
      }
    }
  }

  /** The sum of sampling weights the evaluation loop gathers is the sum the selection
      loop gathered. */
  lemma {:induction false} MultiAccWeightIsSelectionTotal(cs: seq<Closure>, k: LobeKind, omega: Vec3, n: nat)
    requires n <= |cs|
    ensures MultiAcc(cs, k, omega, -1, Zero, n).sw == Prefix(cs, k, n)
  {
    if n > 0 {
      MultiAccWeightIsSelectionTotal(cs, k, omega, n - 1);
      SampleWeightSumSnoc(cs[..n - 1], cs[n - 1], k.sel);
      assert cs[..n] == cs[..n - 1] + [cs[n - 1]];
    }
  }

  // ---------------------------------------------------------------------------
  // Entry points
  // ---------------------------------------------------------------------------

  /** The outcome of a sampling call: the label (none when nothing was picked), the
      reported pdf, the `BsdfEval` (absent when the pdf was zero and it was left
      uninitialised) and the direction (absent when none was sampled). */
  datatype Outcome = Outcome(ev: Label, pdf: real, eval: Option<Rgb>, omegaIn: Option<Vec3>)

  /** `shader_bsdf_sample` (and, with `k` the phase kind and `useMultiEval` false,
      `shader_volume_phase_sample`, which reports the picked lobe's own pdf). */
  function SampleKind(cs: seq<Closure>, k: LobeKind, sample: LobeSampler, useMultiEval: bool,
                      randb: real, randu: real, randv: real): (o: Outcome)
    requires |cs| >= 1
    ensures Select(cs, k, randb).None? ==> o == Outcome({}, 0.0, None, None)
    ensures o.eval.Some? ==> (o.omegaIn.Some? && Select(cs, k, randb).Some?
                              && sample(cs[Select(cs, k, randb).value], randu, randv).pdf != 0.0)
    ensures Select(cs, k, randb).Some? ==> o.ev == sample(cs[Select(cs, k, randb).value], randu, randv).ev
    ensures (Select(cs, k, randb).Some? && sample(cs[Select(cs, k, randb).value], randu, randv).pdf == 0.0)
            ==> o.pdf == 0.0 && o.eval.None?
    // with several closures and re-evaluation on, the other closures of the kind are
    // evaluated in the sampled direction, seeded with the picked lobe
    ensures var sel := Select(cs, k, randb);
            sel.Some? && sample(cs[sel.value], randu, randv).pdf != 0.0 && useMultiEval && |cs| > 1 ==>
              o == Reevaluate(cs, k, sel.value, sample(cs[sel.value], randu, randv))
    // otherwise the picked lobe's own pdf and value are reported
    ensures var sel := Select(cs, k, randb);
            sel.Some? && sample(cs[sel.value], randu, randv).pdf != 0.0 && !(useMultiEval && |cs| > 1) ==>
              var s := sample(cs[sel.value], randu, randv);
              o == Outcome(s.ev, s.pdf, Some(Term(k, cs[sel.value], s.eval)), Some(s.omegaIn))
  {
    var sel := Select(cs, k, randb);
    if sel.None? then Outcome({}, 0.0, None, None)
    else
      var c := cs[sel.value];
      var s := sample(c, randu, randv);
      if s.pdf == 0.0 then Outcome(s.ev, 0.0, None, Some(s.omegaIn))
      else if useMultiEval && |cs| > 1 then Reevaluate(cs, k, sel.value, s)
      else Outcome(s.ev, s.pdf, Some(Term(k, c, s.eval)), Some(s.omegaIn))
  }

  /** The tail of `shader_bsdf_sample` with several closures: the picked lobe's value and
      pdf seed the sums, and every other BSDF is evaluated in the sampled direction. */
  function Reevaluate(cs: seq<Closure>, k: LobeKind, i: nat, s: LobeSample): Outcome
    requires i < |cs|
  {
    var a := MultiAcc(cs, k, s.omegaIn, i, Seed(k, cs[i], s), |cs|);
    Outcome(s.ev, CombinedPdf(a), Some(a.eval), Some(s.omegaIn))
  }

  /** The sums the picked lobe starts the re-evaluation with. */
  function Seed(k: LobeKind, c: Closure, s: LobeSample): Acc {
    Acc(Term(k, c, s.eval), s.pdf * c.sampleWeight, c.sampleWeight)
  }

  function BsdfKind(evaluate: LobeEvaluator): LobeKind {
    LobeKind(IsBsdfKey, evaluate, true)
  }

  function PhaseKind(evaluate: LobeEvaluator): LobeKind {
    LobeKind(IsPhaseKey, evaluate, false)
  }

  function BsdfSample(cs: seq<Closure>, sample: LobeSampler, evaluate: LobeEvaluator,
                      randb: real, randu: real, randv: real): (o: Outcome)
    requires |cs| >= 1
    ensures |cs| == 1 ==> o.ev == sample(cs[0], randu, randv).ev
    ensures |cs| == 1 && sample(cs[0], randu, randv).pdf != 0.0 ==>
              (o.pdf == sample(cs[0], randu, randv).pdf
               && o.eval == Some(sample(cs[0], randu, randv).eval.Times(cs[0].weight)))
    ensures var sel := Select(cs, BsdfKind(evaluate), randb);
            |cs| > 1 && sel.Some? && sample(cs[sel.value], randu, randv).pdf != 0.0 ==>
              o == Reevaluate(cs, BsdfKind(evaluate), sel.value, sample(cs[sel.value], randu, randv))
  {
    SampleKind(cs, BsdfKind(evaluate), sample, true, randb, randu, randv)
  }

  function PhaseSample(cs: seq<Closure>, sample: LobeSampler, evaluate: LobeEvaluator,
                       randb: real, randu: real, randv: real): (o: Outcome)
    requires |cs| >= 1
    ensures var sel := Select(cs, PhaseKind(evaluate), randb);
            sel.Some? && sample(cs[sel.value], randu, randv).pdf != 0.0 ==>
              (o.pdf == sample(cs[sel.value], randu, randv).pdf
               && o.eval == Some(sample(cs[sel.value], randu, randv).eval))
  {
    SampleKind(cs, PhaseKind(evaluate), sample, false, randb, randu, randv)
  }

  /** `shader_bsdf_sample_closure` / `shader_phase_sample_closure`: sample a given
      closure, without selection or re-evaluation. */
  function SampleClosure(c: Closure, k: LobeKind, sample: LobeSampler, randu: real, randv: real): (o: Outcome)
    ensures o.ev == sample(c, randu, randv).ev && o.pdf == sample(c, randu, randv).pdf
    ensures o.eval.Some? <==> o.pdf != 0.0
    ensures o.eval.Some? ==> o.eval.value == Term(k, c, sample(c, randu, randv).eval)
  {
    var s := sample(c, randu, randv);
    Outcome(s.ev, s.pdf, if s.pdf != 0.0 then Some(Term(k, c, s.eval)) else None, Some(s.omegaIn))
  }

  /** `shader_volume_phase_eval`: the unweighted sum of the phase values and the
      combined pdf, which is the pdf-weighted share of the phase closures' total
      sampling weight. */
  function PhaseEval(cs: seq<Closure>, evaluate: LobeEvaluator, omega: Vec3): (r: (Rgb, real))
    // the colour: the unweighted values of the phase closures that have a pdf
    ensures r.0 == PhaseValues(cs, evaluate, omega)
    ensures var total := SampleWeightSum(cs, IsPhaseKey);
            var a := MultiAcc(cs, PhaseKind(evaluate), omega, -1, Zero, |cs|);
            (total > 0.0 ==> r.1 == a.pdf / total) && (total <= 0.0 ==> r.1 == 0.0)
  {
    var a := MultiAcc(cs, PhaseKind(evaluate), omega, -1, Zero, |cs|);
    MultiAccWeightIsSelectionTotal(cs, PhaseKind(evaluate), omega, |cs|);
    PhaseValuesAccumulated(cs, evaluate, omega, |cs|);
    assert cs[..|cs|] == cs;
    (a.eval, CombinedPdf(a))
  }

  /** The sum of `volume_phase_eval`'s value over the phase closures whose pdf in
      direction `omega` is non-zero; the closure weights play no part. */
  function PhaseValues(cs: seq<Closure>, evaluate: LobeEvaluator, omega: Vec3): Rgb {
    if cs == [] then Black
    else
      var c := cs[|cs| - 1];
      var e := evaluate(c, omega);
      var rest := PhaseValues(cs[..|cs| - 1], evaluate, omega);
      if c.ctype.IsPhase() && e.pdf != 0.0 then rest.Plus(e.eval) else rest
  }

  lemma {:induction false} PhaseValuesAccumulated(cs: seq<Closure>, evaluate: LobeEvaluator, omega: Vec3, n: nat)
    requires n <= |cs|
    ensures MultiAcc(cs, PhaseKind(evaluate), omega, -1, Zero, n).eval == PhaseValues(cs[..n], evaluate, omega)
  {
    if n > 0 {
      PhaseValuesAccumulated(cs, evaluate, omega, n - 1);
      assert cs[..n][..n - 1] == cs[..n - 1];
    }
  }

  /** The per-closure loop of the branched integrator: every BSDF with a non-zero pdf adds
      its weighted value, scaled by its own MIS weight against the light pdf. */
  function BranchedSum(cs: seq<Closure>, evaluate: LobeEvaluator, omega: Vec3, mis: real -> real, n: nat): Rgb
    requires n <= |cs|
  {
    if n == 0 then Black
    else
      var a := BranchedSum(cs, evaluate, omega, mis, n - 1);
      var c := cs[n - 1];
      var e := evaluate(c, omega);
      if c.ctype.IsBsdf() && e.pdf != 0.0 then a.Plus(e.eval.Times(c.weight).Scale(mis(e.pdf))) else a
  }

  /** `shader_bsdf_eval`: the summed BSDF value towards a light, MIS-weighted against the
      light's pdf when requested. The power heuristic is a parameter. */
  function BsdfEval(cs: seq<Closure>, evaluate: LobeEvaluator, omega: Vec3, lightPdf: real,
                    useMis: bool, branched: bool, heuristic: (real, real) -> real): (r: Rgb)
    // without MIS both integrators see the plain sum over all BSDFs
    ensures !useMis ==> r == MultiAcc(cs, BsdfKind(evaluate), omega, -1, Zero, |cs|).eval
    // the one-sample integrator weights the sum once, with the combined pdf
    ensures !branched && useMis ==>
              r == MultiAcc(cs, BsdfKind(evaluate), omega, -1, Zero, |cs|).eval
                     .Scale(heuristic(lightPdf, CombinedPdf(MultiAcc(cs, BsdfKind(evaluate), omega, -1, Zero, |cs|))))
    // the branched integrator weights each closure by itself, so a heuristic that is
    // one everywhere changes nothing
    ensures branched && useMis && (forall p :: heuristic(lightPdf, p) == 1.0) ==>
              r == MultiAcc(cs, BsdfKind(evaluate), omega, -1, Zero, |cs|).eval
  {
    if branched then
      var mis := (p: real) => if useMis then heuristic(lightPdf, p) else 1.0;
      BranchedUnitMis(cs, evaluate, omega, mis);
      BranchedSum(cs, evaluate, omega, mis, |cs|)
    else
      var a := MultiAcc(cs, BsdfKind(evaluate), omega, -1, Zero, |cs|);
      if useMis then a.eval.Scale(heuristic(lightPdf, CombinedPdf(a))) else a.eval
  }

  // ---------------------------------------------------------------------------
  // Properties
  // ---------------------------------------------------------------------------

  lemma {:induction false} BranchedWithoutMisIsPlainSum(cs: seq<Closure>, evaluate: LobeEvaluator, omega: Vec3, n: nat)
    requires n <= |cs|
    ensures BranchedSum(cs, evaluate, omega, (p: real) => 1.0, n)
            == MultiAcc(cs, BsdfKind(evaluate), omega, -1, Zero, n).eval
  {
    if n > 0 {
      BranchedWithoutMisIsPlainSum(cs, evaluate, omega, n - 1);
      var c := cs[n - 1];
      var t := evaluate(c, omega).eval.Times(c.weight);
      assert t.Scale(1.0) == t;
    }
  }

  /** A MIS weight that is one everywhere leaves the branched sum the plain sum. */
  lemma BranchedUnitMis(cs: seq<Closure>, evaluate: LobeEvaluator, omega: Vec3, mis: real -> real)
    ensures (forall p :: mis(p) == 1.0) ==>
              BranchedSum(cs, evaluate, omega, mis, |cs|) == MultiAcc(cs, BsdfKind(evaluate), omega, -1, Zero, |cs|).eval
  {
    if forall p :: mis(p) == 1.0 {
      BranchedMisIrrelevant(cs, evaluate, omega, mis, (p: real) => 1.0, |cs|);
      BranchedWithoutMisIsPlainSum(cs, evaluate, omega, |cs|);
    }
  }

  /** When every BSDF has the same pdf `p` in the direction, each closure gets the
      same MIS weight, so the branched sum is the plain sum scaled once by `mis(p)`. */
  lemma {:induction false} BranchedUniformPdf(cs: seq<Closure>, evaluate: LobeEvaluator, omega: Vec3,
                                              mis: real -> real, p: real, n: nat)
    requires n <= |cs|
    requires forall i :: 0 <= i < |cs| && cs[i].ctype.IsBsdf() ==> evaluate(cs[i], omega).pdf == p
    ensures BranchedSum(cs, evaluate, omega, mis, n)
            == MultiAcc(cs, BsdfKind(evaluate), omega, -1, Zero, n).eval.Scale(mis(p))
  {
    if n == 0 {
      assert Black.Scale(mis(p)) == Black;
    } else {
      BranchedUniformPdf(cs, evaluate, omega, mis, p, n - 1);
      var c := cs[n - 1];
      var e := evaluate(c, omega);
      ScaleDistributes(MultiAcc(cs, BsdfKind(evaluate), omega, -1, Zero, n - 1).eval, e.eval.Times(c.weight), mis(p));
    }
  }

  /** The two integrators agree under MIS when every BSDF has the same non-zero pdf
      `p` and the BSDFs carry some sampling weight: weighting each closure by the
      heuristic at its own pdf is then the same as weighting the sum by the heuristic
      at the combined pdf. */
  lemma BranchedAgreesOnUniformPdf(cs: seq<Closure>, evaluate: LobeEvaluator, omega: Vec3, lightPdf: real,
                                   heuristic: (real, real) -> real, p: real)
    requires p != 0.0 && SampleWeightSum(cs, IsBsdfKey) > 0.0
    requires forall i :: 0 <= i < |cs| && cs[i].ctype.IsBsdf() ==> evaluate(cs[i], omega).pdf == p
    ensures BsdfEval(cs, evaluate, omega, lightPdf, true, true, heuristic)
            == BsdfEval(cs, evaluate, omega, lightPdf, true, false, heuristic)
  {
    var mis := (q: real) => if true then heuristic(lightPdf, q) else 1.0;
    BranchedUniformPdf(cs, evaluate, omega, mis, p, |cs|);
    MultiAccWeightIsSelectionTotal(cs, BsdfKind(evaluate), omega, |cs|);
    assert cs[..|cs|] == cs;
    UniformCombinedPdf(cs, BsdfKind(evaluate), omega, p);
  }

  lemma {:induction false} BranchedMisIrrelevant(cs: seq<Closure>, evaluate: LobeEvaluator, omega: Vec3,
                                                 f: real -> real, g: real -> real, n: nat)
    requires n <= |cs|
    requires forall p :: f(p) == g(p)
    ensures BranchedSum(cs, evaluate, omega, f, n) == BranchedSum(cs, evaluate, omega, g, n)
  {
    if n > 0 {
      BranchedMisIrrelevant(cs, evaluate, omega, f, g, n - 1);
    }
  }

  /** The reported pdf is never negative when the lobe pdfs and sampling weights are not. */
  lemma CombinedPdfNonNegative(cs: seq<Closure>, k: LobeKind, omega: Vec3, skip: int, init: Acc)
    requires init.pdf >= 0.0 && init.sw >= 0.0
    requires forall i :: 0 <= i < |cs| && Selected(k, cs[i]) ==> cs[i].sampleWeight >= 0.0
    requires forall i :: 0 <= i < |cs| && Selected(k, cs[i]) ==> k.evaluate(cs[i], omega).pdf >= 0.0
    ensures CombinedPdf(MultiAcc(cs, k, omega, skip, init, |cs|)) >= 0.0
  {
    MultiAccNonNegative(cs, k, omega, skip, init, |cs|);
  }

  /** Sampling and evaluation agree: when the picked lobe's evaluation routine reports in
      the sampled direction the value and pdf its sampling routine produced, the value
      and pdf `shader_bsdf_sample` returns are exactly what `shader_bsdf_eval` (without
      MIS) computes for that direction. This is what makes the returned pdf usable for
      multiple importance sampling. */
  lemma SampleAgreesWithEval(cs: seq<Closure>, sample: LobeSampler, evaluate: LobeEvaluator,
                             randb: real, randu: real, randv: real)
    requires |cs| > 1
    requires Select(cs, BsdfKind(evaluate), randb).Some?
    requires var c := cs[Select(cs, BsdfKind(evaluate), randb).value];
             var s := sample(c, randu, randv);
             s.pdf != 0.0 && evaluate(c, s.omegaIn) == LobeEval(s.eval, s.pdf)
    ensures var o := BsdfSample(cs, sample, evaluate, randb, randu, randv);
            var a := MultiAcc(cs, BsdfKind(evaluate), o.omegaIn.value, -1, Zero, |cs|);
            o.omegaIn.Some? && o.eval == Some(a.eval) && o.pdf == CombinedPdf(a)
  {
    var k := BsdfKind(evaluate);
    var i := Select(cs, k, randb).value;
    var s := sample(cs[i], randu, randv);
    assert Selected(k, cs[i]);
    ReevaluateIsFullEval(cs, k, i, s);
    assert SampleKind(cs, k, sample, true, randb, randu, randv) == Reevaluate(cs, k, i, s);
  }

  /** Re-evaluation seeded with the picked lobe's own value and pdf equals the plain
      evaluation of all closures, when the lobe evaluates to what it sampled. */
  lemma ReevaluateIsFullEval(cs: seq<Closure>, k: LobeKind, i: nat, s: LobeSample)
    requires i < |cs| && Selected(k, cs[i]) && s.pdf != 0.0
    requires k.evaluate(cs[i], s.omegaIn) == LobeEval(s.eval, s.pdf)
    ensures var a := MultiAcc(cs, k, s.omegaIn, -1, Zero, |cs|);
            Reevaluate(cs, k, i, s) == Outcome(s.ev, CombinedPdf(a), Some(a.eval), Some(s.omegaIn))
  {
    var seed := Seed(k, cs[i], s);
    assert Black.Plus(seed.eval) == seed.eval;
    assert seed == Step(k, s.omegaIn, Zero, cs[i]);
    SkipThenSeed(cs, k, s.omegaIn, i, Zero, |cs|);
  }

  /** What `shader_bsdf_sample` returns is what `shader_bsdf_eval` without MIS computes
      for the sampled direction, in either integrator, when the picked lobe evaluates to
      what it sampled. */
  lemma SampleAgreesWithBsdfEval(cs: seq<Closure>, sample: LobeSampler, evaluate: LobeEvaluator,
                                 randb: real, randu: real, randv: real,
                                 lightPdf: real, branched: bool, heuristic: (real, real) -> real)
    requires |cs| > 1
    requires Select(cs, BsdfKind(evaluate), randb).Some?
    requires var c := cs[Select(cs, BsdfKind(evaluate), randb).value];
             var s := sample(c, randu, randv);
             s.pdf != 0.0 && evaluate(c, s.omegaIn) == LobeEval(s.eval, s.pdf)
    ensures var o := BsdfSample(cs, sample, evaluate, randb, randu, randv);
            o.omegaIn.Some?
            && o.eval == Some(BsdfEval(cs, evaluate, o.omegaIn.value, lightPdf, false, branched, heuristic))
  {
    SampleAgreesWithEval(cs, sample, evaluate, randb, randu, randv);
  }

  /** Closures the loop skips or does not select leave the sums alone. */
  lemma {:induction false} OthersUnselected(cs: seq<Closure>, k: LobeKind, omega: Vec3, skip: int, init: Acc, n: nat)
    requires n <= |cs|
    requires forall j :: 0 <= j < |cs| && j != skip ==> !Selected(k, cs[j])
    ensures MultiAcc(cs, k, omega, skip, init, n) == init
  {
    if n > 0 {
      OthersUnselected(cs, k, omega, skip, init, n - 1);
    }
  }

  /** Phase sampling reports the picked lobe's own pdf and value, and when the picked
      closure is the only phase closure, that is what `shader_volume_phase_eval` gives
      for the sampled direction. */
  lemma PhaseSampleAgreesWithEval(cs: seq<Closure>, sample: LobeSampler, evaluate: LobeEvaluator,
                                  randb: real, randu: real, randv: real)
    requires |cs| >= 1
    requires var sel := Select(cs, PhaseKind(evaluate), randb);
             sel.Some? && IsPhaseKey(cs[sel.value].ctype, cs[sel.value].payload)
             && cs[sel.value].sampleWeight > 0.0
             && (forall j :: 0 <= j < |cs| && j != sel.value ==> !IsPhaseKey(cs[j].ctype, cs[j].payload))
    requires var c := cs[Select(cs, PhaseKind(evaluate), randb).value];
             var s := sample(c, randu, randv);
             s.pdf != 0.0 && evaluate(c, s.omegaIn) == LobeEval(s.eval, s.pdf)
    ensures var o := PhaseSample(cs, sample, evaluate, randb, randu, randv);
            var e := PhaseEval(cs, evaluate, o.omegaIn.value);
            o.omegaIn.Some? && o.eval == Some(e.0) && o.pdf == e.1
  {
    var k := PhaseKind(evaluate);
    var i := Select(cs, k, randb).value;
    var c := cs[i];
    var s := sample(c, randu, randv);
    var seed := Step(k, s.omegaIn, Zero, c);
    assert seed == Acc(Black.Plus(s.eval), s.pdf * c.sampleWeight, c.sampleWeight);
    assert Black.Plus(s.eval) == s.eval;
    SkipThenSeed(cs, k, s.omegaIn, i, Zero, |cs|);
    OthersUnselected(cs, k, s.omegaIn, i, seed, |cs|);
    assert CombinedPdf(seed) == s.pdf by {
      assert s.pdf * c.sampleWeight / c.sampleWeight == s.pdf;
    }
  }

  lemma {:induction false} UniformPdfSums(cs: seq<Closure>, k: LobeKind, omega: Vec3, p: real, n: nat)
    requires n <= |cs| && p != 0.0
    requires forall i :: 0 <= i < |cs| && Selected(k, cs[i]) ==> k.evaluate(cs[i], omega).pdf == p
    ensures MultiAcc(cs, k, omega, -1, Zero, n).pdf == p * MultiAcc(cs, k, omega, -1, Zero, n).sw
  {
    if n > 0 {
      UniformPdfSums(cs, k, omega, p, n - 1);
    }
  }

  /** With one pdf for every closure of the kind and some sampling weight, the combined
      pdf is that pdf. */
  lemma UniformCombinedPdf(cs: seq<Closure>, k: LobeKind, omega: Vec3, p: real)
    requires p != 0.0 && MultiAcc(cs, k, omega, -1, Zero, |cs|).sw > 0.0
    requires forall i :: 0 <= i < |cs| && Selected(k, cs[i]) ==> k.evaluate(cs[i], omega).pdf == p
    ensures CombinedPdf(MultiAcc(cs, k, omega, -1, Zero, |cs|)) == p
  {
    UniformPdfSums(cs, k, omega, p, |cs|);
    PdfOverWeight(MultiAcc(cs, k, omega, -1, Zero, |cs|), p);
  }

  /** The combined phase pdf is a weighted average: when every phase closure has the
      same pdf in a direction, and the phase closures carry some sampling weight, the
      combined pdf is that pdf. */
  lemma PhaseEvalUniformPdf(cs: seq<Closure>, evaluate: LobeEvaluator, omega: Vec3, p: real)
    requires p != 0.0 && SampleWeightSum(cs, IsPhaseKey) > 0.0
    requires forall i :: 0 <= i < |cs| && IsPhaseKey(cs[i].ctype, cs[i].payload) ==> evaluate(cs[i], omega).pdf == p
    ensures PhaseEval(cs, evaluate, omega).1 == p
  {
    PhaseWeightIsTotal(cs, evaluate, omega);
    UniformCombinedPdf(cs, PhaseKind(evaluate), omega, p);
  }

  /** The phase evaluation gathers the total sampling weight of the phase closures. */
  lemma PhaseWeightIsTotal(cs: seq<Closure>, evaluate: LobeEvaluator, omega: Vec3)
    ensures MultiAcc(cs, PhaseKind(evaluate), omega, -1, Zero, |cs|).sw == SampleWeightSum(cs, IsPhaseKey)
  {
    MultiAccWeightIsSelectionTotal(cs, PhaseKind(evaluate), omega, |cs|);
    assert cs[..|cs|] == cs;
  }

  lemma PdfOverWeight(a: Acc, p: real)
    requires a.sw > 0.0 && a.pdf == p * a.sw
    ensures CombinedPdf(a) == p
  {
  }
}
