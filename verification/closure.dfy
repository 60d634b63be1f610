/** The closure array of a shading point: typed, weighted scattering terms and the
    linear accumulations the shader evaluator makes over them. */
module Closure {
  import opened Common

  /** Closure categories. The `CLOSURE_IS_*` macros classify numeric type ids by range;
      here each closure type id is a category plus a variant number that tells apart
      the lobes inside a category. */
  datatype ClosureType =
    | BsdfDiffuse(variant: nat)
    | BsdfGlossy(variant: nat)
    | BsdfTransmission(variant: nat)
    | BsdfBssrdf(variant: nat)
    | BsdfTransparent
    | Bssrdf(variant: nat)
    | Emission
    | Background
    | Holdout
    | AmbientOcclusion
    | Phase(variant: nat)
  {
    /** `CLOSURE_IS_BSDF`: every BSDF lobe, transparent included. */
    predicate IsBsdf() {
      BsdfDiffuse? || BsdfGlossy? || BsdfTransmission? || BsdfBssrdf? || BsdfTransparent?
    }

    /** `CLOSURE_IS_PHASE`. */
    predicate IsPhase() {
      Phase?
    }
  }

  /** `ShaderClosure`: the type, the colour weight, the scalar sampling weight and the
      lobe-specific parameters (normal, roughness, ...) as plain numbers. */
  datatype Closure = Closure(ctype: ClosureType, weight: Rgb, sampleWeight: real, payload: seq<real>)

  /** A property of a closure's identity (type and parameters), never of its weights. */
  type KeyPredicate = (ClosureType, seq<real>) -> bool

  /** The sum of the colour weights of the closures satisfying `p`, in array order. */
  function WeightSum(cs: seq<Closure>, p: KeyPredicate): Rgb
    decreases |cs|
  {
    if cs == [] then Black
    else (if p(cs[0].ctype, cs[0].payload) then cs[0].weight else Black).Plus(WeightSum(cs[1..], p))
  }

  /** The sum of the sampling weights of the closures satisfying `p`. */
  function SampleWeightSum(cs: seq<Closure>, p: KeyPredicate): real
    decreases |cs|
  {
    if cs == [] then 0.0
    else (if p(cs[0].ctype, cs[0].payload) then cs[0].sampleWeight else 0.0) + SampleWeightSum(cs[1..], p)
  }

  /** Appending one closure adds its weight (when it matches) to the sum: the step a
      left-to-right accumulation loop takes. */
  lemma {:induction false} WeightSumSnoc(cs: seq<Closure>, c: Closure, p: KeyPredicate)
    ensures WeightSum(cs + [c], p) == WeightSum(cs, p).Plus(if p(c.ctype, c.payload) then c.weight else Black)
    decreases |cs|
  {
    var e := if p(c.ctype, c.payload) then c.weight else Black;
    if cs == [] {
      assert cs + [c] == [c] && [c][1..] == [];
      assert WeightSum([c], p) == e.Plus(Black);
    } else {
      var h := if p(cs[0].ctype, cs[0].payload) then cs[0].weight else Black;
      assert (cs + [c])[0] == cs[0];
      assert (cs + [c])[1..] == cs[1..] + [c];
      assert WeightSum(cs + [c], p) == h.Plus(WeightSum(cs[1..] + [c], p));
      WeightSumSnoc(cs[1..], c, p);
      PlusAssociative(h, WeightSum(cs[1..], p), e);
    }
  }

  lemma {:induction false} SampleWeightSumSnoc(cs: seq<Closure>, c: Closure, p: KeyPredicate)
    ensures SampleWeightSum(cs + [c], p)
            == SampleWeightSum(cs, p) + (if p(c.ctype, c.payload) then c.sampleWeight else 0.0)
    decreases |cs|
  {
    if cs != [] {
      assert (cs + [c])[1..] == cs[1..] + [c];
      SampleWeightSumSnoc(cs[1..], c, p);
    }
  }

  lemma PlusAssociative(x: Rgb, y: Rgb, z: Rgb)
    ensures x.Plus(y.Plus(z)) == x.Plus(y).Plus(z)
  {
  }

  /** Sums over a concatenation add up. */
  lemma {:induction false} WeightSumAppend(a: seq<Closure>, b: seq<Closure>, p: KeyPredicate)
    ensures WeightSum(a + b, p) == WeightSum(a, p).Plus(WeightSum(b, p))
    decreases |a|
  {
    if a == [] {
      assert a + b == b;
      var w := WeightSum(b, p);
      assert Black.Plus(w) == Rgb(w.r, w.g, w.b);
    } else {
      var ab := a + b;
      assert ab[0] == a[0] && ab[1..] == a[1..] + b;
      WeightSumAppend(a[1..], b, p);
      var t := if p(a[0].ctype, a[0].payload) then a[0].weight else Black;
      assert WeightSum(ab, p) == t.Plus(WeightSum(a[1..] + b, p));
      assert WeightSum(a, p) == t.Plus(WeightSum(a[1..], p));
      PlusAssociative(t, WeightSum(a[1..], p), WeightSum(b, p));
    }
  }

  lemma {:induction false} SampleWeightSumAppend(a: seq<Closure>, b: seq<Closure>, p: KeyPredicate)
    ensures SampleWeightSum(a + b, p) == SampleWeightSum(a, p) + SampleWeightSum(b, p)
    decreases |a|
  {
    if a == [] {
      assert a + b == b;
    } else {
      var ab := a + b;
      assert ab[0] == a[0] && ab[1..] == a[1..] + b;
      SampleWeightSumAppend(a[1..], b, p);
    }
  }

  /** The accumulation loop of the `shader_bsdf_*` queries: walk the array once and add
      the weight of every closure of a matching type. */
  method AccumulateWeights(cs: seq<Closure>, p: KeyPredicate) returns (eval: Rgb)
    ensures eval == WeightSum(cs, p)
  {
    eval := Black;
    var i := 0;
    while i < |cs|
      invariant 0 <= i <= |cs|
      invariant eval == WeightSum(cs[..i], p)
    {
      if p(cs[i].ctype, cs[i].payload) {
        eval := eval.Plus(cs[i].weight);
      }
      WeightSumSnoc(cs[..i], cs[i], p);
      assert cs[..i + 1] == cs[..i] + [cs[i]];
      i := i + 1;
    }
    assert cs[..|cs|] == cs;
  }

  // Type predicates used by the accumulations.

  function IsBsdfKey(t: ClosureType, payload: seq<real>): bool { t.IsBsdf() }
  function IsPhaseKey(t: ClosureType, payload: seq<real>): bool { t.IsPhase() }
  function IsTransparentKey(t: ClosureType, payload: seq<real>): bool { t.BsdfTransparent? }
  function IsDiffuseKey(t: ClosureType, payload: seq<real>): bool { t.BsdfDiffuse? }
  function IsGlossyKey(t: ClosureType, payload: seq<real>): bool { t.BsdfGlossy? }
  function IsTransmissionKey(t: ClosureType, payload: seq<real>): bool { t.BsdfTransmission? }
  function IsSubsurfaceKey(t: ClosureType, payload: seq<real>): bool { t.Bssrdf? || t.BsdfBssrdf? }
  function IsEmissionKey(t: ClosureType, payload: seq<real>): bool { t.Emission? }
  function IsBackgroundKey(t: ClosureType, payload: seq<real>): bool { t.Background? }
  function IsHoldoutKey(t: ClosureType, payload: seq<real>): bool { t.Holdout? }
  function IsAmbientOcclusionKey(t: ClosureType, payload: seq<real>): bool { t.AmbientOcclusion? }
}
