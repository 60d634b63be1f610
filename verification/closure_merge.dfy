/** `shader_merge_closures`: folding indistinguishable closures of one shading point
    together so that the fixed-capacity closure array does not overflow. The lobe-specific
    test `bsdf_merge` is a parameter that looks only at the lobe parameters. */
module ClosureMerge {
  import opened Common
  import opened Closure

  /** `bsdf_merge`, restricted to the parameters of two closures of the same type. */
  type MergePredicate = (seq<real>, seq<real>) -> bool

  /** Whether the closure at the lower index `a` absorbs the later closure `b`. */
  predicate Absorbs(m: MergePredicate, a: Closure, b: Closure) {
    a.ctype == b.ctype && m(a.payload, b.payload)
  }

  /** `b` folded into `a`: colour and sampling weights add up, `a`'s identity stays. */
  function Combine(a: Closure, b: Closure): Closure {
    a.(weight := a.weight.Plus(b.weight), sampleWeight := a.sampleWeight + b.sampleWeight)
  }

  /** The closure's identity: what the merge test and the type predicates look at. */
  function Key(c: Closure): (ClosureType, seq<real>) {
    (c.ctype, c.payload)
  }

  function Keys(cs: seq<Closure>): seq<(ClosureType, seq<real>)>
    decreases |cs|
  {
    if cs == [] then [] else [Key(cs[0])] + Keys(cs[1..])
  }

  /** The inner loop of the merge for one fixed index: `h` absorbs, in order, every later
      closure it can absorb; the others survive in their order. */
  function Absorb(m: MergePredicate, h: Closure, cs: seq<Closure>): (res: (Closure, seq<Closure>))
    ensures Key(res.0) == Key(h)
    ensures |res.1| <= |cs|
    decreases |cs|
  {
    if cs == [] then (h, [])
    else if Absorbs(m, h, cs[0]) then Absorb(m, Combine(h, cs[0]), cs[1..])
    else
      var r := Absorb(m, h, cs[1..]);
      (r.0, [cs[0]] + r.1)
  }

  /** The reference merge: the closure at the lowest index absorbs every later closure it
      can, and the survivors are merged in the same way. */
  function Merge(m: MergePredicate, cs: seq<Closure>): (r: seq<Closure>)
    ensures |r| <= |cs|
    ensures |cs| > 0 ==> |r| > 0 && Key(r[0]) == Key(cs[0])
    decreases |cs|
  {
    if cs == [] then []
    else
      var a := Absorb(m, cs[0], cs[1..]);
      [a.0] + Merge(m, a.1)
  }

  /** No closure is left that an earlier closure could absorb. */
  predicate NoMergeablePair(m: MergePredicate, cs: seq<Closure>) {
    forall i, j :: 0 <= i < j < |cs| ==> !Absorbs(m, cs[i], cs[j])
  }

  /** `a` is `b` with some elements left out, in the same order. */
  predicate IsSubsequence<T(==)>(a: seq<T>, b: seq<T>)
    decreases |b|
  {
    if a == [] then true
    else if b == [] then false
    else (a[0] == b[0] && IsSubsequence(a[1..], b[1..])) || IsSubsequence(a, b[1..])
  }

  lemma {:induction false} SubsequenceTransitive<T>(a: seq<T>, b: seq<T>, c: seq<T>)
    requires IsSubsequence(a, b) && IsSubsequence(b, c)
    ensures IsSubsequence(a, c)
    decreases |c|
  {
    if a != [] && c != [] {
      assert b != [];
      if b[0] == c[0] && IsSubsequence(b[1..], c[1..]) {
        if a[0] == b[0] && IsSubsequence(a[1..], b[1..]) {
          SubsequenceTransitive(a[1..], b[1..], c[1..]);
        } else {
          SubsequenceTransitive(a, b[1..], c[1..]);
        }
      } else {
        SubsequenceTransitive(a, b, c[1..]);
      }
    }
  }

  /** The merge of the closures is the source's nested loop over a sequence: for each
      index `i`, `AbsorbAt` scans the later closures. */
  method MergeClosures(m: MergePredicate, cs: seq<Closure>) returns (r: seq<Closure>)
    ensures r == Merge(m, cs)
    ensures |r| <= |cs|
    ensures NoMergeablePair(m, r)
  {
    r := cs;
    var i := 0;
    while i < |r|
      invariant 0 <= i <= |r|
      invariant Merge(m, cs) == r[..i] + Merge(m, r[i..])
    {
      ghost var before := r;
      r := AbsorbAt(m, r, i);
      MergeAt(m, before, r, i);
      i := i + 1;
    }
    assert r[..i] == r;
    MergeLeavesNoMergeablePair(m, cs);
  }

  /** One outer step: after index `i` absorbed its partners, the merged prefix grows by
      one closure. */
  lemma MergeAt(m: MergePredicate, before: seq<Closure>, r: seq<Closure>, i: nat)
    requires i < |before| && i < |r| && r[..i] == before[..i]
    requires Absorb(m, before[i], before[i + 1..]) == (r[i], r[i + 1..])
    ensures before[..i] + Merge(m, before[i..]) == r[..i + 1] + Merge(m, r[i + 1..])
  {
    assert before[i..][0] == before[i] && before[i..][1..] == before[i + 1..];
    assert Merge(m, before[i..]) == [r[i]] + Merge(m, r[i + 1..]);
    assert r[..i + 1] == r[..i] + [r[i]];
  }

  /** The inner loop for index `i`: scan `j > i`; on a merge add `j` into `i`, shift the
      tail down one place and look at index `j` again. */
  method AbsorbAt(m: MergePredicate, r0: seq<Closure>, i: nat) returns (r: seq<Closure>)
    requires i < |r0|
    ensures i < |r| <= |r0|
    ensures r[..i] == r0[..i]
    ensures Absorb(m, r0[i], r0[i + 1..]) == (r[i], r[i + 1..])
  {
    r := r0;
    var j := i + 1;
    assert r[i + 1..j] + Absorb(m, r[i], r[j..]).1 == Absorb(m, r[i], r[j..]).1;
    while j < |r|
      invariant i + 1 <= j <= |r| <= |r0|
      invariant r[..i] == r0[..i]
      invariant Absorb(m, r0[i], r0[i + 1..])
                == (Absorb(m, r[i], r[j..]).0, r[i + 1..j] + Absorb(m, r[i], r[j..]).1)
      decreases |r| - j
    {
      if r[i].ctype == r[j].ctype && m(r[i].payload, r[j].payload) {
        var merged := Combine(r[i], r[j]);
        AbsorbMergeStep(m, r0, r, i, j);
        r := r[..i] + [merged] + r[i + 1..j] + r[j + 1..];
      } else {
        AbsorbSkipStep(m, r0, r, i, j);
        j := j + 1;
      }
    }
    assert r[j..] == [] && r[i + 1..j] == r[i + 1..];
    assert Absorb(m, r[i], r[j..]) == (r[i], []);
    assert r[i + 1..j] + [] == r[i + 1..];
  }

  /** The loop step that absorbs index `j` into index `i` and shifts the tail down. */
  lemma AbsorbMergeStep(m: MergePredicate, r0: seq<Closure>, r: seq<Closure>, i: nat, j: nat)
    requires i < |r0| && i + 1 <= j < |r| && r[..i] == r0[..i]
    requires Absorb(m, r0[i], r0[i + 1..]) == (Absorb(m, r[i], r[j..]).0, r[i + 1..j] + Absorb(m, r[i], r[j..]).1)
    requires r[i].ctype == r[j].ctype && m(r[i].payload, r[j].payload)
    ensures var r' := r[..i] + [Combine(r[i], r[j])] + r[i + 1..j] + r[j + 1..];
            |r'| == |r| - 1 && r'[..i] == r0[..i]
            && Absorb(m, r0[i], r0[i + 1..]) == (Absorb(m, r'[i], r'[j..]).0, r'[i + 1..j] + Absorb(m, r'[i], r'[j..]).1)
  {
    var merged := Combine(r[i], r[j]);
    assert r[j..][0] == r[j] && r[j..][1..] == r[j + 1..];
    assert Absorb(m, r[i], r[j..]) == Absorb(m, merged, r[j + 1..]);
    ShiftDown(r, i, j, merged);
  }

  /** The loop step that keeps index `j` and moves on. */
  lemma AbsorbSkipStep(m: MergePredicate, r0: seq<Closure>, r: seq<Closure>, i: nat, j: nat)
    requires i < |r0| && i + 1 <= j < |r|
    requires Absorb(m, r0[i], r0[i + 1..]) == (Absorb(m, r[i], r[j..]).0, r[i + 1..j] + Absorb(m, r[i], r[j..]).1)
    requires !(r[i].ctype == r[j].ctype && m(r[i].payload, r[j].payload))
    ensures Absorb(m, r0[i], r0[i + 1..])
            == (Absorb(m, r[i], r[j + 1..]).0, r[i + 1..j + 1] + Absorb(m, r[i], r[j + 1..]).1)
  {
    assert r[j..][0] == r[j] && r[j..][1..] == r[j + 1..];
    var rest := Absorb(m, r[i], r[j + 1..]);
    assert Absorb(m, r[i], r[j..]) == (rest.0, [r[j]] + rest.1);
    assert r[i + 1..j + 1] == r[i + 1..j] + [r[j]];
    assert r[i + 1..j] + ([r[j]] + rest.1) == r[i + 1..j + 1] + rest.1;
  }

  /** The slices of the array after `x` replaced index `i` and index `j` was removed. */
  lemma ShiftDown<T>(r: seq<T>, i: nat, j: nat, x: T)
    requires i < j < |r|
    ensures var r' := r[..i] + [x] + r[i + 1..j] + r[j + 1..];
            |r'| == |r| - 1 && r'[..i] == r[..i] && r'[i] == x
            && r'[i + 1..j] == r[i + 1..j] && r'[j..] == r[j + 1..]
  {
    var r' := r[..i] + [x] + r[i + 1..j] + r[j + 1..];
    assert r'[..i] == r[..i];
    assert r'[i + 1..j] == r[i + 1..j];
    assert r'[j..] == r[j + 1..];
  }

  /** The survivors of one absorption pass are the scanned closures, in order, minus the
      absorbed ones. */
  lemma {:induction false} AbsorbKeepsOrder(m: MergePredicate, h: Closure, cs: seq<Closure>)
    ensures IsSubsequence(Absorb(m, h, cs).1, cs)
    ensures forall c :: c in Absorb(m, h, cs).1 ==> c in cs && !Absorbs(m, h, c)
    decreases |cs|
  {
    if cs != [] {
      AbsorbKeepsOrder(m, if Absorbs(m, h, cs[0]) then Combine(h, cs[0]) else h, cs[1..]);
      var r := Absorb(m, h, cs);
      if !Absorbs(m, h, cs[0]) {
        assert r.1 == [cs[0]] + Absorb(m, h, cs[1..]).1;
        assert r.1[1..] == Absorb(m, h, cs[1..]).1;
      } else {
        assert r == Absorb(m, Combine(h, cs[0]), cs[1..]);
        var s := r.1;
        if s != [] {
          assert IsSubsequence(s, cs[1..]);
        }
      }
    }
  }

  /** Every closure left by the merge carries the identity of some input closure. */
  lemma {:induction false} MergeKeysFromInput(m: MergePredicate, cs: seq<Closure>)
    ensures forall x :: x in Merge(m, cs) ==> exists y :: y in cs && Key(y) == Key(x)
    decreases |cs|
  {
    if cs != [] {
      var a := Absorb(m, cs[0], cs[1..]);
      AbsorbKeepsOrder(m, cs[0], cs[1..]);
      MergeKeysFromInput(m, a.1);
      forall x | x in Merge(m, cs)
        ensures exists y :: y in cs && Key(y) == Key(x)
      {
        if x == a.0 {
          assert cs[0] in cs && Key(cs[0]) == Key(x);
        } else {
          assert x in Merge(m, a.1);
          var y :| y in a.1 && Key(y) == Key(x);
          assert y in cs[1..];
        }
      }
    }
  }

  /** After the merge no remaining pair can be merged any further. */
  lemma {:induction false} MergeLeavesNoMergeablePair(m: MergePredicate, cs: seq<Closure>)
    ensures NoMergeablePair(m, Merge(m, cs))
    decreases |cs|
  {
    if cs != [] {
      var a := Absorb(m, cs[0], cs[1..]);
      var rest := Merge(m, a.1);
      var r := Merge(m, cs);
      assert r == [a.0] + rest;
      AbsorbKeepsOrder(m, cs[0], cs[1..]);
      MergeKeysFromInput(m, a.1);
      MergeLeavesNoMergeablePair(m, a.1);
      forall i, j | 0 <= i < j < |r|
        ensures !Absorbs(m, r[i], r[j])
      {
        if i == 0 {
          var x := r[j];
          assert x in rest;
          var y :| y in a.1 && Key(y) == Key(x);
          assert !Absorbs(m, cs[0], y);
        } else {
          assert r[i] == rest[i - 1] && r[j] == rest[j - 1];
        }
      }
    }
  }

  /** A closure array with nothing left to merge is its own merge. */
  lemma {:induction false} MergeOfMergedIsIdentity(m: MergePredicate, cs: seq<Closure>)
    requires NoMergeablePair(m, cs)
    ensures Merge(m, cs) == cs
    decreases |cs|
  {
    if cs != [] {
      AbsorbNothing(m, cs[0], cs[1..]);
      assert NoMergeablePair(m, cs[1..]) by {
        forall i, j | 0 <= i < j < |cs[1..]|
          ensures !Absorbs(m, cs[1..][i], cs[1..][j])
        {
          assert cs[1..][i] == cs[i + 1] && cs[1..][j] == cs[j + 1];
        }
      }
      MergeOfMergedIsIdentity(m, cs[1..]);
    }
  }

  lemma {:induction false} AbsorbNothing(m: MergePredicate, h: Closure, cs: seq<Closure>)
    requires forall k :: 0 <= k < |cs| ==> !Absorbs(m, h, cs[k])
    ensures Absorb(m, h, cs) == (h, cs)
    decreases |cs|
  {
    if cs != [] {
      AbsorbNothing(m, h, cs[1..]);
      assert [cs[0]] + cs[1..] == cs;
    }
  }

  /** Merging twice gives the same array as merging once. */
  lemma MergeIdempotent(m: MergePredicate, cs: seq<Closure>)
    ensures Merge(m, Merge(m, cs)) == Merge(m, cs)
  {
    MergeLeavesNoMergeablePair(m, cs);
    MergeOfMergedIsIdentity(m, Merge(m, cs));
  }

  /** Survivors keep their relative order: the identities after the merge are a
      subsequence of the identities before it. */
  lemma {:induction false} MergeKeepsOrder(m: MergePredicate, cs: seq<Closure>)
    ensures IsSubsequence(Keys(Merge(m, cs)), Keys(cs))
    decreases |cs|
  {
    if cs != [] {
      var a := Absorb(m, cs[0], cs[1..]);
      AbsorbKeepsOrder(m, cs[0], cs[1..]);
      MergeKeepsOrder(m, a.1);
      KeysOfSubsequence(a.1, cs[1..]);
      SubsequenceTransitive(Keys(Merge(m, a.1)), Keys(a.1), Keys(cs[1..]));
      var r := Merge(m, cs);
      assert Keys(r) == [Key(a.0)] + Keys(Merge(m, a.1));
      assert Keys(cs) == [Key(cs[0])] + Keys(cs[1..]);
    }
  }

  lemma {:induction false} KeysOfSubsequence(a: seq<Closure>, b: seq<Closure>)
    requires IsSubsequence(a, b)
    ensures IsSubsequence(Keys(a), Keys(b))
    decreases |b|
  {
    if a != [] {
      if a[0] == b[0] && IsSubsequence(a[1..], b[1..]) {
        KeysOfSubsequence(a[1..], b[1..]);
      } else {
        KeysOfSubsequence(a, b[1..]);
      }
    }
  }

  /** A merge class: a property of closure identities that closures which may be merged
      either both have or both lack. Every type predicate is one. */
  ghost predicate ClosedUnderMerge(m: MergePredicate, p: KeyPredicate) {
    forall t, x, y :: m(x, y) ==> (p(t, x) <==> p(t, y))
  }

  /** A closure's share of a weight sum over `p`. */
  function Share(c: Closure, p: KeyPredicate): Rgb {
    if p(c.ctype, c.payload) then c.weight else Black
  }

  function SampleShare(c: Closure, p: KeyPredicate): real {
    if p(c.ctype, c.payload) then c.sampleWeight else 0.0
  }

  lemma ConsSums(c: Closure, cs: seq<Closure>, p: KeyPredicate)
    ensures WeightSum([c] + cs, p) == Share(c, p).Plus(WeightSum(cs, p))
    ensures SampleWeightSum([c] + cs, p) == SampleShare(c, p) + SampleWeightSum(cs, p)
  {
    assert ([c] + cs)[0] == c && ([c] + cs)[1..] == cs;
  }

  lemma SameClass(m: MergePredicate, p: KeyPredicate, a: Closure, b: Closure)
    requires ClosedUnderMerge(m, p) && Absorbs(m, a, b)
    ensures p(a.ctype, a.payload) == p(b.ctype, b.payload)
  {
  }

  lemma ShareCombine(a: Closure, b: Closure, p: KeyPredicate)
    requires p(a.ctype, a.payload) == p(b.ctype, b.payload)
    ensures Share(Combine(a, b), p) == Share(a, p).Plus(Share(b, p))
  {
    var ab := Combine(a, b);
    assert ab.ctype == a.ctype && ab.payload == a.payload;
    if p(a.ctype, a.payload) {
      assert Share(ab, p) == a.weight.Plus(b.weight);
    } else {
      assert Share(ab, p) == Black;
      assert Black.Plus(Black) == Black;
    }
  }

  lemma PlusRegroup(x: Rgb, y: Rgb, z: Rgb, u: Rgb, w: Rgb)
    requires x.Plus(z) == u.Plus(w)
    ensures x.Plus(y.Plus(z)) == u.Plus(y.Plus(w))
  {
    assert x.r + z.r == u.r + w.r && x.g + z.g == u.g + w.g && x.b + z.b == u.b + w.b;
  }

  /** One absorption pass conserves the colour weight of every merge class. */
  lemma {:induction false} AbsorbConservesWeight(m: MergePredicate, h: Closure, cs: seq<Closure>, p: KeyPredicate)
    requires ClosedUnderMerge(m, p)
    ensures Share(Absorb(m, h, cs).0, p).Plus(WeightSum(Absorb(m, h, cs).1, p))
            == Share(h, p).Plus(WeightSum(cs, p))
    decreases |cs|
  {
    if cs != [] {
      var c := cs[0];
      var w := WeightSum(cs[1..], p);
      assert WeightSum(cs, p) == Share(c, p).Plus(w);
      if Absorbs(m, h, c) {
        var h' := Combine(h, c);
        assert Absorb(m, h, cs) == Absorb(m, h', cs[1..]);
        AbsorbConservesWeight(m, h', cs[1..], p);
        SameClass(m, p, h, c);
        ShareCombine(h, c, p);
        PlusAssociative(Share(h, p), Share(c, p), w);
      } else {
        var r' := Absorb(m, h, cs[1..]);
        AbsorbConservesWeight(m, h, cs[1..], p);
        ConsSums(c, r'.1, p);
        assert Absorb(m, h, cs) == (r'.0, [c] + r'.1);
        PlusRegroup(Share(r'.0, p), Share(c, p), WeightSum(r'.1, p), Share(h, p), w);
      }
    }
  }

  /** One absorption pass conserves the sampling weight of every merge class. */
  lemma {:induction false} AbsorbConservesSampleWeight(m: MergePredicate, h: Closure, cs: seq<Closure>, p: KeyPredicate)
    requires ClosedUnderMerge(m, p)
    ensures SampleShare(Absorb(m, h, cs).0, p) + SampleWeightSum(Absorb(m, h, cs).1, p)
            == SampleShare(h, p) + SampleWeightSum(cs, p)
    decreases |cs|
  {
    if cs != [] {
      var c := cs[0];
      if Absorbs(m, h, c) {
        AbsorbConservesSampleWeight(m, Combine(h, c), cs[1..], p);
        assert p(h.ctype, h.payload) == p(c.ctype, c.payload);
      } else {
        var r' := Absorb(m, h, cs[1..]);
        AbsorbConservesSampleWeight(m, h, cs[1..], p);
        ConsSums(c, r'.1, p);
      }
    }
  }

  /** Merging conserves the total colour and sampling weight of every merge class, in
      particular of every closure type. */
  lemma {:induction false} MergeConservesWeight(m: MergePredicate, cs: seq<Closure>, p: KeyPredicate)
    requires ClosedUnderMerge(m, p)
    ensures WeightSum(Merge(m, cs), p) == WeightSum(cs, p)
    ensures SampleWeightSum(Merge(m, cs), p) == SampleWeightSum(cs, p)
    decreases |cs|
  {
    if cs != [] {
      var a := Absorb(m, cs[0], cs[1..]);
      MergeConservesWeight(m, a.1, p);
      AbsorbConservesWeight(m, cs[0], cs[1..], p);
      AbsorbConservesSampleWeight(m, cs[0], cs[1..], p);
      ConsSums(a.0, Merge(m, a.1), p);
    }
  }

  /** A predicate that looks at the closure type only, as every `CLOSURE_IS_*` test does. */
  ghost predicate TypeOnly(p: KeyPredicate) {
    forall t, x, y :: p(t, x) == p(t, y)
  }

  /** Hence the type accumulations of the evaluator (diffuse, glossy, emission, ...) give
      the same result before and after the merge, whatever the lobe test. */
  lemma MergeConservesTypeWeight(m: MergePredicate, cs: seq<Closure>, p: KeyPredicate)
    requires TypeOnly(p)
    ensures WeightSum(Merge(m, cs), p) == WeightSum(cs, p)
    ensures SampleWeightSum(Merge(m, cs), p) == SampleWeightSum(cs, p)
  {
    assert ClosedUnderMerge(m, p);
    MergeConservesWeight(m, cs, p);
  }
}
