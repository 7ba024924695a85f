/**
 What bootstrapping does to a phase: blind rotation, extraction, key switching and modulus
 switching turn any phase into a fresh encryption of the looked-up bit, with a noise bound
 that does not depend on the noise of the input.
 */
module Refresh {
  import opened Arith
  import opened Poly
  import opened Negacyclic
  import opened Params
  import opened Rgsw
  import opened BlindRotate
  import opened Lwe
  import opened Switching
  import opened Doubles

  // ---------- blind rotation ----------

  ghost predicate KeyShape(ps: ParamSet, bk: BTKey)
    requires Supported(ps)
  {
    match ps.variant
    case AP => ApShape(ps, bk)
    case GINX => GinxShape(ps, bk)
  }

  /** bk lets the phase under s be rotated under z; GINX needs a ternary s. */
  ghost predicate IsBootKey(ps: ParamSet, bk: BTKey, s: Poly, z: Poly, beta: nat) {
    match ps.variant
    case AP => ApReady(ps, bk, s, z, beta)
    case GINX => GinxReady(ps, bk, s, z, beta)
  }

  function Negated(a: seq<nat>, q: nat): (r: seq<nat>)
    requires q > 0
    ensures |r| == |a| && forall i {:trigger r[i]} :: 0 <= i < |a| ==> r[i] == (q - a[i]) % q
  {
    seq(|a|, i requires 0 <= i < |a| => (q - a[i]) % q)
  }

  function StartAcc(ps: ParamSet, start: nat, b: nat): (r: seq<Poly>)
    requires Supported(ps)
    ensures IsAcc(ps, r)
  {
    FactorTimes(ps);
    var r := [Zero(ps.N), LookupPoly(ps, start, b)];
    LookupReduced(ps, start, b);
    r
  }

  lemma LookupReduced(ps: ParamSet, start: nat, b: nat)
    requires Supported(ps) && Factor(ps) > 0
    ensures Reduced(LookupPoly(ps, start, b), ps.Q) && Reduced(Zero(ps.N), ps.Q)
  {
  }

  function Accumulate(ps: ParamSet, bk: BTKey, acc: seq<Poly>, negA: seq<nat>): (r: seq<Poly>)
    requires Supported(ps) && KeyShape(ps, bk) && IsAcc(ps, acc) && |negA| == ps.n
    ensures IsAcc(ps, r)
  {
    match ps.variant
    case AP => ApLoop(ps, bk, acc, negA, 0)
    case GINX => GinxLoop(ps, bk, acc, negA, 0)
  }

  function BootstrapValue(ps: ParamSet, bk: BTKey, start: nat, ct: Ct): (r: seq<Poly>)
    requires Supported(ps) && KeyShape(ps, bk) && |ct.a| == ps.n
    ensures IsAcc(ps, r)
  {
    Accumulate(ps, bk, StartAcc(ps, start, ct.b), Negated(ct.a, ps.q))
  }

  ghost function RotationError(ps: ParamSet, beta: nat): nat
    requires Supported(ps)
  {
    match ps.variant
    case AP => Multiple(ps.n, Multiple(DigitsR(ps), StepError(ps, beta)))
    case GINX => Multiple(ps.n, MuxError(ps, beta))
  }

  lemma BootKeyFits(ps: ParamSet, bk: BTKey, s: Poly, z: Poly, beta: nat)
    requires IsBootKey(ps, bk, s, z, beta)
    ensures Supported(ps) && KeyShape(ps, bk) && |s| == ps.n && |z| == ps.N
  {
  }

  /** GINX needs a ternary secret; its key generation accepts no other. */
  ghost predicate SecretFits(ps: ParamSet, s: Poly) {
    match ps.variant
    case AP => |s| == ps.n
    case GINX => |s| == ps.n && Bounded(s, 1)
  }

  /** Parameters, secrets and the shape of the key fit together; nothing is said about what the key encrypts. */
  ghost predicate CanRotate(ps: ParamSet, bk: BTKey, s: Poly, z: Poly) {
    // A match in place of selectors keeps the definition folded in proofs.
    match ps
    case ParamSet(_, N, _, _, _, _, _, _) => Supported(ps) && KeyShape(ps, bk) && SecretFits(ps, s) && |z| == N
  }

  lemma CanRotateIs(ps: ParamSet, bk: BTKey, s: Poly, z: Poly)
    requires CanRotate(ps, bk, s, z)
    ensures Supported(ps) && KeyShape(ps, bk) && |s| == ps.n && |z| == ps.N
    ensures ps.variant.AP? ==> ApFits(ps, bk, z)
    ensures ps.variant.GINX? ==> GinxFits(ps, bk, z) && Bounded(s, 1)
  {
  }

  /** The noise of the whole rotation. */
  ghost function AccumulateNoise(ps: ParamSet, bk: BTKey, s: Poly, z: Poly, acc: seq<Poly>, negA: seq<nat>): (r: Poly)
    requires CanRotate(ps, bk, s, z) && IsAcc(ps, acc) && |negA| == ps.n
    ensures |r| == ps.N
  {
    CanRotateIs(ps, bk, s, z);
    match ps.variant
    case AP => ApLoopNoise(ps, bk, s, z, acc, negA, 0)
    case GINX => GinxLoopNoise(ps, bk, s, z, acc, negA, 0)
  }

  /**
   Whatever the key holds: either method rotates by Factor times the inner product of the negated entries
   with s, with exactly that noise.
   */
  lemma AccumulateExact(ps: ParamSet, bk: BTKey, s: Poly, z: Poly, acc: seq<Poly>, negA: seq<nat>)
    requires CanRotate(ps, bk, s, z) && IsAcc(ps, acc) && |negA| == ps.n && Reduced(negA, ps.q)
    ensures Supported(ps) && KeyShape(ps, bk) && |s| == ps.n && |z| == ps.N
    ensures RotatedBy(ps, Accumulate(ps, bk, acc, negA), acc, z, Factor(ps) * Inner(negA, s),
                      AccumulateNoise(ps, bk, s, z, acc, negA))
  {
    CanRotateIs(ps, bk, s, z);
    LoopExponentIs(ps, negA, s, 0);
    assert negA[0..] == negA && s[0..] == s;
    if ps.variant.AP? {
      ApLoopExact(ps, bk, s, z, acc, negA, 0, ps.n);
    } else {
      GinxLoopExact(ps, bk, s, z, acc, negA, 0, ps.n);
    }
  }

  lemma BootKeyRotates(ps: ParamSet, bk: BTKey, s: Poly, z: Poly, beta: nat)
    requires IsBootKey(ps, bk, s, z, beta)
    ensures CanRotate(ps, bk, s, z)
  {
  }

  lemma AccumulateSmall(ps: ParamSet, bk: BTKey, s: Poly, z: Poly, beta: nat, acc: seq<Poly>, negA: seq<nat>)
    requires IsBootKey(ps, bk, s, z, beta) && CanRotate(ps, bk, s, z) && IsAcc(ps, acc) && |negA| == ps.n
    requires Supported(ps)
    ensures Small(ps, AccumulateNoise(ps, bk, s, z, acc, negA), RotationError(ps, beta))
  {
    CanRotateIs(ps, bk, s, z);
    if ps.variant.AP? {
      ApLoopSmall(ps, bk, s, z, beta, acc, negA, 0, ps.n);
    } else {
      GinxLoopSmall(ps, bk, s, z, beta, acc, negA, 0, ps.n);
    }
  }

  /** With keys of bounded error, either method rotates by the same exponent up to the rotation error. */
  lemma AccumulatePhase(ps: ParamSet, bk: BTKey, s: Poly, z: Poly, beta: nat, acc: seq<Poly>, negA: seq<nat>)
    requires IsBootKey(ps, bk, s, z, beta) && IsAcc(ps, acc) && |negA| == ps.n && Reduced(negA, ps.q)
    ensures Supported(ps) && KeyShape(ps, bk) && |s| == ps.n && |z| == ps.N
    ensures Rotated(ps, Accumulate(ps, bk, acc, negA), acc, z, Factor(ps) * Inner(negA, s), RotationError(ps, beta))
  {
    BootKeyRotates(ps, bk, s, z, beta);
    AccumulateExact(ps, bk, s, z, acc, negA);
    AccumulateSmall(ps, bk, s, z, beta, acc, negA);
    RotatedWithin(ps, Accumulate(ps, bk, acc, negA), acc, z, Factor(ps) * Inner(negA, s),
                  AccumulateNoise(ps, bk, s, z, acc, negA), RotationError(ps, beta));
  }

  lemma NegatedInner(a: seq<nat>, s: Poly, q: nat)
    requires q > 0 && |a| == |s|
    ensures Cong(Inner(Negated(a, q), s), 0 - Inner(a, s), q)
  {
    NegatedEqv(a, q);
    InnerNegated(Negated(a, q), a, s, q);
  }

  lemma NegatedBelow(a: seq<nat>, q: nat)
    requires q > 0
    ensures Reduced(Negated(a, q), q)
  {
  }

  lemma NegatedEqv(a: seq<nat>, q: nat)
    requires q > 0
    ensures Eqv(Negated(a, q), Scale(-1, a), q)
  {
    var r, m := Negated(a, q), Scale(-1, a);
    forall i | 0 <= i < |a|
      ensures Cong(r[i], m[i], q)
    {
      CongMod(q - a[i], q);
      CongFrom(q - a[i], m[i], 1, q);
    }
    EqvIntro(r, m, q);
  }

  lemma LookupConstant(ps: ParamSet, start: nat, ct: Ct, s: Poly)
    requires Supported(ps) && |ct.a| == |s|
    ensures Factor(ps) > 0
    ensures Cong(Rot(LookupPoly(ps, start, ct.b), Factor(ps) * Inner(Negated(ct.a, ps.q), s))[0],
                 Lookup(Phase(ct, s), start, ps.q, ps.Q), ps.Q)
  {
    FactorTimes(ps);
    NegatedInner(ct.a, s, ps.q);
    PhaseExponent(ps, LookupPoly(ps, start, ct.b), Inner(Negated(ct.a, ps.q), s), 0 - Inner(ct.a, s));
    LookupByRotation(ps, start, ct.b, Inner(ct.a, s));
  }

  /** The noise of the rotation of the lookup polynomial by the phase of ct. */
  ghost function BootstrapNoise(ps: ParamSet, bk: BTKey, s: Poly, z: Poly, start: nat, ct: Ct): (r: Poly)
    requires CanRotate(ps, bk, s, z) && |ct.a| == ps.n
    ensures |r| == ps.N > 0
  {
    CanRotateIs(ps, bk, s, z);
    AccumulateNoise(ps, bk, s, z, StartAcc(ps, start, ct.b), Negated(ct.a, ps.q))
  }

  /** The constant coefficient of the accumulator's phase. */
  ghost function Constant(ps: ParamSet, bk: BTKey, s: Poly, z: Poly, start: nat, ct: Ct): int
    requires CanRotate(ps, bk, s, z) && |ct.a| == ps.n
  {
    CanRotateIs(ps, bk, s, z);
    RowPhase(BootstrapValue(ps, bk, start, ct), z)[0]
  }

  /** The value looked up for the phase of ct, with the noise of the rotation. */
  ghost function NoisyConstant(ps: ParamSet, bk: BTKey, s: Poly, z: Poly, start: nat, ct: Ct): int
    requires CanRotate(ps, bk, s, z) && |ct.a| == ps.n
  {
    CanRotateIs(ps, bk, s, z);
    Lookup(Phase(ct, s), start, ps.q, ps.Q) + BootstrapNoise(ps, bk, s, z, start, ct)[0]
  }

  /**
   Whatever the keys are: the accumulator's phase is the lookup polynomial, rotated by Factor times the inner
   product, plus exactly that noise. Its constant coefficient is the value looked up for the phase of ct, with the
   constant coefficient of the noise.
   */
  lemma BootstrapExact(ps: ParamSet, bk: BTKey, s: Poly, z: Poly, start: nat, ct: Ct)
    requires CanRotate(ps, bk, s, z) && |ct.a| == ps.n
    ensures Supported(ps) && KeyShape(ps, bk) && |s| == ps.n && |z| == ps.N && Factor(ps) > 0
    ensures IsPair(BootstrapValue(ps, bk, start, ct), |z|)
    ensures Eqv(RowPhase(BootstrapValue(ps, bk, start, ct), z),
                Add(Rot(LookupPoly(ps, start, ct.b), Factor(ps) * Inner(Negated(ct.a, ps.q), s)),
                    BootstrapNoise(ps, bk, s, z, start, ct)), ps.Q)
    ensures Cong(Constant(ps, bk, s, z, start, ct), NoisyConstant(ps, bk, s, z, start, ct), ps.Q)
  {
    CanRotateIs(ps, bk, s, z);
    NegatedBelow(ct.a, ps.q);
    LookupConstant(ps, start, ct, s);
    StartPhase(ps, start, ct.b, z);
    AccumulateExact(ps, bk, s, z, StartAcc(ps, start, ct.b), Negated(ct.a, ps.q));
    RotatedConstant(ps, BootstrapValue(ps, bk, start, ct), StartAcc(ps, start, ct.b), z, LookupPoly(ps, start, ct.b),
                    Factor(ps) * Inner(Negated(ct.a, ps.q), s), Lookup(Phase(ct, s), start, ps.q, ps.Q),
                    BootstrapNoise(ps, bk, s, z, start, ct), NoisyConstant(ps, bk, s, z, start, ct));
  }

  lemma RotatedConstant(ps: ParamSet, r: seq<Poly>, acc: seq<Poly>, z: Poly, p: Poly, e: int, v: int, noise: Poly,
                        noisy: int)
    requires Supported(ps) && |z| == ps.N && RotatedBy(ps, r, acc, z, e, noise) && IsPair(acc, |z|)
    requires |p| == ps.N && RowPhase(acc, z) == p && Cong(Rot(p, e)[0], v, ps.Q)
    requires |noise| > 0 && noisy == v + noise[0]
    ensures IsPair(r, |z|) && |noise| == |z| && Eqv(RowPhase(r, z), Add(Rot(p, e), noise), ps.Q)
    ensures Cong(RowPhase(r, z)[0], noisy, ps.Q)
  {
    ConstantOf(RowPhase(r, z), Rot(p, e), noise, v, ps.Q);
  }

  lemma ConstantOf(p: Poly, t: Poly, noise: Poly, v: int, Q: nat)
    requires Q > 0 && |t| == |noise| > 0 && Eqv(p, Add(t, noise), Q) && Cong(t[0], v, Q)
    ensures |p| > 0 && Cong(p[0], v + noise[0], Q)
  {
    EqvElim(p, Add(t, noise), Q);
    assert Cong(p[0], Add(t, noise)[0], Q);
    CongAdd(t[0], v, noise[0], noise[0], Q);
  }

  /** Size of the noise that the constant coefficient gets. */
  ghost function RotationSize(ps: ParamSet, bk: BTKey, s: Poly, z: Poly, start: nat, ct: Ct): nat
    requires CanRotate(ps, bk, s, z) && |ct.a| == ps.n
  {
    CanRotateIs(ps, bk, s, z);
    Dist(BootstrapNoise(ps, bk, s, z, start, ct)[0], ps.Q)
  }

  lemma RotationSmall(ps: ParamSet, bk: BTKey, s: Poly, z: Poly, beta: nat, start: nat, ct: Ct)
    requires IsBootKey(ps, bk, s, z, beta) && CanRotate(ps, bk, s, z) && |ct.a| == ps.n && Supported(ps)
    ensures RotationSize(ps, bk, s, z, start, ct) <= RotationError(ps, beta)
  {
    CanRotateIs(ps, bk, s, z);
    AccumulateSmall(ps, bk, s, z, beta, StartAcc(ps, start, ct.b), Negated(ct.a, ps.q));
    NoiseAtZero(BootstrapNoise(ps, bk, s, z, start, ct), RotationError(ps, beta), ps.Q);
  }

  lemma NoiseAtZero(noise: Poly, d: nat, Q: nat)
    requires Q > 0 && |noise| > 0 && NearPoly(noise, Zero(|noise|), d, Q)
    ensures Dist(noise[0], Q) <= d
  {
    NearElim(noise, Zero(|noise|), d, Q);
    assert Near(noise[0], Zero(|noise|)[0], d, Q);
  }

  /** The constant coefficient of the accumulator's phase is the value looked up for the phase of ct. */
  lemma BootstrapConstant(ps: ParamSet, bk: BTKey, s: Poly, z: Poly, beta: nat, start: nat, ct: Ct)
    requires IsBootKey(ps, bk, s, z, beta) && |ct.a| == ps.n
    ensures Supported(ps) && KeyShape(ps, bk) && |s| == ps.n && |z| == ps.N
    ensures IsPair(BootstrapValue(ps, bk, start, ct), |z|)
    ensures Near(RowPhase(BootstrapValue(ps, bk, start, ct), z)[0], Lookup(Phase(ct, s), start, ps.q, ps.Q),
                 RotationError(ps, beta), ps.Q)
  {
    BootKeyRotates(ps, bk, s, z, beta);
    CanRotateIs(ps, bk, s, z);
    ConstantNear(ps, bk, s, z, beta, start, ct);
  }

  lemma ConstantNear(ps: ParamSet, bk: BTKey, s: Poly, z: Poly, beta: nat, start: nat, ct: Ct)
    requires IsBootKey(ps, bk, s, z, beta) && CanRotate(ps, bk, s, z) && |ct.a| == ps.n && Supported(ps) && |s| == ps.n
    ensures Near(Constant(ps, bk, s, z, start, ct), Lookup(Phase(ct, s), start, ps.q, ps.Q), RotationError(ps, beta),
                 ps.Q)
  {
    BootstrapExact(ps, bk, s, z, start, ct);
    RotationSmall(ps, bk, s, z, beta, start, ct);
    NearByDist(Constant(ps, bk, s, z, start, ct), NoisyConstant(ps, bk, s, z, start, ct),
               Lookup(Phase(ct, s), start, ps.q, ps.Q), BootstrapNoise(ps, bk, s, z, start, ct)[0],
               RotationError(ps, beta), ps.Q);
  }

  lemma NearByDist(x: int, noisy: int, v: int, e: int, d: nat, Q: nat)
    requires Q > 0 && Cong(x, noisy, Q) && noisy == v + e && Dist(e, Q) <= d
    ensures Near(x, v, d, Q)
  {
    CongSub(x, v + e, v, v, Q);
  }

  lemma StartPhase(ps: ParamSet, start: nat, b: nat, z: Poly)
    requires Supported(ps) && |z| == ps.N
    ensures Factor(ps) > 0 && RowPhase(StartAcc(ps, start, b), z) == LookupPoly(ps, start, b)
  {
    FactorTimes(ps);
    MulZeroL(-1, ps.N, z);
    var p := LookupPoly(ps, start, b);
    assert Sub(p, Zero(ps.N)) == p;
  }

  // ---------- extraction ----------

  function TransposeMod(a: Poly, Q: nat): (r: seq<nat>)
    requires Q > 0
    ensures |r| == |a|
    ensures forall i {:trigger r[i]} :: 0 <= i < |a| ==> r[i] == (if i == 0 then a[0] else -a[|a| - i]) % Q
  {
    seq(|a|, i requires 0 <= i < |a| => (if i == 0 then a[0] else -a[|a| - i]) % Q)
  }

  function Extract(acc: seq<Poly>, Q: nat): (r: Ct)
    requires Q > 0 && |acc| == 2 && |acc[0]| == |acc[1]| > 0
    ensures |r.a| == |acc[0]| && Reduced(r.a, Q) && r.b < Q
  {
    Ct(TransposeMod(acc[0], Q), (Q8(Q) + acc[1][0]) % Q)
  }

  /** The extracted LWE phase under the coefficients of z is the constant coefficient of the ring phase plus Q8. */
  lemma ExtractPhase(acc: seq<Poly>, z: Poly, Q: nat)
    requires Q > 0 && |z| > 0 && IsPair(acc, |z|)
    ensures Cong(Phase(Extract(acc, Q), z), Q8(Q) + RowPhase(acc, z)[0], Q)
  {
    var a, r, t := acc[0], TransposeMod(acc[0], Q), Transpose(acc[0]);
    forall i | 0 <= i < |a|
      ensures Cong(r[i], t[i], Q)
    {
      CongMod(t[i], Q);
    }
    EqvIntro(r, t, Q);
    EqvIntro(z, z, Q);
    InnerEqv(r, t, z, z, Q);
    TransposeInner(a, z);
    CongMod(Q8(Q) + acc[1][0], Q);
    CongSub((Q8(Q) + acc[1][0]) % Q, Q8(Q) + acc[1][0], Inner(r, z), Times(a, z)[0], Q);
  }

  // ---------- the way back to modulus q ----------

  /** All that follows blind rotation. */
  function Finish(ps: ParamSet, ks: SwitchKey, acc: seq<Poly>): (r: Ct)
    requires Supported(ps) && SwitchShape(ps, ks) && IsAcc(ps, acc)
    ensures |r.a| == ps.n
  {
    ModSwitchValue(KeySwitchValue(ps, ks, Extract(acc, ps.Q)), ps.q, ps.Q)
  }

  /** Secrets, keys and parameters fit together. */
  ghost predicate KeysFit(ps: ParamSet, bk: BTKey, ks: SwitchKey, s: Poly, z: Poly, betaB: nat, betaK: nat) {
    // A match in place of selectors keeps the definition folded in proofs.
    match ps
    case ParamSet(_, N, _, _, _, _, _, _) =>
      && Supported(ps) && IsBootKey(ps, bk, s, z, betaB) && IsSwitchKey(ps, ks, s, z, betaK)
      && Bounded(s, 1) && KeyShape(ps, bk) && SwitchShape(ps, ks)
  }

  /** Largest error of the selected entries of the switching key. */
  ghost function SelectedError(ps: ParamSet, betaK: nat): nat
    requires Supported(ps)
  {
    Multiple(ps.N, Multiple(DigitsKS(ps), betaK))
  }

  /** Largest error of rounding, scaled by Q: half a unit for b and each of the n entries of a. */
  ghost function RoundingError(ps: ParamSet): nat {
    Multiple(ps.n, ps.Q / 2) + ps.Q / 2
  }

  /** Error modulo Q before modulus switching. */
  ghost function SwitchedError(ps: ParamSet, betaB: nat, betaK: nat): nat
    requires Supported(ps)
  {
    SelectedError(ps, betaK) + RotationError(ps, betaB)
  }

  /** Scaled down to modulus q, an error E and the rounding stay within betaOut. */
  ghost predicate Absorbs(ps: ParamSet, E: nat, betaOut: nat) {
    match ps
    case ParamSet(_, _, q, Q, _, _, _, _) => RoundingError(ps) + q * (E + 2) < Q * (betaOut + 1)
  }

  /** The errors of one bootstrapping stay within betaOut. */
  ghost predicate OutputFits(ps: ParamSet, betaB: nat, betaK: nat, betaOut: nat)
    requires Supported(ps)
  {
    Absorbs(ps, SwitchedError(ps, betaB, betaK), betaOut)
  }

  /** The bit that a lookup window assigns to a phase. */
  function OutBit(x: int, start: nat, q: nat): bool
    requires q > 0
  {
    !InWindow(x, start, q)
  }

  /** The phase of a noiseless encryption of m modulo q. */
  function Quarter(m: bool, q: nat): nat {
    if m then q / 4 else 0
  }

  /** The same modulo Q, as bootstrapping makes it. */
  function TwoEighths(m: bool, Q: nat): nat {
    if m then 2 * Q8(Q) else 0
  }

  /** Q8 added to the two values looked up, -Q8 and Q8, gives 0 and 2 * Q8. */
  lemma LookupShifted(x: int, start: nat, q: nat, Q: nat)
    requires q > 0
    ensures Q8(Q) + Lookup(x, start, q, Q) == TwoEighths(OutBit(x, start, q), Q)
  {
  }

  // ---------- scaling errors down ----------

  lemma DistScaled(x: int, q: nat, Q: nat, M: nat)
    requires q > 0 && Q > 0 && M == q * Q && M > 0
    ensures Q * Dist(x, q) <= Dist(Q * x, M)
  {
    var f, l := Centre(Q * x, M);
    ScaledRemainder(x, l, q, Q, M);
    DistLe(x, x - l * q, l, q);
    AbsTimes(Q, x - l * q);
    MulLe(Dist(x, q), Abs(x - l * q), Q);
  }

  lemma ScaledRemainder(x: int, l: int, q: nat, Q: nat, M: nat)
    requires M == q * Q
    ensures Q * x - l * M == Q * (x - l * q)
  {
    assert l * M == Q * (l * q);
  }

  lemma AbsTimes(c: nat, g: int)
    ensures Abs(c * g) == c * Abs(g)
  {
  }

  lemma NearTimesConstant(x: int, y: int, d: nat, c: nat, Q: nat, M: nat)
    requires Q > 0 && M == c * Q && M > 0 && Near(x, y, d, Q)
    ensures Near(c * x, c * y, c * d, M)
  {
    var e, k := Centre(x - y, Q);
    assert c * x - c * y == c * e + k * M by {
      assert c * (x - y) == c * x - c * y;
      assert c * (e + k * Q) == c * e + k * (c * Q);
    }
    DistLe(c * x - c * y, c * e, k, M);
    assert Abs(c * e) == c * Abs(e);
    MulLe(Abs(e), d, c);
  }

  /** Twice Q8 is a quarter of Q, up to 2 after rounding. */
  lemma EighthsAre(Q: nat, q: nat, m: bool, M: nat)
    requires q > 0 && q % 4 == 0 && Q > 0 && M == q * Q && M > 0
    ensures Near(q * TwoEighths(m, Q), Q * Quarter(m, q), 2 * q, M)
  {
    if m {
      EighthIs(Q, q, q / 4, 8 * Q8(Q) - Q);
      NearIntro(q * (2 * Q8(Q)), Q * (q / 4), (q / 4) * (8 * Q8(Q) - Q), 2 * q, M);
    } else {
      assert q * 0 == 0 && Q * 0 == 0;
      NearIntro(0, 0, 0, 2 * q, M);
    }
  }

  lemma EighthIs(Q: nat, q: nat, h: nat, c: int)
    requires q == 4 * h && c == 8 * Q8(Q) - Q
    ensures q * (2 * Q8(Q)) == Q * h + h * c && 0 <= h * c <= 2 * q
  {
    assert 1 <= c <= 8;
    MulLe(c, 8, h);
    MulLe(0, c, h);
    assert (4 * h) * (2 * Q8(Q)) == h * (8 * Q8(Q));
    assert h * (Q + c) == Q * h + h * c;
  }

  lemma ScaledDown(P: int, R: int, m: bool, D: nat, E: nat, q: nat, Q: nat, M: nat, betaOut: nat)
    requires q > 0 && q % 4 == 0 && Q > 0 && M == q * Q && M > 0
    requires Near(R, TwoEighths(m, Q), E, Q) && Near(Q * P, q * R, D, M)
    requires D + q * (E + 2) < Q * (betaOut + 1)
    ensures Near(P, Quarter(m, q), betaOut, q)
  {
    EighthsAre(Q, q, m, M);
    NearTimesConstant(R, TwoEighths(m, Q), E, q, Q, M);
    ScaledSum(P, R, TwoEighths(m, Q), Quarter(m, q), D, E, q, Q, M);
    Smaller(Dist(P - Quarter(m, q), q), betaOut, Q, D + q * (E + 2));
  }

  lemma ScaledSum(P: int, R: int, T: int, t: int, D: nat, E: nat, q: nat, Q: nat, M: nat)
    requires q > 0 && Q > 0 && M == q * Q && M > 0
    requires Near(q * R, q * T, q * E, M) && Near(Q * P, q * R, D, M) && Near(q * T, Q * t, 2 * q, M)
    ensures Q * Dist(P - t, q) <= D + q * (E + 2)
  {
    NearThrice(Q * P, q * R, q * T, Q * t, D, q * E, 2 * q, M);
    DistScaled(P - t, q, Q, M);
    Difference(Q, P, t);
    Difference(q, E + 2, E);
  }

  lemma NearThrice(x: int, y: int, w: int, v: int, d: int, e: int, f: int, M: int)
    requires M > 0 && Near(x, y, d, M) && Near(y, w, e, M) && Near(w, v, f, M)
    ensures Dist(x - v, M) <= d + e + f
  {
    NearTrans(x, y, w, d, e, M);
    NearTrans(x, w, v, d + e, f, M);
  }

  lemma Difference(c: int, x: int, y: int)
    ensures c * (x - y) == c * x - c * y
  {
  }

  lemma Smaller(x: nat, y: nat, Q: nat, d: nat)
    requires Q > 0 && Q * x <= d && d < Q * (y + 1)
    ensures x <= y
  {
    MulCancel(x, y + 1, Q);
  }

  // ---------- a whole bootstrapping ----------

  /** The ciphertext modulo Q before modulus switching. */
  function Switched(ps: ParamSet, ks: SwitchKey, acc: seq<Poly>): (r: Ct)
    requires Supported(ps) && SwitchShape(ps, ks) && IsAcc(ps, acc)
    ensures |r.a| == ps.n
  {
    KeySwitchValue(ps, ks, Extract(acc, ps.Q))
  }

  /** Shapes of keys, secrets and ciphertext; nothing is said about errors. */
  ghost predicate CanBoot(ps: ParamSet, bk: BTKey, ks: SwitchKey, s: Poly, z: Poly, ct: Ct) {
    // A match in place of selectors keeps the definition folded in proofs.
    match ps
    case ParamSet(n, _, _, _, _, _, _, _) => CanRotate(ps, bk, s, z) && SwitchShape(ps, ks) && |ct.a| == n
  }

  lemma CanBootIs(ps: ParamSet, bk: BTKey, ks: SwitchKey, s: Poly, z: Poly, ct: Ct)
    requires CanBoot(ps, bk, ks, s, z, ct)
    ensures CanRotate(ps, bk, s, z) && SwitchShape(ps, ks) && |ct.a| == ps.n
    ensures Supported(ps) && KeyShape(ps, bk) && |s| == ps.n && |z| == ps.N && ps.q * ps.Q > 0
  {
    CanRotateIs(ps, bk, s, z);
    ProductPositive(ps.q, ps.Q);
  }

  /** The sum of the errors of the key entries that this bootstrapping selects. */
  ghost function SelectedNoise(ps: ParamSet, bk: BTKey, ks: SwitchKey, s: Poly, z: Poly, start: nat, ct: Ct): int
    requires CanBoot(ps, bk, ks, s, z, ct)
  {
    CanBootIs(ps, bk, ks, s, z, ct);
    KeyErrors(ps, ks, s, z, Extract(BootstrapValue(ps, bk, start, ct), ps.Q).a, 0)
  }

  ghost function SelectedSize(ps: ParamSet, bk: BTKey, ks: SwitchKey, s: Poly, z: Poly, start: nat, ct: Ct): nat
    requires CanBoot(ps, bk, ks, s, z, ct)
  {
    CanBootIs(ps, bk, ks, s, z, ct);
    Dist(SelectedNoise(ps, bk, ks, s, z, start, ct), ps.Q)
  }

  /** What rounding adds to the phase, scaled by Q. */
  ghost function RoundedNoise(ps: ParamSet, bk: BTKey, ks: SwitchKey, s: Poly, z: Poly, start: nat, ct: Ct): int
    requires CanBoot(ps, bk, ks, s, z, ct)
  {
    CanBootIs(ps, bk, ks, s, z, ct);
    RoundingNoise(Switched(ps, ks, BootstrapValue(ps, bk, start, ct)), s, ps.q, ps.Q)
  }

  ghost function RoundingSize(ps: ParamSet, bk: BTKey, ks: SwitchKey, s: Poly, z: Poly, start: nat, ct: Ct): nat
    requires CanBoot(ps, bk, ks, s, z, ct)
  {
    CanBootIs(ps, bk, ks, s, z, ct);
    Dist(RoundedNoise(ps, bk, ks, s, z, start, ct), ps.q * ps.Q)
  }

  /** The noisy value looked up plus Q8: 0 or twice Q8 with noise. */
  ghost function NoisyExtract(ps: ParamSet, bk: BTKey, s: Poly, z: Poly, start: nat, ct: Ct): int
    requires CanRotate(ps, bk, s, z) && |ct.a| == ps.n
  {
    Q8(ps.Q) + NoisyConstant(ps, bk, s, z, start, ct)
  }

  /** The same with the noise of the selected key entries. */
  ghost function NoisyLookup(ps: ParamSet, bk: BTKey, ks: SwitchKey, s: Poly, z: Poly, start: nat, ct: Ct): int
    requires CanBoot(ps, bk, ks, s, z, ct)
  {
    CanBootIs(ps, bk, ks, s, z, ct);
    NoisyExtract(ps, bk, s, z, start, ct) - SelectedNoise(ps, bk, ks, s, z, start, ct)
  }

  /** The same scaled by q, with the noise of rounding. */
  ghost function NoisyOutcome(ps: ParamSet, bk: BTKey, ks: SwitchKey, s: Poly, z: Poly, start: nat, ct: Ct): int
    requires CanBoot(ps, bk, ks, s, z, ct)
  {
    ps.q * NoisyLookup(ps, bk, ks, s, z, start, ct) + RoundedNoise(ps, bk, ks, s, z, start, ct)
  }

  lemma ExtractIs(acc: seq<Poly>, z: Poly, v: int, t: int, Q: nat)
    requires Q > 0 && |z| > 0 && IsPair(acc, |z|) && Cong(RowPhase(acc, z)[0], v, Q) && t == Q8(Q) + v
    ensures Cong(Phase(Extract(acc, Q), z), t, Q)
  {
    ExtractPhase(acc, z, Q);
    CongChain(Phase(Extract(acc, Q), z), Q8(Q), RowPhase(acc, z)[0], v, Q);
  }

  lemma SelectIs(ps: ParamSet, ks: SwitchKey, s: Poly, z: Poly, c: Ct, e: int, t: int, u: int)
    requires Supported(ps) && SwitchShape(ps, ks) && |s| == ps.n && |z| == |c.a| == ps.N && Reduced(c.a, ps.Q)
    requires Cong(Phase(c, z), t, ps.Q) && e == KeyErrors(ps, ks, s, z, c.a, 0) && u == t - e
    ensures Cong(Phase(KeySwitchValue(ps, ks, c), s), u, ps.Q)
  {
    KeySwitchPhase(ps, ks, s, z, c);
    CongSub(Phase(c, z), t, e, e, ps.Q);
  }

  lemma SwitchedIs(ps: ParamSet, ks: SwitchKey, s: Poly, z: Poly, acc: seq<Poly>, v: int, t: int, e: int, u: int)
    requires Supported(ps) && SwitchShape(ps, ks) && IsAcc(ps, acc) && |s| == ps.n && |z| == ps.N
    requires Cong(RowPhase(acc, z)[0], v, ps.Q) && t == Q8(ps.Q) + v
    requires e == KeyErrors(ps, ks, s, z, Extract(acc, ps.Q).a, 0) && u == t - e
    ensures Cong(Phase(Switched(ps, ks, acc), s), u, ps.Q)
  {
    ExtractIs(acc, z, v, t, ps.Q);
    SelectIs(ps, ks, s, z, Extract(acc, ps.Q), e, t, u);
  }

  /** Whatever the keys are: that is the phase modulo Q. */
  lemma SwitchedExact(ps: ParamSet, bk: BTKey, ks: SwitchKey, s: Poly, z: Poly, start: nat, ct: Ct)
    requires CanBoot(ps, bk, ks, s, z, ct)
    ensures Supported(ps) && KeyShape(ps, bk) && SwitchShape(ps, ks) && |ct.a| == |s| == ps.n
    ensures Cong(Phase(Switched(ps, ks, BootstrapValue(ps, bk, start, ct)), s),
                 NoisyLookup(ps, bk, ks, s, z, start, ct), ps.Q)
  {
    CanBootIs(ps, bk, ks, s, z, ct);
    BootstrapExact(ps, bk, s, z, start, ct);
    SwitchedIs(ps, ks, s, z, BootstrapValue(ps, bk, start, ct), NoisyConstant(ps, bk, s, z, start, ct),
               NoisyExtract(ps, bk, s, z, start, ct), SelectedNoise(ps, bk, ks, s, z, start, ct),
               NoisyLookup(ps, bk, ks, s, z, start, ct));
  }

  lemma FinishIs(ps: ParamSet, ks: SwitchKey, s: Poly, acc: seq<Poly>, u: int, e: int, w: int)
    requires Supported(ps) && SwitchShape(ps, ks) && IsAcc(ps, acc) && |s| == ps.n && ps.q * ps.Q > 0
    requires Cong(Phase(Switched(ps, ks, acc), s), u, ps.Q)
    requires e == RoundingNoise(Switched(ps, ks, acc), s, ps.q, ps.Q) && w == ps.q * u + e
    ensures Cong(ps.Q * Phase(Finish(ps, ks, acc), s), w, ps.q * ps.Q)
  {
    ModSwitchExact(Switched(ps, ks, acc), s, ps.q, ps.Q, ps.q * ps.Q);
    ScaledUp(ps.Q * Phase(Finish(ps, ks, acc), s), Phase(Switched(ps, ks, acc), s), u, e, ps.q, ps.Q, ps.q * ps.Q);
  }

  /**
   Whatever the keys and the parameters are: the phase of the outcome, times Q, is q times the noisy value looked up,
   plus exactly the noise of rounding, modulo q * Q.
   */
  lemma FinishExact(ps: ParamSet, bk: BTKey, ks: SwitchKey, s: Poly, z: Poly, start: nat, ct: Ct)
    requires CanBoot(ps, bk, ks, s, z, ct)
    ensures Supported(ps) && KeyShape(ps, bk) && SwitchShape(ps, ks) && |ct.a| == |s| == ps.n && ps.q * ps.Q > 0
    ensures Cong(ps.Q * Phase(Finish(ps, ks, BootstrapValue(ps, bk, start, ct)), s),
                 NoisyOutcome(ps, bk, ks, s, z, start, ct), ps.q * ps.Q)
  {
    CanBootIs(ps, bk, ks, s, z, ct);
    SwitchedExact(ps, bk, ks, s, z, start, ct);
    FinishIs(ps, ks, s, BootstrapValue(ps, bk, start, ct), NoisyLookup(ps, bk, ks, s, z, start, ct),
             RoundedNoise(ps, bk, ks, s, z, start, ct), NoisyOutcome(ps, bk, ks, s, z, start, ct));
  }

  lemma ScaledUp(x: int, y: int, v: int, e: int, q: nat, Q: nat, M: nat)
    requires q > 0 && Q > 0 && M == q * Q && M > 0 && Cong(x, q * y + e, M) && Cong(y, v, Q)
    ensures Cong(x, q * v + e, M)
  {
    var k := CongWitness(y, v, Q);
    assert q * (v + k * Q) == q * v + k * (q * Q);
    CongFrom(q * y + e, q * v + e, k, M);
  }

  /** These errors, scaled down to modulus q, stay within betaOut. */
  ghost predicate ErrorsFit(ps: ParamSet, dR: nat, dK: nat, dM: nat, betaOut: nat) {
    match ps
    case ParamSet(_, _, q, Q, _, _, _, _) => dM + q * (dK + dR + 2) < Q * (betaOut + 1)
  }

  /** P is R scaled from modulus Q to modulus q, up to an error d that is scaled by Q. */
  ghost predicate ScaledNear(ps: ParamSet, P: int, R: int, d: nat) {
    // A match in place of selectors keeps the definition folded in proofs.
    match ps
    case ParamSet(_, _, q, Q, _, _, _, _) => q * Q > 0 && Near(Q * P, q * R, d, q * Q)
  }

  /** P is the phase of the bit m modulo q, with noise of size at most beta. */
  ghost predicate PhaseOf(ps: ParamSet, P: int, m: bool, beta: nat) {
    match ps
    case ParamSet(_, _, q, _, _, _, _, _) => q > 0 && Near(P, Quarter(m, q), beta, q)
  }

  /** R is the phase of the bit m modulo Q, with noise of sizes dR and dK at most. */
  ghost predicate PhaseModQ(ps: ParamSet, R: int, m: bool, dR: nat, dK: nat) {
    match ps
    case ParamSet(_, _, _, Q, _, _, _, _) => Q > 0 && Near(R, TwoEighths(m, Q), dK + dR, Q)
  }

  /**
   Whatever secrets and keys are, and however the last step rounds: the phase encodes the bit looked up for the phase
   of ct if the errors of this very run are small.
   */
  lemma FinishActual(ps: ParamSet, bk: BTKey, ks: SwitchKey, s: Poly, z: Poly, start: nat, ct: Ct, out: Ct, dM: nat,
                     betaOut: nat)
    requires CanBoot(ps, bk, ks, s, z, ct) && CanRotate(ps, bk, s, z) && |ct.a| == |out.a| == |s| == ps.n
    requires Supported(ps) && KeyShape(ps, bk) && SwitchShape(ps, ks)
    requires ScaledNear(ps, Phase(out, s), Phase(Switched(ps, ks, BootstrapValue(ps, bk, start, ct)), s), dM)
    requires ErrorsFit(ps, RotationSize(ps, bk, s, z, start, ct), SelectedSize(ps, bk, ks, s, z, start, ct), dM,
                       betaOut)
    ensures PhaseOf(ps, Phase(out, s), OutBit(Phase(ct, s), start, ps.q), betaOut)
  {
    SwitchedNear(ps, bk, ks, s, z, start, ct);
    OutcomeScaled(ps, Phase(out, s), Phase(Switched(ps, ks, BootstrapValue(ps, bk, start, ct)), s),
                  OutBit(Phase(ct, s), start, ps.q), RotationSize(ps, bk, s, z, start, ct),
                  SelectedSize(ps, bk, ks, s, z, start, ct), dM, betaOut);
  }

  lemma OutcomeScaled(ps: ParamSet, P: int, R: int, m: bool, dR: nat, dK: nat, dM: nat, betaOut: nat)
    requires Supported(ps) && ErrorsFit(ps, dR, dK, dM, betaOut)
    requires PhaseModQ(ps, R, m, dR, dK) && ScaledNear(ps, P, R, dM)
    ensures PhaseOf(ps, P, m, betaOut)
  {
    ErrorsFitIs(ps, dR, dK, dM, betaOut, dK + dR, ps.q, ps.Q, ps.q * ps.Q);
    ScaledDown(P, R, m, dM, dK + dR, ps.q, ps.Q, ps.q * ps.Q, betaOut);
  }

  lemma SwitchedNear(ps: ParamSet, bk: BTKey, ks: SwitchKey, s: Poly, z: Poly, start: nat, ct: Ct)
    requires CanBoot(ps, bk, ks, s, z, ct)
    ensures Supported(ps) && CanRotate(ps, bk, s, z) && KeyShape(ps, bk) && SwitchShape(ps, ks)
            && |ct.a| == |s| == ps.n
    ensures PhaseModQ(ps, Phase(Switched(ps, ks, BootstrapValue(ps, bk, start, ct)), s),
                      OutBit(Phase(ct, s), start, ps.q), RotationSize(ps, bk, s, z, start, ct),
                      SelectedSize(ps, bk, ks, s, z, start, ct))
  {
    CanBootIs(ps, bk, ks, s, z, ct);
    SwitchedExact(ps, bk, ks, s, z, start, ct);
    LookupShifted(Phase(ct, s), start, ps.q, ps.Q);
    TwoNoises(Phase(Switched(ps, ks, BootstrapValue(ps, bk, start, ct)), s), Q8(ps.Q),
              Lookup(Phase(ct, s), start, ps.q, ps.Q), TwoEighths(OutBit(Phase(ct, s), start, ps.q), ps.Q),
              BootstrapNoise(ps, bk, s, z, start, ct)[0], SelectedNoise(ps, bk, ks, s, z, start, ct),
              NoisyConstant(ps, bk, s, z, start, ct), NoisyExtract(ps, bk, s, z, start, ct),
              NoisyLookup(ps, bk, ks, s, z, start, ct), RotationSize(ps, bk, s, z, start, ct),
              SelectedSize(ps, bk, ks, s, z, start, ct), ps.Q);
  }

  lemma TwoNoises(x: int, c: int, v: int, target: int, n: int, k: int, w: int, t: int, u: int, dR: nat, dK: nat, Q: nat)
    requires Q > 0 && Cong(x, u, Q) && Dist(n, Q) <= dR && Dist(k, Q) <= dK
    requires w == v + n && t == c + w && u == t - k && c + v == target
    ensures Near(x, target, dK + dR, Q)
  {
    NearBySub(x, target + n, k, dK, Q);
    NearByDist(target + n, target + n, target, n, dR, Q);
    NearTrans(x, target + n, target, dK, dR, Q);
  }

  lemma ErrorsFitIs(ps: ParamSet, dR: nat, dK: nat, dM: nat, betaOut: nat, E: nat, q: nat, Q: nat, M: nat)
    requires Supported(ps) && ErrorsFit(ps, dR, dK, dM, betaOut) && E == dK + dR && q == ps.q && Q == ps.Q && M == q * Q
    ensures dM + q * (E + 2) < Q * (betaOut + 1)
    ensures q > 0 && q % 4 == 0 && Q > 0 && M > 0
  {
    ProductPositive(q, Q);
  }

  lemma ErrorsFitLess(ps: ParamSet, dR: nat, dK: nat, dM: nat, dR': nat, dK': nat, dM': nat, betaOut: nat)
    requires ErrorsFit(ps, dR, dK, dM, betaOut) && dR' <= dR && dK' <= dK && dM' <= dM
    ensures ErrorsFit(ps, dR', dK', dM', betaOut)
  {
    MulLe(dK' + dR' + 2, dK + dR + 2, ps.q);
  }

  /** The exact rounding is one of these ways. */
  lemma RoundedWithin(ps: ParamSet, bk: BTKey, ks: SwitchKey, s: Poly, z: Poly, start: nat, ct: Ct)
    requires CanBoot(ps, bk, ks, s, z, ct)
    ensures Supported(ps) && KeyShape(ps, bk) && SwitchShape(ps, ks) && |ct.a| == |s| == ps.n
    ensures ScaledNear(ps, Phase(Finish(ps, ks, BootstrapValue(ps, bk, start, ct)), s),
                       Phase(Switched(ps, ks, BootstrapValue(ps, bk, start, ct)), s),
                       RoundingSize(ps, bk, ks, s, z, start, ct))
  {
    CanBootIs(ps, bk, ks, s, z, ct);
    RoundsWithin(ps, ks, s, BootstrapValue(ps, bk, start, ct), RoundedNoise(ps, bk, ks, s, z, start, ct),
                 RoundingSize(ps, bk, ks, s, z, start, ct));
  }

  lemma RoundsWithin(ps: ParamSet, ks: SwitchKey, s: Poly, acc: seq<Poly>, e: int, d: nat)
    requires Supported(ps) && SwitchShape(ps, ks) && IsAcc(ps, acc) && |s| == ps.n && ps.q * ps.Q > 0
    requires e == RoundingNoise(Switched(ps, ks, acc), s, ps.q, ps.Q) && Dist(e, ps.q * ps.Q) <= d
    ensures ScaledNear(ps, Phase(Finish(ps, ks, acc), s), Phase(Switched(ps, ks, acc), s), d)
  {
    var x, y := ps.Q * Phase(Finish(ps, ks, acc), s), ps.q * Phase(Switched(ps, ks, acc), s);
    ModSwitchExact(Switched(ps, ks, acc), s, ps.q, ps.Q, ps.q * ps.Q);
    NearByDist(x, y + e, y, e, d, ps.q * ps.Q);
  }

  lemma KeysFitIs(ps: ParamSet, bk: BTKey, ks: SwitchKey, s: Poly, z: Poly, betaB: nat, betaK: nat)
    requires KeysFit(ps, bk, ks, s, z, betaB, betaK)
    ensures Supported(ps) && KeyShape(ps, bk) && SwitchShape(ps, ks) && |s| == ps.n && |z| == ps.N && Bounded(s, 1)
    ensures IsBootKey(ps, bk, s, z, betaB) && IsSwitchKey(ps, ks, s, z, betaK) && CanRotate(ps, bk, s, z)
  {
    BootKeyFits(ps, bk, s, z, betaB);
    BootKeyRotates(ps, bk, s, z, betaB);
  }

  lemma KeysCanBoot(ps: ParamSet, bk: BTKey, ks: SwitchKey, s: Poly, z: Poly, betaB: nat, betaK: nat, ct: Ct)
    requires KeysFit(ps, bk, ks, s, z, betaB, betaK) && |ct.a| == ps.n
    ensures CanBoot(ps, bk, ks, s, z, ct)
  {
    KeysFitIs(ps, bk, ks, s, z, betaB, betaK);
  }

  /** The worst case: errors of keys whose entries have errors of size at most betaB and betaK. */
  lemma WorstErrors(ps: ParamSet, bk: BTKey, ks: SwitchKey, s: Poly, z: Poly, betaB: nat, betaK: nat, start: nat,
                    ct: Ct)
    requires KeysFit(ps, bk, ks, s, z, betaB, betaK) && CanBoot(ps, bk, ks, s, z, ct) && Supported(ps)
    requires CanRotate(ps, bk, s, z) && |ct.a| == ps.n
    ensures RotationSize(ps, bk, s, z, start, ct) <= RotationError(ps, betaB)
    ensures SelectedSize(ps, bk, ks, s, z, start, ct) <= SelectedError(ps, betaK)
    ensures RoundingSize(ps, bk, ks, s, z, start, ct) <= RoundingError(ps)
  {
    KeysFitIs(ps, bk, ks, s, z, betaB, betaK);
    CanBootIs(ps, bk, ks, s, z, ct);
    RotationSmall(ps, bk, s, z, betaB, start, ct);
    KeyErrorsBound(ps, ks, s, z, betaK, Extract(BootstrapValue(ps, bk, start, ct), ps.Q).a, 0);
    RoundingSmall(Switched(ps, ks, BootstrapValue(ps, bk, start, ct)), s, ps.q, ps.Q, ps.q * ps.Q);
  }

  lemma RoundingSmall(ct: Ct, s: Poly, q: nat, Q: nat, M: nat)
    requires q > 0 && Q > 0 && M == q * Q && M > 0 && |ct.a| == |s| && Bounded(s, 1)
    ensures Dist(RoundingNoise(ct, s, q, Q), M) <= Multiple(|s|, Q / 2) + Q / 2
  {
    var x, y := Q * Phase(ModSwitchValue(ct, q, Q), s), q * Phase(ct, s);
    ModSwitchExact(ct, s, q, Q, M);
    ModSwitchPhase(ct, s, q, Q, M);
    CongSub(x, y + RoundingNoise(ct, s, q, Q), y, y, M);
  }

  lemma ProductPositive(x: nat, y: nat)
    requires x > 0 && y > 0
    ensures x * y > 0
  {
    MulLe(1, x, y);
  }

  lemma WorstFits(ps: ParamSet, betaB: nat, betaK: nat, betaOut: nat)
    requires Supported(ps) && OutputFits(ps, betaB, betaK, betaOut)
    ensures ErrorsFit(ps, RotationError(ps, betaB), SelectedError(ps, betaK), RoundingError(ps), betaOut)
  {
  }

  /** After a whole bootstrapping the phase encodes the looked-up bit, with error at most betaOut. */
  lemma FinishPhase(ps: ParamSet, bk: BTKey, ks: SwitchKey, s: Poly, z: Poly, betaB: nat, betaK: nat, betaOut: nat,
                    start: nat, ct: Ct)
    requires KeysFit(ps, bk, ks, s, z, betaB, betaK) && |ct.a| == ps.n
    requires Supported(ps) && OutputFits(ps, betaB, betaK, betaOut)
    ensures KeyShape(ps, bk) && SwitchShape(ps, ks) && |s| == ps.n
    ensures PhaseOf(ps, Phase(Finish(ps, ks, BootstrapValue(ps, bk, start, ct)), s),
                    OutBit(Phase(ct, s), start, ps.q), betaOut)
  {
    WorstRun(ps, bk, ks, s, z, betaB, betaK, betaOut, start, ct);
    RoundedWithin(ps, bk, ks, s, z, start, ct);
    FinishActual(ps, bk, ks, s, z, start, ct, Finish(ps, ks, BootstrapValue(ps, bk, start, ct)),
                 RoundingSize(ps, bk, ks, s, z, start, ct), betaOut);
  }

  /** With keys and parameters that meet the worst-case inequality the errors of every run fit. */
  lemma WorstRun(ps: ParamSet, bk: BTKey, ks: SwitchKey, s: Poly, z: Poly, betaB: nat, betaK: nat, betaOut: nat,
                 start: nat, ct: Ct)
    requires KeysFit(ps, bk, ks, s, z, betaB, betaK) && |ct.a| == ps.n
    requires Supported(ps) && OutputFits(ps, betaB, betaK, betaOut)
    ensures CanBoot(ps, bk, ks, s, z, ct) && CanRotate(ps, bk, s, z) && KeyShape(ps, bk) && SwitchShape(ps, ks)
    ensures |s| == ps.n
    ensures ErrorsFit(ps, RotationSize(ps, bk, s, z, start, ct), SelectedSize(ps, bk, ks, s, z, start, ct),
                      RoundingSize(ps, bk, ks, s, z, start, ct), betaOut)
  {
    KeysFitIs(ps, bk, ks, s, z, betaB, betaK);
    KeysCanBoot(ps, bk, ks, s, z, betaB, betaK, ct);
    WorstErrors(ps, bk, ks, s, z, betaB, betaK, start, ct);
    WorstFits(ps, betaB, betaK, betaOut);
    ErrorsFitLess(ps, RotationError(ps, betaB), SelectedError(ps, betaK), RoundingError(ps),
                  RotationSize(ps, bk, s, z, start, ct), SelectedSize(ps, bk, ks, s, z, start, ct),
                  RoundingSize(ps, bk, ks, s, z, start, ct), betaOut);
  }

  // ---------- the same in double precision ----------

  /** Largest error of rounding in double precision, scaled by Q. */
  ghost function DoubleRoundingError(ps: ParamSet): nat {
    Multiple(ps.n, ps.Q / 2 + Slack(ps.q, ps.Q)) + (ps.Q / 2 + Slack(ps.q, ps.Q))
  }

  /** Whatever double precision makes of the last step, for any moduli, the looked-up bit is encoded. */
  lemma FinishDoubles(ps: ParamSet, bk: BTKey, ks: SwitchKey, s: Poly, z: Poly, betaB: nat, betaK: nat, betaOut: nat,
                      start: nat, ct: Ct, out: Ct)
    requires KeysFit(ps, bk, ks, s, z, betaB, betaK) && |ct.a| == ps.n
    requires Supported(ps) && KeyShape(ps, bk) && SwitchShape(ps, ks) && |s| == ps.n
    requires MaySwitch(out, Switched(ps, ks, BootstrapValue(ps, bk, start, ct)), ps.q, ps.Q)
    requires ErrorsFit(ps, RotationError(ps, betaB), SelectedError(ps, betaK), DoubleRoundingError(ps), betaOut)
    ensures |out.a| == |s|
    ensures PhaseOf(ps, Phase(out, s), OutBit(Phase(ct, s), start, ps.q), betaOut)
  {
    KeysFitIs(ps, bk, ks, s, z, betaB, betaK);
    KeysCanBoot(ps, bk, ks, s, z, betaB, betaK, ct);
    WorstErrors(ps, bk, ks, s, z, betaB, betaK, start, ct);
    ErrorsFitLess(ps, RotationError(ps, betaB), SelectedError(ps, betaK), DoubleRoundingError(ps),
                  RotationSize(ps, bk, s, z, start, ct), SelectedSize(ps, bk, ks, s, z, start, ct),
                  DoubleRoundingError(ps), betaOut);
    DoublesRound(ps, ks, s, BootstrapValue(ps, bk, start, ct), out);
    FinishActual(ps, bk, ks, s, z, start, ct, out, DoubleRoundingError(ps), betaOut);
  }

  lemma DoublesRound(ps: ParamSet, ks: SwitchKey, s: Poly, acc: seq<Poly>, out: Ct)
    requires Supported(ps) && SwitchShape(ps, ks) && IsAcc(ps, acc) && |s| == ps.n && Bounded(s, 1)
    requires MaySwitch(out, Switched(ps, ks, acc), ps.q, ps.Q)
    ensures |out.a| == ps.n
    ensures ScaledNear(ps, Phase(out, s), Phase(Switched(ps, ks, acc), s), DoubleRoundingError(ps))
  {
    ProductPositive(ps.q, ps.Q);
    SwitchedReduced(ps, ks, acc);
    MaySwitchPhase(out, Switched(ps, ks, acc), s, ps.Q / 2 + Slack(ps.q, ps.Q), ps.q, ps.Q, ps.q * ps.Q);
  }

  lemma SwitchedReduced(ps: ParamSet, ks: SwitchKey, acc: seq<Poly>)
    requires Supported(ps) && SwitchShape(ps, ks) && IsAcc(ps, acc)
    ensures Reduced(Switched(ps, ks, acc).a, ps.Q) && Switched(ps, ks, acc).b < ps.Q
  {
    KeySwitchReduced(ps, ks, Extract(acc, ps.Q));
  }

  /** The worst-case bounds written with products. */
  lemma NoiseFormula(ps: ParamSet, betaB: nat, betaK: nat, betaOut: nat)
    requires Supported(ps)
    ensures StepError(ps, betaB) == 2 * DigitsG(ps) * (ps.N * (ps.baseG / 2 * betaB)) + (ps.N + 1) * StepCarry(ps)
    ensures RotationError(ps, betaB) == ps.n * ((if ps.variant.AP? then DigitsR(ps) else 4) * StepError(ps, betaB))
    ensures SwitchedError(ps, betaB, betaK) == ps.N * (DigitsKS(ps) * betaK) + RotationError(ps, betaB)
    ensures OutputFits(ps, betaB, betaK, betaOut)
            <==> (ps.n + 1) * (ps.Q / 2) + ps.q * (SwitchedError(ps, betaB, betaK) + 2) < ps.Q * (betaOut + 1)
  {
    StepFormula(ps, betaB);
    RotationFormula(ps, betaB);
    SwitchedFormula(ps, betaB, betaK);
    FitsFormula(ps, SwitchedError(ps, betaB, betaK), betaOut);
  }

  lemma RotationFormula(ps: ParamSet, beta: nat)
    requires Supported(ps)
    ensures RotationError(ps, beta) == ps.n * ((if ps.variant.AP? then DigitsR(ps) else 4) * StepError(ps, beta))
  {
    var x := StepError(ps, beta);
    MultipleIs(DigitsR(ps), x);
    MultipleIs(4, x);
    MultipleIs(ps.n, Multiple(DigitsR(ps), x));
    MultipleIs(ps.n, Multiple(4, x));
  }

  lemma SwitchedFormula(ps: ParamSet, betaB: nat, betaK: nat)
    requires Supported(ps)
    ensures SwitchedError(ps, betaB, betaK) == ps.N * (DigitsKS(ps) * betaK) + RotationError(ps, betaB)
  {
    MultipleIs(DigitsKS(ps), betaK);
    MultipleIs(ps.N, Multiple(DigitsKS(ps), betaK));
  }

  lemma FitsFormula(ps: ParamSet, E: nat, betaOut: nat)
    ensures Absorbs(ps, E, betaOut) <==> (ps.n + 1) * (ps.Q / 2) + ps.q * (E + 2) < ps.Q * (betaOut + 1)
  {
    MultipleIs(ps.n, ps.Q / 2);
    MulSum(ps.n, 1, ps.Q / 2);
  }

  /** What a dropped carry weighs modulo Q; nothing for an exact gadget. */
  ghost function StepCarry(ps: ParamSet): nat
    requires Supported(ps)
  {
    SupportedGadget(ps);
    CarryWeight(ps.baseG, DigitsG(ps), ps.Q)
  }

  lemma StepFormula(ps: ParamSet, beta: nat)
    requires Supported(ps)
    ensures StepError(ps, beta) == 2 * DigitsG(ps) * (ps.N * (ps.baseG / 2 * beta)) + (ps.N + 1) * StepCarry(ps)
  {
    SupportedGadget(ps);
    MultipleIs(ps.baseG / 2, beta);
    MultipleIs(ps.N, ps.baseG / 2 * beta);
    MultipleIs(2 * DigitsG(ps), ps.N * (ps.baseG / 2 * beta));
    MultipleIs(1 + ps.N, StepCarry(ps));
  }

  /** Rounding alone can cost n/2, so the worst-case inequality bounds the dimension, whatever the keys are. */
  lemma DimensionBound(ps: ParamSet, E: nat, betaOut: nat)
    requires Supported(ps) && Absorbs(ps, E, betaOut) && betaOut < ps.q
    ensures ps.n <= 2 * betaOut
  {
    MultipleIs(ps.n, ps.Q / 2);
    if ps.n >= 2 * betaOut + 1 {
      TooMuchRounding(ps.n, ps.q, ps.Q, ps.Q / 2, E, betaOut);
    }
  }

  lemma TooMuchRounding(n: nat, q: nat, Q: nat, h: nat, E: nat, b: nat)
    requires Q == 2 * h + 1 && n >= 2 * b + 1 && b < q
    ensures n * h + h + q * (E + 2) >= Q * (b + 1)
  {
    MulLe(2 * b + 2, n + 1, h);
    MulLe(2, E + 2, q);
    assert (n + 1) * h == n * h + h;
    assert (2 * b + 2) * h == (2 * h) * (b + 1);
    assert (2 * h + 1) * (b + 1) == (2 * h) * (b + 1) + (b + 1);
  }
}
