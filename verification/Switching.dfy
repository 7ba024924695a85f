/**
 Key switching and modulus switching: what both do to the phase of a ciphertext.
 */
module Switching {
  import opened Arith
  import opened Poly
  import opened Negacyclic
  import opened Params
  import opened Lwe

  // ---------- modulus switching ----------

  /** v * q / Q rounded to the nearest integer, halves up, modulo q. */
  function RoundqQ(v: nat, q: nat, Q: nat): nat
    requires q > 0 && Q > 0
  {
    ((2 * v * q + Q) / (2 * Q)) % q
  }

  /** The residue of -q * v modulo Q that lies in (-Q/2, Q/2]: what rounding adds to v * q / Q, times Q. */
  function RoundOff(v: nat, q: nat, Q: nat): int
    requires Q > 0
  {
    var m := (0 - q * v) % Q;
    if 2 * m <= Q then m else m - Q
  }

  lemma RoundOffIs(x: int, v: nat, q: nat, Q: nat, k: int)
    requires Q > 0 && 0 - Q < 2 * x <= Q && x == Q * k - q * v
    ensures RoundOff(v, q, Q) == x
  {
    assert Q * k == k * Q;
    if x >= 0 {
      ModIntro(0 - q * v, 0 - k, x, Q);
    } else {
      assert (0 - k - 1) * Q == 0 - k * Q - Q;
      ModIntro(0 - q * v, 0 - k - 1, x + Q, Q);
    }
  }

  /** The rounded quotient times Q is q * v plus exactly that, modulo q * Q, even where rounding wraps to 0. */
  lemma RoundExact(v: nat, q: nat, Q: nat, M: nat)
    requires q > 0 && Q > 0 && M == q * Q && M > 0
    ensures RoundqQ(v, q, Q) < q && Cong(Q * RoundqQ(v, q, Q), q * v + RoundOff(v, q, Q), M)
    ensures Abs(RoundOff(v, q, Q)) <= Q / 2
  {
    var k, r := DivMod(2 * v * q + Q, 2 * Q);
    assert 2 * (Q * k - q * v) == Q - r by {
      assert 2 * v * q == 2 * (q * v);
      assert k * (2 * Q) == 2 * (Q * k);
    }
    RoundOffIs(Q * k - q * v, v, q, Q, k);
    ReducedExact(k, v, q, Q, M);
  }

  lemma ReducedExact(k: int, v: nat, q: nat, Q: nat, M: nat)
    requires q > 0 && Q > 0 && M == q * Q && M > 0
    ensures Cong(Q * (k % q), q * v + (Q * k - q * v), M)
  {
    var c, w := DivMod(k, q);
    assert Q * w == Q * k + (-c) * M by {
      assert Q * k == Q * w + c * (q * Q);
    }
    CongFrom(Q * w, Q * k, -c, M);
  }

  lemma RoundError(v: nat, q: nat, Q: nat, M: nat)
    requires q > 0 && Q > 0 && M == q * Q && M > 0
    ensures Near(Q * RoundqQ(v, q, Q), q * v, Q / 2, M)
  {
    RoundExact(v, q, Q, M);
    NearIntro(Q * RoundqQ(v, q, Q), q * v, RoundOff(v, q, Q), Q / 2, M);
  }

  /** An integer near the quotient stays near it when it is reduced modulo q. */
  lemma ReducedNear(k: int, v: nat, h: nat, q: nat, Q: nat, M: nat)
    requires q > 0 && Q > 0 && M == q * Q && M > 0 && Abs(Q * k - q * v) <= h
    ensures Near(Q * (k % q), q * v, h, M)
  {
    var c, w := DivMod(k, q);
    var e := Q * k - q * v;
    assert Q * w == (q * v + e) + (-c) * M by {
      assert Q * k == Q * w + c * (q * Q);
    }
    CongFrom(Q * w, q * v + e, -c, M);
    NearIntro(Q * w, q * v, e, h, M);
  }

  function RoundAll(a: seq<nat>, q: nat, Q: nat): (r: seq<nat>)
    requires q > 0 && Q > 0
    ensures |r| == |a| && forall i {:trigger r[i]} :: 0 <= i < |a| ==> r[i] == RoundqQ(a[i], q, Q)
  {
    seq(|a|, i requires 0 <= i < |a| => RoundqQ(a[i], q, Q))
  }

  function ModSwitchValue(ct: Ct, q: nat, Q: nat): (r: Ct)
    requires q > 0 && Q > 0
    ensures |r.a| == |ct.a|
  {
    Ct(RoundAll(ct.a, q, Q), RoundqQ(ct.b, q, Q))
  }

  method ModSwitch(params: LWECryptoParams, ctQ: LWECiphertext) returns (ct: LWECiphertext)
    requires params.q > 0 && params.Q > 0 && |ctQ.a| == params.n
    ensures fresh(ct) && ct.Value() == ModSwitchValue(ctQ.Value(), params.q, params.Q)
  {
    var a: seq<nat> := [];
    for i := 0 to params.n
      invariant |a| == i && forall l {:trigger a[l]} :: 0 <= l < i ==> a[l] == RoundqQ(ctQ.a[l], params.q, params.Q)
    {
      a := a + [RoundqQ(ctQ.a[i], params.q, params.Q)];
    }
    assert a == RoundAll(ctQ.a, params.q, params.Q);
    ct := new LWECiphertext(a, RoundqQ(ctQ.b, params.q, params.Q));
  }

  function RoundOffs(a: seq<nat>, q: nat, Q: nat): (r: Poly)
    requires Q > 0
    ensures |r| == |a| && forall i {:trigger r[i]} :: 0 <= i < |a| ==> r[i] == RoundOff(a[i], q, Q)
  {
    seq(|a|, i requires 0 <= i < |a| => RoundOff(a[i], q, Q))
  }

  /** What rounding adds to the phase, times Q. */
  ghost function RoundingNoise(ct: Ct, s: Poly, q: nat, Q: nat): int
    requires Q > 0 && |ct.a| == |s|
  {
    RoundOff(ct.b, q, Q) - Inner(RoundOffs(ct.a, q, Q), s)
  }

  /** For every secret: modulus switching scales the phase by q/Q, up to exactly the rounding, modulo q * Q. */
  lemma ModSwitchExact(ct: Ct, s: Poly, q: nat, Q: nat, M: nat)
    requires q > 0 && Q > 0 && M == q * Q && M > 0 && |ct.a| == |s|
    ensures Cong(Q * Phase(ModSwitchValue(ct, q, Q), s), q * Phase(ct, s) + RoundingNoise(ct, s, q, Q), M)
  {
    var r, off := RoundAll(ct.a, q, Q), RoundOffs(ct.a, q, Q);
    RoundedEqv(ct.a, q, Q, M);
    EqvIntro(s, s, M);
    InnerEqv(Scale(Q, r), Add(Scale(q, ct.a), off), s, s, M);
    InnerLinear(r, r, Q, s);
    InnerLinear(Scale(q, ct.a), off, 1, s);
    InnerLinear(ct.a, ct.a, q, s);
    RoundExact(ct.b, q, Q, M);
    RoundedDifference(RoundqQ(ct.b, q, Q), ct.b, RoundOff(ct.b, q, Q), Inner(r, s), Inner(ct.a, s), Inner(off, s), q,
                      Q, M);
  }

  lemma RoundedEqv(a: seq<nat>, q: nat, Q: nat, M: nat)
    requires q > 0 && Q > 0 && M == q * Q && M > 0
    ensures Eqv(Scale(Q, RoundAll(a, q, Q)), Add(Scale(q, a), RoundOffs(a, q, Q)), M)
  {
    var l, r := Scale(Q, RoundAll(a, q, Q)), Add(Scale(q, a), RoundOffs(a, q, Q));
    forall i | 0 <= i < |a|
      ensures Cong(l[i], r[i], M)
    {
      RoundExact(a[i], q, Q, M);
    }
    EqvIntro(l, r, M);
  }

  lemma RoundedDifference(r: int, v: int, x: int, inner: int, inner': int, offs: int, q: int, Q: int, M: nat)
    requires M > 0 && Cong(Q * r, q * v + x, M) && Cong(Q * inner, q * inner' + offs, M)
    ensures Cong(Q * (r - inner), q * (v - inner') + (x - offs), M)
  {
    CongSub(Q * r, q * v + x, Q * inner, q * inner' + offs, M);
    assert Q * (r - inner) == Q * r - Q * inner && q * (v - inner') == q * v - q * inner';
  }

  lemma NearTernary(x: int, y: int, s: int, d: nat, M: int)
    requires M > 0 && Near(x, y, d, M) && -1 <= s <= 1
    ensures Near(s * x, s * y, d, M)
  {
    if s == 1 {
      assert s * x == x && s * y == y;
    } else if s == -1 {
      assert s * x == -x && s * y == -y;
      NearNeg(x, y, d, M);
    } else {
      assert s * x == 0 && s * y == 0;
      NearIntro(0, 0, 0, d, M);
    }
  }

  /** Every entry of r, scaled by Q, is within h of the entry of a, scaled by q. */
  ghost predicate AllRounded(r: seq<nat>, a: seq<nat>, h: nat, q: nat, Q: nat, M: nat) {
    M > 0 && |r| == |a| && forall i {:trigger r[i]} :: 0 <= i < |r| ==> Near(Q * r[i], q * a[i], h, M)
  }

  /** Rounding changes the inner product with a ternary vector by at most h per entry. */
  lemma {:induction false} InnerRounded(r: seq<nat>, a: seq<nat>, s: Poly, h: nat, q: nat, Q: nat, M: nat)
    requires AllRounded(r, a, h, q, Q, M) && |a| == |s| && Bounded(s, 1)
    ensures |r| == |s| && Near(Q * Inner(r, s), q * Inner(a, s), Multiple(|a|, h), M)
    decreases |a|
  {
    if a == [] {
      NearIntro(Q * 0, q * 0, 0, 0, M);
    } else {
      assert Abs(s[0]) <= 1 && Near(Q * r[0], q * a[0], h, M);
      InnerRounded(r[1..], a[1..], s[1..], h, q, Q, M);
      InnerRoundedStep(r[0], a[0], s[0], Inner(r[1..], s[1..]), Inner(a[1..], s[1..]), q, Q, h, Multiple(|a[1..]|, h),
                       M);
    }
  }

  lemma InnerRoundedStep(r0: nat, a0: nat, s0: int, x: int, y: int, q: nat, Q: nat, h: nat, d: nat, M: nat)
    requires M > 0 && Near(Q * r0, q * a0, h, M) && -1 <= s0 <= 1 && Near(Q * x, q * y, d, M)
    ensures Near(Q * (r0 * s0 + x), q * (a0 * s0 + y), d + h, M)
  {
    NearTernary(Q * r0, q * a0, s0, h, M);
    NearAdd(s0 * (Q * r0), s0 * (q * a0), Q * x, q * y, h, d, M);
    Regroup(Q, r0, s0, x);
    Regroup(q, a0, s0, y);
  }

  lemma Regroup(c: int, r: int, s: int, x: int)
    ensures s * (c * r) + c * x == c * (r * s + x)
  {
    assert c * (r * s) == s * (c * r);
  }

  /** However the entries are rounded, the phase is scaled by q/Q up to the error h of each of them, modulo q * Q. */
  lemma RoundedPhase(out: Ct, ct: Ct, s: Poly, h: nat, q: nat, Q: nat, M: nat)
    requires AllRounded(out.a, ct.a, h, q, Q, M) && Near(Q * out.b, q * ct.b, h, M) && |ct.a| == |s| && Bounded(s, 1)
    ensures |out.a| == |s| && Near(Q * Phase(out, s), q * Phase(ct, s), Multiple(|s|, h) + h, M)
  {
    InnerRounded(out.a, ct.a, s, h, q, Q, M);
    ScaledDifference(out.b, ct.b, Inner(out.a, s), Inner(ct.a, s), q, Q, h, Multiple(|s|, h), M);
  }

  /** Modulus switching scales the phase by q/Q up to half a unit per entry, modulo q * Q. */
  lemma ModSwitchPhase(ct: Ct, s: Poly, q: nat, Q: nat, M: nat)
    requires q > 0 && Q > 0 && M == q * Q && M > 0 && |ct.a| == |s| && Bounded(s, 1)
    ensures Near(Q * Phase(ModSwitchValue(ct, q, Q), s), q * Phase(ct, s), Multiple(|s|, Q / 2) + Q / 2, M)
  {
    var r := RoundAll(ct.a, q, Q);
    forall i {:trigger r[i]} | 0 <= i < |r|
      ensures Near(Q * r[i], q * ct.a[i], Q / 2, M)
    {
      RoundError(ct.a[i], q, Q, M);
    }
    RoundError(ct.b, q, Q, M);
    RoundedPhase(ModSwitchValue(ct, q, Q), ct, s, Q / 2, q, Q, M);
  }

  lemma ScaledDifference(r: int, v: int, x: int, y: int, q: int, Q: int, h: nat, d: nat, M: nat)
    requires M > 0 && Near(Q * r, q * v, h, M) && Near(Q * x, q * y, d, M)
    ensures Near(Q * (r - x), q * (v - y), d + h, M)
  {
    NearNeg(Q * x, q * y, d, M);
    NearAdd(Q * r, q * v, -(Q * x), -(q * y), h, d, M);
    assert Q * (r - x) == Q * r + -(Q * x) && q * (v - y) == q * v + -(q * y);
  }

  // ---------- secrets under two moduli ----------

  /** The signed integer that a residue of a secret stands for. */
  function Signed(x: nat, q: nat): int {
    if x > q / 2 then x - q else x
  }

  /** Of all integers congruent to x it is the one in (-q/2, q/2]. */
  lemma SignedIff(x: nat, q: nat, r: int)
    requires x < q
    ensures r == Signed(x, q) <==> Cong(r, x, q) && 0 - q < 2 * r <= q
  {
    CongFrom(Signed(x, q), x, if x > q / 2 then -1 else 0, q);
    if Cong(r, x, q) && 0 - q < 2 * r <= q {
      var k := CongWitness(r, Signed(x, q), q);
      if k >= 1 {
        MulLe(1, k, q);
      } else if k <= -1 {
        MulLe(k, -1, q);
      }
    }
  }

  function SignedKey(sk: PrivateKey): (r: Poly)
    ensures |r| == |sk.element|
    ensures forall i {:trigger r[i]} :: 0 <= i < |r| ==> r[i] == Signed(sk.element[i], sk.modulus)
  {
    seq(|sk.element|, i requires 0 <= i < |sk.element| => Signed(sk.element[i], sk.modulus))
  }

  /** The same signed integers as residues modulo Q. */
  function SwitchModulus(sk: PrivateKey, Q: nat): (r: seq<nat>)
    requires Q > 0
    ensures |r| == |sk.element|
    ensures forall i {:trigger r[i]} :: 0 <= i < |r| ==> r[i] == Signed(sk.element[i], sk.modulus) % Q
  {
    seq(|sk.element|, i requires 0 <= i < |sk.element| => Signed(sk.element[i], sk.modulus) % Q)
  }

  lemma SwitchedKey(sk: PrivateKey, Q: nat)
    requires Q > 0
    ensures Eqv(SwitchModulus(sk, Q), SignedKey(sk), Q)
  {
    var r, s := SwitchModulus(sk, Q), SignedKey(sk);
    forall i | 0 <= i < |r|
      ensures Cong(r[i], s[i], Q)
    {
      CongMod(s[i], Q);
    }
    EqvIntro(r, s, Q);
  }

  lemma StoredKey(sk: PrivateKey)
    requires sk.modulus > 0
    ensures Eqv(sk.element, SignedKey(sk), sk.modulus)
  {
    var s := SignedKey(sk);
    forall i | 0 <= i < |s|
      ensures Cong(sk.element[i], s[i], sk.modulus)
    {
      StoredAt(sk, i);
    }
    EqvIntro(sk.element, s, sk.modulus);
  }

  // ---------- key switching ----------

  function DigitsKS(ps: ParamSet): nat
    requires ps.baseKS >= 2
  {
    DigitCount(ps.baseKS, ps.Q)
  }

  predicate SwitchCell(ps: ParamSet, ks: SwitchKey, i: nat, j: nat, k: nat) {
    match ps
    case ParamSet(n, _, _, _, _, _, _, _) => i < |ks| && j < |ks[i]| && k < |ks[i][j]| && |ks[i][j][k].a| == n
  }

  /** An entry for every coefficient, digit value and digit position, zero digits included. */
  ghost predicate SwitchShape(ps: ParamSet, ks: SwitchKey) {
    match ps
    case ParamSet(n, N, _, Q, baseKS, _, _, _) =>
      baseKS >= 2 &&
      forall i, j, k :: 0 <= i < N && 0 <= j < baseKS && 0 <= k < DigitCount(baseKS, Q) ==> SwitchCell(ps, ks, i, j, k)
  }

  function SubMod(x: seq<nat>, y: seq<nat>, Q: nat): (r: seq<nat>)
    requires |x| == |y| && Q > 0
    ensures |r| == |x| && forall i {:trigger r[i]} :: 0 <= i < |x| ==> r[i] == (x[i] - y[i]) % Q
  {
    seq(|x|, i requires 0 <= i < |x| => (x[i] - y[i]) % Q)
  }

  function SubCt(x: Ct, y: Ct, Q: nat): (r: Ct)
    requires |x.a| == |y.a| && Q > 0
    ensures |r.a| == |x.a|
  {
    Ct(SubMod(x.a, y.a, Q), (x.b - y.b) % Q)
  }

  lemma SubModEqv(x: seq<nat>, y: seq<nat>, Q: nat)
    requires |x| == |y| && Q > 0
    ensures Eqv(SubMod(x, y, Q), Sub(x, y), Q)
  {
    var r, d := SubMod(x, y, Q), Sub(x, y);
    forall i | 0 <= i < |x|
      ensures Cong(r[i], d[i], Q)
    {
      CongMod(d[i], Q);
    }
    EqvIntro(r, d, Q);
  }

  lemma SubPhase(x: Ct, y: Ct, s: Poly, Q: nat)
    requires |x.a| == |y.a| == |s| && Q > 0
    ensures Cong(Phase(SubCt(x, y, Q), s), Phase(x, s) - Phase(y, s), Q)
  {
    SubModEqv(x.a, y.a, Q);
    EqvIntro(s, s, Q);
    InnerEqv(SubMod(x.a, y.a, Q), Sub(x.a, y.a), s, s, Q);
    InnerSub(x.a, y.a, s);
    CongMod(x.b - y.b, Q);
    CongSub((x.b - y.b) % Q, x.b - y.b, Inner(SubMod(x.a, y.a, Q), s), Inner(x.a, s) - Inner(y.a, s), Q);
  }

  /** The digits of t from number k on, each subtracting its key entry. */
  function SwitchDigits(ps: ParamSet, ks: SwitchKey, i: nat, ct: Ct, t: nat, k: nat): (r: Ct)
    requires Supported(ps) && SwitchShape(ps, ks) && i < ps.N && |ct.a| == ps.n && k <= DigitsKS(ps)
    ensures |r.a| == ps.n
    decreases DigitsKS(ps) - k
  {
    if k == DigitsKS(ps) then ct
    else
      var a0 := t % ps.baseKS;
      assert SwitchCell(ps, ks, i, a0, k);
      SwitchDigits(ps, ks, i, SubCt(ct, ks[i][a0][k], ps.Q), t / ps.baseKS, k + 1)
  }

  function SwitchLoop(ps: ParamSet, ks: SwitchKey, aOld: seq<nat>, ct: Ct, i: nat): (r: Ct)
    requires Supported(ps) && SwitchShape(ps, ks) && |aOld| == ps.N && i <= ps.N && |ct.a| == ps.n
    ensures |r.a| == ps.n
    decreases ps.N - i
  {
    if i == ps.N then ct else SwitchLoop(ps, ks, aOld, SwitchDigits(ps, ks, i, ct, aOld[i], 0), i + 1)
  }

  function KeySwitchValue(ps: ParamSet, ks: SwitchKey, ct: Ct): (r: Ct)
    requires Supported(ps) && SwitchShape(ps, ks) && |ct.a| == ps.N
    ensures |r.a| == ps.n
  {
    SwitchLoop(ps, ks, ct.a, Ct(Zero(ps.n), ct.b), 0)
  }

  lemma {:induction false} DigitsReduced(ps: ParamSet, ks: SwitchKey, i: nat, ct: Ct, t: nat, k: nat)
    requires Supported(ps) && SwitchShape(ps, ks) && i < ps.N && |ct.a| == ps.n && k <= DigitsKS(ps)
    requires Reduced(ct.a, ps.Q) && ct.b < ps.Q
    ensures var r := SwitchDigits(ps, ks, i, ct, t, k); Reduced(r.a, ps.Q) && r.b < ps.Q
    decreases DigitsKS(ps) - k
  {
    if k < DigitsKS(ps) {
      var a0 := t % ps.baseKS;
      assert SwitchCell(ps, ks, i, a0, k);
      DigitsReduced(ps, ks, i, SubCt(ct, ks[i][a0][k], ps.Q), t / ps.baseKS, k + 1);
    }
  }

  lemma {:induction false} LoopReduced(ps: ParamSet, ks: SwitchKey, aOld: seq<nat>, ct: Ct, i: nat)
    requires Supported(ps) && SwitchShape(ps, ks) && |aOld| == ps.N && i <= ps.N && |ct.a| == ps.n
    requires Reduced(ct.a, ps.Q) && ct.b < ps.Q
    ensures var r := SwitchLoop(ps, ks, aOld, ct, i); Reduced(r.a, ps.Q) && r.b < ps.Q
    decreases ps.N - i
  {
    if i < ps.N {
      DigitsReduced(ps, ks, i, ct, aOld[i], 0);
      LoopReduced(ps, ks, aOld, SwitchDigits(ps, ks, i, ct, aOld[i], 0), i + 1);
    }
  }

  /** The switched ciphertext consists of residues modulo Q. */
  lemma KeySwitchReduced(ps: ParamSet, ks: SwitchKey, ct: Ct)
    requires Supported(ps) && SwitchShape(ps, ks) && |ct.a| == ps.N && ct.b < ps.Q
    ensures var r := KeySwitchValue(ps, ks, ct); Reduced(r.a, ps.Q) && r.b < ps.Q
  {
    LoopReduced(ps, ks, ct.a, Ct(Zero(ps.n), ct.b), 0);
  }

  /** What entry (i, j, k) encrypts besides z_i * j * baseKS^k. */
  ghost function EntryError(ps: ParamSet, ks: SwitchKey, s: Poly, z: Poly, i: nat, j: nat, k: nat): int
    requires |s| == ps.n && i < |z| && SwitchCell(ps, ks, i, j, k)
  {
    Phase(ks[i][j][k], s) - z[i] * (j * Pow(ps.baseKS, k))
  }

  /** The errors of the entries that the digits of t from number k on select. */
  ghost function DigitErrors(ps: ParamSet, ks: SwitchKey, s: Poly, z: Poly, i: nat, t: nat, k: nat): int
    requires Supported(ps) && SwitchShape(ps, ks) && |s| == ps.n && i < |z| == ps.N && k <= DigitsKS(ps)
    decreases DigitsKS(ps) - k
  {
    if k == DigitsKS(ps) then 0
    else
      assert SwitchCell(ps, ks, i, t % ps.baseKS, k);
      EntryError(ps, ks, s, z, i, t % ps.baseKS, k) + DigitErrors(ps, ks, s, z, i, t / ps.baseKS, k + 1)
  }

  /** The errors of all entries that the coefficients of a from number i on select. */
  ghost function KeyErrors(ps: ParamSet, ks: SwitchKey, s: Poly, z: Poly, a: seq<nat>, i: nat): int
    requires Supported(ps) && SwitchShape(ps, ks) && |s| == ps.n && i <= |z| == |a| == ps.N
    decreases ps.N - i
  {
    if i == ps.N then 0 else DigitErrors(ps, ks, s, z, i, a[i], 0) + KeyErrors(ps, ks, s, z, a, i + 1)
  }

  /** What the first digits of t stand for; all of t if they cover it. */
  function Covered(t: nat, base: nat, digits: nat): nat
    requires base > 0
    decreases digits
  {
    if digits == 0 then 0
    else
      DigitFits(t, base);
      t % base + Covered(t / base, base, digits - 1) * base
  }

  lemma {:induction false} CoveredIs(t: nat, base: nat, digits: nat)
    requires base >= 2 && t < Pow(base, digits)
    ensures Covered(t, base, digits) == t
    decreases digits
  {
    if digits > 0 {
      var k, r := DivMod(t, base);
      DigitSplit(t, base, r, k, Pow(base, digits - 1));
      CoveredIs(k, base, digits - 1);
    }
  }

  /** The phase after the digits: z_i * t * baseKS^k and the selected errors are subtracted. */
  lemma {:induction false} SwitchDigitsPhase(ps: ParamSet, ks: SwitchKey, s: Poly, z: Poly, i: nat, ct: Ct, t: nat,
                                             k: nat)
    requires Supported(ps) && SwitchShape(ps, ks) && |s| == ps.n && i < |z| == ps.N && |ct.a| == ps.n
             && k <= DigitsKS(ps)
    ensures Cong(Phase(SwitchDigits(ps, ks, i, ct, t, k), s),
                 Phase(ct, s) - z[i] * (Covered(t, ps.baseKS, DigitsKS(ps) - k) * Pow(ps.baseKS, k))
                 - DigitErrors(ps, ks, s, z, i, t, k), ps.Q)
    decreases DigitsKS(ps) - k
  {
    if k == DigitsKS(ps) {
      assert z[i] * (0 * Pow(ps.baseKS, k)) == 0;
    } else {
      var a0, up := LowestKS(t, ps.baseKS);
      assert SwitchCell(ps, ks, i, a0, k);
      SwitchDigitsPhase(ps, ks, s, z, i, SubCt(ct, ks[i][a0][k], ps.Q), up, k + 1);
      SubPhase(ct, ks[i][a0][k], s, ps.Q);
      OneDigit(Phase(SwitchDigits(ps, ks, i, ct, t, k), s), Phase(SubCt(ct, ks[i][a0][k], ps.Q), s), Phase(ct, s),
               Phase(ks[i][a0][k], s), z[i], Covered(t, ps.baseKS, DigitsKS(ps) - k), a0,
               Covered(up, ps.baseKS, DigitsKS(ps) - (k + 1)), ps.baseKS, Pow(ps.baseKS, k),
               DigitErrors(ps, ks, s, z, i, up, k + 1), ps.Q);
    }
  }

  lemma LowestKS(t: nat, base: nat) returns (a0: nat, up: nat)
    requires base > 0
    ensures a0 == t % base < base && up == t / base
  {
    up, a0 := DivMod(t, base);
  }

  lemma OneDigit(last: int, mid: int, first: int, entry: int, z: int, t: int, a0: int, up: int, base: int, p: int,
                 errs: int, Q: nat)
    requires Q > 0 && Cong(mid, first - entry, Q) && Cong(last, mid - z * (up * (base * p)) - errs, Q)
    requires t == a0 + up * base
    ensures Cong(last, first - z * (t * p) - ((entry - z * (a0 * p)) + errs), Q)
  {
    SplitTerm(z, t, a0, up, base, p);
    var rest := z * (up * (base * p)) + errs;
    CongSub(mid, first - entry, rest, rest, Q);
  }

  lemma SplitTerm(z: int, t: int, a0: int, up: int, base: int, p: int)
    requires t == a0 + up * base
    ensures z * (t * p) == z * (a0 * p) + z * (up * (base * p))
  {
    assert (up * base) * p == up * (base * p);
    assert t * p == a0 * p + up * (base * p);
  }

  lemma {:induction false} SwitchLoopPhase(ps: ParamSet, ks: SwitchKey, s: Poly, z: Poly, a: seq<nat>, ct: Ct, i: nat)
    requires Supported(ps) && SwitchShape(ps, ks) && |s| == ps.n && i <= |z| == |a| == ps.N && |ct.a| == ps.n
    ensures Cong(Phase(SwitchLoop(ps, ks, a, ct, i), s),
                 Phase(ct, s) - Inner(CoveredAll(ps, a)[i..], z[i..]) - KeyErrors(ps, ks, s, z, a, i), ps.Q)
    decreases ps.N - i
  {
    if i < ps.N {
      var c := CoveredAll(ps, a);
      SwitchDigitsPhase(ps, ks, s, z, i, ct, a[i], 0);
      SwitchLoopPhase(ps, ks, s, z, a, SwitchDigits(ps, ks, i, ct, a[i], 0), i + 1);
      InnerHead(c, z, i);
      PowZero(z[i], c[i], ps.baseKS);
      OneMore(Phase(SwitchLoop(ps, ks, a, ct, i), s), Phase(SwitchDigits(ps, ks, i, ct, a[i], 0), s), Phase(ct, s),
              c[i] * z[i], DigitErrors(ps, ks, s, z, i, a[i], 0), Inner(c[i + 1..], z[i + 1..]),
              KeyErrors(ps, ks, s, z, a, i + 1), ps.Q);
    }
  }

  /** What the digits of all coefficients stand for. */
  function CoveredAll(ps: ParamSet, a: seq<nat>): (r: seq<nat>)
    requires ps.baseKS >= 2
    ensures |r| == |a|
    ensures forall i {:trigger r[i]} :: 0 <= i < |a| ==> r[i] == Covered(a[i], ps.baseKS, DigitsKS(ps))
  {
    seq(|a|, i requires 0 <= i < |a| => Covered(a[i], ps.baseKS, DigitsKS(ps)))
  }

  /** For coefficients modulo Q these are the coefficients themselves. */
  lemma CoveredAllIs(ps: ParamSet, a: seq<nat>)
    requires Supported(ps) && Reduced(a, ps.Q)
    ensures CoveredAll(ps, a) == a
  {
    DigitCountLeast(ps.baseKS, ps.Q);
    forall i | 0 <= i < |a|
      ensures CoveredAll(ps, a)[i] == a[i]
    {
      CoveredIs(a[i], ps.baseKS, DigitsKS(ps));
    }
  }

  lemma PowZero(z: int, t: int, base: nat)
    ensures z * (t * Pow(base, 0)) == t * z
  {
  }

  lemma OneMore(last: int, mid: int, first: int, x: int, err: int, rest: int, errs: int, Q: nat)
    requires Q > 0 && Cong(mid, first - x - err, Q) && Cong(last, mid - rest - errs, Q)
    ensures Cong(last, first - (x + rest) - (err + errs), Q)
  {
    CongSub(mid, first - x - err, rest + errs, rest + errs, Q);
  }

  /**
   For every ciphertext, reduced or not: the phase of what the digits cover, less the errors of the
   selected entries.
   */
  lemma KeySwitchExact(ps: ParamSet, ks: SwitchKey, s: Poly, z: Poly, ct: Ct)
    requires Supported(ps) && SwitchShape(ps, ks) && |s| == ps.n && |z| == |ct.a| == ps.N
    ensures Cong(Phase(KeySwitchValue(ps, ks, ct), s),
                 ct.b - Inner(CoveredAll(ps, ct.a), z) - KeyErrors(ps, ks, s, z, ct.a, 0), ps.Q)
  {
    var c := CoveredAll(ps, ct.a);
    SwitchLoopPhase(ps, ks, s, z, ct.a, Ct(Zero(ps.n), ct.b), 0);
    assert c[0..] == c && z[0..] == z;
    ZeroInner(Zero(ps.n), s);
  }

  /** Key switching keeps the phase exactly, up to the errors of the key entries it selects. */
  lemma KeySwitchPhase(ps: ParamSet, ks: SwitchKey, s: Poly, z: Poly, ct: Ct)
    requires Supported(ps) && SwitchShape(ps, ks) && |s| == ps.n && |z| == |ct.a| == ps.N && Reduced(ct.a, ps.Q)
    ensures Cong(Phase(KeySwitchValue(ps, ks, ct), s), Phase(ct, z) - KeyErrors(ps, ks, s, z, ct.a, 0), ps.Q)
  {
    KeySwitchExact(ps, ks, s, z, ct);
    CoveredAllIs(ps, ct.a);
  }

  ghost predicate EntryBounded(ps: ParamSet, ks: SwitchKey, s: Poly, z: Poly, beta: nat, i: nat, j: nat, k: nat)
    requires |s| == ps.n && i < |z| && ps.Q > 0
  {
    SwitchCell(ps, ks, i, j, k) && Dist(EntryError(ps, ks, s, z, i, j, k), ps.Q) <= beta
  }

  /** A key that switches from z to s, every entry with error at most beta. */
  ghost predicate IsSwitchKey(ps: ParamSet, ks: SwitchKey, s: Poly, z: Poly, beta: nat) {
    match ps
    case ParamSet(n, N, _, Q, baseKS, _, _, _) =>
      && Supported(ps) && SwitchShape(ps, ks) && |s| == n && |z| == N
      && forall i, j, k :: 0 <= i < N && 0 <= j < baseKS && 0 <= k < DigitsKS(ps) ==>
          EntryBounded(ps, ks, s, z, beta, i, j, k)
  }

  lemma {:induction false} DigitErrorsBound(ps: ParamSet, ks: SwitchKey, s: Poly, z: Poly, beta: nat, i: nat, t: nat,
                                            k: nat)
    requires IsSwitchKey(ps, ks, s, z, beta) && i < ps.N && k <= DigitsKS(ps)
    ensures Dist(DigitErrors(ps, ks, s, z, i, t, k), ps.Q) <= Multiple(DigitsKS(ps) - k, beta)
    decreases DigitsKS(ps) - k
  {
    if k < DigitsKS(ps) {
      var a0, up := t % ps.baseKS, t / ps.baseKS;
      assert EntryBounded(ps, ks, s, z, beta, i, a0, k);
      DigitErrorsBound(ps, ks, s, z, beta, i, up, k + 1);
      DistTriangle(EntryError(ps, ks, s, z, i, a0, k), DigitErrors(ps, ks, s, z, i, up, k + 1), ps.Q);
    } else {
      DistLe(0, 0, 0, ps.Q);
    }
  }

  /** N * DigitsKS entries are selected. */
  lemma {:induction false} KeyErrorsBound(ps: ParamSet, ks: SwitchKey, s: Poly, z: Poly, beta: nat, a: seq<nat>, i: nat)
    requires IsSwitchKey(ps, ks, s, z, beta) && |a| == ps.N && i <= ps.N
    ensures Dist(KeyErrors(ps, ks, s, z, a, i), ps.Q) <= Multiple(ps.N - i, Multiple(DigitsKS(ps), beta))
    decreases ps.N - i
  {
    if i < ps.N {
      DigitErrorsBound(ps, ks, s, z, beta, i, a[i], 0);
      KeyErrorsBound(ps, ks, s, z, beta, a, i + 1);
      DistTriangle(DigitErrors(ps, ks, s, z, i, a[i], 0), KeyErrors(ps, ks, s, z, a, i + 1), ps.Q);
    } else {
      DistLe(0, 0, 0, ps.Q);
    }
  }

  lemma KeySwitchNear(ps: ParamSet, ks: SwitchKey, s: Poly, z: Poly, beta: nat, ct: Ct)
    requires IsSwitchKey(ps, ks, s, z, beta) && |ct.a| == ps.N && Reduced(ct.a, ps.Q)
    ensures Near(Phase(KeySwitchValue(ps, ks, ct), s), Phase(ct, z), Multiple(ps.N, Multiple(DigitsKS(ps), beta)), ps.Q)
  {
    var e := KeyErrors(ps, ks, s, z, ct.a, 0);
    KeySwitchPhase(ps, ks, s, z, ct);
    KeyErrorsBound(ps, ks, s, z, beta, ct.a, 0);
    NearBySub(Phase(KeySwitchValue(ps, ks, ct), s), Phase(ct, z), e, Multiple(ps.N, Multiple(DigitsKS(ps), beta)),
              ps.Q);
  }

  lemma NearBySub(x: int, y: int, e: int, d: nat, Q: nat)
    requires Q > 0 && Cong(x, y - e, Q) && Dist(e, Q) <= d
    ensures Near(x, y, d, Q)
  {
    CongSub(x, y - e, y, y, Q);
    DistNeg(e, Q);
  }

  // ---------- the methods ----------

  /** The parameters of the LWE part of a whole parameter set. */
  ghost predicate Agrees(params: LWECryptoParams, ps: ParamSet)
    reads params
  {
    && params.Valid() && Supported(ps)
    && params.n == ps.n && params.N == ps.N && params.q == ps.q && params.Q == ps.Q && params.baseKS == ps.baseKS
  }

  method Subtract(x: seq<nat>, y: seq<nat>, Q: nat) returns (a: seq<nat>)
    requires |x| == |y| && Q > 0
    ensures a == SubMod(x, y, Q)
  {
    a := x;
    for k := 0 to |x|
      invariant |a| == |x|
      invariant forall l {:trigger a[l]} :: 0 <= l < |x| ==> a[l] == if l < k then (x[l] - y[l]) % Q else x[l]
    {
      a := a[k := (a[k] - y[k]) % Q];
    }
    assert a == SubMod(x, y, Q);
  }

  method KeySwitch(params: LWECryptoParams, ghost ps: ParamSet, K: SwitchKey, ctQN: LWECiphertext)
    returns (ct: LWECiphertext)
    requires Agrees(params, ps) && SwitchShape(ps, K) && |ctQN.a| == params.N
    ensures fresh(ct) && ct.Value() == KeySwitchValue(ps, K, ctQN.Value())
  {
    var a: seq<nat>, b: nat, aOld := Zero(params.n), ctQN.b, ctQN.a;
    for i := 0 to params.N
      invariant |a| == ps.n
      invariant SwitchLoop(ps, K, aOld, Ct(a, b), i) == KeySwitchValue(ps, K, ctQN.Value())
    {
      a, b := SwitchCoefficient(params, ps, K, i, aOld[i], a, b);
    }
    ct := new LWECiphertext(a, b);
  }

  /** The loop over the digits of one coefficient. */
  method SwitchCoefficient(params: LWECryptoParams, ghost ps: ParamSet, K: SwitchKey, i: nat, t: nat, a0: seq<nat>,
                           b0: nat)
    returns (a: seq<nat>, b: nat)
    requires Agrees(params, ps) && SwitchShape(ps, K) && i < ps.N && |a0| == ps.n
    ensures |a| == ps.n && Ct(a, b) == SwitchDigits(ps, K, i, Ct(a0, b0), t, 0)
  {
    a, b := a0, b0;
    var atmp: nat, j: nat := t, 0;
    while j < |params.digitsKS|
      invariant j <= |params.digitsKS| == DigitsKS(ps) && |a| == ps.n
      invariant SwitchDigits(ps, K, i, Ct(a, b), atmp, j) == SwitchDigits(ps, K, i, Ct(a0, b0), t, 0)
    {
      var digit := atmp % params.baseKS;
      assert SwitchCell(ps, K, i, digit, j);
      a := Subtract(a, K[i][digit][j].a, params.Q);
      b := (b - K[i][digit][j].b) % params.Q;
      DivNat(atmp, params.baseKS);
      j, atmp := j + 1, atmp / params.baseKS;
    }
  }

  /** The sum that key-switch generation computes for an entry, but for wrap-around. */
  function EntryTotal(sk: PrivateKey, z: nat, x: nat, a: seq<nat>, e: nat, Q: nat): int
    requires Q > 0 && |a| == |sk.element|
  {
    (e + z * Word(x)) % Q + Sum(Products(a, SwitchModulus(sk, Q), Q), |a|)
  }

  /** An entry made from the uniform vector a and the error e (reduced modulo Q) for the multiple x of z. */
  ghost predicate FreshEntry(ct: Ct, sk: PrivateKey, z: nat, x: nat, a: seq<nat>, e: nat, Q: nat)
    requires Q > 0
  {
    && ct.a == a && |a| == |sk.element| && ct.b < Q
    && Cong(Phase(ct, SignedKey(sk)), e + z * Word(x) - TakenOff(EntryTotal(sk, z, x, a, e, Q)), Q)
  }

  method SwitchEntry(sk: PrivateKey, newSK: seq<nat>, z: nat, x: nat, a: seq<nat>, e: nat, Q: nat) returns (ct: Ct)
    requires 0 < Q < WORD_SIZE && newSK == SwitchModulus(sk, Q) && |a| == |sk.element| && e < Q
    ensures FreshEntry(ct, sk, z, x, a, e, Q)
  {
    var b0 := (e + (z * (Word(x) % Q)) % Q) % Q;
    var sum := AddProducts(b0, a, newSK, Q);
    ct := Ct(a, sum % Q);
    StartOfEntry(b0, z, x, e, Q);
    SwitchEntryPhase(ct, sk, newSK, z, x, e, Q, b0, sum, EntryTotal(sk, z, x, a, e, Q));
  }

  lemma SwitchEntryPhase(ct: Ct, sk: PrivateKey, newSK: seq<nat>, z: nat, x: nat, e: nat, Q: nat, b0: nat, sum: nat,
                         total: int)
    requires 0 < Q < WORD_SIZE && newSK == SwitchModulus(sk, Q) && |ct.a| == |sk.element|
    requires b0 == (e + z * Word(x)) % Q && total == b0 + Sum(Products(ct.a, newSK, Q), |ct.a|)
    requires sum == Accumulated(b0, Products(ct.a, newSK, Q), |ct.a|) && ct.b == sum % Q
    ensures Cong(Phase(ct, SignedKey(sk)), e + z * Word(x) - TakenOff(total), Q)
  {
    AccumulatedIs(b0, Products(ct.a, newSK, Q), |ct.a|);
    ProductSumInner(ct.a, newSK, Q);
    WrappedPhase(ct.b, total, b0, Sum(Products(ct.a, newSK, Q), |ct.a|), Inner(ct.a, newSK), Q);
    CongMod(e + z * Word(x), Q);
    CongSub(b0, e + z * Word(x), TakenOff(total), TakenOff(total), Q);
    SwitchedKey(sk, Q);
    PhaseCong(ct, newSK, SignedKey(sk), Q);
  }

  lemma StartOfEntry(b0: nat, z: nat, x: nat, e: nat, Q: nat)
    requires Q > 0 && b0 == (e + (z * (Word(x) % Q)) % Q) % Q
    ensures b0 == (e + z * Word(x)) % Q
  {
    CongMod(Word(x), Q);
    CongMulL(z, Word(x) % Q, Word(x), Q);
    CongMod(z * (Word(x) % Q), Q);
    CongAdd(e, e, (z * (Word(x) % Q)) % Q, z * Word(x), Q);
  }

  /** The entries of one digit value j. */
  ghost predicate FreshDigits(ps: ParamSet, row: seq<Ct>, sk: PrivateKey, z: nat, i: nat, j: nat, count: nat,
                              sampleA: (nat, nat, nat) -> seq<nat>, sampleE: (nat, nat, nat) -> nat)
    requires ps.Q > 0
  {
    |row| == count && forall k {:trigger row[k]} :: 0 <= k < count ==>
      FreshEntry(row[k], sk, z, j * Pow(ps.baseKS, k), sampleA(i, j, k), sampleE(i, j, k), ps.Q)
  }

  ghost predicate FreshValues(ps: ParamSet, rows: seq<seq<Ct>>, sk: PrivateKey, z: nat, i: nat, values: nat,
                              sampleA: (nat, nat, nat) -> seq<nat>, sampleE: (nat, nat, nat) -> nat)
    requires ps.Q > 0 && ps.baseKS >= 2
  {
    |rows| == values && forall j {:trigger rows[j]} :: 0 <= j < values ==>
      FreshDigits(ps, rows[j], sk, z, i, j, DigitsKS(ps), sampleA, sampleE)
  }

  ghost predicate FreshKey(ps: ParamSet, K: SwitchKey, sk: PrivateKey, skN: PrivateKey, count: nat,
                           sampleA: (nat, nat, nat) -> seq<nat>, sampleE: (nat, nat, nat) -> nat)
    requires ps.Q > 0 && ps.baseKS >= 2 && count <= |skN.element|
  {
    |K| == count && forall i {:trigger K[i]} :: 0 <= i < count ==>
      FreshValues(ps, K[i], sk, skN.element[i], i, ps.baseKS, sampleA, sampleE)
  }

  /** The switching key from skN to sk; uniform vectors and errors are given as functions of the position. */
  method KeySwitchGen(params: LWECryptoParams, ghost ps: ParamSet, sk: PrivateKey, skN: PrivateKey,
                      sampleA: (nat, nat, nat) -> seq<nat>, sampleE: (nat, nat, nat) -> nat) returns (K: SwitchKey)
    requires Agrees(params, ps) && params.Q < WORD_SIZE && |sk.element| == params.n && |skN.element| == params.N
    requires forall i, j, k :: |sampleA(i, j, k)| == params.n && sampleE(i, j, k) < params.Q
    ensures FreshKey(ps, K, sk, skN, ps.N, sampleA, sampleE)
  {
    var newSK := SwitchModulus(sk, params.Q);
    K := [];
    for i := 0 to params.N
      invariant FreshKey(ps, K, sk, skN, i, sampleA, sampleE)
    {
      var vector1 := [];
      for j := 0 to params.baseKS
        invariant FreshValues(ps, vector1, sk, skN.element[i], i, j, sampleA, sampleE)
      {
        var vector2 := [];
        for k := 0 to |params.digitsKS|
          invariant FreshDigits(ps, vector2, sk, skN.element[i], i, j, k, sampleA, sampleE)
        {
          var ct := SwitchEntry(sk, newSK, skN.element[i], j * params.digitsKS[k], sampleA(i, j, k), sampleE(i, j, k),
                                params.Q);
          vector2 := vector2 + [ct];
        }
        vector1 := vector1 + [vector2];
      }
      K := K + [vector1];
    }
  }

  /** All sums of key-switch generation fit in words. */
  ghost predicate KeyWordsFit(ps: ParamSet)
    requires ps.Q > 0 && ps.baseKS >= 2
  {
    WordsFit(ps.Q - 1, ps.n, ps.Q) && Pow(ps.baseKS, DigitsKS(ps)) <= WORD_SIZE
  }

  /** The generated key switches from the secret skN to the secret sk. */
  lemma FreshKeySwitches(ps: ParamSet, K: SwitchKey, sk: PrivateKey, skN: PrivateKey, beta: nat,
                         sampleA: (nat, nat, nat) -> seq<nat>, sampleE: (nat, nat, nat) -> nat)
    requires Supported(ps) && |sk.element| == ps.n && |skN.element| == ps.N && skN.modulus == ps.Q
    requires FreshKey(ps, K, sk, skN, ps.N, sampleA, sampleE) && KeyWordsFit(ps)
    requires forall i, j, k :: Dist(sampleE(i, j, k), ps.Q) <= beta
    ensures IsSwitchKey(ps, K, SignedKey(sk), SignedKey(skN), beta)
  {
    var s, z := SignedKey(sk), SignedKey(skN);
    forall i, j, k | 0 <= i < ps.N && 0 <= j < ps.baseKS && 0 <= k < DigitsKS(ps)
      ensures SwitchCell(ps, K, i, j, k) && EntryBounded(ps, K, s, z, beta, i, j, k)
    {
      assert FreshValues(ps, K[i], sk, skN.element[i], i, ps.baseKS, sampleA, sampleE);
      assert FreshDigits(ps, K[i][j], sk, skN.element[i], i, j, DigitsKS(ps), sampleA, sampleE);
      DigitBelow(j, ps.baseKS, k, DigitsKS(ps), j * Pow(ps.baseKS, k));
      FreshEntryBounded(ps, K, sk, skN, beta, i, j, k, j * Pow(ps.baseKS, k), sampleA(i, j, k), sampleE(i, j, k));
    }
  }

  lemma FreshEntryBounded(ps: ParamSet, K: SwitchKey, sk: PrivateKey, skN: PrivateKey, beta: nat, i: nat, j: nat,
                          k: nat,
                          x: nat, a: seq<nat>, e: nat)
    requires ps.Q > 0 && |sk.element| == ps.n && i < |skN.element| && skN.modulus == ps.Q
    requires SwitchCell(ps, K, i, j, k) && Dist(e, ps.Q) <= beta && x == j * Pow(ps.baseKS, k)
    requires FreshEntry(K[i][j][k], sk, skN.element[i], x, a, e, ps.Q) && x < WORD_SIZE
             && WordsFit(ps.Q - 1, ps.n, ps.Q)
    ensures EntryBounded(ps, K, SignedKey(sk), SignedKey(skN), beta, i, j, k)
  {
    FreshPhase(K[i][j][k], sk, skN.element[i], x, a, e, ps.Q, ps.n);
    StoredAt(skN, i);
    ErrorRemains(Phase(K[i][j][k], SignedKey(sk)), e, skN.element[i], SignedKey(skN)[i], x, ps.Q);
    EntryBoundedIntro(ps, K, SignedKey(sk), SignedKey(skN), beta, i, j, k, x);
  }

  lemma StoredAt(sk: PrivateKey, i: nat)
    requires sk.modulus > 0 && i < |sk.element|
    ensures Cong(sk.element[i], SignedKey(sk)[i], sk.modulus)
  {
    CongFrom(sk.element[i], SignedKey(sk)[i], if sk.element[i] > sk.modulus / 2 then 1 else 0, sk.modulus);
  }

  lemma EntryBoundedIntro(ps: ParamSet, ks: SwitchKey, s: Poly, z: Poly, beta: nat, i: nat, j: nat, k: nat, x: nat)
    requires |s| == ps.n && i < |z| && ps.Q > 0 && SwitchCell(ps, ks, i, j, k) && x == j * Pow(ps.baseKS, k)
    requires Dist(Phase(ks[i][j][k], s) - z[i] * x, ps.Q) <= beta
    ensures EntryBounded(ps, ks, s, z, beta, i, j, k)
  {
  }

  lemma FreshPhase(ct: Ct, sk: PrivateKey, z: nat, x: nat, a: seq<nat>, e: nat, Q: nat, n: nat)
    requires Q > 0 && FreshEntry(ct, sk, z, x, a, e, Q) && n == |sk.element| && WordsFit(Q - 1, n, Q) && x < WORD_SIZE
    ensures |ct.a| == |sk.element| && Cong(Phase(ct, SignedKey(sk)), e + z * x, Q)
  {
    ModIntro(x, 0, x, WORD_SIZE);
    EntryHarmless(sk, z, x, a, e, Q);
    OffBy(Phase(ct, SignedKey(sk)), e + z * x, TakenOff(EntryTotal(sk, z, x, a, e, Q)), Q);
  }

  lemma EntryHarmless(sk: PrivateKey, z: nat, x: nat, a: seq<nat>, e: nat, Q: nat)
    requires Q > 0 && |a| == |sk.element| && WordsFit(Q - 1, |a|, Q)
    ensures WrapHarmless(EntryTotal(sk, z, x, a, e, Q), Q)
  {
    if WORD_SIZE % Q == 0 {
      MultipleHarmless(EntryTotal(sk, z, x, a, e, Q), Q);
    } else {
      ProductSumBound(a, SwitchModulus(sk, Q), Q);
      ModNat(e + z * Word(x), Q);
      SmallHarmless(EntryTotal(sk, z, x, a, e, Q), Q);
    }
  }

  lemma ErrorRemains(phase: int, e: int, z: int, z': int, x: int, Q: nat)
    requires Q > 0 && Cong(phase, e + z * x, Q) && Cong(z, z', Q)
    ensures Dist(phase - z' * x, Q) == Dist(e, Q)
  {
    CongMul(z, z', x, x, Q);
    CongSub(phase, e + z * x, z' * x, z * x, Q);
  }

  lemma DigitBelow(j: nat, base: nat, k: nat, digits: nat, x: nat)
    requires base >= 2 && j < base && k < digits && x == j * Pow(base, k)
    ensures x < Pow(base, digits)
  {
    var p := Pow(base, k);
    PowGrows(base, k);
    MulCancel(j, base, p);
    PowMono(base, k + 1, digits);
  }
}
