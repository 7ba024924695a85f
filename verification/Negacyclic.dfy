/**
 The negacyclic ring Z[X]/(X^N + 1): multiplication by any power of X, the coefficient
 automorphism, inner products, and polynomials that agree modulo q up to a small error.
 */
module Negacyclic {
  import opened Arith
  import opened Poly

  function Times(a: Poly, b: Poly): (r: Poly)
    ensures |r| == |b|
  {
    Mul(-1, a, b)
  }

  /** X^e * p for any integer e; X has order 2N. */
  function Rot(p: Poly, e: int): (r: Poly)
    requires |p| > 0
    ensures |r| == |p|
  {
    ShiftN(-1, p, e % (2 * |p|))
  }

  // ---------- powers of X ----------

  lemma {:induction false} ShiftNAdd(p: Poly, a: nat, b: nat, m: nat)
    requires m == a + b
    ensures ShiftN(-1, ShiftN(-1, p, a), b) == ShiftN(-1, p, m)
  {
    if b > 0 {
      ShiftNAdd(p, a, b - 1, m - 1);
    }
  }

  lemma ShiftNOrder(p: Poly, o: nat)
    requires o == 2 * |p|
    ensures ShiftN(-1, p, o) == p
  {
    ShiftNAdd(p, |p|, |p|, o);
    ShiftNFull(-1, p);
    ShiftNFull(-1, Scale(-1, p));
    NegNeg(p);
  }

  lemma NegNeg(p: Poly)
    ensures Scale(-1, Scale(-1, p)) == p
  {
  }

  lemma {:induction false} ShiftNPeriod(p: Poly, a: nat, k: nat, o: nat, e: nat)
    requires o == 2 * |p| && e == a + k * o
    ensures ShiftN(-1, p, e) == ShiftN(-1, p, a)
    decreases k
  {
    if k > 0 {
      var b := e - o;
      assert b == a + (k - 1) * o;
      MulLe(0, k - 1, o);
      ShiftNPeriod(p, a, k - 1, o, b);
      ShiftNAdd(p, b, o, e);
      ShiftNOrder(ShiftN(-1, p, b), o);
    }
  }

  lemma RotIs(p: Poly, e: nat)
    requires |p| > 0
    ensures Rot(p, e) == ShiftN(-1, p, e)
  {
    var o := 2 * |p|;
    var k, r := DivMod(e, o);
    ShiftNPeriod(p, r, k, o, e);
  }

  lemma RotPeriod(p: Poly, e: int, f: int)
    requires |p| > 0 && Cong(e, f, 2 * |p|)
    ensures Rot(p, e) == Rot(p, f)
  {
  }

  lemma RotRot(p: Poly, e: int, f: int)
    requires |p| > 0
    ensures Rot(Rot(p, e), f) == Rot(p, e + f)
  {
    var a, b, m := ResidueSum(e, f, 2 * |p|);
    ShiftNAdd(p, a, b, m);
    RotIs(p, m);
    RotPeriod(p, m, e + f);
  }

  lemma ResidueSum(e: int, f: int, o: int) returns (a: nat, b: nat, m: nat)
    requires o > 0
    ensures a == e % o && b == f % o && m == a + b && Cong(m, e + f, o)
  {
    a, b := e % o, f % o;
    m := a + b;
    CongMod(e, o);
    CongMod(f, o);
    CongAdd(a, e, b, f, o);
  }

  lemma RotZero(p: Poly)
    requires |p| > 0
    ensures Rot(p, 0) == p
  {
    RotIs(p, 0);
  }

  /** The constant coefficient of X^(-k) * p. */
  lemma RotConstant(p: Poly, k: nat)
    requires k < 2 * |p|
    ensures Rot(p, 0 - k)[0] == if k < |p| then p[k] else -p[k - |p|]
  {
    var n := |p|;
    if k == 0 {
      RotZero(p);
    } else {
      var m := 2 * n - k;
      CongFrom(m, 0 - k, 1, 2 * n);
      RotPeriod(p, m, 0 - k);
      RotIs(p, m);
      ShiftNConstant(p, m);
    }
  }

  lemma ShiftNConstant(p: Poly, m: nat)
    requires 0 < m < 2 * |p|
    ensures ShiftN(-1, p, m)[0] == if m <= |p| then -p[|p| - m] else p[2 * |p| - m]
  {
    var n := |p|;
    if m <= n {
      ShiftNAt(-1, p, m);
    } else {
      var m' := m - n;
      ShiftNAdd(p, n, m', m);
      ShiftNFull(-1, p);
      ShiftNAt(-1, Scale(-1, p), m');
    }
  }

  // ---------- Rot is linear and commutes with products ----------

  lemma {:induction false} ShiftNLinear(p: Poly, r: Poly, k: int, m: nat)
    requires |p| == |r|
    ensures ShiftN(-1, Add(p, r), m) == Add(ShiftN(-1, p, m), ShiftN(-1, r, m))
    ensures ShiftN(-1, Scale(k, p), m) == Scale(k, ShiftN(-1, p, m))
  {
    if m > 0 {
      ShiftNLinear(p, r, k, m - 1);
      ShiftAdd(-1, ShiftN(-1, p, m - 1), ShiftN(-1, r, m - 1));
      ShiftScale(-1, k, ShiftN(-1, p, m - 1));
    }
  }

  lemma RotAdd(p: Poly, r: Poly, e: int)
    requires |p| == |r| > 0
    ensures Rot(Add(p, r), e) == Add(Rot(p, e), Rot(r, e))
  {
    ShiftNLinear(p, r, 0, e % (2 * |p|));
  }

  lemma RotScale(k: int, p: Poly, e: int)
    requires |p| > 0
    ensures Rot(Scale(k, p), e) == Scale(k, Rot(p, e))
  {
    ShiftNLinear(p, p, k, e % (2 * |p|));
  }

  lemma RotSub(p: Poly, r: Poly, e: int)
    requires |p| == |r| > 0
    ensures Rot(Sub(p, r), e) == Sub(Rot(p, e), Rot(r, e))
  {
    RotAdd(Sub(p, r), r, e);
    AddSub(p, r);
    AddSub(Rot(Sub(p, r), e), Rot(r, e));
  }

  lemma ShiftNMore(p: Poly, m: nat, prev: Poly)
    requires m > 0 && prev == ShiftN(-1, p, m - 1)
    ensures ShiftN(-1, p, m) == Shift(-1, prev)
  {
  }

  lemma {:induction false} ShiftNMulR(a: Poly, b: Poly, m: nat)
    ensures Mul(-1, a, ShiftN(-1, b, m)) == ShiftN(-1, Mul(-1, a, b), m)
  {
    if m > 0 {
      ShiftNMulR(a, b, m - 1);
      ShiftNMore(b, m, ShiftN(-1, b, m - 1));
      ShiftNMore(Mul(-1, a, b), m, Mul(-1, a, ShiftN(-1, b, m - 1)));
      MulShiftR(-1, a, ShiftN(-1, b, m - 1));
    }
  }

  lemma {:induction false} ShiftNMulL(a: Poly, b: Poly, m: nat)
    requires |a| == |b|
    ensures Mul(-1, ShiftN(-1, a, m), b) == ShiftN(-1, Mul(-1, a, b), m)
  {
    if m > 0 {
      ShiftNMulL(a, b, m - 1);
      ShiftNMore(a, m, ShiftN(-1, a, m - 1));
      ShiftNMore(Mul(-1, a, b), m, Mul(-1, ShiftN(-1, a, m - 1), b));
      MulShiftL(-1, ShiftN(-1, a, m - 1), b);
    }
  }

  lemma RotTimesR(a: Poly, b: Poly, e: int)
    requires |b| > 0
    ensures Times(a, Rot(b, e)) == Rot(Times(a, b), e)
  {
    ShiftNMulR(a, b, e % (2 * |b|));
  }

  lemma RotTimesL(a: Poly, b: Poly, e: int)
    requires |a| == |b| > 0
    ensures Times(Rot(a, e), b) == Rot(Times(a, b), e)
  {
    ShiftNMulL(a, b, e % (2 * |b|));
  }

  /** Multiplying by the polynomial X^e is the same as rotating by e. */
  lemma TimesMonomial(a: Poly, e: int)
    requires |a| > 0
    ensures Times(a, Rot(One(|a|), e)) == Rot(a, e)
  {
    RotTimesR(a, One(|a|), e);
    MulOne(-1, a);
  }

  lemma {:induction false} ShiftNBounded(p: Poly, bound: int, m: nat)
    requires Bounded(p, bound)
    ensures Bounded(ShiftN(-1, p, m), bound)
  {
    if m > 0 {
      ShiftNBounded(p, bound, m - 1);
      BoundedShift(ShiftN(-1, p, m - 1), bound);
    }
  }

  lemma RotBounded(p: Poly, bound: int, e: int)
    requires |p| > 0 && Bounded(p, bound)
    ensures Bounded(Rot(p, e), bound)
  {
    ShiftNBounded(p, bound, e % (2 * |p|));
  }

  lemma {:induction false} ShiftNEqv(p: Poly, p': Poly, m: nat, q: int)
    requires q > 0 && Eqv(p, p', q)
    ensures Eqv(ShiftN(-1, p, m), ShiftN(-1, p', m), q)
  {
    if m > 0 {
      ShiftNEqv(p, p', m - 1, q);
      EqvShift(-1, -1, ShiftN(-1, p, m - 1), ShiftN(-1, p', m - 1), q);
    }
  }

  lemma RotEqv(p: Poly, p': Poly, e: int, q: int)
    requires q > 0 && |p| > 0 && Eqv(p, p', q)
    ensures |p'| == |p| && Eqv(Rot(p, e), Rot(p', e), q)
  {
    EqvLength(p, p', q);
    ShiftNEqv(p, p', e % (2 * |p|), q);
  }

  // ---------- polynomials that agree up to a bounded error modulo q ----------

  /** The largest distance between corresponding coefficients modulo q. */
  ghost function PolyDist(p: Poly, t: Poly, q: int): nat
    requires q > 0 && |p| == |t|
    decreases |p|
  {
    if p == [] then 0
    else
      var d, rest := Dist(p[0] - t[0], q), PolyDist(p[1..], t[1..], q);
      if d >= rest then d else rest
  }

  ghost predicate NearPoly(p: Poly, t: Poly, bound: int, q: int)
    requires q > 0
  {
    |p| == |t| && PolyDist(p, t, q) <= bound
  }

  ghost predicate NearAll(p: Poly, t: Poly, bound: int, q: int)
    requires q > 0
  {
    |p| == |t| && forall i {:trigger p[i]} :: 0 <= i < |p| ==> Near(p[i], t[i], bound, q)
  }

  lemma {:induction false} NearElim(p: Poly, t: Poly, bound: int, q: int)
    requires q > 0 && NearPoly(p, t, bound, q)
    ensures NearAll(p, t, bound, q)
    decreases |p|
  {
    if p != [] {
      NearElim(p[1..], t[1..], bound, q);
      forall i {:trigger p[i]} | 0 <= i < |p|
        ensures Near(p[i], t[i], bound, q)
      {
        if i > 0 {
          assert Near(p[1..][i - 1], t[1..][i - 1], bound, q);
        }
      }
    }
  }

  lemma {:induction false} NearIntroAll(p: Poly, t: Poly, bound: nat, q: int)
    requires q > 0 && NearAll(p, t, bound, q)
    ensures NearPoly(p, t, bound, q)
    decreases |p|
  {
    if p != [] {
      forall i {:trigger p[1..][i]} | 0 <= i < |p| - 1
        ensures Near(p[1..][i], t[1..][i], bound, q)
      {
        assert Near(p[i + 1], t[i + 1], bound, q);
      }
      NearIntroAll(p[1..], t[1..], bound, q);
      assert Near(p[0], t[0], bound, q);
    }
  }

  lemma NearPolyIntro(p: Poly, t: Poly, err: Poly, bound: nat, q: int)
    requires q > 0 && |t| == |err| && Eqv(p, Add(t, err), q) && Bounded(err, bound)
    ensures NearPoly(p, t, bound, q)
  {
    EqvElim(p, Add(t, err), q);
    forall i {:trigger p[i]} | 0 <= i < |p|
      ensures Near(p[i], t[i], bound, q)
    {
      assert Cong(p[i], Add(t, err)[i], q);
      NearIntro(p[i], t[i], err[i], bound, q);
    }
    NearIntroAll(p, t, bound, q);
  }

  lemma {:induction false} NearPolyError(p: Poly, t: Poly, bound: int, q: int) returns (err: Poly)
    requires q > 0 && NearPoly(p, t, bound, q)
    ensures |err| == |t| && Bounded(err, bound) && Eqv(p, Add(t, err), q)
    decreases |p|
  {
    if p == [] {
      err := [];
      assert Add(t, err) == p;
    } else {
      var rest := NearPolyError(p[1..], t[1..], bound, q);
      var e := NearError(p[0], t[0], bound, q);
      err := [e] + rest;
      ErrorCons(p, t, e, rest, q);
    }
  }

  lemma ErrorCons(p: Poly, t: Poly, e: int, rest: Poly, q: int)
    requires q > 0 && |p| == |t| == |rest| + 1 && Cong(p[0], t[0] + e, q) && Eqv(p[1..], Add(t[1..], rest), q)
    ensures Eqv(p, Add(t, [e] + rest), q)
  {
    var sum := Add(t, [e] + rest);
    EqvElim(p[1..], Add(t[1..], rest), q);
    forall i | 0 <= i < |p|
      ensures Cong(p[i], sum[i], q)
    {
      if i > 0 {
        assert Cong(p[1..][i - 1], Add(t[1..], rest)[i - 1], q);
      }
    }
    EqvIntro(p, sum, q);
  }

  lemma NearPolyTrans(p: Poly, t: Poly, u: Poly, d: nat, e: nat, q: int)
    requires q > 0 && NearPoly(p, t, d, q) && NearPoly(t, u, e, q)
    ensures NearPoly(p, u, d + e, q)
  {
    NearElim(p, t, d, q);
    NearElim(t, u, e, q);
    forall i {:trigger p[i]} | 0 <= i < |p|
      ensures Near(p[i], u[i], d + e, q)
    {
      assert Near(p[i], t[i], d, q) && Near(t[i], u[i], e, q);
      NearTrans(p[i], t[i], u[i], d, e, q);
    }
    NearIntroAll(p, u, d + e, q);
  }

  lemma NearPolyAdd(p: Poly, t: Poly, p': Poly, t': Poly, d: nat, e: nat, q: int)
    requires q > 0 && |p| == |p'| && NearPoly(p, t, d, q) && NearPoly(p', t', e, q)
    ensures NearPoly(Add(p, p'), Add(t, t'), d + e, q)
  {
    var l, r := Add(p, p'), Add(t, t');
    NearElim(p, t, d, q);
    NearElim(p', t', e, q);
    forall i {:trigger l[i]} | 0 <= i < |l|
      ensures Near(l[i], r[i], d + e, q)
    {
      assert Near(p[i], t[i], d, q) && Near(p'[i], t'[i], e, q);
      NearAdd(p[i], t[i], p'[i], t'[i], d, e, q);
    }
    NearIntroAll(l, r, d + e, q);
  }

  lemma NearPolyNeg(p: Poly, t: Poly, d: nat, q: int)
    requires q > 0 && NearPoly(p, t, d, q)
    ensures NearPoly(Scale(-1, p), Scale(-1, t), d, q)
  {
    var l, r := Scale(-1, p), Scale(-1, t);
    NearElim(p, t, d, q);
    forall i {:trigger l[i]} | 0 <= i < |l|
      ensures Near(l[i], r[i], d, q)
    {
      assert Near(p[i], t[i], d, q);
      NearNeg(p[i], t[i], d, q);
    }
    NearIntroAll(l, r, d, q);
  }

  lemma NearPolySub(p: Poly, t: Poly, p': Poly, t': Poly, d: nat, e: nat, q: int)
    requires q > 0 && |p| == |p'| && NearPoly(p, t, d, q) && NearPoly(p', t', e, q)
    ensures NearPoly(Sub(p, p'), Sub(t, t'), d + e, q)
  {
    NearPolyNeg(p', t', e, q);
    NearPolyAdd(p, t, Scale(-1, p'), Scale(-1, t'), d, e, q);
    SubIsAdd(p, p');
    SubIsAdd(t, t');
  }

  lemma NearPolyRefl(p: Poly, t: Poly, q: int)
    requires q > 0 && Eqv(p, t, q)
    ensures NearPoly(p, t, 0, q)
  {
    EqvElim(p, t, q);
    forall i {:trigger p[i]} | 0 <= i < |p|
      ensures Near(p[i], t[i], 0, q)
    {
      NearIntro(p[i], t[i], 0, 0, q);
    }
    NearIntroAll(p, t, 0, q);
  }

  lemma NearPolyRot(p: Poly, t: Poly, e: int, d: nat, q: int)
    requires q > 0 && |p| > 0 && NearPoly(p, t, d, q)
    ensures NearPoly(Rot(p, e), Rot(t, e), d, q)
  {
    var err := NearPolyError(p, t, d, q);
    RotEqv(p, Add(t, err), e, q);
    RotAdd(t, err, e);
    RotBounded(err, d, e);
    NearPolyIntro(Rot(p, e), Rot(t, e), Rot(err, e), d, q);
  }

  // ---------- noise: a polynomial near zero ----------

  lemma NoiseIntro(p: Poly, err: Poly, bound: nat, q: int)
    requires q > 0 && Eqv(p, err, q) && Bounded(err, bound)
    ensures NearPoly(p, Zero(|p|), bound, q)
  {
    EqvLength(p, err, q);
    AddZero(err);
    NearPolyIntro(p, Zero(|p|), err, bound, q);
  }

  lemma NoiseAdd(p: Poly, r: Poly, d: nat, e: nat, q: int)
    requires q > 0 && |p| == |r| && NearPoly(p, Zero(|p|), d, q) && NearPoly(r, Zero(|p|), e, q)
    ensures NearPoly(Add(p, r), Zero(|p|), d + e, q)
  {
    NearPolyAdd(p, Zero(|p|), r, Zero(|p|), d, e, q);
    AddZero(Zero(|p|));
  }

  lemma NoiseSub(p: Poly, r: Poly, d: nat, e: nat, q: int)
    requires q > 0 && |p| == |r| && NearPoly(p, Zero(|p|), d, q) && NearPoly(r, Zero(|p|), e, q)
    ensures NearPoly(Sub(p, r), Zero(|p|), d + e, q)
  {
    NearPolySub(p, Zero(|p|), r, Zero(|p|), d, e, q);
    assert Sub(Zero(|p|), Zero(|p|)) == Zero(|p|);
  }

  lemma RotOfZero(n: nat, e: int)
    requires n > 0
    ensures Rot(Zero(n), e) == Zero(n)
  {
    RotScale(0, Zero(n), e);
    assert Scale(0, Zero(n)) == Zero(n);
    assert Scale(0, Rot(Zero(n), e)) == Zero(n);
  }

  lemma NoiseRot(p: Poly, e: int, d: nat, q: int)
    requires q > 0 && |p| > 0 && NearPoly(p, Zero(|p|), d, q)
    ensures NearPoly(Rot(p, e), Zero(|p|), d, q)
  {
    NearPolyRot(p, Zero(|p|), e, d, q);
    RotOfZero(|p|, e);
  }

  /** What agrees with t plus noise agrees with t up to the size of the noise. */
  lemma NearByNoise(p: Poly, t: Poly, noise: Poly, d: nat, q: int)
    requires q > 0 && |t| == |noise| && Eqv(p, Add(t, noise), q) && NearPoly(noise, Zero(|noise|), d, q)
    ensures NearPoly(p, t, d, q)
  {
    NearPolyRefl(p, Add(t, noise), q);
    NearPolyRefl(t, t, q);
    NearPolyAdd(t, t, noise, Zero(|noise|), 0, d, q);
    AddZero(t);
    NearPolyTrans(p, Add(t, noise), t, 0, d, q);
  }

  // ---------- inner products and the coefficient automorphism ----------

  function Inner(a: Poly, s: Poly): int
    requires |a| == |s|
    decreases |a|
  {
    if a == [] then 0 else a[0] * s[0] + Inner(a[1..], s[1..])
  }

  lemma InnerHead(a: seq<int>, s: seq<int>, i: nat)
    requires |a| == |s| && i < |a|
    ensures Inner(a[i..], s[i..]) == a[i] * s[i] + Inner(a[i + 1..], s[i + 1..])
  {
    assert a[i..][1..] == a[i + 1..] && s[i..][1..] == s[i + 1..];
  }

  lemma {:induction false} InnerSnoc(a: Poly, x: int, s: Poly, y: int)
    requires |a| == |s|
    ensures Inner(a + [x], s + [y]) == Inner(a, s) + x * y
    decreases |a|
  {
    if a == [] {
      assert (a + [x])[1..] == [] && (s + [y])[1..] == [];
    } else {
      assert (a + [x])[1..] == a[1..] + [x] && (s + [y])[1..] == s[1..] + [y];
      InnerSnoc(a[1..], x, s[1..], y);
    }
  }

  lemma {:induction false} InnerEqv(a: Poly, a': Poly, s: Poly, s': Poly, q: int)
    requires q > 0 && |a| == |s| && |a'| == |s'| && Eqv(a, a', q) && Eqv(s, s', q)
    ensures Cong(Inner(a, s), Inner(a', s'), q)
    decreases |a|
  {
    EqvLength(a, a', q);
    if a != [] {
      EqvTail(a, a', q);
      EqvTail(s, s', q);
      InnerEqv(a[1..], a'[1..], s[1..], s'[1..], q);
      CongMul(a[0], a'[0], s[0], s'[0], q);
      CongAdd(a[0] * s[0], a'[0] * s'[0], Inner(a[1..], s[1..]), Inner(a'[1..], s'[1..]), q);
    }
  }

  lemma {:induction false} InnerLinear(a: Poly, b: Poly, k: int, s: Poly)
    requires |a| == |b| == |s|
    ensures Inner(Add(a, b), s) == Inner(a, s) + Inner(b, s)
    ensures Inner(Scale(k, a), s) == k * Inner(a, s)
    decreases |a|
  {
    if a != [] {
      assert Add(a, b)[1..] == Add(a[1..], b[1..]) && Scale(k, a)[1..] == Scale(k, a[1..]);
      InnerLinear(a[1..], b[1..], k, s[1..]);
      Distribute2(a[0], b[0], s[0]);
      Distribute3(k, a[0], s[0], Inner(a[1..], s[1..]));
    }
  }

  lemma Distribute2(x: int, y: int, z: int)
    ensures (x + y) * z == x * z + y * z
  {
  }

  lemma Distribute3(k: int, x: int, y: int, z: int)
    ensures k * (x * y + z) == (k * x) * y + k * z
  {
  }

  lemma InnerSub(a: Poly, b: Poly, s: Poly)
    requires |a| == |b| == |s|
    ensures Inner(Sub(a, b), s) == Inner(a, s) - Inner(b, s)
  {
    SubIsAdd(a, b);
    InnerLinear(a, Scale(-1, b), 0, s);
    InnerLinear(b, b, -1, s);
  }

  lemma InnerNeg(a: Poly, s: Poly)
    requires |a| == |s|
    ensures Inner(Scale(-1, a), s) == 0 - Inner(a, s)
  {
    InnerLinear(a, a, -1, s);
  }

  /** If p agrees with -a modulo q, its inner products are the negated ones. */
  lemma InnerNegated(p: Poly, a: Poly, s: Poly, q: int)
    requires q > 0 && |p| == |a| == |s| && Eqv(p, Scale(-1, a), q)
    ensures Cong(Inner(p, s), 0 - Inner(a, s), q)
  {
    EqvIntro(s, s, q);
    InnerEqv(p, Scale(-1, a), s, s, q);
    InnerNeg(a, s);
  }

  /** a(1/X): the constant coefficient stays, the others are reversed and negated. */
  function Transpose(a: Poly): (r: Poly)
    ensures |r| == |a|
    ensures forall i {:trigger r[i]} :: 0 <= i < |a| ==> r[i] == if i == 0 then a[0] else -a[|a| - i]
  {
    seq(|a|, i requires 0 <= i < |a| => if i == 0 then a[0] else -a[|a| - i])
  }

  /** Extraction: the inner product with a(1/X) is the constant coefficient of the product. */
  lemma TransposeInner(a: Poly, z: Poly)
    requires |a| == |z| > 0
    ensures Inner(Transpose(a), z) == Times(a, z)[0]
  {
    FirstTerm(a, z);
    LaterTerms(a, z);
    assert Transpose(a)[0] == a[0];
  }

  lemma FirstTerm(a: Poly, z: Poly)
    requires |a| == |z| > 0
    ensures Times(a, z)[0] == a[0] * z[0] + Wrapped(a[1..], z, 1)
  {
    ConstantOfProduct(a[1..], Shift(-1, z), 1, z);
  }

  lemma LaterTerms(a: Poly, z: Poly)
    requires |a| == |z| > 0
    ensures Inner(Transpose(a)[1..], z[1..]) == Wrapped(a[1..], z, 1)
  {
    var n, t, s, r := |a|, Transpose(a)[1..], z[1..], a[1..];
    ReversedInner(a, z, n - 1);
    assert t[..n - 1] == t && s[..n - 1] == s && r[0..] == r;
  }

  /** sum over j of a[j] * (-z[N - i - j]), the contribution of the coefficients of a to X^0. */
  function Wrapped(rest: Poly, z: Poly, i: nat): int
    requires 1 <= i && i + |rest| <= |z|
    decreases |rest|
  {
    if rest == [] then 0 else rest[0] * -z[|z| - i] + Wrapped(rest[1..], z, i + 1)
  }

  lemma {:induction false} ConstantOfProduct(rest: Poly, zi: Poly, i: nat, z: Poly)
    requires 1 <= i && i + |rest| <= |z| && zi == ShiftN(-1, z, i)
    ensures Mul(-1, rest, zi)[0] == Wrapped(rest, z, i)
    decreases |rest|
  {
    if rest != [] {
      ShiftNAt(-1, z, i);
      assert zi[0] == -1 * z[|z| - i];
      ConstantOfProduct(rest[1..], Shift(-1, zi), i + 1, z);
    }
  }

  lemma {:induction false} ReversedInner(a: Poly, z: Poly, k: nat)
    requires |a| == |z| && k < |a|
    ensures Inner(Transpose(a)[1..][..k], z[1..][..k]) == Wrapped(a[1..][|a| - 1 - k..], z, |a| - k)
    decreases k
  {
    var n, t, tail, rest := |a|, Transpose(a)[1..], z[1..], a[1..];
    if k > 0 {
      ReversedInner(a, z, k - 1);
      assert t[..k] == t[..k - 1] + [t[k - 1]] && tail[..k] == tail[..k - 1] + [tail[k - 1]];
      InnerSnoc(t[..k - 1], t[k - 1], tail[..k - 1], tail[k - 1]);
      var r := rest[n - 1 - k..];
      assert r[1..] == rest[n - 1 - (k - 1)..];
      assert r[0] == a[n - k] && t[k - 1] == -a[n - k] && tail[k - 1] == z[k];
      assert r[0] * -z[n - (n - k)] == -a[n - k] * z[k];
    }
  }

  // ---------- RLWE phases ----------

  /** b - a*z for a pair (a, b) of ring elements. */
  function RingPhase(a: Poly, b: Poly, z: Poly): (r: Poly)
    requires |a| == |b| == |z|
    ensures |r| == |b|
  {
    Sub(b, Times(a, z))
  }

  lemma PhaseEqv(a: Poly, a': Poly, b: Poly, b': Poly, z: Poly, z': Poly, q: int)
    requires q > 0 && |a| == |b| == |z| && |a'| == |b'| == |z'|
    requires Eqv(a, a', q) && Eqv(b, b', q) && Eqv(z, z', q)
    ensures Eqv(RingPhase(a, b, z), RingPhase(a', b', z'), q)
  {
    EqvMul(-1, -1, a, a', z, z', q);
    EqvSub(b, b', Times(a, z), Times(a', z'), q);
  }

  lemma PhaseAdd(a: Poly, b: Poly, a': Poly, b': Poly, z: Poly)
    requires |a| == |b| == |a'| == |b'| == |z|
    ensures RingPhase(Add(a, a'), Add(b, b'), z) == Add(RingPhase(a, b, z), RingPhase(a', b', z))
  {
    MulAddL(-1, a, a', z);
    SubAdd(b, b', Times(a, z), Times(a', z));
  }

  lemma SubAdd(a: Poly, b: Poly, c: Poly, d: Poly)
    requires |a| == |b| == |c| == |d|
    ensures Sub(Add(a, b), Add(c, d)) == Add(Sub(a, c), Sub(b, d))
  {
  }

  lemma PhaseRot(a: Poly, b: Poly, z: Poly, e: int)
    requires |a| == |b| == |z| > 0
    ensures RingPhase(Rot(a, e), Rot(b, e), z) == Rot(RingPhase(a, b, z), e)
  {
    RotTimesL(a, z, e);
    RotSub(b, Times(a, z), e);
  }

  lemma PhaseTimes(d: Poly, a: Poly, b: Poly, z: Poly)
    requires |a| == |b| == |z|
    ensures RingPhase(Times(d, a), Times(d, b), z) == Times(d, RingPhase(a, b, z))
  {
    MulAssoc(-1, d, a, z);
    MulSubR(-1, d, b, Times(a, z));
  }
}
