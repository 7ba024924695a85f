/**
 RingGSW encryptions of a multiple of a power of X, and the external product that applies
 one to a ring ciphertext. The phase of the product is the phase of the ciphertext times
 the encrypted monomial, up to an explicit error.
 */
module Rgsw {
  import opened Arith
  import opened Poly
  import opened Negacyclic
  import opened Decompose

  type Matrix = seq<seq<Poly>>

  ghost predicate IsPair(row: seq<Poly>, n: nat) {
    |row| == 2 && |row[0]| == n && |row[1]| == n
  }

  ghost predicate IsMatrix(m: Matrix, rows: nat, n: nat) {
    |m| == rows && forall l {:trigger m[l]} :: 0 <= l < rows ==> IsPair(m[l], n)
  }

  ghost function RowPhase(row: seq<Poly>, z: Poly): (r: Poly)
    requires IsPair(row, |z|)
    ensures |r| == |z|
  {
    RingPhase(row[0], row[1], z)
  }

  /** What row l of an encryption of coef * X^e holds besides noise: a gadget power times the message. */
  ghost function GadgetTerm(z: Poly, coef: int, e: int, base: nat, l: nat): (r: Poly)
    requires |z| > 0
    ensures |r| == |z|
  {
    var g := Pow(base, l / 2);
    if l % 2 == 0 then Scale(-(coef * g), Rot(z, e)) else Scale(coef * g, Rot(One(|z|), e))
  }

  ghost predicate GadgetRow(m: Matrix, z: Poly, coef: int, e: int, beta: nat, base: nat, Q: nat, l: nat)
    requires |z| > 0 && Q > 0 && l < |m| && IsMatrix(m, |m|, |z|)
  {
    NearPoly(RowPhase(m[l], z), GadgetTerm(z, coef, e, base, l), beta, Q)
  }

  /** The first l rows of m encrypt coef * X^e, each with error at most beta. */
  ghost predicate RowsEncrypt(m: Matrix, z: Poly, coef: int, e: int, beta: nat, base: nat, Q: nat, l: nat)
    requires |z| > 0 && Q > 0 && l <= |m| && IsMatrix(m, |m|, |z|)
    decreases l
  {
    l > 0 ==> RowsEncrypt(m, z, coef, e, beta, base, Q, l - 1) && GadgetRow(m, z, coef, e, beta, base, Q, l - 1)
  }

  /** m encrypts coef * X^e under z, every row with error at most beta. */
  ghost predicate IsRgsw(m: Matrix, z: Poly, coef: int, e: int, beta: nat, base: nat, digits: nat, Q: nat)
    requires |z| > 0 && Q > 0
  {
    IsMatrix(m, 2 * digits, |z|) && RowsEncrypt(m, z, coef, e, beta, base, Q, 2 * digits)
  }

  lemma {:induction false} RowEncrypts(m: Matrix, z: Poly, coef: int, e: int, beta: nat, base: nat, Q: nat, rows: nat,
                                       l: nat)
    requires |z| > 0 && Q > 0 && rows <= |m| && IsMatrix(m, |m|, |z|) && l < rows
    requires RowsEncrypt(m, z, coef, e, beta, base, Q, rows)
    ensures GadgetRow(m, z, coef, e, beta, base, Q, l)
    decreases rows
  {
    if l < rows - 1 {
      RowEncrypts(m, z, coef, e, beta, base, Q, rows - 1, l);
    }
  }

  lemma {:induction false} AllRowsEncrypt(m: Matrix, z: Poly, coef: int, e: int, beta: nat, base: nat, Q: nat,
                                          rows: nat)
    requires |z| > 0 && Q > 0 && rows <= |m| && IsMatrix(m, |m|, |z|)
    requires forall l :: 0 <= l < rows ==> GadgetRow(m, z, coef, e, beta, base, Q, l)
    ensures RowsEncrypt(m, z, coef, e, beta, base, Q, rows)
    decreases rows
  {
    if rows > 0 {
      AllRowsEncrypt(m, z, coef, e, beta, base, Q, rows - 1);
    }
  }

  // ---------- the external product ----------

  /** The digit polynomials in the order of the rows: digit i of both components in turn. */
  function AllDigits(ct: seq<Poly>, base: nat, digits: nat, Q: nat): (r: seq<Poly>)
    requires |ct| == 2 && base > 0
    ensures |r| == 2 * digits
    ensures forall l {:trigger r[l]} :: 0 <= l < 2 * digits ==> r[l] == DigitPoly(ct[l % 2], base, l / 2, Q)
  {
    seq(2 * digits, l requires 0 <= l < 2 * digits => DigitPoly(ct[l % 2], base, l / 2, Q))
  }

  lemma DigitRows(ct: seq<Poly>, base: nat, digits: nat, Q: nat, i: nat)
    requires |ct| == 2 && base > 0 && i < digits
    ensures var d := AllDigits(ct, base, digits, Q);
            d[2 * i] == DigitPoly(ct[0], base, i, Q) && d[2 * i + 1] == DigitPoly(ct[1], base, i, Q)
  {
    var l := 2 * i;
    assert l / 2 == i && (l + 1) / 2 == i && l % 2 == 0 && (l + 1) % 2 == 1;
  }

  /** Column j of the exact product of d with the first l rows. */
  function Dot(d: seq<Poly>, m: Matrix, j: nat, l: nat, n: nat): (r: Poly)
    requires IsMatrix(m, |d|, n) && j < 2 && l <= |d|
    ensures |r| == n
  {
    if l == 0 then Zero(n) else Add(Dot(d, m, j, l - 1, n), Times(d[l - 1], m[l - 1][j]))
  }

  lemma DotNext(d: seq<Poly>, m: Matrix, j: nat, l: nat, l': nat, n: nat)
    requires IsMatrix(m, |d|, n) && j < 2 && l' == l + 1 <= |d|
    ensures Dot(d, m, j, l', n) == Add(Dot(d, m, j, l, n), Times(d[l], m[l][j]))
  {
  }

  lemma AllDigitsLength(ct: seq<Poly>, base: nat, digits: nat, Q: nat, l: nat)
    requires |ct| == 2 && |ct[0]| == |ct[1]| && base > 0 && l < 2 * digits
    ensures |AllDigits(ct, base, digits, Q)[l]| == |ct[0]|
  {
  }

  function ExternalProduct(ct: seq<Poly>, m: Matrix, base: nat, digits: nat, Q: nat): (r: seq<Poly>)
    requires |ct| == 2 && |ct[0]| == |ct[1]| && base > 0 && Q > 0
    requires IsMatrix(m, 2 * digits, |ct[0]|)
    ensures |r| == 2 && |r[0]| == |r[1]| == |ct[0]|
  {
    var d, n := AllDigits(ct, base, digits, Q), |ct[0]|;
    [Reduce(Dot(d, m, 0, 2 * digits, n), Q), Reduce(Dot(d, m, 1, 2 * digits, n), Q)]
  }

  /** The digit polynomials combined with the phases of the rows. */
  ghost function PhaseSum(d: seq<Poly>, m: Matrix, z: Poly, l: nat): (r: Poly)
    requires IsMatrix(m, |d|, |z|) && l <= |d|
    ensures |r| == |z|
  {
    if l == 0 then Zero(|z|) else Add(PhaseSum(d, m, z, l - 1), Times(d[l - 1], RowPhase(m[l - 1], z)))
  }

  lemma {:induction false} DotPhase(d: seq<Poly>, m: Matrix, z: Poly, l: nat)
    requires IsMatrix(m, |d|, |z|) && l <= |d|
    ensures RingPhase(Dot(d, m, 0, l, |z|), Dot(d, m, 1, l, |z|), z) == PhaseSum(d, m, z, l)
  {
    if l == 0 {
      PhaseOfZero(z);
    } else {
      var x, row := d[l - 1], m[l - 1];
      DotPhase(d, m, z, l - 1);
      PhaseTimes(x, row[0], row[1], z);
      PhaseAdd(Dot(d, m, 0, l - 1, |z|), Dot(d, m, 1, l - 1, |z|), Times(x, row[0]), Times(x, row[1]), z);
    }
  }

  /** The phase of digit number h of both components, times its gadget power g. */
  ghost function DigitPhase(ct: seq<Poly>, z: Poly, base: nat, h: nat, g: nat, Q: nat): (r: Poly)
    requires IsPair(ct, |z|) && base > 0
    ensures |r| == |z|
  {
    RingPhase(Scale(g, DigitPoly(ct[0], base, h, Q)), Scale(g, DigitPoly(ct[1], base, h, Q)), z)
  }

  lemma PartPhaseNext(ct: seq<Poly>, z: Poly, base: nat, h: nat, i: nat, g: nat, Q: nat)
    requires Q > 0 && IsPair(ct, |z|) && base > 0 && i == h + 1 && g == Pow(base, h)
    ensures Eqv(PartPhase(ct, z, base, i, Q), Add(PartPhase(ct, z, base, h, Q), DigitPhase(ct, z, base, h, g, Q)), Q)
  {
    PhaseAdd(Recomposed(ct[0], base, h, Q), Recomposed(ct[1], base, h, Q),
             Scale(g, DigitPoly(ct[0], base, h, Q)), Scale(g, DigitPoly(ct[1], base, h, Q)), z);
  }

  lemma PhaseOfZero(z: Poly)
    ensures RingPhase(Zero(|z|), Zero(|z|), z) == Zero(|z|)
  {
    MulZeroL(-1, |z|, z);
    assert Sub(Zero(|z|), Zero(|z|)) == Zero(|z|);
  }

  /** sum of the first i digit polynomials, each times its gadget power */
  ghost function Recomposed(p: Poly, base: nat, i: nat, Q: nat): (r: Poly)
    requires base > 0
    ensures |r| == |p|
  {
    if i == 0 then Zero(|p|)
    else Add(Recomposed(p, base, i - 1, Q), Scale(Pow(base, i - 1), DigitPoly(p, base, i - 1, Q)))
  }

  lemma {:induction false} RecomposedAt(p: Poly, base: nat, i: nat, Q: nat)
    requires base > 0
    ensures forall k {:trigger Recomposed(p, base, i, Q)[k]} :: 0 <= k < |p| ==>
        Recomposed(p, base, i, Q)[k] == DigitSum(Centred(p[k], Q), base, i)
  {
    if i > 0 {
      RecomposedAt(p, base, i - 1, Q);
      forall k {:trigger Recomposed(p, base, i, Q)[k]} | 0 <= k < |p|
        ensures Recomposed(p, base, i, Q)[k] == DigitSum(Centred(p[k], Q), base, i)
      {
        var d := Centred(p[k], Q);
        assert DigitPoly(p, base, i - 1, Q)[k] == DigitAt(d, base, i - 1);
        assert Recomposed(p, base, i - 1, Q)[k] == DigitSum(d, base, i - 1);
      }
    }
  }

  /** Recomposing gives the polynomial back modulo Q, less the carries. */
  lemma RecomposedEqv(p: Poly, base: nat, digits: nat, Q: nat)
    requires base > 0 && Q > 0
    ensures Eqv(p, Add(Recomposed(p, base, digits, Q), Scale(Pow(base, digits), CarryPoly(p, base, digits, Q))), Q)
  {
    var x, c, b := Recomposed(p, base, digits, Q), CarryPoly(p, base, digits, Q), Pow(base, digits);
    RecomposedAt(p, base, digits, Q);
    forall k | 0 <= k < |p|
      ensures Cong(p[k], Add(x, Scale(b, c))[k], Q)
    {
      var d := Centred(p[k], Q);
      assert c[k] == Carry(d, base, digits) && x[k] == DigitSum(d, base, digits);
      RecomposedValue(p[k], base, digits, Q, x[k] + b * c[k]);
    }
    EqvIntro(p, Add(x, Scale(b, c)), Q);
  }

  lemma RecomposedValue(t: int, base: nat, digits: nat, Q: nat, v: int)
    requires base > 0 && Q > 0
    requires v == DigitSum(Centred(t, Q), base, digits) + Pow(base, digits) * Carry(Centred(t, Q), base, digits)
    ensures Cong(t, v, Q)
  {
    Reconstruct(Centred(t, Q), base, digits);
    CongFrom(t, v, if t < Q / 2 then 0 else 1, Q);
  }

  // ---------- the error of one row ----------

  /** Error of the product of n digits of size at most x with an error of size at most beta. */
  ghost function RowError(n: nat, x: nat, beta: nat): nat {
    Multiple(n, Multiple(x, beta))
  }

  /** Digits of size at most x times what p has besides t. */
  lemma NoiseTimes(d: Poly, p: Poly, t: Poly, x: nat, beta: nat, Q: nat)
    requires Q > 0 && |d| == |p| == |t| && Bounded(d, x) && NearPoly(p, t, beta, Q)
    ensures NearPoly(Times(d, Sub(p, t)), Zero(|d|), RowError(|d|, x, beta), Q)
  {
    var err := NearPolyError(p, t, beta, Q);
    EqvSub(p, Add(t, err), t, t, Q);
    AddComm(t, err);
    AddSub(err, t);
    EqvMul(-1, -1, d, d, Sub(p, t), err, Q);
    TimesError(d, err, x, beta);
    NoiseIntro(Times(d, Sub(p, t)), Times(d, err), RowError(|d|, x, beta), Q);
  }

  lemma TimesError(d: Poly, err: Poly, x: nat, beta: nat)
    requires Bounded(d, x) && Bounded(err, beta)
    ensures Bounded(Times(d, err), RowError(|d|, x, beta))
  {
    MulBound(d, err, x, beta);
    MultipleIs(x, beta);
    MultipleIs(|d|, Multiple(x, beta));
  }

  lemma DigitPolyBounded(p: Poly, base: nat, l: nat, Q: nat)
    requires base >= 2 && base % 2 == 0
    ensures Bounded(DigitPoly(p, base, l, Q), base / 2)
  {
    var r := DigitPoly(p, base, l, Q);
    forall k | 0 <= k < |r|
      ensures Abs(r[k]) <= base / 2
    {
      DigitRange(Centred(p[k], Q), base, l);
    }
  }

  /** The part of the phase that the first i digits of both components carry. */
  ghost function PartPhase(ct: seq<Poly>, z: Poly, base: nat, i: nat, Q: nat): (r: Poly)
    requires IsPair(ct, |z|) && base > 0
    ensures |r| == |z|
  {
    RingPhase(Recomposed(ct[0], base, i, Q), Recomposed(ct[1], base, i, Q), z)
  }

  /** A row holding g times the message, times a digit polynomial, is the message times g times the digit. */
  lemma GadgetTimesDigit(d0: Poly, d1: Poly, z: Poly, coef: int, e: int, g: int)
    requires |d0| == |d1| == |z| > 0
    ensures Add(Times(d0, Scale(-(coef * g), Rot(z, e))), Times(d1, Scale(coef * g, Rot(One(|z|), e))))
         == Scale(coef, Rot(RingPhase(Scale(g, d0), Scale(g, d1), z), e))
  {
    var u, v := Rot(Times(d0, z), e), Rot(d1, e);
    assert Times(d0, Scale(-(coef * g), Rot(z, e))) == Scale(-(coef * g), u) by {
      MulScaleR(-1, d0, -(coef * g), Rot(z, e));
      RotTimesR(d0, z, e);
    }
    assert Times(d1, Scale(coef * g, Rot(One(|z|), e))) == Scale(coef * g, v) by {
      MulScaleR(-1, d1, coef * g, Rot(One(|z|), e));
      TimesMonomial(d1, e);
    }
    assert Rot(RingPhase(Scale(g, d0), Scale(g, d1), z), e) == Sub(Scale(g, v), Scale(g, u)) by {
      MulScaleL(-1, g, d0, z);
      RotSub(Scale(g, d1), Scale(g, Times(d0, z)), e);
      RotScale(g, d1, e);
      RotScale(g, Times(d0, z), e);
    }
    ScaleDifference(coef, g, u, v);
  }

  lemma ScaleDifference(coef: int, g: int, u: Poly, v: Poly)
    requires |u| == |v|
    ensures Add(Scale(-(coef * g), u), Scale(coef * g, v)) == Scale(coef, Sub(Scale(g, v), Scale(g, u)))
  {
    var l, r := Add(Scale(-(coef * g), u), Scale(coef * g, v)), Scale(coef, Sub(Scale(g, v), Scale(g, u)));
    forall i | 0 <= i < |u|
      ensures l[i] == r[i]
    {
      DistributeDifference(coef, g, u[i], v[i]);
    }
  }

  lemma DistributeDifference(coef: int, g: int, x: int, y: int)
    ensures -(coef * g) * x + (coef * g) * y == coef * (g * y - g * x)
  {
    assert coef * (g * y) == (coef * g) * y && coef * (g * x) == (coef * g) * x;
    assert -(coef * g) * x == -((coef * g) * x);
  }

  lemma GadgetRowAt(m: Matrix, z: Poly, coef: int, e: int, beta: nat, base: nat, digits: nat, Q: nat, l: nat)
    requires |z| > 0 && Q > 0 && l < 2 * digits && IsRgsw(m, z, coef, e, beta, base, digits, Q)
    ensures NearPoly(RowPhase(m[l], z), GadgetTerm(z, coef, e, base, l), beta, Q)
  {
    RowEncrypts(m, z, coef, e, beta, base, Q, 2 * digits, l);
  }

  lemma GadgetTerms(z: Poly, coef: int, e: int, base: nat, i: nat, g: nat)
    requires |z| > 0 && g == Pow(base, i)
    ensures GadgetTerm(z, coef, e, base, 2 * i) == Scale(-(coef * g), Rot(z, e))
    ensures GadgetTerm(z, coef, e, base, 2 * i + 1) == Scale(coef * g, Rot(One(|z|), e))
  {
    assert (2 * i) / 2 == i && (2 * i + 1) / 2 == i && (2 * i) % 2 == 0 && (2 * i + 1) % 2 == 1;
  }

  // ---------- the gadget terms and the noise of the rows ----------

  /** What row l holds besides its gadget term. */
  ghost function RowNoise(m: Matrix, z: Poly, coef: int, e: int, base: nat, l: nat): (r: Poly)
    requires |z| > 0 && l < |m| && IsMatrix(m, |m|, |z|)
    ensures |r| == |z|
  {
    Sub(RowPhase(m[l], z), GadgetTerm(z, coef, e, base, l))
  }

  /** The digit polynomials combined with the gadget terms. */
  ghost function GadgetSum(d: seq<Poly>, z: Poly, coef: int, e: int, base: nat, l: nat): (r: Poly)
    requires |z| > 0 && l <= |d|
    ensures |r| == |z|
  {
    if l == 0 then Zero(|z|)
    else Add(GadgetSum(d, z, coef, e, base, l - 1), Times(d[l - 1], GadgetTerm(z, coef, e, base, l - 1)))
  }

  /** The digit polynomials combined with the noise of the rows. */
  ghost function DigitNoise(d: seq<Poly>, m: Matrix, z: Poly, coef: int, e: int, base: nat, l: nat): (r: Poly)
    requires |z| > 0 && IsMatrix(m, |d|, |z|) && l <= |d|
    ensures |r| == |z|
  {
    if l == 0 then Zero(|z|)
    else Add(DigitNoise(d, m, z, coef, e, base, l - 1), Times(d[l - 1], RowNoise(m, z, coef, e, base, l - 1)))
  }

  lemma {:induction false} SumSplits(d: seq<Poly>, m: Matrix, z: Poly, coef: int, e: int, base: nat, l: nat)
    requires |z| > 0 && IsMatrix(m, |d|, |z|) && l <= |d|
    ensures PhaseSum(d, m, z, l) == Add(GadgetSum(d, z, coef, e, base, l), DigitNoise(d, m, z, coef, e, base, l))
    decreases l, 1
  {
    if l == 0 {
      NothingSummed(d, m, z, coef, e, base);
    } else {
      SumSplitsMore(d, m, z, coef, e, base, l - 1, l);
    }
  }

  lemma {:induction false} SumSplitsMore(d: seq<Poly>, m: Matrix, z: Poly, coef: int, e: int, base: nat, h: nat, l: nat)
    requires |z| > 0 && IsMatrix(m, |d|, |z|) && l == h + 1 <= |d|
    ensures PhaseSum(d, m, z, l) == Add(GadgetSum(d, z, coef, e, base, l), DigitNoise(d, m, z, coef, e, base, l))
    decreases l, 0
  {
    SumSplits(d, m, z, coef, e, base, h);
    SumSplitsNext(d, m, z, coef, e, base, h, l);
  }

  lemma NothingSummed(d: seq<Poly>, m: Matrix, z: Poly, coef: int, e: int, base: nat)
    requires |z| > 0 && IsMatrix(m, |d|, |z|)
    ensures PhaseSum(d, m, z, 0) == Add(GadgetSum(d, z, coef, e, base, 0), DigitNoise(d, m, z, coef, e, base, 0))
  {
    AddZero(Zero(|z|));
  }

  lemma SumSplitsNext(d: seq<Poly>, m: Matrix, z: Poly, coef: int, e: int, base: nat, h: nat, l: nat)
    requires |z| > 0 && IsMatrix(m, |d|, |z|) && l == h + 1 <= |d|
    requires PhaseSum(d, m, z, h) == Add(GadgetSum(d, z, coef, e, base, h), DigitNoise(d, m, z, coef, e, base, h))
    ensures PhaseSum(d, m, z, l) == Add(GadgetSum(d, z, coef, e, base, l), DigitNoise(d, m, z, coef, e, base, l))
  {
    PhaseSumOne(d, m, z, h, l);
    GadgetSumOne(d, z, coef, e, base, h, l);
    DigitNoiseOne(d, m, z, coef, e, base, h, l);
    RowSplits(d[h], RowPhase(m[h], z), GadgetTerm(z, coef, e, base, h), GadgetSum(d, z, coef, e, base, h),
              DigitNoise(d, m, z, coef, e, base, h));
  }

  lemma RowSplits(x: Poly, row: Poly, t: Poly, sum: Poly, noise: Poly)
    requires |row| == |t| == |sum| == |noise|
    ensures Add(Add(sum, noise), Times(x, row)) == Add(Add(sum, Times(x, t)), Add(noise, Times(x, Sub(row, t))))
  {
    AddSub(row, t);
    AddComm(Sub(row, t), t);
    MulAddR(-1, x, t, Sub(row, t));
    AddSwap(sum, noise, Times(x, t), Times(x, Sub(row, t)));
  }

  lemma PhaseSumOne(d: seq<Poly>, m: Matrix, z: Poly, l: nat, l': nat)
    requires IsMatrix(m, |d|, |z|) && l' == l + 1 <= |d|
    ensures PhaseSum(d, m, z, l') == Add(PhaseSum(d, m, z, l), Times(d[l], RowPhase(m[l], z)))
  {
  }

  lemma DigitNoiseOne(d: seq<Poly>, m: Matrix, z: Poly, coef: int, e: int, base: nat, l: nat, l': nat)
    requires |z| > 0 && IsMatrix(m, |d|, |z|) && l' == l + 1 <= |d|
    ensures DigitNoise(d, m, z, coef, e, base, l')
         == Add(DigitNoise(d, m, z, coef, e, base, l),
                Times(d[l], Sub(RowPhase(m[l], z), GadgetTerm(z, coef, e, base, l))))
  {
  }

  lemma GadgetSumOne(d: seq<Poly>, z: Poly, coef: int, e: int, base: nat, l: nat, l': nat)
    requires |z| > 0 && l' == l + 1 <= |d|
    ensures GadgetSum(d, z, coef, e, base, l')
         == Add(GadgetSum(d, z, coef, e, base, l), Times(d[l], GadgetTerm(z, coef, e, base, l)))
  {
  }

  lemma GadgetSumTwo(d: seq<Poly>, z: Poly, coef: int, e: int, base: nat, l0: nat, l1: nat, l2: nat)
    requires |z| > 0 && l1 == l0 + 1 && l2 == l1 + 1 <= |d|
    ensures GadgetSum(d, z, coef, e, base, l2)
         == Add(GadgetSum(d, z, coef, e, base, l0),
                Add(Times(d[l0], GadgetTerm(z, coef, e, base, l0)), Times(d[l1], GadgetTerm(z, coef, e, base, l1))))
  {
    GadgetSumOne(d, z, coef, e, base, l0, l1);
    GadgetSumOne(d, z, coef, e, base, l1, l2);
    AddAssoc(GadgetSum(d, z, coef, e, base, l0), Times(d[l0], GadgetTerm(z, coef, e, base, l0)),
             Times(d[l1], GadgetTerm(z, coef, e, base, l1)));
  }

  /** What the digits number h of both components contribute to the gadget sum. */
  lemma GadgetPair(ct: seq<Poly>, z: Poly, coef: int, e: int, base: nat, digits: nat, h: nat, g: nat, Q: nat)
    requires base > 0 && IsPair(ct, |z|) && |z| > 0 && h < digits && g == Pow(base, h)
    ensures var d := AllDigits(ct, base, digits, Q);
            Add(Times(d[2 * h], GadgetTerm(z, coef, e, base, 2 * h)),
                Times(d[2 * h + 1], GadgetTerm(z, coef, e, base, 2 * h + 1)))
            == Scale(coef, Rot(DigitPhase(ct, z, base, h, g, Q), e))
  {
    DigitRows(ct, base, digits, Q, h);
    GadgetTerms(z, coef, e, base, h, g);
    GadgetTimesDigit(DigitPoly(ct[0], base, h, Q), DigitPoly(ct[1], base, h, Q), z, coef, e, g);
  }

  /** The gadget sum is the message times what the digits recompose to. */
  lemma {:induction false} GadgetSumIs(ct: seq<Poly>, z: Poly, coef: int, e: int, base: nat, digits: nat, i: nat,
                                       Q: nat)
    requires Q > 0 && base > 0 && IsPair(ct, |z|) && |z| > 0 && i <= digits
    ensures Eqv(GadgetSum(AllDigits(ct, base, digits, Q), z, coef, e, base, 2 * i),
                Scale(coef, Rot(PartPhase(ct, z, base, i, Q), e)), Q)
    decreases i, 1
  {
    if i == 0 {
      NoGadget(ct, z, coef, e, base, digits, Q);
    } else {
      GadgetSumMore(ct, z, coef, e, base, digits, i - 1, i, Q);
    }
  }

  lemma {:induction false} GadgetSumMore(ct: seq<Poly>, z: Poly, coef: int, e: int, base: nat, digits: nat, h: nat,
                                         i: nat, Q: nat)
    requires Q > 0 && base > 0 && IsPair(ct, |z|) && |z| > 0 && i == h + 1 <= digits
    ensures Eqv(GadgetSum(AllDigits(ct, base, digits, Q), z, coef, e, base, 2 * i),
                Scale(coef, Rot(PartPhase(ct, z, base, i, Q), e)), Q)
    decreases i, 0
  {
    GadgetSumIs(ct, z, coef, e, base, digits, h, Q);
    GadgetSumNext(ct, z, coef, e, base, digits, h, i, Pow(base, h), Q);
  }

  lemma NoGadget(ct: seq<Poly>, z: Poly, coef: int, e: int, base: nat, digits: nat, Q: nat)
    requires Q > 0 && base > 0 && IsPair(ct, |z|) && |z| > 0
    ensures Eqv(GadgetSum(AllDigits(ct, base, digits, Q), z, coef, e, base, 2 * 0),
                Scale(coef, Rot(PartPhase(ct, z, base, 0, Q), e)), Q)
  {
    EmptyPart(ct, z, coef, e, base, Q);
  }

  lemma GadgetSumNext(ct: seq<Poly>, z: Poly, coef: int, e: int, base: nat, digits: nat, h: nat, i: nat, g: nat,
                      Q: nat)
    requires Q > 0 && base > 0 && IsPair(ct, |z|) && |z| > 0 && i == h + 1 <= digits && g == Pow(base, h)
    requires Eqv(GadgetSum(AllDigits(ct, base, digits, Q), z, coef, e, base, 2 * h),
                 Scale(coef, Rot(PartPhase(ct, z, base, h, Q), e)), Q)
    ensures Eqv(GadgetSum(AllDigits(ct, base, digits, Q), z, coef, e, base, 2 * i),
                Scale(coef, Rot(PartPhase(ct, z, base, i, Q), e)), Q)
  {
    var sum, more := GadgetSum(AllDigits(ct, base, digits, Q), z, coef, e, base, 2 * h),
                     DigitPhase(ct, z, base, h, g, Q);
    GadgetSumTwo(AllDigits(ct, base, digits, Q), z, coef, e, base, 2 * h, 2 * h + 1, 2 * i);
    GadgetPair(ct, z, coef, e, base, digits, h, g, Q);
    PartPhaseNext(ct, z, base, h, i, g, Q);
    MessageTimesSum(sum, PartPhase(ct, z, base, i, Q), PartPhase(ct, z, base, h, Q), more, coef, e, Q);
  }

  /** Multiplying by coef * X^e is linear. */
  lemma MessageTimesSum(sum: Poly, whole: Poly, part: Poly, rest: Poly, coef: int, e: int, q: int)
    requires q > 0 && |sum| == |whole| == |part| == |rest| > 0
    requires Eqv(sum, Scale(coef, Rot(part, e)), q) && Eqv(whole, Add(part, rest), q)
    ensures Eqv(Add(sum, Scale(coef, Rot(rest, e))), Scale(coef, Rot(whole, e)), q)
  {
    RotAdd(part, rest, e);
    ScaleAdd(coef, Rot(part, e), Rot(rest, e));
    RotEqv(whole, Add(part, rest), e, q);
    EqvScale(coef, coef, Rot(whole, e), Rot(Add(part, rest), e), q);
    EqvAdd(sum, Scale(coef, Rot(part, e)), Scale(coef, Rot(rest, e)), Scale(coef, Rot(rest, e)), q);
  }

  lemma EmptyPart(ct: seq<Poly>, z: Poly, coef: int, e: int, base: nat, Q: nat)
    requires base > 0 && IsPair(ct, |z|) && |z| > 0
    ensures Scale(coef, Rot(PartPhase(ct, z, base, 0, Q), e)) == Zero(|z|)
  {
    PhaseOfZero(z);
    RotOfZero(|z|, e);
    assert Scale(coef, Zero(|z|)) == Zero(|z|);
  }

  // ---------- the error of an inexact decomposition ----------

  /** Weight of a final carry modulo Q: base^digits - Q, unless no carry can occur. */
  ghost function CarryWeight(base: nat, digits: nat, Q: nat): nat
    requires GadgetFits(base, digits, Q)
  {
    if ExactGadget(base, digits, Q) then 0 else Pow(base, digits) - Q
  }

  /** Without carries the recomposition is exact; with them the carries are bits. */
  lemma CarryPolyBounds(p: Poly, base: nat, digits: nat, Q: nat)
    requires GadgetFits(base, digits, Q) && Q >= 3 && Reduced(p, Q)
    ensures Bounded(CarryPoly(p, base, digits, Q), 1)
    ensures ExactGadget(base, digits, Q) ==> CarryPoly(p, base, digits, Q) == Zero(|p|)
  {
    var c := CarryPoly(p, base, digits, Q);
    ExactIff(base, digits, Q);
    forall k | 0 <= k < |p|
      ensures Abs(c[k]) <= 1 && (ExactGadget(base, digits, Q) ==> c[k] == 0)
    {
      assert c[k] == Carry(Centred(p[k], Q), base, digits);
      CarryBit(p[k], base, digits, Q);
    }
  }

  /** The phase is the recomposed part plus base^digits times the phase of the carries. */
  lemma CarriesLeft(ct: seq<Poly>, z: Poly, base: nat, digits: nat, Q: nat)
    requires base > 0 && Q > 0 && IsPair(ct, |z|)
    ensures Eqv(RowPhase(ct, z),
                Add(PartPhase(ct, z, base, digits, Q),
                    Scale(Pow(base, digits),
                          RingPhase(CarryPoly(ct[0], base, digits, Q), CarryPoly(ct[1], base, digits, Q), z))), Q)
  {
    var b := Pow(base, digits);
    var k0, k1 := CarryPoly(ct[0], base, digits, Q), CarryPoly(ct[1], base, digits, Q);
    var r0, r1 := Recomposed(ct[0], base, digits, Q), Recomposed(ct[1], base, digits, Q);
    RecomposedEqv(ct[0], base, digits, Q);
    RecomposedEqv(ct[1], base, digits, Q);
    PhaseEqv(ct[0], Add(r0, Scale(b, k0)), ct[1], Add(r1, Scale(b, k1)), z, z, Q);
    PhaseAdd(r0, r1, Scale(b, k0), Scale(b, k1), z);
    PhaseScale(b, k0, k1, z);
  }

  lemma PhaseScale(k: int, a: Poly, b: Poly, z: Poly)
    requires |a| == |b| == |z|
    ensures RingPhase(Scale(k, a), Scale(k, b), z) == Scale(k, RingPhase(a, b, z))
  {
    MulScaleL(-1, k, a, z);
    ScaleSub(k, b, Times(a, z));
  }

  lemma ScaleSub(k: int, p: Poly, r: Poly)
    requires |p| == |r|
    ensures Scale(k, Sub(p, r)) == Sub(Scale(k, p), Scale(k, r))
  {
    ScaleAdd(k, Sub(p, r), r);
    AddSub(p, r);
    AddSub(Scale(k, Sub(p, r)), Scale(k, r));
  }

  lemma PhaseBound(a: Poly, b: Poly, z: Poly)
    requires |a| == |b| == |z| && Bounded(a, 1) && Bounded(b, 1) && Bounded(z, 1)
    ensures Bounded(RingPhase(a, b, z), 1 + |z|)
  {
    MulBound(a, z, 1, 1);
    assert |a| * (1 * 1) == |a|;
  }

  // ---------- the phase of the product ----------

  /** base^digits times the phase of the carries, times the message: what the program drops. */
  ghost function CarryTerm(ct: seq<Poly>, z: Poly, coef: int, e: int, base: nat, digits: nat, Q: nat): (r: Poly)
    requires base > 0 && IsPair(ct, |z|) && |z| > 0
    ensures |r| == |z|
  {
    Scale(coef, Rot(DroppedPhase(ct, z, base, digits, Q), e))
  }

  ghost function DroppedPhase(ct: seq<Poly>, z: Poly, base: nat, digits: nat, Q: nat): (r: Poly)
    requires base > 0 && IsPair(ct, |z|)
    ensures |r| == |z|
  {
    Scale(Pow(base, digits), RingPhase(CarryPoly(ct[0], base, digits, Q), CarryPoly(ct[1], base, digits, Q), z))
  }

  /** The noise of an external product: the digits times the noise of the rows, less what the carries would add. */
  ghost function ProductNoise(ct: seq<Poly>, m: Matrix, z: Poly, coef: int, e: int, base: nat, digits: nat, Q: nat)
    : (r: Poly)
    requires base > 0 && IsPair(ct, |z|) && |z| > 0 && IsMatrix(m, 2 * digits, |z|)
    ensures |r| == |z|
  {
    Sub(DigitNoise(AllDigits(ct, base, digits, Q), m, z, coef, e, base, 2 * digits),
        CarryTerm(ct, z, coef, e, base, digits, Q))
  }

  /**
   For every matrix, secret and message: the external product multiplies the phase by the message, plus
   exactly this noise.
   */
  lemma ExternalProductExact(ct: seq<Poly>, m: Matrix, z: Poly, coef: int, e: int, base: nat, digits: nat, Q: nat)
    requires Q > 0 && base > 0 && IsPair(ct, |z|) && |z| > 0 && IsMatrix(m, 2 * digits, |z|)
    ensures Eqv(RowPhase(ExternalProduct(ct, m, base, digits, Q), z),
                Add(Scale(coef, Rot(RowPhase(ct, z), e)), ProductNoise(ct, m, z, coef, e, base, digits, Q)), Q)
  {
    var d := AllDigits(ct, base, digits, Q);
    var sum, noise := GadgetSum(d, z, coef, e, base, 2 * digits), DigitNoise(d, m, z, coef, e, base, 2 * digits);
    var dropped := CarryTerm(ct, z, coef, e, base, digits, Q);
    ExternalProductSum(ct, m, z, base, digits, Q);
    SumSplits(d, m, z, coef, e, base, 2 * digits);
    GadgetSumIs(ct, z, coef, e, base, digits, digits, Q);
    CarriesLeft(ct, z, base, digits, Q);
    MessageTimesSum(sum, RowPhase(ct, z), PartPhase(ct, z, base, digits, Q), DroppedPhase(ct, z, base, digits, Q),
                    coef, e, Q);
    MoveTerm(RowPhase(ExternalProduct(ct, m, base, digits, Q), z), sum, noise, dropped,
             Scale(coef, Rot(RowPhase(ct, z), e)), Q);
  }

  lemma MoveTerm(r: Poly, sum: Poly, noise: Poly, dropped: Poly, target: Poly, q: int)
    requires q > 0 && |r| == |sum| == |noise| == |dropped| == |target|
    requires Eqv(Add(sum, noise), r, q) && Eqv(Add(sum, dropped), target, q)
    ensures Eqv(r, Add(target, Sub(noise, dropped)), q)
  {
    EqvAdd(Add(sum, dropped), target, Sub(noise, dropped), Sub(noise, dropped), q);
    assert Add(Add(sum, dropped), Sub(noise, dropped)) == Add(sum, noise);
  }

  // ---------- bounds ----------

  /** The digits times the noise of l rows with errors of size at most beta. */
  lemma {:induction false} DigitNoiseSmall(ct: seq<Poly>, m: Matrix, z: Poly, coef: int, e: int, beta: nat, base: nat,
                                           digits: nat, Q: nat, l: nat)
    requires Q > 0 && base >= 2 && base % 2 == 0 && IsPair(ct, |z|) && |z| > 0 && l <= 2 * digits
    requires IsRgsw(m, z, coef, e, beta, base, digits, Q)
    ensures NearPoly(DigitNoise(AllDigits(ct, base, digits, Q), m, z, coef, e, base, l), Zero(|z|),
                     Multiple(l, RowError(|z|, base / 2, beta)), Q)
    decreases l, 1
  {
    if l == 0 {
      NoNoise(AllDigits(ct, base, digits, Q), m, z, coef, e, base, Multiple(0, RowError(|z|, base / 2, beta)), Q);
    } else {
      DigitNoiseMore(ct, m, z, coef, e, beta, base, digits, Q, l - 1, l);
    }
  }

  lemma NoNoise(d: seq<Poly>, m: Matrix, z: Poly, coef: int, e: int, base: nat, bound: nat, Q: nat)
    requires Q > 0 && |z| > 0 && IsMatrix(m, |d|, |z|) && bound == 0
    ensures NearPoly(DigitNoise(d, m, z, coef, e, base, 0), Zero(|z|), bound, Q)
  {
    NearPolyRefl(Zero(|z|), Zero(|z|), Q);
  }

  lemma {:induction false} DigitNoiseMore(ct: seq<Poly>, m: Matrix, z: Poly, coef: int, e: int, beta: nat, base: nat,
                                          digits: nat, Q: nat, h: nat, l: nat)
    requires Q > 0 && base >= 2 && base % 2 == 0 && IsPair(ct, |z|) && |z| > 0 && l == h + 1 <= 2 * digits
    requires IsRgsw(m, z, coef, e, beta, base, digits, Q)
    ensures NearPoly(DigitNoise(AllDigits(ct, base, digits, Q), m, z, coef, e, base, l), Zero(|z|),
                     Multiple(l, RowError(|z|, base / 2, beta)), Q)
    decreases l, 0
  {
    DigitNoiseSmall(ct, m, z, coef, e, beta, base, digits, Q, h);
    DigitNoiseNext(ct, m, z, coef, e, beta, base, digits, Q, h, l);
  }

  lemma DigitNoiseNext(ct: seq<Poly>, m: Matrix, z: Poly, coef: int, e: int, beta: nat, base: nat, digits: nat, Q: nat,
                       h: nat, l: nat)
    requires Q > 0 && base >= 2 && base % 2 == 0 && IsPair(ct, |z|) && |z| > 0 && l == h + 1 <= 2 * digits
    requires IsRgsw(m, z, coef, e, beta, base, digits, Q)
    requires NearPoly(DigitNoise(AllDigits(ct, base, digits, Q), m, z, coef, e, base, h), Zero(|z|),
                      Multiple(h, RowError(|z|, base / 2, beta)), Q)
    ensures NearPoly(DigitNoise(AllDigits(ct, base, digits, Q), m, z, coef, e, base, l), Zero(|z|),
                     Multiple(l, RowError(|z|, base / 2, beta)), Q)
  {
    var d := AllDigits(ct, base, digits, Q);
    RowNoiseSmall(ct, m, z, coef, e, beta, base, digits, Q, h);
    MultipleNext(l, h, RowError(|z|, base / 2, beta));
    DigitNoiseOne(d, m, z, coef, e, base, h, l);
    NoiseAdd(DigitNoise(d, m, z, coef, e, base, h),
             Times(d[h], Sub(RowPhase(m[h], z), GadgetTerm(z, coef, e, base, h))),
             Multiple(h, RowError(|z|, base / 2, beta)), RowError(|z|, base / 2, beta), Q);
  }

  lemma RowNoiseSmall(ct: seq<Poly>, m: Matrix, z: Poly, coef: int, e: int, beta: nat, base: nat, digits: nat, Q: nat,
                      l: nat)
    requires Q > 0 && base >= 2 && base % 2 == 0 && IsPair(ct, |z|) && |z| > 0 && l < 2 * digits
    requires IsRgsw(m, z, coef, e, beta, base, digits, Q)
    ensures NearPoly(Times(AllDigits(ct, base, digits, Q)[l], Sub(RowPhase(m[l], z), GadgetTerm(z, coef, e, base, l))),
                     Zero(|z|), RowError(|z|, base / 2, beta), Q)
  {
    GadgetRowAt(m, z, coef, e, beta, base, digits, Q, l);
    DigitPolyBounded(ct[l % 2], base, l / 2, Q);
    NoiseTimes(AllDigits(ct, base, digits, Q)[l], RowPhase(m[l], z), GadgetTerm(z, coef, e, base, l), base / 2, beta,
               Q);
  }

  lemma CarryTermSmall(ct: seq<Poly>, z: Poly, coef: int, e: int, base: nat, digits: nat, Q: nat)
    requires GadgetFits(base, digits, Q) && Q >= 3 && IsPair(ct, |z|) && |z| > 0 && 0 <= coef <= 1
    requires Bounded(z, 1) && Reduced(ct[0], Q) && Reduced(ct[1], Q)
    ensures NearPoly(CarryTerm(ct, z, coef, e, base, digits, Q), Zero(|z|),
                     Multiple(1 + |z|, CarryWeight(base, digits, Q)), Q)
  {
    var y := Multiple(1 + |z|, CarryWeight(base, digits, Q));
    DroppedSmall(ct, z, base, digits, Q);
    NearPolyRot(DroppedPhase(ct, z, base, digits, Q), Zero(|z|), e, y, Q);
    RotOfZero(|z|, e);
    NearScaleBit(coef, Rot(DroppedPhase(ct, z, base, digits, Q), e), Zero(|z|), y, Q);
    assert Scale(coef, Zero(|z|)) == Zero(|z|);
  }

  lemma DroppedSmall(ct: seq<Poly>, z: Poly, base: nat, digits: nat, Q: nat)
    requires GadgetFits(base, digits, Q) && Q >= 3 && IsPair(ct, |z|)
    requires Bounded(z, 1) && Reduced(ct[0], Q) && Reduced(ct[1], Q)
    ensures NearPoly(DroppedPhase(ct, z, base, digits, Q), Zero(|z|), Multiple(1 + |z|, CarryWeight(base, digits, Q)),
                     Q)
  {
    var k0, k1 := CarryPoly(ct[0], base, digits, Q), CarryPoly(ct[1], base, digits, Q);
    CarryPolyBounds(ct[0], base, digits, Q);
    CarryPolyBounds(ct[1], base, digits, Q);
    PhaseBound(k0, k1, z);
    if ExactGadget(base, digits, Q) {
      PhaseOfZero(z);
    }
    CarryWeighs(RingPhase(k0, k1, z), Pow(base, digits), CarryWeight(base, digits, Q), 1 + |z|, Q);
  }

  lemma CarryWeighs(kappa: Poly, b: nat, w: nat, size: nat, Q: nat)
    requires Q > 0 && Bounded(kappa, size) && (b == w + Q || (w == 0 && kappa == Zero(|kappa|)))
    ensures NearPoly(Scale(b, kappa), Zero(|kappa|), Multiple(size, w), Q)
  {
    if b == w + Q {
      CongFrom(b, w, 1, Q);
      EqvScale(b, w, kappa, kappa, Q);
    } else {
      assert Scale(b, kappa) == Scale(w, kappa);
    }
    BoundedScale(w, kappa, w, size);
    MultipleIs(size, w);
    assert size * w == w * size;
    NoiseIntro(Scale(b, kappa), Scale(w, kappa), Multiple(size, w), Q);
  }

  /** Largest error that one external product can add. */
  ghost function ProductError(n: nat, beta: nat, base: nat, digits: nat, Q: nat): nat
    requires GadgetFits(base, digits, Q)
  {
    Multiple(2 * digits, RowError(n, base / 2, beta)) + Multiple(1 + n, CarryWeight(base, digits, Q))
  }

  /** For an encryption with errors of size at most beta the noise is that small. */
  lemma ProductNoiseSmall(ct: seq<Poly>, m: Matrix, z: Poly, coef: int, e: int, beta: nat, base: nat, digits: nat,
                          Q: nat)
    requires GadgetFits(base, digits, Q) && Q >= 3 && IsPair(ct, |z|) && |z| > 0
    requires Bounded(z, 1) && Reduced(ct[0], Q) && Reduced(ct[1], Q)
    requires 0 <= coef <= 1 && IsRgsw(m, z, coef, e, beta, base, digits, Q)
    ensures NearPoly(ProductNoise(ct, m, z, coef, e, base, digits, Q), Zero(|z|),
                     ProductError(|z|, beta, base, digits, Q), Q)
  {
    DigitNoiseSmall(ct, m, z, coef, e, beta, base, digits, Q, 2 * digits);
    CarryTermSmall(ct, z, coef, e, base, digits, Q);
    NoiseSub(DigitNoise(AllDigits(ct, base, digits, Q), m, z, coef, e, base, 2 * digits),
             CarryTerm(ct, z, coef, e, base, digits, Q), Multiple(2 * digits, RowError(|z|, base / 2, beta)),
             Multiple(1 + |z|, CarryWeight(base, digits, Q)), Q);
  }

  /** The external product with an encryption of coef * X^e, coef 0 or 1, multiplies the phase by it. */
  lemma ExternalProductPhase(ct: seq<Poly>, m: Matrix, z: Poly, coef: int, e: int, beta: nat, base: nat, digits: nat,
                             Q: nat)
    requires GadgetFits(base, digits, Q) && Q >= 3 && IsPair(ct, |z|) && |z| > 0
    requires Bounded(z, 1) && Reduced(ct[0], Q) && Reduced(ct[1], Q)
    requires 0 <= coef <= 1 && IsRgsw(m, z, coef, e, beta, base, digits, Q)
    ensures NearPoly(RowPhase(ExternalProduct(ct, m, base, digits, Q), z), Scale(coef, Rot(RowPhase(ct, z), e)),
                     ProductError(|z|, beta, base, digits, Q), Q)
  {
    ExternalProductExact(ct, m, z, coef, e, base, digits, Q);
    ProductNoiseSmall(ct, m, z, coef, e, beta, base, digits, Q);
    NearByNoise(RowPhase(ExternalProduct(ct, m, base, digits, Q), z), Scale(coef, Rot(RowPhase(ct, z), e)),
                ProductNoise(ct, m, z, coef, e, base, digits, Q), ProductError(|z|, beta, base, digits, Q), Q);
  }

  lemma ExternalProductSum(ct: seq<Poly>, m: Matrix, z: Poly, base: nat, digits: nat, Q: nat)
    requires Q > 0 && base > 0 && IsPair(ct, |z|) && IsMatrix(m, 2 * digits, |z|)
    ensures Eqv(PhaseSum(AllDigits(ct, base, digits, Q), m, z, 2 * digits),
                RowPhase(ExternalProduct(ct, m, base, digits, Q), z), Q)
  {
    var d, l := AllDigits(ct, base, digits, Q), 2 * digits;
    var c0, c1 := Dot(d, m, 0, l, |z|), Dot(d, m, 1, l, |z|);
    ReduceEqv(c0, Q);
    ReduceEqv(c1, Q);
    PhaseEqv(Reduce(c0, Q), c0, Reduce(c1, Q), c1, z, z, Q);
    DotPhase(d, m, z, l);
  }

  lemma NearScaleBit(coef: int, p: Poly, t: Poly, d: nat, q: int)
    requires q > 0 && 0 <= coef <= 1 && NearPoly(p, t, d, q)
    ensures NearPoly(Scale(coef, p), Scale(coef, t), d, q)
  {
    if coef == 0 {
      assert Scale(0, p) == Scale(0, t);
      NearPolyRefl(Scale(0, p), Scale(0, t), q);
    } else {
      assert Scale(1, p) == p && Scale(1, t) == t;
    }
  }
}
