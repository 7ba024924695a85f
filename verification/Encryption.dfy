/**
 RingGSW encryption for both methods. Random samples are given: row l of a ciphertext is
 made from the uniform polynomial sampleA(l) and the error sampleE(l).
 */
module Encryption {
  import opened Arith
  import opened Poly
  import opened Negacyclic
  import opened Params
  import opened Rgsw
  import opened BlindRotate
  import opened Accumulators

  type Sampler = nat -> Poly

  /** sign * g added to coefficient k. */
  function WithGadget(p: Poly, k: nat, sign: int, g: int, Q: nat): (r: Poly)
    requires k < |p| && Q > 0
    ensures |r| == |p|
  {
    p[k := (p[k] + sign * g) % Q]
  }

  /** The row before the mask a * s is added; sign 0 stands for the encryption of zero. */
  function PlainRow(a: Poly, e: Poly, l: nat, k: nat, sign: int, g: int, Q: nat): (r: seq<Poly>)
    requires k < |a| == |e| && Q > 0
    ensures |r| == 2 && |r[0]| == |r[1]| == |a|
  {
    if sign == 0 then [a, e]
    else if l % 2 == 0 then [WithGadget(a, k, sign, g, Q), e]
    else [a, WithGadget(e, k, sign, g, Q)]
  }

  function MaskedRow(row: seq<Poly>, a: Poly, sk: Poly, Q: nat): (r: seq<Poly>)
    requires |row| == 2 && |row[0]| == |row[1]| == |a| == |sk| && Q > 0
    ensures |r| == 2 && |r[0]| == |r[1]| == |a|
  {
    [row[0], MulAdd(row[1], a, sk, Q)]
  }

  // ---------- what a row encrypts ----------

  /** sign * X^k is the power X^E of X. */
  predicate SignedPower(N: nat, k: nat, sign: int, E: nat) {
    k < N && ((sign == 1 && E == k) || (sign == -1 && E == k + N))
  }

  lemma WithGadgetEqv(p: Poly, k: nat, sign: int, E: nat, g: int, g': int, Q: nat)
    requires Q > 0 && SignedPower(|p|, k, sign, E) && Cong(g, g', Q)
    ensures Eqv(WithGadget(p, k, sign, g, Q), Add(p, Scale(g', Rot(One(|p|), E))), Q)
  {
    var r, m := WithGadget(p, k, sign, g, Q), Rot(One(|p|), E);
    var t := Add(p, Scale(g', m));
    forall i | 0 <= i < |p|
      ensures Cong(r[i], t[i], Q)
    {
      PowerAt(|p|, k, sign, E, i);
      assert m[i] == if i == k then sign else 0;
      assert t[i] == p[i] + g' * m[i];
      CoefficientAdded(p[i], g, g', if i == k then sign else 0, Q);
    }
    EqvIntro(r, t, Q);
  }

  lemma CoefficientAdded(x: int, g: int, g': int, sign: int, Q: nat)
    requires Q > 0 && Cong(g, g', Q)
    ensures Cong((x + sign * g) % Q, x + g' * sign, Q)
    ensures sign == 0 ==> x + g' * sign == x
  {
    CongMulL(sign, g, g', Q);
    assert sign * g' == g' * sign;
    CongAdd(x, x, sign * g, g' * sign, Q);
    CongMod(x + sign * g, Q);
  }

  lemma OneTimes(z: Poly)
    requires |z| > 0
    ensures Times(One(|z|), z) == z
  {
    var n := |z|;
    assert One(n)[1..] == Zero(n - 1);
    MulZeroL(-1, n - 1, Shift(-1, z));
    assert Scale(1, z) == z;
    AddZero(z);
  }

  /** X^E * z as a product. */
  lemma PowerTimes(z: Poly, E: int)
    requires |z| > 0
    ensures Times(Rot(One(|z|), E), z) == Rot(z, E)
  {
    OneTimes(z);
    RotTimesL(One(|z|), z, E);
  }

  /** The phase of a masked row: the error, what was added to b, minus z times what was added to a. */
  lemma MaskedPhase(a: Poly, b: Poly, U: Poly, V: Poly, e: Poly, a0: Poly, sk: Poly, z: Poly, Q: nat)
    requires Q > 0 && |a| == |b| == |U| == |V| == |e| == |a0| == |sk| == |z|
    requires Eqv(a, Add(a0, U), Q) && Eqv(b, Add(Add(e, V), Times(a0, sk)), Q) && Eqv(sk, z, Q)
    ensures Eqv(RingPhase(a, b, z), Add(e, Sub(V, Times(U, z))), Q)
  {
    EqvIntro(z, z, Q);
    PhaseEqv(a, Add(a0, U), b, Add(Add(e, V), Times(a0, sk)), z, z, Q);
    MulAddL(-1, a0, U, z);
    EqvIntro(a0, a0, Q);
    EqvMul(-1, -1, a0, a0, sk, z, Q);
    MaskCancels(e, V, Times(a0, sk), Times(a0, z), Times(U, z), Q);
  }

  lemma MaskCancels(e: Poly, v: Poly, m: Poly, m': Poly, u: Poly, Q: nat)
    requires Q > 0 && |e| == |v| == |m| == |m'| == |u| && Eqv(m, m', Q)
    ensures Eqv(Sub(Add(Add(e, v), m), Add(m', u)), Add(e, Sub(v, u)), Q)
  {
    var l, r := Sub(Add(Add(e, v), m), Add(m', u)), Add(e, Sub(v, u));
    EqvElim(m, m', Q);
    forall i | 0 <= i < |l|
      ensures Cong(l[i], r[i], Q)
    {
      assert l[i] == r[i] + (m[i] - m'[i]);
      CongSub(m[i], m'[i], m'[i], m'[i], Q);
      CongAdd(r[i], r[i], m[i] - m'[i], 0, Q);
    }
    EqvIntro(l, r, Q);
  }

  /** Everything about one row that does not depend on the others. */
  ghost predicate RowMade(row: seq<Poly>, a: Poly, e: Poly, sk: Poly, l: nat, k: nat, sign: int, g: int, Q: nat)
    requires Q > 0
  {
    k < |a| == |e| == |sk| && row == MaskedRow(PlainRow(a, e, l, k, sign, g, Q), a, sk, Q)
  }

  /** What the first column of row l holds besides the mask: the gadget power times the message in the even rows. */
  ghost function ColumnTerm(n: nat, coef: int, e: int, base: nat, l: nat): (r: Poly)
    requires n > 0
    ensures |r| == n
  {
    if l % 2 == 0 then Scale(coef * Pow(base, l / 2), Rot(One(n), e)) else Zero(n)
  }

  /** The row holds the gadget term for coef * X^E, with exactly the mask a and the error e. */
  ghost predicate HoldsRow(row: seq<Poly>, z: Poly, coef: int, E: int, base: nat, l: nat, a: Poly, e: Poly, Q: nat)
    requires |z| > 0 && Q > 0
  {
    && IsPair(row, |z|) && |a| == |e| == |z|
    && Eqv(row[0], Add(a, ColumnTerm(|z|, coef, E, base, l)), Q)
    && Eqv(RowPhase(row, z), Add(GadgetTerm(z, coef, E, base, l), e), Q)
  }

  /** For every mask and every error: the row holds the right gadget term, with exactly that mask and that error. */
  lemma RowEncryptsGadget(row: seq<Poly>, a: Poly, e: Poly, sk: Poly, z: Poly, l: nat, k: nat, sign: int, E: nat,
                          g: int, base: nat, Q: nat)
    requires Q > 0 && RowMade(row, a, e, sk, l, k, sign, g, Q) && |z| == |sk| && Eqv(sk, z, Q)
    requires Cong(g, Pow(base, l / 2), Q) && (sign == 0 || SignedPower(|z|, k, sign, E))
    ensures HoldsRow(row, z, if sign == 0 then 0 else 1, E, base, l, a, e, Q)
    ensures Reduced(row[1], Q) && (Reduced(a, Q) ==> Reduced(row[0], Q))
  {
    var n, p := |z|, Pow(base, l / 2);
    var M := Scale(p, Rot(One(n), E));
    var U := if sign == 0 || l % 2 == 1 then Zero(n) else M;
    var V := if sign == 0 || l % 2 == 0 then Zero(n) else M;
    ColumnsEqv(a, e, l, k, sign, E, g, p, U, V, M, Q);
    var plain := PlainRow(a, e, l, k, sign, g, Q);
    EqvIntro(a, a, Q);
    MulAddEqv(plain[1], Add(e, V), a, a, sk, Q);
    MaskedPhase(row[0], row[1], U, V, e, a, sk, z, Q);
    TermIs(z, sign, E, base, l, p, U, V, M);
    ColumnIs(n, sign, E, base, l, p, U, M);
    AddComm(e, Sub(V, Times(U, z)));
  }

  lemma ColumnIs(n: nat, sign: int, E: nat, base: nat, l: nat, p: nat, U: Poly, M: Poly)
    requires n > 0 && p == Pow(base, l / 2) && M == Scale(p, Rot(One(n), E))
    requires U == if sign == 0 || l % 2 == 1 then Zero(n) else M
    ensures U == ColumnTerm(n, if sign == 0 then 0 else 1, E, base, l)
  {
    if sign == 0 {
      NoTerm(Rot(One(n), E));
      assert 0 * p == 0;
    } else {
      assert 1 * p == p;
    }
  }

  lemma ColumnsEqv(a: Poly, e: Poly, l: nat, k: nat, sign: int, E: nat, g: int, p: nat, U: Poly, V: Poly, M: Poly,
                   Q: nat)
    requires Q > 0 && k < |a| == |e| && Cong(g, p, Q) && (sign == 0 || SignedPower(|a|, k, sign, E))
    requires M == Scale(p, Rot(One(|a|), E))
    requires U == if sign == 0 || l % 2 == 1 then Zero(|a|) else M
    requires V == if sign == 0 || l % 2 == 0 then Zero(|a|) else M
    ensures Eqv(PlainRow(a, e, l, k, sign, g, Q)[0], Add(a, U), Q)
            && Eqv(PlainRow(a, e, l, k, sign, g, Q)[1], Add(e, V), Q)
  {
    AddZero(a);
    AddZero(e);
    EqvIntro(a, a, Q);
    EqvIntro(e, e, Q);
    if sign != 0 {
      WithGadgetEqv(a, k, sign, E, g, p, Q);
      WithGadgetEqv(e, k, sign, E, g, p, Q);
    }
  }

  lemma TermIs(z: Poly, sign: int, E: nat, base: nat, l: nat, p: nat, U: Poly, V: Poly, M: Poly)
    requires |z| > 0 && p == Pow(base, l / 2) && M == Scale(p, Rot(One(|z|), E))
    requires U == if sign == 0 || l % 2 == 1 then Zero(|z|) else M
    requires V == if sign == 0 || l % 2 == 0 then Zero(|z|) else M
    ensures Sub(V, Times(U, z)) == GadgetTerm(z, if sign == 0 then 0 else 1, E, base, l)
  {
    MulZeroL(-1, |z|, z);
    if sign == 0 {
      NoTerm(Rot(z, E));
      NoTerm(Rot(One(|z|), E));
      assert -(0 * p) == 0 && 0 * p == 0;
    } else if l % 2 == 0 {
      MulScaleL(-1, p, Rot(One(|z|), E), z);
      PowerTimes(z, E);
      NegatedTerm(p, Rot(z, E));
      assert 1 * p == p;
    } else {
      TermAlone(M);
      assert 1 * p == p;
    }
  }

  lemma NoTerm(p: Poly)
    ensures Scale(0, p) == Zero(|p|) == Sub(Zero(|p|), Zero(|p|))
  {
  }

  lemma NegatedTerm(p: int, r: Poly)
    ensures Sub(Zero(|r|), Scale(p, r)) == Scale(-p, r)
  {
    var l, t := Sub(Zero(|r|), Scale(p, r)), Scale(-p, r);
    forall i | 0 <= i < |r|
      ensures l[i] == t[i]
    {
      assert -p * r[i] == -(p * r[i]);
    }
  }

  lemma TermAlone(p: Poly)
    ensures Sub(p, Zero(|p|)) == p
  {
  }

  // ---------- the methods ----------

  ghost predicate Samples(sampleA: Sampler, sampleE: Sampler, rows: nat, N: nat) {
    forall l: nat {:trigger sampleA(l)} {:trigger sampleE(l)} :: l < rows ==> |sampleA(l)| == N && |sampleE(l)| == N
  }

  /** The rows [a, e], before anything is added. */
  method SampleRows(sampleA: Sampler, sampleE: Sampler, rows: nat, ghost N: nat)
    returns (result: RingGSWCiphertext, tempA: seq<Poly>)
    requires Samples(sampleA, sampleE, rows, N)
    ensures fresh(result) && |result.elements| == |tempA| == rows
    ensures forall l {:trigger result.elements[l]} :: 0 <= l < rows ==> result.elements[l] == [sampleA(l), sampleE(l)]
    ensures forall l {:trigger tempA[l]} :: 0 <= l < rows ==> tempA[l] == sampleA(l)
  {
    result := new RingGSWCiphertext([]);
    tempA := [];
    for i := 0 to rows
      invariant fresh(result) && |result.elements| == |tempA| == i
      invariant forall l {:trigger result.elements[l]} :: 0 <= l < i ==> result.elements[l] == [sampleA(l), sampleE(l)]
      invariant forall l {:trigger tempA[l]} :: 0 <= l < i ==> tempA[l] == sampleA(l)
    {
      result.elements := result.elements + [[sampleA(i), sampleE(i)]];
      tempA := tempA + [sampleA(i)];
    }
  }

  /** The loop that adds sign * X^k times the gadget powers to the rows. */
  method AddGadget(params: RingGSWCryptoParams, result: RingGSWCiphertext, k: nat, sign: int, ghost was: Matrix)
    requires params.Valid() && sign != 0 && k < params.lwe.N && result.elements == was && |was| == params.digitsG2
    requires IsMatrix(was, params.digitsG2, params.lwe.N)
    modifies result
    ensures |result.elements| == |was|
    ensures forall l {:trigger result.elements[l]} :: 0 <= l < |was| ==>
        result.elements[l] == PlainRow(was[l][0], was[l][1], l, k, sign, params.Gpower[l / 2], params.lwe.Q)
  {
    var Q := params.lwe.Q;
    for i := 0 to params.digitsG
      invariant |result.elements| == |was|
      invariant forall l {:trigger result.elements[l]} :: 0 <= l < 2 * i ==>
          result.elements[l] == PlainRow(was[l][0], was[l][1], l, k, sign, params.Gpower[l / 2], Q)
      invariant forall l {:trigger result.elements[l]} :: 2 * i <= l < |was| ==> result.elements[l] == was[l]
    {
      var g, even, odd := params.Gpower[i], result.elements[2 * i], result.elements[2 * i + 1];
      assert even == was[2 * i] && odd == was[2 * i + 1];
      PairRows(even, odd, i, k, sign, g, Q, params.lwe.N);
      result.elements := result.elements[2 * i := even[0 := WithGadget(even[0], k, sign, g, Q)]];
      result.elements := result.elements[2 * i + 1 := odd[1 := WithGadget(odd[1], k, sign, g, Q)]];
    }
  }

  lemma PairRows(even: seq<Poly>, odd: seq<Poly>, i: nat, k: nat, sign: int, g: int, Q: nat, N: nat)
    requires Q > 0 && sign != 0 && k < N && IsPair(even, N) && IsPair(odd, N)
    ensures even[0 := WithGadget(even[0], k, sign, g, Q)] == PlainRow(even[0], even[1], 2 * i, k, sign, g, Q)
    ensures odd[1 := WithGadget(odd[1], k, sign, g, Q)] == PlainRow(odd[0], odd[1], 2 * i + 1, k, sign, g, Q)
    ensures (2 * i) / 2 == i && (2 * i + 1) / 2 == i
  {
  }

  /** The loop that adds a * s to the second column. */
  method AddMasks(tempA: seq<Poly>, sk: Poly, Q: nat, result: RingGSWCiphertext, ghost was: Matrix)
    requires Q > 0 && |sk| > 0 && result.elements == was && |was| == |tempA|
    requires forall l {:trigger tempA[l]} :: 0 <= l < |tempA| ==> |tempA[l]| == |sk|
    requires IsMatrix(was, |was|, |sk|)
    modifies result
    ensures |result.elements| == |was|
    ensures forall l {:trigger result.elements[l]} :: 0 <= l < |was| ==>
        result.elements[l] == MaskedRow(was[l], tempA[l], sk, Q)
  {
    for i := 0 to |tempA|
      invariant |result.elements| == |was|
      invariant forall l {:trigger result.elements[l]} :: 0 <= l < i ==>
          result.elements[l] == MaskedRow(was[l], tempA[l], sk, Q)
      invariant forall l {:trigger result.elements[l]} :: i <= l < |was| ==> result.elements[l] == was[l]
    {
      var row := result.elements[i];
      assert row == was[i];
      result.elements := result.elements[i := [row[0], MulAdd(row[1], tempA[i], sk, Q)]];
    }
  }

  ghost predicate SmallErrors(sampleE: Sampler, rows: nat, N: nat, beta: nat, Q: nat)
    requires Q > 0
  {
    forall l: nat {:trigger sampleE(l)} :: l < rows ==> |sampleE(l)| == N && NearPoly(sampleE(l), Zero(N), beta, Q)
  }

  /** m encrypts coef * X^e under every secret congruent to sk. */
  ghost predicate EncryptsUnder(ps: ParamSet, m: Matrix, sk: Poly, coef: int, e: int, beta: nat) {
    match ps
    case ParamSet(_, N, _, Q, _, _, _, _) =>
      Supported(ps) && |sk| == N && forall z: Poly {:trigger Encrypts(ps, m, z, coef, e, beta)} ::
        |z| == N && Eqv(sk, z, Q) ==> Encrypts(ps, m, z, coef, e, beta)
  }

  /** Every row is made from its samples, with sign * X^k times its gadget power (nothing for sign 0). */
  ghost predicate RowsMade(ps: ParamSet, m: Matrix, sk: Poly, k: nat, sign: int, sampleA: Sampler, sampleE: Sampler) {
    // A match in place of selectors keeps the definition folded in proofs.
    match ps
    case ParamSet(_, _, _, Q, _, baseG, _, _) =>
      Q > 0 && baseG >= 2 && |m| == 2 * DigitsG(ps) && forall l {:trigger m[l]} :: 0 <= l < |m| ==>
        RowMade(m[l], sampleA(l), sampleE(l), sk, l, k, sign, Pow(baseG, l / 2) % Q, Q)
  }

  /** Under z, every row holds its gadget term for coef * X^e, its mask and its error, all of them exactly. */
  ghost predicate HoldsRows(ps: ParamSet, m: Matrix, z: Poly, coef: int, e: int, sampleA: Sampler, sampleE: Sampler) {
    match ps
    case ParamSet(_, N, _, Q, _, baseG, _, _) =>
      Supported(ps) && |z| == N && |m| == 2 * DigitsG(ps) && forall l {:trigger m[l]} :: 0 <= l < |m| ==>
        HoldsRow(m[l], z, coef, e, baseG, l, sampleA(l), sampleE(l), Q)
  }

  /** The same under every secret congruent to sk. */
  ghost predicate HoldsUnder(ps: ParamSet, m: Matrix, sk: Poly, coef: int, e: int, sampleA: Sampler, sampleE: Sampler) {
    match ps
    case ParamSet(_, N, _, Q, _, _, _, _) =>
      Supported(ps) && |sk| == N && forall z: Poly {:trigger HoldsRows(ps, m, z, coef, e, sampleA, sampleE)} ::
        |z| == N && Eqv(sk, z, Q) ==> HoldsRows(ps, m, z, coef, e, sampleA, sampleE)
  }

  lemma RowsMadeHold(ps: ParamSet, m: Matrix, sk: Poly, k: nat, sign: int, E: nat, sampleA: Sampler, sampleE: Sampler)
    requires Supported(ps) && |sk| == ps.N && RowsMade(ps, m, sk, k, sign, sampleA, sampleE)
    requires sign == 0 || SignedPower(ps.N, k, sign, E)
    ensures HoldsUnder(ps, m, sk, if sign == 0 then 0 else 1, E, sampleA, sampleE)
  {
    var coef := if sign == 0 then 0 else 1;
    forall z: Poly {:trigger HoldsRows(ps, m, z, coef, E, sampleA, sampleE)} | |z| == ps.N && Eqv(sk, z, ps.Q)
      ensures HoldsRows(ps, m, z, coef, E, sampleA, sampleE)
    {
      forall l {:trigger m[l]} | 0 <= l < |m|
        ensures HoldsRow(m[l], z, coef, E, ps.baseG, l, sampleA(l), sampleE(l), ps.Q)
      {
        CongMod(Pow(ps.baseG, l / 2), ps.Q);
        RowEncryptsGadget(m[l], sampleA(l), sampleE(l), sk, z, l, k, sign, E, Pow(ps.baseG, l / 2) % ps.Q, ps.baseG,
                          ps.Q);
      }
    }
  }

  /** With small errors that is an encryption. */
  lemma HeldRowsEncrypt(ps: ParamSet, m: Matrix, z: Poly, coef: int, e: int, beta: nat, sampleA: Sampler,
                        sampleE: Sampler)
    requires Supported(ps) && |z| == ps.N && HoldsRows(ps, m, z, coef, e, sampleA, sampleE)
    requires SmallErrors(sampleE, 2 * DigitsG(ps), ps.N, beta, ps.Q)
    ensures Encrypts(ps, m, z, coef, e, beta)
  {
    forall l | 0 <= l < |m|
      ensures IsPair(m[l], |z|) && NearPoly(RowPhase(m[l], z), GadgetTerm(z, coef, e, ps.baseG, l), beta, ps.Q)
    {
      HeldRowNear(m[l], z, coef, e, ps.baseG, l, sampleA(l), sampleE(l), beta, ps.Q);
    }
    AllRowsEncrypt(m, z, coef, e, beta, ps.baseG, ps.Q, |m|);
  }

  lemma HeldRowNear(row: seq<Poly>, z: Poly, coef: int, e: int, base: nat, l: nat, a: Poly, err: Poly, beta: nat,
                    Q: nat)
    requires |z| > 0 && Q > 0 && HoldsRow(row, z, coef, e, base, l, a, err, Q) && NearPoly(err, Zero(|z|), beta, Q)
    ensures IsPair(row, |z|) && NearPoly(RowPhase(row, z), GadgetTerm(z, coef, e, base, l), beta, Q)
  {
    NearByNoise(RowPhase(row, z), GadgetTerm(z, coef, e, base, l), err, beta, Q);
  }

  lemma HeldUnderEncrypts(ps: ParamSet, m: Matrix, sk: Poly, coef: int, e: int, beta: nat, sampleA: Sampler,
                          sampleE: Sampler)
    requires Supported(ps) && HoldsUnder(ps, m, sk, coef, e, sampleA, sampleE)
    requires SmallErrors(sampleE, 2 * DigitsG(ps), ps.N, beta, ps.Q)
    ensures EncryptsUnder(ps, m, sk, coef, e, beta)
  {
    forall z: Poly {:trigger Encrypts(ps, m, z, coef, e, beta)} | |z| == ps.N && Eqv(sk, z, ps.Q)
      ensures Encrypts(ps, m, z, coef, e, beta)
    {
      assert HoldsRows(ps, m, z, coef, e, sampleA, sampleE);
      HeldRowsEncrypt(ps, m, z, coef, e, beta, sampleA, sampleE);
    }
  }

  /** The exponent of X, below 2N, that stands for the message m. */
  function MessageExponent(ps: ParamSet, m: int): nat
    requires ps.q > 0
  {
    Multiple(m % ps.q, Factor(ps))
  }

  /** The position below N of X^E, and its sign. */
  function Place(E: nat, N: nat): nat {
    if E < N then E else E - N
  }

  function Sign(E: nat, N: nat): int {
    if E < N then 1 else -1
  }

  method SplitExponent(params: RingGSWCryptoParams, m: int) returns (mm: nat, sign: int)
    requires Supported(params.Set())
    ensures var E := MessageExponent(params.Set(), m); mm == Place(E, params.lwe.N) && sign == Sign(E, params.lwe.N)
    ensures SignedPower(params.lwe.N, mm, sign, MessageExponent(params.Set(), m))
  {
    var q, N := params.lwe.q, params.lwe.N;
    var reduced := TruncMod(TruncMod(m, q) + q, q);
    ExponentOf(params.Set(), m, reduced);
    mm := reduced * (2 * N / q);
    sign := 1;
    if mm >= N {
      mm := mm - N;
      sign := -1;
    }
  }

  lemma ExponentOf(ps: ParamSet, m: int, reduced: int)
    requires Supported(ps) && reduced == TruncMod(TruncMod(m, ps.q) + ps.q, ps.q)
    ensures 0 <= reduced && MessageExponent(ps, m) == reduced * (2 * ps.N / ps.q) < 2 * ps.N
  {
    FactorTimes(ps);
    QuotientIs(2 * ps.N, ps.q);
    ReducedMessage(m, ps.q, reduced);
    MultipleIs(reduced, Factor(ps));
    ScaledExponent(reduced, m, ps.q, Factor(ps), 2 * ps.N);
  }

  /** Modulo 2N it is Factor * m. */
  lemma MessageExponentIs(ps: ParamSet, m: int)
    requires Supported(ps)
    ensures Cong(MessageExponent(ps, m), Factor(ps) * m, 2 * ps.N)
  {
    FactorTimes(ps);
    MultipleIs(m % ps.q, Factor(ps));
    CongMod(m, ps.q);
    ScaledExponent(m % ps.q, m, ps.q, Factor(ps), 2 * ps.N);
  }

  lemma ReducedMessage(m: int, q: nat, reduced: int)
    requires q > 0 && reduced == TruncMod(TruncMod(m, q) + q, q)
    ensures 0 <= reduced < q && reduced == m % q && Cong(reduced, m, q)
  {
    TruncModCong(m, q);
    CongFrom(TruncMod(m, q) + q, TruncMod(m, q), 1, q);
    CongMod(TruncMod(m, q) + q, q);
  }

  lemma ScaledExponent(x: nat, m: int, q: nat, f: nat, M: nat)
    requires q > 0 && f > 0 && f * q == M && x < q && Cong(x, m, q)
    ensures 0 <= x * f < M && Cong(x * f, f * m, M)
  {
    var k := CongWitness(x, m, q);
    assert f * (m + k * q) == f * m + k * (f * q);
    assert x * f == f * x;
    CongFrom(x * f, f * m, k, M);
    MulCancel(x, q, f);
    MulLe(0, x, f);
  }

  /** The rows [a, e], plus sign * X^k times the gadget, which is left out for sign 0, masked with a * s. */
  method MakeRows(params: RingGSWCryptoParams, skNTT: Poly, k: nat, sign: int, sampleA: Sampler, sampleE: Sampler)
    returns (result: RingGSWCiphertext)
    requires params.Valid() && |skNTT| == params.lwe.N && k < params.lwe.N && -1 <= sign <= 1
    requires Samples(sampleA, sampleE, params.digitsG2, params.lwe.N)
    ensures fresh(result) && IsMatrix(result.elements, params.digitsG2, params.lwe.N)
    ensures RowsMade(params.Set(), result.elements, skNTT, k, sign, sampleA, sampleE)
  {
    var tempA;
    result, tempA := SampleRows(sampleA, sampleE, params.digitsG2, params.lwe.N);
    if sign != 0 {
      AddGadget(params, result, k, sign, result.elements);
    }
    AddMasks(tempA, skNTT, params.lwe.Q, result, result.elements);
  }

  /** Encryption of X^(Factor * m) for AP: every row holds its gadget term, its mask and its error. */
  method EncryptAP(params: RingGSWCryptoParams, skNTT: Poly, m: int, sampleA: Sampler, sampleE: Sampler)
    returns (result: RingGSWCiphertext)
    requires params.Valid() && Supported(params.Set()) && |skNTT| == params.lwe.N
    requires Samples(sampleA, sampleE, params.digitsG2, params.lwe.N)
    ensures fresh(result) && IsMatrix(result.elements, params.digitsG2, params.lwe.N)
    ensures var E := MessageExponent(params.Set(), m);
            RowsMade(params.Set(), result.elements, skNTT, Place(E, params.lwe.N), Sign(E, params.lwe.N), sampleA,
                     sampleE)
    ensures HoldsUnder(params.Set(), result.elements, skNTT, 1, Factor(params.Set()) * m, sampleA, sampleE)
    ensures forall beta: nat {:trigger SmallErrors(sampleE, params.digitsG2, params.lwe.N, beta, params.lwe.Q)} ::
        SmallErrors(sampleE, params.digitsG2, params.lwe.N, beta, params.lwe.Q) ==>
          EncryptsUnder(params.Set(), result.elements, skNTT, 1, Factor(params.Set()) * m, beta)
  {
    var mm, sign := SplitExponent(params, m);
    result := MakeRows(params, skNTT, mm, sign, sampleA, sampleE);
    RowsMadeHold(params.Set(), result.elements, skNTT, mm, sign, MessageExponent(params.Set(), m), sampleA, sampleE);
    MessageExponentIs(params.Set(), m);
    SameExponent(params.Set(), result.elements, skNTT, 1, MessageExponent(params.Set(), m), Factor(params.Set()) * m,
                 sampleA, sampleE);
    SmallerErrors(params.Set(), result.elements, skNTT, 1, Factor(params.Set()) * m, sampleA, sampleE);
  }

  /** Encryption of the bit m > 0 for GINX, in the same sense. */
  method EncryptGINX(params: RingGSWCryptoParams, skNTT: Poly, m: int, sampleA: Sampler, sampleE: Sampler)
    returns (result: RingGSWCiphertext)
    requires params.Valid() && Supported(params.Set()) && |skNTT| == params.lwe.N
    requires Samples(sampleA, sampleE, params.digitsG2, params.lwe.N)
    ensures fresh(result) && IsMatrix(result.elements, params.digitsG2, params.lwe.N)
    ensures RowsMade(params.Set(), result.elements, skNTT, 0, Bit(m > 0), sampleA, sampleE)
    ensures HoldsUnder(params.Set(), result.elements, skNTT, Bit(m > 0), 0, sampleA, sampleE)
    ensures forall beta: nat {:trigger SmallErrors(sampleE, params.digitsG2, params.lwe.N, beta, params.lwe.Q)} ::
        SmallErrors(sampleE, params.digitsG2, params.lwe.N, beta, params.lwe.Q) ==>
          EncryptsUnder(params.Set(), result.elements, skNTT, Bit(m > 0), 0, beta)
  {
    result := MakeRows(params, skNTT, 0, if m > 0 then 1 else 0, sampleA, sampleE);
    RowsMadeHold(params.Set(), result.elements, skNTT, 0, Bit(m > 0), 0, sampleA, sampleE);
    SmallerErrors(params.Set(), result.elements, skNTT, Bit(m > 0), 0, sampleA, sampleE);
  }

  lemma SmallerErrors(ps: ParamSet, m: Matrix, sk: Poly, coef: int, e: int, sampleA: Sampler, sampleE: Sampler)
    requires Supported(ps) && HoldsUnder(ps, m, sk, coef, e, sampleA, sampleE)
    ensures forall beta: nat {:trigger SmallErrors(sampleE, 2 * DigitsG(ps), ps.N, beta, ps.Q)} ::
        SmallErrors(sampleE, 2 * DigitsG(ps), ps.N, beta, ps.Q) ==> EncryptsUnder(ps, m, sk, coef, e, beta)
  {
    forall beta: nat {:trigger SmallErrors(sampleE, 2 * DigitsG(ps), ps.N, beta, ps.Q)}
      | SmallErrors(sampleE, 2 * DigitsG(ps), ps.N, beta, ps.Q)
      ensures EncryptsUnder(ps, m, sk, coef, e, beta)
    {
      HeldUnderEncrypts(ps, m, sk, coef, e, beta, sampleA, sampleE);
    }
  }

  // ---------- exponents modulo 2N ----------

  lemma TermSameExponent(z: Poly, coef: int, e: int, e': int, base: nat, l: nat)
    requires |z| > 0 && Cong(e, e', 2 * |z|)
    ensures GadgetTerm(z, coef, e, base, l) == GadgetTerm(z, coef, e', base, l)
    ensures ColumnTerm(|z|, coef, e, base, l) == ColumnTerm(|z|, coef, e', base, l)
  {
    RotPeriod(z, e, e');
    RotPeriod(One(|z|), e, e');
  }

  /** What holds X^e holds X^e' when e and e' agree modulo 2N. */
  lemma SameExponent(ps: ParamSet, m: Matrix, sk: Poly, coef: int, e: int, e': int, sampleA: Sampler, sampleE: Sampler)
    requires Supported(ps) && HoldsUnder(ps, m, sk, coef, e, sampleA, sampleE) && Cong(e, e', 2 * ps.N)
    ensures HoldsUnder(ps, m, sk, coef, e', sampleA, sampleE)
  {
    forall z: Poly {:trigger HoldsRows(ps, m, z, coef, e', sampleA, sampleE)} | |z| == ps.N && Eqv(sk, z, ps.Q)
      ensures HoldsRows(ps, m, z, coef, e', sampleA, sampleE)
    {
      assert HoldsRows(ps, m, z, coef, e, sampleA, sampleE);
      RowsSameExponent(ps, m, z, coef, e, e', sampleA, sampleE);
    }
  }

  lemma RowsSameExponent(ps: ParamSet, m: Matrix, z: Poly, coef: int, e: int, e': int, sampleA: Sampler,
                         sampleE: Sampler)
    requires Supported(ps) && HoldsRows(ps, m, z, coef, e, sampleA, sampleE) && Cong(e, e', 2 * ps.N)
    ensures HoldsRows(ps, m, z, coef, e', sampleA, sampleE)
  {
    forall l {:trigger m[l]} | 0 <= l < |m|
      ensures HoldsRow(m[l], z, coef, e', ps.baseG, l, sampleA(l), sampleE(l), ps.Q)
    {
      TermSameExponent(z, coef, e, e', ps.baseG, l);
    }
  }
}
