/**
 The bootstrapping core: the lookup polynomial of a gate, its blind rotation by an
 encrypted phase with AP or GINX accumulators, and the extraction of an LWE sample.
 */
module BlindRotate {
  import opened Arith
  import opened Poly
  import opened Negacyclic
  import opened Decompose
  import opened Rgsw
  import opened Params

  lemma SupportedGadget(ps: ParamSet)
    requires Supported(ps)
    ensures GadgetFits(ps.baseG, DigitsG(ps), ps.Q)
  {
    Log2Exact(ps.baseG);
    DigitCountLeast(ps.baseG, ps.Q);
    var l := DigitsG(ps);
    assert l > 0 by {
      assert Pow(ps.baseG, 0) == 1;
    }
    PowEven(ps.baseG, l);
  }

  /** Exponents of X matter only modulo q times Factor. */
  lemma PhaseExponent(ps: ParamSet, p: Poly, x: int, y: int)
    requires Supported(ps) && |p| == ps.N && Cong(x, y, ps.q)
    ensures Rot(p, Factor(ps) * x) == Rot(p, Factor(ps) * y)
  {
    FactorTimes(ps);
    var f := Factor(ps);
    var k := CongWitness(x, y, ps.q);
    assert f * (y + k * ps.q) == f * y + k * (f * ps.q);
    CongFrom(f * x, f * y, k, 2 * ps.N);
    RotPeriod(p, f * x, f * y);
  }

  // ---------- lookup by rotation ----------

  function Q8(Q: nat): nat {
    Q / 8 + 1
  }

  /** x lies in the half-open window of length q/2 that starts at start, going round modulo q. */
  predicate InWindow(x: int, start: nat, q: nat)
    requires q > 0
  {
    (x - start) % q < q / 2
  }

  /** The value looked up for phase x, as a signed integer. */
  function Lookup(x: int, start: nat, q: nat, Q: nat): int
    requires q > 0
  {
    if InWindow(x, start, q) then 0 - Q8(Q) else Q8(Q)
  }

  /** The next half turn: the table is antiperiodic. */
  lemma LookupHalfTurn(x: int, start: nat, q: nat, Q: nat)
    requires q > 0 && q % 2 == 0
    ensures Lookup(x + q / 2, start, q, Q) == -Lookup(x, start, q, Q)
  {
    var h := q / 2;
    var k, r := DivMod(x - start, q);
    assert x + h - start == (r + h) + k * q;
    if r < h {
      ModIntro(x + h - start, k, r + h, q);
    } else {
      assert k * q + q == (k + 1) * q;
      ModIntro(x + h - start, k + 1, r - h, q);
    }
  }

  lemma LookupPeriod(x: int, y: int, start: nat, q: nat, Q: nat)
    requires q > 0 && Cong(x, y, q)
    ensures Lookup(x, start, q, Q) == Lookup(y, start, q, Q)
  {
    CongSub(x, y, start, start, q);
  }

  /** The polynomial whose coefficient at Factor * j is the value for b - j, other coefficients zero. */
  function LookupPoly(ps: ParamSet, start: nat, b: int): (r: Poly)
    requires ps.q > 0 && Factor(ps) > 0 && ps.Q > 0
    ensures |r| == ps.N
    ensures forall i {:trigger r[i]} :: 0 <= i < ps.N ==>
        r[i] == if i % Factor(ps) == 0 then Lookup(b - i / Factor(ps), start, ps.q, ps.Q) % ps.Q else 0
  {
    seq(ps.N, i requires 0 <= i < ps.N =>
      if i % Factor(ps) == 0 then Lookup(b - i / Factor(ps), start, ps.q, ps.Q) % ps.Q else 0)
  }

  /** Rotating by the phase u brings the value for b - u to the constant coefficient, for every u. */
  lemma LookupByRotation(ps: ParamSet, start: nat, b: int, u: int)
    requires Supported(ps)
    ensures Factor(ps) > 0
    ensures Cong(Rot(LookupPoly(ps, start, b), Factor(ps) * (0 - u))[0], Lookup(b - u, start, ps.q, ps.Q), ps.Q)
  {
    FactorTimes(ps);
    var v := u % ps.q;
    CongMod(u, ps.q);
    CongSub(0, 0, v, u, ps.q);
    PhaseExponent(ps, LookupPoly(ps, start, b), 0 - v, 0 - u);
    CongSub(b, b, v, u, ps.q);
    LookupPeriod(b - v, b - u, start, ps.q, ps.Q);
    LookupOneTurn(ps, start, b, v);
  }

  lemma LookupOneTurn(ps: ParamSet, start: nat, b: int, v: nat)
    requires Supported(ps) && v < ps.q && Factor(ps) > 0
    ensures Cong(Rot(LookupPoly(ps, start, b), Factor(ps) * (0 - v))[0], Lookup(b - v, start, ps.q, ps.Q), ps.Q)
  {
    var k := v * Factor(ps);
    RotationAmount(ps, v, k);
    RotConstant(LookupPoly(ps, start, b), k);
    if v < ps.q / 2 {
      LookupCoefficient(ps, start, b, v, k);
    } else {
      LookupSecondHalf(ps, start, b, v, v - ps.q / 2, k - ps.N);
    }
  }

  lemma LookupSecondHalf(ps: ParamSet, start: nat, b: int, v: nat, w: nat, k: nat)
    requires Supported(ps) && Factor(ps) > 0 && k == w * Factor(ps) < ps.N && v == w + ps.q / 2
    ensures Cong(-LookupPoly(ps, start, b)[k], Lookup(b - v, start, ps.q, ps.Q), ps.Q)
  {
    LookupCoefficient(ps, start, b, w, k);
    Antipode(LookupPoly(ps, start, b)[k], b, start, v, w, ps.q, ps.Q);
  }

  lemma Antipode(c: int, b: int, start: nat, v: nat, w: nat, q: nat, Q: nat)
    requires q > 0 && q % 2 == 0 && Q > 0 && v == w + q / 2 && Cong(c, Lookup(b - w, start, q, Q), Q)
    ensures Cong(-c, Lookup(b - v, start, q, Q), Q)
  {
    LookupHalfTurn(b - v, start, q, Q);
    CongSub(0, 0, c, Lookup(b - w, start, q, Q), Q);
  }

  lemma LookupCoefficient(ps: ParamSet, start: nat, b: int, v: nat, k: nat)
    requires Supported(ps) && Factor(ps) > 0 && k == v * Factor(ps) < ps.N
    ensures Cong(LookupPoly(ps, start, b)[k], Lookup(b - v, start, ps.q, ps.Q), ps.Q)
  {
    ModIntro(k, v, 0, Factor(ps));
    CongMod(Lookup(b - v, start, ps.q, ps.Q), ps.Q);
  }

  lemma RotationAmount(ps: ParamSet, v: nat, k: int)
    requires Supported(ps) && v < ps.q && k == v * Factor(ps)
    ensures Factor(ps) * (0 - v) == 0 - k && 0 <= k < 2 * ps.N
    ensures v < ps.q / 2 <==> k < ps.N
    ensures k - ps.N == (v - ps.q / 2) * Factor(ps)
  {
    FactorTimes(ps);
    var f, h := Factor(ps), ps.q / 2;
    assert f * (0 - v) == 0 - v * f;
    MulLe(0, v, f);
    MulCancel(v, ps.q, f);
    MulCancel(v, h, f);
    assert f * ps.q == ps.q * f && f * h == h * f;
    assert (v - h) * f == v * f - h * f;
  }

  // ---------- accumulators ----------

  ghost predicate IsAcc(ps: ParamSet, acc: seq<Poly>) {
    match ps
    case ParamSet(_, N, _, Q, _, _, _, _) => IsPair(acc, N) && Reduced(acc[0], Q) && Reduced(acc[1], Q)
  }

  /** Largest error of one external product with these parameters. */
  ghost function StepError(ps: ParamSet, beta: nat): nat
    requires Supported(ps)
  {
    SupportedGadget(ps);
    ProductError(ps.N, beta, ps.baseG, DigitsG(ps), ps.Q)
  }

  /** acc times the row matrix m. */
  function Product(ps: ParamSet, acc: seq<Poly>, m: Matrix): (r: seq<Poly>)
    requires Supported(ps) && IsAcc(ps, acc) && IsMatrix(m, 2 * DigitsG(ps), ps.N)
    ensures IsAcc(ps, r)
  {
    ExternalProduct(acc, m, ps.baseG, DigitsG(ps), ps.Q)
  }

  ghost predicate Encrypts(ps: ParamSet, m: Matrix, z: Poly, coef: int, e: int, beta: nat)
    requires Supported(ps) && |z| == ps.N
  {
    IsRgsw(m, z, coef, e, beta, ps.baseG, DigitsG(ps), ps.Q)
  }

  /** The noise of one external product with these parameters. */
  ghost function StepNoise(ps: ParamSet, acc: seq<Poly>, m: Matrix, z: Poly, coef: int, e: int): (r: Poly)
    requires Supported(ps) && IsAcc(ps, acc) && |z| == ps.N && IsMatrix(m, 2 * DigitsG(ps), ps.N)
    ensures |r| == ps.N
  {
    ProductNoise(acc, m, z, coef, e, ps.baseG, DigitsG(ps), ps.Q)
  }

  lemma ProductExact(ps: ParamSet, acc: seq<Poly>, m: Matrix, z: Poly, coef: int, e: int)
    requires Supported(ps) && IsAcc(ps, acc) && |z| == ps.N && IsMatrix(m, 2 * DigitsG(ps), ps.N)
    ensures Eqv(RowPhase(Product(ps, acc, m), z),
                Add(Scale(coef, Rot(RowPhase(acc, z), e)), StepNoise(ps, acc, m, z, coef, e)), ps.Q)
  {
    ExternalProductExact(acc, m, z, coef, e, ps.baseG, DigitsG(ps), ps.Q);
  }

  /** No coefficient of the noise is larger than d. */
  ghost predicate Small(ps: ParamSet, noise: Poly, d: nat) {
    match ps
    case ParamSet(_, N, _, Q, _, _, _, _) => Q > 0 && |noise| == N && NearPoly(noise, Zero(N), d, Q)
  }

  lemma StepNoiseSmall(ps: ParamSet, acc: seq<Poly>, m: Matrix, z: Poly, coef: int, e: int, beta: nat)
    requires Supported(ps) && IsAcc(ps, acc) && |z| == ps.N && Bounded(z, 1)
    requires 0 <= coef <= 1 && Encrypts(ps, m, z, coef, e, beta)
    ensures Small(ps, StepNoise(ps, acc, m, z, coef, e), StepError(ps, beta))
  {
    SupportedGadget(ps);
    ProductNoiseSmall(acc, m, z, coef, e, beta, ps.baseG, DigitsG(ps), ps.Q);
  }

  // ---------- AP ----------

  type BTKey = seq<seq<seq<Matrix>>>

  /** The key has a matrix at position (i, j, k). */
  ghost predicate KeyCell(ps: ParamSet, bk: BTKey, i: nat, j: nat, k: nat)
    requires Supported(ps)
  {
    i < |bk| && j < |bk[i]| && k < |bk[i][j]| && IsMatrix(bk[i][j][k], 2 * DigitsG(ps), ps.N)
  }

  /** In the first rows of the key, entries exist for the digit values 1 to baseR - 1 only. */
  ghost predicate ApCells(ps: ParamSet, bk: BTKey, rows: nat)
    requires Supported(ps)
    decreases rows
  {
    rows > 0 ==> ApCells(ps, bk, rows - 1) && ApRowCells(ps, bk, rows - 1)
  }

  ghost predicate ApRowCells(ps: ParamSet, bk: BTKey, i: nat)
    requires Supported(ps)
  {
    forall j, k :: 1 <= j < ps.baseR && 0 <= k < DigitsR(ps) ==> KeyCell(ps, bk, i, j, k)
  }

  ghost predicate ApShape(ps: ParamSet, bk: BTKey)
    requires Supported(ps)
  {
    ApCells(ps, bk, ps.n)
  }

  lemma {:induction false} ApCellAt(ps: ParamSet, bk: BTKey, rows: nat, i: nat, j: nat, k: nat)
    requires Supported(ps) && ApCells(ps, bk, rows) && i < rows && 1 <= j < ps.baseR && k < DigitsR(ps)
    ensures KeyCell(ps, bk, i, j, k)
    decreases rows
  {
    if i < rows - 1 {
      ApCellAt(ps, bk, rows - 1, i, j, k);
    }
  }

  /** Entry (i, j, k) encrypts X^(Factor * s_i * j * baseR^k). */
  ghost predicate ApEntry(ps: ParamSet, bk: BTKey, s: Poly, z: Poly, beta: nat, i: nat, j: nat, k: nat)
    requires Supported(ps) && |z| == ps.N && i < |s|
  {
    KeyCell(ps, bk, i, j, k) && Encrypts(ps, bk[i][j][k], z, 1, EntryExponent(ps, s[i], j, k), beta)
  }

  ghost predicate ApEntries(ps: ParamSet, bk: BTKey, s: Poly, z: Poly, beta: nat, rows: nat)
    requires Supported(ps) && |z| == ps.N && rows <= |s|
    decreases rows
  {
    rows > 0 ==> ApEntries(ps, bk, s, z, beta, rows - 1) && ApRowEntries(ps, bk, s, z, beta, rows - 1)
  }

  ghost predicate ApRowEntries(ps: ParamSet, bk: BTKey, s: Poly, z: Poly, beta: nat, i: nat)
    requires Supported(ps) && |z| == ps.N && i < |s|
  {
    forall j, k :: 1 <= j < ps.baseR && 0 <= k < DigitsR(ps) ==> ApEntry(ps, bk, s, z, beta, i, j, k)
  }

  ghost predicate IsApKey(ps: ParamSet, bk: BTKey, s: Poly, z: Poly, beta: nat)
    requires Supported(ps) && |z| == ps.N && |s| == ps.n
  {
    ApShape(ps, bk) && ApEntries(ps, bk, s, z, beta, ps.n)
  }

  lemma {:induction false} ApEntryAt(ps: ParamSet, bk: BTKey, s: Poly, z: Poly, beta: nat, rows: nat, i: nat, j: nat,
                                     k: nat)
    requires Supported(ps) && |z| == ps.N && rows <= |s| && ApEntries(ps, bk, s, z, beta, rows)
    requires i < rows && 1 <= j < ps.baseR && k < DigitsR(ps)
    ensures ApEntry(ps, bk, s, z, beta, i, j, k)
    decreases rows
  {
    if i < rows - 1 {
      ApEntryAt(ps, bk, s, z, beta, rows - 1, i, j, k);
    }
  }

  /** The product with the key entry for digit value a0, if that is not zero. */
  function ApDigitStep(ps: ParamSet, bk: BTKey, i: nat, acc: seq<Poly>, a0: nat, k: nat): (r: seq<Poly>)
    requires Supported(ps) && ApShape(ps, bk) && IsAcc(ps, acc) && i < ps.n && k < DigitsR(ps) && a0 < ps.baseR
    ensures IsAcc(ps, r)
  {
    if a0 == 0 then acc else ApCellAt(ps, bk, ps.n, i, a0, k); Product(ps, acc, bk[i][a0][k])
  }

  /** The inner AP loop: the digits of aI from number k on. */
  function ApDigits(ps: ParamSet, bk: BTKey, i: nat, acc: seq<Poly>, aI: nat, k: nat): (r: seq<Poly>)
    requires Supported(ps) && ApShape(ps, bk) && IsAcc(ps, acc) && i < ps.n && k <= DigitsR(ps)
    ensures IsAcc(ps, r)
    decreases DigitsR(ps) - k
  {
    DigitFits(aI, ps.baseR);
    if k == DigitsR(ps) then acc
    else ApDigits(ps, bk, i, ApDigitStep(ps, bk, i, acc, aI % ps.baseR, k), aI / ps.baseR, k + 1)
  }

  /** The outer AP loop over the entries of the ciphertext, which are already negated. */
  function ApLoop(ps: ParamSet, bk: BTKey, acc: seq<Poly>, negA: seq<nat>, i: nat): (r: seq<Poly>)
    requires Supported(ps) && ApShape(ps, bk) && IsAcc(ps, acc) && |negA| == ps.n && i <= ps.n
    ensures IsAcc(ps, r)
    decreases ps.n - i
  {
    if i == ps.n then acc else ApLoop(ps, bk, ApDigits(ps, bk, i, acc, negA[i], 0), negA, i + 1)
  }

  /** The phase of r is the phase of acc times X^e, up to an error of size at most d. */
  ghost predicate Rotated(ps: ParamSet, r: seq<Poly>, acc: seq<Poly>, z: Poly, e: int, d: nat)
    requires Supported(ps) && |z| == ps.N
  {
    match ps
    case ParamSet(_, N, _, Q, _, _, _, _) =>
      IsPair(r, N) && IsPair(acc, N) && NearPoly(RowPhase(r, z), Rot(RowPhase(acc, z), e), d, Q)
  }

  /** The phase of r is the phase of acc times X^e, plus exactly this noise. */
  ghost predicate RotatedBy(ps: ParamSet, r: seq<Poly>, acc: seq<Poly>, z: Poly, e: int, noise: Poly)
    requires Supported(ps) && |z| == ps.N
  {
    // A match in place of selectors keeps the definition folded in proofs.
    match ps
    case ParamSet(_, N, _, Q, _, _, _, _) =>
      IsPair(r, N) && IsPair(acc, N) && |noise| == N && Eqv(RowPhase(r, z), Add(Rot(RowPhase(acc, z), e), noise), Q)
  }

  lemma RotatedWithin(ps: ParamSet, r: seq<Poly>, acc: seq<Poly>, z: Poly, e: int, noise: Poly, d: nat)
    requires Supported(ps) && |z| == ps.N && RotatedBy(ps, r, acc, z, e, noise) && Small(ps, noise, d)
    ensures Rotated(ps, r, acc, z, e, d)
  {
    NearByNoise(RowPhase(r, z), Rot(RowPhase(acc, z), e), noise, d, ps.Q);
  }

  /** The noise of two rotations, the second by X^e: it rotates the noise of the first. */
  ghost function NoiseThen(first: Poly, e: int, second: Poly): (r: Poly)
    requires |first| == |second| > 0
    ensures |r| == |first|
  {
    Add(Rot(first, e), second)
  }

  lemma NoiseThenSmall(ps: ParamSet, first: Poly, e: int, second: Poly, d: nat, d': nat, sum: nat)
    requires ps.N > 0 && Small(ps, first, d) && Small(ps, second, d') && sum == d' + d
    ensures Small(ps, NoiseThen(first, e, second), sum)
  {
    NoiseRot(first, e, d, ps.Q);
    NoiseAdd(Rot(first, e), second, d, d', ps.Q);
  }

  lemma RotatedTwice(ps: ParamSet, r: seq<Poly>, mid: seq<Poly>, acc: seq<Poly>, z: Poly, x: int, y: int, e: int,
                     first: Poly, second: Poly)
    requires Supported(ps) && |z| == ps.N && e == x + y
    requires RotatedBy(ps, mid, acc, z, x, first) && RotatedBy(ps, r, mid, z, y, second)
    ensures |first| == |second| == ps.N && RotatedBy(ps, r, acc, z, e, NoiseThen(first, y, second))
  {
    var p, m := RowPhase(acc, z), RowPhase(mid, z);
    RotRot(p, x, y);
    RotEqv(m, Add(Rot(p, x), first), y, ps.Q);
    RotAdd(Rot(p, x), first, y);
    EqvAdd(Rot(m, y), Add(Rot(p, e), Rot(first, y)), second, second, ps.Q);
    AddAssoc(Rot(p, e), Rot(first, y), second);
  }

  lemma NotRotated(ps: ParamSet, acc: seq<Poly>, z: Poly, e: int)
    requires Supported(ps) && |z| == ps.N && IsAcc(ps, acc) && e == 0
    ensures RotatedBy(ps, acc, acc, z, e, Zero(ps.N))
  {
    RotZero(RowPhase(acc, z));
    AddZero(RowPhase(acc, z));
  }

  lemma NoNoiseSmall(ps: ParamSet, d: nat)
    requires Supported(ps)
    ensures Small(ps, Zero(ps.N), d)
  {
    NearPolyRefl(Zero(ps.N), Zero(ps.N), ps.Q);
  }

  /** The exponent that entry (i, j, k) of the key adds. */
  ghost function EntryExponent(ps: ParamSet, si: int, j: nat, k: nat): int
    requires Supported(ps)
  {
    Factor(ps) * (si * j * Pow(ps.baseR, k))
  }

  /** The exponents that the digits of aI from number k on add up to. */
  ghost function DigitsExponent(ps: ParamSet, si: int, aI: nat, k: nat): int
    requires Supported(ps) && k <= DigitsR(ps)
    decreases DigitsR(ps) - k
  {
    DigitFits(aI, ps.baseR);
    if k == DigitsR(ps) then 0
    else EntryExponent(ps, si, aI % ps.baseR, k) + DigitsExponent(ps, si, aI / ps.baseR, k + 1)
  }

  /** Parameters, secrets and key fit together. */
  ghost predicate ApReady(ps: ParamSet, bk: BTKey, s: Poly, z: Poly, beta: nat) {
    match ps
    case ParamSet(n, N, _, _, _, _, _, _) =>
      Supported(ps) && |z| == N && Bounded(z, 1) && |s| == n && IsApKey(ps, bk, s, z, beta)
  }

  /** Parameters, secret and the shape of the key fit together; nothing is said about what the key encrypts. */
  ghost predicate ApFits(ps: ParamSet, bk: BTKey, z: Poly) {
    // A match in place of selectors keeps the definition folded in proofs.
    match ps
    case ParamSet(_, N, _, _, _, _, _, _) => Supported(ps) && |z| == N && ApShape(ps, bk)
  }

  /** The noise of the step for digit value a0, for the message that entry (i, a0, k) should encrypt. */
  ghost function ApStepNoise(ps: ParamSet, bk: BTKey, si: int, z: Poly, i: nat, acc: seq<Poly>, a0: nat, k: nat)
    : (r: Poly)
    requires ApFits(ps, bk, z) && IsAcc(ps, acc) && i < ps.n && k < DigitsR(ps) && a0 < ps.baseR
    ensures |r| == ps.N
  {
    if a0 == 0 then Zero(ps.N)
    else
      ApCellAt(ps, bk, ps.n, i, a0, k);
      StepNoise(ps, acc, bk[i][a0][k], z, 1, EntryExponent(ps, si, a0, k))
  }

  /** The noise of the digits of aI from number k on. */
  ghost function ApDigitsNoise(ps: ParamSet, bk: BTKey, si: int, z: Poly, i: nat, acc: seq<Poly>, aI: nat, k: nat)
    : (r: Poly)
    requires ApFits(ps, bk, z) && IsAcc(ps, acc) && i < ps.n && k <= DigitsR(ps)
    ensures |r| == ps.N
    decreases DigitsR(ps) - k
  {
    DigitFits(aI, ps.baseR);
    if k == DigitsR(ps) then Zero(ps.N)
    else
      var a0, up := aI % ps.baseR, aI / ps.baseR;
      NoiseThen(ApStepNoise(ps, bk, si, z, i, acc, a0, k), DigitsExponent(ps, si, up, k + 1),
                ApDigitsNoise(ps, bk, si, z, i, ApDigitStep(ps, bk, i, acc, a0, k), up, k + 1))
  }

  lemma ApDigitsEnd(ps: ParamSet, bk: BTKey, si: int, z: Poly, i: nat, acc: seq<Poly>, aI: nat, k: nat)
    requires ApFits(ps, bk, z) && IsAcc(ps, acc) && i < ps.n && k == DigitsR(ps)
    ensures ApDigitsNoise(ps, bk, si, z, i, acc, aI, k) == Zero(ps.N)
    ensures RotatedBy(ps, ApDigits(ps, bk, i, acc, aI, k), acc, z, DigitsExponent(ps, si, aI, k),
                      ApDigitsNoise(ps, bk, si, z, i, acc, aI, k))
  {
    NotRotated(ps, acc, z, 0);
  }

  lemma ApDigitsUnfolds(ps: ParamSet, bk: BTKey, i: nat, acc: seq<Poly>, aI: nat, a0: nat, up: nat, k: nat, k': nat)
    requires Supported(ps) && ApShape(ps, bk) && IsAcc(ps, acc) && i < ps.n && k < DigitsR(ps) && k' == k + 1
    requires a0 == aI % ps.baseR < ps.baseR && up == aI / ps.baseR
    ensures ApDigits(ps, bk, i, acc, aI, k) == ApDigits(ps, bk, i, ApDigitStep(ps, bk, i, acc, a0, k), up, k')
  {
  }

  lemma ApNoiseUnfolds(ps: ParamSet, bk: BTKey, si: int, z: Poly, i: nat, acc: seq<Poly>, aI: nat, a0: nat, up: nat,
                       k: nat, k': nat)
    requires ApFits(ps, bk, z) && IsAcc(ps, acc) && i < ps.n && k < DigitsR(ps) && k' == k + 1
    requires a0 == aI % ps.baseR < ps.baseR && up == aI / ps.baseR
    ensures DigitsExponent(ps, si, aI, k) == EntryExponent(ps, si, a0, k) + DigitsExponent(ps, si, up, k')
    ensures ApDigitsNoise(ps, bk, si, z, i, acc, aI, k)
         == NoiseThen(ApStepNoise(ps, bk, si, z, i, acc, a0, k), DigitsExponent(ps, si, up, k'),
                      ApDigitsNoise(ps, bk, si, z, i, ApDigitStep(ps, bk, i, acc, a0, k), up, k'))
  {
  }

  lemma ApDigitsNext(ps: ParamSet, bk: BTKey, si: int, z: Poly, i: nat, acc: seq<Poly>, aI: nat, a0: nat, up: nat,
                     k: nat, k': nat)
    requires ApFits(ps, bk, z) && IsAcc(ps, acc) && i < ps.n && k < DigitsR(ps) && k' == k + 1
    requires a0 == aI % ps.baseR < ps.baseR && up == aI / ps.baseR
    requires var acc' := ApDigitStep(ps, bk, i, acc, a0, k);
             RotatedBy(ps, ApDigits(ps, bk, i, acc', up, k'), acc', z, DigitsExponent(ps, si, up, k'),
                       ApDigitsNoise(ps, bk, si, z, i, acc', up, k'))
    ensures RotatedBy(ps, ApDigits(ps, bk, i, acc, aI, k), acc, z, DigitsExponent(ps, si, aI, k),
                      ApDigitsNoise(ps, bk, si, z, i, acc, aI, k))
  {
    var acc' := ApDigitStep(ps, bk, i, acc, a0, k);
    ApStepExact(ps, bk, si, z, i, acc, a0, k);
    ApDigitsUnfolds(ps, bk, i, acc, aI, a0, up, k, k');
    ApNoiseUnfolds(ps, bk, si, z, i, acc, aI, a0, up, k, k');
    RotatedTwice(ps, ApDigits(ps, bk, i, acc', up, k'), acc', acc, z, EntryExponent(ps, si, a0, k),
                 DigitsExponent(ps, si, up, k'), DigitsExponent(ps, si, aI, k),
                 ApStepNoise(ps, bk, si, z, i, acc, a0, k), ApDigitsNoise(ps, bk, si, z, i, acc', up, k'));
  }

  lemma LowestDigit(x: nat, base: nat) returns (a0: nat, up: nat)
    requires base > 0
    ensures a0 == x % base < base && up == x / base
  {
    up, a0 := DivMod(x, base);
  }

  /** Whatever the key holds: the digits from number k on, of which left are left, rotate with exactly that noise. */
  lemma {:induction false} ApDigitsExact(ps: ParamSet, bk: BTKey, si: int, z: Poly, i: nat, acc: seq<Poly>, aI: nat,
                                         k: nat, left: nat)
    requires ApFits(ps, bk, z) && IsAcc(ps, acc) && i < ps.n && k + left == DigitsR(ps)
    ensures RotatedBy(ps, ApDigits(ps, bk, i, acc, aI, k), acc, z, DigitsExponent(ps, si, aI, k),
                      ApDigitsNoise(ps, bk, si, z, i, acc, aI, k))
    decreases left, 1
  {
    if left == 0 {
      ApDigitsEnd(ps, bk, si, z, i, acc, aI, k);
    } else {
      var a0, up := LowestDigit(aI, ps.baseR);
      ApDigitsMore(ps, bk, si, z, i, acc, aI, a0, up, k, k + 1, left, left - 1);
    }
  }

  lemma {:induction false} ApDigitsMore(ps: ParamSet, bk: BTKey, si: int, z: Poly, i: nat, acc: seq<Poly>, aI: nat,
                                        a0: nat, up: nat, k: nat, k': nat, left: nat, rest: nat)
    requires ApFits(ps, bk, z) && IsAcc(ps, acc) && i < ps.n && k + left == DigitsR(ps)
    requires a0 == aI % ps.baseR < ps.baseR && up == aI / ps.baseR && k' == k + 1 && left == rest + 1
    ensures RotatedBy(ps, ApDigits(ps, bk, i, acc, aI, k), acc, z, DigitsExponent(ps, si, aI, k),
                      ApDigitsNoise(ps, bk, si, z, i, acc, aI, k))
    decreases left, 0
  {
    ApDigitsExact(ps, bk, si, z, i, ApDigitStep(ps, bk, i, acc, a0, k), up, k', rest);
    ApDigitsNext(ps, bk, si, z, i, acc, aI, a0, up, k, k');
  }

  lemma ApReadyFits(ps: ParamSet, bk: BTKey, s: Poly, z: Poly, beta: nat)
    requires ApReady(ps, bk, s, z, beta)
    ensures ApFits(ps, bk, z) && Supported(ps) && |s| == ps.n && |z| == ps.N
  {
  }

  lemma {:induction false} ApDigitsSmall(ps: ParamSet, bk: BTKey, s: Poly, z: Poly, beta: nat, i: nat, acc: seq<Poly>,
                                         aI: nat, k: nat, left: nat)
    requires ApReady(ps, bk, s, z, beta) && ApFits(ps, bk, z) && IsAcc(ps, acc) && i < ps.n && k + left == DigitsR(ps)
    ensures Small(ps, ApDigitsNoise(ps, bk, s[i], z, i, acc, aI, k), Multiple(left, StepError(ps, beta)))
    decreases left, 1
  {
    if left == 0 {
      ApDigitsEnd(ps, bk, s[i], z, i, acc, aI, k);
      NoNoiseSmall(ps, Multiple(left, StepError(ps, beta)));
    } else {
      var a0, up := LowestDigit(aI, ps.baseR);
      ApDigitsSmallMore(ps, bk, s, z, beta, i, acc, aI, a0, up, k, k + 1, left, left - 1);
    }
  }

  lemma {:induction false} ApDigitsSmallMore(ps: ParamSet, bk: BTKey, s: Poly, z: Poly, beta: nat, i: nat,
                                             acc: seq<Poly>, aI: nat, a0: nat, up: nat, k: nat, k': nat, left: nat,
                                             rest: nat)
    requires ApReady(ps, bk, s, z, beta) && ApFits(ps, bk, z) && IsAcc(ps, acc) && i < ps.n && k + left == DigitsR(ps)
    requires a0 == aI % ps.baseR < ps.baseR && up == aI / ps.baseR && k' == k + 1 && left == rest + 1
    ensures Small(ps, ApDigitsNoise(ps, bk, s[i], z, i, acc, aI, k), Multiple(left, StepError(ps, beta)))
    decreases left, 0
  {
    ApDigitsSmall(ps, bk, s, z, beta, i, ApDigitStep(ps, bk, i, acc, a0, k), up, k', rest);
    ApDigitsSmallNext(ps, bk, s, z, beta, i, acc, aI, a0, up, k, k', left, rest);
  }

  lemma ApDigitsSmallNext(ps: ParamSet, bk: BTKey, s: Poly, z: Poly, beta: nat, i: nat, acc: seq<Poly>, aI: nat,
                          a0: nat, up: nat, k: nat, k': nat, left: nat, rest: nat)
    requires ApReady(ps, bk, s, z, beta) && ApFits(ps, bk, z) && IsAcc(ps, acc) && i < ps.n && k < DigitsR(ps)
    requires a0 == aI % ps.baseR < ps.baseR && up == aI / ps.baseR && k' == k + 1 && left == rest + 1
    requires Small(ps, ApDigitsNoise(ps, bk, s[i], z, i, ApDigitStep(ps, bk, i, acc, a0, k), up, k'),
                   Multiple(rest, StepError(ps, beta)))
    ensures Small(ps, ApDigitsNoise(ps, bk, s[i], z, i, acc, aI, k), Multiple(left, StepError(ps, beta)))
  {
    ApStepSmall(ps, bk, s, z, beta, i, acc, a0, k);
    ApNoiseUnfolds(ps, bk, s[i], z, i, acc, aI, a0, up, k, k');
    MultipleNext(left, rest, StepError(ps, beta));
    NoiseThenSmall(ps, ApStepNoise(ps, bk, s[i], z, i, acc, a0, k), DigitsExponent(ps, s[i], up, k'),
                   ApDigitsNoise(ps, bk, s[i], z, i, ApDigitStep(ps, bk, i, acc, a0, k), up, k'),
                   StepError(ps, beta), Multiple(rest, StepError(ps, beta)), Multiple(left, StepError(ps, beta)));
  }

  /** The digits from number k on, of which left are left. */
  lemma ApDigitsPhase(ps: ParamSet, bk: BTKey, s: Poly, z: Poly, beta: nat, i: nat, acc: seq<Poly>, aI: nat, k: nat,
                      left: nat)
    requires ApReady(ps, bk, s, z, beta) && IsAcc(ps, acc) && i < ps.n && k + left == DigitsR(ps)
    ensures Rotated(ps, ApDigits(ps, bk, i, acc, aI, k), acc, z, DigitsExponent(ps, s[i], aI, k),
                    Multiple(left, StepError(ps, beta)))
  {
    ApReadyFits(ps, bk, s, z, beta);
    ApDigitsExact(ps, bk, s[i], z, i, acc, aI, k, left);
    ApDigitsSmall(ps, bk, s, z, beta, i, acc, aI, k, left);
    RotatedWithin(ps, ApDigits(ps, bk, i, acc, aI, k), acc, z, DigitsExponent(ps, s[i], aI, k),
                  ApDigitsNoise(ps, bk, s[i], z, i, acc, aI, k), Multiple(left, StepError(ps, beta)));
  }

  /** When all digits are taken, the exponents add up to the product with aI itself. */
  lemma {:induction false} DigitsExponentIs(ps: ParamSet, si: int, aI: nat, k: nat)
    requires Supported(ps) && k <= DigitsR(ps) && aI < Pow(ps.baseR, DigitsR(ps) - k)
    ensures DigitsExponent(ps, si, aI, k) == EntryExponent(ps, si, aI, k)
    decreases DigitsR(ps) - k
  {
    if k == DigitsR(ps) {
      assert si * 0 * Pow(ps.baseR, k) == 0;
    } else {
      var a0, up := LowestDigit(aI, ps.baseR);
      DigitSplit(aI, ps.baseR, a0, up, Pow(ps.baseR, DigitsR(ps) - k - 1));
      DigitsExponentIs(ps, si, up, k + 1);
      ExponentSplit(Factor(ps), si, aI, a0, up, ps.baseR, Pow(ps.baseR, k));
    }
  }

  lemma ExponentSplit(f: int, s: int, aI: int, a0: int, up: int, base: int, p: int)
    requires aI == a0 + up * base
    ensures f * (s * aI * p) == f * (s * a0 * p) + f * (s * up * (base * p))
  {
    assert s * aI == s * a0 + s * (up * base);
    assert s * aI * p == s * a0 * p + s * (up * base) * p;
    assert s * (up * base) * p == s * up * (base * p) by {
      assert s * (up * base) == (s * up) * base;
      assert ((s * up) * base) * p == (s * up) * (base * p);
    }
    Distribute4(f, s * a0 * p, s * up * (base * p));
  }

  lemma Distribute4(f: int, x: int, y: int)
    ensures f * (x + y) == f * x + f * y
  {
  }

  /** One digit rotates the phase by the exponent of its key entry. */
  lemma ApStepExact(ps: ParamSet, bk: BTKey, si: int, z: Poly, i: nat, acc: seq<Poly>, a0: nat, k: nat)
    requires ApFits(ps, bk, z) && IsAcc(ps, acc) && i < ps.n && k < DigitsR(ps) && a0 < ps.baseR
    ensures RotatedBy(ps, ApDigitStep(ps, bk, i, acc, a0, k), acc, z, EntryExponent(ps, si, a0, k),
                      ApStepNoise(ps, bk, si, z, i, acc, a0, k))
  {
    var x := EntryExponent(ps, si, a0, k);
    if a0 != 0 {
      ApCellAt(ps, bk, ps.n, i, a0, k);
      ProductExact(ps, acc, bk[i][a0][k], z, 1, x);
      ScaleOne(Rot(RowPhase(acc, z), x));
    } else {
      assert si * 0 * Pow(ps.baseR, k) == 0;
      NotRotated(ps, acc, z, x);
    }
  }

  lemma ApStepSmall(ps: ParamSet, bk: BTKey, s: Poly, z: Poly, beta: nat, i: nat, acc: seq<Poly>, a0: nat, k: nat)
    requires ApReady(ps, bk, s, z, beta) && ApFits(ps, bk, z) && IsAcc(ps, acc) && i < ps.n && k < DigitsR(ps)
             && a0 < ps.baseR
    ensures Small(ps, ApStepNoise(ps, bk, s[i], z, i, acc, a0, k), StepError(ps, beta))
  {
    if a0 != 0 {
      ApEntryAt(ps, bk, s, z, beta, ps.n, i, a0, k);
      StepNoiseSmall(ps, acc, bk[i][a0][k], z, 1, EntryExponent(ps, s[i], a0, k), beta);
    } else {
      NoNoiseSmall(ps, StepError(ps, beta));
    }
  }

  lemma ScaleOne(p: Poly)
    ensures Scale(1, p) == p
  {
  }

  /** The exponents that the entries of a from number i on add up to. */
  ghost function LoopExponent(ps: ParamSet, a: Poly, s: Poly, i: nat): int
    requires Supported(ps) && |a| == |s| && i <= |s|
    decreases |s| - i
  {
    if i == |s| then 0 else Factor(ps) * (s[i] * a[i]) + LoopExponent(ps, a, s, i + 1)
  }

  /** All together they are Factor times the inner product. */
  lemma {:induction false} LoopExponentIs(ps: ParamSet, a: Poly, s: Poly, i: nat)
    requires Supported(ps) && |a| == |s| && i <= |s|
    ensures LoopExponent(ps, a, s, i) == Factor(ps) * Inner(a[i..], s[i..])
    decreases |s| - i
  {
    if i < |s| {
      LoopExponentIs(ps, a, s, i + 1);
      InnerHead(a, s, i);
      assert s[i] * a[i] == a[i] * s[i];
      Distribute4(Factor(ps), a[i] * s[i], Inner(a[i + 1..], s[i + 1..]));
    }
  }

  /** The whole inner loop rotates by Factor * s_i * a_i. */
  lemma ApEntryExact(ps: ParamSet, bk: BTKey, si: int, z: Poly, i: nat, acc: seq<Poly>, aI: nat)
    requires ApFits(ps, bk, z) && IsAcc(ps, acc) && i < ps.n && aI < ps.q
    ensures RotatedBy(ps, ApDigits(ps, bk, i, acc, aI, 0), acc, z, Factor(ps) * (si * aI),
                      ApDigitsNoise(ps, bk, si, z, i, acc, aI, 0))
  {
    ApDigitsExact(ps, bk, si, z, i, acc, aI, 0, DigitsR(ps));
    DigitCountLeast(ps.baseR, ps.q);
    DigitsExponentIs(ps, si, aI, 0);
    assert si * aI * Pow(ps.baseR, 0) == si * aI;
  }

  /** The noise of the AP loops from entry i on. */
  ghost function ApLoopNoise(ps: ParamSet, bk: BTKey, s: Poly, z: Poly, acc: seq<Poly>, negA: seq<nat>, i: nat)
    : (r: Poly)
    requires ApFits(ps, bk, z) && IsAcc(ps, acc) && |negA| == |s| == ps.n && i <= ps.n
    ensures |r| == ps.N
    decreases ps.n - i
  {
    if i == ps.n then Zero(ps.N)
    else
      NoiseThen(ApDigitsNoise(ps, bk, s[i], z, i, acc, negA[i], 0), LoopExponent(ps, negA, s, i + 1),
                ApLoopNoise(ps, bk, s, z, ApDigits(ps, bk, i, acc, negA[i], 0), negA, i + 1))
  }

  /** Whatever the key holds: the AP loops rotate the phase by Factor * <negA, s>, with exactly that noise. */
  lemma {:induction false} ApLoopExact(ps: ParamSet, bk: BTKey, s: Poly, z: Poly, acc: seq<Poly>, negA: seq<nat>,
                                       i: nat, left: nat)
    requires ApFits(ps, bk, z) && IsAcc(ps, acc) && |negA| == |s| == ps.n && i + left == ps.n && Reduced(negA, ps.q)
    ensures RotatedBy(ps, ApLoop(ps, bk, acc, negA, i), acc, z, LoopExponent(ps, negA, s, i),
                      ApLoopNoise(ps, bk, s, z, acc, negA, i))
    decreases left, 1
  {
    if left == 0 {
      ApLoopEnd(ps, bk, s, z, acc, negA, i);
    } else {
      ApLoopMore(ps, bk, s, z, acc, negA, i, i + 1, left, left - 1);
    }
  }

  lemma {:induction false} ApLoopMore(ps: ParamSet, bk: BTKey, s: Poly, z: Poly, acc: seq<Poly>, negA: seq<nat>, i: nat,
                                      j: nat, left: nat, rest: nat)
    requires ApFits(ps, bk, z) && IsAcc(ps, acc) && |negA| == |s| == ps.n
    requires i + left == ps.n && Reduced(negA, ps.q) && j == i + 1 && left == rest + 1
    ensures RotatedBy(ps, ApLoop(ps, bk, acc, negA, i), acc, z, LoopExponent(ps, negA, s, i),
                      ApLoopNoise(ps, bk, s, z, acc, negA, i))
    decreases left, 0
  {
    ApLoopExact(ps, bk, s, z, ApDigits(ps, bk, i, acc, negA[i], 0), negA, j, rest);
    ApLoopNext(ps, bk, s, z, acc, negA, i, j);
  }

  lemma ApLoopEnd(ps: ParamSet, bk: BTKey, s: Poly, z: Poly, acc: seq<Poly>, negA: seq<nat>, i: nat)
    requires ApFits(ps, bk, z) && IsAcc(ps, acc) && |negA| == |s| == ps.n && i == ps.n
    ensures ApLoopNoise(ps, bk, s, z, acc, negA, i) == Zero(ps.N)
    ensures RotatedBy(ps, ApLoop(ps, bk, acc, negA, i), acc, z, LoopExponent(ps, negA, s, i),
                      ApLoopNoise(ps, bk, s, z, acc, negA, i))
  {
    NotRotated(ps, acc, z, 0);
  }

  lemma ApLoopUnfolds(ps: ParamSet, bk: BTKey, acc: seq<Poly>, negA: seq<nat>, i: nat, j: nat)
    requires Supported(ps) && ApShape(ps, bk) && IsAcc(ps, acc) && |negA| == ps.n && i < ps.n && j == i + 1
    ensures ApLoop(ps, bk, acc, negA, i) == ApLoop(ps, bk, ApDigits(ps, bk, i, acc, negA[i], 0), negA, j)
  {
  }

  lemma ApLoopNoiseUnfolds(ps: ParamSet, bk: BTKey, s: Poly, z: Poly, acc: seq<Poly>, negA: seq<nat>, i: nat, j: nat)
    requires ApFits(ps, bk, z) && IsAcc(ps, acc) && |negA| == |s| == ps.n && i < ps.n && j == i + 1
    ensures LoopExponent(ps, negA, s, i) == Factor(ps) * (s[i] * negA[i]) + LoopExponent(ps, negA, s, j)
    ensures ApLoopNoise(ps, bk, s, z, acc, negA, i)
         == NoiseThen(ApDigitsNoise(ps, bk, s[i], z, i, acc, negA[i], 0), LoopExponent(ps, negA, s, j),
                      ApLoopNoise(ps, bk, s, z, ApDigits(ps, bk, i, acc, negA[i], 0), negA, j))
  {
  }

  lemma ApLoopNext(ps: ParamSet, bk: BTKey, s: Poly, z: Poly, acc: seq<Poly>, negA: seq<nat>, i: nat, j: nat)
    requires ApFits(ps, bk, z) && IsAcc(ps, acc) && |negA| == |s| == ps.n && i < ps.n && Reduced(negA, ps.q)
             && j == i + 1
    requires var acc' := ApDigits(ps, bk, i, acc, negA[i], 0);
             RotatedBy(ps, ApLoop(ps, bk, acc', negA, j), acc', z, LoopExponent(ps, negA, s, j),
                       ApLoopNoise(ps, bk, s, z, acc', negA, j))
    ensures RotatedBy(ps, ApLoop(ps, bk, acc, negA, i), acc, z, LoopExponent(ps, negA, s, i),
                      ApLoopNoise(ps, bk, s, z, acc, negA, i))
  {
    var acc' := ApDigits(ps, bk, i, acc, negA[i], 0);
    ApEntryExact(ps, bk, s[i], z, i, acc, negA[i]);
    ApLoopUnfolds(ps, bk, acc, negA, i, j);
    ApLoopNoiseUnfolds(ps, bk, s, z, acc, negA, i, j);
    RotatedTwice(ps, ApLoop(ps, bk, acc', negA, j), acc', acc, z, Factor(ps) * (s[i] * negA[i]),
                 LoopExponent(ps, negA, s, j), LoopExponent(ps, negA, s, i),
                 ApDigitsNoise(ps, bk, s[i], z, i, acc, negA[i], 0), ApLoopNoise(ps, bk, s, z, acc', negA, j));
  }

  lemma {:induction false} ApLoopSmall(ps: ParamSet, bk: BTKey, s: Poly, z: Poly, beta: nat, acc: seq<Poly>,
                                       negA: seq<nat>, i: nat, left: nat)
    requires ApReady(ps, bk, s, z, beta) && ApFits(ps, bk, z) && IsAcc(ps, acc) && |negA| == ps.n && i + left == ps.n
    ensures Small(ps, ApLoopNoise(ps, bk, s, z, acc, negA, i),
                  Multiple(left, Multiple(DigitsR(ps), StepError(ps, beta))))
    decreases left, 1
  {
    if left == 0 {
      ApLoopEnd(ps, bk, s, z, acc, negA, i);
      NoNoiseSmall(ps, Multiple(left, Multiple(DigitsR(ps), StepError(ps, beta))));
    } else {
      ApLoopSmallMore(ps, bk, s, z, beta, acc, negA, i, i + 1, left, left - 1);
    }
  }

  lemma {:induction false} ApLoopSmallMore(ps: ParamSet, bk: BTKey, s: Poly, z: Poly, beta: nat, acc: seq<Poly>,
                                           negA: seq<nat>, i: nat, j: nat, left: nat, rest: nat)
    requires ApReady(ps, bk, s, z, beta) && ApFits(ps, bk, z) && IsAcc(ps, acc) && |negA| == ps.n
    requires i + left == ps.n && j == i + 1 && left == rest + 1
    ensures Small(ps, ApLoopNoise(ps, bk, s, z, acc, negA, i),
                  Multiple(left, Multiple(DigitsR(ps), StepError(ps, beta))))
    decreases left, 0
  {
    ApLoopSmall(ps, bk, s, z, beta, ApDigits(ps, bk, i, acc, negA[i], 0), negA, j, rest);
    ApLoopSmallNext(ps, bk, s, z, beta, acc, negA, i, j, left, rest, Multiple(DigitsR(ps), StepError(ps, beta)));
  }

  lemma ApLoopSmallNext(ps: ParamSet, bk: BTKey, s: Poly, z: Poly, beta: nat, acc: seq<Poly>, negA: seq<nat>, i: nat,
                        j: nat, left: nat, rest: nat, d: nat)
    requires ApReady(ps, bk, s, z, beta) && ApFits(ps, bk, z) && IsAcc(ps, acc) && |negA| == ps.n && i < ps.n
    requires j == i + 1 && left == rest + 1 && d == Multiple(DigitsR(ps), StepError(ps, beta))
    requires Small(ps, ApLoopNoise(ps, bk, s, z, ApDigits(ps, bk, i, acc, negA[i], 0), negA, j), Multiple(rest, d))
    ensures Small(ps, ApLoopNoise(ps, bk, s, z, acc, negA, i), Multiple(left, d))
  {
    ApDigitsSmall(ps, bk, s, z, beta, i, acc, negA[i], 0, DigitsR(ps));
    ApLoopNoiseUnfolds(ps, bk, s, z, acc, negA, i, j);
    MultipleNext(left, rest, d);
    NoiseThenSmall(ps, ApDigitsNoise(ps, bk, s[i], z, i, acc, negA[i], 0), LoopExponent(ps, negA, s, j),
                   ApLoopNoise(ps, bk, s, z, ApDigits(ps, bk, i, acc, negA[i], 0), negA, j), d, Multiple(rest, d),
                   Multiple(left, d));
  }

  /** With a key of bounded error: after the AP loops the phase has been rotated by Factor * <negA, s>. */
  lemma ApLoopPhase(ps: ParamSet, bk: BTKey, s: Poly, z: Poly, beta: nat, acc: seq<Poly>, negA: seq<nat>, i: nat,
                    left: nat)
    requires ApReady(ps, bk, s, z, beta) && IsAcc(ps, acc) && |negA| == ps.n && i + left == ps.n && Reduced(negA, ps.q)
    ensures Rotated(ps, ApLoop(ps, bk, acc, negA, i), acc, z, LoopExponent(ps, negA, s, i),
                    Multiple(left, Multiple(DigitsR(ps), StepError(ps, beta))))
  {
    ApReadyFits(ps, bk, s, z, beta);
    ApLoopExact(ps, bk, s, z, acc, negA, i, left);
    ApLoopSmall(ps, bk, s, z, beta, acc, negA, i, left);
    RotatedWithin(ps, ApLoop(ps, bk, acc, negA, i), acc, z, LoopExponent(ps, negA, s, i),
                  ApLoopNoise(ps, bk, s, z, acc, negA, i), Multiple(left, Multiple(DigitsR(ps), StepError(ps, beta))));
  }

  // ---------- GINX ----------

  /** X^Index is the monomial for the entry a; a full turn counts as none. */
  function Index(ps: ParamSet, a: nat): nat
    requires ps.q > 0
  {
    var i := Multiple(a, Factor(ps));
    if i == 2 * ps.N then 0 else i
  }

  /** The phase -a. */
  function Opposite(ps: ParamSet, a: nat): nat
    requires ps.q > 0
  {
    (ps.q - a) % ps.q
  }

  ghost predicate GinxCells(ps: ParamSet, bk: BTKey, entries: nat)
    requires Supported(ps)
    decreases entries
  {
    entries > 0 ==>
      GinxCells(ps, bk, entries - 1) && KeyCell(ps, bk, 0, 0, entries - 1) && KeyCell(ps, bk, 0, 1, entries - 1)
  }

  ghost predicate GinxShape(ps: ParamSet, bk: BTKey)
    requires Supported(ps)
  {
    GinxCells(ps, bk, ps.n)
  }

  lemma {:induction false} GinxCellAt(ps: ParamSet, bk: BTKey, entries: nat, i: nat)
    requires Supported(ps) && GinxCells(ps, bk, entries) && i < entries
    ensures KeyCell(ps, bk, 0, 0, i) && KeyCell(ps, bk, 0, 1, i)
    decreases entries
  {
    if i < entries - 1 {
      GinxCellAt(ps, bk, entries - 1, i);
    }
  }

  /** acc + t * (X^m - 1), component by component. */
  function AddRotated(acc: seq<Poly>, t: seq<Poly>, mono: Poly, Q: nat): (r: seq<Poly>)
    requires |acc| == 2 && |t| == 2 && |acc[0]| == |acc[1]| == |mono| && Q > 0
    ensures |r| == 2 && |r[0]| == |r[1]| == |acc[0]| && Reduced(r[0], Q) && Reduced(r[1], Q)
  {
    [Reduce(Add(acc[0], Times(t[0], mono)), Q), Reduce(Add(acc[1], Times(t[1], mono)), Q)]
  }

  /** One ternary MUX: both products use the digits of the old accumulator. */
  function GinxStep(ps: ParamSet, acc: seq<Poly>, m1: Matrix, m2: Matrix, a: nat): (r: seq<Poly>)
    requires Supported(ps) && IsAcc(ps, acc)
    requires IsMatrix(m1, 2 * DigitsG(ps), ps.N) && IsMatrix(m2, 2 * DigitsG(ps), ps.N)
    ensures IsAcc(ps, r)
  {
    var t1, t2 := Product(ps, acc, m1), Product(ps, acc, m2);
    var acc1 := AddRotated(acc, t1, MonomialMinusOne(ps.N, Index(ps, a), ps.Q), ps.Q);
    AddRotated(acc1, t2, MonomialMinusOne(ps.N, Index(ps, Opposite(ps, a)), ps.Q), ps.Q)
  }

  /** The step for entry i of the ciphertext. */
  function GinxEntryStep(ps: ParamSet, bk: BTKey, acc: seq<Poly>, i: nat, a: nat): (r: seq<Poly>)
    requires Supported(ps) && GinxShape(ps, bk) && IsAcc(ps, acc) && i < ps.n
    ensures IsAcc(ps, r)
  {
    GinxCellAt(ps, bk, ps.n, i);
    GinxStep(ps, acc, bk[0][0][i], bk[0][1][i], a)
  }

  function GinxLoop(ps: ParamSet, bk: BTKey, acc: seq<Poly>, negA: seq<nat>, i: nat): (r: seq<Poly>)
    requires Supported(ps) && GinxShape(ps, bk) && IsAcc(ps, acc) && |negA| == ps.n && i <= ps.n
    ensures IsAcc(ps, r)
    decreases ps.n - i
  {
    if i == ps.n then acc else GinxLoop(ps, bk, GinxEntryStep(ps, bk, acc, i, negA[i]), negA, i + 1)
  }

  function Bit(b: bool): int {
    if b then 1 else 0
  }

  /** The two encryptions for a ternary secret: (s = 1) and (s = -1). */
  ghost predicate GinxEntry(ps: ParamSet, bk: BTKey, s: Poly, z: Poly, beta: nat, i: nat)
    requires Supported(ps) && |z| == ps.N && i < |s|
  {
    && KeyCell(ps, bk, 0, 0, i) && KeyCell(ps, bk, 0, 1, i)
    && Encrypts(ps, bk[0][0][i], z, Bit(s[i] == 1), 0, beta)
    && Encrypts(ps, bk[0][1][i], z, Bit(s[i] == -1), 0, beta)
  }

  ghost predicate GinxEntries(ps: ParamSet, bk: BTKey, s: Poly, z: Poly, beta: nat, entries: nat)
    requires Supported(ps) && |z| == ps.N && entries <= |s|
    decreases entries
  {
    entries > 0 ==> GinxEntries(ps, bk, s, z, beta, entries - 1) && GinxEntry(ps, bk, s, z, beta, entries - 1)
  }

  ghost predicate IsGinxKey(ps: ParamSet, bk: BTKey, s: Poly, z: Poly, beta: nat)
    requires Supported(ps) && |z| == ps.N && |s| == ps.n
  {
    GinxShape(ps, bk) && GinxEntries(ps, bk, s, z, beta, ps.n)
  }

  lemma {:induction false} GinxEntryAt(ps: ParamSet, bk: BTKey, s: Poly, z: Poly, beta: nat, entries: nat, i: nat)
    requires Supported(ps) && |z| == ps.N && entries <= |s| && GinxEntries(ps, bk, s, z, beta, entries) && i < entries
    ensures GinxEntry(ps, bk, s, z, beta, i)
    decreases entries
  {
    if i < entries - 1 {
      GinxEntryAt(ps, bk, s, z, beta, entries - 1, i);
    }
  }

  /** (X^m - 1) * p */
  ghost function Turned(p: Poly, m: int): (r: Poly)
    requires |p| > 0
    ensures |r| == |p|
  {
    Sub(Rot(p, m), p)
  }

  /** Adding t * (X^m - 1) adds the phase of t, rotated, and takes it off unrotated. */
  lemma AddRotatedPhase(acc: seq<Poly>, t: seq<Poly>, z: Poly, m: int, Q: nat)
    requires Q > 0 && IsPair(acc, |z|) && IsPair(t, |z|) && |z| > 0
    ensures Eqv(RowPhase(AddRotated(acc, t, MonomialMinusOne(|z|, m, Q), Q), z),
                Add(RowPhase(acc, z), Turned(RowPhase(t, z), m)), Q)
  {
    var mono := MonomialMinusOne(|z|, m, Q);
    var u0, u1 := Times(t[0], mono), Times(t[1], mono);
    TimesMonomialMinusOne(t[0], m, Q);
    TimesMonomialMinusOne(t[1], m, Q);
    var v0, v1 := Turned(t[0], m), Turned(t[1], m);
    EqvAdd(acc[0], acc[0], u0, v0, Q);
    EqvAdd(acc[1], acc[1], u1, v1, Q);
    ReduceEqv(Add(acc[0], u0), Q);
    ReduceEqv(Add(acc[1], u1), Q);
    PhaseEqv(Reduce(Add(acc[0], u0), Q), Add(acc[0], v0), Reduce(Add(acc[1], u1), Q), Add(acc[1], v1), z, z, Q);
    PhaseAdd(acc[0], acc[1], v0, v1, z);
    PhaseSub(Rot(t[0], m), Rot(t[1], m), t[0], t[1], z);
    PhaseRot(t[0], t[1], z, m);
  }

  lemma PhaseSub(a: Poly, b: Poly, a': Poly, b': Poly, z: Poly)
    requires |a| == |b| == |a'| == |b'| == |z|
    ensures RingPhase(Sub(a, a'), Sub(b, b'), z) == Sub(RingPhase(a, b, z), RingPhase(a', b', z))
  {
    SubIsAdd(a, a');
    SubIsAdd(b, b');
    PhaseAdd(a, b, Scale(-1, a'), Scale(-1, b'), z);
    PhaseScale(-1, a', b', z);
    SubIsAdd(RingPhase(a, b, z), RingPhase(a', b', z));
  }

  lemma TimesMonomialMinusOne(t: Poly, m: int, Q: nat)
    requires Q > 0 && |t| > 0
    ensures Eqv(Times(t, MonomialMinusOne(|t|, m, Q)), Turned(t, m), Q)
  {
    var one := One(|t|);
    ReduceEqv(Sub(Rot(one, m), one), Q);
    EqvMul(-1, -1, t, t, MonomialMinusOne(|t|, m, Q), Sub(Rot(one, m), one), Q);
    MulSubR(-1, t, Rot(one, m), one);
    TimesMonomial(t, m);
    MulOne(-1, t);
  }

  /** The phase after adding t * (X^m - 1), when t is c with noise n. */
  lemma MuxHalf(acc: seq<Poly>, t: seq<Poly>, z: Poly, m: int, target: Poly, before: Poly, c: Poly, n: Poly, Q: nat)
    requires Q > 0 && IsPair(acc, |z|) && IsPair(t, |z|) && |z| == |c| == |n| == |target| == |before| > 0
    requires Eqv(RowPhase(acc, z), Add(target, before), Q) && Eqv(RowPhase(t, z), Add(c, n), Q)
    ensures Eqv(RowPhase(AddRotated(acc, t, MonomialMinusOne(|z|, m, Q), Q), z),
                Add(Add(target, Turned(c, m)), Add(before, Turned(n, m))), Q)
  {
    AddRotatedPhase(acc, t, z, m, Q);
    TurnedSum(RowPhase(t, z), c, n, m, Q);
    EqvAdd(RowPhase(acc, z), Add(target, before), Turned(RowPhase(t, z), m), Add(Turned(c, m), Turned(n, m)), Q);
    AddSwap(target, before, Turned(c, m), Turned(n, m));
  }

  lemma TurnedSum(u: Poly, c: Poly, n: Poly, m: int, q: int)
    requires q > 0 && |u| == |c| == |n| > 0 && Eqv(u, Add(c, n), q)
    ensures Eqv(Turned(u, m), Add(Turned(c, m), Turned(n, m)), q)
  {
    RotEqv(u, Add(c, n), m, q);
    EqvSub(Rot(u, m), Rot(Add(c, n), m), u, Add(c, n), q);
    RotAdd(c, n, m);
    SubAdd(Rot(c, m), Rot(n, m), c, n);
  }

  lemma TurnedSmall(n: Poly, m: int, d: nat, q: int)
    requires q > 0 && |n| > 0 && NearPoly(n, Zero(|n|), d, q)
    ensures NearPoly(Turned(n, m), Zero(|n|), d + d, q)
  {
    NoiseRot(n, m, d, q);
    NoiseSub(Rot(n, m), n, d, d, q);
  }

  /** Of the two terms at most one is present, and it replaces p by p rotated. */
  lemma MuxSelects(p: Poly, s: int, m1: int, m2: int, c1: Poly, c2: Poly)
    requires |p| > 0 && -1 <= s <= 1 && c1 == Scale(Bit(s == 1), p) && c2 == Scale(Bit(s == -1), p)
    ensures Add(Add(p, Turned(c1, m1)), Turned(c2, m2))
         == Rot(p, if s == 1 then m1 else if s == -1 then m2 else 0)
  {
    var zero := Zero(|p|);
    ScaleOne(p);
    ScaleZero(p);
    RotOfZero(|p|, m1);
    RotOfZero(|p|, m2);
    RotZero(p);
    NothingAdded(p);
    if s == 1 {
      Replaced(p, Rot(p, m1));
      NothingAdded(Rot(p, m1));
    } else if s == -1 {
      Replaced(p, Rot(p, m2));
    }
  }

  lemma ScaleZero(p: Poly)
    ensures Scale(0, p) == Zero(|p|)
  {
  }

  lemma NothingAdded(p: Poly)
    ensures Add(p, Sub(Zero(|p|), Zero(|p|))) == p
  {
  }

  lemma Replaced(p: Poly, r: Poly)
    requires |p| == |r|
    ensures Add(p, Sub(r, p)) == r
  {
  }

  lemma IndexExponent(ps: ParamSet, p: Poly, a: nat)
    requires Supported(ps) && |p| == ps.N && a < ps.q
    ensures Rot(p, Index(ps, a)) == Rot(p, Factor(ps) * a)
    ensures Rot(p, Index(ps, Opposite(ps, a))) == Rot(p, Factor(ps) * (0 - a))
  {
    FactorTimes(ps);
    IndexIs(ps, p, a);
    IndexIs(ps, p, Opposite(ps, a));
    CongMod(ps.q - a, ps.q);
    CongFrom(ps.q - a, 0 - a, 1, ps.q);
    PhaseExponent(ps, p, Opposite(ps, a), 0 - a);
  }

  /** The two monomials of a MUX are inverse to each other. */
  lemma IndicesAreInverse(ps: ParamSet, p: Poly, a: nat)
    requires Supported(ps) && |p| == ps.N && a < ps.q
    ensures Rot(Rot(p, Index(ps, a)), Index(ps, Opposite(ps, a))) == p
  {
    IndexExponent(ps, p, a);
    IndexExponent(ps, Rot(p, Index(ps, a)), a);
    RotRot(p, Factor(ps) * a, Factor(ps) * (0 - a));
    assert Factor(ps) * a + Factor(ps) * (0 - a) == 0;
    RotZero(p);
  }

  lemma IndexIs(ps: ParamSet, p: Poly, a: nat)
    requires Supported(ps) && |p| == ps.N
    ensures Rot(p, Index(ps, a)) == Rot(p, Factor(ps) * a)
  {
    MultipleIs(a, Factor(ps));
    assert a * Factor(ps) == Factor(ps) * a;
    if a * Factor(ps) == 2 * ps.N {
      CongFrom(0, 2 * ps.N, -1, 2 * ps.N);
      RotPeriod(p, 0, 2 * ps.N);
    }
  }

  /** The noise of both products, each rotated and unrotated. */
  ghost function GinxStepNoise(ps: ParamSet, acc: seq<Poly>, m1: Matrix, m2: Matrix, z: Poly, s: int, a: nat)
    : (r: Poly)
    requires Supported(ps) && IsAcc(ps, acc) && |z| == ps.N
    requires IsMatrix(m1, 2 * DigitsG(ps), ps.N) && IsMatrix(m2, 2 * DigitsG(ps), ps.N)
    ensures |r| == ps.N
  {
    Add(Turned(StepNoise(ps, acc, m1, z, Bit(s == 1), 0), Index(ps, a)),
        Turned(StepNoise(ps, acc, m2, z, Bit(s == -1), 0), Index(ps, Opposite(ps, a))))
  }

  /** For all matrices: one GINX step rotates the phase by s * Factor * a, with exactly that noise. */
  lemma GinxStepExact(ps: ParamSet, acc: seq<Poly>, m1: Matrix, m2: Matrix, z: Poly, s: int, a: nat)
    requires Supported(ps) && IsAcc(ps, acc) && |z| == ps.N && -1 <= s <= 1 && a < ps.q
    requires IsMatrix(m1, 2 * DigitsG(ps), ps.N) && IsMatrix(m2, 2 * DigitsG(ps), ps.N)
    ensures RotatedBy(ps, GinxStep(ps, acc, m1, m2, a), acc, z, Factor(ps) * (s * a),
                      GinxStepNoise(ps, acc, m1, m2, z, s, a))
  {
    var p := RowPhase(acc, z);
    var i1, i2 := Index(ps, a), Index(ps, Opposite(ps, a));
    var c1, c2 := Scale(Bit(s == 1), p), Scale(Bit(s == -1), p);
    var n1, n2 := StepNoise(ps, acc, m1, z, Bit(s == 1), 0), StepNoise(ps, acc, m2, z, Bit(s == -1), 0);
    var acc1 := AddRotated(acc, Product(ps, acc, m1), MonomialMinusOne(ps.N, i1, ps.Q), ps.Q);
    UnrotatedProduct(ps, acc, m1, z, Bit(s == 1));
    UnrotatedProduct(ps, acc, m2, z, Bit(s == -1));
    AddZero(p);
    MuxHalf(acc, Product(ps, acc, m1), z, i1, p, Zero(ps.N), c1, n1, ps.Q);
    AddZero(Turned(n1, i1));
    MuxHalf(acc1, Product(ps, acc, m2), z, i2, Add(p, Turned(c1, i1)), Turned(n1, i1), c2, n2, ps.Q);
    MuxSelects(p, s, i1, i2, c1, c2);
    ChosenIndex(ps, p, s, a);
  }

  lemma UnrotatedProduct(ps: ParamSet, acc: seq<Poly>, m: Matrix, z: Poly, coef: int)
    requires Supported(ps) && IsAcc(ps, acc) && |z| == ps.N && IsMatrix(m, 2 * DigitsG(ps), ps.N)
    ensures Eqv(RowPhase(Product(ps, acc, m), z), Add(Scale(coef, RowPhase(acc, z)), StepNoise(ps, acc, m, z, coef, 0)),
                ps.Q)
  {
    ProductExact(ps, acc, m, z, coef, 0);
    RotZero(RowPhase(acc, z));
  }

  lemma GinxStepSmall(ps: ParamSet, acc: seq<Poly>, m1: Matrix, m2: Matrix, z: Poly, s: int, a: nat, beta: nat)
    requires Supported(ps) && IsAcc(ps, acc) && |z| == ps.N && Bounded(z, 1)
    requires Encrypts(ps, m1, z, Bit(s == 1), 0, beta) && Encrypts(ps, m2, z, Bit(s == -1), 0, beta)
    ensures Small(ps, GinxStepNoise(ps, acc, m1, m2, z, s, a), MuxError(ps, beta))
  {
    var e := StepError(ps, beta);
    var n1, n2 := StepNoise(ps, acc, m1, z, Bit(s == 1), 0), StepNoise(ps, acc, m2, z, Bit(s == -1), 0);
    StepNoiseSmall(ps, acc, m1, z, Bit(s == 1), 0, beta);
    StepNoiseSmall(ps, acc, m2, z, Bit(s == -1), 0, beta);
    TurnedSmall(n1, Index(ps, a), e, ps.Q);
    TurnedSmall(n2, Index(ps, Opposite(ps, a)), e, ps.Q);
    NoiseAdd(Turned(n1, Index(ps, a)), Turned(n2, Index(ps, Opposite(ps, a))), e + e, e + e, ps.Q);
    MultipleIs(4, e);
  }

  /** One GINX step rotates the phase by s * Factor * a, with at most four product errors. */
  lemma GinxStepPhase(ps: ParamSet, acc: seq<Poly>, m1: Matrix, m2: Matrix, z: Poly, s: int, a: nat, beta: nat)
    requires Supported(ps) && IsAcc(ps, acc) && |z| == ps.N && Bounded(z, 1) && -1 <= s <= 1 && a < ps.q
    requires Encrypts(ps, m1, z, Bit(s == 1), 0, beta) && Encrypts(ps, m2, z, Bit(s == -1), 0, beta)
    ensures Rotated(ps, GinxStep(ps, acc, m1, m2, a), acc, z, Factor(ps) * (s * a), MuxError(ps, beta))
  {
    GinxStepExact(ps, acc, m1, m2, z, s, a);
    GinxStepSmall(ps, acc, m1, m2, z, s, a, beta);
    RotatedWithin(ps, GinxStep(ps, acc, m1, m2, a), acc, z, Factor(ps) * (s * a),
                  GinxStepNoise(ps, acc, m1, m2, z, s, a), MuxError(ps, beta));
  }

  lemma ChosenIndex(ps: ParamSet, p: Poly, s: int, a: nat)
    requires Supported(ps) && |p| == ps.N && a < ps.q && -1 <= s <= 1
    ensures Rot(p, if s == 1 then Index(ps, a) else if s == -1 then Index(ps, Opposite(ps, a)) else 0)
         == Rot(p, Factor(ps) * (s * a))
  {
    IndexExponent(ps, p, a);
    var f := Factor(ps);
    assert f * (1 * a) == f * a && f * (-1 * a) == f * (0 - a) && f * (0 * a) == 0;
  }

  /** A ternary MUX adds two products, each rotated and unrotated. */
  ghost function MuxError(ps: ParamSet, beta: nat): nat
    requires Supported(ps)
  {
    Multiple(4, StepError(ps, beta))
  }

  /** Parameters, secrets and key fit together. */
  ghost predicate GinxReady(ps: ParamSet, bk: BTKey, s: Poly, z: Poly, beta: nat) {
    match ps
    case ParamSet(n, N, _, _, _, _, _, _) =>
      Supported(ps) && |z| == N && Bounded(z, 1) && |s| == n && Bounded(s, 1) && IsGinxKey(ps, bk, s, z, beta)
  }

  /** Parameters, secret and the shape of the key fit together; nothing is said about what the key encrypts. */
  ghost predicate GinxFits(ps: ParamSet, bk: BTKey, z: Poly) {
    // A match in place of selectors keeps the definition folded in proofs.
    match ps
    case ParamSet(_, N, _, _, _, _, _, _) => Supported(ps) && |z| == N && GinxShape(ps, bk)
  }

  ghost function GinxEntryNoise(ps: ParamSet, bk: BTKey, si: int, z: Poly, acc: seq<Poly>, i: nat, a: nat): (r: Poly)
    requires GinxFits(ps, bk, z) && IsAcc(ps, acc) && i < ps.n
    ensures |r| == ps.N
  {
    GinxCellAt(ps, bk, ps.n, i);
    GinxStepNoise(ps, acc, bk[0][0][i], bk[0][1][i], z, si, a)
  }

  /** The noise of the GINX loop from entry i on. */
  ghost function GinxLoopNoise(ps: ParamSet, bk: BTKey, s: Poly, z: Poly, acc: seq<Poly>, negA: seq<nat>, i: nat)
    : (r: Poly)
    requires GinxFits(ps, bk, z) && IsAcc(ps, acc) && |negA| == |s| == ps.n && i <= ps.n
    ensures |r| == ps.N
    decreases ps.n - i
  {
    if i == ps.n then Zero(ps.N)
    else
      NoiseThen(GinxEntryNoise(ps, bk, s[i], z, acc, i, negA[i]), LoopExponent(ps, negA, s, i + 1),
                GinxLoopNoise(ps, bk, s, z, GinxEntryStep(ps, bk, acc, i, negA[i]), negA, i + 1))
  }

  lemma GinxEntryExact(ps: ParamSet, bk: BTKey, si: int, z: Poly, acc: seq<Poly>, i: nat, a: nat)
    requires GinxFits(ps, bk, z) && IsAcc(ps, acc) && i < ps.n && -1 <= si <= 1 && a < ps.q
    ensures RotatedBy(ps, GinxEntryStep(ps, bk, acc, i, a), acc, z, Factor(ps) * (si * a),
                      GinxEntryNoise(ps, bk, si, z, acc, i, a))
  {
    GinxCellAt(ps, bk, ps.n, i);
    GinxStepExact(ps, acc, bk[0][0][i], bk[0][1][i], z, si, a);
  }

  lemma GinxLoopEnd(ps: ParamSet, bk: BTKey, s: Poly, z: Poly, acc: seq<Poly>, negA: seq<nat>, i: nat)
    requires GinxFits(ps, bk, z) && IsAcc(ps, acc) && |negA| == |s| == ps.n && i == ps.n
    ensures GinxLoopNoise(ps, bk, s, z, acc, negA, i) == Zero(ps.N)
    ensures RotatedBy(ps, GinxLoop(ps, bk, acc, negA, i), acc, z, LoopExponent(ps, negA, s, i),
                      GinxLoopNoise(ps, bk, s, z, acc, negA, i))
  {
    NotRotated(ps, acc, z, 0);
  }

  lemma GinxLoopUnfolds(ps: ParamSet, bk: BTKey, acc: seq<Poly>, negA: seq<nat>, i: nat, j: nat)
    requires Supported(ps) && GinxShape(ps, bk) && IsAcc(ps, acc) && |negA| == ps.n && i < ps.n && j == i + 1
    ensures GinxLoop(ps, bk, acc, negA, i) == GinxLoop(ps, bk, GinxEntryStep(ps, bk, acc, i, negA[i]), negA, j)
  {
  }

  lemma GinxLoopNoiseUnfolds(ps: ParamSet, bk: BTKey, s: Poly, z: Poly, acc: seq<Poly>, negA: seq<nat>, i: nat, j: nat)
    requires GinxFits(ps, bk, z) && IsAcc(ps, acc) && |negA| == |s| == ps.n && i < ps.n && j == i + 1
    ensures LoopExponent(ps, negA, s, i) == Factor(ps) * (s[i] * negA[i]) + LoopExponent(ps, negA, s, j)
    ensures GinxLoopNoise(ps, bk, s, z, acc, negA, i)
         == NoiseThen(GinxEntryNoise(ps, bk, s[i], z, acc, i, negA[i]), LoopExponent(ps, negA, s, j),
                      GinxLoopNoise(ps, bk, s, z, GinxEntryStep(ps, bk, acc, i, negA[i]), negA, j))
  {
  }

  lemma GinxLoopNext(ps: ParamSet, bk: BTKey, s: Poly, z: Poly, acc: seq<Poly>, negA: seq<nat>, i: nat, j: nat)
    requires GinxFits(ps, bk, z) && IsAcc(ps, acc) && |negA| == |s| == ps.n && Bounded(s, 1)
    requires i < ps.n && Reduced(negA, ps.q) && j == i + 1
    requires var acc' := GinxEntryStep(ps, bk, acc, i, negA[i]);
             RotatedBy(ps, GinxLoop(ps, bk, acc', negA, j), acc', z, LoopExponent(ps, negA, s, j),
                       GinxLoopNoise(ps, bk, s, z, acc', negA, j))
    ensures RotatedBy(ps, GinxLoop(ps, bk, acc, negA, i), acc, z, LoopExponent(ps, negA, s, i),
                      GinxLoopNoise(ps, bk, s, z, acc, negA, i))
  {
    var acc' := GinxEntryStep(ps, bk, acc, i, negA[i]);
    TernaryAt(s, i);
    GinxEntryExact(ps, bk, s[i], z, acc, i, negA[i]);
    GinxLoopUnfolds(ps, bk, acc, negA, i, j);
    GinxLoopNoiseUnfolds(ps, bk, s, z, acc, negA, i, j);
    RotatedTwice(ps, GinxLoop(ps, bk, acc', negA, j), acc', acc, z, Factor(ps) * (s[i] * negA[i]),
                 LoopExponent(ps, negA, s, j), LoopExponent(ps, negA, s, i),
                 GinxEntryNoise(ps, bk, s[i], z, acc, i, negA[i]), GinxLoopNoise(ps, bk, s, z, acc', negA, j));
  }

  lemma TernaryAt(s: Poly, i: nat)
    requires Bounded(s, 1) && i < |s|
    ensures -1 <= s[i] <= 1
  {
    assert Abs(s[i]) <= 1;
  }

  /** Whatever the key holds: for a ternary secret the loop rotates by Factor * <negA, s>, with exactly that noise. */
  lemma {:induction false} GinxLoopExact(ps: ParamSet, bk: BTKey, s: Poly, z: Poly, acc: seq<Poly>, negA: seq<nat>,
                                         i: nat, left: nat)
    requires GinxFits(ps, bk, z) && IsAcc(ps, acc) && |negA| == |s| == ps.n && Bounded(s, 1)
    requires i + left == ps.n && Reduced(negA, ps.q)
    ensures RotatedBy(ps, GinxLoop(ps, bk, acc, negA, i), acc, z, LoopExponent(ps, negA, s, i),
                      GinxLoopNoise(ps, bk, s, z, acc, negA, i))
    decreases left, 1
  {
    if left == 0 {
      GinxLoopEnd(ps, bk, s, z, acc, negA, i);
    } else {
      GinxLoopMore(ps, bk, s, z, acc, negA, i, i + 1, left, left - 1);
    }
  }

  lemma {:induction false} GinxLoopMore(ps: ParamSet, bk: BTKey, s: Poly, z: Poly, acc: seq<Poly>, negA: seq<nat>,
                                        i: nat, j: nat, left: nat, rest: nat)
    requires GinxFits(ps, bk, z) && IsAcc(ps, acc) && |negA| == |s| == ps.n && Bounded(s, 1)
    requires i + left == ps.n && Reduced(negA, ps.q) && j == i + 1 && left == rest + 1
    ensures RotatedBy(ps, GinxLoop(ps, bk, acc, negA, i), acc, z, LoopExponent(ps, negA, s, i),
                      GinxLoopNoise(ps, bk, s, z, acc, negA, i))
    decreases left, 0
  {
    GinxLoopExact(ps, bk, s, z, GinxEntryStep(ps, bk, acc, i, negA[i]), negA, j, rest);
    GinxLoopNext(ps, bk, s, z, acc, negA, i, j);
  }

  lemma GinxReadyFits(ps: ParamSet, bk: BTKey, s: Poly, z: Poly, beta: nat)
    requires GinxReady(ps, bk, s, z, beta)
    ensures GinxFits(ps, bk, z) && Supported(ps) && |s| == ps.n && |z| == ps.N && Bounded(s, 1)
  {
  }

  lemma GinxEntrySmall(ps: ParamSet, bk: BTKey, s: Poly, z: Poly, beta: nat, acc: seq<Poly>, i: nat, a: nat)
    requires GinxReady(ps, bk, s, z, beta) && GinxFits(ps, bk, z) && IsAcc(ps, acc) && i < ps.n
    ensures Small(ps, GinxEntryNoise(ps, bk, s[i], z, acc, i, a), MuxError(ps, beta))
  {
    GinxEntryAt(ps, bk, s, z, beta, ps.n, i);
    GinxStepSmall(ps, acc, bk[0][0][i], bk[0][1][i], z, s[i], a, beta);
  }

  lemma {:induction false} GinxLoopSmall(ps: ParamSet, bk: BTKey, s: Poly, z: Poly, beta: nat, acc: seq<Poly>,
                                         negA: seq<nat>, i: nat, left: nat)
    requires GinxReady(ps, bk, s, z, beta) && GinxFits(ps, bk, z) && IsAcc(ps, acc) && |negA| == ps.n
    requires i + left == ps.n
    ensures Small(ps, GinxLoopNoise(ps, bk, s, z, acc, negA, i), Multiple(left, MuxError(ps, beta)))
    decreases left, 1
  {
    if left == 0 {
      GinxLoopEnd(ps, bk, s, z, acc, negA, i);
      NoNoiseSmall(ps, Multiple(left, MuxError(ps, beta)));
    } else {
      GinxLoopSmallMore(ps, bk, s, z, beta, acc, negA, i, i + 1, left, left - 1);
    }
  }

  lemma {:induction false} GinxLoopSmallMore(ps: ParamSet, bk: BTKey, s: Poly, z: Poly, beta: nat, acc: seq<Poly>,
                                           negA: seq<nat>, i: nat, j: nat, left: nat, rest: nat)
    requires GinxReady(ps, bk, s, z, beta) && GinxFits(ps, bk, z) && IsAcc(ps, acc) && |negA| == ps.n
    requires i + left == ps.n && j == i + 1 && left == rest + 1
    ensures Small(ps, GinxLoopNoise(ps, bk, s, z, acc, negA, i), Multiple(left, MuxError(ps, beta)))
    decreases left, 0
  {
    GinxLoopSmall(ps, bk, s, z, beta, GinxEntryStep(ps, bk, acc, i, negA[i]), negA, j, rest);
    GinxLoopSmallNext(ps, bk, s, z, beta, acc, negA, i, j, left, rest, MuxError(ps, beta));
  }

  lemma GinxLoopSmallNext(ps: ParamSet, bk: BTKey, s: Poly, z: Poly, beta: nat, acc: seq<Poly>, negA: seq<nat>, i: nat,
                          j: nat, left: nat, rest: nat, d: nat)
    requires GinxReady(ps, bk, s, z, beta) && GinxFits(ps, bk, z) && IsAcc(ps, acc) && |negA| == ps.n && i < ps.n
    requires j == i + 1 && left == rest + 1 && d == MuxError(ps, beta)
    requires Small(ps, GinxLoopNoise(ps, bk, s, z, GinxEntryStep(ps, bk, acc, i, negA[i]), negA, j), Multiple(rest, d))
    ensures Small(ps, GinxLoopNoise(ps, bk, s, z, acc, negA, i), Multiple(left, d))
  {
    GinxEntrySmall(ps, bk, s, z, beta, acc, i, negA[i]);
    GinxLoopNoiseUnfolds(ps, bk, s, z, acc, negA, i, j);
    MultipleNext(left, rest, d);
    NoiseThenSmall(ps, GinxEntryNoise(ps, bk, s[i], z, acc, i, negA[i]), LoopExponent(ps, negA, s, j),
                   GinxLoopNoise(ps, bk, s, z, GinxEntryStep(ps, bk, acc, i, negA[i]), negA, j), d, Multiple(rest, d),
                   Multiple(left, d));
  }

  /** With a key of bounded error: after n GINX steps the phase has been rotated by Factor * <negA, s>. */
  lemma GinxLoopPhase(ps: ParamSet, bk: BTKey, s: Poly, z: Poly, beta: nat, acc: seq<Poly>, negA: seq<nat>, i: nat,
                      left: nat)
    requires GinxReady(ps, bk, s, z, beta) && IsAcc(ps, acc) && |negA| == ps.n && i + left == ps.n
             && Reduced(negA, ps.q)
    ensures Rotated(ps, GinxLoop(ps, bk, acc, negA, i), acc, z, LoopExponent(ps, negA, s, i),
                    Multiple(left, MuxError(ps, beta)))
  {
    GinxReadyFits(ps, bk, s, z, beta);
    GinxLoopExact(ps, bk, s, z, acc, negA, i, left);
    GinxLoopSmall(ps, bk, s, z, beta, acc, negA, i, left);
    RotatedWithin(ps, GinxLoop(ps, bk, acc, negA, i), acc, z, LoopExponent(ps, negA, s, i),
                  GinxLoopNoise(ps, bk, s, z, acc, negA, i), Multiple(left, MuxError(ps, beta)));
  }
}
