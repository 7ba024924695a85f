/**
 Generation of the bootstrapping key and the switching key from two ternary secrets. The
 samples are given as functions of the position in the key.
 */
module KeyGeneration {
  import opened Arith
  import opened Poly
  import opened Params
  import opened Rgsw
  import opened BlindRotate
  import opened Lwe
  import opened Switching
  import opened Encryption
  import opened Refresh
  import opened Gates

  datatype EvalKey = EvalKey(BSkey: Option<BTKey>, KSkey: Option<SwitchKey>)

  type GswSamples = (nat, nat, nat) -> Sampler

  /** Every sampler yields polynomials of the ring. */
  ghost predicate SampleShapes(ps: ParamSet, gswA: GswSamples, gswE: GswSamples)
    requires Supported(ps)
  {
    forall i, j, k {:trigger gswA(i, j, k)} {:trigger gswE(i, j, k)} ::
      Samples(gswA(i, j, k), gswE(i, j, k), 2 * DigitsG(ps), ps.N)
  }

  /** No error is larger than beta. */
  ghost predicate SmallSamples(ps: ParamSet, gswE: GswSamples, beta: nat)
    requires Supported(ps)
  {
    forall i, j, k {:trigger gswE(i, j, k)} :: SmallErrors(gswE(i, j, k), 2 * DigitsG(ps), ps.N, beta, ps.Q)
  }

  /** The stored ring secret stands for a ternary polynomial. */
  ghost predicate RingSecret(ps: ParamSet, skN: PrivateKey) {
    |skN.element| == ps.N && skN.modulus == ps.Q && Bounded(SignedKey(skN), 1)
  }

  /** The rows of m hold coef * X^e under the stored secret, with the masks and errors of the samples. */
  ghost predicate Made(ps: ParamSet, m: Matrix, skN: PrivateKey, coef: int, e: int, sampleA: Sampler,
                       sampleE: Sampler) {
    // A match in place of selectors keeps the definition folded in proofs.
    match ps
    case ParamSet(_, N, _, _, _, _, _, _) =>
      Supported(ps) && IsMatrix(m, 2 * DigitsG(ps), N) && HoldsUnder(ps, m, skN.element, coef, e, sampleA, sampleE)
  }

  lemma MadeEncrypts(ps: ParamSet, m: Matrix, skN: PrivateKey, coef: int, e: int, sampleA: Sampler, sampleE: Sampler,
                     beta: nat)
    requires Supported(ps) && Made(ps, m, skN, coef, e, sampleA, sampleE) && RingSecret(ps, skN)
    requires SmallErrors(sampleE, 2 * DigitsG(ps), ps.N, beta, ps.Q)
    ensures IsMatrix(m, 2 * DigitsG(ps), ps.N) && Encrypts(ps, m, SignedKey(skN), coef, e, beta)
  {
    StoredKey(skN);
    var z := SignedKey(skN);
    assert |z| == ps.N && Eqv(skN.element, z, ps.Q);
    assert HoldsRows(ps, m, z, coef, e, sampleA, sampleE);
    HeldRowsEncrypt(ps, m, z, coef, e, beta, sampleA, sampleE);
  }

  // ---------- AP ----------

  ghost predicate ApDigitsMade(ps: ParamSet, row: seq<Matrix>, skN: PrivateKey, x: nat, i: nat, j: nat, count: nat,
                               gswA: GswSamples, gswE: GswSamples)
    requires Supported(ps)
  {
    |row| == count && forall k {:trigger row[k]} :: 0 <= k < count ==>
        ApEntryMade(ps, row[k], skN, x, j, k, gswA(i, j, k), gswE(i, j, k))
  }

  ghost predicate ApValuesMade(ps: ParamSet, rows: seq<seq<Matrix>>, skN: PrivateKey, x: nat, i: nat, values: nat,
                               gswA: GswSamples, gswE: GswSamples)
    requires Supported(ps)
  {
    |rows| == values && forall j {:trigger rows[j]} :: 1 <= j < values ==>
        ApDigitsMade(ps, rows[j], skN, x, i, j, DigitsR(ps), gswA, gswE)
  }

  /** Entry (i, j, k) is made from its own samples gswA(i, j, k) and gswE(i, j, k), for every digit value j but 0. */
  ghost predicate ApKeyMade(ps: ParamSet, bk: BTKey, sk: PrivateKey, skN: PrivateKey, count: nat, gswA: GswSamples,
                            gswE: GswSamples)
    requires Supported(ps) && count <= |sk.element|
  {
    |bk| == count && forall i {:trigger bk[i]} :: 0 <= i < count ==>
        ApValuesMade(ps, bk[i], skN, sk.element[i], i, ps.baseR, gswA, gswE)
  }

  /** The integer that the AP key generation uses for a secret; q comes off twice for the upper half. */
  function SignedTwice(x: nat, q: nat): int {
    if x < q / 2 then x else x - q - q
  }

  const INT_SIZE: nat := 0x1_0000_0000

  /** What a 32-bit signed integer holds of x. */
  function SignedInt(x: int): int {
    (x + INT_SIZE / 2) % INT_SIZE - INT_SIZE / 2
  }

  /** The message of the key entry for secret x, digit value j and position k, before it is cut to 32 bits. */
  function ApProduct(ps: ParamSet, x: nat, j: nat, k: nat): int {
    SignedTwice(x, ps.q) * j * Pow(ps.baseR, k)
  }

  /** Two's complement: the one integer of 32 bits that is congruent to x. */
  lemma SignedIntIff(x: int, r: int)
    ensures r == SignedInt(x) <==> Cong(r, x, INT_SIZE) && 0 - INT_SIZE / 2 <= r < INT_SIZE / 2
  {
    var h := INT_SIZE / 2;
    CongMod(x + h, INT_SIZE);
    CongSub((x + h) % INT_SIZE, x + h, h, h, INT_SIZE);
    if Cong(r, x, INT_SIZE) && 0 - h <= r < h {
      CongAdd(r, x, h, h, INT_SIZE);
      ModIntro(r + h, 0, r + h, INT_SIZE);
    }
  }

  /** For the lower half the product is that of the secret, for the upper half that of the secret minus 2q. */
  lemma ApProductIs(ps: ParamSet, x: nat, j: nat, k: nat)
    ensures x < ps.q / 2 ==> ApProduct(ps, x, j, k) == x * (j * Pow(ps.baseR, k))
    ensures x >= ps.q / 2 ==> ApProduct(ps, x, j, k) == (x - 2 * ps.q) * (j * Pow(ps.baseR, k))
  {
    TimesAssoc(SignedTwice(x, ps.q), j, Pow(ps.baseR, k));
  }

  lemma TimesAssoc(x: int, y: int, z: int)
    ensures x * y * z == x * (y * z)
  {
  }

  /** What wrap-around takes off the product is a multiple of q. */
  predicate IntHarmless(m: int, q: nat)
    requires q > 0
  {
    (INT_SIZE * ((m + INT_SIZE / 2) / INT_SIZE)) % q == 0
  }

  /** Key generation uses the right exponent modulo 2N if and only if the wrap-around of the product is harmless. */
  lemma ApExponent(ps: ParamSet, x: nat, j: nat, k: nat)
    requires Supported(ps)
    ensures Cong(Factor(ps) * SignedInt(ApProduct(ps, x, j, k)), EntryExponent(ps, Signed(x, ps.q), j, k), 2 * ps.N)
            <==> IntHarmless(ApProduct(ps, x, j, k), ps.q)
  {
    var m := ApProduct(ps, x, j, k);
    FactorTimes(ps);
    var c := TwiceIs(x, ps.q);
    ExponentShift(Signed(x, ps.q), c, j, Pow(ps.baseR, k), ps.q, Factor(ps), 2 * ps.N);
    var l, r := DivMod(m + INT_SIZE / 2, INT_SIZE);
    assert l * INT_SIZE == INT_SIZE * l;
    ScaledCong(Factor(ps), m, INT_SIZE * l, ps.q, 2 * ps.N);
  }

  /** Taking d off m does not change f * m modulo f * q exactly for the multiples d of q. */
  lemma ScaledCong(f: nat, m: int, d: int, q: nat, M: nat)
    requires f > 0 && q > 0 && M > 0 && f * q == M
    ensures Cong(f * (m - d), f * m, M) <==> d % q == 0
  {
    if Cong(f * (m - d), f * m, M) {
      var l := CongWitness(f * (m - d), f * m, M);
      FactorOut(f, m, d, l, q, M);
      ModIntro(d, 0 - l, 0, q);
    }
    if d % q == 0 {
      var l, r := DivMod(d, q);
      FactorIn(f, m, d, 0 - l, q, M);
      CongFrom(f * (m - d), f * m, 0 - l, M);
    }
  }

  lemma FactorOut(f: nat, m: int, d: int, l: int, q: nat, M: nat)
    requires f > 0 && f * q == M && f * (m - d) == f * m + l * M
    ensures d == (0 - l) * q
  {
    TakeOff(f, m, l, q, M);
    SameFactor(f, m - d, m + l * q);
  }

  lemma FactorIn(f: nat, m: int, d: int, l: int, q: nat, M: nat)
    requires f * q == M && d == (0 - l) * q
    ensures f * (m - d) == f * m + l * M
  {
    TakeOff(f, m, l, q, M);
  }

  lemma TakeOff(f: nat, m: int, l: int, q: nat, M: nat)
    requires f * q == M
    ensures f * (m + l * q) == f * m + l * M
  {
    assert l * (f * q) == f * (l * q);
  }

  lemma SameFactor(f: int, x: int, y: int)
    requires f > 0 && f * x == f * y
    ensures x == y
  {
    MulCancel(x, y, f);
    MulCancel(y, x, f);
  }

  /** For every modulus that divides 2^32, as all powers of two up to it do, nothing can go wrong. */
  lemma IntHarmlessWhen(m: int, q: nat)
    requires q > 0 && (INT_SIZE % q == 0 || -(INT_SIZE / 2) <= m < INT_SIZE / 2)
    ensures IntHarmless(m, q)
  {
    var l := (m + INT_SIZE / 2) / INT_SIZE;
    if INT_SIZE % q == 0 {
      var c, r := DivMod(INT_SIZE, q);
      assert (c * q) * l == (c * l) * q;
      ModIntro(INT_SIZE * l, c * l, 0, q);
    } else {
      ModIntro(m + INT_SIZE / 2, 0, m + INT_SIZE / 2, INT_SIZE);
      ModIntro(0, 0, 0, q);
    }
  }

  /** The products of all key entries are harmless. */
  ghost predicate ApMessagesFit(ps: ParamSet, sk: PrivateKey)
    requires Supported(ps)
  {
    forall i, j: nat, k: nat {:trigger ApProduct(ps, sk.element[i], j, k)} ::
      0 <= i < |sk.element| && j < ps.baseR && k < DigitsR(ps) ==>
        IntHarmless(ApProduct(ps, sk.element[i], j, k), ps.q)
  }

  lemma TwiceIs(x: nat, q: nat) returns (c: int)
    ensures SignedTwice(x, q) == Signed(x, q) + c * q
  {
    c := if x < q / 2 then 0 else if x <= q / 2 then -2 else -1;
  }

  lemma ExponentShift(s: int, c: int, j: int, p: int, q: nat, f: int, M: nat)
    requires M > 0 && f * q == M
    ensures Cong(f * ((s + c * q) * j * p), f * (s * j * p), M)
  {
    assert (s + c * q) * j * p == s * j * p + (c * j * p) * q by {
      assert (s + c * q) * j == s * j + (c * j) * q;
      assert ((c * j) * q) * p == (c * j * p) * q;
    }
    assert f * (s * j * p + (c * j * p) * q) == f * (s * j * p) + (c * j * p) * (f * q);
    CongFrom(f * ((s + c * q) * j * p), f * (s * j * p), c * j * p, M);
  }

  /**
   The entry for secret x, digit value j and position k holds the power of X for its 32-bit product: every row is
   made from its samples, with sign * X^place times its gadget power.
   */
  ghost predicate ApEntryMade(ps: ParamSet, m: Matrix, skN: PrivateKey, x: nat, j: nat, k: nat, sampleA: Sampler,
                              sampleE: Sampler)
    requires Supported(ps)
  {
    var message := SignedInt(ApProduct(ps, x, j, k));
    var E := MessageExponent(ps, message);
    && Made(ps, m, skN, 1, Factor(ps) * message, sampleA, sampleE)
    && RowsMade(ps, m, skN.element, Place(E, ps.N), Sign(E, ps.N), sampleA, sampleE)
  }

  /** That is the right one if the product is harmless. */
  lemma ApEntryRight(ps: ParamSet, m: Matrix, skN: PrivateKey, x: nat, j: nat, k: nat, sampleA: Sampler,
                     sampleE: Sampler)
    requires Supported(ps) && ApEntryMade(ps, m, skN, x, j, k, sampleA, sampleE)
             && IntHarmless(ApProduct(ps, x, j, k), ps.q)
    ensures Made(ps, m, skN, 1, EntryExponent(ps, Signed(x, ps.q), j, k), sampleA, sampleE)
  {
    ApExponent(ps, x, j, k);
    MadeSameExponent(ps, m, skN, Factor(ps) * SignedInt(ApProduct(ps, x, j, k)),
                     EntryExponent(ps, Signed(x, ps.q), j, k), sampleA, sampleE);
  }

  lemma MadeSameExponent(ps: ParamSet, m: Matrix, skN: PrivateKey, e: int, e': int, sampleA: Sampler, sampleE: Sampler)
    requires Supported(ps) && Made(ps, m, skN, 1, e, sampleA, sampleE) && Cong(e, e', 2 * ps.N)
    ensures Made(ps, m, skN, 1, e', sampleA, sampleE)
  {
    SameExponent(ps, m, skN.element, 1, e, e', sampleA, sampleE);
  }

  /** As for all shipped parameter sets. */
  lemma ApMessagesAlwaysFit(ps: ParamSet, sk: PrivateKey)
    requires Supported(ps) && INT_SIZE % ps.q == 0
    ensures ApMessagesFit(ps, sk)
  {
    forall i, j: nat, k: nat {:trigger ApProduct(ps, sk.element[i], j, k)}
      | 0 <= i < |sk.element| && j < ps.baseR && k < DigitsR(ps)
      ensures IntHarmless(ApProduct(ps, sk.element[i], j, k), ps.q)
    {
      IntHarmlessWhen(ApProduct(ps, sk.element[i], j, k), ps.q);
    }
  }

  /** The message of an entry, as 32-bit signed integers hold it. */
  method EntryMessage(params: RingGSWCryptoParams, x: nat, j: nat, k: nat) returns (message: int)
    requires params.Valid() && Supported(params.Set()) && params.variant.AP? && k < |params.digitsR|
    ensures message == SignedInt(ApProduct(params.Set(), x, j, k))
  {
    var q := params.lwe.q;
    var signedSK := if x < q / 2 then x else x - q;
    if x >= q / 2 {
      signedSK := signedSK - q;
    }
    message := SignedInt(signedSK * j * params.digitsR[k]);
  }

  method ApEntryKey(params: RingGSWCryptoParams, skN: PrivateKey, x: nat, j: nat, k: nat, sampleA: Sampler,
                    sampleE: Sampler)
    returns (m: Matrix)
    requires params.Valid() && Supported(params.Set()) && params.variant.AP? && RingSecret(params.Set(), skN)
             && k < |params.digitsR|
    requires Samples(sampleA, sampleE, params.digitsG2, params.lwe.N)
    ensures ApEntryMade(params.Set(), m, skN, x, j, k, sampleA, sampleE)
  {
    var message := EntryMessage(params, x, j, k);
    var ct := EncryptAP(params, skN.element, message, sampleA, sampleE);
    m := ct.elements;
    ApEntryIntro(params.Set(), m, skN, x, j, k, message, params.digitsG2, sampleA, sampleE);
  }

  lemma ApEntryIntro(ps: ParamSet, m: Matrix, skN: PrivateKey, x: nat, j: nat, k: nat, message: int, rows: nat,
                     sampleA: Sampler, sampleE: Sampler)
    requires Supported(ps) && message == SignedInt(ApProduct(ps, x, j, k)) && rows == 2 * DigitsG(ps)
    requires IsMatrix(m, rows, ps.N) && HoldsUnder(ps, m, skN.element, 1, Factor(ps) * message, sampleA, sampleE)
    requires var E := MessageExponent(ps, message);
             RowsMade(ps, m, skN.element, Place(E, ps.N), Sign(E, ps.N), sampleA, sampleE)
    ensures ApEntryMade(ps, m, skN, x, j, k, sampleA, sampleE)
  {
  }

  /** The entries of one coefficient for digit value j. */
  method ApValueKeys(params: RingGSWCryptoParams, skN: PrivateKey, x: nat, i: nat, j: nat, gswA: GswSamples,
                     gswE: GswSamples)
    returns (row: seq<Matrix>)
    requires params.Valid() && Supported(params.Set()) && params.variant.AP? && RingSecret(params.Set(), skN)
    requires SampleShapes(params.Set(), gswA, gswE)
    ensures ApDigitsMade(params.Set(), row, skN, x, i, j, DigitsR(params.Set()), gswA, gswE)
  {
    row := [];
    for k := 0 to |params.digitsR|
      invariant ApDigitsMade(params.Set(), row, skN, x, i, j, k, gswA, gswE)
    {
      var m := ApEntryKey(params, skN, x, j, k, gswA(i, j, k), gswE(i, j, k));
      ApDigitsOneMore(params.Set(), row, m, skN, x, i, j, k, k + 1, gswA, gswE);
      row := row + [m];
    }
  }

  lemma ApDigitsOneMore(ps: ParamSet, row: seq<Matrix>, m: Matrix, skN: PrivateKey, x: nat, i: nat, j: nat, k: nat,
                        k': nat, gswA: GswSamples, gswE: GswSamples)
    requires Supported(ps) && k' == k + 1 && ApDigitsMade(ps, row, skN, x, i, j, k, gswA, gswE)
    requires ApEntryMade(ps, m, skN, x, j, k, gswA(i, j, k), gswE(i, j, k))
    ensures ApDigitsMade(ps, row + [m], skN, x, i, j, k', gswA, gswE)
  {
  }

  /** The entries of one coefficient; nothing is stored for digit value 0. */
  method ApCoefficientKeys(params: RingGSWCryptoParams, skN: PrivateKey, x: nat, i: nat, gswA: GswSamples,
                           gswE: GswSamples)
    returns (rows: seq<seq<Matrix>>)
    requires params.Valid() && Supported(params.Set()) && params.variant.AP? && RingSecret(params.Set(), skN)
    requires SampleShapes(params.Set(), gswA, gswE)
    ensures ApValuesMade(params.Set(), rows, skN, x, i, params.baseR, gswA, gswE)
  {
    rows := [seq(|params.digitsR|, k => [])];
    for j := 1 to params.baseR
      invariant ApValuesMade(params.Set(), rows, skN, x, i, j, gswA, gswE)
    {
      var row := ApValueKeys(params, skN, x, i, j, gswA, gswE);
      rows := rows + [row];
    }
  }

  lemma ApOneMore(ps: ParamSet, bk: BTKey, rows: seq<seq<Matrix>>, sk: PrivateKey, skN: PrivateKey, i: nat, i': nat,
                  gswA: GswSamples, gswE: GswSamples)
    requires Supported(ps) && i < |sk.element| && i' == i + 1 && ApKeyMade(ps, bk, sk, skN, i, gswA, gswE)
    requires ApValuesMade(ps, rows, skN, sk.element[i], i, ps.baseR, gswA, gswE)
    ensures ApKeyMade(ps, bk + [rows], sk, skN, i', gswA, gswE)
  {
  }

  /** Keys for every coefficient, every digit value except 0 and every digit position. */
  method KeyGenAP(params: RingGSWCryptoParams, sk: PrivateKey, skN: PrivateKey,
                  gswA: GswSamples, gswE: GswSamples, ksA: (nat, nat, nat) -> seq<nat>, ksE: (nat, nat, nat) -> nat,
                  ghost beta: nat)
    returns (ek: EvalKey)
    requires params.Valid() && Supported(params.Set()) && params.variant.AP? && params.lwe.Q < WORD_SIZE
    requires RingSecret(params.Set(), skN) && |sk.element| == params.lwe.n && sk.modulus == params.lwe.q
    requires SampleShapes(params.Set(), gswA, gswE)
    requires forall i, j, k :: |ksA(i, j, k)| == params.lwe.n && ksE(i, j, k) < params.lwe.Q
    ensures ek.BSkey.Some? && ek.KSkey.Some?
    ensures FreshKey(params.Set(), ek.KSkey.value, sk, skN, params.lwe.N, ksA, ksE)
    ensures ApKeyMade(params.Set(), ek.BSkey.value, sk, skN, params.lwe.n, gswA, gswE)
    ensures SmallSamples(params.Set(), gswE, beta) && ApMessagesFit(params.Set(), sk) ==>
        IsBootKey(params.Set(), ek.BSkey.value, SignedKey(sk), SignedKey(skN), beta)
  {
    ghost var ps := params.Set();
    var K := KeySwitchGen(params.lwe, ps, sk, skN, ksA, ksE);
    var bk: BTKey := [];
    for i := 0 to params.lwe.n
      invariant ApKeyMade(ps, bk, sk, skN, i, gswA, gswE)
    {
      var rows := ApCoefficientKeys(params, skN, sk.element[i], i, gswA, gswE);
      ApOneMore(ps, bk, rows, sk, skN, i, i + 1, gswA, gswE);
      bk := bk + [rows];
    }
    if SmallSamples(ps, gswE, beta) && ApMessagesFit(ps, sk) {
      MadeApKey(ps, bk, sk, skN, gswA, gswE, beta);
    }
    ek := EvalKey(Some(bk), Some(K));
  }

  lemma {:induction false} MadeApRows(ps: ParamSet, bk: BTKey, sk: PrivateKey, skN: PrivateKey, gswA: GswSamples,
                                      gswE: GswSamples, beta: nat, rows: nat)
    requires Supported(ps) && RingSecret(ps, skN) && rows <= |sk.element| && sk.modulus == ps.q
    requires ApKeyMade(ps, bk, sk, skN, |sk.element|, gswA, gswE) && ApMessagesFit(ps, sk)
             && SmallSamples(ps, gswE, beta)
    ensures ApCells(ps, bk, rows) && ApEntries(ps, bk, SignedKey(sk), SignedKey(skN), beta, rows)
    decreases rows
  {
    if rows > 0 {
      MadeApRows(ps, bk, sk, skN, gswA, gswE, beta, rows - 1);
      var i := rows - 1;
      forall j, k | 1 <= j < ps.baseR && 0 <= k < DigitsR(ps)
        ensures KeyCell(ps, bk, i, j, k) && ApEntry(ps, bk, SignedKey(sk), SignedKey(skN), beta, i, j, k)
      {
        MadeApEntry(ps, bk, sk, skN, gswA, gswE, beta, i, j, k);
      }
    }
  }

  lemma MadeApEntry(ps: ParamSet, bk: BTKey, sk: PrivateKey, skN: PrivateKey, gswA: GswSamples,
                    gswE: GswSamples, beta: nat, i: nat, j: nat, k: nat)
    requires Supported(ps) && RingSecret(ps, skN) && sk.modulus == ps.q
    requires ApKeyMade(ps, bk, sk, skN, |sk.element|, gswA, gswE) && ApMessagesFit(ps, sk)
             && SmallSamples(ps, gswE, beta)
    requires i < |sk.element| && 1 <= j < ps.baseR && k < DigitsR(ps)
    ensures KeyCell(ps, bk, i, j, k) && ApEntry(ps, bk, SignedKey(sk), SignedKey(skN), beta, i, j, k)
  {
    assert ApValuesMade(ps, bk[i], skN, sk.element[i], i, ps.baseR, gswA, gswE);
    assert ApDigitsMade(ps, bk[i][j], skN, sk.element[i], i, j, DigitsR(ps), gswA, gswE);
    ApEntryRight(ps, bk[i][j][k], skN, sk.element[i], j, k, gswA(i, j, k), gswE(i, j, k));
    assert Signed(sk.element[i], ps.q) == SignedKey(sk)[i];
    MadeEncrypts(ps, bk[i][j][k], skN, 1, EntryExponent(ps, SignedKey(sk)[i], j, k), gswA(i, j, k), gswE(i, j, k),
                 beta);
  }

  lemma MadeApKey(ps: ParamSet, bk: BTKey, sk: PrivateKey, skN: PrivateKey, gswA: GswSamples, gswE: GswSamples,
                  beta: nat)
    requires Supported(ps) && ps.variant.AP? && RingSecret(ps, skN) && |sk.element| == ps.n && sk.modulus == ps.q
    requires ApKeyMade(ps, bk, sk, skN, |sk.element|, gswA, gswE) && ApMessagesFit(ps, sk)
             && SmallSamples(ps, gswE, beta)
    ensures IsBootKey(ps, bk, SignedKey(sk), SignedKey(skN), beta)
  {
    MadeApRows(ps, bk, sk, skN, gswA, gswE, beta, |sk.element|);
  }

  // ---------- GINX ----------

  /** The rows of m are made from their samples, with the gadget powers for bit 1 and without them for bit 0. */
  ghost predicate GinxEntryMade(ps: ParamSet, m: Matrix, skN: PrivateKey, bit: int, sampleA: Sampler,
                                sampleE: Sampler) {
    Made(ps, m, skN, bit, 0, sampleA, sampleE) && RowsMade(ps, m, skN.element, 0, bit, sampleA, sampleE)
  }

  /** Entry i holds the bit s_i == v and is made from the samples at (0, c, i). */
  ghost predicate GinxColumnMade(ps: ParamSet, column: seq<Matrix>, s: Poly, v: int, c: nat, skN: PrivateKey,
                                 count: nat, gswA: GswSamples, gswE: GswSamples)
    requires Supported(ps) && count <= |s|
  {
    |column| == count && forall i {:trigger column[i]} :: 0 <= i < count ==>
      GinxEntryMade(ps, column[i], skN, Bit(s[i] == v), gswA(0, c, i), gswE(0, c, i))
  }

  /** Entries (0, 0, i) and (0, 1, i) hold the bits s_i == 1 and s_i == -1, each made from its own samples. */
  ghost predicate GinxKeyMade(ps: ParamSet, plus: seq<Matrix>, minus: seq<Matrix>, s: Poly, skN: PrivateKey,
                              count: nat, gswA: GswSamples, gswE: GswSamples)
    requires Supported(ps) && count <= |s|
  {
    && GinxColumnMade(ps, plus, s, 1, 0, skN, count, gswA, gswE)
    && GinxColumnMade(ps, minus, s, -1, 1, skN, count, gswA, gswE)
  }

  ghost predicate IsGinxPair(ps: ParamSet, bk: BTKey, s: Poly, skN: PrivateKey, gswA: GswSamples, gswE: GswSamples)
    requires Supported(ps) && |s| == ps.n
  {
    |bk| == 1 && |bk[0]| == 2 && GinxKeyMade(ps, bk[0][0], bk[0][1], s, skN, ps.n, gswA, gswE)
  }

  method GinxEntryKey(params: RingGSWCryptoParams, skN: PrivateKey, bit: int, sampleA: Sampler, sampleE: Sampler)
    returns (m: Matrix)
    requires params.Valid() && Supported(params.Set()) && RingSecret(params.Set(), skN) && 0 <= bit <= 1
    requires Samples(sampleA, sampleE, params.digitsG2, params.lwe.N)
    ensures GinxEntryMade(params.Set(), m, skN, bit, sampleA, sampleE)
  {
    var ct := EncryptGINX(params, skN.element, bit, sampleA, sampleE);
    m := ct.elements;
    MadeBit(params.Set(), m, skN, bit, params.digitsG2, sampleA, sampleE);
  }

  lemma MadeBit(ps: ParamSet, m: Matrix, skN: PrivateKey, bit: int, rows: nat, sampleA: Sampler, sampleE: Sampler)
    requires Supported(ps) && rows == 2 * DigitsG(ps) && IsMatrix(m, rows, ps.N) && 0 <= bit <= 1
    requires HoldsUnder(ps, m, skN.element, Bit(bit > 0), 0, sampleA, sampleE)
    requires RowsMade(ps, m, skN.element, 0, Bit(bit > 0), sampleA, sampleE)
    ensures GinxEntryMade(ps, m, skN, bit, sampleA, sampleE)
  {
  }

  /** The encryptions of s == 1 and of s == -1. */
  method GinxEntryKeys(params: RingGSWCryptoParams, skN: PrivateKey, s: int, i: nat, gswA: GswSamples,
                       gswE: GswSamples)
    returns (m1: Matrix, m2: Matrix)
    requires params.Valid() && Supported(params.Set()) && RingSecret(params.Set(), skN)
    requires SampleShapes(params.Set(), gswA, gswE)
    ensures GinxEntryMade(params.Set(), m1, skN, Bit(s == 1), gswA(0, 0, i), gswE(0, 0, i))
    ensures GinxEntryMade(params.Set(), m2, skN, Bit(s == -1), gswA(0, 1, i), gswE(0, 1, i))
  {
    m1 := GinxEntryKey(params, skN, if s == 1 then 1 else 0, gswA(0, 0, i), gswE(0, 0, i));
    m2 := GinxEntryKey(params, skN, if s == -1 then 1 else 0, gswA(0, 1, i), gswE(0, 1, i));
  }

  lemma GinxColumnMore(ps: ParamSet, column: seq<Matrix>, m: Matrix, s: Poly, v: int, c: nat, skN: PrivateKey,
                       count: nat, count': nat, gswA: GswSamples, gswE: GswSamples)
    requires Supported(ps) && count < |s| && count' == count + 1
    requires GinxColumnMade(ps, column, s, v, c, skN, count, gswA, gswE)
    requires GinxEntryMade(ps, m, skN, Bit(s[count] == v), gswA(0, c, count), gswE(0, c, count))
    ensures GinxColumnMade(ps, column + [m], s, v, c, skN, count', gswA, gswE)
  {
  }

  lemma GinxOneMore(ps: ParamSet, plus: seq<Matrix>, minus: seq<Matrix>, m1: Matrix, m2: Matrix, s: Poly,
                    skN: PrivateKey, count: nat, count': nat, gswA: GswSamples, gswE: GswSamples)
    requires Supported(ps) && count < |s| && count' == count + 1
    requires GinxKeyMade(ps, plus, minus, s, skN, count, gswA, gswE)
    requires GinxEntryMade(ps, m1, skN, Bit(s[count] == 1), gswA(0, 0, count), gswE(0, 0, count))
    requires GinxEntryMade(ps, m2, skN, Bit(s[count] == -1), gswA(0, 1, count), gswE(0, 1, count))
    ensures GinxKeyMade(ps, plus + [m1], minus + [m2], s, skN, count', gswA, gswE)
  {
    GinxColumnMore(ps, plus, m1, s, 1, 0, skN, count, count', gswA, gswE);
    GinxColumnMore(ps, minus, m2, s, -1, 1, skN, count, count', gswA, gswE);
  }

  const NOT_TERNARY := "ERROR: only ternary secret key distributions are supported."

  /** Two encryptions for every coefficient; a coefficient outside -1, 0, 1 is an error. */
  method KeyGenGINX(params: RingGSWCryptoParams, sk: PrivateKey, skN: PrivateKey,
                    gswA: GswSamples, gswE: GswSamples, ksA: (nat, nat, nat) -> seq<nat>, ksE: (nat, nat, nat) -> nat,
                    ghost beta: nat)
    returns (r: Result<EvalKey>)
    requires params.Valid() && Supported(params.Set()) && params.variant.GINX? && params.lwe.Q < WORD_SIZE
    requires RingSecret(params.Set(), skN) && |sk.element| == params.lwe.n && sk.modulus == params.lwe.q
    requires SampleShapes(params.Set(), gswA, gswE)
    requires forall i, j, k :: |ksA(i, j, k)| == params.lwe.n && ksE(i, j, k) < params.lwe.Q
    ensures r.Success? <==> Bounded(SignedKey(sk), 1)
    ensures r.Failure? ==> r.error == NOT_TERNARY
    ensures r.Success? ==> r.value.BSkey.Some? && r.value.KSkey.Some?
    ensures r.Success? ==> FreshKey(params.Set(), r.value.KSkey.value, sk, skN, params.lwe.N, ksA, ksE)
    ensures r.Success? ==> IsGinxPair(params.Set(), r.value.BSkey.value, SignedKey(sk), skN, gswA, gswE)
    ensures r.Success? && SmallSamples(params.Set(), gswE, beta) ==>
        IsBootKey(params.Set(), r.value.BSkey.value, SignedKey(sk), SignedKey(skN), beta)
  {
    ghost var ps, ss := params.Set(), SignedKey(sk);
    var K := KeySwitchGen(params.lwe, ps, sk, skN, ksA, ksE);
    var plus: seq<Matrix>, minus: seq<Matrix> := [], [];
    for i := 0 to params.lwe.n
      invariant GinxKeyMade(ps, plus, minus, ss, skN, i, gswA, gswE)
      invariant forall l {:trigger ss[l]} :: 0 <= l < i ==> -1 <= ss[l] <= 1
    {
      var s: int := sk.element[i];
      if s > params.lwe.q / 2 {
        s := s - params.lwe.q;
      }
      assert s == ss[i];
      if s < -1 || s > 1 {
        return Failure(NOT_TERNARY);
      }
      var m1, m2 := GinxEntryKeys(params, skN, s, i, gswA, gswE);
      GinxOneMore(ps, plus, minus, m1, m2, ss, skN, i, i + 1, gswA, gswE);
      plus, minus := plus + [m1], minus + [m2];
    }
    if SmallSamples(ps, gswE, beta) {
      MadeGinxKey(ps, plus, minus, ss, skN, ps.n, gswA, gswE, beta);
    }
    r := Success(EvalKey(Some([[plus, minus]]), Some(K)));
  }

  lemma {:induction false} MadeGinxEntries(ps: ParamSet, plus: seq<Matrix>, minus: seq<Matrix>, s: Poly,
                                           skN: PrivateKey, count: nat, gswA: GswSamples, gswE: GswSamples,
                                           beta: nat, entries: nat)
    requires Supported(ps) && RingSecret(ps, skN) && entries <= count <= |s| && SmallSamples(ps, gswE, beta)
             && GinxKeyMade(ps, plus, minus, s, skN, count, gswA, gswE)
    ensures GinxCells(ps, [[plus, minus]], entries)
            && GinxEntries(ps, [[plus, minus]], s, SignedKey(skN), beta, entries)
    decreases entries
  {
    if entries > 0 {
      var i := entries - 1;
      MadeGinxEntries(ps, plus, minus, s, skN, count, gswA, gswE, beta, i);
      MadeEncrypts(ps, plus[i], skN, Bit(s[i] == 1), 0, gswA(0, 0, i), gswE(0, 0, i), beta);
      MadeEncrypts(ps, minus[i], skN, Bit(s[i] == -1), 0, gswA(0, 1, i), gswE(0, 1, i), beta);
    }
  }

  lemma MadeGinxKey(ps: ParamSet, plus: seq<Matrix>, minus: seq<Matrix>, s: Poly, skN: PrivateKey, count: nat,
                    gswA: GswSamples, gswE: GswSamples, beta: nat)
    requires Supported(ps) && ps.variant.GINX? && RingSecret(ps, skN) && count == ps.n == |s| && Bounded(s, 1)
    requires GinxKeyMade(ps, plus, minus, s, skN, count, gswA, gswE) && SmallSamples(ps, gswE, beta)
    ensures IsBootKey(ps, [[plus, minus]], s, SignedKey(skN), beta)
  {
    MadeGinxEntries(ps, plus, minus, s, skN, count, gswA, gswE, beta, count);
  }

  // ---------- generated keys ----------

  /** Keys generated for ternary secrets satisfy everything that the correctness of gates and circuits assumes. */
  lemma GeneratedKeysWork(ps: ParamSet, ek: EvalKey, sk: PrivateKey, skN: PrivateKey, betaB: nat, betaK: nat,
                          betaOut: nat,
                          ksA: (nat, nat, nat) -> seq<nat>, ksE: (nat, nat, nat) -> nat)
    requires Supported(ps) && RingSecret(ps, skN) && |sk.element| == ps.n && Bounded(SignedKey(sk), 1)
    requires ek.BSkey.Some? && ek.KSkey.Some? && IsBootKey(ps, ek.BSkey.value, SignedKey(sk), SignedKey(skN), betaB)
    requires FreshKey(ps, ek.KSkey.value, sk, skN, ps.N, ksA, ksE) && KeyWordsFit(ps)
    requires forall i, j, k :: Dist(ksE(i, j, k), ps.Q) <= betaK
    requires OutputFits(ps, betaB, betaK, betaOut)
    ensures Works(World(ps, ek.BSkey.value, ek.KSkey.value, SignedKey(sk), SignedKey(skN), betaB, betaK, betaOut))
  {
    FreshKeySwitches(ps, ek.KSkey.value, sk, skN, betaK, ksA, ksE);
    BootKeyFits(ps, ek.BSkey.value, SignedKey(sk), SignedKey(skN), betaB);
  }
}
