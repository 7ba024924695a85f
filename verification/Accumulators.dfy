/**
 The accumulator operations: signed digit decomposition of a ring ciphertext into a vector
 of polynomials, and the AP and GINX updates of an accumulator in place.
 */
module Accumulators {
  import opened Arith
  import opened Poly
  import opened Negacyclic
  import opened Decompose
  import opened Params
  import opened Rgsw
  import opened BlindRotate

  /** A matrix of polynomials; accumulators are matrices with one row. */
  class RingGSWCiphertext {
    var elements: Matrix

    constructor (elements: Matrix)
      ensures this.elements == elements
    {
      this.elements := elements;
    }
  }

  /** Parameters in use: the tables are filled and the gadget base fits a word. */
  ghost predicate Ready(params: RingGSWCryptoParams)
    reads params, params.lwe
  {
    // A match in place of selectors keeps the definition folded in proofs.
    match params.Set()
    case ParamSet(_, _, _, _, _, baseG, _, _) => params.Valid() && Supported(params.Set()) && Log2(baseG) <= 64
  }

  /** The vector of polynomials that the decomposition writes to. */
  class PolyVector {
    var polys: seq<Poly>

    constructor Zero(rows: nat, n: nat)
      ensures polys == ZeroRows(rows, n)
    {
      polys := ZeroRows(rows, n);
    }
  }

  function ZeroRows(rows: nat, n: nat): (r: seq<Poly>)
    ensures |r| == rows && forall l {:trigger r[l]} :: 0 <= l < rows ==> r[l] == Zero(n)
  {
    seq(rows, l => Zero(n))
  }

  /** A negative digit is stored modulo Q. */
  function Stored(r: int, Q: nat): int {
    if r >= 0 then r else r + Q
  }

  /** What the decomposition adds to the coefficient k of row l. */
  function DigitEntry(input: seq<Poly>, base: nat, Q: nat, l: nat, k: nat): int
    requires |input| == 2 && k < |input[l % 2]| && base > 0
  {
    Stored(DigitAt(Centred(input[l % 2][k], Q), base, l / 2), Q)
  }

  ghost predicate Rectangular(polys: seq<Poly>, rows: nat, n: nat) {
    |polys| == rows && forall l {:trigger polys[l]} :: 0 <= l < rows ==> |polys[l]| == n
  }

  /** One coefficient t of component j, digit by digit, with the shifts of a 64-bit word. */
  method DecomposeCoefficient(params: RingGSWCryptoParams, t: int, j: nat, k: nat, output: PolyVector)
    requires params.Valid() && j < 2 && k < params.lwe.N && Rectangular(output.polys, params.digitsG2, params.lwe.N)
    requires Log2(params.baseG) <= 64
    modifies output
    ensures Rectangular(output.polys, params.digitsG2, params.lwe.N)
    ensures forall l, c {:trigger output.polys[l][c]} :: 0 <= l < params.digitsG2 && 0 <= c < params.lwe.N ==>
        output.polys[l][c] == old(output.polys)[l][c] +
          (if l % 2 == j && c == k then Stored(DigitAt(Centred(t, params.lwe.Q), params.baseG, l / 2), params.lwe.Q)
              else 0)
  {
    var gBits := Log2(params.baseG);
    Log2Exact(params.baseG);
    var d := if t < params.lwe.Q / 2 then t else t - params.lwe.Q;
    for l := 0 to params.digitsG
      invariant Rectangular(output.polys, params.digitsG2, params.lwe.N)
      invariant d == Carry(Centred(t, params.lwe.Q), params.baseG, l)
      invariant forall l', c {:trigger output.polys[l'][c]} :: 0 <= l' < params.digitsG2 && 0 <= c < params.lwe.N ==>
          output.polys[l'][c] == old(output.polys)[l'][c] +
            (if l' % 2 == j && l' / 2 < l && c == k then
               Stored(DigitAt(Centred(t, params.lwe.Q), params.baseG, l' / 2), params.lwe.Q) else 0)
    {
      var r;
      RowsOf(j, l);
      r, d := TakeDigit(d, gBits, Centred(t, params.lwe.Q), params.baseG, l);
      AddEntry(output, j + 2 * l, k, Stored(r, params.lwe.Q), params.digitsG2, params.lwe.N);
    }
  }

  /** Digit l of component j belongs to one row. */
  lemma RowsOf(j: nat, l: nat)
    requires j < 2
    ensures (j + 2 * l) % 2 == j && (j + 2 * l) / 2 == l
    ensures forall i: nat {:trigger i / 2} :: i % 2 == j && i / 2 == l ==> i == j + 2 * l
  {
  }

  /** The two shifts that take the lowest digit off, and the two updates that move on. */
  method TakeDigit(d: int, gBits: nat, ghost d0: int, ghost base: nat, ghost l: nat) returns (r: int, d': int)
    requires 1 <= gBits <= 64 && base == Pow2(gBits) && d == Carry(d0, base, l)
    ensures r == DigitAt(d0, base, l) && d' == Carry(d0, base, l + 1)
  {
    r := ShiftRight(ShiftLeft(d, 64 - gBits, 64), 64 - gBits);
    ShiftsTakeDigit(d, gBits, 64);
    CarrySnoc(d0, base, l);
    d' := ShiftRight(d - r, gBits);
  }

  /** output[row][k] += v */
  method AddEntry(output: PolyVector, row: nat, k: nat, v: int, ghost rows: nat, ghost n: nat)
    requires Rectangular(output.polys, rows, n) && row < rows && k < n
    modifies output
    ensures Rectangular(output.polys, rows, n)
    ensures forall l, c {:trigger output.polys[l][c]} :: 0 <= l < rows && 0 <= c < n ==>
        output.polys[l][c] == old(output.polys)[l][c] + (if l == row && c == k then v else 0)
  {
    output.polys := output.polys[row := output.polys[row][k := output.polys[row][k] + v]];
  }

  /** Both components, coefficient by coefficient; digit l of component j is added to row j + 2l. */
  method SignedDigitDecompose(params: RingGSWCryptoParams, input: seq<Poly>, output: PolyVector)
    requires params.Valid() && IsPair(input, params.lwe.N) && Rectangular(output.polys, params.digitsG2, params.lwe.N)
    requires Log2(params.baseG) <= 64
    modifies output
    ensures Rectangular(output.polys, params.digitsG2, params.lwe.N)
    ensures forall l, c {:trigger output.polys[l][c]} :: 0 <= l < params.digitsG2 && 0 <= c < params.lwe.N ==>
        output.polys[l][c] == old(output.polys)[l][c] + DigitEntry(input, params.baseG, params.lwe.Q, l, c)
  {
    for j := 0 to 2
      invariant Rectangular(output.polys, params.digitsG2, params.lwe.N)
      invariant forall l, c {:trigger output.polys[l][c]} :: 0 <= l < params.digitsG2 && 0 <= c < params.lwe.N ==>
          output.polys[l][c] == old(output.polys)[l][c] +
            (if l % 2 < j then DigitEntry(input, params.baseG, params.lwe.Q, l, c) else 0)
    {
      DecomposeComponent(params, input, j, output);
    }
  }

  /** One component, coefficient by coefficient. */
  method DecomposeComponent(params: RingGSWCryptoParams, input: seq<Poly>, j: nat, output: PolyVector)
    requires params.Valid() && IsPair(input, params.lwe.N) && Rectangular(output.polys, params.digitsG2, params.lwe.N)
    requires Log2(params.baseG) <= 64 && j < 2
    modifies output
    ensures Rectangular(output.polys, params.digitsG2, params.lwe.N)
    ensures forall l, c {:trigger output.polys[l][c]} :: 0 <= l < params.digitsG2 && 0 <= c < params.lwe.N ==>
        output.polys[l][c] == old(output.polys)[l][c] +
          (if l % 2 == j then DigitEntry(input, params.baseG, params.lwe.Q, l, c) else 0)
  {
    for k := 0 to params.lwe.N
      invariant Rectangular(output.polys, params.digitsG2, params.lwe.N)
      invariant forall l, c {:trigger output.polys[l][c]} :: 0 <= l < params.digitsG2 && 0 <= c < params.lwe.N ==>
          output.polys[l][c] == old(output.polys)[l][c] +
            (if l % 2 == j && c < k then DigitEntry(input, params.baseG, params.lwe.Q, l, c) else 0)
    {
      DecomposeCoefficient(params, input[j][k], j, k, output);
    }
  }

  // ---------- products modulo Q ----------

  /** x + p * r in Z_Q[X]/(X^N + 1). */
  function MulAdd(x: Poly, p: Poly, r: Poly, Q: nat): (t: Poly)
    requires Q > 0 && |x| == |p| == |r|
    ensures |t| == |x| && Reduced(t, Q)
  {
    Reduce(Add(x, Reduce(Times(p, r), Q)), Q)
  }

  lemma MulAddEqv(x: Poly, x': Poly, p: Poly, p': Poly, r: Poly, Q: nat)
    requires Q > 0 && |x| == |x'| == |p| == |p'| == |r| && Eqv(x, x', Q) && Eqv(p, p', Q)
    ensures Eqv(MulAdd(x, p, r, Q), Add(x', Times(p', r)), Q)
  {
    EqvIntro(r, r, Q);
    EqvMul(-1, -1, p, p', r, r, Q);
    ReduceEqv(Times(p, r), Q);
    EqvAdd(x, x', Reduce(Times(p, r), Q), Times(p', r), Q);
    ReduceEqv(Add(x, Reduce(Times(p, r), Q)), Q);
  }

  lemma ReducedIs(x: Poly, y: Poly, Q: nat)
    requires Q > 0 && Reduced(x, Q) && Eqv(x, y, Q)
    ensures x == Reduce(y, Q)
  {
    var r := Reduce(y, Q);
    EqvElim(x, y, Q);
    forall i | 0 <= i < |x|
      ensures x[i] == r[i]
    {
      assert Cong(x[i], y[i], Q);
      ModIntro(x[i], 0, x[i], Q);
    }
  }

  /** The decomposition of ct, up to multiples of Q. */
  ghost predicate IsDecomposed(dct: seq<Poly>, ct: seq<Poly>, base: nat, digits: nat, Q: nat)
    requires |ct| == 2 && base > 0 && Q > 0
  {
    && |dct| == 2 * digits && |ct[0]| == |ct[1]| && Rectangular(dct, |dct|, |ct[0]|)
    && forall l {:trigger dct[l]} :: 0 <= l < |dct| ==> Eqv(dct[l], AllDigits(ct, base, digits, Q)[l], Q)
  }

  lemma DecomposedAt(dct: seq<Poly>, ct: seq<Poly>, base: nat, digits: nat, Q: nat, l: nat)
    requires |ct| == 2 && base > 0 && Q > 0 && IsDecomposed(dct, ct, base, digits, Q) && l < 2 * digits
    ensures |dct[l]| == |ct[0]| && Eqv(dct[l], AllDigits(ct, base, digits, Q)[l], Q)
  {
  }

  lemma DecomposedFromZero(dct: seq<Poly>, ct: seq<Poly>, base: nat, digits: nat, Q: nat)
    requires |ct| == 2 && base > 0 && Q > 0 && |ct[0]| == |ct[1]| && Rectangular(dct, 2 * digits, |ct[0]|)
    requires forall l, c {:trigger dct[l][c]} :: 0 <= l < 2 * digits && 0 <= c < |ct[0]| ==>
        dct[l][c] == DigitEntry(ct, base, Q, l, c)
    ensures IsDecomposed(dct, ct, base, digits, Q)
  {
    var d := AllDigits(ct, base, digits, Q);
    forall l {:trigger dct[l]} | 0 <= l < |dct|
      ensures Eqv(dct[l], d[l], Q)
    {
      forall c | 0 <= c < |dct[l]|
        ensures Cong(dct[l][c], d[l][c], Q)
      {
        var r := DigitAt(Centred(ct[l % 2][c], Q), base, l / 2);
        assert d[l][c] == r && dct[l][c] == Stored(r, Q);
        CongFrom(Stored(r, Q), r, if r >= 0 then 0 else 1, Q);
      }
      EqvIntro(dct[l], d[l], Q);
    }
  }

  method Decomposed(params: RingGSWCryptoParams, ct: seq<Poly>) returns (dct: seq<Poly>)
    requires params.Valid() && IsPair(ct, params.lwe.N) && Log2(params.baseG) <= 64
    ensures IsDecomposed(dct, ct, params.baseG, params.digitsG, params.lwe.Q)
  {
    var v := new PolyVector.Zero(params.digitsG2, params.lwe.N);
    SignedDigitDecompose(params, ct, v);
    dct := v.polys;
    DecomposedFromZero(dct, ct, params.baseG, params.digitsG, params.lwe.Q);
  }

  lemma CellLength(m: Matrix, rows: nat, n: nat, l: nat, j: nat)
    requires IsMatrix(m, rows, n) && l < rows && j < 2
    ensures |m[l]| == 2 && |m[l][j]| == n
  {
  }

  lemma ColumnNext(dct: seq<Poly>, input: Matrix, j: nat, ct: seq<Poly>, base: nat, digits: nat, Q: nat, l: nat,
                   l': nat, x: Poly)
    requires |ct| == 2 && base > 0 && Q > 0 && IsDecomposed(dct, ct, base, digits, Q)
    requires IsMatrix(input, 2 * digits, |ct[0]|) && j < 2 && l < 2 * digits && l' == l + 1 && |x| == |ct[0]|
    requires Eqv(x, Dot(AllDigits(ct, base, digits, Q), input, j, l, |ct[0]|), Q)
    ensures Eqv(MulAdd(x, dct[l], input[l][j], Q), Dot(AllDigits(ct, base, digits, Q), input, j, l', |ct[0]|), Q)
  {
    AllDigitsLength(ct, base, digits, Q, l);
    DecomposedAt(dct, ct, base, digits, Q, l);
    CellLength(input, 2 * digits, |ct[0]|, l, j);
    DotNext(AllDigits(ct, base, digits, Q), input, j, l, l', |ct[0]|);
    MulAddEqv(x, Dot(AllDigits(ct, base, digits, Q), input, j, l, |ct[0]|), dct[l], AllDigits(ct, base, digits, Q)[l],
              input[l][j], Q);
  }

  /** x is column j of the product with the first l rows, reduced modulo Q. */
  ghost predicate PartialColumn(x: Poly, input: Matrix, j: nat, ct: seq<Poly>, base: nat, digits: nat, Q: nat, l: nat)
    requires |ct| == 2 && base > 0 && Q > 0 && IsMatrix(input, 2 * digits, |ct[0]|) && j < 2 && l <= 2 * digits
  {
    |x| == |ct[0]| && Reduced(x, Q) && Eqv(x, Dot(AllDigits(ct, base, digits, Q), input, j, l, |ct[0]|), Q)
  }

  method AddProduct(x: Poly, dct: seq<Poly>, input: Matrix, j: nat, ghost ct: seq<Poly>, ghost base: nat,
                    ghost digits: nat, Q: nat, l: nat)
    returns (x': Poly, l': nat)
    requires |ct| == 2 && base > 0 && Q > 0 && IsDecomposed(dct, ct, base, digits, Q)
    requires IsMatrix(input, 2 * digits, |ct[0]|) && j < 2 && l < 2 * digits
    requires PartialColumn(x, input, j, ct, base, digits, Q, l)
    ensures l' == l + 1 && PartialColumn(x', input, j, ct, base, digits, Q, l')
  {
    l' := l + 1;
    ColumnNext(dct, input, j, ct, base, digits, Q, l, l', x);
    x' := MulAdd(x, dct[l], input[l][j], Q);
  }

  /** Column j of the product, starting from the zero polynomial. */
  method AddColumn(dct: seq<Poly>, input: Matrix, j: nat, ghost ct: seq<Poly>, ghost base: nat, digits: nat, Q: nat)
    returns (x: Poly)
    requires |ct| == 2 && base > 0 && Q > 0 && IsDecomposed(dct, ct, base, digits, Q) && dct != []
    requires IsMatrix(input, 2 * digits, |ct[0]|) && j < 2
    ensures x == ExternalProduct(ct, input, base, digits, Q)[j]
  {
    x := Zero(|dct[0]|);
    var l := 0;
    EqvIntro(x, x, Q);
    while l < 2 * digits
      invariant l <= 2 * digits && PartialColumn(x, input, j, ct, base, digits, Q, l)
    {
      x, l := AddProduct(x, dct, input, j, ct, base, digits, Q, l);
    }
    ColumnDone(x, input, j, ct, base, digits, Q, l);
  }

  lemma ColumnDone(x: Poly, input: Matrix, j: nat, ct: seq<Poly>, base: nat, digits: nat, Q: nat, l: nat)
    requires |ct| == 2 && |ct[0]| == |ct[1]| && base > 0 && Q > 0 && IsMatrix(input, 2 * digits, |ct[0]|) && j < 2
             && l == 2 * digits
    requires PartialColumn(x, input, j, ct, base, digits, Q, l)
    ensures x == ExternalProduct(ct, input, base, digits, Q)[j]
  {
    ReducedIs(x, Dot(AllDigits(ct, base, digits, Q), input, j, 2 * digits, |ct[0]|), Q);
  }

  /** The same column, starting from the first product. */
  method ProductColumn(dct: seq<Poly>, input: Matrix, j: nat, ghost ct: seq<Poly>, ghost base: nat, digits: nat,
                       Q: nat) returns (x: Poly)
    requires |ct| == 2 && base > 0 && Q > 0 && IsDecomposed(dct, ct, base, digits, Q)
    requires IsMatrix(input, 2 * digits, |ct[0]|) && j < 2 && digits >= 1
    ensures x == ExternalProduct(ct, input, base, digits, Q)[j]
  {
    x := Reduce(Times(dct[0], input[0][j]), Q);
    var l := 1;
    FirstColumn(x, dct, input, j, ct, base, digits, Q, l);
    while l < 2 * digits
      invariant l <= 2 * digits && PartialColumn(x, input, j, ct, base, digits, Q, l)
    {
      x, l := AddProduct(x, dct, input, j, ct, base, digits, Q, l);
    }
    ColumnDone(x, input, j, ct, base, digits, Q, l);
  }

  lemma FirstColumn(x: Poly, dct: seq<Poly>, input: Matrix, j: nat, ct: seq<Poly>, base: nat, digits: nat, Q: nat,
                    l: nat)
    requires |ct| == 2 && base > 0 && Q > 0 && IsDecomposed(dct, ct, base, digits, Q)
    requires IsMatrix(input, 2 * digits, |ct[0]|) && j < 2 && digits >= 1 && l == 1
             && x == Reduce(Times(dct[0], input[0][j]), Q)
    ensures PartialColumn(x, input, j, ct, base, digits, Q, l)
  {
    FirstProduct(x, dct[0], AllDigits(ct, base, digits, Q)[0], input[0][j], Q);
  }

  lemma FirstProduct(x: Poly, p: Poly, p': Poly, r: Poly, Q: nat)
    requires Q > 0 && |p| == |p'| == |r| && Eqv(p, p', Q) && x == Reduce(Times(p, r), Q)
    ensures Reduced(x, Q) && Eqv(x, Add(Zero(|r|), Times(p', r)), Q)
  {
    EqvIntro(r, r, Q);
    EqvMul(-1, -1, p, p', r, r, Q);
    ReduceEqv(Times(p, r), Q);
    AddZero(Times(p', r));
  }

  // ---------- the accumulator updates ----------

  /** acc := decomposition of acc times input. */
  method AddToACCAP(params: RingGSWCryptoParams, input: Matrix, acc: RingGSWCiphertext)
    requires Ready(params)
    requires IsMatrix(input, params.digitsG2, params.lwe.N) && |acc.elements| == 1
             && IsAcc(params.Set(), acc.elements[0])
    modifies acc
    ensures acc.elements == [Product(params.Set(), old(acc.elements[0]), input)]
  {
    var ct := acc.elements[0];
    var dct := Decomposed(params, ct);
    ghost var r := Product(params.Set(), ct, input);
    SupportedGadget(params.Set());
    for j := 0 to 2
      invariant |acc.elements| == 1 && |acc.elements[0]| == 2
      invariant forall i {:trigger acc.elements[0][i]} :: 0 <= i < j ==> acc.elements[0][i] == r[i]
    {
      var x := AddColumn(dct, input, j, ct, params.baseG, params.digitsG, params.lwe.Q);
      acc.elements := [acc.elements[0][j := x]];
    }
    assert acc.elements[0] == r;
  }

  /** The ternary MUX: acc + (dct * input1) * (X^index - 1) + (dct * input2) * (X^-index - 1). */
  method AddToACCGINX(params: RingGSWCryptoParams, input1: Matrix, input2: Matrix, a: nat, acc: RingGSWCiphertext)
    requires Ready(params) && params.variant.GINX?
    requires IsMatrix(input1, params.digitsG2, params.lwe.N) && IsMatrix(input2, params.digitsG2, params.lwe.N)
    requires a < params.lwe.q && |acc.elements| == 1 && IsAcc(params.Set(), acc.elements[0])
    modifies acc
    ensures acc.elements == [GinxStep(params.Set(), old(acc.elements[0]), input1, input2, a)]
  {
    var ct := acc.elements[0];
    var dct := Decomposed(params, ct);
    var monomial := SelectMonomial(params, a);
    var aNeg := NegatePhase(params, a);
    var monomialNeg := SelectMonomial(params, aNeg);
    AddTerm(params, dct, input1, monomial, ct, acc);
    AddTerm(params, dct, input2, monomialNeg, ct, acc);
    GinxStepIs(params.Set(), ct, input1, input2, a, aNeg, monomial, monomialNeg);
  }

  lemma GinxStepIs(ps: ParamSet, acc: seq<Poly>, m1: Matrix, m2: Matrix, a: nat, aNeg: nat, mono: Poly, monoNeg: Poly)
    requires Supported(ps) && IsAcc(ps, acc) && aNeg == Opposite(ps, a)
    requires IsMatrix(m1, 2 * DigitsG(ps), ps.N) && IsMatrix(m2, 2 * DigitsG(ps), ps.N)
    requires mono == MonomialMinusOne(ps.N, Index(ps, a), ps.Q)
    requires monoNeg == MonomialMinusOne(ps.N, Index(ps, aNeg), ps.Q)
    ensures GinxStep(ps, acc, m1, m2, a)
         == AddRotated(AddRotated(acc, Product(ps, acc, m1), mono, ps.Q), Product(ps, acc, m2), monoNeg, ps.Q)
  {
  }

  method NegatePhase(params: RingGSWCryptoParams, a: nat) returns (aNeg: nat)
    requires Supported(params.Set()) && a < params.lwe.q
    ensures aNeg == Opposite(params.Set(), a) && aNeg < params.lwe.q
  {
    aNeg := (params.lwe.q - a) % params.lwe.q;
  }

  /** The table entry for the phase a; a full turn counts as none. */
  method SelectMonomial(params: RingGSWCryptoParams, a: nat) returns (monomial: Poly)
    requires params.Valid() && Supported(params.Set()) && params.variant.GINX? && a < params.lwe.q
    ensures monomial == MonomialMinusOne(params.Set().N, Index(params.Set(), a), params.Set().Q)
  {
    var m := 2 * params.lwe.N;
    var index := a * (m / params.lwe.q);
    IndexInTable(params.Set(), a, index);
    if index == m {
      index := 0;
    }
    monomial := params.monomials[index];
  }

  lemma IndexInTable(ps: ParamSet, a: nat, i: nat)
    requires Supported(ps) && a < ps.q && i == a * (2 * ps.N / ps.q)
    ensures i < 2 * ps.N && i == Index(ps, a)
  {
    FactorTimes(ps);
    QuotientIs(2 * ps.N, ps.q);
    MultipleIs(a, Factor(ps));
    ProductBelow(a, ps.q, Factor(ps), i, 2 * ps.N);
  }

  lemma ProductBelow(a: nat, q: nat, f: nat, i: nat, M: nat)
    requires a < q && f > 0 && i == a * f && f * q == M
    ensures i < M
  {
    MulCancel(a, q, f);
  }

  /** acc + (dct * input) * monomial, one component after the other. */
  method AddTerm(params: RingGSWCryptoParams, dct: seq<Poly>, input: Matrix, monomial: Poly, ct: seq<Poly>,
                 acc: RingGSWCiphertext)
    requires params.Valid() && Supported(params.Set()) && IsAcc(params.Set(), ct) && |monomial| == params.lwe.N
    requires IsDecomposed(dct, ct, params.baseG, params.digitsG, params.lwe.Q)
    requires IsMatrix(input, params.digitsG2, params.lwe.N) && |acc.elements| == 1
             && IsAcc(params.Set(), acc.elements[0])
    modifies acc
    ensures acc.elements == [AddRotated(old(acc.elements[0]), Product(params.Set(), ct, input), monomial, params.lwe.Q)]
    ensures IsAcc(params.Set(), acc.elements[0])
  {
    var Q := params.lwe.Q;
    ghost var r := AddRotated(acc.elements[0], Product(params.Set(), ct, input), monomial, Q);
    ghost var was := acc.elements[0];
    SupportedGadget(params.Set());
    for j := 0 to 2
      invariant |acc.elements| == 1 && |acc.elements[0]| == 2
      invariant forall i {:trigger acc.elements[0][i]} :: 0 <= i < 2 ==>
          acc.elements[0][i] == if i < j then r[i] else was[i]
    {
      var temp := ProductColumn(dct, input, j, ct, params.baseG, params.digitsG, Q);
      acc.elements := [acc.elements[0][j := Reduce(Add(acc.elements[0][j], Times(temp, monomial)), Q)]];
    }
    assert acc.elements[0] == r;
  }
}
