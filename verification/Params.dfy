/**
 Parameters of the two schemes and the tables that the constructors precompute: powers of
 the bases, the gate constants and the polynomials X^m - 1. Logarithms are exact here:
 the number of digits is the least one that covers the modulus.
 */
module Params {
  import opened Arith
  import opened Poly
  import opened Negacyclic

  datatype Result<+T> = Success(value: T) | Failure(error: string)

  datatype Option<+T> = None | Some(value: T)

  datatype Method = AP | GINX

  datatype Gate = OR | AND | NOR | NAND | XOR_FAST | XNOR_FAST | XOR | XNOR

  datatype ParamSet = ParamSet(
    n: nat, N: nat, q: nat, Q: nat, baseKS: nat, baseG: nat, baseR: nat, variant: Method)

  /** base^0, base^1, ... */
  function Powers(base: nat, count: nat): (r: seq<nat>)
    ensures |r| == count && forall i {:trigger r[i]} :: 0 <= i < count ==> r[i] == Pow(base, i)
  {
    seq(count, i requires 0 <= i < count => Pow(base, i))
  }

  /** The first number of digits, from l on, that covers the modulus. */
  function DigitCountFrom(base: nat, modulus: nat, l: nat): nat
    requires base >= 2
    decreases modulus - l
  {
    PowGrows(base, l);
    if modulus <= Pow(base, l) then l else DigitCountFrom(base, modulus, l + 1)
  }

  function DigitCount(base: nat, modulus: nat): nat
    requires base >= 2
  {
    DigitCountFrom(base, modulus, 0)
  }

  lemma {:induction false} DigitCountFromLeast(base: nat, modulus: nat, l: nat)
    requires base >= 2
    requires l > 0 ==> Pow(base, l - 1) < modulus
    ensures var r := DigitCountFrom(base, modulus, l);
            modulus <= Pow(base, r) && (r > 0 ==> Pow(base, r - 1) < modulus)
    decreases modulus - l
  {
    PowGrows(base, l);
    if modulus > Pow(base, l) {
      DigitCountFromLeast(base, modulus, l + 1);
    }
  }

  /** DigitCount is the exact ceiling of the logarithm. */
  lemma DigitCountLeast(base: nat, modulus: nat)
    requires base >= 2
    ensures var r := DigitCount(base, modulus);
            modulus <= Pow(base, r) && (r > 0 ==> Pow(base, r - 1) < modulus)
  {
    DigitCountFromLeast(base, modulus, 0);
  }

  /** No other number of digits is the least one. */
  lemma DigitCountUnique(base: nat, modulus: nat, l: nat)
    requires base >= 2 && modulus <= Pow(base, l) && (l > 0 ==> Pow(base, l - 1) < modulus)
    ensures l == DigitCount(base, modulus)
  {
    var r := DigitCount(base, modulus);
    DigitCountLeast(base, modulus);
    if l < r {
      PowMono(base, l, r - 1);
    } else if r < l {
      PowMono(base, r, l - 1);
    }
  }

  lemma {:induction false} PowMono(base: nat, e: nat, f: nat)
    requires base >= 1 && e <= f
    ensures Pow(base, e) <= Pow(base, f)
    decreases f
  {
    if e < f {
      PowMono(base, e, f - 1);
      MulLe(1, base, Pow(base, f - 1));
    }
  }

  // ---------- powers of two ----------

  predicate IsPowerOfTwo(x: nat) {
    x == 1 || (x > 1 && x % 2 == 0 && IsPowerOfTwo(x / 2))
  }

  function Log2(x: nat): nat {
    if x <= 1 then 0 else 1 + Log2(x / 2)
  }

  lemma {:induction false} Log2Exact(x: nat)
    requires IsPowerOfTwo(x)
    ensures Pow2(Log2(x)) == x && (x > 1 ==> Log2(x) >= 1 && x % 2 == 0)
  {
    if x > 1 {
      Log2Exact(x / 2);
    }
  }

  /** The parameters the scheme is meant for. */
  ghost predicate Supported(ps: ParamSet) {
    match ps
    case ParamSet(n, N, q, Q, baseKS, baseG, baseR, _) =>
      && N > 0 && q > 0 && q % 8 == 0 && Divides(q, 2 * N)
      && Q >= 3 && Q % 2 == 1
      && baseG >= 2 && IsPowerOfTwo(baseG) && baseR >= 2 && baseKS >= 2
  }

  /** The names of the shipped parameter sets. */
  datatype NamedSet =
    | TOY | MEDIUM | STD128_AP | STD128 | STD192 | STD256 | STD128Q | STD192Q | STD256Q | SIGNED_MOD_TEST

  /** Their parameters; the prime Q comes out of a search. */
  function NamedParams(name: NamedSet, Q: nat, variant: Method): ParamSet {
    match name
    case TOY => ParamSet(64, 512, 512, Q, 25, 512, 23, variant)
    case MEDIUM => ParamSet(256, 1024, 512, Q, 25, 512, 23, variant)
    case STD128_AP => ParamSet(512, 1024, 512, Q, 25, 512, 23, variant)
    case STD128 => ParamSet(512, 1024, 512, Q, 25, 128, 23, variant)
    case STD192 => ParamSet(512, 2048, 512, Q, 25, 8192, 23, variant)
    case STD256 => ParamSet(1024, 2048, 1024, Q, 25, 1024, 32, variant)
    case STD128Q => ParamSet(512, 2048, 512, Q, 25, 0x200_0000, 23, variant)
    case STD192Q => ParamSet(1024, 2048, 1024, Q, 25, 4096, 32, variant)
    case STD256Q => ParamSet(1024, 2048, 1024, Q, 25, 128, 32, variant)
    case SIGNED_MOD_TEST => ParamSet(512, 1024, 512, Q, 25, 128, 23, variant)
  }

  /** For any odd modulus Q they are of the kind that the scheme is meant for. */
  lemma NamedSupported(name: NamedSet, Q: nat, variant: Method)
    requires Q >= 3 && Q % 2 == 1
    ensures Supported(NamedParams(name, Q, variant))
  {
    DividesIs(512, 1024);
    DividesIs(512, 2048);
    DividesIs(512, 4096);
    DividesIs(1024, 4096);
    NamedBases();
  }

  lemma NamedBases()
    ensures IsPowerOfTwo(128) && IsPowerOfTwo(512) && IsPowerOfTwo(1024) && IsPowerOfTwo(4096) && IsPowerOfTwo(8192)
    ensures IsPowerOfTwo(0x200_0000)
  {
    PowerOfTwo(7, 128);
    PowerOfTwo(9, 512);
    PowerOfTwo(10, 1024);
    PowerOfTwo(12, 4096);
    PowerOfTwo(13, 8192);
    PowerOfTwo(25, 0x200_0000);
  }

  lemma {:induction false} PowerOfTwo(e: nat, x: nat)
    requires x == Pow2(e)
    ensures IsPowerOfTwo(x)
  {
    if e > 0 {
      PowerOfTwo(e - 1, x / 2);
    }
  }

  function DigitsG(ps: ParamSet): nat
    requires ps.baseG >= 2
  {
    DigitCount(ps.baseG, ps.Q)
  }

  function DigitsR(ps: ParamSet): nat
    requires ps.baseR >= 2
  {
    DigitCount(ps.baseR, ps.q)
  }

  /** X^Factor generates the powers of X that stand for phases modulo q. */
  function Factor(ps: ParamSet): nat
    requires ps.q > 0
  {
    Quotient(2 * ps.N, ps.q)
  }

  lemma FactorTimes(ps: ParamSet)
    requires Supported(ps)
    ensures Factor(ps) * ps.q == 2 * ps.N && Factor(ps) > 0 && Factor(ps) * (ps.q / 2) == ps.N
  {
    DividesIs(ps.q, 2 * ps.N);
    QuotientIs(2 * ps.N, ps.q);
    var k, r := DivMod(2 * ps.N, ps.q);
    HalfTimes(k, ps.q, ps.q / 2, ps.N);
  }

  lemma HalfTimes(k: nat, q: nat, half: nat, N: nat)
    requires k * q == 2 * N && N > 0 && q == 2 * half
    ensures k > 0 && k * half == N
  {
    assert k * (2 * half) == 2 * (k * half);
  }

  // ---------- gate constants ----------

  /** Start of the half-open window of phases, of length q/2, that a gate maps to 0. */
  function GateStart(gate: Gate, q: nat): nat
    requires !gate.XOR? && !gate.XNOR?
  {
    match gate
    case OR => 5 * (q / 8)
    case AND => 7 * (q / 8)
    case NOR => 1 * (q / 8)
    case NAND => 3 * (q / 8)
    case XOR_FAST => 5 * (q / 8)
    case XNOR_FAST => 1 * (q / 8)
  }

  function GateIndex(gate: Gate): nat {
    match gate
    case OR => 0
    case AND => 1
    case NOR => 2
    case NAND => 3
    case XOR_FAST => 4
    case XNOR_FAST => 5
    case XOR => 6
    case XNOR => 7
  }

  // ---------- the polynomials X^m - 1 ----------

  function MonomialMinusOne(N: nat, m: int, Q: nat): (r: Poly)
    requires N > 0 && Q > 0
    ensures |r| == N
  {
    Reduce(Sub(Rot(One(N), m), One(N)), Q)
  }

  lemma RotOne(N: nat, i: nat)
    requires i < N
    ensures forall j {:trigger Rot(One(N), i)[j]} :: 0 <= j < N ==> Rot(One(N), i)[j] == if j == i then 1 else 0
    ensures forall j {:trigger Rot(One(N), i + N)[j]} :: 0 <= j < N ==>
        Rot(One(N), i + N)[j] == if j == i then -1 else 0
  {
    RotIs(One(N), i);
    Monomial(-1, N, i);
    RotIs(One(N), i + N);
    ShiftNAdd(One(N), i, N, i + N);
    ShiftNFull(-1, ShiftN(-1, One(N), i));
  }

  lemma MonomialBuilt(N: nat, i: nat, Q: nat, sign: int, m: nat, p: Poly)
    requires i < N && Q > 0 && |p| == N
    requires (sign == 1 && m == i) || (sign == -1 && m == i + N)
    requires forall j {:trigger p[j]} :: 0 <= j < N ==>
        Cong(p[j], (if j == i then sign else 0) - (if j == 0 then 1 else 0), Q) && 0 <= p[j] < Q
    ensures p == MonomialMinusOne(N, m, Q)
  {
    var r := MonomialMinusOne(N, m, Q);
    forall j | 0 <= j < N
      ensures p[j] == r[j]
    {
      MonomialAt(N, i, Q, sign, m, j);
      IsResidue(p[j], (if j == i then sign else 0) - (if j == 0 then 1 else 0), Q);
    }
  }

  lemma MonomialAt(N: nat, i: nat, Q: nat, sign: int, m: nat, j: nat)
    requires i < N && j < N && Q > 0 && ((sign == 1 && m == i) || (sign == -1 && m == i + N))
    ensures MonomialMinusOne(N, m, Q)[j] == ((if j == i then sign else 0) - (if j == 0 then 1 else 0)) % Q
  {
    PowerAt(N, i, sign, m, j);
  }

  /** The coefficients of a signed power of X. */
  lemma PowerAt(N: nat, k: nat, sign: int, E: nat, j: nat)
    requires k < N && j < N && ((sign == 1 && E == k) || (sign == -1 && E == k + N))
    ensures Rot(One(N), E)[j] == if j == k then sign else 0
  {
    RotOne(N, k);
    if sign == 1 {
      assert Rot(One(N), k)[j] == if j == k then 1 else 0;
    } else {
      assert Rot(One(N), k + N)[j] == if j == k then -1 else 0;
    }
  }

  lemma IsResidue(r: int, x: int, Q: nat)
    requires 0 <= r < Q && Cong(r, x, Q)
    ensures r == x % Q
  {
    ModIntro(r, 0, r, Q);
  }

  // ---------- the parameter classes ----------

  const BAD_BASE := "Gadget base should be a power of two."

  const NO_ROOT :=
    "Please provide a primeModulus(q) and a cyclotomic number(m) satisfying the condition: (q-1)/m is an integer."

  /** What the search for a 2N-th root of unity modulo the prime Q asks for. */
  predicate HasRoot(N: nat, Q: nat)
    requires N > 0 && Q > 0
  {
    (Q - 1) % (2 * N) == 0
  }

  class LWECryptoParams {
    const n: nat
    const N: nat
    const q: nat
    const Q: nat
    const baseKS: nat
    var digitsKS: seq<nat>

    ghost predicate Valid()
      reads this
    {
      baseKS >= 2 && digitsKS == Powers(baseKS, DigitCount(baseKS, Q))
    }

    constructor Unchecked(n: nat, N: nat, q: nat, Q: nat, baseKS: nat)
      requires baseKS >= 2
      ensures this.n == n && this.N == N && this.q == q && this.Q == Q && this.baseKS == baseKS
      ensures Valid()
    {
      this.n, this.N, this.q, this.Q, this.baseKS := n, N, q, Q, baseKS;
      digitsKS := [];
      new;
      PreCompute();
      assert [] + Powers(baseKS, DigitCount(baseKS, Q)) == Powers(baseKS, DigitCount(baseKS, Q));
    }

    /** Moduli of more than 60 bits are refused. */
    static method Create(n: nat, N: nat, q: nat, Q: nat, baseKS: nat) returns (r: Result<LWECryptoParams>)
      requires baseKS >= 2
      ensures r.Failure? <==> Q >= Pow2(60)
      ensures r.Success? ==> fresh(r.value) && r.value.Valid()
      ensures r.Success? ==>
          r.value.n == n && r.value.N == N && r.value.q == q && r.value.Q == Q && r.value.baseKS == baseKS
    {
      if Q >= Pow2(60) {
        return Failure("ERROR: Maximum size of Q supported for FHEW is 60 bits.");
      }
      var p := new LWECryptoParams.Unchecked(n, N, q, Q, baseKS);
      return Success(p);
    }

    method PreCompute()
      requires baseKS >= 2
      modifies this`digitsKS
      ensures digitsKS == old(digitsKS) + Powers(baseKS, DigitCount(baseKS, Q))
    {
      var digitCount := DigitCount(baseKS, Q);
      var value := 1;
      for i := 0 to digitCount
        invariant value == Pow(baseKS, i)
        invariant digitsKS == old(digitsKS) + Powers(baseKS, i)
      {
        digitsKS := digitsKS + [value];
        assert Powers(baseKS, i + 1) == Powers(baseKS, i) + [value];
        value := baseKS * value;
      }
    }
  }

  class RingGSWCryptoParams {
    const lwe: LWECryptoParams
    const baseG: nat
    const baseR: nat
    const variant: Method
    var digitsG: nat
    var digitsG2: nat
    var digitsR: seq<nat>
    var Gpower: seq<nat>
    var gateConst: seq<nat>
    var monomials: seq<Poly>

    function Set(): ParamSet {
      ParamSet(lwe.n, lwe.N, lwe.q, lwe.Q, lwe.baseKS, baseG, baseR, variant)
    }

    ghost predicate Tables()
      reads this
    {
      && baseG >= 2 && baseR >= 2 && lwe.N > 0 && lwe.Q > 1
      && digitsG == DigitCount(baseG, lwe.Q)
      && digitsG2 == 2 * digitsG
      && digitsR == (if variant == AP then Powers(baseR, DigitCount(baseR, lwe.q)) else [])
      && |Gpower| == digitsG
      && (forall i {:trigger Gpower[i]} :: 0 <= i < digitsG ==> Gpower[i] == Pow(baseG, i) % lwe.Q)
      && |gateConst| == 6
      && (forall g: Gate {:trigger GateStart(g, lwe.q)} :: !g.XOR? && !g.XNOR? ==>
          gateConst[GateIndex(g)] == GateStart(g, lwe.q))
      && |monomials| == (if variant == GINX then 2 * lwe.N else 0)
      && (forall m {:trigger monomials[m]} :: 0 <= m < |monomials| ==>
          monomials[m] == MonomialMinusOne(lwe.N, m, lwe.Q))
    }

    ghost predicate Valid()
      reads this, lwe
    {
      lwe.Valid() && Tables() && IsPowerOfTwo(baseG)
    }

    constructor Unchecked(lwe: LWECryptoParams, baseG: nat, baseR: nat, m: Method)
      requires lwe.Valid() && lwe.N > 0 && lwe.Q > 1 && baseG >= 2 && baseR >= 2 && HasRoot(lwe.N, lwe.Q)
      ensures this.lwe == lwe && this.baseG == baseG && this.baseR == baseR && this.variant == m
      ensures Tables()
    {
      this.lwe, this.baseG, this.baseR, this.variant := lwe, baseG, baseR, m;
      digitsG, digitsG2, digitsR, Gpower, gateConst, monomials := 0, 0, [], [], [], [];
      new;
      PreCompute();
    }

    /** Refused are gadget bases that are not powers of two, then moduli without a 2N-th root of unity. */
    static method Create(lwe: LWECryptoParams, baseG: nat, baseR: nat, m: Method)
      returns (r: Result<RingGSWCryptoParams>)
      requires lwe.Valid() && lwe.N > 0 && lwe.Q > 1 && baseG != 1 && baseR >= 2
      ensures r.Failure? <==> !IsPowerOfTwo(baseG) || (lwe.Q - 1) % (2 * lwe.N) != 0
      ensures r.Failure? ==> r.error == if IsPowerOfTwo(baseG) then NO_ROOT else BAD_BASE
      ensures r.Success? ==> fresh(r.value) && r.value.Valid()
      ensures r.Success? ==>
          r.value.lwe == lwe && r.value.baseG == baseG && r.value.baseR == baseR && r.value.variant == m
    {
      if !IsPowerOfTwo(baseG) {
        return Failure(BAD_BASE);
      }
      if !HasRoot(lwe.N, lwe.Q) {
        return Failure(NO_ROOT);
      }
      var p := new RingGSWCryptoParams.Unchecked(lwe, baseG, baseR, m);
      return Success(p);
    }

    method PreCompute()
      requires lwe.N > 0 && lwe.Q > 1 && baseG >= 2 && baseR >= 2 && HasRoot(lwe.N, lwe.Q)
      requires digitsR == [] && Gpower == [] && monomials == []
      modifies this
      ensures Tables()
    {
      digitsG := DigitCount(baseG, lwe.Q);
      digitsG2 := digitsG * 2;
      if variant == AP {
        FillDigitsR();
      }
      FillGpower();
      var o := lwe.q / 8;
      gateConst := [5 * o, 7 * o, 1 * o, 3 * o, 5 * o, 1 * o];
      if variant == GINX {
        FillMonomials();
      }
    }

    method FillDigitsR()
      requires digitsR == [] && baseR >= 2
      modifies this`digitsR
      ensures digitsR == Powers(baseR, DigitCount(baseR, lwe.q))
    {
      var digitCountR := DigitCount(baseR, lwe.q);
      var value := 1;
      for i := 0 to digitCountR
        invariant value == Pow(baseR, i) && digitsR == Powers(baseR, i)
      {
        digitsR := digitsR + [value];
        assert Powers(baseR, i + 1) == Powers(baseR, i) + [value];
        value := baseR * value;
      }
    }

    method FillGpower()
      requires Gpower == [] && lwe.Q > 1
      modifies this`Gpower
      ensures |Gpower| == digitsG
      ensures forall i {:trigger Gpower[i]} :: 0 <= i < digitsG ==> Gpower[i] == Pow(baseG, i) % lwe.Q
    {
      var vTemp := 1;
      ModIntro(1, 0, 1, lwe.Q);
      for i := 0 to digitsG
        invariant vTemp == Pow(baseG, i) % lwe.Q && |Gpower| == i
        invariant forall l {:trigger Gpower[l]} :: 0 <= l < i ==> Gpower[l] == Pow(baseG, l) % lwe.Q
      {
        Gpower := Gpower + [vTemp];
        CongMod(Pow(baseG, i), lwe.Q);
        CongMulL(baseG, vTemp, Pow(baseG, i), lwe.Q);
        vTemp := (baseG * vTemp) % lwe.Q;
      }
    }

    method FillMonomials()
      requires monomials == [] && lwe.N > 0 && lwe.Q > 1
      modifies this`monomials
      ensures |monomials| == 2 * lwe.N
      ensures forall m {:trigger monomials[m]} :: 0 <= m < 2 * lwe.N ==>
          monomials[m] == MonomialMinusOne(lwe.N, m, lwe.Q)
    {
      var N, Q := lwe.N, lwe.Q;
      for i := 0 to N
        invariant |monomials| == i
        invariant forall m {:trigger monomials[m]} :: 0 <= m < i ==> monomials[m] == MonomialMinusOne(N, m, Q)
      {
        var aPoly := BuildMonomial(N, Q, i, 1);
        monomials := monomials + [aPoly];
      }
      for i := 0 to N
        invariant |monomials| == N + i
        invariant forall m {:trigger monomials[m]} :: 0 <= m < N + i ==> monomials[m] == MonomialMinusOne(N, m, Q)
      {
        var aPoly := BuildMonomial(N, Q, i, -1);
        monomials := monomials + [aPoly];
      }
    }

    /** sign * X^i - 1, built coefficient by coefficient; the two updates collide for i = 0. */
    static method BuildMonomial(N: nat, Q: nat, i: nat, sign: int) returns (aPoly: Poly)
      requires i < N && Q > 0 && (sign == 1 || sign == -1)
      ensures aPoly == MonomialMinusOne(N, if sign == 1 then i else i + N, Q)
    {
      aPoly := Zero(N);
      aPoly := aPoly[i := (aPoly[i] + sign) % Q];
      CongMod(sign, Q);
      ghost var b := aPoly;
      aPoly := aPoly[0 := (aPoly[0] - 1) % Q];
      CongMod(b[0] - 1, Q);
      CongSub(b[0], if i == 0 then sign else 0, 1, 1, Q);
      forall j {:trigger aPoly[j]} | 0 <= j < N
        ensures Cong(aPoly[j], (if j == i then sign else 0) - (if j == 0 then 1 else 0), Q) && 0 <= aPoly[j] < Q
      {
      }
      MonomialBuilt(N, i, Q, sign, if sign == 1 then i else i + N, aPoly);
    }
  }
}
