/**
 Gate evaluation on ciphertext objects: the bootstrapping core, the binary gates,
 bootstrapping alone, and NOT. Each method is tied to the function on values that the
 correctness theorems are about.
 */
module Bootstrapping {
  import opened Arith
  import opened Poly
  import opened Params
  import opened BlindRotate
  import opened Lwe
  import opened Switching
  import opened Refresh
  import opened Gates
  import opened Accumulators
  import opened KeyGeneration
  import opened Circuits

  const NO_KEYS := "Bootstrapping keys have not been generated. Please call BTKeyGen before calling bootstrapping."

  predicate HasKeys(ek: EvalKey) {
    ek.BSkey.Some? && ek.KSkey.Some?
  }

  /** Keys that are present have entries wherever evaluation looks. */
  ghost predicate KeysShaped(ps: ParamSet, ek: EvalKey)
    requires Supported(ps)
  {
    match ek
    case EvalKey(bs, ks) => (bs.Some? ==> KeyShape(ps, bs.value)) && (ks.Some? ==> SwitchShape(ps, ks.value))
  }

  // ---------- the lookup polynomial ----------

  /** The range test of the program, which tells apart whether the range wraps around. */
  predicate PassesTest(temp: nat, q1: nat, q2: nat) {
    if q1 < q2 then q1 <= temp < q2 else !(q2 <= temp < q1)
  }

  /** Both branches of the range test decide the same window, also when it wraps around q. */
  lemma RangeTest(temp: nat, q1: nat, q2: nat, q: nat)
    requires q > 0 && q % 2 == 0 && temp < q && q1 < q && q2 == (q1 + q / 2) % q
    ensures InWindow(temp, q1, q) <==> PassesTest(temp, q1, q2)
  {
    if q1 + q / 2 < q {
      ModIntro(q1 + q / 2, 0, q1 + q / 2, q);
    } else {
      ModIntro(q1 + q / 2, 1, q1 + q / 2 - q, q);
    }
    if temp >= q1 {
      ModIntro(temp - q1, 0, temp - q1, q);
    } else {
      ModIntro(temp - q1, -1, temp - q1 + q, q);
    }
  }

  /** The value stored for the difference b - j. */
  lemma StoredLookup(ps: ParamSet, start: nat, b: nat, j: nat, temp: nat)
    requires Supported(ps) && temp == (b - j) % ps.q
    ensures Lookup(b - j, start, ps.q, ps.Q) % ps.Q == if InWindow(temp, start, ps.q) then ps.Q - Q8(ps.Q) else Q8(ps.Q)
  {
    CongMod(b - j, ps.q);
    LookupPeriod(temp, b - j, start, ps.q, ps.Q);
    if InWindow(temp, start, ps.q) {
      ModIntro(0 - Q8(ps.Q), -1, ps.Q - Q8(ps.Q), ps.Q);
    } else {
      ModIntro(Q8(ps.Q), 0, Q8(ps.Q), ps.Q);
    }
  }

  lemma SparsePositions(f: nat, j: nat, pos: nat)
    requires f > 0 && pos == j * f
    ensures pos % f == 0 && pos / f == j && pos + f == (j + 1) * f
    ensures forall i: nat {:trigger i % f} :: pos < i < pos + f ==> i % f != 0
  {
    ModIntro(pos, j, 0, f);
    forall i: nat {:trigger i % f} | pos < i < pos + f
      ensures i % f != 0
    {
      ModIntro(i, j, i - pos, f);
    }
  }

  /** Q8 or -Q8 modulo Q, by the range test. */
  method LookupEntry(params: RingGSWCryptoParams, q1: nat, q2: nat, b: nat, j: nat) returns (v: int)
    requires Supported(params.Set()) && q1 < params.lwe.q && q2 == (q1 + params.lwe.q / 2) % params.lwe.q
    ensures v == Lookup(b - j, q1, params.lwe.q, params.lwe.Q) % params.lwe.Q
  {
    var q, Q := params.lwe.q, params.lwe.Q;
    var temp := (b - j) % q;
    ModNat(b - j, q);
    v := EntryFor(temp, q1, q2, Q8(Q), Q - Q8(Q));
    EntryRight(params.Set(), q1, q2, b, j, temp, v);
  }

  lemma EntryRight(ps: ParamSet, q1: nat, q2: nat, b: nat, j: nat, temp: nat, v: int)
    requires Supported(ps) && q1 < ps.q && q2 == (q1 + ps.q / 2) % ps.q && temp == (b - j) % ps.q < ps.q
    requires v == if PassesTest(temp, q1, q2) then ps.Q - Q8(ps.Q) else Q8(ps.Q)
    ensures v == Lookup(b - j, q1, ps.q, ps.Q) % ps.Q
  {
    EvenModulus(ps);
    RangeTest(temp, q1, q2, ps.q);
    StoredEntry(ps, q1, b, j, temp, v, PassesTest(temp, q1, q2));
  }

  lemma EvenModulus(ps: ParamSet)
    requires Supported(ps)
    ensures ps.q > 0 && ps.q % 2 == 0
  {
  }

  lemma StoredEntry(ps: ParamSet, start: nat, b: nat, j: nat, temp: nat, v: int, passes: bool)
    requires Supported(ps) && temp == (b - j) % ps.q && (passes <==> InWindow(temp, start, ps.q))
    requires v == if passes then ps.Q - Q8(ps.Q) else Q8(ps.Q)
    ensures v == Lookup(b - j, start, ps.q, ps.Q) % ps.Q
  {
    StoredLookup(ps, start, b, j, temp);
  }

  method EntryFor(temp: nat, q1: nat, q2: nat, Q8: int, Q8Neg: int) returns (v: int)
    ensures v == if PassesTest(temp, q1, q2) then Q8Neg else Q8
  {
    if q1 < q2 {
      v := if q1 <= temp < q2 then Q8Neg else Q8;
    } else {
      v := if q2 <= temp < q1 then Q8 else Q8Neg;
    }
  }

  method BuildLookup(params: RingGSWCryptoParams, gate: Gate, b: nat) returns (m: Poly)
    requires Ready(params) && IsDirect(gate)
    ensures Factor(params.Set()) > 0 && m == LookupPoly(params.Set(), GateStart(gate, params.lwe.q), b)
  {
    var q, N := params.lwe.q, params.lwe.N;
    var q1 := params.gateConst[GateIndex(gate)];
    StartBelow(gate, q);
    m := FillLookup(params, q1, (q1 + q / 2) % q, b);
  }

  /** The coefficients before pos are those of the lookup polynomial, the others still zero. */
  ghost predicate Filled(ps: ParamSet, start: nat, b: nat, pos: nat, m: Poly) {
    // A match in place of selectors keeps the definition folded in proofs.
    match ps
    case ParamSet(_, N, _, _, _, _, _, _) =>
      && Supported(ps) && Factor(ps) > 0 && |m| == N && pos <= N
      && (forall i {:trigger m[i]} :: 0 <= i < pos ==> m[i] == LookupPoly(ps, start, b)[i])
      && (forall i {:trigger m[i]} :: pos <= i < N ==> m[i] == 0)
  }

  method FillLookup(params: RingGSWCryptoParams, q1: nat, q2: nat, b: nat) returns (m: Poly)
    requires Supported(params.Set()) && q1 < params.lwe.q && q2 == (q1 + params.lwe.q / 2) % params.lwe.q
    ensures Factor(params.Set()) > 0 && m == LookupPoly(params.Set(), q1, b)
  {
    var factor := 2 * params.lwe.N / params.lwe.q;
    FactorTimes(params.Set());
    QuotientIs(2 * params.lwe.N, params.lwe.q);
    m := Zero(params.lwe.N);
    for j := 0 to params.lwe.q / 2
      invariant Filled(params.Set(), q1, b, Multiple(j, factor), m)
    {
      var v := LookupEntry(params, q1, q2, b, j);
      LookupStep(params.Set(), q1, b, j, j + 1, factor, j * factor, v, m);
      m := m[j * factor := v];
    }
    AllFilled(params.Set(), q1, b, params.lwe.q / 2, factor, m);
  }

  lemma AllFilled(ps: ParamSet, start: nat, b: nat, half: nat, factor: nat, m: Poly)
    requires Supported(ps) && factor == Factor(ps) && half == ps.q / 2
             && Filled(ps, start, b, Multiple(half, factor), m)
    ensures Factor(ps) > 0 && m == LookupPoly(ps, start, b)
  {
    FactorTimes(ps);
    MultipleIs(half, factor);
  }

  lemma NextPosition(j: nat, half: nat, factor: nat, pos: nat, N: nat)
    requires j < half && factor > 0 && factor * half == N && pos == j * factor
    ensures pos + factor <= N
  {
    MulLe(j + 1, half, factor);
  }

  lemma StartBelow(gate: Gate, q: nat)
    requires IsDirect(gate) && q > 0 && q % 8 == 0
    ensures GateStart(gate, q) < q
  {
  }

  lemma LookupStep(ps: ParamSet, start: nat, b: nat, j: nat, j': nat, factor: nat, pos: int, v: int, m: Poly)
    requires Filled(ps, start, b, Multiple(j, factor), m) && factor == Factor(ps) && j < ps.q / 2 && j' == j + 1
    requires pos == j * factor && v == Lookup(b - j, start, ps.q, ps.Q) % ps.Q
    ensures 0 <= pos < |m| && Filled(ps, start, b, Multiple(j', factor), m[pos := v])
  {
    FactorTimes(ps);
    MultipleIs(j, factor);
    MultipleNext(j', j, factor);
    NextPosition(j, ps.q / 2, factor, pos, ps.N);
    FilledMore(ps, start, b, j, factor, pos, pos + factor, v, m);
  }

  lemma FilledMore(ps: ParamSet, start: nat, b: nat, j: nat, factor: nat, pos: nat, next: nat, v: int, m: Poly)
    requires Filled(ps, start, b, pos, m) && factor == Factor(ps) && pos == j * factor && next == pos + factor <= ps.N
    requires v == Lookup(b - j, start, ps.q, ps.Q) % ps.Q
    ensures pos < |m| && Filled(ps, start, b, next, m[pos := v])
  {
    var target, r := LookupPoly(ps, start, b), m[pos := v];
    SparsePositions(factor, j, pos);
    forall i {:trigger r[i]} | 0 <= i < next
      ensures r[i] == target[i]
    {
      if i > pos {
        assert i % factor != 0;
      }
    }
  }

  // ---------- the accumulation loops ----------

  /** What is left of the digit loop yields total. */
  ghost predicate DigitsLeft(ps: ParamSet, bk: BTKey, i: nat, acc: seq<Poly>, aI: nat, k: nat, total: seq<Poly>) {
    // A match in place of selectors keeps the definition folded in proofs.
    match ps
    case ParamSet(n, _, _, _, _, _, _, _) =>
      Supported(ps) && ApShape(ps, bk) && IsAcc(ps, acc) && i < n && k <= DigitsR(ps)
          && ApDigits(ps, bk, i, acc, aI, k) == total
  }

  lemma DigitDone(ps: ParamSet, bk: BTKey, i: nat, acc: seq<Poly>, acc': seq<Poly>, aI: nat, a0: nat, up: nat, k: nat,
                  k': nat, total: seq<Poly>)
    requires DigitsLeft(ps, bk, i, acc, aI, k, total) && k < DigitsR(ps) && k' == k + 1
    requires a0 == aI % ps.baseR < ps.baseR && up == aI / ps.baseR && acc' == ApDigitStep(ps, bk, i, acc, a0, k)
    ensures DigitsLeft(ps, bk, i, acc', up, k', total)
  {
    ApDigitsUnfolds(ps, bk, i, acc, aI, a0, up, k, k');
  }

  /** The product for one digit, unless it is zero. */
  method AccumulateDigit(params: RingGSWCryptoParams, bk: BTKey, i: nat, a0: nat, k: nat, acc: RingGSWCiphertext)
    requires Ready(params) && ApShape(params.Set(), bk) && i < params.lwe.n && k < DigitsR(params.Set())
             && a0 < params.baseR
    requires |acc.elements| == 1 && IsAcc(params.Set(), acc.elements[0])
    modifies acc
    ensures acc.elements == [ApDigitStep(params.Set(), bk, i, old(acc.elements[0]), a0, k)]
  {
    if a0 != 0 {
      ApCellAt(params.Set(), bk, params.lwe.n, i, a0, k);
      AddToACCAP(params, bk[i][a0][k], acc);
    } else {
      assert acc.elements == [acc.elements[0]];
    }
  }

  /** One round of the digit loop. */
  method NextDigit(params: RingGSWCryptoParams, bk: BTKey, i: nat, aI: nat, k: nat, k': nat, acc: RingGSWCiphertext,
                   ghost total: seq<Poly>)
    returns (up: nat)
    requires Ready(params) && k < DigitsR(params.Set()) && k' == k + 1 && |acc.elements| == 1
    requires DigitsLeft(params.Set(), bk, i, acc.elements[0], aI, k, total)
    modifies acc
    ensures |acc.elements| == 1 && DigitsLeft(params.Set(), bk, i, acc.elements[0], up, k', total)
  {
    var a0;
    a0, up := DivRem(aI, params.baseR);
    AccumulateDigit(params, bk, i, a0, k, acc);
    DigitDone(params.Set(), bk, i, old(acc.elements[0]), acc.elements[0], aI, a0, up, k, k', total);
  }

  /** The digits of one negated entry. */
  method AccumulateDigits(params: RingGSWCryptoParams, bk: BTKey, i: nat, negated: nat, acc: RingGSWCiphertext)
    requires Ready(params) && params.variant.AP? && ApShape(params.Set(), bk) && i < params.lwe.n
    requires |acc.elements| == 1 && IsAcc(params.Set(), acc.elements[0])
    modifies acc
    ensures |acc.elements| == 1 && acc.elements[0] == ApDigits(params.Set(), bk, i, old(acc.elements[0]), negated, 0)
  {
    ghost var total := ApDigits(params.Set(), bk, i, acc.elements[0], negated, 0);
    var aI: nat := negated;
    for k := 0 to |params.digitsR|
      invariant |params.digitsR| == DigitsR(params.Set()) && |acc.elements| == 1
      invariant DigitsLeft(params.Set(), bk, i, acc.elements[0], aI, k, total)
    {
      aI := NextDigit(params, bk, i, aI, k, k + 1, acc, total);
    }
  }

  method DivRem(x: nat, base: nat) returns (r: nat, k: nat)
    requires base > 0
    ensures r == x % base < base && k == x / base
  {
    DivNat(x, base);
    r, k := x % base, x / base;
  }

  /** What is left of the AP or GINX loop yields total. */
  ghost predicate LoopLeft(ps: ParamSet, bk: BTKey, acc: seq<Poly>, negA: seq<nat>, i: nat, total: seq<Poly>) {
    match ps
    case ParamSet(n, _, _, _, _, _, _, variant) =>
      && Supported(ps) && KeyShape(ps, bk) && IsAcc(ps, acc) && |negA| == n && i <= n
      && (variant.AP? ==> ApLoop(ps, bk, acc, negA, i) == total)
      && (variant.GINX? ==> GinxLoop(ps, bk, acc, negA, i) == total)
  }

  lemma ApEntryDone(ps: ParamSet, bk: BTKey, acc: seq<Poly>, acc': seq<Poly>, negA: seq<nat>, x: nat, i: nat, j: nat,
                    total: seq<Poly>)
    requires ps.variant.AP? && LoopLeft(ps, bk, acc, negA, i, total) && i < ps.n == |negA| && j == i + 1
    requires x == negA[i] && acc' == ApDigits(ps, bk, i, acc, x, 0)
    ensures LoopLeft(ps, bk, acc', negA, j, total)
  {
    ApLoopUnfolds(ps, bk, acc, negA, i, j);
  }

  lemma GinxEntryDone(ps: ParamSet, bk: BTKey, acc: seq<Poly>, acc': seq<Poly>, negA: seq<nat>, x: nat, i: nat, j: nat,
                      total: seq<Poly>)
    requires ps.variant.GINX? && LoopLeft(ps, bk, acc, negA, i, total) && i < ps.n == |negA| && j == i + 1
    requires x == negA[i] && acc' == GinxEntryStep(ps, bk, acc, i, x)
    ensures LoopLeft(ps, bk, acc', negA, j, total)
  {
    GinxLoopUnfolds(ps, bk, acc, negA, i, j);
  }

  lemma LoopStarts(ps: ParamSet, bk: BTKey, acc: seq<Poly>, negA: seq<nat>)
    requires Supported(ps) && KeyShape(ps, bk) && IsAcc(ps, acc) && |negA| == ps.n
    ensures LoopLeft(ps, bk, acc, negA, 0, Accumulate(ps, bk, acc, negA))
  {
  }

  lemma LoopEnds(ps: ParamSet, bk: BTKey, acc: seq<Poly>, negA: seq<nat>, i: nat, total: seq<Poly>)
    requires LoopLeft(ps, bk, acc, negA, i, total) && i == ps.n
    ensures acc == total
  {
  }

  /** q - a_i modulo q. */
  method NegateEntry(a: seq<nat>, q: nat, i: nat) returns (x: nat)
    requires q > 0 && i < |a|
    ensures x == Negated(a, q)[i] && x < q
  {
    x := (q - a[i]) % q;
  }

  method AccumulateEntryAP(params: RingGSWCryptoParams, bk: BTKey, a: seq<nat>, i: nat, acc: RingGSWCiphertext,
                           ghost total: seq<Poly>)
    returns (j: nat)
    requires Ready(params) && params.variant.AP? && |a| == params.lwe.n && i < params.lwe.n
    requires |acc.elements| == 1 && LoopLeft(params.Set(), bk, acc.elements[0], Negated(a, params.lwe.q), i, total)
    modifies acc
    ensures j == i + 1 && |acc.elements| == 1
    ensures LoopLeft(params.Set(), bk, acc.elements[0], Negated(a, params.lwe.q), j, total)
  {
    j := i + 1;
    var x := NegateEntry(a, params.lwe.q, i);
    AccumulateDigits(params, bk, i, x, acc);
    ApEntryDone(params.Set(), bk, old(acc.elements[0]), acc.elements[0], Negated(a, params.lwe.q), x, i, j, total);
  }

  method AddKeyGINX(params: RingGSWCryptoParams, bk: BTKey, i: nat, x: nat, acc: RingGSWCiphertext)
    requires Ready(params) && params.variant.GINX? && GinxShape(params.Set(), bk) && i < params.lwe.n
             && x < params.lwe.q
    requires |acc.elements| == 1 && IsAcc(params.Set(), acc.elements[0])
    modifies acc
    ensures acc.elements == [GinxEntryStep(params.Set(), bk, old(acc.elements[0]), i, x)]
  {
    GinxCellAt(params.Set(), bk, params.lwe.n, i);
    AddToACCGINX(params, bk[0][0][i], bk[0][1][i], x, acc);
  }

  method AccumulateEntryGINX(params: RingGSWCryptoParams, bk: BTKey, a: seq<nat>, i: nat, acc: RingGSWCiphertext,
                             ghost total: seq<Poly>)
    returns (j: nat)
    requires Ready(params) && params.variant.GINX? && |a| == params.lwe.n && i < params.lwe.n
    requires |acc.elements| == 1 && LoopLeft(params.Set(), bk, acc.elements[0], Negated(a, params.lwe.q), i, total)
    modifies acc
    ensures j == i + 1 && |acc.elements| == 1
    ensures LoopLeft(params.Set(), bk, acc.elements[0], Negated(a, params.lwe.q), j, total)
  {
    j := i + 1;
    var x := NegateEntry(a, params.lwe.q, i);
    AddKeyGINX(params, bk, i, x, acc);
    GinxEntryDone(params.Set(), bk, old(acc.elements[0]), acc.elements[0], Negated(a, params.lwe.q), x, i, j, total);
  }

  method AccumulateAP(params: RingGSWCryptoParams, bk: BTKey, a: seq<nat>, acc: RingGSWCiphertext)
    requires Ready(params) && params.variant.AP? && KeyShape(params.Set(), bk) && |a| == params.lwe.n
    requires |acc.elements| == 1 && IsAcc(params.Set(), acc.elements[0])
    modifies acc
    ensures |acc.elements| == 1
    ensures acc.elements[0] == Accumulate(params.Set(), bk, old(acc.elements[0]), Negated(a, params.lwe.q))
  {
    ghost var total := Accumulate(params.Set(), bk, acc.elements[0], Negated(a, params.lwe.q));
    LoopStarts(params.Set(), bk, acc.elements[0], Negated(a, params.lwe.q));
    var i := 0;
    while i < params.lwe.n
      invariant i <= params.lwe.n && |acc.elements| == 1
      invariant LoopLeft(params.Set(), bk, acc.elements[0], Negated(a, params.lwe.q), i, total)
      decreases params.lwe.n - i
    {
      i := AccumulateEntryAP(params, bk, a, i, acc, total);
    }
    LoopEnds(params.Set(), bk, acc.elements[0], Negated(a, params.lwe.q), i, total);
  }

  method AccumulateGINX(params: RingGSWCryptoParams, bk: BTKey, a: seq<nat>, acc: RingGSWCiphertext)
    requires Ready(params) && params.variant.GINX? && KeyShape(params.Set(), bk) && |a| == params.lwe.n
    requires |acc.elements| == 1 && IsAcc(params.Set(), acc.elements[0])
    modifies acc
    ensures |acc.elements| == 1
    ensures acc.elements[0] == Accumulate(params.Set(), bk, old(acc.elements[0]), Negated(a, params.lwe.q))
  {
    ghost var total := Accumulate(params.Set(), bk, acc.elements[0], Negated(a, params.lwe.q));
    LoopStarts(params.Set(), bk, acc.elements[0], Negated(a, params.lwe.q));
    var i := 0;
    while i < params.lwe.n
      invariant i <= params.lwe.n && |acc.elements| == 1
      invariant LoopLeft(params.Set(), bk, acc.elements[0], Negated(a, params.lwe.q), i, total)
      decreases params.lwe.n - i
    {
      i := AccumulateEntryGINX(params, bk, a, i, acc, total);
    }
    LoopEnds(params.Set(), bk, acc.elements[0], Negated(a, params.lwe.q), i, total);
  }

  /** Fails without keys; otherwise the accumulator is the blindly rotated lookup polynomial. */
  method BootstrapCore(params: RingGSWCryptoParams, gate: Gate, ek: EvalKey, a: seq<nat>, b: nat)
    returns (r: Result<RingGSWCiphertext>)
    requires Ready(params) && IsDirect(gate) && KeysShaped(params.Set(), ek) && |a| == params.lwe.n
    ensures r.Success? <==> HasKeys(ek)
    ensures r.Failure? ==> r.error == NO_KEYS
    ensures r.Success? ==> fresh(r.value)
    ensures r.Success? ==>
        r.value.elements == [BootstrapValue(params.Set(), ek.BSkey.value, GateStart(gate, params.lwe.q), Ct(a, b))]
  {
    if ek.BSkey.None? || ek.KSkey.None? {
      return Failure(NO_KEYS);
    }
    var m := BuildLookup(params, gate, b);
    var acc := new RingGSWCiphertext([[Zero(params.lwe.N), m]]);
    assert acc.elements[0] == StartAcc(params.Set(), GateStart(gate, params.lwe.q), b);
    match params.variant {
      case AP => AccumulateAP(params, ek.BSkey.value, a, acc);
      case GINX => AccumulateGINX(params, ek.BSkey.value, a, acc);
    }
    assert acc.elements == [acc.elements[0]];
    r := Success(acc);
  }

  /** Sample extraction, key switching and modulus switching. */
  method ExtractAndSwitch(params: RingGSWCryptoParams, K: SwitchKey, acc: RingGSWCiphertext) returns (ct: LWECiphertext)
    requires Ready(params) && SwitchShape(params.Set(), K) && |acc.elements| == 1
             && IsAcc(params.Set(), acc.elements[0])
    ensures fresh(ct) && ct.Value() == Finish(params.Set(), K, acc.elements[0])
  {
    var Q := params.lwe.Q;
    var aNew := TransposeMod(acc.elements[0][0], Q);
    var bNew := (Q / 8 + 1 + acc.elements[0][1][0]) % Q;
    var eQN := new LWECiphertext(aNew, bNew);
    var eQ := KeySwitch(params.lwe, params.Set(), K, eQN);
    ct := ModSwitch(params.lwe, eQ);
  }

  // ---------- the operations ----------

  method EvalNOT(params: RingGSWCryptoParams, ct: LWECiphertext) returns (r: LWECiphertext)
    requires Ready(params) && |ct.a| == params.lwe.n && InRange(ct.Value(), params.lwe.q)
    ensures fresh(r) && r.Value() == NotValue(ct.Value(), params.lwe.q)
  {
    var q := params.lwe.q;
    var a: seq<nat> := [];
    for i := 0 to params.lwe.n
      invariant |a| == i && forall l {:trigger a[l]} :: 0 <= l < i ==> a[l] == q - ct.a[l]
    {
      assert ct.Value().a[i] <= q;
      a := a + [q - ct.a[i]];
    }
    assert a == NotValue(ct.Value(), q).a;
    r := new LWECiphertext(a, (q / 4 - ct.b) % q);
  }

  /** Both are ciphertext values that gates accept. */
  predicate Operands(ps: ParamSet, x: Ct, y: Ct) {
    match ps
    case ParamSet(n, _, q, _, _, _, _, _) => |x.a| == |y.a| == n && InRange(x, q) && InRange(y, q)
  }

  /** The value of a gate, which needs the keys. */
  function GateValue(ps: ParamSet, ek: EvalKey, gate: Gate, x: Ct, y: Ct): (r: Ct)
    requires Supported(ps) && KeysShaped(ps, ek) && Operands(ps, x, y)
    ensures |r.a| == ps.n && InRange(r, ps.q)
  {
    if HasKeys(ek) then EvalGate(ps, ek.BSkey.value, ek.KSkey.value, gate, x, y) else x
  }

  /**
   The outcome of a gate: it fails exactly for one object given twice or missing keys, and
   otherwise holds v.
   */
  ghost predicate Outcome(r: Result<LWECiphertext>, same: bool, ek: EvalKey, v: Ct) {
    match r
    case Failure(e) => (same || !HasKeys(ek)) && e == if same then SAME_OPERANDS else NO_KEYS
    case Success(ct) => !same && HasKeys(ek) && ct.Value() == v
  }

  /** One gate on two distinct ciphertext objects; XOR and XNOR call themselves for AND and OR. */
  method EvalBinGate(params: RingGSWCryptoParams, gate: Gate, ek: EvalKey, ct1: LWECiphertext, ct2: LWECiphertext)
    returns (r: Result<LWECiphertext>)
    requires Ready(params) && KeysShaped(params.Set(), ek) && Operands(params.Set(), ct1.Value(), ct2.Value())
    ensures Outcome(r, ct1 == ct2, ek, GateValue(params.Set(), ek, gate, ct1.Value(), ct2.Value()))
    ensures r.Success? ==> fresh(r.value)
    decreases if IsDirect(gate) then 0 else 4
  {
    if ct1 == ct2 {
      return Failure(SAME_OPERANDS);
    }
    match gate {
      case XOR =>
        r := EvalXor(params, ek, ct1, ct2);
      case XNOR =>
        r := EvalXnor(params, ek, ct1, ct2);
      case _ =>
        r := EvalOnce(params, gate, ek, ct1, ct2);
    }
  }

  lemma NegatedOperands(ps: ParamSet, x: Ct, y: Ct, x': Ct, y': Ct)
    requires Operands(ps, x, y) && ps.q > 0 && x' == NotValue(x, ps.q) && y' == NotValue(y, ps.q)
    ensures Operands(ps, x, y') && Operands(ps, x', y)
  {
  }

  lemma PartsIntro(ps: ParamSet, ek: EvalKey, x: Ct, y: Ct, x': Ct, y': Ct, u: Ct)
    requires Supported(ps) && KeysShaped(ps, ek) && Operands(ps, x, y) && Operands(ps, x, y') && Operands(ps, x', y)
    requires x' == NotValue(x, ps.q) && y' == NotValue(y, ps.q) && u == GateValue(ps, ek, AND, x, y')
    ensures XorParts(ps, ek, x, y, x', y', u)
  {
  }

  lemma XorUnfolds(ps: ParamSet, ek: EvalKey, x: Ct, y: Ct, x': Ct, y': Ct, u: Ct, v: Ct)
    requires Supported(ps) && KeysShaped(ps, ek) && HasKeys(ek) && XorParts(ps, ek, x, y, x', y', u)
    requires Operands(ps, x', y) && v == GateValue(ps, ek, AND, x', y)
    ensures Operands(ps, u, v) && Operands(ps, x, y)
    ensures GateValue(ps, ek, OR, u, v) == GateValue(ps, ek, XOR, x, y)
  {
    EvalDirect(ps, ek.BSkey.value, ek.KSkey.value, AND, x, y');
    EvalDirect(ps, ek.BSkey.value, ek.KSkey.value, AND, x', y);
    EvalDirect(ps, ek.BSkey.value, ek.KSkey.value, OR, u, v);
    XorGateIs(ps, ek.BSkey.value, ek.KSkey.value, x, y, x', y', u, v);
    EvalXorIs(ps, ek.BSkey.value, ek.KSkey.value, XOR, x, y);
  }

  /** (ct1 and not ct2) or (not ct1 and ct2). */
  method EvalXor(params: RingGSWCryptoParams, ek: EvalKey, ct1: LWECiphertext, ct2: LWECiphertext)
    returns (r: Result<LWECiphertext>)
    requires Ready(params) && KeysShaped(params.Set(), ek) && Operands(params.Set(), ct1.Value(), ct2.Value())
    ensures Outcome(r, false, ek, GateValue(params.Set(), ek, XOR, ct1.Value(), ct2.Value()))
    ensures r.Success? ==> fresh(r.value)
    decreases 2
  {
    var ct1NOT := EvalNOT(params, ct1);
    var ct2NOT := EvalNOT(params, ct2);
    NegatedOperands(params.Set(), ct1.Value(), ct2.Value(), ct1NOT.Value(), ct2NOT.Value());
    var ctAND1 := EvalBinGate(params, AND, ek, ct1, ct2NOT);
    if ctAND1.Failure? {
      return ctAND1;
    }
    PartsIntro(params.Set(), ek, ct1.Value(), ct2.Value(), ct1NOT.Value(), ct2NOT.Value(), ctAND1.value.Value());
    r := EvalHalves(params, ek, ct1, ct2, ct1NOT, ctAND1.value, ct2NOT.Value());
  }

  /** The second AND and the OR of XOR; ct2NOT is the other operand of the first AND. */
  method EvalHalves(params: RingGSWCryptoParams, ek: EvalKey, ct1: LWECiphertext, ct2: LWECiphertext,
                    ct1NOT: LWECiphertext, ctAND1: LWECiphertext, ghost ct2NOT: Ct) returns (r: Result<LWECiphertext>)
    requires Ready(params) && KeysShaped(params.Set(), ek) && HasKeys(ek) && ct1NOT != ct2
    requires XorParts(params.Set(), ek, ct1.Value(), ct2.Value(), ct1NOT.Value(), ct2NOT, ctAND1.Value())
    ensures Outcome(r, false, ek, GateValue(params.Set(), ek, XOR, ct1.Value(), ct2.Value()))
    ensures r.Success? ==> fresh(r.value)
    decreases 1
  {
    var ctAND2 := EvalBinGate(params, AND, ek, ct1NOT, ct2);
    if ctAND2.Failure? {
      return ctAND2;
    }
    SecondAnd(params.Set(), ek, ct1.Value(), ct2.Value(), ct1NOT.Value(), ct2NOT, ctAND1.Value(), ctAND2.value.Value());
    r := EvalBinGate(params, OR, ek, ctAND1, ctAND2.value);
    XorOutcome(params.Set(), ek, ct1.Value(), ct2.Value(), ct1NOT.Value(), ct2NOT, ctAND1.Value(),
               ctAND2.value.Value(), r);
  }

  lemma SecondAnd(ps: ParamSet, ek: EvalKey, x: Ct, y: Ct, x': Ct, y': Ct, u: Ct, v: Ct)
    requires Supported(ps) && KeysShaped(ps, ek) && XorParts(ps, ek, x, y, x', y', u)
    requires Operands(ps, x', y) && v == GateValue(ps, ek, AND, x', y)
    ensures Operands(ps, u, v)
  {
  }

  lemma XorOutcome(ps: ParamSet, ek: EvalKey, x: Ct, y: Ct, x': Ct, y': Ct, u: Ct, v: Ct, r: Result<LWECiphertext>)
    requires Supported(ps) && KeysShaped(ps, ek) && HasKeys(ek) && XorParts(ps, ek, x, y, x', y', u)
    requires Operands(ps, x', y) && v == GateValue(ps, ek, AND, x', y) && Operands(ps, u, v)
    requires Outcome(r, false, ek, GateValue(ps, ek, OR, u, v))
    ensures Operands(ps, x, y) && Outcome(r, false, ek, GateValue(ps, ek, XOR, x, y))
  {
    XorUnfolds(ps, ek, x, y, x', y', u, v);
  }

  /** The negated operands of XOR and its first AND. */
  ghost predicate XorParts(ps: ParamSet, ek: EvalKey, x: Ct, y: Ct, x': Ct, y': Ct, u: Ct)
    requires Supported(ps) && KeysShaped(ps, ek)
  {
    // A match in place of selectors keeps the definition folded in proofs.
    match ps
    case ParamSet(_, _, q, _, _, _, _, _) =>
      && Operands(ps, x, y) && x' == NotValue(x, q) && y' == NotValue(y, q) && Operands(ps, x, y')
          && Operands(ps, x', y)
      && u == GateValue(ps, ek, AND, x, y') && Operands(ps, u, u)
  }

  lemma XnorUnfolds(ps: ParamSet, ek: EvalKey, x: Ct, y: Ct, v: Ct, v': Ct)
    requires Supported(ps) && KeysShaped(ps, ek) && HasKeys(ek) && Operands(ps, x, y)
    requires v == GateValue(ps, ek, XOR, x, y) && v' == NotValue(v, ps.q)
    ensures v' == GateValue(ps, ek, XNOR, x, y)
  {
    EvalXorIs(ps, ek.BSkey.value, ek.KSkey.value, XOR, x, y);
    EvalXnorIs(ps, ek.BSkey.value, ek.KSkey.value, XNOR, x, y);
  }

  method EvalXnor(params: RingGSWCryptoParams, ek: EvalKey, ct1: LWECiphertext, ct2: LWECiphertext)
    returns (r: Result<LWECiphertext>)
    requires Ready(params) && KeysShaped(params.Set(), ek) && Operands(params.Set(), ct1.Value(), ct2.Value())
    ensures Outcome(r, false, ek, GateValue(params.Set(), ek, XNOR, ct1.Value(), ct2.Value()))
    ensures r.Success? ==> fresh(r.value)
    decreases 3
  {
    r := EvalXor(params, ek, ct1, ct2);
    if r.Success? {
      var negated := EvalNOT(params, r.value);
      XnorUnfolds(params.Set(), ek, ct1.Value(), ct2.Value(), r.value.Value(), negated.Value());
      r := Success(negated);
    }
  }

  /** A gate that takes one bootstrapping. */
  method EvalOnce(params: RingGSWCryptoParams, gate: Gate, ek: EvalKey, ct1: LWECiphertext, ct2: LWECiphertext)
    returns (r: Result<LWECiphertext>)
    requires Ready(params) && KeysShaped(params.Set(), ek) && Operands(params.Set(), ct1.Value(), ct2.Value())
             && IsDirect(gate)
    ensures Outcome(r, false, ek, GateValue(params.Set(), ek, gate, ct1.Value(), ct2.Value()))
    ensures r.Success? ==> fresh(r.value)
    decreases 0
  {
    var ct := CombineOperands(params, gate, ct1, ct2);
    var acc := BootstrapCore(params, gate, ek, ct.a, ct.b);
    if acc.Failure? {
      return Failure(acc.error);
    }
    var out := ExtractAndSwitch(params, ek.KSkey.value, acc.value);
    EvalDirect(params.Set(), ek.BSkey.value, ek.KSkey.value, gate, ct1.Value(), ct2.Value());
    r := Success(out);
  }

  /** 2 * (ct1 - ct2) for the fast gates, ct1 + ct2 for the others. */
  method CombineOperands(params: RingGSWCryptoParams, gate: Gate, ct1: LWECiphertext, ct2: LWECiphertext)
    returns (ct: Ct)
    requires params.lwe.q > 0 && |ct1.a| == |ct2.a|
    ensures ct == Combine(gate, ct1.Value(), ct2.Value(), params.lwe.q)
  {
    var q := params.lwe.q;
    if gate.XOR_FAST? || gate.XNOR_FAST? {
      var a := SubMod(ct1.a, ct2.a, q);
      a := AddMod(a, a, q);
      var b := (ct1.b - ct2.b) % q;
      b := (b + b) % q;
      ct := Ct(a, b);
    } else {
      ct := Ct(AddMod(ct1.a, ct2.a, q), (ct1.b + ct2.b) % q);
    }
  }

  /** Bootstrapping alone: AND with the phase moved by a quarter. */
  method Bootstrap(params: RingGSWCryptoParams, ek: EvalKey, ct1: LWECiphertext) returns (r: Result<LWECiphertext>)
    requires Ready(params) && KeysShaped(params.Set(), ek) && |ct1.a| == params.lwe.n
    ensures r.Success? <==> HasKeys(ek)
    ensures r.Failure? ==> r.error == NO_KEYS
    ensures r.Success? ==> fresh(r.value)
    ensures r.Success? ==>
        r.value.Value() == BootstrapCt(params.Set(), ek.BSkey.value, ek.KSkey.value, ct1.Value())
  {
    var ct := AddQuarter(ct1.Value(), params.lwe.q);
    var acc := BootstrapCore(params, AND, ek, ct.a, ct.b);
    if acc.Failure? {
      return Failure(acc.error);
    }
    var out := ExtractAndSwitch(params, ek.KSkey.value, acc.value);
    r := Success(out);
  }

  // ---------- circuits on ciphertext objects ----------

  function Values(inputs: seq<LWECiphertext>): (r: seq<Ct>)
    ensures |r| == |inputs| && forall i {:trigger r[i]} :: 0 <= i < |r| ==> r[i] == inputs[i].Value()
  {
    seq(|inputs|, i requires 0 <= i < |inputs| => inputs[i].Value())
  }

  ghost predicate Distinct(inputs: seq<LWECiphertext>) {
    forall i, j {:trigger inputs[i], inputs[j]} :: 0 <= i < j < |inputs| ==> inputs[i] != inputs[j]
  }

  /** The outcome on objects is the outcome on values. */
  ghost predicate Same(r: Result<LWECiphertext>, v: Result<Ct>) {
    match r
    case Failure(e) => v == Failure(e)
    case Success(ct) => v == Success(ct.Value())
  }

  /** All that circuit evaluation assumes about its surroundings. */
  ghost predicate CanEvaluate(params: RingGSWCryptoParams, ek: EvalKey, env: seq<Ct>)
    reads params, params.lwe
  {
    match ek
    case EvalKey(bs, ks) =>
      && Ready(params) && params.lwe.q < WORD_SIZE && bs.Some? && ks.Some?
      && KeysShaped(params.Set(), ek) && Usable(params.Set(), env)
  }

  function EvalOn(ps: ParamSet, ek: EvalKey, c: Circuit, env: seq<Ct>): (r: Result<Ct>)
    requires Supported(ps) && HasKeys(ek) && KeysShaped(ps, ek) && Usable(ps, env) && InputsBelow(c, |env|)
    ensures Fresh(ps, r)
  {
    HomEval(ps, ek.BSkey.value, ek.KSkey.value, c, env)
  }

  /** A client that evaluates a circuit gate by gate. */
  method EvaluateCircuit(params: RingGSWCryptoParams, ek: EvalKey, c: Circuit, inputs: seq<LWECiphertext>)
    returns (r: Result<LWECiphertext>)
    requires CanEvaluate(params, ek, Values(inputs)) && InputsBelow(c, |inputs|) && Distinct(inputs)
    ensures Same(r, EvalOn(params.Set(), ek, c, Values(inputs)))
    ensures r.Success? ==> if c.Input? then r.value == inputs[c.i] else fresh(r.value)
    decreases c, 1
  {
    match c {
      case Input(i) =>
        r := Success(inputs[i]);
      case Constant(v) =>
        var ct := EvalConstant(params, v);
        r := Success(ct);
      case Not(d) =>
        r := EvaluateCircuit(params, ek, d, inputs);
        r := NotResult(params, r);
      case Boot(d) =>
        r := EvaluateCircuit(params, ek, d, inputs);
        r := BootResult(params, ek, r);
      case Binary(gate, left, right) =>
        r := EvaluateBinary(params, ek, gate, left, right, inputs);
    }
  }

  method EvalConstant(params: RingGSWCryptoParams, v: bool) returns (ct: LWECiphertext)
    requires Ready(params) && params.lwe.q < WORD_SIZE
    ensures fresh(ct) && ct.Value() == ConstantValue(params.Set(), v)
  {
    var m := if v then 1 else 0;
    ct := NoiselessEmbedding(params.lwe, m);
    ModIntro(m, 0, m, WORD_SIZE);
    assert m * (params.lwe.q / 4) == if v then params.lwe.q / 4 else 0;
    ModIntro(m * (params.lwe.q / 4), 0, m * (params.lwe.q / 4), WORD_SIZE);
    assert ct.a == Zero(params.lwe.n);
  }

  method NotResult(params: RingGSWCryptoParams, x: Result<LWECiphertext>) returns (r: Result<LWECiphertext>)
    requires Ready(params) && (x.Success? ==> |x.value.a| == params.lwe.n && InRange(x.value.Value(), params.lwe.q))
    ensures x.Failure? ==> r == x
    ensures x.Success? ==> r.Success? && fresh(r.value) && r.value.Value() == NotValue(x.value.Value(), params.lwe.q)
  {
    if x.Failure? {
      return x;
    }
    var ct := EvalNOT(params, x.value);
    r := Success(ct);
  }

  method BootResult(params: RingGSWCryptoParams, ek: EvalKey, x: Result<LWECiphertext>)
    returns (r: Result<LWECiphertext>)
    requires Ready(params) && HasKeys(ek) && KeysShaped(params.Set(), ek)
             && (x.Success? ==> |x.value.a| == params.lwe.n)
    ensures x.Failure? ==> r == x
    ensures x.Success? ==> r.Success? && fresh(r.value)
    ensures x.Success? ==>
        r.value.Value() == BootstrapCt(params.Set(), ek.BSkey.value, ek.KSkey.value, x.value.Value())
  {
    if x.Failure? {
      return x;
    }
    r := Bootstrap(params, ek, x.value);
  }

  /** Both operands first, then the gate, which compares the two objects. */
  method EvaluateBinary(params: RingGSWCryptoParams, ek: EvalKey, gate: Gate, left: Circuit, right: Circuit,
                        inputs: seq<LWECiphertext>)
    returns (r: Result<LWECiphertext>)
    requires CanEvaluate(params, ek, Values(inputs)) && InputsBelow(Binary(gate, left, right), |inputs|)
             && Distinct(inputs)
    ensures Same(r, EvalOn(params.Set(), ek, Binary(gate, left, right), Values(inputs)))
    ensures r.Success? ==> fresh(r.value)
    decreases Binary(gate, left, right), 0
  {
    var x := EvaluateCircuit(params, ek, left, inputs);
    if x.Failure? {
      return x;
    }
    var y := EvaluateCircuit(params, ek, right, inputs);
    if y.Failure? {
      return y;
    }
    assert x.value == y.value <==> SameObject(left, right);
    r := EvalBinGate(params, gate, ek, x.value, y.value);
    BinaryOutcome(params.Set(), ek, gate, left, right, Values(inputs), x.value.Value(), y.value.Value(), r,
                  SameObject(left, right));
  }

  lemma BinaryOutcome(ps: ParamSet, ek: EvalKey, gate: Gate, left: Circuit, right: Circuit, env: seq<Ct>, x: Ct, y: Ct,
                      r: Result<LWECiphertext>, same: bool)
    requires Supported(ps) && HasKeys(ek) && KeysShaped(ps, ek) && Usable(ps, env)
    requires InputsBelow(Binary(gate, left, right), |env|) && same == SameObject(left, right)
    requires EvalOn(ps, ek, left, env) == Success(x) && EvalOn(ps, ek, right, env) == Success(y)
    requires Operands(ps, x, y) && Outcome(r, same, ek, GateValue(ps, ek, gate, x, y))
    ensures Same(r, EvalOn(ps, ek, Binary(gate, left, right), env))
  {
    OutcomeIs(ps, ek, gate, x, y, r, same);
  }

  /** A gate on objects has the outcome of the gate on values. */
  lemma OutcomeIs(ps: ParamSet, ek: EvalKey, gate: Gate, x: Ct, y: Ct, r: Result<LWECiphertext>, same: bool)
    requires Supported(ps) && HasKeys(ek) && KeysShaped(ps, ek) && Operands(ps, x, y)
    requires Outcome(r, same, ek, GateValue(ps, ek, gate, x, y))
    ensures Same(r, HomGate(ps, ek.BSkey.value, ek.KSkey.value, gate, same, Success(x), Success(y)))
  {
  }
}
