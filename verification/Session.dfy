/**
 A whole session: bits are encrypted, a circuit is evaluated on the ciphertexts, and the
 result is decrypted. An explicit parameter set shows that all hypotheses can hold together.
 */
module Session {
  import opened Arith
  import opened Poly
  import opened Negacyclic
  import opened Params
  import opened BlindRotate
  import opened Lwe
  import opened Switching
  import opened Refresh
  import opened Gates
  import opened Circuits
  import opened Accumulators
  import opened Encryption
  import opened KeyGeneration
  import opened Bootstrapping
  import opened Programs

  /** A uniform vector and an error, reduced modulo q and of size at most beta, for every input. */
  ghost predicate InputSamples(sampleA: nat -> seq<nat>, sampleE: nat -> nat, sk: PrivateKey, beta: nat) {
    && sk.modulus > 0
    && forall i {:trigger sampleA(i)} {:trigger sampleE(i)} ::
         && |sampleA(i)| == |sk.element| && Reduced(sampleA(i), sk.modulus)
         && sampleE(i) < sk.modulus && Dist(sampleE(i), sk.modulus) <= beta
  }

  /** Secret key, words and noise bound fit the world of the keys; nothing is said about the errors of the keys. */
  ghost predicate Consistent(w: World, sk: PrivateKey, beta: nat) {
    match w
    case World(ps, _, _, s, _, _, _, betaOut) =>
      && Shaped(w) && betaOut <= beta && 32 * beta < ps.q
      && sk.modulus == ps.q <= WORD_SIZE / 4 && SignedKey(sk) == s && |sk.element| == ps.n
          && WordsFit(2 * ps.q, ps.n, ps.q)
  }

  // ---------- fresh encryptions ----------

  /** b is the inner product of mask and secret, plus the error, plus a quarter of q for 1, modulo q. */
  function FreshCt(sk: PrivateKey, bit: bool, a: seq<nat>, e: nat): (r: Ct)
    requires sk.modulus > 0 && |a| == |sk.element|
    ensures r.a == a && r.b < sk.modulus
  {
    Ct(a, (Bit(bit) * (sk.modulus / 4) + e + Inner(a, sk.element)) % sk.modulus)
  }

  function FreshCts(sk: PrivateKey, bits: seq<bool>, sampleA: nat -> seq<nat>, sampleE: nat -> nat): (r: seq<Ct>)
    requires sk.modulus > 0 && forall i {:trigger sampleA(i)} :: |sampleA(i)| == |sk.element|
    ensures |r| == |bits| && forall i {:trigger r[i]} :: 0 <= i < |r| ==>
        r[i] == FreshCt(sk, bits[i], sampleA(i), sampleE(i))
  {
    seq(|bits|, i requires 0 <= i < |bits| => FreshCt(sk, bits[i], sampleA(i), sampleE(i)))
  }

  lemma FreshPhase(sk: PrivateKey, bit: bool, a: seq<nat>, e: nat)
    requires sk.modulus > 0 && |a| == |sk.element|
    ensures Cong(Phase(FreshCt(sk, bit, a, e), sk.element), Bit(bit) * (sk.modulus / 4) + e, sk.modulus)
  {
    var q, inner, x := sk.modulus, Inner(a, sk.element), Bit(bit) * (sk.modulus / 4) + e;
    CongMod(x + inner, q);
    CongSub((x + inner) % q, x + inner, inner, inner, q);
  }

  /** It is the one ciphertext with that mask and that phase. */
  lemma FreshIs(ct: Ct, sk: PrivateKey, bit: bool, e: nat)
    requires |ct.a| == |sk.element| && ct.b < sk.modulus
    requires Cong(Phase(ct, sk.element), Bit(bit) * (sk.modulus / 4) + e, sk.modulus)
    ensures ct == FreshCt(sk, bit, ct.a, e)
  {
    var q, inner, x := sk.modulus, Inner(ct.a, sk.element), Bit(bit) * (sk.modulus / 4) + e;
    CongAdd(ct.b - inner, x, inner, inner, q);
    ModIntro(ct.b, 0, ct.b, q);
  }

  lemma FreshEncodes(w: World, sk: PrivateKey, bit: bool, a: seq<nat>, e: nat, beta: nat)
    requires Consistent(w, sk, beta) && |a| == w.ps.n && w.ps.q > 0 && Reduced(a, w.ps.q) && Dist(e, w.ps.q) <= beta
    ensures |a| == |sk.element| && sk.modulus > 0 && Encodes(w.ps, FreshCt(sk, bit, a, e), w.s, bit, beta)
  {
    var q, ct := w.ps.q, FreshCt(sk, bit, a, e);
    FreshPhase(sk, bit, a, e);
    StoredKey(sk);
    PhaseCong(ct, sk.element, w.s, q);
    BitQuarter(bit, q);
    var f, k := Centre(e, q);
    CongFrom(e, f, k, q);
    CongAdd(Quarter(bit, q), Quarter(bit, q), e, f, q);
    NearIntro(Phase(ct, w.s), Quarter(bit, q), f, beta, q);
    InRangeIntro(ct, q);
  }

  lemma InRangeIntro(ct: Ct, q: nat)
    requires Reduced(ct.a, q) && ct.b < q
    ensures InRange(ct, q)
  {
  }

  lemma FreshEnvEncodes(w: World, sk: PrivateKey, bits: seq<bool>, sampleA: nat -> seq<nat>, sampleE: nat -> nat,
                        beta: nat)
    requires Consistent(w, sk, beta) && InputSamples(sampleA, sampleE, sk, beta)
    ensures EnvEncodes(w.ps, FreshCts(sk, bits, sampleA, sampleE), w.s, bits, beta)
  {
    var env := FreshCts(sk, bits, sampleA, sampleE);
    forall i {:trigger env[i]} | 0 <= i < |env|
      ensures Encodes(w.ps, env[i], w.s, bits[i], beta)
    {
      FreshEncodes(w, sk, bits[i], sampleA(i), sampleE(i), beta);
    }
    EnvIntro(w, env, bits, beta);
  }

  lemma EnvIntro(w: World, env: seq<Ct>, bits: seq<bool>, beta: nat)
    requires w.ps.q > 0 && |env| == |bits|
    requires forall l {:trigger env[l]} :: 0 <= l < |env| ==> Encodes(w.ps, env[l], w.s, bits[l], beta)
    ensures EnvEncodes(w.ps, env, w.s, bits, beta)
  {
  }

  method EncryptBit(sk: PrivateKey, bit: bool, a: seq<nat>, e: nat) returns (ct: LWECiphertext)
    requires |a| == |sk.element| && e < sk.modulus && WordsFit(2 * sk.modulus, |a|, sk.modulus)
    ensures fresh(ct) && ct.Value() == FreshCt(sk, bit, a, e)
  {
    var m := if bit then 1 else 0;
    ct := Encrypt(sk, m, a, e);
    WordsFitMessage(m, |a|, sk.modulus);
    assert TruncMod(m, 4) == m;
    FreshIs(ct.Value(), sk, bit, e);
  }

  method EncryptBits(sk: PrivateKey, bits: seq<bool>, sampleA: nat -> seq<nat>, sampleE: nat -> nat)
    returns (inputs: seq<LWECiphertext>)
    requires sk.modulus > 0 && WordsFit(2 * sk.modulus, |sk.element|, sk.modulus)
    requires forall i {:trigger sampleA(i)} {:trigger sampleE(i)} ::
        |sampleA(i)| == |sk.element| && sampleE(i) < sk.modulus
    ensures Distinct(inputs) && Values(inputs) == FreshCts(sk, bits, sampleA, sampleE)
  {
    inputs := [];
    ghost var env := FreshCts(sk, bits, sampleA, sampleE);
    for i := 0 to |bits|
      invariant |inputs| == i && Distinct(inputs)
      invariant forall l {:trigger inputs[l]} :: 0 <= l < i ==> allocated(inputs[l]) && inputs[l].Value() == env[l]
    {
      var ct := EncryptBit(sk, bits[i], sampleA(i), sampleE(i));
      inputs := inputs + [ct];
    }
    assert Values(inputs) == env;
  }

  // ---------- circuits ----------

  /** r is the decryption of what evaluating c on cts gives, or its error. */
  ghost predicate EvaluatesTo(w: World, sk: PrivateKey, c: Circuit, cts: seq<Ct>, r: Result<nat>) {
    // A match in place of selectors keeps the definition folded in proofs.
    match w
    case World(ps, bk, ks, _, _, _, _, _) =>
      CanEval(w, c, cts) && sk.modulus > 0 && match HomEval(ps, bk, ks, c, cts)
      case Failure(e) => r == Failure(e)
      case Success(ct) => |ct.a| == |sk.element| && r == Success(Decode(Phase(ct, sk.element), sk.modulus))
  }

  /** That is the plaintext value if the errors of the evaluation fit. */
  lemma EvaluatesToPlain(w: World, sk: PrivateKey, c: Circuit, cts: seq<Ct>, bits: seq<bool>, r: Result<nat>, beta: nat)
    requires Consistent(w, sk, beta) && EvaluatesTo(w, sk, c, cts, r) && EnvEncodes(w.ps, cts, w.s, bits, beta)
    requires InputsBelow(c, |bits|)
    ensures r.Success? <==> Independent(c)
    ensures r.Success? && (CircuitFits(w, c, cts) || Works(w)) ==> r.value == Bit(PlainEval(c, bits))
  {
    CanEvalIs(w, c, cts);
    HomEvalFails(w.ps, w.bk, w.ks, c, cts);
    if Works(w) {
      CircuitFitsAlways(w, c, cts);
    }
    if Independent(c) && CircuitFits(w, c, cts) {
      CircuitActualDecrypts(w, sk, c, cts, bits, beta);
    }
  }

  /**
   Encrypt, evaluate, decrypt: for every circuit that never uses one input twice in a gate, the plaintext result, if
   the errors of all bootstrappings of this evaluation fit, as they always do with keys whose worst-case errors fit.
   */
  method RunCircuit(params: RingGSWCryptoParams, ek: EvalKey, sk: PrivateKey, c: Circuit, bits: seq<bool>,
                    sampleA: nat -> seq<nat>, sampleE: nat -> nat, ghost w: World, ghost beta: nat)
    returns (r: Result<nat>)
    requires Ready(params) && w.ps == params.Set() && Consistent(w, sk, beta) && ek == EvalKey(Some(w.bk), Some(w.ks))
    requires InputSamples(sampleA, sampleE, sk, beta) && InputsBelow(c, |bits|)
    ensures EvaluatesTo(w, sk, c, FreshCts(sk, bits, sampleA, sampleE), r)
    ensures r.Success? <==> Independent(c)
    ensures r.Success? && (CircuitFits(w, c, FreshCts(sk, bits, sampleA, sampleE)) || Works(w)) ==>
        r.value == Bit(PlainEval(c, bits))
  {
    ShapedIs(w);
    FreshEnvEncodes(w, sk, bits, sampleA, sampleE, beta);
    var inputs := EncryptBits(sk, bits, sampleA, sampleE);
    var out := EvaluateCircuit(params, ek, c, inputs);
    if out.Failure? {
      r := Failure(out.error);
    } else {
      var m := Decrypt(sk, out.value);
      r := Success(m);
    }
    EvaluatesToPlain(w, sk, c, FreshCts(sk, bits, sampleA, sampleE), bits, r, beta);
  }

  // ---------- programs ----------

  lemma DistinctNames(inputs: seq<LWECiphertext>)
    requires Distinct(inputs)
    ensures Names(inputs) == Iota(|inputs|)
  {
    forall i | 0 <= i < |inputs|
      ensures Names(inputs)[i] == i
    {
      FirstPlaceIs(inputs, inputs[i], 0, i);
    }
  }

  /** The numbers r are the decryptions of cts. */
  ghost predicate Decodings(sk: PrivateKey, cts: seq<Ct>, r: seq<nat>) {
    && sk.modulus > 0 && |r| == |cts| && forall i {:trigger r[i]} :: 0 <= i < |r| ==>
        |cts[i].a| == |sk.element| && r[i] == Decode(Phase(cts[i], sk.element), sk.modulus)
  }

  method DecryptAll(sk: PrivateKey, wires: seq<LWECiphertext>) returns (r: seq<nat>)
    requires 0 < sk.modulus <= WORD_SIZE / 4 && WordsFit(0, |sk.element|, sk.modulus)
    requires forall i {:trigger wires[i]} :: 0 <= i < |wires| ==>
        |wires[i].a| == |sk.element| && wires[i].b < sk.modulus
    ensures Decodings(sk, Values(wires), r)
  {
    r := [];
    for i := 0 to |wires|
      invariant |r| == i && forall l {:trigger r[l]} :: 0 <= l < i ==>
          r[l] == Decode(Phase(wires[l].Value(), sk.element), sk.modulus)
    {
      var m := Decrypt(sk, wires[i]);
      r := r + [m];
    }
    forall i {:trigger r[i]} | 0 <= i < |r|
      ensures |Values(wires)[i].a| == |sk.element|
      ensures r[i] == Decode(Phase(Values(wires)[i], sk.element), sk.modulus)
    {
      assert Values(wires)[i] == wires[i].Value();
    }
  }

  /** The errors of all bootstrappings of the program, run on distinct inputs, are small enough. */
  ghost predicate ProgramFits(w: World, prog: Program, cts: seq<Ct>) {
    // A match in place of selectors keeps the definition folded in proofs.
    match w
    case World(ps, bk, ks, _, _, _, _, _) =>
      CanRun(ps, bk, ks, prog, 0, Iota(|cts|), cts) && RunFits(w, prog, 0, Iota(|cts|), cts)
  }

  lemma ProgramStarts(w: World, ek: EvalKey, prog: Program, cts: seq<Ct>, bits: seq<bool>, beta: nat)
    requires Shaped(w) && EnvEncodes(w.ps, cts, w.s, bits, beta) && WellFormed(prog, 0, |cts|)
    requires ek == EvalKey(Some(w.bk), Some(w.ks))
    ensures CanRunOn(w.ps, ek, prog, 0, Iota(|cts|), cts)
  {
    ShapedIs(w);
  }

  lemma ProgramFitsAlways(w: World, prog: Program, cts: seq<Ct>)
    requires Works(w) && CanRun(w.ps, w.bk, w.ks, prog, 0, Iota(|cts|), cts)
    ensures ProgramFits(w, prog, cts)
  {
    RunFitsAlways(w, prog, 0, Iota(|cts|), cts);
  }

  /** Decryption of the wires gives the bits. */
  ghost predicate Decrypted(sk: PrivateKey, cts: seq<Ct>, bits: seq<bool>) {
    && sk.modulus > 0 && |cts| == |bits| && forall i {:trigger cts[i]} :: 0 <= i < |cts| ==>
        |cts[i].a| == |sk.element| && Decode(Phase(cts[i], sk.element), sk.modulus) == Bit(bits[i])
  }

  /** Legal programs succeed, and if the errors fit the wires decrypt to the plaintext bits. */
  ghost predicate ProgramOutcome(w: World, sk: PrivateKey, prog: Program, cts: seq<Ct>, bits: seq<bool>,
                                 r: Result<seq<Ct>>) {
    // A match in place of selectors keeps the definition folded in proofs.
    match w
    case World(ps, _, _, _, _, _, _, _) =>
      && |cts| == |bits| && WellFormed(prog, 0, |bits|)
      && (r.Success? <==> Legal(prog, 0, Iota(|bits|)))
      && (r.Success? ==> Usable(ps, r.value) && |r.value| == |PlainRun(prog, 0, bits)|)
      && (r.Success? && (ProgramFits(w, prog, cts) || Works(w)) ==> Decrypted(sk, r.value, PlainRun(prog, 0, bits)))
  }

  /** A legal program on fresh encryptions ends with encryptions of its plaintext bits. */
  lemma ProgramCorrect(w: World, ek: EvalKey, sk: PrivateKey, prog: Program, cts: seq<Ct>, bits: seq<bool>, beta: nat)
    requires Consistent(w, sk, beta) && EnvEncodes(w.ps, cts, w.s, bits, beta)
    requires |cts| == |bits| && WellFormed(prog, 0, |cts|) && ek == EvalKey(Some(w.bk), Some(w.ks))
    ensures CanRunOn(w.ps, ek, prog, 0, Iota(|cts|), cts)
    ensures ProgramOutcome(w, sk, prog, cts, bits, RunOn(w.ps, ek, prog, 0, Iota(|cts|), cts))
  {
    ProgramStarts(w, ek, prog, cts, bits, beta);
    RunFails(w.ps, w.bk, w.ks, prog, 0, Iota(|cts|), cts);
    RunUsable(w.ps, w.bk, w.ks, prog, 0, Iota(|cts|), cts);
    if Works(w) {
      ProgramFitsAlways(w, prog, cts);
    }
    if Legal(prog, 0, Iota(|cts|)) && ProgramFits(w, prog, cts) {
      RunDecrypts(w, sk, prog, 0, Iota(|cts|), cts, bits, beta);
    }
  }

  /** r holds the decryptions of all wires that running prog on cts gives, or its error. */
  ghost predicate RunsTo(w: World, sk: PrivateKey, prog: Program, cts: seq<Ct>, r: Result<seq<nat>>) {
    // A match in place of selectors keeps the definition folded in proofs.
    match w
    case World(ps, bk, ks, _, _, _, _, _) =>
      CanRun(ps, bk, ks, prog, 0, Iota(|cts|), cts) && match Run(ps, bk, ks, prog, 0, Iota(|cts|), cts)
      case Failure(e) => r == Failure(e)
      case Success(out) => r.Success? && Decodings(sk, out, r.value)
  }

  lemma RunsToIntro(w: World, ek: EvalKey, sk: PrivateKey, prog: Program, cts: seq<Ct>, out: Result<seq<Ct>>,
                    r: Result<seq<nat>>)
    requires ek == EvalKey(Some(w.bk), Some(w.ks)) && CanRunOn(w.ps, ek, prog, 0, Iota(|cts|), cts)
    requires out == RunOn(w.ps, ek, prog, 0, Iota(|cts|), cts)
    requires out.Failure? ==> r == Failure(out.error)
    requires out.Success? ==> r.Success? && Decodings(sk, out.value, r.value)
    ensures RunsTo(w, sk, prog, cts, r)
  {
  }

  /** Those are the plaintext bits if the errors of the run fit. */
  lemma RunsToPlain(w: World, sk: PrivateKey, prog: Program, cts: seq<Ct>, bits: seq<bool>, r: Result<seq<nat>>,
                    beta: nat)
    requires Consistent(w, sk, beta) && RunsTo(w, sk, prog, cts, r) && EnvEncodes(w.ps, cts, w.s, bits, beta)
    requires |cts| == |bits| && WellFormed(prog, 0, |bits|)
    ensures r.Success? <==> Legal(prog, 0, Iota(|bits|))
    ensures r.Success? ==> |r.value| == |PlainRun(prog, 0, bits)|
    ensures r.Success? && (ProgramFits(w, prog, cts) || Works(w)) ==>
        forall i {:trigger r.value[i]} :: 0 <= i < |r.value| ==> r.value[i] == Bit(PlainRun(prog, 0, bits)[i])
  {
    ProgramCorrect(w, EvalKey(Some(w.bk), Some(w.ks)), sk, prog, cts, bits, beta);
  }

  /** The run itself, on distinct objects. */
  method RunFresh(params: RingGSWCryptoParams, ek: EvalKey, ghost sk: PrivateKey, prog: Program, ghost bits: seq<bool>,
                  inputs: seq<LWECiphertext>, ghost w: World, ghost beta: nat)
    returns (out: Result<seq<LWECiphertext>>, ghost value: Result<seq<Ct>>)
    requires Ready(params) && w.ps == params.Set() && Consistent(w, sk, beta) && ek == EvalKey(Some(w.bk), Some(w.ks))
    requires Distinct(inputs) && EnvEncodes(w.ps, Values(inputs), w.s, bits, beta) && WellFormed(prog, 0, |bits|)
    ensures CanRunOn(w.ps, ek, prog, 0, Iota(|Values(inputs)|), Values(inputs))
    ensures value == RunOn(w.ps, ek, prog, 0, Iota(|Values(inputs)|), Values(inputs))
    ensures value == if out.Failure? then Failure(out.error) else Success(Values(out.value))
    ensures out.Success? ==> Usable(w.ps, Values(out.value))
  {
    DistinctNames(inputs);
    ProgramCorrect(w, ek, sk, prog, Values(inputs), bits, beta);
    out := RunProgram(params, ek, prog, inputs);
    value := if out.Failure? then Failure(out.error) else Success(Values(out.value));
  }

  /**
   Encrypt, run, decrypt all wires: for every program that never gives a gate one object twice, the plaintext bits, if
   the errors of all bootstrappings of this run fit, as they always do with keys whose worst-case errors fit.
   */
  method RunSession(params: RingGSWCryptoParams, ek: EvalKey, sk: PrivateKey, prog: Program, bits: seq<bool>,
                    sampleA: nat -> seq<nat>, sampleE: nat -> nat, ghost w: World, ghost beta: nat)
    returns (r: Result<seq<nat>>)
    requires Ready(params) && w.ps == params.Set() && Consistent(w, sk, beta) && ek == EvalKey(Some(w.bk), Some(w.ks))
    requires InputSamples(sampleA, sampleE, sk, beta) && WellFormed(prog, 0, |bits|)
    ensures RunsTo(w, sk, prog, FreshCts(sk, bits, sampleA, sampleE), r)
    ensures r.Success? <==> Legal(prog, 0, Iota(|bits|))
    ensures r.Success? ==> |r.value| == |PlainRun(prog, 0, bits)|
    ensures r.Success? && (ProgramFits(w, prog, FreshCts(sk, bits, sampleA, sampleE)) || Works(w)) ==>
        forall i {:trigger r.value[i]} :: 0 <= i < |r.value| ==> r.value[i] == Bit(PlainRun(prog, 0, bits)[i])
  {
    FreshEnvEncodes(w, sk, bits, sampleA, sampleE, beta);
    var inputs := EncryptBits(sk, bits, sampleA, sampleE);
    ghost var cts := Values(inputs);
    var out, value := RunFresh(params, ek, sk, prog, bits, inputs, w, beta);
    if out.Failure? {
      r := Failure(out.error);
    } else {
      WiresUsable(params.Set(), out.value);
      var plain := DecryptAll(sk, out.value);
      r := Success(plain);
    }
    RunsToIntro(w, ek, sk, prog, cts, value, r);
    RunsToPlain(w, sk, prog, cts, bits, r, beta);
  }

  lemma WiresUsable(ps: ParamSet, wires: seq<LWECiphertext>)
    requires Usable(ps, Values(wires))
    ensures forall i {:trigger wires[i]} :: 0 <= i < |wires| ==> |wires[i].a| == ps.n && wires[i].b < ps.q
  {
    forall i {:trigger wires[i]} | 0 <= i < |wires|
      ensures |wires[i].a| == ps.n && wires[i].b < ps.q
    {
      WireUsable(ps, wires, i);
    }
  }

  // ---------- the hypotheses can hold together ----------

  lemma SampleKeyWords(variant: Method)
    ensures Supported(SampleSet(variant)) && KeyWordsFit(SampleSet(variant))
  {
    SampleSupported(variant);
    SampleDigits();
    SamplePowers();
    MultipleIs(32, SAMPLE_Q - 1);
  }

  lemma SampleInputWords(variant: Method)
    ensures WordsFit(2 * SampleSet(variant).q, SampleSet(variant).n, SampleSet(variant).q)
  {
    MultipleIs(32, 1023);
  }

  lemma SampleCreation()
    ensures SAMPLE_Q < Pow2(60) && IsPowerOfTwo(1024) && Log2(1024) <= 64
  {
    Pow2Add(15, 15);
    Pow2Add(30, 30);
    SmallPowers();
  }

  lemma SmallPowers()
    ensures Pow2(15) == 32768 && IsPowerOfTwo(1024) && Log2(1024) <= 64
  {
    assert Pow2(5) == 32 && Pow2(10) == 1024;
    assert IsPowerOfTwo(32) && Log2(32) == 5;
  }

  /** Samples that are all zero are small. */
  lemma ZeroSamples(ps: ParamSet, rows: Sampler, gsw: GswSamples, beta: nat)
    requires Supported(ps) && (forall l {:trigger rows(l)} :: rows(l) == Zero(ps.N))
             && (forall i, j, k {:trigger gsw(i, j, k)} :: gsw(i, j, k) == rows)
    ensures SampleShapes(ps, gsw, gsw) && SmallSamples(ps, gsw, beta)
  {
    NearPolyRefl(Zero(ps.N), Zero(ps.N), ps.Q);
  }

  /** The secret with all coefficients 1. */
  function OnesKey(n: nat, q: nat): (r: PrivateKey)
    ensures |r.element| == n && r.modulus == q && forall i {:trigger r.element[i]} :: 0 <= i < n ==> r.element[i] == 1
  {
    PrivateKey(seq(n, i => 1), q)
  }

  lemma OnesTernary(n: nat, q: nat)
    requires q >= 2
    ensures Bounded(SignedKey(OnesKey(n, q)), 1)
  {
  }

  /** Generated keys and the hypotheses that they meet for zero samples. */
  method ZeroNoiseKeys(params: RingGSWCryptoParams, sk: PrivateKey, skN: PrivateKey, ghost beta: nat,
                       ghost betaOut: nat) returns (ek: EvalKey)
    requires Ready(params) && params.lwe.Q < WORD_SIZE && RingSecret(params.Set(), skN)
    requires |sk.element| == params.lwe.n && sk.modulus == params.lwe.q && Bounded(SignedKey(sk), 1)
    requires KeyWordsFit(params.Set()) && OutputFits(params.Set(), beta, beta, betaOut) && INT_SIZE % params.lwe.q == 0
    ensures HasKeys(ek)
    ensures Works(World(params.Set(), ek.BSkey.value, ek.KSkey.value, SignedKey(sk), SignedKey(skN), beta, beta,
                        betaOut))
  {
    var N, n := params.lwe.N, params.lwe.n;
    var rows: Sampler := l => Zero(N);
    var gsw: GswSamples := (i, j, k) => rows;
    var ksA: (nat, nat, nat) -> seq<nat> := (i, j, k) => Zero(n);
    var ksE: (nat, nat, nat) -> nat := (i, j, k) => 0;
    ZeroSamples(params.Set(), rows, gsw, beta);
    DistLe(0, 0, 0, params.lwe.Q);
    ek := GenerateKeys(params, sk, skN, gsw, ksA, ksE, beta);
    GeneratedKeysWork(params.Set(), ek, sk, skN, beta, beta, betaOut, ksA, ksE);
  }

  /** Key generation for a ternary secret, by the method of the parameters. */
  method GenerateKeys(params: RingGSWCryptoParams, sk: PrivateKey, skN: PrivateKey, gsw: GswSamples,
                      ksA: (nat, nat, nat) -> seq<nat>, ksE: (nat, nat, nat) -> nat, ghost beta: nat)
    returns (ek: EvalKey)
    requires Ready(params) && params.lwe.Q < WORD_SIZE && RingSecret(params.Set(), skN) && INT_SIZE % params.lwe.q == 0
    requires |sk.element| == params.lwe.n && sk.modulus == params.lwe.q && Bounded(SignedKey(sk), 1)
    requires SampleShapes(params.Set(), gsw, gsw) && SmallSamples(params.Set(), gsw, beta)
    requires forall i, j, k :: |ksA(i, j, k)| == params.lwe.n && ksE(i, j, k) < params.lwe.Q
    ensures HasKeys(ek)
    ensures FreshKey(params.Set(), ek.KSkey.value, sk, skN, params.lwe.N, ksA, ksE)
    ensures IsBootKey(params.Set(), ek.BSkey.value, SignedKey(sk), SignedKey(skN), beta)
  {
    match params.variant {
      case AP =>
        ApMessagesAlwaysFit(params.Set(), sk);
        ek := KeyGenAP(params, sk, skN, gsw, gsw, ksA, ksE, beta);
      case GINX =>
        var keys := KeyGenGINX(params, sk, skN, gsw, gsw, ksA, ksE, beta);
        ek := keys.value;
    }
  }

  /** What a noiseless session asks of its parameters. */
  ghost predicate SessionFits(ps: ParamSet, beta: nat, betaOut: nat) {
    match ps
    case ParamSet(n, _, q, Q, _, _, _, _) =>
      && Supported(ps) && Q < WORD_SIZE && q <= WORD_SIZE / 4 && INT_SIZE % q == 0
      && KeyWordsFit(ps) && OutputFits(ps, beta, beta, betaOut) && 32 * betaOut < q && WordsFit(2 * q, n, q)
  }

  lemma SampleSessionFits(ps: ParamSet, variant: Method)
    requires ps == SampleSet(variant)
    ensures SessionFits(ps, 20, 17)
  {
    SampleKeyWords(variant);
    SampleFits(variant);
    SampleInputWords(variant);
  }

  /** A whole session for any parameters that absorb the noise. */
  method ZeroNoiseSession(params: RingGSWCryptoParams, ghost beta: nat, ghost betaOut: nat)
    returns (ek: EvalKey, sk: PrivateKey, ghost w: World)
    requires Ready(params) && SessionFits(params.Set(), beta, betaOut)
    ensures w.ps == params.Set() && Works(w) && Consistent(w, sk, betaOut) && ek == EvalKey(Some(w.bk), Some(w.ks))
  {
    sk := OnesKey(params.lwe.n, params.lwe.q);
    var skN := OnesKey(params.lwe.N, params.lwe.Q);
    OnesTernary(params.lwe.n, params.lwe.q);
    OnesTernary(params.lwe.N, params.lwe.Q);
    ek := ZeroNoiseKeys(params, sk, skN, beta, betaOut);
    w := World(params.Set(), ek.BSkey.value, ek.KSkey.value, SignedKey(sk), SignedKey(skN), beta, beta, betaOut);
    WorldFits(w);
  }

  method SampleParameters(variant: Method) returns (params: RingGSWCryptoParams, ghost beta: nat, ghost betaOut: nat)
    ensures Ready(params) && params.variant == variant && SessionFits(params.Set(), beta, betaOut)
  {
    SampleSupported(variant);
    SampleCreation();
    var lwe := LWECryptoParams.Create(32, 1024, 1024, SAMPLE_Q, 1024);
    var p := RingGSWCryptoParams.Create(lwe.value, 1024, 32, variant);
    params, beta, betaOut := p.value, 20, 17;
    SampleSessionFits(params.Set(), variant);
  }

  /** For both methods, parameters, keys and secrets for which everything that a session asks for holds. */
  method SampleSession(variant: Method)
    returns (params: RingGSWCryptoParams, ek: EvalKey, sk: PrivateKey, ghost w: World, ghost beta: nat)
    ensures Ready(params) && params.variant == variant && w.ps == params.Set() && Works(w) && Consistent(w, sk, beta)
    ensures ek == EvalKey(Some(w.bk), Some(w.ks))
  {
    ghost var betaIn;
    params, betaIn, beta := SampleParameters(variant);
    ek, sk, w := ZeroNoiseSession(params, betaIn, beta);
  }
}
