/**
 Whole circuits: homomorphic evaluation of any Boolean circuit decrypts to its plaintext
 value, because every bootstrapped gate resets the noise to one fixed bound.
 */
module Circuits {
  import opened Arith
  import opened Poly
  import opened Params
  import opened BlindRotate
  import opened Lwe
  import opened Switching
  import opened Refresh
  import opened Gates

  datatype Circuit =
    | Input(i: nat)
    | Constant(v: bool)
    | Not(c: Circuit)
    | Boot(c: Circuit)
    | Binary(gate: Gate, l: Circuit, r: Circuit)

  function PlainEval(c: Circuit, bits: seq<bool>): bool
    requires InputsBelow(c, |bits|)
  {
    match c
    case Input(i) => bits[i]
    case Constant(v) => v
    case Not(d) => !PlainEval(d, bits)
    case Boot(d) => PlainEval(d, bits)
    case Binary(gate, l, r) => GateBit(gate, PlainEval(l, bits), PlainEval(r, bits))
  }

  predicate InputsBelow(c: Circuit, n: nat) {
    match c
    case Input(i) => i < n
    case Constant(_) => true
    case Not(d) => InputsBelow(d, n)
    case Boot(d) => InputsBelow(d, n)
    case Binary(_, l, r) => InputsBelow(l, n) && InputsBelow(r, n)
  }

  function ConstantValue(ps: ParamSet, v: bool): (r: Ct)
    ensures |r.a| == ps.n
  {
    Ct(Zero(ps.n), if v then ps.q / 4 else 0)
  }

  lemma ConstantEncodes(ps: ParamSet, s: Poly, v: bool)
    requires Supported(ps) && |s| == ps.n
    ensures InRange(ConstantValue(ps, v), ps.q) && Encodes(ps, ConstantValue(ps, v), s, v, 0)
  {
    ZeroInner(Zero(ps.n), s);
    NearIntro(Phase(ConstantValue(ps, v), s), Quarter(v, ps.q), 0, 0, ps.q);
  }

  /** A gate refuses one and the same ciphertext object as both operands: only inputs are ever shared. */
  predicate SameObject(l: Circuit, r: Circuit) {
    l.Input? && l == r
  }

  predicate Independent(c: Circuit) {
    match c
    case Input(_) => true
    case Constant(_) => true
    case Not(d) => Independent(d)
    case Boot(d) => Independent(d)
    case Binary(_, l, r) => !SameObject(l, r) && Independent(l) && Independent(r)
  }

  predicate Usable(ps: ParamSet, env: seq<Ct>) {
    match ps
    case ParamSet(n, _, q, _, _, _, _, _) =>
      q > 0 && forall i {:trigger env[i]} :: 0 <= i < |env| ==> |env[i].a| == n && InRange(env[i], q)
  }

  const SAME_OPERANDS := "ERROR: Please only use independent ciphertexts as inputs."

  function HomEval(ps: ParamSet, bk: BTKey, ks: SwitchKey, c: Circuit, env: seq<Ct>): (r: Result<Ct>)
    requires Supported(ps) && KeyShape(ps, bk) && SwitchShape(ps, ks) && Usable(ps, env) && InputsBelow(c, |env|)
    ensures r.Success? ==> |r.value.a| == ps.n && InRange(r.value, ps.q)
  {
    match c
    case Input(i) => Success(env[i])
    case Constant(v) =>
      var k := ConstantValue(ps, v);
      assert InRange(k, ps.q);
      Success(k)
    case Not(d) => HomNot(ps, HomEval(ps, bk, ks, d, env))
    case Boot(d) => HomBoot(ps, bk, ks, HomEval(ps, bk, ks, d, env))
    case Binary(gate, l, r) =>
      HomGate(ps, bk, ks, gate, SameObject(l, r), HomEval(ps, bk, ks, l, env), HomEval(ps, bk, ks, r, env))
  }

  predicate Fresh(ps: ParamSet, x: Result<Ct>) {
    x.Success? ==> |x.value.a| == ps.n && InRange(x.value, ps.q)
  }

  function HomNot(ps: ParamSet, x: Result<Ct>): (r: Result<Ct>)
    requires Fresh(ps, x)
    ensures Fresh(ps, r)
  {
    match x
    case Failure(e) => Failure(e)
    case Success(ct) => Success(NotValue(ct, ps.q))
  }

  function HomBoot(ps: ParamSet, bk: BTKey, ks: SwitchKey, x: Result<Ct>): (r: Result<Ct>)
    requires Supported(ps) && KeyShape(ps, bk) && SwitchShape(ps, ks) && Fresh(ps, x)
    ensures Fresh(ps, r)
  {
    match x
    case Failure(e) => Failure(e)
    case Success(ct) => Success(BootstrapCt(ps, bk, ks, ct))
  }

  function HomGate(ps: ParamSet, bk: BTKey, ks: SwitchKey, gate: Gate, same: bool, x: Result<Ct>, y: Result<Ct>)
    : (r: Result<Ct>)
    requires Supported(ps) && KeyShape(ps, bk) && SwitchShape(ps, ks) && Fresh(ps, x) && Fresh(ps, y)
    ensures Fresh(ps, r)
  {
    if x.Failure? then x
    else if y.Failure? then y
    else if same then Failure(SAME_OPERANDS)
    else Success(EvalGate(ps, bk, ks, gate, x.value, y.value))
  }

  /** Evaluation fails for precisely the circuits that use one input as both operands of a gate. */
  lemma {:induction false} HomEvalFails(ps: ParamSet, bk: BTKey, ks: SwitchKey, c: Circuit, env: seq<Ct>)
    requires Supported(ps) && KeyShape(ps, bk) && SwitchShape(ps, ks) && Usable(ps, env) && InputsBelow(c, |env|)
    ensures HomEval(ps, bk, ks, c, env).Success? <==> Independent(c)
  {
    match c
    case Input(_) =>
    case Constant(_) =>
    case Not(d) => HomEvalFails(ps, bk, ks, d, env);
    case Boot(d) => HomEvalFails(ps, bk, ks, d, env);
    case Binary(_, l, r) =>
      HomEvalFails(ps, bk, ks, l, env);
      HomEvalFails(ps, bk, ks, r, env);
  }

  // ---------- what the nodes compute ----------

  lemma HomEvalNot(ps: ParamSet, bk: BTKey, ks: SwitchKey, d: Circuit, env: seq<Ct>)
    requires Supported(ps) && KeyShape(ps, bk) && SwitchShape(ps, ks) && Usable(ps, env) && InputsBelow(d, |env|)
    requires HomEval(ps, bk, ks, d, env).Success?
    ensures HomEval(ps, bk, ks, Not(d), env) == Success(NotValue(HomEval(ps, bk, ks, d, env).value, ps.q))
  {
  }

  lemma HomEvalBoot(ps: ParamSet, bk: BTKey, ks: SwitchKey, d: Circuit, env: seq<Ct>)
    requires Supported(ps) && KeyShape(ps, bk) && SwitchShape(ps, ks) && Usable(ps, env) && InputsBelow(d, |env|)
    requires HomEval(ps, bk, ks, d, env).Success?
    ensures HomEval(ps, bk, ks, Boot(d), env) == Success(BootstrapCt(ps, bk, ks, HomEval(ps, bk, ks, d, env).value))
  {
    HomBootSucceeds(ps, bk, ks, HomEval(ps, bk, ks, d, env));
  }

  lemma HomBootSucceeds(ps: ParamSet, bk: BTKey, ks: SwitchKey, x: Result<Ct>)
    requires Supported(ps) && KeyShape(ps, bk) && SwitchShape(ps, ks) && Fresh(ps, x) && x.Success?
    ensures HomBoot(ps, bk, ks, x) == Success(BootstrapCt(ps, bk, ks, x.value))
  {
  }

  lemma HomEvalBinary(ps: ParamSet, bk: BTKey, ks: SwitchKey, gate: Gate, l: Circuit, r: Circuit, env: seq<Ct>)
    requires Supported(ps) && KeyShape(ps, bk) && SwitchShape(ps, ks) && Usable(ps, env)
    requires InputsBelow(Binary(gate, l, r), |env|) && !SameObject(l, r)
    requires HomEval(ps, bk, ks, l, env).Success? && HomEval(ps, bk, ks, r, env).Success?
    ensures HomEval(ps, bk, ks, Binary(gate, l, r), env)
         == Success(EvalGate(ps, bk, ks, gate, HomEval(ps, bk, ks, l, env).value, HomEval(ps, bk, ks, r, env).value))
  {
    HomGateSucceeds(ps, bk, ks, gate, SameObject(l, r), HomEval(ps, bk, ks, l, env), HomEval(ps, bk, ks, r, env));
  }

  lemma HomGateSucceeds(ps: ParamSet, bk: BTKey, ks: SwitchKey, gate: Gate, same: bool, x: Result<Ct>, y: Result<Ct>)
    requires Supported(ps) && KeyShape(ps, bk) && SwitchShape(ps, ks) && Fresh(ps, x) && Fresh(ps, y)
    requires x.Success? && y.Success? && !same
    ensures HomGate(ps, bk, ks, gate, same, x, y) == Success(EvalGate(ps, bk, ks, gate, x.value, y.value))
  {
  }

  // ---------- correctness ----------

  /** Noise beta fits every gate of the circuit. */
  predicate CircuitMargins(c: Circuit, beta: nat, betaOut: nat, q: nat) {
    match c
    case Input(_) => true
    case Constant(_) => true
    case Not(d) => CircuitMargins(d, beta, betaOut, q)
    case Boot(d) => 8 * beta < q && CircuitMargins(d, beta, betaOut, q)
    case Binary(gate, l, r) =>
      Margins(gate, beta, betaOut, q) && CircuitMargins(l, beta, betaOut, q) && CircuitMargins(r, beta, betaOut, q)
  }

  /** One inequality is enough for every circuit; 16 instead of 32 is enough without the fast gates. */
  lemma {:induction false} OneMarginFitsAll(c: Circuit, beta: nat, betaOut: nat, q: nat)
    requires betaOut <= beta && 32 * beta < q
    ensures CircuitMargins(c, beta, betaOut, q)
  {
    match c
    case Input(_) =>
    case Constant(_) =>
    case Not(d) => OneMarginFitsAll(d, beta, betaOut, q);
    case Boot(d) => OneMarginFitsAll(d, beta, betaOut, q);
    case Binary(_, l, r) =>
      OneMarginFitsAll(l, beta, betaOut, q);
      OneMarginFitsAll(r, beta, betaOut, q);
  }

  ghost predicate EnvEncodes(ps: ParamSet, env: seq<Ct>, s: Poly, bits: seq<bool>, beta: nat) {
    // A match in place of selectors keeps the definition folded in proofs.
    match ps
    case ParamSet(_, _, _, _, _, _, _, _) =>
      |env| == |bits| && Usable(ps, env) && forall i {:trigger env[i]} :: 0 <= i < |env| ==>
          Encodes(ps, env[i], s, bits[i], beta)
  }

  lemma EncodesMore(ps: ParamSet, ct: Ct, s: Poly, m: bool, beta: nat, beta': nat)
    requires Encodes(ps, ct, s, m, beta) && beta <= beta'
    ensures Encodes(ps, ct, s, m, beta')
  {
  }

  /** The result of evaluating c encodes its plaintext value with noise at most beta. */
  ghost predicate Right(w: World, c: Circuit, env: seq<Ct>, bits: seq<bool>, beta: nat) {
    match w
    case World(ps, bk, ks, s, _, _, _, _) =>
      && Supported(ps) && KeyShape(ps, bk) && SwitchShape(ps, ks) && Usable(ps, env)
      && InputsBelow(c, |env|) && |env| == |bits|
      && HomEval(ps, bk, ks, c, env).Success?
      && Encodes(ps, HomEval(ps, bk, ks, c, env).value, s, PlainEval(c, bits), beta)
  }

  lemma NotRight(w: World, d: Circuit, env: seq<Ct>, bits: seq<bool>, beta: nat)
    requires Right(w, d, env, bits, beta)
    ensures Right(w, Not(d), env, bits, beta)
  {
    HomEvalNot(w.ps, w.bk, w.ks, d, env);
    NotEncodes(w.ps, HomEval(w.ps, w.bk, w.ks, d, env).value, w.s, PlainEval(d, bits), PlainEval(Not(d), bits), beta);
  }

  lemma BootRight(w: World, d: Circuit, env: seq<Ct>, bits: seq<bool>, beta: nat)
    requires Right(w, d, env, bits, beta) && 8 * beta < w.ps.q
    requires BootFits(w, GateStart(AND, w.ps.q), AddQuarter(HomEval(w.ps, w.bk, w.ks, d, env).value, w.ps.q))
    ensures Right(w, Boot(d), env, bits, w.betaOut)
  {
    HomEvalBoot(w.ps, w.bk, w.ks, d, env);
    BootstrapActual(w, HomEval(w.ps, w.bk, w.ks, d, env).value, PlainEval(d, bits), beta);
    RightIntro(w, Boot(d), env, bits, BootstrapCt(w.ps, w.bk, w.ks, HomEval(w.ps, w.bk, w.ks, d, env).value),
               PlainEval(d, bits), w.betaOut);
  }

  lemma RightIntro(w: World, c: Circuit, env: seq<Ct>, bits: seq<bool>, ct: Ct, bit: bool, beta: nat)
    requires Supported(w.ps) && KeyShape(w.ps, w.bk) && SwitchShape(w.ps, w.ks) && Usable(w.ps, env)
    requires InputsBelow(c, |env|) && |env| == |bits| && HomEval(w.ps, w.bk, w.ks, c, env) == Success(ct)
    requires bit == PlainEval(c, bits) && Encodes(w.ps, ct, w.s, bit, beta)
    ensures Right(w, c, env, bits, beta)
  {
  }

  /** However noisy its operands are within the margins, a gate leaves noise betaOut. */
  lemma BinaryRight(w: World, gate: Gate, l: Circuit, r: Circuit, env: seq<Ct>, bits: seq<bool>, beta: nat)
    requires Right(w, l, env, bits, beta) && Right(w, r, env, bits, beta)
    requires !SameObject(l, r) && Margins(gate, beta, w.betaOut, w.ps.q)
    requires GateFits(w, gate, HomEval(w.ps, w.bk, w.ks, l, env).value, HomEval(w.ps, w.bk, w.ks, r, env).value)
    ensures Right(w, Binary(gate, l, r), env, bits, w.betaOut)
  {
    HomEvalBinary(w.ps, w.bk, w.ks, gate, l, r, env);
    GateActual(w, gate, HomEval(w.ps, w.bk, w.ks, l, env).value, HomEval(w.ps, w.bk, w.ks, r, env).value,
                PlainEval(l, bits), PlainEval(r, bits), beta);
  }

  lemma RightMore(w: World, c: Circuit, env: seq<Ct>, bits: seq<bool>, beta: nat, beta': nat)
    requires Right(w, c, env, bits, beta) && beta <= beta'
    ensures Right(w, c, env, bits, beta')
  {
    EncodesMore(w.ps, HomEval(w.ps, w.bk, w.ks, c, env).value, w.s, PlainEval(c, bits), beta, beta');
  }

  /** Keys, inputs and circuit fit together. */
  ghost predicate CanEval(w: World, c: Circuit, env: seq<Ct>) {
    // A match in place of selectors keeps the definition folded in proofs.
    match w
    case World(ps, bk, ks, _, _, _, _, _) =>
      && Shaped(w) && Supported(ps) && KeyShape(ps, bk) && SwitchShape(ps, ks) && Usable(ps, env)
      && InputsBelow(c, |env|)
  }

  lemma CanEvalIs(w: World, c: Circuit, env: seq<Ct>)
    requires CanEval(w, c, env)
    ensures Shaped(w) && Supported(w.ps) && KeyShape(w.ps, w.bk) && SwitchShape(w.ps, w.ks) && Usable(w.ps, env)
    ensures InputsBelow(c, |env|) && |w.s| == w.ps.n
  {
    ShapedIs(w);
  }

  /** The errors that occur when d is evaluated and the result is bootstrapped are small enough for betaOut. */
  ghost predicate BootStepFits(w: World, d: Circuit, env: seq<Ct>) {
    match w
    case World(ps, bk, ks, _, _, _, _, _) =>
      CanEval(w, d, env) && match HomEval(ps, bk, ks, d, env)
      case Failure(_) => true
      case Success(x) => BootFits(w, GateStart(AND, ps.q), AddQuarter(x, ps.q))
  }

  /** The same for a gate and its operands. */
  ghost predicate GateStepFits(w: World, gate: Gate, l: Circuit, r: Circuit, env: seq<Ct>) {
    match w
    case World(ps, bk, ks, _, _, _, _, _) =>
      && CanEval(w, l, env) && CanEval(w, r, env)
      && var x, y := HomEval(ps, bk, ks, l, env), HomEval(ps, bk, ks, r, env);
         x.Success? && y.Success? ==> GateFits(w, gate, x.value, y.value)
  }

  /** The errors of all bootstrappings that the evaluation of c performs are small enough. */
  ghost predicate CircuitFits(w: World, c: Circuit, env: seq<Ct>) {
    match c
    case Input(_) => true
    case Constant(_) => true
    case Not(d) => CircuitFits(w, d, env)
    case Boot(d) => CircuitFits(w, d, env) && BootStepFits(w, d, env)
    case Binary(gate, l, r) => CircuitFits(w, l, env) && CircuitFits(w, r, env) && GateStepFits(w, gate, l, r, env)
  }

  /**
   Whatever the keys and the parameters are: circuits of any size and depth are evaluated correctly, if the errors of
   all bootstrappings of this evaluation fit.
   */
  lemma {:induction false} CircuitActual(w: World, c: Circuit, env: seq<Ct>, bits: seq<bool>, beta: nat)
    requires CanEval(w, c, env) && CircuitFits(w, c, env) && w.betaOut <= beta
    requires EnvEncodes(w.ps, env, w.s, bits, beta) && Independent(c) && CircuitMargins(c, beta, w.betaOut, w.ps.q)
    ensures Right(w, c, env, bits, beta)
  {
    CanEvalIs(w, c, env);
    match c
    case Input(i) =>
      assert Encodes(w.ps, env[i], w.s, bits[i], beta);
    case Constant(v) =>
      ConstantEncodes(w.ps, w.s, v);
      EncodesMore(w.ps, ConstantValue(w.ps, v), w.s, v, 0, beta);
    case Not(d) =>
      CircuitActual(w, d, env, bits, beta);
      NotRight(w, d, env, bits, beta);
    case Boot(d) =>
      CircuitActual(w, d, env, bits, beta);
      BootRight(w, d, env, bits, beta);
      RightMore(w, c, env, bits, w.betaOut, beta);
    case Binary(gate, l, r) =>
      CircuitActual(w, l, env, bits, beta);
      CircuitActual(w, r, env, bits, beta);
      BinaryRight(w, gate, l, r, env, bits, beta);
      RightMore(w, c, env, bits, w.betaOut, beta);
  }

  /** Such a circuit decrypts, with the stored secret key, to the plaintext result. */
  lemma CircuitActualDecrypts(w: World, sk: PrivateKey, c: Circuit, env: seq<Ct>, bits: seq<bool>, beta: nat)
    requires CanEval(w, c, env) && CircuitFits(w, c, env) && w.betaOut <= beta && 32 * beta < w.ps.q
    requires EnvEncodes(w.ps, env, w.s, bits, beta) && Independent(c) && sk.modulus == w.ps.q && SignedKey(sk) == w.s
    ensures Supported(w.ps) && KeyShape(w.ps, w.bk) && SwitchShape(w.ps, w.ks) && Usable(w.ps, env)
    ensures InputsBelow(c, |env|) && |env| == |bits|
    ensures var r := HomEval(w.ps, w.bk, w.ks, c, env);
            r.Success? && |r.value.a| == |sk.element|
                && Decode(Phase(r.value, sk.element), sk.modulus) == Bit(PlainEval(c, bits))
  {
    OneMarginFitsAll(c, beta, w.betaOut, w.ps.q);
    CircuitActual(w, c, env, bits, beta);
    EncodedDecrypts(w.ps, HomEval(w.ps, w.bk, w.ks, c, env).value, w.s, PlainEval(c, bits), beta);
    StoredDecodes(HomEval(w.ps, w.bk, w.ks, c, env).value, sk);
  }

  /** With keys whose worst-case errors fit, the errors of every evaluation do. */
  lemma {:induction false} CircuitFitsAlways(w: World, c: Circuit, env: seq<Ct>)
    requires Works(w) && CanEval(w, c, env)
    ensures CircuitFits(w, c, env)
  {
    match c
    case Input(_) =>
    case Constant(_) =>
    case Not(d) =>
      CircuitFitsAlways(w, d, env);
    case Boot(d) =>
      CircuitFitsAlways(w, d, env);
      BootStepFitsAlways(w, d, env);
    case Binary(gate, l, r) =>
      CircuitFitsAlways(w, l, env);
      CircuitFitsAlways(w, r, env);
      GateStepFitsAlways(w, gate, l, r, env);
  }

  lemma BootStepFitsAlways(w: World, d: Circuit, env: seq<Ct>)
    requires Works(w) && CanEval(w, d, env)
    ensures BootStepFits(w, d, env)
  {
    CanEvalIs(w, d, env);
    var x := HomEval(w.ps, w.bk, w.ks, d, env);
    if x.Success? {
      AlwaysFits(w, GateStart(AND, w.ps.q), AddQuarter(x.value, w.ps.q));
    }
  }

  lemma GateStepFitsAlways(w: World, gate: Gate, l: Circuit, r: Circuit, env: seq<Ct>)
    requires Works(w) && CanEval(w, l, env) && CanEval(w, r, env)
    ensures GateStepFits(w, gate, l, r, env)
  {
    CanEvalIs(w, l, env);
    CanEvalIs(w, r, env);
    var x, y := HomEval(w.ps, w.bk, w.ks, l, env), HomEval(w.ps, w.bk, w.ks, r, env);
    if x.Success? && y.Success? {
      GateFitsAlways(w, gate, x.value, y.value);
    }
  }

  /** With keys whose worst-case errors fit, circuits of any size and depth are evaluated correctly. */
  lemma CircuitCorrect(w: World, c: Circuit, env: seq<Ct>, bits: seq<bool>, beta: nat)
    requires Works(w) && w.betaOut <= beta && EnvEncodes(w.ps, env, w.s, bits, beta)
    requires InputsBelow(c, |env|) && Independent(c) && CircuitMargins(c, beta, w.betaOut, w.ps.q)
    ensures Right(w, c, env, bits, beta)
  {
    WorldFits(w);
    CircuitFitsAlways(w, c, env);
    CircuitActual(w, c, env, bits, beta);
  }

  /** The evaluated circuit decrypts, with the stored secret key, to the plaintext result. */
  lemma CircuitDecrypts(w: World, sk: PrivateKey, c: Circuit, env: seq<Ct>, bits: seq<bool>, beta: nat)
    requires Works(w) && w.betaOut <= beta && 32 * beta < w.ps.q && EnvEncodes(w.ps, env, w.s, bits, beta)
    requires InputsBelow(c, |env|) && Independent(c) && sk.modulus == w.ps.q && SignedKey(sk) == w.s
    ensures Supported(w.ps) && KeyShape(w.ps, w.bk) && SwitchShape(w.ps, w.ks) && Usable(w.ps, env) && |env| == |bits|
    ensures var r := HomEval(w.ps, w.bk, w.ks, c, env);
            r.Success? && |r.value.a| == |sk.element|
                && Decode(Phase(r.value, sk.element), sk.modulus) == Bit(PlainEval(c, bits))
  {
    WorldFits(w);
    CircuitFitsAlways(w, c, env);
    CircuitActualDecrypts(w, sk, c, env, bits, beta);
  }

  lemma StoredDecodes(ct: Ct, sk: PrivateKey)
    requires sk.modulus > 0 && |ct.a| == |sk.element|
    ensures Decode(Phase(ct, sk.element), sk.modulus) == Decode(Phase(ct, SignedKey(sk)), sk.modulus)
  {
    StoredKey(sk);
    PhaseCong(ct, sk.element, SignedKey(sk), sk.modulus);
    DecodeCong(Phase(ct, sk.element), Phase(ct, SignedKey(sk)), sk.modulus);
  }

  // ---------- the inequality can be met ----------

  /** A prime that is 1 modulo 2048. */
  const SAMPLE_Q: nat := 1124799320363009

  /** A parameter set whose worst-case noise fits all margins, for key errors of size up to 20. */
  function SampleSet(variant: Method): ParamSet {
    ParamSet(32, 1024, 1024, SAMPLE_Q, 1024, 1024, 32, variant)
  }

  lemma SamplePowers()
    ensures Pow(1024, 4) == 1099511627776 && Pow(1024, 5) == 1125899906842624 && Pow(32, 1) == 32 && Pow(32, 2) == 1024
  {
    assert Pow(1024, 1) == 1024;
    assert Pow(1024, 2) == 1048576;
    assert Pow(1024, 3) == 1073741824;
  }

  lemma SampleDigits()
    ensures DigitCount(1024, SAMPLE_Q) == 5 && DigitCount(32, 1024) == 2
  {
    SamplePowers();
    DigitCountUnique(1024, SAMPLE_Q, 5);
    DigitCountUnique(32, 1024, 2);
  }

  lemma SampleSupported(variant: Method)
    ensures Supported(SampleSet(variant)) && HasRoot(1024, SAMPLE_Q)
  {
    DividesIs(1024, 2048);
  }

  lemma SampleStep(ps: ParamSet)
    requires ps == SampleSet(ps.variant) && Supported(ps)
    ensures StepError(ps, 20) == 104857600
  {
    SampleDigits();
    SamplePowers();
    SupportedGadget(ps);
    MultipleIs(512, 20);
    MultipleIs(1024, 10240);
    MultipleIs(10, 10485760);
    MultipleIs(1025, 0);
  }

  lemma SampleError(ps: ParamSet)
    requires ps == SampleSet(ps.variant) && Supported(ps)
    ensures SwitchedError(ps, 20, 20) <= 13421875200
  {
    SampleDigits();
    SampleStep(ps);
    MultipleIs(2, 104857600);
    MultipleIs(4, 104857600);
    MultipleIs(32, 209715200);
    MultipleIs(32, 419430400);
    MultipleIs(5, 20);
    MultipleIs(1024, 100);
  }

  lemma SampleFits(variant: Method)
    ensures Supported(SampleSet(variant)) && OutputFits(SampleSet(variant), 20, 20, 17)
            && 32 * 17 < SampleSet(variant).q
  {
    SampleSupported(variant);
    SampleError(SampleSet(variant));
    MultipleIs(32, SAMPLE_Q / 2);
  }
}
