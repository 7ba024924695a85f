/**
 Straight-line programs over wires. A wire holds a ciphertext object, several wires may hold
 the same one, and the result of any instruction may be used again any number of times.
 */
module Programs {
  import opened Poly
  import opened Params
  import opened BlindRotate
  import opened Lwe
  import opened Switching
  import opened Refresh
  import opened Gates
  import opened Circuits
  import opened Accumulators
  import opened KeyGeneration
  import opened Bootstrapping

  /** Every instruction adds one wire; Copy adds one more name of an object. */
  datatype Instruction =
    | Const(bit: bool)
    | Copy(u: nat)
    | Negate(u: nat)
    | Renew(u: nat)
    | Apply(gate: Gate, u: nat, v: nat)

  type Program = seq<Instruction>

  predicate Reads(ins: Instruction, count: nat) {
    match ins
    case Const(_) => true
    case Copy(u) => u < count
    case Negate(u) => u < count
    case Renew(u) => u < count
    case Apply(_, u, v) => u < count && v < count
  }

  /** From instruction pc on, with count wires, only wires that exist are read. */
  predicate WellFormed(prog: Program, pc: nat, count: nat)
    requires pc <= |prog|
    decreases |prog| - pc
  {
    pc < |prog| ==> Reads(prog[pc], count) && WellFormed(prog, pc + 1, count + 1)
  }

  // ---------- the plaintext ----------

  function PlainStep(ins: Instruction, bits: seq<bool>): bool
    requires Reads(ins, |bits|)
  {
    match ins
    case Const(v) => v
    case Copy(u) => bits[u]
    case Negate(u) => !bits[u]
    case Renew(u) => bits[u]
    case Apply(gate, u, v) => GateBit(gate, bits[u], bits[v])
  }

  /** The bits of all wires in the end. */
  function PlainRun(prog: Program, pc: nat, bits: seq<bool>): (r: seq<bool>)
    requires pc <= |prog| && WellFormed(prog, pc, |bits|)
    ensures |r| == |bits| + |prog| - pc
    decreases |prog| - pc
  {
    if pc == |prog| then bits else PlainRun(prog, pc + 1, bits + [PlainStep(prog[pc], bits)])
  }

  // ---------- identities of objects ----------

  /** The identity of the object on the new wire: only Copy does not make an object. */
  function NewId(ins: Instruction, ids: seq<nat>): (r: nat)
    requires Reads(ins, |ids|)
  {
    if ins.Copy? then ids[ins.u] else |ids|
  }

  predicate Clashes(ins: Instruction, ids: seq<nat>)
    requires Reads(ins, |ids|)
  {
    ins.Apply? && ids[ins.u] == ids[ins.v]
  }

  /** No gate gets one object twice. */
  predicate Legal(prog: Program, pc: nat, ids: seq<nat>)
    requires pc <= |prog| && WellFormed(prog, pc, |ids|)
    decreases |prog| - pc
  {
    pc < |prog| ==> !Clashes(prog[pc], ids) && Legal(prog, pc + 1, ids + [NewId(prog[pc], ids)])
  }

  // ---------- the ciphertexts ----------

  /** Keys, wires and what is left of the program fit together. */
  ghost predicate CanRun(ps: ParamSet, bk: BTKey, ks: SwitchKey, prog: Program, pc: nat, ids: seq<nat>, cts: seq<Ct>) {
    // A match in place of selectors keeps the definition folded in proofs.
    match ps
    case ParamSet(_, _, _, _, _, _, _, _) =>
      && Supported(ps) && KeyShape(ps, bk) && SwitchShape(ps, ks) && Usable(ps, cts)
      && pc <= |prog| && |ids| == |cts| && WellFormed(prog, pc, |cts|)
  }

  function Execute(ps: ParamSet, bk: BTKey, ks: SwitchKey, ins: Instruction, clash: bool, cts: seq<Ct>): (r: Result<Ct>)
    requires Supported(ps) && KeyShape(ps, bk) && SwitchShape(ps, ks) && Usable(ps, cts) && Reads(ins, |cts|)
    ensures Fresh(ps, r)
  {
    match ins
    case Const(v) =>
      var k := ConstantValue(ps, v);
      assert InRange(k, ps.q);
      Success(k)
    case Copy(u) => Success(cts[u])
    case Negate(u) => HomNot(ps, Success(cts[u]))
    case Renew(u) => HomBoot(ps, bk, ks, Success(cts[u]))
    case Apply(gate, u, v) => HomGate(ps, bk, ks, gate, clash, Success(cts[u]), Success(cts[v]))
  }

  /** The ciphertexts of all wires in the end, or the first error. */
  function Run(ps: ParamSet, bk: BTKey, ks: SwitchKey, prog: Program, pc: nat, ids: seq<nat>, cts: seq<Ct>)
    : (r: Result<seq<Ct>>)
    requires CanRun(ps, bk, ks, prog, pc, ids, cts)
    decreases |prog| - pc
  {
    if pc == |prog| then Success(cts)
    else
      match Execute(ps, bk, ks, prog[pc], Clashes(prog[pc], ids), cts)
      case Failure(e) => Failure(e)
      case Success(ct) =>
        OneMoreWire(ps, bk, ks, prog, pc, pc + 1, ids, cts, NewId(prog[pc], ids), ct);
        Run(ps, bk, ks, prog, pc + 1, ids + [NewId(prog[pc], ids)], cts + [ct])
  }

  lemma OneMoreWire(ps: ParamSet, bk: BTKey, ks: SwitchKey, prog: Program, pc: nat, pc': nat, ids: seq<nat>,
                    cts: seq<Ct>, id: nat, ct: Ct)
    requires CanRun(ps, bk, ks, prog, pc, ids, cts) && pc < |prog| && pc' == pc + 1
    requires |ct.a| == ps.n && InRange(ct, ps.q)
    ensures CanRun(ps, bk, ks, prog, pc', ids + [id], cts + [ct])
  {
  }

  /** A run fails for precisely the programs in which some gate gets one object twice. */
  lemma {:induction false} RunFails(ps: ParamSet, bk: BTKey, ks: SwitchKey, prog: Program, pc: nat, ids: seq<nat>,
                                    cts: seq<Ct>)
    requires CanRun(ps, bk, ks, prog, pc, ids, cts)
    ensures Run(ps, bk, ks, prog, pc, ids, cts).Success? <==> Legal(prog, pc, ids)
    decreases |prog| - pc
  {
    if pc < |prog| {
      ExecuteFails(ps, bk, ks, prog[pc], Clashes(prog[pc], ids), cts);
      if !Clashes(prog[pc], ids) {
        var ct := Execute(ps, bk, ks, prog[pc], false, cts).value;
        OneMoreWire(ps, bk, ks, prog, pc, pc + 1, ids, cts, NewId(prog[pc], ids), ct);
        RunFails(ps, bk, ks, prog, pc + 1, ids + [NewId(prog[pc], ids)], cts + [ct]);
      }
    }
  }

  /** Wires stay ciphertexts that gates accept. */
  lemma {:induction false} RunUsable(ps: ParamSet, bk: BTKey, ks: SwitchKey, prog: Program, pc: nat, ids: seq<nat>,
                                     cts: seq<Ct>)
    requires CanRun(ps, bk, ks, prog, pc, ids, cts)
    ensures var r := Run(ps, bk, ks, prog, pc, ids, cts);
            r.Success? ==> Usable(ps, r.value) && |r.value| == |cts| + |prog| - pc
    decreases |prog| - pc
  {
    if pc < |prog| {
      var x := Execute(ps, bk, ks, prog[pc], Clashes(prog[pc], ids), cts);
      if x.Success? {
        OneMoreWire(ps, bk, ks, prog, pc, pc + 1, ids, cts, NewId(prog[pc], ids), x.value);
        RunUsable(ps, bk, ks, prog, pc + 1, ids + [NewId(prog[pc], ids)], cts + [x.value]);
      }
    }
  }

  lemma ExecuteFails(ps: ParamSet, bk: BTKey, ks: SwitchKey, ins: Instruction, clash: bool, cts: seq<Ct>)
    requires Supported(ps) && KeyShape(ps, bk) && SwitchShape(ps, ks) && Usable(ps, cts) && Reads(ins, |cts|)
    requires clash ==> ins.Apply?
    ensures Execute(ps, bk, ks, ins, clash, cts).Success? <==> !clash
  {
  }

  // ---------- correctness ----------

  /** The errors of the bootstrappings that an instruction performs are small enough. */
  ghost predicate StepFits(w: World, ins: Instruction, cts: seq<Ct>)
    requires Reads(ins, |cts|) && w.ps.q > 0
    requires forall i {:trigger cts[i]} :: 0 <= i < |cts| ==> |cts[i].a| == w.ps.n
  {
    match ins
    case Renew(u) => BootFits(w, GateStart(AND, w.ps.q), AddQuarter(cts[u], w.ps.q))
    case Apply(gate, u, v) => GateFits(w, gate, cts[u], cts[v])
    case _ => true
  }

  /** The errors of all bootstrappings that the run performs from instruction pc on are small enough. */
  ghost predicate RunFits(w: World, prog: Program, pc: nat, ids: seq<nat>, cts: seq<Ct>)
    requires CanRun(w.ps, w.bk, w.ks, prog, pc, ids, cts)
    decreases |prog| - pc
  {
    pc < |prog| ==>
      && StepFits(w, prog[pc], cts)
      && match Execute(w.ps, w.bk, w.ks, prog[pc], Clashes(prog[pc], ids), cts)
         case Failure(_) => true
         case Success(ct) =>
           OneMoreWire(w.ps, w.bk, w.ks, prog, pc, pc + 1, ids, cts, NewId(prog[pc], ids), ct);
           RunFits(w, prog, pc + 1, ids + [NewId(prog[pc], ids)], cts + [ct])
  }

  /** What all correctness statements assume of the wires and the margins. */
  ghost predicate Started(w: World, cts: seq<Ct>, bits: seq<bool>, beta: nat) {
    match w
    case World(ps, _, _, s, _, _, _, betaOut) =>
      Shaped(w) && betaOut <= beta && 32 * beta < ps.q && EnvEncodes(ps, cts, s, bits, beta)
  }

  lemma StartedIs(w: World, cts: seq<Ct>, bits: seq<bool>, beta: nat)
    requires Started(w, cts, bits, beta)
    ensures Shaped(w) && w.betaOut <= beta && 32 * beta < w.ps.q && EnvEncodes(w.ps, cts, w.s, bits, beta)
    ensures Supported(w.ps) && KeyShape(w.ps, w.bk) && SwitchShape(w.ps, w.ks) && Usable(w.ps, cts) && |cts| == |bits|
    ensures |w.s| == w.ps.n
  {
  }

  /** The instruction, executed without a clash, adds a wire that encodes its plaintext bit. */
  ghost predicate Executed(w: World, ins: Instruction, cts: seq<Ct>, bits: seq<bool>, beta: nat) {
    match w
    case World(ps, bk, ks, s, _, _, _, _) =>
      && Shaped(w) && Usable(ps, cts) && Reads(ins, |cts|) && |cts| == |bits|
      && Execute(ps, bk, ks, ins, false, cts).Success?
      && Encodes(ps, Execute(ps, bk, ks, ins, false, cts).value, s, PlainStep(ins, bits), beta)
  }

  lemma ConstExecuted(w: World, v: bool, cts: seq<Ct>, bits: seq<bool>, beta: nat)
    requires Started(w, cts, bits, beta)
    ensures Executed(w, Const(v), cts, bits, beta)
  {
    StartedIs(w, cts, bits, beta);
    ConstantEncodes(w.ps, w.s, v);
    EncodesMore(w.ps, ConstantValue(w.ps, v), w.s, v, 0, beta);
  }

  lemma CopyExecuted(w: World, u: nat, cts: seq<Ct>, bits: seq<bool>, beta: nat)
    requires Started(w, cts, bits, beta) && u < |cts|
    ensures Executed(w, Copy(u), cts, bits, beta)
  {
    StartedIs(w, cts, bits, beta);
    EnvAt(w.ps, cts, w.s, bits, beta, u);
  }

  lemma NegateExecuted(w: World, u: nat, cts: seq<Ct>, bits: seq<bool>, beta: nat)
    requires Started(w, cts, bits, beta) && u < |cts|
    ensures Executed(w, Negate(u), cts, bits, beta)
  {
    StartedIs(w, cts, bits, beta);
    EnvAt(w.ps, cts, w.s, bits, beta, u);
    NotEncodes(w.ps, cts[u], w.s, bits[u], !bits[u], beta);
  }

  lemma RenewExecuted(w: World, u: nat, cts: seq<Ct>, bits: seq<bool>, beta: nat)
    requires Started(w, cts, bits, beta) && u < |cts| && w.ps.q > 0
    requires BootFits(w, GateStart(AND, w.ps.q), AddQuarter(cts[u], w.ps.q))
    ensures Executed(w, Renew(u), cts, bits, beta)
  {
    StartedIs(w, cts, bits, beta);
    EnvAt(w.ps, cts, w.s, bits, beta, u);
    RenewRight(w, cts[u], bits[u], beta);
  }

  lemma ApplyExecuted(w: World, gate: Gate, u: nat, v: nat, cts: seq<Ct>, bits: seq<bool>, beta: nat)
    requires Started(w, cts, bits, beta) && u < |cts| && v < |cts| && GateFits(w, gate, cts[u], cts[v])
    ensures Executed(w, Apply(gate, u, v), cts, bits, beta)
  {
    StartedIs(w, cts, bits, beta);
    EnvAt(w.ps, cts, w.s, bits, beta, u);
    EnvAt(w.ps, cts, w.s, bits, beta, v);
    ApplyRight(w, gate, cts[u], cts[v], bits[u], bits[v], beta);
    ApplySucceeds(w.ps, w.bk, w.ks, gate, u, v, cts, cts[u], cts[v]);
    ExecutedIntro(w, Apply(gate, u, v), cts, bits, beta, EvalGate(w.ps, w.bk, w.ks, gate, cts[u], cts[v]),
                  GateBit(gate, bits[u], bits[v]));
  }

  lemma ExecutedIntro(w: World, ins: Instruction, cts: seq<Ct>, bits: seq<bool>, beta: nat, ct: Ct, bit: bool)
    requires Shaped(w) && Supported(w.ps) && KeyShape(w.ps, w.bk) && SwitchShape(w.ps, w.ks) && Usable(w.ps, cts)
    requires Reads(ins, |cts|) && |cts| == |bits| && bit == PlainStep(ins, bits)
    requires Execute(w.ps, w.bk, w.ks, ins, false, cts) == Success(ct) && Encodes(w.ps, ct, w.s, bit, beta)
    ensures Executed(w, ins, cts, bits, beta)
  {
  }

  lemma ApplySucceeds(ps: ParamSet, bk: BTKey, ks: SwitchKey, gate: Gate, u: nat, v: nat, cts: seq<Ct>, x: Ct, y: Ct)
    requires Supported(ps) && KeyShape(ps, bk) && SwitchShape(ps, ks) && Usable(ps, cts) && u < |cts| && v < |cts|
    requires x == cts[u] && y == cts[v]
    ensures |x.a| == |y.a| == ps.n && InRange(x, ps.q) && InRange(y, ps.q)
    ensures Execute(ps, bk, ks, Apply(gate, u, v), false, cts) == Success(EvalGate(ps, bk, ks, gate, x, y))
  {
    UsableAt(ps, cts, u);
    UsableAt(ps, cts, v);
    ApplyIs(ps, bk, ks, gate, u, v, false, cts, x, y);
    HomGateSucceeds(ps, bk, ks, gate, false, Success(x), Success(y));
  }

  /** An instruction adds the right wire if the errors of its bootstrappings fit. */
  lemma ExecuteActual(w: World, ins: Instruction, cts: seq<Ct>, bits: seq<bool>, beta: nat)
    requires Started(w, cts, bits, beta) && Reads(ins, |cts|) && Usable(w.ps, cts) && StepFits(w, ins, cts)
    ensures Executed(w, ins, cts, bits, beta)
  {
    match ins
    case Const(v) => ConstExecuted(w, v, cts, bits, beta);
    case Copy(u) => CopyExecuted(w, u, cts, bits, beta);
    case Negate(u) => NegateExecuted(w, u, cts, bits, beta);
    case Renew(u) => RenewExecuted(w, u, cts, bits, beta);
    case Apply(gate, u, v) => ApplyExecuted(w, gate, u, v, cts, bits, beta);
  }

  lemma EnvAt(ps: ParamSet, cts: seq<Ct>, s: Poly, bits: seq<bool>, beta: nat, u: nat)
    requires EnvEncodes(ps, cts, s, bits, beta) && u < |cts|
    ensures u < |bits| && Encodes(ps, cts[u], s, bits[u], beta)
  {
  }

  lemma RenewRight(w: World, x: Ct, m: bool, beta: nat)
    requires w.betaOut <= beta && 32 * beta < w.ps.q && Encodes(w.ps, x, w.s, m, beta)
    requires BootFits(w, GateStart(AND, w.ps.q), AddQuarter(x, w.ps.q))
    ensures Supported(w.ps) && KeyShape(w.ps, w.bk) && SwitchShape(w.ps, w.ks) && |x.a| == w.ps.n
    ensures Encodes(w.ps, BootstrapCt(w.ps, w.bk, w.ks, x), w.s, m, beta)
  {
    BootstrapActual(w, x, m, beta);
    EncodesMore(w.ps, BootstrapCt(w.ps, w.bk, w.ks, x), w.s, m, w.betaOut, beta);
  }

  lemma ApplyRight(w: World, gate: Gate, x: Ct, y: Ct, m1: bool, m2: bool, beta: nat)
    requires GateFits(w, gate, x, y) && w.betaOut <= beta && 32 * beta < w.ps.q
    requires Encodes(w.ps, x, w.s, m1, beta) && Encodes(w.ps, y, w.s, m2, beta)
    ensures Shaped(w) && |x.a| == |y.a| == w.ps.n && InRange(x, w.ps.q) && InRange(y, w.ps.q)
    ensures Encodes(w.ps, EvalGate(w.ps, w.bk, w.ks, gate, x, y), w.s, GateBit(gate, m1, m2), beta)
  {
    GateActual(w, gate, x, y, m1, m2, beta);
    EncodesMore(w.ps, EvalGate(w.ps, w.bk, w.ks, gate, x, y), w.s, GateBit(gate, m1, m2), w.betaOut, beta);
  }

  lemma EnvExtends(ps: ParamSet, cts: seq<Ct>, s: Poly, bits: seq<bool>, beta: nat, ct: Ct, bit: bool)
    requires EnvEncodes(ps, cts, s, bits, beta) && Encodes(ps, ct, s, bit, beta)
    ensures EnvEncodes(ps, cts + [ct], s, bits + [bit], beta)
  {
  }

  lemma StartedMore(w: World, cts: seq<Ct>, bits: seq<bool>, beta: nat, ct: Ct, bit: bool)
    requires Started(w, cts, bits, beta) && Encodes(w.ps, ct, w.s, bit, beta)
    ensures Started(w, cts + [ct], bits + [bit], beta)
  {
    EnvExtends(w.ps, cts, w.s, bits, beta, ct, bit);
  }

  /**
   Whatever the keys are: after any program that does not fail every wire encodes its plaintext bit,
   if the errors of all bootstrappings of this run fit.
   */
  lemma {:induction false} RunActual(w: World, prog: Program, pc: nat, ids: seq<nat>, cts: seq<Ct>, bits: seq<bool>,
                                     beta: nat)
    requires Started(w, cts, bits, beta) && CanRun(w.ps, w.bk, w.ks, prog, pc, ids, cts) && |cts| == |bits|
    requires Legal(prog, pc, ids) && RunFits(w, prog, pc, ids, cts)
    ensures var r := Run(w.ps, w.bk, w.ks, prog, pc, ids, cts);
            r.Success? && EnvEncodes(w.ps, r.value, w.s, PlainRun(prog, pc, bits), beta)
    decreases |prog| - pc
  {
    if pc < |prog| {
      ExecuteActual(w, prog[pc], cts, bits, beta);
      var ct := Execute(w.ps, w.bk, w.ks, prog[pc], false, cts).value;
      OneMoreWire(w.ps, w.bk, w.ks, prog, pc, pc + 1, ids, cts, NewId(prog[pc], ids), ct);
      StartedMore(w, cts, bits, beta, ct, PlainStep(prog[pc], bits));
      RunActual(w, prog, pc + 1, ids + [NewId(prog[pc], ids)], cts + [ct], bits + [PlainStep(prog[pc], bits)], beta);
    }
  }

  /** All wires of such a run decrypt, with the stored secret key, to the plaintext bits. */
  lemma RunDecrypts(w: World, sk: PrivateKey, prog: Program, pc: nat, ids: seq<nat>, cts: seq<Ct>, bits: seq<bool>,
                    beta: nat)
    requires Started(w, cts, bits, beta) && CanRun(w.ps, w.bk, w.ks, prog, pc, ids, cts) && |cts| == |bits|
    requires Legal(prog, pc, ids) && RunFits(w, prog, pc, ids, cts) && sk.modulus == w.ps.q && SignedKey(sk) == w.s
    ensures var r := Run(w.ps, w.bk, w.ks, prog, pc, ids, cts);
            && r.Success? && |r.value| == |PlainRun(prog, pc, bits)|
            && forall i {:trigger r.value[i]} :: 0 <= i < |r.value| ==>
                 && |r.value[i].a| == |sk.element|
                 && Decode(Phase(r.value[i], sk.element), sk.modulus) == Bit(PlainRun(prog, pc, bits)[i])
  {
    StartedIs(w, cts, bits, beta);
    RunActual(w, prog, pc, ids, cts, bits, beta);
    var r := Run(w.ps, w.bk, w.ks, prog, pc, ids, cts).value;
    forall i {:trigger r[i]} | 0 <= i < |r|
      ensures |r[i].a| == |sk.element|
      ensures i < |PlainRun(prog, pc, bits)|
      ensures Decode(Phase(r[i], sk.element), sk.modulus) == Bit(PlainRun(prog, pc, bits)[i])
    {
      WireDecodes(w.ps, sk, r, w.s, PlainRun(prog, pc, bits), beta, i);
    }
  }

  lemma WireDecodes(ps: ParamSet, sk: PrivateKey, cts: seq<Ct>, s: Poly, bits: seq<bool>, beta: nat, i: nat)
    requires Supported(ps) && EnvEncodes(ps, cts, s, bits, beta) && i < |cts| && 8 * beta < ps.q
    requires sk.modulus == ps.q && SignedKey(sk) == s
    ensures i < |bits| && |cts[i].a| == |sk.element| && Decode(Phase(cts[i], sk.element), sk.modulus) == Bit(bits[i])
  {
    EnvAt(ps, cts, s, bits, beta, i);
    EncodedDecrypts(ps, cts[i], s, bits[i], beta);
    StoredDecodes(cts[i], sk);
  }

  lemma StepFitsAlways(w: World, ins: Instruction, cts: seq<Ct>)
    requires Works(w) && Usable(w.ps, cts) && Reads(ins, |cts|) && w.ps.q > 0
    ensures StepFits(w, ins, cts)
  {
    match ins
    case Renew(u) =>
      UsableAt(w.ps, cts, u);
      AlwaysFits(w, GateStart(AND, w.ps.q), AddQuarter(cts[u], w.ps.q));
    case Apply(gate, u, v) =>
      UsableAt(w.ps, cts, u);
      UsableAt(w.ps, cts, v);
      GateFitsAlways(w, gate, cts[u], cts[v]);
    case _ =>
  }

  lemma UsableAt(ps: ParamSet, cts: seq<Ct>, u: nat)
    requires Usable(ps, cts) && u < |cts|
    ensures ps.q > 0 && |cts[u].a| == ps.n && InRange(cts[u], ps.q)
  {
  }

  /** With keys whose worst-case errors fit, the errors of every run do. */
  lemma {:induction false} RunFitsAlways(w: World, prog: Program, pc: nat, ids: seq<nat>, cts: seq<Ct>)
    requires Works(w) && CanRun(w.ps, w.bk, w.ks, prog, pc, ids, cts)
    ensures RunFits(w, prog, pc, ids, cts)
    decreases |prog| - pc
  {
    if pc < |prog| {
      StepFitsAlways(w, prog[pc], cts);
      var x := Execute(w.ps, w.bk, w.ks, prog[pc], Clashes(prog[pc], ids), cts);
      if x.Success? {
        OneMoreWire(w.ps, w.bk, w.ks, prog, pc, pc + 1, ids, cts, NewId(prog[pc], ids), x.value);
        RunFitsAlways(w, prog, pc + 1, ids + [NewId(prog[pc], ids)], cts + [x.value]);
      }
    }
  }

  /** After any program that does not fail, every wire encodes its plaintext bit. */
  lemma RunCorrect(w: World, prog: Program, pc: nat, ids: seq<nat>, cts: seq<Ct>, bits: seq<bool>, beta: nat)
    requires Works(w) && w.betaOut <= beta && 32 * beta < w.ps.q && EnvEncodes(w.ps, cts, w.s, bits, beta)
    requires CanRun(w.ps, w.bk, w.ks, prog, pc, ids, cts) && Legal(prog, pc, ids) && |cts| == |bits|
    ensures var r := Run(w.ps, w.bk, w.ks, prog, pc, ids, cts);
            r.Success? && EnvEncodes(w.ps, r.value, w.s, PlainRun(prog, pc, bits), beta)
  {
    WorldFits(w);
    RunFitsAlways(w, prog, pc, ids, cts);
    RunActual(w, prog, pc, ids, cts, bits, beta);
  }

  // ---------- circuits as programs ----------

  /** The program for a circuit when count wires are in use; the last wire it adds holds the result. */
  function Compile(c: Circuit, count: nat): (r: Program)
    ensures |r| > 0
  {
    match c
    case Input(i) => [Copy(i)]
    case Constant(v) => [Const(v)]
    case Not(d) =>
      var p := Compile(d, count);
      p + [Negate(count + |p| - 1)]
    case Boot(d) =>
      var p := Compile(d, count);
      p + [Renew(count + |p| - 1)]
    case Binary(gate, l, r) =>
      var p := Compile(l, count);
      var q := Compile(r, count + |p|);
      p + q + [Apply(gate, count + |p| - 1, count + |p| + |q| - 1)]
  }

  /** From instruction pc on, the program is code. */
  ghost predicate Holds(prog: Program, pc: nat, code: Program) {
    pc + |code| <= |prog| && prog[pc..pc + |code|] == code
  }

  lemma HoldsParts(prog: Program, pc: nat, p: Program, q: Program, next: nat)
    requires Holds(prog, pc, p + q) && next == pc + |p|
    ensures Holds(prog, pc, p) && Holds(prog, next, q)
  {
    var code := prog[pc..pc + |p + q|];
    assert prog[pc..pc + |p|] == code[..|p|] == p;
    assert prog[next..next + |q|] == code[|p|..] == q;
  }

  lemma HoldsOne(prog: Program, pc: nat, ins: Instruction)
    requires Holds(prog, pc, [ins])
    ensures pc < |prog| && prog[pc] == ins
  {
    assert prog[pc..pc + 1][0] == ins;
  }

  lemma WellFormedBefore(prog: Program, pc: nat, pc': nat, count: nat, count': nat)
    requires pc < |prog| && pc' == pc + 1 && count' == count + 1
    requires Reads(prog[pc], count) && WellFormed(prog, pc', count')
    ensures WellFormed(prog, pc, count)
  {
  }

  /** What is compiled reads only wires that exist. */
  lemma {:induction false} CompileReads(c: Circuit, n: nat, prog: Program, pc: nat, count: nat, next: nat, count': nat)
    requires InputsBelow(c, n) && n <= count && Holds(prog, pc, Compile(c, count))
    requires next == pc + |Compile(c, count)| && count' == count + |Compile(c, count)| && WellFormed(prog, next, count')
    ensures WellFormed(prog, pc, count)
    decreases c, 1
  {
    match c
    case Input(i) =>
      HoldsOne(prog, pc, Copy(i));
    case Constant(v) =>
      HoldsOne(prog, pc, Const(v));
    case Not(d) =>
      UnaryReads(c, d, n, prog, pc, count, next, count');
    case Boot(d) =>
      UnaryReads(c, d, n, prog, pc, count, next, count');
    case Binary(gate, l, r) =>
      BinaryReads(c, gate, l, r, n, prog, pc, count, next, count');
  }

  /** The code of an operand, and the instruction that follows it. */
  lemma UnaryCode(c: Circuit, d: Circuit, count: nat) returns (p: Program, ins: Instruction)
    requires c == Not(d) || c == Boot(d)
    ensures p == Compile(d, count) && Compile(c, count) == p + [ins] && |Compile(c, count)| == |p| + 1
    ensures Reads(ins, count + |p|)
  {
    p := Compile(d, count);
    ins := if c == Not(d) then Negate(count + |p| - 1) else Renew(count + |p| - 1);
  }

  lemma {:induction false} UnaryReads(c: Circuit, d: Circuit, n: nat, prog: Program, pc: nat, count: nat, next: nat,
                                      count': nat)
    requires (c == Not(d) || c == Boot(d)) && InputsBelow(d, n) && n <= count && Holds(prog, pc, Compile(c, count))
    requires next == pc + |Compile(c, count)| && count' == count + |Compile(c, count)| && WellFormed(prog, next, count')
    ensures WellFormed(prog, pc, count)
    decreases c, 0
  {
    var p, ins := UnaryCode(c, d, count);
    HoldsParts(prog, pc, p, [ins], pc + |p|);
    HoldsOne(prog, pc + |p|, ins);
    WellFormedBefore(prog, pc + |p|, next, count + |p|, count');
    CompileReads(d, n, prog, pc, count, pc + |p|, count + |p|);
  }

  /** The code of both operands, how many wires there are between and after, and the gate. */
  lemma BinaryCode(gate: Gate, l: Circuit, r: Circuit, count: nat)
    returns (p: Program, q: Program, ins: Instruction, n1: nat, n2: nat, u: nat, v: nat)
    ensures p == Compile(l, count) && n1 == count + |p| && q == Compile(r, n1) && n2 == n1 + |q|
    ensures Compile(Binary(gate, l, r), count) == p + q + [ins]
    ensures |Compile(Binary(gate, l, r), count)| == |p| + |q| + 1 && Reads(ins, n2)
    ensures ins == Apply(gate, u, v) && u + 1 == n1 && v + 1 == n2
  {
    p := Compile(l, count);
    n1 := count + |p|;
    q := Compile(r, n1);
    n2 := n1 + |q|;
    u, v := n1 - 1, n2 - 1;
    ins := Apply(gate, u, v);
  }

  lemma {:induction false} BinaryReads(c: Circuit, gate: Gate, l: Circuit, r: Circuit, n: nat, prog: Program, pc: nat,
                                       count: nat, next: nat, count': nat)
    requires c == Binary(gate, l, r) && InputsBelow(l, n) && InputsBelow(r, n) && n <= count
    requires Holds(prog, pc, Compile(c, count))
    requires next == pc + |Compile(c, count)| && count' == count + |Compile(c, count)| && WellFormed(prog, next, count')
    ensures WellFormed(prog, pc, count)
    decreases c, 0
  {
    var mid, mid2, n1, n2 := BinaryParts(c, gate, l, r, prog, pc, count, next, count');
    CompileReads(r, n, prog, mid, n1, mid2, n2);
    CompileReads(l, n, prog, pc, count, mid, n1);
  }

  /**
   Where the parts of the code lie, with how many wires each of them starts, and that the gate
   reads wires that exist.
   */
  lemma BinaryParts(c: Circuit, gate: Gate, l: Circuit, r: Circuit, prog: Program, pc: nat, count: nat, next: nat,
                    count': nat) returns (mid: nat, mid2: nat, n1: nat, n2: nat)
    requires c == Binary(gate, l, r) && Holds(prog, pc, Compile(c, count))
    requires next == pc + |Compile(c, count)| && count' == count + |Compile(c, count)| && WellFormed(prog, next, count')
    ensures Holds(prog, pc, Compile(l, count)) && mid == pc + |Compile(l, count)| && n1 == count + |Compile(l, count)|
    ensures Holds(prog, mid, Compile(r, n1)) && mid2 == mid + |Compile(r, n1)| && n2 == n1 + |Compile(r, n1)|
    ensures mid2 <= |prog| && WellFormed(prog, mid2, n2)
  {
    var p, q, ins, u, v;
    p, q, ins, n1, n2, u, v := BinaryCode(gate, l, r, count);
    mid, mid2 := ThreeParts(prog, pc, p, q, ins);
    HoldsOne(prog, mid2, ins);
    WellFormedBefore(prog, mid2, next, n2, count');
  }

  lemma ThreeParts(prog: Program, pc: nat, p: Program, q: Program, ins: Instruction) returns (mid: nat, mid2: nat)
    requires Holds(prog, pc, p + q + [ins])
    ensures mid == pc + |p| && mid2 == mid + |q| && Holds(prog, pc, p) && Holds(prog, mid, q)
            && Holds(prog, mid2, [ins])
  {
    mid, mid2 := pc + |p|, pc + |p| + |q|;
    HoldsParts(prog, pc, p + q, [ins], mid2);
    HoldsParts(prog, pc, p, q, mid);
  }

  /** The first wires are the inputs of the circuit, each with its own object. */
  ghost predicate HoldInputs(env: seq<Ct>, ids: seq<nat>, cts: seq<Ct>) {
    && |env| <= |cts| == |ids|
    && (forall i {:trigger env[i]} :: 0 <= i < |env| ==> cts[i] == env[i])
    && (forall i {:trigger ids[i]} :: 0 <= i < |env| ==> ids[i] == i)
  }

  /** The identity of the object that the code for c leaves on its last wire. */
  function ResultId(c: Circuit, last: nat): nat {
    if c.Input? then c.i else last
  }

  /**
   From instruction pc on, the run does what the evaluation of c does: it fails with the same error, or it goes on at
   next with more wires, of which the last holds the value.
   */
  ghost predicate Compiled(ps: ParamSet, bk: BTKey, ks: SwitchKey, prog: Program, c: Circuit, env: seq<Ct>,
                           x: Result<Ct>, pc: nat, ids: seq<nat>, cts: seq<Ct>, next: nat, ids': seq<nat>,
                           cts': seq<Ct>) {
    // A match in place of selectors keeps the definition folded in proofs.
    match x
    case Failure(e) =>
      CanRun(ps, bk, ks, prog, pc, ids, cts) && Run(ps, bk, ks, prog, pc, ids, cts) == Failure(e)
    case Success(value) =>
      && CanRun(ps, bk, ks, prog, pc, ids, cts) && CanRun(ps, bk, ks, prog, next, ids', cts')
      && Run(ps, bk, ks, prog, pc, ids, cts) == Run(ps, bk, ks, prog, next, ids', cts')
      && ids <= ids' && cts <= cts' && |cts'| > 0 && HoldInputs(env, ids', cts')
      && cts'[|cts'| - 1] == value && ids'[|cts'| - 1] == ResultId(c, |cts'| - 1)
  }

  lemma RunStops(ps: ParamSet, bk: BTKey, ks: SwitchKey, prog: Program, pc: nat, ids: seq<nat>, cts: seq<Ct>,
                 e: string)
    requires CanRun(ps, bk, ks, prog, pc, ids, cts) && pc < |prog|
    requires Supported(ps) && KeyShape(ps, bk) && SwitchShape(ps, ks) && Usable(ps, cts) && |ids| == |cts|
    requires Reads(prog[pc], |cts|) && Execute(ps, bk, ks, prog[pc], Clashes(prog[pc], ids), cts) == Failure(e)
    ensures Run(ps, bk, ks, prog, pc, ids, cts) == Failure(e)
  {
  }

  lemma RunGoesOn(ps: ParamSet, bk: BTKey, ks: SwitchKey, prog: Program, pc: nat, next: nat, ids: seq<nat>,
                  cts: seq<Ct>, ct: Ct)
    requires CanRun(ps, bk, ks, prog, pc, ids, cts) && pc < |prog| && next == pc + 1
    requires Supported(ps) && KeyShape(ps, bk) && SwitchShape(ps, ks) && Usable(ps, cts) && |ids| == |cts|
    requires Reads(prog[pc], |cts|) && Execute(ps, bk, ks, prog[pc], Clashes(prog[pc], ids), cts) == Success(ct)
    ensures CanRun(ps, bk, ks, prog, next, ids + [NewId(prog[pc], ids)], cts + [ct])
    ensures Run(ps, bk, ks, prog, pc, ids, cts)
         == Run(ps, bk, ks, prog, next, ids + [NewId(prog[pc], ids)], cts + [ct])
  {
    OneMoreWire(ps, bk, ks, prog, pc, next, ids, cts, NewId(prog[pc], ids), ct);
  }

  lemma CanRunIs(ps: ParamSet, bk: BTKey, ks: SwitchKey, prog: Program, pc: nat, ids: seq<nat>, cts: seq<Ct>)
    requires CanRun(ps, bk, ks, prog, pc, ids, cts)
    ensures Supported(ps) && KeyShape(ps, bk) && SwitchShape(ps, ks) && Usable(ps, cts) && |ids| == |cts|
    ensures pc < |prog| ==> Reads(prog[pc], |cts|)
  {
  }

  /** The last instruction of the code for c, which computes x. */
  lemma LastStep(ps: ParamSet, bk: BTKey, ks: SwitchKey, prog: Program, c: Circuit, env: seq<Ct>, x: Result<Ct>,
                 pc: nat, next: nat, ids: seq<nat>, cts: seq<Ct>) returns (ids': seq<nat>, cts': seq<Ct>)
    requires CanRun(ps, bk, ks, prog, pc, ids, cts) && pc < |prog| && next == pc + 1 && HoldInputs(env, ids, cts)
    requires Supported(ps) && KeyShape(ps, bk) && SwitchShape(ps, ks) && Usable(ps, cts) && |ids| == |cts|
    requires Reads(prog[pc], |cts|) && x == Execute(ps, bk, ks, prog[pc], Clashes(prog[pc], ids), cts)
    requires NewId(prog[pc], ids) == ResultId(c, |cts|)
    ensures Compiled(ps, bk, ks, prog, c, env, x, pc, ids, cts, next, ids', cts')
    ensures x.Success? ==> |cts'| == |cts| + 1
  {
    ids', cts' := ids, cts;
    match x
    case Failure(e) =>
      RunStops(ps, bk, ks, prog, pc, ids, cts, e);
    case Success(ct) =>
      RunGoesOn(ps, bk, ks, prog, pc, next, ids, cts, ct);
      ids', cts' := ids + [NewId(prog[pc], ids)], cts + [ct];
  }

  /** Code that goes on where other code ends. */
  lemma CompiledThen(ps: ParamSet, bk: BTKey, ks: SwitchKey, prog: Program, d: Circuit, c: Circuit, env: seq<Ct>,
                     y: Result<Ct>, x: Result<Ct>, pc: nat, ids: seq<nat>, cts: seq<Ct>, mid: nat, ids1: seq<nat>,
                     cts1: seq<Ct>, next: nat, ids': seq<nat>, cts': seq<Ct>)
    requires Compiled(ps, bk, ks, prog, d, env, y, pc, ids, cts, mid, ids1, cts1) && y.Success?
    requires Compiled(ps, bk, ks, prog, c, env, x, mid, ids1, cts1, next, ids', cts')
    ensures Compiled(ps, bk, ks, prog, c, env, x, pc, ids, cts, next, ids', cts')
  {
  }

  /** Keys, circuit, its inputs and the place of its code in the program fit together. */
  ghost predicate Placed(ps: ParamSet, bk: BTKey, ks: SwitchKey, c: Circuit, env: seq<Ct>, prog: Program, pc: nat,
                         next: nat, ids: seq<nat>, cts: seq<Ct>) {
    // A match in place of selectors keeps the definition folded in proofs.
    match ps
    case ParamSet(_, _, _, _, _, _, _, _) =>
      && Supported(ps) && KeyShape(ps, bk) && SwitchShape(ps, ks) && Usable(ps, env) && InputsBelow(c, |env|)
      && CanRun(ps, bk, ks, prog, pc, ids, cts) && HoldInputs(env, ids, cts)
      && Holds(prog, pc, Compile(c, |cts|)) && next == pc + |Compile(c, |cts|)|
  }

  lemma PlacedIs(ps: ParamSet, bk: BTKey, ks: SwitchKey, c: Circuit, env: seq<Ct>, prog: Program, pc: nat, next: nat,
                 ids: seq<nat>, cts: seq<Ct>)
    requires Placed(ps, bk, ks, c, env, prog, pc, next, ids, cts)
    ensures Supported(ps) && KeyShape(ps, bk) && SwitchShape(ps, ks) && Usable(ps, env) && InputsBelow(c, |env|)
    ensures CanRun(ps, bk, ks, prog, pc, ids, cts) && HoldInputs(env, ids, cts) && Usable(ps, cts) && |ids| == |cts|
    ensures Holds(prog, pc, Compile(c, |cts|)) && next == pc + |Compile(c, |cts|)|
    ensures pc < |prog| && Reads(prog[pc], |cts|)
  {
    CanRunIs(ps, bk, ks, prog, pc, ids, cts);
  }

  lemma InputRuns(ps: ParamSet, bk: BTKey, ks: SwitchKey, i: nat, env: seq<Ct>, prog: Program, pc: nat, next: nat,
                  ids: seq<nat>, cts: seq<Ct>) returns (ids': seq<nat>, cts': seq<Ct>)
    requires Placed(ps, bk, ks, Input(i), env, prog, pc, next, ids, cts)
    ensures Supported(ps) && KeyShape(ps, bk) && SwitchShape(ps, ks) && Usable(ps, env) && InputsBelow(Input(i), |env|)
    ensures Compiled(ps, bk, ks, prog, Input(i), env, HomEval(ps, bk, ks, Input(i), env), pc, ids, cts, next, ids',
                     cts')
    ensures |cts'| == |cts| + 1
  {
    PlacedIs(ps, bk, ks, Input(i), env, prog, pc, next, ids, cts);
    HoldsOne(prog, pc, Copy(i));
    assert cts[i] == env[i];
    ids', cts' := LastStep(ps, bk, ks, prog, Input(i), env, HomEval(ps, bk, ks, Input(i), env), pc, next, ids, cts);
  }

  lemma ConstantRuns(ps: ParamSet, bk: BTKey, ks: SwitchKey, v: bool, env: seq<Ct>, prog: Program, pc: nat, next: nat,
                     ids: seq<nat>, cts: seq<Ct>) returns (ids': seq<nat>, cts': seq<Ct>)
    requires Placed(ps, bk, ks, Constant(v), env, prog, pc, next, ids, cts)
    ensures Supported(ps) && KeyShape(ps, bk) && SwitchShape(ps, ks) && Usable(ps, env)
            && InputsBelow(Constant(v), |env|)
    ensures Compiled(ps, bk, ks, prog, Constant(v), env, HomEval(ps, bk, ks, Constant(v), env), pc, ids, cts, next,
                     ids', cts')
    ensures |cts'| == |cts| + 1
  {
    PlacedIs(ps, bk, ks, Constant(v), env, prog, pc, next, ids, cts);
    HoldsOne(prog, pc, Const(v));
    ids', cts' := LastStep(ps, bk, ks, prog, Constant(v), env, HomEval(ps, bk, ks, Constant(v), env), pc, next, ids,
                           cts);
  }

  /** The code of the operand has run from pc to mid. */
  lemma NotRuns(ps: ParamSet, bk: BTKey, ks: SwitchKey, d: Circuit, env: seq<Ct>, prog: Program, pc: nat, mid: nat,
                next: nat, ids: seq<nat>, cts: seq<Ct>, ids1: seq<nat>, cts1: seq<Ct>, u: nat)
    returns (ids': seq<nat>, cts': seq<Ct>)
    requires Supported(ps) && KeyShape(ps, bk) && SwitchShape(ps, ks) && Usable(ps, env) && InputsBelow(Not(d), |env|)
    requires Compiled(ps, bk, ks, prog, d, env, HomEval(ps, bk, ks, d, env), pc, ids, cts, mid, ids1, cts1)
    requires HomEval(ps, bk, ks, d, env).Success? && u + 1 == |cts1|
    requires Holds(prog, mid, [Negate(u)]) && next == mid + 1
    ensures Compiled(ps, bk, ks, prog, Not(d), env, HomEval(ps, bk, ks, Not(d), env), pc, ids, cts, next, ids', cts')
    ensures |cts'| == |cts1| + 1
  {
    HoldsOne(prog, mid, Negate(u));
    CanRunIs(ps, bk, ks, prog, mid, ids1, cts1);
    ids', cts' := LastStep(ps, bk, ks, prog, Not(d), env, HomEval(ps, bk, ks, Not(d), env), mid, next, ids1, cts1);
    CompiledThen(ps, bk, ks, prog, d, Not(d), env, HomEval(ps, bk, ks, d, env), HomEval(ps, bk, ks, Not(d), env), pc,
                 ids, cts, mid, ids1, cts1, next, ids', cts');
  }

  lemma BootRuns(ps: ParamSet, bk: BTKey, ks: SwitchKey, d: Circuit, env: seq<Ct>, prog: Program, pc: nat, mid: nat,
                 next: nat, ids: seq<nat>, cts: seq<Ct>, ids1: seq<nat>, cts1: seq<Ct>, u: nat)
    returns (ids': seq<nat>, cts': seq<Ct>)
    requires Supported(ps) && KeyShape(ps, bk) && SwitchShape(ps, ks) && Usable(ps, env) && InputsBelow(Boot(d), |env|)
    requires Compiled(ps, bk, ks, prog, d, env, HomEval(ps, bk, ks, d, env), pc, ids, cts, mid, ids1, cts1)
    requires HomEval(ps, bk, ks, d, env).Success? && u + 1 == |cts1|
    requires Holds(prog, mid, [Renew(u)]) && next == mid + 1
    ensures Compiled(ps, bk, ks, prog, Boot(d), env, HomEval(ps, bk, ks, Boot(d), env), pc, ids, cts, next, ids', cts')
    ensures |cts'| == |cts1| + 1
  {
    HoldsOne(prog, mid, Renew(u));
    CanRunIs(ps, bk, ks, prog, mid, ids1, cts1);
    ids', cts' := LastStep(ps, bk, ks, prog, Boot(d), env, HomEval(ps, bk, ks, Boot(d), env), mid, next, ids1, cts1);
    CompiledThen(ps, bk, ks, prog, d, Boot(d), env, HomEval(ps, bk, ks, d, env), HomEval(ps, bk, ks, Boot(d), env), pc,
                 ids, cts, mid, ids1, cts1, next, ids', cts');
  }

  /** The code of both operands has run. */
  lemma BinaryRuns(ps: ParamSet, bk: BTKey, ks: SwitchKey, gate: Gate, l: Circuit, r: Circuit, env: seq<Ct>,
                   prog: Program, pc: nat, mid: nat, mid2: nat, next: nat, ids: seq<nat>, cts: seq<Ct>,
                   ids1: seq<nat>, cts1: seq<Ct>, ids2: seq<nat>, cts2: seq<Ct>, u: nat, v: nat)
    returns (ids': seq<nat>, cts': seq<Ct>)
    requires Supported(ps) && KeyShape(ps, bk) && SwitchShape(ps, ks) && Usable(ps, env)
             && InputsBelow(Binary(gate, l, r), |env|)
    requires Compiled(ps, bk, ks, prog, l, env, HomEval(ps, bk, ks, l, env), pc, ids, cts, mid, ids1, cts1)
    requires Compiled(ps, bk, ks, prog, r, env, HomEval(ps, bk, ks, r, env), mid, ids1, cts1, mid2, ids2, cts2)
    requires HomEval(ps, bk, ks, l, env).Success? && HomEval(ps, bk, ks, r, env).Success? && |cts1| < |cts2|
    requires u + 1 == |cts1| && v + 1 == |cts2| && |env| < |cts1|
    requires Holds(prog, mid2, [Apply(gate, u, v)]) && next == mid2 + 1
    ensures Compiled(ps, bk, ks, prog, Binary(gate, l, r), env, HomEval(ps, bk, ks, Binary(gate, l, r), env), pc, ids,
                     cts, next, ids', cts')
    ensures HomEval(ps, bk, ks, Binary(gate, l, r), env).Success? ==> |cts'| == |cts2| + 1
  {
    var c, ins := Binary(gate, l, r), Apply(gate, u, v);
    var x := HomEval(ps, bk, ks, c, env);
    HoldsOne(prog, mid2, ins);
    CanRunIs(ps, bk, ks, prog, mid2, ids2, cts2);
    OperandWires(ps, bk, ks, l, r, env, prog, pc, mid, mid2, ids, cts, ids1, cts1, ids2, cts2, u, v);
    ids', cts' := LastStep(ps, bk, ks, prog, c, env, x, mid2, next, ids2, cts2);
    CompiledThen(ps, bk, ks, prog, r, c, env, HomEval(ps, bk, ks, r, env), x, mid, ids1, cts1, mid2, ids2, cts2, next,
                 ids', cts');
    CompiledThen(ps, bk, ks, prog, l, c, env, HomEval(ps, bk, ks, l, env), x, pc, ids, cts, mid, ids1, cts1, next,
                 ids', cts');
  }

  /** The two operands are on their wires, which hold one object exactly if both are the same input. */
  lemma OperandWires(ps: ParamSet, bk: BTKey, ks: SwitchKey, l: Circuit, r: Circuit, env: seq<Ct>, prog: Program,
                     pc: nat, mid: nat, mid2: nat, ids: seq<nat>, cts: seq<Ct>, ids1: seq<nat>, cts1: seq<Ct>,
                     ids2: seq<nat>, cts2: seq<Ct>, u: nat, v: nat)
    requires Supported(ps) && KeyShape(ps, bk) && SwitchShape(ps, ks) && Usable(ps, env)
             && InputsBelow(l, |env|) && InputsBelow(r, |env|) && u + 1 == |cts1| && v + 1 == |cts2|
    requires Compiled(ps, bk, ks, prog, l, env, HomEval(ps, bk, ks, l, env), pc, ids, cts, mid, ids1, cts1)
    requires Compiled(ps, bk, ks, prog, r, env, HomEval(ps, bk, ks, r, env), mid, ids1, cts1, mid2, ids2, cts2)
    requires HomEval(ps, bk, ks, l, env).Success? && HomEval(ps, bk, ks, r, env).Success? && |env| < |cts1| < |cts2|
    ensures |ids2| == |cts2| && cts2[u] == HomEval(ps, bk, ks, l, env).value
    ensures cts2[v] == HomEval(ps, bk, ks, r, env).value
    ensures ids2[u] == ids2[v] <==> SameObject(l, r)
  {
    CanRunIs(ps, bk, ks, prog, mid, ids1, cts1);
    CanRunIs(ps, bk, ks, prog, mid2, ids2, cts2);
    assert ids2[u] == ids1[u] == ResultId(l, u);
    assert ids2[v] == ResultId(r, v);
  }

  /** The outcome of the code for c, if it starts at pc. */
  ghost predicate CodeOutcome(ps: ParamSet, bk: BTKey, ks: SwitchKey, c: Circuit, env: seq<Ct>, prog: Program, pc: nat,
                              next: nat, ids: seq<nat>, cts: seq<Ct>, ids': seq<nat>, cts': seq<Ct>) {
    // A match in place of selectors keeps the definition folded in proofs.
    match ps
    case ParamSet(_, _, _, _, _, _, _, _) =>
      && Supported(ps) && KeyShape(ps, bk) && SwitchShape(ps, ks) && Usable(ps, env) && InputsBelow(c, |env|)
      && var x := HomEval(ps, bk, ks, c, env);
         && Compiled(ps, bk, ks, prog, c, env, x, pc, ids, cts, next, ids', cts')
         && (x.Success? ==> |cts'| == |cts| + |Compile(c, |cts|)|)
  }

  /** What is compiled does, wire by wire, what evaluating the circuit does. */
  lemma {:induction false} CompiledRuns(ps: ParamSet, bk: BTKey, ks: SwitchKey, c: Circuit, env: seq<Ct>,
                                        prog: Program, pc: nat, next: nat, ids: seq<nat>, cts: seq<Ct>)
    returns (ids': seq<nat>, cts': seq<Ct>)
    requires Placed(ps, bk, ks, c, env, prog, pc, next, ids, cts)
    ensures CodeOutcome(ps, bk, ks, c, env, prog, pc, next, ids, cts, ids', cts')
    decreases c, 1
  {
    match c
    case Input(i) =>
      ids', cts' := InputRuns(ps, bk, ks, i, env, prog, pc, next, ids, cts);
    case Constant(v) =>
      ids', cts' := ConstantRuns(ps, bk, ks, v, env, prog, pc, next, ids, cts);
    case Not(d) =>
      ids', cts' := CompiledNot(ps, bk, ks, d, env, prog, pc, next, ids, cts);
    case Boot(d) =>
      ids', cts' := CompiledBoot(ps, bk, ks, d, env, prog, pc, next, ids, cts);
    case Binary(gate, l, r) =>
      ids', cts' := CompiledBinary(ps, bk, ks, gate, l, r, env, prog, pc, next, ids, cts);
  }

  /** Where the code of the operand lies, and the wire that the last instruction reads. */
  lemma PlacedOperand(ps: ParamSet, bk: BTKey, ks: SwitchKey, c: Circuit, d: Circuit, env: seq<Ct>, prog: Program,
                      pc: nat, next: nat, ids: seq<nat>, cts: seq<Ct>) returns (mid: nat, u: nat)
    requires Placed(ps, bk, ks, c, env, prog, pc, next, ids, cts) && (c == Not(d) || c == Boot(d))
    ensures Placed(ps, bk, ks, d, env, prog, pc, mid, ids, cts) && next == mid + 1
    ensures Supported(ps) && KeyShape(ps, bk) && SwitchShape(ps, ks) && Usable(ps, env) && InputsBelow(c, |env|)
    ensures u + 1 == |cts| + |Compile(d, |cts|)| && Holds(prog, mid, [if c == Not(d) then Negate(u) else Renew(u)])
  {
    PlacedIs(ps, bk, ks, c, env, prog, pc, next, ids, cts);
    var p := Compile(d, |cts|);
    mid, u := pc + |p|, |cts| + |p| - 1;
    HoldsParts(prog, pc, p, [if c == Not(d) then Negate(u) else Renew(u)], mid);
  }

  lemma UnaryLength(c: Circuit, d: Circuit, n: nat, n1: nat, n': nat)
    requires (c == Not(d) || c == Boot(d)) && n1 == n + |Compile(d, n)| && n' == n1 + 1
    ensures n' == n + |Compile(c, n)|
  {
  }

  lemma {:induction false} CompiledNot(ps: ParamSet, bk: BTKey, ks: SwitchKey, d: Circuit, env: seq<Ct>,
                                       prog: Program, pc: nat, next: nat, ids: seq<nat>, cts: seq<Ct>)
    returns (ids': seq<nat>, cts': seq<Ct>)
    requires Placed(ps, bk, ks, Not(d), env, prog, pc, next, ids, cts)
    ensures CodeOutcome(ps, bk, ks, Not(d), env, prog, pc, next, ids, cts, ids', cts')
    decreases Not(d), 0
  {
    var mid, u := PlacedOperand(ps, bk, ks, Not(d), d, env, prog, pc, next, ids, cts);
    var ids1, cts1 := CompiledRuns(ps, bk, ks, d, env, prog, pc, mid, ids, cts);
    CodeOutcomeIs(ps, bk, ks, d, env, prog, pc, mid, ids, cts, ids1, cts1);
    ids', cts' := ids1, cts1;
    if HomEval(ps, bk, ks, d, env).Success? {
      ids', cts' := NotRuns(ps, bk, ks, d, env, prog, pc, mid, next, ids, cts, ids1, cts1, u);
      UnaryLength(Not(d), d, |cts|, |cts1|, |cts'|);
    }
  }

  lemma {:induction false} CompiledBoot(ps: ParamSet, bk: BTKey, ks: SwitchKey, d: Circuit, env: seq<Ct>,
                                       prog: Program, pc: nat, next: nat, ids: seq<nat>, cts: seq<Ct>)
    returns (ids': seq<nat>, cts': seq<Ct>)
    requires Placed(ps, bk, ks, Boot(d), env, prog, pc, next, ids, cts)
    ensures CodeOutcome(ps, bk, ks, Boot(d), env, prog, pc, next, ids, cts, ids', cts')
    decreases Boot(d), 0
  {
    var mid, u := PlacedOperand(ps, bk, ks, Boot(d), d, env, prog, pc, next, ids, cts);
    var ids1, cts1 := CompiledRuns(ps, bk, ks, d, env, prog, pc, mid, ids, cts);
    CodeOutcomeIs(ps, bk, ks, d, env, prog, pc, mid, ids, cts, ids1, cts1);
    ids', cts' := ids1, cts1;
    if HomEval(ps, bk, ks, d, env).Success? {
      ids', cts' := BootRuns(ps, bk, ks, d, env, prog, pc, mid, next, ids, cts, ids1, cts1, u);
      UnaryLength(Boot(d), d, |cts|, |cts1|, |cts'|);
    }
  }

  /** Where the code of the operands lies, how many wires there are between, and the wires that the gate reads. */
  lemma PlacedOperands(ps: ParamSet, bk: BTKey, ks: SwitchKey, gate: Gate, l: Circuit, r: Circuit, env: seq<Ct>,
                       prog: Program, pc: nat, next: nat, ids: seq<nat>, cts: seq<Ct>)
    returns (mid: nat, mid2: nat, count: nat, u: nat, v: nat)
    requires Placed(ps, bk, ks, Binary(gate, l, r), env, prog, pc, next, ids, cts)
    ensures Placed(ps, bk, ks, l, env, prog, pc, mid, ids, cts) && |env| <= |cts|
    ensures Supported(ps) && KeyShape(ps, bk) && SwitchShape(ps, ks) && Usable(ps, env)
            && InputsBelow(Binary(gate, l, r), |env|)
    ensures count == |cts| + |Compile(l, |cts|)| && SecondPart(prog, gate, r, mid, mid2, next, count, u, v)
  {
    PlacedIs(ps, bk, ks, Binary(gate, l, r), env, prog, pc, next, ids, cts);
    mid, mid2, count, u, v := SecondParts(prog, gate, l, r, pc, next, |cts|);
  }

  lemma SecondParts(prog: Program, gate: Gate, l: Circuit, r: Circuit, pc: nat, next: nat, n: nat)
    returns (mid: nat, mid2: nat, count: nat, u: nat, v: nat)
    requires Holds(prog, pc, Compile(Binary(gate, l, r), n)) && next == pc + |Compile(Binary(gate, l, r), n)|
    ensures Holds(prog, pc, Compile(l, n)) && mid == pc + |Compile(l, n)| && count == n + |Compile(l, n)|
    ensures SecondPart(prog, gate, r, mid, mid2, next, count, u, v)
  {
    var p, q, ins, n2;
    p, q, ins, count, n2, u, v := BinaryCode(gate, l, r, n);
    mid, mid2 := ThreeParts(prog, pc, p, q, ins);
  }

  /** The code of the second operand and the gate itself. */
  ghost predicate SecondPart(prog: Program, gate: Gate, r: Circuit, mid: nat, mid2: nat, next: nat, count: nat, u: nat,
                             v: nat) {
    && Holds(prog, mid, Compile(r, count)) && mid2 == mid + |Compile(r, count)| && next == mid2 + 1
    && Holds(prog, mid2, [Apply(gate, u, v)]) && u + 1 == count && v + 1 == count + |Compile(r, count)|
  }

  /** Where the code of the first operand has succeeded, that of the second one starts. */
  lemma PlacedSecond(ps: ParamSet, bk: BTKey, ks: SwitchKey, gate: Gate, r: Circuit, env: seq<Ct>, prog: Program,
                     mid: nat, mid2: nat, next: nat, count: nat, u: nat, v: nat, ids1: seq<nat>, cts1: seq<Ct>)
    requires Supported(ps) && KeyShape(ps, bk) && SwitchShape(ps, ks) && Usable(ps, env) && InputsBelow(r, |env|)
    requires CanRun(ps, bk, ks, prog, mid, ids1, cts1) && HoldInputs(env, ids1, cts1) && count == |cts1|
    requires SecondPart(prog, gate, r, mid, mid2, next, count, u, v)
    ensures Placed(ps, bk, ks, r, env, prog, mid, mid2, ids1, cts1)
  {
    SameCount(prog, gate, r, mid, mid2, next, count, |cts1|, u, v);
  }

  lemma SameCount(prog: Program, gate: Gate, r: Circuit, mid: nat, mid2: nat, next: nat, count: nat, n: nat, u: nat,
                  v: nat)
    requires SecondPart(prog, gate, r, mid, mid2, next, count, u, v) && count == n
    ensures Holds(prog, mid, Compile(r, n)) && mid2 == mid + |Compile(r, n)|
  {
  }

  lemma CodeOutcomeIs(ps: ParamSet, bk: BTKey, ks: SwitchKey, c: Circuit, env: seq<Ct>, prog: Program, pc: nat,
                      next: nat, ids: seq<nat>, cts: seq<Ct>, ids': seq<nat>, cts': seq<Ct>)
    requires CodeOutcome(ps, bk, ks, c, env, prog, pc, next, ids, cts, ids', cts')
    ensures Supported(ps) && KeyShape(ps, bk) && SwitchShape(ps, ks) && Usable(ps, env) && InputsBelow(c, |env|)
    ensures Compiled(ps, bk, ks, prog, c, env, HomEval(ps, bk, ks, c, env), pc, ids, cts, next, ids', cts')
    ensures HomEval(ps, bk, ks, c, env).Success? ==>
        && |cts'| == |cts| + |Compile(c, |cts|)| && CanRun(ps, bk, ks, prog, next, ids', cts')
        && HoldInputs(env, ids', cts')
  {
  }

  lemma {:induction false} CompiledBinary(ps: ParamSet, bk: BTKey, ks: SwitchKey, gate: Gate, l: Circuit, r: Circuit,
                                          env: seq<Ct>, prog: Program, pc: nat, next: nat, ids: seq<nat>,
                                          cts: seq<Ct>)
    returns (ids': seq<nat>, cts': seq<Ct>)
    requires Placed(ps, bk, ks, Binary(gate, l, r), env, prog, pc, next, ids, cts)
    ensures CodeOutcome(ps, bk, ks, Binary(gate, l, r), env, prog, pc, next, ids, cts, ids', cts')
    decreases Binary(gate, l, r), 0
  {
    var mid, mid2, count, u, v := PlacedOperands(ps, bk, ks, gate, l, r, env, prog, pc, next, ids, cts);
    var ids1, cts1 := CompiledRuns(ps, bk, ks, l, env, prog, pc, mid, ids, cts);
    CodeOutcomeIs(ps, bk, ks, l, env, prog, pc, mid, ids, cts, ids1, cts1);
    ids', cts' := ids1, cts1;
    if HomEval(ps, bk, ks, l, env).Success? {
      PlacedSecond(ps, bk, ks, gate, r, env, prog, mid, mid2, next, count, u, v, ids1, cts1);
      var ids2, cts2 := CompiledRuns(ps, bk, ks, r, env, prog, mid, mid2, ids1, cts1);
      ids', cts' := CompiledBoth(ps, bk, ks, gate, l, r, env, prog, pc, mid, mid2, next, ids, cts, ids1, cts1, ids2,
                                 cts2, count, u, v);
    }
  }

  lemma CompiledBoth(ps: ParamSet, bk: BTKey, ks: SwitchKey, gate: Gate, l: Circuit, r: Circuit, env: seq<Ct>,
                     prog: Program, pc: nat, mid: nat, mid2: nat, next: nat, ids: seq<nat>, cts: seq<Ct>,
                     ids1: seq<nat>, cts1: seq<Ct>, ids2: seq<nat>, cts2: seq<Ct>, count: nat, u: nat, v: nat)
    returns (ids': seq<nat>, cts': seq<Ct>)
    requires Supported(ps) && KeyShape(ps, bk) && SwitchShape(ps, ks) && Usable(ps, env)
             && InputsBelow(Binary(gate, l, r), |env|) && HomEval(ps, bk, ks, l, env).Success?
    requires CodeOutcome(ps, bk, ks, l, env, prog, pc, mid, ids, cts, ids1, cts1)
    requires CodeOutcome(ps, bk, ks, r, env, prog, mid, mid2, ids1, cts1, ids2, cts2)
    requires |env| <= |cts| && count == |cts1| && SecondPart(prog, gate, r, mid, mid2, next, count, u, v)
    ensures CodeOutcome(ps, bk, ks, Binary(gate, l, r), env, prog, pc, next, ids, cts, ids', cts')
  {
    CodeOutcomeIs(ps, bk, ks, l, env, prog, pc, mid, ids, cts, ids1, cts1);
    CodeOutcomeIs(ps, bk, ks, r, env, prog, mid, mid2, ids1, cts1, ids2, cts2);
    if HomEval(ps, bk, ks, r, env).Success? {
      GateWires(prog, gate, r, mid, mid2, next, count, |cts1|, |cts2|, u, v);
      ids', cts' := BinaryRuns(ps, bk, ks, gate, l, r, env, prog, pc, mid, mid2, next, ids, cts, ids1, cts1, ids2,
                               cts2, u, v);
      BinaryLength(gate, l, r, |cts|, |cts1|, |cts2|, |cts'|);
    } else {
      ids', cts' := ids2, cts2;
      CompiledThen(ps, bk, ks, prog, l, Binary(gate, l, r), env, HomEval(ps, bk, ks, l, env),
                   HomEval(ps, bk, ks, Binary(gate, l, r), env), pc, ids, cts, mid, ids1, cts1, next, ids2, cts2);
    }
  }

  lemma GateWires(prog: Program, gate: Gate, r: Circuit, mid: nat, mid2: nat, next: nat, count: nat, n1: nat, n2: nat,
                  u: nat, v: nat)
    requires SecondPart(prog, gate, r, mid, mid2, next, count, u, v) && count == n1 && n2 == n1 + |Compile(r, n1)|
    ensures Holds(prog, mid2, [Apply(gate, u, v)]) && next == mid2 + 1 && u + 1 == n1 && v + 1 == n2 && n1 < n2
  {
  }

  lemma BinaryLength(gate: Gate, l: Circuit, r: Circuit, n: nat, n1: nat, n2: nat, n': nat)
    requires n1 == n + |Compile(l, n)| && n2 == n1 + |Compile(r, n1)|
    ensures n' == n2 + 1 ==> n' == n + |Compile(Binary(gate, l, r), n)|
  {
  }

  /** Wires with objects of their own. */
  function Iota(n: nat): (r: seq<nat>)
    ensures |r| == n && forall i {:trigger r[i]} :: 0 <= i < n ==> r[i] == i
  {
    seq(n, i => i)
  }

  /** A run that fails with the error of x, or whose last wire holds the value of x. */
  ghost predicate Yields(ps: ParamSet, bk: BTKey, ks: SwitchKey, prog: Program, ids: seq<nat>, cts: seq<Ct>,
                         x: Result<Ct>) {
    match x
    case Failure(e) =>
      CanRun(ps, bk, ks, prog, 0, ids, cts) && Run(ps, bk, ks, prog, 0, ids, cts) == Failure(e)
    case Success(ct) =>
      CanRun(ps, bk, ks, prog, 0, ids, cts) && match Run(ps, bk, ks, prog, 0, ids, cts)
      case Failure(_) => false
      case Success(wires) => |wires| > |cts| && wires[|wires| - 1] == ct
  }

  /** For all keys, parameters and inputs: evaluating a circuit is running its program. */
  lemma CircuitAsProgram(ps: ParamSet, bk: BTKey, ks: SwitchKey, c: Circuit, env: seq<Ct>)
    requires Supported(ps) && KeyShape(ps, bk) && SwitchShape(ps, ks) && Usable(ps, env) && InputsBelow(c, |env|)
    ensures Yields(ps, bk, ks, Compile(c, |env|), Iota(|env|), env, HomEval(ps, bk, ks, c, env))
  {
    var prog := Compile(c, |env|);
    WholeProgram(ps, bk, ks, c, env, prog, |prog|);
    var ids', cts' := CompiledRuns(ps, bk, ks, c, env, prog, 0, |prog|, Iota(|env|), env);
    OutcomeYields(ps, bk, ks, c, env, prog, |prog|, Iota(|env|), ids', cts');
  }

  lemma WholeProgram(ps: ParamSet, bk: BTKey, ks: SwitchKey, c: Circuit, env: seq<Ct>, prog: Program, end: nat)
    requires Supported(ps) && KeyShape(ps, bk) && SwitchShape(ps, ks) && Usable(ps, env) && InputsBelow(c, |env|)
    requires prog == Compile(c, |env|) && end == |prog|
    ensures Placed(ps, bk, ks, c, env, prog, 0, end, Iota(|env|), env)
  {
    assert prog[0..0 + |prog|] == prog;
    CompileReads(c, |env|, prog, 0, |env|, |prog|, |env| + |prog|);
  }

  lemma OutcomeYields(ps: ParamSet, bk: BTKey, ks: SwitchKey, c: Circuit, env: seq<Ct>, prog: Program, end: nat,
                      ids: seq<nat>, ids': seq<nat>, cts': seq<Ct>)
    requires CodeOutcome(ps, bk, ks, c, env, prog, 0, end, ids, env, ids', cts') && end == |prog|
    requires Supported(ps) && KeyShape(ps, bk) && SwitchShape(ps, ks) && Usable(ps, env) && InputsBelow(c, |env|)
    ensures Yields(ps, bk, ks, prog, ids, env, HomEval(ps, bk, ks, c, env))
  {
    CodeOutcomeIs(ps, bk, ks, c, env, prog, 0, end, ids, env, ids', cts');
    CompiledYields(ps, bk, ks, prog, c, env, HomEval(ps, bk, ks, c, env), end, ids, ids', cts');
  }

  lemma CompiledYields(ps: ParamSet, bk: BTKey, ks: SwitchKey, prog: Program, c: Circuit, env: seq<Ct>, x: Result<Ct>,
                       end: nat, ids: seq<nat>, ids': seq<nat>, cts': seq<Ct>)
    requires Compiled(ps, bk, ks, prog, c, env, x, 0, ids, env, end, ids', cts') && end == |prog|
    requires x.Success? ==> |cts'| > |env|
    ensures Yields(ps, bk, ks, prog, ids, env, x)
  {
    if x.Success? {
      RunEnds(ps, bk, ks, prog, end, ids', cts');
    }
  }

  lemma RunEnds(ps: ParamSet, bk: BTKey, ks: SwitchKey, prog: Program, end: nat, ids: seq<nat>, cts: seq<Ct>)
    requires CanRun(ps, bk, ks, prog, end, ids, cts) && end == |prog|
    ensures Run(ps, bk, ks, prog, end, ids, cts) == Success(cts)
  {
  }

  // ---------- programs on ciphertext objects ----------

  /** ids tells the objects apart. */
  ghost predicate Named(wires: seq<LWECiphertext>, ids: seq<nat>) {
    && |ids| == |wires|
    && (forall i {:trigger ids[i]} :: 0 <= i < |ids| ==> ids[i] < |ids|)
    && (forall i, j {:trigger wires[i], wires[j]} :: 0 <= i < |ids| && 0 <= j < |ids| ==>
        (wires[i] == wires[j] <==> ids[i] == ids[j]))
  }

  /** The first place from i on where an object occurs. */
  function FirstPlace(wires: seq<LWECiphertext>, ct: LWECiphertext, i: nat): nat
    requires i <= |wires|
    decreases |wires| - i
  {
    if i == |wires| || wires[i] == ct then i else FirstPlace(wires, ct, i + 1)
  }

  lemma {:induction false} FirstPlaceIs(wires: seq<LWECiphertext>, ct: LWECiphertext, i: nat, j: nat)
    requires i <= j < |wires| && wires[j] == ct
    ensures FirstPlace(wires, ct, i) <= j && wires[FirstPlace(wires, ct, i)] == ct
    decreases j - i
  {
    if wires[i] != ct {
      FirstPlaceIs(wires, ct, i + 1, j);
    }
  }

  /** Every object is named by the first wire that holds it. */
  function Names(wires: seq<LWECiphertext>): (r: seq<nat>)
    ensures |r| == |wires| && forall i {:trigger r[i]} :: 0 <= i < |r| ==> r[i] == FirstPlace(wires, wires[i], 0)
  {
    seq(|wires|, i requires 0 <= i < |wires| => FirstPlace(wires, wires[i], 0))
  }

  lemma NamesAreNames(wires: seq<LWECiphertext>)
    ensures Named(wires, Names(wires))
  {
    var ids := Names(wires);
    forall i {:trigger ids[i]} | 0 <= i < |ids|
      ensures ids[i] < |ids| && wires[ids[i]] == wires[i]
    {
      FirstPlaceIs(wires, wires[i], 0, i);
    }
    forall i, j {:trigger wires[i], wires[j]} | 0 <= i < |ids| && 0 <= j < |ids|
      ensures wires[i] == wires[j] <==> ids[i] == ids[j]
    {
      assert wires[ids[i]] == wires[i] && wires[ids[j]] == wires[j];
    }
  }

  lemma NamesExtend(wires: seq<LWECiphertext>, ids: seq<nat>, ct: LWECiphertext, id: nat)
    requires Named(wires, ids) && id <= |ids|
    requires forall i {:trigger wires[i]} :: 0 <= i < |wires| ==> (wires[i] == ct <==> ids[i] == id)
    ensures Named(wires + [ct], ids + [id])
  {
  }

  lemma WireUsable(ps: ParamSet, wires: seq<LWECiphertext>, u: nat)
    requires Usable(ps, Values(wires)) && u < |wires|
    ensures ps.q > 0 && |wires[u].a| == ps.n && InRange(wires[u].Value(), ps.q)
    ensures Values(wires)[u] == wires[u].Value()
  {
    assert Values(wires)[u] == wires[u].Value();
  }

  lemma ValuesMore(wires: seq<LWECiphertext>, ct: LWECiphertext)
    ensures Values(wires + [ct]) == Values(wires) + [ct.Value()]
  {
  }

  lemma SameId(wires: seq<LWECiphertext>, ids: seq<nat>, u: nat, v: nat)
    requires Named(wires, ids) && u < |wires| && v < |wires|
    ensures wires[u] == wires[v] <==> ids[u] == ids[v]
  {
  }

  lemma ApplyOutcome(ps: ParamSet, ek: EvalKey, gate: Gate, wires: seq<LWECiphertext>, u: nat, v: nat,
                     r: Result<LWECiphertext>, same: bool)
    requires Supported(ps) && HasKeys(ek) && KeysShaped(ps, ek) && Usable(ps, Values(wires)) && u < |wires|
             && v < |wires|
    requires Operands(ps, wires[u].Value(), wires[v].Value())
    requires Outcome(r, same, ek, GateValue(ps, ek, gate, wires[u].Value(), wires[v].Value()))
    ensures Same(r, Execute(ps, ek.BSkey.value, ek.KSkey.value, Apply(gate, u, v), same, Values(wires)))
  {
    WireUsable(ps, wires, u);
    WireUsable(ps, wires, v);
    OutcomeIs(ps, ek, gate, wires[u].Value(), wires[v].Value(), r, same);
    ApplyIs(ps, ek.BSkey.value, ek.KSkey.value, gate, u, v, same, Values(wires), wires[u].Value(), wires[v].Value());
  }

  lemma ApplyIs(ps: ParamSet, bk: BTKey, ks: SwitchKey, gate: Gate, u: nat, v: nat, same: bool, cts: seq<Ct>, x: Ct,
                y: Ct)
    requires Supported(ps) && KeyShape(ps, bk) && SwitchShape(ps, ks) && Usable(ps, cts) && u < |cts| && v < |cts|
    requires x == cts[u] && y == cts[v]
    ensures Fresh(ps, Success(x)) && Fresh(ps, Success(y))
    ensures Execute(ps, bk, ks, Apply(gate, u, v), same, cts) == HomGate(ps, bk, ks, gate, same, Success(x), Success(y))
  {
  }

  /** One instruction on objects. */
  method Perform(params: RingGSWCryptoParams, ek: EvalKey, ins: Instruction, wires: seq<LWECiphertext>,
                 ghost ids: seq<nat>)
    returns (r: Result<LWECiphertext>)
    requires CanEvaluate(params, ek, Values(wires)) && Reads(ins, |wires|) && Named(wires, ids)
    ensures Same(r, Execute(params.Set(), ek.BSkey.value, ek.KSkey.value, ins, Clashes(ins, ids), Values(wires)))
    ensures r.Success? ==> if ins.Copy? then r.value == wires[ins.u] else fresh(r.value)
  {
    match ins {
      case Const(v) =>
        var ct := EvalConstant(params, v);
        r := Success(ct);
      case Copy(u) =>
        r := Success(wires[u]);
      case Negate(u) =>
        WireUsable(params.Set(), wires, u);
        r := NotResult(params, Success(wires[u]));
      case Renew(u) =>
        WireUsable(params.Set(), wires, u);
        r := BootResult(params, ek, Success(wires[u]));
      case Apply(gate, u, v) =>
        WireUsable(params.Set(), wires, u);
        WireUsable(params.Set(), wires, v);
        SameId(wires, ids, u, v);
        r := EvalBinGate(params, gate, ek, wires[u], wires[v]);
        ApplyOutcome(params.Set(), ek, gate, wires, u, v, r, ids[u] == ids[v]);
    }
  }

  function RunOn(ps: ParamSet, ek: EvalKey, prog: Program, pc: nat, ids: seq<nat>, cts: seq<Ct>): (r: Result<seq<Ct>>)
    requires CanRunOn(ps, ek, prog, pc, ids, cts)
  {
    Run(ps, ek.BSkey.value, ek.KSkey.value, prog, pc, ids, cts)
  }

  ghost predicate CanRunOn(ps: ParamSet, ek: EvalKey, prog: Program, pc: nat, ids: seq<nat>, cts: seq<Ct>) {
    match ek
    case EvalKey(bs, ks) => bs.Some? && ks.Some? && CanRun(ps, bs.value, ks.value, prog, pc, ids, cts)
  }

  /** What is left of the program yields total. */
  ghost predicate RunLeft(ps: ParamSet, ek: EvalKey, prog: Program, pc: nat, ids: seq<nat>, cts: seq<Ct>,
                          total: Result<seq<Ct>>) {
    // A match in place of selectors keeps the definition folded in proofs.
    match ek
    case EvalKey(_, _) => CanRunOn(ps, ek, prog, pc, ids, cts) && RunOn(ps, ek, prog, pc, ids, cts) == total
  }

  /** The outcome on objects is the outcome on values. */
  ghost predicate SameWires(r: Result<seq<LWECiphertext>>, v: Result<seq<Ct>>) {
    match r
    case Failure(e) => v == Failure(e)
    case Success(wires) => v == Success(Values(wires))
  }

  lemma StepDone(ps: ParamSet, ek: EvalKey, prog: Program, pc: nat, pc': nat, ids: seq<nat>, cts: seq<Ct>,
                 x: Result<Ct>,
                 total: Result<seq<Ct>>)
    requires RunLeft(ps, ek, prog, pc, ids, cts, total) && pc < |prog| && pc' == pc + 1
    requires HasKeys(ek) && Supported(ps) && KeyShape(ps, ek.BSkey.value) && SwitchShape(ps, ek.KSkey.value)
             && Usable(ps, cts)
    requires |ids| == |cts| && Reads(prog[pc], |cts|)
    requires x == Execute(ps, ek.BSkey.value, ek.KSkey.value, prog[pc], Clashes(prog[pc], ids), cts)
    ensures x.Failure? ==> total == Failure(x.error)
    ensures x.Success? ==> RunLeft(ps, ek, prog, pc', ids + [NewId(prog[pc], ids)], cts + [x.value], total)
  {
  }

  /** The next instruction of a program: a new wire, or the error that ends the run. */
  method NextWire(params: RingGSWCryptoParams, ek: EvalKey, prog: Program, pc: nat, pc': nat, wires: seq<LWECiphertext>,
                  ghost ids: seq<nat>, ghost total: Result<seq<Ct>>)
    returns (r: Result<seq<LWECiphertext>>, ghost ids': seq<nat>)
    requires Ready(params) && params.lwe.q < WORD_SIZE && Named(wires, ids) && pc < |prog| && pc' == pc + 1
    requires RunLeft(params.Set(), ek, prog, pc, ids, Values(wires), total)
    ensures r.Failure? ==> total == Failure(r.error)
    ensures r.Success? ==> Named(r.value, ids') && RunLeft(params.Set(), ek, prog, pc', ids', Values(r.value), total)
  {
    var x := Perform(params, ek, prog[pc], wires, ids);
    StepDone(params.Set(), ek, prog, pc, pc', ids, Values(wires),
             if x.Failure? then Failure(x.error) else Success(x.value.Value()), total);
    ids' := ids + [NewId(prog[pc], ids)];
    if x.Failure? {
      return Failure(x.error), ids';
    }
    NamesExtend(wires, ids, x.value, NewId(prog[pc], ids));
    ValuesMore(wires, x.value);
    r := Success(wires + [x.value]);
  }

  /** All wires of a program, run instruction by instruction; wires may share objects from the start. */
  method RunProgram(params: RingGSWCryptoParams, ek: EvalKey, prog: Program, inputs: seq<LWECiphertext>)
    returns (r: Result<seq<LWECiphertext>>)
    requires Ready(params) && params.lwe.q < WORD_SIZE
    requires CanRunOn(params.Set(), ek, prog, 0, Names(inputs), Values(inputs))
    ensures SameWires(r, RunOn(params.Set(), ek, prog, 0, Names(inputs), Values(inputs)))
  {
    var wires := inputs;
    ghost var names := Names(inputs);
    ghost var total := RunOn(params.Set(), ek, prog, 0, Names(inputs), Values(inputs));
    NamesAreNames(inputs);
    for pc := 0 to |prog|
      invariant RunLeft(params.Set(), ek, prog, pc, names, Values(wires), total) && Named(wires, names)
    {
      var next;
      next, names := NextWire(params, ek, prog, pc, pc + 1, wires, names, total);
      if next.Failure? {
        return next;
      }
      wires := next.value;
    }
    r := Success(wires);
  }
}
