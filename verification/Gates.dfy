/**
 The Boolean gates on ciphertext values: the affine combination of the operands, the range
 test that bootstrapping applies to its phase, NOT, and the gates made from others.
 */
module Gates {
  import opened Arith
  import opened Poly
  import opened Negacyclic
  import opened Params
  import opened BlindRotate
  import opened Lwe
  import opened Switching
  import opened Refresh

  // ---------- NOT ----------

  /** Entries of a may equal q, since NOT does not reduce them. */
  predicate InRange(ct: Ct, q: nat) {
    match ct
    case Ct(a, b) => b < q && forall i {:trigger a[i]} :: 0 <= i < |a| ==> a[i] <= q
  }

  function NotValue(ct: Ct, q: nat): (r: Ct)
    requires InRange(ct, q)
    ensures InRange(r, q) && |r.a| == |ct.a|
    ensures forall i {:trigger r.a[i]} :: 0 <= i < |ct.a| ==> r.a[i] == q - ct.a[i]
  {
    Ct(seq(|ct.a|, i requires 0 <= i < |ct.a| => q - ct.a[i]), (q / 4 - ct.b) % q)
  }

  /** NOT twice is the identity on ciphertexts, not only on phases. */
  lemma NotInvolution(ct: Ct, q: nat)
    requires InRange(ct, q)
    ensures NotValue(NotValue(ct, q), q) == ct
  {
    var r := NotValue(NotValue(ct, q), q);
    CongMod(q / 4 - ct.b, q);
    CongSub(q / 4, q / 4, (q / 4 - ct.b) % q, q / 4 - ct.b, q);
    ModIntro(ct.b, 0, ct.b, q);
    assert r.a == ct.a;
  }

  lemma NotPhase(ct: Ct, s: Poly, q: nat)
    requires InRange(ct, q) && |ct.a| == |s|
    ensures Cong(Phase(NotValue(ct, q), s), q / 4 - Phase(ct, s), q)
  {
    var r := NotValue(ct, q);
    NotEqv(ct, q);
    InnerNegated(r.a, ct.a, s, q);
    CongMod(q / 4 - ct.b, q);
    CongSub(r.b, q / 4 - ct.b, Inner(r.a, s), 0 - Inner(ct.a, s), q);
  }

  lemma NotEqv(ct: Ct, q: nat)
    requires InRange(ct, q)
    ensures Eqv(NotValue(ct, q).a, Scale(-1, ct.a), q)
  {
    var r, m := NotValue(ct, q).a, Scale(-1, ct.a);
    forall i | 0 <= i < |r|
      ensures Cong(r[i], m[i], q)
    {
      CongFrom(r[i], m[i], 1, q);
    }
    EqvIntro(r, m, q);
  }

  function NotTimes(ct: Ct, q: nat, k: nat): (r: Ct)
    requires InRange(ct, q)
    ensures InRange(r, q)
  {
    if k == 0 then ct else NotValue(NotTimes(ct, q, k - 1), q)
  }

  /** Any even number of NOTs leaves the ciphertext itself, any odd number its negation, so noise never grows. */
  lemma {:induction false} NotTimesIs(ct: Ct, q: nat, j: nat, k: nat)
    requires InRange(ct, q) && k == 2 * j
    ensures NotTimes(ct, q, k) == ct
    ensures NotTimes(ct, q, k + 1) == NotValue(ct, q)
  {
    if j > 0 {
      NotTimesIs(ct, q, j - 1, k - 2);
      NotInvolution(ct, q);
      assert NotTimes(ct, q, k - 1) == NotValue(ct, q);
    }
  }

  // ---------- what a ciphertext encodes ----------

  /** ct encodes the bit m under s with noise at most beta. */
  ghost predicate Encodes(ps: ParamSet, ct: Ct, s: Poly, m: bool, beta: nat) {
    match ps
    case ParamSet(n, _, q, _, _, _, _, _) =>
      |ct.a| == n && |s| == n && q > 0 && InRange(ct, q) && Near(Phase(ct, s), Quarter(m, q), beta, q)
  }

  lemma EncodedIs(ps: ParamSet, ct: Ct, s: Poly, m: bool, beta: nat) returns (e: int)
    requires Encodes(ps, ct, s, m, beta)
    ensures |ct.a| == |s| == ps.n && ps.q > 0 && InRange(ct, ps.q)
    ensures Abs(e) <= beta && Cong(Phase(ct, s), Quarter(m, ps.q) + e, ps.q)
  {
    e := NearError(Phase(ct, s), Quarter(m, ps.q), beta, ps.q);
  }

  /** The encoded bit is what decryption returns, as long as the noise is below q/8. */
  lemma EncodedDecrypts(ps: ParamSet, ct: Ct, s: Poly, m: bool, beta: nat)
    requires Encodes(ps, ct, s, m, beta) && Supported(ps) && 8 * beta < ps.q
    ensures |ct.a| == |s| && Decode(Phase(ct, s), ps.q) == Bit(m)
  {
    var e := EncodedIs(ps, ct, s, m, beta);
    BitQuarter(m, ps.q);
    LweRoundTrip(ct, s, if m then 1 else 0, ps.q, e);
  }

  lemma NotEncodes(ps: ParamSet, ct: Ct, s: Poly, m: bool, m': bool, beta: nat)
    requires Encodes(ps, ct, s, m, beta) && m' == !m
    ensures InRange(ct, ps.q) && Encodes(ps, NotValue(ct, ps.q), s, m', beta)
  {
    var e := EncodedIs(ps, ct, s, m, beta);
    NotPhase(ct, s, ps.q);
    NotNoise(Phase(ct, s), Phase(NotValue(ct, ps.q), s), m, m', e, beta, ps.q);
  }

  lemma NotNoise(x: int, y: int, m: bool, m': bool, e: int, beta: nat, q: nat)
    requires q > 0 && Cong(y, q / 4 - x, q) && Cong(x, Quarter(m, q) + e, q) && Abs(e) <= beta && m' == !m
    ensures Near(y, Quarter(m', q), beta, q)
  {
    CongSub(q / 4, q / 4, x, Quarter(m, q) + e, q);
    NearIntro(y, Quarter(m', q), 0 - e, beta, q);
  }

  // ---------- the affine combinations ----------

  function AddMod(x: seq<nat>, y: seq<nat>, q: nat): (r: seq<nat>)
    requires |x| == |y| && q > 0
    ensures |r| == |x| && forall i {:trigger r[i]} :: 0 <= i < |x| ==> r[i] == (x[i] + y[i]) % q
  {
    seq(|x|, i requires 0 <= i < |x| => (x[i] + y[i]) % q)
  }

  function AddCt(x: Ct, y: Ct, q: nat): (r: Ct)
    requires |x.a| == |y.a| && q > 0
    ensures |r.a| == |x.a|
  {
    Ct(AddMod(x.a, y.a, q), (x.b + y.b) % q)
  }

  lemma AddModEqv(x: seq<nat>, y: seq<nat>, q: nat)
    requires |x| == |y| && q > 0
    ensures Eqv(AddMod(x, y, q), Add(x, y), q)
  {
    var r, d := AddMod(x, y, q), Add(x, y);
    forall i | 0 <= i < |x|
      ensures Cong(r[i], d[i], q)
    {
      CongMod(d[i], q);
    }
    EqvIntro(r, d, q);
  }

  lemma AddPhase(x: Ct, y: Ct, s: Poly, q: nat)
    requires |x.a| == |y.a| == |s| && q > 0
    ensures Cong(Phase(AddCt(x, y, q), s), Phase(x, s) + Phase(y, s), q)
  {
    AddModEqv(x.a, y.a, q);
    EqvIntro(s, s, q);
    InnerEqv(AddMod(x.a, y.a, q), Add(x.a, y.a), s, s, q);
    InnerLinear(x.a, y.a, 0, s);
    CongMod(x.b + y.b, q);
    CongSub((x.b + y.b) % q, x.b + y.b, Inner(AddMod(x.a, y.a, q), s), Inner(x.a, s) + Inner(y.a, s), q);
  }

  predicate IsFast(gate: Gate) {
    gate.XOR_FAST? || gate.XNOR_FAST?
  }

  /** Twice the difference for the fast gates, the sum for the others. */
  function Combine(gate: Gate, x: Ct, y: Ct, q: nat): (r: Ct)
    requires |x.a| == |y.a| && q > 0
    ensures |r.a| == |x.a|
  {
    if IsFast(gate) then AddCt(SubCt(x, y, q), SubCt(x, y, q), q) else AddCt(x, y, q)
  }

  /** The phase that the gate looks up, for operand bits m1, m2 and combined noise e. */
  function GatePhase(gate: Gate, m1: bool, m2: bool, e: int, q: nat): int {
    if IsFast(gate) then 2 * (Quarter(m1, q) - Quarter(m2, q)) + e else Quarter(m1, q) + Quarter(m2, q) + e
  }

  /** The noise of the combination. */
  function CombinedNoise(gate: Gate, e1: int, e2: int): int {
    if IsFast(gate) then 2 * (e1 - e2) else e1 + e2
  }

  lemma CombinePhase(gate: Gate, x: Ct, y: Ct, s: Poly, m1: bool, m2: bool, e1: int, e2: int, q: nat)
    requires |x.a| == |y.a| == |s| && q > 0 && q % 4 == 0
    requires Cong(Phase(x, s), Quarter(m1, q) + e1, q) && Cong(Phase(y, s), Quarter(m2, q) + e2, q)
    ensures Cong(Phase(Combine(gate, x, y, q), s), GatePhase(gate, m1, m2, CombinedNoise(gate, e1, e2), q), q)
  {
    var a, b := Quarter(m1, q) + e1, Quarter(m2, q) + e2;
    if IsFast(gate) {
      var d := SubCt(x, y, q);
      SubPhase(x, y, s, q);
      CongSub(Phase(x, s), a, Phase(y, s), b, q);
      AddPhase(d, d, s, q);
      CongAdd(Phase(d, s), a - b, Phase(d, s), a - b, q);
    } else {
      AddPhase(x, y, s, q);
      CongAdd(Phase(x, s), a, Phase(y, s), b, q);
    }
  }

  // ---------- the range test ----------

  function GateBit(gate: Gate, x: bool, y: bool): bool {
    match gate
    case OR => x || y
    case AND => x && y
    case NOR => !(x || y)
    case NAND => !(x && y)
    case XOR_FAST => x != y
    case XNOR_FAST => x == y
    case XOR => x != y
    case XNOR => x == y
  }

  predicate IsDirect(gate: Gate) {
    !gate.XOR? && !gate.XNOR?
  }

  lemma WindowIs(y: int, x: int, start: nat, q: nat)
    requires q > 0 && y == x - start && -2 * q <= y < 2 * q
    ensures InWindow(x, start, q) <==>
            (0 <= y < q / 2) || (q <= y < q + q / 2) || (0 - q <= y < q / 2 - q) || (-2 * q <= y < q / 2 - 2 * q)
  {
    if y >= q {
      ModIntro(y, 1, y - q, q);
    } else if y >= 0 {
      ModIntro(y, 0, y, q);
    } else if y >= 0 - q {
      ModIntro(y, -1, y + q, q);
    } else {
      ModIntro(y, -2, y + 2 * q, q);
    }
  }

  /** With combined noise e the gate's range gives the right bit for this pair of operands. */
  predicate GateRight(gate: Gate, m1: bool, m2: bool, e: int, q: nat)
    requires IsDirect(gate) && q > 0
  {
    OutBit(GatePhase(gate, m1, m2, e, q), GateStart(gate, q), q) == GateBit(gate, m1, m2)
  }

  /** The noise that a gate tolerates whatever its operands are. */
  predicate NoiseWindow(gate: Gate, e: int, q: nat) {
    if IsFast(gate) then 0 - 3 * (q / 8) <= e < q / 8 else 0 - q / 8 <= e < q / 8
  }

  lemma StartIs(gate: Gate, h: nat, q: nat)
    requires IsDirect(gate) && q == 8 * h
    ensures GateStart(gate, q) == match gate
      case OR => 5 * h
      case AND => 7 * h
      case NOR => h
      case NAND => 3 * h
      case XOR_FAST => 5 * h
      case XNOR_FAST => h
  {
  }

  lemma QuarterIs(h: nat, q: nat)
    requires q == 8 * h
    ensures q / 4 == 2 * h
  {
    ModIntro(q, 2 * h, 0, 4);
  }

  lemma PhaseIs(gate: Gate, m1: bool, m2: bool, e: int, h: nat, q: nat)
    requires IsDirect(gate) && q == 8 * h
    ensures GatePhase(gate, m1, m2, e, q) ==
      if IsFast(gate) then (if m1 == m2 then e else if m1 then 4 * h + e else e - 4 * h)
      else if m1 && m2 then 4 * h + e else if m1 || m2 then 2 * h + e else e
  {
    QuarterIs(h, q);
  }

  lemma PairTolerates(gate: Gate, m1: bool, m2: bool, e: int, h: nat, q: nat)
    requires IsDirect(gate) && q == 8 * h && h > 0 && -4 * h <= e < 4 * h
    ensures NoiseWindow(gate, e, q) ==> GateRight(gate, m1, m2, e, q)
  {
    var x, start := GatePhase(gate, m1, m2, e, q), GateStart(gate, q);
    StartIs(gate, h, q);
    PhaseIs(gate, m1, m2, e, h, q);
    WindowIs(x - start, x, start, q);
  }

  lemma GateTolerates(gate: Gate, m1: bool, m2: bool, e: int, q: nat)
    requires IsDirect(gate) && q > 0 && q % 8 == 0 && 0 - q <= 2 * e < q && NoiseWindow(gate, e, q)
    ensures GateRight(gate, m1, m2, e, q)
  {
    PairTolerates(gate, m1, m2, e, q / 8, q);
  }

  /** A pair of operands that the noise e spoils. */
  lemma PairSpoiled(gate: Gate, e: int, h: nat, q: nat) returns (m1: bool, m2: bool)
    requires IsDirect(gate) && q == 8 * h && h > 0 && -4 * h <= e < 4 * h && !NoiseWindow(gate, e, q)
    ensures !GateRight(gate, m1, m2, e, q)
  {
    var one := (gate.OR? || gate.NOR?) == (e < 0);
    m1, m2 := one && !IsFast(gate), false;
    var x, start := GatePhase(gate, m1, m2, e, q), GateStart(gate, q);
    StartIs(gate, h, q);
    PhaseIs(gate, m1, m2, e, h, q);
    WindowIs(x - start, x, start, q);
  }

  /** A direct gate is right for all operands if and only if the combined noise lies in its window. */
  lemma GateConstants(gate: Gate, e: int, q: nat)
    requires IsDirect(gate) && q > 0 && q % 8 == 0 && 0 - q <= 2 * e < q
    ensures (forall m1: bool, m2: bool {:trigger GateRight(gate, m1, m2, e, q)} :: GateRight(gate, m1, m2, e, q))
            <==> NoiseWindow(gate, e, q)
  {
    var h := q / 8;
    if NoiseWindow(gate, e, q) {
      forall m1: bool, m2: bool {:trigger GateRight(gate, m1, m2, e, q)}
        ensures GateRight(gate, m1, m2, e, q)
      {
        PairTolerates(gate, m1, m2, e, h, q);
      }
    } else {
      var m1, m2 := PairSpoiled(gate, e, h, q);
    }
  }

  /** The phase that bootstrapping alone looks up. */
  function BootPhase(m: bool, e: int, q: nat): int {
    Quarter(m, q) + e + q / 4
  }

  predicate BootKeeps(m: bool, e: int, q: nat)
    requires q > 0
  {
    OutBit(BootPhase(m, e, q), GateStart(AND, q), q) == m
  }

  lemma BootPhaseIs(m: bool, e: int, h: nat, q: nat)
    requires q == 8 * h
    ensures BootPhase(m, e, q) == if m then 4 * h + e else 2 * h + e
  {
    QuarterIs(h, q);
  }

  /** 0 tolerates more noise below, 1 more above. */
  lemma BootKeepsIff(m: bool, e: int, h: nat, q: nat)
    requires q == 8 * h && h > 0 && -4 * h <= e < 4 * h
    ensures BootKeeps(m, e, q) <==> if m then 0 - h <= e < 3 * h else -3 * h <= e < h
  {
    var x := if m then 4 * h + e else 2 * h + e;
    BootPhaseIs(m, e, h, q);
    StartIs(AND, h, q);
    WindowIs(x - 7 * h, x, 7 * h, q);
  }

  /**
   Bootstrapping alone adds q/4 and applies the range of AND: right for both bits exactly for noise
   in that window.
   */
  lemma BootstrapConstants(e: int, q: nat)
    requires q > 0 && q % 8 == 0 && 0 - q <= 2 * e < q
    ensures (forall m: bool {:trigger BootKeeps(m, e, q)} :: BootKeeps(m, e, q)) <==> 0 - q / 8 <= e < q / 8
  {
    BootKeepsIff(false, e, q / 8, q);
    BootKeepsIff(true, e, q / 8, q);
    assert BootKeeps(false, e, q) && BootKeeps(true, e, q) ==> forall m: bool {:trigger BootKeeps(m, e, q)} ::
        BootKeeps(m, e, q);
  }

  // ---------- gates on ciphertexts ----------

  lemma FinishInRange(ps: ParamSet, ks: SwitchKey, acc: seq<Poly>)
    requires Supported(ps) && SwitchShape(ps, ks) && IsAcc(ps, acc)
    ensures InRange(Finish(ps, ks, acc), ps.q) && Reduced(Finish(ps, ks, acc).a, ps.q)
  {
  }

  /** A gate that takes one bootstrapping. */
  function DirectGate(ps: ParamSet, bk: BTKey, ks: SwitchKey, gate: Gate, x: Ct, y: Ct): (r: Ct)
    requires Supported(ps) && KeyShape(ps, bk) && SwitchShape(ps, ks) && IsDirect(gate) && |x.a| == |y.a| == ps.n
    ensures |r.a| == ps.n && InRange(r, ps.q)
  {
    var acc := BootstrapValue(ps, bk, GateStart(gate, ps.q), Combine(gate, x, y, ps.q));
    FinishInRange(ps, ks, acc);
    Finish(ps, ks, acc)
  }

  /** XOR as (x and not y) or (not x and y). */
  function XorGate(ps: ParamSet, bk: BTKey, ks: SwitchKey, x: Ct, y: Ct): (r: Ct)
    requires Supported(ps) && KeyShape(ps, bk) && SwitchShape(ps, ks) && |x.a| == |y.a| == ps.n
    requires InRange(x, ps.q) && InRange(y, ps.q)
    ensures |r.a| == ps.n && InRange(r, ps.q)
  {
    DirectGate(ps, bk, ks, OR,
      DirectGate(ps, bk, ks, AND, x, NotValue(y, ps.q)),
      DirectGate(ps, bk, ks, AND, NotValue(x, ps.q), y))
  }

  lemma XorGateIs(ps: ParamSet, bk: BTKey, ks: SwitchKey, x: Ct, y: Ct, x': Ct, y': Ct, u: Ct, v: Ct)
    requires Supported(ps) && KeyShape(ps, bk) && SwitchShape(ps, ks) && |x.a| == |y.a| == |x'.a| == |y'.a| == ps.n
    requires InRange(x, ps.q) && InRange(y, ps.q) && x' == NotValue(x, ps.q) && y' == NotValue(y, ps.q)
    requires u == DirectGate(ps, bk, ks, AND, x, y') && v == DirectGate(ps, bk, ks, AND, x', y)
    ensures XorGate(ps, bk, ks, x, y) == DirectGate(ps, bk, ks, OR, u, v)
  {
  }

  function EvalGate(ps: ParamSet, bk: BTKey, ks: SwitchKey, gate: Gate, x: Ct, y: Ct): (r: Ct)
    requires Supported(ps) && KeyShape(ps, bk) && SwitchShape(ps, ks) && |x.a| == |y.a| == ps.n
    requires InRange(x, ps.q) && InRange(y, ps.q)
    ensures |r.a| == ps.n && InRange(r, ps.q)
  {
    match gate
    case XOR => XorGate(ps, bk, ks, x, y)
    case XNOR => NotValue(XorGate(ps, bk, ks, x, y), ps.q)
    case _ => DirectGate(ps, bk, ks, gate, x, y)
  }

  lemma EvalDirect(ps: ParamSet, bk: BTKey, ks: SwitchKey, gate: Gate, x: Ct, y: Ct)
    requires Supported(ps) && KeyShape(ps, bk) && SwitchShape(ps, ks) && |x.a| == |y.a| == ps.n
    requires InRange(x, ps.q) && InRange(y, ps.q) && IsDirect(gate)
    ensures EvalGate(ps, bk, ks, gate, x, y) == DirectGate(ps, bk, ks, gate, x, y)
  {
  }

  function AddQuarter(x: Ct, q: nat): (r: Ct)
    requires q > 0
    ensures |r.a| == |x.a|
  {
    Ct(x.a, (x.b + q / 4) % q)
  }

  /** Bootstrapping of one ciphertext, to reduce its noise. */
  function BootstrapCt(ps: ParamSet, bk: BTKey, ks: SwitchKey, x: Ct): (r: Ct)
    requires Supported(ps) && KeyShape(ps, bk) && SwitchShape(ps, ks) && |x.a| == ps.n
    ensures |r.a| == ps.n && InRange(r, ps.q)
  {
    var acc := BootstrapValue(ps, bk, GateStart(AND, ps.q), AddQuarter(x, ps.q));
    FinishInRange(ps, ks, acc);
    Finish(ps, ks, acc)
  }

  /** Parameters, keys, secrets and the noise that one bootstrapping may leave. */
  datatype World = World(ps: ParamSet, bk: BTKey, ks: SwitchKey, s: Poly, z: Poly, betaB: nat, betaK: nat, betaOut: nat)

  /**
   Whatever the keys, the parameters and the noise are: the phase of a direct gate, times Q, is q times the value that
   the gate's range gives for the phase of the combination, with the noise of the bootstrapping, modulo q * Q.
   */
  lemma DirectGateExact(ps: ParamSet, bk: BTKey, ks: SwitchKey, s: Poly, z: Poly, gate: Gate, x: Ct, y: Ct)
    requires CanRotate(ps, bk, s, z) && SwitchShape(ps, ks) && IsDirect(gate) && |x.a| == |y.a| == ps.n
    ensures Supported(ps) && KeyShape(ps, bk) && |s| == ps.n && ps.q * ps.Q > 0
    ensures CanBoot(ps, bk, ks, s, z, Combine(gate, x, y, ps.q))
    ensures Cong(ps.Q * Phase(DirectGate(ps, bk, ks, gate, x, y), s),
                 NoisyOutcome(ps, bk, ks, s, z, GateStart(gate, ps.q), Combine(gate, x, y, ps.q)), ps.q * ps.Q)
  {
    CanRotateIs(ps, bk, s, z);
    FinishExact(ps, bk, ks, s, z, GateStart(gate, ps.q), Combine(gate, x, y, ps.q));
  }

  /** The same for bootstrapping alone: q/4 is added and the range of AND applied. */
  lemma BootstrapCtExact(ps: ParamSet, bk: BTKey, ks: SwitchKey, s: Poly, z: Poly, x: Ct)
    requires CanRotate(ps, bk, s, z) && SwitchShape(ps, ks) && |x.a| == ps.n
    ensures Supported(ps) && KeyShape(ps, bk) && |s| == ps.n && ps.q * ps.Q > 0
    ensures CanBoot(ps, bk, ks, s, z, AddQuarter(x, ps.q))
    ensures Cong(ps.Q * Phase(BootstrapCt(ps, bk, ks, x), s),
                 NoisyOutcome(ps, bk, ks, s, z, GateStart(AND, ps.q), AddQuarter(x, ps.q)), ps.q * ps.Q)
  {
    CanRotateIs(ps, bk, s, z);
    FinishExact(ps, bk, ks, s, z, GateStart(AND, ps.q), AddQuarter(x, ps.q));
  }

  /** The phase of r, times Q, is what the gate's range gives for the phase of the combination, noise included. */
  ghost predicate GateOutcome(ps: ParamSet, bk: BTKey, ks: SwitchKey, s: Poly, z: Poly, gate: Gate, x: Ct, y: Ct,
                              r: Ct) {
    // A match in place of selectors keeps the definition folded in proofs.
    match ps
    case ParamSet(n, _, q, Q, _, _, _, _) =>
      && CanRotate(ps, bk, s, z) && SwitchShape(ps, ks) && IsDirect(gate) && |x.a| == |y.a| == |r.a| == |s| == n
      && q > 0 && q * Q > 0 && CanBoot(ps, bk, ks, s, z, Combine(gate, x, y, q))
      && Cong(Q * Phase(r, s), NoisyOutcome(ps, bk, ks, s, z, GateStart(gate, q), Combine(gate, x, y, q)), q * Q)
  }

  lemma DirectOutcome(ps: ParamSet, bk: BTKey, ks: SwitchKey, s: Poly, z: Poly, gate: Gate, x: Ct, y: Ct, r: Ct)
    requires CanRotate(ps, bk, s, z) && SwitchShape(ps, ks) && IsDirect(gate) && |x.a| == |y.a| == ps.n
    requires Supported(ps) && KeyShape(ps, bk) && r == DirectGate(ps, bk, ks, gate, x, y)
    ensures GateOutcome(ps, bk, ks, s, z, gate, x, y, r)
  {
    DirectGateExact(ps, bk, ks, s, z, gate, x, y);
  }

  /** The three bootstrappings of XOR: u is the outcome of x and y', v that of x' and y, and r that of u or v. */
  lemma XorGateExact(ps: ParamSet, bk: BTKey, ks: SwitchKey, s: Poly, z: Poly, x: Ct, y: Ct, x': Ct, y': Ct, r: Ct)
    returns (u: Ct, v: Ct)
    requires CanRotate(ps, bk, s, z) && SwitchShape(ps, ks) && Supported(ps) && KeyShape(ps, bk)
    requires |x.a| == |y.a| == |x'.a| == |y'.a| == ps.n && InRange(x, ps.q) && InRange(y, ps.q)
    requires x' == NotValue(x, ps.q) && y' == NotValue(y, ps.q) && r == EvalGate(ps, bk, ks, XOR, x, y)
    ensures GateOutcome(ps, bk, ks, s, z, AND, x, y', u)
    ensures GateOutcome(ps, bk, ks, s, z, AND, x', y, v)
    ensures GateOutcome(ps, bk, ks, s, z, OR, u, v, r)
  {
    u := DirectGate(ps, bk, ks, AND, x, y');
    v := DirectGate(ps, bk, ks, AND, x', y);
    XorGateIs(ps, bk, ks, x, y, x', y', u, v);
    DirectOutcome(ps, bk, ks, s, z, AND, x, y', u);
    DirectOutcome(ps, bk, ks, s, z, AND, x', y, v);
    DirectOutcome(ps, bk, ks, s, z, OR, u, v, r);
  }

  lemma XnorGateExact(ps: ParamSet, bk: BTKey, ks: SwitchKey, s: Poly, x: Ct, y: Ct, r: Ct, r': Ct)
    requires Supported(ps) && KeyShape(ps, bk) && SwitchShape(ps, ks) && |x.a| == |y.a| == |s| == ps.n
    requires InRange(x, ps.q) && InRange(y, ps.q)
    requires r == EvalGate(ps, bk, ks, XOR, x, y) && r' == EvalGate(ps, bk, ks, XNOR, x, y)
    ensures |r.a| == |r'.a| == |s| && Cong(Phase(r', s), ps.q / 4 - Phase(r, s), ps.q)
  {
    NotPhase(r, s, ps.q);
  }

  /** Input noise beta is small enough for the gate. */
  predicate Margin(gate: Gate, beta: nat, q: nat) {
    match gate
    case XOR_FAST => 32 * beta < q
    case XNOR_FAST => 32 * beta < q
    case _ => 16 * beta < q
  }

  lemma CombinedWithin(gate: Gate, e1: int, e2: int, beta: nat, q: nat)
    requires Abs(e1) <= beta && Abs(e2) <= beta && Margin(gate, beta, q) && q % 8 == 0
    ensures NoiseWindow(gate, CombinedNoise(gate, e1, e2), q) && 0 - q <= 2 * CombinedNoise(gate, e1, e2) < q
  {
  }

  /** The range of the gate gives the right bit for the phase of the combination. */
  lemma GateLooksUp(ps: ParamSet, gate: Gate, x: Ct, y: Ct, s: Poly, m1: bool, m2: bool, beta: nat)
    requires Supported(ps) && IsDirect(gate) && Margin(gate, beta, ps.q)
    requires Encodes(ps, x, s, m1, beta) && Encodes(ps, y, s, m2, beta)
    ensures |x.a| == |y.a| == |s| == ps.n
    ensures OutBit(Phase(Combine(gate, x, y, ps.q), s), GateStart(gate, ps.q), ps.q) == GateBit(gate, m1, m2)
  {
    var e1 := EncodedIs(ps, x, s, m1, beta);
    var e2 := EncodedIs(ps, y, s, m2, beta);
    CombinationLooksUp(gate, x, y, s, m1, m2, e1, e2, beta, ps.q);
  }

  lemma CombinationLooksUp(gate: Gate, x: Ct, y: Ct, s: Poly, m1: bool, m2: bool, e1: int, e2: int, beta: nat, q: nat)
    requires IsDirect(gate) && Margin(gate, beta, q) && q > 0 && q % 8 == 0 && |x.a| == |y.a| == |s|
    requires Abs(e1) <= beta && Cong(Phase(x, s), Quarter(m1, q) + e1, q)
    requires Abs(e2) <= beta && Cong(Phase(y, s), Quarter(m2, q) + e2, q)
    ensures OutBit(Phase(Combine(gate, x, y, q), s), GateStart(gate, q), q) == GateBit(gate, m1, m2)
  {
    CombinePhase(gate, x, y, s, m1, m2, e1, e2, q);
    NoiseLooksUp(gate, Phase(Combine(gate, x, y, q), s), m1, m2, e1, e2, beta, q);
  }

  lemma NoiseLooksUp(gate: Gate, phase: int, m1: bool, m2: bool, e1: int, e2: int, beta: nat, q: nat)
    requires IsDirect(gate) && Margin(gate, beta, q) && q > 0 && q % 8 == 0 && Abs(e1) <= beta && Abs(e2) <= beta
    requires Cong(phase, GatePhase(gate, m1, m2, CombinedNoise(gate, e1, e2), q), q)
    ensures OutBit(phase, GateStart(gate, q), q) == GateBit(gate, m1, m2)
  {
    CombinedWithin(gate, e1, e2, beta, q);
    GateTolerates(gate, m1, m2, CombinedNoise(gate, e1, e2), q);
    SameBit(phase, GatePhase(gate, m1, m2, CombinedNoise(gate, e1, e2), q), GateStart(gate, q), q);
  }

  // ---------- gates in one particular run ----------

  /** Everything has the right shape; nothing is said about errors. */
  ghost predicate Shaped(w: World) {
    match w
    case World(ps, bk, ks, s, z, _, _, _) => CanRotate(ps, bk, s, z) && SwitchShape(ps, ks)
  }

  lemma ShapedIs(w: World)
    requires Shaped(w)
    ensures Supported(w.ps) && KeyShape(w.ps, w.bk) && SwitchShape(w.ps, w.ks) && |w.s| == w.ps.n && |w.z| == w.ps.N
    ensures CanRotate(w.ps, w.bk, w.s, w.z)
  {
    CanRotateIs(w.ps, w.bk, w.s, w.z);
  }

  /** The errors that occur when ct is bootstrapped are small enough for betaOut, however large they could have been. */
  ghost predicate BootFits(w: World, start: nat, ct: Ct) {
    // A match in place of selectors keeps the definition folded in proofs.
    match w
    case World(ps, bk, ks, s, z, _, _, betaOut) =>
      && Shaped(w) && |ct.a| == ps.n && CanBoot(ps, bk, ks, s, z, ct)
      && ErrorsFit(ps, RotationSize(ps, bk, s, z, start, ct), SelectedSize(ps, bk, ks, s, z, start, ct),
                   RoundingSize(ps, bk, ks, s, z, start, ct), betaOut)
  }

  /** The same for the one bootstrapping of a direct gate. */
  ghost predicate DirectFits(w: World, gate: Gate, x: Ct, y: Ct) {
    // A match in place of selectors keeps the definition folded in proofs.
    match w
    case World(ps, _, _, _, _, _, _, _) =>
      && Shaped(w) && IsDirect(gate) && |x.a| == |y.a| == ps.n
      && BootFits(w, GateStart(gate, ps.q), Combine(gate, x, y, ps.q))
  }

  /** The same for the three bootstrappings of XOR and XNOR. */
  ghost predicate XorFits(w: World, x: Ct, y: Ct) {
    match w
    case World(ps, bk, ks, _, _, _, _, _) =>
      && Shaped(w) && |x.a| == |y.a| == ps.n && InRange(x, ps.q) && InRange(y, ps.q)
      && DirectFits(w, AND, x, NotValue(y, ps.q)) && DirectFits(w, AND, NotValue(x, ps.q), y)
      && DirectFits(w, OR, DirectGate(ps, bk, ks, AND, x, NotValue(y, ps.q)),
                    DirectGate(ps, bk, ks, AND, NotValue(x, ps.q), y))
  }

  /** The errors of all bootstrappings that the gate performs are small enough. */
  ghost predicate GateFits(w: World, gate: Gate, x: Ct, y: Ct) {
    match gate
    case XOR => XorFits(w, x, y)
    case XNOR => XorFits(w, x, y)
    case _ => DirectFits(w, gate, x, y)
  }

  /** A bootstrapped gate encodes the right bit; its noise does not depend on that of the operands. */
  lemma DirectGateActual(w: World, gate: Gate, x: Ct, y: Ct, m1: bool, m2: bool, beta: nat)
    requires DirectFits(w, gate, x, y) && Margin(gate, beta, w.ps.q)
    requires Encodes(w.ps, x, w.s, m1, beta) && Encodes(w.ps, y, w.s, m2, beta)
    ensures Shaped(w) && IsDirect(gate) && |x.a| == |y.a| == w.ps.n
    ensures Encodes(w.ps, DirectGate(w.ps, w.bk, w.ks, gate, x, y), w.s, GateBit(gate, m1, m2), w.betaOut)
  {
    ShapedIs(w);
    GateLooksUp(w.ps, gate, x, y, w.s, m1, m2, beta);
    LookedUp(w, Combine(gate, x, y, w.ps.q), GateStart(gate, w.ps.q), GateBit(gate, m1, m2));
  }

  lemma SameBit(x: int, y: int, start: nat, q: nat)
    requires q > 0 && Cong(x, y, q)
    ensures OutBit(x, start, q) == OutBit(y, start, q)
  {
    CongSub(x, y, start, start, q);
  }

  /** The bit looked up for the phase of ct is what the bootstrapped ciphertext encodes. */
  lemma LookedUp(w: World, ct: Ct, start: nat, m: bool)
    requires BootFits(w, start, ct) && |ct.a| == |w.s| && w.ps.q > 0 && OutBit(Phase(ct, w.s), start, w.ps.q) == m
    ensures Shaped(w) && Supported(w.ps) && KeyShape(w.ps, w.bk) && SwitchShape(w.ps, w.ks) && |ct.a| == w.ps.n
    ensures Encodes(w.ps, Finish(w.ps, w.ks, BootstrapValue(w.ps, w.bk, start, ct)), w.s, m, w.betaOut)
  {
    ShapedIs(w);
    RoundedWithin(w.ps, w.bk, w.ks, w.s, w.z, start, ct);
    FinishActual(w.ps, w.bk, w.ks, w.s, w.z, start, ct, Finish(w.ps, w.ks, BootstrapValue(w.ps, w.bk, start, ct)),
                 RoundingSize(w.ps, w.bk, w.ks, w.s, w.z, start, ct), w.betaOut);
    FinishInRange(w.ps, w.ks, BootstrapValue(w.ps, w.bk, start, ct));
  }

  lemma BitQuarter(m: bool, q: nat)
    ensures Bit(m) * (q / 4) == Quarter(m, q)
  {
    assert 1 * (q / 4) == q / 4 && 0 * (q / 4) == 0;
  }

  /** XOR through AND, OR and NOT. */
  lemma XorGateActual(w: World, x: Ct, y: Ct, m1: bool, m2: bool, beta: nat)
    requires XorFits(w, x, y) && Margin(AND, beta, w.ps.q) && Margin(OR, w.betaOut, w.ps.q)
    requires Encodes(w.ps, x, w.s, m1, beta) && Encodes(w.ps, y, w.s, m2, beta)
    ensures Shaped(w) && |x.a| == |y.a| == w.ps.n && InRange(x, w.ps.q) && InRange(y, w.ps.q)
    ensures Encodes(w.ps, XorGate(w.ps, w.bk, w.ks, x, y), w.s, GateBit(XOR, m1, m2), w.betaOut)
  {
    var u, v := XorHalves(w, x, y, m1, m2, beta);
    XorBits(m1, m2);
    XorGateIs(w.ps, w.bk, w.ks, x, y, NotValue(x, w.ps.q), NotValue(y, w.ps.q), u, v);
    DirectGateActual(w, OR, u, v, GateBit(AND, m1, !m2), GateBit(AND, !m1, m2), w.betaOut);
  }

  /** The two ANDs. */
  lemma XorHalves(w: World, x: Ct, y: Ct, m1: bool, m2: bool, beta: nat) returns (u: Ct, v: Ct)
    requires XorFits(w, x, y) && Margin(AND, beta, w.ps.q)
    requires Encodes(w.ps, x, w.s, m1, beta) && Encodes(w.ps, y, w.s, m2, beta)
    ensures Shaped(w) && |x.a| == |y.a| == w.ps.n && InRange(x, w.ps.q) && InRange(y, w.ps.q)
    ensures u == DirectGate(w.ps, w.bk, w.ks, AND, x, NotValue(y, w.ps.q)) && DirectFits(w, OR, u, v)
    ensures v == DirectGate(w.ps, w.bk, w.ks, AND, NotValue(x, w.ps.q), y)
    ensures Encodes(w.ps, u, w.s, GateBit(AND, m1, !m2), w.betaOut)
    ensures Encodes(w.ps, v, w.s, GateBit(AND, !m1, m2), w.betaOut)
  {
    u := DirectGate(w.ps, w.bk, w.ks, AND, x, NotValue(y, w.ps.q));
    v := DirectGate(w.ps, w.bk, w.ks, AND, NotValue(x, w.ps.q), y);
    NotEncodes(w.ps, x, w.s, m1, !m1, beta);
    NotEncodes(w.ps, y, w.s, m2, !m2, beta);
    DirectGateActual(w, AND, x, NotValue(y, w.ps.q), m1, !m2, beta);
    DirectGateActual(w, AND, NotValue(x, w.ps.q), y, !m1, m2, beta);
  }

  lemma XnorBit(x: bool, y: bool)
    ensures GateBit(XNOR, x, y) == !GateBit(XOR, x, y)
  {
  }

  lemma XorBits(x: bool, y: bool)
    ensures GateBit(OR, GateBit(AND, x, !y), GateBit(AND, !x, y)) == GateBit(XOR, x, y)
  {
  }

  /** The noise that the operands may have, and that the intermediate results of XOR and XNOR have. */
  predicate Margins(gate: Gate, beta: nat, betaOut: nat, q: nat) {
    match gate
    case XOR => Margin(AND, beta, q) && Margin(OR, betaOut, q)
    case XNOR => Margin(AND, beta, q) && Margin(OR, betaOut, q)
    case _ => Margin(gate, beta, q)
  }

  lemma XnorActual(w: World, x: Ct, y: Ct, m1: bool, m2: bool, beta: nat)
    requires XorFits(w, x, y) && Margin(AND, beta, w.ps.q) && Margin(OR, w.betaOut, w.ps.q)
    requires Encodes(w.ps, x, w.s, m1, beta) && Encodes(w.ps, y, w.s, m2, beta)
    ensures Shaped(w) && |x.a| == |y.a| == w.ps.n && InRange(x, w.ps.q) && InRange(y, w.ps.q)
    ensures Encodes(w.ps, NotValue(XorGate(w.ps, w.bk, w.ks, x, y), w.ps.q), w.s, GateBit(XNOR, m1, m2), w.betaOut)
  {
    XorGateActual(w, x, y, m1, m2, beta);
    XnorBit(m1, m2);
    NotEncodes(w.ps, XorGate(w.ps, w.bk, w.ks, x, y), w.s, GateBit(XOR, m1, m2), GateBit(XNOR, m1, m2), w.betaOut);
  }

  lemma EvalXorIs(ps: ParamSet, bk: BTKey, ks: SwitchKey, gate: Gate, x: Ct, y: Ct)
    requires Supported(ps) && KeyShape(ps, bk) && SwitchShape(ps, ks) && |x.a| == |y.a| == ps.n
    requires InRange(x, ps.q) && InRange(y, ps.q) && gate.XOR?
    ensures EvalGate(ps, bk, ks, gate, x, y) == XorGate(ps, bk, ks, x, y)
  {
  }

  lemma EvalXnorIs(ps: ParamSet, bk: BTKey, ks: SwitchKey, gate: Gate, x: Ct, y: Ct)
    requires Supported(ps) && KeyShape(ps, bk) && SwitchShape(ps, ks) && |x.a| == |y.a| == ps.n
    requires InRange(x, ps.q) && InRange(y, ps.q) && gate.XNOR?
    ensures EvalGate(ps, bk, ks, gate, x, y) == NotValue(XorGate(ps, bk, ks, x, y), ps.q)
  {
  }

  /** Whatever the keys are: every gate encodes the right bit if the errors of its own run fit. */
  lemma GateActual(w: World, gate: Gate, x: Ct, y: Ct, m1: bool, m2: bool, beta: nat)
    requires GateFits(w, gate, x, y) && Margins(gate, beta, w.betaOut, w.ps.q)
    requires Encodes(w.ps, x, w.s, m1, beta) && Encodes(w.ps, y, w.s, m2, beta)
    ensures Shaped(w) && |x.a| == |y.a| == w.ps.n && InRange(x, w.ps.q) && InRange(y, w.ps.q)
    ensures Encodes(w.ps, EvalGate(w.ps, w.bk, w.ks, gate, x, y), w.s, GateBit(gate, m1, m2), w.betaOut)
  {
    if IsDirect(gate) {
      DirectGateActual(w, gate, x, y, m1, m2, beta);
      EvalDirect(w.ps, w.bk, w.ks, gate, x, y);
    } else if gate.XOR? {
      XorGateActual(w, x, y, m1, m2, beta);
      EvalXorIs(w.ps, w.bk, w.ks, gate, x, y);
    } else {
      XnorActual(w, x, y, m1, m2, beta);
      EvalXnorIs(w.ps, w.bk, w.ks, gate, x, y);
    }
  }

  /** Bootstrapping keeps the bit and replaces the noise, if the errors of this run fit. */
  lemma BootstrapActual(w: World, x: Ct, m: bool, beta: nat)
    requires w.ps.q > 0 && BootFits(w, GateStart(AND, w.ps.q), AddQuarter(x, w.ps.q))
    requires 8 * beta < w.ps.q && Encodes(w.ps, x, w.s, m, beta)
    ensures Shaped(w) && Supported(w.ps) && KeyShape(w.ps, w.bk) && SwitchShape(w.ps, w.ks) && |x.a| == w.ps.n
    ensures Encodes(w.ps, BootstrapCt(w.ps, w.bk, w.ks, x), w.s, m, w.betaOut)
  {
    ShapedIs(w);
    BootstrapLooksUp(w.ps, x, w.s, m, beta);
    LookedUp(w, AddQuarter(x, w.ps.q), GateStart(AND, w.ps.q), m);
  }

  // ---------- gates with keys of bounded error ----------

  /** Generated keys and parameters whose worst-case errors stay within betaOut. */
  ghost predicate Works(w: World) {
    match w
    case World(ps, bk, ks, s, z, betaB, betaK, betaOut) =>
      KeysFit(ps, bk, ks, s, z, betaB, betaK) && Supported(ps) && OutputFits(ps, betaB, betaK, betaOut)
  }

  lemma WorldFits(w: World)
    requires Works(w)
    ensures Shaped(w)
    ensures Supported(w.ps) && KeyShape(w.ps, w.bk) && SwitchShape(w.ps, w.ks) && |w.s| == w.ps.n
  {
    KeysFitIs(w.ps, w.bk, w.ks, w.s, w.z, w.betaB, w.betaK);
  }

  /** Then the errors of every run fit. */
  lemma AlwaysFits(w: World, start: nat, ct: Ct)
    requires Works(w) && |ct.a| == w.ps.n
    ensures BootFits(w, start, ct)
  {
    WorldFits(w);
    WorstRun(w.ps, w.bk, w.ks, w.s, w.z, w.betaB, w.betaK, w.betaOut, start, ct);
  }

  lemma DirectFitsAlways(w: World, gate: Gate, x: Ct, y: Ct)
    requires Works(w) && IsDirect(gate) && |x.a| == |y.a| == w.ps.n
    ensures DirectFits(w, gate, x, y)
  {
    WorldFits(w);
    AlwaysFits(w, GateStart(gate, w.ps.q), Combine(gate, x, y, w.ps.q));
  }

  lemma XorFitsAlways(w: World, x: Ct, y: Ct)
    requires Works(w) && |x.a| == |y.a| == w.ps.n && InRange(x, w.ps.q) && InRange(y, w.ps.q)
    ensures XorFits(w, x, y)
  {
    WorldFits(w);
    var x', y' := NotValue(x, w.ps.q), NotValue(y, w.ps.q);
    DirectFitsAlways(w, AND, x, y');
    DirectFitsAlways(w, AND, x', y);
    DirectFitsAlways(w, OR, DirectGate(w.ps, w.bk, w.ks, AND, x, y'), DirectGate(w.ps, w.bk, w.ks, AND, x', y));
  }

  lemma GateFitsAlways(w: World, gate: Gate, x: Ct, y: Ct)
    requires Works(w) && |x.a| == |y.a| == w.ps.n && InRange(x, w.ps.q) && InRange(y, w.ps.q)
    ensures GateFits(w, gate, x, y)
  {
    if IsDirect(gate) {
      DirectFitsAlways(w, gate, x, y);
      DirectFitsGate(w, gate, x, y);
    } else {
      XorFitsAlways(w, x, y);
      XorFitsGate(w, gate, x, y);
    }
  }

  lemma DirectFitsGate(w: World, gate: Gate, x: Ct, y: Ct)
    requires DirectFits(w, gate, x, y) && IsDirect(gate)
    ensures GateFits(w, gate, x, y)
  {
  }

  lemma XorFitsGate(w: World, gate: Gate, x: Ct, y: Ct)
    requires XorFits(w, x, y) && !IsDirect(gate)
    ensures GateFits(w, gate, x, y)
  {
  }

  lemma OperandsIn(ps: ParamSet, x: Ct, s: Poly, m: bool, beta: nat)
    requires Encodes(ps, x, s, m, beta)
    ensures |x.a| == ps.n && InRange(x, ps.q)
  {
  }

  /** A gate that takes one bootstrapping encodes the right bit with noise at most betaOut. */
  lemma DirectGateCorrect(w: World, gate: Gate, x: Ct, y: Ct, m1: bool, m2: bool, beta: nat)
    requires Works(w) && IsDirect(gate) && Margin(gate, beta, w.ps.q)
    requires Encodes(w.ps, x, w.s, m1, beta) && Encodes(w.ps, y, w.s, m2, beta)
    ensures Supported(w.ps) && KeyShape(w.ps, w.bk) && SwitchShape(w.ps, w.ks) && |x.a| == |y.a| == w.ps.n
    ensures Encodes(w.ps, DirectGate(w.ps, w.bk, w.ks, gate, x, y), w.s, GateBit(gate, m1, m2), w.betaOut)
  {
    WorldFits(w);
    OperandsIn(w.ps, x, w.s, m1, beta);
    OperandsIn(w.ps, y, w.s, m2, beta);
    DirectFitsAlways(w, gate, x, y);
    DirectGateActual(w, gate, x, y, m1, m2, beta);
  }

  /** Every gate encodes the right bit with noise at most betaOut. */
  lemma GateCorrect(w: World, gate: Gate, x: Ct, y: Ct, m1: bool, m2: bool, beta: nat)
    requires Works(w) && Margins(gate, beta, w.betaOut, w.ps.q)
    requires Encodes(w.ps, x, w.s, m1, beta) && Encodes(w.ps, y, w.s, m2, beta)
    ensures Supported(w.ps) && KeyShape(w.ps, w.bk) && SwitchShape(w.ps, w.ks)
    ensures |x.a| == |y.a| == w.ps.n && InRange(x, w.ps.q) && InRange(y, w.ps.q)
    ensures Encodes(w.ps, EvalGate(w.ps, w.bk, w.ks, gate, x, y), w.s, GateBit(gate, m1, m2), w.betaOut)
  {
    WorldFits(w);
    OperandsIn(w.ps, x, w.s, m1, beta);
    OperandsIn(w.ps, y, w.s, m2, beta);
    GateFitsAlways(w, gate, x, y);
    GateActual(w, gate, x, y, m1, m2, beta);
  }

  /** The gates made from AND, OR and NOT decrypt to the same bits as their fast versions. */
  lemma FastGatesAgree(w: World, gate: Gate, fast: Gate, x: Ct, y: Ct, m1: bool, m2: bool, beta: nat)
    requires (gate.XOR? && fast.XOR_FAST?) || (gate.XNOR? && fast.XNOR_FAST?)
    requires Works(w) && w.betaOut <= beta && 32 * beta < w.ps.q
    requires Encodes(w.ps, x, w.s, m1, beta) && Encodes(w.ps, y, w.s, m2, beta)
    ensures Supported(w.ps) && KeyShape(w.ps, w.bk) && SwitchShape(w.ps, w.ks) && |w.s| == w.ps.n
    ensures |x.a| == |y.a| == w.ps.n && InRange(x, w.ps.q) && InRange(y, w.ps.q)
    ensures Decode(Phase(EvalGate(w.ps, w.bk, w.ks, gate, x, y), w.s), w.ps.q)
         == Decode(Phase(EvalGate(w.ps, w.bk, w.ks, fast, x, y), w.s), w.ps.q)
  {
    GateDecrypts(w, gate, x, y, m1, m2, beta);
    GateDecrypts(w, fast, x, y, m1, m2, beta);
    SameTruth(gate, fast, m1, m2);
  }

  lemma SameTruth(gate: Gate, fast: Gate, m1: bool, m2: bool)
    requires (gate.XOR? && fast.XOR_FAST?) || (gate.XNOR? && fast.XNOR_FAST?)
    ensures Bit(GateBit(gate, m1, m2)) == Bit(GateBit(fast, m1, m2))
  {
  }

  lemma GateDecrypts(w: World, gate: Gate, x: Ct, y: Ct, m1: bool, m2: bool, beta: nat)
    requires Works(w) && w.betaOut <= beta && 32 * beta < w.ps.q
    requires Encodes(w.ps, x, w.s, m1, beta) && Encodes(w.ps, y, w.s, m2, beta)
    ensures Supported(w.ps) && KeyShape(w.ps, w.bk) && SwitchShape(w.ps, w.ks) && |w.s| == w.ps.n
    ensures |x.a| == |y.a| == w.ps.n && InRange(x, w.ps.q) && InRange(y, w.ps.q)
    ensures Decode(Phase(EvalGate(w.ps, w.bk, w.ks, gate, x, y), w.s), w.ps.q) == Bit(GateBit(gate, m1, m2))
  {
    WorldFits(w);
    GateCorrect(w, gate, x, y, m1, m2, beta);
    EncodedDecrypts(w.ps, EvalGate(w.ps, w.bk, w.ks, gate, x, y), w.s, GateBit(gate, m1, m2), w.betaOut);
  }

  /** Bootstrapping keeps the bit and replaces the noise. */
  lemma BootstrapCorrect(w: World, x: Ct, m: bool, beta: nat)
    requires Works(w) && 8 * beta < w.ps.q && Encodes(w.ps, x, w.s, m, beta)
    ensures Supported(w.ps) && KeyShape(w.ps, w.bk) && SwitchShape(w.ps, w.ks) && |x.a| == w.ps.n
    ensures Encodes(w.ps, BootstrapCt(w.ps, w.bk, w.ks, x), w.s, m, w.betaOut)
  {
    WorldFits(w);
    OperandsIn(w.ps, x, w.s, m, beta);
    AlwaysFits(w, GateStart(AND, w.ps.q), AddQuarter(x, w.ps.q));
    BootstrapActual(w, x, m, beta);
  }

  lemma BootstrapLooksUp(ps: ParamSet, x: Ct, s: Poly, m: bool, beta: nat)
    requires Supported(ps) && 8 * beta < ps.q && Encodes(ps, x, s, m, beta)
    ensures |x.a| == |s| == ps.n
    ensures OutBit(Phase(AddQuarter(x, ps.q), s), GateStart(AND, ps.q), ps.q) == m
  {
    var e := EncodedIs(ps, x, s, m, beta);
    ShiftedPhase(x, s, Quarter(m, ps.q) + e, ps.q);
    BootTolerates(m, e, Phase(AddQuarter(x, ps.q), s), ps.q);
  }

  lemma BootTolerates(m: bool, e: int, phase: int, q: nat)
    requires q > 0 && q % 8 == 0 && 0 - q / 8 <= e < q / 8 && Cong(phase, Quarter(m, q) + e + q / 4, q)
    ensures OutBit(phase, GateStart(AND, q), q) == m
  {
    BootKeepsIff(m, e, q / 8, q);
    SameBit(phase, BootPhase(m, e, q), GateStart(AND, q), q);
  }

  lemma ShiftedPhase(x: Ct, s: Poly, t: int, q: nat)
    requires q > 0 && |x.a| == |s| && Cong(Phase(x, s), t, q)
    ensures Cong(Phase(AddQuarter(x, q), s), t + q / 4, q)
  {
    var inner := Inner(x.a, s);
    CongMod(x.b + q / 4, q);
    CongSub((x.b + q / 4) % q, x.b + q / 4, inner, inner, q);
    CongAdd(Phase(x, s), t, q / 4, q / 4, q);
  }

  // ---------- the shipped parameter sets ----------

  /** The worst-case inequality together with the margin of the plain gates bounds the dimension. */
  lemma WorstCaseDimension(ps: ParamSet, betaB: nat, betaK: nat, betaOut: nat)
    requires Supported(ps) && OutputFits(ps, betaB, betaK, betaOut) && Margin(AND, betaOut, ps.q)
    ensures 8 * ps.n < ps.q
  {
    DimensionBound(ps, SwitchedError(ps, betaB, betaK), betaOut);
  }

  /** None of the shipped sets is that small, so for them the errors of the run have to be looked at. */
  lemma NamedSetsExceed(name: NamedSet, Q: nat, variant: Method, betaB: nat, betaK: nat, betaOut: nat)
    requires Q >= 3 && Q % 2 == 1
    ensures Supported(NamedParams(name, Q, variant))
    ensures OutputFits(NamedParams(name, Q, variant), betaB, betaK, betaOut) ==>
        !Margin(AND, betaOut, NamedParams(name, Q, variant).q)
  {
    var ps := NamedParams(name, Q, variant);
    NamedSupported(name, Q, variant);
    if OutputFits(ps, betaB, betaK, betaOut) && Margin(AND, betaOut, ps.q) {
      WorstCaseDimension(ps, betaB, betaK, betaOut);
      assert false;
    }
  }
}
