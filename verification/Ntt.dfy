/**
 The transform as the program runs it: level by level over an array, in place, with C's
 remainder. Each level is proved to be one step of the recursion in NttTree.
 */
module Ntt {
  import opened Arith
  import opened Poly
  import opened NttTree

  /** len is a whole number of blocks. */
  ghost predicate Blocked(len: nat, block: nat)
    requires block > 0
  {
    len == 0 || (len >= block && Blocked(len - block, block))
  }

  /** One level: every block of 2t entries is replaced by its two residues. */
  ghost function Stage(w: seq<int>, x: Poly, t: nat, k: nat): (r: Poly)
    requires t > 0
    ensures |r| == |x|
    decreases |x|
  {
    if |x| < 2 * t then x
    else Butterfly(Low(x, 2 * t), t, At(w, k)) + Stage(w, High(x, 2 * t), t, k + 1)
  }

  ghost function InverseStage(wi: seq<int>, z: Poly, t: nat, k: nat): (r: Poly)
    requires t > 0
    ensures |r| == |z|
    decreases |z|
  {
    if |z| < 2 * t then z
    else
      var b := Low(z, 2 * t);
      InverseButterfly(Low(b, t), High(b, t), At(wi, k)) + InverseStage(wi, High(z, 2 * t), t, k + 1)
  }

  /** The transforms of consecutive blocks, for consecutive nodes of one level. */
  ghost function Blocks(w: seq<int>, x: Poly, d: nat, k: nat): (r: Poly)
    ensures |r| == |x|
    decreases |x|
  {
    var l := Pow2(d);
    if |x| < l then x else Ntt(w, Low(x, l), d, k) + Blocks(w, High(x, l), d, k + 1)
  }

  ghost function InverseBlocks(wi: seq<int>, z: Poly, d: nat, k: nat): (r: Poly)
    ensures |r| == |z|
    decreases |z|
  {
    var l := Pow2(d);
    if |z| < l then z else Intt(wi, Low(z, l), d, k) + InverseBlocks(wi, High(z, l), d, k + 1)
  }

  // ---------- what a level does to the blocks ----------

  lemma StageCons(w: seq<int>, b: Poly, rest: Poly, t: nat, k: nat)
    requires t > 0 && |b| == 2 * t
    ensures Stage(w, b + rest, t, k) == Butterfly(b, t, At(w, k)) + Stage(w, rest, t, k + 1)
  {
    LowHighConcat(b, rest);
  }

  lemma InverseStageCons(wi: seq<int>, lo: Poly, hi: Poly, rest: Poly, t: nat, k: nat)
    requires t > 0 && |lo| == |hi| == t
    ensures InverseStage(wi, (lo + hi) + rest, t, k)
            == InverseButterfly(lo, hi, At(wi, k)) + InverseStage(wi, rest, t, k + 1)
  {
    var b := lo + hi;
    InverseStageBlock(wi, b, rest, t, k);
    LowHighConcat(lo, hi);
  }

  lemma InverseStageBlock(wi: seq<int>, b: Poly, rest: Poly, t: nat, k: nat)
    requires t > 0 && |b| == 2 * t
    ensures InverseStage(wi, b + rest, t, k)
         == InverseButterfly(Low(b, t), High(b, t), At(wi, k)) + InverseStage(wi, rest, t, k + 1)
  {
    LowHighConcat(b, rest);
  }

  lemma BlocksCons(w: seq<int>, b: Poly, rest: Poly, d: nat, k: nat)
    requires |b| == Pow2(d)
    ensures Blocks(w, b + rest, d, k) == Ntt(w, b, d, k) + Blocks(w, rest, d, k + 1)
  {
    LowHighConcat(b, rest);
  }

  lemma InverseBlocksCons(wi: seq<int>, b: Poly, rest: Poly, d: nat, k: nat)
    requires |b| == Pow2(d)
    ensures InverseBlocks(wi, b + rest, d, k) == Intt(wi, b, d, k) + InverseBlocks(wi, rest, d, k + 1)
  {
    LowHighConcat(b, rest);
  }

  lemma ConcatAssoc(a: Poly, b: Poly, c: Poly)
    ensures (a + b) + c == a + (b + c)
  {
  }

  lemma Split(x: Poly, l: nat) returns (b: Poly, rest: Poly)
    requires l <= |x|
    ensures x == b + rest && |b| == l
  {
    b, rest := x[..l], x[l..];
  }

  lemma SplitBlock(x: Poly, t: nat) returns (lo: Poly, hi: Poly, rest: Poly)
    requires 2 * t <= |x|
    ensures x == (lo + hi) + rest && |lo| == |hi| == t
  {
    lo, hi, rest := x[..t], x[t..2 * t], x[2 * t..];
  }

  lemma {:induction false} BlocksAfterStage(w: seq<int>, x: Poly, d: nat, k: nat)
    requires d > 0 && Blocked(|x|, Pow2(d))
    ensures Blocks(w, Stage(w, x, Pow2(d - 1), k), d - 1, 2 * k) == Blocks(w, x, d, k)
    decreases |x|
  {
    if x != [] {
      var b, rest := Split(x, Pow2(d));
      BlocksAfterStage(w, rest, d, k + 1);
      OneBlock(w, b, rest, Pow2(d - 1), d, d - 1, k, k + 1, 2 * k, 2 * (k + 1));
    }
  }

  lemma OneBlock(w: seq<int>, b: Poly, rest: Poly, t: nat, d: nat, d': nat, k: nat, k': nat, j: nat, j': nat)
    requires d == d' + 1 && t == Pow2(d') && |b| == 2 * t && k' == k + 1 && j == 2 * k && j' == 2 * k'
    requires Blocks(w, Stage(w, rest, t, k'), d', j') == Blocks(w, rest, d, k')
    ensures Blocks(w, Stage(w, b + rest, t, k), d', j) == Blocks(w, b + rest, d, k)
  {
    StageCons(w, b, rest, t, k);
    NttUnfolds(w, b, t, d, d', k, j, j + 1);
    JoinBlocks(w, b, rest, Stage(w, b + rest, t, k), Fold(b, t, At(w, k)), Fold(b, t, -At(w, k)), Stage(w, rest, t, k'),
               d, d', k, k', j, j + 1, j');
  }

  lemma JoinBlocks(w: seq<int>, b: Poly, rest: Poly, x: Poly, lo: Poly, hi: Poly, tail: Poly, d: nat, d': nat,
                   k: nat, k': nat, j: nat, j1: nat, j': nat)
    requires |lo| == |hi| == Pow2(d') && j1 == j + 1 && j' == j1 + 1 && k' == k + 1 && |b| == Pow2(d)
    requires x == (lo + hi) + tail && Ntt(w, b, d, k) == Ntt(w, lo, d', j) + Ntt(w, hi, d', j1)
    requires Blocks(w, tail, d', j') == Blocks(w, rest, d, k')
    ensures Blocks(w, x, d', j) == Blocks(w, b + rest, d, k)
  {
    TwoBlocks(w, lo, hi, tail, d', j, j1, j');
    BlocksCons(w, b, rest, d, k);
  }

  lemma NttUnfolds(w: seq<int>, b: Poly, t: nat, d: nat, d': nat, k: nat, j: nat, j1: nat)
    requires d == d' + 1 && t == Pow2(d') && |b| == 2 * t && j == 2 * k && j1 == j + 1
    ensures |b| == Pow2(d)
    ensures Ntt(w, b, d, k) == Ntt(w, Fold(b, t, At(w, k)), d', j) + Ntt(w, Fold(b, t, -At(w, k)), d', j1)
  {
  }

  lemma TwoBlocks(w: seq<int>, lo: Poly, hi: Poly, tail: Poly, d: nat, j: nat, j1: nat, j2: nat)
    requires |lo| == |hi| == Pow2(d) && j1 == j + 1 && j2 == j1 + 1
    ensures Blocks(w, (lo + hi) + tail, d, j) == (Ntt(w, lo, d, j) + Ntt(w, hi, d, j1)) + Blocks(w, tail, d, j2)
  {
    ConcatAssoc(lo, hi, tail);
    BlocksCons(w, lo, hi + tail, d, j);
    BlocksCons(w, hi, tail, d, j1);
    ConcatAssoc(Ntt(w, lo, d, j), Ntt(w, hi, d, j1), Blocks(w, tail, d, j2));
  }

  lemma {:induction false} StageAfterInverseBlocks(wi: seq<int>, z: Poly, d: nat, k: nat)
    requires d > 0 && Blocked(|z|, Pow2(d))
    ensures InverseStage(wi, InverseBlocks(wi, z, d - 1, 2 * k), Pow2(d - 1), k) == InverseBlocks(wi, z, d, k)
    decreases |z|
  {
    if z != [] {
      var lo, hi, rest := SplitBlock(z, Pow2(d - 1));
      var k' := k + 1;
      StageAfterInverseBlocks(wi, rest, d, k');
      OneInverseBlock(wi, lo, hi, rest, Pow2(d - 1), d, k, k');
    }
  }

  lemma OneInverseBlock(wi: seq<int>, lo: Poly, hi: Poly, rest: Poly, t: nat, d: nat, k: nat, k': nat)
    requires d > 0 && |lo| == |hi| == t == Pow2(d - 1) && k' == k + 1
    requires InverseStage(wi, InverseBlocks(wi, rest, d - 1, 2 * k'), t, k') == InverseBlocks(wi, rest, d, k')
    ensures InverseStage(wi, InverseBlocks(wi, (lo + hi) + rest, d - 1, 2 * k), t, k)
         == InverseBlocks(wi, (lo + hi) + rest, d, k)
  {
    LowerLevel(wi, lo, hi, rest, t, d - 1, k, k');
    UpperLevel(wi, lo, hi, rest, d, k, k');
  }

  lemma LowerLevel(wi: seq<int>, lo: Poly, hi: Poly, rest: Poly, t: nat, d: nat, k: nat, k': nat)
    requires |lo| == |hi| == t == Pow2(d) && k' == k + 1
    ensures InverseStage(wi, InverseBlocks(wi, (lo + hi) + rest, d, 2 * k), t, k)
         == InverseButterfly(Intt(wi, lo, d, 2 * k), Intt(wi, hi, d, 2 * k + 1), At(wi, k))
            + InverseStage(wi, InverseBlocks(wi, rest, d, 2 * k'), t, k')
  {
    TwoInverseBlocks(wi, lo, hi, rest, d, 2 * k, 2 * k + 1, 2 * k');
    InverseStageCons(wi, Intt(wi, lo, d, 2 * k), Intt(wi, hi, d, 2 * k + 1), InverseBlocks(wi, rest, d, 2 * k'), t, k);
  }

  lemma UpperLevel(wi: seq<int>, lo: Poly, hi: Poly, rest: Poly, d: nat, k: nat, k': nat)
    requires d > 0 && |lo| == |hi| == Pow2(d - 1) && k' == k + 1
    ensures InverseBlocks(wi, (lo + hi) + rest, d, k)
         == InverseButterfly(Intt(wi, lo, d - 1, 2 * k), Intt(wi, hi, d - 1, 2 * k + 1), At(wi, k))
            + InverseBlocks(wi, rest, d, k')
  {
    InttConcat(wi, lo, hi, d, k);
    InverseBlocksCons(wi, lo + hi, rest, d, k);
  }

  lemma TwoInverseBlocks(wi: seq<int>, lo: Poly, hi: Poly, rest: Poly, d: nat, j: nat, j1: nat, j2: nat)
    requires |lo| == |hi| == Pow2(d) && j1 == j + 1 && j2 == j1 + 1
    ensures InverseBlocks(wi, (lo + hi) + rest, d, j)
         == (Intt(wi, lo, d, j) + Intt(wi, hi, d, j1)) + InverseBlocks(wi, rest, d, j2)
  {
    ConcatAssoc(lo, hi, rest);
    InverseBlocksCons(wi, lo, hi + rest, d, j);
    InverseBlocksCons(wi, hi, rest, d, j1);
    ConcatAssoc(Intt(wi, lo, d, j), Intt(wi, hi, d, j1), InverseBlocks(wi, rest, d, j2));
  }

  lemma {:induction false} LeafBlocks(w: seq<int>, x: Poly, k: nat)
    ensures Blocks(w, x, 0, k) == x && InverseBlocks(w, x, 0, k) == x
    decreases |x|
  {
    if x != [] {
      LeafBlocks(w, High(x, 1), k + 1);
      assert x == Low(x, 1) + High(x, 1);
    }
  }

  lemma RootBlocks(w: seq<int>, x: Poly, d: nat, k: nat)
    requires |x| == Pow2(d)
    ensures Blocks(w, x, d, k) == Ntt(w, x, d, k) && InverseBlocks(w, x, d, k) == Intt(w, x, d, k)
  {
    assert Low(x, |x|) == x && High(x, |x|) == [];
    assert Ntt(w, x, d, k) + [] == Ntt(w, x, d, k);
    assert Intt(w, x, d, k) + [] == Intt(w, x, d, k);
  }

  lemma LeafEqv(w: seq<int>, x: Poly, k: nat, p: int)
    requires p > 0
    ensures Eqv(Blocks(w, x, 0, k), x, p) && Eqv(x, InverseBlocks(w, x, 0, k), p)
  {
    LeafBlocks(w, x, k);
  }

  lemma RootEqv(w: seq<int>, x: Poly, d: nat, k: nat, p: int)
    requires p > 0 && |x| == Pow2(d)
    ensures Eqv(Blocks(w, x, d, k), Ntt(w, x, d, k), p) && Eqv(InverseBlocks(w, x, d, k), Intt(w, x, d, k), p)
  {
    RootBlocks(w, x, d, k);
  }

  lemma {:induction false} BlockedPow(d: nat, e: nat)
    requires e <= d
    ensures Blocked(Pow2(d), Pow2(e))
  {
    if e < d {
      BlockedPow(d - 1, e);
      BlockedSum(Pow2(d - 1), Pow2(d - 1), Pow2(e));
    } else {
      assert Blocked(0, Pow2(e));
    }
  }

  lemma {:induction false} BlockedSum(a: nat, b: nat, block: nat)
    requires block > 0 && Blocked(a, block) && Blocked(b, block)
    ensures Blocked(a + b, block)
  {
    if a > 0 {
      BlockedSum(a - block, b, block);
    }
  }

  lemma {:induction false} EqvBlocks(w: seq<int>, x: Poly, x': Poly, d: nat, k: nat, p: int)
    requires p > 0 && |x| == |x'| && Eqv(x, x', p)
    ensures Eqv(Blocks(w, x, d, k), Blocks(w, x', d, k), p)
    decreases |x|
  {
    var l := Pow2(d);
    if |x| >= l {
      var (lo, lo', hi, hi') := (Low(x, l), Low(x', l), High(x, l), High(x', l));
      EqvHalves(x, x', l, p);
      EqvNtt(w, lo, lo', d, k, p);
      EqvBlocks(w, hi, hi', d, k + 1, p);
      EqvConcat(Ntt(w, lo, d, k), Ntt(w, lo', d, k), Blocks(w, hi, d, k + 1), Blocks(w, hi', d, k + 1), p);
    }
  }

  lemma {:induction false} EqvInverseStage(wi: seq<int>, z: Poly, z': Poly, t: nat, k: nat, p: int)
    requires p > 0 && t > 0 && |z| == |z'| && Eqv(z, z', p)
    ensures Eqv(InverseStage(wi, z, t, k), InverseStage(wi, z', t, k), p)
    decreases |z|
  {
    if |z| >= 2 * t {
      var (b, b', hi, hi') := (Low(z, 2 * t), Low(z', 2 * t), High(z, 2 * t), High(z', 2 * t));
      EqvHalves(z, z', 2 * t, p);
      EqvHalves(b, b', t, p);
      EqvInverseButterfly(Low(b, t), Low(b', t), High(b, t), High(b', t), At(wi, k), p);
      EqvInverseStage(wi, hi, hi', t, k + 1, p);
      EqvConcat(InverseButterfly(Low(b, t), High(b, t), At(wi, k)),
                InverseButterfly(Low(b', t), High(b', t), At(wi, k)),
                InverseStage(wi, hi, t, k + 1), InverseStage(wi, hi', t, k + 1), p);
    }
  }

  // ---------- what the loops leave, with C's remainder ----------

  /** The first entry of a butterfly on u and b with the root s. */
  ghost function CSum(u: int, b: int, s: int, mod: int): (r: int)
    requires mod > 0
    ensures IsRemainder(r, u + TruncMod(b * s, mod), mod)
  {
    var r := TruncMod(u + TruncMod(b * s, mod), mod);
    TruncModIff(u + TruncMod(b * s, mod), r, mod);
    r
  }

  /** The second entry. */
  ghost function CDifference(u: int, b: int, s: int, mod: int): (r: int)
    requires mod > 0
    ensures IsRemainder(r, u + mod - TruncMod(b * s, mod), mod)
  {
    var r := TruncMod(u + mod - TruncMod(b * s, mod), mod);
    TruncModIff(u + mod - TruncMod(b * s, mod), r, mod);
    r
  }

  ghost function CButterfly(x: Poly, t: nat, s: int, mod: int): (r: Poly)
    requires mod > 0 && |x| == 2 * t
    ensures |r| == |x| && forall l {:trigger r[l]} :: 0 <= l < 2 * t ==>
        r[l] == if l < t then CSum(x[l], x[l + t], s, mod) else CDifference(x[l - t], x[l], s, mod)
  {
    seq(2 * t, l requires 0 <= l < 2 * t =>
      if l < t then CSum(x[l], x[l + t], s, mod) else CDifference(x[l - t], x[l], s, mod))
  }

  /** One level of the forward loops, with blocks of 2t entries. */
  ghost function CStage(w: seq<int>, x: Poly, t: nat, k: nat, mod: int): (r: Poly)
    requires mod > 0 && t > 0
    ensures |r| == |x|
    decreases |x|
  {
    if |x| < 2 * t then x
    else CButterfly(Low(x, 2 * t), t, At(w, k), mod) + CStage(w, High(x, 2 * t), t, k + 1, mod)
  }

  /** The levels from blocks of length 2^e on; k is the number of blocks. */
  ghost function CForward(w: seq<int>, x: Poly, e: nat, k: nat, mod: int): (r: Poly)
    requires mod > 0
    ensures |r| == |x|
    decreases e
  {
    if e == 0 then x else CForward(w, CStage(w, x, Pow2(e - 1), k, mod), e - 1, 2 * k, mod)
  }

  /** The second entry of an inverse butterfly; the first is the sum, unreduced. */
  ghost function CScaled(u: int, v: int, s: int, mod: int): (r: int)
    requires mod > 0
    ensures IsRemainder(r, (u + mod - v) * s, mod)
  {
    var r := TruncMod((u + mod - v) * s, mod);
    TruncModIff((u + mod - v) * s, r, mod);
    r
  }

  ghost function CInverseButterfly(z: Poly, t: nat, s: int, mod: int): (r: Poly)
    requires mod > 0 && |z| == 2 * t
    ensures |r| == |z| && forall l {:trigger r[l]} :: 0 <= l < 2 * t ==>
        r[l] == if l < t then z[l] + z[l + t] else CScaled(z[l - t], z[l], s, mod)
  {
    seq(2 * t, l requires 0 <= l < 2 * t => if l < t then z[l] + z[l + t] else CScaled(z[l - t], z[l], s, mod))
  }

  ghost function CInverseStage(wi: seq<int>, z: Poly, t: nat, k: nat, mod: int): (r: Poly)
    requires mod > 0 && t > 0
    ensures |r| == |z|
    decreases |z|
  {
    if |z| < 2 * t then z
    else CInverseButterfly(Low(z, 2 * t), t, At(wi, k), mod) + CInverseStage(wi, High(z, 2 * t), t, k + 1, mod)
  }

  /** The inverse levels from 2^s blocks of length 2^e on. */
  ghost function CInverse(wi: seq<int>, z: Poly, s: nat, e: nat, mod: int): (r: Poly)
    requires mod > 0
    ensures |r| == |z|
    decreases s
  {
    if s == 0 then z else CInverse(wi, CInverseStage(wi, z, Pow2(e), Pow2(s - 1), mod), s - 1, e + 1, mod)
  }

  // ---------- all that modulo mod ----------

  lemma ForwardStep(u: int, b: int, s: int, p: int)
    requires p > 0
    ensures var v := TruncMod(b * s, p);
            Cong(TruncMod(u + v, p), u + s * b, p) && Cong(TruncMod(u + p - v, p), u - s * b, p)
  {
    var v := TruncMod(b * s, p);
    TruncModCong(b * s, p);
    TruncModCong(u + v, p);
    TruncModCong(u + p - v, p);
    CongAdd(u, u, v, b * s, p);
    CongSub(u, u, v, b * s, p);
    CongFrom(u + p - v, u - v, 1, p);
    assert b * s == s * b;
  }

  lemma CButterflyEqv(x: Poly, t: nat, s: int, p: int)
    requires p > 0 && |x| == 2 * t
    ensures Eqv(CButterfly(x, t, s, p), Butterfly(x, t, s), p)
  {
    var r, b := CButterfly(x, t, s, p), Butterfly(x, t, s);
    forall l | 0 <= l < 2 * t
      ensures Cong(r[l], b[l], p)
    {
      var i := if l < t then l else l - t;
      ForwardStep(x[i], x[i + t], s, p);
      assert (-s) * x[i + t] == -(s * x[i + t]);
    }
    EqvIntro(r, b, p);
  }

  lemma {:induction false} CStageEqv(w: seq<int>, x: Poly, t: nat, k: nat, p: int)
    requires p > 0 && t > 0
    ensures Eqv(CStage(w, x, t, k, p), Stage(w, x, t, k), p)
    decreases |x|
  {
    if |x| >= 2 * t {
      CStageEqv(w, High(x, 2 * t), t, k + 1, p);
      CButterflyEqv(Low(x, 2 * t), t, At(w, k), p);
      EqvConcat(CButterfly(Low(x, 2 * t), t, At(w, k), p), Butterfly(Low(x, 2 * t), t, At(w, k)),
                CStage(w, High(x, 2 * t), t, k + 1, p), Stage(w, High(x, 2 * t), t, k + 1), p);
    }
  }

  lemma HalvedBlocks(w: seq<int>, x: Poly, e: nat, e': nat, m: nat, m': nat)
    requires e == e' + 1 && m' == 2 * m && Blocked(|x|, Pow2(e))
    ensures Blocks(w, Stage(w, x, Pow2(e'), m), e', m') == Blocks(w, x, e, m)
  {
    BlocksAfterStage(w, x, e, m);
  }

  /** The forward loops compute the transforms of the blocks. */
  lemma {:induction false} CForwardEqv(w: seq<int>, x: Poly, s: nat, e: nat, k: nat, p: int)
    requires p > 0 && |x| == Pow2(s + e)
    ensures Eqv(CForward(w, x, e, k, p), Blocks(w, x, e, k), p)
    decreases e, 1
  {
    if e == 0 {
      LeafEqv(w, x, k, p);
    } else {
      CForwardMore(w, x, CStage(w, x, Pow2(e - 1), k, p), s, e, e - 1, k, 2 * k, p);
    }
  }

  lemma {:induction false} CForwardMore(w: seq<int>, x: Poly, y: Poly, s: nat, e: nat, e': nat, k: nat, k': nat, p: int)
    requires p > 0 && |x| == Pow2(s + e) && e == e' + 1 && k' == 2 * k && y == CStage(w, x, Pow2(e'), k, p)
    ensures Eqv(CForward(w, x, e, k, p), Blocks(w, x, e, k), p)
    decreases e, 0
  {
    CForwardEqv(w, y, s + 1, e', k', p);
    CStageEqv(w, x, Pow2(e'), k, p);
    BlockedPow(s + e, e);
    HalvedBlocks(w, x, e, e', k, k');
    EqvBlocks(w, y, Stage(w, x, Pow2(e'), k), e', k', p);
  }

  lemma InverseStep(u: int, v: int, s: int, p: int)
    requires p > 0
    ensures Cong(TruncMod((u + p - v) * s, p), s * (u - v), p)
  {
    TruncModCong((u + p - v) * s, p);
    assert (u + p - v) * s == s * (u - v) + s * p;
    CongFrom((u + p - v) * s, s * (u - v), s, p);
  }

  lemma CInverseButterflyEqv(z: Poly, t: nat, s: int, p: int)
    requires p > 0 && |z| == 2 * t
    ensures Eqv(CInverseButterfly(z, t, s, p), InverseButterfly(Low(z, t), High(z, t), s), p)
  {
    var r, b := CInverseButterfly(z, t, s, p), InverseButterfly(Low(z, t), High(z, t), s);
    forall l | 0 <= l < 2 * t
      ensures Cong(r[l], b[l], p)
    {
      var i := if l < t then l else l - t;
      InverseStep(z[i], z[i + t], s, p);
    }
    EqvIntro(r, b, p);
  }

  lemma {:induction false} CInverseStageEqv(wi: seq<int>, z: Poly, t: nat, k: nat, p: int)
    requires p > 0 && t > 0
    ensures Eqv(CInverseStage(wi, z, t, k, p), InverseStage(wi, z, t, k), p)
    decreases |z|
  {
    if |z| >= 2 * t {
      var b := Low(z, 2 * t);
      CInverseStageEqv(wi, High(z, 2 * t), t, k + 1, p);
      CInverseButterflyEqv(b, t, At(wi, k), p);
      EqvConcat(CInverseButterfly(b, t, At(wi, k), p), InverseButterfly(Low(b, t), High(b, t), At(wi, k)),
                CInverseStage(wi, High(z, 2 * t), t, k + 1, p), InverseStage(wi, High(z, 2 * t), t, k + 1), p);
    }
  }

  lemma InverseLevelDone(wi: seq<int>, after: Poly, before: Poly, z0: Poly, d: nat, e: nat, e': nat, m: nat, h: nat,
                         t: nat, p: int)
    requires p > 0 && e < d && e' == e + 1 && m == 2 * h && t == Pow2(e) && |after| == |before| == |z0| == Pow2(d)
    requires Eqv(before, InverseBlocks(wi, z0, e, m), p)
    requires Eqv(after, InverseStage(wi, before, t, h), p)
    ensures Eqv(after, InverseBlocks(wi, z0, e', h), p)
  {
    BlockedPow(d, e + 1);
    StageAfterInverseBlocks(wi, z0, e + 1, h);
    EqvInverseStage(wi, before, InverseBlocks(wi, z0, e, m), t, h, p);
  }

  /** The inverse loops compute the inverse transform. */
  lemma {:induction false} CInverseEqv(wi: seq<int>, z: Poly, z0: Poly, s: nat, e: nat, d: nat, p: int)
    requires p > 0 && s + e == d && |z| == |z0| == Pow2(d) && Eqv(z, InverseBlocks(wi, z0, e, Pow2(s)), p)
    ensures Eqv(CInverse(wi, z, s, e, p), InverseBlocks(wi, z0, d, 1), p)
    decreases s, 1
  {
    if s > 0 {
      CInverseMore(wi, z, z0, CInverseStage(wi, z, Pow2(e), Pow2(s - 1), p), s, s - 1, e, e + 1, d, p);
    }
  }

  lemma {:induction false} CInverseMore(wi: seq<int>, z: Poly, z0: Poly, y: Poly, s: nat, s': nat, e: nat, e': nat,
                                        d: nat, p: int)
    requires p > 0 && s == s' + 1 && e' == e + 1 && s + e == d && |z| == |z0| == Pow2(d)
    requires y == CInverseStage(wi, z, Pow2(e), Pow2(s'), p) && Eqv(z, InverseBlocks(wi, z0, e, Pow2(s)), p)
    ensures Eqv(CInverse(wi, z, s, e, p), InverseBlocks(wi, z0, d, 1), p)
    decreases s, 0
  {
    CInverseStageEqv(wi, z, Pow2(e), Pow2(s'), p);
    InverseLevelDone(wi, y, z, z0, d, e, e', Pow2(s), Pow2(s'), Pow2(e), p);
    CInverseEqv(wi, y, z0, s', e', d, p);
  }

  // ---------- 32-bit integers ----------

  /** A value that a signed 32-bit integer can hold; fits says so of all intermediate values of a method. */
  ghost predicate Int32(x: int) {
    -0x8000_0000 <= x < 0x8000_0000
  }

  /** For entries up to B and the root s no butterfly leaves the range of 32-bit integers. */
  ghost predicate Roomy(B: nat, s: int, mod: int) {
    0 <= s < mod <= B && (2 * B + mod) * mod < 0x8000_0000
  }

  ghost predicate Within(x: Poly, first: nat, last: nat, B: nat)
    requires first <= last <= |x|
  {
    forall l {:trigger x[l]} :: first <= l < last ==> Abs(x[l]) <= B
  }

  ghost predicate ForwardFits(u: int, b: int, s: int, mod: int)
    requires mod > 0
  {
    var v := TruncMod(b * s, mod);
    Int32(b * s) && Int32(u + v) && Int32(u + mod) && Int32(u + mod - v)
  }

  lemma ForwardRoom(u: int, b: int, s: int, mod: int, B: nat)
    requires Roomy(B, s, mod) && Abs(u) <= B && Abs(b) <= B
    ensures ForwardFits(u, b, s, mod)
    ensures var v := TruncMod(b * s, mod); Abs(TruncMod(u + v, mod)) <= B && Abs(TruncMod(u + mod - v, mod)) <= B
  {
    var v := TruncMod(b * s, mod);
    ProductAtMost(b, s, B, mod);
    RoomAtMost(B, mod);
    TruncModCong(b * s, mod);
    TruncModCong(u + v, mod);
    TruncModCong(u + mod - v, mod);
  }

  lemma ProductAtMost(x: int, y: int, X: nat, Y: nat)
    requires Abs(x) <= X && Abs(y) <= Y
    ensures Abs(x * y) <= X * Y
  {
    AbsProduct(x, y);
    MulMono(Abs(x), Abs(y), X, Y);
  }

  lemma AbsProduct(x: int, y: int)
    ensures Abs(x * y) == Abs(x) * Abs(y)
  {
  }

  lemma RoomAtMost(B: nat, mod: int)
    requires 0 < mod <= B
    ensures B * mod <= (2 * B + mod) * mod && B + 2 * mod <= (2 * B + mod) * mod
  {
    MulLe(B, 2 * B + mod, mod);
    MulLe(1, mod, 2 * B + mod);
  }

  ghost predicate InverseFits(u: int, v: int, s: int, mod: int) {
    Int32(u + v) && Int32(u + mod) && Int32(u + mod - v) && Int32((u + mod - v) * s)
  }

  lemma InverseRoom(u: int, v: int, s: int, mod: int, B: nat)
    requires Roomy(B, s, mod) && Abs(u) <= B && Abs(v) <= B
    ensures InverseFits(u, v, s, mod)
    ensures Abs(u + v) <= 2 * B && Abs(TruncMod((u + mod - v) * s, mod)) <= 2 * B
  {
    ProductAtMost(u + mod - v, s, 2 * B + mod, mod);
    MulLe(1, mod, 2 * B + mod);
    TruncModCong((u + mod - v) * s, mod);
  }

  // ---------- the forward transform ----------

  /** One butterfly. */
  method ForwardPair(x: array<int>, j: nat, k: nat, s: int, mod: int, ghost B: nat) returns (ghost fits: bool)
    requires mod > 0 && j < x.Length && k < x.Length && j != k
    modifies x
    ensures forall l :: 0 <= l < x.Length && l != j && l != k ==> x[l] == old(x[l])
    ensures x[j] == CSum(old(x[j]), old(x[k]), s, mod) && x[k] == CDifference(old(x[j]), old(x[k]), s, mod)
    ensures Roomy(B, s, mod) && Abs(old(x[j])) <= B && Abs(old(x[k])) <= B ==>
        fits && Abs(x[j]) <= B && Abs(x[k]) <= B
  {
    var u := x[j];
    var v := TruncMod(x[k] * s, mod);
    fits := ForwardFits(u, x[k], s, mod);
    if Roomy(B, s, mod) && Abs(x[j]) <= B && Abs(x[k]) <= B {
      ForwardRoom(u, x[k], s, mod, B);
    }
    x[j] := TruncMod(u + v, mod);
    x[k] := TruncMod(u + mod - v, mod);
  }

  /** The entries of one block are those of want. */
  ghost predicate Equals(x: Poly, want: Poly, first: nat, last: nat) {
    first <= last <= |x| == |want| && forall l {:trigger x[l]} :: first <= l < last ==> x[l] == want[l]
  }

  /** The butterflies of one block, which leave the values of want. */
  method ForwardButterflies(x: array<int>, j1: nat, t: nat, s: int, mod: int, ghost want: Poly, ghost B: nat)
    returns (ghost fits: bool)
    requires mod > 0 && j1 + 2 * t <= x.Length == |want|
    requires forall l {:trigger want[l]} :: j1 <= l < j1 + t ==>
        want[l] == CSum(x[l], x[l + t], s, mod) && want[l + t] == CDifference(x[l], x[l + t], s, mod)
    modifies x
    ensures forall l :: 0 <= l < x.Length && !(j1 <= l < j1 + 2 * t) ==> x[l] == old(x[l])
    ensures Equals(x[..], want, j1, j1 + t) && Equals(x[..], want, j1 + t, j1 + 2 * t)
    ensures Roomy(B, s, mod) && Within(old(x[..]), j1, j1 + 2 * t, B) ==> fits && Within(x[..], j1, j1 + 2 * t, B)
  {
    ghost var x0, calm := x[..], Roomy(B, s, mod) && Within(x[..], j1, j1 + 2 * t, B);
    fits := true;
    for j := j1 to j1 + t
      invariant Partly(x[..], x0, want, j1, j, t, B, calm, fits)
    {
      ghost var was := x[..];
      Unreached(was, x0, want, j1, j, t, B, calm, fits);
      ghost var fit := ForwardPair(x, j, j + t, s, mod, B);
      PartlyMore(was, x[..], x0, want, j1, j, j + 1, t, B, calm, fits, fit);
      fits := fits && fit;
    }
  }

  /** The entries of a block before number j are done, in both halves; all others are as in x0. */
  ghost predicate Partly(x: Poly, x0: Poly, want: Poly, j1: nat, j: nat, t: nat, B: nat, calm: bool, fits: bool) {
    && |x| == |x0| == |want| && j1 <= j <= j1 + t && j1 + 2 * t <= |x|
    && (forall l {:trigger x[l]} :: 0 <= l < |x| && !(j1 <= l < j) && !(j1 + t <= l < j + t) ==> x[l] == x0[l])
    && Equals(x, want, j1, j) && Equals(x, want, j1 + t, j + t)
    && (calm ==> fits && Within(x, j1, j, B) && Within(x, j1 + t, j + t, B))
  }

  lemma Unreached(x: Poly, x0: Poly, want: Poly, j1: nat, j: nat, t: nat, B: nat, calm: bool, fits: bool)
    requires Partly(x, x0, want, j1, j, t, B, calm, fits) && j < j1 + t
    ensures j + t < |x| && x[j] == x0[j] && x[j + t] == x0[j + t]
  {
  }

  lemma PartlyMore(was: Poly, x: Poly, x0: Poly, want: Poly, j1: nat, j: nat, j': nat, t: nat, B: nat, calm: bool,
                   fits: bool, fit: bool)
    requires Partly(was, x0, want, j1, j, t, B, calm, fits) && j < j1 + t && j' == j + 1 && |x| == |was|
    requires forall l {:trigger x[l]} :: 0 <= l < |x| && l != j && l != j + t ==> x[l] == was[l]
    requires x[j] == want[j] && x[j + t] == want[j + t]
    requires calm ==> fit && Abs(x[j]) <= B && Abs(x[j + t]) <= B
    ensures Partly(x, x0, want, j1, j', t, B, calm, fits && fit)
  {
  }

  /** One block, which lies between a finished prefix and an untouched suffix. */
  method ForwardBlock(x: array<int>, j1: nat, t: nat, s: int, mod: int,
                      ghost done: Poly, ghost block: Poly, ghost rest: Poly, ghost B: nat)
    returns (ghost done': Poly, ghost fits: bool)
    requires mod > 0 && j1 + 2 * t <= x.Length && |block| == 2 * t
    requires x[..j1] == done && x[j1..] == block + rest
    modifies x
    ensures x[..j1 + 2 * t] == done + done' && x[j1 + 2 * t..] == rest && |done'| == |block|
    ensures done' == CButterfly(block, t, s, mod)
    ensures Roomy(B, s, mod) && Bounded(block, B) ==> fits && Bounded(done', B)
  {
    ghost var x0, want := x[..], (done + CButterfly(block, t, s, mod)) + rest;
    ForwardWanted(x0, done, block, rest, t, s, mod, want);
    fits := ForwardButterflies(x, j1, t, s, mod, want, B);
    done' := Rebuild(x0, x[..], done, block, rest);
    BlockDone(done', CButterfly(block, t, s, mod), x[..], want, j1, t);
    BlockWithin(x0, done, block, rest, j1, t, B);
    DoneWithin(x[..], done', j1, t, B);
  }

  lemma BlockWithin(x: Poly, done: Poly, block: Poly, rest: Poly, j1: nat, t: nat, B: nat)
    requires |done| == j1 <= |x| && x[..j1] == done && x[j1..] == block + rest && |block| == 2 * t
    ensures j1 + 2 * t <= |x|
    ensures Bounded(block, B) ==> Within(x, j1, j1 + 2 * t, B)
  {
    Middle(x, done, block, rest);
  }

  lemma DoneWithin(x: Poly, done': Poly, j1: nat, t: nat, B: nat)
    requires j1 + 2 * t <= |x| && |done'| == 2 * t
    requires forall l {:trigger done'[l]} :: 0 <= l < 2 * t ==> done'[l] == x[j1 + l]
    ensures Within(x, j1, j1 + 2 * t, B) ==> Bounded(done', B)
  {
  }

  lemma ForwardWanted(x: Poly, done: Poly, block: Poly, rest: Poly, t: nat, s: int, mod: int, want: Poly)
    requires mod > 0 && |done| <= |x| && x[..|done|] == done && x[|done|..] == block + rest && |block| == 2 * t
    requires want == (done + CButterfly(block, t, s, mod)) + rest
    ensures |want| == |x|
    ensures forall l {:trigger want[l]} :: |done| <= l < |done| + t ==>
        want[l] == CSum(x[l], x[l + t], s, mod) && want[l + t] == CDifference(x[l], x[l + t], s, mod)
  {
    var b := CButterfly(block, t, s, mod);
    Middle(x, done, block, rest);
    forall l {:trigger want[l]} | |done| <= l < |done| + t
      ensures want[l] == CSum(x[l], x[l + t], s, mod) && want[l + t] == CDifference(x[l], x[l + t], s, mod)
    {
      var i := l - |done|;
      assert want[l] == b[i] && want[l + t] == b[i + t];
      assert x[l] == block[i] && x[l + t] == block[i + t];
    }
  }

  /** A block with the wanted values is the wanted block. */
  lemma BlockDone(r: Poly, b: Poly, x: Poly, want: Poly, j1: nat, t: nat)
    requires |b| == |r| == 2 * t && j1 + 2 * t <= |x| == |want|
    requires forall l {:trigger r[l]} :: 0 <= l < 2 * t ==> r[l] == x[j1 + l] && b[l] == want[j1 + l]
    requires Equals(x, want, j1, j1 + t) && Equals(x, want, j1 + t, j1 + 2 * t)
    ensures r == b
  {
    forall l | 0 <= l < 2 * t
      ensures r[l] == b[l]
    {
      assert x[j1 + l] == want[j1 + l];
    }
  }

  lemma Middle(x: Poly, done: Poly, block: Poly, rest: Poly)
    requires |done| <= |x| && x[..|done|] == done && x[|done|..] == block + rest
    ensures |x| == |done| + |block| + |rest|
    ensures forall l {:trigger x[l]} :: |done| <= l < |done| + |block| ==> x[l] == block[l - |done|]
  {
    forall l {:trigger x[l]} | |done| <= l < |done| + |block|
      ensures x[l] == block[l - |done|]
    {
      assert x[l] == x[|done|..][l - |done|];
    }
  }

  lemma Rebuild(before: Poly, after: Poly, done: Poly, block: Poly, rest: Poly) returns (done': Poly)
    requires |before| == |after| && |done| <= |before| && before[..|done|] == done && before[|done|..] == block + rest
    requires forall l :: 0 <= l < |done| ==> after[l] == before[l]
    requires forall l :: |done| + |block| <= l < |after| ==> after[l] == before[l]
    ensures |done| + |block| <= |after| && |done'| == |block|
    ensures after[..|done| + |block|] == done + done' && after[|done| + |block|..] == rest
    ensures forall l {:trigger done'[l]} :: 0 <= l < |block| ==> done'[l] == after[|done| + l]
  {
    var g, h := |done|, |done| + |block|;
    assert |before[g..]| == |block| + |rest|;
    done' := after[g..h];
    assert after[..g] == done;
    assert before[h..] == before[g..][|block|..] == rest;
    assert after[h..] == before[h..];
  }

  lemma CStageCons(w: seq<int>, b: Poly, rest: Poly, t: nat, k: nat, k': nat, mod: int)
    requires mod > 0 && t > 0 && |b| == 2 * t && k' == k + 1
    ensures CStage(w, b + rest, t, k, mod) == CButterfly(b, t, At(w, k), mod) + CStage(w, rest, t, k', mod)
  {
    var x := Joined(b, rest, 2 * t);
    CStageUnfolds(w, x, t, k, mod);
  }

  lemma Joined(a: Poly, b: Poly, n: nat) returns (x: Poly)
    requires |a| == n
    ensures x == a + b && n <= |x| && Low(x, n) == a && High(x, n) == b
  {
    x := a + b;
    LowHighConcat(a, b);
  }

  lemma CStageUnfolds(w: seq<int>, x: Poly, t: nat, k: nat, mod: int)
    requires mod > 0 && t > 0 && 2 * t <= |x|
    ensures CStage(w, x, t, k, mod)
         == CButterfly(Low(x, 2 * t), t, At(w, k), mod) + CStage(w, High(x, 2 * t), t, k + 1, mod)
  {
  }

  lemma StageAdvance(w: seq<int>, done: Poly, block: Poly, rest: Poly, t: nat, k: nat, k': nat, target: Poly, mod: int)
    requires mod > 0 && t > 0 && |block| == 2 * t && k' == k + 1
    requires done + CStage(w, block + rest, t, k, mod) == target
    ensures (done + CButterfly(block, t, At(w, k), mod)) + CStage(w, rest, t, k', mod) == target
  {
    CStageCons(w, block, rest, t, k, k', mod);
    ConcatAssoc(done, CButterfly(block, t, At(w, k), mod), CStage(w, rest, t, k', mod));
  }

  /** One block of a level; done is what precedes it and rest what is still unchanged. */
  method ForwardNext(x: array<int>, w: seq<int>, j1: nat, t: nat, k: nat, mod: int,
                     ghost done: Poly, ghost rest: Poly, ghost target: Poly, ghost B: nat)
    returns (j2: nat, k': nat, ghost after: Poly, ghost rest': Poly, ghost fits: bool)
    requires mod > 0 && t > 0 && j1 + 2 * t <= x.Length && k < |w|
    requires x[..j1] == done && x[j1..] == rest && done + CStage(w, rest, t, k, mod) == target
    modifies x
    ensures j2 == j1 + 2 * t && k' == k + 1 && |after| == j2 && x[..j2] == after && x[j2..] == rest'
    ensures after + CStage(w, rest', t, k', mod) == target
    ensures Calm(w, B, mod) && Bounded(done, B) && Bounded(rest, B) ==> fits && Bounded(after, B) && Bounded(rest', B)
  {
    ghost var block, done';
    block, rest' := Split(rest, 2 * t);
    done', fits := ForwardBlock(x, j1, t, w[k], mod, done, block, rest', B);
    j2, k', after := j1 + 2 * t, k + 1, done + done';
    StageAdvance(w, done, block, rest', t, k, k', target, mod);
    if Calm(w, B, mod) && Bounded(done, B) && Bounded(rest, B) {
      assert Roomy(B, w[k], mod);
      BoundedParts(block, rest', rest, B);
      BoundedConcat(done, done', B);
    }
  }

  /** There is room for all roots of the table. */
  ghost predicate Calm(w: seq<int>, B: nat, mod: int) {
    forall k {:trigger w[k]} :: 0 <= k < |w| ==> Roomy(B, w[k], mod)
  }

  lemma BoundedParts(a: Poly, b: Poly, ab: Poly, B: nat)
    requires ab == a + b && Bounded(ab, B)
    ensures Bounded(a, B) && Bounded(b, B)
  {
    forall i | 0 <= i < |a|
      ensures Abs(a[i]) <= B
    {
      assert ab[i] == a[i];
    }
    forall i | 0 <= i < |b|
      ensures Abs(b[i]) <= B
    {
      assert ab[|a| + i] == b[i];
    }
  }

  lemma BoundedConcat(a: Poly, b: Poly, B: nat)
    requires Bounded(a, B) && Bounded(b, B)
    ensures Bounded(a + b, B)
  {
  }

  method ForwardStage(x: array<int>, w: seq<int>, m: nat, t: nat, mod: int, ghost B: nat) returns (ghost fits: bool)
    requires mod > 0 && t > 0 && 2 * m * t == x.Length && 2 * m <= |w|
    modifies x
    ensures x[..] == CStage(w, old(x[..]), t, m, mod)
    ensures Calm(w, B, mod) && Bounded(old(x[..]), B) ==> fits && Bounded(x[..], B)
  {
    ghost var calm := Calm(w, B, mod) && Bounded(x[..], B);
    fits := true;
    ghost var target := CStage(w, x[..], t, m, mod);
    ghost var done: Poly, rest: Poly := [], x[..];
    var j1, k := 0, m;
    assert x[0..] == x[..];
    EmptyConcat(target);
    LevelLength(m, t, x.Length);
    for i := 0 to m
      invariant k == m + i && j1 == Multiple(i, 2 * t) <= x.Length
      invariant x[..j1] == done && x[j1..] == rest && done + CStage(w, rest, t, k, mod) == target
      invariant calm ==> fits && Bounded(done, B) && Bounded(rest, B)
    {
      BlockFits(i, m, 2 * t, x.Length);
      ghost var fit;
      j1, k, done, rest, fit := ForwardNext(x, w, j1, t, k, mod, done, rest, target, B);
      fits := fits && fit;
    }
    StageEnd(w, x[..], done, rest, t, k, target, mod);
    assert x[..] == done;
  }

  lemma LevelLength(m: nat, t: nat, n: nat)
    requires 2 * m * t == n
    ensures Multiple(m, 2 * t) == n
  {
    MultipleIs(m, 2 * t);
  }

  lemma {:induction false} BlockFits(i: nat, m: nat, l: nat, n: nat)
    requires i < m && Multiple(m, l) == n
    ensures Multiple(i, l) + l == Multiple(i + 1, l) <= n
    decreases m
  {
    if i + 1 < m {
      BlockFits(i, m - 1, l, n - l);
    }
  }

  lemma StageEnd(w: seq<int>, x: Poly, done: Poly, rest: Poly, t: nat, k: nat, target: Poly, mod: int)
    requires mod > 0 && t > 0 && done + CStage(w, rest, t, k, mod) == target && |rest| == 0 && x == done + rest
    ensures x == target
  {
    assert CStage(w, rest, t, k, mod) == rest;
  }

  lemma InverseStageEnd(wi: seq<int>, z: Poly, done: Poly, rest: Poly, t: nat, k: nat, target: Poly, mod: int)
    requires mod > 0 && t > 0 && done + CInverseStage(wi, rest, t, k, mod) == target && |rest| == 0 && z == done + rest
    ensures z == target
  {
    assert CInverseStage(wi, rest, t, k, mod) == rest;
  }

  lemma EmptyConcat(x: Poly)
    ensures [] + x == x
  {
  }

  /** The sizes at a level of the transform: m blocks of length t. */
  ghost predicate LevelSizes(s: nat, e: nat, n: nat, m: nat, t: nat) {
    m == Pow2(s) && t == Pow2(e) && n == Pow2(s + e)
  }

  lemma NextSizes(s: nat, e: nat, n: nat, m: nat, t: nat, m': nat, t': nat) returns (s': nat, e': nat)
    requires LevelSizes(s, e, n, m, t) && m < n && m' == 2 * m && t' == t / 2
    ensures e == e' + 1 && LevelSizes(s', e', n, m', t') && m' <= n && 2 * m * t' == n && t' > 0
  {
    Pow2Less(s, s + e);
    s', e' := s + 1, e - 1;
    HalfOf(t, Pow2(e'));
    Pow2Add(s', e');
    Pow2Less(s + e, s');
  }

  lemma HalfOf(m: nat, h: nat)
    requires m == 2 * h
    ensures m / 2 == h
  {
  }

  /** One level, which halves the blocks. */
  method ForwardLevel(x: array<int>, w: seq<int>, n: nat, m: nat, t: nat, mod: int, ghost s: nat, ghost e: nat,
                      ghost target: Poly, ghost B: nat)
    returns (m': nat, t': nat, ghost s': nat, ghost e': nat, ghost fits: bool)
    requires mod > 0 && x.Length == n && |w| >= n && LevelSizes(s, e, n, m, t) && m < n
    requires CForward(w, x[..], e, m, mod) == target
    modifies x
    ensures LevelSizes(s', e', n, m', t') && m' == 2 * m
    ensures CForward(w, x[..], e', m', mod) == target
    ensures Calm(w, B, mod) && Bounded(old(x[..]), B) ==> fits && Bounded(x[..], B)
  {
    m', t' := 2 * m, t / 2;
    s', e' := NextSizes(s, e, n, m, t, m', t');
    CForwardUnfolds(w, x[..], e, e', m, m', t', mod);
    fits := ForwardStage(x, w, m, t', mod, B);
  }

  lemma CForwardUnfolds(w: seq<int>, x: Poly, e: nat, e': nat, k: nat, k': nat, t: nat, mod: int)
    requires mod > 0 && e == e' + 1 && k' == 2 * k && t == Pow2(e')
    ensures CForward(w, x, e, k, mod) == CForward(w, CStage(w, x, t, k, mod), e', k', mod)
  {
  }

  /** The forward loops: all levels, exactly as C computes them, which is the transform modulo mod. */
  method Forward(x: array<int>, w: seq<int>, n: nat, mod: int, ghost d: nat) returns (ghost fits: bool)
    requires mod > 0 && x.Length == n == Pow2(d) && |w| >= n
    modifies x
    ensures x[..] == CForward(w, old(x[..]), d, 1, mod)
    ensures Eqv(x[..], Ntt(w, old(x[..]), d, 1), mod)
    ensures Calm(w, mod, mod) && Bounded(old(x[..]), mod) ==> fits && Bounded(x[..], mod)
  {
    ghost var calm := Calm(w, mod, mod) && Bounded(x[..], mod);
    fits := true;
    ghost var target := CForward(w, x[..], d, 1, mod);
    ghost var s: nat, e: nat := 0, d;
    var t, m := n, 1;
    ForwardTransforms(w, x[..], d, mod);
    while m < n
      invariant LevelSizes(s, e, n, m, t) && m > 0
      invariant CForward(w, x[..], e, m, mod) == target
      invariant calm ==> fits && Bounded(x[..], mod)
      decreases n - m
    {
      ghost var fit;
      m, t, s, e, fit := ForwardLevel(x, w, n, m, t, mod, s, e, target, mod);
      fits := fits && fit;
    }
    LastLevel(w, x[..], s, e, n, m, t, target, mod);
  }

  lemma ForwardTransforms(w: seq<int>, x: Poly, d: nat, p: int)
    requires p > 0 && |x| == Pow2(d)
    ensures Eqv(CForward(w, x, d, 1, p), Ntt(w, x, d, 1), p)
  {
    CForwardEqv(w, x, 0, d, 1, p);
    RootEqv(w, x, d, 1, p);
  }

  lemma LastLevel(w: seq<int>, x: Poly, s: nat, e: nat, n: nat, m: nat, t: nat, target: Poly, mod: int)
    requires mod > 0 && LevelSizes(s, e, n, m, t) && m >= n && CForward(w, x, e, m, mod) == target
    ensures x == target
  {
    Pow2Less(s, s + e);
  }

  // ---------- the inverse transform ----------

  /** One inverse butterfly; the sum is stored unreduced. */
  method InversePair(z: array<int>, j: nat, k: nat, s: int, mod: int, ghost B: nat) returns (ghost fits: bool)
    requires mod > 0 && j < z.Length && k < z.Length && j != k
    modifies z
    ensures forall l :: 0 <= l < z.Length && l != j && l != k ==> z[l] == old(z[l])
    ensures z[j] == old(z[j]) + old(z[k]) && z[k] == CScaled(old(z[j]), old(z[k]), s, mod)
    ensures Roomy(B, s, mod) && Abs(old(z[j])) <= B && Abs(old(z[k])) <= B ==>
        fits && Abs(z[j]) <= 2 * B && Abs(z[k]) <= 2 * B
  {
    var u, v := z[j], z[k];
    fits := InverseFits(u, v, s, mod);
    if Roomy(B, s, mod) && Abs(u) <= B && Abs(v) <= B {
      InverseRoom(u, v, s, mod, B);
    }
    z[j] := u + v;
    z[k] := TruncMod((u + mod - v) * s, mod);
  }

  method InverseButterflies(z: array<int>, j1: nat, t: nat, s: int, mod: int, ghost want: Poly, ghost B: nat)
    returns (ghost fits: bool)
    requires mod > 0 && j1 + 2 * t <= z.Length == |want|
    requires forall l {:trigger want[l]} :: j1 <= l < j1 + t ==>
        want[l] == z[l] + z[l + t] && want[l + t] == CScaled(z[l], z[l + t], s, mod)
    modifies z
    ensures forall l :: 0 <= l < z.Length && !(j1 <= l < j1 + 2 * t) ==> z[l] == old(z[l])
    ensures Equals(z[..], want, j1, j1 + t) && Equals(z[..], want, j1 + t, j1 + 2 * t)
    ensures Roomy(B, s, mod) && Within(old(z[..]), j1, j1 + 2 * t, B) ==> fits && Within(z[..], j1, j1 + 2 * t, 2 * B)
  {
    ghost var z0, calm := z[..], Roomy(B, s, mod) && Within(z[..], j1, j1 + 2 * t, B);
    fits := true;
    for j := j1 to j1 + t
      invariant Partly(z[..], z0, want, j1, j, t, 2 * B, calm, fits)
    {
      ghost var was := z[..];
      Unreached(was, z0, want, j1, j, t, 2 * B, calm, fits);
      ghost var fit := InversePair(z, j, j + t, s, mod, B);
      PartlyMore(was, z[..], z0, want, j1, j, j + 1, t, 2 * B, calm, fits, fit);
      fits := fits && fit;
    }
  }

  method InverseBlock(z: array<int>, j1: nat, t: nat, s: int, mod: int,
                      ghost done: Poly, ghost block: Poly, ghost rest: Poly, ghost B: nat)
    returns (ghost done': Poly, ghost fits: bool)
    requires mod > 0 && j1 + 2 * t <= z.Length && |block| == 2 * t
    requires z[..j1] == done && z[j1..] == block + rest
    modifies z
    ensures z[..j1 + 2 * t] == done + done' && z[j1 + 2 * t..] == rest && |done'| == |block|
    ensures done' == CInverseButterfly(block, t, s, mod)
    ensures Roomy(B, s, mod) && Bounded(block, B) ==> fits && Bounded(done', 2 * B)
  {
    ghost var z0, want := z[..], (done + CInverseButterfly(block, t, s, mod)) + rest;
    InverseWanted(z0, done, block, rest, t, s, mod, want);
    fits := InverseButterflies(z, j1, t, s, mod, want, B);
    done' := Rebuild(z0, z[..], done, block, rest);
    BlockDone(done', CInverseButterfly(block, t, s, mod), z[..], want, j1, t);
    BlockWithin(z0, done, block, rest, j1, t, B);
    DoneWithin(z[..], done', j1, t, 2 * B);
  }

  lemma InverseWanted(z: Poly, done: Poly, block: Poly, rest: Poly, t: nat, s: int, mod: int, want: Poly)
    requires mod > 0 && |done| <= |z| && z[..|done|] == done && z[|done|..] == block + rest && |block| == 2 * t
    requires want == (done + CInverseButterfly(block, t, s, mod)) + rest
    ensures |want| == |z|
    ensures forall l {:trigger want[l]} :: |done| <= l < |done| + t ==>
        want[l] == z[l] + z[l + t] && want[l + t] == CScaled(z[l], z[l + t], s, mod)
  {
    var b := CInverseButterfly(block, t, s, mod);
    Middle(z, done, block, rest);
    forall l {:trigger want[l]} | |done| <= l < |done| + t
      ensures want[l] == z[l] + z[l + t] && want[l + t] == CScaled(z[l], z[l + t], s, mod)
    {
      var i := l - |done|;
      assert want[l] == b[i] && want[l + t] == b[i + t];
      assert z[l] == block[i] && z[l + t] == block[i + t];
    }
  }

  lemma CInverseStageCons(wi: seq<int>, b: Poly, rest: Poly, t: nat, k: nat, k': nat, mod: int)
    requires mod > 0 && t > 0 && |b| == 2 * t && k' == k + 1
    ensures CInverseStage(wi, b + rest, t, k, mod)
         == CInverseButterfly(b, t, At(wi, k), mod) + CInverseStage(wi, rest, t, k', mod)
  {
    var z := Joined(b, rest, 2 * t);
    CInverseStageUnfolds(wi, z, t, k, mod);
  }

  lemma CInverseStageUnfolds(wi: seq<int>, z: Poly, t: nat, k: nat, mod: int)
    requires mod > 0 && t > 0 && 2 * t <= |z|
    ensures CInverseStage(wi, z, t, k, mod)
         == CInverseButterfly(Low(z, 2 * t), t, At(wi, k), mod) + CInverseStage(wi, High(z, 2 * t), t, k + 1, mod)
  {
  }

  lemma InverseAdvance(wi: seq<int>, done: Poly, block: Poly, rest: Poly, t: nat, k: nat, k': nat, target: Poly,
                       mod: int)
    requires mod > 0 && t > 0 && |block| == 2 * t && k' == k + 1
    requires done + CInverseStage(wi, block + rest, t, k, mod) == target
    ensures (done + CInverseButterfly(block, t, At(wi, k), mod)) + CInverseStage(wi, rest, t, k', mod) == target
  {
    CInverseStageCons(wi, block, rest, t, k, k', mod);
    ConcatAssoc(done, CInverseButterfly(block, t, At(wi, k), mod), CInverseStage(wi, rest, t, k', mod));
  }

  /** One block of an inverse level. */
  method InverseNext(z: array<int>, wi: seq<int>, j1: nat, t: nat, k: nat, mod: int,
                     ghost done: Poly, ghost rest: Poly, ghost target: Poly, ghost B: nat)
    returns (j2: nat, k': nat, ghost after: Poly, ghost rest': Poly, ghost fits: bool)
    requires mod > 0 && t > 0 && j1 + 2 * t <= z.Length && k < |wi|
    requires z[..j1] == done && z[j1..] == rest && done + CInverseStage(wi, rest, t, k, mod) == target
    modifies z
    ensures j2 == j1 + 2 * t && k' == k + 1 && |after| == j2 && z[..j2] == after && z[j2..] == rest'
    ensures after + CInverseStage(wi, rest', t, k', mod) == target
    ensures Calm(wi, B, mod) && Bounded(done, 2 * B) && Bounded(rest, B) ==>
        fits && Bounded(after, 2 * B) && Bounded(rest', B)
  {
    ghost var block, done';
    block, rest' := Split(rest, 2 * t);
    done', fits := InverseBlock(z, j1, t, wi[k], mod, done, block, rest', B);
    j2, k', after := j1 + 2 * t, k + 1, done + done';
    InverseAdvance(wi, done, block, rest', t, k, k', target, mod);
    if Calm(wi, B, mod) && Bounded(done, 2 * B) && Bounded(rest, B) {
      assert Roomy(B, wi[k], mod);
      BoundedParts(block, rest', rest, B);
      BoundedConcat(done, done', 2 * B);
    }
  }

  method InverseLevel(z: array<int>, wi: seq<int>, h: nat, t: nat, mod: int, ghost B: nat) returns (ghost fits: bool)
    requires mod > 0 && t > 0 && 2 * h * t == z.Length && 2 * h <= |wi|
    modifies z
    ensures z[..] == CInverseStage(wi, old(z[..]), t, h, mod)
    ensures Calm(wi, B, mod) && Bounded(old(z[..]), B) ==> fits && Bounded(z[..], 2 * B)
  {
    ghost var calm := Calm(wi, B, mod) && Bounded(z[..], B);
    fits := true;
    ghost var target := CInverseStage(wi, z[..], t, h, mod);
    ghost var done: Poly, rest: Poly := [], z[..];
    var j1, k := 0, h;
    assert z[0..] == z[..];
    EmptyConcat(target);
    LevelLength(h, t, z.Length);
    for i := 0 to h
      invariant k == h + i && j1 == Multiple(i, 2 * t) <= z.Length
      invariant z[..j1] == done && z[j1..] == rest && done + CInverseStage(wi, rest, t, k, mod) == target
      invariant calm ==> fits && Bounded(done, 2 * B) && Bounded(rest, B)
    {
      BlockFits(i, h, 2 * t, z.Length);
      ghost var fit;
      j1, k, done, rest, fit := InverseNext(z, wi, j1, t, k, mod, done, rest, target, B);
      fits := fits && fit;
    }
    InverseStageEnd(wi, z[..], done, rest, t, k, target, mod);
    assert z[..] == done;
  }

  /** The inverse loops: all levels, exactly as C computes them, which is the inverse transform modulo mod. */
  method Inverse(z: array<int>, wi: seq<int>, n: nat, mod: int, ghost d: nat) returns (ghost fits: bool)
    requires mod > 0 && z.Length == n == Pow2(d) && |wi| >= n
    modifies z
    ensures z[..] == CInverse(wi, old(z[..]), d, 0, mod)
    ensures Eqv(z[..], Intt(wi, old(z[..]), d, 1), mod)
    ensures Residues(wi, mod) && Small(n, mod) && Bounded(old(z[..]), mod) ==> fits && Bounded(z[..], n * mod)
  {
    ghost var calm := Residues(wi, mod) && Small(n, mod) && Bounded(z[..], mod);
    fits := true;
    ghost var target := CInverse(wi, z[..], d, 0, mod);
    ghost var s: nat, e: nat, B: nat := d, 0, mod;
    var t: nat := 1;
    var m: nat := n;
    InverseTransforms(wi, z[..], d, mod);
    while m > 1
      invariant InverseSizes(s, e, d, m, t)
      invariant CInverse(wi, z[..], s, e, mod) == target
      invariant B == t * mod && (calm ==> fits && Bounded(z[..], B))
      decreases m
    {
      ghost var fit;
      DoubleTimes(t, mod);
      m, t, s, e, B, fit := InverseTurn(z, wi, m, t, mod, s, e, d, target, B, n);
      fits := fits && fit;
    }
    LastLength(s, e, d, m, t);
  }

  lemma InverseTransforms(wi: seq<int>, z: Poly, d: nat, p: int)
    requires p > 0 && |z| == Pow2(d)
    ensures Eqv(CInverse(wi, z, d, 0, p), Intt(wi, z, d, 1), p)
  {
    LeafEqv(wi, z, Pow2(d), p);
    CInverseEqv(wi, z, z, d, 0, d, p);
    RootEqv(wi, z, d, 1, p);
  }

  lemma LastLength(s: nat, e: nat, d: nat, m: nat, t: nat)
    requires InverseSizes(s, e, d, m, t) && m <= 1
    ensures t == Pow2(d) && s == 0
  {
    Pow2Less(0, s);
  }

  /** All entries are residues. */
  ghost predicate Residues(w: seq<int>, mod: int) {
    forall k {:trigger w[k]} :: 0 <= k < |w| ==> 0 <= w[k] < mod
  }

  /** Small enough for 32-bit arithmetic; the inverse transform adds without reducing, so n counts. */
  predicate Small(n: nat, mod: int) {
    (n + 2) * mod * mod < 0x8000_0000
  }

  /** Before the level with blocks of length t the entries are at most t * mod. */
  lemma SmallCalm(w: seq<int>, t: nat, B: nat, n: nat, mod: int)
    requires mod > 0 && t > 0 && B == t * mod && 2 * t <= n && Residues(w, mod) && Small(n, mod)
    ensures Calm(w, B, mod)
  {
    MulLe(1, t, mod);
    MulLe(2 * t + 1, n + 2, mod * mod);
    assert (2 * (t * mod) + mod) * mod == (2 * t + 1) * (mod * mod);
    assert (n + 2) * mod * mod == (n + 2) * (mod * mod);
  }

  /** One level, which doubles the blocks. */
  method InverseTurn(z: array<int>, wi: seq<int>, m: nat, t: nat, mod: int, ghost s: nat, ghost e: nat, ghost d: nat,
                     ghost target: Poly, ghost B: nat, ghost n: nat)
    returns (h: nat, t': nat, ghost s': nat, ghost e': nat, ghost B': nat, ghost fits: bool)
    requires mod > 0 && z.Length == Pow2(d) && |wi| >= z.Length && InverseSizes(s, e, d, m, t) && m > 1
    requires CInverse(wi, z[..], s, e, mod) == target
    modifies z
    ensures InverseSizes(s', e', d, h, t') && h < m
    ensures CInverse(wi, z[..], s', e', mod) == target
    ensures t' == 2 * t && B' == 2 * B
    ensures B == t * mod && n == z.Length && Residues(wi, mod) && Small(n, mod) && Bounded(old(z[..]), B) ==>
        fits && Bounded(z[..], B')
  {
    h, t', B' := m / 2, 2 * t, 2 * B;
    s', e' := NextInverseSizes(s, e, d, m, t, h, t');
    TurnRoom(wi, h, t, B, n, mod);
    CInverseUnfolds(wi, z[..], s, s', e, e', h, t, mod);
    fits := InverseLevel(z, wi, h, t, mod, B);
  }

  lemma CInverseUnfolds(wi: seq<int>, z: Poly, s: nat, s': nat, e: nat, e': nat, h: nat, t: nat, mod: int)
    requires mod > 0 && s == s' + 1 && e' == e + 1 && h == Pow2(s') && t == Pow2(e)
    ensures CInverse(wi, z, s, e, mod) == CInverse(wi, CInverseStage(wi, z, t, h, mod), s', e', mod)
  {
  }

  lemma TurnRoom(wi: seq<int>, h: nat, t: nat, B: nat, n: nat, mod: int)
    requires mod > 0 && t > 0 && h > 0
    ensures B == t * mod && n == 2 * h * t && Residues(wi, mod) && Small(n, mod) ==> Calm(wi, B, mod)
  {
    if B == t * mod && n == 2 * h * t && Residues(wi, mod) && Small(n, mod) {
      MulLe(1, h, 2 * t);
      assert 2 * h * t == h * (2 * t);
      SmallCalm(wi, t, B, n, mod);
    }
  }

  ghost predicate InverseSizes(s: nat, e: nat, d: nat, m: nat, t: nat) {
    s + e == d && t == Pow2(e) && m == Pow2(s)
  }

  lemma NextInverseSizes(s: nat, e: nat, d: nat, m: nat, t: nat, h: nat, t': nat) returns (s': nat, e': nat)
    requires InverseSizes(s, e, d, m, t) && m > 1 && h == m / 2 && t' == 2 * t
    ensures s == s' + 1 && e' == e + 1 && InverseSizes(s', e', d, h, t') && t > 0
    ensures 0 < h < m && 2 * h * t == Pow2(d) && 2 * h <= Pow2(d)
  {
    Pow2Less(0, s);
    s', e' := s - 1, e + 1;
    HalfOf(m, Pow2(s'));
    Pow2Add(s, e);
    Pow2Less(d, s);
  }

  // ---------- the schoolbook product ----------

  lemma SchoolbookStep(q: int, a: int, b: int, p: int)
    requires p > 0
    ensures Cong(TruncMod(q + a * b, p), q + a * b, p)
    ensures Cong(TruncMod(q + p * p - a * b, p), q + a * (-1 * b), p)
  {
    TruncModCong(q + a * b, p);
    TruncModCong(q + p * p - a * b, p);
    assert a * (-1 * b) == -(a * b);
    CongFrom(q + p * p - a * b, q - a * b, p, p);
  }

  ghost predicate SchoolbookFits(q: int, a: int, b: int, mod: int) {
    Int32(a * b) && Int32(q + a * b) && Int32(mod * mod) && Int32(q + mod * mod) && Int32(q + mod * mod - a * b)
  }

  lemma SchoolbookRoom(q: int, a: int, b: int, n: nat, mod: int)
    requires mod > 0 && n > 0 && Small(n, mod) && Abs(q) <= mod && Abs(a) <= mod && Abs(b) <= mod
    ensures SchoolbookFits(q, a, b, mod)
  {
    ProductAtMost(a, b, mod, mod);
    SquareRoom(n, mod);
  }

  lemma SquareRoom(n: nat, mod: int)
    requires mod > 0 && n > 0 && Small(n, mod)
    ensures mod <= mod * mod && 3 * (mod * mod) < 0x8000_0000
  {
    MulLe(1, mod, mod);
    MulLe(3, n + 2, mod * mod);
    assert (n + 2) * mod * mod == (n + 2) * (mod * mod);
  }

  /** What one step of the double loop makes of an entry q; the product is subtracted where X^n = -1 applies. */
  ghost function CEntry(q: int, a: int, b: int, wraps: bool, mod: int): (r: int)
    requires mod > 0
    ensures IsRemainder(r, if wraps then q + mod * mod - a * b else q + a * b, mod)
  {
    var r := TruncMod(if wraps then q + mod * mod - a * b else q + a * b, mod);
    TruncModIff(if wraps then q + mod * mod - a * b else q + a * b, r, mod);
    r
  }

  method SchoolbookEntry(q: array<int>, l: nat, a: int, b: int, wraps: bool, mod: int, ghost n: nat)
    returns (ghost fits: bool)
    requires mod > 0 && l < q.Length
    modifies q
    ensures forall i :: 0 <= i < q.Length && i != l ==> q[i] == old(q[i])
    ensures q[l] == CEntry(old(q[l]), a, b, wraps, mod)
    ensures Abs(q[l]) <= mod
    ensures n > 0 && Small(n, mod) && Abs(old(q[l])) <= mod && Abs(a) <= mod && Abs(b) <= mod ==> fits
  {
    fits := SchoolbookFits(q[l], a, b, mod);
    if n > 0 && Small(n, mod) && Abs(q[l]) <= mod && Abs(a) <= mod && Abs(b) <= mod {
      SchoolbookRoom(q[l], a, b, n, mod);
    }
    var c := if wraps then q[l] + mod * mod - a * b else q[l] + a * b;
    TruncModCong(c, mod);
    q[l] := TruncMod(c, mod);
  }

  /** Row i of the double loop. */
  ghost function CRow(q: Poly, xi: int, y: seq<int>, i: nat, mod: int): (r: Poly)
    requires mod > 0 && |q| == |y| && i < |y|
    ensures |r| == |q| && forall l {:trigger r[l]} :: 0 <= l < |q| ==>
        r[l] == if l >= i then CEntry(q[l], xi, y[l - i], false, mod) else CEntry(q[l], xi, y[|y| + l - i], true, mod)
  {
    seq(|q|, l requires 0 <= l < |q| =>
      if l >= i then CEntry(q[l], xi, y[l - i], false, mod) else CEntry(q[l], xi, y[|y| + l - i], true, mod))
  }

  /** The first i rows. */
  ghost function CSchoolbook(x: seq<int>, y: seq<int>, i: nat, mod: int): (r: Poly)
    requires mod > 0 && i <= |x| == |y|
    ensures |r| == |y|
  {
    if i == 0 then Zero(|y|) else CRow(CSchoolbook(x, y, i - 1, mod), x[i - 1], y, i - 1, mod)
  }

  /** A row adds x_i * X^i * y in the negacyclic ring. */
  lemma CRowEqv(q: Poly, xi: int, y: seq<int>, i: nat, p: int)
    requires p > 0 && |q| == |y| && i < |y|
    ensures Eqv(CRow(q, xi, y, i, p), Add(q, Scale(xi, ShiftN(-1, y, i))), p)
  {
    var r, target := CRow(q, xi, y, i, p), Add(q, Scale(xi, ShiftN(-1, y, i)));
    ShiftNAt(-1, y, i);
    forall l | 0 <= l < |q|
      ensures Cong(r[l], target[l], p)
    {
      SchoolbookStep(q[l], xi, if l >= i then y[l - i] else y[|y| + l - i], p);
    }
    EqvIntro(r, target, p);
  }

  lemma {:induction false} CSchoolbookEqv(x: seq<int>, y: seq<int>, i: nat, p: int)
    requires p > 0 && i <= |x| == |y|
    ensures Eqv(CSchoolbook(x, y, i, p), Mul(-1, x[..i], y), p)
  {
    if i > 0 {
      var row := Scale(x[i - 1], ShiftN(-1, y, i - 1));
      CSchoolbookEqv(x, y, i - 1, p);
      CRowEqv(CSchoolbook(x, y, i - 1, p), x[i - 1], y, i - 1, p);
      EqvAdd(CSchoolbook(x, y, i - 1, p), Mul(-1, x[..i - 1], y), row, row, p);
      MulAppend(-1, x[..i - 1], [x[i - 1]], y);
      MulSingle(-1, x[i - 1], ShiftN(-1, y, i - 1));
      assert x[..i] == x[..i - 1] + [x[i - 1]];
    }
  }

  method SchoolbookRow(q: array<int>, xi: int, y: seq<int>, i: nat, n: nat, mod: int) returns (ghost fits: bool)
    requires mod > 0 && q.Length == |y| == n && i < n
    modifies q
    ensures q[..] == CRow(old(q[..]), xi, y, i, mod)
    ensures Small(n, mod) && Abs(xi) <= mod && Bounded(y, mod) && Bounded(old(q[..]), mod) ==>
        fits && Bounded(q[..], mod)
  {
    ghost var was, row := q[..], CRow(q[..], xi, y, i, mod);
    ghost var calm := Small(n, mod) && Abs(xi) <= mod && Bounded(y, mod) && Bounded(q[..], mod);
    fits := true;
    for j := 0 to n
      invariant forall l {:trigger q[l]} :: 0 <= l < n ==> q[l] == if Reached(l, i, j, n) then row[l] else was[l]
      invariant calm ==> fits && forall l {:trigger q[l]} :: 0 <= l < n ==> Abs(q[l]) <= mod
    {
      ghost var fit;
      RowEntry(i, j, n);
      if i + j < n {
        fit := SchoolbookEntry(q, i + j, xi, y[j], false, mod, n);
      } else {
        fit := SchoolbookEntry(q, i + j - n, xi, y[j], true, mod, n);
      }
      fits := fits && fit;
    }
    assert q[..] == row;
  }

  /** The entry l has been reached by one of the first j steps of row i. */
  predicate Reached(l: nat, i: nat, j: nat, n: nat) {
    if l >= i then l - i < j else n + l - i < j
  }

  /** Step j of row i reaches one entry, which no step before it has reached. */
  lemma RowEntry(i: nat, j: nat, n: nat)
    requires i < n && j < n
    ensures var l := if i + j < n then i + j else i + j - n;
            && !Reached(l, i, j, n)
            && forall k: nat {:trigger Reached(k, i, j, n)} :: k < n ==>
                 (Reached(k, i, j + 1, n) <==> Reached(k, i, j, n) || k == l)
  {
  }

  method Schoolbook(x: array<int>, y: array<int>, q: array<int>, n: nat, mod: int) returns (ghost fits: bool)
    requires mod > 0 && x.Length == y.Length == q.Length == n && q != x && q != y
    requires forall i :: 0 <= i < n ==> q[i] == 0
    modifies q
    ensures q[..] == CSchoolbook(x[..], y[..], n, mod)
    ensures Eqv(q[..], Mul(-1, x[..], y[..]), mod)
    ensures Small(n, mod) && Bounded(x[..], mod) && Bounded(y[..], mod) ==> fits
  {
    ghost var xs, ys := x[..], y[..];
    ghost var calm := Small(n, mod) && Bounded(xs, mod) && Bounded(ys, mod);
    fits := true;
    assert q[..] == Zero(n);
    for i := 0 to n
      invariant x[..] == xs && y[..] == ys
      invariant q[..] == CSchoolbook(xs, ys, i, mod)
      invariant calm ==> fits && Bounded(q[..], mod)
    {
      ghost var fit := SchoolbookRow(q, x[i], y[..], i, n, mod);
      assert calm ==> Abs(xs[i]) <= mod;
      fits := fits && fit;
    }
    CSchoolbookEqv(xs, ys, n, mod);
    assert xs[..n] == xs;
  }

  // ---------- the whole program ----------

  ghost function CPointwise(x: Poly, y: Poly, mod: int): (r: Poly)
    requires mod > 0 && |x| == |y|
    ensures |r| == |x| && forall i {:trigger r[i]} :: 0 <= i < |x| ==> r[i] == TruncMod(x[i] * y[i], mod)
  {
    seq(|x|, i requires 0 <= i < |x| => TruncMod(x[i] * y[i], mod))
  }

  lemma CPointwiseEqv(x: Poly, y: Poly, p: int)
    requires p > 0 && |x| == |y|
    ensures Eqv(CPointwise(x, y, p), Pointwise(x, y), p)
  {
    forall l | 0 <= l < |x|
      ensures Cong(CPointwise(x, y, p)[l], Pointwise(x, y)[l], p)
    {
      TruncModCong(x[l] * y[l], p);
    }
    EqvIntro(CPointwise(x, y, p), Pointwise(x, y), p);
  }

  method PointwiseProduct(x: array<int>, y: array<int>, z: array<int>, n: nat, mod: int) returns (ghost fits: bool)
    requires mod > 0 && x.Length == y.Length == z.Length == n && z != x && z != y
    modifies z
    ensures z[..] == CPointwise(x[..], y[..], mod)
    ensures Small(n, mod) && Bounded(x[..], mod) && Bounded(y[..], mod) ==> fits && Bounded(z[..], mod)
  {
    ghost var calm := Small(n, mod) && Bounded(x[..], mod) && Bounded(y[..], mod);
    fits := true;
    for i := 0 to n
      invariant forall l :: 0 <= l < i ==> z[l] == TruncMod(x[l] * y[l], mod) && Abs(z[l]) <= mod
      invariant calm ==> fits
    {
      TruncModCong(x[i] * y[i], mod);
      if calm {
        assert Abs(x[..][i]) <= mod && Abs(y[..][i]) <= mod;
        ProductAtMost(x[i], y[i], mod, mod);
        SquareRoom(n, mod);
      }
      fits := fits && Int32(x[i] * y[i]);
      z[i] := TruncMod(x[i] * y[i], mod);
    }
    assert z[..] == CPointwise(x[..], y[..], mod);
  }

  ghost function CScale(z: Poly, ninv: int, mod: int): (r: Poly)
    requires mod > 0
    ensures |r| == |z| && forall i {:trigger r[i]} :: 0 <= i < |z| ==> r[i] == TruncMod(z[i] * ninv, mod)
  {
    seq(|z|, i requires 0 <= i < |z| => TruncMod(z[i] * ninv, mod))
  }

  lemma CScaleEqv(z: Poly, ninv: int, p: int)
    requires p > 0
    ensures Eqv(CScale(z, ninv, p), Scale(ninv, z), p)
  {
    forall l | 0 <= l < |z|
      ensures Cong(CScale(z, ninv, p)[l], Scale(ninv, z)[l], p)
    {
      TruncModCong(z[l] * ninv, p);
      assert z[l] * ninv == ninv * z[l];
    }
    EqvIntro(CScale(z, ninv, p), Scale(ninv, z), p);
  }

  method ScaleInPlace(z: array<int>, n: nat, ninv: int, mod: int) returns (ghost fits: bool)
    requires mod > 0 && z.Length == n
    modifies z
    ensures z[..] == CScale(old(z[..]), ninv, mod)
    ensures Small(n, mod) && Bounded(old(z[..]), n * mod) && 0 <= ninv < mod ==> fits
  {
    ghost var was := z[..];
    ghost var calm := Small(n, mod) && Bounded(was, n * mod) && 0 <= ninv < mod;
    fits := true;
    for i := 0 to n
      invariant forall l :: 0 <= l < i ==> z[l] == TruncMod(old(z[l]) * ninv, mod)
      invariant forall l :: i <= l < n ==> z[l] == old(z[l])
      invariant calm ==> fits
    {
      if calm {
        assert z[i] == was[i];
        ScaleRoom(was[i], ninv, n, mod);
      }
      fits := fits && Int32(z[i] * ninv);
      z[i] := TruncMod(z[i] * ninv, mod);
    }
    assert z[..] == CScale(was, ninv, mod);
  }

  lemma ScaleRoom(z: int, ninv: int, n: nat, mod: int)
    requires mod > 0 && Small(n, mod) && Abs(z) <= n * mod && 0 <= ninv < mod
    ensures Int32(z * ninv)
  {
    ProductAtMost(z, ninv, n * mod, mod);
    MulLe(n, n + 2, mod * mod);
    assert (n + 2) * mod * mod == (n + 2) * (mod * mod) && n * mod * mod == n * (mod * mod);
  }

  lemma EqvPointwise(x: Poly, x': Poly, y: Poly, y': Poly, p: int)
    requires p > 0 && |x| == |y| && Eqv(x, x', p) && Eqv(y, y', p) && |x'| == |y'|
    ensures Eqv(Pointwise(x, y), Pointwise(x', y'), p)
  {
    EqvElim(x, x', p);
    EqvElim(y, y', p);
    forall i | 0 <= i < |x|
      ensures Cong(Pointwise(x, y)[i], Pointwise(x', y')[i], p)
    {
      CongMul(x[i], x'[i], y[i], y'[i], p);
    }
    EqvIntro(Pointwise(x, y), Pointwise(x', y'), p);
  }

  /** What the loops leave in z: the scaled inverse of the pointwise product of the two transforms. */
  ghost function CProduct(w: seq<int>, wi: seq<int>, x: Poly, y: Poly, d: nat, ninv: int, mod: int): (r: Poly)
    requires mod > 0 && |x| == |y|
    ensures |r| == |x|
  {
    CScale(CInverse(wi, CPointwise(CForward(w, x, d, 1, mod), CForward(w, y, d, 1, mod), mod), d, 0, mod), ninv, mod)
  }

  /** Modulo mod that is the product in the ring X^n = -1. */
  lemma CProductEqv(w: seq<int>, wi: seq<int>, x: Poly, y: Poly, d: nat, ninv: int, p: int)
    requires p > 0 && |x| == |y| == Pow2(d) && Tables(w, wi, Pow2(d), p) && Cong(Pow2(d) * ninv, 1, p)
    ensures Eqv(CProduct(w, wi, x, y, d, ninv, p), Mul(-1, x, y), p)
  {
    var xt, yt, exact := CForward(w, x, d, 1, p), CForward(w, y, d, 1, p), Pointwise(Ntt(w, x, d, 1), Ntt(w, y, d, 1));
    var z1 := CPointwise(xt, yt, p);
    var z2 := CInverse(wi, z1, d, 0, p);
    ForwardTransforms(w, x, d, p);
    ForwardTransforms(w, y, d, p);
    CPointwiseEqv(xt, yt, p);
    EqvPointwise(xt, Ntt(w, x, d, 1), yt, Ntt(w, y, d, 1), p);
    InverseTransforms(wi, z1, d, p);
    EqvIntt(wi, z1, exact, d, 1, p);
    CScaleEqv(z2, ninv, p);
    EqvScale(ninv, ninv, z2, Intt(wi, exact, d, 1), p);
    ConvolutionTheorem(w, wi, x, y, d, ninv, p);
  }

  /** Entry i of the transformed array is the value of the old polynomial at a root of X^n = -1, given by the table. */
  ghost predicate Evaluates(after: Poly, before: Poly, w: seq<int>, p: int)
    requires p > 0
  {
    |after| == |before| && forall i :: 0 <= i < |after| ==> EvaluatesAt(after, before, w, i, p)
  }

  ghost predicate EvaluatesAt(after: Poly, before: Poly, w: seq<int>, i: nat, p: int)
    requires p > 0
  {
    && i < |after| == |before|
    && Cong(after[i], Value(before, LeafRoot(w, |before|, i)), p)
    && Cong(Power(LeafRoot(w, |before|, i), |before|), -1, p)
  }

  lemma ForwardEvaluates(w: seq<int>, wi: seq<int>, x: Poly, d: nat, p: int)
    requires p > 0 && |x| == Pow2(d) && Tables(w, wi, Pow2(d), p)
    ensures Evaluates(CForward(w, x, d, 1, p), x, w, p)
  {
    var r := CForward(w, x, d, 1, p);
    ForwardTransforms(w, x, d, p);
    EqvElim(r, Ntt(w, x, d, 1), p);
    forall i | 0 <= i < |r|
      ensures EvaluatesAt(r, x, w, i, p)
    {
      TransformEvaluates(w, wi, x, d, i, p);
      EvaluatesAtIntro(r, Ntt(w, x, d, 1), x, w, i, p);
    }
  }

  lemma EvaluatesAtIntro(r: Poly, t: Poly, x: Poly, w: seq<int>, i: nat, p: int)
    requires p > 0 && i < |r| == |t| == |x| && CongAll(r, t, p)
    requires Cong(t[i], Value(x, LeafRoot(w, |x|, i)), p) && Cong(Power(LeafRoot(w, |x|, i), |x|), -1, p)
    ensures EvaluatesAt(r, x, w, i, p)
  {
  }

  /**
   Both computations of the program: the schoolbook product into q, and into z the inverse transform of the
   pointwise product of the transforms, which stay in x and y. They agree modulo mod.
   */
  method NttDummy(x: array<int>, y: array<int>, z: array<int>, q: array<int>, n: nat,
                  w: seq<int>, wi: seq<int>, ninv: int, mod: int, ghost d: nat) returns (ghost fits: bool)
    requires mod > 0 && x.Length == y.Length == z.Length == q.Length == n == Pow2(d)
    requires x != y && z != x && z != y && q != x && q != y && q != z
    requires forall i :: 0 <= i < n ==> q[i] == 0
    requires Tables(w, wi, n, mod) && Cong(n * ninv, 1, mod)
    modifies x, y, z, q
    ensures q[..] == CSchoolbook(old(x[..]), old(y[..]), n, mod) && Eqv(q[..], Mul(-1, old(x[..]), old(y[..])), mod)
    ensures x[..] == CForward(w, old(x[..]), d, 1, mod) && Evaluates(x[..], old(x[..]), w, mod)
    ensures y[..] == CForward(w, old(y[..]), d, 1, mod) && Evaluates(y[..], old(y[..]), w, mod)
    ensures z[..] == CProduct(w, wi, old(x[..]), old(y[..]), d, ninv, mod)
    ensures forall i :: 0 <= i < n ==> Cong(z[i], q[i], mod)
    ensures InRoom(n, w, wi, ninv, mod) && Bounded(old(x[..]), mod) && Bounded(old(y[..]), mod) ==> fits
  {
    ghost var xs, ys := x[..], y[..];
    ghost var calm := InRoom(n, w, wi, ninv, mod) && Bounded(xs, mod) && Bounded(ys, mod);
    if calm {
      ForwardCalm(w, n, mod);
    }
    ghost var f1 := Schoolbook(x, y, q, n, mod);
    assert x[..] == xs && y[..] == ys;
    ghost var qs := q[..];
    ghost var f2 := Forward(x, w, n, mod, d);
    ghost var xt := x[..];
    assert y[..] == ys && q[..] == qs;
    ghost var f3 := Forward(y, w, n, mod, d);
    ghost var yt := y[..];
    assert x[..] == xt && q[..] == qs;
    ghost var f4 := PointwiseProduct(x, y, z, n, mod);
    ghost var f5 := Inverse(z, wi, n, mod, d);
    ghost var f6 := ScaleInPlace(z, n, ninv, mod);
    fits := f1 && f2 && f3 && f4 && f5 && f6;
    assert x[..] == xt && y[..] == yt && q[..] == qs;
    ForwardEvaluates(w, wi, xs, d, mod);
    ForwardEvaluates(w, wi, ys, d, mod);
    CProductEqv(w, wi, xs, ys, d, ninv, mod);
    SameEntries(z[..], q[..], Mul(-1, xs, ys), mod);
    forall i | 0 <= i < n
      ensures Cong(z[i], q[i], mod)
    {
      assert Cong(z[..][i], q[..][i], mod);
    }
  }

  lemma SameEntries(z: Poly, q: Poly, m: Poly, p: int)
    requires p > 0 && Eqv(z, m, p) && Eqv(q, m, p)
    ensures CongAll(z, q, p)
  {
    EqvElim(z, q, p);
  }

  /** Length, tables and modulus for which 32-bit arithmetic is enough. */
  ghost predicate InRoom(n: nat, w: seq<int>, wi: seq<int>, ninv: int, mod: int) {
    Small(n, mod) && Residues(w, mod) && Residues(wi, mod) && 0 <= ninv < mod
  }

  lemma ForwardCalm(w: seq<int>, n: nat, mod: int)
    requires mod > 0 && n > 0 && Small(n, mod) && Residues(w, mod)
    ensures Calm(w, mod, mod)
  {
    SquareRoom(n, mod);
    assert (2 * mod + mod) * mod == 3 * (mod * mod);
  }

  /** Those of the program are. */
  lemma DummyInRoom()
    ensures InRoom(8, [1, 4, 15, 9, 7, 11, 3, 12], [1, 13, 8, 2, 5, 14, 6, 10], 15, 17)
  {
  }

  /** The inverse loops undo the forward loops on one and the same array. */
  method ForwardAndBack(x: array<int>, n: nat, w: seq<int>, wi: seq<int>, ninv: int, mod: int, ghost d: nat)
    requires mod > 0 && x.Length == n == Pow2(d) && Tables(w, wi, n, mod) && Cong(n * ninv, 1, mod)
    modifies x
    ensures forall i {:trigger x[i]} :: 0 <= i < n ==> Cong(x[i], old(x[i]), mod)
  {
    ghost var x0 := x[..];
    ghost var f1 := Forward(x, w, n, mod, d);
    ghost var x1 := x[..];
    ghost var f2 := Inverse(x, wi, n, mod, d);
    ghost var x2 := x[..];
    ghost var f3 := ScaleInPlace(x, n, ninv, mod);
    CScaleEqv(x2, ninv, mod);
    EqvIntt(wi, x1, Ntt(w, x0, d, 1), d, 1, mod);
    EqvScale(ninv, ninv, x2, Intt(wi, Ntt(w, x0, d, 1), d, 1), mod);
    RoundTrip(w, wi, x0, d, ninv, mod);
    EqvElim(x[..], x0, mod);
    forall i {:trigger x[i]} | 0 <= i < n
      ensures Cong(x[i], old(x[i]), mod)
    {
      assert Cong(x[..][i], x0[i], mod);
    }
  }

  /** The tables written in the program, for n = 8 and modulus 17, satisfy the laws. */
  lemma DummyTables()
    ensures Tables([1, 4, 15, 9, 7, 11, 3, 12], [1, 13, 8, 2, 5, 14, 6, 10], 8, 17)
    ensures Cong(8 * 15, 1, 17)
  {
    var w, wi := [1, 4, 15, 9, 7, 11, 3, 12], [1, 13, 8, 2, 5, 14, 6, 10];
    DummySquares(w);
    DummyInverses(w, wi);
  }

  lemma DummySquares(w: seq<int>)
    requires w == [1, 4, 15, 9, 7, 11, 3, 12]
    ensures forall k {:trigger w[2 * k]} :: 1 <= k && 2 * k < 8 ==> Cong(w[2 * k] * w[2 * k], w[k], 17)
    ensures forall k {:trigger w[2 * k + 1]} :: 1 <= k && 2 * k + 1 < 8 ==> Cong(w[2 * k + 1] * w[2 * k + 1], -w[k], 17)
  {
    forall k {:trigger w[2 * k]} | 1 <= k && 2 * k < 8
      ensures Cong(w[2 * k] * w[2 * k], w[k], 17)
    {
      assert k == 1 || k == 2 || k == 3;
    }
    forall k {:trigger w[2 * k + 1]} | 1 <= k && 2 * k + 1 < 8
      ensures Cong(w[2 * k + 1] * w[2 * k + 1], -w[k], 17)
    {
      assert k == 1 || k == 2 || k == 3;
    }
  }

  lemma DummyInverses(w: seq<int>, wi: seq<int>)
    requires w == [1, 4, 15, 9, 7, 11, 3, 12] && wi == [1, 13, 8, 2, 5, 14, 6, 10]
    ensures forall k :: 1 <= k < 8 ==> Cong(w[k] * wi[k], 1, 17)
  {
    forall k | 1 <= k < 8
      ensures Cong(w[k] * wi[k], 1, 17)
    {
      if k == 1 || k == 2 || k == 3 {
      } else if k == 4 || k == 5 {
      } else {
        assert k == 6 || k == 7;
      }
    }
  }
}
