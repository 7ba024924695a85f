/**
 The number-theoretic transform as a recursion over the tree of factors of X^n + 1.
 The node k of the tree stands for the ring Z_p[X]/(X^(2t) - W[k]^2); its children 2k and
 2k+1 stand for Z_p[X]/(X^t - W[k]) and Z_p[X]/(X^t + W[k]). Values are exact integers
 and every statement is a congruence modulo p.
 */
module NttTree {
  import opened Arith
  import opened Poly

  function At(w: seq<int>, k: nat): int {
    if k < |w| then w[k] else 0
  }

  /** What the twiddle tables must satisfy; nothing is said about bit reversal. */
  ghost predicate Tables(w: seq<int>, wi: seq<int>, n: nat, p: int)
    requires p > 0
  {
    && |w| >= n && |wi| >= n
    && (n > 1 ==> Cong(w[1] * w[1], -1, p))
    && (forall k {:trigger w[2 * k]} :: 1 <= k && 2 * k < n ==> Cong(w[2 * k] * w[2 * k], w[k], p))
    && (forall k {:trigger w[2 * k + 1]} ::
          1 <= k && 2 * k + 1 < n ==> Cong(w[2 * k + 1] * w[2 * k + 1], -w[k], p))
    && (forall k :: 1 <= k < n ==> Cong(w[k] * wi[k], 1, p))
  }

  /** The first t entries; a function of its own so that index reasoning runs one way only. */
  function Low(x: Poly, t: nat): (r: Poly)
    requires t <= |x|
    ensures |r| == t && forall i {:trigger r[i]} :: 0 <= i < t ==> r[i] == x[i]
  {
    seq(t, i requires 0 <= i < t => x[i])
  }

  /** The entries from t on. */
  function High(x: Poly, t: nat): (r: Poly)
    requires t <= |x|
    ensures |r| == |x| - t && forall i {:trigger r[i]} :: 0 <= i < |x| - t ==> r[i] == x[i + t]
  {
    seq(|x| - t, i requires 0 <= i < |x| - t => x[i + t])
  }

  lemma LowHighConcat(a: Poly, b: Poly)
    ensures Low(a + b, |a|) == a && High(a + b, |a|) == b
  {
  }

  /** x modulo X^t - v, for x of length 2t. */
  function Fold(x: Poly, t: nat, v: int): (r: Poly)
    requires |x| == 2 * t
    ensures |r| == t && forall j {:trigger r[j]} :: 0 <= j < t ==> r[j] == x[j] + v * x[j + t]
  {
    seq(t, j requires 0 <= j < t => x[j] + v * x[j + t])
  }

  function Butterfly(x: Poly, t: nat, v: int): (r: Poly)
    requires |x| == 2 * t
    ensures |r| == |x|
  {
    Fold(x, t, v) + Fold(x, t, -v)
  }

  /** The inverse of one butterfly, up to a factor 2. */
  function InverseButterfly(lo: Poly, hi: Poly, v: int): (r: Poly)
    requires |lo| == |hi|
    ensures |r| == 2 * |lo|
  {
    Add(lo, hi) + Scale(v, Sub(lo, hi))
  }

  function Ntt(w: seq<int>, x: Poly, d: nat, k: nat): (r: Poly)
    requires |x| == Pow2(d)
    ensures |r| == |x|
    decreases d
  {
    if d == 0 then x else
      var t, v := Pow2(d - 1), At(w, k);
      Ntt(w, Fold(x, t, v), d - 1, 2 * k) + Ntt(w, Fold(x, t, -v), d - 1, 2 * k + 1)
  }

  function Intt(wi: seq<int>, z: Poly, d: nat, k: nat): (r: Poly)
    requires |z| == Pow2(d)
    ensures |r| == |z|
    decreases d
  {
    if d == 0 then z else
      var t := Pow2(d - 1);
      InverseButterfly(Intt(wi, Low(z, t), d - 1, 2 * k), Intt(wi, High(z, t), d - 1, 2 * k + 1), At(wi, k))
  }

  function Pointwise(x: Poly, y: Poly): (r: Poly)
    requires |x| == |y|
    ensures |r| == |x| && forall i {:trigger r[i]} :: 0 <= i < |x| ==> r[i] == x[i] * y[i]
  {
    seq(|x|, i requires 0 <= i < |x| => x[i] * y[i])
  }

  // ---------- congruence ----------

  lemma EqvConcat(a: Poly, a': Poly, b: Poly, b': Poly, p: int)
    requires p > 0 && Eqv(a, a', p) && Eqv(b, b', p)
    ensures Eqv(a + b, a' + b', p)
  {
    assert Reduce(a + b, p) == Reduce(a, p) + Reduce(b, p);
    assert Reduce(a' + b', p) == Reduce(a', p) + Reduce(b', p);
  }

  lemma EqvHalves(y: Poly, y': Poly, t: nat, p: int)
    requires p > 0 && |y| == |y'| && t <= |y| && Eqv(y, y', p)
    ensures Eqv(Low(y, t), Low(y', t), p) && Eqv(High(y, t), High(y', t), p)
  {
    EqvElim(y, y', p);
    forall i | 0 <= i < |y| - t
      ensures Cong(High(y, t)[i], High(y', t)[i], p)
    {
      assert Cong(y[i + t], y'[i + t], p);
    }
    EqvIntro(Low(y, t), Low(y', t), p);
    EqvIntro(High(y, t), High(y', t), p);
  }

  lemma FoldIsAdd(x: Poly, t: nat, v: int)
    requires |x| == 2 * t
    ensures Fold(x, t, v) == Add(Low(x, t), Scale(v, High(x, t)))
  {
  }

  lemma EqvFold(x: Poly, x': Poly, t: nat, v: int, v': int, p: int)
    requires p > 0 && |x| == |x'| == 2 * t && Eqv(x, x', p) && Cong(v, v', p)
    ensures Eqv(Fold(x, t, v), Fold(x', t, v'), p)
  {
    EqvHalves(x, x', t, p);
    EqvScale(v, v', High(x, t), High(x', t), p);
    EqvAdd(Low(x, t), Low(x', t), Scale(v, High(x, t)), Scale(v', High(x', t)), p);
    FoldIsAdd(x, t, v);
    FoldIsAdd(x', t, v');
  }

  lemma EqvInverseButterfly(lo: Poly, lo': Poly, hi: Poly, hi': Poly, v: int, p: int)
    requires p > 0 && |lo| == |hi| && |lo'| == |hi'| && Eqv(lo, lo', p) && Eqv(hi, hi', p)
    ensures Eqv(InverseButterfly(lo, hi, v), InverseButterfly(lo', hi', v), p)
  {
    EqvAdd(lo, lo', hi, hi', p);
    EqvSub(lo, lo', hi, hi', p);
    EqvScale(v, v, Sub(lo, hi), Sub(lo', hi'), p);
    EqvConcat(Add(lo, hi), Add(lo', hi'), Scale(v, Sub(lo, hi)), Scale(v, Sub(lo', hi')), p);
  }

  lemma {:induction false} EqvNtt(w: seq<int>, x: Poly, x': Poly, d: nat, k: nat, p: int)
    requires p > 0 && |x| == |x'| == Pow2(d) && Eqv(x, x', p)
    ensures Eqv(Ntt(w, x, d, k), Ntt(w, x', d, k), p)
    decreases d
  {
    if d > 0 {
      var t, v := Pow2(d - 1), At(w, k);
      EqvFold(x, x', t, v, v, p);
      EqvFold(x, x', t, -v, -v, p);
      EqvNtt(w, Fold(x, t, v), Fold(x', t, v), d - 1, 2 * k, p);
      EqvNtt(w, Fold(x, t, -v), Fold(x', t, -v), d - 1, 2 * k + 1, p);
      EqvConcat(Ntt(w, Fold(x, t, v), d - 1, 2 * k), Ntt(w, Fold(x', t, v), d - 1, 2 * k),
                Ntt(w, Fold(x, t, -v), d - 1, 2 * k + 1), Ntt(w, Fold(x', t, -v), d - 1, 2 * k + 1), p);
    }
  }

  lemma {:induction false} EqvIntt(wi: seq<int>, z: Poly, z': Poly, d: nat, k: nat, p: int)
    requires p > 0 && |z| == |z'| == Pow2(d) && Eqv(z, z', p)
    ensures Eqv(Intt(wi, z, d, k), Intt(wi, z', d, k), p)
    decreases d
  {
    if d > 0 {
      var t := Pow2(d - 1);
      EqvHalves(z, z', t, p);
      EqvIntt(wi, Low(z, t), Low(z', t), d - 1, 2 * k, p);
      EqvIntt(wi, High(z, t), High(z', t), d - 1, 2 * k + 1, p);
      EqvInverseButterfly(Intt(wi, Low(z, t), d - 1, 2 * k), Intt(wi, Low(z', t), d - 1, 2 * k),
                          Intt(wi, High(z, t), d - 1, 2 * k + 1), Intt(wi, High(z', t), d - 1, 2 * k + 1), At(wi, k),
                          p);
    }
  }

  // ---------- one step down the tree is a ring homomorphism ----------

  lemma FoldAdd(x: Poly, y: Poly, t: nat, v: int)
    requires |x| == |y| == 2 * t
    ensures Fold(Add(x, y), t, v) == Add(Fold(x, t, v), Fold(y, t, v))
  {
    forall j | 0 <= j < t
      ensures Fold(Add(x, y), t, v)[j] == Add(Fold(x, t, v), Fold(y, t, v))[j]
    {
      assert v * (x[j + t] + y[j + t]) == v * x[j + t] + v * y[j + t];
    }
  }

  lemma FoldScale(k: int, x: Poly, t: nat, v: int)
    requires |x| == 2 * t
    ensures Fold(Scale(k, x), t, v) == Scale(k, Fold(x, t, v))
  {
    forall j | 0 <= j < t
      ensures Fold(Scale(k, x), t, v)[j] == Scale(k, Fold(x, t, v))[j]
    {
      Distribute(k, x[j], v, x[j + t]);
    }
  }

  lemma Distribute(k: int, a: int, v: int, b: int)
    ensures k * (a + v * b) == k * a + v * (k * b)
  {
    assert k * (v * b) == v * (k * b);
  }

  lemma FoldShift(x: Poly, t: nat, v: int)
    requires |x| == 2 * t
    ensures Fold(Shift(v * v, x), t, v) == Shift(v, Fold(x, t, v))
  {
    if t > 0 {
      var l, r := Fold(Shift(v * v, x), t, v), Shift(v, Fold(x, t, v));
      assert l[0] == (v * v) * x[2 * t - 1] + v * x[t - 1];
      assert r[0] == v * (x[t - 1] + v * x[2 * t - 1]);
      assert v * (x[t - 1] + v * x[2 * t - 1]) == v * x[t - 1] + v * (v * x[2 * t - 1]);
      assert v * (v * x[2 * t - 1]) == (v * v) * x[2 * t - 1];
      forall j | 0 < j < t
        ensures l[j] == r[j]
      {
        assert Shift(v * v, x)[j] == x[j - 1] && Shift(v * v, x)[j + t] == x[j + t - 1];
      }
    }
  }

  lemma {:induction false} FoldMulRight(a: Poly, b: Poly, t: nat, v: int)
    requires |b| == 2 * t
    ensures Fold(Mul(v * v, a, b), t, v) == Mul(v, a, Fold(b, t, v))
    decreases |a|
  {
    var c := v * v;
    if a == [] {
      assert Fold(Zero(2 * t), t, v) == Zero(t);
    } else {
      FoldAdd(Scale(a[0], b), Mul(c, a[1..], Shift(c, b)), t, v);
      FoldScale(a[0], b, t, v);
      FoldMulRight(a[1..], Shift(c, b), t, v);
      FoldShift(b, t, v);
    }
  }

  lemma {:induction false} FoldMulLeft(a: Poly, f: Poly, t: nat, v: int)
    requires |a| == 2 * t && |f| == t
    ensures Mul(v, a, f) == Mul(v, Fold(a, t, v), f)
  {
    var lo, hi := a[..t], a[t..];
    calc {
      Mul(v, a, f);
      { assert a == lo + hi; MulAppend(v, lo, hi, f); ShiftNFull(v, f); }
      Add(Mul(v, lo, f), Mul(v, hi, Scale(v, f)));
      { MulScaleR(v, hi, v, f); MulScaleL(v, v, hi, f); }
      Add(Mul(v, lo, f), Mul(v, Scale(v, hi), f));
      { MulAddL(v, lo, Scale(v, hi), f); }
      Mul(v, Add(lo, Scale(v, hi)), f);
      { assert Add(lo, Scale(v, hi)) == Fold(a, t, v); }
      Mul(v, Fold(a, t, v), f);
    }
  }

  /** Reducing modulo X^t - v commutes with multiplication modulo X^(2t) - c when v^2 = c. */
  lemma FoldMul(m: Poly, c: int, a: Poly, b: Poly, t: nat, v: int, p: int)
    requires p > 0 && |m| == |a| == |b| == 2 * t && Cong(c, v * v, p) && Eqv(m, Mul(c, a, b), p)
    ensures Eqv(Fold(m, t, v), Mul(v, Fold(a, t, v), Fold(b, t, v)), p)
  {
    EqvMul(c, v * v, a, a, b, b, p);
    EqvFold(m, Mul(v * v, a, b), t, v, v, p);
    FoldMulRight(a, b, t, v);
    FoldMulLeft(a, Fold(b, t, v), t, v);
  }

  // ---------- the transform is multiplicative ----------

  /**
   The subtree of node k splits Z_p[X]/(X^(2^d) - c) down to linear factors: W[k] is a square
   root of c with inverse WI[k], and the two children split the rings of W[k] and -W[k].
   */
  ghost predicate Splits(w: seq<int>, wi: seq<int>, c: int, d: nat, k: nat, p: int)
    requires p > 0
    decreases d
  {
    d > 0 ==>
      && Cong(c, At(w, k) * At(w, k), p)
      && Cong(At(w, k) * At(wi, k), 1, p)
      && Splits(w, wi, At(w, k), d - 1, 2 * k, p)
      && Splits(w, wi, -At(w, k), d - 1, 2 * k + 1, p)
  }

  lemma {:induction false} TablesSplit(w: seq<int>, wi: seq<int>, c: int, d: nat, k: nat, n: nat, p: int)
    requires p > 0 && Tables(w, wi, n, p)
    requires k >= 1 && (k + 1) * Pow2(d) <= 2 * n
    requires k < n ==> Cong(c, w[k] * w[k], p)
    ensures Splits(w, wi, c, d, k, p)
    decreases d
  {
    if d > 0 {
      var t := Pow2(d - 1);
      BelowNode(k, t, n);
      if 2 * k < n {
        assert Cong(w[2 * k] * w[2 * k], w[k], p);
      }
      if 2 * k + 1 < n {
        assert Cong(w[2 * k + 1] * w[2 * k + 1], -w[k], p);
      }
      TablesSplit(w, wi, w[k], d - 1, 2 * k, n, p);
      TablesSplit(w, wi, -w[k], d - 1, 2 * k + 1, n, p);
    }
  }

  lemma BelowNode(k: nat, t: nat, n: nat)
    requires t >= 1 && (k + 1) * (2 * t) <= 2 * n
    ensures k < n && (2 * k + 1) * t <= 2 * n && (2 * k + 1 + 1) * t <= 2 * n
  {
    assert (k + 1) * (2 * t) == (2 * k + 2) * t;
    MulLe(2 * k + 1, 2 * k + 2, t);
    MulLe(1, t, 2 * k + 2);
  }

  lemma RootSplits(w: seq<int>, wi: seq<int>, d: nat, p: int)
    requires p > 0 && Tables(w, wi, Pow2(d), p)
    ensures Splits(w, wi, -1, d, 1, p)
  {
    TablesSplit(w, wi, -1, d, 1, Pow2(d), p);
  }

  ghost predicate Multiplied(w: seq<int>, m: Poly, a: Poly, b: Poly, d: nat, k: nat, p: int)
    requires p > 0 && |m| == |a| == |b| == Pow2(d)
  {
    Eqv(Ntt(w, m, d, k), Pointwise(Ntt(w, a, d, k), Ntt(w, b, d, k)), p)
  }

  /** If m is a * b in the ring of node k, its transform is the pointwise product of transforms. */
  lemma {:induction false} NttMul(w: seq<int>, wi: seq<int>, c: int, m: Poly, a: Poly, b: Poly, d: nat, k: nat, p: int)
    requires p > 0 && Splits(w, wi, c, d, k, p)
    requires |m| == |a| == |b| == Pow2(d)
    requires Eqv(m, Mul(c, a, b), p)
    ensures Multiplied(w, m, a, b, d, k, p)
    decreases d
  {
    if d == 0 {
      NttMulLeaf(w, c, m, a, b, k, p);
    } else {
      var t, v := Pow2(d - 1), At(w, k);
      BothFolds(m, c, a, b, t, v, p);
      NttMul(w, wi, v, Fold(m, t, v), Fold(a, t, v), Fold(b, t, v), d - 1, 2 * k, p);
      NttMul(w, wi, -v, Fold(m, t, -v), Fold(a, t, -v), Fold(b, t, -v), d - 1, 2 * k + 1, p);
      NttJoin(w, m, a, b, d, k, p);
    }
  }

  lemma BothFolds(m: Poly, c: int, a: Poly, b: Poly, t: nat, v: int, p: int)
    requires p > 0 && t > 0 && |m| == |a| == |b| == 2 * t && Cong(v * v, c, p) && Eqv(m, Mul(c, a, b), p)
    ensures Eqv(Fold(m, t, v), Mul(v, Fold(a, t, v), Fold(b, t, v)), p)
    ensures Eqv(Fold(m, t, -v), Mul(-v, Fold(a, t, -v), Fold(b, t, -v)), p)
  {
    FoldMul(m, c, a, b, t, v, p);
    assert (-v) * (-v) == v * v;
    FoldMul(m, c, a, b, t, -v, p);
  }

  lemma NttMulLeaf(w: seq<int>, c: int, m: Poly, a: Poly, b: Poly, k: nat, p: int)
    requires p > 0 && |m| == |a| == |b| == 1 && Eqv(m, Mul(c, a, b), p)
    ensures Multiplied(w, m, a, b, 0, k, p)
  {
    MulSingle(c, a[0], b);
    assert a == [a[0]];
  }

  lemma NttJoin(w: seq<int>, m: Poly, a: Poly, b: Poly, d: nat, k: nat, p: int)
    requires p > 0 && d > 0 && |m| == |a| == |b| == Pow2(d)
    requires var t, v := Pow2(d - 1), At(w, k);
             && Multiplied(w, Fold(m, t, v), Fold(a, t, v), Fold(b, t, v), d - 1, 2 * k, p)
             && Multiplied(w, Fold(m, t, -v), Fold(a, t, -v), Fold(b, t, -v), d - 1, 2 * k + 1, p)
    ensures Multiplied(w, m, a, b, d, k, p)
  {
    var t, v := Pow2(d - 1), At(w, k);
    PointwiseConcat(
      Ntt(w, Fold(m, t, v), d - 1, 2 * k), Ntt(w, Fold(m, t, -v), d - 1, 2 * k + 1),
      Ntt(w, Fold(a, t, v), d - 1, 2 * k), Ntt(w, Fold(a, t, -v), d - 1, 2 * k + 1),
      Ntt(w, Fold(b, t, v), d - 1, 2 * k), Ntt(w, Fold(b, t, -v), d - 1, 2 * k + 1), p);
  }

  lemma PointwiseConcat(m0: Poly, m1: Poly, a0: Poly, a1: Poly, b0: Poly, b1: Poly, p: int)
    requires p > 0 && |a0| == |b0| && |a1| == |b1|
    requires Eqv(m0, Pointwise(a0, b0), p) && Eqv(m1, Pointwise(a1, b1), p)
    ensures Eqv(m0 + m1, Pointwise(a0 + a1, b0 + b1), p)
  {
    assert Pointwise(a0 + a1, b0 + b1) == Pointwise(a0, b0) + Pointwise(a1, b1);
    EqvConcat(m0, Pointwise(a0, b0), m1, Pointwise(a1, b1), p);
  }

  // ---------- the inverse transform undoes the transform up to the factor n ----------

  lemma ButterflyInverts(x: Poly, t: nat, s: int, v: int, u: int, p: int)
    requires p > 0 && |x| == 2 * t && Cong(v * u, 1, p)
    ensures Eqv(InverseButterfly(Scale(s, Fold(x, t, v)), Scale(s, Fold(x, t, -v)), u), Scale(2 * s, x), p)
  {
    var lo, hi := Scale(s, Fold(x, t, v)), Scale(s, Fold(x, t, -v));
    forall j | 0 <= j < |x|
      ensures Cong(InverseButterfly(lo, hi, u)[j], Scale(2 * s, x)[j], p)
    {
      var i := if j < t then j else j - t;
      assert lo[i] == s * Fold(x, t, v)[i] && hi[i] == s * Fold(x, t, -v)[i];
      UndoButterfly(x[i], x[i + t], s, v, u, lo[i], hi[i], p);
    }
    EqvIntro(InverseButterfly(lo, hi, u), Scale(2 * s, x), p);
  }

  lemma UndoButterfly(lo: int, hi: int, s: int, v: int, u: int, y0: int, y1: int, p: int)
    requires p > 0 && Cong(v * u, 1, p)
    requires y0 == s * (lo + v * hi) && y1 == s * (lo + (-v) * hi)
    ensures Cong(y0 + y1, 2 * s * lo, p) && Cong(u * (y0 - y1), 2 * s * hi, p)
  {
    UndoButterflyExact(lo, hi, s, v, u, y0, y1);
    CongMulL(2 * s * hi, v * u, 1, p);
  }

  lemma UndoButterflyExact(lo: int, hi: int, s: int, v: int, u: int, y0: int, y1: int)
    requires y0 == s * (lo + v * hi) && y1 == s * (lo + (-v) * hi)
    ensures y0 + y1 == 2 * s * lo && u * (y0 - y1) == 2 * s * hi * (v * u)
  {
    var z := s * (v * hi);
    Distribute(s, lo, v, hi);
    Distribute(s, lo, -v, hi);
    assert y0 == s * lo + z && y1 == s * lo - z;
    calc {
      u * (2 * z);
      (u * 2) * (s * (v * hi));
      { assert s * (v * hi) == s * hi * v; }
      (u * 2) * (s * hi * v);
      2 * s * hi * (v * u);
    }
  }

  lemma {:induction false} InttNtt(w: seq<int>, wi: seq<int>, c: int, x: Poly, d: nat, k: nat, p: int)
    requires p > 0 && Splits(w, wi, c, d, k, p) && |x| == Pow2(d)
    ensures Eqv(Intt(wi, Ntt(w, x, d, k), d, k), Scale(Pow2(d), x), p)
    decreases d
  {
    if d > 0 {
      var t, v := Pow2(d - 1), At(w, k);
      InttNtt(w, wi, v, Fold(x, t, v), d - 1, 2 * k, p);
      InttNtt(w, wi, -v, Fold(x, t, -v), d - 1, 2 * k + 1, p);
      var z0, z1 := Ntt(w, Fold(x, t, v), d - 1, 2 * k), Ntt(w, Fold(x, t, -v), d - 1, 2 * k + 1);
      InttJoin(wi, z0, z1, x, d, k, v, p);
    }
  }

  lemma InttJoin(wi: seq<int>, z0: Poly, z1: Poly, x: Poly, d: nat, k: nat, v: int, p: int)
    requires p > 0 && d > 0 && |x| == 2 * |z0| && |z0| == |z1| == Pow2(d - 1) && Cong(v * At(wi, k), 1, p)
    requires Eqv(Intt(wi, z0, d - 1, 2 * k), Scale(|z0|, Fold(x, |z0|, v)), p)
    requires Eqv(Intt(wi, z1, d - 1, 2 * k + 1), Scale(|z0|, Fold(x, |z0|, -v)), p)
    ensures Eqv(Intt(wi, z0 + z1, d, k), Scale(2 * |z0|, x), p)
  {
    InttConcat(wi, z0, z1, d, k);
    JoinHalves(Intt(wi, z0, d - 1, 2 * k), Intt(wi, z1, d - 1, 2 * k + 1), x, |z0|, v, At(wi, k), p);
  }

  lemma InttConcat(wi: seq<int>, z0: Poly, z1: Poly, d: nat, k: nat)
    requires d > 0 && |z0| == |z1| == Pow2(d - 1)
    ensures Intt(wi, z0 + z1, d, k)
         == InverseButterfly(Intt(wi, z0, d - 1, 2 * k), Intt(wi, z1, d - 1, 2 * k + 1), At(wi, k))
  {
    LowHighConcat(z0, z1);
  }

  lemma JoinHalves(u0: Poly, u1: Poly, x: Poly, t: nat, v: int, vi: int, p: int)
    requires p > 0 && |x| == 2 * t && |u0| == |u1| && Cong(v * vi, 1, p)
    requires Eqv(u0, Scale(t, Fold(x, t, v)), p) && Eqv(u1, Scale(t, Fold(x, t, -v)), p)
    ensures Eqv(InverseButterfly(u0, u1, vi), Scale(2 * t, x), p)
  {
    EqvInverseButterfly(u0, Scale(t, Fold(x, t, v)), u1, Scale(t, Fold(x, t, -v)), vi, p);
    ButterflyInverts(x, t, t, v, vi, p);
  }

  lemma ScaleBack(x: Poly, n: int, ninv: int, p: int)
    requires p > 0 && Cong(n * ninv, 1, p)
    ensures Eqv(Scale(ninv, Scale(n, x)), x, p)
  {
    forall i | 0 <= i < |x|
      ensures Cong(Scale(ninv, Scale(n, x))[i], x[i], p)
    {
      CongMulL(x[i], n * ninv, 1, p);
      assert ninv * (n * x[i]) == x[i] * (n * ninv);
    }
    EqvIntro(Scale(ninv, Scale(n, x)), x, p);
  }

  /** Inverse undoes forward, for every input and every size 2^d. */
  lemma RoundTrip(w: seq<int>, wi: seq<int>, x: Poly, d: nat, ninv: int, p: int)
    requires p > 0 && |x| == Pow2(d) && Tables(w, wi, Pow2(d), p) && Cong(Pow2(d) * ninv, 1, p)
    ensures Eqv(Scale(ninv, Intt(wi, Ntt(w, x, d, 1), d, 1)), x, p)
  {
    var n := Pow2(d);
    RootSplits(w, wi, d, p);
    InttNtt(w, wi, -1, x, d, 1, p);
    EqvScale(ninv, ninv, Intt(wi, Ntt(w, x, d, 1), d, 1), Scale(n, x), p);
    ScaleBack(x, n, ninv, p);
  }

  /** The transform, a pointwise product and the inverse compute the negacyclic product. */
  lemma ConvolutionTheorem(w: seq<int>, wi: seq<int>, x: Poly, y: Poly, d: nat, ninv: int, p: int)
    requires p > 0 && |x| == |y| == Pow2(d) && Tables(w, wi, Pow2(d), p) && Cong(Pow2(d) * ninv, 1, p)
    ensures Eqv(Scale(ninv, Intt(wi, Pointwise(Ntt(w, x, d, 1), Ntt(w, y, d, 1)), d, 1)), Mul(-1, x, y), p)
  {
    var m := Mul(-1, x, y);
    var z := Pointwise(Ntt(w, x, d, 1), Ntt(w, y, d, 1));
    RootSplits(w, wi, d, p);
    NttMul(w, wi, -1, m, x, y, d, 1, p);
    EqvIntt(wi, z, Ntt(w, m, d, 1), d, 1, p);
    EqvScale(ninv, ninv, Intt(wi, z, d, 1), Intt(wi, Ntt(w, m, d, 1), d, 1), p);
    RoundTrip(w, wi, m, d, ninv, p);
  }

  // ---------- the transform evaluates the polynomial ----------

  /** The value of x at r. */
  function Value(x: Poly, r: int): int {
    if x == [] then 0 else x[0] + r * Value(x[1..], r)
  }

  function Power(r: int, e: nat): int {
    if e == 0 then 1 else r * Power(r, e - 1)
  }

  lemma {:induction false} PowerAdd(r: int, e: nat, f: nat)
    ensures Power(r, e + f) == Power(r, e) * Power(r, f)
  {
    if e > 0 {
      PowerAdd(r, e - 1, f);
      TimesTimes(r, Power(r, e - 1), Power(r, f));
    }
  }

  lemma TimesTimes(x: int, y: int, z: int)
    ensures x * (y * z) == (x * y) * z
  {
  }

  lemma {:induction false} ValueConcat(a: Poly, b: Poly, r: int)
    ensures Value(a + b, r) == Value(a, r) + Power(r, |a|) * Value(b, r)
    decreases |a|
  {
    if a == [] {
      assert a + b == b;
    } else {
      assert (a + b)[1..] == a[1..] + b;
      ValueConcat(a[1..], b, r);
      NextTerm(a[0], r, Value(a[1..], r), Power(r, |a| - 1), Value(b, r));
    }
  }

  lemma NextTerm(x: int, r: int, value: int, power: int, rest: int)
    ensures x + r * (value + power * rest) == (x + r * value) + (r * power) * rest
  {
    assert r * (value + power * rest) == r * value + r * (power * rest);
    TimesTimes(r, power, rest);
  }

  lemma {:induction false} ValueAdd(a: Poly, b: Poly, r: int)
    requires |a| == |b|
    ensures Value(Add(a, b), r) == Value(a, r) + Value(b, r)
    decreases |a|
  {
    if a != [] {
      assert Add(a, b)[1..] == Add(a[1..], b[1..]);
      ValueAdd(a[1..], b[1..], r);
      assert r * (Value(a[1..], r) + Value(b[1..], r)) == r * Value(a[1..], r) + r * Value(b[1..], r);
    }
  }

  lemma {:induction false} ValueScale(k: int, a: Poly, r: int)
    ensures Value(Scale(k, a), r) == k * Value(a, r)
    decreases |a|
  {
    if a != [] {
      assert Scale(k, a)[1..] == Scale(k, a[1..]);
      ValueScale(k, a[1..], r);
      Distribute(k, a[0], r, Value(a[1..], r));
    }
  }

  /** Folding with v keeps the value at every r whose power t is v. */
  lemma FoldKeepsValue(x: Poly, t: nat, v: int, r: int, p: int)
    requires p > 0 && |x| == 2 * t && Cong(Power(r, t), v, p)
    ensures Cong(Value(Fold(x, t, v), r), Value(x, r), p)
  {
    var lo, hi := Low(x, t), High(x, t);
    FoldIsAdd(x, t, v);
    ValueAdd(lo, Scale(v, hi), r);
    ValueScale(v, hi, r);
    assert x == lo + hi;
    ValueConcat(lo, hi, r);
    CongMul(v, Power(r, t), Value(hi, r), Value(hi, r), p);
    CongAdd(Value(lo, r), Value(lo, r), v * Value(hi, r), Power(r, t) * Value(hi, r), p);
  }

  /** The root of X^(2^d) = c that leaf i below node k stands for. */
  function Root(w: seq<int>, c: int, d: nat, k: nat, i: nat): int
    requires i < Pow2(d)
    decreases d
  {
    if d == 0 then c
    else
      var t, v := Pow2(d - 1), At(w, k);
      if i < t then Root(w, v, d - 1, 2 * k, i) else Root(w, -v, d - 1, 2 * k + 1, i - t)
  }

  lemma {:induction false} RootPower(w: seq<int>, wi: seq<int>, c: int, d: nat, k: nat, i: nat, p: int)
    requires p > 0 && Splits(w, wi, c, d, k, p) && i < Pow2(d)
    ensures Cong(Power(Root(w, c, d, k, i), Pow2(d)), c, p)
    decreases d
  {
    if d == 0 {
      assert Power(c, 1) == c * Power(c, 0);
    } else {
      var t, v := Pow2(d - 1), At(w, k);
      if i < t {
        RootPower(w, wi, v, d - 1, 2 * k, i, p);
        SquaredPower(Root(w, v, d - 1, 2 * k, i), t, v, c, p);
      } else {
        RootPower(w, wi, -v, d - 1, 2 * k + 1, i - t, p);
        SameSquare(c, v, p);
        SquaredPower(Root(w, -v, d - 1, 2 * k + 1, i - t), t, -v, c, p);
      }
    }
  }

  lemma SameSquare(c: int, v: int, p: int)
    requires p > 0 && Cong(c, v * v, p)
    ensures Cong(c, (-v) * (-v), p)
  {
    assert (-v) * (-v) == v * v;
  }

  lemma SquaredPower(r: int, t: nat, v: int, c: int, p: int)
    requires p > 0 && Cong(Power(r, t), v, p) && Cong(c, v * v, p)
    ensures Cong(Power(r, 2 * t), c, p)
  {
    PowerAdd(r, t, t);
    CongMul(Power(r, t), v, Power(r, t), v, p);
  }

  /** Entry i of the transform at any node is the value at the root of leaf i. */
  lemma {:induction false} NttIsValue(w: seq<int>, wi: seq<int>, c: int, x: Poly, d: nat, k: nat, i: nat, p: int)
    requires p > 0 && Splits(w, wi, c, d, k, p) && |x| == Pow2(d) && i < Pow2(d)
    ensures Cong(Ntt(w, x, d, k)[i], Value(x, Root(w, c, d, k, i)), p)
    decreases d
  {
    if d == 0 {
      assert x[1..] == [];
    } else {
      var t, v := Pow2(d - 1), At(w, k);
      if i < t {
        NttIsValue(w, wi, v, Fold(x, t, v), d - 1, 2 * k, i, p);
        RootPower(w, wi, v, d - 1, 2 * k, i, p);
        FoldKeepsValue(x, t, v, Root(w, c, d, k, i), p);
      } else {
        NttIsValue(w, wi, -v, Fold(x, t, -v), d - 1, 2 * k + 1, i - t, p);
        RootPower(w, wi, -v, d - 1, 2 * k + 1, i - t, p);
        FoldKeepsValue(x, t, -v, Root(w, c, d, k, i), p);
      }
    }
  }

  /** The root of X^n = -1 for entry i, read off the table: neighbours share an entry and differ in sign. */
  function LeafRoot(w: seq<int>, n: nat, i: nat): int {
    if n == 1 then -1 else if i % 2 == 0 then At(w, (n + i) / 2) else -At(w, (n + i) / 2)
  }

  lemma {:induction false} RootIs(w: seq<int>, c: int, d: nat, k: nat, i: nat, leaf: nat)
    requires d >= 1 && i < Pow2(d) && leaf == k * Pow2(d) + i
    ensures Root(w, c, d, k, i) == if leaf % 2 == 0 then At(w, leaf / 2) else -At(w, leaf / 2)
    decreases d
  {
    var t, v := Pow2(d - 1), At(w, k);
    assert k * Pow2(d) == (2 * k) * t && (2 * k + 1) * t == (2 * k) * t + t;
    if d == 1 {
      LeafParity(k, i, leaf);
    } else if i < t {
      RootIs(w, v, d - 1, 2 * k, i, leaf);
    } else {
      RootIs(w, -v, d - 1, 2 * k + 1, i - t, leaf);
    }
  }

  lemma LeafParity(k: nat, i: nat, leaf: nat)
    requires i < 2 && leaf == k * 2 + i
    ensures leaf % 2 == i && leaf / 2 == k
  {
  }

  /** For every length 2^d, entry i of the transform is the value at the root of X^n = -1 that the table gives for i. */
  lemma TransformEvaluates(w: seq<int>, wi: seq<int>, x: Poly, d: nat, i: nat, p: int)
    requires p > 0 && |x| == Pow2(d) && i < |x| && Tables(w, wi, Pow2(d), p)
    ensures Cong(Ntt(w, x, d, 1)[i], Value(x, LeafRoot(w, |x|, i)), p)
    ensures Cong(Power(LeafRoot(w, |x|, i), |x|), -1, p)
  {
    RootSplits(w, wi, d, p);
    NttIsValue(w, wi, -1, x, d, 1, i, p);
    RootPower(w, wi, -1, d, 1, i, p);
    LeafRootIs(w, d, i);
  }

  lemma LeafRootIs(w: seq<int>, d: nat, i: nat)
    requires i < Pow2(d)
    ensures Root(w, -1, d, 1, i) == LeafRoot(w, Pow2(d), i)
  {
    if d > 0 {
      RootIs(w, -1, d, 1, i, Pow2(d) + i);
      SumParity(Pow2(d - 1), i);
    }
  }

  lemma SumParity(h: nat, i: nat)
    requires h >= 1
    ensures (2 * h + i) % 2 == i % 2 && 2 * h != 1
  {
  }
}
