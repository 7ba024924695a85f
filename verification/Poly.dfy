/**
 Exact arithmetic in the ring Z[X]/(X^n - c). A polynomial of degree below n is the
 sequence of its n integer coefficients. With c = -1 this is the negacyclic ring of the
 accumulator; the number-theoretic transform splits one such ring into two smaller ones.
 Everything is derived from one operation, multiplication by X.
 */
module Poly {
  import opened Arith

  type Poly = seq<int>

  function Zero(n: nat): (r: seq<nat>)
    ensures |r| == n && forall i {:trigger r[i]} :: 0 <= i < n ==> r[i] == 0
  {
    seq(n, i => 0)
  }

  function Add(p: Poly, q: Poly): (r: Poly)
    requires |p| == |q|
    ensures |r| == |p| && forall i {:trigger r[i]} :: 0 <= i < |p| ==> r[i] == p[i] + q[i]
  {
    seq(|p|, i requires 0 <= i < |p| => p[i] + q[i])
  }

  function Sub(p: Poly, q: Poly): (r: Poly)
    requires |p| == |q|
    ensures |r| == |p| && forall i {:trigger r[i]} :: 0 <= i < |p| ==> r[i] == p[i] - q[i]
  {
    seq(|p|, i requires 0 <= i < |p| => p[i] - q[i])
  }

  function Scale(k: int, p: Poly): (r: Poly)
    ensures |r| == |p| && forall i {:trigger r[i]} :: 0 <= i < |p| ==> r[i] == k * p[i]
  {
    seq(|p|, i requires 0 <= i < |p| => k * p[i])
  }

  /** X * p, where X^n is replaced by c. */
  function Shift(c: int, p: Poly): (r: Poly)
    ensures |r| == |p|
    ensures forall i {:trigger r[i]} :: 0 <= i < |p| ==> r[i] == if i == 0 then c * p[|p| - 1] else p[i - 1]
  {
    seq(|p|, i requires 0 <= i < |p| => if i == 0 then c * p[|p| - 1] else p[i - 1])
  }

  /** X^m * p */
  function ShiftN(c: int, p: Poly, m: nat): (r: Poly)
    ensures |r| == |p|
  {
    if m == 0 then p else Shift(c, ShiftN(c, p, m - 1))
  }

  /** The product a * b: b times the constant coefficient of a, plus the rest of a times X * b. */
  function Mul(c: int, a: Poly, b: Poly): (r: Poly)
    ensures |r| == |b|
    decreases |a|
  {
    if a == [] then Zero(|b|) else Add(Scale(a[0], b), Mul(c, a[1..], Shift(c, b)))
  }

  function One(n: nat): (r: Poly)
    ensures |r| == n && forall i {:trigger r[i]} :: 0 <= i < n ==> r[i] == if i == 0 then 1 else 0
  {
    seq(n, i => if i == 0 then 1 else 0)
  }

  // ---------- the module laws ----------

  lemma ScaleAdd(k: int, p: Poly, q: Poly)
    requires |p| == |q|
    ensures Scale(k, Add(p, q)) == Add(Scale(k, p), Scale(k, q))
  {
    forall i | 0 <= i < |p|
      ensures Scale(k, Add(p, q))[i] == Add(Scale(k, p), Scale(k, q))[i]
    {
      assert k * (p[i] + q[i]) == k * p[i] + k * q[i];
    }
  }

  lemma AddScale(k: int, l: int, p: Poly)
    ensures Scale(k + l, p) == Add(Scale(k, p), Scale(l, p))
  {
    forall i | 0 <= i < |p|
      ensures Scale(k + l, p)[i] == Add(Scale(k, p), Scale(l, p))[i]
    {
      assert (k + l) * p[i] == k * p[i] + l * p[i];
    }
  }

  lemma ScaleScale(k: int, l: int, p: Poly)
    ensures Scale(k, Scale(l, p)) == Scale(k * l, p)
  {
    forall i | 0 <= i < |p|
      ensures Scale(k, Scale(l, p))[i] == Scale(k * l, p)[i]
    {
      assert k * (l * p[i]) == (k * l) * p[i];
    }
  }

  lemma ScaleComm(k: int, l: int, p: Poly)
    ensures Scale(k, Scale(l, p)) == Scale(l, Scale(k, p))
  {
    ScaleScale(k, l, p);
    ScaleScale(l, k, p);
  }

  lemma AddSwap(a: Poly, b: Poly, c: Poly, d: Poly)
    requires |a| == |b| == |c| == |d|
    ensures Add(Add(a, b), Add(c, d)) == Add(Add(a, c), Add(b, d))
  {
  }

  lemma AddAssoc(a: Poly, b: Poly, c: Poly)
    requires |a| == |b| == |c|
    ensures Add(a, Add(b, c)) == Add(Add(a, b), c)
  {
  }

  lemma AddSub(a: Poly, b: Poly)
    requires |a| == |b|
    ensures Add(Sub(a, b), b) == a && Sub(Add(a, b), b) == a
  {
  }

  lemma AddComm(a: Poly, b: Poly)
    requires |a| == |b|
    ensures Add(a, b) == Add(b, a)
  {
  }

  lemma AddZero(p: Poly)
    ensures Add(Zero(|p|), p) == p && Add(p, Zero(|p|)) == p
  {
  }

  lemma ShiftAdd(c: int, p: Poly, q: Poly)
    requires |p| == |q|
    ensures Shift(c, Add(p, q)) == Add(Shift(c, p), Shift(c, q))
  {
    if p != [] {
      var l := |p| - 1;
      assert c * (p[l] + q[l]) == c * p[l] + c * q[l];
    }
  }

  lemma ShiftScale(c: int, k: int, p: Poly)
    ensures Shift(c, Scale(k, p)) == Scale(k, Shift(c, p))
  {
    if p != [] {
      var l := |p| - 1;
      assert c * (k * p[l]) == k * (c * p[l]);
    }
  }

  lemma {:induction false} MulAddR(c: int, a: Poly, p: Poly, q: Poly)
    requires |p| == |q|
    ensures Mul(c, a, Add(p, q)) == Add(Mul(c, a, p), Mul(c, a, q))
    decreases |a|
  {
    if a != [] {
      var p', q' := Shift(c, p), Shift(c, q);
      ShiftAdd(c, p, q);
      ScaleAdd(a[0], p, q);
      MulAddR(c, a[1..], p', q');
      AddSwap(Scale(a[0], p), Scale(a[0], q), Mul(c, a[1..], p'), Mul(c, a[1..], q'));
    }
  }

  lemma {:induction false} MulScaleR(c: int, a: Poly, k: int, p: Poly)
    ensures Mul(c, a, Scale(k, p)) == Scale(k, Mul(c, a, p))
    decreases |a|
  {
    if a != [] {
      ShiftScale(c, k, p);
      ScaleComm(a[0], k, p);
      MulScaleR(c, a[1..], k, Shift(c, p));
      ScaleAdd(k, Scale(a[0], p), Mul(c, a[1..], Shift(c, p)));
    }
  }

  lemma {:induction false} MulShiftR(c: int, a: Poly, p: Poly)
    ensures Mul(c, a, Shift(c, p)) == Shift(c, Mul(c, a, p))
    decreases |a|
  {
    if a != [] {
      ShiftScale(c, a[0], p);
      MulShiftR(c, a[1..], Shift(c, p));
      ShiftAdd(c, Scale(a[0], p), Mul(c, a[1..], Shift(c, p)));
    } else {
      assert Shift(c, Zero(|p|)) == Zero(|p|);
    }
  }

  lemma {:induction false} MulAddL(c: int, a: Poly, b: Poly, p: Poly)
    requires |a| == |b|
    ensures Mul(c, Add(a, b), p) == Add(Mul(c, a, p), Mul(c, b, p))
    decreases |a|
  {
    if a != [] {
      var p' := Shift(c, p);
      assert Add(a, b)[1..] == Add(a[1..], b[1..]);
      MulAddL(c, a[1..], b[1..], p');
      AddScale(a[0], b[0], p);
      AddSwap(Scale(a[0], p), Scale(b[0], p), Mul(c, a[1..], p'), Mul(c, b[1..], p'));
    }
  }

  lemma {:induction false} MulScaleL(c: int, k: int, a: Poly, p: Poly)
    ensures Mul(c, Scale(k, a), p) == Scale(k, Mul(c, a, p))
    decreases |a|
  {
    if a != [] {
      var p' := Shift(c, p);
      assert Scale(k, a)[1..] == Scale(k, a[1..]);
      MulScaleL(c, k, a[1..], p');
      ScaleScale(k, a[0], p);
      ScaleAdd(k, Scale(a[0], p), Mul(c, a[1..], p'));
    }
  }

  lemma {:induction false} MulZeroL(c: int, n: nat, p: Poly)
    ensures Mul(c, Zero(n), p) == Zero(|p|)
    decreases n
  {
    if n > 0 {
      assert Zero(n)[1..] == Zero(n - 1);
      MulZeroL(c, n - 1, Shift(c, p));
    }
  }

  lemma {:induction false} MulSubR(c: int, a: Poly, p: Poly, q: Poly)
    requires |p| == |q|
    ensures Mul(c, a, Sub(p, q)) == Sub(Mul(c, a, p), Mul(c, a, q))
  {
    MulAddR(c, a, Sub(p, q), q);
    AddSub(p, q);
    AddSub(Mul(c, a, Sub(p, q)), Mul(c, a, q));
  }

  // ---------- powers of X ----------

  lemma {:induction false} ShiftNFront(c: int, p: Poly, m: nat)
    ensures ShiftN(c, Shift(c, p), m) == Shift(c, ShiftN(c, p, m))
  {
    if m > 0 {
      ShiftNFront(c, p, m - 1);
    }
  }

  /** The coefficients of X^m * p for m up to the dimension. */
  lemma ShiftNAt(c: int, p: Poly, m: nat)
    requires m <= |p|
    ensures forall i :: m <= i < |p| ==> ShiftN(c, p, m)[i] == p[i - m]
    ensures forall i :: 0 <= i < m ==> ShiftN(c, p, m)[i] == c * p[|p| + i - m]
  {
    forall i | 0 <= i < |p|
      ensures ShiftN(c, p, m)[i] == if i >= m then p[i - m] else c * p[|p| + i - m]
    {
      ShiftNEntry(c, p, m, i);
    }
  }

  lemma {:induction false} ShiftNEntry(c: int, p: Poly, m: nat, i: nat)
    requires m <= |p| && i < |p|
    ensures ShiftN(c, p, m)[i] == if i >= m then p[i - m] else c * p[|p| + i - m]
  {
    if m > 0 {
      ShiftNEntry(c, p, m - 1, if i > 0 then i - 1 else |p| - 1);
    }
  }

  /** X^n = c */
  lemma ShiftNFull(c: int, p: Poly)
    ensures ShiftN(c, p, |p|) == Scale(c, p)
  {
    ShiftNAt(c, p, |p|);
  }

  lemma {:induction false} MulAppend(c: int, a: Poly, b: Poly, p: Poly)
    ensures Mul(c, a + b, p) == Add(Mul(c, a, p), Mul(c, b, ShiftN(c, p, |a|)))
    decreases |a|
  {
    if a == [] {
      assert a + b == b;
      AddZero(Mul(c, b, p));
    } else {
      var p' := Shift(c, p);
      assert (a + b)[1..] == a[1..] + b;
      MulAppend(c, a[1..], b, p');
      ShiftNFront(c, p, |a| - 1);
      AddAssoc(Scale(a[0], p), Mul(c, a[1..], p'), Mul(c, b, ShiftN(c, p, |a|)));
    }
  }

  lemma MulSingle(c: int, x: int, p: Poly)
    ensures Mul(c, [x], p) == Scale(x, p)
  {
    assert [x][1..] == [];
    AddZero(Scale(x, p));
  }

  /** Multiplying the left factor by X multiplies the product by X. */
  lemma {:induction false} MulShiftL(c: int, a: Poly, b: Poly)
    requires |a| == |b|
    ensures Mul(c, Shift(c, a), b) == Shift(c, Mul(c, a, b))
  {
    if a != [] {
      var l := |a| - 1;
      var init, x := a[..l], a[l];
      var b' := Shift(c, b);
      assert Shift(c, a) == [c * x] + init;
      MulAppend(c, [c * x], init, b);
      MulSingle(c, c * x, b);
      assert Mul(c, Shift(c, a), b) == Add(Scale(c * x, b), Mul(c, init, b')) by {
        assert ShiftN(c, b, 1) == b';
      }
      calc {
        Shift(c, Mul(c, a, b));
        { MulShiftR(c, a, b); assert a == init + [x]; }
        Mul(c, init + [x], b');
        { MulAppend(c, init, [x], b'); MulSingle(c, x, ShiftN(c, b', l)); }
        Add(Mul(c, init, b'), Scale(x, ShiftN(c, b', l)));
        { ShiftNFront(c, b, l); ShiftNFull(c, b); ScaleScale(x, c, b); }
        Add(Mul(c, init, b'), Scale(c * x, b));
        { AddComm(Mul(c, init, b'), Scale(c * x, b)); }
        Add(Scale(c * x, b), Mul(c, init, b'));
      }
    } else {
      assert Shift(c, Mul(c, a, b)) == [];
    }
  }

  lemma {:induction false} MulAssoc(c: int, d: Poly, a: Poly, b: Poly)
    requires |a| == |b|
    ensures Mul(c, Mul(c, d, a), b) == Mul(c, d, Mul(c, a, b))
    decreases |d|
  {
    if d == [] {
      MulZeroL(c, |a|, b);
    } else {
      var a' := Shift(c, a);
      MulAddL(c, Scale(d[0], a), Mul(c, d[1..], a'), b);
      MulScaleL(c, d[0], a, b);
      MulAssoc(c, d[1..], a', b);
      MulShiftL(c, a, b);
    }
  }

  lemma {:induction false} MulOneAux(c: int, a: Poly, n: nat)
    requires |a| <= n
    ensures Mul(c, a, One(n)) == a + Zero(n - |a|)
    decreases |a|
  {
    if a != [] {
      var l := |a| - 1;
      var init, x := a[..l], a[l];
      calc {
        Mul(c, a, One(n));
        { assert a == init + [x]; }
        Mul(c, init + [x], One(n));
        { MulAppend(c, init, [x], One(n)); MulSingle(c, x, ShiftN(c, One(n), l)); }
        Add(Mul(c, init, One(n)), Scale(x, ShiftN(c, One(n), l)));
        { MulOneAux(c, init, n); }
        Add(init + Zero(n - l), Scale(x, ShiftN(c, One(n), l)));
        { Monomial(c, n, l); SnocUnit(init, x, n, ShiftN(c, One(n), l)); }
        init + [x] + Zero(n - l - 1);
      }
    } else {
      assert Zero(n) == a + Zero(n);
    }
  }

  lemma Monomial(c: int, n: nat, l: nat)
    requires l < n
    ensures forall i :: 0 <= i < n ==> ShiftN(c, One(n), l)[i] == if i == l then 1 else 0
  {
    ShiftNAt(c, One(n), l);
  }

  lemma SnocUnit(init: Poly, x: int, n: nat, unit: Poly)
    requires |init| < n == |unit|
    requires forall i :: 0 <= i < n ==> unit[i] == if i == |init| then 1 else 0
    ensures Add(init + Zero(n - |init|), Scale(x, unit)) == init + [x] + Zero(n - |init| - 1)
  {
    var l, r := Add(init + Zero(n - |init|), Scale(x, unit)), init + [x] + Zero(n - |init| - 1);
    forall i | 0 <= i < n
      ensures l[i] == r[i]
    {
    }
  }

  lemma MulOne(c: int, a: Poly)
    ensures Mul(c, a, One(|a|)) == a
  {
    MulOneAux(c, a, |a|);
  }

  // ---------- sizes ----------

  ghost predicate Bounded(p: Poly, bound: int) {
    forall i :: 0 <= i < |p| ==> Abs(p[i]) <= bound
  }

  /** Every coefficient is a residue modulo Q. */
  ghost predicate Reduced(p: Poly, Q: nat) {
    forall k {:trigger p[k]} :: 0 <= k < |p| ==> 0 <= p[k] < Q
  }

  /** Each coefficient of a product is a sum of |a| products of coefficients. */
  lemma {:induction false} MulBound(a: Poly, b: Poly, x: nat, y: nat)
    requires Bounded(a, x) && Bounded(b, y)
    ensures Bounded(Mul(-1, a, b), |a| * (x * y))
    decreases |a|
  {
    if a != [] {
      var b', xy := Shift(-1, b), x * y;
      assert Bounded(b', y) by {
        BoundedShift(b, y);
      }
      BoundedTail(a, x);
      MulBound(a[1..], b', x, y);
      BoundedScale(a[0], b, x, y);
      BoundedAdd(Scale(a[0], b), Mul(-1, a[1..], b'), xy, (|a| - 1) * xy);
      assert |a| * xy == xy + (|a| - 1) * xy;
    }
  }

  lemma BoundedTail(a: Poly, x: int)
    requires a != [] && Bounded(a, x)
    ensures Bounded(a[1..], x)
  {
  }

  lemma BoundedShift(p: Poly, x: int)
    requires Bounded(p, x)
    ensures Bounded(Shift(-1, p), x)
  {
  }

  lemma BoundedScale(k: int, p: Poly, x: nat, y: nat)
    requires Abs(k) <= x && Bounded(p, y)
    ensures Bounded(Scale(k, p), x * y)
  {
    forall i | 0 <= i < |p|
      ensures Abs(Scale(k, p)[i]) <= x * y
    {
      AbsMul(k, p[i], x, y);
    }
  }

  lemma BoundedAdd(p: Poly, r: Poly, x: int, y: int)
    requires |p| == |r| && Bounded(p, x) && Bounded(r, y)
    ensures Bounded(Add(p, r), x + y)
  {
  }

  lemma AbsMul(u: int, v: int, x: nat, y: nat)
    requires Abs(u) <= x && Abs(v) <= y
    ensures Abs(u * v) <= x * y
  {
    MulMono(Abs(u), Abs(v), x, y);
    assert Abs(u * v) == Abs(u) * Abs(v);
  }

  // ---------- congruence of polynomials ----------

  function Reduce(p: Poly, q: int): (r: Poly)
    requires q > 0
    ensures |r| == |p| && forall i {:trigger r[i]} :: 0 <= i < |p| ==> r[i] == p[i] % q
  {
    seq(|p|, i requires 0 <= i < |p| => p[i] % q)
  }

  /** A polynomial modulo q. Wrapping the coefficients keeps the verifier from comparing them one by one. */
  datatype Residue = Residue(coeffs: Poly)

  ghost predicate Eqv(p: Poly, p': Poly, q: int)
    requires q > 0
  {
    Residue(Reduce(p, q)) == Residue(Reduce(p', q))
  }

  ghost predicate CongAll(p: Poly, p': Poly, q: int)
    requires q > 0
  {
    |p| == |p'| && forall i :: 0 <= i < |p| ==> Cong(p[i], p'[i], q)
  }

  lemma EqvElim(p: Poly, p': Poly, q: int)
    requires q > 0 && Eqv(p, p', q)
    ensures CongAll(p, p', q)
  {
    var r, r' := Reduce(p, q), Reduce(p', q);
    assert |r| == |p| && |r'| == |p'|;
    forall i | 0 <= i < |p|
      ensures Cong(p[i], p'[i], q)
    {
      assert r[i] == p[i] % q && r'[i] == p'[i] % q;
    }
  }

  lemma EqvIntro(p: Poly, p': Poly, q: int)
    requires q > 0 && CongAll(p, p', q)
    ensures Eqv(p, p', q)
  {
    forall i | 0 <= i < |p|
      ensures Reduce(p, q)[i] == Reduce(p', q)[i]
    {
      assert Cong(p[i], p'[i], q);
    }
  }

  lemma ReduceEqv(p: Poly, q: int)
    requires q > 0
    ensures Eqv(Reduce(p, q), p, q)
  {
    forall i | 0 <= i < |p|
      ensures Cong(Reduce(p, q)[i], p[i], q)
    {
      CongMod(p[i], q);
    }
    EqvIntro(Reduce(p, q), p, q);
  }

  lemma EqvAdd(p: Poly, p': Poly, r: Poly, r': Poly, q: int)
    requires q > 0 && |p| == |r| && |p'| == |r'| && Eqv(p, p', q) && Eqv(r, r', q)
    ensures Eqv(Add(p, r), Add(p', r'), q)
  {
    EqvElim(p, p', q);
    EqvElim(r, r', q);
    forall i | 0 <= i < |p|
      ensures Cong(Add(p, r)[i], Add(p', r')[i], q)
    {
      CongAdd(p[i], p'[i], r[i], r'[i], q);
    }
    EqvIntro(Add(p, r), Add(p', r'), q);
  }

  lemma EqvScale(k: int, k': int, p: Poly, p': Poly, q: int)
    requires q > 0 && Cong(k, k', q) && Eqv(p, p', q)
    ensures Eqv(Scale(k, p), Scale(k', p'), q)
  {
    EqvElim(p, p', q);
    forall i | 0 <= i < |p|
      ensures Cong(Scale(k, p)[i], Scale(k', p')[i], q)
    {
      CongMul(k, k', p[i], p'[i], q);
    }
    EqvIntro(Scale(k, p), Scale(k', p'), q);
  }

  lemma EqvSub(p: Poly, p': Poly, r: Poly, r': Poly, q: int)
    requires q > 0 && |p| == |r| && |p'| == |r'| && Eqv(p, p', q) && Eqv(r, r', q)
    ensures Eqv(Sub(p, r), Sub(p', r'), q)
  {
    EqvScale(-1, -1, r, r', q);
    EqvAdd(p, p', Scale(-1, r), Scale(-1, r'), q);
    SubIsAdd(p, r);
    SubIsAdd(p', r');
  }

  lemma SubIsAdd(p: Poly, r: Poly)
    requires |p| == |r|
    ensures Sub(p, r) == Add(p, Scale(-1, r))
  {
  }

  lemma EqvShift(c: int, c': int, p: Poly, p': Poly, q: int)
    requires q > 0 && Cong(c, c', q) && Eqv(p, p', q)
    ensures Eqv(Shift(c, p), Shift(c', p'), q)
  {
    EqvElim(p, p', q);
    if p != [] {
      var l := |p| - 1;
      CongMul(c, c', p[l], p'[l], q);
    }
    EqvIntro(Shift(c, p), Shift(c', p'), q);
  }

  lemma EqvTail(a: Poly, a': Poly, q: int)
    requires q > 0 && a != [] && Eqv(a, a', q)
    ensures a' != [] && Cong(a[0], a'[0], q) && Eqv(a[1..], a'[1..], q)
  {
    EqvElim(a, a', q);
    EqvIntro(a[1..], a'[1..], q);
  }

  lemma EqvLength(p: Poly, p': Poly, q: int)
    requires q > 0 && Eqv(p, p', q)
    ensures |p| == |p'|
  {
    EqvElim(p, p', q);
  }

  /** The product respects congruence in the ring constant and in both factors. */
  lemma {:induction false} EqvMul(c: int, c': int, a: Poly, a': Poly, b: Poly, b': Poly, q: int)
    requires q > 0 && Cong(c, c', q) && Eqv(a, a', q) && Eqv(b, b', q)
    ensures Eqv(Mul(c, a, b), Mul(c', a', b'), q)
    decreases |a|
  {
    EqvLength(a, a', q);
    EqvLength(b, b', q);
    if a != [] {
      EqvShift(c, c', b, b', q);
      EqvTail(a, a', q);
      EqvMul(c, c', a[1..], a'[1..], Shift(c, b), Shift(c', b'), q);
      EqvScale(a[0], a'[0], b, b', q);
      EqvAdd(Scale(a[0], b), Scale(a'[0], b'),
             Mul(c, a[1..], Shift(c, b)), Mul(c', a'[1..], Shift(c', b')), q);
    }
  }
}
