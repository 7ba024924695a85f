/**
 Integer arithmetic used everywhere else: congruence modulo q, the distance of an
 integer from the nearest multiple of q (the size of a noise term), powers, and the
 machine operations of the program (remainder truncated towards zero, wrap-around).
 */
module Arith {

  function Abs(x: int): nat {
    if x < 0 then -x else x
  }

  // ---------- congruence ----------

  ghost predicate Cong(a: int, b: int, q: int)
    requires q > 0
  {
    a % q == b % q
  }

  lemma ModIntro(x: int, k: int, r: int, q: int)
    requires q > 0 && 0 <= r < q && x == k * q + r
    ensures x / q == k && x % q == r
  {
    var d, m := x / q, x % q;
    assert x == d * q + m;
    assert (k - d) * q == m - r;
    if k - d >= 1 {
      MulLe(1, k - d, q);
    } else if k - d <= -1 {
      MulLe(k - d, -1, q);
    }
  }

  lemma DivMod(x: int, q: int) returns (k: int, r: int)
    requires q > 0
    ensures k == x / q && r == x % q && x == r + k * q && 0 <= r < q && (x >= 0 ==> k >= 0)
  {
    k, r := x / q, x % q;
    assert x == k * q + r;
    if k <= -1 {
      MulLe(k, -1, q);
    }
  }

  /** The lowest digit and the rest are again natural numbers. */
  lemma DigitFits(x: nat, base: nat)
    requires base > 0
    ensures 0 <= x % base < base && x / base >= 0
  {
    var k, r := DivMod(x, base);
  }

  lemma MulLe(x: int, y: int, k: int)
    requires x <= y && k >= 0
    ensures x * k <= y * k && k * x <= k * y
  {
  }

  lemma MulCancel(x: int, y: int, k: int)
    requires k > 0
    ensures x * k < y * k <==> x < y
    ensures x * k <= y * k <==> x <= y
  {
    if x < y {
      MulLe(x + 1, y, k);
    } else {
      MulLe(y, x, k);
    }
  }

  lemma MulMono(a: int, b: int, x: int, y: int)
    requires 0 <= a <= x && 0 <= b <= y
    ensures 0 <= a * b <= x * y
  {
    MulLe(a, x, b);
    MulLe(b, y, x);
  }

  lemma CongFrom(a: int, b: int, k: int, q: int)
    requires q > 0 && a == b + k * q
    ensures Cong(a, b, q)
  {
    assert b == (b / q) * q + b % q;
    assert a == (b / q + k) * q + b % q;
    ModIntro(a, b / q + k, b % q, q);
  }

  lemma CongWitness(a: int, b: int, q: int) returns (k: int)
    requires q > 0 && Cong(a, b, q)
    ensures a == b + k * q
  {
    k := a / q - b / q;
    assert a == (a / q) * q + a % q;
    assert b == (b / q) * q + b % q;
  }

  lemma CongMod(a: int, q: int)
    requires q > 0
    ensures Cong(a % q, a, q)
  {
    ModIntro(a % q, 0, a % q, q);
  }

  lemma CongAdd(a: int, a': int, b: int, b': int, q: int)
    requires q > 0 && Cong(a, a', q) && Cong(b, b', q)
    ensures Cong(a + b, a' + b', q)
  {
    var k := CongWitness(a, a', q);
    var l := CongWitness(b, b', q);
    CongFrom(a + b, a' + b', k + l, q);
  }

  /** x is t + u, and u may be replaced by v. */
  lemma CongChain(x: int, t: int, u: int, v: int, q: int)
    requires q > 0 && Cong(x, t + u, q) && Cong(u, v, q)
    ensures Cong(x, t + v, q)
  {
    CongAdd(t, t, u, v, q);
  }

  lemma CongMulL(c: int, a: int, b: int, q: int)
    requires q > 0 && Cong(a, b, q)
    ensures Cong(c * a, c * b, q)
  {
    var k := CongWitness(a, b, q);
    assert c * a == c * b + (c * k) * q;
    CongFrom(c * a, c * b, c * k, q);
  }

  lemma CongMul(a: int, a': int, b: int, b': int, q: int)
    requires q > 0 && Cong(a, a', q) && Cong(b, b', q)
    ensures Cong(a * b, a' * b', q)
  {
    CongMulL(a, b, b', q);
    CongMulL(b', a, a', q);
  }

  lemma CongSub(a: int, a': int, b: int, b': int, q: int)
    requires q > 0 && Cong(a, a', q) && Cong(b, b', q)
    ensures Cong(a - b, a' - b', q)
  {
    CongMulL(-1, b, b', q);
    CongAdd(a, a', -b, -b', q);
  }

  // ---------- distance from the nearest multiple of q ----------

  ghost function Dist(x: int, q: int): nat
    requires q > 0
  {
    var r := x % q;
    if r <= q - r then r else q - r
  }

  lemma Centre(x: int, q: int) returns (e: int, k: int)
    requires q > 0
    ensures x == e + k * q && Abs(e) == Dist(x, q)
  {
    var r := x % q;
    assert x == (x / q) * q + r;
    if r <= q - r {
      e, k := r, x / q;
    } else {
      e, k := r - q, x / q + 1;
      assert k * q == (x / q) * q + q;
    }
  }

  lemma DistLe(x: int, e: int, k: int, q: int)
    requires q > 0 && x == e + k * q
    ensures Dist(x, q) <= Abs(e)
  {
    CongFrom(x, e, k, q);
    var r := e % q;
    assert e == (e / q) * q + r;
    if e >= 0 {
      assert e / q >= 0;
      MulLe(0, e / q, q);
    } else {
      assert e / q <= -1;
      MulLe(e / q, -1, q);
    }
  }

  lemma DistTriangle(x: int, y: int, q: int)
    requires q > 0
    ensures Dist(x + y, q) <= Dist(x, q) + Dist(y, q)
  {
    var e, k := Centre(x, q);
    var f, l := Centre(y, q);
    MulSum(k, l, q);
    DistLe(x + y, e + f, k + l, q);
  }

  lemma MulSum(k: int, l: int, q: int)
    ensures (k + l) * q == k * q + l * q
  {
  }

  lemma DistNeg(x: int, q: int)
    requires q > 0
    ensures Dist(-x, q) == Dist(x, q)
  {
    DistNegLe(x, 0 - x, q);
    DistNegLe(0 - x, x, q);
  }

  lemma DistNegLe(x: int, y: int, q: int)
    requires q > 0 && y == 0 - x
    ensures Dist(y, q) <= Dist(x, q)
  {
    var e, k := Centre(x, q);
    NegTimes(k, q);
    DistLe(y, 0 - e, 0 - k, q);
  }

  lemma NegTimes(k: int, q: int)
    ensures (0 - k) * q == 0 - k * q
  {
  }

  /** x agrees with y modulo q up to an error of size at most bound. */
  ghost predicate Near(x: int, y: int, bound: int, q: int)
    requires q > 0
  {
    Dist(x - y, q) <= bound
  }

  lemma NearIntro(x: int, y: int, e: int, bound: int, q: int)
    requires q > 0 && Cong(x, y + e, q) && Abs(e) <= bound
    ensures Near(x, y, bound, q)
  {
    var k := CongWitness(x, y + e, q);
    DistLe(x - y, e, k, q);
  }

  lemma NearError(x: int, y: int, bound: int, q: int) returns (e: int)
    requires q > 0 && Near(x, y, bound, q)
    ensures Abs(e) <= bound && Cong(x, y + e, q)
  {
    var k;
    e, k := Centre(x - y, q);
    CongFrom(x, y + e, k, q);
  }

  lemma NearTrans(x: int, y: int, z: int, d: int, e: int, q: int)
    requires q > 0 && Near(x, y, d, q) && Near(y, z, e, q)
    ensures Near(x, z, d + e, q)
  {
    DistTriangle(x - y, y - z, q);
    assert (x - y) + (y - z) == x - z;
  }

  lemma NearAdd(x: int, x': int, y: int, y': int, d: int, e: int, q: int)
    requires q > 0 && Near(x, x', d, q) && Near(y, y', e, q)
    ensures Near(x + y, x' + y', d + e, q)
  {
    DistTriangle(x - x', y - y', q);
    assert (x - x') + (y - y') == x + y - (x' + y');
  }

  lemma NearNeg(x: int, y: int, d: int, q: int)
    requires q > 0 && Near(x, y, d, q)
    ensures Near(-x, -y, d, q)
  {
    DistNeg(x - y, q);
    assert -x - (-y) == -(x - y);
  }

  // ---------- powers ----------

  function Pow2(e: nat): (r: nat)
    ensures r >= 1
  {
    if e == 0 then 1 else 2 * Pow2(e - 1)
  }

  function Pow(b: nat, e: nat): nat {
    if e == 0 then 1 else b * Pow(b, e - 1)
  }

  lemma {:induction false} PowGrows(b: nat, e: nat)
    requires b >= 2
    ensures Pow(b, e) > e
  {
    if e > 0 {
      PowGrows(b, e - 1);
      MulLe(2, b, Pow(b, e - 1));
    }
  }

  lemma {:induction false} Pow2Add(e: nat, f: nat)
    ensures Pow2(e + f) == Pow2(e) * Pow2(f)
  {
    if e > 0 {
      Pow2Add(e - 1, f);
      DoubleTimes(Pow2(e - 1), Pow2(f));
    }
  }

  lemma DoubleTimes(x: int, y: int)
    ensures (2 * x) * y == 2 * (x * y)
  {
  }

  lemma {:induction false} Pow2Less(e: nat, f: nat)
    ensures e < f <==> Pow2(e) < Pow2(f)
  {
    if e > 0 && f > 0 {
      Pow2Less(e - 1, f - 1);
    }
  }

  /** k * x by repeated addition; error bounds written with it stay linear for the verifier. */
  function Multiple(k: nat, x: nat): nat {
    if k == 0 then 0 else Multiple(k - 1, x) + x
  }

  lemma {:induction false} MultipleIs(k: nat, x: nat)
    ensures Multiple(k, x) == k * x
  {
    if k > 0 {
      MultipleIs(k - 1, x);
    }
  }

  lemma MultipleNext(k: nat, rest: nat, x: nat)
    requires k == rest + 1
    ensures Multiple(k, x) == Multiple(rest, x) + x
  {
  }

  /** m / q by repeated subtraction, again to stay linear. */
  function Quotient(m: nat, q: nat): nat
    requires q > 0
  {
    if m < q then 0 else 1 + Quotient(m - q, q)
  }

  lemma {:induction false} QuotientIs(m: nat, q: nat)
    requires q > 0
    ensures Quotient(m, q) == m / q
    decreases m
  {
    if m < q {
      ModIntro(m, 0, m, q);
    } else {
      QuotientIs(m - q, q);
      var k, r := DivMod(m - q, q);
      assert m == (k + 1) * q + r;
      ModIntro(m, k + 1, r, q);
    }
  }

  /** m % q by repeated subtraction. */
  function Remainder(m: nat, q: nat): nat
    requires q > 0
  {
    if m < q then m else Remainder(m - q, q)
  }

  lemma {:induction false} RemainderIs(m: nat, q: nat)
    requires q > 0
    ensures Remainder(m, q) == m % q
    decreases m
  {
    if m < q {
      ModIntro(m, 0, m, q);
    } else {
      RemainderIs(m - q, q);
      var k, r := DivMod(m - q, q);
      assert m == (k + 1) * q + r;
      ModIntro(m, k + 1, r, q);
    }
  }

  /** m is a multiple of q. */
  predicate Divides(q: nat, m: nat)
    requires q > 0
    decreases m
  {
    m == 0 || (m >= q && Divides(q, m - q))
  }

  lemma {:induction false} DividesIs(q: nat, m: nat)
    requires q > 0
    ensures Divides(q, m) <==> m % q == 0
    decreases m
  {
    if m < q {
      ModIntro(m, 0, m, q);
    } else {
      DividesIs(q, m - q);
      var k, r := DivMod(m - q, q);
      assert m == (k + 1) * q + r;
      ModIntro(m, k + 1, r, q);
    }
  }

  /** The lowest digit of a number that fits base * p, and the rest, which fits p. */
  lemma DigitSplit(aI: nat, base: nat, a0: nat, up: nat, p: nat)
    requires base >= 2 && a0 == aI % base && up == aI / base && aI < base * p
    ensures up < p && aI == a0 + up * base && a0 < base
  {
    var k, r := DivMod(aI, base);
    assert p * base == base * p;
    MulCancel(up, p, base);
  }

  // ---------- machine operations ----------

  /** C's remainder: it has the sign of the dividend. */
  function TruncMod(a: int, q: int): int
    requires q > 0
  {
    if a >= 0 then a % q else -((-a) % q)
  }

  /** r is congruent to a, smaller than q in size, and of the sign of a unless it is 0. */
  ghost predicate IsRemainder(r: int, a: int, q: int)
    requires q > 0
  {
    Cong(r, a, q) && Abs(r) < q && (r > 0 ==> a > 0) && (r < 0 ==> a < 0)
  }

  /** Only one integer is. */
  lemma TruncModIff(a: int, r: int, q: int)
    requires q > 0
    ensures r == TruncMod(a, q) <==> IsRemainder(r, a, q)
  {
    TruncModIs(a, q);
    if IsRemainder(r, a, q) {
      OneRemainder(a, r, TruncMod(a, q), q);
    }
  }

  lemma TruncModIs(a: int, q: int)
    requires q > 0
    ensures IsRemainder(TruncMod(a, q), a, q)
  {
    TruncModCong(a, q);
    ModIntro(0, 0, 0, q);
  }

  lemma OneRemainder(a: int, r: int, r': int, q: int)
    requires q > 0 && IsRemainder(r, a, q) && IsRemainder(r', a, q)
    ensures r == r'
  {
    var k := CongWitness(r, r', q);
    if k >= 1 {
      MulLe(1, k, q);
    } else if k <= -1 {
      MulLe(k, -1, q);
    }
  }

  lemma TruncModCong(a: int, q: int)
    requires q > 0
    ensures Cong(TruncMod(a, q), a, q)
    ensures -q < TruncMod(a, q) < q
  {
    if a >= 0 {
      CongMod(a, q);
    } else {
      CongMod(-a, q);
      CongMulL(-1, (-a) % q, -a, q);
    }
  }
}
