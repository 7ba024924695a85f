/**
 Modulus switching in double precision: which integers the program may get where it rounds a
 quotient, and what that does to a phase.
 */
module Doubles {
  import opened Arith
  import opened Poly
  import opened Lwe
  import opened Switching

  /** The relative error of one double-precision operation, 2^-53. */
  const UNIT: real := 1.0 / 9007199254740992.0

  /** d is what double precision may hold of the nonnegative number x. */
  ghost predicate IsDouble(d: real, x: real) {
    x - UNIT * x <= d <= x + UNIT * x
  }

  /** The product, the quotient and the sum with 0.5 that one rounding goes through. */
  datatype Steps = Steps(product: real, quotient: real, sum: real)

  ghost predicate AreSteps(w: Steps, v: nat, q: nat, Q: nat)
    requires Q > 0
  {
    && IsDouble(w.product, v as real * q as real)
    && IsDouble(w.quotient, w.product / Q as real)
    && IsDouble(w.sum, 0.5 + w.quotient)
  }

  /** r is what the program may get for v * q / Q, rounded and reduced modulo q. */
  ghost predicate MayRound(r: int, v: nat, q: nat, Q: nat)
    requires q > 0 && Q > 0
  {
    exists w: Steps {:trigger AreSteps(w, v, q, Q)} :: AreSteps(w, v, q, Q) && r == w.sum.Floor % q
  }

  lemma ProductOf(v: nat, q: nat, Q: nat)
    requires v < Q
    ensures v as real * q as real == (v * q) as real && 2 * v * q == 2 * (v * q) && v * q <= q * Q && 0 <= v * q
  {
    MulLe(v, Q, q);
  }

  // ---------- exact rounding ----------

  /**
   As long as 16 * q * Q <= 2^53 the result is exact, because for odd Q no quotient is half way
   between integers.
   */
  lemma DoublesRoundExactly(r: int, v: nat, q: nat, Q: nat)
    requires q > 0 && Q % 2 == 1 && v < Q && 16 * (q * Q) <= 0x20_0000_0000_0000
    ensures MayRound(r, v, q, Q) <==> r == RoundqQ(v, q, Q)
  {
    ExactMayRound(v, q, Q);
    if MayRound(r, v, q, Q) {
      var w: Steps :| AreSteps(w, v, q, Q) && r == w.sum.Floor % q;
      StepsExact(w, v, q, Q);
    }
  }

  lemma StepsExact(w: Steps, v: nat, q: nat, Q: nat)
    requires q > 0 && Q % 2 == 1 && v < Q && 16 * (q * Q) <= 0x20_0000_0000_0000 && AreSteps(w, v, q, Q)
    ensures w.sum.Floor % q == RoundqQ(v, q, Q)
  {
    ProductOf(v, q, Q);
    var k, r := DivMod(2 * v * q + Q, 2 * Q);
    OddRemainder(v * q, Q, k, r);
    NearestInteger(v * q, q, Q, k, r, w.product, w.quotient, w.sum);
  }

  /** Exact operations are among the possible ones. */
  lemma ExactMayRound(v: nat, q: nat, Q: nat)
    requires q > 0 && v < Q
    ensures MayRound(RoundqQ(v, q, Q), v, q, Q)
  {
    var x := v as real * q as real / Q as real;
    ExactAre(v as real * q as real, Q as real, x);
    var w := Steps(v as real * q as real, x, 0.5 + x);
    ProductOf(v, q, Q);
    var k, rem := DivMod(2 * v * q + Q, 2 * Q);
    ExactFloor(v * q, Q, k, rem, x, 0.5 + x);
    assert AreSteps(w, v, q, Q);
  }

  lemma ExactAre(p: real, Q: real, x: real)
    requires p >= 0.0 && Q > 0.0 && x == p / Q
    ensures IsDouble(p, p) && IsDouble(x, p / Q) && IsDouble(0.5 + x, 0.5 + x)
  {
    assert x * Q == p;
  }

  lemma ExactFloor(p: nat, Q: nat, k: int, r: int, x: real, y: real)
    requires Q > 0 && 2 * p + Q == r + k * (2 * Q) && 0 <= r < 2 * Q && x == p as real / Q as real && y == 0.5 + x
    ensures y.Floor == k
  {
    ExactSum(p, Q, k, r, x, 2.0 * Q as real, y);
    ExactBetween(2.0 * Q as real, y, r as real, k as real, k as real + 1.0);
    FloorIs(y, k);
  }

  lemma ExactBetween(X: real, y: real, r: real, k: real, next: real)
    requires X > 0.0 && y * X == r + k * X && 0.0 <= r < X && next == k + 1.0
    ensures k <= y < next
  {
    assert next * X == k * X + X;
    ScaledLe(k, y, X);
    ScaledLe(next, y, X);
  }

  lemma NearestInteger(p: nat, q: nat, Q: nat, k: int, r: int, product: real, quotient: real, sum: real)
    requires q > 0 && Q > 0 && p <= q * Q && 16 * (q * Q) <= 0x20_0000_0000_0000 && 2 * p + Q == r + k * (2 * Q)
             && 1 <= r < 2 * Q
    requires IsDouble(product, p as real) && IsDouble(quotient, product / Q as real) && IsDouble(sum, 0.5 + quotient)
    ensures sum.Floor == k
  {
    var x := p as real / Q as real;
    QuotientNear(p as real, product, Q as real);
    DoubleError(x, product / Q as real, quotient, sum, SumError(x));
    SumWithin(p, q, Q, k, r, x, 2.0 * Q as real, 0.5 + x, SumError(x), sum);
    FloorIs(sum, k);
  }

  lemma SumWithin(p: nat, q: nat, Q: nat, k: int, r: int, x: real, X: real, y: real, err: real, sum: real)
    requires q > 0 && Q > 0 && p <= q * Q && 16 * (q * Q) <= 0x20_0000_0000_0000 && 2 * p + Q == r + k * (2 * Q)
             && 1 <= r < 2 * Q
    requires x == p as real / Q as real && X == 2.0 * Q as real && y == 0.5 + x && err == SumError(x)
             && y - err <= sum <= y + err
    ensures k as real <= sum < k as real + 1.0
  {
    ErrorSmall(p, q, Q, x, X, err);
    ExactSum(p, Q, k, r, x, X, y);
    RemainderRoom(Q, r, X);
    Squeezed(X, y, err, y - err, y + err, sum, r as real, k as real, k as real + 1.0);
  }

  lemma RemainderRoom(Q: nat, r: int, X: real)
    requires Q > 0 && 1 <= r < 2 * Q && X == 2.0 * Q as real
    ensures X > 0.0 && 1.0 <= r as real <= X - 1.0
  {
    assert (2 * Q) as real == X;
  }

  lemma FloorIs(d: real, k: int)
    requires k as real <= d < k as real + 1.0
    ensures d.Floor == k
  {
  }

  /** Bounds the error of all three operations for the quotient x. */
  ghost function SumError(x: real): real {
    UNIT * (5.0 * x + 0.5)
  }

  lemma QuotientNear(p: real, product: real, Q: real)
    requires Q > 0.0 && IsDouble(product, p)
    ensures IsDouble(product / Q, p / Q)
  {
    assert product == product / Q * Q && p == p / Q * Q;
    ScaledLe(p / Q - UNIT * (p / Q), product / Q, Q);
    ScaledLe(product / Q, p / Q + UNIT * (p / Q), Q);
  }

  lemma ScaledLe(x: real, y: real, Q: real)
    requires Q > 0.0
    ensures x * Q <= y * Q <==> x <= y
  {
  }

  lemma DoubleError(x: real, a: real, b: real, d: real, err: real)
    requires x >= 0.0 && IsDouble(a, x) && IsDouble(b, a) && IsDouble(d, 0.5 + b) && err == SumError(x)
    ensures 0.5 + x - err <= d <= 0.5 + x + err
  {
  }

  lemma OddRemainder(p: nat, Q: nat, k: int, r: int)
    requires Q % 2 == 1 && 2 * p + Q == r + k * (2 * Q) && 0 <= r < 2 * Q
    ensures 1 <= r
  {
    assert k * (2 * Q) == 2 * (k * Q);
  }

  lemma ErrorSmall(p: nat, q: nat, Q: nat, x: real, X: real, err: real)
    requires q > 0 && Q > 0 && p <= q * Q && 16 * (q * Q) <= 0x20_0000_0000_0000
    requires x == p as real / Q as real && X == 2.0 * Q as real && err == SumError(x)
    ensures err * X < 1.0 && x >= 0.0
  {
    MulLe(1, q, Q);
    ErrorTimes(p as real, Q as real, x, X, err);
  }

  lemma ErrorTimes(p: real, Q: real, x: real, X: real, err: real)
    requires Q > 0.0 && x == p / Q && X == 2.0 * Q && err == SumError(x)
    ensures err * X == UNIT * (10.0 * p + Q)
  {
    assert x * Q == p;
    assert (5.0 * x + 0.5) * X == 10.0 * (x * Q) + Q;
    assert UNIT * (5.0 * x + 0.5) * X == UNIT * ((5.0 * x + 0.5) * X);
  }

  lemma ExactSum(p: nat, Q: nat, k: int, r: int, x: real, X: real, y: real)
    requires Q > 0 && 2 * p + Q == r + k * (2 * Q) && x == p as real / Q as real && X == 2.0 * Q as real && y == 0.5 + x
    ensures y * X == r as real + k as real * X
  {
    assert x * Q as real == p as real;
    assert (0.5 + x) * X == Q as real + 2.0 * (x * Q as real);
    IntegerProduct(k, Q, X);
  }

  lemma IntegerProduct(k: int, Q: nat, X: real)
    requires X == 2.0 * Q as real
    ensures (k * (2 * Q)) as real == k as real * X
  {
    assert (2 * Q) as real == X;
  }

  /** What is closer than 1/X to y = k + r/X has integer part k. */
  lemma Squeezed(X: real, y: real, err: real, low: real, high: real, d: real, r: real, k: real, next: real)
    requires X > 0.0 && y * X == r + k * X && err * X < 1.0 && 1.0 <= r <= X - 1.0
    requires low == y - err && high == y + err && low <= d <= high && next == k + 1.0
    ensures k <= d < next
  {
    Shifts(y, err, k, low, high, next, X);
    ScaledLe(low, d, X);
    ScaledLe(d, high, X);
    ScaledLe(k, d, X);
    ScaledLe(next, d, X);
    Chain(low * X, high * X, y * X, err * X, d * X, k * X, next * X, X, r);
  }

  lemma Shifts(y: real, err: real, k: real, low: real, high: real, next: real, X: real)
    requires low == y - err && high == y + err && next == k + 1.0
    ensures low * X == y * X - err * X && high * X == y * X + err * X && next * X == k * X + X
  {
  }

  lemma Chain(low: real, high: real, y: real, err: real, d: real, k: real, next: real, X: real, r: real)
    requires low == y - err && high == y + err && next == k + X && y == r + k && err < 1.0 && 1.0 <= r <= X - 1.0
    requires low <= d <= high
    ensures k <= d < next
  {
  }

  // ---------- rounding in general ----------

  /** By how much, scaled by Q, three operations may miss the exact quotient before it is rounded down. */
  function Slack(q: nat, Q: nat): nat {
    6 * (q * Q) / 0x20_0000_0000_0000 + 1
  }

  /** Without any condition on the moduli the result is within half a unit and the slack. */
  lemma DoublesNear(r: int, v: nat, q: nat, Q: nat, M: nat)
    requires q > 0 && v < Q && M == q * Q && M > 0 && MayRound(r, v, q, Q)
    ensures 0 <= r < q && Near(Q * r, q * v, Q / 2 + Slack(q, Q), M)
  {
    var w: Steps :| AreSteps(w, v, q, Q) && r == w.sum.Floor % q;
    FloorNear(w, v, q, Q);
    ReducedNear(w.sum.Floor, v, Q / 2 + Slack(q, Q), q, Q, M);
  }

  /** The floor is not negative, so it can be converted to an unsigned word. */
  lemma FloorNear(w: Steps, v: nat, q: nat, Q: nat)
    requires q > 0 && v < Q && AreSteps(w, v, q, Q)
    ensures w.sum.Floor >= 0 && Abs(Q * w.sum.Floor - q * v) <= Q / 2 + Slack(q, Q)
  {
    var p := v * q;
    var x := p as real / Q as real;
    ProductOf(v, q, Q);
    QuotientNear(p as real, w.product, Q as real);
    DoubleError(x, w.product / Q as real, w.quotient, w.sum, SumError(x));
    QuotientPositive(p as real, Q as real, x, w.sum);
    FloorOfSum(p, q, Q, x, 2.0 * Q as real, 0.5 + x, SumError(x), w.sum, w.sum.Floor);
  }

  lemma QuotientPositive(p: real, Q: real, x: real, sum: real)
    requires p >= 0.0 && Q > 0.0 && x == p / Q && sum >= 0.5 + x - SumError(x)
    ensures sum >= 0.0
  {
    assert x * Q == p;
    assert x >= 0.0;
  }

  lemma FloorOfSum(p: nat, q: nat, Q: nat, x: real, X: real, y: real, err: real, sum: real, F: int)
    requires q > 0 && Q > 0 && p <= q * Q && x == p as real / Q as real && X == 2.0 * Q as real && y == 0.5 + x
    requires err == SumError(x) && y - err <= sum <= y + err && F as real <= sum < F as real + 1.0
    ensures Abs(Q * F - p) <= Q / 2 + Slack(q, Q)
  {
    var FX, yX, e := FloorTimes(p, Q, x, X, y, err, sum, F);
    IntegralBounds(p, Q, X, F, FX, yX, e);
    Halved(Q * F - p, p, q, Q, q * Q);
  }

  /** Everything times X. */
  lemma FloorTimes(p: nat, Q: nat, x: real, X: real, y: real, err: real, sum: real, F: int)
    returns (FX: real, yX: real, e: real)
    requires Q > 0 && x == p as real / Q as real && X == 2.0 * Q as real && y == 0.5 + x
    requires err == SumError(x) && y - err <= sum <= y + err && F as real <= sum < F as real + 1.0
    ensures FX == 2.0 * (Q * F) as real && yX == (2 * p + Q) as real && e == UNIT * (10.0 * p as real + Q as real)
    ensures FX <= yX + e && yX - e <= FX + X
  {
    FX, yX, e := F as real * X, y * X, err * X;
    ProductsAre(p, Q, x, X, y, err, F, FX, yX, e);
    BoundedPositive(Q, X);
    ScaledFloor(X, y, err, y - err, y + err, sum, F as real, F as real + 1.0, FX, yX, e);
  }

  lemma ProductsAre(p: nat, Q: nat, x: real, X: real, y: real, err: real, F: int, FX: real, yX: real, e: real)
    requires Q > 0 && x == p as real / Q as real && X == 2.0 * Q as real && y == 0.5 + x && err == SumError(x)
    requires FX == F as real * X && yX == y * X && e == err * X
    ensures FX == 2.0 * (Q * F) as real && yX == (2 * p + Q) as real && e == UNIT * (10.0 * p as real + Q as real)
  {
    PlainSum(p, Q, x, X, y);
    ErrorTimes(p as real, Q as real, x, X, err);
    IntegerTimes(Q, F, X);
  }

  lemma BoundedPositive(Q: nat, X: real)
    requires Q > 0 && X == 2.0 * Q as real
    ensures X > 0.0
  {
  }

  lemma ScaledFloor(X: real, y: real, err: real, low: real, high: real, sum: real, F: real, next: real,
                    FX: real, yX: real, e: real)
    requires X > 0.0 && low == y - err && high == y + err && next == F + 1.0 && low <= sum <= high && F <= sum < next
    requires FX == F * X && yX == y * X && e == err * X
    ensures FX <= yX + e && yX - e <= FX + X
  {
    Shifts(y, err, F, low, high, next, X);
    ScaledLe(F, high, X);
    ScaledLe(low, next, X);
  }

  lemma IntegralBounds(p: nat, Q: nat, X: real, F: int, FX: real, yX: real, e: real)
    requires FX == 2.0 * (Q * F) as real && X == 2.0 * Q as real && e == UNIT * (10.0 * p as real + Q as real)
    requires yX == (2 * p + Q) as real && FX <= yX + e && yX - e <= FX + X
    ensures -0x20_0000_0000_0000 * Q - (10 * p + Q) <= 2 * 0x20_0000_0000_0000 * (Q * F - p)
    ensures 2 * 0x20_0000_0000_0000 * (Q * F - p) <= 0x20_0000_0000_0000 * Q + (10 * p + Q)
  {
    UnitTimes(10.0 * p as real + Q as real, e);
    Integral(Q * F, p, Q, FX, X, yX, e);
  }

  lemma PlainSum(p: nat, Q: nat, x: real, X: real, y: real)
    requires Q > 0 && x == p as real / Q as real && X == 2.0 * Q as real && y == 0.5 + x
    ensures y * X == (2 * p + Q) as real
  {
    assert x * Q as real == p as real;
    assert (0.5 + x) * X == Q as real + 2.0 * (x * Q as real);
  }

  lemma IntegerTimes(Q: nat, F: int, X: real)
    requires X == 2.0 * Q as real
    ensures F as real * X == 2.0 * (Q * F) as real
  {
    assert (Q * F) as real == Q as real * F as real;
  }

  lemma UnitTimes(t: real, e: real)
    requires e == UNIT * t
    ensures e * 9007199254740992.0 == t
  {
  }

  /** Back to integers: nothing but multiples of 2^53 is left. */
  lemma Integral(QF: int, p: nat, Q: nat, FX: real, X: real, yX: real, e: real)
    requires FX == 2.0 * QF as real && X == 2.0 * Q as real && e * 9007199254740992.0 == 10.0 * p as real + Q as real
    requires yX == (2 * p + Q) as real && FX <= yX + e && yX - e <= FX + X
    ensures -0x20_0000_0000_0000 * Q - (10 * p + Q) <= 2 * 0x20_0000_0000_0000 * (QF - p)
    ensures 2 * 0x20_0000_0000_0000 * (QF - p) <= 0x20_0000_0000_0000 * Q + (10 * p + Q)
  {
  }

  lemma Halved(d: int, p: nat, q: nat, Q: nat, P: nat)
    requires q > 0 && Q > 0 && P == q * Q && p <= P
    requires -0x20_0000_0000_0000 * Q - (10 * p + Q) <= 2 * 0x20_0000_0000_0000 * d
    requires 2 * 0x20_0000_0000_0000 * d <= 0x20_0000_0000_0000 * Q + (10 * p + Q)
    ensures Abs(d) <= Q / 2 + Slack(q, Q)
  {
    MulLe(1, q, Q);
    AboveSlack(P);
    HalvedBound(d, Q, P, 6 * P / 0x20_0000_0000_0000 + 1);
  }

  lemma AboveSlack(P: nat)
    ensures 6 * P < 0x20_0000_0000_0000 * (6 * P / 0x20_0000_0000_0000 + 1)
  {
    var k, r := DivMod(6 * P, 0x20_0000_0000_0000);
  }

  lemma HalvedBound(d: int, Q: nat, P: nat, slack: nat)
    requires 6 * P < 0x20_0000_0000_0000 * slack
    requires -0x20_0000_0000_0000 * Q - 11 * P <= 2 * 0x20_0000_0000_0000 * d <= 0x20_0000_0000_0000 * Q + 11 * P
    ensures Abs(d) <= Q / 2 + slack
  {
  }

  // ---------- a whole ciphertext ----------

  /** out is what modulus switching in double precision may make of ct. */
  ghost predicate MaySwitch(out: Ct, ct: Ct, q: nat, Q: nat)
    requires q > 0 && Q > 0
  {
    && |out.a| == |ct.a| && MayRound(out.b, ct.b, q, Q)
    && forall i {:trigger out.a[i]} :: 0 <= i < |out.a| ==> MayRound(out.a[i], ct.a[i], q, Q)
  }

  /** The phase is scaled by q/Q up to half a unit and the slack per entry, modulo q * Q, for all moduli. */
  lemma MaySwitchPhase(out: Ct, ct: Ct, s: Poly, h: nat, q: nat, Q: nat, M: nat)
    requires q > 0 && Q > 0 && M == q * Q && M > 0 && h == Q / 2 + Slack(q, Q) && |ct.a| == |s| && Bounded(s, 1)
    requires MaySwitch(out, ct, q, Q) && Reduced(ct.a, Q) && ct.b < Q
    ensures |out.a| == |s| && Near(Q * Phase(out, s), q * Phase(ct, s), Multiple(|s|, h) + h, M)
  {
    forall i {:trigger out.a[i]} | 0 <= i < |out.a|
      ensures Near(Q * out.a[i], q * ct.a[i], h, M)
    {
      assert MayRound(out.a[i], ct.a[i], q, Q);
      DoublesNear(out.a[i], ct.a[i], q, Q, M);
    }
    DoublesNear(out.b, ct.b, q, Q, M);
    RoundedPhase(out, ct, s, h, q, Q, M);
  }

  /** Where rounding is exact, only the exact result is possible. */
  lemma MaySwitchExactly(out: Ct, ct: Ct, q: nat, Q: nat)
    requires q > 0 && Q % 2 == 1 && 16 * (q * Q) <= 0x20_0000_0000_0000 && Reduced(ct.a, Q) && ct.b < Q
    ensures MaySwitch(out, ct, q, Q) <==> out == ModSwitchValue(ct, q, Q)
  {
    forall i, r: int {:trigger MayRound(r, ct.a[i], q, Q)} | 0 <= i < |ct.a|
      ensures MayRound(r, ct.a[i], q, Q) <==> r == RoundqQ(ct.a[i], q, Q)
    {
      DoublesRoundExactly(r, ct.a[i], q, Q);
    }
    DoublesRoundExactly(out.b, ct.b, q, Q);
    DoublesRoundExactly(RoundqQ(ct.b, q, Q), ct.b, q, Q);
    if MaySwitch(out, ct, q, Q) {
      assert out.a == RoundAll(ct.a, q, Q);
    }
  }
}
