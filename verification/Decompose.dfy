/**
 The signed digit decomposition: every coefficient modulo Q is centred and written with
 digits in [-B/2, B/2). The program takes each digit with two shifts of a machine word.
 */
module Decompose {
  import opened Arith
  import opened Poly

  // ---------- digits of one integer ----------

  /** The residue of d in [-B/2, B/2). */
  function Digit(d: int, base: nat): int
    requires base > 0
  {
    (d + base / 2) % base - base / 2
  }

  function Next(d: int, base: nat): int
    requires base > 0
  {
    (d - Digit(d, base)) / base
  }

  /** Digit number l of d. */
  function DigitAt(d: int, base: nat, l: nat): int
    requires base > 0
    decreases l
  {
    if l == 0 then Digit(d, base) else DigitAt(Next(d, base), base, l - 1)
  }

  /** What is left of d after l digits have been taken off. */
  function Carry(d: int, base: nat, l: nat): int
    requires base > 0
    decreases l
  {
    if l == 0 then d else Carry(Next(d, base), base, l - 1)
  }

  /** sum of the first l digits, each times its power of the base */
  function DigitSum(d: int, base: nat, l: nat): int
    requires base > 0
  {
    if l == 0 then 0 else DigitSum(d, base, l - 1) + DigitAt(d, base, l - 1) * Pow(base, l - 1)
  }

  lemma NextStep(d: int, base: nat)
    requires base > 0
    ensures d == Next(d, base) * base + Digit(d, base)
    ensures Next(d, base) == (d + base / 2) / base
    ensures -(base / 2) <= Digit(d, base) < base - base / 2
  {
    var k, r := DivMod(d + base / 2, base);
    assert d - Digit(d, base) == k * base + 0;
    ModIntro(d - Digit(d, base), k, 0, base);
  }

  lemma {:induction false} DigitRange(d: int, base: nat, l: nat)
    requires base > 0
    ensures -(base / 2) <= DigitAt(d, base, l) < base - base / 2
    decreases l
  {
    if l == 0 {
      NextStep(d, base);
    } else {
      DigitRange(Next(d, base), base, l - 1);
    }
  }

  lemma {:induction false} CarrySnoc(d: int, base: nat, l: nat)
    requires base > 0
    ensures Carry(d, base, l + 1) == Next(Carry(d, base, l), base)
    ensures DigitAt(d, base, l) == Digit(Carry(d, base, l), base)
    decreases l
  {
    if l > 0 {
      CarrySnoc(Next(d, base), base, l - 1);
    }
  }

  /** The digits and the carry determine d. */
  lemma {:induction false} Reconstruct(d: int, base: nat, l: nat)
    requires base > 0
    ensures d == DigitSum(d, base, l) + Carry(d, base, l) * Pow(base, l)
  {
    if l > 0 {
      var c, p := Carry(d, base, l - 1), Pow(base, l - 1);
      Reconstruct(d, base, l - 1);
      CarrySnoc(d, base, l - 1);
      NextStep(c, base);
      CarryOver(c, Next(c, base), base, Digit(c, base), p);
    }
  }

  lemma CarryOver(c: int, next: int, base: int, digit: int, p: int)
    requires c == next * base + digit
    ensures c * p == digit * p + next * (base * p)
  {
    assert c * p == (next * base) * p + digit * p;
    assert (next * base) * p == next * (base * p);
  }

  // ---------- when the carry vanishes ----------

  lemma {:induction false} PowEven(base: nat, l: nat)
    requires base % 2 == 0 && l >= 1
    ensures Pow(base, l) % 2 == 0
  {
    var h := base / 2;
    assert base * Pow(base, l - 1) == 2 * (h * Pow(base, l - 1));
  }

  lemma NextBounds(d: int, base: nat, half: int)
    requires base >= 2 && base % 2 == 0
    requires -(base * half) <= d <= base * half
    ensures -half <= Next(d, base) <= half
  {
    NextStep(d, base);
    var m, r := DivMod(d + base / 2, base);
    assert (half + 1) * base == base * half + base && (-half - 1) * base == -(base * half) - base;
    MulCancel(m, half + 1, base);
    MulCancel(-half - 1, m, base);
  }

  /** Values of size at most B^l / 2 leave a final carry of 0 or 1. */
  lemma {:induction false} CarryIsBit(d: int, base: nat, l: nat)
    requires base >= 2 && base % 2 == 0 && l >= 1
    requires 0 - Pow(base, l) <= 2 * d <= Pow(base, l)
    ensures 0 <= Carry(d, base, l) <= 1
    decreases l
  {
    if l == 1 {
      LastCarry(d, base);
    } else {
      PowEven(base, l - 1);
      var half := Pow(base, l - 1) / 2;
      assert base * Pow(base, l - 1) == 2 * (base * half);
      NextBounds(d, base, half);
      CarryIsBit(Next(d, base), base, l - 1);
    }
  }

  lemma LastCarry(d: int, base: nat)
    requires base >= 2 && base % 2 == 0 && 0 - base <= 2 * d <= base
    ensures Carry(d, base, 1) == Next(d, base) && 0 <= Next(d, base) <= 1
  {
    NextStep(d, base);
    var k, r := DivMod(d + base / 2, base);
    MulCancel(k, 2, base);
    MulCancel(-1, k, base);
  }

  /** The largest value that l digits of at most B/2 - 1 can represent. */
  function MaxDigits(base: nat, l: nat): int {
    if l == 0 then 0 else base * MaxDigits(base, l - 1) + (base / 2 - 1)
  }

  lemma {:induction false} MaxDigitsIs(base: nat, l: nat)
    requires base >= 2 && base % 2 == 0
    ensures 2 * (base - 1) * MaxDigits(base, l) == (base - 2) * (Pow(base, l) - 1)
  {
    if l > 0 {
      MaxDigitsIs(base, l - 1);
      MaxDigitsStep(base, base / 2, MaxDigits(base, l - 1), Pow(base, l - 1));
    } else {
      assert (base - 2) * (Pow(base, 0) - 1) == 0;
    }
  }

  lemma MaxDigitsStep(base: int, h: int, m: int, p: int)
    requires base == 2 * h && 2 * (base - 1) * m == (base - 2) * (p - 1)
    ensures 2 * (base - 1) * (base * m + (h - 1)) == (base - 2) * (base * p - 1)
  {
    calc {
      2 * (base - 1) * (base * m + (h - 1));
      2 * (base - 1) * (base * m) + 2 * (base - 1) * (h - 1);
      { assert 2 * (base - 1) * (base * m) == base * (2 * (base - 1) * m); }
      base * ((base - 2) * (p - 1)) + 2 * (base - 1) * (h - 1);
      { assert 2 * (base - 1) * (h - 1) == (base - 1) * (base - 2); }
      base * ((base - 2) * (p - 1)) + (base - 1) * (base - 2);
      { assert base * ((base - 2) * (p - 1)) == (base - 2) * (base * p - base); }
      (base - 2) * (base * p - base) + (base - 1) * (base - 2);
      { assert (base - 1) * (base - 2) == (base - 2) * (base - 1); }
      (base - 2) * (base * p - base) + (base - 2) * (base - 1);
      (base - 2) * (base * p - 1);
    }
  }

  lemma NextAbove(d: int, base: nat, x: int)
    requires base >= 2 && base % 2 == 0
    ensures Next(d, base) > x <==> d > base * x + (base / 2 - 1)
  {
    NextStep(d, base);
    var m, r := DivMod(d + base / 2, base);
    var h := base / 2;
    assert base == 2 * h && (x + 1) * base == base * x + base;
    MulCancel(x + 1, m, base);
    MulCancel(x, m, base);
    MulCancel(m, x + 1, base);
  }

  /** The decomposition is exact for precisely the values up to MaxDigits. */
  lemma {:induction false} CarryPositive(d: int, base: nat, l: nat)
    requires base >= 2 && base % 2 == 0
    ensures Carry(d, base, l) > 0 <==> d > MaxDigits(base, l)
    decreases l
  {
    if l > 0 {
      NextStep(d, base);
      CarryPositive(Next(d, base), base, l - 1);
      NextAbove(d, base, MaxDigits(base, l - 1));
    }
  }

  // ---------- centred coefficients modulo Q ----------

  /** The program's signed representative of a coefficient t in [0, Q). */
  function Centred(t: int, Q: nat): int {
    if t < Q / 2 then t else t - Q
  }

  /** Digits of a coefficient vector, as signed integers. */
  function DigitPoly(p: Poly, base: nat, l: nat, Q: nat): (r: Poly)
    requires base > 0
    ensures |r| == |p| && forall k {:trigger r[k]} :: 0 <= k < |p| ==> r[k] == DigitAt(Centred(p[k], Q), base, l)
  {
    seq(|p|, k requires 0 <= k < |p| => DigitAt(Centred(p[k], Q), base, l))
  }

  function CarryPoly(p: Poly, base: nat, l: nat, Q: nat): (r: Poly)
    requires base > 0
    ensures |r| == |p| && forall k {:trigger r[k]} :: 0 <= k < |p| ==> r[k] == Carry(Centred(p[k], Q), base, l)
  {
    seq(|p|, k requires 0 <= k < |p| => Carry(Centred(p[k], Q), base, l))
  }

  /** L digits suffice for Q: the smallest L with base^L >= Q, Q odd. */
  ghost predicate GadgetFits(base: nat, digits: nat, Q: nat) {
    base >= 2 && base % 2 == 0 && Q % 2 == 1 && Q > 1 && digits >= 1 && Q < Pow(base, digits)
  }

  /** No centred value modulo Q leaves a carry. */
  ghost predicate ExactGadget(base: nat, digits: nat, Q: nat) {
    (Q - 3) * (base - 1) <= (base - 2) * (Pow(base, digits) - 1)
  }

  lemma CentredBounds(t: int, base: nat, digits: nat, Q: nat)
    requires GadgetFits(base, digits, Q) && 0 <= t < Q
    ensures 0 - Pow(base, digits) <= 2 * Centred(t, Q) <= Pow(base, digits)
    ensures 2 * Centred(t, Q) <= Q - 3 || Centred(t, Q) <= -1
    ensures Cong(Centred(t, Q), t, Q)
  {
    if t >= Q / 2 {
      CongFrom(t - Q, t, -1, Q);
    }
  }

  /** For every centred coefficient the carry is 0 or 1. */
  lemma CarryBit(t: int, base: nat, digits: nat, Q: nat)
    requires GadgetFits(base, digits, Q) && 0 <= t < Q
    ensures 0 <= Carry(Centred(t, Q), base, digits) <= 1
  {
    CentredBounds(t, base, digits, Q);
    CarryIsBit(Centred(t, Q), base, digits);
  }

  /** The decomposition is exact for all coefficients if and only if the gadget inequality holds. */
  lemma ExactIff(base: nat, digits: nat, Q: nat)
    requires GadgetFits(base, digits, Q) && Q >= 3
    ensures ExactGadget(base, digits, Q) <==> forall t :: 0 <= t < Q ==> Carry(Centred(t, Q), base, digits) == 0
  {
    var x, top := MaxDigits(base, digits), (Q - 3) / 2;
    ExactIsTop(base, digits, Q, top);
    if ExactGadget(base, digits, Q) {
      forall t | 0 <= t < Q
        ensures Carry(Centred(t, Q), base, digits) == 0
      {
        CentredBounds(t, base, digits, Q);
        CarryBit(t, base, digits, Q);
        CarryPositive(Centred(t, Q), base, digits);
        MaxDigitsNonnegative(base, digits);
      }
    } else {
      CarryPositive(top, base, digits);
      assert Centred(top, Q) == top && Carry(Centred(top, Q), base, digits) > 0;
    }
  }

  lemma ExactIsTop(base: nat, digits: nat, Q: nat, top: int)
    requires base >= 2 && base % 2 == 0 && Q == 2 * top + 3
    ensures ExactGadget(base, digits, Q) <==> top <= MaxDigits(base, digits)
  {
    MaxDigitsIs(base, digits);
    TwiceLe(base - 1, top, MaxDigits(base, digits), Q - 3, (base - 2) * (Pow(base, digits) - 1));
  }

  lemma TwiceLe(c: int, top: int, x: int, twice: int, bound: int)
    requires c > 0 && twice == 2 * top && 2 * c * x == bound
    ensures twice * c <= bound <==> top <= x
  {
    MulCancel(top, x, c);
    assert twice * c == 2 * (top * c) && 2 * c * x == 2 * (x * c);
  }

  lemma {:induction false} MaxDigitsNonnegative(base: nat, l: nat)
    requires base >= 2
    ensures MaxDigits(base, l) >= 0
  {
    if l > 0 {
      MaxDigitsNonnegative(base, l - 1);
      MulLe(0, MaxDigits(base, l - 1), base);
    }
  }

  // ---------- the digit as the program computes it ----------

  /** The two's complement value of the low `bits` bits of x. */
  function SignedWord(x: int, bits: nat): int
    requires bits >= 1
  {
    (x + Pow2(bits - 1)) % Pow2(bits) - Pow2(bits - 1)
  }

  function ShiftLeft(x: int, k: nat, bits: nat): int
    requires bits >= 1
  {
    SignedWord(x * Pow2(k), bits)
  }

  function ShiftRight(x: int, k: nat): int {
    x / Pow2(k)
  }

  /** Shifting left and back right sign-extends the low g bits: it yields the digit base 2^g. */
  lemma ShiftsTakeDigit(d: int, g: nat, bits: nat)
    requires 1 <= g <= bits
    ensures ShiftRight(ShiftLeft(d, bits - g, bits), bits - g) == Digit(d, Pow2(g))
  {
    Pow2Add(bits - g, g);
    Pow2Add(bits - g, g - 1);
    ShiftedWord(d, bits, Pow2(bits - g), Pow2(g), Pow2(g - 1));
  }

  lemma ShiftedWord(d: int, bits: nat, k: nat, m: nat, h: nat)
    requires bits >= 1 && k >= 1 && m == 2 * h && h >= 1 && Pow2(bits) == k * m && Pow2(bits - 1) == k * h
    ensures SignedWord(d * k, bits) / k == Digit(d, m)
  {
    var c, r := DivMod(d + h, m);
    ShiftArithmetic(d, k, m, h, c, r);
    SignedWordIs(d * k, bits, c, k * r, k, m, r, h);
    ModIntro(k * r - k * h, r - h, 0, k);
  }

  lemma ShiftArithmetic(d: int, k: int, m: int, h: int, c: int, r: int)
    requires d + h == r + c * m
    ensures d * k + k * h == k * r + c * (k * m) && k * r - k * h == (r - h) * k + 0
  {
    assert k * (d + h) == k * r + k * (c * m);
    assert k * (c * m) == c * (k * m);
  }

  lemma SignedWordIs(x: int, bits: nat, c: int, kr: int, k: nat, m: nat, r: int, h: nat)
    requires bits >= 1 && Pow2(bits) == k * m && Pow2(bits - 1) == k * h && k >= 1
    requires 0 <= r < m && kr == k * r && x + k * h == kr + c * (k * m)
    ensures SignedWord(x, bits) == kr - k * h
  {
    MulLe(0, r, k);
    MulLe(r, m - 1, k);
    assert k * (m - 1) == k * m - k;
    ModIntro(x + k * h, c, kr, k * m);
  }
}
