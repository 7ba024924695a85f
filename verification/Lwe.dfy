/**
 The LWE scheme: encryption and decryption with 64-bit words, modulus switching, key
 switching. A ciphertext (a, b) is judged by its phase b - <a, s>.
 */
module Lwe {
  import opened Arith
  import opened Poly
  import opened Negacyclic
  import opened Params

  datatype Ct = Ct(a: seq<nat>, b: nat)

  datatype PrivateKey = PrivateKey(element: seq<nat>, modulus: nat)

  type SwitchKey = seq<seq<seq<Ct>>>

  /** Ciphertexts are shared objects that never change; gates tell operands apart by identity. */
  class LWECiphertext {
    const a: seq<nat>
    const b: nat

    constructor (a: seq<nat>, b: nat)
      ensures this.a == a && this.b == b
    {
      this.a, this.b := a, b;
    }

    function Value(): Ct {
      Ct(a, b)
    }
  }

  function Phase(ct: Ct, s: Poly): int
    requires |ct.a| == |s|
  {
    ct.b - Inner(ct.a, s)
  }

  lemma PhaseCong(ct: Ct, s: Poly, s': Poly, q: int)
    requires q > 0 && |ct.a| == |s| == |s'| && Eqv(s, s', q)
    ensures Cong(Phase(ct, s), Phase(ct, s'), q)
  {
    EqvIntro(ct.a, ct.a, q);
    InnerEqv(ct.a, ct.a, s, s', q);
    CongSub(ct.b, ct.b, Inner(ct.a, s), Inner(ct.a, s'), q);
  }

  // ---------- words ----------

  const WORD_SIZE: nat := 0x1_0000_0000_0000_0000

  function Word(x: int): nat {
    x % WORD_SIZE
  }

  /** x * y modulo q. */
  function ModMul(x: nat, y: nat, q: nat): nat
    requires q > 0
  {
    Remainder(x * y, q)
  }

  lemma ModMulIs(x: nat, y: nat, q: nat)
    requires q > 0
    ensures Cong(ModMul(x, y, q), x * y, q) && ModMul(x, y, q) < q
  {
    RemainderIs(x * y, q);
    CongMod(x * y, q);
  }

  /** The products of corresponding entries, each reduced modulo q. */
  function Products(a: seq<nat>, s: seq<nat>, q: nat): (r: seq<nat>)
    requires q > 0 && |a| == |s|
    ensures |r| == |a| && forall i {:trigger r[i]} :: 0 <= i < |a| ==> r[i] == ModMul(a[i], s[i], q)
  {
    seq(|a|, i requires 0 <= i < |a| => ModMul(a[i], s[i], q))
  }

  function Sum(p: seq<nat>, i: nat): nat
    requires i <= |p|
  {
    if i == 0 then 0 else Sum(p, i - 1) + p[i - 1]
  }

  lemma {:induction false} ProductSumPrefix(a: seq<nat>, s: seq<nat>, q: nat, i: nat)
    requires q > 0 && i <= |a| == |s|
    ensures Cong(Sum(Products(a, s, q), i), Inner(a[..i], s[..i]), q)
  {
    if i > 0 {
      var x, y, p := a[i - 1], s[i - 1], Products(a, s, q);
      ProductSumPrefix(a, s, q, i - 1);
      assert a[..i] == a[..i - 1] + [x] && s[..i] == s[..i - 1] + [y];
      InnerSnoc(a[..i - 1], x, s[..i - 1], y);
      ModMulIs(x, y, q);
      CongAdd(Sum(p, i - 1), Inner(a[..i - 1], s[..i - 1]), p[i - 1], x * y, q);
    }
  }

  lemma ProductSumInner(a: seq<nat>, s: seq<nat>, q: nat)
    requires q > 0 && |a| == |s|
    ensures Cong(Sum(Products(a, s, q), |a|), Inner(a, s), q)
  {
    ProductSumPrefix(a, s, q, |a|);
    assert a[..|a|] == a && s[..|s|] == s;
  }

  lemma {:induction false} SumBound(p: seq<nat>, i: nat, x: nat)
    requires i <= |p| && forall l {:trigger p[l]} :: 0 <= l < |p| ==> p[l] <= x
    ensures Sum(p, i) <= Multiple(i, x)
  {
    if i > 0 {
      SumBound(p, i - 1, x);
    }
  }

  lemma ProductSumBound(a: seq<nat>, s: seq<nat>, q: nat)
    requires q > 0 && |a| == |s|
    ensures Sum(Products(a, s, q), |a|) <= Multiple(|a|, q - 1)
  {
    var p := Products(a, s, q);
    forall l {:trigger p[l]} | 0 <= l < |p|
      ensures p[l] <= q - 1
    {
      ModMulIs(a[l], s[l], q);
    }
    SumBound(p, |a|, q - 1);
  }

  /** The deferred reduction: the products are added up in one machine word. */
  function Accumulated(b: nat, p: seq<nat>, i: nat): nat
    requires i <= |p|
  {
    if i == 0 then b else Word(Accumulated(b, p, i - 1) + p[i - 1])
  }

  /** The other branch: the sum is reduced modulo q in every step. */
  function EveryStep(b: nat, p: seq<nat>, q: nat, i: nat): nat
    requires q > 0 && i <= |p|
  {
    if i == 0 then b else Remainder(EveryStep(b, p, q, i - 1) + p[i - 1], q)
  }

  lemma AddModulo(reduced: int, t: int, x: int, sum: int, q: nat)
    requires q > 0 && reduced == t % q && sum == t + x
    ensures (reduced + x) % q == sum % q
  {
    CongMod(t, q);
    CongAdd(reduced, t, x, x, q);
  }

  lemma {:induction false} AccumulatedIs(b: nat, p: seq<nat>, i: nat)
    requires i <= |p| && b < WORD_SIZE
    ensures Accumulated(b, p, i) == Word(b + Sum(p, i))
  {
    if i == 0 {
      ModIntro(b, 0, b, WORD_SIZE);
    } else {
      AccumulatedIs(b, p, i - 1);
      AddModulo(Accumulated(b, p, i - 1), b + Sum(p, i - 1), p[i - 1], b + Sum(p, i), WORD_SIZE);
    }
  }

  lemma {:induction false} EveryStepIs(b: nat, p: seq<nat>, q: nat, i: nat)
    requires q > 0 && i <= |p| && b < q
    ensures EveryStep(b, p, q, i) == Remainder(b + Sum(p, i), q)
  {
    if i > 0 {
      EveryStepIs(b, p, q, i - 1);
      RemainderStep(EveryStep(b, p, q, i - 1), b + Sum(p, i - 1), p[i - 1], b + Sum(p, i), q);
    }
  }

  lemma RemainderStep(reduced: nat, t: nat, x: nat, sum: nat, q: nat)
    requires q > 0 && reduced == Remainder(t, q) && sum == t + x
    ensures Remainder(reduced + x, q) == Remainder(sum, q)
  {
    RemainderIs(t, q);
    RemainderIs(reduced + x, q);
    RemainderIs(sum, q);
    AddModulo(reduced, t, x, sum, q);
  }

  /** No wrap-around is possible, or none that matters. */
  predicate WordsFit(b: nat, n: nat, q: nat)
    requires q > 0
  {
    WORD_SIZE % q == 0 || b + Multiple(n, q - 1) < WORD_SIZE
  }

  lemma WordModulo(x: nat, q: nat)
    requires q > 0 && (WORD_SIZE % q == 0 || x < WORD_SIZE)
    ensures Cong(Word(x), x, q)
  {
    if x < WORD_SIZE {
      ModIntro(x, 0, x, WORD_SIZE);
    } else {
      var k, r := DivMod(x, WORD_SIZE);
      var c, z := DivMod(WORD_SIZE, q);
      assert r == x + (-(k * c)) * q by {
        assert k * WORD_SIZE == (k * c) * q;
      }
      CongFrom(r, x, -(k * c), q);
    }
  }

  lemma AccumulatedSum(b: nat, p: seq<nat>, n: nat, q: nat)
    requires q > 0 && b < WORD_SIZE && n <= |p| && Sum(p, n) <= Multiple(n, q - 1) && WordsFit(b, n, q)
    ensures Cong(Accumulated(b, p, n), b + Sum(p, n), q)
  {
    AccumulatedIs(b, p, n);
    WordModulo(b + Sum(p, n), q);
  }

  /** For dimension n both branches of key-switch generation compute the same b from all inputs. */
  ghost predicate Deferrable(n: nat, Q: nat)
    requires Q > 0
  {
    forall b: nat, a: seq<nat>, s: seq<nat> {:trigger Accumulated(b, Products(a, s, Q), n)} ::
      b < Q && |a| == |s| == n && Reduced(a, Q) && Reduced(s, Q) ==>
        Accumulated(b, Products(a, s, Q), n) % Q == EveryStep(b, Products(a, s, Q), Q, n)
  }

  /** Exactly when the largest possible sum fits a word, unless Q divides the word size. */
  lemma DeferredIff(n: nat, Q: nat)
    requires 1 < Q < WORD_SIZE
    ensures Deferrable(n, Q) <==> WORD_SIZE % Q == 0 || (n + 1) * (Q - 1) < WORD_SIZE
  {
    MultipleIs(n, Q - 1);
    assert (n + 1) * (Q - 1) == n * (Q - 1) + (Q - 1);
    if WordsFit(Q - 1, n, Q) {
      forall b: nat, a: seq<nat>, s: seq<nat> {:trigger Accumulated(b, Products(a, s, Q), n)}
        | b < Q && |a| == |s| == n && Reduced(a, Q) && Reduced(s, Q)
        ensures Accumulated(b, Products(a, s, Q), n) % Q == EveryStep(b, Products(a, s, Q), Q, n)
      {
        ProductSumBound(a, s, Q);
        DeferredAgrees(b, Products(a, s, Q), n, Q);
      }
    } else {
      var a, s := DeferredWitness(n, Q);
      assert Accumulated(Q - 1, Products(a, s, Q), n) % Q != EveryStep(Q - 1, Products(a, s, Q), Q, n);
    }
  }

  lemma DeferredAgrees(b: nat, p: seq<nat>, n: nat, Q: nat)
    requires 0 < Q < WORD_SIZE && b < Q && n == |p| && WordsFit(Q - 1, n, Q) && Sum(p, n) <= Multiple(n, Q - 1)
    ensures Accumulated(b, p, n) % Q == EveryStep(b, p, Q, n)
  {
    AccumulatedSum(b, p, n, Q);
    EveryStepIs(b, p, Q, n);
    RemainderIs(b + Sum(p, n), Q);
  }

  /** The largest products, just as many of them as make the sum wrap once. */
  lemma DeferredWitness(n: nat, Q: nat) returns (a: seq<nat>, s: seq<nat>)
    requires 1 < Q < WORD_SIZE && !WordsFit(Q - 1, n, Q)
    ensures |a| == |s| == n && Reduced(a, Q) && Reduced(s, Q)
    ensures Accumulated(Q - 1, Products(a, s, Q), n) % Q != EveryStep(Q - 1, Products(a, s, Q), Q, n)
  {
    var k := FirstWrap(Q - 1, n, Q - 1);
    a, s := LargestVectors(n, k, Q);
    WrapsOnce(Products(a, s, Q), Q, Sum(Products(a, s, Q), n));
  }

  /** Vectors whose first k products are as large as possible, and the others 0. */
  lemma LargestVectors(n: nat, k: nat, Q: nat) returns (a: seq<nat>, s: seq<nat>)
    requires k <= n && 1 < Q
    ensures |a| == |s| == n && Reduced(a, Q) && Reduced(s, Q) && Sum(Products(a, s, Q), n) == Multiple(k, Q - 1)
  {
    a, s := seq(n, i requires 0 <= i < n => if i < k then Q - 1 else 0), seq(n, i => 1);
    var p := Products(a, s, Q);
    forall l {:trigger p[l]} | 0 <= l < n
      ensures p[l] == if l < k then Q - 1 else 0
    {
      assert a[l] * s[l] == a[l];
      ModIntro(a[l], 0, a[l], Q);
    }
    LargestSum(p, Q - 1, k, n);
  }

  lemma WrapsOnce(p: seq<nat>, Q: nat, sum: nat)
    requires 1 < Q < WORD_SIZE && WORD_SIZE % Q != 0 && sum == Sum(p, |p|)
    requires WORD_SIZE <= Q - 1 + sum < 2 * WORD_SIZE
    ensures Accumulated(Q - 1, p, |p|) % Q != EveryStep(Q - 1, p, Q, |p|)
  {
    AccumulatedIs(Q - 1, p, |p|);
    EveryStepIs(Q - 1, p, Q, |p|);
    RemainderIs(Q - 1 + sum, Q);
    ModIntro(Q - 1 + sum, 1, Q - 1 + sum - WORD_SIZE, WORD_SIZE);
    WrapShows(Q - 1 + sum, Q);
  }

  lemma WrapShows(t: int, Q: nat)
    requires Q > 0 && WORD_SIZE % Q != 0
    ensures (t - WORD_SIZE) % Q != t % Q
  {
    if Cong(t - WORD_SIZE, t, Q) {
      CongSub(t, t, t - WORD_SIZE, t, Q);
      CongFrom(0, t - t, 0, Q);
    }
  }

  /** The least number of summands x with which a sum that starts with b no longer fits a word. */
  lemma {:induction false} FirstWrap(b: nat, n: nat, x: nat) returns (k: nat)
    requires b + Multiple(n, x) >= WORD_SIZE
    ensures k <= n && WORD_SIZE <= b + Multiple(k, x) && (k > 0 ==> b + Multiple(k, x) < WORD_SIZE + x)
  {
    if n > 0 && b + Multiple(n - 1, x) >= WORD_SIZE {
      k := FirstWrap(b, n - 1, x);
    } else {
      k := n;
    }
  }

  lemma {:induction false} LargestSum(p: seq<nat>, x: nat, k: nat, i: nat)
    requires i <= |p| && forall l {:trigger p[l]} :: 0 <= l < |p| ==> p[l] == if l < k then x else 0
    ensures Sum(p, i) == Multiple(if i < k then i else k, x)
  {
    if i > 0 {
      LargestSum(p, x, k, i - 1);
    }
  }

  // ---------- encryption and decryption ----------

  /** The phase that encryption promises. */
  function Promised(m: int, e: nat, q: nat): int {
    TruncMod(m, 4) * (q / 4) + e
  }

  /** The message counts modulo 4, with the sign that C's remainder gives it. */
  lemma PromisedIs(m: int, e: nat, q: nat, r: int)
    requires IsRemainder(r, m, 4)
    ensures Promised(m, e, q) == r * (q / 4) + e
  {
    TruncModIff(m, r, 4);
  }

  /** The sum that encryption would compute without wrap-around, before its reduction modulo q. */
  function Total(m: int, e: nat, a: seq<nat>, s: seq<nat>, q: nat): int
    requires q > 0 && |a| == |s|
  {
    Promised(m, e, q) + Sum(Products(a, s, q), |a|)
  }

  /** What wrap-around takes off a sum. */
  function TakenOff(total: int): int {
    WORD_SIZE * (total / WORD_SIZE)
  }

  /** It is a multiple of q. */
  predicate WrapHarmless(total: int, q: nat)
    requires q > 0
  {
    TakenOff(total) % q == 0
  }

  /** The rest is congruent to the sum without it. */
  lemma WordIs(total: int)
    ensures Word(total) == total - TakenOff(total)
  {
    var k, r := DivMod(total, WORD_SIZE);
    assert WORD_SIZE * k == k * WORD_SIZE;
  }

  /** Classical encryption; the uniform vector and the error, reduced modulo q, are given. */
  method Encrypt(sk: PrivateKey, m: int, a: seq<nat>, e: nat) returns (ct: LWECiphertext)
    requires sk.modulus > 0 && |a| == |sk.element| && e < sk.modulus
    ensures fresh(ct) && ct.a == a && ct.b < sk.modulus
    ensures Cong(Phase(ct.Value(), sk.element),
                 Promised(m, e, sk.modulus) - TakenOff(Total(m, e, a, sk.element, sk.modulus)), sk.modulus)
    ensures Cong(Phase(ct.Value(), sk.element), Promised(m, e, sk.modulus), sk.modulus)
            <==> WrapHarmless(Total(m, e, a, sk.element, sk.modulus), sk.modulus)
    ensures MessageFits(m, |a|, sk.modulus) ==>
        Cong(Phase(ct.Value(), sk.element), Promised(m, e, sk.modulus), sk.modulus)
  {
    var b := MaskedMessage(sk.element, sk.modulus, m, a, e);
    ct := new LWECiphertext(a, b);
    OffBy(Phase(Ct(a, b), sk.element), Promised(m, e, sk.modulus), TakenOff(Total(m, e, a, sk.element, sk.modulus)),
          sk.modulus);
    if MessageFits(m, |a|, sk.modulus) {
      HarmlessWhen(m, e, a, sk.element, sk.modulus);
    }
  }

  /** The loop that adds the products of two vectors to a machine word. */
  method AddProducts(b0: nat, a: seq<nat>, s: seq<nat>, q: nat) returns (b: nat)
    requires q > 0 && |a| == |s|
    ensures b == Accumulated(b0, Products(a, s, q), |a|)
  {
    b := b0;
    for i := 0 to |a|
      invariant b == Accumulated(b0, Products(a, s, q), i)
    {
      b := Word(b + ModMul(a[i], s[i], q));
    }
  }

  method MaskedMessage(s: seq<nat>, q: nat, m: int, a: seq<nat>, e: nat) returns (b: nat)
    requires q > 0 && |a| == |s|
    ensures b < q
    ensures Cong(Phase(Ct(a, b), s), Promised(m, e, q) - TakenOff(Total(m, e, a, s, q)), q)
  {
    var start := StartWord(TruncMod(m, 4), e, q / 4);
    var sum := AddProducts(start, a, s, q);
    ModNat(sum, q);
    b := sum % q;
    EncryptedPhase(start, b, m, a, e, s, q);
  }

  lemma ModNat(x: int, q: nat)
    requires q > 0
    ensures 0 <= x % q < q
  {
  }

  /** The encoded message plus the error in one machine word; a negative t wraps. */
  function StartWord(t: int, e: nat, f: nat): nat {
    Word(Word(Word(t) * f) + e)
  }

  lemma StartWordIs(t: int, e: nat, f: nat)
    ensures StartWord(t, e, f) < WORD_SIZE && Cong(StartWord(t, e, f), t * f + e, WORD_SIZE)
  {
    CongMod(t, WORD_SIZE);
    CongMulL(f, Word(t), t, WORD_SIZE);
    assert f * Word(t) == Word(t) * f && f * t == t * f;
    CongMod(Word(t) * f, WORD_SIZE);
    CongAdd(Word(Word(t) * f), t * f, e, e, WORD_SIZE);
    CongMod(Word(Word(t) * f) + e, WORD_SIZE);
  }

  lemma EncryptedPhase(b0: nat, b: nat, m: int, a: seq<nat>, e: nat, s: seq<nat>, q: nat)
    requires q > 0 && |a| == |s| && b0 == StartWord(TruncMod(m, 4), e, q / 4)
    requires b == Accumulated(b0, Products(a, s, q), |a|) % q
    ensures Cong(Phase(Ct(a, b), s), Promised(m, e, q) - TakenOff(Total(m, e, a, s, q)), q)
  {
    var sum := Sum(Products(a, s, q), |a|);
    StartWordIs(TruncMod(m, 4), e, q / 4);
    AccumulatedIs(b0, Products(a, s, q), |a|);
    CongAdd(b0, Promised(m, e, q), sum, sum, WORD_SIZE);
    ProductSumInner(a, s, q);
    WrappedPhase(b, Total(m, e, a, s, q), Promised(m, e, q), sum, Inner(a, s), q);
  }

  /** A wrapped sum is off by a multiple of the word size. */
  lemma WrappedPhase(b: nat, total: int, x: int, sum: int, inner: int, q: nat)
    requires q > 0 && b == Word(total) % q && total == x + sum && Cong(sum, inner, q)
    ensures Cong(b - inner, x - TakenOff(total), q)
  {
    WordIs(total);
    CongMod(Word(total), q);
    CongSub(b, Word(total), inner, sum, q);
  }

  lemma OffBy(y: int, x: int, d: int, q: nat)
    requires q > 0 && Cong(y, x - d, q)
    ensures Cong(y, x, q) <==> d % q == 0
  {
    var k := CongWitness(y, x - d, q);
    if Cong(y, x, q) {
      var l := CongWitness(y, x, q);
      MulSum(k, -l, q);
      ModIntro(d, k - l, 0, q);
    }
    if d % q == 0 {
      var c, r := DivMod(d, q);
      MulSum(k, -c, q);
      CongFrom(y, x, k - c, q);
    }
  }

  /** For dimension n, every error and every vector, encryption gives message m the promised phase. */
  ghost predicate AlwaysHarmless(m: int, n: nat, q: nat)
    requires q > 0
  {
    forall e: nat, a: seq<nat>, s: seq<nat> {:trigger Total(m, e, a, s, q)} ::
      e < q && |a| == |s| == n && Reduced(a, q) && Reduced(s, q) ==> WrapHarmless(Total(m, e, a, s, q), q)
  }

  /** The message is encoded by a nonnegative number and even the largest sum fits a word, unless q divides its size. */
  predicate MessageFits(m: int, n: nat, q: nat)
    requires q > 0
  {
    WORD_SIZE % q == 0 || (Promised(m, 0, q) >= 0 && Promised(m, 0, q) + (n + 1) * (q - 1) < WORD_SIZE)
  }

  /** Which messages encryption gets right, whatever it samples: for any modulus below the word size. */
  lemma AlwaysHarmlessIff(m: int, n: nat, q: nat)
    requires 1 < q < WORD_SIZE
    ensures AlwaysHarmless(m, n, q) <==> MessageFits(m, n, q)
  {
    if MessageFits(m, n, q) {
      forall e: nat, a: seq<nat>, s: seq<nat> {:trigger Total(m, e, a, s, q)}
        | e < q && |a| == |s| == n && Reduced(a, q) && Reduced(s, q)
        ensures WrapHarmless(Total(m, e, a, s, q), q)
      {
        HarmlessWhen(m, e, a, s, q);
      }
    } else {
      var e, a, s := HarmfulInput(m, n, q);
      assert !WrapHarmless(Total(m, e, a, s, q), q);
    }
  }

  /** No harm whenever the message fits. */
  lemma HarmlessWhen(m: int, e: nat, a: seq<nat>, s: seq<nat>, q: nat)
    requires 0 < q && |a| == |s| && e < q && MessageFits(m, |a|, q)
    ensures WrapHarmless(Total(m, e, a, s, q), q)
  {
    if WORD_SIZE % q == 0 {
      MultipleHarmless(Total(m, e, a, s, q), q);
    } else {
      ProductSumBound(a, s, q);
      LargestTotal(|a|, q);
      SmallHarmless(Total(m, e, a, s, q), q);
    }
  }

  lemma LargestTotal(n: nat, q: nat)
    requires q > 0
    ensures (n + 1) * (q - 1) == q - 1 + Multiple(n, q - 1)
  {
    MultipleIs(n, q - 1);
    MulSum(n, 1, q - 1);
  }

  /** An error and vectors that go wrong: no masks for a negative number, else as many as make the sum wrap once. */
  lemma HarmfulInput(m: int, n: nat, q: nat) returns (e: nat, a: seq<nat>, s: seq<nat>)
    requires 1 < q < WORD_SIZE && !MessageFits(m, n, q)
    ensures e < q && |a| == |s| == n && Reduced(a, q) && Reduced(s, q) && !WrapHarmless(Total(m, e, a, s, q), q)
  {
    PromisedRange(m, q);
    if Promised(m, 0, q) < 0 {
      e := 0;
      a, s := LargestVectors(n, 0, q);
      HarmfulWrap(Promised(m, 0, q), -1, q);
    } else {
      e := q - 1;
      LargestTotal(n, q);
      var k := FirstWrap(Promised(m, e, q), n, q - 1);
      a, s := LargestVectors(n, k, q);
      HarmfulWrap(Total(m, e, a, s, q), 1, q);
    }
  }

  lemma PromisedRange(m: int, q: nat)
    requires q > 0
    ensures 0 - q < Promised(m, 0, q) < q && (m >= 0 ==> Promised(m, 0, q) >= 0)
    ensures m < 0 && m % 4 != 0 && q >= 4 ==> Promised(m, 0, q) < 0
  {
    var t, f := TruncMod(m, 4), q / 4;
    assert -3 <= t <= 3 && (m >= 0 ==> t >= 0) && (m < 0 && m % 4 != 0 ==> t <= -1);
    MulLe(-3, t, f);
    MulLe(t, 3, f);
    if t >= 0 {
      MulLe(0, t, f);
    }
    if t <= -1 {
      MulLe(t, -1, f);
    }
  }

  /** A sum that leaves the word by one word size in either direction does harm. */
  lemma HarmfulWrap(total: int, k: int, q: nat)
    requires q > 0 && WORD_SIZE % q != 0 && (k == 1 || k == -1) && k * WORD_SIZE <= total < (k + 1) * WORD_SIZE
    ensures !WrapHarmless(total, q)
  {
    ModIntro(total, k, total - k * WORD_SIZE, WORD_SIZE);
    if (WORD_SIZE * k) % q == 0 {
      CongFrom(0, 0, 0, q);
      CongMulL(k, WORD_SIZE * k, 0, q);
    }
  }

  /** Fitting words are enough for messages that are not negative. */
  lemma WordsFitMessage(m: int, n: nat, q: nat)
    requires q > 0 && m >= 0 && WordsFit(2 * q, n, q)
    ensures MessageFits(m, n, q)
  {
    PromisedRange(m, q);
    LargestTotal(n, q);
  }

  lemma MultipleHarmless(total: int, q: nat)
    requires q > 0 && WORD_SIZE % q == 0
    ensures WrapHarmless(total, q)
  {
    var c, r := DivMod(WORD_SIZE, q);
    var k := total / WORD_SIZE;
    assert (c * q) * k == (c * k) * q;
    ModIntro(WORD_SIZE * k, c * k, 0, q);
  }

  lemma SmallHarmless(total: int, q: nat)
    requires q > 0 && 0 <= total < WORD_SIZE
    ensures WrapHarmless(total, q)
  {
    ModIntro(total, 0, total, WORD_SIZE);
    ModIntro(0, 0, 0, q);
  }

  /** Negative messages go wrong in every dimension unless 4 divides them or q divides the word size. */
  lemma NegativeMessageFails(m: int, n: nat, q: nat)
    requires m < 0 && m % 4 != 0 && 4 <= q < WORD_SIZE && WORD_SIZE % q != 0
    ensures !AlwaysHarmless(m, n, q)
  {
    PromisedRange(m, q);
    AlwaysHarmlessIff(m, n, q);
  }

  /** For example -1 modulo 17, without any error or mask. */
  lemma MinusOneFails(n: nat)
    ensures !WrapHarmless(Total(-1, 0, Zero(n), Zero(n), 17), 17)
  {
    var p := Products(Zero(n), Zero(n), 17);
    forall l {:trigger p[l]} | 0 <= l < n
      ensures p[l] == 0
    {
      ModIntro(0, 0, 0, 17);
    }
    LargestSum(p, 0, 0, n);
    HarmfulWrap(-4, -1, 17);
  }

  /** The value that decryption reads off a phase. */
  function Decode(x: int, q: nat): nat
    requires q > 0
  {
    4 * ((x + q / 8) % q) / q
  }

  /** It is a quarter number below 4, for any modulus. */
  lemma DecodeIff4(x: int, q: nat, m: nat)
    requires q > 0
    ensures Decode(x, q) == m <==> m * q <= 4 * ((x + q / 8) % q) < m * q + q
    ensures Decode(x, q) < 4
  {
    ModNat(x + q / 8, q);
    DecodeAt((x + q / 8) % q, q, m);
    DecodeAt((x + q / 8) % q, q, Decode(x, q));
    MulCancel(Decode(x, q), 4, q);
  }

  lemma DecodeCong(x: int, y: int, q: nat)
    requires q > 0 && Cong(x, y, q)
    ensures Decode(x, q) == Decode(y, q)
  {
    CongAdd(x, y, q / 8, q / 8, q);
  }

  method Decrypt(sk: PrivateKey, ct: LWECiphertext) returns (result: nat)
    requires 0 < sk.modulus <= WORD_SIZE / 4 && |ct.a| == |sk.element| && ct.b < sk.modulus
    ensures result == Decode(Phase(ct.Value(), sk.element)
                             + TakenOff(Sum(Products(ct.a, sk.element, sk.modulus), |ct.a|)), sk.modulus)
    ensures WordsFit(0, |ct.a|, sk.modulus) ==> result == Decode(Phase(ct.Value(), sk.element), sk.modulus)
  {
    var q, s := sk.modulus, sk.element;
    var sum := AddProducts(0, ct.a, s, q);
    var inner := sum % q;
    var r := (ct.b - inner) % q;
    r := (r + q / 8) % q;
    var scaled := Word(4 * r);
    DivNat(scaled, q);
    result := scaled / q;
    DecryptedPhase(ct.Value(), s, q, sum, inner);
    ModIntro(4 * r, 0, 4 * r, WORD_SIZE);
    if WordsFit(0, |ct.a|, q) {
      NothingLost(Phase(ct.Value(), s), ct.a, s, q);
    }
  }

  lemma NothingLost(phase: int, a: seq<nat>, s: seq<nat>, q: nat)
    requires q > 0 && |a| == |s| && WordsFit(0, |a|, q)
    ensures Decode(phase + TakenOff(Sum(Products(a, s, q), |a|)), q) == Decode(phase, q)
  {
    ProductSumBound(a, s, q);
    HarmlessDecode(phase, Sum(Products(a, s, q), |a|), |a|, q);
  }

  lemma HarmlessDecode(phase: int, sum: nat, n: nat, q: nat)
    requires q > 0 && sum <= Multiple(n, q - 1) && WordsFit(0, n, q)
    ensures Decode(phase + TakenOff(sum), q) == Decode(phase, q)
  {
    if WORD_SIZE % q == 0 {
      MultipleHarmless(sum, q);
    } else {
      SmallHarmless(sum, q);
    }
    HarmlessSum(phase, TakenOff(sum), q);
  }

  lemma HarmlessSum(phase: int, d: int, q: nat)
    requires q > 0 && d % q == 0
    ensures Decode(phase + d, q) == Decode(phase, q)
  {
    var k, r := DivMod(d, q);
    CongFrom(phase + d, phase, k, q);
    DecodeCong(phase + d, phase, q);
  }

  lemma DivNat(x: nat, q: nat)
    requires q > 0
    ensures x / q >= 0
  {
    var k, r := DivMod(x, q);
  }

  lemma DecryptedPhase(ct: Ct, s: seq<nat>, q: nat, sum: nat, inner: nat)
    requires q > 0 && |ct.a| == |s|
    requires sum == Accumulated(0, Products(ct.a, s, q), |ct.a|) && inner == sum % q
    ensures ((ct.b - inner) % q + q / 8) % q
         == (Phase(ct, s) + TakenOff(Sum(Products(ct.a, s, q), |ct.a|)) + q / 8) % q
  {
    var total := Sum(Products(ct.a, s, q), |ct.a|);
    AccumulatedIs(0, Products(ct.a, s, q), |ct.a|);
    WordIs(total);
    CongMod(sum, q);
    ProductSumInner(ct.a, s, q);
    CongSub(total, Inner(ct.a, s), TakenOff(total), TakenOff(total), q);
    Rounded(ct.b, inner, Inner(ct.a, s) - TakenOff(total), Phase(ct, s) + TakenOff(total), q / 8, q);
  }

  lemma Rounded(b: int, inner: int, inner': int, phase: int, c: int, q: nat)
    requires q > 0 && Cong(inner, inner', q) && phase == b - inner'
    ensures ((b - inner) % q + c) % q == (phase + c) % q
  {
    CongSub(b, b, inner, inner', q);
    CongMod(b - inner, q);
    CongAdd((b - inner) % q, phase, c, c, q);
  }

  /** The errors that message m tolerates; the bounds differ with m unless 8 divides q. */
  predicate DecodeWindow(m: nat, q: nat, e: int) {
    m * (q % 4) <= 4 * (e + q / 8) < q + m * (q % 4)
  }

  /** Decryption returns the message for precisely the errors in its window, for any modulus. */
  lemma DecodeIff(m: nat, q: nat, e: int)
    requires m < 4 && q >= 8 && 0 - q <= 2 * e < q
    ensures Decode(m * (q / 4) + e, q) == m <==> DecodeWindow(m, q, e)
  {
    UpToThree(m, q / 4);
    UpToThree(m, q % 4);
    UpToThree(m, q);
    var y := m * (q / 4) + e + q / 8;
    var w := if y < 0 then y + q else if y < q then y else y - q;
    ModIntro(y, if y < 0 then -1 else if y < q then 0 else 1, w, q);
    DecodeAt(w, q, m);
  }

  lemma UpToThree(m: nat, x: int)
    requires m < 4
    ensures m * x == if m == 0 then 0 else if m == 1 then x else if m == 2 then x + x else x + x + x
  {
  }

  lemma DecodeAt(w: nat, q: nat, m: nat)
    requires q > 0
    ensures 4 * w / q == m <==> m * q <= 4 * w < m * q + q
  {
    var k, r := DivMod(4 * w, q);
    if m * q <= 4 * w < m * q + q {
      ModIntro(4 * w, m, 4 * w - m * q, q);
    }
  }

  lemma EvenWindow(m: nat, q: nat, e: int)
    requires m < 4
    ensures q % 8 == 0 ==> (DecodeWindow(m, q, e) <==> -(q / 8) <= e < q / 8)
  {
  }

  /** A ciphertext whose phase is m * (q/4) + e decrypts to m if and only if e lies in the window. */
  lemma LweRoundTrip(ct: Ct, s: Poly, m: nat, q: nat, e: int)
    requires |ct.a| == |s| && m < 4 && q >= 8 && 0 - q <= 2 * e < q
    requires Cong(Phase(ct, s), m * (q / 4) + e, q)
    ensures Decode(Phase(ct, s), q) == m <==> DecodeWindow(m, q, e)
    ensures q % 8 == 0 ==> (DecodeWindow(m, q, e) <==> -(q / 8) <= e < q / 8)
  {
    EvenWindow(m, q, e);
    CongAdd(Phase(ct, s), m * (q / 4) + e, q / 8, q / 8, q);
    DecodeIff(m, q, e);
  }

  /** The signed error that a residue stands for. */
  function CentredError(e: nat, q: nat): int {
    if 2 * e < q then e else e - q
  }

  /** Encryption followed by decryption gives the message back for precisely the errors in its window. */
  method EncryptDecrypt(sk: PrivateKey, m: nat, a: seq<nat>, e: nat) returns (result: nat)
    requires 8 <= sk.modulus <= WORD_SIZE / 4 && |a| == |sk.element| && m < 4 && e < sk.modulus
             && MessageFits(m, |a|, sk.modulus)
    ensures result == m <==> DecodeWindow(m, sk.modulus, CentredError(e, sk.modulus))
    ensures sk.modulus % 8 == 0 ==>
        (result == m <==> -(sk.modulus / 8) <= CentredError(e, sk.modulus) < sk.modulus / 8)
  {
    var q := sk.modulus;
    var ct := Encrypt(sk, m, a, e);
    PromisedRange(m, q);
    LargestTotal(|a|, q);
    result := Decrypt(sk, ct);
    assert TruncMod(m, 4) == m;
    CongFrom(m * (q / 4) + e, m * (q / 4) + CentredError(e, q), if 2 * e < q then 0 else 1, q);
    LweRoundTrip(ct.Value(), sk.element, m, q, CentredError(e, q));
  }

  /** The embedding of a constant; b is not reduced. */
  method NoiselessEmbedding(params: LWECryptoParams, m: int) returns (ct: LWECiphertext)
    ensures fresh(ct) && |ct.a| == params.n && (forall i {:trigger ct.a[i]} :: 0 <= i < params.n ==> ct.a[i] == 0)
    ensures ct.b == Word(Word(m) * (params.q / 4))
  {
    var a := [];
    for i := 0 to params.n
      invariant |a| == i && forall l {:trigger a[l]} :: 0 <= l < i ==> a[l] == 0
    {
      a := a + [0];
    }
    ct := new LWECiphertext(a, Word(Word(m) * (params.q / 4)));
  }

  lemma {:induction false} ZeroInner(a: Poly, s: Poly)
    requires |a| == |s| && forall i {:trigger a[i]} :: 0 <= i < |a| ==> a[i] == 0
    ensures Inner(a, s) == 0
    decreases |a|
  {
    if a != [] {
      ZeroInner(a[1..], s[1..]);
    }
  }
}
