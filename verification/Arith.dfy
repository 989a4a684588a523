/** Powers of two over the naturals and over the reals, and the few facts about
    division that the word-level arithmetic of the other modules rests on. */
module Arith {

  /** 2^e, the weight of bit e. */
  function Pow2(e: nat): (p: nat)
    ensures p > 0
  {
    if e == 0 then 1 else 2 * Pow2(e - 1)
  }

  /** 2^e for any integer e. */
  ghost function Exp2(e: int): (p: real)
    ensures p > 0.0
  {
    if e >= 0 then Pow2(e) as real else 1.0 / Pow2(-e) as real
  }

  /** a shifted left by s places. */
  function Shl(a: nat, s: nat): nat { a * Pow2(s) }

  function Quotient(a: nat, d: nat): (q: nat)
    requires d > 0
    ensures q == a / d
  {
    a / d
  }

  function Min(a: int, b: int): int { if a < b then a else b }

  lemma {:induction false} Pow2Add(a: nat, b: nat)
    ensures Pow2(a + b) == Pow2(a) * Pow2(b)
    decreases a
  {
    if a == 0 {
    } else {
      Pow2Add(a - 1, b);
      assert Pow2(a + b) == 2 * Pow2(a - 1 + b);
      assert Pow2(a) * Pow2(b) == 2 * (Pow2(a - 1) * Pow2(b));
    }
  }

  lemma {:induction false} Pow2Mono(a: nat, b: nat)
    requires a <= b
    ensures Pow2(a) <= Pow2(b)
    ensures a < b ==> 2 * Pow2(a) <= Pow2(b)
    decreases b
  {
    if a < b { Pow2Mono(a, b - 1); }
  }

  lemma {:induction false} Pow2Above(a: nat)
    ensures a < Pow2(a)
  {
    if a > 0 { Pow2Above(a - 1); }
  }

  lemma Exp2Nat(e: nat)
    ensures Exp2(e) == Pow2(e) as real
  {
  }

  lemma Exp2Succ(e: int)
    ensures Exp2(e + 1) == 2.0 * Exp2(e)
  {
    if e < 0 { InverseDouble(Pow2(-e - 1)); }
  }

  lemma PowZero()
    ensures Pow2(0) == 1
  {
  }

  lemma TwicePow(m: nat)
    ensures Pow2(m + 1) == 2 * Pow2(m)
  {
  }

  lemma Pow2Even(e: nat)
    requires e > 0
    ensures Pow2(e) % 2 == 0
  {
  }

  lemma ShlIs(k: nat, s: nat)
    ensures Shl(k, s) == k * Pow2(s)
  {
  }

  lemma InverseDouble(p: nat)
    requires p > 0
    ensures 1.0 / p as real == 2.0 * (1.0 / (2 * p) as real)
  {
  }

  lemma {:induction false} Exp2Add(a: int, b: int)
    ensures Exp2(a + b) == Exp2(a) * Exp2(b)
    decreases if a < 0 then -a else a
  {
    hide Exp2;
    Exp2Nat(0);
    if a == 0 {
    } else if a > 0 {
      Exp2Add(a - 1, b);
      Exp2Succ(a - 1 + b);
      Exp2Succ(a - 1);
      RDouble(Exp2(a - 1), Exp2(a), Exp2(b), Exp2(a - 1 + b));
    } else {
      Exp2Add(a + 1, b);
      Exp2Succ(a + b);
      Exp2Succ(a);
      RHalve(Exp2(a + 1), Exp2(a), Exp2(b), Exp2(a + 1 + b));
    }
  }

  lemma RDouble(x: real, x2: real, y: real, p: real)
    requires x2 == 2.0 * x && p == x * y
    ensures x2 * y == 2.0 * p
  {
  }

  lemma RHalve(x2: real, x: real, y: real, p: real)
    requires x2 == 2.0 * x && p == x2 * y
    ensures x * y == p / 2.0
  {
  }

  lemma Exp2Scale(s: nat, k: int)
    ensures Exp2(s + k) == Pow2(s) as real * Exp2(k)
  {
    hide Exp2;
    Exp2Nat(s);
    Exp2Add(s, k);
  }

  /** 2^a as the integer 2^(a-b) times 2^b. */
  lemma Exp2Split(a: int, b: int)
    requires a >= b
    ensures Exp2(a) == Pow2(a - b) as real * Exp2(b)
  {
    hide Exp2;
    Exp2Scale(a - b, b);
  }

  lemma Pow2Shift(e: nat, k: int)
    requires e + k >= 0
    ensures Pow2(e + k) as real == Pow2(e) as real * Exp2(k)
  {
    hide Exp2;
    Exp2Nat(e + k);
    Exp2Scale(e, k);
  }

  lemma Regrouped(x: real, p: real, c: real, pc: real)
    requires pc == p * c
    ensures (x * p) * c == x * pc
  {
  }

  lemma RealProduct(a: int, b: int)
    ensures (a * b) as real == a as real * b as real
  {
  }

  /** Two digits in front of a rest, read in either grouping. */
  lemma DigitsRegrouped(a: int, k: int, b: int, m: int, c: int)
    ensures (a * k + b) * m + c == a * (k * m) + (b * m + c)
  {
  }

  lemma EvenPlus(a: int, k: int)
    requires a % 2 == 0
    ensures (a + k) % 2 == k % 2
  {
  }

  lemma EvenMultiple(q: int, half: nat)
    requires half % 2 == 0
    ensures q * half % 2 == 0
  {
    Even(q, half / 2);
    assert half == 2 * (half / 2);
  }

  lemma Even(q: int, k: int)
    ensures q * (2 * k) == 2 * (q * k)
  {
  }

  lemma DivGrows(a: nat, b: nat, d: nat)
    requires d > 0 && a <= b
    ensures a / d <= b / d
  {
    var q, r := a / d, b / d;
    if r < q { MulLe(r + 1, q, d); MulDist(r, 1, d); }
  }

  /** Quotient and remainder are the only pair of their kind. */
  lemma DivUnique(n: int, d: int, q: int, r: int)
    requires d > 0 && n == q * d + r && 0 <= r < d
    ensures n / d == q && n % d == r
  {
    var q' := n / d;
    MulDist(q', -q, d);
    if q' != q { MulLe(1, if q' > q then q' - q else q - q', d); }
  }

  lemma MulDist(a: int, b: int, c: int)
    ensures (a + b) * c == a * c + b * c
  {
  }

  lemma MulLe(a: int, b: int, c: int)
    requires a <= b && 0 <= c
    ensures a * c <= b * c
  {
  }

  lemma MulLt(a: int, b: int, c: int)
    requires a < b && 0 < c
    ensures a * c < b * c
  {
  }

  lemma RMulLe(a: real, b: real, c: real)
    requires a <= b && 0.0 <= c
    ensures a * c <= b * c
  {
  }

  lemma RMulLt(a: real, b: real, c: real)
    requires a < b && 0.0 < c
    ensures a * c < b * c
  {
  }
}
