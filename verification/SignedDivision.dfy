/** The division helpers of riscv_cpu_template.h: C division where it is defined, and the RISC-V
    results for a zero divisor and for the one quotient that does not fit. */
module SignedDivision {
  import opened Arith

  function Abs(x: int): nat { if x < 0 then -x else x }

  /** Half the number of words: the signed range is [-Half, Half). */
  function Half(size: nat): int
    requires size > 0
  {
    Pow2(size - 1)
  }

  predicate Fits(size: nat, x: int)
    requires size > 0
  {
    -Half(size) <= x < Half(size)
  }

  /** C's division, which truncates towards zero, and its remainder */
  function Truncated(a: int, b: int): int
    requires b != 0
  {
    var q: int := Quotient(Abs(a), Abs(b));
    if (a < 0) == (b < 0) then q else -q
  }

  /** div */
  function Div(size: nat, a: int, b: int): int
    requires size > 0
  {
    if b == 0 then -1 else if a == -Half(size) && b == -1 then a else Truncated(a, b)
  }

  /** rem */
  function Rem(size: nat, a: int, b: int): int
    requires size > 0
  {
    if b == 0 then a else if a == -Half(size) && b == -1 then 0 else a - Truncated(a, b) * b
  }

  lemma QuotientTimes(n: nat, d: nat, q: nat, p: nat)
    requires d > 0 && q == n / d && p == q * d
    ensures p <= n < p + d && q <= n && (d >= 2 && n > 0 ==> q < n)
  {
    if q > 0 {
      MulLe(1, d, q);
      if d >= 2 { MulLe(2, d, q); }
    }
  }

  lemma SignedTimes(a: int, b: int, q: int, p: int)
    requires p == q * Abs(b)
    ensures q * b == if b < 0 then -p else p
    ensures -q * b == if b < 0 then p else -p
  {
  }

  /** Truncating division: t quotient, tb its product with the divisor, r remainder */
  lemma TruncatedFacts(a: int, b: int, t: int, tb: int, r: int)
    requires b != 0 && t == Truncated(a, b) && tb == t * b && r == a - tb
    ensures Abs(r) < Abs(b) && Abs(r) <= Abs(a) && (r != 0 ==> (r < 0 <==> a < 0))
    ensures Abs(t) <= Abs(a) && (Abs(b) >= 2 && a != 0 ==> Abs(t) < Abs(a))
    ensures Abs(b) == 1 ==> t == if b < 0 then -a else a
  {
    var q: int := Quotient(Abs(a), Abs(b));
    var p := q * Abs(b);
    QuotientTimes(Abs(a), Abs(b), q, p);
    SignedTimes(a, b, q, p);
    hide Quotient;
  }

  /** Quotient and remainder fit; they satisfy the division identity, the remainder being smaller
      than the divisor and of the dividend's sign, unless the divisor is zero; the identity holds
      in words even where the quotient overflows. */
  lemma DivAndRem(size: nat, a: int, b: int)
    requires size > 1 && Fits(size, a) && Fits(size, b)
    ensures Fits(size, Div(size, a, b)) && Fits(size, Rem(size, a, b))
    ensures b == 0 ==> Div(size, a, b) == -1 && Rem(size, a, b) == a
    ensures b != 0 ==> Abs(Rem(size, a, b)) < Abs(b) && (Rem(size, a, b) != 0 ==> (Rem(size, a, b) < 0 <==> a < 0))
    ensures b != 0 && !(a == -Half(size) && b == -1) ==> Div(size, a, b) * b + Rem(size, a, b) == a
    ensures a == -Half(size) && b == -1 ==> Div(size, a, b) * b + Rem(size, a, b) == a + Pow2(size)
  {
    hide Pow2, Truncated, Half;
    var h := Half(size);
    HalfWord(size);
    if b != 0 && !(a == -h && b == -1) {
      var t := Truncated(a, b);
      var tb := t * b;
      TruncatedFacts(a, b, t, tb, a - tb);
    } else if b != 0 {
      assert a * -1 == -a;
    }
  }

  lemma HalfWord(size: nat)
    requires size > 1
    ensures Pow2(size) == 2 * Half(size) && Half(size) >= 2
  {
    assert Pow2(size - 1) == 2 * Pow2(size - 2);
  }
}
