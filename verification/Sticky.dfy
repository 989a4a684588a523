/** Sticky mantissas.  The routines of softfp_template.h never keep an exact result: whatever
    falls off the end of a mantissa is folded into its lowest bit.  The mantissa then only
    tells in which half of a rounding step the exact result lies, and that is all that
    rounding needs.  This module says so precisely and shows that shifting keeps it true. */
module Sticky {
  import opened Arith

  /** The mantissa m stands for the exact value x as far as steps of size 2 * half can tell:
      either it is exact, or both lie strictly inside the same half step. */
  ghost predicate StandsFor(m: nat, x: real, half: nat)
    requires half > 0
  {
    x == m as real ||
    (m % half != 0 && (m / half * half) as real < x < (m / half * half + half) as real)
  }

  /** m is x rounded to odd: the integer itself, or else the odd one of its two neighbours. */
  ghost predicate IsOddRounding(m: nat, x: real) {
    x == m as real || (m % 2 == 1 && (m - 1) as real < x < (m + 1) as real)
  }

  /** `m | bit` for a one-bit operand. */
  function OrBit(m: nat, bit: bool): nat {
    if bit && m % 2 == 0 then m + 1 else m
  }

  /** m divided by p, whatever is lost being folded into the lowest bit. */
  function StickyDiv(m: nat, p: nat): nat
    requires p > 0
  {
    OrBit(Quotient(m, p), m % p != 0)
  }

  lemma OddStandsFor(m: nat, x: real, half: nat)
    requires IsOddRounding(m, x) && half > 0 && half % 2 == 0
    ensures StandsFor(m, x, half)
  {
    if x != m as real {
      EvenMultiple(m / half, half);
      OddInside(m, x, m / half * half, m % half, half);
    }
  }

  lemma OddInside(m: nat, x: real, lo: int, r: nat, half: nat)
    requires half % 2 == 0 && lo % 2 == 0 && m == lo + r && r < half
    requires m % 2 == 1 && (m - 1) as real < x < (m + 1) as real
    ensures r != 0 && lo as real < x < (lo + half) as real
  {
  }

  /** Folding the remainder of a division into the lowest bit is an odd rounding of the quotient. */
  lemma QuotientIsOddRounding(n: nat, d: nat, x: real)
    requires d > 0 && x * d as real == n as real
    ensures IsOddRounding(StickyDiv(n, d), x)
  {
    var q, r := n / d, n % d;
    assert n == q * d + r;
    CancelLe(q, x, d, r);
  }

  lemma CancelLe(q: int, x: real, d: nat, r: nat)
    requires 0 <= r < d && x * d as real == (q * d + r) as real
    ensures if r == 0 then x == q as real else q as real < x < (q + 1) as real
  {
    var c := d as real;
    MulDist(q, 1, d);
    RealProduct(q, d);
    RealProduct(q + 1, d);
    RCancel(q as real, x, c);
    RCancel(x, (q + 1) as real, c);
  }

  lemma RCancel(a: real, b: real, c: real)
    requires c > 0.0
    ensures a * c < b * c <==> a < b
    ensures a * c == b * c <==> a == b
  {
    if a < b { RMulLt(a, b, c); }
    if b < a { RMulLt(b, a, c); }
  }

  /** A coarser step can be told from the same mantissa. */
  lemma Coarsen(m: nat, x: real, half: nat, c: nat)
    requires half > 0 && c > 0 && half * c > 0 && StandsFor(m, x, half)
    ensures StandsFor(m, x, half * c)
  {
    if x != m as real { CoarserStep(m / half, m % half, half, c, m, half * c); }
  }

  lemma CoarserStep(q: nat, r: nat, half: nat, c: nat, m: nat, hc: nat)
    requires half > 0 && c > 0 && hc == half * c && hc > 0 && m == q * half + r && 0 < r < half
    ensures m % hc != 0
    ensures m / hc * hc <= q * half && q * half + half <= m / hc * hc + hc
  {
    var q2, r2 := q / c, q % c;
    Regroup(q2, c, r2, half);
    MulDist(r2, 1, half);
    MulLe(r2 + 1, c, half);
    MulLe(0, r2, half);
    DivUnique(m, hc, q2, r2 * half + r);
  }

  lemma Regroup(q: int, c: int, r: int, h: int)
    ensures (q * c + r) * h == q * (h * c) + r * h
  {
  }

  /** Shifting left scales the step along. */
  lemma ScaleUp(m: nat, x: real, half: nat, c: nat, mc: nat, xc: real, hc: nat)
    requires half > 0 && c > 0 && hc > 0 && StandsFor(m, x, half)
    requires mc == m * c && xc == x * c as real && hc == half * c
    ensures StandsFor(mc, xc, hc)
  {
    if x != m as real {
      ScaledStep(m / half, m % half, half, c, m, x, mc, hc);
    } else {
      RealProduct(m, c);
    }
  }

  lemma ScaledStep(q: nat, r: nat, half: nat, c: nat, m: nat, x: real, mc: nat, hc: nat)
    requires half > 0 && c > 0 && hc == half * c && hc > 0 && m == q * half + r && 0 < r < half && mc == m * c
    requires (q * half) as real < x < (q * half + half) as real
    ensures mc % hc != 0 && (mc / hc * hc) as real < x * c as real < (mc / hc * hc + hc) as real
  {
    Regroup2(q, half, r, c);
    MulLt(r, half, c);
    MulLt(0, r, c);
    DivUnique(mc, hc, q, r * c);
    Regroup2(q, half, half, c);
    Regroup2(q, half, 0, c);
    var lo, hi := q * half, q * half + half;
    RMulLt(lo as real, x, c as real);
    RMulLt(x, hi as real, c as real);
  }

  lemma Regroup2(q: int, h: int, r: int, c: int)
    ensures (q * h + r) * c == q * (h * c) + r * c
  {
  }

  /** Shifting right by d places with the lost bits folded in, as rshift_rnd does. */
  lemma ShiftDown(m: nat, x: real, half: nat, p: nat, hp: nat, y: real)
    requires half > 0 && half % 2 == 0 && p > 0 && hp == half * p && hp > 0
    requires StandsFor(m, x, hp) && y * p as real == x
    ensures StandsFor(StickyDiv(m, p), y, half)
  {
    hide StickyDiv, IsOddRounding;
    if x == m as real {
      QuotientIsOddRounding(m, p, y);
      OddStandsFor(StickyDiv(m, p), y, half);
    } else {
      ShiftInexact(m, x, half, p, m / hp, hp, y);
    }
  }

  lemma ShiftInexact(m: nat, x: real, half: nat, p: nat, h: nat, hp: nat, y: real)
    requires half > 0 && half % 2 == 0 && p > 0 && hp == half * p && y * p as real == x
    requires h * hp < m < h * hp + hp
    requires (h * hp) as real < x < (h * hp + hp) as real
    ensures StandsFor(StickyDiv(m, p), y, half)
  {
    var lo := h * half;
    Regroup2(h, half, 0, p);
    MulDist(lo, half, p);
    EvenMultiple(h, half);
    ShiftInside(m, x, lo, lo + half, p, y);
    DivUnique(StickyDiv(m, p), half, h, StickyDiv(m, p) - lo);
  }

  /** Inside even bounds, shifting with a sticky bit stays inside the shifted bounds. */
  lemma ShiftInside(m: nat, x: real, lo: int, hi: int, p: nat, y: real)
    requires p > 0 && lo % 2 == 0 && hi % 2 == 0
    requires lo * p < m < hi * p && (lo * p) as real < x < (hi * p) as real
    requires y * p as real == x
    ensures lo < StickyDiv(m, p) < hi && lo as real < y < hi as real
  {
    RCancel(lo as real, y, p as real);
    RCancel(y, hi as real, p as real);
    BetweenMultiples(lo, hi, m, p);
  }

  lemma BetweenMultiples(lo: int, hi: int, m: nat, p: nat)
    requires p > 0 && lo * p < m < hi * p
    ensures lo <= m / p < hi && (m / p == lo ==> m % p != 0)
  {
    var q := m / p;
    if q < lo { MulDist(q, 1, p); MulLe(q + 1, lo, p); }
    if q >= hi { MulLe(hi, q, p); }
  }
}
