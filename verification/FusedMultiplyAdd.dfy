/** fma_sf: the exact product in two words, the addend aligned beside it, one rounding. */
module FusedMultiplyAdd {
  import opened Arith
  import opened FloatFormat
  import opened Rounding
  import opened Sticky
  import opened Significand
  import opened Packing
  import opened Normalize
  import opened Operands
  import opened MultiWord
  import opened DoubleWord
  import Multiplication
  import Addition

  /** The sign of a fused multiply-add.  An exact zero is positive, unless product and addend
      are both negative or the rounding is downward (section 6.3). */
  ghost predicate FmaIsNegative(f: Format, a: nat, b: nat, c: nat, rm: RoundingMode)
    requires f.Valid()
  {
    var v := f.Value(a) * f.Value(b) + f.Value(c);
    var neg := f.Negative(a) != f.Negative(b);
    if v != 0.0 then v < 0.0 else if neg == f.Negative(c) then neg else rm == RDN
  }

  /** What the routine does when an operand is an infinity or a NaN. */
  predicate SpecialFma(f: Format, a: nat, b: nat, c: nat, r: nat, raised: Flags)
    requires f.Valid()
  {
    var neg := f.Negative(a) != f.Negative(b);
    if f.IsNaN(a) || f.IsNaN(b) || f.IsNaN(c) then
      r == f.QNaN() &&
      raised == (if f.IsSignalingNaN(a) || f.IsSignalingNaN(b) || f.IsSignalingNaN(c) then INVALID else NO_FLAGS)
    else if (!f.IsFinite(a) && IsZero(f, b)) || (!f.IsFinite(b) && IsZero(f, a)) then
      r == f.QNaN() && raised == INVALID
    else if f.IsFinite(a) && f.IsFinite(b) then
      r == f.Pack(f.Negative(c), f.Inf()) && raised == NO_FLAGS
    else if !f.IsFinite(c) && neg != f.Negative(c) then
      r == f.QNaN() && raised == INVALID
    else
      r == f.Pack(neg, f.Inf()) && raised == NO_FLAGS
  }

  // -----------------------------------------------------------------------------------------
  // Adding two double-word mantissas
  // -----------------------------------------------------------------------------------------

  /** Two words with their leading one at bit size - 3 of the upper one, standing at exponent
      exp for the value x in quanta. */
  ghost predicate IsAddend(f: Format, h: nat, l: nat, exp: int, x: real)
    requires f.Valid()
  {
    Pow2(f.size - 3) <= h < Pow2(f.size - 2) && l < Pow2(f.size) && l % 2 == 0 &&
    x == Join(f.size, h, l) as real * Exp2(exp - 1 - f.Rnd() - f.size)
  }

  lemma AddendRange(f: Format, h: nat, l: nat, exp: int, x: real)
    requires f.Valid() && IsAddend(f, h, l, exp, x)
    ensures f.size >= 16 && f.Rnd() >= 7 && h < Pow2(f.size - 2) && l < Pow2(f.size) && h < Pow2(f.size) && 0 < h
    ensures Pow2(2 * f.size - 3) <= Join(f.size, h, l) < Pow2(2 * f.size - 2)
    ensures Join(f.size, h, l) % 2 == 0
    ensures x == Join(f.size, h, l) as real * Exp2(exp - 1 - f.Rnd() - f.size)
  {
    hide *;
    AddendIs(f, h, l, exp, x);
    Pow2Mono(f.size - 2, f.size);
    JoinRange(f.size, h, l);
    JoinEven(f.size, h, l);
  }

  lemma JoinRange(size: nat, h: nat, l: nat)
    requires size >= 16 && Pow2(size - 3) <= h < Pow2(size - 2) && l < Pow2(size)
    ensures Pow2(2 * size - 3) <= Join(size, h, l) < Pow2(2 * size - 2)
  {
    hide *;
    Unfolded(size, h, l, 0);
    Pow2Add(size - 3, size);
    Pow2Add(size - 2, size);
    MulLe(Pow2(size - 3), h, Pow2(size));
    MulLe(h + 1, Pow2(size - 2), Pow2(size));
    MulDist(h, 1, Pow2(size));
  }

  lemma JoinEven(size: nat, h: nat, l: nat)
    requires size >= 1 && l % 2 == 0
    ensures Join(size, h, l) % 2 == 0
  {
    hide *;
    Unfolded(size, h, l, 0);
    Pow2Even(size);
    EvenMultiple(h, Pow2(size));
  }

  lemma AddendIs(f: Format, h: nat, l: nat, exp: int, x: real)
    requires f.Valid()
    ensures f.size >= 16 && f.Rnd() >= 7
    ensures IsAddend(f, h, l, exp, x) <==>
            Pow2(f.size - 3) <= h < Pow2(f.size - 2) && l < Pow2(f.size) && l % 2 == 0 &&
            x == Join(f.size, h, l) as real * Exp2(exp - 1 - f.Rnd() - f.size)
  {
    hide Exp2, Join;
    assert f.size >= 16 && f.Rnd() >= 7;
  }

  /** What the aligned smaller addend tells about the exact one, y = n / 2^d. */
  lemma AlignedStandsIn(size: nat, s1: nat, s0: nat, d: nat, n: nat, y: real, b: nat)
    requires size >= 16 && s1 < Pow2(size - 2) && s0 < Pow2(size) && n == Join(size, s1, s0) && 0 < s1
    requires n % 2 == 0 && n < Pow2(2 * size - 2) && y * Pow2(d) as real == n as real
    requires b == Aligned(size, s1, s0, d)
    ensures d <= 1 ==> y == b as real
    ensures d == 0 ==> b == n
    ensures d >= 1 ==> b < Pow2(2 * size - 3)
    ensures d >= 2 ==> b < Pow2(2 * size - 4)
    ensures 0.0 < y && (d >= 1 ==> y < Pow2(2 * size - 3) as real)
    ensures IsOddRounding(b, y) || (s0 != 0 && 0 < b < Pow2(size) && 0.0 < y < Pow2(size) as real)
  {
    hide *;
    AlignedIs(size, s1, s0, d);
    Unfolded(size, s1, s0, 0);
    MulLt(0, s1, Pow2(size));
    ExactBounds(size, n, d, y);
    if size < d < 2 * size {
      DroppedBits(size, s1, s0, d, n, y, b);
    } else {
      StickyDivIs(n, Pow2(d));
      QuotientIsOddRounding(n, Pow2(d), y);
      KeptBound(size, n, d, y, b);
    }
  }

  lemma ExactBounds(size: nat, n: nat, d: nat, y: real)
    requires size >= 16 && 0 < n < Pow2(2 * size - 2) && y * Pow2(d) as real == n as real
    ensures 0.0 < y && (d >= 1 ==> y < Pow2(2 * size - 3) as real)
    ensures d >= size ==> y < Pow2(size) as real
  {
    hide *;
    if y <= 0.0 { RMulLe(y, 0.0, Pow2(d) as real); }
    if d >= 1 {
      Pow2Mono(2 * size - 2, 2 * size - 3 + d);
      Pow2Add(2 * size - 3, d);
      BelowQuotient(y, Pow2(d), Pow2(2 * size - 3), n);
    }
    if d >= size {
      Pow2Mono(2 * size - 2, size + d);
      Pow2Add(size, d);
      BelowQuotient(y, Pow2(d), Pow2(size), n);
    }
  }

  lemma BelowQuotient(y: real, p: nat, b: nat, n: nat)
    requires p > 0 && y * p as real == n as real && n < b * p
    ensures y < b as real
  {
    assert (b * p) as real == b as real * p as real;
    if y >= b as real { RMulLe(b as real, y, p as real); }
  }

  lemma KeptBound(size: nat, n: nat, d: nat, y: real, b: nat)
    requires size >= 16 && n < Pow2(2 * size - 2) && n % 2 == 0 && b == StickyDiv(n, Pow2(d))
    requires y * Pow2(d) as real == n as real
    ensures d >= 1 ==> b < Pow2(2 * size - 3)
    ensures d >= 2 ==> b < Pow2(2 * size - 4)
    ensures d <= 1 ==> y == b as real
    ensures d == 0 ==> b == n
  {
    hide *;
    FewPowers(d);
    if d >= 1 { Pow2Mono(2 * size - 2, 2 * size - 3 + d); }
    if d >= 2 { Pow2Mono(2 * size - 2, 2 * size - 4 + d); }
    if d >= 1 { StickyBelow(n, d, 2 * size - 3, b); }
    if d >= 2 { StickyBelow(n, d, 2 * size - 4, b); }
    if d <= 1 { HalfOrWhole(n, Pow2(d), y, b); }
  }

  lemma FewPowers(d: nat)
    ensures d == 0 ==> Pow2(d) == 1
    ensures d == 1 ==> Pow2(d) == 2
  {
  }

  lemma HalfOrWhole(n: nat, p: nat, y: real, b: nat)
    requires n % 2 == 0 && (p == 1 || p == 2) && b == StickyDiv(n, p) && y * p as real == n as real
    ensures y == b as real && (p == 1 ==> b == n)
  {
  }

  /** An odd rounding of a quotient stays below an even bound. */
  lemma StickyBelow(n: nat, d: nat, e: nat, b: nat)
    requires e >= 1 && n < Pow2(e + d) && b == StickyDiv(n, Pow2(d))
    ensures b < Pow2(e)
  {
    hide *;
    Pow2Add(e, d);
    Pow2Even(e);
    StickyDivIs(n, Pow2(d));
    QuotientRange2(n, Pow2(d), Pow2(e));
    OrBitBelow(Quotient(n, Pow2(d)), n % Pow2(d) != 0, Pow2(e));
  }

  /** The lower word is dropped: harmless, for it is zero or the upper word keeps the mantissa
      strictly inside the same rounding step. */
  lemma DroppedBits(size: nat, s1: nat, s0: nat, d: nat, n: nat, y: real, b: nat)
    requires size >= 16 && size < d < 2 * size && 0 < s1 < Pow2(size - 2) && s0 < Pow2(size)
    requires n == s1 * Pow2(size) + s0 && y * Pow2(d) as real == n as real
    requires 0.0 < y < Pow2(size) as real
    requires b == StickyDiv(s1, Pow2(d - size))
    ensures b < Pow2(2 * size - 3) && b < Pow2(2 * size - 4)
    ensures IsOddRounding(b, y) || (s0 != 0 && 0 < b < Pow2(size) && 0.0 < y < Pow2(size) as real)
  {
    hide *;
    Pow2Mono(size - 2, size);
    Pow2Mono(size, 2 * size - 4);
    Pow2Mono(size, 2 * size - 3);
    StickyDivBound(s1, Pow2(d - size), Pow2(size));
    StickyPositive(s1, Pow2(d - size));
    if s0 == 0 {
      Pow2Add(d - size, size);
      CancelWord(y, s1, Pow2(d - size), Pow2(size), Pow2(d), n);
      QuotientIsOddRounding(s1, Pow2(d - size), y);
    }
  }

  lemma StickyPositive(m: nat, p: nat)
    requires p > 0 && m > 0
    ensures StickyDiv(m, p) > 0
  {
    assert m == m / p * p + m % p;
  }

  lemma CancelWord(y: real, s1: nat, p: nat, w: nat, pw: nat, n: nat)
    requires w > 0 && pw == p * w && n == s1 * w && y * pw as real == n as real
    ensures y * p as real == s1 as real
  {
    var yp := y * p as real;
    assert yp * w as real == y * pw as real;
    assert s1 as real * w as real == n as real;
    RCancel(yp, s1 as real, w as real);
  }

  /** Sum or difference with the aligned addend. */
  lemma SumNormalizable2(f: Format, n: nat, b: nat, y: real, d: nat, same: bool, m: nat, t: real, exactLow: bool)
    requires f.Valid() && f.size >= 16 && Pow2(2 * f.size - 3) <= n < Pow2(2 * f.size - 2) && n % 2 == 0
    requires d <= 1 ==> y == b as real
    requires d == 0 ==> b <= n
    requires d >= 1 ==> b < Pow2(2 * f.size - 3)
    requires d >= 2 ==> b < Pow2(2 * f.size - 4)
    requires 0.0 < y && (d >= 1 ==> y < Pow2(2 * f.size - 3) as real)
    requires IsOddRounding(b, y) || (!exactLow && 0 < b < Pow2(f.size) && 0.0 < y < Pow2(f.size) as real)
    requires !exactLow ==> n % Pow2(f.size + f.Rnd() - 3) == 0
    requires b <= n && m == (if same then n + b else n - b)
    requires t == if same then n as real + y else n as real - y
    ensures Normalizable2(f, m, t) && t >= 0.0 && y <= n as real && (m == 0 <==> t == 0.0)
  {
    hide *;
    SizeRoom(f);
    if d <= 1 {
      ExactNormalizable2(f, m, t);
    } else {
      SumStandsFor(n, b, y, same, m, t, Pow2(f.size), Pow2(f.size + f.Rnd() - 3));
      InexactNormalizable2(f, m, t);
      SumPositive(n, b, y, same, m, t, Pow2(2 * f.size - 3), Pow2(2 * f.size - 4));
    }
  }

  lemma SumPositive(n: nat, b: nat, y: real, same: bool, m: nat, t: real, high: nat, low: nat)
    requires high <= n && high == 2 * low && b < low && 0.0 < y < high as real && low > 0
    requires m == (if same then n + b else n - b) && t == if same then n as real + y else n as real - y
    ensures m > 0 && t > 0.0 && y <= n as real
  {
  }

  lemma SumStandsFor(n: nat, b: nat, y: real, same: bool, m: nat, t: real, word: nat, half: nat)
    requires 0 < word <= half && half % 2 == 0 && n % 2 == 0 && b <= n && m == (if same then n + b else n - b)
    requires t == if same then n as real + y else n as real - y
    requires IsOddRounding(b, y) || (n % half == 0 && 0 < b < word && 0.0 < y < word as real)
    ensures StandsFor(m, t, half)
  {
    hide *;
    if IsOddRounding(b, y) {
      EvenPlusOdd2(n, b, y, same, m, t);
      OddStandsFor(m, t, half);
    } else {
      InsideStep(n, b, y, same, m, t, half, Quotient(n, half));
    }
  }

  lemma SizeRoom(f: Format)
    requires f.Valid() && f.size >= 16
    ensures f.Rnd() >= 7 && Pow2(2 * f.size - 3) == 2 * Pow2(2 * f.size - 4)
    ensures Pow2(2 * f.size - 2) == 2 * Pow2(2 * f.size - 3) && Pow2(2 * f.size - 1) == 2 * Pow2(2 * f.size - 2)
    ensures Pow2(f.size) <= Pow2(f.size + f.Rnd() - 3) && Pow2(f.size + f.Rnd() - 3) % 2 == 0
  {
    Pow2Mono(f.size, f.size + f.Rnd() - 3);
  }

  lemma ExactNormalizable2(f: Format, m: nat, t: real)
    requires f.Valid() && t == m as real && m < Pow2(2 * f.size - 1)
    ensures Normalizable2(f, m, t)
  {
  }

  lemma InexactNormalizable2(f: Format, m: nat, t: real)
    requires f.Valid() && t >= 0.0 && Pow2(2 * f.size - 4) <= m < Pow2(2 * f.size - 1)
    requires f.size + f.Rnd() >= 3 && StandsFor(m, t, Pow2(f.size + f.Rnd() - 3))
    ensures Normalizable2(f, m, t)
  {
  }

  lemma EvenPlusOdd2(n: nat, b: nat, y: real, same: bool, m: nat, t: real)
    requires n % 2 == 0 && b <= n && IsOddRounding(b, y) && m == (if same then n + b else n - b)
    requires t == if same then n as real + y else n as real - y
    ensures IsOddRounding(m, t)
  {
  }

  /** Just above or just below a multiple of the step, both stay inside the neighbouring step. */
  lemma InsideStep(n: nat, b: nat, y: real, same: bool, m: nat, t: real, half: nat, q: int)
    requires half > 0 && n % half == 0 && q == n / half && 0 < b < half && b <= n && 0.0 < y < half as real
    requires m == (if same then n + b else n - b)
    requires t == if same then n as real + y else n as real - y
    ensures StandsFor(m, t, half)
  {
    assert n == q * half;
    MulDist(q, -1, half);
    MulDist(q, 1, half);
    if same {
      DivUnique(m, half, q, b);
    } else {
      DivUnique(m, half, q - 1, half - b);
    }
  }

  /** The value of the sum, in quanta. */
  lemma SumPlaced(f: Format, e1: int, e2: int, n: nat, s: nat, y: real, u: real, v: real, same: bool, t: real, xm: real)
    requires f.Valid() && e1 >= e2
    requires u == n as real * Exp2(e1 - 1 - f.Rnd() - f.size) && v == s as real * Exp2(e2 - 1 - f.Rnd() - f.size)
    requires y * Pow2(e1 - e2) as real == s as real && xm * Pow2(f.size) as real == t
    requires t == if same then n as real + y else n as real - y
    ensures Placed(f, e1, xm) == if same then u + v else u - v
    ensures u == n as real * Exp2(e1 - 1 - f.Rnd() - f.size) && v == y * Exp2(e1 - 1 - f.Rnd() - f.size)
  {
    hide *;
    var c := Exp2(e1 - 1 - f.Rnd() - f.size);
    PlacedIs(f, e1, xm);
    Exp2Scale(f.size, e1 - 1 - f.Rnd() - f.size);
    Exp2Scale(e1 - e2, e2 - 1 - f.Rnd() - f.size);
    Reassociate(xm, Pow2(f.size) as real, c, t, Exp2(e1 - 1 - f.Rnd()));
    Reassociate(y, Pow2(e1 - e2) as real, Exp2(e2 - 1 - f.Rnd() - f.size), s as real, c);
    RDist(n as real, y, c);
    RDist(n as real, -y, c);
    Negated(y, c);
  }

  lemma Negated(y: real, c: real)
    ensures (-y) * c == -(y * c)
  {
  }

  lemma Reassociate(x: real, p: real, c: real, t: real, pc: real)
    requires x * p == t && pc == p * c
    ensures t * c == x * pc
  {
  }

  lemma ScaledCompare(n: real, y: real, c: real, u: real, v: real)
    requires c > 0.0 && u == n * c && v == y * c && 0.0 <= y <= n
    ensures 0.0 <= v <= u && (n - y == 0.0 <==> u - v == 0.0) && (n + y == 0.0 <==> u + v == 0.0)
  {
    RMulLe(y, n, c);
    RMulLe(0.0, y, c);
    RCancel(y, n, c);
    RCancel(0.0, n, c);
  }

  /** Everything about the aligned sum of two addends, the first one the larger. */
  lemma AlignedSum(f: Format, e1: int, b1: nat, b0: nat, e2: int, s1: nat, s0: nat, same: bool, n: nat, s: nat,
                   a: nat, m: int, y: real, t: real, xm: real, u: real, v: real)
    requires f.Valid() && IsAddend(f, b1, b0, e1, u) && IsAddend(f, s1, s0, e2, v)
    requires n == Join(f.size, b1, b0) && s == Join(f.size, s1, s0) && (e1 > e2 || (e1 == e2 && n >= s))
    requires s0 != 0 ==> n % Pow2(StepExponent(f)) == 0
    requires a == Aligned(f.size, s1, s0, e1 - e2) && y * Pow2(e1 - e2) as real == s as real
    requires m == if same then n + a else n - a
    requires t == if same then n as real + y else n as real - y
    requires xm * Pow2(f.size) as real == t
    ensures m >= 0 && a <= n && Normalizable2(f, m, t)
    ensures Placed(f, e1, xm) == (if same then u + v else u - v)
    ensures 0.0 <= v <= u && (m == 0 <==> (if same then u + v else u - v) == 0.0)
  {
    hide *;
    AlignedMantissa(f, e1, b1, b0, e2, s1, s0, same, n, s, a, m, y, t, u, v);
    AlignedPlaces(f, e1, b1, b0, e2, s1, s0, same, n, s, y, t, xm, u, v);
    ScaledCompare(n as real, y, Exp2(e1 - 1 - f.Rnd() - f.size), u, v);
  }

  lemma AlignedMantissa(f: Format, e1: int, b1: nat, b0: nat, e2: int, s1: nat, s0: nat, same: bool, n: nat, s: nat,
                        a: nat, m: int, y: real, t: real, u: real, v: real)
    requires f.Valid() && IsAddend(f, b1, b0, e1, u) && IsAddend(f, s1, s0, e2, v)
    requires n == Join(f.size, b1, b0) && s == Join(f.size, s1, s0) && (e1 > e2 || (e1 == e2 && n >= s))
    requires s0 != 0 ==> n % Pow2(StepExponent(f)) == 0
    requires a == Aligned(f.size, s1, s0, e1 - e2) && y * Pow2(e1 - e2) as real == s as real
    requires m == if same then n + a else n - a
    requires t == if same then n as real + y else n as real - y
    ensures m >= 0 && a <= n && Normalizable2(f, m, t) && 0.0 <= y <= n as real && (m == 0 <==> t == 0.0)
  {
    hide *;
    AddendRange(f, b1, b0, e1, u);
    AddendRange(f, s1, s0, e2, v);
    AlignedStandsIn(f.size, s1, s0, e1 - e2, s, y, a);
    StepExponentIs(f);
    SumNormalizable2(f, n, a, y, e1 - e2, same, m, t, s0 == 0);
  }

  lemma AlignedPlaces(f: Format, e1: int, b1: nat, b0: nat, e2: int, s1: nat, s0: nat, same: bool, n: nat, s: nat,
                      y: real, t: real, xm: real, u: real, v: real)
    requires f.Valid() && IsAddend(f, b1, b0, e1, u) && IsAddend(f, s1, s0, e2, v) && e1 >= e2
    requires n == Join(f.size, b1, b0) && s == Join(f.size, s1, s0)
    requires y * Pow2(e1 - e2) as real == s as real && xm * Pow2(f.size) as real == t
    requires t == if same then n as real + y else n as real - y
    ensures Placed(f, e1, xm) == if same then u + v else u - v
    ensures u == n as real * Exp2(e1 - 1 - f.Rnd() - f.size) && v == y * Exp2(e1 - 1 - f.Rnd() - f.size)
  {
    hide *;
    AddendRange(f, b1, b0, e1, u);
    AddendRange(f, s1, s0, e2, v);
    SumPlaced(f, e1, e2, n, s, y, u, v, same, t, xm);
  }

  function StepExponent(f: Format): nat
    requires f.Valid()
  {
    f.size + f.Rnd() - 3
  }

  lemma StepExponentIs(f: Format)
    requires f.Valid()
    ensures StepExponent(f) == f.size + f.Rnd() - 3
  {
  }

  lemma ExactSum(f: Format, e1: int, b1: nat, b0: nat, e2: int, s1: nat, s0: nat, same: bool, a: nat, m: int,
                 u: real, v: real) returns (t: real, xm: real)
    requires f.Valid() && IsAddend(f, b1, b0, e1, u) && IsAddend(f, s1, s0, e2, v)
    requires e1 > e2 || (e1 == e2 && Join(f.size, b1, b0) >= Join(f.size, s1, s0))
    requires s0 != 0 ==> Join(f.size, b1, b0) % Pow2(StepExponent(f)) == 0
    requires a == Aligned(f.size, s1, s0, e1 - e2)
    requires m == if same then Join(f.size, b1, b0) + a else Join(f.size, b1, b0) - a
    ensures xm * Pow2(f.size) as real == t && m >= 0 && a <= Join(f.size, b1, b0) && Normalizable2(f, m, t)
    ensures Placed(f, e1, xm) == (if same then u + v else u - v)
    ensures 0.0 <= v <= u && (m == 0 <==> (if same then u + v else u - v) == 0.0)
  {
    hide *;
    var n, s, p, w := Join(f.size, b1, b0), Join(f.size, s1, s0), Pow2(e1 - e2) as real, Pow2(f.size) as real;
    var y := s as real / p;
    Multiplication.Ratio(s as real, p, y);
    t := if same then n as real + y else n as real - y;
    xm := t / w;
    Multiplication.Ratio(t, w, xm);
    AlignedSum(f, e1, b1, b0, e2, s1, s0, same, n, s, a, m, y, t, xm, u, v);
  }

  /** The second half of fma_sf: align the smaller addend, add or subtract, normalise, round. */
  method AddAligned(f: Format, neg1: bool, e1: int, b1: nat, b0: nat, neg2: bool, e2: int, s1: nat, s0: nat,
                    rm: RoundingMode, ghost u: real, ghost v: real) returns (r: nat, raised: Flags)
    requires f.Valid() && IsAddend(f, b1, b0, e1, u) && IsAddend(f, s1, s0, e2, v)
    requires e1 > e2 || (e1 == e2 && Join(f.size, b1, b0) >= Join(f.size, s1, s0))
    requires s0 != 0 ==> Join(f.size, b1, b0) % Pow2(StepExponent(f)) == 0
    ensures 0.0 <= v <= u
    ensures var x := if neg1 == neg2 then u + v else u - v;
            Delivers(f, rm, if x == 0.0 && neg1 != neg2 then rm == RDN else neg1, x, r, raised)
  {
    hide *;
    AddendRange(f, b1, b0, e1, u);
    AddendRange(f, s1, s0, e2, v);
    var c1, c0 := AlignWords(f.size, s1, s0, e1 - e2);
    ghost var a := Join(f.size, c1, c0);
    ghost var t, xm := ExactSum(f, e1, b1, b0, e2, s1, s0, neg1 == neg2, a,
                                if neg1 == neg2 then Join(f.size, b1, b0) + a else Join(f.size, b1, b0) - a, u, v);
    var neg, h, l := neg1, 0, 0;
    if neg1 == neg2 {
      AlignedUpper(f, b1, c1, c0, b0, t);
      h, l := AddWords(f.size, b1, b0, c1, c0);
    } else {
      h, l := SubWords(f.size, b1, b0, c1, c0);
      JoinBound(f.size, h, l);
      if h == 0 && l == 0 { neg := rm == RDN; }
    }
    UpperFits(f, h, l, t);
    JoinBound(f.size, h, l);
    r, raised := Normalize2Pack(f, neg, e1, h, l, rm, t, xm);
  }

  /** The sum of the words does not overflow: the whole sum has fewer than 2 * size bits. */
  lemma AlignedUpper(f: Format, b1: nat, c1: nat, c0: nat, b0: nat, t: real)
    requires f.Valid() && Normalizable2(f, Join(f.size, b1, b0) + Join(f.size, c1, c0), t)
    ensures b1 + c1 + 1 < Pow2(f.size)
  {
    hide *;
    Normalizable2Is(f, Join(f.size, b1, b0) + Join(f.size, c1, c0), t);
    Unfolded(f.size, b1, b0, 0);
    Unfolded(f.size, c1, c0, 0);
    FormatSize(f);
    Pow2Add(f.size - 1, f.size);
    Pow2Mono(f.size - 1, f.size);
    PowersAbove(f.size);
    MulDist(b1, c1, Pow2(f.size));
    if b1 + c1 >= Pow2(f.size - 1) { MulLe(Pow2(f.size - 1), b1 + c1, Pow2(f.size)); }
  }

  lemma PowersAbove(size: nat)
    requires size >= 4
    ensures Pow2(size) >= Pow2(size - 1) + 2
  {
    Pow2Mono(1, size - 1);
  }

  lemma UpperFits(f: Format, h: nat, l: nat, t: real)
    requires f.Valid() && Normalizable2(f, Join(f.size, h, l), t)
    ensures h < Pow2(f.size - 1) && h < Pow2(f.size)
  {
    hide *;
    Normalizable2Is(f, Join(f.size, h, l), t);
    Unfolded(f.size, h, l, 0);
    FormatSize(f);
    Pow2Add(f.size - 1, f.size);
    Pow2Mono(f.size - 1, f.size);
    if h >= Pow2(f.size - 1) { MulLe(Pow2(f.size - 1), h, Pow2(f.size)); }
  }

  // -----------------------------------------------------------------------------------------
  // The product and the addend
  // -----------------------------------------------------------------------------------------

  /** The product's magnitude in quanta. */
  ghost function ProductQuanta(f: Format, a: nat, b: nat): real
    requires f.Valid() && f.MantOf(a) < Pow2(f.size) && f.MantOf(b) < Pow2(f.size)
  {
    (NormalMant(f, a) * NormalMant(f, b)) as real
      * Exp2(NormalExp(f, a) - 1 + (NormalExp(f, b) - 1) + f.QuantumExp())
  }

  /** The two words of a product once they start at bit size - 3, together worth n. */
  lemma ProductIsAddend(f: Format, a: nat, b: nat, k: nat, n: nat, h: nat, l: nat, doubled: nat, exp: int)
    requires f.Valid() && f.MantOf(a) < Pow2(f.size) && f.MantOf(b) < Pow2(f.size)
    requires k == NormalMant(f, a) * NormalMant(f, b) && doubled <= 1
    requires exp == NormalExp(f, a) + NormalExp(f, b) - (f.Bias() + 1) + 3 - doubled
    requires n == k * Pow2(2 * f.Rnd() + doubled) && n == Join(f.size, h, l) && l < Pow2(f.size)
    requires Pow2(2 * f.size - 3) <= n < Pow2(2 * f.size - 2)
    ensures IsAddend(f, h, l, exp, ProductQuanta(f, a, b))
  {
    hide *;
    var e := NormalExp(f, a) - 1 + (NormalExp(f, b) - 1) + f.QuantumExp();
    Multiplication.FormatFacts(f);
    ProductQuantaIs(f, a, b, k, e);
    HighOfJoin(f.size, h, l, n);
    EvenWord(f.size, h, l, k, 2 * f.Rnd() + doubled, n);
    Exp2Scale(2 * f.Rnd() + doubled, exp - 1 - f.Rnd() - f.size);
    Multiplication.RealProductIs(k, Pow2(2 * f.Rnd() + doubled), n);
    Reassociate(k as real, Pow2(2 * f.Rnd() + doubled) as real, Exp2(exp - 1 - f.Rnd() - f.size), n as real, Exp2(e));
    AddendIs(f, h, l, exp, ProductQuanta(f, a, b));
  }

  lemma ProductQuantaIs(f: Format, a: nat, b: nat, k: nat, e: int)
    requires f.Valid() && f.MantOf(a) < Pow2(f.size) && f.MantOf(b) < Pow2(f.size)
    requires k == NormalMant(f, a) * NormalMant(f, b)
    requires e == NormalExp(f, a) - 1 + (NormalExp(f, b) - 1) + f.QuantumExp()
    ensures ProductQuanta(f, a, b) == k as real * Exp2(e)
  {
    hide Exp2, NormalMant, NormalExp, Format.QuantumExp, Format.MantOf, Pow2;
  }

  lemma HighOfJoin(size: nat, h: nat, l: nat, n: nat)
    requires size >= 4 && n == Join(size, h, l) && l < Pow2(size) && Pow2(2 * size - 3) <= n < Pow2(2 * size - 2)
    ensures Pow2(size - 3) <= h < Pow2(size - 2)
  {
    hide *;
    Unfolded(size, h, l, 0);
    Pow2Add(size - 3, size);
    Pow2Add(size - 2, size);
    Multiplication.HighRange(n, h, l, Pow2(size), Pow2(size - 3), Pow2(size - 2));
  }

  lemma EvenWord(size: nat, h: nat, l: nat, k: nat, e: nat, n: nat)
    requires size >= 4 && n == Join(size, h, l) && n == k * Pow2(e) && e >= 1
    ensures l % 2 == 0
  {
    hide *;
    Unfolded(size, h, l, 0);
    Pow2Even(e);
    Pow2Even(size);
    EvenMultiple(k, Pow2(e));
    EvenMultiple(h, Pow2(size));
  }

  /** The multiplication of fma_sf, its result moved up so that its leading one is at bit size - 3. */
  method MultiplyWide(f: Format, a: nat, b: nat) returns (h: nat, l: nat, exp: int)
    requires f.Valid() && a < Pow2(f.size) && b < Pow2(f.size) && !IsZero(f, a) && !IsZero(f, b)
    requires f.MantOf(a) < Pow2(f.size) && f.MantOf(b) < Pow2(f.size)
    ensures IsAddend(f, h, l, exp, ProductQuanta(f, a, b))
  {
    hide *;
    Multiplication.FormatFacts(f);
    NormalOperand(f, a);
    NormalOperand(f, b);
    var ka, kb := NormalMant(f, a), NormalMant(f, b);
    var na, nb := Shl(ka, f.Rnd()), Shl(kb, f.Rnd());
    ghost var n: nat := na * nb;
    Multiplication.ProductWords(f, ka, kb, na, nb, f.Rnd(), f.Rnd(), n);
    exp := NormalExp(f, a) + NormalExp(f, b) - Pow2(f.exp - 1) + 3;
    h, l := MulU(f.size, na, nb);
    Unfolded(f.size, h, l, 0);
    ghost var k := ka * kb;
    UpperThreshold(f.size, h, l, n);
    if h < Pow2(f.size - 3) {
      DoubledWords(f.size, h, l);
      h := ShiftLeft(f.size, h, 1) + Quotient(l, Pow2(f.size - 1));
      l := ShiftLeft(f.size, l, 1);
      exp := exp - 1;
      DoubledProduct(f.size, k, 2 * f.Rnd(), n);
      ProductIsAddend(f, a, b, k, 2 * n, h, l, 1, exp);
    } else {
      ProductIsAddend(f, a, b, k, n, h, l, 0, exp);
    }
  }

  lemma UpperThreshold(size: nat, h: nat, l: nat, n: nat)
    requires size >= 4 && n == Join(size, h, l) && l < Pow2(size) && Pow2(2 * size - 4) <= n < Pow2(2 * size - 2)
    ensures h >= Pow2(size - 3) ==> n >= Pow2(2 * size - 3)
    ensures h < Pow2(size - 3) ==> Pow2(2 * size - 3) <= 2 * n < Pow2(2 * size - 2)
  {
    hide *;
    Unfolded(size, h, l, 0);
    Pow2Add(size - 3, size);
    TwicePowers(size);
    if h >= Pow2(size - 3) {
      MulLe(Pow2(size - 3), h, Pow2(size));
    } else {
      MulLe(h + 1, Pow2(size - 3), Pow2(size));
      MulDist(h, 1, Pow2(size));
    }
  }

  lemma TwicePowers(size: nat)
    requires size >= 4
    ensures Pow2(2 * size - 3) == 2 * Pow2(2 * size - 4) && Pow2(2 * size - 2) == 2 * Pow2(2 * size - 3)
  {
  }

  lemma DoubledWords(size: nat, h: nat, l: nat)
    requires size >= 4 && h < Pow2(size - 3) && l < Pow2(size)
    ensures Join(size, ShiftLeft(size, h, 1) + Quotient(l, Pow2(size - 1)), ShiftLeft(size, l, 1)) == 2 * Join(size, h, l)
    ensures ShiftLeft(size, l, 1) < Pow2(size)
  {
    hide *;
    var q, m := Quotient(l, Pow2(size - 1)), l % Pow2(size - 1);
    HighBelow(size, h);
    DivMod(l, Pow2(size - 1));
    Unfolded(size, h, l, 1);
    Unfolded(size, l, h, 1);
    Unfolded(size, ShiftLeft(size, h, 1) + q, ShiftLeft(size, l, 1), 1);
    ShiftedWords(h, l, 2, Pow2(size - 1), Pow2(size), q, m, Join(size, h, l));
    DivMod(Join(size, h, l) * 2, Pow2(size));
  }

  lemma HighBelow(size: nat, h: nat)
    requires size >= 4 && h < Pow2(size - 3)
    ensures h * 2 < Pow2(size) && Pow2(size) == 2 * Pow2(size - 1) && Pow2(1) == 2
  {
    Pow2Mono(size - 3, size - 1);
  }

  lemma DoubledProduct(size: nat, k: nat, e: nat, n: nat)
    requires n == k * Pow2(e)
    ensures 2 * n == k * Pow2(e + 1) && k * Pow2(e + 0) == n
  {
    var p := Pow2(e);
    assert k * (2 * p) == 2 * (k * p);
  }

  /** The third operand, moved up to the same place. */
  lemma OperandIsAddend(f: Format, c: nat, h: nat)
    requires f.Valid() && c < Pow2(f.size) && f.MantOf(c) < Pow2(f.size) && !IsZero(f, c)
    requires h == Shl(NormalMant(f, c), f.Rnd() - 1)
    ensures IsAddend(f, h, 0, NormalExp(f, c) + 1, f.Mag(f.Word(c)) as real)
    ensures Join(f.size, h, 0) % Pow2(StepExponent(f)) == 0
  {
    hide *;
    var k, e := NormalMant(f, c), NormalExp(f, c) + 1 - 1 - f.Rnd() - f.size;
    Multiplication.FormatFacts(f);
    NormalOperand(f, c);
    OperandWords(f, k, h, Join(f.size, h, 0));
    Exp2Scale(f.Rnd() - 1 + f.size, e);
    Multiplication.RealProductIs(k, Pow2(f.Rnd() - 1 + f.size), Join(f.size, h, 0));
    Reassociate(k as real, Pow2(f.Rnd() - 1 + f.size) as real, Exp2(e), Join(f.size, h, 0) as real, Exp2(NormalExp(f, c) - 1));
    AddendIs(f, h, 0, NormalExp(f, c) + 1, f.Mag(f.Word(c)) as real);
  }

  lemma OperandWords(f: Format, k: nat, h: nat, n: nat)
    requires f.Valid() && Pow2(f.mant) <= k < Pow2(f.mant + 1) && h == Shl(k, f.Rnd() - 1) && n == Join(f.size, h, 0)
    ensures f.size == f.mant + f.Rnd() + 2 && 0 % 2 == 0 && 0 < Pow2(f.size)
    ensures Pow2(f.size - 3) <= h < Pow2(f.size - 2) && n == k * Pow2(f.Rnd() - 1 + f.size)
    ensures n % Pow2(StepExponent(f)) == 0
  {
    hide *;
    Multiplication.FormatFacts(f);
    ShlIs(k, f.Rnd() - 1);
    Multiplication.ScaledRange(f.mant, k, f.Rnd() - 1, h);
    Unfolded(f.size, h, 0, 0);
    Pow2Add(f.Rnd() - 1, f.size);
    Pow2Add(2, f.size + f.Rnd() - 3);
    Assoc(k, Pow2(f.Rnd() - 1), Pow2(f.size));
    StepExponentIs(f);
    StepMultiple(k, Pow2(2), Pow2(f.size + f.Rnd() - 3), n);
    ZeroWordEven(0);
  }

  lemma StepMultiple(k: nat, p: nat, half: nat, n: nat)
    requires half > 0 && n == k * (p * half)
    ensures n % half == 0
  {
    assert n == (k * p) * half;
    DivUnique(n, half, k * p, 0);
  }

  // -----------------------------------------------------------------------------------------
  // fma_sf
  // -----------------------------------------------------------------------------------------

  /** The exact sum's sign and size, from the signs and sizes of product and addend. */
  lemma FmaSign(f: Format, a: nat, b: nat, c: nat, rm: RoundingMode, x: real, y: real)
    requires f.Valid() && x >= 0.0 && Abs(f.Value(a) * f.Value(b)) == x * Exp2(f.QuantumExp())
    requires y == f.Mag(f.Word(c)) as real
    ensures var neg := f.Negative(a) != f.Negative(b);
            var s := if neg == f.Negative(c) then x + y else if x >= y then x - y else y - x;
            && Abs(f.Value(a) * f.Value(b) + f.Value(c)) == s * Exp2(f.QuantumExp())
            && FmaIsNegative(f, a, b, c, rm) ==
               if s == 0.0 && neg != f.Negative(c) then rm == RDN else if x >= y then neg else f.Negative(c)
  {
    hide *;
    var p := f.Value(a) * f.Value(b);
    SignedValue(f, a);
    SignedValue(f, b);
    SignedValue(f, c);
    SignOfProduct(f.Negative(a), f.Negative(b), f.Value(a), f.Value(b), p);
    FmaSignOf(f, a, b, c, rm, x, y, p);
  }

  lemma FmaSignOf(f: Format, a: nat, b: nat, c: nat, rm: RoundingMode, x: real, y: real, p: real)
    requires f.Valid() && x >= 0.0 && y >= 0.0 && p == f.Value(a) * f.Value(b)
    requires p == if f.Negative(a) != f.Negative(b) then -(x * Exp2(f.QuantumExp())) else x * Exp2(f.QuantumExp())
    requires f.Value(c) == if f.Negative(c) then -(y * Exp2(f.QuantumExp())) else y * Exp2(f.QuantumExp())
    ensures var neg := f.Negative(a) != f.Negative(b);
            var s := if neg == f.Negative(c) then x + y else if x >= y then x - y else y - x;
            && Abs(p + f.Value(c)) == s * Exp2(f.QuantumExp())
            && FmaIsNegative(f, a, b, c, rm) ==
               if s == 0.0 && neg != f.Negative(c) then rm == RDN else if x >= y then neg else f.Negative(c)
  {
    hide *;
    var q, neg := Exp2(f.QuantumExp()), f.Negative(a) != f.Negative(b);
    FmaIsNegativeIs(f, a, b, c, rm, p);
    if x >= y {
      Addition.SignedSum(neg, f.Negative(c), x, y, q, p, f.Value(c));
    } else {
      Addition.SignedSum(f.Negative(c), neg, y, x, q, f.Value(c), p);
    }
  }

  lemma SignedValue(f: Format, a: nat)
    requires f.Valid()
    ensures f.Value(a) == if f.Negative(a) then -(f.Mag(f.Word(a)) as real * Exp2(f.QuantumExp()))
                          else f.Mag(f.Word(a)) as real * Exp2(f.QuantumExp())
    ensures if f.Negative(a) then f.Value(a) <= 0.0 else f.Value(a) >= 0.0
    ensures f.Mag(f.Word(a)) as real >= 0.0
  {
    hide Exp2, Format.Mag;
    RMulLe(0.0, f.Mag(f.Word(a)) as real, Exp2(f.QuantumExp()));
  }

  lemma FmaIsNegativeIs(f: Format, a: nat, b: nat, c: nat, rm: RoundingMode, p: real)
    requires f.Valid() && p == f.Value(a) * f.Value(b)
    ensures FmaIsNegative(f, a, b, c, rm) ==
            var neg := f.Negative(a) != f.Negative(b);
            if p + f.Value(c) != 0.0 then p + f.Value(c) < 0.0 else if neg == f.Negative(c) then neg else rm == RDN
  {
    hide Format.Value, Format.Negative;
  }

  lemma SignOfProduct(na: bool, nb: bool, x: real, y: real, p: real)
    requires p == x * y && (if na then x <= 0.0 else x >= 0.0) && (if nb then y <= 0.0 else y >= 0.0)
    ensures p == if na != nb then -Abs(p) else Abs(p)
  {
    Multiplication.AbsProduct(x, y, p);
    if !na && !nb { RMulLe(0.0, x, y); }
    if !na && nb { RMulLe(0.0, x, -y); }
    if na && !nb { RMulLe(x, 0.0, y); }
    if na && nb { RMulLe(x, 0.0, -y); }
  }

  /** A finite number is its own rounding. */
  lemma DeliversItself(f: Format, rm: RoundingMode, c: nat)
    requires f.Valid() && c < Pow2(f.size) && f.IsFinite(c)
    ensures Delivers(f, rm, f.Negative(c), f.Mag(f.Word(c)) as real, c, Flags(false, false, false, false, false))
  {
    hide *;
    var w := f.Word(c);
    Fields(f, c);
    FiniteIs(f, c);
    UlpPositive(f, w);
    LocalRounding(f, rm, f.Negative(c), f.Mag(w) as real, w);
    NeverUpWhenExact(rm, f.Negative(c), w % 2 == 1, 0.0, f.Ulp(w) as real);
    RaisedIs(f, rm, f.Negative(c), f.Mag(w) as real);
    DeliveredBy(f, rm, f.Negative(c), f.Mag(w) as real, w, c, Flags(false, false, false, false, false));
  }

  lemma FiniteIs(f: Format, c: nat)
    requires f.Valid()
    ensures f.IsFinite(c) <==> f.Word(c) < f.Inf()
  {
  }

  lemma ZeroMagnitude(f: Format, c: nat)
    requires f.Valid() && c < Pow2(f.size)
    ensures IsZero(f, c) <==> f.Mag(f.Word(c)) == 0
  {
    hide *;
    Multiplication.ZeroValue(f, c);
    SignedValue(f, c);
    RCancel(0.0, f.Mag(f.Word(c)) as real, Exp2(f.QuantumExp()));
  }

  /** The branch for a product that is zero. */
  method FmaZeroProduct(f: Format, a: nat, b: nat, c: nat, rm: RoundingMode) returns (r: nat, raised: Flags)
    requires f.Valid() && a < Pow2(f.size) && b < Pow2(f.size) && c < Pow2(f.size) && f.IsFinite(c)
    requires IsZero(f, a) || IsZero(f, b)
    ensures DeliversValue(f, rm, FmaIsNegative(f, a, b, c, rm), Abs(f.Value(a) * f.Value(b) + f.Value(c)), r, raised)
  {
    hide *;
    raised := Flags(false, false, false, false, false);
    Multiplication.FormatFacts(f);
    Multiplication.ZeroProduct(f, a, b);
    ZeroMagnitude(f, c);
    SignedValue(f, c);
    FmaSign(f, a, b, c, rm, 0.0, f.Mag(f.Word(c)) as real);
    var neg := f.Negative(a) != f.Negative(b);
    if IsZero(f, c) {
      if f.Negative(c) != neg { neg := rm == RDN; }
      r := f.Pack(neg, 0);
      ZeroDelivered(f, rm, neg, 0.0);
    } else {
      r := c;
      DeliversItself(f, rm, c);
    }
    InQuanta(f, rm, FmaIsNegative(f, a, b, c, rm), f.Mag(f.Word(c)) as real,
             Abs(f.Value(a) * f.Value(b) + f.Value(c)), r, raised);
  }

  /** An addend read at its upper word alone, the lower one folded into the sticky bit. */
  lemma AddendNormalizable(f: Format, h: nat, l: nat, exp: int, x: real, y: real)
    requires f.Valid() && IsAddend(f, h, l, exp, x) && y * Pow2(f.size) as real == Join(f.size, h, l) as real
    ensures Normalizable(f, exp, OrBit(h, l != 0), y)
  {
    hide *;
    AddendIs(f, h, l, exp, x);
    Unfolded(f.size, h, l, 0);
    Multiplication.FormatFacts(f);
    Multiplication.UpperWord(f.size, Join(f.size, h, l), h, l, y);
    Pow2Mono(f.mant + 2, f.size - 3);
    Pow2Mono(f.size - 2, f.size - 1);
    Pow2Even(f.size - 2);
    OrBitBelow(h, l != 0, Pow2(f.size - 2));
    Multiplication.OddNormalizable(f, exp, OrBit(h, l != 0), y);
  }

  lemma AddendPlaced(f: Format, h: nat, l: nat, exp: int, x: real, y: real)
    requires f.Valid() && IsAddend(f, h, l, exp, x) && y * Pow2(f.size) as real == Join(f.size, h, l) as real
    ensures Placed(f, exp, y) == x && x > 0.0
  {
    hide *;
    AddendRange(f, h, l, exp, x);
    PlacedIs(f, exp, y);
    Exp2Scale(f.size, exp - 1 - f.Rnd() - f.size);
    Reassociate(y, Pow2(f.size) as real, Exp2(exp - 1 - f.Rnd() - f.size), Join(f.size, h, l) as real, Exp2(exp - 1 - f.Rnd()));
    RMulLt(0.0, Join(f.size, h, l) as real, Exp2(exp - 1 - f.Rnd() - f.size));
  }

  lemma ProductMagnitude(f: Format, a: nat, b: nat)
    requires f.Valid() && a < Pow2(f.size) && b < Pow2(f.size) && !IsZero(f, a) && !IsZero(f, b)
    requires f.MantOf(a) < Pow2(f.size) && f.MantOf(b) < Pow2(f.size)
    ensures Abs(f.Value(a) * f.Value(b)) == ProductQuanta(f, a, b) * Exp2(f.QuantumExp())
  {
    hide *;
    NormalOperand(f, a);
    NormalOperand(f, b);
    var k := NormalMant(f, a) * NormalMant(f, b);
    ProductQuantaIs(f, a, b, k, NormalExp(f, a) - 1 + (NormalExp(f, b) - 1) + f.QuantumExp());
    Multiplication.ProductValue(f, a, b, NormalMant(f, a), NormalMant(f, b), NormalExp(f, a), NormalExp(f, b), k,
                                ProductQuanta(f, a, b));
  }

  /** fma_sf */
  method FmaSf(f: Format, a: nat, b: nat, c: nat, rm: RoundingMode) returns (r: nat, raised: Flags)
    requires f.Valid() && a < Pow2(f.size) && b < Pow2(f.size) && c < Pow2(f.size)
    ensures if f.IsFinite(a) && f.IsFinite(b) && f.IsFinite(c)
            then DeliversValue(f, rm, FmaIsNegative(f, a, b, c, rm),
                               Abs(f.Value(a) * f.Value(b) + f.Value(c)), r, raised)
            else SpecialFma(f, a, b, c, r, raised)
  {
    hide *;
    Multiplication.SpecialIs(f, a);
    Multiplication.SpecialIs(f, b);
    Multiplication.SpecialIs(f, c);
    if f.ExpOf(a) == f.ExpMask() || f.ExpOf(b) == f.ExpMask() || f.ExpOf(c) == f.ExpMask() {
      r, raised := FmaSpecial(f, a, b, c);
      return;
    }
    if IsZero(f, a) || IsZero(f, b) {
      r, raised := FmaZeroProduct(f, a, b, c, rm);
      return;
    }
    Multiplication.FormatFacts(f);
    MantFits(f, a);
    MantFits(f, b);
    MantFits(f, c);
    var rNeg, cNeg := f.Negative(a) != f.Negative(b), f.Negative(c);
    ghost var u, v := ProductQuanta(f, a, b), f.Mag(f.Word(c)) as real;
    var r1, r0, rExp := MultiplyWide(f, a, b);
    ghost var y := Join(f.size, r1, r0) as real / Pow2(f.size) as real;
    Multiplication.Ratio(Join(f.size, r1, r0) as real, Pow2(f.size) as real, y);
    AddendNormalizable(f, r1, r0, rExp, u, y);
    AddendPlaced(f, r1, r0, rExp, u, y);
    AddendRange(f, r1, r0, rExp, u);
    ZeroMagnitude(f, c);
    ProductMagnitude(f, a, b);
    FmaSign(f, a, b, c, rm, u, v);
    if IsZero(f, c) {
      r, raised := NormalizePack(f, rNeg, rExp, OrBit(r1, r0 != 0), rm, y);
      InQuanta(f, rm, rNeg, u, Abs(f.Value(a) * f.Value(b) + f.Value(c)), r, raised);
      return;
    }
    var c1, c0, cExp := Shl(NormalMant(f, c), f.Rnd() - 1), 0, NormalExp(f, c) + 1;
    OperandIsAddend(f, c, c1);
    JoinOrder(f.size, r1, r0, c1);
    ZeroWordEven(c0);
    ghost var x := if rNeg == cNeg then u + v else if u >= v then u - v else v - u;
    if rExp > cExp || (rExp == cExp && r1 >= c1) {
      r, raised := AddAligned(f, rNeg, rExp, r1, r0, cNeg, cExp, c1, c0, rm, u, v);
    } else {
      r, raised := AddAligned(f, cNeg, cExp, c1, c0, rNeg, rExp, r1, r0, rm, v, u);
    }
    InQuanta(f, rm, FmaIsNegative(f, a, b, c, rm), x, Abs(f.Value(a) * f.Value(b) + f.Value(c)), r, raised);
  }

  lemma ZeroWordEven(l: nat)
    requires l == 0
    ensures l % 2 == 0
  {
  }

  lemma JoinOrder(size: nat, r1: nat, r0: nat, c1: nat)
    requires r0 < Pow2(size)
    ensures r1 >= c1 ==> Join(size, r1, r0) >= Join(size, c1, 0)
    ensures r1 < c1 ==> Join(size, c1, 0) >= Join(size, r1, r0)
  {
    hide *;
    Unfolded(size, r1, r0, 0);
    Unfolded(size, c1, 0, 0);
    MulDist(r1, 1, Pow2(size));
    if r1 >= c1 { MulLe(c1, r1, Pow2(size)); } else { MulLe(r1 + 1, c1, Pow2(size)); }
  }

  method FmaSpecial(f: Format, a: nat, b: nat, c: nat) returns (r: nat, raised: Flags)
    requires f.Valid() && a < Pow2(f.size) && b < Pow2(f.size) && c < Pow2(f.size)
    requires f.ExpOf(a) == f.ExpMask() || f.ExpOf(b) == f.ExpMask() || f.ExpOf(c) == f.ExpMask()
    ensures SpecialFma(f, a, b, c, r, raised)
  {
    Multiplication.SpecialIs(f, a);
    Multiplication.SpecialIs(f, b);
    Multiplication.SpecialIs(f, c);
    hide Format.IsNaN, Format.IsSignalingNaN, Format.IsFinite, IsZero, Format.ExpOf, Format.Negative, Format.Pack;
    var neg := f.Negative(a) != f.Negative(b);
    r, raised := f.QNaN(), NO_FLAGS;
    if f.IsNaN(a) || f.IsNaN(b) || f.IsNaN(c) {
      if f.IsSignalingNaN(a) || f.IsSignalingNaN(b) || f.IsSignalingNaN(c) { raised := INVALID; }
    } else if (f.ExpOf(a) == f.ExpMask() && IsZero(f, b)) || (f.ExpOf(b) == f.ExpMask() && IsZero(f, a)) ||
              ((f.ExpOf(a) == f.ExpMask() || f.ExpOf(b) == f.ExpMask()) &&
               f.ExpOf(c) == f.ExpMask() && neg != f.Negative(c)) {
      raised := INVALID;
    } else if f.ExpOf(c) == f.ExpMask() {
      r := f.Pack(f.Negative(c), f.Inf());
    } else {
      r := f.Pack(neg, f.Inf());
    }
  }
}
