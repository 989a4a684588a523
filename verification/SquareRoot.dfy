/** sqrt_sf: the integer root of the significand, an inexact root marked in its lowest bit. */
module SquareRoot {
  import opened Arith
  import opened FloatFormat
  import opened Rounding
  import opened Sticky
  import opened Significand
  import opened Packing
  import opened Normalize
  import opened Operands
  import opened MultiWord
  import opened Multiplication

  // -----------------------------------------------------------------------------------------
  // The requirement, without mentioning the root itself
  // -----------------------------------------------------------------------------------------

  /** The square of the value of m quanta. */
  ghost function SquaredValue(f: Format, m: real): real
    requires f.Valid()
  {
    (m * Exp2(f.QuantumExp())) * (m * Exp2(f.QuantumExp()))
  }

  /** The root of v lies at or above the word u and below the next one. */
  ghost predicate RootIsFrom(f: Format, v: real, u: nat)
    requires f.Valid()
  {
    SquaredValue(f, f.Mag(u) as real) <= v < SquaredValue(f, (f.Mag(u) + f.Ulp(u)) as real)
  }

  /** Whether the root of v, which lies from u on, is rounded to the word above u. */
  ghost predicate RootRoundsUp(f: Format, rm: RoundingMode, v: real, u: nat)
    requires f.Valid()
  {
    var middle := SquaredValue(f, f.Mag(u) as real + f.Ulp(u) as real / 2.0);
    match rm
    case RNE => v > middle || (v == middle && u % 2 == 1)
    case RMM => v >= middle
    case RTZ => false
    case RDN => false
    case RUP => v > SquaredValue(f, f.Mag(u) as real)
  }

  /** r is the correctly rounded square root of v, and raised what is due for it. */
  ghost predicate DeliversRoot(f: Format, rm: RoundingMode, v: real, r: nat, raised: Flags)
    requires f.Valid()
  {
    exists u: nat :: RootIsFrom(f, v, u) && r == (if RootRoundsUp(f, rm, v, u) then u + 1 else u) &&
      r < f.Inf() && raised == NO_FLAGS.(inexact := SquaredValue(f, f.Mag(r) as real) != v)
  }

  /** Comparing m with x, in quanta, comes to comparing its squared value with v. */
  ghost predicate SameOrder(f: Format, m: real, x: real, v: real)
    requires f.Valid()
  {
    (SquaredValue(f, m) < v <==> m < x) && (SquaredValue(f, m) == v <==> m == x)
  }

  lemma SquareOrder(f: Format, m: real, x: real, v: real)
    requires f.Valid() && m >= 0.0 && x >= 0.0 && v == SquaredValue(f, x)
    ensures SameOrder(f, m, x, v)
  {
    hide Exp2, Format.QuantumExp;
    var q := Exp2(f.QuantumExp());
    RCancel(m, x, q);
    RMulLe(0.0, m, q);
    RMulLe(0.0, x, q);
    RSquareOrder(m * q, x * q);
  }

  lemma RSquareOrder(a: real, b: real)
    requires a >= 0.0 && b >= 0.0
    ensures a * a < b * b <==> a < b
    ensures a * a == b * b <==> a == b
  {
    RDifference(a, b);
    if a < b { RMulLt(0.0, b - a, a + b); }
    if b < a { RMulLt(0.0, a - b, a + b); }
  }

  lemma RDifference(a: real, b: real)
    ensures (b - a) * (a + b) == b * b - a * a
    ensures (a - b) * (a + b) == a * a - b * b
  {
  }

  /** For every real number x whose square is v, this is the rounding of x in the sense of
      section 4.3, with the exceptions of x. */
  lemma RootMeaning(f: Format, rm: RoundingMode, x: real, v: real, r: nat, raised: Flags)
    requires f.Valid() && x >= Pow2(f.mant) as real && v == SquaredValue(f, x)
    ensures DeliversRoot(f, rm, v, r, raised) ==> Delivers(f, rm, false, x, r, raised)
  {
    hide Exp2, Format.Mag, Format.Ulp, IsRounding, SquaredValue, RootIsFrom, RootRoundsUp, RoundsUp, Delivers;
    if DeliversRoot(f, rm, v, r, raised) {
      var u: nat :| RootIsFrom(f, v, u) && r == (if RootRoundsUp(f, rm, v, u) then u + 1 else u);
      BoundsNonNegative(f, u);
      SquareOrder(f, Lower(f, u), x, v);
      SquareOrder(f, Middle(f, u), x, v);
      SquareOrder(f, Upper(f, u), x, v);
      RootCompares(f, rm, x, v, u);
      LocalRounding(f, rm, false, x, u);
      SquareOrder(f, f.Mag(r) as real, x, v);
      NormalIsNotTiny(f, rm, false, x);
      PackPositive(f, r);
      RaisedIs(f, rm, false, x);
      DeliveredBy(f, rm, false, x, r, r, raised);
    }
  }

  // A word's magnitude, the next one, and the point half way between.

  ghost function Lower(f: Format, u: nat): real { f.Mag(u) as real }

  ghost function Middle(f: Format, u: nat): real { f.Mag(u) as real + f.Ulp(u) as real / 2.0 }

  ghost function Upper(f: Format, u: nat): real { (f.Mag(u) + f.Ulp(u)) as real }

  lemma BoundsNonNegative(f: Format, u: nat)
    ensures 0.0 <= Lower(f, u) && 0.0 <= Middle(f, u) && 0.0 <= Upper(f, u)
  {
  }

  lemma RootCompares(f: Format, rm: RoundingMode, x: real, v: real, u: nat)
    requires f.Valid()
    requires SameOrder(f, Lower(f, u), x, v) && SameOrder(f, Middle(f, u), x, v) && SameOrder(f, Upper(f, u), x, v)
    ensures RootIsFrom(f, v, u) <==> f.Mag(u) as real <= x < (f.Mag(u) + f.Ulp(u)) as real
    ensures RootRoundsUp(f, rm, v, u) == RoundsUp(rm, false, u % 2 == 1, x - f.Mag(u) as real, f.Ulp(u) as real)
    ensures f.Mag(u + 1) as real == Upper(f, u)
  {
    MagStep(f, u);
    hide Exp2, Format.Mag, Format.Ulp, SquaredValue;
  }

  lemma PackPositive(f: Format, r: nat)
    requires f.Valid()
    ensures f.Pack(false, r) == r
  {
  }

  // -----------------------------------------------------------------------------------------
  // The integer root as a stand-in
  // -----------------------------------------------------------------------------------------

  /** A rational number that compares with every integer as the root of n does. */
  ghost function StandIn(s: nat, n: nat): real {
    if Square(s) == n then s as real else s as real + 0.5
  }

  lemma StandInOrder(s: nat, n: nat, m: nat)
    requires IsRoot(s, n)
    ensures Square(m) < n <==> m as real < StandIn(s, n)
    ensures Square(m) == n <==> m as real == StandIn(s, n)
  {
    hide Square;
    SquareMono(m, s);
    SquareMono(s, m);
    SquareMono(s + 1, m);
    SquareMono(m, s + 1);
  }

  lemma StandInIsOdd(s: nat, n: nat)
    ensures IsOddRounding(OrBit(s, Square(s) != n), StandIn(s, n))
  {
  }

  /** The same order, seen through the exponent. */
  lemma StandInSameOrder(f: Format, s: nat, n: nat, m: nat, c: real, unit: real, mq: real, x: real, v: real)
    requires f.Valid() && IsRoot(s, n) && c > 0.0 && mq == m as real * c && x == StandIn(s, n) * c
    requires unit == (c * Exp2(f.QuantumExp())) * (c * Exp2(f.QuantumExp())) && v == n as real * unit
    ensures SameOrder(f, mq, x, v)
  {
    hide *;
    var q := Exp2(f.QuantumExp());
    StandInOrder(s, n, m);
    RCancel(m as real, StandIn(s, n), c);
    SquaredValueIs(f, mq);
    PositiveSquare(c, q, unit);
    SquareIs(m);
    ScaledSquare(m, c, q, Square(m), mq, SquaredValue(f, mq), unit);
    RCancel(Square(m) as real, n as real, unit);
    SameOrderIs(f, mq, x, v);
  }

  lemma SquaredValueIs(f: Format, m: real)
    requires f.Valid()
    ensures SquaredValue(f, m) == (m * Exp2(f.QuantumExp())) * (m * Exp2(f.QuantumExp()))
  {
  }

  lemma SameOrderIs(f: Format, m: real, x: real, v: real)
    requires f.Valid()
    ensures SameOrder(f, m, x, v) == ((SquaredValue(f, m) < v <==> m < x) && (SquaredValue(f, m) == v <==> m == x))
  {
  }

  lemma PositiveSquare(c: real, q: real, unit: real)
    requires c > 0.0 && q > 0.0 && unit == (c * q) * (c * q)
    ensures unit > 0.0
  {
    RPositive(c, q, c * q);
    RPositive(c * q, c * q, unit);
  }

  lemma RPositive(x: real, y: real, xy: real)
    requires x > 0.0 && y > 0.0 && xy == x * y
    ensures xy > 0.0
  {
  }

  lemma ScaledSquare(m: nat, c: real, q: real, mm: int, mq: real, sq: real, unit: real)
    requires mm == m * m && mq == m as real * c && sq == (mq * q) * (mq * q) && unit == (c * q) * (c * q)
    ensures sq == mm as real * unit
  {
    var r := m as real;
    assert mm as real == r * r;
    assert ((r * c) * q) * ((r * c) * q) == (r * r) * ((c * q) * (c * q));
  }

  // -----------------------------------------------------------------------------------------
  // sqrt_sf
  // -----------------------------------------------------------------------------------------

  /** What the square root of anything but a positive finite number is. */
  predicate SpecialRoot(f: Format, a: nat, r: nat, raised: Flags)
    requires f.Valid()
  {
    if f.IsNaN(a) then r == f.QNaN() && raised == (if f.IsSignalingNaN(a) then INVALID else NO_FLAGS)
    else if IsZero(f, a) || !f.Negative(a) then r == a && raised == NO_FLAGS
    else r == f.QNaN() && raised == INVALID
  }

  /** Exponent and mantissa of the radicand: the exponent made even, the mantissa moved up. */
  function RootExp(f: Format, e: int): int
    requires f.Valid()
  {
    (e - f.Bias() - (e - f.Bias()) % 2) / 2 + f.Bias()
  }

  function Radicand(f: Format, e: int, k: nat): nat
    requires f.Valid()
  {
    (if (e - f.Bias()) % 2 != 0 then 2 * k else k) * Pow2(f.size - 4 - f.mant)
  }

  lemma RadicandRange(f: Format, e: int, k: nat)
    requires f.Valid() && Pow2(f.mant) <= k < Pow2(f.mant + 1)
    ensures Pow2(f.size - 4) <= Radicand(f, e, k) < Pow2(f.size - 2)
  {
    FormatFacts(f);
    var p := Pow2(f.size - 4 - f.mant);
    Pow2Add(f.mant, f.size - 4 - f.mant);
    Pow2Add(f.mant + 2, f.size - 4 - f.mant);
    var m := if (e - f.Bias()) % 2 != 0 then 2 * k else k;
    assert Pow2(f.mant + 2) == 2 * Pow2(f.mant + 1);
    hide Pow2;
    MulLe(Pow2(f.mant), m, p);
    MulLt(m, Pow2(f.mant + 2), p);
  }

  /** The root of the radicand fills the mantissa exactly. */
  lemma RootRange(f: Format, m: nat, s: nat)
    requires f.Valid() && Pow2(f.size - 4) <= m < Pow2(f.size - 2) && IsRoot(s, m * Pow2(f.size))
    ensures Pow2(f.size - 2) <= s < Pow2(f.size - 1)
  {
    FormatFacts(f);
    Pow2Add(f.size - 4, f.size);
    Pow2Add(f.size - 2, f.size - 2);
    Pow2Add(f.size - 2, f.size);
    Pow2Add(f.size - 1, f.size - 1);
    hide Pow2, Square;
    MulLe(Pow2(f.size - 4), m, Pow2(f.size));
    MulLt(m, Pow2(f.size - 2), Pow2(f.size));
    SquareIs(Pow2(f.size - 2));
    SquareIs(Pow2(f.size - 1));
    SquareMono(s + 1, Pow2(f.size - 2));
    SquareMono(Pow2(f.size - 1), s);
  }

  /** Radicand times the square of the unit at the root's exponent: the value of the operand. */
  lemma RadicandValue(f: Format, e: int, k: nat, n: nat, exp: int, unit: real)
    requires f.Valid() && n == Radicand(f, e, k) * Pow2(f.size) && exp == RootExp(f, e)
    requires unit == (Exp2(exp - 1 - f.Rnd()) * Exp2(f.QuantumExp())) * (Exp2(exp - 1 - f.Rnd()) * Exp2(f.QuantumExp()))
    ensures n as real * unit == k as real * Exp2(e - 1 + f.QuantumExp())
  {
    hide *;
    FormatFacts(f);
    var odd := (e - f.Bias()) % 2;
    var t := exp - 1 - f.Rnd() + f.QuantumExp();
    RootExpIs(f, e);
    RadicandIs(f, e, k, n);
    Exp2Add(exp - 1 - f.Rnd(), f.QuantumExp());
    Exp2Add(t, t);
    Exp2Scale(odd + (f.size - 4 - f.mant) + f.size, t + t);
    RealProduct(k, Pow2(odd + (f.size - 4 - f.mant) + f.size));
    Regrouped(k as real, Pow2(odd + (f.size - 4 - f.mant) + f.size) as real, Exp2(t + t), Exp2(e - 1 + f.QuantumExp()));
  }

  lemma RootExpIs(f: Format, e: int)
    requires f.Valid()
    ensures 2 * RootExp(f, e) == e - f.Bias() - (e - f.Bias()) % 2 + 2 * f.Bias()
  {
  }

  lemma RadicandIs(f: Format, e: int, k: nat, n: nat)
    requires f.Valid() && n == Radicand(f, e, k) * Pow2(f.size)
    ensures 0 <= (e - f.Bias()) % 2 <= 1
    ensures n == k * Pow2((e - f.Bias()) % 2 + (f.size - 4 - f.mant) + f.size)
  {
    var odd := (e - f.Bias()) % 2;
    Pow2Add(odd, f.size - 4 - f.mant);
    Pow2Add(odd + (f.size - 4 - f.mant), f.size);
    assert Pow2(0) == 1 && Pow2(1) == 2;
    hide Pow2;
    var p, w := Pow2(f.size - 4 - f.mant), Pow2(f.size);
    MulAssoc3(k, Pow2(odd), p, w);
  }

  lemma MulAssoc3(k: int, o: int, p: int, w: int)
    ensures ((o * k) * p) * w == k * ((o * p) * w)
  {
  }

  /** The rounding of the stand-in is the rounding of the root. */
  lemma StandInDelivers(f: Format, rm: RoundingMode, s: nat, n: nat, exp: int, x: real, v: real, r: nat, raised: Flags, unit: real)
    requires f.Valid() && Pow2(f.size - 2) <= s < Pow2(f.size - 1) && IsRoot(s, n)
    requires 1 <= exp < f.ExpMask() - 1 && x == Placed(f, exp, StandIn(s, n))
    requires unit == (Exp2(exp - 1 - f.Rnd()) * Exp2(f.QuantumExp())) * (Exp2(exp - 1 - f.Rnd()) * Exp2(f.QuantumExp()))
    requires v == n as real * unit && Delivers(f, rm, false, x, r, raised)
    ensures DeliversRoot(f, rm, v, r, raised)
  {
    hide *;
    var k := Quotient(s, 2 * Half(f));
    var u := f.WordAt(exp, k);
    HalfIsEven(f);
    SignificandRange(f, s);
    FormatFacts(f);
    BracketedWord(f, s, n, exp, k, x, v, unit, u);
    RootCompares(f, rm, x, v, u);
    LocalRounding(f, rm, false, x, u);
    var w: nat := if RootRoundsUp(f, rm, v, u) then u + 1 else u;
    NormalStandIn(f, s, n, exp, x);
    NormalIsNotTiny(f, rm, false, x);
    WordBelowInf(f, exp, k);
    RaisedIs(f, rm, false, x);
    UniqueDelivery(f, rm, x, w, r, raised);
    ConcludeRoot(f, rm, v, u, w, x, r, raised);
  }

  lemma UniqueDelivery(f: Format, rm: RoundingMode, x: real, w: nat, r: nat, raised: Flags)
    requires f.Valid() && Delivers(f, rm, false, x, r, raised) && IsRounding(f, rm, false, x, w) && w < f.Inf()
    ensures r == w && raised == Raised(f, rm, false, x, w)
  {
    hide IsRounding, Raised;
    var w2: nat :| IsRounding(f, rm, false, x, w2) && raised == Raised(f, rm, false, x, w2) &&
      r == f.Pack(false, if w2 < f.Inf() then w2 else if OverflowsToInfinity(rm, false) then f.Inf() else f.Inf() - 1);
    RoundingUnique(f, rm, false, x, w, w2);
  }

  lemma ConcludeRoot(f: Format, rm: RoundingMode, v: real, u: nat, w: nat, x: real, r: nat, raised: Flags)
    requires f.Valid() && RootIsFrom(f, v, u) && w == (if RootRoundsUp(f, rm, v, u) then u + 1 else u)
    requires r == w && w < f.Inf() && raised == Flags(false, false, false, false, f.Mag(w) as real != x)
    requires f.Mag(u + 1) as real == Upper(f, u) && SameOrder(f, Lower(f, u), x, v) && SameOrder(f, Upper(f, u), x, v)
    ensures DeliversRoot(f, rm, v, r, raised)
  {
    hide SquaredValue, RootIsFrom, RootRoundsUp, Format.Mag, Format.Ulp;
  }

  lemma WordBelowInf(f: Format, exp: int, k: nat)
    requires f.Valid() && 1 <= exp < f.ExpMask() - 1 && k < Pow2(f.mant + 1)
    ensures f.WordAt(exp, k) + 1 < f.Inf()
  {
    MulLe(exp + 1, f.ExpMask() - 1, Pow2(f.mant));
    MulDist(exp - 1, 2, Pow2(f.mant));
    MulDist(f.ExpMask(), -1, Pow2(f.mant));
    Pow2Mono(1, f.mant);
  }

  lemma NormalStandIn(f: Format, s: nat, n: nat, exp: int, x: real)
    requires f.Valid() && Pow2(f.size - 2) <= s && exp >= 1 && x == Placed(f, exp, StandIn(s, n))
    ensures x >= Pow2(f.mant) as real
  {
    FormatFacts(f);
    Pow2Mono(f.mant, f.mant + exp - 1);
    hide Exp2, Pow2, Placed;
    PlacedAtLeast(f, exp, StandIn(s, n), f.size - 2, f.mant + exp - 1);
  }

  /** The word below the root, its middle and the next word, all at integer mantissas. */
  lemma BracketedWord(f: Format, s: nat, n: nat, exp: int, k: nat, x: real, v: real, unit: real, u: nat)
    requires f.Valid() && Pow2(f.size - 2) <= s && IsRoot(s, n) && exp >= 1
    requires x == Placed(f, exp, StandIn(s, n)) && k == Quotient(s, 2 * Half(f)) && u == f.WordAt(exp, k)
    requires Pow2(f.mant) <= k < Pow2(f.mant + 1)
    requires unit == (Exp2(exp - 1 - f.Rnd()) * Exp2(f.QuantumExp())) * (Exp2(exp - 1 - f.Rnd()) * Exp2(f.QuantumExp()))
    requires v == n as real * unit
    ensures SameOrder(f, Lower(f, u), x, v) && SameOrder(f, Middle(f, u), x, v) && SameOrder(f, Upper(f, u), x, v)
    ensures f.Mag(u) as real <= x < (f.Mag(u) + f.Ulp(u)) as real
  {
    hide *;
    var c, half := Exp2(exp - 1 - f.Rnd()), Half(f);
    var lo := k * (2 * half);
    HalfIsEven(f);
    MagOfSignificand(f, exp, k);
    Exp2Scale(f.Rnd(), exp - 1 - f.Rnd());
    Exp2Nat(exp - 1);
    PlacedIs(f, exp, StandIn(s, n));
    MantissaPoints(f, exp, k, half, lo, c, u);
    StandInSameOrder(f, s, n, lo, c, unit, Lower(f, u), x, v);
    StandInSameOrder(f, s, n, lo + half, c, unit, Middle(f, u), x, v);
    StandInSameOrder(f, s, n, lo + 2 * half, c, unit, Upper(f, u), x, v);
    FloorBounds(s, 2 * half, k, lo);
    StandInBetween(s, n, lo, lo + 2 * half, c, Lower(f, u), Upper(f, u), x);
    BoundsAre(f, u);
  }

  lemma BoundsAre(f: Format, u: nat)
    ensures Lower(f, u) == f.Mag(u) as real && Upper(f, u) == (f.Mag(u) + f.Ulp(u)) as real
    ensures Middle(f, u) == f.Mag(u) as real + f.Ulp(u) as real / 2.0
  {
  }

  lemma FloorBounds(s: nat, g: nat, k: nat, lo: nat)
    requires g > 0 && k == s / g && lo == k * g
    ensures lo <= s < lo + g
  {
  }

  lemma StandInBetween(s: nat, n: nat, lo: nat, hi: nat, c: real, lq: real, hq: real, x: real)
    requires lo <= s < hi && c > 0.0 && lq == lo as real * c && hq == hi as real * c && x == StandIn(s, n) * c
    ensures lq <= x < hq
  {
    RMulLe(lo as real, StandIn(s, n), c);
    RMulLt(StandIn(s, n), hi as real, c);
  }

  lemma MantissaPoints(f: Format, exp: int, k: nat, half: nat, lo: nat, c: real, u: nat)
    requires exp >= 1 && half > 0 && lo == k * (2 * half) && (2 * half) as real * c == Pow2(exp - 1) as real
    requires f.Mag(u) == k * Pow2(exp - 1) && f.Ulp(u) == Pow2(exp - 1)
    ensures Lower(f, u) == lo as real * c && Middle(f, u) == (lo + half) as real * c
    ensures Upper(f, u) == (lo + 2 * half) as real * c
  {
    hide Format.Mag, Format.Ulp, Pow2;
    RealProduct(k, Pow2(exp - 1));
    RealProduct(k, 2 * half);
    Regrouped(k as real, (2 * half) as real, c, Pow2(exp - 1) as real);
    RDist(lo as real, half as real, c);
    RDist(lo as real, (2 * half) as real, c);
    Doubling(half as real, c);
  }

  lemma Doubling(h: real, c: real)
    ensures (2.0 * h) * c == 2.0 * (h * c)
  {
  }

  lemma RootExpRange(f: Format, a: nat)
    requires f.Valid() && a < Pow2(f.size) && f.MantOf(a) < Pow2(f.size) && !IsZero(f, a) && f.IsFinite(a)
    ensures 1 <= RootExp(f, NormalExp(f, a)) < f.ExpMask() - 1
  {
    hide *;
    FormatFacts(f);
    Unpacked(f, a);
    ExpBound(f, a);
    NormalOperand(f, a);
    UnpackedIs(f, a);
    MantFits(f, a);
    if f.ExpOf(a) == 0 { SubnormalIs(f, a); }
    RootExpIs(f, NormalExp(f, a));
    BiasFacts(f);
  }

  lemma ExpBound(f: Format, a: nat)
    requires f.Valid()
    ensures 0 <= f.ExpOf(a) <= f.ExpMask()
  {
  }

  lemma BiasFacts(f: Format)
    requires f.Valid()
    ensures 2 * f.mant <= f.Bias() && f.ExpMask() == 2 * f.Bias() + 1 && f.Bias() >= 127
  {
    Pow2Mono(7, f.exp - 1);
    assert Pow2(7) == 128;
  }

  /** sqrt_sf, over the two-word sqrtrem_u. */
  method SqrtSf(f: Format, a: nat, rm: RoundingMode) returns (r: nat, raised: Flags)
    requires f.Valid() && a < Pow2(f.size)
    ensures if f.IsFinite(a) && f.Value(a) > 0.0 then DeliversRoot(f, rm, f.Value(a), r, raised)
            else SpecialRoot(f, a, r, raised)
  {
    hide *;
    FormatFacts(f);
    MantFits(f, a);
    SpecialIs(f, a);
    ZeroValue(f, a);
    ValueSign(f, a);
    if f.ExpOf(a) == f.ExpMask() || f.Negative(a) || IsZero(f, a) {
      r, raised := SqrtSpecial(f, a);
      return;
    }
    NormalOperand(f, a);
    var exp, mant := NormalExp(f, a) - f.Bias(), NormalMant(f, a);
    if exp % 2 != 0 {
      exp := exp - 1;
      mant := 2 * mant;
    }
    exp := exp / 2 + f.Bias();
    mant := mant * Pow2(f.size - 4 - f.mant);
    RootInputs(f, NormalExp(f, a), NormalMant(f, a), exp, mant);
    RadicandRange(f, NormalExp(f, a), NormalMant(f, a));
    EmptyLowWord(f.size, mant);
    var ok, s, inexact := SqrtRemU(f.size, mant, 0);
    ghost var n := mant * Pow2(f.size);
    RootRange(f, mant, s);
    RootNormalizable(f, exp, s, n);
    r, raised := NormalizePack(f, false, exp, OrBit(s, inexact), rm, StandIn(s, n));
    RootDelivered(f, rm, a, s, n, exp, r, raised);
  }

  lemma RootInputs(f: Format, e: int, k: nat, exp: int, mant: int)
    requires f.Valid() && f.size - 4 - f.mant >= 0
    requires exp == (if (e - f.Bias()) % 2 != 0 then e - f.Bias() - 1 else e - f.Bias()) / 2 + f.Bias()
    requires mant == (if (e - f.Bias()) % 2 != 0 then 2 * k else k) * Pow2(f.size - 4 - f.mant)
    ensures exp == RootExp(f, e) && mant == Radicand(f, e, k)
  {
  }

  lemma ValueSign(f: Format, a: nat)
    requires f.Valid()
    ensures f.Value(a) > 0.0 <==> f.Value(a) != 0.0 && !f.Negative(a)
  {
    hide Exp2, Format.Mag;
    RMulLe(0.0, f.Mag(f.Word(a)) as real, Exp2(f.QuantumExp()));
  }

  lemma RootNormalizable(f: Format, exp: int, s: nat, n: nat)
    requires f.Valid() && Pow2(f.size - 2) <= s < Pow2(f.size - 1)
    ensures Normalizable(f, exp, OrBit(s, Square(s) != n), StandIn(s, n))
  {
    hide *;
    FormatFacts(f);
    StandInIsOdd(s, n);
    Pow2Mono(f.mant + 2, f.size - 2);
    Pow2Even(f.size - 1);
    OrBitRange(s, Square(s) != n, Pow2(f.size - 1));
    OddNormalizable(f, exp, OrBit(s, Square(s) != n), StandIn(s, n));
  }

  lemma RootDelivered(f: Format, rm: RoundingMode, a: nat, s: nat, n: nat, exp: int, r: nat, raised: Flags)
    requires f.Valid() && a < Pow2(f.size) && f.MantOf(a) < Pow2(f.size) && !IsZero(f, a) && f.IsFinite(a)
    requires !f.Negative(a) && exp == RootExp(f, NormalExp(f, a))
    requires n == Radicand(f, NormalExp(f, a), NormalMant(f, a)) * Pow2(f.size)
    requires Pow2(f.size - 2) <= s < Pow2(f.size - 1) && IsRoot(s, n)
    requires Delivers(f, rm, false, Placed(f, exp, StandIn(s, n)), r, raised)
    ensures DeliversRoot(f, rm, f.Value(a), r, raised)
  {
    hide *;
    var e, k := NormalExp(f, a), NormalMant(f, a);
    var c, q := Exp2(exp - 1 - f.Rnd()), Exp2(f.QuantumExp());
    var unit := (c * q) * (c * q);
    NormalOperand(f, a);
    RootExpRange(f, a);
    RadicandValue(f, e, k, n, exp, unit);
    PositiveValue(f, a);
    Exp2Add(e - 1, f.QuantumExp());
    Regrouped(k as real, Exp2(e - 1), q, Exp2(e - 1 + f.QuantumExp()));
    StandInDelivers(f, rm, s, n, exp, Placed(f, exp, StandIn(s, n)), f.Value(a), r, raised, unit);
  }

  lemma PositiveValue(f: Format, a: nat)
    requires f.Valid() && !f.Negative(a)
    ensures f.Value(a) == f.Mag(f.Word(a)) as real * Exp2(f.QuantumExp())
  {
    hide Exp2, Format.Mag, Format.Word, Format.QuantumExp;
  }

  /** The branches of sqrt_sf for NaNs, infinities, zeros and negative operands. */
  method SqrtSpecial(f: Format, a: nat) returns (r: nat, raised: Flags)
    requires f.Valid() && a < Pow2(f.size)
    requires f.ExpOf(a) == f.ExpMask() || f.Negative(a) || IsZero(f, a)
    ensures SpecialRoot(f, a, r, raised)
  {
    SpecialIs(f, a);
    PositiveZero(f, a);
    hide Format.IsNaN, Format.IsSignalingNaN, IsZero, Format.ExpOf, Format.MantOf, Format.Pack, Format.Negative;
    r, raised := f.QNaN(), NO_FLAGS;
    if f.ExpOf(a) == f.ExpMask() {
      if f.MantOf(a) != 0 {
        if f.IsSignalingNaN(a) { raised := INVALID; }
      } else if f.Negative(a) {
        raised := INVALID;
      } else {
        r := a;
      }
    } else if f.Negative(a) {
      if IsZero(f, a) { r := a; } else { raised := INVALID; }
    } else {
      r := f.Pack(false, 0);
    }
  }

  lemma PositiveZero(f: Format, a: nat)
    requires f.Valid() && a < Pow2(f.size)
    ensures IsZero(f, a) && !f.Negative(a) ==> a == f.Pack(false, 0)
  {
    hide Format.ExpOf, Format.MantOf, Format.Word, Format.Negative;
    Fields(f, a);
  }
}
