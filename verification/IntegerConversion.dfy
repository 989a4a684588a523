/** softfp_template_icvt.h: conversions between floating-point numbers and integers. */
module IntegerConversion {
  import opened Arith
  import opened FloatFormat
  import opened Rounding
  import opened Sticky
  import opened Significand
  import opened Packing
  import opened Normalize
  import opened DoubleWord
  import Multiplication

  // -----------------------------------------------------------------------------------------
  // What is asked for
  // -----------------------------------------------------------------------------------------

  /** k is the magnitude x rounded to an integer in mode rm, the number itself having the given
      sign (section 5.8, with the rounding directions of section 4.3). */
  ghost predicate RoundsToInteger(rm: RoundingMode, neg: bool, x: real, k: nat) {
    var up, down := x <= k as real < x + 1.0, k as real <= x < k as real + 1.0;
    var twice := 2.0 * Abs(k as real - x);
    match rm
    case RNE => twice < 1.0 || (twice == 1.0 && k % 2 == 0)
    case RMM => twice < 1.0 || (twice == 1.0 && k as real > x)
    case RTZ => down
    case RDN => if neg then up else down
    case RUP => if neg then down else up
  }

  lemma RoundsToIntegerUnique(rm: RoundingMode, neg: bool, x: real, j: nat, k: nat)
    requires RoundsToInteger(rm, neg, x, j) && RoundsToInteger(rm, neg, x, k)
    ensures j == k
  {
    var d := j - k;
    assert d as real == j as real - k as real;
  }

  /** The range of n-bit integers, and an integer's word in two's complement. */
  function MaxInt(n: nat, isUnsigned: bool): int
    requires n >= 1
  {
    if isUnsigned then Pow2(n) - 1 else Pow2(n - 1) - 1
  }

  function MinInt(n: nat, isUnsigned: bool): int
    requires n >= 1
  {
    if isUnsigned then 0 else 0 - Pow2(n - 1)
  }

  function IntWord(n: nat, v: int): int { v % Pow2(n) }

  /** The end of the range on the side of the sign, as a word. */
  function LimitWord(n: nat, isUnsigned: bool, neg: bool): int
    requires n >= 1
  {
    IntWord(n, if neg then MinInt(n, isUnsigned) else MaxInt(n, isUnsigned))
  }

  /** The result and the exceptions due when a is converted: rounded if that fits, else the
      nearest end of the range with the invalid exception, NaNs counting as plus infinity. */
  ghost predicate ConvertsTo(f: Format, n: nat, a: nat, rm: RoundingMode, isUnsigned: bool, r: nat, raised: Flags)
    requires f.Valid() && n >= 1
  {
    if f.IsFinite(a) then
      SaturatedRounding(n, rm, isUnsigned, f.Negative(a), Abs(f.Value(a)), r, raised)
    else
      r == LimitWord(n, isUnsigned, f.Negative(a) && !f.IsNaN(a)) && raised == INVALID
  }

  ghost predicate SaturatedRounding(n: nat, rm: RoundingMode, isUnsigned: bool, neg: bool, x: real, r: nat, raised: Flags)
    requires n >= 1
  {
    exists k: nat :: RoundsToInteger(rm, neg, x, k) && Saturates(n, isUnsigned, neg, k, x, r, raised)
  }

  ghost predicate Saturates(n: nat, isUnsigned: bool, neg: bool, k: nat, x: real, r: nat, raised: Flags)
    requires n >= 1
  {
    var v := if neg then 0 - k else k;
    if MinInt(n, isUnsigned) <= v <= MaxInt(n, isUnsigned)
    then r == IntWord(n, v) && raised == NO_FLAGS.(inexact := k as real != x)
    else r == LimitWord(n, isUnsigned, neg) && raised == INVALID
  }

  // -----------------------------------------------------------------------------------------
  // Floating point to integer
  // -----------------------------------------------------------------------------------------

  /** r_max: the largest magnitude in range. */
  function MaxMagnitude(n: nat, isUnsigned: bool, neg: bool): (m: nat)
    requires n >= 1
    ensures m < Pow2(n)
  {
    if isUnsigned then (if neg then 0 else Pow2(n) - 1) else if neg then Pow2(n - 1) else Pow2(n - 1) - 1
  }

  lemma MagnitudeRange(n: nat, isUnsigned: bool, neg: bool, k: nat)
    requires n >= 1
    ensures k <= MaxMagnitude(n, isUnsigned, neg) <==>
            MinInt(n, isUnsigned) <= (if neg then 0 - k else k) <= MaxInt(n, isUnsigned)
    ensures MaxMagnitude(n, isUnsigned, neg) == LimitWord(n, isUnsigned, neg)
    ensures k <= MaxMagnitude(n, isUnsigned, neg) ==> k < Pow2(n) && IntWord(n, k) == k
  {
    var limit := if neg then MinInt(n, isUnsigned) else MaxInt(n, isUnsigned);
    if neg && !isUnsigned {
      DivUnique(limit, Pow2(n), -1, MaxMagnitude(n, isUnsigned, neg));
    } else {
      DivUnique(limit, Pow2(n), 0, MaxMagnitude(n, isUnsigned, neg));
    }
    if k <= MaxMagnitude(n, isUnsigned, neg) { DivUnique(k, Pow2(n), 0, k); }
  }

  /** A finite number is its significand times a power of two. */
  lemma ValueIs(f: Format, a: nat, e: int)
    requires f.Valid() && a < Pow2(f.size) && e == UnpackedExp(f, a) - f.Bias() - f.mant
    ensures Abs(f.Value(a)) == UnpackedMant(f, a) as real * Exp2(e)
  {
    hide *;
    Multiplication.AbsValue(f, a);
    Unpacked(f, a);
    QuantumIs(f);
    Exp2Nat(UnpackedExp(f, a) - 1);
    Exp2Add(UnpackedExp(f, a) - 1, f.QuantumExp());
    Multiplication.RealProductIs(UnpackedMant(f, a), Pow2(UnpackedExp(f, a) - 1), f.Mag(f.Word(a)));
    Regrouped(UnpackedMant(f, a) as real, Pow2(UnpackedExp(f, a) - 1) as real, Exp2(f.QuantumExp()), Exp2(e));
  }

  lemma QuantumIs(f: Format)
    requires f.Valid()
    ensures f.QuantumExp() == 1 - f.Bias() - f.mant && f.Bias() >= f.mant + 1 && f.Rnd() >= 7
    ensures f.size == f.mant + f.Rnd() + 2 && f.ExpMask() == 2 * f.Bias() + 1 && f.ExpMask() > 0
  {
  }

  /** Rounding a mantissa with Rnd() bits below the point is rounding to an integer. */
  lemma MantissaToInteger(f: Format, rm: RoundingMode, neg: bool, m: nat, xm: real, x: real)
    requires f.Valid() && StandsFor(m, xm, Half(f)) && xm == x * Pow2(f.Rnd()) as real
    ensures RoundsToInteger(rm, neg, x, RoundedSignificand(rm, neg, Half(f), m))
    ensures m % Pow2(f.Rnd()) != 0 <==> RoundedSignificand(rm, neg, Half(f), m) as real != x
  {
    hide *;
    HalfIsEven(f);
    var g: nat := 2 * Half(f);
    var k: nat := Quotient(m, g);
    MulLe(0, k, g);
    ZeroTimes(g);
    var lo: nat := k * g;
    SignificandChoice(rm, neg, m, xm, Half(f), k, lo);
    StepToInteger(rm, neg, k, g, lo, xm, x);
  }

  lemma StepToInteger(rm: RoundingMode, neg: bool, k: nat, g: nat, lo: nat, xm: real, x: real)
    requires g > 0 && lo == k * g && xm == x * g as real && lo as real <= xm < (lo + g) as real
    ensures var r := if RoundsUp(rm, neg, k % 2 == 1, xm - lo as real, g as real) then k + 1 else k;
            RoundsToInteger(rm, neg, x, r) && (xm != lo as real <==> r as real != x)
  {
    hide *;
    Unscaled(k, g, lo, xm, x);
    var below, c := x - k as real, g as real;
    RoundsUpScaled(rm, neg, k % 2 == 1, below, c, xm - lo as real);
    ChosenInteger(rm, neg, x, k);
  }

  lemma RoundsUpScaled(rm: RoundingMode, neg: bool, odd: bool, below: real, c: real, scaled: real)
    requires c > 0.0 && below >= 0.0 && scaled == below * c
    ensures RoundsUp(rm, neg, odd, scaled, c) == RoundsUp(rm, neg, odd, below, 1.0)
  {
    hide *;
    RoundsUpScales(rm, neg, odd, below, 1.0, c);
    assert 1.0 * c == c;
  }

  lemma Unscaled(k: int, g: nat, lo: int, xm: real, x: real)
    requires g > 0 && lo == k * g && xm == x * g as real && lo as real <= xm < (lo + g) as real
    ensures k as real <= x < (k + 1) as real && (xm == lo as real <==> x == k as real)
    ensures xm - lo as real == (x - k as real) * g as real
  {
    var gr := g as real;
    Multiplication.RealProductIs(k, g, lo);
    RDist(x, -(k as real), gr);
    RDist(k as real, 1.0, gr);
    RCancel(x, k as real, gr);
    RCancel(x, (k + 1) as real, gr);
  }

  lemma ChosenInteger(rm: RoundingMode, neg: bool, x: real, k: nat)
    requires k as real <= x < (k + 1) as real
    ensures var r := if RoundsUp(rm, neg, k % 2 == 1, x - k as real, 1.0) then k + 1 else k;
            RoundsToInteger(rm, neg, x, r) && (x != k as real <==> r as real != x)
  {
  }

  /** The fraction kept below the point tells how to round. */
  lemma FractionKept(f: Format, k: nat, d: nat, m: nat, x: real, xm: real)
    requires f.Valid() && k < Pow2(f.mant + 1) && m == ShiftRightSticky(f.size, Shl(k, f.Rnd()), d)
    requires x * Pow2(d) as real == k as real && xm == x * Pow2(f.Rnd()) as real
    ensures StandsFor(m, xm, Half(f))
  {
    hide *;
    var n := Shl(k, f.Rnd());
    HalfIsEven(f);
    PointedFits(f, k, n);
    ShiftRightStickyIs(f.size, n, d);
    Multiplication.RealProductIs(k, Pow2(f.Rnd()), n);
    Swapped(x, Pow2(d) as real, Pow2(f.Rnd()) as real, k as real, n as real, xm);
    QuotientIsOddRounding(n, Pow2(d), xm);
    OddStandsFor(m, xm, Half(f));
  }

  lemma PointedFits(f: Format, k: nat, n: nat)
    requires f.Valid() && k < Pow2(f.mant + 1) && n == Shl(k, f.Rnd())
    ensures n < Pow2(f.size) && n == k * Pow2(f.Rnd())
  {
    hide *;
    QuantumIs(f);
    ShlIs(k, f.Rnd());
    Pow2Add(f.mant + 1, f.Rnd());
    Pow2Mono(f.size - 1, f.size);
    MulLt(k, Pow2(f.mant + 1), Pow2(f.Rnd()));
  }

  lemma Swapped(x: real, p: real, q: real, k: real, n: real, xq: real)
    requires x * p == k && n == k * q && xq == x * q
    ensures xq * p == n
  {
  }

  /** Shifting the significand up gives the integer, unless it is out of range anyhow. */
  lemma ShiftedInteger(f: Format, n: nat, k: nat, e: nat)
    requires f.Valid() && n >= 1 && k < Pow2(f.mant + 1)
    ensures e <= n - 1 - f.mant ==> Shl(k, e) < Pow2(n)
    ensures e > n - 1 - f.mant && k >= Pow2(f.mant) ==> Shl(k, e) >= Pow2(n)
    ensures Quotient(Shl(k, f.Rnd()), Pow2(f.Rnd())) == k
  {
    hide *;
    ShlIs(k, e);
    ShlIs(k, f.Rnd());
    DivMod(Shl(k, f.Rnd()), Pow2(f.Rnd()));
    QuotientOfProduct(k, Pow2(f.Rnd()));
    if e <= n - 1 - f.mant {
      Pow2Add(f.mant + 1, e);
      MulLt(k, Pow2(f.mant + 1), Pow2(e));
      Pow2Mono(f.mant + 1 + e, n);
    } else if k >= Pow2(f.mant) {
      Pow2Add(f.mant, e);
      MulLe(Pow2(f.mant), k, Pow2(e));
      Pow2Mono(n, f.mant + e);
    }
  }

  lemma QuotientOfProduct(k: nat, p: nat)
    requires p > 0
    ensures Quotient(k * p, p) == k
  {
    DivUnique(k * p, p, k, 0);
  }

  lemma ExactInteger(rm: RoundingMode, neg: bool, k: nat, x: real)
    requires x == k as real
    ensures RoundsToInteger(rm, neg, x, k)
  {
  }

  lemma Converted(f: Format, n: nat, a: nat, rm: RoundingMode, isUnsigned: bool, k: nat, x: real, r: nat, raised: Flags)
    requires f.Valid() && n >= 1 && f.IsFinite(a) && a < Pow2(f.size) && x == Abs(f.Value(a))
    requires RoundsToInteger(rm, f.Negative(a), x, k)
    requires if k > MaxMagnitude(n, isUnsigned, f.Negative(a))
             then r == MaxMagnitude(n, isUnsigned, f.Negative(a)) && raised == INVALID
             else r == IntWord(n, if f.Negative(a) then 0 - k else k) && raised == NO_FLAGS.(inexact := k as real != x)
    ensures ConvertsTo(f, n, a, rm, isUnsigned, r, raised)
  {
    hide *;
    MagnitudeRange(n, isUnsigned, f.Negative(a), k);
    SaturatesIs(n, isUnsigned, f.Negative(a), k, x, r, raised);
    SaturatedBy(n, rm, isUnsigned, f.Negative(a), k, x, r, raised);
    ConvertsToIs(f, n, a, rm, isUnsigned, r, raised);
  }

  lemma SaturatesIs(n: nat, isUnsigned: bool, neg: bool, k: nat, x: real, r: nat, raised: Flags)
    requires n >= 1
    ensures Saturates(n, isUnsigned, neg, k, x, r, raised) ==
            if MinInt(n, isUnsigned) <= (if neg then 0 - k else k) <= MaxInt(n, isUnsigned)
            then r == IntWord(n, if neg then 0 - k else k) && raised == NO_FLAGS.(inexact := k as real != x)
            else r == LimitWord(n, isUnsigned, neg) && raised == INVALID
  {
    hide MinInt, MaxInt, IntWord, LimitWord;
  }

  lemma SaturatedBy(n: nat, rm: RoundingMode, isUnsigned: bool, neg: bool, k: nat, x: real, r: nat, raised: Flags)
    requires n >= 1 && RoundsToInteger(rm, neg, x, k) && Saturates(n, isUnsigned, neg, k, x, r, raised)
    ensures SaturatedRounding(n, rm, isUnsigned, neg, x, r, raised)
  {
  }

  lemma ConvertsToIs(f: Format, n: nat, a: nat, rm: RoundingMode, isUnsigned: bool, r: nat, raised: Flags)
    requires f.Valid() && n >= 1 && f.IsFinite(a)
    ensures ConvertsTo(f, n, a, rm, isUnsigned, r, raised) ==
            SaturatedRounding(n, rm, isUnsigned, f.Negative(a), Abs(f.Value(a)), r, raised)
  {
    hide SaturatedRounding;
  }

  lemma NotConverted(f: Format, n: nat, a: nat, rm: RoundingMode, isUnsigned: bool, neg: bool)
    requires f.Valid() && n >= 1 && !f.IsFinite(a) && neg == (f.Negative(a) && !f.IsNaN(a))
    ensures ConvertsTo(f, n, a, rm, isUnsigned, MaxMagnitude(n, isUnsigned, neg), INVALID)
  {
    MagnitudeRange(n, isUnsigned, neg, 0);
  }

  /** Infinities and NaNs lie beyond every integer range, as does every large enough number. */
  lemma BeyondRange(f: Format, n: nat, a: nat, e: int)
    requires f.Valid() && a < Pow2(f.size) && 1 <= n <= f.Bias() + 1
    requires e == UnpackedExp(f, a) - f.Bias() - f.mant
    ensures UnpackedMant(f, a) < Pow2(f.mant + 1)
    ensures f.IsFinite(a) || (e >= 0 && e > n - 1 - f.mant)
    ensures e >= 0 ==> UnpackedMant(f, a) >= Pow2(f.mant)
    ensures f.IsFinite(a) ==> !f.IsNaN(a)
    ensures f.IsNaN(a) <==> f.ExpOf(a) == f.ExpMask() && f.MantOf(a) != 0
  {
    hide Format.MantOf, Format.ExpOf;
    QuantumIs(f);
    Unpacked(f, a);
    Multiplication.SpecialIs(f, a);
  }

  /** internal_cvt_sf_i for n-bit integers.  Results are words; a signed one is to be read in
      two's complement. */
  method ToInteger(f: Format, n: nat, a: nat, rm: RoundingMode, isUnsigned: bool) returns (r: nat, raised: Flags)
    requires f.Valid() && a < Pow2(f.size) && 1 <= n <= f.Bias() + 1
    ensures ConvertsTo(f, n, a, rm, isUnsigned, r, raised)
  {
    hide *;
    var neg := f.Negative(a);
    if f.ExpOf(a) == f.ExpMask() && f.MantOf(a) != 0 { neg := false; }
    var k := UnpackedMant(f, a);
    var mant := Shl(k, f.Rnd());
    var e := UnpackedExp(f, a) - f.Bias() - f.mant;
    var max := MaxMagnitude(n, isUnsigned, neg);
    BeyondRange(f, n, a, e);
    FlagsIs();
    if f.IsFinite(a) { ValueIs(f, a, e); } else { NotConverted(f, n, a, rm, isUnsigned, neg); }
    if e >= 0 {
      ShiftedInteger(f, n, k, e);
      ghost var exact := Shl(k, e);
      if f.IsFinite(a) { IntegerValue(rm, neg, k, e, exact, Abs(f.Value(a))); }
      ghost var over := Flags(true, false, false, false, false);
      if f.IsFinite(a) && exact > max { Converted(f, n, a, rm, isUnsigned, exact, Abs(f.Value(a)), max, over); }
      if e <= n - 1 - f.mant {
        r := Shl(Quotient(mant, Pow2(f.Rnd())), e) % Pow2(n);
        InWord(exact, n);
        if r > max { return max, Flags(true, false, false, false, false); }
        raised := Flags(false, false, false, false, false);
      } else {
        return max, Flags(true, false, false, false, false);
      }
    } else {
      mant := ShiftRightSticky(f.size, mant, 0 - e);
      ghost var x := Abs(f.Value(a));
      Fraction(k, e, x);
      ghost var xm := x * Pow2(f.Rnd()) as real;
      FractionKept(f, k, 0 - e, mant, x, xm);
      MantissaToInteger(f, rm, neg, mant, xm, x);
      var rndBits := mant % Pow2(f.Rnd());
      r := RoundedSignificand(rm, neg, Half(f), mant);
      if r > max {
        Converted(f, n, a, rm, isUnsigned, r, x, max, Flags(true, false, false, false, false));
        return max, Flags(true, false, false, false, false);
      }
      raised := Flags(false, false, false, false, rndBits != 0);
    }
    ghost var m := r;
    MagnitudeRange(n, isUnsigned, neg, m);
    if neg { r := NegatedWord(n, r); }
    Converted(f, n, a, rm, isUnsigned, m, Abs(f.Value(a)), r, raised);
  }

  lemma FlagsIs()
    ensures INVALID == Flags(true, false, false, false, false)
    ensures forall b: bool :: NO_FLAGS.(inexact := b) == Flags(false, false, false, false, b)
  {
  }

  /** `-r` in an n-bit word */
  function NegatedWord(n: nat, r: nat): (w: nat)
    ensures w == IntWord(n, 0 - r)
  {
    (0 - r) % Pow2(n)
  }

  lemma InWord(v: nat, n: nat)
    requires v < Pow2(n)
    ensures v % Pow2(n) == v
  {
    DivUnique(v, Pow2(n), 0, v);
  }

  lemma IntegerValue(rm: RoundingMode, neg: bool, k: nat, e: nat, n: nat, x: real)
    requires n == Shl(k, e) && x == k as real * Exp2(e)
    ensures x == n as real && RoundsToInteger(rm, neg, x, n)
  {
    hide *;
    ShlIs(k, e);
    Exp2Nat(e);
    Multiplication.RealProductIs(k, Pow2(e), n);
    ExactInteger(rm, neg, n, x);
  }

  lemma Fraction(k: nat, e: int, x: real)
    requires e < 0 && x == k as real * Exp2(e)
    ensures x * Pow2(0 - e) as real == k as real
  {
    hide *;
    Exp2Add(e, 0 - e);
    Exp2Nat(0 - e);
    Exp2Nat(0);
    PowZero();
    RAssoc(k as real, Exp2(e), Pow2(0 - e) as real);
  }

  // -----------------------------------------------------------------------------------------
  // Integer to floating point
  // -----------------------------------------------------------------------------------------

  /** The value of an n-bit word. */
  function WordValue(n: nat, w: nat, isUnsigned: bool): int
    requires n >= 1
  {
    if isUnsigned || w < Pow2(n - 1) then w else w - Pow2(n)
  }

  /** The range is that of the integers which their words in two's complement stand for. */
  lemma RangeExact(n: nat, v: int, isUnsigned: bool)
    requires n >= 1
    ensures IntWord(n, v) >= 0
    ensures MinInt(n, isUnsigned) <= v <= MaxInt(n, isUnsigned) <==> WordValue(n, IntWord(n, v), isUnsigned) == v
  {
    hide Pow2;
    var p, h := Pow2(n), Pow2(n - 1);
    TwicePow(n - 1);
    if MinInt(n, isUnsigned) <= v <= MaxInt(n, isUnsigned) {
      if v < 0 { DivUnique(v, p, -1, v + p); } else { DivUnique(v, p, 0, v); }
    }
  }

  lemma ReducedRange(f: Format, r: nat, l: nat, m: nat, x: real, exp: int)
    requires f.Valid() && Pow2(l + f.size - 2) <= r < Pow2(l + f.size - 1)
    requires m == StickyDiv(r, Pow2(l)) && x * Pow2(l) as real == r as real
    ensures Normalizable(f, exp, m, x)
  {
    hide *;
    QuantumIs(f);
    StickyRange(f, r, l, m);
    Pow2Mono(f.mant + 2, f.size - 2);
    QuotientIsOddRounding(r, Pow2(l), x);
    Multiplication.OddNormalizable(f, exp, m, x);
  }

  lemma NarrowRange(f: Format, n: nat, r: nat, x: real, exp: int)
    requires f.Valid() && r < Pow2(n) && n - CountLeadingZeros(n, r) - (f.size - 1) <= 0
    requires x * Pow2(0) as real == r as real
    ensures Normalizable(f, exp, r, x)
  {
    hide *;
    QuantumIs(f);
    LeadingZerosBound(n, r);
    Unreduced(f, n, r, CountLeadingZeros(n, r));
    ExactNormalizable(f, exp, r, x);
  }

  lemma Unreduced(f: Format, n: nat, r: nat, z: nat)
    requires f.Valid() && z <= n && n - z <= f.size - 1 && r < Pow2(n - z)
    ensures r < Pow2(f.size - 1)
  {
    Pow2Mono(n - z, f.size - 1);
  }

  lemma LeadingZerosBound(n: nat, r: nat)
    requires r < Pow2(n)
    ensures CountLeadingZeros(n, r) <= n && r < Pow2(n - CountLeadingZeros(n, r))
    ensures CountLeadingZeros(n, r) < n ==> Pow2(n - 1 - CountLeadingZeros(n, r)) <= r
    ensures Pow2(0) == 1
  {
  }

  lemma StickyRange(f: Format, r: nat, l: nat, m: nat)
    requires f.Valid() && Pow2(l + f.size - 2) <= r < Pow2(l + f.size - 1) && m == StickyDiv(r, Pow2(l))
    ensures Pow2(f.size - 2) <= m < Pow2(f.size - 1)
  {
    hide *;
    QuantumIs(f);
    Pow2Add(f.size - 2, l);
    Pow2Add(f.size - 1, l);
    Pow2Even(f.size - 1);
    StickyDivIs(r, Pow2(l));
    QuotientRange2(r, Pow2(l), Pow2(f.size - 2));
    QuotientRange2(r, Pow2(l), Pow2(f.size - 1));
    OrBitBelow(Quotient(r, Pow2(l)), r % Pow2(l) != 0, Pow2(f.size - 1));
  }

  lemma ExactNormalizable(f: Format, exp: int, m: nat, x: real)
    requires f.Valid() && x == m as real && m < Pow2(f.size - 1)
    ensures Normalizable(f, exp, m, x)
  {
  }

  /** The mantissa and exponent of an integer have that integer as their value. */
  lemma IntegerPlaced(f: Format, r: nat, l: nat, x: real, exp: int)
    requires f.Valid() && x * Pow2(l) as real == r as real && exp == f.Bias() + f.size - 2 + l
    ensures r as real == Placed(f, exp, x) * Exp2(f.QuantumExp())
  {
    hide *;
    QuantumIs(f);
    PlacedIs(f, exp, x);
    Exp2Add(exp - 1 - f.Rnd(), f.QuantumExp());
    Exp2Nat(l);
    RAssoc(x, Exp2(exp - 1 - f.Rnd()), Exp2(f.QuantumExp()));
  }

  /** internal_cvt_i_sf for n-bit integers, narrower or wider than the floating-point word. */
  method FromInteger(f: Format, n: nat, a: nat, rm: RoundingMode, isUnsigned: bool) returns (r: nat, raised: Flags)
    requires f.Valid() && 1 <= n && a < Pow2(n)
    ensures DeliversValue(f, rm, WordValue(n, a, isUnsigned) < 0, Abs(WordValue(n, a, isUnsigned) as real), r, raised)
  {
    hide *;
    WordMagnitude(n, a, isUnsigned);
    var neg := !isUnsigned && a >= Pow2(n - 1);
    var m := if neg then NegatedWord(n, a) else a;
    ghost var v := m;
    var exp := f.Bias() + f.size - 2;
    var l := n - CountLeadingZeros(n, m) - (f.size - 1);
    QuantumIs(f);
    LeadingZerosBound(n, v);
    ghost var s: nat := if l > 0 then l else 0;
    ghost var x := m as real / Pow2(s) as real;
    Multiplication.Ratio(m as real, Pow2(s) as real, x);
    PowZero();
    if l > 0 {
      m := StickyDiv(m, Pow2(l));
      exp := exp + l;
      ReducedRange(f, v, s, m, x, exp);
    } else {
      NarrowRange(f, n, v, x, exp);
    }
    IntegerPlaced(f, v, s, x, exp);
    r, raised := NormalizePack(f, neg, exp, m, rm, x);
    InQuanta(f, rm, neg, Placed(f, exp, x), v as real, r, raised);
  }

  lemma WordMagnitude(n: nat, a: nat, isUnsigned: bool)
    requires n >= 1 && a < Pow2(n)
    ensures var neg := !isUnsigned && a >= Pow2(n - 1);
            var m := if neg then NegatedWord(n, a) else a;
            m < Pow2(n) && (WordValue(n, a, isUnsigned) < 0 <==> neg) &&
            Abs(WordValue(n, a, isUnsigned) as real) == m as real
  {
    if a > 0 { DivUnique(0 - a, Pow2(n), -1, Pow2(n) - a); }
  }
}
