/** add_sf: three guard bits, all lost bits folded into the lowest, one rounding. */
module Addition {
  import opened Arith
  import opened FloatFormat
  import opened Rounding
  import opened Sticky
  import opened Significand
  import opened Packing
  import opened Normalize

  /** The sign of a sum.  An exact zero is positive, unless both operands are negative zeros or
      the rounding is downward (section 6.3). */
  ghost predicate SumIsNegative(f: Format, a: nat, b: nat, rm: RoundingMode)
    requires f.Valid()
  {
    var v := f.Value(a) + f.Value(b);
    if v != 0.0 then v < 0.0
    else if f.Negative(a) == f.Negative(b) then f.Negative(a)
    else rm == RDN
  }

  /** What addition does when an operand is an infinity or a NaN. */
  predicate SpecialSum(f: Format, a: nat, b: nat, r: nat, raised: Flags)
    requires f.Valid()
  {
    if f.IsNaN(a) || f.IsNaN(b) then
      r == f.QNaN() && raised == (if f.IsSignalingNaN(a) || f.IsSignalingNaN(b) then INVALID else NO_FLAGS)
    else if !f.IsFinite(a) && !f.IsFinite(b) && f.Negative(a) != f.Negative(b) then
      r == f.QNaN() && raised == INVALID
    else
      r == (if f.IsFinite(a) then b else a) && raised == NO_FLAGS
  }

  // -----------------------------------------------------------------------------------------
  // Aligning the smaller operand
  // -----------------------------------------------------------------------------------------

  /** An even number plus or minus an odd rounding is an odd rounding. */
  lemma EvenPlusOdd(a: nat, b: nat, y: real)
    requires a % 2 == 0 && b <= a && IsOddRounding(b, y)
    ensures IsOddRounding(a + b, a as real + y) && IsOddRounding(a - b, a as real - y)
  {
  }

  /** The aligned significands: ka and kb with three guard bits, the second one shifted down
      by d places.  Whatever is lost is lost far below the leading bit. */
  lemma Aligned(f: Format, ka: nat, kb: nat, d: nat, p: nat, n: nat, y: real, b: nat)
    requires f.Valid() && ka < Pow2(f.mant + 1) && kb < Pow2(f.mant + 1)
    requires n == 8 * kb && p == Pow2(d) && y * p as real == n as real
    requires if d == 0 then ka >= kb else ka >= Pow2(f.mant)
    requires b == ShiftRightSticky(f.size, n, d)
    ensures IsOddRounding(b, y) && 0.0 <= y && b <= 8 * ka && 8 * ka + b < Pow2(f.size - 1)
    ensures y == b as real || 8 * ka - b >= Pow2(f.mant + 2)
  {
    hide *;
    GuardRoom(f);
    ShiftRightStickyIs(f.size, n, d);
    OddShift(n, p, y, b);
    if d <= 3 {
      SmallPowers(d);
      ExactShift(kb, p, n, y, b);
    } else {
      FourUp(d);
      WideShiftBound(n, p, Pow2(f.mant), b);
    }
  }

  lemma OddShift(n: nat, p: nat, y: real, b: nat)
    requires p > 0 && y * p as real == n as real && b == StickyDiv(n, p)
    ensures IsOddRounding(b, y) && y >= 0.0
  {
    QuotientIsOddRounding(n, p, y);
    NonNegativeQuotient(n, p, y);
  }

  lemma SmallPowers(d: nat)
    requires d <= 3
    ensures Pow2(d) == 1 || Pow2(d) == 2 || Pow2(d) == 4 || Pow2(d) == 8
    ensures Pow2(d) == 1 <==> d == 0
  {
  }

  lemma FourUp(d: nat)
    requires d >= 4
    ensures Pow2(d) >= 16
  {
    Pow2Mono(4, d);
  }

  lemma GuardRoom(f: Format)
    requires f.Valid()
    ensures Pow2(f.mant + 2) == 4 * Pow2(f.mant) && Pow2(f.mant + 1) == 2 * Pow2(f.mant)
    ensures 32 * Pow2(f.mant) <= Pow2(f.size - 1) < Pow2(f.size) && Pow2(f.mant) % 2 == 0
  {
    Pow2Mono(f.mant + 5, f.size - 1);
    Pow2Add(5, f.mant);
    assert Pow2(5) == 32;
  }

  lemma NonNegativeQuotient(n: nat, p: nat, y: real)
    requires p > 0 && y * p as real == n as real
    ensures y >= 0.0
  {
    if y < 0.0 { RMulLt(y, 0.0, p as real); }
  }

  /** Up to three places the guard bits absorb the shift. */
  lemma ExactShift(kb: nat, p: nat, n: nat, y: real, b: nat)
    requires (p == 1 || p == 2 || p == 4 || p == 8) && n == 8 * kb
    requires y * p as real == n as real && b == StickyDiv(n, p)
    ensures b as real == y && b <= 8 * kb && (p != 1 ==> b <= 4 * kb)
  {
    if p == 1 {
    } else if p == 2 {
      assert 8 * kb / 2 == 4 * kb;
    } else if p == 4 {
      assert 8 * kb / 4 == 2 * kb;
    } else {
      assert 8 * kb / 8 == kb;
    }
  }

  lemma WideShiftBound(n: nat, p: nat, m: nat, b: nat)
    requires p >= 16 && m % 2 == 0 && n < 16 * m && b == StickyDiv(n, p)
    ensures b < m
  {
    MulLe(16, p, m);
    QuotientRange(n, p, m);
  }

  /** The aligned mantissas carry the magnitudes of the operands. */
  lemma AlignedValue(f: Format, ea: nat, eb: nat, ka: nat, kb: nat, na: nat, nb: nat, y: real, same: bool, x: real)
    requires f.Valid() && ea >= eb >= 1 && na == 8 * ka && nb == 8 * kb
    requires y * Pow2(ea - eb) as real == nb as real
    requires x == if same then na as real + y else na as real - y
    ensures Placed(f, ea + f.Rnd() - 3, x) ==
            if same then (ka * Pow2(ea - 1)) as real + (kb * Pow2(eb - 1)) as real
            else (ka * Pow2(ea - 1)) as real - (kb * Pow2(eb - 1)) as real
  {
    hide *;
    var c, ub, p := Exp2(ea - 4), Pow2(eb - 1), Pow2(ea - eb);
    PlacedIs(f, ea + f.Rnd() - 3, x);
    Pow2Add(ea - eb, eb - 1);
    EightTimes(ea);
    RealProduct(ka, Pow2(ea - 1));
    RealProduct(kb, ub);
    RealProduct(p, ub);
    AlignedProducts(ka as real, kb as real, y, p as real, ub as real, Pow2(ea - 1) as real, c);
    RDist(na as real, y, c);
    RDist(na as real, -y, c);
  }

  lemma EightTimes(e: int)
    requires e >= 1
    ensures 8.0 * Exp2(e - 4) == Pow2(e - 1) as real
  {
    hide Exp2;
    Exp2Succ(e - 4);
    Exp2Succ(e - 3);
    Exp2Succ(e - 2);
    Exp2Nat(e - 1);
  }

  lemma AlignedProducts(ka: real, kb: real, y: real, p: real, ub: real, ua: real, c: real)
    requires y * p == 8.0 * kb && ua == p * ub && 8.0 * c == ua
    ensures (8.0 * ka) * c == ka * ua && y * c == kb * ub
  {
    assert y * ua == (y * p) * ub;
    assert 8.0 * (y * c) == y * (8.0 * c);
  }

  // -----------------------------------------------------------------------------------------
  // add_sf
  // -----------------------------------------------------------------------------------------

  /** The magnitude, in quanta, of the sum of two finite words, a having the larger one. */
  ghost function SumMagnitude(f: Format, a: nat, b: nat): real
    requires f.Valid()
  {
    if f.Negative(a) == f.Negative(b) then f.Mag(f.Word(a)) as real + f.Mag(f.Word(b)) as real
    else f.Mag(f.Word(a)) as real - f.Mag(f.Word(b)) as real
  }

  /** Everything normalize_sf needs for the sum of two finite words, a the larger one. */
  lemma AlignedOperands(f: Format, a: nat, b: nat, ea: nat, eb: nat, na: nat, nb: nat,
                        bMant: nat, same: bool, y: real, x: real)
    requires f.Valid() && a < Pow2(f.size) && b < Pow2(f.size) && f.Word(b) <= f.Word(a)
    requires ea == UnpackedExp(f, a) && eb == UnpackedExp(f, b) && ea >= eb
    requires na == 8 * UnpackedMant(f, a) && nb == 8 * UnpackedMant(f, b)
    requires bMant == ShiftRightSticky(f.size, nb, ea - eb)
    requires same == (f.Negative(a) == f.Negative(b))
    requires y * Pow2(ea - eb) as real == nb as real
    requires x == if same then na as real + y else na as real - y
    ensures bMant <= na
    ensures Normalizable(f, ea + f.Rnd() - 3, if same then na + bMant else na - bMant, x)
    ensures Placed(f, ea + f.Rnd() - 3, x) == SumMagnitude(f, a, b)
  {
    hide *;
    AlignedMantissas(f, a, b, ea, eb, na, nb, bMant, y);
    SumNormalizable(f, ea + f.Rnd() - 3, na, bMant, y, same, x);
    AlignedMagnitudes(f, a, b, ea, eb, na, nb, same, y, x);
  }

  lemma AlignedMantissas(f: Format, a: nat, b: nat, ea: nat, eb: nat, na: nat, nb: nat, bMant: nat, y: real)
    requires f.Valid() && a < Pow2(f.size) && b < Pow2(f.size) && f.Word(b) <= f.Word(a)
    requires ea == UnpackedExp(f, a) && eb == UnpackedExp(f, b) && ea >= eb
    requires na == 8 * UnpackedMant(f, a) && nb == 8 * UnpackedMant(f, b)
    requires bMant == ShiftRightSticky(f.size, nb, ea - eb) && y * Pow2(ea - eb) as real == nb as real
    ensures na % 2 == 0 && IsOddRounding(bMant, y) && 0.0 <= y && bMant <= na && na + bMant < Pow2(f.size - 1)
    ensures y == bMant as real || na - bMant >= Pow2(f.mant + 2)
  {
    hide *;
    UnpackedRange(f, a);
    UnpackedRange(f, b);
    if ea == eb { SameExponent(f, ea, UnpackedMant(f, a), UnpackedMant(f, b)); }
    Aligned(f, UnpackedMant(f, a), UnpackedMant(f, b), ea - eb, Pow2(ea - eb), nb, y, bMant);
  }

  lemma AlignedMagnitudes(f: Format, a: nat, b: nat, ea: nat, eb: nat, na: nat, nb: nat, same: bool, y: real, x: real)
    requires f.Valid() && a < Pow2(f.size) && b < Pow2(f.size)
    requires ea == UnpackedExp(f, a) && eb == UnpackedExp(f, b) && ea >= eb
    requires na == 8 * UnpackedMant(f, a) && nb == 8 * UnpackedMant(f, b)
    requires same == (f.Negative(a) == f.Negative(b)) && y * Pow2(ea - eb) as real == nb as real
    requires x == if same then na as real + y else na as real - y
    ensures Placed(f, ea + f.Rnd() - 3, x) == SumMagnitude(f, a, b)
  {
    hide *;
    Unpacked(f, a);
    Unpacked(f, b);
    AlignedValue(f, ea, eb, UnpackedMant(f, a), UnpackedMant(f, b), na, nb, y, same, x);
    SumMagnitudeIs(f, a, b);
  }

  lemma Product(n: real, p: real, y: real)
    requires p > 0.0 && y == n / p
    ensures y * p == n
  {
  }

  lemma SameExponent(f: Format, e: nat, ka: nat, kb: nat)
    requires e >= 1 && f.WordAt(e, kb) <= f.WordAt(e, ka)
    ensures kb <= ka
  {
  }

  lemma SumMagnitudeIs(f: Format, a: nat, b: nat)
    requires f.Valid()
    ensures SumMagnitude(f, a, b) == if f.Negative(a) == f.Negative(b)
            then f.Mag(f.Word(a)) as real + f.Mag(f.Word(b)) as real
            else f.Mag(f.Word(a)) as real - f.Mag(f.Word(b)) as real
  {
  }

  lemma SumNormalizable(f: Format, exp: int, a: nat, b: nat, y: real, same: bool, x: real)
    requires f.Valid() && a % 2 == 0 && b <= a && a + b < Pow2(f.size - 1)
    requires IsOddRounding(b, y) && y >= 0.0 && (y == b as real || a - b >= Pow2(f.mant + 2))
    requires x == if same then a as real + y else a as real - y
    ensures Normalizable(f, exp, if same then a + b else a - b, x)
  {
    EvenPlusOdd(a, b, y);
  }

  /** The sum's sign and magnitude, when a has the larger magnitude. */
  lemma SumSign(f: Format, a: nat, b: nat, rm: RoundingMode)
    requires f.Valid() && f.Word(b) <= f.Word(a)
    ensures Abs(f.Value(a) + f.Value(b)) == SumMagnitude(f, a, b) * Exp2(f.QuantumExp())
    ensures SumIsNegative(f, a, b, rm) ==
            if SumMagnitude(f, a, b) != 0.0 || f.Negative(a) == f.Negative(b) then f.Negative(a) else rm == RDN
    ensures SumIsNegative(f, b, a, rm) == SumIsNegative(f, a, b, rm)
  {
    hide Format.Mag, Exp2, Format.Word, Format.Negative, Format.QuantumExp, Format.Ulp;
    if f.Word(b) < f.Word(a) { MagMono(f, f.Word(b), f.Word(a)); }
    SignedSum(f.Negative(a), f.Negative(b), f.Mag(f.Word(a)) as real, f.Mag(f.Word(b)) as real,
              Exp2(f.QuantumExp()), f.Value(a), f.Value(b));
  }

  lemma SignedSum(na: bool, nb: bool, u: real, v: real, q: real, a: real, b: real)
    requires 0.0 <= v <= u && q > 0.0
    requires a == (if na then -(u * q) else u * q) && b == if nb then -(v * q) else v * q
    ensures Abs(a + b) == (if na == nb then u + v else u - v) * q
    ensures a + b == 0.0 <==> (if na == nb then u + v else u - v) == 0.0
    ensures a + b != 0.0 ==> (a + b < 0.0 <==> na)
  {
    RDist(u, v, q);
    RDist(u, -v, q);
    var m := if na == nb then u + v else u - v;
    if m > 0.0 { RMulLt(0.0, m, q); }
  }

  lemma WordOrder(f: Format, a: nat, b: nat)
    requires f.Valid() && a < Pow2(f.size) && b < Pow2(f.size) && f.Word(b) <= f.Word(a)
    ensures f.ExpOf(b) <= f.ExpOf(a) && UnpackedExp(f, b) <= UnpackedExp(f, a)
    ensures f.IsFinite(a) ==> f.IsFinite(b)
    ensures f.ExpOf(a) == f.ExpOf(b) ==> f.MantOf(b) <= f.MantOf(a)
  {
    hide Format.ExpOf, Format.MantOf, Format.Word;
    Fields(f, a);
    Fields(f, b);
    var p := Pow2(f.mant);
    if f.ExpOf(b) > f.ExpOf(a) { MulLe(f.ExpOf(a) + 1, f.ExpOf(b), p); MulDist(f.ExpOf(a), 1, p); }
  }

  /** The sum is zero exactly when the mantissa computed for it is. */
  lemma ZeroSum(f: Format, exp: int, mant: nat, x: real)
    requires f.Valid() && Normalizable(f, exp, mant, x)
    ensures mant == 0 <==> Placed(f, exp, x) == 0.0
  {
    hide Exp2;
    RCancel(0.0, x, Exp2(exp - 1 - f.Rnd()));
  }

  lemma SpecialFields(f: Format, a: nat)
    requires f.Valid() && a < Pow2(f.size)
    ensures f.IsFinite(a) <==> f.ExpOf(a) != f.ExpMask()
    ensures f.IsNaN(a) <==> f.ExpOf(a) == f.ExpMask() && f.MantOf(a) != 0
    ensures f.IsSignalingNaN(a) ==> f.IsNaN(a)
    ensures f.IsNaN(a) ==> (f.IsSignalingNaN(a) <==> Quotient(f.MantOf(a), Pow2(f.mant - 1)) % 2 == 0)
  {
    Unpacked(f, a);
    if f.IsNaN(a) { QuietBit(f, a); }
    if f.IsSignalingNaN(a) { SignalingIsNaN(f, a); }
  }

  /** Two infinities of one sign are the same word, so the order of the operands is immaterial. */
  lemma SpecialSumSymmetric(f: Format, a: nat, b: nat, r: nat, raised: Flags)
    requires f.Valid() && a < Pow2(f.size) && b < Pow2(f.size) && SpecialSum(f, a, b, r, raised)
    requires !f.IsFinite(a)
    ensures SpecialSum(f, b, a, r, raised)
  {
    SpecialFields(f, a);
    SpecialFields(f, b);
    Fields(f, a);
    Fields(f, b);
    hide Format.ExpOf, Format.MantOf, Format.IsNaN, Format.IsSignalingNaN, Format.IsFinite, Format.Word, Format.Negative,
      Quotient, Format.ExpMask;
  }

  /** The branch of add_sf for an infinity or a NaN, a having the larger magnitude word. */
  method AddSpecial(f: Format, a: nat, b: nat) returns (r: nat, raised: Flags)
    requires f.Valid() && a < Pow2(f.size) && b < Pow2(f.size) && f.Word(b) <= f.Word(a)
    requires f.ExpOf(a) == f.ExpMask()
    ensures SpecialSum(f, a, b, r, raised)
  {
    WordOrder(f, a, b);
    SpecialFields(f, a);
    SpecialFields(f, b);
    hide Format.ExpOf, Format.MantOf, Format.IsNaN, Format.IsSignalingNaN, Format.IsFinite, Format.Word, Format.Negative, Quotient;
    r, raised := f.QNaN(), NO_FLAGS;
    if f.MantOf(a) != 0 {
      if Quotient(f.MantOf(a), Pow2(f.mant - 1)) % 2 == 0 || f.IsSignalingNaN(b) { raised := INVALID; }
    } else if f.ExpOf(b) == f.ExpMask() && f.Negative(a) != f.Negative(b) {
      raised := INVALID;
    } else {
      r := a;
    }
  }

  /** add_sf */
  method AddSf(f: Format, a: nat, b: nat, rm: RoundingMode) returns (r: nat, raised: Flags)
    requires f.Valid() && a < Pow2(f.size) && b < Pow2(f.size)
    ensures if f.IsFinite(a) && f.IsFinite(b)
            then DeliversValue(f, rm, SumIsNegative(f, a, b, rm), Abs(f.Value(a) + f.Value(b)), r, raised)
            else SpecialSum(f, a, b, r, raised)
  {
    hide *;
    var x, y := a, b;
    if f.Word(x) < f.Word(y) { x, y := y, x; }
    Unpacked(f, x);
    Unpacked(f, y);
    WordOrder(f, x, y);
    var neg, yNeg := f.Negative(x), f.Negative(y);
    if f.ExpOf(x) == f.ExpMask() {
      r, raised := AddSpecial(f, x, y);
      SpecialSumSymmetric(f, x, y, r, raised);
      return;
    }
    var xExp, xMant := UnpackedExp(f, x), 8 * UnpackedMant(f, x);
    var yExp, yMant := UnpackedExp(f, y), 8 * UnpackedMant(f, y);
    ghost var exact := yMant as real / Pow2(xExp - yExp) as real;
    Product(yMant as real, Pow2(xExp - yExp) as real, exact);
    ghost var sum := if neg == yNeg then xMant as real + exact else xMant as real - exact;
    yMant := ShiftRightSticky(f.size, yMant, xExp - yExp);
    AlignedOperands(f, x, y, xExp, yExp, xMant, 8 * UnpackedMant(f, y), yMant, neg == yNeg, exact, sum);
    SumSign(f, x, y, rm);
    if neg == yNeg {
      xMant := xMant + yMant;
    } else {
      xMant := xMant - yMant;
      if xMant == 0 { neg := rm == RDN; }
    }
    ZeroSum(f, xExp + f.Rnd() - 3, xMant, sum);
    r, raised := NormalizePack(f, neg, xExp + f.Rnd() - 3, xMant, rm, sum);
    InQuanta(f, rm, neg, SumMagnitude(f, x, y), Abs(f.Value(x) + f.Value(y)), r, raised);
  }
}
