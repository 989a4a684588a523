/** Conversions between the floating-point formats: widening is exact, narrowing rounds once,
    and narrowing undoes widening. */
module FloatConversion {
  import opened Arith
  import opened FloatFormat
  import opened Rounding
  import opened Sticky
  import opened Significand
  import opened Packing
  import opened Normalize
  import opened Operands
  import Multiplication
  import FusedMultiplyAdd
  import IntegerConversion

  /** A format and a wider one, as the library pairs them. */
  predicate Wider(s: Format, t: Format) {
    s.Valid() && t.Valid() && s.exp < t.exp && s.size - 2 <= t.mant
  }

  lemma WiderFacts(s: Format, t: Format)
    requires Wider(s, t)
    ensures s.Bias() + s.mant + 2 <= t.Bias() && s.mant <= t.mant && s.ExpMask() - s.Bias() == s.Bias() + 1
    ensures s.size == s.mant + s.Rnd() + 2 && s.Rnd() >= 7 && t.Rnd() >= 7 && t.size > t.mant && s.size > s.mant
    ensures t.ExpMask() == 2 * t.Bias() + 1 && s.Bias() > 0
    ensures s.QuantumExp() == 1 - s.Bias() - s.mant && t.QuantumExp() == 1 - t.Bias() - t.mant
    ensures NO_FLAGS == Flags(false, false, false, false, false) && INVALID == Flags(true, false, false, false, false)
  {
    Pow2Mono(s.exp, t.exp - 1);
  }

  /** What a conversion does with an infinity or a NaN. */
  predicate SpecialConversion(s: Format, t: Format, a: nat, r: nat, raised: Flags)
    requires s.Valid() && t.Valid()
  {
    if s.IsNaN(a) then r == t.QNaN() && raised == (if s.IsSignalingNaN(a) then INVALID else NO_FLAGS)
    else r == t.Pack(s.Negative(a), t.Inf()) && raised == NO_FLAGS
  }

  method ConvertSpecial(s: Format, t: Format, a: nat) returns (r: nat, raised: Flags)
    requires s.Valid() && t.Valid() && a < Pow2(s.size) && s.ExpOf(a) == s.ExpMask()
    ensures SpecialConversion(s, t, a, r, raised)
  {
    raised := NO_FLAGS;
    if s.MantOf(a) != 0 {
      if s.IsSignalingNaN(a) { raised := INVALID; }
      r := t.QNaN();
    } else {
      r := t.Pack(s.Negative(a), t.Inf());
    }
  }

  // -----------------------------------------------------------------------------------------
  // Widening
  // -----------------------------------------------------------------------------------------

  /** The widened word, from a significand k with its leading one, which packing drops. */
  lemma WidenedWord(s: Format, t: Format, k: nat, m: nat, e: nat, w: nat)
    requires Wider(s, t) && Pow2(s.mant) <= k < Pow2(s.mant + 1) && (m == k || m == k - Pow2(s.mant))
    requires 1 <= e < t.ExpMask() && w == e * Pow2(t.mant) + Shl(m, t.mant - s.mant) % Pow2(t.mant)
    ensures w < t.Inf() && t.Mag(w) == k * Pow2(t.mant - s.mant + e - 1)
  {
    hide *;
    WiderValid(s, t);
    WiderFacts(s, t);
    var d := t.mant - s.mant;
    ScaledSignificand(s.mant, d, k, m, k * Pow2(d));
    WordAtIs(t, e, k * Pow2(d), w);
    Pow2Mono(t.mant, t.mant + 1);
    TwicePow(t.mant);
    MagOfSignificand(t, e, k * Pow2(d));
    Pow2Add(d, e - 1);
    Assoc(k, Pow2(d), Pow2(e - 1));
  }

  lemma ScaledSignificand(mant: nat, d: nat, k: nat, m: nat, kk: nat)
    requires Pow2(mant) <= k < Pow2(mant + 1) && (m == k || m == k - Pow2(mant)) && kk == k * Pow2(d)
    ensures Pow2(mant + d) <= kk < 2 * Pow2(mant + d) && Shl(m, d) % Pow2(mant + d) == kk - Pow2(mant + d)
  {
    hide *;
    ShlIs(m, d);
    Pow2Add(mant, d);
    TwicePow(mant);
    MulLe(Pow2(mant), k, Pow2(d));
    DoubledBound(k, Pow2(mant), Pow2(d));
    MulDist(k, 0 - Pow2(mant), Pow2(d));
    MulDist(Pow2(mant), 0 - Pow2(mant), Pow2(d));
    DropLeadingOne(m * Pow2(d), kk, Pow2(mant + d));
  }

  lemma DoubledBound(k: nat, a: nat, p: nat)
    requires k < 2 * a && p > 0
    ensures k * p < 2 * (a * p)
  {
    MulLt(k, 2 * a, p);
  }

  lemma DropLeadingOne(n: nat, k: nat, p: nat)
    requires p > 0 && p <= k < 2 * p && (n == k || n == k - p)
    ensures n % p == k - p
  {
    DivUnique(n, p, if n == k then 1 else 0, k - p);
  }

  lemma WordAtIs(t: Format, e: nat, k: nat, w: nat)
    requires 1 <= e < t.ExpMask() && Pow2(t.mant) <= k < 2 * Pow2(t.mant) && w == e * Pow2(t.mant) + (k - Pow2(t.mant))
    ensures w == t.WordAt(e, k) && w < t.Inf()
  {
    var p := Pow2(t.mant);
    MulDist(e, -1, p);
    MulDist(e, 1, p);
    MulLe(e + 1, t.ExpMask(), p);
  }

  /** The same significand and exponent mean the same value in both formats. */
  lemma SameMagnitude(s: Format, t: Format, k: nat, e: int, d: nat, w: real, v: real)
    requires Wider(s, t) && s.Valid() && t.Valid() && e - s.Bias() + t.Bias() >= 1 && d == t.mant - s.mant + (e - s.Bias() + t.Bias()) - 1
    requires w == (k * Pow2(d)) as real && v == k as real * Exp2(e - 1)
    ensures w * Exp2(t.QuantumExp()) == v * Exp2(s.QuantumExp())
  {
    hide *;
    WiderFacts(s, t);
    Exp2Add(e - 1, s.QuantumExp());
    Exp2Scale(d, t.QuantumExp());
    Multiplication.RealProductIs(k, Pow2(d), k * Pow2(d));
    RAssoc(k as real, Pow2(d) as real, Exp2(t.QuantumExp()));
    RAssoc(k as real, Exp2(e - 1), Exp2(s.QuantumExp()));
  }

  lemma SameValue(s: Format, t: Format, a: nat, neg: bool, w: nat, r: nat)
    requires s.Valid() && t.Valid() && w < t.Inf() && r == t.Pack(neg, w) && neg == s.Negative(a)
    requires t.Mag(w) as real * Exp2(t.QuantumExp()) == s.Mag(s.Word(a)) as real * Exp2(s.QuantumExp())
    ensures r < Pow2(t.size) && t.IsFinite(r) && t.Negative(r) == neg && t.Value(r) == s.Value(a)
  {
    hide *;
    InfBound(t);
    PackFields(t, neg, w);
    FusedMultiplyAdd.FiniteIs(t, r);
    FusedMultiplyAdd.SignedValue(t, r);
    FusedMultiplyAdd.SignedValue(s, a);
  }

  /** cvt_sf32_sf and cvt_sf64_sf: every finite number has the same value in the wider format. */
  method Widen(s: Format, t: Format, a: nat) returns (r: nat, raised: Flags)
    requires Wider(s, t) && a < Pow2(s.size)
    ensures if s.IsFinite(a)
            then r < Pow2(t.size) && t.IsFinite(r) && t.Negative(r) == s.Negative(a) &&
                 t.Value(r) == s.Value(a) && raised == NO_FLAGS
            else SpecialConversion(s, t, a, r, raised)
  {
    hide *;
    WiderValid(s, t);
    WiderFacts(s, t);
    MantFits(s, a);
    Multiplication.SpecialIs(s, a);
    if s.ExpOf(a) == s.ExpMask() {
      r, raised := ConvertSpecial(s, t, a);
      return;
    }
    raised := Flags(false, false, false, false, false);
    var neg := s.Negative(a);
    UnpackedIs(s, a);
    if IsZero(s, a) {
      r := t.Pack(neg, 0);
      ZeroWidened(s, t, a, neg, r);
      return;
    }
    ExponentRange(s, t, a);
    var m := if s.ExpOf(a) == 0 then NormalMant(s, a) else s.MantOf(a);
    var e := NormalExp(s, a) - s.Bias() + t.Bias();
    NormalMantIs(s, a);
    r := PackWord(t, neg, e, Shl(m, t.mant - s.mant));
    Widened(s, t, a, m, e, r);
  }

  lemma Widened(s: Format, t: Format, a: nat, m: nat, e: nat, r: nat)
    requires Wider(s, t) && s.Valid() && t.Valid() && a < Pow2(s.size) && s.MantOf(a) < Pow2(s.size) && !IsZero(s, a)
    requires 1 <= e < t.ExpMask() && e == NormalExp(s, a) - s.Bias() + t.Bias() && t.mant >= s.mant
    requires m == NormalMant(s, a) || m == NormalMant(s, a) - Pow2(s.mant)
    requires r == PackWord(t, s.Negative(a), e, Shl(m, t.mant - s.mant))
    ensures r < Pow2(t.size) && t.IsFinite(r) && t.Negative(r) == s.Negative(a) && t.Value(r) == s.Value(a)
  {
    hide *;
    NormalOperand(s, a);
    var k, d := NormalMant(s, a), t.mant - s.mant + e - 1;
    var w := e * Pow2(t.mant) + Shl(m, t.mant - s.mant) % Pow2(t.mant);
    PackedWord(t, s.Negative(a), e, Shl(m, t.mant - s.mant));
    WidenedWord(s, t, k, m, e, w);
    SameMagnitude(s, t, k, NormalExp(s, a), d, t.Mag(w) as real, s.Mag(s.Word(a)) as real);
    SameValue(s, t, a, s.Negative(a), w, r);
  }

  lemma WiderValid(s: Format, t: Format)
    requires Wider(s, t)
    ensures s.Valid() && t.Valid() && s.size - 2 <= t.mant
  {
  }

  lemma NormalMantIs(s: Format, a: nat)
    requires s.Valid() && s.MantOf(a) < Pow2(s.size)
    ensures s.ExpOf(a) != 0 ==> s.MantOf(a) == NormalMant(s, a) - Pow2(s.mant)
  {
  }

  lemma PackedWord(t: Format, neg: bool, e: nat, m: nat)
    requires t.Valid()
    ensures PackWord(t, neg, e, m) == t.Pack(neg, e * Pow2(t.mant) + m % Pow2(t.mant))
  {
  }

  lemma ExponentRange(s: Format, t: Format, a: nat)
    requires Wider(s, t) && s.Valid() && t.Valid() && a < Pow2(s.size) && s.MantOf(a) < Pow2(s.size) && !IsZero(s, a) && s.ExpOf(a) != s.ExpMask()
    ensures 1 <= NormalExp(s, a) - s.Bias() + t.Bias() < t.ExpMask()
    ensures s.ExpOf(a) == 0 ==> 1 - s.mant <= NormalExp(s, a) <= 0
  {
    hide *;
    WiderFacts(s, t);
    MantFits(s, a);
    UnpackedIs(s, a);
    Fields(s, a);
    MaskIs(s);
    if s.ExpOf(a) == 0 { SubnormalIs(s, a); }
  }

  lemma MaskIs(s: Format)
    requires s.Valid()
    ensures s.ExpMask() == Pow2(s.exp) - 1
  {
  }

  lemma ZeroWidened(s: Format, t: Format, a: nat, neg: bool, r: nat)
    requires s.Valid() && t.Valid() && a < Pow2(s.size) && IsZero(s, a) && neg == s.Negative(a) && r == t.Pack(neg, 0)
    ensures r < Pow2(t.size) && t.IsFinite(r) && t.Negative(r) == neg && t.Value(r) == s.Value(a)
  {
    hide *;
    FusedMultiplyAdd.ZeroMagnitude(s, a);
    ZeroPacked(t, neg);
    ZeroWord(t);
    MagOfSignificand0(t);
    ZeroTimes(Exp2(t.QuantumExp()));
    ZeroTimes(Exp2(s.QuantumExp()));
    SameValue(s, t, a, neg, 0, r);
  }

  lemma MagOfSignificand0(t: Format)
    ensures t.Mag(0) == 0
  {
  }

  lemma ZeroTimes(c: real)
    ensures 0.0 * c == 0.0 && 0 as real == 0.0
  {
  }

  // -----------------------------------------------------------------------------------------
  // Narrowing
  // -----------------------------------------------------------------------------------------

  /** A number with its leading one, shifted down to the narrower word. */
  lemma NarrowedNormal(s: Format, t: Format, k: nat, d: nat, exp: int, m: nat, x: real)
    requires Wider(s, t) && Pow2(t.mant) <= k < Pow2(t.mant + 1) && s.size >= 2 && d == t.mant - (s.size - 2)
    requires m == StickyDiv(k, Pow2(d)) && x * Pow2(d) as real == k as real
    ensures s.Valid() && Normalizable(s, exp, m, x)
  {
    hide *;
    WiderValid(s, t);
    WiderFacts(s, t);
    IntegerConversion.StickyRange(s, k, d, m);
    Pow2Mono(s.mant + 2, s.size - 2);
    QuotientIsOddRounding(k, Pow2(d), x);
    Multiplication.OddNormalizable(s, exp, m, x);
  }

  lemma NarrowedValue(s: Format, t: Format, k: nat, d: nat, e: int, x: real, v: real)
    requires s.Valid() && t.Valid() && Wider(s, t) && d == t.mant - (s.size - 2)
    requires x * Pow2(d) as real == k as real && v == k as real * Exp2(e - 1)
    ensures Placed(s, e - t.Bias() + s.Bias(), x) * Exp2(s.QuantumExp()) == v * Exp2(t.QuantumExp())
  {
    hide *;
    var exp := e - t.Bias() + s.Bias();
    WiderFacts(s, t);
    PlacedIs(s, exp, x);
    Exp2Nat(d);
    Exp2Add(exp - 1 - s.Rnd(), s.QuantumExp());
    Exp2Add(e - 1, t.QuantumExp());
    Exp2Scale(d, e - 1 + t.QuantumExp());
    SameProduct(x, Exp2(exp - 1 - s.Rnd()), Exp2(s.QuantumExp()), Exp2(exp - 1 - s.Rnd() + s.QuantumExp()),
                k as real, Exp2(e - 1), Exp2(t.QuantumExp()), Exp2(e - 1 + t.QuantumExp()), Pow2(d) as real,
                Placed(s, exp, x), v);
  }

  lemma SameProduct(x: real, a: real, q: real, aq: real, k: real, b: real, r: real, br: real, p: real, u: real, v: real)
    requires aq == a * q && br == b * r && x * p == k && aq == p * br && u == x * a && v == k * b
    ensures u * q == v * r
  {
    RAssoc(x, a, q);
    RAssoc(k, b, r);
    RAssoc(x, p, br);
  }

  /** A subnormal's significand is not moved up although its exponent is lowered as if it were.
      That misplaces the mantissa, but so deep below the narrower format's smallest number that
      only its being nonzero matters. */
  lemma NarrowedSubnormal(s: Format, t: Format, k: nat, d: nat, exp: int, m: nat, x: real)
    requires Wider(s, t) && s.Valid() && t.Valid() && 0 < k < Pow2(t.mant) && d == t.mant - (s.size - 2) && m == StickyDiv(k, Pow2(d))
    requires exp <= s.Bias() - t.Bias()
    requires x * Exp2(exp - 1 - s.Rnd()) * Exp2(s.QuantumExp()) == k as real * Exp2(t.QuantumExp())
    ensures Normalizable(s, exp, m, x)
  {
    hide *;
    WiderFacts(s, t);
    WiderValid(s, t);
    Pow2Add(s.size - 2, d);
    DeepMantissa(k, Pow2(d), Pow2(s.size - 2), m);
    Pow2Mono(s.size - 2, s.size - 1);
    DeepPlace(s, t, exp, x, k);
    DeepNormalizable(s, exp, m, x);
  }

  lemma DeepPlace(s: Format, t: Format, exp: int, x: real, k: nat)
    requires Wider(s, t) && s.Valid() && t.Valid() && 0 < k < Pow2(t.mant) && exp <= s.Bias() - t.Bias() && s.Rnd() >= exp
    requires x * Exp2(exp - 1 - s.Rnd()) * Exp2(s.QuantumExp()) == k as real * Exp2(t.QuantumExp())
    ensures 0.0 < x < Pow2(s.Rnd() - exp) as real
  {
    hide *;
    WiderFacts(s, t);
    var c, q := Exp2(exp - 1 - s.Rnd() + s.QuantumExp()), Exp2(t.QuantumExp());
    Exp2Add(exp - 1 - s.Rnd(), s.QuantumExp());
    Exp2Scale(s.Rnd() - exp, exp - 1 - s.Rnd() + s.QuantumExp());
    Exp2Scale(t.mant, t.QuantumExp());
    ExpOrder(t.mant + t.QuantumExp(), s.QuantumExp() - 1);
    Regrouped(x, Exp2(exp - 1 - s.Rnd()), Exp2(s.QuantumExp()), c);
    DeepBound(x, c, Pow2(s.Rnd() - exp) as real, k as real, q, Pow2(t.mant) as real);
  }

  lemma ExpOrder(a: int, b: int)
    requires a <= b
    ensures Exp2(a) <= Exp2(b)
  {
    hide *;
    Exp2Split(b, a);
    Pow2Mono(0, b - a);
    OnePow();
    AtLeastItself(Pow2(b - a) as real, Exp2(a), Exp2(b));
  }

  lemma AtLeastItself(p: real, x: real, px: real)
    requires p >= 1.0 && x > 0.0 && px == p * x
    ensures px >= x
  {
    RMulLe(1.0, p, x);
  }

  lemma OnePow()
    ensures Pow2(0) == 1
  {
  }

  lemma DeepMantissa(k: nat, p: nat, b: nat, m: nat)
    requires p > 0 && 0 < k < b * p && m == StickyDiv(k, p)
    ensures m != 0 && m <= b
  {
    QuotientRange(k, p, b);
    FusedMultiplyAdd.StickyPositive(k, p);
  }

  lemma DeepBound(x: real, c: real, b: real, k: real, q: real, n: real)
    requires c > 0.0 && q > 0.0 && 0.0 < k < n && x * c == k * q && n * q <= b * c
    ensures 0.0 < x < b
  {
    RMulLt(0.0, k, q);
    RMulLt(k, n, q);
    RCancel(0.0, x, c);
    RCancel(x, b, c);
  }

  lemma DeepNormalizable(s: Format, exp: int, m: nat, x: real)
    requires s.Valid() && 0 != m < Pow2(s.size - 1) && exp <= s.Rnd() - s.size && 0.0 < x < Pow2(s.Rnd() - exp) as real
    ensures Normalizable(s, exp, m, x)
  {
  }

  /** cvt_sf64_sf32, cvt_sf128_sf32 and cvt_sf128_sf64 */
  method Narrow(s: Format, t: Format, a: nat, rm: RoundingMode) returns (r: nat, raised: Flags)
    requires Wider(s, t) && a < Pow2(t.size)
    ensures if t.IsFinite(a) then DeliversValue(s, rm, t.Negative(a), Abs(t.Value(a)), r, raised)
            else SpecialConversion(t, s, a, r, raised)
  {
    hide *;
    WiderValid(s, t);
    WiderFacts(s, t);
    MantFits(t, a);
    Multiplication.SpecialIs(t, a);
    if t.ExpOf(a) == t.ExpMask() {
      r, raised := ConvertSpecial(t, s, a);
      return;
    }
    var neg := t.Negative(a);
    if IsZero(t, a) {
      Multiplication.AbsValue(t, a);
      FusedMultiplyAdd.ZeroMagnitude(t, a);
      ZeroTimes(Exp2(t.QuantumExp()));
      DeliversZero(s, rm, neg);
      return s.Pack(neg, 0), Flags(false, false, false, false, false);
    }
    var exp := NormalExp(t, a) - t.Bias() + s.Bias();
    var d := t.mant - (s.size - 2);
    var m := ShiftRightSticky(t.size, UnpackedMant(t, a), d);
    ghost var x := NarrowedOperand(s, t, a, d, exp, m);
    r, raised := NormalizePack(s, neg, exp, m, rm, x);
    InQuanta(s, rm, neg, Placed(s, exp, x), Abs(t.Value(a)), r, raised);
  }

  /** The exact mantissa that the shifted one stands for. */
  lemma NarrowedOperand(s: Format, t: Format, a: nat, d: nat, exp: int, m: nat) returns (x: real)
    requires Wider(s, t) && s.Valid() && t.Valid() && a < Pow2(t.size) && t.MantOf(a) < Pow2(t.size) && !IsZero(t, a)
    requires exp == NormalExp(t, a) - t.Bias() + s.Bias() && s.size >= 2 && d == t.mant - (s.size - 2)
    requires m == ShiftRightSticky(t.size, UnpackedMant(t, a), d)
    ensures Normalizable(s, exp, m, x) && Placed(s, exp, x) * Exp2(s.QuantumExp()) == Abs(t.Value(a))
  {
    hide *;
    var k := UnpackedMant(t, a);
    WiderFacts(s, t);
    MantFits(t, a);
    Multiplication.AbsValue(t, a);
    NormalOperand(t, a);
    UnpackedIs(t, a);
    UnpackedRange(t, a);
    Pow2Mono(t.mant + 1, t.size);
    ShiftRightStickyIs(t.size, k, d);
    if t.ExpOf(a) == 0 {
      SubnormalIs(t, a);
      SubnormalMagnitude(t, a);
      x := PlaceFor(s, exp, k as real * Exp2(t.QuantumExp()));
      PlacedIs(s, exp, x);
      NarrowedSubnormal(s, t, k, d, exp, m, x);
    } else {
      x := k as real / Pow2(d) as real;
      Multiplication.Ratio(k as real, Pow2(d) as real, x);
      NarrowedNormal(s, t, k, d, exp, m, x);
      NarrowedValue(s, t, k, d, NormalExp(t, a), x, t.Mag(t.Word(a)) as real);
    }
  }

  lemma SubnormalMagnitude(t: Format, a: nat)
    requires t.Valid() && a < Pow2(t.size) && t.ExpOf(a) == 0
    ensures t.Mag(t.Word(a)) == t.MantOf(a) && UnpackedMant(t, a) == t.MantOf(a)
  {
    Unpacked(t, a);
  }

  lemma PlaceFor(s: Format, exp: int, v: real) returns (x: real)
    requires s.Valid()
    ensures x * Exp2(exp - 1 - s.Rnd()) * Exp2(s.QuantumExp()) == v
  {
    hide *;
    var y := v / Exp2(s.QuantumExp());
    Multiplication.Ratio(v, Exp2(s.QuantumExp()), y);
    x := y / Exp2(exp - 1 - s.Rnd());
    Multiplication.Ratio(y, Exp2(exp - 1 - s.Rnd()), x);
  }

  // -----------------------------------------------------------------------------------------
  // Round trip
  // -----------------------------------------------------------------------------------------

  /** What is delivered is unique, exceptions included. */
  lemma DeliveryUnique(f: Format, rm: RoundingMode, neg: bool, x: real, r: nat, raised: Flags, r': nat, raised': Flags)
    requires f.Valid() && Delivers(f, rm, neg, x, r, raised) && Delivers(f, rm, neg, x, r', raised')
    ensures r == r' && raised == raised'
  {
    hide IsRounding, Raised;
    var w: nat :| IsRounding(f, rm, neg, x, w) && raised == Raised(f, rm, neg, x, w) &&
      r == f.Pack(neg, if w < f.Inf() then w else if OverflowsToInfinity(rm, neg) then f.Inf() else f.Inf() - 1);
    var v: nat :| IsRounding(f, rm, neg, x, v) && raised' == Raised(f, rm, neg, x, v) &&
      r' == f.Pack(neg, if v < f.Inf() then v else if OverflowsToInfinity(rm, neg) then f.Inf() else f.Inf() - 1);
    RoundingUnique(f, rm, neg, x, v, w);
  }

  /** Widening a finite number and narrowing it again, in any mode, gives it back, without
      exceptions. */
  method WidenAndNarrow(s: Format, t: Format, a: nat, rm: RoundingMode) returns (r: nat, raised: Flags)
    requires Wider(s, t) && a < Pow2(s.size) && s.IsFinite(a)
    ensures r == a && raised == NO_FLAGS
  {
    hide *;
    WiderValid(s, t);
    WiderFacts(s, t);
    var wide, exact := Widen(s, t, a);
    r, raised := Narrow(s, t, wide, rm);
    Multiplication.AbsValue(s, a);
    FusedMultiplyAdd.DeliversItself(s, rm, a);
    InQuanta(s, rm, s.Negative(a), s.Mag(s.Word(a)) as real, Abs(s.Value(a)), a, NO_FLAGS);
    DeliversValueIs(s, rm, s.Negative(a), Abs(s.Value(a)), a, NO_FLAGS);
    DeliversValueIs(s, rm, s.Negative(a), Abs(s.Value(a)), r, raised);
    DeliveryUnique(s, rm, s.Negative(a), Abs(s.Value(a)) / Exp2(s.QuantumExp()), r, raised, a, NO_FLAGS);
  }

  // -----------------------------------------------------------------------------------------
  // The formats of the library
  // -----------------------------------------------------------------------------------------

  const SF32 := Format(32, 23, 8)
  const SF64 := Format(64, 52, 11)
  const SF128 := Format(128, 112, 15)

  lemma TheThreeFormats()
    ensures SF32.Valid() && SF64.Valid() && SF128.Valid()
    ensures Wider(SF32, SF64) && Wider(SF64, SF128) && Wider(SF32, SF128)
  {
    assert Pow2(6) == 64;
    Pow2Add(3, 6);
    Pow2Add(4, 9);
    assert Pow2(9) == 512 && Pow2(13) == 8192;
  }
}
