/** div_sf: the integer quotient of the significands, a nonzero remainder folded into its
    lowest bit. */
module Division {
  import opened Arith
  import opened FloatFormat
  import opened Rounding
  import opened Sticky
  import opened Significand
  import opened Packing
  import opened Normalize
  import opened Operands
  import opened MultiWord
  import opened Multiplication

  /** What division does unless both operands are finite and the divisor is not zero. */
  predicate SpecialQuotient(f: Format, a: nat, b: nat, r: nat, raised: Flags)
    requires f.Valid()
  {
    var neg := f.Negative(a) != f.Negative(b);
    if f.IsNaN(a) || f.IsNaN(b) then
      r == f.QNaN() && raised == (if f.IsSignalingNaN(a) || f.IsSignalingNaN(b) then INVALID else NO_FLAGS)
    else if !f.IsFinite(a) then
      if !f.IsFinite(b) then r == f.QNaN() && raised == INVALID
      else r == f.Pack(neg, f.Inf()) && raised == NO_FLAGS
    else if !f.IsFinite(b) then
      r == f.Pack(neg, 0) && raised == NO_FLAGS
    else if IsZero(f, a) then
      r == f.QNaN() && raised == INVALID
    else
      r == f.Pack(neg, f.Inf()) && raised == DIVIDE_ZERO
  }

  /** Quotients of significands stay within a factor of two of 2^(size - 2). */
  lemma QuotientWidth(f: Format, ka: nat, kb: nat, q: nat, r: nat)
    requires f.Valid() && Pow2(f.mant) <= ka < Pow2(f.mant + 1) && Pow2(f.mant) <= kb < Pow2(f.mant + 1)
    requires q * (4 * kb) + r == ka * Pow2(f.size) && r < 4 * kb
    ensures Pow2(f.mant + 2) <= q < Pow2(f.size - 1)
  {
    FormatFacts(f);
    Pow2Add(3, f.size - 3);
    assert Pow2(3) == 8 && Pow2(f.size) == 2 * Pow2(f.size - 1);
    Pow2Mono(f.mant + 2, f.size - 3);
    hide Pow2;
    QuotientBetween(ka, kb, q, r, Pow2(f.size - 3), Pow2(f.size));
  }

  lemma QuotientBetween(ka: nat, kb: nat, q: nat, r: nat, w: nat, p: nat)
    requires 0 < kb < 2 * ka && ka < 2 * kb && w > 0 && p == 8 * w
    requires q * (4 * kb) + r == ka * p && r < 4 * kb
    ensures w <= q < 4 * w
  {
    MulDist(q, 1, 4 * kb);
    assert ka * p == (8 * ka) * w;
    if q < w {
      MulLe(q + 1, w, 4 * kb);
      MulLt(4 * kb, 8 * ka, w);
    }
    if q >= 4 * w {
      MulLe(4 * w, q, 4 * kb);
      assert (4 * w) * (4 * kb) == (16 * kb) * w;
      MulLt(8 * ka, 16 * kb, w);
    }
  }

  /** The quotient of the values is that of the significands, placed by the exponents. */
  lemma QuotientDelivered(f: Format, rm: RoundingMode, neg: bool, a: nat, b: nat, y: real, exp: int,
                          r: nat, raised: Flags)
    requires f.Valid() && a < Pow2(f.size) && b < Pow2(f.size) && !IsZero(f, a) && !IsZero(f, b)
    requires f.MantOf(a) < Pow2(f.size) && f.MantOf(b) < Pow2(f.size)
    requires y * (4 * NormalMant(f, b)) as real == (NormalMant(f, a) * Pow2(f.size)) as real
    requires exp == NormalExp(f, a) - NormalExp(f, b) + f.Bias()
    requires Delivers(f, rm, neg, Placed(f, exp, y), r, raised)
    ensures f.Value(b) != 0.0
    ensures DeliversValue(f, rm, neg, Abs(f.Value(a) / f.Value(b)), r, raised)
  {
    hide *;
    ZeroValue(f, b);
    var q := Exp2(f.QuantumExp());
    var x := Placed(f, exp, y);
    QuotientProduct(f, a, b, y, exp, x);
    AbsValue(f, a);
    AbsValue(f, b);
    Rescaled(x, f.Mag(f.Word(a)) as real, f.Mag(f.Word(b)) as real, q, Abs(f.Value(a)), Abs(f.Value(b)));
    AbsQuotient(f.Value(a), f.Value(b), x * q);
    InQuanta(f, rm, neg, x, Abs(f.Value(a) / f.Value(b)), r, raised);
  }

  lemma Rescaled(x: real, ma: real, mb: real, q: real, va: real, vb: real)
    requires (x * q) * mb == ma && va == ma * q && vb == mb * q
    ensures (x * q) * vb == va
  {
    assert (x * q) * (mb * q) == ((x * q) * mb) * q;
  }

  lemma AbsQuotient(a: real, b: real, v: real)
    requires b != 0.0 && v * Abs(b) == Abs(a)
    ensures Abs(a / b) == v
  {
    var q := a / b;
    assert q * b == a;
    AbsProduct(q, b, a);
    RCancel(Abs(q), v, Abs(b));
  }

  /** In quanta: the quotient times the divisor is the dividend. */
  lemma QuotientProduct(f: Format, a: nat, b: nat, y: real, exp: int, x: real)
    requires f.Valid() && a < Pow2(f.size) && b < Pow2(f.size) && !IsZero(f, a) && !IsZero(f, b)
    requires f.MantOf(a) < Pow2(f.size) && f.MantOf(b) < Pow2(f.size)
    requires y * (4 * NormalMant(f, b)) as real == (NormalMant(f, a) * Pow2(f.size)) as real
    requires exp == NormalExp(f, a) - NormalExp(f, b) + f.Bias() && x == Placed(f, exp, y)
    ensures (x * Exp2(f.QuantumExp())) * f.Mag(f.Word(b)) as real == f.Mag(f.Word(a)) as real
  {
    hide *;
    FormatFacts(f);
    NormalOperand(f, a);
    NormalOperand(f, b);
    PlacedIs(f, exp, y);
    var ea, eb, qe := NormalExp(f, a) - 1, NormalExp(f, b) - 1, f.QuantumExp();
    var c := exp - 1 - f.Rnd();
    Exp2Add(c, qe);
    Exp2Add(c + qe, eb);
    Exp2Scale(f.size, ea - f.size);
    Exp2Scale(2, ea - f.size);
    FourIsPow2();
    RealProduct(NormalMant(f, a), Pow2(f.size));
    QuotientFactors(y, NormalMant(f, a) as real, NormalMant(f, b) as real, Pow2(f.size) as real,
                    Exp2(c), Exp2(qe), Exp2(eb), Exp2(c + qe), Exp2(c + qe + eb), Exp2(ea - f.size), Exp2(ea),
                    f.Mag(f.Word(a)) as real, f.Mag(f.Word(b)) as real, x);
  }

  lemma FourIsPow2()
    ensures Pow2(2) == 4
  {
  }

  lemma QuotientFactors(y: real, ka: real, kb: real, w: real, pc: real, pq: real, pb: real, pcq: real, pcqb: real,
                        d: real, pa: real, ma: real, mb: real, x: real)
    requires y * (4.0 * kb) == ka * w && pcq == pc * pq && pcqb == pcq * pb && pcqb == 4.0 * d && pa == w * d
    requires ma == ka * pa && mb == kb * pb && x == y * pc
    ensures (x * pq) * mb == ma
  {
    assert ((y * pc) * pq) * (kb * pb) == (y * kb) * ((pc * pq) * pb);
    assert (y * kb) * (4.0 * d) == (y * (4.0 * kb)) * d;
    assert (ka * w) * d == ka * (w * d);
  }

  /** div_sf */
  method DivSf(f: Format, a: nat, b: nat, rm: RoundingMode) returns (r: nat, raised: Flags)
    requires f.Valid() && a < Pow2(f.size) && b < Pow2(f.size)
    ensures if f.IsFinite(a) && f.IsFinite(b) && f.Value(b) != 0.0
            then DeliversValue(f, rm, f.Negative(a) != f.Negative(b), Abs(f.Value(a) / f.Value(b)), r, raised)
            else SpecialQuotient(f, a, b, r, raised)
  {
    hide *;
    var neg := f.Negative(a) != f.Negative(b);
    FormatFacts(f);
    MantFits(f, a);
    MantFits(f, b);
    SpecialIs(f, a);
    SpecialIs(f, b);
    ZeroValue(f, b);
    if f.ExpOf(a) == f.ExpMask() || f.ExpOf(b) == f.ExpMask() || IsZero(f, b) {
      r, raised := DivSpecial(f, a, b);
      return;
    }
    if IsZero(f, a) {
      ZeroValue(f, a);
      ZeroOver(f.Value(a), f.Value(b));
      DeliversZero(f, rm, neg);
      return f.Pack(neg, 0), Flags(false, false, false, false, false);
    }
    NormalOperand(f, a);
    NormalOperand(f, b);
    var aMant, bMant := NormalMant(f, a), 4 * NormalMant(f, b);
    SignificandFits(f, aMant, NormalMant(f, b));
    var exp := NormalExp(f, a) - NormalExp(f, b) + (Pow2(f.exp - 1) - 1);
    var mant, rest := DivRemU(f.size, aMant, 0, bMant);
    ghost var y := (aMant * Pow2(f.size)) as real / bMant as real;
    Ratio((aMant * Pow2(f.size)) as real, bMant as real, y);
    QuotientWidth(f, aMant, NormalMant(f, b), mant, rest);
    QuotientNormalizable(f, exp, aMant * Pow2(f.size), bMant, mant, rest, y);
    r, raised := NormalizePack(f, neg, exp, OrBit(mant, rest != 0), rm, y);
    QuotientDelivered(f, rm, neg, a, b, y, exp, r, raised);
  }

  lemma ZeroOver(a: real, b: real)
    requires a == 0.0 && b != 0.0
    ensures Abs(a / b) == 0.0
  {
  }

  lemma SignificandFits(f: Format, ka: nat, kb: nat)
    requires f.Valid() && Pow2(f.mant) <= ka < Pow2(f.mant + 1) && Pow2(f.mant) <= kb < Pow2(f.mant + 1)
    ensures ka < 4 * kb < Pow2(f.size) && 0 < Pow2(f.size)
  {
    Pow2Mono(f.mant + 3, f.size);
  }

  lemma QuotientNormalizable(f: Format, exp: int, n: nat, d: nat, q: nat, r: nat, y: real)
    requires f.Valid() && d > 0 && q * d + r == n && r < d && y * d as real == n as real
    requires Pow2(f.mant + 2) <= q < Pow2(f.size - 1)
    ensures Normalizable(f, exp, OrBit(q, r != 0), y)
  {
    hide Pow2, IsOddRounding, Normalizable;
    DivUnique(n, d, q, r);
    QuotientIsOddRounding(n, d, y);
    FormatFacts(f);
    Pow2Even(f.size - 1);
    OrBitRange(q, r != 0, Pow2(f.size - 1));
    OddNormalizable(f, exp, OrBit(q, r != 0), y);
  }

  /** The branches of div_sf for infinities, NaNs and a zero divisor. */
  method DivSpecial(f: Format, a: nat, b: nat) returns (r: nat, raised: Flags)
    requires f.Valid() && a < Pow2(f.size) && b < Pow2(f.size)
    requires f.ExpOf(a) == f.ExpMask() || f.ExpOf(b) == f.ExpMask() || IsZero(f, b)
    ensures SpecialQuotient(f, a, b, r, raised)
  {
    SpecialIs(f, a);
    SpecialIs(f, b);
    hide Format.IsNaN, Format.IsSignalingNaN, Format.IsFinite, IsZero, Format.ExpOf, Format.MantOf, Format.Pack;
    var neg := f.Negative(a) != f.Negative(b);
    r, raised := f.QNaN(), NO_FLAGS;
    if f.ExpOf(a) == f.ExpMask() {
      if f.MantOf(a) != 0 || f.IsNaN(b) {
        if f.IsSignalingNaN(a) || f.IsSignalingNaN(b) { raised := INVALID; }
      } else if f.ExpOf(b) == f.ExpMask() {
        raised := INVALID;
      } else {
        r := f.Pack(neg, f.Inf());
      }
    } else if f.ExpOf(b) == f.ExpMask() {
      if f.MantOf(b) != 0 {
        if f.IsSignalingNaN(a) || f.IsSignalingNaN(b) { raised := INVALID; }
      } else {
        r := f.Pack(neg, 0);
      }
    } else if IsZero(f, a) {
      raised := INVALID;
    } else {
      r, raised := f.Pack(neg, f.Inf()), DIVIDE_ZERO;
    }
  }
}
