/** mul_sf: the exact double-word product of the significands, its lower word folded into one
    sticky bit. */
module Multiplication {
  import opened Arith
  import opened FloatFormat
  import opened Rounding
  import opened Sticky
  import opened Significand
  import opened Packing
  import opened Normalize
  import opened Operands
  import opened MultiWord

  /** What multiplication does when an operand is an infinity or a NaN. */
  predicate SpecialProduct(f: Format, a: nat, b: nat, r: nat, raised: Flags)
    requires f.Valid()
  {
    if f.IsNaN(a) || f.IsNaN(b) then
      r == f.QNaN() && raised == (if f.IsSignalingNaN(a) || f.IsSignalingNaN(b) then INVALID else NO_FLAGS)
    else if IsZero(f, a) || IsZero(f, b) then
      r == f.QNaN() && raised == INVALID
    else
      r == f.Pack(f.Negative(a) != f.Negative(b), f.Inf()) && raised == NO_FLAGS
  }

  /** A double-word number read at the upper word: folding the lower word into a sticky bit is
      an odd rounding of it. */
  lemma UpperWord(size: nat, n: nat, high: nat, low: nat, x: real)
    requires high * Pow2(size) + low == n && low < Pow2(size) && x * Pow2(size) as real == n as real
    ensures IsOddRounding(OrBit(high, low != 0), x)
  {
    DivUnique(n, Pow2(size), high, low);
    hide Pow2, IsOddRounding;
    QuotientIsOddRounding(n, Pow2(size), x);
  }

  /** The product of two significands, shifted to the top of two words. */
  lemma ProductWords(f: Format, ka: nat, kb: nat, na: nat, nb: nat, s: nat, t: nat, n: nat)
    requires f.Valid() && Pow2(f.mant) <= ka < Pow2(f.mant + 1) && Pow2(f.mant) <= kb < Pow2(f.mant + 1)
    requires na == Shl(ka, s) && nb == Shl(kb, t) && s + f.mant + 1 <= f.size && t + f.mant + 1 <= f.size
    requires n == na * nb
    ensures na < Pow2(f.size) && nb < Pow2(f.size)
    ensures na < Pow2(s + f.mant + 1) && nb < Pow2(t + f.mant + 1)
    ensures Pow2(f.mant + s + f.mant + t) <= n < Pow2(f.mant + s + f.mant + t + 2)
    ensures n == (ka * kb) * Pow2(s + t)
  {
    hide *;
    ShlIs(ka, s);
    ShlIs(kb, t);
    ScaledRange(f.mant, ka, s, na);
    ScaledRange(f.mant, kb, t, nb);
    Pow2Mono(f.mant + 1 + s, f.size);
    Pow2Mono(f.mant + 1 + t, f.size);
    Pow2Add(f.mant + s, f.mant + t);
    Pow2Add(f.mant + 1 + s, f.mant + 1 + t);
    ProductRange(na, nb, Pow2(f.mant + s), Pow2(f.mant + t), Pow2(f.mant + 1 + s), Pow2(f.mant + 1 + t));
    Pow2Add(s, t);
    FourFactors(ka, Pow2(s), kb, Pow2(t));
  }

  lemma ScaledRange(m: nat, k: nat, s: nat, n: nat)
    requires Pow2(m) <= k < Pow2(m + 1) && n == k * Pow2(s)
    ensures Pow2(m + s) <= n < Pow2(m + 1 + s)
  {
    hide *;
    Pow2Add(m, s);
    Pow2Add(m + 1, s);
    MulLe(Pow2(m), k, Pow2(s));
    MulLt(k, Pow2(m + 1), Pow2(s));
  }

  lemma ProductRange(x: nat, y: nat, x0: nat, y0: nat, x1: nat, y1: nat)
    requires x0 <= x < x1 && y0 <= y < y1
    ensures x0 * y0 <= x * y < x1 * y1
  {
    MulLe(x0, x, y0);
    MulLe(y0, y, x);
    MulLe(x, x1, y);
    MulLt(y, y1, x1);
  }

  lemma FourFactors(a: int, p: int, b: int, q: int)
    ensures (a * p) * (b * q) == (a * b) * (p * q)
  {
  }

  /** The value of a product, as its normalised operands give it. */
  lemma ProductValue(f: Format, a: nat, b: nat, ka: nat, kb: nat, ea: int, eb: int, k: nat, x: real)
    requires f.Valid() && k == ka * kb
    requires f.Mag(f.Word(a)) as real == ka as real * Exp2(ea - 1)
    requires f.Mag(f.Word(b)) as real == kb as real * Exp2(eb - 1)
    requires x == k as real * Exp2(ea - 1 + (eb - 1) + f.QuantumExp())
    ensures Abs(f.Value(a) * f.Value(b)) == x * Exp2(f.QuantumExp())
  {
    hide *;
    var q := Exp2(f.QuantumExp());
    AbsValue(f, a);
    AbsValue(f, b);
    AbsProduct(f.Value(a), f.Value(b), f.Value(a) * f.Value(b));
    Exp2Add(ea - 1, eb - 1);
    Exp2Add(ea - 1 + (eb - 1), f.QuantumExp());
    RealProduct(ka, kb);
    ProductFactors(ka as real, kb as real, Exp2(ea - 1), Exp2(eb - 1), q, Exp2(ea - 1 + (eb - 1)),
                   Exp2(ea - 1 + (eb - 1) + f.QuantumExp()), f.Mag(f.Word(a)) as real, f.Mag(f.Word(b)) as real,
                   k as real, Abs(f.Value(a)), Abs(f.Value(b)), x, Abs(f.Value(a) * f.Value(b)));
  }

  lemma AbsValue(f: Format, a: nat)
    requires f.Valid()
    ensures Abs(f.Value(a)) == f.Mag(f.Word(a)) as real * Exp2(f.QuantumExp())
  {
    hide Exp2, Format.Mag;
    RMulLe(0.0, f.Mag(f.Word(a)) as real, Exp2(f.QuantumExp()));
  }

  lemma AbsProduct(x: real, y: real, xy: real)
    requires xy == x * y
    ensures Abs(xy) == Abs(x) * Abs(y)
  {
    if x >= 0.0 && y >= 0.0 { RMulLe(0.0, x, y); }
    if x >= 0.0 && y < 0.0 { RMulLe(0.0, x, -y); }
    if x < 0.0 && y >= 0.0 { RMulLe(x, 0.0, y); }
    if x < 0.0 && y < 0.0 { RMulLe(x, 0.0, -y); }
  }

  lemma ProductFactors(ka: real, kb: real, pa: real, pb: real, q: real, pab: real, pabq: real,
                       ma: real, mb: real, k: real, va: real, vb: real, x: real, v: real)
    requires pab == pa * pb && pabq == pab * q && ma == ka * pa && mb == kb * pb && k == ka * kb
    requires va == ma * q && vb == mb * q && x == k * pabq && v == va * vb
    ensures v == x * q
  {
    assert va * vb == ((ka * pa) * q) * ((kb * pb) * q);
    assert (k * pabq) * q == ((ka * kb) * ((pa * pb) * q)) * q;
  }

  /** Where the mantissa product sits: n = k * 2^s read s + t places up, at exponent exp. */
  lemma ProductPlaced(f: Format, exp: int, k: nat, n: nat, s: nat, y: real, x: real, e: int)
    requires f.Valid() && n == k * Pow2(s) && y * Pow2(f.size) as real == n as real
    requires x == k as real * Exp2(e) && e == s - f.size + exp - 1 - f.Rnd()
    ensures Placed(f, exp, y) == x
  {
    hide *;
    var c := Exp2(exp - 1 - f.Rnd());
    PlacedIs(f, exp, y);
    Exp2Scale(s, exp - 1 - f.Rnd() - f.size);
    Exp2Scale(f.size, exp - 1 - f.Rnd() - f.size);
    RealProduct(k, Pow2(s));
    PlacedFactors(k as real, Pow2(s) as real, n as real, y, Pow2(f.size) as real,
                  Exp2(exp - 1 - f.Rnd() - f.size), c, Exp2(e), x, Placed(f, exp, y));
  }

  lemma PlacedFactors(k: real, ps: real, n: real, y: real, w: real, d: real, c: real, pe: real, x: real, v: real)
    requires n == k * ps && y * w == n && c == w * d && pe == ps * d && x == k * pe && v == y * c
    ensures v == x
  {
    assert y * (w * d) == (y * w) * d;
    assert k * (ps * d) == (k * ps) * d;
  }

  /** mul_sf */
  method MulSf(f: Format, a: nat, b: nat, rm: RoundingMode) returns (r: nat, raised: Flags)
    requires f.Valid() && a < Pow2(f.size) && b < Pow2(f.size)
    ensures if f.IsFinite(a) && f.IsFinite(b)
            then DeliversValue(f, rm, f.Negative(a) != f.Negative(b), Abs(f.Value(a) * f.Value(b)), r, raised)
            else SpecialProduct(f, a, b, r, raised)
  {
    hide *;
    var neg := f.Negative(a) != f.Negative(b);
    FormatFacts(f);
    MantFits(f, a);
    MantFits(f, b);
    SpecialIs(f, a);
    SpecialIs(f, b);
    if f.ExpOf(a) == f.ExpMask() || f.ExpOf(b) == f.ExpMask() {
      r, raised := MulSpecial(f, a, b);
      return;
    }
    if IsZero(f, a) || IsZero(f, b) {
      ZeroProduct(f, a, b);
      DeliversZero(f, rm, neg);
      return f.Pack(neg, 0), Flags(false, false, false, false, false);
    }
    NormalOperand(f, a);
    NormalOperand(f, b);
    var aMant, bMant := Shl(NormalMant(f, a), f.Rnd()), Shl(NormalMant(f, b), f.Rnd() + 1);
    var exp := NormalExp(f, a) + NormalExp(f, b) - Pow2(f.exp - 1) + 2;
    ghost var y := (aMant * bMant) as real / Pow2(f.size) as real;
    Ratio((aMant * bMant) as real, Pow2(f.size) as real, y);
    ProductWords(f, NormalMant(f, a), NormalMant(f, b), aMant, bMant, f.Rnd(), f.Rnd() + 1, aMant * bMant);
    var high, low := MulU(f.size, aMant, bMant);
    ProductNormalizable(f, exp, aMant * bMant, high, low, y);
    r, raised := NormalizePack(f, neg, exp, OrBit(high, low != 0), rm, y);
    ProductDelivered(f, rm, neg, a, b, aMant * bMant, exp, y, r, raised);
  }

  /** The rounding just delivered is that of the product of the two values. */
  lemma ProductDelivered(f: Format, rm: RoundingMode, neg: bool, a: nat, b: nat, n: nat, exp: int, y: real,
                         r: nat, raised: Flags)
    requires f.Valid() && a < Pow2(f.size) && b < Pow2(f.size) && !IsZero(f, a) && !IsZero(f, b)
    requires f.MantOf(a) < Pow2(f.size) && f.MantOf(b) < Pow2(f.size)
    requires n == (NormalMant(f, a) * NormalMant(f, b)) * Pow2(f.Rnd() + (f.Rnd() + 1))
    requires y * Pow2(f.size) as real == n as real
    requires exp == NormalExp(f, a) + NormalExp(f, b) - (f.Bias() + 1) + 2
    requires Delivers(f, rm, neg, Placed(f, exp, y), r, raised)
    ensures DeliversValue(f, rm, neg, Abs(f.Value(a) * f.Value(b)), r, raised)
  {
    hide *;
    FormatFacts(f);
    NormalOperand(f, a);
    NormalOperand(f, b);
    var k := NormalMant(f, a) * NormalMant(f, b);
    var e := NormalExp(f, a) - 1 + (NormalExp(f, b) - 1) + f.QuantumExp();
    var x := k as real * Exp2(e);
    ProductPlaced(f, exp, k, n, f.Rnd() + (f.Rnd() + 1), y, x, e);
    ProductValue(f, a, b, NormalMant(f, a), NormalMant(f, b), NormalExp(f, a), NormalExp(f, b), k, x);
    InQuanta(f, rm, neg, x, Abs(f.Value(a) * f.Value(b)), r, raised);
  }

  lemma Ratio(n: real, p: real, y: real)
    requires p > 0.0 && y == n / p
    ensures y * p == n
  {
  }

  lemma RealProductIs(a: int, b: int, ab: int)
    requires ab == a * b
    ensures a as real * b as real == ab as real
  {
  }

  lemma FormatFacts(f: Format)
    requires f.Valid()
    ensures f.size == f.mant + f.Rnd() + 2 && f.Rnd() >= 7 && f.exp >= 8 && f.size >= 4 && f.size % 2 == 0
    ensures NO_FLAGS == Flags(false, false, false, false, false)
    ensures Pow2(f.exp - 1) == f.Bias() + 1 && f.QuantumExp() == 1 - f.Bias() - f.mant
  {
  }

  /** The product fills the upper word but for at most two bits, whatever is lost. */
  lemma ProductNormalizable(f: Format, exp: int, n: nat, high: nat, low: nat, y: real)
    requires f.Valid() && high * Pow2(f.size) + low == n && low < Pow2(f.size)
    requires Pow2(f.mant + f.Rnd() + f.mant + (f.Rnd() + 1)) <= n < Pow2(f.mant + f.Rnd() + f.mant + (f.Rnd() + 1) + 2)
    requires y * Pow2(f.size) as real == n as real
    ensures Normalizable(f, exp, OrBit(high, low != 0), y)
  {
    hide *;
    FormatFacts(f);
    UpperWord(f.size, n, high, low, y);
    Pow2Add(f.mant + f.Rnd() - 1, f.size);
    Pow2Add(f.mant + f.Rnd() + 1, f.size);
    HighRange(n, high, low, Pow2(f.size), Pow2(f.mant + f.Rnd() - 1), Pow2(f.mant + f.Rnd() + 1));
    Pow2Mono(f.mant + 2, f.mant + f.Rnd() - 1);
    Pow2Even(f.mant + f.Rnd() + 1);
    OrBitRange(high, low != 0, Pow2(f.mant + f.Rnd() + 1));
    OddNormalizable(f, exp, OrBit(high, low != 0), y);
  }

  lemma OrBitRange(m: nat, bit: bool, hi: nat)
    requires m < hi && hi % 2 == 0
    ensures m <= OrBit(m, bit) < hi
  {
  }

  lemma OddNormalizable(f: Format, exp: int, m: nat, y: real)
    requires f.Valid() && IsOddRounding(m, y) && Pow2(f.mant + 2) <= m < Pow2(f.size - 1)
    ensures Normalizable(f, exp, m, y)
  {
  }

  lemma HighRange(n: nat, high: nat, low: nat, w: nat, lo: nat, hi: nat)
    requires high * w + low == n && low < w && lo * w <= n < hi * w
    ensures lo <= high < hi
  {
    MulDist(high, 1, w);
    if high < lo { MulLe(high + 1, lo, w); }
    if high >= hi { MulLe(hi, high, w); }
  }

  lemma ZeroProduct(f: Format, a: nat, b: nat)
    requires f.Valid() && a < Pow2(f.size) && b < Pow2(f.size) && (IsZero(f, a) || IsZero(f, b))
    ensures Abs(f.Value(a) * f.Value(b)) == 0.0
  {
    hide Exp2, IsZero;
    if IsZero(f, a) { ZeroValue(f, a); } else { ZeroValue(f, b); }
  }

  lemma ZeroValue(f: Format, a: nat)
    requires f.Valid() && a < Pow2(f.size)
    ensures IsZero(f, a) <==> f.Value(a) == 0.0
  {
    hide Exp2, Format.Mag;
    MantFits(f, a);
    Unpacked(f, a);
    UnpackedIs(f, a);
    Pow2Mono(0, UnpackedExp(f, a) - 1);
    if UnpackedMant(f, a) > 0 { MulLe(1, UnpackedMant(f, a), Pow2(UnpackedExp(f, a) - 1)); }
    if f.Mag(f.Word(a)) > 0 { RMulLt(0.0, f.Mag(f.Word(a)) as real, Exp2(f.QuantumExp())); }
  }

  lemma SpecialIs(f: Format, a: nat)
    requires f.Valid() && a < Pow2(f.size)
    ensures f.IsFinite(a) <==> f.ExpOf(a) != f.ExpMask()
    ensures f.IsNaN(a) <==> f.ExpOf(a) == f.ExpMask() && f.MantOf(a) != 0
    ensures f.IsSignalingNaN(a) ==> f.IsNaN(a)
    ensures IsZero(f, a) ==> f.ExpOf(a) != f.ExpMask()
  {
    Unpacked(f, a);
    Pow2Mono(1, f.exp);
    if f.IsSignalingNaN(a) { SignalingIsNaN(f, a); }
  }

  method MulSpecial(f: Format, a: nat, b: nat) returns (r: nat, raised: Flags)
    requires f.Valid() && a < Pow2(f.size) && b < Pow2(f.size)
    requires f.ExpOf(a) == f.ExpMask() || f.ExpOf(b) == f.ExpMask()
    ensures SpecialProduct(f, a, b, r, raised)
  {
    SpecialIs(f, a);
    SpecialIs(f, b);
    hide Format.IsNaN, Format.IsSignalingNaN, Format.IsFinite, IsZero;
    r, raised := f.QNaN(), NO_FLAGS;
    if f.IsNaN(a) || f.IsNaN(b) {
      if f.IsSignalingNaN(a) || f.IsSignalingNaN(b) { raised := INVALID; }
    } else if (f.ExpOf(a) == f.ExpMask() && IsZero(f, b)) || (f.ExpOf(b) == f.ExpMask() && IsZero(f, a)) {
      raised := INVALID;
    } else {
      r := f.Pack(f.Negative(a) != f.Negative(b), f.Inf());
    }
  }
}
