/** The binary interchange formats of softfp_template.h, one model for all word sizes.

    A word with its sign bit removed is called a magnitude word.  Counting upwards from 0 the
    magnitude words enumerate the representable magnitudes in increasing order, so "the next
    representable value" is simply "the next word".  Magnitudes are integers counted in quanta:
    one quantum is the smallest positive subnormal. */
module FloatFormat {
  import opened Arith

  datatype RoundingMode = RNE | RTZ | RDN | RUP | RMM

  /** The exception bits of fflags. */
  datatype Flags = Flags(invalid: bool, divideZero: bool, overflow: bool, underflow: bool, inexact: bool)

  const NO_FLAGS := Flags(false, false, false, false, false)
  const INVALID := NO_FLAGS.(invalid := true)
  const DIVIDE_ZERO := NO_FLAGS.(divideZero := true)

  /** F_SIZE, MANT_SIZE and EXP_SIZE. */
  datatype Format = Format(size: nat, mant: nat, exp: nat) {

    /** What the three formats of the library have in common and the arithmetic relies on:
        RND_SIZE is at least 7, the mantissa is longer than the exponent field, and the
        exponent range is wider than the mantissa. */
    predicate Valid() {
      size == 1 + exp + mant && 8 <= exp <= mant < Pow2(exp - 2) && size % 2 == 0
    }

    /** RND_SIZE: the bits of the internal mantissa below the last stored one. */
    function Rnd(): (r: nat)
      requires Valid()
      ensures r == exp - 1
    {
      size - 2 - mant
    }

    function ExpMask(): nat { Pow2(exp) - 1 }

    /** EXP_MASK / 2 */
    function Bias(): nat
      requires Valid()
    {
      Pow2(exp - 1) - 1
    }

    /** The magnitude word of infinity; smaller words are finite, larger ones NaNs. */
    function Inf(): nat { ExpMask() * Pow2(mant) }

    function SignBit(): nat
      requires Valid()
    {
      Pow2(size - 1)
    }

    /** F_QNAN */
    function QNaN(): nat
      requires Valid()
    {
      Inf() + Pow2(mant - 1)
    }

    /** pack_sf for a magnitude word that is already assembled. */
    function Pack(neg: bool, w: nat): nat
      requires Valid()
    {
      (if neg then SignBit() else 0) + w
    }

    function Negative(a: nat): bool
      requires Valid()
    {
      a / SignBit() != 0
    }

    /** The magnitude word of a. */
    function Word(a: nat): nat
      requires Valid()
    {
      a % SignBit()
    }

    function ExpOf(a: nat): nat
      requires Valid()
    {
      a / Pow2(mant) % Pow2(exp)
    }

    function MantOf(a: nat): nat { a % Pow2(mant) }

    /** isnan_sf */
    predicate IsNaN(a: nat)
      requires Valid()
    {
      ExpOf(a) == ExpMask() && MantOf(a) != 0
    }

    /** issignan_sf: the quiet bit is clear. */
    predicate IsSignalingNaN(a: nat)
      requires Valid()
    {
      a / Pow2(mant - 1) % Pow2(exp + 1) == 2 * ExpMask() && MantOf(a) != 0
    }

    predicate IsFinite(a: nat)
      requires Valid()
    {
      Word(a) < Inf()
    }

    /** The magnitude, in quanta, that a word stands for.  It is defined for words beyond
        infinity too, as if the exponent range went on. */
    ghost function Mag(w: nat): nat {
      if w < Pow2(mant) then w else (Pow2(mant) + w % Pow2(mant)) * Pow2(w / Pow2(mant) - 1)
    }

    /** The distance, in quanta, from a word's magnitude to the next. */
    ghost function Ulp(w: nat): nat {
      if w < Pow2(mant) then 1 else Pow2(w / Pow2(mant) - 1)
    }

    /** The word with significand k, leading one included, at exponent e. */
    function WordAt(e: nat, k: nat): nat
      requires e >= 1
    {
      (e - 1) * Pow2(mant) + k
    }

    /** The exponent of the quantum: its real value is 2^QuantumExp. */
    ghost function QuantumExp(): int
      requires Valid()
    {
      1 - Bias() - mant
    }

    /** The real value of a finite word. */
    ghost function Value(a: nat): real
      requires Valid()
    {
      var v := Mag(Word(a)) as real * Exp2(QuantumExp());
      if Negative(a) then -v else v
    }
  }

  /** Clearing the sign bit leaves the exponent and mantissa fields in place. */
  lemma Fields(f: Format, a: nat)
    requires f.Valid() && a < Pow2(f.size)
    ensures f.Word(a) == f.ExpOf(a) * Pow2(f.mant) + f.MantOf(a)
    ensures f.ExpOf(a) == f.Word(a) / Pow2(f.mant) && f.MantOf(a) == f.Word(a) % Pow2(f.mant)
    ensures f.ExpOf(a) < Pow2(f.exp) && f.MantOf(a) < Pow2(f.mant) && f.Word(a) < f.SignBit()
    ensures a == f.Pack(f.Negative(a), f.Word(a))
  {
    var p, x := Pow2(f.mant), Pow2(f.exp);
    Pow2Add(f.exp, f.mant);
    Pow2Add(1, f.size - 1);
    DivMod2(a, p, x);
  }

  /** Splitting a number at one digit position and then at another above it. */
  lemma DivMod2(a: nat, p: nat, x: nat)
    requires p > 0 && x > 0 && a < 2 * (x * p)
    ensures x * p > 0
    ensures a / p % x < x && a % p < p
    ensures a % (x * p) == a / p % x * p + a % p
    ensures a % (x * p) / p == a / p % x && a % (x * p) % p == a % p
    ensures a == a / (x * p) * (x * p) + a % (x * p) && 0 <= a / (x * p) < 2
  {
    var q := a / p;
    var h, e, m := q / x, q % x, a % p;
    SplitProduct(h, x, e, p);
    MulLe(e, x - 1, p);
    MulDist(x, -1, p);
    MulLe(1, x, p);
    DivUnique(a, x * p, h, e * p + m);
    DivUnique(e * p + m, p, e, m);
    if h >= 2 { MulLe(2, h, x * p); }
    if h <= -1 { MulLe(h, -1, x * p); }
  }

  lemma SplitProduct(h: int, x: int, e: int, p: int)
    ensures (h * x + e) * p == h * (x * p) + e * p
  {
  }

  /** The fields of a word assembled by Pack. */
  lemma PackFields(f: Format, neg: bool, w: nat)
    requires f.Valid() && w < f.SignBit()
    ensures f.Pack(neg, w) < Pow2(f.size)
    ensures f.Word(f.Pack(neg, w)) == w && f.Negative(f.Pack(neg, w)) == neg
  {
    Pow2Add(1, f.size - 1);
    DivUnique(f.Pack(neg, w), f.SignBit(), if neg then 1 else 0, w);
  }

  lemma InfBound(f: Format)
    requires f.Valid()
    ensures f.Inf() + Pow2(f.mant) == f.SignBit()
    ensures f.Inf() < f.QNaN() < f.SignBit()
  {
    Pow2Add(f.exp, f.mant);
    Pow2Mono(f.mant - 1, f.mant);
    MulDist(f.ExpMask(), 1, Pow2(f.mant));
  }

  lemma Assoc(a: int, b: int, c: int)
    ensures (a * b) * c == a * (b * c)
  {
  }

  /** A significand k taken at exponent e, normal or (at exponent 1 only) subnormal. */
  lemma MagOfSignificand(f: Format, e: nat, k: nat)
    requires e >= 1 && k < Pow2(f.mant + 1) && (e == 1 || k >= Pow2(f.mant))
    ensures f.Mag(f.WordAt(e, k)) == k * Pow2(e - 1)
    ensures f.Ulp(f.WordAt(e, k)) == Pow2(e - 1)
  {
    var p := Pow2(f.mant);
    var w := f.WordAt(e, k);
    if k >= p {
      MulDist(e - 1, 1, p);
      DivUnique(w, p, e, k - p);
    } else {
      DivUnique(w, p, 0, k);
    }
  }

  /** The next word has the next magnitude. */
  lemma MagStep(f: Format, w: nat)
    ensures f.Mag(w + 1) == f.Mag(w) + f.Ulp(w)
  {
    hide Format.Mag, Format.Ulp;
    var p := Pow2(f.mant);
    var e, k := WordParts(f, w);
    MagOfSignificand(f, e, k);
    MulDist(k, 1, Pow2(e - 1));
    if k + 1 < 2 * p {
      MagOfSignificand(f, e, k + 1);
    } else {
      MulDist(e - 1, 1, p);
      MagOfSignificand(f, e + 1, p);
      Assoc(p, 2, Pow2(e - 1));
    }
  }

  /** Exponent and significand, with its leading one, of a word. */
  lemma WordParts(f: Format, w: nat) returns (e: nat, k: nat)
    ensures e >= 1 && k < Pow2(f.mant + 1) && (e == 1 || k >= Pow2(f.mant))
    ensures w == f.WordAt(e, k)
  {
    var p := Pow2(f.mant);
    if w < p {
      e, k := 1, w;
    } else {
      e, k := w / p, p + w % p;
      MulDist(e, -1, p);
      if e < 1 { MulLe(e, 0, p); }
    }
  }

  /** Larger words have larger magnitudes. */
  lemma {:induction false} MagMono(f: Format, v: nat, w: nat)
    requires v < w
    ensures f.Mag(v) + f.Ulp(v) <= f.Mag(w)
    decreases w
  {
    MagStep(f, w - 1);
    if v < w - 1 { MagMono(f, v, w - 1); }
  }

  /** The significand with its leading one, and the exponent, as the routines unpack them. */
  function UnpackedExp(f: Format, a: nat): (e: nat)
    requires f.Valid()
    ensures e >= 1
  {
    if f.ExpOf(a) == 0 then 1 else f.ExpOf(a)
  }

  function UnpackedMant(f: Format, a: nat): nat
    requires f.Valid()
  {
    if f.ExpOf(a) == 0 then f.MantOf(a) else f.MantOf(a) + Pow2(f.mant)
  }

  /** What the unpacked fields say about a word. */
  lemma UnpackedRange(f: Format, a: nat)
    requires f.Valid() && a < Pow2(f.size)
    ensures f.Word(a) == f.WordAt(UnpackedExp(f, a), UnpackedMant(f, a))
    ensures UnpackedMant(f, a) < Pow2(f.mant + 1)
    ensures UnpackedExp(f, a) == 1 || UnpackedMant(f, a) >= Pow2(f.mant)
    ensures f.IsFinite(a) <==> f.ExpOf(a) != f.ExpMask()
  {
    Fields(f, a);
    MulDist(f.ExpOf(a), -1, Pow2(f.mant));
    var e, p := f.ExpOf(a), Pow2(f.mant);
    if e < f.ExpMask() { MulLe(e + 1, f.ExpMask(), p); MulDist(e, 1, p); }
  }

  lemma Unpacked(f: Format, a: nat)
    requires f.Valid() && a < Pow2(f.size)
    ensures f.Mag(f.Word(a)) == UnpackedMant(f, a) * Pow2(UnpackedExp(f, a) - 1)
    ensures UnpackedMant(f, a) < Pow2(f.mant + 1)
    ensures UnpackedExp(f, a) == 1 || UnpackedMant(f, a) >= Pow2(f.mant)
    ensures f.IsFinite(a) <==> f.ExpOf(a) != f.ExpMask()
  {
    hide *;
    UnpackedRange(f, a);
    MagOfSignificand(f, UnpackedExp(f, a), UnpackedMant(f, a));
  }

  /** A NaN is signaling exactly when the top bit of its mantissa is clear. */
  lemma QuietBit(f: Format, a: nat)
    requires f.Valid() && a < Pow2(f.size) && f.IsNaN(a)
    ensures f.IsSignalingNaN(a) <==> f.MantOf(a) / Pow2(f.mant - 1) % 2 == 0
  {
    QuietBitOf(a, Pow2(f.mant - 1), Pow2(f.mant), Pow2(f.exp), Pow2(f.exp + 1), f.ExpMask());
  }

  /** The NaN delivered is quiet, and positive, and its quiet bit is the only one set in its mantissa. */
  lemma QNaNIs(f: Format)
    requires f.Valid()
    ensures f.QNaN() < Pow2(f.size - 1) && f.MantOf(f.QNaN()) == Pow2(f.mant - 1) && f.ExpOf(f.QNaN()) == Pow2(f.exp) - 1
    ensures f.IsNaN(f.QNaN()) && !f.IsSignalingNaN(f.QNaN()) && !f.Negative(f.QNaN())
  {
    var a, h, p := f.QNaN(), Pow2(f.mant - 1), Pow2(f.mant);
    InfBound(f);
    Pow2Add(1, f.size - 1);
    DivUnique(a, p, f.ExpMask(), h);
    DivUnique(f.ExpMask(), Pow2(f.exp), 0, f.ExpMask());
    DivUnique(a, f.SignBit(), 0, a);
    DivUnique(h, h, 1, 0);
    QuietBit(f, a);
  }

  /** A word by its three fields (IEEE 754-2008, section 3.4): sign, biased exponent and fraction.  It is a
      number unless the exponent is the largest one, then infinity or, with a fraction, a NaN. */
  lemma Encoded(f: Format, neg: bool, e: nat, m: nat, a: nat)
    requires f.Valid() && e < Pow2(f.exp) && m < Pow2(f.mant)
    requires a == (if neg then Pow2(f.exp + f.mant) else 0) + e * Pow2(f.mant) + m
    ensures a < Pow2(f.size) && f.Negative(a) == neg
    ensures f.IsFinite(a) <==> e != Pow2(f.exp) - 1
    ensures f.IsNaN(a) <==> e == Pow2(f.exp) - 1 && m != 0
    ensures f.Value(a) ==
            var v := (if e == 0 then m as real * Exp2(2 - Pow2(f.exp - 1) - f.mant)
                      else (Pow2(f.mant) + m) as real * Exp2(e + 1 - Pow2(f.exp - 1) - f.mant));
            if neg then -v else v
  {
    hide *;
    var p, x, w := Pow2(f.mant), Pow2(f.exp), e * Pow2(f.mant) + m;
    FieldWeights(f, neg, e, m, a, w, p, x);
    FieldsGiven(f, a, e, m, w);
    Unpacked(f, a);
    var k, j := UnpackedMant(f, a), UnpackedExp(f, a);
    ValueIs(f, a);
    MagnitudeOf(f.Mag(f.Word(a)), k, j - 1, f.QuantumExp());
  }

  lemma FieldWeights(f: Format, neg: bool, e: nat, m: nat, a: nat, w: nat, p: nat, x: nat)
    requires f.Valid() && p == Pow2(f.mant) && x == Pow2(f.exp) && e < x && m < p && w == e * p + m
    requires a == (if neg then Pow2(f.exp + f.mant) else 0) + w
    ensures a < Pow2(f.size) && f.Negative(a) == neg && f.Word(a) == w && w / p == e && w % p == m
  {
    hide Pow2;
    var s := Pow2(f.exp + f.mant);
    Pow2Add(f.exp, f.mant);
    TwicePow(f.exp + f.mant);
    MulLe(e + 1, x, p);
    MulDist(e, 1, p);
    DivUnique(w, p, e, m);
    DivUnique(a, s, if neg then 1 else 0, w);
  }

  lemma FieldsGiven(f: Format, a: nat, e: nat, m: nat, w: nat)
    requires f.Valid() && a < Pow2(f.size) && f.Word(a) == w && w / Pow2(f.mant) == e && w % Pow2(f.mant) == m
    ensures f.ExpOf(a) == e && f.MantOf(a) == m
    ensures UnpackedExp(f, a) == (if e == 0 then 1 else e) && UnpackedMant(f, a) == (if e == 0 then m else Pow2(f.mant) + m)
    ensures f.IsNaN(a) <==> e == Pow2(f.exp) - 1 && m != 0
    ensures f.ExpMask() == Pow2(f.exp) - 1
  {
    hide Pow2, Format.Word;
    Fields(f, a);
  }

  lemma ValueIs(f: Format, a: nat)
    requires f.Valid()
    ensures f.QuantumExp() == 2 - Pow2(f.exp - 1) - f.mant
    ensures f.Value(a) == var v := f.Mag(f.Word(a)) as real * Exp2(f.QuantumExp()); if f.Negative(a) then -v else v
  {
    hide Pow2, Exp2;
  }

  lemma MagnitudeOf(n: nat, k: nat, j: nat, q: int)
    requires n == k * Pow2(j)
    ensures n as real * Exp2(q) == k as real * Exp2(j + q)
  {
    hide *;
    Exp2Scale(j, q);
    RealProduct(k, Pow2(j));
    Regrouped(k as real, Pow2(j) as real, Exp2(q), Exp2(j + q));
  }

  lemma QuietBitOf(a: nat, h: nat, p: nat, x: nat, xx: nat, mask: nat)
    requires h > 0 && p == 2 * h && x > 0 && xx == 2 * x && a / p % x == mask
    ensures a / h % xx == 2 * mask <==> a % p / h % 2 == 0
  {
    HalfDigit(a, h, p);
    DoubledDigit(a / p, a % p / h, x, xx);
  }

  lemma HalfDigit(a: nat, h: nat, p: nat)
    requires h > 0 && p == 2 * h
    ensures 0 <= a % p / h < 2 && a / h == 2 * (a / p) + a % p / h
  {
    var q, m := a / p, a % p;
    var b := m / h;
    assert q * p == (2 * q) * h;
    MulDist(2 * q, b, h);
    DivUnique(a, h, 2 * q + b, m % h);
    if b >= 2 { MulLe(2, b, h); }
    if b < 0 { MulLe(b, -1, h); }
  }

  lemma DoubledDigit(q: int, b: int, x: nat, xx: nat)
    requires x > 0 && xx == 2 * x && 0 <= b < 2
    ensures (2 * q + b) % xx == 2 * (q % x) + b
  {
    var t := q / x;
    assert 2 * (t * x) == t * xx;
    DivUnique(2 * q + b, xx, t, 2 * (q % x) + b);
  }

  lemma SignalingIsNaN(f: Format, a: nat)
    requires f.Valid() && a < Pow2(f.size) && f.IsSignalingNaN(a)
    ensures f.IsNaN(a)
  {
    SignalingMask(a, Pow2(f.mant - 1), Pow2(f.mant), Pow2(f.exp), Pow2(f.exp + 1), f.ExpMask());
  }

  lemma SignalingMask(a: nat, h: nat, p: nat, x: nat, xx: nat, mask: nat)
    requires h > 0 && p == 2 * h && x > 0 && xx == 2 * x && a / h % xx == 2 * mask
    ensures a / p % x == mask
  {
    HalfDigit(a, h, p);
    DoubledDigit(a / p, a % p / h, x, xx);
  }
}
