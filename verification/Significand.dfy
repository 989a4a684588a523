/** The mantissa arithmetic inside round_pack_sf: shifting right with a sticky bit, adding the
    addend and truncating, and why that is rounding. */
module Significand {
  import opened Arith
  import opened FloatFormat
  import opened Rounding
  import opened Sticky

  /** rshift_rnd */
  function ShiftRightSticky(size: nat, a: nat, d: nat): nat {
    if d == 0 then a
    else if d >= size then (if a != 0 then 1 else 0)
    else StickyDiv(a, Pow2(d))
  }

  /** clz: the number of leading zeros of a `size`-bit word. */
  function CountLeadingZeros(size: nat, a: nat): (n: nat)
    requires a < Pow2(size)
    ensures n <= size && (a == 0 <==> n == size)
    ensures a != 0 ==> Pow2(size - 1 - n) <= a < Pow2(size - n)
  {
    if size == 0 then 0
    else if a >= Pow2(size - 1) then 0
    else 1 + CountLeadingZeros(size - 1, a)
  }

  /** Half a rounding step of the internal mantissa: 1 << (RND_SIZE - 1). */
  function Half(f: Format): (h: nat)
    requires f.Valid()
    ensures h > 0
  {
    Pow2(f.Rnd() - 1)
  }

  /** The amount added to a mantissa so that truncation rounds it. */
  function Addend(rm: RoundingMode, neg: bool, half: nat): nat
    requires half > 0
  {
    match rm
    case RNE => half
    case RMM => half
    case RTZ => 0
    case RDN => if neg then 2 * half - 1 else 0
    case RUP => if neg then 0 else 2 * half - 1
  }

  /** Add the addend, drop the rounding bits and clear the last bit on a tie to even. */
  function RoundedSignificand(rm: RoundingMode, neg: bool, half: nat, m: nat): nat
    requires half > 0
  {
    var t := Quotient(m + Addend(rm, neg, half), 2 * half);
    if rm == RNE && m % (2 * half) == half then ClearLowBit(t) else t
  }

  function ClearLowBit(t: nat): nat { t - t % 2 }

  lemma ShiftRightStickyIs(size: nat, a: nat, d: nat)
    requires a < Pow2(size)
    ensures ShiftRightSticky(size, a, d) == StickyDiv(a, Pow2(d))
  {
    if d >= size { Pow2Mono(size, d); DivUnique(a, Pow2(d), 0, a); }
  }

  // -----------------------------------------------------------------------------------------
  // Rounding the significand
  // -----------------------------------------------------------------------------------------

  lemma RoundedQuotient(m: nat, addend: nat, g: nat)
    requires g > 0 && addend < g
    ensures (m + addend) / g == if m % g + addend >= g then m / g + 1 else m / g
  {
    var k, r := m / g, m % g;
    MulDist(k, 1, g);
    if r + addend >= g {
      DivUnique(m + addend, g, k + 1, r + addend - g);
    } else {
      DivUnique(m + addend, g, k, r + addend);
    }
  }

  /** Dividing by a whole step and by half a step. */
  lemma HalfSteps(m: nat, half: nat, g: nat)
    requires half > 0 && g == 2 * half
    ensures m / half * half == m / g * g + (if m % g < half then 0 else half)
    ensures m % half == m % g - (if m % g < half then 0 else half)
    ensures m == m / g * g + m % g && 0 <= m % g < g
  {
    var k, r := m / g, m % g;
    assert k * g == (2 * k) * half;
    MulDist(2 * k, 1, half);
    if r < half { DivUnique(m, half, 2 * k, r); } else { DivUnique(m, half, 2 * k + 1, r - half); }
  }

  /** The mantissa arithmetic makes the choice the rounding mode asks for. */
  lemma SignificandChoice(rm: RoundingMode, neg: bool, m: nat, x: real, half: nat, k: nat, lo: nat)
    requires half > 0 && half % 2 == 0 && k == m / (2 * half) && lo == k * (2 * half)
    requires StandsFor(m, x, half)
    ensures lo as real <= x < (lo + 2 * half) as real
    ensures m % (2 * half) != 0 <==> x != lo as real
    ensures RoundedSignificand(rm, neg, half, m) ==
            if RoundsUp(rm, neg, k % 2 == 1, x - lo as real, (2 * half) as real) then k + 1 else k
  {
    var g := 2 * half;
    var r := m % g;
    HalfSteps(m, half, g);
    hide RoundsUp;
    ChoiceOnRemainder(rm, neg, m % half, r, lo, x, half, k);
    RoundedBySteps(rm, neg, half, m, g);
  }

  lemma RoundedBySteps(rm: RoundingMode, neg: bool, half: nat, m: nat, g: nat)
    requires half > 0 && g == 2 * half
    ensures RoundedSignificand(rm, neg, half, m) ==
            var t := if m % g + Addend(rm, neg, half) >= g then m / g + 1 else m / g;
            if rm == RNE && m % g == half then ClearLowBit(t) else t
  {
    RoundedQuotient(m, Addend(rm, neg, half), g);
  }

  lemma ChoiceOnRemainder(rm: RoundingMode, neg: bool, rh: nat, r: nat, lo: nat, x: real, half: nat, k: nat)
    requires half > 0 && half % 2 == 0 && r < 2 * half && rh == if r < half then r else r - half
    requires x == (lo + r) as real || (rh != 0 && (lo + r - rh) as real < x < (lo + r - rh + half) as real)
    ensures lo as real <= x < (lo + 2 * half) as real
    ensures r != 0 <==> x != lo as real
    ensures var t := if r + Addend(rm, neg, half) >= 2 * half then k + 1 else k;
            (if rm == RNE && r == half then ClearLowBit(t) else t) ==
            if RoundsUp(rm, neg, k % 2 == 1, x - lo as real, (2 * half) as real) then k + 1 else k
  {
  }

  /** Seen from the exponent e, the rounded significand is the rounding of the whole value. */
  lemma SignificandRounds(f: Format, rm: RoundingMode, neg: bool, e: nat, m: nat, xm: real, x: real, w: nat)
    requires f.Valid() && e >= 1 && m < Pow2(f.size - 1) && (e == 1 || m >= Pow2(f.size - 2))
    requires StandsFor(m, xm, Half(f)) && x == xm * Exp2(e - 1 - f.Rnd())
    requires w == f.WordAt(e, RoundedSignificand(rm, neg, Half(f), m))
    ensures IsRounding(f, rm, neg, x, w)
    ensures m % (2 * Half(f)) != 0 <==> f.Mag(w) as real != x
  {
    hide *;
    HalfIsEven(f);
    SignificandRange(f, m);
    var half := Half(f);
    var g := 2 * half;
    var k, lo := StepBelow(m, g);
    SignificandChoice(rm, neg, m, xm, half, k, lo);
    Exp2Split(e - 1, e - 1 - f.Rnd());
    Exp2Nat(e - 1);
    MagOfSignificand(f, e, k);
    ScaledChoice(f, rm, neg, e, k, g, lo, xm, x, Exp2(e - 1 - f.Rnd()));
  }

  /** The rounding step that m lies in: its number and where it starts. */
  lemma StepBelow(m: nat, g: nat) returns (k: nat, lo: nat)
    requires g > 0
    ensures k == m / g && lo == k * g
  {
    k := m / g;
    MulLe(0, k, g);
    lo := k * g;
  }

  lemma HalfIsEven(f: Format)
    requires f.Valid()
    ensures f.mant > 0 && f.Rnd() == f.exp - 1
    ensures Half(f) % 2 == 0 && 2 * Half(f) == Pow2(f.Rnd()) && Half(f) == 2 * Pow2(f.Rnd() - 2)
  {
  }

  lemma SignificandRange(f: Format, m: nat)
    requires f.Valid() && m < Pow2(f.size - 1)
    ensures m / (2 * Half(f)) < Pow2(f.mant + 1)
    ensures m >= Pow2(f.size - 2) ==> m / (2 * Half(f)) >= Pow2(f.mant)
  {
    var g := 2 * Half(f);
    Pow2Add(f.mant + 1, f.Rnd());
    Pow2Add(f.mant, f.Rnd());
    QuotientRange(m, g, Pow2(f.mant + 1));
    QuotientRange(m, g, Pow2(f.mant));
  }

  lemma QuotientRange(m: nat, g: nat, b: nat)
    requires g > 0
    ensures m < b * g <==> m / g < b
  {
    var k := m / g;
    MulDist(k, 1, g);
    if k >= b { MulLe(b, k, g); } else { MulLe(k + 1, b, g); }
  }

  lemma ScaledChoice(f: Format, rm: RoundingMode, neg: bool, e: nat, k: nat, g: nat, lo: nat, xm: real, x: real, c: real)
    requires e >= 1 && f.mant > 0 && g > 0 && c > 0.0
    requires x == xm * c && Pow2(e - 1) as real == g as real * c
    requires lo == k * g && lo as real <= xm < (lo + g) as real
    requires f.Mag(f.WordAt(e, k)) == k * Pow2(e - 1)
    requires f.Ulp(f.WordAt(e, k)) == Pow2(e - 1)
    ensures var w := f.WordAt(e, if RoundsUp(rm, neg, k % 2 == 1, xm - lo as real, g as real) then k + 1 else k);
            IsRounding(f, rm, neg, x, w) && (xm != lo as real <==> f.Mag(w) as real != x)
  {
    hide *;
    var w, odd := f.WordAt(e, k), k % 2 == 1;
    var below, gap := xm - lo as real, g as real;
    NextWordAt(f, e, k);
    ScaledBounds(k, g, lo, xm, c, Pow2(e - 1));
    RoundsUpScales(rm, neg, odd, below, gap, c);
    LocalRounding(f, rm, neg, x, w);
    assert x - f.Mag(w) as real == below * c && f.Ulp(w) as real == gap * c;
    MagStep(f, w);
    NeverUpWhenExact(rm, neg, odd, below, gap);
  }

  lemma NeverUpWhenExact(rm: RoundingMode, neg: bool, odd: bool, below: real, gap: real)
    requires gap > 0.0
    ensures below == 0.0 ==> !RoundsUp(rm, neg, odd, below, gap)
  {
  }

  lemma NextWordAt(f: Format, e: nat, k: nat)
    requires e >= 1 && f.mant > 0
    ensures f.WordAt(e, k + 1) == f.WordAt(e, k) + 1 && f.WordAt(e, k) % 2 == k % 2
  {
    var p := Pow2(f.mant);
    assert p % 2 == 0;
    EvenMultiple(e - 1, p);
    EvenPlus((e - 1) * p, k);
  }

  lemma ScaledBounds(k: nat, g: nat, lo: nat, xm: real, c: real, u: nat)
    requires g > 0 && c > 0.0 && u as real == g as real * c
    requires lo == k * g && lo as real <= xm < (lo + g) as real
    ensures (k * u) as real <= xm * c < (k * u + u) as real
    ensures xm * c - (k * u) as real == (xm - lo as real) * c
    ensures xm == lo as real <==> xm * c == (k * u) as real
  {
    var kr, gr := k as real, g as real;
    assert lo as real == kr * gr;
    assert (k * u) as real == kr * u as real;
    RAssoc(kr, gr, c);
    RMulLe(lo as real, xm, c);
    RMulLt(xm, (lo + g) as real, c);
    RDist(lo as real, gr, c);
    RDist(xm, -(lo as real), c);
    RCancel(lo as real, xm, c);
  }

  lemma RAssoc(a: real, b: real, c: real)
    ensures (a * b) * c == a * (b * c)
  {
  }

  lemma RDist(a: real, b: real, c: real)
    ensures (a + b) * c == a * c + b * c
  {
  }
}
