/** normalize_sf and normalize2_sf: shift a mantissa up to its full width, then round and pack. */
module Normalize {
  import opened Arith
  import opened FloatFormat
  import opened Rounding
  import opened Sticky
  import opened Significand
  import opened Packing

  /** When the mantissa may be shifted up without losing track of the exact value xm: it is
      exact, or it is an odd rounding with at least two spare bits below the significand, or
      the result is so deep in the subnormal range that only its being nonzero matters. */
  ghost predicate Normalizable(f: Format, exp: int, mant: nat, xm: real)
    requires f.Valid()
  {
    xm >= 0.0 && mant < Pow2(f.size - 1) &&
    (|| xm == mant as real
     || (IsOddRounding(mant, xm) && mant >= Pow2(f.mant + 2))
     || (mant != 0 && exp <= f.Rnd() - f.size && 0.0 < xm < Pow2(f.Rnd() - exp) as real))
  }

  /** Scaling the mantissa up and the exponent down leaves the value in place. */
  lemma PlacedScales(f: Format, exp: int, xm: real, s: nat, ym: real)
    requires f.Valid() && ym == xm * Pow2(s) as real
    ensures Placed(f, exp - s, ym) == Placed(f, exp, xm)
  {
    hide *;
    PlacedIs(f, exp, xm);
    PlacedIs(f, exp - s, ym);
    Exp2Scale(s, exp - s - 1 - f.Rnd());
    Regrouped(xm, Pow2(s) as real, Exp2(exp - s - 1 - f.Rnd()), Exp2(exp - 1 - f.Rnd()));
  }

  lemma FullWidth(f: Format, mant: nat, n: nat)
    requires f.Valid() && mant < Pow2(f.size - 1) && n == CountLeadingZeros(f.size, mant)
    ensures n >= 1 && (mant == 0 ==> n == f.size)
    ensures mant * Pow2(n - 1) < Pow2(f.size - 1)
    ensures mant != 0 ==> n < f.size && mant * Pow2(n - 1) >= Pow2(f.size - 2)
    ensures mant >= Pow2(f.mant + 2) ==> n - 1 <= f.Rnd() - 2
  {
    hide CountLeadingZeros;
    if mant != 0 {
      Pow2Add(f.size - 1 - n, n - 1);
      Pow2Add(f.size - n, n - 1);
      MulLe(Pow2(f.size - 1 - n), mant, Pow2(n - 1));
      MulLt(mant, Pow2(f.size - n), Pow2(n - 1));
      if n > f.Rnd() - 1 && mant >= Pow2(f.mant + 2) { Pow2Mono(f.size - n, f.mant + 2); }
    }
  }

  /** Normalising preserves what rounding needs to know. */
  lemma Normalised(f: Format, exp: int, mant: nat, xm: real, n: nat, m: nat, ym: real)
    requires f.Valid() && Normalizable(f, exp, mant, xm) && n == CountLeadingZeros(f.size, mant)
    requires n >= 1 && m == mant * Pow2(n - 1) && ym == xm * Pow2(n - 1) as real
    ensures Represents(f, exp - (n - 1), m, ym)
    ensures Placed(f, exp - (n - 1), ym) == Placed(f, exp, xm)
  {
    hide CountLeadingZeros, Placed, StandsFor, Exp2, Pow2, IsOddRounding;
    FullWidth(f, mant, n);
    PlacedScales(f, exp, xm, n - 1, ym);
    ScaledStandsFor(f, exp, mant, xm, n - 1, m, ym);
  }

  lemma ScaledStandsFor(f: Format, exp: int, mant: nat, xm: real, s: nat, m: nat, ym: real)
    requires f.Valid() && Normalizable(f, exp, mant, xm) && m < Pow2(f.size - 1)
    requires m == mant * Pow2(s) && ym == xm * Pow2(s) as real
    requires mant >= Pow2(f.mant + 2) ==> s <= f.Rnd() - 2
    ensures ym >= 0.0 && (mant == 0 ==> m == 0)
    ensures StandsFor(m, ym, Half(f)) || (exp - s < 0 && StandsFor(m, ym, Pow2(f.Rnd() - (exp - s))))
  {
    hide StandsFor, Pow2, IsOddRounding;
    RMulLe(0.0, xm, Pow2(s) as real);
    if xm == mant as real {
      RealProduct(mant, Pow2(s));
      ExactStandsFor(m, ym, Half(f));
    } else if IsOddRounding(mant, xm) && mant >= Pow2(f.mant + 2) {
      OddScaled(f, mant, xm, s, m, ym);
    } else {
      DeepStandsFor(f, exp, mant, xm, s, m, ym);
    }
  }

  lemma ExactStandsFor(m: nat, x: real, half: nat)
    requires half > 0 && x == m as real
    ensures StandsFor(m, x, half)
  {
  }

  lemma OddScaled(f: Format, mant: nat, xm: real, s: nat, m: nat, ym: real)
    requires f.Valid() && IsOddRounding(mant, xm) && s <= f.Rnd() - 2
    requires m == mant * Pow2(s) && ym == xm * Pow2(s) as real
    ensures StandsFor(m, ym, Half(f))
  {
    hide *;
    var h := HalfBefore(f, s);
    OddStandsFor(mant, xm, h);
    ScaleUp(mant, xm, h, Pow2(s), m, ym, Half(f));
  }

  lemma HalfBefore(f: Format, s: nat) returns (h: nat)
    requires f.Valid() && s <= f.Rnd() - 2
    ensures h > 0 && h % 2 == 0 && h * Pow2(s) == Half(f)
  {
    h := Pow2(f.Rnd() - 1 - s);
    Pow2Add(f.Rnd() - 1 - s, s);
  }

  lemma DeepStandsFor(f: Format, exp: int, mant: nat, xm: real, s: nat, m: nat, ym: real)
    requires f.Valid() && exp <= f.Rnd() - f.size && 0.0 < xm < Pow2(f.Rnd() - exp) as real
    requires m == mant * Pow2(s) && ym == xm * Pow2(s) as real
    requires mant != 0 && m < Pow2(f.size - 1)
    ensures exp - s < 0 && StandsFor(m, ym, Pow2(f.Rnd() - (exp - s)))
  {
    hide Pow2, StandsFor;
    Pow2Mono(f.size - 1, f.Rnd() - (exp - s));
    Pow2Add(f.Rnd() - exp, s);
    DeepStep(mant, xm, Pow2(s), Pow2(f.Rnd() - exp), m, ym, Pow2(f.Rnd() - (exp - s)));
  }

  lemma DeepStep(mant: nat, xm: real, p: nat, b: nat, m: nat, ym: real, h: nat)
    requires mant != 0 && 0.0 < xm < b as real && p > 0 && h == b * p && m == mant * p && m < h
    requires ym == xm * p as real
    ensures StandsFor(m, ym, h)
  {
    MulLt(0, mant, p);
    RMulLt(0.0, xm, p as real);
    RMulLt(xm, b as real, p as real);
    RealProduct(b, p);
    DivUnique(m, h, 0, m);
  }

  /** `a << d` in a word of the given size. */
  function ShiftLeft(size: nat, a: nat, d: nat): nat {
    a * Pow2(d) % Pow2(size)
  }

  lemma ShiftLeftFits(f: Format, mant: nat, n: nat)
    requires f.Valid() && mant < Pow2(f.size - 1)
    requires n == CountLeadingZeros(f.size, mant)
    ensures n >= 1 && ShiftLeft(f.size, mant, n - 1) == mant * Pow2(n - 1)
  {
    FullWidth(f, mant, n);
    hide CountLeadingZeros;
    NoWrap(mant, Pow2(n - 1), f.size);
  }

  lemma NoWrap(a: nat, p: nat, size: nat)
    requires size >= 1 && p > 0 && a * p < Pow2(size - 1)
    ensures a * p % Pow2(size) == a * p
  {
    MulLe(0, a, p);
    DivUnique(a * p, Pow2(size), 0, a * p);
  }

  /** normalize_sf */
  method NormalizePack(f: Format, neg: bool, exp: int, mant: nat, rm: RoundingMode, ghost xm: real)
    returns (r: nat, raised: Flags)
    requires f.Valid() && Normalizable(f, exp, mant, xm)
    ensures Delivers(f, rm, neg, Placed(f, exp, xm), r, raised)
  {
    hide *;
    NormalizableFits(f, exp, mant, xm);
    var n := CountLeadingZeros(f.size, mant);
    ShiftLeftFits(f, mant, n);
    var shift := n - 1;
    ghost var ym := xm * Pow2(shift) as real;
    Normalised(f, exp, mant, xm, n, mant * Pow2(shift), ym);
    r, raised := RoundPack(f, neg, exp - shift, ShiftLeft(f.size, mant, shift), rm, ym);
  }

  lemma NormalizableFits(f: Format, exp: int, mant: nat, xm: real)
    requires f.Valid() && Normalizable(f, exp, mant, xm)
    ensures f.size >= 1 && mant < Pow2(f.size - 1) && mant < Pow2(f.size)
  {
    hide IsOddRounding;
    Pow2Mono(f.size - 1, f.size);
  }
}
