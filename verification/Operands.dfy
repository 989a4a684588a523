/** Unpacked operands of the multiplicative routines: normalize_subnormal_sf gives subnormal
    numbers a leading one and an exponent below 1. */
module Operands {
  import opened Arith
  import opened FloatFormat
  import opened Rounding
  import opened Significand
  import opened Packing

  /** shift of normalize_subnormal_sf */
  function SubnormalShift(f: Format, m: nat): int
    requires f.Valid() && m < Pow2(f.size)
  {
    f.mant - (f.size - 1 - CountLeadingZeros(f.size, m))
  }

  /** The exponent of a finite nonzero operand once its significand has its leading one. */
  function NormalExp(f: Format, a: nat): int
    requires f.Valid() && f.MantOf(a) < Pow2(f.size)
  {
    if f.ExpOf(a) == 0 then 1 - SubnormalShift(f, f.MantOf(a)) else f.ExpOf(a)
  }

  function NormalMant(f: Format, a: nat): nat
    requires f.Valid() && f.MantOf(a) < Pow2(f.size)
  {
    if f.ExpOf(a) != 0 then f.MantOf(a) + Pow2(f.mant)
    else if SubnormalShift(f, f.MantOf(a)) < 0 then 0
    else f.MantOf(a) * Pow2(SubnormalShift(f, f.MantOf(a)))
  }

  predicate IsZero(f: Format, a: nat)
    requires f.Valid()
  {
    f.ExpOf(a) == 0 && f.MantOf(a) == 0
  }

  lemma MantFits(f: Format, a: nat)
    requires f.Valid()
    ensures f.MantOf(a) < Pow2(f.mant) <= Pow2(f.size)
  {
    Pow2Mono(f.mant, f.size);
  }

  /** The normalised operand has its leading one and keeps its value. */
  lemma NormalOperand(f: Format, a: nat)
    requires f.Valid() && a < Pow2(f.size) && f.MantOf(a) < Pow2(f.size) && !IsZero(f, a)
    ensures Pow2(f.mant) <= NormalMant(f, a) < Pow2(f.mant + 1)
    ensures f.Mag(f.Word(a)) as real == NormalMant(f, a) as real * Exp2(NormalExp(f, a) - 1)
    ensures f.ExpOf(a) == 0 ==> 0 <= SubnormalShift(f, f.MantOf(a)) <= f.mant
  {
    hide *;
    MantFits(f, a);
    Unpacked(f, a);
    UnpackedIs(f, a);
    var e, m := f.ExpOf(a), f.MantOf(a);
    if e == 0 {
      SubnormalIs(f, a);
      ShiftedUp(f, m, SubnormalShift(f, m), NormalMant(f, a));
    } else {
      Exp2Nat(e - 1);
      RealProduct(NormalMant(f, a), Pow2(e - 1));
    }
  }

  lemma UnpackedIs(f: Format, a: nat)
    requires f.Valid() && f.MantOf(a) < Pow2(f.size)
    ensures f.ExpOf(a) != 0 ==> f.ExpOf(a) >= 1 && UnpackedExp(f, a) == f.ExpOf(a) == NormalExp(f, a)
    ensures f.ExpOf(a) != 0 ==> UnpackedMant(f, a) == NormalMant(f, a) >= Pow2(f.mant)
    ensures f.ExpOf(a) == 0 ==> UnpackedExp(f, a) == 1 && UnpackedMant(f, a) == f.MantOf(a) && Pow2(0) == 1
    ensures IsZero(f, a) <==> f.ExpOf(a) == 0 && f.MantOf(a) == 0
  {
  }

  lemma SubnormalIs(f: Format, a: nat)
    requires f.Valid() && f.MantOf(a) < Pow2(f.mant) && f.MantOf(a) < Pow2(f.size) && f.ExpOf(a) == 0 && f.MantOf(a) != 0
    ensures var s := SubnormalShift(f, f.MantOf(a));
            && 1 <= s <= f.mant && NormalExp(f, a) == 1 - s
            && NormalMant(f, a) == f.MantOf(a) * Pow2(s)
            && f.MantOf(a) < Pow2(f.mant - s + 1) && f.MantOf(a) >= Pow2(f.mant - s)
  {
    var n := CountLeadingZeros(f.size, f.MantOf(a));
    hide CountLeadingZeros;
    if f.size - 1 - n >= f.mant { Pow2Mono(f.mant, f.size - 1 - n); }
  }

  lemma ShiftedUp(f: Format, m: nat, s: nat, k: nat)
    requires 1 <= s <= f.mant && Pow2(f.mant - s) <= m < Pow2(f.mant - s + 1) && k == m * Pow2(s)
    ensures Pow2(f.mant) <= k < Pow2(f.mant + 1)
    ensures m as real == k as real * Exp2(1 - s - 1)
  {
    hide *;
    Pow2Add(f.mant - s, s);
    Pow2Add(f.mant - s + 1, s);
    MulLe(Pow2(f.mant - s), m, Pow2(s));
    MulLt(m, Pow2(f.mant - s + 1), Pow2(s));
    Exp2Add(s, 1 - s - 1);
    Exp2Nat(s);
    Exp2Nat(0);
    PowZero();
    RealProduct(m, Pow2(s));
    Regrouped(m as real, Pow2(s) as real, Exp2(1 - s - 1), 1.0);
  }

  /** Zeros are delivered as they are. */
  lemma DeliversZero(f: Format, rm: RoundingMode, neg: bool)
    requires f.Valid()
    ensures DeliversValue(f, rm, neg, 0.0, f.Pack(neg, 0), NO_FLAGS)
  {
    hide Exp2, IsRounding, IsTiny;
    ZeroDelivered(f, rm, neg, 0.0 / Exp2(f.QuantumExp()));
  }

  lemma ZeroDelivered(f: Format, rm: RoundingMode, neg: bool, x: real)
    requires f.Valid() && x == 0.0
    ensures Delivers(f, rm, neg, x, f.Pack(neg, 0), NO_FLAGS)
  {
    hide IsRounding, IsTiny, Exp2;
    ZeroWord(f);
    ZeroPacked(f, neg);
    MagOfSignificand(f, 1, 0);
    LocalRounding(f, rm, neg, x, 0);
    NeverUpWhenExact(rm, neg, false, 0.0, f.Ulp(0) as real);
    UlpPositive(f, 0);
    assert IsRounding(f, rm, neg, x, 0);
  }
}
