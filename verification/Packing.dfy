/** round_pack_sf, where every arithmetic routine of softfp_template.h ends, and the tininess its
    underflow flag depends on. */
module Packing {
  import opened Arith
  import opened FloatFormat
  import opened Rounding
  import opened Sticky
  import opened Significand

  // -----------------------------------------------------------------------------------------
  // Tininess
  // -----------------------------------------------------------------------------------------

  /** Normal magnitudes are never tiny: rounding does not pass the power of two below them. */
  lemma NormalIsNotTiny(f: Format, rm: RoundingMode, neg: bool, x: real)
    requires x >= Pow2(f.mant) as real
    ensures !IsTiny(f, rm, neg, x)
  {
    forall j: nat, w: nat
      ensures !IsTinyBy(f, rm, neg, x, j, w)
    {
      ScaledNormal(f, rm, neg, x, j, w);
    }
  }

  lemma ScaledNormal(f: Format, rm: RoundingMode, neg: bool, x: real, j: nat, w: nat)
    requires x >= Pow2(f.mant) as real
    ensures IsRounding(f, rm, neg, Scaled(x, j), w) ==> f.Mag(w) >= Pow2(f.mant + j)
  {
    hide *;
    PowerOfTwoWord(f, j);
    ScaledAtLeast(x, f.mant, j);
    if IsRounding(f, rm, neg, Scaled(x, j), w) {
      RoundingBounded(f, rm, neg, Scaled(x, j), w, f.WordAt(j + 1, Pow2(f.mant)));
    }
  }

  lemma PowerOfTwoWord(f: Format, j: nat)
    ensures f.Mag(f.WordAt(j + 1, Pow2(f.mant))) == Pow2(f.mant + j)
  {
    Pow2Mono(f.mant, f.mant + 1);
    MagOfSignificand(f, j + 1, Pow2(f.mant));
    Pow2Add(f.mant, j);
  }

  lemma ScaledAtLeast(x: real, e: nat, j: nat)
    requires x >= Pow2(e) as real
    ensures Scaled(x, j) >= Pow2(e + j) as real
  {
    Pow2Add(e, j);
    RMulLe(Pow2(e) as real, x, Pow2(j) as real);
  }

  lemma ScaledTwice(x: real, j: nat)
    requires x >= 0.0 && j >= 2
    ensures Scaled(x, j) >= 4.0 * x
  {
    Pow2Mono(2, j);
    RMulLe(4.0, Pow2(j) as real, x);
  }

  /** Below half the smallest normal number rounding cannot reach it. */
  lemma SmallIsTiny(f: Format, rm: RoundingMode, neg: bool, x: real)
    requires f.mant > 0 && 0.0 < x < Pow2(f.mant - 1) as real
    ensures IsTiny(f, rm, neg, x)
  {
    hide Format.Mag, IsRounding;
    var b := Pow2(f.mant);
    var n := ReachableMultiple(x, b);
    var j := Normalising(x, b, n);
    var w := RoundingExists(f, rm, neg, Scaled(x, j));
    MagOfSignificand(f, 2, b);
    RoundingBounded(f, rm, neg, Scaled(x, j), w, f.WordAt(2, b));
    Pow2Mono(f.mant + 2, f.mant + j);
    assert IsTinyBy(f, rm, neg, x, j, w);
  }

  lemma ReachableMultiple(x: real, b: nat) returns (n: nat)
    requires x > 0.0
    ensures x * n as real >= b as real
  {
    var q := b as real / x;
    n := q.Floor + 1;
    RMulLe(q, n as real, x);
  }

  /** Some power of two scales x into [b, 2 * b). */
  lemma {:induction false} Normalising(x: real, b: nat, n: nat) returns (j: nat)
    requires 0.0 < x && 2.0 * x < b as real <= x * n as real
    ensures j >= 2 && b as real <= Scaled(x, j) < (2 * b) as real
    decreases n
  {
    HalveMultiple(x, b, n);
    Double(x, 1);
    if 4.0 * x >= b as real {
      j := 2;
    } else {
      var i := Normalising(2.0 * x, b, (n + 1) / 2);
      j := i + 1;
      Double(x, i);
    }
  }

  lemma Double(x: real, i: nat)
    ensures Scaled(x, i + 1) == Scaled(2.0 * x, i)
    ensures Scaled(x, 0) == x && Scaled(x, 1) == 2.0 * x && Scaled(x, 2) == 4.0 * x
  {
    var p := Pow2(i);
    assert x * (2 * p) as real == (2.0 * x) * p as real;
  }

  lemma HalveMultiple(x: real, b: nat, n: nat)
    requires 0.0 < x && 2.0 * x < b as real <= x * n as real
    ensures b as real <= (2.0 * x) * ((n + 1) / 2) as real && (n + 1) / 2 < n
  {
    var h := (n + 1) / 2;
    RMulLe(n as real, (2 * h) as real, x);
    assert (2.0 * x) * h as real == (2 * h) as real * x;
    if n <= 1 { RMulLe(n as real, 1.0, x); }
  }

  /** In the binade just below the normal numbers, tininess is decided one bit further down. */
  lemma TinyInLastBinade(f: Format, rm: RoundingMode, neg: bool, x: real, w: nat)
    requires f.mant > 0 && Pow2(f.mant - 1) as real <= x < Pow2(f.mant) as real
    requires IsRounding(f, rm, neg, 2.0 * x, w)
    ensures IsTiny(f, rm, neg, x) <==> f.Mag(w) < Pow2(f.mant + 1)
  {
    hide Format.Mag, IsRounding, Scaled;
    Double(x, 0);
    if f.Mag(w) < Pow2(f.mant + 1) {
      assert IsTinyBy(f, rm, neg, x, 1, w);
    }
    forall j: nat, v: nat | IsTinyBy(f, rm, neg, x, j, v)
      ensures f.Mag(w) < Pow2(f.mant + 1)
    {
      if j >= 2 { ScaledTwice(x, j); }
      RoundingUnique(f, rm, neg, 2.0 * x, v, w);
    }
  }

  // -----------------------------------------------------------------------------------------
  // round_pack_sf
  // -----------------------------------------------------------------------------------------

  /** What round_pack_sf has to know about the exact mantissa xm: in the subnormal range the
      steps that matter are coarser. */
  ghost predicate Represents(f: Format, exp: int, mant: nat, xm: real)
    requires f.Valid()
  {
    xm >= 0.0 && mant < Pow2(f.size - 1) && (mant == 0 || mant >= Pow2(f.size - 2)) &&
    (StandsFor(mant, xm, Half(f)) || (exp < 0 && StandsFor(mant, xm, Pow2(f.Rnd() - exp))))
  }

  /** The value, in quanta, of mantissa xm at exponent exp. */
  ghost function Placed(f: Format, exp: int, xm: real): real
    requires f.Valid()
  {
    xm * Exp2(exp - 1 - f.Rnd())
  }

  /** pack_sf */
  function PackWord(f: Format, neg: bool, e: nat, m: nat): nat
    requires f.Valid()
  {
    f.Pack(neg, e * Pow2(f.mant) + m % Pow2(f.mant))
  }

  /** An even bound separates mantissas exactly as it separates the values they stand for. */
  lemma BoundTransfers(m: nat, x: real, half: nat, q: nat)
    requires half > 0 && StandsFor(m, x, half)
    ensures m < q * half <==> x < (q * half) as real
  {
    var k := m / half;
    QuotientRange(m, half, q);
    if k < q { MulLe(k + 1, q, half); MulDist(k, 1, half); } else { MulLe(q, k, half); }
  }

  lemma MantissaBounds(f: Format, m: nat, xm: real)
    requires f.Valid() && StandsFor(m, xm, Half(f))
    ensures m < Pow2(f.size - 1) <==> xm < Pow2(f.size - 1) as real
    ensures m < Pow2(f.size - 2) <==> xm < Pow2(f.size - 2) as real
    ensures m < Pow2(f.size - 3) <==> xm < Pow2(f.size - 3) as real
  {
    hide StandsFor;
    Pow2Add(f.size - f.Rnd(), f.Rnd() - 1);
    Pow2Add(f.size - 1 - f.Rnd(), f.Rnd() - 1);
    Pow2Add(f.size - 2 - f.Rnd(), f.Rnd() - 1);
    BoundTransfers(m, xm, Half(f), Pow2(f.size - f.Rnd()));
    BoundTransfers(m, xm, Half(f), Pow2(f.size - 1 - f.Rnd()));
    BoundTransfers(m, xm, Half(f), Pow2(f.size - 2 - f.Rnd()));
  }

  /** Denormalising keeps track of the exact value. */
  lemma Denormalised(f: Format, exp: int, mant: nat, xm: real, m: nat, ym: real)
    requires f.Valid() && exp <= 0 && Represents(f, exp, mant, xm)
    requires m == ShiftRightSticky(f.size, mant, 1 - exp) && ym == xm * Exp2(exp - 1)
    ensures StandsFor(m, ym, Half(f)) && Placed(f, exp, xm) == Placed(f, 1, ym) && Placed(f, 1, ym) >= 0.0
    ensures m < Pow2(f.size - 2) && (exp < 0 ==> m < Pow2(f.size - 3))
  {
    hide *;
    var d := 1 - exp;
    HalfIsEven(f);
    PlacedShift(f, exp, xm, ym);
    FineToCoarse(f, exp, mant, xm);
    ShiftRightStickyIs(f.size, mant, d);
    ShiftDown(mant, xm, Half(f), Pow2(d), Half(f) * Pow2(d), ym);
    ShiftedWord(f, mant, d);
  }

  lemma ShiftedWord(f: Format, mant: nat, d: nat)
    requires f.Valid() && d >= 1 && mant < Pow2(f.size - 1)
    ensures ShiftRightSticky(f.size, mant, d) < Pow2(f.size - 2)
    ensures d >= 2 ==> ShiftRightSticky(f.size, mant, d) < Pow2(f.size - 3)
  {
    hide *;
    WideShift(f, d);
    Pow2Mono(f.size - 1, f.size);
    ShiftRightStickyIs(f.size, mant, d);
    ShiftedRange(mant, Pow2(d), Pow2(f.size - 3));
  }

  lemma WideShift(f: Format, d: nat)
    requires f.Valid() && d >= 1
    ensures Pow2(d) >= 2 && (d >= 2 ==> Pow2(d) >= 4)
    ensures f.size > 3 && Pow2(f.size - 3) % 2 == 0 && Pow2(f.size - 2) == 2 * Pow2(f.size - 3)
    ensures Pow2(f.size - 1) == 4 * Pow2(f.size - 3)
  {
  }

  lemma FineToCoarse(f: Format, exp: int, mant: nat, xm: real)
    requires f.Valid() && exp <= 0 && Represents(f, exp, mant, xm)
    ensures StandsFor(mant, xm, Half(f) * Pow2(1 - exp)) && mant < Pow2(f.size) && xm >= 0.0
    ensures mant < Pow2(f.size - 1)
  {
    hide StandsFor;
    Pow2Add(f.Rnd() - 1, 1 - exp);
    Pow2Mono(f.size - 1, f.size);
    if StandsFor(mant, xm, Half(f)) { Coarsen(mant, xm, Half(f), Pow2(1 - exp)); }
  }

  lemma PlacedShift(f: Format, exp: int, xm: real, ym: real)
    requires f.Valid() && exp <= 0 && ym == xm * Exp2(exp - 1)
    ensures Placed(f, exp, xm) == Placed(f, 1, ym) && ym * Pow2(1 - exp) as real == xm
    ensures xm >= 0.0 ==> Placed(f, exp, xm) >= 0.0
    ensures Half(f) * Pow2(1 - exp) > 0
  {
    hide Exp2;
    var c := Exp2(exp - 1);
    Exp2Add(exp - 1, 0 - f.Rnd());
    RAssoc(xm, c, Exp2(0 - f.Rnd()));
    Exp2Add(exp - 1, 1 - exp);
    Exp2Nat(0);
    Exp2Nat(1 - exp);
    RAssoc(xm, c, Pow2(1 - exp) as real);
    if xm >= 0.0 { RMulLe(0.0, xm, Exp2(exp - 1 - f.Rnd())); }
    MulLt(0, Half(f), Pow2(1 - exp));
  }

  lemma ShiftedRange(mant: nat, p: nat, b: nat)
    requires p >= 2 && b > 0 && b % 2 == 0 && mant < 4 * b
    ensures StickyDiv(mant, p) < 2 * b
    ensures p >= 4 ==> StickyDiv(mant, p) < b
  {
    MulLe(2, p, 2 * b);
    QuotientRange(mant, p, 2 * b);
    if p >= 4 {
      MulLe(4, p, b);
      QuotientRange(mant, p, b);
    }
  }

  // The three ways through round_pack_sf, each leading to the rounded word and its exceptions.

  lemma NormalCase(f: Format, rm: RoundingMode, neg: bool, exp: int, mant: nat, xm: real, w: nat)
    requires f.Valid() && exp >= 1 && mant != 0 && Represents(f, exp, mant, xm)
    requires w == f.WordAt(exp, RoundedSignificand(rm, neg, Half(f), mant))
    ensures IsRounding(f, rm, neg, Placed(f, exp, xm), w)
    ensures mant % Pow2(f.Rnd()) != 0 <==> f.Mag(w) as real != Placed(f, exp, xm)
    ensures !IsTiny(f, rm, neg, Placed(f, exp, xm))
  {
    hide *;
    HalfIsEven(f);
    RepresentsNormal(f, exp, mant, xm);
    SignificandRounds(f, rm, neg, exp, mant, xm, Placed(f, exp, xm), w);
    MantissaBounds(f, mant, xm);
    PlacedAtLeast(f, exp, xm, f.size - 2, f.mant + exp - 1);
    Pow2Mono(f.mant, f.mant + exp - 1);
    NormalIsNotTiny(f, rm, neg, Placed(f, exp, xm));
  }

  lemma RepresentsNormal(f: Format, exp: int, mant: nat, xm: real)
    requires f.Valid() && exp >= 0 && mant != 0 && Represents(f, exp, mant, xm)
    ensures mant < Pow2(f.size - 1) && mant >= Pow2(f.size - 2) && StandsFor(mant, xm, Half(f)) && xm >= 0.0
    ensures Placed(f, exp, xm) == xm * Exp2(exp - 1 - f.Rnd())
    ensures f.size - 2 == f.mant + f.Rnd() && f.mant > 1
  {
    hide StandsFor, Exp2, Pow2, Half;
  }

  /** Bounds on a mantissa become bounds on the value. */
  lemma PlacedAtLeast(f: Format, exp: int, xm: real, e: nat, b: nat)
    requires f.Valid() && b == e + (exp - 1 - f.Rnd())
    ensures xm >= Pow2(e) as real <==> Placed(f, exp, xm) >= Pow2(b) as real
  {
    hide *;
    PlacedIs(f, exp, xm);
    Pow2Shift(e, exp - 1 - f.Rnd());
    ScaledOrder(xm, Pow2(e) as real, Exp2(exp - 1 - f.Rnd()), Placed(f, exp, xm), Pow2(b) as real);
  }

  lemma PlacedIs(f: Format, exp: int, xm: real)
    requires f.Valid()
    ensures Placed(f, exp, xm) == xm * Exp2(exp - 1 - f.Rnd())
  {
  }

  lemma ScaledOrder(x: real, y: real, c: real, xc: real, yc: real)
    requires c > 0.0 && xc == x * c && yc == y * c
    ensures x >= y <==> xc >= yc
  {
    RCancel(x, y, c);
  }

  lemma SubnormalCase(f: Format, rm: RoundingMode, neg: bool, exp: int, mant: nat, xm: real, m: nat, w: nat)
    requires f.Valid() && exp <= 0 && mant != 0 && Represents(f, exp, mant, xm)
    requires m == ShiftRightSticky(f.size, mant, 1 - exp)
    requires w == f.WordAt(1, RoundedSignificand(rm, neg, Half(f), m))
    ensures m < Pow2(f.size - 2)
    ensures IsRounding(f, rm, neg, Placed(f, exp, xm), w)
    ensures m % Pow2(f.Rnd()) != 0 <==> f.Mag(w) as real != Placed(f, exp, xm)
    ensures m % Pow2(f.Rnd()) != 0 ==> (IsTiny(f, rm, neg, Placed(f, exp, xm)) <==>
              exp < 0 || mant + Addend(rm, neg, Half(f)) < Pow2(f.size - 1))
  {
    hide *;
    var ym := xm * Exp2(exp - 1);
    HalfIsEven(f);
    Denormalised(f, exp, mant, xm, m, ym);
    SizeFacts(f);
    SignificandRounds(f, rm, neg, 1, m, ym, Placed(f, exp, xm), w);
    if m % Pow2(f.Rnd()) != 0 {
      if exp < 0 {
        MantissaBounds(f, m, ym);
        PlacedAtLeast(f, 1, ym, f.size - 3, f.mant - 1);
        InexactIsPositive(f, rm, neg, Placed(f, exp, xm), w);
        SmallIsTiny(f, rm, neg, Placed(f, exp, xm));
      } else {
        RepresentsNormal(f, 0, mant, xm);
        LastBinade(f, rm, neg, mant, xm);
      }
    }
  }

  lemma SizeFacts(f: Format)
    requires f.Valid()
    ensures f.mant > 1 && f.size - 3 == f.mant - 1 + f.Rnd() && Placed(f, 1, 1.0) == 1.0 * Exp2(0 - f.Rnd())
    ensures Pow2(f.size - 2) < Pow2(f.size - 1)
    ensures forall ym: real :: Placed(f, 1, ym) == ym * Exp2(1 - 1 - f.Rnd())
  {
  }

  lemma InexactIsPositive(f: Format, rm: RoundingMode, neg: bool, x: real, w: nat)
    requires x >= 0.0 && IsRounding(f, rm, neg, x, w) && f.Mag(w) as real != x
    ensures x > 0.0
  {
    MagOfSignificand(f, 1, 0);
    RoundingBounded(f, rm, neg, x, w, 0);
  }

  lemma LastBinade(f: Format, rm: RoundingMode, neg: bool, mant: nat, xm: real)
    requires f.Valid() && Pow2(f.size - 2) <= mant < Pow2(f.size - 1) && StandsFor(mant, xm, Half(f))
    ensures IsTiny(f, rm, neg, Placed(f, 0, xm)) <==> mant + Addend(rm, neg, Half(f)) < Pow2(f.size - 1)
  {
    hide *;
    var k := RoundedSignificand(rm, neg, Half(f), mant);
    var x := Placed(f, 0, xm);
    SizeFacts(f);
    MantissaBounds(f, mant, xm);
    PlacedAtLeast(f, 0, xm, f.size - 2, f.mant - 1);
    PlacedAtLeast(f, 0, xm, f.size - 1, f.mant);
    PlacedDouble(f, xm);
    SignificandRounds(f, rm, neg, 1, mant, xm, 2.0 * x, f.WordAt(1, k));
    TinyInLastBinade(f, rm, neg, x, f.WordAt(1, k));
    RoundedReaches(f, rm, neg, mant);
  }

  lemma PlacedDouble(f: Format, xm: real)
    requires f.Valid()
    ensures xm * Exp2(1 - 1 - f.Rnd()) == 2.0 * Placed(f, 0, xm)
  {
    hide Exp2;
    Exp2Succ(-1 - f.Rnd());
  }

  /** Rounding a full-width significand carries out exactly when the addition does. */
  lemma RoundedReaches(f: Format, rm: RoundingMode, neg: bool, m: nat)
    requires f.Valid() && m < Pow2(f.size - 1)
    ensures var k := RoundedSignificand(rm, neg, Half(f), m);
            f.Mag(f.WordAt(1, k)) < Pow2(f.mant + 1) <==> m + Addend(rm, neg, Half(f)) < Pow2(f.size - 1)
    ensures RoundedSignificand(rm, neg, Half(f), m) <= Pow2(f.mant + 1)
  {
    hide *;
    var k := RoundedSignificand(rm, neg, Half(f), m);
    HalfIsEven(f);
    SignificandWidth(f);
    RoundedCarry(rm, neg, Half(f), m, Pow2(f.mant + 1));
    PowerOfTwoWord(f, 1);
    if k < Pow2(f.mant + 1) { UnitWord(f, k); }
  }

  lemma SignificandWidth(f: Format)
    requires f.Valid()
    ensures Pow2(f.mant + 1) % 2 == 0 && Pow2(f.mant + 1) * (2 * Half(f)) == Pow2(f.size - 1)
    ensures f.WordAt(2, Pow2(f.mant)) == f.WordAt(1, Pow2(f.mant + 1))
  {
    Pow2Add(f.mant + 1, f.Rnd());
  }

  lemma UnitWord(f: Format, k: nat)
    requires k < Pow2(f.mant + 1)
    ensures f.Mag(f.WordAt(1, k)) == k
  {
    MagOfSignificand(f, 1, k);
  }

  lemma RoundedCarry(rm: RoundingMode, neg: bool, half: nat, m: nat, b: nat)
    requires half > 0 && b % 2 == 0 && m < b * (2 * half)
    ensures RoundedSignificand(rm, neg, half, m) <= b
    ensures RoundedSignificand(rm, neg, half, m) < b <==> m + Addend(rm, neg, half) < b * (2 * half)
  {
    var n := m + Addend(rm, neg, half);
    QuotientRange(n, 2 * half, b);
    MulDist(b, 1, 2 * half);
    QuotientRange(n, 2 * half, b + 1);
  }

  /** The word that is packed, and the exceptions added, once the significand is rounded. */
  lemma Packed(f: Format, rm: RoundingMode, neg: bool, e0: nat, k: nat, w: nat, e: nat)
    requires f.Valid() && e0 >= 1 && k <= Pow2(f.mant + 1) && (e0 == 1 || k >= Pow2(f.mant))
    requires w == f.WordAt(e0, k) && e == e0 + Quotient(k, Pow2(f.mant + 1))
    ensures k < Pow2(f.mant) ==> w == k && w < f.Inf()
    ensures k >= Pow2(f.mant) ==> w == e * Pow2(f.mant) + k % Pow2(f.mant)
    ensures k >= Pow2(f.mant) ==> (w >= f.Inf() <==> e >= f.ExpMask())
  {
    var p := Pow2(f.mant);
    Pow2Mono(1, f.exp);
    MulLe(1, f.ExpMask(), p);
    if k >= p {
      MulDist(e0, -1, p);
      MulDist(e0, 1, p);
      if k < 2 * p {
        DivUnique(k, 2 * p, 0, k);
        DivUnique(k, p, 1, k - p);
      } else {
        DivUnique(k, 2 * p, 1, 0);
        DivUnique(k, p, 2, 0);
      }
      QuotientRange(w, p, f.ExpMask());
      DivUnique(w, p, e, k % p);
    }
  }

  lemma AllOnes(f: Format, neg: bool)
    requires f.Valid()
    ensures Pow2(f.mant) >= 1 && f.ExpMask() >= 1
    ensures f.Inf() >= 1 && f.mant >= 1 && f.size >= 3
    ensures PackWord(f, neg, f.ExpMask(), 0) == f.Pack(neg, f.Inf())
    ensures PackWord(f, neg, f.ExpMask() - 1, Pow2(f.mant) - 1) == f.Pack(neg, f.Inf() - 1)
  {
    Pow2Mono(1, f.exp);
    hide Pow2;
    LastWord(f.ExpMask(), Pow2(f.mant));
  }

  lemma LastWord(e: nat, p: nat)
    requires e >= 1 && p >= 1
    ensures e * p >= 1 && 0 % p == 0
    ensures (e - 1) * p + (p - 1) % p == e * p - 1
  {
    MulLe(1, e, p);
    MulDist(e, -1, p);
    DivUnique(p - 1, p, 0, p - 1);
    DivUnique(0, p, 0, 0);
  }

  lemma AddendIsZero(rm: RoundingMode, neg: bool, half: nat)
    requires half > 0
    ensures Addend(rm, neg, half) == 0 <==> !OverflowsToInfinity(rm, neg)
  {
  }

  /** A zero mantissa is an exact zero, at every exponent. */
  lemma ZeroRounds(f: Format, rm: RoundingMode, neg: bool, exp: int, xm: real)
    requires f.Valid() && Represents(f, exp, 0, xm)
    ensures IsRounding(f, rm, neg, Placed(f, exp, xm), 0) && f.Mag(0) as real == Placed(f, exp, xm)
  {
    hide *;
    ZeroIsExact(f, exp, xm);
    MagOfSignificand(f, 1, 0);
    ZeroWord(f);
    LocalRounding(f, rm, neg, 0.0, 0);
    NeverUpWhenExact(rm, neg, false, 0.0, 1.0);
  }

  lemma ZeroWord(f: Format)
    ensures f.WordAt(1, 0) == 0 && Pow2(0) == 1
  {
  }

  lemma ZeroIsExact(f: Format, exp: int, xm: real)
    requires f.Valid() && Represents(f, exp, 0, xm)
    ensures xm == 0.0 && Placed(f, exp, xm) == 0.0
  {
    hide Exp2;
    DivUnique(0, Half(f), 0, 0);
    if exp < 0 { DivUnique(0, Pow2(f.Rnd() - exp), 0, 0); }
  }

  /** Rounding bits, rounded significand and exception bits of one run of round_pack_sf. */
  lemma RoundedWord(f: Format, rm: RoundingMode, neg: bool, exp: int, mant: nat, xm: real, e0: nat, m: nat, w: nat)
    requires f.Valid() && Represents(f, exp, mant, xm) && mant != 0
    requires e0 == (if exp <= 0 then 1 else exp)
    requires m == if exp <= 0 then ShiftRightSticky(f.size, mant, 1 - exp) else mant
    requires w == f.WordAt(e0, RoundedSignificand(rm, neg, Half(f), m))
    ensures IsRounding(f, rm, neg, Placed(f, exp, xm), w)
    ensures m % Pow2(f.Rnd()) != 0 <==> f.Mag(w) as real != Placed(f, exp, xm)
    ensures m % Pow2(f.Rnd()) != 0 ==> (IsTiny(f, rm, neg, Placed(f, exp, xm)) <==>
              exp < 0 || (exp == 0 && mant + Addend(rm, neg, Half(f)) < Pow2(f.size - 1)))
    ensures RoundedSignificand(rm, neg, Half(f), m) <= Pow2(f.mant + 1)
    ensures e0 == 1 || RoundedSignificand(rm, neg, Half(f), m) >= Pow2(f.mant)
  {
    hide *;
    SizeFacts(f);
    if exp <= 0 {
      SubnormalCase(f, rm, neg, exp, mant, xm, m, w);
    } else {
      RepresentsNormal(f, exp, mant, xm);
      NormalCase(f, rm, neg, exp, mant, xm, w);
      RoundedStaysNormal(f, rm, neg, m);
    }
    RoundedReaches(f, rm, neg, m);
  }

  lemma RoundedStaysNormal(f: Format, rm: RoundingMode, neg: bool, m: nat)
    requires f.Valid() && m >= Pow2(f.size - 2)
    ensures RoundedSignificand(rm, neg, Half(f), m) >= Pow2(f.mant)
  {
    Pow2Add(f.mant, f.Rnd());
    hide RoundedSignificand, Addend;
    RoundedAtLeast(rm, neg, Half(f), m, Pow2(f.mant));
  }

  lemma RoundedAtLeast(rm: RoundingMode, neg: bool, half: nat, m: nat, b: nat)
    requires half > 0 && b % 2 == 0 && m >= b * (2 * half)
    ensures RoundedSignificand(rm, neg, half, m) >= b
  {
    QuotientRange(m + Addend(rm, neg, half), 2 * half, b);
  }

  /** What round_pack_sf packs and raises, given its rounded significand, is what is due. */
  lemma Concluded(f: Format, rm: RoundingMode, neg: bool, exp: int, mant: nat, xm: real,
                  e0: nat, m0: nat, k: nat, e: nat, overflow: bool, r: nat, raised: Flags)
    requires f.Valid() && f.mant >= 1 && f.size >= 3 && f.Inf() >= 1 && Represents(f, exp, mant, xm)
    requires e0 == (if exp <= 0 then 1 else exp)
    requires m0 == if exp <= 0 then ShiftRightSticky(f.size, mant, 1 - exp) else mant
    requires k == RoundedSignificand(rm, neg, Half(f), m0)
    requires e == e0 + Quotient(k, Pow2(f.mant + 1))
    requires overflow <==> k >= Pow2(f.mant) && e >= f.ExpMask()
    requires r == if k < Pow2(f.mant) then PackWord(f, neg, 0, k)
                  else if !overflow then PackWord(f, neg, e, k)
                  else f.Pack(neg, if OverflowsToInfinity(rm, neg) then f.Inf() else f.Inf() - 1)
    requires raised == Flags(false, false, overflow,
               m0 % Pow2(f.Rnd()) != 0 && (exp < 0 || (exp == 0 && mant + Addend(rm, neg, Half(f)) < Pow2(f.size - 1))),
               m0 % Pow2(f.Rnd()) != 0 || overflow)
    ensures Delivers(f, rm, neg, Placed(f, exp, xm), r, raised)
  {
    hide *;
    var w: nat;
    RaisedIs(f, rm, neg, Placed(f, exp, xm));
    if mant == 0 {
      w := 0;
      ZeroRounds(f, rm, neg, exp, xm);
      ZeroSignificand(f, rm, neg, if exp <= 0 then 1 - exp else 0);
      ZeroPacked(f, neg);
    } else {
      w := f.WordAt(e0, k);
      RoundedWord(f, rm, neg, exp, mant, xm, e0, m0, w);
      Packed(f, rm, neg, e0, k, w, e);
      PackedWords(f, neg, e, k);
    }
    DeliveredBy(f, rm, neg, Placed(f, exp, xm), w, r, raised);
  }

  lemma RaisedIs(f: Format, rm: RoundingMode, neg: bool, x: real)
    ensures forall w: nat :: Raised(f, rm, neg, x, w) ==
              Flags(false, false, w >= f.Inf(), f.Mag(w) as real != x && IsTiny(f, rm, neg, x),
                    f.Mag(w) as real != x || w >= f.Inf())
  {
  }

  lemma PackedWords(f: Format, neg: bool, e: nat, k: nat)
    requires f.Valid()
    ensures k < Pow2(f.mant) ==> PackWord(f, neg, 0, k) == f.Pack(neg, k)
    ensures PackWord(f, neg, e, k) == f.Pack(neg, e * Pow2(f.mant) + k % Pow2(f.mant))
  {
    if k < Pow2(f.mant) { DivUnique(k, Pow2(f.mant), 0, k); }
  }

  lemma DeliveredBy(f: Format, rm: RoundingMode, neg: bool, x: real, w: nat, r: nat, raised: Flags)
    requires f.Valid() && IsRounding(f, rm, neg, x, w) && raised == Raised(f, rm, neg, x, w)
    requires r == f.Pack(neg, if w < f.Inf() then w
                              else if OverflowsToInfinity(rm, neg) then f.Inf() else f.Inf() - 1)
    ensures Delivers(f, rm, neg, x, r, raised)
  {
  }

  lemma ZeroSignificand(f: Format, rm: RoundingMode, neg: bool, d: nat)
    requires f.Valid()
    ensures ShiftRightSticky(f.size, 0, d) == 0 && RoundedSignificand(rm, neg, Half(f), 0) == 0
    ensures 0 % Pow2(f.Rnd()) == 0 && 0 < Pow2(f.mant)
  {
    var half := Half(f);
    DivUnique(0, Pow2(d), 0, 0);
    DivUnique(0, Pow2(f.Rnd()), 0, 0);
    DivUnique(Addend(rm, neg, half), 2 * half, 0, Addend(rm, neg, half));
  }

  lemma ZeroPacked(f: Format, neg: bool)
    requires f.Valid()
    ensures 0 < f.Inf() && PackWord(f, neg, 0, 0) == f.Pack(neg, 0)
  {
    Pow2Mono(1, f.exp);
    MulLe(1, f.ExpMask(), Pow2(f.mant));
    DivUnique(0, Pow2(f.mant), 0, 0);
  }

  /** round_pack_sf, with xm the exact mantissa that mant stands for.  The exceptions returned
      are those the caller ORs into *pfflags. */
  method RoundPack(f: Format, neg: bool, exp: int, mant: nat, rm: RoundingMode, ghost xm: real)
    returns (r: nat, raised: Flags)
    requires f.Valid() && Represents(f, exp, mant, xm)
    ensures Delivers(f, rm, neg, Placed(f, exp, xm), r, raised)
  {
    hide *;
    AllOnes(f, neg);
    AddendIsZero(rm, neg, Half(f));
    var addend, step, carry := Addend(rm, neg, Half(f)), Pow2(f.Rnd()), Pow2(f.mant + 1);
    var e, m, rndBits := exp, mant, mant % step;
    raised := Flags(false, false, false, false, false);
    if e <= 0 {
      var isSubnormal := e < 0 || m + addend < Pow2(f.size - 1);
      m := ShiftRightSticky(f.size, m, 1 - e);
      rndBits := m % step;
      if isSubnormal && rndBits != 0 { raised := raised.(underflow := true); }
      e := 1;
    }
    if rndBits != 0 { raised := raised.(inexact := true); }
    ghost var e0, m0 := e, m;
    m := RoundedSignificand(rm, neg, Half(f), m);
    e := e + Quotient(m, carry);
    ghost var k: nat, e1: nat := m, e;
    if m < Pow2(f.mant) {
      e := 0;
    } else if e >= f.ExpMask() {
      if addend == 0 {
        e, m := f.ExpMask() - 1, Pow2(f.mant) - 1;
      } else {
        e, m := f.ExpMask(), 0;
      }
      raised := raised.(overflow := true, inexact := true);
    }
    r := PackWord(f, neg, e, m);
    Concluded(f, rm, neg, exp, mant, xm, e0, m0, k, e1, k >= Pow2(f.mant) && e1 >= f.ExpMask(), r, raised);
  }
}
