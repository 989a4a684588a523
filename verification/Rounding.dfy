/** What IEEE 754-2008 asks of a rounded result: the representable value the rounding mode
    names (section 4.3), what is delivered on overflow (7.4), and when the overflow,
    underflow and inexact exceptions are due (7.4 to 7.6).

    Exact results are nonnegative reals x counted in quanta; the sign travels beside them. */
module Rounding {
  import opened Arith
  import opened FloatFormat

  // -----------------------------------------------------------------------------------------
  // The requirement
  // -----------------------------------------------------------------------------------------

  ghost function Distance(f: Format, x: real, w: nat): real {
    var d := f.Mag(w) as real - x;
    if d < 0.0 then -d else d
  }

  /** The closest representable magnitude no greater than x. */
  ghost predicate IsBelow(f: Format, x: real, w: nat) {
    f.Mag(w) as real <= x && forall v: nat :: f.Mag(v) as real <= x ==> v <= w
  }

  /** The closest representable magnitude no less than x. */
  ghost predicate IsAbove(f: Format, x: real, w: nat) {
    x <= f.Mag(w) as real && forall v: nat :: x <= f.Mag(v) as real ==> w <= v
  }

  /** w is nearest to x among all representable magnitudes and wins every tie. */
  ghost predicate IsNearest(f: Format, x: real, w: nat, tiesToEven: bool) {
    forall v: nat :: v != w ==>
      Distance(f, x, w) < Distance(f, x, v) ||
      (Distance(f, x, w) == Distance(f, x, v) && if tiesToEven then w % 2 == 0 else v < w)
  }

  /** Section 4.3: w is x rounded in mode rm, the exponent range being unbounded above. */
  ghost predicate IsRounding(f: Format, rm: RoundingMode, neg: bool, x: real, w: nat) {
    match rm
    case RNE => IsNearest(f, x, w, true)
    case RMM => IsNearest(f, x, w, false)
    case RTZ => IsBelow(f, x, w)
    case RDN => if neg then IsAbove(f, x, w) else IsBelow(f, x, w)
    case RUP => if neg then IsBelow(f, x, w) else IsAbove(f, x, w)
  }

  /** Section 7.4: whether an overflow delivers infinity or the largest finite number. */
  predicate OverflowsToInfinity(rm: RoundingMode, neg: bool) {
    match rm
    case RNE => true
    case RMM => true
    case RTZ => false
    case RDN => neg
    case RUP => !neg
  }

  /** x scaled by 2^j. */
  ghost function Scaled(x: real, j: nat): real { x * Pow2(j) as real }

  /** Section 7.5, detection after rounding: x is rounded as though the exponent range were
      unbounded below (by first scaling it by 2^j into the normal binade of exponent 1),
      and the result is nonzero and below the smallest normal number, scaled likewise. */
  ghost predicate IsTiny(f: Format, rm: RoundingMode, neg: bool, x: real) {
    exists j: nat, w: nat :: IsTinyBy(f, rm, neg, x, j, w)
  }

  ghost predicate IsTinyBy(f: Format, rm: RoundingMode, neg: bool, x: real, j: nat, w: nat) {
    Pow2(f.mant) as real <= Scaled(x, j) < Pow2(f.mant + 1) as real &&
    IsRounding(f, rm, neg, Scaled(x, j), w) && f.Mag(w) < Pow2(f.mant + j)
  }

  /** The exceptions due when x is rounded to w. */
  ghost function Raised(f: Format, rm: RoundingMode, neg: bool, x: real, w: nat): Flags {
    var lossy := f.Mag(w) as real != x;
    NO_FLAGS.(overflow := w >= f.Inf(),
              underflow := lossy && IsTiny(f, rm, neg, x),
              inexact := lossy || w >= f.Inf())
  }

  /** r is the word, and raised the exceptions, that the standard asks for when the exact
      result is x with the given sign. */
  ghost predicate Delivers(f: Format, rm: RoundingMode, neg: bool, x: real, r: nat, raised: Flags)
    requires f.Valid()
  {
    exists w: nat :: IsRounding(f, rm, neg, x, w) && raised == Raised(f, rm, neg, x, w) &&
      r == f.Pack(neg, if w < f.Inf() then w
                       else if OverflowsToInfinity(rm, neg) then f.Inf() else f.Inf() - 1)
  }

  /** The same for an exact result v >= 0 given as a real number rather than in quanta. */
  ghost predicate DeliversValue(f: Format, rm: RoundingMode, neg: bool, v: real, r: nat, raised: Flags)
    requires f.Valid()
  {
    Delivers(f, rm, neg, v / Exp2(f.QuantumExp()), r, raised)
  }

  ghost function Abs(v: real): real { if v < 0.0 then -v else v }

  lemma InQuanta(f: Format, rm: RoundingMode, neg: bool, x: real, v: real, r: nat, raised: Flags)
    requires f.Valid() && Delivers(f, rm, neg, x, r, raised) && v == x * Exp2(f.QuantumExp())
    ensures DeliversValue(f, rm, neg, v, r, raised)
  {
    hide *;
    Undo(x, Exp2(f.QuantumExp()), v);
    DeliversValueIs(f, rm, neg, v, r, raised);
  }

  lemma Undo(x: real, q: real, v: real)
    requires q > 0.0 && v == x * q
    ensures v / q == x
  {
  }

  lemma DeliversValueIs(f: Format, rm: RoundingMode, neg: bool, v: real, r: nat, raised: Flags)
    requires f.Valid()
    ensures DeliversValue(f, rm, neg, v, r, raised) == Delivers(f, rm, neg, v / Exp2(f.QuantumExp()), r, raised)
  {
  }

  // -----------------------------------------------------------------------------------------
  // The requirement names exactly one result
  // -----------------------------------------------------------------------------------------

  lemma RoundingUnique(f: Format, rm: RoundingMode, neg: bool, x: real, v: nat, w: nat)
    requires IsRounding(f, rm, neg, x, v) && IsRounding(f, rm, neg, x, w)
    ensures v == w
  {
    if v < w { Contested(f, rm, neg, x, v, w); }
    if w < v { Contested(f, rm, neg, x, w, v); }
  }

  /** Two different words cannot both be the rounding: only adjacent ones can tie, and then
      exactly one of them is even. */
  lemma Contested(f: Format, rm: RoundingMode, neg: bool, x: real, v: nat, w: nat)
    requires v < w
    ensures !(IsRounding(f, rm, neg, x, v) && IsRounding(f, rm, neg, x, w))
  {
    MagMono(f, v, w);
    UlpPositive(f, v);
    MagMono(f, v, v + 1);
    if v + 1 < w {
      MagMono(f, v + 1, w);
      UlpPositive(f, v + 1);
    }
    hide Format.Mag, Format.Ulp;
    var between := v + 1;
    var d := Distance(f, x, between);
  }

  // -----------------------------------------------------------------------------------------
  // Deciding it locally
  // -----------------------------------------------------------------------------------------

  /** Whether a value `below` above the lower of two neighbours `gap` apart goes to the upper. */
  ghost predicate RoundsUp(rm: RoundingMode, neg: bool, lowerIsOdd: bool, below: real, gap: real) {
    match rm
    case RNE => 2.0 * below > gap || (2.0 * below == gap && lowerIsOdd)
    case RMM => 2.0 * below >= gap
    case RTZ => false
    case RDN => neg && below > 0.0
    case RUP => !neg && below > 0.0
  }

  /** Choosing between the two neighbours of x is rounding among all representable values. */
  lemma LocalRounding(f: Format, rm: RoundingMode, neg: bool, x: real, v: nat)
    requires f.Mag(v) as real <= x < (f.Mag(v) + f.Ulp(v)) as real
    ensures IsRounding(f, rm, neg, x,
      if RoundsUp(rm, neg, v % 2 == 1, x - f.Mag(v) as real, f.Ulp(v) as real) then v + 1 else v)
  {
    MagStep(f, v);
    hide Format.Mag, Format.Ulp;
    forall u: nat
      ensures u < v ==> f.Mag(u) < f.Mag(v)
      ensures u > v + 1 ==> f.Mag(u) > f.Mag(v + 1)
    {
      UlpPositive(f, u);
      UlpPositive(f, v + 1);
      if u < v { MagMono(f, u, v); }
      if u > v + 1 { MagMono(f, v + 1, u); }
    }
  }

  lemma UlpPositive(f: Format, w: nat)
    ensures f.Ulp(w) > 0
  {
  }

  lemma RoundsUpScales(rm: RoundingMode, neg: bool, odd: bool, below: real, gap: real, c: real)
    requires c > 0.0 && below >= 0.0
    ensures RoundsUp(rm, neg, odd, below * c, gap * c) == RoundsUp(rm, neg, odd, below, gap)
  {
    if below > 0.0 { RMulLt(0.0, below, c); }
    if 2.0 * below > gap { RMulLt(gap, 2.0 * below, c); }
    if 2.0 * below < gap { RMulLt(2.0 * below, gap, c); }
    assert 2.0 * (below * c) == (2.0 * below) * c;
  }

  /** Every real has a word just below it. */
  lemma FloorWord(f: Format, x: real, n: nat) returns (v: nat)
    requires 0.0 <= x < n as real
    ensures f.Mag(v) as real <= x < (f.Mag(v) + f.Ulp(v)) as real
  {
    MagAtLeast(f, n);
    v := FloorBelow(f, x, n);
  }

  lemma {:induction false} FloorBelow(f: Format, x: real, n: nat) returns (v: nat)
    requires n > 0 && 0.0 <= x < f.Mag(n) as real
    ensures v < n && f.Mag(v) as real <= x < (f.Mag(v) + f.Ulp(v)) as real
    decreases n
  {
    MagStep(f, n - 1);
    if n == 1 {
      MagOfSignificand(f, 1, 0);
      v := 0;
    } else if f.Mag(n - 1) as real <= x {
      v := n - 1;
    } else {
      v := FloorBelow(f, x, n - 1);
    }
  }

  lemma {:induction false} MagAtLeast(f: Format, w: nat)
    ensures f.Mag(w) >= w
  {
    if w > 0 {
      MagStep(f, w - 1);
      UlpPositive(f, w - 1);
      MagAtLeast(f, w - 1);
    }
  }

  /** Every real has a rounding in every mode. */
  lemma RoundingExists(f: Format, rm: RoundingMode, neg: bool, x: real) returns (w: nat)
    requires x >= 0.0
    ensures IsRounding(f, rm, neg, x, w)
  {
    var v := FloorWord(f, x, x.Floor + 1);
    LocalRounding(f, rm, neg, x, v);
    w := if RoundsUp(rm, neg, v % 2 == 1, x - f.Mag(v) as real, f.Ulp(v) as real) then v + 1 else v;
  }

  /** Rounding never passes a representable magnitude. */
  lemma RoundingBounded(f: Format, rm: RoundingMode, neg: bool, x: real, w: nat, v: nat)
    requires IsRounding(f, rm, neg, x, w)
    ensures x <= f.Mag(v) as real ==> f.Mag(w) <= f.Mag(v)
    ensures x >= f.Mag(v) as real ==> f.Mag(w) >= f.Mag(v)
  {
    UlpPositive(f, v);
    UlpPositive(f, w);
    if v < w { MagMono(f, v, w); }
    if w < v { MagMono(f, w, v); }
    hide Format.Mag, Format.Ulp;
    assert v != w ==> Distance(f, x, w) <= Distance(f, x, v) || !(rm.RNE? || rm.RMM?);
  }
}
