/** eq_quiet_sf, le_sf, lt_sf, min_sf and max_sf compare words as integers; here that is shown
    to be comparison of the numbers the words stand for. */
module Comparison {
  import opened Arith
  import opened FloatFormat
  import opened Rounding
  import Addition
  import FusedMultiplyAdd

  /** A result together with the exceptions it raises. */
  datatype Outcome<T> = Outcome(value: T, raised: Flags)

  /** Section 5.11: a is no greater than b, neither being a NaN. */
  ghost predicate AtMost(f: Format, a: nat, b: nat)
    requires f.Valid()
  {
    || (!f.IsFinite(a) && f.Negative(a))
    || (!f.IsFinite(b) && !f.Negative(b))
    || (f.IsFinite(a) && f.IsFinite(b) && f.Value(a) <= f.Value(b))
  }

  predicate Unordered(f: Format, a: nat, b: nat)
    requires f.Valid()
  {
    f.IsNaN(a) || f.IsNaN(b)
  }

  predicate BothZero(f: Format, a: nat, b: nat)
    requires f.Valid()
  {
    f.Word(a) == 0 && f.Word(b) == 0
  }

  /** le_sf */
  function LeSf(f: Format, a: nat, b: nat): Outcome<bool>
    requires f.Valid()
  {
    if Unordered(f, a, b) then Outcome(false, INVALID)
    else if f.Negative(a) != f.Negative(b) then Outcome(f.Negative(a) || BothZero(f, a, b), NO_FLAGS)
    else Outcome(if f.Negative(a) then a >= b else a <= b, NO_FLAGS)
  }

  /** lt_sf */
  function LtSf(f: Format, a: nat, b: nat): Outcome<bool>
    requires f.Valid()
  {
    if Unordered(f, a, b) then Outcome(false, INVALID)
    else if f.Negative(a) != f.Negative(b) then Outcome(f.Negative(a) && !BothZero(f, a, b), NO_FLAGS)
    else Outcome(if f.Negative(a) then a > b else a < b, NO_FLAGS)
  }

  /** eq_quiet_sf */
  function EqQuietSf(f: Format, a: nat, b: nat): Outcome<bool>
    requires f.Valid()
  {
    if Unordered(f, a, b) then
      Outcome(false, if f.IsSignalingNaN(a) || f.IsSignalingNaN(b) then INVALID else NO_FLAGS)
    else Outcome(BothZero(f, a, b) || a == b, NO_FLAGS)
  }

  /** What min_sf and max_sf make of a NaN: pass it on, pass on signaling ones only, or prefer the
      number. */
  datatype MinMaxKind = Prop | Ieee754In2008 | Ieee754In201X

  /** min_max_nan_sf */
  function MinMaxNaN(f: Format, a: nat, b: nat, kind: MinMaxKind): Outcome<nat>
    requires f.Valid()
  {
    var signaling := f.IsSignalingNaN(a) || f.IsSignalingNaN(b);
    Outcome(
      if (signaling && kind == Ieee754In2008) || kind == Prop then f.QNaN()
      else if f.IsNaN(a) then (if f.IsNaN(b) then f.QNaN() else b)
      else a,
      if signaling then INVALID else NO_FLAGS)
  }

  function MinSf(f: Format, a: nat, b: nat, kind: MinMaxKind): Outcome<nat>
    requires f.Valid()
  {
    if Unordered(f, a, b) then MinMaxNaN(f, a, b, kind)
    else if f.Negative(a) != f.Negative(b) then Outcome(if f.Negative(a) then a else b, NO_FLAGS)
    else Outcome(if (a < b) != f.Negative(a) then a else b, NO_FLAGS)
  }

  function MaxSf(f: Format, a: nat, b: nat, kind: MinMaxKind): Outcome<nat>
    requires f.Valid()
  {
    if Unordered(f, a, b) then MinMaxNaN(f, a, b, kind)
    else if f.Negative(a) != f.Negative(b) then Outcome(if f.Negative(a) then b else a, NO_FLAGS)
    else Outcome(if (a < b) != f.Negative(a) then b else a, NO_FLAGS)
  }

  /** Where a word stands in the order of the numbers. */
  function Rank(f: Format, a: nat): int
    requires f.Valid()
  {
    if f.Negative(a) then 0 - f.Word(a) else f.Word(a)
  }

  lemma MagnitudeOrder(f: Format, v: nat, w: nat)
    ensures v <= w <==> f.Mag(v) <= f.Mag(w)
    ensures v == 0 <==> f.Mag(v) == 0
  {
    hide Format.Mag, Format.Ulp;
    MagOfSignificand(f, 1, 0);
    if v < w { MagMono(f, v, w); UlpPositive(f, v); }
    if w < v { MagMono(f, w, v); UlpPositive(f, w); }
    if 0 < v { MagMono(f, 0, v); UlpPositive(f, 0); }
  }

  lemma SignedOrder(na: bool, nb: bool, u: nat, v: nat, q: real, x: real, y: real)
    requires q > 0.0 && x == (if na then -(u as real * q) else u as real * q)
    requires y == if nb then -(v as real * q) else v as real * q
    ensures x <= y <==> (if na then 0 - u else u) <= (if nb then 0 - v else v)
  {
    if u < v { RMulLt(u as real, v as real, q); }
    if v < u { RMulLt(v as real, u as real, q); }
    if u > 0 { RMulLt(0.0, u as real, q); }
    if v > 0 { RMulLt(0.0, v as real, q); }
  }

  lemma WordsCompare(f: Format, a: nat)
    requires f.Valid() && a < Pow2(f.size)
    ensures a == (if f.Negative(a) then f.SignBit() else 0) + f.Word(a) && f.Word(a) < f.SignBit()
    ensures !f.IsNaN(a) && !f.IsFinite(a) ==> f.Word(a) == f.Inf()
    ensures f.IsFinite(a) <==> f.Word(a) < f.Inf()
    ensures f.IsFinite(a) ==> !f.IsNaN(a)
  {
    Fields(f, a);
    Addition.SpecialFields(f, a);
  }

  /** The rank orders the numbers. */
  lemma RankOrders(f: Format, a: nat, b: nat)
    requires f.Valid() && a < Pow2(f.size) && b < Pow2(f.size) && !Unordered(f, a, b)
    ensures AtMost(f, a, b) <==> Rank(f, a) <= Rank(f, b)
  {
    hide *;
    WordsCompare(f, a);
    WordsCompare(f, b);
    OrderIs(f, a, b);
    if f.IsFinite(a) && f.IsFinite(b) {
      FusedMultiplyAdd.SignedValue(f, a);
      FusedMultiplyAdd.SignedValue(f, b);
      FiniteOrder(f, f.Word(a), f.Word(b), f.Negative(a), f.Negative(b), f.Value(a), f.Value(b));
    }
    InfPositive(f);
  }

  lemma OrderIs(f: Format, a: nat, b: nat)
    requires f.Valid()
    ensures Rank(f, a) == (if f.Negative(a) then 0 - f.Word(a) else f.Word(a))
    ensures Rank(f, b) == (if f.Negative(b) then 0 - f.Word(b) else f.Word(b))
    ensures Unordered(f, a, b) == (f.IsNaN(a) || f.IsNaN(b))
    ensures AtMost(f, a, b) <==>
            || (!f.IsFinite(a) && f.Negative(a))
            || (!f.IsFinite(b) && !f.Negative(b))
            || (f.IsFinite(a) && f.IsFinite(b) && f.Value(a) <= f.Value(b))
  {
    hide Format.Value, Format.Word, Format.Negative, Format.IsNaN, Format.IsFinite;
  }

  lemma InfPositive(f: Format)
    requires f.Valid()
    ensures f.Inf() > 0
  {
    Pow2Mono(1, f.exp);
    MulLe(1, f.ExpMask(), Pow2(f.mant));
  }

  lemma FiniteOrder(f: Format, v: nat, w: nat, na: bool, nb: bool, x: real, y: real)
    requires f.Valid()
    requires x == (if na then -(f.Mag(v) as real * Exp2(f.QuantumExp())) else f.Mag(v) as real * Exp2(f.QuantumExp()))
    requires y == if nb then -(f.Mag(w) as real * Exp2(f.QuantumExp())) else f.Mag(w) as real * Exp2(f.QuantumExp())
    ensures x <= y <==> (if na then 0 - v else v) <= (if nb then 0 - w else w)
  {
    hide *;
    MagnitudeOrder(f, v, w);
    MagnitudeOrder(f, w, v);
    SignedOrder(na, nb, f.Mag(v), f.Mag(w), Exp2(f.QuantumExp()), x, y);
  }

  /** The three comparisons decide the order of the numbers, zeros of either sign being equal;
      le_sf and lt_sf signal every NaN, eq_quiet_sf only signaling ones. */
  lemma ComparisonsOrder(f: Format, a: nat, b: nat)
    requires f.Valid() && a < Pow2(f.size) && b < Pow2(f.size)
    ensures LeSf(f, a, b).value <==> !Unordered(f, a, b) && AtMost(f, a, b)
    ensures LtSf(f, a, b).value <==> !Unordered(f, a, b) && !AtMost(f, b, a)
    ensures EqQuietSf(f, a, b).value <==> !Unordered(f, a, b) && AtMost(f, a, b) && AtMost(f, b, a)
    ensures LeSf(f, a, b).raised == LtSf(f, a, b).raised == if Unordered(f, a, b) then INVALID else NO_FLAGS
    ensures EqQuietSf(f, a, b).raised ==
            if f.IsSignalingNaN(a) || f.IsSignalingNaN(b) then INVALID else NO_FLAGS
  {
    WordsCompare(f, a);
    WordsCompare(f, b);
    Addition.SpecialFields(f, a);
    Addition.SpecialFields(f, b);
    if !Unordered(f, a, b) {
      RankOrders(f, a, b);
      RankOrders(f, b, a);
    }
    hide AtMost, Format.Word, Format.Negative, Format.IsNaN, Format.IsSignalingNaN, Format.SignBit, Format.IsFinite, Format.Inf;
  }

  lemma QuietIsNaN(f: Format)
    requires f.Valid()
    ensures f.IsNaN(f.QNaN())
  {
    hide Pow2;
    var p := Pow2(f.mant);
    Pow2Mono(f.mant - 1, f.mant);
    DivUnique(f.QNaN(), p, f.ExpMask(), Pow2(f.mant - 1));
    DivUnique(f.ExpMask(), Pow2(f.exp), 0, f.ExpMask());
  }

  lemma NumbersInOrder(f: Format, a: nat, b: nat, kind: MinMaxKind)
    requires f.Valid() && a < Pow2(f.size) && b < Pow2(f.size) && !Unordered(f, a, b)
    ensures var lo, hi := MinSf(f, a, b, kind), MaxSf(f, a, b, kind);
            && multiset{lo.value, hi.value} == multiset{a, b} && lo.raised == hi.raised == NO_FLAGS
            && AtMost(f, lo.value, hi.value) && (f.Negative(hi.value) ==> f.Negative(lo.value))
  {
    WordsCompare(f, a);
    WordsCompare(f, b);
    RankOrders(f, a, b);
    RankOrders(f, b, a);
    hide AtMost, Format.Word, Format.Negative, Format.IsNaN, Format.IsSignalingNaN, Format.SignBit, Format.IsFinite, Format.Inf;
  }

  /** Minimum and maximum of two numbers are the operands in order; between zeros the sign decides.
      With a NaN they are the same, and a number exactly if one operand is and the kind of minimum
      prefers it; a signaling NaN is an invalid operation. */
  lemma MinAndMax(f: Format, a: nat, b: nat, kind: MinMaxKind)
    requires f.Valid() && a < Pow2(f.size) && b < Pow2(f.size)
    ensures var lo, hi := MinSf(f, a, b, kind), MaxSf(f, a, b, kind);
            var signaling := f.IsSignalingNaN(a) || f.IsSignalingNaN(b);
            && lo.raised == hi.raised == (if signaling then INVALID else NO_FLAGS)
            && if !Unordered(f, a, b) then
                 && multiset{lo.value, hi.value} == multiset{a, b}
                 && AtMost(f, lo.value, hi.value) && (f.Negative(hi.value) ==> f.Negative(lo.value))
               else
                 && lo == hi && (lo.value == f.QNaN() || (lo.value in {a, b} && !f.IsNaN(lo.value)))
                 && (!f.IsNaN(lo.value) <==> (!f.IsNaN(a) || !f.IsNaN(b)) && kind != Prop && !(signaling && kind == Ieee754In2008))
  {
    hide AtMost, Format.Word, Format.Negative, Format.IsNaN, Format.IsSignalingNaN, Format.QNaN;
    QuietIsNaN(f);
    Addition.SpecialFields(f, a);
    Addition.SpecialFields(f, b);
    if !Unordered(f, a, b) { NumbersInOrder(f, a, b, kind); }
  }
}
