/** The double-word mantissas of fma_sf and normalize2_sf. */
module DoubleWord {
  import opened Arith
  import opened FloatFormat
  import opened Rounding
  import opened Sticky
  import opened Significand
  import opened Packing
  import opened Normalize
  import opened MultiWord

  /** Two words read as one number. */
  function Join(size: nat, hi: nat, lo: nat): nat { hi * Pow2(size) + lo }

  // -----------------------------------------------------------------------------------------
  // Shifting right
  // -----------------------------------------------------------------------------------------

  lemma Unfolded(size: nat, c1: nat, c0: nat, d: nat)
    ensures Join(size, c1, c0) == c1 * Pow2(size) + c0
    ensures ShiftLeft(size, c1, d) == c1 * Pow2(d) % Pow2(size)
    ensures Quotient(c1, Pow2(d)) == c1 / Pow2(d) && Quotient(c0, Pow2(d)) == c0 / Pow2(d)
  {
  }

  lemma DivMod(a: nat, p: nat)
    requires p > 0
    ensures a == Quotient(a, p) * p + a % p && 0 <= a % p < p
  {
  }

  /** A double word shifted right by less than a word: the new lower word takes the lowest bits
      of the upper one. */
  lemma ShiftWithin(size: nat, c1: nat, c0: nat, d: nat)
    requires 0 < d < size && c1 < Pow2(size) && c0 < Pow2(size)
    ensures Join(size, Quotient(c1, Pow2(d)), ShiftLeft(size, c1, size - d) + Quotient(c0, Pow2(d)))
            == Quotient(Join(size, c1, c0), Pow2(d))
    ensures Join(size, c1, c0) % Pow2(d) == c0 % Pow2(d)
    ensures ShiftLeft(size, c1, size - d) + Quotient(c0, Pow2(d)) < Pow2(size)
    ensures ShiftLeft(size, c1, size - d) % 2 == 0
  {
    hide *;
    var p, w, pw := Pow2(d), Pow2(size - d), Pow2(size);
    Pow2Add(d, size - d);
    Pow2Even(size - d);
    DivMod(c1, p);
    DivMod(c0, p);
    ShiftWithinOf(c1, c0, p, w, pw, Quotient(c1, p), c1 % p, Quotient(c0, p), c0 % p);
    Unfolded(size, c1, c0, size - d);
    Unfolded(size, Quotient(c1, p), ShiftLeft(size, c1, size - d) + Quotient(c0, p), size - d);
  }

  lemma ShiftWithinOf(c1: nat, c0: nat, p: nat, w: nat, pw: nat, q1: int, m1: int, q0: int, m0: int)
    requires p > 0 && w > 0 && w % 2 == 0 && pw == p * w && pw > 0 && c0 < pw
    requires c1 == q1 * p + m1 && 0 <= m1 < p && c0 == q0 * p + m0 && 0 <= m0 < p
    ensures Quotient(c1 * pw + c0, p) == q1 * pw + m1 * w + q0
    ensures (c1 * pw + c0) % p == m0
    ensures c1 * w % pw == m1 * w && m1 * w + q0 < pw && m1 * w % 2 == 0
  {
    QuotientRange(c0, p, w);
    assert w * p == pw;
    DivUnique(c0, p, q0, m0);
    MulLe(m1 + 1, p, w);
    MulDist(m1, 1, w);
    MulLe(0, m1, w);
    ShiftProducts(c1, c0, p, w, q1, m1, q0, m0);
    DivUnique(c1 * pw + c0, p, q1 * pw + m1 * w + q0, m0);
    DivUnique(c1 * w, pw, q1, m1 * w);
    EvenMultiple(m1, w);
  }

  lemma ShiftProducts(c1: int, c0: int, p: int, w: int, q1: int, m1: int, q0: int, m0: int)
    requires c1 == q1 * p + m1 && c0 == q0 * p + m0
    ensures c1 * (p * w) + c0 == (q1 * (p * w) + m1 * w + q0) * p + m0
    ensures c1 * w == q1 * (p * w) + m1 * w
  {
    var pw := p * w;
    assert c1 * w == q1 * pw + m1 * w;
    assert c1 * pw == (c1 * w) * p;
    assert (q1 * pw + m1 * w + q0) * p == (c1 * w) * p + q0 * p;
  }

  /** The alignment of the smaller addend, case by case as fma_sf does it.  From size + 1 up to
      2 * size places the old lower word is dropped without leaving a trace. */
  function Aligned(size: nat, c1: nat, c0: nat, d: nat): nat {
    if size < d < 2 * size then StickyDiv(c1, Pow2(d - size)) else StickyDiv(Join(size, c1, c0), Pow2(d))
  }

  method AlignWords(size: nat, c1: nat, c0: nat, d: nat) returns (h: nat, l: nat)
    requires size >= 1 && c1 < Pow2(size) && c0 < Pow2(size)
    ensures h < Pow2(size) && l < Pow2(size) && Join(size, h, l) == Aligned(size, c1, c0, d)
  {
    hide *;
    if d >= 2 * size {
      h, l := 0, if c0 != 0 || c1 != 0 then 1 else 0;
      FarShift(size, c1, c0, d);
    } else if d >= size + 1 {
      h, l := 0, ShiftRightSticky(size, c1, d - size);
      DroppingShift(size, c1, c0, d);
    } else if d == size {
      h, l := 0, OrBit(c1, c0 != 0);
      WordShift(size, c1, c0);
    } else if d != 0 {
      l := OrBit(ShiftLeft(size, c1, size - d) + Quotient(c0, Pow2(d)), c0 % Pow2(d) != 0);
      h := Quotient(c1, Pow2(d));
      NearShift(size, c1, c0, d);
    } else {
      h, l := c1, c0;
      NoShift(size, c1, c0);
    }
  }

  lemma JoinBound(size: nat, c1: nat, c0: nat)
    requires c1 < Pow2(size) && c0 < Pow2(size)
    ensures Join(size, c1, c0) < Pow2(2 * size)
    ensures Join(size, c1, c0) == 0 <==> c1 == 0 && c0 == 0
  {
    hide *;
    Pow2Add(size, size);
    Pair(c1, Pow2(size), c0, Pow2(size));
    Unfolded(size, c1, c0, 0);
    PositiveWord(c1, Pow2(size));
  }

  lemma PositiveWord(c: nat, w: nat)
    requires w > 0
    ensures c * w >= 0 && (c * w == 0 <==> c == 0)
  {
    if c > 0 { MulLe(1, c, w); }
  }

  lemma FarShift(size: nat, c1: nat, c0: nat, d: nat)
    requires size >= 1 && d >= 2 * size && c1 < Pow2(size) && c0 < Pow2(size)
    ensures Aligned(size, c1, c0, d) == if c0 != 0 || c1 != 0 then 1 else 0
    ensures Join(size, 0, 1) == 1 && Join(size, 0, 0) == 0 && 1 < Pow2(size)
  {
    hide *;
    JoinBound(size, c1, c0);
    Pow2Mono(2 * size, d);
    Pow2Above(size);
    AlignedIs(size, c1, c0, d);
    StickyRest(Join(size, c1, c0), Pow2(d));
    LowWord(size, 0);
    LowWord(size, 1);
  }

  /** Of a number below the divisor, only its being nonzero is left. */
  lemma StickyRest(m: nat, p: nat)
    requires m < p
    ensures StickyDiv(m, p) == if m != 0 then 1 else 0
  {
    DivUnique(m, p, 0, m);
  }

  lemma DroppingShift(size: nat, c1: nat, c0: nat, d: nat)
    requires size >= 1 && size < d < 2 * size && c1 < Pow2(size)
    ensures Aligned(size, c1, c0, d) == ShiftRightSticky(size, c1, d - size) < Pow2(size)
    ensures Join(size, 0, ShiftRightSticky(size, c1, d - size)) == ShiftRightSticky(size, c1, d - size)
  {
    hide *;
    AlignedIs(size, c1, c0, d);
    ShiftRightStickyIs(size, c1, d - size);
    StickyDivBound(c1, Pow2(d - size), Pow2(size));
    LowWord(size, ShiftRightSticky(size, c1, d - size));
  }

  lemma AlignedIs(size: nat, c1: nat, c0: nat, d: nat)
    ensures Aligned(size, c1, c0, d) ==
            if size < d < 2 * size then StickyDiv(c1, Pow2(d - size)) else StickyDiv(Join(size, c1, c0), Pow2(d))
  {
  }

  lemma LowWord(size: nat, l: nat)
    ensures Join(size, 0, l) == l
  {
  }

  lemma StickyDivBound(m: nat, p: nat, b: nat)
    requires p > 0 && m < b
    ensures StickyDiv(m, p) <= m
  {
    var q := m / p;
    MulLe(1, p, q);
    assert q < m || m % p == 0 || q == 0;
  }

  lemma WordShift(size: nat, c1: nat, c0: nat)
    requires size >= 1 && c1 < Pow2(size) && c0 < Pow2(size)
    ensures Aligned(size, c1, c0, size) == OrBit(c1, c0 != 0) < Pow2(size)
    ensures Join(size, 0, OrBit(c1, c0 != 0)) == OrBit(c1, c0 != 0)
  {
    DivUnique(Join(size, c1, c0), Pow2(size), c1, c0);
  }

  lemma NearShift(size: nat, c1: nat, c0: nat, d: nat)
    requires size >= 1 && 0 < d < size && c1 < Pow2(size) && c0 < Pow2(size)
    ensures var l := OrBit(ShiftLeft(size, c1, size - d) + Quotient(c0, Pow2(d)), c0 % Pow2(d) != 0);
            l < Pow2(size) && Quotient(c1, Pow2(d)) < Pow2(size) &&
            Join(size, Quotient(c1, Pow2(d)), l) == Aligned(size, c1, c0, d)
  {
    hide *;
    var h, l, bit := Quotient(c1, Pow2(d)), ShiftLeft(size, c1, size - d) + Quotient(c0, Pow2(d)), c0 % Pow2(d) != 0;
    ShiftWithin(size, c1, c0, d);
    QuotientBelow(c1, Pow2(d), Pow2(size));
    AlignedIs(size, c1, c0, d);
    StickyDivIs(Join(size, c1, c0), Pow2(d));
    Pow2Even(size);
    Unfolded(size, h, l, d);
    Unfolded(size, h, OrBit(l, bit), d);
    EvenMultiple(h, Pow2(size));
    OrBitSum(h * Pow2(size), l, bit, Pow2(size));
  }

  lemma QuotientBelow(c: nat, p: nat, w: nat)
    requires p > 0 && c < w
    ensures Quotient(c, p) < w
  {
    MulLe(1, p, w);
    QuotientRange(c, p, w);
  }

  lemma StickyDivIs(n: nat, p: nat)
    requires p > 0
    ensures StickyDiv(n, p) == OrBit(Quotient(n, p), n % p != 0)
  {
  }

  lemma OrBitSum(a: nat, b: nat, bit: bool, w: nat)
    requires a % 2 == 0 && w % 2 == 0 && b < w
    ensures a + OrBit(b, bit) == OrBit(a + b, bit) && OrBit(b, bit) < w
  {
  }

  lemma NoShift(size: nat, c1: nat, c0: nat)
    requires size >= 1
    ensures Aligned(size, c1, c0, 0) == Join(size, c1, c0)
  {
    DivUnique(Join(size, c1, c0), 1, Join(size, c1, c0), 0);
  }

  // -----------------------------------------------------------------------------------------
  // Adding and subtracting
  // -----------------------------------------------------------------------------------------

  /** Addition with the carry recovered by comparing. */
  method AddWords(size: nat, r1: nat, r0: nat, c1: nat, c0: nat) returns (h: nat, l: nat)
    requires r0 < Pow2(size) && c0 < Pow2(size) && r1 + c1 + 1 < Pow2(size)
    ensures h < Pow2(size) && l < Pow2(size) && Join(size, h, l) == Join(size, r1, r0) + Join(size, c1, c0)
  {
    hide *;
    l := (r0 + c0) % Pow2(size);
    var s1: nat := r1 + c1 + (if l < c0 then 1 else 0);
    h := s1 % Pow2(size);
    Carried(r1, r0, c1, c0, Pow2(size), l, s1);
    Unfolded(size, r1, r0, 0);
    Unfolded(size, c1, c0, 0);
    Unfolded(size, h, l, 0);
  }

  lemma Carried(r1: nat, r0: nat, c1: nat, c0: nat, w: nat, l: nat, s1: nat)
    requires r0 < w && c0 < w && r1 + c1 + 1 < w && w > 0
    requires l == (r0 + c0) % w && s1 == r1 + c1 + (if l < c0 then 1 else 0)
    ensures l < w && s1 % w == s1 && s1 * w + l == r1 * w + r0 + (c1 * w + c0)
  {
    var k := if r0 + c0 < w then 0 else 1;
    DivUnique(r0 + c0, w, k, r0 + c0 - k * w);
    SumOfProducts(r1, c1, k, w);
    DivUnique(s1, w, 0, s1);
  }

  lemma SumOfProducts(a: int, b: int, k: int, w: int)
    ensures (a + b + k) * w == a * w + b * w + k * w
    ensures k == 0 ==> k * w == 0
    ensures k == 1 ==> k * w == w
    ensures k == -1 ==> k * w == -w
  {
  }

  /** Subtraction with the borrow recovered by comparing. */
  method SubWords(size: nat, r1: nat, r0: nat, c1: nat, c0: nat) returns (h: nat, l: nat)
    requires r1 < Pow2(size) && r0 < Pow2(size) && c1 < Pow2(size) && c0 < Pow2(size)
    requires Join(size, c1, c0) <= Join(size, r1, r0)
    ensures h < Pow2(size) && l < Pow2(size) && Join(size, h, l) == Join(size, r1, r0) - Join(size, c1, c0)
  {
    hide *;
    var d0: int := r0 as int - c0;
    l := d0 % Pow2(size);
    var d1: int := r1 as int - c1 - (if l > r0 then 1 else 0);
    h := d1 % Pow2(size);
    Unfolded(size, r1, r0, 0);
    Unfolded(size, c1, c0, 0);
    Borrowed(r1, r0, c1, c0, Pow2(size), l, d1);
    Unfolded(size, h, l, 0);
  }

  lemma Borrowed(r1: nat, r0: nat, c1: nat, c0: nat, w: nat, l: nat, d1: int)
    requires w > 0 && r1 < w && r0 < w && c0 < w && c1 * w + c0 <= r1 * w + r0
    requires l == (r0 as int - c0) % w && d1 == r1 as int - c1 - (if l > r0 then 1 else 0)
    ensures l < w && d1 % w == d1 && d1 * w + l == r1 * w + r0 - (c1 * w + c0)
  {
    var k := if r0 >= c0 then 0 else -1;
    DivUnique(r0 as int - c0, w, k, r0 as int - c0 - k * w);
    SumOfProducts(r1, 0 - c1, k, w);
    if d1 < 0 { MulLe(d1, -1, w); }
    DivUnique(d1, w, 0, d1);
  }

  // -----------------------------------------------------------------------------------------
  // normalize2_sf
  // -----------------------------------------------------------------------------------------

  /** When a double-word mantissa n may be normalised although the exact value t is not n: it
      has lost at most two leading places, and it tells t apart as finely as that requires. */
  ghost predicate Normalizable2(f: Format, n: nat, t: real)
    requires f.Valid()
  {
    t >= 0.0 && n < Pow2(2 * f.size - 1) &&
    (t == n as real || (n >= Pow2(2 * f.size - 4) && StandsFor(n, t, Pow2(f.size + f.Rnd() - 3))))
  }

  /** The shift count of normalize2_sf. */
  function Shift2(size: nat, h: nat, l: nat): int
    requires h < Pow2(size) && l < Pow2(size)
  {
    (if h == 0 then size + CountLeadingZeros(size, l) else CountLeadingZeros(size, h)) - 1
  }

  lemma LeadingPlace(size: nat, h: nat, l: nat, s: int)
    requires size >= 1 && h < Pow2(size) && l < Pow2(size) && h < Pow2(size - 1) && s == Shift2(size, h, l)
    ensures 0 <= s < 2 * size
    ensures h != 0 ==> s < size - 1 && h < Pow2(size - 1 - s)
    ensures h == 0 ==> s >= size - 1
    ensures Join(size, h, l) != 0 ==> s <= 2 * size - 2
    ensures Join(size, h, l) != 0 ==> Pow2(2 * size - 2 - s) <= Join(size, h, l) < Pow2(2 * size - 1 - s)
  {
    hide *;
    JoinBound(size, h, l);
    Unfolded(size, h, l, 0);
    ShiftIs(size, h, l);
    if h != 0 {
      Pow2Add(size - 2 - s, size);
      Pow2Add(size - 1 - s, size);
      MulLe(Pow2(size - 2 - s), h, Pow2(size));
      MulLe(h + 1, Pow2(size - 1 - s), Pow2(size));
      MulDist(h, 1, Pow2(size));
    }
  }

  lemma ShiftIs(size: nat, h: nat, l: nat)
    requires size >= 1 && h < Pow2(size) && l < Pow2(size) && h < Pow2(size - 1)
    ensures var s := Shift2(size, h, l);
            && (h != 0 ==> 0 <= s <= size - 2 && Pow2(size - 2 - s) <= h < Pow2(size - 1 - s))
            && (h == 0 ==> size - 1 <= s < 2 * size && h * Pow2(size) == 0)
            && (h == 0 && l != 0 ==> s <= 2 * size - 2 && Pow2(2 * size - 2 - s) <= l < Pow2(2 * size - 1 - s))
  {
  }

  lemma ScaledUp2(size: nat, n: nat, s: nat, ns: nat)
    requires s <= 2 * size - 2 && Pow2(2 * size - 2 - s) <= n < Pow2(2 * size - 1 - s) && ns == n * Pow2(s)
    ensures Pow2(2 * size - 2) <= ns < Pow2(2 * size - 1)
  {
    hide *;
    Pow2Add(2 * size - 2 - s, s);
    Pow2Add(2 * size - 1 - s, s);
    MulLe(Pow2(2 * size - 2 - s), n, Pow2(s));
    MulLt(n, Pow2(2 * size - 1 - s), Pow2(s));
  }

  /** Both words shifted left, read at the upper one. */
  function UpperShifted(size: nat, h: nat, l: nat, s: nat): nat {
    if s == 0 then OrBit(h, l != 0)
    else if s < size then OrBit(ShiftLeft(size, h, s) + Quotient(l, Pow2(size - s)), ShiftLeft(size, l, s) != 0)
    else ShiftLeft(size, l, s - size)
  }

  lemma UpperShiftedIs(size: nat, h: nat, l: nat, s: nat)
    requires size >= 1 && h < Pow2(size - 1) && l < Pow2(size) && s < 2 * size
    requires h != 0 ==> s < size - 1 && h < Pow2(size - 1 - s)
    requires h == 0 && l != 0 ==> s <= 2 * size - 2 && l < Pow2(2 * size - 1 - s)
    ensures UpperShifted(size, h, l, s) == StickyDiv(Join(size, h, l) * Pow2(s), Pow2(size))
  {
    hide *;
    UpperShiftedCases(size, h, l, s);
    Unfolded(size, h, l, 0);
    StickyDivIs(Join(size, h, l) * Pow2(s), Pow2(size));
    if s < size {
      Pow2Add(s, size - s);
      if h != 0 { HighFits(size, h, s); }
      DivMod(l, Pow2(size - s));
      ZeroTimes(Pow2(s));
      ShiftedWords(h, l, Pow2(s), Pow2(size - s), Pow2(size), Quotient(l, Pow2(size - s)), l % Pow2(size - s), Join(size, h, l));
      Unfolded(size, h, l, s);
      Unfolded(size, l, h, s);
    } else {
      ZeroTimes(Pow2(size));
      Pow2Add(s - size, size);
      Unfolded(size, l, h, s - size);
      if l != 0 { LowFits(size, l, s - size); } else { ZeroTimes(Pow2(s - size)); Pow2Mono(0, size); }
      WholeWord(l, Pow2(s - size), Pow2(size), Pow2(s), l * Pow2(s - size));
    }
  }

  lemma ZeroTimes(p: nat)
    ensures 0 * p == 0 && 0 < Pow2(0) == 1
  {
  }

  lemma UpperShiftedCases(size: nat, h: nat, l: nat, s: nat)
    requires size >= 1
    ensures UpperShifted(size, h, l, s) ==
            if s < size then
              (if s == 0 then OrBit(h, l != 0)
               else OrBit(ShiftLeft(size, h, s) + Quotient(l, Pow2(size - s)), ShiftLeft(size, l, s) != 0))
            else ShiftLeft(size, l, s - size)
    ensures Pow2(0) == 1
  {
  }

  lemma HighFits(size: nat, h: nat, s: nat)
    requires s < size - 1 && h < Pow2(size - 1 - s)
    ensures h * Pow2(s) < Pow2(size)
  {
    hide *;
    Pow2Add(size - 1 - s, s);
    MulLt(h, Pow2(size - 1 - s), Pow2(s));
    Pow2Mono(size - 1, size);
  }

  lemma LowFits(size: nat, l: nat, d: nat)
    requires d <= size - 2 && l < Pow2(size - 1 - d)
    ensures l * Pow2(d) < Pow2(size)
  {
    hide *;
    HighFits(size, l, d);
  }

  lemma ShiftedWords(h: nat, l: nat, p: nat, w: nat, pw: nat, q: nat, m: nat, n: nat)
    requires p > 0 && w > 0 && pw == p * w && pw > 0 && h * p < pw && l == q * w + m && m < w
    requires n == h * pw + l && l < pw
    ensures h * p % pw == h * p && l * p % pw == m * p && (m * p == 0 <==> m == 0)
    ensures Quotient(n * p, pw) == h * p + q && n * p % pw == m * p
    ensures p == 1 ==> q == 0 && m == l && h * p == h
  {
    MulLt(m, w, p);
    PositiveWord(m, p);
    WordsDistribute(h, l, p, w, q, m);
    assert w * p == pw;
    MulLe(0, h, p);
    DivUnique(h * p, pw, 0, h * p);
    DivUnique(l * p, pw, q, m * p);
    DivUnique(n * p, pw, h * p + q, m * p);
    if p == 1 { OneShift(l, q, w, m); }
  }

  lemma OneShift(l: nat, q: nat, w: nat, m: nat)
    requires l == q * w + m && l < w && m < w
    ensures q == 0 && m == l
  {
    if q > 0 { MulLe(1, q, w); }
  }

  lemma WordsDistribute(h: int, l: int, p: int, w: int, q: int, m: int)
    requires l == q * w + m
    ensures l * p == q * (p * w) + m * p
    ensures (h * (p * w) + l) * p == (h * p + q) * (p * w) + m * p
  {
    var pw := p * w;
    assert l * p == q * (w * p) + m * p;
    assert (h * pw + l) * p == (h * p) * pw + l * p;
  }

  lemma WholeWord(l: nat, p: nat, w: nat, pw: nat, lp: nat)
    requires w > 0 && pw == p * w && lp == l * p < w
    ensures StickyDiv(l * pw, w) == lp && lp % w == lp
  {
    assert l * pw == lp * w;
    DivUnique(lp * w, w, lp, 0);
    DivUnique(lp, w, 0, lp);
  }

  /** Read at the upper word, the normalised pair still stands for the exact value. */
  lemma UpperStandsFor(f: Format, n: nat, t: real, s: nat, ns: nat, ts: real, m: nat, y: real)
    requires f.Valid() && Normalizable2(f, n, t) && ns == n * Pow2(s) && ts == t * Pow2(s) as real
    requires n >= Pow2(2 * f.size - 4) ==> s <= 2
    requires m == StickyDiv(ns, Pow2(f.size)) && y * Pow2(f.size) as real == ts
    ensures StandsFor(m, y, Half(f))
  {
    hide *;
    ScaledStep2(f, n, t, s, ns, ts);
    DownOneWord(f, ns, ts, m, y);
  }

  lemma ScaledStep2(f: Format, n: nat, t: real, s: nat, ns: nat, ts: real)
    requires f.Valid() && Normalizable2(f, n, t) && ns == n * Pow2(s) && ts == t * Pow2(s) as real
    requires n >= Pow2(2 * f.size - 4) ==> s <= 2
    ensures StandsFor(ns, ts, Pow2(f.size + f.Rnd() - 1))
  {
    hide *;
    Normalizable2Is(f, n, t);
    if t == n as real {
      ExactProduct(n, t, Pow2(s), ns, ts);
      ExactStandsFor(ns, ts, Pow2(f.size + f.Rnd() - 1));
    } else {
      WidenStep(n, t, f.size + f.Rnd() - 3, s, ns, ts);
    }
  }

  lemma DownOneWord(f: Format, n: nat, t: real, m: nat, y: real)
    requires f.Valid() && StandsFor(n, t, Pow2(f.size + f.Rnd() - 1))
    requires m == StickyDiv(n, Pow2(f.size)) && y * Pow2(f.size) as real == t
    ensures StandsFor(m, y, Half(f))
  {
    hide *;
    HalfIsEven(f);
    HalfIs(f);
    Pow2Add(f.Rnd() - 1, f.size);
    ShiftDown(n, t, Half(f), Pow2(f.size), Pow2(f.size + f.Rnd() - 1), y);
  }

  lemma WidenStep(n: nat, t: real, e: nat, s: nat, ns: nat, ts: real)
    requires s <= 2 && StandsFor(n, t, Pow2(e)) && ns == n * Pow2(s) && ts == t * Pow2(s) as real
    ensures StandsFor(ns, ts, Pow2(e + 2))
  {
    hide *;
    Pow2Add(e, s);
    Pow2Add(e + s, 2 - s);
    ScaleUp(n, t, Pow2(e), Pow2(s), ns, ts, Pow2(e + s));
    Coarsen(ns, ts, Pow2(e + s), Pow2(2 - s));
  }

  lemma ExactProduct(n: nat, t: real, p: nat, np: nat, tp: real)
    requires t == n as real && np == n * p && tp == t * p as real
    ensures tp == np as real
  {
  }

  lemma HalfIs(f: Format)
    requires f.Valid()
    ensures Half(f) == Pow2(f.Rnd() - 1) && f.Rnd() >= 7
  {
  }

  lemma Normalizable2Is(f: Format, n: nat, t: real)
    requires f.Valid() && Normalizable2(f, n, t)
    ensures t >= 0.0 && n < Pow2(2 * f.size - 1) && f.size + f.Rnd() >= 3 && f.Rnd() >= 7
    ensures t == n as real || (n >= Pow2(2 * f.size - 4) && StandsFor(n, t, Pow2(f.size + f.Rnd() - 3)))
  {
  }

  /** Everything round_pack_sf needs after the shift. */
  lemma Normalised2(f: Format, exp: int, h: nat, l: nat, n: nat, t: real, xm: real, s: nat, m: nat, y: real)
    requires f.Valid() && h < Pow2(f.size - 1) && h < Pow2(f.size) && l < Pow2(f.size)
    requires n == Join(f.size, h, l) && Normalizable2(f, n, t) && xm * Pow2(f.size) as real == t
    requires s == Shift2(f.size, h, l) && m == UpperShifted(f.size, h, l, s) && y == xm * Pow2(s) as real
    ensures Represents(f, exp - s, m, y) && Placed(f, exp - s, y) == Placed(f, exp, xm)
  {
    hide *;
    PlacedScales(f, exp, xm, s, y);
    Normalizable2Is(f, n, t);
    ShiftedRange2(f, h, l, n, s, m, n * Pow2(s));
    ShiftedExact(f, n, t, xm, s, n * Pow2(s), m, y);
    RepresentsIs(f, exp - s, m, y);
  }

  lemma ShiftedRange2(f: Format, h: nat, l: nat, n: nat, s: nat, m: nat, ns: nat)
    requires f.Valid() && h < Pow2(f.size - 1) && h < Pow2(f.size) && l < Pow2(f.size)
    requires n == Join(f.size, h, l) && s == Shift2(f.size, h, l) && m == UpperShifted(f.size, h, l, s)
    requires ns == n * Pow2(s)
    ensures m == StickyDiv(ns, Pow2(f.size)) && m < Pow2(f.size - 1) && (m == 0 || m >= Pow2(f.size - 2))
    ensures n >= Pow2(2 * f.size - 4) ==> s <= 2
  {
    hide *;
    var size := f.size;
    FormatSize(f);
    JoinBound(size, h, l);
    ZeroTimes(Pow2(size));
    Unfolded(size, h, l, 0);
    LeadingPlace(size, h, l, s);
    UpperShiftedIs(size, h, l, s);
    if n >= Pow2(2 * size - 4) && s > 2 { Pow2Mono(2 * size - 1 - s, 2 * size - 4); }
    if n != 0 {
      ScaledUp2(size, n, s, ns);
      UpperRange(size, ns, m);
    } else {
      ZeroTimes(Pow2(s));
      ZeroStickyDiv(Pow2(size));
    }
  }

  lemma ShiftedExact(f: Format, n: nat, t: real, xm: real, s: nat, ns: nat, m: nat, y: real)
    requires f.Valid() && Normalizable2(f, n, t) && xm * Pow2(f.size) as real == t
    requires n >= Pow2(2 * f.size - 4) ==> s <= 2
    requires ns == n * Pow2(s) && m == StickyDiv(ns, Pow2(f.size)) && y == xm * Pow2(s) as real
    ensures StandsFor(m, y, Half(f)) && y >= 0.0
  {
    hide *;
    var ts := t * Pow2(s) as real;
    Commute(xm, Pow2(s) as real, Pow2(f.size) as real, t, y, ts);
    UpperStandsFor(f, n, t, s, ns, ts, m, y);
    Normalizable2Is(f, n, t);
    NonNegative(y, Pow2(f.size) as real, t, Pow2(s) as real, ts);
  }

  lemma FormatSize(f: Format)
    requires f.Valid()
    ensures f.size >= 4
  {
  }

  lemma Commute(x: real, p: real, w: real, t: real, y: real, ts: real)
    requires x * w == t && y == x * p && ts == t * p
    ensures y * w == ts
  {
  }

  lemma NonNegative(y: real, w: real, t: real, p: real, ts: real)
    requires w > 0.0 && t >= 0.0 && p > 0.0 && ts == t * p && y * w == ts
    ensures y >= 0.0
  {
    RMulLe(0.0, t, p);
    if y < 0.0 { RMulLt(y, 0.0, w); }
  }

  lemma UpperRange(size: nat, ns: nat, m: nat)
    requires size >= 4 && Pow2(2 * size - 2) <= ns < Pow2(2 * size - 1) && m == StickyDiv(ns, Pow2(size))
    ensures Pow2(size - 2) <= m < Pow2(size - 1)
  {
    hide *;
    Pow2Add(size - 2, size);
    Pow2Add(size - 1, size);
    Pow2Even(size - 1);
    StickyDivIs(ns, Pow2(size));
    QuotientRange2(ns, Pow2(size), Pow2(size - 2));
    QuotientRange2(ns, Pow2(size), Pow2(size - 1));
    OrBitBelow(Quotient(ns, Pow2(size)), ns % Pow2(size) != 0, Pow2(size - 1));
  }

  lemma QuotientRange2(n: nat, g: nat, b: nat)
    requires g > 0
    ensures n < b * g <==> Quotient(n, g) < b
  {
    QuotientRange(n, g, b);
  }

  lemma OrBitBelow(m: nat, bit: bool, hi: nat)
    requires m < hi && hi % 2 == 0
    ensures m <= OrBit(m, bit) < hi
  {
  }

  lemma ZeroStickyDiv(w: nat)
    requires w > 0
    ensures StickyDiv(0, w) == 0
  {
    DivUnique(0, w, 0, 0);
  }

  lemma RepresentsIs(f: Format, exp: int, m: nat, y: real)
    requires f.Valid() && y >= 0.0 && m < Pow2(f.size - 1) && (m == 0 || m >= Pow2(f.size - 2))
    requires StandsFor(m, y, Half(f))
    ensures Represents(f, exp, m, y)
  {
  }

  /** normalize2_sf.  The exact mantissa is xm, counted in units of the upper word. */
  method Normalize2Pack(f: Format, neg: bool, exp: int, h: nat, l: nat, rm: RoundingMode, ghost t: real, ghost xm: real)
    returns (r: nat, raised: Flags)
    requires f.Valid() && h < Pow2(f.size - 1) && h < Pow2(f.size) && l < Pow2(f.size)
    requires Normalizable2(f, Join(f.size, h, l), t) && xm * Pow2(f.size) as real == t
    ensures Delivers(f, rm, neg, Placed(f, exp, xm), r, raised)
  {
    hide *;
    FormatSize(f);
    LeadingPlace(f.size, h, l, Shift2(f.size, h, l));
    var lead := if h == 0 then f.size + CountLeadingZeros(f.size, l) else CountLeadingZeros(f.size, h);
    var shift := lead - 1;
    Shift2Is(f.size, h, l);
    UpperShiftedCases(f.size, h, l, shift);
    var m: nat;
    if shift == 0 {
      m := OrBit(h, l != 0);
    } else if shift < f.size {
      m := OrBit(ShiftLeft(f.size, h, shift) + Quotient(l, Pow2(f.size - shift)), ShiftLeft(f.size, l, shift) != 0);
    } else {
      m := ShiftLeft(f.size, l, shift - f.size);
    }
    Normalised2(f, exp, h, l, Join(f.size, h, l), t, xm, shift, m, xm * Pow2(shift) as real);
    r, raised := RoundPack(f, neg, exp - shift, m, rm, xm * Pow2(shift) as real);
  }

  lemma Shift2Is(size: nat, h: nat, l: nat)
    requires h < Pow2(size) && l < Pow2(size)
    ensures Shift2(size, h, l) ==
            (if h == 0 then size + CountLeadingZeros(size, l) else CountLeadingZeros(size, h)) - 1
  {
  }
}
