/** Multiword arithmetic of softfp_template.h and riscv_cpu_template.h: products from half
    words, division by shifting and subtracting, square roots by Newton's iteration. */
module MultiWord {
  import opened Arith
  import opened Significand

  // -----------------------------------------------------------------------------------------
  // mul_u and mulhu: the double-word product from four half-word products
  // -----------------------------------------------------------------------------------------

  lemma Distribute(a1: int, a0: int, b1: int, b0: int, h: int)
    ensures (a1 * h + a0) * (b1 * h + b0) == (a1 * b1) * (h * h) + (a0 * b1 + a1 * b0) * h + a0 * b0
  {
  }

  /** The upper and the lower half of a word, h being the base of half words. */
  function Hi(x: nat, h: nat): nat
    requires h > 0
  {
    x / h
  }

  function Lo(x: nat, h: nat): nat
    requires h > 0
  {
    x % h
  }

  lemma Halves(x: nat, h: nat)
    requires h > 0
    ensures x == Hi(x, h) * h + Lo(x, h) && Lo(x, h) < h
    ensures x < h * h ==> Hi(x, h) < h
  {
    if x / h >= h { MulLe(h, x / h, h); }
  }

  lemma ColumnsOf(h: int, q00: int, q01: int, q10: int, q11: int, m00: int, m01: int, m10: int, m11: int,
                  k1: int, r1: int, k2: int, r2: int)
    requires k1 * h + r1 == q00 + m01 + m10 && k2 * h + r2 == k1 + q01 + q10 + m11
    ensures (k2 + q11) * (h * (h * h)) + r2 * (h * h) + r1 * h + m00
            == (q11 * h + m11) * (h * h) + (q01 * h + m01 + q10 * h + m10) * h + q00 * h + m00
  {
    var hh := h * h;
    calc {
      (k2 + q11) * (h * hh) + r2 * hh + r1 * h;
      (k2 * h + r2) * hh + q11 * (h * hh) + r1 * h;
      (k1 + q01 + q10 + m11) * hh + q11 * (h * hh) + r1 * h;
      (k1 * h + r1) * h + (q01 + q10 + m11) * hh + q11 * (h * hh);
      (q00 + m01 + m10) * h + (q01 + q10 + m11) * hh + q11 * (h * hh);
    }
  }

  lemma HalfProduct(x: nat, y: nat, h: nat, r: int)
    requires x < h && y < h && r == x * y
    ensures r >= 0 && Hi(r, h) < h && Lo(r, h) < h
  {
    ProductBelow(x, y, h);
    Halves(r, h);
  }

  /** No carry is lost: the digits computed column by column are those of the product. */
  lemma NoLostCarry(a: nat, b: nat, h: nat, hh: nat, r00: nat, r01: nat, r10: nat, r11: nat, c1: nat, c2: nat, r3: nat)
    requires h >= 2 && hh == h * h && a < hh && b < hh
    requires r00 == Lo(a, h) * Lo(b, h) && r01 == Lo(a, h) * Hi(b, h)
    requires r10 == Hi(a, h) * Lo(b, h) && r11 == Hi(a, h) * Hi(b, h)
    requires c1 == Hi(r00, h) + Lo(r01, h) + Lo(r10, h)
    requires c2 == Hi(c1, h) + Hi(r01, h) + Hi(r10, h) + Lo(r11, h)
    requires r3 == Hi(c2, h) + Hi(r11, h)
    ensures r3 < h && Lo(c2, h) < h && Lo(c1, h) < h && Lo(r00, h) < h
    ensures (r3 * h + Lo(c2, h)) * hh + (Lo(c1, h) * h + Lo(r00, h)) == a * b
    ensures r3 * h + Lo(c2, h) < hh && Lo(c1, h) * h + Lo(r00, h) < hh
  {
    hide *;
    Halves(a, h);
    Halves(b, h);
    Distribute(Hi(a, h), Lo(a, h), Hi(b, h), Lo(b, h), h);
    ProductBelow(a, b, hh);
    ColumnSum(h, hh, r00, r01, r10, r11, c1, c2, r3);
    TopDigit(h, hh, r3, Lo(c2, h), Lo(c1, h), Lo(r00, h), a * b);
  }

  lemma ColumnSum(h: nat, hh: nat, r00: nat, r01: nat, r10: nat, r11: nat, c1: nat, c2: nat, r3: nat)
    requires h >= 2 && hh == h * h
    requires c1 == Hi(r00, h) + Lo(r01, h) + Lo(r10, h)
    requires c2 == Hi(c1, h) + Hi(r01, h) + Hi(r10, h) + Lo(r11, h)
    requires r3 == Hi(c2, h) + Hi(r11, h)
    ensures r3 * (h * hh) + Lo(c2, h) * hh + Lo(c1, h) * h + Lo(r00, h) == r11 * hh + (r01 + r10) * h + r00
    ensures Lo(c2, h) < h && Lo(c1, h) < h && Lo(r00, h) < h
  {
    hide *;
    Halves(r00, h);
    Halves(r01, h);
    Halves(r10, h);
    Halves(r11, h);
    Halves(c1, h);
    Halves(c2, h);
    ColumnsOf(h, Hi(r00, h), Hi(r01, h), Hi(r10, h), Hi(r11, h), Lo(r00, h), Lo(r01, h), Lo(r10, h), Lo(r11, h),
              Hi(c1, h), Lo(c1, h), Hi(c2, h), Lo(c2, h));
  }

  lemma TopDigit(h: nat, hh: nat, r3: nat, r2: nat, r1: nat, r0: nat, n: nat)
    requires h >= 2 && hh == h * h && n < hh * hh && r2 < h && r1 < h && r0 < h
    requires r3 * (h * hh) + r2 * hh + r1 * h + r0 == n
    ensures r3 < h && (r3 * h + r2) * hh + (r1 * h + r0) == n
    ensures r3 * h + r2 < hh && r1 * h + r0 < hh
  {
    hide *;
    Pair(r1, h, r0, h);
    Pair(r2, h, r1 * h + r0, hh);
    Regrouping(h, hh, r3, r2);
    TopBelow(h, h * hh, r3, r2 * hh + (r1 * h + r0), n);
    Pair(r3, h, r2, h);
  }

  lemma Pair(hi: nat, k: nat, lo: nat, h: nat)
    requires lo < h && hi < k
    ensures 0 <= hi * h + lo < k * h
  {
    MulLe(hi + 1, k, h);
    MulDist(hi, 1, h);
  }

  lemma TopBelow(h: nat, hhh: nat, r3: nat, rest: nat, n: nat)
    requires hhh > 0 && rest < hhh && r3 * hhh + rest == n && n < h * hhh
    ensures r3 < h
  {
    if r3 >= h { MulLe(h, r3, hhh); }
  }

  lemma Regrouping(h: int, hh: int, r3: int, r2: int)
    requires hh == h * h
    ensures (r3 * h + r2) * hh == r3 * (h * hh) + r2 * hh
    ensures h * (h * hh) == hh * hh
  {
  }

  lemma ProductBelow(a: nat, b: nat, n: nat)
    requires a < n && b < n
    ensures 0 <= a * b < n * n
  {
    MulLe(a, n, b);
    MulLt(b, n, n);
  }

  /** mul_u: the two words of a product. */
  method MulU(size: nat, a: nat, b: nat) returns (high: nat, low: nat)
    requires size >= 4 && size % 2 == 0 && a < Pow2(size) && b < Pow2(size)
    ensures high * Pow2(size) + low == a * b
    ensures high < Pow2(size) && low < Pow2(size)
  {
    hide *;
    var h := Pow2(size / 2);
    HalfBase(size, h);
    Halves(a, h);
    Halves(b, h);
    var a0, a1, b0, b1 := Lo(a, h), Hi(a, h), Lo(b, h), Hi(b, h);
    NatProduct(a0, b0);
    NatProduct(a0, b1);
    NatProduct(a1, b0);
    NatProduct(a1, b1);
    var r00, r01, r10, r11 := a0 * b0, a0 * b1, a1 * b0, a1 * b1;
    HalfProduct(a0, b0, h, r00);
    HalfProduct(a0, b1, h, r01);
    HalfProduct(a1, b0, h, r10);
    HalfProduct(a1, b1, h, r11);
    var r0 := Lo(r00, h);
    var c := Hi(r00, h) + Lo(r01, h) + Lo(r10, h);
    assert c < 4 * h;
    ghost var c1 := c;
    var r1 := Lo(c, h);
    Halves(c, h);
    c := Hi(c, h) + Hi(r01, h) + Hi(r10, h) + Lo(r11, h);
    assert c < 4 * h;
    var r2 := Lo(c, h);
    var r3 := Hi(c, h) + Hi(r11, h);
    NoLostCarry(a, b, h, Pow2(size), r00, r01, r10, r11, c1, c, r3);
    NatProduct(r1, h);
    NatProduct(r3, h);
    low := r1 * h + r0;
    high := r3 * h + r2;
  }

  lemma NatProduct(a: nat, b: nat)
    ensures 0 <= a * b
  {
  }

  lemma HalfBase(size: nat, h: nat)
    requires size >= 4 && size % 2 == 0 && h == Pow2(size / 2)
    ensures h >= 4 && h * h == Pow2(size) && 4 * h <= Pow2(size)
  {
    Pow2Add(size / 2, size / 2);
    Pow2Mono(2, size / 2);
    MulLe(4, h, h);
  }

  // -----------------------------------------------------------------------------------------
  // mulh and mulhsu
  // -----------------------------------------------------------------------------------------

  /** A word read in two's complement. */
  function Signed(size: nat, a: nat): int
    requires size >= 1
  {
    if a >= Pow2(size - 1) then a - Pow2(size) else a
  }

  /** The upper word of the product of two integers, in two's complement. */
  function HighProduct(size: nat, x: int, y: int): int {
    x * y / Pow2(size) % Pow2(size)
  }

  /** Reading an operand as signed lowers the upper word by the other operand. */
  lemma SignedHigh(n: nat, a: nat, b: nat, i: int, j: int, high: nat, low: nat)
    requires n > 0 && low < n && high * n + low == a * b
    ensures (a - i * n) * (b - j * n) / n == high - i * b - j * a + i * j * n
    ensures (a - i * n) * (b - j * n) / n % n == (high - i * b - j * a) % n
  {
    var q := high - i * b - j * a;
    ExpandSigned(n, a, b, i, j);
    MulDist(high, -i * b - j * a + i * j * n, n);
    DivUnique((a - i * n) * (b - j * n), n, q + i * j * n, low);
    AddMultiple(q, i * j, n);
  }

  lemma ExpandSigned(n: int, a: int, b: int, i: int, j: int)
    ensures (a - i * n) * (b - j * n) == a * b + (-i * b - j * a + i * j * n) * n
  {
  }

  lemma AddMultiple(a: int, k: int, n: nat)
    requires n > 0
    ensures (a + k * n) % n == a % n
  {
    MulDist(a / n, k, n);
    DivUnique(a + k * n, n, a / n + k, a % n);
  }

  /** Two residues agree exactly when the difference is a multiple; close together, only when equal. */
  lemma NearResidues(a: int, b: int, n: nat)
    requires n > 0 && a - b < n && b - a < n
    ensures a % n == b % n <==> a == b
  {
    var p, q := a / n, b / n;
    MulDist(p, -q, n);
    if p > q { MulLe(1, p - q, n); }
    if q > p { MulLe(p - q, -1, n); }
  }

  lemma SubtractReduced(r: int, x: int, n: nat)
    requires n > 0
    ensures (r % n - x) % n == (r - x) % n
  {
    AddMultiple(r % n - x, r / n, n);
  }

  /** mulh: it subtracts from the upper word the negative operands themselves, so it computes
      the signed upper word exactly when the two operands have the same sign. */
  method MulH(size: nat, a: nat, b: nat) returns (r: nat)
    requires size >= 4 && size % 2 == 0 && a < Pow2(size) && b < Pow2(size)
    ensures r == HighProduct(size, Signed(size, a), Signed(size, b))
            <==> (Signed(size, a) < 0 <==> Signed(size, b) < 0)
    ensures r == Corrected(size, a, b, if Signed(size, a) < 0 then a else 0, if Signed(size, b) < 0 then b else 0)
  {
    hide Pow2;
    var high, low := MulU(size, a, b);
    r := high;
    if Signed(size, a) < 0 { r := (r - a) % Pow2(size); }
    if Signed(size, b) < 0 { r := (r - b) % Pow2(size); }
    CorrectedIs(size, a, b, if Signed(size, a) < 0 then a else 0, if Signed(size, b) < 0 then b else 0, high, low);
    CorrectedIs(size, a, b, a, b, high, low);
    SignedIs(size, a);
    SignedIs(size, b);
    MulHComputes(Pow2(size), a, b, if Signed(size, a) < 0 then 1 else 0, if Signed(size, b) < 0 then 1 else 0, high, low, r);
  }

  /** The unsigned upper word of a product, less x and y. */
  function Corrected(size: nat, a: nat, b: nat, x: int, y: int): int { (a * b / Pow2(size) - x - y) % Pow2(size) }

  lemma CorrectedIs(size: nat, a: nat, b: nat, x: nat, y: nat, high: nat, low: nat)
    requires high * Pow2(size) + low == a * b && high < Pow2(size) && low < Pow2(size)
    ensures Corrected(size, a, b, x, y) == ((high - x) % Pow2(size) - y) % Pow2(size)
    ensures Corrected(size, a, b, x, 0) == (high - x) % Pow2(size) && Corrected(size, a, b, 0, y) == (high - y) % Pow2(size)
    ensures Corrected(size, a, b, 0, 0) == high
  {
    hide Pow2;
    var n := Pow2(size);
    DivUnique(a * b, n, high, low);
    SubtractReduced(high - x, y, n);
    DivUnique(high, n, 0, high);
  }

  lemma SignedIs(size: nat, a: nat)
    requires size >= 1 && a < Pow2(size)
    ensures Signed(size, a) == if Signed(size, a) < 0 then a - 1 * Pow2(size) else a - 0 * Pow2(size)
    ensures Signed(size, a) < 0 <==> a >= Pow2(size - 1)
  {
    assert Pow2(size) == 2 * Pow2(size - 1);
  }

  lemma MulHComputes(n: nat, a: nat, b: nat, i: int, j: int, high: nat, low: nat, r: int)
    requires n > 0 && low < n && high < n && a < n && b < n && high * n + low == a * b
    requires 0 <= i <= 1 && 0 <= j <= 1
    requires r == (if i == 1 && j == 1 then ((high - a) % n - b) % n
                   else if i == 1 then (high - a) % n else if j == 1 then (high - b) % n else high)
    requires i != j ==> a != b
    ensures r == (a - i * n) * (b - j * n) / n % n <==> i == j
  {
    hide *;
    SignedHigh(n, a, b, i, j, high, low);
    SignCases(n, a, b, i, j, high, high - i * b - j * a, r);
  }

  lemma SignCases(n: nat, a: nat, b: nat, i: int, j: int, high: nat, right: int, r: int)
    requires n > 0 && high < n && a < n && b < n && (i == 0 || i == 1) && (j == 0 || j == 1)
    requires right == high - (if i == 1 then b else 0) - (if j == 1 then a else 0)
    requires r == (if i == 1 && j == 1 then ((high - a) % n - b) % n
                   else if i == 1 then (high - a) % n else if j == 1 then (high - b) % n else high)
    requires i != j ==> a != b
    ensures r == right % n <==> i == j
  {
    if i == 1 && j == 1 {
      SubtractReduced(high - a, b, n);
    } else if i == 1 || j == 1 {
      NearResidues(high - a, high - b, n);
    } else {
      DivUnique(high, n, 0, high);
    }
  }

  /** mulhsu, a signed and b unsigned: right exactly when a is not negative or equals b as a word. */
  method MulHSU(size: nat, a: nat, b: nat) returns (r: nat)
    requires size >= 4 && size % 2 == 0 && a < Pow2(size) && b < Pow2(size)
    ensures r == HighProduct(size, Signed(size, a), b) <==> Signed(size, a) >= 0 || a == b
    ensures r == Corrected(size, a, b, if Signed(size, a) < 0 then a else 0, 0)
  {
    hide Pow2;
    var high, low := MulU(size, a, b);
    r := high;
    if Signed(size, a) < 0 { r := (r - a) % Pow2(size); }
    CorrectedIs(size, a, b, if Signed(size, a) < 0 then a else 0, 0, high, low);
    SignedIs(size, a);
    MulHSUComputes(Pow2(size), a, b, if Signed(size, a) < 0 then 1 else 0, high, low);
  }

  lemma MulHSUComputes(n: nat, a: nat, b: nat, i: int, high: nat, low: nat)
    requires n > 0 && low < n && high < n && a < n && b < n && high * n + low == a * b && 0 <= i <= 1
    ensures (if i == 1 then (high - a) % n else high) == (a - i * n) * b / n % n <==> i == 0 || a == b
  {
    SignedHigh(n, a, b, i, 0, high, low);
    DivUnique(high, n, 0, high);
    NearResidues(high - a, high - b, n);
  }

  /** For instance -1 * 1: the upper word of the product is all ones, mulh and mulhsu return 1. */
  method MulHOfMinusOne(size: nat) returns (r: nat, s: nat)
    requires size >= 4 && size % 2 == 0
    ensures r != HighProduct(size, -1, 1) && s != HighProduct(size, -1, 1)
  {
    var a := Pow2(size) - 1;
    assert Signed(size, a) == -1 && Signed(size, 1) == 1 && a != 1 by {
      Pow2Mono(2, size - 1);
    }
    r := MulH(size, a, 1);
    s := MulHSU(size, a, 1);
  }

  // -----------------------------------------------------------------------------------------
  // divrem_u: one quotient bit per round
  // -----------------------------------------------------------------------------------------

  /** The state after i rounds of shifting and subtracting: the dividend's leading part has been
      divided, and its remaining bits share a word with the quotient bits found so far. */
  ghost predicate Dividing(size: nat, i: nat, n: nat, b: nat, a1: nat, a0: nat, q: nat, rest: nat) {
    i <= size && a1 < b < Pow2(size) &&
    rest < Pow2(size - i) && q < Pow2(i) && a0 == rest * Pow2(i) + q &&
    n == (q * b + a1) * Pow2(size - i) + rest
  }

  lemma DividingStarts(size: nat, b: nat, a1: nat, a0: nat)
    requires a1 < b < Pow2(size) && a0 < Pow2(size)
    ensures Dividing(size, 0, a1 * Pow2(size) + a0, b, a1, a0, 0, a0)
  {
  }

  /** One round, t being the top bit of the low word. */
  lemma DividingStep(size: nat, i: nat, n: nat, b: nat, a1: nat, a0: nat, q: nat, rest: nat, t: nat, bit: nat)
    returns (rest': nat)
    requires i < size && Dividing(size, i, n, b, a1, a0, q, rest) && t == Quotient(a0, Pow2(size - 1))
    requires bit == if 2 * a1 + t >= b then 1 else 0
    ensures t <= 1 && 2 * a1 + t < 2 * b
    ensures Dividing(size, i + 1, n, b, 2 * a1 + t - bit * b, 2 * a0 % Pow2(size) + bit, 2 * q + bit, rest')
  {
    hide *;
    DividingIs(size, i, n, b, a1, a0, q, rest);
    NextPowers(size, i);
    rest' := RoundRest(size, i, rest, q, a0, t);
    DividingNext(size, i, n, b, a1, a0, q, rest, t, bit, rest');
  }

  lemma DividingIs(size: nat, i: nat, n: nat, b: nat, a1: nat, a0: nat, q: nat, rest: nat)
    requires Dividing(size, i, n, b, a1, a0, q, rest)
    ensures i <= size && a1 < b < Pow2(size) && rest < Pow2(size - i) && q < Pow2(i)
    ensures a0 == rest * Pow2(i) + q && n == (q * b + a1) * Pow2(size - i) + rest
  {
  }

  lemma NextPowers(size: nat, i: nat)
    requires i < size
    ensures Pow2(size - i) == 2 * Pow2(size - (i + 1)) && Pow2(i + 1) == 2 * Pow2(i)
    ensures Pow2(size - 1) == Pow2(size - (i + 1)) * Pow2(i) && Pow2(size) == 2 * Pow2(size - 1)
  {
    Pow2Add(size - (i + 1), i);
  }

  /** Shifting the low word moves its top bit out. */
  lemma RoundRest(size: nat, i: nat, rest: nat, q: nat, a0: nat, t: nat) returns (rest': nat)
    requires i < size && a0 == rest * Pow2(i) + q && q < Pow2(i) && t == Quotient(a0, Pow2(size - 1))
    requires rest < 2 * Pow2(size - (i + 1))
    ensures t <= 1 && rest == t * Pow2(size - (i + 1)) + rest' && rest' < Pow2(size - (i + 1))
    ensures 2 * a0 % Pow2(size) == rest' * Pow2(i + 1) + 2 * q
  {
    NextPowers(size, i);
    hide Pow2;
    var p, w := Pow2(size - (i + 1)), Pow2(i);
    rest' := rest % p;
    RoundBits(p, w, rest, q, rest / p, rest', a0, rest' * w + q, Pow2(size - 1));
    TwiceOf(rest', w, Pow2(i + 1));
  }

  lemma TwiceOf(r: int, w: int, w2: int)
    requires w2 == 2 * w
    ensures r * w2 == 2 * (r * w)
  {
  }

  lemma DividingNext(size: nat, i: nat, n: nat, b: nat, a1: nat, a0: nat, q: nat, rest: nat, t: nat, bit: nat, rest': nat)
    requires i < size && a1 < b < Pow2(size) && q < Pow2(i) && t <= 1
    requires n == (q * b + a1) * Pow2(size - i) + rest && Pow2(size - i) == 2 * Pow2(size - (i + 1))
    requires rest == t * Pow2(size - (i + 1)) + rest' && rest' < Pow2(size - (i + 1))
    requires Pow2(i + 1) == 2 * Pow2(i) && 2 * a0 % Pow2(size) == rest' * Pow2(i + 1) + 2 * q
    requires bit == if 2 * a1 + t >= b then 1 else 0
    ensures 2 * a1 + t < 2 * b
    ensures Dividing(size, i + 1, n, b, 2 * a1 + t - bit * b, 2 * a0 % Pow2(size) + bit, 2 * q + bit, rest')
  {
    hide Pow2, Dividing;
    RoundValue(n, b, a1, q, t, rest', Pow2(size - (i + 1)), Pow2(size - i), bit);
    DividingFrom(size, i + 1, n, b, 2 * a1 + t - bit * b, 2 * a0 % Pow2(size) + bit, 2 * q + bit, rest');
  }

  lemma DividingFrom(size: nat, i: nat, n: nat, b: nat, a1: nat, a0: nat, q: nat, rest: nat)
    requires i <= size && a1 < b < Pow2(size) && rest < Pow2(size - i) && q < Pow2(i)
    requires a0 == rest * Pow2(i) + q && n == (q * b + a1) * Pow2(size - i) + rest
    ensures Dividing(size, i, n, b, a1, a0, q, rest)
  {
  }

  lemma RoundBits(p: nat, w: nat, rest: nat, q: nat, t: int, rest': nat, a0: nat, u: nat, top: nat)
    requires p > 0 && w > 0 && rest < 2 * p && q < w && t == rest / p && rest' == rest % p
    requires a0 == rest * w + q && top == p * w && u == rest' * w + q
    ensures 0 <= t <= 1 && rest == t * p + rest' && rest' < p && 0 < top && u < top
    ensures a0 / top == t && 2 * a0 % (2 * top) == 2 * u
  {
    DigitOf(rest, p, t);
    MulLe(1, p, w);
    Pair(rest', p, q, w);
    Regroup2Bits(t, p, rest', w, q);
    DivUnique(a0, top, t, u);
    DivUnique(2 * a0, 2 * top, t, 2 * u);
  }

  lemma DigitOf(rest: nat, p: nat, t: int)
    requires p > 0 && rest < 2 * p && t == rest / p
    ensures 0 <= t <= 1 && rest == t * p + rest % p
  {
    if t >= 2 { MulLe(2, t, p); }
    if t <= -1 { MulLe(t, -1, p); }
  }

  lemma Regroup2Bits(t: int, p: int, r: int, w: int, q: int)
    ensures (t * p + r) * w + q == t * (p * w) + (r * w + q)
    ensures 2 * (t * (p * w)) == t * (2 * (p * w))
  {
  }

  lemma RoundValue(n: nat, b: nat, a1: nat, q: nat, t: nat, rest': nat, p: nat, p2: nat, bit: nat)
    requires n == (q * b + a1) * p2 + (t * p + rest') && bit <= 1 && p2 == 2 * p
    ensures n == ((2 * q + bit) * b + (2 * a1 + t - bit * b)) * p + rest'
  {
  }

  /** divrem_u: quotient and remainder of a double word. */
  method DivRemU(size: nat, a1: nat, a0: nat, b: nat) returns (q: nat, r: nat)
    requires size >= 1 && a1 < b < Pow2(size) && a0 < Pow2(size)
    ensures q * b + r == a1 * Pow2(size) + a0 && r < b && q < Pow2(size)
  {
    hide *;
    ghost var n := a1 * Pow2(size) + a0;
    ghost var found: nat, rest: nat := 0, a0;
    var x1: nat, x0: nat, i: nat := a1, a0, 0;
    DividingStarts(size, b, a1, a0);
    while i < size
      invariant i <= size && Dividing(size, i, n, b, x1, x0, found, rest)
    {
      var t := Quotient(x0, Pow2(size - 1));
      ghost var next := if 2 * x1 + t >= b then 1 else 0;
      ghost var rest' := DividingStep(size, i, n, b, x1, x0, found, rest, t, next);
      DividingIs(size, i, n, b, x1, x0, found, rest);
      DoubledFits(Pow2(size), b, x1, t, next);
      var carry := Quotient(2 * x1, Pow2(size));
      x1 := 2 * x1 % Pow2(size) + t;
      var bit := 0;
      if carry != 0 || x1 >= b {
        x1 := (x1 - b) % Pow2(size);
        bit := 1;
      }
      x0 := 2 * x0 % Pow2(size) + bit;
      found, rest, i := 2 * found + bit, rest', i + 1;
    }
    q, r := x0, x1;
    DividingEnds(size, n, b, x1, x0, found, rest);
  }

  /** The doubled partial remainder may carry out of the word; subtracting b brings it back. */
  lemma DoubledFits(w: nat, b: nat, a1: nat, t: nat, bit: nat)
    requires 0 < b && a1 < b < w && t <= 1 && 2 * a1 + t < 2 * b && bit == if 2 * a1 + t >= b then 1 else 0
    ensures var d := 2 * a1 % w + t;
            if bit == 1 then (Quotient(2 * a1, w) != 0 || d >= b) && (d - b) % w == 2 * a1 + t - bit * b
            else Quotient(2 * a1, w) == 0 && d < b && d == 2 * a1 + t - bit * b
  {
    if 2 * a1 < w {
      DivUnique(2 * a1, w, 0, 2 * a1);
      if bit == 1 { DivUnique(2 * a1 + t - b, w, 0, 2 * a1 + t - b); }
    } else {
      DivUnique(2 * a1, w, 1, 2 * a1 - w);
      DivUnique(2 * a1 - w + t - b, w, -1, 2 * a1 + t - b);
    }
  }

  lemma DividingEnds(size: nat, n: nat, b: nat, a1: nat, a0: nat, q: nat, rest: nat)
    requires Dividing(size, size, n, b, a1, a0, q, rest)
    ensures a0 == q && n == q * b + a1 && a1 < b && q < Pow2(size)
  {
  }

  // -----------------------------------------------------------------------------------------
  // sqrtrem_u: Newton's iteration from above
  // -----------------------------------------------------------------------------------------

  function Square(s: int): int { s * s }

  /** s is the integer part of the square root of a. */
  ghost predicate IsRoot(s: nat, a: nat) { Square(s) <= a < Square(s + 1) }

  lemma SquareMono(s: nat, t: nat)
    ensures s <= t <==> Square(s) <= Square(t)
  {
    if s <= t {
      MulLe(s, t, s);
      MulLe(s, t, t);
    } else {
      MulLt(t, s, s);
      MulLe(t, s, t);
    }
  }

  /** One step of Newton's iteration never falls below the root, and stops only at or below it. */
  lemma NewtonStep(a: nat, s: nat, q: int, u: int)
    requires s > 0 && q == a / s && u == (q + s) / 2
    ensures a < Square(u + 1) && u >= 0
    ensures u >= s ==> Square(s) <= a
    ensures a > 0 ==> u > 0
  {
    hide *;
    QuotientBounds(a, s, q);
    MeanSquared(a, s, q + 1, u + 1);
    if u >= s {
      MulLe(s, q, s);
      SquareIs(s);
    }
  }

  lemma QuotientBounds(a: nat, s: nat, q: int)
    requires s > 0 && q == a / s
    ensures q >= 0 && q * s <= a < (q + 1) * s
    ensures a > 0 && s == 1 ==> q >= 1
  {
    MulDist(q, 1, s);
    if q < 0 { MulLe(q, -1, s); }
  }

  lemma MeanSquared(a: nat, s: nat, x: nat, v: nat)
    requires a < x * s && 2 * v >= x + s
    ensures a < Square(v)
  {
    FourTimes(x, s);
    MulLe(x + s, 2 * v, x + s);
    MulLe(x + s, 2 * v, 2 * v);
    assert (2 * v) * (2 * v) == 4 * Square(v);
  }

  /** The arithmetic mean is no less than the geometric one. */
  lemma FourTimes(x: int, y: int)
    ensures 4 * (x * y) <= (x + y) * (x + y)
  {
    assert 0 <= (x - y) * (x - y);
  }

  /** The exponent l of the first guess 2^((l + 1) / 2). */
  function GuessBits(size: nat, ah: nat, al: nat): int
    requires ah < Pow2(size) && al < Pow2(size) && (ah != 0 || al != 0)
  {
    if ah != 0 then 2 * size - CountLeadingZeros(size, ah - 1) else size - CountLeadingZeros(size, al - 1)
  }

  function FirstGuess(size: nat, ah: nat, al: nat): nat
    requires ah < Pow2(size) && al < Pow2(size) && (ah != 0 || al != 0)
  {
    Pow2((GuessBits(size, ah, al) + 1) / 2)
  }

  /** sqrtrem_u on a double-word integer.  The iteration never recovers from a first guess below
      the root, so the result is right exactly when the guess is not too small. */
  method SqrtRemWide(size: nat, ah: nat, al: nat) returns (s: nat, inexact: bool)
    requires size >= 2 && ah < Pow2(size - 2) && al < Pow2(size)
    ensures ah < Pow2(size)
    ensures var a := ah * Pow2(size) + al;
            IsRoot(s, a) <==> a == 0 || a < Square(FirstGuess(size, ah, al) + 1)
    ensures var a := ah * Pow2(size) + al;
            a > 0 && a >= Square(FirstGuess(size, ah, al) + 1) ==> s == FirstGuess(size, ah, al)
    ensures inexact <==> Square(s) != ah * Pow2(size) + al
  {
    Pow2Mono(size - 2, size);
    MulLe(0, ah, Pow2(size));
    if ah == 0 && al == 0 { return 0, false; }
    var a: nat := ah * Pow2(size) + al;
    if ah >= 1 { MulLe(1, ah, Pow2(size)); }
    s, inexact := NewtonRoot(a, FirstGuess(size, ah, al));
  }

  method NewtonRoot(a: nat, guess: nat) returns (s: nat, inexact: bool)
    requires a > 0 && guess > 0
    ensures IsRoot(s, a) <==> a < Square(guess + 1)
    ensures a >= Square(guess + 1) ==> s == guess
    ensures inexact <==> Square(s) != a
  {
    hide Square;
    s := guess;
    NewtonStep(a, s, a / s, (a / s + s) / 2);
    var u := (a / s + s) / 2;
    while u < s
      invariant s > 0 && u == (a / s + s) / 2
      invariant 0 < u && a < Square(u + 1) && (u >= s ==> Square(s) <= a)
      invariant if a < Square(guess + 1) then a < Square(s + 1) else s == guess
      decreases s
    {
      if a >= Square(guess + 1) { SquareMono(guess + 1, u + 1); }
      s := u;
      NewtonStep(a, s, a / s, (a / s + s) / 2);
      u := (a / s + s) / 2;
    }
    inexact := a - s * s != 0;
    SquareIs(s);
  }

  lemma SquareIs(s: int)
    ensures Square(s) == s * s
  {
  }

  /** With an empty low word, as sqrt_sf calls it, the first guess is never too small. */
  lemma GuessSuffices(size: nat, a1: nat)
    requires size >= 2 && 0 < a1 < Pow2(size - 2) && a1 < Pow2(size)
    ensures a1 * Pow2(size) < Square(FirstGuess(size, a1, 0) + 1)
    ensures 0 < FirstGuess(size, a1, 0) <= Pow2(size - 1)
  {
    hide CountLeadingZeros, Square, Pow2;
    var n := CountLeadingZeros(size, a1 - 1);
    var k, e := size - n, (2 * size - n + 1) / 2;
    if a1 != 1 && n < 2 { Pow2Mono(size - 2, size - 1 - n); }
    GuessSquared(size, k, e, a1);
  }

  lemma GuessSquared(size: nat, k: nat, e: nat, a1: nat)
    requires size >= 1 && e <= size - 1 && size + k <= e + e && a1 <= Pow2(k)
    ensures a1 * Pow2(size) < Square(Pow2(e) + 1) && Pow2(e) <= Pow2(size - 1)
  {
    hide *;
    Pow2Mono(e, size - 1);
    Pow2Add(size, k);
    Pow2Mono(size + k, e + e);
    Pow2Add(e, e);
    MulLe(a1, Pow2(k), Pow2(size));
    GrowSquare(Pow2(e));
  }

  lemma GrowSquare(p: nat)
    ensures p * p < Square(p + 1)
  {
  }

  /** With a low word the guess can be too small: for the perfect square (2^(size/2) + 1)^2 the
      iteration stops at once, at 2^(size/2), and calls it inexact. */
  lemma GuessTooSmall(size: nat, h: nat, al: nat)
    requires size >= 4 && size % 2 == 0 && h == Pow2(size / 2) && al == 2 * h + 1
    ensures 1 < Pow2(size - 2) && 1 < Pow2(size) && al < Pow2(size)
    ensures 1 * Pow2(size) + al == Square(FirstGuess(size, 1, al) + 1)
  {
    Pow2Add(size / 2, size / 2);
    Pow2Mono(1, size - 2);
    Pow2Mono(size - 2, size);
    Pow2Mono(2, size / 2);
    MulLe(4, h, h);
    assert CountLeadingZeros(size, 0) == size;
    assert GuessBits(size, 1, al) == size && (size + 1) / 2 == size / 2;
    assert Square(h + 1) == h * h + 2 * h + 1;
  }

  /** While the iteration is above the root, the divisor exceeds the upper word, as divrem_u
      asserts, and quotient and divisor add up to less than a word but for one integer. */
  lemma IterationFits(p: nat, w: nat, a1: nat, a0: nat, a: nat, s: nat, q: nat)
    requires p >= 4 && w == 2 * p && 2 * a1 + 2 <= p && 0 < s <= p && a == a1 * w + a0
    requires a < p * p && a < Square(s + 1) && q * s <= a
    ensures a1 < s
    ensures q + s < w || (s == p - 1 && q == p + 1 && a == p * p - 1)
  {
    hide *;
    if a1 > 0 && s <= a1 {
      SquareMono(s + 1, a1 + 1);
      SquareBelow(a1);
      MulLe(a1 + 3, w, a1);
    }
    if q + s >= w { QuotientFits(p, a, s, q, p - s); }
  }

  lemma SquareBelow(a: nat)
    requires a > 0
    ensures Square(a + 1) <= (a + 3) * a
  {
  }

  lemma QuotientFits(p: nat, a: nat, s: nat, q: nat, d: nat)
    requires p >= 4 && s > 0 && s + d == p && q * s <= a < Square(s + 1) && a < p * p && q + s >= 2 * p
    ensures d == 1 && q == p + 1 && a == p * p - 1
  {
    MulLe(p + d, q, s);
    DifferenceOfSquares(p, d, s);
    if d >= 2 { MulLe(2, 2 * d - 2, s); }
    if q >= p + 2 { MulLe(p + 2, q, s); MulDist(p + 1, 1, s); }
  }

  lemma DifferenceOfSquares(p: int, d: int, s: int)
    requires s + d == p
    ensures (p + d) * s == p * p - d * d
    ensures Square(s + 1) == (p + d) * s - (2 * d - 2) * s + 1
  {
  }

  /** From the integer below a power of four the iteration goes on from its root. */
  lemma LastRoot(p: nat, s: nat, q: nat, r: nat)
    requires p >= 4 && q * s + r == p * p - 1 && r < s && (s == p || s == p - 1)
    ensures s == p ==> q == p - 1
    ensures s == p - 1 ==> q == p + 1
  {
    if s == p {
      assert p * p - 1 == (p - 1) * s + (p - 1);
      DivUnique(p * p - 1, s, q, r);
      DivUnique(p * p - 1, s, p - 1, p - 1);
    } else {
      assert p * p - 1 == (p + 1) * s;
      DivUnique(p * p - 1, s, q, r);
      DivUnique(p * p - 1, s, p + 1, 0);
    }
  }

  /** A first guess below the root is at most half the largest one, exceeds the upper word, and
      its square is at least half the integer. */
  lemma GuessRange(size: nat, a1: nat, a0: nat)
    requires size >= 4 && size % 2 == 0 && a1 < Pow2(size - 2) && a0 < Pow2(size) && (a1 != 0 || a0 != 0)
    ensures a1 < Pow2(size)
    ensures var g, a := FirstGuess(size, a1, a0), a1 * Pow2(size) + a0;
            && 0 < g <= Pow2(size - 1)
            && (a < Square(g + 1) || (a1 < g && 2 * g <= Pow2(size - 1) && a < 2 * (g * g)))
  {
    hide CountLeadingZeros, Square, Pow2;
    Pow2Mono(size - 2, size);
    if a1 != 0 {
      var n := CountLeadingZeros(size, a1 - 1);
      if a1 != 1 && n < 2 { Pow2Mono(size - 2, size - 1 - n); }
      UpperGuess(size, size - n, (2 * size - n + 1) / 2, a1, a0);
    } else {
      var l := size - CountLeadingZeros(size, a0 - 1);
      LowerGuess(size, l, (l + 1) / 2, a0);
    }
  }

  lemma LowerGuess(size: nat, l: nat, e: nat, a0: nat)
    requires size >= 4 && l <= size && e == (l + 1) / 2 && a0 <= Pow2(l)
    ensures 0 < Pow2(e) <= Pow2(size - 1) && a0 < Square(Pow2(e) + 1)
  {
    hide *;
    Pow2Mono(e, size - 1);
    Pow2Mono(l, e + e);
    Pow2Add(e, e);
    GrowSquare(Pow2(e));
  }

  lemma UpperGuess(size: nat, k: nat, e: nat, a1: nat, a0: nat)
    requires size >= 4 && k <= size - 2 && e == (size + k + 1) / 2 && 0 < a1 <= Pow2(k) && a0 < Pow2(size)
    ensures var g, a := Pow2(e), a1 * Pow2(size) + a0;
            && 0 < g <= Pow2(size - 1)
            && (a < Square(g + 1) || (a1 < g && 2 * g <= Pow2(size - 1) && a < 2 * (g * g)))
  {
    hide *;
    var g := Pow2(e);
    Pow2Mono(e, size - 1);
    Pow2Add(size, k);
    Pow2Mono(size + k, e + e);
    Pow2Add(e, e);
    Pow2Mono(size, e + e);
    MulLe(a1, Pow2(k), Pow2(size));
    Pow2Mono(k, e);
    GrowSquare(g);
    if e == size - 1 {
      WordRoom(size);
      Pow2Mono(k, size - 2);
      LargestGuess(g, a1, a0);
    }
  }

  lemma LargestGuess(p: nat, a1: nat, a0: nat)
    requires 2 * a1 <= p && a0 < 2 * p
    ensures a1 * (2 * p) + a0 < Square(p + 1)
  {
    MulLe(2 * a1, p, p);
    assert Square(p + 1) == p * p + 2 * p + 1;
  }

  /** From a guess below the root one step leads back up, and ends the iteration. */
  lemma LowGuess(p: nat, a: nat, g: nat, q: nat)
    requires g > 0 && 2 * g <= p && a < 2 * (g * g) && q * g <= a
    ensures q + g < 2 * p
  {
    if q >= 2 * g { MulLe(2 * g, q, g); }
  }

  lemma TopGuess(p: nat, a: nat, g: nat)
    requires p >= 4 && a == p * p - 1 && g <= p && (a < Square(g + 1) || (2 * g <= p && a < 2 * (g * g)))
    ensures a < Square(g + 1) && g >= p - 1
  {
    if 2 * g <= p {
      MulLe(2 * g, p, g);
      MulLe(2 * g, p, p);
      MulLe(4, p, p);
    }
    if g + 1 < p { SquareMono(g + 1, p - 1); }
    assert Square(p - 1) == p * p - 2 * p + 1;
  }

  /** An integer below a power of four, of which it is the largest one only with all bits set */
  lemma BelowPower(p: nat, w: nat, a1: nat, a0: nat)
    requires p >= 4 && w == 2 * p && 2 * a1 + 2 <= p && a0 < w
    ensures a1 * w + a0 < p * p && Square(p) == p * p && p * p < Square(p + 1)
    ensures a0 == 0 ==> a1 * w + a0 < p * p - 1
  {
    MulLe(2 * a1 + 2, p, p);
    assert (2 * a1 + 2) * p == a1 * w + w;
    assert Square(p + 1) == p * p + 2 * p + 1;
  }

  /** One round of the two-word iteration */
  lemma RootStep(p: nat, w: nat, a1: nat, a0: nat, a: nat, low: bool, s: nat, q: nat, r: nat, u: nat)
    requires p >= 4 && w == 2 * p && 2 * a1 + 2 <= p && a == a1 * w + a0 && 0 < a < p * p && 0 < s <= p
    requires q * s + r == a && r < s && u == (q + s) % w / 2
    requires if low then a >= Square(s + 1) && 2 * s <= p && a < 2 * (s * s) && a != p * p - 1 else a < Square(s + 1)
    requires a == p * p - 1 ==> s == p || s == p - 1
    ensures u >= s ==> Square(s) <= a && a != p * p - 1
    ensures u < s ==> !low && (u > 0 ==> a < Square(u + 1)) && (u == 0 ==> a == p * p - 1)
    ensures u < s && a == p * p - 1 ==> u == p - 1 || u == 0
  {
    hide *;
    DivUnique(a, s, q, r);
    if low { LowGuess(p, a, s, q); } else { IterationFits(p, w, a1, a0, a, s, q); }
    if a == p * p - 1 { LastRoot(p, s, q, r); }
    if q + s < w {
      DivUnique(q + s, w, 0, q + s);
      NewtonStep(a, s, q, u);
    } else {
      DivUnique(q + s, w, 1, 0);
    }
    if low { SquareMono(s + 1, u + 1); }
  }

  /** With an empty low word the two-word form is always right. */
  lemma EmptyLowWord(size: nat, a1: nat)
    requires size >= 4 && size % 2 == 0 && a1 < Pow2(size - 2)
    ensures a1 < Pow2(size) && a1 * Pow2(size) + 0 != Square(Pow2(size - 1)) - 1
    ensures a1 * Pow2(size) + 0 == 0 || a1 * Pow2(size) + 0 < Square(FirstGuess(size, a1, 0) + 1)
  {
    hide CountLeadingZeros, Square, Pow2, FirstGuess;
    WordRoom(size);
    Pow2Mono(size - 2, size);
    BelowPower(Pow2(size - 1), Pow2(size), a1, 0);
    if a1 > 0 { GuessSuffices(size, a1); }
  }

  /** The two-word sqrtrem_u.  For the largest integer it takes, quotient and divisor add up to a
      whole word and the next division fails its assertion; otherwise it is right exactly when the
      first guess is not too small. */
  method SqrtRemU(size: nat, a1: nat, a0: nat) returns (ok: bool, s: nat, inexact: bool)
    requires size >= 4 && size % 2 == 0 && a1 < Pow2(size - 2) && a0 < Pow2(size)
    ensures a1 < Pow2(size)
    ensures !ok <==> a1 * Pow2(size) + a0 == Square(Pow2(size - 1)) - 1
    ensures ok ==>
              var a := a1 * Pow2(size) + a0;
              && (IsRoot(s, a) <==> a == 0 || a < Square(FirstGuess(size, a1, a0) + 1))
              && (a > 0 && a >= Square(FirstGuess(size, a1, a0) + 1) ==> s == FirstGuess(size, a1, a0))
              && (inexact <==> Square(s) != a) && s <= Pow2(size - 1)
  {
    hide *;
    WordRoom(size);
    RootOfZero();
    Pow2Mono(size - 2, size);
    ghost var p, a: nat := Pow2(size - 1), a1 * Pow2(size) + a0;
    BelowPower(p, Pow2(size), a1, a0);
    if a1 == 0 && a0 == 0 { return true, 0, false; }
    if a1 > 0 { PositiveProduct(a1, Pow2(size)); }
    GuessRange(size, a1, a0);
    var u: nat := FirstGuess(size, a1, a0);
    ghost var g := u;
    ghost var low := a >= Square(g + 1);
    if a == p * p - 1 { TopGuess(p, a, g); }
    while true
      invariant u <= p && (low ==> u == g)
      invariant !low && u > 0 ==> a < Square(u + 1)
      invariant u == 0 ==> a == p * p - 1
      invariant a == p * p - 1 ==> !low && (u == p || u == p - 1 || u == 0)
      decreases u
    {
      s := u;
      if s > 0 && !low { IterationFits(p, Pow2(size), a1, a0, a, s, 0); }
      if a1 >= s { return false, s, false; }
      var q, r := DivRemU(size, a1, a0, s);
      u := (q + s) % Pow2(size) / 2;
      RootStep(p, Pow2(size), a1, a0, a, low, s, q, r, u);
      if u >= s { break; }
    }
    var sq1, sq0 := MulU(size, s, s);
    inexact := sq0 != a0 || sq1 != a1;
    DivUnique(s * s, Pow2(size), sq1, sq0);
    DivUnique(a, Pow2(size), a1, a0);
    SquareIs(s);
    RootIs(s, a);
    ok := true;
  }

  lemma WordRoom(size: nat)
    requires size >= 4
    ensures Pow2(size) == 2 * Pow2(size - 1) && Pow2(size - 1) == 2 * Pow2(size - 2) && Pow2(size - 2) >= 2
  {
  }

  lemma RootOfZero()
    ensures IsRoot(0, 0) && Square(0) == 0
  {
  }

  lemma RootIs(s: nat, a: nat)
    ensures IsRoot(s, a) <==> Square(s) <= a < Square(s + 1)
  {
  }

  lemma PositiveProduct(a: nat, b: nat)
    requires a > 0 && b > 0
    ensures a * b > 0
  {
  }
}
