/** What the building blocks of SHA-256 compute, in numbers: byte order, rotation, and the constants of
    FIPS 180-4 as digits of roots of primes. */
module Sha256Values {
  import opened ByteStreams
  import opened Sha256Logic
  import opened Sha256
  import Arith

  /** The number that bytes stand for, the most significant one first */
  function BigEndianValue(b: seq<Byte>): nat {
    if b == [] then 0 else 256 * BigEndianValue(b[..|b| - 1]) + b[|b| - 1] as nat
  }

  /** One more byte at the end of a word */
  lemma ByteAppended(x: Word, b: Byte)
    requires x < 0x100_0000
    ensures ((x << 8) | (b as Word)) as nat == 256 * x as nat + b as nat
  {
  }

  lemma AppendedBytes(b0: Byte, b1: Byte, b2: Byte, b3: Byte)
    ensures var x1 := (b0 as Word << 8) | (b1 as Word);
            var x2 := (x1 << 8) | (b2 as Word);
            x1 < 0x100_0000 && x2 < 0x100_0000 && BigEndian(b0, b1, b2, b3) == (x2 << 8) | (b3 as Word)
  {
  }

  /** A word of the message, as section 3.1 has it. */
  lemma BigEndianIs(b0: Byte, b1: Byte, b2: Byte, b3: Byte)
    ensures BigEndian(b0, b1, b2, b3) as nat == b0 as nat * 0x100_0000 + b1 as nat * 0x1_0000 + b2 as nat * 0x100 + b3 as nat
  {
    hide BigEndian;
    AppendedBytes(b0, b1, b2, b3);
    var x1 := (b0 as Word << 8) | (b1 as Word);
    var x2 := (x1 << 8) | (b2 as Word);
    ByteAppended(b0 as Word, b1);
    ByteAppended(x1, b2);
    ByteAppended(x2, b3);
  }

  /** The bytes of a word are those that it is read from. */
  lemma WordBytesBack(w: Word)
    ensures var b := WordBytes(w); BigEndian(b[0], b[1], b[2], b[3]) == w
  {
  }

  /** Section 3.2: bit i of a word rotated by n is bit i + n of the word, counted around. */
  lemma RotrBit(x: Word, n: Word, i: Word)
    requires 0 < n < 32 && i < 32
    ensures (Rotr(x, n) >> i) & 1 == (x >> ((i + n) % 32)) & 1
  {
    hide *;
    RotrIs(x, n);
    RotatedBit(x, n, i);
  }

  lemma RotrIs(x: Word, n: Word)
    requires 0 < n < 32
    ensures Rotr(x, n) == (x >> n) | (x << (32 - n))
  {
  }

  lemma RotatedBit(x: Word, n: Word, i: Word)
    requires 0 < n < 32 && i < 32
    ensures (((x >> n) | (x << (32 - n))) >> i) & 1 == (x >> ((i + n) % 32)) & 1
  {
    hide *;
  }

  /** The eight bytes of the length stand for it. */
  lemma LengthIs(n: nat)
    requires n < 0x1_0000_0000_0000_0000
    ensures BigEndianValue(Length64(n)) == n
  {
    hide Length64, BigEndianValue;
    UpperBytes(n, 8);
    assert Length64(n)[..8] == Length64(n);
  }

  lemma {:induction false} UpperBytes(n: nat, j: nat)
    requires n < 0x1_0000_0000_0000_0000 && j <= 8
    ensures BigEndianValue(Length64(n)[..j]) == Arith.Quotient(n, Arith.Pow2(8 * (8 - j)))
    decreases j
  {
    hide Length64, BigEndianValue, ByteAt, Arith.Pow2;
    if j == 0 {
      NoBytes(Length64(n)[..0]);
      LengthBits();
      Arith.DivUnique(n, Arith.Pow2(64), 0, n);
    } else {
      var p, q := Arith.Pow2(8 * (8 - j)), Arith.Pow2(8 * (8 - (j - 1)));
      UpperBytes(n, j - 1);
      ByteOf(n, j - 1);
      NextByte(Length64(n), j - 1);
      EightBits();
      Arith.Pow2Add(8 * (8 - j), 8);
      ByteSplit(n, p, q);
      if j == 8 { Arith.PowZero(); }
    }
  }

  lemma ByteSplit(n: nat, p: nat, q: nat)
    requires p > 0 && q == p * 256
    ensures Arith.Quotient(n, p) == 256 * Arith.Quotient(n, q) + Arith.Quotient(n, p) % 256
  {
    var h, l := n / p, n % p;
    Arith.DigitsRegrouped(h / 256, 256, h % 256, p, l);
    Arith.DivUnique(n, q, h / 256, h % 256 * p + l);
  }

  lemma NoBytes(b: seq<Byte>)
    requires b == []
    ensures BigEndianValue(b) == 0
  {
  }

  lemma NextByte(b: seq<Byte>, j: nat)
    requires j < |b|
    ensures BigEndianValue(b[..j + 1]) == 256 * BigEndianValue(b[..j]) + b[j] as nat
  {
    assert b[..j + 1][..j] == b[..j];
  }

  lemma ByteOf(n: nat, j: nat)
    requires j < 8
    ensures Length64(n)[j] as nat == Arith.Quotient(n, Arith.Pow2(8 * (8 - (j + 1)))) % 256
  {
    hide Arith.Pow2;
    assert Length64(n)[j] == ByteAt(n, 7 - j);
    ByteAtIs(n, 7 - j);
  }

  lemma ByteAtIs(n: nat, i: nat)
    ensures ByteAt(n, i) as nat == Arith.Quotient(n, Arith.Pow2(8 * i)) % 256
  {
    hide Arith.Pow2, LowByte;
    LowByteIs(Arith.Quotient(n, Arith.Pow2(8 * i)));
  }

  lemma LengthBits()
    ensures Arith.Pow2(64) == 0x1_0000_0000_0000_0000
  {
    hide *;
    EightBits();
    Arith.Pow2Add(8, 8);
    Arith.Pow2Add(16, 16);
    Arith.Pow2Add(32, 32);
  }

  /** A word's four bytes stand for it. */
  lemma WordBytesIs(w: Word)
    ensures BigEndianValue(WordBytes(w)) == w as nat
  {
    hide WordBytes, BigEndian, BigEndianValue;
    var b := WordBytes(w);
    WordBytesBack(w);
    BigEndianIs(b[0], b[1], b[2], b[3]);
    NoBytes(b[..0]);
    NextByte(b, 0);
    NextByte(b, 1);
    NextByte(b, 2);
    NextByte(b, 3);
    assert b[..4] == b;
  }

  /** A number below 256 is in the last of the eight bytes. */
  lemma ShortLength(n: nat)
    requires n < 256
    ensures Length64(n) == [0, 0, 0, 0, 0, 0, 0, LowByte(n)]
  {
    hide ByteAt;
    UpperByte(n, 1);
    UpperByte(n, 2);
    UpperByte(n, 3);
    UpperByte(n, 4);
    UpperByte(n, 5);
    UpperByte(n, 6);
    UpperByte(n, 7);
    LowestByte(n);
  }

  lemma UpperByte(n: nat, i: nat)
    requires n < 256 && i > 0
    ensures ByteAt(n, i) == 0
  {
    hide Arith.Pow2;
    EightBits();
    Arith.Pow2Mono(8, 8 * i);
    Arith.DivUnique(n, Arith.Pow2(8 * i), 0, n);
  }

  lemma LowestByte(n: nat)
    requires n < 256
    ensures ByteAt(n, 0) == LowByte(n)
  {
    assert Arith.Quotient(n, Arith.Pow2(0)) == n;
  }

  lemma EightBits()
    ensures Arith.Pow2(8) == 256
  {
  }

  // -----------------------------------------------------------------------------------------
  // The constants
  // -----------------------------------------------------------------------------------------

  /** k is the first 32 bits of the fraction of the cube root of p, c being its integer part. */
  predicate CubeRootBits(p: nat, c: nat, k: nat) {
    Cube(c * 0x1_0000_0000 + k) <= p * Cube(0x1_0000_0000) < Cube(c * 0x1_0000_0000 + k + 1)
  }

  function Cube(n: nat): nat { n * n * n }

  /** The same for the square root */
  predicate SquareRootBits(p: nat, c: nat, k: nat) {
    Square(c * 0x1_0000_0000 + k) <= p * Square(0x1_0000_0000) < Square(c * 0x1_0000_0000 + k + 1)
  }

  function Square(n: nat): nat { n * n }

  // Section 4.2.2: the constants are those bits for the first 64 primes.

  lemma Constants1()
    ensures Constant(0) == 0x428a2f98 && Constant(1) == 0x71374491 && Constant(2) == 0xb5c0fbcf && Constant(3) == 0xe9b5dba5
    ensures Constant(4) == 0x3956c25b && Constant(5) == 0x59f111f1 && Constant(6) == 0x923f82a4 && Constant(7) == 0xab1c5ed5
    ensures Constant(8) == 0xd807aa98 && Constant(9) == 0x12835b01 && Constant(10) == 0x243185be && Constant(11) == 0x550c7dc3
    ensures Constant(12) == 0x72be5d74 && Constant(13) == 0x80deb1fe && Constant(14) == 0x9bdc06a7 && Constant(15) == 0xc19bf174
  {
  }

  lemma Constants2()
    ensures Constant(16) == 0xe49b69c1 && Constant(17) == 0xefbe4786 && Constant(18) == 0x0fc19dc6 && Constant(19) == 0x240ca1cc
    ensures Constant(20) == 0x2de92c6f && Constant(21) == 0x4a7484aa && Constant(22) == 0x5cb0a9dc && Constant(23) == 0x76f988da
    ensures Constant(24) == 0x983e5152 && Constant(25) == 0xa831c66d && Constant(26) == 0xb00327c8 && Constant(27) == 0xbf597fc7
    ensures Constant(28) == 0xc6e00bf3 && Constant(29) == 0xd5a79147 && Constant(30) == 0x06ca6351 && Constant(31) == 0x14292967
  {
  }

  lemma Constants3()
    ensures Constant(32) == 0x27b70a85 && Constant(33) == 0x2e1b2138 && Constant(34) == 0x4d2c6dfc && Constant(35) == 0x53380d13
    ensures Constant(36) == 0x650a7354 && Constant(37) == 0x766a0abb && Constant(38) == 0x81c2c92e && Constant(39) == 0x92722c85
    ensures Constant(40) == 0xa2bfe8a1 && Constant(41) == 0xa81a664b && Constant(42) == 0xc24b8b70 && Constant(43) == 0xc76c51a3
    ensures Constant(44) == 0xd192e819 && Constant(45) == 0xd6990624 && Constant(46) == 0xf40e3585 && Constant(47) == 0x106aa070
  {
  }

  lemma Constants4()
    ensures Constant(48) == 0x19a4c116 && Constant(49) == 0x1e376c08 && Constant(50) == 0x2748774c && Constant(51) == 0x34b0bcb5
    ensures Constant(52) == 0x391c0cb3 && Constant(53) == 0x4ed8aa4a && Constant(54) == 0x5b9cca4f && Constant(55) == 0x682e6ff3
    ensures Constant(56) == 0x748f82ee && Constant(57) == 0x78a5636f && Constant(58) == 0x84c87814 && Constant(59) == 0x8cc70208
    ensures Constant(60) == 0x90befffa && Constant(61) == 0xa4506ceb && Constant(62) == 0xbef9a3f7 && Constant(63) == 0xc67178f2
  {
  }

  lemma CubeRoots1()
    ensures CubeRootBits(2, 1, Constant(0) as nat) && CubeRootBits(3, 1, Constant(1) as nat)
    ensures CubeRootBits(5, 1, Constant(2) as nat) && CubeRootBits(7, 1, Constant(3) as nat)
    ensures CubeRootBits(11, 2, Constant(4) as nat) && CubeRootBits(13, 2, Constant(5) as nat)
    ensures CubeRootBits(17, 2, Constant(6) as nat) && CubeRootBits(19, 2, Constant(7) as nat)
    ensures CubeRootBits(23, 2, Constant(8) as nat) && CubeRootBits(29, 3, Constant(9) as nat)
    ensures CubeRootBits(31, 3, Constant(10) as nat) && CubeRootBits(37, 3, Constant(11) as nat)
    ensures CubeRootBits(41, 3, Constant(12) as nat) && CubeRootBits(43, 3, Constant(13) as nat)
    ensures CubeRootBits(47, 3, Constant(14) as nat) && CubeRootBits(53, 3, Constant(15) as nat)
  {
    hide Constant;
    Constants1();
  }

  lemma CubeRoots2()
    ensures CubeRootBits(59, 3, Constant(16) as nat) && CubeRootBits(61, 3, Constant(17) as nat)
    ensures CubeRootBits(67, 4, Constant(18) as nat) && CubeRootBits(71, 4, Constant(19) as nat)
    ensures CubeRootBits(73, 4, Constant(20) as nat) && CubeRootBits(79, 4, Constant(21) as nat)
    ensures CubeRootBits(83, 4, Constant(22) as nat) && CubeRootBits(89, 4, Constant(23) as nat)
    ensures CubeRootBits(97, 4, Constant(24) as nat) && CubeRootBits(101, 4, Constant(25) as nat)
    ensures CubeRootBits(103, 4, Constant(26) as nat) && CubeRootBits(107, 4, Constant(27) as nat)
    ensures CubeRootBits(109, 4, Constant(28) as nat) && CubeRootBits(113, 4, Constant(29) as nat)
    ensures CubeRootBits(127, 5, Constant(30) as nat) && CubeRootBits(131, 5, Constant(31) as nat)
  {
    hide Constant;
    Constants2();
  }

  lemma CubeRoots3()
    ensures CubeRootBits(137, 5, Constant(32) as nat) && CubeRootBits(139, 5, Constant(33) as nat)
    ensures CubeRootBits(149, 5, Constant(34) as nat) && CubeRootBits(151, 5, Constant(35) as nat)
    ensures CubeRootBits(157, 5, Constant(36) as nat) && CubeRootBits(163, 5, Constant(37) as nat)
    ensures CubeRootBits(167, 5, Constant(38) as nat) && CubeRootBits(173, 5, Constant(39) as nat)
    ensures CubeRootBits(179, 5, Constant(40) as nat) && CubeRootBits(181, 5, Constant(41) as nat)
    ensures CubeRootBits(191, 5, Constant(42) as nat) && CubeRootBits(193, 5, Constant(43) as nat)
    ensures CubeRootBits(197, 5, Constant(44) as nat) && CubeRootBits(199, 5, Constant(45) as nat)
    ensures CubeRootBits(211, 5, Constant(46) as nat) && CubeRootBits(223, 6, Constant(47) as nat)
  {
    hide Constant;
    Constants3();
  }

  lemma CubeRoots4()
    ensures CubeRootBits(227, 6, Constant(48) as nat) && CubeRootBits(229, 6, Constant(49) as nat)
    ensures CubeRootBits(233, 6, Constant(50) as nat) && CubeRootBits(239, 6, Constant(51) as nat)
    ensures CubeRootBits(241, 6, Constant(52) as nat) && CubeRootBits(251, 6, Constant(53) as nat)
    ensures CubeRootBits(257, 6, Constant(54) as nat) && CubeRootBits(263, 6, Constant(55) as nat)
    ensures CubeRootBits(269, 6, Constant(56) as nat) && CubeRootBits(271, 6, Constant(57) as nat)
    ensures CubeRootBits(277, 6, Constant(58) as nat) && CubeRootBits(281, 6, Constant(59) as nat)
    ensures CubeRootBits(283, 6, Constant(60) as nat) && CubeRootBits(293, 6, Constant(61) as nat)
    ensures CubeRootBits(307, 6, Constant(62) as nat) && CubeRootBits(311, 6, Constant(63) as nat)
  {
    hide Constant;
    Constants4();
  }

  /** Section 5.3.3: the initial hash value has the square roots of the first eight primes. */
  lemma SquareRoots()
    ensures SquareRootBits(2, 1, INITIAL[0] as nat) && SquareRootBits(3, 1, INITIAL[1] as nat)
    ensures SquareRootBits(5, 2, INITIAL[2] as nat) && SquareRootBits(7, 2, INITIAL[3] as nat)
    ensures SquareRootBits(11, 3, INITIAL[4] as nat) && SquareRootBits(13, 3, INITIAL[5] as nat)
    ensures SquareRootBits(17, 4, INITIAL[6] as nat) && SquareRootBits(19, 4, INITIAL[7] as nat)
  {
  }
}
