/** The two logical functions of SHA-256 (FIPS 180-4, section 4.1.2). */
module Sha256Logic {

  type Word = bv32

  function Ch(x: Word, y: Word, z: Word): Word { (x & y) ^ (!x & z) }

  function Maj(x: Word, y: Word, z: Word): Word { (x & y) ^ (x & z) ^ (y & z) }

  /** The two logical functions as the code computes them. */
  function ChCode(x: Word, y: Word, z: Word): Word { z ^ (x & (y ^ z)) }

  function MajCode(x: Word, y: Word, z: Word): Word { ((x | y) & z) | (x & y) }

  lemma AndOverXor(x: Word, y: Word, z: Word)
    ensures x & (y ^ z) == (x & y) ^ (x & z)
  {
  }

  lemma XorOverAnd(x: Word, y: Word, z: Word)
    ensures (x ^ y) & z == (x & z) ^ (y & z)
  {
  }

  lemma XorReorders(x: Word, y: Word, z: Word)
    ensures x ^ (y ^ z) == y ^ (x ^ z)
  {
  }

  lemma XorRotates(x: Word, y: Word, z: Word)
    ensures (x ^ y) ^ z == (z ^ x) ^ y
  {
  }

  lemma XorWithPart(x: Word, z: Word)
    ensures z ^ (x & z) == !x & z
  {
  }

  lemma ChForms(x: Word, y: Word, z: Word)
    ensures z ^ (x & (y ^ z)) == (x & y) ^ (!x & z)
  {
    AndOverXor(x, y, z);
    XorReorders(z, x & y, x & z);
    XorWithPart(x, z);
  }

  lemma OrByXor(x: Word, y: Word, z: Word)
    ensures ((x | y) & z) | (x & y) == ((x ^ y) & z) | (x & y)
  {
  }

  lemma DisjointOr(x: Word, y: Word, z: Word)
    ensures ((x ^ y) & z) | (x & y) == ((x ^ y) & z) ^ (x & y)
  {
  }

  lemma MajForms(x: Word, y: Word, z: Word)
    ensures ((x | y) & z) | (x & y) == (x & y) ^ (x & z) ^ (y & z)
  {
    OrByXor(x, y, z);
    DisjointOr(x, y, z);
    XorOverAnd(x, y, z);
    XorRotates(x & z, y & z, x & y);
  }

  lemma LogicIs(x: Word, y: Word, z: Word)
    ensures ChCode(x, y, z) == z ^ (x & (y ^ z)) && Ch(x, y, z) == (x & y) ^ (!x & z)
    ensures MajCode(x, y, z) == ((x | y) & z) | (x & y) && Maj(x, y, z) == (x & y) ^ (x & z) ^ (y & z)
  {
  }

  lemma ChSame(x: Word, y: Word, z: Word)
    ensures ChCode(x, y, z) == Ch(x, y, z)
  {
    hide *;
    ChForms(x, y, z);
    LogicIs(x, y, z);
  }

  lemma MajSame(x: Word, y: Word, z: Word)
    ensures MajCode(x, y, z) == Maj(x, y, z)
  {
    hide *;
    MajForms(x, y, z);
    LogicIs(x, y, z);
  }
}

module Sha256 {
  import opened Sha256Logic
  import opened ByteStreams
  import Arith

  // -----------------------------------------------------------------------------------------
  // The hash of FIPS 180-4
  // -----------------------------------------------------------------------------------------

  /** K, in rows of eight */
  const K: seq<seq<Word>> :=
    [[0x428a2f98, 0x71374491, 0xb5c0fbcf, 0xe9b5dba5, 0x3956c25b, 0x59f111f1, 0x923f82a4, 0xab1c5ed5],
     [0xd807aa98, 0x12835b01, 0x243185be, 0x550c7dc3, 0x72be5d74, 0x80deb1fe, 0x9bdc06a7, 0xc19bf174],
     [0xe49b69c1, 0xefbe4786, 0x0fc19dc6, 0x240ca1cc, 0x2de92c6f, 0x4a7484aa, 0x5cb0a9dc, 0x76f988da],
     [0x983e5152, 0xa831c66d, 0xb00327c8, 0xbf597fc7, 0xc6e00bf3, 0xd5a79147, 0x06ca6351, 0x14292967],
     [0x27b70a85, 0x2e1b2138, 0x4d2c6dfc, 0x53380d13, 0x650a7354, 0x766a0abb, 0x81c2c92e, 0x92722c85],
     [0xa2bfe8a1, 0xa81a664b, 0xc24b8b70, 0xc76c51a3, 0xd192e819, 0xd6990624, 0xf40e3585, 0x106aa070],
     [0x19a4c116, 0x1e376c08, 0x2748774c, 0x34b0bcb5, 0x391c0cb3, 0x4ed8aa4a, 0x5b9cca4f, 0x682e6ff3],
     [0x748f82ee, 0x78a5636f, 0x84c87814, 0x8cc70208, 0x90befffa, 0xa4506ceb, 0xbef9a3f7, 0xc67178f2]]

  const INITIAL: seq<Word> :=
    [0x6a09e667, 0xbb67ae85, 0x3c6ef372, 0xa54ff53a, 0x510e527f, 0x9b05688c, 0x1f83d9ab, 0x5be0cd19]

  const BLOCK := 64

  function Constant(t: nat): Word
    requires t < 64
  {
    K[t / 8][t % 8]
  }

  /** Addition modulo 2^32 */
  function Plus(x: Word, y: Word): Word { x + y }

  /** Section 4.1.2 */
  function Rotr(x: Word, n: Word): Word
    requires 0 < n < 32
  {
    (x >> n) | (x << (32 - n))
  }

  function BigSigma0(x: Word): Word { Rotr(x, 2) ^ Rotr(x, 13) ^ Rotr(x, 22) }

  function BigSigma1(x: Word): Word { Rotr(x, 6) ^ Rotr(x, 11) ^ Rotr(x, 25) }

  function SmallSigma0(x: Word): Word { Rotr(x, 7) ^ Rotr(x, 18) ^ (x >> 3) }

  function SmallSigma1(x: Word): Word { Rotr(x, 17) ^ Rotr(x, 19) ^ (x >> 10) }

  function BigEndian(b0: Byte, b1: Byte, b2: Byte, b3: Byte): Word {
    (b0 as Word << 24) | (b1 as Word << 16) | (b2 as Word << 8) | (b3 as Word)
  }

  function ScheduleStep(w2: Word, w7: Word, w15: Word, w16: Word): Word {
    Plus(Plus(Plus(SmallSigma1(w2), w7), SmallSigma0(w15)), w16)
  }

  /** Section 6.2.2, step 1: the message schedule. */
  function Schedule(block: seq<Byte>, t: nat): Word
    requires |block| == BLOCK && t < 64
  {
    if t < 16 then BigEndian(block[4 * t], block[4 * t + 1], block[4 * t + 2], block[4 * t + 3])
    else ScheduleStep(Schedule(block, t - 2), Schedule(block, t - 7), Schedule(block, t - 15), Schedule(block, t - 16))
  }

  /** The working variables. */
  datatype Vars = Vars(a: Word, b: Word, c: Word, d: Word, e: Word, f: Word, g: Word, h: Word)

  /** Step 3, for one t. */
  function Round(v: Vars, k: Word, w: Word): Vars {
    var t1 := Plus(Plus(Plus(Plus(v.h, BigSigma1(v.e)), Ch(v.e, v.f, v.g)), k), w);
    var t2 := Plus(BigSigma0(v.a), Maj(v.a, v.b, v.c));
    Vars(Plus(t1, t2), v.a, v.b, v.c, Plus(v.d, t1), v.e, v.f, v.g)
  }

  function Rounds(v: Vars, block: seq<Byte>, n: nat): Vars
    requires |block| == BLOCK && n <= 64
  {
    if n == 0 then v else Round(Rounds(v, block, n - 1), Constant(n - 1), Schedule(block, n - 1))
  }

  function VarsOf(h: seq<Word>): Vars
    requires |h| == 8
  {
    Vars(h[0], h[1], h[2], h[3], h[4], h[5], h[6], h[7])
  }

  /** Steps 2 to 4: the hash value after one more block. */
  function Compressed(h: seq<Word>, block: seq<Byte>): (r: seq<Word>)
    requires |h| == 8 && |block| == BLOCK
    ensures |r| == 8
  {
    Fedback(h, Rounds(VarsOf(h), block, 64))
  }

  function Fedback(h: seq<Word>, v: Vars): (r: seq<Word>)
    requires |h| == 8
    ensures |r| == 8
  {
    [Plus(h[0], v.a), Plus(h[1], v.b), Plus(h[2], v.c), Plus(h[3], v.d),
     Plus(h[4], v.e), Plus(h[5], v.f), Plus(h[6], v.g), Plus(h[7], v.h)]
  }

  function HashBlocks(h: seq<Word>, m: seq<Byte>): (r: seq<Word>)
    requires |h| == 8 && |m| % BLOCK == 0
    ensures |r| == 8
    decreases |m|
  {
    if m == [] then h else HashBlocks(Compressed(h, m[..BLOCK]), m[BLOCK..])
  }

  function Zeros(n: nat): (z: seq<Byte>)
    ensures |z| == n
  {
    seq(n, i => 0)
  }

  function ByteAt(n: nat, i: nat): Byte { LowByte(Arith.Quotient(n, Arith.Pow2(8 * i))) }

  /** n as eight bytes, the most significant one first. */
  function Length64(n: nat): (b: seq<Byte>)
    ensures |b| == 8
  {
    [ByteAt(n, 7), ByteAt(n, 6), ByteAt(n, 5), ByteAt(n, 4), ByteAt(n, 3), ByteAt(n, 2), ByteAt(n, 1), ByteAt(n, 0)]
  }

  /** The zero bytes of the padding: as few as make whole blocks. */
  function PadZeros(n: nat): (z: nat)
    ensures (n + 1 + z + 8) % BLOCK == 0 && z < BLOCK
  {
    (119 - n % BLOCK) % BLOCK
  }

  /** Section 5.1.1: the padded message. */
  function Padded(m: seq<Byte>): (p: seq<Byte>)
    ensures |p| % BLOCK == 0
  {
    m + [0x80] + Zeros(PadZeros(|m|)) + Length64(8 * |m|)
  }

  function WordBytes(w: Word): (b: seq<Byte>)
    ensures |b| == 4
  {
    [((w >> 24) & 0xff) as Byte, ((w >> 16) & 0xff) as Byte, ((w >> 8) & 0xff) as Byte, (w & 0xff) as Byte]
  }

  function Digest(h: seq<Word>): seq<Byte>
    decreases |h|
  {
    if h == [] then [] else WordBytes(h[0]) + Digest(h[1..])
  }

  function Hash(m: seq<Byte>): seq<Byte> {
    Digest(HashBlocks(INITIAL, Padded(m)))
  }

  // -----------------------------------------------------------------------------------------
  // sha256_compress
  // -----------------------------------------------------------------------------------------

  function T0(e: Word, f: Word, g: Word, h: Word, k: Word, w: Word): (r: Word) {
    Plus(Plus(Plus(Plus(h, BigSigma1(e)), ChCode(e, f, g)), k), w)
  }

  function T1(a: Word, b: Word, c: Word): Word {
    Plus(BigSigma0(a), MajCode(a, b, c))
  }

  /** What RND adds to d and stores in h is what a round computes. */
  lemma RndIsRound(v: Vars, k: Word, w: Word)
    ensures var t0, t1 := T0(v.e, v.f, v.g, v.h, k, w), T1(v.a, v.b, v.c);
            Round(v, k, w) == Vars(Plus(t0, t1), v.a, v.b, v.c, Plus(v.d, t0), v.e, v.f, v.g)
  {
    hide BigSigma0, BigSigma1, Ch, Maj, ChCode, MajCode, Plus;
    ChSame(v.e, v.f, v.g);
    MajSame(v.a, v.b, v.c);
  }

  lemma ScheduleIs(block: seq<Byte>, t: nat)
    requires |block| == BLOCK && t < 64
    ensures t < 16 ==> Schedule(block, t) == BigEndian(block[4 * t], block[4 * t + 1], block[4 * t + 2], block[4 * t + 3])
    ensures t >= 16 ==> (Schedule(block, t) ==
            ScheduleStep(Schedule(block, t - 2), Schedule(block, t - 7), Schedule(block, t - 15), Schedule(block, t - 16)))
  {
    hide ScheduleStep, BigEndian;
  }

  /** The schedule, filled in from left to right. */
  method FillSchedule(block: seq<Byte>) returns (w: array<Word>)
    requires |block| == BLOCK
    ensures fresh(w) && w.Length == 64 && forall t :: 0 <= t < 64 ==> w[t] == Schedule(block, t)
  {
    hide ScheduleStep, BigEndian, Schedule;
    w := new Word[64](i => 0);
    var i := 0;
    while i < 16
      invariant 0 <= i <= 16 && forall t :: 0 <= t < i ==> w[t] == Schedule(block, t)
    {
      ScheduleIs(block, i);
      w[i] := BigEndian(block[4 * i], block[4 * i + 1], block[4 * i + 2], block[4 * i + 3]);
      i := i + 1;
    }
    while i < 64
      invariant 16 <= i <= 64 && forall t :: 0 <= t < i ==> w[t] == Schedule(block, t)
    {
      ScheduleIs(block, i);
      w[i] := ScheduleStep(w[i - 2], w[i - 7], w[i - 15], w[i - 16]);
      i := i + 1;
    }
  }

  /** The rounds as LTC_SMALL_CODE runs them: one round, then all registers move up. */
  method RolledRounds(s: array<Word>, w: array<Word>, block: seq<Byte>)
    requires |block| == BLOCK && s.Length == 8 && w.Length == 64 && s != w
    requires forall t :: 0 <= t < 64 ==> w[t] == Schedule(block, t)
    modifies s
    ensures VarsOf(s[..]) == Rounds(VarsOf(old(s[..])), block, 64)
  {
    hide T0, T1, Round, Schedule, Constant, Plus;
    ghost var v := VarsOf(s[..]);
    var i := 0;
    while i < 64
      invariant 0 <= i <= 64 && VarsOf(s[..]) == Rounds(v, block, i)
    {
      RndIsRound(VarsOf(s[..]), Constant(i), w[i]);
      var t0 := T0(s[4], s[5], s[6], s[7], Constant(i), w[i]);
      var t1 := T1(s[0], s[1], s[2]);
      s[3] := Plus(s[3], t0);
      s[7] := Plus(t0, t1);
      var t := s[7];
      s[7] := s[6];
      s[6] := s[5];
      s[5] := s[4];
      s[4] := s[3];
      s[3] := s[2];
      s[2] := s[1];
      s[1] := s[0];
      s[0] := t;
      i := i + 1;
    }
  }

  /** RND on its eight registers: only d and h change. */
  method Rnd(v: Vars, k: Word, w: Word) returns (d: Word, h: Word)
    ensures Round(v, k, w) == Vars(h, v.a, v.b, v.c, d, v.e, v.f, v.g)
  {
    hide T0, T1, Round, Plus;
    RndIsRound(v, k, w);
    var t0 := T0(v.e, v.f, v.g, v.h, k, w);
    var t1 := T1(v.a, v.b, v.c);
    d := Plus(v.d, t0);
    h := Plus(t0, t1);
  }

  /** Eight unrolled rounds: instead of moving the registers, every round names them one place
      further on, until they are back where they were. */
  method EightRounds(v: Vars, w: array<Word>, i: nat, block: seq<Byte>, ghost start: Vars) returns (r: Vars)
    requires |block| == BLOCK && w.Length == 64 && i + 8 <= 64
    requires forall t :: 0 <= t < 64 ==> w[t] == Schedule(block, t)
    requires v == Rounds(start, block, i)
    ensures r == Rounds(start, block, i + 8)
  {
    hide Round, Schedule, Constant, Rounds;
    NextRounds(start, block, i);
    var s0, s1, s2, s3, s4, s5, s6, s7 := v.a, v.b, v.c, v.d, v.e, v.f, v.g, v.h;
    s3, s7 := Rnd(Vars(s0, s1, s2, s3, s4, s5, s6, s7), Constant(i), w[i]);
    s2, s6 := Rnd(Vars(s7, s0, s1, s2, s3, s4, s5, s6), Constant(i + 1), w[i + 1]);
    s1, s5 := Rnd(Vars(s6, s7, s0, s1, s2, s3, s4, s5), Constant(i + 2), w[i + 2]);
    s0, s4 := Rnd(Vars(s5, s6, s7, s0, s1, s2, s3, s4), Constant(i + 3), w[i + 3]);
    s7, s3 := Rnd(Vars(s4, s5, s6, s7, s0, s1, s2, s3), Constant(i + 4), w[i + 4]);
    s6, s2 := Rnd(Vars(s3, s4, s5, s6, s7, s0, s1, s2), Constant(i + 5), w[i + 5]);
    s5, s1 := Rnd(Vars(s2, s3, s4, s5, s6, s7, s0, s1), Constant(i + 6), w[i + 6]);
    s4, s0 := Rnd(Vars(s1, s2, s3, s4, s5, s6, s7, s0), Constant(i + 7), w[i + 7]);
    r := Vars(s0, s1, s2, s3, s4, s5, s6, s7);
  }

  /** The unrolled rounds. */
  method UnrolledRounds(s: array<Word>, w: array<Word>, block: seq<Byte>)
    requires |block| == BLOCK && s.Length == 8 && w.Length == 64 && s != w
    requires forall t :: 0 <= t < 64 ==> w[t] == Schedule(block, t)
    modifies s
    ensures VarsOf(s[..]) == Rounds(VarsOf(old(s[..])), block, 64)
  {
    hide Round, Schedule, Constant, Rounds;
    var v := Vars(s[0], s[1], s[2], s[3], s[4], s[5], s[6], s[7]);
    ghost var start := v;
    NoRounds(start, block);
    var i: nat := 0;
    while i < 64
      invariant i <= 64 && i % 8 == 0 && v == Rounds(start, block, i)
    {
      v := EightRounds(v, w, i, block, start);
      i := i + 8;
    }
    s[0], s[1], s[2], s[3], s[4], s[5], s[6], s[7] := v.a, v.b, v.c, v.d, v.e, v.f, v.g, v.h;
  }

  lemma NoRounds(v: Vars, block: seq<Byte>)
    requires |block| == BLOCK
    ensures Rounds(v, block, 0) == v
  {
  }

  lemma NextRounds(v: Vars, block: seq<Byte>, i: nat)
    requires |block| == BLOCK && i + 8 <= 64
    ensures forall j :: i <= j < i + 8 ==> Rounds(v, block, j + 1) == Round(Rounds(v, block, j), Constant(j), Schedule(block, j))
  {
    hide Round, Constant, Schedule;
  }

  /** The feedback: s is added to the state. */
  method Feedback(state: array<Word>, s: array<Word>)
    requires state.Length == 8 && s.Length == 8 && state != s
    modifies state
    ensures state[..] == Fedback(old(state[..]), VarsOf(s[..]))
  {
    hide Plus, Fedback, VarsOf;
    var i := 0;
    while i < 8
      invariant 0 <= i <= 8
      invariant forall k :: 0 <= k < i ==> state[k] == Plus(old(state[k]), s[k])
      invariant forall k :: i <= k < 8 ==> state[k] == old(state[k])
    {
      state[i] := Plus(state[i], s[i]);
      i := i + 1;
    }
    FedbackIs(old(state[..]), s[..], state[..]);
  }

  lemma FedbackIs(h: seq<Word>, s: seq<Word>, r: seq<Word>)
    requires |h| == 8 && |s| == 8 && |r| == 8 && forall k :: 0 <= k < 8 ==> r[k] == Plus(h[k], s[k])
    ensures r == Fedback(h, VarsOf(s))
  {
    hide Plus;
  }

  method CopyState(state: array<Word>) returns (s: array<Word>)
    requires state.Length == 8
    ensures fresh(s) && s.Length == 8 && s[..] == state[..]
  {
    s := new Word[8](i => 0);
    var i := 0;
    while i < 8
      invariant 0 <= i <= 8 && forall k :: 0 <= k < i ==> s[k] == state[k]
    {
      s[i] := state[i];
      i := i + 1;
    }
  }

  /** sha256_compress, by either form of the rounds. */
  method Compress(state: array<Word>, block: seq<Byte>, unrolled: bool)
    requires state.Length == 8 && |block| == BLOCK
    modifies state
    ensures state[..] == Compressed(old(state[..]), block)
  {
    hide Schedule, Rounds, Plus, Fedback, VarsOf;
    var s := CopyState(state);
    var w := FillSchedule(block);
    if unrolled { UnrolledRounds(s, w, block); } else { RolledRounds(s, w, block); }
    Feedback(state, s);
  }
}
