/** A known answer of SHA-256 (FIPS 180-4): the message "abc", which fills one block.  The words of the
    message schedule and the working variables after every round are those that the standard's
    definitions give, and so is the digest. */
module Sha256Example {
  import opened ByteStreams
  import opened Sha256Logic
  import opened Sha256
  import Sha256Values

  const ABC: seq<Byte> := [0x61, 0x62, 0x63]

  /** The message padded */
  function Block(): (b: seq<Byte>)
    ensures |b| == BLOCK
  {
    ABC + [0x80] + Zeros(59) + [24]
  }

  function Start(): Vars {
    Vars(0x6a09e667, 0xbb67ae85, 0x3c6ef372, 0xa54ff53a,
         0x510e527f, 0x9b05688c, 0x1f83d9ab, 0x5be0cd19)
  }

  // -----------------------------------------------------------------------------------------
  // The message schedule
  // -----------------------------------------------------------------------------------------

  /** Four words of the schedule */
  ghost predicate Words(b: seq<Byte>, t: nat, w0: Word, w1: Word, w2: Word, w3: Word) {
    && |b| == BLOCK && t + 4 <= 64 && Schedule(b, t) == w0 && Schedule(b, t + 1) == w1 && Schedule(b, t + 2) == w2
    && Schedule(b, t + 3) == w3
  }

  lemma MessageWords(b: seq<Byte>)
    requires b == Block()
    ensures Words(b, 0, 0x61626380, 0x00000000, 0x00000000, 0x00000000)
    ensures Words(b, 4, 0x00000000, 0x00000000, 0x00000000, 0x00000000)
    ensures Words(b, 8, 0x00000000, 0x00000000, 0x00000000, 0x00000000)
    ensures Words(b, 12, 0x00000000, 0x00000000, 0x00000000, 0x00000018)
  {
    hide Schedule, BigEndian;
    forall t: nat | t < 16 ensures Schedule(b, t) == BigEndian(b[4 * t], b[4 * t + 1], b[4 * t + 2], b[4 * t + 3]) {
      ScheduleIs(b, t);
    }
    WordsOfBlock();
  }

  lemma WordsOfBlock()
    ensures BigEndian(0x61, 0x62, 0x63, 0x80) == 0x61626380 && BigEndian(0, 0, 0, 0) == 0 && BigEndian(0, 0, 0, 24) == 24
  {
  }

  lemma FirstWords(b: seq<Byte>)
    requires |b| == BLOCK
    requires Words(b, 0, 0x61626380, 0x00000000, 0x00000000, 0x00000000)
    requires Words(b, 4, 0x00000000, 0x00000000, 0x00000000, 0x00000000)
    requires Words(b, 8, 0x00000000, 0x00000000, 0x00000000, 0x00000000)
    requires Words(b, 12, 0x00000000, 0x00000000, 0x00000000, 0x00000018)
    ensures Words(b, 16, 0x61626380, 0x000f0000, 0x7da86405, 0x600003c6)
    ensures Words(b, 20, 0x3e9d7b78, 0x0183fc00, 0x12dcbfdb, 0xe2e2c38e)
    ensures Words(b, 24, 0xc8215c1a, 0xb73679a2, 0xe5bc3909, 0x32663c5b)
    ensures Words(b, 28, 0x9d209d67, 0xec8726cb, 0x702138a4, 0xd3b7973b)
  {
    hide Schedule;
    ScheduleWord(b, 16, 0x61626380);
    ScheduleWord(b, 17, 0x000f0000);
    ScheduleWord(b, 18, 0x7da86405);
    ScheduleWord(b, 19, 0x600003c6);
    ScheduleWord(b, 20, 0x3e9d7b78);
    ScheduleWord(b, 21, 0x0183fc00);
    ScheduleWord(b, 22, 0x12dcbfdb);
    ScheduleWord(b, 23, 0xe2e2c38e);
    ScheduleWord(b, 24, 0xc8215c1a);
    ScheduleWord(b, 25, 0xb73679a2);
    ScheduleWord(b, 26, 0xe5bc3909);
    ScheduleWord(b, 27, 0x32663c5b);
    ScheduleWord(b, 28, 0x9d209d67);
    ScheduleWord(b, 29, 0xec8726cb);
    ScheduleWord(b, 30, 0x702138a4);
    ScheduleWord(b, 31, 0xd3b7973b);
  }

  lemma MiddleWords(b: seq<Byte>)
    requires |b| == BLOCK
    requires Words(b, 16, 0x61626380, 0x000f0000, 0x7da86405, 0x600003c6)
    requires Words(b, 20, 0x3e9d7b78, 0x0183fc00, 0x12dcbfdb, 0xe2e2c38e)
    requires Words(b, 24, 0xc8215c1a, 0xb73679a2, 0xe5bc3909, 0x32663c5b)
    requires Words(b, 28, 0x9d209d67, 0xec8726cb, 0x702138a4, 0xd3b7973b)
    ensures Words(b, 32, 0x93f5997f, 0x3b68ba73, 0xaff4ffc1, 0xf10a5c62)
    ensures Words(b, 36, 0x0a8b3996, 0x72af830a, 0x9409e33e, 0x24641522)
    ensures Words(b, 40, 0x9f47bf94, 0xf0a64f5a, 0x3e246a79, 0x27333ba3)
    ensures Words(b, 44, 0x0c4763f2, 0x840abf27, 0x7a290d5d, 0x065c43da)
  {
    hide Schedule;
    ScheduleWord(b, 32, 0x93f5997f);
    ScheduleWord(b, 33, 0x3b68ba73);
    ScheduleWord(b, 34, 0xaff4ffc1);
    ScheduleWord(b, 35, 0xf10a5c62);
    ScheduleWord(b, 36, 0x0a8b3996);
    ScheduleWord(b, 37, 0x72af830a);
    ScheduleWord(b, 38, 0x9409e33e);
    ScheduleWord(b, 39, 0x24641522);
    ScheduleWord(b, 40, 0x9f47bf94);
    ScheduleWord(b, 41, 0xf0a64f5a);
    ScheduleWord(b, 42, 0x3e246a79);
    ScheduleWord(b, 43, 0x27333ba3);
    ScheduleWord(b, 44, 0x0c4763f2);
    ScheduleWord(b, 45, 0x840abf27);
    ScheduleWord(b, 46, 0x7a290d5d);
    ScheduleWord(b, 47, 0x065c43da);
  }

  lemma LastWords(b: seq<Byte>)
    requires |b| == BLOCK
    requires Words(b, 32, 0x93f5997f, 0x3b68ba73, 0xaff4ffc1, 0xf10a5c62)
    requires Words(b, 36, 0x0a8b3996, 0x72af830a, 0x9409e33e, 0x24641522)
    requires Words(b, 40, 0x9f47bf94, 0xf0a64f5a, 0x3e246a79, 0x27333ba3)
    requires Words(b, 44, 0x0c4763f2, 0x840abf27, 0x7a290d5d, 0x065c43da)
    ensures Words(b, 48, 0xfb3e89cb, 0xcc7617db, 0xb9e66c34, 0xa9993667)
    ensures Words(b, 52, 0x84badedd, 0xc21462bc, 0x1487472c, 0xb20f7a99)
    ensures Words(b, 56, 0xef57b9cd, 0xebe6b238, 0x9fe3095e, 0x78bc8d4b)
    ensures Words(b, 60, 0xa43fcf15, 0x668b2ff8, 0xeeaba2cc, 0x12b1edeb)
  {
    hide Schedule;
    ScheduleWord(b, 48, 0xfb3e89cb);
    ScheduleWord(b, 49, 0xcc7617db);
    ScheduleWord(b, 50, 0xb9e66c34);
    ScheduleWord(b, 51, 0xa9993667);
    ScheduleWord(b, 52, 0x84badedd);
    ScheduleWord(b, 53, 0xc21462bc);
    ScheduleWord(b, 54, 0x1487472c);
    ScheduleWord(b, 55, 0xb20f7a99);
    ScheduleWord(b, 56, 0xef57b9cd);
    ScheduleWord(b, 57, 0xebe6b238);
    ScheduleWord(b, 58, 0x9fe3095e);
    ScheduleWord(b, 59, 0x78bc8d4b);
    ScheduleWord(b, 60, 0xa43fcf15);
    ScheduleWord(b, 61, 0x668b2ff8);
    ScheduleWord(b, 62, 0xeeaba2cc);
    ScheduleWord(b, 63, 0x12b1edeb);
  }

  lemma ScheduleWord(b: seq<Byte>, t: nat, w: Word)
    requires |b| == BLOCK && 16 <= t < 64
    requires ScheduleStep(Schedule(b, t - 2), Schedule(b, t - 7), Schedule(b, t - 15), Schedule(b, t - 16)) == w
    ensures Schedule(b, t) == w
  {
    hide Schedule, ScheduleStep;
    ScheduleIs(b, t);
  }

  // -----------------------------------------------------------------------------------------
  // The rounds
  // -----------------------------------------------------------------------------------------

  /** One round, which brings in two new variables. */
  lemma Pass(b: seq<Byte>, t: nat, v: Vars, k: Word, w: Word, a: Word, e: Word) returns (n: Vars)
    requires |b| == BLOCK && t < 64 && Rounds(Start(), b, t) == v && Constant(t) == k && Schedule(b, t) == w
    requires Round(v, k, w) == Vars(a, v.a, v.b, v.c, e, v.e, v.f, v.g)
    ensures n == Vars(a, v.a, v.b, v.c, e, v.e, v.f, v.g) && Rounds(Start(), b, t + 1) == n
  {
    hide Round, Schedule, Constant, Start;
    n := Round(v, k, w);
  }

  lemma Passes1(b: seq<Byte>)
    requires |b| == BLOCK && Rounds(Start(), b, 0) ==
            Vars(0x6a09e667, 0xbb67ae85, 0x3c6ef372, 0xa54ff53a,
                 0x510e527f, 0x9b05688c, 0x1f83d9ab, 0x5be0cd19)
    requires Words(b, 0, 0x61626380, 0x00000000, 0x00000000, 0x00000000)
    requires Words(b, 4, 0x00000000, 0x00000000, 0x00000000, 0x00000000)
    ensures Rounds(Start(), b, 8) ==
            Vars(0x85a07b5f, 0xe5030380, 0x2b4209f5, 0x04409a6a,
                 0x0c657a79, 0x9b27a401, 0x714260ad, 0x43ada245)
  {
    hide Rounds, Schedule, Constant, Start;
    Sha256Values.Constants1();
    var v := Rounds(Start(), b, 0);
    v := Pass(b, 0, v, 0x428a2f98, 0x61626380, 0x5d6aebcd, 0xfa2a4622);
    v := Pass(b, 1, v, 0x71374491, 0x00000000, 0x5a6ad9ad, 0x78ce7989);
    v := Pass(b, 2, v, 0xb5c0fbcf, 0x00000000, 0xc8c347a7, 0xf92939eb);
    v := Pass(b, 3, v, 0xe9b5dba5, 0x00000000, 0xd550f666, 0x24e00850);
    v := Pass(b, 4, v, 0x3956c25b, 0x00000000, 0x04409a6a, 0x43ada245);
    v := Pass(b, 5, v, 0x59f111f1, 0x00000000, 0x2b4209f5, 0x714260ad);
    v := Pass(b, 6, v, 0x923f82a4, 0x00000000, 0xe5030380, 0x9b27a401);
    v := Pass(b, 7, v, 0xab1c5ed5, 0x00000000, 0x85a07b5f, 0x0c657a79);
  }

  lemma Passes2(b: seq<Byte>)
    requires |b| == BLOCK && Rounds(Start(), b, 8) ==
            Vars(0x85a07b5f, 0xe5030380, 0x2b4209f5, 0x04409a6a,
                 0x0c657a79, 0x9b27a401, 0x714260ad, 0x43ada245)
    requires Words(b, 8, 0x00000000, 0x00000000, 0x00000000, 0x00000000)
    requires Words(b, 12, 0x00000000, 0x00000000, 0x00000000, 0x00000018)
    ensures Rounds(Start(), b, 16) ==
            Vars(0xb0fa238e, 0xc0645fde, 0xd932eb16, 0x87912990,
                 0x07590dcd, 0x0b92f20c, 0x745a48de, 0x1e578218)
  {
    hide Rounds, Schedule, Constant, Start;
    Sha256Values.Constants1();
    var v := Rounds(Start(), b, 8);
    v := Pass(b, 8, v, 0xd807aa98, 0x00000000, 0x8e04ecb9, 0x32ca2d8c);
    v := Pass(b, 9, v, 0x12835b01, 0x00000000, 0x8c87346b, 0x1cc92596);
    v := Pass(b, 10, v, 0x243185be, 0x00000000, 0x4798a3f4, 0x436b23e8);
    v := Pass(b, 11, v, 0x550c7dc3, 0x00000000, 0xf71fc5a9, 0x816fd6e9);
    v := Pass(b, 12, v, 0x72be5d74, 0x00000000, 0x87912990, 0x1e578218);
    v := Pass(b, 13, v, 0x80deb1fe, 0x00000000, 0xd932eb16, 0x745a48de);
    v := Pass(b, 14, v, 0x9bdc06a7, 0x00000000, 0xc0645fde, 0x0b92f20c);
    v := Pass(b, 15, v, 0xc19bf174, 0x00000018, 0xb0fa238e, 0x07590dcd);
  }

  lemma Passes3(b: seq<Byte>)
    requires |b| == BLOCK && Rounds(Start(), b, 16) ==
            Vars(0xb0fa238e, 0xc0645fde, 0xd932eb16, 0x87912990,
                 0x07590dcd, 0x0b92f20c, 0x745a48de, 0x1e578218)
    requires Words(b, 16, 0x61626380, 0x000f0000, 0x7da86405, 0x600003c6)
    requires Words(b, 20, 0x3e9d7b78, 0x0183fc00, 0x12dcbfdb, 0xe2e2c38e)
    ensures Rounds(Start(), b, 24) ==
            Vars(0xc5d53d8d, 0xa7a3623f, 0xc2606d6d, 0x9dc68b63,
                 0xaa47c347, 0x49f5114a, 0xe1257970, 0x8ada8930)
  {
    hide Rounds, Schedule, Constant, Start;
    Sha256Values.Constants2();
    var v := Rounds(Start(), b, 16);
    v := Pass(b, 16, v, 0xe49b69c1, 0x61626380, 0x21da9a9b, 0x8034229c);
    v := Pass(b, 17, v, 0xefbe4786, 0x000f0000, 0xc2fbd9d1, 0x846ee454);
    v := Pass(b, 18, v, 0x0fc19dc6, 0x7da86405, 0xfe777bbf, 0xcc899961);
    v := Pass(b, 19, v, 0x240ca1cc, 0x600003c6, 0xe1f20c33, 0xb0638179);
    v := Pass(b, 20, v, 0x2de92c6f, 0x3e9d7b78, 0x9dc68b63, 0x8ada8930);
    v := Pass(b, 21, v, 0x4a7484aa, 0x0183fc00, 0xc2606d6d, 0xe1257970);
    v := Pass(b, 22, v, 0x5cb0a9dc, 0x12dcbfdb, 0xa7a3623f, 0x49f5114a);
    v := Pass(b, 23, v, 0x76f988da, 0xe2e2c38e, 0xc5d53d8d, 0xaa47c347);
  }

  lemma Passes4(b: seq<Byte>)
    requires |b| == BLOCK && Rounds(Start(), b, 24) ==
            Vars(0xc5d53d8d, 0xa7a3623f, 0xc2606d6d, 0x9dc68b63,
                 0xaa47c347, 0x49f5114a, 0xe1257970, 0x8ada8930)
    requires Words(b, 24, 0xc8215c1a, 0xb73679a2, 0xe5bc3909, 0x32663c5b)
    requires Words(b, 28, 0x9d209d67, 0xec8726cb, 0x702138a4, 0xd3b7973b)
    ensures Rounds(Start(), b, 32) ==
            Vars(0x73b33bf5, 0xea992a22, 0xa0060b30, 0x363482c9,
                 0xba591112, 0x0109ab3a, 0xade79437, 0x6112a3b7)
  {
    hide Rounds, Schedule, Constant, Start;
    Sha256Values.Constants2();
    var v := Rounds(Start(), b, 24);
    v := Pass(b, 24, v, 0x983e5152, 0xc8215c1a, 0x1c2c2838, 0x2823ef91);
    v := Pass(b, 25, v, 0xa831c66d, 0xb73679a2, 0xcde8037d, 0x14383d8e);
    v := Pass(b, 26, v, 0xb00327c8, 0xe5bc3909, 0xb62ec4bc, 0xc74c6516);
    v := Pass(b, 27, v, 0xbf597fc7, 0x32663c5b, 0x77d37528, 0xedffbff8);
    v := Pass(b, 28, v, 0xc6e00bf3, 0x9d209d67, 0x363482c9, 0x6112a3b7);
    v := Pass(b, 29, v, 0xd5a79147, 0xec8726cb, 0xa0060b30, 0xade79437);
    v := Pass(b, 30, v, 0x06ca6351, 0x702138a4, 0xea992a22, 0x0109ab3a);
    v := Pass(b, 31, v, 0x14292967, 0xd3b7973b, 0x73b33bf5, 0xba591112);
  }

  lemma Passes5(b: seq<Byte>)
    requires |b| == BLOCK && Rounds(Start(), b, 32) ==
            Vars(0x73b33bf5, 0xea992a22, 0xa0060b30, 0x363482c9,
                 0xba591112, 0x0109ab3a, 0xade79437, 0x6112a3b7)
    requires Words(b, 32, 0x93f5997f, 0x3b68ba73, 0xaff4ffc1, 0xf10a5c62)
    requires Words(b, 36, 0x0a8b3996, 0x72af830a, 0x9409e33e, 0x24641522)
    ensures Rounds(Start(), b, 40) ==
            Vars(0x79ea687a, 0x6dc57a8a, 0x34df1604, 0x41a65cb1,
                 0x1efbc0a0, 0xf0781bc8, 0xa507a53d, 0x0772a26b)
  {
    hide Rounds, Schedule, Constant, Start;
    Sha256Values.Constants3();
    var v := Rounds(Start(), b, 32);
    v := Pass(b, 32, v, 0x27b70a85, 0x93f5997f, 0x98e12507, 0x9cd9f5f6);
    v := Pass(b, 33, v, 0x2e1b2138, 0x3b68ba73, 0xfe604df5, 0x59249dd3);
    v := Pass(b, 34, v, 0x4d2c6dfc, 0xaff4ffc1, 0xa9a7738c, 0x085f3833);
    v := Pass(b, 35, v, 0x53380d13, 0xf10a5c62, 0x65a0cfe4, 0xf4b002d6);
    v := Pass(b, 36, v, 0x650a7354, 0x0a8b3996, 0x41a65cb1, 0x0772a26b);
    v := Pass(b, 37, v, 0x766a0abb, 0x72af830a, 0x34df1604, 0xa507a53d);
    v := Pass(b, 38, v, 0x81c2c92e, 0x9409e33e, 0x6dc57a8a, 0xf0781bc8);
    v := Pass(b, 39, v, 0x92722c85, 0x24641522, 0x79ea687a, 0x1efbc0a0);
  }

  lemma Passes6(b: seq<Byte>)
    requires |b| == BLOCK && Rounds(Start(), b, 40) ==
            Vars(0x79ea687a, 0x6dc57a8a, 0x34df1604, 0x41a65cb1,
                 0x1efbc0a0, 0xf0781bc8, 0xa507a53d, 0x0772a26b)
    requires Words(b, 40, 0x9f47bf94, 0xf0a64f5a, 0x3e246a79, 0x27333ba3)
    requires Words(b, 44, 0x0c4763f2, 0x840abf27, 0x7a290d5d, 0x065c43da)
    ensures Rounds(Start(), b, 48) ==
            Vars(0x4172328d, 0xa14c14b0, 0x72ab4b91, 0x26628815,
                 0xfecf0bc6, 0xd57b94a9, 0xb7755da1, 0xa80f11f0)
  {
    hide Rounds, Schedule, Constant, Start;
    Sha256Values.Constants3();
    var v := Rounds(Start(), b, 40);
    v := Pass(b, 40, v, 0xa2bfe8a1, 0x9f47bf94, 0xd6670766, 0x26352d63);
    v := Pass(b, 41, v, 0xa81a664b, 0xf0a64f5a, 0xdf46652f, 0x838b2711);
    v := Pass(b, 42, v, 0xc24b8b70, 0x3e246a79, 0x17aa0dfe, 0xdecd4715);
    v := Pass(b, 43, v, 0xc76c51a3, 0x27333ba3, 0x9d4baf93, 0xfda24c2e);
    v := Pass(b, 44, v, 0xd192e819, 0x0c4763f2, 0x26628815, 0xa80f11f0);
    v := Pass(b, 45, v, 0xd6990624, 0x840abf27, 0x72ab4b91, 0xb7755da1);
    v := Pass(b, 46, v, 0xf40e3585, 0x7a290d5d, 0xa14c14b0, 0xd57b94a9);
    v := Pass(b, 47, v, 0x106aa070, 0x065c43da, 0x4172328d, 0xfecf0bc6);
  }

  lemma Passes7(b: seq<Byte>)
    requires |b| == BLOCK && Rounds(Start(), b, 48) ==
            Vars(0x4172328d, 0xa14c14b0, 0x72ab4b91, 0x26628815,
                 0xfecf0bc6, 0xd57b94a9, 0xb7755da1, 0xa80f11f0)
    requires Words(b, 48, 0xfb3e89cb, 0xcc7617db, 0xb9e66c34, 0xa9993667)
    requires Words(b, 52, 0x84badedd, 0xc21462bc, 0x1487472c, 0xb20f7a99)
    ensures Rounds(Start(), b, 56) ==
            Vars(0x38cc9913, 0x3ec45cdb, 0xf5702fdb, 0x101fd28f,
                 0x54cb266b, 0xe50e1b4f, 0x9f4787c3, 0x529e7d00)
  {
    hide Rounds, Schedule, Constant, Start;
    Sha256Values.Constants4();
    var v := Rounds(Start(), b, 48);
    v := Pass(b, 48, v, 0x19a4c116, 0xfb3e89cb, 0x05757ceb, 0xbd714038);
    v := Pass(b, 49, v, 0x1e376c08, 0xcc7617db, 0xf11bfaa8, 0x6e5c390c);
    v := Pass(b, 50, v, 0x2748774c, 0xb9e66c34, 0x7a0508a1, 0x52f1ccf7);
    v := Pass(b, 51, v, 0x34b0bcb5, 0xa9993667, 0x886e7a22, 0x49231c1e);
    v := Pass(b, 52, v, 0x391c0cb3, 0x84badedd, 0x101fd28f, 0x529e7d00);
    v := Pass(b, 53, v, 0x4ed8aa4a, 0xc21462bc, 0xf5702fdb, 0x9f4787c3);
    v := Pass(b, 54, v, 0x5b9cca4f, 0x1487472c, 0x3ec45cdb, 0xe50e1b4f);
    v := Pass(b, 55, v, 0x682e6ff3, 0xb20f7a99, 0x38cc9913, 0x54cb266b);
  }

  lemma Passes8(b: seq<Byte>)
    requires |b| == BLOCK && Rounds(Start(), b, 56) ==
            Vars(0x38cc9913, 0x3ec45cdb, 0xf5702fdb, 0x101fd28f,
                 0x54cb266b, 0xe50e1b4f, 0x9f4787c3, 0x529e7d00)
    requires Words(b, 56, 0xef57b9cd, 0xebe6b238, 0x9fe3095e, 0x78bc8d4b)
    requires Words(b, 60, 0xa43fcf15, 0x668b2ff8, 0xeeaba2cc, 0x12b1edeb)
    ensures Rounds(Start(), b, 64) ==
            Vars(0x506e3058, 0xd39a2165, 0x04d24d6c, 0xb85e2ce9,
                 0x5ef50f24, 0xfb121210, 0x948d25b6, 0x961f4894)
  {
    hide Rounds, Schedule, Constant, Start;
    Sha256Values.Constants4();
    var v := Rounds(Start(), b, 56);
    v := Pass(b, 56, v, 0x748f82ee, 0xef57b9cd, 0xfcd1887b, 0x9b5e906c);
    v := Pass(b, 57, v, 0x78a5636f, 0xebe6b238, 0xc062d46f, 0x7e44008e);
    v := Pass(b, 58, v, 0x84c87814, 0x9fe3095e, 0xffb70472, 0x6d83bfc6);
    v := Pass(b, 59, v, 0x8cc70208, 0x78bc8d4b, 0xb6ae8fff, 0xb21bad3d);
    v := Pass(b, 60, v, 0x90befffa, 0xa43fcf15, 0xb85e2ce9, 0x961f4894);
    v := Pass(b, 61, v, 0xa4506ceb, 0x668b2ff8, 0x04d24d6c, 0x948d25b6);
    v := Pass(b, 62, v, 0xbef9a3f7, 0xeeaba2cc, 0xd39a2165, 0xfb121210);
    v := Pass(b, 63, v, 0xc67178f2, 0x12b1edeb, 0x506e3058, 0x5ef50f24);
  }

  // -----------------------------------------------------------------------------------------
  // The digest
  // -----------------------------------------------------------------------------------------

  lemma AllPasses(b: seq<Byte>)
    requires b == Block()
    ensures Rounds(Start(), b, 64) ==
            Vars(0x506e3058, 0xd39a2165, 0x04d24d6c, 0xb85e2ce9,
                 0x5ef50f24, 0xfb121210, 0x948d25b6, 0x961f4894)
  {
    hide Rounds, Schedule;
    NoRounds(Start(), b);
    MessageWords(b);
    FirstWords(b);
    MiddleWords(b);
    LastWords(b);
    Passes1(b);
    Passes2(b);
    Passes3(b);
    Passes4(b);
    Passes5(b);
    Passes6(b);
    Passes7(b);
    Passes8(b);
  }

  /** The hash value after the block */
  lemma BlockCompressed()
    ensures Compressed(INITIAL, Block()) ==
            [0xba7816bf, 0x8f01cfea, 0x414140de, 0x5dae2223,
             0xb00361a3, 0x96177a9c, 0xb410ff61, 0xf20015ad]
  {
    hide Rounds;
    AllPasses(Block());
  }

  lemma PaddedAbc()
    ensures Padded(ABC) == Block()
  {
    hide Length64;
    Sha256Values.ShortLength(24);
    TwentyFour();
  }

  lemma TwentyFour()
    ensures LowByte(24) == 24
  {
  }

  /** The digest of "abc" */
  lemma HashAbc()
    ensures Hash(ABC) ==
            [0xba, 0x78, 0x16, 0xbf, 0x8f, 0x01, 0xcf, 0xea, 0x41, 0x41, 0x40, 0xde, 0x5d, 0xae, 0x22, 0x23,
             0xb0, 0x03, 0x61, 0xa3, 0x96, 0x17, 0x7a, 0x9c, 0xb4, 0x10, 0xff, 0x61, 0xf2, 0x00, 0x15, 0xad]
  {
    hide Compressed, Digest, Padded, WordBytes, Block, Hash;
    PaddedAbc();
    BlockCompressed();
    OneBlock(ABC, Block());
    DigestOf(Compressed(INITIAL, Block()));
    DigestBytes();
  }

  lemma OneBlock(m: seq<Byte>, b: seq<Byte>)
    requires Padded(m) == b && |b| == BLOCK
    ensures Hash(m) == Digest(Compressed(INITIAL, b))
  {
    hide Compressed, Digest, Padded;
    assert b[..BLOCK] == b && b[BLOCK..] == [];
    assert HashBlocks(Compressed(INITIAL, b), []) == Compressed(INITIAL, b);
  }

  lemma DigestOf(h: seq<Word>)
    requires |h| == 8
    ensures Digest(h) == WordBytes(h[0]) + (WordBytes(h[1]) + (WordBytes(h[2]) + (WordBytes(h[3]) + (WordBytes(h[4])
                         + (WordBytes(h[5]) + (WordBytes(h[6]) + (WordBytes(h[7]) + [])))))))
  {
    hide *;
    var t: seq<Byte> := [];
    NoDigest(h[8..]);
    DigestFrom(h, 7, t);
    t := WordBytes(h[7]) + t;
    DigestFrom(h, 6, t);
    t := WordBytes(h[6]) + t;
    DigestFrom(h, 5, t);
    t := WordBytes(h[5]) + t;
    DigestFrom(h, 4, t);
    t := WordBytes(h[4]) + t;
    DigestFrom(h, 3, t);
    t := WordBytes(h[3]) + t;
    DigestFrom(h, 2, t);
    t := WordBytes(h[2]) + t;
    DigestFrom(h, 1, t);
    t := WordBytes(h[1]) + t;
    DigestFrom(h, 0, t);
    Whole(h);
  }

  lemma Whole(h: seq<Word>)
    ensures h[0..] == h
  {
  }

  lemma NoDigest(h: seq<Word>)
    requires h == []
    ensures Digest(h) == []
  {
  }

  lemma DigestFrom(h: seq<Word>, k: nat, rest: seq<Byte>)
    requires k < |h| && Digest(h[k + 1..]) == rest
    ensures Digest(h[k..]) == WordBytes(h[k]) + rest
  {
    hide WordBytes;
    assert h[k..][1..] == h[k + 1..];
  }

  lemma DigestBytes()
    ensures WordBytes(0xba7816bf) == [0xba, 0x78, 0x16, 0xbf]
    ensures WordBytes(0x8f01cfea) == [0x8f, 0x01, 0xcf, 0xea]
    ensures WordBytes(0x414140de) == [0x41, 0x41, 0x40, 0xde]
    ensures WordBytes(0x5dae2223) == [0x5d, 0xae, 0x22, 0x23]
    ensures WordBytes(0xb00361a3) == [0xb0, 0x03, 0x61, 0xa3]
    ensures WordBytes(0x96177a9c) == [0x96, 0x17, 0x7a, 0x9c]
    ensures WordBytes(0xb410ff61) == [0xb4, 0x10, 0xff, 0x61]
    ensures WordBytes(0xf20015ad) == [0xf2, 0x00, 0x15, 0xad]
  {
  }

}
