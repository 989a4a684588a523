/** RAM as bytes: what loads and stores of 1, 2 and 4 bytes, which act on words here, mean for the
    single bytes of RAM. */
module MemoryBytes {
  import opened PhysMemory
  import opened Wrappers
  import opened Sv32
  import opened Tlb
  import opened TlbCoherence
  import opened StoredWords
  import Arith

  // -----------------------------------------------------------------------------------------
  // Bytes of words
  // -----------------------------------------------------------------------------------------

  function ByteIn(w: nat, k: nat): (b: nat)
    ensures b < 256
  {
    Arith.Quotient(w, Arith.Pow2(8 * k)) % 256
  }

  /** The `size` bytes of a word from byte `at` on. */
  function Extracted(w: nat, at: nat, size: nat): nat {
    Arith.Quotient(w, Arith.Pow2(8 * at)) % Arith.Pow2(8 * size)
  }

  lemma ByteInIs(w: nat, k: nat, q: nat)
    requires q == w / Arith.Pow2(8 * k)
    ensures ByteIn(w, k) == q % 256
  {
  }

  lemma Pow256(n: nat)
    ensures Arith.Pow2(8 * (n + 1)) == 256 * Arith.Pow2(8 * n)
  {
    Arith.Pow2Add(8, 8 * n);
    assert Arith.Pow2(8) == 256;
  }

  /** Bytes below those that something is added to. */
  lemma LowBytes(h: nat, l: nat, k: nat, n: nat, x: nat)
    requires k < n && x == h * Arith.Pow2(8 * n) + l
    ensures ByteIn(x, k) == ByteIn(l, k)
  {
    hide *;
    var b, r := Arith.Pow2(8 * k), Arith.Pow2(8 * (n - k - 1));
    var d, m := l / b, l % b;
    Arith.Pow2Add(8 * (n - k), 8 * k);
    Pow256(n - k - 1);
    Arith.DigitsRegrouped(h, 256 * r, d, b, m);
    Regrouped(h, r);
    Arith.DivUnique(x, b, h * (256 * r) + d, m);
    ByteInIs(x, k, h * (256 * r) + d);
    ByteInIs(l, k, d);
    Multiple256(h * r, d);
  }

  lemma Regrouped(h: nat, r: nat)
    ensures h * (256 * r) == 256 * (h * r)
  {
  }

  lemma Multiple256(e: nat, d: nat)
    ensures (256 * e + d) % 256 == d % 256
  {
  }

  /** Bytes of what is left when the lowest m bytes are dropped. */
  lemma HighBytes(x: nat, m: nat, k: nat, y: nat)
    requires y == x / Arith.Pow2(8 * m)
    ensures ByteIn(y, k) == ByteIn(x, m + k)
  {
    hide *;
    var a, b := Arith.Pow2(8 * m), Arith.Pow2(8 * k);
    var d, r, q := y / b, y % b, x % a;
    Arith.Pow2Add(8 * k, 8 * m);
    Arith.DigitsRegrouped(d, b, r, a, q);
    RestFits(r, b, a, q);
    Arith.DivUnique(x, b * a, d, r * a + q);
    ByteInIs(y, k, d);
    ByteInIs(x, m + k, d);
  }

  lemma RestFits(r: nat, b: nat, a: nat, q: nat)
    requires r < b && q < a
    ensures 0 <= r * a + q < b * a
  {
    Arith.MulLe(r + 1, b, a);
    Arith.MulDist(r, 1, a);
  }

  /** The bytes of what is loaded. */
  lemma ExtractedBytes(w: nat, at: nat, size: nat, k: nat)
    requires k < size
    ensures ByteIn(Extracted(w, at, size), k) == ByteIn(w, at + k)
  {
    hide *;
    ExtractedIs(w, at, size);
    LowPart(Arith.Quotient(w, Arith.Pow2(8 * at)), Arith.Pow2(8 * size), size, k);
    HighBytes(w, at, k, Arith.Quotient(w, Arith.Pow2(8 * at)));
  }

  lemma LowPart(y: nat, s: nat, size: nat, k: nat)
    requires k < size && s == Arith.Pow2(8 * size)
    ensures ByteIn(y % s, k) == ByteIn(y, k)
  {
    hide *;
    LowBytes(y / s, y % s, k, size, y);
  }

  lemma ExtractedIs(w: nat, at: nat, size: nat)
    ensures Extracted(w, at, size) == Arith.Quotient(w, Arith.Pow2(8 * at)) % Arith.Pow2(8 * size) < Arith.Pow2(8 * size)
  {
  }

  /** A store into a word replaces the bytes stored and keeps the others. */
  lemma InsertedBytes(w: nat, at: nat, size: nat, val: nat, j: nat)
    ensures ByteIn(Inserted(w, at, size, val), j) == if at <= j < at + size then ByteIn(val, j - at) else ByteIn(w, j)
  {
    hide *;
    var x, a, s, sa := Inserted(w, at, size, val), Arith.Pow2(8 * at), Arith.Pow2(8 * size), Arith.Pow2(8 * (at + size));
    var h, v, l := w / sa, val % s, w % a;
    InsertedIs(w, at, size, val);
    Arith.Pow2Add(8 * size, 8 * at);
    if j < at {
      LowerByte(x, w, h, v, l, at, a, s, sa, j);
    } else if j < at + size {
      MiddleByte(x, h, val, v, l, at, size, a, s, sa, j);
    } else {
      RestFits(v, s, a, l);
      UpperByte(x, w, h, v * a + l, at + size, sa, j);
    }
  }

  lemma LowerByte(x: nat, w: nat, h: nat, v: nat, l: nat, at: nat, a: nat, s: nat, sa: nat, j: nat)
    requires a == Arith.Pow2(8 * at) && l == w % a && sa == s * a && x == h * sa + v * a + l && j < at
    ensures ByteIn(x, j) == ByteIn(w, j)
  {
    hide *;
    Arith.DigitsRegrouped(h, s, v, a, l);
    LowBytes(h * s + v, l, j, at, x);
    LowPart(w, a, at, j);
  }

  lemma MiddleByte(x: nat, h: nat, val: nat, v: nat, l: nat, at: nat, size: nat, a: nat, s: nat, sa: nat, j: nat)
    requires a == Arith.Pow2(8 * at) && s == Arith.Pow2(8 * size) && v == val % s && l < a
    requires sa == s * a && x == h * sa + v * a + l && at <= j < at + size
    ensures ByteIn(x, j) == ByteIn(val, j - at)
  {
    hide *;
    var y := h * s + v;
    Arith.DigitsRegrouped(h, s, v, a, l);
    Arith.DivUnique(x, a, y, l);
    HighBytes(x, at, j - at, y);
    LowBytes(h, v, j - at, size, y);
    LowPart(val, s, size, j - at);
  }

  lemma UpperByte(x: nat, w: nat, h: nat, rest: nat, n: nat, sa: nat, j: nat)
    requires sa == Arith.Pow2(8 * n) && h == w / sa && x == h * sa + rest && rest < sa && j >= n
    ensures ByteIn(x, j) == ByteIn(w, j)
  {
    hide *;
    Arith.DivUnique(x, sa, h, rest);
    HighBytes(x, n, j - n, h);
    HighBytes(w, n, j - n, h);
  }

  /** Numbers of n bytes are told apart by their bytes. */
  lemma {:induction false} SameBytes(x: nat, y: nat, n: nat)
    requires x < Arith.Pow2(8 * n) && y < Arith.Pow2(8 * n) && forall k: nat :: k < n ==> ByteIn(x, k) == ByteIn(y, k)
    ensures x == y
    decreases n
  {
    hide *;
    PowZeros();
    if n > 0 {
      Pow256(n - 1);
      ByteInIs(x, 0, x);
      ByteInIs(y, 0, y);
      assert ByteIn(x, 0) == ByteIn(y, 0);
      forall k: nat | k < n - 1 ensures ByteIn(x / 256, k) == ByteIn(y / 256, k) {
        HighBytes(x, 1, k, x / 256);
        HighBytes(y, 1, k, y / 256);
        assert ByteIn(x, k + 1) == ByteIn(y, k + 1);
      }
      SameBytes(x / 256, y / 256, n - 1);
    }
  }

  lemma PowZeros()
    ensures Arith.Pow2(8 * 0) == 1 && Arith.Pow2(8 * 1) == 256 && forall x: nat :: x / 1 == x
  {
    Pow256(0);
  }

  // -----------------------------------------------------------------------------------------
  // Bytes of RAM
  // -----------------------------------------------------------------------------------------

  function ByteOf(rs: seq<Range>, l: Location): nat {
    if l.range < |rs| then ByteIn(WordIn(rs[l.range], l.offset), l.offset % 4) else 0
  }

  /** What an aligned load of `size` bytes at l delivers. */
  function Loaded(rs: seq<Range>, l: Location, size: nat): nat
    requires l.range < |rs|
  {
    Extracted(WordIn(rs[l.range], l.offset), l.offset % 4, size)
  }

  /** An aligned access of `size` bytes at l lies in one word of the range. */
  predicate InWord(rs: seq<Range>, l: Location, size: nat) {
    l.range < |rs| && AccessSize(size) && l.offset % size == 0 && l.offset / 4 < |rs[l.range].words|
  }

  lemma SameWord(o: nat, size: nat, k: nat)
    requires AccessSize(size) && o % size == 0 && k < size
    ensures (o + k) / 4 == o / 4 && (o + k) % 4 == o % 4 + k && o % 4 + size <= 4
  {
  }

  lemma LoadedBytes(rs: seq<Range>, l: Location, size: nat, k: nat)
    requires InWord(rs, l, size) && k < size
    ensures ByteIn(Loaded(rs, l, size), k) == ByteOf(rs, Location(l.range, l.offset + k))
    ensures Loaded(rs, l, size) < Arith.Pow2(8 * size)
  {
    hide Extracted, ByteIn, Arith.Pow2;
    SameWord(l.offset, size, k);
    ExtractedIs(WordIn(rs[l.range], l.offset), l.offset % 4, size);
    ExtractedBytes(WordIn(rs[l.range], l.offset), l.offset % 4, size, k);
  }

  /** An aligned store puts its bytes in place and changes no other byte of RAM. */
  lemma StoredBytes(rs: seq<Range>, l: Location, size: nat, val: nat, m: Location)
    requires InWord(rs, l, size)
    ensures ByteOf(StoreAt(rs, l, size, val), m) ==
            if m.range == l.range && l.offset <= m.offset < l.offset + size then ByteIn(val, m.offset - l.offset) else ByteOf(rs, m)
  {
    hide ByteIn, Inserted;
    if m.range == l.range && m.offset / 4 == l.offset / 4 {
      SameWord(l.offset, size, 0);
      InsertedBytes(WordIn(rs[l.range], l.offset), l.offset % 4, size, val, m.offset % 4);
      InOneWord(l.offset, m.offset);
    } else if m.range == l.range && l.offset <= m.offset < l.offset + size {
      SameWord(l.offset, size, m.offset - l.offset);
    }
  }

  lemma InOneWord(a: nat, b: nat)
    requires a / 4 == b / 4
    ensures b - a == b % 4 - a % 4
  {
  }

  /** A load gives back what was stored at the same place. */
  lemma LoadAfterStore(rs: seq<Range>, l: Location, size: nat, val: nat)
    requires InWord(rs, l, size)
    ensures InWord(StoreAt(rs, l, size, val), l, size)
    ensures Loaded(StoreAt(rs, l, size, val), l, size) == val % Arith.Pow2(8 * size)
  {
    hide ByteIn, Inserted, Extracted, Loaded, ByteOf, Arith.Pow2;
    var ts := StoreAt(rs, l, size, val);
    forall k: nat | k < size ensures ByteIn(Loaded(ts, l, size), k) == ByteIn(val % Arith.Pow2(8 * size), k) {
      LoadedBytes(ts, l, size, k);
      StoredBytes(rs, l, size, val, Location(l.range, l.offset + k));
      LowPart(val, Arith.Pow2(8 * size), size, k);
    }
    LoadedBytes(ts, l, size, 0);
    SameBytes(Loaded(ts, l, size), val % Arith.Pow2(8 * size), size);
  }

  // -----------------------------------------------------------------------------------------
  // RAM that is there
  // -----------------------------------------------------------------------------------------

  /** Every byte of a RAM range is one of its words'. */
  predicate Backed(rs: seq<Range>) {
    forall i :: 0 <= i < |rs| && rs[i].isRam ==> rs[i].size <= rs[i].orgSize <= 4 * |rs[i].words|
  }

  lemma PutBacked(rs: seq<Range>, l: Location, w: nat)
    requires Backed(rs) && l.range < |rs|
    ensures Backed(PutWord(rs, l, w)) && |PutWord(rs, l, w)| == |rs|
  {
  }

  lemma MarkedBacked(rs: seq<Range>, l: Location)
    requires Backed(rs) && l.range < |rs|
    ensures Backed(SetDirty(rs, l)) && |SetDirty(rs, l)| == |rs|
  {
  }

  lemma WalkBacked(c: Control, rs: seq<Range>, v: nat, access: Access)
    requires Backed(rs)
    ensures Backed(AfterWalk(c, rs, v, access)) && |AfterWalk(c, rs, v, access)| == |rs|
  {
    hide Walk, Grants, Translating, Marked, PutWord, Backed;
    var w := Walk(c.satp, rs, v);
    if RamAt(rs, w.entry).Some? { PutBacked(rs, RamAt(rs, w.entry).value, Marked(w.pte, access)); }
  }

  lemma AccessBacked(s: State, access: Access, v: nat, size: nat)
    requires s.Sized() && size > 0 && Backed(s.ranges)
    ensures Backed(Accessed(s, access, v, size).0.ranges)
  {
    hide Walk, Translate, AfterWalk, PutWord, Backed, Hit, SetDirty;
    WalkBacked(s.control, s.ranges, v, access);
    var rs := AfterWalk(s.control, s.ranges, v, access);
    if Translate(s.control, s.ranges, v, access).Some? {
      var p := Translate(s.control, s.ranges, v, access).value;
      if RamAt(rs, p).Some? { MarkedBacked(rs, RamAt(rs, p).value); }
    }
  }

  lemma StepBacked(s: State, e: Event)
    requires s.Sized() && Possible(s, e) && Backed(s.ranges)
    ensures Backed(Next(s, e).ranges)
  {
    hide Accessed, Backed, PutWord, SetDirty, WellPlaced, Inserted;
    if e.Load? {
      AccessBacked(s, READ, e.v, e.size);
    } else if e.Fetch? {
      AccessBacked(s, CODE, e.v, 1);
    } else if e.Store? {
      AccessBacked(s, WRITE, e.v, e.size);
      var t, l := Accessed(s, WRITE, e.v, e.size).0, Accessed(s, WRITE, e.v, e.size).1;
      if l.Some? && l.value.range < |t.ranges| {
        PutBacked(t.ranges, l.value, Inserted(WordIn(t.ranges[l.value.range], l.value.offset), l.value.offset % 4, e.size, e.val));
      }
    } else if e.DeviceStore? {
      var l := RamAt(s.ranges, e.p);
      if l.Some? {
        MarkedBacked(s.ranges, l.value);
        var ts := SetDirty(s.ranges, l.value);
        PutBacked(ts, l.value, Inserted(WordIn(ts[l.value.range], l.value.offset), l.value.offset % 4, e.size, e.val));
      }
    } else {
      RestBacked(s, e);
    }
  }

  lemma RestBacked(s: State, e: Event)
    requires s.Sized() && Possible(s, e) && Backed(s.ranges)
    requires !e.Load? && !e.Fetch? && !e.Store? && !e.DeviceStore?
    ensures Backed(Next(s, e).ranges)
  {
    hide Flushed, WithoutRange, WellPlaced, FieldsOf, WithSstatus;
  }

  lemma {:induction false} RunBacked(s: State, es: seq<Event>)
    requires s.Sized() && PossibleRun(s, es) && Backed(s.ranges)
    ensures Run(s, es).Sized() && Backed(Run(s, es).ranges)
    decreases |es|
  {
    hide Next, Possible, Backed;
    if es != [] {
      StepBacked(s, es[0]);
      RunBacked(Next(s, es[0]), es[1..]);
    }
  }

  // -----------------------------------------------------------------------------------------
  // Alignment
  // -----------------------------------------------------------------------------------------

  lemma TranslatedInPage(c: Control, rs: seq<Range>, v: nat, access: Access)
    requires Translate(c, rs, v, access).Some?
    ensures Translate(c, rs, v, access).value % PAGE == v % PAGE
  {
    hide Merge, Grants, Translating, Walk;
    if Translating(c, access) {
      var w := Walk(c.satp, rs, v);
      var k := if w.span == PAGE then 1 else 0x400;
      var f := Frame(w.pte / 0x400) / w.span;
      MergedPage(w.pte, v, k, w.span, f);
      Arith.DivUnique(Merge(w.pte, v, w.span), PAGE, f * k + v / PAGE % k, v % PAGE);
    }
  }

  lemma ReachedInPage(c: Control, rs: seq<Range>, v: nat, access: Access)
    requires WellPlaced(rs) && Reaches(c, rs, v, access).Some?
    ensures Reaches(c, rs, v, access).value.offset % PAGE == v % PAGE
  {
    hide Translate;
    TranslatedInPage(c, rs, v, access);
    var p := Translate(c, rs, v, access).value;
    var l := RamAt(rs, p).value;
    assert rs[l.range].addr % PAGE == 0;
  }

  /** What an aligned access reaches lies in one word that is there. */
  lemma ReachedInWord(c: Control, rs: seq<Range>, v: nat, access: Access, size: nat)
    requires WellPlaced(rs) && Backed(rs) && AccessSize(size) && v % size == 0 && Reaches(c, rs, v, access).Some?
    ensures InWord(rs, Reaches(c, rs, v, access).value, size)
  {
    hide Translate, WellPlaced;
    ReachedInPage(c, rs, v, access);
    var l := Reaches(c, rs, v, access).value;
    AlignedToo(l.offset, v, size);
    assert rs[l.range].size <= rs[l.range].orgSize <= 4 * |rs[l.range].words|;
  }

  lemma AlignedToo(o: nat, v: nat, size: nat)
    requires AccessSize(size) && o % PAGE == v % PAGE && v % size == 0
    ensures o % size == 0
  {
    hide *;
    PlaceInPage(o, size);
    PlaceInPage(v, size);
  }

  lemma PlaceInPage(o: nat, size: nat)
    requires AccessSize(size)
    ensures o % size == o % PAGE % size
  {
    var q, m, k := o / PAGE, o % PAGE, PAGE / size;
    Arith.DigitsRegrouped(q, k, m / size, size, m % size);
    Arith.DivUnique(o, size, q * k + m / size, m % size);
  }

  /** A load's own walk changes no more than flags of an entry. */
  lemma LoadKeepsWord(s: State, v: nat, size: nat, l: Location, n: nat)
    requires s.Sized() && size > 0 && InWord(s.ranges, l, n)
    ensures InWord(Accessed(s, READ, v, size).0.ranges, l, n)
  {
    hide Walk, Translate, Hit, Grants, Translating, Marked, RamAt;
  }

  /** What a run from reset that outdates nothing leaves. */
  lemma FreshRun(s: State, es: seq<Event>)
    requires s.Sized() && s == FlushAll(s) && WellPlaced(s.ranges) && Backed(s.ranges)
    requires PossibleRun(s, es) && !Outdated(s, es, false)
    ensures Coherent(Run(s, es)) && Words(Run(s, es)) && Backed(Run(s, es).ranges)
  {
    hide *;
    FlushedCoherent(s);
    CoherentIs(s);
    SoundIs(s);
    RunCoherent(s, es, false);
    SoundIs(Run(s, es));
    RunBacked(s, es);
  }

  /** What a load delivers in a coherent state. */
  ghost predicate Delivers(s: State, v: nat, size: nat, val: Option<nat>)
    requires s.Sized() && AccessSize(size)
  {
    var l := Reaches(s.control, s.ranges, v, READ);
    var rs := Accessed(s, READ, v, size).0.ranges;
    && (val.Some? <==> l.Some?)
    && (l.Some? ==> val.value < Arith.Pow2(8 * size))
    && (l.Some? ==> forall k: nat :: k < size ==> ByteIn(val.value, k) == ByteOf(rs, Location(l.value.range, l.value.offset + k)))
  }

  lemma LoadDelivers(s: State, v: nat, size: nat, val: Option<nat>)
    requires Coherent(s) && Words(s) && Backed(s.ranges) && v < WORD_LIMIT && AccessSize(size) && v % size == 0
    requires var a := Accessed(s, READ, v, size);
             val == if a.1.Some? && a.1.value.range < |a.0.ranges| then Some(Loaded(a.0.ranges, a.1.value, size)) else None
    ensures Delivers(s, v, size, val)
  {
    hide Accessed, Reaches, AllFresh, WellPlaced, Words, Backed, Loaded, ByteOf, ByteIn, Arith.Pow2;
    AccessCoherent(s, READ, v, size);
    var l := Reaches(s.control, s.ranges, v, READ);
    var rs := Accessed(s, READ, v, size).0.ranges;
    if l.Some? {
      ReachedInWord(s.control, s.ranges, v, READ, size);
      LoadKeepsWord(s, v, size, l.value, size);
      LoadedBytes(rs, l.value, size, 0);
      forall k: nat | k < size ensures ByteIn(val.value, k) == ByteOf(rs, Location(l.value.range, l.value.offset + k)) {
        LoadedBytes(rs, l.value, size, k);
      }
    }
  }
}
