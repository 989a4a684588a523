/** What Sv32 translation decides, in terms of page tables as they are laid out in memory
    (RISC-V privileged architecture 1.10, section 4.3), and which bits of the status registers
    steer it (section 3.1.6). */
module PageTables {
  import opened PhysMemory
  import opened Wrappers
  import opened Sv32
  import opened Tlb
  import Arith

  // -----------------------------------------------------------------------------------------
  // Words from bits
  // -----------------------------------------------------------------------------------------

  /** The number with these bits, the lowest one first */
  function Number(bits: seq<bool>): nat {
    if bits == [] then 0 else (if bits[0] then 1 else 0) + 2 * Number(bits[1..])
  }

  /** Bit k of a word, whatever there is above the bits named */
  lemma {:induction false} BitOfNumber(bits: seq<bool>, w: nat, high: nat, k: nat)
    requires k < |bits| && w == Number(bits) + high * Arith.Pow2(|bits|)
    ensures Bit(w, Arith.Pow2(k)) == bits[k]
  {
    hide *;
    var p := Arith.Pow2(|bits| - 1);
    var rest := Number(bits[1..]) + high * p;
    Arith.TwicePow(|bits| - 1);
    Doubled(high, p, Arith.Pow2(|bits|));
    LastOf(bits, w, rest);
    if k == 0 {
      Arith.PowZero();
    } else {
      BitOfNumber(bits[1..], rest, high, k - 1);
      Arith.TwicePow(k - 1);
      HalfBit(w, rest, Arith.Pow2(k - 1));
    }
  }

  lemma LastOf(bits: seq<bool>, w: nat, rest: nat)
    requires bits != [] && w - Number(bits) == 2 * (rest - Number(bits[1..]))
    ensures rest == w / 2 && Bit(w, 1) == bits[0]
  {
  }

  lemma Doubled(h: nat, p: nat, q: nat)
    requires q == 2 * p
    ensures h * q == 2 * (h * p)
  {
  }

  lemma HalfBit(w: nat, half: nat, p: nat)
    requires p > 0 && half == w / 2
    ensures Bit(w, 2 * p) == Bit(half, p)
  {
    hide Bit;
    var q, r := half / p, half % p;
    Arith.DivUnique(half, p, q, r);
    HalfParts(w, half, p, q, r);
    Arith.DivUnique(w, 2 * p, q, 2 * r + w % 2);
    BitIs(w, 2 * p);
    BitIs(half, p);
  }

  lemma HalfParts(w: nat, half: nat, p: nat, q: nat, r: nat)
    requires half == w / 2 && half == q * p + r && r < p
    ensures w == q * (2 * p) + (2 * r + w % 2) && 2 * r + w % 2 < 2 * p
  {
    Doubled(q, p, 2 * p);
  }

  // -----------------------------------------------------------------------------------------
  // Entries
  // -----------------------------------------------------------------------------------------

  /** A page table entry.  Bits 8 and 9 are for software. */
  datatype Pte = Pte(ppn: nat, software: nat, d: bool, a: bool, g: bool, u: bool, x: bool, w: bool, r: bool, v: bool)

  /** The word of an entry */
  function PteWord(e: Pte): nat {
    e.ppn * 1024 + e.software * 256 + Number([e.v, e.r, e.w, e.x, e.u, e.g, e.a, e.d])
  }

  /** An entry that leads to a table of entries for pages */
  predicate LeadsOn(e: Pte) { e.v && !e.r && !e.w && !e.x }

  /** Whether an entry lets an access through that is made with privilege p. */
  predicate Admits(e: Pte, m: Mstatus, p: nat, access: Access) {
    && e.v && (e.w ==> e.r)
    && (if p == 1 then e.u ==> m.sum else e.u)
    && match access
       case READ => e.r || (e.x && m.mxr)
       case WRITE => e.w
       case CODE => e.x
  }

  /** The privilege that counts: loads and stores have that of MPP under MPRV. */
  function Counting(c: Control, access: Access): nat {
    if c.mstatus.mprv && (access == READ || access == WRITE) then c.mstatus.mpp else c.priv
  }

  lemma PteBits(e: Pte)
    requires e.software < 4
    ensures var w := PteWord(e);
            && IsValid(w) == e.v && IsReadable(w) == e.r && IsWritable(w) == e.w && IsExecutable(w) == e.x
            && IsUser(w) == e.u && IsAccessed(w) == e.a && IsDirty(w) == e.d && w / 1024 == e.ppn
  {
    hide Bit, Number;
    var w, bits, high := PteWord(e), [e.v, e.r, e.w, e.x, e.u, e.g, e.a, e.d], e.ppn * 4 + e.software;
    Weights();
    forall k: nat | k < 8 ensures Bit(w, Arith.Pow2(k)) == bits[k] { BitOfNumber(bits, w, high, k); }
    NumberBound(bits);
    Arith.DivUnique(w, 1024, e.ppn, e.software * 256 + Number(bits));
  }

  lemma {:induction false} NumberBound(bits: seq<bool>)
    ensures Number(bits) < Arith.Pow2(|bits|)
  {
    if bits != [] { NumberBound(bits[1..]); }
  }

  lemma {:induction false} NumberSet(bits: seq<bool>, k: nat)
    requires k < |bits|
    ensures Number(bits[k := true]) == Number(bits) + if bits[k] then 0 else Arith.Pow2(k)
  {
    if k > 0 {
      assert bits[k := true][1..] == bits[1..][k - 1 := true];
      NumberSet(bits[1..], k - 1);
    } else {
      assert bits[k := true][1..] == bits[1..];
    }
  }

  lemma Weights()
    ensures Arith.Pow2(0) == 1 && Arith.Pow2(1) == 2 && Arith.Pow2(2) == 4 && Arith.Pow2(3) == 8 && Arith.Pow2(4) == 0x10
    ensures Arith.Pow2(5) == 0x20 && Arith.Pow2(6) == 0x40 && Arith.Pow2(7) == 0x80 && Arith.Pow2(8) == 0x100
    ensures Arith.Pow2(9) == 0x200 && Arith.Pow2(10) == 0x400 && Arith.Pow2(11) == 0x800 && Arith.Pow2(12) == 0x1000
    ensures Arith.Pow2(13) == 0x2000 && Arith.Pow2(14) == 0x4000 && Arith.Pow2(15) == 0x8000 && Arith.Pow2(16) == 0x1_0000
    ensures Arith.Pow2(17) == 0x2_0000 && Arith.Pow2(18) == 0x4_0000 && Arith.Pow2(19) == 0x8_0000 && Arith.Pow2(20) == 0x10_0000
  {
  }

  // -----------------------------------------------------------------------------------------
  // Translation
  // -----------------------------------------------------------------------------------------

  /** Machine mode, or a satp below 2^31: addresses are physical. */
  lemma NotMapped(c: Control, rs: seq<Range>, v: nat, access: Access)
    requires c.satp < WORD_LIMIT && (Counting(c, access) == 3 || c.satp < 0x8000_0000)
    ensures Translate(c, rs, v, access) == Some(v) && AfterWalk(c, rs, v, access) == rs
  {
    hide Walk, Grants, Merge, Marked, WriteWord, Bit;
    ModeBit(c.satp);
  }

  lemma ModeBit(satp: nat)
    requires satp < WORD_LIMIT
    ensures Bit(satp, 0x8000_0000) <==> satp >= 0x8000_0000
  {
  }

  /** What a walk that ends at an entry decides and leaves behind */
  lemma EndsAt(c: Control, rs: seq<Range>, v: nat, access: Access, leaf: Pte)
    requires Translating(c, access) && leaf.software < 4 && Walk(c.satp, rs, v).pte == PteWord(leaf)
    ensures var w := Walk(c.satp, rs, v);
            var granted := Admits(leaf, c.mstatus, Counting(c, access), access);
            var marked := leaf.(a := true, d := leaf.d || access == WRITE);
            && Translate(c, rs, v, access) == (if granted then Some(Merge(w.pte, v, w.span)) else None)
            && w.pte / 1024 == leaf.ppn
            && AfterWalk(c, rs, v, access) ==
               if granted && marked != leaf then WriteWord(rs, w.entry, PteWord(marked)) else rs
  {
    hide Walk, Merge, WriteWord, Bit, Number;
    PteBits(leaf);
    MarkedIs(leaf, access);
  }

  lemma MarkedIs(e: Pte, access: Access)
    requires e.software < 4
    ensures Marked(PteWord(e), access) == PteWord(e.(a := true, d := e.d || access == WRITE))
  {
    hide Bit, Number, PteWord;
    var bits := [e.v, e.r, e.w, e.x, e.u, e.g, e.a, e.d];
    var marked := bits[6 := true];
    PteBits(e);
    Weights();
    NumberSet(bits, 6);
    NumberSet(marked, 7);
    assert marked == [e.v, e.r, e.w, e.x, e.u, e.g, true, e.d] && marked[7 := true] == [e.v, e.r, e.w, e.x, e.u, e.g, true, true];
    PteIs(e, bits);
    PteIs(e.(a := true), marked);
    PteIs(e.(a := true, d := true), marked[7 := true]);
  }

  lemma PteIs(e: Pte, bits: seq<bool>)
    requires bits == [e.v, e.r, e.w, e.x, e.u, e.g, e.a, e.d]
    ensures PteWord(e) == e.ppn * 1024 + e.software * 256 + Number(bits)
  {
  }

  lemma EntryPlaces(satp: nat, pte: nat, v: nat)
    requires v < WORD_LIMIT && satp < WORD_LIMIT
    ensures RootEntry(satp, v) == satp % 0x40_0000 * 4096 % WORD_LIMIT + 4 * (v / 0x40_0000)
    ensures LeafEntry(pte, v) == pte / 1024 * 4096 % WORD_LIMIT + 4 * (v / 4096 % 1024)
    ensures Bit(satp, 0x8000_0000) <==> satp >= 0x8000_0000
  {
  }

  lemma MergedAs(pte: nat, v: nat)
    ensures Merge(pte, v, PAGE) == pte / 1024 * 4096 % WORD_LIMIT + v % 4096
    ensures Merge(pte, v, 0x40_0000) == pte / 1024 / 1024 % 1024 * 0x40_0000 + v % 0x40_0000
  {
    var ppn := pte / 1024;
    var f := ppn * 4096 % WORD_LIMIT;
    assert f / PAGE * PAGE == f;
    FrameSpan(ppn);
  }

  lemma FrameSpan(ppn: nat)
    ensures ppn * 4096 % WORD_LIMIT / 0x40_0000 == ppn / 1024 % 1024
  {
    var hi, lo := ppn / 1024, ppn % 1024;
    var top, mid := hi / 1024, hi % 1024;
    Arith.DivUnique(ppn * 4096, WORD_LIMIT, top, mid * 0x40_0000 + lo * 4096);
    Arith.DivUnique(mid * 0x40_0000 + lo * 4096, 0x40_0000, mid, lo * 4096);
  }

  /** An address that two levels of tables map, the first at the page that satp names, the second at
      the page that the first one's entry names.  The page's entry decides about the access, and the
      walk sets its accessed bit and, for a write, its dirty bit. */
  lemma MappedPage(c: Control, rs: seq<Range>, v: nat, access: Access, root: Pte, leaf: Pte)
    requires v < WORD_LIMIT && 0x8000_0000 <= c.satp < WORD_LIMIT && Counting(c, access) != 3
    requires root.software < 4 && LeadsOn(root) && leaf.software < 4
    requires ReadWord(rs, c.satp % 0x40_0000 * 4096 % WORD_LIMIT + 4 * (v / 0x40_0000)) == PteWord(root)
    requires ReadWord(rs, root.ppn * 4096 % WORD_LIMIT + 4 * (v / 4096 % 1024)) == PteWord(leaf)
    ensures var granted := Admits(leaf, c.mstatus, Counting(c, access), access);
            var marked := leaf.(a := true, d := leaf.d || access == WRITE);
            && Translate(c, rs, v, access) == (if granted then Some(leaf.ppn * 4096 % WORD_LIMIT + v % 4096) else None)
            && AfterWalk(c, rs, v, access) ==
               if granted && marked != leaf
               then WriteWord(rs, root.ppn * 4096 % WORD_LIMIT + 4 * (v / 4096 % 1024), PteWord(marked)) else rs
  {
    hide ReadWord, WriteWord, Bit, PteWord, Merge;
    PteBits(root);
    EntryPlaces(c.satp, PteWord(root), v);
    MergedAs(PteWord(leaf), v);
    EndsAt(c, rs, v, access, leaf);
  }

  /** An address that the first table maps as part of 4 megabytes.  The low bits of the page number
      do not count. */
  lemma MappedSuperpage(c: Control, rs: seq<Range>, v: nat, access: Access, leaf: Pte)
    requires v < WORD_LIMIT && 0x8000_0000 <= c.satp < WORD_LIMIT && Counting(c, access) != 3
    requires leaf.software < 4 && !LeadsOn(leaf)
    requires ReadWord(rs, c.satp % 0x40_0000 * 4096 % WORD_LIMIT + 4 * (v / 0x40_0000)) == PteWord(leaf)
    ensures var granted := Admits(leaf, c.mstatus, Counting(c, access), access);
            var marked := leaf.(a := true, d := leaf.d || access == WRITE);
            && Translate(c, rs, v, access) ==
               (if granted then Some(leaf.ppn / 1024 % 1024 * 0x40_0000 + v % 0x40_0000) else None)
            && AfterWalk(c, rs, v, access) ==
               if granted && marked != leaf
               then WriteWord(rs, c.satp % 0x40_0000 * 4096 % WORD_LIMIT + 4 * (v / 0x40_0000), PteWord(marked)) else rs
  {
    hide ReadWord, WriteWord, Bit, PteWord, Merge;
    PteBits(leaf);
    EntryPlaces(c.satp, PteWord(leaf), v);
    MergedAs(PteWord(leaf), v);
    EndsAt(c, rs, v, access, leaf);
  }

  // -----------------------------------------------------------------------------------------
  // Status registers
  // -----------------------------------------------------------------------------------------

  /** mstatus as a word; what the model leaves out of it is 0. */
  function StatusWord(m: Mstatus): nat { Number(StatusBits(m)) }

  function StatusBits(m: Mstatus): (b: seq<bool>)
    ensures |b| == 20 && forall k: nat :: k < 20 ==> b[k] == StatusBit(m, k)
  {
    seq(20, k requires 0 <= k < 20 => StatusBit(m, k))
  }

  predicate StatusBit(m: Mstatus, k: nat) {
    if k == 0 then m.uie else if k == 1 then m.sie else if k == 2 then m.hie else if k == 3 then m.mie
    else if k == 4 then m.upie else if k == 5 then m.spie else if k == 7 then m.mpie else if k == 8 then m.spp == 1
    else if k == 11 then m.mpp % 2 == 1 else if k == 12 then m.mpp / 2 == 1
    else if k == 17 then m.mprv else if k == 18 then m.sum else if k == 19 then m.mxr else false
  }

  /** SPP is one bit and MPP two. */
  predicate InFields(m: Mstatus) { m.spp < 2 && m.mpp < 4 }

  /** The fields of the word are the fields. */
  lemma StatusRead(m: Mstatus)
    requires InFields(m)
    ensures FieldsOf(StatusWord(m)) == m && forall k: nat :: k < 20 ==> Bit(StatusWord(m), Arith.Pow2(k)) == StatusBit(m, k)
  {
    hide Bit, Number, StatusBit, StatusBits, FieldsOf;
    var bits, w := StatusBits(m), StatusWord(m);
    forall k: nat | k < 20 ensures Bit(w, Arith.Pow2(k)) == StatusBit(m, k) { BitOfNumber(bits, w, 0, k); }
    FieldsBits(w);
    SameFields(m, FieldsOf(w));
  }

  lemma SameFields(m: Mstatus, n: Mstatus)
    requires InFields(m) && InFields(n) && forall k: nat :: IsField(k) ==> StatusBit(m, k) == StatusBit(n, k)
    ensures m == n
  {
    hide StatusBit;
    BitsAre(m);
    BitsAre(n);
  }

  lemma BitsAre(m: Mstatus)
    ensures StatusBit(m, 0) == m.uie && StatusBit(m, 1) == m.sie && StatusBit(m, 2) == m.hie && StatusBit(m, 3) == m.mie
    ensures StatusBit(m, 4) == m.upie && StatusBit(m, 5) == m.spie && StatusBit(m, 7) == m.mpie
    ensures StatusBit(m, 8) == (m.spp == 1) && StatusBit(m, 11) == (m.mpp % 2 == 1) && StatusBit(m, 12) == (m.mpp / 2 == 1)
    ensures StatusBit(m, 17) == m.mprv && StatusBit(m, 18) == m.sum && StatusBit(m, 19) == m.mxr
  {
  }

  lemma TwoBits(w: nat, p: nat, q: nat)
    requires p > 0 && q == 2 * p
    ensures w / p % 4 == w / p % 2 + 2 * (w / q % 2)
  {
    hide *;
    var h, l := w / p, w % p;
    Arith.DivUnique(w, p, h, l);
    TwoParts(w, p, q, h / 2, h % 2, l);
    Arith.DivUnique(w, q, h / 2, h % 2 * p + l);
    Digits(h, h / 2);
  }

  lemma TwoParts(w: nat, p: nat, q: nat, g: nat, b: nat, l: nat)
    requires q == 2 * p && b < 2 && l < p && w == (2 * g + b) * p + l
    ensures w == g * q + (b * p + l) && b * p + l < q
  {
    Arith.DigitsRegrouped(g, 2, b, p, l);
  }

  lemma Digits(h: nat, g: nat)
    requires g == h / 2
    ensures h % 4 == h % 2 + 2 * (g % 2)
  {
  }

  /** The bits that a write to mstatus changes: UIE, SIE, MIE, UPIE, SPIE, MPIE, SPP, MPP, MPRV, SUM
      and MXR. */
  const MSTATUS_BITS: set<nat> := {0, 1, 3, 4, 5, 7, 8, 11, 12, 17, 18, 19}

  /** Those that a write to sstatus changes: UIE, SIE, UPIE, SPIE, SPP, SUM and MXR. */
  const SSTATUS_BITS: set<nat> := {0, 1, 4, 5, 8, 18, 19}

  /** A write to a status register takes the bits of its mask from the word and keeps the others. */
  lemma StatusWritten(s: State, w: nat, sstatus: bool, k: nat)
    requires s.Sized() && InFields(s.control.mstatus) && IsField(k)
    ensures var t := Next(s, if sstatus then WriteSstatus(w) else WriteMstatus(w));
            && InFields(t.control.mstatus)
            && Bit(StatusWord(t.control.mstatus), Arith.Pow2(k)) ==
               if k in (if sstatus then SSTATUS_BITS else MSTATUS_BITS) then Bit(w, Arith.Pow2(k))
               else Bit(StatusWord(s.control.mstatus), Arith.Pow2(k))
  {
    hide Bit, FlushAll, StatusWord, FieldsOf, StatusBit, WithMstatus, WithSstatus;
    var m, f := s.control.mstatus, FieldsOf(w);
    var t := Next(s, if sstatus then WriteSstatus(w) else WriteMstatus(w));
    FieldsBits(w);
    StatusRead(m);
    WrittenBits(m, f, k);
    StatusRead(if sstatus then WithSstatus(m, f) else WithMstatus(m, f));
  }

  /** Which bits of a word are read as fields */
  predicate IsField(k: nat) { k <= 5 || k == 7 || k == 8 || k == 11 || k == 12 || 17 <= k < 20 }

  lemma FieldsBits(w: nat)
    ensures InFields(FieldsOf(w)) && forall k: nat :: IsField(k) ==> StatusBit(FieldsOf(w), k) == Bit(w, Arith.Pow2(k))
  {
    hide Bit;
    Weights();
    BitIs(w, 0x100);
    BitIs(w, 0x800);
    BitIs(w, 0x1000);
    TwoBits(w, 0x800, 0x1000);
  }

  lemma WrittenBits(m: Mstatus, f: Mstatus, k: nat)
    requires InFields(m) && InFields(f) && k < 20
    ensures InFields(WithMstatus(m, f)) && InFields(WithSstatus(m, f))
    ensures StatusBit(WithMstatus(m, f), k) == if k in MSTATUS_BITS then StatusBit(f, k) else StatusBit(m, k)
    ensures StatusBit(WithSstatus(m, f), k) == if k in SSTATUS_BITS then StatusBit(f, k) else StatusBit(m, k)
  {
    MaskBits(k);
  }

  lemma MaskBits(k: nat)
    ensures k in MSTATUS_BITS <==> k < 2 || 3 <= k <= 5 || k == 7 || k == 8 || k == 11 || k == 12 || 17 <= k < 20
    ensures k in SSTATUS_BITS <==> k < 2 || k == 4 || k == 5 || k == 8 || k == 18 || k == 19
  {
  }

  /** A write to satp keeps the mode and the page number, and no address space. */
  lemma SatpWritten(s: State, mode: nat, asid: nat, ppn: nat)
    requires s.Sized() && mode < 2 && asid < 512 && ppn < 0x40_0000
    ensures Next(s, WriteSatp(mode * 0x8000_0000 + asid * 0x40_0000 + ppn)).control.satp == mode * 0x8000_0000 + ppn
  {
    var w := mode * 0x8000_0000 + asid * 0x40_0000 + ppn;
    Arith.DivUnique(w, 0x40_0000, mode * 512 + asid, ppn);
    Arith.DivUnique(w, 0x8000_0000, mode, asid * 0x40_0000 + ppn);
  }

  // -----------------------------------------------------------------------------------------
  // Traps and returns
  // -----------------------------------------------------------------------------------------

  /** The mode that a trap is handled in */
  function HandledIn(priv: nat, delegated: bool): nat { if priv <= 1 && delegated then 1 else 3 }

  /** A trap followed by its return gives back the privilege and the interrupted mode's interrupt
      enable.  Whether interrupts were enabled in the handler's mode is lost, if that is another. */
  lemma TrapAndReturn(s: State, delegated: bool)
    requires s.Sized() && InFields(s.control.mstatus) && s.control.priv < 4
    ensures var m, priv := s.control.mstatus, s.control.priv;
            var t := Next(s, Trap(delegated));
            var r := Next(t, if HandledIn(priv, delegated) == 1 then ReturnS else ReturnM).control;
            && t.control.priv == HandledIn(priv, delegated) && !EnabledAt(t.control.mstatus, t.control.priv)
            && r.priv == priv && r.satp == s.control.satp
            && r.mstatus == if HandledIn(priv, delegated) == 1
                            then m.(sie := priv == 1 && m.sie, spie := true, spp := 0)
                            else m.(mie := priv == 3 && m.mie, mpie := true, mpp := 0)
  {
    hide Next, EnabledAt, WithEnabledAt, TakeTrap, Sret, Mret;
    var m, priv := s.control.mstatus, s.control.priv;
    var t := TakeTrap(s, delegated);
    TrapIs(s, delegated);
    NextIs(s, delegated);
    NextIs(t, delegated);
    ReturnIs(t);
    EnabledGone(t.control.mstatus, t.control.priv);
    var e, n := EnabledAt(m, priv), t.control.mstatus;
    if HandledIn(priv, delegated) == 1 {
      BackFromS(m, priv, e, n, WithEnabledAt(n, priv, e));
    } else {
      BackFromM(m, priv, e, n, WithEnabledAt(n, priv, e));
    }
  }

  lemma NextIs(s: State, delegated: bool)
    requires s.Sized()
    ensures Next(s, Trap(delegated)) == TakeTrap(s, delegated) && Next(s, ReturnS) == Sret(s) && Next(s, ReturnM) == Mret(s)
  {
    hide TakeTrap, Sret, Mret;
  }

  lemma TrapIs(s: State, delegated: bool)
    ensures var m, priv := s.control.mstatus, s.control.priv;
            TakeTrap(s, delegated).control ==
              if HandledIn(priv, delegated) == 1
              then Control(m.(spie := EnabledAt(m, priv), spp := priv, sie := false), 1, s.control.satp)
              else Control(m.(mpie := EnabledAt(m, priv), mpp := priv, mie := false), 3, s.control.satp)
    ensures s.Sized() ==> TakeTrap(s, delegated).Sized()
  {
    hide EnabledAt;
  }

  lemma ReturnIs(s: State)
    ensures var m := s.control.mstatus;
            && Sret(s).control == Control(WithEnabledAt(m, m.spp, m.spie).(spie := true, spp := 0), m.spp, s.control.satp)
            && Mret(s).control == Control(WithEnabledAt(m, m.mpp, m.mpie).(mpie := true, mpp := 0), m.mpp, s.control.satp)
  {
    hide WithEnabledAt;
  }

  lemma EnabledGone(m: Mstatus, priv: nat)
    ensures (priv == 1 && !m.sie) || (priv == 3 && !m.mie) ==> !EnabledAt(m, priv)
  {
  }

  lemma EnabledWith(m: Mstatus, priv: nat, e: bool)
    requires priv < 4
    ensures WithEnabledAt(m, priv, e) ==
            Mstatus(if priv == 0 then e else m.uie, if priv == 1 then e else m.sie, if priv == 2 then e else m.hie,
                    if priv == 3 then e else m.mie, m.upie, m.spie, m.mpie, m.spp, m.mpp, m.mprv, m.sum, m.mxr)
    ensures EnabledAt(m, priv) == if priv == 0 then m.uie else if priv == 1 then m.sie else if priv == 2 then m.hie else m.mie
  {
  }

  lemma BackFromS(m: Mstatus, priv: nat, e: bool, n: Mstatus, r: Mstatus)
    requires priv <= 1 && e == EnabledAt(m, priv) && n == m.(spie := e, spp := priv, sie := false)
    requires r == WithEnabledAt(n, priv, e)
    ensures r.(spie := true, spp := 0) == m.(sie := priv == 1 && m.sie, spie := true, spp := 0)
  {
    hide EnabledAt, WithEnabledAt;
    EnabledWith(m, priv, e);
    EnabledWith(n, priv, e);
  }

  lemma BackFromM(m: Mstatus, priv: nat, e: bool, n: Mstatus, r: Mstatus)
    requires priv < 4 && e == EnabledAt(m, priv) && n == m.(mpie := e, mpp := priv, mie := false)
    requires r == WithEnabledAt(n, priv, e)
    ensures r.(mpie := true, mpp := 0) == m.(mie := priv == 3 && m.mie, mpie := true, mpp := 0)
  {
    hide EnabledAt, WithEnabledAt;
    EnabledWith(m, priv, e);
    EnabledWith(n, priv, e);
  }

  // -----------------------------------------------------------------------------------------
  // Places in the TLB
  // -----------------------------------------------------------------------------------------

  /** The low 8 bits of the page number choose the entry; page and offset make up the address. */
  lemma PlaceInTlb(v: nat, high: nat, slot: nat, offset: nat)
    requires v == high * 0x10_0000 + slot * 0x1000 + offset && slot < 256 && offset < 0x1000
    ensures Index(v) == slot && Base(v) == v - offset
  {
    Arith.DivUnique(v, 0x1000, high * 256 + slot, offset);
    Arith.DivUnique(high * 256 + slot, 256, high, slot);
  }
}
