/** Sv32 address translation: get_phys_addr of riscv_cpu.c (RISC-V privileged architecture 1.10,
    section 4.3.2).  Words and addresses are naturals below 2^32. */
module Sv32 {
  import opened PhysMemory
  import opened Wrappers
  import Arith

  const PRV_U := 0
  const PRV_S := 1
  const PRV_M := 3

  datatype Access = READ | WRITE | CODE

  /** The fields of mstatus, but for the floating-point state, which is kept apart.  hie, bit 2, is
      not writable, but a return to the privilege 2 sets it. */
  datatype Mstatus = Mstatus(uie: bool, sie: bool, hie: bool, mie: bool, upie: bool, spie: bool, mpie: bool,
                             spp: nat, mpp: nat, mprv: bool, sum: bool, mxr: bool)

  predicate Bit(x: nat, weight: nat)
    requires weight > 0
  {
    x / weight % 2 == 1
  }

  /** The fields of a word. */
  function FieldsOf(w: nat): Mstatus {
    Mstatus(Bit(w, 0x1), Bit(w, 0x2), Bit(w, 0x4), Bit(w, 0x8), Bit(w, 0x10), Bit(w, 0x20), Bit(w, 0x80),
            w / 0x100 % 2, w / 0x800 % 4, Bit(w, 0x2_0000), Bit(w, 0x4_0000), Bit(w, 0x8_0000))
  }

  /** The registers that steer translation. */
  datatype Control = Control(mstatus: Mstatus, priv: nat, satp: nat)

  /** The privilege an access is made with. */
  function EffectivePriv(c: Control, access: Access): nat {
    if c.mstatus.mprv && access != CODE then c.mstatus.mpp else c.priv
  }

  predicate Translating(c: Control, access: Access) {
    EffectivePriv(c, access) != PRV_M && Bit(c.satp, 0x8000_0000)
  }

  /** The physical address of a page table or page, cut to a word. */
  function Frame(ppn: nat): nat { ppn * PAGE % WORD_LIMIT }

  /** Where the walk for vaddr reads its first and, below a pointer, its second entry. */
  function RootEntry(satp: nat, vaddr: nat): nat {
    Frame(satp % 0x40_0000) + vaddr / 0x40_0000 % 0x400 * 4
  }

  function LeafEntry(pte: nat, vaddr: nat): nat {
    Frame(pte / 0x400) + vaddr / PAGE % 0x400 * 4
  }

  predicate IsValid(pte: nat) { Bit(pte, 0x01) }

  predicate IsReadable(pte: nat) { Bit(pte, 0x02) }

  predicate IsWritable(pte: nat) { Bit(pte, 0x04) }

  predicate IsExecutable(pte: nat) { Bit(pte, 0x08) }

  predicate IsUser(pte: nat) { Bit(pte, 0x10) }

  predicate IsAccessed(pte: nat) { Bit(pte, 0x40) }

  predicate IsDirty(pte: nat) { Bit(pte, 0x80) }

  predicate IsPointer(pte: nat) {
    IsValid(pte) && !IsReadable(pte) && !IsWritable(pte) && !IsExecutable(pte)
  }

  /** Whether a leaf entry grants the access. */
  predicate Grants(pte: nat, m: Mstatus, priv: nat, access: Access) {
    && IsValid(pte) && !IsPointer(pte)
    && (IsWritable(pte) ==> IsReadable(pte))
    && (if priv == PRV_S then IsUser(pte) ==> m.sum else IsUser(pte))
    && match access
       case READ => IsReadable(pte) || (m.mxr && IsExecutable(pte))
       case WRITE => IsWritable(pte)
       case CODE => IsExecutable(pte)
  }

  /** The entry that a walk for vaddr ends at, and the size of what that entry maps. */
  datatype Step = Step(entry: nat, pte: nat, span: nat)

  function Walk(satp: nat, rs: seq<Range>, vaddr: nat): (w: Step)
    ensures w.pte == ReadWord(rs, w.entry) && (w.span == PAGE || w.span == 0x40_0000)
  {
    var a := RootEntry(satp, vaddr);
    var pte := ReadWord(rs, a);
    if IsPointer(pte) then
      var b := LeafEntry(pte, vaddr);
      Step(b, ReadWord(rs, b), PAGE)
    else
      Step(a, pte, 0x40_0000)
  }

  /** The physical address that a leaf entry spanning PAGE or more bytes gives vaddr. */
  function Merge(pte: nat, vaddr: nat, span: nat): nat
    requires span > 0
  {
    Frame(pte / 0x400) / span * span + vaddr % span
  }

  /** The translation of vaddr; None is a page fault.  Accessed and dirty bits play no part. */
  function Translate(c: Control, rs: seq<Range>, vaddr: nat, access: Access): Option<nat> {
    if !Translating(c, access) then Some(vaddr)
    else
      var w := Walk(c.satp, rs, vaddr);
      if Grants(w.pte, c.mstatus, EffectivePriv(c, access), access)
      then Some(Merge(w.pte, vaddr, w.span)) else None
  }

  /** An entry with its accessed bit and, for a write, its dirty bit set. */
  function Marked(pte: nat, access: Access): nat {
    pte + (if IsAccessed(pte) then 0 else 0x40) + (if IsDirty(pte) || access != WRITE then 0 else 0x80)
  }

  /** The RAM after a walk has set accessed and dirty bits. */
  function AfterWalk(c: Control, rs: seq<Range>, vaddr: nat, access: Access): seq<Range> {
    var w := Walk(c.satp, rs, vaddr);
    if Translating(c, access) && Grants(w.pte, c.mstatus, EffectivePriv(c, access), access) && Marked(w.pte, access) != w.pte
    then WriteWord(rs, w.entry, Marked(w.pte, access)) else rs
  }

  /** The RAM byte that an access to vaddr reaches, found by a fresh walk. */
  function Reaches(c: Control, rs: seq<Range>, vaddr: nat, access: Access): Option<Location> {
    match Translate(c, rs, vaddr, access)
    case None => None
    case Some(p) => RamAt(rs, p)
  }

  // -----------------------------------------------------------------------------------------
  // The walk sees pages
  // -----------------------------------------------------------------------------------------

  lemma SamePageEntries(satp: nat, pte: nat, v: nat, u: nat)
    requires v / PAGE == u / PAGE
    ensures RootEntry(satp, v) == RootEntry(satp, u) && LeafEntry(pte, v) == LeafEntry(pte, u)
  {
    assert v / 0x40_0000 == v / PAGE / 0x400;
    assert u / 0x40_0000 == u / PAGE / 0x400;
  }

  lemma SamePageMerge(pte: nat, v: nat, u: nat, span: nat)
    requires v / PAGE == u / PAGE && (span == PAGE || span == 0x40_0000)
    ensures Merge(pte, u, span) - Merge(pte, v, span) == u - v
    ensures Merge(pte, u, span) / PAGE == Merge(pte, v, span) / PAGE
  {
    hide *;
    PageIs();
    var k := if span == PAGE then 1 else 0x400;
    var f := Frame(pte / 0x400) / span;
    MergedPage(pte, v, k, span, f);
    MergedPage(pte, u, k, span, f);
  }

  lemma PageIs()
    ensures PAGE == 4096
  {
  }

  lemma MergedPage(pte: nat, v: nat, k: nat, span: nat, f: nat)
    requires k > 0 && span == k * PAGE && span > 0 && f == Frame(pte / 0x400) / span
    ensures v == v / PAGE * PAGE + v % PAGE
    ensures Merge(pte, v, span) == (f * k + v / PAGE % k) * PAGE + v % PAGE
    ensures Merge(pte, v, span) / PAGE == f * k + v / PAGE % k
  {
    hide *;
    PageIs();
    InSpan(v, k, span);
    MergeIs(pte, v, span, f);
    Arith.DigitsRegrouped(f, k, v / PAGE % k, PAGE, v % PAGE);
    Arith.DivUnique(Merge(pte, v, span), PAGE, f * k + v / PAGE % k, v % PAGE);
  }

  lemma MergeIs(pte: nat, v: nat, span: nat, f: nat)
    requires span > 0 && f == Frame(pte / 0x400) / span
    ensures Merge(pte, v, span) == f * span + v % span
  {
  }

  /** An address inside a span of k pages. */
  lemma InSpan(v: nat, k: nat, span: nat)
    requires k > 0 && span == k * PAGE && span > 0
    ensures v % span == v / PAGE % k * PAGE + v % PAGE && v == v / PAGE * PAGE + v % PAGE
  {
    var q, r := v / PAGE, v % PAGE;
    var a, b := q / k, q % k;
    Arith.DigitsRegrouped(a, k, b, PAGE, r);
    Arith.DivUnique(v, span, a, b * PAGE + r);
  }

  lemma SamePageTranslates(c: Control, rs: seq<Range>, v: nat, u: nat, access: Access)
    requires v / PAGE == u / PAGE
    ensures Translate(c, rs, v, access).None? <==> Translate(c, rs, u, access).None?
    ensures Translate(c, rs, v, access).Some? ==>
            var p, q := Translate(c, rs, v, access).value, Translate(c, rs, u, access).value;
            q - p == u - v && q / PAGE == p / PAGE
  {
    hide Merge, Grants, RootEntry, LeafEntry, ReadWord, IsPointer, Translating;
    SamePageEntries(c.satp, ReadWord(rs, RootEntry(c.satp, v)), v, u);
    var w := Walk(c.satp, rs, v);
    SamePageMerge(w.pte, v, u, w.span);
  }

  /** Addresses of one page reach bytes equally far apart. */
  lemma SamePageReaches(c: Control, rs: seq<Range>, v: nat, u: nat, access: Access)
    requires WellPlaced(rs) && v / PAGE == u / PAGE && Reaches(c, rs, v, access).Some?
    ensures var l, k := Reaches(c, rs, v, access), Reaches(c, rs, u, access);
            k.Some? && k.value.range == l.value.range && k.value.offset - l.value.offset == u - v
  {
    hide Translate, RamAt;
    SamePageTranslates(c, rs, v, u, access);
    PageRam(rs, Translate(c, rs, v, access).value, Translate(c, rs, u, access).value);
  }

  // -----------------------------------------------------------------------------------------
  // The walk ignores accessed and dirty bits
  // -----------------------------------------------------------------------------------------

  /** Equal but for bits 6 and 7. */
  predicate EqualButAD(p: nat, q: nat) { p / 0x100 == q / 0x100 && p % 0x40 == q % 0x40 }

  /** The same map and, accessed and dirty bits of every word aside, the same contents. */
  ghost predicate SameButAD(rs: seq<Range>, ts: seq<Range>) {
    SameMap(rs, ts) &&
    forall i, o: nat :: 0 <= i < |rs| ==> EqualButAD(WordIn(rs[i], o), WordIn(ts[i], o))
  }

  lemma ReadsSameButAD(rs: seq<Range>, ts: seq<Range>, p: nat)
    requires SameButAD(rs, ts)
    ensures EqualButAD(ReadWord(rs, p), ReadWord(ts, p))
  {
    hide WordIn, RamAt;
    SameMapRam(rs, ts, p);
    if RamAt(rs, p).Some? {
      var l := RamAt(rs, p).value;
      assert EqualButAD(WordIn(rs[l.range], l.offset), WordIn(ts[l.range], l.offset));
    } else {
      EqualToItself(0);
    }
  }

  lemma EqualToItself(p: nat)
    ensures EqualButAD(p, p)
  {
  }

  lemma BitsIgnoreAD(p: nat, q: nat)
    requires EqualButAD(p, q)
    ensures IsValid(p) == IsValid(q) && IsReadable(p) == IsReadable(q) && IsWritable(p) == IsWritable(q)
    ensures IsExecutable(p) == IsExecutable(q) && IsUser(p) == IsUser(q) && p / 0x400 == q / 0x400
  {
    LowBit(p, q, 1);
    LowBit(p, q, 2);
    LowBit(p, q, 4);
    LowBit(p, q, 8);
    LowBit(p, q, 16);
    assert p / 0x400 == p / 0x100 / 4;
    assert q / 0x400 == q / 0x100 / 4;
  }

  lemma LowBit(p: nat, q: nat, weight: nat)
    requires p % 0x40 == q % 0x40 && (weight == 1 || weight == 2 || weight == 4 || weight == 8 || weight == 16)
    ensures Bit(p, weight) == Bit(q, weight)
  {
    var k := 0x40 / weight;
    LowBits(p, p / 0x40, p % 0x40, k, weight, 0x40);
    LowBits(q, q / 0x40, q % 0x40, k, weight, 0x40);
  }

  /** A multiple of `span` does not touch the bits below it. */
  lemma LowBits(p: nat, h: nat, l: nat, k: nat, weight: nat, span: nat)
    requires weight > 0 && k % 2 == 0 && k * weight == span && p == h * span + l
    ensures Bit(p, weight) == Bit(l, weight)
  {
    hide *;
    var d, m := l / weight, l % weight;
    Arith.DigitsRegrouped(h, k, d, weight, m);
    Arith.DivUnique(p, weight, h * k + d, m);
    Arith.EvenMultiple(h, k);
    Arith.EvenPlus(h * k, d);
    BitIs(p, weight);
    BitIs(l, weight);
  }

  lemma BitIs(p: nat, weight: nat)
    requires weight > 0
    ensures Bit(p, weight) == (p / weight % 2 == 1)
  {
  }

  lemma EntryIgnoresAD(p: nat, q: nat, vaddr: nat, span: nat, m: Mstatus, priv: nat, access: Access)
    requires EqualButAD(p, q) && span > 0
    ensures IsPointer(p) == IsPointer(q) && LeafEntry(p, vaddr) == LeafEntry(q, vaddr)
    ensures Merge(p, vaddr, span) == Merge(q, vaddr, span)
    ensures Grants(p, m, priv, access) == Grants(q, m, priv, access)
  {
    hide Bit, EqualButAD, Frame, IsValid, IsReadable, IsWritable, IsExecutable, IsUser;
    BitsIgnoreAD(p, q);
  }

  lemma TranslateIgnoresAD(c: Control, rs: seq<Range>, ts: seq<Range>, vaddr: nat, access: Access)
    requires SameButAD(rs, ts)
    ensures Translate(c, rs, vaddr, access) == Translate(c, ts, vaddr, access)
    ensures Walk(c.satp, rs, vaddr).entry == Walk(c.satp, ts, vaddr).entry
  {
    hide Merge, Grants, RootEntry, LeafEntry, ReadWord, IsPointer, Translating, SameButAD, EqualButAD;
    var a := RootEntry(c.satp, vaddr);
    var p, q := ReadWord(rs, a), ReadWord(ts, a);
    var priv := EffectivePriv(c, access);
    ReadsSameButAD(rs, ts, a);
    EntryIgnoresAD(p, q, vaddr, 0x40_0000, c.mstatus, priv, access);
    var b := LeafEntry(p, vaddr);
    ReadsSameButAD(rs, ts, b);
    EntryIgnoresAD(ReadWord(rs, b), ReadWord(ts, b), vaddr, PAGE, c.mstatus, priv, access);
  }

  lemma ReachesIgnoresAD(c: Control, rs: seq<Range>, ts: seq<Range>, vaddr: nat, access: Access)
    requires SameButAD(rs, ts)
    ensures Reaches(c, rs, vaddr, access) == Reaches(c, ts, vaddr, access)
  {
    hide Translate, RamAt, Walk;
    TranslateIgnoresAD(c, rs, ts, vaddr, access);
    var p := Translate(c, rs, vaddr, access);
    if p.Some? { SameMapRam(rs, ts, p.value); }
  }

  lemma MarkedOnlyAD(pte: nat, access: Access)
    ensures EqualButAD(pte, Marked(pte, access))
  {
    hide Bit;
    var h, r := pte / 0x100, pte % 0x100;
    var d, s := r / 0x80, r % 0x80;
    var a, l := s / 0x40, s % 0x40;
    ADBits(pte, h, d, a, l);
    var d', a' := if access == WRITE then 1 else d, 1;
    ADBits(Marked(pte, access), h, d', a', l);
  }

  /** A word put together from bits 8 and up, bits 7 and 6, and the lowest six. */
  lemma ADBits(p: nat, h: nat, d: nat, a: nat, l: nat)
    requires d < 2 && a < 2 && l < 0x40 && p == 0x100 * h + 0x80 * d + 0x40 * a + l
    ensures IsDirty(p) == (d == 1) && IsAccessed(p) == (a == 1) && p / 0x100 == h && p % 0x40 == l
  {
    hide Bit;
    Arith.DivUnique(p, 0x100, h, 0x80 * d + 0x40 * a + l);
    Arith.DivUnique(p, 0x80, 2 * h + d, 0x40 * a + l);
    Arith.DivUnique(p, 0x40, 2 * (2 * h + d) + a, l);
    LastBit(h, d);
    LastBit(2 * h + d, a);
    BitIs(p, 0x80);
    BitIs(p, 0x40);
  }

  lemma LastBit(h: nat, b: nat)
    requires b < 2
    ensures (2 * h + b) % 2 == b
  {
  }

  /** Setting accessed and dirty bits is all that a walk does to RAM. */
  lemma AfterWalkSameButAD(c: Control, rs: seq<Range>, vaddr: nat, access: Access)
    ensures SameButAD(rs, AfterWalk(c, rs, vaddr, access))
  {
    hide Walk, Translating, Marked, RamAt, Grants, EqualButAD;
    var w := Walk(c.satp, rs, vaddr);
    MarkedOnlyAD(w.pte, access);
    forall p: nat ensures EqualButAD(p, p) { EqualToItself(p); }
    WriteSameButAD(rs, w.entry, Marked(w.pte, access));
  }

  lemma WriteSameButAD(rs: seq<Range>, p: nat, w: nat)
    requires EqualButAD(ReadWord(rs, p), w)
    ensures SameButAD(rs, WriteWord(rs, p, w))
  {
    hide RamAt, EqualButAD;
    forall q: nat ensures EqualButAD(q, q) { EqualToItself(q); }
  }

  // -----------------------------------------------------------------------------------------
  // Which words the walks read
  // -----------------------------------------------------------------------------------------

  predicate SameWord(l: Option<Location>, m: Location) {
    l.Some? && l.value.range == m.range && l.value.offset / 4 == m.offset / 4
  }

  /** The walk for vaddr reads the word at l. */
  predicate ReadsTable(satp: nat, rs: seq<Range>, vaddr: nat, l: Location) {
    var a := RootEntry(satp, vaddr);
    || SameWord(RamAt(rs, a), l)
    || (IsPointer(ReadWord(rs, a)) && SameWord(RamAt(rs, LeafEntry(ReadWord(rs, a), vaddr)), l))
  }

  /** The word at l holds an entry of the page tables that satp names. */
  ghost predicate IsTableWord(satp: nat, rs: seq<Range>, l: Location) {
    exists vaddr: nat :: vaddr < WORD_LIMIT && ReadsTable(satp, rs, vaddr, l)
  }

  lemma OtherWordKept(rs: seq<Range>, l: Location, w: nat, p: nat)
    requires l.range < |rs| && !SameWord(RamAt(rs, p), l)
    ensures ReadWord(PutWord(rs, l, w), p) == ReadWord(rs, p)
  {
    hide RamAt;
    PutKeepsMap(rs, l, w);
    SameMapRam(rs, PutWord(rs, l, w), p);
  }

  lemma PutKeepsMap(rs: seq<Range>, l: Location, w: nat)
    requires l.range < |rs|
    ensures SameMap(rs, PutWord(rs, l, w))
  {
  }

  /** Storing elsewhere leaves every translation alone. */
  lemma StoreElsewhere(c: Control, rs: seq<Range>, l: Location, w: nat, vaddr: nat, access: Access)
    requires l.range < |rs| && (Translating(c, access) ==> !ReadsTable(c.satp, rs, vaddr, l))
    ensures Reaches(c, PutWord(rs, l, w), vaddr, access) == Reaches(c, rs, vaddr, access)
  {
    hide Merge, Grants, RootEntry, LeafEntry, ReadWord, IsPointer, Translating, RamAt, PutWord, SameWord;
    var a := RootEntry(c.satp, vaddr);
    var ts := PutWord(rs, l, w);
    if Translating(c, access) {
      OtherWordKept(rs, l, w, a);
      if IsPointer(ReadWord(rs, a)) { OtherWordKept(rs, l, w, LeafEntry(ReadWord(rs, a), vaddr)); }
    }
    assert Translate(c, ts, vaddr, access) == Translate(c, rs, vaddr, access);
    PutKeepsMap(rs, l, w);
    if Translate(c, rs, vaddr, access).Some? { SameMapRam(rs, ts, Translate(c, rs, vaddr, access).value); }
  }
}
