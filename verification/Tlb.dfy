/** The software TLBs of riscv_cpu.c and riscv_cpu_priv.h, with 32-bit registers, as a state
    machine: what each of them answers, and everything that fills, flushes or outdates them. */
module Tlb {
  import opened PhysMemory
  import opened Wrappers
  import opened Sv32
  import Arith

  const TLB_SIZE := 256

  /** TLBEntry.  The host address of vaddr is that of range, plus addend, plus vaddr. */
  datatype Entry = Entry(vaddr: nat, range: nat, addend: int)

  /** The vaddr of an unused entry: -1 as a word. */
  const UNUSED: nat := 0xffff_ffff

  datatype State = State(control: Control, ranges: seq<Range>, read: seq<Entry>, write: seq<Entry>, code: seq<Entry>) {

    function Entries(access: Access): seq<Entry> {
      match access
      case READ => read
      case WRITE => write
      case CODE => code
    }

    predicate Sized() {
      |read| == TLB_SIZE && |write| == TLB_SIZE && |code| == TLB_SIZE
    }
  }

  function Base(v: nat): nat { v / PAGE * PAGE }

  function Index(v: nat): (i: nat)
    ensures i < TLB_SIZE
  {
    v / PAGE % TLB_SIZE
  }

  /** What the fast path compares with the entry: for an aligned access, the page's address. */
  function Tag(v: nat, size: nat): nat
    requires size > 0
  {
    Base(v) + v % size
  }

  function HostOf(e: Entry, v: nat): Location {
    Location(e.range, if e.addend + v < 0 then 0 else e.addend + v)
  }

  /** The RAM byte that the fast path of an access of the given size uses, if it hits. */
  function Hit(es: seq<Entry>, v: nat, size: nat): Option<Location>
    requires |es| == TLB_SIZE && size > 0
  {
    var e := es[Index(v)];
    if e.vaddr == Tag(v, size) then Some(HostOf(e, v)) else None
  }

  // -----------------------------------------------------------------------------------------
  // Steps
  // -----------------------------------------------------------------------------------------

  /** tlb_init on one TLB: every entry becomes unused. */
  function Flushed(es: seq<Entry>): (fs: seq<Entry>)
    ensures |fs| == |es| && forall i :: 0 <= i < |es| ==> fs[i] == es[i].(vaddr := UNUSED)
  {
    seq(|es|, i requires 0 <= i < |es| => es[i].(vaddr := UNUSED))
  }

  /** tlb_flush_all */
  function FlushAll(s: State): State {
    s.(read := Flushed(s.read), write := Flushed(s.write), code := Flushed(s.code))
  }

  function Filled(es: seq<Entry>, v: nat, l: Location): seq<Entry>
    requires |es| == TLB_SIZE
  {
    es[Index(v) := Entry(Base(v), l.range, l.offset - v)]
  }

  function Fill(s: State, access: Access, v: nat, l: Location): State
    requires s.Sized()
  {
    match access
    case READ => s.(read := Filled(s.read, v, l))
    case WRITE => s.(write := Filled(s.write, v, l))
    case CODE => s.(code := Filled(s.code, v, l))
  }

  /** phys_mem_set_dirty_bit */
  function SetDirty(rs: seq<Range>, l: Location): seq<Range>
    requires l.range < |rs|
  {
    var r := rs[l.range];
    if r.tracked then rs[l.range := r.(dirty := r.dirty + {l.offset / PAGE})] else rs
  }

  /** A word with `size` bytes from byte `at` on replaced. */
  function Inserted(w: nat, at: nat, size: nat, val: nat): nat {
    var above := 8 * (at + size);
    Arith.Shl(Arith.Quotient(w, Arith.Pow2(above)), above) + Arith.Shl(val % Arith.Pow2(8 * size), 8 * at)
      + w % Arith.Pow2(8 * at)
  }

  /** A store of 1, 2 or 4 bytes, aligned, to RAM. */
  function StoreAt(rs: seq<Range>, l: Location, size: nat, val: nat): seq<Range>
    requires l.range < |rs|
  {
    PutWord(rs, l, Inserted(WordIn(rs[l.range], l.offset), l.offset % 4, size, val))
  }

  /** target_read_slow, target_write_slow and target_read_insn_slow up to the access itself: walk,
      set accessed and dirty bits, note the page as dirty, fill the TLB.  Also the byte found. */
  function Slow(s: State, access: Access, v: nat): (State, Option<Location>)
    requires s.Sized()
  {
    match Translate(s.control, s.ranges, v, access)
    case None => (s, None)
    case Some(p) =>
      var rs := AfterWalk(s.control, s.ranges, v, access);
      match RamAt(rs, p)
      case None => (s.(ranges := rs), None)
      case Some(l) =>
        (Fill(s.(ranges := if access == WRITE then SetDirty(rs, l) else rs), access, v, l), Some(l))
  }

  /** An aligned access: the fast path if it hits, else the slow one.  Also the byte used. */
  function Accessed(s: State, access: Access, v: nat, size: nat): (State, Option<Location>)
    requires s.Sized() && size > 0
  {
    var h := Hit(s.Entries(access), v, size);
    if h.Some? then (s, h) else Slow(s, access, v)
  }

  /** What becomes of an access: a page fault, a byte of RAM used, or a physical address outside
      RAM that is left to a device. */
  datatype Outcome = Fault | Ram(at: Location) | Outside(p: nat)

  /** The outcome by a fresh walk */
  function Walked(c: Control, rs: seq<Range>, v: nat, access: Access): Outcome {
    match Translate(c, rs, v, access)
    case None => Fault
    case Some(p) => match RamAt(rs, p) case None => Outside(p) case Some(l) => Ram(l)
  }

  /** The outcome through the TLB: a miss walks, sets accessed and dirty bits, and looks up what
      the walk has found after that. */
  function OutcomeOf(s: State, access: Access, v: nat, size: nat): Outcome
    requires s.Sized() && size > 0
  {
    match Hit(s.Entries(access), v, size)
    case Some(l) => Ram(l)
    case None =>
      match Translate(s.control, s.ranges, v, access)
      case None => Fault
      case Some(p) =>
        match RamAt(AfterWalk(s.control, s.ranges, v, access), p) case None => Outside(p) case Some(l) => Ram(l)
  }

  function Stored(s: State, v: nat, size: nat, val: nat): State
    requires s.Sized() && size > 0
  {
    var a := Accessed(s, WRITE, v, size);
    var t, l := a.0, a.1;
    if l.Some? && l.value.range < |t.ranges| then t.(ranges := StoreAt(t.ranges, l.value, size, val)) else t
  }

  /** set_mstatus, given the fields of the word written. */
  function SetMstatus(s: State, m: Mstatus): State {
    var before := s.control.mstatus;
    var t := if ChangesMmu(before, m) then FlushAll(s) else s;
    t.(control := t.control.(mstatus := m))
  }

  predicate ChangesMmu(b: Mstatus, m: Mstatus) {
    b.mprv != m.mprv || b.sum != m.sum || b.mxr != m.mxr || (b.mprv && b.mpp != m.mpp)
  }

  /** A word written to mstatus: all fields but hie. */
  function WithMstatus(m: Mstatus, w: Mstatus): Mstatus { w.(hie := m.hie) }

  /** The fields that sstatus shows, from the word written; the others kept. */
  function WithSstatus(m: Mstatus, w: Mstatus): Mstatus {
    m.(uie := w.uie, sie := w.sie, upie := w.upie, spie := w.spie, spp := w.spp, sum := w.sum, mxr := w.mxr)
  }

  /** csr_write to satp: 22 bits of page number and the mode bit are kept. */
  function SetSatp(s: State, w: nat): State {
    FlushAll(s.(control := s.control.(satp := w % 0x40_0000 + (if Bit(w, 0x8000_0000) then 0x8000_0000 else 0))))
  }

  function SetPriv(s: State, priv: nat): State {
    if s.control.priv != priv then FlushAll(s.(control := s.control.(priv := priv))) else s
  }

  function EnabledAt(m: Mstatus, priv: nat): bool {
    if priv == 0 then m.uie else if priv == 1 then m.sie else if priv == 2 then m.hie else if priv == 3 then m.mie else false
  }

  function WithEnabledAt(m: Mstatus, priv: nat, ie: bool): (n: Mstatus)
    ensures n.sum == m.sum && n.mxr == m.mxr && n.mprv == m.mprv && n.mpp == m.mpp && n.spp == m.spp
  {
    if priv == 0 then m.(uie := ie) else if priv == 1 then m.(sie := ie) else if priv == 2 then m.(hie := ie)
    else if priv == 3 then m.(mie := ie) else m
  }

  /** raise_exception2; `delegated` is the cause's bit of medeleg or mideleg. */
  function TakeTrap(s: State, delegated: bool): State {
    var m, priv := s.control.mstatus, s.control.priv;
    if priv <= PRV_S && delegated then
      SetPriv(s.(control := s.control.(mstatus := m.(spie := EnabledAt(m, priv), spp := priv, sie := false))), PRV_S)
    else
      SetPriv(s.(control := s.control.(mstatus := m.(mpie := EnabledAt(m, priv), mpp := priv, mie := false))), PRV_M)
  }

  /** handle_sret */
  function Sret(s: State): State {
    var m := s.control.mstatus;
    SetPriv(s.(control := s.control.(mstatus := WithEnabledAt(m, m.spp, m.spie).(spie := true, spp := 0))), m.spp)
  }

  /** handle_mret */
  function Mret(s: State): State {
    var m := s.control.mstatus;
    SetPriv(s.(control := s.control.(mstatus := WithEnabledAt(m, m.mpp, m.mpie).(mpie := true, mpp := 0))), m.mpp)
  }

  /** A device's write to RAM through phys_mem_get_ram_ptr. */
  function AfterDevice(rs: seq<Range>, p: nat, size: nat, val: nat): seq<Range> {
    match RamAt(rs, p)
    case None => rs
    case Some(l) => StoreAt(SetDirty(rs, l), l, size, val)
  }

  function DeviceStored(s: State, p: nat, size: nat, val: nat): State {
    s.(ranges := AfterDevice(s.ranges, p, size, val))
  }

  /** riscv_cpu_flush_tlb_write_range_ram for the bytes from lo up to hi of a range. */
  function WithoutRange(es: seq<Entry>, range: nat, lo: nat, hi: nat): (r: seq<Entry>)
    ensures |r| == |es| && forall i :: 0 <= i < |es| ==> r[i] == if InRange(es[i], range, lo, hi) then es[i].(vaddr := UNUSED) else es[i]
  {
    seq(|es|, i requires 0 <= i < |es| => if InRange(es[i], range, lo, hi) then es[i].(vaddr := UNUSED) else es[i])
  }

  predicate InRange(e: Entry, range: nat, lo: nat, hi: nat) {
    e.vaddr != UNUSED && e.range == range && lo <= e.vaddr + e.addend < hi
  }

  /** default_get_dirty_bits: the pages found dirty are returned and forgotten. */
  function TakeDirty(s: State, range: nat): State
    requires range < |s.ranges|
  {
    var r := s.ranges[range];
    var t := if r.dirty != {} && r.size != 0 then s.(write := WithoutRange(s.write, range, 0, r.orgSize)) else s;
    t.(ranges := s.ranges[range := r.(dirty := {})])
  }

  /** phys_mem_reset_dirty_bit */
  function ResetDirty(s: State, range: nat, offset: nat): State
    requires range < |s.ranges|
  {
    var r := s.ranges[range];
    if r.tracked && offset / PAGE in r.dirty then
      s.(ranges := s.ranges[range := r.(dirty := r.dirty - {offset / PAGE})],
         write := WithoutRange(s.write, range, Base(offset), Base(offset) + PAGE))
    else s
  }

  /** A range at a new address, or disabled */
  function MovedRange(r: Range, addr: nat, enabled: bool): Range {
    if enabled then r.(addr := addr, size := r.orgSize) else r.(addr := 0, size := 0)
  }

  /** default_set_addr */
  function Move(s: State, range: nat, addr: nat, enabled: bool): State
    requires range < |s.ranges|
  {
    var r := s.ranges[range];
    if (enabled && (r.size == 0 || r.addr != addr)) || (!enabled && r.size != 0) then
      var t := if r.isRam then s.(write := WithoutRange(s.write, range, 0, r.orgSize)) else s;
      t.(ranges := s.ranges[range := MovedRange(r, addr, enabled)])
    else s
  }

  datatype Event =
    | Load(v: nat, size: nat)
    | Store(v: nat, size: nat, val: nat)
    | Fetch(v: nat)
    | WriteMstatus(w: nat)
    | WriteSstatus(w: nat)
    | WriteSatp(w: nat)
    | Trap(delegated: bool)
    | ReturnS
    | ReturnM
    | Fence
    | DeviceStore(p: nat, size: nat, val: nat)
    | GetDirtyBits(range: nat)
    | ResetDirtyBit(range: nat, offset: nat)
    | SetAddr(range: nat, addr: nat, enabled: bool)

  predicate AccessSize(size: nat) { size == 1 || size == 2 || size == 4 }

  /** What callers guarantee: addresses are words, accesses are aligned (an unaligned one is
      split into aligned ones), device and RAM ranges exist, and RAM stays well placed. */
  predicate Possible(s: State, e: Event) {
    match e
    case Load(v, size) => v < WORD_LIMIT && AccessSize(size) && v % size == 0
    case Store(v, size, _) => v < WORD_LIMIT && AccessSize(size) && v % size == 0
    case Fetch(v) => v < WORD_LIMIT && v % 2 == 0
    case DeviceStore(p, size, _) => AccessSize(size) && p % size == 0
    case GetDirtyBits(range) => range < |s.ranges| && s.ranges[range].tracked
    case ResetDirtyBit(range, _) => range < |s.ranges|
    case SetAddr(range, addr, enabled) => range < |s.ranges| && WellPlaced(Move(s, range, addr, enabled).ranges)
    case _ => true
  }

  function Next(s: State, e: Event): (t: State)
    requires s.Sized() && Possible(s, e)
    ensures t.Sized()
  {
    match e
    case Load(v, size) => Accessed(s, READ, v, size).0
    case Store(v, size, val) => Stored(s, v, size, val)
    case Fetch(v) => Accessed(s, CODE, v, 1).0
    case WriteMstatus(w) => SetMstatus(s, WithMstatus(s.control.mstatus, FieldsOf(w)))
    case WriteSstatus(w) => SetMstatus(s, WithSstatus(s.control.mstatus, FieldsOf(w)))
    case WriteSatp(w) => SetSatp(s, w)
    case Trap(delegated) => TakeTrap(s, delegated)
    case ReturnS => Sret(s)
    case ReturnM => Mret(s)
    case Fence => FlushAll(s)
    case DeviceStore(p, size, val) => DeviceStored(s, p, size, val)
    case GetDirtyBits(range) => TakeDirty(s, range)
    case ResetDirtyBit(range, offset) => ResetDirty(s, range, offset)
    case SetAddr(range, addr, enabled) => Move(s, range, addr, enabled)
  }
}
