/** The memory side of RISCVCPUState, as the code updates it in place: every method is one event
    of the state machine in Tlb, on which the theorems of TlbCoherence and DirtyTracking are
    proved. */
module Cpu {
  import opened PhysMemory
  import opened Wrappers
  import opened Sv32
  import opened Tlb
  import opened TlbCoherence
  import opened MemoryBytes
  import DirtyBitmap
  import Arith

  /** Writing a TLB entry's slot. */
  method FlushTlb(es: array<Entry>)
    requires es.Length == TLB_SIZE
    modifies es
    ensures es[..] == Flushed(old(es[..]))
  {
    var i := 0;
    while i < TLB_SIZE
      invariant 0 <= i <= TLB_SIZE
      invariant forall k :: 0 <= k < i ==> es[k] == old(es[k]).(vaddr := UNUSED)
      invariant forall k :: i <= k < TLB_SIZE ==> es[k] == old(es[k])
    {
      es[i] := es[i].(vaddr := UNUSED);
      i := i + 1;
    }
  }

  /** riscv_cpu_flush_tlb_write_range_ram */
  method FlushWriteRange(es: array<Entry>, range: nat, lo: nat, hi: nat)
    requires es.Length == TLB_SIZE
    modifies es
    ensures es[..] == WithoutRange(old(es[..]), range, lo, hi)
  {
    hide InRange;
    var i := 0;
    while i < TLB_SIZE
      invariant 0 <= i <= TLB_SIZE
      invariant forall k :: 0 <= k < i ==>
        es[k] == if InRange(old(es[k]), range, lo, hi) then old(es[k]).(vaddr := UNUSED) else old(es[k])
      invariant forall k :: i <= k < TLB_SIZE ==> es[k] == old(es[k])
    {
      if InRange(es[i], range, lo, hi) { es[i] := es[i].(vaddr := UNUSED); }
      i := i + 1;
    }
  }

  /** get_phys_mem_range */
  method GetRange(rs: seq<Range>, p: nat) returns (r: Option<nat>)
    ensures r == FindRange(rs, p, 0)
  {
    var i := 0;
    while i < |rs|
      invariant 0 <= i <= |rs| && FindRange(rs, p, 0) == FindRange(rs, p, i)
    {
      if Contains(rs[i], p) { return Some(i); }
      i := i + 1;
    }
    return None;
  }

  /** The privilege and protection checks of a walk's last entry. */
  method CheckLeaf(pte: nat, m: Mstatus, priv: nat, access: Access) returns (granted: bool)
    requires IsValid(pte) && !IsPointer(pte)
    ensures granted == Grants(pte, m, priv, access)
  {
    hide Bit;
    if IsWritable(pte) && !IsReadable(pte) { return false; }
    if priv == PRV_S {
      if IsUser(pte) && !m.sum { return false; }
    } else {
      if !IsUser(pte) { return false; }
    }
    var readable := IsReadable(pte) || (m.mxr && IsExecutable(pte));
    granted := match access case READ => readable case WRITE => IsWritable(pte) case CODE => IsExecutable(pte);
  }

  lemma LeafOrPointer(pte: nat, m: Mstatus, priv: nat, access: Access)
    ensures IsPointer(pte) <==> IsValid(pte) && !IsReadable(pte) && !IsWritable(pte) && !IsExecutable(pte)
    ensures !IsValid(pte) || IsPointer(pte) ==> !Grants(pte, m, priv, access)
  {
    hide Bit;
  }

  lemma MarkedChanges(pte: nat, access: Access)
    ensures Marked(pte, access) != pte <==> !IsAccessed(pte) || (!IsDirty(pte) && access == WRITE)
  {
    hide Bit;
  }

  /** Walk, translation and marking, one level at a time. */
  lemma WalkIs(c: Control, rs: seq<Range>, vaddr: nat, access: Access)
    ensures var root := ReadWord(rs, RootEntry(c.satp, vaddr));
            var w := Walk(c.satp, rs, vaddr);
            w == if IsPointer(root) then Step(LeafEntry(root, vaddr), ReadWord(rs, LeafEntry(root, vaddr)), PAGE)
                 else Step(RootEntry(c.satp, vaddr), root, 0x40_0000)
    ensures var w := Walk(c.satp, rs, vaddr);
            var p := EffectivePriv(c, access);
            var on := p != PRV_M && Bit(c.satp, 0x8000_0000);
            var granted := Grants(w.pte, c.mstatus, p, access);
            && Translate(c, rs, vaddr, access) ==
               (if !on then Some(vaddr) else if granted then Some(Merge(w.pte, vaddr, w.span)) else None)
            && AfterWalk(c, rs, vaddr, access) ==
               if on && granted && Marked(w.pte, access) != w.pte then WriteWord(rs, w.entry, Marked(w.pte, access)) else rs
  {
    hide Grants, Merge, Marked, WriteWord, ReadWord, RootEntry, LeafEntry, Bit, IsPointer;
  }

  /** A word written changes nothing that is noted of a range. */
  lemma SameNotes(rs: seq<Range>, p: nat, w: nat)
    ensures var ts := WriteWord(rs, p, w);
            |ts| == |rs| && forall i :: 0 <= i < |rs| ==> ts[i] == rs[i].(words := ts[i].words)
  {
    hide RamAt;
  }

  /** A page fault leaves RAM alone. */
  lemma FaultKeeps(c: Control, rs: seq<Range>, v: nat, access: Access)
    ensures Translate(c, rs, v, access).None? ==> AfterWalk(c, rs, v, access) == rs
  {
    hide Walk, Grants, Translating, Marked;
  }

  lemma NotesKept(rs: seq<Range>, l: Location)
    requires l.range < |rs|
    ensures |SetDirty(rs, l)| == |rs|
  {
  }

  lemma PageOf(offset: nat, pages: nat)
    requires offset < PAGE * pages
    ensures offset / PAGE < pages
  {
  }

  class Memory {
    var mstatus: Mstatus
    var priv: nat
    var satp: nat
    var ranges: seq<Range>
    const tlbRead: array<Entry>
    const tlbWrite: array<Entry>
    const tlbCode: array<Entry>

    /** The framebuffer's range, whose stores are noted in two bitmaps */
    const fb: nat
    const bits: DirtyBitmap.DirtyBits

    /** The bitmap in use marks the pages that are noted as dirty. */
    ghost predicate Joined()
      reads this`ranges, bits, bits.first, bits.second
    {
      fb < |ranges| && ranges[fb].tracked ==>
        && bits.Valid() && bits.pages == ranges[fb].dirty
        && ranges[fb].size <= ranges[fb].orgSize <= PAGE * (32 * bits.first.Length)
    }

    predicate Valid() {
      && tlbRead.Length == TLB_SIZE && tlbWrite.Length == TLB_SIZE && tlbCode.Length == TLB_SIZE
      && tlbRead != tlbWrite && tlbRead != tlbCode && tlbWrite != tlbCode
    }

    /** The state as a value. */
    function Now(): (s: State)
      requires Valid()
      reads this, tlbRead, tlbWrite, tlbCode
      ensures s.Sized()
    {
      State(Control(mstatus, priv, satp), ranges, tlbRead[..], tlbWrite[..], tlbCode[..])
    }

    /** riscv_cpu_init: machine mode, no translation, unused TLBs. */
    constructor (rs: seq<Range>, framebuffer: nat)
      requires framebuffer < |rs| && rs[framebuffer].tracked ==>
                 rs[framebuffer].dirty == {} && rs[framebuffer].size <= rs[framebuffer].orgSize && rs[framebuffer].orgSize % PAGE == 0
      ensures Valid() && ranges == rs && Now() == FlushAll(Now()) && fb == framebuffer && Joined()
      ensures fresh(tlbRead) && fresh(tlbWrite) && fresh(tlbCode) && fresh(bits) && fresh(bits.first) && fresh(bits.second)
    {
      mstatus, priv, satp := FieldsOf(0), PRV_M, 0;
      ranges := rs;
      fb := framebuffer;
      bits := new DirtyBitmap.DirtyBits(if framebuffer < |rs| then rs[framebuffer].orgSize / PAGE else 0);
      tlbRead := new Entry[TLB_SIZE](i => Entry(UNUSED, 0, 0));
      tlbWrite := new Entry[TLB_SIZE](i => Entry(UNUSED, 0, 0));
      tlbCode := new Entry[TLB_SIZE](i => Entry(UNUSED, 0, 0));
    }

    /** tlb_flush_all */
    method Flush()
      requires Valid()
      modifies tlbRead, tlbWrite, tlbCode
      ensures Now() == FlushAll(old(Now()))
    {
      FlushTlb(tlbRead);
      FlushTlb(tlbWrite);
      FlushTlb(tlbCode);
    }

    /** get_phys_addr.  The walk goes down two levels at most. */
    method GetPhysAddr(vaddr: nat, access: Access) returns (paddr: Option<nat>)
      requires Valid() && Joined()
      modifies this`ranges
      ensures Joined()
      ensures paddr == Translate(old(Now()).control, old(ranges), vaddr, access)
      ensures ranges == AfterWalk(old(Now()).control, old(ranges), vaddr, access)
    {
      hide Grants, Merge, Marked, WriteWord, ReadWord, Frame, Bit, IsPointer, IsValid, IsReadable, IsWritable,
        IsExecutable, IsUser, IsAccessed, IsDirty, AfterWalk, Translate, Walk, Translating;
      var p := if mstatus.mprv && access != CODE then mstatus.mpp else priv;
      WalkIs(Control(mstatus, priv, satp), ranges, vaddr, access);
      if p == PRV_M { return Some(vaddr); }
      if !Bit(satp, 0x8000_0000) { return Some(vaddr); }
      ghost var root := ReadWord(ranges, RootEntry(satp, vaddr));
      var pteAddr := Frame(satp % 0x40_0000);
      var level, span: nat := 0, 0x40_0000;
      while level < 2
        invariant level <= 2 && ranges == old(ranges)
        invariant level == 0 ==> pteAddr == Frame(satp % 0x40_0000) && span == 0x40_0000
        invariant level == 1 ==> pteAddr == Frame(root / 0x400) && span == PAGE
        invariant level >= 1 ==> IsPointer(root)
        invariant level == 2 ==> IsPointer(Walk(satp, ranges, vaddr).pte)
      {
        pteAddr := pteAddr + vaddr / span % 0x400 * 4;
        var pte := ReadWord(ranges, pteAddr);
        LeafOrPointer(pte, mstatus, p, access);
        if !IsValid(pte) { return None; }
        if IsReadable(pte) || IsWritable(pte) || IsExecutable(pte) {
          var granted := CheckLeaf(pte, mstatus, p, access);
          if !granted { return None; }
          MarkedChanges(pte, access);
          var needWrite := !IsAccessed(pte) || (!IsDirty(pte) && access == WRITE);
          if needWrite {
            SameNotes(ranges, pteAddr, Marked(pte, access));
            ranges := WriteWord(ranges, pteAddr, Marked(pte, access));
          }
          return Some(Merge(pte, vaddr, span));
        }
        pteAddr := Frame(pte / 0x400);
        span := PAGE;
        level := level + 1;
      }
      LeafOrPointer(Walk(satp, ranges, vaddr).pte, mstatus, p, access);
      return None;
    }

    /** phys_mem_set_dirty_bit */
    method SetDirtyBit(l: Location)
      requires Valid() && Joined() && l.range < |ranges| && l.offset < ranges[l.range].size
      modifies this`ranges, bits, bits.first, bits.second
      ensures Joined() && ranges == SetDirty(old(ranges), l)
    {
      hide DirtyBitmap.Shows, DirtyBitmap.Words;
      if l.range == fb && ranges[fb].tracked {
        PageOf(l.offset, 32 * bits.first.Length);
        bits.Mark(l.offset / PAGE);
      }
      ranges := SetDirty(ranges, l);
    }

    /** target_read_slow, target_write_slow and target_read_insn_slow, for aligned accesses, up to
        the access itself.  None is a fault or not RAM. */
    method SlowAccess(v: nat, access: Access) returns (l: Option<Location>)
      requires Valid() && Joined()
      modifies this`ranges, tlbRead, tlbWrite, tlbCode, bits, bits.first, bits.second
      ensures Joined() && (Now(), l) == Slow(old(Now()), access, v)
    {
      hide DirtyBitmap.Shows, DirtyBitmap.Words, Joined, Translate, AfterWalk, SetDirty, Index, Base;
      FaultKeeps(Now().control, ranges, v, access);
      var p := GetPhysAddr(v, access);
      if p.None? { return None; }
      var r := GetRange(ranges, p.value);
      if r.None? || !ranges[r.value].isRam { return None; }
      l := Some(Location(r.value, p.value - ranges[r.value].addr));
      if access == WRITE { SetDirtyBit(l.value); }
      var e := Entry(Base(v), l.value.range, l.value.offset - v);
      match access {
        case READ => tlbRead[Index(v)] := e;
        case WRITE => tlbWrite[Index(v)] := e;
        case CODE => tlbCode[Index(v)] := e;
      }
    }

    /** The bytes themselves; what is noted as dirty does not change. */
    method PutBytes(l: Location, size: nat, val: nat)
      requires Valid() && Joined() && l.range < |ranges|
      modifies this`ranges
      ensures Joined() && ranges == StoreAt(old(ranges), l, size, val)
    {
      hide Inserted, WordIn;
      ranges := StoreAt(ranges, l, size, val);
    }

    /** target_read_u8, u16 and u32 on an aligned address: the bytes read, as a number. */
    method Read(v: nat, size: nat) returns (val: Option<nat>)
      requires Valid() && Joined() && Possible(Now(), Load(v, size))
      modifies this`ranges, tlbRead, tlbWrite, tlbCode, bits, bits.first, bits.second
      ensures Joined() && Now() == Next(old(Now()), Load(v, size))
      ensures var l := Accessed(old(Now()), READ, v, size).1;
              val == if l.Some? && l.value.range < |ranges| then Some(Loaded(ranges, l.value, size)) else None
    {
      var e := tlbRead[Index(v)];
      var l: Option<Location>;
      if e.vaddr == Tag(v, size) { l := Some(HostOf(e, v)); } else { l := SlowAccess(v, READ); }
      val := if l.Some? && l.value.range < |ranges| then Some(Loaded(ranges, l.value, size)) else None;
    }

    /** target_write_u8, u16 and u32 on an aligned address. */
    method Write(v: nat, size: nat, val: nat)
      requires Valid() && Joined() && Possible(Now(), Store(v, size, val))
      modifies this`ranges, tlbRead, tlbWrite, tlbCode, bits, bits.first, bits.second
      ensures Joined() && Now() == Next(old(Now()), Store(v, size, val))
    {
      var e := tlbWrite[Index(v)];
      var l: Option<Location>;
      if e.vaddr == Tag(v, size) { l := Some(HostOf(e, v)); } else { l := SlowAccess(v, WRITE); }
      if l.Some? && l.value.range < |ranges| { PutBytes(l.value, size, val); }
    }

    /** target_read_insn_u16 */
    method FetchWord(v: nat) returns (l: Option<Location>)
      requires Valid() && Joined() && Possible(Now(), Fetch(v))
      modifies this`ranges, tlbRead, tlbWrite, tlbCode, bits, bits.first, bits.second
      ensures Joined() && Now() == Next(old(Now()), Fetch(v)) && l == Accessed(old(Now()), CODE, v, 1).1
    {
      var e := tlbCode[Index(v)];
      if e.vaddr == Base(v) { l := Some(HostOf(e, v)); } else { l := SlowAccess(v, CODE); }
      assert Tag(v, 1) == Base(v);
    }

    method ChangeMstatus(m: Mstatus)
      requires Valid()
      modifies this`mstatus, tlbRead, tlbWrite, tlbCode
      ensures Now() == SetMstatus(old(Now()), m)
    {
      if mstatus.mprv != m.mprv || mstatus.sum != m.sum || mstatus.mxr != m.mxr || (mstatus.mprv && mstatus.mpp != m.mpp) {
        Flush();
      }
      mstatus := m;
    }

    /** csr_write to mstatus, sstatus and satp */
    method WriteCsr(e: Event)
      requires Valid() && (e.WriteMstatus? || e.WriteSstatus? || e.WriteSatp?)
      modifies this`mstatus, this`satp, tlbRead, tlbWrite, tlbCode
      ensures Now() == Next(old(Now()), e)
    {
      match e {
        case WriteMstatus(w) => ChangeMstatus(WithMstatus(mstatus, FieldsOf(w)));
        case WriteSstatus(w) => ChangeMstatus(WithSstatus(mstatus, FieldsOf(w)));
        case WriteSatp(w) =>
          satp := w % 0x40_0000 + (if Bit(w, 0x8000_0000) then 0x8000_0000 else 0);
          Flush();
      }
    }

    /** set_priv */
    method ChangePriv(p: nat)
      requires Valid()
      modifies this`priv, tlbRead, tlbWrite, tlbCode
      ensures Now() == SetPriv(old(Now()), p)
    {
      if priv != p {
        Flush();
        priv := p;
      }
    }

    /** raise_exception2 */
    method RaiseException(delegated: bool)
      requires Valid()
      modifies this`mstatus, this`priv, tlbRead, tlbWrite, tlbCode
      ensures Now() == Next(old(Now()), Trap(delegated))
    {
      var ie := EnabledAt(mstatus, priv);
      if priv <= PRV_S && delegated {
        mstatus := mstatus.(spie := ie);
        mstatus := mstatus.(spp := priv);
        mstatus := mstatus.(sie := false);
        ChangePriv(PRV_S);
      } else {
        mstatus := mstatus.(mpie := ie);
        mstatus := mstatus.(mpp := priv);
        mstatus := mstatus.(mie := false);
        ChangePriv(PRV_M);
      }
    }

    /** handle_sret and handle_mret */
    method ReturnFromTrap(machine: bool)
      requires Valid()
      modifies this`mstatus, this`priv, tlbRead, tlbWrite, tlbCode
      ensures Now() == Next(old(Now()), if machine then ReturnM else ReturnS)
    {
      if machine {
        var mpp := mstatus.mpp;
        mstatus := WithEnabledAt(mstatus, mpp, mstatus.mpie);
        mstatus := mstatus.(mpie := true);
        mstatus := mstatus.(mpp := 0);
        ChangePriv(mpp);
      } else {
        var spp := mstatus.spp;
        mstatus := WithEnabledAt(mstatus, spp, mstatus.spie);
        mstatus := mstatus.(spie := true);
        mstatus := mstatus.(spp := 0);
        ChangePriv(spp);
      }
    }

    /** A device's store through phys_mem_get_ram_ptr */
    method StoreFromDevice(p: nat, size: nat, val: nat)
      requires Valid() && Joined() && Possible(Now(), DeviceStore(p, size, val))
      modifies this`ranges, bits, bits.first, bits.second
      ensures Joined() && Now() == Next(old(Now()), DeviceStore(p, size, val))
    {
      hide DirtyBitmap.Shows, DirtyBitmap.Words, Joined, SetDirty, StoreAt;
      var r := GetRange(ranges, p);
      if r.None? || !ranges[r.value].isRam { return; }
      var l := Location(r.value, p - ranges[r.value].addr);
      SetDirtyBit(l);
      NotesKept(old(ranges), l);
      PutBytes(l, size, val);
    }

    /** default_get_dirty_bits.  Of the framebuffer's range also the bitmap is returned. */
    method TakeDirtyBits(range: nat) returns (pages: set<nat>, words: seq<nat>)
      requires Valid() && Joined() && Possible(Now(), GetDirtyBits(range))
      modifies this`ranges, tlbWrite, bits, bits.first, bits.second
      ensures Joined() && Now() == Next(old(Now()), GetDirtyBits(range)) && pages == old(ranges)[range].dirty
      ensures range == fb ==> |words| == bits.first.Length && DirtyBitmap.Words(words) && DirtyBitmap.Shows(words, pages)
    {
      hide DirtyBitmap.Shows, DirtyBitmap.Words;
      var r := ranges[range];
      pages, words := r.dirty, [];
      var flush := pages != {};
      if range == fb {
        var bitmap;
        bitmap, flush := bits.Take();
        words := bitmap[..];
      }
      if flush && r.size != 0 { FlushWriteRange(tlbWrite, range, 0, r.orgSize); }
      ranges := ranges[range := r.(dirty := {})];
    }

    /** phys_mem_reset_dirty_bit */
    method ClearDirtyBit(range: nat, offset: nat)
      requires Valid() && Joined() && Possible(Now(), ResetDirtyBit(range, offset))
      modifies this`ranges, tlbWrite, bits, bits.first, bits.second
      ensures Joined() && Now() == Next(old(Now()), ResetDirtyBit(range, offset))
    {
      hide DirtyBitmap.Shows, DirtyBitmap.Words;
      var r := ranges[range];
      if !r.tracked { return; }
      var page := offset / PAGE;
      var flush := page in r.dirty;
      if range == fb && page < 32 * bits.first.Length { flush := bits.Clear(page); }
      if flush {
        ranges := ranges[range := r.(dirty := r.dirty - {page})];
        FlushWriteRange(tlbWrite, range, Base(offset), Base(offset) + PAGE);
      }
    }

    /** default_set_addr */
    method SetRangeAddr(range: nat, addr: nat, enabled: bool)
      requires Valid() && Joined() && Possible(Now(), SetAddr(range, addr, enabled))
      modifies this`ranges, tlbWrite
      ensures Joined() && Now() == Next(old(Now()), SetAddr(range, addr, enabled))
    {
      var r := ranges[range];
      if enabled {
        if r.size == 0 || r.addr != addr {
          if r.isRam { FlushWriteRange(tlbWrite, range, 0, r.orgSize); }
          ranges := ranges[range := r.(addr := addr, size := r.orgSize)];
        }
      } else {
        if r.size != 0 {
          if r.isRam { FlushWriteRange(tlbWrite, range, 0, r.orgSize); }
          ranges := ranges[range := r.(addr := 0, size := 0)];
        }
      }
    }

    /** Any event, as the method that performs it. */
    method Perform(e: Event)
      requires Valid() && Joined() && Possible(Now(), e)
      modifies this, tlbRead, tlbWrite, tlbCode, bits, bits.first, bits.second
      ensures Joined() && Now() == Next(old(Now()), e)
    {
      hide Accessed, Stored, Possible;
      match e {
        case Load(v, size) => var _ := Read(v, size);
        case Store(v, size, val) => Write(v, size, val);
        case Fetch(v) => var _ := FetchWord(v);
        case WriteMstatus(_) => WriteCsr(e);
        case WriteSstatus(_) => WriteCsr(e);
        case WriteSatp(_) => WriteCsr(e);
        case Trap(delegated) => RaiseException(delegated);
        case ReturnS => ReturnFromTrap(false);
        case ReturnM => ReturnFromTrap(true);
        case Fence => Flush();
        case DeviceStore(p, size, val) => StoreFromDevice(p, size, val);
        case GetDirtyBits(range) => var _, _ := TakeDirtyBits(range);
        case ResetDirtyBit(range, offset) => ClearDirtyBit(range, offset);
        case SetAddr(range, addr, enabled) => SetRangeAddr(range, addr, enabled);
      }
    }

    method Play(es: seq<Event>)
      requires Valid() && Joined() && PossibleRun(Now(), es)
      modifies this, tlbRead, tlbWrite, tlbCode, bits, bits.first, bits.second
      ensures Joined() && Now() == Run(old(Now()), es)
    {
      hide Next, Possible, Joined;
      var i := 0;
      while i < |es|
        invariant Joined() && 0 <= i <= |es| && PossibleRun(Now(), es[i..]) && Run(Now(), es[i..]) == Run(old(Now()), es)
      {
        assert es[i..][0] == es[i] && es[i..][1..] == es[i + 1..];
        Perform(es[i]);
        i := i + 1;
      }
    }

    /** From reset, after any calls that leave no TLB outdated, a load delivers the bytes of RAM
        that a fresh walk in the present state leads to, and nothing if it leads nowhere. */
    method LoadAfter(es: seq<Event>, v: nat, size: nat) returns (val: Option<nat>)
      requires Valid() && Joined() && Now() == FlushAll(Now()) && WellPlaced(ranges) && Backed(ranges)
      requires PossibleRun(Now(), es) && !Outdated(Now(), es, false)
      requires v < WORD_LIMIT && AccessSize(size) && v % size == 0
      modifies this, tlbRead, tlbWrite, tlbCode, bits, bits.first, bits.second
      ensures Run(old(Now()), es).Sized() && Delivers(Run(old(Now()), es), v, size, val)
      ensures Now() == Accessed(Run(old(Now()), es), READ, v, size).0
    {
      hide Joined, Run, Outdated, Backed, Coherent, Words, Accessed, Delivers, WellPlaced, PossibleRun;
      FreshRun(Now(), es);
      Play(es);
      ghost var t := Now();
      val := Read(v, size);
      LoadDelivers(t, v, size, val);
    }
  }
}
