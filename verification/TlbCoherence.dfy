/** The TLBs agree with a fresh walk over every run, unless the run does what the code does not
    guard against: see Outdates. */
module TlbCoherence {
  import opened PhysMemory
  import opened Wrappers
  import opened Sv32
  import opened Tlb
  import opened StoredWords

  // -----------------------------------------------------------------------------------------
  // Coherence
  // -----------------------------------------------------------------------------------------

  /** An entry in use names a page, sits in that page's slot and points where a walk leads. */
  predicate EntryFresh(c: Control, rs: seq<Range>, access: Access, i: nat, e: Entry) {
    e.vaddr != UNUSED ==>
      && e.vaddr % PAGE == 0 && Index(e.vaddr) == i
      && Leads(c, rs, access, e)
  }

  predicate Leads(c: Control, rs: seq<Range>, access: Access, e: Entry) {
    var l := Reaches(c, rs, e.vaddr, access);
    l.Some? && l.value.range == e.range && l.value.offset == e.vaddr + e.addend
  }

  predicate AllFresh(c: Control, rs: seq<Range>, access: Access, es: seq<Entry>) {
    forall i :: 0 <= i < |es| ==> EntryFresh(c, rs, access, i, es[i])
  }

  predicate Coherent(s: State) {
    && s.Sized() && WellPlaced(s.ranges)
    && AllFresh(s.control, s.ranges, READ, s.read)
    && AllFresh(s.control, s.ranges, WRITE, s.write)
    && AllFresh(s.control, s.ranges, CODE, s.code)
  }

  lemma TagOfPage(v: nat, size: nat, vaddr: nat)
    requires AccessSize(size) && vaddr == Tag(v, size)
    ensures vaddr != UNUSED
    ensures vaddr % PAGE == 0 ==> vaddr == Base(v) && v / PAGE == vaddr / PAGE && v - vaddr == v % PAGE
  {
    var q, r := v / PAGE, v % PAGE;
    Arith.DivUnique(q * PAGE + v % size, PAGE, q, v % size);
    Arith.DivUnique(UNUSED, PAGE, 0xf_ffff, 4095);
  }

  /** A hit, in any TLB, uses the byte that a fresh walk in the present state leads to. */
  lemma HitIsFresh(s: State, access: Access, v: nat, size: nat)
    requires Coherent(s) && AccessSize(size) && Hit(s.Entries(access), v, size).Some?
    ensures Hit(s.Entries(access), v, size) == Reaches(s.control, s.ranges, v, access)
  {
    hide Reaches, WellPlaced, Tag;
    var e := s.Entries(access)[Index(v)];
    TagOfPage(v, size, e.vaddr);
    SamePageReaches(s.control, s.ranges, e.vaddr, v, access);
  }

  // -----------------------------------------------------------------------------------------
  // What preserves it
  // -----------------------------------------------------------------------------------------

  /** Every byte reached stays the same. */
  ghost predicate SameReach(c: Control, rs: seq<Range>, d: Control, ts: seq<Range>) {
    forall v: nat, access :: v < WORD_LIMIT && Reaches(c, rs, v, access).Some? ==>
      Reaches(d, ts, v, access) == Reaches(c, rs, v, access)
  }

  predicate InWords(es: seq<Entry>) {
    forall i :: 0 <= i < |es| ==> es[i].vaddr < WORD_LIMIT
  }

  lemma FreshKept(c: Control, rs: seq<Range>, d: Control, ts: seq<Range>, access: Access, es: seq<Entry>)
    requires AllFresh(c, rs, access, es) && InWords(es) && SameReach(c, rs, d, ts)
    ensures AllFresh(d, ts, access, es)
  {
    hide Reaches;
    forall i | 0 <= i < |es| ensures EntryFresh(d, ts, access, i, es[i]) {
      assert EntryFresh(c, rs, access, i, es[i]);
    }
  }

  predicate Words(s: State) { InWords(s.read) && InWords(s.write) && InWords(s.code) }

  lemma CoherentKept(s: State, t: State)
    requires Coherent(s) && Words(s) && t.read == s.read && t.write == s.write && t.code == s.code
    requires SameReach(s.control, s.ranges, t.control, t.ranges) && WellPlaced(t.ranges)
    ensures Coherent(t) && Words(t)
  {
    hide AllFresh, InWords, SameReach, WellPlaced;
    FreshKept(s.control, s.ranges, t.control, t.ranges, READ, s.read);
    FreshKept(s.control, s.ranges, t.control, t.ranges, WRITE, s.write);
    FreshKept(s.control, s.ranges, t.control, t.ranges, CODE, s.code);
  }

  lemma EmptyFresh(c: Control, rs: seq<Range>, access: Access, es: seq<Entry>)
    ensures AllFresh(c, rs, access, Flushed(es)) && InWords(Flushed(es))
  {
  }

  /** With every entry unused there is nothing to be wrong about. */
  lemma FlushedCoherent(s: State)
    requires s.Sized() && WellPlaced(s.ranges)
    ensures Coherent(FlushAll(s)) && Words(FlushAll(s))
  {
    hide AllFresh, InWords, WellPlaced;
    EmptyFresh(s.control, s.ranges, READ, s.read);
    EmptyFresh(s.control, s.ranges, WRITE, s.write);
    EmptyFresh(s.control, s.ranges, CODE, s.code);
  }

  lemma PlacedAlike(rs: seq<Range>, ts: seq<Range>)
    requires WellPlaced(rs) && SameMap(rs, ts)
    ensures WellPlaced(ts)
  {
    forall i | 0 <= i < |ts| && ts[i].isRam ensures ApartFromDevices(ts, i) {
      assert ApartFromDevices(rs, i);
      forall j | 0 <= j < |ts| && !ts[j].isRam ensures !Overlap(ts[i], ts[j]) {
        assert !Overlap(rs[i], rs[j]);
      }
    }
  }

  lemma BaseInWord(v: nat)
    requires v < WORD_LIMIT
    ensures Base(v) < WORD_LIMIT && Base(v) != UNUSED && Base(v) % PAGE == 0 && Index(Base(v)) == Index(v)
    ensures Base(v) / PAGE == v / PAGE && Base(v) <= v
  {
    var q := v / PAGE;
    Arith.DivUnique(q * PAGE, PAGE, q, 0);
    Arith.DivUnique(UNUSED, PAGE, 0xf_ffff, 4095);
  }

  /** A new entry made from a fresh walk. */
  lemma FilledFresh(c: Control, rs: seq<Range>, access: Access, es: seq<Entry>, v: nat, l: Location)
    requires WellPlaced(rs) && |es| == TLB_SIZE && AllFresh(c, rs, access, es) && InWords(es) && v < WORD_LIMIT
    requires Reaches(c, rs, v, access) == Some(l)
    ensures AllFresh(c, rs, access, Filled(es, v, l)) && InWords(Filled(es, v, l))
  {
    hide Reaches, WellPlaced, Base, Index;
    BaseInWord(v);
    SamePageReaches(c, rs, v, Base(v), access);
  }

  lemma FillCoherent(s: State, access: Access, v: nat, l: Location)
    requires Coherent(s) && Words(s) && v < WORD_LIMIT && Reaches(s.control, s.ranges, v, access) == Some(l)
    ensures Coherent(Fill(s, access, v, l)) && Words(Fill(s, access, v, l))
  {
    hide Reaches, WellPlaced, AllFresh, InWords, Filled;
    FilledFresh(s.control, s.ranges, access, s.Entries(access), v, l);
    FilledSize(s.Entries(access), v, l);
  }

  lemma FilledSize(es: seq<Entry>, v: nat, l: Location)
    requires |es| == TLB_SIZE
    ensures |Filled(es, v, l)| == TLB_SIZE
  {
  }

  lemma SameButADReaches(c: Control, rs: seq<Range>, ts: seq<Range>)
    requires SameButAD(rs, ts)
    ensures SameReach(c, rs, c, ts) && SameMap(rs, ts)
  {
    hide Reaches, SameMap;
    forall v: nat, access | v < WORD_LIMIT ensures Reaches(c, ts, v, access) == Reaches(c, rs, v, access) {
      ReachesIgnoresAD(c, rs, ts, v, access);
    }
    MapOf(rs, ts);
  }

  lemma MapOf(rs: seq<Range>, ts: seq<Range>)
    requires SameButAD(rs, ts)
    ensures SameMap(rs, ts)
  {
  }

  lemma DirtyIsNoMatter(rs: seq<Range>, l: Location)
    requires l.range < |rs|
    ensures SameButAD(rs, SetDirty(rs, l)) && SameMap(rs, SetDirty(rs, l))
  {
    forall p: nat ensures EqualButAD(p, p) { EqualToItself(p); }
    hide EqualButAD;
  }

  /** A slow access leaves the TLBs coherent, and finds the byte a walk leads to. */
  lemma SlowCoherent(s: State, access: Access, v: nat)
    requires Coherent(s) && Words(s) && v < WORD_LIMIT
    ensures Coherent(Slow(s, access, v).0) && Words(Slow(s, access, v).0)
    ensures Slow(s, access, v).1 == Reaches(s.control, s.ranges, v, access)
    ensures SameButAD(s.ranges, Slow(s, access, v).0.ranges) && Slow(s, access, v).0.control == s.control
  {
    hide *;
    CoherentIs(s);
    SlowIs(s, access, v);
    var p := Translate(s.control, s.ranges, v, access);
    if p.None? {
      SameButADItself(s.ranges);
    } else {
      var rs := AfterWalk(s.control, s.ranges, v, access);
      AfterWalkSameButAD(s.control, s.ranges, v, access);
      AfterWalkCoherent(s, rs);
      MapOf(s.ranges, rs);
      SameMapRam(s.ranges, rs, p.value);
      var l := RamAt(rs, p.value);
      if l.Some? {
        var ts := if access == WRITE then SetDirty(rs, l.value) else rs;
        if access == WRITE { DirtyIsNoMatter(rs, l.value); } else { SameButADItself(rs); }
        SameButADTrans(s.ranges, rs, ts);
        AfterWalkCoherent(s, ts);
        ReachesIgnoresAD(s.control, s.ranges, ts, v, access);
        FillCoherent(s.(ranges := ts), access, v, l.value);
        FillKeeps(s.(ranges := ts), access, v, l.value);
      }
    }
  }

  lemma SlowIs(s: State, access: Access, v: nat)
    requires s.Sized()
    ensures s.Sized()
    ensures var p := Translate(s.control, s.ranges, v, access);
            var rs := AfterWalk(s.control, s.ranges, v, access);
            if p.None? then Slow(s, access, v) == (s, None) && Reaches(s.control, s.ranges, v, access) == None
            else
              var l := RamAt(rs, p.value);
              && Reaches(s.control, s.ranges, v, access) == RamAt(s.ranges, p.value)
              && if l.None? then Slow(s, access, v) == (s.(ranges := rs), None)
                 else Slow(s, access, v) ==
                      (Fill(s.(ranges := if access == WRITE then SetDirty(rs, l.value) else rs), access, v, l.value), l)
  {
    hide Translate, AfterWalk, RamAt, SetDirty, Fill;
  }

  lemma CoherentIs(s: State)
    requires Coherent(s)
    ensures s.Sized() && WellPlaced(s.ranges)
  {
  }

  lemma SameButADItself(rs: seq<Range>)
    ensures SameButAD(rs, rs)
  {
    forall p: nat ensures EqualButAD(p, p) { EqualToItself(p); }
    hide EqualButAD;
  }

  lemma SameButADTrans(rs: seq<Range>, ts: seq<Range>, us: seq<Range>)
    requires SameButAD(rs, ts) && SameButAD(ts, us)
    ensures SameButAD(rs, us)
  {
    hide WordIn;
  }

  lemma AfterWalkCoherent(s: State, rs: seq<Range>)
    requires Coherent(s) && Words(s) && SameButAD(s.ranges, rs)
    ensures Coherent(s.(ranges := rs)) && Words(s.(ranges := rs))
  {
    hide SameReach, AllFresh, InWords, WellPlaced, SameButAD, SameMap;
    SameButADReaches(s.control, s.ranges, rs);
    PlacedAlike(s.ranges, rs);
    CoherentKept(s, s.(ranges := rs));
  }

  lemma FillKeeps(s: State, access: Access, v: nat, l: Location)
    requires s.Sized()
    ensures Fill(s, access, v, l).ranges == s.ranges && Fill(s, access, v, l).control == s.control
  {
  }

  // -----------------------------------------------------------------------------------------
  // Steps
  // -----------------------------------------------------------------------------------------

  /** The write entry of v's page takes the slot of u's. */
  predicate Evicts(v: nat, access: Access, u: nat) { access == WRITE && Index(u) == Index(v) && Base(u) != Base(v) }

  /** Apart from the page whose write entry the store itself replaces, every byte reached through
      a walk is reached as before once the store has been made at l. */
  ghost predicate KeepsReach(c: Control, rs: seq<Range>, v: nat, l: Location, size: nat, val: nat)
    requires l.range < |rs|
  {
    forall u: nat, access :: u < WORD_LIMIT && Reaches(c, rs, u, access).Some? && !Evicts(v, access, u) ==>
      Reaches(c, StoreAt(rs, l, size, val), u, access) == Reaches(c, rs, u, access)
  }

  predicate MovesRange(rs: seq<Range>, range: nat, addr: nat, enabled: bool)
    requires range < |rs|
  {
    var r := rs[range];
    (enabled && (r.size == 0 || r.addr != addr)) || (!enabled && r.size != 0)
  }

  /** An address that reaches RAM now, but not the same byte once a range has become r: one in
      the range itself, or one in a range further down the list that r will cover. */
  predicate Displaced(rs: seq<Range>, range: nat, r: Range, p: nat) {
    var l := RamAt(rs, p);
    l.Some? && (l.value.range == range || (range < l.value.range && Contains(r, p)))
  }

  ghost predicate Displaces(rs: seq<Range>, range: nat, r: Range) {
    exists p: nat :: p < WORD_LIMIT && Displaced(rs, range, r, p)
  }

  /** Whether moving a range, or enabling or disabling it, takes a byte of RAM from its address. */
  ghost predicate Uproots(rs: seq<Range>, range: nat, addr: nat, enabled: bool)
    requires range < |rs|
  {
    MovesRange(rs, range, addr, enabled) && Displaces(rs, range, MovedRange(rs[range], addr, enabled))
  }

  /** Whether an event changes how data accesses are translated and does not flush: a change of
      MPP under MPRV that keeps the privilege, while satp names page tables. */
  predicate ChangesView(c: Control, e: Event) {
    var m, priv := c.mstatus, c.priv;
    && m.mprv && Bit(c.satp, 0x8000_0000)
    && match e
       case Trap(_) => priv == PRV_M && m.mpp != PRV_M
       case ReturnM => m.mpp == priv && (priv == PRV_M || priv == PRV_S)
       case _ => false
  }

  /** Whether an event can leave entries behind that a fresh walk would contradict: a store after
      which a walk that led to RAM leads elsewhere, RAM taken from its address, or a change of MPP
      under MPRV.  The first is the guest's to mend with sfence.vma; the code does not mend the
      others.  TlbExactness and TlbStores show that they are exactly the ones to be mended. */
  ghost predicate Outdates(c: Control, rs: seq<Range>, e: Event) {
    match e
    case Store(v, size, val) =>
      var l := Reaches(c, rs, v, WRITE); l.Some? && l.value.range < |rs| && !KeepsReach(c, rs, v, l.value, size, val)
    case DeviceStore(p, size, val) => !SameReach(c, rs, c, AfterDevice(rs, p, size, val))
    case SetAddr(range, addr, enabled) => range < |rs| && Uproots(rs, range, addr, enabled)
    case _ => ChangesView(c, e)
  }

  /** Whether an event empties the TLBs. */
  predicate Flushes(s: State, e: Event) {
    var m, priv := s.control.mstatus, s.control.priv;
    match e
    case WriteMstatus(w) => ChangesMmu(m, WithMstatus(m, FieldsOf(w)))
    case WriteSstatus(w) => ChangesMmu(m, WithSstatus(m, FieldsOf(w)))
    case WriteSatp(_) => true
    case Fence => true
    case Trap(delegated) => priv != if priv <= PRV_S && delegated then PRV_S else PRV_M
    case ReturnS => priv != m.spp
    case ReturnM => priv != m.mpp
    case _ => false
  }

  /** Two privileges under which accesses are translated alike: Grants tells only S-mode apart,
      and without page tables nothing is translated. */
  predicate SeesAlike(c: Control, d: Control, access: Access) {
    var p, q := EffectivePriv(c, access), EffectivePriv(d, access);
    p == q || !Bit(c.satp, 0x8000_0000) || (p != PRV_S && p != PRV_M && q != PRV_S && q != PRV_M)
  }

  /** Registers that steer every access alike. */
  predicate SteersAlike(c: Control, d: Control) {
    c.satp == d.satp && c.mstatus.sum == d.mstatus.sum && c.mstatus.mxr == d.mstatus.mxr &&
    SeesAlike(c, d, READ) && SeesAlike(c, d, CODE)
  }

  lemma SteersAlikeReaches(c: Control, d: Control, rs: seq<Range>)
    requires SteersAlike(c, d)
    ensures SameReach(c, rs, d, rs)
  {
    forall v: nat, access | v < WORD_LIMIT ensures Reaches(d, rs, v, access) == Reaches(c, rs, v, access) {
      hide Walk, RamAt, Merge, Bit;
      assert SeesAlike(c, d, access);
    }
  }

  lemma SteeredCoherent(s: State, t: State)
    requires Coherent(s) && Words(s) && SteersAlike(s.control, t.control)
    requires t == s.(control := t.control)
    ensures Coherent(t) && Words(t)
  {
    hide SameReach, AllFresh, InWords, WellPlaced;
    SteersAlikeReaches(s.control, t.control, s.ranges);
    CoherentKept(s, t);
  }

  /** The word at l belongs to the page tables in use. */
  ghost predicate InTables(c: Control, rs: seq<Range>, l: Location) {
    (Translating(c, READ) || Translating(c, CODE)) && IsTableWord(c.satp, rs, l)
  }

  /** A store off the page tables leaves every walk alone. */
  lemma StoreOffTables(c: Control, rs: seq<Range>, l: Location, size: nat, val: nat)
    requires l.range < |rs| && !InTables(c, rs, l)
    ensures SameReach(c, rs, c, StoreAt(rs, l, size, val))
  {
    hide Reaches, ReadsTable, PutWord, Inserted, Translating, WordIn;
    var w := Inserted(WordIn(rs[l.range], l.offset), l.offset % 4, size, val);
    forall v: nat, access | v < WORD_LIMIT
      ensures Reaches(c, StoreAt(rs, l, size, val), v, access) == Reaches(c, rs, v, access)
    {
      WriteLikeRead(c, access);
      StoreElsewhere(c, rs, l, w, v, access);
    }
  }

  lemma WriteLikeRead(c: Control, access: Access)
    ensures Translating(c, access) ==> Translating(c, READ) || Translating(c, CODE)
  {
  }

  lemma AccessCoherent(s: State, access: Access, v: nat, size: nat)
    requires Coherent(s) && Words(s) && v < WORD_LIMIT && AccessSize(size)
    ensures var a := Accessed(s, access, v, size);
            && Coherent(a.0) && Words(a.0) && a.0.control == s.control && SameButAD(s.ranges, a.0.ranges)
            && a.1 == Reaches(s.control, s.ranges, v, access)
  {
    hide Coherent, Words, Slow, Hit, Reaches, SameButAD;
    CoherentIs(s);
    SlowCoherent(s, access, v);
    if Hit(s.Entries(access), v, size).Some? { HitIsFresh(s, access, v, size); }
    SameButADItself(s.ranges);
  }

  lemma WordsOf(s: State, t: State)
    requires Words(s) && t.read == s.read && t.write == s.write && t.code == s.code
    ensures Words(t)
  {
  }

  lemma SizeOfMap(rs: seq<Range>, ts: seq<Range>)
    requires SameMap(rs, ts)
    ensures |rs| == |ts|
  {
  }

  lemma RemovedFresh(c: Control, rs: seq<Range>, access: Access, es: seq<Entry>, range: nat, lo: nat, hi: nat)
    requires AllFresh(c, rs, access, es) && InWords(es)
    ensures AllFresh(c, rs, access, WithoutRange(es, range, lo, hi)) && InWords(WithoutRange(es, range, lo, hi))
  {
    hide Leads, InRange, Index;
    var fs := WithoutRange(es, range, lo, hi);
    forall i | 0 <= i < |fs| ensures EntryFresh(c, rs, access, i, fs[i]) {
      assert EntryFresh(c, rs, access, i, es[i]);
    }
  }

  /** Dirty bits and unused write entries do not matter. */
  lemma DirtyStepCoherent(s: State, rs: seq<Range>, range: nat, lo: nat, hi: nat)
    requires Coherent(s) && Words(s) && SameButAD(s.ranges, rs)
    ensures Coherent(s.(ranges := rs)) && Words(s.(ranges := rs))
    ensures Coherent(s.(ranges := rs, write := WithoutRange(s.write, range, lo, hi)))
    ensures Words(s.(ranges := rs, write := WithoutRange(s.write, range, lo, hi)))
  {
    hide AllFresh, InWords, WellPlaced, SameButAD;
    AfterWalkCoherent(s, rs);
    RemovedFresh(s.control, rs, WRITE, s.write, range, lo, hi);
  }

  lemma DirtyOnly(rs: seq<Range>, range: nat, dirty: set<nat>)
    requires range < |rs|
    ensures SameButAD(rs, rs[range := rs[range].(dirty := dirty)])
  {
    forall p: nat ensures EqualButAD(p, p) { EqualToItself(p); }
    hide EqualButAD;
  }

  // -----------------------------------------------------------------------------------------
  // Stores
  // -----------------------------------------------------------------------------------------

  /** After a write access that reaches RAM the write TLB holds its page. */
  lemma WriteEntry(s: State, v: nat, size: nat)
    requires s.Sized() && AccessSize(size) && v % size == 0 && Accessed(s, WRITE, v, size).1.Some?
    ensures Accessed(s, WRITE, v, size).0.Sized() && Accessed(s, WRITE, v, size).0.write[Index(v)].vaddr == Base(v)
  {
    hide Translate, AfterWalk, RamAt, Base, Index, SetDirty;
  }

  lemma StoreStep(s: State, v: nat, size: nat, val: nat)
    requires s.Sized() && Possible(s, Store(v, size, val))
    ensures v < WORD_LIMIT && AccessSize(size) && v % size == 0
    ensures Next(s, Store(v, size, val)) == Stored(s, v, size, val)
    ensures var a := Accessed(s, WRITE, v, size);
            Stored(s, v, size, val) ==
              if a.1.Some? && a.1.value.range < |a.0.ranges| then a.0.(ranges := StoreAt(a.0.ranges, a.1.value, size, val)) else a.0
  {
    hide Accessed, StoreAt;
  }

  /** What a store does to a coherent state: RAM is as if no bits had been set by the walk, and
      the TLBs are those of the access. */
  lemma StoreReaches(s: State, v: nat, size: nat, val: nat, u: nat, access: Access)
    requires Coherent(s) && Words(s) && Possible(s, Store(v, size, val)) && Reaches(s.control, s.ranges, v, WRITE).Some?
    ensures var l, t, a := Reaches(s.control, s.ranges, v, WRITE).value, Stored(s, v, size, val), Accessed(s, WRITE, v, size);
            && l.range < |s.ranges| && a.1 == Some(l) && l.range < |a.0.ranges|
            && t == a.0.(ranges := StoreAt(a.0.ranges, l, size, val))
            && a.0.control == s.control && Coherent(a.0) && Words(a.0)
            && Reaches(s.control, a.0.ranges, u, access) == Reaches(s.control, s.ranges, u, access)
            && Reaches(s.control, t.ranges, u, access) == Reaches(s.control, StoreAt(s.ranges, l, size, val), u, access)
  {
    hide Coherent, Words, Accessed, Reaches, StoreAt, SameButAD, SameMap, Possible, Stored;
    CoherentIs(s);
    StoreStep(s, v, size, val);
    AccessCoherent(s, WRITE, v, size);
    AccessKeepsLengths(s, WRITE, v, size);
    ReachedRange(s.control, s.ranges, v, WRITE);
    var l, a := Reaches(s.control, s.ranges, v, WRITE).value, Accessed(s, WRITE, v, size);
    StoreSameButAD(s.ranges, a.0.ranges, l, size, val);
    ReachesIgnoresAD(s.control, s.ranges, a.0.ranges, u, access);
    ReachesIgnoresAD(s.control, StoreAt(s.ranges, l, size, val), StoreAt(a.0.ranges, l, size, val), u, access);
  }

  lemma ReachedRange(c: Control, rs: seq<Range>, v: nat, access: Access)
    ensures Reaches(c, rs, v, access).Some? ==> Reaches(c, rs, v, access).value.range < |rs|
  {
  }

  /** An entry left by the access is fresh after the store. */
  lemma StoreKeepsEntry(s: State, v: nat, size: nat, val: nat, access: Access, i: nat)
    requires Coherent(s) && Words(s) && Possible(s, Store(v, size, val)) && Reaches(s.control, s.ranges, v, WRITE).Some?
    requires Reaches(s.control, s.ranges, v, WRITE).value.range < |s.ranges|
    requires KeepsReach(s.control, s.ranges, v, Reaches(s.control, s.ranges, v, WRITE).value, size, val)
    requires i < TLB_SIZE && Stored(s, v, size, val).Sized()
    ensures var t := Stored(s, v, size, val); EntryFresh(t.control, t.ranges, access, i, t.Entries(access)[i])
  {
    hide Words, Accessed, Reaches, StoreAt, Possible, Stored, WellPlaced, Index, Base;
    StoreStep(s, v, size, val);
    StoreReaches(s, v, size, val, 0, access);
    WriteEntry(s, v, size);
    var a := Accessed(s, WRITE, v, size);
    var e := a.0.Entries(access)[i];
    assert EntryFresh(a.0.control, a.0.ranges, access, i, e);
    if e.vaddr != UNUSED {
      InWordsAt(a.0, access, i);
      PageBase(e.vaddr);
      StoreReaches(s, v, size, val, e.vaddr, access);
    }
  }

  lemma InWordsAt(s: State, access: Access, i: nat)
    requires Words(s) && i < |s.Entries(access)|
    ensures s.Entries(access)[i].vaddr < WORD_LIMIT
  {
  }

  lemma PageBase(v: nat)
    requires v % PAGE == 0
    ensures Base(v) == v
  {
  }

  lemma StoreCoherent(s: State, v: nat, size: nat, val: nat)
    requires Coherent(s) && Words(s) && Possible(s, Store(v, size, val)) && s.Sized()
    requires !Outdates(s.control, s.ranges, Store(v, size, val))
    ensures Coherent(Next(s, Store(v, size, val))) && Words(Next(s, Store(v, size, val)))
  {
    hide Words, Accessed, Reaches, StoreAt, Possible, Next, EntryFresh, WellPlaced, KeepsReach, Stored;
    StoreStep(s, v, size, val);
    AccessCoherent(s, WRITE, v, size);
    ReachedRange(s.control, s.ranges, v, WRITE);
    var t := Stored(s, v, size, val);
    SoundIs(s);
    StoredSound(s, v, size, val);
    SoundIs(t);
    if Reaches(s.control, s.ranges, v, WRITE).Some? {
      forall access, i: nat | i < TLB_SIZE ensures EntryFresh(t.control, t.ranges, access, i, t.Entries(access)[i]) {
        StoreKeepsEntry(s, v, size, val, access, i);
      }
      assert t.Entries(READ) == t.read && t.Entries(WRITE) == t.write && t.Entries(CODE) == t.code;
    }
  }

  lemma DeviceStoreCoherent(s: State, p: nat, size: nat, val: nat)
    requires Coherent(s) && Words(s) && !Outdates(s.control, s.ranges, DeviceStore(p, size, val))
    ensures Coherent(DeviceStored(s, p, size, val)) && Words(DeviceStored(s, p, size, val))
  {
    hide AllFresh, InWords, AfterDevice, WellPlaced, SameReach;
    DeviceStoredSound(s, p, size, val);
    CoherentKept(s, DeviceStored(s, p, size, val));
  }

  // -----------------------------------------------------------------------------------------
  // Runs
  // -----------------------------------------------------------------------------------------

  /** What every event keeps, coherent or not. */
  predicate Sound(s: State) { s.Sized() && WellPlaced(s.ranges) && Words(s) }

  /** An event that outdates nothing keeps the TLBs coherent. */
  lemma StepCoherent(s: State, e: Event)
    requires Coherent(s) && Words(s) && Possible(s, e) && !Outdates(s.control, s.ranges, e)
    ensures Coherent(Next(s, e)) && Words(Next(s, e))
  {
    hide *;
    CoherentIs(s);
    StepIs(s, e);
    match e
    case Load(v, size) => AccessCoherent(s, READ, v, size);
    case Store(v, size, val) => StoreCoherent(s, v, size, val);
    case Fetch(v) => AccessCoherent(s, CODE, v, 1);
    case DeviceStore(p, size, val) => DeviceStoreCoherent(s, p, size, val);
    case GetDirtyBits(range) => TakeDirtyCoherent(s, range);
    case ResetDirtyBit(range, offset) => ResetDirtyCoherent(s, range, offset);
    case SetAddr(range, addr, enabled) => MoveCoherent(s, range, addr, enabled);
    case WriteMstatus(w) => RegisterCoherent(s, e);
    case WriteSstatus(w) => RegisterCoherent(s, e);
    case WriteSatp(w) => RegisterCoherent(s, e);
    case Trap(delegated) => RegisterCoherent(s, e);
    case ReturnS => RegisterCoherent(s, e);
    case ReturnM => RegisterCoherent(s, e);
    case Fence => RegisterCoherent(s, e);
  }

  lemma StepIs(s: State, e: Event)
    requires s.Sized() && Possible(s, e)
    ensures s.Sized()
    ensures e.Load? ==> Next(s, e) == Accessed(s, READ, e.v, e.size).0 && e.v < WORD_LIMIT && AccessSize(e.size)
    ensures e.Store? ==> Next(s, e) == Stored(s, e.v, e.size, e.val) && e.v < WORD_LIMIT && AccessSize(e.size)
    ensures e.Fetch? ==> Next(s, e) == Accessed(s, CODE, e.v, 1).0 && e.v < WORD_LIMIT && AccessSize(1)
    ensures e.DeviceStore? ==> Next(s, e) == DeviceStored(s, e.p, e.size, e.val)
    ensures e.GetDirtyBits? ==> e.range < |s.ranges| && Next(s, e) == TakeDirty(s, e.range)
    ensures e.ResetDirtyBit? ==> e.range < |s.ranges| && Next(s, e) == ResetDirty(s, e.range, e.offset)
    ensures e.SetAddr? ==> e.range < |s.ranges| && Next(s, e) == Move(s, e.range, e.addr, e.enabled)
    ensures e.SetAddr? ==> WellPlaced(Move(s, e.range, e.addr, e.enabled).ranges)
    ensures e.SetAddr? && !Outdates(s.control, s.ranges, e) ==> !Uproots(s.ranges, e.range, e.addr, e.enabled)
  {
    hide Accessed, Stored, DeviceStored, TakeDirty, ResetDirty, Move, Uproots, InTables, RamAt, WellPlaced,
      SetMstatus, TakeTrap, Sret, Mret, SetSatp, FlushAll;
  }

  /** Where nothing is displaced, lookups of RAM stay as they are. */
  lemma {:induction false} RamStays(rs: seq<Range>, range: nat, r: Range, p: nat, i: nat)
    requires range < |rs| && i <= |rs| && RamAt(rs, p).Some? && !Displaced(rs, range, r, p)
    requires FindRange(rs, p, i) == Some(RamAt(rs, p).value.range)
    ensures FindRange(rs[range := r], p, i) == FindRange(rs, p, i)
    decreases |rs| - i
  {
    var k := RamAt(rs, p).value.range;
    if i < k { RamStays(rs, range, r, p, i + 1); }
  }

  lemma RamKept(rs: seq<Range>, range: nat, r: Range, p: nat)
    requires range < |rs| && RamAt(rs, p).Some? && !Displaced(rs, range, r, p)
    ensures RamAt(rs[range := r], p) == RamAt(rs, p)
  {
    hide Displaced;
    RamStays(rs, range, r, p, 0);
    NotItself(rs, range, r, p);
  }

  lemma NotItself(rs: seq<Range>, range: nat, r: Range, p: nat)
    requires RamAt(rs, p).Some? && !Displaced(rs, range, r, p)
    ensures RamAt(rs, p).value.range != range
  {
  }

  lemma ReadKept(rs: seq<Range>, range: nat, r: Range, p: nat)
    requires range < |rs| && !Displaces(rs, range, r) && p < WORD_LIMIT && RamAt(rs, p).Some?
    ensures RamAt(rs[range := r], p) == RamAt(rs, p) && ReadWord(rs[range := r], p) == ReadWord(rs, p)
  {
    hide RamAt, Displaced;
    assert !Displaced(rs, range, r, p);
    RamKept(rs, range, r, p);
    NotItself(rs, range, r, p);
  }

  lemma EntriesInWords(satp: nat, pte: nat, v: nat)
    ensures RootEntry(satp, v) < WORD_LIMIT && LeafEntry(pte, v) < WORD_LIMIT
  {
    FrameInWords(satp % 0x40_0000);
    FrameInWords(pte / 0x400);
  }

  lemma FrameInWords(ppn: nat)
    ensures Frame(ppn) % PAGE == 0 && Frame(ppn) <= WORD_LIMIT - PAGE
  {
    Arith.DivUnique(ppn * PAGE, WORD_LIMIT, ppn / 0x10_0000, ppn % 0x10_0000 * PAGE);
  }

  lemma MergeInWords(pte: nat, v: nat, span: nat)
    requires span == PAGE || span == 0x40_0000
    ensures Merge(pte, v, span) < WORD_LIMIT
  {
    FrameInWords(pte / 0x400);
  }

  lemma NothingReads(rs: seq<Range>, p: nat)
    ensures RamAt(rs, p).None? ==> ReadWord(rs, p) == 0
    ensures !IsPointer(0) && forall m, priv, access :: !Grants(0, m, priv, access)
  {
  }

  /** Where nothing is displaced, a walk that leads to RAM leads to the same byte afterwards. */
  lemma MovedReach(c: Control, rs: seq<Range>, range: nat, r: Range, v: nat, access: Access)
    requires range < |rs| && !Displaces(rs, range, r) && v < WORD_LIMIT && Reaches(c, rs, v, access).Some?
    ensures Reaches(c, rs[range := r], v, access) == Reaches(c, rs, v, access)
  {
    hide RamAt, ReadWord, Displaces, Merge, RootEntry, LeafEntry, IsPointer, Grants, Translating;
    var ts := rs[range := r];
    if Translating(c, access) {
      var a := RootEntry(c.satp, v);
      var pte := ReadWord(rs, a);
      EntriesInWords(c.satp, pte, v);
      NothingReads(rs, a);
      ReadKept(rs, range, r, a);
      var b := LeafEntry(pte, v);
      if IsPointer(pte) {
        NothingReads(rs, b);
        ReadKept(rs, range, r, b);
      }
      var w := Walk(c.satp, rs, v);
      MergeInWords(w.pte, v, w.span);
      ReadKept(rs, range, r, Merge(w.pte, v, w.span));
    } else {
      ReadKept(rs, range, r, v);
    }
  }

  lemma MoveCoherent(s: State, range: nat, addr: nat, enabled: bool)
    requires Coherent(s) && Words(s) && range < |s.ranges| && !Uproots(s.ranges, range, addr, enabled)
    requires WellPlaced(Move(s, range, addr, enabled).ranges)
    ensures Coherent(Move(s, range, addr, enabled)) && Words(Move(s, range, addr, enabled))
  {
    hide AllFresh, InWords, WellPlaced, Displaces, Reaches, WithoutRange;
    if MovesRange(s.ranges, range, addr, enabled) {
      var r := MovedRange(s.ranges[range], addr, enabled);
      var ts := s.ranges[range := r];
      forall v: nat, access | v < WORD_LIMIT && Reaches(s.control, s.ranges, v, access).Some?
        ensures Reaches(s.control, ts, v, access) == Reaches(s.control, s.ranges, v, access)
      {
        MovedReach(s.control, s.ranges, range, r, v, access);
      }
      CoherentKept(s, s.(ranges := ts));
      RemovedFresh(s.control, ts, WRITE, s.write, range, 0, s.ranges[range].orgSize);
    }
  }

  lemma TakeDirtyCoherent(s: State, range: nat)
    requires Coherent(s) && Words(s) && range < |s.ranges|
    ensures Coherent(TakeDirty(s, range)) && Words(TakeDirty(s, range))
  {
    hide Coherent, Words, SameButAD;
    DirtyOnly(s.ranges, range, {});
    DirtyStepCoherent(s, s.ranges[range := s.ranges[range].(dirty := {})], range, 0, s.ranges[range].orgSize);
  }

  lemma ResetDirtyCoherent(s: State, range: nat, offset: nat)
    requires Coherent(s) && Words(s) && range < |s.ranges|
    ensures Coherent(ResetDirty(s, range, offset)) && Words(ResetDirty(s, range, offset))
  {
    hide Coherent, Words, SameButAD, Base;
    var dirty := s.ranges[range].dirty - {offset / PAGE};
    DirtyOnly(s.ranges, range, dirty);
    DirtyStepCoherent(s, s.ranges[range := s.ranges[range].(dirty := dirty)], range, Base(offset), Base(offset) + PAGE);
  }

  /** An event either flushes or leaves every access steered alike. */
  predicate FlushesOrSteersAlike(s: State, e: Event)
    requires s.Sized() && Possible(s, e)
  {
    var t := Next(s, e);
    t.ranges == s.ranges &&
    if Flushes(s, e) then t == FlushAll(s.(control := t.control)) else t == s.(control := t.control) && SteersAlike(s.control, t.control)
  }

  lemma WriteStep(s: State, e: Event)
    requires s.Sized() && Possible(s, e) && (e.WriteMstatus? || e.WriteSstatus? || e.WriteSatp? || e.Fence?)
    ensures FlushesOrSteersAlike(s, e)
  {
    hide FieldsOf, Bit, Flushed;
  }

  lemma TrapStep(s: State, delegated: bool)
    requires s.Sized() && !ChangesView(s.control, Trap(delegated))
    ensures Possible(s, Trap(delegated)) && FlushesOrSteersAlike(s, Trap(delegated))
  {
    hide Bit, Flushed, EnabledAt, SetMstatus, SetSatp, Move, TakeDirty, ResetDirty, DeviceStored, Accessed, Stored, Sret, Mret;
  }

  lemma ReturnSStep(s: State)
    requires s.Sized()
    ensures Possible(s, ReturnS) && FlushesOrSteersAlike(s, ReturnS)
  {
    hide Bit, Flushed, WithEnabledAt;
  }

  lemma ReturnMStep(s: State)
    requires s.Sized() && !ChangesView(s.control, ReturnM)
    ensures Possible(s, ReturnM) && FlushesOrSteersAlike(s, ReturnM)
  {
    hide Bit, Flushed, WithEnabledAt;
  }

  /** Events that touch only registers either flush or leave every access steered alike. */
  lemma RegisterStep(s: State, e: Event)
    requires s.Sized() && Possible(s, e) && !Outdates(s.control, s.ranges, e)
    requires !(e.Load? || e.Store? || e.Fetch? || e.DeviceStore? || e.GetDirtyBits? || e.ResetDirtyBit? || e.SetAddr?)
    ensures Next(s, e).ranges == s.ranges
    ensures if Flushes(s, e) then Next(s, e) == FlushAll(s.(control := Next(s, e).control))
            else Next(s, e) == s.(control := Next(s, e).control) && SteersAlike(s.control, Next(s, e).control)
  {
    hide Next, Flushes, SteersAlike, ChangesView, Possible;
    match e
    case Trap(delegated) => TrapStep(s, delegated);
    case ReturnS => ReturnSStep(s);
    case ReturnM => ReturnMStep(s);
    case _ => WriteStep(s, e);
  }

  lemma RegisterCoherent(s: State, e: Event)
    requires Coherent(s) && Words(s) && Possible(s, e) && s.Sized() && !Outdates(s.control, s.ranges, e)
    requires !(e.Load? || e.Store? || e.Fetch? || e.DeviceStore? || e.GetDirtyBits? || e.ResetDirtyBit? || e.SetAddr?)
    ensures Coherent(Next(s, e)) && Words(Next(s, e))
  {
    hide *;
    CoherentIs(s);
    RegisterStep(s, e);
    if Flushes(s, e) {
      SoundIs(s);
      SoundIs(s.(control := Next(s, e).control));
      FlushedCoherent(s.(control := Next(s, e).control));
    } else {
      SteeredCoherent(s, Next(s, e));
    }
  }

  lemma SlowSound(s: State, access: Access, v: nat)
    requires Sound(s) && v < WORD_LIMIT
    ensures Sound(Slow(s, access, v).0) && SameMap(s.ranges, Slow(s, access, v).0.ranges)
  {
    hide *;
    SoundIs(s);
    SlowIs(s, access, v);
    SoundIs(Slow(s, access, v).0);
    var p := Translate(s.control, s.ranges, v, access);
    if p.None? {
      SameButADItself(s.ranges);
      MapOf(s.ranges, s.ranges);
    } else {
      var rs := AfterWalk(s.control, s.ranges, v, access);
      AfterWalkSameButAD(s.control, s.ranges, v, access);
      MapOf(s.ranges, rs);
      PlacedAlike(s.ranges, rs);
      var l := RamAt(rs, p.value);
      if l.Some? {
        var ts := if access == WRITE then SetDirty(rs, l.value) else rs;
        if access == WRITE { DirtyIsNoMatter(rs, l.value); } else { SameButADItself(rs); MapOf(rs, rs); }
        SameMapTrans(s.ranges, rs, ts);
        PlacedAlike(rs, ts);
        FillKeeps(s.(ranges := ts), access, v, l.value);
        WordsOf(s, s.(ranges := ts));
        SoundIs(s.(ranges := ts));
        FillWords(s.(ranges := ts), access, v, l.value);
      } else {
        WordsOf(s, s.(ranges := rs));
      }
    }
  }

  lemma SoundIs(s: State)
    ensures Sound(s) <==> s.Sized() && WellPlaced(s.ranges) && Words(s)
    ensures s.Sized() <==> |s.read| == TLB_SIZE && |s.write| == TLB_SIZE && |s.code| == TLB_SIZE
  {
    hide WellPlaced, Words;
  }

  lemma SameMapTrans(rs: seq<Range>, ts: seq<Range>, us: seq<Range>)
    requires SameMap(rs, ts) && SameMap(ts, us)
    ensures SameMap(rs, us)
  {
  }

  lemma FillWords(s: State, access: Access, v: nat, l: Location)
    requires s.Sized() && Words(s) && v < WORD_LIMIT
    ensures Words(Fill(s, access, v, l)) && Fill(s, access, v, l).Sized()
  {
    BaseInWord(v);
  }

  lemma StoreSound(s: State, rs: seq<Range>, l: Location, size: nat, val: nat)
    requires Sound(s) && l.range < |rs| && SameMap(s.ranges, rs)
    ensures Sound(s.(ranges := StoreAt(rs, l, size, val)))
  {
    hide AllFresh, InWords, WellPlaced, PutWord, Inserted, SameMap, WordIn;
    var w := Inserted(WordIn(rs[l.range], l.offset), l.offset % 4, size, val);
    PutKeepsMap(rs, l, w);
    SameMapTrans(s.ranges, rs, PutWord(rs, l, w));
    PlacedAlike(s.ranges, PutWord(rs, l, w));
  }

  lemma AccessSound(s: State, access: Access, v: nat, size: nat)
    requires Sound(s) && v < WORD_LIMIT && size > 0
    ensures Sound(Accessed(s, access, v, size).0)
  {
    hide Slow, Hit, WellPlaced, Words;
    SlowSound(s, access, v);
  }

  lemma StoredSound(s: State, v: nat, size: nat, val: nat)
    requires Sound(s) && v < WORD_LIMIT && size > 0
    ensures Sound(Stored(s, v, size, val))
  {
    hide Accessed, WellPlaced, Words, StoreAt, Sound, SameMap;
    SoundIs(s);
    AccessSound(s, WRITE, v, size);
    var a := Accessed(s, WRITE, v, size);
    SameButADItself(a.0.ranges);
    MapOf(a.0.ranges, a.0.ranges);
    if a.1.Some? && a.1.value.range < |a.0.ranges| { StoreSound(a.0, a.0.ranges, a.1.value, size, val); }
  }

  lemma DeviceStoredSound(s: State, p: nat, size: nat, val: nat)
    requires Sound(s)
    ensures Sound(DeviceStored(s, p, size, val))
  {
    hide RamAt, WellPlaced, Words, StoreAt, SetDirty, Sound, SameMap;
    var l := RamAt(s.ranges, p);
    if l.Some? {
      DirtyIsNoMatter(s.ranges, l.value);
      SizeOfMap(s.ranges, SetDirty(s.ranges, l.value));
      StoreSound(s, SetDirty(s.ranges, l.value), l.value, size, val);
    }
  }

  lemma RemovedWords(es: seq<Entry>, range: nat, lo: nat, hi: nat)
    requires InWords(es)
    ensures InWords(WithoutRange(es, range, lo, hi))
  {
  }

  lemma MapStepSound(s: State, e: Event)
    requires Sound(s) && Possible(s, e) && (e.GetDirtyBits? || e.ResetDirtyBit? || e.SetAddr?)
    ensures Sound(Next(s, e))
  {
    hide InWords, WellPlaced, SameMap, Base, WithoutRange;
    if e.GetDirtyBits? {
      RemovedWords(s.write, e.range, 0, s.ranges[e.range].orgSize);
      DirtyOnly(s.ranges, e.range, {});
      MapOf(s.ranges, s.ranges[e.range := s.ranges[e.range].(dirty := {})]);
      PlacedAlike(s.ranges, s.ranges[e.range := s.ranges[e.range].(dirty := {})]);
    } else if e.ResetDirtyBit? {
      var dirty := s.ranges[e.range].dirty - {e.offset / PAGE};
      RemovedWords(s.write, e.range, Base(e.offset), Base(e.offset) + PAGE);
      DirtyOnly(s.ranges, e.range, dirty);
      MapOf(s.ranges, s.ranges[e.range := s.ranges[e.range].(dirty := dirty)]);
      PlacedAlike(s.ranges, s.ranges[e.range := s.ranges[e.range].(dirty := dirty)]);
    } else {
      RemovedWords(s.write, e.range, 0, s.ranges[e.range].orgSize);
    }
  }

  lemma RegisterSound(s: State, e: Event)
    requires Sound(s) && Possible(s, e)
    requires !(e.Load? || e.Store? || e.Fetch? || e.DeviceStore? || e.GetDirtyBits? || e.ResetDirtyBit? || e.SetAddr?)
    ensures Sound(Next(s, e)) && (Flushes(s, e) ==> Coherent(Next(s, e)))
  {
    hide WellPlaced, InWords, FieldsOf, Bit, AllFresh, Flushed;
    EmptyFresh(Next(s, e).control, s.ranges, READ, s.read);
    EmptyFresh(Next(s, e).control, s.ranges, WRITE, s.write);
    EmptyFresh(Next(s, e).control, s.ranges, CODE, s.code);
  }

  /** Soundness survives every event, and a flush makes sound TLBs coherent. */
  lemma StepSound(s: State, e: Event)
    requires Sound(s) && Possible(s, e)
    ensures Sound(Next(s, e)) && (Flushes(s, e) ==> Coherent(Next(s, e)))
  {
    hide *;
    SoundIs(s);
    if e.Load? || e.Store? || e.Fetch? || e.DeviceStore? || e.GetDirtyBits? || e.ResetDirtyBit? || e.SetAddr? {
      NoFlush(s, e);
      StepIs(s, e);
      SizesPositive();
      match e
      case Load(v, size) => AccessSound(s, READ, v, size);
      case Store(v, size, val) => StoredSound(s, v, size, val);
      case Fetch(v) => AccessSound(s, CODE, v, 1);
      case DeviceStore(p, size, val) => DeviceStoredSound(s, p, size, val);
      case _ => MapStepSound(s, e);
    } else {
      RegisterSound(s, e);
    }
  }

  lemma NoFlush(s: State, e: Event)
    requires e.Load? || e.Store? || e.Fetch? || e.DeviceStore? || e.GetDirtyBits? || e.ResetDirtyBit? || e.SetAddr?
    ensures !Flushes(s, e)
  {
  }

  lemma SizesPositive()
    ensures forall size: nat :: AccessSize(size) ==> size > 0
  {
  }

  /** A run that is possible from s. */
  predicate PossibleRun(s: State, es: seq<Event>)
    requires s.Sized()
    decreases |es|
  {
    es == [] || (Possible(s, es[0]) && PossibleRun(Next(s, es[0]), es[1..]))
  }

  function Run(s: State, es: seq<Event>): State
    requires s.Sized() && PossibleRun(s, es)
    decreases |es|
  {
    if es == [] then s else Run(Next(s, es[0]), es[1..])
  }

  /** Whether, at the end of a run, something has outdated the TLBs since they were last flushed. */
  ghost predicate Outdated(s: State, es: seq<Event>, already: bool)
    requires s.Sized() && PossibleRun(s, es)
    decreases |es|
  {
    if es == [] then already
    else Outdated(Next(s, es[0]), es[1..], !Flushes(s, es[0]) && (already || Outdates(s.control, s.ranges, es[0])))
  }

  lemma {:induction false} RunCoherent(s: State, es: seq<Event>, already: bool)
    requires Sound(s) && PossibleRun(s, es) && (already || Coherent(s))
    ensures Sound(Run(s, es)) && (Outdated(s, es, already) || Coherent(Run(s, es)))
    decreases |es|
  {
    hide *;
    SoundIs(s);
    RunIs(s, es, already);
    if es != [] {
      var e := es[0];
      StepSound(s, e);
      if !Flushes(s, e) && !already && !Outdates(s.control, s.ranges, e) { StepCoherent(s, e); }
      RunCoherent(Next(s, e), es[1..], !Flushes(s, e) && (already || Outdates(s.control, s.ranges, e)));
    }
  }

  lemma RunIs(s: State, es: seq<Event>, already: bool)
    requires s.Sized() && PossibleRun(s, es)
    ensures s.Sized()
    ensures es == [] ==> Run(s, es) == s && Outdated(s, es, already) == already
    ensures es != [] ==> Possible(s, es[0]) && Next(s, es[0]).Sized() && PossibleRun(Next(s, es[0]), es[1..])
    ensures es != [] ==> Run(s, es) == Run(Next(s, es[0]), es[1..])
    ensures es != [] ==> (Outdated(s, es, already) <==>
            Outdated(Next(s, es[0]), es[1..], !Flushes(s, es[0]) && (already || Outdates(s.control, s.ranges, es[0]))))
  {
    hide Next, Possible, Flushes, Outdates;
  }

  /** After any run from reset, as long as nothing has outdated the TLBs since the last flush,
      every access through them has the outcome of a fresh walk in the present state: the byte of
      RAM that it leads to, the same address outside RAM, or a page fault. */
  lemma AccessesAreFresh(s: State, es: seq<Event>, access: Access, v: nat, size: nat)
    requires s.Sized() && s == FlushAll(s) && WellPlaced(s.ranges) && PossibleRun(s, es) && !Outdated(s, es, false)
    requires v < WORD_LIMIT && AccessSize(size)
    ensures var t := Run(s, es);
            && t.Sized() && OutcomeOf(t, access, v, size) == Walked(t.control, t.ranges, v, access)
            && Accessed(t, access, v, size).1 == Reaches(t.control, t.ranges, v, access)
            && (Hit(t.Entries(access), v, size).Some? ==>
                Hit(t.Entries(access), v, size) == Reaches(t.control, t.ranges, v, access))
  {
    hide *;
    FlushedCoherent(s);
    CoherentIs(s);
    SoundIs(s);
    RunCoherent(s, es, false);
    var t := Run(s, es);
    SoundIs(t);
    AccessCoherent(t, access, v, size);
    HitIfAny(t, access, v, size);
    OutcomeIsFresh(t, access, v, size);
  }

  lemma OutcomeIsFresh(s: State, access: Access, v: nat, size: nat)
    requires Coherent(s) && AccessSize(size)
    ensures s.Sized() && OutcomeOf(s, access, v, size) == Walked(s.control, s.ranges, v, access)
  {
    hide Translate, AfterWalk, RamAt, Hit, AllFresh, WellPlaced, SameButAD, SameMap;
    if Hit(s.Entries(access), v, size).Some? {
      HitIsFresh(s, access, v, size);
    } else {
      var rs := AfterWalk(s.control, s.ranges, v, access);
      AfterWalkSameButAD(s.control, s.ranges, v, access);
      MapOf(s.ranges, rs);
      var p := Translate(s.control, s.ranges, v, access);
      if p.Some? { SameMapRam(s.ranges, rs, p.value); }
    }
  }

  lemma HitIfAny(s: State, access: Access, v: nat, size: nat)
    requires Coherent(s) && AccessSize(size)
    ensures s.Sized() && |s.Entries(access)| == TLB_SIZE && size > 0
    ensures Hit(s.Entries(access), v, size).Some? ==> Hit(s.Entries(access), v, size) == Reaches(s.control, s.ranges, v, access)
  {
    hide Reaches, Hit, AllFresh, WellPlaced;
    if Hit(s.Entries(access), v, size).Some? { HitIsFresh(s, access, v, size); }
  }
}
