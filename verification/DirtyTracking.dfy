/** Dirty pages of tracked RAM (iomem.c, iomem.h).  Stores that hit the write TLB do not touch
    the dirty bits, yet no store is missed: an entry of the write TLB stands for a page that is
    already marked.  Stores of accessed and dirty bits by page walks are not counted. */
module DirtyTracking {
  import opened PhysMemory
  import opened Wrappers
  import opened Sv32
  import opened Tlb
  import opened TlbCoherence
  import Arith

  /** A page of a range. */
  datatype Page = Page(range: nat, page: nat)

  function PageOf(l: Location): Page { Page(l.range, l.offset / PAGE) }

  predicate IsMarked(rs: seq<Range>, p: Page) {
    p.range < |rs| && (rs[p.range].tracked ==> p.page in rs[p.range].dirty)
  }

  /** An entry of the write TLB in use stands for a page of a mapped RAM range, marked dirty. */
  predicate EntryNoted(rs: seq<Range>, e: Entry) {
    e.vaddr != UNUSED ==>
      && e.vaddr % PAGE == 0 && e.range < |rs| && rs[e.range].isRam && rs[e.range].size != 0
      && 0 <= e.vaddr + e.addend < rs[e.range].orgSize && (e.vaddr + e.addend) % PAGE == 0
      && IsMarked(rs, Page(e.range, (e.vaddr + e.addend) / PAGE))
  }

  predicate AllNoted(rs: seq<Range>, es: seq<Entry>) {
    forall i :: 0 <= i < |es| ==> EntryNoted(rs, es[i])
  }

  /** A range is mapped in full or not at all. */
  predicate MappedWhole(rs: seq<Range>) {
    forall i :: 0 <= i < |rs| ==> rs[i].size == 0 || rs[i].size == rs[i].orgSize
  }

  ghost predicate AllMarked(rs: seq<Range>, ps: set<Page>) {
    forall p :: p in ps ==> IsMarked(rs, p)
  }

  /** No store since the pages were last taken has gone unnoted. */
  ghost predicate Noted(s: State, stored: set<Page>) {
    Sound(s) && MappedWhole(s.ranges) && AllNoted(s.ranges, s.write) && AllMarked(s.ranges, stored)
  }

  /** The pages stored to since they were last taken or reset. */
  function StoredTo(s: State, e: Event, ps: set<Page>): set<Page>
    requires s.Sized() && Possible(s, e)
  {
    match e
    case Store(v, size, _) =>
      var l := Accessed(s, WRITE, v, size).1;
      if l.Some? then ps + {PageOf(l.value)} else ps
    case DeviceStore(p, _, _) =>
      var l := RamAt(s.ranges, p);
      if l.Some? then ps + {PageOf(l.value)} else ps
    case GetDirtyBits(range) => set p | p in ps && p.range != range
    case ResetDirtyBit(range, offset) => ps - {Page(range, offset / PAGE)}
    case _ => ps
  }

  // -----------------------------------------------------------------------------------------
  // Steps
  // -----------------------------------------------------------------------------------------

  /** Nothing that a walk or a store does to RAM unmarks a page or unmaps a range. */
  predicate NoLess(rs: seq<Range>, ts: seq<Range>) {
    |rs| == |ts| && forall i :: 0 <= i < |rs| ==>
      && ts[i].isRam == rs[i].isRam && ts[i].size == rs[i].size && ts[i].orgSize == rs[i].orgSize
      && ts[i].tracked == rs[i].tracked && rs[i].dirty <= ts[i].dirty
  }

  lemma NoLessNoted(rs: seq<Range>, ts: seq<Range>, es: seq<Entry>, ps: set<Page>)
    requires NoLess(rs, ts) && MappedWhole(rs) && AllNoted(rs, es) && AllMarked(rs, ps)
    ensures MappedWhole(ts) && AllNoted(ts, es) && AllMarked(ts, ps)
  {
    forall i | 0 <= i < |es| ensures EntryNoted(ts, es[i]) {
      assert EntryNoted(rs, es[i]);
    }
  }

  lemma PutNoLess(rs: seq<Range>, l: Location, w: nat)
    requires l.range < |rs|
    ensures NoLess(rs, PutWord(rs, l, w))
  {
  }

  lemma StoreNoLess(rs: seq<Range>, l: Location, size: nat, val: nat)
    requires l.range < |rs|
    ensures NoLess(rs, StoreAt(rs, l, size, val))
  {
    hide NoLess, PutWord, Inserted;
    PutNoLess(rs, l, Inserted(WordIn(rs[l.range], l.offset), l.offset % 4, size, val));
  }

  lemma WalkNoLess(c: Control, rs: seq<Range>, v: nat, access: Access)
    ensures NoLess(rs, AfterWalk(c, rs, v, access))
  {
    hide Walk, Translating, Grants, Marked, RamAt;
    var w := Walk(c.satp, rs, v);
    var l := RamAt(rs, w.entry);
    if l.Some? { PutNoLess(rs, l.value, Marked(w.pte, access)); }
  }

  lemma DirtyNoLess(rs: seq<Range>, l: Location)
    requires l.range < |rs|
    ensures NoLess(rs, SetDirty(rs, l)) && IsMarked(SetDirty(rs, l), PageOf(l))
  {
  }

  lemma NoLessTrans(rs: seq<Range>, ts: seq<Range>, us: seq<Range>)
    requires NoLess(rs, ts) && NoLess(ts, us)
    ensures NoLess(rs, us)
  {
  }

  lemma NoLessMarked(rs: seq<Range>, ts: seq<Range>, p: Page)
    requires NoLess(rs, ts) && IsMarked(rs, p)
    ensures IsMarked(ts, p)
  {
  }

  /** Translation keeps the place in the page. */
  lemma TranslateKeepsOffset(c: Control, rs: seq<Range>, v: nat, access: Access)
    ensures var p := Translate(c, rs, v, access); p.Some? ==> p.value % PAGE == v % PAGE
  {
    hide Walk, Grants, Translating, Merge, Frame;
    var w := Walk(c.satp, rs, v);
    var k := if w.span == PAGE then 1 else 0x400;
    PageIs();
    MergedPage(w.pte, v, k, w.span, Frame(w.pte / 0x400) / w.span);
    Arith.DivUnique(Merge(w.pte, v, w.span), PAGE, Frame(w.pte / 0x400) / w.span * k + v / PAGE % k, v % PAGE);
  }

  lemma FilledNoted(rs: seq<Range>, es: seq<Entry>, v: nat, p: nat, l: Location)
    requires WellPlaced(rs) && MappedWhole(rs) && AllNoted(rs, es) && |es| == TLB_SIZE && v < WORD_LIMIT
    requires RamAt(rs, p) == Some(l) && p % PAGE == v % PAGE && IsMarked(rs, PageOf(l))
    ensures AllNoted(rs, Filled(es, v, l))
  {
    hide RamAt, IsMarked;
    RamAligned(rs, p, l);
    BaseInWord(v);
    var e := Entry(Base(v), l.range, l.offset - v);
    var q, r := l.offset / PAGE, l.offset % PAGE;
    Arith.DivUnique(q * PAGE, PAGE, q, 0);
    assert e.vaddr + e.addend == q * PAGE;
    assert EntryNoted(rs, e);
  }

  lemma RamAligned(rs: seq<Range>, p: nat, l: Location)
    requires WellPlaced(rs) && MappedWhole(rs) && RamAt(rs, p) == Some(l)
    ensures l.range < |rs| && rs[l.range].isRam && l.offset < rs[l.range].size == rs[l.range].orgSize
    ensures l.offset % PAGE == p % PAGE
  {
    var a := rs[l.range].addr;
    Arith.DivUnique(l.offset, PAGE, p / PAGE - a / PAGE, p % PAGE);
  }

  /** A slow access notes what it fills the write TLB with. */
  lemma SlowNoted(s: State, access: Access, v: nat, stored: set<Page>)
    requires Noted(s, stored) && v < WORD_LIMIT
    ensures Noted(Slow(s, access, v).0, stored)
    ensures var l := Slow(s, access, v).1; l.Some? && access == WRITE ==> IsMarked(Slow(s, access, v).0.ranges, PageOf(l.value))
    ensures var l := Slow(s, access, v).1; l.Some? ==> l.value.range < |s.ranges| == |Slow(s, access, v).0.ranges|
  {
    hide *;
    NotedIs(s, stored);
    SlowSound(s, access, v);
    SizeOfMap(s.ranges, Slow(s, access, v).0.ranges);
    SlowIs(s, access, v);
    NotedIs(Slow(s, access, v).0, stored);
    var p := Translate(s.control, s.ranges, v, access);
    if p.Some? {
      var rs := AfterWalk(s.control, s.ranges, v, access);
      TranslateKeepsOffset(s.control, s.ranges, v, access);
      WalkNoLess(s.control, s.ranges, v, access);
      NoLessNoted(s.ranges, rs, s.write, stored);
      var l := RamAt(rs, p.value);
      if l.Some? {
        RamInside(rs, p.value);
        SoundIs(s);
        SoundIs(s.(ranges := rs));
        FillIs(s.(ranges := rs), access, v, l.value);
        if access == WRITE {
          var ts := SetDirty(rs, l.value);
          DirtyNoLess(rs, l.value);
          NoLessNoted(rs, ts, s.write, stored);
          DirtyIsNoMatter(rs, l.value);
          SameMapRam(rs, ts, p.value);
          SoundIs(s.(ranges := ts));
          FillIs(s.(ranges := ts), access, v, l.value);
          SoundIs(Slow(s, access, v).0);
          FilledNoted(ts, s.write, v, p.value, l.value);
        }
      }
    }
  }

  lemma RamInside(rs: seq<Range>, p: nat)
    ensures RamAt(rs, p).Some? ==> RamAt(rs, p).value.range < |rs|
  {
  }

  lemma FillIs(s: State, access: Access, v: nat, l: Location)
    requires s.Sized()
    ensures Fill(s, access, v, l).ranges == s.ranges
    ensures Fill(s, access, v, l).write == if access == WRITE then Filled(s.write, v, l) else s.write
  {
  }

  lemma NotedIs(s: State, stored: set<Page>)
    ensures Noted(s, stored) <==>
            Sound(s) && MappedWhole(s.ranges) && AllNoted(s.ranges, s.write) && AllMarked(s.ranges, stored)
    ensures Sound(s) ==> s.Sized() && |s.write| == TLB_SIZE && WellPlaced(s.ranges)
  {
    hide WellPlaced, AllNoted, MappedWhole, AllMarked;
  }

  /** A hit in the write TLB is on a page already marked. */
  lemma HitNoted(s: State, v: nat, size: nat, stored: set<Page>)
    requires Noted(s, stored) && AccessSize(size)
    ensures s.Sized() && size > 0
    ensures var l := Hit(s.write, v, size); l.Some? ==> l.value.range < |s.ranges| && IsMarked(s.ranges, PageOf(l.value))
  {
    var l := Hit(s.write, v, size);
    if l.Some? {
      hide IsMarked, Tag, Index, WellPlaced, Words, AllMarked;
      var e := s.write[Index(v)];
      assert EntryNoted(s.ranges, e);
      TagOfPage(v, size, e.vaddr);
      var q := (e.vaddr + e.addend) / PAGE;
      Arith.DivUnique(e.addend + v, PAGE, q, v % PAGE);
    }
  }

  lemma AccessNoted(s: State, access: Access, v: nat, size: nat, stored: set<Page>)
    requires Noted(s, stored) && v < WORD_LIMIT && AccessSize(size)
    ensures s.Sized() && size > 0 && Noted(Accessed(s, access, v, size).0, stored)
    ensures var a := Accessed(s, access, v, size); a.1.Some? && access == WRITE ==>
            a.1.value.range < |a.0.ranges| && IsMarked(a.0.ranges, PageOf(a.1.value))
  {
    hide *;
    NotedIs(s, stored);
    SizesPositive();
    AccessedIs(s, access, v, size);
    SlowNoted(s, access, v, stored);
    HitNoted(s, v, size, stored);
  }

  lemma AccessedIs(s: State, access: Access, v: nat, size: nat)
    requires s.Sized() && size > 0
    ensures s.Entries(WRITE) == s.write && |s.Entries(access)| == TLB_SIZE
    ensures Accessed(s, access, v, size) ==
            var h := Hit(s.Entries(access), v, size); if h.Some? then (s, h) else Slow(s, access, v)
  {
    hide Hit, Slow;
  }

  lemma StoreNoted(s: State, v: nat, size: nat, val: nat, stored: set<Page>)
    requires Noted(s, stored) && v < WORD_LIMIT && AccessSize(size)
    ensures s.Sized() && size > 0
    ensures var l := Accessed(s, WRITE, v, size).1;
            Noted(Stored(s, v, size, val), if l.Some? then stored + {PageOf(l.value)} else stored)
  {
    hide Accessed, Noted, StoreAt, IsMarked, Sound;
    AccessNoted(s, WRITE, v, size, stored);
    var a := Accessed(s, WRITE, v, size);
    if a.1.Some? { PutNoted(a.0, a.0.ranges, a.1.value, size, val, stored); }
    StoredSound(s, v, size, val) by { NotedIs(s, stored); }
  }

  /** A store to a page already marked. */
  lemma PutNoted(s: State, rs: seq<Range>, l: Location, size: nat, val: nat, stored: set<Page>)
    requires Noted(s, stored) && l.range < |rs| && NoLess(s.ranges, rs) && SameMap(s.ranges, rs) && IsMarked(rs, PageOf(l))
    ensures Noted(s.(ranges := StoreAt(rs, l, size, val)), stored + {PageOf(l)})
  {
    hide AllNoted, MappedWhole, Sound, StoreAt, NoLess, SameMap;
    StoreSound(s, rs, l, size, val);
    StoreNoLess(rs, l, size, val);
    NoLessTrans(s.ranges, rs, StoreAt(rs, l, size, val));
    NoLessNoted(s.ranges, StoreAt(rs, l, size, val), s.write, stored);
    NoLessMarked(rs, StoreAt(rs, l, size, val), PageOf(l));
  }

  lemma DeviceStoreNoted(s: State, p: nat, size: nat, val: nat, stored: set<Page>)
    requires Noted(s, stored)
    ensures var l := RamAt(s.ranges, p);
            Noted(DeviceStored(s, p, size, val), if l.Some? then stored + {PageOf(l.value)} else stored)
  {
    hide RamAt, Noted, StoreAt, IsMarked, SetDirty, NoLess, SameMap;
    var l := RamAt(s.ranges, p);
    RamInside(s.ranges, p);
    if l.Some? {
      DirtyNoLess(s.ranges, l.value);
      DirtyIsNoMatter(s.ranges, l.value);
      SizeOfMap(s.ranges, SetDirty(s.ranges, l.value));
      PutNoted(s, SetDirty(s.ranges, l.value), l.value, size, val, stored);
    }
  }

  /** Taking a range's dirty pages: the write entries into it go, so that stores mark it anew. */
  lemma TakeNoted(s: State, range: nat, stored: set<Page>)
    requires Noted(s, stored) && range < |s.ranges| && s.ranges[range].tracked
    ensures Noted(TakeDirty(s, range), set p | p in stored && p.range != range)
  {
    var t := TakeDirty(s, range);
    StepSound(s, GetDirtyBits(range));
    hide Sound, InRange;
    forall i | 0 <= i < |t.write| ensures EntryNoted(t.ranges, t.write[i]) {
      assert EntryNoted(s.ranges, s.write[i]);
      InRangeIs(s.write[i], range, 0, s.ranges[range].orgSize);
    }
  }

  lemma InRangeIs(e: Entry, range: nat, lo: nat, hi: nat)
    ensures InRange(e, range, lo, hi) <==> e.vaddr != UNUSED && e.range == range && lo <= e.vaddr + e.addend < hi
  {
  }

  lemma ResetNoted(s: State, range: nat, offset: nat, stored: set<Page>)
    requires Noted(s, stored) && range < |s.ranges|
    ensures Noted(ResetDirty(s, range, offset), stored - {Page(range, offset / PAGE)})
  {
    var t := ResetDirty(s, range, offset);
    StepSound(s, ResetDirtyBit(range, offset));
    hide Sound, InRange, Base;
    BasePages(offset);
    forall i | 0 <= i < |t.write| ensures EntryNoted(t.ranges, t.write[i]) {
      assert EntryNoted(s.ranges, s.write[i]);
      var b := s.write[i].vaddr + s.write[i].addend;
      if s.write[i].vaddr != UNUSED { SamePageBase(b, offset); }
      InRangeIs(s.write[i], range, Base(offset), Base(offset) + PAGE);
    }
  }

  lemma BasePages(offset: nat)
    ensures Base(offset) <= offset < Base(offset) + PAGE
  {
  }

  lemma SamePageBase(b: nat, offset: nat)
    requires b % PAGE == 0
    ensures b / PAGE == offset / PAGE <==> Base(offset) <= b < Base(offset) + PAGE
  {
    var q := offset / PAGE;
    assert b == b / PAGE * PAGE;
  }

  lemma MoveNoted(s: State, range: nat, addr: nat, enabled: bool, stored: set<Page>)
    requires Noted(s, stored) && Possible(s, SetAddr(range, addr, enabled))
    ensures Noted(Move(s, range, addr, enabled), stored)
  {
    var t := Move(s, range, addr, enabled);
    StepSound(s, SetAddr(range, addr, enabled));
    hide Sound, InRange, WellPlaced;
    forall i | 0 <= i < |t.write| ensures EntryNoted(t.ranges, t.write[i]) {
      assert EntryNoted(s.ranges, s.write[i]);
      InRangeIs(s.write[i], range, 0, s.ranges[range].orgSize);
    }
  }

  lemma RegisterNoted(s: State, e: Event, stored: set<Page>)
    requires Noted(s, stored) && Possible(s, e)
    requires !(e.Load? || e.Store? || e.Fetch? || e.DeviceStore? || e.GetDirtyBits? || e.ResetDirtyBit? || e.SetAddr?)
    ensures Noted(Next(s, e), stored)
  {
    StepSound(s, e);
    hide Sound, FieldsOf, Bit, WellPlaced, MappedWhole;
  }

  /** Every event keeps every store noted. */
  lemma StepNoted(s: State, e: Event, stored: set<Page>)
    requires Noted(s, stored) && Possible(s, e)
    ensures s.Sized() && Noted(Next(s, e), StoredTo(s, e, stored))
  {
    hide *;
    NotedIs(s, stored);
    StepIs(s, e);
    StoredToIs(s, e, stored);
    match e
    case Load(v, size) => AccessNoted(s, READ, v, size, stored);
    case Store(v, size, val) => StoreNoted(s, v, size, val, stored);
    case Fetch(v) => AccessNoted(s, CODE, v, 1, stored);
    case DeviceStore(p, size, val) => DeviceStoreNoted(s, p, size, val, stored);
    case GetDirtyBits(range) => TakeNoted(s, range, stored);
    case ResetDirtyBit(range, offset) => ResetNoted(s, range, offset, stored);
    case SetAddr(range, addr, enabled) => MoveNoted(s, range, addr, enabled, stored);
    case _ => RegisterNoted(s, e, stored);
  }

  lemma StoredToIs(s: State, e: Event, ps: set<Page>)
    requires s.Sized() && Possible(s, e)
    ensures s.Sized()
    ensures e.Store? ==> e.size > 0
    ensures e.Store? ==> (StoredTo(s, e, ps) ==
            (var l := Accessed(s, WRITE, e.v, e.size).1; if l.Some? then ps + {PageOf(l.value)} else ps))
    ensures e.DeviceStore? ==> (StoredTo(s, e, ps) ==
            (var l := RamAt(s.ranges, e.p); if l.Some? then ps + {PageOf(l.value)} else ps))
    ensures e.GetDirtyBits? ==> s.ranges[e.range].tracked && StoredTo(s, e, ps) == set p | p in ps && p.range != e.range
    ensures e.ResetDirtyBit? ==> StoredTo(s, e, ps) == ps - {Page(e.range, e.offset / PAGE)}
    ensures !(e.Store? || e.DeviceStore? || e.GetDirtyBits? || e.ResetDirtyBit?) ==> StoredTo(s, e, ps) == ps
  {
    hide Accessed, RamAt, WellPlaced;
  }

  /** The pages stored to in a run since they were last taken. */
  function StoredIn(s: State, es: seq<Event>, ps: set<Page>): set<Page>
    requires s.Sized() && PossibleRun(s, es)
    decreases |es|
  {
    if es == [] then ps else StoredIn(Next(s, es[0]), es[1..], StoredTo(s, es[0], ps))
  }

  lemma {:induction false} RunNoted(s: State, es: seq<Event>, stored: set<Page>)
    requires Noted(s, stored) && s.Sized() && PossibleRun(s, es)
    ensures Noted(Run(s, es), StoredIn(s, es, stored))
    decreases |es|
  {
    hide *;
    NotedIs(s, stored);
    RunIs(s, es, false);
    StoredInIs(s, es, stored);
    if es != [] {
      StepNoted(s, es[0], stored);
      RunNoted(Next(s, es[0]), es[1..], StoredTo(s, es[0], stored));
    }
  }

  lemma StoredInIs(s: State, es: seq<Event>, ps: set<Page>)
    requires s.Sized() && PossibleRun(s, es)
    ensures s.Sized()
    ensures es == [] ==> StoredIn(s, es, ps) == ps
    ensures es != [] ==> (Possible(s, es[0]) && Next(s, es[0]).Sized() && PossibleRun(Next(s, es[0]), es[1..]) &&
            StoredIn(s, es, ps) == StoredIn(Next(s, es[0]), es[1..], StoredTo(s, es[0], ps)))
  {
    hide Next, Possible, StoredTo;
  }

  /** After any run from reset, moved ranges included, the dirty pages of a tracked range include
      every page that the guest or a device stored to since they were last taken. */
  lemma NoStoreIsMissed(s: State, es: seq<Event>, p: Page)
    requires s.Sized() && s == FlushAll(s) && WellPlaced(s.ranges) && MappedWhole(s.ranges) && PossibleRun(s, es)
    requires p in StoredIn(s, es, {})
    ensures p.range < |Run(s, es).ranges|
    ensures Run(s, es).ranges[p.range].tracked ==> p.page in Run(s, es).ranges[p.range].dirty
  {
    hide Run, StoredIn, AllNoted, Sound;
    FlushedCoherent(s);
    CoherentIs(s);
    SoundIs(s);
    FlushedNoted(s.ranges, s.write);
    NotedIs(s, {});
    RunNoted(s, es, {});
    assert IsMarked(Run(s, es).ranges, p);
  }

  lemma FlushedNoted(rs: seq<Range>, es: seq<Entry>)
    ensures AllNoted(rs, Flushed(es))
  {
  }
}
