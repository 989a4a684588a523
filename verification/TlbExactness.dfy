/** The events that TlbCoherence excepts are exactly those that leave the TLBs wrong: every one
    of them has a run, from reset, after which a load uses a byte no walk leads to. */
module TlbExactness {
  import opened PhysMemory
  import opened Wrappers
  import opened Sv32
  import opened Tlb
  import opened TlbCoherence
  import Arith

  /** A hit that a fresh walk in the present state contradicts */
  ghost predicate StaleHit(s: State, access: Access, v: nat, size: nat)
    requires s.Sized() && size > 0
  {
    Hit(s.Entries(access), v, size).Some? && Hit(s.Entries(access), v, size) != Reaches(s.control, s.ranges, v, access)
  }

  /** From s, with every entry unused, a load of v and then e leave a stale hit for the load. */
  ghost predicate LeavesStale(s: State, v: nat, e: Event) {
    && s.Sized() && s == FlushAll(s) && Sound(s) && v < WORD_LIMIT
    && Possible(s, Load(v, 1)) && Possible(Next(s, Load(v, 1)), e) && StaleHit(Next(Next(s, Load(v, 1)), e), READ, v, 1)
  }

  /** e leaves a coherent state coherent. */
  ghost predicate StaysCoherent(s: State, e: Event) {
    Coherent(s) && Words(s) && Possible(s, e) ==> Coherent(Next(s, e))
  }

  function Start(c: Control, rs: seq<Range>): State {
    var empty := seq(TLB_SIZE, i => Entry(UNUSED, 0, 0));
    State(c, rs, empty, empty, empty)
  }

  lemma StartIsReset(c: Control, rs: seq<Range>)
    requires WellPlaced(rs)
    ensures var s := Start(c, rs); s.Sized() && s == FlushAll(s) && Sound(s) && Coherent(s)
  {
    hide WellPlaced, AllFresh;
    var s := Start(c, rs);
    assert Flushed(s.read) == s.read;
    assert InWords(s.read);
    EmptyFresh(c, rs, READ, s.read);
    EmptyFresh(c, rs, WRITE, s.write);
    EmptyFresh(c, rs, CODE, s.code);
  }

  /** The first load from reset fills the read TLB; the entry then answers. */
  lemma LoadFills(c: Control, rs: seq<Range>, v: nat, l: Location)
    requires WellPlaced(rs) && v < WORD_LIMIT && Reaches(c, rs, v, READ) == Some(l) && AfterWalk(c, rs, v, READ) == rs
    ensures var s := Start(c, rs);
            && s.Sized() && Possible(s, Load(v, 1))
            && Next(s, Load(v, 1)) == s.(read := Filled(s.read, v, l)) && Hit(Filled(s.read, v, l), v, 1) == Some(l)
  {
    hide AfterWalk, Translate, RamAt, Index, Base;
    BaseInWord(v);
    Modulo1(v);
  }

  lemma Modulo1(v: nat)
    ensures v % 1 == 0
  {
  }

  /** A stale hit after a load and e is a coherent state that e makes incoherent. */
  lemma StaleBreaks(s: State, v: nat, e: Event)
    requires LeavesStale(s, v, e)
    ensures var t := Next(s, Load(v, 1)); t.control == s.control && Coherent(t) && Words(t) && !StaysCoherent(t, e)
  {
    hide *;
    ParametersOf(s, v, e);
    SoundIs(s);
    FlushedCoherent(s);
    AccessCoherent(s, READ, v, 1);
    var t := Next(s, Load(v, 1));
    CoherentIs(t);
    if StaysCoherent(t, e) { CannotBeStale(t, e, v); }
  }

  lemma ParametersOf(s: State, v: nat, e: Event)
    requires LeavesStale(s, v, e)
    ensures s.Sized() && s == FlushAll(s) && Sound(s) && v < WORD_LIMIT && AccessSize(1) && Possible(s, Load(v, 1))
    ensures var t := Next(s, Load(v, 1));
            t == Accessed(s, READ, v, 1).0 && Possible(t, e) && StaleHit(Next(t, e), READ, v, 1)
  {
    hide Possible, Next, StaleHit, Sound;
    PossibleLoad(s, v);
  }

  lemma PossibleLoad(s: State, v: nat)
    requires s.Sized()
    ensures Possible(s, Load(v, 1)) <==> v < WORD_LIMIT
    ensures Possible(s, Load(v, 1)) ==> Next(s, Load(v, 1)) == Accessed(s, READ, v, 1).0
  {
    hide Accessed;
    Modulo1(v);
  }

  lemma CannotBeStale(t: State, e: Event, v: nat)
    requires t.Sized() && Possible(t, e) && Coherent(t) && Words(t) && StaysCoherent(t, e)
    ensures !StaleHit(Next(t, e), READ, v, 1)
  {
    hide Possible, Next, Reaches, Hit, WellPlaced, AllFresh;
    if Hit(Next(t, e).read, v, 1).Some? { HitIsFresh(Next(t, e), READ, v, 1); }
  }

  /** The run that LeavesStale speaks of */
  lemma StaleRun(s: State, v: nat, e: Event)
    requires LeavesStale(s, v, e)
    ensures s.Sized() && PossibleRun(s, [Load(v, 1), e])
    ensures var t := Run(s, [Load(v, 1), e]); t.Sized() && StaleHit(t, READ, v, 1)
  {
    hide Possible, Next, StaleHit;
    var es, fs: seq<Event> := [Load(v, 1), e], [e];
    assert es[1..] == fs && fs[1..] == [];
    var t := Next(s, Load(v, 1));
    assert PossibleRun(Next(t, e), []);
    assert PossibleRun(t, fs) && Run(t, fs) == Run(Next(t, e), []);
    assert PossibleRun(s, es) && Run(s, es) == Run(t, fs);
  }

  // -----------------------------------------------------------------------------------------
  // Changes of MPP
  // -----------------------------------------------------------------------------------------

  /** One page of RAM at address a, all of whose words are the same. */
  function OnePage(a: nat, pte: nat): seq<Range> {
    [Range(a, PAGE, PAGE, true, seq(PAGE / 4, _ => pte), false, {})]
  }

  /** A leaf that maps to the page at address a, readable, writable and executable, for user mode
      or not, its accessed and dirty bits set. */
  function LeafTo(a: nat, user: bool): nat { a / PAGE * 0x400 + (if user then 0xdf else 0xcf) }

  lemma LeafBits(a: nat, user: bool)
    ensures var pte := LeafTo(a, user);
            && pte / 0x400 == a / PAGE && IsValid(pte) && IsReadable(pte) && IsWritable(pte) && IsExecutable(pte)
            && IsUser(pte) == user && IsAccessed(pte) && IsDirty(pte)
  {
    var q := a / PAGE;
    var low := if user then 0xdf else 0xcf;
    Arith.DivUnique(q * 0x400 + low, 0x400, q, low);
    LeafFlags(low, user);
    hide Bit;
    LowBits(LeafTo(a, user), q, low, 0x400, 1, 0x400);
    LowBits(LeafTo(a, user), q, low, 0x200, 2, 0x400);
    LowBits(LeafTo(a, user), q, low, 0x100, 4, 0x400);
    LowBits(LeafTo(a, user), q, low, 0x80, 8, 0x400);
    LowBits(LeafTo(a, user), q, low, 0x40, 0x10, 0x400);
    LowBits(LeafTo(a, user), q, low, 0x10, 0x40, 0x400);
    LowBits(LeafTo(a, user), q, low, 0x8, 0x80, 0x400);
  }

  lemma LeafFlags(low: nat, user: bool)
    requires low == if user then 0xdf else 0xcf
    ensures Bit(low, 1) && Bit(low, 2) && Bit(low, 4) && Bit(low, 8) && Bit(low, 0x10) == user && Bit(low, 0x40) && Bit(low, 0x80)
  {
  }

  lemma LeafIsNoPointer(pte: nat)
    ensures IsReadable(pte) ==> !IsPointer(pte)
  {
  }

  lemma OnePageRam(a: nat, pte: nat, p: nat)
    requires a % PAGE == 0
    ensures WellPlaced(OnePage(a, pte))
    ensures RamAt(OnePage(a, pte), p) == if a <= p < a + PAGE then Some(Location(0, p - a)) else None
    ensures a <= p < a + PAGE ==> ReadWord(OnePage(a, pte), p) == pte
  {
    var rs := OnePage(a, pte);
    assert FindRange(rs, p, 1) == None;
  }

  /** The page table is the page that satp names, and every entry maps back to it. */
  lemma OnePageWalk(c: Control, user: bool, v: nat, access: Access)
    requires Translating(c, access) && v < WORD_LIMIT
    ensures var a := Frame(c.satp % 0x40_0000);
            var rs := OnePage(a, LeafTo(a, user));
            && WellPlaced(rs)
            && (v % 0x40_0000 == a % 0x40_0000 ==>
                  Reaches(c, rs, v, access) ==
                    (if Grants(LeafTo(a, user), c.mstatus, EffectivePriv(c, access), access) then Some(Location(0, 0)) else None)
                  && AfterWalk(c, rs, v, access) == rs)
  {
    hide Grants, IsPointer, RamAt, ReadWord, LeafTo, OnePage, Translating, Bit, WriteWord, WellPlaced;
    var a := Frame(c.satp % 0x40_0000);
    var pte := LeafTo(a, user);
    var rs := OnePage(a, pte);
    FrameInWords(c.satp % 0x40_0000);
    LeafBits(a, user);
    LeafIsNoPointer(pte);
    RootInFrame(c.satp, v);
    OnePageRam(a, pte, RootEntry(c.satp, v));
    OnePageRam(a, pte, a);
    MergeBack(a, pte, v);
  }

  lemma RootInFrame(satp: nat, v: nat)
    ensures var a := Frame(satp % 0x40_0000); a <= RootEntry(satp, v) < a + PAGE
  {
    hide Frame;
  }

  lemma MergeBack(a: nat, pte: nat, v: nat)
    requires a % PAGE == 0 && a < WORD_LIMIT && pte / 0x400 == a / PAGE
    ensures v % 0x40_0000 == a % 0x40_0000 ==> Merge(pte, v, 0x40_0000) == a
  {
    assert Frame(a / PAGE) == a;
  }

  /** The address whose translation the page table gives as the page, but which lies elsewhere. */
  function Alias(a: nat): nat { if a < 0x40_0000 then a + 0x40_0000 else a % 0x40_0000 }

  lemma AliasElsewhere(a: nat)
    requires a % PAGE == 0 && a < WORD_LIMIT
    ensures Alias(a) < WORD_LIMIT && Alias(a) % 0x40_0000 == a % 0x40_0000 && !(a <= Alias(a) < a + PAGE)
  {
    if a < 0x40_0000 { Arith.DivUnique(a + 0x40_0000, 0x40_0000, 1, a); Arith.DivUnique(a, 0x40_0000, 0, a); }
    else { Arith.DivUnique(a % 0x40_0000, 0x40_0000, 0, a % 0x40_0000); }
  }

  /** Whatever the registers, if a trap changes the view of memory there is a load that a trap
      after it leaves stale. */
  lemma TrapOutdates(c: Control, delegated: bool) returns (s: State, v: nat)
    requires ChangesView(c, Trap(delegated))
    ensures s.control == c && LeavesStale(s, v, Trap(delegated))
  {
    hide Reaches, AfterWalk, Accessed, OnePage, LeafTo, Filled, Hit, WellPlaced, RamAt, Coherent, Sound, Frame;
    var user := c.mstatus.mpp != PRV_S;
    var a := Frame(c.satp % 0x40_0000);
    var pte := LeafTo(a, user);
    FrameInWords(c.satp % 0x40_0000);
    AliasElsewhere(a);
    v := Alias(a);
    s := Start(c, OnePage(a, pte));
    LeafBits(a, user);
    LeafIsNoPointer(pte);
    OnePageWalk(c, user, v, READ);
    StartIsReset(c, s.ranges);
    LoadFills(c, s.ranges, v, Location(0, 0));
    var t := Next(Next(s, Load(v, 1)), Trap(delegated));
    DirectReaches(t.control, t.ranges, v);
    OnePageRam(a, pte, v);
  }

  lemma DirectReaches(c: Control, rs: seq<Range>, v: nat)
    requires !Translating(c, READ)
    ensures Reaches(c, rs, v, READ) == RamAt(rs, v) && AfterWalk(c, rs, v, READ) == rs
  {
  }

  /** The same for a return with mret. */
  lemma ReturnOutdates(c: Control) returns (s: State, v: nat)
    requires ChangesView(c, ReturnM)
    ensures s.control == c && LeavesStale(s, v, ReturnM)
  {
    hide Reaches, AfterWalk, Accessed, OnePage, LeafTo, Filled, Hit, WellPlaced, RamAt, Coherent, Sound, Frame;
    var a := Frame(c.satp % 0x40_0000);
    var pte := LeafTo(a, false);
    FrameInWords(c.satp % 0x40_0000);
    v := a;
    s := Start(c, OnePage(a, pte));
    LeafBits(a, false);
    LeafIsNoPointer(pte);
    OnePageRam(a, pte, a);
    if Translating(c, READ) { OnePageWalk(c, false, v, READ); } else { DirectReaches(c, s.ranges, v); }
    StartIsReset(c, s.ranges);
    LoadFills(c, s.ranges, v, Location(0, 0));
    var t := Next(Next(s, Load(v, 1)), ReturnM);
    OnePageWalk(t.control, false, v, READ);
  }

  predicate IsRegisterEvent(e: Event) {
    !(e.Load? || e.Store? || e.Fetch? || e.DeviceStore? || e.GetDirtyBits? || e.ResetDirtyBit? || e.SetAddr?)
  }

  /** Exactly when an event on the registers can be trusted: for all registers, it keeps every
      coherent state coherent if and only if it does not change the view of memory unflushed,
      and if and only if it leaves no load from reset stale. */
  lemma RegisterEventsExact(c: Control, e: Event)
    requires IsRegisterEvent(e)
    ensures (forall s: State :: s.control == c ==> StaysCoherent(s, e)) <==> !ChangesView(c, e)
    ensures (forall s: State, v: nat :: s.control == c ==> !LeavesStale(s, v, e)) <==> !ChangesView(c, e)
  {
    hide Coherent, Words, LeavesStale, StaysCoherent, ChangesView;
    if ChangesView(c, e) {
      ViewEvents(c, e);
      var s, v := RegisterWitness(c, e);
      ParametersOf(s, v, e);
      StaleBreaks(s, v, e);
      assert Next(s, Load(v, 1)).control == c;
    } else {
      forall s: State | s.control == c ensures StaysCoherent(s, e) { RegisterKeeps(s, e); }
      forall s: State, v: nat | s.control == c ensures !LeavesStale(s, v, e) { NeverStale(s, v, e); }
    }
  }

  lemma NeverStale(s: State, v: nat, e: Event)
    requires IsRegisterEvent(e) && !ChangesView(s.control, e)
    ensures !LeavesStale(s, v, e)
  {
    hide *;
    if LeavesStale(s, v, e) {
      ParametersOf(s, v, e);
      StaleBreaks(s, v, e);
      RegisterKeeps(Next(s, Load(v, 1)), e);
    }
  }

  lemma RegisterWitness(c: Control, e: Event) returns (s: State, v: nat)
    requires ChangesView(c, e)
    ensures s.control == c && LeavesStale(s, v, e)
  {
    hide LeavesStale;
    match e
    case Trap(delegated) => s, v := TrapOutdates(c, delegated);
    case ReturnM => s, v := ReturnOutdates(c);
  }

  lemma ViewEvents(c: Control, e: Event)
    requires ChangesView(c, e)
    ensures e.Trap? || e.ReturnM?
  {
  }

  lemma RegisterKeeps(s: State, e: Event)
    requires IsRegisterEvent(e) && !ChangesView(s.control, e)
    ensures StaysCoherent(s, e)
  {
    hide Coherent, Words, ChangesView, Next;
    if Coherent(s) && Words(s) && Possible(s, e) {
      CoherentIs(s);
      StepCoherent(s, e);
    }
  }

  // -----------------------------------------------------------------------------------------
  // Moved ranges
  // -----------------------------------------------------------------------------------------

  lemma {:induction false} FoundElsewhere(rs: seq<Range>, range: nat, r: Range, p: nat, i: nat)
    requires range < |rs| && i <= |rs| && FindRange(rs, p, i).Some? && i <= range <= FindRange(rs, p, i).value
    ensures Contains(r, p) ==> FindRange(rs[range := r], p, i) == Some(range)
    ensures !Contains(r, p) && FindRange(rs, p, i) == Some(range) ==> FindRange(rs[range := r], p, i) != Some(range)
    decreases |rs| - i
  {
    if i < range {
      FoundElsewhere(rs, range, r, p, i + 1);
    } else if !Contains(r, p) {
      FoundLater(rs[range := r], p, i + 1, range);
    }
  }

  lemma {:induction false} FoundLater(rs: seq<Range>, p: nat, i: nat, range: nat)
    requires range < i <= |rs|
    ensures FindRange(rs, p, i) != Some(range)
    decreases |rs| - i
  {
    if i < |rs| { FoundLater(rs, p, i + 1, range); }
  }

  /** A displaced address does not lead to the same byte any more. */
  lemma DisplacedMoves(rs: seq<Range>, range: nat, addr: nat, enabled: bool, p: nat)
    requires range < |rs| && MovesRange(rs, range, addr, enabled)
    requires Displaced(rs, range, MovedRange(rs[range], addr, enabled), p)
    ensures RamAt(rs[range := MovedRange(rs[range], addr, enabled)], p) != RamAt(rs, p)
  {
    FoundElsewhere(rs, range, MovedRange(rs[range], addr, enabled), p, 0);
  }

  function Direct(): Control {
    Control(Mstatus(false, false, false, false, false, false, false, 0, 0, false, false, false), PRV_M, 0)
  }

  /** Wherever a range is moved from under an address, there is a load from it that the move
      leaves stale. */
  lemma MoveOutdates(rs: seq<Range>, range: nat, addr: nat, enabled: bool) returns (s: State, v: nat)
    requires range < |rs| && WellPlaced(rs) && Uproots(rs, range, addr, enabled)
    requires WellPlaced(rs[range := MovedRange(rs[range], addr, enabled)])
    ensures s.ranges == rs && LeavesStale(s, v, SetAddr(range, addr, enabled))
    ensures s.Sized() && Possible(s, Load(v, 1)) && Next(s, Load(v, 1)).ranges == rs
  {
    hide Reaches, AfterWalk, Accessed, Filled, Hit, WellPlaced, RamAt, Coherent, Sound, Displaced, WithoutRange;
    var e := SetAddr(range, addr, enabled);
    v :| v < WORD_LIMIT && Displaced(rs, range, MovedRange(rs[range], addr, enabled), v);
    DisplacedIs(rs, range, MovedRange(rs[range], addr, enabled), v);
    s := Start(Direct(), rs);
    DirectReaches(Direct(), rs, v);
    StartIsReset(Direct(), rs);
    LoadFills(Direct(), rs, v, RamAt(rs, v).value);
    DisplacedMoves(rs, range, addr, enabled, v);
    DirectReaches(Direct(), Next(Next(s, Load(v, 1)), e).ranges, v);
  }

  lemma DisplacedIs(rs: seq<Range>, range: nat, r: Range, p: nat)
    requires Displaced(rs, range, r, p)
    ensures RamAt(rs, p).Some?
  {
  }

  /** Exactly when a range may be moved, enabled or disabled: for every map, this keeps every
      coherent state on it coherent if and only if it takes no byte of RAM from its address. */
  lemma MovesExact(rs: seq<Range>, range: nat, addr: nat, enabled: bool)
    requires range < |rs| && WellPlaced(rs) && WellPlaced(rs[range := MovedRange(rs[range], addr, enabled)])
    ensures (forall s: State :: s.ranges == rs ==> StaysCoherent(s, SetAddr(range, addr, enabled))) <==>
            !Uproots(rs, range, addr, enabled)
  {
    hide *;
    var e := SetAddr(range, addr, enabled);
    if Uproots(rs, range, addr, enabled) {
      var s, v := MoveOutdates(rs, range, addr, enabled);
      ParametersOf(s, v, e);
      StaleBreaks(s, v, e);
    } else {
      forall s: State | s.ranges == rs ensures StaysCoherent(s, e) { MoveKeeps(s, range, addr, enabled); }
    }
  }

  lemma MoveKeeps(s: State, range: nat, addr: nat, enabled: bool)
    requires range < |s.ranges| && !Uproots(s.ranges, range, addr, enabled)
    ensures StaysCoherent(s, SetAddr(range, addr, enabled))
  {
    hide Coherent, Words, Uproots, Next;
    if Coherent(s) && Words(s) && Possible(s, SetAddr(range, addr, enabled)) {
      CoherentIs(s);
      StepCoherent(s, SetAddr(range, addr, enabled));
    }
  }

  predicate Apart(rs: seq<Range>) {
    forall i, j :: 0 <= i < j < |rs| && rs[i].isRam && rs[j].isRam ==> !Overlap(rs[i], rs[j])
  }

  lemma {:induction false} FoundInside(rs: seq<Range>, k: nat, p: nat, i: nat)
    requires WellPlaced(rs) && Apart(rs) && i <= k < |rs| && rs[k].isRam && Contains(rs[k], p)
    ensures FindRange(rs, p, i) == Some(k)
    decreases |rs| - i
  {
    if i < k {
      if !rs[i].isRam { assert !Overlap(rs[k], rs[i]); } else { assert !Overlap(rs[i], rs[k]); }
      FoundInside(rs, k, p, i + 1);
    }
  }

  /** Among RAM ranges that do not overlap, that is any change to a range that is RAM, is enabled
      and begins below 2^32. */
  lemma UprootsAmongApart(rs: seq<Range>, range: nat, addr: nat, enabled: bool)
    requires range < |rs| && WellPlaced(rs) && WellPlaced(rs[range := MovedRange(rs[range], addr, enabled)])
    requires Apart(rs) && Apart(rs[range := MovedRange(rs[range], addr, enabled)])
    ensures Uproots(rs, range, addr, enabled) <==>
            MovesRange(rs, range, addr, enabled) && rs[range].isRam && rs[range].size > 0 && rs[range].addr < WORD_LIMIT
  {
    var r := MovedRange(rs[range], addr, enabled);
    if MovesRange(rs, range, addr, enabled) {
      if rs[range].isRam && rs[range].size > 0 && rs[range].addr < WORD_LIMIT {
        FoundInside(rs, range, rs[range].addr, 0);
        assert Displaced(rs, range, r, rs[range].addr);
      }
      forall p: nat | p < WORD_LIMIT && Displaced(rs, range, r, p)
        ensures rs[range].isRam && rs[range].size > 0 && rs[range].addr < WORD_LIMIT
      {
        NotCovered(rs, range, r, p);
      }
    }
  }

  lemma NotCovered(rs: seq<Range>, range: nat, r: Range, p: nat)
    requires range < |rs| && r.isRam == rs[range].isRam && Displaced(rs, range, r, p)
    requires WellPlaced(rs[range := r]) && Apart(rs[range := r])
    ensures RamAt(rs, p).value.range == range && rs[range].isRam && Contains(rs[range], p)
  {
    var k := RamAt(rs, p).value.range;
    OneAtATime(rs[range := r], range, k, p);
  }

  lemma OneAtATime(ts: seq<Range>, i: nat, k: nat, p: nat)
    requires WellPlaced(ts) && Apart(ts) && i < |ts| && k < |ts| && ts[k].isRam
    ensures i < k && Contains(ts[k], p) ==> !Contains(ts[i], p)
  {
    if i < k {
      if ts[i].isRam { assert !Overlap(ts[i], ts[k]); } else { assert ApartFromDevices(ts, k) && !Overlap(ts[k], ts[i]); }
    }
  }
}
