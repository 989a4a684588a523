/** Exactly which stores leave the TLBs coherent: it does not matter whether a store meets the page
    tables, but whether a walk whose page may be in a TLB leads elsewhere afterwards. */
module TlbStores {
  import opened PhysMemory
  import opened Wrappers
  import opened Sv32
  import opened Tlb
  import opened TlbCoherence
  import opened TlbExactness
  import Arith

  // -----------------------------------------------------------------------------------------
  // An entry for any page that can be reached
  // -----------------------------------------------------------------------------------------

  /** The entry that a slow access to v makes */
  lemma FilledHits(es: seq<Entry>, v: nat, l: Location)
    requires |es| == TLB_SIZE && v < WORD_LIMIT
    ensures Hit(Filled(es, v, l), v, 1) == Some(l) && Filled(es, v, l)[Index(v)].vaddr == Base(v)
  {
    hide Index, Base;
    Modulo1(v);
  }

  /** Reset, and the page of v entered in one TLB */
  function Planted(c: Control, rs: seq<Range>, access: Access, v: nat, l: Location): State { Fill(Start(c, rs), access, v, l) }

  lemma PlantedCoherent(c: Control, rs: seq<Range>, access: Access, v: nat, l: Location)
    requires WellPlaced(rs) && v < WORD_LIMIT && Reaches(c, rs, v, access) == Some(l)
    ensures var s := Planted(c, rs, access, v, l);
            && s.control == c && s.ranges == rs && Coherent(s) && Words(s)
            && Hit(s.Entries(access), v, 1) == Some(l) && s.Entries(access)[Index(v)].vaddr == Base(v)
  {
    hide Reaches, WellPlaced, AllFresh, Hit, Filled, Index, Base, InWords;
    StartIsReset(c, rs);
    FillCoherent(Start(c, rs), access, v, l);
    FilledHits(Start(c, rs).Entries(access), v, l);
  }

  /** While the entry is there, a coherent state still leads v to where the entry points. */
  lemma EntryBinds(t: State, access: Access, v: nat, l: Location)
    requires Coherent(t) && Hit(t.Entries(access), v, 1) == Some(l)
    ensures Reaches(t.control, t.ranges, v, access) == Some(l)
  {
    hide AllFresh, Hit, Reaches, WellPlaced;
    HitIsFresh(t, access, v, 1);
  }

  // -----------------------------------------------------------------------------------------
  // Stores by devices
  // -----------------------------------------------------------------------------------------

  /** Exactly when a device's store can be trusted: for all registers and every map, it keeps every
      coherent state coherent if and only if every byte reached through a walk is reached as before. */
  lemma DeviceStoresExact(c: Control, rs: seq<Range>, p: nat, size: nat, val: nat)
    requires WellPlaced(rs) && AccessSize(size) && p % size == 0
    ensures (forall s: State :: s.control == c && s.ranges == rs ==> StaysCoherent(s, DeviceStore(p, size, val))) <==>
            !Outdates(c, rs, DeviceStore(p, size, val))
  {
    hide Coherent, Words, AfterDevice, WellPlaced, Reaches, SameReach;
    var ts, e := AfterDevice(rs, p, size, val), DeviceStore(p, size, val);
    if SameReach(c, rs, c, ts) {
      forall s: State | s.control == c && s.ranges == rs ensures StaysCoherent(s, e) { NotOutdated(s, e); }
    } else {
      var v, access := DeviceWitness(c, rs, ts);
      var l := Reaches(c, rs, v, access).value;
      var s := Planted(c, rs, access, v, l);
      PlantedCoherent(c, rs, access, v, l);
      CoherentIs(s);
      if Coherent(Next(s, e)) { EntryBinds(Next(s, e), access, v, l); }
    }
  }

  lemma NotOutdated(s: State, e: Event)
    requires !Outdates(s.control, s.ranges, e)
    ensures StaysCoherent(s, e)
  {
    hide Coherent, Words, Outdates, Next, Possible;
    if Coherent(s) && Words(s) && Possible(s, e) {
      CoherentIs(s);
      StepCoherent(s, e);
    }
  }

  lemma DeviceWitness(c: Control, rs: seq<Range>, ts: seq<Range>) returns (v: nat, access: Access)
    requires !SameReach(c, rs, c, ts)
    ensures v < WORD_LIMIT && Reaches(c, rs, v, access).Some? && Reaches(c, ts, v, access) != Reaches(c, rs, v, access)
  {
    hide Reaches;
    v, access :| v < WORD_LIMIT && Reaches(c, rs, v, access).Some? && Reaches(c, ts, v, access) != Reaches(c, rs, v, access);
  }

  // -----------------------------------------------------------------------------------------
  // Stores by the CPU
  // -----------------------------------------------------------------------------------------

  /** What else it does to the TLBs */
  lemma OtherEntries(s: State, access: Access, u: nat, v: nat, size: nat)
    requires s.Sized() && AccessSize(size) && v % size == 0 && !Evicts(v, access, u)
    requires s.Entries(access)[Index(u)].vaddr == Base(u)
    ensures var t := Accessed(s, WRITE, v, size).0;
            t.Sized() && t.control == s.control && t.Entries(access)[Index(u)] == s.Entries(access)[Index(u)]
  {
    hide Translate, AfterWalk, RamAt, Base, Index, SetDirty;
  }

  /** Exactly when a store can be trusted: for all registers and every map, it keeps every coherent
      state coherent if and only if it reaches no RAM, or every byte reached through a walk is
      reached as before, but for a page whose write entry the store replaces anyway. */
  lemma StoresExact(c: Control, rs: seq<Range>, v: nat, size: nat, val: nat)
    requires WellPlaced(rs) && v < WORD_LIMIT && AccessSize(size) && v % size == 0
    ensures (forall s: State :: s.control == c && s.ranges == rs ==> StaysCoherent(s, Store(v, size, val))) <==>
            !Outdates(c, rs, Store(v, size, val))
  {
    hide Coherent, Words, Next, WellPlaced, Reaches, KeepsReach, Possible, StaysCoherent;
    var e := Store(v, size, val);
    if Outdates(c, rs, e) {
      var u, access := StoreWitness(c, rs, v, Reaches(c, rs, v, WRITE).value, size, val);
      StoreBreaks(c, rs, v, size, val, u, access);
      var s := Planted(c, rs, access, u, Reaches(c, rs, u, access).value);
    } else {
      forall s: State | s.control == c && s.ranges == rs ensures StaysCoherent(s, e) { NotOutdated(s, e); }
    }
  }

  lemma StoreWitness(c: Control, rs: seq<Range>, v: nat, l: Location, size: nat, val: nat) returns (u: nat, access: Access)
    requires l.range < |rs| && !KeepsReach(c, rs, v, l, size, val)
    ensures u < WORD_LIMIT && Reaches(c, rs, u, access).Some? && !Evicts(v, access, u)
    ensures Reaches(c, StoreAt(rs, l, size, val), u, access) != Reaches(c, rs, u, access)
  {
    hide Reaches, Evicts, StoreAt;
    u, access :| u < WORD_LIMIT && Reaches(c, rs, u, access).Some? && !Evicts(v, access, u) &&
                 Reaches(c, StoreAt(rs, l, size, val), u, access) != Reaches(c, rs, u, access);
  }

  lemma StoreBreaks(c: Control, rs: seq<Range>, v: nat, size: nat, val: nat, u: nat, access: Access)
    requires WellPlaced(rs) && v < WORD_LIMIT && AccessSize(size) && v % size == 0 && Reaches(c, rs, v, WRITE).Some?
    requires u < WORD_LIMIT && Reaches(c, rs, u, access).Some? && !Evicts(v, access, u)
    requires Reaches(c, rs, v, WRITE).value.range < |rs|
    requires Reaches(c, StoreAt(rs, Reaches(c, rs, v, WRITE).value, size, val), u, access) != Reaches(c, rs, u, access)
    ensures var s := Planted(c, rs, access, u, Reaches(c, rs, u, access).value);
            s.control == c && s.ranges == rs && !StaysCoherent(s, Store(v, size, val))
  {
    hide Coherent, Words, Next, WellPlaced, Reaches, Accessed, StoreAt, Evicts, Stored, Hit, Planted;
    var m := Reaches(c, rs, u, access).value;
    var s := Planted(c, rs, access, u, m);
    PlantedCoherent(c, rs, access, u, m);
    CoherentIs(s);
    StoreStep(s, v, size, val);
    StoreReaches(s, v, size, val, u, access);
    OtherEntries(s, access, u, v, size);
    var t := Stored(s, v, size, val);
    SameHit(s.Entries(access), t.Entries(access), u);
    if Coherent(t) { EntryBinds(t, access, u, m); }
  }

  lemma SameHit(es: seq<Entry>, fs: seq<Entry>, u: nat)
    requires |es| == |fs| == TLB_SIZE && es[Index(u)] == fs[Index(u)]
    ensures Hit(es, u, 1) == Hit(fs, u, 1)
  {
  }
}
