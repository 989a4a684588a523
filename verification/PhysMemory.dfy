/** The physical memory map of iomem.c.  Host pointers into a RAM range are modelled as the
    range's number and an offset; RAM contents are 32-bit words. */
module PhysMemory {
  import opened Wrappers

  const PAGE := 4096
  const WORD_LIMIT := 0x1_0000_0000

  /** PhysMemoryRange.  `dirty` holds the numbers of the pages whose dirty bit is set, for ranges
      that keep dirty bits; a range whose mapping is disabled has size 0. */
  datatype Range = Range(addr: nat, size: nat, orgSize: nat, isRam: bool,
                         words: seq<nat>, tracked: bool, dirty: set<nat>)

  /** A byte of RAM. */
  datatype Location = Location(range: nat, offset: nat)

  predicate Contains(r: Range, p: nat) {
    r.addr <= p < r.addr + r.size
  }

  /** get_phys_mem_range: the first range containing an address, from number i on. */
  function FindRange(rs: seq<Range>, p: nat, i: nat): (r: Option<nat>)
    requires i <= |rs|
    ensures r.Some? ==> i <= r.value < |rs| && Contains(rs[r.value], p)
    decreases |rs| - i
  {
    if i == |rs| then None else if Contains(rs[i], p) then Some(i) else FindRange(rs, p, i + 1)
  }

  /** Where the byte at a physical address lives, if that is RAM. */
  function RamAt(rs: seq<Range>, p: nat): (l: Option<Location>)
    ensures l.Some? ==> l.value.range < |rs| && l.value.offset < rs[l.value.range].size && rs[l.value.range].isRam
  {
    var r := FindRange(rs, p, 0);
    if r.Some? && rs[r.value].isRam then Some(Location(r.value, p - rs[r.value].addr)) else None
  }

  predicate Overlap(r: Range, t: Range) {
    r.addr < t.addr + t.size && t.addr < r.addr + r.size
  }

  /** RAM covers whole pages, and no device shares an address with it. */
  predicate WellPlaced(rs: seq<Range>) {
    forall i :: 0 <= i < |rs| && rs[i].isRam ==> rs[i].addr % PAGE == 0 && rs[i].size % PAGE == 0 && ApartFromDevices(rs, i)
  }

  predicate ApartFromDevices(rs: seq<Range>, i: nat)
    requires i < |rs|
  {
    forall j :: 0 <= j < |rs| && !rs[j].isRam ==> !Overlap(rs[i], rs[j])
  }

  function WordIn(r: Range, offset: nat): nat {
    if offset / 4 < |r.words| then r.words[offset / 4] else 0
  }

  /** phys_read_u32: 0 outside RAM. */
  function ReadWord(rs: seq<Range>, p: nat): nat {
    match RamAt(rs, p)
    case None => 0
    case Some(l) => WordIn(rs[l.range], l.offset)
  }

  /** A write to the word holding the byte at l. */
  function PutWord(rs: seq<Range>, l: Location, w: nat): seq<Range>
    requires l.range < |rs|
  {
    var r := rs[l.range];
    if l.offset / 4 < |r.words| then rs[l.range := r.(words := r.words[l.offset / 4 := w])] else rs
  }

  /** phys_write_u32: ignored outside RAM. */
  function WriteWord(rs: seq<Range>, p: nat, w: nat): seq<Range> {
    match RamAt(rs, p)
    case None => rs
    case Some(l) => PutWord(rs, l, w)
  }

  // -----------------------------------------------------------------------------------------
  // Lookup depends only on the page and on the shape of the map
  // -----------------------------------------------------------------------------------------

  /** The same ranges in the same places, whatever their contents. */
  predicate SameMap(rs: seq<Range>, ts: seq<Range>) {
    |rs| == |ts| && forall i :: 0 <= i < |rs| ==>
      rs[i].addr == ts[i].addr && rs[i].size == ts[i].size && rs[i].isRam == ts[i].isRam
  }

  lemma {:induction false} SameMapFinds(rs: seq<Range>, ts: seq<Range>, p: nat, i: nat)
    requires SameMap(rs, ts) && i <= |rs|
    ensures FindRange(rs, p, i) == FindRange(ts, p, i)
    decreases |rs| - i
  {
    if i < |rs| { SameMapFinds(rs, ts, p, i + 1); }
  }

  lemma SameMapRam(rs: seq<Range>, ts: seq<Range>, p: nat)
    requires SameMap(rs, ts)
    ensures RamAt(rs, p) == RamAt(ts, p)
  {
    SameMapFinds(rs, ts, p, 0);
  }

  lemma PageContained(r: Range, p: nat, q: nat)
    requires r.addr % PAGE == 0 && r.size % PAGE == 0 && p / PAGE == q / PAGE
    ensures Contains(r, p) == Contains(r, q)
  {
  }

  lemma {:induction false} PageFinds(rs: seq<Range>, p: nat, q: nat, i: nat, k: nat)
    requires WellPlaced(rs) && i <= k < |rs| && rs[k].isRam && p / PAGE == q / PAGE && FindRange(rs, p, i) == Some(k)
    ensures FindRange(rs, q, i) == Some(k)
    decreases |rs| - i
  {
    PageContained(rs[k], p, q);
    if i < k {
      if rs[i].isRam { PageContained(rs[i], p, q); } else { assert !Overlap(rs[k], rs[i]); }
      PageFinds(rs, p, q, i + 1, k);
    }
  }

  /** Bytes of one page of addresses lie in one range, equally far apart. */
  lemma PageRam(rs: seq<Range>, p: nat, q: nat)
    requires WellPlaced(rs) && p / PAGE == q / PAGE && RamAt(rs, p).Some?
    ensures RamAt(rs, q).Some? && RamAt(rs, q).value.range == RamAt(rs, p).value.range
    ensures RamAt(rs, q).value.offset - RamAt(rs, p).value.offset == q - p
  {
    PageFinds(rs, p, q, 0, RamAt(rs, p).value.range);
  }
}
