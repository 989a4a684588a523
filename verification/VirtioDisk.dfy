/** Requests of the virtio block device from the descriptor chain to the disk and back
    (virtio_block_recv_request and virtio_block_req_end of virtio.c, over block_net.c): the header
    is read from the chain, sectors go to or come from the block device, and the answer is written
    to the chain. */
module VirtioDisk {
  import opened Arith
  import opened ByteStreams
  import opened Virtqueue
  import opened Wrappers
  import BlockDevice
  import VirtioBlock

  const SECTOR := 512
  const HEADER := 16
  const IN := 0
  const OUT := 1
  const OK: Byte := 0

  /** BlockRequestHeader, without its priority */
  datatype Header = Header(kind: nat, sector: nat)

  /** What becomes of a chain: the queue goes on behind it or has to wait, or an assertion fails, a
      byte before a buffer is written, or sectors are asked for that the disk does not have. */
  datatype Outcome = Served | Busy | AssertionFails | BeforeBuffer | PastDisk

  /** A little-endian number */
  function Le(b: seq<Byte>): nat {
    if b == [] then 0 else b[0] as nat + 256 * Le(b[1..])
  }

  function HeaderOf(b: seq<Byte>): Header
    requires |b| == HEADER
  {
    Header(Le(b[..4]), Le(b[8..]))
  }

  /** A number as n little-endian bytes */
  function LeBytes(v: nat, n: nat): (b: seq<Byte>)
    ensures |b| == n
  {
    if n == 0 then [] else [LowByte(v)] + LeBytes(v / 256, n - 1)
  }

  lemma {:induction false} LeRead(v: nat, n: nat)
    requires v < Pow2(8 * n)
    ensures Le(LeBytes(v, n)) == v
  {
    hide LowByte;
    if n > 0 {
      ByteMore(n);
      LowByteIs(v);
      LeRead(v / 256, n - 1);
      assert LeBytes(v, n)[1..] == LeBytes(v / 256, n - 1);
    }
  }

  lemma ByteMore(n: nat)
    requires n > 0
    ensures Pow2(8 * n) == 256 * Pow2(8 * (n - 1))
  {
    Pow2Add(8, 8 * (n - 1));
    EightBits();
  }

  lemma WordSizes()
    ensures Pow2(32) == 0x1_0000_0000 && Pow2(64) == 0x1_0000_0000_0000_0000
  {
    hide *;
    EightBits();
    Pow2Add(8, 8);
    Pow2Add(16, 16);
    Pow2Add(32, 32);
  }

  lemma EightBits()
    ensures Pow2(8) == 256
  {
  }

  /** The header that a driver writes: type, priority and first sector */
  function HeaderBytes(kind: nat, priority: nat, sector: nat): (b: seq<Byte>)
    ensures |b| == HEADER
  {
    LeBytes(kind, 4) + LeBytes(priority, 4) + LeBytes(sector, 8)
  }

  /** Type and sector are read back, whatever the priority. */
  lemma HeaderRead(kind: nat, priority: nat, sector: nat)
    requires kind < 0x1_0000_0000 && priority < 0x1_0000_0000 && sector < 0x1_0000_0000_0000_0000
    ensures HeaderOf(HeaderBytes(kind, priority, sector)) == Header(kind, sector)
  {
    hide Le, LeBytes;
    var b := HeaderBytes(kind, priority, sector);
    WordSizes();
    LeRead(kind, 4);
    LeRead(sector, 8);
    assert b[..4] == LeBytes(kind, 4) && b[8..] == LeBytes(sector, 8);
  }

  /** A buffer cut into sectors; what is left at its end is no sector. */
  function Sectors(b: seq<Byte>): (s: seq<BlockDevice.Sector>)
    ensures |s| == |b| / SECTOR && Whole(s)
  {
    seq(|b| / SECTOR, i requires 0 <= i < |b| / SECTOR => b[i * SECTOR..i * SECTOR + SECTOR])
  }

  predicate Whole(s: seq<BlockDevice.Sector>) { forall k :: 0 <= k < |s| ==> |s[k]| == SECTOR }

  lemma {:induction false} ConcatLength(s: seq<BlockDevice.Sector>)
    requires Whole(s)
    ensures |Concat(s)| == |s| * SECTOR
  {
    if s != [] { ConcatLength(s[1..]); }
  }

  /** Sectors put one after the other are the sectors of that buffer, whatever follows them. */
  lemma {:induction false} SectorsOfConcat(s: seq<BlockDevice.Sector>, rest: seq<Byte>)
    requires Whole(s) && |rest| < SECTOR
    ensures Sectors(Concat(s) + rest) == s
  {
    hide Concat;
    var b := Concat(s) + rest;
    ConcatLength(s);
    DivUnique(|b|, SECTOR, |s|, |rest|);
    forall i | 0 <= i < |s| ensures Sectors(b)[i] == s[i] { SectorOf(s, rest, i); }
  }

  lemma SectorOf(s: seq<BlockDevice.Sector>, rest: seq<Byte>, i: nat)
    requires Whole(s) && i < |s|
    ensures (i + 1) * SECTOR <= |Concat(s)| && (Concat(s) + rest)[i * SECTOR..i * SECTOR + SECTOR] == s[i]
  {
    hide Concat;
    ConcatPrefix(s, i + 1);
    ConcatSnoc(s, i);
    ConcatLength(s[..i]);
    ConcatLength(s[..i + 1]);
    var a, c := Concat(s[..i]), Concat(s[i + 1..]);
    assert Concat(s) + rest == a + s[i] + (c + rest);
  }

  // -----------------------------------------------------------------------------------------
  // Answers in guest memory
  // -----------------------------------------------------------------------------------------

  predicate NoRepeats(x: seq<nat>) { forall j, k :: 0 <= j < k < |x| ==> x[j] != x[k] }

  /** The bytes at the addresses, and nothing else in memory, have been written. */
  ghost predicate Written(ram0: Ram, ram: Ram, addrs: seq<nat>, bytes: seq<Byte>)
    requires Paged(ram0)
  {
    && Paged(ram) && OnlyAt(ram0, ram, addrs) && AllIn(ram, addrs) && Load(ram, addrs) == bytes
  }

  /** The answer to a read: the sectors read, and at the end the status. */
  ghost predicate HoldsSectors(ram: Ram, addrs: seq<nat>, sectors: seq<BlockDevice.Sector>)
    requires Paged(ram)
  {
    && addrs != [] && AllIn(ram, addrs)
    && var b := Load(ram, addrs); Sectors(b[..|b| - 1]) == sectors && b[|b| - 1] == OK
  }

  lemma StoredIsWritten(ram: Ram, addrs: seq<nat>, bytes: seq<Byte>)
    requires Paged(ram) && |addrs| == |bytes| && AllIn(ram, addrs) && NoRepeats(addrs)
    ensures Written(ram, Store(ram, addrs, bytes), addrs, bytes)
  {
    hide Store, Poke, InRam, ByteAt;
    var r := Store(ram, addrs, bytes);
    StoreOnlyAt(ram, addrs, bytes);
    SameKeys(ram, r, addrs);
    forall i: nat | i < |addrs| ensures Load(r, addrs)[i] == bytes[i] {
      StoreThenLoad(ram, addrs, bytes, i);
    }
  }

  lemma SectorsHeld(ram0: Ram, ram: Ram, addrs: seq<nat>, sectors: seq<BlockDevice.Sector>, rest: seq<Byte>)
    requires Paged(ram0) && Whole(sectors) && |rest| < SECTOR
    requires Written(ram0, ram, addrs, Concat(sectors) + rest + [OK])
    ensures HoldsSectors(ram, addrs, sectors)
  {
    hide Sectors, OnlyAt, AllIn;
    SectorsOfConcat(sectors, rest);
    var b := Load(ram, addrs);
    assert b[..|b| - 1] == Concat(sectors) + rest;
  }

  // -----------------------------------------------------------------------------------------
  // The buffer of a write
  // -----------------------------------------------------------------------------------------

  /** The first k sectors of a buffer, and then what it holds when it has been freed. */
  function Given(data: seq<Byte>, freed: seq<Byte>, k: nat): (s: seq<BlockDevice.Sector>)
    requires |freed| == |data| && k <= |data| / SECTOR
    ensures |s| == |data| / SECTOR
  {
    Sectors(data)[..k] + Sectors(freed)[k..]
  }

  lemma GivenAll(data: seq<Byte>, freed: seq<Byte>)
    requires |freed| == |data|
    ensures Given(data, freed, |data| / SECTOR) == Sectors(data)
  {
  }

  /** Other data, which differ in one sector */
  lemma OtherData(data: seq<Byte>, k: nat) returns (freed: seq<Byte>)
    requires k < |data| / SECTOR
    ensures |freed| == |data| && Given(data, freed, k)[k] != Sectors(data)[k]
  {
    var at := k * SECTOR;
    freed := data[at := data[at] ^ 1];
    assert Sectors(freed)[k][0] == freed[at] && Sectors(data)[k][0] == data[at];
  }

  lemma PlaceReplaced(f: seq<BlockDevice.Sector>, at: nat, data: seq<BlockDevice.Sector>, k: nat)
    requires at + |data| <= |f| && k < |data|
    ensures BlockDevice.Replaced(f, at, data)[at + k] == data[k]
  {
  }

  /** When the data of a write can be relied on to reach the disk: whatever the freed buffer comes
      to hold, the disk gets them, if and only if every sector of the request is at hand before
      the call, its cluster written or its block loaded. */
  lemma WriteExact(clusters: BlockDevice.Clusters, cache: seq<BlockDevice.CachedBlock>, blockSize: nat,
                   disk: seq<BlockDevice.Sector>, sector: nat, data: seq<Byte>)
    requires blockSize > 0 && sector + |data| / SECTOR <= |disk|
    ensures var n := |data| / SECTOR;
            var k := BlockDevice.AtHandFrom(clusters, cache, blockSize, sector, n);
            (forall freed: seq<Byte> :: |freed| == |data| ==>
               BlockDevice.Replaced(disk, sector, Given(data, freed, k)) == BlockDevice.Replaced(disk, sector, Sectors(data)))
            <==>
            (forall s: nat :: sector <= s < sector + n ==> BlockDevice.AtHand(clusters, cache, s, blockSize))
  {
    hide Sectors, BlockDevice.AtHand, BlockDevice.AtHandFrom, BlockDevice.Replaced, Given;
    var n := |data| / SECTOR;
    var k := BlockDevice.AtHandFrom(clusters, cache, blockSize, sector, n);
    BlockDevice.SomeNotAtHand(clusters, cache, blockSize, sector, n);
    if k == n {
      forall freed: seq<Byte> | |freed| == |data| ensures Given(data, freed, k) == Sectors(data) { GivenAll(data, freed); }
    } else {
      var freed := OtherData(data, k);
      PlaceReplaced(disk, sector, Given(data, freed, k), k);
      PlaceReplaced(disk, sector, Sectors(data), k);
    }
  }

  lemma PartIn(ram: Ram, bytes: seq<nat>, offset: nat, n: nat)
    requires AllIn(ram, bytes)
    ensures AllIn(ram, Part(bytes, offset, n))
  {
  }

  /** What a chain of guest memory asks for: nothing if it is out of order, too short for a header,
      or of another type than IN and OUT. */
  ghost function AskedIn(table: seq<Desc>, ram: Ram, path: seq<nat>): (h: Option<Header>)
    requires Paged(ram) && IsChain(table, path) && AllIn(ram, Bytes(Descs(table, path), false))
    ensures h.Some? ==> |Bytes(Descs(table, path), false)| >= HEADER && (h.value.kind == IN || h.value.kind == OUT)
  {
    var addrs := Bytes(Descs(table, path), false);
    if !Ordered(Descs(table, path)) || |addrs| < HEADER then None
    else
      var h := HeaderOf(Load(ram, addrs[..HEADER]));
      if h.kind == IN || h.kind == OUT then Some(h) else None
  }

  /** How many sectors a request is for. */
  ghost function CountIn(table: seq<Desc>, path: seq<nat>, h: Header): int
    requires IsChain(table, path)
  {
    if h.kind == IN then (|Bytes(Descs(table, path), true)| - 1) / SECTOR
    else (|Bytes(Descs(table, path), false)| - HEADER) / SECTOR
  }

  /** What becomes of a chain when no request is in progress: a request needs room for its status,
      and its sectors on the disk. */
  ghost function DueIn(table: seq<Desc>, sectors: nat, ram: Ram, path: seq<nat>): Outcome
    requires Paged(ram) && IsChain(table, path) && AllIn(ram, Bytes(Descs(table, path), false))
  {
    match AskedIn(table, ram, path)
    case None => Served
    case Some(h) =>
      if Bytes(Descs(table, path), true) == [] then if h.kind == IN then BeforeBuffer else AssertionFails
      else if h.sector + CountIn(table, path, h) > sectors then PastDisk
      else Served
  }

  // -----------------------------------------------------------------------------------------
  // The device
  // -----------------------------------------------------------------------------------------

  class VirtioBlockDevice {
    const bs: BlockDevice.Device
    const table: seq<Desc>

    // in guest memory; the index arithmetic of the used ring is that of VirtioBlock
    var ram: Ram
    var used: seq<VirtioBlock.Used>

    // the request in progress
    var reqInProgress: bool
    var reqType: nat
    var reqBuf: seq<Byte>
    var reqWriteSize: nat
    var reqDesc: nat
    ghost var reqPath: seq<nat>

    ghost function Readable(path: seq<nat>): seq<nat>
      requires IsChain(table, path)
    {
      Bytes(Descs(table, path), false)
    }

    ghost function Writable(path: seq<nat>): seq<nat>
      requires IsChain(table, path)
    {
      Bytes(Descs(table, path), true)
    }

    /** An answer is owed to the chain of the current request. */
    ghost predicate Owed()
      reads this, bs
    {
      && IsChain(table, reqPath) && reqPath != [] && reqPath[0] == reqDesc
      && AllIn(ram, Writable(reqPath)) && NoRepeats(Writable(reqPath))
      && |Writable(reqPath)| >= 1
      && if bs.isWrite then reqType == OUT
         else reqType == IN && |Writable(reqPath)| == reqWriteSize == |reqBuf| && bs.sectorCount == (reqWriteSize - 1) / SECTOR
    }

    ghost predicate WholeSectors()
      reads bs
    {
      Whole(bs.image) && Whole(bs.before) && (bs.isWrite ==> Whole(bs.ioBuf))
    }

    ghost predicate Valid()
      reads this, bs
    {
      bs.Valid() && Paged(ram) && WholeSectors() && reqInProgress == bs.waiting && (reqInProgress ==> Owed())
    }

    ghost function Asked(path: seq<nat>): (h: Option<Header>)
      reads this
      requires Paged(ram) && IsChain(table, path) && AllIn(ram, Readable(path))
      ensures h.Some? ==> |Readable(path)| >= HEADER && (h.value.kind == IN || h.value.kind == OUT)
    {
      AskedIn(table, ram, path)
    }

    /** How many sectors a request is for. */
    ghost function Count(path: seq<nat>, h: Header): int
      requires IsChain(table, path)
    {
      CountIn(table, path, h)
    }

    /** What the driver has to see to: buffers are distinct bytes of RAM. */
    ghost predicate Acceptable(path: seq<nat>)
      reads this
    {
      && Paged(ram) && IsChain(table, path) && path != []
      && AllIn(ram, Readable(path)) && AllIn(ram, Writable(path)) && NoRepeats(Writable(path))
    }

    ghost function Due(path: seq<nat>): Outcome
      reads this
      requires Paged(ram) && IsChain(table, path) && AllIn(ram, Readable(path))
    {
      DueIn(table, |bs.image|, ram, path)
    }

    constructor (dev: BlockDevice.Device, descs: seq<Desc>, memory: Ram)
      requires dev.Valid() && !dev.waiting && Whole(dev.image) && Whole(dev.before) && Paged(memory)
      requires dev.isWrite ==> Whole(dev.ioBuf)
      ensures Valid() && bs == dev && table == descs && ram == memory && used == [] && !reqInProgress
    {
      bs, table, ram, used := dev, descs, memory, [];
      reqInProgress, reqType, reqBuf, reqWriteSize, reqDesc := false, 0, [], 0, 0;
    }

    /** memcpy_from_queue on buffers in RAM */
    method ReadChain(first: nat, ghost path: seq<nat>, offset: nat, n: nat) returns (ok: bool, data: seq<Byte>)
      requires Paged(ram) && IsChain(table, path) && path != [] && first == path[0] && AllIn(ram, Readable(path))
      ensures ok <==> n == 0 || offset + n <= |Readable(path)|
      ensures ok && n > 0 ==> AllIn(ram, Readable(path)[offset..offset + n]) && data == Load(ram, Readable(path)[offset..offset + n])
      ensures |data| == n
    {
      hide IsChain, Bytes, Descs, AllIn, InRam, Load, OnlyAt, Store;
      var ram';
      PartIn(ram, Readable(path), offset, n);
      ok, ram', data := MemcpyQueue(table, first, path, ram, seq(n, _ => 0), offset, false);
    }

    /** memcpy_to_queue on distinct bytes in RAM */
    method WriteChain(first: nat, ghost path: seq<nat>, bytes: seq<Byte>)
      requires Paged(ram) && IsChain(table, path) && path != [] && first == path[0]
      requires AllIn(ram, Writable(path)) && NoRepeats(Writable(path)) && |bytes| <= |Writable(path)|
      modifies this`ram
      ensures Written(old(ram), ram, Writable(path)[..|bytes|], bytes) && ram.Keys == old(ram).Keys
    {
      hide IsChain, Bytes, Descs, AllIn, InRam, Load, OnlyAt, Store;
      ghost var addrs, part := Writable(path), Part(Writable(path), 0, |bytes|);
      assert part == addrs[..|bytes|];
      PartIn(ram, addrs, 0, |bytes|);
      StoredIsWritten(ram, part, bytes);
      var ok, ram', data := MemcpyQueue(table, first, path, ram, bytes, 0, true);
      assert bytes[..|part|] == bytes;
      ram := ram';
    }

    /** Sectors that a completed read delivers are whole. */
    lemma ReadWhole()
      requires bs.Valid() && !bs.waiting && !bs.isWrite && WholeSectors()
      ensures Whole(bs.ioBuf) && |bs.ioBuf| == bs.sectorCount
    {
      hide BlockDevice.CacheOk, BlockDevice.Done, BlockDevice.Clear, BlockDevice.Shadowed, BlockDevice.WellFormed;
      bs.Completed();
      forall k | 0 <= k < bs.sectorCount ensures |bs.ioBuf[k]| == SECTOR {
        assert bs.ioBuf[k] == BlockDevice.Seen(bs.clusters, bs.image, bs.blockSize, bs.start, bs.start + k);
        assert bs.Disk()[bs.start + k] == bs.before[bs.start + k];
      }
    }

    /** virtio_block_req_end, once the block device is done */
    method EndRequest()
      requires bs.Valid() && !bs.waiting && WholeSectors() && Paged(ram) && Owed()
      modifies this`ram, this`used
      ensures Paged(ram) && ram.Keys == old(ram).Keys
      ensures used == old(used) + VirtioBlock.Answer(VirtioBlock.Request(reqDesc,
                if bs.isWrite then VirtioBlock.Out else VirtioBlock.In(reqWriteSize)))
      ensures bs.isWrite ==> Written(old(ram), ram, Writable(reqPath)[..1], [OK])
      ensures !bs.isWrite ==> OnlyAt(old(ram), ram, Writable(reqPath)) && HoldsSectors(ram, Writable(reqPath), bs.ioBuf)
    {
      hide IsChain, Bytes, Descs, AllIn, InRam, Load, Sectors, HoldsSectors, OnlyAt, BlockDevice.CacheOk, BlockDevice.Done;
      if reqType == IN {
        ReadWhole();
        ConcatLength(bs.ioBuf);
        var n := |bs.ioBuf| * SECTOR;
        var buf := Concat(bs.ioBuf) + reqBuf[n..reqWriteSize - 1] + [OK];
        ghost var ram0 := ram;
        WriteChain(reqDesc, reqPath, buf);
        assert Writable(reqPath)[..|buf|] == Writable(reqPath);
        SectorsHeld(ram0, ram, Writable(reqPath), bs.ioBuf, reqBuf[n..reqWriteSize - 1]);
        used := used + [VirtioBlock.Used(reqDesc, reqWriteSize)];
      } else {
        WriteChain(reqDesc, reqPath, [OK]);
        used := used + [VirtioBlock.Used(reqDesc, 1)];
      }
    }

    /** The disk has whole sectors between requests. */
    lemma DiskWhole()
      requires bs.Valid() && !bs.waiting && WholeSectors()
      ensures BlockDevice.WellFormed(bs.clusters, bs.image) && Whole(bs.Disk())
    {
      hide BlockDevice.CacheOk, BlockDevice.Done, BlockDevice.Clear, BlockDevice.Seen;
      bs.Completed();
    }

    /** The current request is done: a write has put its buffer on the disk, a read has put the
        sectors it read into the chain, and the request is in the used ring. */
    ghost predicate Finished(ram0: Ram, used0: seq<VirtioBlock.Used>)
      reads this, bs
      requires Paged(ram0)
    {
      && bs.Valid() && !bs.waiting && Paged(ram) && IsChain(table, reqPath) && bs.start + bs.sectorCount <= |bs.before|
      && if bs.isWrite then
           && |bs.ioBuf| == bs.sectorCount && bs.Disk() == BlockDevice.Replaced(bs.before, bs.start, bs.ioBuf)
           && |Writable(reqPath)| >= 1 && Written(ram0, ram, Writable(reqPath)[..1], [OK])
           && used == used0 + [VirtioBlock.Used(reqDesc, 1)]
         else
           && bs.Disk() == bs.before && HoldsSectors(ram, Writable(reqPath), bs.ioBuf)
           && (BlockDevice.Narrow(bs.blockSize, false, bs.start, bs.sectorCount) ==>
                 HoldsSectors(ram, Writable(reqPath), bs.before[bs.start..bs.start + bs.sectorCount]))
           && OnlyAt(ram0, ram, Writable(reqPath))
           && used == used0 + [VirtioBlock.Used(reqDesc, |Writable(reqPath)|)]
    }

    /** The current request is answered once the block device is done with it. */
    method Finish()
      requires bs.Valid() && !bs.waiting && WholeSectors() && Paged(ram) && Owed()
      modifies this`ram, this`used, this`reqInProgress
      ensures Valid() && !reqInProgress && Finished(old(ram), old(used))
    {
      hide IsChain, Bytes, Descs, AllIn, InRam, Load, Sectors, HoldsSectors, OnlyAt, Written, BlockDevice.CacheOk, BlockDevice.Done,
           BlockDevice.Clear, BlockDevice.Seen;
      EndRequest();
      reqInProgress := false;
      bs.Completed();
      if !bs.isWrite && BlockDevice.Narrow(bs.blockSize, false, bs.start, bs.sectorCount) { bs.ReadsFlat(); }
    }

    /** The data of a write, which follow the header */
    method ReadData(first: nat, ghost path: seq<nat>, readSize: nat) returns (data: seq<Byte>)
      requires Paged(ram) && IsChain(table, path) && path != [] && first == path[0] && AllIn(ram, Readable(path))
      requires readSize == |Readable(path)| >= HEADER
      ensures AllIn(ram, Readable(path)[HEADER..]) && data == Load(ram, Readable(path)[HEADER..])
    {
      hide IsChain, Bytes, Descs, InRam;
      var got;
      got, data := ReadChain(first, path, HEADER, readSize - HEADER);
      assert Readable(path)[HEADER..HEADER + (readSize - HEADER)] == Readable(path)[HEADER..];
    }

    /** A read goes to the block device, into the buffer that the answer will be sent from. */
    method StartRead(sector: nat, malloc: seq<Byte>)
      requires Valid() && !reqInProgress && reqType == IN && IsChain(table, reqPath) && reqPath != [] && reqPath[0] == reqDesc
      requires AllIn(ram, Writable(reqPath)) && NoRepeats(Writable(reqPath)) && |malloc| == |Writable(reqPath)| >= 1
      requires sector + (|malloc| - 1) / SECTOR <= |bs.image|
      modifies this`ram, this`used, this`reqInProgress, this`reqBuf, this`reqWriteSize, bs
      ensures Valid() && Submitted(false, sector, (|malloc| - 1) / SECTOR, old(bs.Disk()))
      ensures if reqInProgress then ram == old(ram) && used == old(used) else Finished(old(ram), old(used))
      ensures !reqInProgress ==> BlockDevice.SameAtHand(old(bs.clusters), old(bs.cache), bs.clusters, bs.cache, bs.blockSize)
      ensures reqInProgress <==>
              BlockDevice.AtHandFrom(old(bs.clusters), old(bs.cache), bs.blockSize, bs.start, bs.sectorCount) < bs.sectorCount
    {
      hide IsChain, Bytes, Descs, AllIn, InRam, Finished, BlockDevice.CacheOk, BlockDevice.Done, BlockDevice.Clear,
           BlockDevice.Seen, BlockDevice.GrownWithin, BlockDevice.SameAtHand, BlockDevice.AtHand, BlockDevice.AtHandFrom, NoRepeats, Whole;
      reqBuf, reqWriteSize := malloc, |malloc|;
      DiskWhole();
      var pending := bs.Submit(false, sector, Sectors(malloc[..reqWriteSize - 1]));
      if pending { reqInProgress := true; } else { Finish(); }
    }

    /** A write goes to the block device from a buffer that is freed at once, whatever `freed` is
        what its memory holds afterwards. */
    method StartWrite(sector: nat, data: seq<Byte>, freed: seq<Byte>)
      requires Valid() && !reqInProgress && reqType == OUT && IsChain(table, reqPath) && reqPath != [] && reqPath[0] == reqDesc
      requires AllIn(ram, Writable(reqPath)) && NoRepeats(Writable(reqPath)) && |Writable(reqPath)| >= 1
      requires sector + |data| / SECTOR <= |bs.image| && |freed| == |data|
      modifies this`ram, this`used, this`reqInProgress, bs
      ensures Valid() && Submitted(true, sector, |data| / SECTOR, old(bs.Disk()))
      ensures bs.ioBuf == Given(data, freed, BlockDevice.AtHandFrom(old(bs.clusters), old(bs.cache), bs.blockSize, sector, |data| / SECTOR))
      ensures if reqInProgress then ram == old(ram) && used == old(used) else Finished(old(ram), old(used))
      ensures !reqInProgress ==> BlockDevice.SameAtHand(old(bs.clusters), old(bs.cache), bs.clusters, bs.cache, bs.blockSize)
      ensures reqInProgress <==>
              BlockDevice.AtHandFrom(old(bs.clusters), old(bs.cache), bs.blockSize, bs.start, bs.sectorCount) < bs.sectorCount
    {
      hide IsChain, Bytes, Descs, AllIn, InRam, Finished, BlockDevice.CacheOk, BlockDevice.Done, BlockDevice.Clear,
           BlockDevice.Seen, BlockDevice.GrownWithin, BlockDevice.SameAtHand, BlockDevice.AtHand, BlockDevice.AtHandFrom, NoRepeats;
      GivenAll(data, freed);
      DiskWhole();
      var pending := bs.Submit(true, sector, Sectors(data));
      if pending {
        bs.Reuse(Sectors(freed)[bs.sectorIndex..]);
        reqInProgress := true;
      } else {
        Finish();
      }
    }

    /** The request that the block device was given last, and the disk it was given it on */
    ghost predicate Submitted(isWrite: bool, sector: nat, count: nat, disk: seq<BlockDevice.Sector>)
      reads bs
    {
      bs.isWrite == isWrite && bs.start == sector && bs.sectorCount == count && bs.before == disk
    }

    /** What a chain in order asks for is in its header. */
    lemma ByHeader(path: seq<nat>)
      requires Paged(ram) && IsChain(table, path) && AllIn(ram, Readable(path)) && Ordered(Descs(table, path))
      ensures |Readable(path)| < HEADER ==> Asked(path).None? && Due(path) == Served
      ensures |Readable(path)| >= HEADER ==>
                AllIn(ram, Readable(path)[..HEADER]) &&
                var h := HeaderOf(Load(ram, Readable(path)[..HEADER]));
                if h.kind != IN && h.kind != OUT then Asked(path).None? && Due(path) == Served
                else
                  && Asked(path) == Some(h)
                  && Due(path) == if |Writable(path)| == 0 then if h.kind == IN then BeforeBuffer else AssertionFails
                                  else if h.sector + Count(path, h) > |bs.image| then PastDisk else Served
    {
      hide IsChain, Bytes, Descs, InRam, Load, HeaderOf, Ordered;
    }

    /** virtio_block_recv_request, for a chain whose two sizes are known.  `malloc` is what a fresh
        buffer holds, `freed` what the buffer of a write holds once it has been freed. */
    method Receive(first: nat, ghost path: seq<nat>, readSize: nat, writeSize: nat, malloc: seq<Byte>, freed: seq<Byte>)
      returns (r: Outcome)
      requires Valid() && Acceptable(path) && path != [] && first == path[0] && Ordered(Descs(table, path))
      requires readSize == |Readable(path)| && writeSize == |Writable(path)| == |malloc|
      requires readSize >= HEADER ==> |freed| == readSize - HEADER
      modifies this, bs
      ensures Valid() && r == if old(reqInProgress) then Busy else old(Due(path))
      ensures r != Served || old(Asked(path)).None? ==> unchanged(bs) && unchanged(`ram, `used, `reqInProgress)
      ensures old(reqInProgress) ==> unchanged(this)
      ensures r == Served && old(Asked(path)).Some? ==> Begun(path, old(Asked(path)).value, old(bs.Disk()))
      ensures r == Served && old(Asked(path)).Some? && old(Asked(path)).value.kind == OUT ==>
                Buffered(old(ram), path, freed, old(bs.clusters), old(bs.cache))
      ensures r == Served && old(Asked(path)).Some? ==>
                if reqInProgress then ram == old(ram) && used == old(used) else Finished(old(ram), old(used))
      ensures r == Served && old(Asked(path)).Some? && !reqInProgress ==>
                BlockDevice.SameAtHand(old(bs.clusters), old(bs.cache), bs.clusters, bs.cache, bs.blockSize)
      ensures r == Served && old(Asked(path)).Some? ==> (reqInProgress <==>
                BlockDevice.AtHandFrom(old(bs.clusters), old(bs.cache), bs.blockSize, bs.start, bs.sectorCount) < bs.sectorCount)
    {
      hide Asked, Due, AskedIn, DueIn, IsChain, Bytes, Descs, InRam, AllIn, Load, Finished, HeaderOf, BlockDevice.CacheOk, BlockDevice.Done, BlockDevice.Clear,
           BlockDevice.Seen, BlockDevice.GrownWithin, BlockDevice.SameAtHand, BlockDevice.AtHand, BlockDevice.AtHandFrom, NoRepeats, Whole, Sectors;
      ByHeader(path);
      if reqInProgress { return Busy; }
      var got, head := ReadChain(first, path, 0, HEADER);
      if !got { return Served; }
      var h := HeaderOf(head);
      reqType, reqDesc, reqPath := h.kind, first, path;
      if h.kind == IN {
        if writeSize == 0 { return BeforeBuffer; }
        if h.sector + (writeSize - 1) / SECTOR > |bs.image| { return PastDisk; }
        StartRead(h.sector, malloc);
      } else if h.kind == OUT {
        if writeSize == 0 { return AssertionFails; }
        var data := ReadData(first, path, readSize);
        if h.sector + |data| / SECTOR > |bs.image| { return PastDisk; }
        StartWrite(h.sector, data, freed);
      }
      r := Served;
    }

    /** The block device has been given the request of a chain. */
    ghost predicate Begun(path: seq<nat>, h: Header, disk: seq<BlockDevice.Sector>)
      reads this, bs
    {
      && IsChain(table, path) && path != [] && reqPath == path && reqDesc == path[0] && Count(path, h) >= 0
      && Submitted(h.kind == OUT, h.sector, Count(path, h), disk)
    }

    /** What the block device is given of the data of a write: the sectors at hand before the call
        from the buffer, the others from what the freed buffer holds. */
    ghost predicate Buffered(ram0: Ram, path: seq<nat>, freed: seq<Byte>, clusters: BlockDevice.Clusters,
                             cache: seq<BlockDevice.CachedBlock>)
      reads bs
      requires Paged(ram0) && IsChain(table, path)
    {
      && |Readable(path)| >= HEADER && |freed| == |Readable(path)| - HEADER && AllIn(ram0, Readable(path)[HEADER..])
      && bs.blockSize > 0
      && bs.ioBuf == Given(Load(ram0, Readable(path)[HEADER..]), freed,
                           BlockDevice.AtHandFrom(clusters, cache, bs.blockSize, bs.start, |freed| / SECTOR))
    }

    /** One chain of queue_notify: its sizes, and the request if it is in order. */
    method Take(first: nat, ghost path: seq<nat>, malloc: seq<Byte>, freed: seq<Byte>) returns (r: Outcome)
      requires Valid() && Acceptable(path) && path != [] && first == path[0] && |malloc| == |Writable(path)|
      requires |Readable(path)| >= HEADER ==> |freed| == |Readable(path)| - HEADER
      modifies this, bs
      ensures Valid() && r == if old(reqInProgress) && Ordered(Descs(table, path)) then Busy else old(Due(path))
      ensures r != Served || old(Asked(path)).None? ==> unchanged(bs) && unchanged(`ram, `used, `reqInProgress)
      ensures old(reqInProgress) ==> unchanged(this)
      ensures r == Served && old(Asked(path)).Some? ==> Begun(path, old(Asked(path)).value, old(bs.Disk()))
      ensures r == Served && old(Asked(path)).Some? && old(Asked(path)).value.kind == OUT ==>
                Buffered(old(ram), path, freed, old(bs.clusters), old(bs.cache))
      ensures r == Served && old(Asked(path)).Some? ==>
                if reqInProgress then ram == old(ram) && used == old(used) else Finished(old(ram), old(used))
      ensures r == Served && old(Asked(path)).Some? && !reqInProgress ==>
                BlockDevice.SameAtHand(old(bs.clusters), old(bs.cache), bs.clusters, bs.cache, bs.blockSize)
      ensures r == Served && old(Asked(path)).Some? ==> (reqInProgress <==>
                BlockDevice.AtHandFrom(old(bs.clusters), old(bs.cache), bs.blockSize, bs.start, bs.sectorCount) < bs.sectorCount)
    {
      hide IsChain, Bytes, Descs, InRam, AllIn, Load, Finished, Buffered, Begun, HeaderOf, BlockDevice.CacheOk, BlockDevice.Done,
           BlockDevice.Clear, BlockDevice.Seen, NoRepeats, Whole, Ordered, BlockDevice.AtHand, BlockDevice.AtHandFrom, BlockDevice.SameAtHand;
      var sizes := GetDescRwSize(table, first, path);
      if sizes.None? { return Served; }
      r := Receive(first, path, sizes.value.0, sizes.value.1, malloc, freed);
    }

    /** The block device has loaded a block (virtio_block_req_cb, when a request waited for it). */
    method Loaded(num: nat, i: nat)
      requires Valid() && i < |bs.cache| && bs.cache[i].num == num && !bs.cache[i].loaded
      modifies this`ram, this`used, this`reqInProgress, bs
      ensures Valid() && bs.before == old(bs.before) && bs.start == old(bs.start) && bs.sectorCount == old(bs.sectorCount)
      ensures bs.isWrite == old(bs.isWrite) && (bs.isWrite ==> bs.ioBuf == old(bs.ioBuf))
      ensures reqInProgress ==> old(reqInProgress)
      ensures old(reqInProgress) && !reqInProgress ==> Finished(old(ram), old(used))
      ensures old(reqInProgress) == reqInProgress ==> ram == old(ram) && used == old(used)
      ensures !old(reqInProgress) ==> bs.Disk() == old(bs.Disk())
      ensures !old(reqInProgress) ==>
                bs.clusters == old(bs.clusters) && bs.cache == BlockDevice.AfterLoad(old(bs.cache), i, bs.image, bs.blockSize)
      ensures bs.curBlockNum == num ==> !reqInProgress
      ensures reqDesc == old(reqDesc) && reqPath == old(reqPath)
    {
      hide IsChain, Bytes, Descs, AllIn, InRam, Load, Sectors, HoldsSectors, OnlyAt, Finished, BlockDevice.CacheOk, BlockDevice.Done,
           BlockDevice.Clear, BlockDevice.Seen, BlockDevice.GrownWithin;
      var done := bs.completions;
      bs.Loaded(num, i);
      if bs.completions > done { Finish(); }
    }

    /** The guest goes on and changes its memory. */
    method GuestStores(memory: Ram)
      requires Valid() && Paged(memory) && memory.Keys == ram.Keys
      modifies this`ram
      ensures Valid() && ram == memory
    {
      hide BlockDevice.CacheOk, BlockDevice.Done;
      ram := memory;
    }
  }

  // -----------------------------------------------------------------------------------------
  // A write that has to wait
  // -----------------------------------------------------------------------------------------

  /** Header, one sector of data, and the status */
  function WriteChain(): seq<Desc> {
    [Desc(0, HEADER, false, Some(1)), Desc(SECTOR, SECTOR, false, Some(2)), Desc(HEADER, 1, true, None)]
  }

  /** A page of RAM with a request to write the data to a sector. */
  function WriteMemory(sector: nat, data: seq<Byte>): (r: Ram)
    requires |data| == SECTOR
    ensures Paged(r)
  {
    map[0 := seq(PAGE, i requires 0 <= i < PAGE =>
      if i < HEADER then HeaderBytes(OUT, 0, sector)[i] else if SECTOR <= i < 2 * SECTOR then data[i - SECTOR] else 0)]
  }

  lemma WriteChainIs()
    ensures IsChain(WriteChain(), [0, 1, 2]) && Descs(WriteChain(), [0, 1, 2]) == WriteChain() && Ordered(WriteChain())
    ensures Bytes(WriteChain(), false) == Addrs(0, HEADER) + Addrs(SECTOR, SECTOR)
    ensures Bytes(WriteChain(), true) == Addrs(HEADER, 1)
  {
    hide Addrs;
    var c := WriteChain();
    var status := [c[2]];
    assert c[1..][1..] == status && status[1..] == [];
    assert Leading(status, false) == [] && Leading(status, true) == Addrs(HEADER, 1) + [];
    assert Leading(c[1..], false) == Addrs(SECTOR, SECTOR) + [];
    assert FromWritable(status) == status && FromWritable(c[1..]) == status && FromWritable(c) == status;
  }

  lemma WriteMemoryIs(sector: nat, data: seq<Byte>)
    requires |data| == SECTOR && sector < 0x1_0000_0000_0000_0000
    ensures var r := WriteMemory(sector, data);
            && AllIn(r, Addrs(0, HEADER)) && HeaderOf(Load(r, Addrs(0, HEADER))) == Header(OUT, sector)
            && AllIn(r, Addrs(SECTOR, SECTOR)) && Load(r, Addrs(SECTOR, SECTOR)) == data
            && AllIn(r, Addrs(HEADER, 1))
  {
    hide HeaderOf, HeaderBytes;
    var r := WriteMemory(sector, data);
    forall a: nat | a < PAGE ensures InRam(r, a) && a / PAGE == 0 && a % PAGE == a { DivUnique(a, PAGE, 0, a); }
    HeaderRead(OUT, 0, sector);
    assert Load(r, Addrs(0, HEADER)) == HeaderBytes(OUT, 0, sector);
  }

  lemma WriteIsAsked(d: VirtioBlockDevice, sector: nat, data: seq<Byte>)
    requires d.table == WriteChain() && |data| == SECTOR && sector < 0x1_0000_0000_0000_0000
    requires d.ram == WriteMemory(sector, data) && sector < |d.bs.image|
    ensures d.Acceptable([0, 1, 2]) && d.Asked([0, 1, 2]) == Some(Header(OUT, sector)) && d.Count([0, 1, 2], Header(OUT, sector)) == 1
    ensures d.Writable([0, 1, 2]) == Addrs(HEADER, 1) && |d.Readable([0, 1, 2])| == HEADER + SECTOR
    ensures d.Readable([0, 1, 2])[HEADER..] == Addrs(SECTOR, SECTOR)
  {
    hide IsChain, Bytes, Descs, Ordered, HeaderOf, WriteChain, WriteMemory, InRam, ByteAt, AllIn, Load;
    WriteChainIs();
    WriteMemoryIs(sector, data);
    AllInParts(d.ram, Addrs(0, HEADER), Addrs(SECTOR, SECTOR));
    assert d.Readable([0, 1, 2])[..HEADER] == Addrs(0, HEADER);
  }

  lemma NothingAtHand(image: seq<BlockDevice.Sector>, sector: nat)
    requires |image| > 0
    ensures BlockDevice.AtHandFrom(seq(|image| / BlockDevice.CLUSTER, i => None), [], |image|, sector, 1) == 0
  {
  }

  lemma GivenNone(data: seq<Byte>, freed: seq<Byte>)
    requires |data| == |freed| == SECTOR
    ensures Given(data, freed, 0) == [freed]
  {
    OneSector(freed);
  }

  lemma OneSector(b: seq<Byte>)
    requires |b| == SECTOR
    ensures Sectors(b) == [b]
  {
    assert b[0 * SECTOR..0 * SECTOR + SECTOR] == b;
  }

  /** The status byte is not among the data. */
  lemma DataStays(sector: nat, data: seq<Byte>, ram: Ram)
    requires |data| == SECTOR && sector < 0x1_0000_0000_0000_0000 && Written(WriteMemory(sector, data), ram, Addrs(HEADER, 1), [OK])
    ensures AllIn(ram, Addrs(SECTOR, SECTOR)) && Load(ram, Addrs(SECTOR, SECTOR)) == data
  {
    hide WriteMemory, InRam, ByteAt;
    var r, addrs := WriteMemory(sector, data), Addrs(SECTOR, SECTOR);
    WriteMemoryIs(sector, data);
    SameKeys(r, ram, addrs);
    forall i | 0 <= i < SECTOR ensures Load(ram, addrs)[i] == data[i] {
      assert addrs[i] !in Addrs(HEADER, 1);
      assert Load(r, addrs)[i] == ByteAt(r, addrs[i]);
    }
  }

  /** The request is taken, and waits for the block. */
  method BeginWrite(image: seq<BlockDevice.Sector>, max: nat, sector: nat, data: seq<Byte>, freed: seq<Byte>)
    returns (d: VirtioBlockDevice)
    requires sector < |image| && sector < 0x1_0000_0000_0000_0000 && |image| % BlockDevice.CLUSTER == 0 && Whole(image) && max >= 1 && |data| == |freed| == SECTOR
    ensures d.Valid() && d.reqInProgress && d.bs.image == image && d.bs.blockSize == |image| && d.used == []
    ensures d.ram == WriteMemory(sector, data) && d.table == WriteChain() && d.reqPath == [0, 1, 2] && d.reqDesc == 0
    ensures d.Submitted(true, sector, 1, image) && d.bs.ioBuf == [freed] && fresh(d) && fresh(d.bs)
  {
    hide IsChain, Bytes, Descs, Ordered, WriteChain, WriteMemory, Sectors, BlockDevice.CacheOk, BlockDevice.Done, AllIn, Load,
         BlockDevice.Clear, BlockDevice.Seen, BlockDevice.Flat, BlockDevice.AtHand, BlockDevice.AtHandFrom, Given, InRam, ByteAt, OnlyAt, NoRepeats;
    ghost var path: seq<nat> := [0, 1, 2];
    WriteChainIs();
    NothingAtHand(image, sector);
    OneSector(data);
    GivenNone(data, freed);
    WriteMemoryIs(sector, data);
    OneSector(freed);
    var dev := new BlockDevice.Device(image, |image|, max);
    d := new VirtioBlockDevice(dev, WriteChain(), WriteMemory(sector, data));
    WriteIsAsked(d, sector, data);
    var r := d.Take(0, path, [0], freed);
  }

  /** For any image of one block, any sector of it, any data, and any later content of the freed buffer: a write of
      that sector waits for the block, and is answered as successful when that content is on the
      disk in place of the data, which memory still shows. */
  method LostWrite(image: seq<BlockDevice.Sector>, max: nat, sector: nat, data: seq<Byte>, freed: seq<Byte>)
    returns (d: VirtioBlockDevice)
    requires sector < |image| && sector < 0x1_0000_0000_0000_0000 && |image| % BlockDevice.CLUSTER == 0 && Whole(image) && max >= 1 && |data| == |freed| == SECTOR
    ensures d.Valid() && !d.reqInProgress && d.used == [VirtioBlock.Used(0, 1)] && d.bs.image == image
    ensures Written(WriteMemory(sector, data), d.ram, Addrs(HEADER, 1), [OK])
    ensures AllIn(d.ram, Addrs(SECTOR, SECTOR)) && Load(d.ram, Addrs(SECTOR, SECTOR)) == data
    ensures d.bs.Disk() == image[sector := freed]
  {
    hide IsChain, Bytes, Descs, Ordered, WriteChain, WriteMemory, Sectors, BlockDevice.CacheOk, BlockDevice.Done, AllIn, Load,
         BlockDevice.Clear, BlockDevice.Seen, BlockDevice.Flat, InRam, ByteAt, OnlyAt, NoRepeats;
    d := BeginWrite(image, max, sector, data, freed);
    WriteChainIs();
    var i := BlockDevice.FindLoading(d.bs);
    d.Loaded(0, i);
    if d.reqInProgress { BlockDevice.WaitsForFirst(d.bs); }
    assert Addrs(HEADER, 1)[..1] == Addrs(HEADER, 1);
    DataStays(sector, data, d.ram);
  }
}
