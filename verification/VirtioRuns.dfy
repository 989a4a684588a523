/** Whole runs of the virtio block device: chains are made available, the queue is notified, blocks
    are loaded and the guest changes its memory, in any order.  What happens is a history on values,
    from the memory, used ring and disk before the run to those after it. */
module VirtioRuns {
  import opened ByteStreams
  import opened Virtqueue
  import opened VirtioDisk
  import opened Wrappers
  import BlockDevice
  import VirtioBlock

  /** A chain, and what its two buffers hold: that of a read when it has been allocated, that of a
      write when it has been freed. */
  datatype Chain = Chain(path: seq<nat>, malloc: seq<Byte>, freed: seq<Byte>)

  datatype Step = Post(chain: Chain) | Notify | LoadBlock(i: nat) | GuestWrites(memory: Ram)

  /** A chain that has been taken, and the memory and the blocks at that time */
  datatype Taken = Taken(chain: Chain, ram: Ram, clusters: BlockDevice.Clusters, cache: seq<BlockDevice.CachedBlock>)

  /** A request that has been answered: the sectors written or read, and the memory with the answer */
  datatype Answered = Answered(record: BlockDevice.Record, ram: Ram)

  /** Memory, used ring, disk and blocks, and what has been made available, taken and answered.  While
      a request is in progress, the disk is the one it was begun on. */
  datatype State = State(ram: Ram, used: seq<VirtioBlock.Used>, disk: seq<BlockDevice.Sector>,
                         clusters: BlockDevice.Clusters, cache: seq<BlockDevice.CachedBlock>,
                         chains: seq<Chain>, ts: seq<Taken>, log: seq<Answered>)

  /** What can happen: a chain is made available, memory is changed, a chain is taken, a block has
      been loaded.  The latter two change which sectors are at hand, and may come with an answer. */
  datatype Happening =
    | Posted(chain: Chain)
    | Stored(memory: Ram)
    | Took(clusters: BlockDevice.Clusters, cache: seq<BlockDevice.CachedBlock>, answer: Option<Answered>)
    | Loaded(i: nat, clusters: BlockDevice.Clusters, cache: seq<BlockDevice.CachedBlock>, answer: Option<Answered>)

  // -----------------------------------------------------------------------------------------
  // Requests and answers
  // -----------------------------------------------------------------------------------------

  /** What a chain asked for when it was taken */
  ghost function RequestOf(table: seq<Desc>, t: Taken): (h: Option<Header>)
    ensures h.Some? ==> h.value.kind == IN || h.value.kind == OUT
  {
    if Paged(t.ram) && IsChain(table, t.chain.path) && AllIn(t.ram, Bytes(Descs(table, t.chain.path), false))
    then AskedIn(table, t.ram, t.chain.path) else None
  }

  /** The chains taken that ask for something */
  ghost function Requests(table: seq<Desc>, ts: seq<Taken>): seq<Taken> {
    if ts == [] then []
    else
      var n := |ts| - 1;
      Requests(table, ts[..n]) + if RequestOf(table, ts[n]).Some? then [ts[n]] else []
  }

  /** A request is in progress. */
  ghost predicate Open(d: VirtioBlockDevice, s: State) { |Requests(d.table, s.ts)| > |s.log| }

  /** The request that is to be answered next */
  ghost function Asking(d: VirtioBlockDevice, s: State): Taken
    requires Open(d, s)
  {
    Requests(d.table, s.ts)[|s.log|]
  }

  /** The entry of the used ring that a request is due */
  ghost function Entry(d: VirtioBlockDevice, t: Taken): VirtioBlock.Used
    requires RequestOf(d.table, t).Some?
  {
    VirtioBlock.Used(t.chain.path[0], if RequestOf(d.table, t).value.kind == IN then |d.Writable(t.chain.path)| else 1)
  }

  /** How many sectors of a request are at hand before the first one that is not, when it is taken */
  ghost function Ready(d: VirtioBlockDevice, t: Taken): nat
    requires RequestOf(d.table, t).Some? && d.bs.blockSize > 0
  {
    var h := RequestOf(d.table, t).value;
    var n := d.Count(t.chain.path, h);
    if n < 0 then 0 else BlockDevice.AtHandFrom(t.clusters, t.cache, d.bs.blockSize, h.sector, n)
  }

  /** A request has been given to the block device: a write with the sectors of its data that are at
      hand before the first one that is not, and for the rest what the freed buffer held. */
  ghost predicate Given(d: VirtioBlockDevice, t: Taken, r: BlockDevice.Record)
    requires RequestOf(d.table, t).Some?
  {
    var path, h := t.chain.path, RequestOf(d.table, t).value;
    && r.isWrite == (h.kind == OUT) && r.sector == h.sector && |r.data| == d.Count(path, h)
    && (r.isWrite ==>
          && |t.chain.freed| == |d.Readable(path)| - HEADER && AllIn(t.ram, d.Readable(path)[HEADER..]) && d.bs.blockSize > 0
          && Ready(d, t) <= |t.chain.freed| / SECTOR
          && r.data == VirtioDisk.Given(Load(t.ram, d.Readable(path)[HEADER..]), t.chain.freed, Ready(d, t)))
  }

  /** Its answer is in memory: the sectors read and the status, or the status alone.  Nothing else has
      changed. */
  ghost predicate AnswerHeld(d: VirtioBlockDevice, t: Taken, ram0: Ram, a: Answered)
    requires IsChain(d.table, t.chain.path)
  {
    var addrs := d.Writable(t.chain.path);
    && Paged(ram0) && Paged(a.ram)
    && if a.record.isWrite then
         addrs != [] && AllIn(a.ram, addrs[..1]) && Load(a.ram, addrs[..1]) == [OK] && OnlyAt(ram0, a.ram, addrs[..1])
       else
         HoldsSectors(a.ram, addrs, a.record.data) && OnlyAt(ram0, a.ram, addrs)
  }

  /** The sectors are on the disk.  A read has what the block device sees of them, and if it is answered
      faithfully, those of the disk. */
  ghost predicate DataOf(d: VirtioBlockDevice, disk: seq<BlockDevice.Sector>, clusters: BlockDevice.Clusters, r: BlockDevice.Record) {
    && r.sector + |r.data| <= |disk|
    && (!r.isWrite ==>
          && d.bs.blockSize > 0 && BlockDevice.WellFormed(clusters, d.bs.image) && |disk| == |d.bs.image|
          && (forall p: nat :: r.sector <= p < r.sector + |r.data| ==>
                r.data[p - r.sector] == BlockDevice.Seen(clusters, d.bs.image, d.bs.blockSize, r.sector, p))
          && (BlockDevice.Narrow(d.bs.blockSize, false, r.sector, |r.data|) ==> r.data == disk[r.sector..r.sector + |r.data|]))
  }

  // -----------------------------------------------------------------------------------------
  // Happenings
  // -----------------------------------------------------------------------------------------

  /** What becomes of the next chain */
  ghost function Verdict(d: VirtioBlockDevice, s: State): Outcome {
    if |s.ts| >= |s.chains| then Served
    else
      var path := s.chains[|s.ts|].path;
      if !Paged(s.ram) || !IsChain(d.table, path) || !AllIn(s.ram, Bytes(Descs(d.table, path), false)) then Served
      else if Open(d, s) && Ordered(Descs(d.table, path)) then Busy
      else DueIn(d.table, |d.bs.image|, s.ram, path)
  }

  /** The next chain, as it is found now */
  function NextTaken(s: State): Taken
    requires |s.ts| < |s.chains|
  {
    Taken(s.chains[|s.ts|], s.ram, s.clusters, s.cache)
  }

  ghost function WithAnswer(d: VirtioBlockDevice, s: State, answer: Option<Answered>): State {
    match answer
    case None => s
    case Some(a) =>
      if !Open(d, s) || RequestOf(d.table, Asking(d, s)).None? then s
      else
        s.(ram := a.ram, used := s.used + [Entry(d, Asking(d, s))], log := s.log + [a],
           disk := if a.record.isWrite && a.record.sector + |a.record.data| <= |s.disk|
                   then BlockDevice.Replaced(s.disk, a.record.sector, a.record.data) else s.disk)
  }

  /** The answer is to the request in progress, with its data, and in its chain. */
  ghost predicate Answers(d: VirtioBlockDevice, s: State, answer: Option<Answered>) {
    match answer
    case None => true
    case Some(a) =>
      && Open(d, s) && RequestOf(d.table, Asking(d, s)).Some?
      && Given(d, Asking(d, s), a.record) && DataOf(d, s.disk, s.clusters, a.record) && AnswerHeld(d, Asking(d, s), s.ram, a)
  }

  ghost function After(d: VirtioBlockDevice, s: State, h: Happening): State {
    match h
    case Posted(c) => s.(chains := s.chains + [c])
    case Stored(m) => s.(ram := m)
    case Took(cs, ca, answer) =>
      if |s.ts| >= |s.chains| then s
      else WithAnswer(d, s.(ts := s.ts + [NextTaken(s)], clusters := cs, cache := ca), answer)
    case Loaded(_, cs, ca, answer) => WithAnswer(d, s.(clusters := cs, cache := ca), answer)
  }

  /** A request in progress lacks a sector; otherwise the clusters and the image make up the disk. */
  ghost predicate BlocksFit(d: VirtioBlockDevice, s: State) {
    if Open(d, s) then
      var t := Asking(d, s);
      RequestOf(d.table, t).Some? && d.bs.blockSize > 0 &&
      var h := RequestOf(d.table, t).value;
      exists p: nat :: h.sector <= p < h.sector + d.Count(t.chain.path, h) &&
                       !BlockDevice.AtHand(s.clusters, s.cache, p, d.bs.blockSize)
    else
      BlockDevice.WellFormed(s.clusters, d.bs.image) && BlockDevice.Flat(s.clusters, d.bs.image) == s.disk
  }

  /** What can happen in a state.  A chain that asks for nothing changes nothing; a request is answered
      at once exactly if all its sectors are at hand; a load answers none but the request in progress. */
  ghost predicate Told(d: VirtioBlockDevice, s: State, h: Happening) {
    match h
    case Posted(c) => Usable(d.table, s.ram, c)
    case Stored(m) => Paged(m) && m.Keys == s.ram.Keys
    case Took(cs, ca, answer) =>
      && |s.ts| < |s.chains| && Verdict(d, s) == Served && BlocksFit(d, After(d, s, h))
      && var t := NextTaken(s);
         (match RequestOf(d.table, t)
          case None => cs == s.clusters && ca == s.cache && answer == None
          case Some(r) =>
            && d.bs.blockSize > 0 && !Open(d, s)
            && (answer.Some? <==> Ready(d, t) == d.Count(t.chain.path, r))
            && (answer.Some? ==> BlockDevice.SameAtHand(s.clusters, s.cache, cs, ca, d.bs.blockSize))
            && Answers(d, s.(ts := s.ts + [t], clusters := cs, cache := ca), answer))
    case Loaded(i, cs, ca, answer) =>
      && i < |s.cache| && !s.cache[i].loaded && Answers(d, s.(clusters := cs, cache := ca), answer) && BlocksFit(d, After(d, s, h))
      && (!Open(d, s) ==> cs == s.clusters && ca == BlockDevice.AfterLoad(s.cache, i, d.bs.image, d.bs.blockSize))
  }

  ghost function Play(d: VirtioBlockDevice, s: State, hs: seq<Happening>): State {
    if hs == [] then s else After(d, Play(d, s, hs[..|hs| - 1]), hs[|hs| - 1])
  }

  ghost predicate AllTold(d: VirtioBlockDevice, s: State, hs: seq<Happening>) {
    hs == [] || (AllTold(d, s, hs[..|hs| - 1]) && Told(d, Play(d, s, hs[..|hs| - 1]), hs[|hs| - 1]))
  }

  // -----------------------------------------------------------------------------------------
  // Steps
  // -----------------------------------------------------------------------------------------

  predicate Taking(hs: seq<Happening>) { forall k :: 0 <= k < |hs| ==> hs[k].Took? }

  /** What happens in a step; s is the state before it.  A notification, and a load that answers a
      request, goes on until no chain is left or the next one cannot be taken. */
  ghost predicate StepTold(d: VirtioBlockDevice, s: State, step: Step, hs: seq<Happening>) {
    AllTold(d, s, hs) &&
    match step
    case Post(c) => hs == [Posted(c)]
    case GuestWrites(m) => hs == [Stored(m)]
    case Notify => Taking(hs) && Settled(d, Play(d, s, hs))
    case LoadBlock(i) =>
      if i < |s.cache| && !s.cache[i].loaded then
        && hs != [] && hs[0].Loaded? && hs[0].i == i
        && if hs[0].answer.Some? then Taking(hs[1..]) && Settled(d, Play(d, s, hs)) else |hs| == 1
      else hs == []
  }

  ghost predicate Settled(d: VirtioBlockDevice, s: State) { |s.ts| == |s.chains| || Verdict(d, s) != Served }

  /** The queue has been gone through in this step. */
  predicate Notified(step: Step, hs: seq<Happening>) {
    step.Notify? || (step.LoadBlock? && hs != [] && hs[0].Loaded? && hs[0].answer.Some?)
  }

  /** A step ends the run if the next chain has no room for a status, or asks for sectors past the disk. */
  ghost predicate Ends(d: VirtioBlockDevice, after: State, step: Step, hs: seq<Happening>) {
    Notified(step, hs) && Verdict(d, after) != Served && Verdict(d, after) != Busy
  }

  ghost function PlayAll(d: VirtioBlockDevice, s: State, told: seq<seq<Happening>>): State {
    if told == [] then s else Play(d, PlayAll(d, s, told[..|told| - 1]), told[|told| - 1])
  }

  /** The history of a run, step by step */
  ghost predicate RunTold(d: VirtioBlockDevice, s: State, steps: seq<Step>, told: seq<seq<Happening>>) {
    |told| <= |steps| &&
    (told == [] ||
     var n := |told| - 1;
     var t := PlayAll(d, s, told[..n]);
     && RunTold(d, s, steps, told[..n]) && StepTold(d, t, steps[n], told[n])
     && (n > 0 ==> !Ends(d, t, steps[n - 1], told[n - 1])))
  }

  // -----------------------------------------------------------------------------------------
  // Usable chains
  // -----------------------------------------------------------------------------------------

  /** What the driver has to see to: the buffers of a chain are distinct bytes of RAM. */
  ghost predicate Usable(table: seq<Desc>, ram: Ram, c: Chain) {
    && Paged(ram) && IsChain(table, c.path) && c.path != []
    && var readable, writable := Bytes(Descs(table, c.path), false), Bytes(Descs(table, c.path), true);
       && AllIn(ram, readable) && AllIn(ram, writable) && NoRepeats(writable)
       && |c.malloc| == |writable| && (|readable| >= HEADER ==> |c.freed| == |readable| - HEADER)
  }

  ghost predicate AllUsable(table: seq<Desc>, ram: Ram, cs: seq<Chain>) {
    forall k :: 0 <= k < |cs| ==> Usable(table, ram, cs[k])
  }

  lemma UsableStays(table: seq<Desc>, ram: Ram, ram': Ram, cs: seq<Chain>)
    requires AllUsable(table, ram, cs) && Paged(ram') && ram'.Keys == ram.Keys
    ensures AllUsable(table, ram', cs)
  {
    hide IsChain, Bytes, Descs, AllIn, NoRepeats;
    forall k | 0 <= k < |cs| ensures Usable(table, ram', cs[k]) {
      assert Usable(table, ram, cs[k]);
      SameKeys(ram, ram', Bytes(Descs(table, cs[k].path), false));
      SameKeys(ram, ram', Bytes(Descs(table, cs[k].path), true));
    }
  }

  // -----------------------------------------------------------------------------------------
  // What every history keeps
  // -----------------------------------------------------------------------------------------

  function Records(log: seq<Answered>): seq<BlockDevice.Record> {
    seq(|log|, k requires 0 <= k < |log| => log[k].record)
  }

  /** The chains taken are the first of those made available. */
  predicate TakenFrom(ts: seq<Taken>, posted: seq<Chain>) {
    |ts| <= |posted| && forall k :: 0 <= k < |ts| ==> ts[k].chain == posted[k]
  }

  /** Every request taken has its entry in the used ring, in order, but for the last one while it is
      in progress. */
  ghost predicate InOrder(d: VirtioBlockDevice, used0: seq<VirtioBlock.Used>, s: State) {
    var rs := Requests(d.table, s.ts);
    && TakenFrom(s.ts, s.chains) && |s.log| <= |rs| <= |s.log| + 1
    && |s.used| == |used0| + |s.log| && used0 <= s.used
    && forall k :: 0 <= k < |s.log| ==> EntryOf(d, s.used[|used0| + k], rs[k], s.log[k])
  }

  ghost predicate EntryOf(d: VirtioBlockDevice, u: VirtioBlock.Used, t: Taken, a: Answered) {
    RequestOf(d.table, t).Some? && u == Entry(d, t) && Given(d, t, a.record)
  }

  /** The disk is the one before the run with all writes that have been answered. */
  predicate OnDisk(disk0: seq<BlockDevice.Sector>, s: State) {
    |s.disk| == |disk0| && BlockDevice.Replay(disk0, Records(s.log)) == s.disk
  }

  lemma RequestsSnoc(table: seq<Desc>, ts: seq<Taken>, t: Taken)
    ensures Requests(table, ts + [t]) == Requests(table, ts) + if RequestOf(table, t).Some? then [t] else []
  {
    hide RequestOf;
    assert (ts + [t])[..|ts|] == ts;
  }

  lemma RecordsSnoc(log: seq<Answered>, a: Answered)
    ensures Records(log + [a]) == Records(log) + [a.record]
  {
  }

  lemma ReplaySnoc(disk: seq<BlockDevice.Sector>, rs: seq<BlockDevice.Record>, r: BlockDevice.Record)
    requires r.sector + |r.data| <= |disk|
    ensures var f := BlockDevice.Replay(disk, rs);
            BlockDevice.Replay(disk, rs + [r]) == if r.isWrite then BlockDevice.Replaced(f, r.sector, r.data) else f
  {
    hide BlockDevice.Replaced;
    assert (rs + [r])[..|rs|] == rs;
  }

  lemma AnswerKeeps(d: VirtioBlockDevice, used0: seq<VirtioBlock.Used>, disk0: seq<BlockDevice.Sector>, s: State, answer: Option<Answered>)
    requires InOrder(d, used0, s) && OnDisk(disk0, s) && Answers(d, s, answer)
    ensures InOrder(d, used0, WithAnswer(d, s, answer)) && OnDisk(disk0, WithAnswer(d, s, answer))
    ensures answer.Some? ==> !Open(d, WithAnswer(d, s, answer)) && |WithAnswer(d, s, answer).log| == |s.log| + 1
  {
    hide Requests, RequestOf, Given, AnswerHeld, Records, BlockDevice.Replay, BlockDevice.Replaced, BlockDevice.Narrow;
    if answer.Some? {
      var a, t := answer.value, Asking(d, s);
      RecordsSnoc(s.log, a);
      ReplaySnoc(disk0, Records(s.log), a.record);
      var u := WithAnswer(d, s, answer);
      forall k | 0 <= k < |u.log| ensures EntryOf(d, u.used[|used0| + k], Requests(d.table, s.ts)[k], u.log[k]) {
        if k < |s.log| { assert EntryOf(d, s.used[|used0| + k], Requests(d.table, s.ts)[k], s.log[k]); }
      }
    }
  }

  lemma TakeKeeps(d: VirtioBlockDevice, used0: seq<VirtioBlock.Used>, s: State)
    requires InOrder(d, used0, s) && |s.ts| < |s.chains| && (RequestOf(d.table, NextTaken(s)).Some? ==> !Open(d, s))
    ensures InOrder(d, used0, s.(ts := s.ts + [NextTaken(s)]))
    ensures Open(d, s.(ts := s.ts + [NextTaken(s)])) <==> Open(d, s) || RequestOf(d.table, NextTaken(s)).Some?
  {
    hide RequestOf, Requests, EntryOf;
    RequestsSnoc(d.table, s.ts, NextTaken(s));
  }

  /** Whatever happens keeps order and disk. */
  lemma HappeningKeeps(d: VirtioBlockDevice, used0: seq<VirtioBlock.Used>, disk0: seq<BlockDevice.Sector>, s: State, h: Happening)
    requires InOrder(d, used0, s) && OnDisk(disk0, s) && Told(d, s, h)
    ensures InOrder(d, used0, After(d, s, h)) && OnDisk(disk0, After(d, s, h))
  {
    hide RequestOf, Requests, EntryOf, WithAnswer, Given, AnswerHeld, DataOf, Verdict, BlocksFit, Ready, Usable, Records, BlockDevice.Replay,
         BlockDevice.SameAtHand, Open;
    match h
    case Posted(c) =>
    case Stored(m) =>
    case Took(cs, ca, answer) =>
      TakeKeeps(d, used0, s);
      var t := s.(ts := s.ts + [NextTaken(s)]);
      AnswerKeeps(d, used0, disk0, t.(clusters := cs, cache := ca), answer);
    case Loaded(i, cs, ca, answer) =>
      AnswerKeeps(d, used0, disk0, s.(clusters := cs, cache := ca), answer);
  }

  lemma {:induction false} HistoryKeeps(d: VirtioBlockDevice, used0: seq<VirtioBlock.Used>, disk0: seq<BlockDevice.Sector>, s: State, hs: seq<Happening>)
    requires InOrder(d, used0, s) && OnDisk(disk0, s) && AllTold(d, s, hs)
    ensures InOrder(d, used0, Play(d, s, hs)) && OnDisk(disk0, Play(d, s, hs))
    decreases |hs|
  {
    hide InOrder, OnDisk, Told, After;
    if hs != [] {
      var n := |hs| - 1;
      HistoryKeeps(d, used0, disk0, s, hs[..n]);
      HappeningKeeps(d, used0, disk0, Play(d, s, hs[..n]), hs[n]);
    }
  }

  /** What every run leaves: one used entry for each request taken, in the order in which they were
      taken, but for the last one while it is in progress, and the disk with the writes answered. */
  lemma {:induction false} RunKeeps(d: VirtioBlockDevice, used0: seq<VirtioBlock.Used>, disk0: seq<BlockDevice.Sector>, s: State,
                                    steps: seq<Step>, told: seq<seq<Happening>>)
    requires InOrder(d, used0, s) && OnDisk(disk0, s) && RunTold(d, s, steps, told)
    ensures InOrder(d, used0, PlayAll(d, s, told)) && OnDisk(disk0, PlayAll(d, s, told))
    decreases |told|
  {
    hide InOrder, OnDisk, Play, AllTold, Ends;
    if told != [] {
      var n := |told| - 1;
      RunKeeps(d, used0, disk0, s, steps, told[..n]);
      HistoryKeeps(d, used0, disk0, PlayAll(d, s, told[..n]), told[n]);
    }
  }

  // -----------------------------------------------------------------------------------------
  // The history as one list
  // -----------------------------------------------------------------------------------------

  function Flat(told: seq<seq<Happening>>): seq<Happening> {
    if told == [] then [] else Flat(told[..|told| - 1]) + told[|told| - 1]
  }

  lemma {:induction false} PlayOn(d: VirtioBlockDevice, s: State, hs: seq<Happening>, more: seq<Happening>)
    ensures Play(d, s, hs + more) == Play(d, Play(d, s, hs), more)
    ensures AllTold(d, s, hs + more) <==> AllTold(d, s, hs) && AllTold(d, Play(d, s, hs), more)
    decreases |more|
  {
    hide Told, After;
    if more == [] {
      assert hs + more == hs;
    } else {
      var n := |more| - 1;
      PlayOn(d, s, hs, more[..n]);
      assert (hs + more)[..|hs| + n] == hs + more[..n];
    }
  }

  lemma {:induction false} FlatTold(d: VirtioBlockDevice, s: State, steps: seq<Step>, told: seq<seq<Happening>>)
    requires RunTold(d, s, steps, told)
    ensures AllTold(d, s, Flat(told)) && Play(d, s, Flat(told)) == PlayAll(d, s, told)
    decreases |told|
  {
    hide Play, AllTold, Ends;
    if told == [] {
      NothingTold(d, s);
    } else {
      var n := |told| - 1;
      FlatTold(d, s, steps, told[..n]);
      PlayOn(d, s, Flat(told[..n]), told[n]);
    }
  }

  lemma NothingTold(d: VirtioBlockDevice, s: State)
    ensures Play(d, s, []) == s && AllTold(d, s, [])
  {
  }

  /** The happening that gave the k-th answer of a history */
  lemma {:induction false} AnswerGiven(d: VirtioBlockDevice, s: State, hs: seq<Happening>, k: nat) returns (n: nat)
    requires AllTold(d, s, hs) && |s.log| <= k < |Play(d, s, hs).log|
    ensures n < |hs| && AllTold(d, s, hs[..n]) && Told(d, Play(d, s, hs[..n]), hs[n])
    ensures |Play(d, s, hs[..n]).log| == k && Play(d, s, hs[..n + 1]) == After(d, Play(d, s, hs[..n]), hs[n])
    ensures |Play(d, s, hs[..n + 1]).log| == k + 1 && Play(d, s, hs[..n + 1]).log <= Play(d, s, hs).log
    decreases |hs|
  {
    hide Told;
    n := |hs| - 1;
    var before := Play(d, s, hs[..n]);
    LogGrows(d, before, hs[n]);
    assert hs[..n + 1] == hs;
    if k < |before.log| {
      var m := AnswerGiven(d, s, hs[..n], k);
      assert hs[..n][..m] == hs[..m] && hs[..n][..m + 1] == hs[..m + 1];
      n := m;
    }
  }

  lemma LogGrows(d: VirtioBlockDevice, s: State, h: Happening)
    ensures s.log <= After(d, s, h).log && |After(d, s, h).log| <= |s.log| + 1
  {
    hide Requests, RequestOf, Entry, Open;
  }

  lemma {:induction false} RequestsGrow(table: seq<Desc>, ts: seq<Taken>, n: nat)
    requires n <= |ts|
    ensures Requests(table, ts[..n]) <= Requests(table, ts)
    decreases |ts|
  {
    hide RequestOf;
    if n < |ts| {
      RequestsGrow(table, ts[..|ts| - 1], n);
      assert ts[..|ts| - 1][..n] == ts[..n];
    } else {
      assert ts[..n] == ts;
    }
  }

  lemma {:induction false} TakenGrow(d: VirtioBlockDevice, s: State, hs: seq<Happening>, n: nat)
    requires n <= |hs|
    ensures Play(d, s, hs[..n]).ts <= Play(d, s, hs).ts
    decreases |hs|
  {
    hide Open, RequestOf, Requests, Entry;
    if n < |hs| {
      TakenGrow(d, s, hs[..|hs| - 1], n);
      assert hs[..|hs| - 1][..n] == hs[..n];
    } else {
      assert hs[..n] == hs;
    }
  }

  /** What an answer comes with, when it is given */
  lemma AnswerMade(d: VirtioBlockDevice, s: State, h: Happening)
    requires Told(d, s, h) && |After(d, s, h).log| == |s.log| + 1
    ensures var u := After(d, s, h);
            && |Requests(d.table, u.ts)| > |s.log|
            && var t, a := Requests(d.table, u.ts)[|s.log|], u.log[|s.log|];
               && RequestOf(d.table, t).Some? && Given(d, t, a.record) && DataOf(d, s.disk, u.clusters, a.record)
               && AnswerHeld(d, t, s.ram, a) && u.ram == a.ram && u.used == s.used + [Entry(d, t)]
  {
    hide Requests, RequestOf, Given, DataOf, AnswerHeld, Verdict, BlocksFit, Ready, Entry, BlockDevice.SameAtHand;
  }

  /** Of every run: when the k-th answer is given, to a read (in blocks of one cluster, or inside one
      cluster), the used ring gets its entry, and its chain's writable bytes the sectors of the disk
      with exactly the writes answered before, and the status; no other byte of memory changes. */
  lemma ReadAnswered(d: VirtioBlockDevice, s: State, steps: seq<Step>, told: seq<seq<Happening>>, k: nat) returns (n: nat)
    requires RunTold(d, s, steps, told) && s.ts == [] && s.log == [] && k < |PlayAll(d, s, told).log|
    requires var r := PlayAll(d, s, told).log[k].record;
             !r.isWrite && BlockDevice.Narrow(d.bs.blockSize, false, r.sector, |r.data|)
    ensures var hs, end := Flat(told), PlayAll(d, s, told);
            && n < |hs| && k < |Requests(d.table, end.ts)|
            && var before, after := Play(d, s, hs[..n]), Play(d, s, hs[..n + 1]);
               var t, c := Requests(d.table, end.ts)[k], |end.log[k].record.data|;
               && |before.log| == k && after.log == end.log[..k + 1] && RequestOf(d.table, t).Some?
               && before.disk == BlockDevice.Replay(s.disk, Records(end.log)[..k])
               && var h := RequestOf(d.table, t).value;
                  && h.kind == IN && c == d.Count(t.chain.path, h) && h.sector + c <= |before.disk|
                  && after.used == before.used + [VirtioBlock.Used(t.chain.path[0], |d.Writable(t.chain.path)|)]
                  && Paged(before.ram) && Paged(after.ram)
                  && HoldsSectors(after.ram, d.Writable(t.chain.path), before.disk[h.sector..h.sector + c])
                  && OnlyAt(before.ram, after.ram, d.Writable(t.chain.path))
  {
    hide RequestOf, Told, RunTold, AllTold, After, Play, PlayAll, Flat, BlockDevice.Narrow, BlockDevice.Replay, HoldsSectors, OnlyAt,
         Bytes, Descs, IsChain, AskedIn, BlockDevice.WellFormed, BlockDevice.Seen;
    var hs, end := Flat(told), PlayAll(d, s, told);
    FlatTold(d, s, steps, told);
    NothingTold(d, s);
    n := AnswerGiven(d, s, hs, k);
    var before, after := Play(d, s, hs[..n]), Play(d, s, hs[..n + 1]);
    AnswerMade(d, before, hs[n]);
    TakenGrow(d, s, hs, n + 1);
    RequestsGrow(d.table, end.ts, |after.ts|);
    StartInOrder(d, s);
    HistoryKeeps(d, s.used, s.disk, s, hs[..n]);
    LogGrows(d, before, hs[n]);
    assert end.ts[..|after.ts|] == after.ts;
    assert after.log[k] == end.log[k];
    assert Records(before.log) == Records(end.log)[..k];
  }

  /** A request in progress always lacks a sector: a request is answered as soon as all of them are at
      hand. */
  lemma {:induction false} RunFits(d: VirtioBlockDevice, s: State, steps: seq<Step>, told: seq<seq<Happening>>)
    requires BlocksFit(d, s) && RunTold(d, s, steps, told)
    ensures BlocksFit(d, PlayAll(d, s, told))
    decreases |told|
  {
    hide BlocksFit, Play, AllTold, Ends;
    if told != [] {
      var n := |told| - 1;
      RunFits(d, s, steps, told[..n]);
      HistoryFits(d, PlayAll(d, s, told[..n]), told[n]);
    }
  }

  lemma {:induction false} HistoryFits(d: VirtioBlockDevice, s: State, hs: seq<Happening>)
    requires BlocksFit(d, s) && AllTold(d, s, hs)
    ensures BlocksFit(d, Play(d, s, hs))
    decreases |hs|
  {
    hide BlocksFit, After, Told;
    if hs != [] {
      var n := |hs| - 1;
      HistoryFits(d, s, hs[..n]);
      HappeningFits(d, Play(d, s, hs[..n]), hs[n]);
    }
  }

  lemma HappeningFits(d: VirtioBlockDevice, s: State, h: Happening)
    requires BlocksFit(d, s) && Told(d, s, h)
    ensures BlocksFit(d, After(d, s, h))
  {
    hide RequestOf, Requests, Answers, WithAnswer, BlockDevice.WellFormed, BlockDevice.Flat, BlockDevice.AtHand, Verdict, Ready, Usable;
  }

  lemma StartInOrder(d: VirtioBlockDevice, s: State)
    requires s.ts == [] && s.log == []
    ensures InOrder(d, s.used, s) && OnDisk(s.disk, s)
  {
  }

  // -----------------------------------------------------------------------------------------
  // The device's side of a history
  // -----------------------------------------------------------------------------------------

  /** What the block device has been given, or has delivered */
  ghost function RecordNow(d: VirtioBlockDevice): BlockDevice.Record
    reads d.bs
  {
    BlockDevice.Record(d.bs.isWrite, d.bs.start, d.bs.ioBuf)
  }

  ghost function Now(d: VirtioBlockDevice, chains: seq<Chain>, ts: seq<Taken>, log: seq<Answered>): State
    requires d.bs.Valid()
    reads d, d.bs
  {
    State(d.ram, d.used, if d.reqInProgress then d.bs.before else d.bs.Disk(), d.bs.clusters, d.bs.cache, chains, ts, log)
  }

  /** The request that the device has in progress, or has just finished */
  ghost predicate Current(d: VirtioBlockDevice, t: Taken)
    reads d, d.bs
  {
    RequestOf(d.table, t).Some? && t.chain.path == d.reqPath && Given(d, t, RecordNow(d))
  }

  /** A history has come to where the device is. */
  ghost predicate Stands(d: VirtioBlockDevice, s: State)
    reads d, d.bs
  {
    && d.Valid() && s == Now(d, s.chains, s.ts, s.log) && AllUsable(d.table, s.ram, s.chains) && |s.ts| <= |s.chains|
    && |Requests(d.table, s.ts)| == |s.log| + (if d.reqInProgress then 1 else 0)
    && (d.reqInProgress ==> Current(d, Asking(d, s)))
  }

  lemma ValidIs(d: VirtioBlockDevice)
    requires d.Valid()
    ensures d.bs.Valid() && Paged(d.ram) && d.reqInProgress == d.bs.waiting && |d.bs.ioBuf| == d.bs.sectorCount
    ensures |d.bs.before| == |d.bs.image| && d.bs.blockSize > 0 && BlockDevice.WellFormed(d.bs.clusters, d.bs.image)
    ensures d.reqInProgress ==> d.reqPath != [] && d.reqDesc == d.reqPath[0]
  {
    hide BlockDevice.CacheOk;
  }

  lemma UsableIs(d: VirtioBlockDevice, cs: seq<Chain>, k: nat, t: Taken)
    requires d.Valid() && AllUsable(d.table, d.ram, cs) && k < |cs| && t.chain == cs[k] && t.ram == d.ram
    ensures var c := cs[k];
            && d.Acceptable(c.path) && |c.malloc| == |d.Writable(c.path)|
            && (|d.Readable(c.path)| >= HEADER ==> |c.freed| == |d.Readable(c.path)| - HEADER)
            && RequestOf(d.table, t) == d.Asked(c.path)
            && (d.Asked(c.path).Some? ==> Ordered(Descs(d.table, c.path)))
  {
    hide IsChain, Bytes, Descs, AllIn, InRam, Load, Ordered, HeaderOf, NoRepeats, BlockDevice.CacheOk, BlockDevice.Done;
    assert Usable(d.table, d.ram, cs[k]);
  }

  /** The request in progress waits at a sector that is not at hand. */
  lemma StandsFits(d: VirtioBlockDevice, s: State)
    requires Stands(d, s)
    ensures BlocksFit(d, s) && Open(d, s) == d.reqInProgress
  {
    hide Requests, RequestOf, AllUsable, d.Valid, d.bs.Valid, BlockDevice.AtHand, BlockDevice.WellFormed, BlockDevice.Flat, Load, Ready,
         VirtioDisk.Given;
    ValidIs(d);
    if d.reqInProgress {
      d.bs.WaitsMissing();
      assert !BlockDevice.AtHand(s.clusters, s.cache, d.bs.sectorNum, d.bs.blockSize);
    }
  }

  lemma FinishedKeys(d: VirtioBlockDevice, ram0: Ram, was: seq<VirtioBlock.Used>)
    requires Paged(ram0) && d.Finished(ram0, was)
    ensures Paged(d.ram) && d.ram.Keys == ram0.Keys
  {
    hide IsChain, Bytes, Descs, AllIn, InRam, Load, BlockDevice.CacheOk, BlockDevice.Done, BlockDevice.Clear, BlockDevice.Seen;
  }

  /** The answer to the request just finished */
  lemma FinishedAnswer(d: VirtioBlockDevice, ram0: Ram, was: seq<VirtioBlock.Used>, t: Taken)
    requires Paged(ram0) && d.Finished(ram0, was) && Current(d, t) && d.reqPath != [] && d.reqDesc == d.reqPath[0]
    ensures d.used == was + [Entry(d, t)] && AnswerHeld(d, t, ram0, Answered(RecordNow(d), d.ram))
    ensures d.bs.Valid() && DataOf(d, d.bs.before, d.bs.clusters, RecordNow(d))
    ensures d.bs.Disk() == if d.bs.isWrite then BlockDevice.Replaced(d.bs.before, d.bs.start, d.bs.ioBuf) else d.bs.before
  {
    hide IsChain, Bytes, Descs, AllIn, InRam, Load, AskedIn, BlockDevice.CacheOk, BlockDevice.Done, BlockDevice.Replaced,
         BlockDevice.Clear, BlockDevice.Seen, BlockDevice.Narrow, Sectors, OnlyAt, Ready, VirtioDisk.Given;
    d.bs.Completed();
  }

  /** What a request was before the device answered it */
  lemma AnswerStands(d: VirtioBlockDevice, s: State, t: Taken)
    requires d.Valid() && !d.reqInProgress && Paged(s.ram) && d.Finished(s.ram, s.used) && d.reqPath != [] && d.reqDesc == d.reqPath[0]
    requires s.disk == d.bs.before && s.clusters == d.bs.clusters && s.cache == d.bs.cache
    requires AllUsable(d.table, s.ram, s.chains) && |s.ts| <= |s.chains| && |Requests(d.table, s.ts)| == |s.log| + 1
    requires Asking(d, s) == t && Current(d, t)
    ensures var a := Some(Answered(RecordNow(d), d.ram)); Answers(d, s, a) && Stands(d, WithAnswer(d, s, a))
    ensures Paged(d.ram) && d.ram.Keys == s.ram.Keys
  {
    hide IsChain, Bytes, Descs, Requests, RequestOf, Given, AnswerHeld, DataOf, BlockDevice.Replaced, d.Finished, d.bs.Valid, AllUsable,
         BlockDevice.CacheOk, BlockDevice.Done, BlockDevice.WellFormed, BlockDevice.Flat;
    FinishedAnswer(d, s.ram, s.used, t);
    FinishedKeys(d, s.ram, s.used);
    UsableStays(d.table, s.ram, d.ram, s.chains);
    InRange(d, s);
  }

  lemma InRange(d: VirtioBlockDevice, s: State)
    requires DataOf(d, s.disk, s.clusters, RecordNow(d))
    ensures RecordNow(d).sector + |RecordNow(d).data| <= |s.disk|
  {
  }

  lemma BegunGiven(d: VirtioBlockDevice, t: Taken)
    requires d.Valid() && Paged(t.ram) && RequestOf(d.table, t).Some?
    requires d.Begun(t.chain.path, RequestOf(d.table, t).value, d.bs.before)
    requires RequestOf(d.table, t).value.kind == OUT ==> d.Buffered(t.ram, t.chain.path, t.chain.freed, t.clusters, t.cache)
    ensures Current(d, t) && d.bs.blockSize > 0
    ensures Ready(d, t) == BlockDevice.AtHandFrom(t.clusters, t.cache, d.bs.blockSize, d.bs.start, d.bs.sectorCount)
    ensures d.Count(t.chain.path, RequestOf(d.table, t).value) == d.bs.sectorCount
  {
    hide IsChain, Bytes, Descs, AllIn, InRam, Load, BlockDevice.CacheOk, VirtioDisk.Given, BlockDevice.AtHandFrom,
         BlockDevice.Clear, BlockDevice.Seen, BlockDevice.Narrow, Sectors, NoRepeats, Whole, Ordered;
    ValidIs(d);
  }

  /** A request that has been taken, and waits or has been answered */
  lemma TakenStands(d: VirtioBlockDevice, s: State) returns (h: Happening)
    requires d.Valid() && Paged(s.ram) && |s.ts| < |s.chains| && AllUsable(d.table, s.ram, s.chains) && Verdict(d, s) == Served
    requires RequestOf(d.table, NextTaken(s)).Some? && |Requests(d.table, s.ts)| == |s.log| && s.disk == d.bs.before
    requires var c, r := NextTaken(s).chain, RequestOf(d.table, NextTaken(s)).value;
             d.Begun(c.path, r, d.bs.before) && (r.kind == OUT ==> d.Buffered(s.ram, c.path, c.freed, s.clusters, s.cache))
    requires if d.reqInProgress then d.ram == s.ram && d.used == s.used else d.Finished(s.ram, s.used)
    requires d.bs.blockSize > 0
    requires d.reqInProgress <==>
             BlockDevice.AtHandFrom(s.clusters, s.cache, d.bs.blockSize, d.bs.start, d.bs.sectorCount) < d.bs.sectorCount
    requires !d.reqInProgress ==> BlockDevice.SameAtHand(s.clusters, s.cache, d.bs.clusters, d.bs.cache, d.bs.blockSize)
    ensures h.Took? && Told(d, s, h) && Stands(d, After(d, s, h)) && d.ram.Keys == s.ram.Keys && Paged(d.ram)
  {
    hide IsChain, Bytes, Descs, Requests, RequestOf, Given, AnswerHeld, DataOf, Verdict, BlocksFit, AllUsable, Ready, d.Finished, d.Buffered,
         d.Valid, d.bs.Valid, BlockDevice.AtHandFrom, BlockDevice.SameAtHand, BlockDevice.WellFormed, BlockDevice.Flat, BlockDevice.Replaced;
    var t := NextTaken(s);
    RequestsSnoc(d.table, s.ts, t);
    BegunGiven(d, t);
    ValidIs(d);
    var mid := s.(ts := s.ts + [t], clusters := d.bs.clusters, cache := d.bs.cache);
    var answer := if d.reqInProgress then None else Some(Answered(RecordNow(d), d.ram));
    h := Took(d.bs.clusters, d.bs.cache, answer);
    if !d.reqInProgress { AnswerStands(d, mid, t); }
    StandsFits(d, After(d, s, h));
  }

  /** One round of queue_notify: the next chain is taken. */
  method TakeOne(d: VirtioBlockDevice, posted: seq<Chain>, next: nat, ghost s: State) returns (r: Outcome, ghost hs: seq<Happening>)
    requires Stands(d, s) && posted == s.chains && next == |s.ts| < |posted|
    modifies d, d.bs
    ensures if r == Served then |hs| == 1 && hs[0].Took? && Told(d, s, hs[0]) && Stands(d, After(d, s, hs[0]))
            else hs == [] && Stands(d, s) && r == Verdict(d, s)
    ensures d.ram.Keys == old(d.ram.Keys)
  {
    hide IsChain, Bytes, Descs, AllIn, InRam, Load, Requests, AskedIn, Given, BlockDevice.CacheOk, BlockDevice.Done, BlockDevice.Clear,
         BlockDevice.Seen, Sectors, NoRepeats, d.Finished, d.Buffered, d.Valid, d.bs.Valid, Ordered, BlockDevice.AtHandFrom,
         BlockDevice.AtHand, BlockDevice.SameAtHand, Usable, RequestOf, AllUsable, BlockDevice.WellFormed, BlockDevice.Flat, BlocksFit;
    var c := posted[next];
    ghost var t := NextTaken(s);
    ValidIs(d);
    UsableIs(d, posted, next, t);
    assert Verdict(d, s) == if d.reqInProgress && Ordered(Descs(d.table, c.path)) then Busy else d.Due(c.path);
    r := d.Take(c.path[0], c.path, c.malloc, c.freed);
    ValidIs(d);
    hs := [];
    if r == Served {
      if RequestOf(d.table, t).None? {
        hs := [Took(s.clusters, s.cache, None)];
        RequestsSnoc(d.table, s.ts, t);
        StandsFits(d, After(d, s, hs[0]));
      } else {
        ghost var h := TakenStands(d, s);
        hs := [h];
      }
    }
  }

  lemma PlaySnoc(d: VirtioBlockDevice, s: State, hs: seq<Happening>, h: Happening)
    ensures Play(d, s, hs + [h]) == After(d, Play(d, s, hs), h)
    ensures AllTold(d, s, hs + [h]) <==> AllTold(d, s, hs) && Told(d, Play(d, s, hs), h)
  {
    hide Told, After;
    assert (hs + [h])[..|hs|] == hs;
  }

  lemma TookIs(d: VirtioBlockDevice, s: State, h: Happening)
    requires Told(d, s, h) && h.Took?
    ensures After(d, s, h).chains == s.chains && |After(d, s, h).ts| == |s.ts| + 1
  {
    hide Verdict, BlocksFit, Answers, Ready, RequestOf, Requests;
  }

  /** queue_notify: chains are taken until none are left, or the next one cannot be taken. */
  method NotifyQueue(d: VirtioBlockDevice, posted: seq<Chain>, first: nat, ghost s: State)
    returns (r: Outcome, next: nat, ghost hs: seq<Happening>)
    requires Stands(d, s) && posted == s.chains && first == |s.ts|
    modifies d, d.bs
    ensures AllTold(d, s, hs) && Taking(hs) && Stands(d, Play(d, s, hs)) && Settled(d, Play(d, s, hs))
    ensures Play(d, s, hs).chains == posted && next == |Play(d, s, hs).ts| && r == Verdict(d, Play(d, s, hs))
    ensures d.ram.Keys == old(d.ram.Keys)
  {
    hide Told, After, Verdict, Stands, Play, AllTold;
    r, next, hs := Served, first, [];
    NothingTold(d, s);
    StandsRoom(d, s);
    while next < |posted|
      invariant AllTold(d, s, hs) && Taking(hs) && Stands(d, Play(d, s, hs)) && r == Served && d.ram.Keys == old(d.ram.Keys)
      invariant Play(d, s, hs).chains == posted && next == |Play(d, s, hs).ts| <= |posted|
    {
      ghost var more;
      r, more := TakeOne(d, posted, next, Play(d, s, hs));
      if r != Served { return; }
      PlaySnoc(d, s, hs, more[0]);
      TookIs(d, Play(d, s, hs), more[0]);
      hs := hs + [more[0]];
      next := next + 1;
    }
    NoneLeft(d, Play(d, s, hs));
  }

  lemma StandsRoom(d: VirtioBlockDevice, s: State)
    requires Stands(d, s)
    ensures |s.ts| <= |s.chains|
  {
    hide d.Valid, d.bs.Valid, AllUsable, Current, Requests;
  }

  lemma NoneLeft(d: VirtioBlockDevice, s: State)
    ensures |s.ts| >= |s.chains| ==> Verdict(d, s) == Served
  {
  }

  /** A block has been loaded: the request that waited for it may be answered. */
  method LoadOne(d: VirtioBlockDevice, num: nat, i: nat, ghost s: State) returns (ghost h: Happening)
    requires Stands(d, s) && i < |d.bs.cache| && d.bs.cache[i].num == num && !d.bs.cache[i].loaded
    modifies d, d.bs
    ensures h.Loaded? && h.i == i && Told(d, s, h) && Stands(d, After(d, s, h)) && d.ram.Keys == old(d.ram.Keys)
    ensures h.answer.Some? <==> old(d.reqInProgress) && !d.reqInProgress
    ensures After(d, s, h).chains == s.chains && After(d, s, h).ts == s.ts
  {
    hide IsChain, Bytes, Descs, AllIn, InRam, Load, Requests, AskedIn, BlockDevice.CacheOk, BlockDevice.Done, BlockDevice.Clear,
         BlockDevice.Seen, Sectors, NoRepeats, d.Finished, d.Valid, d.bs.Valid, Usable, RequestOf, Given, AllUsable, BlocksFit,
         BlockDevice.WellFormed, BlockDevice.Flat, BlockDevice.AfterLoad, AnswerHeld, DataOf, BlockDevice.Replaced;
    ValidIs(d);
    d.Loaded(num, i);
    ValidIs(d);
    h := Loaded(i, d.bs.clusters, d.bs.cache, None);
    if old(d.reqInProgress) {
      ghost var t := Asking(d, s);
      GivenAlike(d, t, old(RecordNow(d)), RecordNow(d));
      if !d.reqInProgress {
        h := Loaded(i, d.bs.clusters, d.bs.cache, Some(Answered(RecordNow(d), d.ram)));
        AnswerStands(d, s.(clusters := d.bs.clusters, cache := d.bs.cache), t);
      }
    }
    StandsFits(d, After(d, s, h));
  }

  lemma GivenAlike(d: VirtioBlockDevice, t: Taken, r: BlockDevice.Record, q: BlockDevice.Record)
    requires RequestOf(d.table, t).Some? && Given(d, t, r)
    requires q.isWrite == r.isWrite && q.sector == r.sector && |q.data| == |r.data| && (r.isWrite ==> q.data == r.data)
    ensures Given(d, t, q)
  {
  }

  // -----------------------------------------------------------------------------------------
  // Runs
  // -----------------------------------------------------------------------------------------

  /** The chains that steps make available */
  function Chains(steps: seq<Step>): seq<Chain> {
    if steps == [] then []
    else Chains(steps[..|steps| - 1]) + if steps[|steps| - 1].Post? then [steps[|steps| - 1].chain] else []
  }

  /** The guest posts chains whose buffers are distinct bytes of RAM, and has as much memory as before. */
  ghost predicate Allowed(table: seq<Desc>, ram: Ram, s: Step) {
    match s
    case Post(chain) => Usable(table, ram, chain)
    case GuestWrites(memory) => Paged(memory) && memory.Keys == ram.Keys
    case _ => true
  }

  ghost predicate AllAllowed(table: seq<Desc>, ram: Ram, steps: seq<Step>) {
    forall k :: 0 <= k < |steps| ==> Allowed(table, ram, steps[k])
  }

  lemma AllowedStays(table: seq<Desc>, ram: Ram, ram': Ram, steps: seq<Step>)
    requires AllAllowed(table, ram, steps) && Paged(ram') && ram'.Keys == ram.Keys
    ensures AllAllowed(table, ram', steps)
  {
    hide Usable;
    forall k | 0 <= k < |steps| ensures Allowed(table, ram', steps[k]) {
      assert Allowed(table, ram, steps[k]);
      if steps[k].Post? {
        var one := [steps[k].chain];
        assert AllUsable(table, ram, one);
        UsableStays(table, ram, ram', one);
        assert Usable(table, ram', one[0]);
      }
    }
  }

  lemma ChainsOn(steps: seq<Step>, i: nat)
    requires i < |steps|
    ensures Chains(steps[..i + 1]) == Chains(steps[..i]) + if steps[i].Post? then [steps[i].chain] else []
    ensures Chains(steps[..0]) == []
  {
    assert steps[..i + 1][..i] == steps[..i];
  }

  lemma OneTold(d: VirtioBlockDevice, s: State, h: Happening)
    requires Told(d, s, h)
    ensures AllTold(d, s, [h]) && Play(d, s, [h]) == After(d, s, h)
  {
    hide Told, After;
    NothingTold(d, s);
    PlaySnoc(d, s, [], h);
    assert [] + [h] == [h];
  }

  /** Nothing has happened yet. */
  lemma NothingYet(d: VirtioBlockDevice)
    requires d.Valid() && !d.reqInProgress
    ensures d.bs.Valid() && Stands(d, Now(d, [], [], [])) && Chains([]) == []
  {
    hide BlockDevice.CacheOk, BlockDevice.Done, BlockDevice.Clear, BlockDevice.Seen;
    ValidIs(d);
  }

  /** One more chain is available. */
  lemma PostTold(d: VirtioBlockDevice, s: State, c: Chain)
    requires Stands(d, s) && Usable(d.table, d.ram, c)
    ensures StepTold(d, s, Post(c), [Posted(c)]) && Stands(d, Play(d, s, [Posted(c)]))
    ensures Play(d, s, [Posted(c)]).chains == s.chains + [c] && Play(d, s, [Posted(c)]).ts == s.ts
  {
    hide Usable, d.Valid, d.bs.Valid, AllTold, Play, Given, RequestOf, Requests;
    OneTold(d, s, Posted(c));
  }

  lemma RunSnoc(d: VirtioBlockDevice, s: State, steps: seq<Step>, told: seq<seq<Happening>>, hs: seq<Happening>)
    requires RunTold(d, s, steps, told) && |told| < |steps| && StepTold(d, PlayAll(d, s, told), steps[|told|], hs)
    requires told != [] ==> !Ends(d, PlayAll(d, s, told), steps[|told| - 1], told[|told| - 1])
    ensures RunTold(d, s, steps, told + [hs]) && PlayAll(d, s, told + [hs]) == Play(d, PlayAll(d, s, told), hs)
  {
    hide StepTold, Ends, Play;
    assert (told + [hs])[..|told|] == told;
  }

  lemma StandsNow(d: VirtioBlockDevice, s: State)
    requires Stands(d, s)
    ensures d.bs.Valid() && s.cache == d.bs.cache && s.ram == d.ram && Paged(d.ram)
  {
    hide BlockDevice.CacheOk, BlockDevice.Done, AllUsable, Current, Requests;
  }

  /** The guest changes its memory. */
  method StoreOne(d: VirtioBlockDevice, memory: Ram, ghost s: State)
    requires Stands(d, s) && Paged(memory) && memory.Keys == d.ram.Keys
    modifies d`ram
    ensures StepTold(d, s, GuestWrites(memory), [Stored(memory)]) && Stands(d, Play(d, s, [Stored(memory)])) && d.ram == memory
    ensures Play(d, s, [Stored(memory)]).chains == s.chains && Play(d, s, [Stored(memory)]).ts == s.ts
  {
    hide AllUsable, d.Valid, d.bs.Valid, Given, RequestOf, Requests, AllTold, Play;
    UsableStays(d.table, d.ram, memory, s.chains);
    OneTold(d, s, Stored(memory));
    ValidIs(d);
    d.GuestStores(memory);
    ValidIs(d);
  }

  /** One step of a run, as the device takes it */
  method ServeOne(d: VirtioBlockDevice, step: Step, posted: seq<Chain>, first: nat, ghost s: State)
    returns (r: Outcome, next: nat, ghost hs: seq<Happening>)
    requires Stands(d, s) && posted == s.chains && first == |s.ts| && Allowed(d.table, d.ram, step)
    modifies d, d.bs
    ensures StepTold(d, s, step, hs) && Stands(d, Play(d, s, hs)) && d.ram.Keys == old(d.ram.Keys)
    ensures Play(d, s, hs).chains == posted + (if step.Post? then [step.chain] else []) && next == |Play(d, s, hs).ts|
    ensures r == if Notified(step, hs) then Verdict(d, Play(d, s, hs)) else Served
  {
    hide Usable, Told, After, Verdict, Stands, Play, AllTold, d.Valid, d.bs.Valid;
    r, next, hs := Served, first, [];
    NothingTold(d, s);
    StandsNow(d, s);
    match step {
      case Post(chain) =>
        PostTold(d, s, chain);
        hs := [Posted(chain)];
      case Notify =>
        r, next, hs := NotifyQueue(d, posted, first, s);
      case LoadBlock(k) =>
        if k < |d.bs.cache| && !d.bs.cache[k].loaded {
          var open := d.reqInProgress;
          ghost var h := LoadOne(d, d.bs.cache[k].num, k, s);
          OneTold(d, s, h);
          hs := [h];
          if open && !d.reqInProgress {
            ghost var more;
            r, next, more := NotifyQueue(d, posted, first, After(d, s, h));
            PlayOn(d, s, [h], more);
            assert ([h] + more)[1..] == more;
            hs := [h] + more;
          }
        }
      case GuestWrites(memory) =>
        StoreOne(d, memory, s);
        hs := [Stored(memory)];
    }
  }

  /** The device is where a history has come to. */
  ghost predicate AtEnd(d: VirtioBlockDevice, end: State, posted: seq<Chain>, next: nat)
    reads d, d.bs
  {
    d.Valid() && end == Now(d, posted, end.ts, end.log) && next == |end.ts| && Open(d, end) == d.reqInProgress
  }

  /** All steps have been taken, or the last one has ended the run. */
  ghost predicate Complete(d: VirtioBlockDevice, start: State, steps: seq<Step>, told: seq<seq<Happening>>, r: Outcome) {
    if r == Served || r == Busy then |told| == |steps|
    else
      && 0 < |told| <= |steps| && Ends(d, PlayAll(d, start, told), steps[|told| - 1], told[|told| - 1])
      && r == Verdict(d, PlayAll(d, start, told))
  }

  /** A run that has not ended yet */
  ghost predicate Underway(d: VirtioBlockDevice, start: State, steps: seq<Step>, told: seq<seq<Happening>>, posted: seq<Chain>, next: nat)
    reads d, d.bs
  {
    && RunTold(d, start, steps, told) && |told| <= |steps| && Stands(d, PlayAll(d, start, told)) && AllAllowed(d.table, d.ram, steps)
    && PlayAll(d, start, told).chains == posted == Chains(steps[..|told|]) && next == |PlayAll(d, start, told).ts|
  }

  ghost predicate LastEnds(d: VirtioBlockDevice, start: State, steps: seq<Step>, told: seq<seq<Happening>>)
    requires |told| <= |steps|
  {
    told != [] && Ends(d, PlayAll(d, start, told), steps[|told| - 1], told[|told| - 1])
  }

  method ServeNext(d: VirtioBlockDevice, steps: seq<Step>, i: nat, first: nat, available: seq<Chain>, ghost start: State,
                   ghost before: seq<seq<Happening>>)
    returns (r: Outcome, posted: seq<Chain>, next: nat, ghost told: seq<seq<Happening>>)
    requires Underway(d, start, steps, before, available, first) && i == |before| < |steps| && !LastEnds(d, start, steps, before)
    modifies d, d.bs
    ensures Underway(d, start, steps, told, posted, next) && |told| == i + 1
    ensures if r == Served || r == Busy then !LastEnds(d, start, steps, told) else Complete(d, start, steps, told, r)
  {
    hide Usable, Told, After, Verdict, Stands, Play, AllTold, StepTold, Settled, Allowed, AllAllowed, Chains, PlayAll, RunTold,
         Notified, d.Valid, d.bs.Valid;
    ghost var s, ram0 := PlayAll(d, start, before), d.ram;
    StandsNow(d, s);
    ChainsOn(steps, i);
    AllowedAt(d.table, d.ram, steps, i);
    ghost var hs;
    r, next, hs := ServeOne(d, steps[i], available, first, s);
    posted := if steps[i].Post? then available + [steps[i].chain] else available;
    RunSnoc(d, start, steps, before, hs);
    EndsExactly(d, Play(d, s, hs), steps[i], hs, r);
    told := before + [hs];
    StandsNow(d, PlayAll(d, start, told));
    AllowedStays(d.table, ram0, d.ram, steps);
  }

  /** Any interleaving of the driver making chains available, of notifications, of loads and of
      changes to memory has a history, from the memory, used ring, disk and blocks before to those
      after.  The run ends early only when the queue is gone through and its next chain has no room
      for a status, or asks for sectors past the end of the disk. */
  method Serve(d: VirtioBlockDevice, steps: seq<Step>)
    returns (r: Outcome, posted: seq<Chain>, next: nat, ghost start: State, ghost told: seq<seq<Happening>>)
    requires d.Valid() && !d.reqInProgress && AllAllowed(d.table, d.ram, steps)
    modifies d, d.bs
    ensures start == old(Now(d, [], [], []))
    ensures RunTold(d, start, steps, told) && Complete(d, start, steps, told, r)
    ensures AtEnd(d, PlayAll(d, start, told), posted, next) && |told| <= |steps| && posted == Chains(steps[..|told|])
  {
    hide Usable, Ends, Verdict, Stands, AllAllowed, Chains, PlayAll, RunTold, AtEnd, d.Valid, d.bs.Valid;
    NothingYet(d);
    start := Now(d, [], [], []);
    posted, next, told, r := [], 0, [], Served;
    NoneTold(d, start, steps);
    var i: nat := 0;
    while i < |steps|
      invariant i == |told| <= |steps| && Underway(d, start, steps, told, posted, next) && !LastEnds(d, start, steps, told)
      invariant r == Served || r == Busy
    {
      r, posted, next, told := ServeNext(d, steps, i, next, posted, start, told);
      i := i + 1;
      if r != Served && r != Busy { break; }
    }
    StandsEnd(d, PlayAll(d, start, told), posted, next);
  }

  lemma EndsExactly(d: VirtioBlockDevice, after: State, step: Step, hs: seq<Happening>, r: Outcome)
    requires r == if Notified(step, hs) then Verdict(d, after) else Served
    ensures Ends(d, after, step, hs) <==> r != Served && r != Busy
    ensures Ends(d, after, step, hs) ==> r == Verdict(d, after)
  {
    hide Verdict, Notified;
  }

  lemma AllowedAt(table: seq<Desc>, ram: Ram, steps: seq<Step>, i: nat)
    requires AllAllowed(table, ram, steps) && i < |steps|
    ensures Allowed(table, ram, steps[i])
  {
  }

  lemma NoneTold(d: VirtioBlockDevice, s: State, steps: seq<Step>)
    ensures RunTold(d, s, steps, []) && PlayAll(d, s, []) == s && Chains(steps[..0]) == []
  {
  }

  lemma StandsEnd(d: VirtioBlockDevice, s: State, posted: seq<Chain>, next: nat)
    requires Stands(d, s) && s.chains == posted && next == |s.ts|
    ensures AtEnd(d, s, posted, next)
  {
    hide BlockDevice.CacheOk, BlockDevice.Done, AllUsable, Current, Requests;
  }
}
