/** The HTTP block device of block_net.c: blocks of a read-only image are loaded on demand into a
    cache, written data lives in clusters that overlay the image, and requests wait for loads. */
module BlockDevice {
  import opened Arith
  import opened Wrappers

  type Sector = seq<bv8>

  /** sectors_per_cluster */
  const CLUSTER := 8

  /** A cached block; its data counts once it is loaded. */
  datatype CachedBlock = CachedBlock(num: nat, loaded: bool, data: seq<Sector>)

  type Clusters = seq<Option<seq<Sector>>>

  /** The block of a sector, and the sector's place in it. */
  function BlockOf(p: nat, blockSize: nat): nat
    requires blockSize > 0
  {
    p / blockSize
  }

  function InBlock(p: nat, blockSize: nat): nat
    requires blockSize > 0
  {
    p % blockSize
  }

  function BlockStart(num: nat, blockSize: nat): int { num * blockSize }

  lemma BlockParts(p: nat, blockSize: nat)
    requires blockSize > 0
    ensures InBlock(p, blockSize) < blockSize && p == BlockStart(BlockOf(p, blockSize), blockSize) + InBlock(p, blockSize)
  {
  }

  // -----------------------------------------------------------------------------------------
  // What the device holds, and what a read returns
  // -----------------------------------------------------------------------------------------

  predicate WellFormed(clusters: Clusters, image: seq<Sector>) {
    |image| == |clusters| * CLUSTER && forall i :: 0 <= i < |clusters| && clusters[i].Some? ==> |clusters[i].value| == CLUSTER
  }

  /** Sector s of the flat disk: what was written last, or the image. */
  function SectorAt(clusters: Clusters, image: seq<Sector>, s: nat): Sector
    requires WellFormed(clusters, image) && s < |image|
  {
    if clusters[s / CLUSTER].Some? then clusters[s / CLUSTER].value[s % CLUSTER] else image[s]
  }

  function Flat(clusters: Clusters, image: seq<Sector>): (f: seq<Sector>)
    requires WellFormed(clusters, image)
    ensures |f| == |image| && forall s :: 0 <= s < |image| ==> f[s] == SectorAt(clusters, image, s)
  {
    seq(|image|, s requires 0 <= s < |image| => SectorAt(clusters, image, s))
  }

  /** A read that starts at sector `start` misses what was written to sector s: an unwritten
      sector earlier in the request and in the same block makes it take the rest of the block
      from the image. */
  ghost predicate Shadowed(clusters: Clusters, blockSize: nat, start: nat, s: nat)
    requires blockSize > 0 && s / CLUSTER < |clusters|
  {
    clusters[s / CLUSTER].Some? &&
    exists r: nat :: start <= r < s && BlockOf(r, blockSize) == BlockOf(s, blockSize) && clusters[r / CLUSTER].None?
  }

  ghost function Seen(clusters: Clusters, image: seq<Sector>, blockSize: nat, start: nat, s: nat): Sector
    requires WellFormed(clusters, image) && blockSize > 0 && s < |image|
  {
    if Shadowed(clusters, blockSize, start, s) then image[s] else SectorAt(clusters, image, s)
  }

  /** With blocks of one cluster nothing is shadowed. */
  lemma SmallBlocksUnshadowed(clusters: Clusters, start: nat, s: nat)
    requires s / CLUSTER < |clusters|
    ensures !Shadowed(clusters, CLUSTER, start, s)
  {
  }

  /** Nor is anything in a read that stays inside one cluster. */
  lemma OneClusterUnshadowed(clusters: Clusters, blockSize: nat, start: nat, s: nat)
    requires blockSize > 0 && s / CLUSTER < |clusters| && start / CLUSTER == s / CLUSTER
    ensures !Shadowed(clusters, blockSize, start, s)
  {
    forall r: nat | start <= r < s ensures r / CLUSTER == s / CLUSTER {}
  }

  function Replaced(f: seq<Sector>, at: nat, data: seq<Sector>): (g: seq<Sector>)
    requires at + |data| <= |f|
    ensures |g| == |f|
  {
    f[..at] + data + f[at + |data|..]
  }

  /** Filling one cluster from its part of the image changes nothing that is read. */
  lemma AllocatedAlike(clusters: Clusters, image: seq<Sector>, c: nat)
    requires WellFormed(clusters, image) && c < |clusters| && clusters[c].None?
    ensures WellFormed(clusters[c := Some(image[c * CLUSTER..c * CLUSTER + CLUSTER])], image)
    ensures Flat(clusters[c := Some(image[c * CLUSTER..c * CLUSTER + CLUSTER])], image) == Flat(clusters, image)
  {
    var t := clusters[c := Some(image[c * CLUSTER..c * CLUSTER + CLUSTER])];
    forall s | 0 <= s < |image| ensures SectorAt(t, image, s) == SectorAt(clusters, image, s) {
      if s / CLUSTER == c { assert s == c * CLUSTER + s % CLUSTER; }
    }
  }

  /** Writing inside one cluster is writing to the flat disk. */
  lemma ClusterWritten(clusters: Clusters, image: seq<Sector>, s: nat, data: seq<Sector>)
    requires WellFormed(clusters, image) && s + |data| <= |image| && s % CLUSTER + |data| <= CLUSTER && 0 < |data|
    requires clusters[s / CLUSTER].Some?
    ensures var t := clusters[s / CLUSTER := Some(Replaced(clusters[s / CLUSTER].value, s % CLUSTER, data))];
            WellFormed(t, image) && Flat(t, image) == Replaced(Flat(clusters, image), s, data)
  {
    var c, o := s / CLUSTER, s % CLUSTER;
    var t := clusters[c := Some(Replaced(clusters[c].value, o, data))];
    var f, g := Flat(clusters, image), Replaced(Flat(clusters, image), s, data);
    forall k | 0 <= k < |image| ensures SectorAt(t, image, k) == g[k] {
      if k / CLUSTER == c {
        assert k == c * CLUSTER + k % CLUSTER && s == c * CLUSTER + o;
      }
    }
  }

  lemma SameCluster(p: nat, k: nat)
    requires p % CLUSTER + k < CLUSTER
    ensures (p + k) / CLUSTER == p / CLUSTER && (p + k) % CLUSTER == p % CLUSTER + k
  {
    DivUnique(p + k, CLUSTER, p / CLUSTER, p % CLUSTER + k);
  }

  /** Sectors of one cluster lie in one block. */
  lemma SameBlock(p: nat, s: nat, blockSize: nat)
    requires blockSize > 0 && blockSize % CLUSTER == 0 && s / CLUSTER == p / CLUSTER
    ensures BlockOf(s, blockSize) == BlockOf(p, blockSize)
  {
    var m := blockSize / CLUSTER;
    BlockOfCluster(p, blockSize, m);
    BlockOfCluster(s, blockSize, m);
  }

  lemma BlockOfCluster(p: nat, blockSize: nat, m: nat)
    requires m > 0 && blockSize == m * CLUSTER && blockSize > 0
    ensures BlockOf(p, blockSize) == p / CLUSTER / m
  {
    var c, o := p / CLUSTER, p % CLUSTER;
    var b, q := c / m, c % m;
    DigitsRegrouped(b, m, q, CLUSTER, o);
    DivUnique(p, blockSize, b, q * CLUSTER + o);
  }

  /** Blocks are intervals. */
  lemma Between(r: nat, p: nat, s: nat, blockSize: nat)
    requires blockSize > 0 && r <= p <= s && BlockOf(r, blockSize) == BlockOf(s, blockSize)
    ensures BlockOf(p, blockSize) == BlockOf(s, blockSize)
  {
    DivGrows(r, p, blockSize);
    DivGrows(p, s, blockSize);
  }

  /** No unwritten sector from `start` up to p lies in p's block. */
  ghost predicate Clear(clusters: Clusters, blockSize: nat, start: nat, p: nat)
    requires blockSize > 0
  {
    forall r: nat :: start <= r < p && BlockOf(r, blockSize) == BlockOf(p, blockSize) && r / CLUSTER < |clusters| ==>
      clusters[r / CLUSTER].Some?
  }

  /** A written cluster is read as it stands. */
  lemma ClusterSeen(clusters: Clusters, image: seq<Sector>, blockSize: nat, start: nat, p: nat, n: nat)
    requires WellFormed(clusters, image) && blockSize > 0 && blockSize % CLUSTER == 0 && p + n <= |image| && start <= p
    requires 0 < n && p % CLUSTER + n <= CLUSTER && clusters[p / CLUSTER].Some? && Clear(clusters, blockSize, start, p)
    ensures forall s: nat :: p <= s < p + n ==>
      Seen(clusters, image, blockSize, start, s) == clusters[p / CLUSTER].value[p % CLUSTER..p % CLUSTER + n][s - p]
    ensures Clear(clusters, blockSize, start, p + n)
  {
    forall s: nat | p <= s < p + n
      ensures Seen(clusters, image, blockSize, start, s) == clusters[p / CLUSTER].value[p % CLUSTER..p % CLUSTER + n][s - p]
    {
      SameCluster(p, s - p);
      SameBlock(p, s, blockSize);
      forall r: nat | start <= r < s && BlockOf(r, blockSize) == BlockOf(s, blockSize) ensures clusters[r / CLUSTER].Some? {
        if r >= p { SameCluster(p, r - p); }
      }
    }
    forall r: nat | start <= r < p + n && BlockOf(r, blockSize) == BlockOf(p + n, blockSize) && r / CLUSTER < |clusters|
      ensures clusters[r / CLUSTER].Some?
    {
      if r >= p { SameCluster(p, r - p); } else { Between(r, p, p + n, blockSize); }
    }
  }

  /** From an unwritten sector on, the rest of the block is read from the image. */
  lemma BlockSeen(clusters: Clusters, image: seq<Sector>, blockSize: nat, start: nat, p: nat, n: nat)
    requires WellFormed(clusters, image) && blockSize > 0 && p + n <= |image| && start <= p
    requires 0 < n && InBlock(p, blockSize) + n <= blockSize && clusters[p / CLUSTER].None?
    ensures forall s: nat :: p <= s < p + n ==> Seen(clusters, image, blockSize, start, s) == image[s]
    ensures InBlock(p, blockSize) + n == blockSize ==> Clear(clusters, blockSize, start, p + n)
  {
    forall s: nat | p <= s < p + n ensures Seen(clusters, image, blockSize, start, s) == image[s] {
      DivUnique(s, blockSize, BlockOf(p, blockSize), InBlock(p, blockSize) + (s - p));
    }
    if InBlock(p, blockSize) + n == blockSize { ClearAtBoundary(clusters, blockSize, start, p, n); }
  }

  lemma ClearAtBoundary(clusters: Clusters, blockSize: nat, start: nat, p: nat, n: nat)
    requires blockSize > 0 && InBlock(p, blockSize) + n == blockSize
    ensures Clear(clusters, blockSize, start, p + n)
  {
    var b := BlockOf(p, blockSize);
    MulDist(b, 1, blockSize);
    DivUnique(p + n, blockSize, b + 1, 0);
    forall r: nat | r < p + n ensures BlockOf(r, blockSize) != b + 1 {
      if BlockOf(r, blockSize) >= b + 1 { MulLe(b + 1, BlockOf(r, blockSize), blockSize); }
    }
  }

  /** The cluster of a sector inside its block. */
  lemma ClusterInBlock(p: nat, blockSize: nat, c: nat)
    requires blockSize > 0 && blockSize % CLUSTER == 0 && c == p / CLUSTER
    ensures c * CLUSTER == BlockStart(BlockOf(p, blockSize), blockSize) + InBlock(c * CLUSTER, blockSize)
    ensures InBlock(c * CLUSTER, blockSize) + CLUSTER <= blockSize
  {
    var m := blockSize / CLUSTER;
    BlockOfCluster(p, blockSize, m);
    var b, q := c / m, c % m;
    DigitsRegrouped(b, m, q, CLUSTER, 0);
    DivUnique(c * CLUSTER, blockSize, b, q * CLUSTER);
  }

  lemma BlockInImage(p: nat, blockSize: nat, n: nat)
    requires blockSize > 0 && n % blockSize == 0 && p < n
    ensures BlockStart(BlockOf(p, blockSize), blockSize) + blockSize <= n && 0 <= BlockStart(BlockOf(p, blockSize), blockSize)
  {
    var b, k := BlockOf(p, blockSize), n / blockSize;
    if b >= k { MulLe(k, b, blockSize); }
    MulLe(b + 1, k, blockSize);
    MulDist(b, 1, blockSize);
    MulLe(0, b, blockSize);
  }

  lemma WellFormedAt(clusters: Clusters, image: seq<Sector>, c: nat)
    requires WellFormed(clusters, image) && c < |clusters|
    ensures clusters[c].Some? ==> |clusters[c].value| == CLUSTER
  {
  }

  /** Part of a loaded block is part of the image. */
  lemma BlockSlice(b: CachedBlock, image: seq<Sector>, blockSize: nat, p: nat, n: nat)
    requires blockSize > 0 && BlockOk(b, image, blockSize) && b.loaded && InBlock(p, blockSize) + n <= blockSize
    requires p - InBlock(p, blockSize) == BlockStart(b.num, blockSize)
    ensures |b.data| == blockSize && p + n <= |image| && b.data[InBlock(p, blockSize)..InBlock(p, blockSize) + n] == image[p..p + n]
    ensures forall s: nat :: p <= s < p + n ==> image[s] == b.data[InBlock(p, blockSize)..InBlock(p, blockSize) + n][s - p]
  {
    hide InBlock, BlockStart;
    SlicedAgain(image, BlockStart(b.num, blockSize), blockSize, InBlock(p, blockSize), n);
    forall s: nat | p <= s < p + n
      ensures image[s] == b.data[InBlock(p, blockSize)..InBlock(p, blockSize) + n][s - p]
    {
      assert image[p..p + n][s - p] == image[s];
    }
  }

  lemma SlicedAgain(image: seq<Sector>, a: nat, size: nat, o: nat, n: nat)
    requires o + n <= size && a + size <= |image|
    ensures image[a..a + size][o..o + n] == image[a + o..a + o + n]
  {
    var x, y := image[a..a + size], image[a + o..a + o + n];
    forall k | 0 <= k < n ensures x[o..o + n][k] == y[k] {
      assert x[o + k] == image[a + (o + k)];
    }
  }

  lemma HasIt(cache: seq<CachedBlock>, b: CachedBlock)
    requires b in cache
    ensures Has(cache, b.num, b.loaded)
  {
  }

  lemma CacheAlike(cache: seq<CachedBlock>, cache': seq<CachedBlock>, image: seq<Sector>, blockSize: nat)
    requires CacheOk(cache, image, blockSize) && Distinct(cache')
    requires forall b :: b in cache' ==> b in cache || BlockOk(b, image, blockSize)
    ensures CacheOk(cache', image, blockSize)
  {
  }

  lemma CacheDistinct(cache: seq<CachedBlock>, image: seq<Sector>, blockSize: nat)
    requires CacheOk(cache, image, blockSize)
    ensures Distinct(cache)
  {
  }

  lemma NewBlockOk(num: nat, image: seq<Sector>, blockSize: nat)
    requires 0 <= BlockStart(num, blockSize) && BlockStart(num, blockSize) + blockSize <= |image|
    ensures BlockOk(CachedBlock(num, false, []), image, blockSize)
  {
  }

  lemma ReplacedMore(f: seq<Sector>, at: nat, a: seq<Sector>, b: seq<Sector>)
    requires at + |a| + |b| <= |f|
    ensures Replaced(Replaced(f, at, a), at + |a|, b) == Replaced(f, at, a + b)
  {
  }

  // -----------------------------------------------------------------------------------------
  // The cache
  // -----------------------------------------------------------------------------------------

  predicate Uncached(cache: seq<CachedBlock>, num: nat) {
    forall i :: 0 <= i < |cache| ==> cache[i].num != num
  }

  predicate Distinct(cache: seq<CachedBlock>) {
    forall i, j :: 0 <= i < j < |cache| ==> cache[i].num != cache[j].num
  }

  /** Distinct blocks of the image, the loaded ones with their data. */
  predicate CacheOk(cache: seq<CachedBlock>, image: seq<Sector>, blockSize: nat) {
    Distinct(cache) && forall b :: b in cache ==> BlockOk(b, image, blockSize)
  }

  predicate BlockOk(b: CachedBlock, image: seq<Sector>, blockSize: nat) {
    0 <= BlockStart(b.num, blockSize) <= BlockStart(b.num, blockSize) + blockSize <= |image| &&
    (b.loaded ==> b.data == image[BlockStart(b.num, blockSize)..BlockStart(b.num, blockSize) + blockSize])
  }

  /** Whether a block is in the cache, in a given state. */
  ghost predicate Has(cache: seq<CachedBlock>, num: nat, loaded: bool) {
    exists b :: b in cache && b.num == num && b.loaded == loaded
  }

  lemma OnlyOne(cache: seq<CachedBlock>, b: CachedBlock, c: CachedBlock)
    requires Distinct(cache) && b in cache && c in cache && b.num == c.num
    ensures b == c
  {
    var i :| 0 <= i < |cache| && cache[i] == b;
    var j :| 0 <= j < |cache| && cache[j] == c;
    assert cache[i].num == cache[j].num;
    assert i == j;
  }

  function MovedToFront(cache: seq<CachedBlock>, i: nat): seq<CachedBlock>
    requires i < |cache|
  {
    [cache[i]] + cache[..i] + cache[i + 1..]
  }

  /** Block i comes first, and the others stay in their order. */
  predicate InFront(cache: seq<CachedBlock>, i: nat, c: seq<CachedBlock>)
    requires i < |cache|
  {
    && |c| == |cache| && c[0] == cache[i]
    && (forall k :: 0 < k <= i ==> c[k] == cache[k - 1]) && (forall k :: i < k < |c| ==> c[k] == cache[k])
  }

  lemma MovedAlike(cache: seq<CachedBlock>, i: nat)
    requires i < |cache| && Distinct(cache)
    ensures Distinct(MovedToFront(cache, i)) && forall b :: b in MovedToFront(cache, i) <==> b in cache
  {
    var c := MovedToFront(cache, i);
    assert cache == cache[..i] + [cache[i]] + cache[i + 1..];
    forall j, k | 0 <= j < k < |c| ensures c[j].num != c[k].num {
      var j' := if j == 0 then i else if j <= i then j - 1 else j;
      var k' := if k <= i then k - 1 else k;
      assert c[j] == cache[j'] && c[k] == cache[k'] && j' != k';
      assert cache[if j' < k' then j' else k'].num != cache[if j' < k' then k' else j'].num;
    }
  }

  /** bf_find_block: the block, moved to the front of the list if it is cached. */
  method FindBlock(cache: seq<CachedBlock>, num: nat) returns (found: bool, cache': seq<CachedBlock>)
    requires Distinct(cache)
    ensures found <==> !Uncached(cache, num)
    ensures !found ==> cache' == cache
    ensures found ==> exists i :: 0 <= i < |cache| && cache[i].num == num && cache' == MovedToFront(cache, i) && InFront(cache, i, cache')
    ensures found ==> cache' != [] && cache'[0].num == num
    ensures Distinct(cache') && forall b :: b in cache' <==> b in cache
  {
    var i := 0;
    while i < |cache|
      invariant 0 <= i <= |cache| && forall k :: 0 <= k < i ==> cache[k].num != num
    {
      if cache[i].num == num {
        MovedAlike(cache, i);
        return true, MovedToFront(cache, i);
      }
      i := i + 1;
    }
    return false, cache;
  }

  lemma Without(kept: seq<CachedBlock>, i: nat)
    requires i < |kept| && Distinct(kept)
    ensures Distinct(kept[..i] + kept[i + 1..])
    ensures forall b :: b in kept <==> b == kept[i] || b in kept[..i] + kept[i + 1..]
  {
    var c := kept[..i] + kept[i + 1..];
    assert kept == kept[..i] + [kept[i]] + kept[i + 1..];
    forall j, k | 0 <= j < k < |c| ensures c[j].num != c[k].num {
      assert c[j] == kept[if j < i then j else j + 1] && c[k] == kept[if k < i then k else k + 1];
    }
  }

  /** The blocks of a list that are being loaded, in its order. */
  function LoadingOnes(cache: seq<CachedBlock>): seq<CachedBlock> {
    if cache == [] then [] else (if cache[0].loaded then [] else [cache[0]]) + LoadingOnes(cache[1..])
  }

  lemma {:induction false} LoadingAre(c: seq<CachedBlock>)
    ensures forall b :: b in LoadingOnes(c) <==> b in c && !b.loaded
  {
    if c != [] { LoadingAre(c[1..]); assert c == [c[0]] + c[1..]; }
  }

  /** Blocks up to place i of a list and the loading ones behind it. */
  function Kept(cache: seq<CachedBlock>, i: nat): seq<CachedBlock>
    requires i <= |cache|
  {
    cache[..i] + LoadingOnes(cache[i..])
  }

  lemma KeptStep(cache: seq<CachedBlock>, i: nat)
    requires i < |cache|
    ensures i < |Kept(cache, i + 1)| && Kept(cache, i + 1)[i] == cache[i]
    ensures Kept(cache, i) ==
            if cache[i].loaded then Kept(cache, i + 1)[..i] + Kept(cache, i + 1)[i + 1..] else Kept(cache, i + 1)
  {
    assert cache[i..] == [cache[i]] + cache[i + 1..];
    assert cache[..i + 1] == cache[..i] + [cache[i]];
  }

  lemma KeptAll(cache: seq<CachedBlock>)
    ensures Kept(cache, |cache|) == cache
  {
  }

  lemma KeptAre(cache: seq<CachedBlock>, i: nat)
    requires i <= |cache|
    ensures forall b :: b in Kept(cache, i) ==> b in cache
    ensures forall b :: b in cache && !b.loaded ==> b in Kept(cache, i)
    ensures i == 0 ==> forall b :: b in Kept(cache, i) ==> !b.loaded
  {
    LoadingAre(cache[i..]);
    assert cache == cache[..i] + cache[i..];
  }

  /** bf_add_block: least recently used loaded blocks are dropped until there is room, and the
      new block is put in front, not yet loaded. */
  method AddBlock(cache: seq<CachedBlock>, num: nat, max: nat) returns (cache': seq<CachedBlock>)
    requires Distinct(cache) && Uncached(cache, num) && max >= 1
    ensures cache' != [] && cache'[0] == CachedBlock(num, false, []) && Distinct(cache')
    ensures exists i :: 0 <= i <= |cache| && cache'[1..] == Kept(cache, i) && (i == 0 || |cache'| <= max)
    ensures |cache'| >= if |cache| < max then |cache| + 1 else max
    ensures forall b :: b in cache' && b.num != num ==> b in cache
    ensures forall b :: b in cache && !b.loaded ==> b in cache'
    ensures |cache'| <= max || forall b :: b in cache' ==> !b.loaded
  {
    hide Kept, LoadingOnes;
    var kept := cache;
    var i := |cache|;
    KeptAll(cache);
    if |cache| >= max {
      while i > 0 && |kept| >= max
        invariant 0 <= i <= |cache| && kept == Kept(cache, i) && Distinct(kept) && |kept| >= max - 1
      {
        i := i - 1;
        KeptStep(cache, i);
        if kept[i].loaded {
          Without(kept, i);
          kept := kept[..i] + kept[i + 1..];
        }
      }
    }
    cache' := [CachedBlock(num, false, [])] + kept;
    KeptAre(cache, i);
    assert cache'[1..] == kept;
    assert forall k :: 0 <= k < |kept| ==> kept[k] in kept;
  }

  // -----------------------------------------------------------------------------------------
  // Requests
  // -----------------------------------------------------------------------------------------

  /** In a cache of distinct blocks, whatever has the number of the first is the first. */
  lemma OnlyNew(cache: seq<CachedBlock>)
    requires Distinct(cache) && cache != []
    ensures forall b :: b in cache && b.num == cache[0].num ==> b == cache[0]
  {
    forall b | b in cache && b.num == cache[0].num ensures b == cache[0] { OnlyOne(cache, b, cache[0]); }
  }

  /** A request: sectors to read or write from sector `start` on, how many of them are done, the
      caller's buffer, and the flat disk when it started. */
  datatype Request = Request(isWrite: bool, start: nat, index: nat, io: seq<Sector>, before: seq<Sector>)

  ghost predicate ReadTo(clusters: Clusters, image: seq<Sector>, blockSize: nat, r: Request)
    requires blockSize > 0 && WellFormed(clusters, image) && r.start + |r.io| <= |image| && r.index <= |r.io|
  {
    forall s: nat :: r.start <= s < r.start + r.index ==> Seen(clusters, image, blockSize, r.start, s) == r.io[s - r.start]
  }

  /** The first r.index sectors are done. */
  ghost predicate Done(clusters: Clusters, image: seq<Sector>, blockSize: nat, r: Request)
    requires blockSize > 0 && WellFormed(clusters, image)
  {
    && r.index <= |r.io| && r.start + |r.io| <= |image| == |r.before|
    && if r.isWrite then Flat(clusters, image) == Replaced(r.before, r.start, r.io[..r.index])
       else Flat(clusters, image) == r.before && ReadTo(clusters, image, blockSize, r) &&
            (r.index < |r.io| ==> Clear(clusters, blockSize, r.start, r.start + r.index))
  }

  /** n more sectors read. */
  lemma DoneReading(clusters: Clusters, image: seq<Sector>, blockSize: nat, r: Request, data: seq<Sector>, io: seq<Sector>)
    requires blockSize > 0 && WellFormed(clusters, image) && Done(clusters, image, blockSize, r) && !r.isWrite
    requires r.index + |data| <= |r.io| && io == Replaced(r.io, r.index, data)
    requires forall s: nat :: r.start + r.index <= s < r.start + r.index + |data| ==>
      Seen(clusters, image, blockSize, r.start, s) == data[s - (r.start + r.index)]
    requires r.index + |data| < |r.io| ==> Clear(clusters, blockSize, r.start, r.start + r.index + |data|)
    ensures Done(clusters, image, blockSize, r.(index := r.index + |data|, io := io))
  {
    hide Seen, Clear, SectorAt;
  }

  /** n more sectors written to a cluster. */
  lemma DoneWriting(clusters: Clusters, image: seq<Sector>, blockSize: nat, r: Request, p: nat, data: seq<Sector>, t: Clusters)
    requires blockSize > 0 && WellFormed(clusters, image) && Done(clusters, image, blockSize, r) && r.isWrite
    requires p == r.start + r.index && 0 < |data| && r.index + |data| <= |r.io| && data == r.io[r.index..r.index + |data|]
    requires p % CLUSTER + |data| <= CLUSTER && clusters[p / CLUSTER].Some?
    requires t == clusters[p / CLUSTER := Some(Replaced(clusters[p / CLUSTER].value, p % CLUSTER, data))]
    ensures WellFormed(t, image) && Done(t, image, blockSize, r.(index := r.index + |data|))
  {
    hide Flat, Replaced, WellFormed;
    ClusterWritten(clusters, image, p, data);
    ReplacedMore(r.before, r.start, r.io[..r.index], data);
    assert r.io[..r.index + |data|] == r.io[..r.index] + data;
  }

  lemma DoneAlike(clusters: Clusters, image: seq<Sector>, blockSize: nat, r: Request, t: Clusters)
    requires blockSize > 0 && WellFormed(clusters, image) && WellFormed(t, image) && Done(clusters, image, blockSize, r) && r.isWrite
    requires Flat(t, image) == Flat(clusters, image)
    ensures Done(t, image, blockSize, r)
  {
    hide Flat, Replaced, WellFormed;
  }

  lemma BlockNowLoaded(cache: seq<CachedBlock>, image: seq<Sector>, blockSize: nat, i: nat)
    requires CacheOk(cache, image, blockSize) && i < |cache| && !cache[i].loaded
    ensures 0 <= BlockStart(cache[i].num, blockSize) && BlockStart(cache[i].num, blockSize) + blockSize <= |image|
    ensures var b := CachedBlock(cache[i].num, true,
                       image[BlockStart(cache[i].num, blockSize)..BlockStart(cache[i].num, blockSize) + blockSize]);
            && CacheOk(cache[i := b], image, blockSize) && Has(cache[i := b], b.num, true)
            && (forall num: nat, l: bool :: num != b.num && Has(cache, num, l) ==> Has(cache[i := b], num, l))
    ensures !Has(cache, cache[i].num, true)
  {
    hide BlockStart;
    var num := cache[i].num;
    assert BlockOk(cache[i], image, blockSize);
    var b := CachedBlock(num, true, image[BlockStart(num, blockSize)..BlockStart(num, blockSize) + blockSize]);
    var c := cache[i := b];
    assert c[i] in c;
    assert BlockOk(b, image, blockSize);
    forall n: nat, l: bool | n != num && Has(cache, n, l) ensures Has(c, n, l) {
      var e :| e in cache && e.num == n && e.loaded == l;
      var k :| 0 <= k < |cache| && cache[k] == e;
      assert c[k] in c;
    }
    if Has(cache, num, true) {
      var e :| e in cache && e.num == num && e.loaded;
      OnlyOne(cache, e, cache[i]);
    }
  }

  /** Clusters that have come to be written overlap the sectors from lo up to hi. */
  predicate GrownWithin(before: Clusters, after: Clusters, lo: nat, hi: nat) {
    && |before| == |after|
    && (forall c: nat :: c < |before| && after[c].Some? && before[c].None? ==> c * CLUSTER < hi && lo < (c + 1) * CLUSTER)
  }

  lemma GrownMore(a: Clusters, b: Clusters, c: Clusters, lo: nat, hi: nat)
    requires GrownWithin(a, b, lo, hi) && GrownWithin(b, c, lo, hi)
    ensures GrownWithin(a, c, lo, hi)
  {
  }

  lemma NotGrown(a: Clusters, c: nat, data: seq<Sector>, lo: nat, hi: nat)
    ensures GrownWithin(a, a, lo, hi)
    ensures c < |a| && a[c].Some? ==> GrownWithin(a, a[c := Some(data)], lo, hi)
  {
  }

  lemma GrownAt(a: Clusters, p: nat, data: seq<Sector>, lo: nat, hi: nat)
    requires p / CLUSTER < |a| && lo <= p < hi
    ensures GrownWithin(a, a[p / CLUSTER := Some(data)], lo, hi)
  {
  }

  lemma NotLoadedToo(cache: seq<CachedBlock>, b: CachedBlock)
    requires Distinct(cache) && b in cache && !b.loaded
    ensures !Has(cache, b.num, true)
  {
    if Has(cache, b.num, true) {
      var e :| e in cache && e.num == b.num && e.loaded;
      OnlyOne(cache, e, b);
    }
  }

  lemma NotLoadedOf(cache: seq<CachedBlock>, num: nat)
    requires Distinct(cache) && Has(cache, num, false)
    ensures !Has(cache, num, true)
  {
    var b :| b in cache && b.num == num && !b.loaded;
    NotLoadedToo(cache, b);
  }

  lemma UncachedHasNot(cache: seq<CachedBlock>, num: nat)
    requires Uncached(cache, num)
    ensures !Has(cache, num, true)
  {
  }

  /** A sector can be read or written at once: its cluster is written, or its block is loaded. */
  ghost predicate AtHand(clusters: Clusters, cache: seq<CachedBlock>, p: nat, blockSize: nat)
    requires blockSize > 0
  {
    (p / CLUSTER < |clusters| && clusters[p / CLUSTER].Some?) || Has(cache, BlockOf(p, blockSize), true)
  }

  /** The same sectors are at hand. */
  ghost predicate SameAtHand(a: Clusters, before: seq<CachedBlock>, b: Clusters, after: seq<CachedBlock>, blockSize: nat)
    requires blockSize > 0
  {
    forall p: nat :: AtHand(a, before, p, blockSize) <==> AtHand(b, after, p, blockSize)
  }

  ghost predicate AllAtHand(clusters: Clusters, cache: seq<CachedBlock>, blockSize: nat, lo: nat, hi: nat)
    requires blockSize > 0
  {
    forall s: nat :: lo <= s < hi ==> AtHand(clusters, cache, s, blockSize)
  }

  /** How many of n sectors from p on are at hand before the first one that is not. */
  ghost function AtHandFrom(clusters: Clusters, cache: seq<CachedBlock>, blockSize: nat, p: nat, n: nat): (k: nat)
    requires blockSize > 0
    ensures k <= n && AllAtHand(clusters, cache, blockSize, p, p + k) && (k < n ==> !AtHand(clusters, cache, p + k, blockSize))
    decreases n
  {
    if n == 0 || !AtHand(clusters, cache, p, blockSize) then 0 else 1 + AtHandFrom(clusters, cache, blockSize, p + 1, n - 1)
  }

  lemma {:induction false} AtHandCount(clusters: Clusters, cache: seq<CachedBlock>, blockSize: nat, p: nat, n: nat, k: nat)
    requires blockSize > 0 && k <= n && AllAtHand(clusters, cache, blockSize, p, p + k)
    requires k < n ==> !AtHand(clusters, cache, p + k, blockSize)
    ensures AtHandFrom(clusters, cache, blockSize, p, n) == k
    decreases n
  {
    hide AtHand;
    if k > 0 { AtHandCount(clusters, cache, blockSize, p + 1, n - 1, k - 1); }
  }

  lemma SomeNotAtHand(clusters: Clusters, cache: seq<CachedBlock>, blockSize: nat, p: nat, n: nat)
    requires blockSize > 0
    ensures AtHandFrom(clusters, cache, blockSize, p, n) < n <==>
            exists s: nat :: p <= s < p + n && !AtHand(clusters, cache, s, blockSize)
  {
    hide AtHand;
    var k := AtHandFrom(clusters, cache, blockSize, p, n);
    assert k < n ==> !AtHand(clusters, cache, p + k, blockSize);
  }

  lemma AtHandAlike(clusters: Clusters, a: seq<CachedBlock>, b: seq<CachedBlock>, blockSize: nat)
    requires blockSize > 0 && forall e :: e in a <==> e in b
    ensures SameAtHand(clusters, a, clusters, b, blockSize)
  {
    hide BlockOf;
  }

  /** Writing to a written cluster */
  lemma AtHandWritten(clusters: Clusters, cache: seq<CachedBlock>, c: nat, data: seq<Sector>, blockSize: nat)
    requires blockSize > 0 && c < |clusters| && clusters[c].Some?
    ensures SameAtHand(clusters, cache, clusters[c := Some(data)], cache, blockSize)
  {
    hide Has, BlockOf;
  }

  /** A new cluster in a loaded block */
  lemma AtHandAllocated(clusters: Clusters, cache: seq<CachedBlock>, p: nat, data: seq<Sector>, blockSize: nat)
    requires blockSize > 0 && blockSize % CLUSTER == 0 && p / CLUSTER < |clusters| && Has(cache, BlockOf(p, blockSize), true)
    ensures SameAtHand(clusters, cache, clusters[p / CLUSTER := Some(data)], cache, blockSize)
  {
    hide Has, BlockOf;
    forall s: nat | s / CLUSTER == p / CLUSTER ensures BlockOf(s, blockSize) == BlockOf(p, blockSize) { SameBlock(p, s, blockSize); }
  }

  lemma AtHandMore(a: Clusters, ca: seq<CachedBlock>, b: Clusters, cb: seq<CachedBlock>, c: Clusters, cc: seq<CachedBlock>, blockSize: nat)
    requires blockSize > 0 && SameAtHand(a, ca, b, cb, blockSize) && SameAtHand(b, cb, c, cc, blockSize)
    ensures SameAtHand(a, ca, c, cc, blockSize)
  {
    hide AtHand;
  }

  lemma AtHandOn(a: Clusters, ca: seq<CachedBlock>, b: Clusters, cb: seq<CachedBlock>, blockSize: nat, lo: nat, mid: nat, hi: nat)
    requires blockSize > 0 && SameAtHand(a, ca, b, cb, blockSize)
    requires AllAtHand(a, ca, blockSize, lo, mid) && AllAtHand(b, cb, blockSize, mid, hi)
    ensures AllAtHand(a, ca, blockSize, lo, hi)
  {
    hide AtHand;
  }

  lemma SameAtHandAll(a: Clusters, ca: seq<CachedBlock>, b: Clusters, cb: seq<CachedBlock>, blockSize: nat, lo: nat, hi: nat)
    requires blockSize > 0 && SameAtHand(a, ca, b, cb, blockSize)
    ensures AllAtHand(a, ca, blockSize, lo, hi) <==> AllAtHand(b, cb, blockSize, lo, hi)
  {
    hide AtHand;
  }

  lemma NotLoadedEarlier(a: Clusters, ca: seq<CachedBlock>, b: Clusters, cb: seq<CachedBlock>, p: nat, blockSize: nat)
    requires blockSize > 0 && SameAtHand(a, ca, b, cb, blockSize) && !AtHand(b, cb, p, blockSize)
    ensures !AtHand(a, ca, p, blockSize) && !Has(ca, BlockOf(p, blockSize), true)
  {
    hide Has, BlockOf;
  }

  lemma NoneYet(clusters: Clusters, cache: seq<CachedBlock>, blockSize: nat, p: nat)
    requires blockSize > 0
    ensures AllAtHand(clusters, cache, blockSize, p, p) && SameAtHand(clusters, cache, clusters, cache, blockSize)
  {
    hide AtHand;
  }

  lemma ClusterAtHand(clusters: Clusters, cache: seq<CachedBlock>, blockSize: nat, p: nat, n: nat)
    requires blockSize > 0 && p % CLUSTER + n <= CLUSTER && p / CLUSTER < |clusters| && clusters[p / CLUSTER].Some?
    ensures AllAtHand(clusters, cache, blockSize, p, p + n)
  {
    hide Has, BlockOf;
    forall s: nat | p <= s < p + n ensures AtHand(clusters, cache, s, blockSize) { SameCluster(p, s - p); }
  }

  lemma BlockAtHand(clusters: Clusters, cache: seq<CachedBlock>, blockSize: nat, p: nat, n: nat)
    requires blockSize > 0 && InBlock(p, blockSize) + n <= blockSize && Has(cache, BlockOf(p, blockSize), true)
    ensures AllAtHand(clusters, cache, blockSize, p, p + n)
  {
    hide Has;
    forall s: nat | p <= s < p + n ensures BlockOf(s, blockSize) == BlockOf(p, blockSize) {
      DivUnique(s, blockSize, p / blockSize, p % blockSize + (s - p));
    }
  }

  /** The cache when block i of it has been loaded */
  function AfterLoad(cache: seq<CachedBlock>, i: nat, image: seq<Sector>, blockSize: nat): seq<CachedBlock>
    requires i < |cache|
  {
    var at := BlockStart(cache[i].num, blockSize);
    if 0 <= at && at + blockSize <= |image| then cache[i := CachedBlock(cache[i].num, true, image[at..at + blockSize])] else cache
  }

  class Device {
    const image: seq<Sector>
    const blockSize: nat
    const maxCached: nat
    var cache: seq<CachedBlock>
    var clusters: Clusters

    var isWrite: bool
    var sectorNum: nat
    var curBlockNum: int
    var sectorIndex: nat
    var sectorCount: nat
    var ioBuf: seq<Sector>

    /** How often the completion callback has been called. */
    var completions: nat

    /** Whether a request is waiting for a block, where the last request started, and the flat
        disk at its start. */
    ghost var waiting: bool
    ghost var start: nat
    ghost var before: seq<Sector>

    ghost predicate Sized()
      reads `cache, `clusters
    {
      && blockSize > 0 && blockSize % CLUSTER == 0 && |image| % blockSize == 0 && maxCached >= 1
      && WellFormed(clusters, image) && CacheOk(cache, image, blockSize)
    }

    ghost function Disk(): seq<Sector>
      reads `clusters
      requires WellFormed(clusters, image)
    {
      Flat(clusters, image)
    }

    /** The request in progress, and that it has done its first sectorIndex sectors. */
    ghost function Now(): Request
      reads `isWrite, `sectorIndex, `ioBuf, `start, `before
    {
      Request(isWrite, start, sectorIndex, ioBuf, before)
    }

    ghost predicate Progress()
      reads `clusters, `isWrite, `sectorNum, `sectorIndex, `sectorCount, `ioBuf, `start, `before
      requires blockSize > 0 && WellFormed(clusters, image)
    {
      sectorNum == start + sectorIndex && sectorCount == |ioBuf| && Done(clusters, image, blockSize, Now())
    }

    /** A load still to come is never taken for one that a request waits for. */
    ghost predicate Settled()
      reads `cache, `curBlockNum
    {
      curBlockNum < 0 || Has(cache, curBlockNum, true)
    }

    /** Between events: a waiting request waits for a block that is being loaded. */
    ghost predicate Valid()
      reads this
    {
      Sized() && Progress() &&
      if waiting then
        sectorIndex < sectorCount && curBlockNum == BlockOf(sectorNum, blockSize) &&
                       Has(cache, BlockOf(sectorNum, blockSize), false) && Unwritten()
      else
        sectorIndex == sectorCount && Settled()
    }

    /** The next sector is in no cluster that has been written. */
    ghost predicate Unwritten()
      reads `clusters, `sectorNum
    {
      sectorNum / CLUSTER < |clusters| && clusters[sectorNum / CLUSTER].None?
    }

    /** A device with nothing cached and nothing written. */
    constructor (disk: seq<Sector>, size: nat, max: nat)
      requires size > 0 && size % CLUSTER == 0 && |disk| % size == 0 && max >= 1
      ensures Valid() && !waiting && Disk() == disk == image && blockSize == size && completions == 0
      ensures clusters == seq(|disk| / CLUSTER, i => None) && cache == [] && before == disk && !isWrite
    {
      image, blockSize, maxCached := disk, size, max;
      cache, curBlockNum, completions := [], -1, 0;
      clusters := seq(|disk| / CLUSTER, i => None);
      isWrite, sectorNum, sectorIndex, sectorCount, ioBuf := false, 0, 0, 0, [];
      waiting, start, before := false, 0, disk;
      new;
      WholeClusters(|disk|, size);
      assert Disk() == disk;
    }

    /** file_buffer_write: the request's next n sectors go to a cluster. */
    method WriteStep(n: nat)
      requires Sized() && Progress() && isWrite && 0 < n <= sectorCount - sectorIndex && sectorNum < |image|
      requires sectorNum % CLUSTER + n <= CLUSTER && clusters[sectorNum / CLUSTER].Some?
      modifies this`clusters, this`sectorIndex, this`sectorNum
      ensures Sized() && Progress() && sectorIndex == old(sectorIndex) + n
      ensures GrownWithin(old(clusters), clusters, start, start + sectorCount)
      ensures SameAtHand(old(clusters), cache, clusters, cache, blockSize)
    {
      hide CacheOk, Done, Replaced, WellFormed, Flat, GrownWithin, SameAtHand;
      InRange();
      WellFormedAt(clusters, image, sectorNum / CLUSTER);
      var c, offset := sectorNum / CLUSTER, sectorNum % CLUSTER;
      NotGrown(clusters, c, Replaced(clusters[c].value, offset, ioBuf[sectorIndex..sectorIndex + n]), start, start + sectorCount);
      var data := ioBuf[sectorIndex..sectorIndex + n];
      var t := clusters[c := Some(Replaced(clusters[c].value, offset, data))];
      AtHandWritten(clusters, cache, c, Replaced(clusters[c].value, offset, data), blockSize);
      DoneWriting(clusters, image, blockSize, Now(), sectorNum, data, t);
      clusters := t;
      sectorIndex := sectorIndex + n;
      sectorNum := sectorNum + n;
    }

    /** file_buffer_read: the request's next n sectors come from a cluster. */
    method ReadStep(n: nat)
      requires Sized() && Progress() && !isWrite && 0 < n <= sectorCount - sectorIndex && sectorNum < |image|
      requires sectorNum % CLUSTER + n <= CLUSTER && clusters[sectorNum / CLUSTER].Some?
      modifies this`ioBuf, this`sectorIndex, this`sectorNum
      ensures Sized() && Progress() && sectorIndex == old(sectorIndex) + n
    {
      hide CacheOk, Seen, Clear, Done, Replaced, WellFormed, Flat;
      InRange();
      WellFormedAt(clusters, image, sectorNum / CLUSTER);
      ProgressBounds();
      var c, offset := sectorNum / CLUSTER, sectorNum % CLUSTER;
      var data := clusters[c].value[offset..offset + n];
      ClearHere();
      ClusterSeen(clusters, image, blockSize, start, sectorNum, n);
      DoneReading(clusters, image, blockSize, Now(), data, Replaced(ioBuf, sectorIndex, data));
      ioBuf := Replaced(ioBuf, sectorIndex, data);
      sectorIndex := sectorIndex + n;
      sectorNum := sectorNum + n;
    }

    lemma ProgressBounds()
      requires Sized() && Progress()
      ensures sectorIndex <= sectorCount == |ioBuf| && start + sectorCount <= |image|
    {
    }

    lemma ClearHere()
      requires Sized() && Progress() && sectorIndex < sectorCount && !isWrite
      ensures Clear(clusters, blockSize, start, sectorNum)
    {
    }

    /** The request's next n sectors, read from a loaded block. */
    method BlockStep(n: nat, b: CachedBlock)
      requires Sized() && Progress() && !isWrite && b in cache && b.loaded && b.num == BlockOf(sectorNum, blockSize)
      requires clusters[sectorNum / CLUSTER].None? && sectorIndex < sectorCount
      requires n == if sectorCount - sectorIndex < blockSize - InBlock(sectorNum, blockSize) then sectorCount - sectorIndex
                    else blockSize - InBlock(sectorNum, blockSize)
      modifies this`ioBuf, this`sectorIndex, this`sectorNum
      ensures Sized() && Progress() && sectorIndex == old(sectorIndex) + n
    {
      hide Seen, Clear, Has, Done, Replaced, WellFormed, Flat, BlockOf, InBlock, BlockStart;
      InRange();
      BlockParts(sectorNum, blockSize);
      var offset := InBlock(sectorNum, blockSize);
      assert BlockOk(b, image, blockSize);
      BlockSlice(b, image, blockSize, sectorNum, n);
      BlockSeen(clusters, image, blockSize, start, sectorNum, n);
      var data := b.data[offset..offset + n];
      DoneReading(clusters, image, blockSize, Now(), data, Replaced(ioBuf, sectorIndex, data));
      ioBuf := Replaced(ioBuf, sectorIndex, data);
      sectorIndex := sectorIndex + n;
      sectorNum := sectorNum + n;
    }

    /** A cluster for the sector to be written, with what the loaded block has there. */
    method Allocate(b: CachedBlock)
      requires Sized() && Progress() && isWrite && b in cache && b.loaded && b.num == BlockOf(sectorNum, blockSize)
      requires sectorIndex < sectorCount && clusters[sectorNum / CLUSTER].None?
      modifies this`clusters
      ensures Sized() && Progress() && sectorNum / CLUSTER < |clusters| && clusters[sectorNum / CLUSTER].Some?
      ensures GrownWithin(old(clusters), clusters, start, start + sectorCount)
      ensures SameAtHand(old(clusters), cache, clusters, cache, blockSize)
    {
      hide Seen, Clear, Done, Replaced, WellFormed, Flat, BlockOf, InBlock, BlockStart, GrownWithin, SameAtHand, Has;
      InRange();
      HasIt(cache, b);
      var c := sectorNum / CLUSTER;
      var offset := InBlock(c * CLUSTER, blockSize);
      ClusterInBlock(sectorNum, blockSize, c);
      assert BlockOk(b, image, blockSize);
      BlockSlice(b, image, blockSize, c * CLUSTER, CLUSTER);
      AtHandAllocated(clusters, cache, sectorNum, b.data[offset..offset + CLUSTER], blockSize);
      AllocatedAlike(clusters, image, c);
      DoneAlike(clusters, image, blockSize, Now(), clusters[c := Some(b.data[offset..offset + CLUSTER])]);
      ProgressBounds();
      GrownAt(clusters, sectorNum, b.data[offset..offset + CLUSTER], start, start + sectorCount);
      clusters := clusters[c := Some(b.data[offset..offset + CLUSTER])];
    }

    /** One round of bf_rw_async1 for a sector not written yet: take the block from the cache, or
        wait until it is loaded. */
    method BlockRound() returns (wait: bool)
      requires Sized() && Progress() && sectorIndex < sectorCount && sectorNum / CLUSTER < |clusters|
      requires clusters[sectorNum / CLUSTER].None?
      modifies this`cache, this`clusters, this`ioBuf, this`sectorIndex, this`sectorNum, this`curBlockNum
      ensures Sized() && Progress() && sectorIndex <= sectorCount
      ensures isWrite ==> ioBuf == old(ioBuf)
      ensures !isWrite ==> clusters == old(clusters)
      ensures wait ==> sectorIndex < sectorCount && curBlockNum == BlockOf(sectorNum, blockSize) &&
                       Has(cache, BlockOf(sectorNum, blockSize), false) && Unwritten()
      ensures !wait ==> Settled()
      ensures !wait && sectorIndex == old(sectorIndex) ==>
                sectorNum == old(sectorNum) && sectorNum / CLUSTER < |clusters| && clusters[sectorNum / CLUSTER].Some?
      ensures sectorIndex >= old(sectorIndex)
      ensures GrownWithin(old(clusters), clusters, start, start + sectorCount)
      ensures if wait then sectorIndex == old(sectorIndex) && !AtHand(old(clusters), old(cache), sectorNum, blockSize)
              else SameAtHand(old(clusters), old(cache), clusters, cache, blockSize) &&
                   AllAtHand(clusters, cache, blockSize, old(sectorNum), start + sectorIndex)
    {
      hide CacheOk, Has, Done, Clear, WellFormed, Flat, BlockOf, InBlock, BlockStart, GrownWithin, SameAtHand, AllAtHand;
      NoneYet(clusters, cache, blockSize, sectorNum);
      NotGrown(clusters, 0, [], start, start + sectorCount);
      InRange();
      ProgressBounds();
      BlockParts(sectorNum, blockSize);
      var n := sectorCount - sectorIndex;
      var offset := InBlock(sectorNum, blockSize);
      if n > blockSize - offset { n := blockSize - offset; }
      var ready, b := LookUp(BlockOf(sectorNum, blockSize));
      if !ready { return true; }
      ghost var c := clusters;
      if isWrite {
        Allocate(b);
        AtHandMore(c, old(cache), c, cache, clusters, cache, blockSize);
        NoneYet(clusters, cache, blockSize, sectorNum);
        ProgressBounds();
        HasIt(cache, b);
        return false;
      }
      HasIt(cache, b);
      BlockAtHand(clusters, cache, blockSize, sectorNum, n);
      BlockStep(n, b);
      ProgressBounds();
      curBlockNum := -1;
      wait := false;
    }

    /** The block, if it is cached and loaded; if it is not cached, loading starts. */
    method LookUp(blockNum: nat) returns (ready: bool, b: CachedBlock)
      requires Sized() && sectorNum < |image| && blockNum == BlockOf(sectorNum, blockSize)
      modifies this`cache, this`curBlockNum
      ensures Sized() && curBlockNum == blockNum
      ensures if ready then b in cache && b.loaded && b.num == blockNum else Has(cache, blockNum, false)
      ensures ready <==> Has(old(cache), blockNum, true)
      ensures ready ==> SameAtHand(clusters, old(cache), clusters, cache, blockSize)
    {
      hide CacheOk, Has, WellFormed, BlockOf, BlockStart, SameAtHand;
      curBlockNum := blockNum;
      CacheDistinct(cache, image, blockSize);
      BlockInImage(sectorNum, blockSize, |image|);
      var found, moved := FindBlock(cache, blockNum);
      CacheAlike(cache, moved, image, blockSize);
      cache := moved;
      if found {
        b := cache[0];
        HasIt(cache, b);
        AtHandAlike(clusters, old(cache), cache, blockSize);
        if b.loaded { HasIt(old(cache), b); } else { NotLoadedToo(old(cache), b); }
        ready := b.loaded;
      } else {
        UncachedHasNot(cache, blockNum);
        var more := AddBlock(cache, blockNum, maxCached);
        NewBlockOk(blockNum, image, blockSize);
        OnlyNew(more);
        CacheAlike(cache, more, image, blockSize);
        cache := more;
        b := cache[0];
        HasIt(cache, b);
        ready := false;
      }
    }

    /** What is left of a request: sectors, and a cluster to be allocated first. */
    ghost function Ahead(): (int, nat)
      reads `sectorCount, `sectorIndex, `sectorNum, `clusters
    {
      (sectorCount - sectorIndex, if sectorNum / CLUSTER < |clusters| && clusters[sectorNum / CLUSTER].Some? then 0 else 1)
    }

    /** One round of bf_rw_async1: sectors of one cluster, or of one block. */
    method Round() returns (wait: bool)
      requires Sized() && Progress() && Settled() && sectorIndex < sectorCount
      modifies this`cache, this`clusters, this`ioBuf, this`sectorIndex, this`sectorNum, this`curBlockNum
      ensures Sized() && Progress() && sectorIndex <= sectorCount
      ensures isWrite ==> ioBuf == old(ioBuf)
      ensures !isWrite ==> clusters == old(clusters)
      ensures wait ==> sectorIndex < sectorCount && curBlockNum == BlockOf(sectorNum, blockSize) &&
                       Has(cache, BlockOf(sectorNum, blockSize), false) && Unwritten()
      ensures !wait ==> Settled() && Ahead().0 <= old(Ahead()).0 && (Ahead().0 == old(Ahead()).0 ==> Ahead().1 < old(Ahead()).1)
      ensures GrownWithin(old(clusters), clusters, start, start + sectorCount)
      ensures if wait then sectorIndex == old(sectorIndex) && !AtHand(old(clusters), old(cache), sectorNum, blockSize)
              else SameAtHand(old(clusters), old(cache), clusters, cache, blockSize) &&
                   AllAtHand(clusters, cache, blockSize, old(sectorNum), start + sectorIndex)
    {
      hide CacheOk, Has, Done, Clear, WellFormed, Flat, BlockOf, InBlock, BlockStart, GrownWithin, SameAtHand, AllAtHand, AtHand,
           Unwritten;
      NotGrown(clusters, 0, [], start, start + sectorCount);
      NoneYet(clusters, cache, blockSize, sectorNum);
      InRange();
      if clusters[sectorNum / CLUSTER].Some? {
        var n := sectorCount - sectorIndex;
        var offset := sectorNum % CLUSTER;
        if n > CLUSTER - offset { n := CLUSTER - offset; }
        ghost var c, p := clusters, sectorNum;
        ClusterAtHand(clusters, cache, blockSize, sectorNum, n);
        if isWrite {
          WriteStep(n);
          SameAtHandAll(c, cache, clusters, cache, blockSize, p, p + n);
        } else {
          ReadStep(n);
        }
        ProgressBounds();
        wait := false;
      } else {
        wait := BlockRound();
      }
    }

    /** bf_rw_async1.  It returns whether the request is waiting for a block. */
    method ReadWrite(isSync: bool) returns (pending: bool)
      requires Sized() && Progress() && Settled()
      modifies this`cache, this`clusters, this`ioBuf, this`sectorIndex, this`sectorNum, this`curBlockNum,
        this`completions, this`waiting
      ensures Valid() && pending == waiting
      ensures isWrite ==> ioBuf == old(ioBuf)
      ensures !isWrite ==> clusters == old(clusters)
      ensures completions == if pending || isSync then old(completions) else old(completions) + 1
      ensures GrownWithin(old(clusters), clusters, start, start + sectorCount)
      ensures pending ==> curBlockNum >= 0 && !Has(old(cache), curBlockNum, true)
      ensures old(sectorIndex) <= sectorIndex <= sectorCount && (pending <==> sectorIndex < sectorCount)
      ensures sectorIndex - old(sectorIndex) ==
              AtHandFrom(old(clusters), old(cache), blockSize, old(sectorNum), sectorCount - old(sectorIndex))
      ensures !pending ==> SameAtHand(old(clusters), old(cache), clusters, cache, blockSize)
    {
      hide *;
      SizedParts();
      NotGrown(clusters, 0, [], start, start + sectorCount);
      NoneYet(clusters, cache, blockSize, sectorNum);
      SectorHere();
      ProgressBounds();
      while sectorIndex < sectorCount
        invariant blockSize > 0 && WellFormed(clusters, image) && Sized() && Progress() && Settled() && sectorIndex <= sectorCount
        invariant isWrite ==> ioBuf == old(ioBuf)
        invariant !isWrite ==> clusters == old(clusters)
        invariant completions == old(completions)
        invariant GrownWithin(old(clusters), clusters, start, start + sectorCount) && old(sectorIndex) <= sectorIndex
        invariant SameAtHand(old(clusters), old(cache), clusters, cache, blockSize)
        invariant AllAtHand(old(clusters), old(cache), blockSize, old(sectorNum), start + sectorIndex)
        decreases Ahead().0, Ahead().1
      {
        ghost var a, c, p := clusters, cache, start + sectorIndex;
        SectorHere();
        AheadIs();
        var wait := Round();
        SizedParts();
        GrownMore(old(clusters), a, clusters, start, start + sectorCount);
        if wait {
          SectorHere();
          NotLoadedEarlier(old(clusters), old(cache), a, c, sectorNum, blockSize);
          AtHandCount(old(clusters), old(cache), blockSize, old(sectorNum), sectorCount - old(sectorIndex), sectorIndex - old(sectorIndex));
          waiting := true;
          ValidParts();
          return true;
        }
        AheadIs();
        ProgressBounds();
        SameAtHandAll(a, c, clusters, cache, blockSize, p, start + sectorIndex);
        AtHandOn(old(clusters), old(cache), a, c, blockSize, old(sectorNum), p, start + sectorIndex);
        AtHandMore(old(clusters), old(cache), a, c, clusters, cache, blockSize);
      }
      AtHandCount(old(clusters), old(cache), blockSize, old(sectorNum), sectorCount - old(sectorIndex), sectorIndex - old(sectorIndex));
      waiting := false;
      if !isSync { completions := completions + 1; }
      ValidParts();
      pending := false;
    }

    lemma SizedParts()
      requires Sized()
      ensures blockSize > 0 && WellFormed(clusters, image)
    {
    }

    lemma ValidParts()
      ensures Valid() && !waiting ==> Sized() && Settled()
      ensures Sized() ==> blockSize > 0 && WellFormed(clusters, image)
      ensures Sized() && Progress() && sectorIndex == sectorCount && !waiting && Settled() ==> Valid()
      ensures (Sized() && Progress() && sectorIndex < sectorCount && waiting &&
               curBlockNum == BlockOf(sectorNum, blockSize) && Has(cache, BlockOf(sectorNum, blockSize), false) && Unwritten()) ==> Valid()
    {
      hide CacheOk, WellFormed, Done, Has;
    }

    /** A waiting request waits at a sector that is not at hand. */
    lemma WaitsMissing()
      requires Valid() && waiting
      ensures start <= sectorNum < start + sectorCount && !AtHand(clusters, cache, sectorNum, blockSize)
    {
      hide WellFormed, Done, Has, BlockOf;
      CacheDistinct(cache, image, blockSize);
      NotLoadedOf(cache, BlockOf(sectorNum, blockSize));
    }

    lemma AheadIs()
      ensures Ahead().0 == sectorCount - sectorIndex
    {
    }

    lemma SectorHere()
      requires Sized() && Progress()
      ensures sectorNum == start + sectorIndex
    {
    }

    lemma InRange()
      requires Sized() && Progress() && sectorIndex < sectorCount
      ensures sectorNum < |image| && sectorNum / CLUSTER < |clusters|
    {
      hide CacheOk, Clear, Flat, ReadTo, Replaced;
      assert |image| == |clusters| * CLUSTER;
    }

    /** bf_read_async and bf_write_async.  No other request may be in progress. */
    method Submit(write: bool, sector: nat, buf: seq<Sector>) returns (pending: bool)
      requires Valid() && !waiting && sector + |buf| <= |image|
      modifies this
      ensures Valid() && pending == waiting && completions == old(completions)
      ensures start == sector && isWrite == write && sectorCount == |buf| && before == old(Disk())
      ensures write ==> ioBuf == buf
      ensures GrownWithin(old(clusters), clusters, sector, sector + |buf|)
      ensures !write ==> clusters == old(clusters)
      ensures sectorIndex == AtHandFrom(old(clusters), old(cache), blockSize, sector, |buf|) && (pending <==> sectorIndex < |buf|)
      ensures pending <==> exists s: nat :: sector <= s < sector + |buf| && !AtHand(old(clusters), old(cache), s, blockSize)
      ensures !pending ==> SameAtHand(old(clusters), old(cache), clusters, cache, blockSize)
    {
      hide *;
      ValidParts();
      SomeNotAtHand(clusters, cache, blockSize, sector, |buf|);
      isWrite, sectorNum, ioBuf, sectorCount, sectorIndex := write, sector, buf, |buf|, 0;
      start, before := sector, Disk();
      Started();
      pending := ReadWrite(true);
    }

    lemma Started()
      requires Sized() && sectorNum == start && sectorIndex == 0 && sectorCount == |ioBuf|
      requires start + sectorCount <= |image| && before == Disk()
      ensures Progress()
    {
      assert Replaced(before, start, ioBuf[..0]) == before;
    }

    /** The buffer of a write is the caller's memory: whatever is not written yet may change. */
    method Reuse(rest: seq<Sector>)
      requires Valid() && waiting && isWrite && |rest| == sectorCount - sectorIndex
      modifies this`ioBuf
      ensures Valid() && ioBuf == old(ioBuf)[..sectorIndex] + rest
    {
      hide CacheOk, Has, Clear, Flat, Replaced;
      ioBuf := ioBuf[..sectorIndex] + rest;
      assert ioBuf[..sectorIndex] == old(ioBuf)[..sectorIndex];
    }

    /** bf_update_block for a block whose load completes.  A request waiting for it goes on. */
    method Loaded(num: nat, i: nat)
      requires Valid() && i < |cache| && cache[i].num == num && !cache[i].loaded
      modifies this
      ensures Valid() && start == old(start) && isWrite == old(isWrite) && sectorCount == old(sectorCount) && before == old(before)
      ensures isWrite ==> ioBuf == old(ioBuf)
      ensures Disk() == old(Disk()) || (old(waiting) && isWrite)
      ensures completions == old(completions) + if old(waiting) && !waiting then 1 else 0
      ensures waiting ==> old(waiting)
      ensures GrownWithin(old(clusters), clusters, start, start + sectorCount) && (!isWrite ==> clusters == old(clusters))
      ensures curBlockNum == num ==> !waiting
      ensures !old(waiting) ==> clusters == old(clusters) && cache == AfterLoad(old(cache), i, image, blockSize)
    {
      hide *;
      ValidParts();
      NotGrown(clusters, 0, [], start, start + sectorCount);
      PutBlock(num, i);
      if num == curBlockNum {
        var pending := ReadWrite(false);
      }
    }

    /** The cached block i gets its sectors.  A request that waits for it can go on. */
    method PutBlock(num: nat, i: nat)
      requires Valid() && i < |cache| && cache[i].num == num && !cache[i].loaded
      modifies this`cache
      ensures cache == AfterLoad(old(cache), i, image, blockSize) && Has(cache, num, true)
      ensures if curBlockNum == num then waiting && Sized() && Progress() && Settled() else Valid()
    {
      hide CacheOk, Has, Done, WellFormed, Flat, Clear, BlockOf;
      BlockNowLoaded(cache, image, blockSize, i);
      var at := BlockStart(num, blockSize);
      cache := cache[i := CachedBlock(num, true, image[at..at + blockSize])];
    }

    /** A request that has completed wrote its buffer to the flat disk, or read the flat disk but
        for shadowed sectors. */
    lemma Completed()
      requires Valid() && !waiting
      ensures start + sectorCount <= |image| && |ioBuf| == sectorCount && |before| == |image|
      ensures isWrite ==> Disk() == Replaced(before, start, ioBuf)
      ensures !isWrite ==> Disk() == before && forall s: nat :: start <= s < start + sectorCount ==>
                ioBuf[s - start] == Seen(clusters, image, blockSize, start, s)
    {
      hide CacheOk, Seen, Clear, Flat, Settled;
      assert ioBuf[..sectorIndex] == ioBuf;
    }

    /** With blocks of one cluster, or within one cluster, a read returns the flat disk. */
    lemma ReadsFlat()
      requires Valid() && !waiting && !isWrite
      requires blockSize == CLUSTER || (sectorCount > 0 && start / CLUSTER == (start + sectorCount - 1) / CLUSTER)
      ensures start + sectorCount <= |before| && ioBuf == before[start..start + sectorCount]
    {
      hide CacheOk, Clear, Settled, Shadowed, Done;
      Completed();
      forall k | 0 <= k < sectorCount ensures ioBuf[k] == before[start + k] {
        var s := start + k;
        if blockSize == CLUSTER {
          SmallBlocksUnshadowed(clusters, start, s);
        } else {
          DivGrows(start, s, CLUSTER);
          DivGrows(s, start + sectorCount - 1, CLUSTER);
          OneClusterUnshadowed(clusters, blockSize, start, s);
        }
        assert ioBuf[s - start] == Seen(clusters, image, blockSize, start, s);
      }
    }

    /** Exactly when a completed read is the flat disk: no shadowed sector differs from the image. */
    lemma FlatExactly()
      requires Valid() && !waiting && !isWrite
      ensures start + sectorCount <= |image| == |before| && |ioBuf| == sectorCount && |image| == |clusters| * CLUSTER
      ensures ioBuf == before[start..start + sectorCount] <==>
              forall s: nat :: start <= s < start + sectorCount && Shadowed(clusters, blockSize, start, s) ==> image[s] == before[s]
    {
      hide CacheOk, Clear, Settled, Shadowed, Done;
      Completed();
      forall s: nat | start <= s < start + sectorCount
        ensures ioBuf[s - start] == if Shadowed(clusters, blockSize, start, s) then image[s] else before[s]
      {
        assert ioBuf[s - start] == Seen(clusters, image, blockSize, start, s);
      }
      if ioBuf == before[start..start + sectorCount] {
        forall s: nat | start <= s < start + sectorCount && Shadowed(clusters, blockSize, start, s) ensures image[s] == before[s] {
          assert ioBuf[s - start] == before[start..start + sectorCount][s - start];
        }
      } else {
        var k :| 0 <= k < sectorCount && ioBuf[k] != before[start..start + sectorCount][k];
        assert Shadowed(clusters, blockSize, start, start + k) && image[start + k] != before[start + k];
      }
    }

    /** bf_start_load_prefetch_group, before the first request: blocks neither cached nor loading
        start to load. */
    method Prefetch(nums: seq<nat>)
      requires Valid() && !waiting && curBlockNum < 0
      requires forall n :: n in nums ==> 0 <= BlockStart(n, blockSize) && BlockStart(n, blockSize) + blockSize <= |image|
      modifies this`cache
      ensures Valid()
    {
      hide Has, Done, WellFormed, Flat;
      var i := 0;
      while i < |nums|
        invariant 0 <= i <= |nums| && Valid()
      {
        assert nums[i] in nums;
        var found, moved := FindBlock(cache, nums[i]);
        CacheAlike(cache, moved, image, blockSize);
        cache := moved;
        if !found {
          var more := AddBlock(cache, nums[i], maxCached);
          NewBlockOk(nums[i], image, blockSize);
          OnlyNew(more);
          CacheAlike(cache, more, image, blockSize);
          cache := more;
        }
        i := i + 1;
      }
    }

    lemma WholeClusters(n: nat, size: nat)
      requires size > 0 && size % CLUSTER == 0 && n % size == 0
      ensures n % CLUSTER == 0 && n == n / CLUSTER * CLUSTER
    {
      var k, m := n / size, size / CLUSTER;
      assert n == (k * m) * CLUSTER;
      DivUnique(n, CLUSTER, k * m, 0);
    }
  }

  // -----------------------------------------------------------------------------------------
  // Blocks larger than a cluster
  // -----------------------------------------------------------------------------------------

  /** On a disk of a single block a waiting request waits for that block. */
  method FindLoading(d: Device) returns (i: nat)
    requires d.Valid() && d.waiting && |d.image| == d.blockSize
    ensures i < |d.cache| && d.cache[i].num == 0 && !d.cache[i].loaded
  {
    hide CacheOk, Done, Flat, WellFormed, BlockOf;
    WaitsForFirst(d);
    i := 0;
    while i < |d.cache| && (d.cache[i].num != 0 || d.cache[i].loaded)
      invariant i <= |d.cache|
      invariant forall k :: 0 <= k < i ==> d.cache[k].num != 0 || d.cache[k].loaded
    {
      i := i + 1;
    }
  }

  /** The load of the only block completes the request. */
  method FinishLoad(d: Device)
    requires d.Valid() && d.waiting && |d.image| == d.blockSize
    modifies d
    ensures d.Valid() && !d.waiting && d.start == old(d.start) && d.isWrite == old(d.isWrite)
    ensures d.sectorCount == old(d.sectorCount) && d.before == old(d.before) && (d.isWrite ==> d.ioBuf == old(d.ioBuf))
    ensures GrownWithin(old(d.clusters), d.clusters, d.start, d.start + d.sectorCount)
    ensures !d.isWrite ==> d.clusters == old(d.clusters)
  {
    hide CacheOk, Done, Flat, WellFormed, GrownWithin, BlockOf;
    var i := FindLoading(d);
    d.Loaded(0, i);
    if d.waiting { WaitsForFirst(d); }
  }

  lemma WaitsForFirst(d: Device)
    requires d.Valid() && d.waiting && |d.image| == d.blockSize
    ensures d.curBlockNum == 0 && Has(d.cache, 0, false)
  {
    hide CacheOk, Flat, Clear;
    d.InRange();
    DivUnique(d.sectorNum, d.blockSize, 0, d.sectorNum);
  }

  /** A disk of one block on which a sector of the second cluster has been written */
  method WriteSecond(disk: seq<Sector>, data: Sector, max: nat) returns (d: Device)
    requires |disk| % CLUSTER == 0 && |disk| > CLUSTER && max >= 1
    ensures fresh(d) && d.Valid() && !d.waiting && d.Disk() == disk[CLUSTER := data]
    ensures d.blockSize == |disk| && d.image == disk
    ensures |d.clusters| >= 2 && forall c :: 0 <= c < |d.clusters| && c != 1 ==> d.clusters[c].None?
  {
    hide CacheOk, Done, Flat, WellFormed, Has, Seen, Clear, AtHand, Replaced, GrownWithin, AtHandFrom;
    d := new Device(disk, |disk|, max);
    var pending := d.Submit(true, CLUSTER, [data]);
    if pending {
      ghost var was := d.clusters;
      FinishLoad(d);
      GrownMore(seq(|disk| / CLUSTER, i => None), was, d.clusters, CLUSTER, CLUSTER + 1);
    }
    d.Completed();
    OneReplaced(disk, data);
    NoneWritten(disk, d.clusters);
  }

  /** With any blocks larger than a cluster and any image: a sector is written to the second
      cluster of the first block, and a read of the whole block then returns the image, although
      the disk holds what was written. */
  method StaleRead(disk: seq<Sector>, data: Sector, max: nat) returns (d: Device, read: seq<Sector>)
    requires |disk| % CLUSTER == 0 && |disk| > CLUSTER && max >= 1
    ensures d.Valid() && !d.waiting && d.Disk() == disk[CLUSTER := data] && read == d.ioBuf == disk
    ensures d.blockSize == |disk| && d.image == disk && d.start == 0 && d.sectorCount == |disk| && !d.isWrite
  {
    hide CacheOk, Done, Flat, WellFormed, Has, Seen, Clear, AtHand, GrownWithin;
    d := WriteSecond(disk, data, max);
    ghost var written := d.clusters;
    var pending := d.Submit(false, 0, seq(|disk|, _ => data));
    if pending { FinishLoad(d); }
    d.Completed();
    read := d.ioBuf;
    forall s: nat | s < |disk| ensures read[s] == disk[s] { WholeBlockSeen(disk, data, written, s); }
  }

  lemma OneReplaced(disk: seq<Sector>, data: Sector)
    requires |disk| > CLUSTER
    ensures Replaced(disk, CLUSTER, [data]) == disk[CLUSTER := data]
  {
  }

  /** Only the second cluster has been written. */
  lemma NoneWritten(disk: seq<Sector>, clusters: Clusters)
    requires |disk| > CLUSTER && |disk| % CLUSTER == 0
    requires WellFormed(clusters, disk)
    requires GrownWithin(seq(|disk| / CLUSTER, i => None), clusters, CLUSTER, CLUSTER + 1)
    ensures |clusters| >= 2 && forall c :: 0 <= c < |clusters| && c != 1 ==> clusters[c].None?
  {
  }

  lemma WholeBlockSeen(disk: seq<Sector>, data: Sector, clusters: Clusters, s: nat)
    requires WellFormed(clusters, disk) && s < |disk| && |disk| > CLUSTER && |clusters| >= 2
    requires forall c :: 0 <= c < |clusters| && c != 1 ==> clusters[c].None?
    ensures Seen(clusters, disk, |disk|, 0, s) == disk[s]
  {
    if s / CLUSTER == 1 && clusters[1].Some? {
      DivUnique(0, |disk|, 0, 0);
      DivUnique(s, |disk|, 0, s);
      assert clusters[0 / CLUSTER].None?;
    }
  }

  // -----------------------------------------------------------------------------------------
  // Runs
  // -----------------------------------------------------------------------------------------

  /** What happens to a device: a request is submitted, or the load of the i-th cached block
      completes. */
  datatype Event = Start(isWrite: bool, sector: nat, data: seq<Sector>) | Load(i: nat)

  /** A completed request, with the data written or read. */
  datatype Record = Record(isWrite: bool, sector: nat, data: seq<Sector>)

  /** A flat disk after the writes of a log. */
  function Replay(disk: seq<Sector>, log: seq<Record>): (f: seq<Sector>)
    ensures |f| == |disk|
  {
    if log == [] then disk
    else
      var f := Replay(disk, log[..|log| - 1]);
      var r := log[|log| - 1];
      if r.isWrite && r.sector + |r.data| <= |f| then Replaced(f, r.sector, r.data) else f
  }

  /** Every record of the log is what a flat disk would have answered at that point. */
  predicate Faithful(disk: seq<Sector>, log: seq<Record>) {
    log == [] ||
    (Faithful(disk, log[..|log| - 1]) &&
     var f, r := Replay(disk, log[..|log| - 1]), log[|log| - 1];
     r.sector + |r.data| <= |f| && (!r.isWrite ==> r.data == f[r.sector..r.sector + |r.data|]))
  }

  /** Whether a request is a write or a read that a device with such blocks answers faithfully:
      blocks of one cluster, or a read inside one cluster. */
  predicate Narrow(blockSize: nat, isWrite: bool, sector: nat, count: nat) {
    isWrite || blockSize == CLUSTER || (count > 0 && sector / CLUSTER == (sector + count - 1) / CLUSTER)
  }

  /** A record is of a request, with the data to be written if it is a write. */
  predicate RecordOf(r: Record, e: Event) {
    e.Start? && r.isWrite == e.isWrite && r.sector == e.sector && |r.data| == |e.data| && (e.isWrite ==> r.data == e.data)
  }

  /** The request in progress is the one of event e. */
  ghost predicate ServesEvent(d: Device, e: Event)
    reads d
  {
    e.Start? && d.isWrite == e.isWrite && d.start == e.sector && d.sectorCount == |e.data| && (e.isWrite ==> d.ioBuf == e.data)
  }

  /** A request that fits the disk */
  predicate Fits(e: Event, size: nat) { e.Start? && e.sector + |e.data| <= size }

  /** Every request taken before event i has finished before it. */
  predicate Free(taken: seq<nat>, finished: seq<nat>, i: nat) {
    forall k :: 0 <= k < |taken| && taken[k] < i ==> k < |finished| && finished[k] < i
  }

  /** Of the first i events, the requests taken are those that fit the disk and find none in progress. */
  predicate TakenExactly(events: seq<Event>, size: nat, taken: seq<nat>, finished: seq<nat>, i: nat)
    requires i <= |events|
  {
    forall j :: 0 <= j < i ==> (j in taken <==> Fits(events[j], size) && Free(taken, finished, j))
  }

  /** A request finishes when it is taken, or with a load. */
  predicate Timed(events: seq<Event>, taken: seq<nat>, finished: seq<nat>) {
    |finished| <= |taken| && forall k :: 0 <= k < |finished| ==>
      taken[k] <= finished[k] < |events| && (taken[k] < finished[k] ==> events[finished[k]].Load?)
  }

  /** The first i events have been served. */
  ghost predicate Serving(d: Device, disk: seq<Sector>, events: seq<Event>, log: seq<Record>, taken: seq<nat>, finished: seq<nat>, i: nat)
    reads d
  {
    && d.Valid() && i <= |events| && |disk| == |d.image| && |finished| == |log| <= |taken| && Faithful(disk, log)
    && (if d.waiting then d.before == Replay(disk, log) else d.Disk() == Replay(disk, log))
    && Accounts(events, log, taken, d.waiting, i)
    && (d.waiting ==> |log| < |taken| && taken[|log|] < |events| && ServesEvent(d, events[taken[|log|]]))
    && TakenExactly(events, |d.image|, taken, finished, i) && Timed(events, taken, finished)
    && forall k :: 0 <= k < |finished| ==> finished[k] < i
  }

  predicate AllNarrow(d: Device, events: seq<Event>) {
    forall e :: e in events && e.Start? ==> Narrow(d.blockSize, e.isWrite, e.sector, |e.data|)
  }

  lemma ServesNarrow(d: Device, events: seq<Event>, j: nat)
    requires AllNarrow(d, events) && j < |events| && ServesEvent(d, events[j])
    ensures events[j].Start? && Narrow(d.blockSize, events[j].isWrite, events[j].sector, |events[j].data|)
  {
    hide Narrow;
  }

  /** A request is submitted, unless one is in progress or it does not fit the disk. */
  method StartOne(d: Device, ghost disk: seq<Sector>, events: seq<Event>, i: nat, log: seq<Record>, taken: seq<nat>, finished: seq<nat>)
    returns (log': seq<Record>, taken': seq<nat>, finished': seq<nat>)
    requires Serving(d, disk, events, log, taken, finished, i) && i < |events| && events[i].Start? && AllNarrow(d, events)
    modifies d
    ensures Serving(d, disk, events, log', taken', finished', i + 1)
  {
    hide CacheOk, Done, Flat, WellFormed, Has, Narrow, RecordOf, Accounts, Replay, Faithful, TakenExactly, Timed, d.Valid, AtHand, AtHandFrom, SameAtHand,
         GrownWithin, Free;
    AccountsOn(events, log, taken, d.waiting, i);
    AccountsBefore(events, log, taken, d.waiting, i);
    var e := events[i];
    log', taken', finished' := log, taken, finished;
    if |taken| == |log| && e.sector + |e.data| <= |d.image| {
      var open := d.Submit(e.isWrite, e.sector, e.data);
      EventTaken(events, log, taken, i);
      taken' := taken + [i];
      if !open {
        log' := Logged(d, disk, log, e);
        EventLogged(events, log, taken', i + 1, log');
        finished' := finished + [i];
      }
    }
    OnTime(events, |d.image|, taken, finished, i, taken', finished');
  }

  /** A block has been loaded, unless there is no such load.  It may end the request e in progress. */
  method LoadLogged(d: Device, ghost disk: seq<Sector>, k: nat, log: seq<Record>, ghost e: Event) returns (more: seq<Record>)
    requires d.Valid() && Faithful(disk, log)
    requires if d.waiting then d.before == Replay(disk, log) && ServesEvent(d, e) && Narrow(d.blockSize, e.isWrite, e.sector, |e.data|)
             else d.Disk() == Replay(disk, log)
    modifies d
    ensures d.Valid() && Faithful(disk, more) && (d.waiting ==> old(d.waiting))
    ensures if d.waiting then d.before == Replay(disk, more) && ServesEvent(d, e) else d.Disk() == Replay(disk, more)
    ensures if old(d.waiting) && !d.waiting then |more| == |log| + 1 && more[..|log|] == log && RecordOf(more[|log|], e) else more == log
  {
    hide CacheOk, Done, Flat, WellFormed, Has, Narrow, RecordOf, Replay, Faithful, AtHand, AfterLoad, GrownWithin, d.Settled, d.Unwritten;
    more := log;
    if k < |d.cache| && !d.cache[k].loaded {
      var done := d.completions;
      d.Loaded(d.cache[k].num, k);
      if d.completions > done { more := Logged(d, disk, log, e); }
    }
  }

  /** The load of event i completes, unless there is no such load. */
  method LoadOne(d: Device, ghost disk: seq<Sector>, events: seq<Event>, i: nat, log: seq<Record>, taken: seq<nat>, finished: seq<nat>)
    returns (log': seq<Record>, finished': seq<nat>)
    requires Serving(d, disk, events, log, taken, finished, i) && i < |events| && events[i].Load? && AllNarrow(d, events)
    modifies d
    ensures Serving(d, disk, events, log', taken, finished', i + 1)
  {
    hide CacheOk, Done, Flat, WellFormed, Has, Narrow, RecordOf, Accounts, Replay, Faithful, TakenExactly, Timed, d.Valid, Free, ServesEvent, AllNarrow;
    AccountsOn(events, log, taken, d.waiting, i);
    AccountsBefore(events, log, taken, d.waiting, i);
    ghost var e := if d.waiting then events[taken[|log|]] else events[i];
    if d.waiting { ServesNarrow(d, events, taken[|log|]); }
    log' := LoadLogged(d, disk, events[i].i, log, e);
    finished' := finished;
    if |log'| > |log| {
      EventLogged(events, log, taken, i + 1, log');
      finished' := finished + [i];
    }
    OnTime(events, |d.image|, taken, finished, i, taken, finished');
  }

  /** Any interleaving of requests and loads, reads being narrow: a request is taken exactly if it
      fits the disk and none is in progress; the taken ones complete one after the other, and
      every read returns the image with all earlier writes. */
  method Serve(d: Device, events: seq<Event>) returns (log: seq<Record>, taken: seq<nat>, finished: seq<nat>)
    requires d.Valid() && !d.waiting && AllNarrow(d, events)
    modifies d
    ensures d.Valid() && Faithful(old(d.Disk()), log)
    ensures !d.waiting ==> d.Disk() == Replay(old(d.Disk()), log)
    ensures |log| == |finished| && |taken| == |log| + if d.waiting then 1 else 0
    ensures forall k :: 0 <= k < |taken| ==> taken[k] < |events|
    ensures forall k :: 0 < k < |taken| ==> taken[k - 1] < taken[k]
    ensures forall k :: 0 <= k < |log| ==> RecordOf(log[k], events[taken[k]])
    ensures TakenExactly(events, |d.image|, taken, finished, |events|) && Timed(events, taken, finished)
  {
    hide CacheOk, Done, Flat, WellFormed, Has, d.Settled, AllNarrow, RecordOf, Accounts, Replay, Faithful, TakenExactly, Timed, Serving;
    ghost var disk := d.Disk();
    NothingServed(d, events);
    log, taken, finished := [], [], [];
    var i: nat := 0;
    while i < |events|
      invariant i <= |events| && Serving(d, disk, events, log, taken, finished, i)
    {
      match events[i] {
        case Start(_, _, _) => log, taken, finished := StartOne(d, disk, events, i, log, taken, finished);
        case Load(_) => log, finished := LoadOne(d, disk, events, i, log, taken, finished);
      }
      i := i + 1;
    }
    AllServed(d, disk, events, log, taken, finished);
  }

  lemma NothingServed(d: Device, events: seq<Event>)
    requires d.Valid() && !d.waiting
    ensures WellFormed(d.clusters, d.image) && Serving(d, d.Disk(), events, [], [], [], 0)
  {
    hide CacheOk, Done, Has;
    NothingLogged(events, d.Disk());
    NoneTaken(events, |d.image|);
  }

  lemma AllServed(d: Device, disk: seq<Sector>, events: seq<Event>, log: seq<Record>, taken: seq<nat>, finished: seq<nat>)
    requires Serving(d, disk, events, log, taken, finished, |events|)
    ensures d.Valid() && Faithful(disk, log) && (!d.waiting ==> WellFormed(d.clusters, d.image) && d.Disk() == Replay(disk, log))
    ensures |log| == |finished| && |taken| == |log| + if d.waiting then 1 else 0
    ensures forall k :: 0 <= k < |taken| ==> taken[k] < |events|
    ensures forall k :: 0 < k < |taken| ==> taken[k - 1] < taken[k]
    ensures forall k :: 0 <= k < |log| ==> RecordOf(log[k], events[taken[k]])
    ensures TakenExactly(events, |d.image|, taken, finished, |events|) && Timed(events, taken, finished)
  {
    hide CacheOk, Done, Flat, Has, RecordOf, Accounts, Replay, Faithful, TakenExactly, Timed;
    AccountsIs(events, log, taken, d.waiting, |events|);
  }

  lemma NoneTaken(events: seq<Event>, size: nat)
    ensures TakenExactly(events, size, [], [], 0) && Timed(events, [], [])
  {
  }

  /** One event more: a request is taken if it fits and none is in progress; one may finish. */
  lemma OnTime(events: seq<Event>, size: nat, taken: seq<nat>, finished: seq<nat>, i: nat, taken': seq<nat>, finished': seq<nat>)
    requires i < |events| && TakenExactly(events, size, taken, finished, i) && Timed(events, taken, finished)
    requires |finished| <= |taken| <= |finished| + 1 && forall k :: 0 <= k < |taken| ==> taken[k] < i
    requires forall k :: 0 <= k < |finished| ==> finished[k] < i
    requires taken' == if |taken| == |finished| && Fits(events[i], size) then taken + [i] else taken
    requires finished' == finished || (finished' == finished + [i] && |finished| < |taken'| && (taken' == taken ==> events[i].Load?))
    ensures TakenExactly(events, size, taken', finished', i + 1) && Timed(events, taken', finished')
  {
    forall j | 0 <= j <= i ensures j in taken' <==> Fits(events[j], size) && Free(taken', finished', j) {
      if j < i {
        assert Free(taken', finished', j) <==> Free(taken, finished, j);
      } else if |taken| > |finished| {
        assert taken'[|finished|] < i && !Free(taken', finished', i);
      }
    }
  }

  /** Of the first i events, the ones numbered in `taken` are requests that were taken; all have
      their record in the log, but for the last one if it is still open. */
  predicate Accounts(events: seq<Event>, log: seq<Record>, taken: seq<nat>, open: bool, i: nat) {
    && |taken| == |log| + (if open then 1 else 0)
    && (forall k :: 0 <= k < |taken| ==> taken[k] < i && taken[k] < |events|)
    && (forall k :: 0 < k < |taken| ==> taken[k - 1] < taken[k])
    && (forall k :: 0 <= k < |log| ==> RecordOf(log[k], events[taken[k]]))
  }

  lemma NothingLogged(events: seq<Event>, disk: seq<Sector>)
    ensures Accounts(events, [], [], false, 0) && Faithful(disk, []) && Replay(disk, []) == disk
  {
  }

  lemma AccountsOn(events: seq<Event>, log: seq<Record>, taken: seq<nat>, open: bool, i: nat)
    requires Accounts(events, log, taken, open, i)
    ensures Accounts(events, log, taken, open, i + 1) && |taken| == |log| + (if open then 1 else 0)
  {
  }

  lemma AccountsBefore(events: seq<Event>, log: seq<Record>, taken: seq<nat>, open: bool, i: nat)
    requires Accounts(events, log, taken, open, i)
    ensures forall k :: 0 <= k < |taken| ==> taken[k] < i
  {
  }

  lemma AccountsIs(events: seq<Event>, log: seq<Record>, taken: seq<nat>, open: bool, i: nat)
    requires Accounts(events, log, taken, open, i)
    ensures |taken| == |log| + (if open then 1 else 0)
    ensures forall k :: 0 <= k < |taken| ==> taken[k] < |events|
    ensures forall k :: 0 < k < |taken| ==> taken[k - 1] < taken[k]
    ensures forall k :: 0 <= k < |log| ==> RecordOf(log[k], events[taken[k]])
  {
  }

  lemma EventTaken(events: seq<Event>, log: seq<Record>, taken: seq<nat>, i: nat)
    requires Accounts(events, log, taken, false, i) && i < |events|
    ensures |taken| == |log| && Accounts(events, log, taken + [i], true, i + 1)
  {
  }

  lemma EventLogged(events: seq<Event>, log: seq<Record>, taken: seq<nat>, i: nat, more: seq<Record>)
    requires Accounts(events, log, taken, true, i) && |log| < |taken| && taken[|log|] < |events|
    requires |more| == |log| + 1 && more[..|log|] == log && RecordOf(more[|log|], events[taken[|log|]])
    ensures Accounts(events, more, taken, false, i)
  {
    forall k | 0 <= k < |more| ensures RecordOf(more[k], events[taken[k]]) {
      if k < |log| { assert more[k] == more[..|log|][k]; }
    }
  }

  /** The record of the request just completed, the one of event e */
  method Logged(d: Device, ghost disk: seq<Sector>, log: seq<Record>, ghost e: Event) returns (more: seq<Record>)
    requires d.Valid() && !d.waiting && Faithful(disk, log)
    requires ServesEvent(d, e) && Narrow(d.blockSize, e.isWrite, e.sector, |e.data|)
    requires d.before == Replay(disk, log)
    ensures more == log + [Record(d.isWrite, d.start, d.ioBuf)] && RecordOf(Record(d.isWrite, d.start, d.ioBuf), e)
    ensures Faithful(disk, more) && d.Disk() == Replay(disk, more)
  {
    hide CacheOk, Done, Flat, WellFormed, Has, Seen, Replaced, Replay, Faithful;
    d.Completed();
    if !d.isWrite { d.ReadsFlat(); }
    more := log + [Record(d.isWrite, d.sectorNum - d.sectorIndex, d.ioBuf)];
    LogGrows(disk, log, Record(d.isWrite, d.start, d.ioBuf));
  }

  lemma LogGrows(disk: seq<Sector>, log: seq<Record>, r: Record)
    requires Faithful(disk, log) && r.sector + |r.data| <= |disk|
    requires !r.isWrite ==> r.data == Replay(disk, log)[r.sector..r.sector + |r.data|]
    ensures Faithful(disk, log + [r])
    ensures Replay(disk, log + [r]) == if r.isWrite then Replaced(Replay(disk, log), r.sector, r.data) else Replay(disk, log)
  {
    assert (log + [r])[..|log|] == log;
  }
}
