/** The state of the filesystem of fs_net.c and what every operation keeps of it: reference
    counts, open counts, block accounting and the cache of loaded files. */
module FsGraph {
  import opened FileBytes

  // -----------------------------------------------------------------------------------------
  // Sums over sequences
  // -----------------------------------------------------------------------------------------

  function Sum<T>(s: seq<T>, f: T -> int): int {
    if s == [] then 0 else Sum(s[..|s| - 1], f) + f(s[|s| - 1])
  }

  lemma SumSnoc<T>(s: seq<T>, x: T, f: T -> int)
    ensures Sum(s + [x], f) == Sum(s, f) + f(x)
  {
    assert (s + [x])[..|s|] == s;
  }

  lemma {:induction false} SumUpdate<T>(s: seq<T>, k: nat, x: T, f: T -> int)
    requires k < |s|
    ensures Sum(s[k := x], f) == Sum(s, f) - f(s[k]) + f(x)
    decreases |s|
  {
    var n := |s| - 1;
    if k < n {
      SumUpdate(s[..n], k, x, f);
      assert s[k := x][..n] == s[..n][k := x];
    } else {
      assert s[k := x][..n] == s[..n];
    }
  }

  lemma {:induction false} SumWithout<T>(s: seq<T>, k: nat, f: T -> int)
    requires k < |s|
    ensures Sum(s[..k] + s[k + 1..], f) == Sum(s, f) - f(s[k])
    decreases |s|
  {
    var n := |s| - 1;
    var t := s[..k] + s[k + 1..];
    if k < n {
      SumWithout(s[..n], k, f);
      assert t[..n - 1] == s[..n][..k] + s[..n][k + 1..] && t[n - 1] == s[n];
    } else {
      assert t == s[..n];
    }
  }

  /** A sum of terms that are not negative is positive if one of them is. */
  lemma {:induction false} SumAtLeast<T>(s: seq<T>, k: nat, f: T -> int)
    requires k < |s| && forall x :: f(x) >= 0
    ensures Sum(s, f) >= f(s[k])
    decreases |s|
  {
    var n := |s| - 1;
    SumNonNegative(s[..n], f);
    if k < n { SumAtLeast(s[..n], k, f); }
  }

  lemma {:induction false} SumNonNegative<T>(s: seq<T>, f: T -> int)
    requires forall x :: f(x) >= 0
    ensures Sum(s, f) >= 0
    decreases |s|
  {
    if s != [] { SumNonNegative(s[..|s| - 1], f); }
  }

  lemma SumNothing<T>(s: seq<T>, f: T -> int)
    requires forall k :: 0 <= k < |s| ==> f(s[k]) == 0
    ensures Sum(s, f) == 0
  {
    if s != [] {
      assert f(s[|s| - 1]) == 0;
      var r := s[..|s| - 1];
      forall k | 0 <= k < |r| ensures f(r[k]) == 0 { assert r[k] == s[k]; }
      SumNothing(r, f);
    }
  }

  // -----------------------------------------------------------------------------------------
  // The state
  // -----------------------------------------------------------------------------------------

  /** FSDirEntry */
  datatype Entry = Entry(name: string, inode: nat)

  /** FSNodeRegStateEnum.  A load in progress has received pos bytes; waiter is the FSFile whose
      open it completes, or -1. */
  datatype RegState = Local | Unloaded | Loading(pos: int, waiter: int) | Loaded

  /** The union of FSINode.  The length of data is fbuf.allocated_size. */
  datatype Body =
    | Dir(entries: seq<Entry>, dirSize: int)
    | Reg(size: int, state: RegState, data: seq<Byte>)
    | Symlink(target: string)
    | Special

  /** FSINode.  Freed stands for memory that has been released. */
  datatype Inode = Inode(refcount: int, openCount: int, body: Body) | Freed

  datatype Access = ReadOnly | WriteOnly | ReadWrite

  /** FSFile, while it exists. */
  datatype File = File(inode: nat, isOpen: bool, access: Access) | Closed

  /** FSDeviceMem.  cache is inode_cache_list, the most recently used file first. */
  datatype Fs = Fs(inodes: seq<Inode>, files: seq<File>, blocks: int, count: int, cacheSize: int, cache: seq<nat>)

  /** What an operation in progress holds: references and opens it has counted but not yet
      stored.  An untidy directory may have entries without having "." among them: it is being
      emptied, or an entry was added to it after that, or its "." was renamed. */
  datatype Pending = Pending(refs: multiset<nat>, opens: multiset<nat>, untidy: set<nat>)

  /** Between operations nothing is held. */
  function Idle(untidy: set<nat>): Pending { Pending(multiset{}, multiset{}, untidy) }

  const BLOCK := 4096

  /** sizeof(FSDirEntry) on a 64-bit host */
  const ENTRY_HEADER := 32

  const ROOT := 0

  function ToBlocks(size: int): int { (size + BLOCK - 1) / BLOCK }

  /** As few blocks as hold the bytes */
  lemma BlocksHold(size: nat, n: int)
    ensures 4096 * ToBlocks(size) >= size
    ensures 4096 * n >= size ==> ToBlocks(size) <= n
  {
  }

  function EntrySize(e: Entry): int { ENTRY_HEADER + |e.name| + 1 }

  predicate IsDir(n: Inode) { n.Inode? && n.body.Dir? }

  predicate IsReg(n: Inode) { n.Inode? && n.body.Reg? }

  predicate IsLoaded(n: Inode) { IsReg(n) && n.body.state == Loaded }

  /** The file's bytes are in its buffer. */
  predicate HasContent(n: Inode) { IsReg(n) && (n.body.state == Local || n.body.state == Loaded) }

  function Names(i: nat): Entry -> int { (e: Entry) => if e.inode == i then 1 else 0 }

  function EntryBytes(): Entry -> int { (e: Entry) => EntrySize(e) }

  /** The entries of one inode that name inode i. */
  function RefsIn(n: Inode, i: nat): int { if IsDir(n) then Sum(n.body.entries, Names(i)) else 0 }

  function Refs(i: nat): Inode -> int { (n: Inode) => RefsIn(n, i) }

  function Opens(i: nat): File -> int { (f: File) => if f.File? && f.inode == i then 1 else 0 }

  function BlocksOf(n: Inode): int {
    if IsDir(n) then ToBlocks(n.body.dirSize) else if IsReg(n) then ToBlocks(n.body.size) else 0
  }

  function LiveOf(n: Inode): int { if n.Inode? then 1 else 0 }

  function CachedOf(n: Inode): int { if IsLoaded(n) then n.body.size else 0 }

  function Blocks(): Inode -> int { (n: Inode) => BlocksOf(n) }

  function Live(): Inode -> int { (n: Inode) => LiveOf(n) }

  function Cached(): Inode -> int { (n: Inode) => CachedOf(n) }

  function RefcountAt(inodes: seq<Inode>, i: nat): int {
    if i < |inodes| && inodes[i].Inode? then inodes[i].refcount else 0
  }

  function OpenCountAt(inodes: seq<Inode>, i: nat): int {
    if i < |inodes| && inodes[i].Inode? then inodes[i].openCount else 0
  }

  // -----------------------------------------------------------------------------------------
  // The invariant
  // -----------------------------------------------------------------------------------------

  /** The counts of inode i are the entries and files naming it (and the root's own reference),
      and it lives only while one of them is left. */
  ghost predicate CountOk(inodes: seq<Inode>, files: seq<File>, p: Pending, i: nat) {
    && RefcountAt(inodes, i) == Sum(inodes, Refs(i)) + p.refs[i] + (if i == ROOT then 1 else 0)
    && OpenCountAt(inodes, i) == Sum(files, Opens(i)) + p.opens[i]
    && (i < |inodes| && inodes[i].Inode? ==> RefcountAt(inodes, i) + OpenCountAt(inodes, i) > 0)
  }

  ghost predicate Counted(inodes: seq<Inode>, files: seq<File>, p: Pending) {
    forall i: nat :: CountOk(inodes, files, p, i)
  }

  predicate HasDot(es: seq<Entry>, d: nat) { exists k :: 0 <= k < |es| && es[k] == Entry(".", d) }

  /** A directory's size is that of its entries, and it has its entry "." until it is unlinked
      and emptied; a file's buffer covers its size unless its content is not there. */
  predicate BodyOk(b: Body, files: seq<File>, i: nat, untidy: set<nat>) {
    match b
    case Dir(entries, dirSize) =>
      dirSize == Sum(entries, EntryBytes()) && (entries == [] || i in untidy || HasDot(entries, i))
    case Reg(size, state, data) =>
      0 <= size &&
      (match state
       case Unloaded => data == []
       case Loading(pos, waiter) =>
         && |data| == size && 0 <= pos <= size
         && (waiter >= 0 ==> waiter < |files| && files[waiter].File? && files[waiter].inode == i)
       case _ => size <= |data|)
    case _ => true
  }

  predicate Shaped(inodes: seq<Inode>, files: seq<File>, untidy: set<nat>) {
    && |inodes| > 0 && IsDir(inodes[ROOT])
    && (forall i :: 0 <= i < |inodes| && inodes[i].Inode? ==> BodyOk(inodes[i].body, files, i, untidy))
  }

  /** An opened file has its content: nothing can have unloaded it since it was opened. */
  predicate Ready(inodes: seq<Inode>, files: seq<File>) {
    forall f :: (0 <= f < |files| && files[f].File? && files[f].isOpen && files[f].inode < |inodes| &&
                 IsReg(inodes[files[f].inode])) ==> HasContent(inodes[files[f].inode])
  }

  /** No file on inode i is open. */
  predicate NotOpened(files: seq<File>, i: nat) {
    forall f :: 0 <= f < |files| && files[f].File? && files[f].isOpen ==> files[f].inode != i
  }

  ghost predicate Accounted(s: Fs) {
    && s.blocks == Sum(s.inodes, Blocks())
    && s.count == Sum(s.inodes, Live())
    && s.cacheSize == Sum(s.inodes, Cached())
  }

  predicate NoRepeats(c: seq<nat>) { forall j, k :: 0 <= j < k < |c| ==> c[j] != c[k] }

  /** The cache lists exactly the loaded files, each once. */
  ghost predicate Listed(inodes: seq<Inode>, cache: seq<nat>) {
    && NoRepeats(cache)
    && (forall i: nat :: i in cache <==> i < |inodes| && IsLoaded(inodes[i]))
  }

  ghost predicate Balanced(s: Fs, p: Pending) {
    && Counted(s.inodes, s.files, p)
    && Shaped(s.inodes, s.files, p.untidy)
    && Ready(s.inodes, s.files)
    && Accounted(s)
    && Listed(s.inodes, s.cache)
  }

  // -----------------------------------------------------------------------------------------
  // What the invariant says about entries and files
  // -----------------------------------------------------------------------------------------

  lemma TermsNonNegative(i: nat)
    ensures forall n :: Refs(i)(n) >= 0
    ensures forall e :: Names(i)(e) >= 0
    ensures forall f :: Opens(i)(f) >= 0
  {
    forall n: Inode ensures RefsIn(n, i) >= 0 {
      if IsDir(n) {
        assert forall e: Entry :: Names(i)(e) >= 0;
        SumNonNegative(n.body.entries, Names(i));
      }
    }
  }

  /** Whatever an entry names is alive and counted. */
  lemma NamedAlive(inodes: seq<Inode>, files: seq<File>, p: Pending, d: nat, k: nat)
    requires Counted(inodes, files, p)
    requires d < |inodes| && IsDir(inodes[d]) && k < |inodes[d].body.entries|
    ensures var i := inodes[d].body.entries[k].inode;
            i < |inodes| && inodes[i].Inode? && inodes[i].refcount > p.refs[i] && Sum(inodes, Refs(i)) >= 1
  {
    var i := inodes[d].body.entries[k].inode;
    TermsNonNegative(i);
    SumAtLeast(inodes[d].body.entries, k, Names(i));
    SumAtLeast(inodes, d, Refs(i));
    assert CountOk(inodes, files, p, i);
  }

  /** Whatever a file is on is alive and counted as open. */
  lemma OpenAlive(inodes: seq<Inode>, files: seq<File>, p: Pending, f: nat)
    requires Counted(inodes, files, p) && f < |files| && files[f].File?
    ensures var i := files[f].inode; i < |inodes| && inodes[i].Inode? && inodes[i].openCount > p.opens[i]
  {
    var i := files[f].inode;
    TermsNonNegative(i);
    SumAtLeast(files, f, Opens(i));
    assert CountOk(inodes, files, p, i);
  }

  /** Between operations an inode is alive exactly while it is the root, named or open. */
  lemma AliveExactlyWhileUsed(s: Fs, untidy: set<nat>, i: nat)
    requires Balanced(s, Idle(untidy))
    ensures i < |s.inodes| && s.inodes[i].Inode? <==>
            || i == ROOT
            || (exists d, k :: 0 <= d < |s.inodes| && IsDir(s.inodes[d]) && 0 <= k < |s.inodes[d].body.entries| &&
                               s.inodes[d].body.entries[k].inode == i)
            || (exists f :: 0 <= f < |s.files| && s.files[f].File? && s.files[f].inode == i)
  {
    assert CountOk(s.inodes, s.files, Idle(untidy), i);
    if d, k :| 0 <= d < |s.inodes| && IsDir(s.inodes[d]) && 0 <= k < |s.inodes[d].body.entries| &&
               s.inodes[d].body.entries[k].inode == i {
      NamedAlive(s.inodes, s.files, Idle(untidy), d, k);
    } else {
      forall d | 0 <= d < |s.inodes| ensures Refs(i)(s.inodes[d]) == 0 {
        if IsDir(s.inodes[d]) {
          var es := s.inodes[d].body.entries;
          forall k | 0 <= k < |es| ensures Names(i)(es[k]) == 0 {}
          SumNothing(es, Names(i));
        }
      }
      SumNothing(s.inodes, Refs(i));
    }
    if f :| 0 <= f < |s.files| && s.files[f].File? && s.files[f].inode == i {
      OpenAlive(s.inodes, s.files, Idle(untidy), f);
    } else {
      SumNothing(s.files, Opens(i));
    }
  }

  /** A directory that nothing names any more is empty, as freeing it asserts. */
  lemma UnnamedIsEmpty(inodes: seq<Inode>, files: seq<File>, p: Pending, d: nat)
    requires Counted(inodes, files, p) && Shaped(inodes, files, p.untidy)
    requires d < |inodes| && IsDir(inodes[d]) && inodes[d].refcount == p.refs[d] && d !in p.untidy
    ensures inodes[d].body.entries == []
  {
    var es := inodes[d].body.entries;
    assert BodyOk(inodes[d].body, files, d, p.untidy);
    if es != [] {
      var k :| 0 <= k < |es| && es[k] == Entry(".", d);
      NamedAlive(inodes, files, p, d, k);
    }
  }

  // -----------------------------------------------------------------------------------------
  // Replacing one inode
  // -----------------------------------------------------------------------------------------

  /** The counts stay right when an inode is replaced, provided the entries it names, what is
      held and its own counts move together. */
  ghost predicate MovesTogether(n: Inode, m: Inode, p: Pending, q: Pending, i: nat) {
    && (forall j: nat :: RefsIn(m, j) + q.refs[j] - RefsIn(n, j) - p.refs[j] ==
                         (if j == i then RefcountAt([m], 0) - RefcountAt([n], 0) else 0))
    && (forall j: nat :: q.opens[j] == p.opens[j] + (if j == i then OpenCountAt([m], 0) - OpenCountAt([n], 0) else 0))
    && (m.Inode? ==> m.refcount + m.openCount > 0)
  }

  lemma CountsReplaced(inodes: seq<Inode>, files: seq<File>, p: Pending, q: Pending, i: nat, m: Inode)
    requires Counted(inodes, files, p) && i < |inodes| && MovesTogether(inodes[i], m, p, q, i)
    ensures Counted(inodes[i := m], files, q)
  {
    var after := inodes[i := m];
    forall j: nat ensures CountOk(after, files, q, j) {
      assert CountOk(inodes, files, p, j);
      SumUpdate(inodes, i, m, Refs(j));
      assert RefsIn(m, j) + q.refs[j] - RefsIn(inodes[i], j) - p.refs[j] ==
             (if j == i then RefcountAt([m], 0) - RefcountAt([inodes[i]], 0) else 0);
    }
  }

  lemma AccountsReplaced(s: Fs, t: Fs, i: nat, m: Inode)
    requires Accounted(s) && i < |s.inodes| && t.inodes == s.inodes[i := m]
    requires t.blocks - s.blocks == BlocksOf(m) - BlocksOf(s.inodes[i])
    requires t.count - s.count == LiveOf(m) - LiveOf(s.inodes[i])
    requires t.cacheSize - s.cacheSize == CachedOf(m) - CachedOf(s.inodes[i])
    ensures Accounted(t)
  {
    SumUpdate(s.inodes, i, m, Blocks());
    SumUpdate(s.inodes, i, m, Live());
    SumUpdate(s.inodes, i, m, Cached());
  }

  /** c without its element x. */
  function Without(c: seq<nat>, x: nat): seq<nat> {
    if c == [] then [] else if c[0] == x then c[1..] else [c[0]] + Without(c[1..], x)
  }

  lemma {:induction false} WithoutHasRest(c: seq<nat>, x: nat)
    requires NoRepeats(c)
    ensures NoRepeats(Without(c, x))
    ensures forall y :: y in Without(c, x) <==> y in c && y != x
  {
    if c != [] {
      assert NoRepeats(c[1..]);
      assert c == [c[0]] + c[1..];
      WithoutHasRest(c[1..], x);
      if c[0] != x {
        var r := Without(c[1..], x);
        var w := [c[0]] + r;
        forall j, k | 0 <= j < k < |w| ensures w[j] != w[k] {
          assert w[k] == r[k - 1];
          if j == 0 { assert w[k] in c[1..]; } else { assert w[j] == r[j - 1]; }
        }
      }
    }
  }

  /** Replacing an inode keeps the whole invariant. */
  lemma Replaced(s: Fs, t: Fs, p: Pending, q: Pending, i: nat, m: Inode)
    requires Balanced(s, p) && i < |s.inodes| && MovesTogether(s.inodes[i], m, p, q, i)
    requires t.inodes == s.inodes[i := m] && t.files == s.files
    requires i == ROOT ==> IsDir(m)
    requires m.Inode? ==> BodyOk(m.body, s.files, i, q.untidy)
    requires p.untidy <= q.untidy
    requires IsReg(m) && IsReg(s.inodes[i]) && HasContent(s.inodes[i]) ==>
               HasContent(m) || OpenCountAt(s.inodes, i) == 0 || NotOpened(s.files, i)
    requires IsReg(m) ==> IsReg(s.inodes[i])
    requires t.blocks - s.blocks == BlocksOf(m) - BlocksOf(s.inodes[i])
    requires t.count - s.count == LiveOf(m) - LiveOf(s.inodes[i])
    requires t.cacheSize - s.cacheSize == CachedOf(m) - CachedOf(s.inodes[i])
    requires Listed(t.inodes, t.cache)
    ensures Balanced(t, q)
  {
    CountsReplaced(s.inodes, s.files, p, q, i, m);
    AccountsReplaced(s, t, i, m);
    assert Shaped(t.inodes, t.files, q.untidy) by {
      forall j | 0 <= j < |t.inodes| && t.inodes[j].Inode? ensures BodyOk(t.inodes[j].body, t.files, j, q.untidy) {
        if j != i { assert BodyOk(s.inodes[j].body, s.files, j, p.untidy); }
      }
    }
    assert Ready(t.inodes, t.files) by {
      forall f | 0 <= f < |t.files| && t.files[f].File? && t.files[f].isOpen && t.files[f].inode == i && IsReg(m)
        ensures HasContent(m)
      {
        OpenAlive(s.inodes, s.files, p, f);
        assert HasContent(s.inodes[i]);
      }
    }
  }

  /** The cache when a replacement leaves a file loaded or not as it was. */
  lemma ListedKept(inodes: seq<Inode>, cache: seq<nat>, i: nat, m: Inode)
    requires Listed(inodes, cache) && i < |inodes| && IsLoaded(m) == IsLoaded(inodes[i])
    ensures Listed(inodes[i := m], cache)
  {
    forall j: nat ensures j in cache <==> j < |inodes[i := m]| && IsLoaded(inodes[i := m][j]) {
      assert j in cache <==> j < |inodes| && IsLoaded(inodes[j]);
    }
  }

  lemma ListedWithout(inodes: seq<Inode>, cache: seq<nat>, i: nat, m: Inode)
    requires Listed(inodes, cache) && i < |inodes| && !IsLoaded(m)
    ensures Listed(inodes[i := m], Without(cache, i))
  {
    WithoutHasRest(cache, i);
    forall j: nat ensures j in Without(cache, i) <==> j < |inodes[i := m]| && IsLoaded(inodes[i := m][j]) {
      assert j in cache <==> j < |inodes| && IsLoaded(inodes[j]);
    }
  }

  lemma ListedFirst(inodes: seq<Inode>, cache: seq<nat>, i: nat, m: Inode)
    requires Listed(inodes, cache) && i < |inodes| && IsLoaded(m) && !IsLoaded(inodes[i])
    ensures Listed(inodes[i := m], [i] + cache)
  {
    assert i !in cache;
    forall j: nat ensures j in [i] + cache <==> j < |inodes[i := m]| && IsLoaded(inodes[i := m][j]) {
      assert j in cache <==> j < |inodes| && IsLoaded(inodes[j]);
    }
  }

  // -----------------------------------------------------------------------------------------
  // A new inode, and replacing a file
  // -----------------------------------------------------------------------------------------

  lemma Appended(s: Fs, t: Fs, p: Pending, m: Inode)
    requires Balanced(s, p) && m.Inode? && m.refcount == 1 && m.openCount == 0
    requires (m.body.Dir? && m.body.entries == [] && m.body.dirSize == 0) || (m.body.Reg? && m.body == Reg(0, Local, [])) ||
             m.body.Symlink? || m.body.Special?
    requires t == s.(inodes := s.inodes + [m], count := s.count + 1)
    ensures Balanced(t, p.(refs := p.refs + multiset{|s.inodes|}))
  {
    var q := p.(refs := p.refs + multiset{|s.inodes|});
    forall j: nat ensures CountOk(t.inodes, t.files, q, j) {
      assert CountOk(s.inodes, s.files, p, j);
      SumSnoc(s.inodes, m, Refs(j));
      assert RefsIn(m, j) == 0;
    }
    SumSnoc(s.inodes, m, Blocks());
    SumSnoc(s.inodes, m, Live());
    SumSnoc(s.inodes, m, Cached());
    forall j | 0 <= j < |t.inodes| && t.inodes[j].Inode? ensures BodyOk(t.inodes[j].body, t.files, j, q.untidy) {
      if j < |s.inodes| { assert BodyOk(s.inodes[j].body, s.files, j, p.untidy); }
    }
    forall f | 0 <= f < |t.files| && t.files[f].File? && t.files[f].isOpen ensures t.files[f].inode < |s.inodes| {
      OpenAlive(s.inodes, s.files, p, f);
    }
    forall j: nat ensures j in t.cache <==> j < |t.inodes| && IsLoaded(t.inodes[j]) {
      assert j in s.cache <==> j < |s.inodes| && IsLoaded(s.inodes[j]);
    }
  }

  /** The files change: the opens they stand for move to or from what is held. */
  lemma FilesChanged(s: Fs, t: Fs, p: Pending, q: Pending)
    requires Balanced(s, p) && t == s.(files := t.files) && q == p.(opens := q.opens)
    requires forall i: nat :: Sum(t.files, Opens(i)) + q.opens[i] == Sum(s.files, Opens(i)) + p.opens[i]
    requires Ready(s.inodes, t.files)
    requires forall i :: 0 <= i < |s.inodes| && s.inodes[i].Inode? && BodyOk(s.inodes[i].body, s.files, i, p.untidy) ==>
                         BodyOk(s.inodes[i].body, t.files, i, p.untidy)
    ensures Balanced(t, q)
  {
    forall j: nat ensures CountOk(t.inodes, t.files, q, j) {
      assert CountOk(s.inodes, s.files, p, j);
    }
  }
}
