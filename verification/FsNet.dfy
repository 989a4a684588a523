/** The operations of fs_net.c on inodes, directories and files.  Each keeps the invariant of
    FsGraph; the primitives pass counted references to one another through a ghost Pending. */
module FsNet {
  import opened Arith
  import opened FileBytes
  import opened FsGraph
  import opened Wrappers

  datatype Errno = NotOpen | NotDir | Exists | NotPermitted | NotFound | NotEmpty | Invalid | NoSpace | IoError

  /** What an operation comes to: an answer, or the failure of an assertion (of inode_free, that a
      directory to be released has no entries, or of inode_dir_add, that an entry is added to a
      directory), or the use of a directory entry after freeing it. */
  datatype Reply = Done(n: int) | Failed(error: Errno) | Aborted | UsesFreed

  // -----------------------------------------------------------------------------------------
  // Bytes and entries
  // -----------------------------------------------------------------------------------------

  /** The bytes of a file whose content is there. */
  function Content(n: Inode): seq<Byte>
    requires HasContent(n) && 0 <= n.body.size <= |n.body.data|
  {
    n.body.data[..n.body.size]
  }

  function Drop<T>(s: seq<T>, k: nat): seq<T>
    requires k < |s|
  {
    s[..k] + s[k + 1..]
  }

  function WithEntries(n: Inode, es: seq<Entry>): Inode
    requires IsDir(n)
  {
    n.(body := Dir(es, Sum(es, EntryBytes())))
  }

  function WithFile(n: Inode, size: int, state: RegState, data: seq<Byte>): Inode
    requires n.Inode?
  {
    n.(body := Reg(size, state, data))
  }

  /** An inode with one reference less: released when that was the last use of it. */
  function LessRef(n: Inode): Inode
    requires n.Inode?
  {
    if n.refcount == 1 && n.openCount == 0 then Freed else n.(refcount := n.refcount - 1)
  }

  function LessOpen(n: Inode): Inode
    requires n.Inode?
  {
    if n.openCount == 1 && n.refcount == 0 then Freed else n.(openCount := n.openCount - 1)
  }

  /** The assertion of inode_free fails for an inode that becomes `after`. */
  predicate AssertionFails(n: Inode, after: Inode) { after.Freed? && IsDir(n) && n.body.entries != [] }

  /** Inodes outside changed keep their bodies for as long as they live. */
  ghost predicate SameBodies(before: seq<Inode>, after: seq<Inode>, changed: set<nat>) {
    && |before| <= |after|
    && (forall i: nat :: i < |before| && i !in changed && after[i].Inode? ==> before[i].Inode? && after[i].body == before[i].body)
  }

  lemma DotStays(es: seq<Entry>, k: nat, d: nat)
    requires k < |es| && HasDot(es, d) && es[k] != Entry(".", d)
    ensures HasDot(Drop(es, k), d)
  {
    var j :| 0 <= j < |es| && es[j] == Entry(".", d);
    assert Drop(es, k)[if j < k then j else j - 1] == es[j];
  }

  lemma DotFirst(es: seq<Entry>, e: Entry, d: nat)
    requires HasDot(es, d) || e == Entry(".", d)
    ensures HasDot(es + [e], d)
  {
    if HasDot(es, d) {
      var j :| 0 <= j < |es| && es[j] == Entry(".", d);
      assert (es + [e])[j] == es[j];
    } else {
      assert (es + [e])[|es|] == e;
    }
  }

  function HoldRef(p: Pending, i: nat): Pending { p.(refs := p.refs + multiset{i}) }

  function StoreRef(p: Pending, i: nat): Pending { p.(refs := p.refs - multiset{i}) }

  function HoldOpen(p: Pending, i: nat): Pending { p.(opens := p.opens + multiset{i}) }

  function StoreOpen(p: Pending, i: nat): Pending { p.(opens := p.opens - multiset{i}) }

  /** What is held is alive. */
  lemma HeldAlive(s: Fs, p: Pending, i: nat)
    requires Balanced(s, p)
    ensures i in p.refs || i in p.opens ==> i < |s.inodes| && s.inodes[i].Inode?
    ensures i < |s.inodes| && s.inodes[i].Inode? ==>
              s.inodes[i].refcount >= p.refs[i] + (if i == ROOT then 1 else 0) && s.inodes[i].openCount >= p.opens[i]
  {
    TermsNonNegative(i);
    SumNonNegative(s.inodes, Refs(i));
    SumNonNegative(s.files, Opens(i));
    assert CountOk(s.inodes, s.files, p, i);
  }

  lemma DirSized(s: Fs, p: Pending, d: nat)
    requires Balanced(s, p) && d < |s.inodes| && IsDir(s.inodes[d])
    ensures s.inodes[d].body.dirSize == Sum(s.inodes[d].body.entries, EntryBytes())
  {
    assert BodyOk(s.inodes[d].body, s.files, d, p.untidy);
  }

  // -----------------------------------------------------------------------------------------
  // Steps on values
  // -----------------------------------------------------------------------------------------

  /** Counting or storing a reference or an open, when the inode survives. */
  lemma Recounted(s: Fs, p: Pending, q: Pending, i: nat, dr: int, dop: int)
    requires Balanced(s, p) && i < |s.inodes| && s.inodes[i].Inode?
    requires forall j: nat :: q.refs[j] == p.refs[j] + (if j == i then dr else 0)
    requires forall j: nat :: q.opens[j] == p.opens[j] + (if j == i then dop else 0)
    requires s.inodes[i].refcount + dr + s.inodes[i].openCount + dop > 0 && q.untidy == p.untidy
    ensures var m := s.inodes[i].(refcount := s.inodes[i].refcount + dr, openCount := s.inodes[i].openCount + dop);
            Balanced(s.(inodes := s.inodes[i := m]), q)
  {
    var n := s.inodes[i];
    var m := n.(refcount := n.refcount + dr, openCount := n.openCount + dop);
    assert forall j: nat :: RefsIn(m, j) == RefsIn(n, j);
    ListedKept(s.inodes, s.cache, i, m);
    assert BodyOk(n.body, s.files, i, p.untidy);
    Replaced(s, s.(inodes := s.inodes[i := m]), p, q, i, m);
  }

  /** The state once inode i is released. */
  function Released(s: Fs, i: nat): Fs
    requires i < |s.inodes|
  {
    var n := s.inodes[i];
    s.(inodes := s.inodes[i := Freed],
       blocks := s.blocks - (if IsReg(n) then ToBlocks(n.body.size) else 0),
       count := s.count - 1,
       cacheSize := s.cacheSize - CachedOf(n),
       cache := if IsLoaded(n) then Without(s.cache, i) else s.cache)
  }

  /** Releasing an inode on storing the last reference or open of it. */
  lemma ReleasedKeeps(s: Fs, p: Pending, q: Pending, i: nat)
    requires Balanced(s, p) && i < |s.inodes| && s.inodes[i].Inode? && q.untidy == p.untidy
    requires s.inodes[i].refcount == p.refs[i] && s.inodes[i].openCount == p.opens[i]
    requires i in p.untidy ==> !AssertionFails(s.inodes[i], Freed)
    requires (q.refs == p.refs - multiset{i} && q.opens == p.opens && p.refs[i] == 1 && p.opens[i] == 0) ||
             (q.opens == p.opens - multiset{i} && q.refs == p.refs && p.refs[i] == 0 && p.opens[i] == 1)
    ensures IsDir(s.inodes[i]) ==> s.inodes[i].body.entries == []
    ensures Balanced(Released(s, i), q)
  {
    var n := s.inodes[i];
    if IsDir(n) && i !in p.untidy { UnnamedIsEmpty(s.inodes, s.files, p, i); }
    assert BodyOk(n.body, s.files, i, p.untidy);
    assert forall j: nat :: RefsIn(n, j) == 0;
    assert BlocksOf(n) == if IsReg(n) then ToBlocks(n.body.size) else 0;
    HeldAlive(s, p, i);
    if IsLoaded(n) { ListedWithout(s.inodes, s.cache, i, Freed); } else { ListedKept(s.inodes, s.cache, i, Freed); }
    Replaced(s, Released(s, i), p, q, i, Freed);
  }

  /** The state once inode i has one open less. */
  function OpenDropped(s: Fs, i: nat): Fs
    requires i < |s.inodes| && s.inodes[i].Inode?
  {
    if LessOpen(s.inodes[i]).Freed? then Released(s, i) else s.(inodes := s.inodes[i := LessOpen(s.inodes[i])])
  }

  lemma OpenDroppedKeeps(s: Fs, p: Pending, i: nat)
    requires Balanced(s, p) && i in p.opens
    requires i in p.untidy && i < |s.inodes| && s.inodes[i].Inode? ==> !AssertionFails(s.inodes[i], LessOpen(s.inodes[i]))
    ensures i < |s.inodes| && s.inodes[i].Inode? && s.inodes[i].openCount >= 1
    ensures !AssertionFails(s.inodes[i], LessOpen(s.inodes[i]))
    ensures Balanced(OpenDropped(s, i), StoreOpen(p, i))
  {
    hide Balanced;
    HeldAlive(s, p, i);
    if LessOpen(s.inodes[i]).Freed? {
      ReleasedKeeps(s, p, StoreOpen(p, i), i);
    } else {
      Recounted(s, p, StoreOpen(p, i), i, 0, -1);
    }
  }

  /** The state once directory d has the entries es. */
  function Listing(s: Fs, d: nat, es: seq<Entry>): Fs
    requires d < |s.inodes| && IsDir(s.inodes[d])
  {
    var m := WithEntries(s.inodes[d], es);
    s.(inodes := s.inodes[d := m], blocks := s.blocks + ToBlocks(m.body.dirSize) - ToBlocks(s.inodes[d].body.dirSize))
  }

  lemma ListingKeeps(s: Fs, p: Pending, q: Pending, d: nat, es: seq<Entry>)
    requires Balanced(s, p) && d < |s.inodes| && IsDir(s.inodes[d])
    requires forall j: nat :: Sum(es, Names(j)) + q.refs[j] == Sum(s.inodes[d].body.entries, Names(j)) + p.refs[j]
    requires q.opens == p.opens && q.untidy == p.untidy
    requires es == [] || d in p.untidy || HasDot(es, d)
    ensures Balanced(Listing(s, d, es), q)
  {
    var m := WithEntries(s.inodes[d], es);
    assert CountOk(s.inodes, s.files, p, d);
    forall j: nat ensures RefsIn(m, j) == Sum(es, Names(j)) && RefsIn(s.inodes[d], j) == Sum(s.inodes[d].body.entries, Names(j)) {}
    ListedKept(s.inodes, s.cache, d, m);
    Replaced(s, Listing(s, d, es), p, q, d, m);
  }

  lemma AddedKeeps(s: Fs, p: Pending, d: nat, e: Entry)
    requires Balanced(s, p) && d < |s.inodes| && IsDir(s.inodes[d]) && e.inode in p.refs
    requires s.inodes[d].body.entries != [] || d in p.untidy || e == Entry(".", d)
    ensures Balanced(Listing(s, d, s.inodes[d].body.entries + [e]), StoreRef(p, e.inode))
  {
    var es := s.inodes[d].body.entries;
    assert BodyOk(s.inodes[d].body, s.files, d, p.untidy);
    forall j: nat ensures Sum(es + [e], Names(j)) == Sum(es, Names(j)) + (if j == e.inode then 1 else 0) {
      SumSnoc(es, e, Names(j));
    }
    if d !in p.untidy { DotFirst(es, e, d); }
    ListingKeeps(s, p, StoreRef(p, e.inode), d, es + [e]);
  }

  lemma DroppedKeeps(s: Fs, p: Pending, d: nat, k: nat)
    requires Balanced(s, p) && d < |s.inodes| && IsDir(s.inodes[d]) && k < |s.inodes[d].body.entries|
    requires d in p.untidy || s.inodes[d].body.entries[k] != Entry(".", d)
    ensures Balanced(Listing(s, d, Drop(s.inodes[d].body.entries, k)), HoldRef(p, s.inodes[d].body.entries[k].inode))
  {
    var es := s.inodes[d].body.entries;
    assert BodyOk(s.inodes[d].body, s.files, d, p.untidy);
    forall j: nat ensures Sum(Drop(es, k), Names(j)) == Sum(es, Names(j)) - (if j == es[k].inode then 1 else 0) {
      SumWithout(es, k, Names(j));
    }
    if d !in p.untidy { DotStays(es, k, d); }
    ListingKeeps(s, p, HoldRef(p, es[k].inode), d, Drop(es, k));
  }

  // -----------------------------------------------------------------------------------------
  // Steps on the content of files
  // -----------------------------------------------------------------------------------------

  /** The state once file i has the given size, state and buffer. */
  function Refiled(s: Fs, i: nat, size: int, state: RegState, data: seq<Byte>): Fs
    requires i < |s.inodes| && IsReg(s.inodes[i])
  {
    var n := s.inodes[i];
    var m := WithFile(n, size, state, data);
    s.(inodes := s.inodes[i := m],
       blocks := s.blocks + ToBlocks(size) - ToBlocks(n.body.size),
       cacheSize := s.cacheSize + CachedOf(m) - CachedOf(n),
       cache := if IsLoaded(n) == IsLoaded(m) then s.cache else if IsLoaded(n) then Without(s.cache, i) else [i] + s.cache)
  }

  lemma RefiledKeeps(s: Fs, untidy: set<nat>, i: nat, size: int, state: RegState, data: seq<Byte>)
    requires Balanced(s, Idle(untidy)) && i < |s.inodes| && IsReg(s.inodes[i])
    requires BodyOk(Reg(size, state, data), s.files, i, untidy)
    requires state == Local || state == Loaded || !HasContent(s.inodes[i]) || s.inodes[i].openCount == 0 || NotOpened(s.files, i)
    ensures Balanced(Refiled(s, i, size, state, data), Idle(untidy))
  {
    var n := s.inodes[i];
    var m := WithFile(n, size, state, data);
    HeldAlive(s, Idle(untidy), i);
    assert CountOk(s.inodes, s.files, Idle(untidy), i);
    if IsLoaded(n) == IsLoaded(m) { ListedKept(s.inodes, s.cache, i, m); }
    else if IsLoaded(n) { ListedWithout(s.inodes, s.cache, i, m); }
    else { ListedFirst(s.inodes, s.cache, i, m); }
    Replaced(s, Refiled(s, i, size, state, data), Idle(untidy), Idle(untidy), i, m);
  }

  lemma FileShape(s: Fs, p: Pending, i: nat)
    requires Balanced(s, p) && i < |s.inodes| && IsReg(s.inodes[i])
    ensures BodyOk(s.inodes[i].body, s.files, i, p.untidy)
  {
  }

  /** An opened file has its content. */
  lemma OpenedHasContent(s: Fs, untidy: set<nat>, f: nat)
    requires Balanced(s, Idle(untidy)) && f < |s.files| && s.files[f].File? && s.files[f].isOpen
    ensures s.files[f].inode < |s.inodes| && s.inodes[s.files[f].inode].Inode?
    ensures IsReg(s.inodes[s.files[f].inode]) ==> HasContent(s.inodes[s.files[f].inode])
  {
    OpenedAlive(s, Idle(untidy), f);
  }

  /** fs_truncate's answer. */
  function TruncateReply(n: Inode, size: nat, blocks: int, maxBlocks: int): Reply {
    if !IsReg(n) then Failed(Invalid)
    else if size == n.body.size then Done(0)
    else if n.body.state.Loading? then Failed(IoError)
    else if HasContent(n) && size > n.body.size && blocks + ToBlocks(size) - ToBlocks(n.body.size) > maxBlocks then
      Failed(NoSpace)
    else Done(0)
  }

  /** What a resized file becomes: its bytes cut or zero-extended and its content its own, if it
      is there; only a new size for a file still to be loaded, unless that is nothing at all. */
  ghost predicate TruncatedTo(n: Inode, m: Inode, size: nat) {
    && IsReg(n) && IsReg(m) && m == n.(body := m.body) && m.body.size == size
    && (size == n.body.size ==> m == n)
    && (HasContent(n) && size != n.body.size ==>
          && 0 <= n.body.size <= |n.body.data| && size <= |m.body.data|
          && m.body.state == Local && Content(m) == Resized(Content(n), size)
          && |m.body.data| == Capacity(|n.body.data|, n.body.size, size))
    && (n.body.state == Unloaded && size != n.body.size ==>
          m.body.data == n.body.data && m.body.state == if size == 0 then Local else Unloaded)
  }

  // -----------------------------------------------------------------------------------------
  // Steps on files
  // -----------------------------------------------------------------------------------------

  /** No load in progress is to complete an open of file f. */
  predicate NotAwaited(inodes: seq<Inode>, f: nat) {
    forall i :: 0 <= i < |inodes| && IsReg(inodes[i]) && inodes[i].body.state.Loading? ==>
                inodes[i].body.state.waiter != f
  }

  predicate MayOpen(inodes: seq<Inode>, i: nat) { i < |inodes| && IsReg(inodes[i]) ==> HasContent(inodes[i]) }

  lemma FileAdded(s: Fs, p: Pending, i: nat)
    requires Balanced(s, p) && i in p.opens
    ensures Balanced(s.(files := s.files + [File(i, false, ReadOnly)]), StoreOpen(p, i))
  {
    var t := s.(files := s.files + [File(i, false, ReadOnly)]);
    forall j: nat ensures Sum(t.files, Opens(j)) == Sum(s.files, Opens(j)) + (if j == i then 1 else 0) {
      SumSnoc(s.files, File(i, false, ReadOnly), Opens(j));
    }
    FilesChanged(s, t, p, StoreOpen(p, i));
  }

  lemma FileReplaced(s: Fs, p: Pending, q: Pending, f: nat, x: File)
    requires Balanced(s, p) && f < |s.files| && s.files[f].File? && q == p.(opens := q.opens)
    requires forall j: nat :: Opens(j)(x) + q.opens[j] == Opens(j)(s.files[f]) + p.opens[j]
    requires NotAwaited(s.inodes, f) || (x.File? && x.inode == s.files[f].inode)
    requires x.File? && x.isOpen ==> MayOpen(s.inodes, x.inode)
    ensures Balanced(s.(files := s.files[f := x]), q)
  {
    var t := s.(files := s.files[f := x]);
    forall j: nat ensures Sum(t.files, Opens(j)) + q.opens[j] == Sum(s.files, Opens(j)) + p.opens[j] {
      SumUpdate(s.files, f, x, Opens(j));
      assert Opens(j)(x) + q.opens[j] == Opens(j)(s.files[f]) + p.opens[j];
    }
    FilesChanged(s, t, p, q);
  }

  /** The state once file f is deleted. */
  function Deleted(s: Fs, f: nat): Fs
    requires f < |s.files| && s.files[f].File? && s.files[f].inode < |s.inodes| && s.inodes[s.files[f].inode].Inode?
  {
    OpenDropped(s.(files := s.files[f := Closed]), s.files[f].inode)
  }

  lemma UnawaitedDeleted(s: Fs, untidy: set<nat>, f: nat)
    requires Balanced(s, Idle(untidy)) && f < |s.files| && s.files[f].File? && NotAwaited(s.inodes, f)
    requires var i := s.files[f].inode; i < |s.inodes| && s.inodes[i].Inode? ==> !AssertionFails(s.inodes[i], LessOpen(s.inodes[i]))
    ensures s.files[f].inode < |s.inodes| && s.inodes[s.files[f].inode].Inode? && Balanced(Deleted(s, f), Idle(untidy))
  {
    hide Balanced;
    OpenedAlive(s, Idle(untidy), f);
    var i: nat := s.files[f].inode;
    FileReplaced(s, Idle(untidy), HoldOpen(Idle(untidy), i), f, Closed);
    OpenDroppedKeeps(s.(files := s.files[f := Closed]), HoldOpen(Idle(untidy), i), i);
    NothingHeld(Idle(untidy), i);
  }

  /** Only the inode that a file is on can be loading for it. */
  lemma AwaitedBy(s: Fs, untidy: set<nat>, f: nat, j: nat)
    requires Balanced(s, Idle(untidy)) && j < |s.inodes| && IsReg(s.inodes[j]) && s.inodes[j].body.state.Loading?
    requires s.inodes[j].body.state.waiter == f
    ensures f < |s.files| && s.files[f].File? && s.files[f].inode == j
  {
    assert BodyOk(s.inodes[j].body, s.files, j, untidy);
  }

  /** An inode whose last use is the file that its load is to open is released with it. */
  lemma AwaitedReleased(s: Fs, untidy: set<nat>, f: nat, i: nat)
    requires Balanced(s, Idle(untidy)) && f < |s.files| && s.files[f].File? && i == s.files[f].inode
    requires i < |s.inodes| && IsReg(s.inodes[i]) && s.inodes[i].body.state.Loading? && LessOpen(s.inodes[i]).Freed?
    ensures Balanced(Deleted(s, f), Idle(untidy))
  {
    hide Balanced;
    var b := s.inodes[i].body;
    FileShape(s, Idle(untidy), i);
    var r := Refiled(s, i, b.size, Loading(b.state.pos, -1), b.data);
    RefiledKeeps(s, untidy, i, b.size, Loading(b.state.pos, -1), b.data);
    forall j | 0 <= j < |r.inodes| && IsReg(r.inodes[j]) && r.inodes[j].body.state.Loading? ensures r.inodes[j].body.state.waiter != f {
      if j != i && r.inodes[j].body.state.waiter == f { AwaitedBy(s, untidy, f, j); }
    }
    UnawaitedDeleted(r, untidy, f);
    assert r.inodes[i := Freed] == s.inodes[i := Freed];
    assert Deleted(r, f) == Deleted(s, f);
  }

  lemma AwaitedBreaks(s: Fs, untidy: set<nat>, f: nat, i: nat)
    requires Balanced(s, Idle(untidy)) && f < |s.files| && s.files[f].File? && i == s.files[f].inode
    requires i < |s.inodes| && IsReg(s.inodes[i]) && s.inodes[i].body.state.Loading? && s.inodes[i].body.state.waiter == f
    requires !LessOpen(s.inodes[i]).Freed?
    ensures !Balanced(Deleted(s, f), Idle(untidy))
  {
    var t := Deleted(s, f);
    assert !BodyOk(t.inodes[i].body, t.files, i, untidy);
  }

  lemma DeletedExactly(s: Fs, untidy: set<nat>, f: nat)
    requires Balanced(s, Idle(untidy)) && f < |s.files| && s.files[f].File?
    ensures var i := s.files[f].inode;
            && i < |s.inodes| && s.inodes[i].Inode? && s.inodes[i].openCount >= 1 && s.inodes[i].refcount >= 0
            && (i !in untidy ==> !AssertionFails(s.inodes[i], LessOpen(s.inodes[i])))
            && (!AssertionFails(s.inodes[i], LessOpen(s.inodes[i])) ==>
                  (Balanced(Deleted(s, f), Idle(untidy)) <==> NotAwaited(s.inodes, f) || LessOpen(s.inodes[i]).Freed?))
  {
    hide Balanced;
    OpenedAlive(s, Idle(untidy), f);
    var i := s.files[f].inode;
    LastOpenIsEmpty(s, untidy, i);
    if AssertionFails(s.inodes[i], LessOpen(s.inodes[i])) {
    } else if NotAwaited(s.inodes, f) {
      UnawaitedDeleted(s, untidy, f);
    } else {
      var j :| 0 <= j < |s.inodes| && IsReg(s.inodes[j]) && s.inodes[j].body.state.Loading? && s.inodes[j].body.state.waiter == f;
      AwaitedBy(s, untidy, f, j);
      if LessOpen(s.inodes[i]).Freed? { AwaitedReleased(s, untidy, f, i); } else { AwaitedBreaks(s, untidy, f, i); }
    }
  }

  lemma LastOpenIsEmpty(s: Fs, untidy: set<nat>, i: nat)
    requires Balanced(s, Idle(untidy)) && i < |s.inodes| && s.inodes[i].Inode?
    ensures s.inodes[i].refcount >= 0
    ensures s.inodes[i].refcount == 0 && IsDir(s.inodes[i]) && i !in untidy ==> s.inodes[i].body.entries == []
  {
    assert CountOk(s.inodes, s.files, Idle(untidy), i);
    TermsNonNegative(i);
    SumNonNegative(s.inodes, Refs(i));
    if s.inodes[i].refcount == 0 && IsDir(s.inodes[i]) && i !in untidy { UnnamedIsEmpty(s.inodes, s.files, Idle(untidy), i); }
  }

  /** More directories may be counted as untidy at any time, and fewer if the others are empty. */
  lemma UntidyChanged(s: Fs, p: Pending, q: Pending)
    requires Balanced(s, p) && q == p.(untidy := q.untidy)
    requires forall d :: d in p.untidy - q.untidy && 0 <= d < |s.inodes| && IsDir(s.inodes[d]) ==> s.inodes[d].body.entries == []
    ensures Balanced(s, q)
  {
    forall i: nat ensures CountOk(s.inodes, s.files, q, i) { assert CountOk(s.inodes, s.files, p, i); }
    forall i | 0 <= i < |s.inodes| && s.inodes[i].Inode? ensures BodyOk(s.inodes[i].body, s.files, i, q.untidy) {
      assert BodyOk(s.inodes[i].body, s.files, i, p.untidy);
    }
  }

  lemma OpenedAlive(s: Fs, p: Pending, f: nat)
    requires Balanced(s, p) && f < |s.files| && s.files[f].File?
    ensures var i := s.files[f].inode; i < |s.inodes| && s.inodes[i].Inode? && s.inodes[i].openCount > p.opens[i]
  {
    OpenAlive(s.inodes, s.files, p, f);
  }

  lemma EntryAlive(s: Fs, p: Pending, d: nat, k: nat)
    requires Balanced(s, p) && d < |s.inodes| && IsDir(s.inodes[d]) && k < |s.inodes[d].body.entries|
    ensures var i := s.inodes[d].body.entries[k].inode;
            i < |s.inodes| && s.inodes[i].Inode? && s.inodes[i].refcount > p.refs[i]
  {
    NamedAlive(s.inodes, s.files, p, d, k);
  }

  /** An entry of another directory that names d is one more use of d than any of its own. */
  lemma SelfCounted(s: Fs, p: Pending, e: nat, k: nat, d: nat)
    requires Balanced(s, p) && d < |s.inodes| && IsDir(s.inodes[d]) && e != d && s.inodes[d].body.entries != []
    requires e < |s.inodes| && IsDir(s.inodes[e]) && k < |s.inodes[e].body.entries|
    requires s.inodes[e].body.entries[k].inode == d && s.inodes[d].body.entries[0].inode == d
    ensures s.inodes[d].refcount + s.inodes[d].openCount > 1
  {
    TermsNonNegative(d);
    SumAtLeast(s.inodes[d].body.entries, 0, Names(d));
    SumAtLeast(s.inodes[e].body.entries, k, Names(d));
    SumUpdate(s.inodes, d, Freed, Refs(d));
    SumAtLeast(s.inodes[d := Freed], e, Refs(d));
    HeldAlive(s, p, d);
    assert CountOk(s.inodes, s.files, p, d);
  }

  /** A directory that loses an entry for something else than a directory still has its ".". */
  lemma DotRemains(s: Fs, p: Pending, d: nat, k: nat)
    requires Balanced(s, p) && d < |s.inodes| && IsDir(s.inodes[d]) && d !in p.untidy && k < |s.inodes[d].body.entries|
    requires s.inodes[d].body.entries[k].inode != d
    ensures Drop(s.inodes[d].body.entries, k) != []
  {
    assert BodyOk(s.inodes[d].body, s.files, d, p.untidy);
    DotStays(s.inodes[d].body.entries, k, d);
  }

  lemma NothingHeld(p: Pending, i: nat)
    ensures StoreRef(HoldRef(p, i), i) == p && StoreOpen(HoldOpen(p, i), i) == p
  {
    assert p.refs + multiset{i} - multiset{i} == p.refs;
    assert p.opens + multiset{i} - multiset{i} == p.opens;
  }

  /** A file on a directory completes no load. */
  lemma DirNotAwaited(s: Fs, p: Pending, f: nat)
    requires Balanced(s, p) && f < |s.files| && s.files[f].File?
    requires s.files[f].inode < |s.inodes| && IsDir(s.inodes[s.files[f].inode])
    ensures NotAwaited(s.inodes, f)
  {
    forall i | 0 <= i < |s.inodes| && IsReg(s.inodes[i]) && s.inodes[i].body.state.Loading?
      ensures s.inodes[i].body.state.waiter != f
    {
      assert BodyOk(s.inodes[i].body, s.files, i, p.untidy);
    }
  }

  // -----------------------------------------------------------------------------------------
  // Names
  // -----------------------------------------------------------------------------------------

  predicate HasName(n: Inode, name: string) {
    IsDir(n) && exists k :: 0 <= k < |n.body.entries| && n.body.entries[k].name == name
  }

  /** Entry k is the one inode_search finds. */
  predicate FoundAt(n: Inode, name: string, k: nat) {
    && IsDir(n) && k < |n.body.entries| && n.body.entries[k].name == name
    && (forall j :: 0 <= j < k ==> n.body.entries[j].name != name)
  }

  /** A file is renamed onto the very entry that names it: same directory, same name, and no
      directory. */
  ghost predicate RenamedOntoItself(inodes: seq<Inode>, d: nat, name: string, e: nat, newName: string) {
    d < |inodes| && d == e && name == newName && exists k: nat :: FoundAt(inodes[d], name, k) && NamesNoDir(inodes, inodes[d].body.entries[k].inode)
  }

  predicate NamesNoDir(inodes: seq<Inode>, i: nat) { i < |inodes| ==> !IsDir(inodes[i]) }

  /** Where entry k of directory d stands once entry k1 of directory e is freed. */
  function PlaceAfter(d: nat, k: nat, e: nat, k1: nat): Option<nat> {
    if d != e then Some(k) else if k == k1 then None else Some(if k1 < k then k - 1 else k)
  }

  /** Whatever the identities of the entries are: that is where the entry of that identity is, and
      it is nowhere exactly if it has been freed. */
  lemma EntryFollowed<T>(ids: seq<seq<T>>, d: nat, k: nat, e: nat, k1: nat)
    requires d < |ids| && k < |ids[d]| && e < |ids| && k1 < |ids[e]|
    requires forall i, j :: 0 <= i < j < |ids[d]| ==> ids[d][i] != ids[d][j]
    ensures var after := ids[e := Drop(ids[e], k1)];
            match PlaceAfter(d, k, e, k1)
            case None => ids[d][k] !in after[d]
            case Some(j) => j < |after[d]| && after[d][j] == ids[d][k]
  {
  }

  /** The two entries that a rename finds are one exactly if directories and names are the same:
      once the second has been freed, the first is still there exactly otherwise. */
  lemma FoundFirst(inodes: seq<Inode>, d: nat, name: string, k: nat, e: nat, newName: string, k1: nat)
    requires d < |inodes| && FoundAt(inodes[d], name, k) && e < |inodes| && FoundAt(inodes[e], newName, k1)
    ensures PlaceAfter(d, k, e, k1).None? <==> d == e && name == newName
    ensures PlaceAfter(d, k, e, k1).None? && NamesNoDir(inodes, inodes[e].body.entries[k1].inode) <==>
            RenamedOntoItself(inodes, d, name, e, newName)
  {
    FoundOnce(inodes[d], name, k);
  }

  /** Directory d has got a new directory with its entries "." and "..", and no other inode has changed. */
  ghost predicate HasDirectory(before: seq<Inode>, after: seq<Inode>, d: nat, name: string)
    requires d < |before| && IsDir(before[d])
  {
    var n, i := before[d], |before|;
    && |after| == i + 1
    && after[d] == WithEntries(n, n.body.entries + [Entry(name, i)]).(refcount := n.refcount + 1)
    && after[i] == WithEntries(Inode(2, 0, Dir([], 0)), [Entry(".", i), Entry("..", d)])
    && forall j :: 0 <= j < i && j != d ==> after[j] == before[j]
  }

  lemma DirectoryMade(before: seq<Inode>, d: nat, name: string)
    requires d < |before| && IsDir(before[d])
    ensures var i := |before|;
            var made := before[d := before[d].(refcount := before[d].refcount + 1)] +
                        [WithEntries(Inode(2, 0, Dir([], 0)), [Entry(".", i), Entry("..", d)])];
            && IsDir(made[d]) && made[d].body.entries == before[d].body.entries && d < |made|
            && HasDirectory(before, made[d := WithEntries(made[d], made[d].body.entries + [Entry(name, i)])], d, name)
  {
    hide Sum, EntryBytes;
  }

  lemma OpenOfDirectory(n: Inode, name: string, i: nat)
    requires IsDir(n) && n.refcount >= 0 && n.openCount >= 1
    ensures var m := WithEntries(n, n.body.entries + [Entry(name, i)]);
            && IsDir(m) && m.refcount == n.refcount && m.openCount == n.openCount && m.body.entries != []
            && (LessOpen(m).Freed? <==> LessOpen(n).Freed?) && (LessOpen(m).Freed? <==> AssertionFails(m, LessOpen(m)))
            && (LessOpen(n).Freed? <==> n.openCount == 1 && n.refcount == 0)
  {
    hide Sum, EntryBytes;
  }

  /** The untidy directories when an entry is added to directory d. */
  function UntidyWith(untidy: set<nat>, n: Inode, d: nat): set<nat> {
    if IsDir(n) && n.body.entries == [] then untidy + {d} else untidy
  }

  /** How many names can be followed from inode n, and to which inode they lead. */
  ghost function Followed(inodes: seq<Inode>, n: nat, names: seq<string>): (nat, nat)
    decreases |names|
  {
    if names == [] || n >= |inodes| || !HasName(inodes[n], names[0]) then (0, n)
    else
      var j :| 0 <= j < |inodes[n].body.entries| && inodes[n].body.entries[j].name == names[0];
      FoundSome(inodes[n], names[0], j);
      var k: nat :| FoundAt(inodes[n], names[0], k);
      var (count, m) := Followed(inodes, inodes[n].body.entries[k].inode, names[1..]);
      (count + 1, m)
  }

  lemma CacheListed(s: Fs, p: Pending)
    requires Balanced(s, p)
    ensures NoRepeats(s.cache)
    ensures forall k :: 0 <= k < |s.cache| ==> s.cache[k] < |s.inodes| && IsLoaded(s.inodes[s.cache[k]])
  {
    forall k | 0 <= k < |s.cache| ensures s.cache[k] < |s.inodes| && IsLoaded(s.inodes[s.cache[k]]) {
      assert s.cache[k] in s.cache;
    }
  }

  lemma {:induction false} WithoutAt(c: seq<nat>, j: nat)
    requires NoRepeats(c) && j < |c|
    ensures Without(c, c[j]) == Drop(c, j)
  {
    if j > 0 {
      WithoutAt(c[1..], j - 1);
      assert c[0] != c[j] && c[1..][j - 1] == c[j];
      assert Drop(c, j) == [c[0]] + Drop(c[1..], j - 1);
    }
  }

  /** The open files of a list, in its order. */
  function OpenOnes(inodes: seq<Inode>, c: seq<nat>): seq<nat> {
    if c == [] then []
    else (if c[0] < |inodes| && inodes[c[0]].Inode? && inodes[c[0]].openCount != 0 then [c[0]] else []) + OpenOnes(inodes, c[1..])
  }

  /** What unloading file i gains. */
  function Closable(inodes: seq<Inode>, i: nat): int {
    if i < |inodes| && IsReg(inodes[i]) && inodes[i].openCount == 0 then inodes[i].body.size else 0
  }

  lemma ClosableNonNegative(s: Fs, untidy: set<nat>)
    requires Balanced(s, Idle(untidy))
    ensures forall i: nat :: Closable(s.inodes, i) >= 0
  {
    forall i: nat ensures Closable(s.inodes, i) >= 0 {
      if i < |s.inodes| && IsReg(s.inodes[i]) { FileShape(s, Idle(untidy), i); }
    }
  }

  /** A loaded file that is not open has been unloaded. */
  predicate UnloadedFrom(n: Inode, m: Inode) {
    IsLoaded(n) && n.openCount == 0 && m == WithFile(n, n.body.size, Unloaded, [])
  }

  /** Trimming has got down to place t of the list: what is before it is untouched, and of the
      rest the open files are left. */
  ghost predicate Trimmed(s: Fs, u: Fs, t: nat) {
    && t <= |s.cache| && u.cache == s.cache[..t] + OpenOnes(s.inodes, s.cache[t..])
    && |u.inodes| == |s.inodes| && u.files == s.files
    && (forall i :: 0 <= i < |s.inodes| ==> u.inodes[i] == s.inodes[i] || UnloadedFrom(s.inodes[i], u.inodes[i]))
    && (forall k :: 0 <= k < t ==> s.cache[k] < |s.inodes| && u.inodes[s.cache[k]] == s.inodes[s.cache[k]])
    && NoRepeats(s.cache)
  }

  lemma TrimStarts(s: Fs, p: Pending)
    requires Balanced(s, p)
    ensures Trimmed(s, s, |s.cache|)
  {
    hide Balanced;
    CacheListed(s, p);
    assert s.cache == s.cache[..|s.cache|] + OpenOnes(s.inodes, s.cache[|s.cache|..]);
  }

  lemma TrimmedIs(s: Fs, u: Fs, t: nat)
    requires Trimmed(s, u, t)
    ensures t <= |s.cache| && u.cache == s.cache[..t] + OpenOnes(s.inodes, s.cache[t..])
    ensures |u.inodes| == |s.inodes|
    ensures forall i :: 0 <= i < |s.inodes| ==> u.inodes[i] == s.inodes[i] || UnloadedFrom(s.inodes[i], u.inodes[i])
  {
  }

  lemma TrimNext(s: Fs, u: Fs, t: nat)
    requires Trimmed(s, u, t) && t > 0
    ensures t - 1 < |s.cache| && t - 1 < |u.cache| && u.cache[t - 1] == s.cache[t - 1]
    ensures s.cache[t - 1] < |s.inodes| && s.cache[t - 1] < |u.inodes| && u.inodes[s.cache[t - 1]] == s.inodes[s.cache[t - 1]]
  {
  }

  lemma TrimSkips(s: Fs, u: Fs, t: nat)
    requires Trimmed(s, u, t + 1) && t < |s.cache|
    requires s.cache[t] < |u.inodes| && u.inodes[s.cache[t]].Inode? && u.inodes[s.cache[t]].openCount != 0
    ensures Trimmed(s, u, t)
  {
    assert s.cache[t..] == [s.cache[t]] + s.cache[t + 1..];
    assert s.cache[..t + 1] == s.cache[..t] + [s.cache[t]];
  }

  lemma TailOpenOnes(s: Fs, t: nat)
    requires t < |s.cache| && s.cache[t] < |s.inodes| && s.inodes[s.cache[t]].Inode? && s.inodes[s.cache[t]].openCount == 0
    ensures OpenOnes(s.inodes, s.cache[t..]) == OpenOnes(s.inodes, s.cache[t + 1..])
  {
    assert s.cache[t..] == [s.cache[t]] + s.cache[t + 1..];
  }

  lemma TrimUnloads(s: Fs, u: Fs, v: Fs, t: nat)
    requires Trimmed(s, u, t + 1) && t < |s.cache| && t < |u.cache| && s.cache[t] < |u.inodes|
    requires IsLoaded(u.inodes[s.cache[t]]) && u.inodes[s.cache[t]].openCount == 0
    requires v.cache == Drop(u.cache, t) && v.files == u.files
    requires var i := s.cache[t]; v.inodes == u.inodes[i := WithFile(u.inodes[i], u.inodes[i].body.size, Unloaded, [])]
    ensures Trimmed(s, v, t)
  {
    TailOpenOnes(s, t);
    assert v.cache == s.cache[..t] + OpenOnes(s.inodes, s.cache[t + 1..]) by { hide OpenOnes; }
    hide OpenOnes;
  }

  /** The bytes a file being loaded has after more have come. */
  function ReceivedBytes(b: Body, more: seq<Byte>): seq<Byte> {
    if b.Reg? && b.state.Loading? && 0 <= b.state.pos <= b.size <= |b.data| then
      b.data[..b.state.pos] + more[..Min(|more|, b.size - b.state.pos)]
    else []
  }

  /** The state once the file at place j of the cache is unloaded */
  function UnloadedAt(s: Fs, j: nat): Fs
    requires j < |s.cache| && s.cache[j] < |s.inodes| && IsLoaded(s.inodes[s.cache[j]])
  {
    var i := s.cache[j];
    var n := s.inodes[i];
    s.(inodes := s.inodes[i := WithFile(n, n.body.size, Unloaded, [])], cache := Drop(s.cache, j), cacheSize := s.cacheSize - n.body.size)
  }

  lemma UnloadKeeps(s: Fs, untidy: set<nat>, j: nat)
    requires Balanced(s, Idle(untidy)) && j < |s.cache| && s.cache[j] < |s.inodes| && IsLoaded(s.inodes[s.cache[j]])
    requires s.inodes[s.cache[j]].openCount == 0
    ensures Balanced(UnloadedAt(s, j), Idle(untidy))
  {
    hide Balanced, BodyOk, Without, NoRepeats, ToBlocks;
    var i := s.cache[j];
    FileSized(s, untidy, i);
    EmptyShape(s.inodes[i].body.size, s.files, i, untidy);
    RefiledKeeps(s, untidy, i, s.inodes[i].body.size, Unloaded, []);
    CacheListed(s, Idle(untidy));
    WithoutAt(s.cache, j);
  }

  lemma EmptyShape(size: int, files: seq<File>, i: nat, untidy: set<nat>)
    requires size >= 0
    ensures BodyOk(Reg(size, Unloaded, []), files, i, untidy)
  {
  }

  lemma FileSized(s: Fs, untidy: set<nat>, i: nat)
    requires Balanced(s, Idle(untidy)) && i < |s.inodes| && IsReg(s.inodes[i])
    ensures s.inodes[i].body.size >= 0
  {
    FileShape(s, Idle(untidy), i);
  }

  lemma LoadStarts(s: Fs, untidy: set<nat>, i: nat, waiter: int, data: seq<Byte>)
    requires Balanced(s, Idle(untidy)) && i < |s.inodes| && IsReg(s.inodes[i]) && s.inodes[i].body.state == Unloaded
    requires waiter >= 0 ==> waiter < |s.files| && s.files[waiter].File? && s.files[waiter].inode == i
    requires |data| == s.inodes[i].body.size
    ensures Balanced(Refiled(s, i, |data|, Loading(0, waiter), data), Idle(untidy))
  {
    hide Balanced;
    RefiledKeeps(s, untidy, i, |data|, Loading(0, waiter), data);
  }

  /** A file that is open must not become one to be loaded. */
  lemma SetUrlExactly(s: Fs, untidy: set<nat>, i: nat, size: nat)
    requires Balanced(s, Idle(untidy)) && i < |s.inodes| && IsReg(s.inodes[i]) && size > 0
    requires s.inodes[i].body == Reg(0, Local, [])
    ensures Balanced(Refiled(s, i, size, Unloaded, []), Idle(untidy)) <==> NotOpened(s.files, i)
  {
    if NotOpened(s.files, i) {
      RefiledKeeps(s, untidy, i, size, Unloaded, []);
    } else {
      var t := Refiled(s, i, size, Unloaded, []);
      var f :| 0 <= f < |s.files| && s.files[f].File? && s.files[f].isOpen && s.files[f].inode == i;
      assert t.files[f].inode == i && !HasContent(t.inodes[i]);
      assert !Ready(t.inodes, t.files);
    }
  }

  lemma UnusedNotOpened(s: Fs, untidy: set<nat>, i: nat)
    requires Balanced(s, Idle(untidy)) && i < |s.inodes| && s.inodes[i].Inode? && s.inodes[i].openCount == 0
    ensures NotOpened(s.files, i)
  {
    hide Balanced;
    forall f: nat | f < |s.files| && s.files[f].File? ensures s.files[f].inode != i { OpenedAlive(s, Idle(untidy), f); }
  }

  lemma ListedToFront(s: Fs, untidy: set<nat>, i: nat)
    requires Balanced(s, Idle(untidy)) && i < |s.inodes| && IsLoaded(s.inodes[i])
    ensures Balanced(s.(cache := [i] + Without(s.cache, i)), Idle(untidy))
  {
    WithoutHasRest(s.cache, i);
    assert i in s.cache;
  }

  // -----------------------------------------------------------------------------------------
  // Emptying a directory
  // -----------------------------------------------------------------------------------------

  /** An inode with c references less. */
  function Lowered(n: Inode, c: int): Inode {
    if !n.Inode? || c == 0 then n
    else if n.refcount == c && n.openCount == 0 then Freed
    else n.(refcount := n.refcount - c)
  }

  /** The inodes once the first j entries of directory d are gone. */
  ghost predicate Flushed(before: seq<Inode>, after: seq<Inode>, d: nat, j: nat) {
    && |after| == |before| && d < |before| && IsDir(before[d]) && j <= |before[d].body.entries|
    && var es := before[d].body.entries;
       && after[d] == WithEntries(before[d].(refcount := before[d].refcount - Sum(es[..j], Names(d))), es[j..])
       && forall m: nat :: m < |before| && m != d ==> after[m] == Lowered(before[m], Sum(es[..j], Names(m)))
  }

  /** Emptying directory d meets a directory that has entries, is not open, and is named by nothing
      but entries of d. */
  ghost predicate FlushAborts(inodes: seq<Inode>, d: nat)
    requires d < |inodes| && IsDir(inodes[d])
  {
    exists m: nat :: m < |inodes| && m != d && LastNamedBy(inodes[m], Sum(inodes[d].body.entries, Names(m)))
  }

  predicate LastNamedBy(n: Inode, c: int) {
    IsDir(n) && n.body.entries != [] && n.openCount == 0 && 0 < n.refcount == c
  }

  /** It has not met one among its first j entries. */
  ghost predicate NoneAborted(inodes: seq<Inode>, d: nat, j: nat) {
    && d < |inodes| && IsDir(inodes[d]) && j <= |inodes[d].body.entries|
    && forall m: nat :: m < |inodes| && m != d ==> !LastNamedBy(inodes[m], Sum(inodes[d].body.entries[..j], Names(m)))
  }

  lemma FlushStarts(s: Fs, p: Pending, d: nat)
    requires Balanced(s, p) && d < |s.inodes| && IsDir(s.inodes[d])
    ensures Flushed(s.inodes, s.inodes, d, 0) && NoneAborted(s.inodes, d, 0) && s.inodes[d].body.entries[0..] == s.inodes[d].body.entries
  {
    DirSized(s, p, d);
    assert s.inodes[d].body.entries[..0] == [];
  }

  lemma NamesPrefix(es: seq<Entry>, j: nat, m: nat)
    requires j < |es|
    ensures Sum(es[..j + 1], Names(m)) == Sum(es[..j], Names(m)) + (if es[j].inode == m then 1 else 0)
  {
    assert es[..j + 1] == es[..j] + [es[j]];
    SumSnoc(es[..j], es[j], Names(m));
  }

  lemma {:induction false} NamesGrow(es: seq<Entry>, j: nat, m: nat)
    requires j <= |es|
    ensures Sum(es[..j], Names(m)) <= Sum(es, Names(m))
    decreases |es| - j
  {
    if j < |es| {
      NamesPrefix(es, j, m);
      NamesGrow(es, j + 1, m);
    } else {
      assert es[..j] == es;
    }
  }

  /** The entries of one directory are among the references counted. */
  lemma EntriesCounted(s: Fs, p: Pending, d: nat, m: nat)
    requires Balanced(s, p) && d < |s.inodes| && IsDir(s.inodes[d]) && m < |s.inodes| && s.inodes[m].Inode?
    ensures 0 <= Sum(s.inodes[d].body.entries, Names(m)) <= s.inodes[m].refcount
    ensures IsDir(s.inodes[m]) && m != d && m !in p.untidy && s.inodes[m].body.entries != [] ==>
              Sum(s.inodes[d].body.entries, Names(m)) < s.inodes[m].refcount
  {
    TermsNonNegative(m);
    SumNonNegative(s.inodes[d].body.entries, Names(m));
    SumAtLeast(s.inodes, d, Refs(m));
    assert CountOk(s.inodes, s.files, p, m);
    if IsDir(s.inodes[m]) && m != d && m !in p.untidy && s.inodes[m].body.entries != [] {
      var es := s.inodes[m].body.entries;
      assert BodyOk(s.inodes[m].body, s.files, m, p.untidy);
      var k :| 0 <= k < |es| && es[k] == Entry(".", m);
      SumAtLeast(es, k, Names(m));
      SumUpdate(s.inodes, d, Freed, Refs(m));
      SumAtLeast(s.inodes[d := Freed], m, Refs(m));
    }
  }

  /** Emptying a directory aborts only on an untidy one. */
  lemma FlushAbortsUntidy(s: Fs, untidy: set<nat>, d: nat)
    requires Balanced(s, Idle(untidy)) && d < |s.inodes| && IsDir(s.inodes[d]) && FlushAborts(s.inodes, d)
    ensures untidy != {}
  {
    hide Balanced;
    var m: nat :| m < |s.inodes| && m != d && LastNamedBy(s.inodes[m], Sum(s.inodes[d].body.entries, Names(m)));
    EntriesCounted(s, Idle(untidy), d, m);
  }

  /** While a directory is being emptied, the directory that names it and the file on that stay. */
  lemma FlushKeeps(s: Fs, t: Fs, p: Pending, d: nat, j: nat, f: nat, k: nat)
    requires Balanced(s, p) && Balanced(t, p) && t.files == s.files && Flushed(s.inodes, t.inodes, d, j)
    requires f < |s.files| && s.files[f].File? && s.files[f].inode != d
    requires var e := s.files[f].inode; e < |s.inodes| && IsDir(s.inodes[e]) && k < |s.inodes[e].body.entries| &&
                                        s.inodes[e].body.entries[k].inode == d
    ensures t.inodes[d].body.entries != [] && t.inodes[d].body.entries[0].inode == d ==>
              t.inodes[d].refcount + t.inodes[d].openCount > 1
  {
    hide Balanced;
    var e := s.files[f].inode;
    OpenedAlive(t, p, f);
    assert t.inodes[e].body == s.inodes[e].body;
    if t.inodes[d].body.entries != [] && t.inodes[d].body.entries[0].inode == d { SelfCounted(t, p, e, k, d); }
  }

  /** When emptying aborts at entry j, it does so whatever follows. */
  lemma FlushFails(s: Fs, p: Pending, d: nat, j: nat, inodes: seq<Inode>)
    requires Balanced(s, p) && Flushed(s.inodes, inodes, d, j) && j < |s.inodes[d].body.entries|
    requires NoneAborted(s.inodes, d, j)
    ensures var m := s.inodes[d].body.entries[j].inode;
            m != d && m < |inodes| && inodes[m].Inode? ==>
              (AssertionFails(inodes[m], LessRef(inodes[m])) <==>
               LastNamedBy(s.inodes[m], Sum(s.inodes[d].body.entries[..j + 1], Names(m)))) &&
              (AssertionFails(inodes[m], LessRef(inodes[m])) ==> FlushAborts(s.inodes, d))
    ensures var m := s.inodes[d].body.entries[j].inode;
            (m != d && m < |inodes| && inodes[m].Inode? ==> !AssertionFails(inodes[m], LessRef(inodes[m]))) ==>
              NoneAborted(s.inodes, d, j + 1)
  {
    hide Balanced;
    var es := s.inodes[d].body.entries;
    var m := es[j].inode;
    EntryAlive(s, p, d, j);
    forall x: nat ensures Sum(es[..j + 1], Names(x)) == Sum(es[..j], Names(x)) + (if x == m then 1 else 0) {
      NamesPrefix(es, j, x);
    }
    EntriesCounted(s, p, d, m);
    NamesGrow(es, j + 1, m);
    TermsNonNegative(m);
    SumNonNegative(es[..j], Names(m));
    if m != d {
      assert inodes[m] == Lowered(s.inodes[m], Sum(es[..j], Names(m)));
      if LastNamedBy(s.inodes[m], Sum(es[..j + 1], Names(m))) { assert LastNamedBy(s.inodes[m], Sum(es, Names(m))); }
    }
  }

  /** One entry more is gone. */
  lemma FlushStep(before: seq<Inode>, mid: seq<Inode>, after: seq<Inode>, d: nat, j: nat)
    requires Flushed(before, mid, d, j) && j < |before[d].body.entries|
    requires var m := before[d].body.entries[j].inode; m < |mid| && mid[m].Inode?
    requires var m := before[d].body.entries[j].inode;
             var listed := mid[d := WithEntries(mid[d], Drop(mid[d].body.entries, 0))];
             after == listed[m := LessRef(listed[m])] && (m == d ==> mid[d].refcount + mid[d].openCount > 1)
    ensures Flushed(before, after, d, j + 1) && after[d].Inode? && after[d].body.entries == before[d].body.entries[j + 1..]
  {
    var es := before[d].body.entries;
    var m := es[j].inode;
    assert Drop(es[j..], 0) == es[j + 1..];
    forall x: nat ensures Sum(es[..j + 1], Names(x)) == Sum(es[..j], Names(x)) + (if x == m then 1 else 0) {
      NamesPrefix(es, j, x);
    }
    TermsNonNegative(m);
    SumNonNegative(es[..j], Names(m));
  }

  lemma FlushEnds(inodes: seq<Inode>, d: nat, j: nat)
    requires NoneAborted(inodes, d, j) && inodes[d].body.entries[j..] == []
    ensures j == |inodes[d].body.entries| && !FlushAborts(inodes, d)
  {
    assert inodes[d].body.entries[..j] == inodes[d].body.entries;
  }

  /** What emptying leaves. */
  lemma FlushLeaves(s: Fs, p: Pending, inodes: seq<Inode>, d: nat, f: nat)
    requires Balanced(s, p) && d < |s.inodes| && IsDir(s.inodes[d]) && Flushed(s.inodes, inodes, d, |s.inodes[d].body.entries|)
    requires f < |s.files| && s.files[f].File? && s.files[f].inode != d
    ensures |inodes| == |s.inodes| && IsDir(inodes[d]) && inodes[d].body == Dir([], 0) && SameBodies(s.inodes, inodes, {d})
    ensures var e := s.files[f].inode; e < |s.inodes| && s.inodes[e].Inode? && inodes[e].Inode? && inodes[e].body == s.inodes[e].body
  {
    hide Balanced;
    OpenedAlive(s, p, f);
    var es := s.inodes[d].body.entries;
    assert es[|es|..] == [];
  }

  lemma RootBalanced()
    ensures var es := [Entry(".", ROOT), Entry("..", ROOT)];
            var size := EntrySize(es[0]) + EntrySize(es[1]);
            Sum(es, EntryBytes()) == size &&
            Balanced(Fs([Inode(3, 0, Dir(es, size))], [], ToBlocks(size), 1, 0, []), Idle({}))
  {
    var es := [Entry(".", ROOT), Entry("..", ROOT)];
    var size := EntrySize(es[0]) + EntrySize(es[1]);
    var inodes := [Inode(3, 0, Dir(es, size))];
    assert es == [es[0]] + [es[1]] && [es[0]] == [] + [es[0]];
    forall f: Entry -> int ensures Sum(es, f) == f(es[0]) + f(es[1]) {
      SumSnoc([es[0]], es[1], f);
      SumSnoc([], es[0], f);
    }
    forall f: Inode -> int ensures Sum(inodes, f) == f(inodes[0]) { SumSnoc([], inodes[0], f); }
    forall i: nat ensures CountOk(inodes, [], Idle({}), i) {
      assert RefsIn(inodes[0], i) == Names(i)(es[0]) + Names(i)(es[1]);
    }
    assert es[0] == Entry(".", ROOT);
  }

  /** A file opened as it was, or emptied. */
  ghost predicate OpenedWith(n: Inode, m: Inode, cut: bool)
    requires HasContent(n)
  {
    && HasContent(m) && 0 <= n.body.size <= |n.body.data| && 0 <= m.body.size <= |m.body.data|
    && Content(m) == if cut then [] else Content(n)
  }

  /** fs_write's answer. */
  function WriteReply(n: Inode, f: File, offset: nat, count: nat, blocks: int, maxBlocks: int): Reply
    requires f.File?
  {
    if !f.isOpen then Failed(NotOpen)
    else if !IsReg(n) || f.access == ReadOnly then Failed(IoError)
    else if count == 0 then Done(0)
    else if offset + count > n.body.size && TruncateReply(n, offset + count, blocks, maxBlocks).Failed? then Failed(NoSpace)
    else Done(count)
  }

  /** The buffer work of fs_truncate */
  method ResizeData(data: seq<Byte>, size: nat, newSize: nat) returns (r: seq<Byte>)
    requires size <= |data| && newSize != size
    ensures |r| == Capacity(|data|, size, newSize) && newSize <= |r|
    ensures r[..newSize] == Resized(data[..size], newSize)
  {
    r := data;
    if newSize > size {
      if newSize > |data| {
        var alloc := |data| * 5 / 4;
        if newSize > alloc { alloc := newSize; }
        r := BufferResize(r, alloc);
      }
      GrownContent(data, size, r, newSize);
      r := BufferWrite(r, size, Zeros(newSize - size));
    } else {
      var alloc := |data| * 4 / 5;
      if newSize <= alloc { r := BufferResize(r, alloc); }
      ShrunkContent(data, size, r, newSize);
    }
  }

  // -----------------------------------------------------------------------------------------
  // The device
  // -----------------------------------------------------------------------------------------

  class FsNet {
    var inodes: seq<Inode>
    var files: seq<File>
    var fsBlocks: int
    var inodeCount: int
    var cacheSize: int
    var cache: seq<nat>
    var maxBlocks: int
    var cacheLimit: int

    /** The directories to which an entry has been added after they were emptied, or whose "." has
        been renamed. */
    ghost var untidy: set<nat>

    ghost function Now(): Fs
      reads this
    {
      Fs(inodes, files, fsBlocks, inodeCount, cacheSize, cache)
    }

    ghost predicate Valid()
      reads this
    {
      Balanced(Now(), Idle(untidy))
    }

    /** The inode file f is on. */
    ghost function On(f: nat): Inode
      requires f < |files| && files[f].File?
      reads this`inodes, this`files
    {
      if files[f].inode < |inodes| then inodes[files[f].inode] else Freed
    }

    // ---------------------------------------------------------------------------------------
    // Primitives
    // ---------------------------------------------------------------------------------------

    method IncRef(i: nat, ghost p: Pending)
      requires Balanced(Now(), p) && i < |inodes| && inodes[i].Inode?
      modifies this`inodes
      ensures Balanced(Now(), HoldRef(p, i))
      ensures inodes == old(inodes)[i := old(inodes[i]).(refcount := old(inodes[i]).refcount + 1)]
    {
      hide Balanced;
      HeldAlive(Now(), p, i);
      Recounted(Now(), p, HoldRef(p, i), i, 1, 0);
      inodes := inodes[i := inodes[i].(refcount := inodes[i].refcount + 1)];
    }

    method IncOpen(i: nat, ghost p: Pending)
      requires Balanced(Now(), p) && i < |inodes| && inodes[i].Inode?
      modifies this`inodes
      ensures Balanced(Now(), HoldOpen(p, i))
      ensures inodes == old(inodes)[i := old(inodes[i]).(openCount := old(inodes[i]).openCount + 1)]
    {
      hide Balanced;
      HeldAlive(Now(), p, i);
      Recounted(Now(), p, HoldOpen(p, i), i, 0, 1);
      inodes := inodes[i := inodes[i].(openCount := inodes[i].openCount + 1)];
    }

    /** inode_free */
    method InodeFree(i: nat)
      requires i < |inodes| && inodes[i].Inode? && inodes[i].refcount == 0 && inodes[i].openCount == 0
      requires IsDir(inodes[i]) ==> inodes[i].body.entries == []
      modifies this
      ensures Now() == Released(old(Now()), i)
      ensures maxBlocks == old(maxBlocks) && cacheLimit == old(cacheLimit) && untidy == old(untidy)
    {
      match inodes[i].body {
        case Reg(size, state, _) =>
          fsBlocks := fsBlocks - ToBlocks(size);
          if state == Loaded {
            cache := Without(cache, i);
            cacheSize := cacheSize - size;
          }
        case _ =>
      }
      inodes := inodes[i := Freed];
      inodeCount := inodeCount - 1;
    }

    /** inode_decref, on a reference that is held */
    method DecRef(i: nat, ghost p: Pending)
      requires Balanced(Now(), p) && i in p.refs
      requires i in p.untidy && i < |inodes| && inodes[i].Inode? ==> !AssertionFails(inodes[i], LessRef(inodes[i]))
      modifies this
      ensures Balanced(Now(), StoreRef(p, i))
      ensures i < |old(inodes)| && old(inodes)[i].Inode? && inodes == old(inodes)[i := LessRef(old(inodes)[i])]
      ensures files == old(files) && maxBlocks == old(maxBlocks) && cacheLimit == old(cacheLimit) && untidy == old(untidy)
    {
      hide Balanced;
      HeldAlive(Now(), p, i);
      ghost var s := Now();
      inodes := inodes[i := inodes[i].(refcount := inodes[i].refcount - 1)];
      if inodes[i].refcount <= 0 && inodes[i].openCount <= 0 {
        ReleasedKeeps(s, p, StoreRef(p, i), i);
        InodeFree(i);
        assert Now() == Released(s, i);
      } else {
        Recounted(s, p, StoreRef(p, i), i, -1, 0);
      }
    }

    /** inode_dec_open */
    method LowerOpen(i: nat)
      requires i < |inodes| && inodes[i].Inode? && inodes[i].openCount >= 1 && inodes[i].refcount >= 0
      requires !AssertionFails(inodes[i], LessOpen(inodes[i]))
      modifies this
      ensures Now() == OpenDropped(old(Now()), i) && maxBlocks == old(maxBlocks) && cacheLimit == old(cacheLimit) && untidy == old(untidy)
    {
      ghost var s := Now();
      inodes := inodes[i := inodes[i].(openCount := inodes[i].openCount - 1)];
      if inodes[i].openCount <= 0 && inodes[i].refcount <= 0 {
        InodeFree(i);
        assert Now() == Released(s, i);
      }
    }

    /** inode_dec_open, on an open that is held */
    method DecOpen(i: nat, ghost p: Pending)
      requires Balanced(Now(), p) && i in p.opens
      requires i in p.untidy && i < |inodes| && inodes[i].Inode? ==> !AssertionFails(inodes[i], LessOpen(inodes[i]))
      modifies this
      ensures Balanced(Now(), StoreOpen(p, i))
      ensures i < |old(inodes)| && old(inodes)[i].Inode? && inodes == old(inodes)[i := LessOpen(old(inodes)[i])]
      ensures files == old(files) && maxBlocks == old(maxBlocks) && cacheLimit == old(cacheLimit) && untidy == old(untidy)
    {
      hide Balanced;
      HeldAlive(Now(), p, i);
      OpenDroppedKeeps(Now(), p, i);
      LowerOpen(i);
    }

    /** inode_new: the reference it counts is held until an entry stores it. */
    method InodeNew(body: Body, ghost p: Pending) returns (i: nat)
      requires Balanced(Now(), p)
      requires body == Dir([], 0) || body == Reg(0, Local, []) || body.Symlink? || body.Special?
      modifies this`inodes, this`inodeCount
      ensures Balanced(Now(), HoldRef(p, i))
      ensures i == |old(inodes)| && inodes == old(inodes) + [Inode(1, 0, body)]
    {
      Appended(Now(), Now().(inodes := inodes + [Inode(1, 0, body)], count := inodeCount + 1), p, Inode(1, 0, body));
      i := |inodes|;
      inodes := inodes + [Inode(1, 0, body)];
      inodeCount := inodeCount + 1;
    }

    /** inode_dir_add */
    method DirAdd(d: nat, name: string, i: nat, ghost p: Pending)
      requires Balanced(Now(), p) && d < |inodes| && IsDir(inodes[d]) && i in p.refs
      requires inodes[d].body.entries != [] || d in p.untidy || (name == "." && i == d)
      modifies this`inodes, this`fsBlocks
      ensures Balanced(Now(), StoreRef(p, i))
      ensures inodes == old(inodes)[d := WithEntries(old(inodes)[d], old(inodes)[d].body.entries + [Entry(name, i)])]
      ensures inodes[d].body.dirSize == old(inodes)[d].body.dirSize + 32 + |name| + 1
    {
      hide Balanced;
      AddedKeeps(Now(), p, d, Entry(name, i));
      var es := inodes[d].body.entries;
      DirSized(Now(), p, d);
      SumSnoc(es, Entry(name, i), EntryBytes());
      var newSize := inodes[d].body.dirSize + EntrySize(Entry(name, i));
      fsBlocks := fsBlocks + ToBlocks(newSize) - ToBlocks(inodes[d].body.dirSize);
      inodes := inodes[d := inodes[d].(body := Dir(es + [Entry(name, i)], newSize))];
    }

    /** inode_dirent_delete_no_decref: the reference of the entry becomes held. */
    method DirDeleteNoDecref(d: nat, k: nat, ghost p: Pending)
      requires Balanced(Now(), p) && d < |inodes| && IsDir(inodes[d]) && k < |inodes[d].body.entries|
      requires d in p.untidy || inodes[d].body.entries[k] != Entry(".", d)
      modifies this`inodes, this`fsBlocks
      ensures Balanced(Now(), HoldRef(p, old(inodes)[d].body.entries[k].inode))
      ensures inodes == old(inodes)[d := WithEntries(old(inodes)[d], Drop(old(inodes)[d].body.entries, k))]
    {
      hide Balanced;
      DroppedKeeps(Now(), p, d, k);
      var es := inodes[d].body.entries;
      DirSized(Now(), p, d);
      SumWithout(es, k, EntryBytes());
      var newSize := inodes[d].body.dirSize - EntrySize(es[k]);
      fsBlocks := fsBlocks + ToBlocks(newSize) - ToBlocks(inodes[d].body.dirSize);
      inodes := inodes[d := inodes[d].(body := Dir(Drop(es, k), newSize))];
    }

    // ---------------------------------------------------------------------------------------
    // Looking up names
    // ---------------------------------------------------------------------------------------

    /** inode_search */
    method Search(n: nat, name: string) returns (k: int)
      requires n < |inodes| && inodes[n].Inode?
      ensures k >= 0 ==> FoundAt(inodes[n], name, k)
      ensures k < 0 <==> !HasName(inodes[n], name)
    {
      if !inodes[n].body.Dir? { return -1; }
      var es := inodes[n].body.entries;
      k := 0;
      while k < |es|
        invariant 0 <= k <= |es|
        invariant forall j :: 0 <= j < k ==> es[j].name != name
      {
        if es[k].name == name { return; }
        k := k + 1;
      }
      return -1;
    }

    /** is_empty_dir */
    method IsEmptyDir(n: nat) returns (empty: bool)
      requires n < |inodes| && IsDir(inodes[n])
      ensures empty <==> forall e :: e in inodes[n].body.entries ==> e.name == "." || e.name == ".."
    {
      var es := inodes[n].body.entries;
      var k := 0;
      while k < |es|
        invariant 0 <= k <= |es|
        invariant forall j :: 0 <= j < k ==> es[j].name == "." || es[j].name == ".."
      {
        if es[k].name != "." && es[k].name != ".." { return false; }
        k := k + 1;
      }
      return true;
    }

    /** fid_create */
    method FidCreate(n: nat) returns (f: nat)
      requires Valid() && n < |inodes| && inodes[n].Inode?
      modifies this`inodes, this`files
      ensures Valid()
      ensures f == |old(files)| && files == old(files) + [File(n, false, ReadOnly)]
      ensures inodes == old(inodes)[n := old(inodes)[n].(openCount := old(inodes)[n].openCount + 1)]
      ensures SameBodies(old(inodes), inodes, {})
    {
      hide Balanced;
      IncOpen(n, Idle(untidy));
      FileAdded(Now(), HoldOpen(Idle(untidy), n), n);
      NothingHeld(Idle(untidy), n);
      f := |files|;
      files := files + [File(n, false, ReadOnly)];
    }

    /** fs_attach */
    method Attach() returns (f: nat)
      requires Valid()
      modifies this`inodes, this`files
      ensures Valid()
      ensures f == |old(files)| && files == old(files) + [File(ROOT, false, ReadOnly)]
      ensures |inodes| == |old(inodes)| && old(inodes)[ROOT].Inode?
      ensures inodes == old(inodes)[ROOT := old(inodes)[ROOT].(openCount := old(inodes)[ROOT].openCount + 1)]
    {
      f := FidCreate(ROOT);
    }

    /** fs_walk */
    method Walk(f: nat, names: seq<string>) returns (count: nat, g: nat)
      requires Valid() && f < |files| && files[f].File?
      modifies this`inodes, this`files
      ensures Valid()
      ensures g == |old(files)| && files == old(files) + [File(Followed(old(inodes), old(files)[f].inode, names).1, false, ReadOnly)]
      ensures count == Followed(old(inodes), old(files)[f].inode, names).0
      ensures var n := Followed(old(inodes), old(files)[f].inode, names).1;
              n < |old(inodes)| && old(inodes)[n].Inode? &&
              inodes == old(inodes)[n := old(inodes)[n].(openCount := old(inodes)[n].openCount + 1)]
    {
      hide Balanced;
      OpenedAlive(Now(), Idle(untidy), f);
      var n: nat := files[f].inode;
      count := 0;
      while count < |names|
        invariant 0 <= count <= |names|
        invariant n < |inodes| && inodes[n].Inode?
        invariant inodes == old(inodes) && files == old(files) && Valid()
        invariant Followed(inodes, files[f].inode, names) ==
                  (count + Followed(inodes, n, names[count..]).0, Followed(inodes, n, names[count..]).1)
      {
        var k := Search(n, names[count]);
        assert names[count..][0] == names[count] && names[count..][1..] == names[count + 1..];
        if k < 0 { break; }
        FoundOnce(inodes[n], names[count], k);
        EntryAlive(Now(), Idle(untidy), n, k);
        n := inodes[n].body.entries[k].inode;
        count := count + 1;
      }
      g := FidCreate(n);
    }

    // ---------------------------------------------------------------------------------------
    // Adding entries
    // ---------------------------------------------------------------------------------------

    /** An entry is about to be added: an emptied directory becomes untidy. */
    ghost method Untidied(d: nat, p: Pending)
      requires Balanced(Now(), p) && p.untidy == untidy && d < |inodes| && IsDir(inodes[d])
      modifies this`untidy
      ensures untidy == UntidyWith(old(untidy), inodes[d], d) && Balanced(Now(), p.(untidy := untidy))
      ensures inodes[d].body.entries != [] || d in untidy
    {
      if inodes[d].body.entries == [] { untidy := untidy + {d}; }
      UntidyChanged(Now(), p, p.(untidy := untidy));
    }

    /** inode_new and inode_dir_add of an inode that is not a directory */
    method AddNew(n: nat, name: string, body: Body) returns (i: nat)
      requires Valid() && n < |inodes| && IsDir(inodes[n])
      requires body == Reg(0, Local, []) || body.Symlink? || body.Special?
      modifies this`inodes, this`inodeCount, this`fsBlocks, this`untidy
      ensures Valid() && i == |old(inodes)| && untidy == UntidyWith(old(untidy), old(inodes)[n], n)
      ensures inodes == old(inodes)[n := WithEntries(old(inodes)[n], old(inodes)[n].body.entries + [Entry(name, i)])] +
                        [Inode(1, 0, body)]
    {
      hide Balanced;
      Untidied(n, Idle(untidy));
      i := InodeNew(body, Idle(untidy));
      DirAdd(n, name, i, HoldRef(Idle(untidy), i));
      NothingHeld(Idle(untidy), i);
    }

    /** A directory with its entries "." and "..", before it has a name */
    method NewDirectory(parent: nat) returns (i: nat)
      requires Valid() && parent < |inodes| && inodes[parent].Inode?
      modifies this`inodes, this`inodeCount, this`fsBlocks
      ensures i == |old(inodes)| && Balanced(Now(), HoldRef(Idle(untidy), i))
      ensures inodes == old(inodes)[parent := old(inodes)[parent].(refcount := old(inodes)[parent].refcount + 1)] +
                        [WithEntries(Inode(2, 0, Dir([], 0)), [Entry(".", i), Entry("..", parent)])]
    {
      hide Balanced;
      i := InodeNew(Dir([], 0), Idle(untidy));
      IncRef(i, HoldRef(Idle(untidy), i));
      DirAdd(i, ".", i, HoldRef(HoldRef(Idle(untidy), i), i));
      NothingHeld(HoldRef(Idle(untidy), i), i);
      IncRef(parent, HoldRef(Idle(untidy), i));
      DirAdd(i, "..", parent, HoldRef(HoldRef(Idle(untidy), i), parent));
      NothingHeld(HoldRef(Idle(untidy), i), parent);
      assert [] + [Entry(".", i)] == [Entry(".", i)];
      assert [Entry(".", i)] + [Entry("..", parent)] == [Entry(".", i), Entry("..", parent)];
    }

    /** fs_mkdir */
    method Mkdir(f: nat, name: string) returns (r: Reply)
      requires Valid() && f < |files| && files[f].File?
      modifies this`inodes, this`inodeCount, this`fsBlocks, this`untidy
      ensures Valid()
      ensures r.Failed? ==> Now() == old(Now()) && untidy == old(untidy)
      ensures r.Done? ==> untidy == UntidyWith(old(untidy), old(On(f)), files[f].inode)
      ensures var n := old(On(f));
              r == if !IsDir(n) then Failed(NotDir) else if HasName(n, name) then Failed(Exists) else Done(|old(inodes)|)
      ensures r.Done? ==>
                var d, n := files[f].inode, old(On(f));
                && r.n == |old(inodes)| && d < |old(inodes)| && n.Inode? && HasDirectory(old(inodes), inodes, d, name)
    {
      hide Balanced, HasDirectory, WithEntries, HasName;
      OpenedAlive(Now(), Idle(untidy), f);
      var d: nat := files[f].inode;
      if !inodes[d].body.Dir? { return Failed(NotDir); }
      var k := Search(d, name);
      if k >= 0 { return Failed(Exists); }
      DirectoryMade(inodes, d, name);
      Untidied(d, Idle(untidy));
      var i := NewDirectory(d);
      DirAdd(d, name, i, HoldRef(Idle(untidy), i));
      NothingHeld(Idle(untidy), i);
      return Done(i);
    }

    /** fs_create.  The new open is counted before the old one is dropped. */
    method Create(f: nat, name: string, access: Access) returns (r: Reply)
      requires Valid() && f < |files| && files[f].File?
      modifies this
      ensures !r.Aborted? ==> Valid()
      ensures r.Failed? ==> Now() == old(Now()) && untidy == old(untidy)
      ensures r.Done? ==> untidy == UntidyWith(old(untidy), old(On(f)), old(files)[f].inode)
      ensures var n := old(On(f));
              r == if !IsDir(n) then Failed(NotDir) else if HasName(n, name) then Failed(Exists)
                   else if LessOpen(n).Freed? then Aborted else Done(|old(inodes)|)
      ensures r.Aborted? ==> old(On(f)).body.entries == [] || old(files)[f].inode in old(untidy)
      ensures r.Done? ==>
                var d, n := old(files)[f].inode, old(On(f));
                && |inodes| == r.n + 1 && files == old(files)[f := File(r.n, true, access)]
                && inodes[d] == LessOpen(WithEntries(n, n.body.entries + [Entry(name, r.n)]))
                && inodes[r.n] == Inode(1, 1, Reg(0, Local, []))
                && (forall j :: 0 <= j < r.n && j != d ==> inodes[j] == old(inodes)[j])
      ensures !r.Aborted? ==> maxBlocks == old(maxBlocks) && cacheLimit == old(cacheLimit)
    {
      hide Balanced, WithEntries, HasName, LessOpen, AssertionFails;
      OpenedAlive(Now(), Idle(untidy), f);
      var d: nat := files[f].inode;
      if !inodes[d].body.Dir? { return Failed(NotDir); }
      var k := Search(d, name);
      if k >= 0 { return Failed(Exists); }
      LastOpenIsEmpty(Now(), untidy, d);
      OpenOfDirectory(inodes[d], name, |inodes|);
      var i := AddNew(d, name, Reg(0, Local, []));
      if LessOpen(inodes[d]).Freed? { return Aborted; }
      IncOpen(i, Idle(untidy));
      DirNotAwaited(Now(), HoldOpen(Idle(untidy), i), f);
      FileReplaced(Now(), HoldOpen(Idle(untidy), i), HoldOpen(Idle(untidy), d), f, File(i, true, access));
      files := files[f := File(i, true, access)];
      DecOpen(d, HoldOpen(Idle(untidy), d));
      NothingHeld(Idle(untidy), d);
      return Done(i);
    }

    /** fs_symlink and fs_mknod, once the type of the latter has been checked */
    method MakeNode(f: nat, name: string, body: Body) returns (r: Reply)
      requires Valid() && f < |files| && files[f].File?
      requires body == Reg(0, Local, []) || body.Symlink? || body.Special?
      modifies this`inodes, this`inodeCount, this`fsBlocks, this`untidy
      ensures Valid()
      ensures r.Failed? ==> Now() == old(Now()) && untidy == old(untidy)
      ensures r.Done? ==> untidy == UntidyWith(old(untidy), old(On(f)), files[f].inode)
      ensures r == if HasName(old(On(f)), name) then Failed(Exists)
                   else if !IsDir(old(On(f))) then Aborted else Done(|old(inodes)|)
      ensures r.Done? ==>
                var d := files[f].inode;
                inodes == old(inodes)[d := WithEntries(old(inodes)[d], old(inodes)[d].body.entries + [Entry(name, r.n)])] +
                          [Inode(1, 0, body)]
    {
      hide Balanced;
      OpenedAlive(Now(), Idle(untidy), f);
      var k := Search(files[f].inode, name);
      if k >= 0 { return Failed(Exists); }
      if !inodes[files[f].inode].body.Dir? { return Aborted; }
      var i := AddNew(files[f].inode, name, body);
      return Done(i);
    }

    /** fs_link: a second name for what file f is on, in the directory file df is on */
    method Link(df: nat, f: nat, name: string) returns (r: Reply)
      requires Valid() && f < |files| && files[f].File? && df < |files| && files[df].File?
      modifies this`inodes, this`fsBlocks, this`untidy
      ensures Valid()
      ensures r.Failed? ==> Now() == old(Now()) && untidy == old(untidy)
      ensures r.Done? ==> untidy == UntidyWith(old(untidy), old(On(df)), files[df].inode)
      ensures r == if IsDir(old(On(f))) then Failed(NotPermitted)
                   else if HasName(old(On(df)), name) then Failed(Exists)
                   else if !IsDir(old(On(df))) then Aborted else Done(0)
      ensures r.Done? ==>
                var d, i := files[df].inode, files[f].inode;
                old(On(f)).Inode? && inodes == old(inodes)[i := old(inodes)[i].(refcount := old(inodes)[i].refcount + 1)]
                                     [d := WithEntries(old(inodes)[d], old(inodes)[d].body.entries + [Entry(name, i)])]
    {
      hide Balanced;
      OpenedAlive(Now(), Idle(untidy), f);
      OpenedAlive(Now(), Idle(untidy), df);
      if inodes[files[f].inode].body.Dir? { return Failed(NotPermitted); }
      var k := Search(files[df].inode, name);
      if k >= 0 { return Failed(Exists); }
      if !inodes[files[df].inode].body.Dir? { return Aborted; }
      var i: nat := files[f].inode;
      Untidied(files[df].inode, Idle(untidy));
      IncRef(i, Idle(untidy));
      DirAdd(files[df].inode, name, i, HoldRef(Idle(untidy), i));
      NothingHeld(Idle(untidy), i);
      return Done(0);
    }

    // ---------------------------------------------------------------------------------------
    // Removing entries and files
    // ---------------------------------------------------------------------------------------

    /** fs_delete.  The assertion of inode_free fails exactly if the file is the last use of a
        directory that has entries.  Otherwise the invariant is kept exactly if no load in progress
        is to open the file, or the inode is released with it: else the load will complete the open
        of a freed FSFile. */
    method Delete(f: nat) returns (aborted: bool)
      requires Valid() && f < |files| && files[f].File?
      modifies this
      ensures old(On(f)).Inode? && (aborted <==> AssertionFails(old(On(f)), LessOpen(old(On(f)))))
      ensures aborted ==> old(files)[f].inode in old(untidy)
      ensures !aborted ==> (Valid() <==> old(NotAwaited(inodes, f)) || LessOpen(old(On(f))).Freed?)
      ensures files == old(files)[f := Closed]
      ensures inodes == old(inodes)[old(files)[f].inode :=
                if aborted then old(On(f)).(openCount := old(On(f)).openCount - 1) else LessOpen(old(On(f)))]
      ensures maxBlocks == old(maxBlocks) && cacheLimit == old(cacheLimit) && untidy == old(untidy)
    {
      hide Balanced;
      DeletedExactly(Now(), untidy, f);
      var i: nat := files[f].inode;
      files := files[f := Closed];
      if AssertionFails(inodes[i], LessOpen(inodes[i])) {
        inodes := inodes[i := inodes[i].(openCount := inodes[i].openCount - 1)];
        return true;
      }
      LowerOpen(i);
      aborted := false;
    }

    /** inode_dirent_delete */
    method DirDelete(d: nat, k: nat, ghost p: Pending)
      requires Balanced(Now(), p) && d < |inodes| && IsDir(inodes[d]) && k < |inodes[d].body.entries|
      requires d in p.untidy || inodes[d].body.entries[k] != Entry(".", d)
      requires var m := inodes[d].body.entries[k].inode;
               var listed := inodes[d := WithEntries(inodes[d], Drop(inodes[d].body.entries, k))];
               m in p.untidy && m < |inodes| && listed[m].Inode? ==> !AssertionFails(listed[m], LessRef(listed[m]))
      modifies this
      ensures Balanced(Now(), p)
      ensures var m := old(inodes)[d].body.entries[k].inode;
              var listed := old(inodes)[d := WithEntries(old(inodes)[d], Drop(old(inodes)[d].body.entries, k))];
              m < |listed| && listed[m].Inode? && inodes == listed[m := LessRef(listed[m])]
      ensures files == old(files) && maxBlocks == old(maxBlocks) && cacheLimit == old(cacheLimit) && untidy == old(untidy)
    {
      hide Balanced;
      var m: nat := inodes[d].body.entries[k].inode;
      DirDeleteNoDecref(d, k, p);
      DecRef(m, HoldRef(p, m));
      NothingHeld(p, m);
    }

    /** flush_dir, of a directory that entry k of another directory, on which file f is, names */
    method FlushDir(d: nat, ghost f: nat, ghost k: nat) returns (aborted: bool)
      requires Balanced(Now(), Idle(untidy + {d})) && d < |inodes| && IsDir(inodes[d])
      requires f < |files| && files[f].File? && files[f].inode != d
      requires IsDir(On(f)) && k < |On(f).body.entries| && On(f).body.entries[k].inode == d
      modifies this
      ensures files == old(files) && maxBlocks == old(maxBlocks) && cacheLimit == old(cacheLimit) && untidy == old(untidy)
      ensures aborted <==> FlushAborts(old(inodes), d)
      ensures !aborted ==> Balanced(Now(), Idle(untidy + {d})) && Flushed(old(inodes), inodes, d, |old(inodes)[d].body.entries|)
    {
      hide Balanced, Flushed, FlushAborts, NoneAborted, Lowered;
      ghost var p := Idle(untidy + {d});
      ghost var s, es, j: nat := Now(), inodes[d].body.entries, 0;
      FlushStarts(s, p, d);
      while inodes[d].body.entries != []
        invariant files == old(files) && maxBlocks == old(maxBlocks) && cacheLimit == old(cacheLimit) && untidy == old(untidy)
        invariant Balanced(Now(), p) && j <= |es| && Flushed(s.inodes, inodes, d, j) && NoneAborted(s.inodes, d, j)
        invariant d < |inodes| && IsDir(inodes[d]) && inodes[d].body.entries == es[j..]
        decreases |es| - j
      {
        FlushKeeps(s, Now(), p, d, j, f, k);
        ghost var before := inodes;
        var m: nat := inodes[d].body.entries[0].inode;
        EntryAlive(Now(), p, d, 0);
        FlushFails(s, p, d, j, inodes);
        if m != d && AssertionFails(inodes[m], LessRef(inodes[m])) { return true; }
        DirDelete(d, 0, p);
        FlushStep(s.inodes, before, inodes, d, j);
        j := j + 1;
      }
      FlushEnds(s.inodes, d, j);
      return false;
    }

    /** fs_unlinkat */
    method UnlinkAt(f: nat, name: string) returns (r: Reply)
      requires Valid() && f < |files| && files[f].File?
      modifies this
      ensures files == old(files) && maxBlocks == old(maxBlocks) && cacheLimit == old(cacheLimit) && untidy == old(untidy)
      ensures !r.Aborted? ==> Valid() && |inodes| == |old(inodes)|
      ensures r.Aborted? ==> untidy != {}
      ensures r.Failed? ==> Now() == old(Now())
      ensures r == Failed(NotFound) <==> name == "." || name == ".." || !HasName(old(On(f)), name)
      ensures r != Failed(NotFound) ==>
                exists k: nat :: FoundAt(old(On(f)), name, k) && UnlinkAnswer(r, old(inodes), files[f].inode, k) &&
                                 (r.Done? ==> UnlinkedAs(old(inodes), inodes, files[f].inode, k))
    {
      hide Balanced, Flushed, FlushAborts;
      if name == "." || name == ".." { return Failed(NotFound); }
      OpenedAlive(Now(), Idle(untidy), f);
      var d: nat := files[f].inode;
      var k := Search(d, name);
      if k < 0 { return Failed(NotFound); }
      EntryAlive(Now(), Idle(untidy), d, k);
      var i: nat := inodes[d].body.entries[k].inode;
      ghost var s := Now();
      if inodes[i].body.Dir? {
        var empty := IsEmptyDir(i);
        if !empty { return Failed(NotEmpty); }
        UntidyChanged(Now(), Idle(untidy), Idle(untidy + {i}));
        var aborted := FlushDir(i, f, k);
        if aborted {
          FlushAbortsUntidy(s, untidy, i);
          return Aborted;
        }
        FlushLeaves(s, Idle(untidy), inodes, i, f);
        UntidyChanged(Now(), Idle(untidy + {i}), Idle(untidy));
      }
      ghost var before := inodes;
      DirDelete(d, k, Idle(untidy));
      return Done(0);
    }

    /** fs_renameat.  It uses the entry it moves after freeing it exactly if a file is renamed onto
        itself. */
    method RenameAt(f: nat, name: string, g: nat, newName: string) returns (r: Reply)
      requires Valid() && f < |files| && files[f].File? && g < |files| && files[g].File?
      modifies this
      ensures files == old(files) && |inodes| == |old(inodes)| && maxBlocks == old(maxBlocks) && cacheLimit == old(cacheLimit)
      ensures r == UsesFreed <==> RenamedOntoItself(old(inodes), files[f].inode, name, files[g].inode, newName)
      ensures r != UsesFreed ==> Valid()
      ensures old(untidy) <= untidy <= old(untidy) + {files[f].inode, files[g].inode}
      ensures name != "." && old(On(g)).Inode? && IsDir(old(On(g))) && |old(On(g)).body.entries| > 1 ==> untidy == old(untidy)
      ensures r.Failed? ==> Now() == old(Now()) && untidy == old(untidy)
      ensures r == Failed(NotFound) <==> !HasName(old(On(f)), name)
      ensures r == Aborted <==> HasName(old(On(f)), name) && !IsDir(old(On(g)))
      ensures r != Failed(NotFound) && r != Aborted ==>
                exists k: nat :: FoundAt(old(On(f)), name, k) &&
                                 RenamedAs(r, old(inodes), inodes, files[f].inode, k, files[g].inode, newName)
    {
      hide Balanced;
      OpenedAlive(Now(), Idle(untidy), f);
      OpenedAlive(Now(), Idle(untidy), g);
      var d: nat, e: nat := files[f].inode, files[g].inode;
      var k := Search(d, name);
      if k < 0 { return Failed(NotFound); }
      EntryAlive(Now(), Idle(untidy), d, k);
      if !inodes[e].body.Dir? { return Aborted; }
      var k1 := Search(e, newName);
      if k1 >= 0 {
        FoundFirst(inodes, d, name, k, e, newName, k1);
        r := ReplaceEntry(d, k, e, k1, newName);
      } else {
        MoveEntry(d, k, e, newName, Idle(untidy));
        r := Done(0);
      }
    }

    /** An entry is about to be moved: a directory that loses its "." becomes untidy too. */
    ghost method MoveUntidied(d: nat, k: nat, e: nat, p: Pending)
      requires Balanced(Now(), p) && p.untidy == untidy
      requires d < |inodes| && IsDir(inodes[d]) && k < |inodes[d].body.entries| && e < |inodes| && IsDir(inodes[e])
      modifies this`untidy
      ensures Balanced(Now(), p.(untidy := untidy))
      ensures inodes[e].body.entries != [] || e in untidy
      ensures inodes[d].body.entries[k] != Entry(".", d) || d in untidy
      ensures old(untidy) <= untidy <= old(untidy) + {d, e}
      ensures inodes[d].body.entries[k].name != "." && inodes[e].body.entries != [] ==> untidy == old(untidy)
    {
      hide Balanced;
      Untidied(e, p);
      if inodes[d].body.entries[k] == Entry(".", d) {
        ghost var q := p.(untidy := untidy);
        untidy := untidy + {d};
        UntidyChanged(Now(), q, p.(untidy := untidy));
      }
    }

    /** The last steps of a rename: the new entry is added, then the old one deleted. */
    method MoveEntry(d: nat, k: nat, e: nat, newName: string, ghost p: Pending)
      requires Balanced(Now(), p) && p.untidy == untidy
      requires d < |inodes| && IsDir(inodes[d]) && k < |inodes[d].body.entries|
      requires e < |inodes| && IsDir(inodes[e])
      requires inodes[d].openCount > 0 && inodes[e].openCount > 0
      modifies this
      ensures Balanced(Now(), p.(untidy := untidy)) && |inodes| == |old(inodes)|
      ensures MovedAs(old(inodes), inodes, d, k, e, newName)
      ensures old(untidy) <= untidy <= old(untidy) + {d, e}
      ensures old(inodes)[d].body.entries[k].name != "." && old(inodes)[e].body.entries != [] ==> untidy == old(untidy)
      ensures files == old(files) && maxBlocks == old(maxBlocks) && cacheLimit == old(cacheLimit)
    {
      hide Balanced, MovedAs, WithEntries, LessRef, AssertionFails, Drop;
      var i: nat := inodes[d].body.entries[k].inode;
      EntryAlive(Now(), p, d, k);
      ghost var before := inodes;
      MovedBySteps(before, d, k, e, newName);
      MoveUntidied(d, k, e, p);
      ghost var q := p.(untidy := untidy);
      IncRef(i, q);
      DirAdd(e, newName, i, HoldRef(q, i));
      NothingHeld(q, i);
      DirDelete(d, k, q);
    }

    /** A rename onto an existing entry: its reference is dropped last. */
    method ReplaceEntry(d: nat, k: nat, e: nat, k1: nat, newName: string) returns (r: Reply)
      requires Valid()
      requires d < |inodes| && IsDir(inodes[d]) && k < |inodes[d].body.entries|
      requires e < |inodes| && IsDir(inodes[e]) && k1 < |inodes[e].body.entries|
      requires inodes[d].openCount > 0 && inodes[e].openCount > 0
      modifies this
      ensures |inodes| == |old(inodes)| && files == old(files) && (r != UsesFreed ==> Valid())
      ensures r.Failed? ==> Now() == old(Now()) && untidy == old(untidy)
      ensures ReplacedAs(r, old(inodes), inodes, d, k, e, k1, newName)
      ensures old(untidy) <= untidy <= old(untidy) + {d, e}
      ensures old(inodes)[d].body.entries[k].name != "." && |old(inodes)[e].body.entries| > 1 ==> untidy == old(untidy)
      ensures maxBlocks == old(maxBlocks) && cacheLimit == old(cacheLimit)
    {
      hide Balanced;
      EntryAlive(Now(), Idle(untidy), e, k1);
      var n1: nat := inodes[e].body.entries[k1].inode;
      if inodes[n1].body.Dir? { return Failed(Exists); }
      DirDeleteNoDecref(e, k1, Idle(untidy));
      var at := PlaceAfter(d, k, e, k1);
      if at.None? { return UsesFreed; }
      MoveEntry(d, at.value, e, newName, HoldRef(Idle(untidy), n1));
      DecRef(n1, HoldRef(Idle(untidy), n1));
      NothingHeld(Idle(untidy), n1);
      return Done(0);
    }

    // ---------------------------------------------------------------------------------------
    // The content of files
    // ---------------------------------------------------------------------------------------

    /** The file is modified, so it is now local: it leaves the cache. */
    method MakeLocal(i: nat)
      requires Valid() && i < |inodes| && IsReg(inodes[i]) && HasContent(inodes[i])
      modifies this`inodes, this`cacheSize, this`cache
      ensures Valid()
      ensures inodes == old(inodes)[i := WithFile(old(inodes)[i], old(inodes)[i].body.size, Local, old(inodes)[i].body.data)]
    {
      hide Balanced;
      var b := inodes[i].body;
      FileShape(Now(), Idle(untidy), i);
      RefiledKeeps(Now(), untidy, i, b.size, Local, b.data);
      if b.state == Loaded {
        cache := Without(cache, i);
        cacheSize := cacheSize - b.size;
      }
      inodes := inodes[i := WithFile(inodes[i], b.size, Local, b.data)];
    }

    /** The part of fs_truncate for a file whose content is there */
    method ResizeContent(i: nat, size: nat)
      requires Valid() && i < |inodes| && HasContent(inodes[i]) && 0 <= inodes[i].body.size <= |inodes[i].body.data|
      requires size != inodes[i].body.size
      modifies this`inodes, this`cacheSize, this`cache, this`fsBlocks
      ensures Valid() && |inodes| == |old(inodes)| && inodes == old(inodes)[i := inodes[i]]
      ensures TruncatedTo(old(inodes)[i], inodes[i], size)
    {
      hide Balanced;
      var Reg(oldSize, state, data) := inodes[i].body;
      var resized := ResizeData(data, oldSize, size);
      RefiledKeeps(Now(), untidy, i, size, Local, resized);
      if state == Loaded {
        cache := Without(cache, i);
        cacheSize := cacheSize - oldSize;
      }
      fsBlocks := fsBlocks + (ToBlocks(size) - ToBlocks(oldSize));
      inodes := inodes[i := WithFile(inodes[i], size, Local, resized)];
    }

    /** fs_truncate */
    method Truncate(i: nat, size: nat) returns (r: Reply)
      requires Valid() && i < |inodes| && inodes[i].Inode?
      modifies this`inodes, this`cacheSize, this`cache, this`fsBlocks
      ensures Valid()
      ensures r == TruncateReply(old(inodes)[i], size, old(fsBlocks), maxBlocks)
      ensures r.Failed? ==> Now() == old(Now())
      ensures r.Done? ==> |inodes| == |old(inodes)| && inodes == old(inodes)[i := inodes[i]] &&
                          TruncatedTo(old(inodes)[i], inodes[i], size)
    {
      hide Balanced;
      if !inodes[i].body.Reg? { return Failed(Invalid); }
      FileShape(Now(), Idle(untidy), i);
      var Reg(oldSize, state, data) := inodes[i].body;
      if size == oldSize { return Done(0); }
      var diffBlocks := ToBlocks(size) - ToBlocks(oldSize);
      if state.Loading? {
        return Failed(IoError);
      } else if state == Unloaded {
        var newState := if size == 0 then Local else Unloaded;
        RefiledKeeps(Now(), untidy, i, size, newState, data);
        fsBlocks := fsBlocks + diffBlocks;
        inodes := inodes[i := WithFile(inodes[i], size, newState, data)];
      } else {
        if size > oldSize && fsBlocks + diffBlocks > maxBlocks { return Failed(NoSpace); }
        ResizeContent(i, size);
      }
      return Done(0);
    }

    /** The end of fs_write, with the file large enough: c is what it was before. */
    method Store(i: nat, offset: nat, bytes: seq<Byte>, ghost c: seq<Byte>)
      requires Valid() && i < |inodes| && HasContent(inodes[i]) && bytes != []
      requires offset + |bytes| <= inodes[i].body.size <= |inodes[i].body.data|
      requires Content(inodes[i]) == if offset + |bytes| > |c| then Resized(c, offset + |bytes|) else c
      modifies this`inodes, this`cacheSize, this`cache
      ensures Valid() && |inodes| == |old(inodes)|
      ensures HasContent(inodes[i]) && inodes[i].body.size == old(inodes)[i].body.size <= |inodes[i].body.data|
      ensures inodes == old(inodes)[i := old(inodes)[i].(body := inodes[i].body)]
      ensures inodes[i].body.state == Local && Content(inodes[i]) == Written(c, offset, bytes)
    {
      hide Balanced;
      MakeLocal(i);
      var b := inodes[i].body;
      WrittenContent(c, b.data, b.size, offset, bytes);
      RefiledKeeps(Now(), untidy, i, b.size, Local, BufferWrite(b.data, offset, bytes));
      inodes := inodes[i := WithFile(inodes[i], b.size, Local, BufferWrite(b.data, offset, bytes))];
    }

    /** fs_write */
    method Write(f: nat, offset: nat, bytes: seq<Byte>) returns (r: Reply)
      requires Valid() && f < |files| && files[f].File?
      modifies this`inodes, this`cacheSize, this`cache, this`fsBlocks
      ensures Valid()
      ensures r == WriteReply(old(On(f)), files[f], offset, |bytes|, old(fsBlocks), maxBlocks)
      ensures r.Failed? || bytes == [] ==> Now() == old(Now())
      ensures r.Done? && bytes != [] ==>
                var i := files[f].inode;
                && i < |inodes| == |old(inodes)| && inodes == old(inodes)[i := inodes[i]]
                && HasContent(old(On(f))) && 0 <= old(On(f)).body.size <= |old(On(f)).body.data|
                && HasContent(inodes[i]) && 0 <= inodes[i].body.size <= |inodes[i].body.data|
                && inodes[i] == old(On(f)).(body := inodes[i].body) && inodes[i].body.state == Local
                && Content(inodes[i]) == Written(Content(old(On(f))), offset, bytes)
    {
      hide Balanced;
      OpenedAlive(Now(), Idle(untidy), f);
      if !files[f].isOpen { return Failed(NotOpen); }
      OpenedHasContent(Now(), untidy, f);
      var i: nat := files[f].inode;
      if !inodes[i].body.Reg? { return Failed(IoError); }
      if files[f].access == ReadOnly { return Failed(IoError); }
      if bytes == [] { return Done(0); }
      FileShape(Now(), Idle(untidy), i);
      ghost var n := inodes[i];
      var end := offset + |bytes|;
      if end > inodes[i].body.size {
        var t := Truncate(i, end);
        if t.Failed? { return t; }
        FileShape(Now(), Idle(untidy), i);
      }
      Store(i, offset, bytes, Content(n));
      return Done(|bytes|);
    }

    /** fs_read */
    method Read(f: nat, offset: nat, count: nat) returns (r: Reply, bytes: seq<Byte>)
      requires Valid() && f < |files| && files[f].File?
      ensures r == if !files[f].isOpen then Failed(NotOpen)
                   else if !IsReg(On(f)) || files[f].access == WriteOnly then Failed(IoError) else Done(|bytes|)
      ensures r.Done? ==> HasContent(On(f)) && 0 <= On(f).body.size <= |On(f).body.data| &&
                          bytes == ReadBytes(Content(On(f)), offset, count)
      ensures r.Done? ==> var size := On(f).body.size;
                          && |bytes| == (if offset >= size then 0 else if count < size - offset then count else size - offset)
                          && forall k :: 0 <= k < |bytes| ==> bytes[k] == On(f).body.data[offset + k]
      ensures r.Failed? ==> bytes == []
    {
      hide Balanced;
      OpenedAlive(Now(), Idle(untidy), f);
      bytes := [];
      if !files[f].isOpen { return Failed(NotOpen), []; }
      OpenedHasContent(Now(), untidy, f);
      var n := inodes[files[f].inode];
      if !n.body.Reg? { return Failed(IoError), []; }
      if files[f].access == WriteOnly { return Failed(IoError), []; }
      FileShape(Now(), Idle(untidy), files[f].inode);
      if offset >= n.body.size { return Done(0), []; }
      var count1 := n.body.size - offset;
      var len := if count1 < count then count1 else count;
      bytes := n.body.data[offset..offset + len];
      return Done(len), bytes;
    }

    lemma FileIsThere(f: nat)
      requires Valid() && f < |files| && files[f].File?
      ensures files[f].inode < |inodes| && On(f).Inode?
    {
      OpenedAlive(Now(), Idle(untidy), f);
    }

    // ---------------------------------------------------------------------------------------
    // Loading and unloading files
    // ---------------------------------------------------------------------------------------

    /** Unloading one cached file: the step of fs_trim_cache */
    method Unload(j: nat)
      requires Valid() && j < |cache|
      requires cache[j] < |inodes| && IsLoaded(inodes[cache[j]]) && inodes[cache[j]].openCount == 0
      modifies this`inodes, this`cacheSize, this`cache
      ensures Valid() && cache == Drop(old(cache), j) && cacheSize == old(cacheSize) - old(inodes)[old(cache)[j]].body.size
      ensures var i := old(cache)[j]; inodes == old(inodes)[i := WithFile(old(inodes)[i], old(inodes)[i].body.size, Unloaded, [])]
    {
      hide Balanced;
      var i := cache[j];
      var b := inodes[i].body;
      UnloadKeeps(Now(), untidy, j);
      inodes := inodes[i := WithFile(inodes[i], b.size, Unloaded, [])];
      cache := cache[..j] + cache[j + 1..];
      cacheSize := cacheSize - b.size;
    }

    /** fs_trim_cache: from the least recently used file on, files that are not open are
        unloaded until there is room. */
    method TrimCache(added: int)
      requires Valid()
      modifies this`inodes, this`cacheSize, this`cache
      ensures Valid() && |inodes| == |old(inodes)|
      ensures old(cacheSize) + added <= cacheLimit ==> Now() == old(Now())
      ensures exists t :: 0 <= t <= |old(cache)| && cache == old(cache)[..t] + OpenOnes(old(inodes), old(cache)[t..]) &&
                          (t == 0 || cacheSize + added <= cacheLimit) &&
                          (t < |old(cache)| ==> cacheSize + added + Closable(old(inodes), old(cache)[t]) > cacheLimit)
      ensures forall i :: 0 <= i < |inodes| ==> inodes[i] == old(inodes)[i] || UnloadedFrom(old(inodes)[i], inodes[i])
    {
      hide Balanced, Trimmed;
      var t := |cache|;
      TrimStarts(Now(), Idle(untidy));
      ClosableNonNegative(Now(), untidy);
      if cacheSize + added <= cacheLimit { TrimmedIs(Now(), Now(), t); return; }
      while t > 0
        invariant 0 <= t && Valid() && Trimmed(old(Now()), Now(), t) && cacheSize + added > cacheLimit
      {
        TrimmedIs(old(Now()), Now(), t);
        TrimNext(old(Now()), Now(), t);
        t := t - 1;
        var i := cache[t];
        CacheListed(Now(), Idle(untidy));
        ghost var u := Now();
        if inodes[i].openCount == 0 {
          Unload(t);
          TrimUnloads(old(Now()), u, Now(), t);
          if cacheSize + added <= cacheLimit { break; }
        } else {
          TrimSkips(old(Now()), u, t);
        }
      }
      TrimmedIs(old(Now()), Now(), t);
    }

    /** fs_open_wget: inode i starts to be loaded; file waiter, if any, is opened at the end. */
    method StartLoad(i: nat, waiter: int)
      requires Valid() && i < |inodes| && IsReg(inodes[i]) && inodes[i].body.state == Unloaded
      requires waiter >= 0 ==> waiter < |files| && files[waiter].File? && files[waiter].inode == i
      modifies this`inodes, this`cacheSize, this`cache
      ensures Valid() && |inodes| == |old(inodes)|
      ensures IsReg(inodes[i]) && inodes[i] == old(inodes)[i].(body := inodes[i].body)
      ensures inodes[i].body.size == old(inodes)[i].body.size && inodes[i].body.state == Loading(0, waiter)
      ensures forall j :: 0 <= j < |inodes| && j != i ==>
                          inodes[j] == old(inodes)[j] || UnloadedFrom(old(inodes)[j], inodes[j])
    {
      hide Balanced, BodyOk, Trimmed, OpenOnes;
      TrimCache(inodes[i].body.size);
      FileSized(Now(), untidy, i);
      var size: nat := inodes[i].body.size;
      var data := BufferResize([], size);
      LoadStarts(Now(), untidy, i, waiter, data);
      inodes := inodes[i := WithFile(inodes[i], size, Loading(0, waiter), data)];
    }

    /** fs_wget_set_error: the load of inode i is given up. */
    method SetError(i: nat)
      requires Valid() && i < |inodes| && IsReg(inodes[i]) && inodes[i].body.state.Loading?
      modifies this`inodes
      ensures Valid()
      ensures inodes == old(inodes)[i := WithFile(old(inodes)[i], old(inodes)[i].body.size, Unloaded, [])]
    {
      hide Balanced;
      FileShape(Now(), Idle(untidy), i);
      RefiledKeeps(Now(), untidy, i, inodes[i].body.size, Unloaded, []);
      inodes := inodes[i := WithFile(inodes[i], inodes[i].body.size, Unloaded, [])];
    }

    /** fs_wget_set_loaded: inode i has all its bytes, and the open waiting for it completes. */
    method SetLoaded(i: nat)
      requires Valid() && i < |inodes| && IsReg(inodes[i]) && inodes[i].body.state.Loading?
      modifies this`inodes, this`cacheSize, this`cache, this`files
      ensures Valid()
      ensures inodes == old(inodes)[i := WithFile(old(inodes)[i], old(inodes)[i].body.size, Loaded, old(inodes)[i].body.data)]
      ensures cache == [i] + old(cache)
      ensures var w := old(inodes)[i].body.state.waiter;
              if w < 0 then files == old(files)
              else w < |old(files)| && old(files)[w].File? && files == old(files)[w := old(files)[w].(isOpen := true)]
    {
      hide Balanced;
      FileShape(Now(), Idle(untidy), i);
      var b := inodes[i].body;
      var w := b.state.waiter;
      RefiledKeeps(Now(), untidy, i, b.size, Loaded, b.data);
      inodes := inodes[i := WithFile(inodes[i], b.size, Loaded, b.data)];
      cache := [i] + cache;
      cacheSize := cacheSize + b.size;
      if w >= 0 {
        FileReplaced(Now(), Idle(untidy), Idle(untidy), w, files[w].(isOpen := true));
        files := files[w := files[w].(isOpen := true)];
      }
    }

    /** fs_open_write_cb: bytes have come; more than the file has room for are ignored. */
    method LoadBytes(i: nat, bytes: seq<Byte>)
      requires Valid() && i < |inodes| && IsReg(inodes[i]) && inodes[i].body.state.Loading?
      modifies this`inodes
      ensures Valid() && |inodes| == |old(inodes)|
      ensures IsReg(inodes[i]) && inodes == old(inodes)[i := old(inodes)[i].(body := inodes[i].body)]
      ensures inodes[i].body.state.Loading? && inodes[i].body.size == old(inodes)[i].body.size
      ensures inodes[i].body.state.waiter == old(inodes)[i].body.state.waiter
      ensures ReceivedBytes(old(inodes)[i].body, bytes) == ReceivedBytes(inodes[i].body, [])
    {
      hide Balanced;
      FileShape(Now(), Idle(untidy), i);
      var Reg(size, state, data) := inodes[i].body;
      var len := size - state.pos;
      if |bytes| < len { len := |bytes|; }
      var filled := BufferWrite(data, state.pos, bytes[..len]);
      assert filled[..state.pos + len] == data[..state.pos] + bytes[..len];
      RefiledKeeps(Now(), untidy, i, size, Loading(state.pos + len, state.waiter), filled);
      inodes := inodes[i := WithFile(inodes[i], size, Loading(state.pos + len, state.waiter), filled)];
    }

    /** fs_open_cb, of a file that is neither encrypted nor an archive: bytes of it have come, or
        the load has failed. */
    method Receive(i: nat, failed: bool, last: bool, bytes: seq<Byte>)
      requires Valid() && i < |inodes| && IsReg(inodes[i]) && inodes[i].body.state.Loading?
      modifies this`inodes, this`cacheSize, this`cache, this`files
      ensures Valid() && |inodes| == |old(inodes)| && IsReg(inodes[i])
      ensures inodes == old(inodes)[i := old(inodes)[i].(body := inodes[i].body)]
      ensures inodes[i].body.size == old(inodes)[i].body.size
      ensures var got := ReceivedBytes(old(inodes)[i].body, bytes); var b := inodes[i].body;
              if failed || (last && |got| < b.size) then b.state == Unloaded
              else if last then IsLoaded(inodes[i]) && b.data == got
              else b.state.Loading? && ReceivedBytes(b, []) == got
    {
      hide Balanced;
      if failed {
        SetError(i);
      } else {
        LoadBytes(i, bytes);
        FileShape(Now(), Idle(untidy), i);
        if last {
          if inodes[i].body.state.pos != inodes[i].body.size {
            SetError(i);
          } else {
            SetLoaded(i);
          }
        }
      }
    }

    /** fs_net_set_url: a local and empty file is from now on to be loaded from the network.  The
        invariant is kept exactly if the file is not open; an open one would lose its content. */
    method SetUrl(i: nat, size: nat) returns (r: Reply)
      requires Valid() && i < |inodes| && inodes[i].Inode?
      modifies this`inodes, this`fsBlocks
      ensures Valid() <==> r.Failed? || size == 0 || NotOpened(files, i)
      ensures var n := old(inodes)[i];
              r == if IsReg(n) && n.body.state == Local && n.body.data == [] then Done(0) else Failed(IoError)
      ensures r.Done? && size > 0 ==> inodes == old(inodes)[i := WithFile(old(inodes)[i], size, Unloaded, [])]
      ensures r.Failed? || size == 0 ==> Now() == old(Now())
    {
      hide Balanced;
      if !inodes[i].body.Reg? || inodes[i].body.state != Local || inodes[i].body.data != [] { return Failed(IoError); }
      if size > 0 {
        FileShape(Now(), Idle(untidy), i);
        SetUrlExactly(Now(), untidy, i, size);
        inodes := inodes[i := WithFile(inodes[i], size, Unloaded, [])];
        fsBlocks := fsBlocks + ToBlocks(size);
      }
      return Done(0);
    }

    /** Setting is_opened and open_flags of a file */
    method SetFile(f: nat, isOpen: bool, access: Access)
      requires Valid() && f < |files| && files[f].File? && (isOpen ==> MayOpen(inodes, files[f].inode))
      modifies this`files
      ensures Valid() && files == old(files)[f := File(old(files)[f].inode, isOpen, access)]
    {
      hide Balanced;
      FileReplaced(Now(), Idle(untidy), Idle(untidy), f, File(files[f].inode, isOpen, access));
      files := files[f := File(files[f].inode, isOpen, access)];
    }

    /** fs_close */
    method Close(f: nat)
      requires Valid() && f < |files| && files[f].File?
      modifies this`files
      ensures Valid() && files == old(files)[f := old(files)[f].(isOpen := false)]
    {
      SetFile(f, false, files[f].access);
    }

    /** The part of fs_open for a regular file that has been truncated where asked: open at once,
        or when its load ends. */
    method OpenRegular(f: nat) returns (r: Reply)
      requires Valid() && f < |files| && files[f].File? && IsReg(On(f)) && !files[f].isOpen
      modifies this`inodes, this`cacheSize, this`cache, this`files
      ensures Valid() && |inodes| == |old(inodes)| && |files| == |old(files)|
      ensures r == match old(On(f)).body.state
                   case Unloaded => Done(1)
                   case Loading(_, w) => if w >= 0 then Failed(IoError) else Done(1)
                   case _ => Done(0)
      ensures files == old(files)[f := old(files)[f].(isOpen := r == Done(0))]
      ensures On(f).Inode? && On(f) == old(On(f)).(body := On(f).body) && IsReg(On(f))
      ensures r != Done(1) ==> inodes == old(inodes)
      ensures r == Done(1) ==> On(f).body.state.Loading? && On(f).body.state.waiter == f &&
                               On(f).body.size == old(On(f)).body.size
      ensures forall j :: 0 <= j < |inodes| && j != files[f].inode ==>
                          inodes[j] == old(inodes)[j] || UnloadedFrom(old(inodes)[j], inodes[j])
    {
      hide Balanced;
      OpenedAlive(Now(), Idle(untidy), f);
      var i: nat := files[f].inode;
      var state := inodes[i].body.state;
      if state == Unloaded {
        StartLoad(i, f);
        return Done(1);
      } else if state.Loading? {
        if state.waiter >= 0 { return Failed(IoError); }
        FileShape(Now(), Idle(untidy), i);
        var b := inodes[i].body;
        RefiledKeeps(Now(), untidy, i, b.size, Loading(state.pos, f), b.data);
        inodes := inodes[i := WithFile(inodes[i], b.size, Loading(state.pos, f), b.data)];
        return Done(1);
      }
      if state == Loaded { MoveToFront(i); }
      SetFile(f, true, files[f].access);
      return Done(0);
    }

    /** The file becomes the most recently used one of the cache. */
    method MoveToFront(i: nat)
      requires Valid() && i < |inodes| && IsLoaded(inodes[i])
      modifies this`cache
      ensures Valid() && cache == [i] + Without(old(cache), i)
    {
      ListedToFront(Now(), untidy, i);
      cache := [i] + Without(cache, i);
    }

    /** The part of fs_open for a regular file: cut first, if asked. */
    method OpenFile(f: nat, cut: bool) returns (r: Reply)
      requires Valid() && f < |files| && files[f].File? && IsReg(On(f)) && !files[f].isOpen
      modifies this`inodes, this`cacheSize, this`cache, this`fsBlocks, this`files
      ensures Valid() && |inodes| == |old(inodes)| && |files| == |old(files)|
      ensures r == Done(0) || r == Done(1) || r == Failed(IoError)
      ensures r == Failed(IoError) <==> old(On(f)).body.state.Loading? && old(On(f)).body.state.waiter >= 0
      ensures files == old(files)[f := old(files)[f].(isOpen := r == Done(0))]
      ensures On(f).Inode? && IsReg(On(f)) && On(f) == old(On(f)).(body := On(f).body)
      ensures r == Done(0) ==> HasContent(On(f))
      ensures r == Done(0) && HasContent(old(On(f))) ==> OpenedWith(old(On(f)), On(f), cut)
      ensures r == Done(0) && !HasContent(old(On(f))) ==> cut && On(f).body.size == 0
      ensures r == Done(1) ==> On(f).body.state.Loading? && On(f).body.state.waiter == f && On(f).body.size == old(On(f)).body.size
      ensures r == Done(1) ==> old(On(f)).Inode? && On(f) == old(On(f)).(body := On(f).body)
      ensures r.Failed? ==> inodes == old(inodes)
      ensures forall j :: 0 <= j < |inodes| && j != files[f].inode ==>
                          inodes[j] == old(inodes)[j] || UnloadedFrom(old(inodes)[j], inodes[j])
    {
      hide Balanced;
      OpenedAlive(Now(), Idle(untidy), f);
      var i: nat := files[f].inode;
      FileShape(Now(), Idle(untidy), i);
      if cut {
        var _ := Truncate(i, 0);
      }
      FileShape(Now(), Idle(untidy), i);
      r := OpenRegular(f);
    }

    /** fs_open, without the preloading of other files */
    method Open(f: nat, directory: bool, truncate: bool, access: Access) returns (r: Reply)
      requires Valid() && f < |files| && files[f].File?
      modifies this
      ensures Valid() && |files| == |old(files)| && |inodes| == |old(inodes)| && files[f].File?
      ensures files == old(files)[f := files[f]] && files[f].inode == old(files)[f].inode
      ensures r == Failed(NotDir) <==> directory && !IsDir(old(On(f)))
      ensures r == Failed(Invalid) <==> !directory && !IsDir(old(On(f))) && !IsReg(old(On(f)))
      ensures r == Failed(IoError) <==>
              !directory && IsReg(old(On(f))) && old(On(f)).body.state.Loading? && old(On(f)).body.state.waiter >= 0
      ensures r == Done(0) || r == Done(1) || r == Failed(NotDir) || r == Failed(Invalid) || r == Failed(IoError)
      ensures files[f].isOpen <==> r == Done(0)
      ensures old(On(f)).Inode? && On(f).Inode? && On(f) == old(On(f)).(body := On(f).body) && (!IsReg(old(On(f))) ==> On(f) == old(On(f)))
      ensures IsReg(On(f)) == IsReg(old(On(f)))
      ensures r == Done(0) ==> files[f].access == access && (IsDir(On(f)) || HasContent(On(f)))
      ensures r == Done(0) && HasContent(old(On(f))) ==> OpenedWith(old(On(f)), On(f), truncate && access != ReadOnly)
      ensures r == Done(0) && IsReg(old(On(f))) && !HasContent(old(On(f))) ==>
                truncate && access != ReadOnly && IsReg(On(f)) && On(f).body.size == 0
      ensures r == Done(1) ==> IsReg(old(On(f))) && IsReg(On(f)) && On(f).body.state.Loading? && On(f).body.state.waiter == f &&
                               On(f) == old(On(f)).(body := On(f).body) && On(f).body.size == old(On(f)).body.size
      ensures r.Failed? ==> inodes == old(inodes)
      ensures forall j :: 0 <= j < |inodes| && j != files[f].inode ==>
                          inodes[j] == old(inodes)[j] || UnloadedFrom(old(inodes)[j], inodes[j])
      ensures maxBlocks == old(maxBlocks) && cacheLimit == old(cacheLimit) && untidy == old(untidy)
    {
      hide Balanced;
      OpenedAlive(Now(), Idle(untidy), f);
      var i: nat := files[f].inode;
      Close(f);
      if directory {
        if !inodes[i].body.Dir? { return Failed(NotDir); }
      } else {
        if !inodes[i].body.Reg? && !inodes[i].body.Dir? { return Failed(Invalid); }
      }
      SetFile(f, false, access);
      if inodes[i].body.Reg? {
        r := OpenFile(f, truncate && access != ReadOnly);
      } else {
        SetFile(f, true, access);
        r := Done(0);
      }
    }

    /** A filesystem with nothing but its root */
    constructor (maxBlocks: int, cacheLimit: int)
      ensures Valid() && files == [] && cache == []
      ensures untidy == {}
      ensures inodes == [WithEntries(Inode(3, 0, Dir([], 0)), [Entry(".", ROOT), Entry("..", ROOT)])]
      ensures this.maxBlocks == maxBlocks && this.cacheLimit == cacheLimit
    {
      var n := Inode(3, 0, Dir([Entry(".", ROOT), Entry("..", ROOT)], EntrySize(Entry(".", ROOT)) + EntrySize(Entry("..", ROOT))));
      inodes := [n];
      files := [];
      fsBlocks := ToBlocks(EntrySize(Entry(".", ROOT)) + EntrySize(Entry("..", ROOT)));
      inodeCount := 1;
      cacheSize := 0;
      cache := [];
      this.maxBlocks := maxBlocks;
      this.cacheLimit := cacheLimit;
      untidy := {};
      new;
      RootBalanced();
    }

  }

  /** The answer to unlinking entry k of directory d. */
  ghost predicate UnlinkAnswer(r: Reply, before: seq<Inode>, d: nat, k: nat)
    requires d < |before| && IsDir(before[d]) && k < |before[d].body.entries|
  {
    var i := before[d].body.entries[k].inode;
    && i < |before|
    && r == (if !IsDir(before[i]) then Done(0)
             else if exists e :: e in before[i].body.entries && e.name != "." && e.name != ".." then Failed(NotEmpty)
             else if FlushAborts(before, i) then Aborted else Done(0))
  }

  /** What unlinking entry k of directory d leaves: the entry is gone, a directory it named is
      empty, and no other directory or file has changed. */
  ghost predicate UnlinkedAs(before: seq<Inode>, after: seq<Inode>, d: nat, k: nat)
    requires d < |before| && |before| == |after| && IsDir(before[d]) && k < |before[d].body.entries|
  {
    var i := before[d].body.entries[k].inode;
    && i < |before|
    && IsDir(after[d]) && after[d].body.entries == Drop(before[d].body.entries, k)
    && (IsDir(before[i]) ==> i != d && (after[i].Inode? ==> after[i].body == Dir([], 0)))
    && SameBodies(before, after, {d} + (if IsDir(before[i]) then {i} else {}))
  }

  /** Entry k of directory d has become entry newName of directory e. */
  ghost predicate MovedAs(before: seq<Inode>, after: seq<Inode>, d: nat, k: nat, e: nat, newName: string)
    requires d < |before| && e < |before| == |after| && IsDir(before[d]) && IsDir(before[e]) && k < |before[d].body.entries|
  {
    var added := before[e].body.entries + [Entry(newName, before[d].body.entries[k].inode)];
    && IsDir(after[d]) && IsDir(after[e])
    && (d != e ==> after[d].body.entries == Drop(before[d].body.entries, k) && after[e].body.entries == added)
    && (d == e ==> after[d].body.entries == Drop(added, k))
    && SameBodies(before, after, {d, e})
  }

  /** Counting the new entry's reference, adding it, removing the old one, and dropping its reference */
  lemma MovedBySteps(before: seq<Inode>, d: nat, k: nat, e: nat, newName: string)
    requires d < |before| && IsDir(before[d]) && k < |before[d].body.entries| && e < |before| && IsDir(before[e])
    requires var i := before[d].body.entries[k].inode; i < |before| && before[i].Inode? && before[i].refcount >= 1
    ensures var i := before[d].body.entries[k].inode;
            var counted := before[i := before[i].(refcount := before[i].refcount + 1)];
            var added := counted[e := WithEntries(counted[e], counted[e].body.entries + [Entry(newName, i)])];
            && IsDir(added[d]) && k < |added[d].body.entries| && added[d].body.entries[k] == before[d].body.entries[k]
            && var listed := added[d := WithEntries(added[d], Drop(added[d].body.entries, k))];
               && listed[i].Inode? && !LessRef(listed[i]).Freed? && !AssertionFails(listed[i], LessRef(listed[i]))
               && MovedAs(before, listed[i := LessRef(listed[i])], d, k, e, newName)
  {
  }

  /** The answer to renaming entry k of directory d to newName in directory e, and what it
      leaves: an entry of that name there goes first, unless it names a directory. */
  ghost predicate RenamedAs(r: Reply, before: seq<Inode>, after: seq<Inode>, d: nat, k: nat, e: nat, newName: string)
    requires d < |before| && e < |before| == |after| && IsDir(before[d]) && IsDir(before[e]) && k < |before[d].body.entries|
  {
    if HasName(before[e], newName) then
      exists k1: nat :: FoundAt(before[e], newName, k1) && ReplacedAs(r, before, after, d, k, e, k1, newName)
    else
      r == Done(0) && MovedAs(before, after, d, k, e, newName)
  }

  ghost predicate ReplacedAs(r: Reply, before: seq<Inode>, after: seq<Inode>, d: nat, k: nat, e: nat, k1: nat, newName: string)
    requires d < |before| && e < |before| == |after| && IsDir(before[d]) && IsDir(before[e]) && k < |before[d].body.entries|
    requires k1 < |before[e].body.entries|
  {
    var es := before[e].body.entries;
    && es[k1].inode < |before|
    && var freed := before[e := WithEntries(before[e], Drop(es, k1))];
       if IsDir(before[es[k1].inode]) then r == Failed(Exists)
       else match PlaceAfter(d, k, e, k1)
         case None => r == UsesFreed && after == freed
         case Some(at) => r == Done(0) && MovedAs(freed, after, d, at, e, newName)
  }

  lemma FoundOnce(n: Inode, name: string, k: nat)
    requires FoundAt(n, name, k)
    ensures HasName(n, name) && forall j: nat :: FoundAt(n, name, j) ==> j == k
  {
  }

  lemma FoundSome(n: Inode, name: string, k: nat)
    requires IsDir(n) && k < |n.body.entries| && n.body.entries[k].name == name
    ensures exists j: nat :: FoundAt(n, name, j)
  {
    if forall j :: 0 <= j < k ==> n.body.entries[j].name != name {
      assert FoundAt(n, name, k);
    } else {
      var j :| 0 <= j < k && n.body.entries[j].name == name;
      FoundSome(n, name, j);
    }
  }

  // -----------------------------------------------------------------------------------------
  // Runs on one file
  // -----------------------------------------------------------------------------------------

  datatype FileOp = WriteAt(at: nat, bytes: seq<Byte>) | Cut(size: nat) | ReadAt(from: nat, count: nat)

  /** A byte sequence after the operations that did not fail. */
  function Replayed(c: seq<Byte>, ops: seq<FileOp>, replies: seq<Reply>): seq<Byte>
    requires |ops| == |replies|
  {
    if ops == [] then c
    else
      var n := |ops| - 1;
      var b := Replayed(c, ops[..n], replies[..n]);
      if replies[n].Failed? then b
      else
        match ops[n]
        case WriteAt(at, bytes) => if bytes == [] then b else Written(b, at, bytes)
        case Cut(size) => Resized(b, size)
        case ReadAt(_, _) => b
  }

  /** What an operation on a byte sequence may answer: a read delivers the bytes there, and only
      growing operations fail, for want of space. */
  predicate Answers(b: seq<Byte>, op: FileOp, reply: Reply, read: seq<Byte>) {
    match op
    case ReadAt(from, count) =>
      && |read| == (if from >= |b| then 0 else if count < |b| - from then count else |b| - from)
      && reply == Done(|read|) && forall k :: 0 <= k < |read| ==> read[k] == b[from + k]
    case WriteAt(at, bytes) => reply == Done(|bytes|) || (reply == Failed(NoSpace) && at + |bytes| > |b|)
    case Cut(size) => reply == Done(0) || (reply == Failed(NoSpace) && size > |b|)
  }

  lemma ReplayedOn(c: seq<Byte>, ops: seq<FileOp>, replies: seq<Reply>, i: nat, reply: Reply)
    requires i < |ops| && |replies| == i
    ensures ops[..i + 1][..i] == ops[..i] && (replies + [reply])[..i] == replies
    ensures Replayed(c, ops[..i + 1], replies + [reply]) ==
            var b := Replayed(c, ops[..i], replies);
            if reply.Failed? then b
            else match ops[i]
                 case WriteAt(at, bytes) => if bytes == [] then b else Written(b, at, bytes)
                 case Cut(size) => Resized(b, size)
                 case ReadAt(_, _) => b
  {
    var o, r := ops[..i + 1], replies + [reply];
    assert o[..i] == ops[..i] && r[..i] == replies && o[i] == ops[i];
  }

  /** The file f is open for reading and writing and holds the bytes c. */
  ghost predicate HoldsBytes(d: FsNet, f: nat, c: seq<Byte>)
    reads d
  {
    && d.Valid() && f < |d.files| && d.files[f].File? && d.files[f].isOpen && d.files[f].access == ReadWrite
    && HasContent(d.On(f)) && 0 <= d.On(f).body.size <= |d.On(f).body.data| && Content(d.On(f)) == c
  }

  /** Any sequence of writes, truncates and got on an open file behaves as on a byte sequence,
      whatever becomes of the buffer behind it. */
  method Play(d: FsNet, f: nat, ops: seq<FileOp>, ghost c: seq<Byte>) returns (replies: seq<Reply>, got: seq<seq<Byte>>)
    requires HoldsBytes(d, f, c)
    modifies d
    ensures |replies| == |got| == |ops| && HoldsBytes(d, f, Replayed(c, ops, replies))
    ensures forall k :: 0 <= k < |ops| ==> Answers(Replayed(c, ops[..k], replies[..k]), ops[k], replies[k], got[k])
  {
    hide Balanced, Replayed, Written, Resized, ReadBytes;
    replies, got := [], [];
    ReplayedNone(c, ops);
    var i: nat := 0;
    while i < |ops|
      invariant 0 <= i <= |ops| && |replies| == |got| == i
      invariant HoldsBytes(d, f, Replayed(c, ops[..i], replies))
      invariant forall k :: 0 <= k < i ==> Answers(Replayed(c, ops[..k], replies[..k]), ops[k], replies[k], got[k])
    {
      ghost var b := Replayed(c, ops[..i], replies);
      var reply, read := PlayOne(d, f, ops[i], b);
      ReplayedOn(c, ops, replies, i, reply);
      AnswersOn(c, ops, replies, got, i, reply, read);
      replies, got := replies + [reply], got + [read];
      i := i + 1;
    }
    assert ops[..i] == ops;
  }

  lemma ReplayedNone(c: seq<Byte>, ops: seq<FileOp>)
    ensures Replayed(c, ops[..0], []) == c
  {
  }

  lemma AnswersOn(c: seq<Byte>, ops: seq<FileOp>, replies: seq<Reply>, got: seq<seq<Byte>>, i: nat, reply: Reply, read: seq<Byte>)
    requires i < |ops| && |replies| == |got| == i && Answers(Replayed(c, ops[..i], replies), ops[i], reply, read)
    requires forall k :: 0 <= k < i ==> Answers(Replayed(c, ops[..k], replies[..k]), ops[k], replies[k], got[k])
    ensures var rs, bs := replies + [reply], got + [read];
            forall k :: 0 <= k < i + 1 ==> Answers(Replayed(c, ops[..k], rs[..k]), ops[k], rs[k], bs[k])
  {
    hide Answers, Replayed;
    var rs, bs := replies + [reply], got + [read];
    forall k | 0 <= k < i + 1 ensures Answers(Replayed(c, ops[..k], rs[..k]), ops[k], rs[k], bs[k]) {
      if k < i {
        assert rs[..k] == replies[..k];
      } else {
        assert rs[..k] == replies;
      }
    }
  }

  /** fs_write, fs_truncate or fs_read */
  method PlayOne(d: FsNet, f: nat, op: FileOp, ghost b: seq<Byte>) returns (reply: Reply, read: seq<Byte>)
    requires HoldsBytes(d, f, b)
    modifies d
    ensures Answers(b, op, reply, read)
    ensures HoldsBytes(d, f, if reply.Failed? then b
                             else match op
                                  case WriteAt(at, bytes) => if bytes == [] then b else Written(b, at, bytes)
                                  case Cut(size) => Resized(b, size)
                                  case ReadAt(_, _) => b)
  {
    hide Balanced, Written, Resized, ReadBytes;
    d.FileIsThere(f);
    read := [];
    match op {
      case WriteAt(at, bytes) =>
        reply := d.Write(f, at, bytes);
      case Cut(size) =>
        SameSize(b);
        reply := d.Truncate(d.files[f].inode, size);
      case ReadAt(from, count) =>
        reply, read := d.Read(f, from, count);
    }
  }

  lemma SameSize(b: seq<Byte>)
    ensures Resized(b, |b|) == b
  {
  }
}
