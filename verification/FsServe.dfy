/** Whole runs of fs_net.c: any list of requests, from any consistent state.  Every state on the way
    is consistent, and a run stops exactly at the first request that goes wrong. */
module FsServe {
  import opened FileBytes
  import opened FsGraph
  import opened FsNet

  /** The requests, on files by their numbers, and what comes from the network for an inode */
  datatype Op =
    | AttachTo
    | WalkTo(f: nat, names: seq<string>)
    | MakeDir(f: nat, name: string)
    | CreateFile(f: nat, name: string, access: Access)
    | MakeNod(f: nat, name: string, body: Body)
    | LinkTo(df: nat, f: nat, name: string)
    | DeleteFile(f: nat)
    | Unlink(f: nat, name: string)
    | Rename(f: nat, name: string, g: nat, newName: string)
    | OpenIt(f: nat, directory: bool, cut: bool, access: Access)
    | CloseIt(f: nat)
    | CutTo(f: nat, size: nat)
    | WriteTo(f: nat, offset: nat, bytes: seq<Byte>)
    | Got(i: nat, failed: bool, last: bool, bytes: seq<Byte>)
    | UrlFor(i: nat, size: nat)

  predicate IsFile(s: Fs, f: nat) { f < |s.files| && s.files[f].File? }

  /** The inode file f is on */
  function OnIn(s: Fs, f: nat): Inode
    requires IsFile(s, f)
  {
    if s.files[f].inode < |s.inodes| then s.inodes[s.files[f].inode] else Freed
  }

  /** What the callers see to: files exist, a new node is empty, bytes come for a file that is loading. */
  predicate Known(s: Fs, op: Op) {
    match op
    case AttachTo => true
    case WalkTo(f, _) => IsFile(s, f)
    case MakeDir(f, _) => IsFile(s, f)
    case CreateFile(f, _, _) => IsFile(s, f)
    case MakeNod(f, _, body) => IsFile(s, f) && (body == Reg(0, Local, []) || body.Symlink? || body.Special?)
    case LinkTo(df, f, _) => IsFile(s, df) && IsFile(s, f)
    case DeleteFile(f) => IsFile(s, f)
    case Unlink(f, _) => IsFile(s, f)
    case Rename(f, _, g, _) => IsFile(s, f) && IsFile(s, g)
    case OpenIt(f, _, _, _) => IsFile(s, f)
    case CloseIt(f) => IsFile(s, f)
    case CutTo(f, _) => IsFile(s, f)
    case WriteTo(f, _, _) => IsFile(s, f)
    case Got(i, _, _, _) => i < |s.inodes| && IsReg(s.inodes[i]) && s.inodes[i].body.state.Loading?
    case UrlFor(i, _) => i < |s.inodes| && s.inodes[i].Inode?
  }

  // -----------------------------------------------------------------------------------------
  // Requests that go wrong
  // -----------------------------------------------------------------------------------------

  /** Unlinking the entry of that name releases another directory with entries in it. */
  ghost predicate UnlinkBreaks(inodes: seq<Inode>, n: Inode, name: string) {
    && name != "." && name != ".."
    && exists k: nat :: FoundAt(n, name, k) &&
                        var i := n.body.entries[k].inode;
                        && i < |inodes| && IsDir(inodes[i]) && FlushAborts(inodes, i)
                        && forall e :: e in inodes[i].body.entries ==> e.name == "." || e.name == ".."
  }

  /** A request that fails an assertion, uses freed memory, leaves a load to a freed file, or takes the
      content of an open file away */
  ghost predicate Breaks(s: Fs, op: Op)
    requires Known(s, op)
  {
    match op
    case CreateFile(f, name, _) =>
      var n := OnIn(s, f); IsDir(n) && !HasName(n, name) && LessOpen(n).Freed?
    case MakeNod(f, _, _) => !IsDir(OnIn(s, f))
    case LinkTo(df, f, _) => !IsDir(OnIn(s, f)) && !IsDir(OnIn(s, df))
    case DeleteFile(f) =>
      var n := OnIn(s, f);
      n.Inode? && (AssertionFails(n, LessOpen(n)) || !(NotAwaited(s.inodes, f) || LessOpen(n).Freed?))
    case Unlink(f, name) => UnlinkBreaks(s.inodes, OnIn(s, f), name)
    case Rename(f, name, g, newName) =>
      || RenamedOntoItself(s.inodes, s.files[f].inode, name, s.files[g].inode, newName)
      || (HasName(OnIn(s, f), name) && !IsDir(OnIn(s, g)))
    case UrlFor(i, size) =>
      IsReg(s.inodes[i]) && s.inodes[i].body.state == Local && s.inodes[i].body.data == [] && size > 0 && !NotOpened(s.files, i)
    case _ => false
  }

  // -----------------------------------------------------------------------------------------
  // Requests that go right
  // -----------------------------------------------------------------------------------------

  /** Directories, references and opens are as before; only the content of files has changed, and which
      files are open. */
  predicate SameTree(s: Fs, t: Fs) {
    && |t.inodes| == |s.inodes| && |t.files| == |s.files|
    && (forall i :: 0 <= i < |s.inodes| ==> SameNode(s.inodes[i], t.inodes[i]))
    && (forall f :: 0 <= f < |s.files| ==> SameFile(s.files[f], t.files[f]))
  }

  predicate SameNode(n: Inode, m: Inode) {
    n == m || (IsReg(n) && IsReg(m) && n.refcount == m.refcount && n.openCount == m.openCount)
  }

  predicate SameFile(x: File, y: File) { x == y || (x.File? && y.File? && x.inode == y.inode) }

  /** What a request on names and files answers, and the state it leaves */
  ghost predicate TreeDone(op: Op, s: Fs, untidy: set<nat>, r: Reply, t: Fs, untidy': set<nat>)
    requires Known(s, op)
  {
    match op
    case AttachTo =>
      && |s.inodes| > ROOT && s.inodes[ROOT].Inode? && r == Done(|s.files|) && untidy' == untidy
      && t == s.(files := s.files + [File(ROOT, false, ReadOnly)],
                 inodes := s.inodes[ROOT := s.inodes[ROOT].(openCount := s.inodes[ROOT].openCount + 1)])
    case WalkTo(f, names) =>
      var (count, n) := Followed(s.inodes, s.files[f].inode, names);
      && n < |s.inodes| && s.inodes[n].Inode? && r == Done(count) && untidy' == untidy
      && t == s.(files := s.files + [File(n, false, ReadOnly)],
                 inodes := s.inodes[n := s.inodes[n].(openCount := s.inodes[n].openCount + 1)])
    case MakeDir(f, name) =>
      var d, n := s.files[f].inode, OnIn(s, f);
      && r == (if !IsDir(n) then Failed(NotDir) else if HasName(n, name) then Failed(Exists) else Done(|s.inodes|))
      && t.files == s.files
      && (if r.Failed? then t == s && untidy' == untidy
          else d < |s.inodes| && HasDirectory(s.inodes, t.inodes, d, name) && untidy' == UntidyWith(untidy, n, d))
    case CreateFile(f, name, access) =>
      var d, n := s.files[f].inode, OnIn(s, f);
      && r == (if !IsDir(n) then Failed(NotDir) else if HasName(n, name) then Failed(Exists) else Done(|s.inodes|))
      && (if r.Failed? then t == s && untidy' == untidy
          else
            && |t.inodes| == |s.inodes| + 1 && t.files == s.files[f := File(|s.inodes|, true, access)]
            && d < |s.inodes| && t.inodes[d] == LessOpen(WithEntries(n, n.body.entries + [Entry(name, |s.inodes|)]))
            && t.inodes[|s.inodes|] == Inode(1, 1, Reg(0, Local, [])) && untidy' == UntidyWith(untidy, n, d)
            && forall j :: 0 <= j < |s.inodes| && j != d ==> t.inodes[j] == s.inodes[j])
    case MakeNod(f, name, body) =>
      var d, n := s.files[f].inode, OnIn(s, f);
      && r == (if HasName(n, name) then Failed(Exists) else Done(|s.inodes|)) && t.files == s.files
      && (if r.Failed? then t == s && untidy' == untidy
          else d < |s.inodes| && IsDir(n) && untidy' == UntidyWith(untidy, n, d) &&
               t.inodes == s.inodes[d := WithEntries(n, n.body.entries + [Entry(name, |s.inodes|)])] + [Inode(1, 0, body)])
    case LinkTo(df, f, name) =>
      var d, n, i := s.files[df].inode, OnIn(s, df), s.files[f].inode;
      && r == (if IsDir(OnIn(s, f)) then Failed(NotPermitted) else if HasName(n, name) then Failed(Exists) else Done(0))
      && t.files == s.files
      && (if r.Failed? then t == s && untidy' == untidy
          else OnIn(s, f).Inode? && IsDir(n) && d < |s.inodes| && untidy' == UntidyWith(untidy, n, d) &&
               var counted := s.inodes[i := OnIn(s, f).(refcount := OnIn(s, f).refcount + 1)];
               IsDir(counted[d]) && t.inodes == counted[d := WithEntries(counted[d], counted[d].body.entries + [Entry(name, i)])])
    case DeleteFile(f) =>
      var i := s.files[f].inode;
      && i < |s.inodes| && s.inodes[i].Inode? && r == Done(0) && untidy' == untidy
      && t.files == s.files[f := Closed] && t.inodes == s.inodes[i := LessOpen(s.inodes[i])]
    case Unlink(f, name) =>
      var d := s.files[f].inode;
      && t.files == s.files && untidy' == untidy && |t.inodes| == |s.inodes| && (r.Failed? ==> t == s)
      && (r == Failed(NotFound) <==> name == "." || name == ".." || !HasName(OnIn(s, f), name))
      && (r != Failed(NotFound) ==>
            exists k: nat :: FoundAt(OnIn(s, f), name, k) && UnlinkAnswer(r, s.inodes, d, k) &&
                             (r.Done? ==> UnlinkedAs(s.inodes, t.inodes, d, k)))
    case Rename(f, name, g, newName) =>
      var d, e := s.files[f].inode, s.files[g].inode;
      && t.files == s.files && |t.inodes| == |s.inodes| && (r.Failed? ==> t == s && untidy' == untidy)
      && untidy <= untidy' <= untidy + {d, e}
      && (r == Failed(NotFound) <==> !HasName(OnIn(s, f), name))
      && (r != Failed(NotFound) ==>
            IsDir(OnIn(s, g)) &&
            exists k: nat :: FoundAt(OnIn(s, f), name, k) && RenamedAs(r, s.inodes, t.inodes, d, k, e, newName))
    case _ => false
  }

  /** What a request on the content of files answers, and the state it leaves */
  ghost predicate ContentDone(op: Op, maxBlocks: int, s: Fs, r: Reply, t: Fs)
    requires Known(s, op)
  {
    match op
    case OpenIt(f, directory, cut, access) =>
      && SameTree(s, t) && IsFile(t, f) && (t.files[f].isOpen <==> r == Done(0))
      && (r == Failed(NotDir) <==> directory && !IsDir(OnIn(s, f)))
      && (r == Failed(Invalid) <==> !directory && !IsDir(OnIn(s, f)) && !IsReg(OnIn(s, f)))
      && (r == Done(0) ==> IsDir(OnIn(t, f)) || HasContent(OnIn(t, f)))
      && (r == Done(1) ==> IsReg(OnIn(t, f)) && OnIn(t, f).body.state.Loading? && OnIn(t, f).body.state.waiter == f)
    case CloseIt(f) => r == Done(0) && t == s.(files := s.files[f := s.files[f].(isOpen := false)])
    case CutTo(f, size) =>
      var i := s.files[f].inode;
      && OnIn(s, f).Inode? && r == TruncateReply(OnIn(s, f), size, s.blocks, maxBlocks) && t.files == s.files
      && (if r.Failed? then t == s
          else |t.inodes| == |s.inodes| && t.inodes == s.inodes[i := t.inodes[i]] && TruncatedTo(OnIn(s, f), t.inodes[i], size))
    case WriteTo(f, offset, bytes) =>
      var i, n := s.files[f].inode, OnIn(s, f);
      && r == WriteReply(n, s.files[f], offset, |bytes|, s.blocks, maxBlocks) && t.files == s.files
      && (if r.Failed? || bytes == [] then t == s
          else
            && i < |s.inodes| == |t.inodes| && t.inodes[i].Inode? && t.inodes == s.inodes[i := n.(body := t.inodes[i].body)]
            && HasContent(n) && 0 <= n.body.size <= |n.body.data|
            && HasContent(t.inodes[i]) && 0 <= t.inodes[i].body.size <= |t.inodes[i].body.data|
            && Content(t.inodes[i]) == Written(Content(n), offset, bytes))
    case Got(i, failed, last, bytes) =>
      && r == Done(0) && |t.inodes| == |s.inodes| && IsReg(t.inodes[i]) && t.inodes[i].body.size == s.inodes[i].body.size
      && t.inodes == s.inodes[i := s.inodes[i].(body := t.inodes[i].body)]
      && (failed ==> t.inodes[i].body.state == Unloaded)
    case UrlFor(i, size) =>
      && r == (if IsReg(s.inodes[i]) && s.inodes[i].body.state == Local && s.inodes[i].body.data == [] then Done(0) else Failed(IoError))
      && t.files == s.files && s.inodes[i].Inode?
      && t.inodes == if r.Done? && size > 0 then s.inodes[i := WithFile(s.inodes[i], size, Unloaded, [])] else s.inodes
    case _ => false
  }

  predicate OnContent(op: Op) { op.OpenIt? || op.CloseIt? || op.CutTo? || op.WriteTo? || op.Got? || op.UrlFor? }

  /** A moment of a run: the state, and the directories that are untidy */
  datatype Moment = Moment(fs: Fs, untidy: set<nat>)

  /** A request for something unknown is refused; any other is answered, unless it goes wrong. */
  ghost predicate Answered(op: Op, maxBlocks: int, a: Moment, r: Reply, b: Moment) {
    if !Known(a.fs, op) then r == Failed(NotFound) && b == a
    else
      && !Breaks(a.fs, op)
      && if OnContent(op) then ContentDone(op, maxBlocks, a.fs, r, b.fs) && b.untidy == a.untidy
         else TreeDone(op, a.fs, a.untidy, r, b.fs, b.untidy)
  }

  // -----------------------------------------------------------------------------------------
  // One request
  // -----------------------------------------------------------------------------------------

  /** The filesystem has answered a request, from a to where it is now. */
  ghost predicate Did(d: FsNet, op: Op, a: Moment, r: Reply)
    reads d
    requires Known(a.fs, op)
  {
    d.Valid() && !Breaks(a.fs, op) && TreeDone(op, a.fs, a.untidy, r, d.Now(), d.untidy)
  }

  method DoAttach(d: FsNet) returns (r: Reply)
    requires d.Valid()
    modifies d
    ensures Did(d, AttachTo, old(Moment(d.Now(), d.untidy)), r) && d.maxBlocks == old(d.maxBlocks)
  {
    hide Counted, Accounted, Listed, Ready;
    var f := d.Attach();
    r := Done(f);
  }

  method DoWalk(d: FsNet, f: nat, names: seq<string>) returns (r: Reply)
    requires d.Valid() && IsFile(d.Now(), f)
    modifies d
    ensures Did(d, WalkTo(f, names), old(Moment(d.Now(), d.untidy)), r) && d.maxBlocks == old(d.maxBlocks)
  {
    hide Balanced, Followed;
    var count, g := d.Walk(f, names);
    r := Done(count);
  }

  method DoMkdir(d: FsNet, f: nat, name: string) returns (r: Reply)
    requires d.Valid() && IsFile(d.Now(), f)
    modifies d
    ensures Did(d, MakeDir(f, name), old(Moment(d.Now(), d.untidy)), r) && d.maxBlocks == old(d.maxBlocks)
  {
    hide Balanced, HasName, HasDirectory, UntidyWith;
    r := d.Mkdir(f, name);
  }

  method DoCreate(d: FsNet, f: nat, name: string, access: Access) returns (r: Reply)
    requires d.Valid() && IsFile(d.Now(), f)
    modifies d
    ensures if r == Aborted then Breaks(old(d.Now()), CreateFile(f, name, access))
            else Did(d, CreateFile(f, name, access), old(Moment(d.Now(), d.untidy)), r) && d.maxBlocks == old(d.maxBlocks)
  {
    hide Balanced, HasName, WithEntries, UntidyWith;
    r := d.Create(f, name, access);
  }

  method DoMakeNode(d: FsNet, f: nat, name: string, body: Body) returns (r: Reply)
    requires d.Valid() && IsFile(d.Now(), f) && (body == Reg(0, Local, []) || body.Symlink? || body.Special?)
    modifies d
    ensures if r == Aborted then Breaks(old(d.Now()), MakeNod(f, name, body))
            else Did(d, MakeNod(f, name, body), old(Moment(d.Now(), d.untidy)), r) && d.maxBlocks == old(d.maxBlocks)
  {
    hide Balanced, HasName, WithEntries, UntidyWith;
    OpenedAlive(d.Now(), Idle(d.untidy), f);
    NameInDir(OnIn(d.Now(), f), name);
    r := d.MakeNode(f, name, body);
  }

  lemma NameInDir(n: Inode, name: string)
    ensures HasName(n, name) ==> IsDir(n)
  {
  }

  method DoLink(d: FsNet, df: nat, f: nat, name: string) returns (r: Reply)
    requires d.Valid() && IsFile(d.Now(), df) && IsFile(d.Now(), f)
    modifies d
    ensures if r == Aborted then Breaks(old(d.Now()), LinkTo(df, f, name))
            else Did(d, LinkTo(df, f, name), old(Moment(d.Now(), d.untidy)), r) && d.maxBlocks == old(d.maxBlocks)
  {
    hide Balanced, HasName, WithEntries, UntidyWith;
    OpenedAlive(d.Now(), Idle(d.untidy), df);
    NameInDir(OnIn(d.Now(), df), name);
    r := d.Link(df, f, name);
  }

  method DoDelete(d: FsNet, f: nat) returns (ok: bool)
    requires d.Valid() && IsFile(d.Now(), f)
    modifies d
    ensures if ok then Did(d, DeleteFile(f), old(Moment(d.Now(), d.untidy)), Done(0)) && d.maxBlocks == old(d.maxBlocks)
            else Breaks(old(d.Now()), DeleteFile(f))
  {
    hide Balanced, NotAwaited, LessOpen, AssertionFails;
    d.FileIsThere(f);
    if !NotAwaited(d.inodes, f) && !LessOpen(d.inodes[d.files[f].inode]).Freed? { return false; }
    var aborted := d.Delete(f);
    ok := !aborted;
  }

  method DoUnlink(d: FsNet, f: nat, name: string) returns (r: Reply)
    requires d.Valid() && IsFile(d.Now(), f)
    modifies d
    ensures if r == Aborted then Breaks(old(d.Now()), Unlink(f, name))
            else Did(d, Unlink(f, name), old(Moment(d.Now(), d.untidy)), r) && d.maxBlocks == old(d.maxBlocks)
  {
    hide Balanced, HasName, FlushAborts, UnlinkedAs;
    OpenedAlive(d.Now(), Idle(d.untidy), f);
    ghost var n := OnIn(d.Now(), f);
    r := d.UnlinkAt(f, name);
    if k: nat :| FoundAt(n, name, k) { FoundOnce(n, name, k); }
  }

  method DoRename(d: FsNet, f: nat, name: string, g: nat, newName: string) returns (r: Reply)
    requires d.Valid() && IsFile(d.Now(), f) && IsFile(d.Now(), g)
    modifies d
    ensures if r == Aborted || r == UsesFreed then Breaks(old(d.Now()), Rename(f, name, g, newName))
            else Did(d, Rename(f, name, g, newName), old(Moment(d.Now(), d.untidy)), r) && d.maxBlocks == old(d.maxBlocks)
  {
    hide Balanced, HasName, RenamedAs, RenamedOntoItself;
    OpenedAlive(d.Now(), Idle(d.untidy), f);
    OpenedAlive(d.Now(), Idle(d.untidy), g);
    r := d.RenameAt(f, name, g, newName);
  }

  /** The filesystem has answered a request on content, from a to where it is now. */
  ghost predicate DidContent(d: FsNet, op: Op, maxBlocks: int, a: Moment, r: Reply)
    reads d
    requires Known(a.fs, op)
  {
    && d.Valid() && !Breaks(a.fs, op) && ContentDone(op, maxBlocks, a.fs, r, d.Now()) && d.untidy == a.untidy
    && d.maxBlocks == maxBlocks
  }

  method DoOpen(d: FsNet, f: nat, directory: bool, cut: bool, access: Access) returns (r: Reply)
    requires d.Valid() && IsFile(d.Now(), f)
    modifies d
    ensures DidContent(d, OpenIt(f, directory, cut, access), old(d.maxBlocks), old(Moment(d.Now(), d.untidy)), r)
  {
    hide Balanced;
    d.FileIsThere(f);
    r := d.Open(f, directory, cut, access);
  }

  method DoClose(d: FsNet, f: nat)
    requires d.Valid() && IsFile(d.Now(), f)
    modifies d
    ensures DidContent(d, CloseIt(f), old(d.maxBlocks), old(Moment(d.Now(), d.untidy)), Done(0))
  {
    hide Balanced;
    d.Close(f);
  }

  method DoTruncate(d: FsNet, f: nat, size: nat) returns (r: Reply)
    requires d.Valid() && IsFile(d.Now(), f)
    modifies d
    ensures DidContent(d, CutTo(f, size), old(d.maxBlocks), old(Moment(d.Now(), d.untidy)), r)
  {
    hide Balanced, TruncatedTo, TruncateReply;
    d.FileIsThere(f);
    r := d.Truncate(d.files[f].inode, size);
    TruncateAnswers(old(OnIn(d.Now(), f)), size, old(d.fsBlocks), d.maxBlocks);
  }

  lemma TruncateAnswers(n: Inode, size: nat, blocks: int, maxBlocks: int)
    ensures TruncateReply(n, size, blocks, maxBlocks).Done? || TruncateReply(n, size, blocks, maxBlocks).Failed?
  {
  }

  method DoWrite(d: FsNet, f: nat, offset: nat, bytes: seq<Byte>) returns (r: Reply)
    requires d.Valid() && IsFile(d.Now(), f)
    modifies d
    ensures DidContent(d, WriteTo(f, offset, bytes), old(d.maxBlocks), old(Moment(d.Now(), d.untidy)), r)
  {
    hide Balanced, TruncateReply, Written;
    r := d.Write(f, offset, bytes);
  }

  method DoReceive(d: FsNet, i: nat, failed: bool, last: bool, bytes: seq<Byte>)
    requires d.Valid() && Known(d.Now(), Got(i, failed, last, bytes))
    modifies d
    ensures DidContent(d, Got(i, failed, last, bytes), old(d.maxBlocks), old(Moment(d.Now(), d.untidy)), Done(0))
  {
    hide Balanced, ReceivedBytes;
    d.Receive(i, failed, last, bytes);
  }

  method DoSetUrl(d: FsNet, i: nat, size: nat) returns (r: Reply, ok: bool)
    requires d.Valid() && Known(d.Now(), UrlFor(i, size))
    modifies d
    ensures if ok then DidContent(d, UrlFor(i, size), old(d.maxBlocks), old(Moment(d.Now(), d.untidy)), r)
            else Breaks(old(d.Now()), UrlFor(i, size))
  {
    hide Balanced, NotOpened;
    var n := d.inodes[i];
    if n.body.Reg? && n.body.state == Local && n.body.data == [] && size > 0 && !NotOpened(d.files, i) { return Done(0), false; }
    r := d.SetUrl(i, size);
    ok := true;
  }

  // -----------------------------------------------------------------------------------------
  // Runs
  // -----------------------------------------------------------------------------------------

  ghost function MomentOf(d: FsNet): Moment
    reads d
  {
    Moment(d.Now(), d.untidy)
  }

  method DoTree(d: FsNet, op: Op) returns (r: Reply, ok: bool)
    requires d.Valid() && Known(d.Now(), op) && !OnContent(op)
    modifies d
    ensures if ok then Did(d, op, old(MomentOf(d)), r) && d.maxBlocks == old(d.maxBlocks) else Breaks(old(d.Now()), op)
  {
    hide Balanced, Did, Breaks;
    ok := true;
    match op {
      case AttachTo => r := DoAttach(d);
      case WalkTo(f, names) => r := DoWalk(d, f, names);
      case MakeDir(f, name) => r := DoMkdir(d, f, name);
      case CreateFile(f, name, access) =>
        r := DoCreate(d, f, name, access);
        ok := r != Aborted;
      case MakeNod(f, name, body) =>
        r := DoMakeNode(d, f, name, body);
        ok := r != Aborted;
      case LinkTo(df, f, name) =>
        r := DoLink(d, df, f, name);
        ok := r != Aborted;
      case DeleteFile(f) =>
        ok := DoDelete(d, f);
        r := Done(0);
      case Unlink(f, name) =>
        r := DoUnlink(d, f, name);
        ok := r != Aborted;
      case Rename(f, name, g, newName) =>
        r := DoRename(d, f, name, g, newName);
        ok := r != Aborted && r != UsesFreed;
    }
  }

  method DoContent(d: FsNet, op: Op) returns (r: Reply, ok: bool)
    requires d.Valid() && Known(d.Now(), op) && OnContent(op)
    modifies d
    ensures if ok then DidContent(d, op, old(d.maxBlocks), old(MomentOf(d)), r) else Breaks(old(d.Now()), op)
  {
    hide Balanced, DidContent, Breaks;
    ok := true;
    match op {
      case OpenIt(f, directory, cut, access) => r := DoOpen(d, f, directory, cut, access);
      case CloseIt(f) =>
        DoClose(d, f);
        r := Done(0);
      case CutTo(f, size) => r := DoTruncate(d, f, size);
      case WriteTo(f, offset, bytes) => r := DoWrite(d, f, offset, bytes);
      case Got(i, failed, last, bytes) =>
        DoReceive(d, i, failed, last, bytes);
        r := Done(0);
      case UrlFor(i, size) => r, ok := DoSetUrl(d, i, size);
    }
  }

  /** One request, known or not */
  method DoOne(d: FsNet, op: Op) returns (r: Reply, ok: bool)
    requires d.Valid()
    modifies d
    ensures if ok then d.Valid() && Answered(op, old(d.maxBlocks), old(MomentOf(d)), r, MomentOf(d)) && d.maxBlocks == old(d.maxBlocks)
            else Known(old(d.Now()), op) && Breaks(old(d.Now()), op)
  {
    hide Balanced, Breaks, TreeDone, ContentDone;
    if !Known(Fs(d.inodes, d.files, d.fsBlocks, d.inodeCount, d.cacheSize, d.cache), op) { return Failed(NotFound), true; }
    if OnContent(op) { r, ok := DoContent(d, op); } else { r, ok := DoTree(d, op); }
  }

  /** The moments of a run: consistent states, each request answered from one to the next. */
  ghost predicate Ran(ops: seq<Op>, maxBlocks: int, moments: seq<Moment>, replies: seq<Reply>) {
    && |moments| == |replies| + 1 && |replies| <= |ops|
    && (forall k :: 0 <= k < |moments| ==> Balanced(moments[k].fs, Idle(moments[k].untidy)))
    && (forall k :: 0 <= k < |replies| ==> Answered(ops[k], maxBlocks, moments[k], replies[k], moments[k + 1]))
  }

  /** Any list of requests: each is answered from a consistent state to a consistent state, up to the
      first one that goes wrong, if there is one. */
  method Serve(d: FsNet, ops: seq<Op>) returns (replies: seq<Reply>, ghost moments: seq<Moment>)
    requires d.Valid()
    modifies d
    ensures Ran(ops, old(d.maxBlocks), moments, replies) && moments[0] == old(MomentOf(d))
    ensures if |replies| == |ops| then MomentOf(d) == moments[|ops|]
            else var op, s := ops[|replies|], moments[|replies|].fs; Known(s, op) && Breaks(s, op)
  {
    hide Balanced, Answered, Known, Breaks;
    replies, moments := [], [MomentOf(d)];
    while |replies| < |ops|
      invariant |replies| <= |ops| && d.Valid() && d.maxBlocks == old(d.maxBlocks)
      invariant Ran(ops, d.maxBlocks, moments, replies) && moments[0] == old(MomentOf(d)) && moments[|replies|] == MomentOf(d)
    {
      var r, ok := DoOne(d, ops[|replies|]);
      if !ok { return; }
      replies, moments := replies + [r], moments + [MomentOf(d)];
    }
  }

  /** At every moment of a run nothing points to a released inode, and none is kept without a use. */
  lemma RunAlive(ops: seq<Op>, maxBlocks: int, moments: seq<Moment>, replies: seq<Reply>, k: nat, i: nat)
    requires Ran(ops, maxBlocks, moments, replies) && k < |moments|
    ensures var s := moments[k].fs;
            i < |s.inodes| && s.inodes[i].Inode? <==>
            || i == ROOT
            || (exists d, j :: 0 <= d < |s.inodes| && IsDir(s.inodes[d]) && 0 <= j < |s.inodes[d].body.entries| &&
                               s.inodes[d].body.entries[j].inode == i)
            || (exists f :: 0 <= f < |s.files| && s.files[f].File? && s.files[f].inode == i)
  {
    hide Balanced, Answered;
    AliveExactlyWhileUsed(moments[k].fs, moments[k].untidy, i);
  }
}
