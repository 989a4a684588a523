/** Sequences of requests to fs_net.c after which an assertion fails, freed memory is used, or an
    open file has lost its content; each of FsNet's operations says exactly when that happens. */
module FsRuns {
  import opened FsGraph
  import opened FsNet

  // -----------------------------------------------------------------------------------------
  // Freed files and lost content
  // -----------------------------------------------------------------------------------------

  /** A named file that is to be loaded from the network */
  method RemoteFile(maxBlocks: int, cacheLimit: int, name: string, size: nat) returns (fs: FsNet)
    requires size > 0 && name != "." && name != ".."
    ensures fresh(fs) && fs.Valid() && |fs.files| == 1 && |fs.inodes| == 2 && fs.inodes[1] == Inode(1, 0, Reg(size, Unloaded, []))
  {
    hide Balanced;
    fs := new FsNet(maxBlocks, cacheLimit);
    var f := fs.Attach();
    var r := fs.MakeNode(f, name, Reg(0, Local, []));
    UnusedNotOpened(fs.Now(), fs.untidy, 1);
    r := fs.SetUrl(1, size);
  }

  /** A file to be loaded is opened, and deleted while the load is under way: its load is left to
      complete the open of an FSFile that is freed. */
  method OpenThenDelete(maxBlocks: int, cacheLimit: int, name: string, size: nat) returns (fs: FsNet)
    requires size > 0 && name != "." && name != ".."
    ensures !fs.Valid() && |fs.files| == 2 && fs.files[1] == Closed
    ensures |fs.inodes| == 2 && IsReg(fs.inodes[1]) && fs.inodes[1].body.state.Loading? && fs.inodes[1].body.state.waiter == 1
  {
    hide Balanced;
    fs := RemoteFile(maxBlocks, cacheLimit, name, size);
    var g := fs.FidCreate(1);
    var r := fs.Open(g, false, false, ReadOnly);
    AwaitedNow(fs.inodes, 1, g);
    var aborted := fs.Delete(g);
  }

  lemma AwaitedNow(inodes: seq<Inode>, i: nat, f: nat)
    requires i < |inodes| && IsReg(inodes[i]) && inodes[i].body.state.Loading? && inodes[i].body.state.waiter == f
    ensures !NotAwaited(inodes, f)
  {
  }

  /** A file just created, and open, is given a URL: the open file has no content any more. */
  method OpenThenSetUrl(maxBlocks: int, cacheLimit: int, name: string, size: nat) returns (fs: FsNet)
    requires size > 0 && name != "." && name != ".."
    ensures !fs.Valid() && |fs.files| == 1 && fs.files[0].File? && fs.files[0].isOpen && fs.files[0].inode == 1
    ensures |fs.inodes| == 2 && fs.inodes[1] == Inode(1, 1, Reg(size, Unloaded, []))
  {
    hide Balanced;
    fs := new FsNet(maxBlocks, cacheLimit);
    var f := fs.Attach();
    var r := fs.Create(f, name, ReadWrite);
    r := fs.SetUrl(1, size);
    assert fs.files[0].inode == 1;
  }

  // -----------------------------------------------------------------------------------------
  // Freed entries
  // -----------------------------------------------------------------------------------------

  /** A file is renamed onto itself: the entry that both names find has been freed, and the file has
      its reference still counted, when the entry is to be moved. */
  method RenameOntoItself(maxBlocks: int, cacheLimit: int, name: string) returns (fs: FsNet, r: Reply, ghost before: seq<Inode>)
    requires name != "." && name != ".."
    ensures r == UsesFreed && |before| == 2 && FoundAt(before[0], name, 2) && before[0].body.entries[2] == Entry(name, 1)
    ensures before[1] == Inode(1, 0, Reg(0, Local, [])) && RenamedOntoItself(before, 0, name, 0, name)
    ensures fs.inodes == before[0 := WithEntries(before[0], [Entry(".", 0), Entry("..", 0)])]
  {
    hide Balanced;
    fs := new FsNet(maxBlocks, cacheLimit);
    var f := fs.Attach();
    r := fs.MakeNode(f, name, Reg(0, Local, []));
    before := fs.inodes;
    assert FoundAt(before[0], name, 2);
    FoundOnce(before[0], name, 2);
    assert Drop(before[0].body.entries, 2) == [Entry(".", 0), Entry("..", 0)];
    r := fs.RenameAt(f, name, f, name);
  }

  // -----------------------------------------------------------------------------------------
  // Directories released with entries in them
  // -----------------------------------------------------------------------------------------

  /** A directory, and a file on it */
  method WalkedDirectory(maxBlocks: int, cacheLimit: int, name: string) returns (fs: FsNet)
    requires name != "." && name != ".."
    ensures fresh(fs) && fs.Valid() && fs.files == [File(0, false, ReadOnly), File(1, false, ReadOnly)] && |fs.inodes| == 2
    ensures fs.untidy == {}
    ensures IsDir(fs.inodes[0]) && fs.inodes[0].body.entries == [Entry(".", 0), Entry("..", 0), Entry(name, 1)]
    ensures IsDir(fs.inodes[1]) && fs.inodes[1].body.entries == [Entry(".", 1), Entry("..", 0)]
  {
    hide Balanced, Followed, HasName, LessOpen;
    fs := new FsNet(maxBlocks, cacheLimit);
    var f := fs.Attach();
    assert !HasName(fs.inodes[0], name) by { TwoNames(fs.inodes[0], name); }
    var r := fs.Mkdir(f, name);
    assert FoundAt(fs.inodes[0], name, 2);
    FollowedOne(fs.inodes, 0, name, 2);
    var n, g := fs.Walk(f, [name]);
  }

  /** The directory is unlinked while the file is on it. */
  method UnlinkedDirectory(maxBlocks: int, cacheLimit: int, name: string) returns (fs: FsNet)
    requires name != "." && name != ".."
    ensures fresh(fs) && fs.Valid() && fs.files == [File(0, false, ReadOnly), File(1, false, ReadOnly)] && |fs.inodes| == 2
    ensures IsDir(fs.inodes[1]) && fs.inodes[1].body.entries == [] && fs.inodes[1].refcount == 0 && fs.inodes[1].openCount == 1
  {
    hide Balanced, FlushAborts, SameBodies;
    fs := WalkedDirectory(maxBlocks, cacheLimit, name);
    ghost var before := fs.inodes;
    assert FoundAt(before[0], name, 2);
    FoundOnce(before[0], name, 2);
    var r := fs.UnlinkAt(0, name);
    OpenedAlive(fs.Now(), Idle(fs.untidy), 0);
    OpenedAlive(fs.Now(), Idle(fs.untidy), 1);
    OnlyOpen(fs.Now(), fs.untidy);
  }

  lemma TwoNames(n: Inode, name: string)
    requires IsDir(n) && n.body.entries == [Entry(".", 0), Entry("..", 0)] && name != "." && name != ".."
    ensures !HasName(n, name)
  {
  }

  /** A directory is unlinked while a file is on it, gets a new entry through the file, and loses
      the file: nothing uses it any more, and it has the entry. */
  method UnlinkThenAdd(maxBlocks: int, cacheLimit: int, name: string, child: string) returns (fs: FsNet, aborted: bool)
    requires name != "." && name != ".."
    ensures aborted && fs.files == [File(0, false, ReadOnly), Closed] && |fs.inodes| == 3
    ensures IsDir(fs.inodes[1]) && fs.inodes[1].refcount == 0 && fs.inodes[1].openCount == 0
    ensures fs.inodes[1].body.entries == [Entry(child, 2)]
  {
    hide Balanced;
    fs := UnlinkedDirectory(maxBlocks, cacheLimit, name);
    var r := fs.MakeNode(1, child, Reg(0, Local, []));
    aborted := fs.Delete(1);
  }

  lemma FollowedOne(inodes: seq<Inode>, n: nat, name: string, k: nat)
    requires n < |inodes| && FoundAt(inodes[n], name, k)
    ensures Followed(inodes, n, [name]) == (1, inodes[n].body.entries[k].inode)
  {
    FoundOnce(inodes[n], name, k);
    assert [name][1..] == [];
  }

  /** The counts of a directory that nothing names any more and one file is on */
  lemma OnlyOpen(s: Fs, untidy: set<nat>)
    requires Balanced(s, Idle(untidy)) && |s.inodes| == 2 && IsDir(s.inodes[0]) && IsDir(s.inodes[1])
    requires s.inodes[0].body.entries == [Entry(".", 0), Entry("..", 0)] && s.inodes[1].body.entries == []
    requires |s.files| == 2 && s.files[0].File? && s.files[0].inode == 0 && s.files[1].File? && s.files[1].inode == 1
    ensures s.inodes[1].refcount == 0 && s.inodes[1].openCount == 1
  {
    assert CountOk(s.inodes, s.files, Idle(untidy), 1);
    SumTwo(s.inodes, Refs(1));
    SumTwo(s.files, Opens(1));
    SumTwo(s.inodes[0].body.entries, Names(1));
  }

  lemma SumTwo<T>(s: seq<T>, f: T -> int)
    requires |s| == 2
    ensures Sum(s, f) == f(s[0]) + f(s[1])
  {
    var t := s[..1];
    assert t[..0] == [] && t[0] == s[0];
    assert Sum(t, f) == Sum([], f) + f(s[0]);
  }

  // -----------------------------------------------------------------------------------------
  // A directory emptied of entries "." and ".." that are not its own
  // -----------------------------------------------------------------------------------------

  /** The first inodes are directories with these entries. */
  ghost predicate Holds(inodes: seq<Inode>, es: seq<seq<Entry>>) {
    |inodes| == |es| && forall i :: 0 <= i < |es| ==> IsDir(inodes[i]) && inodes[i].body.entries == es[i]
  }

  /** File i is on directory i. */
  predicate FileEach(files: seq<File>, n: nat) {
    |files| == n && forall i :: 0 <= i < n ==> files[i].File? && files[i].inode == i
  }

  predicate At(es: seq<Entry>, name: string, k: nat) {
    k < |es| && es[k].name == name && forall j :: 0 <= j < k ==> es[j].name != name
  }

  predicate Absent(es: seq<Entry>, name: string) { forall j :: 0 <= j < |es| ==> es[j].name != name }

  function Moved(es: seq<seq<Entry>>, d: nat, k: nat, e: nat, name: string): seq<seq<Entry>>
    requires d < |es| && e < |es| && k < |es[d]|
  {
    es[d := Drop(es[d], k)][e := es[e] + [Entry(name, es[d][k].inode)]]
  }

  method MoveName(fs: FsNet, f: nat, name: string, g: nat, newName: string, ghost es: seq<seq<Entry>>, ghost k: nat)
    requires fs.Valid() && Holds(fs.inodes, es) && FileEach(fs.files, |es|) && f < |es| && g < |es| && f != g
    requires At(es[f], name, k) && Absent(es[g], newName)
    modifies fs
    ensures fs.Valid() && fs.files == old(fs.files) && Holds(fs.inodes, Moved(es, f, k, g, newName))
  {
    hide Balanced;
    ghost var before := fs.inodes;
    assert FoundAt(before[f], name, k);
    FoundOnce(before[f], name, k);
    var r := fs.RenameAt(f, name, g, newName);
    forall i | 0 <= i < |es| ensures fs.inodes[i].Inode? { OpenedAlive(fs.Now(), Idle(fs.untidy), i); }
  }

  method TwoDirectories(names: seq<string>) returns (fs: FsNet)
    requires |names| == 4 && "." !in names && ".." !in names && names[0] != names[1]
    ensures fresh(fs) && fs.Valid() && FileEach(fs.files, 3)
    ensures Holds(fs.inodes, [[Entry(".", 0), Entry("..", 0), Entry(names[0], 1), Entry(names[1], 2)],
                              [Entry(".", 1), Entry("..", 0)], [Entry(".", 2), Entry("..", 0)]])
  {
    hide Balanced, Followed;
    fs := WalkedDirectory(0, 0, names[0]);
    var r := fs.Mkdir(0, names[1]);
    assert FoundAt(fs.inodes[0], names[1], 3);
    FollowedOne(fs.inodes, 0, names[1], 3);
    var n, g := fs.Walk(0, [names[1]]);
  }

  /** The first directory has lost its entries "." and "..". */
  method DotsMoved(names: seq<string>) returns (fs: FsNet)
    requires |names| == 4 && "." !in names && ".." !in names && forall i, j :: 0 <= i < j < 4 ==> names[i] != names[j]
    ensures fresh(fs) && fs.Valid() && FileEach(fs.files, 3)
    ensures Holds(fs.inodes, [[Entry(".", 0), Entry("..", 0), Entry(names[0], 1), Entry(names[1], 2),
                               Entry(names[2], 1), Entry(names[3], 0)],
                              [], [Entry(".", 2), Entry("..", 0)]])
  {
    hide Balanced;
    fs := TwoDirectories(names);
    ghost var es := [[Entry(".", 0), Entry("..", 0), Entry(names[0], 1), Entry(names[1], 2)],
                     [Entry(".", 1), Entry("..", 0)], [Entry(".", 2), Entry("..", 0)]];
    MoveName(fs, 1, ".", 0, names[2], es, 0);
    es := Moved(es, 1, 0, 0, names[2]);
    MoveName(fs, 1, "..", 0, names[3], es, 0);
  }

  /** Its two entries are the last names of the other directory, which has an entry. */
  method DotsReplaced(names: seq<string>) returns (fs: FsNet)
    requires |names| == 4 && "." !in names && ".." !in names && forall i, j :: 0 <= i < j < 4 ==> names[i] != names[j]
    ensures fresh(fs) && fs.Valid() && FileEach(fs.files, 3)
    ensures Holds(fs.inodes, [[Entry(".", 0), Entry("..", 0), Entry(names[0], 1), Entry(names[2], 1), Entry(names[3], 0)],
                              [Entry(".", 2), Entry("..", 2)], [Entry("..", 0)]])
  {
    hide Balanced;
    fs := DotsMoved(names);
    ghost var es := [[Entry(".", 0), Entry("..", 0), Entry(names[0], 1), Entry(names[1], 2),
                      Entry(names[2], 1), Entry(names[3], 0)],
                     [], [Entry(".", 2), Entry("..", 0)]];
    MoveName(fs, 0, names[1], 1, ".", es, 3);
    es := Moved(es, 0, 3, 1, ".");
    MoveName(fs, 2, ".", 1, "..", es, 0);
  }

  /** The "." and ".." of one directory are renamed into the root, another directory and its "."
      are renamed to be "." and ".." of the first: unlinking that releases the other one, with an
      entry in it. */
  method UnlinkForeignDots(names: seq<string>) returns (fs: FsNet, r: Reply, ghost before: seq<Inode>)
    requires |names| == 4 && "." !in names && ".." !in names && forall i, j :: 0 <= i < j < 4 ==> names[i] != names[j]
    ensures r.Aborted? && |fs.files| == 3 && fs.files[2] == Closed && FileEach(fs.files[..2], 2)
    ensures Holds(before, [[Entry(".", 0), Entry("..", 0), Entry(names[0], 1), Entry(names[2], 1), Entry(names[3], 0)],
                           [Entry(".", 2), Entry("..", 2)], [Entry("..", 0)]])
    ensures before[2].refcount == 2 && before[2].openCount == 0
  {
    hide Balanced, HasName;
    fs := DotsReplaced(names);
    DirNotAwaited(fs.Now(), Idle(fs.untidy), 2);
    NamedTwice(fs.Now(), fs.untidy);
    var aborted := fs.Delete(2);
    assert FoundAt(fs.inodes[0], names[0], 2);
    FoundOnce(fs.inodes[0], names[0], 2);
    before := fs.inodes;
    r := fs.UnlinkAt(0, names[0]);
  }

  lemma NamedTwice(s: Fs, untidy: set<nat>)
    requires Balanced(s, Idle(untidy)) && FileEach(s.files, 3) && |s.inodes| == 3
    requires IsDir(s.inodes[0]) && forall k :: 0 <= k < |s.inodes[0].body.entries| ==> s.inodes[0].body.entries[k].inode != 2
    requires IsDir(s.inodes[2]) && forall k :: 0 <= k < |s.inodes[2].body.entries| ==> s.inodes[2].body.entries[k].inode != 2
    requires IsDir(s.inodes[1]) && s.inodes[1].body.entries == [Entry(".", 2), Entry("..", 2)]
    ensures s.inodes[2].refcount == Sum(s.inodes[1].body.entries, Names(2)) == 2 && s.inodes[2].openCount == 1
  {
    assert CountOk(s.inodes, s.files, Idle(untidy), 2);
    SumThree(s.inodes, Refs(2));
    SumThree(s.files, Opens(2));
    SumTwo(s.inodes[1].body.entries, Names(2));
    SumNothing(s.inodes[0].body.entries, Names(2));
    SumNothing(s.inodes[2].body.entries, Names(2));
  }

  lemma SumThree<T>(s: seq<T>, f: T -> int)
    requires |s| == 3
    ensures Sum(s, f) == f(s[0]) + f(s[1]) + f(s[2])
  {
    SumTwo(s[..2], f);
  }
}
