/** The filesystem that a file list gives: the inodes filelist_load_rec makes for a parsed tree. */
module FsLoad {
  import opened FsGraph
  import opened FsNet
  import FileList

  /** What is made of an item besides a directory: a file is to be loaded unless it is empty. */
  function BodyFor(p: FileList.Payload): Body
    requires !p.Dir?
  {
    match p
    case Reg(size, _) => if size > 0 then Reg(size, Unloaded, []) else Reg(0, Local, [])
    case Lnk(target) => Symlink(target)
    case _ => Special
  }

  /** The entries es show the items, through inodes numbered from base on. */
  ghost predicate Shows(inodes: seq<Inode>, es: seq<Entry>, items: seq<FileList.Item>, base: nat)
    decreases items
  {
    && |es| == |items|
    && (items != [] ==>
          var i := es[0].inode;
          && es[0].name == items[0].name && base <= i < |inodes| && inodes[i].Inode?
          && (if items[0].payload.Dir? then
                && inodes[i].body.Dir? && |inodes[i].body.entries| >= 2 && inodes[i].body.entries[0] == Entry(".", i)
                && inodes[i].body.entries[1].name == ".."
                && Shows(inodes, inodes[i].body.entries[2..], items[0].payload.items, base)
              else inodes[i].body == BodyFor(items[0].payload))
          && Shows(inodes, es[1..], items[1..], base))
  }

  /** Inodes from base on are alive with the same bodies. */
  ghost predicate Untouched(before: seq<Inode>, after: seq<Inode>, base: nat) {
    && |before| <= |after|
    && (forall i :: base <= i < |before| && before[i].Inode? ==> after[i].Inode? && after[i].body == before[i].body)
  }

  lemma {:induction false} ShownStays(before: seq<Inode>, after: seq<Inode>, es: seq<Entry>, items: seq<FileList.Item>, base: nat)
    requires Shows(before, es, items, base) && Untouched(before, after, base)
    ensures Shows(after, es, items, base)
    decreases items
  {
    if items != [] {
      var i := es[0].inode;
      if items[0].payload.Dir? {
        ShownStays(before, after, before[i].body.entries[2..], items[0].payload.items, base);
      }
      ShownStays(before, after, es[1..], items[1..], base);
    }
  }

  lemma {:induction false} ShownFrom(inodes: seq<Inode>, es: seq<Entry>, items: seq<FileList.Item>, base: nat, lower: nat)
    requires Shows(inodes, es, items, base) && lower <= base
    ensures Shows(inodes, es, items, lower)
    decreases items
  {
    if items != [] {
      var i := es[0].inode;
      if items[0].payload.Dir? {
        ShownFrom(inodes, inodes[i].body.entries[2..], items[0].payload.items, base, lower);
      }
      ShownFrom(inodes, es[1..], items[1..], base, lower);
    }
  }

  /** One more entry and item at the end. */
  lemma {:induction false} ShownSnoc(inodes: seq<Inode>, es: seq<Entry>, items: seq<FileList.Item>, base: nat, e: Entry, it: FileList.Item)
    requires Shows(inodes, es, items, base) && Shows(inodes, [e], [it], base)
    ensures Shows(inodes, es + [e], items + [it], base)
    decreases |items|
  {
    if items == [] {
      assert es + [e] == [e] && items + [it] == [it];
    } else {
      ShownSnoc(inodes, es[1..], items[1..], base, e, it);
      assert (es + [e])[1..] == es[1..] + [e] && (items + [it])[1..] == items[1..] + [it];
    }
  }

  /** filelist_load_rec on a tree already parsed: the directory shows the items, nothing else has
      changed, and the filesystem's invariant holds. */
  method LoadTree(d: FsNet, dir: nat, items: seq<FileList.Item>)
    requires d.Valid() && dir < |d.inodes| && IsDir(d.inodes[dir]) && d.inodes[dir].body.entries != []
    modifies d
    ensures d.Valid() && d.files == old(d.files) && |old(d.inodes)| <= |d.inodes|
    ensures IsDir(d.inodes[dir]) && old(d.inodes)[dir].body.entries <= d.inodes[dir].body.entries
    ensures Shows(d.inodes, d.inodes[dir].body.entries[|old(d.inodes)[dir].body.entries|..], items, |old(d.inodes)|)
    ensures SameBodies(old(d.inodes), d.inodes, {dir}) && Untouched(old(d.inodes)[dir := Freed], d.inodes, 0)
    decreases items
  {
    hide Balanced, Shows;
    ghost var before := d.inodes;
    ghost var es: seq<Entry> := [];
    ShownNone(d.inodes, |before|);
    assert items[..0] == [];
    var k := 0;
    while k < |items|
      invariant 0 <= k <= |items| && d.Valid() && d.files == old(d.files) && |before| <= |d.inodes|
      invariant IsDir(d.inodes[dir]) && d.inodes[dir].body.entries == before[dir].body.entries + es
      invariant Shows(d.inodes, es, items[..k], |before|)
      invariant SameBodies(before, d.inodes, {dir}) && Untouched(before[dir := Freed], d.inodes, 0)
    {
      ghost var was, was' := d.inodes, es;
      var i := LoadItem(d, dir, items[k]);
      es := es + [Entry(items[k].name, i)];
      ShownStays(was, d.inodes, was', items[..k], |before|);
      ShownFrom(d.inodes, [Entry(items[k].name, i)], [items[k]], |was|, |before|);
      ShownSnoc(d.inodes, was', items[..k], |before|, Entry(items[k].name, i), items[k]);
      assert items[..k + 1] == items[..k] + [items[k]];
      assert before[dir].body.entries + was' + [Entry(items[k].name, i)] == before[dir].body.entries + es;
      k := k + 1;
    }
    assert items[..k] == items;
    assert (before[dir].body.entries + es)[|before[dir].body.entries|..] == es;
  }

  lemma ShownNone(inodes: seq<Inode>, base: nat)
    ensures Shows(inodes, [], [], base)
  {
  }

  /** One item, its directory's contents included */
  method LoadItem(d: FsNet, dir: nat, it: FileList.Item) returns (i: nat)
    requires d.Valid() && dir < |d.inodes| && IsDir(d.inodes[dir]) && d.inodes[dir].body.entries != []
    modifies d
    ensures d.Valid() && d.files == old(d.files) && |old(d.inodes)| <= |d.inodes|
    ensures IsDir(d.inodes[dir]) && d.inodes[dir].body.entries == old(d.inodes)[dir].body.entries + [Entry(it.name, i)]
    ensures Shows(d.inodes, [Entry(it.name, i)], [it], |old(d.inodes)|)
    ensures SameBodies(old(d.inodes), d.inodes, {dir}) && Untouched(old(d.inodes)[dir := Freed], d.inodes, 0)
    decreases it, 1
  {
    hide Balanced, Shows, SameBodies, Untouched;
    if it.payload.Dir? {
      i := LoadDirectory(d, dir, it);
    } else {
      i := LoadLeaf(d, dir, it);
    }
  }

  method LoadDirectory(d: FsNet, dir: nat, it: FileList.Item) returns (i: nat)
    requires d.Valid() && dir < |d.inodes| && IsDir(d.inodes[dir]) && d.inodes[dir].body.entries != []
    requires it.payload.Dir?
    modifies d
    ensures d.Valid() && d.files == old(d.files) && |old(d.inodes)| <= |d.inodes|
    ensures IsDir(d.inodes[dir]) && d.inodes[dir].body.entries == old(d.inodes)[dir].body.entries + [Entry(it.name, i)]
    ensures Shows(d.inodes, [Entry(it.name, i)], [it], |old(d.inodes)|)
    ensures SameBodies(old(d.inodes), d.inodes, {dir}) && Untouched(old(d.inodes)[dir := Freed], d.inodes, 0)
    decreases it, 0
  {
    hide Balanced, Shows;
    ghost var before := d.inodes;
    i := d.NewDirectory(dir);
    d.DirAdd(dir, it.name, i, HoldRef(Idle(d.untidy), i));
    NothingHeld(Idle(d.untidy), i);
    ghost var made := d.inodes;
    LoadTree(d, i, it.payload.items);
    DirectoryShown(d.inodes, before, made, i, it);
  }

  lemma DirectoryShown(inodes: seq<Inode>, before: seq<Inode>, made: seq<Inode>, i: nat, it: FileList.Item)
    requires it.payload.Dir? && i == |before| && |made| == i + 1 <= |inodes| && IsDir(made[i]) && IsDir(inodes[i])
    requires |made[i].body.entries| == 2 && made[i].body.entries[0] == Entry(".", i) && made[i].body.entries[1].name == ".."
    requires made[i].body.entries <= inodes[i].body.entries
    requires Shows(inodes, inodes[i].body.entries[2..], it.payload.items, |made|)
    ensures Shows(inodes, [Entry(it.name, i)], [it], |before|)
  {
    ShownFrom(inodes, inodes[i].body.entries[2..], it.payload.items, |made|, |before|);
  }

  method LoadLeaf(d: FsNet, dir: nat, it: FileList.Item) returns (i: nat)
    requires d.Valid() && dir < |d.inodes| && IsDir(d.inodes[dir]) && d.inodes[dir].body.entries != []
    requires !it.payload.Dir?
    modifies d
    ensures d.Valid() && d.files == old(d.files) && |old(d.inodes)| <= |d.inodes|
    ensures IsDir(d.inodes[dir]) && d.inodes[dir].body.entries == old(d.inodes)[dir].body.entries + [Entry(it.name, i)]
    ensures Shows(d.inodes, [Entry(it.name, i)], [it], |old(d.inodes)|)
    ensures SameBodies(old(d.inodes), d.inodes, {dir}) && Untouched(old(d.inodes)[dir := Freed], d.inodes, 0)
  {
    hide Balanced, Shows;
    if it.payload.Reg? {
      i := d.AddNew(dir, it.name, Reg(0, Local, []));
      UnusedNotOpened(d.Now(), d.untidy, i);
      var _ := d.SetUrl(i, it.payload.size);
    } else if it.payload.Lnk? {
      i := d.AddNew(dir, it.name, Symlink(it.payload.target));
    } else {
      i := d.AddNew(dir, it.name, Special);
    }
    LeafShown(d.inodes, |old(d.inodes)|, i, it);
  }

  lemma LeafShown(inodes: seq<Inode>, base: nat, i: nat, it: FileList.Item)
    requires !it.payload.Dir? && base <= i < |inodes| && inodes[i].Inode? && inodes[i].body == BodyFor(it.payload)
    ensures Shows(inodes, [Entry(it.name, i)], [it], base)
  {
  }
}
