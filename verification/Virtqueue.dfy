/** Descriptor chains of virtio.c (virtio 1.0, section 2.4.5): copying to and from a chain is
    slicing the concatenation of its buffers. */
module Virtqueue {
  import opened Arith
  import opened ByteStreams
  import opened Wrappers

  const PAGE := 4096

  /** Guest RAM by pages.  get_ram_ptr answers for one page at a time. */
  type Ram = map<nat, seq<Byte>>

  /** A descriptor; `next` stands for the flag VRING_DESC_F_NEXT and the field it makes valid. */
  datatype Desc = Desc(addr: nat, len: nat, write: bool, next: Option<nat>)

  // -----------------------------------------------------------------------------------------
  // RAM
  // -----------------------------------------------------------------------------------------

  predicate Paged(ram: Ram) {
    forall p :: p in ram.Keys ==> |ram[p]| == PAGE
  }

  predicate InRam(ram: Ram, a: nat) { a / PAGE in ram.Keys }

  predicate AllIn(ram: Ram, addrs: seq<nat>) {
    forall i :: 0 <= i < |addrs| ==> InRam(ram, addrs[i])
  }

  function ByteAt(ram: Ram, a: nat): Byte
    requires Paged(ram) && InRam(ram, a)
  {
    ram[a / PAGE][a % PAGE]
  }

  /** The bytes at a list of addresses. */
  function Load(ram: Ram, addrs: seq<nat>): (b: seq<Byte>)
    requires Paged(ram) && AllIn(ram, addrs)
    ensures |b| == |addrs|
  {
    seq(|addrs|, i requires 0 <= i < |addrs| => ByteAt(ram, addrs[i]))
  }

  function Poke(ram: Ram, a: nat, b: Byte): (r: Ram)
    requires Paged(ram) && InRam(ram, a)
    ensures Paged(r) && r.Keys == ram.Keys
  {
    ram[a / PAGE := ram[a / PAGE][a % PAGE := b]]
  }

  /** The bytes stored one after the other at a list of addresses. */
  function Store(ram: Ram, addrs: seq<nat>, b: seq<Byte>): (r: Ram)
    requires Paged(ram) && |addrs| == |b| && AllIn(ram, addrs)
    ensures Paged(r) && r.Keys == ram.Keys
    decreases |addrs|
  {
    if addrs == [] then ram
    else Poke(Store(ram, addrs[..|addrs| - 1], b[..|b| - 1]), addrs[|addrs| - 1], b[|b| - 1])
  }

  /** How many of the addresses lie in RAM before the first one that does not. */
  function Reached(ram: Ram, addrs: seq<nat>): (n: nat)
    ensures n <= |addrs| && AllIn(ram, addrs[..n]) && (n < |addrs| ==> !InRam(ram, addrs[n]))
  {
    if addrs == [] || !InRam(ram, addrs[0]) then 0 else 1 + Reached(ram, addrs[1..])
  }

  lemma ReachedAll(ram: Ram, addrs: seq<nat>)
    ensures Reached(ram, addrs) == |addrs| <==> AllIn(ram, addrs)
  {
    var n := Reached(ram, addrs);
    if n == |addrs| { assert addrs[..n] == addrs; }
  }

  lemma {:induction false} ReachedAt(ram: Ram, addrs: seq<nat>, n: nat)
    requires n < |addrs| && AllIn(ram, addrs[..n]) && !InRam(ram, addrs[n])
    ensures Reached(ram, addrs) == n
  {
    if n > 0 {
      assert addrs[..n][0] == addrs[0];
      assert addrs[1..][..n - 1] == addrs[..n][1..];
      ReachedAt(ram, addrs[1..], n - 1);
    }
  }

  /** The addresses from a on, n of them. */
  function Addrs(a: nat, n: nat): (s: seq<nat>)
    ensures |s| == n && forall i :: 0 <= i < n ==> s[i] == a + i
  {
    seq(n, i requires 0 <= i < n => a + i)
  }

  lemma {:induction false} StoreParts(ram: Ram, x: seq<nat>, y: seq<nat>, b: seq<Byte>, c: seq<Byte>)
    requires Paged(ram) && |x| == |b| && |y| == |c| && AllIn(ram, x) && AllIn(ram, y)
    ensures AllIn(ram, x + y)
    ensures Store(ram, x + y, b + c) == Store(Store(ram, x, b), y, c)
    decreases |y|
  {
    hide Poke, AllIn, InRam, Store;
    AllInParts(ram, x, y);
    SameKeys(ram, Store(ram, x, b), y);
    if y == [] {
      assert x + y == x && b + c == b;
      StoreNothing(Store(ram, x, b));
    } else {
      var n := |y| - 1;
      AllInParts(ram, y[..n], [y[n]]);
      assert y == y[..n] + [y[n]] && c == c[..n] + [c[n]];
      StoreParts(ram, x, y[..n], b, c[..n]);
      SameKeys(ram, Store(ram, x, b), y[..n]);
      SameKeys(ram, Store(ram, x, b), [y[n]]);
      StoreLast(ram, x + y[..n], y[n], b + c[..n], c[n]);
      StoreLast(Store(ram, x, b), y[..n], y[n], c[..n], c[n]);
      assert x + y == (x + y[..n]) + [y[n]] && b + c == (b + c[..n]) + [c[n]];
    }
  }

  lemma StoreLast(ram: Ram, x: seq<nat>, a: nat, b: seq<Byte>, c: Byte)
    requires Paged(ram) && |x| == |b| && AllIn(ram, x) && AllIn(ram, [a])
    ensures AllIn(ram, x + [a]) && InRam(Store(ram, x, b), a)
    ensures Store(ram, x + [a], b + [c]) == Poke(Store(ram, x, b), a, c)
  {
    AllInParts(ram, x, [a]);
    assert InRam(ram, [a][0]);
    hide Poke;
    var y, d := x + [a], b + [c];
    assert y[..|y| - 1] == x && d[..|d| - 1] == b && y[|y| - 1] == a;
  }

  /** What was stored at distinct addresses is what is loaded from them. */
  lemma {:induction false} StoreThenLoad(ram: Ram, addrs: seq<nat>, b: seq<Byte>, i: nat)
    requires Paged(ram) && |addrs| == |b| && i < |addrs| && AllIn(ram, addrs)
    requires forall j, k :: 0 <= j < k < |addrs| ==> addrs[j] != addrs[k]
    ensures InRam(Store(ram, addrs, b), addrs[i]) && ByteAt(Store(ram, addrs, b), addrs[i]) == b[i]
    decreases |addrs|
  {
    var n := |addrs| - 1;
    var r := Store(ram, addrs[..n], b[..n]);
    if i < n {
      StoreThenLoad(ram, addrs[..n], b[..n], i);
      assert addrs[i] != addrs[n];
      OtherByte(r, addrs[n], b[n], addrs[i]);
    }
  }

  lemma OtherByte(ram: Ram, a: nat, b: Byte, x: nat)
    requires Paged(ram) && InRam(ram, a) && InRam(ram, x) && x != a
    ensures InRam(Poke(ram, a, b), x) && ByteAt(Poke(ram, a, b), x) == ByteAt(ram, x)
  {
    if x / PAGE == a / PAGE { assert x % PAGE != a % PAGE; }
  }

  /** memcpy from a host pointer, inside one page. */
  method CopyFromPage(ram: Ram, addr: nat, l: nat) returns (b: seq<Byte>)
    requires Paged(ram) && AllIn(ram, Addrs(addr, l)) && addr % PAGE + l <= PAGE && l > 0
    ensures b == Load(ram, Addrs(addr, l))
  {
    hide InRam, ByteAt, Load, Addrs;
    ByteInPage(ram, addr, l, 0);
    b := ram[addr / PAGE][addr % PAGE..addr % PAGE + l];
    var c := Load(ram, Addrs(addr, l));
    assert |b| == l && |c| == l;
    forall i | 0 <= i < l ensures b[i] == c[i] { ByteInPage(ram, addr, l, i); }
    assert b == c;
  }

  lemma LoadParts(ram: Ram, x: seq<nat>, y: seq<nat>)
    requires Paged(ram) && AllIn(ram, x) && AllIn(ram, y)
    ensures AllIn(ram, x + y) && Load(ram, x + y) == Load(ram, x) + Load(ram, y)
  {
    AllInParts(ram, x, y);
    hide ByteAt, InRam;
  }

  /** A stretch of addresses cut in two. */
  lemma Stretch(ram: Ram, a: nat, done: nat, l: nat)
    ensures Addrs(a, done + l) == Addrs(a, done) + Addrs(a + done, l)
    ensures AllIn(ram, Addrs(a, done + l)) <==> AllIn(ram, Addrs(a, done)) && AllIn(ram, Addrs(a + done, l))
  {
    hide InRam, AllIn;
    AddrsParts(a, done, l);
    AllInParts(ram, Addrs(a, done), Addrs(a + done, l));
  }

  lemma ByteInPage(ram: Ram, addr: nat, l: nat, i: nat)
    requires Paged(ram) && AllIn(ram, Addrs(addr, l)) && addr % PAGE + l <= PAGE && i < l
    ensures addr / PAGE in ram.Keys && |ram[addr / PAGE]| == PAGE
    ensures Load(ram, Addrs(addr, l))[i] == ram[addr / PAGE][addr % PAGE + i]
  {
    DivUnique(addr + i, PAGE, addr / PAGE, addr % PAGE + i);
    assert InRam(ram, Addrs(addr, l)[i]);
    assert Load(ram, Addrs(addr, l))[i] == ByteAt(ram, Addrs(addr, l)[i]);
  }

  lemma AddrsParts(a: nat, m: nat, n: nat)
    ensures Addrs(a, m + n) == Addrs(a, m) + Addrs(a + m, n)
  {
  }

  lemma AllInParts(ram: Ram, x: seq<nat>, y: seq<nat>)
    ensures AllIn(ram, x + y) <==> AllIn(ram, x) && AllIn(ram, y)
  {
    if AllIn(ram, x + y) {
      forall i | 0 <= i < |x| ensures InRam(ram, x[i]) { assert (x + y)[i] == x[i]; }
      forall i | 0 <= i < |y| ensures InRam(ram, y[i]) { assert (x + y)[|x| + i] == y[i]; }
    }
  }

  /** virtio_memcpy_from_ram: up to the first page that is no RAM, the rest of the buffer being
      left as it was. */
  method MemcpyFromRam(ram: Ram, addr0: nat, buf: seq<Byte>) returns (ok: bool, b: seq<Byte>)
    requires Paged(ram)
    ensures ok <==> AllIn(ram, Addrs(addr0, |buf|))
    ensures var m := Reached(ram, Addrs(addr0, |buf|));
            AllIn(ram, Addrs(addr0, m)) && b == Load(ram, Addrs(addr0, m)) + buf[m..]
  {
    hide InRam, AllIn, Addrs, Load, Reached;
    b := [];
    var addr: nat, count: nat := addr0, |buf|;
    NothingLoaded(ram, addr0);
    while count > 0
      invariant addr + count == addr0 + |buf| && addr0 <= addr
      invariant AllIn(ram, Addrs(addr0, addr - addr0)) && b == Load(ram, Addrs(addr0, addr - addr0))
    {
      var l := if count < PAGE - addr % PAGE then count else PAGE - addr % PAGE;
      if addr / PAGE !in ram {
        PageMissing(ram, addr0, addr - addr0, |buf|);
        return false, b + buf[addr - addr0..];
      }
      OnePage(ram, addr, l);
      Stretch(ram, addr0, addr - addr0, l);
      LoadParts(ram, Addrs(addr0, addr - addr0), Addrs(addr, l));
      var part := CopyFromPage(ram, addr, l);
      b := b + part;
      addr := addr + l;
      count := count - l;
    }
    ReachedAll(ram, Addrs(addr0, |buf|));
    return true, b;
  }

  /** A page that is no RAM, reached after `done` bytes */
  lemma PageMissing(ram: Ram, a: nat, done: nat, n: nat)
    requires done < n && AllIn(ram, Addrs(a, done)) && (a + done) / PAGE !in ram
    ensures Reached(ram, Addrs(a, n)) == done && !AllIn(ram, Addrs(a, n))
  {
    assert Addrs(a, n)[..done] == Addrs(a, done);
    assert !InRam(ram, Addrs(a, n)[done]);
    ReachedAt(ram, Addrs(a, n), done);
  }

  lemma OnePage(ram: Ram, a: nat, l: nat)
    requires a / PAGE in ram && a % PAGE + l <= PAGE
    ensures AllIn(ram, Addrs(a, l))
  {
    forall i | 0 <= i < l ensures InRam(ram, Addrs(a, l)[i]) {
      DivUnique(a + i, PAGE, a / PAGE, a % PAGE + i);
    }
  }

  lemma NothingLoaded(ram: Ram, a: nat)
    requires Paged(ram)
    ensures AllIn(ram, Addrs(a, 0)) && Load(ram, Addrs(a, 0)) == [] && Addrs(a, 0) == []
  {
  }

  /** memcpy to a host pointer, inside one page. */
  method CopyToPage(ram: Ram, addr: nat, b: seq<Byte>) returns (r: Ram)
    requires Paged(ram) && AllIn(ram, Addrs(addr, |b|)) && addr % PAGE + |b| <= PAGE
    ensures r == Store(ram, Addrs(addr, |b|), b)
  {
    hide InRam, AllIn, Addrs, Poke;
    r := ram;
    NothingLoaded(ram, addr);
    var i: nat := 0;
    while i < |b|
      invariant i <= |b| && AllIn(ram, Addrs(addr, i)) && r == Store(ram, Addrs(addr, i), b[..i])
    {
      Stretch(ram, addr, i + 1, |b| - i - 1);
      Stretch(ram, addr, i, 1);
      StoreOne(ram, Addrs(addr, i), addr + i, b[..i], b[i]);
      assert b[..i + 1] == b[..i] + [b[i]];
      r := Poke(r, addr + i, b[i]);
      i := i + 1;
    }
    assert b[..i] == b;
  }

  lemma StoreOne(ram: Ram, x: seq<nat>, a: nat, b: seq<Byte>, c: Byte)
    requires Paged(ram) && |x| == |b| && AllIn(ram, x) && AllIn(ram, Addrs(a, 1))
    ensures AllIn(ram, x + Addrs(a, 1)) && InRam(Store(ram, x, b), a)
    ensures Store(ram, x + Addrs(a, 1), b + [c]) == Poke(Store(ram, x, b), a, c)
  {
    assert Addrs(a, 1) == [a];
    hide *;
    StoreLast(ram, x, a, b, c);
  }

  /** virtio_memcpy_to_ram: up to the first page that is no RAM. */
  method MemcpyToRam(ram: Ram, addr0: nat, b: seq<Byte>) returns (ok: bool, r: Ram)
    requires Paged(ram)
    ensures ok <==> AllIn(ram, Addrs(addr0, |b|))
    ensures var m := Reached(ram, Addrs(addr0, |b|));
            AllIn(ram, Addrs(addr0, m)) && r == Store(ram, Addrs(addr0, m), b[..m])
  {
    hide Store, InRam, AllIn, Addrs, Reached;
    r := ram;
    NothingLoaded(ram, addr0);
    StoreNothing(ram);
    var addr, done: nat := addr0, 0;
    while done < |b|
      invariant addr == addr0 + done && done <= |b|
      invariant AllIn(ram, Addrs(addr0, done)) && r == Store(ram, Addrs(addr0, done), b[..done])
      decreases |b| - done
    {
      var l := if |b| - done < PAGE - addr % PAGE then |b| - done else PAGE - addr % PAGE;
      if addr / PAGE !in ram {
        PageMissing(ram, addr0, done, |b|);
        return false, r;
      }
      var part := b[done..done + l];
      OnePage(ram, addr, l);
      Stretch(ram, addr0, done, l);
      StoreParts(ram, Addrs(addr0, done), Addrs(addr, l), b[..done], part);
      assert b[..done + l] == b[..done] + part;
      SameKeys(ram, r, Addrs(addr, l));
      r := CopyToPage(r, addr, part);
      addr := addr + l;
      done := done + l;
    }
    ReachedAll(ram, Addrs(addr0, |b|));
    return true, r;
  }

  lemma SameKeys(ram: Ram, r: Ram, addrs: seq<nat>)
    requires ram.Keys == r.Keys
    ensures AllIn(ram, addrs) == AllIn(r, addrs)
  {
  }

  lemma StoreNothing(ram: Ram)
    requires Paged(ram)
    ensures Store(ram, [], []) == ram
  {
  }

  // -----------------------------------------------------------------------------------------
  // Chains
  // -----------------------------------------------------------------------------------------

  /** The indices that a walk from the first descriptor visits: a chain without cycles. */
  ghost predicate IsChain(table: seq<Desc>, path: seq<nat>) {
    path != [] && (forall i :: 0 <= i < |path| ==> path[i] < |table|) &&
    (forall i :: 0 <= i < |path| - 1 ==> table[path[i]].next == Some(path[i + 1])) &&
    table[path[|path| - 1]].next == None
  }

  /** The descriptors of a chain, in order. */
  ghost function Descs(table: seq<Desc>, path: seq<nat>): (ds: seq<Desc>)
    requires IsChain(table, path)
    ensures |ds| == |path| && forall i :: 0 <= i < |path| ==> ds[i] == table[path[i]]
  {
    seq(|path|, i requires 0 <= i < |path| => table[path[i]])
  }

  /** The addresses of the leading buffers of one kind, in order. */
  function Leading(ds: seq<Desc>, write: bool): seq<nat> {
    if ds == [] || ds[0].write != write then [] else Addrs(ds[0].addr, ds[0].len) + Leading(ds[1..], write)
  }

  /** The chain from its first writable descriptor on. */
  function FromWritable(ds: seq<Desc>): seq<Desc> {
    if ds == [] || ds[0].write then ds else FromWritable(ds[1..])
  }

  /** The bytes that a request can be read from, and those that an answer can be written to. */
  function Bytes(ds: seq<Desc>, toQueue: bool): seq<nat> {
    if toQueue then Leading(FromWritable(ds), true) else Leading(ds, false)
  }

  /** No readable descriptor follows a writable one. */
  predicate Ordered(ds: seq<Desc>) { AllWritable(FromWritable(ds)) }

  predicate AllWritable(ds: seq<Desc>) { forall i :: 0 <= i < |ds| ==> ds[i].write }

  /** What get_desc_rw_size walks over. */
  ghost function Rest(table: seq<Desc>, path: seq<nat>, k: nat): (ds: seq<Desc>)
    requires IsChain(table, path) && k < |path|
    ensures |ds| == |path| - k && ds[0] == table[path[k]]
  {
    Descs(table, path)[k..]
  }

  lemma RestNext(table: seq<Desc>, path: seq<nat>, k: nat)
    requires IsChain(table, path) && k < |path|
    ensures path[k] < |table| && (k + 1 < |path| ==> path[k + 1] < |table|)
    ensures table[path[k]].next.Some? <==> k + 1 < |path|
    ensures k + 1 < |path| ==> table[path[k]].next == Some(path[k + 1]) && Rest(table, path, k)[1..] == Rest(table, path, k + 1)
    ensures k + 1 == |path| ==> Rest(table, path, k)[1..] == []
    ensures Rest(table, path, 0) == Descs(table, path)
  {
    if k + 1 < |path| { assert table[path[k]].next == Some(path[k + 1]); }
  }

  lemma FirstWritable(ds: seq<Desc>)
    requires ds != []
    ensures !ds[0].write ==> FromWritable(ds) == FromWritable(ds[1..]) && Leading(ds, true) == []
    ensures ds[0].write ==> FromWritable(ds) == ds && Leading(ds, false) == []
    ensures Leading(ds, ds[0].write) == Addrs(ds[0].addr, ds[0].len) + Leading(ds[1..], ds[0].write)
  {
  }

  lemma NothingLeads(write: bool)
    ensures Leading([], write) == [] && FromWritable([]) == []
  {
  }

  /** get_desc_rw_size: None for a chain out of order, else the sizes of its two parts. */
  method GetDescRwSize(table: seq<Desc>, first: nat, ghost path: seq<nat>) returns (sizes: Option<(nat, nat)>)
    requires IsChain(table, path) && path != [] && first == path[0]
    ensures sizes == if Ordered(Descs(table, path))
                     then Some((|Bytes(Descs(table, path), false)|, |Bytes(Descs(table, path), true)|)) else None
  {
    hide IsChain, Descs, Rest, Leading, FromWritable;
    ChainStarts(table, path);
    RestNext(table, path, 0);
    var desc, readSize, writeSize: nat := table[first], 0, 0;
    ghost var all, k := Rest(table, path, 0), 0;
    OrderedIs(all);
    while !desc.write
      invariant k < |path| && path[k] < |table| && desc == table[path[k]] == Rest(table, path, k)[0]
      invariant FromWritable(all) == FromWritable(Rest(table, path, k))
      invariant |Leading(all, false)| == readSize + |Leading(Rest(table, path, k), false)|
      decreases |path| - k
    {
      FirstWritable(Rest(table, path, k));
      RestNext(table, path, k);
      readSize := readSize + desc.len;
      if desc.next.None? {
        NothingLeads(false);
        NothingLeads(true);
        return Some((readSize, writeSize));
      }
      desc := table[desc.next.value];
      k := k + 1;
    }
    FirstWritable(Rest(table, path, k));
    ghost var w := Rest(table, path, k);
    ghost var m := k;
    while true
      invariant m <= k < |path| && path[k] < |table| && desc == table[path[k]] == Rest(table, path, k)[0]
      invariant FromWritable(all) == w == Rest(table, path, m) && |Leading(all, false)| == readSize
      invariant |Leading(w, true)| == writeSize + |Leading(Rest(table, path, k), true)|
      invariant forall i :: 0 <= i < k - m ==> w[i].write
      decreases |path| - k
    {
      FirstWritable(Rest(table, path, k));
      RestNext(table, path, k);
      RestAt(table, path, m, k);
      if !desc.write { return None; }
      writeSize := writeSize + desc.len;
      if desc.next.None? {
        NothingLeads(true);
        return Some((readSize, writeSize));
      }
      desc := table[desc.next.value];
      k := k + 1;
    }
  }

  lemma ChainStarts(table: seq<Desc>, path: seq<nat>)
    requires IsChain(table, path)
    ensures path != [] && path[0] < |table|
  {
  }

  lemma RestAt(table: seq<Desc>, path: seq<nat>, m: nat, k: nat)
    requires IsChain(table, path) && m <= k < |path|
    ensures path[k] < |table| && Rest(table, path, m)[k - m] == table[path[k]]
  {
  }

  lemma OrderedIs(ds: seq<Desc>)
    ensures Ordered(ds) <==> AllWritable(FromWritable(ds))
  {
  }

  // -----------------------------------------------------------------------------------------
  // Copying
  // -----------------------------------------------------------------------------------------

  /** As many of `count` bytes from `offset` on as there are. */
  function Part(bytes: seq<nat>, offset: nat, count: nat): (p: seq<nat>)
    ensures |p| <= count
    ensures |p| == count <==> count == 0 || offset + count <= |bytes|
  {
    if offset >= |bytes| then []
    else if offset + count <= |bytes| then bytes[offset..offset + count]
    else bytes[offset..]
  }

  /** Bytes of one buffer, as a stretch of the whole chain. */
  lemma BufferSlice(bytes: seq<nat>, prefix: seq<nat>, a: nat, len: nat, tail: seq<nat>, o: nat, l: nat)
    requires bytes == prefix + (Addrs(a, len) + tail) && o + l <= len
    ensures |prefix| + o + l <= |bytes| && bytes[|prefix| + o..|prefix| + o + l] == Addrs(a + o, l)
  {
  }

  /** Nothing else has changed. */
  ghost predicate OnlyAt(ram: Ram, ram': Ram, addrs: seq<nat>)
    requires Paged(ram) && Paged(ram')
  {
    ram'.Keys == ram.Keys && forall a: nat :: InRam(ram, a) && InRam(ram', a) && a !in addrs ==> ByteAt(ram', a) == ByteAt(ram, a)
  }

  /** What a copy between the bytes `buf` and the addresses `part` leaves: in `ram` nothing but the
      part has changed, or nothing at all, and if the part is RAM all its bytes are copied. */
  ghost predicate Copied(ram0: Ram, ram: Ram, part: seq<nat>, buf: seq<Byte>, data: seq<Byte>, toQueue: bool)
    requires Paged(ram0)
  {
    && Paged(ram) && |part| == |buf| == |data| && OnlyAt(ram0, ram, part)
    && (if toQueue then data == buf else ram == ram0)
    && (AllIn(ram0, part) ==> if toQueue then ram == Store(ram0, part, buf) else data == Load(ram0, part))
  }

  lemma {:induction false} StoreOnlyAt(ram: Ram, addrs: seq<nat>, b: seq<Byte>)
    requires Paged(ram) && |addrs| == |b| && AllIn(ram, addrs)
    ensures OnlyAt(ram, Store(ram, addrs, b), addrs)
    decreases |addrs|
  {
    hide Poke, InRam, ByteAt;
    if addrs != [] {
      var n := |addrs| - 1;
      var r := Store(ram, addrs[..n], b[..n]);
      StoreOnlyAt(ram, addrs[..n], b[..n]);
      assert addrs == addrs[..n] + [addrs[n]];
      var t := Store(ram, addrs, b);
      forall a: nat | InRam(ram, a) && InRam(t, a) && a !in addrs ensures ByteAt(t, a) == ByteAt(ram, a) {
        KeysDecide(ram, r, a);
        KeysDecide(ram, r, addrs[n]);
        OtherByte(r, addrs[n], b[n], a);
      }
    }
  }

  lemma KeysDecide(ram: Ram, r: Ram, a: nat)
    requires ram.Keys == r.Keys
    ensures InRam(ram, a) == InRam(r, a)
  {
  }

  lemma OnlyAtMore(r0: Ram, r1: Ram, r2: Ram, x: seq<nat>, y: seq<nat>)
    requires Paged(r0) && Paged(r1) && Paged(r2) && OnlyAt(r0, r1, x) && OnlyAt(r1, r2, y)
    ensures OnlyAt(r0, r2, x + y)
  {
    hide ByteAt, InRam;
    forall a: nat | InRam(r0, a) && InRam(r2, a) && a !in x + y ensures ByteAt(r2, a) == ByteAt(r0, a) {
      KeysDecide(r0, r1, a);
    }
  }

  /** Storing the leading bytes of a part, and loading the leading bytes of a part */
  lemma StoredPrefix(ram: Ram, part: seq<nat>, b: seq<Byte>, m: nat)
    requires Paged(ram) && |part| == |b| && m <= |b| && AllIn(ram, part[..m])
    ensures OnlyAt(ram, Store(ram, part[..m], b[..m]), part)
  {
    hide ByteAt, InRam, AllIn, Store;
    StoreOnlyAt(ram, part[..m], b[..m]);
  }

  lemma Skipped(prefix: seq<nat>, a: seq<nat>, tail: seq<nat>)
    ensures prefix + (a + tail) == (prefix + a) + tail
  {
  }

  lemma NothingCopied(ram: Ram, toQueue: bool)
    requires Paged(ram)
    ensures Copied(ram, ram, [], [], [], toQueue)
  {
  }

  /** A copy, and then another one. */
  lemma CopiedMore(r0: Ram, r1: Ram, r2: Ram, x: seq<nat>, y: seq<nat>, b: seq<Byte>, c: seq<Byte>,
                   d: seq<Byte>, e: seq<Byte>, toQueue: bool)
    requires Paged(r0) && Paged(r1) && Copied(r0, r1, x, b, d, toQueue) && Copied(r1, r2, y, c, e, toQueue)
    ensures Copied(r0, r2, x + y, b + c, d + e, toQueue)
  {
    hide AllIn, Store, Load, OnlyAt;
    OnlyAtMore(r0, r1, r2, x, y);
    AllInParts(r0, x, y);
    CopiedKeys(r0, r1, x, b, d, toQueue);
    SameKeys(r0, r1, y);
    if AllIn(r0, x + y) {
      if toQueue { StoreParts(r0, x, y, b, c); } else { LoadParts(r0, x, y); }
    }
  }

  lemma CopiedKeys(ram0: Ram, ram: Ram, part: seq<nat>, buf: seq<Byte>, data: seq<Byte>, toQueue: bool)
    requires Paged(ram0) && Copied(ram0, ram, part, buf, data, toQueue)
    ensures Paged(ram) && ram.Keys == ram0.Keys && |part| == |buf| == |data|
  {
  }

  /** One memcpy of the copy loop */
  method CopyStretch(ram: Ram, a: nat, buf: seq<Byte>, toQueue: bool) returns (ram': Ram, data: seq<Byte>)
    requires Paged(ram)
    ensures Copied(ram, ram', Addrs(a, |buf|), buf, data, toQueue)
  {
    hide AllIn, InRam, ByteAt, Addrs, Store, Load, Reached;
    ghost var part, m := Addrs(a, |buf|), Reached(ram, Addrs(a, |buf|));
    AddrsParts(a, m, |buf| - m);
    ReachedAll(ram, part);
    assert part[..m] == Addrs(a, m);
    var ok;
    if toQueue {
      ok, ram' := MemcpyToRam(ram, a, buf);
      data := buf;
      StoredPrefix(ram, part, buf, m);
    } else {
      ok, data := MemcpyFromRam(ram, a, buf);
      ram' := ram;
    }
    if m == |buf| { assert buf[..m] == buf && buf[m..] == [] && part[..m] == part; }
  }

  /** The descriptor where `offset` falls: its place in the chain, and the offset in its buffer. */
  ghost predicate Found(table: seq<Desc>, path: seq<nat>, k: nat, write: bool, bytes: seq<nat>, prefix: seq<nat>)
  {
    IsChain(table, path) && k < |path| && bytes == prefix + Leading(Rest(table, path, k), write)
  }

  lemma FoundNext(table: seq<Desc>, path: seq<nat>, k: nat, write: bool, bytes: seq<nat>, prefix: seq<nat>)
    requires Found(table, path, k, write, bytes, prefix)
    ensures k < |path| && path[k] < |table| && (k + 1 < |path| ==> path[k + 1] < |table|)
    ensures table[path[k]].next.Some? <==> k + 1 < |path|
    ensures k + 1 < |path| ==> table[path[k]].next == Some(path[k + 1])
    ensures table[path[k]].write != write ==> bytes == prefix
    ensures var d := table[path[k]]; d.write == write ==>
              (exists tail :: bytes == prefix + (Addrs(d.addr, d.len) + tail)) &&
              (k + 1 == |path| ==> bytes == prefix + Addrs(d.addr, d.len)) &&
              (k + 1 < |path| ==> Found(table, path, k + 1, write, bytes, prefix + Addrs(d.addr, d.len)))
  {
    hide IsChain, Descs, Rest, Leading, Addrs;
    RestNext(table, path, k);
    var d, rest := table[path[k]], Rest(table, path, k);
    LeadingIs(rest, write);
    if d.write == write {
      Skipped(prefix, Addrs(d.addr, d.len), Leading(rest[1..], write));
      assert bytes == prefix + (Addrs(d.addr, d.len) + Leading(rest[1..], write));
      NothingLeads(write);
    }
  }

  lemma LeadingIs(ds: seq<Desc>, write: bool)
    requires ds != []
    ensures Leading(ds, write) == if ds[0].write != write then [] else Addrs(ds[0].addr, ds[0].len) + Leading(ds[1..], write)
  {
  }

  /** The first loop for a copy to the queue: the first writable descriptor. */
  method FindWritable(table: seq<Desc>, first: nat, ghost path: seq<nat>, ghost bytes: seq<nat>)
    returns (at: Option<nat>, ghost k: nat)
    requires IsChain(table, path) && path != [] && first == path[0] && bytes == Bytes(Descs(table, path), true)
    ensures at.None? ==> bytes == []
    ensures at.Some? ==> k < |path| && Found(table, path, k, true, bytes, []) && at.value == path[k]
  {
    hide IsChain, Descs, Rest, Leading, FromWritable;
    ChainStarts(table, path);
    RestNext(table, path, 0);
    var idx := first;
    k := 0;
    while !table[idx].write
      invariant k < |path| && path[k] < |table| && idx == path[k]
      invariant bytes == Leading(FromWritable(Rest(table, path, k)), true)
      decreases |path| - k
    {
      FirstWritable(Rest(table, path, k));
      RestNext(table, path, k);
      if table[idx].next.None? {
        NothingLeads(true);
        return None, k;
      }
      idx := table[idx].next.value;
      k := k + 1;
    }
    FirstWritable(Rest(table, path, k));
    RestNext(table, path, k);
    return Some(idx), k;
  }

  /** memcpy_to_from_queue, for a chain without cycles.  It copies as many of the bytes asked for as
      the chain has, and succeeds when that is all of them, whether or not they are RAM. */
  method MemcpyQueue(table: seq<Desc>, first: nat, ghost path: seq<nat>, ram: Ram, buf: seq<Byte>,
                     offset: nat, toQueue: bool) returns (ok: bool, ram': Ram, data: seq<Byte>)
    requires IsChain(table, path) && path != [] && first == path[0] && Paged(ram)
    ensures ok <==> buf == [] || offset + |buf| <= |Bytes(Descs(table, path), toQueue)|
    ensures var part := Part(Bytes(Descs(table, path), toQueue), offset, |buf|);
            && |data| == |buf| && data[|part|..] == buf[|part|..]
            && Copied(ram, ram', part, buf[..|part|], data[..|part|], toQueue)
  {
    hide IsChain, Descs, Rest, Leading, FromWritable, AllIn, InRam, Addrs, Store, Load, Found, Bytes, OnlyAt;
    ghost var bytes := Bytes(Descs(table, path), toQueue);
    BytesIs(table, path);
    ChainStarts(table, path);
    NothingCopied(ram, toQueue);
    ram', data := ram, buf;
    if |buf| == 0 {
      EmptyPart(bytes, offset);
      return true, ram', data;
    }
    var idx := first;
    ghost var k: nat := 0;
    if toQueue {
      var at;
      at, k := FindWritable(table, first, path, bytes);
      if at.None? { return false, ram', data; }
      idx := at.value;
    }
    var at, o, k1, prefix := FindOffset(table, idx, path, k, toQueue, offset, bytes);
    if at.None? {
      PartBeyond(bytes, offset, |buf|);
      return false, ram', data;
    }
    ok, ram', data := CopyFrom(table, at.value, path, k1, ram, buf, o, toQueue, offset, bytes, prefix);
  }

  lemma PartBeyond(bytes: seq<nat>, offset: nat, count: nat)
    requires offset >= |bytes|
    ensures Part(bytes, offset, count) == []
  {
  }

  /** The second loop: the descriptor at `offset`, and the offset in its buffer. */
  method FindOffset(table: seq<Desc>, first: nat, ghost path: seq<nat>, ghost k0: nat, toQueue: bool, offset: nat,
                    ghost bytes: seq<nat>)
    returns (at: Option<nat>, o: nat, ghost k: nat, ghost prefix: seq<nat>)
    requires Found(table, path, k0, toQueue, bytes, []) && k0 < |path| && first == path[k0]
    ensures at.None? ==> offset >= |bytes|
    ensures at.Some? ==> Found(table, path, k, toQueue, bytes, prefix) && k < |path| && at.value == path[k] < |table|
    ensures at.Some? ==> table[at.value].write == toQueue && o < table[at.value].len && |prefix| + o == offset
  {
    hide Found, Addrs;
    var idx := first;
    k, prefix, o := k0, [], offset;
    FoundNext(table, path, k, toQueue, bytes, prefix);
    while true
      invariant Found(table, path, k, toQueue, bytes, prefix) && k < |path| && idx == path[k] && idx < |table|
      invariant |prefix| + o == offset
      decreases |path| - k
    {
      FoundNext(table, path, k, toQueue, bytes, prefix);
      if table[idx].write != toQueue { return None, o, k, prefix; }
      if o < table[idx].len { return Some(idx), o, k, prefix; }
      if table[idx].next.None? { return None, o, k, prefix; }
      prefix := prefix + Addrs(table[idx].addr, table[idx].len);
      o := o - table[idx].len;
      idx := table[idx].next.value;
      k := k + 1;
    }
  }

  /** The third loop: copy buffer after buffer. */
  method CopyFrom(table: seq<Desc>, first: nat, ghost path: seq<nat>, ghost k0: nat, ram: Ram, buf: seq<Byte>,
                  o0: nat, toQueue: bool, ghost offset: nat, ghost bytes: seq<nat>, ghost prefix0: seq<nat>)
    returns (ok: bool, ram': Ram, data: seq<Byte>)
    requires Found(table, path, k0, toQueue, bytes, prefix0) && k0 < |path| && first == path[k0] < |table|
    requires table[first].write == toQueue && o0 < table[first].len && |prefix0| + o0 == offset
    requires |buf| > 0 && Paged(ram)
    ensures ok <==> offset + |buf| <= |bytes|
    ensures var part := Part(bytes, offset, |buf|);
            && |data| == |buf| && data[|part|..] == buf[|part|..]
            && Copied(ram, ram', part, buf[..|part|], data[..|part|], toQueue)
  {
    hide Found, Addrs, Copied;
    NothingCopied(ram, toQueue);
    ram', data := ram, [];
    var idx := first;
    var o: nat, m: nat := o0, 0;
    ghost var k, prefix := k0, prefix0;
    OffsetInside(table, path, k, toQueue, bytes, prefix, o);
    assert bytes[offset..offset + 0] == [];
    while true
      invariant Found(table, path, k, toQueue, bytes, prefix) && k < |path| && idx == path[k] && idx < |table|
      invariant table[idx].write == toQueue && o <= table[idx].len && |prefix| + o == offset + m && m < |buf|
      invariant offset + m <= |bytes| && offset < |bytes| && |data| == m
      invariant Copied(ram, ram', bytes[offset..offset + m], buf[..m], data, toQueue)
      decreases |path| - k, |buf| - m
    {
      NextHere(table, path, k, toQueue, bytes, prefix);
      var d := table[idx];
      var l := if |buf| - m < d.len - o then |buf| - m else d.len - o;
      StretchHere(table, path, k, toQueue, bytes, prefix, o, l);
      CopiedKeys(ram, ram', bytes[offset..offset + m], buf[..m], data, toQueue);
      ghost var r := ram';
      var more;
      ram', more := CopyStretch(ram', d.addr + o, buf[m..m + l], toQueue);
      CopiedMore(ram, r, ram', bytes[offset..offset + m], bytes[offset + m..offset + m + l],
                 buf[..m], buf[m..m + l], data, more, toQueue);
      assert bytes[offset..offset + m] + bytes[offset + m..offset + m + l] == bytes[offset..offset + m + l];
      assert buf[..m] + buf[m..m + l] == buf[..m + l];
      data := data + more;
      m := m + l;
      o := o + l;
      CopiedKeys(ram, ram', bytes[offset..offset + m], buf[..m], data, toQueue);
      PartIs(bytes, offset, |buf|, m);
      assert (data + buf[m..])[..m] == data && (data + buf[m..])[m..] == buf[m..];
      if m == |buf| { return true, ram', data + buf[m..]; }
      if o == d.len {
        if d.next.None? { return false, ram', data + buf[m..]; }
        prefix := prefix + Addrs(d.addr, d.len);
        idx := d.next.value;
        k := k + 1;
        if table[idx].write != toQueue { return false, ram', data + buf[m..]; }
        o := 0;
      }
    }
  }

  lemma StretchHere(table: seq<Desc>, path: seq<nat>, k: nat, write: bool, bytes: seq<nat>, prefix: seq<nat>, o: nat, l: nat)
    requires Found(table, path, k, write, bytes, prefix) && k < |path| && path[k] < |table|
    requires table[path[k]].write == write && o + l <= table[path[k]].len
    ensures |prefix| + o + l <= |bytes|
    ensures bytes[|prefix| + o..|prefix| + o + l] == Addrs(table[path[k]].addr + o, l)
  {
    hide Found, Addrs;
    FoundNext(table, path, k, write, bytes, prefix);
    var d := table[path[k]];
    var tail :| bytes == prefix + (Addrs(d.addr, d.len) + tail);
    BufferSlice(bytes, prefix, d.addr, d.len, tail, o, l);
  }

  /** What FoundNext says of the links. */
  lemma NextHere(table: seq<Desc>, path: seq<nat>, k: nat, write: bool, bytes: seq<nat>, prefix: seq<nat>)
    requires Found(table, path, k, write, bytes, prefix) && k < |path| && path[k] < |table| && table[path[k]].write == write
    ensures var d := table[path[k]];
            if d.next.None? then |bytes| == |prefix| + d.len
            else k + 1 < |path| && d.next.value == path[k + 1] < |table| &&
                 Found(table, path, k + 1, write, bytes, prefix + Addrs(d.addr, d.len)) &&
                 (table[path[k + 1]].write != write ==> |bytes| == |prefix| + d.len)
  {
    hide Found, Addrs;
    FoundNext(table, path, k, write, bytes, prefix);
    var d := table[path[k]];
    if d.next.Some? { FoundNext(table, path, k + 1, write, bytes, prefix + Addrs(d.addr, d.len)); }
  }

  lemma OffsetInside(table: seq<Desc>, path: seq<nat>, k: nat, write: bool, bytes: seq<nat>, prefix: seq<nat>, o: nat)
    requires Found(table, path, k, write, bytes, prefix) && k < |path| && path[k] < |table|
    requires table[path[k]].write == write && o < table[path[k]].len
    ensures |prefix| + o < |bytes|
  {
    hide Found, Addrs;
    FoundNext(table, path, k, write, bytes, prefix);
  }

  lemma PartIs(bytes: seq<nat>, offset: nat, count: nat, m: nat)
    requires offset < |bytes| && offset + m <= |bytes| && m <= count && (m == count || offset + m <= |bytes|)
    ensures m == count || offset + m == |bytes| ==> Part(bytes, offset, count) == bytes[offset..offset + m]
  {
  }

  lemma BytesIs(table: seq<Desc>, path: seq<nat>)
    requires IsChain(table, path)
    ensures Found(table, path, 0, false, Bytes(Descs(table, path), false), [])
  {
    hide Leading, FromWritable;
    RestNext(table, path, 0);
    assert [] + Leading(Rest(table, path, 0), false) == Leading(Rest(table, path, 0), false);
  }

  lemma EmptyPart(bytes: seq<nat>, offset: nat)
    ensures Part(bytes, offset, 0) == []
  {
  }
}
