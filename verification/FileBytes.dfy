/** Files as byte sequences: what fs_read, fs_write and fs_truncate of fs_net.c mean, and the
    growable buffer (FileBuffer) that has to behave like one. */
module FileBytes {
  type Byte = x: int | 0 <= x < 256

  function Zeros(n: nat): seq<Byte> { seq(n, _ => 0) }

  /** The file cut or zero-extended to size bytes. */
  function Resized(c: seq<Byte>, size: nat): seq<Byte> {
    if size <= |c| then c[..size] else c + Zeros(size - |c|)
  }

  /** The file with bytes written at an offset, zeros filling a gap before them. */
  function Written(c: seq<Byte>, offset: nat, bytes: seq<Byte>): seq<Byte> {
    var end := offset + |bytes|;
    var r := if end > |c| then Resized(c, end) else c;
    r[..offset] + bytes + r[end..]
  }

  /** The bytes a read at an offset delivers: fewer at the end of the file, none behind it. */
  function ReadBytes(c: seq<Byte>, offset: nat, count: nat): seq<Byte> {
    if offset >= |c| then [] else if offset + count <= |c| then c[offset..offset + count] else c[offset..]
  }

  /** As many bytes as were asked for, but none from the end of the file on, and they are the file's. */
  lemma ReadAt(c: seq<Byte>, offset: nat, count: nat)
    ensures |ReadBytes(c, offset, count)| == if offset >= |c| then 0 else if count < |c| - offset then count else |c| - offset
    ensures forall k :: 0 <= k < |ReadBytes(c, offset, count)| ==> ReadBytes(c, offset, count)[k] == c[offset + k]
  {
  }

  lemma WrittenAt(c: seq<Byte>, offset: nat, bytes: seq<Byte>, k: nat)
    requires k < |Written(c, offset, bytes)|
    ensures |Written(c, offset, bytes)| == if offset + |bytes| > |c| then offset + |bytes| else |c|
    ensures Written(c, offset, bytes)[k] ==
            if offset <= k < offset + |bytes| then bytes[k - offset] else if k < |c| then c[k] else 0
  {
  }

  lemma WrittenPoints(c: seq<Byte>, offset: nat, bytes: seq<Byte>)
    ensures var w := Written(c, offset, bytes);
            && |w| == (if offset + |bytes| > |c| then offset + |bytes| else |c|)
            && (forall k :: offset <= k < offset + |bytes| ==> w[k] == bytes[k - offset])
            && (forall k :: 0 <= k < |c| && !(offset <= k < offset + |bytes|) ==> w[k] == c[k])
            && (forall k :: |c| <= k < |w| && k < offset ==> w[k] == 0)
  {
  }

  /** A read of what was just written delivers it. */
  lemma ReadAfterWrite(c: seq<Byte>, offset: nat, bytes: seq<Byte>)
    ensures ReadBytes(Written(c, offset, bytes), offset, |bytes|) == bytes
  {
    hide Written;
    WrittenPoints(c, offset, bytes);
  }

  /** A read that meets no written byte delivers what it did before the write, as far as it
      reached then, and zeros in a gap the write left. */
  lemma ReadElsewhere(c: seq<Byte>, offset: nat, bytes: seq<Byte>, at: nat, count: nat)
    requires at + count <= offset || offset + |bytes| <= at
    ensures var r := ReadBytes(Written(c, offset, bytes), at, count);
            && ReadBytes(c, at, count) <= r
            && (forall k :: |ReadBytes(c, at, count)| <= k < |r| ==> r[k] == 0)
            && (offset + |bytes| <= at ==> r == ReadBytes(c, at, count))
            && (at + count <= offset && bytes != [] ==> |r| == count)
  {
    hide Written;
    WrittenPoints(c, offset, bytes);
  }

  // -----------------------------------------------------------------------------------------
  // The buffer
  // -----------------------------------------------------------------------------------------

  /** file_buffer_resize.  Nothing is promised of the bytes a larger buffer gains. */
  method BufferResize(data: seq<Byte>, size: nat) returns (r: seq<Byte>)
    ensures |r| == size
    ensures forall k :: 0 <= k < size && k < |data| ==> r[k] == data[k]
  {
    r := if size <= |data| then data[..size] else data + seq(size - |data|, _ => 255);
  }

  /** file_buffer_write */
  function BufferWrite(data: seq<Byte>, offset: nat, bytes: seq<Byte>): seq<Byte>
    requires offset + |bytes| <= |data|
  {
    data[..offset] + bytes + data[offset + |bytes|..]
  }

  /** The allocation fs_truncate asks for when a file of the given size, in a buffer of the given
      allocation, is resized: five quarters of it to grow, four fifths of it to shrink. */
  function Capacity(alloc: nat, size: nat, newSize: nat): nat {
    if newSize > size then
      if newSize <= alloc then alloc else if newSize > alloc * 5 / 4 then newSize else alloc * 5 / 4
    else
      if newSize <= alloc * 4 / 5 then alloc * 4 / 5 else alloc
  }

  /** The allocation always covers the size.  A buffer that has to grow grows by a quarter, and
      further only to what is asked for; it is cut by a fifth as soon as that leaves enough. */
  lemma CapacityCovers(alloc: nat, size: nat, newSize: nat)
    requires size <= alloc
    ensures var a := Capacity(alloc, size, newSize);
            && newSize <= a
            && (size < newSize <= alloc ==> a == alloc)
            && (alloc < newSize ==> 4 * a > 5 * alloc - 4 && (a == newSize || 4 * a <= 5 * alloc))
            && (newSize <= size ==> if 5 * newSize <= 4 * alloc then 4 * alloc - 5 < 5 * a <= 4 * alloc else a == alloc)
  {
  }

  /** Growing: the new part of the buffer is cleared, whatever was in it. */
  lemma GrownContent(data: seq<Byte>, size: nat, larger: seq<Byte>, newSize: nat)
    requires size <= |data| && size < newSize <= |larger|
    requires forall k :: 0 <= k < |larger| && k < |data| ==> larger[k] == data[k]
    ensures BufferWrite(larger, size, Zeros(newSize - size))[..newSize] == Resized(data[..size], newSize)
  {
  }

  lemma ShrunkContent(data: seq<Byte>, size: nat, smaller: seq<Byte>, newSize: nat)
    requires size <= |data| && newSize <= size && newSize <= |smaller|
    requires forall k :: 0 <= k < |smaller| && k < |data| ==> smaller[k] == data[k]
    ensures smaller[..newSize] == Resized(data[..size], newSize)
  {
  }

  /** Writing into the buffer is writing into the file once the file reaches the end of the
      write. */
  lemma WrittenContent(c: seq<Byte>, data: seq<Byte>, size: nat, offset: nat, bytes: seq<Byte>)
    requires bytes != [] && size <= |data| && offset + |bytes| <= size
    requires data[..size] == if offset + |bytes| > |c| then Resized(c, offset + |bytes|) else c
    ensures BufferWrite(data, offset, bytes)[..size] == Written(c, offset, bytes)
  {
    var w := BufferWrite(data, offset, bytes)[..size];
    var v := Written(c, offset, bytes);
    assert |w| == |v|;
    forall k | 0 <= k < |w| ensures w[k] == v[k] {
      WrittenAt(c, offset, bytes, k);
      assert data[..size][k] == data[k];
    }
  }
}
