/** SHA256_Init, SHA256_Update and SHA256_Final: chunks of any sizes hash like their
    concatenation. */
module Sha256Stream {
  import opened ByteStreams
  import opened Sha256Logic
  import opened Sha256
  import Arith

  const LIMIT := 0x1_0000_0000_0000_0000

  /** One more block at the end. */
  lemma {:induction false} HashBlocksSnoc(h: seq<Word>, m: seq<Byte>, b: seq<Byte>)
    requires |h| == 8 && |m| % BLOCK == 0 && |b| == BLOCK
    ensures HashBlocks(h, m + b) == Compressed(HashBlocks(h, m), b)
    decreases |m|
  {
    hide Compressed;
    if m == [] {
      assert m + b == b && b[..BLOCK] == b && b[BLOCK..] == [];
      assert HashBlocks(Compressed(h, b), []) == Compressed(h, b);
    } else {
      assert (m + b)[..BLOCK] == m[..BLOCK] && (m + b)[BLOCK..] == m[BLOCK..] + b;
      HashBlocksSnoc(Compressed(h, m[..BLOCK]), m[BLOCK..], b);
    }
  }

  class Context {
    const state: array<Word>
    const buf: array<Byte>
    var curlen: nat
    var length: nat
    const unrolled: bool

    /** What has been hashed so far. */
    ghost var stream: seq<Byte>

    ghost predicate Sized() {
      state.Length == 8 && buf.Length == BLOCK
    }

    /** The hash value stands for all whole blocks, the buffer for the rest. */
    ghost predicate Holds(m: seq<Byte>)
      reads this, state, buf
    {
      Sized() && curlen <= |m| && curlen < BLOCK && length == 8 * (|m| - curlen) && (|m| - curlen) % BLOCK == 0 &&
      state[..] == HashBlocks(INITIAL, m[..|m| - curlen]) && buf[..curlen] == m[|m| - curlen..]
    }

    ghost predicate Valid()
      reads this, state, buf
    {
      Holds(stream)
    }

    /** SHA256_Init; `unrolled` says which form of the compression function is compiled in. */
    constructor (u: bool)
      ensures Valid() && stream == [] && fresh(state) && fresh(buf)
    {
      unrolled := u;
      curlen, length, stream := 0, 0, [];
      state := new Word[8];
      buf := new Byte[BLOCK](i => 0);
      new;
      state[0], state[1], state[2], state[3] := 0x6A09E667, 0xBB67AE85, 0x3C6EF372, 0xA54FF53A;
      state[4], state[5], state[6], state[7] := 0x510E527F, 0x9B05688C, 0x1F83D9AB, 0x5BE0CD19;
      assert state[..] == INITIAL;
    }

    /** A whole block when nothing is buffered. */
    method TakeBlock(block: seq<Byte>)
      requires Valid() && curlen == 0 && |block| == BLOCK
      modifies this`length, this`stream, state
      ensures Valid() && curlen == 0 && stream == old(stream) + block
    {
      hide HashBlocks, Compressed;
      HashBlocksSnoc(INITIAL, stream, block);
      assert stream[..|stream|] == stream;
      Compress(state, block, unrolled);
      length := length + 64 * 8;
      stream := stream + block;
      assert stream[..|stream|] == stream;
    }

    /** memcpy to the buffer */
    method Buffer(data: seq<Byte>)
      requires Sized() && curlen + |data| <= BLOCK
      modifies this`curlen, buf
      ensures curlen == old(curlen) + |data| && buf[..curlen] == old(buf[..curlen]) + data
    {
      var i := 0;
      while i < |data|
        invariant 0 <= i <= |data| && curlen == old(curlen)
        invariant buf[..curlen] == old(buf[..curlen]) && buf[curlen..curlen + i] == data[..i]
      {
        buf[curlen + i] := data[i];
        i := i + 1;
      }
      assert buf[..curlen + |data|] == buf[..curlen] + buf[curlen..curlen + |data|];
      curlen := curlen + |data|;
    }

    /** Bytes that fit into the buffer; a full buffer is compressed. */
    method TakePart(data: seq<Byte>)
      requires Valid() && curlen + |data| <= BLOCK
      modifies this`curlen, this`length, this`stream, state, buf
      ensures Valid() && stream == old(stream) + data
    {
      hide HashBlocks, Compressed;
      ghost var done := stream[..|stream| - curlen];
      ghost var held := buf[..curlen];
      assert stream == done + held;
      Buffer(data);
      stream := stream + data;
      assert stream == done + (held + data);
      if curlen == BLOCK {
        assert buf[..] == held + data;
        HashBlocksSnoc(INITIAL, done, held + data);
        Compress(state, buf[..], unrolled);
        length := length + 8 * 64;
        curlen := 0;
        assert stream[..|stream|] == stream;
      } else {
        assert stream[..|stream| - curlen] == done;
      }
    }

    /** SHA256_Update */
    method Update(data: seq<Byte>)
      requires Valid() && |data| < 0x8000_0000 && 8 * (|stream| + |data|) < LIMIT
      modifies this`curlen, this`length, this`stream, state, buf
      ensures Valid() && stream == old(stream) + data
    {
      hide HashBlocks;
      var i: nat := 0;
      while i < |data|
        invariant i <= |data| && Valid() && stream == old(stream) + data[..i]
        decreases |data| - i
      {
        if curlen == 0 && |data| - i >= 64 {
          assert data[..i + 64] == data[..i] + data[i..i + 64];
          TakeBlock(data[i..i + 64]);
          i := i + 64;
        } else {
          var n := if |data| - i < 64 - curlen then |data| - i else 64 - curlen;
          assert data[..i + n] == data[..i] + data[i..i + n];
          TakePart(data[i..i + n]);
          i := i + n;
        }
      }
      assert data[..i] == data;
    }

    /** Zero bytes up to a position in the buffer */
    method ZeroFill(to: nat)
      requires Sized() && curlen <= to <= BLOCK
      modifies this`curlen, buf
      ensures curlen == to && buf[..curlen] == old(buf[..curlen]) + Zeros(to - old(curlen))
    {
      ghost var from := curlen;
      while curlen < to
        invariant from <= curlen <= to && buf[..from] == old(buf[..curlen])
        invariant forall k :: from <= k < curlen ==> buf[k] == 0
      {
        buf[curlen] := 0;
        curlen := curlen + 1;
      }
      assert buf[..curlen] == buf[..from] + buf[from..curlen];
      assert buf[from..curlen] == Zeros(to - from);
    }

    /** The big-endian length in the last eight bytes */
    method StoreLength(n: nat)
      requires Sized()
      modifies buf
      ensures buf[..] == old(buf[..56]) + Length64(n)
    {
      var b := Length64(n);
      var i := 0;
      while i < 8
        invariant 0 <= i <= 8 && buf[..56] == old(buf[..56]) && buf[56..56 + i] == b[..i]
      {
        buf[56 + i] := b[i];
        i := i + 1;
      }
      assert buf[..] == buf[..56] + buf[56..64];
      assert b[..8] == b;
    }

    /** SHA256_Final */
    method Final() returns (digest: seq<Byte>)
      requires Valid() && 8 * |stream| < LIMIT
      modifies this`curlen, this`length, state, buf
      ensures digest == Hash(stream)
    {
      hide HashBlocks, Compressed, Digest, Padded, Hash, Length64, PadZeros, Zeros, LowByte, ByteOf;
      ghost var n, done, held := curlen, stream[..|stream| - curlen], buf[..curlen];
      PaddedParts(stream, n, done, held);
      length := length + curlen * 8;
      buf[curlen] := 0x80;
      curlen := curlen + 1;
      assert buf[..curlen] == held + [0x80];
      if curlen > 56 {
        ZeroFill(64);
        ghost var block := held + [0x80] + Zeros(63 - n);
        assert buf[..] == block;
        HashBlocksSnoc(INITIAL, done, block);
        Compress(state, buf[..], unrolled);
        curlen := 0;
        assert buf[..curlen] == [];
        done := done + block;
        held := [];
      }
      ghost var before := buf[..curlen];
      ZeroFill(56);
      StoreLength(length);
      ghost var last := before + Zeros(56 - |before|) + Length64(8 * |stream|);
      assert length == 8 * |stream|;
      assert buf[..] == last;
      assert Padded(stream) == done + last by {
        if n < 56 { assert before == held + [0x80]; } else { assert last == Zeros(56) + Length64(8 * |stream|); }
      }
      HashBlocksSnoc(INITIAL, done, last);
      Compress(state, buf[..], unrolled);
      digest := Output();
      HashIs(stream);
    }

    /** STORE32H on every word of the hash value */
    method Output() returns (digest: seq<Byte>)
      requires Sized()
      ensures digest == Digest(state[..])
    {
      digest := [];
      var i := 0;
      while i < 8
        invariant 0 <= i <= 8 && digest == Digest(state[..i])
      {
        DigestSnoc(state[..i], state[i]);
        assert state[..i + 1] == state[..i] + [state[i]];
        digest := digest + WordBytes(state[i]);
        i := i + 1;
      }
      assert state[..8] == state[..];
    }
  }

  lemma {:induction false} DigestSnoc(h: seq<Word>, w: Word)
    ensures Digest(h + [w]) == Digest(h) + WordBytes(w)
    decreases |h|
  {
    hide WordBytes;
    if h == [] {
      assert h + [w] == [w] && [w][1..] == [];
    } else {
      assert (h + [w])[0] == h[0] && (h + [w])[1..] == h[1..] + [w];
      DigestSnoc(h[1..], w);
    }
  }

  lemma HashIs(m: seq<Byte>)
    ensures Hash(m) == Digest(HashBlocks(INITIAL, Padded(m)))
  {
  }

  /** The padded message in whole blocks: those hashed already, and one or two more. */
  lemma PaddedParts(m: seq<Byte>, n: nat, done: seq<Byte>, held: seq<Byte>)
    requires n < BLOCK && n <= |m| && (|m| - n) % BLOCK == 0 && done == m[..|m| - n] && held == m[|m| - n..]
    ensures n < 56 ==> Padded(m) == done + (held + [0x80] + Zeros(55 - n) + Length64(8 * |m|))
    ensures n >= 56 ==> Padded(m) == (done + (held + [0x80] + Zeros(63 - n))) + (Zeros(56) + Length64(8 * |m|))
  {
    hide Length64;
    assert m == done + held;
    Arith.DivUnique(|m|, BLOCK, (|m| - n) / BLOCK, n);
    if n < 56 {
      assert PadZeros(|m|) == 55 - n;
    } else {
      assert PadZeros(|m|) == 119 - n;
      assert Zeros(119 - n) == Zeros(63 - n) + Zeros(56);
    }
  }

  /** Any list of SHA256_Update calls, with either form of the compression function, gives the
      hash of the concatenation. */
  method HashChunks(chunks: seq<seq<Byte>>, unrolled: bool) returns (digest: seq<Byte>)
    requires forall i :: 0 <= i < |chunks| ==> |chunks[i]| < 0x8000_0000
    requires 8 * |Concat(chunks)| < LIMIT
    ensures digest == Hash(Concat(chunks))
  {
    hide Hash;
    var s := new Context(unrolled);
    var i := 0;
    while i < |chunks|
      invariant 0 <= i <= |chunks| && s.Valid() && s.stream == Concat(chunks[..i])
      invariant fresh(s) && fresh(s.state) && fresh(s.buf)
    {
      ConcatSnoc(chunks, i);
      ConcatPrefix(chunks, i + 1);
      s.Update(chunks[i]);
      i := i + 1;
    }
    assert chunks[..i] == chunks;
    digest := s.Final();
  }
}
