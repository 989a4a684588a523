/** The streaming decryptor of fs_wget.c: encrypted files arrive in chunks of any size, and what
    is written does not depend on how they were cut. */
module DecryptFile {
  import opened ByteStreams
  import opened Cbc
  import opened Wrappers
  import Arith

  const MAGIC: seq<Byte>  // four bytes that encrypted files start with
    := [0xfb, 0xa2, 0xe9, 0x01]

  const HEADER := 4 + BLOCK
  const BUFFER := 256 * BLOCK

  predicate BadMagic(stream: seq<Byte>) {
    |stream| >= HEADER && stream[..4] != MAGIC
  }

  /** The last byte says how many bytes of padding there are, itself included. */
  function Unpadded(p: seq<Byte>): (r: Option<seq<Byte>>)
    requires p != []
  {
    var pad := p[|p| - 1] as int;
    if 1 <= pad <= BLOCK && pad <= |p| then Some(p[..|p| - pad]) else None
  }

  /** What a whole encrypted file decrypts to: magic number, initialization vector, then CBC
      blocks of which the last ends in padding. */
  ghost function Plain(d: Cipher, stream: seq<Byte>): Option<seq<Byte>>
    requires IsCipher(d)
  {
    if |stream| <= HEADER || (|stream| - HEADER) % BLOCK != 0 || BadMagic(stream) then None
    else Unpadded(Decrypted(d, stream[4..HEADER], stream[HEADER..]))
  }

  /** How much of n bytes of body is decrypted before the end is known: whole buffers but for
      their last block. */
  function Released(n: nat): (k: nat)
    ensures k % BLOCK == 0 && k <= n
    ensures k > 0 ==> n - k >= BLOCK
    ensures n - k < BUFFER
  {
    if n < BLOCK then 0 else (n - BLOCK) / (BUFFER - BLOCK) * (BUFFER - BLOCK)
  }

  lemma ReleasedIs(n: nat, k: nat)
    requires k % (BUFFER - BLOCK) == 0 && k <= n && n - k < BUFFER && (k > 0 ==> n - k >= BLOCK)
    ensures Released(n) == k
  {
  }

  /** Where a decryptor in the body of a file stands after `stream` has arrived. */
  ghost predicate InBody(d: Cipher, stream: seq<Byte>, written: seq<Byte>, iv: seq<Byte>, held: seq<Byte>)
    requires IsCipher(d)
  {
    |stream| >= HEADER && !BadMagic(stream) &&
    var body, iv0 := stream[HEADER..], stream[4..HEADER];
    var k := Released(|body|);
    written == Decrypted(d, iv0, body[..k]) && iv == Chained(iv0, body[..k]) && held == body[k..]
  }

  lemma BodyStarts(d: Cipher, stream: seq<Byte>)
    requires IsCipher(d) && |stream| == HEADER && !BadMagic(stream)
    ensures InBody(d, stream, [], stream[4..HEADER], [])
  {
    NothingDecrypted(d, stream[4..HEADER]);
  }

  /** The same, with the body and what is released of it named. */
  lemma InBodyIs(d: Cipher, stream: seq<Byte>, written: seq<Byte>, iv: seq<Byte>, held: seq<Byte>,
                 iv0: seq<Byte>, body: seq<Byte>, k: nat)
    requires IsCipher(d) && |stream| >= HEADER && iv0 == stream[4..HEADER] && body == stream[HEADER..] && k == Released(|body|)
    ensures InBody(d, stream, written, iv, held) <==>
            !BadMagic(stream) && written == Decrypted(d, iv0, body[..k]) && iv == Chained(iv0, body[..k]) && held == body[k..]
    ensures k <= |body| && k % BLOCK == 0 && |body| - k < BUFFER && (k > 0 ==> |body| - k >= BLOCK) && k % (BUFFER - BLOCK) == 0
  {
    hide IsCipher, Decrypted, Chained;
  }

  lemma StreamGrows(stream: seq<Byte>, data: seq<Byte>)
    requires |stream| >= HEADER
    ensures (stream + data)[HEADER..] == stream[HEADER..] + data
    ensures (stream + data)[4..HEADER] == stream[4..HEADER]
    ensures BadMagic(stream + data) == BadMagic(stream)
  {
    assert (stream + data)[..4] == stream[..4];
  }

  /** More body fits into the buffer. */
  lemma BodyHeld(d: Cipher, stream: seq<Byte>, written: seq<Byte>, iv: seq<Byte>, held: seq<Byte>, data: seq<Byte>)
    requires IsCipher(d) && |stream| >= HEADER && InBody(d, stream, written, iv, held) && |held| + |data| < BUFFER
    ensures InBody(d, stream + data, written, iv, held + data)
  {
    hide IsCipher, Decrypted, InBody, Released, Chained;
    var iv0, body := stream[4..HEADER], stream[HEADER..];
    var k := Released(|body|);
    StreamGrows(stream, data);
    InBodyIs(d, stream, written, iv, held, iv0, body, k);
    ReleasedIs(|body| + |data|, k);
    InBodyIs(d, stream + data, written, iv, held + data, iv0, body + data, k);
    assert (body + data)[..k] == body[..k] && (body + data)[k..] == held + data;
  }

  /** The buffer is full: all of it but the last block is decrypted. */
  lemma BodyReleased(d: Cipher, stream: seq<Byte>, written: seq<Byte>, iv: seq<Byte>, held: seq<Byte>, data: seq<Byte>,
                     full: seq<Byte>)
    requires IsCipher(d) && |stream| >= HEADER && InBody(d, stream, written, iv, held)
    requires |held| + |data| == BUFFER && |iv| == BLOCK && full == (held + data)[..BUFFER - BLOCK]
    ensures InBody(d, stream + data, written + Decrypted(d, iv, full), Chained(iv, full), (held + data)[BUFFER - BLOCK..])
  {
    hide IsCipher, Decrypted, InBody, Released, Chained;
    var iv0, body := stream[4..HEADER], stream[HEADER..];
    var k := Released(|body|);
    var k' := k + (BUFFER - BLOCK);
    StreamGrows(stream, data);
    InBodyIs(d, stream, written, iv, held, iv0, body, k);
    ReleasedIs(|body| + |data|, k');
    InBodyIs(d, stream + data, written + Decrypted(d, iv, full), Chained(iv, full), (held + data)[BUFFER - BLOCK..],
             iv0, body + data, k');
    FullParts(body, data, k, held);
    DecryptedParts(d, iv0, body[..k], full);
    ChainedParts(iv0, body[..k], full);
  }

  lemma FullParts(body: seq<Byte>, data: seq<Byte>, k: nat, held: seq<Byte>)
    requires k <= |body| && held == body[k..] && |held| + |data| == BUFFER
    ensures (body + data)[..k + (BUFFER - BLOCK)] == body[..k] + (held + data)[..BUFFER - BLOCK]
    ensures (body + data)[k + (BUFFER - BLOCK)..] == (held + data)[BUFFER - BLOCK..]
  {
    assert body + data == body[..k] + (held + data);
  }

  lemma ChainedParts(iv: seq<Byte>, a: seq<Byte>, b: seq<Byte>)
    requires |iv| == BLOCK && |a| % BLOCK == 0 && |b| % BLOCK == 0
    ensures Chained(iv, a + b) == Chained(Chained(iv, a), b)
  {
    if b == [] { assert a + b == a; }
  }

  /** The end of the file: what is held is decrypted, and the padding dropped. */
  lemma BodyEnds(d: Cipher, stream: seq<Byte>, written: seq<Byte>, iv: seq<Byte>, held: seq<Byte>)
    requires IsCipher(d) && |stream| >= HEADER && InBody(d, stream, written, iv, held) && |iv| == BLOCK
    ensures if held == [] || |held| % BLOCK != 0 then Plain(d, stream) == None
            else
              var p := Decrypted(d, iv, held);
              Plain(d, stream) == if Unpadded(p).Some? then Some(written + Unpadded(p).value) else None
  {
    hide IsCipher, Decrypted, InBody, Released, Chained, Unpadded, Plain;
    var iv0, body := stream[4..HEADER], stream[HEADER..];
    var k := Released(|body|);
    InBodyIs(d, stream, written, iv, held, iv0, body, k);
    WholeBlocks(body, held, k);
    PlainIs(d, stream, iv0, body);
    if held != [] && |held| % BLOCK == 0 {
      DecryptedParts(d, iv0, body[..k], held);
      UnpaddedTail(written, Decrypted(d, iv, held));
    }
  }

  lemma WholeBlocks(body: seq<Byte>, held: seq<Byte>, k: nat)
    requires k <= |body| && held == body[k..] && k % BLOCK == 0 && (k > 0 ==> held != [])
    ensures body == body[..k] + held && (body == [] <==> held == []) && |body| % BLOCK == |held| % BLOCK
  {
    Arith.DivUnique(|body|, BLOCK, k / BLOCK + |held| / BLOCK, |held| % BLOCK);
  }

  lemma PlainIs(d: Cipher, stream: seq<Byte>, iv0: seq<Byte>, body: seq<Byte>)
    requires IsCipher(d) && |stream| >= HEADER && !BadMagic(stream) && iv0 == stream[4..HEADER] && body == stream[HEADER..]
    ensures Plain(d, stream) == if body == [] || |body| % BLOCK != 0 then None else Unpadded(Decrypted(d, iv0, body))
  {
    hide IsCipher, Decrypted, Unpadded;
  }

  lemma UnpaddedTail(a: seq<Byte>, b: seq<Byte>)
    requires |b| >= BLOCK
    ensures Unpadded(a + b) == if Unpadded(b).Some? then Some(a + Unpadded(b).value) else None
  {
    var pad := b[|b| - 1] as int;
    if 1 <= pad <= BLOCK { assert (a + b)[..|a| + |b| - pad] == a + b[..|b| - pad]; }
  }

  // -----------------------------------------------------------------------------------------
  // Encrypted files
  // -----------------------------------------------------------------------------------------

  /** How many bytes of padding fill the last block, a whole one if it is full already */
  function PadLength(n: nat): (k: nat)
    ensures 1 <= k <= BLOCK && (n + k) % BLOCK == 0
  {
    BLOCK - n % BLOCK
  }

  /** Padding bytes all tell their number. */
  function WithPadding(m: seq<Byte>): (p: seq<Byte>)
    ensures |p| % BLOCK == 0 && p != []
  {
    m + seq(PadLength(|m|), _ => PadLength(|m|) as Byte)
  }

  /** The file that a message is encrypted to */
  ghost function EncryptedFile(e: Cipher, iv: seq<Byte>, m: seq<Byte>): seq<Byte>
    requires IsCipher(e) && |iv| == BLOCK
  {
    MAGIC + iv + Encrypted(e, iv, WithPadding(m))
  }

  /** What is dropped at the end: one to 16 bytes, as many as the last one of them tells. */
  lemma UnpaddedExactly(p: seq<Byte>, m: seq<Byte>)
    requires p != []
    ensures Unpadded(p) == Some(m) <==> m <= p && 1 <= |p| - |m| <= BLOCK && p[|p| - 1] as int == |p| - |m|
  {
    if m <= p { assert p[..|m|] == m; }
  }

  lemma PaddingDropped(m: seq<Byte>)
    ensures Unpadded(WithPadding(m)) == Some(m)
  {
    hide Unpadded, PadLength;
    UnpaddedExactly(WithPadding(m), m);
  }

  lemma FileParts(e: Cipher, iv: seq<Byte>, m: seq<Byte>)
    requires IsCipher(e) && |iv| == BLOCK
    ensures var f := EncryptedFile(e, iv, m);
            && |f| > HEADER && !BadMagic(f) && f[4..HEADER] == iv && f[HEADER..] == Encrypted(e, iv, WithPadding(m))
  {
    hide Encrypted, IsCipher, WithPadding;
    var f := EncryptedFile(e, iv, m);
    assert f[..4] == MAGIC;
  }

  /** An encrypted file decrypts to the message. */
  lemma FileRoundTrip(e: Cipher, d: Cipher, iv: seq<Byte>, m: seq<Byte>)
    requires IsCipher(e) && IsCipher(d) && Inverts(d, e) && |iv| == BLOCK
    ensures Plain(d, EncryptedFile(e, iv, m)) == Some(m)
  {
    hide Encrypted, Decrypted, IsCipher, Inverts, WithPadding, EncryptedFile, Unpadded, Plain, BadMagic;
    var f := EncryptedFile(e, iv, m);
    FileParts(e, iv, m);
    PlainIs(d, f, iv, f[HEADER..]);
    RoundTrip(e, d, iv, WithPadding(m));
    PaddingDropped(m);
  }

  class Decryptor {
    const d: Cipher
    var inBody: bool
    var pos: nat
    const iv: array<Byte>
    const buf: array<Byte>

    /** Everything passed to write_cb so far, and everything received. */
    var written: seq<Byte>
    ghost var stream: seq<Byte>

    ghost predicate Sized() {
      IsCipher(d) && iv.Length == BLOCK && buf.Length == BUFFER && iv != buf
    }

    ghost predicate Valid()
      reads this, iv, buf
    {
      Sized() && pos < BUFFER &&
      if inBody then InBody(d, stream, written, iv[..], buf[..][..pos])
      else written == [] && pos == |stream| < HEADER && buf[..][..pos] == stream
    }

    /** decrypt_file_init */
    constructor (cipher: Cipher)
      requires IsCipher(cipher)
      ensures Valid() && stream == [] && d == cipher && fresh(iv) && fresh(buf)
    {
      d := cipher;
      inBody, pos, written, stream := false, 0, [], [];
      iv := new Byte[BLOCK](i => 0);
      buf := new Byte[BUFFER](i => 0);
    }

    /** memcpy to the free part of the buffer */
    method Copy(data: seq<Byte>)
      requires buf.Length == BUFFER && pos + |data| <= BUFFER
      modifies this`pos, buf
      ensures pos == old(pos) + |data|
      ensures buf[..][..pos] == old(buf[..])[..old(pos)] + data
    {
      var i := 0;
      while i < |data|
        invariant 0 <= i <= |data| && pos == old(pos)
        invariant buf[..pos] == old(buf[..pos]) && buf[pos..pos + i] == data[..i]
      {
        buf[pos + i] := data[i];
        i := i + 1;
      }
      assert buf[..pos + |data|] == buf[..pos] + buf[pos..pos + |data|];
      pos := pos + |data|;
    }

    /** The next l bytes of the header. */
    method TakeHeader(data: seq<Byte>) returns (ok: bool)
      requires Valid() && !inBody && pos + |data| <= HEADER
      modifies this`inBody, this`pos, this`stream, iv, buf
      ensures stream == old(stream) + data && ok == !BadMagic(stream) && (ok ==> Valid())
    {
      hide InBody, Decrypted, Chained, IsCipher;
      Copy(data);
      stream := stream + data;
      ok := true;
      if pos >= HEADER {
        ok := HasMagic();
        if ok { StartBody(); }
      }
    }

    /** The test of the magic number */
    method HasMagic() returns (ok: bool)
      requires buf.Length == BUFFER && |stream| == HEADER && buf[..][..HEADER] == stream
      ensures ok == !BadMagic(stream)
    {
      assert buf[..4] == buf[..][..HEADER][..4];
      ok := buf[..4] == MAGIC;
    }

    /** The header is complete: its initialization vector is copied, and the body starts. */
    method StartBody()
      requires Sized() && |stream| == HEADER && buf[..][..HEADER] == stream && written == [] && !BadMagic(stream)
      modifies this`inBody, this`pos, iv
      ensures Valid() && inBody
    {
      hide InBody, Decrypted, Chained, IsCipher;
      CopyIv();
      inBody := true;
      pos := 0;
      BodyStarts(d, stream);
      assert buf[..][..pos] == [];
    }

    /** memcpy of the initialization vector */
    method CopyIv()
      requires Sized() && |stream| == HEADER && buf[..][..HEADER] == stream
      modifies iv
      ensures iv[..] == stream[4..HEADER]
    {
      hide IsCipher;
      var i := 0;
      while i < BLOCK
        invariant 0 <= i <= BLOCK && buf[..][..HEADER] == stream
        invariant forall k :: 0 <= k < i ==> iv[k] == stream[4 + k]
      {
        assert buf[..][..HEADER][4 + i] == buf[4 + i];
        iv[i] := buf[4 + i];
        i := i + 1;
      }
    }

    /** The next bytes of the body, at most as many as the buffer has room for. */
    method TakeBody(data: seq<Byte>)
      requires Valid() && inBody && pos + |data| <= BUFFER
      modifies this`pos, this`written, this`stream, iv, buf
      ensures Valid() && stream == old(stream) + data
    {
      hide IsCipher, InBody, Decrypted, Chained;
      BodySized();
      ghost var held := buf[..][..pos];
      ghost var all := held + data;
      Copy(data);
      stream := stream + data;
      if pos >= BUFFER {
        assert buf[..] == all;
        BodyReleased(d, old(stream), written, iv[..], held, data, all[..BUFFER - BLOCK]);
        DecryptInPlace(d, buf, BUFFER - BLOCK, iv);
        written := written + buf[..][..BUFFER - BLOCK];
        KeepLastBlock();
      } else {
        BodyHeld(d, old(stream), written, iv[..], held, data);
      }
    }

    lemma BodySized()
      requires Valid() && inBody
      ensures |stream| >= HEADER
    {
    }

    /** memcpy of the buffer's last block to its start */
    method KeepLastBlock()
      requires buf.Length == BUFFER
      modifies this`pos, buf
      ensures pos == BLOCK && buf[..][..pos] == old(buf[..])[BUFFER - BLOCK..]
    {
      var i := 0;
      while i < BLOCK
        invariant 0 <= i <= BLOCK && forall k :: 0 <= k < i ==> buf[k] == old(buf[BUFFER - BLOCK + k])
        invariant forall k :: BUFFER - BLOCK <= k < BUFFER ==> buf[k] == old(buf[k])
      {
        buf[i] := buf[BUFFER - BLOCK + i];
        i := i + 1;
      }
      pos := BLOCK;
    }

    /** decrypt_file.  It fails exactly when a complete header has the wrong magic number. */
    method Feed(data: seq<Byte>) returns (ok: bool)
      requires Valid()
      modifies this`inBody, this`pos, this`written, this`stream, iv, buf
      ensures ok ==> Valid() && stream == old(stream) + data
      ensures ok == !BadMagic(old(stream) + data)
    {
      var i: nat := 0;
      while i < |data|
        invariant i <= |data| && Valid() && stream == old(stream) + data[..i]
        decreases |data| - i
      {
        GoodSoFar();
        var room := if inBody then BUFFER - pos else HEADER - pos;
        var l := if |data| - i < room then |data| - i else room;
        assert data[..i + l] == data[..i] + data[i..i + l];
        ghost var whole := old(stream) + data;
        ghost var next := stream + data[i..i + l];
        assert next == old(stream) + data[..i + l];
        assert |next| >= HEADER ==> whole[..4] == next[..4];
        if inBody {
          TakeBody(data[i..i + l]);
        } else {
          var good := TakeHeader(data[i..i + l]);
          if !good { return false; }
        }
        i := i + l;
      }
      assert data[..i] == data;
      GoodSoFar();
      ok := true;
    }

    lemma GoodSoFar()
      requires Valid()
      ensures !BadMagic(stream) && pos < BUFFER && (!inBody ==> pos < HEADER)
    {
      hide IsCipher, Decrypted;
    }

    /** decrypt_file_flush.  Together with what was written before, the whole file is decrypted. */
    method Flush() returns (ok: bool)
      requires Valid()
      modifies this`written, iv, buf
      ensures ok == Plain(d, stream).Some?
      ensures ok ==> written == Plain(d, stream).value
    {
      hide IsCipher, InBody, Decrypted, Chained;
      if !inBody { return false; }
      BodySized();
      var len := pos;
      BodyEnds(d, stream, written, iv[..], buf[..][..pos]);
      if len == 0 || len % BLOCK != 0 { return false; }
      ghost var held := buf[..][..pos];
      DecryptInPlace(d, buf, len, iv);
      var padLen := buf[pos - 1] as int;
      assert buf[pos - 1] == buf[..][..len][len - 1];
      if padLen < 1 || padLen > BLOCK { return false; }
      len := len - padLen;
      assert buf[..len] == buf[..][..pos][..len];
      if len != 0 { written := written + buf[..len]; }
      ok := true;
    }
  }

  /** However a stream is cut into chunks, the output is that of the one-shot definition.  If the
      stream is an encrypted file, that is the message. */
  method DecryptChunks(d: Cipher, chunks: seq<seq<Byte>>) returns (r: Option<seq<Byte>>)
    requires IsCipher(d)
    ensures r == Plain(d, Concat(chunks))
    ensures forall e: Cipher, iv: seq<Byte>, m: seq<Byte> ::
              IsCipher(e) && Inverts(d, e) && |iv| == BLOCK && Concat(chunks) == EncryptedFile(e, iv, m) ==> r == Some(m)
  {
    forall e: Cipher, iv: seq<Byte>, m: seq<Byte> |
      IsCipher(e) && Inverts(d, e) && |iv| == BLOCK && Concat(chunks) == EncryptedFile(e, iv, m)
      ensures Plain(d, Concat(chunks)) == Some(m)
    {
      FileRoundTrip(e, d, iv, m);
    }
    var s := new Decryptor(d);
    var i := 0;
    while i < |chunks|
      invariant 0 <= i <= |chunks| && s.Valid() && s.d == d && s.stream == Concat(chunks[..i])
      invariant fresh(s) && fresh(s.iv) && fresh(s.buf)
    {
      ConcatSnoc(chunks, i);
      ConcatPrefix(chunks, i + 1);
      var ok := s.Feed(chunks[i]);
      if !ok {
        assert Concat(chunks)[..4] == Concat(chunks[..i + 1])[..4];
        return None;
      }
      i := i + 1;
    }
    assert chunks[..i] == chunks;
    var ok := s.Flush();
    return if ok then Some(s.written) else None;
  }
}
