/** AES_cbc_encrypt on whole blocks, in both directions, for an arbitrary block cipher
    (NIST SP 800-38A, section 6.2). */
module Cbc {
  import opened ByteStreams

  const BLOCK := 16

  /** A block cipher under some key, in one direction. */
  type Cipher = seq<Byte> -> seq<Byte>

  ghost predicate IsCipher(f: Cipher) {
    forall b: seq<Byte> :: |b| == BLOCK ==> |f(b)| == BLOCK
  }

  /** d undoes e. */
  ghost predicate Inverts(d: Cipher, e: Cipher) {
    forall b: seq<Byte> :: |b| == BLOCK ==> d(e(b)) == b
  }

  function Xor(a: seq<Byte>, b: seq<Byte>): (c: seq<Byte>)
    requires |a| == |b|
    ensures |c| == |a| && forall i :: 0 <= i < |a| ==> c[i] == a[i] ^ b[i]
  {
    seq(|a|, i requires 0 <= i < |a| => a[i] ^ b[i])
  }

  ghost function Encrypted(e: Cipher, iv: seq<Byte>, p: seq<Byte>): (c: seq<Byte>)
    requires IsCipher(e) && |iv| == BLOCK && |p| % BLOCK == 0
    ensures |c| == |p|
    decreases |p|
  {
    if p == [] then [] else
      var b := e(Xor(p[..BLOCK], iv));
      b + Encrypted(e, b, p[BLOCK..])
  }

  ghost function Decrypted(d: Cipher, iv: seq<Byte>, c: seq<Byte>): (p: seq<Byte>)
    requires IsCipher(d) && |iv| == BLOCK && |c| % BLOCK == 0
    ensures |p| == |c|
    decreases |c|
  {
    if c == [] then [] else Xor(d(c[..BLOCK]), iv) + Decrypted(d, c[..BLOCK], c[BLOCK..])
  }

  /** What the next block is chained to. */
  function Chained(iv: seq<Byte>, c: seq<Byte>): (b: seq<Byte>)
    requires |iv| == BLOCK && |c| % BLOCK == 0
    ensures |b| == BLOCK
  {
    if c == [] then iv else c[|c| - BLOCK..]
  }

  lemma XorTwice(a: seq<Byte>, b: seq<Byte>)
    requires |a| == |b|
    ensures Xor(Xor(a, b), b) == a
  {
    forall i | 0 <= i < |a| ensures Xor(Xor(a, b), b)[i] == a[i] { XorByte(a[i], b[i]); }
  }

  lemma XorByte(x: Byte, y: Byte)
    ensures (x ^ y) ^ y == x
  {
  }

  /** Decryption recovers what was encrypted. */
  lemma {:induction false} RoundTrip(e: Cipher, d: Cipher, iv: seq<Byte>, p: seq<Byte>)
    requires IsCipher(e) && IsCipher(d) && Inverts(d, e) && |iv| == BLOCK && |p| % BLOCK == 0
    ensures Decrypted(d, iv, Encrypted(e, iv, p)) == p
    decreases |p|
  {
    hide IsCipher, Inverts, Encrypted, Decrypted, Xor;
    if p == [] {
      NothingEncrypted(e, iv);
      NothingDecrypted(d, iv);
    } else {
      var x := Xor(p[..BLOCK], iv);
      EncryptedStep(e, iv, p);
      InvertsAt(e, d, x);
      DecryptedStep(d, iv, e(x), Encrypted(e, e(x), p[BLOCK..]));
      XorTwice(p[..BLOCK], iv);
      RoundTrip(e, d, e(x), p[BLOCK..]);
      assert p == p[..BLOCK] + p[BLOCK..];
    }
  }

  lemma NothingEncrypted(e: Cipher, iv: seq<Byte>)
    requires IsCipher(e) && |iv| == BLOCK
    ensures Encrypted(e, iv, []) == []
  {
  }

  lemma InvertsAt(e: Cipher, d: Cipher, x: seq<Byte>)
    requires IsCipher(e) && Inverts(d, e) && |x| == BLOCK
    ensures |e(x)| == BLOCK && d(e(x)) == x
  {
  }

  lemma EncryptedStep(e: Cipher, iv: seq<Byte>, p: seq<Byte>)
    requires IsCipher(e) && |iv| == BLOCK && |p| % BLOCK == 0 && p != []
    ensures |p| >= BLOCK && |e(Xor(p[..BLOCK], iv))| == BLOCK
    ensures Encrypted(e, iv, p) == e(Xor(p[..BLOCK], iv)) + Encrypted(e, e(Xor(p[..BLOCK], iv)), p[BLOCK..])
  {
  }

  lemma DecryptedStep(d: Cipher, iv: seq<Byte>, b: seq<Byte>, rest: seq<Byte>)
    requires IsCipher(d) && |iv| == BLOCK && |b| == BLOCK && |rest| % BLOCK == 0
    ensures |d(b)| == BLOCK && Decrypted(d, iv, b + rest) == Xor(d(b), iv) + Decrypted(d, b, rest)
  {
    var c := b + rest;
    assert c[..BLOCK] == b && c[BLOCK..] == rest;
  }

  /** Decrypting in two stretches, the second chained to the first. */
  lemma {:induction false} DecryptedParts(d: Cipher, iv: seq<Byte>, a: seq<Byte>, b: seq<Byte>)
    requires IsCipher(d) && |iv| == BLOCK && |a| % BLOCK == 0 && |b| % BLOCK == 0
    ensures Decrypted(d, iv, a + b) == Decrypted(d, iv, a) + Decrypted(d, Chained(iv, a), b)
    decreases |a|
  {
    hide IsCipher, Decrypted, Xor;
    if a == [] {
      assert a + b == b;
      NothingDecrypted(d, iv);
    } else {
      var h, t := a[..BLOCK], a[BLOCK..];
      assert a == h + t && a + b == h + (t + b);
      DecryptedStep(d, iv, h, t);
      DecryptedStep(d, iv, h, t + b);
      DecryptedParts(d, h, t, b);
      assert Chained(h, t) == Chained(iv, a) by { if t == [] { assert a == h; } }
    }
  }

  /** Section 6.2: every plaintext block is the inverse cipher of its ciphertext block, combined
      with the ciphertext block before it or, for the first, with the initialization vector. */
  lemma {:induction false} DecryptedBlock(d: Cipher, iv: seq<Byte>, c: seq<Byte>, j: nat)
    requires IsCipher(d) && |iv| == BLOCK && |c| % BLOCK == 0 && (j + 1) * BLOCK <= |c|
    ensures Decrypted(d, iv, c)[j * BLOCK..(j + 1) * BLOCK] ==
            Xor(d(c[j * BLOCK..(j + 1) * BLOCK]), if j == 0 then iv else c[(j - 1) * BLOCK..j * BLOCK])
    decreases j
  {
    hide IsCipher, Decrypted, Xor;
    var h, t := c[..BLOCK], c[BLOCK..];
    assert c == h + t;
    DecryptedStep(d, iv, h, t);
    var p := Decrypted(d, iv, c);
    var at: nat := j * BLOCK;
    if j == 0 {
      assert p[..BLOCK] == Xor(d(h), iv);
    } else {
      DecryptedBlock(d, h, t, j - 1);
      SliceTail(p, BLOCK, at - BLOCK, at);
      SliceTail(c, BLOCK, at - BLOCK, at);
      if j > 1 { SliceTail(c, BLOCK, at - 2 * BLOCK, at - BLOCK); }
      assert p[BLOCK..] == Decrypted(d, h, t);
    }
  }

  lemma SliceTail(s: seq<Byte>, k: nat, i: nat, j: nat)
    requires k + j <= |s| && i <= j
    ensures s[k..][i..j] == s[k + i..k + j]
  {
  }

  /** One block, in place: out ^= ivec after AES_decrypt, then ivec becomes the ciphertext. */
  method DecryptBlock(d: Cipher, buf: array<Byte>, at: nat, iv: array<Byte>)
    requires IsCipher(d) && at + BLOCK <= buf.Length && iv.Length == BLOCK && buf != iv
    modifies buf, iv
    ensures iv[..] == old(buf[..])[at..at + BLOCK]
    ensures buf[..][at..at + BLOCK] == Xor(d(old(buf[..])[at..at + BLOCK]), old(iv[..]))
    ensures buf[..][..at] == old(buf[..])[..at] && buf[..][at + BLOCK..] == old(buf[..])[at + BLOCK..]
  {
    var tmp := buf[at..at + BLOCK];
    var plain := d(tmp);
    var n := 0;
    while n < BLOCK
      invariant 0 <= n <= BLOCK && iv[..] == old(iv[..])
      invariant forall k :: 0 <= k < n ==> buf[at + k] == plain[k] ^ iv[k]
      invariant buf[..at] == old(buf[..at]) && buf[at + BLOCK..] == old(buf[at + BLOCK..])
    {
      buf[at + n] := plain[n] ^ iv[n];
      n := n + 1;
    }
    assert buf[at..at + BLOCK] == Xor(plain, old(iv[..]));
    n := 0;
    label Decoded:
    while n < BLOCK
      invariant 0 <= n <= BLOCK && forall k :: 0 <= k < n ==> iv[k] == tmp[k]
      invariant buf[..] == old@Decoded(buf[..])
    {
      iv[n] := tmp[n];
      n := n + 1;
    }
  }

  /** AES_cbc_encrypt with enc clear, on the first len bytes of buf, in place. */
  method DecryptInPlace(d: Cipher, buf: array<Byte>, len: nat, iv: array<Byte>)
    requires IsCipher(d) && len <= buf.Length && len % BLOCK == 0 && iv.Length == BLOCK && buf != iv
    modifies buf, iv
    ensures buf[..][..len] == Decrypted(d, old(iv[..]), old(buf[..])[..len])
    ensures buf[..][len..] == old(buf[..])[len..]
    ensures iv[..] == Chained(old(iv[..]), old(buf[..])[..len])
  {
    hide IsCipher, Decrypted, Xor, Chained;
    NothingDecrypted(d, iv[..]);
    var at: nat := 0;
    ghost var iv0, c := iv[..], buf[..][..len];
    while at < len
      invariant 0 <= at <= len && at % BLOCK == 0
      invariant buf[..][..at] == Decrypted(d, iv0, c[..at]) && iv[..] == Chained(iv0, c[..at])
      invariant buf[..][at..len] == c[at..] && buf[..][len..] == old(buf[..])[len..]
    {
      ghost var b := buf[..];
      BlockTaken(b, c, at, len);
      DecryptedNext(d, iv0, c, at);
      DecryptBlock(d, buf, at, iv);
      BlockReplaced(b, buf[..], at, len);
      at := at + BLOCK;
    }
    assert c[..len] == c;
  }

  lemma BlockTaken(b: seq<Byte>, c: seq<Byte>, at: nat, len: nat)
    requires at + BLOCK <= len <= |b| && len == |c| && b[at..len] == c[at..]
    ensures b[at..at + BLOCK] == c[at..at + BLOCK]
  {
    assert b[at..at + BLOCK] == b[at..len][..BLOCK];
    assert c[at..at + BLOCK] == c[at..][..BLOCK];
  }

  lemma BlockReplaced(b: seq<Byte>, a: seq<Byte>, at: nat, len: nat)
    requires at + BLOCK <= len <= |b| == |a| && a[..at] == b[..at] && a[at + BLOCK..] == b[at + BLOCK..]
    ensures a[..at + BLOCK] == b[..at] + a[at..at + BLOCK]
    ensures a[at + BLOCK..len] == b[at..len][BLOCK..] && a[len..] == b[len..]
  {
    assert a[at + BLOCK..len] == a[at + BLOCK..][..len - at - BLOCK];
    assert b[at..len][BLOCK..] == b[at + BLOCK..][..len - at - BLOCK];
    assert a[len..] == a[at + BLOCK..][len - at - BLOCK..];
    assert b[len..] == b[at + BLOCK..][len - at - BLOCK..];
  }

  lemma NothingDecrypted(d: Cipher, iv: seq<Byte>)
    requires IsCipher(d) && |iv| == BLOCK
    ensures Decrypted(d, iv, []) == [] && Chained(iv, []) == iv
  {
  }

  lemma DecryptedNext(d: Cipher, iv: seq<Byte>, c: seq<Byte>, at: nat)
    requires IsCipher(d) && |iv| == BLOCK && at % BLOCK == 0 && at + BLOCK <= |c|
    ensures |d(c[at..at + BLOCK])| == BLOCK
    ensures Decrypted(d, iv, c[..at + BLOCK]) ==
            Decrypted(d, iv, c[..at]) + Xor(d(c[at..at + BLOCK]), Chained(iv, c[..at]))
    ensures Chained(iv, c[..at + BLOCK]) == c[at..at + BLOCK]
  {
    var b := c[at..at + BLOCK];
    assert c[..at + BLOCK] == c[..at] + b;
    DecryptedParts(d, iv, c[..at], b);
    DecryptedStep(d, Chained(iv, c[..at]), b, []);
    assert b + [] == b;
  }
}
