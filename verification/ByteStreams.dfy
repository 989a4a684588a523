/** Byte strings, and byte strings handed over in pieces. */
module ByteStreams {
  type Byte = bv8

  /** The lowest byte of a number */
  function LowByte(v: nat): Byte { ByteOf(v % 256) }

  /** A number below 256 as a byte, bit by bit */
  function ByteOf(v: nat): Byte
    requires v < 256
  {
    if v == 0 then 0 else Doubled(ByteOf(v / 2), v % 2 == 1)
  }

  function Doubled(b: Byte, one: bool): Byte { (b << 1) | (if one then 1 else 0) }

  function ByteValue(b: Byte): nat { b as nat }

  lemma DoubledIs(b: Byte, one: bool)
    requires ByteValue(b) < 128
    ensures ByteValue(Doubled(b, one)) == 2 * ByteValue(b) + if one then 1 else 0
  {
  }

  lemma ByteOfStep(v: nat)
    requires v < 256
    ensures v == 0 ==> ByteValue(ByteOf(v)) == 0
    ensures v > 0 ==> ByteOf(v) == Doubled(ByteOf(v / 2), v % 2 == 1)
  {
    hide Doubled;
  }

  lemma {:induction false} ByteOfIs(v: nat)
    requires v < 256
    ensures ByteValue(ByteOf(v)) == v
  {
    hide *;
    ByteOfStep(v);
    if v > 0 {
      ByteOfIs(v / 2);
      DoubledIs(ByteOf(v / 2), v % 2 == 1);
    }
  }

  lemma LowByteIs(v: nat)
    ensures LowByte(v) as nat == v % 256
  {
    hide ByteOf;
    ByteOfIs(v % 256);
  }

  function Concat(chunks: seq<seq>): seq {
    if chunks == [] then [] else chunks[0] + Concat(chunks[1..])
  }

  lemma {:induction false} ConcatPrefix(chunks: seq<seq>, i: nat)
    requires i <= |chunks|
    ensures Concat(chunks) == Concat(chunks[..i]) + Concat(chunks[i..])
    decreases i
  {
    if i == 0 {
      assert chunks[..0] == [] && chunks[0..] == chunks;
    } else {
      ConcatPrefix(chunks[1..], i - 1);
      assert chunks[..i][1..] == chunks[1..][..i - 1] && chunks[i..] == chunks[1..][i - 1..];
      assert chunks[..i][0] == chunks[0];
    }
  }

  lemma {:induction false} ConcatSnoc(chunks: seq<seq>, i: nat)
    requires i < |chunks|
    ensures Concat(chunks[..i + 1]) == Concat(chunks[..i]) + chunks[i]
  {
    ConcatPrefix(chunks[..i + 1], i);
    assert chunks[..i + 1][..i] == chunks[..i] && chunks[..i + 1][i..] == [chunks[i]];
    assert Concat([chunks[i]]) == chunks[i] + Concat([chunks[i]][1..]);
  }
}
