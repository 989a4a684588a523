/** The dirty bits of a RAM range in iomem.c and iomem.h: two bitmaps of 32-bit words, of which one
    is being marked while the other is in the hands of whoever took it last. */
module DirtyBitmap {
  import opened Arith
  import opened PhysMemory

  predicate BitSet(w: nat, b: nat) { Quotient(w, Pow2(b)) % 2 == 1 }

  /** Whether a page's bit is set in the bitmap. */
  predicate PageSet(words: seq<nat>, page: nat) {
    page / 32 < |words| && BitSet(words[page / 32], page % 32)
  }

  /** The bitmap shows the set of dirty pages. */
  ghost predicate Shows(words: seq<nat>, dirty: set<nat>) {
    forall p: nat :: p < 32 * |words| ==> (PageSet(words, p) <==> p in dirty)
  }

  lemma ShowsAt(words: seq<nat>, dirty: set<nat>, p: nat)
    requires Shows(words, dirty) && p < 32 * |words| && p in dirty
    ensures PageSet(words, p)
  {
  }

  // -----------------------------------------------------------------------------------------
  // One bit of a word
  // -----------------------------------------------------------------------------------------

  /** `w | (1 << b)` and `w & ~(1 << b)` */
  function WithBit(w: nat, b: nat): nat { if BitSet(w, b) then w else w + Pow2(b) }

  function WithoutBit(w: nat, b: nat): nat {
    if BitSet(w, b) then BitWeight(w, b); w - Pow2(b) else w
  }

  lemma BitWeight(w: nat, b: nat)
    requires BitSet(w, b)
    ensures w >= Pow2(b)
  {
    var q := Quotient(w, Pow2(b));
    MulLe(1, q, Pow2(b));
  }

  lemma BitIs(w: nat, b: nat, p: nat, q: nat, r: nat)
    requires p == Pow2(b) && w == q * p + r && r < p
    ensures BitSet(w, b) <==> q % 2 == 1
  {
    hide Pow2;
    DivUnique(w, p, q, r);
  }

  lemma BitParts(w: nat, b: nat) returns (q: nat, r: nat)
    ensures w == q * Pow2(b) + r && r < Pow2(b) && (BitSet(w, b) <==> q % 2 == 1)
  {
    hide Pow2;
    q, r := w / Pow2(b), w % Pow2(b);
  }

  /** Adding the weight of a bit that is not set changes no other bit. */
  lemma BitAdded(w: nat, b: nat, c: nat)
    requires !BitSet(w, b)
    ensures BitSet(w + Pow2(b), c) <==> c == b || BitSet(w, c)
  {
    hide *;
    var p := Pow2(b);
    var q, r := BitParts(w, b);
    MulDist(q, 1, p);
    if c == b {
      BitIs(w + p, b, p, q + 1, r);
    } else if c < b {
      LowerBit(q, r, b, c, w);
      LowerBit(q + 1, r, b, c, w + p);
    } else {
      HigherBit(q, r, b, c, w, w + p);
    }
  }

  /** A bit below place b does not see what stands from place b on. */
  lemma LowerBit(q: nat, r: nat, b: nat, c: nat, w: nat)
    requires c < b && r < Pow2(b) && w == q * Pow2(b) + r
    ensures BitSet(w, c) <==> BitSet(r, c)
  {
    hide *;
    Pow2Add(b - c, c);
    Pow2Even(b - c);
    BitBelow(q, r, c, Pow2(c), Pow2(b - c), w, r / Pow2(c), r % Pow2(c));
  }

  lemma BitBelow(q: nat, r: nat, c: nat, p: nat, k: nat, w: nat, d: nat, m: nat)
    requires p == Pow2(c) && k % 2 == 0 && w == q * (k * p) + r && r == d * p + m && m < p
    ensures BitSet(w, c) <==> BitSet(r, c)
  {
    hide *;
    DigitsRegrouped(q, k, d, p, m);
    BitIs(w, c, p, q * k + d, m);
    BitIs(r, c, p, d, m);
    EvenMultiple(q, k);
    EvenPlus(q * k, d);
  }

  /** Nor does a bit above place b see bit b when it is alone in changing. */
  lemma HigherBit(q: nat, r: nat, b: nat, c: nat, w: nat, x: nat)
    requires c > b && q % 2 == 0 && r < Pow2(b) && w == q * Pow2(b) + r && x == (q + 1) * Pow2(b) + r
    ensures BitSet(x, c) <==> BitSet(w, c)
  {
    hide *;
    var p, k := Pow2(b), Pow2(c - b);
    var d, m := q / k, q % k;
    Pow2Add(c - b, b);
    Pow2Even(c - b);
    EvenBelow(q, k, d, m);
    DigitsRegrouped(d, k, m, p, r);
    DigitsRegrouped(d, k, m + 1, p, r);
    RestBelow(m, k, p, r);
    RestBelow(m + 1, k, p, r);
    BitIs(w, c, k * p, d, m * p + r);
    BitIs(x, c, k * p, d, (m + 1) * p + r);
  }

  lemma EvenBelow(q: nat, k: nat, d: nat, m: nat)
    requires k > 0 && k % 2 == 0 && q % 2 == 0 && q == d * k + m && m < k
    ensures m + 1 < k && q + 1 == d * k + (m + 1)
  {
    EvenMultiple(d, k);
  }

  lemma RestBelow(m: nat, k: nat, p: nat, r: nat)
    requires m < k && r < p
    ensures 0 <= m * p + r < k * p
  {
    MulLe(m + 1, k, p);
    MulDist(m, 1, p);
  }

  lemma BitCleared(w: nat, b: nat, c: nat)
    requires BitSet(w, b)
    ensures w >= Pow2(b) && (BitSet(w - Pow2(b), c) <==> c != b && BitSet(w, c))
  {
    hide *;
    BitWeight(w, b);
    var v := w - Pow2(b);
    LessABit(w, b, v);
    BitAdded(v, b, c);
  }

  lemma LessABit(w: nat, b: nat, v: nat)
    requires BitSet(w, b) && w == v + Pow2(b)
    ensures !BitSet(v, b)
  {
    hide *;
    var p := Pow2(b);
    var q, r := BitParts(w, b);
    MulDist(q, -1, p);
    BitIs(v, b, p, q - 1, r);
  }

  predicate Words(words: seq<nat>) { forall i :: 0 <= i < |words| ==> words[i] < WORD_LIMIT }

  lemma StillWord(w: nat, b: nat)
    requires w < WORD_LIMIT && b < 32
    ensures WithBit(w, b) < WORD_LIMIT && WithoutBit(w, b) < WORD_LIMIT
  {
    ThirtyTwo();
    if !BitSet(w, b) { RoomForBit(w, b, 32); }
  }

  lemma RoomForBit(w: nat, b: nat, n: nat)
    requires w < Pow2(n) && b < n && !BitSet(w, b)
    ensures w + Pow2(b) < Pow2(n)
  {
    hide *;
    Pow2Add(n - b, b);
    Pow2Even(n - b);
    var q, r := BitParts(w, b);
    RoomFor(w, q, Pow2(b), r, Pow2(n - b), Pow2(n));
  }

  lemma RoomFor(w: nat, q: nat, p: nat, r: nat, k: nat, kp: nat)
    requires w == q * p + r && r < p && q % 2 == 0 && k % 2 == 0 && kp == k * p && w < kp
    ensures w + p < kp
  {
    hide *;
    if q >= k { MulLe(k, q, p); }
    RestBelow(q + 1, k, p, r);
    MulDist(q, 1, p);
  }

  lemma ThirtyTwo()
    ensures Pow2(32) == WORD_LIMIT
  {
    assert Pow2(4) == 16;
    Pow2Add(4, 4);
    Pow2Add(8, 8);
    Pow2Add(16, 16);
  }

  /** A number that is not 0 has a bit. */
  lemma {:induction false} HasBit(w: nat, n: nat) returns (b: nat)
    requires 0 < w < Pow2(n + 1)
    ensures b <= n && BitSet(w, b)
    decreases n
  {
    hide *;
    PowZero();
    TwicePow(n);
    if n > 0 && w < Pow2(n) {
      b := HasBit(w, n - 1);
    } else {
      b := n;
      BitIs(w, n, Pow2(n), 1, w - Pow2(n));
    }
  }

  /** A word that is not 0 marks a page. */
  lemma MarksPage(words: seq<nat>, i: nat, pages: set<nat>)
    requires Words(words) && i < |words| && words[i] != 0 && Shows(words, pages)
    ensures pages != {}
  {
    hide BitSet, Pow2;
    ThirtyTwo();
    var b := HasBit(words[i], 31);
    DivUnique(32 * i + b, 32, i, b);
    assert PageSet(words, 32 * i + b);
  }

  lemma NoPages(words: seq<nat>, pages: set<nat>)
    requires Shows(words, pages) && (forall i :: 0 <= i < |words| ==> words[i] == 0) && forall p :: p in pages ==> p < 32 * |words|
    ensures pages == {}
  {
    hide PageSet;
    NothingSet(words);
  }

  /** Setting and clearing a page's bit, in the bitmap */
  lemma WordsWith(words: seq<nat>, page: nat, q: nat)
    requires page / 32 < |words|
    ensures PageSet(words[page / 32 := WithBit(words[page / 32], page % 32)], q) <==> PageSet(words, q) || q == page
    ensures PageSet(words[page / 32 := WithoutBit(words[page / 32], page % 32)], q) <==> PageSet(words, q) && q != page
  {
    var w := words[page / 32];
    if BitSet(w, page % 32) { BitCleared(w, page % 32, q % 32); } else { BitAdded(w, page % 32, q % 32); }
    hide BitSet, Pow2;
    assert q == page <==> q / 32 == page / 32 && q % 32 == page % 32;
  }

  // -----------------------------------------------------------------------------------------
  // The two bitmaps of a range
  // -----------------------------------------------------------------------------------------

  class DirtyBits {
    const first: array<nat>
    const second: array<nat>
    var index: bool

    /** The pages marked, which is what the state machine in Tlb keeps of a range. */
    ghost var pages: set<nat>

    function Active(): array<nat>
      reads this
    {
      if index then second else first
    }

    ghost predicate Valid()
      reads this, first, second
    {
      && first != second && first.Length == second.Length
      && Words(Active()[..]) && Shows(Active()[..], pages) && forall p :: p in pages ==> p < 32 * first.Length
    }

    /** default_register_ram, for a range of nbPages pages whose stores are noted */
    constructor (nbPages: nat)
      ensures Valid() && pages == {} && first.Length == (nbPages + 31) / 32 && fresh(first) && fresh(second)
    {
      first := new nat[(nbPages + 31) / 32](i => 0);
      second := new nat[(nbPages + 31) / 32](i => 0);
      index, pages := false, {};
      new;
      NothingSet(first[..]);
    }

    /** phys_mem_set_dirty_bit */
    method Mark(page: nat)
      requires Valid() && page < 32 * first.Length
      modifies this`pages, Active()
      ensures Valid() && pages == old(pages) + {page} && Active() == old(Active())
    {
      hide BitSet, PageSet;
      ghost var was := Active()[..];
      StillWord(was[page / 32], page % 32);
      Active()[page / 32] := WithBit(Active()[page / 32], page % 32);
      pages := pages + {page};
      assert Active()[..] == was[page / 32 := WithBit(was[page / 32], page % 32)];
      forall p: nat | p < 32 * first.Length ensures PageSet(Active()[..], p) <==> p in pages { WordsWith(was, page, p); }
    }

    /** phys_mem_reset_dirty_bit.  The TLB entries of the page have to go if its bit was set. */
    method Clear(page: nat) returns (flush: bool)
      requires Valid() && page < 32 * first.Length
      modifies this`pages, Active()
      ensures Valid() && pages == old(pages) - {page} && flush == (page in old(pages)) && Active() == old(Active())
    {
      hide PageSet;
      ghost var was := Active()[..];
      flush := BitSet(Active()[page / 32], page % 32);
      PageSetIs(was, page);
      StillWord(was[page / 32], page % 32);
      if flush { Active()[page / 32] := WithoutBit(Active()[page / 32], page % 32); }
      pages := pages - {page};
      assert Active()[..] == was[page / 32 := WithoutBit(was[page / 32], page % 32)];
      forall p: nat | p < 32 * first.Length ensures PageSet(Active()[..], p) <==> p in pages { WordsWith(was, page, p); }
    }

    /** default_get_dirty_bits.  The bitmap returned keeps what it shows, as marking goes on in the
        other one until the next call; the TLB entries of the range have to go if any bit was set. */
    method Take() returns (bits: array<nat>, flush: bool)
      requires Valid()
      modifies this, first, second
      ensures Valid() && pages == {} && bits == old(Active()) && bits != Active()
      ensures bits[..] == old(Active()[..]) && Words(bits[..]) && Shows(bits[..], old(pages))
      ensures flush <==> old(pages) != {}
    {
      hide BitSet, PageSet, Shows;
      bits, flush := Active(), false;
      var i := 0;
      while i < bits.Length && !flush
        invariant 0 <= i <= bits.Length && bits == Active() && unchanged(this, first, second)
        invariant flush ==> 0 < i && bits[i - 1] != 0
        invariant !flush ==> forall k :: 0 <= k < i ==> bits[k] == 0
      {
        flush := bits[i] != 0;
        i := i + 1;
      }
      if flush { MarksPage(bits[..], i - 1, pages); } else { NoPages(bits[..], pages); }
      index := !index;
      i := 0;
      while i < Active().Length
        invariant 0 <= i <= Active().Length && bits != Active() && bits[..] == old(Active()[..])
        invariant forall k :: 0 <= k < i ==> Active()[k] == 0
        modifies Active()
      {
        Active()[i] := 0;
        i := i + 1;
      }
      pages := {};
      NothingSet(Active()[..]);
    }
  }

  lemma PageSetIs(words: seq<nat>, page: nat)
    requires page / 32 < |words|
    ensures PageSet(words, page) <==> BitSet(words[page / 32], page % 32)
  {
  }

  lemma NothingSet(words: seq<nat>)
    requires forall i :: 0 <= i < |words| ==> words[i] == 0
    ensures Shows(words, {})
  {
    forall p: nat ensures !PageSet(words, p) { hide Pow2; }
  }
}
