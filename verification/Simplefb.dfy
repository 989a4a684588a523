/** simplefb_refresh: from the dirty bitmap of the framebuffer's pages to a few rectangles of
    scan lines to redraw. */
module Simplefb {
  import opened Arith
  import opened DirtyBitmap
  import opened PhysMemory
  import Cpu
  import Tlb
  import TlbCoherence
  import DirtyTracking

  /** A call of redraw_func for whole lines: the first line and how many. */
  datatype Lines = Lines(y: int, height: int)

  const MAX_MERGE_DISTANCE := 3

  /** The first line with a byte in the page, and the line after the last one, cut at the screen. */
  function FirstLine(page: nat, stride: nat): nat
    requires stride > 0
  {
    page * PAGE / stride
  }

  function EndLine(page: nat, stride: nat, height: nat): int
    requires stride > 0
  {
    Min((page * PAGE + PAGE - 1) / stride + 1, height)
  }

  /** Line y has a byte in the page. */
  predicate LineIn(y: nat, page: nat, stride: nat) {
    y * stride < (page + 1) * PAGE && page * PAGE < (y + 1) * stride
  }

  predicate Covers(r: Lines, y: int) { r.y <= y < r.y + r.height }

  ghost predicate Covered(calls: seq<Lines>, y: int) {
    exists i :: 0 <= i < |calls| && Covers(calls[i], y)
  }

  /** Rectangles end on the screen and have lines, but for those that start below the screen
      (pages that only pad the framebuffer). */
  predicate OnScreen(r: Lines, height: nat) {
    0 <= r.y && r.y + r.height <= height && (r.height > 0 || r.y > height)
  }

  /** Exactly the lines on the screen that have a byte in the page */
  lemma LinesOfPage(y: nat, page: nat, stride: nat, height: nat)
    requires stride > 0 && y < height
    ensures LineIn(y, page, stride) <==> FirstLine(page, stride) <= y < EndLine(page, stride, height)
  {
    hide *;
    PageIs();
    LinesAre(y, page, stride, height);
    NotBelow(y, page * PAGE, stride);
    NotAbove(y, page * PAGE + PAGE - 1, stride);
    MulDist(page, 1, PAGE);
  }

  lemma PageIs()
    ensures PAGE == 4096
  {
  }

  lemma LinesAre(y: nat, page: nat, stride: nat, height: nat)
    requires stride > 0 && y < height
    ensures LineIn(y, page, stride) <==> y * stride < (page + 1) * PAGE && page * PAGE < (y + 1) * stride
    ensures FirstLine(page, stride) <= y < EndLine(page, stride, height) <==>
            page * PAGE / stride <= y <= (page * PAGE + PAGE - 1) / stride
  {
  }

  lemma NotBelow(y: nat, n: nat, d: nat)
    requires d > 0
    ensures n / d <= y <==> n < (y + 1) * d
  {
    var q, r := n / d, n % d;
    MulDist(q, 1, d);
    if y < q { MulLe(y + 1, q, d); } else { MulLe(q + 1, y + 1, d); }
  }

  lemma NotAbove(y: nat, n: nat, d: nat)
    requires d > 0
    ensures y <= n / d <==> y * d <= n
  {
    var b := n / d;
    MulDist(b, 1, d);
    if y > b { MulLe(b + 1, y, d); } else { MulLe(y, b, d); }
  }

  lemma LinesGrow(p: nat, q: nat, stride: nat, height: nat)
    requires stride > 0 && p <= q
    ensures FirstLine(p, stride) <= FirstLine(q, stride) && EndLine(p, stride, height) <= EndLine(q, stride, height) <= height
    ensures FirstLine(p, stride) < height ==> FirstLine(p, stride) < EndLine(p, stride, height)
    ensures FirstLine(p, stride) >= height ==> EndLine(p, stride, height) == height
  {
    DivGrows(p * PAGE, q * PAGE, stride);
    DivGrows(p * PAGE + PAGE - 1, q * PAGE + PAGE - 1, stride);
    DivGrows(p * PAGE, p * PAGE + PAGE - 1, stride);
  }

  /** The lines up to `page` that still have to be drawn are those from y0 up to y1. */
  ghost predicate Pending(words: seq<nat>, stride: nat, height: nat, page: nat, calls: seq<Lines>, y0: int, y1: int)
    requires stride > 0
  {
    && (forall p: nat, y: nat :: p < page && PageSet(words, p) && y < height && LineIn(y, p, stride) ==>
         Covered(calls, y) || y0 <= y < y1)
    && (forall i :: 0 <= i < |calls| ==> OnScreen(calls[i], height))
    && 0 <= y0 && 0 <= y1 <= height && (y0 <= y1 || (y0 > height && y1 == height))
    && (y0 != y1 ==> exists p: nat :: p < page && y0 <= FirstLine(p, stride) && y1 == EndLine(p, stride, height))
  }

  /** One dirty page: extend the pending lines, or draw them and start anew. */
  lemma PageTaken(words: seq<nat>, stride: nat, height: nat, page: nat, calls: seq<Lines>, y0: int, y1: int,
                  calls': seq<Lines>, y0': int, y1': int)
    requires stride > 0 && Pending(words, stride, height, page, calls, y0, y1)
    requires y1' == EndLine(page, stride, height)
    requires if y0 == y1 then y0' == FirstLine(page, stride) && calls' == calls
             else if FirstLine(page, stride) <= y1 + MAX_MERGE_DISTANCE then y0' == y0 && calls' == calls
             else y0' == FirstLine(page, stride) && calls' == calls + [Lines(y0, y1 - y0)]
    ensures Pending(words, stride, height, page + 1, calls', y0', y1')
  {
    hide FirstLine, EndLine, PageSet, LineIn;
    LinesGrow(page, page, stride, height);
    if y0 != y1 {
      var p: nat :| p < page && y0 <= FirstLine(p, stride) && y1 == EndLine(p, stride, height);
      LinesGrow(p, page, stride, height);
    }
    forall p: nat, y: nat | p < page + 1 && PageSet(words, p) && y < height && LineIn(y, p, stride)
      ensures Covered(calls', y) || y0' <= y < y1'
    {
      if p == page {
        LinesOfPage(y, page, stride, height);
      } else if Covered(calls, y) {
        var i :| 0 <= i < |calls| && Covers(calls[i], y);
        assert Covers(calls'[i], y);
      } else if calls' != calls {
        assert Covers(calls'[|calls|], y);
      }
    }
    assert y0' <= FirstLine(page, stride);
  }

  lemma PageSkipped(words: seq<nat>, stride: nat, height: nat, page: nat, next: nat, calls: seq<Lines>, y0: int, y1: int)
    requires stride > 0 && Pending(words, stride, height, page, calls, y0, y1) && page <= next
    requires forall p: nat :: page <= p < next ==> !PageSet(words, p)
    ensures Pending(words, stride, height, next, calls, y0, y1)
  {
    hide FirstLine, EndLine, PageSet, LineIn, Covered;
  }

  // -----------------------------------------------------------------------------------------
  // Rectangles below the screen
  // -----------------------------------------------------------------------------------------

  /** Some dirty page below `page` begins behind a line. */
  ghost predicate BeginsBehind(words: seq<nat>, stride: nat, page: nat, line: int)
    requires stride > 0
  {
    exists p: nat :: p < page && PageSet(words, p) && FirstLine(p, stride) > line
  }

  /** No dirty page on the screen ends within the merge distance of a line. */
  ghost predicate FarFrom(words: seq<nat>, stride: nat, height: nat, page: nat, line: int)
    requires stride > 0
  {
    forall q: nat :: q < page && PageSet(words, q) && FirstLine(q, stride) < height ==>
      EndLine(q, stride, height) + MAX_MERGE_DISTANCE < line
  }

  /** No dirty page on the screen ends within the merge distance of one that begins below it. */
  ghost predicate FarApart(words: seq<nat>, stride: nat, height: nat, page: nat)
    requires stride > 0
  {
    forall r: nat :: r < page && PageSet(words, r) && FirstLine(r, stride) >= height ==>
      FarFrom(words, stride, height, page, FirstLine(r, stride))
  }

  /** A rectangle begins below the screen: some dirty page does, and either one by more than the
      merge distance, or none on the screen is near enough to be merged with. */
  ghost predicate Spills(words: seq<nat>, stride: nat, height: nat, page: nat)
    requires stride > 0
  {
    && BeginsBehind(words, stride, page, height)
    && (BeginsBehind(words, stride, page, height + MAX_MERGE_DISTANCE) || FarApart(words, stride, height, page))
  }

  ghost predicate Negative(calls: seq<Lines>) { exists i :: 0 <= i < |calls| && calls[i].height < 0 }

  /** l is the last dirty page below `page`. */
  ghost predicate LastDirty(words: seq<nat>, page: nat, l: nat) {
    l < page && PageSet(words, l) && forall p: nat :: l < p < page ==> !PageSet(words, p)
  }

  /** What the pending lines say about the dirty pages up to `page`. */
  ghost predicate Tracks(words: seq<nat>, stride: nat, height: nat, page: nat, calls: seq<Lines>, y0: int, y1: int)
    requires stride > 0
  {
    && (Negative(calls) || y0 > y1 <==> Spills(words, stride, height, page))
    && (y0 > y1 ==> y1 == height)
    && (y0 <= y1 ==> y0 <= height)
    && if forall p: nat :: p < page ==> !PageSet(words, p) then y0 == y1
       else exists l: nat :: LastDirty(words, page, l) && y1 == EndLine(l, stride, height) && y0 <= FirstLine(l, stride) &&
              (y0 == y1 <==> FirstLine(l, stride) == height && FarFrom(words, stride, height, page, height))
  }

  lemma NothingTracked(words: seq<nat>, stride: nat, height: nat)
    requires stride > 0
    ensures Tracks(words, stride, height, 0, [], 0, 0)
  {
  }

  lemma SkippedAlike(words: seq<nat>, stride: nat, height: nat, page: nat, next: nat, line: int)
    requires stride > 0 && page <= next && forall p: nat :: page <= p < next ==> !PageSet(words, p)
    ensures BeginsBehind(words, stride, page, line) <==> BeginsBehind(words, stride, next, line)
    ensures FarFrom(words, stride, height, page, line) <==> FarFrom(words, stride, height, next, line)
  {
    hide FirstLine, EndLine, PageSet;
  }

  lemma ApartAlike(words: seq<nat>, stride: nat, height: nat, page: nat, next: nat)
    requires stride > 0 && page <= next && forall p: nat :: page <= p < next ==> !PageSet(words, p)
    ensures FarApart(words, stride, height, page) <==> FarApart(words, stride, height, next)
  {
    hide FirstLine, EndLine, PageSet, FarFrom;
    forall line: int ensures FarFrom(words, stride, height, page, line) <==> FarFrom(words, stride, height, next, line) {
      SkippedAlike(words, stride, height, page, next, line);
    }
  }

  lemma TracksSkipped(words: seq<nat>, stride: nat, height: nat, page: nat, next: nat, calls: seq<Lines>, y0: int, y1: int)
    requires stride > 0 && Tracks(words, stride, height, page, calls, y0, y1) && page <= next
    requires forall p: nat :: page <= p < next ==> !PageSet(words, p)
    ensures Tracks(words, stride, height, next, calls, y0, y1)
  {
    hide FirstLine, EndLine, PageSet, FarFrom, FarApart, BeginsBehind, Negative;
    SkippedAlike(words, stride, height, page, next, height);
    SkippedAlike(words, stride, height, page, next, height + MAX_MERGE_DISTANCE);
    ApartAlike(words, stride, height, page, next);
    if !(forall p: nat :: p < page ==> !PageSet(words, p)) {
      var l: nat :| LastDirty(words, page, l) && y1 == EndLine(l, stride, height) && y0 <= FirstLine(l, stride) &&
              (y0 == y1 <==> FirstLine(l, stride) == height && FarFrom(words, stride, height, page, height));
      assert LastDirty(words, next, l);
    }
  }

  /** One more dirty page, seen by each of the conditions. */
  lemma OneMore(words: seq<nat>, stride: nat, height: nat, page: nat, line: int)
    requires stride > 0 && PageSet(words, page)
    ensures BeginsBehind(words, stride, page + 1, line) <==> BeginsBehind(words, stride, page, line) || FirstLine(page, stride) > line
    ensures FarFrom(words, stride, height, page + 1, line) <==>
            FarFrom(words, stride, height, page, line) &&
            (FirstLine(page, stride) < height ==> EndLine(page, stride, height) + MAX_MERGE_DISTANCE < line)
  {
    hide FirstLine, EndLine, PageSet;
  }

  /** The last dirty page is the one that begins and ends last. */
  lemma LastIsLast(words: seq<nat>, stride: nat, height: nat, page: nat, l: nat, line: int)
    requires stride > 0 && LastDirty(words, page, l)
    ensures BeginsBehind(words, stride, page, line) <==> FirstLine(l, stride) > line
    ensures FirstLine(l, stride) < height ==>
              (FarFrom(words, stride, height, page, line) <==> EndLine(l, stride, height) + MAX_MERGE_DISTANCE < line) &&
              FarApart(words, stride, height, page)
  {
    hide FirstLine, EndLine, PageSet;
    forall p: nat | p < page && PageSet(words, p)
      ensures FirstLine(p, stride) <= FirstLine(l, stride) && EndLine(p, stride, height) <= EndLine(l, stride, height)
    {
      LinesGrow(p, l, stride, height);
    }
  }

  /** Whether the dirty pages below the screen are far from those on it, with one more page. */
  lemma ApartMore(words: seq<nat>, stride: nat, height: nat, page: nat)
    requires stride > 0 && PageSet(words, page)
    ensures FirstLine(page, stride) < height && !BeginsBehind(words, stride, page, height - 1) ==>
              FarApart(words, stride, height, page + 1)
    ensures FirstLine(page, stride) >= height ==>
              (FarApart(words, stride, height, page + 1) <==>
                 FarApart(words, stride, height, page) && FarFrom(words, stride, height, page, FirstLine(page, stride)))
  {
    hide FirstLine, EndLine, PageSet;
  }

  lemma NegativeMore(calls: seq<Lines>, r: Lines)
    ensures Negative(calls + [r]) <==> Negative(calls) || r.height < 0
  {
    if Negative(calls) {
      var i :| 0 <= i < |calls| && calls[i].height < 0;
      assert (calls + [r])[i].height < 0;
    }
    if r.height < 0 { assert (calls + [r])[|calls|].height < 0; }
  }

  lemma NowLast(words: seq<nat>, page: nat)
    requires PageSet(words, page)
    ensures LastDirty(words, page + 1, page) && !(forall p: nat :: p < page + 1 ==> !PageSet(words, p))
  {
    hide PageSet;
  }

  lemma NoneDirty(words: seq<nat>, stride: nat, height: nat, page: nat)
    requires stride > 0 && forall p: nat :: p < page ==> !PageSet(words, p)
    ensures forall line :: !BeginsBehind(words, stride, page, line) && FarFrom(words, stride, height, page, line)
    ensures FarApart(words, stride, height, page)
  {
    hide FirstLine, EndLine, PageSet;
  }

  /** One dirty page: what the pending lines and rectangles say is kept. */
  lemma TracksTaken(words: seq<nat>, stride: nat, height: nat, page: nat, calls: seq<Lines>, y0: int, y1: int,
                    calls': seq<Lines>, y0': int, y1': int)
    requires stride > 0 && PageSet(words, page) && Tracks(words, stride, height, page, calls, y0, y1)
    requires y1' == EndLine(page, stride, height)
    requires if y0 == y1 then y0' == FirstLine(page, stride) && calls' == calls
             else if FirstLine(page, stride) <= y1 + MAX_MERGE_DISTANCE then y0' == y0 && calls' == calls
             else y0' == FirstLine(page, stride) && calls' == calls + [Lines(y0, y1 - y0)]
    ensures Tracks(words, stride, height, page + 1, calls', y0', y1')
  {
    hide FirstLine, EndLine, PageSet, FarFrom, FarApart, BeginsBehind, Negative, LastDirty;
    LinesGrow(page, page, stride, height);
    NowLast(words, page);
    NegativeMore(calls, Lines(y0, y1 - y0));
    OneMore(words, stride, height, page, height - 1);
    OneMore(words, stride, height, page, height);
    OneMore(words, stride, height, page, height + MAX_MERGE_DISTANCE);
    OneMore(words, stride, height, page, FirstLine(page, stride));
    ApartMore(words, stride, height, page);
    if forall p: nat :: p < page ==> !PageSet(words, p) {
      NoneDirty(words, stride, height, page);
    } else {
      var l: nat :| LastDirty(words, page, l) && y1 == EndLine(l, stride, height) && y0 <= FirstLine(l, stride) &&
              (y0 == y1 <==> FirstLine(l, stride) == height && FarFrom(words, stride, height, page, height));
      LastBefore(words, page, l);
      LinesGrow(l, page, stride, height);
      LastIsLast(words, stride, height, page, l, height - 1);
      LastIsLast(words, stride, height, page, l, height);
      LastIsLast(words, stride, height, page, l, height + MAX_MERGE_DISTANCE);
      LastIsLast(words, stride, height, page, l, FirstLine(page, stride));
      if FirstLine(page, stride) >= height { FarFromLast(words, stride, height, page, l, FirstLine(page, stride)); }
    }
  }

  lemma LastBefore(words: seq<nat>, page: nat, l: nat)
    requires LastDirty(words, page, l)
    ensures l < page && PageSet(words, l)
  {
  }

  lemma FarFromLast(words: seq<nat>, stride: nat, height: nat, page: nat, l: nat, line: int)
    requires stride > 0 && LastDirty(words, page, l) && line >= height
    ensures FirstLine(l, stride) >= height && FarApart(words, stride, height, page) ==>
              FarFrom(words, stride, height, page, FirstLine(l, stride))
    ensures FarFrom(words, stride, height, page, height) ==> FarFrom(words, stride, height, page, line)
    ensures FarFrom(words, stride, height, page, FirstLine(l, stride)) && FirstLine(l, stride) <= line ==>
              FarFrom(words, stride, height, page, line)
    ensures line > height + MAX_MERGE_DISTANCE ==> FarFrom(words, stride, height, page, line)
    ensures FirstLine(l, stride) == height ==>
              (FarApart(words, stride, height, page) <==> FarFrom(words, stride, height, page, height))
  {
    hide FirstLine, EndLine, PageSet;
    forall q: nat ensures EndLine(q, stride, height) <= height { LinesGrow(q, q, stride, height); }
    forall r: nat | r < page && PageSet(words, r) ensures FirstLine(r, stride) <= FirstLine(l, stride) {
      LinesGrow(r, l, stride, height);
    }
  }

  /** The bits of a word from bit b on, the lower ones cleared. */
  predicate RestOf(v: nat, w: nat, b: nat) { v == Quotient(w, Pow2(b)) * Pow2(b) }

  lemma RestStarts(w: nat)
    ensures RestOf(w, w, 0)
  {
  }

  lemma RestEmpty(v: nat, w: nat, b: nat)
    requires RestOf(v, w, b) && v == 0
    ensures forall c: nat :: c >= b ==> !BitSet(w, c)
  {
    hide Quotient;
    assert Quotient(w, Pow2(b)) == 0 by {
      if Quotient(w, Pow2(b)) > 0 { MulLe(1, Quotient(w, Pow2(b)), Pow2(b)); }
    }
    forall c: nat | c >= b ensures !BitSet(w, c) {
      SmallQuotient(w, b, c);
    }
  }

  lemma SmallQuotient(w: nat, b: nat, c: nat)
    requires c >= b && Quotient(w, Pow2(b)) == 0
    ensures Quotient(w, Pow2(c)) == 0
  {
    hide Pow2;
    assert w < Pow2(b);
    Pow2Mono(b, c);
    DivUnique(w, Pow2(c), 0, w);
  }

  /** Bit b of the rest is bit b of the word; with it cleared, or if it is clear, the rest starts
      one bit higher. */
  lemma RestStep(v: nat, w: nat, b: nat)
    requires RestOf(v, w, b)
    ensures BitSet(v, b) == BitSet(w, b)
    ensures !BitSet(w, b) ==> RestOf(v, w, b + 1)
    ensures BitSet(w, b) ==> v >= Pow2(b) && RestOf(v - Pow2(b), w, b + 1)
  {
    hide *;
    var p, q := Pow2(b), Quotient(w, Pow2(b));
    TwicePow(b);
    RestIs(v, w, b);
    RestStepOf(v, w, p, q, Pow2(b + 1));
    BitSetIs(v, b);
    BitSetIs(w, b);
    RestIs(v, w, b + 1);
    if BitSet(w, b) { RestIs(v - p, w, b + 1); }
  }

  lemma BitSetIs(w: nat, b: nat)
    ensures BitSet(w, b) <==> Quotient(w, Pow2(b)) % 2 == 1
    ensures Quotient(w, Pow2(b)) % 2 == 0 || Quotient(w, Pow2(b)) % 2 == 1
  {
  }

  lemma RestIs(v: nat, w: nat, b: nat)
    ensures RestOf(v, w, b) <==> v == Quotient(w, Pow2(b)) * Pow2(b)
  {
  }

  lemma RestStepOf(v: nat, w: nat, p: nat, q: nat, p2: nat)
    requires p > 0 && q == Quotient(w, p) && v == q * p && p2 == 2 * p
    ensures Quotient(v, p) == q
    ensures q % 2 == 0 ==> v == Quotient(w, p2) * p2
    ensures q % 2 == 1 ==> v >= p && v - p == Quotient(w, p2) * p2
  {
    DivUnique(v, p, q, 0);
    var r, h, l := w % p, q / 2, q % 2;
    assert w == q * p + r;
    Halved(q, h, l, p);
    DivUnique(w, p2, h, l * p + r) by { if l == 1 { assert l * p == p; } else { assert l * p == 0; } }
    if q > 0 { MulLe(1, q, p); }
  }

  lemma Halved(q: int, h: int, l: int, p: int)
    requires q == 2 * h + l
    ensures q * p == h * (2 * p) + l * p
    ensures l == 0 ==> l * p == 0
    ensures l == 1 ==> l * p == p
  {
  }

  /** simplefb_refresh, with the calls of redraw_func collected.  Every line on the screen with a
      byte in a dirty page is in one of the rectangles. */
  method Refresh(words: seq<nat>, stride: nat, height: nat, pageCount: nat) returns (calls: seq<Lines>)
    requires stride > 0 && pageCount <= 32 * |words| && forall i :: 0 <= i < |words| ==> words[i] < WORD_LIMIT
    ensures forall p: nat, y: nat :: p < pageCount && PageSet(words, p) && y < height && LineIn(y, p, stride) ==> Covered(calls, y)
    ensures forall i :: 0 <= i < |calls| ==> OnScreen(calls[i], height)
    ensures Negative(calls) <==> Spills(words, stride, height, Rounded(pageCount))
  {
    hide *;
    calls := [];
    var pageIndex: nat, y0: int, y1: int := 0, 0, 0;
    NothingPending(words, stride, height);
    NothingTracked(words, stride, height);
    while pageIndex < pageCount
      invariant pageIndex % 32 == 0 && pageIndex < pageCount + 32 && Pending(words, stride, height, pageIndex, calls, y0, y1)
      invariant Tracks(words, stride, height, pageIndex, calls, y0, y1)
    {
      var dirtyVal: nat := words[pageIndex / 32];
      ghost var w := dirtyVal;
      var bitPos: nat := 0;
      RestStarts(w);
      while dirtyVal != 0
        invariant bitPos <= 32 && RestOf(dirtyVal, w, bitPos) && Pending(words, stride, height, pageIndex + bitPos, calls, y0, y1)
        invariant Tracks(words, stride, height, pageIndex + bitPos, calls, y0, y1)
        decreases dirtyVal
      {
        ghost var from := bitPos;
        NonzeroBit(dirtyVal, w, bitPos);
        while !BitSet(dirtyVal, bitPos)
          invariant from <= bitPos < 32 && RestOf(dirtyVal, w, bitPos) && dirtyVal != 0
          invariant forall c: nat :: from <= c < bitPos ==> !BitSet(w, c)
          decreases 32 - bitPos
        {
          RestStep(dirtyVal, w, bitPos);
          bitPos := bitPos + 1;
          NonzeroBit(dirtyVal, w, bitPos);
        }
        RestStep(dirtyVal, w, bitPos);
        BitsSkipped(words, pageIndex, w, from, bitPos);
        PageSkipped(words, stride, height, pageIndex + from, pageIndex + bitPos, calls, y0, y1);
        TracksSkipped(words, stride, height, pageIndex + from, pageIndex + bitPos, calls, y0, y1);
        PageSetHere(words, pageIndex, bitPos);
        dirtyVal := dirtyVal - Pow2(bitPos);
        var page := pageIndex + bitPos;
        var pageY0, pageY1 := FirstLine(page, stride), EndLine(page, stride, height);
        ghost var calls0, a0, a1 := calls, y0, y1;
        if y0 == y1 {
          y0, y1 := pageY0, pageY1;
        } else if pageY0 <= y1 + MergeDistance() {
          y1 := pageY1;
        } else {
          calls := calls + [Lines(y0, y1 - y0)];
          y0, y1 := pageY0, pageY1;
        }
        MergeDistanceIs();
        PageTaken(words, stride, height, page, calls0, a0, a1, calls, y0, y1);
        TracksTaken(words, stride, height, page, calls0, a0, a1, calls, y0, y1);
        bitPos := bitPos + 1;
      }
      RestEmpty(dirtyVal, w, bitPos);
      BitsSkipped(words, pageIndex, w, bitPos, 32);
      PageSkipped(words, stride, height, pageIndex + bitPos, pageIndex + 32, calls, y0, y1);
      TracksSkipped(words, stride, height, pageIndex + bitPos, pageIndex + 32, calls, y0, y1);
      pageIndex := pageIndex + 32;
    }
    ghost var before := calls;
    if y0 != y1 {
      calls := calls + [Lines(y0, y1 - y0)];
    }
    Finished(words, stride, height, pageIndex, pageCount, before, y0, y1, calls);
    TrackedToEnd(words, stride, height, pageIndex, before, y0, y1);
    RoundedIs(pageCount, pageIndex);
  }

  /** The pages that a refresh looks at: whole words of the bitmap. */
  function Rounded(pageCount: nat): nat { (pageCount + 31) / 32 * 32 }

  lemma RoundedIs(n: nat, r: nat)
    requires r % 32 == 0 && n <= r < n + 32
    ensures Rounded(n) == r
  {
  }

  lemma PageSetHere(words: seq<nat>, pageIndex: nat, bit: nat)
    requires pageIndex % 32 == 0 && bit < 32
    ensures pageIndex / 32 < |words| && BitSet(words[pageIndex / 32], bit) ==> PageSet(words, pageIndex + bit)
  {
    hide BitSet;
    DivUnique(pageIndex + bit, 32, pageIndex / 32, bit);
  }

  lemma TrackedToEnd(words: seq<nat>, stride: nat, height: nat, page: nat, calls: seq<Lines>, y0: int, y1: int)
    requires stride > 0 && Tracks(words, stride, height, page, calls, y0, y1)
    ensures Negative(calls + [Lines(y0, y1 - y0)]) <==> Spills(words, stride, height, page)
    ensures y0 == y1 ==> (Negative(calls) <==> Spills(words, stride, height, page))
  {
    hide Spills, FirstLine, EndLine, PageSet, FarFrom, LastDirty, Negative;
    NegativeMore(calls, Lines(y0, y1 - y0));
  }

  /** For instance an 800 by 600 screen of four bytes a pixel, whose framebuffer is rounded up to
      480 pages: a store to its last page makes a refresh draw a rectangle of negative height. */
  method BelowTheScreen() returns (calls: seq<Lines>)
    ensures Negative(calls)
  {
    hide Spills, Negative, OnScreen;
    var words: seq<nat> := seq(14, _ => 0) + [0x8000_0000];
    calls := Refresh(words, 3200, 600, 480);
    LastPageSpills(words);
  }

  lemma LastPageSpills(words: seq<nat>)
    requires |words| == 15 && words[14] == 0x8000_0000
    ensures Spills(words, 3200, 600, Rounded(480))
  {
    assert FirstLine(479, 3200) == 613;
    assert PageSet(words, 479) by { TopBit(); }
  }

  lemma TopBit()
    ensures BitSet(0x8000_0000, 31)
  {
    ThirtyTwo();
    TwicePow(31);
    assert Pow2(31) == 0x8000_0000;
  }

  function MergeDistance(): nat { MAX_MERGE_DISTANCE }

  lemma MergeDistanceIs()
    ensures MergeDistance() == MAX_MERGE_DISTANCE
  {
  }

  lemma NothingPending(words: seq<nat>, stride: nat, height: nat)
    requires stride > 0
    ensures Pending(words, stride, height, 0, [], 0, 0)
  {
  }

  lemma NonzeroBit(v: nat, w: nat, b: nat)
    requires RestOf(v, w, b) && v != 0 && w < WORD_LIMIT
    ensures b < 32
  {
    if b >= 32 {
      Pow2Mono(32, b);
      ThirtyTwo();
      DivUnique(w, Pow2(b), 0, w);
    }
  }

  lemma BitsSkipped(words: seq<nat>, pageIndex: nat, w: nat, from: nat, to: nat)
    requires pageIndex % 32 == 0 && to <= 32 && (pageIndex / 32 < |words| ==> words[pageIndex / 32] == w)
    requires forall c: nat :: from <= c < to ==> !BitSet(w, c)
    ensures forall p: nat :: pageIndex + from <= p < pageIndex + to ==> !PageSet(words, p)
  {
    hide BitSet;
    forall p: nat | pageIndex + from <= p < pageIndex + to ensures !PageSet(words, p) {
      DivUnique(p, 32, pageIndex / 32, p - pageIndex);
      assert !BitSet(w, p - pageIndex);
    }
  }

  lemma Finished(words: seq<nat>, stride: nat, height: nat, page: nat, count: nat, calls: seq<Lines>, y0: int, y1: int, all: seq<Lines>)
    requires stride > 0 && Pending(words, stride, height, page, calls, y0, y1) && count <= page
    requires all == if y0 != y1 then calls + [Lines(y0, y1 - y0)] else calls
    ensures forall p: nat, y: nat :: p < count && PageSet(words, p) && y < height && LineIn(y, p, stride) ==> Covered(all, y)
    ensures forall i :: 0 <= i < |all| ==> OnScreen(all[i], height)
  {
    hide FirstLine, EndLine, PageSet, LineIn;
    forall p: nat, y: nat | p < count && PageSet(words, p) && y < height && LineIn(y, p, stride)
      ensures Covered(all, y)
    {
      if Covered(calls, y) {
        var i :| 0 <= i < |calls| && Covers(calls[i], y);
        assert Covers(all[i], y);
      } else {
        assert Covers(all[|calls|], y);
      }
    }
  }

  // -----------------------------------------------------------------------------------------
  // No framebuffer update is lost
  // -----------------------------------------------------------------------------------------

  /** From reset, after any calls, refreshing from the framebuffer's bitmap redraws every line on the
      screen that lies in a page stored to since its dirty bits were last taken. */
  method RefreshAfter(mem: Cpu.Memory, es: seq<Tlb.Event>, stride: nat, height: nat, pageCount: nat) returns (calls: seq<Lines>)
    requires mem.Valid() && mem.Joined() && mem.Now() == Tlb.FlushAll(mem.Now()) && WellPlaced(mem.ranges)
    requires DirtyTracking.MappedWhole(mem.ranges) && TlbCoherence.PossibleRun(mem.Now(), es)
    requires var rs := TlbCoherence.Run(mem.Now(), es).ranges; mem.fb < |rs| && rs[mem.fb].tracked
    requires stride > 0 && pageCount <= 32 * mem.bits.first.Length
    modifies mem, mem.tlbRead, mem.tlbWrite, mem.tlbCode, mem.bits, mem.bits.first, mem.bits.second
    ensures mem.Joined() && mem.Now() == Tlb.TakeDirty(TlbCoherence.Run(old(mem.Now()), es), mem.fb)
    ensures forall p: nat, y: nat ::
      p < pageCount && DirtyTracking.Page(mem.fb, p) in DirtyTracking.StoredIn(old(mem.Now()), es, {}) && y < height && LineIn(y, p, stride)
      ==> Covered(calls, y)
  {
    hide Shows, PageSet, BitSet, Covered, LineIn, DirtyTracking.StoredIn, DirtyTracking.MappedWhole, TlbCoherence.Run,
         TlbCoherence.PossibleRun, WellPlaced, Tlb.FlushAll, Spills, Negative, mem.Joined, Tlb.TakeDirty;
    ghost var s := mem.Now();
    mem.Play(es);
    var pages, words := mem.TakeDirtyBits(mem.fb);
    calls := Refresh(words, stride, height, pageCount);
    forall p: nat | p < pageCount && DirtyTracking.Page(mem.fb, p) in DirtyTracking.StoredIn(s, es, {})
      ensures PageSet(words, p)
    {
      DirtyTracking.NoStoreIsMissed(s, es, DirtyTracking.Page(mem.fb, p));
      ShowsAt(words, pages, p);
    }
  }
}
