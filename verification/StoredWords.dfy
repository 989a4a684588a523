/** Words that stores are made into: a store does the same whether or not a walk has set accessed
    and dirty bits before it. */
module StoredWords {
  import opened PhysMemory
  import opened Wrappers
  import opened Sv32
  import opened Tlb
  import Arith

  lemma InsertedIs(w: nat, at: nat, size: nat, val: nat)
    ensures Inserted(w, at, size, val) == w / Arith.Pow2(8 * (at + size)) * Arith.Pow2(8 * (at + size))
              + val % Arith.Pow2(8 * size) * Arith.Pow2(8 * at) + w % Arith.Pow2(8 * at)
  {
  }

  /** A word whose bytes 1 and up have been made from x: its lowest byte is w's. */
  lemma AboveByte(x: nat, w: nat, y: nat)
    requires y == x * 0x100 + w % 0x100
    ensures y / 0x100 == x && y % 0x40 == w % 0x40
  {
    hide *;
    Arith.DivUnique(y, 0x100, x, w % 0x100);
    var b := w % 0x100;
    Arith.DivUnique(y, 0x40, 4 * x + b / 0x40, b % 0x40);
    Arith.DivUnique(w, 0x40, 4 * (w / 0x100) + b / 0x40, b % 0x40);
  }

  lemma UpperPart(w: nat, m: nat)
    requires m > 0
    ensures w / (0x100 * m) == w / 0x100 / m
  {
    hide *;
    var h, q, r := w / 0x100, w / 0x100 / m, w / 0x100 % m;
    Arith.DigitsRegrouped(q, m, r, 0x100, w % 0x100);
    Digits(h, q, m, r);
    Arith.DivUnique(w, 0x100 * m, q, r * 0x100 + w % 0x100);
  }

  lemma Digits(h: nat, q: nat, m: nat, r: nat)
    requires m > 0 && q == h / m && r == h % m
    ensures h == q * m + r && m * 0x100 == 0x100 * m && r * 0x100 + 0xff < 0x100 * m
  {
  }

  lemma LowerPart(w: nat, m: nat)
    requires m > 0
    ensures w % (0x100 * m) == w / 0x100 % m * 0x100 + w % 0x100
  {
    hide *;
    var h, q, r := w / 0x100, w / 0x100 / m, w / 0x100 % m;
    Arith.DigitsRegrouped(q, m, r, 0x100, w % 0x100);
    Digits(h, q, m, r);
    Arith.DivUnique(w, 0x100 * m, q, r * 0x100 + w % 0x100);
  }

  lemma PowBytes(k: nat)
    requires k > 0
    ensures Arith.Pow2(8 * k) == 0x100 * Arith.Pow2(8 * (k - 1)) && Arith.Pow2(8 * 0) == 1
  {
    hide *;
    Arith.Pow2Add(8, 8 * (k - 1));
    PowByte();
  }

  lemma PowByte()
    ensures Arith.Pow2(8) == 0x100 && Arith.Pow2(8 * 0) == 1
  {
    assert Arith.Pow2(4) == 16;
    Arith.Pow2Add(4, 4);
  }

  lemma InsertedIgnoresAD(w: nat, u: nat, at: nat, size: nat, val: nat)
    requires EqualButAD(w, u) && size > 0
    ensures EqualButAD(Inserted(w, at, size, val), Inserted(u, at, size, val))
  {
    hide *;
    HalvesOf(w, u);
    InsertedAbove(w, at, size, val);
    InsertedAbove(u, at, size, val);
    HalvesMake(Inserted(w, at, size, val), Inserted(u, at, size, val));
  }

  /** Apart from its lowest byte, what is inserted into makes no difference but from bit 8 on. */
  lemma InsertedAbove(w: nat, at: nat, size: nat, val: nat)
    requires size > 0
    ensures var x := Inserted(w, at, size, val);
            if at == 0 then x == w / 0x100 / Arith.Pow2(8 * (size - 1)) * Arith.Pow2(8 * size) + val % Arith.Pow2(8 * size)
            else
              var m := Arith.Pow2(8 * (at - 1));
              && x / 0x100 == w / 0x100 / Arith.Pow2(8 * (at + size - 1)) * Arith.Pow2(8 * (at + size - 1))
                                + val % Arith.Pow2(8 * size) * m + w / 0x100 % m
              && x % 0x40 == w % 0x40
  {
    hide *;
    InsertedIs(w, at, size, val);
    PowBytes(at + size);
    if at == 0 {
      PowByte();
      UpperPart(w, Arith.Pow2(8 * (size - 1)));
      Unit(w, val % Arith.Pow2(8 * size));
    } else {
      PowBytes(at);
      HighPart(w, val, Inserted(w, at, size, val), Arith.Pow2(8 * (at + size)), Arith.Pow2(8 * at), Arith.Pow2(8 * size),
               Arith.Pow2(8 * (at + size - 1)), Arith.Pow2(8 * (at - 1)));
    }
  }

  lemma HighPart(w: nat, val: nat, x: nat, p: nat, q: nat, s: nat, n: nat, m: nat)
    requires n > 0 && m > 0 && s > 0 && p == 0x100 * n && q == 0x100 * m
    requires x == w / p * p + val % s * q + w % q
    ensures x / 0x100 == w / 0x100 / n * n + val % s * m + w / 0x100 % m && x % 0x40 == w % 0x40
  {
    hide *;
    UpperPart(w, n);
    LowerPart(w, m);
    Above(w / 0x100 / n, n, val % s, m, w / 0x100 % m, w, x);
  }

  lemma Unit(w: nat, v: nat)
    ensures w % 1 == 0 && v * 1 == v
  {
  }

  lemma Above(h: nat, n: nat, v: nat, m: nat, r: nat, w: nat, x: nat)
    requires x == h * (0x100 * n) + v * (0x100 * m) + (r * 0x100 + w % 0x100)
    ensures x / 0x100 == h * n + v * m + r && x % 0x40 == w % 0x40
  {
    hide *;
    AboveByte(h * n + v * m + r, w, x);
  }

  lemma HalvesOf(w: nat, u: nat)
    requires EqualButAD(w, u)
    ensures w / 0x100 == u / 0x100 && w % 0x40 == u % 0x40
  {
  }

  lemma HalvesMake(w: nat, u: nat)
    ensures w == u || (w / 0x100 == u / 0x100 && w % 0x40 == u % 0x40) ==> EqualButAD(w, u)
  {
  }

  /** The same amount of memory behind every range */
  predicate SameLengths(rs: seq<Range>, ts: seq<Range>) {
    |rs| == |ts| && forall i :: 0 <= i < |rs| ==> |rs[i].words| == |ts[i].words|
  }

  lemma WalkKeepsLengths(c: Control, rs: seq<Range>, v: nat, access: Access)
    ensures SameLengths(rs, AfterWalk(c, rs, v, access))
  {
    hide Walk, Translating, Marked, RamAt, Grants;
  }

  lemma AccessKeepsLengths(s: State, access: Access, v: nat, size: nat)
    requires s.Sized() && size > 0
    ensures SameLengths(s.ranges, Accessed(s, access, v, size).0.ranges)
  {
    hide Translate, AfterWalk, Hit, RamAt, Filled;
    WalkKeepsLengths(s.control, s.ranges, v, access);
  }

  lemma StoreSameButAD(rs: seq<Range>, ts: seq<Range>, l: Location, size: nat, val: nat)
    requires SameButAD(rs, ts) && SameLengths(rs, ts) && l.range < |rs| && size > 0
    ensures SameButAD(StoreAt(rs, l, size, val), StoreAt(ts, l, size, val))
  {
    hide Inserted, EqualButAD;
    var us, ws := StoreAt(rs, l, size, val), StoreAt(ts, l, size, val);
    assert EqualButAD(WordIn(rs[l.range], l.offset), WordIn(ts[l.range], l.offset));
    InsertedIgnoresAD(WordIn(rs[l.range], l.offset), WordIn(ts[l.range], l.offset), l.offset % 4, size, val);
    forall i, o: nat | 0 <= i < |us| ensures EqualButAD(WordIn(us[i], o), WordIn(ws[i], o)) {
      assert EqualButAD(WordIn(rs[i], o), WordIn(ts[i], o));
    }
  }
}
