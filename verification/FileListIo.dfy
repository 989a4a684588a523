/** The two programs of FileList step by step: the printer of build_filelist.c, which appends to
    a stream, and the parser of fs_utils.c and fs_net.c, which moves a cursor over the text. */
module FileListIo {
  import opened Arith
  import opened Wrappers
  import opened FileListText
  import opened FileList

  // -----------------------------------------------------------------------------------------
  // The printer.  What a method prints is stated together with the text k that will follow.
  // -----------------------------------------------------------------------------------------

  /** ScanState: the stream and the next file id */
  class ScanState {
    var out: string
    var nextId: nat

    constructor (firstId: nat)
      ensures out == "" && nextId == firstId
    {
      out := "";
      nextId := firstId;
    }

    method Put(s: string, ghost k: string)
      modifies this`out
      ensures out + k == old(out) + (s + k)
    {
      out := out + s;
    }

    /** print_str */
    method PutStr(s: string, ghost k: string)
      requires IsText(s)
      modifies this`out
      ensures out + k == old(out) + PrintStr(s, k)
    {
      var i := 0;
      var quote := false;
      while i < |s| && !quote
        invariant 0 <= i <= |s|
        invariant !quote ==> forall j :: 0 <= j < i ==> Printable(s[j])
        invariant quote ==> NeedsQuote(s)
      {
        if s[i] <= ' ' || s[i] > '~' { quote := true; }
        i := i + 1;
      }
      if quote {
        PutQuoted(s, k);
      } else {
        Put(s, k);
      }
    }

    /** The part of print_str behind its label use_quote */
    method PutQuoted(s: string, ghost k: string)
      requires IsText(s)
      modifies this`out
      ensures out + k == old(out) + ("\"" + Escape(s, "\"" + k))
    {
      hide EscapeChar, IsText;
      Put("\"", Escape(s, "\"" + k));
      var i := 0;
      EmptyTail(s);
      while i < |s|
        invariant 0 <= i <= |s| && IsText(s[i..])
        invariant out + Escape(s[i..], "\"" + k) == old(out) + ("\"" + Escape(s, "\"" + k))
      {
        assert s[i..][0] == s[i] && s[i..][1..] == s[i + 1..];
        TextTail(s[i..]);
        Put(EscapeChar(s[i]), Escape(s[i + 1..], "\"" + k));
        i := i + 1;
      }
      Put("\"", k);
    }

    method PutDec(v: nat, ghost k: string)
      modifies this`out
      ensures out + k == old(out) + PrintDec(v, k)
    {
      Put(" ", Digits(v, 10) + k);
      Put(Digits(v, 10), k);
    }

    method PutOct6(v: nat, ghost k: string)
      modifies this`out
      ensures out + k == old(out) + PrintOct6(v, k)
    {
      hide Digits;
      Put(Zeros(if |Digits(v, 8)| < 6 then 6 - |Digits(v, 8)| else 0), Digits(v, 8) + k);
      Put(Digits(v, 8), k);
    }

    /** The modification time: the digits of the nanoseconds without the zeros at the end */
    method PutTime(sec: nat, nsec: nat, ghost k: string)
      requires nsec < 1000000000
      modifies this`out
      ensures out + k == old(out) + PrintTime(sec, nsec, k)
    {
      hide PrintDec, Fraction, IsWeight;
      WeightIs();
      if nsec == 0 {
        PutDec(sec, k);
      } else {
        PutDec(sec, "." + (Fraction(nsec, 100000000) + k));
        Put(".", Fraction(nsec, 100000000) + k);
        PutFraction(nsec, k);
      }
    }

    method PutFraction(nsec: nat, ghost k: string)
      requires 0 < nsec < 1000000000 && IsWeight(100000000)
      modifies this`out
      ensures out + k == old(out) + (Fraction(nsec, 100000000) + k)
    {
      hide IsWeight, Fraction;
      var v: nat := nsec;
      ghost var w: nat, m: nat, scale: nat := nsec, 100000000, 1;
      while v != 0
        invariant IsWeight(m) && (w < 10 * m || w == 0) && (w == 0 <==> v == 0)
        invariant w > 0 ==> v == Times(w, scale) && Times(m, scale) == 100000000
        invariant out + (Fraction(w, m) + k) == old(out) + (Fraction(nsec, 100000000) + k)
        decreases m
      {
        ghost var r := w - Times(Quotient(w, m), m);
        FractionStep(w, m, scale, v);
        assert Fraction(w, m) + k == [DigitChar(v / 100000000)] + (Fraction(r, m / 10) + k);
        Put([DigitChar(v / 100000000)], Fraction(r, m / 10) + k);
        v := v % 100000000 * 10;
        w, m, scale := r, m / 10, scale * 10;
      }
      FractionOver(m);
      assert Fraction(w, m) + k == k;
    }

    /** scan_dir, of a directory that holds the given items in this order */
    method ScanDir(items: seq<Item>, ghost k: string)
      requires ItemsOk(items) && NextId(items, nextId) <= LONG
      modifies this
      ensures out + k == old(out) + PrintItems(items, old(nextId), k)
      ensures nextId == NextId(items, old(nextId))
      decreases items
    {
      hide ItemOk, PrintLine;
      var i := 0;
      assert items[0..] == items;
      while i < |items|
        invariant 0 <= i <= |items| && ItemsOk(items[i..])
        invariant NextId(items[i..], nextId) == NextId(items, old(nextId))
        invariant out + PrintItems(items[i..], nextId, k) == old(out) + PrintItems(items, old(nextId), k)
      {
        var it := items[i];
        assert items[i..][0] == it && items[i..][1..] == items[i + 1..];
        ghost var after := IdAfter(it.payload, nextId);
        if it.payload.Dir? {
          ghost var rest := PrintItems(items[i + 1..], NextId(it.payload.items, after), k);
          PutLine(it, PrintItems(it.payload.items, after, rest));
          ScanDir(it.payload.items, rest);
        } else {
          PutLine(it, PrintItems(items[i + 1..], after, k));
        }
        i := i + 1;
      }
      Put(".\n", k);
    }

    /** One line of scan_dir */
    method PutLine(it: Item, ghost k: string)
      requires ItemOk(it)
      modifies this
      ensures out + k == old(out) + PrintLine(it, old(nextId), k)
      ensures nextId == IdAfter(it.payload, old(nextId))
    {
      hide PrintAttributes, PrintStr, PrintTail, NameOk;
      NameIsText(it.name);
      ghost var tail := PrintTail(it.payload, nextId, "\n" + k);
      PutAttributes(it, " " + PrintStr(it.name, tail));
      Put(" ", PrintStr(it.name, tail));
      PutStr(it.name, tail);
      PutTail(it.payload, "\n" + k);
      Put("\n", k);
    }

    method PutAttributes(it: Item, ghost k: string)
      requires it.nsec < 1000000000
      modifies this`out
      ensures out + k == old(out) + PrintAttributes(it, k)
    {
      hide PrintDec, PrintOct6, PrintTime, PrintExtra;
      ghost var k4 := PrintTime(it.sec, it.nsec, k);
      ghost var k3 := PrintExtra(it.payload, k4);
      ghost var k2 := PrintDec(it.gid, k3);
      PutOct6(FileType(it.payload) * 4096 + it.mode, PrintDec(it.uid, k2));
      PutDec(it.uid, k2);
      PutDec(it.gid, k3);
      PutExtra(it.payload, k4);
      PutTime(it.sec, it.nsec, k);
    }

    method PutExtra(p: Payload, ghost k: string)
      modifies this`out
      ensures out + k == old(out) + PrintExtra(p, k)
    {
      hide PrintDec;
      match p {
        case Chr(a, b) => PutDec(a, PrintDec(b, k)); PutDec(b, k);
        case Blk(a, b) => PutDec(a, PrintDec(b, k)); PutDec(b, k);
        case Reg(size, _) => PutDec(size, k);
        case _ =>
      }
    }

    method PutTail(p: Payload, ghost k: string)
      requires PayloadOk(p)
      modifies this
      ensures out + k == old(out) + PrintTail(p, old(nextId), k)
      ensures nextId == IdAfter(p, old(nextId))
    {
      hide PrintStr, Digits, NameOk;
      match p {
        case Lnk(target) =>
          NameIsText(target);
          Put(" ", PrintStr(target, k));
          PutStr(target, k);
        case Reg(size, _) =>
          if size > 0 {
            var id := nextId;
            nextId := nextId + 1;
            Put(" ", Digits(id, 16) + k);
            Put(Digits(id, 16), k);
          }
        case _ =>
      }
    }
  }

  lemma EmptyTail(s: string)
    ensures s[0..] == s
  {
  }

  /** v is a fraction's rest w scaled up; dividing by the scaled weight divides w by m. */
  lemma Scaled(w: nat, m: nat, scale: nat, v: nat, q: nat, r: nat, qm: nat, rs: nat)
    requires qm == q * m && w == qm + r && r < m && v == w * scale && m * scale == 100000000 && rs == r * scale
    ensures v / 100000000 == q && v % 100000000 == rs && scale > 0 && (r == 0 <==> rs == 0)
  {
    var ms := m * scale;
    assert v == q * ms + rs by {
      assert qm * scale == q * ms;
      MulDist(qm, r, scale);
    }
    MulLt(r, m, scale);
    DivUnique(v, 100000000, q, rs);
  }

  /** A step of the digit loop: the loop's variable is what is left of the fraction, scaled up
      so that the next digit has weight 10^8. */
  lemma FractionStep(w: nat, m: nat, scale: nat, v: nat)
    requires IsWeight(m) && 0 < w < 10 * m && v == Times(w, scale) && Times(m, scale) == 100000000
    ensures m > 0 && Quotient(w, m) == v / 100000000 < 10 && Times(Quotient(w, m), m) <= w
    ensures var r := w - Times(Quotient(w, m), m);
            && (r == 0 || r < 10 * (m / 10)) && IsWeight(m / 10)
            && (r == 0 <==> v % 100000000 * 10 == 0)
            && (r > 0 ==> v % 100000000 * 10 == Times(r, scale * 10) && Times(m / 10, scale * 10) == 100000000)
            && Fraction(w, m) == [DigitChar(Quotient(w, m))] + Fraction(r, m / 10)
  {
    hide Quotient, DigitChar;
    WeightSplit(w, m);
    var q := Quotient(w, m);
    var r := w - Times(q, m);
    Scaled(w, m, scale, v, q, r, Times(q, m), Times(r, scale));
    Rescaled(r, scale, m / 10);
  }

  lemma Rescaled(r: nat, scale: nat, t: nat)
    ensures Times(r, scale * 10) == Times(r, scale) * 10 && Times(t, scale * 10) == Times(10 * t, scale)
  {
  }

  lemma FractionOver(m: nat)
    requires IsWeight(m)
    ensures Fraction(0, m) == ""
  {
  }

  // -----------------------------------------------------------------------------------------
  // The parser.  Its cursor is a position p in the text; past the end it reads a NUL.
  // -----------------------------------------------------------------------------------------

  function At(text: string, p: nat): char { if p < |text| then text[p] else '\0' }

  /** The parse left the cursor at q if it left the rest of the text at r. */
  ghost predicate LeftAt(text: string, q: nat, r: string) { q <= |text| && text[q..] == r }

  lemma Advance(text: string, p: nat)
    requires p < |text|
    ensures text[p..] != [] && text[p..][0] == text[p] && text[p..][1..] == text[p + 1..]
  {
  }

  /** skip_line */
  method SkipLineAt(text: string, p: nat) returns (q: nat)
    requires p <= |text| && IsText(text)
    ensures LeftAt(text, q, SkipLine(text[p..]))
  {
    q := p;
    while At(text, q) != '\n' && At(text, q) != '\0'
      invariant p <= q <= |text|
      invariant SkipLine(text[q..]) == SkipLine(text[p..])
      decreases |text| - q
    {
      Advance(text, q);
      q := q + 1;
    }
    if At(text, q) == '\n' {
      Advance(text, q);
      q := q + 1;
    }
  }

  function PrependAll(s: string, r: Option<(string, string)>): Option<(string, string)> {
    match r case None => None case Some((u, rest)) => Some((s + u, rest))
  }

  lemma PrependMore(s: string, c: char, r: Option<(string, string)>)
    ensures PrependAll(s, Prepend(c, r)) == PrependAll(s + [c], r)
  {
    match r
    case None =>
    case Some((u, rest)) => assert s + ([c] + u) == s + [c] + u;
  }

  /** The answer of a name parser: the name and the cursor behind it */
  ghost predicate Answers(text: string, a: Option<(string, nat)>, r: Option<(string, string)>) {
    match r
    case None => a.None?
    case Some((s, rest)) => a.Some? && a.value.0 == s && LeftAt(text, a.value.1, rest)
  }

  lemma DropTwice(text: string, q: nat, n: nat)
    requires q + n <= |text|
    ensures text[q..][n..] == text[q + n..]
  {
  }

  /** ParseQuoted, one character further */
  lemma QuotedStep(t: string, room: nat)
    ensures t == [] || t[0] == '\n' ==> ParseQuoted(t, room) == None
    ensures t != [] && t[0] == '"' ==> ParseQuoted(t, room) == Some(([], t[1..]))
    ensures t != [] && t[0] == '\\' ==>
              var e := Unescape(t[1..]);
              ParseQuoted(t, room) == if e.None? || room == 0 then None
                                      else Prepend(e.value.0, ParseQuoted(t[1..][e.value.1..], room - 1))
    ensures t != [] && t[0] != '\n' && t[0] != '"' && t[0] != '\\' ==>
              ParseQuoted(t, room) == if room == 0 then None else Prepend(t[0], ParseQuoted(t[1..], room - 1))
  {
    hide Unescape;
    if t != [] && t[0] == '\\' {
      var e := Unescape(t[1..]);
      if e.Some? { assert t[1..][e.value.1..] == t[1 + e.value.1..]; }
    }
  }

  /** The quoted branch of parse_fname, from behind the opening quote */
  method ParseQuotedAt(text: string, p: nat, room: nat) returns (a: Option<(string, nat)>)
    requires p <= |text| && IsText(text)
    ensures Answers(text, a, ParseQuoted(text[p..], room))
  {
    hide Unescape, IsText, ParseQuoted;
    var q := p;
    var buf := "";
    PrependNothing(ParseQuoted(text[p..], room));
    while true
      invariant p <= q <= |text| && |buf| <= room
      invariant ParseQuoted(text[p..], room) == PrependAll(buf, ParseQuoted(text[q..], room - |buf|))
      decreases |text| - q
    {
      TextAt(text, q);
      QuotedStep(text[q..], room - |buf|);
      var c := At(text, q);
      if c == '\0' || c == '\n' { return None; }
      Advance(text, q);
      q := q + 1;
      if c == '"' { return Some((buf, q)); }
      if c == '\\' {
        var e := Unescape(text[q..]);
        if e.None? { return None; }
        c := e.value.0;
        DropTwice(text, q, e.value.1);
        q := q + e.value.1;
      }
      if |buf| >= room { return None; }
      PrependMore(buf, c, ParseQuoted(text[q..], room - |buf| - 1));
      buf := buf + [c];
    }
  }

  /** The other branch of parse_fname */
  method ParsePlainAt(text: string, p: nat, room: nat) returns (a: Option<(string, nat)>)
    requires p <= |text| && IsText(text)
    ensures Answers(text, a, ParsePlain(text[p..], room))
  {
    hide IsText;
    var q := p;
    var buf := "";
    PrependNothing(ParsePlain(text[p..], room));
    TextAt(text, q);
    while !IsBlank(At(text, q)) && At(text, q) != '\0' && At(text, q) != '\n'
      invariant p <= q <= |text| && |buf| <= room && (At(text, q) == '\0' <==> q == |text|)
      invariant ParsePlain(text[p..], room) == PrependAll(buf, ParsePlain(text[q..], room - |buf|))
      decreases |text| - q
    {
      Advance(text, q);
      if |buf| >= room { return None; }
      PrependMore(buf, text[q], ParsePlain(text[q + 1..], room - |buf| - 1));
      buf := buf + [text[q]];
      q := q + 1;
      TextAt(text, q);
    }
    return Some((buf, q));
  }

  lemma PrependNothing(r: Option<(string, string)>)
    ensures PrependAll("", r) == r
  {
    match r
    case None =>
    case Some((u, rest)) => assert "" + u == u;
  }

  lemma TextAt(text: string, q: nat)
    requires IsText(text) && q <= |text|
    ensures At(text, q) == '\0' <==> q == |text|
    ensures text[q..] == [] <==> q == |text|
  {
  }

  /** parse_fname */
  method ParseFname(text: string, p: nat, room: nat) returns (a: Option<(string, nat)>)
    requires p <= |text| && IsText(text)
    ensures Answers(text, a, ParseName(text[p..], room))
  {
    hide IsText, ParseQuoted, ParsePlain;
    var q := p;
    while IsBlank(At(text, q))
      invariant p <= q <= |text|
      invariant SkipBlanks(text[q..]) == SkipBlanks(text[p..])
      decreases |text| - q
    {
      Advance(text, q);
      q := q + 1;
    }
    TextAt(text, q);
    if At(text, q) == '\0' { return None; }
    Advance(text, q);
    if At(text, q) == '"' {
      a := ParseQuotedAt(text, q + 1, room);
    } else {
      a := ParsePlainAt(text, q, room);
    }
  }

  /** A number at the cursor: parse_uint32_base or parse_uint64_base */
  method ParseUintAt(text: string, p: nat, base: nat, width: nat) returns (a: Option<(nat, nat)>)
    requires p <= |text| && (base == 0 || 2 <= base <= 16) && width > 0
    ensures match ParseUint(text[p..], base, width)
            case None => a.None?
            case Some((v, rest)) => a.Some? && a.value.0 == v && LeftAt(text, a.value.1, rest) && p < a.value.1
  {
    var r := ParseUint(text[p..], base, width);
    UintSuffix(text[p..], base, width);
    if r.None? { return None; }
    return Some((r.value.0, |text| - |r.value.1|));
  }

  predicate IsSuffix(r: string, t: string) { |r| <= |t| && r == t[|t| - |r|..] }

  lemma SuffixOfSuffix(r: string, s: string, t: string)
    requires IsSuffix(r, s) && IsSuffix(s, t)
    ensures IsSuffix(r, t)
  {
  }

  lemma {:induction false} BlanksSuffix(t: string)
    ensures IsSuffix(SkipBlanks(t), t)
  {
    if t != [] && IsBlank(t[0]) {
      BlanksSuffix(t[1..]);
      SuffixOfSuffix(SkipBlanks(t), t[1..], t);
    }
  }

  lemma {:induction false} SpacesSuffix(t: string)
    ensures IsSuffix(SkipSpaces(t), t)
  {
    if t != [] && IsSpace(t[0]) {
      SpacesSuffix(t[1..]);
      SuffixOfSuffix(SkipSpaces(t), t[1..], t);
    }
  }

  lemma {:induction false} DigitsSuffix(t: string, base: nat, acc: nat)
    ensures IsSuffix(ParseDigits(t, base, acc).1, t)
    decreases |t|
  {
    hide Times, DigitOf;
    if DigitFirst(t, base) {
      DigitsSuffix(t[1..], base, Times(acc, base) + DigitOf(t[0]));
      SuffixOfSuffix(ParseDigits(t, base, acc).1, t[1..], t);
    }
  }

  /** Where strtoull starts to read digits, and in which base */
  lemma StrtoullStart(t: string, base: nat) returns (w: string, b: nat)
    requires base == 0 || 2 <= base <= 16
    ensures IsSuffix(w, SkipSpaces(t)) && (Strtoull(t, base).Some? ==> Strtoull(t, base).value.1 == ParseDigits(w, b, 0).1)
  {
    hide HexPrefix, DigitFirst, ParseDigits, SkipSpaces;
    var s := SkipSpaces(t);
    var u := if s != [] && (s[0] == '-' || s[0] == '+') then s[1..] else s;
    var hex := (base == 0 || base == 16) && HexPrefix(u);
    b := if hex then 16 else if base != 0 then base else if u != [] && u[0] == '0' then 8 else 10;
    PrefixLong(u);
    w := if hex then u[2..] else u;
    SuffixOfSuffix(w, u, s);
  }

  lemma StrtoullSuffix(t: string, base: nat)
    requires base == 0 || 2 <= base <= 16
    ensures var r := Strtoull(t, base); r.Some? ==> IsSuffix(r.value.1, t)
  {
    hide Strtoull, ParseDigits, SkipSpaces, IsSuffix;
    SpacesSuffix(t);
    var w, b := StrtoullStart(t, base);
    SuffixOfSuffix(w, SkipSpaces(t), t);
    DigitsSuffix(w, b, 0);
    SuffixOfSuffix(ParseDigits(w, b, 0).1, w, t);
  }

  lemma PrefixLong(u: string)
    ensures HexPrefix(u) ==> |u| > 2
  {
  }

  lemma UintSuffix(t: string, base: nat, width: nat)
    requires (base == 0 || 2 <= base <= 16) && width > 0
    ensures var r := ParseUint(t, base, width); r.Some? ==> |r.value.1| < |t| && IsSuffix(r.value.1, t)
  {
    hide Strtoull, SkipBlanks;
    BlanksSuffix(t);
    StrtoullSuffix(SkipBlanks(t), base);
    if Strtoull(SkipBlanks(t), base).Some? {
      SuffixOfSuffix(Strtoull(SkipBlanks(t), base).value.1, SkipBlanks(t), t);
    }
  }

  /** parse_time */
  method ParseTimeAt(text: string, p: nat) returns (a: Option<(nat, nat, nat)>)
    requires p <= |text|
    ensures match ParseTime(text[p..])
            case None => a.None?
            case Some((sec, nsec, rest)) => a.Some? && a.value.0 == sec && a.value.1 == nsec && LeftAt(text, a.value.2, rest)
  {
    hide ParseUint, Times;
    var s := ParseUintAt(text, p, 0, WORD);
    if s.None? { return None; }
    var sec, q := s.value.0, s.value.1;
    if At(text, q) != '.' { return Some((sec, 0, q)); }
    Advance(text, q);
    q := q + 1;
    ghost var q0 := q;
    var m: nat, v: nat := 1000000000, 0;
    while '0' <= At(text, q) <= '9'
      invariant q <= |text|
      invariant ParseFraction(text[q0..], 1000000000, 0) == ParseFraction(text[q..], m, v)
      decreases |text| - q
    {
      Advance(text, q);
      m := m / 10;
      v := (v + Times(At(text, q) as int - '0' as int, m)) % WORD;
      q := q + 1;
    }
    return Some((sec, v, q));
  }

  // -----------------------------------------------------------------------------------------
  // Loading
  // -----------------------------------------------------------------------------------------

  ghost predicate ExtraAnswers(text: string, a: Option<(Payload, nat)>, r: Option<(Payload, string)>) {
    match r
    case None => a.None?
    case Some((p, rest)) => a.Some? && a.value.0 == p && LeftAt(text, a.value.1, rest)
  }

  /** The part of filelist_load_rec that depends on the type, before the modification time */
  method ParseExtraAt(text: string, p: nat, ftype: nat) returns (a: Option<(Payload, nat)>)
    requires p <= |text|
    ensures ExtraAnswers(text, a, ParseExtra(ftype, text[p..]))
  {
    hide ParseUint;
    if ftype == FT_CHR || ftype == FT_BLK {
      var major := ParseUintAt(text, p, 0, WORD);
      if major.None? { return None; }
      var minor := ParseUintAt(text, major.value.1, 0, WORD);
      if minor.None? { return None; }
      if ftype == FT_CHR { return Some((Chr(major.value.0, minor.value.0), minor.value.1)); }
      return Some((Blk(major.value.0, minor.value.0), minor.value.1));
    } else if ftype == FT_REG {
      var size := ParseUintAt(text, p, 0, LONG);
      if size.None? { return None; }
      return Some((Reg(size.value.0, 0), size.value.1));
    } else if ftype == FT_DIR {
      return Some((Dir([]), p));
    } else if ftype == FT_LNK {
      return Some((Lnk(""), p));
    }
    return Some((Other(ftype), p));
  }

  /** The part that depends on the type, behind the name */
  method ParseTailAt(text: string, p: nat, payload: Payload) returns (a: Option<(Payload, nat)>)
    requires p <= |text| && IsText(text)
    ensures ExtraAnswers(text, a, ParseTail(payload, text[p..]))
  {
    hide ParseUint, ParseName, IsText;
    if payload.Lnk? {
      var target := ParseFname(text, p, ROOM);
      if target.None? { return None; }
      return Some((Lnk(target.value.0), target.value.1));
    } else if payload.Reg? && payload.size > 0 {
      var id := ParseUintAt(text, p, 16, LONG);
      if id.None? { return None; }
      return Some((Reg(payload.size, id.value.0), id.value.1));
    }
    return Some((payload, p));
  }

  method ParseLineAt(text: string, p: nat) returns (a: Option<(Item, nat)>)
    requires p <= |text| && IsText(text)
    ensures match ParseLine(text[p..])
            case None => a.None?
            case Some((it, rest)) => a.Some? && a.value.0 == it && LeftAt(text, a.value.1, rest) && p < a.value.1
  {
    hide ParseUint, ParseName, ParseTime, ParseExtra, ParseTail, SkipLine, IsText;
    var mode := ParseUintAt(text, p, 8, WORD);
    if mode.None? { return None; }
    var uid := ParseUintAt(text, mode.value.1, 0, WORD);
    if uid.None? { return None; }
    var gid := ParseUintAt(text, uid.value.1, 0, WORD);
    if gid.None? { return None; }
    var extra := ParseExtraAt(text, gid.value.1, mode.value.0 / 4096);
    if extra.None? { return None; }
    var time := ParseTimeAt(text, extra.value.1);
    if time.None? { return None; }
    var name := ParseFname(text, time.value.2, ROOM);
    if name.None? { return None; }
    var tail := ParseTailAt(text, name.value.1, extra.value.0);
    if tail.None? { return None; }
    var q := SkipLineAt(text, tail.value.1);
    return Some((Item(mode.value.0 % 4096, uid.value.0, gid.value.0, time.value.0, time.value.1, name.value.0, tail.value.0), q));
  }

  function AppendItems(done: seq<Item>, r: Option<(seq<Item>, string)>): Option<(seq<Item>, string)> {
    match r case None => None case Some((items, rest)) => Some((done + items, rest))
  }

  lemma AppendMore(done: seq<Item>, it: Item, r: Option<(seq<Item>, string)>)
    ensures AppendItems(done + [it], r) ==
            match r case None => None case Some((items, rest)) => AppendItems(done, Some(([it] + items, rest)))
  {
    match r
    case None =>
    case Some((items, rest)) => assert done + [it] + items == done + ([it] + items);
  }

  lemma AppendNothing(r: Option<(seq<Item>, string)>)
    ensures AppendItems([], r) == r
  {
    match r
    case None =>
    case Some((items, rest)) => assert [] + items == items;
  }

  /** filelist_load_rec: the items of the directory whose listing starts at the cursor */
  method FilelistLoadRec(text: string, p: nat) returns (a: Option<(seq<Item>, nat)>)
    requires p <= |text| && IsText(text)
    ensures match ParseItems(text[p..])
            case None => a.None?
            case Some((items, rest)) => a.Some? && a.value.0 == items && LeftAt(text, a.value.1, rest)
    decreases |text| - p
  {
    hide ParseLine, SkipLine, IsText;
    var q := p;
    var items: seq<Item> := [];
    AppendNothing(ParseItems(text[p..]));
    while true
      invariant p <= q <= |text|
      invariant ParseItems(text[p..]) == AppendItems(items, ParseItems(text[q..]))
      decreases |text| - q
    {
      TextAt(text, q);
      if At(text, q) == '\0' { return Some((items, q)); }
      Advance(text, q);
      if At(text, q) == '#' {
        q := SkipLineAt(text, q);
        continue;
      }
      if At(text, q) == '.' {
        q := SkipLineAt(text, q + 1);
        return Some((items, q));
      }
      var line := ParseLineAt(text, q);
      if line.None? { return None; }
      var it := line.value.0;
      q := line.value.1;
      if it.payload.Dir? {
        var inner := FilelistLoadRec(text, q);
        if inner.None? { return None; }
        it := it.(payload := Dir(inner.value.0));
        q := inner.value.1;
      }
      AppendMore(items, it, ParseItems(text[q..]));
      items := items + [it];
    }
  }

  /** Loading what has been printed of a tree gives the tree back, file ids given out in order. */
  method PrintAndLoad(items: seq<Item>, firstId: nat) returns (a: Option<(seq<Item>, nat)>)
    requires ItemsOk(items) && NextId(items, firstId) <= LONG
    ensures a.Some? && a.value.0 == Numbered(items, firstId)
  {
    hide ParseItems, PrintItems, IsText, ItemsOk, Numbered;
    var s := new ScanState(firstId);
    s.ScanDir(items, "");
    assert s.out + "" == s.out && "" + PrintItems(items, firstId, "") == PrintItems(items, firstId, "");
    ListingIsText(items, firstId, "") by { NothingIsText(); }
    RoundTrip(items, firstId, "");
    assert s.out[0..] == s.out;
    a := FilelistLoadRec(s.out, 0);
  }

  lemma NothingIsText()
    ensures IsText("")
  {
  }
}
