/** File lists: the listing of a directory tree that scan_dir of build_filelist.c prints, and
    the tree that filelist_load_rec of fs_net.c builds from it. */
module FileList {
  import opened Arith
  import opened Wrappers
  import opened FileListText

  /** What an inode has besides its attributes, by its type. */
  datatype Payload =
    | Chr(chrMajor: nat, chrMinor: nat)
    | Dir(items: seq<Item>)
    | Blk(blkMajor: nat, blkMinor: nat)
    | Reg(size: nat, id: nat)
    | Lnk(target: string)
    | Other(ftype: nat)

  /** A directory entry and the inode it names. */
  datatype Item = Item(mode: nat, uid: nat, gid: nat, sec: nat, nsec: nat, name: string, payload: Payload)

  const FT_CHR := 2
  const FT_DIR := 4
  const FT_BLK := 6
  const FT_REG := 8
  const FT_LNK := 10

  function FileType(p: Payload): nat {
    match p
    case Chr(_, _) => FT_CHR
    case Dir(_) => FT_DIR
    case Blk(_, _) => FT_BLK
    case Reg(_, _) => FT_REG
    case Lnk(_) => FT_LNK
    case Other(t) => t
  }

  // -----------------------------------------------------------------------------------------
  // What can be listed
  // -----------------------------------------------------------------------------------------

  /** A name or link target that NameRoundTrip lets through */
  predicate NameOk(s: string) { IsText(s) && |s| <= ROOM && (s != "" && s[0] == '"' ==> NeedsQuote(s)) }

  predicate PayloadOk(p: Payload) {
    match p
    case Chr(a, b) => a < WORD && b < WORD
    case Blk(a, b) => a < WORD && b < WORD
    case Reg(size, _) => size < LONG
    case Lnk(target) => NameOk(target)
    case Other(t) => t < 16 && t != FT_CHR && t != FT_DIR && t != FT_BLK && t != FT_REG && t != FT_LNK
    case Dir(_) => true
  }

  predicate ItemOk(it: Item) {
    && it.mode < 4096 && it.uid < WORD && it.gid < WORD && it.sec < WORD && it.nsec < 1000000000
    && NameOk(it.name) && it.name != "" && PayloadOk(it.payload)
  }

  predicate ItemsOk(items: seq<Item>)
    decreases items
  {
    items != [] ==>
      && ItemOk(items[0])
      && (items[0].payload.Dir? ==> ItemsOk(items[0].payload.items))
      && ItemsOk(items[1..])
  }

  // -----------------------------------------------------------------------------------------
  // The printed text
  // -----------------------------------------------------------------------------------------

  function PrintExtra(p: Payload, k: string): string {
    match p
    case Chr(a, b) => PrintDec(a, PrintDec(b, k))
    case Blk(a, b) => PrintDec(a, PrintDec(b, k))
    case Reg(size, _) => PrintDec(size, k)
    case _ => k
  }

  function PrintTail(p: Payload, id: nat, k: string): string
    requires PayloadOk(p)
  {
    match p
    case Lnk(target) => " " + PrintStr(target, k)
    case Reg(size, _) => if size > 0 then PrintHex(id, k) else k
    case _ => k
  }

  /** A line up to the name */
  function PrintAttributes(it: Item, k: string): string
    requires it.nsec < 1000000000
  {
    PrintOct6(FileType(it.payload) * 4096 + it.mode,
      PrintDec(it.uid, PrintDec(it.gid, PrintExtra(it.payload, PrintTime(it.sec, it.nsec, k)))))
  }

  /** The line of one item, file id next to be given out, then k */
  function PrintLine(it: Item, id: nat, k: string): string
    requires ItemOk(it)
  {
    PrintAttributes(it, " " + PrintStr(it.name, PrintTail(it.payload, id, "\n" + k)))
  }

  /** The file id to be given out after an item: each file that is not empty takes one. */
  function IdAfter(p: Payload, id: nat): nat { if p.Reg? && p.size > 0 then id + 1 else id }

  function NextId(items: seq<Item>, id: nat): (r: nat)
    ensures r >= id
    decreases items
  {
    if items == [] then id
    else
      var after := IdAfter(items[0].payload, id);
      NextId(items[1..], if items[0].payload.Dir? then NextId(items[0].payload.items, after) else after)
  }

  /** The listing of a directory, then k */
  function PrintItems(items: seq<Item>, id: nat, k: string): string
    requires ItemsOk(items)
    decreases items
  {
    if items == [] then ".\n" + k
    else
      var it := items[0];
      var after := IdAfter(it.payload, id);
      PrintLine(it, id,
        if it.payload.Dir? then
          PrintItems(it.payload.items, after, PrintItems(items[1..], NextId(it.payload.items, after), k))
        else PrintItems(items[1..], after, k))
  }

  // -----------------------------------------------------------------------------------------
  // Parsing
  // -----------------------------------------------------------------------------------------

  function SkipLine(t: string): (r: string)
    ensures |r| <= |t| && (t != [] ==> |r| < |t|)
  {
    if t == [] then [] else if t[0] == '\n' then t[1..] else SkipLine(t[1..])
  }

  function ParseExtra(ftype: nat, t: string): (r: Option<(Payload, string)>)
    ensures r.Some? ==> |r.value.1| <= |t| && (r.value.0.Dir? ==> r.value.0 == Dir([]))
  {
    if ftype == FT_CHR || ftype == FT_BLK then
      var (a, r1) :- ParseUint(t, 0, WORD);
      var (b, r2) :- ParseUint(r1, 0, WORD);
      Some((if ftype == FT_CHR then Chr(a, b) else Blk(a, b), r2))
    else if ftype == FT_REG then
      var (size, r1) :- ParseUint(t, 0, LONG);
      Some((Reg(size, 0), r1))
    else if ftype == FT_DIR then Some((Dir([]), t))
    else if ftype == FT_LNK then Some((Lnk(""), t))
    else Some((Other(ftype), t))
  }

  function ParseTail(p: Payload, t: string): (r: Option<(Payload, string)>)
    ensures r.Some? ==> |r.value.1| <= |t| && r.value.0.Dir? == p.Dir? && (p.Dir? ==> r.value.0 == p)
  {
    match p
    case Lnk(_) =>
      var (target, r1) :- ParseName(t, ROOM);
      Some((Lnk(target), r1))
    case Reg(size, _) =>
      if size > 0 then
        var (id, r1) :- ParseUint(t, 16, LONG);
        Some((Reg(size, id), r1))
      else Some((p, t))
    case _ => Some((p, t))
  }

  /** One line: an item, a directory without what it holds. */
  function ParseLine(t: string): (r: Option<(Item, string)>)
    ensures r.Some? ==> |r.value.1| < |t|
  {
    var (m, r1) :- ParseUint(t, 8, WORD);
    var (uid, r2) :- ParseUint(r1, 0, WORD);
    var (gid, r3) :- ParseUint(r2, 0, WORD);
    var (p0, r4) :- ParseExtra(m / 4096, r3);
    var (sec, nsec, r5) :- ParseTime(r4);
    var (name, r6) :- ParseName(r5, ROOM);
    var (p, r7) :- ParseTail(p0, r6);
    Some((Item(m % 4096, uid, gid, sec, nsec, name, p), SkipLine(r7)))
  }

  /** filelist_load_rec: the items of a directory and the text after it, or none on an error. */
  function ParseItems(t: string): (r: Option<(seq<Item>, string)>)
    ensures r.Some? ==> |r.value.1| <= |t|
    decreases |t|
  {
    if t == [] then Some(([], t))
    else if t[0] == '#' then ParseItems(SkipLine(t))
    else if t[0] == '.' then Some(([], SkipLine(t[1..])))
    else
      var (it, r1) :- ParseLine(t);
      if it.payload.Dir? then
        var (inner, r2) :- ParseItems(r1);
        var (others, r3) :- ParseItems(r2);
        Some(([it.(payload := Dir(inner))] + others, r3))
      else
        var (others, r2) :- ParseItems(r1);
        Some(([it] + others, r2))
  }

  // -----------------------------------------------------------------------------------------
  // The round trip
  // -----------------------------------------------------------------------------------------

  /** An item as its line tells it: with its file id, and a directory still empty. */
  function Listed(it: Item, id: nat): Item {
    match it.payload
    case Dir(_) => it.(payload := Dir([]))
    case Reg(size, _) => it.(payload := Reg(size, if size > 0 then id else 0))
    case _ => it
  }

  /** The tree with its files' ids given out in order. */
  function Numbered(items: seq<Item>, id: nat): seq<Item>
    decreases items
  {
    if items == [] then []
    else
      var it := items[0];
      var after := IdAfter(it.payload, id);
      if it.payload.Dir? then
        [it.(payload := Dir(Numbered(it.payload.items, after)))] + Numbered(items[1..], NextId(it.payload.items, after))
      else [Listed(it, id)] + Numbered(items[1..], after)
  }

  lemma ExtraParsed(p: Payload, k: string)
    requires PayloadOk(p) && Separates(k)
    ensures ParseExtra(FileType(p), PrintExtra(p, k)) ==
            Some((match p case Dir(_) => Dir([]) case Reg(size, _) => Reg(size, 0) case Lnk(_) => Lnk("") case _ => p, k))
    ensures Separates(PrintExtra(p, k))
  {
    hide ParseUint, Digits;
    match p
    case Chr(a, b) => DecParsed(a, PrintDec(b, k), WORD); DecParsed(b, k, WORD);
    case Blk(a, b) => DecParsed(a, PrintDec(b, k), WORD); DecParsed(b, k, WORD);
    case Reg(size, _) => DecParsed(size, k, LONG);
    case _ =>
  }

  lemma TailParsed(p: Payload, q: Payload, id: nat, k: string)
    requires PayloadOk(p) && (p.Reg? && p.size > 0 ==> id < LONG)
    requires q == match p case Dir(_) => Dir([]) case Reg(size, _) => Reg(size, 0) case Lnk(_) => Lnk("") case _ => p
    ensures var t := PrintTail(p, id, "\n" + k);
            && t != [] && (t[0] == ' ' || t[0] == '\n')
            && ParseTail(q, t) == Some((match p case Dir(_) => q case Reg(size, _) => Reg(size, if size > 0 then id else 0) case _ => p,
                                        "\n" + k))
  {
    hide ParseUint, ParseName, Digits, PrintStr;
    match p
    case Lnk(target) => NameRoundTrip(target, "\n" + k, ROOM);
    case Reg(size, _) => if size > 0 { HexParsed(id, "\n" + k); }
    case _ =>
  }

  lemma LineSkipped(k: string)
    ensures SkipLine("\n" + k) == k
  {
    assert ("\n" + k)[1..] == k;
  }

  /** A printed line is read back as its item. */
  lemma LineParsed(it: Item, id: nat, k: string)
    requires ItemOk(it) && (it.payload.Reg? && it.payload.size > 0 ==> id < LONG)
    ensures ParseLine(PrintLine(it, id, k)) == Some((Listed(it, id), k))
    ensures var t := PrintLine(it, id, k); t != [] && t[0] != '#' && t[0] != '.'
  {
    hide ParseUint, ParseName, ParseTime, ParseTail, ParseExtra, PrintOct6, PrintDec, PrintTime, PrintExtra, PrintTail,
      PrintStr, SkipLine, NameOk;
    var p := it.payload;
    var q := match p case Dir(_) => Dir([]) case Reg(size, _) => Reg(size, 0) case Lnk(_) => Lnk("") case _ => p;
    TailParsed(p, q, id, k);
    LineSkipped(k);
    var t6 := PrintTail(p, id, "\n" + k);
    NameIn(it.name, t6);
    var t5 := " " + PrintStr(it.name, t6);
    TimeParsed(it.sec, it.nsec, t5);
    var t4 := PrintTime(it.sec, it.nsec, t5);
    TimeSeparates(it.sec, it.nsec, t5);
    ExtraParsed(p, t4);
    var t3 := PrintExtra(p, t4);
    DecParsed(it.gid, t3, WORD);
    DecSeparates(it.gid, t3);
    DecParsed(it.uid, PrintDec(it.gid, t3), WORD);
    DecSeparates(it.uid, PrintDec(it.gid, t3));
    var m := FileType(p) * 4096 + it.mode;
    TypeFits(p);
    Oct6Parsed(m, PrintDec(it.uid, PrintDec(it.gid, t3)));
    assert m / 4096 == FileType(p) && m % 4096 == it.mode;
  }

  lemma TypeFits(p: Payload)
    requires PayloadOk(p)
    ensures FileType(p) < 16
  {
  }

  lemma NameIn(s: string, k: string)
    requires NameOk(s) && s != "" && k != [] && (k[0] == ' ' || k[0] == '\n')
    ensures IsText(s) && ParseName(" " + PrintStr(s, k), ROOM) == Some((s, k))
  {
    NameRoundTrip(s, k, ROOM);
  }

  lemma DecSeparates(v: nat, k: string)
    ensures Separates(PrintDec(v, k))
  {
  }

  lemma TimeSeparates(sec: nat, nsec: nat, k: string)
    requires nsec < 1000000000
    ensures Separates(PrintTime(sec, nsec, k))
  {
  }

  /** Parsing the listing of a tree rebuilds the tree. */
  lemma {:induction false} RoundTrip(items: seq<Item>, id: nat, k: string)
    requires ItemsOk(items) && NextId(items, id) <= LONG
    ensures ParseItems(PrintItems(items, id, k)) == Some((Numbered(items, id), k))
    decreases items
  {
    hide ParseLine, PrintLine, ItemOk;
    if items == [] {
      assert (".\n" + k)[1..] == "\n" + k;
      LineSkipped(k);
    } else {
      var it := items[0];
      var after := IdAfter(it.payload, id);
      if it.payload.Dir? {
        var next := NextId(it.payload.items, after);
        var rest := PrintItems(items[1..], next, k);
        RoundTrip(it.payload.items, after, rest);
        RoundTrip(items[1..], next, k);
        LineParsed(it, id, PrintItems(it.payload.items, after, rest));
      } else {
        RoundTrip(items[1..], after, k);
        LineParsed(it, id, PrintItems(items[1..], after, k));
      }
    }
  }

  // -----------------------------------------------------------------------------------------
  // What is printed is a text: no NUL ends it early
  // -----------------------------------------------------------------------------------------

  lemma Joined(s: string, k: string)
    requires IsText(s) && IsText(k)
    ensures IsText(s + k)
  {
  }

  lemma DigitIsText(d: nat)
    requires d < 16
    ensures IsText([DigitChar(d)])
  {
  }

  lemma {:induction false} DigitsAreText(v: nat, base: nat)
    requires 2 <= base <= 16
    ensures IsText(Digits(v, base))
    decreases v
  {
    hide DigitChar, IsText, Quotient, Times;
    if v < base {
      DigitIsText(v);
    } else {
      QuotientSmaller(v, base);
      DigitsAreText(Quotient(v, base), base);
      DigitIsText(v - Times(Quotient(v, base), base));
      Joined(Digits(Quotient(v, base), base), [DigitChar(v - Times(Quotient(v, base), base))]);
    }
  }

  lemma {:induction false} ZerosAreText(n: nat)
    ensures IsText(Zeros(n))
  {
    if n > 0 { ZerosAreText(n - 1); Joined("0", Zeros(n - 1)); }
  }

  lemma {:induction false} FractionIsText(w: nat, m: nat)
    requires IsWeight(m) && (w < 10 * m || w == 0)
    ensures IsText(Fraction(w, m))
    decreases m
  {
    hide DigitChar, Quotient, Times, IsWeight;
    if w != 0 {
      WeightSplit(w, m);
      var d := Quotient(w, m);
      DigitIsText(d);
      WeightTenth(m);
      if m > 1 { FractionIsText(w - Times(d, m), m / 10); }
      Joined([DigitChar(d)], Fraction(w - Times(d, m), m / 10));
    }
  }

  lemma WeightTenth(m: nat)
    requires IsWeight(m)
    ensures IsWeight(m / 10)
  {
  }

  lemma {:induction false} EscapeIsText(s: string, k: string)
    requires IsText(s) && IsText(k)
    ensures IsText(Escape(s, k))
  {
    hide EscapeChar, IsText;
    if s != [] {
      TextTail(s);
      EscapeIsText(s[1..], k);
      EscapedIsText(s[0]);
      Joined(EscapeChar(s[0]), Escape(s[1..], k));
    }
  }

  lemma EscapedIsText(c: char)
    requires 0 < c as int < 256
    ensures IsText(EscapeChar(c))
  {
    if c < ' ' || c as int == 127 {
      DigitIsText(c as int / 16);
      DigitIsText(c as int % 16);
    }
  }

  lemma StrIsText(s: string, k: string)
    requires IsText(s) && IsText(k)
    ensures IsText(PrintStr(s, k)) && IsText(" " + PrintStr(s, k))
  {
    hide Escape, NeedsQuote;
    EscapeIsText(s, "\"" + k);
    Joined(s, k);
    Joined("\"", Escape(s, "\"" + k));
  }

  lemma NumberIsText(v: nat, k: string)
    requires IsText(k)
    ensures IsText(PrintDec(v, k)) && IsText(PrintHex(v, k)) && IsText(PrintOct6(v, k))
  {
    hide IsText, Digits, Zeros;
    DigitsAreText(v, 10);
    DigitsAreText(v, 16);
    DigitsAreText(v, 8);
    ZerosAreText(if |Digits(v, 8)| < 6 then 6 - |Digits(v, 8)| else 0);
    assert IsText(" ") by { SpaceIsText(); }
    Joined(Digits(v, 10), k);
    Joined(Digits(v, 16), k);
    Joined(Digits(v, 8), k);
    Joined(Zeros(if |Digits(v, 8)| < 6 then 6 - |Digits(v, 8)| else 0), Digits(v, 8) + k);
    Joined(" ", Digits(v, 10) + k);
    Joined(" ", Digits(v, 16) + k);
  }

  lemma SpaceIsText()
    ensures IsText(" ") && IsText("\n") && IsText(".") && IsText(".\n")
  {
  }

  lemma NameIsText(s: string)
    requires NameOk(s)
    ensures IsText(s)
  {
  }

  lemma LineIsText(it: Item, id: nat, k: string)
    requires ItemOk(it) && IsText(k)
    ensures IsText(PrintLine(it, id, k))
  {
    hide IsText, PrintStr, PrintDec, PrintHex, PrintOct6, Fraction, IsWeight;
    SpaceIsText();
    Joined("\n", k);
    NameIsText(it.name);
    var tail := PrintTail(it.payload, id, "\n" + k);
    TailIsText(it.payload, id, "\n" + k);
    StrIsText(it.name, tail);
    var named := " " + PrintStr(it.name, tail);
    WeightIs();
    FractionIsText(it.nsec, 100000000);
    Joined(Fraction(it.nsec, 100000000), named);
    Joined(".", Fraction(it.nsec, 100000000) + named);
    NumberIsText(it.sec, named);
    NumberIsText(it.sec, "." + (Fraction(it.nsec, 100000000) + named));
    var timed := PrintTime(it.sec, it.nsec, named);
    ExtraIsText(it.payload, timed);
    NumberIsText(it.gid, PrintExtra(it.payload, timed));
    NumberIsText(it.uid, PrintDec(it.gid, PrintExtra(it.payload, timed)));
    NumberIsText(FileType(it.payload) * 4096 + it.mode, PrintDec(it.uid, PrintDec(it.gid, PrintExtra(it.payload, timed))));
  }

  lemma TailIsText(p: Payload, id: nat, k: string)
    requires PayloadOk(p) && IsText(k)
    ensures IsText(PrintTail(p, id, k))
  {
    hide IsText, PrintStr, PrintHex, NameOk;
    NumberIsText(id, k);
    if p.Lnk? {
      NameIsText(p.target);
      StrIsText(p.target, k);
    }
  }

  lemma ExtraIsText(p: Payload, k: string)
    requires IsText(k)
    ensures IsText(PrintExtra(p, k))
  {
    hide IsText, PrintDec;
    match p
    case Chr(a, b) => NumberIsText(b, k); NumberIsText(a, PrintDec(b, k));
    case Blk(a, b) => NumberIsText(b, k); NumberIsText(a, PrintDec(b, k));
    case Reg(size, _) => NumberIsText(size, k);
    case _ =>
  }

  lemma {:induction false} ListingIsText(items: seq<Item>, id: nat, k: string)
    requires ItemsOk(items) && IsText(k)
    ensures IsText(PrintItems(items, id, k))
    decreases items
  {
    hide IsText, PrintLine, ItemOk;
    if items == [] {
      SpaceIsText();
      Joined(".\n", k);
    } else {
      var it := items[0];
      var after := IdAfter(it.payload, id);
      if it.payload.Dir? {
        var next := NextId(it.payload.items, after);
        ListingIsText(items[1..], next, k);
        ListingIsText(it.payload.items, after, PrintItems(items[1..], next, k));
        LineIsText(it, id, PrintItems(it.payload.items, after, PrintItems(items[1..], next, k)));
      } else {
        ListingIsText(items[1..], after, k);
        LineIsText(it, id, PrintItems(items[1..], after, k));
      }
    }
  }
}
