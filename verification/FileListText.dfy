/** The text of a file list below its lines: numbers, times and quoted names, as print_str of
    build_filelist.c writes them and the parse functions of fs_utils.c read them.

    A text is a C string: its end stands for the terminating NUL.  A parse function takes the
    text from the cursor on and returns what it read and the text from the new cursor on.
    Printing is in continuation form: what is printed, followed by a given rest. */
module FileListText {
  import opened Arith
  import opened Wrappers

  const WORD := 0x1_0000_0000
  const LONG := 0x1_0000_0000_0000_0000

  /** The longest name a buffer of 1024 characters holds. */
  const ROOM := 1023

  predicate IsText(s: string) { forall k :: 0 <= k < |s| ==> 0 < s[k] as int < 256 }

  // -----------------------------------------------------------------------------------------
  // Digits
  // -----------------------------------------------------------------------------------------

  function DigitChar(d: nat): char
    requires d < 16
  {
    if d < 10 then ('0' as int + d) as char else ('a' as int + d - 10) as char
  }

  /** from_hex */
  function DigitOf(c: char): int {
    if '0' <= c <= '9' then c as int - '0' as int
    else if 'A' <= c <= 'F' then c as int - 'A' as int + 10
    else if 'a' <= c <= 'f' then c as int - 'a' as int + 10
    else -1
  }

  lemma DigitRead(d: nat)
    requires d < 16
    ensures DigitOf(DigitChar(d)) == d && (d > 0 ==> DigitChar(d) != '0')
  {
  }

  /** The digits of v, as printf writes a number. */
  function Digits(v: nat, base: nat): (s: string)
    requires 2 <= base <= 16
    ensures s != ""
  {
    if v < base then [DigitChar(v)]
    else
      QuotientSmaller(v, base);
      Digits(Quotient(v, base), base) + [DigitChar(v - Times(Quotient(v, base), base))]
  }

  function Times(a: nat, b: nat): nat { a * b }

  lemma Divided(v: nat, base: nat)
    requires base > 0
    ensures v == Times(Quotient(v, base), base) + v % base && 0 <= v % base < base
  {
  }

  lemma QuotientBetween(v: nat, base: nat, q: nat, r: nat, qb: nat)
    requires 2 <= base <= v && qb == q * base && v == qb + r && r < base
    ensures 0 < q < v
  {
    MulLe(2, base, q);
  }

  lemma QuotientSmaller(v: nat, base: nat)
    requires 2 <= base <= v
    ensures 0 < Quotient(v, base) < v && Times(Quotient(v, base), base) <= v < Times(Quotient(v, base), base) + base
  {
    hide Quotient;
    Divided(v, base);
    QuotientBetween(v, base, Quotient(v, base), v % base, Times(Quotient(v, base), base));
  }

  predicate DigitFirst(t: string, base: nat) { t != [] && 0 <= DigitOf(t[0]) < base }

  /** The digits at the cursor, the number acc before them */
  function ParseDigits(t: string, base: nat, acc: nat): (r: (nat, string))
    ensures |r.1| <= |t| && (DigitFirst(t, base) ==> |r.1| < |t|)
    decreases |t|
  {
    if DigitFirst(t, base) then ParseDigits(t[1..], base, Times(acc, base) + DigitOf(t[0])) else (acc, t)
  }

  lemma OneDigitParsed(d: nat, base: nat, acc: nat, rest: string)
    requires d < base <= 16
    ensures ParseDigits([DigitChar(d)] + rest, base, acc) == ParseDigits(rest, base, Times(acc, base) + d)
  {
    hide DigitOf, DigitChar, Times;
    DigitRead(d);
    assert ([DigitChar(d)] + rest)[1..] == rest;
  }

  lemma {:induction false} DigitsParsed(v: nat, base: nat, rest: string)
    requires 2 <= base <= 16
    ensures ParseDigits(Digits(v, base) + rest, base, 0) == ParseDigits(rest, base, v)
    decreases v
  {
    hide DigitOf, DigitChar, Times, Quotient, ParseDigits;
    if v < base {
      OneDigitParsed(v, base, 0, rest);
      assert Times(0, base) == 0 by { TimesZero(base); }
    } else {
      QuotientSmaller(v, base);
      var q := Quotient(v, base);
      var d := v - Times(q, base);
      DigitsParsed(q, base, [DigitChar(d)] + rest);
      assert Digits(v, base) + rest == Digits(q, base) + ([DigitChar(d)] + rest);
      OneDigitParsed(d, base, q, rest);
    }
  }

  lemma TimesZero(b: nat)
    ensures Times(0, b) == 0
  {
  }

  /** The first digit: a zero only of zero itself */
  lemma {:induction false} FirstDigit(v: nat, base: nat)
    requires 2 <= base <= 16
    ensures 0 <= DigitOf(Digits(v, base)[0]) < base && (v > 0 ==> Digits(v, base)[0] != '0')
    decreases v
  {
    hide DigitOf, DigitChar, Times, Quotient;
    if v < base {
      DigitRead(v);
    } else {
      QuotientSmaller(v, base);
      FirstDigit(Quotient(v, base), base);
    }
  }

  function Zeros(n: nat): string { if n == 0 then "" else "0" + Zeros(n - 1) }

  lemma {:induction false} ZerosParsed(n: nat, base: nat, rest: string)
    requires 2 <= base <= 16
    ensures ParseDigits(Zeros(n) + rest, base, 0) == ParseDigits(rest, base, 0)
  {
    hide Times;
    TimesZero(base);
    if n == 0 {
      assert Zeros(n) + rest == rest;
    } else {
      assert (Zeros(n) + rest)[1..] == Zeros(n - 1) + rest;
      ZerosParsed(n - 1, base, rest);
    }
  }

  // -----------------------------------------------------------------------------------------
  // Numbers
  // -----------------------------------------------------------------------------------------

  /** isspace_nolf */
  predicate IsBlank(c: char) { c == ' ' || c == '\t' }

  predicate IsSpace(c: char) { c == ' ' || 9 <= c as int <= 13 }

  function SkipBlanks(t: string): (r: string)
    ensures |r| <= |t|
  {
    if t != [] && IsBlank(t[0]) then SkipBlanks(t[1..]) else t
  }

  function SkipSpaces(t: string): (r: string)
    ensures |r| <= |t|
  {
    if t != [] && IsSpace(t[0]) then SkipSpaces(t[1..]) else t
  }

  /** A leading "0x" that hexadecimal digits follow */
  predicate HexPrefix(t: string) { |t| > 2 && t[0] == '0' && (t[1] == 'x' || t[1] == 'X') && DigitOf(t[2]) >= 0 }

  /** The C library's strtoull (a long is taken to have 64 bits): no value without a digit. */
  function Strtoull(t: string, base: nat): (r: Option<(nat, string)>)
    requires base == 0 || 2 <= base <= 16
    ensures r.Some? ==> |r.value.1| < |t| && r.value.0 < LONG
  {
    var s := SkipSpaces(t);
    var negative := s != [] && s[0] == '-';
    var u := if s != [] && (s[0] == '-' || s[0] == '+') then s[1..] else s;
    var hex := (base == 0 || base == 16) && HexPrefix(u);
    var b := if hex then 16 else if base != 0 then base else if u != [] && u[0] == '0' then 8 else 10;
    var w := if hex then u[2..] else u;
    if !DigitFirst(w, b) then None
    else
      var (v, rest) := ParseDigits(w, b, 0);
      Some((if v >= LONG then LONG - 1 else if negative && v > 0 then LONG - v else v, rest))
  }

  /** parse_uint32_base and parse_uint64_base */
  function ParseUint(t: string, base: nat, width: nat): (r: Option<(nat, string)>)
    requires (base == 0 || 2 <= base <= 16) && width > 0
    ensures r.Some? ==> |r.value.1| < |t| && r.value.0 < width
  {
    match Strtoull(SkipBlanks(t), base)
    case None => None
    case Some((v, rest)) => Some((v % width, rest))
  }

  /** What may follow a printed number */
  predicate Separates(k: string) { k != [] && (k[0] == ' ' || k[0] == '.' || k[0] == '\n') }

  /** printf " %u" and " %llu" */
  function PrintDec(v: nat, k: string): string { " " + (Digits(v, 10) + k) }

  /** printf "%06o" */
  function PrintOct6(v: nat, k: string): string { Zeros(if |Digits(v, 8)| < 6 then 6 - |Digits(v, 8)| else 0) + (Digits(v, 8) + k) }

  /** printf " %llx" */
  function PrintHex(v: nat, k: string): string { " " + (Digits(v, 16) + k) }

  /** A digit is neither a space nor a sign. */
  lemma DigitIsPlain(c: char)
    requires DigitOf(c) >= 0
    ensures !IsSpace(c) && !IsBlank(c) && c != '-' && c != '+' && c != 'x' && c != 'X'
  {
  }

  lemma SeparatorIsPlain(k: string, base: nat)
    requires Separates(k)
    ensures !DigitFirst(k, base) && k[0] != 'x' && k[0] != 'X'
  {
  }

  function BaseAt(t: string, base: nat): (b: nat)
    requires t != [] && (base == 0 || 2 <= base <= 16)
    ensures 2 <= b <= 16
  {
    if base != 0 then base else if t[0] == '0' then 8 else 10
  }

  lemma PlainConverted(t: string, base: nat)
    requires (base == 0 || 2 <= base <= 16) && t != [] && DigitOf(t[0]) >= 0 && (base == 8 || !HexPrefix(t))
    requires DigitFirst(t, BaseAt(t, base)) && ParseDigits(t, BaseAt(t, base), 0).0 < LONG
    ensures Strtoull(t, base) == Some(ParseDigits(t, BaseAt(t, base), 0))
  {
    hide ParseDigits, HexPrefix, DigitOf, DigitFirst;
    DigitIsPlain(t[0]);
    assert SkipSpaces(t) == t;
  }

  /** A text that starts with a digit and has no prefix "0x" is read digit by digit. */
  lemma PlainParsed(t: string, base: nat, width: nat)
    requires (base == 0 || 2 <= base <= 16) && t != [] && DigitOf(t[0]) >= 0 && (base == 8 || !HexPrefix(t))
    requires DigitFirst(t, BaseAt(t, base)) && ParseDigits(t, BaseAt(t, base), 0).0 < width <= LONG
    ensures ParseUint(t, base, width) == Some(ParseDigits(t, BaseAt(t, base), 0))
    ensures ParseUint(" " + t, base, width) == Some(ParseDigits(t, BaseAt(t, base), 0))
  {
    hide *;
    PlainConverted(t, base);
    DigitIsPlain(t[0]);
    BlankSkipped(t);
    UintIs(t, base, width, ParseDigits(t, BaseAt(t, base), 0));
    UintIs(" " + t, base, width, ParseDigits(t, BaseAt(t, base), 0));
  }

  lemma BlankSkipped(t: string)
    requires t != [] && !IsBlank(t[0])
    ensures SkipBlanks(t) == t && SkipBlanks(" " + t) == t
  {
    assert (" " + t)[1..] == t;
  }

  lemma UintIs(t: string, base: nat, width: nat, r: (nat, string))
    requires (base == 0 || 2 <= base <= 16) && Strtoull(SkipBlanks(t), base) == Some(r) && r.0 < width
    ensures ParseUint(t, base, width) == Some(r)
  {
    hide Strtoull, SkipBlanks;
    DivUnique(r.0, width, 0, r.0);
  }

  lemma DecParsed(v: nat, k: string, width: nat)
    requires v < width <= LONG && Separates(k)
    ensures ParseUint(PrintDec(v, k), 0, width) == Some((v, k))
  {
    hide ParseUint, DigitOf, DigitChar, Digits;
    var t := Digits(v, 10) + k;
    assert t[0] == Digits(v, 10)[0];
    FirstDigit(v, 10);
    FirstDigit(v, 8);
    SeparatorIsPlain(k, 10);
    SeparatorIsPlain(k, 8);
    DigitsParsed(v, 10, k);
    DigitsParsed(v, 8, k);
    if v == 0 { ZeroDigits(10); ZeroDigits(8); assert t[1] == k[0]; }
    PlainParsed(t, 0, width);
  }

  lemma ZeroDigits(base: nat)
    requires 2 <= base <= 16
    ensures Digits(0, base) == "0"
  {
  }

  lemma Oct6Parsed(v: nat, k: string)
    requires v < WORD && Separates(k)
    ensures ParseUint(PrintOct6(v, k), 8, WORD) == Some((v, k))
    ensures PrintOct6(v, k) != [] && 0 <= DigitOf(PrintOct6(v, k)[0]) < 8
  {
    hide ParseUint, DigitOf, DigitChar, Digits, HexPrefix;
    var d := Digits(v, 8) + k;
    var n := if |Digits(v, 8)| < 6 then 6 - |Digits(v, 8)| else 0;
    ZerosParsed(n, 8, d);
    DigitsParsed(v, 8, k);
    FirstDigit(v, 8);
    SeparatorIsPlain(k, 8);
    var t := PrintOct6(v, k);
    assert t == Zeros(n) + d;
    assert t[0] == if n == 0 then Digits(v, 8)[0] else '0';
    assert 0 <= DigitOf(t[0]) < 8 by { DigitRead(0); ZeroDigits(8); FirstDigit(0, 8); }
    PlainParsed(t, 8, WORD);
  }

  lemma HexParsed(v: nat, k: string)
    requires v < LONG && Separates(k)
    ensures ParseUint(PrintHex(v, k), 16, LONG) == Some((v, k))
  {
    hide ParseUint, DigitOf, DigitChar, Digits;
    var t := Digits(v, 16) + k;
    assert t[0] == Digits(v, 16)[0];
    FirstDigit(v, 16);
    SeparatorIsPlain(k, 16);
    DigitsParsed(v, 16, k);
    if v == 0 { ZeroDigits(16); assert t[1] == k[0]; }
    PlainParsed(t, 16, LONG);
  }

  // -----------------------------------------------------------------------------------------
  // Names
  // -----------------------------------------------------------------------------------------

  predicate Printable(c: char) { ' ' < c <= '~' }

  predicate NeedsQuote(s: string) { exists k :: 0 <= k < |s| && !Printable(s[k]) }

  /** One character between quotes: control characters become \\x and two digits. */
  function EscapeChar(c: char): string
    requires c as int < 256
  {
    if c < ' ' || c as int == 127 then ['\\', 'x', DigitChar(c as int / 16), DigitChar(c as int % 16)]
    else if c == '\\' || c == '"' then ['\\', c]
    else [c]
  }

  /** Escaped text, then k */
  function Escape(s: string, k: string): string
    requires IsText(s)
  {
    if s == [] then k else EscapeChar(s[0]) + Escape(s[1..], k)
  }

  /** print_str */
  function PrintStr(s: string, k: string): string
    requires IsText(s)
  {
    if NeedsQuote(s) then "\"" + Escape(s, "\"" + k) else s + k
  }

  function Prepend(c: char, r: Option<(string, string)>): Option<(string, string)> {
    match r case None => None case Some((s, rest)) => Some(([c] + s, rest))
  }

  /** The character an escape stands for, after the backslash, and how many characters spell it;
      none if the escape is not known. */
  function Unescape(t: string): (r: Option<(char, nat)>)
    ensures r.Some? ==> 1 <= r.value.1 <= |t|
  {
    if t == [] then None
    else if t[0] == '\'' || t[0] == '"' || t[0] == '\\' then Some((t[0], 1))
    else if t[0] == 'n' then Some(('\n', 1))
    else if t[0] == 'r' then Some(('\r', 1))
    else if t[0] == 't' then Some(('\t', 1))
    else if t[0] == 'x' && |t| >= 3 && DigitOf(t[1]) >= 0 && DigitOf(t[2]) >= 0 then
      Some(((DigitOf(t[1]) * 16 + DigitOf(t[2])) as char, 3))
    else None
  }

  /** A name from behind its opening quote on: at most room characters */
  function ParseQuoted(t: string, room: nat): (r: Option<(string, string)>)
    ensures r.Some? ==> |r.value.0| <= room && |r.value.0| + |r.value.1| < |t|
    decreases |t|
  {
    if t == [] || t[0] == '\n' then None
    else if t[0] == '"' then Some(([], t[1..]))
    else if t[0] == '\\' then
      match Unescape(t[1..])
      case None => None
      case Some((c, n)) => if room == 0 then None else Prepend(c, ParseQuoted(t[1 + n..], room - 1))
    else if room == 0 then None
    else Prepend(t[0], ParseQuoted(t[1..], room - 1))
  }

  predicate EndsName(t: string) { t == [] || IsBlank(t[0]) || t[0] == '\n' }

  /** A name without quotes */
  function ParsePlain(t: string, room: nat): (r: Option<(string, string)>)
    ensures r.Some? ==> |r.value.0| <= room && |r.value.0| + |r.value.1| == |t|
  {
    if EndsName(t) then Some(([], t))
    else if room == 0 then None
    else Prepend(t[0], ParsePlain(t[1..], room - 1))
  }

  /** parse_fname, with a buffer of room + 1 characters */
  function ParseName(t: string, room: nat): (r: Option<(string, string)>)
    ensures r.Some? ==> |r.value.0| <= room && |r.value.1| <= |t|
  {
    var s := SkipBlanks(t);
    if s == [] then None else if s[0] == '"' then ParseQuoted(s[1..], room) else ParsePlain(s, room)
  }

  /** An escaped character is read back, if there is room for it. */
  lemma EscapedParsed(c: char, u: string, room: nat)
    requires 0 < c as int < 256
    ensures ParseQuoted(EscapeChar(c) + u, room) == if room == 0 then None else Prepend(c, ParseQuoted(u, room - 1))
  {
    hide DigitChar, DigitOf;
    var t := EscapeChar(c) + u;
    if c < ' ' || c as int == 127 {
      DigitRead(c as int / 16);
      DigitRead(c as int % 16);
      var e := t[1..];
      assert e[0] == 'x' && e[1] == DigitChar(c as int / 16) && e[2] == DigitChar(c as int % 16);
      assert t[4..] == u;
    } else if c == '\\' || c == '"' {
      assert t[1..][0] == c;
      assert t[2..] == u;
    } else {
      assert t[1..] == u;
    }
  }

  lemma TextTail(s: string)
    requires IsText(s) && s != []
    ensures 0 < s[0] as int < 256 && IsText(s[1..]) && s == [s[0]] + s[1..]
  {
  }

  lemma QuoteEnds(k: string, room: nat)
    ensures ParseQuoted("\"" + k, room) == Some(([], k))
  {
    assert ("\"" + k)[1..] == k;
  }

  lemma {:induction false} QuotedParsed(s: string, k: string, room: nat)
    requires IsText(s)
    ensures ParseQuoted(Escape(s, "\"" + k), room) == if |s| <= room then Some((s, k)) else None
  {
    hide ParseQuoted, EscapeChar, IsText;
    var t := "\"" + k;
    if s == [] {
      QuoteEnds(k, room);
    } else {
      TextTail(s);
      EscapedParsed(s[0], Escape(s[1..], t), room);
      if room > 0 { QuotedParsed(s[1..], k, room - 1); }
    }
  }

  lemma {:induction false} PlainNameParsed(s: string, k: string, room: nat)
    requires EndsName(k) && !NeedsQuote(s)
    ensures ParsePlain(s + k, room) == if |s| <= room then Some((s, k)) else None
  {
    if s == [] {
      assert s + k == k;
    } else {
      assert (s + k)[1..] == s[1..] + k;
      assert s == [s[0]] + s[1..];
      if room > 0 { PlainNameParsed(s[1..], k, room - 1); }
    }
  }

  /** Exactly which names survive being printed and parsed, in front of a space or the end of a
      line: those that fit the buffer, do not look quoted without being so, and are not empty
      (except at the end of the line, where nothing is read as nothing). */
  lemma NameRoundTrip(s: string, k: string, room: nat)
    requires IsText(s) && k != [] && (k[0] == ' ' || k[0] == '\n')
    ensures ParseName(" " + PrintStr(s, k), room) == Some((s, k)) <==>
            |s| <= room && (s != "" && s[0] == '"' ==> NeedsQuote(s)) && (s == "" ==> k[0] == '\n')
  {
    var t := PrintStr(s, k);
    assert (" " + t)[1..] == t;
    if NeedsQuote(s) {
      assert SkipBlanks(" " + t) == t;
      assert t[1..] == Escape(s, "\"" + k);
      QuotedParsed(s, k, room);
    } else if s == "" {
      assert t == k;
      if k[0] == '\n' {
        assert SkipBlanks(" " + t) == k;
      } else {
        assert |SkipBlanks(" " + t)| < |k|;
      }
    } else {
      assert t[0] == s[0];
      assert SkipBlanks(" " + t) == t;
      if s[0] == '"' {
        assert t[1..] == s[1..] + k;
      } else {
        PlainNameParsed(s, k, room);
      }
    }
  }

  // -----------------------------------------------------------------------------------------
  // Times
  // -----------------------------------------------------------------------------------------

  /** A power of ten, or what is left of one after its last digit */
  predicate IsWeight(m: nat) { m <= 1 || (m % 10 == 0 && IsWeight(m / 10)) }

  lemma WeightSplit(w: nat, m: nat)
    requires 0 < w < 10 * m && IsWeight(m)
    ensures Quotient(w, m) < 10 && Times(Quotient(w, m), m) <= w < Times(Quotient(w, m), m) + m
    ensures m > 1 ==> m == 10 * (m / 10)
  {
    hide Quotient, IsWeight, Times;
    Divided(w, m);
    WeightTens(m);
    BelowTen(Quotient(w, m), m, Times(Quotient(w, m), m));
  }

  lemma BelowTen(q: nat, m: nat, qm: nat)
    requires qm == Times(q, m) < 10 * m
    ensures q < 10
  {
    if q >= 10 { MulLe(10, q, m); }
  }

  lemma WeightTens(m: nat)
    requires IsWeight(m)
    ensures m > 1 ==> m == 10 * (m / 10)
  {
  }

  /** The digits of the fraction w, the first of which has weight m */
  function Fraction(w: nat, m: nat): string
    requires IsWeight(m) && (w < 10 * m || w == 0)
    decreases m
  {
    if w == 0 then ""
    else
      WeightSplit(w, m);
      [DigitChar(Quotient(w, m))] + Fraction(w - Times(Quotient(w, m), m), m / 10)
  }

  /** A modification time, seconds and nanoseconds */
  function PrintTime(sec: nat, nsec: nat, k: string): string
    requires nsec < 1000000000
  {
    WeightIs();
    PrintDec(sec, if nsec == 0 then k else "." + (Fraction(nsec, 100000000) + k))
  }

  predicate IsDecimal(t: string) { t != [] && '0' <= t[0] <= '9' }

  /** The digits of a fraction at the cursor, the first weighing a tenth of m */
  function ParseFraction(t: string, m: nat, v: nat): (r: (nat, string))
    ensures |r.1| <= |t|
    decreases |t|
  {
    if IsDecimal(t) then ParseFraction(t[1..], m / 10, (v + Times(t[0] as int - '0' as int, m / 10)) % WORD) else (v, t)
  }

  /** parse_time */
  function ParseTime(t: string): (r: Option<(nat, nat, string)>)
    ensures r.Some? ==> |r.value.2| < |t|
  {
    match ParseUint(t, 0, WORD)
    case None => None
    case Some((sec, rest)) =>
      if rest != [] && rest[0] == '.' then
        var (nsec, rest1) := ParseFraction(rest[1..], 1000000000, 0);
        Some((sec, nsec, rest1))
      else Some((sec, 0, rest))
  }

  /** One digit of a fraction read back */
  lemma DigitAdded(d: nat, t: string, m: nat, v: nat)
    requires d < 10 && v + Times(d, m) < WORD
    ensures ParseFraction([DigitChar(d)] + t, 10 * m, v) == ParseFraction(t, m, v + Times(d, m))
  {
    hide DigitChar, Times;
    DecimalRead(d);
    assert ([DigitChar(d)] + t)[1..] == t;
    assert 10 * m / 10 == m;
  }

  /** The first digit of a fraction, and the rest */
  lemma FractionDigit(w: nat, m: nat, d: nat, r: int)
    requires IsWeight(m) && 0 < w < 10 * m && d == Quotient(w, m) && r == w - Times(d, m)
    ensures d < 10 && 0 <= r && (if m == 1 then r == 0 else IsWeight(m / 10) && 10 * (m / 10) == m && r < m)
    ensures (r < 10 * (m / 10) || r == 0) && IsWeight(m / 10) && Fraction(w, m) == [DigitChar(d)] + Fraction(r, m / 10)
  {
    hide DigitChar, Times, Quotient;
    WeightSplit(w, m);
  }

  lemma {:induction false} FractionParsed(w: nat, m: nat, v: nat, k: string)
    requires IsWeight(m) && (w < 10 * m || w == 0) && v + w < WORD && !IsDecimal(k)
    ensures ParseFraction(Fraction(w, m) + k, 10 * m, v) == (v + w, k)
    decreases m
  {
    hide *;
    if w == 0 {
      FractionEnds(v, m, k);
    } else {
      var d := Quotient(w, m);
      var r := w - Times(d, m);
      FractionDigit(w, m, d, r);
      var f := Fraction(r, m / 10);
      assert ([DigitChar(d)] + f) + k == [DigitChar(d)] + (f + k);
      DigitAdded(d, f + k, m, v);
      if m > 1 {
        FractionParsed(r, m / 10, v + Times(d, m), k);
      } else {
        NothingLeft(m / 10, k);
        OnlyEnd(k, m, v + Times(d, m));
      }
    }
  }

  lemma NothingLeft(m: nat, k: string)
    requires IsWeight(m)
    ensures Fraction(0, m) + k == k
  {
  }

  lemma OnlyEnd(k: string, m: nat, v: nat)
    requires !IsDecimal(k)
    ensures ParseFraction(k, m, v) == (v, k)
  {
  }

  lemma FractionEnds(v: nat, m: nat, k: string)
    requires !IsDecimal(k) && IsWeight(m)
    ensures ParseFraction(Fraction(0, m) + k, 10 * m, v) == (v, k)
  {
    assert Fraction(0, m) + k == k;
    OnlyEnd(k, 10 * m, v);
  }

  lemma DecimalRead(d: nat)
    requires d < 10
    ensures '0' <= DigitChar(d) <= '9' && DigitChar(d) as int - '0' as int == d
  {
  }

  /** A time with a fraction of up to nine digits is read back exactly. */
  lemma TimeParsed(sec: nat, nsec: nat, k: string)
    requires sec < WORD && nsec < 1000000000 && k != [] && k[0] == ' '
    ensures ParseTime(PrintTime(sec, nsec, k)) == Some((sec, nsec, k))
  {
    hide ParseUint, PrintDec, Fraction, ParseFraction, IsWeight;
    WeightIs();
    if nsec == 0 {
      DecParsed(sec, k, WORD);
    } else {
      var f := Fraction(nsec, 100000000) + k;
      DecParsed(sec, "." + f, WORD);
      assert ("." + f)[1..] == f;
      FractionParsed(nsec, 100000000, 0, k);
    }
  }

  lemma WeightIs()
    ensures IsWeight(100000000)
  {
    assert IsWeight(1000) && IsWeight(1000000);
  }
}
