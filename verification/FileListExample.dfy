/** What a file list looks like: the text of one with each kind of line. */
module FileListExample {
  import opened Arith
  import opened FileListText
  import opened FileList

  /** A directory with a file in it, a symbolic link and a device */
  const FILE := Item(0x1a4, 4, 5, 6, 0, "a\U{7f}\"", Reg(12, 0))
  const BIN := Item(0x1ed, 1, 2, 3, 50000000, "bin", Dir([FILE]))
  const LINK := Item(0x1ff, 7, 8, 9, 0, "!~", Lnk("b c"))
  const DEVICE := Item(0x1b6, 0, 5, 2, 0, "n", Chr(1, 3))

  // -----------------------------------------------------------------------------------------
  // Numbers
  // -----------------------------------------------------------------------------------------

  /** One digit more */
  lemma NextDigit(v: nat, base: nat, q: nat, d: nat)
    requires 2 <= base <= 16 && q > 0 && d < base && v == q * base + d
    ensures Digits(v, base) == Digits(q, base) + [DigitChar(d)] && v >= base
  {
    hide DigitChar;
    DivUnique(v, base, q, d);
    MulLe(1, q, base);
  }

  lemma OneDigit(d: nat, base: nat)
    requires 2 <= base <= 16 && d < base
    ensures Digits(d, base) == [DigitChar(d)]
  {
  }

  /** File types and modes in base 8 */
  lemma DirectoryMode()
    ensures Digits(0x41ed, 8) == "40755"
  {
    hide Digits;
    OneDigit(4, 8);
    NextDigit(0x20, 8, 4, 0);
    NextDigit(0x107, 8, 0x20, 7);
    NextDigit(0x83d, 8, 0x107, 5);
    NextDigit(0x41ed, 8, 0x83d, 5);
  }

  lemma FileMode()
    ensures Digits(0x81a4, 8) == "100644"
  {
    hide Digits;
    OneDigit(1, 8);
    NextDigit(8, 8, 1, 0);
    NextDigit(0x40, 8, 8, 0);
    NextDigit(0x206, 8, 0x40, 6);
    NextDigit(0x1034, 8, 0x206, 4);
    NextDigit(0x81a4, 8, 0x1034, 4);
  }

  lemma LinkMode()
    ensures Digits(0xa1ff, 8) == "120777"
  {
    hide Digits;
    OneDigit(1, 8);
    NextDigit(10, 8, 1, 2);
    NextDigit(0x50, 8, 10, 0);
    NextDigit(0x287, 8, 0x50, 7);
    NextDigit(0x143f, 8, 0x287, 7);
    NextDigit(0xa1ff, 8, 0x143f, 7);
  }

  lemma DeviceMode()
    ensures Digits(0x21b6, 8) == "20666"
  {
    hide Digits;
    OneDigit(2, 8);
    NextDigit(0x10, 8, 2, 0);
    NextDigit(0x86, 8, 0x10, 6);
    NextDigit(0x436, 8, 0x86, 6);
    NextDigit(0x21b6, 8, 0x436, 6);
  }

  lemma ModePrinted(v: nat, digits: string, k: string)
    requires Digits(v, 8) == digits && 5 <= |digits| <= 6
    ensures PrintOct6(v, k) == (if |digits| == 5 then "0" + digits else digits) + k
  {
    hide Digits;
    assert Zeros(1) == "0" && Zeros(0) == "";
  }

  lemma DigitPrinted(d: nat, k: string)
    requires d < 10
    ensures PrintDec(d, k) == [' ', DigitChar(d)] + k
  {
    hide DigitChar;
    OneDigit(d, 10);
  }

  lemma SizePrinted(k: string)
    ensures PrintDec(12, k) == " 12" + k && PrintHex(0x1a, k) == " 1a" + k
  {
    OneDigit(1, 10);
    NextDigit(12, 10, 1, 2);
    OneDigit(1, 16);
    NextDigit(0x1a, 16, 1, 10);
  }

  /** The first two digits of a fraction of a second */
  lemma Twentieth()
    ensures IsWeight(100000000) && Fraction(50000000, 100000000) == "05"
  {
    hide IsWeight, Fraction;
    WeightIs();
    FractionDigit(50000000, 100000000, 0, 50000000);
    FractionDigit(50000000, 10000000, 5, 0);
    NoFraction(1000000);
    WeightTens(10000000);
  }

  lemma NoFraction(m: nat)
    requires IsWeight(m)
    ensures Fraction(0, m) == ""
  {
    hide IsWeight;
  }

  lemma FractionDigit(w: nat, m: nat, d: nat, rest: nat)
    requires IsWeight(m) && m > 1 && 0 < w < 10 * m && d < 10 && w == d * m + rest && rest < m
    ensures IsWeight(m / 10) && m == 10 * (m / 10) && Fraction(w, m) == [DigitChar(d)] + Fraction(rest, m / 10)
  {
    hide DigitChar;
    DivUnique(w, m, d, rest);
    WeightTens(m);
  }

  lemma TimePrinted(sec: nat, k: string)
    requires sec < 10
    ensures PrintTime(sec, 0, k) == [' ', DigitChar(sec)] + k
    ensures PrintTime(sec, 50000000, k) == [' ', DigitChar(sec)] + ("." + ("05" + k))
  {
    hide PrintDec, Fraction, DigitChar, IsWeight;
    Twentieth();
    DigitPrinted(sec, k);
    DigitPrinted(sec, "." + ("05" + k));
  }

  // -----------------------------------------------------------------------------------------
  // Lines
  // -----------------------------------------------------------------------------------------

  lemma DirectoryLine(id: nat, k: string)
    ensures ItemOk(BIN) && PrintLine(BIN, id, k) == "040755 1 2 3.05 bin\n" + k
  {
    hide Digits, PrintDec, PrintOct6, PrintTime;
    var n := " " + ("bin" + ("\n" + k));
    assert !NeedsQuote("bin");
    DirectoryMode();
    TimePrinted(3, n);
    DigitPrinted(2, PrintTime(3, 50000000, n));
    DigitPrinted(1, PrintDec(2, PrintTime(3, 50000000, n)));
    ModePrinted(0x41ed, "40755", PrintDec(1, PrintDec(2, PrintTime(3, 50000000, n))));
    assert PrintLine(BIN, id, k) == ("0" + "40755") + ([' ', '1'] + ([' ', '2'] + ([' ', '3'] + ("." + ("05" + n)))));
  }

  /** A name with a control character and a quote in it */
  lemma FileLine(k: string)
    ensures ItemOk(FILE) && PrintLine(FILE, 0x1a, k) == "100644 4 5 12 6 \"a\\x7f\\\"\" 1a\n" + k
  {
    hide Digits, PrintDec, PrintOct6, PrintTime, PrintHex, PrintStr;
    var t := PrintHex(0x1a, "\n" + k);
    var n := " " + PrintStr("a\U{7f}\"", t);
    SizePrinted("\n" + k);
    SizePrinted(PrintTime(6, 0, n));
    Quoted(t);
    FileMode();
    TimePrinted(6, n);
    var c := PrintDec(12, PrintTime(6, 0, n));
    DigitPrinted(5, c);
    DigitPrinted(4, PrintDec(5, c));
    ModePrinted(0x81a4, "100644", PrintDec(4, PrintDec(5, c)));
    assert PrintLine(FILE, 0x1a, k) ==
           "100644" + ([' ', '4'] + ([' ', '5'] + (" 12" + ([' ', '6'] + (" " + ("\"a\\x7f\\\"\"" + (" 1a" + ("\n" + k))))))));
  }

  lemma Quoted(k: string)
    ensures IsText("a\U{7f}\"") && NeedsQuote("a\U{7f}\"") && PrintStr("a\U{7f}\"", k) == "\"a\\x7f\\\"\"" + k
  {
    var s := "a\U{7f}\"";
    assert !Printable(s[1]);
    assert s[1..] == "\U{7f}\"" && s[1..][1..] == "\"" && s[1..][1..][1..] == "";
    assert EscapeChar('\U{7f}') == "\\x7f" && EscapeChar('\"') == "\\\"";
    EscapeStep("\"", "\"" + k);
    EscapeStep("\U{7f}\"", "\"" + k);
    EscapeStep(s, "\"" + k);
    assert Escape(s, "\"" + k) == "a" + ("\\x7f" + ("\\\"" + ("\"" + k)));
  }

  lemma EscapeStep(s: string, k: string)
    requires IsText(s) && s != ""
    ensures IsText(s[1..]) && Escape(s, k) == EscapeChar(s[0]) + Escape(s[1..], k) && Escape("", k) == k
  {
    hide EscapeChar;
  }

  /** A name of the first and the last character that need no quotes, and a target with a blank */
  lemma LinkLine(id: nat, k: string)
    ensures ItemOk(LINK) && PrintLine(LINK, id, k) == "120777 7 8 9 !~ \"b c\"\n" + k
  {
    hide Digits, PrintDec, PrintOct6, PrintTime, PrintStr;
    var t := " " + PrintStr("b c", "\n" + k);
    var n := " " + PrintStr("!~", t);
    Unquoted(t);
    QuotedBlank("\n" + k);
    LinkMode();
    TimePrinted(9, n);
    DigitPrinted(8, PrintTime(9, 0, n));
    DigitPrinted(7, PrintDec(8, PrintTime(9, 0, n)));
    ModePrinted(0xa1ff, "120777", PrintDec(7, PrintDec(8, PrintTime(9, 0, n))));
    assert PrintLine(LINK, id, k) ==
           "120777" + ([' ', '7'] + ([' ', '8'] + ([' ', '9'] + (" " + ("!~" + (" " + ("\"b c\"" + ("\n" + k))))))));
  }

  lemma Unquoted(k: string)
    ensures IsText("!~") && !NeedsQuote("!~") && PrintStr("!~", k) == "!~" + k
  {
  }

  lemma QuotedBlank(k: string)
    ensures IsText("b c") && PrintStr("b c", k) == "\"b c\"" + k
  {
    var s := "b c";
    assert !Printable(s[1]);
    assert s[1..] == " c" && s[1..][1..] == "c" && s[1..][1..][1..] == "";
    EscapeStep("c", "\"" + k);
    EscapeStep(" c", "\"" + k);
    EscapeStep(s, "\"" + k);
    assert Escape(s, "\"" + k) == "b" + (" " + ("c" + ("\"" + k)));
  }

  lemma DeviceLine(id: nat, k: string)
    ensures ItemOk(DEVICE) && PrintLine(DEVICE, id, k) == "020666 0 5 1 3 2 n\n" + k
  {
    hide Digits, PrintDec, PrintOct6, PrintTime;
    var n := " " + ("n" + ("\n" + k));
    assert !NeedsQuote("n");
    DeviceMode();
    TimePrinted(2, n);
    var c := PrintTime(2, 0, n);
    DigitPrinted(3, c);
    DigitPrinted(1, PrintDec(3, c));
    DigitPrinted(5, PrintDec(1, PrintDec(3, c)));
    DigitPrinted(0, PrintDec(5, PrintDec(1, PrintDec(3, c))));
    ModePrinted(0x21b6, "20666", PrintDec(0, PrintDec(5, PrintDec(1, PrintDec(3, c)))));
    assert PrintLine(DEVICE, id, k) == ("0" + "20666") + ([' ', '0'] + ([' ', '5'] + ([' ', '1'] + ([' ', '3'] + ([' ', '2'] + n)))));
  }

  /** The text of the whole list */
  lemma Listing()
    ensures ItemsOk([BIN, LINK, DEVICE])
    ensures PrintItems([BIN, LINK, DEVICE], 0x1a, "") ==
            "040755 1 2 3.05 bin\n" + ("100644 4 5 12 6 \"a\\x7f\\\"\" 1a\n" + (".\n" +
            ("120777 7 8 9 !~ \"b c\"\n" + ("020666 0 5 1 3 2 n\n" + ".\n"))))
  {
    hide PrintLine, ItemOk;
    var devices, rest := [DEVICE], [LINK, DEVICE];
    var items := [BIN, LINK, DEVICE];
    assert devices[1..] == [] && rest[1..] == devices && items[1..] == rest && [FILE][1..] == [];
    DeviceLine(0x1b, ".\n");
    LinkLine(0x1b, "020666 0 5 1 3 2 n\n" + ".\n");
    var after := "120777 7 8 9 !~ \"b c\"\n" + ("020666 0 5 1 3 2 n\n" + ".\n");
    FileLine(".\n" + after);
    DirectoryLine(0x1a, "100644 4 5 12 6 \"a\\x7f\\\"\" 1a\n" + (".\n" + after));
    assert PrintItems([], 0x1b, "") == ".\n";
    assert PrintItems(devices, 0x1b, "") == "020666 0 5 1 3 2 n\n" + ".\n";
    assert PrintItems(rest, 0x1b, "") == after;
    assert PrintItems([], 0x1b, after) == ".\n" + after;
    assert NextId([], 0x1b) == 0x1b;
    assert NextId([FILE], 0x1a) == 0x1b;
    assert PrintItems([FILE], 0x1a, after) == "100644 4 5 12 6 \"a\\x7f\\\"\" 1a\n" + (".\n" + after);
  }
}
