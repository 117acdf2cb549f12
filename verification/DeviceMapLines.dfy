/**
 The lines of a device map file (lib/device.c) that are not written by the probe: remarks and blank
 lines, which do not matter wherever they stand, and the lines for which a file is refused.
 */
module DeviceMapLines {
  import opened Common
  import opened Numerals
  import opened Printers
  import opened DeviceMap

  /** A text within one line. */
  predicate InLine(text: string) {
    forall i :: 0 <= i < |text| ==> text[i] != '\n'
  }

  predicate AllSpaces(text: string) {
    forall i :: 0 <= i < |text| ==> IsSpace(text[i])
  }

  /** The first line of a file that fits into the reader's buffer, and the rest of the file. */
  lemma FirstLine(text: string, rest: string, m: Map)
    requires InLine(text) && |text| <= 1022
    ensures ReadMap(text + "\n" + rest, m) ==
      match ParseLine(text + "\n")
      case Ignored => ReadMap(rest, m)
      case Bad => (false, m)
      case Entry(drive, name) => if m[drive].Some? then (false, m) else ReadMap(rest, m[drive := Some(name)])
  {
    hide ParseLine, LineLength;
    var line := text + "\n";
    LineLengthIs(line, rest, LINE_MAX);
    assert (line + rest)[..|line|] == line && (line + rest)[|line|..] == rest;
  }

  // ---------- Lines that do not matter

  /** A remark begins with '#' in the first column. */
  lemma RemarkSkipped(text: string, rest: string, m: Map)
    requires InLine(text) && |text| <= 1022
    ensures ReadMap("#" + text + "\n" + rest, m) == ReadMap(rest, m)
  {
    hide LineLength;
    var line := "#" + text + "\n";
    if |text| < 1022 {
      FirstLine("#" + text, rest, m);
    } else {
      LineLengthIs(line, rest, LINE_MAX);
      assert (line + rest)[..LINE_MAX] == "#" + text && (line + rest)[LINE_MAX..] == "\n" + rest;
      LoneNewline(rest, m);
    }
  }

  lemma SpacesOnly(text: string)
    requires AllSpaces(text)
    ensures ParseLine(text) == Ignored
  {
    SpacesInFront(text, "");
    assert text + "" == text && text[|text|..] == "";
    if text != "" { assert IsSpace(text[0]); }
  }

  lemma {:induction false} SpacesInFront(sp: string, text: string)
    requires AllSpaces(sp) && (text == "" || !IsSpace(text[0]))
    ensures Spaces(sp + text) == |sp| && (sp + text)[|sp|..] == text
  {
    if sp == "" {
      assert sp + text == text;
    } else {
      assert (sp + text)[1..] == sp[1..] + text;
      SpacesInFront(sp[1..], text);
    }
  }

  /** White space alone. */
  lemma BlankSkipped(text: string, rest: string, m: Map)
    requires AllSpaces(text) && InLine(text) && |text| <= 1022
    ensures ReadMap(text + "\n" + rest, m) == ReadMap(rest, m)
  {
    SpacesOnly(text + "\n");
    FirstLine(text, rest, m);
  }

  // ---------- Files with such lines

  datatype Item = Remark(text: string) | Blank(text: string) | Drive(kind: char, n: nat, name: string)

  ghost predicate Proper(i: Item) {
    match i
    case Remark(text) => InLine(text) && |text| <= 1022
    case Blank(text) => AllSpaces(text) && InLine(text) && |text| <= 1022
    case Drive(kind, n, name) => kind in {'f', 'h'} && n < 0x80 && Plain(kind, n, name)
  }

  function ItemText(i: Item): string {
    match i
    case Remark(text) => "#" + text + "\n"
    case Blank(text) => text + "\n"
    case Drive(kind, n, name) => DriveLine(kind, n, name)
  }

  function FileText(items: seq<Item>): string {
    if items == [] then "" else ItemText(items[0]) + FileText(items[1..])
  }

  function Drives(items: seq<Item>): seq<Item> {
    if items == [] then [] else (if items[0].Drive? then [items[0]] else []) + Drives(items[1..])
  }

  /** A second entry for a drive is refused, whatever follows. */
  lemma SecondEntryRefused(kind: char, n: nat, name: string, rest: string, m: Map)
    requires kind in {'f', 'h'} && n < 0x80 && Plain(kind, n, name) && m[DriveNumber(kind, n)].Some?
    ensures ReadMap(DriveLine(kind, n, name) + rest, m) == (false, m)
  {
    hide Numeral, ParseLine, LineLength, DriveLine;
    var line := DriveLine(kind, n, name);
    ReadBackIff(kind, n, name, rest);
    OneNewline(kind, n, name);
    LineLengthIs(line, rest, LINE_MAX);
  }

  /** Remarks and blank lines do not matter, wherever they stand, and whether the file is accepted or not. */
  lemma {:induction false} RemarksDoNotMatter(items: seq<Item>, m: Map)
    requires forall i :: 0 <= i < |items| ==> Proper(items[i])
    ensures ReadMap(FileText(items), m) == ReadMap(FileText(Drives(items)), m)
    decreases |items|
  {
    hide ReadMap, DriveLine, Plain;
    if items != [] {
      var i, rest := items[0], items[1..];
      var t := FileText(rest);
      match i {
        case Remark(text) =>
          RemarkSkipped(text, t, m);
          RemarksDoNotMatter(rest, m);
          assert Drives(items) == Drives(rest);
        case Blank(text) =>
          BlankSkipped(text, t, m);
          RemarksDoNotMatter(rest, m);
          assert Drives(items) == Drives(rest);
        case Drive(kind, n, name) =>
          var u := FileText(Drives(rest));
          DrivesTail(i, Drives(rest));
          assert Drives(items) == [i] + Drives(rest);
          if m[DriveNumber(kind, n)].Some? {
            SecondEntryRefused(kind, n, name, t, m);
            SecondEntryRefused(kind, n, name, u, m);
          } else {
            ReadOneLine(kind, n, name, t, m);
            ReadOneLine(kind, n, name, u, m);
            RemarksDoNotMatter(rest, m[DriveNumber(kind, n) := Some(name)]);
          }
      }
    }
  }

  lemma DrivesTail(i: Item, rest: seq<Item>)
    ensures FileText([i] + rest) == ItemText(i) + FileText(rest)
  {
    assert ([i] + rest)[1..] == rest;
  }

  /** So a file that the probe wrote may be given remarks and blank lines: it is still accepted, and
      still gives the map that the probe built, with the floppies that could not be read. */
  lemma RemarkedFileRoundTrip(floppies: seq<Device>, disks: seq<Device>, items: seq<Item>)
    requires |floppies| <= 0x80 && |Present(disks)| <= 0x80
    requires forall i :: 0 <= i < |floppies| ==> Plain('f', i, floppies[i].name)
    requires forall i :: 0 <= i < |Present(disks)| ==> Plain('h', i, Present(disks)[i])
    requires (forall i :: 0 <= i < |items| ==> Proper(items[i])) && FileText(Drives(items)) == MapFile(floppies, disks)
    ensures var (ok, m) := ReadMap(FileText(items), NoDevices);
      && ok
      && (forall k :: 0 <= k < NUM_DISKS ==>
            m[k] == if k < |floppies| then Some(floppies[k].name) else Built(floppies, disks)[k])
  {
    RemarksDoNotMatter(items, NoDevices);
    MapFileRoundTrip(floppies, disks);
  }

  // ---------- Lines that are refused

  /** What comes behind the opening parenthesis decides. */
  lemma BehindParenthesis(sp: string, u: string)
    requires AllSpaces(sp)
    ensures ParseLine(sp + ("(" + u)) == ParseDrive(u)
  {
    var line := sp + ("(" + u);
    SpacesInFront(sp, "(" + u);
    assert ("(" + u)[1..] == u;
    if sp != "" { assert line[0] == sp[0]; } else { assert line[0] == '('; }
  }

  /** Anything but a parenthesis at the front of a line that is no remark. */
  lemma NoParenthesisRefused(sp: string, text: string, rest: string, m: Map)
    requires AllSpaces(sp) && InLine(sp + text) && |sp + text| <= 1022
    requires text != "" && !IsSpace(text[0]) && text[0] != '(' && (sp == "" ==> text[0] != '#')
    ensures ReadMap(sp + text + "\n" + rest, m) == (false, m)
  {
    FirstLine(sp + text, rest, m);
    var line := sp + text + "\n";
    assert line == sp + (text + "\n");
    SpacesInFront(sp, text + "\n");
    assert line[0] == if sp == "" then text[0] else sp[0];
  }

  /** A drive that is neither a floppy ("fd") nor a hard disk ("hd"). */
  lemma BadDriveRefused(sp: string, u: string, rest: string, m: Map)
    requires AllSpaces(sp) && InLine(sp + ("(" + u)) && |sp + ("(" + u)| <= 1022
    requires !("fd" <= u) && !("hd" <= u)
    ensures ReadMap(sp + ("(" + u) + "\n" + rest, m) == (false, m)
  {
    var text := sp + ("(" + u);
    FirstLine(text, rest, m);
    assert text + "\n" == sp + ("(" + (u + "\n"));
    BehindParenthesis(sp, u + "\n");
    TwoLetters(u, 'f', 'd');
    TwoLetters(u, 'h', 'd');
  }

  lemma TwoLetters(u: string, a: char, b: char)
    requires b != '\n'
    ensures [a, b] <= u <==> |u| >= 2 && u[0] == a && u[1] == b
    ensures var v := u + "\n"; |v| >= 2 && v[0] == a && v[1] == b <==> |u| >= 2 && u[0] == a && u[1] == b
  {
  }

  /** A drive with a number: what comes behind the number decides, unless that is beyond what the BIOS
      can have. */
  lemma NumberedDrive(k: char, n: nat, w: string)
    requires k in {'f', 'h'} && n <= 0xFFFF_FFFF && (w == "" || !IsDigit(w[0]))
    ensures ParseDrive([k] + ("d" + (Decimal(n) + w))) ==
      if n <= 127 then ParseName(if k == 'f' then n else n + 0x80, w)
      else if n < 0x8000_0000 then Ignored else Bad
  {
    hide Numeral, ParseName, Decimal, Value;
    var u := [k] + ("d" + (Decimal(n) + w));
    assert u[2..] == Decimal(n) + w;
    AnyNumber(n, w);
  }

  lemma AnyNumber(n: nat, after: string)
    requires n <= 0xFFFF_FFFF && (after == "" || !IsDigit(after[0]))
    ensures StrToUL(Decimal(n) + after) == (n, |Decimal(n)|) && (Decimal(n) + after)[|Decimal(n)|..] == after
  {
    hide Numeral;
    ValueOfDecimal(n);
    DigitCountIs(Decimal(n), after);
    var s := Decimal(n) + after;
    assert s[0] == Decimal(n)[0] && IsDigit(s[0]);
    assert Spaces(s) == 0 && s[0..] == s;
  }

  /** A line for drive `n` that goes on with `w` behind the number. */
  function DriveText(sp: string, k: char, n: nat, w: string): string {
    sp + ("(" + ([k] + ("d" + (Decimal(n) + w))))
  }

  lemma DriveTextRead(sp: string, k: char, n: nat, w: string, rest: string, m: Map)
    requires AllSpaces(sp) && k in {'f', 'h'} && n <= 0xFFFF_FFFF && (w == "" || !IsDigit(w[0]))
    requires InLine(DriveText(sp, k, n, w)) && |DriveText(sp, k, n, w)| <= 1022
    ensures ReadMap(DriveText(sp, k, n, w) + "\n" + rest, m) ==
      match (if n <= 127 then ParseName(if k == 'f' then n else n + 0x80, w + "\n") else if n < 0x8000_0000 then Ignored else Bad)
      case Ignored => ReadMap(rest, m)
      case Bad => (false, m)
      case Entry(drive, name) => if m[drive].Some? then (false, m) else ReadMap(rest, m[drive := Some(name)])
  {
    hide Numeral, Decimal, ParseLine, ParseDrive, ParseName;
    var text := DriveText(sp, k, n, w);
    FirstLine(text, rest, m);
    var u := [k] + ("d" + (Decimal(n) + (w + "\n")));
    assert text + "\n" == sp + ("(" + u);
    BehindParenthesis(sp, u);
    NumberedDrive(k, n, w + "\n");
  }

  /** A drive beyond 127 is ignored with a warning; a number that is negative as an `int` is refused. */
  lemma HighDrives(sp: string, k: char, n: nat, w: string, rest: string, m: Map)
    requires AllSpaces(sp) && k in {'f', 'h'} && 128 <= n <= 0xFFFF_FFFF && (w == "" || !IsDigit(w[0]))
    requires InLine(DriveText(sp, k, n, w)) && |DriveText(sp, k, n, w)| <= 1022
    ensures ReadMap(DriveText(sp, k, n, w) + "\n" + rest, m) == if n < 0x8000_0000 then ReadMap(rest, m) else (false, m)
  {
    hide ParseName;
    DriveTextRead(sp, k, n, w, rest, m);
  }

  /** No closing parenthesis behind the number. */
  lemma NoCloseRefused(sp: string, k: char, n: nat, w: string, rest: string, m: Map)
    requires AllSpaces(sp) && k in {'f', 'h'} && n <= 127 && (w == "" || (!IsDigit(w[0]) && w[0] != ')'))
    requires InLine(DriveText(sp, k, n, w)) && |DriveText(sp, k, n, w)| <= 1022
    ensures ReadMap(DriveText(sp, k, n, w) + "\n" + rest, m) == (false, m)
  {
    hide Decimal, Numeral;
    DriveTextRead(sp, k, n, w, rest, m);
    assert (w + "\n")[0] != ')';
  }

  /** No name behind the parenthesis. */
  lemma NoNameRefused(sp: string, k: char, n: nat, blank: string, rest: string, m: Map)
    requires AllSpaces(sp) && AllSpaces(blank) && k in {'f', 'h'} && n <= 127
    requires InLine(DriveText(sp, k, n, ")" + blank)) && |DriveText(sp, k, n, ")" + blank)| <= 1022
    ensures ReadMap(DriveText(sp, k, n, ")" + blank) + "\n" + rest, m) == (false, m)
  {
    hide Decimal, Numeral;
    DriveTextRead(sp, k, n, ")" + blank, rest, m);
    var w := ")" + blank + "\n";
    assert w[1..] == blank + "\n";
    SpacesInFront(blank + "\n", "");
    assert blank + "\n" + "" == blank + "\n";
  }

  /** Otherwise the word behind the parenthesis is the name, and what follows it is ignored. */
  lemma NamedDriveRead(sp: string, k: char, n: nat, blank: string, name: string, more: string, rest: string, m: Map)
    requires AllSpaces(sp) && AllSpaces(blank) && k in {'f', 'h'} && n <= 127 && IsWord(name) && (more == "" || IsSpace(more[0]))
    requires var w := ")" + (blank + (name + more)); InLine(DriveText(sp, k, n, w)) && |DriveText(sp, k, n, w)| <= 1022
    ensures var drive := if k == 'f' then n else n + 128;
      ReadMap(DriveText(sp, k, n, ")" + (blank + (name + more))) + "\n" + rest, m)
        == if m[drive].Some? then (false, m) else ReadMap(rest, m[drive := Some(name)])
  {
    hide Decimal, Numeral, ReadMap;
    var w := ")" + (blank + (name + more));
    DriveTextRead(sp, k, n, w, rest, m);
    var x := name + (more + "\n");
    assert (w + "\n")[1..] == blank + x;
    assert x[0] == name[0];
    SpacesInFront(blank, x);
    WordIs(name, more + "\n");
    assert x[..|name|] == name;
  }

  /** What the probe writes, letter by letter. */
  lemma DriveLineIs(k: char, n: nat, name: string)
    ensures DriveLine(k, n, name) == "(" + [k] + "d" + Decimal(n) + ")\t" + name + "\n"
  {
  }

  // ---------- Numbers and white space

  /** The white space of the C locale. */
  lemma SpacesAre(c: char)
    ensures IsSpace(c) <==> c == ' ' || c == '\t' || c == '\n' || c == '\r' || c as int == 11 || c as int == 12
  {
  }

  /** `strtoul`: white space, a sign, digits; a value beyond 32 bits becomes the largest, and a minus
      sign takes the complement. */
  lemma NumberRead(sp: string, sign: string, n: nat, after: string)
    requires AllSpaces(sp) && sign in {"", "+", "-"} && (after == "" || !IsDigit(after[0]))
    ensures var v := if n > 0xFFFF_FFFF then 0xFFFF_FFFF else if sign == "-" && n > 0 then 0x1_0000_0000 - n else n;
      StrToUL(sp + (sign + (Decimal(n) + after))) == (v, |sp| + |sign| + |Decimal(n)|)
  {
    hide Numeral, Decimal;
    ValueOfDecimal(n);
    DigitCountIs(Decimal(n), after);
    DigitsRead(sp, sign, Decimal(n), after);
  }

  lemma DigitsRead(sp: string, sign: string, digits: string, after: string)
    requires AllSpaces(sp) && sign in {"", "+", "-"} && digits != "" && AllDigits(digits)
    requires DigitCount(digits + after) == |digits| && (digits + after)[..|digits|] == digits
    ensures var s, v := sp + (sign + (digits + after)), Value(digits);
      StrToUL(s) == (if v > 0xFFFF_FFFF then 0xFFFF_FFFF else if sign == "-" && v > 0 then 0x1_0000_0000 - v else v,
                     |sp| + |sign| + |digits|)
  {
    hide Spaces, DigitCount, Value, StrToUL;
    var u := digits + after;
    var t := sign + u;
    var s := sp + t;
    assert u[0] == digits[0] && IsDigit(u[0]);
    assert t[0] == if sign == "" then u[0] else sign[0];
    SpacesInFront(sp, t);
    assert s[|sp|] == t[0];
    assert s[|sp| + |sign|..] == t[|sign|..] == u;
    StrToULIs(s, |sp|, |sp| + |sign|, u, |digits|);
  }

  lemma StrToULIs(s: string, j: nat, d: nat, u: string, n: nat)
    requires Spaces(s) == j < |s| && d <= |s| && d == (if s[j] == '-' || s[j] == '+' then j + 1 else j)
    requires s[d..] == u && DigitCount(u) == n > 0
    ensures var v := Value(u[..n]);
      StrToUL(s) == (if v > 0xFFFF_FFFF then 0xFFFF_FFFF else if s[j] == '-' && v > 0 then 0x1_0000_0000 - v else v, d + n)
  {
    hide Spaces, DigitCount, Value;
  }

  /** Without digits the value is 0, and nothing is taken: "(hd)" is the first hard disk. */
  lemma NoNumberRead(sp: string, after: string)
    requires AllSpaces(sp) && (after == "" || (!IsDigit(after[0]) && !IsSpace(after[0]) && after[0] !in {'+', '-'}))
    ensures StrToUL(sp + after) == (0, 0)
  {
    SpacesInFront(sp, after);
    NoDigits(after);
    if after != "" { assert (sp + after)[|sp|] == after[0]; }
  }

  lemma NoNumberIsZero(k: char, name: string, rest: string, m: Map)
    requires k in {'f', 'h'} && IsWord(name) && |name| <= 1000
    ensures var drive := if k == 'f' then 0 else 128;
      ReadMap("(" + ([k] + ("d)" + name)) + "\n" + rest, m) == if m[drive].Some? then (false, m) else ReadMap(rest, m[drive := Some(name)])
  {
    hide ReadMap, StrToUL, ParseLine, ParseName;
    var text := "(" + ([k] + ("d)" + name));
    assert forall i :: 0 <= i < |name| ==> name[i] != '\n';
    FirstLine(text, rest, m);
    var w := ")" + name + "\n";
    var u := [k] + ("d" + w);
    assert text + "\n" == "" + ("(" + u);
    BehindParenthesis("", u);
    assert u[2..] == w && w[0..] == w;
    NoNumberRead("", w);
    assert "" + w == w;
    assert w == ")" + (name + "\n");
    BareName(if k == 'f' then 0 else 128, name);
  }

  lemma BareName(drive: nat, name: string)
    requires IsWord(name)
    ensures ParseName(drive, ")" + (name + "\n")) == Entry(drive, name)
  {
    var x := name + "\n";
    assert (")" + x)[1..] == "" + x && x[0] == name[0];
    SpacesInFront("", x);
    WordIs(name, "\n");
    assert x[..|name|] == name;
  }
}
