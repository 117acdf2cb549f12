/**
 The device map file of the grub shell (lib/device.c): how the probe writes it, how it is read, and
 that reading what was written gives the same map.
 */
module DeviceMap {
  import opened Common
  import opened Numerals
  import opened Printers

  const NUM_DISKS: nat := 256
  const LINE_MAX: nat := 1023        // sizeof (buf) - 1
  const ULONG_MAX: nat := 0xFFFF_FFFF

  type Map = m: seq<Option<string>> | |m| == NUM_DISKS witness seq(NUM_DISKS, _ => None)

  const NoDevices: Map := seq(NUM_DISKS, _ => None)

  predicate IsSpace(c: char) {
    c == ' ' || 9 <= c as int <= 13
  }

  // ---------- Reading a line

  /** How many white-space characters a text begins with. */
  function Spaces(s: string): (n: nat)
    ensures n <= |s|
    ensures n < |s| ==> !IsSpace(s[n])
    ensures forall i :: 0 <= i < n ==> IsSpace(s[i])
  {
    if s != "" && IsSpace(s[0]) then 1 + Spaces(s[1..]) else 0
  }

  /** How many other characters it begins with. */
  function WordLength(s: string): (n: nat)
    ensures n <= |s|
    ensures n < |s| ==> IsSpace(s[n])
    ensures forall i :: 0 <= i < n ==> !IsSpace(s[i])
  {
    if s != "" && !IsSpace(s[0]) then 1 + WordLength(s[1..]) else 0
  }

  /** `strtoul` in base 10: the value and how many characters it took; none without a digit. */
  function StrToUL(s: string): (r: (nat, nat))
    ensures r.0 <= ULONG_MAX && r.1 <= |s|
  {
    var j := Spaces(s);
    var signed := j < |s| && (s[j] == '-' || s[j] == '+');
    var d := if signed then j + 1 else j;
    var n := DigitCount(s[d..]);
    if n == 0 then (0, 0)
    else
      var v := Value(s[d..][..n]);
      if v > ULONG_MAX then (ULONG_MAX, d + n)
      else if s[j] == '-' then ((ULONG_MAX + 1 - v) % (ULONG_MAX + 1), d + n)
      else (v, d + n)
  }

  datatype Line = Ignored | Bad | Entry(drive: nat, name: string)

  /** What `read_device_map` makes of one line. */
  function ParseLine(s: string): (r: Line)
    ensures r.Entry? ==> r.drive < NUM_DISKS
  {
    if s != "" && s[0] == '#' then Ignored
    else
      var t := s[Spaces(s)..];
      if t == "" then Ignored
      else if t[0] != '(' then Bad
      else ParseDrive(t[1..])
  }

  function ParseDrive(u: string): (r: Line)
    ensures r.Entry? ==> r.drive < NUM_DISKS
  {
    if |u| < 2 || (u[0] != 'f' && u[0] != 'h') || u[1] != 'd' then Bad
    else
      var (n, k) := StrToUL(u[2..]);
      var drive := Wrapped(n);
      if drive < 0 then Bad
      else if drive > 127 then Ignored
      else ParseName(if u[0] == 'f' then drive else drive + 0x80, u[2..][k..])
  }

  function ParseName(drive: nat, w: string): (r: Line)
    ensures r.Entry? ==> r.drive == drive
  {
    if w == "" || w[0] != ')' then Bad
    else
      var x := w[1..][Spaces(w[1..])..];
      if x == "" then Bad else Entry(drive, x[..WordLength(x)])
  }

  /** What one `fgets` takes: a line with its newline, but no more than fits into the buffer. */
  function LineLength(text: string, limit: nat): (n: nat)
    ensures n <= |text| && n <= limit && (text != "" && limit > 0 ==> n > 0)
  {
    if text == "" || limit == 0 then 0
    else if text[0] == '\n' then 1
    else 1 + LineLength(text[1..], limit - 1)
  }

  /** `read_device_map`: whether the file is accepted, and the map. */
  function ReadMap(text: string, m: Map): (r: (bool, Map))
    decreases |text|
  {
    if text == "" then (true, m)
    else
      var n := LineLength(text, LINE_MAX);
      match ParseLine(text[..n])
      case Ignored => ReadMap(text[n..], m)
      case Bad => (false, m)
      case Entry(drive, name) =>
        if m[drive].Some? then (false, m) else ReadMap(text[n..], m[drive := Some(name)])
  }

  // ---------- The reader

  method SkipWhile(buf: string, from: nat, space: bool) returns (ptr: nat)
    requires from <= |buf|
    ensures ptr == from + if space then Spaces(buf[from..]) else WordLength(buf[from..])
  {
    ptr := from;
    while ptr < |buf| && IsSpace(buf[ptr]) == space
      invariant from <= ptr <= |buf|
      invariant (if space then Spaces(buf[from..]) else WordLength(buf[from..]))
             == ptr - from + if space then Spaces(buf[ptr..]) else WordLength(buf[ptr..])
    {
      assert buf[ptr..][1..] == buf[ptr + 1..] && buf[ptr..][0] == buf[ptr];
      ptr := ptr + 1;
    }
  }

  /** The body of the loop of `read_device_map`, up to the entry it finds. */
  method ReadLine(buf: string) returns (r: Line)
    ensures r == ParseLine(buf)
  {
    hide Spaces, StrToUL, ParseName;
    if |buf| > 0 && buf[0] == '#' { return Ignored; }
    assert buf[0..] == buf;
    var ptr := SkipWhile(buf, 0, true);
    if ptr == |buf| { return Ignored; }
    if buf[ptr] != '(' { return Bad; }
    ptr := ptr + 1;
    ghost var u := buf[ptr..];
    assert u == buf[Spaces(buf)..][1..];
    if ptr + 1 >= |buf| || (buf[ptr] != 'f' && buf[ptr] != 'h') || buf[ptr + 1] != 'd' { return Bad; }
    var isFloppy := buf[ptr] == 'f';
    ptr := ptr + 2;
    assert u[2..] == buf[ptr..];
    var (n, k) := StrToUL(buf[ptr..]);
    ghost var w := buf[ptr..][k..];
    ptr := ptr + k;
    assert w == buf[ptr..];
    var drive := Wrapped(n);
    if drive < 0 { return Bad; }
    if drive > 127 { return Ignored; }
    if !isFloppy { drive := drive + 0x80; }
    r := ReadName(buf, ptr, drive);
  }

  method ReadName(buf: string, from: nat, drive: nat) returns (r: Line)
    requires from <= |buf|
    ensures r == ParseName(drive, buf[from..])
  {
    hide Spaces, WordLength;
    var ptr := from;
    if ptr == |buf| || buf[ptr] != ')' { return Bad; }
    ptr := ptr + 1;
    assert buf[from..][1..] == buf[ptr..];
    ghost var rest := buf[ptr..];
    ptr := SkipWhile(buf, ptr, true);
    assert rest[Spaces(rest)..] == buf[ptr..];
    if ptr == |buf| { return Bad; }
    var eptr := SkipWhile(buf, ptr, false);
    assert buf[ptr..][..eptr - ptr] == buf[ptr..eptr];
    return Entry(drive, buf[ptr..eptr]);
  }

  /** `read_device_map`, with the file as a text. */
  method ReadDeviceMap(text: string, map_: array<Option<string>>) returns (ok: bool)
    requires map_.Length == NUM_DISKS
    modifies map_
    ensures (ok, map_[..]) == ReadMap(text, old(map_[..]))
  {
    var rest := text;
    while rest != ""
      invariant ReadMap(rest, map_[..]) == ReadMap(text, old(map_[..]))
      decreases |rest|
    {
      var n := LineLength(rest, LINE_MAX);
      var line := ReadLine(rest[..n]);
      rest := rest[n..];
      match line
      case Ignored =>
      case Bad => return false;
      case Entry(drive, name) =>
        if map_[drive].Some? { return false; }
        map_[drive] := Some(name);
    }
    return true;
  }

  // ---------- The writer

  /** A device that may be there: its name, and whether `check_device` can read it. */
  datatype Device = Device(name: string, readable: bool)

  /** "(fd%d)\t%s\n" or "(hd%d)\t%s\n". */
  function DriveLine(kind: char, n: nat, name: string): string {
    "(" + ([kind] + ("d" + (Decimal(n) + (")\t" + (name + "\n")))))
  }

  /** The lines for `names` from number `i` on. */
  function DriveLines(kind: char, names: seq<string>, i: nat): string
    requires i <= |names|
    decreases |names| - i
  {
    if i == |names| then "" else DriveLine(kind, i, names[i]) + DriveLines(kind, names, i + 1)
  }

  function Names(devices: seq<Device>): (r: seq<string>)
    ensures |r| == |devices|
  {
    seq(|devices|, i requires 0 <= i < |devices| => devices[i].name)
  }

  /** The names of the readable devices, in the order of the probe. */
  function Present(devices: seq<Device>): seq<string> {
    if devices == [] then []
    else
      var d := devices[|devices| - 1];
      Present(devices[..|devices| - 1]) + (if d.readable then [d.name] else [])
  }

  lemma {:induction false} PresentPrefix(devices: seq<Device>, i: nat)
    requires i < |devices|
    ensures |Present(devices[..i + 1])| <= |Present(devices)|
    ensures Present(devices[..i + 1]) == Present(devices[..i]) + if devices[i].readable then [devices[i].name] else []
    ensures Present(devices[..i + 1]) <= Present(devices)
    decreases |devices|
  {
    assert devices[..i + 1][..i] == devices[..i];
    if i + 1 == |devices| {
      assert devices[..i + 1] == devices;
    } else {
      var front := devices[..|devices| - 1];
      assert front[..i + 1] == devices[..i + 1] && front[..i] == devices[..i];
      PresentPrefix(front, i);
    }
  }

  /** The file that `init_device_map` writes: every floppy, and every disk that is there. */
  function MapFile(floppies: seq<Device>, disks: seq<Device>): string {
    DriveLines('f', Names(floppies), 0) + DriveLines('h', Present(disks), 0)
  }

  /** The map that it builds: readable floppies at their number, and the disks from 0x80 on,
      numbered in the order of the probe without gaps. */
  function Built(floppies: seq<Device>, disks: seq<Device>): Map {
    seq(NUM_DISKS, i requires 0 <= i < NUM_DISKS =>
      if i < 0x80 then
        if i < |floppies| && floppies[i].readable then Some(floppies[i].name) else None
      else
        if i - 0x80 < |Present(disks)| then Some(Present(disks)[i - 0x80]) else None)
  }

  /** `init_device_map`, when there is no map file yet; `disks` are the names it tries in turn. */
  method InitDeviceMap(floppies: seq<Device>, disks: seq<Device>) returns (map_: array<Option<string>>, text: string)
    requires |floppies| <= 0x80 && |Present(disks)| <= 0x80
    ensures map_.Length == NUM_DISKS && map_[..] == Built(floppies, disks)
    ensures text == MapFile(floppies, disks)
  {
    hide Decimal, Numeral, DriveLine;
    map_ := new Option<string>[NUM_DISKS](_ => None);
    text := "";
    ghost var names := Names(floppies);
    assert "" + DriveLines('f', names, 0) == DriveLines('f', names, 0);
    for i := 0 to |floppies|
      invariant text + DriveLines('f', names, i) == DriveLines('f', names, 0)
      invariant forall k :: 0 <= k < NUM_DISKS ==>
        map_[k] == if k < i && floppies[k].readable then Some(floppies[k].name) else None
    {
      assert text + DriveLines('f', names, i) == (text + DriveLine('f', i, floppies[i].name)) + DriveLines('f', names, i + 1);
      text := text + DriveLine('f', i, floppies[i].name);
      if floppies[i].readable {
        map_[i] := Some(floppies[i].name);
      }
    }
    assert text == DriveLines('f', names, 0);
    var more := WriteDisks(map_, floppies, disks);
    text := text + more;
  }

  /** The loops over the disks: each one that is there gets the next number. */
  method WriteDisks(map_: array<Option<string>>, ghost floppies: seq<Device>, disks: seq<Device>) returns (text: string)
    requires map_.Length == NUM_DISKS && |floppies| <= 0x80 && |Present(disks)| <= 0x80
    requires forall k :: 0 <= k < NUM_DISKS ==>
      map_[k] == if k < |floppies| && floppies[k].readable then Some(floppies[k].name) else None
    modifies map_
    ensures map_[..] == Built(floppies, disks) && text == DriveLines('h', Present(disks), 0)
  {
    hide Decimal, Numeral, DriveLine, Present;
    text := "";
    var numHd: nat := 0;
    ghost var hds := Present(disks);
    assert "" + DriveLines('h', hds, 0) == DriveLines('h', hds, 0);
    NonePresent(disks);
    for i := 0 to |disks|
      invariant numHd == |Present(disks[..i])| <= |hds| && Present(disks[..i]) == hds[..numHd]
      invariant text + DriveLines('h', hds, numHd) == DriveLines('h', hds, 0)
      invariant forall k :: 0 <= k < NUM_DISKS ==>
        map_[k] == if k < 0x80 then if k < |floppies| && floppies[k].readable then Some(floppies[k].name) else None
                   else if k - 0x80 < numHd then Some(hds[k - 0x80]) else None
    {
      PresentPrefix(disks, i);
      if disks[i].readable {
        assert hds[..numHd + 1][numHd] == disks[i].name;
        assert text + DriveLines('h', hds, numHd) == (text + DriveLine('h', numHd, disks[i].name)) + DriveLines('h', hds, numHd + 1);
        map_[numHd + 0x80] := Some(disks[i].name);
        text := text + DriveLine('h', numHd, disks[i].name);
        numHd := numHd + 1;
      }
    }
    assert disks[..|disks|] == disks;
  }

  lemma NonePresent(disks: seq<Device>)
    ensures Present(disks[..0]) == []
  {
  }

  // ---------- Reading what was written

  predicate IsWord(name: string) {
    name != "" && forall i :: 0 <= i < |name| ==> !IsSpace(name[i])
  }

  /** A name that survives: a word, with a line that fits into the reader's buffer but for the newline. */
  predicate Plain(kind: char, n: nat, name: string) {
    IsWord(name) && |DriveLine(kind, n, name)| <= LINE_MAX + 1
  }

  lemma {:induction false} WordIs(word: string, after: string)
    requires forall i :: 0 <= i < |word| ==> !IsSpace(word[i])
    requires after == "" || IsSpace(after[0])
    ensures WordLength(word + after) == |word|
  {
    if word == "" {
      assert word + after == after;
    } else {
      assert (word + after)[1..] == word[1..] + after;
      WordIs(word[1..], after);
    }
  }

  /** `fgets` takes a line, or as much of it as fits. */
  lemma {:induction false} LineLengthIs(line: string, after: string, limit: nat)
    requires line != "" && line[|line| - 1] == '\n'
    requires forall i :: 0 <= i < |line| - 1 ==> line[i] != '\n'
    ensures LineLength(line + after, limit) == if |line| <= limit then |line| else limit
    decreases |line|
  {
    assert (line + after)[0] == line[0];
    if |line| > 1 && limit > 0 {
      assert (line + after)[1..] == line[1..] + after;
      LineLengthIs(line[1..], after, limit - 1);
    }
  }

  /** The number of a drive is read back. */
  lemma StrToULOfDecimal(n: nat, after: string)
    requires n < 0x80 && (after == "" || !IsDigit(after[0]))
    ensures StrToUL(Decimal(n) + after) == (n, |Decimal(n)|) && (Decimal(n) + after)[|Decimal(n)|..] == after
  {
    hide Numeral;
    ValueOfDecimal(n);
    DigitCountIs(Decimal(n), after);
    var s := Decimal(n) + after;
    assert s[0] == Decimal(n)[0] && IsDigit(s[0]);
    assert Spaces(s) == 0 && s[0..] == s;
  }

  /** The part of a line before the name. */
  function LineHead(kind: char, n: nat): string {
    "(" + ([kind] + ("d" + (Decimal(n) + ")\t")))
  }

  function DriveNumber(kind: char, n: nat): nat {
    if kind == 'f' then n else n + 0x80
  }

  /** Head, word, and perhaps a newline: an entry with that word. */
  lemma HeadAndWord(kind: char, n: nat, word: string, end: string)
    requires kind in {'f', 'h'} && n < 0x80 && IsWord(word) && end in {"", "\n"}
    ensures ParseLine(LineHead(kind, n) + (word + end)) == Entry(DriveNumber(kind, n), word)
  {
    hide Numeral, Decimal, StrToUL, ParseName, IsWord;
    var w := ")\t" + (word + end);
    var v := Decimal(n) + w;
    var u := [kind] + ("d" + v);
    StrToULOfDecimal(n, w);
    WordAlone(DriveNumber(kind, n), word, end);
    assert u[2..] == v;
    var line := LineHead(kind, n) + (word + end);
    assert line == "(" + u;
    assert line[1..] == u && line[0] == '(' && line[0..] == line && Spaces(line) == 0;
  }

  lemma WordAlone(drive: nat, word: string, end: string)
    requires IsWord(word) && end in {"", "\n"}
    ensures ParseName(drive, ")\t" + (word + end)) == Entry(drive, word)
  {
    var x := word + end;
    var w := ")\t" + x;
    assert w[1..] == "\t" + x && ("\t" + x)[1..] == x;
    assert x[0] == word[0] && Spaces(x) == 0 && Spaces("\t" + x) == 1;
    WordIs(word, end);
    assert x[..|word|] == word;
  }

  /** The first `fgets` on a written line yields the entry it was written for exactly if the line is
      not longer than the buffer; a longer name is cut off. */
  lemma ReadBackIff(kind: char, n: nat, name: string, after: string)
    requires kind in {'f', 'h'} && n < 0x80 && IsWord(name)
    ensures var line := DriveLine(kind, n, name); var text := line + after;
      ParseLine(text[..LineLength(text, LINE_MAX)]) == Entry(DriveNumber(kind, n), name)
      <==> |line| <= LINE_MAX + 1
  {
    hide Numeral, LineLength, ParseLine;
    var line, head := DriveLine(kind, n, name), LineHead(kind, n);
    OneNewline(kind, n, name);
    LineLengthIs(line, after, LINE_MAX);
    assert line == head + (name + "\n");
    ThreeDigits(n);
    if |line| <= LINE_MAX {
      assert (line + after)[..|line|] == line;
      HeadAndWord(kind, n, name, "\n");
    } else {
      var word := name[..LINE_MAX - |head|];
      assert (line + after)[..LINE_MAX] == head + (word + "");
      HeadAndWord(kind, n, word, "");
      assert |line| == LINE_MAX + 1 ==> word == name;
    }
  }

  /** Reading goes on behind the line with the entry added, also when only the newline did not fit. */
  lemma ReadOneLine(kind: char, n: nat, name: string, rest: string, m: Map)
    requires kind in {'f', 'h'} && n < 0x80 && Plain(kind, n, name) && m[DriveNumber(kind, n)].None?
    ensures ReadMap(DriveLine(kind, n, name) + rest, m) == ReadMap(rest, m[DriveNumber(kind, n) := Some(name)])
  {
    hide Numeral, ParseLine, LineLength, DriveLine;
    var line := DriveLine(kind, n, name);
    ReadBackIff(kind, n, name, rest);
    OneNewline(kind, n, name);
    LineLengthIs(line, rest, LINE_MAX);
    var m' := m[DriveNumber(kind, n) := Some(name)];
    if |line| <= LINE_MAX {
      assert (line + rest)[|line|..] == rest;
    } else {
      assert (line + rest)[LINE_MAX..] == "\n" + rest;
      LoneNewline(rest, m');
    }
  }

  lemma LoneNewline(rest: string, m: Map)
    ensures ReadMap("\n" + rest, m) == ReadMap(rest, m)
  {
    var t := "\n" + rest;
    assert t[0] == '\n' && t[..1] == "\n" && t[1..] == rest;
    assert Spaces("\n") == 1 && ParseLine("\n") == Ignored;
  }

  lemma OneNewline(kind: char, n: nat, name: string)
    requires kind in {'f', 'h'} && IsWord(name)
    ensures var line := DriveLine(kind, n, name);
      && line != "" && line[|line| - 1] == '\n'
      && forall i :: 0 <= i < |line| - 1 ==> line[i] != '\n'
  {
    hide Decimal, Numeral;
    ValueOfDecimal(n);
    var head := "(" + ([kind] + "d");
    var line := DriveLine(kind, n, name);
    assert line == head + Decimal(n) + ")\t" + name + "\n";
  }

  /** The map after the entries for `names` from number `i` on. */
  function Filled(kind: char, names: seq<string>, i: nat, m: Map): Map
    requires i <= |names| <= 0x80
    decreases |names| - i
  {
    var base := if kind == 'f' then 0 else 0x80;
    if i == |names| then m else Filled(kind, names, i + 1, m[base + i := Some(names[i])])
  }

  lemma {:induction false} FilledAt(kind: char, names: seq<string>, i: nat, m: Map, k: nat)
    requires i <= |names| <= 0x80 && k < NUM_DISKS
    ensures var base := if kind == 'f' then 0 else 0x80;
      Filled(kind, names, i, m)[k] == if base + i <= k < base + |names| then Some(names[k - base]) else m[k]
    decreases |names| - i
  {
    if i < |names| {
      var base := if kind == 'f' then 0 else 0x80;
      FilledAt(kind, names, i + 1, m[base + i := Some(names[i])], k);
    }
  }

  predicate Free(m: Map, lo: nat, hi: nat)
    requires hi <= NUM_DISKS
  {
    forall k :: lo <= k < hi ==> m[k].None?
  }

  lemma {:induction false} LinesRoundTrip(kind: char, names: seq<string>, i: nat, after: string, m: Map)
    requires kind in {'f', 'h'} && i <= |names| <= 0x80
    requires forall k :: 0 <= k < |names| ==> Plain(kind, k, names[k])
    requires var base := if kind == 'f' then 0 else 0x80; Free(m, base + i, base + |names|)
    ensures ReadMap(DriveLines(kind, names, i) + after, m) == ReadMap(after, Filled(kind, names, i, m))
    decreases |names| - i
  {
    hide DriveLine, ReadMap, Plain;
    if i == |names| {
      assert "" + after == after;
    } else {
      var rest := DriveLines(kind, names, i + 1) + after;
      ReadOneLine(kind, i, names[i], rest, m);
      assert DriveLines(kind, names, i) + after == DriveLine(kind, i, names[i]) + rest;
      LinesRoundTrip(kind, names, i + 1, after, m[DriveNumber(kind, i) := Some(names[i])]);
    }
  }

  /** Reading the file that the probe wrote is accepted, and gives the map the probe built, with the
      floppies that could not be read entered as well. */
  lemma MapFileRoundTrip(floppies: seq<Device>, disks: seq<Device>)
    requires |floppies| <= 0x80 && |Present(disks)| <= 0x80
    requires forall i :: 0 <= i < |floppies| ==> Plain('f', i, floppies[i].name)
    requires forall i :: 0 <= i < |Present(disks)| ==> Plain('h', i, Present(disks)[i])
    ensures var (ok, m) := ReadMap(MapFile(floppies, disks), NoDevices);
      && ok
      && (forall k :: 0 <= k < NUM_DISKS ==>
            m[k] == if k < |floppies| then Some(floppies[k].name) else Built(floppies, disks)[k])
  {
    hide DriveLine, ReadMap, DriveLines, Filled, Plain;
    var fds, hds := Names(floppies), Present(disks);
    var m1 := Filled('f', fds, 0, NoDevices);
    forall k | 0 <= k < NUM_DISKS ensures m1[k] == if k < |fds| then Some(fds[k]) else None {
      FilledAt('f', fds, 0, NoDevices, k);
    }
    LinesRoundTrip('f', fds, 0, DriveLines('h', hds, 0), NoDevices);
    LinesRoundTrip('h', hds, 0, "", m1);
    assert DriveLines('h', hds, 0) + "" == DriveLines('h', hds, 0);
    var m2 := Filled('h', hds, 0, m1);
    forall k | 0 <= k < NUM_DISKS ensures m2[k] == if k < |fds| then Some(fds[k]) else Built(floppies, disks)[k] {
      FilledAt('h', hds, 0, m1, k);
    }
    EmptyFile(m2);
  }

  lemma EmptyFile(m: Map)
    ensures ReadMap("", m) == (true, m)
  {
  }
}
