/**
 What option strings, option tables and command lines mean to those who write them: a program
 declares its options, a user writes uses of them, and a scan reports exactly those uses.  Nothing
 here is stated in terms of how the scanner looks anything up.
 */
module GetoptMeaning {
  import opened Common
  import opened GetoptSpec
  import opened GetoptScanner
  import opened GetoptOrdering

  // ---------- Short options

  /** With how many colons a text begins; more than two mean the same as two. */
  function Colons(t: string): (n: nat)
    ensures n <= 2
  {
    if t == "" || t[0] != ':' then 0 else if |t| == 1 || t[1] != ':' then 1 else 2
  }

  /** The option string has `c`, with so many colons behind its first occurrence. */
  ghost predicate Has(o: string, c: char, colons: nat) {
    c != ':' && exists p: string, t: string :: Split(o, p, c, t) && Colons(t) == colons
  }

  ghost predicate Split(o: string, p: string, c: char, t: string) {
    o == p + [c] + t && c !in p
  }

  predicate Lacks(o: string, c: char) {
    c == ':' || c !in o
  }

  lemma FirstAt(p: string, c: char, t: string)
    requires c !in p
    ensures IndexOf(p + [c] + t, c) == |p| && (p + [c] + t)[|p| + 1..] == t
  {
    var s := p + [c] + t;
    assert s[|p|] == c;
    forall k | 0 <= k < |p| ensures s[k] != c { assert s[k] == p[k]; }
  }

  lemma HasKind(o: string, c: char, colons: nat)
    requires Has(o, c, colons)
    ensures Kind(o, c) == if colons == 0 then NoArgument else if colons == 1 then RequiredArgument else OptionalArgument
  {
    var p: string, t: string :| Split(o, p, c, t) && Colons(t) == colons;
    FirstAt(p, c, t);
    var i := |p|;
    assert i + 1 < |o| ==> o[i + 1] == o[i + 1..][0] == t[0];
    assert i + 2 < |o| ==> o[i + 2] == o[i + 1..][1] == t[1];
  }

  lemma LacksKind(o: string, c: char)
    requires Lacks(o, c)
    ensures Kind(o, c) == Invalid
  {
    assert c !in o ==> forall k :: 0 <= k < |o| ==> o[k] != c;
  }

  /** A text that may stand behind the '-' of an element of short options. */
  predicate ClusterText(longopts: Option<seq<LongOption>>, cs: string) {
    cs != "" && (cs[0] == '-' ==> longopts.None? && cs != "-")
  }

  lemma ClusterElement(longopts: Option<seq<LongOption>>, cs: string)
    requires ClusterText(longopts, cs)
    ensures var e := "-" + cs; OptionElement(e) && !IsLong(longopts, e) && e[1..] == cs && e != "--"
  {
    var e := "-" + cs;
    assert e[1] == cs[0] && e[1..] == cs;
  }

  /** "-c" and "-cARG": what they report depends only on how the option string goes on behind the
      first `c`.  Without a colon there is no argument, and the scan goes on behind the character;
      with one, the rest of the element or the whole next one is the argument; with two, only the
      rest of the element is.  A missing argument is reported as ':' or '?'. */
  lemma ShortOptionMeans(mode: Ordering, p: string, c: char, t: string, longopts: Option<seq<LongOption>>,
                         arg: string, following: seq<string>)
    requires c !in p && c != ':' && ClusterText(longopts, [c] + arg)
    ensures var o := p + [c] + t;
      var all := Parse(mode, o, o, longopts, ["-" + [c] + arg] + following);
      var next := Parse(mode, o, o, longopts, following);
      && (Colons(t) == 0 && arg == "" ==> all.events == [Report(c as int)] + next.events)
      && (Colons(t) == 0 && ClusterText(longopts, arg) ==>
            var rest := Parse(mode, o, o, longopts, ["-" + arg] + following);
            all.events == [Report(c as int)] + rest.events && all.operands == rest.operands)
      && (Colons(t) >= 1 && arg != "" ==> all.events == [Report(c as int).(optarg := Some(arg))] + next.events)
      && (Colons(t) == 2 && arg == "" ==> all.events == [Report(c as int)] + next.events)
      && (Colons(t) == 1 && arg == "" && following != [] ==>
            var behind := Parse(mode, o, o, longopts, following[1..]);
            && all.events == [Report(c as int).(optarg := Some(following[0]))] + behind.events
            && all.options == ["-" + [c], following[0]] + behind.options && all.operands == behind.operands)
      && (Colons(t) == 1 && arg == "" && following == [] ==>
            all.events == [Complain(if o[0] == ':' then ':' else '?', c as int)])
  {
    hide Parse;
    var o, cs := p + [c] + t, [c] + arg;
    assert "-" + [c] + arg == "-" + cs && Split(o, p, c, t) && cs[1..] == arg;
    HasKind(o, c, Colons(t));
    ParseCluster(mode, o, o, longopts, cs, following);
    assert following[0..] == following && following[..0] == [];
    if Colons(t) == 0 && ClusterText(longopts, arg) {
      ParseCluster(mode, o, o, longopts, arg, following);
      var (events, k) := ClusterEvents(o, o, arg, following);
      var rest := Parse(mode, o, o, longopts, following[k..]);
      assert ([Report(c as int)] + events) + rest.events == [Report(c as int)] + (events + rest.events);
    }
    if Colons(t) == 1 && arg == "" && following != [] {
      assert "-" + cs == "-" + [c] && following[..1] == [following[0]];
    }
    if following == [] { ParseNothing(mode, o, longopts); }
  }

  lemma ParseNothing(mode: Ordering, o: string, longopts: Option<seq<LongOption>>)
    ensures Parse(mode, o, o, longopts, []) == Scan([], [], [])
  {
  }

  /** An element of short options at the front. */
  lemma ParseCluster(mode: Ordering, first: string, later: string, longopts: Option<seq<LongOption>>, cs: string, following: seq<string>)
    requires ClusterText(longopts, cs)
    ensures var (events, k) := ClusterEvents(first, later, cs, following);
      var rest := Parse(mode, later, later, longopts, following[k..]);
      Parse(mode, first, later, longopts, ["-" + cs] + following)
        == Scan(events + rest.events, ["-" + cs] + following[..k] + rest.options, rest.operands)
  {
    hide Parse, ClusterEvents;
    var e := "-" + cs;
    var args := [e] + following;
    ClusterElement(longopts, cs);
    assert args[0] == e && args[1..] == following;
    ParseElement(mode, first, later, longopts, args);
    var k := ClusterEvents(first, later, cs, following).1;
    assert args[1 + k..] == following[k..] && args[..1 + k] == [e] + following[..k];
  }

  // ---------- Declarations

  /** An option letter and its argument: none (0), required (1) or optional (2). */
  datatype Declared = Declared(c: char, colons: nat)

  predicate WellDeclared(decl: seq<Declared>) {
    && (forall i :: 0 <= i < |decl| ==> decl[i].c != ':' && decl[i].colons <= 2)
    && (forall i, j :: 0 <= i < j < |decl| ==> decl[i].c != decl[j].c)
  }

  /** The option string of the declarations. */
  function Spelled(decl: seq<Declared>): string {
    if decl == [] then ""
    else [decl[0].c] + (if decl[0].colons == 0 then "" else if decl[0].colons == 1 then ":" else "::") + Spelled(decl[1..])
  }

  function Arity(decl: seq<Declared>, c: char): Option<nat> {
    if decl == [] then None else if decl[0].c == c then Some(decl[0].colons) else Arity(decl[1..], c)
  }

  /** The option string `o` declares just this, apart from the characters of `extra`. */
  ghost predicate Declares(o: string, decl: seq<Declared>, extra: string) {
    forall c :: c !in extra ==> if Arity(decl, c).Some? then Has(o, c, Arity(decl, c).value) else Lacks(o, c)
  }

  lemma {:induction false} SpelledHas(pre: string, decl: seq<Declared>, c: char)
    requires WellDeclared(decl) && (c == ':' || c !in pre)
    ensures var o := pre + Spelled(decl);
      if Arity(decl, c).Some? then Has(o, c, Arity(decl, c).value) else Lacks(o, c)
    decreases |decl|
  {
    var o := pre + Spelled(decl);
    if decl == [] {
      assert o == pre;
    } else {
      var d, rest := decl[0], Spelled(decl[1..]);
      var colons := if d.colons == 0 then "" else if d.colons == 1 then ":" else "::";
      if d.c == c {
        assert rest != "" ==> rest[0] == decl[1].c;
        assert Split(o, pre, c, colons + rest) && Colons(colons + rest) == d.colons;
      } else {
        SpelledHas(pre + [d.c] + colons, decl[1..], c);
        assert o == pre + [d.c] + colons + rest;
      }
    }
  }

  /** So the option string that is spelled from declarations declares them, also behind a leading
      ordering character or colon. */
  lemma SpelledDeclares(pre: string, decl: seq<Declared>)
    requires WellDeclared(decl)
    ensures Declares(pre + Spelled(decl), decl, pre)
    ensures ":" == pre ==> Declares(pre + Spelled(decl), decl, "")
  {
    forall c | c !in pre || c == ':'
      ensures if Arity(decl, c).Some? then Has(pre + Spelled(decl), c, Arity(decl, c).value) else Lacks(pre + Spelled(decl), c)
    {
      SpelledHas(pre, decl, c);
    }
  }

  // ---------- Long options

  /** `text` means entry `i`: the first of that name, or else the only one it abbreviates. */
  ghost predicate Means(table: seq<LongOption>, text: string, i: nat) {
    i < |table| &&
    if text == table[i].name then forall k :: 0 <= k < i ==> table[k].name != text
    else
      && text <= table[i].name
      && (forall k :: 0 <= k < |table| ==> table[k].name != text)
      && (forall k :: 0 <= k < |table| && k != i ==> !(text <= table[k].name))
  }

  /** `text` means nothing: it abbreviates no name, or several, and is none itself. */
  ghost predicate MeansNothing(table: seq<LongOption>, text: string) {
    && (forall k :: 0 <= k < |table| ==> table[k].name != text)
    && ((forall k :: 0 <= k < |table| ==> !(text <= table[k].name))
        || exists j, k :: 0 <= j < k < |table| && text <= table[j].name && text <= table[k].name)
  }

  lemma LookupMeans(table: seq<LongOption>, text: string)
    ensures forall i: nat :: Means(table, text, i) ==> Lookup(table, text) == Found(i)
    ensures MeansNothing(table, text) ==> !Lookup(table, text).Found?
  {
    forall i: nat | Means(table, text, i) ensures Lookup(table, text) == Found(i) {
      if text == table[i].name {
        assert FirstExact(table, text, i);
      } else {
        assert OnlyMatch(table, text, i);
      }
    }
    if MeansNothing(table, text) {
      forall i | OnlyMatch(table, text, i) ensures false {
        if j, k :| 0 <= j < k < |table| && text <= table[j].name && text <= table[k].name {
          assert Abbreviates(table, text, j) && Abbreviates(table, text, k);
        }
      }
    }
  }

  // ---------- Uses

  /** What a user writes: letters without arguments, known or not; a letter behind such letters with
      its argument, in the same element or apart, or without its optional one; a long option by its
      name or an abbreviation; a long option that is wrong; an operand. */
  datatype Use =
    | Flags(cs: string)
    | ShortWith(cs: string, c: char, arg: string, apart: bool)
    | ShortWithout(cs: string, c: char)
    | Long(text: string, i: nat, value: Option<string>, apart: bool)
    | LongWrong(text: string, value: Option<string>)
    | Operand(s: string)

  function LongElement(text: string, arg: Option<string>): string {
    if arg.Some? then "--" + (text + ("=" + arg.value)) else "--" + text
  }

  function Elements(u: Use): (r: seq<string>)
    ensures 1 <= |r| <= 2
  {
    match u
    case Flags(cs) => ["-" + cs]
    case ShortWith(cs, c, arg, apart) => if apart then ["-" + (cs + [c]), arg] else ["-" + (cs + ([c] + arg))]
    case ShortWithout(cs, c) => ["-" + (cs + [c])]
    case Long(text, i, arg, apart) => if apart && arg.Some? then ["--" + text, arg.value] else [LongElement(text, arg)]
    case LongWrong(text, arg) => [LongElement(text, arg)]
    case Operand(s) => [s]
  }

  predicate AllFlags(decl: seq<Declared>, extra: string, cs: string) {
    forall i :: 0 <= i < |cs| ==> cs[i] !in extra && Arity(decl, cs[i]) in {None, Some(0)}
  }

  /** The use is written for these declarations.  A lone "--" or a text that a long option would be
      written with is none of the short ones. */
  ghost predicate Proper(decl: seq<Declared>, extra: string, longopts: Option<seq<LongOption>>, u: Use) {
    match u
    case Flags(cs) => AllFlags(decl, extra, cs) && ClusterText(longopts, cs)
    case ShortWith(cs, c, arg, apart) =>
      && AllFlags(decl, extra, cs) && c !in extra && ClusterText(longopts, cs + [c] + if apart then "" else arg)
      && if apart then Arity(decl, c) == Some(1) else Arity(decl, c) in {Some(1), Some(2)} && arg != ""
    case ShortWithout(cs, c) =>
      AllFlags(decl, extra, cs) && c !in extra && ClusterText(longopts, cs + [c]) && Arity(decl, c) == Some(2)
    case Long(text, i, arg, apart) =>
      && longopts.Some? && '=' !in text && Means(longopts.value, text, i)
      && (text != "" || (arg.Some? && !apart))
      && var has := longopts.value[i].hasArg;
         if arg.None? then has != 1 else if apart then has == 1 else has != 0
    case LongWrong(text, arg) =>
      && longopts.Some? && '=' !in text && (text != "" || arg.Some?)
      && (MeansNothing(longopts.value, text) || (arg.Some? && exists i :: TakesNone(longopts.value, text, i)))
    case Operand(s) => s == "-" || s == "" || s[0] != '-'
  }

  ghost predicate TakesNone(table: seq<LongOption>, text: string, i: nat) {
    Means(table, text, i) && table[i].hasArg == 0
  }

  function FlagEvent(decl: seq<Declared>, c: char): Outcome {
    if Arity(decl, c).Some? then Outcome(c as int, None, None, None, None)
    else Outcome('?' as int, None, Some(c as int), None, None)
  }

  function FlagEvents(decl: seq<Declared>, cs: string): (r: seq<Outcome>)
    ensures |r| == |cs|
  {
    seq(|cs|, i requires 0 <= i < |cs| => FlagEvent(decl, cs[i]))
  }

  /** What the program is told of it. */
  ghost function Reported(mode: Ordering, decl: seq<Declared>, longopts: Option<seq<LongOption>>, extra: string, u: Use): seq<Outcome>
    requires Proper(decl, extra, longopts, u)
  {
    match u
    case Flags(cs) => FlagEvents(decl, cs)
    case ShortWith(cs, c, arg, _) => FlagEvents(decl, cs) + [Outcome(c as int, Some(arg), None, None, None)]
    case ShortWithout(cs, c) => FlagEvents(decl, cs) + [Outcome(c as int, None, None, None, None)]
    case Long(text, i, arg, _) =>
      var o := longopts.value[i];
      if o.flag.None? then [Outcome(o.val, arg, None, Some(i), None)]
      else [Outcome(0, arg, None, Some(i), Some((o.flag.value, o.val)))]
    case LongWrong(text, arg) =>
      if MeansNothing(longopts.value, text) then [Outcome('?' as int, None, Some(0), None, None)]
      else
        var i: nat :| TakesNone(longopts.value, text, i);
        [Outcome('?' as int, None, Some(longopts.value[i].val), None, None)]
    case Operand(s) => if mode.ReturnInOrder? then [Outcome(1, Some(s), None, None, None)] else []
  }

  /** One letter without an argument at the front of a cluster. */
  lemma FlagInFront(first: string, later: string, decl: seq<Declared>, extra: string, c: char, tail: string, following: seq<string>)
    requires Declares(first, decl, extra) && c !in extra && Arity(decl, c) in {None, Some(0)}
    ensures ClusterEvents(first, later, [c] + tail, following) ==
      if tail == "" then ([FlagEvent(decl, c)], 0)
      else
        var (events, k) := ClusterEvents(later, later, tail, following);
        ([FlagEvent(decl, c)] + events, k)
  {
    assert ([c] + tail)[1..] == tail;
    if Arity(decl, c).Some? { HasKind(first, c, 0); } else { LacksKind(first, c); }
  }

  lemma FlagEventsTail(decl: seq<Declared>, cs: string)
    requires cs != ""
    ensures FlagEvents(decl, cs) == [FlagEvent(decl, cs[0])] + FlagEvents(decl, cs[1..])
    ensures cs[1..] == "" ==> FlagEvents(decl, cs) == [FlagEvent(decl, cs[0])]
  {
  }

  lemma {:induction false} FlagsInFront(first: string, later: string, decl: seq<Declared>, extra: string,
                                         cs: string, tail: string, following: seq<string>)
    requires Declares(first, decl, extra) && Declares(later, decl, extra) && AllFlags(decl, extra, cs)
    requires cs + tail != ""
    ensures if tail == "" then ClusterEvents(first, later, cs + tail, following) == (FlagEvents(decl, cs), 0)
      else
        var (events, k) := ClusterEvents(if cs == "" then first else later, later, tail, following);
        ClusterEvents(first, later, cs + tail, following) == (FlagEvents(decl, cs) + events, k)
    decreases |cs|
  {
    hide ClusterEvents, Declares, FlagEvents, FlagEvent;
    if cs == "" {
      assert cs + tail == tail;
      var events := ClusterEvents(first, later, tail, following).0;
      NoFlags(decl, events);
    } else {
      var c := cs[0];
      FlagEventsTail(decl, cs);
      assert cs + tail == [c] + (cs[1..] + tail);
      FlagInFront(first, later, decl, extra, c, cs[1..] + tail, following);
      if cs[1..] + tail != "" {
        FlagsInFront(later, later, decl, extra, cs[1..], tail, following);
        if tail != "" {
          var events := ClusterEvents(later, later, tail, following).0;
          var e, es := FlagEvent(decl, c), FlagEvents(decl, cs[1..]);
          assert [e] + (es + events) == ([e] + es) + events;
        }
      } else {
        assert cs[1..] == "";
      }
    }
  }

  lemma NoFlags(decl: seq<Declared>, events: seq<Outcome>)
    ensures FlagEvents(decl, "") + events == events
  {
  }

  /** A letter that takes an argument, at the end of a cluster. */
  lemma LastLetter(first: string, later: string, decl: seq<Declared>, extra: string, c: char, arg: string, following: seq<string>)
    requires Declares(first, decl, extra) && c !in extra
    ensures Arity(decl, c) in {Some(1), Some(2)} && arg != "" ==>
      ClusterEvents(first, later, [c] + arg, following) == ([Outcome(c as int, Some(arg), None, None, None)], 0)
    ensures Arity(decl, c) == Some(1) && following != [] ==>
      ClusterEvents(first, later, [c], following) == ([Outcome(c as int, Some(following[0]), None, None, None)], 1)
    ensures Arity(decl, c) == Some(2) ==>
      ClusterEvents(first, later, [c], following) == ([Outcome(c as int, None, None, None, None)], 0)
  {
    assert ([c] + arg)[1..] == arg && [c][1..] == "";
    if Arity(decl, c).Some? { HasKind(first, c, Arity(decl, c).value); }
  }

  /** A long option at the front. */
  lemma ParseLong(mode: Ordering, first: string, later: string, longopts: Option<seq<LongOption>>, text: string,
                  following: seq<string>)
    requires longopts.Some? && text != ""
    ensures var (event, k) := LongEvent(first, longopts.value, text, following);
      var rest := Parse(mode, later, later, longopts, following[k..]);
      Parse(mode, first, later, longopts, ["--" + text] + following)
        == Scan([event] + rest.events, ["--" + text] + following[..k] + rest.options, rest.operands)
  {
    hide Parse, LongEvent;
    var e := "--" + text;
    var args := [e] + following;
    assert e[2..] == text && args[0] == e && args[1..] == following && |e| > 2;
    ParseElement(mode, first, later, longopts, args);
    var k := LongEvent(first, longopts.value, text, following).1;
    assert args[1 + k..] == following[k..] && args[..1 + k] == [e] + following[..k];
  }

  lemma EqualsAt(text: string, arg: string)
    requires '=' !in text
    ensures IndexOf(text, '=') == |text| && text[..|text|] == text
    ensures var s := text + ("=" + arg); IndexOf(s, '=') == |text| && s[..|text|] == text && s[|text| + 1..] == arg
  {
    var s := text + ("=" + arg);
    assert s == text + ['='] + arg;
    FirstAt(text, '=', arg);
    forall k | 0 <= k < |text| ensures text[k] != '=' { }
  }

  /** What the event of a proper long option is. */
  lemma LongMeans(first: string, table: seq<LongOption>, text: string, i: nat, arg: Option<string>, apart: bool, following: seq<string>)
    requires '=' !in text && Means(table, text, i)
    ensures var o := table[i];
      var ok := Outcome(if o.flag.None? then o.val else 0, arg, None, Some(i), if o.flag.None? then None else Some((o.flag.value, o.val)));
      && (arg.None? && o.hasArg != 1 ==> LongEvent(first, table, text, following) == (ok, 0))
      && (arg.Some? && o.hasArg != 0 ==> LongEvent(first, table, text + ("=" + arg.value), following) == (ok, 0))
      && (arg.Some? && o.hasArg == 0 ==>
            LongEvent(first, table, text + ("=" + arg.value), following) == (Outcome('?' as int, None, Some(o.val), None, None), 0))
      && (arg.Some? && o.hasArg == 1 && following != [] && following[0] == arg.value ==>
            LongEvent(first, table, text, following) == (ok, 1))
      && (o.hasArg == 1 && following == [] ==>
            LongEvent(first, table, text, following)
              == (Outcome(if first != "" && first[0] == ':' then ':' as int else '?' as int, None, Some(o.val), None, None), 0))
  {
    hide Lookup;
    EqualsAt(text, if arg.Some? then arg.value else "");
    LookupMeans(table, text);
  }

  lemma LongMeansNothing(first: string, table: seq<LongOption>, text: string, arg: string, following: seq<string>)
    requires '=' !in text && MeansNothing(table, text)
    ensures var wrong := (Outcome('?' as int, None, Some(0), None, None), 0);
      LongEvent(first, table, text, following) == wrong && LongEvent(first, table, text + ("=" + arg), following) == wrong
  {
    hide Lookup;
    EqualsAt(text, arg);
    LookupMeans(table, text);
  }

  // ---------- One use, whatever comes behind it

  /** An operand is passed by in PERMUTE order: it is no event, and the next event is still the first. */
  predicate PassedBy(mode: Ordering, u: Use) {
    u.Operand? && mode.Permute?
  }

  /** The use `u` in front of a reading of the rest. */
  ghost function InFront(mode: Ordering, decl: seq<Declared>, longopts: Option<seq<LongOption>>, extra: string, u: Use, rest: Scan): Scan
    requires Proper(decl, extra, longopts, u)
  {
    if PassedBy(mode, u) then Scan(rest.events, rest.options, Elements(u) + rest.operands)
    else Scan(Reported(mode, decl, longopts, extra, u) + rest.events, Elements(u) + rest.options, rest.operands)
  }

  lemma UseInFront(mode: Ordering, first: string, later: string, decl: seq<Declared>, extra: string,
                   longopts: Option<seq<LongOption>>, u: Use, rest: seq<string>)
    requires Declares(first, decl, extra) && Declares(later, decl, extra) && Proper(decl, extra, longopts, u)
    requires u.Operand? ==> !mode.RequireOrder?
    ensures Parse(mode, first, later, longopts, Elements(u) + rest)
      == InFront(mode, decl, longopts, extra, u, Parse(mode, if PassedBy(mode, u) then first else later, later, longopts, rest))
  {
    if u.Operand? {
      OperandInFrontOf(mode, first, later, longopts, u.s, rest);
    } else if u.Long? || u.LongWrong? {
      LongInFront(mode, first, later, decl, extra, longopts, u, rest);
    } else {
      ShortInFront(mode, first, later, decl, extra, longopts, u, rest);
    }
  }

  lemma OperandInFrontOf(mode: Ordering, first: string, later: string, longopts: Option<seq<LongOption>>, s: string, rest: seq<string>)
    requires (s == "-" || s == "" || s[0] != '-') && !mode.RequireOrder?
    ensures var all := Parse(mode, first, later, longopts, [s] + rest);
      if mode.Permute? then
        var r := Parse(mode, first, later, longopts, rest);
        all == Scan(r.events, r.options, [s] + r.operands)
      else
        var r := Parse(mode, later, later, longopts, rest);
        all == Scan([Outcome(1, Some(s), None, None, None)] + r.events, [s] + r.options, r.operands)
  {
    var args := [s] + rest;
    assert args[0] == s && args[1..] == rest && args[..1] == [s];
  }

  lemma ShortInFront(mode: Ordering, first: string, later: string, decl: seq<Declared>, extra: string,
                     longopts: Option<seq<LongOption>>, u: Use, rest: seq<string>)
    requires Declares(first, decl, extra) && Declares(later, decl, extra) && Proper(decl, extra, longopts, u)
    requires u.Flags? || u.ShortWith? || u.ShortWithout?
    ensures Parse(mode, first, later, longopts, Elements(u) + rest)
      == InFront(mode, decl, longopts, extra, u, Parse(mode, later, later, longopts, rest))
  {
    hide Parse, ClusterEvents, Declares, FlagEvents, Arity;
    var cs, tail, arg, apart := u.cs, "", "", false;
    if u.ShortWith? { arg, apart := u.arg, u.apart; }
    if !u.Flags? { tail := if apart then [u.c] else [u.c] + arg; }
    var following := if apart then [arg] + rest else rest;
    assert cs + tail == if u.Flags? then cs else if apart then cs + [u.c] else cs + ([u.c] + arg);
    assert u.ShortWith? && !apart ==> cs + [u.c] + arg == cs + tail;
    assert cs + [] == cs && [cs] + [] == [cs];
    FlagsInFront(first, later, decl, extra, cs, tail, following);
    ParseCluster(mode, first, later, longopts, cs + tail, following);
    if u.ShortWithout? { assert tail == [u.c]; }
    assert Elements(u) == if apart then ["-" + (cs + tail), arg] else ["-" + (cs + tail)];
    assert Elements(u) + rest == ["-" + (cs + tail)] + following;
    assert following[..0] == [] && following[0..] == following;
    if apart { assert following[..1] == [arg] && following[1..] == rest && Elements(u) == ["-" + (cs + tail)] + following[..1]; }
    if !u.Flags? {
      LastLetter(if cs == "" then first else later, later, decl, extra, u.c, arg, following);
      assert [u.c] + "" == [u.c];
    }
  }

  lemma LongInFront(mode: Ordering, first: string, later: string, decl: seq<Declared>, extra: string,
                    longopts: Option<seq<LongOption>>, u: Use, rest: seq<string>)
    requires Proper(decl, extra, longopts, u) && (u.Long? || u.LongWrong?)
    ensures Parse(mode, first, later, longopts, Elements(u) + rest)
      == InFront(mode, decl, longopts, extra, u, Parse(mode, later, later, longopts, rest))
  {
    hide Parse, LongEvent, MeansNothing;
    var apart := u.Long? && u.apart && u.value.Some?;
    var arg := if u.value.Some? then u.value.value else "";
    var full := if u.value.Some? && !apart then u.text + ("=" + arg) else u.text;
    var following := if apart then [arg] + rest else rest;
    ParseLong(mode, first, later, longopts, full, following);
    assert Elements(u) + rest == ["--" + full] + following;
    assert following[..0] == [] && following[0..] == following;
    if apart { assert following[..1] == [arg] && following[1..] == rest && Elements(u) == ["--" + full] + following[..1]; }
    if u.Long? {
      LongMeans(first, longopts.value, u.text, u.i, u.value, u.apart, following);
    } else if MeansNothing(longopts.value, u.text) {
      LongMeansNothing(first, longopts.value, u.text, arg, following);
    } else {
      var i: nat :| TakesNone(longopts.value, u.text, i) &&
        Reported(mode, decl, longopts, extra, u) == [Outcome('?' as int, None, Some(longopts.value[i].val), None, None)];
      LongMeans(first, longopts.value, u.text, i, u.value, false, following);
    }
  }

  // ---------- Whole command lines

  /** How a command line ends: with its uses; with "--" and operands of any form; or, in REQUIRE_ORDER,
      with the first operand and whatever is behind it. */
  datatype Ending = AtLast | Dashes(rest: seq<string>) | AtOperand(rest: seq<string>) {
    function Elements(): seq<string> {
      match this case AtLast => [] case Dashes(rest) => ["--"] + rest case AtOperand(rest) => rest
    }

    function Options(): seq<string> {
      if Dashes? then ["--"] else []
    }

    function Operands(): seq<string> {
      if AtLast? then [] else rest
    }
  }

  ghost predicate ProperLine(mode: Ordering, decl: seq<Declared>, extra: string, longopts: Option<seq<LongOption>>,
                             uses: seq<Use>, end: Ending) {
    && (forall i :: 0 <= i < |uses| ==> Proper(decl, extra, longopts, uses[i]) && (uses[i].Operand? ==> !mode.RequireOrder?))
    && (end.AtOperand? ==> mode.RequireOrder? && end.rest != [] && Proper(decl, extra, longopts, Operand(end.rest[0])))
  }

  function LineOf(uses: seq<Use>): seq<string> {
    if uses == [] then [] else Elements(uses[0]) + LineOf(uses[1..])
  }

  ghost function AllReported(mode: Ordering, decl: seq<Declared>, longopts: Option<seq<LongOption>>, extra: string, uses: seq<Use>): seq<Outcome>
    requires forall i :: 0 <= i < |uses| ==> Proper(decl, extra, longopts, uses[i])
  {
    if uses == [] then []
    else Reported(mode, decl, longopts, extra, uses[0]) + AllReported(mode, decl, longopts, extra, uses[1..])
  }

  function Taken(mode: Ordering, uses: seq<Use>): seq<string> {
    if uses == [] then []
    else (if PassedBy(mode, uses[0]) then [] else Elements(uses[0])) + Taken(mode, uses[1..])
  }

  function Left(mode: Ordering, uses: seq<Use>): seq<string> {
    if uses == [] then []
    else (if PassedBy(mode, uses[0]) then Elements(uses[0]) else []) + Left(mode, uses[1..])
  }

  /** A command line is read as what it was written for. */
  lemma {:induction false} LineMeans(mode: Ordering, first: string, later: string, decl: seq<Declared>, extra: string,
                                      longopts: Option<seq<LongOption>>, uses: seq<Use>, end: Ending)
    requires Declares(first, decl, extra) && Declares(later, decl, extra) && ProperLine(mode, decl, extra, longopts, uses, end)
    ensures Parse(mode, first, later, longopts, LineOf(uses) + end.Elements())
      == Scan(AllReported(mode, decl, longopts, extra, uses), Taken(mode, uses) + end.Options(), Left(mode, uses) + end.Operands())
    decreases |uses|
  {
    hide Parse, Declares, Proper, Reported, Elements, InFront, AllReported, Taken, Left;
    if uses == [] {
      NoUses(mode, decl, extra, longopts);
      assert LineOf(uses) + end.Elements() == end.Elements();
      assert [] + end.Options() == end.Options() && [] + end.Operands() == end.Operands();
      EndingMeans(mode, first, later, decl, extra, longopts, end);
    } else {
      var u, more := uses[0], uses[1..];
      UseInFront(mode, first, later, decl, extra, longopts, u, LineOf(more) + end.Elements());
      LineMeans(mode, if PassedBy(mode, u) then first else later, later, decl, extra, longopts, more, end);
      Regroup(Elements(u), LineOf(more), end.Elements());
      Composed(mode, decl, extra, longopts, uses, end);
    }
  }

  lemma Composed(mode: Ordering, decl: seq<Declared>, extra: string, longopts: Option<seq<LongOption>>, uses: seq<Use>, end: Ending)
    requires uses != [] && forall i :: 0 <= i < |uses| ==> Proper(decl, extra, longopts, uses[i])
    ensures var more := uses[1..];
      InFront(mode, decl, longopts, extra, uses[0],
              Scan(AllReported(mode, decl, longopts, extra, more), Taken(mode, more) + end.Options(), Left(mode, more) + end.Operands()))
      == Scan(AllReported(mode, decl, longopts, extra, uses), Taken(mode, uses) + end.Options(), Left(mode, uses) + end.Operands())
  {
    hide Proper, Reported, Elements;
    var u, more := uses[0], uses[1..];
    Regroup(if PassedBy(mode, u) then [] else Elements(u), Taken(mode, more), end.Options());
    Regroup(if PassedBy(mode, u) then Elements(u) else [], Left(mode, more), end.Operands());
    if PassedBy(mode, u) { NothingReported(mode, decl, longopts, extra, u, AllReported(mode, decl, longopts, extra, more)); }
  }

  lemma NoUses(mode: Ordering, decl: seq<Declared>, extra: string, longopts: Option<seq<LongOption>>)
    ensures AllReported(mode, decl, longopts, extra, []) == [] && Taken(mode, []) == [] && Left(mode, []) == []
  {
  }

  lemma NothingReported(mode: Ordering, decl: seq<Declared>, longopts: Option<seq<LongOption>>, extra: string, u: Use, more: seq<Outcome>)
    requires Proper(decl, extra, longopts, u) && PassedBy(mode, u)
    ensures Reported(mode, decl, longopts, extra, u) + more == more
  {
  }

  lemma Regroup(a: seq<string>, b: seq<string>, c: seq<string>)
    ensures a + (b + c) == a + b + c && [] + b == b
  {
  }

  lemma EndingMeans(mode: Ordering, first: string, later: string, decl: seq<Declared>, extra: string,
                    longopts: Option<seq<LongOption>>, end: Ending)
    requires ProperLine(mode, decl, extra, longopts, [], end)
    ensures Parse(mode, first, later, longopts, end.Elements()) == Scan([], end.Options(), end.Operands())
  {
    if end.Dashes? {
      assert (["--"] + end.rest)[1..] == end.rest && (["--"] + end.rest)[..1] == ["--"];
    }
  }

  // ---------- The program

  /** What the first character of an option string and the environment choose. */
  function Chosen(order: string, posixlyCorrect: bool): Ordering {
    if order == "-" then ReturnInOrder else if order == "+" || posixlyCorrect then RequireOrder else Permute
  }

  /** A program that declares its options and reads its command line until -1 is told exactly the uses
      written there, in their order, whichever way they are written; and it finds the operands behind
      everything else. */
  method ReadCommandLine(program: string, order: string, silent: bool, decl: seq<Declared>, longopts: Option<seq<LongOption>>,
                  posixlyCorrect: bool, args: seq<string>, ghost uses: seq<Use>, ghost end: Ending)
    returns (replies: seq<(int, Option<string>)>, operands: seq<string>)
    requires order in {"", "+", "-"} && WellDeclared(decl) && forall i :: 0 <= i < |decl| ==> decl[i].c !in order
    requires order == "" && !silent && decl != [] ==> decl[0].c !in "+-"
    requires !OffersW(order + ((if silent then ":" else "") + Spelled(decl))) && NeverMinusOne(longopts)
    requires ProperLine(Chosen(order, posixlyCorrect), decl, order, longopts, uses, end) && args == LineOf(uses) + end.Elements()
    ensures var mode := Chosen(order, posixlyCorrect);
      && replies == Replies(AllReported(mode, decl, longopts, order, uses))
      && operands == Left(mode, uses) + end.Operands()
  {
    hide Parse, Declares, ProperLine, AllReported, LineOf, OffersW, NeverMinusOne, Replies, Spelled, WellDeclared,
         Stripped, ChosenOrdering, Chosen, State.Valid, State.Over, UntilEnd, Left;
    var declared := (if silent then ":" else "") + Spelled(decl);
    var optstring := order + declared;
    ghost var mode := Chosen(order, posixlyCorrect);
    Spelling(order, silent, decl, posixlyCorrect);
    LineMeans(mode, declared, optstring, decl, order, longopts, uses, end);
    ghost var whole := Parse(mode, declared, optstring, longopts, args);
    var argv := new string[1 + |args|](i requires 0 <= i < 1 + |args| => if i == 0 then program else args[i - 1]);
    var scanner := new Scanner(argv, posixlyCorrect);
    assert argv[..][1..] == args;
    StillValid(scanner.Now(), longopts);
    replies := scanner.ScanAll(optstring, longopts);
    assert whole.events[..|whole.events|] == whole.events;
    operands := argv[scanner.optind..];
    FromOptind(argv[..], scanner.original, whole, scanner.optind);
  }

  lemma Spelling(order: string, silent: bool, decl: seq<Declared>, posixlyCorrect: bool)
    requires order in {"", "+", "-"} && WellDeclared(decl) && forall i :: 0 <= i < |decl| ==> decl[i].c !in order
    requires order == "" && !silent && decl != [] ==> decl[0].c !in "+-"
    ensures var declared := (if silent then ":" else "") + Spelled(decl); var o := order + declared;
      && Stripped(o) == declared && ChosenOrdering(o, posixlyCorrect) == Chosen(order, posixlyCorrect)
      && Declares(declared, decl, order) && Declares(o, decl, order)
  {
    hide Declares, Spelled, Stripped, ChosenOrdering, Chosen;
    var pre := if silent then ":" else "";
    var declared := pre + Spelled(decl);
    FirstCharacter(pre, decl);
    Orders(order, declared, posixlyCorrect);
    SpelledDeclares(pre, decl);
    DeclaresBehind(order, declared, decl);
  }

  lemma FirstCharacter(pre: string, decl: seq<Declared>)
    requires pre in {"", ":"}
    ensures var o := pre + Spelled(decl);
      o != "" ==> o[0] == if pre == ":" then ':' else if decl != [] then decl[0].c else ' '
  {
  }

  lemma Orders(order: string, declared: string, posixlyCorrect: bool)
    requires order in {"", "+", "-"} && (order == "" && declared != "" ==> declared[0] !in "+-")
    ensures Stripped(order + declared) == declared && ChosenOrdering(order + declared, posixlyCorrect) == Chosen(order, posixlyCorrect)
  {
    var o := order + declared;
    assert order != "" ==> o[0] == order[0] && o[1..] == declared;
    assert order == "" ==> o == declared;
  }

  lemma DeclaresBehind(order: string, declared: string, decl: seq<Declared>)
    requires Declares(declared, decl, "")
    ensures Declares(declared, decl, order) && Declares(order + declared, decl, order)
  {
    hide Has, Lacks, Arity;
    forall c | c !in order
      ensures if Arity(decl, c).Some? then Has(order + declared, c, Arity(decl, c).value) else Lacks(order + declared, c)
    {
      assert c !in "";
      HasBehind(order, declared, c);
    }
  }

  lemma HasBehind(order: string, o: string, c: char)
    requires c !in order
    ensures forall k: nat :: Has(o, c, k) ==> Has(order + o, c, k)
    ensures Lacks(o, c) ==> Lacks(order + o, c)
  {
    forall k: nat | Has(o, c, k) ensures Has(order + o, c, k) {
      var p: string, t: string :| Split(o, p, c, t) && Colons(t) == k;
      assert order + o == (order + p) + [c] + t;
      assert Split(order + o, order + p, c, t);
    }
  }

  lemma StillValid(s: State, longopts: Option<seq<LongOption>>)
    requires s.Valid(None) && !s.initialized
    ensures s.Valid(longopts)
  {
  }

  lemma FromOptind(argv: seq<string>, original: seq<string>, whole: Scan, optind: int)
    requires |original| >= 1 && argv == original[..1] + whole.options + whole.operands && optind == 1 + |whole.options|
    ensures argv[optind..] == whole.operands
  {
  }

  // ---------- What else a caller can see

  /** Beyond the reply: `optopt` names the option complained about, `*longind` the entry found, and a
      flag variable gets its value; all else stays as it was. */
  lemma VisibleEffects(before: State, after: State, ret: int, arg: Option<string>, culprit: int, i: nat, flag: nat, val: int)
    requires after.Shows(Outcome(ret, arg, None, None, None), ret, before)
      || after.Shows(Outcome(ret, arg, Some(culprit), None, None), ret, before)
      || after.Shows(Outcome(ret, arg, None, Some(i), None), ret, before)
      || after.Shows(Outcome(ret, arg, None, Some(i), Some((flag, val))), ret, before)
    ensures after.optarg == arg
    ensures after.Shows(Outcome(ret, arg, None, None, None), ret, before) ==>
      after.optopt == before.optopt && after.longind == before.longind && after.flags == before.flags
    ensures after.Shows(Outcome(ret, arg, Some(culprit), None, None), ret, before) ==>
      after.optopt == culprit && after.longind == before.longind && after.flags == before.flags
    ensures after.Shows(Outcome(ret, arg, None, Some(i), None), ret, before) ==>
      after.optopt == before.optopt && after.longind == Some(i) && after.flags == before.flags
    ensures after.Shows(Outcome(ret, arg, None, Some(i), Some((flag, val))), ret, before) ==>
      after.optopt == before.optopt && after.longind == Some(i) && after.flags == before.flags[flag := val]
  {
  }
}
