/**
 What the ordering character at the front of an option string does to a scan.  Only the first call
 strips it; the calls after that look options up in the whole string.  Here is exactly when this
 changes what the scan reports.
 */
module GetoptOrdering {
  import opened Common
  import opened GetoptSpec
  import opened GetoptScanner

  /** A character of a cluster is reported alike, whether it is looked up in the stripped or in the
      whole string; `tail` is the rest of the cluster. */
  predicate SameHere(o: string, c: char, tail: string, following: seq<string>) {
    var missing := tail == "" && following == [];
    match (Kind(Stripped(o), c), Kind(o, c))
    case (RequiredArgument, RequiredArgument) => missing ==> MissingArgument(Stripped(o)) == MissingArgument(o)
    case (RequiredArgument, OptionalArgument) => tail != ""
    case (OptionalArgument, RequiredArgument) => tail != ""
    case (NoArgument, OptionalArgument) => tail == ""
    case (OptionalArgument, NoArgument) => tail == ""
    case (Invalid, RequiredArgument) => missing
    case (stripped, whole) => stripped == whole
  }

  /** The cluster goes on behind its first character. */
  predicate GoesOn(optstring: string, cs: string)
    requires cs != ""
  {
    |cs| > 1 && (Kind(optstring, cs[0]).Invalid? || Kind(optstring, cs[0]).NoArgument?)
  }

  /** Every character of the cluster that is reached. */
  predicate ClusterSame(o: string, cs: string, following: seq<string>)
    requires cs != ""
    decreases |cs|
  {
    SameHere(o, cs[0], cs[1..], following) &&
    (GoesOn(Stripped(o), cs) ==> ClusterSame(o, cs[1..], following))
  }

  /** A long option whose required argument is missing: its report depends on a leading colon. */
  ghost predicate LongMissing(table: seq<LongOption>, text: string, following: seq<string>) {
    var r := Lookup(table, text);
    IndexOf(text, '=') == |text| && following == [] && r.Found? && r.index < |table| && table[r.index].hasArg == 1
  }

  ghost predicate LongSame(o: string, table: seq<LongOption>, text: string, following: seq<string>) {
    LongMissing(table, text, following) ==> MissingArgument(Stripped(o)) == MissingArgument(o)
  }

  ghost predicate ElementSame(o: string, longopts: Option<seq<LongOption>>, args: seq<string>)
    requires args != [] && OptionElement(args[0])
  {
    if IsLong(longopts, args[0]) then LongSame(o, longopts.value, args[0][2..], args[1..])
    else ClusterSame(o, args[0][1..], args[1..])
  }

  /** Nothing from here on is reported differently. */
  ghost predicate SameFrom(mode: Ordering, o: string, longopts: Option<seq<LongOption>>, args: seq<string>)
    decreases |args|
  {
    args == [] || args[0] == "--" ||
    if NonOption(args[0]) then mode.RequireOrder? || SameFrom(mode, o, longopts, args[1..])
    else
      var k := ElementEvents(Stripped(o), Stripped(o), longopts, args).1;
      ElementSame(o, longopts, args) && SameFrom(mode, o, longopts, args[1 + k..])
  }

  /** The characters behind the first of a cluster. */
  ghost predicate SecondSame(o: string, longopts: Option<seq<LongOption>>, args: seq<string>)
    requires args != [] && OptionElement(args[0])
  {
    !IsLong(longopts, args[0]) && GoesOn(Stripped(o), args[0][1..]) ==> ClusterSame(o, args[0][2..], args[1..])
  }

  /** Nothing after the first reply is reported differently. */
  ghost predicate SameAfterFirst(mode: Ordering, o: string, longopts: Option<seq<LongOption>>, args: seq<string>)
    decreases |args|
  {
    args == [] || args[0] == "--" ||
    if NonOption(args[0]) then
      match mode
      case RequireOrder => true
      case Permute => SameAfterFirst(mode, o, longopts, args[1..])
      case ReturnInOrder => SameFrom(mode, o, longopts, args[1..])
    else
      var k := ElementEvents(Stripped(o), Stripped(o), longopts, args).1;
      SecondSame(o, longopts, args) && SameFrom(mode, o, longopts, args[1 + k..])
  }

  // ---------- It is exact

  lemma RepliesAppend(xs: seq<Outcome>, ys: seq<Outcome>)
    ensures Replies(xs + ys) == Replies(xs) + Replies(ys)
  {
  }

  /** Sequences with equally many replies in front are compared part by part. */
  lemma RepliesSplit(a: seq<Outcome>, b: seq<Outcome>, xs: seq<Outcome>, ys: seq<Outcome>)
    requires |a| == |b|
    ensures Replies(a + xs) == Replies(b + ys) <==> Replies(a) == Replies(b) && Replies(xs) == Replies(ys)
  {
    RepliesAppend(a, xs);
    RepliesAppend(b, ys);
    if Replies(a + xs) == Replies(b + ys) {
      assert Replies(a) == Replies(a + xs)[..|a|] && Replies(b) == Replies(b + ys)[..|b|];
      assert Replies(xs) == Replies(a + xs)[|a|..] && Replies(ys) == Replies(b + ys)[|b|..];
    }
  }

  function Reply(e: Outcome): (int, Option<string>) {
    (e.ret, e.optarg)
  }

  /** The first replies of a cluster are equal exactly if its first character is reported alike; and
      then both readings go on alike, or neither does. */
  lemma FirstSameIff(o: string, cs: string, following: seq<string>)
    requires cs != ""
    ensures var (es, ks) := ClusterEvents(Stripped(o), Stripped(o), cs, following);
      var (eo, ko) := ClusterEvents(o, o, cs, following);
      && (Reply(es[0]) == Reply(eo[0]) <==> SameHere(o, cs[0], cs[1..], following))
      && (SameHere(o, cs[0], cs[1..], following) ==>
            && (GoesOn(Stripped(o), cs) <==> GoesOn(o, cs))
            && (!GoesOn(o, cs) ==> |es| == |eo| == 1 && ks == ko))
  {
    if Stripped(o) != o { OrderingCharacterComesBack(o); }
  }

  lemma GoesOnEvents(optstring: string, cs: string, following: seq<string>)
    requires cs != "" && GoesOn(optstring, cs)
    ensures var (events, k) := ClusterEvents(optstring, optstring, cs, following);
      var rest := ClusterEvents(optstring, optstring, cs[1..], following);
      events == [events[0]] + rest.0 && k == rest.1
  {
  }

  /** The same for the whole cluster, whatever is reported behind it. */
  lemma {:induction false} ClusterSameIff(o: string, cs: string, following: seq<string>, xs: seq<Outcome>, ys: seq<Outcome>)
    requires cs != ""
    ensures var (es, ks) := ClusterEvents(Stripped(o), Stripped(o), cs, following);
      var (eo, ko) := ClusterEvents(o, o, cs, following);
      && (Replies(es + xs) == Replies(eo + ys) ==> ClusterSame(o, cs, following))
      && (ClusterSame(o, cs, following) ==>
            ks == ko && (Replies(es + xs) == Replies(eo + ys) <==> Replies(xs) == Replies(ys)))
    decreases |cs|
  {
    hide ClusterEvents, SameHere, GoesOn, Replies;
    var s := Stripped(o);
    var (es, ks) := ClusterEvents(s, s, cs, following);
    var (eo, ko) := ClusterEvents(o, o, cs, following);
    FirstSameIff(o, cs, following);
    FirstReplies(es, xs);
    FirstReplies(eo, ys);
    if SameHere(o, cs[0], cs[1..], following) {
      if GoesOn(o, cs) {
        CanGoOn(o, cs);
        GoesOnEvents(o, cs, following);
        GoesOnEvents(s, cs, following);
        var (es', ks') := ClusterEvents(s, s, cs[1..], following);
        var (eo', ko') := ClusterEvents(o, o, cs[1..], following);
        ClusterSameIff(o, cs[1..], following, xs, ys);
        assert es + xs == [es[0]] + (es' + xs) && eo + ys == [eo[0]] + (eo' + ys);
        RepliesSplit([es[0]], [eo[0]], es' + xs, eo' + ys);
        OneReply(es[0]);
        OneReply(eo[0]);
      } else {
        assert es == [es[0]] && eo == [eo[0]];
        RepliesSplit(es, eo, xs, ys);
        OneReply(es[0]);
        OneReply(eo[0]);
      }
    }
  }

  lemma CanGoOn(o: string, cs: string)
    requires cs != "" && GoesOn(o, cs)
    ensures |cs| > 1
  {
  }

  lemma OneReply(e: Outcome)
    ensures Replies([e]) == [Reply(e)]
  {
  }

  lemma FirstReplies(es: seq<Outcome>, xs: seq<Outcome>)
    requires es != []
    ensures Replies(es + xs) != [] && Replies(es + xs)[0] == Reply(es[0])
  {
  }

  /** The events of a long option in the two strings. */
  lemma LongSameIff(o: string, table: seq<LongOption>, text: string, following: seq<string>)
    ensures var (es, ks) := LongEvent(Stripped(o), table, text, following);
      var (eo, ko) := LongEvent(o, table, text, following);
      ks == ko && (Reply(es) == Reply(eo) <==> LongSame(o, table, text, following))
  {
    var end := IndexOf(text, '=');
    if end == |text| { assert text[..end] == text; }
  }

  /** `b` reports what `a` reports exactly if `same`; and then it leaves the same vector. */
  ghost predicate EqualIff(a: Scan, b: Scan, same: bool) {
    && (Replies(b.events) == Replies(a.events) <==> same)
    && (same ==> b.options == a.options && b.operands == a.operands)
  }

  /** Two readings that begin with the events `es` and `eo`, and with as many elements. */
  lemma EqualIffBehind(a: Scan, b: Scan, es: seq<Outcome>, eo: seq<Outcome>, head: seq<string>, head': seq<string>,
                       here: bool, behind: bool)
    requires here ==> head == head' && EqualIff(a, b, behind)
    requires Replies(es + a.events) == Replies(eo + b.events) ==> here
    requires here ==> (Replies(es + a.events) == Replies(eo + b.events) <==> Replies(a.events) == Replies(b.events))
    ensures EqualIff(Scan(es + a.events, head + a.options, a.operands), Scan(eo + b.events, head' + b.options, b.operands),
                     here && behind)
  {
    hide Replies;
  }

  /** A scan all of whose calls use the whole string, against one that always strips it. */
  lemma {:induction false} SameFromIff(mode: Ordering, o: string, longopts: Option<seq<LongOption>>, args: seq<string>)
    ensures EqualIff(Parse(mode, Stripped(o), Stripped(o), longopts, args), Parse(mode, o, o, longopts, args),
                     SameFrom(mode, o, longopts, args))
    decreases |args|
  {
    hide Replies, ElementEvents, ElementSame, EqualIff;
    var s := Stripped(o);
    if args == [] || args[0] == "--" || (NonOption(args[0]) && mode.RequireOrder?) {
      SameIsEqual(Parse(mode, s, s, longopts, args));
    } else if NonOption(args[0]) {
      SameFromIff(mode, o, longopts, args[1..]);
      OperandInFront(mode, Parse(mode, s, s, longopts, args[1..]), Parse(mode, o, o, longopts, args[1..]), args,
                     SameFrom(mode, o, longopts, args[1..]));
    } else {
      SameFromIff(mode, o, longopts, args[1 + ElementEvents(s, s, longopts, args).1..]);
      SameFromElement(mode, o, longopts, args);
    }
  }

  lemma SameFromElement(mode: Ordering, o: string, longopts: Option<seq<LongOption>>, args: seq<string>)
    requires args != [] && OptionElement(args[0])
    requires var rest := args[1 + ElementEvents(Stripped(o), Stripped(o), longopts, args).1..];
      EqualIff(Parse(mode, Stripped(o), Stripped(o), longopts, rest), Parse(mode, o, o, longopts, rest), SameFrom(mode, o, longopts, rest))
    ensures EqualIff(Parse(mode, Stripped(o), Stripped(o), longopts, args), Parse(mode, o, o, longopts, args),
                     SameFrom(mode, o, longopts, args))
  {
    hide Replies, ElementEvents, ElementSame, EqualIff, Parse;
    var s := Stripped(o);
    var (es, ks) := ElementEvents(s, s, longopts, args);
    var (eo, ko) := ElementEvents(o, o, longopts, args);
    var a := Parse(mode, s, s, longopts, args[1 + ks..]);
    var b := Parse(mode, o, o, longopts, args[1 + ko..]);
    ParseElement(mode, s, s, longopts, args);
    ParseElement(mode, o, o, longopts, args);
    ElementSameIff(o, longopts, args, a.events, b.events);
    EqualIffBehind(a, b, es, eo, args[..1 + ks], args[..1 + ko],
                   ElementSame(o, longopts, args), SameFrom(mode, o, longopts, args[1 + ks..]));
  }

  lemma ParseElement(mode: Ordering, first: string, later: string, longopts: Option<seq<LongOption>>, args: seq<string>)
    requires args != [] && OptionElement(args[0])
    ensures var (events, k) := ElementEvents(first, later, longopts, args);
      var rest := Parse(mode, later, later, longopts, args[1 + k..]);
      Parse(mode, first, later, longopts, args) == Scan(events + rest.events, args[..1 + k] + rest.options, rest.operands)
  {
  }

  lemma SameIsEqual(a: Scan)
    ensures EqualIff(a, a, true)
  {
  }

  /** An operand in front, skipped or reported. */
  lemma OperandInFront(mode: Ordering, a: Scan, b: Scan, args: seq<string>, same: bool)
    requires args != [] && EqualIff(a, b, same)
    ensures EqualIff(a.(operands := args[..1] + a.operands), b.(operands := args[..1] + b.operands), same)
    ensures var e := [Report(1).(optarg := Some(args[0]))];
      EqualIff(Scan(e + a.events, args[..1] + a.options, a.operands), Scan(e + b.events, args[..1] + b.options, b.operands), same)
  {
    hide Replies;
    var e := [Report(1).(optarg := Some(args[0]))];
    RepliesSplit(e, e, b.events, a.events);
  }

  lemma ElementSameIff(o: string, longopts: Option<seq<LongOption>>, args: seq<string>, xs: seq<Outcome>, ys: seq<Outcome>)
    requires args != [] && OptionElement(args[0])
    ensures var (es, ks) := ElementEvents(Stripped(o), Stripped(o), longopts, args);
      var (eo, ko) := ElementEvents(o, o, longopts, args);
      && (Replies(es + xs) == Replies(eo + ys) ==> ElementSame(o, longopts, args))
      && (ElementSame(o, longopts, args) ==>
            ks == ko && (Replies(es + xs) == Replies(eo + ys) <==> Replies(xs) == Replies(ys)))
  {
    hide Replies, ClusterEvents, LongEvent, LongSame, ClusterSame;
    if IsLong(longopts, args[0]) {
      var es, eo := ElementEvents(Stripped(o), Stripped(o), longopts, args).0, ElementEvents(o, o, longopts, args).0;
      LongSameIff(o, longopts.value, args[0][2..], args[1..]);
      OneReply(es[0]);
      OneReply(eo[0]);
      RepliesSplit(es, eo, xs, ys);
    } else {
      ClusterSameIff(o, args[0][1..], args[1..], xs, ys);
    }
  }

  /** What `getopt` reports over a whole scan is what it would report if every call stripped the
      ordering character, exactly if nothing after the first reply is reported differently; and then
      the vector is left in the same order. */
  lemma {:induction false} ScanUnaffectedIff(mode: Ordering, o: string, longopts: Option<seq<LongOption>>, args: seq<string>)
    ensures EqualIff(Parse(mode, Stripped(o), Stripped(o), longopts, args), Parse(mode, Stripped(o), o, longopts, args),
                     SameAfterFirst(mode, o, longopts, args))
    decreases |args|
  {
    hide Replies, ElementEvents, SecondSame, SameFrom, EqualIff;
    var s := Stripped(o);
    if args == [] || args[0] == "--" || (NonOption(args[0]) && mode.RequireOrder?) {
      SameIsEqual(Parse(mode, s, s, longopts, args));
    } else if NonOption(args[0]) && mode.Permute? {
      ScanUnaffectedIff(mode, o, longopts, args[1..]);
      OperandInFront(mode, Parse(mode, s, s, longopts, args[1..]), Parse(mode, s, o, longopts, args[1..]), args,
                     SameAfterFirst(mode, o, longopts, args[1..]));
    } else if NonOption(args[0]) {
      SameFromIff(mode, o, longopts, args[1..]);
      OperandInFront(mode, Parse(mode, s, s, longopts, args[1..]), Parse(mode, o, o, longopts, args[1..]), args,
                     SameFrom(mode, o, longopts, args[1..]));
    } else {
      SameAfterElement(mode, o, longopts, args);
    }
  }

  lemma SameAfterElement(mode: Ordering, o: string, longopts: Option<seq<LongOption>>, args: seq<string>)
    requires args != [] && OptionElement(args[0])
    ensures EqualIff(Parse(mode, Stripped(o), Stripped(o), longopts, args), Parse(mode, Stripped(o), o, longopts, args),
                     SameAfterFirst(mode, o, longopts, args))
  {
    hide Replies, ElementEvents, SecondSame, SameFrom, EqualIff, Parse;
    var s := Stripped(o);
    var (es, ks) := ElementEvents(s, s, longopts, args);
    var (eo, ko) := ElementEvents(s, o, longopts, args);
    var a := Parse(mode, s, s, longopts, args[1 + ks..]);
    var b := Parse(mode, o, o, longopts, args[1 + ko..]);
    ParseElement(mode, s, s, longopts, args);
    ParseElement(mode, s, o, longopts, args);
    SameFromIff(mode, o, longopts, args[1 + ks..]);
    SecondSameIff(o, longopts, args, a.events, b.events);
    EqualIffBehind(a, b, es, eo, args[..1 + ks], args[..1 + ko],
                   SecondSame(o, longopts, args), SameFrom(mode, o, longopts, args[1 + ks..]));
  }

  /** An element that the first call begins: what that reports is always read alike. */
  lemma SecondSameIff(o: string, longopts: Option<seq<LongOption>>, args: seq<string>, xs: seq<Outcome>, ys: seq<Outcome>)
    requires args != [] && OptionElement(args[0])
    ensures var (es, ks) := ElementEvents(Stripped(o), Stripped(o), longopts, args);
      var (eo, ko) := ElementEvents(Stripped(o), o, longopts, args);
      && (Replies(es + xs) == Replies(eo + ys) ==> SecondSame(o, longopts, args))
      && (SecondSame(o, longopts, args) ==>
            ks == ko && (Replies(es + xs) == Replies(eo + ys) <==> Replies(xs) == Replies(ys)))
  {
    hide Replies, ClusterSame;
    var s, cs := Stripped(o), args[0][1..];
    var (es, ks) := ElementEvents(s, s, longopts, args);
    var (eo, ko) := ElementEvents(s, o, longopts, args);
    if !IsLong(longopts, args[0]) && GoesOn(s, cs) {
      var (es', ks') := ClusterEvents(s, s, cs[1..], args[1..]);
      var (eo', ko') := ClusterEvents(o, o, cs[1..], args[1..]);
      assert cs[1..] == args[0][2..];
      ClusterSameIff(o, cs[1..], args[1..], xs, ys);
      assert es == [es[0]] + es' && eo == [es[0]] + eo';
      assert es + xs == [es[0]] + (es' + xs) && eo + ys == [es[0]] + (eo' + ys);
      RepliesSplit([es[0]], [es[0]], es' + xs, eo' + ys);
    } else {
      assert es == eo && ks == ko;
      RepliesSplit(es, eo, xs, ys);
    }
  }

  // ---------- Cases

  /** Both strings agree on the ordering character and on the report of a missing argument. */
  predicate Agree(o: string) {
    o == "" || (Kind(o, o[0]) == Kind(Stripped(o), o[0]) && MissingArgument(o) == MissingArgument(Stripped(o)))
  }

  lemma AgreeCluster(o: string, cs: string, following: seq<string>)
    requires Agree(o) && cs != ""
    ensures ClusterSame(o, cs, following)
    decreases |cs|
  {
    if Stripped(o) != o { OrderingCharacterComesBack(o); }
    if |cs| > 1 { AgreeCluster(o, cs[1..], following); }
  }

  lemma {:induction false} AgreeFrom(mode: Ordering, o: string, longopts: Option<seq<LongOption>>, args: seq<string>)
    requires Agree(o)
    ensures SameFrom(mode, o, longopts, args)
    decreases |args|
  {
    if args == [] || args[0] == "--" {
    } else if NonOption(args[0]) {
      AgreeFrom(mode, o, longopts, args[1..]);
    } else {
      if !IsLong(longopts, args[0]) { AgreeCluster(o, args[0][1..], args[1..]); }
      AgreeFrom(mode, o, longopts, args[1 + ElementEvents(Stripped(o), Stripped(o), longopts, args).1..]);
    }
  }

  /** Then no scan is affected: so for a string without an ordering character, and for "--". */
  lemma {:induction false} AgreeingStrings(mode: Ordering, o: string, longopts: Option<seq<LongOption>>, args: seq<string>)
    requires Agree(o)
    ensures SameAfterFirst(mode, o, longopts, args)
    decreases |args|
  {
    if args == [] || args[0] == "--" {
    } else if NonOption(args[0]) {
      AgreeingStrings(mode, o, longopts, args[1..]);
      AgreeFrom(mode, o, longopts, args[1..]);
    } else {
      if !IsLong(longopts, args[0]) && |args[0]| > 2 { AgreeCluster(o, args[0][2..], args[1..]); }
      AgreeFrom(mode, o, longopts, args[1 + ElementEvents(Stripped(o), Stripped(o), longopts, args).1..]);
    }
  }

  lemma PlainStringsAgree(o: string)
    ensures Stripped(o) == o ==> Agree(o)
    ensures Agree("--")
  {
    assert "--"[1..] == "-";
  }

  /** The option string "-a" and the element "-a-": '-' is reported as an option. */
  lemma DashBecomesAnOption()
    ensures Replies(Parse(ReturnInOrder, "a", "a", None, ["-a-"]).events) == [('a' as int, None), ('?' as int, None)]
    ensures Replies(Parse(ReturnInOrder, "a", "-a", None, ["-a-"]).events) == [('a' as int, None), ('-' as int, None)]
    ensures Stripped("-a") == "a" && ChosenOrdering("-a", false) == ReturnInOrder
  {
    var args := ["-a-"];
    assert "-a-"[1..] == "a-" && "a-"[1..] == "-" && "-"[1..] == "" && args[1..] == [];
    assert "-a"[1..] == "a" && Kind("a", 'a') == NoArgument && Kind("a", '-') == Invalid && Kind("-a", '-') == NoArgument;
    assert ClusterEvents("a", "a", "-", []) == ([Complain('?', '-' as int)], 0);
    assert ClusterEvents("-a", "-a", "-", []) == ([Report('-' as int)], 0);
    assert ElementEvents("a", "a", None, args).0 == [Report('a' as int), Complain('?', '-' as int)];
    assert ElementEvents("a", "-a", None, args).0 == [Report('a' as int), Report('-' as int)];
  }
}
