/**
 `_getopt_internal` and the loop that calls it until it returns -1.  The static variables of
 lib/getopt.c are fields of `Scanner`; error messages are not modelled, and neither are the `W;`
 form of the option string, getopt_long_only and the environment flags of the C library.
 */
module GetoptScanner {
  import opened Common
  import opened GetoptSpec
  import opened Getopt

  /** The option string after `_getopt_initialize` has taken its ordering character away. */
  function Stripped(optstring: string): string {
    if optstring != "" && optstring[0] in {'-', '+'} then optstring[1..] else optstring
  }

  function ChosenOrdering(optstring: string, posixlyCorrect: bool): Ordering {
    if optstring != "" && optstring[0] == '-' then ReturnInOrder
    else if optstring != "" && optstring[0] == '+' then RequireOrder
    else if posixlyCorrect then RequireOrder
    else Permute
  }

  /** The option string asks for the "-W text" spelling of long options, which is not modelled. */
  predicate OffersW(optstring: string) {
    var i := IndexOf(optstring, 'W');
    i + 1 < |optstring| && optstring[i + 1] == ';'
  }

  /** Calls after the first see the ordering character again.  Every other character means the same
      to them, but the ordering character has become a valid option, and a leading ':' behind it no
      longer selects ':' as the report of a missing argument.  PERMUTE order is never affected. */
  lemma OrderingCharacterComesBack(optstring: string)
    requires Stripped(optstring) != optstring
    ensures forall c :: c != optstring[0] ==> Kind(optstring, c) == Kind(Stripped(optstring), c)
    ensures !Kind(optstring, optstring[0]).Invalid?
    ensures optstring[0] !in Stripped(optstring) ==> Kind(Stripped(optstring), optstring[0]).Invalid?
    ensures MissingArgument(optstring) == '?'
    ensures MissingArgument(Stripped(optstring)) == ':' <==> |optstring| > 1 && optstring[1] == ':'
    ensures forall posix :: !ChosenOrdering(optstring, posix).Permute?
  {
    forall c | c != optstring[0] ensures IndexOf(optstring, c) == 1 + IndexOf(optstring[1..], c) {
    }
  }

  /** How a call that starts to read an option element sets `nextchar`. */
  function AfterDashes(longopts: Option<seq<LongOption>>, element: string): string
    requires OptionElement(element)
  {
    element[if IsLong(longopts, element) then 2 else 1..]
  }

  /** A reading of what lies ahead, put behind what was already taken and skipped. */
  ghost function Join(options: seq<string>, operands: seq<string>, ahead: Scan): Scan {
    Scan(ahead.events, options + ahead.options, operands + ahead.operands)
  }

  ghost predicate SkippableAt(orig: seq<string>, ind: int) {
    0 <= ind < |orig| && NonOption(orig[ind])
  }

  /** Skipping an operand does not change the reading of the whole vector. */
  lemma SkipKeepsReading(first: string, later: string, longopts: Option<seq<LongOption>>, orig: seq<string>, ind: int,
                         options: seq<string>, operands: seq<string>)
    requires SkippableAt(orig, ind)
    ensures Join(options, operands + [orig[ind]], Parse(Permute, first, later, longopts, orig[ind + 1..]))
         == Join(options, operands, Parse(Permute, first, later, longopts, orig[ind..]))
  {
    var args := orig[ind..];
    assert args[1..] == orig[ind + 1..] && args[..1] == [orig[ind]];
    var rest := Parse(Permute, first, later, longopts, args[1..]);
    assert operands + (args[..1] + rest.operands) == operands + [orig[ind]] + rest.operands;
  }

  /** What the parse says at index `ind` of `orig`, case by case. */
  lemma ReadEnd(mode: Ordering, first: string, later: string, longopts: Option<seq<LongOption>>, orig: seq<string>,
                options: seq<string>, operands: seq<string>)
    ensures Join(options, operands, Parse(mode, first, later, longopts, orig[|orig|..])) == Scan([], options, operands)
  {
  }

  lemma ReadTerminator(mode: Ordering, first: string, later: string, longopts: Option<seq<LongOption>>, orig: seq<string>,
                       ind: nat, options: seq<string>, operands: seq<string>)
    requires ind < |orig| && orig[ind] == "--"
    ensures Join(options, operands, Parse(mode, first, later, longopts, orig[ind..]))
         == Scan([], options + ["--"], operands + orig[ind + 1..])
  {
    assert orig[ind..][..1] == ["--"] && orig[ind..][1..] == orig[ind + 1..];
  }

  lemma ReadOperand(mode: Ordering, first: string, later: string, longopts: Option<seq<LongOption>>, orig: seq<string>,
                    ind: nat, options: seq<string>, operands: seq<string>)
    requires ind < |orig| && NonOption(orig[ind]) && !mode.Permute?
    ensures var whole := Join(options, operands, Parse(mode, first, later, longopts, orig[ind..]));
            if mode.RequireOrder? then whole == Scan([], options, operands + orig[ind..])
            else
              && whole.events != []
              && whole.events[0] == Report(1).(optarg := Some(orig[ind]))
              && Join(options + [orig[ind]], operands, Parse(mode, later, later, longopts, orig[ind + 1..]))
                 == whole.(events := whole.events[1..])
  {
    var args := orig[ind..];
    assert args[..1] == [orig[ind]] && args[1..] == orig[ind + 1..];
    var rest := Parse(mode, later, later, longopts, args[1..]);
    assert options + (args[..1] + rest.options) == options + [orig[ind]] + rest.options;
    ConsTail(Report(1).(optarg := Some(orig[ind])), rest.events);
  }

  lemma ReadElement(mode: Ordering, first: string, later: string, longopts: Option<seq<LongOption>>, orig: seq<string>,
                    ind: nat, options: seq<string>, operands: seq<string>)
    requires ind < |orig| && OptionElement(orig[ind])
    ensures var whole := Join(options, operands, Parse(mode, first, later, longopts, orig[ind..]));
            var (events, k) := ElementEvents(first, later, longopts, orig[ind..]);
            && ind + 1 + k <= |orig| && |events| <= |whole.events| && whole.events[..|events|] == events
            && Join(options + orig[ind..][..1 + k], operands, Parse(mode, later, later, longopts, orig[ind + 1 + k..]))
               == whole.(events := whole.events[|events|..])
  {
    var args := orig[ind..];
    var (events, k) := ElementEvents(first, later, longopts, args);
    assert args[1 + k..] == orig[ind + 1 + k..];
    var rest := Parse(mode, later, later, longopts, args[1 + k..]);
    assert options + (args[..1 + k] + rest.options) == options + args[..1 + k] + rest.options;
  }

  /** Entering a cluster at its first character does not change the reading. */
  lemma EnterCluster(mode: Ordering, first: string, later: string, longopts: Option<seq<LongOption>>, orig: seq<string>, ind: nat)
    requires ind < |orig| && OptionElement(orig[ind]) && !IsLong(longopts, orig[ind])
    ensures Parse(mode, first, later, longopts, orig[ind..])
         == Remaining(mode, first, later, longopts, orig[ind][1..], orig[ind..])
  {
  }

  /** Reporting one character of a cluster uses up the first event of the reading. */
  lemma ReadCluster(mode: Ordering, first: string, later: string, longopts: Option<seq<LongOption>>, orig: seq<string>,
                    ind: nat, cs: string, options: seq<string>, operands: seq<string>)
    requires ind < |orig| && cs != ""
    ensures var whole := Join(options, operands, Remaining(mode, first, later, longopts, cs, orig[ind..]));
            var (events, k) := ClusterEvents(first, later, cs, orig[ind + 1..]);
            && whole.events != [] && whole.events[0] == events[0] && ind + 1 + k <= |orig|
            && (|events| > 1 && |cs| > 1 && ClusterEvents(later, later, cs[1..], orig[ind + 1..]) == (events[1..], k) ==>
                  Join(options, operands, Remaining(mode, later, later, longopts, cs[1..], orig[ind..]))
                  == whole.(events := whole.events[1..]))
            && (|events| == 1 ==>
                  Join(options + orig[ind..][..1 + k], operands, Parse(mode, later, later, longopts, orig[ind + 1 + k..]))
                  == whole.(events := whole.events[1..]))
  {
    hide Parse, ClusterEvents;
    var args := orig[ind..];
    assert args[1..] == orig[ind + 1..];
    var (events, k) := ClusterEvents(first, later, cs, args[1..]);
    assert args[1 + k..] == orig[ind + 1 + k..];
    var rest := Parse(mode, later, later, longopts, args[1 + k..]);
    assert (events + rest.events)[1..] == events[1..] + rest.events;
    assert options + (args[..1 + k] + rest.options) == options + args[..1 + k] + rest.options;
  }

  // ---------- The scan state, as a value

  /** Everything the scanner keeps between calls, and where the elements of `original` have gone:
      `tookOptions` and `tookOperands` are those already consumed and already skipped, in order. */
  datatype State = State(argv: seq<string>, original: seq<string>, posixlyCorrect: bool,
                         optind: int, nextchar: Option<string>, firstNonopt: int, lastNonopt: int,
                         ordering: Ordering, initialized: bool,
                         optarg: Option<string>, optopt: int, longind: Option<nat>, flags: map<nat, int>,
                         tookOptions: seq<string>, tookOperands: seq<string>)
  {
    function Rest(): string {
      if nextchar.Some? then nextchar.value else ""
    }

    /** The vector is laid out as the indices say; only PERMUTE order ever moves them. */
    ghost predicate Laid() {
      && initialized
      && |argv| == |original|
      && 1 <= firstNonopt <= lastNonopt <= optind <= |argv|
      && Layout(argv, original, firstNonopt, lastNonopt, optind, tookOptions, tookOperands)
      && (ordering.Permute? || firstNonopt == lastNonopt)
    }

    /** What a call that goes on to the next element makes of the two indices first: after the end of
        a scan they may be beyond `optind`. */
    function Clamped(): State {
      this.(firstNonopt := if firstNonopt > optind then optind else firstNonopt,
            lastNonopt := if lastNonopt > optind then optind else lastNonopt)
    }

    /** The state between two calls. */
    ghost predicate Valid(longopts: Option<seq<LongOption>>) {
      && |original| == |argv| >= 1
      && (!initialized ==> argv == original && optind in {0, 1} && nextchar.None?
                           && tookOptions == [] && tookOperands == [])
      && (initialized ==> if Rest() == "" then Clamped().Laid() else Laid())
      && (Rest() != "" ==> optind < |argv| && OptionElement(original[optind]) && !IsLong(longopts, original[optind]))
    }

    /** The ordering in force, which the first call chooses. */
    function Mode(optstring: string): Ordering {
      if initialized then ordering else ChosenOrdering(optstring, posixlyCorrect)
    }

    /** The string in which a call looks options up: the first call strips the ordering character. */
    function InUse(optstring: string): string {
      if initialized then optstring else Stripped(optstring)
    }

    /** The whole reading of the vector, as far as this state determines it: what was taken and
        skipped, followed by what the permutation-free parse makes of the untouched suffix. */
    ghost function Reading(mode: Ordering, first: string, later: string, longopts: Option<seq<LongOption>>): Scan
      requires Valid(longopts)
    {
      var at := if initialized then optind else 1;
      Join(tookOptions, tookOperands, Remaining(mode, first, later, longopts, Rest(), original[at..]))
    }

    /** The reading when the scan stands between two elements. */
    ghost function ReadingHere(first: string, later: string, longopts: Option<seq<LongOption>>): Scan
      requires 0 <= optind <= |original|
    {
      Join(tookOptions, tookOperands, Parse(ordering, first, later, longopts, original[optind..]))
    }

    /** The scan is over: options first, operands after them, `optind` at the first operand. */
    ghost predicate Final(whole: Scan) {
      && whole.events == []
      && |original| >= 1
      && argv == original[..1] + whole.options + whole.operands
      && optind == 1 + |whole.options|
    }

    /** After -1: no operand is skipped any more, as far as a further call is concerned. */
    ghost predicate Over() {
      && initialized && Rest() == "" && |original| == |argv|
      && 1 <= firstNonopt && 1 <= optind <= |argv|
      && Clamped().firstNonopt == Clamped().lastNonopt
    }

    /** The same state, as the start of a scan of what is left. */
    ghost function Restarted(): State
      requires Over()
    {
      this.(original := argv, tookOptions := argv[1..optind], tookOperands := [])
    }

    /** What the caller sees of `out`, on top of `before`. */
    predicate Shows(out: Outcome, ret: int, before: State) {
      && ret == out.ret
      && optarg == out.optarg
      && optopt == (if out.optopt.Some? then out.optopt.value else before.optopt)
      && longind == (if out.longind.Some? then out.longind else before.longind)
      && flags == (if out.store.Some? then before.flags[out.store.value.0 := out.store.value.1] else before.flags)
    }
  }

  /** A call that started with the reading `whole` reported its first event; the rest lies ahead. */
  ghost predicate Stepped(before: State, after: State, whole: Scan, ret: int,
                          later: string, longopts: Option<seq<LongOption>>) {
    && whole.events != []
    && after.Valid(longopts) && after.Laid() && after.original == before.original && after.initialized && after.ordering == before.ordering
    && after.Shows(whole.events[0], ret, before)
    && after.Reading(after.ordering, later, later, longopts) == whole.(events := whole.events[1..])
  }

  /** `k` elements moved past, which become part of the options taken. */
  ghost function Consumed(s: State, k: nat): State
    requires 0 <= s.optind && s.optind + k <= |s.original|
  {
    s.(optind := s.optind + k, tookOptions := s.tookOptions + s.original[s.optind..][..k])
  }

  lemma ConsumedLaid(s: State, k: nat)
    requires s.Laid() && s.optind + k <= |s.argv|
    ensures Consumed(s, k).Laid()
  {
    LayoutTake(s.argv, s.original, s.firstNonopt, s.lastNonopt, s.optind, k, s.tookOptions, s.tookOperands);
  }

  lemma Untouched(s: State)
    requires s.Laid() && s.optind < |s.argv|
    ensures s.argv[s.optind] == s.original[s.optind]
  {
    assert s.argv[s.optind] == s.argv[s.optind..][0] == s.original[s.optind..][0];
  }

  /** In PERMUTE order, the state after the options read since the last operands have been moved
      in front of them. */
  lemma GatheredLaid(s: State, s': State)
    requires s.Laid() && s.ordering.Permute?
    requires if s.firstNonopt != s.lastNonopt && s.lastNonopt != s.optind then
               s' == s.(argv := Rotated(s.argv, s.firstNonopt, s.lastNonopt, s.optind),
                        firstNonopt := s.firstNonopt + (s.optind - s.lastNonopt), lastNonopt := s.optind)
             else if s.lastNonopt != s.optind then s' == s.(firstNonopt := s.optind, lastNonopt := s.optind)
             else s' == s
    ensures s'.Laid() && s'.lastNonopt == s'.optind
  {
    if s.firstNonopt != s.lastNonopt && s.lastNonopt != s.optind {
      LayoutRotated(s.argv, s.original, s.firstNonopt, s.lastNonopt, s.optind, s.tookOptions, s.tookOperands);
    } else if s.lastNonopt != s.optind {
      LayoutNoOperands(s.argv, s.original, s.firstNonopt, s.optind, s.tookOptions, s.tookOperands);
    }
  }

  /** One more operand skipped. */
  lemma SkippedLaid(s: State, s': State, first: string, later: string, longopts: Option<seq<LongOption>>)
    requires s.Laid() && s.ordering.Permute? && s.lastNonopt == s.optind < |s.argv| && NonOption(s.argv[s.optind])
    requires s' == s.(optind := s.optind + 1, lastNonopt := s.optind + 1,
                      tookOperands := s.tookOperands + [s.original[s.optind]])
    ensures s'.Laid() && s'.ReadingHere(first, later, longopts) == s.ReadingHere(first, later, longopts)
  {
    hide Layout, Parse, Join;
    LayoutSkip(s.argv, s.original, s.firstNonopt, s.optind, s.tookOptions, s.tookOperands);
    SkipKeepsReading(first, later, longopts, s.original, s.optind, s.tookOptions, s.tookOperands);
  }

  /** The element "--" ends the scan: it is taken like an option, and every element after it is
      left as an operand, behind the operands skipped before it. */
  lemma TerminatedFinal(s: State, s': State, first: string, later: string, longopts: Option<seq<LongOption>>)
    requires s.Laid() && (s.ordering.Permute? ==> s.lastNonopt == s.optind)
    requires s.optind < |s.argv| && s.original[s.optind] == "--"
    requires if s.firstNonopt != s.lastNonopt then
               && s'.argv == Rotated(s.argv, s.firstNonopt, s.lastNonopt, s.optind + 1)
               && s'.optind == s.firstNonopt + (s.optind + 1 - s.lastNonopt)
             else s'.argv == s.argv && s'.optind == s.optind + 1
    requires s'.original == s.original
    ensures s'.Final(s.ReadingHere(first, later, longopts))
  {
    hide Layout, Parse, Join, Rotated;
    ReadTerminator(s.ordering, first, later, longopts, s.original, s.optind, s.tookOptions, s.tookOperands);
    TakeTerminator(s);
    EndFinal(s'.argv, s.original, if s.firstNonopt != s.lastNonopt then s'.optind else s.firstNonopt,
             if s.firstNonopt != s.lastNonopt then s.optind + 1 else s.lastNonopt,
             s.optind + 1, s.tookOptions + ["--"], s.tookOperands);
  }

  lemma BackedUpOver(s: State)
    requires s.initialized && s.Rest() == "" && |s.original| == |s.argv|
    requires 1 <= s.firstNonopt <= s.lastNonopt == |s.argv|
    requires s.optind == if s.firstNonopt != s.lastNonopt then s.firstNonopt else |s.argv|
    ensures s.Over()
  {
  }

  lemma TakeTerminator(s: State)
    requires s.Laid() && s.optind < |s.argv| && s.original[s.optind] == "--"
    ensures var first, last, at := s.firstNonopt, s.lastNonopt, s.optind + 1;
      && Layout(s.argv, s.original, first, last, at, s.tookOptions + ["--"], s.tookOperands)
      && Layout(Rotated(s.argv, first, last, at), s.original, first + (at - last), at, at, s.tookOptions + ["--"], s.tookOperands)
  {
    hide Layout, Rotated;
    assert s.original[s.optind..][..1] == ["--"];
    LayoutTake(s.argv, s.original, s.firstNonopt, s.lastNonopt, s.optind, 1, s.tookOptions, s.tookOperands);
    LayoutRotated(s.argv, s.original, s.firstNonopt, s.lastNonopt, s.optind + 1, s.tookOptions + ["--"], s.tookOperands);
  }

  /** A layout in which every option stands before every operand. */
  lemma EndFinal(a: seq<string>, orig: seq<string>, first: int, last: int, ind: int,
                 options: seq<string>, operands: seq<string>)
    requires Layout(a, orig, first, last, ind, options, operands)
    requires last == ind || first == last
    ensures a == orig[..1] + options + (operands + orig[ind..])
    ensures 1 + |options| == if first != last then first else ind
  {
    if first == last {
      LayoutNoOperands(a, orig, first, ind, options, operands);
      LayoutFinal(a, orig, ind, ind, options, []);
    } else {
      LayoutFinal(a, orig, first, ind, options, operands);
    }
  }

  /** At the end of the vector everything is in place, whether or not operands were skipped. */
  lemma ExhaustedFinal(s: State, s': State, first: string, later: string, longopts: Option<seq<LongOption>>)
    requires s.Laid() && s.optind == |s.argv| && (s.ordering.Permute? ==> s.lastNonopt == s.optind)
    requires s' == s.(optind := if s.firstNonopt != s.lastNonopt then s.firstNonopt else |s.argv|)
    ensures s'.Final(s.ReadingHere(first, later, longopts))
  {
    ReadEnd(s.ordering, first, later, longopts, s.original, s.tookOptions, s.tookOperands);
    EndFinal(s.argv, s.original, s.firstNonopt, s.lastNonopt, s.optind, s.tookOptions, s.tookOperands);
  }

  /** The first operand ends the scan when operands may not be passed by. */
  lemma StoppedFinal(s: State, first: string, later: string, longopts: Option<seq<LongOption>>)
    requires s.Laid() && s.ordering.RequireOrder? && s.optind < |s.argv| && NonOption(s.original[s.optind])
    ensures s.Final(s.ReadingHere(first, later, longopts))
  {
    ReadOperand(s.ordering, first, later, longopts, s.original, s.optind, s.tookOptions, s.tookOperands);
    LayoutNoOperands(s.argv, s.original, s.firstNonopt, s.optind, s.tookOptions, s.tookOperands);
    EndFinal(s.argv, s.original, s.firstNonopt, s.lastNonopt, s.optind, s.tookOptions, s.tookOperands);
  }

  /** A non-option reported in order. */
  lemma OperandStepped(s: State, s': State, first: string, later: string, longopts: Option<seq<LongOption>>)
    requires s.Laid() && s.ordering.ReturnInOrder? && s.Rest() == ""
    requires s.optind < |s.argv| && NonOption(s.original[s.optind])
    requires s' == Consumed(s, 1).(optarg := Some(s.original[s.optind]))
    ensures Stepped(s, s', s.ReadingHere(first, later, longopts), 1, later, longopts)
  {
    hide Layout, Parse, Join;
    ReadOperand(s.ordering, first, later, longopts, s.original, s.optind, s.tookOptions, s.tookOperands);
    assert s.original[s.optind..][..1] == [s.original[s.optind]];
    ConsumedLaid(s, 1);
  }

  /** A long option. */
  lemma LongStepped(s: State, t: State, ret: int, first: string, later: string, longopts: Option<seq<LongOption>>)
    requires s.Laid() && s.optind < |s.argv| && OptionElement(s.original[s.optind]) && IsLong(longopts, s.original[s.optind])
    requires t == s.(nextchar := Some(""), optarg := t.optarg, optopt := t.optopt, longind := t.longind, flags := t.flags)
    requires t.Shows(LongEvent(first, longopts.value, s.original[s.optind][2..], s.original[s.optind + 1..]).0, ret, s)
    ensures var k := LongEvent(first, longopts.value, s.original[s.optind][2..], s.original[s.optind + 1..]).1;
            Stepped(s, Consumed(t, 1 + k), s.ReadingHere(first, later, longopts), ret, later, longopts)
  {
    hide Layout, Parse, LongEvent, Join;
    ReadElement(s.ordering, first, later, longopts, s.original, s.optind, s.tookOptions, s.tookOperands);
    assert s.original[s.optind..][1..] == s.original[s.optind + 1..];
    var k := LongEvent(first, longopts.value, s.original[s.optind][2..], s.original[s.optind + 1..]).1;
    ConsumedLaid(t, 1 + k);
  }

  /** What one call makes of the first character of a cluster: the outcome, how many elements it
      moves past, and the characters it leaves. */
  ghost predicate ShortStep(optstring: string, cs: string, following: seq<string>,
                            out: Outcome, taken: nat, rest: string)
    requires cs != ""
  {
    var c, tail := cs[0], cs[1..];
    match Kind(optstring, c)
    case OptionalArgument =>
      taken == 1 && rest == "" && out == Report(c as int).(optarg := if tail == "" then None else Some(tail))
    case RequiredArgument =>
      rest == "" &&
      if tail != "" then taken == 1 && out == Report(c as int).(optarg := Some(tail))
      else if following == [] then taken == 1 && out == Complain(MissingArgument(optstring), c as int)
      else taken == 2 && out == Report(c as int).(optarg := Some(following[0]))
    case kind =>
      && taken == (if tail == "" then 1 else 0) && rest == tail
      && out == if kind.Invalid? then Complain('?', c as int) else Report(c as int)
  }

  /** One step of a cluster against the events of the whole cluster. */
  lemma ShortStepIsFirstEvent(first: string, later: string, cs: string, following: seq<string>,
                              out: Outcome, taken: nat, rest: string)
    requires cs != "" && ShortStep(first, cs, following, out, taken, rest)
    ensures var (events, k) := ClusterEvents(first, later, cs, following);
      && events[0] == out
      && if rest != "" then taken == 0 && rest == cs[1..] && |events| > 1
                            && ClusterEvents(later, later, rest, following) == (events[1..], k)
         else taken == 1 + k && |events| == 1
  {
    if rest != "" {
      ConsTail(out, ClusterEvents(later, later, rest, following).0);
    }
  }

  lemma NothingPending(mode: Ordering, later: string, longopts: Option<seq<LongOption>>, args: seq<string>)
    ensures forall k | 0 <= k <= |args| ::
      Remaining(mode, later, later, longopts, "", args[k..]) == Parse(mode, later, later, longopts, args[k..])
  {
  }

  /** One character of a cluster; `taken` elements are moved past. */
  lemma ShortStepped(s: State, t: State, out: Outcome, taken: nat, first: string, later: string, longopts: Option<seq<LongOption>>)
    requires s.Valid(longopts) && s.initialized && s.Rest() != ""
    requires t == s.(nextchar := t.nextchar, optarg := t.optarg, optopt := t.optopt)
    requires ShortStep(first, s.Rest(), s.original[s.optind + 1..], out, taken, t.Rest()) && t.Shows(out, out.ret, s)
    ensures s.optind + taken <= |s.argv|
    ensures Stepped(s, Consumed(t, taken), s.Reading(s.ordering, first, later, longopts), out.ret, later, longopts)
  {
    hide Layout, Parse, ClusterEvents, Join, ShortStep, Remaining;
    NothingPending(s.ordering, later, longopts, s.original);
    ShortStepIsFirstEvent(first, later, s.Rest(), s.original[s.optind + 1..], out, taken, t.Rest());
    ReadCluster(s.ordering, first, later, longopts, s.original, s.optind, s.Rest(), s.tookOptions, s.tookOperands);
    ConsumedLaid(t, taken);
    if taken == 0 {
      assert s.tookOptions + s.original[s.optind..][..0] == s.tookOptions;
      assert Consumed(t, taken).Rest() == s.Rest()[1..];
    }
  }

  // ---------- Whole scans

  function Replies(events: seq<Outcome>): seq<(int, Option<string>)> {
    seq(|events|, i requires 0 <= i < |events| => (events[i].ret, events[i].optarg))
  }

  /** -1 is the end of the scan, so no table entry should return it. */
  ghost predicate NeverMinusOne(longopts: Option<seq<LongOption>>) {
    longopts.Some? ==> forall i :: 0 <= i < |longopts.value| ==> longopts.value[i].flag.Some? || longopts.value[i].val != -1
  }

  ghost predicate NoneEnds(events: seq<Outcome>) {
    forall i :: 0 <= i < |events| ==> events[i].ret != -1
  }

  /** How many replies a caller sees who stops at the first -1. */
  function UntilEnd(events: seq<Outcome>): (n: nat)
    ensures n <= |events|
    ensures forall i :: 0 <= i < n ==> events[i].ret != -1
    ensures n < |events| ==> events[n].ret == -1
  {
    if events == [] || events[0].ret == -1 then 0 else 1 + UntilEnd(events[1..])
  }

  lemma ClusterEventsAreNotTheEnd(first: string, later: string, cs: string, following: seq<string>)
    requires cs != ""
    ensures NoneEnds(ClusterEvents(first, later, cs, following).0)
    decreases |cs|
  {
    if |cs| > 1 { ClusterEventsAreNotTheEnd(later, later, cs[1..], following); }
  }

  lemma {:induction false} EventsAreNotTheEnd(mode: Ordering, first: string, later: string, longopts: Option<seq<LongOption>>, args: seq<string>)
    requires NeverMinusOne(longopts)
    ensures NoneEnds(Parse(mode, first, later, longopts, args).events)
    decreases |args|
  {
    if args == [] || args[0] == "--" {
    } else if NonOption(args[0]) {
      EventsAreNotTheEnd(mode, if mode.Permute? then first else later, later, longopts, args[1..]);
    } else {
      var (events, k) := ElementEvents(first, later, longopts, args);
      if !IsLong(longopts, args[0]) { ClusterEventsAreNotTheEnd(first, later, args[0][1..], args[1..]); }
      EventsAreNotTheEnd(mode, later, later, longopts, args[1 + k..]);
    }
  }

  lemma NoneEndsMeans(events: seq<Outcome>)
    requires NoneEnds(events)
    ensures UntilEnd(events) == |events|
  {
  }

  /** What the `n`th reply adds to the ones before it. */
  lemma NextReply(events: seq<Outcome>, n: nat)
    requires n <= |events|
    ensures Replies([]) == [] && events[..|events|] == events && events[..0] == []
    ensures n < |events| ==>
      && events[n..][0] == events[n] && events[n..][1..] == events[n + 1..]
      && Replies(events[..n + 1]) == Replies(events[..n]) + [(events[n..][0].ret, events[n..][0].optarg)]
  {
    if n < |events| {
      assert events[n..][0] == events[n];
      assert events[..n + 1] == events[..n] + [events[n]];
    }
  }

  /** Before the first call everything is still ahead. */
  lemma FreshReading(s: State, mode: Ordering, first: string, later: string, longopts: Option<seq<LongOption>>)
    requires s.Valid(longopts) && !s.initialized
    ensures s.Reading(mode, first, later, longopts) == Parse(mode, first, later, longopts, s.original[1..])
  {
    var p := Parse(mode, first, later, longopts, s.original[1..]);
    assert [] + p.options == p.options && [] + p.operands == p.operands;
  }

  // ---------- After the end

  lemma RestartedValid(s: State, longopts: Option<seq<LongOption>>)
    requires s.Over()
    ensures s.Restarted().Valid(longopts)
  {
    var f := s.Clamped().firstNonopt;
    assert s.argv[1..f] + s.argv[f..s.optind] == s.argv[1..s.optind];
    assert s.argv[f..f] == [];
  }

  lemma RestartedReading(s: State, optstring: string, longopts: Option<seq<LongOption>>)
    requires s.Over()
    ensures s.Restarted().Valid(longopts) && s.Restarted().Mode(optstring) == s.ordering
    ensures var p := Parse(s.ordering, optstring, optstring, longopts, s.argv[s.optind..]);
      && s.Restarted().Reading(s.ordering, optstring, optstring, longopts) == p.(options := s.argv[1..s.optind] + p.options)
      && s.argv[..1] + (s.argv[1..s.optind] + p.options) + p.operands == s.argv[..s.optind] + p.options + p.operands
  {
    hide Parse;
    RestartedValid(s, longopts);
    var p := Parse(s.ordering, optstring, optstring, longopts, s.argv[s.optind..]);
    assert [] + p.operands == p.operands;
    assert s.argv[..s.optind] == s.argv[..1] + s.argv[1..s.optind];
  }

  /** When a scan reports nothing. */
  predicate Quiet(mode: Ordering, args: seq<string>)
    decreases |args|
  {
    args == [] || args[0] == "--" ||
    (NonOption(args[0]) && match mode
      case RequireOrder => true
      case Permute => Quiet(mode, args[1..])
      case ReturnInOrder => false)
  }

  lemma {:induction false} QuietIff(mode: Ordering, first: string, later: string, longopts: Option<seq<LongOption>>, args: seq<string>)
    ensures Parse(mode, first, later, longopts, args).events == [] <==> Quiet(mode, args)
    decreases |args|
  {
    if args != [] && args[0] != "--" && NonOption(args[0]) && mode.Permute? {
      QuietIff(mode, first, later, longopts, args[1..]);
    }
  }

  /** In PERMUTE order a further call finds an option only where "--" has protected one. */
  lemma {:induction false} OnlyTerminatorHides(first: string, later: string, longopts: Option<seq<LongOption>>, args: seq<string>)
    requires "--" !in Parse(Permute, first, later, longopts, args).options
    ensures Quiet(Permute, Parse(Permute, first, later, longopts, args).operands)
    decreases |args|
  {
    if args == [] || args[0] == "--" {
    } else if NonOption(args[0]) {
      OnlyTerminatorHides(first, later, longopts, args[1..]);
      var rest := Parse(Permute, first, later, longopts, args[1..]);
      assert (args[..1] + rest.operands)[1..] == rest.operands;
    } else {
      var (events, k) := ElementEvents(first, later, longopts, args);
      OnlyTerminatorHides(later, later, longopts, args[1 + k..]);
    }
  }

  /** So it does here: "-x" behind "--" is an operand, and an option for a further call. */
  lemma OperandReadAsOption()
    ensures var whole := Parse(Permute, "x", "x", None, ["--", "-x"]);
      whole == Scan([], ["--"], ["-x"]) && Parse(Permute, "x", "x", None, whole.operands).events == [Report('x' as int)]
  {
    assert ["--", "-x"][1..] == ["-x"] && ["-x"][1..] == [] && "-x"[1..] == "x" && "x"[1..] == "";
    assert ["--", "-x"][..1] == ["--"];
    assert Kind("x", 'x') == NoArgument;
  }

  // ---------- The scanner

  datatype Advanced = Finished | InOrder | AtOption

  class Scanner {
    const argv: array<string>
    const posixlyCorrect: bool
    var optind: int
    var nextchar: Option<string>
    var firstNonopt: int
    var lastNonopt: int
    var ordering: Ordering
    var initialized: bool
    var optarg: Option<string>
    var optopt: int
    var longind: Option<nat>
    var flags: map<nat, int>
    ghost var original: seq<string>
    ghost var tookOptions: seq<string>
    ghost var tookOperands: seq<string>

    ghost function Now(): State
      reads this, argv
    {
      State(argv[..], original, posixlyCorrect, optind, nextchar, firstNonopt, lastNonopt, ordering, initialized,
            optarg, optopt, longind, flags, tookOptions, tookOperands)
    }

    constructor (argv: array<string>, posixlyCorrect: bool)
      requires argv.Length >= 1
      ensures this.argv == argv && this.posixlyCorrect == posixlyCorrect && original == argv[..]
      ensures Now().Valid(None) && !initialized
    {
      this.argv, this.posixlyCorrect, original := argv, posixlyCorrect, argv[..];
      optind, nextchar, firstNonopt, lastNonopt := 1, None, 0, 0;
      ordering, initialized := Permute, false;
      optarg, optopt, longind, flags := None, '?' as int, None, map[];
      tookOptions, tookOperands := [], [];
    }

    /** `_getopt_initialize`. */
    method Initialize(optstring: string, ghost longopts: Option<seq<LongOption>>) returns (stripped: string)
      requires Now().Valid(longopts) && !initialized && optind == 1
      modifies this`firstNonopt, this`lastNonopt, this`nextchar, this`ordering, this`initialized
      ensures Now() == old(Now()).(firstNonopt := 1, lastNonopt := 1, initialized := true,
                                   ordering := ChosenOrdering(optstring, posixlyCorrect))
      ensures Now().Laid() && stripped == Stripped(optstring)
    {
      firstNonopt, lastNonopt := optind, optind;
      nextchar := None;
      stripped := optstring;
      if optstring != "" && optstring[0] == '-' {
        ordering := ReturnInOrder;
        stripped := optstring[1..];
      } else if optstring != "" && optstring[0] == '+' {
        ordering := RequireOrder;
        stripped := optstring[1..];
      } else if posixlyCorrect {
        ordering := RequireOrder;
      } else {
        ordering := Permute;
      }
      initialized := true;
    }

    /** `exchange`. */
    method Exchange()
      requires 0 <= firstNonopt <= lastNonopt <= optind <= argv.Length
      modifies this`firstNonopt, this`lastNonopt, argv
      ensures Now() == old(Now()).(argv := Rotated(old(argv[..]), old(firstNonopt), old(lastNonopt), optind),
                                   firstNonopt := old(firstNonopt) + (optind - old(lastNonopt)), lastNonopt := optind)
    {
      RotateInPlace(argv, firstNonopt, lastNonopt, optind);
      firstNonopt := firstNonopt + (optind - lastNonopt);
      lastNonopt := optind;
    }

    /** In PERMUTE order: moves the options read since the last operands in front of them. */
    method GatherOptions()
      requires Now().Laid() && ordering.Permute?
      modifies this`firstNonopt, this`lastNonopt, argv
      ensures Now().Laid() && lastNonopt == optind
    {
      ghost var s := Now();
      if firstNonopt != lastNonopt && lastNonopt != optind {
        Exchange();
      } else if lastNonopt != optind {
        firstNonopt := optind;
        lastNonopt := optind;
      }
      GatheredLaid(s, Now());
    }

    /** In PERMUTE order: extends the range of skipped operands by those that come next. */
    method SkipOperands(ghost first: string, ghost later: string, ghost longopts: Option<seq<LongOption>>)
      requires Now().Laid() && ordering.Permute? && lastNonopt == optind
      modifies this`optind, this`lastNonopt, this`tookOperands
      ensures Now().Laid() && lastNonopt == optind
      ensures optind < argv.Length ==> !NonOption(argv[optind])
      ensures Now().ReadingHere(first, later, longopts) == old(Now().ReadingHere(first, later, longopts))
    {
      hide Layout, Parse, Join;
      ghost var s := Now();
      while optind < argv.Length && NonOption(argv[optind])
        invariant 0 <= optind <= argv.Length
        invariant s == Now().(lastNonopt := optind, tookOperands := s.tookOperands)
        invariant s.Laid() && s.lastNonopt == s.optind
        invariant s.ReadingHere(first, later, longopts) == old(Now().ReadingHere(first, later, longopts))
      {
        ghost var t := s.(optind := s.optind + 1, lastNonopt := s.optind + 1,
                          tookOperands := s.tookOperands + [s.original[s.optind]]);
        SkippedLaid(s, t, first, later, longopts);
        s := t;
        optind := optind + 1;
      }
      lastNonopt, tookOperands := optind, s.tookOperands;
    }

    /** The element "--" at `optind`. */
    method Terminate(ghost first: string, ghost later: string, ghost longopts: Option<seq<LongOption>>)
      requires Now().Laid() && (ordering.Permute? ==> lastNonopt == optind)
      requires nextchar.None? || nextchar.value == ""
      requires optind < argv.Length && original[optind] == "--"
      modifies this`optind, this`firstNonopt, this`lastNonopt, argv
      ensures Now().Final(old(Now().ReadingHere(first, later, longopts)))
      ensures Now().Over()
    {
      hide Layout, Parse, Join, Rotated, State.ReadingHere, State.Final, State.Over;
      ghost var s := Now();
      optind := optind + 1;
      if firstNonopt != lastNonopt && lastNonopt != optind {
        Exchange();
      } else if firstNonopt == lastNonopt {
        firstNonopt := optind;
      }
      lastNonopt := argv.Length;
      optind := argv.Length;
      BackUp();
      TerminatedFinal(s, Now(), first, later, longopts);
      BackedUpOver(Now());
    }

    /** At the end of the vector: back over the operands that were skipped. */
    method BackUp()
      requires optind == argv.Length
      modifies this`optind
      ensures Now() == old(Now()).(optind := if firstNonopt != lastNonopt then firstNonopt else argv.Length)
    {
      if firstNonopt != lastNonopt {
        optind := firstNonopt;
      }
    }

    /** The bookkeeping at the head of a call: in PERMUTE order the scan moves to an option or the
        end; otherwise nothing happens. */
    method Settle(ghost first: string, ghost later: string, ghost longopts: Option<seq<LongOption>>)
      requires Now().Clamped().Laid()
      modifies this`optind, this`firstNonopt, this`lastNonopt, this`tookOperands, argv
      ensures Now().Laid() && Now().ReadingHere(first, later, longopts) == old(Now().ReadingHere(first, later, longopts))
      ensures ordering.Permute? ==> lastNonopt == optind && (optind < argv.Length ==> !NonOption(argv[optind]))
    {
      lastNonopt := if lastNonopt > optind then optind else lastNonopt;
      firstNonopt := if firstNonopt > optind then optind else firstNonopt;
      if ordering.Permute? {
        GatherOptions();
        SkipOperands(first, later, longopts);
      }
    }

    /** The part of `_getopt_internal` that moves on to the next element: lines 545 to 620. */
    method Advance(ghost first: string, ghost later: string, longopts: Option<seq<LongOption>>) returns (r: Advanced)
      requires Now().Clamped().Laid() && Now().Rest() == ""
      modifies this`optind, this`nextchar, this`firstNonopt, this`lastNonopt, this`optarg,
               this`tookOptions, this`tookOperands, argv
      ensures r.Finished? ==>
        Now().Final(old(Now().ReadingHere(first, later, longopts))) && Now().Over() && optarg == old(optarg)
      ensures r.InOrder? ==>
        Stepped(old(Now()), Now(), old(Now().ReadingHere(first, later, longopts)), 1, later, longopts)
      ensures r.AtOption? ==>
        && Now().Laid() && optind < argv.Length && OptionElement(original[optind]) && optarg == old(optarg)
        && nextchar == Some(AfterDashes(longopts, original[optind]))
        && Now().ReadingHere(first, later, longopts) == old(Now().ReadingHere(first, later, longopts))
    {
      hide Layout, Parse, Join, Rotated;
      Settle(first, later, longopts);
      ghost var s := Now();
      if optind < argv.Length { Untouched(s); }
      if optind != argv.Length && argv[optind] == "--" {
        Terminate(first, later, longopts);
        return Finished;
      }
      if optind == argv.Length {
        BackUp();
        ExhaustedFinal(s, Now(), first, later, longopts);
        return Finished;
      }
      if NonOption(argv[optind]) {
        if ordering.RequireOrder? {
          StoppedFinal(s, first, later, longopts);
          return Finished;
        }
        optarg := Some(argv[optind]);
        Consume(1);
        OperandStepped(s, Now(), first, later, longopts);
        return InOrder;
      }
      nextchar := Some(AfterDashes(longopts, argv[optind]));
      return AtOption;
    }

    /** Moves past `k` elements. */
    method Consume(k: nat)
      requires 0 <= optind && optind + k <= argv.Length == |original|
      modifies this`optind, this`tookOptions
      ensures Now() == Consumed(old(Now()), k)
    {
      tookOptions := tookOptions + original[optind..][..k];
      optind := optind + k;
    }

    /** The element after the current one, as an argument; the element itself has not moved. */
    method FollowingElement() returns (arg: string)
      requires Now().Laid() && optind + 1 < argv.Length
      ensures arg == original[optind + 1..][0]
    {
      arg := argv[optind + 1];
      assert arg == argv[optind..][1];
    }

    /** A long option: lines 637 to 768.  `k` counts the separate arguments it takes. */
    method LongOptionStep(optstring: string, table: seq<LongOption>) returns (ret: int, k: nat)
      requires Now().Laid() && optind < argv.Length && OptionElement(original[optind]) && optarg.None?
      requires nextchar == Some(original[optind][2..])
      modifies this`nextchar, this`optarg, this`optopt, this`longind, this`flags
      ensures Now() == old(Now()).(nextchar := Some(""), optarg := optarg, optopt := optopt, longind := longind, flags := flags)
      ensures k == LongEvent(optstring, table, old(nextchar.value), original[optind + 1..]).1
      ensures Now().Shows(LongEvent(optstring, table, old(nextchar.value), original[optind + 1..]).0, ret, old(Now()))
    {
      hide Layout;
      k := 0;
      var text := nextchar.value;
      var nameend := IndexOf(text, '=');
      var pfound := FindLong(table, text[..nameend]);
      nextchar := Some("");
      if !pfound.Found? {
        optopt := 0;
        return '?' as int, k;
      }
      assert pfound.index < |table|;
      var o := table[pfound.index];
      if nameend < |text| {
        if o.hasArg == 0 {
          optopt := o.val;
          return '?' as int, k;
        }
        optarg := Some(text[nameend + 1..]);
      } else if o.hasArg == 1 {
        if optind + 1 == argv.Length {
          optopt := o.val;
          return (if optstring != "" && optstring[0] == ':' then ':' else '?') as int, k;
        }
        var arg := FollowingElement();
        optarg, k := Some(arg), 1;
      }
      longind := Some(pfound.index);
      if o.flag.Some? {
        flags := flags[o.flag.value := o.val];
        return 0, k;
      }
      return o.val, k;
    }

    /** One character of a cluster of short options: lines 770 to 966.  `taken` counts the elements
        this call moves past: none while characters of the cluster are left. */
    method ShortOptionStep(optstring: string) returns (ret: int, taken: nat, ghost out: Outcome)
      requires Now().Laid() && optind < argv.Length && Now().Rest() != "" && optarg.None?
      modifies this`nextchar, this`optarg, this`optopt
      ensures Now() == old(Now()).(nextchar := nextchar, optarg := optarg, optopt := optopt)
      ensures ShortStep(optstring, old(Now().Rest()), original[optind + 1..], out, taken, Now().Rest())
      ensures ret == out.ret && Now().Shows(out, ret, old(Now()))
    {
      hide Layout;
      var c, tail := nextchar.value[0], nextchar.value[1..];
      var kind := Kind(optstring, c);
      nextchar := Some(tail);
      ret := c as int;
      taken := if tail == "" then 1 else 0;
      ghost var complains := kind.Invalid? || (kind.RequiredArgument? && tail == "" && optind + 1 == argv.Length);
      if kind.Invalid? {
        optopt := c as int;
        ret := '?' as int;
      } else if kind.OptionalArgument? {
        if tail != "" {
          optarg, taken := Some(tail), taken + 1;
        }
        nextchar := None;
      } else if kind.RequiredArgument? {
        if tail != "" {
          optarg, taken := Some(tail), taken + 1;
        } else if optind + taken == argv.Length {
          optopt := c as int;
          ret := (if optstring != "" && optstring[0] == ':' then ':' else '?') as int;
        } else {
          var arg := FollowingElement();
          optarg, taken := Some(arg), taken + 1;
        }
        nextchar := None;
      }
      out := Outcome(ret, optarg, if complains then Some(c as int) else None, None, None);
    }

    /** Reads the option at `optind`: a long one, or one character of a cluster. */
    method Decode(first: string, ghost later: string, longopts: Option<seq<LongOption>>) returns (ret: int)
      requires Now().Laid() && optind < argv.Length && OptionElement(original[optind]) && optarg.None?
      requires if IsLong(longopts, original[optind]) then nextchar == Some(original[optind][2..]) else Now().Rest() != ""
      modifies this`optind, this`nextchar, this`optarg, this`optopt, this`longind, this`flags, this`tookOptions
      ensures Stepped(old(Now()), Now(),
                      if IsLong(longopts, original[old(optind)]) then old(Now().ReadingHere(first, later, longopts))
                      else old(Now().Reading(ordering, first, later, longopts)),
                      ret, later, longopts)
    {
      hide Layout, Parse, ClusterEvents, LongEvent, Join, Remaining, ShortStep;
      ghost var s := Now();
      Untouched(s);
      if longopts.Some? && argv[optind][1] == '-' {
        var k;
        ret, k := LongOptionStep(first, longopts.value);
        LongStepped(s, Now(), ret, first, later, longopts);
        Consume(1 + k);
      } else {
        var taken;
        ghost var out;
        ret, taken, out := ShortOptionStep(first);
        ShortStepped(s, Now(), out, taken, first, later, longopts);
        Consume(taken);
      }
    }

    /** A call after the first: scan state is set up and `optarg` is clear. */
    method Resume(inUse: string, ghost later: string, longopts: Option<seq<LongOption>>) returns (ret: int)
      requires Now().Valid(longopts) && initialized && optarg.None?
      modifies this, argv
      ensures original == old(original)
      ensures var whole := old(Now().Reading(ordering, inUse, later, longopts));
        if whole.events == [] then ret == -1 && optarg.None? && Now().Final(whole) && Now().Over()
        else Stepped(old(Now()), Now(), whole, ret, later, longopts)
    {
      hide Layout, Parse, ClusterEvents, LongEvent, Join;
      if nextchar.None? || nextchar.value == "" {
        var r := Advance(inUse, later, longopts);
        if r.Finished? { return -1; }
        if r.InOrder? { return 1; }
        if !IsLong(longopts, original[optind]) {
          EnterCluster(ordering, inUse, later, longopts, original, optind);
        }
      }
      ret := Decode(inUse, later, longopts);
    }

    /** `_getopt_internal`, called with `long_only` zero.  `later` is the option string that the calls
        after this one will pass, for which the reading of the rest is stated. */
    method Next(optstring: string, longopts: Option<seq<LongOption>>, ghost later: string) returns (ret: int)
      requires Now().Valid(longopts) && !OffersW(optstring)
      modifies this, argv
      ensures original == old(original)
      ensures var before := old(Now().(ordering := Now().Mode(optstring)));
              var whole := old(Now().Reading(Now().Mode(optstring), Now().InUse(optstring), later, longopts));
        if whole.events == [] then ret == -1 && optarg.None? && Now().Final(whole) && Now().Over()
        else Stepped(before, Now(), whole, ret, later, longopts)
    {
      hide Layout, State.Reading, State.Valid, State.Over, State.Final, OffersW;
      var inUse := SetUp(optstring, longopts, later);
      ret := Resume(inUse, later, longopts);
    }

    /** The first lines of a call: the first call initializes. */
    method SetUp(optstring: string, ghost longopts: Option<seq<LongOption>>, ghost later: string) returns (inUse: string)
      requires Now().Valid(longopts)
      modifies this`optarg, this`optind, this`firstNonopt, this`lastNonopt, this`nextchar, this`ordering, this`initialized
      ensures Now().Valid(longopts) && initialized && optarg.None?
      ensures ordering == old(Now().Mode(optstring)) && inUse == old(Now().InUse(optstring))
      ensures Now().Reading(ordering, inUse, later, longopts)
           == old(Now().Reading(Now().Mode(optstring), Now().InUse(optstring), later, longopts))
    {
      hide Layout, Parse, Join, Remaining;
      optarg := None;
      inUse := optstring;
      if optind == 0 || !initialized {
        if optind == 0 { optind := 1; }
        inUse := Initialize(optstring, longopts);
      }
    }

    /** The loop every caller writes: call until -1.  The first -1 is the end of the scan unless an
        entry of the option table returns it. */
    method ScanAll(optstring: string, longopts: Option<seq<LongOption>>) returns (replies: seq<(int, Option<string>)>)
      requires Now().Valid(longopts) && !initialized && !OffersW(optstring)
      modifies this, argv
      ensures original == old(original)
      ensures var whole := Parse(ChosenOrdering(optstring, posixlyCorrect), Stripped(optstring), optstring, longopts, original[1..]);
        var n := UntilEnd(whole.events);
        && replies == Replies(whole.events[..n])
        && (NeverMinusOne(longopts) ==> n == |whole.events|)
        && (n == |whole.events| ==>
              && argv[..] == original[..1] + whole.options + whole.operands
              && optind == 1 + |whole.options| && Now().Over())
    {
      hide Layout, Parse, Join, Remaining, Replies, NoneEnds;
      ghost var mode := ChosenOrdering(optstring, posixlyCorrect);
      ghost var whole := Parse(mode, Stripped(optstring), optstring, longopts, original[1..]);
      FreshReading(Now(), mode, Stripped(optstring), optstring, longopts);
      if NeverMinusOne(longopts) {
        EventsAreNotTheEnd(mode, Stripped(optstring), optstring, longopts, original[1..]);
        NoneEndsMeans(whole.events);
      }
      replies := [];
      NextReply(whole.events, 0);
      assert whole.events[0..] == whole.events;
      while true
        invariant original == old(original)
        invariant Now().Valid(longopts) && Now().Mode(optstring) == mode
        invariant |replies| <= UntilEnd(whole.events) && replies == Replies(whole.events[..|replies|])
        invariant Now().Reading(mode, Now().InUse(optstring), optstring, longopts) == whole.(events := whole.events[|replies|..])
        decreases |whole.events| - |replies|
      {
        NextReply(whole.events, |replies|);
        var c := Next(optstring, longopts, optstring);
        if c == -1 { break; }
        replies := replies + [(c, optarg)];
      }
    }

    /** Takes what the last scan has left for a new vector; no variable of the program changes. */
    ghost method Restart(longopts: Option<seq<LongOption>>)
      requires Now().Over()
      modifies this`original, this`tookOptions, this`tookOperands
      ensures Now() == old(Now()).Restarted() && Now().Valid(longopts)
    {
      RestartedValid(Now(), longopts);
      original, tookOptions, tookOperands := argv[..], argv[1..optind], [];
    }

    /** A call after the one that returned -1: it reads the operands that are left like a new command
        line, as if nothing had told it that options end. */
    method NextAfterEnd(optstring: string, longopts: Option<seq<LongOption>>) returns (ret: int)
      requires Now().Over() && !OffersW(optstring)
      modifies this, argv
      ensures var whole := Parse(old(ordering), optstring, optstring, longopts, old(argv[optind..]));
        if whole.events == [] then
          ret == -1 && argv[..] == old(argv[..optind]) + whole.options + whole.operands && Now().Over()
        else ret == whole.events[0].ret && optarg == whole.events[0].optarg && Now().Valid(longopts)
    {
      hide Layout, Parse, Join, State.Valid;
      ghost var s := Now();
      RestartedReading(s, optstring, longopts);
      assert s.argv[s.optind..] == argv[optind..] && s.argv[..s.optind] == argv[..optind];
      Restart(longopts);
      ret := Next(optstring, longopts, optstring);
    }
  }
}
