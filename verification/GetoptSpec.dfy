/**
 What the options of a command line mean, stated without any permutation: a left-to-right
 parse of an argument vector whose elements never move.  `Getopt` proves that the in-place,
 resumable scanner of lib/getopt.c computes exactly this.
 */
module GetoptSpec {
  import opened Common

  datatype Ordering = RequireOrder | Permute | ReturnInOrder

  /** One entry of the long-option table; `flag` names the variable it stores into, if any. */
  datatype LongOption = LongOption(name: string, hasArg: int, flag: Option<nat>, val: int)

  /** Everything one call that reports an option makes visible to the caller: the return value
      and `optarg`, and the stores into `optopt`, `*longind` and `*flag` when they happen. */
  datatype Outcome = Outcome(ret: int, optarg: Option<string>, optopt: Option<int>,
                             longind: Option<nat>, store: Option<(nat, int)>)

  /** The reading of a whole argument vector. */
  datatype Scan = Scan(events: seq<Outcome>, options: seq<string>, operands: seq<string>)

  predicate NonOption(s: string) {
    |s| < 2 || s[0] != '-'
  }

  /** An element that introduces options: not an operand and not the terminator. */
  predicate OptionElement(s: string) {
    !NonOption(s) && s != "--"
  }

  // ---------- Short options

  datatype ArgKind = Invalid | NoArgument | OptionalArgument | RequiredArgument

  /** The offset of the first occurrence of `c` in `s`, or |s|. */
  function IndexOf(s: string, c: char): (i: nat)
    ensures i <= |s|
    ensures forall k :: 0 <= k < i ==> s[k] != c
    ensures i < |s| ==> s[i] == c
  {
    if s == "" || s[0] == c then 0 else 1 + IndexOf(s[1..], c)
  }

  function Kind(optstring: string, c: char): ArgKind {
    var i := IndexOf(optstring, c);
    if c == ':' || i == |optstring| then Invalid
    else if i + 1 < |optstring| && optstring[i + 1] == ':' then
      if i + 2 < |optstring| && optstring[i + 2] == ':' then OptionalArgument else RequiredArgument
    else NoArgument
  }

  /** A leading colon in the option string selects ':' as the report of a missing argument. */
  function MissingArgument(optstring: string): char {
    if optstring != "" && optstring[0] == ':' then ':' else '?'
  }

  function Report(c: int): Outcome {
    Outcome(c, None, None, None, None)
  }

  function Complain(ret: char, culprit: int): Outcome {
    Outcome(ret as int, None, Some(culprit), None, None)
  }

  /** The events of a cluster "-cs", and how many of the following elements it takes as an argument.
      `first` is the option string in which the first character is looked up, `later` that of the
      calls that follow. */
  function ClusterEvents(first: string, later: string, cs: string, following: seq<string>): (r: (seq<Outcome>, nat))
    requires cs != ""
    ensures r.0 != [] && r.1 <= 1 && r.1 <= |following|
    decreases |cs|
  {
    var c, tail := cs[0], cs[1..];
    match Kind(first, c)
    case OptionalArgument =>
      ([Report(c as int).(optarg := if tail == "" then None else Some(tail))], 0)
    case RequiredArgument =>
      if tail != "" then ([Report(c as int).(optarg := Some(tail))], 0)
      else if following == [] then ([Complain(MissingArgument(first), c as int)], 0)
      else ([Report(c as int).(optarg := Some(following[0]))], 1)
    case kind =>
      var one := if kind.Invalid? then Complain('?', c as int) else Report(c as int);
      if tail == "" then ([one], 0)
      else
        var rest := ClusterEvents(later, later, tail, following);
        ([one] + rest.0, rest.1)
  }

  // ---------- Long options

  datatype LookupResult = Found(index: nat) | Ambiguous | NotFound

  ghost predicate Abbreviates(table: seq<LongOption>, text: string, i: int) {
    0 <= i < |table| && text <= table[i].name
  }

  ghost predicate FirstExact(table: seq<LongOption>, text: string, i: int) {
    && 0 <= i < |table| && table[i].name == text
    && forall k :: 0 <= k < i ==> table[k].name != text
  }

  ghost predicate OnlyMatch(table: seq<LongOption>, text: string, i: int) {
    Abbreviates(table, text, i) && forall k :: Abbreviates(table, text, k) ==> k == i
  }

  /** The documented rule: the first exact match; otherwise the only abbreviation; several
      abbreviations are ambiguous. */
  ghost function Lookup(table: seq<LongOption>, text: string): LookupResult {
    if exists i :: FirstExact(table, text, i) then
      var i :| FirstExact(table, text, i); Found(i)
    else if exists i :: OnlyMatch(table, text, i) then
      var i :| OnlyMatch(table, text, i); Found(i)
    else if exists i :: Abbreviates(table, text, i) then Ambiguous
    else NotFound
  }

  /** The event of a long option "--text", and how many following elements it takes. */
  ghost function LongEvent(optstring: string, table: seq<LongOption>, text: string, following: seq<string>)
    : (r: (Outcome, nat))
    ensures r.1 <= 1 && r.1 <= |following|
  {
    var end := IndexOf(text, '=');
    match Lookup(table, text[..end])
    case Ambiguous => (Complain('?', 0), 0)
    case NotFound => (Complain('?', 0), 0)
    case Found(i) =>
      assert i < |table|;
      var o := table[i];
      var ok := Outcome(if o.flag.Some? then 0 else o.val, None, None, Some(i),
                        if o.flag.Some? then Some((o.flag.value, o.val)) else None);
      if end < |text| then
        if o.hasArg != 0 then (ok.(optarg := Some(text[end + 1..])), 0) else (Complain('?', o.val), 0)
      else if o.hasArg == 1 then
        if following == [] then (Complain(MissingArgument(optstring), o.val), 0)
        else (ok.(optarg := Some(following[0])), 1)
      else (ok, 0)
  }

  // ---------- Whole vectors

  predicate IsLong(longopts: Option<seq<LongOption>>, element: string)
    requires OptionElement(element)
  {
    longopts.Some? && element[1] == '-'
  }

  /** The events of one option element, and how many of the elements after it it consumes. */
  ghost function ElementEvents(first: string, later: string, longopts: Option<seq<LongOption>>, args: seq<string>)
    : (r: (seq<Outcome>, nat))
    requires args != [] && OptionElement(args[0])
    ensures r.0 != [] && r.1 <= 1 && 1 + r.1 <= |args|
  {
    if IsLong(longopts, args[0]) then
      var r := LongEvent(first, longopts.value, args[0][2..], args[1..]);
      ([r.0], r.1)
    else ClusterEvents(first, later, args[0][1..], args[1..])
  }

  /** The left-to-right parse.  `options` collects the option elements, their separate arguments
      and the terminator "--"; `operands` collects what is left for the caller; both in order.
      The first event is read with the option string `first`, the others with `later`. */
  ghost function Parse(mode: Ordering, first: string, later: string, longopts: Option<seq<LongOption>>, args: seq<string>): Scan
    decreases |args|
  {
    if args == [] then Scan([], [], [])
    else if args[0] == "--" then Scan([], args[..1], args[1..])
    else if NonOption(args[0]) then
      match mode
      case RequireOrder => Scan([], [], args)
      case Permute =>
        var rest := Parse(mode, first, later, longopts, args[1..]);
        rest.(operands := args[..1] + rest.operands)
      case ReturnInOrder =>
        var rest := Parse(mode, later, later, longopts, args[1..]);
        Scan([Report(1).(optarg := Some(args[0]))] + rest.events, args[..1] + rest.options, rest.operands)
    else
      var (events, k) := ElementEvents(first, later, longopts, args);
      var rest := Parse(mode, later, later, longopts, args[1 + k..]);
      Scan(events + rest.events, args[..1 + k] + rest.options, rest.operands)
  }

  /** What is still to be reported when the scan stands inside a cluster (`pending` characters of
      args[0] left) or between two elements (nothing pending). */
  ghost function Remaining(mode: Ordering, first: string, later: string, longopts: Option<seq<LongOption>>,
                           pending: string, args: seq<string>): Scan
    requires pending != "" ==> args != []
  {
    if pending == "" then Parse(mode, first, later, longopts, args)
    else
      var (events, k) := ClusterEvents(first, later, pending, args[1..]);
      var rest := Parse(mode, later, later, longopts, args[1 + k..]);
      Scan(events + rest.events, args[..1 + k] + rest.options, rest.operands)
  }

  // ---------- Properties of the parse itself

  /** `z` merges `x` and `y`, keeping the order of each. */
  ghost predicate Merge<T>(x: seq<T>, y: seq<T>, z: seq<T>) {
    |z| == |x| + |y| &&
    (z == [] ||
     (x != [] && x[0] == z[0] && Merge(x[1..], y, z[1..])) ||
     (y != [] && y[0] == z[0] && Merge(x, y[1..], z[1..])))
  }

  lemma MergeRight<T>(y: seq<T>)
    ensures Merge([], y, y)
  {
    if y != [] { MergeRight(y[1..]); }
  }

  lemma {:induction false} MergePrefix<T>(p: seq<T>, x: seq<T>, y: seq<T>, z: seq<T>)
    requires Merge(x, y, z)
    ensures Merge(p + x, y, p + z)
  {
    if p == [] {
      assert p + x == x && p + z == z;
    } else {
      MergePrefix(p[1..], x, y, z);
      assert (p + x)[1..] == p[1..] + x && (p + z)[1..] == p[1..] + z;
    }
  }

  /** The parse splits the vector stably: nothing is lost, duplicated or reordered within a class. */
  lemma {:induction false} ParseIsStablePartition(mode: Ordering, first: string, later: string,
                                                   longopts: Option<seq<LongOption>>, args: seq<string>)
    ensures var s := Parse(mode, first, later, longopts, args);
            Merge(s.options, s.operands, args)
    decreases |args|
  {
    if args == [] {
    } else if args[0] == "--" {
      MergeRight(args[1..]);
      MergePrefix(args[..1], [], args[1..], args[1..]);
      assert args[..1] + [] == args[..1] && args[..1] + args[1..] == args;
    } else if NonOption(args[0]) && mode.RequireOrder? {
      MergeRight(args);
    } else if NonOption(args[0]) && mode.Permute? {
      ParseIsStablePartition(mode, first, later, longopts, args[1..]);
      var rest := Parse(mode, first, later, longopts, args[1..]);
      assert (args[..1] + rest.operands)[1..] == rest.operands;
    } else if NonOption(args[0]) {
      ParseIsStablePartition(mode, later, later, longopts, args[1..]);
      var rest := Parse(mode, later, later, longopts, args[1..]);
      MergePrefix(args[..1], rest.options, rest.operands, args[1..]);
      assert args[..1] + args[1..] == args;
    } else {
      var (events, k) := ElementEvents(first, later, longopts, args);
      ParseIsStablePartition(mode, later, later, longopts, args[1 + k..]);
      var rest := Parse(mode, later, later, longopts, args[1 + k..]);
      MergePrefix(args[..1 + k], rest.options, rest.operands, args[1 + k..]);
      assert args[..1 + k] + args[1 + k..] == args;
    }
  }
}
