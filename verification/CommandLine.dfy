/** What a command line means to getopt, read left to right without moving anything
    (deps/argp/src/getopt.c, comment at lines 327-381). */
module CommandLine {
  import opened Basics

  /** What becomes of the non-options in between the options. */
  datatype Ordering = Permute | RequireOrder | ReturnInOrder

  datatype Arity = NoArgument | RequiredArgument | OptionalArgument

  /** What the long option table says of a name: a declared option, or none or several that fit. */
  datatype LongMatch = Declared(val: int, arity: Arity) | Unmatched

  /** The option letters, with their colons, and the long option table if there is one. */
  datatype Syntax = Syntax(short: string, long: Option<string -> LongMatch>)

  /** What one call returns: a code and the value of `optarg`. */
  datatype Event = Event(code: int, arg: Option<string>)

  const UNRECOGNISED: int := '?' as int
  const IN_ORDER_ARG: int := 1

  /** `NONOPTION_P`. */
  predicate IsNonOption(e: string) {
    |e| < 2 || e[0] != '-'
  }

  /** The code for a missing argument. */
  function MissingArgument(sx: Syntax): int {
    if |sx.short| > 0 && sx.short[0] == ':' then ':' as int else '?' as int
  }

  /** `strchr` on the option letters, as an index. */
  function Index(s: string, c: char): (i: nat)
    ensures i <= |s| && (i < |s| ==> s[i] == c) && c !in s[..i]
  {
    if s == [] then 0
    else if s[0] == c then 0
    else
      var i := Index(s[1..], c);
      assert s[..1 + i] == [s[0]] + s[1..][..i];
      1 + i
  }

  /** What the option letters say of `c`; None for an unknown letter. */
  function LetterArity(sx: Syntax, c: char): Option<Arity> {
    var i := Index(sx.short, c);
    if i == |sx.short| || c == ':' || c == ';' then None
    else if i + 1 < |sx.short| && sx.short[i + 1] == ':' then
      if i + 2 < |sx.short| && sx.short[i + 2] == ':' then Some(OptionalArgument) else Some(RequiredArgument)
    else Some(NoArgument)
  }

  /** The letters of a cluster: what they report, and whether the last one takes the next element. */
  function Letters(sx: Syntax, cluster: string, next: Option<string>): (r: (seq<Event>, bool))
    requires cluster != ""
    ensures r.1 ==> next.Some?
    ensures r.0 != []
    decreases |cluster|, 0
  {
    var c, rest := cluster[0], cluster[1..];
    match LetterArity(sx, c)
    case None => More(Event(UNRECOGNISED, None), sx, rest, next)
    case Some(NoArgument) => More(Event(c as int, None), sx, rest, next)
    case Some(OptionalArgument) => ([Event(c as int, if rest == "" then None else Some(rest))], false)
    case Some(RequiredArgument) =>
      if rest != "" then ([Event(c as int, Some(rest))], false)
      else if next.Some? then ([Event(c as int, next)], true)
      else ([Event(MissingArgument(sx), None)], false)
  }

  function More(first: Event, sx: Syntax, rest: string, next: Option<string>): (r: (seq<Event>, bool))
    ensures r.1 ==> next.Some?
    ensures r.0 != []
    decreases |rest|, 1
  {
    if rest == "" then ([first], false)
    else
      var more := Letters(sx, rest, next);
      ([first] + more.0, more.1)
  }

  /** One long option element, its name and optional value split at the first `=`. */
  function LongElement(sx: Syntax, e: string, next: Option<string>): (r: (Event, bool))
    requires sx.long.Some? && |e| >= 2
    ensures r.1 ==> next.Some?
  {
    var body := e[2..];
    var i := Index(body, '=');
    match sx.long.value(body[..i])
    case Unmatched => (Event(UNRECOGNISED, None), false)
    case Declared(val, arity) =>
      if i < |body| then
        if arity == NoArgument then (Event(UNRECOGNISED, None), false) else (Event(val, Some(body[i + 1..])), false)
      else if arity == RequiredArgument then
        if next.Some? then (Event(val, next), true) else (Event(MissingArgument(sx), None), false)
      else (Event(val, None), false)
  }

  predicate IsLong(sx: Syntax, e: string) {
    sx.long.Some? && |e| >= 2 && e[1] == '-'
  }

  function Element(sx: Syntax, e: string, next: Option<string>): (r: (seq<Event>, bool))
    requires !IsNonOption(e)
    ensures r.1 ==> next.Some?
    ensures r.0 != []
  {
    if IsLong(sx, e) then
      var r := LongElement(sx, e, next);
      ([r.0], r.1)
    else Letters(sx, e[1..], next)
  }

  function Second(args: seq<string>): Option<string> {
    if |args| > 1 then Some(args[1]) else None
  }

  /** The reading of a command line: what is reported, the elements used up as options, and those left over. */
  datatype Reading = Reading(events: seq<Event>, used: seq<string>, left: seq<string>)

  function Read(o: Ordering, sx: Syntax, args: seq<string>): Reading
    decreases |args|
  {
    if args == [] then Reading([], [], [])
    else if IsNonOption(args[0]) then
      match o {
        case Permute =>
          var r := Read(o, sx, args[1..]);
          r.(left := [args[0]] + r.left)
        case RequireOrder => Reading([], [], args)
        case ReturnInOrder =>
          var r := Read(o, sx, args[1..]);
          Reading([Event(IN_ORDER_ARG, Some(args[0]))] + r.events, [args[0]] + r.used, r.left)
      }
    else if args[0] == "--" then Reading([], ["--"], args[1..])
    else After(o, sx, Element(sx, args[0], Second(args)), args)
  }

  /** The reading from an option element on that reports `r.0` and takes the next element if `r.1`. */
  function After(o: Ordering, sx: Syntax, r: (seq<Event>, bool), args: seq<string>): Reading
    requires args != [] && (r.1 ==> |args| > 1)
    decreases |args|, 0
  {
    var k := if r.1 then 2 else 1;
    var rest := Read(o, sx, args[k..]);
    Reading(r.0 + rest.events, args[..k] + rest.used, rest.left)
  }

  /** Reading from inside a cluster of which the letters `cluster` are still to come. */
  function Resume(o: Ordering, sx: Syntax, cluster: string, args: seq<string>): Reading
    requires cluster != "" ==> args != []
  {
    if cluster == "" then Read(o, sx, args) else After(o, sx, Letters(sx, cluster, Second(args)), args)
  }

  /** `xs` is a merge of `us` and `ls`: each in its own order, every element of `xs` in one of them. */
  ghost predicate Merges<X(!new)>(xs: seq<X>, us: seq<X>, ls: seq<X>) {
    if xs == [] then us == [] && ls == []
    else
      || (us != [] && us[0] == xs[0] && Merges(xs[1..], us[1..], ls))
      || (ls != [] && ls[0] == xs[0] && Merges(xs[1..], us, ls[1..]))
  }

  lemma {:induction false} AllLeft<X(!new)>(xs: seq<X>)
    ensures Merges(xs, [], xs)
  {
    if xs != [] { AllLeft(xs[1..]); }
  }

  lemma {:induction false} MergesMultiset<X(!new)>(xs: seq<X>, us: seq<X>, ls: seq<X>)
    requires Merges(xs, us, ls)
    ensures multiset(xs) == multiset(us) + multiset(ls)
  {
    if xs != [] {
      assert xs == [xs[0]] + xs[1..];
      if us != [] && us[0] == xs[0] && Merges(xs[1..], us[1..], ls) {
        assert us == [us[0]] + us[1..];
        MergesMultiset(xs[1..], us[1..], ls);
      } else {
        assert ls == [ls[0]] + ls[1..];
        MergesMultiset(xs[1..], us, ls[1..]);
      }
    }
  }

  /** Whatever the ordering, every element is used or left, once, and in its original order. */
  lemma {:induction false} ReadMerges(o: Ordering, sx: Syntax, args: seq<string>)
    ensures Merges(args, Read(o, sx, args).used, Read(o, sx, args).left)
    decreases |args|
  {
    if args != [] {
      var all := Read(o, sx, args);
      if IsNonOption(args[0]) {
        if o == RequireOrder {
          AllLeft(args);
        } else {
          ReadMerges(o, sx, args[1..]);
          if o == Permute { assert all.left[1..] == Read(o, sx, args[1..]).left; }
          else { assert all.used[1..] == Read(o, sx, args[1..]).used; }
        }
      } else if args[0] == "--" {
        AllLeft(args[1..]);
      } else {
        var k := if Element(sx, args[0], Second(args)).1 then 2 else 1;
        ReadMerges(o, sx, args[k..]);
        assert all == After(o, sx, Element(sx, args[0], Second(args)), args);
        assert all.used == args[..k] + Read(o, sx, args[k..]).used;
        assert all.used[k..] == Read(o, sx, args[k..]).used && all.used[0] == args[0];
        if k == 2 {
          assert args[1..][1..] == args[2..] && all.used[1..][1..] == all.used[2..];
          assert Merges(args[1..], all.used[1..], all.left);
        }
      }
    }
  }

  /** Also from inside a cluster every element is used or left, once. */
  lemma ResumeAll(o: Ordering, sx: Syntax, cluster: string, args: seq<string>)
    requires cluster != "" ==> args != []
    ensures var r := Resume(o, sx, cluster, args);
            multiset(args) == multiset(r.used) + multiset(r.left)
  {
    hide Read, Merges, Letters, LetterArity;
    if cluster == "" {
      ReadMerges(o, sx, args);
      MergesMultiset(args, Read(o, sx, args).used, Read(o, sx, args).left);
    } else {
      var k := if Letters(sx, cluster, Second(args)).1 then 2 else 1;
      var rest := Read(o, sx, args[k..]);
      ReadMerges(o, sx, args[k..]);
      MergesMultiset(args[k..], rest.used, rest.left);
      assert args == args[..k] + args[k..];
    }
  }

  /** In PERMUTE order, what is left is the non-options up to a `--` and everything after it:
      no element that looks like an option is left over unless it follows a `--` that was used. */
  lemma {:induction false} OptionsNeverLeft(sx: Syntax, args: seq<string>, i: nat)
    requires i < |Read(Permute, sx, args).left| && !IsNonOption(Read(Permute, sx, args).left[i])
    ensures "--" in Read(Permute, sx, args).used
    decreases |args|
  {
    if IsNonOption(args[0]) {
      OptionsNeverLeft(sx, args[1..], i - 1);
    } else if args[0] != "--" {
      OptionsNeverLeft(sx, args[if Element(sx, args[0], Second(args)).1 then 2 else 1..], i);
    }
  }
}
