/** The scanner of deps/argp/src/getopt.c, which permutes argv in place as it goes. */
module Getopt {
  import opened Basics
  import opened CommandLine

  /** `a` with the adjacent segments [i, j) and [j, k) exchanged. */
  function Exchanged<T>(a: seq<T>, i: nat, j: nat, k: nat): seq<T>
    requires i <= j <= k <= |a|
  {
    a[..i] + a[j..k] + a[i..j] + a[k..]
  }

  /** `a` with the `len` elements at `lo` and at `hi` swapped one by one. */
  function Swapped<T>(a: seq<T>, lo: nat, hi: nat, len: nat): (b: seq<T>)
    requires lo + len <= hi && hi + len <= |a|
    ensures |b| == |a|
  {
    seq(|a|, p requires 0 <= p < |a| =>
      if lo <= p < lo + len then a[p + (hi - lo)] else if hi <= p < hi + len then a[p - (hi - lo)] else a[p])
  }

  method SwapBlocks<T>(a: array<T>, lo: nat, hi: nat, len: nat)
    requires lo + len <= hi && hi + len <= a.Length
    modifies a
    ensures a[..] == Swapped(old(a[..]), lo, hi, len)
  {
    ghost var s := a[..];
    for i := 0 to len
      invariant a[..] == Swapped(s, lo, hi, i)
    {
      ghost var t := a[..];
      assert a[lo + i] == t[lo + i] == s[lo + i] && a[hi + i] == t[hi + i] == s[hi + i];
      var tem := a[lo + i];
      a[lo + i] := a[hi + i];
      a[hi + i] := tem;
      assert a[..] == t[lo + i := s[hi + i]][hi + i := s[lo + i]];
    }
  }

  /** What a scan will have reported, used and left when it ends, seen from its present position:
      options taken in [base, first) and [last, optind), non-options set aside in [first, last), and
      the rest of the line to read. */
  ghost function Outcome(o: Ordering, sx: Syntax, a: seq<string>, base: nat, first: nat, last: nat, optind: nat,
                         nextchar: string): Reading
    requires base <= first <= last <= optind <= |a| && (nextchar != "" ==> optind < |a|)
  {
    var rest := Resume(o, sx, nextchar, a[optind..]);
    if first == last then rest.(used := a[base..optind] + rest.used)
    else Reading(rest.events, a[base..first] + a[last..optind] + rest.used, a[first..last] + rest.left)
  }

  lemma OutcomeAfterExchange(o: Ordering, sx: Syntax, a: seq<string>, base: nat, first: nat, last: nat, optind: nat)
    requires base <= first < last <= optind <= |a|
    ensures var b := Exchanged(a, first, last, optind);
            && |b| == |a| && b[..base] == a[..base]
            && Outcome(o, sx, b, base, first + optind - last, optind, optind, "")
               == Outcome(o, sx, a, base, first, last, optind, "")
  {
    var b, m := Exchanged(a, first, last, optind), first + optind - last;
    SegmentsOf(a, first, last, optind);
    assert b[base..m] == b[base..first] + b[first..m];
    assert b[base..first] == b[..first][base..] && a[base..first] == a[..first][base..];
    assert b[..base] == b[..first][..base] && a[..base] == a[..first][..base];
    assert b[base..m] + b[optind..optind] == a[base..first] + a[last..optind];
  }

  lemma OutcomeNoneAside(o: Ordering, sx: Syntax, a: seq<string>, base: nat, first: nat, optind: nat)
    requires base <= first <= optind <= |a|
    ensures Outcome(o, sx, a, base, optind, optind, optind, "") == Outcome(o, sx, a, base, first, first, optind, "")
  {
  }

  lemma OutcomeAfterSkip(sx: Syntax, a: seq<string>, base: nat, first: nat, optind: nat)
    requires base <= first <= optind < |a| && IsNonOption(a[optind])
    ensures Outcome(Permute, sx, a, base, first, optind + 1, optind + 1, "")
            == Outcome(Permute, sx, a, base, first, optind, optind, "")
  {
    assert a[optind..][1..] == a[optind + 1..] && a[optind..][0] == a[optind];
    assert a[first..optind + 1] == a[first..optind] + [a[optind]];
    var r := Read(Permute, sx, a[optind + 1..]);
    assert a[first..optind] + ([a[optind]] + r.left) == a[first..optind + 1] + r.left;
    if first == optind { assert a[base..first] + a[optind + 1..optind + 1] == a[base..optind]; }
    assert a[optind..optind] == [] && a[optind + 1..optind + 1] == [];
  }

  /** At `--` the scan knows its end: `--` goes behind the options, before what was set aside. */
  lemma OutcomeAtQuote(o: Ordering, sx: Syntax, a: seq<string>, base: nat, first: nat, last: nat, optind: nat)
    requires base <= first <= last <= optind < |a| && (first == last || last == optind) && a[optind] == "--"
    ensures var all := Outcome(o, sx, a, base, first, last, optind, "");
            var b := if first == last then a else Exchanged(a, first, last, optind + 1);
            var m := if first == last then optind + 1 else first + 1;
            && all.events == [] && |b| == |a| && b[..base] == a[..base]
            && b[base..] == all.used + all.left && m == base + |all.used|
  {
    assert Read(o, sx, a[optind..]) == Reading([], ["--"], a[optind..][1..]) by { assert a[optind..][0] == a[optind]; }
    assert a[optind..][1..] == a[optind + 1..];
    if first == last {
      assert a[base..optind + 1] == a[base..optind] + ["--"];
      assert a[base..] == a[base..optind + 1] + a[optind + 1..];
    } else {
      assert a[last..optind] == [] && a[base..first] + [] == a[base..first];
      QuoteMoves(a, base, first, optind);
    }
  }

  lemma QuoteMoves(a: seq<string>, base: nat, first: nat, optind: nat)
    requires base <= first <= optind < |a| && a[optind] == "--"
    ensures var b := Exchanged(a, first, optind, optind + 1);
            && |b| == |a| && b[..base] == a[..base]
            && b[base..] == a[base..first] + ["--"] + (a[first..optind] + a[optind + 1..])
  {
    assert a[optind..optind + 1] == ["--"];
  }

  lemma OutcomeAtStart(o: Ordering, sx: Syntax, a: seq<string>, optind: nat)
    requires optind <= |a|
    ensures Outcome(o, sx, a, optind, optind, optind, optind, "") == Read(o, sx, a[optind..])
  {
  }

  lemma OutcomeAtEnd(o: Ordering, sx: Syntax, a: seq<string>, base: nat, first: nat, last: nat)
    requires base <= first <= last <= |a| && (first == last || last == |a|)
    ensures var all := Outcome(o, sx, a, base, first, last, |a|, "");
            var m := if first == last then |a| else first;
            all == Reading([], a[base..m], a[m..]) && a[base..] == all.used + all.left
  {
    assert a[|a|..] == [];
  }

  /** Where non-options are not set aside, one is reported or ends the scan. */
  lemma OutcomeAtNonOption(o: Ordering, sx: Syntax, a: seq<string>, base: nat, first: nat, optind: nat)
    requires base <= first <= optind < |a| && IsNonOption(a[optind]) && o != Permute
    ensures var all := Outcome(o, sx, a, base, first, first, optind, "");
            if o == RequireOrder then
              all == Reading([], a[base..optind], a[optind..]) && a[base..] == all.used + all.left
            else
              var next := Outcome(o, sx, a, base, first, first, optind + 1, "");
              all == next.(events := [Event(IN_ORDER_ARG, Some(a[optind]))] + next.events)
  {
    assert a[optind..][0] == a[optind];
    if o == RequireOrder {
      assert a[base..] == a[base..optind] + a[optind..];
    } else {
      var rest := Read(o, sx, a[optind..][1..]);
      assert Read(o, sx, a[optind..])
             == Reading([Event(IN_ORDER_ARG, Some(a[optind]))] + rest.events, [a[optind]] + rest.used, rest.left);
      assert a[optind..][..1] == [a[optind]];
      OutcomeAfterTaking(o, sx, a, base, first, first, optind, 1, "", [Event(IN_ORDER_ARG, Some(a[optind]))]);
    }
  }

  /** A long option element is read in one call. */
  lemma OutcomeAtLong(o: Ordering, sx: Syntax, a: seq<string>, base: nat, first: nat, last: nat, optind: nat,
                      event: Event, takes: bool)
    requires base <= first <= last <= optind < |a| && !IsNonOption(a[optind]) && IsLong(sx, a[optind])
             && a[optind] != "--"
    requires LongElement(sx, a[optind], Second(a[optind..])) == (event, takes)
    ensures optind + (if takes then 2 else 1) <= |a|
    ensures var next := Outcome(o, sx, a, base, first, last, optind + (if takes then 2 else 1), "");
            Outcome(o, sx, a, base, first, last, optind, "") == next.(events := [event] + next.events)
  {
    assert a[optind..][0] == a[optind];
    assert Read(o, sx, a[optind..]) == After(o, sx, ([event], takes), a[optind..]);
    OutcomeAfterTaking(o, sx, a, base, first, last, optind, if takes then 2 else 1, "", [event]);
  }

  lemma OutcomeAtCluster(o: Ordering, sx: Syntax, a: seq<string>, base: nat, first: nat, last: nat, optind: nat)
    requires base <= first <= last <= optind < |a| && !IsNonOption(a[optind]) && !IsLong(sx, a[optind])
             && a[optind] != "--"
    ensures Outcome(o, sx, a, base, first, last, optind, a[optind][1..])
            == Outcome(o, sx, a, base, first, last, optind, "")
  {
    assert a[optind..][0] == a[optind];
  }

  lemma Shares<T>(a: seq<T>, base: nat, first: nat, last: nat, optind: nat, us: seq<T>, ls: seq<T>)
    requires base <= first <= last <= optind <= |a| && multiset(a[optind..]) == multiset(us) + multiset(ls)
    ensures multiset(a[base..]) == multiset(a[base..first] + a[last..optind] + us) + multiset(a[first..last] + ls)
  {
    assert a[base..] == a[base..first] + a[first..last] + a[last..optind] + a[optind..];
  }

  /** Every element from the first of the scan on is used or left, once. */
  lemma OutcomeAll(o: Ordering, sx: Syntax, a: seq<string>, base: nat, first: nat, last: nat, optind: nat,
                   nextchar: string)
    requires base <= first <= last <= optind <= |a| && (nextchar != "" ==> optind < |a|)
    ensures var all := Outcome(o, sx, a, base, first, last, optind, nextchar);
            multiset(a[base..]) == multiset(all.used) + multiset(all.left)
  {
    hide Resume;
    ResumeAll(o, sx, nextchar, a[optind..]);
    var rest := Resume(o, sx, nextchar, a[optind..]);
    Shares(a, base, first, last, optind, rest.used, rest.left);
    if first == last {
      Slices(a, base, first, optind);
      assert a[first..last] + rest.left == rest.left;
    }
  }

  /** Inside a cluster only the report moves on. */
  lemma OutcomeWithin(o: Ordering, sx: Syntax, a: seq<string>, base: nat, first: nat, last: nat, optind: nat,
                      nextchar: string, event: Event)
    requires base <= first <= last <= optind < |a| && |nextchar| > 1
    requires Letters(sx, nextchar, Second(a[optind..])) == More(event, sx, nextchar[1..], Second(a[optind..]))
    ensures var next := Outcome(o, sx, a, base, first, last, optind, nextchar[1..]);
            Outcome(o, sx, a, base, first, last, optind, nextchar) == next.(events := [event] + next.events)
  {
    hide After, Read, Letters;
    AfterLonger(o, sx, event, Letters(sx, nextchar[1..], Second(a[optind..])), a[optind..]);
  }

  lemma AfterLonger(o: Ordering, sx: Syntax, event: Event, r: (seq<Event>, bool), args: seq<string>)
    requires args != [] && (r.1 ==> |args| > 1)
    ensures var rest := After(o, sx, r, args);
            After(o, sx, ([event] + r.0, r.1), args) == rest.(events := [event] + rest.events)
  {
    var rest := Read(o, sx, args[if r.1 then 2 else 1..]);
    assert [event] + r.0 + rest.events == [event] + (r.0 + rest.events);
  }

  /** Taking `k` elements as options moves them to the used side. */
  lemma OutcomeAfterTaking(o: Ordering, sx: Syntax, a: seq<string>, base: nat, first: nat, last: nat, optind: nat,
                           k: nat, nextchar: string, events: seq<Event>)
    requires base <= first <= last <= optind <= optind + k <= |a| && optind < |a|
    requires var rest := Read(o, sx, a[optind..][k..]);
             Resume(o, sx, nextchar, a[optind..])
               == Reading(events + rest.events, a[optind..][..k] + rest.used, rest.left)
    ensures var next := Outcome(o, sx, a, base, first, last, optind + k, "");
            Outcome(o, sx, a, base, first, last, optind, nextchar) == next.(events := events + next.events)
  {
    hide Read, After;
    var rest := Read(o, sx, a[optind..][k..]);
    assert a[optind..][k..] == a[optind + k..] && a[optind..][..k] == a[optind..optind + k];
    if first == last {
      SlicesJoin(a, base, optind, optind + k, rest.used);
    } else {
      SlicesJoin(a, last, optind, optind + k, rest.used);
      assert a[base..first] + a[last..optind] + (a[optind..optind + k] + rest.used)
          == a[base..first] + (a[last..optind] + (a[optind..optind + k] + rest.used));
      assert a[base..first] + a[last..optind + k] + rest.used == a[base..first] + (a[last..optind + k] + rest.used);
    }
  }

  lemma SlicesJoin<T>(a: seq<T>, i: nat, j: nat, k: nat, b: seq<T>)
    requires i <= j <= k <= |a|
    ensures a[i..j] + (a[j..k] + b) == a[i..k] + b
  {
    assert a[i..j] + a[j..k] == a[i..k];
  }

  /** The option letters without the character that asks for an ordering. */
  function OptionLetters(optstring: string): string {
    if optstring != "" && optstring[0] in {'-', '+'} then optstring[1..] else optstring
  }

  /** `W;` asks for `-W name` to stand for `--name`, which is not modelled. */
  predicate HasLongW(letters: string) {
    exists i :: 0 <= i < |letters| - 1 && letters[i] == 'W' && letters[i + 1] == ';'
  }

  /** The ordering that `_getopt_initialize` settles on. */
  function OrderingOf(optstring: string, posixlyCorrect: bool): Ordering {
    if optstring != "" && optstring[0] == '-' then ReturnInOrder
    else if optstring != "" && optstring[0] == '+' then RequireOrder
    else if posixlyCorrect then RequireOrder
    else Permute
  }

  /** `struct _getopt_data`. `nextchar` holds the letters still to come of the element being scanned. */
  class Scanner {
    var optind: nat
    var firstNonopt: nat
    var lastNonopt: nat
    var nextchar: string
    var initialized: bool
    var ordering: Ordering
    // Where this scan started.
    ghost var base: nat

    constructor ()
      ensures optind == 1 && !initialized && nextchar == ""
    {
      optind, firstNonopt, lastNonopt, nextchar, initialized, ordering := 1, 0, 0, "", false, Permute;
    }

    ghost predicate Scanning()
      reads this
    {
      initialized && optind > 0
    }

    ghost predicate Valid(argv: array<string>)
      reads this, argv
    {
      && 1 <= argv.Length && optind <= argv.Length
      && (Scanning() ==>
        && 1 <= base <= firstNonopt <= lastNonopt <= optind
        && (ordering != Permute ==> firstNonopt == lastNonopt)
        && (nextchar != "" ==> optind < argv.Length && !IsNonOption(argv[optind])))
    }

    /** The first element of the scan. */
    ghost function Start(): nat
      reads this
    {
      if Scanning() then base else if optind == 0 then 1 else optind
    }

    /** What the scan will still report, and all it will have used and left. */
    ghost function Pending(argv: array<string>, o: Ordering, sx: Syntax): Reading
      requires Valid(argv)
      reads this, argv
    {
      if Scanning() then Outcome(o, sx, argv[..], base, firstNonopt, lastNonopt, optind, nextchar)
      else Read(o, sx, argv[Start()..])
    }

    /** The end of a scan: the options, then the rest, with `optind` at the first of the rest. */
    ghost predicate Finished(argv: array<string>, all: Reading)
      reads this, argv
    {
      && all.events == [] && base <= argv.Length
      && argv[base..] == all.used + all.left && optind == base + |all.used|
    }

    /** Moves the options of [lastNonopt, optind) in front of the non-options of [firstNonopt, lastNonopt),
        each segment in its own order. */
    method Exchange(argv: array<string>)
      requires firstNonopt <= lastNonopt <= optind <= argv.Length
      modifies argv, this`firstNonopt, this`lastNonopt
      ensures argv[..] == Exchanged(old(argv[..]), old(firstNonopt), old(lastNonopt), optind)
      ensures firstNonopt == old(firstNonopt) + optind - old(lastNonopt) && lastNonopt == optind
      ensures argv[firstNonopt..lastNonopt] == old(argv[firstNonopt..lastNonopt])
    {
      hide Exchanged, Swapped;
      var bottom, middle, top := firstNonopt, lastNonopt, optind;
      ghost var goal := Exchanged(argv[..], bottom, middle, top);
      while top > middle && middle > bottom
        invariant firstNonopt <= bottom <= middle <= top <= optind
        invariant Exchanged(argv[..], bottom, middle, top) == goal
        decreases top - bottom
        modifies argv
      {
        ghost var a := argv[..];
        if top - middle > middle - bottom {
          var len := middle - bottom;
          SwapBlocks(argv, bottom, top - len, len);
          BottomSettled(a, bottom, middle, top);
          top := top - len;
        } else {
          var len := top - middle;
          SwapBlocks(argv, bottom, middle, len);
          TopSettled(a, bottom, middle, top);
          bottom := bottom + len;
        }
      }
      NothingLeft(argv[..], bottom, middle, top);
      SegmentsOf(old(argv[..]), firstNonopt, lastNonopt, optind);
      firstNonopt := firstNonopt + (optind - lastNonopt);
      lastNonopt := optind;
    }

    /** `_getopt_initialize`. */
    method Initialize(o: Ordering)
      modifies this
      ensures Scanning() && nextchar == "" && ordering == o
      ensures optind == old(if optind == 0 then 1 else optind) == firstNonopt == lastNonopt == base
    {
      if optind == 0 { optind := 1; }
      firstNonopt, lastNonopt, nextchar, ordering, initialized := optind, optind, "", o, true;
      base := optind;
    }

    /** The advance to the next element: pending options are moved in front of the non-options set aside,
        and in PERMUTE order the non-options that follow are set aside too. */
    method Advance(argv: array<string>, ghost sx: Syntax)
      requires Valid(argv) && Scanning() && nextchar == ""
      modifies this`firstNonopt, this`lastNonopt, this`optind, argv
      ensures Valid(argv) && Scanning() && argv[..base] == old(argv[..base])
      ensures Pending(argv, ordering, sx) == old(Pending(argv, ordering, sx))
      ensures ordering == Permute ==> lastNonopt == optind && (optind < argv.Length ==> !IsNonOption(argv[optind]))
      ensures ordering != Permute ==> optind == old(optind)
    {
      hide Outcome, Exchanged;
      ghost var all := Pending(argv, ordering, sx);
      lastNonopt := Min(lastNonopt, optind);
      firstNonopt := Min(firstNonopt, optind);
      if ordering == Permute {
        if firstNonopt != lastNonopt && lastNonopt != optind {
          OutcomeAfterExchange(ordering, sx, argv[..], base, firstNonopt, lastNonopt, optind);
          Exchange(argv);
        } else if lastNonopt != optind {
          OutcomeNoneAside(ordering, sx, argv[..], base, firstNonopt, optind);
          firstNonopt := optind;
        }
        while optind < argv.Length && IsNonOption(argv[optind])
          invariant base <= firstNonopt <= optind <= argv.Length
          invariant Outcome(Permute, sx, argv[..], base, firstNonopt, optind, optind, "") == all
          modifies this`optind
        {
          OutcomeAfterSkip(sx, argv[..], base, firstNonopt, optind);
          optind := optind + 1;
        }
        lastNonopt := optind;
      }
    }

    /** `--` is used like an option, and ends the options. */
    method Quote(argv: array<string>, ghost sx: Syntax)
      requires Valid(argv) && Scanning() && nextchar == "" && optind < argv.Length && argv[optind] == "--"
      requires ordering == Permute ==> lastNonopt == optind
      modifies this`firstNonopt, this`lastNonopt, this`optind, argv
      ensures Scanning() && argv[..base] == old(argv[..base])
              && base <= firstNonopt <= lastNonopt == optind == argv.Length
      ensures old(Pending(argv, ordering, sx)).events == []
      ensures argv[base..] == old(Pending(argv, ordering, sx).used + Pending(argv, ordering, sx).left)
      ensures firstNonopt == base + |old(Pending(argv, ordering, sx).used)|
    {
      hide Outcome, Exchanged, Read, Resume, After, Letters, Element, Index;
      ghost var a := argv[..];
      OutcomeAtQuote(ordering, sx, a, base, firstNonopt, lastNonopt, optind);
      optind := optind + 1;
      if firstNonopt != lastNonopt && lastNonopt != optind {
        Exchange(argv);
      } else if firstNonopt == lastNonopt {
        firstNonopt := optind;
      }
      assert argv[..][base..] == argv[base..];
      lastNonopt := argv.Length;
      optind := argv.Length;
    }

    /** What one letter of a cluster leaves of the scan. */
    lemma Took(a: seq<string>, sx: Syntax, o0: nat, cluster: string, event: Event)
      requires base <= firstNonopt <= lastNonopt <= o0 < |a| && cluster != "" && o0 <= optind <= |a|
      requires var next := Second(a[o0..]);
               || (&& nextchar != "" && optind == o0 && nextchar == cluster[1..]
                   && Letters(sx, cluster, next) == More(event, sx, nextchar, next))
               || (&& nextchar == "" && optind > o0
                   && Letters(sx, cluster, next) == ([event], optind == o0 + 2) && optind <= o0 + 2)
      ensures var next := Outcome(ordering, sx, a, base, firstNonopt, lastNonopt, optind, nextchar);
              Outcome(ordering, sx, a, base, firstNonopt, lastNonopt, o0, cluster)
                == next.(events := [event] + next.events)
    {
      if nextchar != "" {
        OutcomeWithin(ordering, sx, a, base, firstNonopt, lastNonopt, o0, cluster, event);
      } else {
        OutcomeAfterTaking(ordering, sx, a, base, firstNonopt, lastNonopt, o0, optind - o0, cluster, [event]);
      }
    }

    /** The next letter of a cluster. */
    method DecodeLetter(argv: array<string>, sx: Syntax) returns (event: Event)
      requires Valid(argv) && Scanning() && nextchar != ""
      modifies this`optind, this`nextchar
      ensures Valid(argv) && Scanning()
      ensures var next := Pending(argv, ordering, sx);
              old(Pending(argv, ordering, sx)) == next.(events := [event] + next.events)
    {
      hide Outcome, Read, After, Resume;
      ghost var a, o0, cluster := argv[..], optind, nextchar;
      var c := nextchar[0];
      nextchar := nextchar[1..];
      if nextchar == "" { optind := optind + 1; }
      var temp := Index(sx.short, c);
      if temp == |sx.short| || c == ':' || c == ';' {
        event := Event(UNRECOGNISED, None);
        Took(a, sx, o0, cluster, event);
        return;
      }
      var optarg := None;
      var code := c as int;
      if temp + 1 < |sx.short| && sx.short[temp + 1] == ':' {
        if temp + 2 < |sx.short| && sx.short[temp + 2] == ':' {
          if nextchar != "" {
            optarg := Some(nextchar);
            optind := optind + 1;
          }
        } else if nextchar != "" {
          optarg := Some(nextchar);
          optind := optind + 1;
        } else if optind == argv.Length {
          code := MissingArgument(sx);
        } else {
          optarg := Some(argv[optind]);
          optind := optind + 1;
        }
        nextchar := "";
      }
      event := Event(code, optarg);
      Took(a, sx, o0, cluster, event);
    }

    /** A long option element. */
    method DecodeLong(argv: array<string>, sx: Syntax) returns (event: Event)
      requires Valid(argv) && Scanning() && optind < argv.Length && !IsNonOption(argv[optind])
      requires IsLong(sx, argv[optind]) && argv[optind] != "--" && nextchar == argv[optind][2..]
      modifies this`optind, this`nextchar
      ensures Valid(argv) && Scanning() && nextchar == ""
      ensures Outcome(ordering, sx, argv[..], base, firstNonopt, lastNonopt, old(optind), "")
           == Pending(argv, ordering, sx).(events := [event] + Pending(argv, ordering, sx).events)
    {
      hide Outcome, Read, After;
      ghost var a, o0 := argv[..], optind;
      var nameend := Index(nextchar, '=');
      var name := nextchar[..nameend];
      optind := optind + 1;
      var optarg := None;
      var code: int;
      match sx.long.value(name) {
        case Unmatched =>
          code := UNRECOGNISED;
        case Declared(val, arity) =>
          code := val;
          if nameend < |nextchar| {
            if arity != NoArgument {
              optarg := Some(nextchar[nameend + 1..]);
            } else {
              code := UNRECOGNISED;
            }
          } else if arity == RequiredArgument {
            if optind < argv.Length {
              optarg := Some(argv[optind]);
              optind := optind + 1;
            } else {
              code := MissingArgument(sx);
            }
          }
      }
      event := Event(code, optarg);
      OutcomeAtLong(ordering, sx, a, base, firstNonopt, lastNonopt, o0, event, optind == o0 + 2);
      nextchar := "";
    }

    /** The elements of argv, in terms of what the scan will have used and left. */
    lemma AllPending(argv: array<string>, o: Ordering, sx: Syntax)
      requires Valid(argv)
      ensures var all := Pending(argv, o, sx);
              multiset(argv[..]) == multiset(argv[..Start()]) + (multiset(all.used) + multiset(all.left))
    {
      hide Outcome, Read, Merges;
      if Scanning() {
        OutcomeAll(o, sx, argv[..], base, firstNonopt, lastNonopt, optind, nextchar);
      } else {
        var all := Read(o, sx, argv[Start()..]);
        ReadMerges(o, sx, argv[Start()..]);
        MergesMultiset(argv[Start()..], all.used, all.left);
      }
      assert argv[..] == argv[..Start()] + argv[Start()..] && argv[..][Start()..] == argv[Start()..];
    }

    lemma AllFinished(argv: array<string>, all: Reading)
      requires Finished(argv, all.(events := []))
      ensures multiset(argv[..]) == multiset(argv[..base]) + (multiset(all.used) + multiset(all.left))
    {
      assert argv[..] == argv[..base] + argv[base..];
    }

    /** One call of `_getopt_internal_r`: it reports the next event of the line as it was first written,
        or, when there is none, leaves argv as options followed by the rest. Every call permutes argv. */
    method Next(argv: array<string>, optstring: string, long: Option<string -> LongMatch>, posixlyCorrect: bool)
      returns (event: Option<Event>)
      requires !HasLongW(OptionLetters(optstring))
      requires Valid(argv) && (Scanning() ==> ordering == OrderingOf(optstring, posixlyCorrect))
      modifies this, argv
      ensures Scanning() && base == old(Start()) && argv[..base] == old(argv[..Start()])
      ensures ordering == OrderingOf(optstring, posixlyCorrect)
      ensures var sx := Syntax(OptionLetters(optstring), long);
              var before := old(Pending(argv, OrderingOf(optstring, posixlyCorrect), sx));
              match event
              case None => Finished(argv, before)
              case Some(e) =>
                Valid(argv) && var after := Pending(argv, ordering, sx); before == after.(events := [e] + after.events)
      ensures multiset(argv[..]) == old(multiset(argv[..]))
    {
      hide Outcome, Read, After, Letters, Element;
      AllPending(argv, OrderingOf(optstring, posixlyCorrect), Syntax(OptionLetters(optstring), long));
      ghost var all := Pending(argv, OrderingOf(optstring, posixlyCorrect), Syntax(OptionLetters(optstring), long));
      if optind == 0 || !initialized {
        Initialize(OrderingOf(optstring, posixlyCorrect));
        OutcomeAtStart(ordering, Syntax(OptionLetters(optstring), long), argv[..], optind);
      }
      assert Pending(argv, ordering, Syntax(OptionLetters(optstring), long)) == all;
      event := Step(argv, Syntax(OptionLetters(optstring), long));
      if event == None {
        AllFinished(argv, all);
      } else {
        AllPending(argv, ordering, Syntax(OptionLetters(optstring), long));
      }
    }

    /** A call once the scan is under way. */
    method Step(argv: array<string>, sx: Syntax) returns (event: Option<Event>)
      requires Valid(argv) && Scanning()
      modifies this`firstNonopt, this`lastNonopt, this`optind, this`nextchar, argv
      ensures Scanning() && argv[..base] == old(argv[..base])
      ensures match event
              case None => Finished(argv, old(Pending(argv, ordering, sx)))
              case Some(e) =>
                && Valid(argv)
                && var after := Pending(argv, ordering, sx);
                   old(Pending(argv, ordering, sx)) == after.(events := [e] + after.events)
    {
      hide Outcome, Read, After, Letters, Element;
      if nextchar == "" {
        Advance(argv, sx);
        if optind != argv.Length && argv[optind] == "--" {
          Quote(argv, sx);
          if firstNonopt != lastNonopt { optind := firstNonopt; }
          return None;
        }
        if optind == argv.Length {
          OutcomeAtEnd(ordering, sx, argv[..], base, firstNonopt, lastNonopt);
          if firstNonopt != lastNonopt { optind := firstNonopt; }
          return None;
        }
        if IsNonOption(argv[optind]) {
          OutcomeAtNonOption(ordering, sx, argv[..], base, firstNonopt, optind);
          if ordering == RequireOrder { return None; }
          optind := optind + 1;
          return Some(Event(IN_ORDER_ARG, Some(argv[optind - 1])));
        }
        if IsLong(sx, argv[optind]) {
          nextchar := argv[optind][2..];
          var e := DecodeLong(argv, sx);
          return Some(e);
        }
        OutcomeAtCluster(ordering, sx, argv[..], base, firstNonopt, lastNonopt, optind);
        nextchar := argv[optind][1..];
      }
      var e := DecodeLetter(argv, sx);
      return Some(e);
    }

    /** A whole scan: the calls report exactly the events of the line as it was first written, in order,
        and argv ends as its own beginning, the elements used as options, and the rest, each in original order. */
    method Scan(argv: array<string>, optstring: string, long: Option<string -> LongMatch>, posixlyCorrect: bool)
      returns (events: seq<Event>)
      requires Valid(argv) && !Scanning() && !HasLongW(OptionLetters(optstring))
      modifies this, argv
      ensures var all :=
              Read(OrderingOf(optstring, posixlyCorrect), Syntax(OptionLetters(optstring), long), old(argv[Start()..]));
              && events == all.events
              && argv[..] == old(argv[..Start()]) + all.used + all.left
              && optind == old(Start()) + |all.used|
      ensures multiset(argv[..]) == old(multiset(argv[..]))
    {
      hide Outcome, Read;
      ghost var o, sx := OrderingOf(optstring, posixlyCorrect), Syntax(OptionLetters(optstring), long);
      ghost var all, start, front := Pending(argv, o, sx), Start(), argv[..Start()];
      events := [];
      var event := Next(argv, optstring, long, posixlyCorrect);
      while event.Some?
        invariant Scanning() && base == start && argv[..base] == front && ordering == o
        invariant multiset(argv[..]) == old(multiset(argv[..]))
        invariant event.Some? ==>
                    && Valid(argv)
                    && var rest := Pending(argv, o, sx); all == rest.(events := events + [event.value] + rest.events)
        invariant event.None? ==> Finished(argv, all.(events := [])) && events == all.events
        decreases event.Some?, if event.Some? then |Pending(argv, o, sx).events| else 0
      {
        events := events + [event.value];
        event := Next(argv, optstring, long, posixlyCorrect);
      }
      assert argv[..] == argv[..base] + argv[base..];
    }
  }

  lemma NothingLeft<T>(a: seq<T>, i: nat, j: nat, k: nat)
    requires i <= j <= k <= |a| && (i == j || j == k)
    ensures Exchanged(a, i, j, k) == a
  {
    assert a == a[..i] + a[i..j] + a[j..k] + a[k..];
  }

  /** Where the two segments end up. */
  lemma SegmentsOf<T>(a: seq<T>, i: nat, j: nat, k: nat)
    requires i <= j <= k <= |a|
    ensures var b, m := Exchanged(a, i, j, k), i + (k - j);
            && |b| == |a| && b[..i] == a[..i] && b[k..] == a[k..]
            && b[i..m] == a[j..k] && b[m..k] == a[i..j]
  {
  }

  /** Three slices side by side. */
  lemma Slices<T>(a: seq<T>, i: nat, j: nat, k: nat)
    requires i <= j <= k <= |a|
    ensures a[i..k] == a[i..j] + a[j..k]
  {
  }

  lemma BottomSettled<T>(a: seq<T>, bottom: nat, middle: nat, top: nat)
    requires bottom <= middle && 2 * middle - bottom <= top <= |a|
    ensures var len := middle - bottom;
            Exchanged(Swapped(a, bottom, top - len, len), bottom, middle, top - len)
              == Exchanged(a, bottom, middle, top)
  {
    var len := middle - bottom;
    var b := Swapped(a, bottom, top - len, len);
    assert b[..bottom] == a[..bottom];
    assert b[bottom..middle] == a[top - len..top];
    assert b[middle..top - len] == a[middle..top - len];
    assert b[top - len..] == a[bottom..middle] + a[top..];
    hide Swapped;
    Slices(a, middle, top - len, top);
  }

  lemma TopSettled<T>(a: seq<T>, bottom: nat, middle: nat, top: nat)
    requires bottom <= middle <= top <= |a| && top - middle <= middle - bottom
    ensures var len := top - middle;
            Exchanged(Swapped(a, bottom, middle, len), bottom + len, middle, top) == Exchanged(a, bottom, middle, top)
  {
    var len := top - middle;
    var b := Swapped(a, bottom, middle, len);
    assert b[..bottom + len] == a[..bottom] + a[middle..top];
    assert b[bottom + len..middle] == a[bottom + len..middle];
    assert b[middle..top] == a[bottom..bottom + len];
    assert b[top..] == a[top..];
    hide Swapped;
    Slices(a, bottom, bottom + len, middle);
  }
}
