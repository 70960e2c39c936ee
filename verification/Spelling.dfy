/** Command lines as a user writes them, and what getopt has to report of them
    (deps/argp/src/getopt.c, comment at lines 327-381; getopt(3)). */
module Spelling {
  import opened Basics
  import opened CommandLine
  import Getopt

  // ----- what is declared

  /** An option letter. */
  datatype Decl = Decl(letter: char, arity: Arity)

  function Marks(arity: Arity): string {
    match arity
    case NoArgument => ""
    case RequiredArgument => ":"
    case OptionalArgument => "::"
  }

  /** The letters as the caller writes them down. */
  function Declared(ds: seq<Decl>): string {
    if ds == [] then "" else [ds[0].letter] + Marks(ds[0].arity) + Declared(ds[1..])
  }

  /** What a caller declares: whether a missing argument is told from an unknown option, the letters, and
      the long options if there are any. */
  datatype Options = Options(colon: bool, letters: seq<Decl>, long: Option<string -> LongMatch>)

  function SyntaxOf(t: Options): Syntax {
    Syntax((if t.colon then ":" else "") + Declared(t.letters), t.long)
  }

  ghost predicate Proper(ds: seq<Decl>) {
    && (forall i :: 0 <= i < |ds| ==> ds[i].letter != ':' && ds[i].letter != ';')
    && (forall i, j :: 0 <= i < j < |ds| ==> ds[i].letter != ds[j].letter)
  }

  ghost predicate Known(t: Options, c: char, arity: Arity) {
    Decl(c, arity) in t.letters
  }

  ghost predicate Unknown(t: Options, c: char) {
    forall d :: d in t.letters ==> d.letter != c
  }

  // ----- what is written

  /** The end of a cluster of option letters. */
  datatype End =
    | NoEnd                                  // nothing behind the flags
    | Attached(letter: char, value: string)  // `-cv`
    | Bare(letter: char)                     // `-c`
    | Next(letter: char, value: string)      // `-c v`

  datatype Item =
    | Plain(text: string)
    | LongWith(name: string, value: string)  // `--name=v`
    | LongNext(name: string, value: string)  // `--name v`
    | LongBare(name: string)                 // `--name`
    | Cluster(flags: string, end: End)

  /** The elements of argv that an item takes. */
  function Spelt(x: Item): seq<string> {
    match x
    case Plain(text) => [text]
    case LongWith(name, value) => ["--" + name + "=" + value]
    case LongNext(name, value) => ["--" + name, value]
    case LongBare(name) => ["--" + name]
    case Cluster(flags, end) => ["-" + flags + EndText(end)] + EndMore(end)
  }

  function EndText(end: End): string {
    match end
    case NoEnd => ""
    case Attached(c, value) => [c] + value
    case Bare(c) => [c]
    case Next(c, _) => [c]
  }

  function EndMore(end: End): seq<string> {
    if end.Next? then [end.value] else []
  }

  /** The line, and what follows a `--` if there is one. */
  function Line(xs: seq<Item>, rest: Option<seq<string>>): seq<string> {
    if xs == [] then (if rest.Some? then ["--"] + rest.value else [])
    else Spelt(xs[0]) + Line(xs[1..], rest)
  }

  /** The item is written as its options are declared. A required argument may be missing at the end of the line. */
  ghost predicate Fits(t: Options, x: Item, atEnd: bool) {
    match x
    case Plain(text) => text == "" || text == "-" || text[0] != '-'
    case LongWith(name, _) => t.long.Some? && '=' !in name
    case LongNext(name, _) =>
      && t.long.Some? && '=' !in name && name != ""
      && t.long.value(name).Declared? && t.long.value(name).arity == RequiredArgument
    case LongBare(name) =>
      && t.long.Some? && '=' !in name && name != ""
      && (t.long.value(name).Declared? && t.long.value(name).arity == RequiredArgument ==> atEnd)
    case Cluster(flags, end) =>
      && flags + EndText(end) != "" && (flags + EndText(end))[0] != '-'
      && (forall c :: c in flags ==> Known(t, c, NoArgument) || Unknown(t, c))
      && FitsEnd(t, end, atEnd)
  }

  ghost predicate FitsEnd(t: Options, end: End, atEnd: bool) {
    match end
    case NoEnd => true
    case Attached(c, value) => value != "" && (Known(t, c, RequiredArgument) || Known(t, c, OptionalArgument))
    case Bare(c) => Known(t, c, OptionalArgument) || (Known(t, c, RequiredArgument) && atEnd)
    case Next(c, _) => Known(t, c, RequiredArgument)
  }

  ghost predicate AllFit(t: Options, xs: seq<Item>, rest: Option<seq<string>>) {
    forall i :: 0 <= i < |xs| ==> Fits(t, xs[i], i == |xs| - 1 && rest == None)
  }

  // ----- what is meant

  /** The code for an argument that is missing. */
  function Missing(t: Options): Event {
    Event(if t.colon then ':' as int else '?' as int, None)
  }

  const WRONG: Event := Event('?' as int, None)

  ghost function FlagsMean(t: Options, flags: string): seq<Event> {
    if flags == "" then []
    else [if Unknown(t, flags[0]) then WRONG else Event(flags[0] as int, None)] + FlagsMean(t, flags[1..])
  }

  ghost function EndMeans(t: Options, end: End): seq<Event> {
    match end
    case NoEnd => []
    case Attached(c, value) => [Event(c as int, Some(value))]
    case Bare(c) => [if Known(t, c, OptionalArgument) then Event(c as int, None) else Missing(t)]
    case Next(c, value) => [Event(c as int, Some(value))]
  }

  /** What an option item reports. */
  ghost function Means(t: Options, x: Item): seq<Event>
    requires !x.Plain? && (!x.Cluster? ==> t.long.Some?)
  {
    match x
    case LongWith(name, value) =>
      var m := t.long.value(name);
      [if m.Declared? && m.arity != NoArgument then Event(m.val, Some(value)) else WRONG]
    case LongNext(name, value) =>
      var m := t.long.value(name);
      [if m.Declared? then Event(m.val, Some(value)) else WRONG]
    case LongBare(name) =>
      var m := t.long.value(name);
      [if m == Unmatched then WRONG else if m.arity == RequiredArgument then Missing(t) else Event(m.val, None)]
    case Cluster(flags, end) => FlagsMean(t, flags) + EndMeans(t, end)
  }

  /** What a line means: its options in order, the elements that they take, and what is left. Non-options are left,
      or reported as arguments of their own, or end the options. */
  ghost function LineMeans(o: Ordering, t: Options, xs: seq<Item>, rest: Option<seq<string>>): Reading
    requires AllFit(t, xs, rest)
  {
    if xs == [] then Reading([], if rest.Some? then ["--"] else [], if rest.Some? then rest.value else [])
    else if xs[0].Plain? then
      match o {
        case RequireOrder => Reading([], [], Line(xs, rest))
        case Permute =>
          var r := LineMeans(o, t, xs[1..], rest);
          r.(left := [xs[0].text] + r.left)
        case ReturnInOrder =>
          var r := LineMeans(o, t, xs[1..], rest);
          Reading([Event(1, Some(xs[0].text))] + r.events, [xs[0].text] + r.used, r.left)
      }
    else
      assert Fits(t, xs[0], |xs| == 1 && rest == None);
      var r := LineMeans(o, t, xs[1..], rest);
      Reading(Means(t, xs[0]) + r.events, Spelt(xs[0]) + r.used, r.left)
  }

  // ----- the letters

  lemma {:induction false} IndexBehind(front: string, c: char, back: string)
    requires c !in front
    ensures Index(front + [c] + back, c) == |front|
  {
    if front != "" {
      assert (front + [c] + back)[1..] == front[1..] + [c] + back;
      IndexBehind(front[1..], c, back);
    }
  }

  lemma NotIndexed(s: string, c: char)
    requires c !in s
    ensures Index(s, c) == |s|
  {
  }

  lemma {:induction false} OnlyLetters(ds: seq<Decl>, c: char)
    requires c != ':' && forall d :: d in ds ==> d.letter != c
    ensures c !in Declared(ds)
  {
    if ds != [] { OnlyLetters(ds[1..], c); }
  }

  lemma {:induction false} DeclaredParts(ds: seq<Decl>, k: nat)
    requires k < |ds|
    ensures Declared(ds) == Declared(ds[..k]) + [ds[k].letter] + Marks(ds[k].arity) + Declared(ds[k + 1..])
    decreases k
  {
    if k > 0 {
      DeclaredParts(ds[1..], k - 1);
      assert ds[..k][1..] == ds[1..][..k - 1] && ds[..k][0] == ds[0] && ds[1..][k - 1] == ds[k];
      assert ds[1..][k..] == ds[k + 1..];
    } else {
      assert ds[..0] == [];
    }
  }

  /** The letters mean what is declared, and nothing else is known. */
  lemma ArityDeclared(t: Options, c: char, arity: Arity)
    requires Proper(t.letters)
    ensures LetterArity(SyntaxOf(t), c) == Some(arity) <==> Known(t, c, arity)
    ensures LetterArity(SyntaxOf(t), c) == None <==> Unknown(t, c)
  {
    hide Index, Declared;
    if Unknown(t, c) {
      if c != ':' && c != ';' {
        OnlyLetters(t.letters, c);
        NotIndexed(SyntaxOf(t).short, c);
      }
    } else {
      var d :| d in t.letters && d.letter == c;
      var k :| 0 <= k < |t.letters| && t.letters[k] == d;
      KnownArity(t, k);
      assert Known(t, c, d.arity);
      forall a | Known(t, c, a) ensures a == d.arity {
        var j :| 0 <= j < |t.letters| && t.letters[j] == Decl(c, a);
      }
    }
  }

  /** The letters in front of letter `k`, among which it is not, and those behind it. */
  lemma Around(t: Options, k: nat) returns (front: string, tail: string)
    requires Proper(t.letters) && k < |t.letters|
    ensures SyntaxOf(t).short == front + [t.letters[k].letter] + (Marks(t.letters[k].arity) + tail)
    ensures t.letters[k].letter !in front && (tail != "" ==> tail[0] != ':')
  {
    var ds, c := t.letters, t.letters[k].letter;
    front, tail := (if t.colon then ":" else "") + Declared(ds[..k]), Declared(ds[k + 1..]);
    DeclaredParts(ds, k);
    assert forall d :: d in ds[..k] ==> d.letter != c;
    OnlyLetters(ds[..k], c);
    if ds[k + 1..] != [] { assert tail[0] == ds[k + 1].letter; }
    hide Declared, Marks;
    Regroup(if t.colon then ":" else "", Declared(ds[..k]), [c], Marks(ds[k].arity), tail);
  }

  lemma Regroup<T>(a: seq<T>, b: seq<T>, c: seq<T>, d: seq<T>, e: seq<T>)
    ensures a + (b + c + d + e) == a + b + c + (d + e)
  {
  }

  lemma KnownArity(t: Options, k: nat)
    requires Proper(t.letters) && k < |t.letters|
    ensures LetterArity(SyntaxOf(t), t.letters[k].letter) == Some(t.letters[k].arity)
  {
    hide Index, Declared, SyntaxOf;
    var front, tail := Around(t, k);
    var c, arity := t.letters[k].letter, t.letters[k].arity;
    IndexBehind(front, c, Marks(arity) + tail);
    ArityAt(front, c, arity, tail);
  }

  lemma ArityAt(front: string, c: char, arity: Arity, tail: string)
    requires tail != "" ==> tail[0] != ':'
    ensures var s, i := front + [c] + (Marks(arity) + tail), |front|;
            arity == if i + 1 < |s| && s[i + 1] == ':' then
                       if i + 2 < |s| && s[i + 2] == ':' then OptionalArgument else RequiredArgument
                     else NoArgument
  {
  }

  // ----- reading it

  /** A cluster, of which the flags `flags` and the end are still to come. */
  lemma {:induction false} ClusterRead(t: Options, flags: string, end: End, next: Option<string>)
    requires Proper(t.letters) && flags + EndText(end) != ""
    requires forall c :: c in flags ==> Known(t, c, NoArgument) || Unknown(t, c)
    requires FitsEnd(t, end, next == None) && (end.Next? ==> next == Some(end.value))
    ensures Letters(SyntaxOf(t), flags + EndText(end), next) == (FlagsMean(t, flags) + EndMeans(t, end), end.Next?)
    decreases |flags|
  {
    hide LetterArity, SyntaxOf, Known, Unknown;
    if flags == "" {
      EndRead(t, end, next);
      assert flags + EndText(end) == EndText(end) && FlagsMean(t, flags) + EndMeans(t, end) == EndMeans(t, end);
    } else {
      var c, more := flags[0], flags[1..] + EndText(end);
      assert (flags + EndText(end))[1..] == more;
      FlagArity(t, c);
      if more != "" {
        ClusterRead(t, flags[1..], end, next);
        assert FlagsMean(t, flags) + EndMeans(t, end)
               == [FlagsMean(t, flags)[0]] + (FlagsMean(t, flags[1..]) + EndMeans(t, end));
      } else {
        assert flags[1..] == "" && end == NoEnd && FlagsMean(t, "") == [];
        var event := if Unknown(t, c) then WRONG else Event(c as int, None);
        assert FlagsMean(t, flags) + EndMeans(t, end) == [event];
      }
    }
  }

  lemma FlagArity(t: Options, c: char)
    requires Proper(t.letters) && (Known(t, c, NoArgument) || Unknown(t, c))
    ensures LetterArity(SyntaxOf(t), c) == if Unknown(t, c) then None else Some(NoArgument)
  {
    ArityDeclared(t, c, NoArgument);
  }

  lemma EndRead(t: Options, end: End, next: Option<string>)
    requires Proper(t.letters) && end != NoEnd && FitsEnd(t, end, next == None)
    requires end.Next? ==> next == Some(end.value)
    ensures Letters(SyntaxOf(t), EndText(end), next) == (EndMeans(t, end), end.Next?)
  {
    hide LetterArity, Known;
    ArityDeclared(t, end.letter, OptionalArgument);
    ArityDeclared(t, end.letter, RequiredArgument);
    var e := EndText(end);
    assert e[0] == end.letter && (end.Attached? ==> e[1..] == end.value);
    assert MissingArgument(SyntaxOf(t)) == Missing(t).code by { ColonFirst(t); }
  }

  lemma ColonFirst(t: Options)
    requires Proper(t.letters)
    ensures MissingArgument(SyntaxOf(t)) == Missing(t).code
  {
    if t.letters != [] { assert Declared(t.letters)[0] == t.letters[0].letter; }
  }

  /** A long option element is split at its first `=`. */
  lemma LongRead(t: Options, name: string, value: Option<string>, next: Option<string>)
    requires Proper(t.letters) && t.long.Some? && '=' !in name
    ensures var e := "--" + name + (if value.Some? then "=" + value.value else "");
            var m := t.long.value(name);
            LongElement(SyntaxOf(t), e, next) ==
              if m == Unmatched then (WRONG, false)
              else if value.Some? then
                (if m.arity == NoArgument then WRONG else Event(m.val, value), false)
              else if m.arity == RequiredArgument then
                (if next.Some? then (Event(m.val, next), true) else (Missing(t), false))
              else (Event(m.val, None), false)
  {
    hide Index;
    ColonFirst(t);
    var e := "--" + name + (if value.Some? then "=" + value.value else "");
    if value.Some? {
      assert e[2..] == name + ['='] + value.value;
      IndexBehind(name, '=', value.value);
      assert e[2..][|name| + 1..] == value.value;
    } else {
      assert e[2..] == name;
      NotIndexed(name, '=');
    }
    assert e[2..][..|name|] == name;
  }

  /** An option item in front of whatever. */
  lemma ItemElement(t: Options, x: Item, behind: seq<string>)
    requires Proper(t.letters) && !x.Plain? && Fits(t, x, behind == [])
    ensures var args := Spelt(x) + behind;
            && !IsNonOption(args[0]) && args[0] != "--" && |Spelt(x)| == (if EndsNext(x) then 2 else 1)
            && Element(SyntaxOf(t), args[0], Second(args)) == (Means(t, x), EndsNext(x))
  {
    if x.Cluster? {
      ClusterElement(t, x.flags, x.end, behind);
    } else {
      LongItem(t, x, behind);
    }
  }

  lemma ClusterElement(t: Options, flags: string, end: End, behind: seq<string>)
    requires Proper(t.letters) && Fits(t, Cluster(flags, end), behind == [])
    ensures var x := Cluster(flags, end);
            var args := Spelt(x) + behind;
            && !IsNonOption(args[0]) && args[0] != "--" && |Spelt(x)| == (if EndsNext(x) then 2 else 1)
            && Element(SyntaxOf(t), args[0], Second(args)) == (Means(t, x), EndsNext(x))
  {
    hide SyntaxOf, Letters, FlagsMean, EndMeans, LongElement;
    var args := Spelt(Cluster(flags, end)) + behind;
    assert args[0][1..] == flags + EndText(end) && args[0][1] == (flags + EndText(end))[0];
    assert end.Next? ==> args[1] == end.value;
    ClusterFits(t, end, behind);
    ClusterRead(t, flags, end, Second(args));
  }

  lemma LongItem(t: Options, x: Item, behind: seq<string>)
    requires Proper(t.letters) && !x.Plain? && !x.Cluster? && Fits(t, x, behind == [])
    ensures var args := Spelt(x) + behind;
            && !IsNonOption(args[0]) && args[0] != "--" && |Spelt(x)| == (if EndsNext(x) then 2 else 1)
            && Element(SyntaxOf(t), args[0], Second(args)) == (Means(t, x), EndsNext(x))
  {
    hide Letters, LongElement, Declared;
    var args := Spelt(x) + behind;
    match x
    case LongWith(name, value) =>
      assert args[0] == "--" + name + ("=" + value);
      LongRead(t, name, Some(value), Second(args));
    case LongNext(name, value) =>
      assert args[0] == "--" + name + "" && args[1] == value;
      LongRead(t, name, None, Second(args));
    case LongBare(name) =>
      assert args[0] == "--" + name + "";
      assert behind == [] ==> Second(args) == None;
      LongRead(t, name, None, Second(args));
  }

  lemma ClusterFits(t: Options, end: End, behind: seq<string>)
    requires FitsEnd(t, end, behind == [])
    ensures FitsEnd(t, end, !end.Next? && behind == [])
    ensures forall atEnd :: end.Next? ==> FitsEnd(t, end, atEnd)
  {
  }

  /** Whether the item takes the element behind its own. */
  predicate EndsNext(x: Item) {
    x.LongNext? || (x.Cluster? && x.end.Next?)
  }

  lemma ItemRead(o: Ordering, t: Options, x: Item, behind: seq<string>)
    requires Proper(t.letters) && !x.Plain? && Fits(t, x, behind == [])
    ensures var r := Read(o, SyntaxOf(t), behind);
            Read(o, SyntaxOf(t), Spelt(x) + behind) == Reading(Means(t, x) + r.events, Spelt(x) + r.used, r.left)
  {
    hide Element, SyntaxOf, Means, Fits, Spelt;
    ItemElement(t, x, behind);
    var args, k := Spelt(x) + behind, |Spelt(x)|;
    assert args[k..] == behind && args[..k] == Spelt(x);
  }

  lemma NonOption(o: Ordering, t: Options, text: string, behind: seq<string>)
    requires text == "" || text == "-" || text[0] != '-'
    ensures var r, args := Read(o, SyntaxOf(t), behind), [text] + behind;
            Read(o, SyntaxOf(t), args) ==
              match o
              case Permute => r.(left := [text] + r.left)
              case RequireOrder => Reading([], [], args)
              case ReturnInOrder => Reading([Event(IN_ORDER_ARG, Some(text))] + r.events, [text] + r.used, r.left)
  {
    assert ([text] + behind)[1..] == behind;
  }

  /** Whatever is written as its options are declared is read as it is meant: clusters and long options, with and
      without arguments of every kind, among non-options in any ordering, and what follows a `--`. */
  lemma {:induction false} LineRead(o: Ordering, t: Options, xs: seq<Item>, rest: Option<seq<string>>)
    requires Proper(t.letters) && AllFit(t, xs, rest)
    ensures Read(o, SyntaxOf(t), Line(xs, rest)) == LineMeans(o, t, xs, rest)
    decreases |xs|
  {
    hide Fits, Means, SyntaxOf;
    if xs == [] {
      if rest.Some? {
        assert (["--"] + rest.value)[1..] == rest.value;
      }
    } else {
      var behind := Line(xs[1..], rest);
      assert Fits(t, xs[0], |xs| == 1 && rest == None);
      LineRead(o, t, xs[1..], rest);
      if xs[0].Plain? {
        PlainFits(t, xs[0], |xs| == 1 && rest == None);
        NonOption(o, t, xs[0].text, behind);
      } else {
        FitsHere(t, xs, rest);
        hide Read;
        ItemRead(o, t, xs[0], behind);
      }
    }
  }

  lemma PlainFits(t: Options, x: Item, atEnd: bool)
    requires x.Plain? && Fits(t, x, atEnd)
    ensures x.text == "" || x.text == "-" || x.text[0] != '-'
  {
  }

  lemma FitsHere(t: Options, xs: seq<Item>, rest: Option<seq<string>>)
    requires xs != [] && Fits(t, xs[0], |xs| == 1 && rest == None)
    ensures Fits(t, xs[0], Line(xs[1..], rest) == [])
  {
    if |xs| == 1 {
      assert xs[1..] == [];
    } else {
      assert Line(xs[1..], rest) == Spelt(xs[1]) + Line(xs[1..][1..], rest) && |Spelt(xs[1])| > 0;
    }
  }

  // ----- the option string

  /** The character in front of the letters is not taken for one of them, and a letter not for it, unless there is
      none and the first letter looks like one. */
  lemma LettersBehind(lead: string, letters: string)
    requires lead in {"", "-", "+"}
    ensures Getopt.OptionLetters(lead + letters) == letters <==>
              lead != "" || letters == "" || letters[0] !in {'-', '+'}
  {
    assert lead + letters != "" ==> (lead + letters)[0] == if lead != "" then lead[0] else letters[0];
    if lead != "" {
      assert (lead + letters)[1..] == letters;
    } else {
      assert lead + letters == letters;
    }
  }

  /** The ordering that the character in front asks for, or else the environment. */
  function OrderMeant(lead: string, posixlyCorrect: bool): Ordering {
    if lead == "-" then ReturnInOrder else if lead == "+" || posixlyCorrect then RequireOrder else Permute
  }

  /** So the whole scan of a line that is written as its options are declared reports what the line means. */
  lemma ScanMeans(lead: string, t: Options, posixlyCorrect: bool, xs: seq<Item>, rest: Option<seq<string>>)
    requires lead in {"", "-", "+"} && Proper(t.letters) && AllFit(t, xs, rest)
    requires lead != "" || SyntaxOf(t).short == "" || SyntaxOf(t).short[0] !in {'-', '+'}
    ensures var optstring := lead + SyntaxOf(t).short;
            Read(Getopt.OrderingOf(optstring, posixlyCorrect), Syntax(Getopt.OptionLetters(optstring), t.long),
                 Line(xs, rest)) == LineMeans(OrderMeant(lead, posixlyCorrect), t, xs, rest)
  {
    hide SyntaxOf, Read, LineMeans, Line, AllFit, Proper, Getopt.OptionLetters, Getopt.OrderingOf, OrderMeant;
    var letters := SyntaxOf(t).short;
    LettersBehind(lead, letters);
    OrderAsked(lead, letters, posixlyCorrect);
    LongKept(t);
    LineRead(OrderMeant(lead, posixlyCorrect), t, xs, rest);
  }

  lemma OrderAsked(lead: string, letters: string, posixlyCorrect: bool)
    requires lead in {"", "-", "+"} && (lead != "" || letters == "" || letters[0] !in {'-', '+'})
    ensures Getopt.OrderingOf(lead + letters, posixlyCorrect) == OrderMeant(lead, posixlyCorrect)
  {
    assert lead + letters != "" ==> (lead + letters)[0] == if lead != "" then lead[0] else letters[0];
  }

  lemma LongKept(t: Options)
    ensures SyntaxOf(t) == Syntax(SyntaxOf(t).short, t.long)
  {
  }
}
