/** The scan and the parser together: what getopt reports over the tables that argp made, argp can route
    (deps/argp/src/argp-parse.c parser_parse_next and parser_parse_opt). */
module Dispatch {
  import opened Basics
  import opened CommandLine
  import Getopt
  import Tables = Argp
  import opened ArgpParser
  import opened Spelling

  /** A code as one of the tables or the scan itself gives it. */
  ghost predicate FromTables(letters: string, table: seq<Tables.LongOpt>, code: int) {
    || code in {IN_ORDER_ARG, '?' as int, ':' as int}
    || FromLetters(letters, code)
    || FromLongs(table, code)
  }

  ghost predicate FromLetters(letters: string, code: int) {
    exists i :: 0 <= i < |letters| && letters[i] as int == code && letters[i] != ':'
  }

  ghost predicate FromLongs(table: seq<Tables.LongOpt>, code: int) {
    exists k :: 0 <= k < |table| && table[k].val == code
  }

  /** Whatever a name is taken to mean, the table has an entry of that value. */
  ghost predicate Agrees(long: string -> LongMatch, table: seq<Tables.LongOpt>) {
    forall name :: long(name).Declared? ==> FromLongs(table, long(name).val)
  }

  ghost predicate AllFrom(letters: string, table: seq<Tables.LongOpt>, events: seq<Event>) {
    forall i :: 0 <= i < |events| ==> FromTables(letters, table, events[i].code)
  }

  lemma LetterFrom(sx: Syntax, table: seq<Tables.LongOpt>, c: char)
    requires LetterArity(sx, c).Some?
    ensures FromTables(sx.short, table, c as int)
  {
    var i := Index(sx.short, c);
    assert sx.short[i] == c;
  }

  lemma AllFromMore(letters: string, table: seq<Tables.LongOpt>, a: seq<Event>, b: seq<Event>)
    requires AllFrom(letters, table, a) && AllFrom(letters, table, b)
    ensures AllFrom(letters, table, a + b)
  {
  }

  lemma {:induction false} LettersFrom(sx: Syntax, cluster: string, next: Option<string>, table: seq<Tables.LongOpt>)
    requires cluster != ""
    ensures AllFrom(sx.short, table, Letters(sx, cluster, next).0)
    decreases |cluster|
  {
    hide FromTables, LetterArity;
    var c, rest := cluster[0], cluster[1..];
    Itself(sx.short, table);
    if LetterArity(sx, c).Some? { LetterFrom(sx, table, c); }
    if rest != "" {
      LettersFrom(sx, rest, next, table);
    }
  }

  lemma Itself(letters: string, table: seq<Tables.LongOpt>)
    ensures FromTables(letters, table, UNRECOGNISED) && FromTables(letters, table, ':' as int)
            && FromTables(letters, table, IN_ORDER_ARG)
  {
  }

  lemma ElementFrom(sx: Syntax, e: string, next: Option<string>, table: seq<Tables.LongOpt>)
    requires !IsNonOption(e) && (sx.long.Some? ==> Agrees(sx.long.value, table))
    ensures AllFrom(sx.short, table, Element(sx, e, next).0)
  {
    if IsLong(sx, e) {
      var body := e[2..];
      var name := body[..Index(body, '=')];
      if sx.long.value(name).Declared? { assert FromLongs(table, sx.long.value(name).val); }
    } else {
      LettersFrom(sx, e[1..], next, table);
    }
  }

  /** Every event of a reading comes from the tables. */
  lemma {:induction false} ReadFrom(o: Ordering, sx: Syntax, args: seq<string>, table: seq<Tables.LongOpt>)
    requires sx.long.Some? ==> Agrees(sx.long.value, table)
    ensures AllFrom(sx.short, table, Read(o, sx, args).events)
    decreases |args|
  {
    hide FromTables, Letters, Agrees, Element;
    if args != [] {
      if IsNonOption(args[0]) {
        Itself(sx.short, table);
        if o != RequireOrder { ReadFrom(o, sx, args[1..], table); }
      } else if args[0] != "--" {
        var r := Element(sx, args[0], Second(args));
        ElementFrom(sx, args[0], Second(args), table);
        ReadFrom(o, sx, args[if r.1 then 2 else 1..], table);
        AllFromMore(sx.short, table, r.0, Read(o, sx, args[if r.1 then 2 else 1..]).events);
      }
    }
  }

  // ----- what the parser makes of it

  /** What `parser_parse_opt` may be given. */
  ghost predicate Routable(code: int, groups: nat) {
    0 <= Tables.GroupKey(code) <= groups && (Tables.GroupKey(code) == 0 ==> 0 < code < 256)
  }

  lemma {:induction false} ShortChars(opts: seq<Tables.Opt>, n: nat)
    requires n <= |opts|
    ensures forall i :: 0 <= i < |Tables.ShortOf(opts, n)| ==> 0 < Tables.ShortOf(opts, n)[i] as int < 256
  {
    if n > 0 { ShortChars(opts, n - 1); }
  }

  lemma {:induction false} TextChars(list: seq<Tables.Argp>)
    ensures forall i :: 0 <= i < |Tables.ShortText(list)| ==> 0 < Tables.ShortText(list)[i] as int < 256
  {
    if list != [] {
      var n := |list| - 1;
      TextChars(list[..n]);
      ShortChars(Tables.Opts(list[n]), |Tables.Opts(list[n])|);
    }
  }

  /** Some parser is the first to declare the letter. */
  ghost predicate Declared(list: seq<Tables.Argp>, c: char) {
    c != ':' && exists g :: Tables.Declarer(list, c, g)
  }

  /** A letter of the string is declared by some parser, and by a first one. */
  lemma {:induction false} LetterDeclared(list: seq<Tables.Argp>, c: char)
    requires c in Tables.ShortText(list) && c != ':'
    ensures Declared(list, c)
  {
    if forall h :: 0 <= h < |list| ==> !Tables.Declares(list[h], c) {
      Tables.NotBefore(list, c);
      assert false;
    }
    var h :| 0 <= h < |list| && Tables.Declares(list[h], c);
    var g := 0;
    while !Tables.Declares(list[g], c)
      invariant g <= h && forall j :: 0 <= j < g ==> !Tables.Declares(list[j], c)
      decreases h - g
    {
      g := g + 1;
    }
    assert Tables.Declarer(list, c, g);
  }

  lemma {:induction false} LongGroups(table: seq<Tables.LongOpt>, opts: seq<Tables.Opt>, g: nat, n: nat, code: int)
    requires n <= |opts| && FromLongs(Tables.LongOf(table, opts, g, n), code)
    ensures FromLongs(table, code) || exists key :: code == Tables.Encode(key, g)
  {
    if n > 0 && !FromLongs(Tables.LongOf(table, opts, g, n - 1), code) {
      assert code == Tables.LongAt(opts, n - 1, g).val == Tables.Encode(Tables.KeyAt(opts, n - 1), g);
    } else if n > 0 {
      LongGroups(table, opts, g, n - 1, code);
    }
  }

  lemma GroupKept(key: int, g: nat)
    requires g + 1 <= 127
    ensures Tables.GroupKey(Tables.Encode(key, g)) == g + 1
  {
  }

  /** The value of a long option names one of the groups. */
  lemma {:induction false} LongRoutable(list: seq<Tables.Argp>, code: int)
    requires |list| <= 127 && FromLongs(Tables.LongTable(list), code)
    ensures 0 < Tables.GroupKey(code) <= |list|
  {
    hide Tables.Encode, Tables.GroupKey, Tables.LongOf;
    if list != [] {
      var n := |list| - 1;
      LongGroups(Tables.LongTable(list[..n]), Tables.Opts(list[n]), n, |Tables.Opts(list[n])|, code);
      if FromLongs(Tables.LongTable(list[..n]), code) {
        LongRoutable(list[..n], code);
      } else {
        var key :| code == Tables.Encode(key, n);
        GroupKept(key, n);
      }
    }
  }

  /** Every code that a scan over the tables of a parser of at most 127 groups reports can be routed; an
      option letter has a first declarer, and any other code is a long option's value or the scan's own. */
  lemma ScanRoutable(p: Parser, o: Ordering, long: string -> LongMatch, args: seq<string>, i: nat)
    requires p.Filled() && |p.list| <= 127 && p.prefix in {"", "-", "+"} && Agrees(long, p.Longs())
    requires i < |Read(o, Syntax(Getopt.OptionLetters(p.Text()), Some(long)), args).events|
    ensures var code := Read(o, Syntax(Getopt.OptionLetters(p.Text()), Some(long)), args).events[i].code;
            && Routable(code, p.egroup)
            && (|| code in {IN_ORDER_ARG, '?' as int, ':' as int}
                || FromLongs(p.Longs(), code)
                || (0 < code < 256 && Declared(p.list, code as char)))
  {
    hide Tables.ShortText, Tables.LongTable, Declared, Read;
    var letters := Getopt.OptionLetters(p.Text());
    ReadFrom(o, Syntax(letters, Some(long)), args, p.Longs());
    var code := Read(o, Syntax(letters, Some(long)), args).events[i].code;
    assert FromTables(letters, p.Longs(), code);
    if FromLongs(p.Longs(), code) {
      LongRoutable(p.list, code);
    } else if FromLetters(letters, code) {
      var k :| 0 <= k < |letters| && letters[k] as int == code && letters[k] != ':';
      assert letters[k] in Tables.ShortText(p.list);
      TextChars(p.list);
      LetterDeclared(p.list, letters[k]);
    }
  }

  // ----- the letters of the short option string

  /** What the entry of an option says of its argument. */
  function ArityOf(o: Tables.Opt): Arity {
    if o.arg && o.argOptional then OptionalArgument else if o.arg then RequiredArgument else NoArgument
  }

  lemma OneEntry(opts: seq<Tables.Opt>, i: nat)
    requires i < |opts| && Tables.HasShort(opts, i)
    ensures Tables.ShortOf(opts, i + 1) ==
              Tables.ShortOf(opts, i) + ([opts[i].key as char] + Marks(ArityOf(Tables.Real(opts, i))))
  {
    Behind(Tables.ShortOf(opts, i), [opts[i].key as char], Marks(ArityOf(Tables.Real(opts, i))));
  }

  lemma Behind<T>(a: seq<T>, b: seq<T>, c: seq<T>)
    ensures a + b + c == a + (b + c)
  {
  }

  lemma LastText(list: seq<Tables.Argp>)
    requires list != []
    ensures var last := |list| - 1;
            Tables.ShortText(list) ==
              Tables.ShortText(list[..last]) + Tables.ShortOf(Tables.Opts(list[last]), |Tables.Opts(list[last])|)
  {
  }

  /** The first `n` entries begin with what the first `i` add. */
  lemma {:induction false} ShortOfBegins(opts: seq<Tables.Opt>, i: nat, n: nat) returns (more: string)
    requires i <= n <= |opts|
    ensures Tables.ShortOf(opts, n) == Tables.ShortOf(opts, i) + more
    ensures more != "" ==> exists j :: i <= j < n && Tables.HasShort(opts, j) && opts[j].key as char == more[0]
    decreases n
  {
    if i == n {
      more := "";
    } else {
      more := ShortOfBegins(opts, i, n - 1);
      if Tables.HasShort(opts, n - 1) {
        OneEntry(opts, n - 1);
        var last := [opts[n - 1].key as char] + Marks(ArityOf(Tables.Real(opts, n - 1)));
        Behind(Tables.ShortOf(opts, i), more, last);
        more := more + last;
      }
    }
  }

  /** The first letter of the parsers from the `n`-th on is one that they declare. */
  lemma {:induction false} TextBegins(list: seq<Tables.Argp>, n: nat) returns (more: string)
    requires n <= |list|
    ensures Tables.ShortText(list) == Tables.ShortText(list[..n]) + more
    ensures more != "" ==> exists h :: n <= h < |list| && Tables.Declares(list[h], more[0])
    decreases |list|
  {
    hide Tables.Declares, Tables.ShortOf, Tables.ShortText;
    if n == |list| {
      assert list[..n] == list;
      more := "";
    } else {
      var last := |list| - 1;
      assert list[..last][..n] == list[..n];
      more := TextBegins(list[..last], n);
      LastText(list);
      var own := Tables.ShortOf(Tables.Opts(list[last]), |Tables.Opts(list[last])|);
      Behind(Tables.ShortText(list[..n]), more, own);
      if more == "" && own != "" {
        OwnBegins(list[last]);
      } else if more != "" {
        var h :| n <= h < last && Tables.Declares(list[..last][h], more[0]);
        assert Tables.Declares(list[h], more[0]);
      }
      more := more + own;
    }
  }

  lemma OwnBegins(a: Tables.Argp)
    requires Tables.ShortOf(Tables.Opts(a), |Tables.Opts(a)|) != ""
    ensures Tables.Declares(a, Tables.ShortOf(Tables.Opts(a), |Tables.Opts(a)|)[0])
  {
    var opts := Tables.Opts(a);
    var more := ShortOfBegins(opts, 0, |opts|);
    assert Tables.ShortOf(opts, |opts|) == more;
  }

  /** Entry `i` of parser `g` is the first that declares the letter. */
  ghost predicate FirstLettered(list: seq<Tables.Argp>, g: nat, i: nat, c: char) {
    && g < |list| && i < |Tables.Opts(list[g])| && Tables.DeclaresLetter(Tables.Opts(list[g]), i, c)
    && (forall j :: 0 <= j < i ==> !Tables.DeclaresLetter(Tables.Opts(list[g]), j, c))
    && (forall h, j :: 0 <= h < g && 0 <= j < |Tables.Opts(list[h])| ==>
          !Tables.DeclaresLetter(Tables.Opts(list[h]), j, c))
  }

  lemma FirstDeclarer(list: seq<Tables.Argp>, g: nat, i: nat, c: char)
    requires FirstLettered(list, g, i, c)
    ensures Tables.Declarer(list, c, g)
    ensures Tables.HasShort(Tables.Opts(list[g]), i) && Tables.Opts(list[g])[i].key as char == c
    ensures forall j :: 0 <= j < i && Tables.HasShort(Tables.Opts(list[g]), j) ==>
            Tables.Opts(list[g])[j].key as char != c
  {
    var opts := Tables.Opts(list[g]);
    Tables.LetterMeaning(opts, i, c);
    forall j | 0 <= j < i ensures !(Tables.HasShort(opts, j) && opts[j].key as char == c) {
      Tables.LetterMeaning(opts, j, c);
    }
    forall h | 0 <= h < g ensures !Tables.Declares(list[h], c) {
      forall j | 0 <= j < |Tables.Opts(list[h])| { Tables.LetterMeaning(Tables.Opts(list[h]), j, c); }
    }
  }

  /** The short option string around the place of a letter: the letter is not in front of it, its colons are
      behind it, and then comes a letter that some parser declares, or nothing. */
  lemma LetterPlace(list: seq<Tables.Argp>, g: nat, i: nat, r: nat, c: char) returns (front: string, tail: string)
    requires FirstLettered(list, g, i, c) && Tables.StandsFor(Tables.Opts(list[g]), i, r) && c != ':'
    ensures c !in front
    ensures Tables.ShortText(list) == front + [c] + (Marks(ArityOf(Tables.Opts(list[g])[r])) + tail)
    ensures tail != "" ==> exists h :: 0 <= h < |list| && Tables.Declares(list[h], tail[0])
  {
    hide Tables.ShortText, Tables.ShortOf, Tables.HasShort, Tables.Declares, Tables.Declarer;
    FirstDeclarer(list, g, i, c);
    var opts := Tables.Opts(list[g]);
    Tables.RealIs(opts, i, r);
    Tables.PartHolds(list, c, g);
    Tables.ShortOfHolds(opts, i, c);
    OneEntry(opts, i);
    var more := ShortOfBegins(opts, i + 1, |opts|);
    var rest := Tables.ShortParts(list, g);
    var other := TextBegins(list, g + 1);
    front := Tables.ShortText(list[..g]) + Tables.ShortOf(opts, i);
    tail := more + other;
    if more != "" {
      SomeLetter(list[g], i + 1, more[0]);
      assert tail[0] == more[0];
    } else if tail != "" {
      assert tail[0] == other[0];
    }
    Pieces(Tables.ShortText(list[..g]), Tables.ShortOf(opts, i), [c], Marks(ArityOf(opts[r])), more, other);
  }

  lemma SomeLetter(a: Tables.Argp, i: nat, c: char)
    requires var opts := Tables.Opts(a);
             exists j :: i <= j < |opts| && Tables.HasShort(opts, j) && opts[j].key as char == c
    ensures Tables.Declares(a, c)
  {
  }

  lemma Pieces<T>(a: seq<T>, b: seq<T>, c: seq<T>, d: seq<T>, e: seq<T>, f: seq<T>)
    ensures a + (b + (c + d) + e) + f == (a + b) + c + (d + (e + f))
  {
  }

  /** Getopt finds behind a letter what the entry that declares it first says of its argument, exactly unless
      an option `:` comes to stand behind it. A `;` it does not take for a letter. */
  lemma LetterTakes(list: seq<Tables.Argp>, long: Option<string -> LongMatch>, g: nat, i: nat, r: nat, c: char)
    returns (tail: string)
    requires FirstLettered(list, g, i, c) && Tables.StandsFor(Tables.Opts(list[g]), i, r) && c != ':'
    ensures var own := ArityOf(Tables.Opts(list[g])[r]);
            LetterArity(Syntax(Tables.ShortText(list), long), c) == Some(own) <==>
              c != ';' && (own == OptionalArgument || tail == "" || tail[0] != ':')
    ensures tail != "" ==> exists h :: 0 <= h < |list| && Tables.Declares(list[h], tail[0])
  {
    hide Tables.ShortText, Tables.Declares, Index;
    var front;
    front, tail := LetterPlace(list, g, i, r, c);
    var own := ArityOf(Tables.Opts(list[g])[r]);
    IndexBehind(front, c, Marks(own) + tail);
    MarksRead(front, c, own, tail);
  }

  lemma MarksRead(front: string, c: char, own: Arity, tail: string)
    ensures var s, i := front + [c] + (Marks(own) + tail), |front|;
            var read :=
              if i + 1 < |s| && s[i + 1] == ':' then
                if i + 2 < |s| && s[i + 2] == ':' then OptionalArgument else RequiredArgument
              else NoArgument;
            own == read <==> own == OptionalArgument || tail == "" || tail[0] != ':'
  {
  }

  /** The letter and the long name of one entry lead to the same parser and key. */
  lemma SameOwner(prefix: string, list: seq<Tables.Argp>, g: nat, i: nat, name: string, c: char, e: Tables.LongOpt,
                  target: Option<(nat, int)>)
    requires |prefix| <= 1 && c != ':' && (c in prefix ==> g == 0) && g + 1 <= 127
    requires Tables.Declarer(list, c, g) && Tables.DeclaresLetter(Tables.Opts(list[g]), i, c)
    requires Tables.FirstNamed(list, g, i, name)
    requires e in Tables.LongTable(list) && e.name == Some(name)
    ensures Tables.GroupKey(c as int) == 0 && Tables.GroupKey(e.val) > 0
    ensures Answers(prefix, list, c as int, target) <==> target == Some((g, c as int))
    ensures Answers(prefix, list, e.val, target) <==> target == Some((g, c as int))
  {
    hide Tables.LongTable, Tables.ShortText, Tables.IndexOf, Tables.GroupKey, Tables.UserKey, Tables.Owns;
    var r := Tables.SomeReal(Tables.Opts(list[g]), i);
    SmallKey(c);
    assert Tables.OwnKey(Tables.Opts(list[g]), i, r) == c as int;
    Tables.LongDispatch(list, g, i, r, name);
    Tables.ShortDispatch(prefix, list, c, g);
    var at := Tables.IndexOf(prefix + Tables.ShortText(list), c).value;
    if target.Some? && Tables.Owns(prefix, list, at, target.value.0) { OwnsOnce(prefix, list, at, g, target.value.0); }
  }

  lemma SmallKey(c: char)
    requires c as int < 256
    ensures Tables.GroupKey(c as int) == 0
  {
  }

  /** What stands in front of the letters asks getopt for the ordering that the flags of the parser ask for, and
      leaves it the letters, unless no flag is given and the first letter is taken for such a character. */
  lemma FlagsHeeded(p: Parser, inOrder: bool, noArgs: bool, posixlyCorrect: bool)
    requires p.Filled() && p.prefix == (if inOrder then "-" else if noArgs then "+" else "")
    ensures var letters := Tables.ShortText(p.list);
            var clear := inOrder || noArgs || letters == "" || letters[0] !in {'-', '+'};
            && (Getopt.OptionLetters(p.Text()) == letters <==> clear)
            && (clear ==> Getopt.OrderingOf(p.Text(), posixlyCorrect) ==
                            if inOrder then ReturnInOrder else if noArgs || posixlyCorrect then RequireOrder
                              else Permute)
  {
    hide Tables.ShortText;
    var letters := Tables.ShortText(p.list);
    LettersBehind(p.prefix, letters);
    assert p.Text() == p.prefix + letters;
    assert p.Text() != "" ==> p.Text()[0] == if p.prefix != "" then p.prefix[0] else letters[0];
  }

  function KindOf(h: Tables.HasArg): Arity {
    match h
    case NoArgument => NoArgument
    case RequiredArgument => RequiredArgument
    case OptionalArgument => OptionalArgument
  }

  /** So for an entry that declares its letter and its name first, getopt takes both to have the same kind of
      argument, where no parser declares `:` and the letters are told from what stands in front of them. */
  lemma SameArity(p: Parser, long: Option<string -> LongMatch>, g: nat, i: nat, name: string, c: char,
                  e: Tables.LongOpt)
    requires p.Filled() && FirstLettered(p.list, g, i, c) && Tables.FirstNamed(p.list, g, i, name)
    requires e in p.Longs() && e.name == Some(name) && c !in {':', ';'}
    requires forall h :: 0 <= h < |p.list| ==> !Tables.Declares(p.list[h], ':')
    requires Getopt.OptionLetters(p.Text()) == Tables.ShortText(p.list)
    ensures LetterArity(Syntax(Getopt.OptionLetters(p.Text()), long), c) == Some(KindOf(e.hasArg))
  {
    hide Tables.ShortText, Tables.LongTable, LetterArity, Tables.Declares, Getopt.OptionLetters, Tables.GroupKey,
      Tables.UserKey;
    var opts := Tables.Opts(p.list[g]);
    var r := Tables.SomeReal(opts, i);
    var tail := LetterTakes(p.list, long, g, i, r, c);
    var at :| 0 <= at < |p.Longs()| && p.Longs()[at] == e;
    LetterKey(opts, i, c);
    Tables.LongDispatch(p.list, g, i, r, name);
  }

  lemma LetterKey(opts: seq<Tables.Opt>, i: nat, c: char)
    requires Tables.DeclaresLetter(opts, i, c)
    ensures i < |opts| && opts[i].key == c as int && 32 <= opts[i].key < 127
  {
  }
}
