/** Merging the options of a tree of parsers for one getopt scan, and routing what the scan finds
    back to its owner (deps/argp/src/argp-parse.c). */
module Argp {
  import opened Basics

  /** One entry of an option array; the array ends where the sequence does. */
  datatype Opt = Opt(name: Option<string>, key: int, arg: bool, alias: bool, doc: bool, argOptional: bool)

  datatype Argp = Argp(options: Option<seq<Opt>>, hasParser: bool, children: seq<Argp>)

  datatype HasArg = NoArgument | RequiredArgument | OptionalArgument

  datatype LongOpt = LongOpt(name: Option<string>, hasArg: HasArg, val: int)

  // ----- the parsers of a forest, parents first

  /** Only parsers with options or with code of their own become groups. */
  predicate IsGroup(a: Argp) {
    a.options.Some? || a.hasParser
  }

  function Opts(a: Argp): seq<Opt> {
    if a.options.Some? then a.options.value else []
  }

  function Own(a: Argp): seq<Argp> {
    if IsGroup(a) then [a] else []
  }

  function Flat(forest: seq<Argp>): seq<Argp>
    decreases forest
  {
    if forest == [] then [] else Own(forest[0]) + Flat(forest[0].children) + Flat(forest[1..])
  }

  function OptCount(forest: seq<Argp>): nat
    decreases forest
  {
    if forest == [] then 0 else |Opts(forest[0])| + OptCount(forest[0].children) + OptCount(forest[1..])
  }

  /** The child slots that `calc_sizes` counts. */
  function ChildCount(forest: seq<Argp>): nat
    decreases forest
  {
    if forest == [] then 0 else |forest[0].children| + ChildCount(forest[0].children) + ChildCount(forest[1..])
  }

  // ----- short options

  /** The last entry at or before `i` that is not an alias; the first entry stands in for itself. */
  function Real(opts: seq<Opt>, i: nat): Opt
    requires i < |opts|
  {
    if i == 0 || !opts[i].alias then opts[i] else Real(opts, i - 1)
  }

  predicate Live(opts: seq<Opt>, i: nat)
    requires i < |opts|
  {
    !Real(opts, i).doc
  }

  /** `__option_is_short`, in the C locale. */
  predicate IsShort(o: Opt) {
    !o.doc && 0 < o.key <= 255 && 32 <= o.key < 127
  }

  function Colons(own: Opt): string {
    if !own.arg then "" else if own.argOptional then "::" else ":"
  }

  predicate HasShort(opts: seq<Opt>, i: nat)
    requires i < |opts|
  {
    Live(opts, i) && IsShort(opts[i])
  }

  /** What the first `n` entries add to the short option string. */
  function ShortOf(opts: seq<Opt>, n: nat): (s: string)
    requires n <= |opts|
    ensures |s| <= 3 * n
  {
    if n == 0 then ""
    else if HasShort(opts, n - 1) then ShortOf(opts, n - 1) + [opts[n - 1].key as char] + Colons(Real(opts, n - 1))
    else ShortOf(opts, n - 1)
  }

  function ShortText(list: seq<Argp>): string {
    if list == [] then ""
    else
      var last := list[|list| - 1];
      ShortText(list[..|list| - 1]) + ShortOf(Opts(last), |Opts(last)|)
  }

  /** The short options of a parser. */
  ghost predicate Declares(a: Argp, c: char) {
    exists i :: 0 <= i < |Opts(a)| && HasShort(Opts(a), i) && Opts(a)[i].key as char == c
  }

  function Prefix(inOrder: bool, noArgs: bool): (p: string)
    ensures |p| <= 1
  {
    if inOrder then "-" else if noArgs then "+" else ""
  }

  // ----- long options

  const USER: nat := 0x100_0000

  /** A value as a 32-bit int. */
  function Wrap32(x: int): int {
    (x + 0x8000_0000) % 0x1_0000_0000 - 0x8000_0000
  }

  /** The value of a long option: the low 24 bits of its key, and the number of its group above them. */
  function Encode(key: int, group: nat): int {
    Wrap32(key % USER + (group + 1) * USER)
  }

  /** `opt >> USER_BITS`. */
  function GroupKey(opt: int): int {
    opt / USER
  }

  /** `(opt << GROUP_BITS) >> GROUP_BITS`. */
  function UserKey(opt: int): int {
    Wrap32(opt * 256) / 256
  }

  /** A long option can be sent back to its group, with its key, exactly when the key fits into 24 bits,
      its sign included, and the group is among the first 127. */
  lemma EncodingExact(key: int, group: nat)
    requires -0x8000_0000 <= key < 0x8000_0000
    ensures GroupKey(Encode(key, group)) == group + 1 && UserKey(Encode(key, group)) == key <==>
              -0x80_0000 <= key < 0x80_0000 && group + 1 <= 127
    ensures group + 1 <= 127 ==> Encode(key, group) >= USER
  {
  }

  function ArgOf(own: Opt): HasArg {
    if !own.arg then NoArgument else if own.argOptional then OptionalArgument else RequiredArgument
  }

  /** Entry `i` as a long option of group `g`. */
  function LongAt(opts: seq<Opt>, i: nat, g: nat): LongOpt
    requires i < |opts|
  {
    var own := Real(opts, i);
    LongOpt(opts[i].name, ArgOf(own), Encode(KeyAt(opts, i), g))
  }

  /** The key of entry `i`: an alias without one has that of the entry it stands for. */
  function KeyAt(opts: seq<Opt>, i: nat): int
    requires i < |opts|
  {
    if opts[i].key != 0 then opts[i].key else Real(opts, i).key
  }

  predicate HasLong(opts: seq<Opt>, i: nat)
    requires i < |opts|
  {
    Live(opts, i) && opts[i].name.Some?
  }

  predicate Listed(table: seq<LongOpt>, name: Option<string>) {
    exists k :: 0 <= k < |table| && table[k].name == name
  }

  /** The long options after the first `n` entries of group `g`: a name that is taken is not added again. */
  function LongOf(table: seq<LongOpt>, opts: seq<Opt>, g: nat, n: nat): (r: seq<LongOpt>)
    requires n <= |opts|
    ensures |table| <= |r| <= |table| + n && table == r[..|table|]
  {
    if n == 0 then table
    else
      var before := LongOf(table, opts, g, n - 1);
      if HasLong(opts, n - 1) && !Listed(before, opts[n - 1].name) then before + [LongAt(opts, n - 1, g)] else before
  }

  function LongTable(list: seq<Argp>): seq<LongOpt> {
    if list == [] then []
    else
      var n := |list| - 1;
      LongOf(LongTable(list[..n]), Opts(list[n]), n, |Opts(list[n])|)
  }

  // ----- where a short option goes

  /** `strchr`. */
  function IndexOf(s: string, c: char): (i: Option<nat>)
    ensures i == None <==> c !in s
    ensures i.Some? ==> i.value < |s| && s[i.value] == c && c !in s[..i.value]
  {
    if s == "" then None
    else if s[0] == c then Some(0)
    else
      match IndexOf(s[1..], c)
      case None => None
      case Some(i) =>
        assert s[..i + 1] == [s[0]] + s[1..][..i];
        Some(i + 1)
  }

  /** The end of the short options of each group, as the parser keeps it. */
  function ShortEnd(prefix: string, list: seq<Argp>, i: nat): nat
    requires i < |list|
  {
    |prefix| + |ShortText(list[..i + 1])|
  }

  /** `g` is the group whose part of the string holds position `at`: the first that ends behind it. */
  ghost predicate Owns(prefix: string, list: seq<Argp>, at: nat, g: nat) {
    g < |list| && at < ShortEnd(prefix, list, g) && (g > 0 ==> ShortEnd(prefix, list, g - 1) <= at)
  }

  /** The first parser that declares a short option. */
  ghost predicate Declarer(list: seq<Argp>, c: char, g: nat) {
    g < |list| && Declares(list[g], c) && forall h :: 0 <= h < g ==> !Declares(list[h], c)
  }

  lemma {:induction false} ShortOfHolds(opts: seq<Opt>, n: nat, c: char)
    requires n <= |opts| && c != ':'
    ensures c in ShortOf(opts, n) <==> exists i :: 0 <= i < n && HasShort(opts, i) && opts[i].key as char == c
  {
    if n > 0 {
      ShortOfHolds(opts, n - 1, c);
      assert c !in Colons(Real(opts, n - 1));
    }
  }

  /** Up to the part of group `g`, the string holds `c` only for a group before. */
  lemma {:induction false} NotBefore(list: seq<Argp>, c: char)
    requires c != ':' && forall h :: 0 <= h < |list| ==> !Declares(list[h], c)
    ensures c !in ShortText(list)
  {
    if list != [] {
      var n := |list| - 1;
      NotBefore(list[..n], c);
      ShortOfHolds(Opts(list[n]), |Opts(list[n])|, c);
      assert !Declares(list[n], c);
    }
  }

  lemma {:induction false} ShortTextGrows(list: seq<Argp>, n: nat)
    requires n <= |list|
    ensures |ShortText(list[..n])| <= |ShortText(list)|
            && ShortText(list)[..|ShortText(list[..n])|] == ShortText(list[..n])
    decreases |list|
  {
    if n == |list| {
      assert list[..n] == list;
    } else {
      var last := |list| - 1;
      ShortTextGrows(list[..last], n);
      assert list[..last][..n] == list[..n];
    }
  }

  /** The first `c` of a string lies in the part where there is one and before which there is none. */
  lemma FirstIn(front: string, part: string, tail: string, c: char)
    requires c !in front && c in part
    ensures var at := IndexOf(front + part + tail, c);
            at.Some? && |front| <= at.value < |front| + |part|
  {
    hide IndexOf;
    var s := front + part + tail;
    var i :| 0 <= i < |part| && part[i] == c;
    assert s[|front| + i] == c;
    var at := IndexOf(s, c).value;
    assert forall k :: 0 <= k < |front| ==> s[k] == front[k] != c;
    assert forall k :: 0 <= k < at ==> s[k] == s[..at][k] != c;
  }

  lemma ShortParts(list: seq<Argp>, g: nat) returns (tail: string)
    requires g < |list|
    ensures ShortText(list[..g + 1]) == ShortText(list[..g]) + ShortOf(Opts(list[g]), |Opts(list[g])|)
    ensures ShortText(list) == ShortText(list[..g + 1]) + tail
  {
    assert list[..g + 1][..g] == list[..g] && list[..g + 1][g] == list[g];
    ShortTextGrows(list, g + 1);
    tail := ShortText(list)[|ShortText(list[..g + 1])|..];
  }

  /** A short option is found in the part of the first parser that declares it, unless it is also
      the character in front of the string, which belongs to the first group. */
  lemma ShortDispatch(prefix: string, list: seq<Argp>, c: char, g: nat)
    requires |prefix| <= 1 && c != ':' && g < |list| && Declarer(list, c, g)
    ensures var at := IndexOf(prefix + ShortText(list), c);
            at.Some? && (Owns(prefix, list, at.value, g) <==> (c in prefix ==> g == 0))
  {
    hide IndexOf, ShortText, ShortOf, Declarer, Owns, ShortEnd;
    var text, before, part := ShortText(list), ShortText(list[..g]), ShortOf(Opts(list[g]), |Opts(list[g])|);
    var tail := ShortParts(list, g);
    PartHolds(list, c, g);
    OwnsPart(prefix, list, g);
    FirstOf(prefix, before, part, tail, c);
  }

  lemma FirstOf(prefix: string, before: string, part: string, tail: string, c: char)
    requires |prefix| <= 1 && c !in before && c in part
    ensures var at := IndexOf(prefix + (before + part + tail), c);
            && at.Some?
            && if c in prefix then at.value == 0 && |prefix| == 1
               else |prefix| + |before| <= at.value < |prefix| + |before| + |part|
  {
    hide IndexOf;
    Joined(prefix, before, part, tail);
    if c in prefix {
      FirstIn("", prefix, before + part + tail, c);
    } else {
      FirstIn(prefix + before, part, tail, c);
    }
  }

  lemma Joined(prefix: string, before: string, part: string, tail: string)
    ensures prefix + (before + part + tail) == prefix + before + part + tail == "" + prefix + (before + part + tail)
  {
  }

  lemma OwnsPart(prefix: string, list: seq<Argp>, g: nat)
    requires g < |list|
    ensures forall at: nat :: Owns(prefix, list, at, g) <==>
              && at < |prefix| + |ShortText(list[..g])| + |ShortOf(Opts(list[g]), |Opts(list[g])|)|
              && (g > 0 ==> |prefix| + |ShortText(list[..g])| <= at)
  {
    hide ShortText, ShortOf;
    var tail := ShortParts(list, g);
    if g > 0 { assert ShortEnd(prefix, list, g - 1) == |prefix| + |ShortText(list[..g])|; }
  }

  lemma PartHolds(list: seq<Argp>, c: char, g: nat)
    requires c != ':' && g < |list| && Declarer(list, c, g)
    ensures c !in ShortText(list[..g]) && c in ShortOf(Opts(list[g]), |Opts(list[g])|)
  {
    ShortOfHolds(Opts(list[g]), |Opts(list[g])|, c);
    NotBefore(list[..g], c);
  }

  // ----- where a long option goes

  /** One of the first `n` entries declares the long name. */
  ghost predicate Named(opts: seq<Opt>, n: nat, name: Option<string>)
    requires n <= |opts|
  {
    exists i :: 0 <= i < n && HasLong(opts, i) && opts[i].name == name
  }

  ghost predicate DistinctNames(table: seq<LongOpt>) {
    forall j, k :: 0 <= j < k < |table| ==> table[j].name != table[k].name
  }

  lemma {:induction false} LongOfHolds(table: seq<LongOpt>, opts: seq<Opt>, g: nat, n: nat, name: Option<string>)
    requires n <= |opts|
    ensures Listed(LongOf(table, opts, g, n), name) <==> Listed(table, name) || Named(opts, n, name)
    ensures DistinctNames(table) ==> DistinctNames(LongOf(table, opts, g, n))
  {
    if n > 0 {
      LongOfHolds(table, opts, g, n - 1, name);
      var before, after := LongOf(table, opts, g, n - 1), LongOf(table, opts, g, n);
      assert Named(opts, n, name) <==> Named(opts, n - 1, name) || (HasLong(opts, n - 1) && opts[n - 1].name == name);
      if after != before {
        assert after[|before|].name == opts[n - 1].name;
        assert forall k :: 0 <= k < |before| ==> after[k] == before[k];
      }
    }
  }

  /** The first of a parser's entries with a new name goes into the table. */
  lemma {:induction false} FirstGoesIn(table: seq<LongOpt>, opts: seq<Opt>, g: nat, i: nat, n: nat)
    requires i < n <= |opts| && HasLong(opts, i) && !Listed(table, opts[i].name) && !Named(opts, i, opts[i].name)
    ensures LongAt(opts, i, g) in LongOf(table, opts, g, n)
    decreases n
  {
    if i < n - 1 {
      FirstGoesIn(table, opts, g, i, n - 1);
    } else {
      LongOfHolds(table, opts, g, i, opts[i].name);
      var before := LongOf(table, opts, g, i);
      assert (before + [LongAt(opts, i, g)])[|before|] == LongAt(opts, i, g);
    }
  }

  lemma {:induction false} TableNames(list: seq<Argp>, name: Option<string>)
    ensures Listed(LongTable(list), name) <==>
            exists h :: 0 <= h < |list| && Named(Opts(list[h]), |Opts(list[h])|, name)
    ensures DistinctNames(LongTable(list))
  {
    if list != [] {
      var n := |list| - 1;
      TableNames(list[..n], name);
      LongOfHolds(LongTable(list[..n]), Opts(list[n]), n, |Opts(list[n])|, name);
    }
  }

  lemma TableKeeps(list: seq<Argp>, e: LongOpt)
    requires list != [] && e in LongTable(list[..|list| - 1])
    ensures e in LongTable(list)
  {
    hide LongOf, LongTable;
    var n := |list| - 1;
    var before := LongTable(list[..n]);
    assert list[..n + 1] == list;
    TableNext(list, n);
    var k :| 0 <= k < |before| && before[k] == e;
    assert LongTable(list)[..|before|][k] == e;
  }

  lemma {:induction false} TableGrows(list: seq<Argp>, n: nat, e: LongOpt)
    requires n <= |list| && e in LongTable(list[..n])
    ensures e in LongTable(list)
    decreases |list|
  {
    hide LongTable;
    if n == |list| {
      assert list[..n] == list;
    } else {
      var last := |list| - 1;
      assert list[..last][..n] == list[..n];
      TableGrows(list[..last], n, e);
      TableKeeps(list, e);
    }
  }

  /** The first entry that declares a name is in the table, and is alone there under that name. */
  lemma FirstEntry(list: seq<Argp>, g: nat, i: nat)
    requires g < |list| && i < |Opts(list[g])| && HasLong(Opts(list[g]), i)
    requires var name := Opts(list[g])[i].name;
             !Named(Opts(list[g]), i, name) && forall h :: 0 <= h < g ==> !Named(Opts(list[h]), |Opts(list[h])|, name)
    ensures exists k :: 0 <= k < |LongTable(list)| && LongTable(list)[k].name == Opts(list[g])[i].name
    ensures forall k :: 0 <= k < |LongTable(list)| && LongTable(list)[k].name == Opts(list[g])[i].name ==>
              LongTable(list)[k] == LongAt(Opts(list[g]), i, g)
  {
    hide LongTable, LongOf, Encode, KeyAt;
    var opts, name := Opts(list[g]), Opts(list[g])[i].name;
    TableNames(list[..g], name);
    FirstGoesIn(LongTable(list[..g]), opts, g, i, |opts|);
    TableNext(list, g);
    TableGrows(list, g + 1, LongAt(opts, i, g));
    TableNames(list, name);
  }

  // ----- in terms of the entries alone

  /** Entry `r` says what entry `i` is: the last one up to it that is no alias. The first stands for itself. */
  ghost predicate StandsFor(opts: seq<Opt>, i: nat, r: nat) {
    r <= i < |opts| && (r == 0 || !opts[r].alias) && forall k :: r < k <= i ==> opts[k].alias
  }

  /** The key under which entry `i` is known, entry `r` saying what it is. */
  function OwnKey(opts: seq<Opt>, i: nat, r: nat): int
    requires i < |opts| && r < |opts|
  {
    if opts[i].key == 0 then opts[r].key else opts[i].key
  }

  lemma {:induction false} RealIs(opts: seq<Opt>, i: nat, r: nat)
    requires StandsFor(opts, i, r)
    ensures Real(opts, i) == opts[r]
    decreases i
  {
    if r < i { RealIs(opts, i - 1, r); }
  }

  lemma {:induction false} SomeReal(opts: seq<Opt>, i: nat) returns (r: nat)
    requires i < |opts|
    ensures StandsFor(opts, i, r)
    decreases i
  {
    if i == 0 || !opts[i].alias {
      r := i;
    } else {
      r := SomeReal(opts, i - 1);
    }
  }

  /** Entry `i` is an option of that long name. */
  ghost predicate DeclaresName(opts: seq<Opt>, i: nat, name: string) {
    exists r: nat :: StandsFor(opts, i, r) && !opts[r].doc && opts[i].name == Some(name)
  }

  /** Entry `i` is an option of that letter, a printable character. */
  ghost predicate DeclaresLetter(opts: seq<Opt>, i: nat, c: char) {
    exists r: nat ::
      StandsFor(opts, i, r) && !opts[r].doc && !opts[i].doc && opts[i].key == c as int && ' ' <= c <= '~'
  }

  lemma NameMeaning(opts: seq<Opt>, i: nat, name: string)
    requires i < |opts|
    ensures DeclaresName(opts, i, name) <==> HasLong(opts, i) && opts[i].name == Some(name)
  {
    var r := SomeReal(opts, i);
    RealIs(opts, i, r);
    forall q: nat | StandsFor(opts, i, q) ensures opts[q] == opts[r] { RealIs(opts, i, q); }
  }

  lemma LetterMeaning(opts: seq<Opt>, i: nat, c: char)
    requires i < |opts|
    ensures DeclaresLetter(opts, i, c) <==> HasShort(opts, i) && opts[i].key as char == c
  {
    var r := SomeReal(opts, i);
    RealIs(opts, i, r);
    forall q: nat | StandsFor(opts, i, q) ensures opts[q] == opts[r] { RealIs(opts, i, q); }
  }

  /** No entry before entry `i` of parser `g` declares the name. */
  ghost predicate FirstNamed(list: seq<Argp>, g: nat, i: nat, name: string) {
    && g < |list| && i < |Opts(list[g])| && DeclaresName(Opts(list[g]), i, name)
    && (forall j :: 0 <= j < i ==> !DeclaresName(Opts(list[g]), j, name))
    && (forall h, j :: 0 <= h < g && 0 <= j < |Opts(list[h])| ==> !DeclaresName(Opts(list[h]), j, name))
  }

  lemma NotNamed(opts: seq<Opt>, n: nat, name: string)
    requires n <= |opts| && forall j :: 0 <= j < n ==> !DeclaresName(opts, j, name)
    ensures !Named(opts, n, Some(name))
  {
    forall j: nat | j < n ensures !(HasLong(opts, j) && opts[j].name == Some(name)) { NameMeaning(opts, j, name); }
  }

  /** A long name leads to the entry that declares it first, parents before children and in the order of
      each array, and to no other. The argument is that of the entry it stands for. From the value the scan's
      caller gets the group and the key back, the entry's own or else that of the entry it stands for, exactly
      when the group is among the first 127 and the key fits into 24 bits. */
  lemma LongDispatch(list: seq<Argp>, g: nat, i: nat, r: nat, name: string)
    requires FirstNamed(list, g, i, name) && StandsFor(Opts(list[g]), i, r)
    requires -0x8000_0000 <= OwnKey(Opts(list[g]), i, r) < 0x8000_0000
    ensures Listed(LongTable(list), Some(name))
    ensures forall e :: e in LongTable(list) && e.name == Some(name) ==>
              var opts := Opts(list[g]);
              && (e.hasArg == RequiredArgument <==> opts[r].arg && !opts[r].argOptional)
              && (e.hasArg == OptionalArgument <==> opts[r].arg && opts[r].argOptional)
              && (GroupKey(e.val) == g + 1 && UserKey(e.val) == OwnKey(opts, i, r) <==>
                  -0x80_0000 <= OwnKey(opts, i, r) < 0x80_0000 && g + 1 <= 127)
  {
    hide LongTable, Encode, GroupKey, UserKey, Named, Real;
    var opts := Opts(list[g]);
    NameMeaning(opts, i, name);
    NotNamed(opts, i, name);
    forall h | 0 <= h < g ensures !Named(Opts(list[h]), |Opts(list[h])|, Some(name)) {
      NotNamed(Opts(list[h]), |Opts(list[h])|, name);
    }
    FirstEntry(list, g, i);
    RealIs(opts, i, r);
    EncodingExact(OwnKey(opts, i, r), g);
  }

  lemma TableNext(list: seq<Argp>, g: nat)
    requires g < |list|
    ensures LongTable(list[..g + 1]) == LongOf(LongTable(list[..g]), Opts(list[g]), g, |Opts(list[g])|)
  {
    assert list[..g + 1][..g] == list[..g] && list[..g + 1][g] == list[g];
  }

  // ----- the room that the measuring pass reserves

  lemma ForestNext(forest: seq<Argp>, i: nat)
    requires i < |forest|
    ensures OptCount(forest[i..]) == OptCount([forest[i]]) + OptCount(forest[i + 1..])
    ensures ShortNeed(forest[i..]) == ShortNeed([forest[i]]) + ShortNeed(forest[i + 1..])
    ensures ChildCount(forest[i..]) == ChildCount([forest[i]]) + ChildCount(forest[i + 1..])
    ensures Flat(forest[i..]) == Flat([forest[i]]) + Flat(forest[i + 1..])
  {
    assert forest[i..][1..] == forest[i + 1..] && [forest[i]][1..] == [];
  }

  lemma OneTree(a: Argp)
    ensures OptCount([a]) == |Opts(a)| + OptCount(a.children) && Flat([a]) == Own(a) + Flat(a.children)
    ensures ChildCount([a]) == |a.children| + ChildCount(a.children)
    ensures ShortNeed([a]) == |ShortOf(Opts(a), |Opts(a)|)| + ShortNeed(a.children)
  {
    assert [a][1..] == [];
  }

  /** The bytes that the short options of a forest take. */
  function ShortNeed(forest: seq<Argp>): nat
    decreases forest
  {
    if forest == [] then 0
    else |ShortOf(Opts(forest[0]), |Opts(forest[0])|)| + ShortNeed(forest[0].children) + ShortNeed(forest[1..])
  }

  lemma {:induction false} NeedAtMost(forest: seq<Argp>)
    ensures ShortNeed(forest) <= 3 * OptCount(forest)
    decreases forest
  {
    if forest != [] {
      NeedAtMost(forest[0].children);
      NeedAtMost(forest[1..]);
    }
  }

  /** `SLEN`: the bytes reserved for the short option string. */
  function ShortRoom(noArgs: bool, forest: seq<Argp>): nat {
    (if noArgs then 0 else 1) + 3 * OptCount(forest) + 1
  }

  /** The bytes that the conversion writes there, the NUL included. */
  function ShortUse(inOrder: bool, noArgs: bool, forest: seq<Argp>): nat {
    |Prefix(inOrder, noArgs)| + ShortNeed(forest) + 1
  }

  /** The reserved bytes are enough for every tree exactly when the ARGP_NO_ARGS flag is not given:
      with the flag a byte is written in front of the options and none is reserved for it. */
  lemma ShortRoomExact(inOrder: bool, noArgs: bool)
    ensures (forall forest :: ShortUse(inOrder, noArgs, forest) <= ShortRoom(noArgs, forest)) <==> !noArgs
  {
    if noArgs {
      assert ShortUse(inOrder, noArgs, []) == 2 && ShortRoom(noArgs, []) == 1;
    } else {
      forall forest ensures ShortUse(inOrder, noArgs, forest) <= ShortRoom(noArgs, forest) {
        NeedAtMost(forest);
      }
    }
  }

  // ----- groups, their parents and the slots for their children's inputs

  datatype Link = Link(parent: Option<nat>, parentIndex: nat, childInputs: Option<nat>)

  /** The slots that the conversion hands out: one for each child of a group. */
  function InputCount(forest: seq<Argp>): nat
    decreases forest
  {
    if forest == [] then 0
    else OwnSlots(forest[0]) + InputCount(forest[0].children) + InputCount(forest[1..])
  }

  /** The links of the groups of a forest of siblings that starts at child `index` of `parent`, at group `at`
      and at slot `inputs`. */
  function Links(forest: seq<Argp>, parent: Option<nat>, index: nat, at: nat, inputs: nat): (r: seq<Link>)
    ensures |r| == |Flat(forest)|
    decreases forest
  {
    if forest == [] then []
    else
      var a := forest[0];
      OwnLink(a, parent, index, inputs)
      + Links(a.children, ParentFor(a, at), 0, at + |Own(a)|, inputs + OwnSlots(a))
      + Links(forest[1..], parent, index + 1, at + |Own(a)| + |Flat(a.children)|,
              inputs + OwnSlots(a) + InputCount(a.children))
  }

  function OwnLink(a: Argp, parent: Option<nat>, index: nat, inputs: nat): (r: seq<Link>)
    ensures |r| == |Own(a)|
  {
    if IsGroup(a) then [Link(parent, index, if a.children == [] then None else Some(inputs))] else []
  }

  function OwnSlots(a: Argp): nat {
    if IsGroup(a) then |a.children| else 0
  }

  /** A parser that is no group leaves its children without a parent. */
  function ParentFor(a: Argp, at: nat): Option<nat> {
    if IsGroup(a) then Some(at) else None
  }

  /** Group `k` of the forest gets its input from the slot that its parent keeps for it. */
  ghost predicate LinkSound(forest: seq<Argp>, parent: Option<nat>, index: nat, at: nat, inputs: nat, k: nat)
    requires k < |Flat(forest)|
  {
    var links, list := Links(forest, parent, index, at, inputs), Flat(forest);
    match links[k].parent
    case None => true
    case Some(p) =>
      var i := links[k].parentIndex;
      if p < at then parent == Some(p) && index <= i < index + |forest| && forest[i - index] == list[k]
      else
        && p < at + k && i < |list[p - at].children| && list[p - at].children[i] == list[k]
        && links[p - at].childInputs.Some?
  }

  /** Group `k` has slots of its own, between those of the groups before and behind it. */
  ghost predicate SlotsApart(forest: seq<Argp>, parent: Option<nat>, index: nat, at: nat, inputs: nat, k: nat)
    requires k < |Flat(forest)|
  {
    var links, list := Links(forest, parent, index, at, inputs), Flat(forest);
    match links[k].childInputs
    case None => list[k].children == []
    case Some(from) =>
      && inputs <= from && from + |list[k].children| <= inputs + InputCount(forest)
      && forall m :: k < m < |list| && links[m].childInputs.Some? ==>
         from + |list[k].children| <= links[m].childInputs.value
  }

  lemma FlatParts(forest: seq<Argp>)
    requires forest != []
    ensures Flat(forest) == Own(forest[0]) + Flat(forest[0].children) + Flat(forest[1..])
  {
  }

  lemma LinkParts(forest: seq<Argp>, parent: Option<nat>, index: nat, at: nat, inputs: nat)
    requires forest != []
    ensures var a := forest[0];
            Links(forest, parent, index, at, inputs) ==
              OwnLink(a, parent, index, inputs)
              + Links(a.children, ParentFor(a, at), 0, at + |Own(a)|, inputs + OwnSlots(a))
              + Links(forest[1..], parent, index + 1, at + |Own(a)| + |Flat(a.children)|,
                      inputs + OwnSlots(a) + InputCount(a.children))
  {
    hide Flat, OwnLink, ParentFor, OwnSlots, InputCount, Own;
  }

  /** The `k`-th group of a forest is its first parser, or below it, or in the rest. */
  lemma Within(forest: seq<Argp>, parent: Option<nat>, index: nat, at: nat, inputs: nat, k: nat)
    requires forest != [] && k < |Flat(forest)|
    ensures var a := forest[0];
            var own, below := |Own(a)|, |Flat(a.children)|;
            var e := (Links(forest, parent, index, at, inputs)[k], Flat(forest)[k]);
            && (k < own ==> e == (OwnLink(a, parent, index, inputs)[k], a))
            && (own <= k < own + below ==>
                  e == (Links(a.children, ParentFor(a, at), 0, at + own, inputs + OwnSlots(a))[k - own],
                        Flat(a.children)[k - own]))
            && (own + below <= k ==>
                  && k - own - below < |Flat(forest[1..])|
                  && e == (Links(forest[1..], parent, index + 1, at + own + below,
                                 inputs + OwnSlots(a) + InputCount(a.children))[k - own - below],
                           Flat(forest[1..])[k - own - below]))
  {
    hide Flat, Links, ParentFor, OwnSlots, InputCount;
    FlatParts(forest);
    LinkParts(forest, parent, index, at, inputs);
  }

  lemma {:induction false} InputsLinked(forest: seq<Argp>, parent: Option<nat>, index: nat, at: nat, inputs: nat,
                                        k: nat)
    requires k < |Flat(forest)| && (parent.Some? ==> parent.value < at)
    ensures LinkSound(forest, parent, index, at, inputs, k)
    decreases forest
  {
    hide Flat, Links, InputCount, OwnSlots;
    if forest == [] {
      NoGroups();
      assert false;
    }
    Within(forest, parent, index, at, inputs, k);
    var a, rest := forest[0], forest[1..];
    var own, below := |Own(a)|, |Flat(a.children)|;
    if k >= own + below {
      InputsLinked(rest, parent, index + 1, at + own + below, inputs + OwnSlots(a) + InputCount(a.children),
                   k - own - below);
    } else if k >= own {
      InputsLinked(a.children, ParentFor(a, at), 0, at + own, inputs + OwnSlots(a), k - own);
    }
    var link := Links(forest, parent, index, at, inputs)[k];
    if link.parent.Some? && at <= link.parent.value < at + k {
      Within(forest, parent, index, at, inputs, link.parent.value - at);
    }
  }

  /** The parsers of a forest, those without a group included. */
  function AllIn(forest: seq<Argp>): seq<Argp>
    decreases forest
  {
    if forest == [] then [] else [forest[0]] + AllIn(forest[0].children) + AllIn(forest[1..])
  }

  /** The groups are the parsers with options or code of their own. */
  lemma {:induction false} GroupsAre(forest: seq<Argp>, a: Argp)
    ensures a in Flat(forest) <==> a in AllIn(forest) && (a.options.Some? || a.hasParser)
    decreases forest
  {
    if forest != [] {
      FlatParts(forest);
      GroupsAre(forest[0].children, a);
      GroupsAre(forest[1..], a);
    }
  }

  /** Group `k` is that of child `i` of group `p`, and linked to it. */
  ghost predicate ChildAt(list: seq<Argp>, links: seq<Link>, at: nat, p: nat, i: nat, k: nat) {
    && |list| == |links| && p < |list| && i < |list[p].children|
    && p < k < |list| && list[k] == list[p].children[i] && links[k].parent == Some(at + p) && links[k].parentIndex == i
  }

  /** Every sibling with a group is linked to the parent they share, if that has one. */
  lemma {:induction false} SiblingLinked(forest: seq<Argp>, parent: Option<nat>, index: nat, at: nat, inputs: nat,
                                         i: nat)
    returns (k: nat)
    requires i < |forest| && IsGroup(forest[i])
    ensures k < |Flat(forest)| && Flat(forest)[k] == forest[i]
    ensures var link := Links(forest, parent, index, at, inputs)[k];
            link.parent == parent && link.parentIndex == index + i
    decreases forest
  {
    hide Flat, Links, InputCount, OwnSlots, ParentFor;
    var a, own, below := forest[0], |Own(forest[0])|, |Flat(forest[0].children)|;
    FlatParts(forest);
    if i == 0 {
      k := 0;
      Within(forest, parent, index, at, inputs, 0);
    } else {
      k := SiblingLinked(forest[1..], parent, index + 1, at + own + below,
                         inputs + OwnSlots(a) + InputCount(a.children), i - 1);
      k := own + below + k;
      Within(forest, parent, index, at, inputs, k);
    }
  }

  /** And so every child with a group, of a group, is linked to it at its index. */
  lemma {:induction false} ChildrenLinked(forest: seq<Argp>, parent: Option<nat>, index: nat, at: nat, inputs: nat,
                                          p: nat, i: nat) returns (k: nat)
    requires p < |Flat(forest)| && i < |Flat(forest)[p].children| && IsGroup(Flat(forest)[p].children[i])
    ensures ChildAt(Flat(forest), Links(forest, parent, index, at, inputs), at, p, i, k)
    decreases forest
  {
    hide Flat, Links, InputCount, OwnSlots;
    if forest == [] {
      NoGroups();
      assert false;
    }
    var a := forest[0];
    var own, below := |Own(a)|, |Flat(a.children)|;
    FlatParts(forest);
    Within(forest, parent, index, at, inputs, p);
    if p < own {
      k := SiblingLinked(a.children, ParentFor(a, at), 0, at + own, inputs + OwnSlots(a), i);
      k := own + k;
    } else if p < own + below {
      k := ChildrenLinked(a.children, ParentFor(a, at), 0, at + own, inputs + OwnSlots(a), p - own, i);
      k := own + k;
    } else {
      k := ChildrenLinked(forest[1..], parent, index + 1, at + own + below,
                          inputs + OwnSlots(a) + InputCount(a.children), p - own - below, i);
      k := own + below + k;
    }
    Within(forest, parent, index, at, inputs, k);
  }

  lemma NoGroups()
    ensures Flat([]) == []
  {
  }

  /** The slots of group `k` start where this says, and are as many as its children. */
  lemma {:induction false} InputsApart(forest: seq<Argp>, parent: Option<nat>, index: nat, at: nat, inputs: nat, k: nat)
    requires k < |Flat(forest)|
    ensures SlotsApart(forest, parent, index, at, inputs, k)
    decreases forest
  {
    hide Flat, Links;
    if forest == [] {
      NoGroups();
      assert false;
    }
    var a, rest := forest[0], forest[1..];
    var own, below, parent', at', inputs' :=
      |Own(a)|, |Flat(a.children)|, ParentFor(a, at), at + |Own(a)|, inputs + OwnSlots(a);
    var index'', at'', inputs'' := index + 1, at' + below, inputs' + InputCount(a.children);
    Within(forest, parent, index, at, inputs, k);
    if k >= own + below {
      InputsApart(rest, parent, index'', at'', inputs'', k - own - below);
    } else if k >= own {
      InputsApart(a.children, parent', 0, at', inputs', k - own);
    }
    var links := Links(forest, parent, index, at, inputs);
    forall m: nat | k < m < |links| && links[k].childInputs.Some? && links[m].childInputs.Some?
      ensures links[k].childInputs.value + |Flat(forest)[k].children| <= links[m].childInputs.value
    {
      Within(forest, parent, index, at, inputs, m);
      if m >= own + below {
        InputsApart(rest, parent, index'', at'', inputs'', m - own - below);
      } else if m >= own {
        InputsApart(a.children, parent', 0, at', inputs', m - own);
      }
    }
  }

  lemma {:induction false} InputsFit(forest: seq<Argp>)
    ensures InputCount(forest) <= ChildCount(forest)
    decreases forest
  {
    if forest != [] {
      InputsFit(forest[0].children);
      InputsFit(forest[1..]);
    }
  }
}
