/** The parser tables of deps/argp/src/argp-parse.c, filled in place: one measuring pass over the tree, one
    allocation, one pass that converts the options, and the routing of what the scan returns. */
module ArgpParser {
  import opened Basics
  import opened Argp

  datatype Group = Group(argp: Argp, shortEnd: nat, link: Link)

  class Sizes {
    var shortLen: nat
    var longLen: nat
    var numGroups: nat
    var numChildInputs: nat

    constructor (noArgs: bool)
      ensures shortLen == (if noArgs then 0 else 1) && longLen == 0 && numGroups == 0 && numChildInputs == 0
    {
      shortLen := if noArgs then 0 else 1;
      longLen, numGroups, numChildInputs := 0, 0, 0;
    }

    /** `calc_sizes`. */
    method Add(a: Argp)
      modifies this
      ensures shortLen == old(shortLen) + 3 * OptCount([a]) && longLen == old(longLen) + OptCount([a])
      ensures numGroups == old(numGroups) + |Flat([a])| && numChildInputs == old(numChildInputs) + ChildCount([a])
      decreases a
    {
      hide OptCount, ChildCount, Flat;
      OneTree(a);
      if IsGroup(a) {
        numGroups := numGroups + 1;
        if a.options.Some? {
          var numOpts := 0;
          while numOpts < |a.options.value|
            invariant numOpts <= |a.options.value|
          {
            numOpts := numOpts + 1;
          }
          shortLen := shortLen + numOpts * 3;
          longLen := longLen + numOpts;
        }
      }
      assert a.children[0..] == a.children;
      for i := 0 to |a.children|
        invariant shortLen + 3 * OptCount(a.children[i..]) == old(shortLen) + 3 * OptCount([a])
        invariant longLen + OptCount(a.children[i..]) == old(longLen) + OptCount([a])
        invariant numGroups + |Flat(a.children[i..])| == old(numGroups) + |Flat([a])|
        invariant numChildInputs + ChildCount(a.children[i..]) + |a.children| - i
                  == old(numChildInputs) + ChildCount([a])
      {
        ForestNext(a.children, i);
        Add(a.children[i]);
        numChildInputs := numChildInputs + 1;
      }
      NoForest();
      assert a.children[|a.children|..] == [];
    }
  }

  function Forest(root: Option<Argp>): seq<Argp> {
    if root.Some? then [root.value] else []
  }

  lemma NoForest()
    ensures OptCount([]) == 0 && ChildCount([]) == 0 && ShortNeed([]) == 0 && Flat([]) == [] && InputCount([]) == 0
  {
  }

  /** Where the first `n` of the siblings end, so do the links of the rest begin. */
  lemma LinksNext(forest: seq<Argp>, i: nat, parent: Option<nat>, at: nat, inputs: nat)
    requires i < |forest|
    ensures InputCount(forest[i..]) == InputCount([forest[i]]) + InputCount(forest[i + 1..])
    ensures Links(forest[i..], parent, i, at, inputs) ==
              Links([forest[i]], parent, i, at, inputs)
              + Links(forest[i + 1..], parent, i + 1, at + |Flat([forest[i]])|, inputs + InputCount([forest[i]]))
  {
    hide OwnLink, OwnSlots, ParentFor, Own;
    assert forest[i..][1..] == forest[i + 1..] && [forest[i]][1..] == [];
  }

  lemma LinksOfTree(a: Argp, parent: Option<nat>, index: nat, at: nat, inputs: nat)
    ensures InputCount([a]) == OwnSlots(a) + InputCount(a.children)
    ensures Links([a], parent, index, at, inputs) ==
              OwnLink(a, parent, index, inputs)
                + Links(a.children, ParentFor(a, at), 0, at + |Own(a)|, inputs + OwnSlots(a))
  {
    assert [a][1..] == [];
  }

  class Parser {
    const shortOpts: array<char>
    const longOpts: array<LongOpt>
    const groups: array<Group>
    const inputSlots: nat
    ghost const prefix: string

    var shortEnd: nat
    var longEnd: nat
    var egroup: nat
    var childInputsEnd: nat

    // The groups so far and their links.
    ghost var list: seq<Argp>
    ghost var links: seq<Link>

    ghost function Text(): (s: string)
      requires shortEnd <= shortOpts.Length
      reads this`shortEnd, shortOpts
      ensures |s| == shortEnd
    {
      shortOpts[..shortEnd]
    }

    ghost function Longs(): seq<LongOpt>
      requires longEnd <= longOpts.Length
      reads this`longEnd, longOpts
    {
      longOpts[..longEnd]
    }

    /** Both tables end with their terminators, inside their arrays. */
    ghost predicate Ended()
      reads this`shortEnd, this`longEnd, shortOpts, longOpts
    {
      && shortEnd < shortOpts.Length && shortOpts[shortEnd] == '\0'
      && longEnd < longOpts.Length && longOpts[longEnd].name == None
      && forall k :: 0 <= k < longEnd ==> longOpts[k].name.Some?
    }

    ghost predicate GroupsFilled()
      requires |list| == |links| == egroup <= groups.Length
      reads this`list, this`links, this`egroup, groups
    {
      forall i :: 0 <= i < egroup ==> groups[i] == Group(list[i], ShortEnd(prefix, list, i), links[i])
    }

    ghost predicate Filled()
      reads this, shortOpts, longOpts, groups
    {
      && |prefix| <= 1 && '\0' !in prefix && Ended() && |list| == |links| == egroup <= groups.Length && GroupsFilled()
      && Text() == prefix + ShortText(list) && Longs() == LongTable(list) && childInputsEnd <= inputSlots
    }

    /** The room that a forest may still need. */
    ghost predicate Room(forest: seq<Argp>)
      reads this
    {
      && shortEnd + ShortNeed(forest) < shortOpts.Length && longEnd + OptCount(forest) < longOpts.Length
      && egroup + |Flat(forest)| <= groups.Length && childInputsEnd + InputCount(forest) <= inputSlots
    }

    /** `find_long_option`. */
    method FindLong(name: string) returns (i: int)
      requires Ended()
      ensures -1 <= i < longEnd
      ensures if i < 0 then !Listed(Longs(), Some(name))
              else longOpts[i].name == Some(name) && !Listed(Longs()[..i], Some(name))
    {
      var l := 0;
      while longOpts[l].name != None
        invariant l <= longEnd && forall k :: 0 <= k < l ==> longOpts[k].name != Some(name)
        decreases longEnd - l
      {
        if longOpts[l].name == Some(name) { return l; }
        l := l + 1;
      }
      return -1;
    }

    method PutShort(c: char)
      requires shortEnd + 1 < shortOpts.Length
      modifies this`shortEnd, shortOpts
      ensures shortEnd == old(shortEnd) + 1 && Text() == old(Text()) + [c] && shortOpts[shortEnd] == '\0'
    {
      shortOpts[shortEnd] := c;
      shortEnd := shortEnd + 1;
      shortOpts[shortEnd] := '\0';
    }

    method PutLong(e: LongOpt)
      requires Ended() && longEnd + 1 < longOpts.Length && e.name.Some?
      modifies this`longEnd, longOpts
      ensures Ended() && longEnd == old(longEnd) + 1 && Longs() == old(Longs()) + [e]
    {
      longOpts[longEnd] := e;
      longEnd := longEnd + 1;
      longOpts[longEnd] := longOpts[longEnd].(name := None);
    }

    /** A short option and what it says about its argument. */
    method AddShort(key: int, own: Opt)
      requires Ended() && shortEnd + 1 + |Colons(own)| < shortOpts.Length && 0 < key <= 255
      modifies this`shortEnd, shortOpts
      ensures Ended() && shortEnd == old(shortEnd) + 1 + |Colons(own)|
      ensures Text() == old(Text()) + [key as char] + Colons(own)
    {
      PutShort(key as char);
      if own.arg {
        PutShort(':');
        if own.argOptional { PutShort(':'); }
      }
    }

    /** A long option, unless its name is taken. */
    method AddLong(e: LongOpt)
      requires Ended() && longEnd + 1 < longOpts.Length && e.name.Some?
      modifies this`longEnd, longOpts
      ensures Ended() && longEnd <= old(longEnd) + 1
      ensures Longs() == if Listed(old(Longs()), e.name) then old(Longs()) else old(Longs()) + [e]
    {
      var found := FindLong(e.name.value);
      if found < 0 { PutLong(e); }
    }

    /** Entry `i`, whose non-alias is `own`. */
    method AddOption(opts: seq<Opt>, ghost i: nat, opt: Opt, own: Opt)
      requires i < |opts| && opt == opts[i] && own == Real(opts, i)
      requires Ended() && longEnd + 1 < longOpts.Length
      requires HasShort(opts, i) ==> shortEnd + 1 + |Colons(own)| < shortOpts.Length
      modifies this`shortEnd, this`longEnd, shortOpts, longOpts
      ensures Ended() && longEnd <= old(longEnd) + 1 && shortEnd < shortOpts.Length
      ensures Text() == if HasShort(opts, i) then old(Text()) + [opt.key as char] + Colons(own) else old(Text())
      ensures Longs() == if HasLong(opts, i) && !Listed(old(Longs()), opt.name)
                         then old(Longs()) + [LongAt(opts, i, egroup)] else old(Longs())
    {
      hide Listed, Colons, Encode, Real;
      if !own.doc {
        if IsShort(opt) { AddShort(opt.key, own); }
        if opt.name.Some? {
          AddLong(LongOpt(opt.name, ArgOf(own), Encode(if opt.key != 0 then opt.key else own.key, egroup)));
        }
      }
    }

    /** The loop of `convert_options` over the entries of one parser, for the next group. */
    method AddOptions(opts: seq<Opt>)
      requires Ended() && shortEnd + |ShortOf(opts, |opts|)| < shortOpts.Length && longEnd + |opts| < longOpts.Length
      modifies this`shortEnd, this`longEnd, shortOpts, longOpts
      ensures Ended() && shortEnd == old(shortEnd) + |ShortOf(opts, |opts|)| && longEnd <= old(longEnd) + |opts|
      ensures Text() == old(Text()) + ShortOf(opts, |opts|) && Longs() == LongOf(old(Longs()), opts, egroup, |opts|)
    {
      hide Listed, ShortOf, LongOf, Colons, Ended, HasShort, HasLong, LongAt, Text, Longs;
      OptionsStart(opts, Longs(), egroup);
      if |opts| == 0 { return; }
      var own := opts[0];
      for i := 0 to |opts|
        invariant own == Real(opts, if i == 0 then 0 else i - 1)
        invariant Ended() && shortEnd < shortOpts.Length && longEnd <= old(longEnd) + i
        invariant Text() == old(Text()) + ShortOf(opts, i) && Longs() == LongOf(old(Longs()), opts, egroup, i)
      {
        OptionsNext(opts, i, old(Longs()), egroup);
        ShortOfGrows(opts, i + 1, |opts|);
        if !opts[i].alias { own := opts[i]; }
        AddOption(opts, i, opts[i], own);
      }
    }

    /** The group of a parser: its options, its place, and a slot for the input of each child. */
    method AddGroup(a: Argp, parent: Option<nat>, parentIndex: nat)
      requires Filled() && IsGroup(a) && egroup < groups.Length && childInputsEnd + |a.children| <= inputSlots
      requires shortEnd + |ShortOf(Opts(a), |Opts(a)|)| < shortOpts.Length && longEnd + |Opts(a)| < longOpts.Length
      modifies this, shortOpts, longOpts, groups
      ensures Filled() && list == old(list) + [a]
              && links == old(links) + OwnLink(a, parent, parentIndex, old(childInputsEnd))
      ensures childInputsEnd == old(childInputsEnd) + |a.children|
      ensures shortEnd == old(shortEnd) + |ShortOf(Opts(a), |Opts(a)|)| && longEnd <= old(longEnd) + |Opts(a)|
    {
      hide Ended, ShortText, LongTable, ShortOf, LongOf;
      ghost var list', links' := list + [a], links + OwnLink(a, parent, parentIndex, childInputsEnd);
      TextNext(list, a);
      ShortEndsKept(prefix, list, a);
      if a.options.Some? { AddOptions(a.options.value); } else { OptionsStart([], Longs(), egroup); }
      var inputs := None;
      if a.children != [] { inputs := Some(childInputsEnd); }
      groups[egroup] := Group(a, shortEnd, Link(parent, parentIndex, inputs));
      childInputsEnd := childInputsEnd + |a.children|;
      egroup := egroup + 1;
      list, links := list', links';
      assert Text() == prefix + ShortText(list);
    }

    /** `convert_options`. */
    method ConvertOptions(a: Argp, parent: Option<nat>, parentIndex: nat)
      requires Filled() && Room([a])
      modifies this, shortOpts, longOpts, groups
      ensures Filled() && list == old(list) + Flat([a])
      ensures links == old(links) + Links([a], parent, parentIndex, old(egroup), old(childInputsEnd))
      ensures childInputsEnd == old(childInputsEnd) + InputCount([a])
      ensures shortEnd == old(shortEnd) + ShortNeed([a]) && longEnd <= old(longEnd) + OptCount([a])
      decreases a, 1
    {
      hide Ended, GroupsFilled, ShortText, LongTable, Flat, OptCount, ShortNeed, InputCount, Links, OwnLink;
      OneTree(a);
      LinksOfTree(a, parent, parentIndex, egroup, childInputsEnd);
      var own := ParentFor(a, egroup);
      if IsGroup(a) { AddGroup(a, parent, parentIndex); }
      ConvertChildren(a, own);
    }

    /** Its loop over the children. */
    method ConvertChildren(a: Argp, own: Option<nat>)
      requires Filled() && Room(a.children)
      modifies this, shortOpts, longOpts, groups
      ensures Filled() && list == old(list) + Flat(a.children)
      ensures links == old(links) + Links(a.children, own, 0, old(egroup), old(childInputsEnd))
      ensures childInputsEnd == old(childInputsEnd) + InputCount(a.children)
      ensures shortEnd == old(shortEnd) + ShortNeed(a.children) && longEnd <= old(longEnd) + OptCount(a.children)
      decreases a, 0
    {
      hide Ended, GroupsFilled, ShortText, LongTable, Flat, OptCount, ShortNeed, InputCount, Links;
      ghost var goalList, goalLinks :=
        list + Flat(a.children), links + Links(a.children, own, 0, egroup, childInputsEnd);
      assert a.children[0..] == a.children;
      for i := 0 to |a.children|
        invariant Filled() && list + Flat(a.children[i..]) == goalList
        invariant links + Links(a.children[i..], own, i, egroup, childInputsEnd) == goalLinks
        invariant childInputsEnd + InputCount(a.children[i..]) == old(childInputsEnd) + InputCount(a.children)
        invariant shortEnd + ShortNeed(a.children[i..]) == old(shortEnd) + ShortNeed(a.children)
        invariant longEnd + OptCount(a.children[i..]) <= old(longEnd) + OptCount(a.children)
      {
        ForestNext(a.children, i);
        LinksNext(a.children, i, own, egroup, childInputsEnd);
        ConvertOptions(a.children[i], own, i);
      }
      NoForest();
      NoLinks(own, |a.children|, egroup, childInputsEnd);
      assert a.children[|a.children|..] == [];
    }

    /** `parser_init` up to the first call of a parser: the tables have the sizes measured, and the
        conversion stays inside them if the short option string does. */
    constructor (root: Option<Argp>, inOrder: bool, noArgs: bool)
      requires ShortUse(inOrder, noArgs, Forest(root)) <= ShortRoom(noArgs, Forest(root))
      ensures Filled() && prefix == (if inOrder then "-" else if noArgs then "+" else "")
      ensures list == Flat(Forest(root))
      ensures links == Links(Forest(root), None, 0, 0, 0) && childInputsEnd == InputCount(Forest(root))
      ensures shortOpts.Length == (if noArgs then 0 else 1) + 3 * OptCount(Forest(root)) + 1
              && shortEnd + 1 == ShortUse(inOrder, noArgs, Forest(root))
      ensures longOpts.Length == OptCount(Forest(root)) + 1 && groups.Length == |list| + 1
      ensures inputSlots == ChildCount(Forest(root))
      ensures fresh(shortOpts) && fresh(longOpts) && fresh(groups)
    {
      hide OptCount, ChildCount, ShortNeed, Flat, InputCount, Links, Ended, GroupsFilled;
      NoForest();
      var szs := new Sizes(noArgs);
      if root.Some? { szs.Add(root.value); }
      groups := new Group[szs.numGroups + 1];
      longOpts := new LongOpt[szs.longLen + 1];
      shortOpts := new char[szs.shortLen + 1];
      inputSlots := szs.numChildInputs;
      prefix := Prefix(inOrder, noArgs);
      shortEnd, longEnd, egroup, childInputsEnd := 0, 0, 0, 0;
      list, links := [], [];
      new;
      Start(inOrder, noArgs);
      InputsFit(Forest(root));
      if root.Some? { ConvertOptions(root.value, None, 0); }
    }

    /** `strchr` in the short option string. */
    method FindShort(c: char) returns (at: Option<nat>)
      requires Filled() && c != '\0'
      ensures at == IndexOf(prefix + ShortText(list), c)
    {
      hide ShortText, LongTable, IndexOf;
      NoNul(list);
      var i := 0;
      while shortOpts[i] != c && shortOpts[i] != '\0'
        invariant i <= shortEnd && c !in Text()[..i]
        decreases shortEnd - i
      {
        assert Text()[..i + 1] == Text()[..i] + [shortOpts[i]];
        i := i + 1;
      }
      assert i < shortEnd ==> Text()[i] == shortOpts[i];
      FirstAt(Text(), c, i);
      at := if shortOpts[i] == c then Some(i) else None;
    }

    /** `parser_parse_opt`: the group that is given an option, and the key it is given. The scan returns a
        character of the short option string, or the value of a long option of one of the groups. */
    method ParseOpt(opt: int) returns (target: Option<(nat, int)>)
      requires Filled() && 0 <= GroupKey(opt) <= egroup && (GroupKey(opt) == 0 ==> 0 < opt < 256)
      ensures GroupKey(opt) > 0 ==> target == Some((GroupKey(opt) - 1, UserKey(opt)))
      ensures GroupKey(opt) == 0 && opt as char != ':' ==>
                forall g: nat :: Declarer(list, opt as char, g) ==>
                  (target == Some((g, opt)) <==> (opt as char in prefix ==> g == 0))
      ensures GroupKey(opt) == 0 && opt as char != ':' && opt as char !in prefix ==>
                (forall g :: 0 <= g < |list| ==> !Declares(list[g], opt as char)) ==>
                  target == None
      ensures GroupKey(opt) == 0 && opt as char in prefix ==> target == if egroup == 0 then None else Some((0, opt))
      ensures Answers(prefix, list, opt, target)
    {
      hide ShortText, LongTable, IndexOf, Declares, UserKey, ShortEnd;
      var groupKey := GroupKey(opt);
      target := None;
      if groupKey == 0 {
        var at := FindShort(opt as char);
        if opt as char in prefix { LeadingFirst(prefix, list, opt as char); }
        if opt as char != ':' && forall g :: 0 <= g < |list| ==> !Declares(list[g], opt as char) {
          NotBefore(list, opt as char);
        }
        if at.Some? {
          var g := 0;
          while g < egroup && groups[g].shortEnd <= at.value
            invariant g <= egroup && (g > 0 ==> ShortEnd(prefix, list, g - 1) <= at.value)
            invariant opt as char in prefix ==> g == 0
          {
            g := g + 1;
          }
          if g < egroup { target := Some((g, opt)); }
          OwnsMeans(prefix, list, at.value, g);
        }
        assert target.Some? ==> at.Some? && Owns(prefix, list, at.value, target.value.0) && target.value.1 == opt;
        if list != [] { LastEnd(prefix, list); }
        forall h: nat | opt as char != ':' && Declarer(list, opt as char, h)
          ensures target == Some((h, opt)) <==> (opt as char in prefix ==> h == 0)
        {
          ShortDispatch(prefix, list, opt as char, h);
          if target.Some? && Owns(prefix, list, at.value, h) { OwnsOnce(prefix, list, at.value, target.value.0, h); }
        }
      } else {
        target := Some((groupKey - 1, UserKey(opt)));
      }
    }

    /** The start of `parser_convert`. */
    method Start(inOrder: bool, noArgs: bool)
      requires shortEnd == longEnd == egroup == childInputsEnd == 0 && list == [] && links == []
      requires prefix == Prefix(inOrder, noArgs) && |prefix| < shortOpts.Length && 0 < longOpts.Length
      modifies this`shortEnd, shortOpts, longOpts
      ensures Filled() && shortEnd == |prefix|
    {
      if inOrder {
        PutShort('-');
      } else if noArgs {
        PutShort('+');
      }
      shortOpts[shortEnd] := '\0';
      longOpts[longEnd] := longOpts[longEnd].(name := None);
    }
  }

  /** What `parser_parse_opt` makes of an option: the owner of its place in the short option string, or the
      group and key in its value. */
  ghost predicate Answers(prefix: string, list: seq<Argp>, opt: int, target: Option<(nat, int)>)
    requires 0 <= GroupKey(opt) && (GroupKey(opt) == 0 ==> 0 < opt < 256)
  {
    if GroupKey(opt) > 0 then target == Some((GroupKey(opt) - 1, UserKey(opt)))
    else
      var at := IndexOf(prefix + ShortText(list), opt as char);
      match target
      case None => at.Some? ==> forall g: nat :: !Owns(prefix, list, at.value, g)
      case Some(t) => at.Some? && Owns(prefix, list, at.value, t.0) && t.1 == opt
  }

  /** The leading character is found in front of everything, in the part of the first group. */
  lemma LeadingFirst(prefix: string, list: seq<Argp>, c: char)
    requires |prefix| <= 1 && c in prefix
    ensures IndexOf(prefix + ShortText(list), c) == Some(0)
    ensures list != [] ==> 0 < ShortEnd(prefix, list, 0)
  {
    hide IndexOf, ShortText;
    FirstIn("", prefix, ShortText(list), c);
    assert "" + prefix + ShortText(list) == prefix + ShortText(list);
  }

  lemma {:induction false} NoNulIn(opts: seq<Opt>, n: nat)
    requires n <= |opts|
    ensures '\0' !in ShortOf(opts, n)
  {
    if n > 0 { NoNulIn(opts, n - 1); }
  }

  lemma {:induction false} NoNul(list: seq<Argp>)
    ensures '\0' !in ShortText(list)
  {
    if list != [] {
      var n := |list| - 1;
      NoNul(list[..n]);
      NoNulIn(Opts(list[n]), |Opts(list[n])|);
    }
  }

  lemma FirstAt(s: string, c: char, i: nat)
    requires i <= |s| && c !in s[..i]
    ensures i == |s| ==> IndexOf(s, c) == None
    ensures i < |s| && s[i] == c ==> IndexOf(s, c) == Some(i)
  {
    hide IndexOf;
    assert s[..|s|] == s;
    if i < |s| && s[i] == c {
      var at := IndexOf(s, c).value;
      assert forall k :: 0 <= k < i ==> s[k] == s[..i][k] != c;
      assert forall k :: 0 <= k < at ==> s[k] == s[..at][k] != c;
    }
  }

  lemma OwnsMeans(prefix: string, list: seq<Argp>, at: nat, g: nat)
    ensures Owns(prefix, list, at, g) <==>
              g < |list| && at < ShortEnd(prefix, list, g) && (g > 0 ==> ShortEnd(prefix, list, g - 1) <= at)
  {
  }

  lemma LastEnd(prefix: string, list: seq<Argp>)
    requires list != []
    ensures ShortEnd(prefix, list, |list| - 1) == |prefix + ShortText(list)|
  {
    assert list[..|list|] == list;
  }

  lemma EndsGrow(prefix: string, list: seq<Argp>, g: nat, h: nat)
    requires g <= h < |list|
    ensures ShortEnd(prefix, list, g) <= ShortEnd(prefix, list, h)
  {
    assert list[..h + 1][..g + 1] == list[..g + 1];
    ShortTextGrows(list[..h + 1], g + 1);
  }

  lemma OwnsOnce(prefix: string, list: seq<Argp>, at: nat, g: nat, h: nat)
    requires Owns(prefix, list, at, g) && Owns(prefix, list, at, h)
    ensures g == h
  {
    if g < h { EndsGrow(prefix, list, g, h - 1); }
    if h < g { EndsGrow(prefix, list, h, g - 1); }
  }

  lemma NoLinks(parent: Option<nat>, index: nat, at: nat, inputs: nat)
    ensures Links([], parent, index, at, inputs) == []
  {
  }

  lemma TextNext(list: seq<Argp>, a: Argp)
    ensures ShortText(list + [a]) == ShortText(list) + ShortOf(Opts(a), |Opts(a)|)
    ensures LongTable(list + [a]) == LongOf(LongTable(list), Opts(a), |list|, |Opts(a)|)
  {
    assert (list + [a])[..|list|] == list;
  }

  lemma ShortEndsKept(prefix: string, list: seq<Argp>, a: Argp)
    ensures forall i :: 0 <= i < |list| ==> ShortEnd(prefix, list + [a], i) == ShortEnd(prefix, list, i)
    ensures ShortEnd(prefix, list + [a], |list|) == |prefix| + |ShortText(list + [a])|
  {
    hide ShortText;
    assert (list + [a])[..|list| + 1] == list + [a];
    forall i | 0 <= i < |list| ensures ShortEnd(prefix, list + [a], i) == ShortEnd(prefix, list, i) {
      assert (list + [a])[..i + 1] == list[..i + 1];
    }
  }

  lemma OptionsStart(opts: seq<Opt>, table: seq<LongOpt>, g: nat)
    ensures ShortOf(opts, 0) == "" && LongOf(table, opts, g, 0) == table
  {
  }

  lemma {:induction false} ShortOfGrows(opts: seq<Opt>, i: nat, n: nat)
    requires i <= n <= |opts|
    ensures |ShortOf(opts, i)| <= |ShortOf(opts, n)|
    decreases n
  {
    if i < n { ShortOfGrows(opts, i, n - 1); }
  }

  lemma OptionsNext(opts: seq<Opt>, i: nat, table: seq<LongOpt>, g: nat)
    requires i < |opts|
    ensures ShortOf(opts, i + 1) == if HasShort(opts, i)
                                    then ShortOf(opts, i) + [opts[i].key as char] + Colons(Real(opts, i))
                                    else ShortOf(opts, i)
    ensures var before := LongOf(table, opts, g, i);
            LongOf(table, opts, g, i + 1) ==
              if HasLong(opts, i) && !Listed(before, opts[i].name) then before + [LongAt(opts, i, g)] else before
  {
  }
}
