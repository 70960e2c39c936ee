/** Paths as text: lib/utils.c. Strings are NUL-free sequences of characters. */
module Paths {
  import opened Basics

  const MAX_DIRS: nat := 10

  // ----- the reference: splitting at every slash

  /** The index of the first slash, or the length. */
  function Slash(s: string): (i: nat)
    ensures i <= |s| && '/' !in s[..i] && (i < |s| ==> s[i] == '/')
  {
    if s == "" || s[0] == '/' then 0
    else
      var i := Slash(s[1..]);
      assert s[..1 + i] == [s[0]] + s[1..][..i];
      1 + i
  }

  function Segments(s: string): (r: seq<string>)
    ensures r != []
  {
    var i := Slash(s);
    if i == |s| then [s] else [s[..i]] + Segments(s[i + 1..])
  }

  function NonEmpty(ss: seq<string>): seq<string> {
    if ss == [] then []
    else if ss[0] == "" then NonEmpty(ss[1..])
    else [ss[0]] + NonEmpty(ss[1..])
  }

  /** The directories a path names: the non-empty segments before its last slash. */
  function Dirs(s: string): seq<string>
    decreases |s|
  {
    var i := Slash(s);
    if i == |s| then [] else (if i == 0 then [] else [s[..i]]) + Dirs(s[i + 1..])
  }

  /** What follows the last slash. */
  function Last(s: string): string
    decreases |s|
  {
    if Slash(s) == |s| then s else Last(s[Slash(s) + 1..])
  }

  function Slashes(s: string): nat
    decreases |s|
  {
    if Slash(s) == |s| then 0 else 1 + Slashes(s[Slash(s) + 1..])
  }

  lemma NonEmptyStep(x: string, u: seq<string>, n: nat)
    requires n <= |u|
    ensures NonEmpty(([x] + u)[..n + 1]) == (if x == "" then [] else [x]) + NonEmpty(u[..n])
  {
    var v := ([x] + u)[..n + 1];
    assert v[0] == x && v[1..] == u[..n];
  }

  lemma SegmentsStep(s: string)
    ensures var i := Slash(s); Segments(s) == if i == |s| then [s] else [s[..i]] + Segments(s[i + 1..])
  {
    hide Slash;
  }

  /** In terms of the split at every slash. */
  lemma {:induction false} SplitMeaning(s: string)
    ensures |Segments(s)| == Slashes(s) + 1 && Segments(s)[Slashes(s)] == Last(s)
    ensures Dirs(s) == NonEmpty(Segments(s)[..Slashes(s)])
    decreases |s|
  {
    hide Segments, Slash, Dirs, Slashes, Last;
    DirsStep(s);
    SegmentsStep(s);
    var i := Slash(s);
    if i < |s| {
      SplitMeaning(s[i + 1..]);
      NonEmptyStep(s[..i], Segments(s[i + 1..]), Slashes(s[i + 1..]));
    } else {
      assert [s][..0] == [];
    }
  }

  // ----- the cursors of decompose_path

  /** A prefix of `s` up to its `n`-th non-empty directory, slash included, is dropped. */
  function AfterDirs(s: string, n: nat): string
    requires n <= |Dirs(s)|
    decreases |s|
  {
    if n == 0 then s
    else
      var i := Slash(s);
      DirsStep(s);
      AfterDirs(s[i + 1..], if i == 0 then n else n - 1)
  }

  /** Up to `n` slashes are dropped with what precedes them. */
  function AfterSlashes(s: string, n: nat): string
    decreases n
  {
    if n == 0 || Slash(s) == |s| then s else AfterSlashes(s[Slash(s) + 1..], n - 1)
  }

  lemma DirsNext(s: string)
    ensures var i := Slash(s); Dirs(s) == if i == |s| then [] else (if i == 0 then [] else [s[..i]]) + Dirs(s[i + 1..])
  {
    hide Slash;
  }

  lemma LastNext(s: string)
    ensures Last(s) == if Slash(s) == |s| then s else Last(s[Slash(s) + 1..])
  {
    hide Slash;
  }

  lemma SlashesNext(s: string)
    ensures Slashes(s) == if Slash(s) == |s| then 0 else 1 + Slashes(s[Slash(s) + 1..])
  {
    hide Slash;
  }

  lemma DirsStep(s: string)
    ensures var i := Slash(s);
            if i == |s| then Dirs(s) == [] && Last(s) == s && Slashes(s) == 0
            else && Dirs(s) == (if i == 0 then [] else [s[..i]]) + Dirs(s[i + 1..])
                 && Last(s) == Last(s[i + 1..]) && Slashes(s) == 1 + Slashes(s[i + 1..])
  {
    hide Slash, Dirs, Last, Slashes;
    DirsNext(s);
    LastNext(s);
    SlashesNext(s);
  }

  lemma AfterDirsNext(s: string, n: nat)
    requires n <= |Dirs(s)|
    ensures n > 0 ==> var i := Slash(s); var m := if i == 0 then n else n - 1;
              i < |s| && m <= |Dirs(s[i + 1..])| && AfterDirs(s, n) == AfterDirs(s[i + 1..], m)
    ensures AfterDirs(s, 0) == s
  {
    hide Slash;
  }

  lemma AfterSlashesNext(s: string, n: nat)
    ensures AfterSlashes(s, n) == if n == 0 || Slash(s) == |s| then s else AfterSlashes(s[Slash(s) + 1..], n - 1)
  {
    hide Slash;
  }

  /** The slashes after the last directory, which only separate it from the final segment. */
  function Redundant(s: string): nat {
    Slashes(AfterDirs(s, |Dirs(s)|))
  }

  /** What `decompose_path` gives back: at most ten directories, and what follows ten more slashes. */
  function Decomposed(s: string): (seq<string>, Option<string>) {
    if Slashes(s) == 0 then ([], Some(s))
    else
      var n := Min(|Dirs(s)|, MAX_DIRS);
      var file := AfterSlashes(AfterDirs(s, n), MAX_DIRS);
      (Dirs(s)[..n], if file == "" then None else Some(file))
  }

  /** The cursor step: the suffix past the next slash. */
  lemma Past(path: string, cur: nat)
    requires cur <= |path|
    ensures var i := Slash(path[cur..]);
            cur + i <= |path| && (i < |path[cur..]| ==> path[cur..][i + 1..] == path[cur + i + 1..])
            && path[cur..][..i] == path[cur..cur + i]
  {
  }

  /** First pass: how many directories, up to ten. */
  method CountDirs(path: string) returns (count: nat)
    ensures count == Min(|Dirs(path)|, MAX_DIRS)
  {
    hide Dirs, Slash, Last, Slashes;
    var cur: nat := 0;
    count := 0;
    assert path[0..] == path;
    var sep := Slash(path);
    while count < MAX_DIRS && sep < |path|
      invariant cur <= sep <= |path| && sep == cur + Slash(path[cur..])
      invariant count <= MAX_DIRS && count + |Dirs(path[cur..])| == |Dirs(path)|
      decreases |path| - cur
    {
      DirsStep(path[cur..]);
      Past(path, cur);
      if cur != sep { count := count + 1; }
      cur := sep + 1;
      sep := cur + Slash(path[cur..]);
    }
    DirsStep(path[cur..]);
  }

  /** Second pass: the directories themselves. */
  method CopyDirs(path: string, count: nat) returns (dirs: seq<string>, cur: nat)
    requires count <= |Dirs(path)|
    ensures dirs == Dirs(path)[..count] && cur <= |path| && path[cur..] == AfterDirs(path, count)
  {
    hide Dirs, Slash, Last, Slashes, AfterDirs;
    dirs, cur := [], 0;
    assert path[0..] == path;
    while |dirs| < count
      invariant cur <= |path| && |dirs| <= count
      invariant dirs + Dirs(path[cur..]) == Dirs(path)
      invariant AfterDirs(path[cur..], count - |dirs|) == AfterDirs(path, count)
      decreases |path| - cur
    {
      DirsStep(path[cur..]);
      AfterDirsNext(path[cur..], count - |dirs|);
      Past(path, cur);
      var sep := cur + Slash(path[cur..]);
      if cur != sep { dirs := dirs + [path[cur..sep]]; }
      cur := sep + 1;
    }
    AfterDirsNext(path[cur..], 0);
  }

  /** Third pass: slashes left before the file name, up to ten. */
  method SkipSlashes(path: string, start: nat) returns (cur: nat)
    requires start <= |path|
    ensures cur <= |path| && path[cur..] == AfterSlashes(path[start..], MAX_DIRS)
  {
    hide AfterSlashes, Slash;
    cur := start;
    var limit := 0;
    var sep := cur + Slash(path[cur..]);
    while limit < MAX_DIRS && sep < |path|
      invariant cur <= sep <= |path| && sep == cur + Slash(path[cur..]) && limit <= MAX_DIRS
      invariant AfterSlashes(path[cur..], MAX_DIRS - limit) == AfterSlashes(path[start..], MAX_DIRS)
    {
      Past(path, cur);
      AfterSlashesNext(path[cur..], MAX_DIRS - limit);
      cur := sep + 1;
      limit := limit + 1;
      sep := cur + Slash(path[cur..]);
    }
    AfterSlashesNext(path[cur..], MAX_DIRS - limit);
  }

  /** `decompose_path`. */
  method DecomposePath(path: string) returns (dirs: seq<string>, file: Option<string>)
    ensures (dirs, file) == Decomposed(path)
  {
    DirsStep(path);
    if Slash(path) == |path| { return [], Some(path); }
    var count := CountDirs(path);
    var cur;
    dirs, cur := CopyDirs(path, count);
    cur := SkipSlashes(path, cur);
    file := if |path[cur..]| != 0 then Some(path[cur..]) else None;
  }

  // ----- when it is the split at slashes

  lemma {:induction false} AfterDirsStep(s: string, n: nat)
    requires n <= |Dirs(s)|
    ensures Dirs(AfterDirs(s, n)) == Dirs(s)[n..] && Last(AfterDirs(s, n)) == Last(s)
    ensures Slashes(AfterDirs(s, n)) >= |Dirs(s)| - n
    decreases |s|
  {
    AfterDirsNext(s, n);
    hide AfterDirs, Slash, Dirs, Last, Slashes;
    if n > 0 {
      DirsStep(s);
      AfterDirsStep(s[Slash(s) + 1..], if Slash(s) == 0 then n else n - 1);
    } else {
      DirsAtMostSlashes(s);
    }
  }

  lemma {:induction false} DirsAtMostSlashes(s: string)
    ensures |Dirs(s)| <= Slashes(s)
    decreases |s|
  {
    DirsStep(s);
    if Slash(s) < |s| { DirsAtMostSlashes(s[Slash(s) + 1..]); }
  }

  /** The final segment has no slash; what is left before it has one fewer for every slash skipped. */
  lemma {:induction false} AfterSlashesStep(s: string, n: nat)
    ensures Last(AfterSlashes(s, n)) == Last(s)
    ensures Slashes(AfterSlashes(s, n)) == if n <= Slashes(s) then Slashes(s) - n else 0
    decreases n
  {
    DirsStep(s);
    AfterSlashesNext(s, n);
    hide AfterSlashes, Slashes, Last, Slash, Dirs;
    if n > 0 && Slash(s) < |s| { AfterSlashesStep(s[Slash(s) + 1..], n - 1); }
  }

  lemma LastOfSlashless(s: string)
    ensures Last(s) == s <==> Slashes(s) == 0
    decreases |s|
  {
    DirsStep(s);
    if Slash(s) < |s| { LastIsShorter(s); }
  }

  lemma {:induction false} LastIsShorter(s: string)
    ensures |Last(s)| <= |s| && (Slash(s) < |s| ==> |Last(s)| < |s|)
    decreases |s|
  {
    DirsStep(s);
    if Slash(s) < |s| { LastIsShorter(s[Slash(s) + 1..]); }
  }

  /** `decompose_path` gives exactly the directories and the final segment of a path, none for an empty one,
      for those paths and only those that are not empty, name at most ten directories, and put at most ten
      slashes after the last of them. */
  lemma DecomposeIsSplit(s: string)
    ensures Decomposed(s) == (Dirs(s), if Last(s) == "" then None else Some(Last(s)))
        <==> s != "" && |Dirs(s)| <= 10 && Redundant(s) <= 10
  {
    DirsStep(s);
    if Slashes(s) == 0 {
      AfterDirsNext(s, 0);
    } else {
      SlashedIsSplit(s);
    }
  }

  lemma SlashedIsSplit(s: string)
    requires Slashes(s) > 0
    ensures Decomposed(s) == (Dirs(s), if Last(s) == "" then None else Some(Last(s)))
        <==> |Dirs(s)| <= MAX_DIRS && Redundant(s) <= MAX_DIRS
  {
    var n := Min(|Dirs(s)|, MAX_DIRS);
    var file := AfterSlashes(AfterDirs(s, n), MAX_DIRS);
    hide Dirs, Last, Slashes, AfterDirs, AfterSlashes;
    AfterDirsStep(s, n);
    AfterSlashesStep(AfterDirs(s, n), MAX_DIRS);
    LastOfSlashless(file);
    DirsStep("");
    assert Dirs(s)[..|Dirs(s)|] == Dirs(s);
  }

  /** The empty path is taken for a file without a name; a lone slash names the root. */
  lemma EmptyPath()
    ensures Decomposed("") == ([], Some("")) && Dirs("") == [] && Last("") == ""
    ensures Decomposed("/") == ([], None)
  {
    DecomposeIsSplit("/");
    AfterLeading("");
    assert "/" + "" == "/";
    assert "/"[1..] == "";
    AfterDirsNext("/", 0);
    AfterDirsNext("", 0);
    DirsStep("");
  }

  // ----- join_path

  /** A path printed from its directories, outermost first, and its name. */
  function Joined(dirs: seq<string>, name: string): string {
    if dirs == [] then name else dirs[0] + "/" + Joined(dirs[1..], name)
  }

  predicate IsName(s: string) {
    s != "" && '/' !in s
  }

  lemma {:induction false} JoinedSplits(dirs: seq<string>, name: string)
    requires (forall i :: 0 <= i < |dirs| ==> IsName(dirs[i])) && '/' !in name
    ensures Dirs(Joined(dirs, name)) == dirs && Last(Joined(dirs, name)) == name
    ensures Slashes(Joined(dirs, name)) == |dirs| && AfterDirs(Joined(dirs, name), |dirs|) == name
    decreases |dirs|
  {
    hide Dirs, Last, Slashes, Slash, AfterDirs;
    var s := Joined(dirs, name);
    DirsStep(s);
    if dirs == [] {
      NoSlash(s);
      AfterDirsNext(s, 0);
    } else {
      var t := Joined(dirs[1..], name);
      JoinedSplits(dirs[1..], name);
      assert IsName(dirs[0]);
      FirstSlash(dirs[0], t);
      assert dirs == [dirs[0]] + dirs[1..];
      AfterDirsNext(s, |dirs|);
    }
  }

  lemma {:induction false} NoSlash(s: string)
    requires '/' !in s
    ensures Slash(s) == |s|
  {
    if s != "" { NoSlash(s[1..]); }
  }

  lemma {:induction false} FirstSlash(d: string, t: string)
    requires '/' !in d
    ensures var s := d + "/" + t;
            Slash(s) == |d| && s[..|d|] == d && s[|d| + 1..] == t
  {
    var s := d + "/" + t;
    if d != "" {
      assert s[1..] == d[1..] + "/" + t;
      FirstSlash(d[1..], t);
    }
  }

  lemma {:induction false} DirsAreNames(s: string)
    ensures forall i :: 0 <= i < |Dirs(s)| ==> IsName(Dirs(s)[i])
    decreases |s|
  {
    DirsStep(s);
    var i := Slash(s);
    hide Dirs, Slash;
    if i < |s| { DirsAreNames(s[i + 1..]); }
  }

  /** Every directory dropped takes a slash with it. */
  lemma {:induction false} AfterDirsCount(s: string, n: nat)
    requires n <= |Dirs(s)|
    ensures Slashes(s) >= n + Slashes(AfterDirs(s, n))
    decreases |s|
  {
    AfterDirsNext(s, n);
    DirsStep(s);
    hide AfterDirs, Slash, Dirs, Slashes;
    if n > 0 { AfterDirsCount(s[Slash(s) + 1..], if Slash(s) == 0 then n else n - 1); }
  }

  lemma {:induction false} JoinedSlashes(dirs: seq<string>, name: string)
    requires forall i :: 0 <= i < |dirs| ==> IsName(dirs[i])
    ensures Slashes(Joined(dirs, name)) == |dirs| + Slashes(name)
    decreases |dirs|
  {
    hide Dirs, Last, Slashes, Slash;
    if dirs != [] {
      assert IsName(dirs[0]);
      JoinedSlashes(dirs[1..], name);
      FirstSlash(dirs[0], Joined(dirs[1..], name));
      DirsStep(Joined(dirs, name));
    }
  }

  lemma SlashesMeaning(s: string)
    ensures Slashes(s) == 0 <==> '/' !in s
  {
    if '/' !in s { NoSlash(s); } else { assert s[..|s|] == s; }
  }

  /** A file name with a slash in it is what is left after ten more slashes. */
  lemma SlashedFile(s: string)
    ensures var d := Decomposed(s);
            d.1.Some? && Slashes(d.1.value) > 0 ==> Slashes(s) >= |d.0| + MAX_DIRS + Slashes(d.1.value)
  {
    if Slashes(s) > 0 {
      var n := Min(|Dirs(s)|, MAX_DIRS);
      hide Dirs, Slashes, AfterDirs, AfterSlashes;
      AfterDirsCount(s, n);
      AfterSlashesStep(AfterDirs(s, n), MAX_DIRS);
    }
  }

  lemma AfterLeading(s: string)
    ensures Dirs("/" + s) == Dirs(s) && Last("/" + s) == Last(s) && Slashes("/" + s) == 1 + Slashes(s)
    ensures Redundant("/" + s) <= 1 + Redundant(s)
  {
    FirstSlash("", s);
    assert "" + "/" + s == "/" + s;
    DirsStep("/" + s);
    AfterDirsNext("/" + s, |Dirs(s)|);
    if Dirs(s) == [] { AfterDirsNext("/" + s, 0); AfterDirsNext(s, 0); }
  }

  /** Printing then parsing a path gives it back, and for a name of nothing no file. */
  lemma PathRoundTrip(dirs: seq<string>, name: string)
    requires (forall i :: 0 <= i < |dirs| ==> IsName(dirs[i])) && |dirs| <= MAX_DIRS && '/' !in name
    requires dirs != [] || name != ""
    ensures Decomposed(Joined(dirs, name)) == (dirs, if name == "" then None else Some(name))
  {
    JoinedSplits(dirs, name);
    if dirs == [] {
      assert Joined([], name) == name;
    } else {
      NoSlash(name);
      DirsStep(name);
      hide Dirs, Last, Slashes, Slash, AfterDirs, Joined;
      DecomposeIsSplit(Joined(dirs, name));
    }
  }

  /** So does parsing with a slash in front. */
  lemma RootedRoundTrip(dirs: seq<string>, name: string)
    requires (forall i :: 0 <= i < |dirs| ==> IsName(dirs[i])) && |dirs| <= MAX_DIRS && '/' !in name
    ensures Decomposed("/" + Joined(dirs, name)) == (dirs, if name == "" then None else Some(name))
  {
    JoinedSplits(dirs, name);
    NoSlash(name);
    DirsStep(name);
    hide Dirs, Last, Slashes, Slash, AfterDirs, Joined;
    AfterLeading(Joined(dirs, name));
    DecomposeIsSplit("/" + Joined(dirs, name));
  }

  /** The directories of a path as text, a slash after each. */
  function DirText(dirs: seq<string>): string {
    if dirs == [] then "" else DirText(dirs[..|dirs| - 1]) + dirs[|dirs| - 1] + "/"
  }

  lemma {:induction false} JoinedText(dirs: seq<string>, name: string)
    ensures Joined(dirs, name) == DirText(dirs) + name
    decreases |dirs|
  {
    if dirs != [] {
      var n := |dirs| - 1;
      JoinedText(dirs[..n], dirs[n] + "/" + name);
      JoinedLast(dirs[..n], dirs[n], name);
      assert dirs == dirs[..n] + [dirs[n]];
      assert DirText(dirs[..n]) + (dirs[n] + "/" + name) == DirText(dirs[..n]) + dirs[n] + "/" + name;
    }
  }

  lemma {:induction false} JoinedLast(dirs: seq<string>, d: string, name: string)
    ensures Joined(dirs + [d], name) == Joined(dirs, d + "/" + name)
    decreases |dirs|
  {
    if dirs == [] {
      assert dirs + [d] == [d];
    } else {
      assert (dirs + [d])[1..] == dirs[1..] + [d];
      JoinedLast(dirs[1..], d, name);
    }
  }

  /** `memcpy(buffer + offset, s, strlen(s))`. */
  method CopyInto(buffer: array<char>, offset: nat, s: string)
    requires offset + |s| <= buffer.Length
    modifies buffer
    ensures buffer[..offset + |s|] == old(buffer[..offset]) + s
  {
    for i := 0 to |s|
      invariant buffer[..offset] == old(buffer[..offset])
      invariant forall j :: 0 <= j < i ==> buffer[offset + j] == s[j]
    {
      buffer[offset + i] := s[i];
    }
    assert buffer[offset..offset + |s|] == s;
    assert buffer[..offset + |s|] == buffer[..offset] + buffer[offset..offset + |s|];
  }

  lemma TextStep(parents: seq<string>, i: nat)
    requires i < |parents|
    ensures DirText(Reversed(parents[i..])) == DirText(Reversed(parents[i + 1..])) + parents[i] + "/"
  {
    assert parents[i..][1..] == parents[i + 1..] && parents[i..][0] == parents[i];
    var r := Reversed(parents[i + 1..]);
    assert (r + [parents[i]])[..|r|] == r;
  }

  /** The first loop of `join_path`: the length of the directories with their slashes. */
  method MeasureText(parents: seq<string>) returns (len: nat)
    ensures len == |DirText(Reversed(parents))|
  {
    len := 0;
    var i := |parents|;
    assert parents[i..] == [] && parents[0..] == parents && DirText(Reversed([])) == "";
    hide DirText, Reversed;
    while i > 0
      invariant i <= |parents| && len == |DirText(Reversed(parents[i..]))|
    {
      i := i - 1;
      TextStep(parents, i);
      len := len + |parents[i]| + 1;
    }
  }

  /** The second loop: the directories are copied, outermost first. */
  method FillText(parents: seq<string>, buffer: array<char>) returns (offset: nat)
    requires buffer.Length >= |DirText(Reversed(parents))|
    modifies buffer
    ensures offset <= buffer.Length && buffer[..offset] == DirText(Reversed(parents))
  {
    offset := 0;
    var i := |parents|;
    assert parents[i..] == [] && parents[0..] == parents && DirText(Reversed([])) == "";
    hide DirText, Reversed;
    while i > 0
      invariant i <= |parents| && offset <= buffer.Length && buffer[..offset] == DirText(Reversed(parents[i..]))
    {
      i := i - 1;
      TextStep(parents, i);
      TextGrows(parents, i);
      CopyInto(buffer, offset, parents[i]);
      offset := offset + |parents[i]|;
      buffer[offset] := '/';
      offset := offset + 1;
      assert buffer[..offset] == buffer[..offset - 1] + "/";
    }
  }

  /** `join_path`: the length is measured, then the parts are copied; parents are given innermost first. */
  method JoinPath(parents: seq<string>, name: string) returns (path: string)
    ensures path == Joined(Reversed(parents), name)
  {
    hide DirText, Reversed, Joined;
    var len := MeasureText(parents);
    var buffer := new char[len + |name|];
    var offset := FillText(parents, buffer);
    CopyInto(buffer, offset, name);
    JoinedText(Reversed(parents), name);
    path := buffer[..];
    assert path == buffer[..offset + |name|];
  }

  lemma {:induction false} TextGrows(parents: seq<string>, i: nat)
    requires i <= |parents|
    ensures |DirText(Reversed(parents[i..]))| <= |DirText(Reversed(parents))|
    decreases i
  {
    if i == 0 {
      assert parents[0..] == parents;
    } else {
      TextStep(parents, i - 1);
      TextGrows(parents, i - 1);
    }
  }
}
