/** Printing the path of an inode and finding the inode again by its path
    (lib/inode.c get_path_inode, lib/utils.c join_path and decompose_path, lib/inflate.c get_inode). */
module Locate {
  import opened Basics
  import opened Tree
  import Paths

  /** The text that `join_path` makes of what `get_path_inode` found above the inode at `p`. */
  function Printed(v: Listing, p: Path): string
    requires p != []
  {
    Paths.Joined(Reversed(Climbed(v, p[..|p| - 1], MAX_LEVEL)), p[|p| - 1])
  }

  /** The inode that `get_inode` finds for a text. */
  function Located(v: Listing, text: string): Lookup {
    var d := Paths.Decomposed(text);
    Resolve(v, d.0, d.1)
  }

  ghost predicate NamesOnly(p: Path) {
    forall i :: 0 <= i < |p| ==> Paths.IsName(p[i])
  }

  /** A printed path is taken apart into at most its own directories, and into all of them when they are at most ten. */
  lemma PartsOf(dirs: Path, name: string)
    requires NamesOnly(dirs) && Paths.IsName(name)
    ensures var d := Paths.Decomposed(Paths.Joined(dirs, name));
            && d.0 == dirs[..Min(|dirs|, Paths.MAX_DIRS)]
            && (|dirs| <= Paths.MAX_DIRS ==> d == (dirs, Some(name)))
  {
    Paths.JoinedSplits(dirs, name);
    if |dirs| <= Paths.MAX_DIRS { Paths.PathRoundTrip(dirs, name); }
  }

  lemma RootedPartsOf(dirs: Path, name: string)
    requires NamesOnly(dirs) && Paths.IsName(name)
    ensures var d := Paths.Decomposed("/" + Paths.Joined(dirs, name));
            && d.0 == dirs[..Min(|dirs|, Paths.MAX_DIRS)]
            && (|dirs| <= Paths.MAX_DIRS ==> d == (dirs, Some(name)))
  {
    Paths.JoinedSplits(dirs, name);
    Paths.AfterLeading(Paths.Joined(dirs, name));
    if |dirs| <= Paths.MAX_DIRS { Paths.RootedRoundTrip(dirs, name); }
  }

  /** Looking up parts of a tail of `p` finds `p` exactly when they are the whole of it. */
  lemma FoundWhole(v: Listing, p: Path, k: nat, dirs: Path, file: Option<string>)
    requires IsTree(v) && p in v && p != [] && k < |p|
    requires var above := p[..|p| - 1][k..];
             && dirs == above[..Min(|above|, Paths.MAX_DIRS)]
             && (|above| <= Paths.MAX_DIRS ==> file == Some(p[|p| - 1]))
    ensures Resolve(v, dirs, file) == Found(p) <==> k == 0 && |p| - 1 <= Paths.MAX_DIRS
  {
    hide IsTree, Resolve;
    var above := p[..|p| - 1][k..];
    ResolveMeaning(v, dirs, file, p);
    if k == 0 && |p| - 1 <= Paths.MAX_DIRS {
      assert dirs == p[..|p| - 1] && p == dirs + [p[|p| - 1]];
    } else {
      assert |dirs| < |p| - 1;
    }
  }

  /** For names that are not empty and have no slash. */
  lemma NamesRoundTrip(v: Listing, p: Path)
    requires IsTree(v) && p in v && p != [] && NamesOnly(p)
    ensures Located(v, Printed(v, p)) == Found(p) <==> |p| - 1 <= Paths.MAX_DIRS && IdsNonZero(v, p[..|p| - 1])
    ensures Located(v, "/" + Printed(v, p)) == Found(p) <==> |p| - 1 <= Paths.MAX_DIRS && IdsNonZero(v, p[..|p| - 1])
  {
    var dir, name := p[..|p| - 1], p[|p| - 1];
    assert Paths.IsName(name);
    assert |dir| <= MAX_LEVEL;
    var k := ClimbMeaning(v, dir, MAX_LEVEL);
    hide IsTree, Climbed, IdsNonZero;
    assert NamesOnly(dir[k..]);
    PartsOf(dir[k..], name);
    RootedPartsOf(dir[k..], name);
    var d, r := Paths.Decomposed(Printed(v, p)), Paths.Decomposed("/" + Printed(v, p));
    FoundWhole(v, p, k, d.0, d.1);
    FoundWhole(v, p, k, r.0, r.1);
  }

  lemma PartsAreNames(text: string)
    ensures NamesOnly(Paths.Decomposed(text).0)
  {
    hide Paths.Dirs, Paths.AfterDirs, Paths.AfterSlashes;
    Paths.DirsAreNames(text);
  }

  /** Where an inode is found by its printed path, its directories have proper names. */
  lemma FoundNames(v: Listing, p: Path, text: string)
    requires IsTree(v) && p in v && p != [] && Located(v, text) == Found(p) && !NamesOnly(p)
    ensures var d := Paths.Decomposed(text);
            NamesOnly(p[..|p| - 1]) && d.0 == p[..|p| - 1] && d.1 == Some(p[|p| - 1]) && !Paths.IsName(p[|p| - 1])
  {
    hide IsTree, Resolve, Paths.Decomposed, Paths.IsName;
    var d := Paths.Decomposed(text);
    PartsAreNames(text);
    ResolveMeaning(v, d.0, d.1, p);
  }

  /** A path whose names are not proper is found only if it is a single empty name. */
  lemma ImproperNames(v: Listing, p: Path)
    requires IsTree(v) && p in v && p != [] && !NamesOnly(p)
    ensures Located(v, Printed(v, p)) == Found(p) <==> p == [""]
    ensures Located(v, "/" + Printed(v, p)) != Found(p)
  {
    var dir, name := p[..|p| - 1], p[|p| - 1];
    assert |dir| <= MAX_LEVEL;
    var k := ClimbMeaning(v, dir, MAX_LEVEL);
    hide IsTree, Climbed, IdsNonZero;
    var text := Printed(v, p);
    assert text == Paths.Joined(dir[k..], name);
    if Located(v, text) == Found(p) {
      FoundNames(v, p, text);
      ImproperText(dir, k, name, text);
    }
    if Located(v, "/" + text) == Found(p) {
      FoundNames(v, p, "/" + text);
      ImproperText(dir, k, name, "/" + text);
    }
    if p == [""] {
      assert dir == [] && text == "";
      Paths.EmptyPath();
      ResolveMeaning(v, [], Some(""), p);
    }
  }

  /** What a text and the parts found of it say of an improper name at its end. */
  lemma ImproperText(dir: Path, k: nat, name: string, text: string)
    requires k <= |dir| && NamesOnly(dir) && !Paths.IsName(name)
    requires text == Paths.Joined(dir[k..], name) || text == "/" + Paths.Joined(dir[k..], name)
    requires Paths.Decomposed(text) == (dir, Some(name))
    ensures text == "" && dir == [] && name == ""
  {
    assert NamesOnly(dir[k..]);
    Paths.JoinedSlashes(dir[k..], name);
    Paths.AfterLeading(Paths.Joined(dir[k..], name));
    Paths.SlashedFile(text);
    Paths.SlashesMeaning(name);
    NamelessFile(text);
  }

  lemma NamelessFile(text: string)
    requires Paths.Decomposed(text).1 == Some("")
    ensures text == ""
  {
  }

  /** An inode is found again by its printed path, with a slash in front, exactly when at most ten directories
      lie above it, none of them with id 0, and no name on the path is empty or has a slash. Without the slash,
      an inode of the root with an empty name is found, too. */
  lemma LocateRoundTrip(v: Listing, p: Path)
    requires IsTree(v) && p in v && p != []
    ensures Located(v, Printed(v, p)) == Found(p) <==>
              p == [""] || (|p| - 1 <= 10 && IdsNonZero(v, p[..|p| - 1]) && NamesOnly(p))
    ensures Located(v, "/" + Printed(v, p)) == Found(p) <==>
              |p| - 1 <= 10 && IdsNonZero(v, p[..|p| - 1]) && NamesOnly(p)
  {
    hide IsTree, Located, Printed, IdsNonZero;
    if NamesOnly(p) {
      assert Paths.IsName(p[0]);
      NamesRoundTrip(v, p);
    } else {
      ImproperNames(v, p);
    }
  }
}
