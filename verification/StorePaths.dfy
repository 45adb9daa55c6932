/**
 Keys of the flat file store as sequences of segments.  The code works on the strings; these lemmas
 say what its prefix tests and slices mean for the segments between the slashes.
 */
module StorePaths {
  import opened Strings
  import opened LibraryPaths

  function Segs(path: string): (r: seq<string>)
    ensures |r| > 0
  {
    Split(path, '/')
  }

  // A segment that cannot be cut short by trimming the path at its right end.
  predicate Firm(s: string) {
    |s| > 0 && !IsSpace(LastChar(s))
  }

  predicate Flush(s: string) {
    |s| > 0 && !IsSpace(s[0])
  }

  // A directory that trimming leaves alone, and so are all the directories above it.
  ghost predicate SteadyDir(d: seq<string>) {
    && (forall i {:trigger Firm(d[i])} :: 0 <= i < |d| ==> Firm(d[i]))
    && (|d| > 0 ==> Flush(d[0]))
  }

  // A file with a name, in a directory that trimming leaves alone.
  ghost predicate WellFormed(path: string) {
    var s := Segs(path);
    SteadyDir(s[..|s| - 1]) && |s[|s| - 1]| > 0
  }

  // The root is the empty path and has no segments.
  function DirSegs(dir: string): (r: seq<string>) {
    if |dir| == 0 then [] else Segs(dir)
  }

  ghost predicate WellFormedDir(dir: string) {
    SteadyDir(DirSegs(dir))
  }

  lemma SegsInjective(a: string, b: string)
    requires Segs(a) == Segs(b)
    ensures a == b
  {
    JoinSplit(a, '/');
    JoinSplit(b, '/');
  }

  // The string test `path starts with dir + "/"` is the proper-prefix test on segments.
  lemma StartsWithIff(dir: string, path: string)
    ensures dir + "/" <= path <==> Segs(dir) < Segs(path)
    ensures dir + "/" <= path ==> Segs(path) == Segs(dir) + Segs(path[|dir| + 1..])
  {
    if dir + "/" <= path {
      assert path == dir + "/" + path[|dir| + 1..];
      SplitConcat(dir, path[|dir| + 1..], '/');
    }
    if Segs(dir) < Segs(path) {
      var rest := Segs(path)[|Segs(dir)|..];
      assert Segs(path) == Segs(dir) + rest;
      JoinSplit(dir, '/');
      JoinSplit(path, '/');
      JoinAppend(Segs(dir), rest, '/');
    }
  }

  lemma PrefixInit(x: seq<string>, s: seq<string>)
    requires |s| > 0
    ensures x < s <==> x <= s[..|s| - 1]
  {
  }

  /******* Trimming does not touch a well-formed path *******/

  lemma ConcatEnds(a: string, b: string)
    requires |a| > 0 && |b| > 0
    ensures (a + b)[0] == a[0] && (a + b)[|a + b| - 1] == b[|b| - 1]
  {
  }

  function LastChar(s: string): (c: char)
    requires |s| > 0
  {
    s[|s| - 1]
  }

  lemma {:induction false} JoinEnds(segs: seq<string>)
    requires |segs| > 0 && forall i :: 0 <= i < |segs| ==> |segs[i]| > 0
    ensures var s := Join(segs, '/');
            |s| > 0 && s[0] == segs[0][0] && LastChar(s) == LastChar(segs[|segs| - 1])
  {
    if |segs| > 1 {
      JoinEnds(segs[1..]);
      ConcatEnds(segs[0] + "/", Join(segs[1..], '/'));
    }
  }

  lemma EndsWellFormed(dir: string)
    requires WellFormedDir(dir) && |dir| > 0
    ensures Bare(dir, IsSpace) && Bare(dir, IsSlash)
  {
    JoinSplit(dir, '/');
    var segs := Segs(dir);
    assert forall i :: 0 <= i < |segs| ==> Firm(segs[i]);
    JoinEnds(segs);
    var last := segs[|segs| - 1];
    assert Firm(last) && Without(last, '/') && Without(segs[0], '/');
    assert last[|last| - 1] != '/' && segs[0][0] != '/';
  }

  // The path of a directory, from its segments.
  lemma DirOf(d: seq<string>)
    requires SteadyDir(d) && forall i :: 0 <= i < |d| ==> Without(d[i], '/')
    ensures DirSegs(Join(d, '/')) == d
  {
    if |d| > 0 {
      assert forall i :: 0 <= i < |d| ==> Firm(d[i]);
      JoinEnds(d);
      SplitJoin(d, '/');
    }
  }

  lemma TrimmedWellFormed(dir: string)
    requires WellFormedDir(dir)
    ensures Trimmed(dir) == dir
  {
    if |dir| > 0 {
      EndsWellFormed(dir);
      StripBare(dir, IsSpace);
      StripBare(dir, IsSlash);
    }
  }

  // The path of a child directory, as the listing writes it.
  function ChildPath(dir: string, name: string): (r: string) {
    if |dir| == 0 then name else dir + "/" + name
  }

  lemma ChildPathSegs(dir: string, name: string)
    requires Without(name, '/')
    ensures Segs(ChildPath(dir, name)) == DirSegs(dir) + [name]
  {
    SplitWithout(name, '/');
    if |dir| > 0 {
      SplitConcat(dir, name, '/');
    }
  }

  /******* Which directory a child path stands for *******/

  predicate IsBlank(name: string) {
    forall i :: 0 <= i < |name| ==> IsSpace(name[i])
  }

  // A listing trims the path it is given.  Below the directory d, the path of the entry called
  // `name` is read as this directory: d itself if the name is blank.
  function Below(d: seq<string>, name: string): (r: seq<string>) {
    if IsBlank(name) then d
    else d + [if |d| == 0 then Strip(name, IsSpace) else StripRight(name, IsSpace)]
  }

  lemma StripNotBlank(name: string)
    requires !IsBlank(name)
    ensures |Strip(name, IsSpace)| > 0 && |StripRight(name, IsSpace)| > 0
    ensures Without(name, '/') ==> Without(Strip(name, IsSpace), '/') && Without(StripRight(name, IsSpace), '/')
  {
    StripLeftIsSuffix(name, IsSpace);
    StripRightIsPrefix(StripLeft(name, IsSpace), IsSpace);
    StripRightIsPrefix(name, IsSpace);
  }

  lemma WithoutSlashIsBare(name: string)
    requires Without(name, '/')
    ensures StripRight(StripLeft(name, IsSlash), IsSlash) == name
  {
    StripBare(name, IsSlash);
  }

  lemma RootChildRead(name: string)
    requires |name| > 0 && Without(name, '/')
    ensures var next := Trimmed(name);
            DirSegs(next) == Below([], name) && SteadyDir(DirSegs(next))
  {
    if IsBlank(name) {
      assert name == name + [] + [];
      StripPadded(name, [], [], IsSpace);
    } else {
      StripNotBlank(name);
      StripIsBare(name, IsSpace);
      WithoutSlashIsBare(Strip(name, IsSpace));
      SplitWithout(Strip(name, IsSpace), '/');
    }
  }

  lemma BlankChildRead(dir: string, blank: string)
    requires WellFormedDir(dir) && |dir| > 0 && IsBlank(blank)
    ensures Trimmed(dir + "/" + blank) == dir
  {
    EndsWellFormed(dir);
    var core := dir + "/";
    assert dir + "/" + blank == [] + core + blank;
    StripPadded([], core, blank, IsSpace);
    StripBare(dir, IsSlash);
    assert core[0] == dir[0];
    StripRightPadded(dir, "/", IsSlash);
  }

  lemma BareConcat(head: string, tail: string, drop: char -> bool)
    requires |head| > 0 && !drop(head[0]) && |tail| > 0 && !drop(tail[|tail| - 1])
    ensures Bare(head + tail, drop)
  {
  }

  lemma InnerChildRead(dir: string, name: string)
    requires WellFormedDir(dir) && |dir| > 0 && Without(name, '/') && !IsBlank(name)
    ensures Trimmed(dir + "/" + name) == dir + "/" + StripRight(name, IsSpace)
  {
    var head, kept := dir + "/", StripRight(name, IsSpace);
    EndsWellFormed(dir);
    StripNotBlank(name);
    StripRightIsPrefix(name, IsSpace);
    StripRightConcat(head, name, IsSpace);
    assert StripLeft(head + name, IsSpace) == head + name;
    BareConcat(head, kept, IsSlash);
    StripBare(head + kept, IsSlash);
  }

  lemma InnerChildSegs(dir: string, kept: string)
    requires WellFormedDir(dir) && |dir| > 0 && Firm(kept) && Without(kept, '/')
    ensures Segs(dir + "/" + kept) == Segs(dir) + [kept] && WellFormedDir(dir + "/" + kept)
  {
    ChildPathSegs(dir, kept);
    assert forall i :: 0 <= i < |Segs(dir)| ==> (Segs(dir) + [kept])[i] == Segs(dir)[i];
  }

  // The directory that is listed for a child directory.
  lemma ChildRead(dir: string, name: string)
    requires WellFormedDir(dir) && |name| > 0 && Without(name, '/')
    ensures var next := Trimmed(ChildPath(dir, name));
            DirSegs(next) == Below(DirSegs(dir), name) && WellFormedDir(next)
  {
    if |dir| == 0 {
      RootChildRead(name);
    } else if IsBlank(name) {
      BlankChildRead(dir, name);
    } else {
      InnerChildRead(dir, name);
      StripNotBlank(name);
      StripRightIsPrefix(name, IsSpace);
      InnerChildSegs(dir, StripRight(name, IsSpace));
    }
  }

  lemma BelowIsSteady(d: seq<string>, name: string)
    requires SteadyDir(d) && !IsBlank(name)
    ensures SteadyDir(Below(d, name)) && |Below(d, name)| == |d| + 1
  {
    StripNotBlank(name);
    StripIsBare(name, IsSpace);
    StripRightIsPrefix(name, IsSpace);
    assert forall i :: 0 <= i < |d| ==> Below(d, name)[i] == d[i];
  }

  lemma StripRightFirm(name: string)
    requires |name| > 0
    ensures StripRight(name, IsSpace) == name <==> Firm(name)
  {
    StripRightIsPrefix(name, IsSpace);
  }

  lemma StripNameBare(name: string)
    requires |name| > 0
    ensures Strip(name, IsSpace) == name <==> Firm(name) && Flush(name)
  {
    StripIsBare(name, IsSpace);
    if Bare(name, IsSpace) {
      StripBare(name, IsSpace);
    }
  }

  lemma SteadyAppend(d: seq<string>, name: string)
    requires SteadyDir(d)
    ensures SteadyDir(d + [name]) <==> Firm(name) && (|d| == 0 ==> Flush(name))
  {
    var more := d + [name];
    assert more[|d|] == name;
    assert forall i :: 0 <= i < |d| ==> more[i] == d[i];
  }

  // A steady directory is read as itself, and only then.
  lemma BelowSteady(d: seq<string>, name: string)
    requires SteadyDir(d) && |name| > 0
    ensures Below(d, name) == d + [name] <==> SteadyDir(d + [name])
  {
    SteadyAppend(d, name);
    if IsBlank(name) {
      assert |Below(d, name)| == |d|;
    } else {
      StripRightFirm(name);
      StripNameBare(name);
      assert Below(d, name)[|d|] == if |d| == 0 then Strip(name, IsSpace) else StripRight(name, IsSpace);
      assert (d + [name])[|d|] == name;
    }
  }
}
