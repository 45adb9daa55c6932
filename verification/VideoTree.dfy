/**
 Collecting the whole library by listing directories recursively.  The files and directories that
 come out are compared with the flat store, which knows nothing of directories.
 */
module VideoTree {
  import opened Options
  import opened Strings
  import opened Sorting
  import opened LibraryPaths
  import opened StorePaths
  import opened VideoStore

  datatype Row = Row(entry: Entry, depth: nat)

  /******* Which directories the recursion comes to *******/

  // A directory called n is listed in the directory d.
  ghost predicate DirName(store: seq<Stored>, d: seq<string>, n: string) {
    n != "" && StoredUnder(store, d + [n]) && !StoredAt(store, d + [n])
  }

  ghost predicate Opens(store: seq<Stored>, d: seq<string>, t: seq<string>) {
    exists n :: DirName(store, d, n) && !IsBlank(n) && Below(d, n) == t
  }

  // Listing d and then the directories listed, one comes to list t.
  ghost predicate Reached(store: seq<Stored>, d: seq<string>, t: seq<string>)
    decreases |t|
  {
    t == d || (|t| > |d| && Reached(store, d, t[..|t| - 1]) && Opens(store, t[..|t| - 1], t))
  }

  lemma {:induction false} FirstStep(store: seq<Stored>, d: seq<string>, t: seq<string>) returns (n: string)
    requires Reached(store, d, t) && t != d
    ensures DirName(store, d, n) && !IsBlank(n) && Reached(store, Below(d, n), t)
    decreases |t|
  {
    var u := t[..|t| - 1];
    if u == d {
      n :| DirName(store, d, n) && !IsBlank(n) && Below(d, n) == t;
    } else {
      n := FirstStep(store, d, u);
    }
  }

  lemma {:induction false} StepFirst(store: seq<Stored>, d: seq<string>, n: string, t: seq<string>)
    requires DirName(store, d, n) && !IsBlank(n) && Reached(store, Below(d, n), t)
    ensures Reached(store, d, t)
    decreases |t|
  {
    assert |Below(d, n)| == |d| + 1;
    if t == Below(d, n) {
      assert t[..|t| - 1] == d && Opens(store, d, t);
    } else {
      StepFirst(store, d, n, t[..|t| - 1]);
      assert Opens(store, t[..|t| - 1], t);
    }
  }

  lemma {:induction false} ReachedSteady(store: seq<Stored>, d: seq<string>, t: seq<string>)
    requires Reached(store, d, t) && SteadyDir(d)
    ensures SteadyDir(t)
    decreases |t|
  {
    if t != d {
      var u := t[..|t| - 1];
      ReachedSteady(store, d, u);
      var n :| DirName(store, u, n) && !IsBlank(n) && Below(u, n) == t;
      BelowIsSteady(u, n);
    }
  }

  // No directory that the recursion comes to lists a blank one.
  ghost predicate Ends(store: seq<Stored>, d: seq<string>) {
    forall t, n :: Reached(store, d, t) && DirName(store, t, n) ==> !IsBlank(n)
  }

  ghost predicate Walkable(store: seq<Stored>, dir: string) {
    Keyed(store) && WellFormedDir(dir) && Ends(store, DirSegs(dir))
  }

  /******* The recursion *******/

  function MaxDepth(store: seq<Stored>): (n: nat)
    ensures forall i :: 0 <= i < |store| ==> |Segs(store[i].path)| <= n
  {
    if |store| == 0 then 0
    else
      var n, k := MaxDepth(store[..|store| - 1]), |Segs(store[|store| - 1].path)|;
      if k > n then k else n
  }

  // How many levels there can be below a directory.
  function Height(store: seq<Stored>, dir: string): (n: nat) {
    if |DirSegs(dir)| <= MaxDepth(store) then MaxDepth(store) - |DirSegs(dir)| else 0
  }

  lemma ChildSegs(store: seq<Stored>, dir: string, now: string, e: Entry)
    requires IsChild(store, dir, now, e)
    ensures Without(e.name, '/') && Segs(e.path) == DirSegs(dir) + [e.name]
    ensures e.kind.Directory? ==> DirName(store, DirSegs(dir), e.name) && e == DirEntry(dir, e.name, now)
  {
    var d := DirSegs(dir);
    var i :| 0 <= i < |store| && d + [e.name] <= Segs(store[i].path);
    assert Segs(store[i].path)[|d|] == e.name;
    JoinSplit(store[i].path, '/');
    ChildPathSegs(dir, e.name);
  }

  lemma NextDirectory(store: seq<Stored>, dir: string, now: string, e: Entry)
    requires Walkable(store, dir) && e.kind.Directory? && IsChild(store, dir, now, e)
    ensures !IsBlank(e.name)
    ensures var next := Trimmed(e.path);
            && Walkable(store, next) && DirSegs(next) == Below(DirSegs(dir), e.name)
            && Height(store, next) < Height(store, dir)
  {
    var d := DirSegs(dir);
    ChildSegs(store, dir, now, e);
    assert Reached(store, d, d);
    ChildRead(dir, e.name);
    forall t, n | Reached(store, Below(d, e.name), t) && DirName(store, t, n) ensures !IsBlank(n) {
      StepFirst(store, d, e.name, t);
    }
    var i :| 0 <= i < |store| && d + [e.name] < Segs(store[i].path);
  }

  function Collect(store: seq<Stored>, le: (string, string) -> bool, now: string, path: string, depth: nat)
      : (rows: seq<Row>)
    requires Walkable(store, Trimmed(path))
    decreases Height(store, Trimmed(path)), 1, 0
  {
    ListChildren(store, le, path, now);
    CollectItems(store, le, now, Trimmed(path), List(store, le, path, now), depth)
  }

  function CollectItems(store: seq<Stored>, le: (string, string) -> bool, now: string, dir: string,
                        items: seq<Entry>, depth: nat): (rows: seq<Row>)
    requires Walkable(store, dir) && forall e :: e in items ==> IsChild(store, dir, now, e)
    decreases Height(store, dir), 0, |items|
  {
    if |items| == 0 then []
    else
      CollectItems(store, le, now, dir, items[..|items| - 1], depth)
      + CollectItem(store, le, now, dir, items[|items| - 1], depth)
  }

  // The row of an entry and, if it is a directory, the rows below it.
  function CollectItem(store: seq<Stored>, le: (string, string) -> bool, now: string, dir: string,
                       e: Entry, depth: nat): (rows: seq<Row>)
    requires Walkable(store, dir) && IsChild(store, dir, now, e)
    decreases Height(store, dir), 0, 0
  {
    [Row(e, depth)] +
    if e.kind.Directory? then
      NextDirectory(store, dir, now, e);
      Collect(store, le, now, e.path, depth + 1)
    else []
  }

  lemma CollectItemsNext(store: seq<Stored>, le: (string, string) -> bool, now: string, dir: string,
                         items: seq<Entry>, depth: nat, i: nat)
    requires Walkable(store, dir) && i < |items| && forall e :: e in items ==> IsChild(store, dir, now, e)
    ensures CollectItems(store, le, now, dir, items[..i + 1], depth)
         == CollectItems(store, le, now, dir, items[..i], depth) + CollectItem(store, le, now, dir, items[i], depth)
  {
    var more := items[..i + 1];
    assert more[..|more| - 1] == items[..i] && more[|more| - 1] == items[i];
  }

  method CollectVideoTree(store: seq<Stored>, le: (string, string) -> bool, now: string, path: string, depth: nat)
      returns (rows: seq<Row>)
    requires Walkable(store, Trimmed(path))
    ensures rows == Collect(store, le, now, path, depth)
    decreases Height(store, Trimmed(path)), 1
  {
    var items := ListVideoLibrary(store, le, path, now);
    ListChildren(store, le, path, now);
    rows := [];
    for i := 0 to |items|
      invariant rows == CollectItems(store, le, now, Trimmed(path), items[..i], depth)
    {
      assert items[i] in items;
      CollectItemsNext(store, le, now, Trimmed(path), items, depth, i);
      var own := CollectEntry(store, le, now, Trimmed(path), items[i], depth);
      rows := rows + own;
    }
    assert items[..|items|] == items;
  }

  method CollectEntry(store: seq<Stored>, le: (string, string) -> bool, now: string, dir: string, e: Entry, depth: nat)
      returns (rows: seq<Row>)
    requires Walkable(store, dir) && IsChild(store, dir, now, e)
    ensures rows == CollectItem(store, le, now, dir, e, depth)
    decreases Height(store, dir), 0
  {
    rows := [Row(e, depth)];
    if e.kind.Directory? {
      NextDirectory(store, dir, now, e);
      var below := CollectVideoTree(store, le, now, e.path, depth + 1);
      rows := rows + below;
    }
  }

  /******* When the recursion ends *******/

  // The recursion cut off after a number of levels; None if that cuts anything off.
  function Within(store: seq<Stored>, le: (string, string) -> bool, now: string, path: string, depth: nat,
                  levels: nat): (rows: Option<seq<Row>>)
    decreases levels, 0, 0
  {
    if levels == 0 then None
    else WithinItems(store, le, now, List(store, le, path, now), depth, levels - 1)
  }

  function WithinItems(store: seq<Stored>, le: (string, string) -> bool, now: string, items: seq<Entry>, depth: nat,
                       levels: nat): (rows: Option<seq<Row>>)
    decreases levels, 1, |items|
  {
    if |items| == 0 then Some([])
    else
      var last := items[|items| - 1];
      var front := WithinItems(store, le, now, items[..|items| - 1], depth, levels);
      var below := if last.kind.Directory? then Within(store, le, now, last.path, depth + 1, levels) else Some([]);
      if front.None? || below.None? then None else Some(front.value + ([Row(last, depth)] + below.value))
  }

  lemma {:induction false} CutOff(store: seq<Stored>, le: (string, string) -> bool, now: string, items: seq<Entry>,
                                  depth: nat, levels: nat, e: Entry)
    requires e in items && e.kind.Directory? && Within(store, le, now, e.path, depth + 1, levels).None?
    ensures WithinItems(store, le, now, items, depth, levels).None?
  {
    if items[|items| - 1] != e {
      CutOff(store, le, now, items[..|items| - 1], depth, levels, e);
    }
  }

  lemma CollectUnfolds(store: seq<Stored>, le: (string, string) -> bool, now: string, path: string, depth: nat)
    requires Walkable(store, Trimmed(path))
    ensures var items := List(store, le, path, now);
            && (forall e :: e in items ==> IsChild(store, Trimmed(path), now, e))
            && Collect(store, le, now, path, depth) == CollectItems(store, le, now, Trimmed(path), items, depth)
  {
    ListChildren(store, le, path, now);
  }

  lemma WithinUnfolds(store: seq<Stored>, le: (string, string) -> bool, now: string, path: string, depth: nat,
                      levels: nat)
    requires levels > 0
    ensures Within(store, le, now, path, depth, levels)
         == WithinItems(store, le, now, List(store, le, path, now), depth, levels - 1)
  {
  }

  // If nothing is cut off, the result is that of the recursion.
  lemma {:induction false} LevelsAgree(store: seq<Stored>, le: (string, string) -> bool, now: string, path: string,
                                       depth: nat, levels: nat)
    requires Walkable(store, Trimmed(path)) && Within(store, le, now, path, depth, levels).Some?
    ensures Within(store, le, now, path, depth, levels).value == Collect(store, le, now, path, depth)
    decreases levels, 0, 0
  {
    CollectUnfolds(store, le, now, path, depth);
    WithinUnfolds(store, le, now, path, depth, levels);
    ItemLevelsAgree(store, le, now, Trimmed(path), List(store, le, path, now), depth, levels - 1);
  }

  lemma {:induction false} ItemLevelsAgree(store: seq<Stored>, le: (string, string) -> bool, now: string, dir: string,
                                           items: seq<Entry>, depth: nat, levels: nat)
    requires Walkable(store, dir) && forall e :: e in items ==> IsChild(store, dir, now, e)
    requires WithinItems(store, le, now, items, depth, levels).Some?
    ensures WithinItems(store, le, now, items, depth, levels).value == CollectItems(store, le, now, dir, items, depth)
    decreases levels, 1, |items|
  {
    if |items| > 0 {
      var last := items[|items| - 1];
      ItemLevelsAgree(store, le, now, dir, items[..|items| - 1], depth, levels);
      if last.kind.Directory? {
        NextDirectory(store, dir, now, last);
        LevelsAgree(store, le, now, last.path, depth + 1, levels);
      }
    }
  }

  // A level more than the height is enough.
  lemma {:induction false} EnoughLevels(store: seq<Stored>, le: (string, string) -> bool, now: string, path: string,
                                        depth: nat, levels: nat)
    requires Walkable(store, Trimmed(path)) && levels > Height(store, Trimmed(path))
    ensures Within(store, le, now, path, depth, levels).Some?
    decreases levels, 0, 0
  {
    var items := List(store, le, path, now);
    assert WithinItems(store, le, now, items, depth, levels - 1).Some? by {
      ListChildren(store, le, path, now);
      EnoughForItems(store, le, now, Trimmed(path), items, depth, levels - 1);
    }
  }

  lemma {:induction false} EnoughForItems(store: seq<Stored>, le: (string, string) -> bool, now: string, dir: string,
                                          items: seq<Entry>, depth: nat, levels: nat)
    requires Walkable(store, dir) && levels >= Height(store, dir)
    requires forall e :: e in items ==> IsChild(store, dir, now, e)
    ensures WithinItems(store, le, now, items, depth, levels).Some?
    decreases levels, 1, |items|
  {
    if |items| > 0 {
      var last := items[|items| - 1];
      EnoughForItems(store, le, now, dir, items[..|items| - 1], depth, levels);
      if last.kind.Directory? {
        NextDirectory(store, dir, now, last);
        EnoughLevels(store, le, now, last.path, depth + 1, levels);
      }
    }
  }

  lemma ChildCutOff(store: seq<Stored>, le: (string, string) -> bool, now: string, path: string, depth: nat,
                    levels: nat, e: Entry)
    requires e in List(store, le, path, now) && e.kind.Directory?
    requires Within(store, le, now, e.path, depth + 1, levels).None?
    ensures Within(store, le, now, path, depth, levels + 1).None?
  {
    CutOff(store, le, now, List(store, le, path, now), depth, levels, e);
  }

  lemma NameRead(store: seq<Stored>, dir: string, n: string)
    requires WellFormedDir(dir) && DirName(store, DirSegs(dir), n)
    ensures var next := Trimmed(ChildPath(dir, n));
            DirSegs(next) == Below(DirSegs(dir), n) && WellFormedDir(next)
  {
    ChildSegs(store, dir, "", DirEntry(dir, n, ""));
    ChildRead(dir, n);
  }

  // On the way to a directory that lists a blank one, and then round and round.
  lemma NextTowards(store: seq<Stored>, d: seq<string>, t: seq<string>, blank: string) returns (n: string)
    requires Reached(store, d, t) && DirName(store, t, blank) && IsBlank(blank)
    ensures DirName(store, d, n) && Reached(store, Below(d, n), t)
  {
    if t == d {
      n := blank;
    } else {
      n := FirstStep(store, d, t);
    }
  }

  // From here the recursion comes to a blank directory.
  ghost predicate Stuck(store: seq<Stored>, path: string) {
    WellFormedDir(Trimmed(path)) && !Ends(store, DirSegs(Trimmed(path)))
  }

  lemma StuckBelow(store: seq<Stored>, le: (string, string) -> bool, now: string, path: string) returns (e: Entry)
    requires Keyed(store) && Stuck(store, path)
    ensures e in List(store, le, path, now) && e.kind.Directory? && Stuck(store, e.path)
  {
    var dir := Trimmed(path);
    var t, blank :| Reached(store, DirSegs(dir), t) && DirName(store, t, blank) && IsBlank(blank);
    var n := NextTowards(store, DirSegs(dir), t, blank);
    NameRead(store, dir, n);
    ListChildren(store, le, path, now);
    e := DirEntry(dir, n, now);
  }

  lemma {:induction false} NeverEnough(store: seq<Stored>, le: (string, string) -> bool, now: string, path: string,
                                       depth: nat, levels: nat)
    requires Keyed(store) && Stuck(store, path)
    ensures Within(store, le, now, path, depth, levels).None?
    decreases levels
  {
    if levels > 0 {
      var e := StuckBelow(store, le, now, path);
      NeverEnough(store, le, now, e.path, depth + 1, levels - 1);
      ChildCutOff(store, le, now, path, depth, levels - 1, e);
    }
  }

  // From the root, the recursion ends exactly when it comes to no directory that lists a blank one.
  lemma RecursionEndsIff(store: seq<Stored>, le: (string, string) -> bool, now: string)
    requires Keyed(store)
    ensures (exists levels :: Within(store, le, now, "", 0, levels).Some?) <==> Ends(store, [])
    ensures Ends(store, []) ==>
              forall levels :: Within(store, le, now, "", 0, levels).Some? ==>
                Within(store, le, now, "", 0, levels) == Some(Collect(store, le, now, "", 0))
  {
    if Ends(store, []) {
      EnoughLevels(store, le, now, "", 0, Height(store, "") + 1);
      forall levels | Within(store, le, now, "", 0, levels).Some?
        ensures Within(store, le, now, "", 0, levels) == Some(Collect(store, le, now, "", 0))
      {
        LevelsAgree(store, le, now, "", 0, levels);
      }
    } else {
      forall levels: nat ensures Within(store, le, now, "", 0, levels).None? {
        NeverEnough(store, le, now, "", 0, levels);
      }
    }
  }

  /******* What is collected *******/

  // An entry of a directory that the recursion comes to, at the depth of that directory.
  ghost predicate Found(store: seq<Stored>, now: string, d: seq<string>, depth: nat, r: Row) {
    exists dir :: IsChild(store, dir, now, r.entry) && Reached(store, d, DirSegs(dir))
                  && r.depth == depth + |DirSegs(dir)| - |d|
  }

  ghost predicate FoundFrom(store: seq<Stored>, now: string, d: seq<string>, depth: nat, e: Entry, r: Row) {
    r == Row(e, depth) || (e.kind.Directory? && Found(store, now, Below(d, e.name), depth + 1, r))
  }

  lemma FoundIn(store: seq<Stored>, dir: string, now: string, d: seq<string>, depth: nat, r: Row)
    requires IsChild(store, dir, now, r.entry) && Reached(store, d, DirSegs(dir))
    requires r.depth == depth + |DirSegs(dir)| - |d|
    ensures Found(store, now, d, depth, r)
  {
  }

  lemma FoundChild(store: seq<Stored>, dir: string, now: string, depth: nat, r: Row) returns (e: Entry)
    requires Walkable(store, dir) && Found(store, now, DirSegs(dir), depth, r)
    ensures IsChild(store, dir, now, e) && FoundFrom(store, now, DirSegs(dir), depth, e, r)
  {
    var d := DirSegs(dir);
    var at :| IsChild(store, at, now, r.entry) && Reached(store, d, DirSegs(at))
              && r.depth == depth + |DirSegs(at)| - |d|;
    if DirSegs(at) == d {
      if |d| > 0 {
        SegsInjective(at, dir);
      }
      e := r.entry;
    } else {
      var n := FirstStep(store, d, DirSegs(at));
      e := DirEntry(dir, n, now);
      assert |Below(d, n)| == |d| + 1;
    }
  }

  lemma FoundIff(store: seq<Stored>, dir: string, now: string, depth: nat, r: Row)
    requires Walkable(store, dir)
    ensures Found(store, now, DirSegs(dir), depth, r)
       <==> exists e :: IsChild(store, dir, now, e) && FoundFrom(store, now, DirSegs(dir), depth, e, r)
  {
    var d := DirSegs(dir);
    if Found(store, now, d, depth, r) {
      var e := FoundChild(store, dir, now, depth, r);
    }
    if e :| IsChild(store, dir, now, e) && FoundFrom(store, now, d, depth, e, r) {
      if r == Row(e, depth) {
        assert Reached(store, d, d);
      } else {
        NextDirectory(store, dir, now, e);
        ChildSegs(store, dir, now, e);
        var at :| IsChild(store, at, now, r.entry) && Reached(store, Below(d, e.name), DirSegs(at))
                  && r.depth == depth + 1 + |DirSegs(at)| - |Below(d, e.name)|;
        StepFirst(store, d, e.name, DirSegs(at));
      }
    }
  }

  lemma {:induction false} CollectItemFound(store: seq<Stored>, le: (string, string) -> bool, now: string, dir: string,
                                            e: Entry, depth: nat, r: Row)
    requires Walkable(store, dir) && IsChild(store, dir, now, e)
    ensures r in CollectItem(store, le, now, dir, e, depth) <==> FoundFrom(store, now, DirSegs(dir), depth, e, r)
    decreases Height(store, dir), 0, 0
  {
    if e.kind.Directory? {
      NextDirectory(store, dir, now, e);
      CollectFound(store, le, now, e.path, depth + 1, r);
    }
  }

  ghost predicate FoundAmong(store: seq<Stored>, now: string, d: seq<string>, depth: nat, items: seq<Entry>, r: Row) {
    exists e :: e in items && FoundFrom(store, now, d, depth, e, r)
  }

  lemma FoundAmongLast(store: seq<Stored>, now: string, d: seq<string>, depth: nat, items: seq<Entry>, r: Row)
    requires |items| > 0
    ensures FoundAmong(store, now, d, depth, items, r)
       <==> FoundAmong(store, now, d, depth, items[..|items| - 1], r)
            || FoundFrom(store, now, d, depth, items[|items| - 1], r)
  {
    var init, last := items[..|items| - 1], items[|items| - 1];
    assert items == init + [last];
    forall e ensures e in items <==> e in init || e == last {}
  }

  lemma {:induction false} CollectItemsFound(store: seq<Stored>, le: (string, string) -> bool, now: string, dir: string,
                                             items: seq<Entry>, depth: nat, r: Row)
    requires Walkable(store, dir) && forall e :: e in items ==> IsChild(store, dir, now, e)
    ensures r in CollectItems(store, le, now, dir, items, depth) <==> FoundAmong(store, now, DirSegs(dir), depth, items, r)
    decreases Height(store, dir), 0, |items|
  {
    if |items| > 0 {
      var init, last := items[..|items| - 1], items[|items| - 1];
      CollectItemsFound(store, le, now, dir, init, depth, r);
      CollectItemFound(store, le, now, dir, last, depth, r);
      FoundAmongLast(store, now, DirSegs(dir), depth, items, r);
    }
  }

  // Whatever is stored, the rows are the entries of the directories that the recursion comes to.
  lemma {:induction false} CollectFound(store: seq<Stored>, le: (string, string) -> bool, now: string, path: string,
                                        depth: nat, r: Row)
    requires Walkable(store, Trimmed(path))
    ensures r in Collect(store, le, now, path, depth) <==> Found(store, now, DirSegs(Trimmed(path)), depth, r)
    decreases Height(store, Trimmed(path)), 1, 0
  {
    ListChildren(store, le, path, now);
    CollectItemsFound(store, le, now, Trimmed(path), List(store, le, path, now), depth, r);
    FoundIff(store, Trimmed(path), now, depth, r);
  }

  /******* What is collected from a well-formed store *******/

  lemma SteadyPrefix(d: seq<string>, s: seq<string>)
    requires SteadyDir(s) && d <= s
    ensures SteadyDir(d)
  {
    assert forall i :: 0 <= i < |d| ==> d[i] == s[i];
  }

  lemma SteadyUnder(store: seq<Stored>, d: seq<string>)
    requires WellFormedStore(store) && StoredUnder(store, d)
    ensures SteadyDir(d)
  {
    var i :| 0 <= i < |store| && d < Segs(store[i].path);
    SteadyPrefix(d, Segs(store[i].path)[..|Segs(store[i].path)| - 1]);
  }

  lemma SteadyName(store: seq<Stored>, d: seq<string>, n: string)
    requires WellFormedStore(store) && StoredUnder(store, d + [n])
    ensures SteadyDir(d) && SteadyDir(d + [n]) && |n| > 0 && !IsBlank(n) && Below(d, n) == d + [n]
  {
    SteadyUnder(store, d + [n]);
    SteadyPrefix(d, d + [n]);
    assert Firm((d + [n])[|d|]);
    BelowSteady(d, n);
  }

  lemma WellFormedEnds(store: seq<Stored>, dir: string)
    requires WellFormedStore(store) && WellFormedDir(dir)
    ensures Walkable(store, dir) && Trimmed(dir) == dir
  {
    TrimmedWellFormed(dir);
    forall t, n | Reached(store, DirSegs(dir), t) && DirName(store, t, n) ensures !IsBlank(n) {
      SteadyName(store, t, n);
    }
  }

  // Something is stored below t, and nothing between d and t hides it.
  ghost predicate Descends(store: seq<Stored>, d: seq<string>, t: seq<string>) {
    d < t && StoredUnder(store, t) && forall i :: 0 <= i < |store| ==> !(d < Segs(store[i].path) <= t)
  }

  // The last step of the way to t, in a well-formed store.
  lemma OpensIff(store: seq<Stored>, t: seq<string>)
    requires WellFormedStore(store) && |t| > 0
    ensures Opens(store, t[..|t| - 1], t) <==> StoredUnder(store, t) && !StoredAt(store, t)
  {
    var u, n := t[..|t| - 1], t[|t| - 1];
    assert t == u + [n];
    if Opens(store, u, t) {
      var m :| DirName(store, u, m) && !IsBlank(m) && Below(u, m) == t;
      SteadyName(store, u, m);
    }
    if StoredUnder(store, t) && !StoredAt(store, t) {
      SteadyName(store, u, n);
      assert DirName(store, u, n);
    }
  }

  lemma {:induction false} ReachedIff(store: seq<Stored>, d: seq<string>, t: seq<string>)
    requires WellFormedStore(store)
    ensures Reached(store, d, t) <==> t == d || Descends(store, d, t)
    decreases |t|
  {
    if |t| > |d| {
      ReachedIff(store, d, t[..|t| - 1]);
      OpensIff(store, t);
      if Reached(store, d, t) {
        ReachedDescends(store, d, t[..|t| - 1], t);
      }
      if Descends(store, d, t) {
        DescendsAbove(store, d, t);
      }
    }
  }

  lemma DescendsAbove(store: seq<Stored>, d: seq<string>, t: seq<string>)
    requires Descends(store, d, t)
    ensures !StoredAt(store, t) && (t[..|t| - 1] == d || Descends(store, d, t[..|t| - 1]))
  {
    var u := t[..|t| - 1];
    PrefixInit(d, t);
    var i :| 0 <= i < |store| && t < Segs(store[i].path);
    assert u < Segs(store[i].path);
    forall j | 0 <= j < |store| ensures !(d < Segs(store[j].path) <= u) {
      PrefixInit(Segs(store[j].path), t);
    }
  }

  lemma ReachedDescends(store: seq<Stored>, d: seq<string>, u: seq<string>, t: seq<string>)
    requires u == d || Descends(store, d, u)
    requires |t| > 0 && u == t[..|t| - 1] && StoredUnder(store, t) && !StoredAt(store, t)
    ensures Descends(store, d, t)
  {
    forall i | 0 <= i < |store| ensures !(d < Segs(store[i].path) <= t) {
      PrefixInit(Segs(store[i].path), t);
    }
  }

  // Nothing stored lies strictly between the directory and the entry, to hide the entry.
  ghost predicate Unhidden(store: seq<Stored>, d: seq<string>, s: seq<string>) {
    forall i :: 0 <= i < |store| ==> !(d < Segs(store[i].path) < s)
  }

  ghost predicate IsDirAt(store: seq<Stored>, s: seq<string>, now: string, e: Entry) {
    e.kind.Directory? && e.size == 0 && e.modifiedAt == now && StoredUnder(store, s) && !StoredAt(store, s)
  }

  // A row that belongs below the directory d: a stored file, or an ancestor of one.
  ghost predicate Shows(store: seq<Stored>, now: string, d: seq<string>, depth: nat, r: Row) {
    var s := Segs(r.entry.path);
    && d < s && Unhidden(store, d, s)
    && r.entry.name == s[|s| - 1] && r.depth == depth + |s| - |d| - 1
    && (IsFileIn(store, s, r.entry) || IsDirAt(store, s, now, r.entry))
  }

  lemma FoundShown(store: seq<Stored>, d: seq<string>, now: string, depth: nat, r: Row)
    requires WellFormedStore(store) && Found(store, now, d, depth, r)
    ensures Shows(store, now, d, depth, r)
  {
    var dir :| IsChild(store, dir, now, r.entry) && Reached(store, d, DirSegs(dir))
               && r.depth == depth + |DirSegs(dir)| - |d|;
    var t, s := DirSegs(dir), Segs(r.entry.path);
    ChildSegs(store, dir, now, r.entry);
    ReachedIff(store, d, t);
    forall i | 0 <= i < |store| ensures !(d < Segs(store[i].path) < s) {
      PrefixInit(Segs(store[i].path), s);
    }
  }

  lemma StoredFileNamed(store: seq<Stored>, s: seq<string>)
    requires WellFormedStore(store) && StoredAt(store, s)
    ensures |s| > 0 && |s[|s| - 1]| > 0 && SteadyDir(s[..|s| - 1])
  {
    var i :| 0 <= i < |store| && Segs(store[i].path) == s;
  }

  lemma SteadyAbove(store: seq<Stored>, s: seq<string>)
    requires WellFormedStore(store) && |s| > 0 && (StoredAt(store, s) || StoredUnder(store, s))
    ensures SteadyDir(s[..|s| - 1]) && s[|s| - 1] != ""
  {
    if StoredAt(store, s) {
      StoredFileNamed(store, s);
    } else {
      assert s == s[..|s| - 1] + [s[|s| - 1]];
      SteadyName(store, s[..|s| - 1], s[|s| - 1]);
    }
  }

  lemma ChildByPath(store: seq<Stored>, dir: string, now: string, e: Entry, s: seq<string>)
    requires s == Segs(e.path) && DirSegs(dir) == s[..|s| - 1] && e.name == s[|s| - 1] != "" && Without(e.name, '/')
    requires IsFileIn(store, s, e) || IsDirAt(store, s, now, e)
    ensures IsChild(store, dir, now, e)
  {
    assert DirSegs(dir) + [e.name] == s;
    ChildPathSegs(dir, e.name);
    SegsInjective(e.path, ChildPath(dir, e.name));
  }

  // The directory that holds an entry.
  lemma HoldingDirectory(store: seq<Stored>, now: string, e: Entry, s: seq<string>) returns (dir: string)
    requires WellFormedStore(store) && s == Segs(e.path) && e.name == s[|s| - 1]
    requires IsFileIn(store, s, e) || IsDirAt(store, s, now, e)
    ensures DirSegs(dir) == s[..|s| - 1] && IsChild(store, dir, now, e)
  {
    if IsFileIn(store, s, e) {
      FileInStoredAt(store, s, e);
    }
    SteadyAbove(store, s);
    JoinSplit(e.path, '/');
    DirOf(s[..|s| - 1]);
    dir := Join(s[..|s| - 1], '/');
    ChildByPath(store, dir, now, e, s);
  }

  lemma UnhiddenReached(store: seq<Stored>, d: seq<string>, s: seq<string>)
    requires WellFormedStore(store) && d < s && Unhidden(store, d, s)
    requires StoredAt(store, s) || StoredUnder(store, s)
    ensures Reached(store, d, s[..|s| - 1])
  {
    var t := s[..|s| - 1];
    PrefixInit(d, s);
    forall i | 0 <= i < |store| ensures !(d < Segs(store[i].path) <= t) {
      PrefixInit(Segs(store[i].path), s);
    }
    var i :| 0 <= i < |store| && s <= Segs(store[i].path);
    assert t < Segs(store[i].path);
    ReachedIff(store, d, t);
  }

  lemma ShownFound(store: seq<Stored>, d: seq<string>, now: string, depth: nat, r: Row)
    requires WellFormedStore(store) && Shows(store, now, d, depth, r)
    ensures Found(store, now, d, depth, r)
  {
    var s := Segs(r.entry.path);
    if IsFileIn(store, s, r.entry) {
      FileInStoredAt(store, s, r.entry);
    }
    UnhiddenReached(store, d, s);
    var dir := HoldingDirectory(store, now, r.entry, s);
    FoundIn(store, dir, now, d, depth, r);
  }

  ghost predicate FromChild(store: seq<Stored>, now: string, d: seq<string>, depth: nat, e: Entry, r: Row) {
    r == Row(e, depth) || (e.kind.Directory? && Shows(store, now, d + [e.name], depth + 1, r))
  }

  lemma FoundFromChild(store: seq<Stored>, dir: string, now: string, depth: nat, e: Entry, r: Row)
    requires WellFormedStore(store) && IsChild(store, dir, now, e)
    ensures FoundFrom(store, now, DirSegs(dir), depth, e, r) <==> FromChild(store, now, DirSegs(dir), depth, e, r)
  {
    if e.kind.Directory? {
      ChildSegs(store, dir, now, e);
      SteadyName(store, DirSegs(dir), e.name);
      var next := DirSegs(dir) + [e.name];
      if Found(store, now, next, depth + 1, r) {
        FoundShown(store, next, now, depth + 1, r);
      }
      if Shows(store, now, next, depth + 1, r) {
        ShownFound(store, next, now, depth + 1, r);
      }
    }
  }

  ghost predicate DistinctPaths(rows: seq<Row>) {
    forall i, j :: 0 <= i < j < |rows| ==> rows[i].entry.path != rows[j].entry.path
  }

  predicate Above(a: Row, b: Row) {
    Segs(a.entry.path) < Segs(b.entry.path)
  }

  ghost predicate Apart(a: Row, b: Row) {
    a.entry.path != b.entry.path && !Above(a, b) && !Above(b, a)
  }

  // Rows of different children share no path, and none is above another.
  lemma ChildrenApart(store: seq<Stored>, dir: string, now: string, depth: nat, a: Entry, ra: Row, b: Entry, rb: Row)
    requires Keyed(store) && a != b
    requires IsChild(store, dir, now, a) && FromChild(store, now, DirSegs(dir), depth, a, ra)
    requires IsChild(store, dir, now, b) && FromChild(store, now, DirSegs(dir), depth, b, rb)
    ensures Apart(ra, rb)
  {
    var d := DirSegs(dir);
    ChildSegs(store, dir, now, a);
    ChildSegs(store, dir, now, b);
    if a.name == b.name {
      ChildUnique(store, dir, now, a, b);
    }
    assert (d + [a.name])[|d|] != (d + [b.name])[|d|];
    assert d + [a.name] <= Segs(ra.entry.path) && d + [b.name] <= Segs(rb.entry.path);
  }

  // The rows of one entry: it comes first, and the others are below it.
  lemma ItemRows(store: seq<Stored>, le: (string, string) -> bool, now: string, dir: string, e: Entry, depth: nat)
    requires WellFormedStore(store) && WellFormedDir(dir) && IsChild(store, dir, now, e)
    ensures Walkable(store, dir)
    ensures forall r :: r in CollectItem(store, le, now, dir, e, depth) <==>
              FromChild(store, now, DirSegs(dir), depth, e, r)
    ensures e.kind.Directory? ==>
              && WellFormedDir(e.path) && Walkable(store, e.path) && Trimmed(e.path) == e.path
              && Height(store, e.path) < Height(store, dir)
              && forall r :: r in Collect(store, le, now, e.path, depth + 1) ==> Above(Row(e, depth), r)
  {
    WellFormedEnds(store, dir);
    forall r
      ensures r in CollectItem(store, le, now, dir, e, depth) <==> FromChild(store, now, DirSegs(dir), depth, e, r)
    {
      CollectItemFound(store, le, now, dir, e, depth, r);
      FoundFromChild(store, dir, now, depth, e, r);
    }
    if e.kind.Directory? {
      ChildSegs(store, dir, now, e);
      SteadyName(store, DirSegs(dir), e.name);
      NextDirectory(store, dir, now, e);
      WellFormedEnds(store, e.path);
      forall r | r in Collect(store, le, now, e.path, depth + 1) ensures Above(Row(e, depth), r) {
        CollectFound(store, le, now, e.path, depth + 1, r);
        FoundShown(store, DirSegs(e.path), now, depth + 1, r);
      }
    }
  }

  /******* The order of the rows *******/

  // A directory comes before everything below it, and what is below it stands together.
  ghost predicate PreOrder(rows: seq<Row>) {
    forall i, j :: 0 <= i < |rows| && 0 <= j < |rows| && Above(rows[i], rows[j]) ==>
      i < j && forall k :: i < k < j ==> Above(rows[i], rows[k])
  }

  // Each path once, and as the tree is drawn.
  ghost predicate Drawn(rows: seq<Row>) {
    DistinctPaths(rows) && PreOrder(rows)
  }

  // Rows of one child appended to rows of others, which are neither above nor below them.
  lemma DrawnAppend(a: seq<Row>, b: seq<Row>)
    requires Drawn(a) && Drawn(b)
    requires forall x, y :: x in a && y in b ==> Apart(x, y)
    ensures Drawn(a + b)
  {
    var rows, n := a + b, |a|;
    assert forall i, j :: 0 <= i < n <= j < |rows| ==> rows[i] in a && rows[j] in b && Apart(rows[i], rows[j]);
    forall i, j | 0 <= i < |rows| && 0 <= j < |rows| && Above(rows[i], rows[j])
      ensures i < j && forall k :: i < k < j ==> Above(rows[i], rows[k])
    {
      if i < n && j < n {
        assert a[i] == rows[i] && a[j] == rows[j];
        assert forall k :: i < k < j ==> rows[k] == a[k];
      } else if i >= n && j >= n {
        assert b[i - n] == rows[i] && b[j - n] == rows[j];
        assert forall k :: i < k < j ==> rows[k] == b[k - n];
      }
    }
  }

  lemma DrawnCons(r: Row, rows: seq<Row>)
    requires Drawn(rows) && forall i :: 0 <= i < |rows| ==> Above(r, rows[i])
    ensures Drawn([r] + rows)
  {
    var all := [r] + rows;
    forall i, j | 0 <= i < |all| && 0 <= j < |all| && Above(all[i], all[j])
      ensures i < j && forall k :: i < k < j ==> Above(all[i], all[k])
    {
      if i > 0 && j > 0 {
        assert all[i] == rows[i - 1] && all[j] == rows[j - 1];
        assert forall k :: i < k < j ==> all[k] == rows[k - 1];
      } else if i == 0 {
        assert forall k :: 0 < k < |all| ==> all[k] == rows[k - 1];
      }
    }
  }

  lemma {:induction false} CollectItemDrawn(store: seq<Stored>, le: (string, string) -> bool, now: string, dir: string,
                                            e: Entry, depth: nat)
    requires WellFormedStore(store) && WellFormedDir(dir) && IsChild(store, dir, now, e)
    ensures Walkable(store, dir)
    ensures Drawn(CollectItem(store, le, now, dir, e, depth))
    decreases Height(store, dir), 0, 0
  {
    ItemRows(store, le, now, dir, e, depth);
    if e.kind.Directory? {
      CollectDrawn(store, le, now, e.path, depth + 1);
      DrawnCons(Row(e, depth), Collect(store, le, now, e.path, depth + 1));
    }
  }

  lemma ItemsApart(store: seq<Stored>, le: (string, string) -> bool, now: string, dir: string,
                   items: seq<Entry>, depth: nat)
    requires WellFormedStore(store) && Walkable(store, dir) && |items| > 0 && Distinct(items)
    requires forall e :: e in items ==> IsChild(store, dir, now, e)
    ensures var init, last := items[..|items| - 1], items[|items| - 1];
            forall a, b | a in CollectItems(store, le, now, dir, init, depth)
                          && b in CollectItem(store, le, now, dir, last, depth) :: Apart(a, b)
  {
    var init, last := items[..|items| - 1], items[|items| - 1];
    ItemRows(store, le, now, dir, last, depth);
    forall a, b | a in CollectItems(store, le, now, dir, init, depth)
                  && b in CollectItem(store, le, now, dir, last, depth)
      ensures Apart(a, b)
    {
      CollectItemsFound(store, le, now, dir, init, depth, a);
      var e :| e in init && FoundFrom(store, now, DirSegs(dir), depth, e, a);
      FoundFromChild(store, dir, now, depth, e, a);
      ChildrenApart(store, dir, now, depth, e, a, last, b);
    }
  }

  lemma {:induction false} CollectItemsDrawn(store: seq<Stored>, le: (string, string) -> bool, now: string, dir: string,
                                             items: seq<Entry>, depth: nat)
    requires WellFormedStore(store) && WellFormedDir(dir) && Distinct(items)
    requires forall e :: e in items ==> IsChild(store, dir, now, e)
    ensures Walkable(store, dir)
    ensures Drawn(CollectItems(store, le, now, dir, items, depth))
    decreases Height(store, dir), 0, |items|
  {
    WellFormedEnds(store, dir);
    if |items| > 0 {
      var init, last := items[..|items| - 1], items[|items| - 1];
      CollectItemsDrawn(store, le, now, dir, init, depth);
      CollectItemDrawn(store, le, now, dir, last, depth);
      var front, back := CollectItems(store, le, now, dir, init, depth), CollectItem(store, le, now, dir, last, depth);
      ItemsApart(store, le, now, dir, items, depth);
      DrawnAppend(front, back);
    }
  }

  // The rows come out as the tree is drawn: each directory followed by what it holds.
  lemma {:induction false} CollectDrawn(store: seq<Stored>, le: (string, string) -> bool, now: string, dir: string,
                                        depth: nat)
    requires WellFormedStore(store) && WellFormedDir(dir)
    ensures Trimmed(dir) == dir && Walkable(store, dir)
    ensures Drawn(Collect(store, le, now, dir, depth))
    decreases Height(store, dir), 1, 0
  {
    WellFormedEnds(store, dir);
    ListChildren(store, le, dir, now);
    CollectItemsDrawn(store, le, now, dir, List(store, le, dir, now), depth);
  }

  // Below any directory, exactly the rows that belong there are collected, each path once.
  lemma CollectExact(store: seq<Stored>, le: (string, string) -> bool, now: string, dir: string, depth: nat)
    requires WellFormedStore(store) && WellFormedDir(dir)
    ensures Trimmed(dir) == dir && Walkable(store, dir)
    ensures var rows := Collect(store, le, now, dir, depth);
            && (forall r :: r in rows <==> Shows(store, now, DirSegs(dir), depth, r))
            && DistinctPaths(rows)
  {
    CollectDrawn(store, le, now, dir, depth);
    forall r ensures r in Collect(store, le, now, dir, depth) <==> Shows(store, now, DirSegs(dir), depth, r) {
      CollectFound(store, le, now, dir, depth, r);
      if Shows(store, now, DirSegs(dir), depth, r) {
        ShownFound(store, DirSegs(dir), now, depth, r);
      }
      if Found(store, now, DirSegs(dir), depth, r) {
        FoundShown(store, DirSegs(dir), now, depth, r);
      }
    }
  }

  /******* The whole library *******/

  function Library(store: seq<Stored>, le: (string, string) -> bool, now: string): (rows: seq<Row>)
    requires Walkable(store, "")
  {
    Collect(store, le, now, "", 0)
  }

  // The row of a stored file: at the depth of its path.
  function FileRow(f: Stored): (r: Row) {
    var s := Segs(f.path);
    Row(FileEntry(s[|s| - 1], f), |s| - 1)
  }

  function DirRow(s: seq<string>, now: string): (r: Row)
    requires |s| > 0
  {
    Row(Entry(s[|s| - 1], Join(s, '/'), Directory, 0, now), |s| - 1)
  }

  ghost predicate Hidden(store: seq<Stored>, i: nat)
    requires i < |store|
  {
    exists j :: 0 <= j < |store| && Segs(store[j].path) < Segs(store[i].path)
  }

  ghost predicate PrefixFree(store: seq<Stored>) {
    forall i, j :: 0 <= i < |store| && 0 <= j < |store| ==> !(Segs(store[i].path) < Segs(store[j].path))
  }

  // The recursion comes to the directory of the file, and the file has a name.
  ghost predicate Collected(store: seq<Stored>, i: nat)
    requires i < |store|
  {
    var s := Segs(store[i].path);
    Reached(store, [], s[..|s| - 1]) && s[|s| - 1] != ""
  }

  // Whatever else is stored, this is when a file is collected.
  lemma FileCollectedIff(store: seq<Stored>, le: (string, string) -> bool, now: string, i: nat)
    requires Walkable(store, "") && i < |store|
    ensures FileRow(store[i]) in Library(store, le, now) <==> Collected(store, i)
  {
    var r, s := FileRow(store[i]), Segs(store[i].path);
    var t := s[..|s| - 1];
    assert s == t + [r.entry.name];
    CollectFound(store, le, now, "", 0, r);
    if Collected(store, i) {
      ReachedSteady(store, [], t);
      JoinSplit(store[i].path, '/');
      DirOf(t);
      assert IsFileIn(store, s, r.entry);
      assert IsChild(store, Join(t, '/'), now, r.entry);
    }
    if Found(store, now, [], 0, r) {
      var dir :| IsChild(store, dir, now, r.entry) && Reached(store, [], DirSegs(dir)) && r.depth == |DirSegs(dir)|;
      ChildSegs(store, dir, now, r.entry);
      assert DirSegs(dir) == t;
    }
  }

  // In a well-formed store, a file is collected unless a file is stored at one of its ancestors.
  lemma CollectedUnlessHidden(store: seq<Stored>, i: nat)
    requires WellFormedStore(store) && i < |store|
    ensures Walkable(store, "") && (Collected(store, i) <==> !Hidden(store, i))
  {
    WellFormedEnds(store, "");
    var s := Segs(store[i].path);
    var t := s[..|s| - 1];
    ReachedIff(store, [], t);
    assert StoredUnder(store, t) by {
      assert t < Segs(store[i].path);
    }
    assert forall j :: 0 <= j < |store| ==> ([] < Segs(store[j].path) <= t <==> Segs(store[j].path) < s);
  }

  ghost predicate NothingLost(store: seq<Stored>, le: (string, string) -> bool, now: string) {
    Walkable(store, "") && forall i :: 0 <= i < |store| ==> FileRow(store[i]) in Library(store, le, now)
  }

  lemma CollectedWellFormed(store: seq<Stored>, i: nat)
    requires i < |store| && Collected(store, i)
    ensures WellFormed(store[i].path)
  {
    ReachedSteady(store, [], Segs(store[i].path)[..|Segs(store[i].path)| - 1]);
  }

  lemma NotHiddenIff(store: seq<Stored>)
    ensures PrefixFree(store) <==> forall i :: 0 <= i < |store| ==> !Hidden(store, i)
  {
    forall i | 0 <= i < |store|
      ensures Hidden(store, i) <==> exists j :: 0 <= j < |store| && Segs(store[j].path) < Segs(store[i].path)
    {
    }
  }

  // For any store, the recursion ends and loses no file exactly when every stored path is well formed
  // and none is a proper prefix of another.
  lemma NothingLostIff(store: seq<Stored>, le: (string, string) -> bool, now: string)
    requires Keyed(store)
    ensures NothingLost(store, le, now) <==> WellFormedStore(store) && PrefixFree(store)
  {
    NotHiddenIff(store);
    if NothingLost(store, le, now) {
      forall i | 0 <= i < |store| ensures WellFormed(store[i].path) {
        FileCollectedIff(store, le, now, i);
        CollectedWellFormed(store, i);
      }
    }
    if WellFormedStore(store) {
      WellFormedEnds(store, "");
      forall i | 0 <= i < |store| ensures FileRow(store[i]) in Library(store, le, now) <==> !Hidden(store, i) {
        CollectedUnlessHidden(store, i);
        FileCollectedIff(store, le, now, i);
      }
    }
  }

  ghost predicate IsStoredFile(store: seq<Stored>, r: Row) {
    exists i :: 0 <= i < |store| && r == FileRow(store[i])
  }

  ghost predicate IsAncestor(store: seq<Stored>, now: string, r: Row) {
    && r == DirRow(Segs(r.entry.path), now)
    && exists i :: 0 <= i < |store| && Segs(r.entry.path) < Segs(store[i].path)
  }

  lemma RowOrigin(store: seq<Stored>, now: string, r: Row)
    requires Found(store, now, [], 0, r)
    ensures if r.entry.kind.File? then IsStoredFile(store, r) else IsAncestor(store, now, r)
  {
    var dir :| IsChild(store, dir, now, r.entry) && Reached(store, [], DirSegs(dir)) && r.depth == |DirSegs(dir)|;
    var s := DirSegs(dir) + [r.entry.name];
    ChildSegs(store, dir, now, r.entry);
    JoinSplit(r.entry.path, '/');
    if r.entry.kind.File? {
      var i :| 0 <= i < |store| && Segs(store[i].path) == s && r.entry == FileEntry(r.entry.name, store[i]);
      assert r == FileRow(store[i]);
    }
  }

  // Whatever is stored, every row is the row of a stored file or of a proper ancestor of one.
  lemma NothingInvented(store: seq<Stored>, le: (string, string) -> bool, now: string)
    requires Walkable(store, "")
    ensures forall r :: r in Library(store, le, now) ==>
              if r.entry.kind.File? then IsStoredFile(store, r) else IsAncestor(store, now, r)
  {
    forall r | r in Library(store, le, now)
      ensures if r.entry.kind.File? then IsStoredFile(store, r) else IsAncestor(store, now, r)
    {
      CollectFound(store, le, now, "", 0, r);
      RowOrigin(store, now, r);
    }
  }

  // In a prefix-free store every proper ancestor of a stored file is collected as a directory.
  lemma AncestorsCollected(store: seq<Stored>, le: (string, string) -> bool, now: string, i: nat, k: nat)
    requires WellFormedStore(store) && PrefixFree(store)
    requires i < |store| && 0 < k < |Segs(store[i].path)|
    ensures Walkable(store, "")
    ensures DirRow(Segs(store[i].path)[..k], now) in Library(store, le, now)
  {
    CollectExact(store, le, now, "", 0);
    AncestorShown(store, now, i, k);
  }

  lemma PrefixTransitive(q: seq<string>, s: seq<string>, path: seq<string>)
    requires q <= s && s < path
    ensures q < path
  {
  }

  lemma AncestorUnhidden(store: seq<Stored>, s: seq<string>, i: nat)
    requires PrefixFree(store) && i < |store| && s < Segs(store[i].path)
    ensures StoredUnder(store, s) && !StoredAt(store, s) && Unhidden(store, [], s)
  {
    forall j | 0 <= j < |store| ensures !(Segs(store[j].path) <= s) {
      if Segs(store[j].path) <= s {
        PrefixTransitive(Segs(store[j].path), s, Segs(store[i].path));
      }
    }
  }

  lemma AncestorShown(store: seq<Stored>, now: string, i: nat, k: nat)
    requires PrefixFree(store) && i < |store| && 0 < k < |Segs(store[i].path)|
    ensures Shows(store, now, [], 0, DirRow(Segs(store[i].path)[..k], now))
  {
    var s := Segs(store[i].path)[..k];
    JoinSplit(store[i].path, '/');
    SplitJoin(s, '/');
    AncestorUnhidden(store, s, i);
  }

  // A file stored above another hides it.
  lemma HiddenFileLost(le: (string, string) -> bool, now: string)
    ensures !NothingLost([Stored("a", 0, now), Stored("a/b", 0, now)], le, now)
  {
    var store := [Stored("a", 0, now), Stored("a/b", 0, now)];
    NothingLostIff(store, le, now);
    StartsWithIff("a", "a/b");
    assert Segs(store[0].path) < Segs(store[1].path);
  }

  /******* When nothing is collected twice *******/

  ghost predicate ListsSomething(store: seq<Stored>, d: seq<string>) {
    exists n :: n != "" && (StoredAt(store, d + [n]) || StoredUnder(store, d + [n]))
  }

  // Two directories listed in t are read as one, and there is something in it.
  ghost predicate Ambiguous(store: seq<Stored>, t: seq<string>, n: string, m: string) {
    && n != m && DirName(store, t, n) && DirName(store, t, m)
    && Below(t, n) == Below(t, m) && ListsSomething(store, Below(t, n))
  }

  ghost predicate Unambiguous(store: seq<Stored>, d: seq<string>) {
    forall t, n, m :: Reached(store, d, t) ==> !Ambiguous(store, t, n, m)
  }

  lemma {:induction false} ReachedIsBelow(store: seq<Stored>, d: seq<string>, t: seq<string>)
    requires Reached(store, d, t)
    ensures d <= t
    decreases |t|
  {
    if t != d {
      ReachedIsBelow(store, d, t[..|t| - 1]);
      var n :| DirName(store, t[..|t| - 1], n) && !IsBlank(n) && Below(t[..|t| - 1], n) == t;
    }
  }

  // A row below a directory has a path that starts with it.
  lemma RowBelow(store: seq<Stored>, le: (string, string) -> bool, now: string, path: string, depth: nat, r: Row)
    requires Walkable(store, Trimmed(path)) && r in Collect(store, le, now, path, depth)
    ensures DirSegs(Trimmed(path)) < Segs(r.entry.path)
  {
    var d := DirSegs(Trimmed(path));
    CollectFound(store, le, now, path, depth, r);
    var dir :| IsChild(store, dir, now, r.entry) && Reached(store, d, DirSegs(dir))
               && r.depth == depth + |DirSegs(dir)| - |d|;
    ReachedIsBelow(store, d, DirSegs(dir));
    ChildSegs(store, dir, now, r.entry);
  }

  lemma ChildIsListed(store: seq<Stored>, dir: string, now: string, e: Entry)
    requires IsChild(store, dir, now, e)
    ensures ListsSomething(store, DirSegs(dir))
  {
    if e.kind.File? {
      FileInStoredAt(store, DirSegs(dir) + [e.name], e);
    }
  }

  // What is collected below a directory comes from something listed in it.
  lemma RowMeansListed(store: seq<Stored>, le: (string, string) -> bool, now: string, path: string, depth: nat, r: Row)
    requires Walkable(store, Trimmed(path)) && r in Collect(store, le, now, path, depth)
    ensures ListsSomething(store, DirSegs(Trimmed(path)))
  {
    CollectFound(store, le, now, path, depth, r);
    var e := FoundChild(store, Trimmed(path), now, depth, r);
    ChildIsListed(store, Trimmed(path), now, e);
  }

  // The row is that of the entry, or lies below the directory that the entry is read as.
  lemma RowOfItem(store: seq<Stored>, le: (string, string) -> bool, now: string, dir: string, e: Entry, depth: nat, r: Row)
    requires Walkable(store, dir) && IsChild(store, dir, now, e) && r in CollectItem(store, le, now, dir, e, depth)
    ensures || (r == Row(e, depth) && Segs(r.entry.path) == DirSegs(dir) + [e.name])
            || (&& e.kind.Directory? && |Below(DirSegs(dir), e.name)| == |DirSegs(dir)| + 1
                && Below(DirSegs(dir), e.name) < Segs(r.entry.path)
                && ListsSomething(store, Below(DirSegs(dir), e.name)))
  {
    ChildSegs(store, dir, now, e);
    if r != Row(e, depth) {
      NextDirectory(store, dir, now, e);
      RowBelow(store, le, now, e.path, depth + 1, r);
      RowMeansListed(store, le, now, e.path, depth + 1, r);
    }
  }

  lemma SameLengthPrefixes(a: seq<string>, b: seq<string>, s: seq<string>)
    requires |a| == |b| && a <= s && b <= s
    ensures a == b
  {
  }

  lemma RowsOfItemsApart(store: seq<Stored>, le: (string, string) -> bool, now: string, dir: string, a: Entry, b: Entry,
                         depth: nat, x: Row, y: Row)
    requires Walkable(store, dir) && Unambiguous(store, DirSegs(dir)) && a != b
    requires IsChild(store, dir, now, a) && x in CollectItem(store, le, now, dir, a, depth)
    requires IsChild(store, dir, now, b) && y in CollectItem(store, le, now, dir, b, depth)
    ensures x.entry.path != y.entry.path
  {
    var d := DirSegs(dir);
    RowOfItem(store, le, now, dir, a, depth, x);
    RowOfItem(store, le, now, dir, b, depth, y);
    if a.name == b.name {
      ChildUnique(store, dir, now, a, b);
    }
    ChildSegs(store, dir, now, a);
    ChildSegs(store, dir, now, b);
    assert (d + [a.name])[|d|] != (d + [b.name])[|d|];
    assert Reached(store, d, d) && !Ambiguous(store, d, a.name, b.name);
    if x.entry.path == y.entry.path && x != Row(a, depth) && y != Row(b, depth) {
      SameLengthPrefixes(Below(d, a.name), Below(d, b.name), Segs(x.entry.path));
    }
  }

  lemma DistinctAppend(a: seq<Row>, b: seq<Row>)
    ensures DistinctPaths(a + b)
       <==> DistinctPaths(a) && DistinctPaths(b) && forall x, y :: x in a && y in b ==> x.entry.path != y.entry.path
  {
    var rows, n := a + b, |a|;
    if DistinctPaths(rows) {
      forall i, j | 0 <= i < j < |a| ensures a[i].entry.path != a[j].entry.path {
        assert rows[i] == a[i] && rows[j] == a[j];
      }
      forall i, j | 0 <= i < j < |b| ensures b[i].entry.path != b[j].entry.path {
        assert rows[n + i] == b[i] && rows[n + j] == b[j];
      }
      forall x, y | x in a && y in b ensures x.entry.path != y.entry.path {
        var i :| 0 <= i < |a| && a[i] == x;
        var j :| 0 <= j < |b| && b[j] == y;
        assert rows[i] == x && rows[n + j] == y;
      }
    } else {
      var i, j :| 0 <= i < j < |rows| && rows[i].entry.path == rows[j].entry.path;
      if j < n {
        assert a[i] == rows[i] && a[j] == rows[j];
      } else if i >= n {
        assert b[i - n] == rows[i] && b[j - n] == rows[j];
      } else {
        assert rows[i] in a && rows[j] in b;
      }
    }
  }

  lemma {:induction false} ItemOnce(store: seq<Stored>, le: (string, string) -> bool, now: string, dir: string,
                                    e: Entry, depth: nat)
    requires Walkable(store, dir) && Unambiguous(store, DirSegs(dir)) && IsChild(store, dir, now, e)
    ensures DistinctPaths(CollectItem(store, le, now, dir, e, depth))
    decreases Height(store, dir), 0, 0
  {
    if e.kind.Directory? {
      NextDirectory(store, dir, now, e);
      ChildSegs(store, dir, now, e);
      UnambiguousBelow(store, DirSegs(dir), e.name);
      CollectOnce(store, le, now, e.path, depth + 1);
      var below := Collect(store, le, now, e.path, depth + 1);
      forall r | r in below ensures r.entry.path != e.path {
        RowBelow(store, le, now, e.path, depth + 1, r);
      }
      DistinctAppend([Row(e, depth)], below);
    }
  }

  lemma UnambiguousBelow(store: seq<Stored>, d: seq<string>, n: string)
    requires Unambiguous(store, d) && DirName(store, d, n) && !IsBlank(n)
    ensures Unambiguous(store, Below(d, n))
  {
    forall t, a, b | Reached(store, Below(d, n), t) ensures !Ambiguous(store, t, a, b) {
      StepFirst(store, d, n, t);
    }
  }

  lemma FromSomeItem(store: seq<Stored>, le: (string, string) -> bool, now: string, dir: string, items: seq<Entry>,
                     depth: nat, r: Row) returns (e: Entry)
    requires Walkable(store, dir) && forall e :: e in items ==> IsChild(store, dir, now, e)
    requires r in CollectItems(store, le, now, dir, items, depth)
    ensures e in items && r in CollectItem(store, le, now, dir, e, depth)
  {
    CollectItemsFound(store, le, now, dir, items, depth, r);
    e :| e in items && FoundFrom(store, now, DirSegs(dir), depth, e, r);
    CollectItemFound(store, le, now, dir, e, depth, r);
  }

  lemma {:induction false} ItemsOnce(store: seq<Stored>, le: (string, string) -> bool, now: string, dir: string,
                                     items: seq<Entry>, depth: nat)
    requires Walkable(store, dir) && Unambiguous(store, DirSegs(dir)) && Distinct(items)
    requires forall e :: e in items ==> IsChild(store, dir, now, e)
    ensures DistinctPaths(CollectItems(store, le, now, dir, items, depth))
    decreases Height(store, dir), 0, |items|
  {
    if |items| > 0 {
      var init, last := items[..|items| - 1], items[|items| - 1];
      ItemsOnce(store, le, now, dir, init, depth);
      ItemOnce(store, le, now, dir, last, depth);
      var front, back := CollectItems(store, le, now, dir, init, depth), CollectItem(store, le, now, dir, last, depth);
      forall x, y | x in front && y in back ensures x.entry.path != y.entry.path {
        var e := FromSomeItem(store, le, now, dir, init, depth, x);
        RowsOfItemsApart(store, le, now, dir, e, last, depth, x, y);
      }
      DistinctAppend(front, back);
    }
  }

  lemma {:induction false} CollectOnce(store: seq<Stored>, le: (string, string) -> bool, now: string, path: string,
                                       depth: nat)
    requires Walkable(store, Trimmed(path)) && Unambiguous(store, DirSegs(Trimmed(path)))
    ensures DistinctPaths(Collect(store, le, now, path, depth))
    decreases Height(store, Trimmed(path)), 1, 0
  {
    ListChildren(store, le, path, now);
    ItemsOnce(store, le, now, Trimmed(path), List(store, le, path, now), depth);
  }

  // An item whose rows are not distinct, or two items that share a path, spoil the whole.
  lemma {:induction false} ItemsTwice(store: seq<Stored>, le: (string, string) -> bool, now: string, dir: string,
                                      items: seq<Entry>, depth: nat, a: Entry, b: Entry)
    requires Walkable(store, dir) && forall e :: e in items ==> IsChild(store, dir, now, e)
    requires a in items && b in items
    requires if a == b then !DistinctPaths(CollectItem(store, le, now, dir, a, depth))
             else SharePath(CollectItem(store, le, now, dir, a, depth), CollectItem(store, le, now, dir, b, depth))
    ensures !DistinctPaths(CollectItems(store, le, now, dir, items, depth))
    decreases |items|
  {
    var init, last := items[..|items| - 1], items[|items| - 1];
    var front, back := CollectItems(store, le, now, dir, init, depth), CollectItem(store, le, now, dir, last, depth);
    DistinctAppend(front, back);
    assert items == init + [last];
    if a in init && b in init {
      ItemsTwice(store, le, now, dir, init, depth, a, b);
    } else if a != b {
      var x, y :| x in CollectItem(store, le, now, dir, a, depth) && y in CollectItem(store, le, now, dir, b, depth)
                  && x.entry.path == y.entry.path;
      if a == last {
        ItemRowsIncluded(store, le, now, dir, init, depth, b, y);
      } else {
        ItemRowsIncluded(store, le, now, dir, init, depth, a, x);
      }
    }
  }

  ghost predicate SharePath(a: seq<Row>, b: seq<Row>) {
    exists x, y :: x in a && y in b && x.entry.path == y.entry.path
  }

  lemma ItemRowsIncluded(store: seq<Stored>, le: (string, string) -> bool, now: string, dir: string, items: seq<Entry>,
                         depth: nat, e: Entry, r: Row)
    requires Walkable(store, dir) && e in items && forall e :: e in items ==> IsChild(store, dir, now, e)
    requires r in CollectItem(store, le, now, dir, e, depth)
    ensures r in CollectItems(store, le, now, dir, items, depth)
  {
    CollectItemFound(store, le, now, dir, e, depth, r);
    CollectItemsFound(store, le, now, dir, items, depth, r);
  }

  // The entry that stands for a name which is listed.
  lemma ListedChild(store: seq<Stored>, dir: string, now: string) returns (e: Entry)
    requires ListsSomething(store, DirSegs(dir))
    ensures IsChild(store, dir, now, e)
  {
    var n :| n != "" && (StoredAt(store, DirSegs(dir) + [n]) || StoredUnder(store, DirSegs(dir) + [n]));
    if StoredAt(store, DirSegs(dir) + [n]) {
      var i :| 0 <= i < |store| && Segs(store[i].path) == DirSegs(dir) + [n];
      e := FileEntry(n, store[i]);
      assert IsFileIn(store, DirSegs(dir) + [n], e);
    } else {
      e := DirEntry(dir, n, now);
    }
  }

  lemma DirSegsInjective(a: string, b: string)
    requires DirSegs(a) == DirSegs(b)
    ensures a == b
  {
    if |a| > 0 && |b| > 0 {
      SegsInjective(a, b);
    }
  }

  // Two directories that are read as one share the rows below it.
  lemma AmbiguousShares(store: seq<Stored>, le: (string, string) -> bool, now: string, dir: string, depth: nat,
                        n: string, m: string)
    requires Walkable(store, dir) && Ambiguous(store, DirSegs(dir), n, m)
    ensures var a, b := DirEntry(dir, n, now), DirEntry(dir, m, now);
            && IsChild(store, dir, now, a) && IsChild(store, dir, now, b) && a != b
            && SharePath(CollectItem(store, le, now, dir, a, depth), CollectItem(store, le, now, dir, b, depth))
  {
    var a, b := DirEntry(dir, n, now), DirEntry(dir, m, now);
    NextDirectory(store, dir, now, a);
    NextDirectory(store, dir, now, b);
    DirSegsInjective(Trimmed(a.path), Trimmed(b.path));
    var e := ListedChild(store, Trimmed(a.path), now);
    var r := Row(e, depth + 1);
    RowOfChild(store, le, now, a.path, depth + 1, e);
    RowOfChild(store, le, now, b.path, depth + 1, e);
    assert r in CollectItem(store, le, now, dir, a, depth) && r in CollectItem(store, le, now, dir, b, depth);
  }

  lemma RowOfChild(store: seq<Stored>, le: (string, string) -> bool, now: string, path: string, depth: nat, e: Entry)
    requires Walkable(store, Trimmed(path)) && IsChild(store, Trimmed(path), now, e)
    ensures Row(e, depth) in Collect(store, le, now, path, depth)
  {
    var d := DirSegs(Trimmed(path));
    assert Reached(store, d, d);
    FoundIn(store, Trimmed(path), now, d, depth, Row(e, depth));
    CollectFound(store, le, now, path, depth, Row(e, depth));
  }

  lemma {:induction false} CollectedTwice(store: seq<Stored>, le: (string, string) -> bool, now: string, path: string,
                                          depth: nat, t: seq<string>, n: string, m: string)
    requires Walkable(store, Trimmed(path)) && Reached(store, DirSegs(Trimmed(path)), t) && Ambiguous(store, t, n, m)
    ensures !DistinctPaths(Collect(store, le, now, path, depth))
    decreases |t| - |DirSegs(Trimmed(path))|
  {
    var dir := Trimmed(path);
    CollectUnfolds(store, le, now, path, depth);
    ListChildren(store, le, path, now);
    if t == DirSegs(dir) {
      AmbiguousShares(store, le, now, dir, depth, n, m);
      ItemsTwice(store, le, now, dir, List(store, le, path, now), depth, DirEntry(dir, n, now), DirEntry(dir, m, now));
    } else {
      var k := FirstStep(store, DirSegs(dir), t);
      var e := DirEntry(dir, k, now);
      NextDirectory(store, dir, now, e);
      CollectedTwice(store, le, now, e.path, depth + 1, t, n, m);
      DistinctAppend([Row(e, depth)], Collect(store, le, now, e.path, depth + 1));
      ItemsTwice(store, le, now, dir, List(store, le, path, now), depth, e, e);
    }
  }

  // For any store, no path is collected twice exactly when no directory that the recursion comes to
  // lists two directories that are read as one with something in it.
  lemma CollectedOnceIff(store: seq<Stored>, le: (string, string) -> bool, now: string)
    requires Walkable(store, "")
    ensures DistinctPaths(Library(store, le, now)) <==> Unambiguous(store, [])
  {
    if Unambiguous(store, []) {
      CollectOnce(store, le, now, "", 0);
    } else {
      var t, n, m :| Reached(store, [], t) && Ambiguous(store, t, n, m);
      CollectedTwice(store, le, now, "", 0, t, n, m);
    }
  }

  lemma WellFormedUnambiguous(store: seq<Stored>)
    requires WellFormedStore(store)
    ensures Walkable(store, "") && Unambiguous(store, [])
  {
    WellFormedEnds(store, "");
    forall t, n, m | Reached(store, [], t) ensures !Ambiguous(store, t, n, m) {
      if DirName(store, t, n) && DirName(store, t, m) {
        SteadyName(store, t, n);
        SteadyName(store, t, m);
        assert (t + [n])[|t|] == n && (t + [m])[|t|] == m;
      }
    }
  }

  // A store without blank segments can be walked.
  lemma NoBlanksEnds(store: seq<Stored>)
    requires Keyed(store)
    requires forall i, j :: 0 <= i < |store| && 0 <= j < |Segs(store[i].path)| ==> !IsBlank(Segs(store[i].path)[j])
    ensures Walkable(store, "")
  {
    forall t, n | Reached(store, [], t) && DirName(store, t, n) ensures !IsBlank(n) {
      var i :| 0 <= i < |store| && t + [n] < Segs(store[i].path);
      assert Segs(store[i].path)[|t|] == n;
    }
  }

  // With `a/x` and `a /y` stored, the root lists `a` and `a `; both are read as `a`, and `a/x` is
  // collected twice.
  lemma TwinsCollectedTwice(le: (string, string) -> bool, now: string)
    ensures var store := [Stored("a/x", 0, now), Stored("a /y", 0, now)];
            Walkable(store, "") && !DistinctPaths(Library(store, le, now))
  {
    var store := [Stored("a/x", 0, now), Stored("a /y", 0, now)];
    assert "a" + "/" + "x" == "a/x" && "a " + "/" + "y" == "a /y";
    TwoSegs("a", "x");
    TwoSegs("a ", "y");
    TwinsWalkable(store);
    TwinsAmbiguous(store);
    CollectedOnceIff(store, le, now);
  }

  ghost predicate Twins(store: seq<Stored>) {
    |store| == 2 && Segs(store[0].path) == ["a", "x"] && Segs(store[1].path) == ["a ", "y"]
  }

  lemma NotBlank(s: string)
    requires |s| > 0 && !IsSpace(s[0])
    ensures !IsBlank(s)
  {
  }

  lemma TwinsWalkable(store: seq<Stored>)
    requires Twins(store)
    ensures Walkable(store, "")
  {
    NotBlank("a");
    NotBlank("x");
    NotBlank("a ");
    NotBlank("y");
    assert ["a", "x"][1] == "x" && ["a ", "y"][1] == "y" && "x"[0] != "y"[0];
    NoBlanksEnds(store);
  }

  lemma TwinName(store: seq<Stored>, i: nat, dir: string, name: string)
    requires Twins(store) && i < 2 && Segs(store[i].path) == [dir, name] && |dir| > 0
    ensures DirName(store, [], dir) && StoredAt(store, [dir] + [name])
  {
    assert [] + [dir] == [dir] && [dir] + [name] == [dir, name];
    assert [dir] < Segs(store[i].path);
    assert forall j :: 0 <= j < |store| ==> |Segs(store[j].path)| == 2;
  }

  lemma TwinsAmbiguous(store: seq<Stored>)
    requires Twins(store)
    ensures !Unambiguous(store, [])
  {
    TwinName(store, 0, "a", "x");
    TwinName(store, 1, "a ", "y");
    TrimmedTwin();
    assert ListsSomething(store, ["a"]);
    assert |"a"| != |"a "|;
    assert Reached(store, [], []) && Ambiguous(store, [], "a", "a ");
  }

  lemma TwoSegs(dir: string, name: string)
    requires Without(dir, '/') && Without(name, '/')
    ensures Segs(dir + "/" + name) == [dir, name]
  {
    SplitConcat(dir, name, '/');
    SplitWithout(dir, '/');
    SplitWithout(name, '/');
  }

  lemma TrimmedTwin()
    ensures Below([], "a") == Below([], "a ") == ["a"]
  {
    assert !IsSpace("a"[0]) && !IsSpace("a "[0]) && IsSpace(' ');
    assert "a " == [] + "a" + " ";
    StripPadded([], "a", " ", IsSpace);
    StripBare("a", IsSpace);
  }
}
