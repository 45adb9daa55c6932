/**
 The video store of the mock control plane: a flat, insertion-ordered object from path to file.
 Directories are not stored; a listing invents them from the prefixes of the keys.
 */
module VideoStore {
  import opened Options
  import opened Strings
  import opened Sorting
  import opened LibraryPaths
  import opened StorePaths

  datatype Stored = Stored(path: string, size: nat, modifiedAt: string)

  datatype Kind = Directory | File

  datatype Entry = Entry(name: string, path: string, kind: Kind, size: nat, modifiedAt: string)

  ghost predicate Keyed(store: seq<Stored>) {
    forall i, j :: 0 <= i < j < |store| ==> store[i].path != store[j].path
  }

  // Every file has a name, and every directory on the way to it survives the trimming of a listing.
  ghost predicate WellFormedStore(store: seq<Stored>) {
    Keyed(store) && forall i :: 0 <= i < |store| ==> WellFormed(store[i].path)
  }

  function FileEntry(name: string, f: Stored): (e: Entry) {
    Entry(name, f.path, File, f.size, f.modifiedAt)
  }

  function DirEntry(dir: string, name: string, now: string): (e: Entry) {
    Entry(name, ChildPath(dir, name), Directory, 0, now)
  }

  /******* Listing a directory *******/

  // A JavaScript Map: keys in the order of their first insertion.
  datatype Items = Items(order: seq<string>, at: map<string, Entry>) {
    function Set(name: string, e: Entry): (r: Items) {
      Items(if name in at then order else order + [name], at[name := e])
    }

    ghost predicate Valid() {
      Distinct(order) && forall n :: n in order <==> n in at
    }

    function Values(): (r: seq<Entry>)
      requires forall n :: n in order ==> n in at
      ensures |r| == |order|
      ensures forall i :: 0 <= i < |r| ==> r[i] == at[order[i]]
    {
      seq(|order|, i requires 0 <= i < |order| => assert order[i] in order; at[order[i]])
    }
  }

  // The loop body of the listing, for one stored file.
  function AddFile(items: Items, dir: string, f: Stored, now: string): (r: Items) {
    if |dir| > 0 && (f.path == dir || !(dir + "/" <= f.path)) then items
    else
      var remainder := if |dir| > 0 then f.path[|dir| + 1..] else f.path;
      var parts := Split(remainder, '/');
      var name := parts[0];
      if |name| == 0 then items
      else if |parts| > 1 then
        if name in items.at then items else items.Set(name, DirEntry(dir, name, now))
      else items.Set(name, FileEntry(name, f))
  }

  function ItemsByName(store: seq<Stored>, dir: string, now: string): (r: Items) {
    if |store| == 0 then Items([], map[])
    else AddFile(ItemsByName(store[..|store| - 1], dir, now), dir, store[|store| - 1], now)
  }

  // Directories first, then by name.
  predicate Before(le: (string, string) -> bool, a: Entry, b: Entry) {
    if a.kind != b.kind then a.kind.Directory? else le(a.name, b.name)
  }

  function EntryOrder(le: (string, string) -> bool): (r: (Entry, Entry) -> bool) {
    (a, b) => Before(le, a, b)
  }

  lemma {:induction false} ItemsValid(store: seq<Stored>, dir: string, now: string)
    ensures ItemsByName(store, dir, now).Valid() && "" !in ItemsByName(store, dir, now).at
  {
    if |store| > 0 {
      ItemsValid(store[..|store| - 1], dir, now);
    }
  }

  function List(store: seq<Stored>, le: (string, string) -> bool, path: string, now: string): (r: seq<Entry>) {
    var items := ItemsByName(store, Trimmed(path), now);
    ItemsValid(store, Trimmed(path), now);
    SortBy(EntryOrder(le), items.Values())
  }

  method ListVideoLibrary(store: seq<Stored>, le: (string, string) -> bool, path: string, now: string)
      returns (r: seq<Entry>)
    ensures r == List(store, le, path, now)
  {
    var dir := Trimmed(path);
    var items := Items([], map[]);
    for i := 0 to |store|
      invariant items == ItemsByName(store[..i], dir, now)
    {
      assert store[..i + 1][..i] == store[..i];
      var path := store[i].path;
      if dir != "" && (path == dir || !(dir + "/" <= path)) {
        continue;
      }
      var parts := Split(if dir != "" then path[|dir| + 1..] else path, '/');
      var name := parts[0];
      if name == "" {
        continue;
      }
      if |parts| > 1 {
        if name !in items.at {
          items := items.Set(name, DirEntry(dir, name, now));
        }
        continue;
      }
      items := items.Set(name, FileEntry(name, store[i]));
    }
    assert store[..|store|] == store;
    ItemsValid(store, dir, now);
    r := SortBy(EntryOrder(le), items.Values());
  }

  /******* What a listing holds *******/

  ghost predicate StoredAt(store: seq<Stored>, segs: seq<string>) {
    exists i :: 0 <= i < |store| && Segs(store[i].path) == segs
  }

  ghost predicate StoredUnder(store: seq<Stored>, segs: seq<string>) {
    exists i :: 0 <= i < |store| && segs < Segs(store[i].path)
  }

  ghost predicate IsFileIn(store: seq<Stored>, segs: seq<string>, e: Entry) {
    exists i :: 0 <= i < |store| && Segs(store[i].path) == segs && e == FileEntry(e.name, store[i])
  }

  // An entry of the directory `dir`: the file stored there if there is one, and otherwise a
  // directory if something is stored further down.  Empty names are not listed.
  ghost predicate IsChild(store: seq<Stored>, dir: string, now: string, e: Entry) {
    var segs := DirSegs(dir) + [e.name];
    && e.name != ""
    && (|| IsFileIn(store, segs, e)
        || (e == DirEntry(dir, e.name, now) && StoredUnder(store, segs) && !StoredAt(store, segs)))
  }

  // The string tests and the slice of the loop body, as operations on segments.
  lemma RemainderSegs(dir: string, path: string)
    ensures |dir| == 0 || (path != dir && dir + "/" <= path) <==> DirSegs(dir) < Segs(path)
    ensures DirSegs(dir) < Segs(path) ==>
              var remainder := if |dir| > 0 then path[|dir| + 1..] else path;
              Split(remainder, '/') == Segs(path)[|DirSegs(dir)|..]
  {
    if |dir| > 0 {
      StartsWithIff(dir, path);
    }
  }

  function At(items: Items, name: string): (r: Option<Entry>) {
    if name in items.at then Some(items.at[name]) else None
  }

  // The loop body, on segments: a stored file sets its own name in its own directory, and in every
  // directory above that it makes sure of an entry on the way down.
  lemma AddFileAt(items: Items, dir: string, f: Stored, now: string, n: string)
    requires n != ""
    ensures var segs := DirSegs(dir) + [n];
            At(AddFile(items, dir, f, now), n) ==
              if Segs(f.path) == segs then Some(FileEntry(n, f))
              else if segs < Segs(f.path) then
                if n in items.at then At(items, n) else Some(DirEntry(dir, n, now))
              else At(items, n)
  {
    var d, s := DirSegs(dir), Segs(f.path);
    RemainderSegs(dir, f.path);
    if d < s {
      assert s == d + s[|d|..];
      assert (d + [n])[|d|] == n;
      if n == s[|d|] {
        assert d + [n] <= s;
        assert |s| == |d| + 1 ==> s == d + [n];
      }
    } else {
      assert d + [n] <= s ==> d <= s && |d| < |s|;
    }
  }

  // What a listing may show under one name, given what is stored.
  ghost predicate Describes(o: Option<Entry>, store: seq<Stored>, dir: string, now: string, n: string) {
    var segs := DirSegs(dir) + [n];
    match o
    case None => !StoredAt(store, segs) && !StoredUnder(store, segs)
    case Some(e) => e.name == n && IsChild(store, dir, now, e)
  }

  lemma OneMoreFile(store: seq<Stored>, f: Stored, segs: seq<string>)
    ensures StoredAt(store + [f], segs) <==> StoredAt(store, segs) || Segs(f.path) == segs
    ensures StoredUnder(store + [f], segs) <==> StoredUnder(store, segs) || segs < Segs(f.path)
    ensures forall e :: IsFileIn(store, segs, e) ==> IsFileIn(store + [f], segs, e)
  {
    var more := store + [f];
    assert more[|store|] == f;
    assert forall i :: 0 <= i < |store| ==> more[i] == store[i];
    if StoredAt(store, segs) {
      var i :| 0 <= i < |store| && Segs(store[i].path) == segs;
      assert Segs(more[i].path) == segs;
    }
    if StoredUnder(store, segs) {
      var i :| 0 <= i < |store| && segs < Segs(store[i].path);
      assert segs < Segs(more[i].path);
    }
    forall e | IsFileIn(store, segs, e) ensures IsFileIn(more, segs, e) {
      var i :| 0 <= i < |store| && Segs(store[i].path) == segs && e == FileEntry(e.name, store[i]);
      assert more[i] == store[i];
    }
  }

  lemma AddFileDescribes(items: Items, store: seq<Stored>, f: Stored, dir: string, now: string, n: string)
    requires n != "" && !StoredAt(store, Segs(f.path))
    requires Describes(At(items, n), store, dir, now, n)
    ensures Describes(At(AddFile(items, dir, f, now), n), store + [f], dir, now, n)
  {
    AddFileAt(items, dir, f, now, n);
    OneMoreFile(store, f, DirSegs(dir) + [n]);
    assert (store + [f])[|store|] == f;
  }

  lemma {:induction false} ItemsDescribe(store: seq<Stored>, dir: string, now: string, n: string)
    requires Keyed(store) && n != ""
    ensures Describes(At(ItemsByName(store, dir, now), n), store, dir, now, n)
  {
    if |store| > 0 {
      var before, f := store[..|store| - 1], store[|store| - 1];
      ItemsDescribe(before, dir, now, n);
      forall i | 0 <= i < |before| ensures Segs(before[i].path) != Segs(f.path) {
        if Segs(before[i].path) == Segs(f.path) {
          SegsInjective(before[i].path, f.path);
        }
      }
      AddFileDescribes(ItemsByName(before, dir, now), before, f, dir, now, n);
      assert before + [f] == store;
    }
  }

  lemma FileInUnique(store: seq<Stored>, segs: seq<string>, a: Entry, b: Entry)
    requires Keyed(store) && IsFileIn(store, segs, a) && IsFileIn(store, segs, b) && a.name == b.name
    ensures a == b
  {
    var i :| 0 <= i < |store| && Segs(store[i].path) == segs && a == FileEntry(a.name, store[i]);
    var j :| 0 <= j < |store| && Segs(store[j].path) == segs && b == FileEntry(b.name, store[j]);
    SegsInjective(store[i].path, store[j].path);
  }

  lemma FileInStoredAt(store: seq<Stored>, segs: seq<string>, e: Entry)
    requires IsFileIn(store, segs, e)
    ensures StoredAt(store, segs)
  {
    var i :| 0 <= i < |store| && Segs(store[i].path) == segs && e == FileEntry(e.name, store[i]);
  }

  // One name, one child.
  lemma ChildUnique(store: seq<Stored>, dir: string, now: string, a: Entry, b: Entry)
    requires Keyed(store) && IsChild(store, dir, now, a) && IsChild(store, dir, now, b) && a.name == b.name
    ensures a == b
  {
    var segs := DirSegs(dir) + [a.name];
    if IsFileIn(store, segs, a) {
      FileInStoredAt(store, segs, a);
      FileInUnique(store, segs, a, b);
    } else if IsFileIn(store, segs, b) {
      FileInStoredAt(store, segs, b);
    }
  }

  // The entries of the Map are the children of the directory, each once.
  lemma ValuesExact(store: seq<Stored>, dir: string, now: string)
    requires Keyed(store)
    ensures var items := ItemsByName(store, dir, now);
            && items.Valid()
            && (forall e :: e in items.Values() <==> IsChild(store, dir, now, e))
            && Distinct(items.Values())
  {
    var items := ItemsByName(store, dir, now);
    ItemsValid(store, dir, now);
    var values := items.Values();
    forall e | e in values ensures IsChild(store, dir, now, e) {
      var i :| 0 <= i < |values| && values[i] == e;
      assert items.order[i] in items.order;
      ItemsDescribe(store, dir, now, items.order[i]);
    }
    forall e | IsChild(store, dir, now, e) ensures e in values {
      ItemsDescribe(store, dir, now, e.name);
      if IsFileIn(store, DirSegs(dir) + [e.name], e) {
        FileInStoredAt(store, DirSegs(dir) + [e.name], e);
      }
      ChildUnique(store, dir, now, e, items.at[e.name]);
      var i :| 0 <= i < |items.order| && items.order[i] == e.name;
      assert values[i] == e;
    }
    forall i, j | 0 <= i < j < |values| ensures values[i] != values[j] {
      assert items.order[i] in items.order && items.order[j] in items.order;
      ItemsDescribe(store, dir, now, items.order[i]);
      ItemsDescribe(store, dir, now, items.order[j]);
    }
  }

  lemma ListChildren(store: seq<Stored>, le: (string, string) -> bool, path: string, now: string)
    requires Keyed(store)
    ensures forall e :: e in List(store, le, path, now) <==> IsChild(store, Trimmed(path), now, e)
    ensures Distinct(List(store, le, path, now))
  {
    ValuesExact(store, Trimmed(path), now);
    var values := ItemsByName(store, Trimmed(path), now).Values();
    SameElements(values, List(store, le, path, now));
    PermutationDistinct(values, List(store, le, path, now));
  }

  // A directory comes before a file, and otherwise the names decide.
  ghost predicate InListingOrder(a: Entry, b: Entry, le: (string, string) -> bool) {
    !(a.kind.File? && b.kind.Directory?) && (a.kind == b.kind ==> le(a.name, b.name))
  }

  // A stored file under its last segment, with its size and time stamp; or a directory on the way to
  // one, without a size.
  ghost predicate IsEntryOf(store: seq<Stored>, dir: string, now: string, e: Entry) {
    match e.kind
    case File =>
      exists i :: 0 <= i < |store| && Segs(store[i].path) == DirSegs(dir) + [e.name]
                  && e.path == store[i].path && e.size == store[i].size && e.modifiedAt == store[i].modifiedAt
    case Directory =>
      && e.path == (if dir == "" then e.name else dir + "/" + e.name) && e.size == 0 && e.modifiedAt == now
      && StoredUnder(store, DirSegs(dir) + [e.name]) && !StoredAt(store, DirSegs(dir) + [e.name])
  }

  lemma ChildIsEntry(store: seq<Stored>, dir: string, now: string, e: Entry)
    ensures IsChild(store, dir, now, e) <==> e.name != "" && IsEntryOf(store, dir, now, e)
  {
    var segs := DirSegs(dir) + [e.name];
    if e.kind.File? {
      if i :| 0 <= i < |store| && Segs(store[i].path) == segs && e == FileEntry(e.name, store[i]) {
        assert e.path == store[i].path && e.size == store[i].size && e.modifiedAt == store[i].modifiedAt;
      }
      if i :| 0 <= i < |store| && Segs(store[i].path) == segs
              && e.path == store[i].path && e.size == store[i].size && e.modifiedAt == store[i].modifiedAt {
        assert e == FileEntry(e.name, store[i]);
      }
    }
  }

  // Whatever is stored and whatever path is asked for, a listing holds each entry of the directory
  // once, directories first and by name.
  lemma ListExact(store: seq<Stored>, le: (string, string) -> bool, path: string, now: string)
    requires Keyed(store) && TotalPreorder(le)
    ensures var r := List(store, le, path, now);
            && (forall e :: e in r <==> e.name != "" && IsEntryOf(store, Trimmed(path), now, e))
            && Distinct(r)
            && (forall i, j :: 0 <= i < j < |r| ==> InListingOrder(r[i], r[j], le))
  {
    ListChildren(store, le, path, now);
    ItemsValid(store, Trimmed(path), now);
    EntryOrderTotal(le);
    SortBySorted(EntryOrder(le), ItemsByName(store, Trimmed(path), now).Values());
    forall e ensures IsChild(store, Trimmed(path), now, e) <==> e.name != "" && IsEntryOf(store, Trimmed(path), now, e) {
      ChildIsEntry(store, Trimmed(path), now, e);
    }
    var r := List(store, le, path, now);
    forall i, j | 0 <= i < j < |r| ensures InListingOrder(r[i], r[j], le) {
      assert EntryOrder(le)(r[i], r[j]);
    }
  }

  // A blank directory is listed in its parent, and it is listed as its parent is: it holds itself.
  lemma BlankNameLoops(store: seq<Stored>, le: (string, string) -> bool, dir: string, blank: string, now: string)
    requires Keyed(store) && WellFormedDir(dir) && |blank| > 0 && IsBlank(blank)
    requires StoredUnder(store, DirSegs(dir) + [blank]) && !StoredAt(store, DirSegs(dir) + [blank])
    ensures var e := DirEntry(dir, blank, now);
            && e in List(store, le, dir, now)
            && List(store, le, e.path, now) == List(store, le, dir, now)
  {
    TrimmedWellFormed(dir);
    ListChildren(store, le, dir, now);
    if |dir| == 0 {
      assert blank == blank + [] + [];
      StripPadded(blank, [], [], IsSpace);
    } else {
      BlankChildRead(dir, blank);
    }
  }

  lemma EntryOrderTotal(le: (string, string) -> bool)
    requires TotalPreorder(le)
    ensures TotalPreorder(EntryOrder(le))
  {
    var before := EntryOrder(le);
    forall a, b, c | before(a, b) && before(b, c) ensures before(a, c) {
      assert Before(le, a, b) && Before(le, b, c);
    }
  }
}
