/**
 Grouping the playable videos of the library into shelves, one for each directory that holds any.
 */
module VideoShelves {
  import opened Strings
  import opened Sorting
  import opened LibraryPaths
  import opened StorePaths
  import opened VideoStore
  import opened VideoTree

  datatype Shelf = Shelf(id: string, title: string, directoryPath: string, videos: seq<Entry>)

  function LowerAscii(c: char): (r: char) {
    if 'A' <= c <= 'Z' then (c as int - 'A' as int + 'a' as int) as char else c
  }

  predicate IsPlayableVideo(name: string) {
    var n := |name|;
    && n >= 4 && name[n - 4] == '.'
    && LowerAscii(name[n - 3]) == 'm' && LowerAscii(name[n - 2]) == 'p' && name[n - 1] == '4'
  }

  // A name with the suffix `.mp4`, in capitals or not.
  lemma PlayableIff(name: string)
    ensures IsPlayableVideo(name) <==>
              exists stem, m, p :: m in "mM" && p in "pP" && name == stem + "." + [m, p] + "4"
  {
    if IsPlayableVideo(name) {
      var n := |name|;
      assert name[n - 3] in "mM" && name[n - 2] in "pP";
      assert name == name[..n - 4] + "." + [name[n - 3], name[n - 2]] + "4";
    }
    if stem, m, p :| m in "mM" && p in "pP" && name == stem + "." + [m, p] + "4" {
      var n := |name|;
      assert name[n - 4] == '.' && name[n - 3] == m && name[n - 2] == p && name[n - 1] == '4';
    }
  }

  function PlayableVideos(rows: seq<Row>): (r: seq<Entry>) {
    if |rows| == 0 then []
    else
      var last := rows[|rows| - 1].entry;
      PlayableVideos(rows[..|rows| - 1])
      + if last.kind.File? && IsPlayableVideo(last.name) then [last] else []
  }

  function ParentDirectory(path: string): (r: string) {
    var parts := NonEmpty(Split(StripLeft(Strip(path, IsSpace), IsSlash), '/'));
    Join(if |parts| == 0 then [] else parts[..|parts| - 1], '/')
  }

  lemma ParentOfName(path: string)
    requires Without(path, '/')
    ensures ParentDirectory(path) == ""
  {
    var s := Strip(path, IsSpace);
    StripLeftIsSuffix(path, IsSpace);
    StripRightIsPrefix(StripLeft(path, IsSpace), IsSpace);
    SlashesBefore(s);
    SplitWithout(s, '/');
    assert |NonEmpty([s])| <= 1;
  }

  // Of a path whose name does not end in white space, the parent is the directory that holds it.
  lemma ParentOfWellFormed(path: string)
    requires WellFormed(path) && Firm(Segs(path)[|Segs(path)| - 1])
    ensures ParentDirectory(path) == Join(Segs(path)[..|Segs(path)| - 1], '/')
  {
    var s := Segs(path);
    JoinSplit(path, '/');
    if |s| == 1 {
      ParentOfName(path);
    } else {
      var d := s[..|s| - 1];
      assert forall i :: 0 <= i < |d| ==> s[i] == d[i] && Firm(d[i]);
      JoinEnds(s);
      StripBare(path, IsSpace);
      SlashesBefore(path);
      NonEmptyOfNonEmpty(s);
    }
  }

  /******* Building the shelves *******/

  // A JavaScript Map from directory to the videos pushed for it.
  datatype Buckets = Buckets(order: seq<string>, at: map<string, seq<Entry>>) {
    function Push(dir: string, video: Entry): (r: Buckets) {
      if dir in at then Buckets(order, at[dir := at[dir] + [video]])
      else Buckets(order + [dir], at[dir := [video]])
    }
  }

  function Bucketed(videos: seq<Entry>): (r: Buckets) {
    if |videos| == 0 then Buckets([], map[])
    else
      var last := videos[|videos| - 1];
      Bucketed(videos[..|videos| - 1]).Push(ParentDirectory(last.path), last)
  }

  // The root directory comes before every other.
  function RootFirst(le: (string, string) -> bool): (r: (string, string) -> bool) {
    (a, b) => a == "" || (b != "" && le(a, b))
  }

  function ByName(le: (string, string) -> bool): (r: (Entry, Entry) -> bool) {
    (a: Entry, b: Entry) => le(a.name, b.name)
  }

  function ShelfId(dir: string): (r: string) {
    if dir == "" then "library" else dir
  }

  function MakeShelf(le: (string, string) -> bool, dir: string, videos: seq<Entry>): (r: Shelf) {
    Shelf(ShelfId(dir), if dir == "" then "Library" else dir, dir, SortBy(ByName(le), videos))
  }

  function Shelve(le: (string, string) -> bool, dirs: seq<string>, at: map<string, seq<Entry>>): (r: seq<Shelf>)
    requires forall i :: 0 <= i < |dirs| ==> dirs[i] in at
    ensures |r| == |dirs|
    ensures forall i :: 0 <= i < |r| ==> r[i] == MakeShelf(le, dirs[i], at[dirs[i]])
  {
    seq(|dirs|, i requires 0 <= i < |dirs| => MakeShelf(le, dirs[i], at[dirs[i]]))
  }

  function ShelfDirs(videos: seq<Entry>, le: (string, string) -> bool): (r: seq<string>) {
    SortBy(RootFirst(le), Bucketed(videos).order)
  }

  function BuildShelves(videos: seq<Entry>, le: (string, string) -> bool): (r: seq<Shelf>) {
    ShelfDirsIndexed(videos, le);
    Shelve(le, ShelfDirs(videos, le), Bucketed(videos).at)
  }

  method BuildVideoShelves(videos: seq<Entry>, le: (string, string) -> bool) returns (r: seq<Shelf>)
    ensures r == BuildShelves(videos, le)
  {
    var buckets := Buckets([], map[]);
    for i := 0 to |videos|
      invariant buckets == Bucketed(videos[..i])
    {
      assert videos[..i + 1][..i] == videos[..i];
      var dir := ParentDirectory(videos[i].path);
      if dir in buckets.at {
        buckets := Buckets(buckets.order, buckets.at[dir := buckets.at[dir] + [videos[i]]]);
      } else {
        buckets := Buckets(buckets.order + [dir], buckets.at[dir := [videos[i]]]);
      }
    }
    assert videos[..|videos|] == videos;
    var dirs := SortBy(RootFirst(le), buckets.order);
    assert dirs == ShelfDirs(videos, le);
    ShelfDirsIndexed(videos, le);
    r := Shelve(le, dirs, buckets.at);
  }

  /******* What the shelves hold *******/

  function In(dir: string): (r: Entry -> bool) {
    (v: Entry) => ParentDirectory(v.path) == dir
  }

  // The videos of one directory, in the order they came in.
  function VideosIn(videos: seq<Entry>, dir: string): (r: seq<Entry>) {
    Filter(videos, In(dir))
  }

  // What the buckets hold for one directory, given the videos of that directory.
  predicate HoldsAt(buckets: Buckets, dir: string, own: seq<Entry>) {
    && (dir in buckets.order <==> dir in buckets.at)
    && (if dir in buckets.at then own != [] && buckets.at[dir] == own else own == [])
  }

  lemma VideosInAppend(videos: seq<Entry>, v: Entry, dir: string)
    ensures VideosIn(videos + [v], dir) == VideosIn(videos, dir) + if In(dir)(v) then [v] else []
  {
    assert (videos + [v])[..|videos|] == videos;
  }

  lemma PushHoldsAt(buckets: Buckets, pushed: string, v: Entry, dir: string, own: seq<Entry>)
    requires HoldsAt(buckets, dir, own)
    ensures HoldsAt(buckets.Push(pushed, v), dir, own + if pushed == dir then [v] else [])
  {
  }

  lemma {:induction false} BucketedAt(videos: seq<Entry>, dir: string)
    ensures HoldsAt(Bucketed(videos), dir, VideosIn(videos, dir))
  {
    if |videos| > 0 {
      var init, v := videos[..|videos| - 1], videos[|videos| - 1];
      BucketedAt(init, dir);
      PushHoldsAt(Bucketed(init), ParentDirectory(v.path), v, dir, VideosIn(init, dir));
      VideosInAppend(init, v, dir);
      assert videos == init + [v];
    }
  }

  lemma {:induction false} BucketsDistinct(videos: seq<Entry>)
    ensures Distinct(Bucketed(videos).order)
  {
    if |videos| > 0 {
      var init, v := videos[..|videos| - 1], videos[|videos| - 1];
      BucketsDistinct(init);
      BucketedAt(init, ParentDirectory(v.path));
    }
  }

  // The shelves are the directories with a video in them, each once.
  lemma ShelfDirsExact(videos: seq<Entry>, le: (string, string) -> bool)
    ensures Distinct(ShelfDirs(videos, le))
    ensures forall d :: d in ShelfDirs(videos, le) <==> VideosIn(videos, d) != []
    ensures forall d :: d in ShelfDirs(videos, le) ==> d in Bucketed(videos).at && Bucketed(videos).at[d] == VideosIn(videos, d)
  {
    BucketsDistinct(videos);
    SameElements(Bucketed(videos).order, ShelfDirs(videos, le));
    PermutationDistinct(Bucketed(videos).order, ShelfDirs(videos, le));
    forall d ensures HoldsAt(Bucketed(videos), d, VideosIn(videos, d)) {
      BucketedAt(videos, d);
    }
  }

  lemma ShelfDirsIndexed(videos: seq<Entry>, le: (string, string) -> bool)
    ensures var dirs, at := ShelfDirs(videos, le), Bucketed(videos).at;
            forall i :: 0 <= i < |dirs| ==> dirs[i] in at && at[dirs[i]] == VideosIn(videos, dirs[i]) && at[dirs[i]] != []
  {
    ShelfDirsExact(videos, le);
    assert forall i :: 0 <= i < |ShelfDirs(videos, le)| ==> ShelfDirs(videos, le)[i] in ShelfDirs(videos, le);
  }

  lemma HasShelfIff(videos: seq<Entry>, le: (string, string) -> bool, dir: string)
    ensures dir in ShelfDirs(videos, le) <==> VideosIn(videos, dir) != []
  {
    ShelfDirsExact(videos, le);
  }

  lemma VideosInCount(videos: seq<Entry>, dir: string, v: Entry)
    ensures multiset(VideosIn(videos, dir))[v] == if ParentDirectory(v.path) == dir then multiset(videos)[v] else 0
  {
    FilterCount(videos, In(dir), v);
  }

  function AllVideos(shelves: seq<Shelf>): (r: seq<Entry>) {
    if |shelves| == 0 then [] else AllVideos(shelves[..|shelves| - 1]) + shelves[|shelves| - 1].videos
  }

  lemma AllVideosAppend(shelves: seq<Shelf>, shelf: Shelf)
    ensures AllVideos(shelves + [shelf]) == AllVideos(shelves) + shelf.videos
  {
    assert (shelves + [shelf])[..|shelves|] == shelves;
  }

  lemma ShelveNext(le: (string, string) -> bool, dirs: seq<string>, dir: string, at: map<string, seq<Entry>>, v: Entry)
    requires (forall i :: 0 <= i < |dirs| ==> dirs[i] in at) && dir in at
    ensures multiset(AllVideos(Shelve(le, dirs + [dir], at)))[v]
         == multiset(AllVideos(Shelve(le, dirs, at)))[v] + multiset(at[dir])[v]
  {
    assert Shelve(le, dirs + [dir], at) == Shelve(le, dirs, at) + [MakeShelf(le, dir, at[dir])];
    AllVideosAppend(Shelve(le, dirs, at), MakeShelf(le, dir, at[dir]));
  }

  // A video that is in one bucket, k times, is on the shelves k times if that bucket is.
  lemma {:induction false} ShelveCount(le: (string, string) -> bool, dirs: seq<string>, at: map<string, seq<Entry>>,
                                       home: string, v: Entry, k: nat)
    requires Distinct(dirs)
    requires forall i :: 0 <= i < |dirs| ==>
               dirs[i] in at && multiset(at[dirs[i]])[v] == if dirs[i] == home then k else 0
    ensures multiset(AllVideos(Shelve(le, dirs, at)))[v] == if home in dirs then k else 0
  {
    if |dirs| > 0 {
      var init, dir := dirs[..|dirs| - 1], dirs[|dirs| - 1];
      assert dirs == init + [dir];
      assert dir !in init;
      assert home in dirs <==> home in init || home == dir;
      ShelveCount(le, init, at, home, v, k);
      ShelveNext(le, init, dir, at, v);
    }
  }

  // Shelving neither loses nor duplicates a video.
  lemma ShelvesConserve(videos: seq<Entry>, le: (string, string) -> bool)
    ensures multiset(AllVideos(BuildShelves(videos, le))) == multiset(videos)
  {
    forall v ensures multiset(AllVideos(BuildShelves(videos, le)))[v] == multiset(videos)[v] {
      ShelvesCount(videos, le, v);
    }
  }

  lemma ShelvesCount(videos: seq<Entry>, le: (string, string) -> bool, v: Entry)
    ensures multiset(AllVideos(BuildShelves(videos, le)))[v] == multiset(videos)[v]
  {
    var dirs, at, home := ShelfDirs(videos, le), Bucketed(videos).at, ParentDirectory(v.path);
    ShelfDirsIndexed(videos, le);
    assert Distinct(dirs) by {
      ShelfDirsExact(videos, le);
    }
    forall i | 0 <= i < |dirs| ensures multiset(at[dirs[i]])[v] == if dirs[i] == home then multiset(videos)[v] else 0 {
      VideosInCount(videos, dirs[i], v);
    }
    ShelveCount(le, dirs, at, home, v, multiset(videos)[v]);
    VideosInCount(videos, home, v);
    HasShelfIff(videos, le, home);
  }

  lemma RootFirstTotal(le: (string, string) -> bool)
    requires TotalPreorder(le)
    ensures TotalPreorder(RootFirst(le))
  {
    var order := RootFirst(le);
    forall a, b ensures order(a, b) || order(b, a) {
      assert le(a, b) || le(b, a);
    }
    forall a, b, c | order(a, b) && order(b, c) ensures order(a, c) {
      assert a == "" || (b != "" && le(a, b));
      assert b == "" || (c != "" && le(b, c));
    }
  }

  lemma ByNameTotal(le: (string, string) -> bool)
    requires TotalPreorder(le)
    ensures TotalPreorder(ByName(le))
  {
    var order := ByName(le);
    forall a, b ensures order(a, b) || order(b, a) {
      assert le(a.name, b.name) || le(b.name, a.name);
    }
    forall a, b, c | order(a, b) && order(b, c) ensures order(a, c) {
      assert le(a.name, b.name) && le(b.name, c.name);
    }
  }

  // The root comes first, and the others are sorted.
  ghost predicate InShelfOrder(a: Shelf, b: Shelf, le: (string, string) -> bool) {
    && a.directoryPath != b.directoryPath && b.directoryPath != ""
    && (a.directoryPath != "" ==> le(a.directoryPath, b.directoryPath))
  }

  // A shelf is nonempty, sorted by name, holds only videos of its directory and is named after it.
  ghost predicate IsShelf(shelf: Shelf, le: (string, string) -> bool) {
    && |shelf.videos| > 0
    && (forall a, b :: 0 <= a < b < |shelf.videos| ==> le(shelf.videos[a].name, shelf.videos[b].name))
    && (forall v :: v in shelf.videos ==> ParentDirectory(v.path) == shelf.directoryPath)
    && (if shelf.directoryPath == "" then shelf.id == "library" && shelf.title == "Library"
        else shelf.id == shelf.title == shelf.directoryPath)
  }

  lemma ShelvesOrdered(videos: seq<Entry>, le: (string, string) -> bool)
    requires TotalPreorder(le)
    ensures var shelves := BuildShelves(videos, le);
            && (forall i, j :: 0 <= i < j < |shelves| ==> InShelfOrder(shelves[i], shelves[j], le))
            && (forall i :: 0 <= i < |shelves| ==> IsShelf(shelves[i], le))
  {
    var shelves := BuildShelves(videos, le);
    forall i, j | 0 <= i < j < |shelves| ensures InShelfOrder(shelves[i], shelves[j], le) {
      ShelfPair(videos, le, i, j);
    }
    forall i | 0 <= i < |shelves| ensures IsShelf(shelves[i], le) {
      ShelfSorted(videos, le, i);
      ShelfIs(videos, le, i);
    }
  }

  lemma ShelfIs(videos: seq<Entry>, le: (string, string) -> bool, i: nat)
    requires i < |BuildShelves(videos, le)|
    ensures var shelf := BuildShelves(videos, le)[i];
            && i < |ShelfDirs(videos, le)| && shelf.directoryPath == ShelfDirs(videos, le)[i]
            && (if shelf.directoryPath == "" then shelf.id == "library" && shelf.title == "Library"
                else shelf.id == shelf.title == shelf.directoryPath)
  {
    ShelfDirsIndexed(videos, le);
  }

  lemma ShelfPair(videos: seq<Entry>, le: (string, string) -> bool, i: nat, j: nat)
    requires TotalPreorder(le) && i < j < |BuildShelves(videos, le)|
    ensures var a, b := BuildShelves(videos, le)[i].directoryPath, BuildShelves(videos, le)[j].directoryPath;
            a != b && b != "" && (a != "" ==> le(a, b))
  {
    ShelfIs(videos, le, i);
    ShelfIs(videos, le, j);
    var dirs := ShelfDirs(videos, le);
    assert dirs[i] != dirs[j] by {
      ShelfDirsExact(videos, le);
    }
    RootFirstTotal(le);
    SortBySorted(RootFirst(le), Bucketed(videos).order);
    assert RootFirst(le)(dirs[i], dirs[j]);
  }

  lemma SortedByName(videos: seq<Entry>, le: (string, string) -> bool)
    requires TotalPreorder(le)
    ensures var sorted := SortBy(ByName(le), videos);
            forall a, b :: 0 <= a < b < |sorted| ==> le(sorted[a].name, sorted[b].name)
  {
    ByNameTotal(le);
    SortBySorted(ByName(le), videos);
    var sorted := SortBy(ByName(le), videos);
    forall a, b | 0 <= a < b < |sorted| ensures le(sorted[a].name, sorted[b].name) {
      assert ByName(le)(sorted[a], sorted[b]);
    }
  }

  lemma OwnVideosOnly(videos: seq<Entry>, dir: string, le: (string, string) -> bool)
    ensures forall v :: v in SortBy(ByName(le), VideosIn(videos, dir)) ==> ParentDirectory(v.path) == dir
  {
    SameElements(SortBy(ByName(le), VideosIn(videos, dir)), VideosIn(videos, dir));
    FilterExact(videos, In(dir));
  }

  lemma ShelfSorted(videos: seq<Entry>, le: (string, string) -> bool, i: nat)
    requires TotalPreorder(le) && i < |BuildShelves(videos, le)|
    ensures var shelf := BuildShelves(videos, le)[i];
            && |shelf.videos| > 0
            && (forall a, b :: 0 <= a < b < |shelf.videos| ==> le(shelf.videos[a].name, shelf.videos[b].name))
            && (forall v :: v in shelf.videos ==> ParentDirectory(v.path) == shelf.directoryPath)
  {
    var dir := ShelfDirs(videos, le)[i];
    ShelfDirsIndexed(videos, le);
    SortedByName(VideosIn(videos, dir), le);
    OwnVideosOnly(videos, dir, le);
    assert BuildShelves(videos, le)[i].videos == SortBy(ByName(le), VideosIn(videos, dir));
  }

  lemma IdsDistinctIff(dirs: seq<string>)
    requires Distinct(dirs)
    ensures (forall i, j :: 0 <= i < j < |dirs| ==> ShelfId(dirs[i]) != ShelfId(dirs[j]))
       <==> "" !in dirs || "library" !in dirs
  {
    if "" in dirs && "library" in dirs {
      var i :| 0 <= i < |dirs| && dirs[i] == "";
      var j :| 0 <= j < |dirs| && dirs[j] == "library";
      assert ShelfId(dirs[i]) == ShelfId(dirs[j]);
    } else {
      assert forall i :: 0 <= i < |dirs| ==> dirs[i] in dirs;
    }
  }

  lemma ShelfIds(videos: seq<Entry>, le: (string, string) -> bool)
    ensures var dirs, shelves := ShelfDirs(videos, le), BuildShelves(videos, le);
            |shelves| == |dirs| && forall i :: 0 <= i < |dirs| ==> shelves[i].id == ShelfId(dirs[i])
  {
    ShelfDirsIndexed(videos, le);
  }

  // Shelf ids are distinct unless the root and a directory called `library` both have videos.
  lemma ShelfIdsDistinctIff(videos: seq<Entry>, le: (string, string) -> bool)
    ensures var shelves := BuildShelves(videos, le);
            (forall i, j :: 0 <= i < j < |shelves| ==> shelves[i].id != shelves[j].id)
            <==> VideosIn(videos, "") == [] || VideosIn(videos, "library") == []
  {
    assert Distinct(ShelfDirs(videos, le)) by {
      ShelfDirsExact(videos, le);
    }
    ShelfIds(videos, le);
    IdsDistinctIff(ShelfDirs(videos, le));
    HasShelfIff(videos, le, "");
    HasShelfIff(videos, le, "library");
  }

  lemma TwoShelvesCollide(a: Entry, b: Entry, le: (string, string) -> bool)
    requires ParentDirectory(a.path) == "" && ParentDirectory(b.path) == "library"
    ensures var shelves := BuildShelves([a, b], le);
            exists i, j :: 0 <= i < j < |shelves| && shelves[i].id == shelves[j].id
  {
    FilterExact([a, b], In(""));
    FilterExact([a, b], In("library"));
    assert a in [a, b] && b in [a, b];
    assert a in VideosIn([a, b], "") && b in VideosIn([a, b], "library");
    ShelfIdsDistinctIff([a, b], le);
  }

  // A video in the root and one in `library` give two shelves one id.
  lemma ShelfIdsCollide(le: (string, string) -> bool, now: string)
    ensures var videos := [Entry("a.mp4", "a.mp4", File, 0, now), Entry("b.mp4", "library/b.mp4", File, 0, now)];
            var shelves := BuildShelves(videos, le);
            exists i, j :: 0 <= i < j < |shelves| && shelves[i].id == shelves[j].id
  {
    assert "library/b.mp4" == "library" + "/" + "b.mp4";
    ParentOfName("a.mp4");
    ParentOfTwo("library", "b.mp4");
    TwoShelvesCollide(Entry("a.mp4", "a.mp4", File, 0, now), Entry("b.mp4", "library/b.mp4", File, 0, now), le);
  }

  lemma ParentOfTwo(dir: string, name: string)
    requires Without(dir, '/') && Without(name, '/') && Flush(dir) && Firm(dir) && Firm(name)
    ensures ParentDirectory(dir + "/" + name) == dir
  {
    var path := dir + "/" + name;
    TwoSegs(dir, name);
    assert Segs(path)[..1] == [dir];
    ParentOfWellFormed(path);
  }

  /******* From the flat store to the shelves *******/

  function LibraryShelves(store: seq<Stored>, le: (string, string) -> bool, now: string): (r: seq<Shelf>)
    requires Walkable(store, "")
  {
    BuildShelves(PlayableVideos(Library(store, le, now)), le)
  }

  // The entry of a playable stored file that the recursion comes to.
  ghost predicate IsShown(store: seq<Stored>, e: Entry) {
    IsPlayableVideo(e.name) && exists i :: 0 <= i < |store| && e == FileRow(store[i]).entry && Collected(store, i)
  }

  ghost function Entries(store: seq<Stored>): (r: seq<Entry>)
    ensures |r| == |store| && forall i :: 0 <= i < |r| ==> r[i] == FileRow(store[i]).entry
  {
    seq(|store|, i requires 0 <= i < |store| => FileRow(store[i]).entry)
  }

  lemma EntriesExact(store: seq<Stored>)
    requires Keyed(store)
    ensures SortedBy((a: Entry, b: Entry) => a != b, Entries(store))
    ensures forall e :: IsShown(store, e) ==> e in Entries(store)
  {
    forall e | IsShown(store, e) ensures e in Entries(store) {
      var i :| 0 <= i < |store| && e == FileRow(store[i]).entry && Collected(store, i);
      assert Entries(store)[i] == e;
    }
  }

  ghost function ShownVideos(store: seq<Stored>): (r: seq<Entry>) {
    Filter(Entries(store), (e: Entry) => IsShown(store, e))
  }

  lemma ShownVideosExact(store: seq<Stored>)
    requires Keyed(store)
    ensures Distinct(ShownVideos(store))
    ensures forall e :: e in ShownVideos(store) <==> IsShown(store, e)
  {
    EntriesExact(store);
    FilterExact(Entries(store), (e: Entry) => IsShown(store, e));
    FilterKeepsPairs(Entries(store), (e: Entry) => IsShown(store, e), (a: Entry, b: Entry) => a != b);
  }

  ghost predicate HasRow(rows: seq<Row>, e: Entry) {
    exists i :: 0 <= i < |rows| && rows[i].entry == e
  }

  lemma {:induction false} PlayableExact(rows: seq<Row>, e: Entry)
    ensures e in PlayableVideos(rows) <==> e.kind.File? && IsPlayableVideo(e.name) && HasRow(rows, e)
  {
    if |rows| > 0 {
      var n := |rows| - 1;
      PlayableExact(rows[..n], e);
      if i :| 0 <= i < n && rows[i].entry == e {
        assert rows[..n][i].entry == e;
      }
    }
  }

  lemma {:induction false} PlayableDistinct(rows: seq<Row>)
    requires DistinctPaths(rows)
    ensures Distinct(PlayableVideos(rows))
  {
    if |rows| > 0 {
      var n := |rows| - 1;
      PlayableDistinct(rows[..n]);
      PlayableExact(rows[..n], rows[n].entry);
    }
  }

  lemma PlayableIsShown(store: seq<Stored>, le: (string, string) -> bool, now: string, e: Entry)
    requires Walkable(store, "") && e in PlayableVideos(Library(store, le, now))
    ensures IsShown(store, e)
  {
    var rows := Library(store, le, now);
    NothingInvented(store, le, now);
    PlayableExact(rows, e);
    var k :| 0 <= k < |rows| && rows[k].entry == e;
    assert rows[k] in rows;
    var i :| 0 <= i < |store| && rows[k] == FileRow(store[i]);
    FileCollectedIff(store, le, now, i);
  }

  lemma ShownIsPlayable(store: seq<Stored>, le: (string, string) -> bool, now: string, e: Entry)
    requires Walkable(store, "") && IsShown(store, e)
    ensures e in PlayableVideos(Library(store, le, now))
  {
    var rows := Library(store, le, now);
    var i :| 0 <= i < |store| && e == FileRow(store[i]).entry && Collected(store, i);
    FileCollectedIff(store, le, now, i);
    PlayableExact(rows, e);
    var k :| 0 <= k < |rows| && rows[k] == FileRow(store[i]);
    assert HasRow(rows, e);
  }

  // Whatever is stored, the playable entries of the collected rows are those of the stored files
  // that the recursion comes to.
  lemma PlayableFromStore(store: seq<Stored>, le: (string, string) -> bool, now: string, e: Entry)
    requires Walkable(store, "")
    ensures e in PlayableVideos(Library(store, le, now)) <==> IsShown(store, e)
  {
    if e in PlayableVideos(Library(store, le, now)) {
      PlayableIsShown(store, le, now, e);
    }
    if IsShown(store, e) {
      ShownIsPlayable(store, le, now, e);
    }
  }

  // End to end, whatever is stored, if no path is collected twice then the shelves hold each playable
  // file that the recursion comes to once, and nothing else.
  lemma LibraryConserved(store: seq<Stored>, le: (string, string) -> bool, now: string)
    requires Walkable(store, "") && Unambiguous(store, [])
    ensures multiset(AllVideos(LibraryShelves(store, le, now))) == multiset(ShownVideos(store))
  {
    CollectedOnceIff(store, le, now);
    var videos := PlayableVideos(Library(store, le, now));
    ShelvesConserve(videos, le);
    PlayableDistinct(Library(store, le, now));
    ShownVideosExact(store);
    forall e ensures e in videos <==> e in ShownVideos(store) {
      PlayableFromStore(store, le, now, e);
    }
    SameMultiset(videos, ShownVideos(store));
  }

  // From a well-formed store, these are the playable files that nothing hides.
  lemma WellFormedConserved(store: seq<Stored>, le: (string, string) -> bool, now: string)
    requires WellFormedStore(store)
    ensures Walkable(store, "")
    ensures forall i :: 0 <= i < |store| ==> (Collected(store, i) <==> !Hidden(store, i))
    ensures multiset(AllVideos(LibraryShelves(store, le, now))) == multiset(ShownVideos(store))
  {
    forall i | 0 <= i < |store| ensures Collected(store, i) <==> !Hidden(store, i) {
      CollectedUnlessHidden(store, i);
    }
    WellFormedUnambiguous(store);
    LibraryConserved(store, le, now);
  }

  lemma {:induction false} OnSomeShelf(shelves: seq<Shelf>, v: Entry) returns (k: nat)
    requires v in AllVideos(shelves)
    ensures k < |shelves| && v in shelves[k].videos
  {
    var n := |shelves| - 1;
    if v in shelves[n].videos {
      k := n;
    } else {
      k := OnSomeShelf(shelves[..n], v);
    }
  }

  lemma ShownVideosOnShelves(store: seq<Stored>, le: (string, string) -> bool, now: string, e: Entry)
    requires Walkable(store, "") && IsShown(store, e)
    ensures e in AllVideos(LibraryShelves(store, le, now))
  {
    var videos := PlayableVideos(Library(store, le, now));
    PlayableFromStore(store, le, now, e);
    ShelvesConserve(videos, le);
    SameElements(AllVideos(LibraryShelves(store, le, now)), videos);
  }

  lemma ShelfOf(videos: seq<Entry>, le: (string, string) -> bool, v: Entry) returns (k: nat)
    requires TotalPreorder(le) && v in AllVideos(BuildShelves(videos, le))
    ensures var shelves := BuildShelves(videos, le);
            k < |shelves| && v in shelves[k].videos && shelves[k].directoryPath == ParentDirectory(v.path)
  {
    k := OnSomeShelf(BuildShelves(videos, le), v);
    ShelvesOrdered(videos, le);
  }

  lemma CollectedParent(store: seq<Stored>, i: nat)
    requires i < |store| && Collected(store, i) && IsPlayableVideo(FileRow(store[i]).entry.name)
    ensures ParentDirectory(store[i].path) == Join(Segs(store[i].path)[..|Segs(store[i].path)| - 1], '/')
  {
    CollectedWellFormed(store, i);
    assert !IsSpace('4');
    ParentOfWellFormed(store[i].path);
  }

  // Whatever is stored, a playable file that is collected stands on the shelf of the directory it is
  // stored in.
  lemma EveryVideoOnItsShelf(store: seq<Stored>, le: (string, string) -> bool, now: string, i: nat) returns (k: nat)
    requires Walkable(store, "") && TotalPreorder(le)
    requires i < |store| && Collected(store, i) && IsPlayableVideo(FileRow(store[i]).entry.name)
    ensures var shelves, segs := LibraryShelves(store, le, now), Segs(store[i].path);
            && k < |shelves| && FileRow(store[i]).entry in shelves[k].videos
            && shelves[k].directoryPath == Join(segs[..|segs| - 1], '/')
  {
    ShownVideosOnShelves(store, le, now, FileRow(store[i]).entry);
    k := ShelfOf(PlayableVideos(Library(store, le, now)), le, FileRow(store[i]).entry);
    CollectedParent(store, i);
  }
}
