/** Uploading to and deleting from the flat video store, and what that does to the directory tree. */
module VideoUploads {
  import opened Options
  import opened Strings
  import opened Sorting
  import opened LibraryPaths
  import opened StorePaths
  import opened VideoStore
  import opened VideoTree

  function UploadKey(path: string): (r: string) {
    StripLeft(Strip(path, IsSpace), IsSlash)
  }

  predicate HasKey(store: seq<Stored>, key: string) {
    exists i :: 0 <= i < |store| && store[i].path == key
  }

  // Assigning to a key of an object: in place if the key is there, at the end otherwise.
  function Put(store: seq<Stored>, f: Stored): (r: seq<Stored>) {
    if |store| == 0 then [f]
    else if store[0].path == f.path then [f] + store[1..]
    else [store[0]] + Put(store[1..], f)
  }

  function NotAt(key: string): (r: Stored -> bool) {
    (f: Stored) => f.path != key
  }

  function NotUnder(key: string): (r: Stored -> bool) {
    (f: Stored) => !(f.path == key || key + "/" <= f.path)
  }

  // A file is deleted by itself; any other path deletes everything below it.
  function DeleteFrom(store: seq<Stored>, path: string): (r: Result<seq<Stored>, string>) {
    var key := Trimmed(path);
    if HasKey(store, key) then Success(Filter(store, NotAt(key)))
    else
      var kept := Filter(store, NotUnder(key));
      if |kept| == |store| then Failure("Video not found") else Success(kept)
  }

  class MockVideos {
    var videos: seq<Stored>

    ghost predicate Valid()
      reads this
    {
      Keyed(videos)
    }

    method Upload(path: string, size: nat, now: string) returns (overwritten: bool)
      requires Valid()
      modifies this
      ensures Valid()
      ensures overwritten <==> HasKey(old(videos), UploadKey(path))
      ensures videos == Put(old(videos), Stored(UploadKey(path), size, now))
      ensures var f := Stored(UploadKey(path), size, now);
              if overwritten then exists i :: 0 <= i < |old(videos)| && old(videos)[i].path == f.path && videos == old(videos)[i := f]
              else videos == old(videos) + [f]
    {
      var f := Stored(UploadKey(path), size, now);
      overwritten := HasKey(videos, f.path);
      PutExact(videos, f);
      if overwritten {
        ghost var i :| 0 <= i < |videos| && videos[i].path == f.path;
        PutInPlace(videos, f, i);
      } else {
        PutNew(videos, f);
      }
      videos := Put(videos, f);
    }

    method Delete(path: string) returns (found: bool)
      requires Valid()
      modifies this
      ensures Valid()
      ensures match DeleteFrom(old(videos), path)
              case Success(rest) => found && videos == rest
              case Failure(_) => !found && videos == old(videos)
    {
      var key := Trimmed(path);
      FilterKeyed(videos, NotAt(key));
      FilterKeyed(videos, NotUnder(key));
      if HasKey(videos, key) {
        videos := Filter(videos, NotAt(key));
        return true;
      }
      var kept := Filter(videos, NotUnder(key));
      found := |kept| < |videos|;
      if found {
        videos := kept;
      }
    }
  }

  /******* What the operations do to the keys *******/

  lemma {:induction false} PutExact(store: seq<Stored>, f: Stored)
    requires Keyed(store)
    ensures Keyed(Put(store, f))
    ensures forall g :: g in Put(store, f) <==> g == f || (g in store && g.path != f.path)
  {
    if |store| > 0 {
      assert store == [store[0]] + store[1..];
      if store[0].path == f.path {
        assert forall g :: g in store[1..] ==> g.path != f.path;
      } else {
        PutExact(store[1..], f);
        assert forall g :: g in Put(store[1..], f) ==> g.path != store[0].path;
      }
    }
  }

  lemma FilterKeyed(store: seq<Stored>, keep: Stored -> bool)
    requires Keyed(store)
    ensures Keyed(Filter(store, keep)) && |Filter(store, keep)| <= |store|
    ensures forall g :: g in Filter(store, keep) <==> g in store && keep(g)
    ensures |Filter(store, keep)| == |store| <==> forall g :: g in store ==> keep(g)
  {
    FilterExact(store, keep);
    FilterKeepsPairs(store, keep, (f: Stored, g: Stored) => f.path != g.path);
  }

  // Assigning to a key that is there replaces its value and moves nothing.
  lemma {:induction false} PutInPlace(store: seq<Stored>, f: Stored, i: nat)
    requires Keyed(store) && i < |store| && store[i].path == f.path
    ensures Put(store, f) == store[i := f]
  {
    if i > 0 {
      PutInPlace(store[1..], f, i - 1);
      assert store[i := f] == [store[0]] + store[1..][i - 1 := f];
    }
  }

  ghost predicate IsKeyOf(path: string, before: string, slashes: string, key: string, after: string) {
    && path == before + (slashes + key + after)
    && AllDropped(before, IsSpace) && AllDropped(after, IsSpace) && Bare(slashes + key, IsSpace)
    && (forall i :: 0 <= i < |slashes| ==> slashes[i] == '/') && !("/" <= key)
  }

  // The key of an upload is the path without white space around it and then without slashes before it.
  lemma UploadKeyIs(path: string)
    ensures exists before, slashes, after :: IsKeyOf(path, before, slashes, UploadKey(path), after)
  {
    var before, after := StripIs(path, IsSpace);
    var slashes := StripLeftIs(Strip(path, IsSpace), IsSlash);
    StripLeftIsSuffix(Strip(path, IsSpace), IsSlash);
    assert IsKeyOf(path, before, slashes, UploadKey(path), after);
  }

  ghost predicate Spared(store: seq<Stored>, path: string, g: Stored) {
    if StoredAt(store, Segs(path)) then Segs(g.path) != Segs(path) else !(Segs(path) < Segs(g.path))
  }

  // A delete succeeds exactly when something is stored at the trimmed path or below it.  It removes
  // what is stored at the path; only when nothing is, it removes all that is stored below.
  lemma DeleteExact(store: seq<Stored>, path: string)
    requires Keyed(store)
    ensures var s := Segs(Trimmed(path));
            DeleteFrom(store, path).Success? <==> StoredAt(store, s) || StoredUnder(store, s)
    ensures match DeleteFrom(store, path)
            case Failure(_) => true
            case Success(rest) => Keyed(rest) && forall g :: g in rest <==> g in store && Spared(store, Trimmed(path), g)
  {
    DeleteKeyExact(store, Trimmed(path));
  }

  lemma DeleteKeyExact(store: seq<Stored>, key: string)
    requires Keyed(store)
    ensures HasKey(store, key) <==> StoredAt(store, Segs(key))
    ensures |Filter(store, NotUnder(key))| <= |store|
    ensures !HasKey(store, key) ==> (|Filter(store, NotUnder(key))| < |store| <==> StoredUnder(store, Segs(key)))
    ensures var rest := Filter(store, if HasKey(store, key) then NotAt(key) else NotUnder(key));
            Keyed(rest) && forall g :: g in rest <==> g in store && Spared(store, key, g)
  {
    FilterKeyed(store, NotAt(key));
    FilterKeyed(store, NotUnder(key));
    forall g | g in store
      ensures NotAt(key)(g) <==> Segs(g.path) != Segs(key)
      ensures NotUnder(key)(g) <==> Segs(g.path) != Segs(key) && !(Segs(key) < Segs(g.path))
    {
      KeyTests(key, g);
    }
    assert HasKey(store, key) <==> StoredAt(store, Segs(key)) by {
      assert forall i :: 0 <= i < |store| ==> store[i] in store && (store[i].path == key <==> !NotAt(key)(store[i]));
    }
    assert !HasKey(store, key) ==> forall g :: g in store ==> Segs(g.path) != Segs(key);
    SomethingUnder(store, key);
  }

  // The string tests of the delete, as tests on segments.
  lemma KeyTests(path: string, g: Stored)
    ensures NotAt(path)(g) <==> Segs(g.path) != Segs(path)
    ensures NotUnder(path)(g) <==> Segs(g.path) != Segs(path) && !(Segs(path) < Segs(g.path))
  {
    StartsWithIff(path, g.path);
    if Segs(g.path) == Segs(path) {
      SegsInjective(g.path, path);
    }
  }

  lemma SomethingUnder(store: seq<Stored>, path: string)
    ensures (exists g :: g in store && !NotUnder(path)(g))
       <==> StoredAt(store, Segs(path)) || StoredUnder(store, Segs(path))
  {
    if g :| g in store && !NotUnder(path)(g) {
      KeyTests(path, g);
      var i :| 0 <= i < |store| && store[i] == g;
    }
    forall i | 0 <= i < |store| ensures store[i] in store {
      KeyTests(path, store[i]);
    }
    if StoredAt(store, Segs(path)) {
      var i :| 0 <= i < |store| && Segs(store[i].path) == Segs(path);
      KeyTests(path, store[i]);
    }
    if StoredUnder(store, Segs(path)) {
      var i :| 0 <= i < |store| && Segs(path) < Segs(store[i].path);
      KeyTests(path, store[i]);
    }
  }

  ghost predicate Nested(f: Stored, g: Stored) {
    Segs(f.path) < Segs(g.path) || Segs(g.path) < Segs(f.path)
  }

  lemma PrefixFreeIff(store: seq<Stored>)
    ensures PrefixFree(store) <==> forall f, g :: f in store && g in store ==> !Nested(f, g)
  {
    if PrefixFree(store) {
      forall f, g | f in store && g in store ensures !Nested(f, g) {
        var i :| 0 <= i < |store| && store[i] == f;
        var j :| 0 <= j < |store| && store[j] == g;
      }
    } else {
      var i, j :| 0 <= i < |store| && 0 <= j < |store| && Segs(store[i].path) < Segs(store[j].path);
      assert Nested(store[i], store[j]);
    }
  }

  lemma UploadKeepsPrefixFree(store: seq<Stored>, f: Stored)
    requires Keyed(store) && PrefixFree(store)
    ensures PrefixFree(Put(store, f)) <==> forall g :: g in store && g.path != f.path ==> !Nested(f, g)
  {
    PutExact(store, f);
    PrefixFreeIff(store);
    PrefixFreeIff(Put(store, f));
  }

  lemma UploadKeepsWellFormed(store: seq<Stored>, f: Stored)
    requires WellFormedStore(store)
    ensures WellFormedStore(Put(store, f)) <==> WellFormed(f.path)
  {
    PutExact(store, f);
    var r := Put(store, f);
    assert f in r;
    assert forall i :: 0 <= i < |r| ==> r[i] in r;
    assert forall i :: 0 <= i < |r| ==> r[i] == f || WellFormed(r[i].path);
    var k :| 0 <= k < |r| && r[k] == f;
  }

  // As long as the library shows every stored file, an upload keeps it so exactly when the path is
  // well formed and lies neither above nor below that of another stored file.
  lemma UploadKeepsNothingLost(store: seq<Stored>, le: (string, string) -> bool, now: string, f: Stored)
    requires Keyed(store) && NothingLost(store, le, now)
    ensures NothingLost(Put(store, f), le, now)
       <==> WellFormed(f.path) && forall g :: g in store && g.path != f.path ==> !Nested(f, g)
  {
    PutExact(store, f);
    NothingLostIff(store, le, now);
    NothingLostIff(Put(store, f), le, now);
    UploadKeepsPrefixFree(store, f);
    UploadKeepsWellFormed(store, f);
  }

  lemma {:induction false} PutNew(store: seq<Stored>, f: Stored)
    requires !HasKey(store, f.path)
    ensures Put(store, f) == store + [f]
  {
    if |store| > 0 {
      assert store == [store[0]] + store[1..];
      assert forall i :: 0 <= i < |store[1..]| ==> store[1..][i] == store[i + 1];
      PutNew(store[1..], f);
    }
  }

  // Deleting what was just uploaded under a new name restores the store.
  lemma DeleteUndoesPut(store: seq<Stored>, f: Stored)
    requires !HasKey(store, f.path)
    ensures Put(store, f) == store + [f]
    ensures Filter(Put(store, f), NotAt(f.path)) == store
  {
    PutNew(store, f);
    assert (store + [f])[..|store|] == store;
    FilterExact(store, NotAt(f.path));
  }

  // Deleting a path that was just uploaded restores the store, unless the path ended in a slash: the
  // deletion drops the slash, and then hits whatever else is stored there or below.
  lemma DeleteUndoesUpload(store: seq<Stored>, path: string, size: nat, now: string)
    requires Keyed(store) && !HasKey(store, UploadKey(path))
    ensures var key := Trimmed(path);
            DeleteFrom(Put(store, Stored(UploadKey(path), size, now)), path) == Success(store)
            <==> UploadKey(path) == key || !(StoredAt(store, Segs(key)) || StoredUnder(store, Segs(key)))
  {
    var f, key := Stored(UploadKey(path), size, now), Trimmed(path);
    PutNew(store, f);
    if f.path == key {
      DeleteUndoesPut(store, f);
      assert (store + [f])[|store|].path == key;
    } else {
      SlashDropped(path);
      DeleteBelowUndoes(store, f, key);
    }
  }

  lemma SlashDropped(path: string)
    requires UploadKey(path) != Trimmed(path)
    ensures Trimmed(path) + "/" <= UploadKey(path)
  {
    var key := UploadKey(path);
    StripRightIsPrefix(key, IsSlash);
    assert key == key[..|Trimmed(path)|] + key[|Trimmed(path)|..];
  }

  lemma DeleteBelowUndoes(store: seq<Stored>, f: Stored, key: string)
    requires Keyed(store) && !HasKey(store, f.path) && f.path != key && key + "/" <= f.path
    ensures var more := store + [f];
            (if HasKey(more, key) then Success(Filter(more, NotAt(key)))
             else if |Filter(more, NotUnder(key))| == |more| then Failure("Video not found")
             else Success(Filter(more, NotUnder(key)))) == Success(store)
            <==> !(StoredAt(store, Segs(key)) || StoredUnder(store, Segs(key)))
  {
    var more := store + [f];
    assert more[..|store|] == store && more[|store|] == f;
    assert HasKey(more, key) <==> HasKey(store, key) by {
      assert forall i :: 0 <= i < |store| ==> more[i] == store[i];
    }
    assert Filter(more, NotAt(key)) == Filter(store, NotAt(key)) + [f];
    assert Filter(more, NotUnder(key)) == Filter(store, NotUnder(key));
    FilterExact(store, NotAt(key));
    FilterExact(store, NotUnder(key));
    SomethingUnder(store, key);
    DeleteKeyExact(store, key);
  }

  // With `a` stored, uploading `a/` and deleting it again deletes `a` and leaves the upload.
  lemma SlashDeletesAnother(size: nat, now: string)
    ensures var store := [Stored("a", size, now)];
            DeleteFrom(Put(store, Stored(UploadKey("a/"), size, now)), "a/") != Success(store)
  {
    var store := [Stored("a", size, now)];
    SlashKeys();
    assert Segs(store[0].path) == Segs("a");
    DeleteUndoesUpload(store, "a/", size, now);
  }

  lemma SlashKeys()
    ensures UploadKey("a/") == "a/" && Trimmed("a/") == "a"
  {
    assert !IsSpace('a') && !IsSpace('/') && !IsSlash('a');
    StripBare("a/", IsSpace);
    assert "a/" == "a" + "/";
    StripRightPadded("a", "/", IsSlash);
    StripBare("a", IsSlash);
  }
}
