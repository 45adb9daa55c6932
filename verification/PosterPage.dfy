/**
 The poster module as the page runs it: module-level variables that the code between two awaits
 updates in place.  Each method is one such stretch of code and is proved to take exactly one step
 of the protocol, so everything proved about runs of the protocol holds of the variables here.
 */
module PosterPage {
  import opened Options
  import opened PosterProtocol
  import opened PosterKeys

  // What a call to loadVideoPoster is handed: a poster, or the flight whose promise it awaits.
  datatype Loaded = Cached(poster: Poster) | Pending(flight: nat)

  class Page {
    var activeCaptures: nat
    var captureWaiters: seq<nat>
    var inflight: map<Key, nat>
    var memoryCache: map<Key, Poster>
    var sessionStorage: map<Key, Poster>
    var flights: seq<Flight>

    ghost function View(): (s: State)
      reads this
    {
      State(activeCaptures, captureWaiters, inflight, memoryCache, sessionStorage, flights)
    }

    constructor (session: map<Key, Poster>)
      ensures View() == Initial(session)
    {
      activeCaptures, captureWaiters, inflight := 0, [], map[];
      memoryCache, sessionStorage, flights := map[], session, [];
    }

    method ReadCachedPoster(path: string, modifiedAt: string, readable: bool) returns (r: Option<Poster>)
      modifies this`memoryCache
      ensures r == Lookup(old(View()), Key(PosterStorageKey(path, modifiedAt)), readable)
      ensures View() == Next(old(View()), Read(Key(PosterStorageKey(path, modifiedAt)), readable))
      ensures var key := Key(PosterStorageKey(path, modifiedAt));
              if key in old(memoryCache) && old(memoryCache)[key].url != "" then
                r == Some(old(memoryCache)[key]) && memoryCache == old(memoryCache)
              else if readable && key in sessionStorage && "data:image/" <= sessionStorage[key].url then
                r == Some(sessionStorage[key]) && memoryCache == old(memoryCache)[key := sessionStorage[key]]
              else r == None && memoryCache == old(memoryCache)
    {
      var key := Key(PosterStorageKey(path, modifiedAt));
      assert key in memoryCache ==> memoryCache[key := memoryCache[key]] == memoryCache;
      r := ReadKey(key, readable);
    }

    method ReadKey(key: Key, readable: bool) returns (r: Option<Poster>)
      modifies this`memoryCache
      ensures r == Lookup(old(View()), key, readable)
      ensures View() == ReadCached(old(View()), key, readable)
    {
      if key in memoryCache && memoryCache[key].url != "" {
        assert memoryCache == memoryCache[key := memoryCache[key]];
        return Some(memoryCache[key]);
      }
      if readable && key in sessionStorage && IsImage(sessionStorage[key]) {
        memoryCache := memoryCache[key := sessionStorage[key]];
        return Some(sessionStorage[key]);
      }
      return None;
    }

    // One turn of the wait loop in withCaptureSlot, and the start of the work it guards.
    method TestWaitLoop(f: nat, rereadable: bool)
      requires f < |flights|
      modifies this`activeCaptures, this`captureWaiters, this`memoryCache, this`flights
      ensures View() == EnterOrPark(old(View()), f, rereadable)
    {
      if activeCaptures >= MAX_CONCURRENT_CAPTURES {
        captureWaiters := captureWaiters + [f];
        flights := flights[f := flights[f].(phase := Parked)];
      } else {
        activeCaptures := activeCaptures + 1;
        var again := ReadKey(flights[f].key, rereadable);
        flights := flights[f := flights[f].(phase := if again.Some? then Returning(again) else Capturing)];
      }
    }

    method LoadVideoPoster(path: string, modifiedAt: string, readable: bool, rereadable: bool) returns (r: Loaded)
      modifies this
      ensures View() == Next(old(View()), Load(Key(PosterStorageKey(path, modifiedAt)), readable, rereadable))
      ensures var key := Key(PosterStorageKey(path, modifiedAt));
              match r
              case Cached(poster) => Lookup(old(View()), key, readable) == Some(poster)
              case Pending(f) =>
                && Lookup(old(View()), key, readable).None? && key in inflight && inflight[key] == f
                && if key in old(inflight) then View() == old(View())
                   else f == |old(flights)| == |flights| - 1 && flights[f].key == key
    {
      var key := Key(PosterStorageKey(path, modifiedAt));
      var cached := ReadKey(key, readable);
      if cached.Some? {
        return Cached(cached.value);
      }
      if key in inflight {
        return Pending(inflight[key]);
      }
      var f := |flights|;
      flights := flights + [Flight(key, Woken)];
      TestWaitLoop(f, rereadable);
      inflight := inflight[key := f];
      return Pending(f);
    }

    method ResumeWaiter(f: nat, rereadable: bool)
      requires Enabled(View(), Resume(f, rereadable))
      modifies this`activeCaptures, this`captureWaiters, this`memoryCache, this`flights
      ensures View() == Next(old(View()), Resume(f, rereadable))
    {
      TestWaitLoop(f, rereadable);
    }

    method FinishCapture(f: nat, frame: Option<Poster>, writable: bool)
      requires Enabled(View(), Capture(f, frame, writable))
      modifies this`memoryCache, this`sessionStorage, this`flights
      ensures View() == Next(old(View()), Capture(f, frame, writable))
      ensures flights == old(flights)[f := old(flights)[f].(phase := Returning(frame))]
    {
      if frame.Some? {
        WriteKey(flights[f].key, frame.value, writable);
      }
      flights := flights[f := flights[f].(phase := Returning(frame))];
    }

    method WriteKey(key: Key, poster: Poster, writable: bool)
      modifies this`memoryCache, this`sessionStorage
      ensures memoryCache == old(memoryCache)[key := poster]
      ensures sessionStorage == if writable then old(sessionStorage)[key := poster] else old(sessionStorage)
    {
      memoryCache := memoryCache[key := poster];
      if writable {
        sessionStorage := sessionStorage[key := poster];
      }
    }

    method ReleaseCaptureSlot(f: nat)
      requires Enabled(View(), Release(f))
      modifies this`activeCaptures, this`captureWaiters, this`flights
      ensures View() == Next(old(View()), Release(f))
    {
      activeCaptures := activeCaptures - 1;
      flights := flights[f := flights[f].(phase := Settled(flights[f].phase.result))];
      if captureWaiters != [] {
        var woken := captureWaiters[0];
        captureWaiters := captureWaiters[1..];
        flights := flights[woken := flights[woken].(phase := Woken)];
      }
    }

    method ForgetInflight(f: nat)
      requires Enabled(View(), Cleanup(f))
      modifies this`inflight, this`flights
      ensures View() == Next(old(View()), Cleanup(f))
    {
      inflight := inflight - {flights[f].key};
      flights := flights[f := flights[f].(phase := Done(flights[f].phase.result))];
    }
  }

  // Capturing the poster of one revision of one file changes what is read for no other.
  lemma OtherPostersUntouched(s: State, f: nat, frame: Option<Poster>, writable: bool,
                              path: string, modifiedAt: string, path': string, modifiedAt': string, readable: bool)
    requires Enabled(s, Capture(f, frame, writable))
    requires s.flights[f].key == Key(PosterStorageKey(path, modifiedAt))
    requires path' != path || modifiedAt' != modifiedAt
    ensures var key := Key(PosterStorageKey(path', modifiedAt'));
            Lookup(Next(s, Capture(f, frame, writable)), key, readable) == Lookup(s, key, readable)
  {
    if PosterStorageKey(path, modifiedAt) == PosterStorageKey(path', modifiedAt') {
      KeyInjective(path, modifiedAt, path', modifiedAt');
    }
  }
}
