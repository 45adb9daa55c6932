/**
 The poster-capture protocol of the video library page: a two-slot semaphore with a queue of
 waiters, a table of loads in flight, and a memory cache in front of the browser's session store.

 The page runs on an event loop, so the protocol is a transition system: one step is the code that
 runs between two awaits.  A flight is one call that got past the cache and the in-flight table.
 Decoding a frame, and the playback cookie it needs, are an arbitrary outcome of the step that ends
 the capture; so is whether an access to the session store throws.
 */
module PosterProtocol {
  import opened Options

  const MAX_CONCURRENT_CAPTURES := 2
  const IMAGE_PREFIX := "data:image/"

  // A storage key, and the data URL of a poster.
  datatype Key = Key(text: string)
  datatype Poster = Poster(url: string)

  predicate IsImage(p: Poster) {
    IMAGE_PREFIX <= p.url
  }

  // Capturing and Returning hold a slot; Settled has released it but is still in the in-flight table.
  datatype Phase =
    | Parked
    | Woken
    | Capturing
    | Returning(result: Option<Poster>)
    | Settled(result: Option<Poster>)
    | Done(result: Option<Poster>)

  datatype Flight = Flight(key: Key, phase: Phase)

  datatype State = State(
    active: nat,
    waiters: seq<nat>,
    inflight: map<Key, nat>,
    memory: map<Key, Poster>,
    session: map<Key, Poster>,
    flights: seq<Flight>)

  datatype Step =
    | Load(key: Key, readable: bool, rereadable: bool)
    | Read(key: Key, readable: bool)
    | Resume(flight: nat, rereadable: bool)
    | Capture(flight: nat, frame: Option<Poster>, writable: bool)
    | Release(flight: nat)
    | Cleanup(flight: nat)

  /******* The steps *******/

  // What readCachedPoster returns; `readable` is false when the session store throws.
  function Lookup(s: State, key: Key, readable: bool): (r: Option<Poster>) {
    if key in s.memory && s.memory[key].url != "" then Some(s.memory[key])
    else if readable && key in s.session && IsImage(s.session[key]) then Some(s.session[key])
    else None
  }

  // A value found in the session store is copied into memory.
  function ReadCached(s: State, key: Key, readable: bool): (t: State) {
    match Lookup(s, key, readable)
    case Some(poster) => s.(memory := s.memory[key := poster])
    case None => s
  }

  function SetPhase(s: State, f: nat, phase: Phase): (t: State)
    requires f < |s.flights|
  {
    s.(flights := s.flights[f := s.flights[f].(phase := phase)])
  }

  // One test of the wait loop: take a slot and look in the cache again, or queue up.
  function EnterOrPark(s: State, f: nat, rereadable: bool): (t: State)
    requires f < |s.flights|
  {
    if s.active >= MAX_CONCURRENT_CAPTURES then
      SetPhase(s, f, Parked).(waiters := s.waiters + [f])
    else
      var key := s.flights[f].key;
      var again := Lookup(s, key, rereadable);
      SetPhase(ReadCached(s, key, rereadable), f, if again.Some? then Returning(again) else Capturing)
      .(active := s.active + 1)
  }

  // A new flight is entered in the table and makes its first test of the wait loop; the two happen
  // in one step, so their order does not show.
  function Spawn(s: State, key: Key): (t: State) {
    s.(flights := s.flights + [Flight(key, Woken)], inflight := s.inflight[key := |s.flights|])
  }

  function StartFlight(s: State, key: Key, rereadable: bool): (t: State) {
    EnterOrPark(Spawn(s, key), |s.flights|, rereadable)
  }

  function LoadPoster(s: State, key: Key, readable: bool, rereadable: bool): (t: State) {
    if Lookup(s, key, readable).Some? then ReadCached(s, key, readable)
    else if key in s.inflight then s
    else StartFlight(s, key, rereadable)
  }

  // The capture ends: a frame goes to memory, and to the session store if that write succeeds.
  function EndCapture(s: State, f: nat, frame: Option<Poster>, writable: bool): (t: State)
    requires f < |s.flights|
  {
    var key := s.flights[f].key;
    var cached := match frame
      case None => s
      case Some(poster) => s.(memory := s.memory[key := poster],
                              session := if writable then s.session[key := poster] else s.session);
    SetPhase(cached, f, Returning(frame))
  }

  // The slot is given back and the longest waiter, if any, is woken.
  function ReleaseSlot(s: State, f: nat): (t: State)
    requires f < |s.flights| && s.flights[f].phase.Returning? && s.active > 0
    requires s.waiters != [] ==> s.waiters[0] < |s.flights|
  {
    var settled := SetPhase(s, f, Settled(s.flights[f].phase.result)).(active := s.active - 1);
    if s.waiters == [] then settled
    else SetPhase(settled, s.waiters[0], Woken).(waiters := s.waiters[1..])
  }

  function ForgetFlight(s: State, f: nat): (t: State)
    requires f < |s.flights| && s.flights[f].phase.Settled?
  {
    SetPhase(s, f, Done(s.flights[f].phase.result)).(inflight := s.inflight - {s.flights[f].key})
  }

  // Which steps the event loop can take; a capture yields no frame or an image.
  predicate Enabled(s: State, step: Step) {
    match step
    case Load(_, _, _) => true
    case Read(_, _) => true
    case Resume(f, _) => f < |s.flights| && s.flights[f].phase.Woken?
    case Capture(f, frame, _) =>
      f < |s.flights| && s.flights[f].phase.Capturing? && (frame.Some? ==> IsImage(frame.value))
    case Release(f) =>
      f < |s.flights| && s.flights[f].phase.Returning? && s.active > 0
      && (s.waiters != [] ==> s.waiters[0] < |s.flights|)
    case Cleanup(f) => f < |s.flights| && s.flights[f].phase.Settled?
  }

  function Next(s: State, step: Step): (t: State)
    requires Enabled(s, step)
  {
    match step
    case Load(key, readable, rereadable) => LoadPoster(s, key, readable, rereadable)
    case Read(key, readable) => ReadCached(s, key, readable)
    case Resume(f, rereadable) => EnterOrPark(s, f, rereadable)
    case Capture(f, frame, writable) => EndCapture(s, f, frame, writable)
    case Release(f) => ReleaseSlot(s, f)
    case Cleanup(f) => ForgetFlight(s, f)
  }

  /******* Runs *******/

  // A page starts with whatever the session store kept from the page before it.
  function Initial(session: map<Key, Poster>): (s: State) {
    State(0, [], map[], map[], session, [])
  }

  ghost predicate Legal(s: State, steps: seq<Step>)
    decreases |steps|, 0
  {
    |steps| > 0 ==>
      var before := steps[..|steps| - 1];
      Legal(s, before) && Enabled(Exec(s, before), steps[|steps| - 1])
  }

  ghost function Exec(s: State, steps: seq<Step>): (t: State)
    requires Legal(s, steps)
    decreases |steps|, 1
  {
    if |steps| == 0 then s else Next(Exec(s, steps[..|steps| - 1]), steps[|steps| - 1])
  }

  /******* Counting flights *******/

  function HoldsSlot(p: Phase): (n: nat) {
    if p.Capturing? || p.Returning? then 1 else 0
  }

  function IsWoken(p: Phase): (n: nat) {
    if p.Woken? then 1 else 0
  }

  ghost function Sum(fs: seq<Flight>, weight: Phase -> nat): nat {
    if |fs| == 0 then 0 else Sum(fs[..|fs| - 1], weight) + weight(fs[|fs| - 1].phase)
  }

  lemma {:induction false} SumUpdate(fs: seq<Flight>, i: nat, f: Flight, weight: Phase -> nat)
    requires i < |fs|
    ensures Sum(fs[i := f], weight) == Sum(fs, weight) - weight(fs[i].phase) + weight(f.phase)
  {
    var n := |fs| - 1;
    if i == n {
      assert fs[i := f][..n] == fs[..n];
    } else {
      assert fs[i := f][..n] == fs[..n][i := f];
      SumUpdate(fs[..n], i, f, weight);
    }
  }

  lemma SumAppend(fs: seq<Flight>, f: Flight, weight: Phase -> nat)
    ensures Sum(fs + [f], weight) == Sum(fs, weight) + weight(f.phase)
  {
    assert (fs + [f])[..|fs|] == fs;
  }

  lemma {:induction false} SumPositive(fs: seq<Flight>, weight: Phase -> nat) returns (i: nat)
    requires Sum(fs, weight) > 0
    ensures i < |fs| && weight(fs[i].phase) > 0
  {
    var n := |fs| - 1;
    if weight(fs[n].phase) > 0 {
      i := n;
    } else {
      i := SumPositive(fs[..n], weight);
    }
  }

  /******* The invariant *******/

  // `activeCaptures` is the number of flights in a slot.  Whoever waits is owed a wake-up by a slot
  // holder or by a flight that is already awake.
  ghost predicate Balanced(s: State) {
    && s.active == Sum(s.flights, HoldsSlot) <= MAX_CONCURRENT_CAPTURES
    && (s.waiters != [] ==> s.active + Sum(s.flights, IsWoken) >= MAX_CONCURRENT_CAPTURES)
  }

  // The queue lists the parked flights, each once.
  ghost predicate QueueExact(waiters: seq<nat>, fs: seq<Flight>) {
    && (forall i, j :: 0 <= i < j < |waiters| ==> waiters[i] != waiters[j])
    && (forall w :: w in waiters ==> w < |fs| && fs[w].phase.Parked?)
    && (forall f :: 0 <= f < |fs| && fs[f].phase.Parked? ==> f in waiters)
  }

  // The in-flight table maps a key to the one flight for it that is not done.
  ghost predicate SingleFlight(inflight: map<Key, nat>, fs: seq<Flight>) {
    && (forall k :: k in inflight ==>
          inflight[k] < |fs| && fs[inflight[k]].key == k && !fs[inflight[k]].phase.Done?)
    && (forall f :: 0 <= f < |fs| && !fs[f].phase.Done? ==>
          fs[f].key in inflight && inflight[fs[f].key] == f)
  }

  predicate HasPoster(p: Phase) {
    (p.Returning? || p.Settled? || p.Done?) && p.result.Some?
  }

  // Every poster that a load has obtained is the one memory holds.
  ghost predicate PostersCached(memory: map<Key, Poster>, fs: seq<Flight>) {
    forall f :: 0 <= f < |fs| && HasPoster(fs[f].phase) ==>
      fs[f].key in memory && memory[fs[f].key] == fs[f].phase.result.value
  }

  // A key whose poster was obtained is not in flight again.
  ghost predicate ServedOnce(inflight: map<Key, nat>, fs: seq<Flight>) {
    forall f :: 0 <= f < |fs| && fs[f].phase.Done? && HasPoster(fs[f].phase) ==> fs[f].key !in inflight
  }

  ghost predicate OnlyImages(memory: map<Key, Poster>) {
    forall k :: k in memory ==> IsImage(memory[k])
  }

  ghost predicate Coherent(s: State) {
    && QueueExact(s.waiters, s.flights)
    && SingleFlight(s.inflight, s.flights)
    && PostersCached(s.memory, s.flights)
    && ServedOnce(s.inflight, s.flights)
    && OnlyImages(s.memory)
  }

  ghost predicate Inv(s: State) {
    Balanced(s) && Coherent(s)
  }

  /******* Every step keeps the slots and the queue in balance *******/

  lemma SetPhaseSums(s: State, f: nat, phase: Phase)
    requires f < |s.flights|
    ensures var fs := SetPhase(s, f, phase).flights;
            && Sum(fs, HoldsSlot) == Sum(s.flights, HoldsSlot) - HoldsSlot(s.flights[f].phase) + HoldsSlot(phase)
            && Sum(fs, IsWoken) == Sum(s.flights, IsWoken) - IsWoken(s.flights[f].phase) + IsWoken(phase)
  {
    SumUpdate(s.flights, f, s.flights[f].(phase := phase), HoldsSlot);
    SumUpdate(s.flights, f, s.flights[f].(phase := phase), IsWoken);
  }

  lemma EnterOrParkKeepsBalance(s: State, f: nat, rereadable: bool)
    requires Balanced(s) && f < |s.flights| && s.flights[f].phase.Woken?
    ensures Balanced(EnterOrPark(s, f, rereadable))
  {
    SetPhaseSums(s, f, EnterOrPark(s, f, rereadable).flights[f].phase);
  }

  lemma SpawnKeepsBalance(s: State, key: Key)
    requires Balanced(s)
    ensures Balanced(Spawn(s, key))
  {
    SumAppend(s.flights, Flight(key, Woken), HoldsSlot);
    SumAppend(s.flights, Flight(key, Woken), IsWoken);
  }

  lemma ReleaseKeepsBalance(s: State, f: nat)
    requires Balanced(s) && Enabled(s, Release(f))
    requires s.waiters != [] ==> s.flights[s.waiters[0]].phase.Parked?
    ensures Balanced(ReleaseSlot(s, f))
  {
    var settled := Settled(s.flights[f].phase.result);
    SetPhaseSums(s, f, settled);
    if s.waiters != [] {
      SetPhaseSums(SetPhase(s, f, settled), s.waiters[0], Woken);
    }
  }

  lemma StepKeepsBalance(s: State, step: Step)
    requires Balanced(s) && Enabled(s, step)
    requires step.Release? && s.waiters != [] ==> s.flights[s.waiters[0]].phase.Parked?
    ensures Balanced(Next(s, step))
  {
    match step
    case Load(key, readable, rereadable) =>
      SpawnKeepsBalance(s, key);
      EnterOrParkKeepsBalance(Spawn(s, key), |s.flights|, rereadable);
    case Read(key, readable) =>
    case Resume(f, rereadable) => EnterOrParkKeepsBalance(s, f, rereadable);
    case Capture(f, frame, writable) => SetPhaseSums(s, f, Returning(frame));
    case Release(f) => ReleaseKeepsBalance(s, f);
    case Cleanup(f) => SetPhaseSums(s, f, Done(s.flights[f].phase.result));
  }

  /******* Every step keeps the queue, the table and the cache coherent *******/

  // A flight that stays in the table and has no poster that memory does not hold.
  lemma PhaseChangeKeepsTable(s: State, f: nat, phase: Phase)
    requires SingleFlight(s.inflight, s.flights) && PostersCached(s.memory, s.flights) && ServedOnce(s.inflight, s.flights)
    requires f < |s.flights| && !s.flights[f].phase.Done? && !phase.Done?
    requires HasPoster(phase) ==>
               s.flights[f].key in s.memory && s.memory[s.flights[f].key] == phase.result.value
    ensures var fs := SetPhase(s, f, phase).flights;
            SingleFlight(s.inflight, fs) && PostersCached(s.memory, fs) && ServedOnce(s.inflight, fs)
  {
  }

  lemma PhaseChangeKeepsQueue(s: State, f: nat, phase: Phase)
    requires QueueExact(s.waiters, s.flights) && f < |s.flights|
    requires !s.flights[f].phase.Parked? && !phase.Parked?
    ensures QueueExact(s.waiters, SetPhase(s, f, phase).flights)
  {
  }

  lemma PhaseChangeKeepsCoherence(s: State, f: nat, phase: Phase)
    requires Coherent(s) && f < |s.flights|
    requires !s.flights[f].phase.Done? && !phase.Done? && !s.flights[f].phase.Parked? && !phase.Parked?
    requires HasPoster(phase) ==>
               s.flights[f].key in s.memory && s.memory[s.flights[f].key] == phase.result.value
    ensures Coherent(SetPhase(s, f, phase))
  {
    PhaseChangeKeepsTable(s, f, phase);
    PhaseChangeKeepsQueue(s, f, phase);
  }

  lemma ReadKeepsCoherence(s: State, key: Key, readable: bool)
    requires Coherent(s)
    ensures Coherent(ReadCached(s, key, readable))
  {
  }

  lemma SpawnKeepsCoherence(s: State, key: Key)
    requires Coherent(s) && key !in s.inflight && key !in s.memory
    ensures Coherent(Spawn(s, key))
  {
  }

  lemma ParkKeepsQueue(s: State, f: nat)
    requires QueueExact(s.waiters, s.flights) && f < |s.flights| && s.flights[f].phase.Woken?
    ensures QueueExact(s.waiters + [f], SetPhase(s, f, Parked).flights)
  {
  }

  lemma ParkKeepsCoherence(s: State, f: nat)
    requires Coherent(s) && f < |s.flights| && s.flights[f].phase.Woken?
    ensures Coherent(SetPhase(s, f, Parked).(waiters := s.waiters + [f]))
  {
    PhaseChangeKeepsTable(s, f, Parked);
    ParkKeepsQueue(s, f);
  }

  lemma EnterOrParkKeepsCoherence(s: State, f: nat, rereadable: bool)
    requires Coherent(s) && f < |s.flights| && s.flights[f].phase.Woken?
    ensures Coherent(EnterOrPark(s, f, rereadable))
  {
    if s.active >= MAX_CONCURRENT_CAPTURES {
      ParkKeepsCoherence(s, f);
    } else {
      var key := s.flights[f].key;
      ReadKeepsCoherence(s, key, rereadable);
      PhaseChangeKeepsCoherence(ReadCached(s, key, rereadable), f, EnterOrPark(s, f, rereadable).flights[f].phase);
    }
  }

  // Nothing else refers to the key of a flight that is still capturing.
  lemma CachingKeepsCoherence(s: State, f: nat, poster: Poster)
    requires Coherent(s) && f < |s.flights| && s.flights[f].phase.Capturing? && IsImage(poster)
    ensures Coherent(s.(memory := s.memory[s.flights[f].key := poster]))
  {
  }

  lemma EndCaptureKeepsCoherence(s: State, f: nat, frame: Option<Poster>, writable: bool)
    requires Coherent(s) && Enabled(s, Capture(f, frame, writable))
    ensures Coherent(EndCapture(s, f, frame, writable))
  {
    match frame
    case None => PhaseChangeKeepsCoherence(s, f, Returning(frame));
    case Some(poster) =>
      CachingKeepsCoherence(s, f, poster);
      PhaseChangeKeepsCoherence(s.(memory := s.memory[s.flights[f].key := poster]), f, Returning(frame));
  }

  lemma HeadIsParked(s: State)
    requires QueueExact(s.waiters, s.flights) && s.waiters != []
    ensures s.waiters[0] < |s.flights| && s.flights[s.waiters[0]].phase.Parked?
  {
    assert s.waiters[0] in s.waiters;
  }

  lemma WakeKeepsQueue(s: State)
    requires QueueExact(s.waiters, s.flights) && s.waiters != [] && s.waiters[0] < |s.flights|
    ensures QueueExact(s.waiters[1..], SetPhase(s, s.waiters[0], Woken).flights)
  {
    var head, rest := s.waiters[0], s.waiters[1..];
    assert s.waiters == [head] + rest;
    assert head !in rest;
    assert forall w :: w in s.waiters <==> w == head || w in rest;
  }

  lemma WakeKeepsCoherence(s: State)
    requires Coherent(s) && s.waiters != []
    ensures s.waiters[0] < |s.flights| && s.flights[s.waiters[0]].phase.Parked?
    ensures Coherent(SetPhase(s, s.waiters[0], Woken).(waiters := s.waiters[1..]))
  {
    HeadIsParked(s);
    PhaseChangeKeepsTable(s, s.waiters[0], Woken);
    WakeKeepsQueue(s);
  }

  lemma ReleaseKeepsCoherence(s: State, f: nat)
    requires Coherent(s) && Enabled(s, Release(f))
    ensures Coherent(ReleaseSlot(s, f))
  {
    var settled := SetPhase(s, f, Settled(s.flights[f].phase.result));
    PhaseChangeKeepsCoherence(s, f, Settled(s.flights[f].phase.result));
    if s.waiters != [] {
      WakeKeepsCoherence(settled);
    }
  }

  lemma ForgetKeepsCoherence(s: State, f: nat)
    requires Coherent(s) && Enabled(s, Cleanup(f))
    ensures Coherent(ForgetFlight(s, f))
  {
  }

  lemma LoadKeepsCoherence(s: State, key: Key, readable: bool, rereadable: bool)
    requires Coherent(s)
    ensures Coherent(LoadPoster(s, key, readable, rereadable))
  {
    if Lookup(s, key, readable).Some? {
      ReadKeepsCoherence(s, key, readable);
    } else if key !in s.inflight {
      SpawnKeepsCoherence(s, key);
      EnterOrParkKeepsCoherence(Spawn(s, key), |s.flights|, rereadable);
    }
  }

  lemma StepKeepsCoherence(s: State, step: Step)
    requires Coherent(s) && Enabled(s, step)
    ensures Coherent(Next(s, step))
  {
    match step
    case Load(key, readable, rereadable) => LoadKeepsCoherence(s, key, readable, rereadable);
    case Read(key, readable) => ReadKeepsCoherence(s, key, readable);
    case Resume(f, rereadable) => EnterOrParkKeepsCoherence(s, f, rereadable);
    case Capture(f, frame, writable) => EndCaptureKeepsCoherence(s, f, frame, writable);
    case Release(f) => ReleaseKeepsCoherence(s, f);
    case Cleanup(f) => ForgetKeepsCoherence(s, f);
  }

  lemma StepKeepsInv(s: State, step: Step)
    requires Inv(s) && Enabled(s, step)
    ensures Inv(Next(s, step))
  {
    if s.waiters != [] {
      HeadIsParked(s);
    }
    StepKeepsBalance(s, step);
    StepKeepsCoherence(s, step);
  }
}
