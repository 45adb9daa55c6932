/**
 What every run of the poster-capture protocol satisfies, from page load and in any interleaving.
 */
module PosterRuns {
  import opened Options
  import opened PosterProtocol

  /******* Safety *******/

  lemma {:induction false} RunsKeepInv(s: State, steps: seq<Step>)
    requires Inv(s) && Legal(s, steps)
    ensures Inv(Exec(s, steps))
  {
    if |steps| > 0 {
      var before := steps[..|steps| - 1];
      RunsKeepInv(s, before);
      StepKeepsInv(Exec(s, before), steps[|steps| - 1]);
    }
  }

  // Every state a page can reach satisfies the invariant.
  lemma ReachableInv(session: map<Key, Poster>, steps: seq<Step>)
    requires Legal(Initial(session), steps)
    ensures Inv(Exec(Initial(session), steps))
  {
    RunsKeepInv(Initial(session), steps);
  }

  ghost function Holders(s: State): (r: set<nat>) {
    set f: nat | f < |s.flights| && (s.flights[f].phase.Capturing? || s.flights[f].phase.Returning?)
  }

  ghost function WokenOnes(s: State): (r: set<nat>) {
    set f: nat | f < |s.flights| && s.flights[f].phase.Woken?
  }

  ghost function Weighing(fs: seq<Flight>, weight: Phase -> nat): (r: set<nat>) {
    set f: nat | f < |fs| && weight(fs[f].phase) == 1
  }

  lemma {:induction false} SumCounts(fs: seq<Flight>, weight: Phase -> nat)
    requires forall p: Phase :: weight(p) <= 1
    ensures Sum(fs, weight) == |Weighing(fs, weight)|
  {
    if |fs| > 0 {
      var n := |fs| - 1;
      SumCounts(fs[..n], weight);
      assert Weighing(fs, weight) == Weighing(fs[..n], weight) + if weight(fs[n].phase) == 1 then {n} else {};
    }
  }

  // In every reachable state `activeCaptures` is the number of flights in a slot and at most 2, and
  // while anyone waits, those in a slot and those awake but not yet back in line number at least 2.
  lemma SlotsCounted(session: map<Key, Poster>, steps: seq<Step>)
    requires Legal(Initial(session), steps)
    ensures var s := Exec(Initial(session), steps);
            && s.active == |Holders(s)| <= 2
            && (s.waiters != [] ==> |Holders(s)| + |WokenOnes(s)| >= 2)
  {
    var s := Exec(Initial(session), steps);
    ReachableInv(session, steps);
    SumCounts(s.flights, HoldsSlot);
    SumCounts(s.flights, IsWoken);
    assert Weighing(s.flights, HoldsSlot) == Holders(s);
    assert Weighing(s.flights, IsWoken) == WokenOnes(s);
  }

  // Two flights that both hold a slot are for different posters.
  lemma NoOverlappingCaptures(session: map<Key, Poster>, steps: seq<Step>, f: nat, g: nat)
    requires Legal(Initial(session), steps)
    requires f < g < |Exec(Initial(session), steps).flights|
    requires var fs := Exec(Initial(session), steps).flights;
             HoldsSlot(fs[f].phase) > 0 && HoldsSlot(fs[g].phase) > 0
    ensures var fs := Exec(Initial(session), steps).flights; fs[f].key != fs[g].key
  {
    ReachableInv(session, steps);
  }

  // Waiters are served in the order in which they queued up: a step leaves the queue alone, adds a
  // flight at its end, or wakes the one at its head.
  lemma QueueIsFifo(s: State, step: Step)
    requires Enabled(s, step)
    ensures var t := Next(s, step);
            || t.waiters == s.waiters
            || (|t.waiters| == |s.waiters| + 1 && t.waiters[..|s.waiters|] == s.waiters)
            || (s.waiters != [] && t.waiters == s.waiters[1..] && t.flights[s.waiters[0]].phase.Woken?)
  {
    match step
    case Load(key, readable, rereadable) => EnterOrParkQueue(Spawn(s, key), |s.flights|, rereadable);
    case Read(key, readable) =>
    case Resume(f, rereadable) => EnterOrParkQueue(s, f, rereadable);
    case Capture(f, frame, writable) =>
    case Release(f) =>
    case Cleanup(f) =>
  }

  lemma EnterOrParkQueue(s: State, f: nat, rereadable: bool)
    requires f < |s.flights|
    ensures EnterOrPark(s, f, rereadable).waiters == if s.active >= MAX_CONCURRENT_CAPTURES then s.waiters + [f] else s.waiters
    ensures s.active >= MAX_CONCURRENT_CAPTURES ==> (s.waiters + [f])[..|s.waiters|] == s.waiters
  {
  }

  // A capture starts only on a cache miss.
  lemma CapturesOnlyOnMiss(s: State, step: Step, f: nat)
    requires OnlyImages(s.memory) && Enabled(s, step)
    requires f < |Next(s, step).flights| && Next(s, step).flights[f].phase.Capturing?
    requires f < |s.flights| ==> !s.flights[f].phase.Capturing?
    ensures Next(s, step).flights[f].key !in s.memory
  {
    match step
    case Load(key, readable, rereadable) => EnterOnMiss(Spawn(s, key), |s.flights|, rereadable);
    case Read(key, readable) =>
    case Resume(g, rereadable) => EnterOnMiss(s, g, rereadable);
    case Capture(g, frame, writable) =>
    case Release(g) =>
    case Cleanup(g) =>
  }

  lemma EnterOnMiss(s: State, f: nat, rereadable: bool)
    requires OnlyImages(s.memory) && f < |s.flights|
    ensures var t := EnterOrPark(s, f, rereadable);
            && t.flights == s.flights[f := s.flights[f].(phase := t.flights[f].phase)]
            && (t.flights[f].phase.Capturing? ==> s.flights[f].key !in s.memory)
  {
  }

  /******* Every schedule drains *******/

  // Steps a flight can still cost.  A release turns a returning flight into a settled one and a
  // parked flight into a woken one, and the two together still cost less than before.
  function Cost(p: Phase): (n: nat) {
    match p
    case Parked => 4
    case Woken => 5
    case Capturing => 4
    case Returning(_) => 3
    case Settled(_) => 1
    case Done(_) => 0
  }

  lemma SetPhaseCost(s: State, f: nat, phase: Phase)
    requires f < |s.flights|
    ensures Sum(SetPhase(s, f, phase).flights, Cost)
         == Sum(s.flights, Cost) - Cost(s.flights[f].phase) + Cost(phase)
  {
    SumUpdate(s.flights, f, s.flights[f].(phase := phase), Cost);
  }

  function LoadsOf(steps: seq<Step>): (n: nat) {
    if |steps| == 0 then 0
    else LoadsOf(steps[..|steps| - 1]) + if steps[|steps| - 1].Load? then 1 else 0
  }

  function ReadsOf(steps: seq<Step>): (n: nat) {
    if |steps| == 0 then 0
    else ReadsOf(steps[..|steps| - 1]) + if steps[|steps| - 1].Read? then 1 else 0
  }

  lemma EnterOrParkCost(s: State, f: nat, rereadable: bool)
    requires f < |s.flights| && s.flights[f].phase.Woken?
    ensures Sum(EnterOrPark(s, f, rereadable).flights, Cost) < Sum(s.flights, Cost)
  {
    SetPhaseCost(s, f, EnterOrPark(s, f, rereadable).flights[f].phase);
  }

  lemma LoadCost(s: State, key: Key, readable: bool, rereadable: bool)
    ensures Sum(LoadPoster(s, key, readable, rereadable).flights, Cost) <= Sum(s.flights, Cost) + 4
  {
    SumAppend(s.flights, Flight(key, Woken), Cost);
    EnterOrParkCost(Spawn(s, key), |s.flights|, rereadable);
  }

  lemma ReleaseCost(s: State, f: nat)
    requires Enabled(s, Release(f))
    requires s.waiters != [] ==> s.flights[s.waiters[0]].phase.Parked?
    ensures Sum(ReleaseSlot(s, f).flights, Cost) < Sum(s.flights, Cost)
  {
    var settled := Settled(s.flights[f].phase.result);
    SetPhaseCost(s, f, settled);
    if s.waiters != [] {
      SetPhaseCost(SetPhase(s, f, settled), s.waiters[0], Woken);
    }
  }

  lemma StepCost(s: State, step: Step)
    requires Enabled(s, step)
    requires s.waiters != [] ==> s.waiters[0] < |s.flights| && s.flights[s.waiters[0]].phase.Parked?
    ensures var spent, left := Sum(s.flights, Cost), Sum(Next(s, step).flights, Cost);
            if step.Load? then left <= spent + 4
            else if step.Read? then left == spent
            else left < spent
  {
    match step
    case Load(key, readable, rereadable) => LoadCost(s, key, readable, rereadable);
    case Read(key, readable) =>
    case Resume(f, rereadable) => EnterOrParkCost(s, f, rereadable);
    case Capture(f, frame, writable) => SetPhaseCost(s, f, Returning(frame));
    case Release(f) => ReleaseCost(s, f);
    case Cleanup(f) => SetPhaseCost(s, f, Done(s.flights[f].phase.result));
  }

  // However the loads interleave, barge and queue up again, they take five steps each at most.
  lemma {:induction false} RunLengthBound(session: map<Key, Poster>, steps: seq<Step>)
    requires Legal(Initial(session), steps)
    ensures |steps| + Sum(Exec(Initial(session), steps).flights, Cost) <= 5 * LoadsOf(steps) + ReadsOf(steps)
  {
    if |steps| > 0 {
      var before := steps[..|steps| - 1];
      RunLengthBound(session, before);
      ReachableInv(session, before);
      var s := Exec(Initial(session), before);
      if s.waiters != [] {
        HeadIsParked(s);
      }
      StepCost(s, steps[|steps| - 1]);
    }
  }

  ghost predicate Drained(s: State) {
    && s.active == 0 && s.waiters == [] && s.inflight == map[]
    && (forall f :: 0 <= f < |s.flights| ==> s.flights[f].phase.Done?)
  }

  // A step that the event loop can take without a new call from the page.
  lemma Progress(s: State) returns (step: Step)
    requires Inv(s) && !Drained(s)
    ensures Enabled(s, step) && !step.Load? && !step.Read?
  {
    if f :| 0 <= f < |s.flights| && s.flights[f].phase.Woken? {
      step := Resume(f, true);
    } else if f :| 0 <= f < |s.flights| && s.flights[f].phase.Settled? {
      step := Cleanup(f);
    } else if f :| 0 <= f < |s.flights| && s.flights[f].phase.Capturing? {
      step := Capture(f, None, true);
    } else if f :| 0 <= f < |s.flights| && s.flights[f].phase.Returning? {
      if s.waiters != [] {
        HeadIsParked(s);
      }
      SlotHolderCounted(s.flights, f);
      step := Release(f);
    } else {
      NobodyWaitsAlone(s);
      assert false;
    }
  }

  lemma {:induction false} SlotHolderCounted(fs: seq<Flight>, f: nat)
    requires f < |fs| && HoldsSlot(fs[f].phase) > 0
    ensures Sum(fs, HoldsSlot) > 0
  {
    if f < |fs| - 1 {
      SlotHolderCounted(fs[..|fs| - 1], f);
    }
  }

  // With nobody in a slot, awake or settling, nobody is parked either.
  lemma NobodyWaitsAlone(s: State)
    requires Inv(s)
    requires forall f :: 0 <= f < |s.flights| ==> s.flights[f].phase.Parked? || s.flights[f].phase.Done?
    ensures Drained(s)
  {
    if Sum(s.flights, HoldsSlot) > 0 {
      var f := SumPositive(s.flights, HoldsSlot);
      assert false;
    }
    if Sum(s.flights, IsWoken) > 0 {
      var f := SumPositive(s.flights, IsWoken);
      assert false;
    }
    assert s.waiters == [];
    assert forall k :: k !in s.inflight;
  }

  // A run that cannot go on by itself has finished every load and freed every slot.
  lemma StuckMeansDrained(session: map<Key, Poster>, steps: seq<Step>)
    requires Legal(Initial(session), steps)
    requires forall step :: Enabled(Exec(Initial(session), steps), step) ==> step.Load? || step.Read?
    ensures Drained(Exec(Initial(session), steps))
  {
    ReachableInv(session, steps);
    if !Drained(Exec(Initial(session), steps)) {
      var step := Progress(Exec(Initial(session), steps));
      assert false;
    }
  }

  /******* The cache *******/

  predicate CapturesFrame(s: State, step: Step, key: Key)
    requires Enabled(s, step)
  {
    step.Capture? && step.frame.Some? && s.flights[step.flight].key == key
  }

  predicate Kept(before: map<Key, Poster>, after: map<Key, Poster>, key: Key) {
    key in before ==> key in after && after[key] == before[key]
  }

  lemma ReadKeeps(s: State, read: Key, readable: bool, key: Key)
    requires OnlyImages(s.memory)
    ensures Kept(s.memory, ReadCached(s, read, readable).memory, key)
  {
  }

  // Only a capture that ends with a frame can replace a poster that memory holds.
  lemma OnlyCapturesReplace(s: State, step: Step, key: Key)
    requires OnlyImages(s.memory) && Enabled(s, step) && !CapturesFrame(s, step, key)
    ensures Kept(s.memory, Next(s, step).memory, key)
  {
    match step
    case Load(k, readable, rereadable) =>
      ReadKeeps(s, k, readable, key);
      ReadKeeps(Spawn(s, k), k, rereadable, key);
    case Read(k, readable) => ReadKeeps(s, k, readable, key);
    case Resume(f, rereadable) => ReadKeeps(s, s.flights[f].key, rereadable, key);
    case Capture(f, frame, writable) =>
    case Release(f) =>
    case Cleanup(f) =>
  }

  ghost function FramesOf(s: State, steps: seq<Step>, key: Key): (n: nat)
    requires Legal(s, steps)
  {
    if |steps| == 0 then 0
    else
      var before := steps[..|steps| - 1];
      FramesOf(s, before, key) + if CapturesFrame(Exec(s, before), steps[|steps| - 1], key) then 1 else 0
  }

  ghost predicate NotCapturing(s: State, key: Key) {
    forall f :: 0 <= f < |s.flights| && s.flights[f].key == key ==> !s.flights[f].phase.Capturing?
  }

  lemma SetPhaseNotCapturing(s: State, f: nat, phase: Phase, key: Key)
    requires f < |s.flights| && (!phase.Capturing? || s.flights[f].key != key) && NotCapturing(s, key)
    ensures NotCapturing(SetPhase(s, f, phase), key)
  {
  }

  lemma EnterOrParkNotCapturing(s: State, f: nat, rereadable: bool, key: Key)
    requires OnlyImages(s.memory) && f < |s.flights| && key in s.memory && NotCapturing(s, key)
    ensures NotCapturing(EnterOrPark(s, f, rereadable), key)
  {
    SetPhaseNotCapturing(s, f, EnterOrPark(s, f, rereadable).flights[f].phase, key);
  }

  // Nobody captures a poster that memory holds, or that has just been captured.
  lemma StaysUncaptured(s: State, step: Step, key: Key)
    requires OnlyImages(s.memory) && SingleFlight(s.inflight, s.flights) && Enabled(s, step)
    requires CapturesFrame(s, step, key) || (key in s.memory && NotCapturing(s, key))
    ensures key in Next(s, step).memory && NotCapturing(Next(s, step), key)
  {
    if !CapturesFrame(s, step, key) {
      OnlyCapturesReplace(s, step, key);
    }
    match step
    case Load(k, readable, rereadable) =>
      assert NotCapturing(Spawn(s, k), key);
      EnterOrParkNotCapturing(Spawn(s, k), |s.flights|, rereadable, key);
    case Read(k, readable) =>
    case Resume(f, rereadable) => EnterOrParkNotCapturing(s, f, rereadable, key);
    case Capture(f, frame, writable) => CaptureNotCapturing(s, f, frame, key);
    case Release(f) =>
      var settled := Settled(s.flights[f].phase.result);
      SetPhaseNotCapturing(s, f, settled, key);
      if s.waiters != [] {
        SetPhaseNotCapturing(SetPhase(s, f, settled), s.waiters[0], Woken, key);
      }
    case Cleanup(f) => SetPhaseNotCapturing(s, f, Done(s.flights[f].phase.result), key);
  }

  lemma CaptureNotCapturing(s: State, f: nat, frame: Option<Poster>, key: Key)
    requires SingleFlight(s.inflight, s.flights) && f < |s.flights| && s.flights[f].phase.Capturing?
    requires s.flights[f].key == key || NotCapturing(s, key)
    ensures NotCapturing(SetPhase(s, f, Returning(frame)), key)
  {
  }

  // Each poster is captured at most once in the life of a page.
  lemma {:induction false} CapturedAtMostOnce(session: map<Key, Poster>, steps: seq<Step>, key: Key)
    requires Legal(Initial(session), steps)
    ensures FramesOf(Initial(session), steps, key) <= 1
    ensures FramesOf(Initial(session), steps, key) == 1 ==>
              var s := Exec(Initial(session), steps); key in s.memory && NotCapturing(s, key)
  {
    if |steps| > 0 {
      var before := steps[..|steps| - 1];
      CapturedAtMostOnce(session, before, key);
      ReachableInv(session, before);
      var s := Exec(Initial(session), before);
      if FramesOf(Initial(session), before, key) == 1 || CapturesFrame(s, steps[|steps| - 1], key) {
        StaysUncaptured(s, steps[|steps| - 1], key);
      }
    }
  }

  // The promise of the flight is as good as resolved: its work has returned.
  predicate HasAnswer(p: Phase) {
    p.Returning? || p.Settled? || p.Done?
  }

  // A flight that has its answer keeps it, and its key.
  predicate KeepsAnswer(fs: seq<Flight>, gs: seq<Flight>, f: nat) {
    f < |fs| && HasAnswer(fs[f].phase) ==>
      && f < |gs| && HasAnswer(gs[f].phase)
      && gs[f].key == fs[f].key && gs[f].phase.result == fs[f].phase.result
  }

  lemma SetPhaseKeepsAnswer(s: State, g: nat, phase: Phase, f: nat)
    requires g < |s.flights| && (HasAnswer(s.flights[g].phase) ==> HasAnswer(phase) && phase.result == s.flights[g].phase.result)
    ensures KeepsAnswer(s.flights, SetPhase(s, g, phase).flights, f)
  {
  }

  lemma EnterOrParkKeepsAnswer(s: State, g: nat, rereadable: bool, f: nat)
    requires g < |s.flights| && s.flights[g].phase.Woken?
    ensures KeepsAnswer(s.flights, EnterOrPark(s, g, rereadable).flights, f)
  {
    SetPhaseKeepsAnswer(s, g, EnterOrPark(s, g, rereadable).flights[g].phase, f);
  }

  lemma ReleaseKeepsAnswer(s: State, g: nat, f: nat)
    requires Enabled(s, Release(g)) && (s.waiters != [] ==> s.flights[s.waiters[0]].phase.Parked?)
    ensures KeepsAnswer(s.flights, ReleaseSlot(s, g).flights, f)
  {
    var settled := Settled(s.flights[g].phase.result);
    SetPhaseKeepsAnswer(s, g, settled, f);
    if s.waiters != [] {
      SetPhaseKeepsAnswer(SetPhase(s, g, settled), s.waiters[0], Woken, f);
    }
  }

  lemma AnswerKeptByStep(s: State, step: Step, f: nat)
    requires Enabled(s, step)
    requires s.waiters != [] ==> s.waiters[0] < |s.flights| && s.flights[s.waiters[0]].phase.Parked?
    ensures KeepsAnswer(s.flights, Next(s, step).flights, f)
  {
    match step
    case Load(key, readable, rereadable) =>
      EnterOrParkKeepsAnswer(Spawn(s, key), |s.flights|, rereadable, f);
    case Read(key, readable) =>
    case Resume(g, rereadable) => EnterOrParkKeepsAnswer(s, g, rereadable, f);
    case Capture(g, frame, writable) => SetPhaseKeepsAnswer(s, g, Next(s, step).flights[g].phase, f);
    case Release(g) => ReleaseKeepsAnswer(s, g, f);
    case Cleanup(g) => SetPhaseKeepsAnswer(s, g, Done(s.flights[g].phase.result), f);
  }

  lemma {:induction false} AnswerKept(s: State, more: seq<Step>, f: nat)
    requires Inv(s) && Legal(s, more) && f < |s.flights| && HasAnswer(s.flights[f].phase)
    ensures KeepsAnswer(s.flights, Exec(s, more).flights, f)
  {
    if |more| > 0 {
      var before := more[..|more| - 1];
      AnswerKept(s, before, f);
      RunsKeepInv(s, before);
      var t := Exec(s, before);
      if t.waiters != [] {
        HeadIsParked(t);
      }
      AnswerKeptByStep(t, more[|more| - 1], f);
    }
  }

  // The promise of the flight resolves to the given answer.
  predicate Answers(s: State, f: nat, answer: Option<Poster>) {
    f < |s.flights| && HasAnswer(s.flights[f].phase) && s.flights[f].phase.result == answer
  }

  // A capture answers what it captured: a frame, or nothing.  With a frame, every read from then on
  // returns it; and if the store could be written, so does the first read of the next page.
  lemma CaptureAnswers(session: map<Key, Poster>, steps: seq<Step>, f: nat, frame: Option<Poster>, writable: bool,
                       more: seq<Step>, readable: bool)
    requires Legal(Initial(session), steps) && Enabled(Exec(Initial(session), steps), Capture(f, frame, writable))
    requires Legal(Next(Exec(Initial(session), steps), Capture(f, frame, writable)), more)
    ensures var key := Exec(Initial(session), steps).flights[f].key;
            var t := Exec(Next(Exec(Initial(session), steps), Capture(f, frame, writable)), more);
            && Answers(t, f, frame) && t.flights[f].key == key
            && (frame.Some? ==> Lookup(t, key, readable) == frame)
            && (frame.Some? && writable ==> Lookup(Initial(t.session), key, true) == frame)
  {
    var s := Exec(Initial(session), steps);
    var u := Next(s, Capture(f, frame, writable));
    ReachableInv(session, steps);
    StepKeepsInv(s, Capture(f, frame, writable));
    AnswerKept(u, more, f);
    RunsKeepInv(u, more);
    if frame.Some? {
      assert IsImage(Exec(u, more).memory[s.flights[f].key]);
      StaysUncaptured(s, Capture(f, frame, writable), s.flights[f].key);
      SessionKept(u, more, s.flights[f].key);
    }
  }

  lemma SessionKeptByStep(s: State, step: Step, key: Key)
    requires OnlyImages(s.memory) && SingleFlight(s.inflight, s.flights) && Enabled(s, step)
    requires key in s.memory && NotCapturing(s, key)
    ensures Kept(s.session, Next(s, step).session, key)
    ensures key in Next(s, step).memory && NotCapturing(Next(s, step), key)
  {
    StaysUncaptured(s, step, key);
  }

  // Once a poster was captured, the store is written for its key no more.
  lemma {:induction false} SessionKept(s: State, more: seq<Step>, key: Key)
    requires Inv(s) && Legal(s, more) && key in s.memory && NotCapturing(s, key)
    ensures Kept(s.session, Exec(s, more).session, key)
    ensures key in Exec(s, more).memory && NotCapturing(Exec(s, more), key)
  {
    if |more| > 0 {
      var before, last := more[..|more| - 1], more[|more| - 1];
      SessionKept(s, before, key);
      RunsKeepInv(s, before);
      SessionKeptByStep(Exec(s, before), last, key);
    }
  }

  // A flight that gets a slot and finds a poster on its second look answers that poster.
  lemma SecondLookAnswers(session: map<Key, Poster>, steps: seq<Step>, f: nat, rereadable: bool, more: seq<Step>)
    requires Legal(Initial(session), steps) && Enabled(Exec(Initial(session), steps), Resume(f, rereadable))
    requires var s := Exec(Initial(session), steps);
             && s.active < 2 && Lookup(s, s.flights[f].key, rereadable).Some?
             && Legal(Next(s, Resume(f, rereadable)), more)
    ensures var s := Exec(Initial(session), steps);
            Answers(Exec(Next(s, Resume(f, rereadable)), more), f, Lookup(s, s.flights[f].key, rereadable))
  {
    var s := Exec(Initial(session), steps);
    ReachableInv(session, steps);
    StepKeepsInv(s, Resume(f, rereadable));
    AnswerKept(Next(s, Resume(f, rereadable)), more, f);
  }

  // So does a new flight that finds a slot free and a poster that the first look could not read.
  lemma FirstTestAnswers(session: map<Key, Poster>, steps: seq<Step>, key: Key, readable: bool, rereadable: bool,
                         more: seq<Step>)
    requires Legal(Initial(session), steps)
    requires var s := Exec(Initial(session), steps);
             && Lookup(s, key, readable).None? && key !in s.inflight
             && s.active < 2 && Lookup(s, key, rereadable).Some?
             && Legal(Next(s, Load(key, readable, rereadable)), more)
    ensures var s := Exec(Initial(session), steps);
            Answers(Exec(Next(s, Load(key, readable, rereadable)), more), |s.flights|, Lookup(s, key, rereadable))
  {
    var s := Exec(Initial(session), steps);
    ReachableInv(session, steps);
    StepKeepsInv(s, Load(key, readable, rereadable));
    AnswerKept(Next(s, Load(key, readable, rereadable)), more, |s.flights|);
  }

  // What a load obtained, every later read of that key returns, whether or not the session store
  // can be read or written.
  lemma ObtainedPostersStay(session: map<Key, Poster>, steps: seq<Step>, more: seq<Step>, f: nat, readable: bool)
    requires Legal(Initial(session), steps) && Legal(Exec(Initial(session), steps), more)
    requires f < |Exec(Initial(session), steps).flights|
    requires HasPoster(Exec(Initial(session), steps).flights[f].phase)
    ensures var s := Exec(Initial(session), steps);
            Lookup(Exec(s, more), s.flights[f].key, readable) == s.flights[f].phase.result
  {
    var s := Exec(Initial(session), steps);
    ReachableInv(session, steps);
    AnswerKept(s, more, f);
    RunsKeepInv(s, more);
    assert IsImage(Exec(s, more).memory[s.flights[f].key]);
  }

  /******* When is a poster, once read, always the same? *******/

  // If a read returns a poster for the key now, every later read returns that poster.
  ghost predicate StableFrom(s: State, key: Key) {
    forall readable, more, later :: Lookup(s, key, readable).Some? && Legal(Next(s, Read(key, readable)), more) ==>
      Lookup(Exec(Next(s, Read(key, readable)), more), key, later) == Lookup(s, key, readable)
  }

  ghost predicate StableFor(session: map<Key, Poster>, key: Key) {
    forall steps :: Legal(Initial(session), steps) ==> StableFrom(Exec(Initial(session), steps), key)
  }

  predicate HoldsPoster(session: map<Key, Poster>, key: Key) {
    key in session && IsImage(session[key])
  }

  // No flight is capturing a poster that a read with this flag would find.
  ghost predicate NoneStale(s: State, key: Key, readable: bool) {
    !NotCapturing(s, key) ==> Lookup(s, key, readable).None?
  }

  predicate FlagsAre(step: Step, b: bool) {
    match step
    case Load(_, readable, rereadable) => readable == b && rereadable == b
    case Read(_, readable) => readable == b
    case Resume(_, rereadable) => rereadable == b
    case _ => true
  }

  // Whatever the session store holds for the key, memory holds already, so no read consults it.
  predicate Blind(s: State, key: Key) {
    HoldsPoster(s.session, key) ==> key in s.memory
  }

  lemma ReadKeepsNoneStale(s: State, read: Key, readable: bool, key: Key, b: bool)
    requires OnlyImages(s.memory) && NoneStale(s, key, b)
    requires readable == b || (b && Blind(s, key))
    ensures NoneStale(ReadCached(s, read, readable), key, b)
    ensures Kept(s.memory, ReadCached(s, read, readable).memory, key)
  {
  }

  lemma SetPhaseKeepsNoneStale(s: State, f: nat, phase: Phase, key: Key, b: bool)
    requires f < |s.flights| && NoneStale(s, key, b)
    requires phase.Capturing? ==> s.flights[f].key != key || Lookup(s, key, b).None?
    ensures NoneStale(SetPhase(s, f, phase), key, b)
  {
    if NotCapturing(s, key) && !(phase.Capturing? && s.flights[f].key == key) {
      SetPhaseNotCapturing(s, f, phase, key);
    }
  }

  lemma EnterOrParkKeepsNoneStale(s: State, f: nat, rereadable: bool, key: Key, b: bool)
    requires OnlyImages(s.memory) && NoneStale(s, key, b) && f < |s.flights|
    requires rereadable == b || (b && Blind(s, key))
    ensures NoneStale(EnterOrPark(s, f, rereadable), key, b)
    ensures Kept(s.memory, EnterOrPark(s, f, rereadable).memory, key)
  {
    if s.active >= MAX_CONCURRENT_CAPTURES {
      SetPhaseKeepsNoneStale(s, f, Parked, key, b);
    } else {
      var t := ReadCached(s, s.flights[f].key, rereadable);
      ReadKeepsNoneStale(s, s.flights[f].key, rereadable, key, b);
      SetPhaseKeepsNoneStale(t, f, EnterOrPark(s, f, rereadable).flights[f].phase, key, b);
    }
  }

  lemma EndCaptureKeepsNoneStale(s: State, f: nat, frame: Option<Poster>, writable: bool, key: Key, b: bool)
    requires SingleFlight(s.inflight, s.flights) && Enabled(s, Capture(f, frame, writable))
    requires OnlyImages(s.memory) && NoneStale(s, key, b)
    ensures NoneStale(EndCapture(s, f, frame, writable), key, b)
    ensures Kept(s.memory, EndCapture(s, f, frame, writable).memory, key)
  {
  }

  lemma LoadKeepsNoneStale(s: State, k: Key, readable: bool, rereadable: bool, key: Key, b: bool)
    requires OnlyImages(s.memory) && NoneStale(s, key, b)
    requires (readable == b && rereadable == b) || (b && Blind(s, key))
    ensures NoneStale(LoadPoster(s, k, readable, rereadable), key, b)
    ensures Kept(s.memory, LoadPoster(s, k, readable, rereadable).memory, key)
  {
    if Lookup(s, k, readable).Some? {
      ReadKeepsNoneStale(s, k, readable, key, b);
    } else {
      assert NotCapturing(Spawn(s, k), key) <==> NotCapturing(s, key) by {
        assert Spawn(s, k).flights[..|s.flights|] == s.flights;
      }
      EnterOrParkKeepsNoneStale(Spawn(s, k), |s.flights|, rereadable, key, b);
    }
  }

  lemma ReleaseKeepsNoneStale(s: State, f: nat, key: Key, b: bool)
    requires Enabled(s, Release(f)) && NoneStale(s, key, b)
    ensures NoneStale(ReleaseSlot(s, f), key, b)
  {
    var settled := Settled(s.flights[f].phase.result);
    SetPhaseKeepsNoneStale(s, f, settled, key, b);
    if s.waiters != [] {
      SetPhaseKeepsNoneStale(SetPhase(s, f, settled), s.waiters[0], Woken, key, b);
    }
  }

  lemma StepKeepsNoneStale(s: State, step: Step, key: Key, b: bool)
    requires OnlyImages(s.memory) && SingleFlight(s.inflight, s.flights) && Enabled(s, step)
    requires NoneStale(s, key, b)
    requires FlagsAre(step, b) || (b && Blind(s, key))
    ensures NoneStale(Next(s, step), key, b)
    ensures Kept(s.memory, Next(s, step).memory, key)
  {
    match step
    case Load(k, readable, rereadable) => LoadKeepsNoneStale(s, k, readable, rereadable, key, b);
    case Read(k, readable) => ReadKeepsNoneStale(s, k, readable, key, b);
    case Resume(f, rereadable) => EnterOrParkKeepsNoneStale(s, f, rereadable, key, b);
    case Capture(f, frame, writable) => EndCaptureKeepsNoneStale(s, f, frame, writable, key, b);
    case Release(f) => ReleaseKeepsNoneStale(s, f, key, b);
    case Cleanup(f) => SetPhaseKeepsNoneStale(s, f, Done(s.flights[f].phase.result), key, b);
  }

  lemma StepKeepsBlind(s: State, step: Step, key: Key)
    requires Blind(s, key) && Enabled(s, step)
    ensures Blind(Next(s, step), key)
  {
  }

  lemma {:induction false} StableContinuation(s: State, more: seq<Step>, key: Key, b: bool)
    requires Inv(s) && Legal(s, more) && NoneStale(s, key, b)
    requires (forall i :: 0 <= i < |more| ==> FlagsAre(more[i], b)) || (b && Blind(s, key))
    ensures NoneStale(Exec(s, more), key, b) && Kept(s.memory, Exec(s, more).memory, key)
    ensures Blind(s, key) ==> Blind(Exec(s, more), key)
  {
    if |more| > 0 {
      var before, last := more[..|more| - 1], more[|more| - 1];
      StableContinuation(s, before, key, b);
      RunsKeepInv(s, before);
      StepKeepsNoneStale(Exec(s, before), last, key, b);
      if Blind(s, key) {
        StepKeepsBlind(Exec(s, before), last, key);
      }
    }
  }

  lemma ReadStays(s: State, more: seq<Step>, key: Key, readable: bool, later: bool, b: bool)
    requires Inv(s) && NoneStale(s, key, b) && Lookup(s, key, readable).Some?
    requires Legal(Next(s, Read(key, readable)), more)
    requires (readable == b && forall i :: 0 <= i < |more| ==> FlagsAre(more[i], b)) || (b && Blind(s, key))
    ensures Lookup(Exec(Next(s, Read(key, readable)), more), key, later) == Lookup(s, key, readable)
  {
    var t := Next(s, Read(key, readable));
    StepKeepsInv(s, Read(key, readable));
    StepKeepsNoneStale(s, Read(key, readable), key, b);
    if Blind(s, key) {
      StepKeepsBlind(s, Read(key, readable), key);
    }
    StableContinuation(t, more, key, b);
    RunsKeepInv(t, more);
    assert IsImage(Exec(t, more).memory[key]);
  }

  // If the session store is always readable, or never, a poster once read is read for ever.
  lemma SteadyStoreIsStable(session: map<Key, Poster>, steps: seq<Step>, more: seq<Step>, key: Key, b: bool, later: bool)
    requires Legal(Initial(session), steps) && Lookup(Exec(Initial(session), steps), key, b).Some?
    requires Legal(Next(Exec(Initial(session), steps), Read(key, b)), more)
    requires forall i :: 0 <= i < |steps| ==> FlagsAre(steps[i], b)
    requires forall i :: 0 <= i < |more| ==> FlagsAre(more[i], b)
    ensures var s := Exec(Initial(session), steps);
            Lookup(Exec(Next(s, Read(key, b)), more), key, later) == Lookup(s, key, b)
  {
    StableContinuation(Initial(session), steps, key, b);
    ReachableInv(session, steps);
    ReadStays(Exec(Initial(session), steps), more, key, b, later, b);
  }

  lemma ExecOne(s: State, step: Step)
    requires Enabled(s, step)
    ensures Legal(s, [step]) && Exec(s, [step]) == Next(s, step)
  {
    assert [step][..0] == [];
  }

  // A read that throws while the load runs, and then succeeds, shows the old poster before the new.
  lemma StalePosterReplaced(session: map<Key, Poster>, key: Key, frame: Poster)
    requires HoldsPoster(session, key) && IsImage(frame) && frame != session[key]
    ensures Legal(Initial(session), [Load(key, false, false)])
    ensures var s := Exec(Initial(session), [Load(key, false, false)]);
            && Lookup(s, key, true) == Some(session[key])
            && Legal(Next(s, Read(key, true)), [Capture(0, Some(frame), true)])
            && Lookup(Exec(Next(s, Read(key, true)), [Capture(0, Some(frame), true)]), key, true) == Some(frame)
  {
    var load, capture := Load(key, false, false), Capture(0, Some(frame), true);
    ExecOne(Initial(session), load);
    ExecOne(Next(Exec(Initial(session), [load]), Read(key, true)), capture);
  }

  // With a store that may throw now and then, exactly the keys that it kept no poster for are stable.
  lemma StableIffNoneKept(session: map<Key, Poster>, key: Key)
    ensures StableFor(session, key) <==> !HoldsPoster(session, key)
  {
    if HoldsPoster(session, key) {
      var frame := Poster(session[key].url + "!");
      assert |frame.url| == |session[key].url| + 1;
      StalePosterReplaced(session, key, frame);
      var s := Exec(Initial(session), [Load(key, false, false)]);
      assert Lookup(Exec(Next(s, Read(key, true)), [Capture(0, Some(frame), true)]), key, true) != Lookup(s, key, true);
      assert !StableFrom(s, key);
    } else {
      forall steps | Legal(Initial(session), steps) ensures StableFrom(Exec(Initial(session), steps), key) {
        StableContinuation(Initial(session), steps, key, true);
        ReachableInv(session, steps);
        BlindIsStable(Exec(Initial(session), steps), key);
      }
    }
  }

  lemma BlindIsStable(s: State, key: Key)
    requires Inv(s) && NoneStale(s, key, true) && Blind(s, key)
    ensures StableFrom(s, key)
  {
    forall readable, more, later | Lookup(s, key, readable).Some? && Legal(Next(s, Read(key, readable)), more)
      ensures Lookup(Exec(Next(s, Read(key, readable)), more), key, later) == Lookup(s, key, readable)
    {
      ReadStays(s, more, key, readable, later, true);
    }
  }
}
