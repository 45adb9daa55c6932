/**
 The durable-subscription loop of the messaging client, run against a broker that keeps a message
 until it is acknowledged or terminated, may deliver it any number of times until then, and serves
 a consumer that may be restarted any number of times.
 */
module DurableConsumer {
  // What the consumer did, in order.
  datatype Event =
    | Restarted
    | Delivered(m: nat)
    | Handled(m: nat, ok: bool)
    | Acked(m: nat)
    | Nakked(m: nat)
    | Termed(m: nat)
    | Stopped

  // One thing that happens: a message is published, a consumer is started, or the loop goes round
  // once.  A delivery says how the handler fares, whether the broker takes notice of the settlement
  // (Ack, Nak or Term), and whether the call that settles it reports an error.  The client may take a
  // message from its buffer after the broker has let go of it.
  datatype Turn =
    | Publish(id: nat)
    | Restart
    | Timeout(cancelled: bool)
    | Broken
    | Deliver(msg: nat, handled: bool, noticed: bool, settleFailed: bool)

  // `valid` are the messages that decode and have a body; `known` all that were ever published.
  datatype State = State(valid: set<nat>, known: set<nat>, backlog: set<nat>, running: bool, log: seq<Event>)

  function Log(s: State, events: seq<Event>): (t: State) {
    s.(log := s.log + events)
  }

  function Stop(s: State): (t: State) {
    Log(s, [Stopped]).(running := false)
  }

  function Settle(s: State, m: nat, noticed: bool): (t: State) {
    if noticed then s.(backlog := s.backlog - {m}) else s
  }

  // One round of the loop that got a message.
  function Round(s: State, m: nat, handled: bool, noticed: bool, settleFailed: bool): (t: State) {
    var got := Log(s, [Delivered(m)]);
    if m !in s.valid then Settle(Log(got, [Termed(m)]), m, noticed)
    else if !handled then Stop(Log(got, [Handled(m, false), Nakked(m)]))
    else
      var acked := Settle(Log(got, [Handled(m, true), Acked(m)]), m, noticed);
      if settleFailed then Stop(acked) else acked
  }

  predicate Enabled(s: State, turn: Turn) {
    match turn
    case Publish(id) => id !in s.known
    case Restart => !s.running
    case Timeout(_) => s.running
    case Broken => s.running
    case Deliver(m, _, _, _) => s.running && m in s.known
  }

  function Next(s: State, turn: Turn): (t: State)
    requires Enabled(s, turn)
  {
    match turn
    case Publish(id) => s.(known := s.known + {id}, backlog := s.backlog + {id})
    case Restart => Log(s, [Restarted]).(running := true)
    case Timeout(cancelled) => if cancelled then Stop(s) else s
    case Broken => Stop(s)
    case Deliver(m, handled, noticed, settleFailed) => Round(s, m, handled, noticed, settleFailed)
  }

  function Initial(valid: set<nat>): (s: State) {
    State(valid, {}, {}, false, [])
  }

  ghost predicate Legal(s: State, turns: seq<Turn>)
    decreases |turns|, 0
  {
    |turns| > 0 ==>
      var before := turns[..|turns| - 1];
      Legal(s, before) && Enabled(Exec(s, before), turns[|turns| - 1])
  }

  ghost function Exec(s: State, turns: seq<Turn>): (t: State)
    requires Legal(s, turns)
    decreases |turns|, 1
  {
    if |turns| == 0 then s else Next(Exec(s, turns[..|turns| - 1]), turns[|turns| - 1])
  }

  /******* The loop itself *******/

  // The broker hands out only messages that were published.
  ghost predicate Honest(s: State, turns: seq<Turn>) {
    forall k :: 0 <= k < |turns| && Legal(s, [Restart] + turns[..k]) && Exec(s, [Restart] + turns[..k]).running ==>
      Enabled(Exec(s, [Restart] + turns[..k]), turns[k])
  }

  // What the client call answers: which error it returns, or that it is still waiting for messages.
  datatype Outcome =
    | NoJetStream | NoDurableName | SubscribeFailed
    | Cancelled | ConnectionError | HandlerError(m: nat) | AckError(m: nat)
    | Waiting

  // The error with which a turn ends the loop.
  function Ending(turn: Turn, valid: set<nat>): (r: Outcome) {
    match turn
    case Timeout(true) => Cancelled
    case Broken => ConnectionError
    case Deliver(m, handled, _, settleFailed) =>
      if m !in valid then Waiting
      else if !handled then HandlerError(m)
      else if settleFailed then AckError(m) else Waiting
    case _ => Waiting
  }

  class Consumer {
    var state: State

    constructor (valid: set<nat>)
      ensures state == Initial(valid)
    {
      state := Initial(valid);
    }

    // The loop runs on what the broker hands out until it stops or the script is used up.
    method Subscribe(jetStream: bool, durable: string, subscribed: bool, turns: seq<Turn>) returns (outcome: Outcome, used: nat)
      requires !state.running
      requires forall i :: 0 <= i < |turns| ==> !turns[i].Publish? && !turns[i].Restart?
      requires Honest(state, turns)
      modifies this
      ensures !jetStream ==> outcome == NoJetStream && state == old(state)
      ensures jetStream && durable == "" ==> outcome == NoDurableName && state == old(state)
      ensures jetStream && durable != "" && !subscribed ==> outcome == SubscribeFailed && state == old(state)
      ensures jetStream && durable != "" && subscribed ==>
                && used <= |turns|
                && Legal(old(state), [Restart] + turns[..used])
                && state == Exec(old(state), [Restart] + turns[..used])
                && (state.running <==> outcome == Waiting)
                && (state.running ==> used == |turns|)
                && (!state.running ==> used > 0 && outcome == Ending(turns[used - 1], old(state).valid))
                && (outcome == Cancelled <==> used > 0 && turns[used - 1] == Timeout(true))
                && (outcome == ConnectionError <==> used > 0 && turns[used - 1] == Broken)
                && (forall m :: outcome == HandlerError(m) <==>
                      used > 0 && m in old(state).valid && turns[used - 1].Deliver? && turns[used - 1].msg == m && !turns[used - 1].handled)
                && (forall m :: outcome == AckError(m) <==>
                      && used > 0 && m in old(state).valid && turns[used - 1].Deliver? && turns[used - 1].msg == m
                      && turns[used - 1].handled && turns[used - 1].settleFailed)
    {
      used := 0;
      if !jetStream {
        return NoJetStream, 0;
      }
      if durable == "" {
        return NoDurableName, 0;
      }
      if !subscribed {
        return SubscribeFailed, 0;
      }
      ExecOne(state, Restart);
      assert [Restart] + turns[..0] == [Restart];
      state := Log(state, [Restarted]).(running := true);
      outcome := Waiting;
      while used < |turns| && outcome == Waiting
        invariant used <= |turns|
        invariant Legal(old(state), [Restart] + turns[..used])
        invariant state == Exec(old(state), [Restart] + turns[..used])
        invariant state.valid == old(state).valid && (state.running <==> outcome == Waiting)
        invariant used == 0 ==> outcome == Waiting
        invariant used > 0 ==> outcome == Ending(turns[used - 1], old(state).valid)
        decreases |turns| - used
      {
        var turn := turns[used];
        ExecMore(old(state), [Restart] + turns[..used], turn);
        assert [Restart] + turns[..used] + [turn] == [Restart] + turns[..used + 1];
        match turn {
          case Timeout(cancelled) =>
            if cancelled {
              state, outcome := Stop(state), Cancelled;
            }
          case Broken =>
            state, outcome := Stop(state), ConnectionError;
          case Deliver(m, handled, noticed, settleFailed) =>
            state := Log(state, [Delivered(m)]);
            if m !in state.valid {
              state := Settle(Log(state, [Termed(m)]), m, noticed);
            } else if !handled {
              state, outcome := Stop(Log(state, [Handled(m, false), Nakked(m)])), HandlerError(m);
            } else {
              state := Settle(Log(state, [Handled(m, true), Acked(m)]), m, noticed);
              if settleFailed {
                state, outcome := Stop(state), AckError(m);
              }
            }
        }
        used := used + 1;
      }
    }
  }

  lemma ExecOne(s: State, turn: Turn)
    requires Enabled(s, turn)
    ensures Legal(s, [turn]) && Exec(s, [turn]) == Next(s, turn)
  {
    assert [turn][..0] == [];
  }

  lemma ExecMore(s: State, turns: seq<Turn>, turn: Turn)
    requires Legal(s, turns) && Enabled(Exec(s, turns), turn)
    ensures Legal(s, turns + [turn]) && Exec(s, turns + [turn]) == Next(Exec(s, turns), turn)
  {
    assert (turns + [turn])[..|turns|] == turns;
  }

  /******* What holds in every run *******/

  function Deliveries(log: seq<Event>, valid: set<nat>): (r: seq<nat>) {
    if |log| == 0 then []
    else
      var last := log[|log| - 1];
      Deliveries(log[..|log| - 1], valid) + if last.Delivered? && last.m in valid then [last.m] else []
  }

  function HandlerRuns(log: seq<Event>): (r: seq<nat>) {
    if |log| == 0 then []
    else
      var last := log[|log| - 1];
      HandlerRuns(log[..|log| - 1]) + if last.Handled? then [last.m] else []
  }

  lemma LogAppend(log: seq<Event>, e: Event, valid: set<nat>)
    ensures Deliveries(log + [e], valid) == Deliveries(log, valid) + if e.Delivered? && e.m in valid then [e.m] else []
    ensures HandlerRuns(log + [e]) == HandlerRuns(log) + if e.Handled? then [e.m] else []
  {
    assert (log + [e])[..|log|] == log;
  }

  // A message that left the backlog was handled without error, or was malformed and terminated.
  ghost predicate NothingLost(s: State) {
    && s.backlog <= s.known
    && (forall m :: m in s.known - s.backlog ==> (if m in s.valid then Handled(m, true) in s.log else Termed(m) in s.log))
  }

  // Every event follows from the one before it.
  ghost predicate Follows(log: seq<Event>, valid: set<nat>, i: nat)
    requires i < |log|
  {
    match log[i]
    case Handled(m, _) => i > 0 && log[i - 1] == Delivered(m) && m in valid
    case Acked(m) => i > 0 && log[i - 1] == Handled(m, true)
    case Nakked(m) => i > 0 && log[i - 1] == Handled(m, false)
    case Termed(m) => i > 0 && log[i - 1] == Delivered(m) && m !in valid
    case _ => true
  }

  // After a failed handler: Nak, stop, and nothing more until a consumer is started again.
  ghost predicate FailureStops(log: seq<Event>, i: nat)
    requires i < |log|
  {
    log[i].Handled? && !log[i].ok ==>
      && i + 2 < |log| && log[i + 1] == Nakked(log[i].m) && log[i + 2] == Stopped
      && (i + 3 < |log| ==> log[i + 3] == Restarted)
  }

  predicate EndsStopped(log: seq<Event>) {
    |log| == 0 || log[|log| - 1] == Stopped
  }

  ghost predicate Orderly(s: State) {
    && (forall i :: 0 <= i < |s.log| ==> Follows(s.log, s.valid, i) && FailureStops(s.log, i))
    && (EndsStopped(s.log) <==> !s.running)
  }

  // The handler runs once for each delivery of a well-formed message, in the order of delivery.
  ghost predicate RunsMatch(s: State) {
    HandlerRuns(s.log) == Deliveries(s.log, s.valid)
  }

  ghost predicate Inv(s: State) {
    NothingLost(s) && Orderly(s) && RunsMatch(s)
  }

  // What one turn appends to the log.
  function Appended(s: State, turn: Turn): (r: seq<Event>)
    requires Enabled(s, turn)
  {
    match turn
    case Publish(_) => []
    case Restart => [Restarted]
    case Timeout(cancelled) => if cancelled then [Stopped] else []
    case Broken => [Stopped]
    case Deliver(m, handled, _, settleFailed) =>
      if m !in s.valid then [Delivered(m), Termed(m)]
      else if !handled then [Delivered(m), Handled(m, false), Nakked(m), Stopped]
      else if settleFailed then [Delivered(m), Handled(m, true), Acked(m), Stopped]
      else [Delivered(m), Handled(m, true), Acked(m)]
  }

  lemma NextLog(s: State, turn: Turn)
    requires Enabled(s, turn)
    ensures Next(s, turn).log == s.log + Appended(s, turn) && Next(s, turn).valid == s.valid
  {
  }

  lemma StepKeepsOrder(s: State, turn: Turn)
    requires Orderly(s) && Enabled(s, turn)
    ensures Orderly(Next(s, turn))
  {
    NextLog(s, turn);
    var t, n := Next(s, turn), |s.log|;
    forall i | 0 <= i < |t.log| ensures Follows(t.log, t.valid, i) && FailureStops(t.log, i) {
      if i < n {
        assert Follows(s.log, s.valid, i) && FailureStops(s.log, i);
      }
    }
  }

  lemma {:induction false} RunsAppend(a: seq<Event>, b: seq<Event>, valid: set<nat>)
    ensures HandlerRuns(a + b) == HandlerRuns(a) + HandlerRuns(b)
    ensures Deliveries(a + b, valid) == Deliveries(a, valid) + Deliveries(b, valid)
  {
    if |b| == 0 {
      assert a + b == a;
    } else {
      var n := |b| - 1;
      assert a + b == (a + b[..n]) + [b[n]];
      LogAppend(a + b[..n], b[n], valid);
      RunsAppend(a, b[..n], valid);
    }
  }

  lemma OneEvent(e: Event, valid: set<nat>)
    ensures HandlerRuns([e]) == if e.Handled? then [e.m] else []
    ensures Deliveries([e], valid) == if e.Delivered? && e.m in valid then [e.m] else []
  {
    LogAppend([], e, valid);
    assert [] + [e] == [e];
  }

  // A handler run follows its delivery; nothing else of either kind is appended.
  lemma RunsOfPair(got: Event, result: Event, valid: set<nat>)
    requires got.Delivered? && (if got.m in valid then result.Handled? && result.m == got.m else result.Termed?)
    ensures HandlerRuns([got, result]) == Deliveries([got, result], valid)
  {
    OneEvent(got, valid);
    OneEvent(result, valid);
    RunsAppend([got], [result], valid);
    assert [got] + [result] == [got, result];
  }

  lemma RunsOfSettling(events: seq<Event>, valid: set<nat>)
    requires |events| <= 2 && forall i :: 0 <= i < |events| ==> !events[i].Delivered? && !events[i].Handled?
    ensures HandlerRuns(events) == [] && Deliveries(events, valid) == []
  {
    if |events| == 1 {
      OneEvent(events[0], valid);
      assert events == [events[0]];
    } else if |events| == 2 {
      OneEvent(events[0], valid);
      OneEvent(events[1], valid);
      RunsAppend([events[0]], [events[1]], valid);
      assert events == [events[0]] + [events[1]];
    }
  }

  lemma RunsOfRounds(events: seq<Event>, valid: set<nat>)
    requires 2 <= |events| <= 4 && events[0].Delivered?
    requires if events[0].m in valid then events[1].Handled? && events[1].m == events[0].m else events[1].Termed?
    requires forall i :: 2 <= i < |events| ==> !events[i].Delivered? && !events[i].Handled?
    ensures HandlerRuns(events) == Deliveries(events, valid)
  {
    var pair, rest := [events[0], events[1]], events[2..];
    RunsOfPair(events[0], events[1], valid);
    RunsOfSettling(rest, valid);
    RunsAppend(pair, rest, valid);
    assert events == pair + rest;
  }

  lemma StepKeepsRuns(s: State, turn: Turn)
    requires RunsMatch(s) && Enabled(s, turn)
    ensures RunsMatch(Next(s, turn))
  {
    var events := Appended(s, turn);
    NextLog(s, turn);
    RunsAppend(s.log, events, s.valid);
    if turn.Deliver? {
      RunsOfRounds(events, s.valid);
    } else {
      RunsOfSettling(events, s.valid);
    }
  }

  lemma StepLosesNothing(s: State, turn: Turn)
    requires NothingLost(s) && Enabled(s, turn)
    ensures NothingLost(Next(s, turn))
  {
    NextLog(s, turn);
    var t := Next(s, turn);
    forall e | e in s.log ensures e in t.log {}
    if turn.Deliver? {
      var e := if turn.msg in s.valid then Handled(turn.msg, true) else Termed(turn.msg);
      assert turn.msg in s.backlog && turn.msg !in t.backlog ==> Appended(s, turn)[1] == e;
      assert e in Appended(s, turn) ==> e in t.log;
    }
  }

  lemma {:induction false} RunsKeepInv(valid: set<nat>, turns: seq<Turn>)
    requires Legal(Initial(valid), turns)
    ensures Inv(Exec(Initial(valid), turns)) && Exec(Initial(valid), turns).valid == valid
  {
    if |turns| > 0 {
      var before, last := turns[..|turns| - 1], turns[|turns| - 1];
      RunsKeepInv(valid, before);
      var s := Exec(Initial(valid), before);
      NextLog(s, last);
      StepLosesNothing(s, last);
      StepKeepsOrder(s, last);
      StepKeepsRuns(s, last);
    }
  }

  // A well-formed message leaves the backlog only after its handler returned without error; a
  // malformed one is terminated and never reaches the handler.
  lemma LeavesOnlyWhenDone(valid: set<nat>, turns: seq<Turn>, m: nat)
    requires Legal(Initial(valid), turns)
    ensures var s := Exec(Initial(valid), turns);
            && (m in s.known && m !in s.backlog && m in valid ==> Handled(m, true) in s.log)
            && (m in s.known && m !in s.backlog && m !in valid ==> Termed(m) in s.log)
            && (m !in valid ==> forall ok :: Handled(m, ok) !in s.log)
            && (m in valid ==> Termed(m) !in s.log)
  {
    RunsKeepInv(valid, turns);
    HandledAreValid(Exec(Initial(valid), turns), m);
  }

  lemma HandledAreValid(s: State, m: nat)
    requires Orderly(s)
    ensures m !in s.valid ==> forall ok :: Handled(m, ok) !in s.log
    ensures m in s.valid ==> Termed(m) !in s.log
  {
    forall i | 0 <= i < |s.log|
      ensures s.log[i].Handled? && s.log[i].m == m ==> m in s.valid
      ensures s.log[i].Termed? && s.log[i].m == m ==> m !in s.valid
    {
      assert Follows(s.log, s.valid, i);
    }
  }

  // The handler sees the deliveries of well-formed messages in order, each once.
  lemma HandledOncePerDelivery(valid: set<nat>, turns: seq<Turn>)
    requires Legal(Initial(valid), turns)
    ensures var s := Exec(Initial(valid), turns); HandlerRuns(s.log) == Deliveries(s.log, valid)
  {
    RunsKeepInv(valid, turns);
  }

  // What a delivery does: a malformed message is terminated and the loop goes on; a well-formed one is
  // handled, and then acknowledged, or rejected and the loop ends.  The broker lets go of the message
  // when it notices that it was terminated or acknowledged, and of no other.
  lemma DeliverySettles(s: State, m: nat, handled: bool, noticed: bool, settleFailed: bool)
    requires Enabled(s, Deliver(m, handled, noticed, settleFailed))
    ensures var t := Next(s, Deliver(m, handled, noticed, settleFailed));
            && t.valid == s.valid && t.known == s.known
            && t.backlog == (if noticed && (m in s.valid ==> handled) then s.backlog - {m} else s.backlog)
            && (t.running <==> (m in s.valid ==> handled && !settleFailed))
            && t.log == s.log + (if m !in s.valid then [Delivered(m), Termed(m)]
                                 else if handled then [Delivered(m), Handled(m, true), Acked(m)] + (if settleFailed then [Stopped] else [])
                                 else [Delivered(m), Handled(m, false), Nakked(m), Stopped])
  {
    NextLog(s, Deliver(m, handled, noticed, settleFailed));
  }

  // The first failure ends the session: nothing else is delivered, handled or settled in it.
  lemma FailureEndsSession(valid: set<nat>, turns: seq<Turn>, i: nat)
    requires Legal(Initial(valid), turns)
    requires i < |Exec(Initial(valid), turns).log|
    requires var e := Exec(Initial(valid), turns).log[i]; e.Handled? && !e.ok
    ensures var log := Exec(Initial(valid), turns).log;
            && i + 2 < |log| && log[i + 1] == Nakked(log[i].m) && log[i + 2] == Stopped
            && (i + 3 < |log| ==> log[i + 3] == Restarted)
    ensures var s := Exec(Initial(valid), turns); i + 3 == |s.log| ==> !s.running
  {
    RunsKeepInv(valid, turns);
    assert FailureStops(Exec(Initial(valid), turns).log, i);
  }

  lemma RunsOfRound(m: nat)
    ensures HandlerRuns([Delivered(m), Handled(m, true), Acked(m)]) == [m]
  {
    OneEvent(Delivered(m), {m});
    OneEvent(Handled(m, true), {m});
    OneEvent(Acked(m), {m});
    RunsAppend([Delivered(m)], [Handled(m, true)], {m});
    RunsAppend([Delivered(m)] + [Handled(m, true)], [Acked(m)], {m});
    assert [Delivered(m)] + [Handled(m, true)] + [Acked(m)] == [Delivered(m), Handled(m, true), Acked(m)];
  }

  lemma TwoRounds(m: nat)
    ensures var round := [Delivered(m), Handled(m, true), Acked(m)];
            HandlerRuns([Restarted] + round + round) == [m, m]
  {
    var round := [Delivered(m), Handled(m, true), Acked(m)];
    RunsOfRound(m);
    OneEvent(Restarted, {m});
    RunsAppend([Restarted], round, {m});
    RunsAppend([Restarted] + round, round, {m});
  }

  lemma ReadyToDeliver(m: nat)
    ensures var turns := [Publish(m), Restart];
            Legal(Initial({m}), turns) && Exec(Initial({m}), turns) == State({m}, {m}, {m}, true, [Restarted])
  {
    ExecOne(Initial({m}), Publish(m));
    ExecMore(Initial({m}), [Publish(m)], Restart);
    assert [Publish(m)] + [Restart] == [Publish(m), Restart];
  }

  // An acknowledged message may be delivered and handled again when the broker missed the Ack.
  lemma RedeliveryAfterLostAck(m: nat)
    ensures var turns := [Publish(m), Restart, Deliver(m, true, false, false), Deliver(m, true, true, false)];
            && Legal(Initial({m}), turns)
            && HandlerRuns(Exec(Initial({m}), turns).log) == [m, m]
            && m !in Exec(Initial({m}), turns).backlog
  {
    var s := Initial({m});
    var lost, kept := Deliver(m, true, false, false), Deliver(m, true, true, false);
    var round := [Delivered(m), Handled(m, true), Acked(m)];
    ReadyToDeliver(m);
    ExecMore(s, [Publish(m), Restart], lost);
    assert [Publish(m), Restart] + [lost] == [Publish(m), Restart, lost];
    assert Exec(s, [Publish(m), Restart, lost]).log == [Restarted] + round;
    ExecMore(s, [Publish(m), Restart, lost], kept);
    assert [Publish(m), Restart, lost] + [kept] == [Publish(m), Restart, lost, kept];
    TwoRounds(m);
    assert Exec(s, [Publish(m), Restart, lost, kept]).log == [Restarted] + round + round;
  }
}
