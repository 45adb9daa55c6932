/**
 The signed-in session of the browser client: a token pair kept in one of two browser stores, and
 requests that refresh it once when the server turns them away.
 */
module AuthSession {
  import opened Options

  datatype Tokens = Tokens(access: string, refresh: string)

  // What a store holds under the token key: a serialised pair, or text that does not parse.
  datatype Raw = Pair(tokens: Tokens) | Corrupt

  // `persist` is the flag in the local store that selects which store a save writes to.
  datatype Stores = Stores(local: Option<Raw>, session: Option<Raw>, persist: bool)

  // Any access to a browser store may throw, and that is swallowed: a read then yields nothing, and a
  // removal or a write does nothing.  The flags say what goes through in one operation.
  datatype Fate = Fate(
    persistRead: bool, localRead: bool, sessionRead: bool,
    localRemoved: bool, sessionRemoved: bool, written: bool)
  {
    predicate Removes() {
      localRemoved && sessionRemoved
    }

    predicate Reads() {
      persistRead && localRead && sessionRead
    }
  }

  /******* Token storage *******/

  function Clear(s: Stores, f: Fate): (t: Stores) {
    s.(session := if f.sessionRemoved then None else s.session, local := if f.localRemoved then None else s.local)
  }

  // The flag that cannot be read counts as not set.
  predicate ToLocal(s: Stores, f: Fate) {
    s.persist && f.persistRead
  }

  // Saving removes both copies and writes one.
  function Save(s: Stores, tokens: Tokens, f: Fate): (t: Stores) {
    var removed := Clear(s, f);
    if !f.written then removed
    else if ToLocal(s, f) then removed.(local := Some(Pair(tokens)))
    else removed.(session := Some(Pair(tokens)))
  }

  function SetPersist(s: Stores, persist: bool, done: bool): (t: Stores) {
    if done then s.(persist := persist) else s
  }

  // The local store is asked first, and the other if there is nothing or the read fails.
  function RawOf(s: Stores, f: Fate): (r: Option<Raw>) {
    if s.local.Some? && f.localRead then s.local else if f.sessionRead then s.session else None
  }

  function Load(s: Stores, f: Fate): (r: Option<Tokens>) {
    match RawOf(s, f)
    case Some(Pair(tokens)) => Some(tokens)
    case _ => None
  }

  // What a load leaves behind: text that does not parse is cleared away.
  function AfterLoad(s: Stores, f: Fate): (t: Stores) {
    if RawOf(s, f) == Some(Corrupt) then Clear(s, f) else s
  }

  datatype Op =
    | SetPersistOp(persist: bool, done: bool)
    | SaveOp(tokens: Tokens, fate: Fate)
    | SaveNullOp(fate: Fate)
    | ClearOp(fate: Fate)
    | LoadOp(fate: Fate)
  {
    predicate Removes() {
      SetPersistOp? || fate.Removes()
    }
  }

  function Apply(s: Stores, op: Op): (t: Stores) {
    match op
    case SetPersistOp(persist, done) => SetPersist(s, persist, done)
    case SaveOp(tokens, fate) => Save(s, tokens, fate)
    case SaveNullOp(fate) => Clear(s, fate)
    case ClearOp(fate) => Clear(s, fate)
    case LoadOp(fate) => AfterLoad(s, fate)
  }

  function Run(s: Stores, ops: seq<Op>): (t: Stores) {
    if |ops| == 0 then s else Apply(Run(s, ops[..|ops| - 1]), ops[|ops| - 1])
  }

  function SavedBy(last: Option<Tokens>, op: Op): (r: Option<Tokens>) {
    match op
    case SaveOp(tokens, _) => Some(tokens)
    case SaveNullOp(_) => None
    case ClearOp(_) => None
    case _ => last
  }

  // The pair saved last, unless it was cleared since.
  function LastSaved(start: Option<Tokens>, ops: seq<Op>): (r: Option<Tokens>) {
    if |ops| == 0 then start else SavedBy(LastSaved(start, ops[..|ops| - 1]), ops[|ops| - 1])
  }

  ghost predicate OneCopy(s: Stores) {
    s.local.None? || s.session.None?
  }

  // Whichever reads fail, a load returns the pair saved last or nothing.
  ghost predicate Current(s: Stores, last: Option<Tokens>) {
    forall f: Fate :: Load(s, f).None? || Load(s, f) == last
  }

  const SMOOTH := Fate(true, true, true, true, true, true)

  // A store holds a pair other than the one that counts.
  predicate Stale(raw: Option<Raw>, last: Option<Tokens>) {
    raw.Some? && raw.value.Pair? && Some(raw.value.tokens) != last
  }

  // Since any read may fail, each copy can come to light.
  lemma CurrentIff(s: Stores, last: Option<Tokens>)
    ensures Current(s, last) <==> !Stale(s.local, last) && !Stale(s.session, last)
  {
    if Current(s, last) {
      var f, g := SMOOTH, SMOOTH.(localRead := false);
      assert Load(s, f).None? || Load(s, f) == last;
      assert Load(s, g).None? || Load(s, g) == last;
    }
  }

  // While removals succeed, through any toggles, failed reads and writes, and clears, there is one
  // copy at most, and what a load returns is the pair saved last or nothing.
  lemma {:induction false} NeverSuperseded(s: Stores, ops: seq<Op>)
    requires OneCopy(s) && forall i :: 0 <= i < |ops| ==> ops[i].Removes()
    ensures OneCopy(Run(s, ops)) && Current(Run(s, ops), LastSaved(Load(s, SMOOTH), ops))
  {
    CurrentIff(Run(s, ops), LastSaved(Load(s, SMOOTH), ops));
    if |ops| > 0 {
      var before := ops[..|ops| - 1];
      NeverSuperseded(s, before);
      CurrentIff(Run(s, before), LastSaved(Load(s, SMOOTH), before));
    }
  }

  // A pair that was written is there until something else is saved or it is cleared, and every load
  // that can read returns it.
  lemma {:induction false} SavedStays(s: Stores, tokens: Tokens, saved: Fate, ops: seq<Op>, f: Fate)
    requires saved.Removes() && saved.written && f.Reads()
    requires forall i :: 0 <= i < |ops| ==> ops[i].SetPersistOp? || ops[i].LoadOp?
    ensures Load(Run(Save(s, tokens, saved), ops), f) == Some(tokens)
    ensures OneCopy(Run(Save(s, tokens, saved), ops))
  {
    if |ops| > 0 {
      SavedStays(s, tokens, saved, ops[..|ops| - 1], f);
    }
  }

  /******* When removals fail *******/

  // The step leaves a stale copy: its removal fails, and no write goes on top of it.
  predicate Exposes(s: Stores, op: Op) {
    match op
    case SaveOp(tokens, f) =>
      || (!f.localRemoved && !(f.written && ToLocal(s, f)) && Stale(s.local, Some(tokens)))
      || (!f.sessionRemoved && !(f.written && !ToLocal(s, f)) && Stale(s.session, Some(tokens)))
    case SaveNullOp(f) => LeavesPair(s, f)
    case ClearOp(f) => LeavesPair(s, f)
    case _ => false
  }

  predicate LeavesPair(s: Stores, f: Fate) {
    (!f.localRemoved && Stale(s.local, None)) || (!f.sessionRemoved && Stale(s.session, None))
  }

  lemma StepCurrentIff(s: Stores, last: Option<Tokens>, op: Op)
    requires Current(s, last)
    ensures Current(Apply(s, op), SavedBy(last, op)) <==> !Exposes(s, op)
  {
    CurrentIff(s, last);
    CurrentIff(Apply(s, op), SavedBy(last, op));
  }

  // Throughout the run every load, whichever of its reads fail, would return the pair saved last or
  // nothing.
  ghost predicate StaysCurrent(s: Stores, start: Option<Tokens>, ops: seq<Op>) {
    forall k :: 0 <= k <= |ops| ==> Current(Run(s, ops[..k]), LastSaved(start, ops[..k]))
  }

  ghost predicate NoneExposes(s: Stores, ops: seq<Op>) {
    forall k :: 0 <= k < |ops| ==> !Exposes(Run(s, ops[..k]), ops[k])
  }

  lemma RunNext(s: Stores, start: Option<Tokens>, ops: seq<Op>, k: nat)
    requires k < |ops|
    ensures Run(s, ops[..k + 1]) == Apply(Run(s, ops[..k]), ops[k])
    ensures LastSaved(start, ops[..k + 1]) == SavedBy(LastSaved(start, ops[..k]), ops[k])
  {
    assert ops[..k + 1][..k] == ops[..k];
  }

  lemma {:induction false} CurrentUpTo(s: Stores, start: Option<Tokens>, ops: seq<Op>, k: nat)
    requires k <= |ops| && Current(s, start) && NoneExposes(s, ops)
    ensures Current(Run(s, ops[..k]), LastSaved(start, ops[..k]))
  {
    if k > 0 {
      CurrentUpTo(s, start, ops, k - 1);
      RunNext(s, start, ops, k - 1);
      StepCurrentIff(Run(s, ops[..k - 1]), LastSaved(start, ops[..k - 1]), ops[k - 1]);
    }
  }

  // Whichever reads, removals and writes fail, from any stores, no superseded pair can ever be loaded
  // exactly when there was none to start with and no step of the run exposes one.
  lemma NeverSupersededIff(s: Stores, start: Option<Tokens>, ops: seq<Op>)
    ensures StaysCurrent(s, start, ops) <==> Current(s, start) && NoneExposes(s, ops)
  {
    if Current(s, start) && NoneExposes(s, ops) {
      forall k | 0 <= k <= |ops| ensures Current(Run(s, ops[..k]), LastSaved(start, ops[..k])) {
        CurrentUpTo(s, start, ops, k);
      }
    }
    if StaysCurrent(s, start, ops) {
      assert ops[..0] == [];
      forall k | 0 <= k < |ops| ensures !Exposes(Run(s, ops[..k]), ops[k]) {
        RunNext(s, start, ops, k);
        StepCurrentIff(Run(s, ops[..k]), LastSaved(start, ops[..k]), ops[k]);
      }
    }
  }

  // Signing in for good as a, and then for the session as b while the local copy cannot be removed:
  // a is loaded, not b.
  lemma SupersededPairLoaded(a: Tokens, b: Tokens)
    requires a != b
    ensures var ops := [SetPersistOp(true, true), SaveOp(a, SMOOTH),
                        SetPersistOp(false, true), SaveOp(b, SMOOTH.(localRemoved := false))];
            var s := Run(Stores(None, None, false), ops);
            Load(s, SMOOTH) == Some(a) && LastSaved(None, ops) == Some(b)
  {
    var start := Stores(None, None, false);
    var ops := [SetPersistOp(true, true), SaveOp(a, SMOOTH),
                SetPersistOp(false, true), SaveOp(b, SMOOTH.(localRemoved := false))];
    assert ops[..0] == [] && ops[..4] == ops;
    RunNext(start, None, ops, 0);
    RunNext(start, None, ops, 1);
    RunNext(start, None, ops, 2);
    RunNext(start, None, ops, 3);
  }

  // Signing in for the session as a, and then for good as b while the session copy cannot be removed:
  // b is loaded, but a as soon as the local store cannot be read.
  lemma HiddenPairLoaded(a: Tokens, b: Tokens)
    requires a != b
    ensures var ops := [SaveOp(a, SMOOTH), SetPersistOp(true, true), SaveOp(b, SMOOTH.(sessionRemoved := false))];
            var s := Run(Stores(None, None, false), ops);
            && Load(s, SMOOTH) == Some(b) == LastSaved(None, ops)
            && Load(s, SMOOTH.(localRead := false)) == Some(a)
  {
    var start := Stores(None, None, false);
    var ops := [SaveOp(a, SMOOTH), SetPersistOp(true, true), SaveOp(b, SMOOTH.(sessionRemoved := false))];
    assert ops[..0] == [] && ops[..3] == ops;
    RunNext(start, None, ops, 0);
    RunNext(start, None, ops, 1);
    RunNext(start, None, ops, 2);
  }

  /******* Requests *******/

  datatype Payload = Empty | Unparsable | Document(tokens: Tokens)

  datatype Response = NetworkError | Unauthorized | Refused | Ok(payload: Payload)

  // A fetch, with the bearer token it carries.
  datatype Fetch = Call(bearer: Option<string>) | RefreshCall(token: string)

  datatype Answer = Value | Undefined | Error

  function Bearer(s: Stores, f: Fate): (r: Option<string>) {
    match Load(s, f)
    case Some(tokens) => if tokens.access == "" then None else Some(tokens.access)
    case None => None
  }

  function RefreshToken(s: Stores, f: Fate): (r: string) {
    if Load(s, f).Some? then Load(s, f).value.refresh else ""
  }

  function AnswerOf(response: Response): (r: Answer) {
    match response
    case Ok(Empty) => Undefined
    case Ok(Document(_)) => Value
    case _ => Error
  }

  // A refresh that succeeds saves what it was sent; an empty answer clears the session.
  function AfterRefresh(s: Stores, payload: Payload, f: Fate): (t: Stores) {
    match payload
    case Document(tokens) => Save(s, tokens, f)
    case _ => Clear(s, f)
  }

  // What a request comes to: its answer, the fetches it made and the stores it leaves.
  datatype Outcome = Outcome(answer: Answer, fetches: seq<Fetch>, after: Stores)

  // The refresh, which loads the pair and saves the new one.
  function Refreshed(s: Stores, response: Response, loaded: Fate, saved: Fate): (r: Outcome) {
    var after, token := AfterLoad(s, loaded), RefreshToken(s, loaded);
    if token == "" then Outcome(Error, [], after)
    else if AnswerOf(response) == Error then Outcome(Error, [RefreshCall(token)], after)
    else Outcome(AnswerOf(response), [RefreshCall(token)], AfterRefresh(after, response.payload, saved))
  }

  // A request that is not repeated.
  function Once(s: Stores, auth: bool, response: Response, f: Fate): (r: Outcome) {
    if auth then Outcome(AnswerOf(response), [Call(Bearer(s, f))], AfterLoad(s, f))
    else Outcome(AnswerOf(response), [Call(None)], s)
  }

  // `responses` are the server's answers to the first, second and third fetch.  A request loads the
  // pair for the header, to see whether it can refresh, and to refresh; it saves the new one, and
  // loads again for the header of the repeat.
  function Requested(s: Stores, auth: bool, retryAuth: bool, responses: seq<Response>, fates: seq<Fate>): (r: Outcome)
    requires |responses| == 3 && |fates| == 5
  {
    var first := Once(s, auth, responses[0], fates[0]);
    if !(responses[0].Unauthorized? && auth && retryAuth) then first
    else if RefreshToken(first.after, fates[1]) == "" then first.(after := AfterLoad(first.after, fates[1]))
    else
      var renewed := Refreshed(AfterLoad(first.after, fates[1]), responses[1], fates[2], fates[3]);
      if renewed.answer == Error then Outcome(Error, first.fetches + renewed.fetches, renewed.after)
      else
        var second := Once(renewed.after, auth, responses[2], fates[4]);
        Outcome(second.answer, first.fetches + renewed.fetches + second.fetches, second.after)
  }

  // Against any answers and any failures of the stores: at most three fetches, the second of them a
  // refresh and the others calls.
  lemma RequestBounded(s: Stores, auth: bool, retryAuth: bool, responses: seq<Response>, fates: seq<Fate>)
    requires |responses| == 3 && |fates| == 5
    ensures var fetches := Requested(s, auth, retryAuth, responses, fates).fetches;
            && 1 <= |fetches| <= 3
            && forall i :: 0 <= i < |fetches| ==> (fetches[i].RefreshCall? <==> i == 1)
    ensures |Requested(s, auth, retryAuth, responses, fates).fetches| > 1 ==>
              responses[0].Unauthorized? && auth && retryAuth
    ensures |Requested(s, auth, retryAuth, responses, fates).fetches| > 2 ==> AnswerOf(responses[1]) != Error
  {
  }

  // The answer of the last fetch is the answer of the request: a value for a document, undefined for an
  // empty body, and an error for anything else or when the refresh fails.
  lemma RequestAnswers(s: Stores, auth: bool, retryAuth: bool, responses: seq<Response>, fates: seq<Fate>)
    requires |responses| == 3 && |fates| == 5
    ensures var r := Requested(s, auth, retryAuth, responses, fates);
            var last := if |r.fetches| == 3 then responses[2] else responses[0];
            && (r.answer == Value <==> |r.fetches| != 2 && last.Ok? && last.payload.Document?)
            && (r.answer == Undefined <==> |r.fetches| != 2 && last.Ok? && last.payload.Empty?)
    ensures |Requested(s, auth, retryAuth, responses, fates).fetches| == 3 ==>
              responses[1].Ok? && !responses[1].payload.Unparsable?
  {
  }

  lemma LoadKeepsCurrent(s: Stores, last: Option<Tokens>, f: Fate)
    requires Current(s, last)
    ensures Current(AfterLoad(s, f), last)
  {
    StepCurrentIff(s, last, LoadOp(f));
  }

  // If no superseded pair can be loaded, none is sent: the call carries the token of the pair saved
  // last or none, and the refresh spends its refresh token.  If the removals of the save succeed, the
  // repeat carries the new token or none.
  lemma RequestSendsCurrent(s: Stores, last: Option<Tokens>, auth: bool, retryAuth: bool, responses: seq<Response>,
                            fates: seq<Fate>)
    requires |responses| == 3 && |fates| == 5 && Current(s, last)
    ensures var fetches := Requested(s, auth, retryAuth, responses, fates).fetches;
            && (fetches[0] == Call(None) || (last.Some? && fetches[0] == Call(Some(last.value.access))))
            && (|fetches| > 1 ==> last.Some? && fetches[1] == RefreshCall(last.value.refresh))
            && (|fetches| > 2 && fates[3].Removes() ==>
                  || fetches[2] == Call(None)
                  || (responses[1].payload.Document? && fetches[2] == Call(Some(responses[1].payload.tokens.access))))
  {
    var s1 := AfterLoad(s, fates[0]);
    var s2 := AfterLoad(s1, fates[1]);
    LoadKeepsCurrent(s, last, fates[0]);
    LoadKeepsCurrent(s1, last, fates[1]);
  }

  // The pair that a working load finds: the local one, or else the other.
  function Held(s: Stores): (r: Option<Tokens>) {
    match (s.local, s.session)
    case (Some(Pair(tokens)), _) => Some(tokens)
    case (None, Some(Pair(tokens))) => Some(tokens)
    case _ => None
  }

  // When the stores do not fail, a request that is turned away refreshes exactly if it may and there
  // is a refresh token, and is repeated exactly if the refresh is answered.
  lemma SmoothRequest(s: Stores, auth: bool, retryAuth: bool, responses: seq<Response>)
    requires |responses| == 3
    ensures var r := Requested(s, auth, retryAuth, responses, [SMOOTH, SMOOTH, SMOOTH, SMOOTH, SMOOTH]);
            var held := Held(s);
            var first := Call(if auth && held.Some? && held.value.access != "" then Some(held.value.access) else None);
            var token := if held.Some? then held.value.refresh else "";
            if !(responses[0].Unauthorized? && auth && retryAuth && token != "") then
              r.fetches == [first] && r.answer == AnswerOf(responses[0]) && Load(r.after, SMOOTH) == Load(s, SMOOTH)
            else if AnswerOf(responses[1]) == Error then
              r.fetches == [first, RefreshCall(token)] && r.answer == Error && r.after == s
            else
              var payload := responses[1].payload;
              var bearer := if payload.Document? && payload.tokens.access != "" then Some(payload.tokens.access) else None;
              r.fetches == [first, RefreshCall(token), Call(bearer)] && r.answer == AnswerOf(responses[2])
  {
    var fates := [SMOOTH, SMOOTH, SMOOTH, SMOOTH, SMOOTH];
    assert fates[0] == fates[1] == fates[2] == fates[3] == fates[4] == SMOOTH;
    SmoothLoad(s);
  }

  lemma SmoothLoad(s: Stores)
    ensures var t := AfterLoad(s, SMOOTH);
            AfterLoad(t, SMOOTH) == t && Load(t, SMOOTH) == Load(s, SMOOTH) && (Load(s, SMOOTH).Some? ==> t == s)
  {
  }

  // The two browser stores.  The fates say which accesses of an operation go through.
  class Client {
    var local: Option<Raw>
    var session: Option<Raw>
    var persist: bool

    ghost function View(): (s: Stores)
      reads this
    {
      Stores(local, session, persist)
    }

    method SetAuthPersist(on: bool, done: bool)
      modifies this`persist
      ensures View() == SetPersist(old(View()), on, done)
    {
      if on {
        if done {
          persist := true;
        }
        return;
      }
      if done {
        persist := false;
      }
    }

    method ClearAuth(f: Fate)
      modifies this`local, this`session
      ensures View() == Clear(old(View()), f)
    {
      if f.sessionRemoved {
        session := None;
      }
      if f.localRemoved {
        local := None;
      }
    }

    method SaveAuth(tokens: Option<Tokens>, f: Fate)
      modifies this`local, this`session
      ensures View() == match tokens
                        case None => Clear(old(View()), f)
                        case Some(pair) => Save(old(View()), pair, f)
      ensures f.Removes() ==> OneCopy(View()) && Load(View(), SMOOTH) == if f.written then tokens else None
      // a pair goes to the local store only if the flag is set and can be read
      ensures tokens.Some? && f.written ==>
                if old(persist) && f.persistRead then local == Some(Pair(tokens.value)) else session == Some(Pair(tokens.value))
    {
      if tokens.None? {
        ClearAuth(f);
        return;
      }
      if f.sessionRemoved {
        session := None;
      }
      if f.localRemoved {
        local := None;
      }
      if f.written {
        if persist && f.persistRead {
          local := Some(Pair(tokens.value));
        } else {
          session := Some(Pair(tokens.value));
        }
      }
    }

    method LoadAuth(f: Fate) returns (r: Option<Tokens>)
      modifies this`local, this`session
      ensures r == Load(old(View()), f) && View() == AfterLoad(old(View()), f)
      ensures f.Reads() ==> r == Held(old(View()))
      // text that does not parse is cleared away, and anything else stays
      ensures if (f.localRead && old(local) == Some(Corrupt)) || (f.sessionRead && old(session) == Some(Corrupt) && (old(local).None? || !f.localRead))
              then r.None? && local == (if f.localRemoved then None else old(local)) && session == (if f.sessionRemoved then None else old(session))
              else local == old(local) && session == old(session)
    {
      var raw: Option<Raw> := None;
      if f.localRead {
        raw := local;
      }
      if raw.None? && f.sessionRead {
        raw := session;
      }
      if raw.None? {
        return None;
      }
      if raw.value.Corrupt? {
        ClearAuth(f);
        return None;
      }
      r := Some(raw.value.tokens);
    }

    method RefreshOnce(response: Response, loaded: Fate, saved: Fate) returns (ok: bool, fetches: seq<Fetch>)
      modifies this`local, this`session
      ensures var r := Refreshed(old(View()), response, loaded, saved);
              ok == (r.answer != Error) && fetches == r.fetches && View() == r.after
    {
      var current := LoadAuth(loaded);
      if current.None? || current.value.refresh == "" {
        return false, [];
      }
      fetches := [RefreshCall(current.value.refresh)];
      if AnswerOf(response) == Error {
        return false, fetches;
      }
      var renewed := if response.payload.Document? then Some(response.payload.tokens) else None;
      SaveAuth(renewed, saved);
      ok := true;
    }

    method Request(auth: bool, retryAuth: bool, responses: seq<Response>, fates: seq<Fate>)
        returns (answer: Answer, fetches: seq<Fetch>)
      requires |responses| == 3 && |fates| == 5
      modifies this`local, this`session
      ensures Outcome(answer, fetches, View()) == Requested(old(View()), auth, retryAuth, responses, fates)
      decreases retryAuth
    {
      var bearer: Option<string> := None;
      if auth {
        var current := LoadAuth(fates[0]);
        bearer := if current.Some? && current.value.access != "" then Some(current.value.access) else None;
      }
      fetches := [Call(bearer)];
      if responses[0].Unauthorized? && auth && retryAuth {
        var stored := LoadAuth(fates[1]);
        if stored.Some? && stored.value.refresh != "" {
          var ok, more := RefreshOnce(responses[1], fates[2], fates[3]);
          fetches := fetches + more;
          if !ok {
            return Error, fetches;
          }
          var rest;
          answer, rest := Request(auth, false, [responses[2]] + responses[..2], [fates[4]] + fates[..4]);
          return answer, fetches + rest;
        }
      }
      answer := AnswerOf(responses[0]);
    }
  }
}
