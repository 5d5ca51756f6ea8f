/**
 Handlers without a lock between store read and store write, in every interleaving.
 A run is a sequence of events; a thread holds the snapshot its handler read, and any
 number of other events may come before it writes. Only ConsumeAuthCode is atomic.
 */
module Interleavings {
  import opened Common
  import opened FlowEngine
  import opened Stores
  import opened FlowHandlers
  import opened FlowChanges
  import opened Oidc

  datatype Event =
    | Create(id: string, params: Params, at: int)     // any flow but one of the authorize endpoint
    | Authorize(id: string, request: AuthRequest, at: int)
    | Begin(thread: nat, id: string, at: int)            // a handler reads its flow
    | Finish(thread: nat, handler: Handler, at: int)     // and writes what it computed from it
    | Consume(thread: nat, id: string, code: string, at: int)  // the token endpoint's atomic consume
    | Redeem(thread: nat, redirectURI: string, verifier: string, at: int)  // its checks, and the tokens
    | DeleteExpired(at: int)

  datatype Taken = Taken(flow: Flow, at: int)
  datatype Grant = Grant(taken: Taken, redirectURI: string, verifier: string, at: int)

  /** The store, the snapshots in flight, and what the token endpoint has consumed and granted. */
  datatype System = System(
    flows: Flows, snapshots: map<nat, Flow>, holding: map<nat, Taken>,
    consumed: seq<Taken>, grants: seq<Grant>)

  const START := System(map[], map[], map[], [], [])

  /** A handler's write from the snapshot of thread t; `keep` when the handler goes on with what it wrote. */
  function Write(s: System, t: nat, w: Option<Flow>, keep: bool): System {
    if w.None? then s.(snapshots := s.snapshots - {t})
    else s.(flows := Updated(s.flows, w.value),
            snapshots := if keep then s.snapshots[t := w.value] else s.snapshots - {t})
  }

  /** ConsumeAuthCode: one atomic read and clear. */
  function Take(s: System, t: nat, id: string, code: string, at: int): System {
    if code != "" && id in s.flows && s.flows[id].authCode == code then
      var f := s.flows[id];
      s.(flows := s.flows[id := f.(authCode := "")],
         holding := s.holding[t := Taken(f, at)],
         consumed := s.consumed + [Taken(f, at)])
    else s
  }

  function Answer(s: System, t: nat, redirectURI: string, verifier: string, at: int, s256: string -> string): System {
    if t !in s.holding then s
    else if Redeemable(s.holding[t].flow, redirectURI, verifier, at, s256) then
      s.(holding := s.holding - {t}, grants := s.grants + [Grant(s.holding[t], redirectURI, verifier, at)])
    else s.(holding := s.holding - {t})
  }

  function Step(s: System, e: Event, s256: string -> string): System {
    match e
    case Create(id, params, at) => if params.challenge == "" then s.(flows := s.flows[id := NewFlow(id, params)]) else s
    case Authorize(id, r, at) =>
      if ValidRequest(r) then s.(flows := s.flows[id := NewFlow(id, RequestParams(r, at))]) else s
    case Begin(t, id, _) => if id in s.flows then s.(snapshots := s.snapshots[t := s.flows[id]]) else s
    case Finish(t, h, at) =>
      // after its auto-advance loginMFAHandler goes on with the record it wrote
      if t in s.snapshots then Write(s, t, Written(h, s.snapshots[t], at), h.AutoAdvance?) else s
    case Consume(t, id, code, at) => Take(s, t, id, code, at)
    case Redeem(t, redirectURI, verifier, at) => Answer(s, t, redirectURI, verifier, at, s256)
    case DeleteExpired(at) => s.(flows := WithoutExpired(s.flows, at))
  }

  function Run(events: seq<Event>, s256: string -> string): System {
    if events == [] then START else Step(Run(events[..|events| - 1], s256), events[|events| - 1], s256)
  }

  // ---- Hypotheses on randomness and the clock ----

  predicate DrawsCode(e: Event) { e.Finish? && e.handler.AuthorizeComplete? }
  predicate DrawsID(e: Event) { e.Create? || e.Authorize? }

  /** Codes are non-empty and never drawn twice; flow ids are never drawn twice. */
  predicate Fresh(events: seq<Event>) {
    && (forall i | 0 <= i < |events| && DrawsCode(events[i]) :: events[i].handler.code != "")
    && (forall i, j | 0 <= i < j < |events| && DrawsCode(events[i]) && DrawsCode(events[j]) ::
          events[i].handler.code != events[j].handler.code)
    && (forall i, j | 0 <= i < j < |events| && DrawsID(events[i]) && DrawsID(events[j]) :: events[i].id != events[j].id)
  }

  predicate Monotone(events: seq<Event>) {
    forall i, j | 0 <= i < j < |events| :: events[i].at <= events[j].at
  }

  // ---- The invariant of every record ever written ----

  predicate RecordOK(f: Flow) {
    FlowOK(f) && (f.authCode != "" ==> f.state == Complete)
  }

  /**
   From a good record every handler writes a good record, of the same flow with the same
   parameters, that carries no code except one just drawn.
   */
  lemma WrittenOK(h: Handler, f: Flow, now: int)
    requires RecordOK(f) && Written(h, f, now).Some?
    ensures var w := Written(h, f, now).value;
            RecordOK(w) && w.id == f.id && w.params == f.params
            && w.authCode == if h.AuthorizeComplete? then h.code else ""
  {
    WriteLegal(f, h, now);
    WrittenCode(h, f, now);
  }

  lemma WrittenCode(h: Handler, f: Flow, now: int)
    requires RecordOK(f) && Written(h, f, now).Some?
    ensures var w := Written(h, f, now).value;
            w.id == f.id && w.params == f.params && (w.authCode != "" ==> w.state == Complete)
            && w.authCode == if h.AuthorizeComplete? then h.code else ""
  {
    if h.SelectUser? { PickedOK(f, h.userID, h.user.value, now); }
  }

  lemma PickedOK(f: Flow, userID: string, user: User, now: int)
    requires f.authCode == ""
    ensures var w := PickUserWrites(f, userID, user, now); w.id == f.id && w.params == f.params && w.authCode == ""
  {
  }

  // ---- Invariants over runs ----

  predicate CodeDrawn(events: seq<Event>, code: string) {
    exists i :: 0 <= i < |events| && DrawsCode(events[i]) && events[i].handler.code == code
  }

  predicate Spent(s: System, code: string) {
    exists i :: 0 <= i < |s.consumed| && s.consumed[i].flow.authCode == code
  }

  predicate Created(events: seq<Event>, f: Flow) {
    exists i :: 0 <= i < |events| && CreatedBy(events[i], f)
  }

  /** The event that created the flow fixed the parameters it still has. */
  predicate CreatedBy(e: Event, f: Flow) {
    (e.Create? && e.id == f.id && f.params == e.params && f.params.challenge == "")
    || (e.Authorize? && e.id == f.id && ValidRequest(e.request) && f.params == RequestParams(e.request, e.at))
  }

  predicate Good(events: seq<Event>, f: Flow) { RecordOK(f) && Created(events, f) }

  ghost predicate Records(events: seq<Event>, s: System) {
    && (forall id | id in s.flows :: s.flows[id].id == id && Good(events, s.flows[id]))
    && (forall t | t in s.snapshots :: Good(events, s.snapshots[t]))
    && (forall i | 0 <= i < |s.consumed| :: Good(events, s.consumed[i].flow))
    && (forall t | t in s.holding :: s.holding[t] in s.consumed)
  }

  ghost predicate Codes(events: seq<Event>, s: System) {
    && (forall id | id in s.flows && s.flows[id].authCode != "" ::
          CodeDrawn(events, s.flows[id].authCode) && !Spent(s, s.flows[id].authCode))
    && (forall id, id' | id in s.flows && id' in s.flows && id != id' && s.flows[id].authCode != "" ::
          s.flows[id].authCode != s.flows[id'].authCode)
    && (forall i | 0 <= i < |s.consumed| :: CodeDrawn(events, s.consumed[i].flow.authCode) && s.consumed[i].flow.authCode != "")
    && (forall i, j | 0 <= i < j < |s.consumed| :: s.consumed[i].flow.authCode != s.consumed[j].flow.authCode)
  }

  lemma GoodExtends(events: seq<Event>, e: Event, f: Flow)
    requires Good(events, f)
    ensures Good(events + [e], f)
  {
    var i :| 0 <= i < |events| && CreatedBy(events[i], f);
    assert (events + [e])[i] == events[i];
  }

  lemma NewlyCreated(events: seq<Event>, e: Event, f: Flow)
    requires CreatedBy(e, f)
    ensures Created(events + [e], f)
  {
    assert (events + [e])[|events|] == e;
  }

  lemma RecordsStep(events: seq<Event>, s: System, e: Event, s256: string -> string)
    requires Records(events, s)
    ensures Records(events + [e], Step(s, e, s256))
  {
    RecordsExtend(events, e, s);
    if e.Finish? {
      RecordsFinish(events + [e], s, e, s256);
    } else if e.Consume? {
      RecordsTake(events + [e], s, e.thread, e.id, e.code, e.at);
    } else if e.Create? || e.Authorize? {
      RecordsCreate(events, s, e, s256);
    } else {
      RecordsOther(events + [e], s, e, s256);
    }
  }

  lemma RecordsCreate(events: seq<Event>, s: System, e: Event, s256: string -> string)
    requires Records(events + [e], s) && (e.Create? || e.Authorize?)
    ensures Records(events + [e], Step(s, e, s256))
  {
    if e.Create? {
      if e.params.challenge == "" {
        var f := NewFlow(e.id, e.params);
        NewlyCreated(events, e, f);
        RecordsStored(events + [e], s, f);
      }
    } else if ValidRequest(e.request) {
      var f := NewFlow(e.id, RequestParams(e.request, e.at));
      NewlyCreated(events, e, f);
      RecordsStored(events + [e], s, f);
    }
  }

  /** The other events bring no record that was not in the store. */
  lemma OtherStep(s: System, e: Event, s256: string -> string)
    requires e.Begin? || e.Redeem? || e.DeleteExpired?
    ensures NothingNew(s, Step(s, e, s256), if e.Begin? then e.id else "")
  {
  }

  predicate NothingNew(s: System, s': System, id: string) {
    && s'.consumed == s.consumed
    && (forall k | k in s'.flows :: k in s.flows && s'.flows[k] == s.flows[k])
    && (forall t | t in s'.holding :: t in s.holding && s'.holding[t] == s.holding[t])
    && (forall t | t in s'.snapshots ::
          (t in s.snapshots && s'.snapshots[t] == s.snapshots[t]) || (id in s.flows && s'.snapshots[t] == s.flows[id]))
  }

  lemma RecordsOther(events: seq<Event>, s: System, e: Event, s256: string -> string)
    requires Records(events, s) && (e.Begin? || e.Redeem? || e.DeleteExpired?)
    ensures Records(events, Step(s, e, s256))
  {
    OtherStep(s, e, s256);
    RecordsQuiet(events, s, Step(s, e, s256), if e.Begin? then e.id else "");
  }

  lemma RecordsFinish(events: seq<Event>, s: System, e: Event, s256: string -> string)
    requires Records(events, s) && e.Finish?
    ensures Records(events, Step(s, e, s256))
  {
    if e.thread in s.snapshots {
      var f := s.snapshots[e.thread];
      var w := Written(e.handler, f, e.at);
      if w.Some? { WrittenOK(e.handler, f, e.at); }
      RecordsWrite(events, s, e.thread, w, e.handler.AutoAdvance?);
    }
  }

  lemma RecordsStored(events: seq<Event>, s: System, f: Flow)
    requires Records(events, s) && Good(events, f)
    ensures Records(events, s.(flows := s.flows[f.id := f]))
  {
  }

  lemma RecordsQuiet(events: seq<Event>, s: System, s': System, id: string)
    requires Records(events, s) && NothingNew(s, s', id)
    ensures Records(events, s')
  {
  }

  lemma RecordsExtend(events: seq<Event>, e: Event, s: System)
    requires Records(events, s)
    ensures Records(events + [e], s)
  {
    forall f | Good(events, f) ensures Good(events + [e], f) { GoodExtends(events, e, f); }
  }

  lemma RecordsWrite(events: seq<Event>, s: System, t: nat, w: Option<Flow>, keep: bool)
    requires Records(events, s) && t in s.snapshots
    requires w.Some? ==> RecordOK(w.value) && w.value.id == s.snapshots[t].id && w.value.params == s.snapshots[t].params
    ensures Records(events, Write(s, t, w, keep))
  {
    if w.Some? { SameOrigin(events, s.snapshots[t], w.value); }
  }

  lemma RecordsTake(events: seq<Event>, s: System, t: nat, id: string, code: string, at: int)
    requires Records(events, s)
    ensures Records(events, Take(s, t, id, code, at))
  {
    if id in s.flows { SameOrigin(events, s.flows[id], s.flows[id].(authCode := "")); }
  }

  lemma SameOrigin(events: seq<Event>, f: Flow, g: Flow)
    requires Created(events, f) && f.id == g.id && f.params == g.params
    ensures Created(events, g)
  {
    var i :| 0 <= i < |events| && CreatedBy(events[i], f);
    assert CreatedBy(events[i], g);
  }

  lemma FreshPrefix(events: seq<Event>, e: Event)
    requires Fresh(events + [e])
    ensures Fresh(events)
    ensures DrawsCode(e) ==> e.handler.code != "" && !CodeDrawn(events, e.handler.code)
  {
    var all := events + [e];
    assert forall i | 0 <= i < |events| :: all[i] == events[i];
    assert all[|events|] == e;
  }

  lemma CodesStep(events: seq<Event>, s: System, e: Event, s256: string -> string)
    requires Records(events, s) && Codes(events, s) && Fresh(events + [e])
    ensures Codes(events + [e], Step(s, e, s256))
  {
    FreshPrefix(events, e);
    CodesExtend(events, e, s);
    if e.Finish? {
      CodesFinish(events, s, e, s256);
    } else if e.Consume? {
      CodesTake(events + [e], s, e.thread, e.id, e.code, e.at);
    } else {
      CodesQuiet(events + [e], s, e, s256);
    }
  }

  lemma CodesFinish(events: seq<Event>, s: System, e: Event, s256: string -> string)
    requires Records(events, s) && Codes(events, s) && Codes(events + [e], s) && e.Finish?
    requires DrawsCode(e) ==> !CodeDrawn(events, e.handler.code)
    ensures Codes(events + [e], Step(s, e, s256))
  {
    if e.thread in s.snapshots {
      var f := s.snapshots[e.thread];
      var w := Written(e.handler, f, e.at);
      if w.Some? { WrittenOK(e.handler, f, e.at); }
      if DrawsCode(e) {
        assert (events + [e])[|events|] == e;
        assert CodeDrawn(events + [e], e.handler.code);
      }
      CodesWrite(events, events + [e], s, e.thread, w, e.handler.AutoAdvance?);
    }
  }

  lemma CodesQuiet(events: seq<Event>, s: System, e: Event, s256: string -> string)
    requires Codes(events, s) && !e.Finish? && !e.Consume?
    ensures Codes(events, Step(s, e, s256))
  {
    CodesKept(events, s, Step(s, e, s256));
  }

  lemma CodesKept(events: seq<Event>, s: System, s': System)
    requires Codes(events, s) && s'.consumed == s.consumed
    requires forall id | id in s'.flows && s'.flows[id].authCode != "" ::
               id in s.flows && s.flows[id].authCode == s'.flows[id].authCode
    ensures Codes(events, s')
  {
  }

  lemma CodesExtend(events: seq<Event>, e: Event, s: System)
    requires Codes(events, s)
    ensures Codes(events + [e], s)
  {
    forall code | CodeDrawn(events, code) ensures CodeDrawn(events + [e], code) {
      var i :| 0 <= i < |events| && DrawsCode(events[i]) && events[i].handler.code == code;
      assert (events + [e])[i] == events[i];
    }
  }

  /** A write stores no code, or one that was drawn just now and so is nowhere yet. */
  lemma CodesWrite(events: seq<Event>, all: seq<Event>, s: System, t: nat, w: Option<Flow>, keep: bool)
    requires Codes(events, s) && Codes(all, s)
    requires w.Some? && w.value.authCode != "" ==> CodeDrawn(all, w.value.authCode) && !CodeDrawn(events, w.value.authCode)
    ensures Codes(all, Write(s, t, w, keep))
  {
  }

  lemma CodesTake(events: seq<Event>, s: System, t: nat, id: string, code: string, at: int)
    requires Codes(events, s)
    ensures Codes(events, Take(s, t, id, code, at))
  {
    var s' := Take(s, t, id, code, at);
    if s' != s {
      assert !Spent(s, code);
      forall k | k in s'.flows && s'.flows[k].authCode != "" ensures !Spent(s', s'.flows[k].authCode) {
        assert s'.flows[k] == s.flows[k] && !Spent(s, s.flows[k].authCode);
        assert forall i | 0 <= i < |s'.consumed| ::
            s'.consumed[i] == if i < |s.consumed| then s.consumed[i] else Taken(s.flows[id], at);
      }
    }
  }

  lemma {:induction false} RunInvariant(events: seq<Event>, s256: string -> string)
    requires Fresh(events)
    ensures Records(events, Run(events, s256)) && Codes(events, Run(events, s256))
  {
    if events != [] {
      var before, e := events[..|events| - 1], events[|events| - 1];
      assert events == before + [e];
      FreshPrefix(before, e);
      RunInvariant(before, s256);
      RecordsStep(before, Run(before, s256), e, s256);
      CodesStep(before, Run(before, s256), e, s256);
    }
  }

  /** However handlers interleave, no code is returned twice by ConsumeAuthCode. */
  lemma CodeConsumedOnce(events: seq<Event>, s256: string -> string)
    requires Fresh(events)
    ensures var consumed := Run(events, s256).consumed;
            forall i, j | 0 <= i < j < |consumed| :: consumed[i].flow.authCode != consumed[j].flow.authCode
  {
    RunInvariant(events, s256);
  }

  /** Every record in the store or in flight, in every run. */
  lemma EveryRecordGood(events: seq<Event>, s256: string -> string)
    requires Fresh(events)
    ensures var s := Run(events, s256);
            && (forall id | id in s.flows :: RecordOK(s.flows[id]))
            && (forall t | t in s.snapshots :: RecordOK(s.snapshots[t]))
  {
    RunInvariant(events, s256);
  }

  // ---- What tokens are issued for ----

  ghost predicate Grants(s: System, s256: string -> string) {
    && (forall t | t in s.holding :: s.holding[t] in s.consumed)
    && (forall i | 0 <= i < |s.grants| :: s.grants[i].taken in s.consumed
          && Redeemable(s.grants[i].taken.flow, s.grants[i].redirectURI, s.grants[i].verifier, s.grants[i].at, s256))
    // one consumption backs one grant at most
    && (forall t, t' | t in s.holding && t' in s.holding && t != t' ::
          s.holding[t].flow.authCode != s.holding[t'].flow.authCode)
    && (forall t, i | t in s.holding && 0 <= i < |s.grants| :: s.holding[t].flow.authCode != s.grants[i].taken.flow.authCode)
    && (forall i, j | 0 <= i < j < |s.grants| :: s.grants[i].taken.flow.authCode != s.grants[j].taken.flow.authCode)
  }

  /** Nothing consumed or granted lies in the future, and grants come after their consumption. */
  ghost predicate Timed(s: System, now: int) {
    && (forall i | 0 <= i < |s.consumed| :: s.consumed[i].at <= now)
    && (forall i | 0 <= i < |s.grants| :: s.grants[i].taken.at <= s.grants[i].at)
  }

  lemma GrantsStep(events: seq<Event>, s: System, e: Event, s256: string -> string)
    requires Grants(s, s256) && Codes(events, s)
    ensures Grants(Step(s, e, s256), s256)
  {
    if e.Consume? {
      GrantsTake(events, s, e.thread, e.id, e.code, e.at, s256);
    } else if e.Redeem? {
      GrantsAnswer(s, e.thread, e.redirectURI, e.verifier, e.at, s256);
    } else {
      NoTokens(s, e, s256);
      SameGrants(s, Step(s, e, s256), s256);
    }
  }

  /** Only the token endpoint touches what was consumed and granted. */
  lemma NoTokens(s: System, e: Event, s256: string -> string)
    requires !e.Consume? && !e.Redeem?
    ensures var s' := Step(s, e, s256); s'.holding == s.holding && s'.consumed == s.consumed && s'.grants == s.grants
  {
  }

  lemma SameGrants(s: System, s': System, s256: string -> string)
    requires Grants(s, s256) && s'.holding == s.holding && s'.consumed == s.consumed && s'.grants == s.grants
    ensures Grants(s', s256)
  {
  }

  lemma GrantsTake(events: seq<Event>, s: System, t: nat, id: string, code: string, at: int, s256: string -> string)
    requires Grants(s, s256) && Codes(events, s)
    ensures Grants(Take(s, t, id, code, at), s256)
  {
    var s' := Take(s, t, id, code, at);
    if s' != s {
      assert s'.consumed[|s.consumed|] == s'.holding[t];
      assert !Spent(s, code);
      forall x | x in s.consumed ensures x in s'.consumed && x.flow.authCode != code {
        var i :| 0 <= i < |s.consumed| && s.consumed[i] == x;
        assert s'.consumed[i] == x;
      }
    }
  }

  lemma GrantsAnswer(s: System, t: nat, redirectURI: string, verifier: string, at: int, s256: string -> string)
    requires Grants(s, s256)
    ensures Grants(Answer(s, t, redirectURI, verifier, at, s256), s256)
  {
    if t in s.holding {
      GrantsDropped(s, t, s256);
      if Redeemable(s.holding[t].flow, redirectURI, verifier, at, s256) {
        GrantsAdded(s.(holding := s.holding - {t}), Grant(s.holding[t], redirectURI, verifier, at), s256);
      }
    }
  }

  lemma GrantsDropped(s: System, t: nat, s256: string -> string)
    requires Grants(s, s256) && t in s.holding
    ensures Grants(s.(holding := s.holding - {t}), s256)
  {
  }

  lemma GrantsAdded(s: System, g: Grant, s256: string -> string)
    requires Grants(s, s256) && g.taken in s.consumed
    requires Redeemable(g.taken.flow, g.redirectURI, g.verifier, g.at, s256)
    requires forall x | x in s.holding :: s.holding[x].flow.authCode != g.taken.flow.authCode
    requires forall i | 0 <= i < |s.grants| :: s.grants[i].taken.flow.authCode != g.taken.flow.authCode
    ensures Grants(s.(grants := s.grants + [g]), s256)
  {
  }

  lemma TimedStep(s: System, e: Event, before: int, s256: string -> string)
    requires Timed(s, before) && Grants(s, s256) && before <= e.at
    ensures Timed(Step(s, e, s256), e.at)
  {
    if !e.Consume? && !e.Redeem? { NoTokens(s, e, s256); }
  }

  lemma {:induction false} GrantsInvariant(events: seq<Event>, s256: string -> string)
    requires Fresh(events)
    ensures Grants(Run(events, s256), s256)
  {
    if events != [] {
      var before, e := events[..|events| - 1], events[|events| - 1];
      assert events == before + [e];
      FreshPrefix(before, e);
      RunInvariant(before, s256);
      GrantsInvariant(before, s256);
      GrantsStep(before, Run(before, s256), e, s256);
    }
  }

  lemma {:induction false} TimedInvariant(events: seq<Event>, s256: string -> string)
    requires Fresh(events) && Monotone(events)
    ensures events != [] ==> Timed(Run(events, s256), events[|events| - 1].at)
  {
    if events != [] {
      var before, e := events[..|events| - 1], events[|events| - 1];
      assert events == before + [e];
      FreshPrefix(before, e);
      TimedInvariant(before, s256);
      GrantsInvariant(before, s256);
      TimedStep(Run(before, s256), e, if before == [] then e.at else before[|before| - 1].at, s256);
    }
  }

  /**
   However handlers interleave, tokens leave only for a flow that was complete and unexpired
   when its code was consumed, to a caller whose verifier hashes to the challenge of the
   authorize request that created the flow, with that request's parameters untouched; and
   each code yields tokens at most once.
   */
  lemma TokensBoundToRequest(events: seq<Event>, s256: string -> string)
    requires Fresh(events) && Monotone(events)
    ensures var grants := Run(events, s256).grants;
      && (forall k | 0 <= k < |grants| :: GrantJustified(events, grants[k], s256))
      && (forall i, j | 0 <= i < j < |grants| :: grants[i].taken.flow.authCode != grants[j].taken.flow.authCode)
  {
    RunInvariant(events, s256);
    GrantsInvariant(events, s256);
    TimedInvariant(events, s256);
    var s := Run(events, s256);
    forall k | 0 <= k < |s.grants| ensures GrantJustified(events, s.grants[k], s256) {
      var f := s.grants[k].taken.flow;
      assert Created(events, f);
      var i :| 0 <= i < |events| && CreatedBy(events[i], f);
      assert events[i].Authorize?;
    }
  }

  ghost predicate GrantJustified(events: seq<Event>, g: Grant, s256: string -> string) {
    var f := g.taken.flow;
    && f.state == Complete
    && g.taken.at <= g.at <= f.params.expiresAt
    && (g.redirectURI == "" || g.redirectURI == f.params.redirectURI)
    && s256(g.verifier) == f.params.challenge
    && exists i :: 0 <= i < |events| && events[i].Authorize? && events[i].id == f.id
                   && ValidRequest(events[i].request) && Remembers(f.params, events[i].request, events[i].at)
  }

  // ---- What interleaving costs ----

  /** No write from this snapshot can take the stored record out of its terminal state. */
  predicate CannotReopen(snapshot: Flow, stored: Flow) {
    || (snapshot.state == stored.state && snapshot.completedAt == stored.completedAt)
    || snapshot.state == MFADenied
    || snapshot.state == Error
    || (snapshot.state == Complete && snapshot.params.redirectURI == "")
  }

  ghost predicate KeepsTerminal(snapshot: Flow, stored: Flow) {
    forall h, at | Written(h, snapshot, at).Some? ::
      Written(h, snapshot, at).value.state == stored.state && Written(h, snapshot, at).value.completedAt == stored.completedAt
  }

  /** A handler that overwrites a terminal record from an older snapshot. */
  function Reopener(snapshot: Flow): Handler {
    match snapshot.state
    case Initiated => SelectUser("", "v", Some(SECURED))
    case MFAPending => VerifyMFA("", "")
    case WebAuthnPending => WebAuthnBegin(true, "session")
    case Complete => AuthorizeComplete("code")
    case _ => MoveToComplete
  }

  lemma FrozenSnapshots(snapshot: Flow, stored: Flow, h: Handler, at: int)
    requires FlowOK(snapshot) && Terminal(stored.state) && CannotReopen(snapshot, stored) && Written(h, snapshot, at).Some?
    ensures Written(h, snapshot, at).value.state == stored.state && Written(h, snapshot, at).value.completedAt == stored.completedAt
  {
    WriteLegal(snapshot, h, at);
    TerminalWriter(snapshot, h, at);
  }

  /** From a terminal snapshot only the authorize-complete endpoint writes, and only for a redirect URI. */
  lemma TerminalWriter(snapshot: Flow, h: Handler, at: int)
    requires FlowOK(snapshot) && Terminal(snapshot.state) && Written(h, snapshot, at).Some?
    ensures h.AuthorizeComplete? && snapshot.state == Complete && snapshot.params.redirectURI != ""
  {
    WriteLegal(snapshot, h, at);
  }

  lemma Reopens(snapshot: Flow, stored: Flow)
    requires FlowOK(snapshot) && FlowOK(stored) && Terminal(stored.state) && !CannotReopen(snapshot, stored)
    ensures var w := Written(Reopener(snapshot), snapshot, stored.completedAt.value + 1);
      w.Some? && (w.value.state != stored.state || w.value.completedAt != stored.completedAt)
  {
    assert Blank("");
  }

  /** Whether every handler leaves a terminal record's state and time alone, read off the snapshot it started from. */
  lemma AbsorptionExact(snapshot: Flow, stored: Flow)
    requires FlowOK(snapshot) && FlowOK(stored) && Terminal(stored.state)
    ensures CannotReopen(snapshot, stored) <==> KeepsTerminal(snapshot, stored)
  {
    if CannotReopen(snapshot, stored) {
      forall h, at | Written(h, snapshot, at).Some?
        ensures Written(h, snapshot, at).value.state == stored.state && Written(h, snapshot, at).value.completedAt == stored.completedAt
      {
        FrozenSnapshots(snapshot, stored, h, at);
      }
    } else {
      Reopens(snapshot, stored);
    }
  }

  /** The terminal record with this id is still in the same state since the same time. */
  predicate StillTerminal(flows: Flows, stored: Flow) {
    stored.id in flows && flows[stored.id].state == stored.state && flows[stored.id].completedAt == stored.completedAt
  }

  /**
   At any point of any run, a terminal record survives whatever the thread that holds snapshots[t] may still
   write, exactly when that snapshot cannot reopen it.
   */
  lemma TerminalSurvivesExactly(events: seq<Event>, t: nat, s256: string -> string)
    requires Fresh(events) && t in Run(events, s256).snapshots
    requires var s := Run(events, s256); var id := s.snapshots[t].id; id in s.flows && Terminal(s.flows[id].state)
    ensures var s := Run(events, s256);
      var stored := s.flows[s.snapshots[t].id];
      CannotReopen(s.snapshots[t], stored) <==>
      forall h, at :: StillTerminal(Step(s, Finish(t, h, at), s256).flows, stored)
  {
    RunInvariant(events, s256);
    var s := Run(events, s256);
    var snapshot := s.snapshots[t];
    var stored := s.flows[snapshot.id];
    AbsorptionExact(snapshot, stored);
    forall h, at ensures StillTerminal(Step(s, Finish(t, h, at), s256).flows, stored) <==>
                         (Written(h, snapshot, at).Some? ==>
                            Written(h, snapshot, at).value.state == stored.state && Written(h, snapshot, at).value.completedAt == stored.completedAt)
    {
      FinishWrites(s, t, h, at, s256);
    }
  }

  lemma FinishWrites(s: System, t: nat, h: Handler, at: int, s256: string -> string)
    requires t in s.snapshots && s.snapshots[t].id in s.flows
    ensures var w := Written(h, s.snapshots[t], at);
      Step(s, Finish(t, h, at), s256).flows == if w.None? then s.flows else s.flows[s.snapshots[t].id := w.value]
  {
    WrittenSameID(h, s.snapshots[t], at);
  }

  const PLAIN := User("u", "none", "normal", "")
  const SECURED := User("v", "totp", "normal", "")
  const RACE := [
    Event.Create("f", PlainParams("oidc", 0), 0), Begin(0, "f", 0), Begin(1, "f", 0),
    Finish(0, SelectUser("", "u", Some(PLAIN)), 0), Finish(1, SelectUser("", "v", Some(SECURED)), 0)]

  /**
   Terminal states are not absorbing here: a stale user selection takes a completed flow
   back to mfa_pending. (Run one at a time, handlers never do this: see Sequential.)
   */
  lemma StaleSelectionReopensFlow(s256: string -> string)
    ensures var four := Run(RACE[..4], s256).flows;
            "f" in four && four["f"].state == Complete
    ensures var five := Run(RACE, s256).flows;
            "f" in five && five["f"].state == MFAPending && five["f"].completedAt == None
  {
    assert RACE[..5] == RACE;
    assert RACE[..5][..4] == RACE[..4];
    BothPicked(s256);
  }

  /** The first selection has completed the flow; the second still holds the flow as it was. */
  lemma BothPicked(s256: string -> string)
    ensures var f, s := NewFlow("f", PlainParams("oidc", 0)), Run(RACE[..4], s256);
      s.flows.Keys == {"f"} && s.flows["f"].state == Complete && s.snapshots == map[1 := f]
  {
    assert RACE[..4][..3] == RACE[..3];
    BothRead(s256);
    var f, s := NewFlow("f", PlainParams("oidc", 0)), Run(RACE[..3], s256);
    var w := PlainPick(f);
    assert Run(RACE[..4], s256) == Write(s, 0, Some(w), false);
  }

  lemma PlainPick(f: Flow) returns (w: Flow)
    requires f == NewFlow("f", PlainParams("oidc", 0))
    ensures Written(SelectUser("", "u", Some(PLAIN)), f, 0) == Some(w) && w.id == "f" && w.state == Complete
  {
    w := Written(SelectUser("", "u", Some(PLAIN)), f, 0).value;
  }

  lemma BothRead(s256: string -> string)
    ensures var f := NewFlow("f", PlainParams("oidc", 0));
      Run(RACE[..3], s256).flows == map["f" := f] && Run(RACE[..3], s256).snapshots == map[0 := f, 1 := f]
  {
    var f := NewFlow("f", PlainParams("oidc", 0));
    assert RACE[..3][..2] == RACE[..2];
    assert RACE[..2][..1] == RACE[..1];
    assert RACE[..1][..0] == [];
    assert Run([], s256) == START;
    assert Run(RACE[..1], s256).flows == map["f" := f];
    assert Run(RACE[..2], s256).snapshots == map[0 := f];
    assert Run(RACE[..3], s256).snapshots == map[0 := f, 1 := f];
  }
}
