/**
 What a login needs to end in tokens, among whatever else runs: the direction that the safety
 theorems of Interleavings leave open.
 */
module Logins {
  import opened Common
  import opened FlowEngine
  import opened Stores
  import opened FlowHandlers
  import opened FlowChanges
  import opened Oidc
  import opened Interleavings

  /** The system after more events. */
  function Continue(s: System, events: seq<Event>, s256: string -> string): System
    decreases events
  {
    if events == [] then s else Continue(Step(s, events[0], s256), events[1..], s256)
  }

  lemma {:induction false} RunContinues(events: seq<Event>, more: seq<Event>, s256: string -> string)
    ensures Run(events + more, s256) == Continue(Run(events, s256), more, s256)
    decreases |more|
  {
    if more == [] {
      assert events + more == events;
    } else {
      assert (events + [more[0]])[..|events|] == events;
      assert events + more == events + [more[0]] + more[1..];
      RunContinues(events + [more[0]], more[1..], s256);
    }
  }

  // ---- The other events ----

  /** A sweep drops the expired flows, and nothing in flight. */
  lemma SweepExact(s: System, at: int, s256: string -> string)
    ensures var after := Step(s, Event.DeleteExpired(at), s256);
      && after == s.(flows := after.flows)
      && (forall id :: id in after.flows <==> id in s.flows && at <= s.flows[id].params.expiresAt)
      && (forall id | id in after.flows :: after.flows[id] == s.flows[id])
  {
  }

  /** What the authorize endpoint asks of a request. */
  predicate WellAsked(r: AuthRequest) {
    && r.clientID != "" && r.redirectURI != "" && r.responseType == "code"
    && r.challenge != "" && r.challengeMethod in ["", "S256", "s256"]
  }

  /** Flows without a challenge are created untouched; requests that are not answerable create none. */
  lemma CreateExact(s: System, id: string, params: Params, r: AuthRequest, at: int, s256: string -> string)
    ensures params.challenge == "" ==>
              var f := NewFlow(id, params);
              Untouched(f) && f.params == params && Step(s, Event.Create(id, params, at), s256) == s.(flows := s.flows[id := f])
    ensures !WellAsked(r) ==> Step(s, Authorize(id, r, at), s256) == s
  {
    UpperIsS256(r.challengeMethod);
  }

  // ---- The token endpoint ----

  /** The answer to a consumed code: tokens exactly when they are earned. */
  lemma RedeemExact(s: System, t: nat, redirectURI: string, verifier: string, at: int, s256: string -> string)
    requires t in s.holding
    ensures Step(s, Redeem(t, redirectURI, verifier, at), s256).grants ==
            if Earned(s.holding[t].flow, redirectURI, verifier, at, s256)
            then s.grants + [Grant(s.holding[t], redirectURI, verifier, at)] else s.grants
  {
    RedeemableIsEarned(s.holding[t].flow, redirectURI, verifier, at, s256);
  }

  /** The events of other requests: t's consumed code is not theirs to redeem. */
  predicate LeavesAlone(e: Event, t: nat) {
    (e.Consume? ==> e.thread != t) && (e.Redeem? ==> e.thread != t)
  }

  lemma {:induction false} HeldMeanwhile(s: System, others: seq<Event>, t: nat, s256: string -> string)
    requires t in s.holding && forall e | e in others :: LeavesAlone(e, t)
    ensures var s' := Continue(s, others, s256); t in s'.holding && s'.holding[t] == s.holding[t]
    decreases |others|
  {
    if others != [] {
      assert LeavesAlone(others[0], t);
      HeldMeanwhile(Step(s, others[0], s256), others[1..], t, s256);
    }
  }

  /**
   At any point of any run, whoever brings the code of a stored flow and earns its tokens gets them,
   whatever other requests do between the two steps of the token endpoint.
   */
  lemma CodeIsHonoured(events: seq<Event>, others: seq<Event>, t: nat, id: string, at: int,
                       redirectURI: string, verifier: string, later: int, s256: string -> string)
    requires id in Run(events, s256).flows && Run(events, s256).flows[id].authCode != ""
    requires Earned(Run(events, s256).flows[id], redirectURI, verifier, later, s256)
    requires forall e | e in others :: LeavesAlone(e, t)
    ensures var f := Run(events, s256).flows[id];
      var meanwhile := Run(events + [Consume(t, id, f.authCode, at)] + others, s256);
      Run(events + [Consume(t, id, f.authCode, at)] + others + [Redeem(t, redirectURI, verifier, later)], s256).grants
      == meanwhile.grants + [Grant(Taken(f, at), redirectURI, verifier, later)]
  {
    var f := Run(events, s256).flows[id];
    var taken := events + [Consume(t, id, f.authCode, at)];
    assert taken[..|events|] == events;
    RunContinues(taken, others, s256);
    HeldMeanwhile(Run(taken, s256), others, t, s256);
    var e := Redeem(t, redirectURI, verifier, later);
    assert (taken + others + [e])[..|taken + others|] == taken + others;
    RedeemExact(Run(taken + others, s256), t, redirectURI, verifier, later, s256);
  }

  // ---- Whole logins ----

  /** A handler of thread t run at once. */
  function Handled(s: System, t: nat, id: string, h: Handler, at: int, s256: string -> string): System {
    Step(Step(s, Begin(t, id, at), s256), Finish(t, h, at), s256)
  }

  lemma HandledWrites(s: System, t: nat, id: string, h: Handler, at: int, s256: string -> string)
    requires id in s.flows && s.flows[id].id == id && Written(h, s.flows[id], at).Some?
    ensures Handled(s, t, id, h, at, s256).flows == s.flows[id := Written(h, s.flows[id], at).value]
    ensures Written(h, s.flows[id], at).value.id == id
    ensures Handled(s, t, id, h, at, s256).grants == s.grants
  {
    WrittenSameID(h, s.flows[id], at);
  }

  /** From a complete flow: the code is drawn, sent, brought back and redeemed. */
  function Tail(s: System, t: nat, id: string, code: string, verifier: string, at: int, s256: string -> string): System {
    Step(Step(Handled(s, t, id, AuthorizeComplete(code), at, s256), Consume(t, id, code, at), s256),
         Redeem(t, "", verifier, at), s256)
  }

  lemma CompleteEndsInTokens(s: System, t: nat, id: string, code: string, verifier: string, at: int, s256: string -> string)
    requires id in s.flows && s.flows[id].id == id && s.flows[id].params.redirectURI != "" && code != ""
    requires Earned(s.flows[id], "", verifier, at, s256)
    ensures Tail(s, t, id, code, verifier, at, s256).grants ==
            s.grants + [Grant(Taken(s.flows[id].(authCode := code), at), "", verifier, at)]
  {
    HandledWrites(s, t, id, AuthorizeComplete(code), at, s256);
    var sent := Handled(s, t, id, AuthorizeComplete(code), at, s256);
    var taken := Step(sent, Consume(t, id, code, at), s256);
    assert taken.holding[t] == Taken(s.flows[id].(authCode := code), at);
    RedeemExact(taken, t, "", verifier, at, s256);
  }

  /** A verifier that can answer for the request later. */
  predicate Answerable(r: AuthRequest, verifier: string, s256: string -> string) {
    && WellAsked(r) && verifier != "" && s256(verifier) == r.challenge
  }

  /** A new flow, and its user picked. */
  function Started(s: System, t: nat, id: string, r: AuthRequest, user: User, at: int, s256: string -> string): System {
    Handled(Step(s, Authorize(id, r, at), s256), t, id, SelectUser("", user.id, Some(user)), at, s256)
  }

  lemma StartedFlow(s: System, t: nat, id: string, r: AuthRequest, user: User, verifier: string, at: int, s256: string -> string)
    requires Answerable(r, verifier, s256) && user.id != ""
    ensures var s' := Started(s, t, id, r, user, at, s256);
      && s'.grants == s.grants && id in s'.flows && s'.flows[id].id == id && FlowOK(s'.flows[id])
      && Remembers(s'.flows[id].params, r, at) && s'.flows[id].userID == user.id
      && Picked(NewFlow(id, RequestParams(r, at)), user, s'.flows[id], at)
  {
    UpperIsS256(r.challengeMethod);
    var begun, f := Step(s, Authorize(id, r, at), s256), NewFlow(id, RequestParams(r, at));
    assert begun.flows[id] == f && begun.grants == s.grants;
    assert CanTransition(Initiated, UserPicked);
    HandledWrites(begun, t, id, SelectUser("", user.id, Some(user)), at, s256);
    PickedAsWritten(f, user, at);
  }

  /** A user without a second factor: authorize, pick, code, tokens. */
  lemma LoginEndsInTokens(s: System, t: nat, id: string, r: AuthRequest, user: User, code: string, verifier: string,
                          at: int, s256: string -> string) returns (f: Flow)
    requires Answerable(r, verifier, s256) && user.id != "" && code != ""
    requires user.mfaMethod !in ["totp", "push", "sms", "magic_link", "webauthn"] && user.nextFlow != "account_locked"
    ensures Tail(Started(s, t, id, r, user, at, s256), t, id, code, verifier, at, s256).grants ==
            s.grants + [Grant(Taken(f, at), "", verifier, at)]
    ensures f.id == id && f.userID == user.id && Remembers(f.params, r, at)
  {
    StartedFlow(s, t, id, r, user, verifier, at, s256);
    var started := Started(s, t, id, r, user, at, s256);
    CompleteEndsInTokens(started, t, id, code, verifier, at, s256);
    f := started.flows[id].(authCode := code);
  }

  /** A user with one: the handler that passes the factor, and the page that completes the flow, come in between. */
  lemma FactorLoginEndsInTokens(s: System, t: nat, id: string, r: AuthRequest, user: User, h: Handler, code: string,
                                verifier: string, at: int, later: int, s256: string -> string) returns (f: Flow)
    requires Answerable(r, verifier, s256) && user.id != "" && code != "" && later <= at + 1_800_000_000_000
    requires var started := Started(s, t, id, r, user, at, s256); id in started.flows && FactorPassed(started.flows[id], h, later)
    ensures var approved := Handled(Started(s, t, id, r, user, at, s256), t, id, h, later, s256);
      Tail(Handled(approved, t, id, MoveToComplete, later, s256), t, id, code, verifier, later, s256).grants ==
      s.grants + [Grant(Taken(f, later), "", verifier, later)]
    ensures f.id == id && f.userID == user.id && Remembers(f.params, r, at)
  {
    StartedFlow(s, t, id, r, user, verifier, at, s256);
    var started := Started(s, t, id, r, user, at, s256);
    var g := FactorCompletes(started, t, id, h, later, s256);
    var done := Handled(Handled(started, t, id, h, later, s256), t, id, MoveToComplete, later, s256);
    CompleteEndsInTokens(done, t, id, code, verifier, later, s256);
    f := g.(authCode := code);
  }

  lemma FactorCompletes(s: System, t: nat, id: string, h: Handler, at: int, s256: string -> string) returns (g: Flow)
    requires id in s.flows && s.flows[id].id == id && FlowOK(s.flows[id]) && FactorPassed(s.flows[id], h, at)
    ensures var done := Handled(Handled(s, t, id, h, at, s256), t, id, MoveToComplete, at, s256);
      done.grants == s.grants && id in done.flows && done.flows[id] == g
    ensures g.id == id && g.state == Complete && g.params == s.flows[id].params && g.userID == s.flows[id].userID
  {
    var f := s.flows[id];
    OutcomeExact(f, h, at);
    WriteLegal(f, h, at);
    var approved := Written(h, f, at).value;
    HandledWrites(s, t, id, h, at, s256);
    HandledWrites(Handled(s, t, id, h, at, s256), t, id, MoveToComplete, at, s256);
    g := Written(MoveToComplete, approved, at).value;
    SameParams(f, h, at);
  }

  lemma SameParams(f: Flow, h: Handler, at: int)
    requires Written(h, f, at).Some?
    ensures Written(h, f, at).value.params == f.params
  {
  }
}
