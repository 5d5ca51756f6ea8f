/**
 What each request handler does to the flow it works on: a pure step from the record it
 read (server/internal/httpapi/flow_login.go, webauthn_handlers.go, router.go,
 server/internal/notify/notify.go, server/internal/oidc/router.go).
 Time, the user record read and library verdicts are inputs.
 */
module FlowHandlers {
  import opened Common
  import opened FlowEngine
  import opened Stores

  const SLOW_MFA_DELAY := 10_000_000_000
  const FLOW_TTL := 30 * 60 * 1_000_000_000

  function NewFlow(id: string, params: Params): Flow {
    Flow(id, params, "", Initiated, Normal, 0, "", None, "", "", "", "", false, "", "")
  }

  /** createFlowHandler and loginPageHandler: a flow without OIDC parameters */
  function PlainParams(protocol: string, now: int): Params {
    Params(if protocol == "" then "oidc" else protocol, "", "", [], "", "", "", "", "", now, now + FLOW_TTL)
  }

  function MarkTerminal(f: Flow, now: int): Flow {
    if Terminal(f.state) && f.completedAt == None then f.(completedAt := Some(now)) else f
  }

  /** The handlers that update a flow, with what they are given besides the flow record. */
  datatype Handler =
    | SelectUser(expected: string, userID: string, user: Option<User>)
    | VerifyMFA(expected: string, code: string)
    | ApproveOrDeny(expected: string, approve: bool)
    | AutoAdvance
    | MoveToComplete
    | MagicLink(token: string)
    | WebAuthnBegin(ready: bool, session: string)
    | WebAuthnFinishRegister(ready: bool, verdict: bool)
    | WebAuthnResponse(ready: bool, verdict: bool)
    | Notify(mfaMethod: string, secret: string)
    | AuthorizeComplete(code: string)

  predicate Expected(f: Flow, expected: string) { expected == "" || StateName(f.state) == expected }

  /** The record a handler writes back, or None when it refuses without writing. */
  function Written(h: Handler, f: Flow, now: int): Option<Flow> {
    match h
    case SelectUser(expected, userID, user) => SelectUserWrites(f, expected, userID, user, now)
    case VerifyMFA(expected, code) =>
      if !Expected(f, expected) || f.state != MFAPending then None
      else if (f.scenario == MFAFail && f.attempts == 0) || Blank(code) then Some(f.(attempts := f.attempts + 1))
      else Some(f.(attempts := f.attempts + 1, state := MFAApproved))
    case ApproveOrDeny(expected, approve) =>
      if !Expected(f, expected) || f.state != MFAPending then None
      else if !approve then Some(MarkTerminal(f.(state := MFADenied), now))
      else if f.scenario == SlowMFA && now - f.params.createdAt < SLOW_MFA_DELAY then None
      else Some(f.(state := MFAApproved))
    case AutoAdvance =>
      if f.state == MFAPending && f.scenario == SlowMFA && now - f.params.createdAt >= SLOW_MFA_DELAY
      then Some(f.(state := MFAApproved)) else None
    case MoveToComplete =>
      if f.state == MFAApproved then Some(MarkTerminal(f.(state := Complete), now)) else None
    case MagicLink(token) =>
      if MagicMatches(f, token) && f.state == MFAPending
      then Some(f.(state := MFAApproved, magicLinkUsed := true)) else None
    case WebAuthnBegin(ready, session) =>
      if f.state == WebAuthnPending && ready then Some(f.(webAuthnSession := session)) else None
    case WebAuthnFinishRegister(ready, verdict) =>
      if f.webAuthnSession != "" && ready && verdict then Some(f.(webAuthnSession := "")) else None
    case WebAuthnResponse(ready, verdict) =>
      if f.state == WebAuthnPending && f.webAuthnSession != "" && ready && verdict
      then Some(f.(state := MFAApproved, webAuthnSession := "")) else None
    case Notify(mfaMethod, secret) =>
      var g := Notified(f, mfaMethod, secret);
      if SecretsDiffer(f, g) then Some(g) else None
    case AuthorizeComplete(code) =>
      if f.state == Complete && f.params.redirectURI != "" then Some(f.(authCode := code)) else None
  }

  predicate MagicMatches(f: Flow, token: string) {
    token != "" && f.magicLinkToken == token && !f.magicLinkUsed
  }

  function SelectUserWrites(f: Flow, expected: string, userID: string, user: Option<User>, now: int): Option<Flow> {
    if userID == "" || !Expected(f, expected) || !CanTransition(f.state, UserPicked) || user.None? then None
    else Some(PickUserWrites(f, userID, user.value, now))
  }

  function PickUserWrites(f: Flow, userID: string, user: User, now: int): Flow {
    var picked := f.(userID := userID, scenario := NormalizeScenario(user.nextFlow), error := "");
    if picked.scenario == AccountLocked then
      MarkTerminal(picked.(state := Error, error := "account locked"), now)
    else if RequiresMFA(user.mfaMethod) then
      picked.(state := if IsWebAuthn(user.mfaMethod) then WebAuthnPending else MFAPending)
    else MarkTerminal(picked.(state := Complete), now)
  }

  /** notify.GenerateFor: a secret is generated only while a factor is pending and none is set. */
  function Notified(f: Flow, mfaMethod: string, secret: string): Flow {
    if f.state != MFAPending && f.state != WebAuthnPending then f
    else if mfaMethod == "totp" && f.totpSecret == "" then f.(totpSecret := secret)
    else if mfaMethod == "sms" && f.smsCode == "" then f.(smsCode := secret)
    else if mfaMethod == "magic_link" && f.magicLinkToken == "" then f.(magicLinkToken := secret)
    else if mfaMethod == "webauthn" && f.webAuthnChallenge == "" then f.(webAuthnChallenge := secret)
    else f
  }

  /** A pending flow gets the one secret of the user's method, if it has none; nothing else changes. */
  lemma NotifiedFields(f: Flow, mfaMethod: string, secret: string)
    ensures var g, pending := Notified(f, mfaMethod, secret), f.state == MFAPending || f.state == WebAuthnPending;
      && g == f.(totpSecret := g.totpSecret, smsCode := g.smsCode, magicLinkToken := g.magicLinkToken,
                 webAuthnChallenge := g.webAuthnChallenge)
      && g.totpSecret == (if pending && mfaMethod == "totp" && f.totpSecret == "" then secret else f.totpSecret)
      && g.smsCode == (if pending && mfaMethod == "sms" && f.smsCode == "" then secret else f.smsCode)
      && g.magicLinkToken == (if pending && mfaMethod == "magic_link" && f.magicLinkToken == "" then secret else f.magicLinkToken)
      && g.webAuthnChallenge == if pending && mfaMethod == "webauthn" && f.webAuthnChallenge == "" then secret else f.webAuthnChallenge
  {
  }

  predicate SecretsDiffer(f: Flow, g: Flow) {
    g.totpSecret != f.totpSecret || g.smsCode != f.smsCode
    || g.magicLinkToken != f.magicLinkToken || g.webAuthnChallenge != f.webAuthnChallenge
  }

  /** After a handler run by itself: read the record, compute, write back. */
  function AfterHandler(flows: Flows, id: string, h: Handler, now: int): Flows {
    if id in flows && Written(h, flows[id], now).Some? then Updated(flows, Written(h, flows[id], now).value) else flows
  }

  // ---- The handlers as the source runs them ----

  datatype Reply = Reply(status: int, code: string)
  const DONE := Reply(0, "")

  /** user.NextFlow = "normal" after a scenario has been played */
  method ResetScenario(users: UserStore, id: string)
    requires UsersKeyed(users.users)
    modifies users
    ensures users.users == ScenarioReset(old(users.users), id)
  {
    var found := users.GetByID(id);
    if found.Some? { users.Update(found.value.(nextFlow := "normal")); }
  }

  function ScenarioReset(users: map<string, User>, id: string): map<string, User> {
    if id in users then users[id := users[id].(nextFlow := "normal")] else users
  }

  /** Only the next scenario of that user changes. */
  lemma ScenarioResetMeans(users: map<string, User>, id: string)
    ensures ScenarioReset(users, id).Keys == users.Keys
    ensures forall u | u in users && u != id :: ScenarioReset(users, id)[u] == users[u]
    ensures id in users ==> ScenarioReset(users, id)[id] == User(users[id].id, users[id].mfaMethod, "normal", users[id].credentials)
  {
  }

  /** completedAt on entering a terminal state: the time, unless one is set. */
  function Stamp(f: Flow, now: int): Option<int> {
    if f.completedAt.Some? then f.completedAt else Some(now)
  }

  predicate UsersKeyed(users: map<string, User>) { forall id | id in users :: users[id].id == id }

  /** g is f after the user was picked: locked out, sent to the factor of the user's method, or complete. */
  predicate Picked(f: Flow, user: User, g: Flow, now: int) {
    && g == f.(userID := user.id, scenario := g.scenario, state := g.state, error := g.error, completedAt := g.completedAt)
    && g.scenario == (match user.nextFlow
                      case "mfa_fail" => MFAFail
                      case "account_locked" => AccountLocked
                      case "slow_mfa" => SlowMFA
                      case "expired_token" => ExpiredToken
                      case _ => Normal)
    && g.error == (if user.nextFlow == "account_locked" then "account locked" else "")
    && g.state == (if user.nextFlow == "account_locked" then Error
                   else match user.mfaMethod
                        case "totp" => MFAPending
                        case "push" => MFAPending
                        case "sms" => MFAPending
                        case "magic_link" => MFAPending
                        case "webauthn" => WebAuthnPending
                        case _ => Complete)
    && g.completedAt == if g.state == Error || g.state == Complete then Stamp(f, now) else f.completedAt
  }

  lemma PickedAsWritten(f: Flow, user: User, now: int)
    ensures Picked(f, user, PickUserWrites(f, user.id, user, now), now)
  {
  }

  method ApplySelectUser(flows: FlowStore, users: UserStore, flowID: string, userID: string, expected: string, now: int)
    returns (reply: Reply)
    requires Keyed(flows.flows) && UsersKeyed(users.users)
    modifies flows, users
    ensures var user := if userID in old(users.users) then Some(old(users.users)[userID]) else None;
            flows.flows == if flowID == "" then old(flows.flows)
                           else AfterHandler(old(flows.flows), flowID, SelectUser(expected, userID, user), now)
    ensures reply == DONE <==> flowID != "" && userID != "" && flowID in old(flows.flows) && userID in old(users.users)
                               && old(flows.flows)[flowID].state == Initiated && (expected == "" || expected == "initiated")
    ensures reply == DONE ==> flows.flows == old(flows.flows)[flowID := flows.flows[flowID]]
                              && Picked(old(flows.flows)[flowID], old(users.users)[userID], flows.flows[flowID], now)
    ensures reply != DONE ==> flows.flows == old(flows.flows)
    ensures users.users == if reply == DONE && flows.flows[flowID].state == Complete && flows.flows[flowID].scenario != Normal
                           then ScenarioReset(old(users.users), userID) else old(users.users)
  {
    if flowID == "" || userID == "" { return Reply(400, "validation_error"); }
    var found := flows.GetByID(flowID);
    if found.None? { return Reply(404, "not_found"); }
    var flow := found.value;
    if expected != "" && StateName(flow.state) != expected { return Reply(409, "STATE_TRANSITION_INVALID"); }
    if !CanTransition(flow.state, UserPicked) { return Reply(409, "STATE_TRANSITION_INVALID"); }
    var foundUser := users.GetByID(userID);
    if foundUser.None? { return Reply(404, "not_found"); }
    PickedAsWritten(flow, foundUser.value, now);
    reply := PickUser(flows, users, flow, foundUser.value, now);
  }

  /** The part of applySelectUser after both records were found. */
  method PickUser(flows: FlowStore, users: UserStore, picked: Flow, user: User, now: int) returns (reply: Reply)
    requires picked.id in flows.flows && CanTransition(picked.state, UserPicked)
    requires user.id in users.users && users.users[user.id] == user
    modifies flows, users
    ensures reply == DONE
    ensures flows.flows == old(flows.flows)[picked.id := PickUserWrites(picked, user.id, user, now)]
    ensures var written := PickUserWrites(picked, user.id, user, now);
            users.users == if written.state == Complete && written.scenario != Normal
                           then ScenarioReset(old(users.users), user.id) else old(users.users)
  {
    var flow := picked;
    flow := flow.(userID := user.id);
    flow := flow.(state := UserPicked);
    flow := flow.(scenario := NormalizeScenario(user.nextFlow));
    flow := flow.(error := "");
    if flow.scenario == AccountLocked {
      if !CanTransition(flow.state, Error) { return Reply(409, "STATE_TRANSITION_INVALID"); }
      flow := flow.(state := Error);
      flow := flow.(error := "account locked");
      flow := MarkTerminal(flow, now);
      var _ := flows.Update(flow);
      return DONE;
    }
    if RequiresMFA(user.mfaMethod) {
      var next := MFAPending;
      if IsWebAuthn(user.mfaMethod) { next := WebAuthnPending; }
      if !CanTransition(flow.state, next) { return Reply(409, "STATE_TRANSITION_INVALID"); }
      flow := flow.(state := next);
      var _ := flows.Update(flow);
      return DONE;
    }
    if !CanTransition(flow.state, Complete) { return Reply(409, "STATE_TRANSITION_INVALID"); }
    flow := flow.(state := Complete);
    flow := MarkTerminal(flow, now);
    if flow.scenario != Normal { users.Update(user.(nextFlow := "normal")); }
    var _ := flows.Update(flow);
    return DONE;
  }

  /** One more attempt is counted, and a right one approves. */
  function Attempted(f: Flow, right: bool): Flow {
    f.(attempts := f.attempts + 1, state := if right then MFAApproved else f.state)
  }

  method ApplyVerifyMFA(flows: FlowStore, users: UserStore, flowID: string, code: string, expected: string, now: int)
    returns (reply: Reply)
    requires Keyed(flows.flows) && UsersKeyed(users.users)
    modifies flows, users
    ensures flows.flows == if flowID == "" then old(flows.flows)
                           else AfterHandler(old(flows.flows), flowID, VerifyMFA(expected, code), now)
    ensures var pending := flowID != "" && flowID in old(flows.flows) && old(flows.flows)[flowID].state == MFAPending
                           && (expected == "" || expected == "mfa_pending");
            var failsFirst := pending && old(flows.flows)[flowID].scenario == MFAFail && old(flows.flows)[flowID].attempts == 0;
            && (reply == DONE <==> pending && !failsFirst && !Blank(code))
            && (reply.code == "mfa_code_invalid" <==> failsFirst)
            && (!pending ==> flows.flows == old(flows.flows))
            && (pending ==> flows.flows == old(flows.flows)[flowID := Attempted(old(flows.flows)[flowID], reply == DONE)])
    ensures users.users == if reply == DONE && flows.flows[flowID].scenario != Normal
                           then ScenarioReset(old(users.users), flows.flows[flowID].userID) else old(users.users)
  {
    if flowID == "" { return Reply(400, "validation_error"); }
    var found := flows.GetByID(flowID);
    if found.None? { return Reply(404, "not_found"); }
    var flow := found.value;
    if expected != "" && StateName(flow.state) != expected { return Reply(409, "STATE_TRANSITION_INVALID"); }
    if flow.state != MFAPending { return Reply(409, "STATE_TRANSITION_INVALID"); }
    flow := flow.(attempts := flow.attempts + 1);
    if flow.scenario == MFAFail && flow.attempts == 1 {
      var _ := flows.Update(flow);
      return Reply(401, "mfa_code_invalid");
    }
    if Blank(code) {
      var _ := flows.Update(flow);
      return Reply(400, "validation_error");
    }
    if !CanTransition(flow.state, MFAApproved) { return Reply(409, "STATE_TRANSITION_INVALID"); }
    flow := flow.(state := MFAApproved);
    var _ := flows.Update(flow);
    if flow.scenario != Normal { ResetScenario(users, flow.userID); }
    return DONE;
  }

  /** `users` is null on the deny route. */
  method ApplyApproveOrDeny(flows: FlowStore, users: UserStore?, flowID: string, approve: bool, expected: string, now: int)
    returns (reply: Reply)
    requires Keyed(flows.flows) && (users != null ==> UsersKeyed(users.users))
    modifies flows, if users == null then {} else {users}
    ensures flows.flows == AfterHandler(old(flows.flows), flowID, ApproveOrDeny(expected, approve), now)
    ensures reply == DONE <==> flowID in old(flows.flows) && var f := old(flows.flows)[flowID];
              && f.state == MFAPending && (expected == "" || expected == "mfa_pending")
              && !(approve && f.scenario == SlowMFA && now < f.params.createdAt + 10_000_000_000)
    ensures flows.flows == if reply != DONE then old(flows.flows)
                           else var f := old(flows.flows)[flowID];
                                old(flows.flows)[flowID := if approve then f.(state := MFAApproved)
                                                           else f.(state := MFADenied, completedAt := Stamp(f, now))]
    ensures users != null ==>
              users.users == if reply == DONE && approve && flows.flows[flowID].scenario != Normal
                             then ScenarioReset(old(users.users), flows.flows[flowID].userID) else old(users.users)
  {
    var found := flows.GetByID(flowID);
    if found.None? { return Reply(404, "not_found"); }
    var flow := found.value;
    if expected != "" && StateName(flow.state) != expected { return Reply(409, "STATE_TRANSITION_INVALID"); }
    if flow.state != MFAPending { return Reply(409, "STATE_TRANSITION_INVALID"); }
    if approve {
      if flow.scenario == SlowMFA && now - flow.params.createdAt < SLOW_MFA_DELAY { return Reply(202, "mfa_pending"); }
      if !CanTransition(flow.state, MFAApproved) { return Reply(409, "STATE_TRANSITION_INVALID"); }
      flow := flow.(state := MFAApproved);
    } else {
      if !CanTransition(flow.state, MFADenied) { return Reply(409, "STATE_TRANSITION_INVALID"); }
      flow := flow.(state := MFADenied);
      flow := MarkTerminal(flow, now);
    }
    var _ := flows.Update(flow);
    if approve && users != null && flow.scenario != Normal { ResetScenario(users, flow.userID); }
    return DONE;
  }

  method GetAndAutoAdvance(flows: FlowStore, flowID: string, now: int) returns (r: Option<Flow>)
    requires Keyed(flows.flows)
    modifies flows
    ensures flows.flows == AfterHandler(old(flows.flows), flowID, AutoAdvance, now)
    ensures var due := flowID in old(flows.flows) && old(flows.flows)[flowID].state == MFAPending
                       && old(flows.flows)[flowID].scenario == SlowMFA
                       && now >= old(flows.flows)[flowID].params.createdAt + 10_000_000_000;
            flows.flows == if due then old(flows.flows)[flowID := old(flows.flows)[flowID].(state := MFAApproved)] else old(flows.flows)
    ensures r == if flowID in flows.flows then Some(flows.flows[flowID]) else None
  {
    var found := flows.GetByID(flowID);
    if found.None? { return None; }
    var flow := found.value;
    if flow.state == MFAPending && flow.scenario == SlowMFA {
      if now - flow.params.createdAt >= SLOW_MFA_DELAY {
        if CanTransition(flow.state, MFAApproved) {
          flow := flow.(state := MFAApproved);
          var _ := flows.Update(flow);
        }
      }
    }
    return Some(flow);
  }

  /** loginMFAHandler: auto-advance, then complete what is approved. */
  method LoginMFAPage(flows: FlowStore, flowID: string, now: int) returns (r: Option<Flow>)
    requires Keyed(flows.flows)
    modifies flows
    ensures var advanced := AfterHandler(old(flows.flows), flowID, AutoAdvance, now);
            flows.flows == AfterHandler(advanced, flowID, MoveToComplete, now)
    ensures flowID in old(flows.flows) ==>
              var f := old(flows.flows)[flowID];
              var approved := f.state == MFAApproved || (f.state == MFAPending && f.scenario == SlowMFA
                                                         && now >= f.params.createdAt + 10_000_000_000);
              flows.flows == if approved then old(flows.flows)[flowID := f.(state := Complete, completedAt := Stamp(f, now))]
                             else old(flows.flows)
    ensures r == if flowID in flows.flows then Some(flows.flows[flowID]) else None
  {
    r := GetAndAutoAdvance(flows, flowID, now);
    if r.None? { return; }
    var flow := r.value;
    if flow.state == MFAApproved {
      if CanTransition(flow.state, Complete) {
        flow := flow.(state := Complete);
        flow := MarkTerminal(flow, now);
        var _ := flows.Update(flow);
      }
      r := Some(flow);
    }
  }

  /** Takes the first flow in id order that still carries the token. */
  method LoginMagic(flows: FlowStore, users: UserStore, token: string, now: int)
    returns (reply: Reply, ghost matched: Option<string>)
    requires Keyed(flows.flows) && UsersKeyed(users.users)
    modifies flows, users
    ensures matched.Some? ==> token != "" && matched.value in old(flows.flows)
    ensures matched.Some? ==> old(flows.flows)[matched.value].magicLinkToken == token && !old(flows.flows)[matched.value].magicLinkUsed
    ensures token != "" ==> forall id | id in old(flows.flows) && old(flows.flows)[id].magicLinkToken == token
              && !old(flows.flows)[id].magicLinkUsed :: matched.Some? && !Less(id, matched.value)
    ensures flows.flows == if matched.None? then old(flows.flows)
                           else AfterHandler(old(flows.flows), matched.value, MagicLink(token), now)
    ensures reply == if token == "" then Reply(400, "INVALID_REQUEST")
                     else if matched.None? then Reply(404, "INVALID_REQUEST")
                     else if old(flows.flows)[matched.value].state != MFAPending then Reply(409, "STATE_TRANSITION_INVALID")
                     else DONE
    ensures flows.flows == if reply != DONE then old(flows.flows)
                           else old(flows.flows)[matched.value :=
                                  old(flows.flows)[matched.value].(state := MFAApproved, magicLinkUsed := true)]
    ensures users.users == if reply == DONE then ScenarioReset(old(users.users), old(flows.flows)[matched.value].userID)
                           else old(users.users)
  {
    matched := None;
    if token == "" { return Reply(400, "INVALID_REQUEST"), None; }
    var all := flows.List();
    var i := 0;
    while i < |all| && !(all[i].magicLinkToken == token && !all[i].magicLinkUsed)
      invariant 0 <= i <= |all|
      invariant forall j | 0 <= j < i :: !MagicMatches(all[j], token)
    {
      i := i + 1;
    }
    if i == |all| {
      forall id | id in flows.flows ensures !MagicMatches(flows.flows[id], token) { assert flows.flows[id] in all; }
      return Reply(404, "INVALID_REQUEST"), None;
    }
    var flow := all[i];
    assert flow in all;
    matched := Some(flow.id);
    FirstMatch(flows.flows, all, i, token);
    if flow.state != MFAPending { return Reply(409, "STATE_TRANSITION_INVALID"), matched; }
    flow := flow.(state := MFAApproved);
    flow := flow.(magicLinkUsed := true);
    var _ := flows.Update(flow);
    ResetScenario(users, flow.userID);
    reply := DONE;
  }

  lemma FirstMatch(flows: Flows, all: seq<Flow>, i: nat, token: string)
    requires Keyed(flows) && Lists(flows, all) && i < |all|
    requires forall j | 0 <= j < i :: !MagicMatches(all[j], token)
    ensures forall id | id in flows && MagicMatches(flows[id], token) :: !Less(id, all[i].id)
  {
    forall id | id in flows && MagicMatches(flows[id], token) ensures !Less(id, all[i].id) {
      assert flows[id] in all;
      var j :| 0 <= j < |all| && all[j] == flows[id];
      LessTrichotomy(id, all[i].id);
      if i < j { assert !KeyLess(FlowKey(all[j]), FlowKey(all[i])); }
    }
  }

  predicate UserKnown(flows: Flows, flowID: string, users: map<string, User>) {
    flowID in flows && flows[flowID].userID in users
  }

  function WithCredentials(users: map<string, User>, id: string, credentials: string): map<string, User>
    requires id in users
  {
    users[id := users[id].(credentials := credentials)]
  }

  /** Only that user changes: the credentials are stored, and a scenario that was played is reset. */
  lemma AfterAssertionMeans(users: map<string, User>, f: Flow, credentials: string)
    requires f.userID in users
    ensures var after, u := AfterAssertion(users, f, credentials), users[f.userID];
      && after.Keys == users.Keys && (forall id | id in users && id != f.userID :: after[id] == users[id])
      && after[f.userID] == User(u.id, u.mfaMethod, if f.scenario == Normal then u.nextFlow else "normal", credentials)
  {
  }

  /** The new credentials stored, and a scenario that has been played reset. */
  function AfterAssertion(users: map<string, User>, f: Flow, credentials: string): map<string, User>
    requires f.userID in users
  {
    var stored := WithCredentials(users, f.userID, credentials);
    if f.scenario != Normal then ScenarioReset(stored, f.userID) else stored
  }

  /** Both begin handlers: `ready` is false when a user, its credentials or the library fails. */
  method WebAuthnBeginHandler(flows: FlowStore, flowID: string, ready: bool, session: string, now: int) returns (reply: Reply)
    requires Keyed(flows.flows)
    modifies flows
    ensures flows.flows == AfterHandler(old(flows.flows), flowID, WebAuthnBegin(ready, session), now)
    ensures reply == DONE <==> flowID in old(flows.flows) && old(flows.flows)[flowID].state == WebAuthnPending && ready
    ensures flows.flows == if reply != DONE then old(flows.flows)
                           else old(flows.flows)[flowID := old(flows.flows)[flowID].(webAuthnSession := session)]
  {
    var found := flows.GetByID(flowID);
    if found.None? { return Reply(404, "not_found"); }
    var flow := found.value;
    if flow.state != WebAuthnPending { return Reply(409, "STATE_TRANSITION_INVALID"); }
    if !ready { return Reply(500, "webauthn_init_failed"); }
    flow := flow.(webAuthnSession := session);
    var _ := flows.Update(flow);
    return DONE;
  }

  method WebAuthnFinishRegisterHandler(flows: FlowStore, users: UserStore, flowID: string,
                                       ready: bool, verdict: bool, credentials: string, now: int)
    returns (reply: Reply)
    requires Keyed(flows.flows) && UsersKeyed(users.users)
    modifies flows, users
    ensures var known := ready && UserKnown(old(flows.flows), flowID, old(users.users));
            flows.flows == AfterHandler(old(flows.flows), flowID, WebAuthnFinishRegister(known, verdict), now)
    ensures reply == DONE <==> flowID in old(flows.flows) && old(flows.flows)[flowID].webAuthnSession != ""
                               && ready && UserKnown(old(flows.flows), flowID, old(users.users)) && verdict
    ensures flows.flows == if reply != DONE then old(flows.flows)
                           else old(flows.flows)[flowID := old(flows.flows)[flowID].(webAuthnSession := "")]
    ensures users.users == if reply == DONE then WithCredentials(old(users.users), old(flows.flows)[flowID].userID, credentials)
                           else old(users.users)
  {
    var found := flows.GetByID(flowID);
    if found.None? { return Reply(404, "not_found"); }
    var flow := found.value;
    if flow.webAuthnSession == "" { return Reply(409, "NO_SESSION"); }
    var user := users.GetByID(flow.userID);
    if user.None? || !ready { return Reply(500, "user_not_found"); }
    if !verdict { return Reply(400, "REGISTRATION_FAILED"); }
    users.Update(user.value.(credentials := credentials));
    flow := flow.(webAuthnSession := "");
    var _ := flows.Update(flow);
    return DONE;
  }

  method WebAuthnResponseHandler(flows: FlowStore, users: UserStore, flowID: string,
                                 ready: bool, verdict: bool, credentials: string, now: int)
    returns (reply: Reply)
    requires Keyed(flows.flows) && UsersKeyed(users.users)
    modifies flows, users
    ensures var known := ready && UserKnown(old(flows.flows), flowID, old(users.users));
            flows.flows == AfterHandler(old(flows.flows), flowID, WebAuthnResponse(known, verdict), now)
    ensures reply == DONE <==> flowID in old(flows.flows) && old(flows.flows)[flowID].state == WebAuthnPending
                               && old(flows.flows)[flowID].webAuthnSession != ""
                               && ready && UserKnown(old(flows.flows), flowID, old(users.users)) && verdict
    ensures flows.flows == if reply != DONE then old(flows.flows)
                           else old(flows.flows)[flowID := old(flows.flows)[flowID].(state := MFAApproved, webAuthnSession := "")]
    ensures users.users == if reply == DONE
                           then AfterAssertion(old(users.users), old(flows.flows)[flowID], credentials) else old(users.users)
  {
    var found := flows.GetByID(flowID);
    if found.None? { return Reply(404, "not_found"); }
    var flow := found.value;
    if flow.state != WebAuthnPending { return Reply(409, "STATE_TRANSITION_INVALID"); }
    if flow.webAuthnSession == "" { return Reply(409, "NO_SESSION"); }
    var user := users.GetByID(flow.userID);
    if user.None? || !ready { return Reply(500, "user_not_found"); }
    if !verdict { return Reply(400, "ASSERTION_FAILED"); }
    users.Update(user.value.(credentials := credentials));
    if !CanTransition(WebAuthnPending, MFAApproved) { return Reply(409, "STATE_TRANSITION_INVALID"); }
    flow := flow.(state := MFAApproved);
    flow := flow.(webAuthnSession := "");
    var _ := flows.Update(flow);
    if flow.scenario != Normal { ResetScenario(users, flow.userID); }
    return DONE;
  }

  function MethodOf(users: map<string, User>, userID: string): string {
    if userID in users then users[userID].mfaMethod else ""
  }

  /** What a notification handler does with one record it read and still finds unchanged. */
  method NotifyOne(flows: FlowStore, users: UserStore, flow: Flow, secret: string)
    requires Keyed(flows.flows) && flow.id in flows.flows && flows.flows[flow.id] == flow
    modifies flows
    ensures flows.flows == old(flows.flows)[flow.id := Notified(flow, MethodOf(users.users, flow.userID), secret)]
  {
    var user := users.GetByID(flow.userID);
    var updated := Notified(flow, if user.Some? then user.value.mfaMethod else "", secret);
    if SecretsDiffer(flow, updated) {
      var _ := flows.Update(updated);
    }
  }

  /** listNotificationsHandler; `secret` is what the generator drew. */
  method ListNotifications(flows: FlowStore, users: UserStore, flowID: string, secret: string, now: int)
    requires Keyed(flows.flows)
    modifies flows
    ensures flowID != "" && flowID in old(flows.flows) ==>
              var mfaMethod := MethodOf(users.users, old(flows.flows)[flowID].userID);
              flows.flows == AfterHandler(old(flows.flows), flowID, Notify(mfaMethod, secret), now)
    ensures flowID == "" || flowID !in old(flows.flows) ==> flows.flows == old(flows.flows)
  {
    if flowID == "" { return; }
    var found := flows.GetByID(flowID);
    if found.None? { return; }
    NotifyOne(flows, users, found.value, secret);
  }

  /** listAllNotificationsHandler: one snapshot of the list, then one write per pending flow. */
  method ListAllNotifications(flows: FlowStore, users: UserStore, secrets: string -> string)
    requires Keyed(flows.flows)
    modifies flows
    ensures flows.flows == AllNotified(old(flows.flows), old(flows.flows).Keys, users.users, secrets)
  {
    var all := flows.List();
    ghost var before, done: set<string> := flows.flows, {};
    assert flows.flows == AllNotified(before, {}, users.users, secrets);
    for i := 0 to |all|
      invariant done <= before.Keys
      invariant forall j | 0 <= j < |all| :: all[j].id in done <==> j < i
      invariant flows.flows == AllNotified(before, done, users.users, secrets)
    {
      SameIdSameFlow(before, all, i);
      NotifyListed(flows, users, all[i], secrets, before, done);
      done := done + {all[i].id};
    }
    forall id | id in before ensures id in done { assert before[id] in all; }
  }

  /** One round of the loop, for a record that no earlier round touched. */
  method NotifyListed(flows: FlowStore, users: UserStore, flow: Flow, secrets: string -> string, ghost before: Flows, ghost done: set<string>)
    requires Keyed(before) && flow.id in before && before[flow.id] == flow && flow.id !in done
    requires flows.flows == AllNotified(before, done, users.users, secrets)
    modifies flows
    ensures flows.flows == AllNotified(before, done + {flow.id}, users.users, secrets)
  {
    NotifiedStep(before, done, users.users, secrets, flow);
    if flow.state == MFAPending || flow.state == WebAuthnPending {
      NotifyOne(flows, users, flow, secrets(flow.id));
    }
  }

  lemma NotifiedStep(flows: Flows, done: set<string>, users: map<string, User>, secrets: string -> string, flow: Flow)
    requires flow.id in flows && flows[flow.id] == flow
    ensures AllNotified(flows, done + {flow.id}, users, secrets)
         == AllNotified(flows, done, users, secrets)[flow.id := Notified(flow, MethodOf(users, flow.userID), secrets(flow.id))]
    ensures flow.id !in done ==> AllNotified(flows, done, users, secrets)[flow.id] == flow
  {
  }

  lemma SameIdSameFlow(flows: Flows, all: seq<Flow>, i: nat)
    requires Lists(flows, all) && i < |all|
    ensures forall j | 0 <= j < |all| && all[j].id == all[i].id :: j == i
  {
    assert forall j | 0 <= j < |all| :: all[j] in all;
  }

  ghost function AllNotified(flows: Flows, ids: set<string>, users: map<string, User>, secrets: string -> string): Flows {
    map id | id in flows ::
      if id in ids then Notified(flows[id], MethodOf(users, flows[id].userID), secrets(id)) else flows[id]
  }
}
