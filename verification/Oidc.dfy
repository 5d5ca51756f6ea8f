/** The OIDC endpoints that create a flow and redeem its code (server/internal/oidc). */
module Oidc {
  import opened Common
  import opened FlowEngine
  import opened Stores
  import opened FlowHandlers

  function UpperChar(c: char): char {
    if 'a' <= c <= 'z' then (c as int - 32) as char else c
  }

  /** strings.ToUpper on ASCII */
  function Upper(s: string): (u: string)
    ensures |u| == |s|
  {
    if s == "" then "" else [UpperChar(s[0])] + Upper(s[1..])
  }

  lemma {:induction false} UpperAt(s: string, i: nat)
    requires i < |s|
    ensures Upper(s)[i] == UpperChar(s[i])
  {
    if i > 0 { UpperAt(s[1..], i - 1); }
  }

  lemma UpperIsS256(m: string)
    ensures Upper(m) == "S256" <==> m == "S256" || m == "s256"
    ensures Upper(m) == "" <==> m == ""
  {
    if |m| == 4 {
      UpperAt(m, 0);
      UpperAt(m, 1);
      UpperAt(m, 2);
      UpperAt(m, 3);
      assert m == [m[0], m[1], m[2], m[3]];
      assert Upper(m) == [Upper(m)[0], Upper(m)[1], Upper(m)[2], Upper(m)[3]];
    }
  }

  /** pkce.go; `s256` is base64url of SHA-256. */
  predicate VerifyPKCE(challenge: string, challengeMethod: string, verifier: string, s256: string -> string) {
    && challenge != ""
    && verifier != ""
    && (Upper(challengeMethod) == "S256" || Upper(challengeMethod) == "")
    && s256(verifier) == challenge
  }

  datatype AuthRequest = AuthRequest(
    clientID: string, redirectURI: string, responseType: string, scopes: seq<string>,
    oauthState: string, nonce: string, challenge: string, challengeMethod: string)

  predicate ValidRequest(r: AuthRequest) {
    && r.clientID != ""
    && r.redirectURI != ""
    && r.responseType == "code"
    && r.challenge != ""
    && (r.challengeMethod == "" || Upper(r.challengeMethod) == "S256")
  }

  function RequestParams(r: AuthRequest, now: int): Params {
    Params("oidc", r.clientID, r.redirectURI, r.scopes, r.responseType, r.oauthState, r.nonce,
           r.challenge, r.challengeMethod, now, now + FLOW_TTL)
  }

  /** The flow remembers the request, for thirty minutes. */
  predicate Remembers(p: Params, r: AuthRequest, now: int) {
    && p.protocol == "oidc" && p.clientID == r.clientID && p.redirectURI == r.redirectURI && p.scopes == r.scopes
    && p.responseType == r.responseType && p.oauthState == r.oauthState && p.nonce == r.nonce
    && p.challenge == r.challenge && p.challengeMethod == r.challengeMethod
    && p.createdAt == now && p.expiresAt == now + 1_800_000_000_000
  }

  /** Nobody picked, nothing tried, no secret and no code. */
  predicate Untouched(f: Flow) {
    && f.state == Initiated && f.scenario == Normal && f.userID == "" && f.attempts == 0 && f.error == ""
    && f.completedAt == None && f.authCode == "" && f.webAuthnSession == "" && !f.magicLinkUsed
    && f.totpSecret == "" && f.smsCode == "" && f.magicLinkToken == "" && f.webAuthnChallenge == ""
  }

  method AuthorizeHandler(flows: FlowStore, id: string, r: AuthRequest, now: int) returns (ok: bool)
    modifies flows
    ensures ok <==> r.clientID != "" && r.redirectURI != "" && r.responseType == "code" && r.challenge != ""
                    && r.challengeMethod in ["", "S256", "s256"]
    ensures ok ==> id in flows.flows && flows.flows[id].id == id && Untouched(flows.flows[id])
                   && Remembers(flows.flows[id].params, r, now)
    ensures flows.flows == if ok then old(flows.flows)[id := NewFlow(id, RequestParams(r, now))] else old(flows.flows)
  {
    UpperIsS256(r.challengeMethod);
    if r.clientID == "" { return false; }
    if r.redirectURI == "" { return false; }
    if r.responseType != "code" { return false; }
    if r.challenge == "" { return false; }
    if r.challengeMethod != "" && Upper(r.challengeMethod) != "S256" { return false; }
    flows.Create(NewFlow(id, RequestParams(r, now)));
    return true;
  }

  /** Returns the code put into the redirect. */
  method AuthorizeCompleteHandler(flows: FlowStore, flowID: string, code: string, now: int) returns (sent: Option<string>)
    requires Keyed(flows.flows)
    modifies flows
    ensures flows.flows == if flowID == "" then old(flows.flows)
                           else AfterHandler(old(flows.flows), flowID, AuthorizeComplete(code), now)
    ensures flows.flows == if flowID != "" && flowID in old(flows.flows) && old(flows.flows)[flowID].state == Complete
                              && old(flows.flows)[flowID].params.redirectURI != ""
                           then old(flows.flows)[flowID := old(flows.flows)[flowID].(authCode := code)] else old(flows.flows)
    ensures sent == if flowID != "" && flowID in old(flows.flows) && old(flows.flows)[flowID].state == Complete
                       && old(flows.flows)[flowID].params.redirectURI != "" then Some(code) else None
  {
    if flowID == "" { return None; }
    var found := flows.GetByID(flowID);
    if found.None? { return None; }
    var flow := found.value;
    if flow.state != Complete { return None; }
    if flow.params.redirectURI == "" { return None; }
    flow := flow.(authCode := code);
    var _ := flows.Update(flow);
    return Some(code);
  }

  /** The checks of handleAuthCodeGrant on the record ConsumeAuthCode returned. */
  predicate Redeemable(f: Flow, redirectURI: string, verifier: string, now: int, s256: string -> string) {
    && f.state == Complete
    && now <= f.params.expiresAt
    && (redirectURI == "" || redirectURI == f.params.redirectURI)
    && VerifyPKCE(f.params.challenge, f.params.challengeMethod, verifier, s256)
  }

  /** The tokens' session; `hash` is the keyed hash of refresh tokens. */
  function NewSession(id: string, f: Flow, refreshToken: string, hash: string -> string, now: int, ttl: int): Session {
    Session(id, f.userID, f.id, f.params.clientID, hash(refreshToken), now + ttl, ["token_issued"])
  }

  /**
   What a caller must bring for tokens: the flow complete and not expired, the redirect URI of the
   authorize request or none, and the verifier behind its S256 challenge.
   */
  predicate Earned(f: Flow, redirectURI: string, verifier: string, now: int, s256: string -> string) {
    && f.state == Complete
    && now <= f.params.expiresAt
    && redirectURI in ["", f.params.redirectURI]
    && f.params.challenge != "" && verifier != "" && s256(verifier) == f.params.challenge
    && f.params.challengeMethod in ["", "S256", "s256"]
  }

  lemma RedeemableIsEarned(f: Flow, redirectURI: string, verifier: string, now: int, s256: string -> string)
    ensures Redeemable(f, redirectURI, verifier, now, s256) <==> Earned(f, redirectURI, verifier, now, s256)
  {
    UpperIsS256(f.params.challengeMethod);
  }

  /** The code is spent by the atomic consume, whatever the later checks say. */
  method HandleAuthCodeGrant(flows: FlowStore, users: UserStore, sessions: SessionStore, code: string, redirectURI: string,
                             verifier: string, now: int, ttl: int, sessionID: string, refreshToken: string,
                             s256: string -> string, hash: string -> string)
    returns (granted: bool, ghost matched: Option<Flow>)
    requires Keyed(flows.flows)
    modifies flows, sessions
    ensures matched.None? ==> flows.flows == old(flows.flows) && !granted
    ensures matched.Some? ==> var f := matched.value;
              f.id in old(flows.flows) && old(flows.flows)[f.id] == f && f.authCode == code != ""
              && flows.flows == old(flows.flows)[f.id := f.(authCode := "")]
    ensures matched.None? <==> code == "" || forall id | id in old(flows.flows) :: old(flows.flows)[id].authCode != code
    ensures granted <==> matched.Some? && matched.value.userID in users.users && Earned(matched.value, redirectURI, verifier, now, s256)
    ensures !granted ==> sessions.sessions == old(sessions.sessions)
    ensures granted ==> sessions.sessions.Keys == old(sessions.sessions).Keys + {sessionID}
    ensures granted ==> forall id | id in old(sessions.sessions) && id != sessionID :: sessions.sessions[id] == old(sessions.sessions)[id]
    ensures granted ==> var s := sessions.sessions[sessionID];
              && s.id == sessionID && s.userID == matched.value.userID && s.flowID == matched.value.id
              && s.clientID == matched.value.params.clientID && s.refreshHash == hash(refreshToken)
              && s.expiresAt == now + ttl && s.events == ["token_issued"]
  {
    if code == "" { return false, None; }
    var consumed := flows.ConsumeAuthCode(code);
    if consumed.None? { return false, None; }
    var flow := consumed.value;
    matched := Some(flow);
    RedeemableIsEarned(flow, redirectURI, verifier, now, s256);
    if flow.state != Complete { return false, matched; }
    if now > flow.params.expiresAt { return false, matched; }
    if redirectURI != "" && redirectURI != flow.params.redirectURI { return false, matched; }
    if !VerifyPKCE(flow.params.challenge, flow.params.challengeMethod, verifier, s256) { return false, matched; }
    var user := users.GetByID(flow.userID);
    if user.None? { return false, matched; }
    sessions.Create(NewSession(sessionID, flow, refreshToken, hash, now, ttl));
    return true, matched;
  }
}
