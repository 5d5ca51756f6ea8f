/** Records and the in-memory stores (server/internal/domain, server/internal/store/memory). */
module Stores {
  import opened Common
  import opened FlowEngine

  /** What the creating request fixes; no handler assigns these fields afterwards. */
  datatype Params = Params(
    protocol: string, clientID: string, redirectURI: string, scopes: seq<string>,
    responseType: string, oauthState: string, nonce: string,
    challenge: string, challengeMethod: string, createdAt: int, expiresAt: int)

  datatype Flow = Flow(
    id: string, params: Params,
    userID: string, state: State, scenario: Scenario, attempts: int, error: string,
    completedAt: Option<int>, authCode: string,
    totpSecret: string, smsCode: string, magicLinkToken: string, magicLinkUsed: bool,
    webAuthnChallenge: string, webAuthnSession: string)

  datatype User = User(id: string, mfaMethod: string, nextFlow: string, credentials: string)

  datatype Session = Session(
    id: string, userID: string, flowID: string, clientID: string,
    refreshHash: string, expiresAt: int, events: seq<string>)

  type Flows = map<string, Flow>

  function FlowKey(f: Flow): Key { (f.id, "") }

  /** Every record is stored under its own id. */
  predicate Keyed(flows: Flows) { forall id | id in flows :: flows[id].id == id }

  function Updated(flows: Flows, f: Flow): Flows {
    if f.id in flows then flows[f.id := f] else flows
  }

  function WithoutExpired(flows: Flows, now: int): Flows {
    map id | id in flows && !(flows[id].params.expiresAt < now) :: flows[id]
  }

  /** The records in id order, as List returns them. */
  ghost predicate Lists(flows: Flows, all: seq<Flow>) {
    && Sorted(all, FlowKey)
    && NoRepeats(all)
    && forall f: Flow :: f in all <==> f.id in flows && flows[f.id] == f
  }

  class FlowStore {
    var flows: Flows

    constructor ()
      ensures flows == map[]
    {
      flows := map[];
    }

    method Create(f: Flow)
      modifies this
      ensures flows == old(flows)[f.id := f]
    {
      flows := flows[f.id := f];
    }

    method GetByID(id: string) returns (r: Option<Flow>)
      ensures r == if id in flows then Some(flows[id]) else None
    {
      r := if id in flows then Some(flows[id]) else None;
    }

    method List() returns (all: seq<Flow>)
      requires Keyed(flows)
      ensures Lists(flows, all)
    {
      var ids, unsorted := flows.Keys, [];
      while ids != {}
        invariant ids <= flows.Keys
        invariant NoRepeats(unsorted)
        invariant forall f: Flow :: f in unsorted <==> f.id in flows.Keys - ids && flows[f.id] == f
        decreases |ids|
      {
        var id :| id in ids;
        ids := ids - {id};
        unsorted := unsorted + [flows[id]];
      }
      SortBySorts(unsorted, FlowKey);
      NoRepeatsPermute(unsorted, SortBy(unsorted, FlowKey));
      all := SortBy(unsorted, FlowKey);
    }

    method Update(f: Flow) returns (ok: bool)
      modifies this
      ensures ok == (f.id in old(flows))
      ensures flows == Updated(old(flows), f)
    {
      ok := f.id in flows;
      if ok { flows := flows[f.id := f]; }
    }

    method Delete(id: string) returns (ok: bool)
      modifies this
      ensures ok == (id in old(flows)) && flows == old(flows) - {id}
    {
      ok := id in flows;
      flows := flows - {id};
    }

    /** Finds a flow carrying the code, clears the code in storage, returns the flow as it was. */
    method ConsumeAuthCode(code: string) returns (r: Option<Flow>)
      modifies this
      ensures r.Some? ==> exists id :: id in old(flows) && old(flows)[id] == r.value && r.value.authCode == code != ""
                                    && flows == old(flows)[id := r.value.(authCode := "")]
      ensures r.None? ==> flows == old(flows) && (code == "" || forall id | id in flows :: flows[id].authCode != code)
    {
      if code == "" { return None; }
      var ids := flows.Keys;
      while ids != {}
        invariant ids <= flows.Keys && flows == old(flows)
        invariant forall id | id in flows.Keys - ids :: flows[id].authCode != code
        decreases |ids|
      {
        var id :| id in ids;
        ids := ids - {id};
        var f := flows[id];
        if f.authCode == code {
          flows := flows[id := f.(authCode := "")];
          return Some(f);
        }
      }
      return None;
    }

    method DeleteExpired(now: int) returns (removed: nat)
      modifies this
      ensures flows == WithoutExpired(old(flows), now)
      ensures forall id :: id in flows <==> id in old(flows) && now <= old(flows)[id].params.expiresAt
      ensures forall id | id in flows :: flows[id] == old(flows)[id]
      ensures removed == |old(flows)| - |flows|
    {
      removed := 0;
      var ids := flows.Keys;
      while ids != {}
        invariant ids <= old(flows).Keys
        invariant forall id :: id in flows <==> id in old(flows) && (id in ids || !(old(flows)[id].params.expiresAt < now))
        invariant forall id | id in flows :: flows[id] == old(flows)[id]
        invariant removed == |old(flows)| - |flows|
        decreases |ids|
      {
        var id :| id in ids;
        ids := ids - {id};
        if flows[id].params.expiresAt < now {
          assert flows.Keys == (flows - {id}).Keys + {id};
          flows := flows - {id};
          removed := removed + 1;
        }
      }
    }
  }

  class UserStore {
    var users: map<string, User>

    constructor (users: map<string, User>)
      ensures this.users == users
    {
      this.users := users;
    }

    method GetByID(id: string) returns (r: Option<User>)
      ensures r == if id in users then Some(users[id]) else None
    {
      r := if id in users then Some(users[id]) else None;
    }

    method Update(u: User)
      modifies this
      ensures users == if u.id in old(users) then old(users)[u.id := u] else old(users)
    {
      if u.id in users { users := users[u.id := u]; }
    }
  }

  class SessionStore {
    var sessions: map<string, Session>

    constructor ()
      ensures sessions == map[]
    {
      sessions := map[];
    }

    method Create(s: Session)
      modifies this
      ensures sessions == old(sessions)[s.id := s]
    {
      sessions := sessions[s.id := s];
    }

    method GetByRefreshToken(hash: string) returns (r: Option<Session>)
      ensures r.Some? ==> exists id :: id in sessions && sessions[id] == r.value && r.value.refreshHash == hash
      ensures r.None? ==> forall id | id in sessions :: sessions[id].refreshHash != hash
    {
      var ids := sessions.Keys;
      while ids != {}
        invariant ids <= sessions.Keys
        invariant forall id | id in sessions.Keys - ids :: sessions[id].refreshHash != hash
        decreases |ids|
      {
        var id :| id in ids;
        ids := ids - {id};
        if sessions[id].refreshHash == hash { return Some(sessions[id]); }
      }
      return None;
    }

    method Update(s: Session) returns (ok: bool)
      modifies this
      ensures ok == (s.id in old(sessions))
      ensures sessions == if ok then old(sessions)[s.id := s] else old(sessions)
    {
      ok := s.id in sessions;
      if ok { sessions := sessions[s.id := s]; }
    }

    method Delete(id: string) returns (ok: bool)
      modifies this
      ensures ok == (id in old(sessions)) && sessions == old(sessions) - {id}
    {
      ok := id in sessions;
      sessions := sessions - {id};
    }
  }
}
