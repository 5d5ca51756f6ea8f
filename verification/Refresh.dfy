/**
 Refresh-token rotation, one request at a time (handleRefreshGrant and the code grant's session record in
 server/internal/oidc/router.go). Sessions store only a keyed hash of their token.
 */
module Refresh {
  import opened Common
  import opened Stores

  /** handleRefreshGrant. `next` is the refresh token the issuer drew. */
  method HandleRefreshGrant(sessions: SessionStore, userKnown: string -> bool, token: string, next: string,
                            now: int, ttl: int, hash: string -> string)
    returns (accepted: bool, ghost used: Option<Session>)
    requires forall id | id in sessions.sessions :: sessions.sessions[id].id == id
    modifies sessions
    ensures used.Some? ==> var s := used.value;
              s.id in old(sessions.sessions) && old(sessions.sessions)[s.id] == s && s.refreshHash == hash(token)
    ensures used.None? <==> token == "" || forall id | id in old(sessions.sessions) :: old(sessions.sessions)[id].refreshHash != hash(token)
    ensures used.None? ==> sessions.sessions == old(sessions.sessions) && !accepted
    ensures accepted <==> used.Some? && now <= used.value.expiresAt && userKnown(used.value.userID)
    ensures used.Some? && now > used.value.expiresAt ==> sessions.sessions == old(sessions.sessions) - {used.value.id}
    ensures used.Some? && now <= used.value.expiresAt && !accepted ==> sessions.sessions == old(sessions.sessions)
    ensures accepted ==> sessions.sessions.Keys == old(sessions.sessions).Keys
    ensures accepted ==> forall id | id in sessions.sessions && id != used.value.id :: sessions.sessions[id] == old(sessions.sessions)[id]
    ensures accepted ==> var s, s' := used.value, sessions.sessions[used.value.id];
              && s'.id == s.id && s'.userID == s.userID && s'.flowID == s.flowID && s'.clientID == s.clientID
              && s'.refreshHash == hash(next) && s'.expiresAt == now + ttl && s'.events == s.events + ["refreshed"]
    ensures used.Some? ==>
              var e := Refresh(used.value.id, token, next, userKnown(used.value.userID), now, ttl);
              var after := RefreshFrom(System(old(sessions.sessions), [], map[]), used.value, e, hash);
              sessions.sessions == after.sessions && (accepted <==> after.rotations != [])
  {
    if token == "" { return false, None; }
    var found := sessions.GetByRefreshToken(hash(token));
    used := found;
    if found.None? { return false, None; }
    var session := found.value;
    if now > session.expiresAt {
      var _ := sessions.Delete(session.id);
      return false, used;
    }
    if !userKnown(session.userID) { return false, used; }
    session := session.(refreshHash := hash(next));
    session := session.(expiresAt := now + ttl);
    session := session.(events := session.events + ["refreshed"]);
    var _ := sessions.Update(session);
    return true, used;
  }

  function Rotated(s: Session, refreshHash: string, expiresAt: int): Session {
    s.(refreshHash := refreshHash, expiresAt := expiresAt, events := s.events + ["refreshed"])
  }

  // ---- Runs ----

  datatype Event =
    | Open(id: string, userID: string, token: string, at: int, ttl: int)                 // a code grant
    | Refresh(id: string, presented: string, next: string, userKnown: bool, at: int, ttl: int)
    | DropExpired(at: int)

  /** A token was accepted for a session and replaced. */
  datatype Rotation = Rotation(id: string, presented: string, next: string, at: int)

  /** `newest` remembers, per session, the token drawn by its latest grant or rotation. */
  datatype System = System(sessions: map<string, Session>, rotations: seq<Rotation>, newest: map<string, string>)

  const START := System(map[], [], map[])

  /**
   One refresh request that read `snapshot` from the store. Run one at a time, the snapshot
   is the stored session.
   */
  function RefreshFrom(s: System, snapshot: Session, e: Event, hash: string -> string): System
    requires e.Refresh?
  {
    if e.presented == "" || snapshot.refreshHash != hash(e.presented) then s
    else if e.at > snapshot.expiresAt then s.(sessions := s.sessions - {snapshot.id})
    else if !e.userKnown then s
    else System(
      if snapshot.id in s.sessions
      then s.sessions[snapshot.id := Rotated(snapshot, hash(e.next), e.at + e.ttl)] else s.sessions,
      s.rotations + [Rotation(snapshot.id, e.presented, e.next, e.at)],
      s.newest[snapshot.id := e.next])
  }

  function Step(s: System, e: Event, hash: string -> string): System {
    match e
    case Open(id, userID, token, at, ttl) =>
      s.(sessions := s.sessions[id := Session(id, userID, "", "", hash(token), at + ttl, ["token_issued"])],
         newest := s.newest[id := token])
    case Refresh(id, _, _, _, _, _) => if id in s.sessions then RefreshFrom(s, s.sessions[id], e, hash) else s
    case DropExpired(at) =>
      s.(sessions := map id | id in s.sessions && !(s.sessions[id].expiresAt < at) :: s.sessions[id])
  }

  function Run(events: seq<Event>, hash: string -> string): System {
    if events == [] then START else Step(Run(events[..|events| - 1], hash), events[|events| - 1], hash)
  }

  /** The token an event draws, if any. */
  function Drawn(e: Event): Option<string> {
    match e
    case Open(_, _, token, _, _) => Some(token)
    case Refresh(_, _, next, _, _, _) => Some(next)
    case DropExpired(_) => None
  }

  predicate WasDrawn(events: seq<Event>, token: string) {
    exists i :: 0 <= i < |events| && Drawn(events[i]) == Some(token)
  }

  predicate WasPresented(events: seq<Event>, token: string) {
    exists i :: 0 <= i < |events| && events[i].Refresh? && events[i].presented == token
  }

  predicate Opened(events: seq<Event>, id: string) {
    exists i :: 0 <= i < |events| && events[i].Open? && events[i].id == id
  }

  /** No token and no session id is drawn twice. */
  predicate Fresh(events: seq<Event>) {
    && (forall i, j | 0 <= i < j < |events| && Drawn(events[i]).Some? :: Drawn(events[i]) != Drawn(events[j]))
    && (forall i, j | 0 <= i < j < |events| && events[i].Open? && events[j].Open? :: events[i].id != events[j].id)
  }

  /** No presented token collides with a different drawn one. */
  ghost predicate NoCollision(events: seq<Event>, hash: string -> string) {
    forall x, y | WasPresented(events, x) && WasDrawn(events, y) && hash(x) == hash(y) :: x == y
  }

  predicate Used(rotations: seq<Rotation>, token: string) {
    exists k :: 0 <= k < |rotations| && rotations[k].presented == token
  }

  ghost predicate Inv(events: seq<Event>, s: System, hash: string -> string) {
    && (forall id | id in s.sessions ::
          s.sessions[id].id == id && id in s.newest && s.sessions[id].refreshHash == hash(s.newest[id]))
    && (forall id | id in s.newest :: Opened(events, id) && WasDrawn(events, s.newest[id]) && !Used(s.rotations, s.newest[id]))
    && (forall x, y | x in s.newest && y in s.newest && x != y :: s.newest[x] != s.newest[y])
    && (forall k | 0 <= k < |s.rotations| :: WasDrawn(events, s.rotations[k].presented))
    && (forall j, k | 0 <= j < k < |s.rotations| :: s.rotations[j].presented != s.rotations[k].presented)
  }

  lemma FreshPrefix(events: seq<Event>, e: Event)
    requires Fresh(events + [e])
    ensures Fresh(events)
    ensures Drawn(e).Some? ==> !WasDrawn(events, Drawn(e).value)
    ensures e.Open? ==> !Opened(events, e.id)
  {
    var all := events + [e];
    assert forall i | 0 <= i < |events| :: all[i] == events[i];
    assert all[|events|] == e;
  }

  lemma Extends(events: seq<Event>, e: Event)
    ensures forall t | WasDrawn(events, t) :: WasDrawn(events + [e], t)
    ensures forall t | WasPresented(events, t) :: WasPresented(events + [e], t)
    ensures forall id | Opened(events, id) :: Opened(events + [e], id)
    ensures Drawn(e).Some? ==> WasDrawn(events + [e], Drawn(e).value)
    ensures e.Refresh? ==> WasPresented(events + [e], e.presented)
    ensures e.Open? ==> Opened(events + [e], e.id)
  {
    var all := events + [e];
    assert forall i | 0 <= i < |events| :: all[i] == events[i];
    assert all[|events|] == e;
    forall t | WasDrawn(events, t) ensures WasDrawn(all, t) {
      var i :| 0 <= i < |events| && Drawn(events[i]) == Some(t);
      assert Drawn(all[i]) == Some(t);
    }
    forall t | WasPresented(events, t) ensures WasPresented(all, t) {
      var i :| 0 <= i < |events| && events[i].Refresh? && events[i].presented == t;
      assert all[i].presented == t;
    }
    forall id | Opened(events, id) ensures Opened(all, id) {
      var i :| 0 <= i < |events| && events[i].Open? && events[i].id == id;
      assert all[i].id == id;
    }
  }

  predicate Accepted(s: System, e: Event, hash: string -> string) {
    |Step(s, e, hash).rotations| == |s.rotations| + 1
  }

  /** Only the newest token opens the session it belongs to. */
  lemma AcceptedIsNewest(events: seq<Event>, s: System, e: Event, hash: string -> string)
    requires Inv(events, s, hash) && NoCollision(events + [e], hash) && Accepted(s, e, hash)
    ensures e.Refresh? && e.id in s.sessions && e.id in s.newest && e.presented == s.newest[e.id]
    ensures e.at <= s.sessions[e.id].expiresAt
    ensures Step(s, e, hash) == System(s.sessions[e.id := Rotated(s.sessions[e.id], hash(e.next), e.at + e.ttl)],
                                       s.rotations + [Rotation(e.id, e.presented, e.next, e.at)], s.newest[e.id := e.next])
  {
    Extends(events, e);
    assert WasPresented(events + [e], e.presented) && WasDrawn(events + [e], s.newest[e.id]);
  }

  /** The token that fits opens the session exactly until it expires, for a user that is known. */
  lemma FittingToken(s: System, e: Event, hash: string -> string)
    ensures Accepted(s, e, hash) <==>
              && e.Refresh? && e.id in s.sessions && s.sessions[e.id].refreshHash == hash(e.presented)
              && e.presented != "" && e.at <= s.sessions[e.id].expiresAt && e.userKnown
  {
  }

  /** What it does then. */
  lemma FittingStep(s: System, e: Event, hash: string -> string)
    requires Accepted(s, e, hash) && e.Refresh? && e.id in s.sessions && s.sessions[e.id].id == e.id
    ensures var after := Step(s, e, hash);
      && after.newest == s.newest[e.id := e.next]
      && after.sessions == s.sessions[e.id := Rotated(s.sessions[e.id], hash(e.next), e.at + e.ttl)]
  {
  }

  lemma StoredHash(events: seq<Event>, s: System, id: string, hash: string -> string)
    requires Inv(events, s, hash) && id in s.sessions
    ensures id in s.newest && s.sessions[id].id == id && s.sessions[id].refreshHash == hash(s.newest[id])
    ensures WasDrawn(events, s.newest[id])
  {
  }

  lemma InvStep(events: seq<Event>, s: System, e: Event, hash: string -> string)
    requires Inv(events, s, hash) && Fresh(events + [e]) && NoCollision(events + [e], hash)
    ensures Inv(events + [e], Step(s, e, hash), hash)
  {
    InvExtends(events, s, e, hash);
    if Accepted(s, e, hash) {
      InvAccepted(events, s, e, hash);
    } else if e.Open? {
      FreshPrefix(events, e);
      Extends(events, e);
      InvOpen(events, events + [e], s, e, hash);
    } else {
      InvOther(events + [e], s, e, hash);
    }
  }

  lemma DrawnNow(events: seq<Event>, e: Event)
    requires Fresh(events + [e]) && Drawn(e).Some?
    ensures !WasDrawn(events, Drawn(e).value) && WasDrawn(events + [e], Drawn(e).value)
  {
    FreshPrefix(events, e);
    Extends(events, e);
  }

  lemma InvAccepted(events: seq<Event>, s: System, e: Event, hash: string -> string)
    requires Inv(events, s, hash) && Inv(events + [e], s, hash)
    requires Fresh(events + [e]) && NoCollision(events + [e], hash) && Accepted(s, e, hash)
    ensures Inv(events + [e], Step(s, e, hash), hash)
  {
    AcceptedIsNewest(events, s, e, hash);
    DrawnNow(events, e);
    InvRotate(events, events + [e], s, Step(s, e, hash), e.id, e.next, e.at, e.ttl, hash);
  }

  lemma InvOther(events: seq<Event>, s: System, e: Event, hash: string -> string)
    requires Inv(events, s, hash) && !Accepted(s, e, hash) && !e.Open?
    ensures Inv(events, Step(s, e, hash), hash)
  {
    NotAccepted(s, e, hash);
    InvQuiet(events, s, Step(s, e, hash), hash);
  }

  /** Everything else at most drops sessions. */
  lemma NotAccepted(s: System, e: Event, hash: string -> string)
    requires !Accepted(s, e, hash) && !e.Open?
    ensures var s' := Step(s, e, hash);
      && s'.rotations == s.rotations && s'.newest == s.newest
      && forall id | id in s'.sessions :: id in s.sessions && s'.sessions[id] == s.sessions[id]
  {
  }

  lemma InvExtends(events: seq<Event>, s: System, e: Event, hash: string -> string)
    requires Inv(events, s, hash)
    ensures Inv(events + [e], s, hash)
  {
    Extends(events, e);
  }

  lemma InvQuiet(events: seq<Event>, s: System, s': System, hash: string -> string)
    requires Inv(events, s, hash) && s'.rotations == s.rotations && s'.newest == s.newest
    requires forall id | id in s'.sessions :: id in s.sessions && s'.sessions[id] == s.sessions[id]
    ensures Inv(events, s', hash)
  {
  }

  lemma InvOpen(events: seq<Event>, all: seq<Event>, s: System, e: Event, hash: string -> string)
    requires Inv(events, s, hash) && Inv(all, s, hash) && e.Open?
    requires WasDrawn(all, e.token) && !WasDrawn(events, e.token) && Opened(all, e.id) && !Opened(events, e.id)
    ensures Inv(all, Step(s, e, hash), hash)
  {
    var session := Session(e.id, e.userID, "", "", hash(e.token), e.at + e.ttl, ["token_issued"]);
    NewTokenUnused(events, s, e.token, hash);
    InvAdd(all, s, session, e.token, hash);
  }

  lemma NewTokenUnused(events: seq<Event>, s: System, token: string, hash: string -> string)
    requires Inv(events, s, hash) && !WasDrawn(events, token)
    ensures !Used(s.rotations, token) && forall id | id in s.newest :: s.newest[id] != token
  {
  }

  lemma InvAdd(events: seq<Event>, s: System, session: Session, token: string, hash: string -> string)
    requires Inv(events, s, hash) && WasDrawn(events, token) && Opened(events, session.id)
    requires session.refreshHash == hash(token) && !Used(s.rotations, token)
    requires forall id | id in s.newest :: s.newest[id] != token
    ensures Inv(events, s.(sessions := s.sessions[session.id := session], newest := s.newest[session.id := token]), hash)
  {
  }

  lemma InvRotate(events: seq<Event>, all: seq<Event>, s: System, s': System, id: string, next: string, at: int, ttl: int, hash: string -> string)
    requires Inv(events, s, hash) && Inv(all, s, hash) && id in s.sessions
    requires WasDrawn(all, next) && !WasDrawn(events, next)
    requires s' == System(s.sessions[id := Rotated(s.sessions[id], hash(next), at + ttl)],
                          s.rotations + [Rotation(id, s.newest[id], next, at)], s.newest[id := next])
    ensures Inv(all, s', hash)
  {
    var spent := s.newest[id];
    NewTokenUnused(events, s, next, hash);
    InvAdd(all, s, Rotated(s.sessions[id], hash(next), at + ttl), next, hash);
    var added := s.(sessions := s.sessions[id := Rotated(s.sessions[id], hash(next), at + ttl)], newest := s.newest[id := next]);
    InvLog(all, added, Rotation(id, spent, next, at), hash);
  }

  lemma InvLog(events: seq<Event>, s: System, r: Rotation, hash: string -> string)
    requires Inv(events, s, hash) && WasDrawn(events, r.presented) && !Used(s.rotations, r.presented)
    requires forall x | x in s.newest :: s.newest[x] != r.presented
    ensures Inv(events, s.(rotations := s.rotations + [r]), hash)
  {
    UsedGrows(s.rotations, r);
  }

  lemma UsedGrows(rotations: seq<Rotation>, r: Rotation)
    ensures forall t :: Used(rotations + [r], t) <==> Used(rotations, t) || t == r.presented
  {
    var more := rotations + [r];
    assert forall k | 0 <= k < |rotations| :: more[k] == rotations[k];
    forall t ensures Used(more, t) <==> Used(rotations, t) || t == r.presented {
      assert more[|rotations|] == r;
      if k :| 0 <= k < |rotations| && rotations[k].presented == t { assert more[k].presented == t; }
    }
  }

  lemma {:induction false} RunInv(events: seq<Event>, hash: string -> string)
    requires Fresh(events) && NoCollision(events, hash)
    ensures Inv(events, Run(events, hash), hash)
  {
    if events != [] {
      var before, e := events[..|events| - 1], events[|events| - 1];
      assert events == before + [e];
      FreshPrefix(before, e);
      Extends(before, e);
      RunInv(before, hash);
      InvStep(before, Run(before, hash), e, hash);
    }
  }

  /**
   Handled one at a time, a session's refresh tokens form a chain: a request is accepted exactly
   with the token its latest grant or rotation drew, while the session is stored and unexpired and
   its user known; the next link is the token drawn then, and over the whole run no token is
   accepted twice.
   */
  lemma RefreshChain(events: seq<Event>, e: Event, hash: string -> string)
    requires Fresh(events + [e]) && NoCollision(events + [e], hash)
    ensures var s := Run(events, hash);
      Accepted(s, e, hash) <==>
        && e.Refresh? && e.id in s.sessions && e.id in s.newest && e.presented == s.newest[e.id]
        && e.presented != "" && e.at <= s.sessions[e.id].expiresAt && e.userKnown
    ensures var s := Run(events, hash);
      Accepted(s, e, hash) ==> Step(s, e, hash).newest == s.newest[e.id := e.next]
    ensures var rotations := Run(events, hash).rotations;
      forall j, k | 0 <= j < k < |rotations| :: rotations[j].presented != rotations[k].presented
  {
    RunAcceptance(events, e, hash);
    FittingToken(Run(events, hash), e, hash);
    if Accepted(Run(events, hash), e, hash) { FittingStep(Run(events, hash), e, hash); }
  }

  lemma RunAcceptance(events: seq<Event>, e: Event, hash: string -> string)
    requires Fresh(events + [e]) && NoCollision(events + [e], hash)
    ensures var s := Run(events, hash);
      e.Refresh? && e.id in s.sessions ==>
        s.sessions[e.id].id == e.id && e.id in s.newest && (s.sessions[e.id].refreshHash == hash(e.presented) <==> e.presented == s.newest[e.id])
    ensures var rotations := Run(events, hash).rotations;
      forall j, k | 0 <= j < k < |rotations| :: rotations[j].presented != rotations[k].presented
  {
    FreshPrefix(events, e);
    Extends(events, e);
    RunInv(events, hash);
    var s := Run(events, hash);
    if e.Refresh? && e.id in s.sessions {
      StoredHash(events, s, e.id, hash);
      assert WasPresented(events + [e], e.presented) && WasDrawn(events + [e], s.newest[e.id]);
    }
  }

  /** An accepted token is exchanged for one that lives for ttl from then; nothing else of the session changes but its history. */
  lemma AcceptedExtends(events: seq<Event>, e: Event, hash: string -> string)
    requires Fresh(events + [e]) && NoCollision(events + [e], hash) && Accepted(Run(events, hash), e, hash)
    ensures var before, after := Run(events, hash).sessions, Step(Run(events, hash), e, hash).sessions;
      && e.id in before && after.Keys == before.Keys && (forall id | id in before && id != e.id :: after[id] == before[id])
      && after[e.id] == Session(e.id, before[e.id].userID, before[e.id].flowID, before[e.id].clientID,
                                hash(e.next), e.at + e.ttl, before[e.id].events + ["refreshed"])
  {
    RunAcceptance(events, e, hash);
    FittingToken(Run(events, hash), e, hash);
    FittingStep(Run(events, hash), e, hash);
  }

  /** A sweep drops exactly the sessions that have expired. */
  lemma SweepExact(s: System, at: int, hash: string -> string)
    ensures var after := Step(s, DropExpired(at), hash);
      && (forall id :: id in after.sessions <==> id in s.sessions && at <= s.sessions[id].expiresAt)
      && (forall id | id in after.sessions :: after.sessions[id] == s.sessions[id])
      && after.rotations == s.rotations && after.newest == s.newest
  {
  }
}
