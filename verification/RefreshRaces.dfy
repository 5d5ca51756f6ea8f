/**
 Refresh requests without a lock between reading the session and writing it back
 (handleRefreshGrant in server/internal/oidc/router.go), in every interleaving: exactly when
 one refresh token is accepted more than once.
 */
module RefreshRaces {
  import opened Common
  import opened Stores
  import Refresh

  datatype Event =
    | Open(id: string, userID: string, token: string, at: int, ttl: int)  // a code grant
    | Read(thread: nat, id: string, presented: string)  // GetByRefreshToken finds this session
    | Finish(thread: nat, next: string, userKnown: bool, at: int, ttl: int)  // the checks, and the write
    | DropExpired(at: int)

  datatype Pending = Pending(snapshot: Session, presented: string, readAt: nat)

  /** A token was accepted: which, and the numbers of the events that read and wrote the session. */
  datatype Rotation = Rotation(id: string, presented: string, next: string, readAt: nat, writeAt: nat)

  /** A token that was stored for a session, by the event with this number. */
  datatype Link = Link(token: string, at: nat)

  type Chains = map<string, seq<Link>>

  /** `chains` remembers every token ever stored for a session, `closed` the event that removed it. */
  datatype System = System(
    sessions: map<string, Session>, pending: map<nat, Pending>,
    rotations: seq<Rotation>, chains: Chains, closed: map<string, nat>)

  const START := System(map[], map[], [], map[], map[])

  function Remove(s: System, ids: set<string>, now: nat): System {
    s.(sessions := s.sessions - ids,
       closed := map id | id in s.closed.Keys + ids :: if id in s.closed then s.closed[id] else now)
  }

  function Await(s: System, t: nat, p: Pending): System {
    s.(pending := s.pending[t := p])
  }

  function Accept(s: System, p: Pending, next: string, now: nat): System {
    s.(rotations := s.rotations + [Rotation(p.snapshot.id, p.presented, next, p.readAt, now)])
  }

  function Store(s: System, refreshed: Session, next: string, now: nat): System {
    var id := refreshed.id;
    s.(sessions := s.sessions[id := refreshed],
       chains := s.chains[id := (if id in s.chains then s.chains[id] else []) + [Link(next, now)]])
  }

  function Expired(s: System, at: int): set<string> {
    set id | id in s.sessions && s.sessions[id].expiresAt < at
  }

  /** The write of event number `now`, from what the request had read. */
  function Write(s: System, p: Pending, e: Event, now: nat, hash: string -> string): System
    requires e.Finish?
  {
    if e.at > p.snapshot.expiresAt then Remove(s, {p.snapshot.id} * s.sessions.Keys, now)
    else if !e.userKnown then s
    else if p.snapshot.id !in s.sessions then Accept(s, p, e.next, now)
    else Store(Accept(s, p, e.next, now), Refresh.Rotated(p.snapshot, hash(e.next), e.at + e.ttl), e.next, now)
  }

  function Step(s: System, e: Event, now: nat, hash: string -> string): System {
    match e
    case Open(id, userID, token, at, ttl) =>
      Store(s, Session(id, userID, "", "", hash(token), at + ttl, ["token_issued"]), token, now)
    case Read(t, id, presented) =>
      if presented != "" && id in s.sessions && s.sessions[id].refreshHash == hash(presented)
      then Await(s, t, Pending(s.sessions[id], presented, now)) else s
    case Finish(t, _, _, _, _) =>
      if t in s.pending then Write(s.(pending := s.pending - {t}), s.pending[t], e, now, hash) else s
    case DropExpired(at) => Remove(s, Expired(s, at), now)
  }

  function Run(events: seq<Event>, hash: string -> string): System {
    if events == [] then START else Step(Run(events[..|events| - 1], hash), events[|events| - 1], |events| - 1, hash)
  }

  /** A request that is not overlapped does to the sessions what the undivided request does. */
  lemma AloneIsRefresh(s: System, t: nat, id: string, presented: string, next: string, known: bool, at: int, ttl: int,
                       n: nat, m: nat, hash: string -> string)
    requires forall id | id in s.sessions :: s.sessions[id].id == id
    requires t !in s.pending
    ensures var read := Step(s, Read(t, id, presented), n, hash);
      var whole := Refresh.Step(Refresh.System(s.sessions, [], map[]), Refresh.Refresh(id, presented, next, known, at, ttl), hash);
      Step(read, Finish(t, next, known, at, ttl), m, hash).sessions == whole.sessions
  {
  }

  /** A read finds the session exactly when the token fits what is stored. */
  lemma ReadExact(s: System, t: nat, id: string, presented: string, n: nat, hash: string -> string)
    ensures var after, fits := Step(s, Read(t, id, presented), n, hash),
                               presented != "" && id in s.sessions && s.sessions[id].refreshHash == hash(presented);
      after == if fits then s.(pending := s.pending[t := Pending(s.sessions[id], presented, n)]) else s
  {
  }

  /** A sweep drops exactly the expired sessions, and a grant stores a new one. */
  lemma OtherEventsExact(s: System, id: string, userID: string, token: string, at: int, ttl: int, n: nat, hash: string -> string)
    ensures var swept := Step(s, DropExpired(at), n, hash);
      && swept.pending == s.pending && swept.rotations == s.rotations
      && (forall x :: x in swept.sessions <==> x in s.sessions && at <= s.sessions[x].expiresAt)
      && (forall x | x in swept.sessions :: swept.sessions[x] == s.sessions[x])
    ensures var granted := Step(s, Open(id, userID, token, at, ttl), n, hash);
      && granted.pending == s.pending && granted.rotations == s.rotations
      && granted.sessions == s.sessions[id := Session(id, userID, "", "", hash(token), at + ttl, ["token_issued"])]
  {
  }

  /** The write accepts exactly for a session that had not expired and a user that is known, and stores the new token's hash. */
  lemma FinishExact(s: System, t: nat, next: string, known: bool, at: int, ttl: int, n: nat, hash: string -> string)
    requires t in s.pending
    ensures var p, after := s.pending[t], Step(s, Finish(t, next, known, at, ttl), n, hash);
      var id, accepted := p.snapshot.id, at <= p.snapshot.expiresAt && known;
      && after.rotations == s.rotations + (if accepted then [Rotation(id, p.presented, next, p.readAt, n)] else [])
      && (forall x | x != id :: x in after.sessions <==> x in s.sessions)
      && (forall x | x in after.sessions && x != id :: after.sessions[x] == s.sessions[x])
      && (id in after.sessions <==> id in s.sessions && at <= p.snapshot.expiresAt)
      && (id in after.sessions && !accepted ==> after.sessions[id] == s.sessions[id])
      && (id in after.sessions && accepted ==>
            after.sessions[id] == Session(id, p.snapshot.userID, p.snapshot.flowID, p.snapshot.clientID,
                                          hash(next), at + ttl, p.snapshot.events + ["refreshed"]))
  {
  }

  // ---- Hypotheses on randomness and the digest ----

  function Drawn(e: Event): Option<string> {
    match e
    case Open(_, _, token, _, _) => Some(token)
    case Finish(_, next, _, _, _) => Some(next)
    case _ => None
  }

  predicate WasDrawn(events: seq<Event>, token: string) {
    exists i :: 0 <= i < |events| && Drawn(events[i]) == Some(token)
  }

  predicate WasPresented(events: seq<Event>, token: string) {
    exists i :: 0 <= i < |events| && events[i].Read? && events[i].presented == token
  }

  predicate Opened(events: seq<Event>, id: string) {
    exists i :: 0 <= i < |events| && events[i].Open? && events[i].id == id
  }

  /** No token and no session id is drawn twice. */
  predicate Fresh(events: seq<Event>) {
    && (forall i, j | 0 <= i < j < |events| && Drawn(events[i]).Some? :: Drawn(events[i]) != Drawn(events[j]))
    && (forall i, j | 0 <= i < j < |events| && events[i].Open? && events[j].Open? :: events[i].id != events[j].id)
  }

  /** No presented token collides with a different drawn one. */
  ghost predicate NoCollision(events: seq<Event>, hash: string -> string) {
    forall x, y | WasPresented(events, x) && WasDrawn(events, y) && hash(x) == hash(y) :: x == y
  }

  lemma Before(events: seq<Event>, e: Event, hash: string -> string)
    requires Fresh(events + [e]) && NoCollision(events + [e], hash)
    ensures Fresh(events) && NoCollision(events, hash)
    ensures Drawn(e).Some? ==> !WasDrawn(events, Drawn(e).value) && WasDrawn(events + [e], Drawn(e).value)
    ensures e.Open? ==> !Opened(events, e.id) && Opened(events + [e], e.id)
  {
    var all := events + [e];
    assert forall i | 0 <= i < |events| :: all[i] == events[i];
    assert all[|events|] == e;
    Grows(events, e);
  }

  lemma Grows(events: seq<Event>, e: Event)
    ensures forall t | WasDrawn(events, t) :: WasDrawn(events + [e], t)
    ensures forall t | WasPresented(events, t) :: WasPresented(events + [e], t)
    ensures forall id | Opened(events, id) :: Opened(events + [e], id)
    ensures e.Read? ==> WasPresented(events + [e], e.presented)
  {
    var all := events + [e];
    assert forall i | 0 <= i < |events| :: all[i] == events[i];
    assert all[|events|] == e;
    forall t | WasDrawn(events, t) ensures WasDrawn(all, t) {
      var i :| 0 <= i < |events| && Drawn(events[i]) == Some(t);
      assert Drawn(all[i]) == Some(t);
    }
    forall t | WasPresented(events, t) ensures WasPresented(all, t) {
      var i :| 0 <= i < |events| && events[i].Read? && events[i].presented == t;
      assert all[i].presented == t;
    }
    forall id | Opened(events, id) ensures Opened(all, id) {
      var i :| 0 <= i < |events| && events[i].Open? && events[i].id == id;
      assert all[i].id == id;
    }
  }

  // ---- The chain of tokens of one session ----

  /** Stored one after the other, all before event number `now`, each token once. */
  predicate ChainOK(chain: seq<Link>, now: nat) {
    && chain != []
    && (forall m, n | 0 <= m < n < |chain| :: chain[m].at < chain[n].at && chain[m].token != chain[n].token)
    && (forall m | 0 <= m < |chain| :: chain[m].at < now)
  }

  /** `presented` was the stored token when event `readAt` read it. */
  predicate ReadFrom(chain: seq<Link>, presented: string, readAt: nat) {
    exists g | 0 <= g < |chain| :: ReadAt(chain, presented, readAt, g)
  }

  predicate ReadAt(chain: seq<Link>, presented: string, readAt: nat, g: int) {
    0 <= g < |chain| && chain[g].token == presented && chain[g].at < readAt
    && (g + 1 < |chain| ==> readAt < chain[g + 1].at)
  }

  predicate HasLink(chain: seq<Link>, at: nat) {
    exists m :: 0 <= m < |chain| && chain[m].at == at
  }

  /** A token was stored between the two reads. */
  predicate StoredBetween(chain: seq<Link>, a: nat, b: nat) {
    exists m :: 0 <= m < |chain| && (a < chain[m].at < b || b < chain[m].at < a)
  }

  /** An earlier token was read, and the next ones stored, before a later one was read. */
  lemma ReadsApart(chain: seq<Link>, x: string, a: nat, g: int, y: string, b: nat, k: int, now: nat)
    requires ChainOK(chain, now) && ReadAt(chain, x, a, g) && ReadAt(chain, y, b, k) && g < k
    ensures x != y && a < chain[k].at < b
  {
    assert chain[g].token != chain[k].token;
    if g + 1 < k { assert chain[g + 1].at < chain[k].at; }
  }

  lemma SameRead(chain: seq<Link>, x: string, a: nat, y: string, b: nat, g: int, now: nat)
    requires ChainOK(chain, now) && ReadAt(chain, x, a, g) && ReadAt(chain, y, b, g)
    ensures x == y && !StoredBetween(chain, a, b)
  {
    forall m | 0 <= m < |chain| ensures !(a < chain[m].at < b || b < chain[m].at < a) {
      if m < g { assert chain[m].at < chain[g].at; }
      if g + 1 < m { assert chain[g + 1].at < chain[m].at; }
    }
  }

  /** Two reads of one chain found the same token exactly when nothing was stored between them. */
  lemma SameReadExact(chain: seq<Link>, x: string, a: nat, y: string, b: nat, now: nat)
    requires ChainOK(chain, now) && ReadFrom(chain, x, a) && ReadFrom(chain, y, b)
    ensures x == y <==> !StoredBetween(chain, a, b)
  {
    var g :| 0 <= g < |chain| && ReadAt(chain, x, a, g);
    var k :| 0 <= k < |chain| && ReadAt(chain, y, b, k);
    if g == k {
      SameRead(chain, x, a, y, b, g, now);
    } else if g < k {
      ReadsApart(chain, x, a, g, y, b, k, now);
    } else {
      ReadsApart(chain, y, b, k, x, a, g, now);
    }
  }

  // ---- The invariant of every run ----

  predicate TokensDrawn(events: seq<Event>, chain: seq<Link>) {
    forall m | 0 <= m < |chain| :: WasDrawn(events, chain[m].token)
  }

  predicate Apart(a: seq<Link>, b: seq<Link>) {
    forall m, n | 0 <= m < |a| && 0 <= n < |b| :: a[m].token != b[n].token
  }

  ghost predicate ChainsOK(events: seq<Event>, chains: Chains) {
    && (forall id | id in chains :: Opened(events, id) && ChainOK(chains[id], |events|) && TokensDrawn(events, chains[id]))
    && (forall x, y | x in chains && y in chains && x != y :: Apart(chains[x], chains[y]))
  }

  predicate SessionOK(s: System, id: string, hash: string -> string)
    requires id in s.sessions
  {
    && s.sessions[id].id == id && id !in s.closed && id in s.chains && s.chains[id] != []
    && s.sessions[id].refreshHash == hash(s.chains[id][|s.chains[id]| - 1].token)
  }

  /** The session's token when event `readAt` read it, before it was removed. */
  predicate ReadOK(s: System, id: string, presented: string, readAt: nat, now: nat) {
    && id in s.chains && ReadFrom(s.chains[id], presented, readAt)
    && readAt < now && (id in s.closed ==> readAt < s.closed[id])
  }

  /** Accepted after its read; and stored, unless the session was gone. */
  predicate RotationOK(s: System, r: Rotation, now: nat) {
    && ReadOK(s, r.id, r.presented, r.readAt, now) && r.readAt < r.writeAt < now
    && (HasLink(s.chains[r.id], r.writeAt) || (r.id in s.closed && s.closed[r.id] <= r.writeAt))
  }

  predicate Written(rotations: seq<Rotation>, id: string, at: nat) {
    exists k :: 0 <= k < |rotations| && rotations[k].id == id && rotations[k].writeAt == at
  }

  /** Every token but the first was stored by an accepted request. */
  predicate ChainWritten(rotations: seq<Rotation>, id: string, chain: seq<Link>) {
    forall m | 1 <= m < |chain| :: Written(rotations, id, chain[m].at)
  }

  predicate InOrder(rotations: seq<Rotation>) {
    forall j, k | 0 <= j < k < |rotations| :: rotations[j].writeAt < rotations[k].writeAt
  }

  ghost predicate Readers(s: System, now: nat) {
    && (forall t | t in s.pending :: ReadOK(s, s.pending[t].snapshot.id, s.pending[t].presented, s.pending[t].readAt, now))
    && (forall k | 0 <= k < |s.rotations| :: RotationOK(s, s.rotations[k], now))
  }

  ghost predicate Sessions(s: System, hash: string -> string) {
    forall id | id in s.sessions :: SessionOK(s, id, hash)
  }

  ghost predicate AllWritten(rotations: seq<Rotation>, chains: Chains) {
    forall id | id in chains :: ChainWritten(rotations, id, chains[id])
  }

  ghost predicate Inv(events: seq<Event>, s: System, hash: string -> string) {
    && ChainsOK(events, s.chains)
    && Sessions(s, hash)
    && Readers(s, |events|)
    && InOrder(s.rotations)
    && AllWritten(s.rotations, s.chains)
  }

  /** `more` is `chain`, with a token stored by event `now` at most. */
  predicate Longer(chain: seq<Link>, more: seq<Link>, now: nat) {
    chain == more || (|more| == |chain| + 1 && more[..|chain|] == chain && more[|chain|].at == now)
  }

  /** From s to s' event `now` stored at most one token per session, and may have removed sessions. */
  predicate Moves(s: System, s': System, now: nat) {
    && (forall id | id in s.chains :: id in s'.chains && Longer(s.chains[id], s'.chains[id], now))
    && (forall id | id in s.closed :: id in s'.closed && s'.closed[id] == s.closed[id])
    && (forall id | id in s'.closed && id !in s.closed :: s'.closed[id] == now)
  }

  lemma ReadKept(s: System, s': System, id: string, presented: string, readAt: nat, now: nat)
    requires Moves(s, s', now) && ReadOK(s, id, presented, readAt, now)
    ensures ReadOK(s', id, presented, readAt, now + 1)
  {
    var g :| 0 <= g < |s.chains[id]| && ReadAt(s.chains[id], presented, readAt, g);
    assert forall m | 0 <= m < |s.chains[id]| :: s'.chains[id][m] == s'.chains[id][..|s.chains[id]|][m];
    assert ReadAt(s'.chains[id], presented, readAt, g);
  }

  lemma RotationKept(s: System, s': System, r: Rotation, now: nat)
    requires Moves(s, s', now) && RotationOK(s, r, now)
    ensures RotationOK(s', r, now + 1)
  {
    ReadKept(s, s', r.id, r.presented, r.readAt, now);
    if HasLink(s.chains[r.id], r.writeAt) {
      var m :| 0 <= m < |s.chains[r.id]| && s.chains[r.id][m].at == r.writeAt;
      assert s'.chains[r.id][..|s.chains[r.id]|][m] == s'.chains[r.id][m];
      assert s'.chains[r.id][m].at == r.writeAt;
    }
  }

  /** Reads and accepted requests keep their places in the chains. */
  lemma ReadersKept(s: System, s': System, now: nat)
    requires Moves(s, s', now) && Readers(s, now) && s'.rotations == s.rotations
    requires forall t | t in s'.pending :: t in s.pending && s'.pending[t] == s.pending[t]
    ensures Readers(s', now + 1)
  {
    forall t | t in s'.pending ensures ReadOK(s', s'.pending[t].snapshot.id, s'.pending[t].presented, s'.pending[t].readAt, now + 1) {
      ReadKept(s, s', s.pending[t].snapshot.id, s.pending[t].presented, s.pending[t].readAt, now);
    }
    forall k | 0 <= k < |s.rotations| ensures RotationOK(s', s.rotations[k], now + 1) {
      RotationKept(s, s', s.rotations[k], now);
    }
  }

  lemma ChainsGrow(events: seq<Event>, e: Event, chains: Chains)
    requires ChainsOK(events, chains)
    ensures ChainsOK(events + [e], chains)
  {
    Grows(events, e);
  }

  lemma ChainAppend(chain: seq<Link>, token: string, now: nat)
    requires (chain != [] ==> ChainOK(chain, now)) && forall m | 0 <= m < |chain| :: chain[m].token != token
    ensures ChainOK(chain + [Link(token, now)], now + 1)
  {
  }

  /** A token that was never drawn before is stored. */
  lemma NeverStored(events: seq<Event>, chains: Chains, token: string)
    requires ChainsOK(events, chains) && !WasDrawn(events, token)
    ensures forall x, m | x in chains && 0 <= m < |chains[x]| :: chains[x][m].token != token
  {
    forall x, m | x in chains && 0 <= m < |chains[x]| ensures chains[x][m].token != token {
      assert TokensDrawn(events, chains[x]);
    }
  }

  lemma ChainsStore(events: seq<Event>, e: Event, chains: Chains, id: string, token: string)
    requires ChainsOK(events, chains) && Opened(events + [e], id)
    requires !WasDrawn(events, token) && WasDrawn(events + [e], token)
    ensures var chain := (if id in chains then chains[id] else []) + [Link(token, |events|)];
      ChainsOK(events + [e], chains[id := chain])
  {
    var previous := if id in chains then chains[id] else [];
    var chain := previous + [Link(token, |events|)];
    ChainsGrow(events, e, chains);
    NeverStored(events, chains, token);
    ChainAppend(previous, token, |events|);
    StoredApart(chains, id, chain, token, |events|);
  }

  lemma StoredApart(chains: Chains, id: string, chain: seq<Link>, token: string, now: nat)
    requires forall x, y | x in chains && y in chains && x != y :: Apart(chains[x], chains[y])
    requires forall x, m | x in chains && 0 <= m < |chains[x]| :: chains[x][m].token != token
    requires chain == (if id in chains then chains[id] else []) + [Link(token, now)]
    ensures forall x | x in chains && x != id :: Apart(chains[x], chain) && Apart(chain, chains[x])
  {
    forall x | x in chains && x != id ensures Apart(chains[x], chain) && Apart(chain, chains[x]) {
      if id in chains { assert Apart(chains[x], chains[id]) && Apart(chains[id], chains[x]); }
    }
  }

  // ---- One step of each kind ----

  lemma InvGrow(events: seq<Event>, e: Event, s: System, hash: string -> string)
    requires Inv(events, s, hash)
    ensures Inv(events + [e], s, hash)
  {
    ChainsGrow(events, e, s.chains);
    ReadersKept(s, s, |events|);
  }

  /** What a reader knows does not depend on the requests in flight or on the sessions' other fields. */
  lemma SameReader(s: System, s': System, id: string, presented: string, readAt: nat, now: nat)
    requires s'.chains == s.chains && s'.closed == s.closed && ReadOK(s, id, presented, readAt, now)
    ensures ReadOK(s', id, presented, readAt, now)
  {
  }

  lemma SameRotation(s: System, s': System, r: Rotation, now: nat)
    requires s'.chains == s.chains && s'.closed == s.closed && RotationOK(s, r, now)
    ensures RotationOK(s', r, now)
  {
  }

  lemma SameRotations(s: System, s': System, now: nat)
    requires s'.chains == s.chains && s'.closed == s.closed && Readers(s, now)
    ensures forall k | 0 <= k < |s.rotations| :: RotationOK(s', s.rotations[k], now)
  {
    forall k | 0 <= k < |s.rotations| ensures RotationOK(s', s.rotations[k], now) { SameRotation(s, s', s.rotations[k], now); }
  }

  lemma SamePending(s: System, s': System, now: nat)
    requires s'.chains == s.chains && s'.closed == s.closed && Readers(s, now)
    requires forall t | t in s'.pending :: t in s.pending && s'.pending[t] == s.pending[t]
    ensures forall t | t in s'.pending :: ReadOK(s', s'.pending[t].snapshot.id, s'.pending[t].presented, s'.pending[t].readAt, now)
  {
    forall t | t in s'.pending ensures ReadOK(s', s'.pending[t].snapshot.id, s'.pending[t].presented, s'.pending[t].readAt, now) {
      SameReader(s, s', s.pending[t].snapshot.id, s.pending[t].presented, s.pending[t].readAt, now);
    }
  }

  lemma SameSessions(s: System, s': System, hash: string -> string)
    requires s'.sessions == s.sessions && s'.chains == s.chains && s'.closed == s.closed && Sessions(s, hash)
    ensures Sessions(s', hash)
  {
    forall id | id in s'.sessions ensures SessionOK(s', id, hash) { assert SessionOK(s, id, hash); }
  }

  /** A request may end. */
  lemma InvDrop(events: seq<Event>, s: System, t: nat, hash: string -> string)
    requires Inv(events, s, hash)
    ensures Inv(events, s.(pending := s.pending - {t}), hash)
  {
    var s' := s.(pending := s.pending - {t});
    SameRotations(s, s', |events|);
    SamePending(s, s', |events|);
    SameSessions(s, s', hash);
  }

  lemma InvRemove(events: seq<Event>, e: Event, s: System, ids: set<string>, hash: string -> string)
    requires Inv(events, s, hash) && ids <= s.sessions.Keys
    ensures Inv(events + [e], Remove(s, ids, |events|), hash)
  {
    var s' := Remove(s, ids, |events|);
    ChainsGrow(events, e, s.chains);
    ReadersKept(s, s', |events|);
    forall id | id in s'.sessions ensures SessionOK(s', id, hash) { assert SessionOK(s, id, hash); }
  }

  lemma InvRead(events: seq<Event>, e: Event, s: System, hash: string -> string)
    requires Inv(events, s, hash) && e.Read? && NoCollision(events + [e], hash)
    requires e.id in s.sessions && s.sessions[e.id].refreshHash == hash(e.presented)
    ensures Inv(events + [e], Await(s, e.thread, Pending(s.sessions[e.id], e.presented, |events|)), hash)
  {
    ChainsGrow(events, e, s.chains);
    ReadsNewest(events, e, s, hash);
    ReadReaders(s, e.thread, Pending(s.sessions[e.id], e.presented, |events|), |events|);
    SameSessions(s, Await(s, e.thread, Pending(s.sessions[e.id], e.presented, |events|)), hash);
  }

  lemma ReadReaders(s: System, t: nat, p: Pending, now: nat)
    requires Readers(s, now) && ReadOK(s, p.snapshot.id, p.presented, p.readAt, now + 1)
    ensures Readers(Await(s, t, p), now + 1)
  {
    ReadersKept(s, s, now);
    PendingAdded(s, t, p, now + 1);
  }

  lemma PendingAdded(s: System, t: nat, p: Pending, now: nat)
    requires Readers(s, now) && ReadOK(s, p.snapshot.id, p.presented, p.readAt, now)
    ensures Readers(Await(s, t, p), now)
  {
    var s' := Await(s, t, p);
    SameRotations(s, s', now);
    forall u | u in s'.pending ensures ReadOK(s', s'.pending[u].snapshot.id, s'.pending[u].presented, s'.pending[u].readAt, now) {
      SameReader(s, s', s'.pending[u].snapshot.id, s'.pending[u].presented, s'.pending[u].readAt, now);
    }
  }

  lemma ReadsNewest(events: seq<Event>, e: Event, s: System, hash: string -> string)
    requires ChainsOK(events, s.chains) && Sessions(s, hash) && e.Read? && NoCollision(events + [e], hash)
    requires e.id in s.sessions && s.sessions[e.id].refreshHash == hash(e.presented)
    ensures s.sessions[e.id].id == e.id && ReadOK(s, e.id, e.presented, |events|, |events| + 1)
  {
    assert SessionOK(s, e.id, hash);
    var chain := s.chains[e.id];
    NewestPresented(events, e, chain[|chain| - 1].token, hash) by { assert TokensDrawn(events, chain); }
    assert ReadAt(chain, e.presented, |events|, |chain| - 1) by { assert ChainOK(chain, |events|); }
  }

  lemma NewestPresented(events: seq<Event>, e: Event, token: string, hash: string -> string)
    requires e.Read? && NoCollision(events + [e], hash) && WasDrawn(events, token) && hash(token) == hash(e.presented)
    ensures token == e.presented
  {
    Grows(events, e);
    assert WasPresented(events + [e], e.presented) && WasDrawn(events + [e], token);
  }

  lemma InvOpen(events: seq<Event>, e: Event, s: System, hash: string -> string)
    requires Inv(events, s, hash) && e.Open? && !Opened(events, e.id) && Opened(events + [e], e.id)
    requires !WasDrawn(events, e.token) && WasDrawn(events + [e], e.token) && e.id !in s.closed
    ensures Inv(events + [e], Step(s, e, |events|, hash), hash)
  {
    var s' := Step(s, e, |events|, hash);
    assert e.id !in s.chains;
    ChainsStore(events, e, s.chains, e.id, e.token);
    ReadersKept(s, s', |events|);
    StoredSessions(s, s'.sessions[e.id], e.token, |events|, hash);
  }

  lemma WrittenGrows(rotations: seq<Rotation>, r: Rotation)
    ensures Written(rotations + [r], r.id, r.writeAt)
    ensures forall id, at | Written(rotations, id, at) :: Written(rotations + [r], id, at)
  {
    var more := rotations + [r];
    assert more[|rotations|] == r;
    forall id, at | Written(rotations, id, at) ensures Written(more, id, at) {
      var k :| 0 <= k < |rotations| && rotations[k].id == id && rotations[k].writeAt == at;
      assert more[k].id == id;
    }
  }

  /** One more accepted request, the newest. */
  lemma OrderGrows(events: seq<Event>, s: System, r: Rotation)
    requires InOrder(s.rotations) && Readers(s, |events|) && r.writeAt == |events|
    ensures InOrder(s.rotations + [r])
  {
    forall k | 0 <= k < |s.rotations| ensures s.rotations[k].writeAt < |events| { assert RotationOK(s, s.rotations[k], |events|); }
  }

  lemma ReadersAccept(s: System, r: Rotation, now: nat)
    requires Readers(s, now) && RotationOK(s, r, now)
    ensures Readers(s.(rotations := s.rotations + [r]), now)
  {
    var s' := s.(rotations := s.rotations + [r]);
    SamePending(s, s', now);
    forall k | 0 <= k < |s'.rotations| ensures RotationOK(s', s'.rotations[k], now) {
      SameRotation(s, s', s'.rotations[k], now);
    }
  }

  /** A write that finds its session gone. */
  lemma InvUnstored(events: seq<Event>, e: Event, s: System, p: Pending, next: string, hash: string -> string)
    requires Inv(events, s, hash) && ReadOK(s, p.snapshot.id, p.presented, p.readAt, |events|)
    requires p.snapshot.id in s.closed && s.closed[p.snapshot.id] <= |events|
    ensures Inv(events + [e], Accept(s, p, next, |events|), hash)
  {
    var r := Rotation(p.snapshot.id, p.presented, next, p.readAt, |events|);
    ChainsGrow(events, e, s.chains);
    UnstoredReaders(s, p, next, |events|);
    OrderGrows(events, s, r);
    SameSessions(s, Accept(s, p, next, |events|), hash);
    StillWritten(s.rotations, r, s.chains);
  }

  lemma UnstoredReaders(s: System, p: Pending, next: string, now: nat)
    requires Readers(s, now) && ReadOK(s, p.snapshot.id, p.presented, p.readAt, now)
    requires p.snapshot.id in s.closed && s.closed[p.snapshot.id] <= now
    ensures Readers(Accept(s, p, next, now), now + 1)
  {
    ReadersKept(s, s, now);
    ReadKept(s, s, p.snapshot.id, p.presented, p.readAt, now);
    ReadersAccept(s, Rotation(p.snapshot.id, p.presented, next, p.readAt, now), now + 1);
  }

  lemma StillWritten(rotations: seq<Rotation>, r: Rotation, chains: Chains)
    requires AllWritten(rotations, chains)
    ensures AllWritten(rotations + [r], chains)
  {
    WrittenGrows(rotations, r);
    forall id | id in chains ensures ChainWritten(rotations + [r], id, chains[id]) { assert ChainWritten(rotations, id, chains[id]); }
  }

  /** `after` is s once request p, accepted by event `now`, has stored its session. */
  predicate Stored(s: System, p: Pending, refreshed: Session, next: string, now: nat, hash: string -> string, after: System) {
    && p.snapshot.id in s.sessions && refreshed.id == p.snapshot.id && refreshed.refreshHash == hash(next)
    && after == Store(Accept(s, p, next, now), refreshed, next, now)
  }

  lemma InvStored(events: seq<Event>, e: Event, s: System, p: Pending, next: string, refreshed: Session, hash: string -> string,
                  after: System)
    requires Inv(events, s, hash) && ReadOK(s, p.snapshot.id, p.presented, p.readAt, |events|)
    requires Stored(s, p, refreshed, next, |events|, hash, after)
    requires !WasDrawn(events, next) && WasDrawn(events + [e], next)
    ensures Inv(events + [e], after, hash)
  {
    StoredChains(events, e, s, p, next, refreshed, hash, after);
    StoredReaders(events, e, s, p, refreshed, next, hash, after);
    StoredRecords(events, s, p, refreshed, next, hash, after);
  }

  lemma StoredChains(events: seq<Event>, e: Event, s: System, p: Pending, next: string, refreshed: Session,
                     hash: string -> string, after: System)
    requires ChainsOK(events, s.chains) && Sessions(s, hash) && Stored(s, p, refreshed, next, |events|, hash, after)
    requires !WasDrawn(events, next) && WasDrawn(events + [e], next)
    ensures ChainsOK(events + [e], after.chains)
  {
    assert SessionOK(s, p.snapshot.id, hash);
    Grows(events, e);
    ChainsStore(events, e, s.chains, p.snapshot.id, next);
  }

  lemma StoredRecords(events: seq<Event>, s: System, p: Pending, refreshed: Session, next: string, hash: string -> string,
                      after: System)
    requires AllWritten(s.rotations, s.chains) && Sessions(s, hash) && InOrder(s.rotations) && Readers(s, |events|)
    requires Stored(s, p, refreshed, next, |events|, hash, after)
    ensures AllWritten(after.rotations, after.chains) && Sessions(after, hash) && InOrder(after.rotations)
  {
    var r := Rotation(p.snapshot.id, p.presented, next, p.readAt, |events|);
    var stored := Store(s, refreshed, next, |events|);
    assert SessionOK(s, p.snapshot.id, hash);
    StoredWritten(s, stored, r, next);
    StoredSessions(s, refreshed, next, |events|, hash);
    SameSessions(stored, after, hash);
    OrderGrows(events, s, r);
  }

  lemma StoredReaders(events: seq<Event>, e: Event, s: System, p: Pending, refreshed: Session, next: string,
                      hash: string -> string, after: System)
    requires Readers(s, |events|) && ReadOK(s, p.snapshot.id, p.presented, p.readAt, |events|)
    requires Stored(s, p, refreshed, next, |events|, hash, after)
    ensures Readers(after, |events + [e]|)
  {
    var id, now, stored := p.snapshot.id, |events|, Store(s, refreshed, next, |events|);
    assert Moves(s, stored, now) by { assert (s.chains[id] + [Link(next, now)])[..|s.chains[id]|] == s.chains[id]; }
    ReadersKept(s, stored, now);
    ReadKept(s, stored, id, p.presented, p.readAt, now);
    assert stored.chains[id][|s.chains[id]|].at == now;
    ReadersAccept(stored, Rotation(id, p.presented, next, p.readAt, now), now + 1);
  }

  lemma StoredSessions(s: System, refreshed: Session, next: string, now: nat, hash: string -> string)
    requires Sessions(s, hash) && refreshed.refreshHash == hash(next) && refreshed.id !in s.closed
    ensures Sessions(Store(s, refreshed, next, now), hash)
  {
    var stored := Store(s, refreshed, next, now);
    forall x | x in stored.sessions ensures SessionOK(stored, x, hash) {
      if x != refreshed.id { assert SessionOK(s, x, hash); }
    }
  }

  lemma StoredWritten(s: System, stored: System, r: Rotation, next: string)
    requires r.id in s.chains && stored.chains == s.chains[r.id := s.chains[r.id] + [Link(next, r.writeAt)]]
    requires AllWritten(s.rotations, s.chains)
    ensures AllWritten(s.rotations + [r], stored.chains)
  {
    WrittenGrows(s.rotations, r);
    forall id | id in stored.chains ensures ChainWritten(s.rotations + [r], id, stored.chains[id]) {
      assert ChainWritten(s.rotations, id, s.chains[id]);
    }
  }

  /** A session that was opened and is not there any more was removed at some event. */
  ghost predicate Tracked(s: System, now: nat) {
    && (forall id | id in s.chains :: id in s.sessions || id in s.closed)
    && (forall id | id in s.closed :: id in s.chains && s.closed[id] < now)
  }

  lemma TrackedStep(s: System, e: Event, now: nat, hash: string -> string)
    requires Tracked(s, now) && forall id | id in s.sessions :: id in s.chains && s.sessions[id].id == id
    requires forall t | t in s.pending :: s.pending[t].snapshot.id in s.chains
    ensures Tracked(Step(s, e, now, hash), now + 1)
  {
  }

  lemma InvFinish(events: seq<Event>, e: Event, s: System, hash: string -> string)
    requires Inv(events, s, hash) && Tracked(s, |events|) && e.Finish? && e.thread in s.pending
    requires !WasDrawn(events, e.next) && WasDrawn(events + [e], e.next)
    ensures Inv(events + [e], Step(s, e, |events|, hash), hash)
  {
    var p, rest := s.pending[e.thread], s.(pending := s.pending - {e.thread});
    InvDrop(events, s, e.thread, hash);
    SameReader(s, rest, p.snapshot.id, p.presented, p.readAt, |events|);
    InvWrite(events, e, rest, p, hash);
  }

  lemma InvWrite(events: seq<Event>, e: Event, s: System, p: Pending, hash: string -> string)
    requires Inv(events, s, hash) && Tracked(s, |events|) && ReadOK(s, p.snapshot.id, p.presented, p.readAt, |events|)
    requires e.Finish? && !WasDrawn(events, e.next) && WasDrawn(events + [e], e.next)
    ensures Inv(events + [e], Write(s, p, e, |events|, hash), hash)
  {
    if e.at > p.snapshot.expiresAt {
      InvRemove(events, e, s, {p.snapshot.id} * s.sessions.Keys, hash);
    } else if !e.userKnown {
      InvGrow(events, e, s, hash);
    } else if p.snapshot.id !in s.sessions {
      InvUnstored(events, e, s, p, e.next, hash);
    } else {
      InvStored(events, e, s, p, e.next, Refresh.Rotated(p.snapshot, hash(e.next), e.at + e.ttl), hash,
                Write(s, p, e, |events|, hash));
    }
  }

  lemma InvStep(events: seq<Event>, e: Event, s: System, hash: string -> string)
    requires Inv(events, s, hash) && Tracked(s, |events|) && Fresh(events + [e]) && NoCollision(events + [e], hash)
    ensures Inv(events + [e], Step(s, e, |events|, hash), hash)
  {
    Before(events, e, hash);
    match e
    case Open(id, _, _, _, _) =>
      assert id !in s.chains;
      InvOpen(events, e, s, hash);
    case Read(_, id, presented) =>
      InvGrow(events, e, s, hash);
      if presented != "" && id in s.sessions && s.sessions[id].refreshHash == hash(presented) { InvRead(events, e, s, hash); }
    case Finish(t, _, _, _, _) =>
      InvGrow(events, e, s, hash);
      if t in s.pending { InvFinish(events, e, s, hash); }
    case DropExpired(at) => InvRemove(events, e, s, Expired(s, at), hash);
  }

  lemma InvTracks(events: seq<Event>, s: System, hash: string -> string)
    requires Inv(events, s, hash)
    ensures forall id | id in s.sessions :: id in s.chains && s.sessions[id].id == id
    ensures forall t | t in s.pending :: s.pending[t].snapshot.id in s.chains
  {
    forall id | id in s.sessions ensures id in s.chains && s.sessions[id].id == id { assert SessionOK(s, id, hash); }
    forall t | t in s.pending ensures s.pending[t].snapshot.id in s.chains {
      assert ReadOK(s, s.pending[t].snapshot.id, s.pending[t].presented, s.pending[t].readAt, |events|);
    }
  }

  lemma TrackedNext(events: seq<Event>, e: Event, s: System, hash: string -> string)
    requires Inv(events, s, hash) && Tracked(s, |events|)
    ensures Tracked(Step(s, e, |events|, hash), |events| + 1)
  {
    InvTracks(events, s, hash);
    TrackedStep(s, e, |events|, hash);
  }

  lemma Earlier(events: seq<Event>, e: Event, hash: string -> string)
    requires Fresh(events + [e]) && NoCollision(events + [e], hash)
    ensures Fresh(events) && NoCollision(events, hash)
  {
    Before(events, e, hash);
  }

  ghost predicate Good(events: seq<Event>, s: System, hash: string -> string) {
    Inv(events, s, hash) && Tracked(s, |events|)
  }

  lemma GoodStep(events: seq<Event>, e: Event, s: System, hash: string -> string)
    requires Good(events, s, hash) && Fresh(events + [e]) && NoCollision(events + [e], hash)
    ensures Good(events + [e], Step(s, e, |events|, hash), hash)
  {
    TrackedNext(events, e, s, hash);
    InvStep(events, e, s, hash);
  }

  lemma RunMore(events: seq<Event>, e: Event, hash: string -> string)
    ensures Run(events + [e], hash) == Step(Run(events, hash), e, |events|, hash)
  {
    assert (events + [e])[..|events|] == events;
  }

  lemma {:induction false} RunGood(events: seq<Event>, hash: string -> string)
    requires Fresh(events) && NoCollision(events, hash)
    ensures Good(events, Run(events, hash), hash)
    decreases |events|, 0
  {
    if events != [] {
      assert events == events[..|events| - 1] + [events[|events| - 1]];
      RunGoodLast(events[..|events| - 1], events[|events| - 1], hash);
    }
  }

  lemma {:induction false} RunGoodLast(before: seq<Event>, e: Event, hash: string -> string)
    requires Fresh(before + [e]) && NoCollision(before + [e], hash)
    ensures Good(before + [e], Run(before + [e], hash), hash)
    decreases |before|, 1
  {
    Earlier(before, e, hash);
    RunGood(before, hash);
    GoodStep(before, e, Run(before, hash), hash);
    RunMore(before, e, hash);
  }

  // ---- Exactly when a token is accepted twice ----

  /** What of the invariant the result needs. */
  ghost predicate Placed(s: System, now: nat) {
    && (forall id | id in s.chains :: ChainOK(s.chains[id], now) && ChainWritten(s.rotations, id, s.chains[id]))
    && (forall x, y | x in s.chains && y in s.chains && x != y :: Apart(s.chains[x], s.chains[y]))
    && (forall k | 0 <= k < |s.rotations| :: RotationOK(s, s.rotations[k], now))
    && InOrder(s.rotations)
  }

  lemma RunPlaced(events: seq<Event>, hash: string -> string)
    requires Fresh(events) && NoCollision(events, hash)
    ensures Placed(Run(events, hash), |events|)
  {
    RunGood(events, hash);
  }

  predicate AcceptedTwice(rotations: seq<Rotation>, j: nat, k: nat)
    requires j < k < |rotations|
  {
    rotations[j].presented == rotations[k].presented
  }

  /** Both requests had read the session before the first of their writes. */
  predicate Overlap(rotations: seq<Rotation>, j: nat, k: nat)
    requires j < k < |rotations|
  {
    rotations[j].id == rotations[k].id && rotations[k].readAt < rotations[j].writeAt
  }

  lemma OneSession(s: System, j: nat, k: nat, now: nat)
    requires Placed(s, now) && j < k < |s.rotations| && AcceptedTwice(s.rotations, j, k)
    ensures s.rotations[j].id == s.rotations[k].id
  {
    var x, y := s.rotations[j], s.rotations[k];
    assert RotationOK(s, x, now) && RotationOK(s, y, now);
    var g :| 0 <= g < |s.chains[x.id]| && ReadAt(s.chains[x.id], x.presented, x.readAt, g);
    var h :| 0 <= h < |s.chains[y.id]| && ReadAt(s.chains[y.id], y.presented, y.readAt, h);
    assert x.id != y.id ==> Apart(s.chains[x.id], s.chains[y.id]);
  }

  /** Two accepted requests presented one token exactly when they belong to one session and nothing was stored between their reads. */
  lemma PairExact(events: seq<Event>, hash: string -> string, j: nat, k: nat)
    requires Fresh(events) && NoCollision(events, hash) && j < k < |Run(events, hash).rotations|
    ensures var s := Run(events, hash);
      var x, y := s.rotations[j], s.rotations[k];
      x.id in s.chains && (AcceptedTwice(s.rotations, j, k) <==> x.id == y.id && !StoredBetween(s.chains[x.id], x.readAt, y.readAt))
  {
    RunPlaced(events, hash);
    PlacedPair(Run(events, hash), j, k, |events|);
  }

  lemma PlacedPair(s: System, j: nat, k: nat, now: nat)
    requires Placed(s, now) && j < k < |s.rotations|
    ensures var x, y := s.rotations[j], s.rotations[k];
      x.id in s.chains && (AcceptedTwice(s.rotations, j, k) <==> x.id == y.id && !StoredBetween(s.chains[x.id], x.readAt, y.readAt))
  {
    var x, y := s.rotations[j], s.rotations[k];
    assert RotationOK(s, x, now) && RotationOK(s, y, now);
    if AcceptedTwice(s.rotations, j, k) { OneSession(s, j, k, now); }
    if x.id == y.id { SameReadExact(s.chains[x.id], x.presented, x.readAt, y.presented, y.readAt, now); }
  }

  /** No token is stored by the event that reads one. */
  lemma ReadIsNoLink(chain: seq<Link>, x: string, a: nat, m: nat, now: nat)
    requires ChainOK(chain, now) && ReadFrom(chain, x, a) && m < |chain|
    ensures chain[m].at != a
  {
    var g :| 0 <= g < |chain| && ReadAt(chain, x, a, g);
    assert m < g ==> chain[m].at < chain[g].at;
    assert g + 1 < m ==> chain[g + 1].at < chain[m].at;
  }

  lemma TwiceOverlaps(s: System, j: nat, k: nat, now: nat)
    requires Placed(s, now) && j < k < |s.rotations| && AcceptedTwice(s.rotations, j, k)
    ensures Overlap(s.rotations, j, k)
  {
    var x, y := s.rotations[j], s.rotations[k];
    var chain := s.chains[x.id];
    PlacedPair(s, j, k, now);
    assert RotationOK(s, x, now) && RotationOK(s, y, now);
    if HasLink(chain, x.writeAt) {
      var m :| 0 <= m < |chain| && chain[m].at == x.writeAt;
      ReadIsNoLink(chain, y.presented, y.readAt, m, now);
      assert !(x.readAt < chain[m].at < y.readAt);
    }
  }

  /** From overlapping requests back to two that presented one token. */
  lemma {:induction false} OverlapAccepts(s: System, j: nat, k: nat, now: nat) returns (a: nat, b: nat)
    requires Placed(s, now) && j < k < |s.rotations| && Overlap(s.rotations, j, k)
    ensures a < b < |s.rotations| && AcceptedTwice(s.rotations, a, b)
    decreases j
  {
    PlacedPair(s, j, k, now);
    if !StoredBetween(s.chains[s.rotations[j].id], s.rotations[j].readAt, s.rotations[k].readAt) {
      a, b := j, k;
    } else {
      var n := EarlierWriter(s, j, k, now);
      if s.rotations[j].readAt < s.rotations[n].writeAt {
        a, b := OverlapAccepts(s, n, j, now);
      } else {
        a, b := OverlapAccepts(s, n, k, now);
      }
    }
  }

  /** What was stored between the reads of overlapping requests was written by an earlier one. */
  lemma EarlierWriter(s: System, j: nat, k: nat, now: nat) returns (n: nat)
    requires Placed(s, now) && j < k < |s.rotations| && Overlap(s.rotations, j, k) && s.rotations[j].id in s.chains
    requires StoredBetween(s.chains[s.rotations[j].id], s.rotations[j].readAt, s.rotations[k].readAt)
    ensures n < j && s.rotations[n].id == s.rotations[j].id
    ensures var a, b, w := s.rotations[j].readAt, s.rotations[k].readAt, s.rotations[n].writeAt; a < w < b || b < w < a
  {
    var x, y := s.rotations[j], s.rotations[k];
    var chain := s.chains[x.id];
    assert RotationOK(s, x, now) && RotationOK(s, y, now);
    var m :| 0 <= m < |chain| && (x.readAt < chain[m].at < y.readAt || y.readAt < chain[m].at < x.readAt);
    FirstLinkEarlier(chain, x.presented, x.readAt, y.presented, y.readAt, m, now);
    n := WriterOf(s, x.id, m, now);
    BeforeInOrder(s.rotations, n, j);
  }

  lemma WriterOf(s: System, id: string, m: nat, now: nat) returns (n: nat)
    requires Placed(s, now) && id in s.chains && 1 <= m < |s.chains[id]|
    ensures n < |s.rotations| && s.rotations[n].id == id && s.rotations[n].writeAt == s.chains[id][m].at
  {
    assert ChainWritten(s.rotations, id, s.chains[id]);
    assert Written(s.rotations, id, s.chains[id][m].at);
    n :| 0 <= n < |s.rotations| && s.rotations[n].id == id && s.rotations[n].writeAt == s.chains[id][m].at;
  }

  lemma BeforeInOrder(rotations: seq<Rotation>, n: nat, j: nat)
    requires InOrder(rotations) && n < |rotations| && j < |rotations| && rotations[n].writeAt < rotations[j].writeAt
    ensures n < j
  {
  }

  /** The token of the code grant was stored before either read. */
  lemma FirstLinkEarlier(chain: seq<Link>, x: string, a: nat, y: string, b: nat, m: nat, now: nat)
    requires ChainOK(chain, now) && ReadFrom(chain, x, a) && ReadFrom(chain, y, b) && m < |chain|
    requires a < chain[m].at < b || b < chain[m].at < a
    ensures m >= 1
  {
    var g :| 0 <= g < |chain| && ReadAt(chain, x, a, g);
    var h :| 0 <= h < |chain| && ReadAt(chain, y, b, h);
    assert chain[0].at <= chain[g].at && chain[0].at <= chain[h].at;
  }

  ghost predicate SomeTokenTwice(rotations: seq<Rotation>) {
    exists j, k :: 0 <= j < k < |rotations| && AcceptedTwice(rotations, j, k)
  }

  ghost predicate SomeOverlap(rotations: seq<Rotation>) {
    exists j, k :: 0 <= j < k < |rotations| && Overlap(rotations, j, k)
  }

  /**
   In every interleaving, with fresh tokens and no digest collision: some refresh token is accepted twice exactly
   when two accepted requests of one session had both read it before the first of them wrote.
   */
  lemma TwiceExactlyWhenOverlapping(events: seq<Event>, hash: string -> string)
    requires Fresh(events) && NoCollision(events, hash)
    ensures SomeTokenTwice(Run(events, hash).rotations) <==> SomeOverlap(Run(events, hash).rotations)
  {
    RunPlaced(events, hash);
    var s := Run(events, hash);
    if SomeTokenTwice(s.rotations) {
      var j, k :| 0 <= j < k < |s.rotations| && AcceptedTwice(s.rotations, j, k);
      TwiceOverlaps(s, j, k, |events|);
    }
    if SomeOverlap(s.rotations) {
      var j, k :| 0 <= j < k < |s.rotations| && Overlap(s.rotations, j, k);
      var a, b := OverlapAccepts(s, j, k, |events|);
    }
  }

  // ---- A run that accepts one token twice ----

  const RACE := [
    Open("s", "u", "t0", 0, 100), Read(0, "s", "t0"), Read(1, "s", "t0"),
    Finish(0, "t1", true, 0, 100), Finish(1, "t2", true, 0, 100)]

  lemma StaleReadAcceptsTwice(hash: string -> string)
    ensures Fresh(RACE)
    ensures var rotations := Run(RACE, hash).rotations;
      rotations == [Rotation("s", "t0", "t1", 1, 3), Rotation("s", "t0", "t2", 2, 4)]
  {
    BothRead(hash);
    assert RACE[..5] == RACE && RACE[..5][..4] == RACE[..4] && RACE[..4][..3] == RACE[..3];
    var p := Run(RACE[..3], hash).pending;
    assert Run(RACE[..4], hash).rotations == [Rotation("s", "t0", "t1", 1, 3)];
    assert 1 in Run(RACE[..4], hash).pending && Run(RACE[..4], hash).pending[1] == p[1];
  }

  lemma BothRead(hash: string -> string)
    ensures var s, granted := Run(RACE[..3], hash), Session("s", "u", "", "", hash("t0"), 100, ["token_issued"]);
      s.pending == map[0 := Pending(granted, "t0", 1), 1 := Pending(granted, "t0", 2)] && s.rotations == []
      && s.sessions == map["s" := granted]
  {
    var granted := Session("s", "u", "", "", hash("t0"), 100, ["token_issued"]);
    assert RACE[..3][..2] == RACE[..2] && RACE[..2][..1] == RACE[..1] && RACE[..1][..0] == [];
    assert Run([], hash) == START;
    var one, two := Run(RACE[..1], hash), Run(RACE[..2], hash);
    assert one.sessions == map["s" := granted] && one.pending == map[] && one.rotations == [];
    assert two.sessions == map["s" := granted] && two.pending == map[0 := Pending(granted, "t0", 1)] && two.rotations == [];
  }
}
