/**
 Handlers run one at a time: each reads and writes its flow with nothing in between.
 The log keeps every write a handler made.
 */
module Sequential {
  import opened Common
  import opened FlowEngine
  import opened Stores
  import opened FlowHandlers
  import opened FlowChanges
  import Interleavings

  datatype Event =
    | Create(id: string, params: Params)
    | Handle(id: string, handler: Handler, at: int)
    | Consume(id: string)          // the token endpoint clears the flow's code
    | DeleteExpired(at: int)

  datatype System = System(flows: Flows, log: seq<Change>)

  const START := System(map[], [])

  function Step(s: System, e: Event): System {
    match e
    case Create(id, params) => s.(flows := s.flows[id := NewFlow(id, params)])
    case Handle(id, h, at) =>
      if id in s.flows && Written(h, s.flows[id], at).Some? then
        var w := Written(h, s.flows[id], at).value;
        System(AfterHandler(s.flows, id, h, at), s.log + [Change(id, s.flows[id], w, h, at)])
      else s
    case Consume(id) => if id in s.flows then s.(flows := s.flows[id := s.flows[id].(authCode := "")]) else s
    case DeleteExpired(at) => s.(flows := WithoutExpired(s.flows, at))
  }

  function Run(events: seq<Event>): System {
    if events == [] then START else Step(Run(events[..|events| - 1]), events[|events| - 1])
  }

  predicate FreshIDs(events: seq<Event>) {
    forall i, j | 0 <= i < j < |events| && events[i].Create? && events[j].Create? :: events[i].id != events[j].id
  }

  /** A handler run alone is a read immediately followed by its write. */
  lemma OneAtATimeIsAnInterleaving(s: Interleavings.System, t: nat, id: string, h: Handler, at: int, s256: string -> string)
    requires Keyed(s.flows) && id in s.flows
    ensures var read := Interleavings.Step(s, Interleavings.Begin(t, id, at), s256);
            Interleavings.Step(read, Interleavings.Finish(t, h, at), s256).flows == AfterHandler(s.flows, id, h, at)
  {
    var read := Interleavings.Step(s, Interleavings.Begin(t, id, at), s256);
    assert read.flows == s.flows && t in read.snapshots && read.snapshots[t] == s.flows[id];
    WrittenSameID(h, s.flows[id], at);
  }

  // ---- Whole runs ----

  /** State-changing writes to one flow. */
  function StateChanges(log: seq<Change>, id: string): nat {
    if log == [] then 0
    else StateChanges(log[..|log| - 1], id)
         + (var c := log[|log| - 1]; if c.id == id && c.after.state != c.before.state then 1 else 0)
  }

  ghost predicate PassedApproval(log: seq<Change>, id: string) {
    exists k :: 0 <= k < |log| && log[k].id == id && log[k].after.state == MFAApproved
                && FactorPassed(log[k].before, log[k].handler, log[k].at)
  }

  ghost predicate PickedFree(log: seq<Change>, id: string, userID: string) {
    exists k :: 0 <= k < |log| && log[k].id == id && PickedWithoutMFA(log[k].before, log[k].handler)
                && log[k].handler.userID == userID
  }

  ghost predicate LockedPick(log: seq<Change>, id: string) {
    exists k :: 0 <= k < |log| && log[k].id == id && PickedLocked(log[k].handler)
  }

  ghost predicate Justified(log: seq<Change>, f: Flow) {
    && (f.state == MFAApproved ==> PassedApproval(log, f.id))
    && (f.state == Complete ==> PassedApproval(log, f.id) || PickedFree(log, f.id, f.userID))
    && (LockedPick(log, f.id) ==> f.state == Error)
    && StateChanges(log, f.id) + Rank(f.state) <= 3
  }

  ghost predicate Inv(s: System) {
    && (forall id | id in s.flows :: s.flows[id].id == id && FlowOK(s.flows[id]) && Justified(s.log, s.flows[id]))
    && (forall k | 0 <= k < |s.log| :: LegalChange(s.log[k]) && s.log[k].id == s.log[k].before.id == s.log[k].after.id)
    && (forall id :: StateChanges(s.log, id) <= 3)
  }

  /** Ids in the log were created by some event. */
  ghost predicate Known(events: seq<Event>, s: System) {
    && (forall id | id in s.flows :: CreatedIn(events, id))
    && (forall k | 0 <= k < |s.log| :: CreatedIn(events, s.log[k].id))
  }

  predicate CreatedIn(events: seq<Event>, id: string) {
    exists i :: 0 <= i < |events| && events[i].Create? && events[i].id == id
  }

  lemma {:induction false} NoChangesYet(log: seq<Change>, id: string)
    requires forall k | 0 <= k < |log| :: log[k].id != id
    ensures StateChanges(log, id) == 0 && !LockedPick(log, id)
  {
    if log != [] { NoChangesYet(log[..|log| - 1], id); }
  }

  lemma LogGrows(log: seq<Change>, c: Change, f: Flow)
    requires Justified(log, f) && f.id != c.id
    ensures Justified(log + [c], f)
  {
    var log' := log + [c];
    assert log'[..|log|] == log;
    assert forall k | 0 <= k < |log| :: log'[k] == log[k];
  }

  lemma ChangeJustified(log: seq<Change>, c: Change)
    requires LegalChange(c) && c.id == c.before.id == c.after.id && Justified(log, c.before)
    ensures Justified(log + [c], c.after)
  {
    var log' := log + [c];
    assert log'[..|log|] == log && log'[|log|] == c;
    assert forall k | 0 <= k < |log| :: log'[k] == log[k];
    if c.after.state != c.before.state { PathsDescend(c.before.state, c.after.state); }
    EarlierApproval(log, log', c.id);
    if LockedPick(log', c.id) && !LockedPick(log, c.id) { assert PickedLocked(c.handler); }
  }

  lemma EarlierApproval(log: seq<Change>, log': seq<Change>, id: string)
    requires |log| <= |log'| && forall k | 0 <= k < |log| :: log'[k] == log[k]
    ensures PassedApproval(log, id) ==> PassedApproval(log', id)
    ensures forall userID | PickedFree(log, id, userID) :: PickedFree(log', id, userID)
  {
  }

  lemma HandleStep(s: System, id: string, h: Handler, at: int)
    requires Inv(s)
    ensures Inv(Step(s, Handle(id, h, at)))
  {
    if id in s.flows && Written(h, s.flows[id], at).Some? {
      var c := Change(id, s.flows[id], Written(h, s.flows[id], at).value, h, at);
      WriteLegal(s.flows[id], h, at);
      WrittenSameID(h, s.flows[id], at);
      ChangeStep(s, c);
    }
  }

  lemma ChangeStep(s: System, c: Change)
    requires Inv(s) && c.id in s.flows && c.before == s.flows[c.id] && c.after.id == c.id && LegalChange(c)
    ensures Inv(System(s.flows[c.id := c.after], s.log + [c]))
  {
    ChangeJustified(s.log, c);
    forall id | id in s.flows && id != c.id ensures Justified(s.log + [c], s.flows[id]) {
      LogGrows(s.log, c, s.flows[id]);
    }
    assert (s.log + [c])[..|s.log|] == s.log;
    forall id ensures StateChanges(s.log + [c], id) <= 3 {
      assert StateChanges(s.log, id) <= 3;
    }
  }

  lemma InvStep(events: seq<Event>, s: System, e: Event)
    requires Inv(s) && Known(events, s) && FreshIDs(events + [e])
    ensures Inv(Step(s, e))
  {
    if e.Create? {
      CreateStep(events, s, e);
    } else if e.Handle? {
      HandleStep(s, e.id, e.handler, e.at);
    }
  }

  lemma CreateStep(events: seq<Event>, s: System, e: Event)
    requires Inv(s) && Known(events, s) && FreshIDs(events + [e]) && e.Create?
    ensures Inv(Step(s, e))
  {
    assert (events + [e])[|events|] == e;
    assert forall i | 0 <= i < |events| :: (events + [e])[i] == events[i];
    assert !CreatedIn(events, e.id);
    NoChangesYet(s.log, e.id);
  }

  lemma KnownStep(events: seq<Event>, s: System, e: Event)
    requires Known(events, s)
    ensures Known(events + [e], Step(s, e))
  {
    forall id | CreatedIn(events, id) ensures CreatedIn(events + [e], id) {
      var i :| 0 <= i < |events| && events[i].Create? && events[i].id == id;
      assert (events + [e])[i] == events[i];
    }
    assert (events + [e])[|events|] == e;
    if e.Handle? && e.id in s.flows { WrittenSameID(e.handler, s.flows[e.id], e.at); }
  }

  lemma {:induction false} RunInv(events: seq<Event>)
    requires FreshIDs(events)
    ensures Inv(Run(events)) && Known(events, Run(events))
  {
    if events != [] {
      var before, e := events[..|events| - 1], events[|events| - 1];
      assert events == before + [e];
      assert forall i | 0 <= i < |before| :: before[i] == events[i];
      RunInv(before);
      InvStep(before, Run(before), e);
      KnownStep(before, Run(before), e);
    }
  }

  /**
   Every stored state change is a path in the transition table, terminal states are
   absorbing, and completedAt is set on entering one and never changed; no flow sees more
   than three state-changing writes.
   */
  lemma ChangesAreLegal(events: seq<Event>)
    requires FreshIDs(events)
    ensures var s := Run(events);
      && (forall k | 0 <= k < |s.log| :: LegalChange(s.log[k]))
      && (forall id | id in s.flows :: s.flows[id].completedAt.Some? <==> Terminal(s.flows[id].state))
      && (forall id :: StateChanges(s.log, id) <= 3)
  {
    RunInv(events);
  }

  /**
   A flow completes only if the user it picked needed no second factor when picked, or a
   factor was passed; a flow that picked a locked account stays in error.
   */
  lemma CompletionNeedsFactor(events: seq<Event>, id: string)
    requires FreshIDs(events) && id in Run(events).flows
    ensures var s := Run(events);
      && (s.flows[id].state == Complete ==> PassedApproval(s.log, id) || PickedFree(s.log, id, s.flows[id].userID))
      && (LockedPick(s.log, id) ==> s.flows[id].state == Error)
  {
    RunInv(events);
  }

  lemma HandleWrites(s: System, id: string, h: Handler, at: int)
    requires id in s.flows && s.flows[id].id == id && Written(h, s.flows[id], at).Some?
    ensures Step(s, Handle(id, h, at)).flows == s.flows[id := Written(h, s.flows[id], at).value]
  {
    WrittenSameID(h, s.flows[id], at);
  }

  /** An approved record, and what completing it writes. */
  lemma ApprovedCompletes(f: Flow, h: Handler, at: int, later: int)
    requires FlowOK(f) && FactorPassed(f, h, at)
    ensures Written(h, f, at).Some?
    ensures var g := Written(h, f, at).value;
      && g.id == f.id && Written(MoveToComplete, g, later).Some?
      && Written(MoveToComplete, g, later).value.state == Complete && Written(MoveToComplete, g, later).value.completedAt == Some(later)
  {
    OutcomeExact(f, h, at);
    WriteLegal(f, h, at);
    WrittenSameID(h, f, at);
  }

  /** And a passed factor is enough: in every run, the page after it completes the flow. */
  lemma PassedFactorCompletes(events: seq<Event>, id: string, h: Handler, at: int, later: int)
    requires FreshIDs(events) && id in Run(events).flows && FactorPassed(Run(events).flows[id], h, at)
    ensures var s := Step(Step(Run(events), Handle(id, h, at)), Handle(id, MoveToComplete, later));
      id in s.flows && s.flows[id].state == Complete && s.flows[id].completedAt == Some(later)
  {
    RunInv(events);
    var s := Run(events);
    ApprovedCompletes(s.flows[id], h, at, later);
    HandleWrites(s, id, h, at);
    HandleWrites(Step(s, Handle(id, h, at)), id, MoveToComplete, later);
  }

  /** The events that are no handler: a new flow is stored, a sweep drops the expired ones, and a consumed code is gone. */
  lemma OtherEventsExact(s: System, id: string, params: Params, at: int)
    ensures Step(s, Create(id, params)) == s.(flows := s.flows[id := NewFlow(id, params)])
    ensures var swept := Step(s, DeleteExpired(at));
      && swept.log == s.log && (forall x :: x in swept.flows <==> x in s.flows && at <= s.flows[x].params.expiresAt)
      && (forall x | x in swept.flows :: swept.flows[x] == s.flows[x])
    ensures var taken := Step(s, Consume(id));
      && taken.log == s.log && taken.flows.Keys == s.flows.Keys && (forall x | x in s.flows && x != id :: taken.flows[x] == s.flows[x])
      && (id in s.flows ==> taken.flows[id] == s.flows[id].(authCode := ""))
  {
  }
}
