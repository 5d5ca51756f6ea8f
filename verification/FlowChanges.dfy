/**
 What one write of a handler may do to a flow record (server/internal/httpapi/flow_login.go,
 server/internal/flow/state_machine.go), whatever else happens meanwhile.
 */
module FlowChanges {
  import opened Common
  import opened FlowEngine
  import opened Stores
  import opened FlowHandlers

  /** A write, with the record its handler read. */
  datatype Change = Change(id: string, before: Flow, after: Flow, handler: Handler, at: int)

  lemma WrittenSameID(h: Handler, f: Flow, at: int)
    ensures Written(h, f, at).Some? ==> Written(h, f, at).value.id == f.id
  {
  }

  predicate FlowOK(f: Flow) {
    && f.state != UserPicked
    && (f.completedAt.Some? <==> Terminal(f.state))
    && (f.webAuthnSession != "" ==> f.state == WebAuthnPending)
  }

  /** Why a flow may leave a pending state as approved. */
  predicate FactorPassed(f: Flow, h: Handler, at: int) {
    match h
    case WebAuthnResponse(ready, verdict) => f.state == WebAuthnPending && f.webAuthnSession != "" && ready && verdict
    case VerifyMFA(expected, code) =>
      f.state == MFAPending && (expected == "" || expected == "mfa_pending")
      && !Blank(code) && !(f.scenario == MFAFail && f.attempts == 0)
    case ApproveOrDeny(expected, approve) =>
      f.state == MFAPending && (expected == "" || expected == "mfa_pending") && approve && (f.scenario == SlowMFA ==> at - f.params.createdAt >= SLOW_MFA_DELAY)
    case MagicLink(token) => f.state == MFAPending && MagicMatches(f, token)
    case AutoAdvance => f.state == MFAPending && f.scenario == SlowMFA && at - f.params.createdAt >= SLOW_MFA_DELAY
    case _ => false
  }

  predicate PickedWithoutMFA(f: Flow, h: Handler) {
    && f.state == Initiated
    && h.SelectUser? && h.user.Some?
    && !RequiresMFA(h.user.value.mfaMethod)
    && NormalizeScenario(h.user.value.nextFlow) != AccountLocked
  }

  predicate PickedLocked(h: Handler) {
    h.SelectUser? && h.user.Some? && NormalizeScenario(h.user.value.nextFlow) == AccountLocked
  }

  ghost predicate LegalChange(c: Change) {
    && FlowOK(c.before) && FlowOK(c.after)
    && (c.after.state == c.before.state || TransitionPath(c.before.state, c.after.state))
    && (Terminal(c.before.state) ==> c.after.state == c.before.state && c.after.completedAt == c.before.completedAt)
    && (c.after.completedAt.Some? && c.before.completedAt.None? ==> c.after.completedAt == Some(c.at))
    && (c.after.state == MFAApproved && c.before.state != MFAApproved ==> FactorPassed(c.before, c.handler, c.at))
    && (c.after.state == Complete && c.before.state != Complete ==>
          c.before.state == MFAApproved || (PickedWithoutMFA(c.before, c.handler) && c.after.userID == c.handler.userID))
    && (c.handler.SelectUser? <==> c.before.state == Initiated)
    && (PickedLocked(c.handler) ==> c.after.state == Error)
    && (!c.handler.SelectUser? ==> c.after.userID == c.before.userID)
  }

  lemma WriteLegal(f: Flow, h: Handler, at: int)
    requires FlowOK(f) && Written(h, f, at).Some?
    ensures LegalChange(Change(f.id, f, Written(h, f, at).value, h, at))
  {
    if h.SelectUser? { PickLegal(f, h, at); } else { OtherLegal(f, h, at); }
  }

  lemma PickLegal(f: Flow, h: Handler, at: int)
    requires FlowOK(f) && h.SelectUser? && Written(h, f, at).Some?
    ensures LegalChange(Change(f.id, f, Written(h, f, at).value, h, at))
  {
    assert f.state == Initiated;
    assert CanTransition(Initiated, UserPicked);
  }

  lemma OtherLegal(f: Flow, h: Handler, at: int)
    requires FlowOK(f) && !h.SelectUser? && Written(h, f, at).Some?
    ensures LegalChange(Change(f.id, f, Written(h, f, at).value, h, at))
  {
    assert f.state != Initiated;
  }

  /** A pick that lets a user without a second factor in at once. */
  predicate PicksFree(f: Flow, h: Handler) {
    && PickedWithoutMFA(f, h)
    && h.userID != "" && (h.expected == "" || h.expected == "initiated")
  }

  /** A handler approves a flow exactly when a factor was passed, and completes it exactly from there or by a free pick. */
  lemma OutcomeExact(f: Flow, h: Handler, at: int)
    requires FlowOK(f)
    ensures f.state != MFAApproved ==>
              (FactorPassed(f, h, at) <==> Written(h, f, at).Some? && Written(h, f, at).value.state == MFAApproved)
    ensures f.state != Complete ==>
              (PicksFree(f, h) || (h.MoveToComplete? && f.state == MFAApproved) <==>
               Written(h, f, at).Some? && Written(h, f, at).value.state == Complete)
  {
    if h.SelectUser? { PickOutcome(f, h, at); }
  }

  lemma PickOutcome(f: Flow, h: Handler, at: int)
    requires FlowOK(f) && h.SelectUser?
    ensures Written(h, f, at).Some? ==> f.state == Initiated && Written(h, f, at).value.state != MFAApproved
    ensures PicksFree(f, h) <==> Written(h, f, at).Some? && Written(h, f, at).value.state == Complete
  {
    assert CanTransition(Initiated, UserPicked);
    assert forall s :: CanTransition(s, UserPicked) ==> s == Initiated;
  }
}
