/** The login state machine (server/internal/flow/state_machine.go). */
module FlowEngine {

  datatype State =
    | Initiated | UserPicked | MFAPending | WebAuthnPending
    | MFAApproved | MFADenied | Complete | Error

  datatype Scenario = Normal | MFAFail | AccountLocked | SlowMFA | ExpiredToken

  /** The names an expected_state of a request is compared with. */
  function StateName(s: State): string {
    match s
    case Initiated => "initiated"
    case UserPicked => "user_picked"
    case MFAPending => "mfa_pending"
    case WebAuthnPending => "webauthn_pending"
    case MFAApproved => "mfa_approved"
    case MFADenied => "mfa_denied"
    case Complete => "complete"
    case Error => "error"
  }

  const VALID_TRANSITIONS: map<State, set<State>> := map[
    Initiated := {UserPicked, Error},
    UserPicked := {MFAPending, WebAuthnPending, Complete, Error},
    MFAPending := {MFAApproved, MFADenied, Error},
    WebAuthnPending := {MFAApproved, MFADenied, Error},
    MFAApproved := {Complete},
    Complete := {},
    MFADenied := {},
    Error := {}
  ]

  predicate CanTransition(from: State, to: State) {
    from in VALID_TRANSITIONS && to in VALID_TRANSITIONS[from]
  }

  function NormalizeScenario(value: string): Scenario {
    if value == "mfa_fail" then MFAFail
    else if value == "account_locked" then AccountLocked
    else if value == "slow_mfa" then SlowMFA
    else if value == "expired_token" then ExpiredToken
    else Normal
  }

  predicate RequiresMFA(mfaMethod: string) {
    mfaMethod in ["totp", "push", "sms", "magic_link", "webauthn"]
  }

  predicate IsWebAuthn(mfaMethod: string) { mfaMethod == "webauthn" }

  predicate Terminal(s: State) { s == Complete || s == MFADenied || s == Error }

  /** How many more state-changing writes a flow in this state can see. */
  function Rank(s: State): nat {
    match s
    case Initiated => 3
    case UserPicked => 2
    case MFAPending => 2
    case WebAuthnPending => 2
    case MFAApproved => 1
    case _ => 0
  }

  /** A path of one or two transitions; a stored flow passes through UserPicked within one write. */
  predicate TransitionPath(from: State, to: State) {
    CanTransition(from, to) || (CanTransition(from, UserPicked) && CanTransition(UserPicked, to))
  }

  /** The table has no way out of a terminal state, and every path climbs down the rank. */
  lemma PathsDescend(from: State, to: State)
    requires TransitionPath(from, to)
    ensures !Terminal(from)
    ensures from != UserPicked && to != UserPicked ==> Rank(to) < Rank(from)
  {
  }

  /** States that follow one another by the table. */
  predicate Walk(path: seq<State>) {
    path != [] && forall i | 0 < i < |path| :: CanTransition(path[i - 1], path[i])
  }

  /** Every way from a new flow to an end, for a pending state `p`. */
  predicate LoginPath(path: seq<State>, p: State) {
    || path == [Initiated, UserPicked, Complete]
    || path == [Initiated, UserPicked, p, MFAApproved, Complete]
    || path == [Initiated, UserPicked, p, MFADenied]
    || path == [Initiated, Error]
    || path == [Initiated, UserPicked, Error]
    || path == [Initiated, UserPicked, p, Error]
  }

  /** The ways from a new flow to a terminal state are exactly these: nobody skips a pending factor. */
  lemma LoginPathsExactly(path: seq<State>)
    ensures Walk(path) && path[0] == Initiated && Terminal(path[|path| - 1]) <==>
            LoginPath(path, MFAPending) || LoginPath(path, WebAuthnPending)
  {
    if Walk(path) && path[0] == Initiated && Terminal(path[|path| - 1]) {
      assert |path| > 1 && CanTransition(path[0], path[1]);
      if path[1] == UserPicked {
        assert |path| > 2 && CanTransition(path[1], path[2]);
        if path[2] in {MFAPending, WebAuthnPending} {
          PendingPaths(path);
        } else {
          EndsHere(path, 2);
        }
      } else {
        EndsHere(path, 1);
      }
    }
  }

  lemma PendingPaths(path: seq<State>)
    requires Walk(path) && |path| > 2 && path[0] == Initiated && path[1] == UserPicked
    requires path[2] in {MFAPending, WebAuthnPending} && Terminal(path[|path| - 1])
    ensures LoginPath(path, path[2])
  {
    assert |path| > 3 && CanTransition(path[2], path[3]);
    if path[3] == MFAApproved {
      assert |path| > 4 && CanTransition(path[3], path[4]);
      EndsHere(path, 4);
    } else {
      EndsHere(path, 3);
    }
  }

  /** Nothing follows a terminal state. */
  lemma EndsHere(path: seq<State>, i: nat)
    requires Walk(path) && i < |path| && Terminal(path[i])
    ensures |path| == i + 1
  {
    assert i + 1 < |path| ==> !CanTransition(path[i], path[i + 1]);
  }
}
