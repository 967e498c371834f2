/**
 Authentication with a card that stays in the reader: the transition function and
 the object whose methods follow it.
 */
module InsertedAuth {
  import opened Wrappers
  import opened Auth

  datatype LoggedOutReason =
    | CardErrorReason
    | ElectionManagerWrongElection
    | InvalidUserOnCard
    | MachineNotConfigured
    | NoCardReason
    | PollWorkerWrongElection

  datatype CardlessVoter = CardlessVoter(ballotStyleId: string, precinctId: string)

  datatype AuthStatus =
    | LoggedOut(reason: LoggedOutReason, cardUserRole: Option<Role>)
    | CheckingPin(user: User, error: bool, lockedOutUntil: Option<Time>, wrongPinEnteredAt: Option<Time>)
    | LoggedIn(user: User, sessionExpiresAt: Time)

  const SIGNED_OUT := LoggedOut(NoCardReason, None)

  datatype Action =
    | CheckCardReader(cardStatus: CardStatus)
    | CheckPinAction(response: PinResponse)
    | LogOutAction
    | UpdateSessionExpiryAction(sessionExpiresAt: Time)

  /** `skipPinEntry` is the development feature flag. */
  datatype Config = Config(
    allowCardlessVoterSessions: bool,
    allowElectionManagersToAccessMachinesConfiguredForOtherElections: bool,
    skipPinEntry: bool)

  function ValidateCard(cfg: Config, ms: MachineState, details: Option<CardDetails>): Result<CardDetails, LoggedOutReason> {
    if details.None? then Err(InvalidUserOnCard)
    else
      var user := details.value.user;
      if IsSet(ms.jurisdiction) && JurisdictionOf(user) != ms.jurisdiction then Err(InvalidUserOnCard)
      else match user
        case ElectionManager(_, hash) =>
          if IsSet(ms.electionHash) && ms.electionHash != Some(hash)
             && !cfg.allowElectionManagersToAccessMachinesConfiguredForOtherElections
          then Err(ElectionManagerWrongElection)
          else Ok(details.value)
        case PollWorker(_, hash) =>
          if !IsSet(ms.electionHash) then Err(MachineNotConfigured)
          else if ms.electionHash != Some(hash) then Err(PollWorkerWrongElection)
          else if details.value.hasPin != ms.arePollWorkerCardPinsEnabled then Err(InvalidUserOnCard)
          else Ok(details.value)
        case _ => Ok(details.value)
  }

  /** An expired session counts as signed out before anything else happens. */
  function Current(auth: AuthStatus, now: Time): AuthStatus {
    if auth.LoggedIn? && now >= auth.sessionExpiresAt then SIGNED_OUT else auth
  }

  predicate NeedsPin(cfg: Config, ms: MachineState, user: User) {
    !cfg.skipPinEntry && (user.PollWorker? ==> ms.arePollWorkerCardPinsEnabled)
  }

  function Determine(cfg: Config, ms: MachineState, auth: AuthStatus, action: Action, now: Time): AuthStatus {
    var current := Current(auth, now);
    match action
    case CheckCardReader(NoCard) => SIGNED_OUT
    case CheckCardReader(UnknownError) => SIGNED_OUT
    case CheckCardReader(CardError) => LoggedOut(CardErrorReason, None)
    case CheckCardReader(Ready(cardDetails)) =>
      (match ValidateCard(cfg, ms, cardDetails)
       case Err(reason) =>
         LoggedOut(reason, if cardDetails.Some? then Some(RoleOf(cardDetails.value.user)) else None)
       case Ok(details) =>
         if !current.LoggedOut? then current
         else if NeedsPin(cfg, ms, details.user) then
           CheckingPin(details.user, false, LockoutEndTime(ms, details.numIncorrectPinAttempts, now), None)
         else LoggedIn(details.user, SessionEndTime(ms, now)))
    case CheckPinAction(response) =>
      if !current.CheckingPin? then current
      else (match response
            case Correct => LoggedIn(current.user, SessionEndTime(ms, now))
            case Incorrect(attempts) =>
              CheckingPin(current.user, false, LockoutEndTime(ms, Some(attempts), now), Some(now))
            case PinError => current.(error := true))
    case LogOutAction => SIGNED_OUT
    case UpdateSessionExpiryAction(sessionExpiresAt) =>
      if !current.LoggedIn? then current else current.(sessionExpiresAt := sessionExpiresAt)
  }

  predicate IsLockedOut(auth: AuthStatus, now: Time) {
    auth.CheckingPin? && auth.lockedOutUntil.Some? && now < auth.lockedOutUntil.value
  }

  // ---- the machine as a fold over events

  datatype Event =
    | Update(ms: MachineState, action: Action, now: Time)
    | StartVoter(voter: CardlessVoter)
    | EndVoter

  datatype State = State(auth: AuthStatus, voter: Option<CardlessVoter>)

  const INITIAL := State(SIGNED_OUT, None)

  predicate PollWorkerIn(auth: AuthStatus) {
    auth.LoggedIn? && auth.user.PollWorker?
  }

  function Apply(cfg: Config, s: State, e: Event): State {
    match e
    case Update(ms, action, now) => s.(auth := Determine(cfg, ms, s.auth, action, now))
    case StartVoter(v) =>
      if cfg.allowCardlessVoterSessions && PollWorkerIn(s.auth) then s.(voter := Some(v)) else s
    case EndVoter => if cfg.allowCardlessVoterSessions then s.(voter := None) else s
  }

  function Run(cfg: Config, s: State, es: seq<Event>): State {
    if es == [] then s else Apply(cfg, Run(cfg, s, es[..|es| - 1]), es[|es| - 1])
  }

  /** What `getAuthStatus` tells its caller. */
  datatype Report =
    | Own(auth: AuthStatus)
    | PollWorkerWithVoter(user: User, sessionExpiresAt: Time, voter: CardlessVoter)
    | VoterLoggedIn(voter: CardlessVoter, sessionExpiresAt: Time)

  function ReportOf(ms: MachineState, s: State, now: Time): Report {
    if PollWorkerIn(s.auth) && s.voter.Some? then
      PollWorkerWithVoter(s.auth.user, s.auth.sessionExpiresAt, s.voter.value)
    else if s.auth.LoggedOut? && s.auth.reason == NoCardReason && s.voter.Some? then
      VoterLoggedIn(s.voter.value, SessionEndTime(ms, now))
    else Own(s.auth)
  }

  // ---- the object

  class InsertedSmartCardAuth {
    var authStatus: AuthStatus
    var cardlessVoterUser: Option<CardlessVoter>
    const card: Card
    const config: Config

    constructor (card: Card, config: Config)
      ensures this.card == card && this.config == config && Abstract() == INITIAL
    {
      authStatus := SIGNED_OUT;
      cardlessVoterUser := None;
      this.card := card;
      this.config := config;
    }

    ghost function Abstract(): State
      reads this
    {
      State(authStatus, cardlessVoterUser)
    }

    method UpdateAuthStatus(ms: MachineState, action: Action, now: Time)
      modifies this
      ensures Abstract() == Run(config, old(Abstract()), [Update(ms, action, now)])
    {
      ghost var e := Update(ms, action, now);
      assert [e][..0] == [];
      authStatus := Determine(config, ms, authStatus, action, now);
    }

    method CheckCardReaderAndUpdateAuthStatus(ms: MachineState, now: Time)
      modifies this
      ensures Abstract() == Run(config, old(Abstract()), [Update(ms, CheckCardReader(card.driver.status), now)])
    {
      var cardStatus := card.GetCardStatus();
      UpdateAuthStatus(ms, CheckCardReader(cardStatus), now);
    }

    method GetAuthStatus(ms: MachineState, now: Time) returns (report: Report)
      modifies this
      ensures Abstract() == Run(config, old(Abstract()), [Update(ms, CheckCardReader(card.driver.status), now)])
      ensures report == ReportOf(ms, Abstract(), now)
    {
      CheckCardReaderAndUpdateAuthStatus(ms, now);
      if authStatus.LoggedIn? && authStatus.user.PollWorker? && cardlessVoterUser.Some? {
        return PollWorkerWithVoter(authStatus.user, authStatus.sessionExpiresAt, cardlessVoterUser.value);
      }
      if authStatus.LoggedOut? && authStatus.reason == NoCardReason && cardlessVoterUser.Some? {
        return VoterLoggedIn(cardlessVoterUser.value, SessionEndTime(ms, now));
      }
      return Own(authStatus);
    }

    /** The clock is read at the poll, at the lockout gate, and when the card's answer is handled. */
    method CheckPin(ms: MachineState, pin: string, fate: Fate, poll: Time, gate: Time, answer: Time)
      modifies this, card
      ensures var polled := Run(config, old(Abstract()), [Update(ms, CheckCardReader(old(card.driver.status)), poll)]);
              if polled.auth.CheckingPin? && polled.auth.lockedOutUntil.Some? && gate < polled.auth.lockedOutUntil.value then card.driver == old(card.driver) && Abstract() == polled
              else
                var (driver, response) := DriverCheckPin(card.card, old(card.driver), pin, fate);
                && card.driver == driver
                && Abstract() == Run(config, polled, [Update(ms, CheckPinAction(response), answer)])
    {
      CheckCardReaderAndUpdateAuthStatus(ms, poll);
      if IsLockedOut(authStatus, gate) {
        return;
      }
      var response := card.CheckPin(pin, fate);
      UpdateAuthStatus(ms, CheckPinAction(response), answer);
    }

    method LogOut(ms: MachineState, now: Time)
      modifies this
      ensures Abstract() == Run(config, old(Abstract()), [Update(ms, LogOutAction, now)])
    {
      UpdateAuthStatus(ms, LogOutAction, now);
    }

    method UpdateSessionExpiry(ms: MachineState, sessionExpiresAt: Time, poll: Time, now: Time)
      modifies this
      ensures var polled := Run(config, old(Abstract()), [Update(ms, CheckCardReader(card.driver.status), poll)]);
              Abstract() == Run(config, polled, [Update(ms, UpdateSessionExpiryAction(sessionExpiresAt), now)])
    {
      CheckCardReaderAndUpdateAuthStatus(ms, poll);
      UpdateAuthStatus(ms, UpdateSessionExpiryAction(sessionExpiresAt), now);
    }

    /** Throws, changing nothing, on a machine that does not allow cardless voter sessions. */
    method StartCardlessVoterSession(ms: MachineState, voter: CardlessVoter, now: Time) returns (r: Outcome)
      modifies this
      ensures r.Pass? <==> config.allowCardlessVoterSessions
      ensures r.Fail? ==> Abstract() == old(Abstract())
      ensures r.Pass? ==>
                var polled := Run(config, old(Abstract()), [Update(ms, CheckCardReader(card.driver.status), now)]);
                Abstract() == Run(config, polled, [StartVoter(voter)])
    {
      if !config.allowCardlessVoterSessions {
        return Fail;
      }
      CheckCardReaderAndUpdateAuthStatus(ms, now);
      assert [StartVoter(voter)][..0] == [];
      if authStatus.LoggedIn? && authStatus.user.PollWorker? {
        cardlessVoterUser := Some(voter);
      }
      return Pass;
    }

    method EndCardlessVoterSession() returns (r: Outcome)
      modifies this
      ensures r.Pass? <==> config.allowCardlessVoterSessions
      ensures Abstract() == Run(config, old(Abstract()), [EndVoter])
    {
      assert [EndVoter][..0] == [];
      if !config.allowCardlessVoterSessions {
        return Fail;
      }
      cardlessVoterUser := None;
      return Pass;
    }
  }
}
