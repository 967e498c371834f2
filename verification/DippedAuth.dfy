/**
 Authentication with a card that is inserted, unlocked and removed again: the
 transition function and the object whose methods follow it.
 */
module DippedAuth {
  import opened Wrappers
  import opened Auth

  datatype LoggedOutReason =
    | CardErrorReason
    | ElectionManagerWrongElection
    | InvalidUserOnCard
    | MachineLocked
    | MachineNotConfigured
    | UserRoleNotAllowed

  datatype ProgrammableCard = NotReady(status: CardStatus) | ReadyFor(programmedUser: Option<User>)

  datatype AuthStatus =
    | LoggedOut(reason: LoggedOutReason, cardUserRole: Option<Role>)
    | CheckingPin(user: User, error: bool, lockedOutUntil: Option<Time>, wrongPinEnteredAt: Option<Time>)
    | RemoveCard(user: User, sessionExpiresAt: Time)
    | LoggedIn(user: User, sessionExpiresAt: Time, programmableCard: Option<ProgrammableCard>)

  const SIGNED_OUT := LoggedOut(MachineLocked, None)

  datatype Action =
    | CheckCardReader(cardStatus: CardStatus)
    | CheckPinAction(response: PinResponse)
    | LogOutAction
    | UpdateSessionExpiryAction(sessionExpiresAt: Time)

  datatype Config = Config(allowElectionManagersToAccessUnconfiguredMachines: bool, skipPinEntry: bool)

  /** Cards of another jurisdiction, or with the wrong kind of PIN, count as unprogrammed. */
  function ToProgrammableCard(ms: MachineState, cardStatus: CardStatus): ProgrammableCard {
    match cardStatus
    case Ready(None) => ReadyFor(None)
    case Ready(Some(details)) =>
      if JurisdictionOf(details.user) != ms.jurisdiction
         || (details.user.PollWorker? && details.hasPin != ms.arePollWorkerCardPinsEnabled)
      then ReadyFor(None)
      else ReadyFor(Some(details.user))
    case _ => NotReady(cardStatus)
  }

  function ValidateCard(cfg: Config, ms: MachineState, details: Option<CardDetails>): Result<CardDetails, LoggedOutReason> {
    if details.None? then Err(InvalidUserOnCard)
    else
      var user := details.value.user;
      if IsSet(ms.jurisdiction) && JurisdictionOf(user) != ms.jurisdiction then Err(InvalidUserOnCard)
      else match user
        case SystemAdministrator(_) => Ok(details.value)
        case ElectionManager(_, hash) =>
          if !IsSet(ms.electionHash) then
            (if cfg.allowElectionManagersToAccessUnconfiguredMachines then Ok(details.value) else Err(MachineNotConfigured))
          else if ms.electionHash != Some(hash) then Err(ElectionManagerWrongElection)
          else Ok(details.value)
        case _ => Err(UserRoleNotAllowed)
  }

  /** An expired session counts as signed out before anything else happens. */
  function Current(auth: AuthStatus, now: Time): AuthStatus {
    if auth.LoggedIn? && now >= auth.sessionExpiresAt then SIGNED_OUT else auth
  }

  function OnPoll(cfg: Config, ms: MachineState, current: AuthStatus, cardStatus: CardStatus, now: Time): AuthStatus {
    match current
    case LoggedOut(_, _) =>
      (match cardStatus
       case CardError => LoggedOut(CardErrorReason, None)
       case Ready(cardDetails) =>
         (match ValidateCard(cfg, ms, cardDetails)
          case Err(reason) =>
            LoggedOut(reason, if cardDetails.Some? then Some(RoleOf(cardDetails.value.user)) else None)
          case Ok(details) =>
            if cfg.skipPinEntry then RemoveCard(details.user, SessionEndTime(ms, now))
            else CheckingPin(details.user, false, LockoutEndTime(ms, details.numIncorrectPinAttempts, now), None))
       case _ => SIGNED_OUT)
    case CheckingPin(_, _, _, _) => if cardStatus.NoCard? then SIGNED_OUT else current
    case RemoveCard(user, sessionExpiresAt) =>
      if !cardStatus.NoCard? then current
      else
        LoggedIn(user, sessionExpiresAt,
                 if user.SystemAdministrator? then Some(ToProgrammableCard(ms, cardStatus)) else None)
    case LoggedIn(user, _, _) =>
      if user.SystemAdministrator? then current.(programmableCard := Some(ToProgrammableCard(ms, cardStatus)))
      else current
  }

  function Determine(cfg: Config, ms: MachineState, auth: AuthStatus, action: Action, now: Time): AuthStatus {
    var current := Current(auth, now);
    match action
    case CheckCardReader(cardStatus) => OnPoll(cfg, ms, current, cardStatus, now)
    case CheckPinAction(response) =>
      if !current.CheckingPin? then current
      else (match response
            case Correct => RemoveCard(current.user, SessionEndTime(ms, now))
            case Incorrect(attempts) =>
              CheckingPin(current.user, false, LockoutEndTime(ms, Some(attempts), now), Some(now))
            case PinError => current.(error := true))
    case LogOutAction => SIGNED_OUT
    case UpdateSessionExpiryAction(sessionExpiresAt) =>
      if current.RemoveCard? || current.LoggedIn? then current.(sessionExpiresAt := sessionExpiresAt) else current
  }

  predicate IsLockedOut(auth: AuthStatus, now: Time) {
    auth.CheckingPin? && auth.lockedOutUntil.Some? && now < auth.lockedOutUntil.value
  }

  // ---- the machine as a fold over events

  datatype Event = Event(ms: MachineState, action: Action, now: Time)

  function Run(cfg: Config, auth: AuthStatus, es: seq<Event>): AuthStatus {
    if es == [] then auth
    else
      var last := es[|es| - 1];
      Determine(cfg, last.ms, Run(cfg, auth, es[..|es| - 1]), last.action, last.now)
  }

  // ---- the object

  class DippedSmartCardAuth {
    var authStatus: AuthStatus
    const card: Card
    const config: Config

    constructor (card: Card, config: Config)
      ensures this.card == card && this.config == config && authStatus == SIGNED_OUT
    {
      authStatus := SIGNED_OUT;
      this.card := card;
      this.config := config;
    }

    method UpdateAuthStatus(ms: MachineState, action: Action, now: Time)
      modifies this
      ensures authStatus == Run(config, old(authStatus), [Event(ms, action, now)])
    {
      assert [Event(ms, action, now)][..0] == [];
      authStatus := Determine(config, ms, authStatus, action, now);
    }

    method CheckCardReaderAndUpdateAuthStatus(ms: MachineState, now: Time)
      modifies this
      ensures authStatus == Run(config, old(authStatus), [Event(ms, CheckCardReader(card.driver.status), now)])
    {
      var cardStatus := card.GetCardStatus();
      UpdateAuthStatus(ms, CheckCardReader(cardStatus), now);
    }

    method GetAuthStatus(ms: MachineState, now: Time) returns (auth: AuthStatus)
      modifies this
      ensures authStatus == Run(config, old(authStatus), [Event(ms, CheckCardReader(card.driver.status), now)])
      ensures auth == authStatus
    {
      CheckCardReaderAndUpdateAuthStatus(ms, now);
      auth := authStatus;
    }

    /** While locked out, a PIN never reaches the card and only the poll can change the status. */
    method CheckPin(ms: MachineState, pin: string, fate: Fate, poll: Time, gate: Time, answer: Time)
      modifies this, card
      ensures var polled := Run(config, old(authStatus), [Event(ms, CheckCardReader(old(card.driver.status)), poll)]);
              if polled.CheckingPin? && polled.lockedOutUntil.Some? && gate < polled.lockedOutUntil.value then card.driver == old(card.driver) && authStatus == polled
              else
                var (driver, response) := DriverCheckPin(card.card, old(card.driver), pin, fate);
                && card.driver == driver
                && authStatus == Run(config, polled, [Event(ms, CheckPinAction(response), answer)])
      ensures IsLockedOut(old(authStatus), gate) && !old(card.driver.status).NoCard? ==>
                authStatus == old(authStatus) && card.driver == old(card.driver)
    {
      assert [Event(ms, CheckCardReader(card.driver.status), poll)][..0] == [];
      CheckCardReaderAndUpdateAuthStatus(ms, poll);
      if IsLockedOut(authStatus, gate) {
        return;
      }
      var response := card.CheckPin(pin, fate);
      UpdateAuthStatus(ms, CheckPinAction(response), answer);
    }

    method LogOut(ms: MachineState, now: Time)
      modifies this
      ensures authStatus == Run(config, old(authStatus), [Event(ms, LogOutAction, now)])
    {
      UpdateAuthStatus(ms, LogOutAction, now);
    }

    method UpdateSessionExpiry(ms: MachineState, sessionExpiresAt: Time, poll: Time, now: Time)
      modifies this
      ensures var polled := Run(config, old(authStatus), [Event(ms, CheckCardReader(card.driver.status), poll)]);
              authStatus == Run(config, polled, [Event(ms, UpdateSessionExpiryAction(sessionExpiresAt), now)])
    {
      CheckCardReaderAndUpdateAuthStatus(ms, poll);
      UpdateAuthStatus(ms, UpdateSessionExpiryAction(sessionExpiresAt), now);
    }
  }
}
