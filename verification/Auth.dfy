/** Users, smart cards and machine settings shared by both authentication machines. */
module Auth {
  import opened Wrappers
  import opened Bits

  /** Milliseconds on the machine's clock. */
  type Time = int

  datatype User =
    | SystemAdministrator(jurisdiction: string)
    | ElectionManager(jurisdiction: string, electionHash: string)
    | PollWorker(jurisdiction: string, electionHash: string)
    | RaveVoter(commonAccessCardId: string)

  datatype Role = SystemAdministratorRole | ElectionManagerRole | PollWorkerRole | RaveVoterRole

  function RoleOf(user: User): (role: Role)
    ensures role == SystemAdministratorRole <==> user.SystemAdministrator?
    ensures role == ElectionManagerRole <==> user.ElectionManager?
    ensures role == PollWorkerRole <==> user.PollWorker?
    ensures role == RaveVoterRole <==> user.RaveVoter?
  {
    match user
    case SystemAdministrator(_) => SystemAdministratorRole
    case ElectionManager(_, _) => ElectionManagerRole
    case PollWorker(_, _) => PollWorkerRole
    case RaveVoter(_) => RaveVoterRole
  }

  function JurisdictionOf(user: User): (jurisdiction: Option<string>)
    ensures jurisdiction.None? <==> user.RaveVoter?
    ensures !user.RaveVoter? ==> jurisdiction == Some(user.jurisdiction)
  {
    match user
    case SystemAdministrator(j) => Some(j)
    case ElectionManager(j, _) => Some(j)
    case PollWorker(j, _) => Some(j)
    case RaveVoter(_) => None
  }

  /** `hasPin` is only meaningful for poll workers; other cards always have a PIN. */
  datatype CardDetails = CardDetails(user: User, numIncorrectPinAttempts: Option<nat>, hasPin: bool)

  datatype CardStatus = NoCard | CardError | UnknownError | Ready(cardDetails: Option<CardDetails>)

  datatype PinResponse = Correct | Incorrect(numIncorrectPinAttempts: nat) | PinError

  datatype MachineState = MachineState(
    arePollWorkerCardPinsEnabled: bool,
    electionHash: Option<string>,
    jurisdiction: Option<string>,
    numIncorrectPinAttemptsAllowed: Option<nat>,
    overallSessionTimeLimitHours: Option<nat>,
    startingCardLockoutDurationSeconds: Option<nat>)

  /** An optional string that is present and not empty. */
  predicate IsSet(o: Option<string>) {
    o.Some? && o.value != ""
  }

  const DEFAULT_ATTEMPTS_ALLOWED := 5
  const DEFAULT_LOCKOUT_SECONDS := 15
  const DEFAULT_SESSION_HOURS := 12

  function AttemptsAllowed(ms: MachineState): nat {
    match ms.numIncorrectPinAttemptsAllowed
    case None => DEFAULT_ATTEMPTS_ALLOWED
    case Some(n) => n
  }

  function LockoutSeconds(ms: MachineState): nat {
    match ms.startingCardLockoutDurationSeconds
    case None => DEFAULT_LOCKOUT_SECONDS
    case Some(n) => n
  }

  function SessionHours(ms: MachineState): nat {
    match ms.overallSessionTimeLimitHours
    case None => DEFAULT_SESSION_HOURS
    case Some(n) => n
  }

  function SessionEndTime(ms: MachineState, now: Time): Time {
    now + SessionHours(ms) * 3_600_000
  }

  function Attempts(reported: Option<nat>): nat {
    match reported
    case None => 0
    case Some(n) => n
  }

  /** When a card lockout that starts now will end, if the card is locked at all. */
  function LockoutEndTime(ms: MachineState, numIncorrectPinAttempts: Option<nat>, now: Time): Option<Time> {
    var attempts, allowed := Attempts(numIncorrectPinAttempts), AttemptsAllowed(ms);
    var remaining := if allowed > attempts then allowed - attempts else 0;
    if remaining > 0 then None
    else Some(now + LockoutSeconds(ms) * Pow2(attempts - allowed) * 1000)
  }

  /** No lockout before the allowance is spent, the starting one then, and twice as long each time. */
  lemma LockoutDoubles(ms: MachineState, attempts: nat, now: Time)
    ensures LockoutEndTime(ms, Some(attempts), now).None? <==> attempts < AttemptsAllowed(ms)
    ensures LockoutEndTime(ms, Some(AttemptsAllowed(ms)), now) == Some(now + LockoutSeconds(ms) * 1000)
    ensures attempts >= AttemptsAllowed(ms) ==>
              (LockoutEndTime(ms, Some(attempts + 1), now).value - now
               == 2 * (LockoutEndTime(ms, Some(attempts), now).value - now))
  {
    assert Pow2(0) == 1;
    if attempts >= AttemptsAllowed(ms) {
      var s, p := LockoutSeconds(ms), Pow2(attempts - AttemptsAllowed(ms));
      assert s * (2 * p) * 1000 == 2 * (s * p * 1000);
    }
  }

  /**
   With nothing set, a session is twelve hours, there is no lockout before attempts 1 to 5, and
   15 seconds, 30 and so on before attempts 6 to 15, the last of them 7680 seconds.
   */
  lemma Defaults(ms: MachineState, now: Time)
    requires ms.overallSessionTimeLimitHours == None
    requires ms.numIncorrectPinAttemptsAllowed == None && ms.startingCardLockoutDurationSeconds == None
    ensures SessionEndTime(ms, now) == now + 12 * 60 * 60 * 1000
    ensures LockoutEndTime(ms, None, now) == LockoutEndTime(ms, Some(0), now) == LockoutEndTime(ms, Some(4), now) == None
    ensures LockoutEndTime(ms, Some(5), now) == Some(now + 15 * 1000)
    ensures LockoutEndTime(ms, Some(6), now) == Some(now + 30 * 1000)
    ensures LockoutEndTime(ms, Some(14), now) == Some(now + 7680 * 1000)
  {
    assert Pow2(0) == 1 && Pow2(1) == 2 && Pow2(9) == 512;
  }

  /** Settings that are set take the place of the defaults. */
  lemma SettingsApply(ms: MachineState, now: Time, hours: nat, allowed: nat, seconds: nat)
    requires ms.overallSessionTimeLimitHours == Some(hours)
    requires ms.numIncorrectPinAttemptsAllowed == Some(allowed) && ms.startingCardLockoutDurationSeconds == Some(seconds)
    ensures SessionEndTime(ms, now) == now + hours * 60 * 60 * 1000
    ensures forall attempts: nat :: LockoutEndTime(ms, Some(attempts), now).None? <==> attempts < allowed
    ensures LockoutEndTime(ms, Some(allowed), now) == Some(now + seconds * 1000)
  {
    assert Pow2(0) == 1;
  }

  // ---- one physical card and the driver that reports on it

  /** A programmed card: who it belongs to and the PIN it checks. */
  datatype ProgrammedCard = ProgrammedCard(user: User, hasPin: bool, pin: string)

  predicate IsPinless(card: ProgrammedCard) {
    card.user.PollWorker? && !card.hasPin
  }

  /** The driver's cached status and the card's own count of wrong PINs. */
  datatype Driver = Driver(status: CardStatus, wrongPins: nat)

  const MAX_NUM_INCORRECT_PIN_ATTEMPTS := 15

  /** How far the exchange with the card gets: answered, or lost before or after the card acts. */
  datatype Fate = Answered | LostBefore | LostAfter

  /** The details the driver reads when the card is inserted. */
  function ReadDetails(card: ProgrammedCard, wrongPins: nat): CardDetails {
    CardDetails(card.user, if IsPinless(card) || wrongPins == 0 then None else Some(wrongPins), card.hasPin)
  }

  function WithAttempts(status: CardStatus, attempts: Option<nat>): CardStatus {
    match status
    case Ready(Some(details)) => Ready(Some(details.(numIncorrectPinAttempts := attempts)))
    case _ => status
  }

  /** Whether the card itself compares the PIN. */
  predicate Reaches(d: Driver, fate: Fate) {
    d.status.Ready? && fate != LostBefore && d.wrongPins < MAX_NUM_INCORRECT_PIN_ATTEMPTS
  }

  function DriverCheckPin(card: ProgrammedCard, d: Driver, pin: string, fate: Fate): (Driver, PinResponse) {
    if !Reaches(d, fate) then (d, PinError)
    else
      var wrongPins := if pin == card.pin then 0 else d.wrongPins + 1;
      if fate == LostAfter then (d.(wrongPins := wrongPins), PinError)
      else if wrongPins == 0 then (Driver(WithAttempts(d.status, None), 0), Correct)
      else (Driver(WithAttempts(d.status, Some(wrongPins)), wrongPins), Incorrect(wrongPins))
  }

  /** The card interface: one card seen through its driver. */
  class Card {
    const card: ProgrammedCard
    var driver: Driver

    constructor (card: ProgrammedCard)
      ensures this.card == card && driver == Driver(NoCard, 0)
    {
      this.card := card;
      driver := Driver(NoCard, 0);
    }

    method GetCardStatus() returns (status: CardStatus)
      ensures status == driver.status
    {
      status := driver.status;
    }

    /**
     The right PIN clears the card's counter and a wrong one adds to it, whether or not the answer
     arrives; an answer leaves the cached count equal to the card's, and anything else leaves it alone.
     */
    method CheckPin(pin: string, fate: Fate) returns (response: PinResponse)
      modifies this
      ensures (driver, response) == DriverCheckPin(card, old(driver), pin, fate)
      ensures driver.wrongPins
           == if !Reaches(old(driver), fate) then old(driver).wrongPins
              else if pin == card.pin then 0 else old(driver).wrongPins + 1
      ensures old(driver).wrongPins >= 15 || !old(driver).status.Ready? || fate == LostBefore ==> response == PinError
      ensures old(driver).wrongPins < 15 && old(driver).status.Ready? && fate == Answered ==> response != PinError
      ensures response == Correct <==> Reaches(old(driver), fate) && fate == Answered && pin == card.pin
      ensures response.Incorrect? <==> Reaches(old(driver), fate) && fate == Answered && pin != card.pin
      ensures response.Incorrect? ==> response.numIncorrectPinAttempts == driver.wrongPins
      ensures response == PinError ==> driver.status == old(driver).status
      ensures response != PinError && driver.status.Ready? && driver.status.cardDetails.Some? ==>
                Attempts(driver.status.cardDetails.value.numIncorrectPinAttempts) == driver.wrongPins
    {
      if !Reaches(driver, fate) {
        return PinError;
      }
      driver := driver.(wrongPins := if pin == card.pin then 0 else driver.wrongPins + 1);
      if fate == LostAfter {
        return PinError;
      }
      if pin != card.pin {
        driver := driver.(status := WithAttempts(driver.status, Some(driver.wrongPins)));
        return Incorrect(driver.wrongPins);
      }
      driver := driver.(status := WithAttempts(driver.status, None));
      return Correct;
    }
  }

  /** The card's count and what the driver knows of it part ways exactly when the answer to a PIN is lost. */
  lemma CountKnownExactly(card: ProgrammedCard, d: Driver, pin: string, fate: Fate)
    requires KnowsCount(d) && Reaches(d, fate)
    ensures KnowsCount(DriverCheckPin(card, d, pin, fate).0)
       <==> fate == Answered || (pin == card.pin && d.wrongPins == 0)
  {
  }

  /** Reading a card tells the driver the card's count, unless the card is used without a PIN. */
  lemma ReadKnowsCount(card: ProgrammedCard, wrongPins: nat)
    ensures var details := ReadDetails(card, wrongPins);
            && details.user == card.user && details.hasPin == card.hasPin
            && Attempts(details.numIncorrectPinAttempts) == (if card.user.PollWorker? && !card.hasPin then 0 else wrongPins)
  {
  }

  /** The driver has read a card, and the count it cached is the card's. */
  predicate KnowsCount(d: Driver) {
    && d.status.Ready? && d.status.cardDetails.Some?
    && Attempts(d.status.cardDetails.value.numIncorrectPinAttempts) == d.wrongPins
  }
}
