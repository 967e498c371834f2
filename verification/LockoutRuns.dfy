/**
 How far apart wrong PINs are, over whole runs with one card: a machine of either kind, the
 driver's cached status and the card's own counter together.
 */
module LockoutRuns {
  import opened Wrappers
  import opened Bits
  import opened Auth
  import InsertedAuth
  import DippedAuth

  // ---- either kind of machine

  datatype Machine =
    | Inserted(insertedConfig: InsertedAuth.Config, inserted: InsertedAuth.AuthStatus)
    | Dipped(dippedConfig: DippedAuth.Config, dipped: DippedAuth.AuthStatus)
  {
    predicate SignedOut() {
      match this
      case Inserted(_, auth) => auth == InsertedAuth.SIGNED_OUT
      case Dipped(_, auth) => auth == DippedAuth.SIGNED_OUT
    }

    predicate SkipsPin() {
      match this
      case Inserted(cfg, _) => cfg.skipPinEntry
      case Dipped(cfg, _) => cfg.skipPinEntry
    }

    /** Waiting for a PIN. */
    predicate Prompting() {
      match this
      case Inserted(_, auth) => auth.CheckingPin?
      case Dipped(_, auth) => auth.CheckingPin?
    }

    function PromptUser(): User
      requires Prompting()
    {
      match this
      case Inserted(_, auth) => auth.user
      case Dipped(_, auth) => auth.user
    }

    function LockedUntil(): Option<Time>
      requires Prompting()
    {
      match this
      case Inserted(_, auth) => auth.lockedOutUntil
      case Dipped(_, auth) => auth.lockedOutUntil
    }

    predicate ShowsError()
      requires Prompting()
    {
      match this
      case Inserted(_, auth) => auth.error
      case Dipped(_, auth) => auth.error
    }

    predicate LockedOut(now: Time) {
      match this
      case Inserted(_, auth) => InsertedAuth.IsLockedOut(auth, now)
      case Dipped(_, auth) => DippedAuth.IsLockedOut(auth, now)
    }

    function AfterPoll(ms: MachineState, status: CardStatus, now: Time): Machine {
      match this
      case Inserted(cfg, auth) => Inserted(cfg, InsertedAuth.Determine(cfg, ms, auth, InsertedAuth.CheckCardReader(status), now))
      case Dipped(cfg, auth) => Dipped(cfg, DippedAuth.Determine(cfg, ms, auth, DippedAuth.CheckCardReader(status), now))
    }

    function AfterPin(ms: MachineState, response: PinResponse, now: Time): Machine {
      match this
      case Inserted(cfg, auth) => Inserted(cfg, InsertedAuth.Determine(cfg, ms, auth, InsertedAuth.CheckPinAction(response), now))
      case Dipped(cfg, auth) => Dipped(cfg, DippedAuth.Determine(cfg, ms, auth, DippedAuth.CheckPinAction(response), now))
    }

    function AfterLogOut(ms: MachineState, now: Time): Machine {
      match this
      case Inserted(cfg, auth) => Inserted(cfg, InsertedAuth.Determine(cfg, ms, auth, InsertedAuth.LogOutAction, now))
      case Dipped(cfg, auth) => Dipped(cfg, DippedAuth.Determine(cfg, ms, auth, DippedAuth.LogOutAction, now))
    }

    function AfterExpiry(ms: MachineState, sessionExpiresAt: Time, now: Time): Machine {
      match this
      case Inserted(cfg, auth) =>
        Inserted(cfg, InsertedAuth.Determine(cfg, ms, auth, InsertedAuth.UpdateSessionExpiryAction(sessionExpiresAt), now))
      case Dipped(cfg, auth) =>
        Dipped(cfg, DippedAuth.Determine(cfg, ms, auth, DippedAuth.UpdateSessionExpiryAction(sessionExpiresAt), now))
    }
  }

  // ---- what both machines do with a prompt

  lemma PollPrompts(m: Machine, ms: MachineState, status: CardStatus, now: Time)
    requires !m.SkipsPin() && m.AfterPoll(ms, status, now).Prompting()
    ensures var after := m.AfterPoll(ms, status, now);
            if m.Prompting() then after == m
            else
              && status.Ready? && status.cardDetails.Some?
              && var details := status.cardDetails.value;
                 && after.LockedUntil() == LockoutEndTime(ms, details.numIncorrectPinAttempts, now)
                 && (details.user.PollWorker? ==> details.hasPin)
                 && !after.ShowsError()
  {
    hide LockoutEndTime;
  }

  lemma PinPrompts(m: Machine, ms: MachineState, response: PinResponse, now: Time)
    ensures var after := m.AfterPin(ms, response, now);
            && after.SkipsPin() == m.SkipsPin()
            && (after.Prompting() <==> m.Prompting() && response != Correct)
            && (after.Prompting() && response.Incorrect? ==>
                  after.LockedUntil() == LockoutEndTime(ms, Some(response.numIncorrectPinAttempts), now))
            && (after.Prompting() && response == PinError ==> after.LockedUntil() == m.LockedUntil() && after.ShowsError())
  {
    hide LockoutEndTime;
  }

  lemma OthersDoNotPrompt(m: Machine, ms: MachineState, sessionExpiresAt: Time, now: Time)
    ensures m.AfterLogOut(ms, now).SignedOut() && !m.AfterLogOut(ms, now).Prompting()
    ensures m.AfterExpiry(ms, sessionExpiresAt, now).Prompting() ==> m.AfterExpiry(ms, sessionExpiresAt, now) == m
  {
  }

  // ---- runs

  datatype Occurrence =
    | Insert(readable: bool)
    | Remove
    | Fault(status: CardStatus)
    | Poll(ms: MachineState, poll: Time)
    | Enter(ms: MachineState, poll: Time, pin: string, fate: Fate, gate: Time, answer: Time)
    | LogOut(ms: MachineState, now: Time)
    | UpdateExpiry(ms: MachineState, poll: Time, now: Time, sessionExpiresAt: Time)

  /**
   Since the card last accepted a PIN, `countedAt` lists the times at which the wrong PINs the card
   has counted were entered, and `wrongAt` those among them that were entered at a prompt and answered.
   */
  datatype World = World(machine: Machine, driver: Driver, wrongAt: seq<Time>, countedAt: seq<Time>, clock: Time)

  function Outset(m: Machine): World {
    World(m, Driver(NoCard, 0), [], [], 0)
  }

  function Polled(w: World, ms: MachineState, poll: Time): World {
    w.(machine := w.machine.AfterPoll(ms, w.driver.status, poll), clock := poll)
  }

  /** The card has counted a wrong PIN. */
  predicate Counts(card: ProgrammedCard, w: World, pin: string, fate: Fate) {
    Reaches(w.driver, fate) && pin != card.pin
  }

  /** Sending the PIN to the card and handling its answer. */
  function Checked(card: ProgrammedCard, w: World, ms: MachineState, pin: string, fate: Fate, gate: Time, answer: Time): World {
    var (driver, response) := DriverCheckPin(card, w.driver, pin, fate);
    var accepted := Reaches(w.driver, fate) && pin == card.pin;
    World(
      w.machine.AfterPin(ms, response, answer),
      driver,
      if accepted then [] else if response.Incorrect? && w.machine.Prompting() then w.wrongAt + [gate] else w.wrongAt,
      if accepted then [] else if Counts(card, w, pin, fate) then w.countedAt + [gate] else w.countedAt,
      answer)
  }

  function Step(card: ProgrammedCard, w: World, o: Occurrence): World {
    match o
    case Insert(readable) =>
      w.(driver := Driver(Ready(if readable then Some(ReadDetails(card, w.driver.wrongPins)) else None), w.driver.wrongPins))
    case Remove => w.(driver := Driver(NoCard, w.driver.wrongPins))
    case Fault(status) => if status.Ready? then w else w.(driver := Driver(status, w.driver.wrongPins))
    case Poll(ms, poll) => Polled(w, ms, poll)
    case Enter(ms, poll, pin, fate, gate, answer) =>
      var polled := Polled(w, ms, poll);
      if polled.machine.LockedOut(gate) then polled.(clock := gate)
      else Checked(card, polled, ms, pin, fate, gate, answer)
    case LogOut(ms, now) => w.(machine := w.machine.AfterLogOut(ms, now), clock := now)
    case UpdateExpiry(ms, poll, now, sessionExpiresAt) =>
      var polled := Polled(w, ms, poll);
      polled.(machine := polled.machine.AfterExpiry(ms, sessionExpiresAt, now), clock := now)
  }

  function RunWorld(card: ProgrammedCard, w: World, os: seq<Occurrence>): World
    decreases |os|
  {
    if os == [] then w else RunWorld(card, Step(card, w, os[0]), os[1..])
  }

  /** The clock never goes back. */
  predicate Timely(card: ProgrammedCard, w: World, os: seq<Occurrence>)
    decreases |os|
  {
    os != [] ==> OnTime(w.clock, os[0]) && Timely(card, Step(card, w, os[0]), os[1..])
  }

  predicate OnTime(clock: Time, o: Occurrence) {
    match o
    case Poll(_, poll) => clock <= poll
    case Enter(_, poll, _, _, gate, answer) => clock <= poll <= gate <= answer
    case LogOut(_, now) => clock <= now
    case UpdateExpiry(_, poll, now, _) => clock <= poll <= now
    case _ => true
  }

  /** The lockout settings are the same throughout; the other settings may change. */
  predicate Settings(os: seq<Occurrence>, allowed: nat, seconds: nat) {
    forall o :: o in os && (o.Poll? || o.Enter? || o.LogOut? || o.UpdateExpiry?) ==>
      AttemptsAllowed(o.ms) == allowed && LockoutSeconds(o.ms) == seconds
  }

  /** The `e`-th lockout. */
  function Gap(seconds: nat, e: nat): nat {
    seconds * Pow2(e) * 1000
  }

  lemma GapMonotone(seconds: nat, d: nat, e: nat)
    requires d <= e
    ensures Gap(seconds, d) <= Gap(seconds, e)
  {
    Pow2Monotone(d, e);
    assert seconds * Pow2(d) <= seconds * Pow2(e);
  }

  lemma LockoutIsGap(ms: MachineState, attempts: nat, now: Time)
    requires attempts >= AttemptsAllowed(ms)
    ensures LockoutEndTime(ms, Some(attempts), now) == Some(now + Gap(LockoutSeconds(ms), attempts - AttemptsAllowed(ms)))
  {
  }

  lemma GapPositive(seconds: nat, e: nat)
    requires seconds > 0
    ensures Gap(seconds, e) > 0
  {
    assert seconds * Pow2(e) > 0;
  }

  // ---- the invariant

  predicate Spaced(wrongAt: seq<Time>, allowed: nat, seconds: nat)
    requires allowed >= 1
  {
    forall j :: allowed <= j < |wrongAt| ==> wrongAt[j] - wrongAt[j - 1] >= Gap(seconds, j - allowed)
  }

  predicate DetailsMatch(card: ProgrammedCard, w: World) {
    w.driver.status.Ready? && w.driver.status.cardDetails.Some? ==>
      var details := w.driver.status.cardDetails.value;
      && details.user == card.user && details.hasPin == card.hasPin
      && (!IsPinless(card) ==> Attempts(details.numIncorrectPinAttempts) >= |w.wrongAt|)
  }

  predicate Gated(card: ProgrammedCard, w: World, allowed: nat, seconds: nat)
    requires allowed >= 1
  {
    w.machine.Prompting() ==>
      && !IsPinless(card)
      && (|w.wrongAt| >= allowed ==>
            && w.machine.LockedUntil().Some?
            && w.machine.LockedUntil().value >= w.wrongAt[|w.wrongAt| - 1] + Gap(seconds, |w.wrongAt| - allowed))
  }

  predicate Inv(card: ProgrammedCard, w: World, allowed: nat, seconds: nat)
    requires allowed >= 1
  {
    && !w.machine.SkipsPin()
    && Spaced(w.wrongAt, allowed, seconds)
    && Gated(card, w, allowed, seconds)
    && DetailsMatch(card, w)
    && |w.wrongAt| <= |w.countedAt| == w.driver.wrongPins
    && (w.wrongAt != [] ==> w.wrongAt[|w.wrongAt| - 1] <= w.clock)
  }

  lemma PolledKeepsInv(card: ProgrammedCard, w: World, ms: MachineState, poll: Time, allowed: nat, seconds: nat)
    requires allowed >= 1 && Inv(card, w, allowed, seconds) && w.clock <= poll
    requires AttemptsAllowed(ms) == allowed && LockoutSeconds(ms) == seconds
    ensures Inv(card, Polled(w, ms, poll), allowed, seconds)
  {
    var after := w.machine.AfterPoll(ms, w.driver.status, poll);
    if after.Prompting() {
      PollPrompts(w.machine, ms, w.driver.status, poll);
      if !w.machine.Prompting() && |w.wrongAt| >= allowed {
        var attempts := Attempts(w.driver.status.cardDetails.value.numIncorrectPinAttempts);
        GapMonotone(seconds, |w.wrongAt| - allowed, attempts - allowed);
      }
    }
    hide Machine.AfterPoll, Gap;
  }

  lemma CheckedKeepsInv(card: ProgrammedCard, w: World, ms: MachineState, pin: string, fate: Fate,
                        gate: Time, answer: Time, allowed: nat, seconds: nat)
    requires allowed >= 1 && Inv(card, w, allowed, seconds) && w.clock <= gate <= answer
    requires AttemptsAllowed(ms) == allowed && LockoutSeconds(ms) == seconds
    requires !w.machine.LockedOut(gate)
    ensures Inv(card, Checked(card, w, ms, pin, fate, gate, answer), allowed, seconds)
  {
    var n, response := |w.wrongAt|, DriverCheckPin(card, w.driver, pin, fate).1;
    PinPrompts(w.machine, ms, response, answer);
    hide Machine.AfterPin, Gap;
    if response.Incorrect? && w.machine.Prompting() && n + 1 >= allowed {
      GapMonotone(seconds, n + 1 - allowed, w.driver.wrongPins + 1 - allowed);
      LockoutIsGap(ms, w.driver.wrongPins + 1, answer);
    }
    hide LockoutEndTime;
  }

  lemma StepKeepsInv(card: ProgrammedCard, w: World, o: Occurrence, allowed: nat, seconds: nat)
    requires allowed >= 1 && Inv(card, w, allowed, seconds)
    requires Settings([o], allowed, seconds) && OnTime(w.clock, o)
    ensures Inv(card, Step(card, w, o), allowed, seconds)
  {
    hide Machine.AfterPoll, Machine.AfterExpiry, Machine.AfterLogOut, Checked, Gap;
    assert o in [o];
    match o
    case Poll(ms, poll) =>
      PolledKeepsInv(card, w, ms, poll, allowed, seconds);
    case Enter(ms, poll, pin, fate, gate, answer) =>
      PolledKeepsInv(card, w, ms, poll, allowed, seconds);
      var polled := Polled(w, ms, poll);
      if !polled.machine.LockedOut(gate) {
        CheckedKeepsInv(card, polled, ms, pin, fate, gate, answer, allowed, seconds);
      }
    case LogOut(ms, now) =>
      OthersDoNotPrompt(w.machine, ms, 0, now);
      SameConfig(w.machine, ms, 0, now);
    case UpdateExpiry(ms, poll, now, sessionExpiresAt) =>
      PolledKeepsInv(card, w, ms, poll, allowed, seconds);
      OthersDoNotPrompt(Polled(w, ms, poll).machine, ms, sessionExpiresAt, now);
      SameConfig(Polled(w, ms, poll).machine, ms, sessionExpiresAt, now);
    case _ =>
  }

  lemma SameConfig(m: Machine, ms: MachineState, sessionExpiresAt: Time, now: Time)
    ensures m.AfterLogOut(ms, now).SkipsPin() == m.AfterExpiry(ms, sessionExpiresAt, now).SkipsPin() == m.SkipsPin()
  {
  }

  lemma {:induction false} RunKeepsInv(card: ProgrammedCard, w: World, os: seq<Occurrence>, allowed: nat, seconds: nat)
    requires allowed >= 1 && Inv(card, w, allowed, seconds)
    requires Settings(os, allowed, seconds) && Timely(card, w, os)
    ensures Inv(card, RunWorld(card, w, os), allowed, seconds)
    decreases |os|
  {
    hide Step, Inv;
    if os != [] {
      assert os[0] in os;
      StepKeepsInv(card, w, os[0], allowed, seconds);
      RunKeepsInv(card, Step(card, w, os[0]), os[1..], allowed, seconds);
    }
  }

  lemma {:induction false} SpacedApart(wrongAt: seq<Time>, allowed: nat, seconds: nat, k: nat)
    requires 1 <= allowed <= k <= |wrongAt| && Spaced(wrongAt, allowed, seconds)
    ensures wrongAt[k - 1] - wrongAt[allowed - 1] >= seconds * (Pow2(k - allowed) - 1) * 1000
  {
    if k > allowed {
      SpacedApart(wrongAt, allowed, seconds, k - 1);
      var p := Pow2(k - 1 - allowed);
      assert seconds * (p - 1) * 1000 + seconds * p * 1000 == seconds * (2 * p - 1) * 1000;
    } else {
      assert Pow2(0) == 1;
    }
  }

  /**
   In every run of either machine with one card, through removals, re-insertions, log-outs,
   unreadable cards and lost exchanges, the answered wrong PIN that spends the allowance and the
   k-th one since the card last accepted a PIN are at least `seconds * (2^(k - allowed) - 1)`
   seconds apart.
   */
  lemma WrongPinsAreSpaced(m: Machine, card: ProgrammedCard, os: seq<Occurrence>, allowed: nat, seconds: nat, k: nat)
    requires m.SignedOut() && !m.SkipsPin() && allowed >= 1
    requires Settings(os, allowed, seconds) && Timely(card, Outset(m), os)
    requires allowed <= k <= |RunWorld(card, Outset(m), os).wrongAt|
    ensures var wrongAt := RunWorld(card, Outset(m), os).wrongAt;
            wrongAt[k - 1] - wrongAt[allowed - 1] >= seconds * (Pow2(k - allowed) - 1) * 1000
  {
    RunKeepsInv(card, Outset(m), os, allowed, seconds);
    SpacedApart(RunWorld(card, Outset(m), os).wrongAt, allowed, seconds, k);
  }

  // ---- when the bound holds of every PIN the card counts

  /** The card counts a wrong PIN that was not entered at a prompt, or whose answer is lost. */
  predicate Unseen(card: ProgrammedCard, w: World, o: Occurrence) {
    o.Enter? &&
    var polled := Polled(w, o.ms, o.poll);
    !polled.machine.LockedOut(o.gate) && Counts(card, polled, o.pin, o.fate)
    && !(polled.machine.Prompting() && o.fate == Answered)
  }

  predicate NothingUnseen(card: ProgrammedCard, w: World, os: seq<Occurrence>)
    decreases |os|
  {
    os != [] ==> !Unseen(card, w, os[0]) && NothingUnseen(card, Step(card, w, os[0]), os[1..])
  }

  lemma {:induction false} AllCountedSeen(card: ProgrammedCard, w: World, os: seq<Occurrence>)
    requires w.countedAt == w.wrongAt && NothingUnseen(card, w, os)
    ensures RunWorld(card, w, os).countedAt == RunWorld(card, w, os).wrongAt
    decreases |os|
  {
    hide Machine.AfterPoll, Machine.AfterPin, Machine.AfterExpiry, Machine.AfterLogOut;
    if os != [] {
      AllCountedSeen(card, Step(card, w, os[0]), os[1..]);
    }
  }

  /** In every run in which no wrong PIN is counted unseen, all that the card has counted are spaced. */
  lemma CountedPinsAreSpaced(m: Machine, card: ProgrammedCard, os: seq<Occurrence>, allowed: nat, seconds: nat)
    requires m.SignedOut() && !m.SkipsPin() && allowed >= 1
    requires Settings(os, allowed, seconds) && Timely(card, Outset(m), os)
    requires NothingUnseen(card, Outset(m), os)
    ensures var w := RunWorld(card, Outset(m), os);
            Spaced(w.countedAt, allowed, seconds) && |w.countedAt| == w.driver.wrongPins
  {
    RunKeepsInv(card, Outset(m), os, allowed, seconds);
    AllCountedSeen(card, Outset(m), os);
  }

  /**
   And this is the exact condition, PIN by PIN: once the allowance is spent, a counted wrong PIN
   holds the next one back for the lockout that is due exactly when it was entered at a prompt and
   answered. If it was not, nothing holds back a PIN entered at the same instant.
   */
  lemma HeldBackExactly(card: ProgrammedCard, w: World, ms: MachineState, pin: string, fate: Fate, gate: Time, answer: Time)
    requires Counts(card, w, pin, fate) && !w.machine.LockedOut(gate) && gate <= answer
    requires w.driver.wrongPins + 1 >= AttemptsAllowed(ms) && LockoutSeconds(ms) > 0
    ensures var after := Checked(card, w, ms, pin, fate, gate, answer);
            var due := Gap(LockoutSeconds(ms), after.driver.wrongPins - AttemptsAllowed(ms));
            && after.countedAt == w.countedAt + [gate]
            && ((forall t :: gate <= t < gate + due ==> after.machine.LockedOut(t)) <==> w.machine.Prompting() && fate == Answered)
            && (after.machine.LockedOut(gate) <==> w.machine.Prompting() && fate == Answered)
  {
    var after := Checked(card, w, ms, pin, fate, gate, answer);
    var due := Gap(LockoutSeconds(ms), after.driver.wrongPins - AttemptsAllowed(ms));
    GapPositive(LockoutSeconds(ms), after.driver.wrongPins - AttemptsAllowed(ms));
    PinPrompts(w.machine, ms, DriverCheckPin(card, w.driver, pin, fate).1, answer);
    hide Machine.AfterPin;
    assert after.machine.LockedOut(gate) <==> w.machine.Prompting() && fate == Answered;
    assert gate <= gate < gate + due;
  }

  // ---- PINs counted unseen

  /** An administrator's card, with "1" for a PIN. */
  const CARD := ProgrammedCard(SystemAdministrator("j"), true, "1")

  function WrongPin(ms: MachineState, fate: Fate, at: Time): Occurrence {
    Enter(ms, at, "2", fate, at, at)
  }

  lemma RunNext(card: ProgrammedCard, w: World, o: Occurrence, os: seq<Occurrence>)
    ensures RunWorld(card, w, [o] + os) == RunWorld(card, Step(card, w, o), os)
    ensures Timely(card, w, [o] + os) <==> OnTime(w.clock, o) && Timely(card, Step(card, w, o), os)
  {
    assert ([o] + os)[0] == o && ([o] + os)[1..] == os;
  }

  lemma LockoutOfOne(ms: MachineState, at: Time)
    requires AttemptsAllowed(ms) == 1
    ensures LockoutEndTime(ms, Some(1), at) == Some(at + Gap(LockoutSeconds(ms), 0))
    ensures LockoutEndTime(ms, None, at) == None
    ensures Gap(LockoutSeconds(ms), 0) == LockoutSeconds(ms) * 1000
  {
    assert Pow2(0) == 1;
  }

  /** The card is read and the first wrong PIN answered: the prompt is locked. */
  lemma FirstWrongPin(m: Machine, ms: MachineState)
    requires m.SignedOut() && !m.SkipsPin() && !IsSet(ms.jurisdiction) && AttemptsAllowed(ms) == 1
    ensures var w := Step(CARD, Step(CARD, Outset(m), Insert(true)), WrongPin(ms, Answered, 0));
            && w.driver == Driver(Ready(Some(CardDetails(CARD.user, Some(1), true))), 1)
            && w.countedAt == [0] && w.clock == 0 && !w.machine.SkipsPin()
            && w.machine.Prompting() && w.machine.LockedUntil() == Some(LockoutSeconds(ms) * 1000)
  {
    hide LockoutEndTime, Gap;
    LockoutOfOne(ms, 0);
  }

  /** A wrong PIN whose answer is lost is counted by the card and leaves the lockout as it was. */
  lemma LostPin(w: World, ms: MachineState, at: Time)
    requires w.machine.Prompting() && w.machine.LockedUntil() == Some(at) && !w.machine.SkipsPin() && !IsSet(ms.jurisdiction)
    requires w.driver == Driver(Ready(Some(CardDetails(CARD.user, Some(1), true))), 1)
    ensures var after := Step(CARD, w, WrongPin(ms, LostAfter, at));
            && after.driver == w.driver.(wrongPins := 2) && after.countedAt == w.countedAt + [at] && after.clock == at
            && after.machine.Prompting() && after.machine.LockedUntil() == Some(at) && !after.machine.SkipsPin()
  {
  }

  lemma AnsweredPin(w: World, ms: MachineState, at: Time)
    requires w.machine.Prompting() && w.machine.LockedUntil() == Some(at) && !w.machine.SkipsPin() && !IsSet(ms.jurisdiction)
    requires w.driver == Driver(Ready(Some(CardDetails(CARD.user, Some(1), true))), 2)
    ensures Step(CARD, w, WrongPin(ms, Answered, at)).countedAt == w.countedAt + [at]
  {
    hide LockoutEndTime;
  }

  /** On either machine: a lost answer lets the next wrong PIN follow at the same instant. */
  lemma LostAnswerIsNotSpaced(m: Machine, ms: MachineState)
    requires m.SignedOut() && !m.SkipsPin() && !IsSet(ms.jurisdiction)
    requires AttemptsAllowed(ms) == 1 && LockoutSeconds(ms) > 0
    ensures var t := LockoutSeconds(ms) * 1000;
            var os := [Insert(true)] + ([WrongPin(ms, Answered, 0)] + ([WrongPin(ms, LostAfter, t)] + ([WrongPin(ms, Answered, t)] + [])));
            && Timely(CARD, Outset(m), os)
            && RunWorld(CARD, Outset(m), os).countedAt == [0, t, t]
            && !Spaced([0, t, t], 1, LockoutSeconds(ms))
  {
    hide Step;
    var t := LockoutSeconds(ms) * 1000;
    var o1, o2, o3, o4 := Insert(true), WrongPin(ms, Answered, 0), WrongPin(ms, LostAfter, t), WrongPin(ms, Answered, t);
    var w1 := Step(CARD, Outset(m), o1);
    var w2 := Step(CARD, w1, o2);
    var w3 := Step(CARD, w2, o3);
    InsertKeepsClock(Outset(m));
    FirstWrongPin(m, ms);
    LostPin(w2, ms, t);
    AnsweredPin(w3, ms, t);
    RunNext(CARD, Outset(m), o1, [o2] + ([o3] + ([o4] + [])));
    RunNext(CARD, w1, o2, [o3] + ([o4] + []));
    RunNext(CARD, w2, o3, [o4] + []);
    RunNext(CARD, w3, o4, []);
    GapPositive(LockoutSeconds(ms), 1);
    assert [0, t, t][2] - [0, t, t][1] < Gap(LockoutSeconds(ms), 1);
  }

  lemma InsertKeepsClock(w: World)
    ensures Step(CARD, w, Insert(true)).clock == w.clock
  {
  }

  /**
   Nor does the error on the prompt tell: after a lost answer, a log-out and a poll bring back a
   prompt without one, locked by the count the driver cached, half as long as is due.
   */
  lemma StaleCountRelocks(m: Machine, ms: MachineState)
    requires m.SignedOut() && !m.SkipsPin() && !IsSet(ms.jurisdiction)
    requires AttemptsAllowed(ms) == 1
    ensures var t := LockoutSeconds(ms) * 1000;
            var os := [Insert(true)] + ([WrongPin(ms, Answered, 0)] + ([WrongPin(ms, LostAfter, t)] + ([LogOut(ms, t)] + ([Poll(ms, t)] + []))));
            var w := RunWorld(CARD, Outset(m), os);
            && Timely(CARD, Outset(m), os)
            && w.driver.wrongPins == 2 && w.machine.Prompting() && !w.machine.ShowsError()
            && w.machine.LockedUntil() == Some(t + Gap(LockoutSeconds(ms), 0))
            && Gap(LockoutSeconds(ms), 2 - AttemptsAllowed(ms)) == 2 * Gap(LockoutSeconds(ms), 0)
  {
    hide Step;
    var t := LockoutSeconds(ms) * 1000;
    var o1, o2, o3, o4, o5 := Insert(true), WrongPin(ms, Answered, 0), WrongPin(ms, LostAfter, t), LogOut(ms, t), Poll(ms, t);
    var w1 := Step(CARD, Outset(m), o1);
    var w2 := Step(CARD, w1, o2);
    var w3 := Step(CARD, w2, o3);
    var w4 := Step(CARD, w3, o4);
    InsertKeepsClock(Outset(m));
    FirstWrongPin(m, ms);
    LostPin(w2, ms, t);
    Relock(w3, ms, t);
    RunNext(CARD, Outset(m), o1, [o2] + ([o3] + ([o4] + ([o5] + []))));
    RunNext(CARD, w1, o2, [o3] + ([o4] + ([o5] + [])));
    RunNext(CARD, w2, o3, [o4] + ([o5] + []));
    RunNext(CARD, w3, o4, [o5] + []);
    RunNext(CARD, w4, o5, []);
    assert Pow2(1) == 2 * Pow2(0) && LockoutSeconds(ms) * (2 * Pow2(0)) * 1000 == 2 * (LockoutSeconds(ms) * Pow2(0) * 1000);
  }

  lemma Relock(w: World, ms: MachineState, at: Time)
    requires !w.machine.SkipsPin() && !IsSet(ms.jurisdiction) && AttemptsAllowed(ms) == 1
    requires w.driver == Driver(Ready(Some(CardDetails(CARD.user, Some(1), true))), 2)
    ensures var out := Step(CARD, w, LogOut(ms, at));
            var after := Step(CARD, out, Poll(ms, at));
            && out.clock == at && after.driver == w.driver
            && after.machine.Prompting() && !after.machine.ShowsError()
            && after.machine.LockedUntil() == Some(at + Gap(LockoutSeconds(ms), 0))
  {
    hide LockoutEndTime, Gap;
    LockoutOfOne(ms, at);
  }

  /** Past the prompt, with the card still in the reader. */
  predicate InUse(m: Machine, at: Time) {
    match m
    case Inserted(_, auth) => auth.LoggedIn? && at < auth.sessionExpiresAt
    case Dipped(_, auth) => auth.RemoveCard?
  }

  predicate CardIn(d: Driver) {
    d.status.Ready? && d.status.cardDetails.Some?
    && d.status.cardDetails.value.user == CARD.user && d.status.cardDetails.value.hasPin
  }

  lemma RightPin(m: Machine, ms: MachineState)
    requires m.SignedOut() && !m.SkipsPin() && !IsSet(ms.jurisdiction)
    requires AttemptsAllowed(ms) == 1 && SessionHours(ms) > 0
    ensures var w := Step(CARD, Step(CARD, Outset(m), Insert(true)), Enter(ms, 0, "1", Answered, 0, 0));
            && InUse(w.machine, 0) && CardIn(w.driver) && w.driver.wrongPins == 0 && w.countedAt == [] && w.clock == 0
  {
    hide LockoutEndTime;
    LockoutOfOne(ms, 0);
  }

  lemma WrongPinInUse(w: World, ms: MachineState)
    requires InUse(w.machine, 0) && CardIn(w.driver) && w.driver.wrongPins < 2 && !IsSet(ms.jurisdiction)
    ensures var after := Step(CARD, w, WrongPin(ms, Answered, 0));
            && InUse(after.machine, 0) && CardIn(after.driver) && after.driver.wrongPins == w.driver.wrongPins + 1
            && after.countedAt == w.countedAt + [0] && after.clock == 0
  {
    hide LockoutEndTime;
  }

  /** On either machine: a card in use past its prompt counts wrong PINs that nothing holds back. */
  lemma AwayFromPromptIsNotSpaced(m: Machine, ms: MachineState)
    requires m.SignedOut() && !m.SkipsPin() && !IsSet(ms.jurisdiction)
    requires AttemptsAllowed(ms) == 1 && LockoutSeconds(ms) > 0 && SessionHours(ms) > 0
    ensures var os := [Insert(true)] + ([Enter(ms, 0, "1", Answered, 0, 0)]
                      + ([WrongPin(ms, Answered, 0)] + ([WrongPin(ms, Answered, 0)] + [])));
            && Timely(CARD, Outset(m), os)
            && RunWorld(CARD, Outset(m), os).countedAt == [0, 0]
            && !Spaced([0, 0], 1, LockoutSeconds(ms))
  {
    hide Step;
    var o1, o2, o3 := Insert(true), Enter(ms, 0, "1", Answered, 0, 0), WrongPin(ms, Answered, 0);
    var w1 := Step(CARD, Outset(m), o1);
    var w2 := Step(CARD, w1, o2);
    var w3 := Step(CARD, w2, o3);
    InsertKeepsClock(Outset(m));
    RightPin(m, ms);
    WrongPinInUse(w2, ms);
    WrongPinInUse(w3, ms);
    RunNext(CARD, Outset(m), o1, [o2] + ([o3] + ([o3] + [])));
    RunNext(CARD, w1, o2, [o3] + ([o3] + []));
    RunNext(CARD, w2, o3, [o3] + []);
    RunNext(CARD, w3, o3, []);
    GapPositive(LockoutSeconds(ms), 0);
    assert [0, 0][1] - [0, 0][0] < Gap(LockoutSeconds(ms), 0);
  }

  // ---- the objects take these steps

  /** Calling the inserted-card object and moving its card around follow `Step`. */
  method PerformInserted(auth: InsertedAuth.InsertedSmartCardAuth, ghost w: World, o: Occurrence)
    requires w.machine == Inserted(auth.config, auth.authStatus) && w.driver == auth.card.driver
    modifies auth, auth.card
    ensures Step(auth.card.card, w, o).machine == Inserted(auth.config, auth.authStatus)
    ensures Step(auth.card.card, w, o).driver == auth.card.driver
  {
    hide InsertedAuth.Determine, DriverCheckPin;
    match o
    case Insert(_) => MoveCard(auth.card, o);
    case Remove => MoveCard(auth.card, o);
    case Fault(_) => MoveCard(auth.card, o);
    case Poll(ms, poll) =>
      var report := auth.GetAuthStatus(ms, poll);
    case Enter(ms, poll, pin, fate, gate, answer) =>
      auth.CheckPin(ms, pin, fate, poll, gate, answer);
    case LogOut(ms, now) =>
      auth.LogOut(ms, now);
    case UpdateExpiry(ms, poll, now, sessionExpiresAt) =>
      auth.UpdateSessionExpiry(ms, sessionExpiresAt, poll, now);
  }

  /** And so do the dipped-card object and its card. */
  method PerformDipped(auth: DippedAuth.DippedSmartCardAuth, ghost w: World, o: Occurrence)
    requires w.machine == Dipped(auth.config, auth.authStatus) && w.driver == auth.card.driver
    modifies auth, auth.card
    ensures Step(auth.card.card, w, o).machine == Dipped(auth.config, auth.authStatus)
    ensures Step(auth.card.card, w, o).driver == auth.card.driver
  {
    hide DippedAuth.Determine, DriverCheckPin;
    match o
    case Insert(_) => MoveCard(auth.card, o);
    case Remove => MoveCard(auth.card, o);
    case Fault(_) => MoveCard(auth.card, o);
    case Poll(ms, poll) =>
      var status := auth.GetAuthStatus(ms, poll);
    case Enter(ms, poll, pin, fate, gate, answer) =>
      auth.CheckPin(ms, pin, fate, poll, gate, answer);
    case LogOut(ms, now) =>
      auth.LogOut(ms, now);
    case UpdateExpiry(ms, poll, now, sessionExpiresAt) =>
      auth.UpdateSessionExpiry(ms, sessionExpiresAt, poll, now);
  }

  /** What happens to the card itself. */
  method MoveCard(card: Card, o: Occurrence)
    requires o.Insert? || o.Remove? || o.Fault?
    modifies card
    ensures forall w: World :: w.driver == old(card.driver) ==> Step(card.card, w, o) == w.(driver := card.driver)
  {
    match o
    case Insert(readable) =>
      var details := ReadDetails(card.card, card.driver.wrongPins);
      card.driver := card.driver.(status := Ready(if readable then Some(details) else None));
    case Remove =>
      card.driver := card.driver.(status := NoCard);
    case Fault(status) =>
      if !status.Ready? {
        card.driver := card.driver.(status := status);
      }
  }
}
