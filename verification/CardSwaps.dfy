/** Whose PIN a machine accepts when several cards take turns in its reader. */
module CardSwaps {
  import opened Wrappers
  import opened Bits
  import opened Auth
  import opened LockoutRuns
  import InsertedAuth
  import DippedAuth

  datatype Move =
    | Put(k: nat)
    | Take
    | See(ms: MachineState, at: Time)
    | EnterPin(ms: MachineState, pin: string, fate: Fate, at: Time)
    | SignOut(ms: MachineState, at: Time)

  /** `takenUnseen`: a card has been taken out since the machine last polled the reader. */
  datatype Desk = Desk(machine: Machine, inReader: Option<nat>, status: CardStatus, counts: seq<nat>, takenUnseen: bool)

  function Empty(m: Machine, cards: seq<ProgrammedCard>): Desk {
    Desk(m, None, NoCard, seq(|cards|, _ => 0), false)
  }

  function Seen(d: Desk, ms: MachineState, at: Time): Desk {
    d.(machine := d.machine.AfterPoll(ms, d.status, at), takenUnseen := false)
  }

  /** The card in the reader answers a PIN. */
  function Answer(cards: seq<ProgrammedCard>, d: Desk, pin: string, fate: Fate): (Driver, PinResponse)
    requires d.inReader.Some? ==> d.inReader.value < |cards| == |d.counts|
  {
    if d.inReader.None? then (Driver(d.status, 0), PinError)
    else DriverCheckPin(cards[d.inReader.value], Driver(d.status, d.counts[d.inReader.value]), pin, fate)
  }

  function After(cards: seq<ProgrammedCard>, d: Desk, move: Move): Desk
    requires Sound(cards, d)
  {
    match move
    case Put(k) =>
      if d.inReader.None? && k < |cards| then d.(inReader := Some(k), status := Ready(Some(ReadDetails(cards[k], d.counts[k])))) else d
    case Take => if d.inReader.Some? then d.(inReader := None, status := NoCard, takenUnseen := true) else d
    case See(ms, at) => Seen(d, ms, at)
    case EnterPin(ms, pin, fate, at) =>
      var seen := Seen(d, ms, at);
      if seen.machine.LockedOut(at) then seen
      else
        var (driver, response) := Answer(cards, seen, pin, fate);
        seen.(machine := seen.machine.AfterPin(ms, response, at), status := driver.status,
              counts := if seen.inReader.Some? then seen.counts[seen.inReader.value := driver.wrongPins] else seen.counts)
    case SignOut(ms, at) => d.(machine := d.machine.AfterLogOut(ms, at))
  }

  /** The driver shows the card that is in the reader. */
  predicate Sound(cards: seq<ProgrammedCard>, d: Desk) {
    && |d.counts| == |cards|
    && match d.inReader
       case None => d.status == NoCard
       case Some(k) =>
         && k < |cards| && d.status.Ready? && d.status.cardDetails.Some?
         && d.status.cardDetails.value.user == cards[k].user
  }

  lemma StaysSound(cards: seq<ProgrammedCard>, d: Desk, move: Move)
    requires Sound(cards, d)
    ensures Sound(cards, After(cards, d, move))
  {
    hide Machine.AfterPoll, Machine.AfterPin, Machine.AfterLogOut, Machine.LockedOut;
  }

  function AfterAll(cards: seq<ProgrammedCard>, d: Desk, moves: seq<Move>): (after: Desk)
    requires Sound(cards, d)
    ensures Sound(cards, after)
    decreases |moves|
  {
    if moves == [] then d
    else
      StaysSound(cards, d, moves[0]);
      AfterAll(cards, After(cards, d, moves[0]), moves[1..])
  }

  /** The move has a correct PIN accepted while the machine is asking `user` for theirs. */
  predicate Accepts(cards: seq<ProgrammedCard>, d: Desk, move: Move, user: User)
    requires Sound(cards, d)
  {
    move.EnterPin? &&
    var seen := Seen(d, move.ms, move.at);
    && !seen.machine.LockedOut(move.at) && seen.machine.Prompting() && seen.machine.PromptUser() == user
    && Answer(cards, seen, move.pin, move.fate).1 == Correct
  }

  /** The PIN is the one of a card of the user's that is in the reader. */
  predicate OwnPin(cards: seq<ProgrammedCard>, d: Desk, move: Move, user: User)
    requires Sound(cards, d) && move.EnterPin?
  {
    d.inReader.Some? && cards[d.inReader.value].user == user && cards[d.inReader.value].pin == move.pin
  }

  /** The PIN accepted was the user's exactly when the poll made for it saw the user's card. */
  lemma AcceptedOwnExactly(cards: seq<ProgrammedCard>, d: Desk, move: Move, user: User)
    requires Sound(cards, d) && Accepts(cards, d, move, user)
    ensures d.status.Ready? && d.status.cardDetails.Some?
    ensures OwnPin(cards, d, move, user) <==> d.status.cardDetails.value.user == user
  {
    hide Machine.AfterPoll, Machine.LockedOut;
  }

  // ---- when removals are seen

  /** No card is put in before the machine has noticed that another was taken out. */
  predicate SwapsSeen(cards: seq<ProgrammedCard>, d: Desk, moves: seq<Move>)
    requires Sound(cards, d)
    decreases |moves|
  {
    moves != [] ==>
      && (moves[0].Put? ==> !d.takenUnseen)
      && (StaysSound(cards, d, moves[0]); SwapsSeen(cards, After(cards, d, moves[0]), moves[1..]))
  }

  /** Whoever is asked for a PIN has a card in the reader, or has just taken it out. */
  predicate AskedIsHere(cards: seq<ProgrammedCard>, d: Desk)
    requires Sound(cards, d)
  {
    d.machine.Prompting() ==>
      if d.inReader.Some? then cards[d.inReader.value].user == d.machine.PromptUser() else d.takenUnseen
  }

  lemma PollAsks(m: Machine, ms: MachineState, status: CardStatus, at: Time)
    requires !m.SkipsPin()
    ensures var after := m.AfterPoll(ms, status, at);
            && after.SkipsPin() == m.SkipsPin()
            && (after.Prompting() && m.Prompting() ==> after == m)
            && (after.Prompting() && !m.Prompting() ==>
                  status.Ready? && status.cardDetails.Some? && after.PromptUser() == status.cardDetails.value.user)
            && (after.Prompting() ==> !status.NoCard?)
  {
    hide LockoutEndTime;
  }

  lemma PinAsks(m: Machine, ms: MachineState, response: PinResponse, at: Time)
    ensures var after := m.AfterPin(ms, response, at);
            && after.SkipsPin() == m.SkipsPin()
            && (after.Prompting() ==> m.Prompting() && after.PromptUser() == m.PromptUser())
  {
    hide LockoutEndTime;
  }

  lemma StaysHere(cards: seq<ProgrammedCard>, d: Desk, move: Move)
    requires Sound(cards, d) && AskedIsHere(cards, d) && !d.machine.SkipsPin()
    requires move.Put? ==> !d.takenUnseen
    ensures Sound(cards, After(cards, d, move))
    ensures AskedIsHere(cards, After(cards, d, move)) && !After(cards, d, move).machine.SkipsPin()
  {
    hide Machine.AfterPoll, Machine.AfterPin, Machine.AfterLogOut, Machine.LockedOut;
    StaysSound(cards, d, move);
    match move
    case See(ms, at) =>
      PollAsks(d.machine, ms, d.status, at);
    case EnterPin(ms, pin, fate, at) =>
      PollAsks(d.machine, ms, d.status, at);
      var seen := Seen(d, ms, at);
      PinAsks(seen.machine, ms, Answer(cards, seen, pin, fate).1, at);
    case SignOut(ms, at) =>
      OthersDoNotPrompt(d.machine, ms, 0, at);
      SameConfig(d.machine, ms, 0, at);
    case _ =>
  }

  lemma {:induction false} AlwaysHere(cards: seq<ProgrammedCard>, d: Desk, moves: seq<Move>)
    requires Sound(cards, d) && AskedIsHere(cards, d) && !d.machine.SkipsPin() && SwapsSeen(cards, d, moves)
    ensures AskedIsHere(cards, AfterAll(cards, d, moves)) && !AfterAll(cards, d, moves).machine.SkipsPin()
    decreases |moves|
  {
    hide After, AskedIsHere, Sound;
    if moves != [] {
      StaysHere(cards, d, moves[0]);
      AlwaysHere(cards, After(cards, d, moves[0]), moves[1..]);
    }
  }

  /** In every run of either machine in which removals are seen, the PIN accepted is that of a card of the user asked. */
  lemma AcceptedPinIsOwn(m: Machine, cards: seq<ProgrammedCard>, moves: seq<Move>, move: Move, user: User)
    requires m.SignedOut() && !m.SkipsPin() && SwapsSeen(cards, Empty(m, cards), moves)
    requires Accepts(cards, AfterAll(cards, Empty(m, cards), moves), move, user)
    ensures OwnPin(cards, AfterAll(cards, Empty(m, cards), moves), move, user)
  {
    AlwaysHere(cards, Empty(m, cards), moves);
    var d := AfterAll(cards, Empty(m, cards), moves);
    PollAsks(d.machine, move.ms, d.status, move.at);
    AcceptedOwnExactly(cards, d, move, user);
    hide Machine.AfterPoll, Machine.LockedOut;
  }

  // ---- when they are not

  lemma MoveNext(cards: seq<ProgrammedCard>, d: Desk, move: Move, moves: seq<Move>)
    requires Sound(cards, d)
    ensures Sound(cards, After(cards, d, move))
    ensures AfterAll(cards, d, [move] + moves) == AfterAll(cards, After(cards, d, move), moves)
  {
    StaysSound(cards, d, move);
    assert ([move] + moves)[0] == move && ([move] + moves)[1..] == moves;
  }

  /** A card both machines take, whoever's it is. */
  predicate Administers(card: ProgrammedCard) {
    card.user.SystemAdministrator?
  }

  /**
   Swapped between two polls, another administrator's card logs in the one who was asked: the
   machine keeps asking the first, and the second card accepts the PIN of its own.
   */
  lemma SwappedCardLogsIn(m: Machine, ms: MachineState, first: ProgrammedCard, second: ProgrammedCard, at: Time)
    requires m.SignedOut() && !m.SkipsPin() && !IsSet(ms.jurisdiction) && AttemptsAllowed(ms) >= 1
    requires Administers(first) && Administers(second) && first.user != second.user
    ensures var cards := [first, second];
            var moves := [Put(0)] + ([See(ms, at)] + ([Take] + ([Put(1)] + [])));
            var d := AfterAll(cards, Empty(m, cards), moves);
            && Accepts(cards, d, EnterPin(ms, second.pin, Answered, at), first.user)
            && !OwnPin(cards, d, EnterPin(ms, second.pin, Answered, at), first.user)
  {
    hide LockoutEndTime;
    var cards := [first, second];
    var d0 := Empty(m, cards);
    var d1 := After(cards, d0, Put(0));
    var d2 := After(cards, d1, See(ms, at));
    var d3 := After(cards, d2, Take);
    MoveNext(cards, d0, Put(0), [See(ms, at)] + ([Take] + ([Put(1)] + [])));
    MoveNext(cards, d1, See(ms, at), [Take] + ([Put(1)] + []));
    MoveNext(cards, d2, Take, [Put(1)] + []);
    MoveNext(cards, d3, Put(1), []);
    FirstAsked(m, ms, first, at);
    hide AfterAll;
  }

  lemma FirstAsked(m: Machine, ms: MachineState, card: ProgrammedCard, at: Time)
    requires m.SignedOut() && !m.SkipsPin() && !IsSet(ms.jurisdiction) && AttemptsAllowed(ms) >= 1 && Administers(card)
    ensures var after := m.AfterPoll(ms, Ready(Some(ReadDetails(card, 0))), at);
            after.Prompting() && after.PromptUser() == card.user && after.LockedUntil() == None
  {
  }
}
