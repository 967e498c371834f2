/** Sending commands to a card: chaining on the way out, GET RESPONSE on the way back. */
module CardReading {
  import opened Wrappers
  import opened Bits
  import opened Apdu
  import opened CardPeer

  datatype TransmitError = ReaderNotReady | StatusWord(sw: (byte, byte))

  datatype Piece = Piece(data: seq<byte>, moreDataAvailable: bool)

  const GET_RESPONSE := CommandApdu(CLA_STANDARD, INS_GET_RESPONSE, 0, 0, [])

  class CardReader {
    var ready: bool
    var card: CardState
    const split: Splitter
    // Every APDU sent so far.
    ghost var sent: seq<seq<byte>>

    constructor (card: CardState, split: Splitter)
      ensures ready && this.card == card && this.split == split && sent == []
    {
      ready, this.card, this.split, sent := true, card, split, [];
    }

    method TransmitHelper(apdu: CommandApdu) returns (r: Result<Piece, TransmitError>)
      requires apdu.Valid()
      modifies this
      ensures ready == old(ready)
      ensures !ready ==> r == Err(ReaderNotReady) && card == old(card) && sent == old(sent)
      ensures ready ==>
                var (card', response) := Respond(split, old(card), apdu.AsBuffer());
                var sw := (response[|response| - 2], response[|response| - 1]);
                && card == card' && sent == old(sent) + [apdu.AsBuffer()]
                && r == if sw == SUCCESS then Ok(Piece(response[..|response| - 2], false))
                        else if sw.0 == MORE_DATA_SW1 then Ok(Piece(response[..|response| - 2], true))
                        else Err(StatusWord(sw))
    {
      if !ready {
        return Err(ReaderNotReady);
      }
      var exchanged := Respond(split, card, apdu.AsBuffer());
      card := exchanged.0;
      sent := sent + [apdu.AsBuffer()];
      var response := exchanged.1;
      var data := response[..|response| - 2];
      var sw1, sw2 := response[|response| - 2], response[|response| - 1];
      if sw1 == SUCCESS.0 && sw2 == SUCCESS.1 {
        return Ok(Piece(data, false));
      }
      if sw1 == MORE_DATA_SW1 {
        return Ok(Piece(data, true));
      }
      return Err(StatusWord((sw1, sw2)));
    }

    /**
     Whatever the size of the command and however the card cuts its reply, one exchange is the
     card executing the whole command once and its whole reply coming back. It sends the chain and
     then one GET RESPONSE per piece after the first, and leaves the card idle.
     */
    method Transmit(command: CardCommand) returns (r: Result<seq<byte>, TransmitError>)
      requires Splits(split)
      requires !Continues(card, command) && command.ins != INS_GET_RESPONSE
      modifies this
      ensures ready == old(ready) && (ready || old(card).Idle() ==> card.Idle())
      ensures !ready ==> r == Err(ReaderNotReady) && card == old(card) && sent == old(sent)
      ensures ready ==>
                var (card', reply) := Execute(Settled(old(card)), command);
                && card == card'
                && match reply {
                     case Status(sw) => r == Err(StatusWord(sw)) && sent == old(sent) + Exchange(command, 1)
                     case Data(d) => r == Ok(d) && sent == old(sent) + Exchange(command, |split(d)|)
                   }
    {
      hide Execute, HandOut, Chain, Splits;
      ghost var done, reply := Execute(Settled(card), command).0, Execute(Settled(card), command).1;
      SplitOf(split, reply);
      var first :- SendChain(command);
      ghost var pieces := split(reply.data);
      assert pieces[1..] == [] <==> |pieces| == 1;
      r := CollectRest(first, done, pieces);
    }

    /** Sends every APDU of the chain; only the last one's response carries data. */
    method SendChain(command: CardCommand) returns (r: Result<Piece, TransmitError>)
      requires Splits(split)
      requires !Continues(card, command) && command.ins != INS_GET_RESPONSE
      modifies this
      ensures ready == old(ready)
      ensures !ready ==> r == Err(ReaderNotReady) && card == old(card) && sent == old(sent)
      ensures ready ==>
                var (done, reply) := Execute(Settled(old(card)), command);
                && sent == old(sent) + Buffers(Chain(command))
                && match reply {
                     case Status(sw) => r == Err(StatusWord(sw)) && card == done
                     case Data(d) =>
                       && split(d) != []
                       && r == Ok(Piece(split(d)[0], |split(d)| > 1)) && card == done.(queue := split(d)[1..])
                   }
    {
      hide Execute, HandOut, Finish, Respond, Chain, Splits, Collecting, DataOf, ApduCount, CommandApdu.AsBuffer;
      ghost var before, start, buffers := card, sent, Buffers(Chain(command));
      ChainShape(command);
      NothingCollected(before, command);
      var apdus := AsCommandApdus(command);
      var last := |apdus| - 1;
      for i := 0 to last
        invariant ready == old(ready)
        invariant !ready ==> i == 0 && card == before && sent == start
        invariant ready ==> card == Collecting(before, command, i) && sent == start + buffers[..i]
      {
        ChainedStep(split, before, command, i);
        var response :- TransmitHelper(apdus[i]);
      }
      FinalStep(split, before, command);
      assert buffers[..last] + [buffers[last]] == buffers;
      SplitOf(split, Execute(Settled(before), command).1);
      HandOutStatus(split, Settled(before), command);
      r := TransmitHelper(apdus[last]);
    }

    /** Asks for the rest of a reply as long as the card says there is more. */
    method CollectRest(first: Piece, ghost done: CardState, ghost pieces: seq<seq<byte>>)
      returns (r: Result<seq<byte>, TransmitError>)
      requires ready && done.Idle() && pieces != []
      requires card == done.(queue := pieces[1..])
      requires first == Piece(pieces[0], |pieces| > 1)
      modifies this
      ensures ready && card == done
      ensures r == Ok(Flatten(pieces))
      ensures sent == old(sent) + Responses(|pieces| - 1)
    {
      hide HandOut, Respond;
      var data, moreDataAvailable := first.data, first.moreDataAvailable;
      ghost var k := 1;
      ghost var start := sent;
      assert pieces[..1] == [pieces[0]];
      while moreDataAvailable
        invariant ready && 1 <= k <= |pieces|
        invariant card == done.(queue := pieces[k..])
        invariant data == Flatten(pieces[..k])
        invariant moreDataAvailable == (k < |pieces|)
        invariant sent == start + Responses(k - 1)
        decreases |pieces| - k
      {
        ResponseStep(split, done, pieces, k);
        FlattenAppend(pieces[..k], [pieces[k]]);
        assert pieces[..k + 1] == pieces[..k] + [pieces[k]];
        var response := TransmitHelper(GET_RESPONSE);
        match response
        case Err(error) =>
          return Err(error);
        case Ok(piece) =>
          data := data + piece.data;
          moreDataAvailable := piece.moreDataAvailable;
          k := k + 1;
      }
      assert pieces[..|pieces|] == pieces;
      return Ok(data);
    }
  }

  /** Consecutive GET RESPONSE commands. */
  ghost function Responses(n: nat): seq<seq<byte>> {
    seq(n, _ => GET_RESPONSE.AsBuffer())
  }

  /** The APDUs of one exchange whose reply comes in `pieces` pieces. */
  ghost function Exchange(command: CardCommand, pieces: nat): seq<seq<byte>>
    requires pieces >= 1
  {
    Buffers(Chain(command)) + Responses(pieces - 1)
  }

  /** The card once the first `i` APDUs of a chain have arrived. */
  function Collecting(before: CardState, command: CardCommand, i: nat): CardState {
    if i == 0 then before
    else Settled(before).(chain := Some(command.(data := Sub(command.data, 0, i * MAX_COMMAND_APDU_DATA_LENGTH))))
  }

  lemma NothingCollected(before: CardState, command: CardCommand)
    ensures Collecting(before, command, 0) == before && ApduCount(|command.data|) >= 1
  {
  }

  lemma SplitOf(split: Splitter, reply: Reply)
    requires Splits(split)
    ensures reply.Data? ==>
              split(reply.data) != [] && Flatten(split(reply.data)) == reply.data
  {
  }

  lemma ChainedStep(split: Splitter, before: CardState, command: CardCommand, i: nat)
    requires !Continues(before, command) && i < |Chain(command)| - 1
    ensures Respond(split, Collecting(before, command, i), Chain(command)[i].AsBuffer())
         == (Collecting(before, command, i + 1), [SUCCESS.0, SUCCESS.1])
  {
    hide Finish, HandOut;
    ChainShape(command);
    ChainAt(command, i);
    RespondToApdu(split, Collecting(before, command, i), Chain(command)[i]);
    var n, m := i * MAX_COMMAND_APDU_DATA_LENGTH, (i + 1) * MAX_COMMAND_APDU_DATA_LENGTH;
    assert command.data[..n] + command.data[n..m] == command.data[..m];
  }

  lemma FinalStep(split: Splitter, before: CardState, command: CardCommand)
    requires !Continues(before, command) && command.ins != INS_GET_RESPONSE
    ensures var n := |Chain(command)|;
            var (done, reply) := Execute(Settled(before), command);
            Respond(split, Collecting(before, command, n - 1), Chain(command)[n - 1].AsBuffer())
            == match reply {
                 case Status(sw) => (done, [sw.0, sw.1])
                 case Data(d) =>
                   if split(d) == [] then (done, [SUCCESS.0, SUCCESS.1]) else HandOut(done, split(d))
               }
  {
    hide HandOut, Execute;
    var n := |Chain(command)|;
    ChainShape(command);
    ChainAt(command, n - 1);
    var card := Collecting(before, command, n - 1);
    RespondToApdu(split, card, Chain(command)[n - 1]);
    CollectedAll(before, command);
  }

  lemma CollectedAll(before: CardState, command: CardCommand)
    requires !Continues(before, command)
    ensures var n := |Chain(command)|;
            var card := Collecting(before, command, n - 1);
            && Collected(card, command.(data := Chain(command)[n - 1].data)) == command
            && Settled(card) == Settled(before)
  {
    hide Sub, Chain, ApduCount;
    var n := ApduCount(|command.data|);
    CountIsCeiling(|command.data|);
    ChainAt(command, n - 1);
    var k := (n - 1) * MAX_COMMAND_APDU_DATA_LENGTH;
    LastSlice(command.data, k);
    assert Chain(command)[n - 1].data == Sub(command.data, k, k + MAX_COMMAND_APDU_DATA_LENGTH);
    var card := Collecting(before, command, n - 1);
    if n > 1 {
      assert card.chain == Some(command.(data := Sub(command.data, 0, k)));
    }
  }

  lemma LastSlice(data: seq<byte>, k: nat)
    requires k <= |data| <= k + MAX_COMMAND_APDU_DATA_LENGTH
    ensures Sub(data, 0, k) + Sub(data, k, k + MAX_COMMAND_APDU_DATA_LENGTH) == data
    ensures k == 0 ==> Sub(data, k, k + MAX_COMMAND_APDU_DATA_LENGTH) == data
  {
  }

  /** The status word the reader sees on the last response. */
  lemma HandOutStatus(split: Splitter, before: CardState, command: CardCommand)
    requires Splits(split)
    ensures var (done, reply) := Execute(before, command);
            reply.Data? ==>
              var (card, response) := HandOut(done, split(reply.data));
              && card == done.(queue := split(reply.data)[1..])
              && |response| >= 2 && response[..|response| - 2] == split(reply.data)[0]
              && if |split(reply.data)| == 1 then response[|response| - 2..] == [SUCCESS.0, SUCCESS.1]
                 else response[|response| - 2] == MORE_DATA_SW1
  {
    hide Execute;
  }

  lemma ResponseStep(split: Splitter, done: CardState, pieces: seq<seq<byte>>, k: nat)
    requires done.Idle() && k < |pieces|
    ensures Respond(split, done.(queue := pieces[k..]), GET_RESPONSE.AsBuffer())
         == (done.(queue := pieces[k + 1..]),
             pieces[k] + if k + 1 == |pieces| then [SUCCESS.0, SUCCESS.1] else HandOutMore(pieces[k + 1..]))
  {
    RespondToApdu(split, done.(queue := pieces[k..]), GET_RESPONSE);
  }
}
