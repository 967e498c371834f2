/**
 The card at the other end of the reader: it collects chained commands, stores data
 objects, and hands out long replies in pieces.
 */
module CardPeer {
  import opened Wrappers
  import opened Bits
  import opened Apdu

  const INS_SELECT: byte := 0xa4
  const INS_GET_DATA: byte := 0xcb
  const INS_PUT_DATA: byte := 0xdb
  const INS_GET_RESPONSE: byte := 0xc0
  const TAG_LIST_TAG: byte := 0x5c
  const DATA_TAG: byte := 0x53
  const OPEN_FIPS_201_AID: seq<byte> := [0xa0, 0x00, 0x00, 0x03, 0x08, 0x00, 0x00, 0x10, 0x00, 0x01, 0x00]

  /** The applet caps a whole data object, tag and length included. */
  const MAX_OBJECT_TLV_LENGTH := 32767

  const SUCCESS: (byte, byte) := (0x90, 0x00)
  const MORE_DATA_SW1: byte := 0x61
  const FILE_NOT_FOUND: (byte, byte) := (0x6a, 0x82)
  const INVALID_DATA: (byte, byte) := (0x6a, 0x80)
  const NOT_SUPPORTED: (byte, byte) := (0x6d, 0x00)
  const NOTHING_PENDING: (byte, byte) := (0x69, 0x85)
  const WRONG_LENGTH: (byte, byte) := (0x67, 0x00)

  /** `chain` is the part of a chained command received so far; `queue` the pieces of reply left. */
  datatype CardState = CardState(
    selected: bool,
    objects: map<seq<byte>, seq<byte>>,
    chain: Option<CardCommand>,
    queue: seq<seq<byte>>)
  {
    /** Nothing half received, nothing left to hand out. */
    predicate Idle() {
      chain.None? && queue == []
    }

    function Stored(id: seq<byte>): seq<byte> {
      if id in objects then objects[id] else []
    }
  }

  /** Half a command and the rest of a reply forgotten, as any command of another kind makes the card forget them. */
  function Settled(card: CardState): (settled: CardState)
    ensures settled.Idle() && (card.Idle() ==> settled == card)
  {
    card.(chain := None, queue := [])
  }

  /** The card is in the middle of a chain with the command's header, and would take the command for the rest of it. */
  predicate Continues(card: CardState, c: CardCommand) {
    card.chain.Some? && card.chain.value.(data := []) == c.(data := [])
  }

  datatype Reply = Data(data: seq<byte>) | Status(sw: (byte, byte))

  /** How the card cuts a reply into pieces. */
  type Splitter = seq<byte> -> seq<seq<byte>>

  ghost predicate Splits(split: Splitter) {
    forall d :: split(d) != [] && Flatten(split(d)) == d
                && forall p :: p in split(d) ==> |p| <= MAX_RESPONSE_APDU_DATA_LENGTH
  }

  /** Cutting wherever a piece is full is such a way. */
  function InPieces(d: seq<byte>): (pieces: seq<seq<byte>>)
    ensures pieces != []
    decreases |d|
  {
    if |d| <= MAX_RESPONSE_APDU_DATA_LENGTH then [d]
    else [d[..MAX_RESPONSE_APDU_DATA_LENGTH]] + InPieces(d[MAX_RESPONSE_APDU_DATA_LENGTH..])
  }

  lemma {:induction false} InPiecesSplits(d: seq<byte>)
    ensures Flatten(InPieces(d)) == d && forall p :: p in InPieces(d) ==> |p| <= MAX_RESPONSE_APDU_DATA_LENGTH
    decreases |d|
  {
    var pieces := InPieces(d);
    if |d| <= MAX_RESPONSE_APDU_DATA_LENGTH {
      assert pieces[1..] == [] && d + [] == d;
    } else {
      InPiecesSplits(d[MAX_RESPONSE_APDU_DATA_LENGTH..]);
      assert pieces[1..] == InPieces(d[MAX_RESPONSE_APDU_DATA_LENGTH..]);
      assert d == d[..MAX_RESPONSE_APDU_DATA_LENGTH] + d[MAX_RESPONSE_APDU_DATA_LENGTH..];
    }
  }

  lemma SomeSplitter()
    ensures Splits(InPieces)
  {
    forall d
      ensures InPieces(d) != [] && Flatten(InPieces(d)) == d
              && forall p :: p in InPieces(d) ==> |p| <= MAX_RESPONSE_APDU_DATA_LENGTH
    {
      InPiecesSplits(d);
    }
  }

  /** An empty data object is no data object. */
  function Store(objects: map<seq<byte>, seq<byte>>, id: seq<byte>, value: seq<byte>): map<seq<byte>, seq<byte>> {
    if value == [] then objects - {id} else objects[id := value]
  }

  function ExecuteGet(card: CardState, data: seq<byte>): (r: Reply)
    ensures r.Status? ==> r.sw in {FILE_NOT_FOUND, INVALID_DATA}
  {
    match BerDecode(data)
    case None => Status(INVALID_DATA)
    case Some((tag, id, rest)) =>
      if tag != TAG_LIST_TAG || rest != [] then Status(INVALID_DATA)
      else if card.Stored(id) == [] then Status(FILE_NOT_FOUND)
      else
        match ConstructTlv([DATA_TAG], card.Stored(id))
        case None => Status(INVALID_DATA)
        case Some(tlv) => Data(tlv)
  }

  function ExecutePut(card: CardState, data: seq<byte>): (r: (CardState, Reply))
    ensures r.0 == card.(objects := r.0.objects)
    ensures r.1.Status? ==> r.1.sw == INVALID_DATA
  {
    match BerDecode(data)
    case None => (card, Status(INVALID_DATA))
    case Some((idTag, id, rest)) =>
      match BerDecode(rest)
      case None => (card, Status(INVALID_DATA))
      case Some((dataTag, value, rest')) =>
        if idTag != TAG_LIST_TAG || dataTag != DATA_TAG || rest' != [] || |rest| > MAX_OBJECT_TLV_LENGTH
        then (card, Status(INVALID_DATA))
        else (card.(objects := Store(card.objects, id, value)), Data([]))
  }

  /** What a complete command does. */
  function Execute(card: CardState, c: CardCommand): (r: (CardState, Reply))
    ensures r.0 == card.(selected := r.0.selected, objects := r.0.objects)
    ensures r.1.Status? ==> r.1.sw in {FILE_NOT_FOUND, INVALID_DATA, NOT_SUPPORTED}
  {
    if c.ins == INS_SELECT then
      if c.data == OPEN_FIPS_201_AID then (card.(selected := true), Data([])) else (card, Status(FILE_NOT_FOUND))
    else if !card.selected then (card, Status(NOT_SUPPORTED))
    else if c.ins == INS_GET_DATA then (card, ExecuteGet(card, c.data))
    else if c.ins == INS_PUT_DATA then ExecutePut(card, c.data)
    else (card, Status(NOT_SUPPORTED))
  }

  /** More is to come: its length, if one byte can tell it. */
  function HandOutMore(left: seq<seq<byte>>): (status: seq<byte>)
    ensures |status| == 2 && status[0] == MORE_DATA_SW1
  {
    [MORE_DATA_SW1, if |Flatten(left)| < 256 then |Flatten(left)| else 0]
  }

  /** The next piece of a reply, marked with whether more is to come. */
  function HandOut(card: CardState, pieces: seq<seq<byte>>): (CardState, seq<byte>)
    requires pieces != []
  {
    var status :=
      if |pieces| == 1 then [SUCCESS.0, SUCCESS.1] else HandOutMore(pieces[1..]);
    (card.(queue := pieces[1..]), pieces[0] + status)
  }

  /** A chained APDU extends the chain it belongs to; any other APDU starts afresh. */
  function Collected(card: CardState, c: CardCommand): CardCommand {
    if Continues(card, c) then c.(data := card.chain.value.data + c.data) else c
  }

  function Finish(split: Splitter, card: CardState, c: CardCommand): (CardState, seq<byte>) {
    var (card', reply) := Execute(Settled(card), c);
    match reply
    case Status(sw) => (card', [sw.0, sw.1])
    case Data(d) =>
      var pieces := split(d);
      if pieces == [] then (card', [SUCCESS.0, SUCCESS.1]) else HandOut(card', pieces)
  }

  /** The card's response to one APDU, ending in its status word. */
  function Respond(split: Splitter, card: CardState, apdu: seq<byte>): (r: (CardState, seq<byte>))
    ensures |r.1| >= 2
  {
    if |apdu| < 5 || |apdu| != 5 + apdu[4] as int then (card, [WRONG_LENGTH.0, WRONG_LENGTH.1])
    else
      var c := CardCommand(apdu[1], apdu[2], apdu[3], apdu[5..]);
      if apdu[0] == CLA_CHAINED then
        (card.(chain := Some(Collected(card, c)), queue := []), [SUCCESS.0, SUCCESS.1])
      else if c.ins == INS_GET_RESPONSE then
        if card.queue == [] then (card, [NOTHING_PENDING.0, NOTHING_PENDING.1]) else HandOut(card, card.queue)
      else Finish(split, card, Collected(card, c))
  }

  lemma RespondToApdu(split: Splitter, card: CardState, a: CommandApdu)
    requires a.Valid()
    ensures var c := CardCommand(a.ins, a.p1, a.p2, a.data);
            Respond(split, card, a.AsBuffer()) ==
              if a.cla == CLA_CHAINED then
                (card.(chain := Some(Collected(card, c)), queue := []), [SUCCESS.0, SUCCESS.1])
              else if a.ins == INS_GET_RESPONSE then
                if card.queue == [] then (card, [NOTHING_PENDING.0, NOTHING_PENDING.1]) else HandOut(card, card.queue)
              else Finish(split, card, Collected(card, c))
  {
    hide Finish, HandOut;
    assert a.AsBuffer()[5..] == a.data;
  }
}
