/** The card's data objects as the rest of the system sees them: generic storage and certificates. */
module JavaCard {
  import opened Wrappers
  import opened Bits
  import opened Apdu
  import opened CardPeer
  import opened CardReading

  datatype Error = Transmission(error: TransmitError) | TlvTooLarge | NotEnoughSpace

  const MAX_DATA_OBJECT_SIZE_BYTES := 32763
  const GENERIC_STORAGE_SPACE_CAPACITY_BYTES := 90000

  const CERT_TAG: byte := 0x70
  const CERT_INFO_TAG: byte := 0x71
  const CERT_INFO_UNCOMPRESSED: byte := 0x00
  const ERROR_DETECTION_CODE_TAG: byte := 0xfe

  /** The longest certificate whose TLV and metadata fit one data object. */
  const MAX_CERT_LENGTH := MAX_DATA_OBJECT_SIZE_BYTES - 4 - 5

  const SELECT_APPLET := CardCommand(INS_SELECT, 0x04, 0x00, OPEN_FIPS_201_AID)

  const NOT_READY: Result<seq<byte>, Error> := Err(Transmission(ReaderNotReady))

  function PivDataObjectId(uniqueByte: byte): seq<byte> {
    [0x5f, 0xc1, uniqueByte]
  }

  /** The data objects that together make up the generic storage space. */
  const OBJECT_IDS: seq<seq<byte>> := [PivDataObjectId(0xf3), PivDataObjectId(0xf4), PivDataObjectId(0xf5)]

  const CERT_METADATA: seq<byte> := [CERT_INFO_TAG, 1, CERT_INFO_UNCOMPRESSED, ERROR_DETECTION_CODE_TAG, 0]

  /** What generic storage holds. */
  function Storage(card: CardState): seq<byte> {
    card.Stored(OBJECT_IDS[0]) + card.Stored(OBJECT_IDS[1]) + card.Stored(OBJECT_IDS[2])
  }

  /** The part of `data` that goes into the i-th object. */
  function Chunk(data: seq<byte>, i: nat): (chunk: seq<byte>)
    ensures |chunk| <= MAX_DATA_OBJECT_SIZE_BYTES
  {
    Sub(data, MAX_DATA_OBJECT_SIZE_BYTES * i, MAX_DATA_OBJECT_SIZE_BYTES * i + MAX_DATA_OBJECT_SIZE_BYTES)
  }

  function PutData(ids: seq<byte>, value: seq<byte>): Option<CardCommand> {
    var idTlv :- ConstructTlv([TAG_LIST_TAG], ids);
    var dataTlv :- ConstructTlv([DATA_TAG], value);
    Some(CardCommand(INS_PUT_DATA, 0x3f, 0xff, idTlv + dataTlv))
  }

  /** The objects once the first `n` chunks of `data` have been stored. */
  function Written(objects: map<seq<byte>, seq<byte>>, data: seq<byte>, n: nat): map<seq<byte>, seq<byte>>
    requires n <= |OBJECT_IDS|
  {
    if n == 0 then objects else Store(Written(objects, data, n - 1), OBJECT_IDS[n - 1], Chunk(data, n - 1))
  }

  /** The bytes on the wire that read an object of the storage space, and those that select the applet and ask for more. */
  lemma WireBytes(k: nat)
    requires k < 3
    ensures |OBJECT_IDS| == 3 && OBJECT_IDS[k] == [0x5f, 0xc1, 0xf3 + k]
    ensures Buffers(Chain(SELECT_APPLET))
         == [[0x00, 0xa4, 0x04, 0x00, 11, 0xa0, 0x00, 0x00, 0x03, 0x08, 0x00, 0x00, 0x10, 0x00, 0x01, 0x00]]
    ensures Buffers(Chain(CardCommand(INS_GET_DATA, 0x3f, 0xff, ConstructTlv([TAG_LIST_TAG], OBJECT_IDS[k]).value)))
         == [[0x00, 0xcb, 0x3f, 0xff, 5, 0x5c, 3, 0x5f, 0xc1, 0xf3 + k]]
    ensures GET_RESPONSE.AsBuffer() == [0x00, 0xc0, 0x00, 0x00, 0]
  {
    var id, select := OBJECT_IDS[k], SELECT_APPLET;
    assert k == 0 || k == 1 || k == 2;
    assert id == [0x5f, 0xc1, 0xf3 + k];
    var get := CardCommand(INS_GET_DATA, 0x3f, 0xff, ConstructTlv([TAG_LIST_TAG], id).value);
    assert get.data == [0x5c, 3, 0x5f, 0xc1, 0xf3 + k];
    assert [0x00, get.ins, get.p1, get.p2, |get.data|] + get.data
        == [0x00, 0xcb, 0x3f, 0xff, 5, 0x5c, 3, 0x5f, 0xc1, 0xf3 + k];
    assert [0x00, select.ins, select.p1, select.p2, |select.data|] + select.data
        == [0x00, 0xa4, 0x04, 0x00, 11, 0xa0, 0x00, 0x00, 0x03, 0x08, 0x00, 0x00, 0x10, 0x00, 0x01, 0x00];
    hide Chain, ConstructTlv;
    ShortChain(get);
    ShortChain(select);
  }

  /** The bytes that store a short value: the tag list and then the data. */
  lemma WireBytesToPut(id: seq<byte>, value: seq<byte>)
    requires |id| == 3 && |value| < 128
    ensures PutData(id, value).Some?
    ensures Buffers(Chain(PutData(id, value).value))
         == [[0x00, 0xdb, 0x3f, 0xff, 7 + |value|, 0x5c, 3] + id + [0x53, |value|] + value]
  {
    var put := PutData(id, value).value;
    assert put.data == [0x5c, 3] + id + [0x53, |value|] + value;
    hide Chain;
    ShortChain(put);
    assert [0x00, put.ins, put.p1, put.p2, |put.data|] + put.data
        == [0x00, 0xdb, 0x3f, 0xff, 7 + |value|, 0x5c, 3] + id + [0x53, |value|] + value;
  }

  // ---- what the card does with the commands the host builds

  lemma GetExecutes(card: CardState, id: seq<byte>)
    requires card.selected && |id| < 65536
    ensures var c := CardCommand(INS_GET_DATA, 0x3f, 0xff, ConstructTlv([TAG_LIST_TAG], id).value);
            Execute(card, c) ==
              (card, if card.Stored(id) == [] then Status(FILE_NOT_FOUND)
                     else match ConstructTlv([DATA_TAG], card.Stored(id)) {
                            case None => Status(INVALID_DATA)
                            case Some(tlv) => Data(tlv)
                          })
  {
    hide BerDecode;
    var tlv := ConstructTlv([TAG_LIST_TAG], id).value;
    BerReadsTlv(TAG_LIST_TAG, id, []);
    assert tlv + [] == tlv;
  }

  /** A value is stored exactly when its TLV is within the applet's limit. */
  lemma PutExecutes(card: CardState, id: seq<byte>, value: seq<byte>)
    requires card.selected && |id| < 65536 && |value| < 65536
    ensures Execute(card, PutData(id, value).value) ==
              if |value| <= MAX_DATA_OBJECT_SIZE_BYTES
              then (card.(objects := Store(card.objects, id, value)), Data([]))
              else (card, Status(INVALID_DATA))
  {
    hide BerDecode;
    var dataTlv := ConstructTlv([DATA_TAG], value).value;
    BerReadsTlv(TAG_LIST_TAG, id, dataTlv);
    BerReadsTlv(DATA_TAG, value, []);
    assert dataTlv + [] == dataTlv;
    assert |dataTlv| == 1 + |TlvLength(|value|)| + |value|;
  }

  // ---- storage laws

  lemma DistinctObjects()
    ensures OBJECT_IDS[0] != OBJECT_IDS[1] && OBJECT_IDS[1] != OBJECT_IDS[2] && OBJECT_IDS[0] != OBJECT_IDS[2]
  {
    assert OBJECT_IDS[0][2] != OBJECT_IDS[1][2] && OBJECT_IDS[1][2] != OBJECT_IDS[2][2] && OBJECT_IDS[0][2] != OBJECT_IDS[2][2];
  }

  lemma StoredAfter(objects: map<seq<byte>, seq<byte>>, data: seq<byte>, n: nat, card: CardState, id: seq<byte>)
    requires n <= |OBJECT_IDS|
    ensures var after := card.(objects := Written(objects, data, n));
            after.Stored(id) ==
              if n >= 1 && id == OBJECT_IDS[0] then Chunk(data, 0)
              else if n >= 2 && id == OBJECT_IDS[1] then Chunk(data, 1)
              else if n >= 3 && id == OBJECT_IDS[2] then Chunk(data, 2)
              else card.(objects := objects).Stored(id)
  {
    hide Chunk;
    if n > 0 {
      StoredAfter(objects, data, n - 1, card, id);
      DistinctObjects();
      assert n == 1 || n == 2 || n == 3;
    }
  }

  /** Three chunks hold any buffer that fits: nothing is lost, and what was there before is gone. */
  lemma ChunksHoldAll(data: seq<byte>)
    requires |data| <= GENERIC_STORAGE_SPACE_CAPACITY_BYTES
    ensures Chunk(data, 0) + Chunk(data, 1) + Chunk(data, 2) == data
  {
    var m := MAX_DATA_OBJECT_SIZE_BYTES;
    var a, b := Min(m, |data|), Min(2 * m, |data|);
    assert Chunk(data, 0) == data[..a] && Chunk(data, 1) == data[a..b] && Chunk(data, 2) == data[b..];
    assert data[..a] + data[a..b] == data[..b];
    assert data[..b] + data[b..] == data;
  }

  /** After a write, storage is the new buffer whatever it was; no other object changes. */
  lemma StorageIsWhatWasWritten(card: CardState, data: seq<byte>, id: seq<byte>)
    requires |data| <= GENERIC_STORAGE_SPACE_CAPACITY_BYTES
    ensures var after := card.(selected := true, objects := Written(card.objects, data, |OBJECT_IDS|));
            && Storage(after) == data
            && (id !in OBJECT_IDS ==> after.Stored(id) == card.Stored(id))
  {
    hide Chunk, Written;
    StoredAfter(card.objects, data, 3, card, OBJECT_IDS[0]);
    StoredAfter(card.objects, data, 3, card, OBJECT_IDS[1]);
    StoredAfter(card.objects, data, 3, card, OBJECT_IDS[2]);
    StoredAfter(card.objects, data, 3, card, id);
    DistinctObjects();
    ChunksHoldAll(data);
  }

  /** Trimming five bytes removes exactly the certificate's metadata. */
  lemma CertTrims(der: seq<byte>)
    requires |der| < 65536
    ensures CERT_TAG == 0x70 && CERT_METADATA == [0x71, 1, 0x00, 0xfe, 0]
    ensures var stored := ConstructTlv([CERT_TAG], der).value + CERT_METADATA;
            ParseTlv(1, stored[..|stored| - 5]).2 == der
  {
    ParseInvertsConstruct([CERT_TAG], der);
    var tlv := ConstructTlv([CERT_TAG], der).value;
    assert (tlv + CERT_METADATA)[..|tlv|] == tlv;
  }

  // ---- the driver

  class JavaCard {
    const reader: CardReader

    constructor (reader: CardReader)
      ensures this.reader == reader
    {
      this.reader := reader;
    }

    /** Between exchanges the card has nothing half received and nothing left to hand out. */
    ghost predicate Valid()
      reads reader
    {
      reader.card.Idle() && Splits(reader.split)
    }

    /** An exchange that broke off may have left the card with anything but half a SELECT. */
    ghost predicate Recovers()
      reads reader
    {
      Splits(reader.split) && !Continues(reader.card, SELECT_APPLET)
    }

    /** Whatever the card was in the middle of, it is idle afterwards. */
    method SelectApplet() returns (r: Result<seq<byte>, Error>)
      requires Recovers()
      modifies reader
      ensures reader.ready == old(reader.ready)
      ensures !reader.ready ==> r == NOT_READY && reader.card == old(reader.card)
      ensures reader.ready ==>
                Valid() && r == Ok([]) && reader.card == Settled(old(reader.card)).(selected := true)
    {
      var reply := reader.Transmit(SELECT_APPLET);
      match reply
      case Err(error) => return Err(Transmission(error));
      case Ok(data) => return Ok(data);
    }

    method GetData(id: seq<byte>) returns (r: Result<seq<byte>, Error>)
      requires Valid() && reader.card.selected && |id| < 65536
      modifies reader
      ensures Valid() && reader.ready == old(reader.ready) && reader.card == old(reader.card)
      ensures !reader.ready ==> r == NOT_READY
      ensures reader.ready ==>
                var value := old(reader.card).Stored(id);
                r == if value == [] then Err(Transmission(StatusWord(FILE_NOT_FOUND)))
                     else if |value| >= 65536 then Err(Transmission(StatusWord(INVALID_DATA)))
                     else Ok(value)
    {
      hide Execute, ParseTlv;
      GetExecutes(reader.card, id);
      ghost var value := reader.card.Stored(id);
      if |value| < 65536 {
        ParseInvertsConstruct([DATA_TAG], value);
      }
      var command := CardCommand(INS_GET_DATA, 0x3f, 0xff, ConstructTlv([TAG_LIST_TAG], id).value);
      var dataTlv := reader.Transmit(command);
      match dataTlv
      case Err(error) => return Err(Transmission(error));
      case Ok(tlv) => return Ok(ParseTlv(1, tlv).2);
    }

    method PutDataObject(id: seq<byte>, data: seq<byte>) returns (r: Result<seq<byte>, Error>)
      requires Valid() && reader.card.selected && |id| < 65536
      modifies reader
      ensures Valid() && reader.ready == old(reader.ready)
      ensures r.Ok? <==> reader.ready && |data| <= MAX_DATA_OBJECT_SIZE_BYTES
      ensures r.Ok? ==>
                r == Ok([]) && reader.card == old(reader.card).(objects := Store(old(reader.card).objects, id, data))
      ensures r.Err? ==> reader.card == old(reader.card)
    {
      hide Execute;
      var command := PutData(id, data);
      if command.None? {
        return Err(TlvTooLarge);
      }
      PutExecutes(reader.card, id, data);
      var reply := reader.Transmit(command.value);
      match reply
      case Err(error) => return Err(Transmission(error));
      case Ok(nothing) => return Ok(nothing);
    }

    /** A missing object counts as an empty one: the card drops objects that are written empty. */
    method ReadData() returns (r: Result<seq<byte>, Error>)
      requires Recovers() && forall id :: id in OBJECT_IDS ==> |reader.card.Stored(id)| < 65536
      modifies reader
      ensures reader.ready == old(reader.ready)
      ensures !reader.ready ==> r == NOT_READY && reader.card == old(reader.card)
      ensures reader.ready ==>
                && Valid() && r == Ok(Storage(old(reader.card)))
                && reader.card == Settled(old(reader.card)).(selected := true)
    {
      ghost var before := Settled(reader.card);
      var selected :- SelectApplet();
      var chunks: seq<seq<byte>> := [];
      for i := 0 to |OBJECT_IDS|
        invariant Valid() && reader.ready && reader.card == before.(selected := true)
        invariant |chunks| == i
        invariant forall k :: 0 <= k < i ==> chunks[k] == before.Stored(OBJECT_IDS[k])
      {
        var id := OBJECT_IDS[i];
        assert id in OBJECT_IDS;
        var chunk := GetData(id);
        match chunk
        case Ok(data) =>
          chunks := chunks + [data];
        case Err(error) =>
          if error == Transmission(StatusWord(FILE_NOT_FOUND)) {
            chunks := chunks + [[]];
          } else {
            return Err(error);
          }
      }
      assert chunks == [before.Stored(OBJECT_IDS[0]), before.Stored(OBJECT_IDS[1]), before.Stored(OBJECT_IDS[2])];
      FlattenThree(chunks);
      return Ok(Flatten(chunks));
    }

    method WriteData(data: seq<byte>) returns (r: Result<seq<byte>, Error>)
      requires Recovers()
      modifies reader
      ensures reader.ready == old(reader.ready)
      ensures |data| > GENERIC_STORAGE_SPACE_CAPACITY_BYTES ==> r == Err(NotEnoughSpace)
      ensures |data| <= GENERIC_STORAGE_SPACE_CAPACITY_BYTES && !reader.ready ==> r == NOT_READY
      ensures r.Ok? <==> reader.ready && |data| <= GENERIC_STORAGE_SPACE_CAPACITY_BYTES
      ensures r.Err? ==> reader.card == old(reader.card)
      ensures r.Ok? ==>
                && Valid()
                && reader.card == Settled(old(reader.card)).(selected := true,
                                                            objects := Written(old(reader.card).objects, data, |OBJECT_IDS|))
    {
      if |data| > GENERIC_STORAGE_SPACE_CAPACITY_BYTES {
        return Err(NotEnoughSpace);
      }
      ghost var before := Settled(reader.card);
      var selected :- SelectApplet();
      for i := 0 to |OBJECT_IDS|
        invariant Valid() && reader.ready
        invariant reader.card == before.(selected := true, objects := Written(before.objects, data, i))
      {
        var written := PutDataObject(OBJECT_IDS[i], Chunk(data, i));
        match written
        case Ok(nothing) =>
        case Err(error) => return Err(error);
      }
      return Ok([]);
    }

    /** Empties the storage and nothing else. */
    method ClearData() returns (r: Result<seq<byte>, Error>)
      requires Recovers()
      modifies reader
      ensures r.Ok? <==> old(reader.ready)
      ensures r.Ok? ==> Valid() && Storage(reader.card) == []
      ensures forall id :: id !in OBJECT_IDS ==> reader.card.Stored(id) == old(reader.card).Stored(id)
    {
      hide Written, Storage;
      ghost var before := Settled(reader.card);
      r := WriteData([]);
      OnlyStorageWritten(before, []);
    }

    /** Whatever the card held or was in the middle of before, what is written is what is read, and nothing else changes. */
    method WriteThenRead(data: seq<byte>) returns (r: Result<seq<byte>, Error>)
      requires Recovers()
      modifies reader
      ensures r == if |data| > 90_000 then Err(NotEnoughSpace)
                   else if !old(reader.ready) then NOT_READY
                   else Ok(data)
      ensures r.Ok? ==> Valid()
      ensures forall id :: id !in OBJECT_IDS ==> reader.card.Stored(id) == old(reader.card).Stored(id)
    {
      hide Written, Storage;
      ghost var before := Settled(reader.card);
      var written :- WriteData(data);
      OnlyStorageWritten(before, data);
      StoredChunksAreShort(before, data);
      r := ReadData();
    }

    static lemma OnlyStorageWritten(before: CardState, data: seq<byte>)
      requires |data| <= GENERIC_STORAGE_SPACE_CAPACITY_BYTES
      ensures var after := before.(selected := true, objects := Written(before.objects, data, |OBJECT_IDS|));
              && Storage(after) == data
              && forall id :: id !in OBJECT_IDS ==> after.Stored(id) == before.Stored(id)
    {
      hide Written, Storage;
      StorageIsWhatWasWritten(before, data, []);
      forall id | id !in OBJECT_IDS
        ensures before.(selected := true, objects := Written(before.objects, data, |OBJECT_IDS|)).Stored(id)
             == before.Stored(id)
      {
        StorageIsWhatWasWritten(before, data, id);
      }
    }

    static lemma StoredChunksAreShort(before: CardState, data: seq<byte>)
      ensures var after := before.(selected := true, objects := Written(before.objects, data, |OBJECT_IDS|));
              forall id :: id in OBJECT_IDS ==> |after.Stored(id)| < 65536
    {
      hide Written, Chunk;
      StoredAfter(before.objects, data, 3, before, OBJECT_IDS[0]);
      StoredAfter(before.objects, data, 3, before, OBJECT_IDS[1]);
      StoredAfter(before.objects, data, 3, before, OBJECT_IDS[2]);
    }

    /** The certificate is in DER form on both sides. */
    method StoreCert(id: seq<byte>, der: seq<byte>) returns (r: Result<seq<byte>, Error>)
      requires Valid() && reader.card.selected && |id| < 65536
      modifies reader
      ensures Valid() && reader.ready == old(reader.ready)
      ensures r.Ok? <==> reader.ready && |der| <= MAX_CERT_LENGTH
      ensures r.Ok? ==> reader.card == old(reader.card).(objects :=
                          Store(old(reader.card).objects, id, ConstructTlv([CERT_TAG], der).value + CERT_METADATA))
      ensures r.Err? ==> reader.card == old(reader.card)
    {
      var certTlv := ConstructTlv([CERT_TAG], der);
      if certTlv.None? {
        return Err(TlvTooLarge);
      }
      var infoTlv := ConstructTlv([CERT_INFO_TAG], [CERT_INFO_UNCOMPRESSED]);
      var errorTlv := ConstructTlv([ERROR_DETECTION_CODE_TAG], []);
      assert infoTlv.value + errorTlv.value == CERT_METADATA;
      assert certTlv.value + infoTlv.value + errorTlv.value == certTlv.value + CERT_METADATA;
      r := PutDataObject(id, certTlv.value + infoTlv.value + errorTlv.value);
    }

    method RetrieveCert(id: seq<byte>) returns (r: Result<seq<byte>, Error>)
      requires Valid() && reader.card.selected && |id| < 65536
      modifies reader
      ensures Valid() && reader.ready == old(reader.ready) && reader.card == old(reader.card)
      ensures r.Ok? <==> reader.ready && 0 < |old(reader.card).Stored(id)| < 65536
      ensures r.Ok? ==> r.value == ParseTlv(1, DropFive(old(reader.card).Stored(id))).2
    {
      hide ParseTlv;
      var data := GetData(id);
      match data
      case Err(error) => return Err(error);
      case Ok(stored) => return Ok(ParseTlv(1, DropFive(stored)).2);
    }

    /** The certificate that was stored is the one retrieved, to the byte. */
    method StoreThenRetrieveCert(id: seq<byte>, der: seq<byte>) returns (r: Result<seq<byte>, Error>)
      requires Valid() && reader.card.selected && |id| < 65536
      modifies reader
      ensures if old(reader.ready) && |der| <= 32_754 then r == Ok(der) else r.Err?
    {
      hide ParseTlv;
      var stored := StoreCert(id, der);
      if stored.Err? {
        return stored;
      }
      CertTrims(der);
      r := RetrieveCert(id);
    }
  }

  /** `subarray(0, -5)`. */
  function DropFive(s: seq<byte>): seq<byte> {
    if |s| < 5 then [] else s[..|s| - 5]
  }

  lemma FlattenThree(pieces: seq<seq<byte>>)
    requires |pieces| == 3
    ensures Flatten(pieces) == pieces[0] + pieces[1] + pieces[2]
  {
    var tail := pieces[1..];
    var last := tail[1..];
    assert last[1..] == [] && last[0] == pieces[2] && tail[0] == pieces[1];
    assert Flatten(last) == pieces[2];
  }
}
