/** Tag-length-value encoding and the command APDUs that carry it. */
module Apdu {
  import opened Wrappers
  import opened Bits

  // ---- buffers

  function Min(a: nat, b: nat): nat {
    if a <= b then a else b
  }

  /** `subarray(from, to)`, which caps both ends. */
  function Sub(s: seq<byte>, from: nat, to: nat): seq<byte> {
    if Min(from, |s|) <= Min(to, |s|) then s[Min(from, |s|)..Min(to, |s|)] else []
  }

  function Flatten(pieces: seq<seq<byte>>): seq<byte> {
    if pieces == [] then [] else pieces[0] + Flatten(pieces[1..])
  }

  lemma {:induction false} FlattenAppend(pieces: seq<seq<byte>>, more: seq<seq<byte>>)
    ensures Flatten(pieces + more) == Flatten(pieces) + Flatten(more)
  {
    if pieces == [] {
      assert pieces + more == more;
    } else {
      FlattenAppend(pieces[1..], more);
      assert (pieces + more)[1..] == pieces[1..] + more;
      assert pieces[0] + (Flatten(pieces[1..]) + Flatten(more)) == pieces[0] + Flatten(pieces[1..]) + Flatten(more);
    }
  }

  // ---- tag-length-value

  const ONE_BYTE_LENGTH: byte := 0x81
  const TWO_BYTE_LENGTH: byte := 0x82

  function TlvLength(n: nat): (bytes: seq<byte>)
    requires n < 65536
    ensures |bytes| == if n < 128 then 1 else if n < 256 then 2 else 3
  {
    if n < 128 then [n] else if n < 256 then [ONE_BYTE_LENGTH, n] else [TWO_BYTE_LENGTH, n / 256, n % 256]
  }

  /** `None` when the value is too large. */
  function ConstructTlv(tag: seq<byte>, value: seq<byte>): (tlv: Option<seq<byte>>)
    ensures tlv.Some? <==> |value| < 65536
    ensures tlv.Some? ==> |tlv.value| == |tag| + |TlvLength(|value|)| + |value|
  {
    if |value| < 65536 then Some(tag + TlvLength(|value|) + value) else None
  }

  /** Splits off the tag, the length field and everything after them, without checking them. */
  function ParseTlv(tagLength: nat, tlv: seq<byte>): (seq<byte>, seq<byte>, seq<byte>) {
    var lengthLength :=
      if tagLength < |tlv| && tlv[tagLength] == ONE_BYTE_LENGTH then 2
      else if tagLength < |tlv| && tlv[tagLength] == TWO_BYTE_LENGTH then 3
      else 1;
    (Sub(tlv, 0, tagLength), Sub(tlv, tagLength, tagLength + lengthLength), Sub(tlv, tagLength + lengthLength, |tlv|))
  }

  /** What a peer that checks lengths reads: a one-byte tag, the value, and what follows it. */
  function BerDecode(s: seq<byte>): Option<(byte, seq<byte>, seq<byte>)> {
    if |s| < 2 then None
    else if s[1] < 0x80 then BerValue(s[0], s[1], s[2..])
    else if s[1] == ONE_BYTE_LENGTH && |s| >= 3 then BerValue(s[0], s[2], s[3..])
    else if s[1] == TWO_BYTE_LENGTH && |s| >= 4 then BerValue(s[0], 256 * (s[2] as int) + (s[3] as int), s[4..])
    else None
  }

  function BerValue(tag: byte, length: nat, s: seq<byte>): Option<(byte, seq<byte>, seq<byte>)> {
    if length <= |s| then Some((tag, s[..length], s[length..])) else None
  }

  /** `parseTlv` inverts `constructTlv` for every tag and every value that has an encoding. */
  lemma ParseInvertsConstruct(tag: seq<byte>, value: seq<byte>)
    requires |value| < 65536
    ensures ParseTlv(|tag|, ConstructTlv(tag, value).value) == (tag, TlvLength(|value|), value)
  {
    var length := TlvLength(|value|);
    var tlv := tag + length + value;
    assert tlv[|tag|] == length[0] && |tlv| == |tag| + |length| + |value|;
    assert tlv[..|tag|] == tag;
    assert tlv[|tag|..|tag| + |length|] == length;
    assert tlv[|tag| + |length|..|tlv|] == value;
  }

  /** The encoding is BER: a strict reader finds the same value and stops at its end. */
  lemma BerReadsTlv(tag: byte, value: seq<byte>, rest: seq<byte>)
    requires |value| < 65536
    ensures BerDecode(ConstructTlv([tag], value).value + rest) == Some((tag, value, rest))
  {
    var length := TlvLength(|value|);
    var s := [tag] + length + value + rest;
    assert s[0] == tag && s[1] == length[0];
    assert s[1 + |length|..] == value + rest;
    assert (value + rest)[..|value|] == value && (value + rest)[|value|..] == rest;
    if |value| >= 256 {
      assert s[2] == length[1] && s[3] == length[2];
    } else if |value| >= 128 {
      assert s[2] == length[1];
    }
  }

  // ---- command APDUs

  const MAX_APDU_LENGTH := 260
  const MAX_COMMAND_APDU_DATA_LENGTH := 255
  const MAX_RESPONSE_APDU_DATA_LENGTH := 258

  const CLA_STANDARD: byte := 0x00
  const CLA_CHAINED: byte := 0x10

  datatype CommandApdu = CommandApdu(cla: byte, ins: byte, p1: byte, p2: byte, data: seq<byte>) {
    predicate Valid() {
      |data| <= MAX_COMMAND_APDU_DATA_LENGTH
    }

    function AsBuffer(): seq<byte>
      requires Valid()
    {
      [cla, ins, p1, p2, |data|] + data
    }
  }

  datatype CardCommand = CardCommand(ins: byte, p1: byte, p2: byte, data: seq<byte>)

  /** The chain that carries a command: full APDUs marked as chained, then the rest. */
  function Chain(c: CardCommand): (apdus: seq<CommandApdu>)
    ensures forall a :: a in apdus ==> a.Valid()
    decreases |c.data|
  {
    if |c.data| <= MAX_COMMAND_APDU_DATA_LENGTH then [CommandApdu(CLA_STANDARD, c.ins, c.p1, c.p2, c.data)]
    else
      [CommandApdu(CLA_CHAINED, c.ins, c.p1, c.p2, c.data[..MAX_COMMAND_APDU_DATA_LENGTH])]
      + Chain(c.(data := c.data[MAX_COMMAND_APDU_DATA_LENGTH..]))
  }

  function ApduCount(n: nat): nat {
    var count := (n + MAX_COMMAND_APDU_DATA_LENGTH - 1) / MAX_COMMAND_APDU_DATA_LENGTH;
    if count > 1 then count else 1
  }

  function DataOf(apdus: seq<CommandApdu>): seq<byte> {
    if apdus == [] then [] else apdus[0].data + DataOf(apdus[1..])
  }

  function Buffers(apdus: seq<CommandApdu>): (buffers: seq<seq<byte>>)
    requires forall a :: a in apdus ==> a.Valid()
    ensures |buffers| == |apdus|
    ensures forall i :: 0 <= i < |apdus| ==> buffers[i] == apdus[i].AsBuffer()
  {
    seq(|apdus|, i requires 0 <= i < |apdus| => assert apdus[i] in apdus; apdus[i].AsBuffer())
  }

  /** At least one APDU, and no more than the data fills. */
  lemma CountIsCeiling(n: nat)
    ensures ApduCount(n) >= 1 && n <= 255 * ApduCount(n)
    ensures ApduCount(n) > 1 ==> n > 255 * (ApduCount(n) - 1)
  {
  }

  /**
   A command of n bytes takes max(ceil(n / 255), 1) APDUs of at most 260 bytes, all but the last
   chained, and their data put together is the command's.
   */
  lemma {:induction false} ChainShape(c: CardCommand)
    ensures |Chain(c)| == ApduCount(|c.data|)
    ensures forall a :: a in Chain(c) ==> |a.AsBuffer()| <= 260 && a.ins == c.ins && a.p1 == c.p1 && a.p2 == c.p2
    ensures forall i :: 0 <= i < |Chain(c)| ==>
              Chain(c)[i].cla == if i < |Chain(c)| - 1 then 0x10 else 0x00
    ensures DataOf(Chain(c)) == c.data
    decreases |c.data|
  {
    if |c.data| <= MAX_COMMAND_APDU_DATA_LENGTH {
      assert Chain(c)[1..] == [];
      assert c.data + [] == c.data;
    } else {
      var c' := c.(data := c.data[MAX_COMMAND_APDU_DATA_LENGTH..]);
      ChainShape(c');
      assert Chain(c)[1..] == Chain(c');
      assert c.data == c.data[..MAX_COMMAND_APDU_DATA_LENGTH] + c'.data;
    }
  }

  /** A short command is one APDU: class, instruction, two parameters, the length, and the data. */
  lemma ShortChain(c: CardCommand)
    requires |c.data| <= 255
    ensures Buffers(Chain(c)) == [[0x00, c.ins, c.p1, c.p2, |c.data|] + c.data]
  {
  }

  /** The i-th APDU carries the i-th slice of the data. */
  lemma {:induction false} ChainAt(c: CardCommand, i: nat)
    requires i < ApduCount(|c.data|)
    ensures |Chain(c)| == ApduCount(|c.data|)
    ensures i * MAX_COMMAND_APDU_DATA_LENGTH <= |c.data|
    ensures i < ApduCount(|c.data|) - 1 ==> (i + 1) * MAX_COMMAND_APDU_DATA_LENGTH < |c.data|
    ensures Chain(c)[i] == CommandApdu(
              if i < ApduCount(|c.data|) - 1 then CLA_CHAINED else CLA_STANDARD, c.ins, c.p1, c.p2,
              Sub(c.data, i * MAX_COMMAND_APDU_DATA_LENGTH, (i + 1) * MAX_COMMAND_APDU_DATA_LENGTH))
    decreases i
  {
    hide DataOf, CommandApdu.AsBuffer;
    ChainShape(c);
    if |c.data| > MAX_COMMAND_APDU_DATA_LENGTH && i > 0 {
      var c' := c.(data := c.data[MAX_COMMAND_APDU_DATA_LENGTH..]);
      NextSlice(c.data, i);
      ChainAt(c', i - 1);
      assert Chain(c)[i] == Chain(c')[i - 1];
      hide Sub, ApduCount, Chain;
    }
  }

  lemma NextSlice(data: seq<byte>, i: nat)
    requires |data| > MAX_COMMAND_APDU_DATA_LENGTH && i > 0
    ensures ApduCount(|data|) == ApduCount(|data| - MAX_COMMAND_APDU_DATA_LENGTH) + 1
    ensures Sub(data[MAX_COMMAND_APDU_DATA_LENGTH..], (i - 1) * MAX_COMMAND_APDU_DATA_LENGTH, i * MAX_COMMAND_APDU_DATA_LENGTH)
         == Sub(data, i * MAX_COMMAND_APDU_DATA_LENGTH, (i + 1) * MAX_COMMAND_APDU_DATA_LENGTH)
  {
    SubOfTail(data, MAX_COMMAND_APDU_DATA_LENGTH, i * MAX_COMMAND_APDU_DATA_LENGTH, (i + 1) * MAX_COMMAND_APDU_DATA_LENGTH);
    hide Sub;
  }

  lemma SubOfTail(data: seq<byte>, m: nat, from: nat, to: nat)
    requires m <= |data| && m <= from <= to
    ensures Sub(data[m..], from - m, to - m) == Sub(data, from, to)
  {
  }

  method AsCommandApdus(c: CardCommand) returns (apdus: seq<CommandApdu>)
    ensures apdus == Chain(c)
  {
    hide Sub, DataOf, ApduCount, CommandApdu.AsBuffer;
    apdus := [];
    ChainShape(c);
    var numApdus := ApduCount(|c.data|);
    for i := 0 to numApdus
      invariant apdus == Chain(c)[..i]
    {
      ChainAt(c, i);
      var notLastApdu := i < numApdus - 1;
      var cla := if notLastApdu then CLA_CHAINED else CLA_STANDARD;
      apdus := apdus + [CommandApdu(cla, c.ins, c.p1, c.p2,
                                    Sub(c.data, i * MAX_COMMAND_APDU_DATA_LENGTH,
                                        i * MAX_COMMAND_APDU_DATA_LENGTH + MAX_COMMAND_APDU_DATA_LENGTH))];
    }
  }
}
