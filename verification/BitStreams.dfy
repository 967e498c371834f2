/** The bit writer and the bit reader: byte buffers with a bit cursor. */
module BitStreams {
  import opened Wrappers
  import opened Bits
  import opened BitFields

  /** The `used` high bits of a byte that is being filled. */
  function PendingBits(value: byte, used: nat): (bits: seq<bool>)
    requires used <= BYTE_SIZE
    ensures |bits| == used
  {
    ToBits(value / Pow2(BYTE_SIZE - used), used)
  }

  /** Setting the next bit with its mask appends it to the pending bits. */
  lemma AddBit(value: byte, used: nat, b: bool)
    requires used < BYTE_SIZE
    requires value % Pow2(BYTE_SIZE - used) == 0
    ensures var value' := value + (if b then Pow2(BYTE_SIZE - 1 - used) else 0);
            && value' < 256
            && value' % Pow2(BYTE_SIZE - 1 - used) == 0
            && PendingBits(value', used + 1) == PendingBits(value, used) + [b]
            && (used + 1 == BYTE_SIZE ==> ToBits(value', BYTE_SIZE) == PendingBits(value, used) + [b])
  {
    AddBitValue(value, used);
    var p := Pow2(BYTE_SIZE - 1 - used);
    assert Pow2(BYTE_SIZE - used) == 2 * p;
    assert Pow2(0) == 1;
    AppendBit(value, p, b);
    ToBitsStep(value / (2 * p), used, b);
    hide ToBits, Pow2;
  }

  lemma ToBitsStep(high: nat, used: nat, b: bool)
    ensures ToBits(2 * high + (if b then 1 else 0), used + 1) == ToBits(high, used) + [b]
  {
  }

  lemma AppendBit(value: nat, p: nat, b: bool)
    requires p >= 1 && value % (2 * p) == 0
    ensures (value + (if b then p else 0)) % p == 0
    ensures (value + (if b then p else 0)) / p == 2 * (value / (2 * p)) + (if b then 1 else 0)
  {
    var high := value / (2 * p);
    assert value == high * (2 * p);
    Doubling(high, p);
    DivUnique(value + (if b then p else 0), p, 2 * high + (if b then 1 else 0), 0);
  }

  lemma AddBitValue(value: byte, used: nat)
    requires used < BYTE_SIZE
    requires value % Pow2(BYTE_SIZE - used) == 0
    ensures value + Pow2(BYTE_SIZE - 1 - used) < 256
  {
    assert Pow2(1) == 2 && Pow2(2) == 4 && Pow2(3) == 8 && Pow2(4) == 16;
    assert Pow2(5) == 32 && Pow2(6) == 64 && Pow2(7) == 128 && Pow2(8) == 256;
    if used == 0 || used == 1 || used == 2 || used == 3 {
    } else if used == 4 || used == 5 || used == 6 {
    }
  }

  class BitWriter {
    var data: seq<byte>
    // The bit offset of the next bit to write.
    var cursor: nat
    // The byte being filled, high bits first; its unwritten low bits are clear.
    var nextByte: byte

    ghost predicate Valid()
      reads this
    {
      && cursor / BYTE_SIZE == |data|
      && nextByte % Pow2(BYTE_SIZE - cursor % BYTE_SIZE) == 0
    }

    /** Every bit written so far. */
    ghost function Written(): (bits: seq<bool>)
      requires Valid()
      reads this
      ensures |bits| == cursor
    {
      Unpack(data) + PendingBits(nextByte, cursor % BYTE_SIZE)
    }

    constructor ()
      ensures Valid() && Written() == []
    {
      data, cursor, nextByte := [], 0, 0;
    }

    method WriteBoolean(b: bool)
      requires Valid()
      modifies this
      ensures Valid() && Written() == old(Written()) + [b]
    {
      hide ToBits, Unpack, Padding, Pow2;
      var mask := if b then Pow2(BYTE_SIZE - 1 - cursor % BYTE_SIZE) else 0;
      AddBit(nextByte, cursor % BYTE_SIZE, b);
      ghost var before, pending := Unpack(data), PendingBits(nextByte, cursor % BYTE_SIZE);
      // The masked bit is still clear, so setting it is an addition.
      nextByte := nextByte + mask;
      cursor := cursor + 1;
      if cursor % BYTE_SIZE == 0 {
        UnpackAppend(data, [nextByte]);
        UnpackByte(nextByte);
        data := data + [nextByte];
        nextByte := 0;
      }
      Assoc(before, pending, [b]);
      EmptyParts(data);
    }

    method WriteUint(number: nat, size: nat) returns (r: Outcome)
      requires Valid() && size <= MAX_WIDTH
      modifies this
      ensures Valid()
      ensures r.Pass? <==> UintField(number, size).Some?
      ensures r.Pass? ==> Written() == old(Written()) + UintField(number, size).value
    {
      if number >= Pow2(size) {
        return Fail;
      }
      if size == BYTE_SIZE && cursor % BYTE_SIZE == 0 {
        WriteAlignedByte(number);
      } else {
        WriteMaskedBits(number, size);
      }
      return Pass;
    }

    method WriteAlignedByte(number: nat)
      requires Valid() && cursor % BYTE_SIZE == 0 && number < Pow2(BYTE_SIZE)
      modifies this
      ensures Valid() && Written() == old(Written()) + ToBits(number, BYTE_SIZE)
    {
      assert Pow2(8) == 256;
      UnpackAppend(data, [number]);
      UnpackByte(number);
      data := data + [number];
      cursor := cursor + BYTE_SIZE;
    }

    method WriteMaskedBits(number: nat, size: nat)
      requires Valid() && size <= MAX_WIDTH
      modifies this
      ensures Valid() && Written() == old(Written()) + ToBits(number, size)
    {
      ghost var bits, start := ToBits(number, size), Written();
      for i := size downto 0
        invariant Valid()
        invariant Written() == start + bits[..size - i]
      {
        BitAt(number, size, size - 1 - i);
        WriteBoolean(number / Pow2(i) % 2 == 1);
        assert bits[..size - i] == bits[..size - i - 1] + [bits[size - i - 1]];
      }
    }

    method WriteBounded(number: nat, max: int) returns (r: Outcome)
      requires Valid()
      modifies this
      ensures Valid()
      ensures r.Pass? <==> BoundedField(number, max).Some?
      ensures r.Pass? ==> Written() == old(Written()) + BoundedField(number, max).value
    {
      if number > max || max > MAX_UINT {
        return Fail;
      }
      SizeofIsTight(max);
      SizeLimit(max);
      assert number < Pow2(Sizeof(max));
      r := WriteUint(number, Sizeof(max));
    }

    method WriteCodes(codes: seq<nat>, width: nat) returns (r: Outcome)
      requires Valid() && width <= MAX_WIDTH
      modifies this
      ensures Valid()
      ensures r.Pass? <==> CodesField(codes, width).Some?
      ensures r.Pass? ==> Written() == old(Written()) + CodesField(codes, width).value
    {
      hide ToBits, Pow2, BitWriter.Written;
      ghost var whole := CodesField(codes, width);
      ghost var start := Written();
      for i := 0 to |codes|
        invariant Valid()
        invariant whole.Some? <==> CodesField(codes[i..], width).Some?
        invariant whole.Some? ==> start + whole.value == Written() + CodesField(codes[i..], width).value
      {
        assert codes[i..][1..] == codes[i + 1..];
        ghost var written := Written();
        :- WriteUint(codes[i], width);
        if whole.Some? {
          Assoc(written, ToBits(codes[i], width), CodesField(codes[i + 1..], width).value);
        }
      }
      return Pass;
    }

    method WriteText(codes: seq<nat>, width: nat, maxLength: nat) returns (r: Outcome)
      requires Valid() && width <= MAX_WIDTH
      modifies this
      ensures Valid()
      ensures r.Pass? <==> TextField(codes, width, maxLength).Some?
      ensures r.Pass? ==> Written() == old(Written()) + TextField(codes, width, maxLength).value
    {
      var length := |codes|;
      :- WriteBounded(length, maxLength);
      r := WriteCodes(codes, width);
    }

    method WriteString(s: string, chars: string, maxLength: nat) returns (r: Outcome)
      requires Valid() && 0 < |chars| <= MAX_CHARS
      modifies this
      ensures Valid()
      ensures r.Pass? <==> StringField(chars, s, maxLength).Some?
      ensures r.Pass? ==> Written() == old(Written()) + StringField(chars, s, maxLength).value
    {
      CharWidthLimit(chars);
      var codes := EncodeChars(chars, s);
      if codes.None? {
        return Fail;
      }
      r := WriteText(codes.value, CharWidth(chars), maxLength);
    }

    method WriteFixedString(s: string, chars: string, length: nat) returns (r: Outcome)
      requires Valid() && 0 < |chars| <= MAX_CHARS
      modifies this
      ensures Valid()
      ensures r.Pass? <==> FixedStringField(chars, s, length).Some?
      ensures r.Pass? ==> Written() == old(Written()) + FixedStringField(chars, s, length).value
    {
      CharWidthLimit(chars);
      var codes := EncodeChars(chars, s);
      if codes.None? || |s| != length {
        return Fail;
      }
      r := WriteCodes(codes.value, CharWidth(chars));
    }

    /** The bytes written, the last one padded with zero bits. */
    method ToUint8Array() returns (bytes: seq<byte>)
      requires Valid()
      ensures Unpack(bytes) == Written() + Padding(|Written()|)
    {
      hide ToBits, Unpack;
      EmptyParts(data);
      if cursor % BYTE_SIZE == 0 {
        return data;
      }
      PaddedByte(nextByte, cursor % BYTE_SIZE);
      Assoc(Unpack(data), PendingBits(nextByte, cursor % BYTE_SIZE), Padding(cursor));
      UnpackAppend(data, [nextByte]);
      UnpackByte(nextByte);
      return data + [nextByte];
    }
  }

  lemma PaddedByte(value: byte, used: nat)
    requires used < BYTE_SIZE && value % Pow2(BYTE_SIZE - used) == 0
    ensures ToBits(value, BYTE_SIZE) == PendingBits(value, used) + Zeros(BYTE_SIZE - used)
  {
    hide ToBits, Pow2;
    ToBitsShift(value / Pow2(BYTE_SIZE - used), used, BYTE_SIZE - used);
  }

  lemma MaskStep(read: seq<bool>, b: bool, i: nat)
    ensures FromBits(read + [b]) * Pow2(i) == FromBits(read) * Pow2(i + 1) + if b then Pow2(i) else 0
  {
    FromBitsAppend(read, b);
    Doubling(FromBits(read), Pow2(i));
  }

  lemma NoBits(size: nat)
    ensures FromBits([]) * Pow2(size) == 0
    ensures Pow2(0) == 1
  {
  }

  lemma EmptyParts(data: seq<byte>)
    ensures PendingBits(0, 0) == [] && Padding(0) == [] && Unpack(data) + [] == Unpack(data)
  {
  }

  lemma Doubling(n: nat, p: nat)
    ensures n * (2 * p) == (2 * n) * p
    ensures n * (2 * p) + p == (2 * n + 1) * p
  {
  }

  /** The zero bits that complete the last byte. */
  function Padding(n: nat): (bits: seq<bool>)
    ensures |bits| < BYTE_SIZE
    ensures (n + |bits|) % BYTE_SIZE == 0
    ensures forall i :: 0 <= i < |bits| ==> !bits[i]
  {
    Zeros((BYTE_SIZE - n % BYTE_SIZE) % BYTE_SIZE)
  }

  class BitReader {
    const data: seq<byte>
    var cursor: nat

    ghost predicate Valid()
      reads this
    {
      cursor <= BYTE_SIZE * |data|
    }

    /** The bits still to be read. */
    ghost function Rest(): seq<bool>
      requires Valid()
      reads this
    {
      Unpack(data)[cursor..]
    }

    constructor (bytes: seq<byte>)
      ensures Valid() && Rest() == Unpack(bytes)
    {
      data, cursor := bytes, 0;
    }

    method CanRead(size: nat) returns (b: bool)
      requires Valid()
      ensures b == (size <= |Rest()|)
    {
      b := cursor + size <= BYTE_SIZE * |data|;
    }

    method ReadUint1() returns (r: Option<bool>)
      requires Valid()
      modifies this
      ensures Valid()
      ensures match ReadBool(old(Rest()))
              case Malformed => r == None
              case Read(b, rest) => r == Some(b) && Rest() == rest
    {
      if cursor / BYTE_SIZE >= |data| {
        return None;
      }
      var byte := data[cursor / BYTE_SIZE];
      var bitOffset := cursor % BYTE_SIZE;
      UnpackAt(data, cursor);
      BitAt(byte, BYTE_SIZE, bitOffset);
      cursor := cursor + 1;
      return Some(byte / Pow2(BYTE_SIZE - 1 - bitOffset) % 2 == 1);
    }

    method ReadSized(size: nat) returns (r: Option<nat>)
      requires Valid() && size <= MAX_WIDTH
      modifies this
      ensures Valid()
      ensures match ReadUint(old(Rest()), size)
              case Malformed => r == None
              case Read(n, rest) => r == Some(n) && Rest() == rest
    {
      if size == BYTE_SIZE && cursor % BYTE_SIZE == 0 {
        if cursor / BYTE_SIZE >= |data| {
          return None;
        }
        ghost var bits := Rest();
        var byte := data[cursor / BYTE_SIZE];
        UnpackSlice(data, cursor / BYTE_SIZE);
        assert bits[..size] == ToBits(byte, BYTE_SIZE);
        assert Pow2(8) == 256;
        FromToBits(byte, BYTE_SIZE);
        cursor := cursor + BYTE_SIZE;
        return Some(byte);
      }
      r := ReadMaskedBits(size);
    }

    method ReadMaskedBits(size: nat) returns (r: Option<nat>)
      requires Valid() && size <= MAX_WIDTH
      modifies this
      ensures Valid()
      ensures match ReadUint(old(Rest()), size)
              case Malformed => r == None
              case Read(n, rest) => r == Some(n) && Rest() == rest
    {
      hide FromBits, Pow2;
      ghost var bits := Rest();
      var result := 0;
      NoBits(size);
      for i := size downto 0
        invariant Valid()
        invariant size - i <= |bits| && Rest() == bits[size - i..]
        invariant result == FromBits(bits[..size - i]) * Pow2(i)
      {
        ghost var read := bits[..size - i - 1];
        var bit := ReadUint1();
        if bit.None? {
          return None;
        }
        MaskStep(read, bit.value, i);
        assert bits[..size - i] == read + [bit.value];
        if bit.value {
          // The masked bit is still clear, so setting it is an addition.
          result := result + Pow2(i);
        }
      }
      return Some(result);
    }

    method ReadMax(max: int) returns (r: Option<nat>)
      requires Valid()
      modifies this
      ensures Valid()
      ensures match ReadBounded(old(Rest()), max)
              case Malformed => r == None
              case Read(n, rest) => r == Some(n) && Rest() == rest
    {
      if max < 0 || max > MAX_UINT {
        return None;
      }
      SizeLimit(max);
      r := ReadSized(Sizeof(max));
    }

    method ReadCharCodes(count: nat, width: nat) returns (r: Option<seq<nat>>)
      requires Valid() && width <= MAX_WIDTH
      modifies this
      ensures Valid()
      ensures match ReadCodes(old(Rest()), count, width)
              case Malformed => r == None
              case Read(codes, rest) => r == Some(codes) && Rest() == rest
    {
      var codes := [];
      ghost var whole := ReadCodes(Rest(), count, width);
      assert whole.Read? ==> [] + whole.value == whole.value;
      for i := 0 to count
        invariant Valid()
        invariant match ReadCodes(Rest(), count - i, width)
                  case Malformed => whole == Malformed
                  case Read(others, rest) => whole == Read(codes + others, rest)
      {
        var code := ReadSized(width);
        if code.None? {
          return None;
        }
        ghost var others := ReadCodes(Rest(), count - i - 1, width);
        if others.Read? { Assoc(codes, [code.value], others.value); }
        codes := codes + [code.value];
      }
      assert codes + [] == codes;
      return Some(codes);
    }

    method ReadLengthPrefixed(width: nat, maxLength: nat) returns (r: Option<seq<nat>>)
      requires Valid() && width <= MAX_WIDTH
      modifies this
      ensures Valid()
      ensures match ReadText(old(Rest()), width, maxLength)
              case Malformed => r == None
              case Read(codes, rest) => r == Some(codes) && Rest() == rest
    {
      var length := ReadMax(maxLength);
      if length.None? {
        return None;
      }
      r := ReadCharCodes(length.value, width);
    }

    method ReadChars(chars: string, maxLength: nat) returns (r: Option<string>)
      requires Valid() && 0 < |chars| <= MAX_CHARS
      modifies this
      ensures Valid()
      ensures match ReadString(old(Rest()), chars, maxLength)
              case Malformed => r == None
              case Read(s, rest) => r == Some(s) && Rest() == rest
    {
      CharWidthLimit(chars);
      var codes := ReadLengthPrefixed(CharWidth(chars), maxLength);
      if codes.None? {
        return None;
      }
      r := DecodeChars(chars, codes.value);
    }

    method ReadFixedChars(chars: string, length: nat) returns (r: Option<string>)
      requires Valid() && 0 < |chars| <= MAX_CHARS
      modifies this
      ensures Valid()
      ensures match ReadFixedString(old(Rest()), chars, length)
              case Malformed => r == None
              case Read(s, rest) => r == Some(s) && Rest() == rest
    {
      CharWidthLimit(chars);
      var codes := ReadCharCodes(length, CharWidth(chars));
      if codes.None? {
        return None;
      }
      r := DecodeChars(chars, codes.value);
    }

    /** Skips `expected` if those bytes come next; otherwise stays in place. */
    method SkipUint8(expected: seq<byte>) returns (b: bool)
      requires Valid()
      modifies this
      ensures Valid()
      ensures match SkipBytes(old(Rest()), expected)
              case None => !b && Rest() == old(Rest())
              case Some(rest) => b && Rest() == rest
    {
      var originalCursor := cursor;
      ghost var whole := SkipBytes(Rest(), expected);
      for i := 0 to |expected|
        invariant Valid()
        invariant SkipBytes(Rest(), expected[i..]) == whole
      {
        assert expected[i..][1..] == expected[i + 1..];
        var fits := CanRead(BYTE_SIZE);
        var byte: Option<nat> := None;
        if fits {
          byte := ReadSized(BYTE_SIZE);
        }
        if byte != Some(expected[i]) {
          cursor := originalCursor;
          return false;
        }
      }
      return true;
    }
  }
}
