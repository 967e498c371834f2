/**
 The fields a bit stream is made of, as functions on bit strings: what writing
 one appends (`None` where the writer throws) and what reading one consumes
 (`Malformed` where the reader throws).
 */
module BitFields {
  import opened Wrappers
  import opened Bits

  datatype Parsed<+T> = Malformed | Read(value: T, rest: seq<bool>) {
    predicate IsFailure() {
      Malformed?
    }

    function PropagateFailure<U>(): Parsed<U> {
      Malformed
    }

    function Extract(): (T, seq<bool>)
      requires Read?
    {
      (value, rest)
    }
  }

  /** Numbers are shifted as signed 32-bit integers, so a larger bound has no size. */
  const MAX_UINT: int := 0x7fff_ffff

  /** The masks of a wider field wrap around. */
  const MAX_WIDTH := 31

  // ---- unsigned integers

  function UintField(n: nat, size: nat): Option<seq<bool>> {
    if n < Pow2(size) then Some(ToBits(n, size)) else None
  }

  function BoundedField(n: nat, max: int): Option<seq<bool>> {
    if n <= max <= MAX_UINT then Some(ToBits(n, Sizeof(max))) else None
  }

  function ReadUint(bits: seq<bool>, size: nat): Parsed<nat> {
    if |bits| < size then Malformed else Read(FromBits(bits[..size]), bits[size..])
  }

  function ReadBounded(bits: seq<bool>, max: int): Parsed<nat> {
    if 0 <= max <= MAX_UINT then ReadUint(bits, Sizeof(max)) else Malformed
  }

  function ReadBool(bits: seq<bool>): Parsed<bool> {
    if bits == [] then Malformed else Read(bits[0], bits[1..])
  }

  /** What is left once `expected` has been skipped, if those bytes come first. */
  function SkipBytes(bits: seq<bool>, expected: seq<byte>): Option<seq<bool>> {
    if expected == [] then Some(bits)
    else if |bits| < BYTE_SIZE || FromBits(bits[..BYTE_SIZE]) != expected[0] then None
    else SkipBytes(bits[BYTE_SIZE..], expected[1..])
  }

  // ---- character codes

  function CodesField(codes: seq<nat>, width: nat): Option<seq<bool>> {
    if codes == [] then Some([])
    else
      var first :- UintField(codes[0], width);
      var others :- CodesField(codes[1..], width);
      Some(first + others)
  }

  function ReadCodes(bits: seq<bool>, count: nat, width: nat): (r: Parsed<seq<nat>>)
    ensures r.Read? ==> |r.value| == count && forall c :: c in r.value ==> c < Pow2(width)
  {
    if count == 0 then Read([], bits)
    else
      var (first, rest) :- ReadUint(bits, width);
      ToFromBits(bits[..width]);
      var (others, rest') :- ReadCodes(rest, count - 1, width);
      Read([first] + others, rest')
  }

  /** A length-prefixed run of character codes. */
  function TextField(codes: seq<nat>, width: nat, maxLength: nat): Option<seq<bool>> {
    var length :- BoundedField(|codes|, maxLength);
    var content :- CodesField(codes, width);
    Some(length + content)
  }

  function ReadText(bits: seq<bool>, width: nat, maxLength: nat): Parsed<seq<nat>> {
    var (length, rest) :- ReadBounded(bits, maxLength);
    ReadCodes(rest, length, width)
  }

  // ---- character sets

  function IndexOf(chars: string, c: char): (i: int)
    ensures -1 <= i < |chars|
    ensures i >= 0 ==> chars[i] == c
    ensures i == -1 <==> c !in chars
  {
    if chars == [] then -1
    else if chars[0] == c then 0
    else
      var i := IndexOf(chars[1..], c);
      if i < 0 then -1 else i + 1
  }

  /** Each character becomes its index in the character set. */
  function EncodeChars(chars: string, s: string): Option<seq<nat>> {
    if s == [] then Some([])
    else
      var i := IndexOf(chars, s[0]);
      if i < 0 then None
      else
        var others :- EncodeChars(chars, s[1..]);
        Some([i as nat] + others)
  }

  function DecodeChars(chars: string, codes: seq<nat>): Option<string> {
    if codes == [] then Some([])
    else if codes[0] >= |chars| then None
    else
      var others :- DecodeChars(chars, codes[1..]);
      Some([chars[codes[0]]] + others)
  }

  function CharWidth(chars: string): nat
    requires chars != []
  {
    Sizeof(|chars| - 1)
  }

  function StringField(chars: string, s: string, maxLength: nat): Option<seq<bool>>
    requires chars != []
  {
    var codes :- EncodeChars(chars, s);
    TextField(codes, CharWidth(chars), maxLength)
  }

  function FixedStringField(chars: string, s: string, length: nat): Option<seq<bool>>
    requires chars != []
  {
    var codes :- EncodeChars(chars, s);
    if |s| != length then None else CodesField(codes, CharWidth(chars))
  }

  function DecodedString(chars: string, codes: Parsed<seq<nat>>): Parsed<string> {
    var (c, rest) :- codes;
    match DecodeChars(chars, c)
    case None => Malformed
    case Some(s) => Read(s, rest)
  }

  function ReadString(bits: seq<bool>, chars: string, maxLength: nat): Parsed<string>
    requires chars != []
  {
    DecodedString(chars, ReadText(bits, CharWidth(chars), maxLength))
  }

  function ReadFixedString(bits: seq<bool>, chars: string, length: nat): Parsed<string>
    requires chars != []
  {
    DecodedString(chars, ReadCodes(bits, length, CharWidth(chars)))
  }

  // ---- field widths

  /** A bound is in range exactly when it occupies at most 31 bits. */
  lemma SizeLimit(n: nat)
    ensures n <= MAX_UINT <==> Sizeof(n) <= 31
  {
    SizeofIsTight(n);
    SizeofIsTight(MAX_UINT);
    PowerOf31();
    if n <= MAX_UINT {
      if Sizeof(n) > 31 {
        Pow2Monotone(31, Sizeof(n) - 1);
      }
    } else if Sizeof(n) <= 31 {
      Pow2Monotone(Sizeof(n), 31);
    }
  }

  lemma PowerOf31()
    ensures Pow2(31) == 0x8000_0000
  {
    assert Pow2(8) == 0x100;
    assert Pow2(16) == 0x1_0000;
    assert Pow2(24) == 0x100_0000;
  }

  /** Codes are bytes, so a character set has at most 256 of them. */
  const MAX_CHARS := 256

  lemma CharWidthLimit(chars: string)
    requires 0 < |chars| <= MAX_CHARS
    ensures CharWidth(chars) <= BYTE_SIZE
  {
    SizeofMonotone(|chars| - 1, MAX_CHARS - 1);
    assert Sizeof(255) == 1 + Sizeof(127) && Sizeof(127) == 1 + Sizeof(63) && Sizeof(63) == 1 + Sizeof(31);
    assert Sizeof(31) == 1 + Sizeof(15) && Sizeof(15) == 4;
  }

  // ---- reading back what was written

  lemma UintReadsBack(n: nat, size: nat, rest: seq<bool>)
    requires n < Pow2(size)
    ensures ReadUint(ToBits(n, size) + rest, size) == Read(n, rest)
  {
    FromToBits(n, size);
    var bits := ToBits(n, size) + rest;
    assert bits[..size] == ToBits(n, size) && bits[size..] == rest;
  }

  lemma {:induction false} BytesSkip(bytes: seq<byte>, rest: seq<bool>)
    ensures SkipBytes(Unpack(bytes) + rest, bytes) == Some(rest)
  {
    if bytes == [] {
      assert [] + rest == rest;
    } else {
      var bits := Unpack(bytes) + rest;
      assert Pow2(8) == 256;
      FromToBits(bytes[0], BYTE_SIZE);
      assert bits[..BYTE_SIZE] == ToBits(bytes[0], BYTE_SIZE);
      assert bits[BYTE_SIZE..] == Unpack(bytes[1..]) + rest;
      BytesSkip(bytes[1..], rest);
    }
  }

  lemma BoundedReadsBack(n: nat, max: int, rest: seq<bool>)
    requires BoundedField(n, max).Some?
    ensures ReadBounded(BoundedField(n, max).value + rest, max) == Read(n, rest)
  {
    SizeofIsTight(max);
    UintReadsBack(n, Sizeof(max), rest);
  }

  lemma BoolReadsBack(b: bool, rest: seq<bool>)
    ensures ReadBool([b] + rest) == Read(b, rest)
  {
    assert ([b] + rest)[1..] == rest;
  }

  lemma {:induction false} CodesReadBack(codes: seq<nat>, width: nat, rest: seq<bool>)
    requires CodesField(codes, width).Some?
    ensures ReadCodes(CodesField(codes, width).value + rest, |codes|, width) == Read(codes, rest)
  {
    if codes == [] {
      assert [] + rest == rest;
    } else {
      var first := ToBits(codes[0], width);
      var others := CodesField(codes[1..], width).value;
      assert first + others + rest == first + (others + rest);
      UintReadsBack(codes[0], width, others + rest);
      CodesReadBack(codes[1..], width, rest);
      assert codes == [codes[0]] + codes[1..];
    }
  }

  lemma TextReadsBack(codes: seq<nat>, width: nat, maxLength: nat, rest: seq<bool>)
    requires TextField(codes, width, maxLength).Some?
    ensures ReadText(TextField(codes, width, maxLength).value + rest, width, maxLength) == Read(codes, rest)
  {
    var length := BoundedField(|codes|, maxLength).value;
    var content := CodesField(codes, width).value;
    assert length + content + rest == length + (content + rest);
    BoundedReadsBack(|codes|, maxLength, content + rest);
    CodesReadBack(codes, width, rest);
  }

  lemma {:induction false} CharsDecode(chars: string, s: string)
    requires EncodeChars(chars, s).Some?
    ensures |EncodeChars(chars, s).value| == |s|
    ensures DecodeChars(chars, EncodeChars(chars, s).value) == Some(s)
  {
    if s != [] {
      CharsDecode(chars, s[1..]);
      assert EncodeChars(chars, s).value[1..] == EncodeChars(chars, s[1..]).value;
      assert s == [s[0]] + s[1..];
    }
  }

  lemma {:induction false} CharsEncodable(chars: string, s: string)
    ensures EncodeChars(chars, s).Some? <==> forall c :: c in s ==> c in chars
  {
    if s != [] {
      CharsEncodable(chars, s[1..]);
      assert forall c :: c in s <==> c == s[0] || c in s[1..];
    }
  }

  lemma {:induction false} CodesFit(chars: string, s: string)
    requires chars != []
    requires EncodeChars(chars, s).Some?
    ensures CodesField(EncodeChars(chars, s).value, CharWidth(chars)).Some?
  {
    SizeofIsTight(|chars| - 1);
    if s != [] {
      CodesFit(chars, s[1..]);
      assert EncodeChars(chars, s).value[1..] == EncodeChars(chars, s[1..]).value;
    }
  }

  lemma StringReadsBack(chars: string, s: string, maxLength: nat, rest: seq<bool>)
    requires chars != []
    requires StringField(chars, s, maxLength).Some?
    ensures ReadString(StringField(chars, s, maxLength).value + rest, chars, maxLength) == Read(s, rest)
  {
    CharsDecode(chars, s);
    TextReadsBack(EncodeChars(chars, s).value, CharWidth(chars), maxLength, rest);
  }

  /** A string is encodable exactly when it is short enough and in the character set. */
  lemma StringEncodable(chars: string, s: string, maxLength: nat)
    requires chars != [] && maxLength <= MAX_UINT
    ensures StringField(chars, s, maxLength).Some?
       <==> |s| <= maxLength && forall c :: c in s ==> c in chars
  {
    CharsEncodable(chars, s);
    if EncodeChars(chars, s).Some? {
      CharsDecode(chars, s);
      CodesFit(chars, s);
    }
  }

  lemma FixedStringReadsBack(chars: string, s: string, length: nat, rest: seq<bool>)
    requires chars != []
    requires FixedStringField(chars, s, length).Some?
    ensures ReadFixedString(FixedStringField(chars, s, length).value + rest, chars, length) == Read(s, rest)
  {
    CharsDecode(chars, s);
    CodesReadBack(EncodeChars(chars, s).value, CharWidth(chars), rest);
  }

  lemma FixedStringEncodable(chars: string, s: string, length: nat)
    requires chars != []
    ensures FixedStringField(chars, s, length).Some?
       <==> |s| == length && forall c :: c in s ==> c in chars
  {
    CharsEncodable(chars, s);
    if EncodeChars(chars, s).Some? {
      CodesFit(chars, s);
    }
  }

  lemma {:induction false} CodesLength(codes: seq<nat>, width: nat)
    ensures CodesField(codes, width).Some? ==> |CodesField(codes, width).value| == |codes| * width
  {
    if codes != [] {
      CodesLength(codes[1..], width);
      assert |codes| * width == width + (|codes| - 1) * width;
    }
  }

  // ---- what was read determines the bits it was read from

  lemma UintReadExactly(n: nat, size: nat, bits: seq<bool>, rest: seq<bool>)
    ensures ReadUint(bits, size) == Read(n, rest) <==> n < Pow2(size) && bits == ToBits(n, size) + rest
  {
    if n < Pow2(size) {
      UintReadsBack(n, size, rest);
    }
    if |bits| >= size {
      ToFromBits(bits[..size]);
      assert bits == bits[..size] + bits[size..];
    }
  }

  lemma {:induction false} CodesReadExactly(codes: seq<nat>, width: nat, bits: seq<bool>, rest: seq<bool>)
    ensures ReadCodes(bits, |codes|, width) == Read(codes, rest)
       <==> CodesField(codes, width).Some? && bits == CodesField(codes, width).value + rest
  {
    hide ReadUint, ToBits;
    if CodesField(codes, width).Some? {
      CodesReadBack(codes, width, rest);
    }
    if codes == [] {
      assert [] + rest == rest;
    } else if ReadCodes(bits, |codes|, width) == Read(codes, rest) {
      var first := ReadUint(bits, width);
      UintReadExactly(first.value, width, bits, first.rest);
      CodesReadExactly(codes[1..], width, first.rest, rest);
      Assoc(ToBits(codes[0], width), CodesField(codes[1..], width).value, rest);
    }
  }

  predicate DistinctChars(chars: string) {
    forall i, j :: 0 <= i < j < |chars| ==> chars[i] != chars[j]
  }

  /** With no character twice in the set, each string has one run of codes. */
  lemma {:induction false} CharsExactly(chars: string, s: string, codes: seq<nat>)
    requires DistinctChars(chars)
    ensures DecodeChars(chars, codes) == Some(s) <==> EncodeChars(chars, s) == Some(codes)
    decreases codes
  {
    if EncodeChars(chars, s).Some? {
      CharsDecode(chars, s);
    }
    if DecodeChars(chars, codes).Some? && codes != [] {
      var others := DecodeChars(chars, codes[1..]).value;
      CharsExactly(chars, others, codes[1..]);
      assert IndexOf(chars, chars[codes[0]]) == codes[0];
      assert ([chars[codes[0]]] + others)[1..] == others;
      assert codes == [codes[0]] + codes[1..];
    }
  }
}
