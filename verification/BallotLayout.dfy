/** Where each part of a ballot lies in the bits, for the encoder and the decoder alike. */
module BallotLayout {
  import opened Wrappers
  import opened Bits
  import opened BitFields
  import opened BitStreams
  import opened Election
  import opened BallotFormat
  import opened BallotRoundTrip

  function Number(bits: seq<bool>, from: nat, size: nat): nat
    requires from + size <= |bits|
  {
    FromBits(bits[from..from + size])
  }

  function HexValue(c: char): int {
    if '0' <= c <= '9' then c as int - '0' as int else c as int - 'a' as int + 10
  }

  /** "VX" and version 2, twenty hexadecimal digits of the hash, and the three counts: 128 bits in all. */
  predicate CountsLaid(e: Election, hash: string, bits: seq<bool>) {
    && |bits| >= 128
    && Number(bits, 0, 8) == 'V' as int && Number(bits, 8, 8) == 'X' as int && Number(bits, 16, 8) == 2
    && |hash| == 20 && (forall i :: 0 <= i < 20 ==> Number(bits, 24 + 4 * i, 4) == HexValue(hash[i]))
    && Number(bits, 104, 8) == |e.precincts|
    && Number(bits, 112, 8) == |e.ballotStyles|
    && Number(bits, 120, 8) == |e.contests|
  }

  /** Then the two indices, as wide as the lists need, the mode, and the ballot id if there is one. */
  predicate ConfigLaid(e: Election, config: Config, bits: seq<bool>, end: nat)
    requires e.precincts != [] && e.ballotStyles != []
  {
    var p, s := Sizeof(|e.precincts| - 1), Sizeof(|e.ballotStyles| - 1);
    var mode := 128 + p + s;
    && mode + 6 <= end <= |bits|
    && Number(bits, 128, p) < |e.precincts| && e.precincts[Number(bits, 128, p)].id == config.precinctId
    && Number(bits, 128 + p, s) < |e.ballotStyles| && e.ballotStyles[Number(bits, 128 + p, s)].id == config.ballotStyleId
    && bits[mode] == config.isTestMode
    && Number(bits, mode + 1, 4) == config.ballotType
    && bits[mode + 5] == config.ballotId.Some?
    && match config.ballotId {
         case None => end == mode + 6
         case Some(id) =>
           && end == mode + 14 + 8 * |id| && id != [] && id[0] != '_' as int
           && Number(bits, mode + 6, 8) == |id|
           && forall i :: 0 <= i < |id| ==> Number(bits, mode + 14 + 8 * i, 8) == id[i]
       }
  }

  // ---- reading at a place

  lemma UintAt(bits: seq<bool>, from: nat, size: nat)
    requires from <= |bits| && ReadUint(bits[from..], size).Read?
    ensures from + size <= |bits|
    ensures ReadUint(bits[from..], size) == Read(Number(bits, from, size), bits[from + size..])
  {
    assert bits[from..][..size] == bits[from..from + size];
    assert bits[from..][size..] == bits[from + size..];
  }

  lemma BoolAt(bits: seq<bool>, from: nat)
    requires from <= |bits| && ReadBool(bits[from..]).Read?
    ensures from < |bits| && ReadBool(bits[from..]) == Read(bits[from], bits[from + 1..])
  {
    assert bits[from..][1..] == bits[from + 1..];
  }

  lemma {:induction false} CodesAt(bits: seq<bool>, from: nat, count: nat, width: nat)
    requires from <= |bits| && ReadCodes(bits[from..], count, width).Read?
    ensures from + count * width <= |bits|
    ensures ReadCodes(bits[from..], count, width).rest == bits[from + count * width..]
    ensures forall i :: 0 <= i < count ==>
              CodeAt(bits, from, i, width) && ReadCodes(bits[from..], count, width).value[i] == Number(bits, from + i * width, width)
    decreases count
  {
    hide FromBits;
    if count > 0 {
      UintAt(bits, from, width);
      CodesAt(bits, from + width, count - 1, width);
      assert count * width == width + (count - 1) * width;
      var codes, others := ReadCodes(bits[from..], count, width).value, ReadCodes(bits[from + width..], count - 1, width).value;
      hide ReadUint, ReadCodes, Number;
      forall i | 0 <= i < count
        ensures CodeAt(bits, from, i, width) && codes[i] == Number(bits, from + i * width, width)
      {
        if i > 0 {
          assert CodeAt(bits, from + width, i - 1, width) && codes[i] == others[i - 1];
          assert i * width == width + (i - 1) * width;
        }
      }
    }
  }

  predicate CodeAt(bits: seq<bool>, from: nat, i: nat, width: nat) {
    from + i * width + width <= |bits|
  }

  lemma {:induction false} BytesAt(bits: seq<bool>, from: nat, expected: seq<byte>)
    requires from <= |bits| && SkipBytes(bits[from..], expected).Some?
    ensures from + 8 * |expected| <= |bits| && SkipBytes(bits[from..], expected).value == bits[from + 8 * |expected|..]
    ensures forall i :: 0 <= i < |expected| ==> Number(bits, from + 8 * i, 8) == expected[i]
    decreases expected
  {
    hide FromBits;
    if expected != [] {
      assert bits[from..][..8] == bits[from..from + 8] && bits[from..][8..] == bits[from + 8..];
      BytesAt(bits, from + 8, expected[1..]);
      forall i | 0 <= i < |expected|
        ensures Number(bits, from + 8 * i, 8) == expected[i]
      {
        if i > 0 {
          assert expected[i] == expected[1..][i - 1] && from + 8 + 8 * (i - 1) == from + 8 * i;
        }
      }
    }
  }

  // ---- the parts

  /** The hexadecimal digits stand for their values. */
  lemma HexDigits()
    ensures |HEX_CHARS| == 16 && CharWidth(HEX_CHARS) == 4
    ensures forall i :: 0 <= i < 16 ==> HexValue(HEX_CHARS[i]) == i
  {
    var chars := HEX_CHARS;
    assert |chars| == 16 && Sizeof(15) == 4;
  }

  lemma {:induction false} CharsAt(chars: string, codes: seq<nat>)
    requires DecodeChars(chars, codes).Some?
    ensures |DecodeChars(chars, codes).value| == |codes|
    ensures forall i :: 0 <= i < |codes| ==> codes[i] < |chars| && DecodeChars(chars, codes).value[i] == chars[codes[i]]
  {
    if codes != [] {
      CharsAt(chars, codes[1..]);
    }
  }

  lemma HashAt(bits: seq<bool>, from: nat)
    requires from <= |bits| && ReadHash(bits[from..]).Read?
    ensures from + 80 <= |bits| && ReadHash(bits[from..]).rest == bits[from + 80..]
    ensures var hash := ReadHash(bits[from..]).value;
            |hash| == 20 && forall i :: 0 <= i < 20 ==> Number(bits, from + 4 * i, 4) == HexValue(hash[i])
  {
    hide ReadCodes, DecodeChars, CharWidth, Number, HexValue;
    HexDigits();
    CodesAt(bits, from, 20, 4);
    var codes := ReadCodes(bits[from..], 20, 4).value;
    CharsAt(HEX_CHARS, codes);
    forall i | 0 <= i < 20
      ensures Number(bits, from + 4 * i, 4) == HexValue(ReadHash(bits[from..]).value[i])
    {
      assert CodeAt(bits, from, i, 4) && codes[i] == Number(bits, from + i * 4, 4);
    }
  }

  lemma CountsAt(e: Election, bits: seq<bool>)
    requires SkipBytes(bits, PRELUDE).Some? && ReadHash(SkipBytes(bits, PRELUDE).value).Read?
    requires ReadCounts(e, ReadHash(SkipBytes(bits, PRELUDE).value).rest).Read?
    requires ReadCounts(e, ReadHash(SkipBytes(bits, PRELUDE).value).rest).value
    ensures |bits| >= 128 && CountsLaid(e, ReadHash(SkipBytes(bits, PRELUDE).value).value, bits)
    ensures ReadCounts(e, ReadHash(SkipBytes(bits, PRELUDE).value).rest).rest == bits[128..]
  {
    hide SkipBytes, ReadHash, Number, HexValue;
    assert bits[0..] == bits;
    BytesAt(bits, 0, PRELUDE);
    HashAt(bits, 24);
    UintAt(bits, 104, 8);
    UintAt(bits, 112, 8);
    UintAt(bits, 120, 8);
    hide ReadUint;
    assert PRELUDE[0] == 'V' as int && PRELUDE[1] == 'X' as int && PRELUDE[2] == 2;
    assert Number(bits, 0, 8) == PRELUDE[0];
    assert Number(bits, 0 + 8 * 1, 8) == PRELUDE[1];
    assert Number(bits, 0 + 8 * 2, 8) == PRELUDE[2];
  }

  lemma PlaceAt(e: Election, bits: seq<bool>, from: nat)
    requires from <= |bits| && ReadPlace(e, bits[from..]).Read?
    ensures e.precincts != [] && e.ballotStyles != []
    ensures var p, s := Sizeof(|e.precincts| - 1), Sizeof(|e.ballotStyles| - 1);
            && from + p + s <= |bits|
            && ReadPlace(e, bits[from..]).rest == bits[from + p + s..]
            && Number(bits, from, p) < |e.precincts| && Number(bits, from + p, s) < |e.ballotStyles|
            && ReadPlace(e, bits[from..]).value
               == (e.precincts[Number(bits, from, p)].id, e.ballotStyles[Number(bits, from + p, s)].id)
  {
    hide ReadUint, Number, Sizeof;
    var p, s := Sizeof(|e.precincts| - 1), Sizeof(|e.ballotStyles| - 1);
    UintAt(bits, from, p);
    UintAt(bits, from + p, s);
  }

  lemma IdAt(bits: seq<bool>, from: nat)
    requires from <= |bits| && ReadBallotId(bits[from..]).Read?
    ensures from < |bits| && bits[from] == ReadBallotId(bits[from..]).value.Some?
    ensures match ReadBallotId(bits[from..]).value {
              case None => ReadBallotId(bits[from..]).rest == bits[from + 1..]
              case Some(id) =>
                && id != [] && id[0] != '_' as int
                && from + 9 + 8 * |id| <= |bits| && ReadBallotId(bits[from..]).rest == bits[from + 9 + 8 * |id|..]
                && Number(bits, from + 1, 8) == |id|
                && forall i :: 0 <= i < |id| ==> Number(bits, from + 9 + 8 * i, 8) == id[i]
            }
  {
    hide ReadCodes, ReadUint, Number;
    BoolAt(bits, from);
    if bits[from] {
      assert Sizeof(255) == 8 by { assert Sizeof(31) == 1 + Sizeof(15) && Sizeof(15) == 4; }
      UintAt(bits, from + 1, 8);
      var count := Number(bits, from + 1, 8);
      CodesAt(bits, from + 9, count, 8);
      var id := ReadBallotId(bits[from..]).value.value;
      forall i | 0 <= i < |id|
        ensures from + 9 + 8 * i + 8 <= |bits| && Number(bits, from + 9 + 8 * i, 8) == id[i]
      {
        assert CodeAt(bits, from + 9, i, 8) && from + 9 + i * 8 == from + 9 + 8 * i;
      }
    }
  }

  lemma ModeAt(bits: seq<bool>, from: nat)
    requires from <= |bits| && ReadMode(bits[from..]).Read?
    ensures from + 6 <= |bits| && ReadBallotId(bits[from + 5..]).Read?
    ensures var mode := ReadMode(bits[from..]);
            && mode.value == (bits[from], Number(bits, from + 1, 4), ReadBallotId(bits[from + 5..]).value)
            && mode.rest == ReadBallotId(bits[from + 5..]).rest
  {
    hide ReadBallotId, ReadUint, Number;
    BoolAt(bits, from);
    assert Sizeof(15) == 4;
    UintAt(bits, from + 1, 4);
    IdAt(bits, from + 5);
  }

  /** What the decoder takes for the header lies where it should. */
  lemma HeaderAt(e: Election, bits: seq<bool>)
    requires SkipBytes(bits, PRELUDE).Some? && ReadHash(SkipBytes(bits, PRELUDE).value).Read?
    requires ReadConfig(e, ReadHash(SkipBytes(bits, PRELUDE).value).rest).Read?
    ensures var hash := ReadHash(SkipBytes(bits, PRELUDE).value);
            var config := ReadConfig(e, hash.rest);
            && e.precincts != [] && e.ballotStyles != []
            && CountsLaid(e, hash.value, bits) && |config.rest| <= |bits|
            && ConfigLaid(e, config.value, bits, |bits| - |config.rest|)
            && config.rest == bits[|bits| - |config.rest|..]
  {
    hide SkipBytes, ReadHash, ReadCounts, ReadPlace, ReadMode, CountsLaid, Number, ReadBallotId;
    CountsAt(e, bits);
    PlaceAt(e, bits, 128);
    var mode := 128 + Sizeof(|e.precincts| - 1) + Sizeof(|e.ballotStyles| - 1);
    ModeAt(bits, mode);
    IdAt(bits, mode + 5);
    hide Sizeof;
  }

  // ---- ballots

  /** Whatever bits the decoder accepts, the ballot it gives lies in them as laid out. */
  lemma AcceptedLaid(e: Election, bits: seq<bool>)
    requires ReadBallot(e, bits).Some?
    ensures e.precincts != [] && e.ballotStyles != []
    ensures var b := ReadBallot(e, bits).value;
            CountsLaid(e, b.electionHash, bits) && exists end: nat :: ConfigLaid(e, ConfigOf(b), bits, end)
  {
    hide SkipBytes, ReadHash, ReadConfig, ReadVotes, GetContests, CountsLaid, ConfigLaid, IsPadding;
    HeaderAt(e, bits);
    var config := ReadConfig(e, ReadHash(SkipBytes(bits, PRELUDE).value).rest);
    assert ConfigOf(ReadBallot(e, bits).value) == config.value;
    assert ConfigLaid(e, config.value, bits, |bits| - |config.rest|);
  }

  /** And so does every ballot encoded, its votes following: one bit a contest, for those with a vote, and then the votes. */
  lemma EncodedLaid(e: Election, b: Ballot, rest: seq<bool>) returns (end: nat)
    requires Encodable(e, b) && IdAccepted(b.ballotId)
    ensures BallotField(e, b).Some? && e.precincts != [] && e.ballotStyles != []
    ensures var bits, contests := BallotField(e, b).value + rest, BallotContests(e, b);
            && CountsLaid(e, b.electionHash[..20], bits)
            && ConfigLaid(e, ConfigOf(b).(ballotId := IdRead(b.ballotId)), bits, end)
            && end + |contests| <= |bits|
            && (forall i :: 0 <= i < |contests| ==> bits[end + i] == IsVotePresent(b.votes, contests[i].id))
            && VoteDataField(contests, b.votes).Some?
            && bits[end + |contests|..] == VoteDataField(contests, b.votes).value + rest
  {
    hide Encodable, BallotField, SkipBytes, ReadHash, CountsLaid, ConfigLaid, ReadConfig, VoteDataField, RollCall, IdAccepted, GetContests, IsVotePresent;
    EncodableExactly(e, b);
    HeaderParses(e, b, rest);
    var contests, bits := BallotContests(e, b), BallotField(e, b).value + rest;
    var roll, data := RollCall(contests, b.votes), VoteDataField(contests, b.votes).value;
    HeaderAt(e, bits);
    end := |bits| - |roll + (data + rest)|;
    RollCallAt(contests, b.votes);
    SuffixSplit(bits, end, roll, data + rest);
  }

  lemma SuffixSplit(bits: seq<bool>, from: nat, first: seq<bool>, second: seq<bool>)
    requires from <= |bits| && bits[from..] == first + second
    ensures from + |first| <= |bits| && bits[from + |first|..] == second
    ensures forall i :: 0 <= i < |first| ==> bits[from + i] == first[i]
  {
    assert bits[from + |first|..] == bits[from..][|first|..];
    forall i | 0 <= i < |first|
      ensures bits[from + i] == first[i]
    {
      assert bits[from..][i] == first[i];
    }
  }

  lemma HashIsLong(hash: string)
    requires HashField(hash).Some?
    ensures |hash| >= 20 && HashSlice(hash) == hash[..20]
  {
    FixedStringEncodable(HEX_CHARS, HashSlice(hash), ELECTION_HASH_LENGTH);
    hide FixedStringField;
    if |hash| == 20 {
      assert hash[..20] == hash;
    }
  }

  lemma HeaderParses(e: Election, b: Ballot, rest: seq<bool>)
    requires BallotField(e, b).Some? && IdAccepted(b.ballotId)
    ensures FindBallotStyle(e.ballotStyles, b.ballotStyleId).Some? && VoteDataField(BallotContests(e, b), b.votes).Some?
    ensures |b.electionHash| >= 20 && HashSlice(b.electionHash) == b.electionHash[..20]
    ensures var bits := BallotField(e, b).value + rest;
            && SkipBytes(bits, PRELUDE).Some?
            && ReadHash(SkipBytes(bits, PRELUDE).value).Read?
            && ReadHash(SkipBytes(bits, PRELUDE).value).value == HashSlice(b.electionHash)
            && ReadConfig(e, ReadHash(SkipBytes(bits, PRELUDE).value).rest)
               == Read(ConfigOf(b).(ballotId := IdRead(b.ballotId)),
                       RollCall(BallotContests(e, b), b.votes) + (VoteDataField(BallotContests(e, b), b.votes).value + rest))
  {
    ContentIsVotes(e, b);
    HashIsLong(b.electionHash);
    hide ContentField, HashField, ReadHash, Unpack, SkipBytes, ReadConfig, VoteDataField, RollCall, IdAccepted;
    var hash, content := HashField(b.electionHash).value, ContentField(e, b, BallotContests(e, b)).value;
    HeaderReadsBack(b.electionHash, content + rest);
    Assoc(Unpack(PRELUDE), hash + content, rest);
    Assoc(hash, content, rest);
    ConfigThenVotes(e, b, rest);
  }

  lemma ConfigThenVotes(e: Election, b: Ballot, rest: seq<bool>)
    requires FindBallotStyle(e.ballotStyles, b.ballotStyleId).Some? && IdAccepted(b.ballotId)
    requires ContentField(e, b, BallotContests(e, b)).Some? && VoteDataField(BallotContests(e, b), b.votes).Some?
    ensures ReadConfig(e, ContentField(e, b, BallotContests(e, b)).value + rest)
         == Read(ConfigOf(b).(ballotId := IdRead(b.ballotId)),
                 RollCall(BallotContests(e, b), b.votes) + (VoteDataField(BallotContests(e, b), b.votes).value + rest))
  {
    hide ReadConfig, ConfigField, VoteDataField, RollCall, IdAccepted;
    var contests := BallotContests(e, b);
    var config, roll, data := ConfigField(e, ConfigOf(b)).value, RollCall(contests, b.votes), VoteDataField(contests, b.votes).value;
    Assoc(config, roll + data, rest);
    Assoc(roll, data, rest);
    ConfigReadsBack(e, ConfigOf(b), roll + data + rest);
  }

  lemma {:induction false} RollCallAt(contests: seq<Contest>, votes: Votes)
    ensures forall i :: 0 <= i < |contests| ==> RollCall(contests, votes)[i] == IsVotePresent(votes, contests[i].id)
  {
    if contests != [] {
      RollCallAt(contests[1..], votes);
    }
  }

  /** Bytes made for one election are refused by any other with different counts. */
  lemma OtherElectionRefused(e: Election, other: Election, b: Ballot, rest: seq<bool>)
    requires Encodable(e, b) && IdAccepted(b.ballotId)
    ensures BallotField(e, b).Some?
    ensures ReadBallot(other, BallotField(e, b).value + rest).Some? ==>
              |e.precincts| == |other.precincts| && |e.ballotStyles| == |other.ballotStyles| && |e.contests| == |other.contests|
  {
    hide Encodable, IdAccepted, BallotField, ReadBallot, ConfigLaid;
    var end := EncodedLaid(e, b, rest);
    var bits := BallotField(e, b).value + rest;
    if ReadBallot(other, bits).Some? {
      AcceptedLaid(other, bits);
    }
  }

  // ---- votes

  /**
   A yes-no vote is one bit. A candidate vote is one bit a candidate, set when a choice has its id;
   then, if write-ins are allowed and the other choices leave seats free, the number of write-ins,
   as wide as the number of those seats.
   */
  lemma VoteLaid(kind: ContestKind, vote: Vote)
    requires VoteField(kind, vote).Some?
    ensures var bits := VoteField(kind, vote).value;
            match kind {
              case YesNoContest => bits == [vote == [Yes]]
              case CandidateContest(seats, candidates, allowWriteIns, _) =>
                var n, others := |candidates|, |vote| - |WriteInNames(vote)|;
                && |bits| >= n
                && (forall i :: 0 <= i < n ==>
                      (bits[i] <==> exists choice :: choice in vote && choice.Pick? && choice.candidate.id == candidates[i].id))
                && if !allowWriteIns || others >= seats then |bits| == n
                   else
                     && |bits| >= n + Sizeof(seats - others)
                     && Number(bits, n, Sizeof(seats - others)) == |WriteInNames(vote)|
                     && Some(bits[n + Sizeof(seats - others)..]) == NamesField(WriteInNames(vote))
            }
  {
    hide NamesField, ToBits, FromBits, Sizeof;
    match kind
    case YesNoContest =>
    case CandidateContest(seats, candidates, allowWriteIns, _) =>
      CandidateBitsAt(candidates, vote);
      var chosen, names := CandidateBits(candidates, vote), WriteInNames(vote);
      var others := |vote| - |names|;
      hide CandidateBits, WriteInNames;
      if allowWriteIns && others < seats {
        var room := seats - others;
        var count := ToBits(|names|, Sizeof(room));
        var bits := VoteField(kind, vote).value;
        SizeofIsTight(room);
        FromToBits(|names|, Sizeof(room));
        ThreeParts(chosen, count, NamesField(names).value);
      }
  }

  lemma ThreeParts(a: seq<bool>, b: seq<bool>, c: seq<bool>)
    ensures (a + (b + c))[|a|..|a| + |b|] == b && (a + (b + c))[|a| + |b|..] == c
    ensures forall i :: 0 <= i < |a| ==> (a + (b + c))[i] == a[i]
  {
  }

  lemma {:induction false} CandidateBitsAt(candidates: seq<Candidate>, vote: Vote)
    ensures forall i :: 0 <= i < |candidates| ==>
              (CandidateBits(candidates, vote)[i] <==>
                 exists choice :: choice in vote && choice.Pick? && choice.candidate.id == candidates[i].id)
  {
    if candidates != [] {
      CandidateBitsAt(candidates[1..], vote);
    }
  }

  /** A name is its length in six bits and then five bits a character: letters, space, and punctuation, in that order. */
  lemma NameLaid(name: string)
    requires StringField(WRITE_IN_CHARS, name, MAXIMUM_WRITE_IN_LENGTH).Some?
    ensures var bits := StringField(WRITE_IN_CHARS, name, MAXIMUM_WRITE_IN_LENGTH).value;
            && |bits| == 6 + 5 * |name| && Number(bits, 0, 6) == |name|
            && forall i :: 0 <= i < |name| ==> WriteInAscii(Number(bits, 6 + 5 * i, 5)) == name[i] as int
  {
    var bits := StringField(WRITE_IN_CHARS, name, MAXIMUM_WRITE_IN_LENGTH).value;
    NameLength(name);
    StringReadsBack(WRITE_IN_CHARS, name, MAXIMUM_WRITE_IN_LENGTH, []);
    assert bits + [] == bits;
    NameAt(bits, name);
    hide *;
  }

  lemma NameLength(name: string)
    requires StringField(WRITE_IN_CHARS, name, MAXIMUM_WRITE_IN_LENGTH).Some?
    ensures |StringField(WRITE_IN_CHARS, name, MAXIMUM_WRITE_IN_LENGTH).value| == 6 + 5 * |name|
  {
    hide EncodeChars, CodesField, ToBits, Sizeof, CharWidth;
    NameWidths();
    CharsDecode(WRITE_IN_CHARS, name);
    CodesLength(EncodeChars(WRITE_IN_CHARS, name).value, 5);
  }

  lemma NameAt(bits: seq<bool>, name: string)
    requires |bits| == 6 + 5 * |name| && ReadString(bits, WRITE_IN_CHARS, MAXIMUM_WRITE_IN_LENGTH) == Read(name, [])
    ensures Number(bits, 0, 6) == |name|
    ensures forall i :: 0 <= i < |name| ==> WriteInAscii(Number(bits, 6 + 5 * i, 5)) == name[i] as int
  {
    hide ReadCodes, ReadUint, DecodeChars, Sizeof, CharWidth, WriteInAscii;
    NameWidths();
    assert bits[0..] == bits;
    UintAt(bits, 0, 6);
    var count := Number(bits, 0, 6);
    CodesAt(bits, 6, count, 5);
    var codes := ReadCodes(bits[6..], count, 5).value;
    CharsAt(WRITE_IN_CHARS, codes);
    WriteInCodes();
    hide Number;
    forall i | 0 <= i < |name|
      ensures WriteInAscii(Number(bits, 6 + 5 * i, 5)) == name[i] as int
    {
      assert CodeAt(bits, 6, i, 5) && codes[i] == Number(bits, 6 + i * 5, 5);
    }
  }

  lemma NameWidths()
    ensures Sizeof(MAXIMUM_WRITE_IN_LENGTH) == 6 && CharWidth(WRITE_IN_CHARS) == 5
  {
    assert Sizeof(40) == 1 + Sizeof(20) && Sizeof(20) == 1 + Sizeof(10) && Sizeof(10) == 1 + Sizeof(5) && Sizeof(5) == 3;
    assert Sizeof(31) == 1 + Sizeof(15) && Sizeof(15) == 1 + Sizeof(7) && Sizeof(7) == 3;
    assert |WRITE_IN_CHARS| == 32;
  }
}
