/** The encoder and decoder over a shared bit writer and reader. */
module BallotCodec {
  import opened Wrappers
  import opened Bits
  import opened BitFields
  import opened BitStreams
  import opened Election
  import opened BallotFormat
  import opened BallotRoundTrip
  import opened BallotExactness

  // ---- encoding

  method EncodeBallotConfigInto(e: Election, config: Config, bits: BitWriter) returns (r: Outcome)
    requires bits.Valid()
    modifies bits
    ensures bits.Valid()
    ensures r.Pass? <==> ConfigField(e, config).Some?
    ensures r.Pass? ==> bits.Written() == old(bits.Written()) + ConfigField(e, config).value
  {
    hide CountsField, PlaceField, ModeField;
    hide BitWriter.Valid, BitWriter.Written;
    :- WriteCounts(e, bits);
    :- WritePlace(e, config, bits);
    :- WriteMode(config, bits);
    return Pass;
  }

  method WriteCounts(e: Election, bits: BitWriter) returns (r: Outcome)
    requires bits.Valid()
    modifies bits
    ensures bits.Valid()
    ensures r.Pass? <==> CountsField(e).Some?
    ensures r.Pass? ==> bits.Written() == old(bits.Written()) + CountsField(e).value
  {
    hide BitWriter.Valid, BitWriter.Written, ToBits;
    if |e.precincts| > UINT8_MAX || |e.ballotStyles| > UINT8_MAX || |e.contests| > UINT8_MAX {
      return Fail;
    }
    assert Pow2(8) == 256;
    var precincts := bits.WriteUint(|e.precincts|, BYTE_SIZE);
    var styles := bits.WriteUint(|e.ballotStyles|, BYTE_SIZE);
    var contests := bits.WriteUint(|e.contests|, BYTE_SIZE);
    return Pass;
  }

  method WritePlace(e: Election, config: Config, bits: BitWriter) returns (r: Outcome)
    requires bits.Valid()
    modifies bits
    ensures bits.Valid()
    ensures r.Pass? <==> PlaceField(e, config.precinctId, config.ballotStyleId).Some?
    ensures r.Pass? ==>
              bits.Written() == old(bits.Written()) + PlaceField(e, config.precinctId, config.ballotStyleId).value
  {
    hide BitWriter.Valid, BitWriter.Written, BoundedField;
    var precinctIndex := FindPrecinct(e.precincts, config.precinctId);
    var ballotStyleIndex := FindBallotStyle(e.ballotStyles, config.ballotStyleId);
    if precinctIndex.None? || ballotStyleIndex.None? {
      return Fail;
    }
    :- bits.WriteBounded(precinctIndex.value, |e.precincts| - 1);
    :- bits.WriteBounded(ballotStyleIndex.value, |e.ballotStyles| - 1);
    return Pass;
  }

  method WriteMode(config: Config, bits: BitWriter) returns (r: Outcome)
    requires bits.Valid()
    modifies bits
    ensures bits.Valid()
    ensures r.Pass? <==> ModeField(config.isTestMode, config.ballotType, config.ballotId).Some?
    ensures r.Pass? ==>
              bits.Written() == old(bits.Written()) + ModeField(config.isTestMode, config.ballotType, config.ballotId).value
  {
    hide BitWriter.Valid, BitWriter.Written, BoundedField, TextField;
    bits.WriteBoolean(config.isTestMode);
    :- bits.WriteBounded(config.ballotType, BALLOT_TYPE_MAXIMUM_VALUE);
    var hasId := config.ballotId.Some? && config.ballotId.value != [];
    bits.WriteBoolean(hasId);
    if hasId {
      :- bits.WriteText(config.ballotId.value, BYTE_SIZE, BALLOT_ID_MAX_LENGTH);
    }
    return Pass;
  }

  method WriteYesNoVote(bits: BitWriter, vote: Vote) returns (r: Outcome)
    requires bits.Valid()
    modifies bits
    ensures bits.Valid()
    ensures r.Pass? <==> VoteField(YesNoContest, vote).Some?
    ensures r.Pass? ==> bits.Written() == old(bits.Written()) + VoteField(YesNoContest, vote).value
  {
    if |vote| > 1 {
      return Fail;
    }
    bits.WriteBoolean(|vote| > 0 && vote[0] == Yes);
    return Pass;
  }

  method WriteCandidateBits(bits: BitWriter, candidates: seq<Candidate>, vote: Vote)
    requires bits.Valid()
    modifies bits
    ensures bits.Valid() && bits.Written() == old(bits.Written()) + CandidateBits(candidates, vote)
  {
    ghost var start := bits.Written();
    for i := 0 to |candidates|
      invariant bits.Valid()
      invariant start + CandidateBits(candidates, vote) == bits.Written() + CandidateBits(candidates[i..], vote)
    {
      bits.WriteBoolean(Chooses(vote, candidates[i].id));
      assert candidates[i..][1..] == candidates[i + 1..];
    }
  }

  method CountWriteIns(vote: Vote) returns (count: nat)
    ensures count == |WriteInNames(vote)|
  {
    count := 0;
    for i := 0 to |vote|
      invariant count + |WriteInNames(vote[i..])| == |WriteInNames(vote)|
    {
      assert vote[i..][1..] == vote[i + 1..];
      count := count + (if IsWriteIn(vote[i]) then 1 else 0);
    }
  }

  method WriteWriteIns(bits: BitWriter, seats: nat, vote: Vote) returns (r: Outcome)
    requires bits.Valid()
    modifies bits
    ensures bits.Valid()
    ensures r.Pass? <==> WriteInsField(seats, vote).Some?
    ensures r.Pass? ==> bits.Written() == old(bits.Written()) + WriteInsField(seats, vote).value
  {
    hide BitWriter.Valid, BitWriter.Written, BoundedField, NamesField;
    var writeInCount := CountWriteIns(vote);
    var nonWriteInCount := |vote| - writeInCount;
    var maximumWriteIns := MaximumWriteIns(seats, nonWriteInCount);
    if maximumWriteIns > 0 {
      :- bits.WriteBounded(writeInCount, maximumWriteIns);
      :- WriteNames(bits, vote);
    }
    return Pass;
  }

  method WriteNames(bits: BitWriter, vote: Vote) returns (r: Outcome)
    requires bits.Valid()
    modifies bits
    ensures bits.Valid()
    ensures r.Pass? <==> NamesField(WriteInNames(vote)).Some?
    ensures r.Pass? ==> bits.Written() == old(bits.Written()) + NamesField(WriteInNames(vote)).value
  {
    hide StringField;
    ghost var whole, start := NamesField(WriteInNames(vote)), bits.Written();
    for i := 0 to |vote|
      invariant bits.Valid()
      invariant whole.Some? <==> NamesField(WriteInNames(vote[i..])).Some?
      invariant whole.Some? ==> start + whole.value == bits.Written() + NamesField(WriteInNames(vote[i..])).value
    {
      assert vote[i..][1..] == vote[i + 1..];
      ghost var names, names' := WriteInNames(vote[i..]), WriteInNames(vote[i + 1..]);
      if IsWriteIn(vote[i]) {
        assert names[0] == vote[i].candidate.name && names[1..] == names';
        :- bits.WriteString(vote[i].candidate.name, WRITE_IN_CHARS, MAXIMUM_WRITE_IN_LENGTH);
      } else {
        assert names == names';
      }
    }
    return Pass;
  }

  method WriteVote(bits: BitWriter, kind: ContestKind, vote: Vote) returns (r: Outcome)
    requires bits.Valid()
    modifies bits
    ensures bits.Valid()
    ensures r.Pass? <==> VoteField(kind, vote).Some?
    ensures r.Pass? ==> bits.Written() == old(bits.Written()) + VoteField(kind, vote).value
  {
    hide BitWriter.Valid, BitWriter.Written, WriteInsField, CandidateBits;
    match kind
    case YesNoContest =>
      r := WriteYesNoVote(bits, vote);
    case CandidateContest(seats, candidates, allowWriteIns, _) =>
      WriteCandidateBits(bits, candidates, vote);
      r := Pass;
      if allowWriteIns {
        r := WriteWriteIns(bits, seats, vote);
      }
  }

  method WriteRollCall(contests: seq<Contest>, votes: Votes, bits: BitWriter)
    requires bits.Valid()
    modifies bits
    ensures bits.Valid() && bits.Written() == old(bits.Written()) + RollCall(contests, votes)
  {
    hide BitWriter.Valid, BitWriter.Written;
    ghost var start := bits.Written();
    for i := 0 to |contests|
      invariant bits.Valid()
      invariant start + RollCall(contests, votes) == bits.Written() + RollCall(contests[i..], votes)
    {
      assert contests[i..][1..] == contests[i + 1..];
      bits.WriteBoolean(IsVotePresent(votes, contests[i].id));
    }
  }

  method WriteVoteData(contests: seq<Contest>, votes: Votes, bits: BitWriter) returns (r: Outcome)
    requires bits.Valid()
    modifies bits
    ensures bits.Valid()
    ensures r.Pass? <==> VoteDataField(contests, votes).Some?
    ensures r.Pass? ==> bits.Written() == old(bits.Written()) + VoteDataField(contests, votes).value
  {
    hide BitWriter.Valid, BitWriter.Written, VoteField;
    ghost var whole, start := VoteDataField(contests, votes), bits.Written();
    for i := 0 to |contests|
      invariant bits.Valid()
      invariant whole.Some? <==> VoteDataField(contests[i..], votes).Some?
      invariant whole.Some? ==> start + whole.value == bits.Written() + VoteDataField(contests[i..], votes).value
    {
      assert contests[i..][1..] == contests[i + 1..];
      if IsVotePresent(votes, contests[i].id) {
        :- WriteVote(bits, contests[i].kind, votes[contests[i].id]);
      }
    }
    return Pass;
  }

  method EncodeBallotVotesInto(contests: seq<Contest>, votes: Votes, bits: BitWriter) returns (r: Outcome)
    requires bits.Valid()
    modifies bits
    ensures bits.Valid()
    ensures r.Pass? <==> VotesField(contests, votes).Some?
    ensures r.Pass? ==> bits.Written() == old(bits.Written()) + VotesField(contests, votes).value
  {
    hide BitWriter.Valid, BitWriter.Written, VoteDataField, RollCall;
    WriteRollCall(contests, votes, bits);
    r := WriteVoteData(contests, votes, bits);
  }

  method EncodeBallotInto(e: Election, b: Ballot, bits: BitWriter) returns (r: Outcome)
    requires bits.Valid()
    modifies bits
    ensures bits.Valid()
    ensures r.Pass? <==> BallotField(e, b).Some?
    ensures r.Pass? ==> bits.Written() == old(bits.Written()) + BallotField(e, b).value
  {
    hide BitWriter.Valid, BitWriter.Written, ConfigField, VotesField, FixedStringField, Unpack;
    var ballotStyle := FindBallotStyle(e.ballotStyles, b.ballotStyleId);
    if ballotStyle.None? {
      return Fail;
    }
    var contests := GetContests(e.ballotStyles[ballotStyle.value], e.contests);
    if !ValidateVotes(contests, b.votes) {
      return Fail;
    }
    WritePrelude(bits);
    :- bits.WriteFixedString(HashSlice(b.electionHash), HEX_CHARS, ELECTION_HASH_LENGTH);
    :- EncodeBallotConfigInto(e, ConfigOf(b), bits);
    :- EncodeBallotVotesInto(contests, b.votes, bits);
    return Pass;
  }

  method WritePrelude(bits: BitWriter)
    requires bits.Valid()
    modifies bits
    ensures bits.Valid() && bits.Written() == old(bits.Written()) + Unpack(PRELUDE)
  {
    ghost var start := bits.Written();
    var prelude := PRELUDE;
    for i := 0 to |prelude|
      invariant bits.Valid()
      invariant start + Unpack(prelude) == bits.Written() + Unpack(prelude[i..])
    {
      assert prelude[i..][1..] == prelude[i + 1..];
      assert Pow2(8) == 256;
      var written := bits.WriteUint(prelude[i], BYTE_SIZE);
    }
  }

  /** The encoded bytes: the ballot's bits and the zero bits that complete the last byte. */
  method EncodeBallot(e: Election, b: Ballot) returns (r: Option<seq<byte>>)
    ensures r.Some? <==> Encodable(e, b)
    ensures r.Some? ==> BallotField(e, b).Some?
                        && Unpack(r.value) == BallotField(e, b).value + Padding(|BallotField(e, b).value|)
  {
    EncodableExactly(e, b);
    var bits := new BitWriter();
    var encoded := EncodeBallotInto(e, b, bits);
    if encoded.Fail? {
      return None;
    }
    var bytes := bits.ToUint8Array();
    return Some(bytes);
  }

  // ---- decoding

  method ReadPaddingToEnd(bits: BitReader) returns (r: Outcome)
    requires bits.Valid()
    modifies bits
    ensures r.Pass? <==> |old(bits.Rest())| < 8 && forall i :: 0 <= i < |old(bits.Rest())| ==> !old(bits.Rest())[i]
    ensures r.Pass? <==> IsPadding(old(bits.Rest()))
  {
    var padding := 0;
    ghost var start := bits.Rest();
    var more := bits.CanRead(1);
    while more
      invariant bits.Valid()
      invariant padding <= |start| && bits.Rest() == start[padding..]
      invariant forall i :: 0 <= i < padding ==> !start[i]
      invariant more == (1 <= |bits.Rest()|)
      decreases |start| - padding
    {
      var bit := bits.ReadUint1();
      if bit != Some(false) {
        return Fail;
      }
      padding := padding + 1;
      more := bits.CanRead(1);
    }
    if padding >= BYTE_SIZE {
      return Fail;
    }
    return Pass;
  }

  method DecodeCounts(e: Election, bits: BitReader) returns (r: Option<bool>)
    requires bits.Valid()
    modifies bits
    ensures bits.Valid()
    ensures match ReadCounts(e, old(bits.Rest()))
            case Malformed => r == None
            case Read(matches, rest) => r == Some(matches) && bits.Rest() == rest
  {
    var precinctCount := bits.ReadSized(BYTE_SIZE);
    if precinctCount.None? { return None; }
    var ballotStyleCount := bits.ReadSized(BYTE_SIZE);
    if ballotStyleCount.None? { return None; }
    var contestCount := bits.ReadSized(BYTE_SIZE);
    if contestCount.None? { return None; }
    return Some(precinctCount.value == |e.precincts| && ballotStyleCount.value == |e.ballotStyles|
                && contestCount.value == |e.contests|);
  }

  method DecodeBallotId(bits: BitReader) returns (r: Option<Option<seq<byte>>>)
    requires bits.Valid()
    modifies bits
    ensures bits.Valid()
    ensures match ReadBallotId(old(bits.Rest()))
            case Malformed => r == None
            case Read(id, rest) => r == Some(id) && bits.Rest() == rest
  {
    var hasId := bits.ReadUint1();
    if hasId.None? { return None; }
    if !hasId.value { return Some(None); }
    var id := bits.ReadLengthPrefixed(BYTE_SIZE, BALLOT_ID_MAX_LENGTH);
    if id.None? || id.value == [] || id.value[0] == UNDERSCORE { return None; }
    assert Pow2(BYTE_SIZE) == 256 && forall i :: 0 <= i < |id.value| ==> id.value[i] in id.value;
    return Some(Some(id.value));
  }

  method DecodeBallotConfigFromReader(e: Election, bits: BitReader) returns (r: Option<Config>)
    requires bits.Valid()
    modifies bits
    ensures bits.Valid()
    ensures match ReadConfig(e, old(bits.Rest()))
            case Malformed => r == None
            case Read(config, rest) => r == Some(config) && bits.Rest() == rest
  {
    hide BitReader.Valid, BitReader.Rest, ReadCounts, ReadPlace, ReadMode;
    var matches := DecodeCounts(e, bits);
    if matches != Some(true) { return None; }
    var place := DecodePlace(e, bits);
    if place.None? { return None; }
    var mode := DecodeMode(bits);
    if mode.None? { return None; }
    return Some(Config(mode.value.2, place.value.1, mode.value.1, mode.value.0, place.value.0));
  }

  method DecodePlace(e: Election, bits: BitReader) returns (r: Option<(string, string)>)
    requires bits.Valid()
    modifies bits
    ensures bits.Valid()
    ensures match ReadPlace(e, old(bits.Rest()))
            case Malformed => r == None
            case Read(place, rest) => r == Some(place) && bits.Rest() == rest
  {
    hide BitReader.Valid, BitReader.Rest, ReadBounded;
    var precinctIndex := bits.ReadMax(|e.precincts| - 1);
    if precinctIndex.None? { return None; }
    var ballotStyleIndex := bits.ReadMax(|e.ballotStyles| - 1);
    if ballotStyleIndex.None? { return None; }
    if ballotStyleIndex.value >= |e.ballotStyles| || precinctIndex.value >= |e.precincts| {
      return None;
    }
    return Some((e.precincts[precinctIndex.value].id, e.ballotStyles[ballotStyleIndex.value].id));
  }

  method DecodeMode(bits: BitReader) returns (r: Option<(bool, nat, Option<seq<byte>>)>)
    requires bits.Valid()
    modifies bits
    ensures bits.Valid()
    ensures match ReadMode(old(bits.Rest()))
            case Malformed => r == None
            case Read(mode, rest) => r == Some(mode) && bits.Rest() == rest
  {
    hide BitReader.Valid, BitReader.Rest, ReadBounded, ReadBallotId;
    var isTestMode := bits.ReadUint1();
    if isTestMode.None? { return None; }
    var ballotType := bits.ReadMax(BALLOT_TYPE_MAXIMUM_VALUE);
    if ballotType.None? { return None; }
    var ballotId := DecodeBallotId(bits);
    if ballotId.None? { return None; }
    return Some((isTestMode.value, ballotType.value, ballotId.value));
  }

  method DecodeRollCall(contests: seq<Contest>, bits: BitReader) returns (r: Option<seq<Contest>>)
    requires bits.Valid()
    modifies bits
    ensures bits.Valid()
    ensures match ReadRollCall(contests, old(bits.Rest()))
            case Malformed => r == None
            case Read(answered, rest) => r == Some(answered) && bits.Rest() == rest
  {
    var answered := [];
    ghost var whole := ReadRollCall(contests, bits.Rest());
    assert whole.Read? ==> [] + whole.value == whole.value;
    for i := 0 to |contests|
      invariant bits.Valid()
      invariant match ReadRollCall(contests[i..], bits.Rest())
                case Malformed => whole == Malformed
                case Read(others, rest) => whole == Read(answered + others, rest)
    {
      assert contests[i..][1..] == contests[i + 1..];
      var present := bits.ReadUint1();
      if present.None? { return None; }
      ghost var others := ReadRollCall(contests[i + 1..], bits.Rest());
      var more := if present.value then [contests[i]] else [];
      if others.Read? { Assoc(answered, more, others.value); }
      answered := answered + more;
    }
    assert answered + [] == answered;
    return Some(answered);
  }

  method DecodeChosen(candidates: seq<Candidate>, bits: BitReader) returns (r: Option<Vote>)
    requires bits.Valid()
    modifies bits
    ensures bits.Valid()
    ensures match ReadChosen(candidates, old(bits.Rest()))
            case Malformed => r == None
            case Read(vote, rest) => r == Some(vote) && bits.Rest() == rest
  {
    var vote := [];
    ghost var whole := ReadChosen(candidates, bits.Rest());
    assert whole.Read? ==> [] + whole.value == whole.value;
    for i := 0 to |candidates|
      invariant bits.Valid()
      invariant match ReadChosen(candidates[i..], bits.Rest())
                case Malformed => whole == Malformed
                case Read(others, rest) => whole == Read(vote + others, rest)
    {
      assert candidates[i..][1..] == candidates[i + 1..];
      var chosen := bits.ReadUint1();
      if chosen.None? { return None; }
      ghost var others := ReadChosen(candidates[i + 1..], bits.Rest());
      var more := if chosen.value then [Pick(candidates[i])] else [];
      if others.Read? { Assoc(vote, more, others.value); }
      vote := vote + more;
    }
    assert vote + [] == vote;
    return Some(vote);
  }

  method DecodeWriteIns(count: nat, bits: BitReader) returns (r: Option<Vote>)
    requires bits.Valid()
    modifies bits
    ensures bits.Valid()
    ensures match ReadWriteIns(count, old(bits.Rest()))
            case Malformed => r == None
            case Read(vote, rest) => r == Some(vote) && bits.Rest() == rest
  {
    hide ReadString;
    var vote := [];
    ghost var whole := ReadWriteIns(count, bits.Rest());
    assert whole.Read? ==> [] + whole.value == whole.value;
    for i := 0 to count
      invariant bits.Valid()
      invariant match ReadWriteIns(count - i, bits.Rest())
                case Malformed => whole == Malformed
                case Read(others, rest) => whole == Read(vote + others, rest)
    {
      var name := bits.ReadChars(WRITE_IN_CHARS, MAXIMUM_WRITE_IN_LENGTH);
      if name.None? { return None; }
      ghost var others := ReadWriteIns(count - i - 1, bits.Rest());
      if others.Read? { Assoc(vote, [WriteIn(name.value)], others.value); }
      vote := vote + [WriteIn(name.value)];
    }
    assert vote + [] == vote;
    return Some(vote);
  }

  method DecodeVote(kind: ContestKind, bits: BitReader) returns (r: Option<Vote>)
    requires bits.Valid()
    modifies bits
    ensures bits.Valid()
    ensures match ReadVote(kind, old(bits.Rest()))
            case Malformed => r == None
            case Read(vote, rest) => r == Some(vote) && bits.Rest() == rest
  {
    match kind
    case YesNoContest =>
      var yes := bits.ReadUint1();
      if yes.None? { return None; }
      return Some([if yes.value then Yes else No]);
    case CandidateContest(seats, candidates, allowWriteIns, _) =>
      var contestVote := DecodeChosen(candidates, bits);
      if contestVote.None? || !allowWriteIns { return contestVote; }
      var maximumWriteIns := MaximumWriteIns(seats, |contestVote.value|);
      assert contestVote.value + [] == contestVote.value;
      if maximumWriteIns == 0 { return contestVote; }
      var writeInCount := bits.ReadMax(maximumWriteIns);
      if writeInCount.None? { return None; }
      var writeIns := DecodeWriteIns(writeInCount.value, bits);
      if writeIns.None? { return None; }
      return Some(contestVote.value + writeIns.value);
  }

  method DecodeBallotVotes(contests: seq<Contest>, bits: BitReader) returns (r: Option<Votes>)
    requires bits.Valid()
    modifies bits
    ensures bits.Valid()
    ensures match ReadVotes(contests, old(bits.Rest()))
            case Malformed => r == None
            case Read(votes, rest) => r == Some(votes) && bits.Rest() == rest
  {
    hide ReadVote;
    var votes: Votes := map[];
    var contestsWithAnswers := DecodeRollCall(contests, bits);
    if contestsWithAnswers.None? { return None; }
    var answered := contestsWithAnswers.value;
    ghost var whole := ReadVoteData(answered, bits.Rest(), map[]);
    for i := 0 to |answered|
      invariant bits.Valid()
      invariant ReadVoteData(answered[i..], bits.Rest(), votes) == whole
    {
      assert answered[i..][1..] == answered[i + 1..];
      var vote := DecodeVote(answered[i].kind, bits);
      if vote.None? { return None; }
      votes := votes[answered[i].id := vote.value];
    }
    return Some(votes);
  }

  method DecodeBallotFromReader(e: Election, bits: BitReader) returns (r: Option<Ballot>)
    requires bits.Valid()
    modifies bits
    ensures r == ReadBallot(e, old(bits.Rest()))
  {
    hide BitReader.Valid, BitReader.Rest, ReadConfig, ReadVotes, ReadFixedString, SkipBytes;
    var hasPrelude := bits.SkipUint8(PRELUDE);
    if !hasPrelude { return None; }
    var electionHash := bits.ReadFixedChars(HEX_CHARS, ELECTION_HASH_LENGTH);
    if electionHash.None? { return None; }
    var config := DecodeBallotConfigFromReader(e, bits);
    if config.None? { return None; }
    var ballotStyle := FindBallotStyle(e.ballotStyles, config.value.ballotStyleId);
    if ballotStyle.None? { return None; }
    var contests := GetContests(e.ballotStyles[ballotStyle.value], e.contests);
    var votes := DecodeBallotVotes(contests, bits);
    if votes.None? { return None; }
    var padding := ReadPaddingToEnd(bits);
    if padding.Fail? { return None; }
    return Some(Ballot(electionHash.value, config.value.ballotStyleId, config.value.precinctId, config.value.ballotId,
                       votes.value, config.value.isTestMode, config.value.ballotType));
  }

  method DecodeBallot(e: Election, data: seq<byte>) returns (r: Option<Ballot>)
    ensures r == ReadBallot(e, Unpack(data))
  {
    var bits := new BitReader(data);
    r := DecodeBallotFromReader(e, bits);
  }

  // ---- end to end

  /** What is encoded comes back in canonical form exactly when its bits and the padding are in step. */
  method EncodeThenDecode(e: Election, b: Ballot) returns (r: Option<Ballot>)
    requires Encodable(e, b) && PlainElection(e)
    ensures BallotField(e, b).Some?
    ensures r == Some(CanonicalBallot(e, b)) <==> InStep(e, b, Padding(|BallotField(e, b).value|))
    ensures Decodable(e, b) ==> r == Some(CanonicalBallot(e, b))
  {
    hide BallotField, ReadBallot, Unpack, CanonicalBallot, Encodable, PlainElection, InStep;
    var bytes := EncodeBallot(e, b);
    ghost var padding := Padding(|BallotField(e, b).value|);
    BallotReadsBackExactly(e, b, padding);
    if Decodable(e, b) {
      LockStepInStep(e, b, padding);
    }
    hide Decodable;
    r := DecodeBallot(e, bytes.value);
  }

  /** Bytes in step with their ballot are accepted, and with anything appended, even zero bytes, rejected. */
  lemma AppendedBytesRejected(e: Election, b: Ballot, bytes: seq<byte>, more: seq<byte>)
    requires Encodable(e, b)
    ensures BallotField(e, b).Some?
    ensures Unpack(bytes) == BallotField(e, b).value + Padding(|BallotField(e, b).value|)
            && InStep(e, b, Padding(|BallotField(e, b).value|)) ==>
              (ReadBallot(e, Unpack(bytes + more)) == if more == [] then Some(CanonicalBallot(e, b)) else None)
  {
    hide ReadBallot, BallotField, Unpack, Padding, CanonicalBallot, VoteEncodable, InStep, BallotContests;
    EncodableExactly(e, b);
    var field := BallotField(e, b).value;
    UnpackAppend(bytes, more);
    Assoc(field, Padding(|field|), Unpack(more));
    if InStep(e, b, Padding(|field|)) {
      InStepAppended(e, b, Padding(|field|), more);
    }
  }

  /** A ballot that is encoded, refused as it is, and accepted with an empty vote once a zero byte is appended. */
  method RefusedBallot() returns (e: Election, b: Ballot, encoded: Option<seq<byte>>, refused: Option<Ballot>, accepted: Option<Ballot>)
    ensures encoded.Some? && refused == None
    ensures accepted.Some? && IsVotePresent(b.votes, "c") && accepted.value.votes == map["c" := []]
  {
    hide ReadBallot, BallotField, Unpack, CanonicalBallot, Encodable, Stray, OnlyVote, SmallContest, SmallElection;
    e, b := SmallElection(7), SmallBallot();
    SmallEncodable(7);
    SmallIsPlain(7);
    SmallLength(7);
    SmallId(7);
    StrayTurnsOnAlignment(e, b, SmallContest(7));
    encoded := EncodeBallot(e, b);
    refused := DecodeBallot(e, encoded.value);
    UnpackAppend(encoded.value, [0]);
    accepted := DecodeBallot(e, encoded.value + [0]);
  }
}
