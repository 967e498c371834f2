/**
 The ballot format as functions on bit strings: the bits an encoder produces for
 a ballot (`None` where it throws) and the ballot a decoder reads from bits
 (`Malformed` where it throws). Nothing in the format is self-describing: field
 widths come from the election and from bits already read.
 */
module BallotFormat {
  import opened Wrappers
  import opened Bits
  import opened BitFields
  import opened BitStreams
  import opened Election

  const MAXIMUM_WRITE_IN_LENGTH := 40
  const ELECTION_HASH_LENGTH := 20
  const WRITE_IN_CHARS := "ABCDEFGHIJKLMNOPQRSTUVWXYZ '\"-.,"
  const HEX_CHARS := "0123456789abcdef"
  const PRELUDE: seq<byte> := [86, 88, 2]
  const UINT8_MAX := 255
  const BALLOT_TYPE_MAXIMUM_VALUE := 15
  const BALLOT_ID_MAX_LENGTH := 255
  const UNDERSCORE: byte := 95

  // ---- configuration

  function BallotIdField(ballotId: Option<seq<byte>>): Option<seq<bool>> {
    if ballotId in {None, Some([])} then Some([false])
    else
      var text :- TextField(ballotId.value, BYTE_SIZE, BALLOT_ID_MAX_LENGTH);
      Some([true] + text)
  }

  function CountsField(e: Election): Option<seq<bool>> {
    if |e.precincts| > UINT8_MAX || |e.ballotStyles| > UINT8_MAX || |e.contests| > UINT8_MAX then None
    else Some(ToBits(|e.precincts|, BYTE_SIZE) + ToBits(|e.ballotStyles|, BYTE_SIZE) + ToBits(|e.contests|, BYTE_SIZE))
  }

  function PlaceField(e: Election, precinctId: string, ballotStyleId: string): Option<seq<bool>> {
    var precinctIndex :- FindPrecinct(e.precincts, precinctId);
    var styleIndex :- FindBallotStyle(e.ballotStyles, ballotStyleId);
    var precinct :- BoundedField(precinctIndex, |e.precincts| - 1);
    var style :- BoundedField(styleIndex, |e.ballotStyles| - 1);
    Some(precinct + style)
  }

  function ModeField(isTestMode: bool, ballotType: nat, ballotId: Option<seq<byte>>): Option<seq<bool>> {
    var kind :- BoundedField(ballotType, BALLOT_TYPE_MAXIMUM_VALUE);
    var id :- BallotIdField(ballotId);
    Some([isTestMode] + (kind + id))
  }

  function ConfigField(e: Election, config: Config): Option<seq<bool>> {
    var counts :- CountsField(e);
    var place :- PlaceField(e, config.precinctId, config.ballotStyleId);
    var mode :- ModeField(config.isTestMode, config.ballotType, config.ballotId);
    Some(counts + (place + mode))
  }

  datatype Config = Config(
    ballotId: Option<seq<byte>>,
    ballotStyleId: string,
    ballotType: nat,
    isTestMode: bool,
    precinctId: string)

  function ReadBallotId(bits: seq<bool>): Parsed<Option<seq<byte>>> {
    var (hasId, rest) :- ReadBool(bits);
    if !hasId then Read(None, rest)
    else
      var (id, rest') :- ReadText(rest, BYTE_SIZE, BALLOT_ID_MAX_LENGTH);
      assert Pow2(BYTE_SIZE) == 256 && forall i :: 0 <= i < |id| ==> id[i] in id;
      var bytes: seq<byte> := id;
      if bytes == [] || bytes[0] == UNDERSCORE then Malformed else Read(Some(bytes), rest')
  }

  /** Whether the three counts that come next are those of the election. */
  function ReadCounts(e: Election, bits: seq<bool>): Parsed<bool> {
    var (precinctCount, r1) :- ReadUint(bits, BYTE_SIZE);
    var (styleCount, r2) :- ReadUint(r1, BYTE_SIZE);
    var (contestCount, r3) :- ReadUint(r2, BYTE_SIZE);
    Read(precinctCount == |e.precincts| && styleCount == |e.ballotStyles| && contestCount == |e.contests|, r3)
  }

  function ReadPlace(e: Election, bits: seq<bool>): Parsed<(string, string)> {
    var (precinctIndex, rest) :- ReadBounded(bits, |e.precincts| - 1);
    var (styleIndex, rest') :- ReadBounded(rest, |e.ballotStyles| - 1);
    if styleIndex >= |e.ballotStyles| || precinctIndex >= |e.precincts| then Malformed
    else Read((e.precincts[precinctIndex].id, e.ballotStyles[styleIndex].id), rest')
  }

  function ReadMode(bits: seq<bool>): Parsed<(bool, nat, Option<seq<byte>>)> {
    var (isTestMode, r1) :- ReadBool(bits);
    var (ballotType, r2) :- ReadBounded(r1, BALLOT_TYPE_MAXIMUM_VALUE);
    var (ballotId, r3) :- ReadBallotId(r2);
    Read((isTestMode, ballotType, ballotId), r3)
  }

  function ReadConfig(e: Election, bits: seq<bool>): Parsed<Config> {
    var (matches, r1) :- ReadCounts(e, bits);
    if !matches then Malformed
    else
      var (place, r2) :- ReadPlace(e, r1);
      var (mode, r3) :- ReadMode(r2);
      Read(Config(mode.2, place.1, mode.1, mode.0, place.0), r3)
  }

  // ---- votes

  predicate Chooses(vote: Vote, candidateId: string) {
    exists choice :: choice in vote && choice.Pick? && choice.candidate.id == candidateId
  }

  predicate IsWriteIn(choice: Choice) {
    choice.Pick? && choice.candidate.isWriteIn
  }

  function CandidateBits(candidates: seq<Candidate>, vote: Vote): (bits: seq<bool>)
    ensures |bits| == |candidates|
  {
    if candidates == [] then [] else [Chooses(vote, candidates[0].id)] + CandidateBits(candidates[1..], vote)
  }

  function WriteInNames(vote: Vote): (names: seq<string>)
    ensures |names| <= |vote|
  {
    if vote == [] then []
    else (if IsWriteIn(vote[0]) then [vote[0].candidate.name] else []) + WriteInNames(vote[1..])
  }

  function MaximumWriteIns(seats: nat, taken: nat): nat {
    if seats > taken then seats - taken else 0
  }

  function NamesField(names: seq<string>): Option<seq<bool>> {
    if names == [] then Some([])
    else
      var first :- StringField(WRITE_IN_CHARS, names[0], MAXIMUM_WRITE_IN_LENGTH);
      var others :- NamesField(names[1..]);
      Some(first + others)
  }

  function WriteInsField(seats: nat, vote: Vote): Option<seq<bool>> {
    var names := WriteInNames(vote);
    var max := MaximumWriteIns(seats, |vote| - |names|);
    if max == 0 then Some([])
    else
      var count :- BoundedField(|names|, max);
      var content :- NamesField(names);
      Some(count + content)
  }

  function VoteField(kind: ContestKind, vote: Vote): Option<seq<bool>> {
    match kind
    case YesNoContest => if |vote| > 1 then None else Some([vote == [Yes]])
    case CandidateContest(seats, candidates, allowWriteIns, _) =>
      var chosen := CandidateBits(candidates, vote);
      if !allowWriteIns then Some(chosen)
      else
        var writeIns :- WriteInsField(seats, vote);
        Some(chosen + writeIns)
  }

  function RollCall(contests: seq<Contest>, votes: Votes): (bits: seq<bool>)
    ensures |bits| == |contests|
  {
    if contests == [] then [] else [IsVotePresent(votes, contests[0].id)] + RollCall(contests[1..], votes)
  }

  function VoteDataField(contests: seq<Contest>, votes: Votes): Option<seq<bool>> {
    if contests == [] then Some([])
    else if !IsVotePresent(votes, contests[0].id) then VoteDataField(contests[1..], votes)
    else
      var first :- VoteField(contests[0].kind, votes[contests[0].id]);
      var others :- VoteDataField(contests[1..], votes);
      Some(first + others)
  }

  function VotesField(contests: seq<Contest>, votes: Votes): Option<seq<bool>> {
    var data :- VoteDataField(contests, votes);
    Some(RollCall(contests, votes) + data)
  }

  function ReadRollCall(contests: seq<Contest>, bits: seq<bool>): Parsed<seq<Contest>> {
    if contests == [] then Read([], bits)
    else
      var (present, rest) :- ReadBool(bits);
      var (others, rest') :- ReadRollCall(contests[1..], rest);
      Read((if present then [contests[0]] else []) + others, rest')
  }

  function ReadChosen(candidates: seq<Candidate>, bits: seq<bool>): Parsed<Vote> {
    if candidates == [] then Read([], bits)
    else
      var (chosen, rest) :- ReadBool(bits);
      var (others, rest') :- ReadChosen(candidates[1..], rest);
      Read((if chosen then [Pick(candidates[0])] else []) + others, rest')
  }

  function WriteIn(name: string): Choice {
    Pick(Candidate("write-in-" + name, name, None, true, None))
  }

  function ReadWriteIns(count: nat, bits: seq<bool>): Parsed<Vote> {
    if count == 0 then Read([], bits)
    else
      var (name, rest) :- ReadString(bits, WRITE_IN_CHARS, MAXIMUM_WRITE_IN_LENGTH);
      var (others, rest') :- ReadWriteIns(count - 1, rest);
      Read([WriteIn(name)] + others, rest')
  }

  /** Reads the write-ins of a contest with `taken` of its seats filled. */
  function ReadWriteInsAfter(seats: nat, taken: nat, bits: seq<bool>): Parsed<Vote> {
    var max := MaximumWriteIns(seats, taken);
    if max == 0 then Read([], bits)
    else
      var (count, rest) :- ReadBounded(bits, max);
      ReadWriteIns(count, rest)
  }

  function ReadVote(kind: ContestKind, bits: seq<bool>): Parsed<Vote> {
    match kind
    case YesNoContest =>
      var (yes, rest) :- ReadBool(bits);
      Read([if yes then Yes else No], rest)
    case CandidateContest(seats, candidates, allowWriteIns, _) =>
      var (chosen, rest) :- ReadChosen(candidates, bits);
      if !allowWriteIns then Read(chosen, rest)
      else
        var (writeIns, rest') :- ReadWriteInsAfter(seats, |chosen|, rest);
        Read(chosen + writeIns, rest')
  }

  /** Reads the votes of `answered` on top of the votes already read. */
  function ReadVoteData(answered: seq<Contest>, bits: seq<bool>, votes: Votes): Parsed<Votes> {
    if answered == [] then Read(votes, bits)
    else
      var (vote, rest) :- ReadVote(answered[0].kind, bits);
      ReadVoteData(answered[1..], rest, votes[answered[0].id := vote])
  }

  function ReadVotes(contests: seq<Contest>, bits: seq<bool>): Parsed<Votes> {
    var (answered, rest) :- ReadRollCall(contests, bits);
    ReadVoteData(answered, rest, map[])
  }

  // ---- ballots

  function HashSlice(hash: string): string {
    if |hash| > ELECTION_HASH_LENGTH then hash[..ELECTION_HASH_LENGTH] else hash
  }

  function ConfigOf(b: Ballot): Config {
    Config(b.ballotId, b.ballotStyleId, b.ballotType, b.isTestMode, b.precinctId)
  }

  function HashField(hash: string): Option<seq<bool>> {
    FixedStringField(HEX_CHARS, HashSlice(hash), ELECTION_HASH_LENGTH)
  }

  function ReadHash(bits: seq<bool>): Parsed<string> {
    ReadFixedString(bits, HEX_CHARS, ELECTION_HASH_LENGTH)
  }

  function ContentField(e: Election, b: Ballot, contests: seq<Contest>): Option<seq<bool>> {
    var config :- ConfigField(e, ConfigOf(b));
    var votes :- VotesField(contests, b.votes);
    Some(config + votes)
  }

  function BallotField(e: Election, b: Ballot): Option<seq<bool>> {
    var style :- FindBallotStyle(e.ballotStyles, b.ballotStyleId);
    var contests := GetContests(e.ballotStyles[style], e.contests);
    if !ValidateVotes(contests, b.votes) then None
    else
      var hash :- HashField(b.electionHash);
      var content :- ContentField(e, b, contests);
      Some(Unpack(PRELUDE) + (hash + content))
  }

  /** Only padding may follow: fewer than eight bits, all of them zero. */
  predicate IsPadding(bits: seq<bool>) {
    |bits| < BYTE_SIZE && forall i :: 0 <= i < |bits| ==> !bits[i]
  }

  function ReadContent(e: Election, hash: string, bits: seq<bool>): Parsed<Ballot> {
    var (config, r1) :- ReadConfig(e, bits);
    match FindBallotStyle(e.ballotStyles, config.ballotStyleId)
    case None => Malformed
    case Some(style) =>
      var (votes, r2) :- ReadVotes(GetContests(e.ballotStyles[style], e.contests), r1);
      Read(Ballot(hash, config.ballotStyleId, config.precinctId, config.ballotId, votes,
                  config.isTestMode, config.ballotType), r2)
  }

  function ReadUnpadded(e: Election, hash: string, bits: seq<bool>): Option<Ballot> {
    match ReadContent(e, hash, bits)
    case Malformed => None
    case Read(b, rest) => if IsPadding(rest) then Some(b) else None
  }

  function ReadBallot(e: Election, bits: seq<bool>): Option<Ballot> {
    var afterPrelude :- SkipBytes(bits, PRELUDE);
    match ReadHash(afterPrelude)
    case Malformed => None
    case Read(hash, rest) => ReadUnpadded(e, hash, rest)
  }
}
