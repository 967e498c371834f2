/** Decoding undoes encoding, as long as both sides compute the same field widths. */
module BallotRoundTrip {
  import opened Wrappers
  import opened Bits
  import opened BitFields
  import opened BitStreams
  import opened Election
  import opened BallotFormat

  // ---- what a decoded ballot holds

  function ChosenPicks(candidates: seq<Candidate>, vote: Vote): (chosen: Vote)
    ensures forall i :: 0 <= i < |chosen| ==> chosen[i].Pick?
  {
    if candidates == [] then []
    else (if Chooses(vote, candidates[0].id) then [Pick(candidates[0])] else []) + ChosenPicks(candidates[1..], vote)
  }

  function WriteInPicks(names: seq<string>): (vote: Vote)
    ensures |vote| == |names|
  {
    if names == [] then [] else [WriteIn(names[0])] + WriteInPicks(names[1..])
  }

  /**
   The chosen candidates in contest order, then the write-ins in ballot order,
   unless the chosen candidates already fill every seat.
   */
  function CanonicalVote(kind: ContestKind, vote: Vote): Vote {
    match kind
    case YesNoContest => [if vote == [Yes] then Yes else No]
    case CandidateContest(seats, candidates, allowWriteIns, _) =>
      var chosen := ChosenPicks(candidates, vote);
      chosen + (if allowWriteIns && |chosen| < seats then WriteInPicks(WriteInNames(vote)) else [])
  }

  function CanonicalVotes(contests: seq<Contest>, votes: Votes, acc: Votes): Votes {
    if contests == [] then acc
    else if !IsVotePresent(votes, contests[0].id) then CanonicalVotes(contests[1..], votes, acc)
    else
      var id := contests[0].id;
      CanonicalVotes(contests[1..], votes, acc[id := CanonicalVote(contests[0].kind, votes[id])])
  }

  function CanonicalBallot(e: Election, b: Ballot): Ballot
    requires FindBallotStyle(e.ballotStyles, b.ballotStyleId).Some?
  {
    var contests := BallotContests(e, b);
    b.(electionHash := HashSlice(b.electionHash),
       ballotId := IdRead(b.ballotId),
       votes := CanonicalVotes(contests, b.votes, map[]))
  }

  function BallotContests(e: Election, b: Ballot): seq<Contest>
    requires FindBallotStyle(e.ballotStyles, b.ballotStyleId).Some?
  {
    GetContests(e.ballotStyles[FindBallotStyle(e.ballotStyles, b.ballotStyleId).value], e.contests)
  }

  // ---- when both sides compute the same widths

  /** The decoder can only count chosen candidates; the encoder counts choices. */
  predicate LockStep(kind: ContestKind, vote: Vote) {
    match kind
    case YesNoContest => true
    case CandidateContest(seats, candidates, allowWriteIns, _) =>
      var written := MaximumWriteIns(seats, |vote| - |WriteInNames(vote)|);
      var read := MaximumWriteIns(seats, |ChosenPicks(candidates, vote)|);
      allowWriteIns ==> (written == 0 <==> read == 0) && Sizeof(written) == Sizeof(read)
  }

  /** Each listed candidate at most once, and no write-in that names a listed candidate. */
  predicate ValidSelection(candidates: seq<Candidate>, vote: Vote) {
    && UniqueCandidateIds(candidates)
    && (forall choice :: choice in vote ==> choice.Pick?)
    && (forall i, j :: 0 <= i < j < |vote| && !IsWriteIn(vote[i]) && !IsWriteIn(vote[j]) ==>
          vote[i].candidate.id != vote[j].candidate.id)
    && (forall choice :: choice in vote ==>
          (IsWriteIn(choice) <==> choice.candidate.id !in CandidateIds(candidates)))
  }

  function CandidateIds(candidates: seq<Candidate>): set<string> {
    set c | c in candidates :: c.id
  }

  function Listed(vote: Vote): (listed: Vote)
    ensures forall i :: 0 <= i < |listed| ==> listed[i] in vote
  {
    if vote == [] then []
    else (if IsWriteIn(vote[0]) then [] else [vote[0]]) + Listed(vote[1..])
  }

  function PickIds(vote: Vote): set<string> {
    set choice | choice in vote && choice.Pick? :: choice.candidate.id
  }

  lemma {:induction false} ListedMembers(vote: Vote)
    ensures forall choice :: choice in Listed(vote) <==> choice in vote && !IsWriteIn(choice)
    ensures |Listed(vote)| + |WriteInNames(vote)| == |vote|
  {
    if vote != [] {
      ListedMembers(vote[1..]);
    }
  }

  /** A vote whose picks have distinct ids has as many ids as picks. */
  lemma {:induction false} DistinctPicksCount(vote: Vote)
    requires forall choice :: choice in vote ==> choice.Pick?
    requires forall i, j :: 0 <= i < j < |vote| ==> vote[i].candidate.id != vote[j].candidate.id
    ensures |PickIds(vote)| == |vote|
  {
    if vote == [] {
      assert PickIds(vote) == {};
    } else {
      DistinctPicksCount(vote[1..]);
      assert PickIds(vote) == {vote[0].candidate.id} + PickIds(vote[1..]);
      assert vote[0].candidate.id !in PickIds(vote[1..]);
    }
  }

  lemma {:induction false} ListedDistinct(vote: Vote)
    requires forall choice :: choice in vote ==> choice.Pick?
    requires forall i, j :: 0 <= i < j < |vote| && !IsWriteIn(vote[i]) && !IsWriteIn(vote[j]) ==>
               vote[i].candidate.id != vote[j].candidate.id
    ensures forall i, j :: 0 <= i < j < |Listed(vote)| ==>
              Listed(vote)[i].candidate.id != Listed(vote)[j].candidate.id
  {
    if vote != [] {
      ListedDistinct(vote[1..]);
      ListedMembers(vote[1..]);
      var others := Listed(vote[1..]);
      forall k | 0 <= k < |others| && !IsWriteIn(vote[0])
        ensures others[k].candidate.id != vote[0].candidate.id
      {
        assert others[k] in vote[1..];
      }
    }
  }

  lemma {:induction false} ChosenMembers(candidates: seq<Candidate>, vote: Vote)
    ensures forall choice :: choice in ChosenPicks(candidates, vote) <==>
              choice.Pick? && choice.candidate in candidates && Chooses(vote, choice.candidate.id)
  {
    if candidates != [] {
      ChosenMembers(candidates[1..], vote);
    }
  }

  lemma {:induction false} ChosenDistinct(candidates: seq<Candidate>, vote: Vote)
    requires UniqueCandidateIds(candidates)
    ensures forall i, j :: 0 <= i < j < |ChosenPicks(candidates, vote)| ==>
              ChosenPicks(candidates, vote)[i].candidate.id != ChosenPicks(candidates, vote)[j].candidate.id
  {
    if candidates != [] {
      ChosenDistinct(candidates[1..], vote);
      ChosenMembers(candidates[1..], vote);
      var others := ChosenPicks(candidates[1..], vote);
      forall k | 0 <= k < |others|
        ensures others[k].candidate.id != candidates[0].id
      {
        assert others[k] in others;
      }
    }
  }

  /** The decoder finds as many chosen candidates as the encoder counted choices. */
  lemma SameCount(candidates: seq<Candidate>, vote: Vote)
    requires ValidSelection(candidates, vote)
    ensures |ChosenPicks(candidates, vote)| == |vote| - |WriteInNames(vote)|
  {
    ListedMembers(vote);
    ListedDistinct(vote);
    ChosenDistinct(candidates, vote);
    SamePicks(candidates, vote);
    DistinctPicksCount(Listed(vote));
    DistinctPicksCount(ChosenPicks(candidates, vote));
    hide Listed, ChosenPicks, PickIds, WriteInNames;
  }

  lemma SamePicks(candidates: seq<Candidate>, vote: Vote)
    requires ValidSelection(candidates, vote)
    ensures forall choice :: choice in Listed(vote) ==> choice.Pick?
    ensures PickIds(Listed(vote)) == PickIds(ChosenPicks(candidates, vote))
  {
    var listed, chosen := Listed(vote), ChosenPicks(candidates, vote);
    ListedMembers(vote);
    ChosenMembers(candidates, vote);
    hide Listed, ChosenPicks;
    forall id | id in PickIds(listed)
      ensures id in PickIds(chosen)
    {
      var choice :| choice in listed && choice.candidate.id == id;
      var c :| c in candidates && c.id == id;
      assert Pick(c) in chosen;
    }
    forall id | id in PickIds(chosen)
      ensures id in PickIds(listed)
    {
      var choice :| choice in chosen && choice.candidate.id == id;
      var picked :| picked in vote && picked.Pick? && picked.candidate.id == id;
      assert picked in listed;
    }
  }

  /** So on a valid selection both sides compute the same `maximumWriteIns`. */
  lemma ValidSelectionInLockStep(kind: ContestKind, vote: Vote)
    requires kind.CandidateContest?
    requires ValidSelection(kind.candidates, vote)
    ensures LockStep(kind, vote)
    ensures MaximumWriteIns(kind.seats, |vote| - |WriteInNames(vote)|)
         == MaximumWriteIns(kind.seats, |ChosenPicks(kind.candidates, vote)|)
  {
    SameCount(kind.candidates, vote);
  }

  /** Write-ins are dropped exactly when they are not allowed or every seat is taken. */
  lemma WriteInsKept(kind: ContestKind, vote: Vote)
    requires kind.CandidateContest?
    ensures CanonicalVote(kind, vote) == ChosenPicks(kind.candidates, vote) + WriteInPicks(WriteInNames(vote))
       <==> WriteInNames(vote) == [] || (kind.allowWriteIns && |ChosenPicks(kind.candidates, vote)| < kind.seats)
  {
    var chosen, writeIns := ChosenPicks(kind.candidates, vote), WriteInPicks(WriteInNames(vote));
    assert |chosen + writeIns| == |chosen| + |writeIns|;
    assert chosen + [] == chosen;
  }

  /**
   A valid selection without overvote loses nothing: each choice is either a chosen
   candidate or a write-in that comes back.
   */
  lemma NothingLost(kind: ContestKind, vote: Vote)
    requires kind.CandidateContest?
    requires ValidSelection(kind.candidates, vote)
    requires |vote| <= kind.seats
    requires WriteInNames(vote) == [] || kind.allowWriteIns
    ensures CanonicalVote(kind, vote) == ChosenPicks(kind.candidates, vote) + WriteInPicks(WriteInNames(vote))
    ensures |CanonicalVote(kind, vote)| == |vote|
  {
    SameCount(kind.candidates, vote);
    WriteInsKept(kind, vote);
  }

  // ---- what a decoded vote lists

  predicate Increasing(at: seq<nat>) {
    forall j, k :: 0 <= j < k < |at| ==> at[j] < at[k]
  }

  /** Places in a sequence, given those in its tail and whether its head is one. */
  function Places(head: bool, tail: seq<nat>): (at: seq<nat>)
  {
    (if head then [0] else []) + seq(|tail|, k requires 0 <= k < |tail| => tail[k] + 1)
  }

  lemma PlacesOf(head: bool, tail: seq<nat>)
    requires Increasing(tail)
    ensures Increasing(Places(head, tail)) && |Places(head, tail)| == |tail| + if head then 1 else 0
    ensures head ==> Places(head, tail)[0] == 0
    ensures forall k :: 0 <= k < |tail| ==> Places(head, tail)[if head then k + 1 else k] == tail[k] + 1
    ensures forall i :: i in Places(head, tail) <==> (i == 0 && head) || (i > 0 && i - 1 in tail)
  {
    forall i | i > 0 && i - 1 in tail
      ensures i in Places(head, tail)
    {
      var k :| 0 <= k < |tail| && tail[k] == i - 1;
      assert Places(head, tail)[if head then k + 1 else k] == i;
    }
    if head {
      assert Places(head, tail)[0] == 0;
    }
  }

  lemma {:induction false} ChosenInOrder(candidates: seq<Candidate>, vote: Vote) returns (at: seq<nat>)
    ensures |at| == |ChosenPicks(candidates, vote)| && Increasing(at)
    ensures forall k :: 0 <= k < |at| ==> at[k] < |candidates| && ChosenPicks(candidates, vote)[k] == Pick(candidates[at[k]])
    ensures forall i: nat :: i < |candidates| ==> (i in at <==> Chooses(vote, candidates[i].id))
  {
    hide Chooses, Increasing, Places;
    at := [];
    if candidates == [] {
      NoPlaces();
    } else {
      var head, rest := Chooses(vote, candidates[0].id), candidates[1..];
      var others := ChosenInOrder(rest, vote);
      at := Places(head, others);
      PlacesOf(head, others);
      var picks := ChosenPicks(rest, vote);
      assert ChosenPicks(candidates, vote) == (if head then [Pick(candidates[0])] else []) + picks;
      hide ChosenPicks;
      assert forall i :: 0 < i < |candidates| ==> candidates[i] == rest[i - 1];
      forall k | 0 <= k < |at|
        ensures at[k] < |candidates| && ChosenPicks(candidates, vote)[k] == Pick(candidates[at[k]])
      {
        var j := if head then k - 1 else k;
        assert j >= 0 ==> at[if head then j + 1 else j] == others[j] + 1 && ChosenPicks(candidates, vote)[k] == picks[j];
      }
    }
  }

  lemma NoPlaces()
    ensures Increasing([])
  {
  }

  lemma {:induction false} WriteInsInOrder(vote: Vote) returns (at: seq<nat>)
    ensures |at| == |WriteInNames(vote)| && Increasing(at)
    ensures forall k :: 0 <= k < |at| ==>
              at[k] < |vote| && vote[at[k]].Pick? && WriteInNames(vote)[k] == vote[at[k]].candidate.name
    ensures forall i: nat :: i < |vote| ==> (i in at <==> vote[i].Pick? && vote[i].candidate.isWriteIn)
  {
    hide Increasing, Places;
    at := [];
    if vote == [] {
      NoPlaces();
    } else {
      var head, rest := vote[0].Pick? && vote[0].candidate.isWriteIn, vote[1..];
      var others := WriteInsInOrder(rest);
      at := Places(head, others);
      PlacesOf(head, others);
      var names := WriteInNames(rest);
      assert WriteInNames(vote) == (if head then [vote[0].candidate.name] else []) + names;
      hide WriteInNames;
      assert forall i :: 0 < i < |vote| ==> vote[i] == rest[i - 1];
      forall k | 0 <= k < |at|
        ensures at[k] < |vote| && vote[at[k]].Pick? && WriteInNames(vote)[k] == vote[at[k]].candidate.name
      {
        var j := if head then k - 1 else k;
        assert j >= 0 ==> at[if head then j + 1 else j] == others[j] + 1 && WriteInNames(vote)[k] == names[j];
      }
    }
  }

  lemma {:induction false} WriteInPickAt(names: seq<string>, k: nat)
    requires k < |names|
    ensures WriteInPicks(names)[k] == WriteIn(names[k])
  {
    if k > 0 {
      WriteInPickAt(names[1..], k - 1);
    }
  }

  /**
   A valid selection without overvote comes back as the listed candidates it names, in contest
   order, and then its write-ins, in ballot order, each known by nothing but its name.
   */
  lemma DecodedVoteListed(kind: ContestKind, vote: Vote) returns (chosen: seq<nat>, written: seq<nat>)
    requires kind.CandidateContest? && ValidSelection(kind.candidates, vote) && |vote| <= kind.seats
    requires WriteInNames(vote) == [] || kind.allowWriteIns
    ensures Increasing(chosen) && Increasing(written) && |CanonicalVote(kind, vote)| == |chosen| + |written| == |vote|
    ensures forall i: nat :: i < |kind.candidates| ==>
              (i in chosen <==> exists choice :: choice in vote && choice.Pick? && choice.candidate.id == kind.candidates[i].id)
    ensures forall i: nat :: i < |vote| ==> (i in written <==> vote[i].Pick? && vote[i].candidate.isWriteIn)
    ensures forall k :: 0 <= k < |chosen| ==>
              chosen[k] < |kind.candidates| && CanonicalVote(kind, vote)[k] == Pick(kind.candidates[chosen[k]])
    ensures forall k :: 0 <= k < |written| ==>
              && written[k] < |vote| && vote[written[k]].Pick?
              && var name := vote[written[k]].candidate.name;
                 CanonicalVote(kind, vote)[|chosen| + k] == Pick(Candidate("write-in-" + name, name, None, true, None))
  {
    chosen := ChosenInOrder(kind.candidates, vote);
    written := WriteInsInOrder(vote);
    SameCount(kind.candidates, vote);
    NothingLost(kind, vote);
    hide CanonicalVote, ValidSelection, ChosenPicks, WriteInNames, WriteInPicks;
    forall k | 0 <= k < |written|
      ensures CanonicalVote(kind, vote)[|chosen| + k] == WriteIn(vote[written[k]].candidate.name)
    {
      WriteInPickAt(WriteInNames(vote), k);
    }
  }

  // ---- reading back each part

  lemma CountsReadBack(e: Election, rest: seq<bool>)
    requires CountsField(e).Some?
    ensures ReadCounts(e, CountsField(e).value + rest) == Read(true, rest)
  {
    var p, s, c := ToBits(|e.precincts|, BYTE_SIZE), ToBits(|e.ballotStyles|, BYTE_SIZE), ToBits(|e.contests|, BYTE_SIZE);
    assert Pow2(8) == 256;
    assert p + s + c + rest == p + (s + (c + rest));
    UintReadsBack(|e.precincts|, BYTE_SIZE, s + (c + rest));
    UintReadsBack(|e.ballotStyles|, BYTE_SIZE, c + rest);
    UintReadsBack(|e.contests|, BYTE_SIZE, rest);
  }

  /** A ballot id comes back, an empty one as none, unless it starts with an underscore: then reading fails. */
  lemma BallotIdReadsBack(ballotId: Option<seq<byte>>, rest: seq<bool>)
    requires BallotIdField(ballotId).Some?
    ensures ReadBallotId(BallotIdField(ballotId).value + rest)
         == if IdAccepted(ballotId) then Read(IdRead(ballotId), rest) else Malformed
  {
    if ballotId in {None, Some([])} {
      BoolReadsBack(false, rest);
    } else {
      var text := TextField(ballotId.value, BYTE_SIZE, BALLOT_ID_MAX_LENGTH).value;
      Assoc([true], text, rest);
      BoolReadsBack(true, text + rest);
      TextReadsBack(ballotId.value, BYTE_SIZE, BALLOT_ID_MAX_LENGTH, rest);
    }
  }

  predicate IdAccepted(ballotId: Option<seq<byte>>) {
    ballotId.Some? && ballotId.value != [] ==> ballotId.value[0] != '_' as int
  }

  function IdRead(ballotId: Option<seq<byte>>): Option<seq<byte>> {
    if ballotId == Some([]) then None else ballotId
  }

  lemma PlaceReadsBack(e: Election, precinctId: string, ballotStyleId: string, rest: seq<bool>)
    requires PlaceField(e, precinctId, ballotStyleId).Some?
    ensures ReadPlace(e, PlaceField(e, precinctId, ballotStyleId).value + rest)
         == Read((precinctId, ballotStyleId), rest)
  {
    hide BoundedField, ReadBounded, FindPrecinct, FindBallotStyle;
    var pi, si := FindPrecinct(e.precincts, precinctId).value, FindBallotStyle(e.ballotStyles, ballotStyleId).value;
    var p := BoundedField(pi, |e.precincts| - 1).value;
    var s := BoundedField(si, |e.ballotStyles| - 1).value;
    Assoc(p, s, rest);
    BoundedReadsBack(pi, |e.precincts| - 1, s + rest);
    BoundedReadsBack(si, |e.ballotStyles| - 1, rest);
  }

  lemma ModeReadsBack(isTestMode: bool, ballotType: nat, ballotId: Option<seq<byte>>, rest: seq<bool>)
    requires ModeField(isTestMode, ballotType, ballotId).Some?
    ensures ReadMode(ModeField(isTestMode, ballotType, ballotId).value + rest)
         == if IdAccepted(ballotId) then Read((isTestMode, ballotType, IdRead(ballotId)), rest) else Malformed
  {
    hide BoundedField, ReadBounded, BallotIdField, ReadBallotId;
    var t := BoundedField(ballotType, BALLOT_TYPE_MAXIMUM_VALUE).value;
    var i := BallotIdField(ballotId).value;
    Assoc([isTestMode], t + i, rest);
    Assoc(t, i, rest);
    BoolReadsBack(isTestMode, t + (i + rest));
    BoundedReadsBack(ballotType, BALLOT_TYPE_MAXIMUM_VALUE, i + rest);
    BallotIdReadsBack(ballotId, rest);
  }

  lemma ConfigReadsBack(e: Election, config: Config, rest: seq<bool>)
    requires ConfigField(e, config).Some?
    ensures ReadConfig(e, ConfigField(e, config).value + rest)
         == if IdAccepted(config.ballotId) then Read(config.(ballotId := IdRead(config.ballotId)), rest) else Malformed
  {
    hide CountsField, PlaceField, ModeField, ReadCounts, ReadPlace, ReadMode, IdAccepted;
    var counts := CountsField(e).value;
    var place := PlaceField(e, config.precinctId, config.ballotStyleId).value;
    var mode := ModeField(config.isTestMode, config.ballotType, config.ballotId).value;
    assert counts + (place + mode) + rest == counts + (place + (mode + rest));
    CountsReadBack(e, place + (mode + rest));
    PlaceReadsBack(e, config.precinctId, config.ballotStyleId, mode + rest);
    ModeReadsBack(config.isTestMode, config.ballotType, config.ballotId, rest);
  }

  function Answered(contests: seq<Contest>, votes: Votes): seq<Contest> {
    if contests == [] then []
    else (if IsVotePresent(votes, contests[0].id) then [contests[0]] else []) + Answered(contests[1..], votes)
  }

  lemma {:induction false} RollCallReadsBack(contests: seq<Contest>, votes: Votes, rest: seq<bool>)
    ensures ReadRollCall(contests, RollCall(contests, votes) + rest) == Read(Answered(contests, votes), rest)
  {
    if contests == [] {
      assert [] + rest == rest;
    } else {
      var present, others := IsVotePresent(votes, contests[0].id), RollCall(contests[1..], votes);
      assert [present] + others + rest == [present] + (others + rest);
      BoolReadsBack(present, others + rest);
      RollCallReadsBack(contests[1..], votes, rest);
    }
  }

  lemma {:induction false} ChosenReadsBack(candidates: seq<Candidate>, vote: Vote, rest: seq<bool>)
    ensures ReadChosen(candidates, CandidateBits(candidates, vote) + rest) == Read(ChosenPicks(candidates, vote), rest)
  {
    if candidates == [] {
      assert [] + rest == rest;
    } else {
      var chosen, others := Chooses(vote, candidates[0].id), CandidateBits(candidates[1..], vote);
      assert [chosen] + others + rest == [chosen] + (others + rest);
      BoolReadsBack(chosen, others + rest);
      ChosenReadsBack(candidates[1..], vote, rest);
    }
  }

  // ---- the bits the decoder takes for a vote

  /** A name, its length as wide as the decoder reads it. */
  function SizedName(name: string): Option<seq<bool>> {
    var codes :- EncodeChars(WRITE_IN_CHARS, name);
    var length :- UintField(|codes|, Sizeof(MAXIMUM_WRITE_IN_LENGTH));
    var content :- CodesField(codes, CharWidth(WRITE_IN_CHARS));
    Some(length + content)
  }

  function SizedNames(names: seq<string>): Option<seq<bool>> {
    if names == [] then Some([])
    else
      var first :- SizedName(names[0]);
      var others :- SizedNames(names[1..]);
      Some(first + others)
  }

  /** The write-ins of a contest in which the decoder found `taken` chosen candidates. */
  function SizedWriteIns(seats: nat, taken: nat, names: seq<string>): Option<seq<bool>> {
    var max := MaximumWriteIns(seats, taken);
    if max == 0 then Some([])
    else if max > MAX_UINT then None
    else
      var count :- UintField(|names|, Sizeof(max));
      var content :- SizedNames(names);
      Some(count + content)
  }

  /** The bits from which the decoder reads the vote in canonical form. */
  function SizedVote(kind: ContestKind, vote: Vote): Option<seq<bool>> {
    match kind
    case YesNoContest => Some([vote == [Yes]])
    case CandidateContest(seats, candidates, allowWriteIns, _) =>
      var chosen := CandidateBits(candidates, vote);
      if !allowWriteIns then Some(chosen)
      else
        var writeIns :- SizedWriteIns(seats, |ChosenPicks(candidates, vote)|, WriteInNames(vote));
        Some(chosen + writeIns)
  }

  function SizedVotes(contests: seq<Contest>, votes: Votes): Option<seq<bool>> {
    if contests == [] then Some([])
    else if !IsVotePresent(votes, contests[0].id) then SizedVotes(contests[1..], votes)
    else
      var first :- SizedVote(contests[0].kind, votes[contests[0].id]);
      var others :- SizedVotes(contests[1..], votes);
      Some(first + others)
  }

  /** Letters and punctuation of the write-in alphabet, by their ASCII codes. */
  function WriteInAscii(i: nat): nat {
    if i < 26 then 65 + i else if i == 26 then 32 else if i == 27 then 39 else if i == 28 then 34
    else if i == 29 then 45 else if i == 30 then 46 else 44
  }

  lemma WriteInCodes()
    ensures |WRITE_IN_CHARS| == 32
    ensures forall i :: 0 <= i < 32 ==> WRITE_IN_CHARS[i] as int == WriteInAscii(i)
  {
    var chars := WRITE_IN_CHARS;
    assert |chars| == 32;
    assert forall i :: 0 <= i < 32 ==> chars[i] as int == WriteInAscii(i);
  }

  lemma WriteInCharsDistinct()
    ensures DistinctChars(WRITE_IN_CHARS)
  {
    WriteInCodes();
  }

  lemma NameReadExactly(name: string, bits: seq<bool>, rest: seq<bool>)
    ensures ReadString(bits, WRITE_IN_CHARS, MAXIMUM_WRITE_IN_LENGTH) == Read(name, rest)
       <==> SizedName(name).Some? && bits == SizedName(name).value + rest
  {
    hide ReadCodes, CodesField, EncodeChars, DecodeChars, ToBits, ReadUint, DistinctChars;
    WriteInCharsDistinct();
    var width := CharWidth(WRITE_IN_CHARS);
    var length := ReadBounded(bits, MAXIMUM_WRITE_IN_LENGTH);
    if length.Read? {
      var codes := ReadCodes(length.rest, length.value, width);
      UintReadExactly(length.value, Sizeof(MAXIMUM_WRITE_IN_LENGTH), bits, length.rest);
      if codes.Read? && codes.rest == rest && DecodeChars(WRITE_IN_CHARS, codes.value) == Some(name) {
        CharsExactly(WRITE_IN_CHARS, name, codes.value);
        CodesReadExactly(codes.value, width, length.rest, rest);
        Assoc(ToBits(length.value, Sizeof(MAXIMUM_WRITE_IN_LENGTH)), CodesField(codes.value, width).value, rest);
      }
    }
    if SizedName(name).Some? && bits == SizedName(name).value + rest {
      var codes := EncodeChars(WRITE_IN_CHARS, name).value;
      var first, content := ToBits(|codes|, Sizeof(MAXIMUM_WRITE_IN_LENGTH)), CodesField(codes, width).value;
      Assoc(first, content, rest);
      UintReadExactly(|codes|, Sizeof(MAXIMUM_WRITE_IN_LENGTH), bits, content + rest);
      CodesReadExactly(codes, width, content + rest, rest);
      CharsExactly(WRITE_IN_CHARS, name, codes);
    }
  }

  lemma {:induction false} NamesReadExactly(names: seq<string>, count: nat, bits: seq<bool>, rest: seq<bool>)
    ensures ReadWriteIns(count, bits) == Read(WriteInPicks(names), rest)
       <==> count == |names| && SizedNames(names).Some? && bits == SizedNames(names).value + rest
    decreases count
  {
    hide ReadString, SizedName;
    if count == 0 || names == [] {
      assert [] + rest == rest;
    } else {
      var name := ReadString(bits, WRITE_IN_CHARS, MAXIMUM_WRITE_IN_LENGTH);
      if name.Read? {
        NameReadExactly(name.value, bits, name.rest);
        NamesReadExactly(names[1..], count - 1, name.rest, rest);
        PicksSplit(name.value, ReadWriteIns(count - 1, name.rest), names);
        if SizedName(name.value).Some? && SizedNames(names[1..]).Some? {
          Assoc(SizedName(name.value).value, SizedNames(names[1..]).value, rest);
        }
      }
      if SizedNames(names).Some? {
        Assoc(SizedName(names[0]).value, SizedNames(names[1..]).value, rest);
        NameReadExactly(names[0], bits, SizedNames(names[1..]).value + rest);
      }
    }
  }

  lemma PicksSplit(name: string, others: Parsed<Vote>, names: seq<string>)
    requires names != []
    ensures others.Read? ==>
              ([WriteIn(name)] + others.value == WriteInPicks(names) <==>
                 name == names[0] && others.value == WriteInPicks(names[1..]))
  {
    if others.Read? {
      AppendCancel([WriteIn(name)], others.value, WriteInPicks(names[1..]));
      if [WriteIn(name)] + others.value == WriteInPicks(names) {
        assert ([WriteIn(name)] + others.value)[0] == WriteInPicks(names)[0] == WriteIn(names[0]);
      }
    }
  }

  lemma AppendCancel<T>(a: seq<T>, b: seq<T>, c: seq<T>)
    ensures a + b == a + c <==> b == c
  {
    if a + b == a + c {
      assert b == (a + b)[|a|..] && c == (a + c)[|a|..];
    }
  }

  lemma PrependCancel<T>(a: seq<T>, b: seq<T>, c: seq<T>)
    ensures a + c == b + c <==> a == b
  {
    if a + c == b + c {
      assert |a| == |b| && a == (a + c)[..|a|] && b == (b + c)[..|b|];
    }
  }

  /** The write-ins are read as those names from exactly one string of bits. */
  lemma WriteInsReadExactly(seats: nat, taken: nat, names: seq<string>, bits: seq<bool>, rest: seq<bool>)
    ensures ReadWriteInsAfter(seats, taken, bits)
         == Read(if MaximumWriteIns(seats, taken) == 0 then [] else WriteInPicks(names), rest)
       <==> SizedWriteIns(seats, taken, names).Some? && bits == SizedWriteIns(seats, taken, names).value + rest
  {
    hide ReadUint, SizedNames, ToBits, ReadWriteIns;
    var max := MaximumWriteIns(seats, taken);
    if max == 0 {
      assert [] + rest == rest;
    } else if max <= MAX_UINT {
      var count := ReadBounded(bits, max);
      if count.Read? {
        UintReadExactly(count.value, Sizeof(max), bits, count.rest);
        NamesReadExactly(names, count.value, count.rest, rest);
        if SizedNames(names).Some? {
          Assoc(ToBits(count.value, Sizeof(max)), SizedNames(names).value, rest);
        }
      }
      if SizedWriteIns(seats, taken, names).Some? {
        Assoc(ToBits(|names|, Sizeof(max)), SizedNames(names).value, rest);
        UintReadExactly(|names|, Sizeof(max), bits, SizedNames(names).value + rest);
      }
    }
  }

  lemma {:induction false} NamesSized(names: seq<string>)
    requires NamesField(names).Some?
    ensures SizedNames(names) == NamesField(names)
  {
    if names != [] {
      NameSized(names[0]);
      NamesSized(names[1..]);
      hide StringField, SizedName;
    }
  }

  lemma NameSized(name: string)
    requires StringField(WRITE_IN_CHARS, name, MAXIMUM_WRITE_IN_LENGTH).Some?
    ensures SizedName(name) == StringField(WRITE_IN_CHARS, name, MAXIMUM_WRITE_IN_LENGTH)
  {
    hide EncodeChars, CodesField, ToBits, Sizeof;
    SizeofIsTight(MAXIMUM_WRITE_IN_LENGTH);
  }

  /** The write-ins written are the ones the decoder expects exactly when both sides size them alike. */
  lemma WriteInsSizedExactly(kind: ContestKind, vote: Vote)
    requires kind.CandidateContest? && kind.allowWriteIns && WriteInsField(kind.seats, vote).Some?
    ensures SizedWriteIns(kind.seats, |ChosenPicks(kind.candidates, vote)|, WriteInNames(vote)) == WriteInsField(kind.seats, vote)
       <==> LockStep(kind, vote)
  {
    hide NamesField, SizedNames, Sizeof, ToBits, ChosenPicks, WriteInNames;
    var names := WriteInNames(vote);
    var written := MaximumWriteIns(kind.seats, |vote| - |names|);
    var read := MaximumWriteIns(kind.seats, |ChosenPicks(kind.candidates, vote)|);
    SizeLimit(written);
    SizeLimit(read);
    var field, sized := WriteInsField(kind.seats, vote), SizedWriteIns(kind.seats, |ChosenPicks(kind.candidates, vote)|, names);
    if written > 0 {
      NamesSized(names);
      SizeofIsTight(written);
      assert |field.value| == Sizeof(written) + |NamesField(names).value|;
      assert sized.Some? && read > 0 ==> |sized.value| == Sizeof(read) + |NamesField(names).value|;
    } else {
      assert sized.Some? && read > 0 ==> |sized.value| >= Sizeof(read);
    }
  }

  lemma VoteSizedExactly(kind: ContestKind, vote: Vote)
    requires vote != [] && VoteField(kind, vote).Some?
    ensures SizedVote(kind, vote) == VoteField(kind, vote) <==> LockStep(kind, vote)
  {
    hide SizedWriteIns, WriteInsField, ChosenPicks, CandidateBits, LockStep;
    match kind
    case YesNoContest =>
      YesNoInLockStep(vote);
    case CandidateContest(seats, candidates, allowWriteIns, _) =>
      if allowWriteIns {
        WriteInsSizedExactly(kind, vote);
        var sized := SizedWriteIns(seats, |ChosenPicks(candidates, vote)|, WriteInNames(vote));
        if sized.Some? {
          AppendCancel(CandidateBits(candidates, vote), sized.value, WriteInsField(seats, vote).value);
        }
      } else {
        NoWriteInsInLockStep(kind, vote);
      }
  }

  lemma YesNoInLockStep(vote: Vote)
    ensures LockStep(YesNoContest, vote)
  {
  }

  lemma NoWriteInsInLockStep(kind: ContestKind, vote: Vote)
    requires kind.CandidateContest? && !kind.allowWriteIns
    ensures LockStep(kind, vote)
  {
  }

  /** From the bits it takes for a vote, the decoder reads that vote in canonical form. */
  lemma SizedVoteReads(kind: ContestKind, vote: Vote, rest: seq<bool>)
    requires SizedVote(kind, vote).Some?
    ensures ReadVote(kind, SizedVote(kind, vote).value + rest) == Read(CanonicalVote(kind, vote), rest)
  {
    hide SizedWriteIns, ReadChosen, CandidateBits, ReadWriteInsAfter, WriteInNames, ChosenPicks;
    match kind
    case YesNoContest =>
      BoolReadsBack(vote == [Yes], rest);
    case CandidateContest(seats, candidates, allowWriteIns, _) =>
      var bits, chosen := CandidateBits(candidates, vote), ChosenPicks(candidates, vote);
      if allowWriteIns {
        var writeIns := SizedWriteIns(seats, |chosen|, WriteInNames(vote)).value;
        Assoc(bits, writeIns, rest);
        ChosenReadsBack(candidates, vote, writeIns + rest);
        WriteInsReadExactly(seats, |chosen|, WriteInNames(vote), writeIns + rest, rest);
      } else {
        ChosenReadsBack(candidates, vote, rest);
        assert chosen + [] == chosen;
      }
  }

  /** Whatever follows it, a vote is read back in canonical form exactly when it was written in lock step. */
  lemma VoteReadsBack(kind: ContestKind, vote: Vote, rest: seq<bool>)
    requires vote != [] && VoteField(kind, vote).Some?
    ensures ReadVote(kind, VoteField(kind, vote).value + rest) == Read(CanonicalVote(kind, vote), rest)
       <==> LockStep(kind, vote)
  {
    hide SizedWriteIns, WriteInsField, ReadChosen, CandidateBits, ReadWriteInsAfter, WriteInNames, ChosenPicks, LockStep;
    VoteSizedExactly(kind, vote);
    if SizedVote(kind, vote) == VoteField(kind, vote) {
      SizedVoteReads(kind, vote, rest);
    } else {
      UnsizedVoteMisread(kind, vote, rest);
    }
  }

  lemma UnsizedVoteMisread(kind: ContestKind, vote: Vote, rest: seq<bool>)
    requires vote != [] && VoteField(kind, vote).Some? && SizedVote(kind, vote) != VoteField(kind, vote)
    ensures ReadVote(kind, VoteField(kind, vote).value + rest) != Read(CanonicalVote(kind, vote), rest)
  {
    hide SizedWriteIns, WriteInsField, ReadChosen, CandidateBits, ReadWriteInsAfter, WriteInNames, ChosenPicks, WriteInPicks;
    var seats, candidates := kind.seats, kind.candidates;
    var chosen, names := ChosenPicks(candidates, vote), WriteInNames(vote);
    var written, sized := WriteInsField(seats, vote).value, SizedWriteIns(seats, |chosen|, names);
    var expected := if MaximumWriteIns(seats, |chosen|) == 0 then [] else WriteInPicks(names);
    Assoc(CandidateBits(candidates, vote), written, rest);
    ChosenReadsBack(candidates, vote, written + rest);
    WriteInsReadExactly(seats, |chosen|, names, written + rest, rest);
    if sized.Some? {
      PrependCancel(written, sized.value, rest);
    }
    var read := ReadWriteInsAfter(seats, |chosen|, written + rest);
    if read.Read? {
      AppendCancel(chosen, read.value, expected);
    }
  }

  predicate AllInLockStep(contests: seq<Contest>, votes: Votes) {
    forall c :: c in contests && IsVotePresent(votes, c.id) ==> LockStep(c.kind, votes[c.id])
  }

  lemma {:induction false} SizedVotesRead(contests: seq<Contest>, votes: Votes, acc: Votes, rest: seq<bool>)
    requires SizedVotes(contests, votes).Some?
    ensures ReadVoteData(Answered(contests, votes), SizedVotes(contests, votes).value + rest, acc)
         == Read(CanonicalVotes(contests, votes, acc), rest)
  {
    hide SizedVote, CanonicalVote, ReadVote;
    if contests == [] {
      assert [] + rest == rest;
    } else if !IsVotePresent(votes, contests[0].id) {
      SizedVotesRead(contests[1..], votes, acc, rest);
      assert [] + Answered(contests[1..], votes) == Answered(contests[1..], votes);
    } else {
      var id, answered := contests[0].id, Answered(contests, votes);
      var first, others := SizedVote(contests[0].kind, votes[id]).value, SizedVotes(contests[1..], votes).value;
      Assoc(first, others, rest);
      SizedVoteReads(contests[0].kind, votes[id], others + rest);
      assert answered[0] == contests[0] && answered[1..] == Answered(contests[1..], votes);
      SizedVotesRead(contests[1..], votes, acc[id := CanonicalVote(contests[0].kind, votes[id])], rest);
    }
  }

  lemma {:induction false} LockStepSized(contests: seq<Contest>, votes: Votes)
    requires VoteDataField(contests, votes).Some? && AllInLockStep(contests, votes)
    ensures SizedVotes(contests, votes) == VoteDataField(contests, votes)
  {
    hide SizedVote, VoteField, LockStep;
    if contests != [] {
      var id := contests[0].id;
      if IsVotePresent(votes, id) {
        VoteSizedExactly(contests[0].kind, votes[id]);
      }
      LockStepSized(contests[1..], votes);
    }
  }

  // ---- ballots

  predicate Decodable(e: Election, b: Ballot) {
    && FindBallotStyle(e.ballotStyles, b.ballotStyleId).Some?
    && IdAccepted(b.ballotId)
    && AllInLockStep(BallotContests(e, b), b.votes)
  }

  /** What the decoder makes of an encoded ballot comes down to the votes: the rest is always in step. */
  lemma BallotReadAsVotes(e: Election, b: Ballot, rest: seq<bool>)
    requires Encodable(e, b)
    ensures BallotField(e, b).Some? && VoteDataField(BallotContests(e, b), b.votes).Some?
    ensures ReadBallot(e, BallotField(e, b).value + rest)
         == if !IdAccepted(b.ballotId) then None
            else FromVotes(e, b, VoteDataField(BallotContests(e, b), b.votes).value + rest)
  {
    hide Encodable;
    EncodableExactly(e, b);
    hide ContentField, HashField, ReadHash, Unpack, SkipBytes, IdAccepted, IsPadding, ReadContent, FromVotes, VoteDataField;
    ContentIsVotes(e, b);
    var hash, content := HashField(b.electionHash).value, ContentField(e, b, BallotContests(e, b)).value;
    HeaderReadsBack(b.electionHash, content + rest);
    Assoc(Unpack(PRELUDE), hash + content, rest);
    Assoc(hash, content, rest);
    ContentReadsBack(e, b, rest);
    ContentDecides(e, b, content + rest, VoteDataField(BallotContests(e, b), b.votes).value + rest);
  }

  lemma ContentIsVotes(e: Election, b: Ballot)
    requires BallotField(e, b).Some?
    ensures FindBallotStyle(e.ballotStyles, b.ballotStyleId).Some?
    ensures ContentField(e, b, BallotContests(e, b)).Some? && VoteDataField(BallotContests(e, b), b.votes).Some?
  {
  }

  /** The ballot with the votes the decoder reads from `data`, if only padding is left after them. */
  function FromVotes(e: Election, b: Ballot, data: seq<bool>): Option<Ballot>
    requires FindBallotStyle(e.ballotStyles, b.ballotStyleId).Some?
  {
    match ReadVoteData(Answered(BallotContests(e, b), b.votes), data, map[])
    case Malformed => None
    case Read(votes, rest) => if IsPadding(rest) then Some(CanonicalBallot(e, b).(votes := votes)) else None
  }

  lemma ContentDecides(e: Election, b: Ballot, content: seq<bool>, data: seq<bool>)
    requires FindBallotStyle(e.ballotStyles, b.ballotStyleId).Some?
    requires ReadContent(e, HashSlice(b.electionHash), content) == ContentFromVotes(e, b, data)
    ensures ReadUnpadded(e, HashSlice(b.electionHash), content)
         == if IdAccepted(b.ballotId) then FromVotes(e, b, data) else None
  {
    hide ReadContent, ReadVoteData, IsPadding, IdAccepted, CanonicalVotes;
  }

  function ContentFromVotes(e: Election, b: Ballot, data: seq<bool>): Parsed<Ballot>
    requires FindBallotStyle(e.ballotStyles, b.ballotStyleId).Some?
  {
    if !IdAccepted(b.ballotId) then Malformed
    else
      var (votes, rest) :- ReadVoteData(Answered(BallotContests(e, b), b.votes), data, map[]);
      Read(CanonicalBallot(e, b).(votes := votes), rest)
  }

  lemma HeaderReadsBack(hash: string, rest: seq<bool>)
    requires HashField(hash).Some?
    ensures SkipBytes(Unpack(PRELUDE) + (HashField(hash).value + rest), PRELUDE) == Some(HashField(hash).value + rest)
    ensures ReadHash(HashField(hash).value + rest) == Read(HashSlice(hash), rest)
  {
    BytesSkip(PRELUDE, HashField(hash).value + rest);
    FixedStringReadsBack(HEX_CHARS, HashSlice(hash), ELECTION_HASH_LENGTH, rest);
  }

  lemma ContentReadsBack(e: Election, b: Ballot, rest: seq<bool>)
    requires FindBallotStyle(e.ballotStyles, b.ballotStyleId).Some?
    requires ContentField(e, b, BallotContests(e, b)).Some? && VoteDataField(BallotContests(e, b), b.votes).Some?
    ensures ReadContent(e, HashSlice(b.electionHash), ContentField(e, b, BallotContests(e, b)).value + rest)
         == ContentFromVotes(e, b, VoteDataField(BallotContests(e, b), b.votes).value + rest)
  {
    hide ReadConfig, ConfigField, ReadVoteData, VoteDataField, RollCall, ReadRollCall, IdAccepted, CanonicalVotes;
    var contests := BallotContests(e, b);
    var config, roll, data := ConfigField(e, ConfigOf(b)).value, RollCall(contests, b.votes), VoteDataField(contests, b.votes).value;
    Assoc(config, roll + data, rest);
    Assoc(roll, data, rest);
    ConfigReadsBack(e, ConfigOf(b), roll + data + rest);
    RollCallReadsBack(contests, b.votes, data + rest);
  }

  /**
   When the bits written for the votes, and those that follow, are the bits the decoder takes for
   them and then `tail`, it reads the ballot in canonical form and accepts it if `tail` is padding.
   */
  lemma SizedBallotReads(e: Election, b: Ballot, rest: seq<bool>, tail: seq<bool>)
    requires Encodable(e, b) && IdAccepted(b.ballotId)
    requires SizedVotes(BallotContests(e, b), b.votes).Some?
    ensures BallotField(e, b).Some? && VoteDataField(BallotContests(e, b), b.votes).Some?
    ensures VoteDataField(BallotContests(e, b), b.votes).value + rest == SizedVotes(BallotContests(e, b), b.votes).value + tail ==>
              (ReadBallot(e, BallotField(e, b).value + rest) == if IsPadding(tail) then Some(CanonicalBallot(e, b)) else None)
  {
    hide VoteEncodable, VoteDataField, SizedVotes, ReadVoteData, IdAccepted, IsPadding, BallotField, ReadBallot;
    BallotReadAsVotes(e, b, rest);
    SizedVotesRead(BallotContests(e, b), b.votes, map[], tail);
  }

  /**
   The round trip: whatever bits follow an encoded ballot, the decoder reads that
   ballot in canonical form, and accepts it exactly when those bits are padding.
   */
  lemma BallotReadsBack(e: Election, b: Ballot, rest: seq<bool>)
    requires Encodable(e, b) && Decodable(e, b)
    ensures BallotField(e, b).Some?
    ensures ReadBallot(e, BallotField(e, b).value + rest)
         == if IsPadding(rest) then Some(CanonicalBallot(e, b)) else None
  {
    hide Encodable, VoteDataField, SizedVotes, BallotField, ReadBallot, IsPadding, CanonicalBallot;
    BallotReadAsVotes(e, b, rest);
    LockStepSized(BallotContests(e, b), b.votes);
    SizedBallotReads(e, b, rest, rest);
  }

  /** What `CanonicalVotes` holds: the votes present, each in canonical form. */
  lemma {:induction false} CanonicalVotesHold(contests: seq<Contest>, votes: Votes, acc: Votes)
    requires UniqueContestIds(contests)
    requires forall c :: c in contests ==> c.id !in acc
    ensures forall id :: id in CanonicalVotes(contests, votes, acc) <==>
              id in acc || (IsVotePresent(votes, id) && exists c :: c in contests && c.id == id)
    ensures forall id :: id in acc ==> CanonicalVotes(contests, votes, acc)[id] == acc[id]
    ensures forall c :: c in contests && IsVotePresent(votes, c.id) ==>
              CanonicalVotes(contests, votes, acc)[c.id] == CanonicalVote(c.kind, votes[c.id])
  {
    if contests != [] {
      var c0 := contests[0];
      var acc' := if IsVotePresent(votes, c0.id) then acc[c0.id := CanonicalVote(c0.kind, votes[c0.id])] else acc;
      forall c | c in contests[1..]
        ensures c.id !in acc'
      {
        var k :| 0 <= k < |contests[1..]| && contests[1..][k] == c;
        assert contests[k + 1].id != c0.id;
      }
      CanonicalVotesHold(contests[1..], votes, acc');
    }
  }

  /**
   A ballot whose candidate votes are valid selections without overvote comes back
   whole: each vote on it is the chosen candidates in contest order followed by the
   write-ins in ballot order, and no other contest has a vote.
   */
  lemma ValidBallotRoundTrip(e: Election, b: Ballot, rest: seq<bool>) returns (decoded: Ballot)
    requires Encodable(e, b) && IdAccepted(b.ballotId) && IsPadding(rest)
    requires UniqueContestIds(e.contests)
    requires forall c :: c in e.contests && c.kind.CandidateContest? && IsVotePresent(b.votes, c.id) ==>
               var vote := b.votes[c.id];
               && ValidSelection(c.kind.candidates, vote)
               && |vote| <= c.kind.seats
               && (WriteInNames(vote) == [] || c.kind.allowWriteIns)
    ensures BallotField(e, b).Some? && ReadBallot(e, BallotField(e, b).value + rest) == Some(decoded)
    ensures decoded.electionHash == b.electionHash[..ELECTION_HASH_LENGTH]
    ensures decoded == b.(electionHash := decoded.electionHash, ballotId := decoded.ballotId, votes := decoded.votes)
    ensures decoded.ballotId == IdRead(b.ballotId)
    ensures decoded.votes.Keys == set id | id in b.votes && b.votes[id] != []
    ensures forall c :: c in e.contests && IsVotePresent(b.votes, c.id) ==>
              var vote := b.votes[c.id];
              decoded.votes[c.id] == match c.kind {
                case YesNoContest => if vote == [Yes] then [Yes] else [No]
                case CandidateContest(_, candidates, _, _) =>
                  ChosenPicks(candidates, vote) + WriteInPicks(WriteInNames(vote))
              }
  {
    hide ReadBallot, ContentField, BallotField, VoteEncodable;
    var style := e.ballotStyles[FindBallotStyle(e.ballotStyles, b.ballotStyleId).value];
    var contests := BallotContests(e, b);
    GetContestsMembers(style, e.contests);
    GetContestsUnique(style, e.contests);
    forall c | c in contests && IsVotePresent(b.votes, c.id)
      ensures LockStep(c.kind, b.votes[c.id])
    {
      if c.kind.CandidateContest? {
        ValidSelectionInLockStep(c.kind, b.votes[c.id]);
      }
    }
    BallotReadsBack(e, b, rest);
    decoded := CanonicalBallot(e, b);
    CanonicalVotesHold(contests, b.votes, map[]);
    forall id
      ensures id in decoded.votes <==> id in b.votes && b.votes[id] != []
    {
    }
    forall c | c in e.contests && IsVotePresent(b.votes, c.id)
      ensures c in contests
      ensures c.kind.CandidateContest? ==>
                (CanonicalVote(c.kind, b.votes[c.id])
                 == ChosenPicks(c.kind.candidates, b.votes[c.id]) + WriteInPicks(WriteInNames(b.votes[c.id])))
    {
      var d :| d in contests && d.id == c.id;
      assert d in e.contests;
      if c.kind.CandidateContest? {
        NothingLost(c.kind, b.votes[c.id]);
      }
    }
  }

  // ---- which ballots can be encoded

  predicate Spelled(chars: string, s: string) {
    forall c :: c in s ==> c in chars
  }

  predicate VoteEncodable(kind: ContestKind, vote: Vote) {
    match kind
    case YesNoContest => |vote| <= 1
    case CandidateContest(seats, _, allowWriteIns, _) =>
      var names := WriteInNames(vote);
      var room := seats - (|vote| - |names|);
      allowWriteIns && room > 0 ==>
        && |names| <= room <= 0x7fff_ffff
        && forall name :: name in names ==> |name| <= 40 && Spelled(WRITE_IN_CHARS, name)
  }

  predicate Encodable(e: Election, b: Ballot) {
    && |e.precincts| <= 255 && |e.ballotStyles| <= 255 && |e.contests| <= 255
    && (exists p :: p in e.precincts && p.id == b.precinctId)
    && FindBallotStyle(e.ballotStyles, b.ballotStyleId).Some?
    && ValidateVotes(BallotContests(e, b), b.votes)
    && |b.electionHash| >= 20 && Spelled(HEX_CHARS, b.electionHash[..20])
    && b.ballotType <= 15
    && (b.ballotId.Some? ==> |b.ballotId.value| <= 255)
    && (forall c :: c in BallotContests(e, b) && IsVotePresent(b.votes, c.id) ==> VoteEncodable(c.kind, b.votes[c.id]))
  }

  lemma {:induction false} BytesFit(bytes: seq<byte>)
    ensures CodesField(bytes, BYTE_SIZE).Some?
  {
    if bytes != [] {
      assert Pow2(BYTE_SIZE) == 256;
      BytesFit(bytes[1..]);
    }
  }

  lemma {:induction false} NamesEncodable(names: seq<string>)
    ensures NamesField(names).Some? <==>
              forall name :: name in names ==> |name| <= MAXIMUM_WRITE_IN_LENGTH && Spelled(WRITE_IN_CHARS, name)
  {
    hide StringField;
    if names != [] {
      StringEncodable(WRITE_IN_CHARS, names[0], MAXIMUM_WRITE_IN_LENGTH);
      NamesEncodable(names[1..]);
      assert forall name :: name in names <==> name == names[0] || name in names[1..];
    }
  }

  lemma VoteFieldEncodable(kind: ContestKind, vote: Vote)
    ensures VoteField(kind, vote).Some? <==> VoteEncodable(kind, vote)
  {
    hide NamesField, CandidateBits, Sizeof, ToBits;
    NamesEncodable(WriteInNames(vote));
  }

  lemma {:induction false} VoteDataEncodable(contests: seq<Contest>, votes: Votes)
    ensures VoteDataField(contests, votes).Some? <==>
              forall c :: c in contests && IsVotePresent(votes, c.id) ==> VoteEncodable(c.kind, votes[c.id])
  {
    hide VoteField, VoteEncodable;
    if contests != [] {
      var c0 := contests[0];
      if IsVotePresent(votes, c0.id) {
        VoteFieldEncodable(c0.kind, votes[c0.id]);
      }
      VoteDataEncodable(contests[1..], votes);
      assert forall c :: c in contests <==> c == c0 || c in contests[1..];
    }
  }

  /** The votes a ballot may hold are those in the contests open to its style, and no others. */
  lemma VotesTakenExactly(e: Election, b: Ballot)
    requires FindBallotStyle(e.ballotStyles, b.ballotStyleId).Some?
    ensures var style := e.ballotStyles[FindBallotStyle(e.ballotStyles, b.ballotStyleId).value];
            && (ValidateVotes(BallotContests(e, b), b.votes) <==>
                  forall id :: id in b.votes ==> exists c :: c in e.contests && c.id == id && OpenTo(style, c))
            && ((forall c :: c in BallotContests(e, b) && IsVotePresent(b.votes, c.id) ==> VoteEncodable(c.kind, b.votes[c.id])) <==>
                  forall c :: c in e.contests && OpenTo(style, c) && IsVotePresent(b.votes, c.id) ==>
                    VoteEncodable(c.kind, b.votes[c.id]))
  {
    hide VoteEncodable;
    ContestsAreOpen(e.ballotStyles[FindBallotStyle(e.ballotStyles, b.ballotStyleId).value], e.contests);
  }

  /** Encoding succeeds exactly on the ballots that meet the format's limits. */
  lemma EncodableExactly(e: Election, b: Ballot)
    ensures BallotField(e, b).Some? <==> Encodable(e, b)
  {
    hide VoteDataField, FixedStringField, CodesField, Sizeof, ToBits, ValidateVotes, VoteEncodable;
    if FindBallotStyle(e.ballotStyles, b.ballotStyleId).Some? {
      VoteDataEncodable(BallotContests(e, b), b.votes);
      FixedStringEncodable(HEX_CHARS, HashSlice(b.electionHash), ELECTION_HASH_LENGTH);
      assert |b.electionHash| == ELECTION_HASH_LENGTH ==> b.electionHash[..ELECTION_HASH_LENGTH] == b.electionHash;
      if b.ballotId.Some? {
        BytesFit(b.ballotId.value);
      }
    }
  }
}
