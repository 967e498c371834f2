/** Exactly which encoded ballots come back, and what becomes of the others. */
module BallotExactness {
  import opened Wrappers
  import opened Bits
  import opened BitFields
  import opened BitStreams
  import opened Election
  import opened BallotFormat
  import opened BallotRoundTrip

  /** Candidates listed with distinct ids, none of them as a write-in. */
  predicate PlainContest(kind: ContestKind) {
    kind.CandidateContest? ==>
      && UniqueCandidateIds(kind.candidates)
      && forall c :: c in kind.candidates ==> !c.isWriteIn
  }

  predicate PlainElection(e: Election) {
    UniqueContestIds(e.contests) && forall c :: c in e.contests ==> PlainContest(c.kind)
  }

  // ---- what was read determines the bits it was read from

  lemma {:induction false} ReadChosenMembers(candidates: seq<Candidate>, bits: seq<bool>)
    ensures ReadChosen(candidates, bits).Read? ==>
              forall choice :: choice in ReadChosen(candidates, bits).value ==> choice.Pick? && choice.candidate in candidates
  {
    if candidates != [] && bits != [] {
      ReadChosenMembers(candidates[1..], bits[1..]);
    }
  }

  lemma {:induction false} ReadWriteInsMembers(count: nat, bits: seq<bool>)
    ensures ReadWriteIns(count, bits).Read? ==> forall choice :: choice in ReadWriteIns(count, bits).value ==> IsWriteIn(choice)
  {
    hide ReadString;
    if count > 0 {
      var name := ReadString(bits, WRITE_IN_CHARS, MAXIMUM_WRITE_IN_LENGTH);
      if name.Read? {
        ReadWriteInsMembers(count - 1, name.rest);
      }
    }
  }

  lemma {:induction false} WriteInPicksMembers(names: seq<string>)
    ensures forall choice :: choice in WriteInPicks(names) ==> IsWriteIn(choice)
  {
    if names != [] {
      WriteInPicksMembers(names[1..]);
    }
  }

  lemma {:induction false} ChosenReadExactly(candidates: seq<Candidate>, vote: Vote, bits: seq<bool>, rest: seq<bool>)
    requires UniqueCandidateIds(candidates)
    ensures ReadChosen(candidates, bits) == Read(ChosenPicks(candidates, vote), rest)
       <==> bits == CandidateBits(candidates, vote) + rest
  {
    ChosenReadsBack(candidates, vote, rest);
    if candidates == [] {
      assert [] + rest == rest;
    } else if bits != [] && ReadChosen(candidates[1..], bits[1..]).Read? {
      var c0, others := candidates[0], ReadChosen(candidates[1..], bits[1..]);
      ReadChosenMembers(candidates[1..], bits[1..]);
      ChosenMembers(candidates[1..], vote);
      ChosenReadExactly(candidates[1..], vote, bits[1..], rest);
      FirstChosen(candidates, bits[0], others.value, Chooses(vote, c0.id), ChosenPicks(candidates[1..], vote));
      assert bits == [bits[0]] + bits[1..];
      Assoc([Chooses(vote, c0.id)], CandidateBits(candidates[1..], vote), rest);
    }
  }

  /** With distinct ids, a list of chosen candidates tells whether the first one is among them. */
  lemma FirstChosen(candidates: seq<Candidate>, a: bool, others: Vote, b: bool, others': Vote)
    requires UniqueCandidateIds(candidates) && candidates != []
    requires forall choice :: choice in others ==> choice.Pick? && choice.candidate in candidates[1..]
    requires forall choice :: choice in others' ==> choice.Pick? && choice.candidate in candidates[1..]
    ensures (if a then [Pick(candidates[0])] else []) + others == (if b then [Pick(candidates[0])] else []) + others'
       <==> a == b && others == others'
  {
    var first := Pick(candidates[0]);
    assert first !in others && first !in others' by {
      assert forall i :: 0 <= i < |candidates[1..]| ==> candidates[1..][i] != candidates[0];
    }
    var l, r := (if a then [first] else []) + others, (if b then [first] else []) + others';
    assert first in l <==> a;
    assert first in r <==> b;
    if l == r {
      AppendCancel(if a then [first] else [], others, others');
    }
  }

  /** Chosen candidates and write-ins are told apart wherever one ends and the other begins. */
  lemma SplitUnique(a: Vote, b: Vote, a': Vote, b': Vote)
    requires forall choice :: choice in a || choice in a' ==> !IsWriteIn(choice)
    requires forall choice :: choice in b || choice in b' ==> IsWriteIn(choice)
    ensures a + b == a' + b' <==> a == a' && b == b'
  {
    LeadOf(a, b);
    LeadOf(a', b');
    if a + b == a' + b' {
      assert a == (a + b)[..|a|] && a' == (a' + b')[..|a|];
      AppendCancel(a, b, b');
    }
  }

  /** How many choices come before the first write-in. */
  function Lead(vote: Vote): nat {
    if vote == [] || IsWriteIn(vote[0]) then 0 else 1 + Lead(vote[1..])
  }

  lemma {:induction false} LeadOf(a: Vote, b: Vote)
    requires forall choice :: choice in a ==> !IsWriteIn(choice)
    requires forall choice :: choice in b ==> IsWriteIn(choice)
    ensures Lead(a + b) == |a|
  {
    if a == [] {
      assert a + b == b;
    } else {
      LeadOf(a[1..], b);
      assert (a + b)[1..] == a[1..] + b;
    }
  }

  /** A vote is read in canonical form from exactly one string of bits. */
  lemma VoteReadExactly(kind: ContestKind, vote: Vote, bits: seq<bool>, rest: seq<bool>)
    requires PlainContest(kind)
    ensures ReadVote(kind, bits) == Read(CanonicalVote(kind, vote), rest)
       <==> SizedVote(kind, vote).Some? && bits == SizedVote(kind, vote).value + rest
  {
    hide SizedWriteIns, ReadChosen, CandidateBits, ReadWriteInsAfter, WriteInNames, ChosenPicks;
    if SizedVote(kind, vote).Some? {
      SizedVoteReads(kind, vote, rest);
    }
    match kind
    case YesNoContest =>
      if bits != [] {
        assert bits == [bits[0]] + bits[1..];
      }
    case CandidateContest(seats, candidates, allowWriteIns, _) =>
      var read := ReadChosen(candidates, bits);
      if read.Read? {
        ChosenReadExactly(candidates, vote, bits, read.rest);
        if allowWriteIns && ReadVote(kind, bits) == Read(CanonicalVote(kind, vote), rest) {
          VoteSplitExactly(kind, vote, bits, rest);
        }
        assert ChosenPicks(candidates, vote) + [] == ChosenPicks(candidates, vote);
      }
  }

  lemma VoteSplitExactly(kind: ContestKind, vote: Vote, bits: seq<bool>, rest: seq<bool>)
    requires PlainContest(kind) && kind.CandidateContest? && kind.allowWriteIns
    requires ReadVote(kind, bits) == Read(CanonicalVote(kind, vote), rest)
    ensures SizedVote(kind, vote).Some? && bits == SizedVote(kind, vote).value + rest
  {
    hide SizedWriteIns, ReadChosen, CandidateBits, WriteInNames, ChosenPicks, ReadWriteIns, ReadBounded, WriteInPicks;
    var seats, candidates, names := kind.seats, kind.candidates, WriteInNames(vote);
    var read := ReadChosen(candidates, bits);
    var writeIns := ReadWriteInsAfter(seats, |read.value|, read.rest);
    var chosen := ChosenPicks(candidates, vote);
    var expected := if |chosen| < seats then WriteInPicks(names) else [];
    ReadChosenMembers(candidates, bits);
    ChosenMembers(candidates, vote);
    WriteInPicksMembers(names);
    AfterMembers(seats, |read.value|, read.rest);
    hide ReadWriteInsAfter;
    SplitUnique(read.value, writeIns.value, chosen, expected);
    ChosenReadExactly(candidates, vote, bits, read.rest);
    WriteInsReadExactly(seats, |chosen|, names, read.rest, rest);
    Assoc(CandidateBits(candidates, vote), SizedWriteIns(seats, |chosen|, names).value, rest);
  }

  lemma AfterMembers(seats: nat, taken: nat, bits: seq<bool>)
    ensures ReadWriteInsAfter(seats, taken, bits).Read? ==>
              forall choice :: choice in ReadWriteInsAfter(seats, taken, bits).value ==> IsWriteIn(choice)
  {
    hide ReadWriteIns, IsWriteIn;
    var count := ReadBounded(bits, MaximumWriteIns(seats, taken));
    if count.Read? {
      ReadWriteInsMembers(count.value, count.rest);
    }
  }

  /** Votes once read stay as they are. */
  lemma {:induction false} ReadVotesStay(answered: seq<Contest>, bits: seq<bool>, votes: Votes, id: string)
    requires id in votes && forall c :: c in answered ==> c.id != id
    requires ReadVoteData(answered, bits, votes).Read?
    ensures id in ReadVoteData(answered, bits, votes).value && ReadVoteData(answered, bits, votes).value[id] == votes[id]
    decreases answered
  {
    hide ReadVote;
    if answered != [] {
      var vote := ReadVote(answered[0].kind, bits);
      ReadVotesStay(answered[1..], vote.rest, votes[answered[0].id := vote.value], id);
    }
  }

  lemma {:induction false} AnsweredMembers(contests: seq<Contest>, votes: Votes)
    ensures forall c :: c in Answered(contests, votes) ==> c in contests
  {
    if contests != [] {
      AnsweredMembers(contests[1..], votes);
    }
  }

  lemma OtherIds(contests: seq<Contest>)
    requires UniqueContestIds(contests) && contests != []
    ensures UniqueContestIds(contests[1..])
    ensures forall c :: c in contests[1..] ==> c.id != contests[0].id
  {
    forall c | c in contests[1..]
      ensures c.id != contests[0].id
    {
      var k :| 0 <= k < |contests[1..]| && contests[1..][k] == c;
      assert contests[k + 1] == c;
    }
  }

  /** The votes are read in canonical form from exactly one string of bits. */
  lemma {:induction false} VotesReadExactly(contests: seq<Contest>, votes: Votes, acc: Votes, bits: seq<bool>, rest: seq<bool>)
    requires UniqueContestIds(contests) && forall c :: c in contests ==> PlainContest(c.kind) && c.id !in acc
    ensures ReadVoteData(Answered(contests, votes), bits, acc) == Read(CanonicalVotes(contests, votes, acc), rest)
       <==> SizedVotes(contests, votes).Some? && bits == SizedVotes(contests, votes).value + rest
  {
    hide SizedVote, CanonicalVote, ReadVote, PlainContest;
    if SizedVotes(contests, votes).Some? {
      SizedVotesRead(contests, votes, acc, rest);
    }
    if contests == [] {
      assert [] + rest == rest;
    } else {
      OtherIds(contests);
      if !IsVotePresent(votes, contests[0].id) {
        VotesReadExactly(contests[1..], votes, acc, bits, rest);
        assert [] + Answered(contests[1..], votes) == Answered(contests[1..], votes);
      } else if ReadVoteData(Answered(contests, votes), bits, acc) == Read(CanonicalVotes(contests, votes, acc), rest) {
        FirstVoteReadExactly(contests, votes, acc, bits, rest);
        var c0, read := contests[0], ReadVote(contests[0].kind, bits);
        var acc' := acc[c0.id := CanonicalVote(c0.kind, votes[c0.id])];
        VotesReadExactly(contests[1..], votes, acc', read.rest, rest);
        VoteReadExactly(c0.kind, votes[c0.id], bits, read.rest);
        Assoc(SizedVote(c0.kind, votes[c0.id]).value, SizedVotes(contests[1..], votes).value, rest);
      }
    }
  }

  lemma FirstVoteReadExactly(contests: seq<Contest>, votes: Votes, acc: Votes, bits: seq<bool>, rest: seq<bool>)
    requires UniqueContestIds(contests) && contests != [] && IsVotePresent(votes, contests[0].id)
    requires forall c :: c in contests ==> c.id !in acc
    requires ReadVoteData(Answered(contests, votes), bits, acc) == Read(CanonicalVotes(contests, votes, acc), rest)
    ensures var c0, read := contests[0], ReadVote(contests[0].kind, bits);
            && read.Read? && read.value == CanonicalVote(c0.kind, votes[c0.id])
            && ReadVoteData(Answered(contests[1..], votes), read.rest, acc[c0.id := read.value])
               == Read(CanonicalVotes(contests[1..], votes, acc[c0.id := read.value]), rest)
  {
    hide CanonicalVote, ReadVote;
    var c0, read := contests[0], ReadVote(contests[0].kind, bits);
    var answered := Answered(contests, votes);
    assert answered[0] == c0 && answered[1..] == Answered(contests[1..], votes);
    OtherIds(contests);
    AnsweredMembers(contests[1..], votes);
    ReadVotesStay(answered[1..], read.rest, acc[c0.id := read.value], c0.id);
    CanonicalVotesHold(contests, votes, acc);
  }

  // ---- ballots

  /** The bits written for the votes, and `rest`, are those the decoder takes for them, and padding. */
  predicate InStep(e: Election, b: Ballot, rest: seq<bool>)
    requires FindBallotStyle(e.ballotStyles, b.ballotStyleId).Some?
  {
    var written, sized := VoteDataField(BallotContests(e, b), b.votes), SizedVotes(BallotContests(e, b), b.votes);
    && IdAccepted(b.ballotId)
    && written.Some? && sized.Some?
    && sized.value <= written.value + rest
    && IsPadding((written.value + rest)[|sized.value|..])
  }

  /**
   Followed by `rest`, an encoded ballot comes back in canonical form exactly when its bits and
   `rest` are in step; its ballot id and the widths of its write-in counts decide that.
   */
  lemma BallotReadsBackExactly(e: Election, b: Ballot, rest: seq<bool>)
    requires Encodable(e, b) && PlainElection(e)
    ensures BallotField(e, b).Some?
    ensures ReadBallot(e, BallotField(e, b).value + rest) == Some(CanonicalBallot(e, b)) <==> InStep(e, b, rest)
  {
    hide VoteEncodable, VoteDataField, SizedVotes, IdAccepted, IsPadding, BallotField, ReadBallot, CanonicalVotes, PlainContest, ReadVoteData;
    BallotReadAsVotes(e, b, rest);
    var contests, style := BallotContests(e, b), e.ballotStyles[FindBallotStyle(e.ballotStyles, b.ballotStyleId).value];
    GetContestsMembers(style, e.contests);
    GetContestsUnique(style, e.contests);
    var data, sized := VoteDataField(contests, b.votes).value + rest, SizedVotes(contests, b.votes);
    var read := ReadVoteData(Answered(contests, b.votes), data, map[]);
    if read.Read? {
      VotesReadExactly(contests, b.votes, map[], data, read.rest);
      if sized.Some? && data == sized.value + read.rest {
        assert data[|sized.value|..] == read.rest;
      }
    }
    if sized.Some? && sized.value <= data {
      assert data == sized.value + data[|sized.value|..];
      VotesReadExactly(contests, b.votes, map[], data, data[|sized.value|..]);
    }
  }

  /** In lock step, the bits are in step exactly when only padding follows. */
  lemma LockStepInStep(e: Election, b: Ballot, rest: seq<bool>)
    requires Encodable(e, b) && Decodable(e, b)
    ensures InStep(e, b, rest) <==> IsPadding(rest)
  {
    hide VoteEncodable, VoteDataField, SizedVotes, IsPadding, LockStep, BallotField;
    BallotReadAsVotes(e, b, rest);
    LockStepSized(BallotContests(e, b), b.votes);
    var written := VoteDataField(BallotContests(e, b), b.votes).value;
    assert (written + rest)[|written|..] == rest;
  }

  /** What is in step is accepted, and with any bytes appended it is rejected. */
  lemma InStepAppended(e: Election, b: Ballot, rest: seq<bool>, more: seq<byte>)
    requires Encodable(e, b) && InStep(e, b, rest)
    ensures BallotField(e, b).Some?
    ensures ReadBallot(e, BallotField(e, b).value + (rest + Unpack(more)))
         == if more == [] then Some(CanonicalBallot(e, b)) else None
  {
    var contests := BallotContests(e, b);
    var written, sized := VoteDataField(contests, b.votes).value, SizedVotes(contests, b.votes).value;
    var tail := (written + rest)[|sized|..];
    hide VoteEncodable, VoteDataField, SizedVotes, BallotField, ReadBallot, CanonicalBallot, IdAccepted, Unpack;
    assert written + rest == sized + tail;
    Assoc(written, rest, Unpack(more));
    Assoc(sized, tail, Unpack(more));
    SizedBallotReads(e, b, rest + Unpack(more), tail + Unpack(more));
    PaddedMore(tail, more);
    hide IsPadding;
  }

  lemma PaddedMore(tail: seq<bool>, more: seq<byte>)
    requires IsPadding(tail)
    ensures IsPadding(tail + Unpack(more)) <==> more == []
  {
    if more == [] {
      assert tail + Unpack(more) == tail;
    }
  }

  // ---- a ballot with one vote

  predicate OnlyVote(contests: seq<Contest>, votes: Votes, c: Contest) {
    && c in contests && IsVotePresent(votes, c.id)
    && forall d :: d in contests && IsVotePresent(votes, d.id) ==> d == c
  }

  lemma {:induction false} NoVote(contests: seq<Contest>, votes: Votes)
    requires forall d :: d in contests ==> !IsVotePresent(votes, d.id)
    ensures Answered(contests, votes) == [] && VoteDataField(contests, votes) == Some([])
  {
    if contests != [] {
      NoVote(contests[1..], votes);
    }
  }

  lemma {:induction false} OneAnswered(contests: seq<Contest>, votes: Votes, c: Contest)
    requires UniqueContestIds(contests) && OnlyVote(contests, votes, c)
    ensures Answered(contests, votes) == [c] && VoteDataField(contests, votes) == VoteField(c.kind, votes[c.id])
  {
    hide VoteField;
    OtherIds(contests);
    if contests[0] == c {
      NoVote(contests[1..], votes);
      var field := VoteField(c.kind, votes[c.id]);
      if field.Some? {
        assert field.value + [] == field.value;
      }
    } else {
      OneAnswered(contests[1..], votes, c);
    }
  }

  lemma {:induction false} NoCanonical(contests: seq<Contest>, votes: Votes, acc: Votes)
    requires forall d :: d in contests ==> !IsVotePresent(votes, d.id)
    ensures CanonicalVotes(contests, votes, acc) == acc
  {
    if contests != [] {
      NoCanonical(contests[1..], votes, acc);
    }
  }

  lemma {:induction false} OneCanonical(contests: seq<Contest>, votes: Votes, c: Contest)
    requires UniqueContestIds(contests) && OnlyVote(contests, votes, c)
    ensures CanonicalVotes(contests, votes, map[]) == map[c.id := CanonicalVote(c.kind, votes[c.id])]
  {
    hide CanonicalVote;
    OtherIds(contests);
    if contests[0] == c {
      var none: Votes := map[];
      NoCanonical(contests[1..], votes, none[c.id := CanonicalVote(c.kind, votes[c.id])]);
      assert none[c.id := CanonicalVote(c.kind, votes[c.id])] == map[c.id := CanonicalVote(c.kind, votes[c.id])];
    } else {
      OneCanonical(contests[1..], votes, c);
    }
  }

  /** What the decoder makes of a ballot with one vote is what it makes of that vote. */
  lemma OnlyVoteDecides(e: Election, b: Ballot, c: Contest, rest: seq<bool>)
    requires Encodable(e, b) && IdAccepted(b.ballotId) && UniqueContestIds(e.contests)
    requires OnlyVote(BallotContests(e, b), b.votes, c)
    ensures BallotField(e, b).Some? && VoteField(c.kind, b.votes[c.id]).Some?
    ensures ReadBallot(e, BallotField(e, b).value + rest)
         == match ReadVote(c.kind, VoteField(c.kind, b.votes[c.id]).value + rest) {
              case Malformed => None
              case Read(vote, tail) =>
                if IsPadding(tail) then Some(CanonicalBallot(e, b).(votes := map[c.id := vote])) else None
            }
  {
    hide VoteEncodable, VoteField, ReadVote, BallotField, ReadBallot, CanonicalVotes, IdAccepted, IsPadding;
    var contests := BallotContests(e, b);
    GetContestsUnique(e.ballotStyles[FindBallotStyle(e.ballotStyles, b.ballotStyleId).value], e.contests);
    OneAnswered(contests, b.votes, c);
    BallotReadAsVotes(e, b, rest);
    var data := VoteField(c.kind, b.votes[c.id]).value + rest;
    OneRead(c, data);
    var read := ReadVoteData([c], data, map[]);
  }

  lemma OneRead(c: Contest, data: seq<bool>)
    ensures ReadVoteData([c], data, map[])
         == match ReadVote(c.kind, data) {
              case Malformed => Malformed
              case Read(vote, tail) => Read(map[c.id := vote], tail)
            }
  {
    hide ReadVote;
    var answered := [c];
    assert answered[1..] == [];
    var read := ReadVote(c.kind, data);
    if read.Read? {
      var none: Votes := map[];
      assert none[c.id := read.value] == map[c.id := read.value];
    }
  }

  // ---- out of step

  /** One seat, one choice, and a candidate who is not on the contest. */
  predicate Stray(kind: ContestKind, vote: Vote) {
    && kind.CandidateContest? && kind.seats == 1 && kind.allowWriteIns
    && |vote| == 1 && vote[0].Pick? && !vote[0].candidate.isWriteIn
    && vote[0].candidate.id !in CandidateIds(kind.candidates)
  }

  lemma {:induction false} StrayChoosesNone(candidates: seq<Candidate>, vote: Vote)
    requires forall choice :: choice in vote && choice.Pick? ==> choice.candidate.id !in CandidateIds(candidates)
    ensures ChosenPicks(candidates, vote) == []
  {
    if candidates != [] {
      assert candidates[0] in candidates;
      StrayChoosesNone(candidates[1..], vote);
    }
  }

  /** The encoder sees the seat taken and writes no count; the decoder sees it free and reads one from what follows. */
  lemma StrayVoteReads(kind: ContestKind, vote: Vote, rest: seq<bool>)
    requires Stray(kind, vote)
    ensures !LockStep(kind, vote) && CanonicalVote(kind, vote) == []
    ensures VoteField(kind, vote) == Some(CandidateBits(kind.candidates, vote))
    ensures rest == [] ==> ReadVote(kind, VoteField(kind, vote).value + rest) == Malformed
    ensures rest != [] && !rest[0] ==> ReadVote(kind, VoteField(kind, vote).value + rest) == Read([], rest[1..])
  {
    StrayChoosesNone(kind.candidates, vote);
    ChosenReadsBack(kind.candidates, vote, rest);
    assert vote[1..] == [] && WriteInNames(vote) == [];
    assert CandidateBits(kind.candidates, vote) + [] == CandidateBits(kind.candidates, vote);
    assert Sizeof(1) == 1;
    hide CandidateBits, ReadChosen, ChosenPicks, WriteInNames;
    if rest != [] && !rest[0] {
      assert rest[..1] == [false] && FromBits([false]) == 0 by { OneBit(); }
    }
  }

  /** The decoder takes the first of the zero bits that follow for a count of no write-ins. */
  lemma StrayBallotReads(e: Election, b: Ballot, c: Contest, rest: seq<bool>)
    requires Encodable(e, b) && IdAccepted(b.ballotId) && UniqueContestIds(e.contests)
    requires OnlyVote(BallotContests(e, b), b.votes, c) && Stray(c.kind, b.votes[c.id])
    requires forall i :: 0 <= i < |rest| ==> !rest[i]
    ensures BallotField(e, b).Some?
    ensures ReadBallot(e, BallotField(e, b).value + rest)
         == if 1 <= |rest| <= BYTE_SIZE then Some(CanonicalBallot(e, b)) else None
    ensures CanonicalBallot(e, b).votes == map[c.id := []]
  {
    hide VoteEncodable, Stray, IdAccepted, BallotField, ReadBallot, CanonicalVotes, CanonicalVote;
    OnlyVoteDecides(e, b, c, rest);
    GetContestsUnique(e.ballotStyles[FindBallotStyle(e.ballotStyles, b.ballotStyleId).value], e.contests);
    OneCanonical(BallotContests(e, b), b.votes, c);
    StrayVoteReads(c.kind, b.votes[c.id], rest);
    hide VoteField, ReadVote;
  }

  /**
   A ballot whose only vote is for such a candidate is encoded, and then all turns on alignment: it
   comes back with an empty vote if the last byte has padding to spare, and is refused if it has
   none; refused bytes are accepted once a zero byte is appended.
   */
  lemma StrayTurnsOnAlignment(e: Election, b: Ballot, c: Contest)
    requires Encodable(e, b) && IdAccepted(b.ballotId) && UniqueContestIds(e.contests)
    requires OnlyVote(BallotContests(e, b), b.votes, c) && Stray(c.kind, b.votes[c.id])
    ensures BallotField(e, b).Some? && CanonicalBallot(e, b).votes == map[c.id := []]
    ensures var bits, read := BallotField(e, b).value, CanonicalBallot(e, b);
            if |bits| % BYTE_SIZE == 0 then
              ReadBallot(e, bits + Padding(|bits|)) == None && ReadBallot(e, bits + Padding(|bits|) + Unpack([0])) == Some(read)
            else ReadBallot(e, bits + Padding(|bits|)) == Some(read)
  {
    hide Encodable, OnlyVote, Stray, IdAccepted, BallotField, ReadBallot, CanonicalBallot, Unpack;
    StrayBallotReads(e, b, c, []);
    var bits := BallotField(e, b).value;
    var padding := Padding(|bits|);
    ZeroByte();
    StrayBallotReads(e, b, c, padding);
    StrayBallotReads(e, b, c, Unpack([0]));
    assert |bits| % BYTE_SIZE == 0 ==> padding == [];
    assert bits + [] == bits;
  }

  lemma ZeroByte()
    ensures Unpack([0]) == Zeros(BYTE_SIZE)
  {
    UnpackByte(0);
    ToBitsShift(0, 0, BYTE_SIZE);
    assert ToBits(0, 0) + Zeros(BYTE_SIZE) == Zeros(BYTE_SIZE);
  }

  // ---- such ballots exist

  /** One precinct, one ballot style and one contest with `n` candidates for one seat. */
  function SmallElection(n: nat): Election {
    Election([Precinct("p")], [BallotStyle("s", ["d"], None)], [SmallContest(n)])
  }

  function SmallContest(n: nat): Contest {
    Contest("c", "d", CandidateContest(1, seq(n, i requires 0 <= i < n => Numbered(i + 1)), true, None))
  }

  function Numbered(i: nat): Candidate {
    Candidate(seq(i, _ => 'x'), "", None, false, None)
  }

  /** A vote for a candidate the contest does not list. */
  function SmallBallot(): Ballot {
    Ballot(seq(ELECTION_HASH_LENGTH, _ => '0'), "s", "p", None, map["c" := [Pick(Numbered(0))]], false, 0)
  }

  lemma SmallIsPlain(n: nat)
    ensures PlainElection(SmallElection(n))
    ensures Stray(SmallContest(n).kind, SmallBallot().votes["c"])
  {
    var candidates := SmallContest(n).kind.candidates;
    assert forall i :: 0 <= i < n ==> |candidates[i].id| == i + 1;
    assert forall c :: c in candidates ==> |c.id| > 0;
  }

  lemma SmallContests(n: nat)
    ensures FindBallotStyle(SmallElection(n).ballotStyles, "s") == Some(0)
    ensures FindPrecinct(SmallElection(n).precincts, "p") == Some(0)
    ensures BallotContests(SmallElection(n), SmallBallot()) == [SmallContest(n)]
  {
    var contests, style, none := SmallElection(n).contests, SmallElection(n).ballotStyles[0], [];
    assert OnBallotStyle(style, contests[0]);
    assert contests[1..] == none && GetContests(style, contests[1..]) == none;
    assert GetContests(style, contests) == [SmallContest(n)] + none;
  }

  lemma SmallEncodable(n: nat)
    ensures Encodable(SmallElection(n), SmallBallot()) && IdAccepted(SmallBallot().ballotId)
    ensures OnlyVote(BallotContests(SmallElection(n), SmallBallot()), SmallBallot().votes, SmallContest(n))
  {
    hide FindBallotStyle, GetContests, SmallContest;
    SmallContests(n);
    SmallVoteEncodable(n);
    var e, b := SmallElection(n), SmallBallot();
    assert e.precincts[0] in e.precincts;
    assert SmallContest(n).id == "c" by { SmallId(n); }
    assert SmallContest(n) in BallotContests(e, b);
    assert HEX_CHARS[0] == '0';
    hide VoteEncodable;
  }

  lemma SmallId(n: nat)
    ensures SmallContest(n).id == "c"
  {
  }

  lemma SmallVoteEncodable(n: nat)
    ensures VoteEncodable(SmallContest(n).kind, SmallBallot().votes["c"])
  {
    var vote := SmallBallot().votes["c"];
    assert vote[1..] == [] && WriteInNames(vote) == [];
  }

  /** The encoding takes 137 bits and one for each candidate, so every alignment occurs. */
  lemma SmallLength(n: nat)
    ensures BallotField(SmallElection(n), SmallBallot()).Some?
    ensures |BallotField(SmallElection(n), SmallBallot()).value| == 137 + n
  {
    var e, b := SmallElection(n), SmallBallot();
    SmallEncodable(n);
    SmallContests(n);
    hide Encodable, ValidateVotes, Unpack, FindBallotStyle, FindPrecinct, GetContests, SmallContest, SmallElection, SmallBallot;
    EncodableExactly(e, b);
    SmallParts(n);
    hide ContentField, HashField;
  }

  lemma SmallParts(n: nat)
    requires BallotField(SmallElection(n), SmallBallot()).Some?
    ensures var e, b := SmallElection(n), SmallBallot();
            && HashField(b.electionHash).Some? && |HashField(b.electionHash).value| == 80
            && FindBallotStyle(e.ballotStyles, b.ballotStyleId).Some?
            && ContentField(e, b, BallotContests(e, b)).Some? && |ContentField(e, b, BallotContests(e, b)).value| == 33 + n
  {
    var e, b := SmallElection(n), SmallBallot();
    SmallContests(n);
    SmallHash();
    SmallConfig(n);
    SmallVotes(n);
    hide HashField, VotesField, ConfigField, FindBallotStyle, GetContests;
  }

  lemma SmallHash()
    ensures HashField(SmallBallot().electionHash).Some? ==> |HashField(SmallBallot().electionHash).value| == 80
  {
    hide EncodeChars, CodesField;
    var codes := EncodeChars(HEX_CHARS, HashSlice(SmallBallot().electionHash));
    if codes.Some? {
      CharsDecode(HEX_CHARS, HashSlice(SmallBallot().electionHash));
      CodesLength(codes.value, CharWidth(HEX_CHARS));
    }
    assert |HEX_CHARS| == 16 && Sizeof(15) == 4;
  }

  lemma SmallConfig(n: nat)
    ensures var field := ConfigField(SmallElection(n), ConfigOf(SmallBallot()));
            field.Some? ==> |field.value| == 32
  {
    SmallContests(n);
    hide ToBits, FindBallotStyle, FindPrecinct;
    assert Sizeof(0) == 1 && Sizeof(15) == 4;
  }

  lemma SmallVotes(n: nat)
    ensures var field := VotesField([SmallContest(n)], SmallBallot().votes);
            field.Some? ==> |field.value| == 1 + n
  {
    SmallIsPlain(n);
    var contests, votes := [SmallContest(n)], SmallBallot().votes;
    assert contests[1..] == [];
    StrayVoteReads(SmallContest(n).kind, votes["c"], []);
    hide VoteField, CandidateBits, Stray;
  }

  /** Listed neither in the contest nor as a write-in, a candidate counts for the encoder alone. */
  function StrayVote(stray: Candidate): Vote {
    [Pick(stray), WriteIn("A")]
  }

  /**
   Outside lock step the encoder may write what the decoder rejects: with two seats, a candidate
   who is not on the contest and one write-in, the encoder sees room for one write-in and writes
   the count in one bit, while the decoder sees room for two and reads it in two.
   */
  lemma OutOfStepUnreadable(listed: Candidate, stray: Candidate, rest: seq<bool>)
    requires !stray.isWriteIn && listed.id != stray.id && listed.id != "write-in-A" && IsPadding(rest)
    ensures var kind, vote := CandidateContest(2, [listed], true, None), StrayVote(stray);
            && !LockStep(kind, vote)
            && VoteField(kind, vote).Some?
            && ReadVote(kind, VoteField(kind, vote).value + rest) == Malformed
  {
    hide VoteField, ReadVote, StrayVote, IsPadding, LockStep;
    StrayWritten(listed, stray);
    StrayRead(listed, rest);
    Assoc([false], STRAY_BITS, rest);
  }

  /** A count of one in one bit, then the name: its length in six bits, its letter in five. */
  const STRAY_BITS := [true] + [false, false, false, false, false, true, false, false, false, false, false]

  lemma StrayWritten(listed: Candidate, stray: Candidate)
    requires !stray.isWriteIn && listed.id != stray.id && listed.id != "write-in-A"
    ensures var kind, vote := CandidateContest(2, [listed], true, None), StrayVote(stray);
            !LockStep(kind, vote) && VoteField(kind, vote) == Some([false] + STRAY_BITS)
  {
    hide NamesField, StrayVote, WriteInNames, ChosenPicks, Sizeof, BoundedField, CandidateBits;
    FieldWidths();
    StrayNames(stray);
    StrayChosen(listed, stray);
    StrayBits();
  }

  lemma StrayRead(listed: Candidate, rest: seq<bool>)
    requires IsPadding(rest)
    ensures ReadVote(CandidateContest(2, [listed], true, None), [false] + (STRAY_BITS + rest)) == Malformed
  {
    hide ReadWriteIns, ReadBounded;
    var bits := [false] + (STRAY_BITS + rest);
    BoolReadsBack(false, STRAY_BITS + rest);
    var listeds, none: Vote := [listed], [];
    assert listeds[1..] == [] && none + none == none;
    assert ReadChosen(listeds[1..], STRAY_BITS + rest) == Read(none, STRAY_BITS + rest);
    assert ReadChosen(listeds, bits) == Read(none, STRAY_BITS + rest);
    StrayCount(rest);
  }

  lemma StrayNames(stray: Candidate)
    requires !stray.isWriteIn
    ensures WriteInNames(StrayVote(stray)) == ["A"] && |StrayVote(stray)| == 2
  {
    var vote := StrayVote(stray);
    assert vote[1..] == [WriteIn("A")] && vote[1..][1..] == [];
  }

  lemma StrayChosen(listed: Candidate, stray: Candidate)
    requires listed.id != stray.id && listed.id != "write-in-A"
    ensures CandidateBits([listed], StrayVote(stray)) == [false] && ChosenPicks([listed], StrayVote(stray)) == []
  {
    var name := "write-in-" + "A";
    assert name == "write-in-A";
    assert !Chooses(StrayVote(stray), listed.id);
    assert [listed][1..] == [];
  }

  lemma StrayBits()
    ensures BoundedField(1, 1) == Some([true])
    ensures NamesField(["A"]) == Some(STRAY_BITS[1..])
  {
    FieldWidths();
    BitsOfOne();
    StrayCodes();
    assert ["A"][1..] == [] && NamesField([]) == Some([]);
    hide EncodeChars, CodesField, ToBits, Sizeof, CharWidth;
    var name := [false, false, false, false, false, true] + [false, false, false, false, false];
    assert StringField(WRITE_IN_CHARS, "A", MAXIMUM_WRITE_IN_LENGTH) == Some(name);
    assert STRAY_BITS[1..] == name + [];
  }

  lemma StrayCodes()
    ensures EncodeChars(WRITE_IN_CHARS, "A") == Some([0])
    ensures CodesField([0], 5) == Some([false, false, false, false, false])
  {
    StrayLetter();
    hide EncodeChars;
    var codes: seq<nat>, empty: seq<bool> := [0], [];
    var letter := [false, false, false, false, false];
    assert codes[1..] == [] && letter + empty == letter;
    assert CodesField(codes[1..], 5) == Some(empty);
    assert ToBits(0, 5) == letter;
    assert UintField(codes[0], 5) == Some(letter);
    assert CodesField(codes, 5) == Some(letter);
  }

  lemma StrayLetter()
    ensures EncodeChars(WRITE_IN_CHARS, "A") == Some([0])
  {
    var codes: seq<nat>, s, none: seq<nat> := [0], "A", [];
    assert s[1..] == [] && codes + none == codes;
    assert IndexOf(WRITE_IN_CHARS, 'A') == 0 by { assert WRITE_IN_CHARS[0] == 'A'; }
    hide IndexOf;
    assert EncodeChars(WRITE_IN_CHARS, s[1..]) == Some(none);
    assert EncodeChars(WRITE_IN_CHARS, s) == Some(codes);
  }

  lemma BitsOfOne()
    ensures Pow2(1) == 2 && Pow2(6) == 64 && ToBits(1, 1) == [true]
    ensures ToBits(1, 6) == [false, false, false, false, false, true]
  {
  }

  lemma FieldWidths()
    ensures Sizeof(MAXIMUM_WRITE_IN_LENGTH) == 6 && CharWidth(WRITE_IN_CHARS) == 5 && Sizeof(1) == 1 && Sizeof(2) == 2
  {
    assert Sizeof(40) == 1 + Sizeof(20) && Sizeof(20) == 1 + Sizeof(10) && Sizeof(10) == 1 + Sizeof(5) && Sizeof(5) == 3;
    assert Sizeof(31) == 1 + Sizeof(15) && Sizeof(15) == 1 + Sizeof(7) && Sizeof(7) == 3;
    assert |WRITE_IN_CHARS| == 32;
  }

  lemma {:induction false} CodesConsume(bits: seq<bool>, count: nat, width: nat)
    ensures ReadCodes(bits, count, width).Read? ==> |ReadCodes(bits, count, width).rest| == |bits| - count * width
  {
    if count > 0 && |bits| >= width {
      CodesConsume(bits[width..], count - 1, width);
      assert (count - 1) * width == count * width - width;
    }
  }

  lemma TwoFromBits()
    ensures FromBits([true, false]) == 2 == FromBits([false, false, false, false, true, false])
  {
    FromBitsAppend([true], false);
    FromBitsAppend([false], false);
    FromBitsAppend([false, false], false);
    FromBitsAppend([false, false, false], false);
    FromBitsAppend([false, false, false, false], true);
    FromBitsAppend([false, false, false, false, true], false);
    OneBit();
    assert [true] + [false] == [true, false];
    assert [false] + [false] == [false, false];
    assert [false, false] + [false] == [false, false, false];
    assert [false, false, false] + [false] == [false, false, false, false];
    assert [false, false, false, false] + [true] == [false, false, false, false, true];
    assert [false, false, false, false, true] + [false] == [false, false, false, false, true, false];
    hide FromBits;
  }

  lemma OneBit()
    ensures FromBits([true]) == 1 && FromBits([false]) == 0
  {
    assert [true][..0] == [] && [false][..0] == [];
  }

  /** Read in two bits the count is two, and there are not two names to read. */
  lemma StrayCount(rest: seq<bool>)
    requires IsPadding(rest)
    ensures var count := ReadBounded(STRAY_BITS + rest, 2);
            count.Read? && ReadWriteIns(count.value, count.rest) == Malformed
  {
    var bits := STRAY_BITS + rest;
    FieldWidths();
    TwoFromBits();
    hide FromBits, Sizeof, CharWidth, DecodeChars, ReadCodes;
    var names := bits[2..];
    assert bits[..2] == [true, false];
    assert ReadBounded(bits, 2) == Read(2, names);
    var letters := names[6..];
    assert names[..6] == [false, false, false, false, true, false];
    assert ReadBounded(names, MAXIMUM_WRITE_IN_LENGTH) == Read(2, letters);
    CodesConsume(letters, 2, 5);
    var name := ReadString(names, WRITE_IN_CHARS, MAXIMUM_WRITE_IN_LENGTH);
    assert name.Read? ==> |name.rest| < 6;
    assert name.Read? ==> ReadString(name.rest, WRITE_IN_CHARS, MAXIMUM_WRITE_IN_LENGTH) == Malformed;
    assert name.Read? ==> ReadWriteIns(1, name.rest) == Malformed;
  }

  /** A ballot whose only vote is of this kind is encoded and never comes back. */
  lemma OutOfStepRefused(e: Election, b: Ballot, c: Contest, listed: Candidate, stray: Candidate)
    requires Encodable(e, b) && IdAccepted(b.ballotId) && UniqueContestIds(e.contests)
    requires OnlyVote(BallotContests(e, b), b.votes, c)
    requires c.kind == CandidateContest(2, [listed], true, None) && b.votes[c.id] == StrayVote(stray)
    requires !stray.isWriteIn && listed.id != stray.id && listed.id != "write-in-A"
    ensures BallotField(e, b).Some?
    ensures ReadBallot(e, BallotField(e, b).value + Padding(|BallotField(e, b).value|)) == None
  {
    hide Encodable, IdAccepted, BallotField, ReadBallot, CanonicalBallot, StrayVote, ReadVote, VoteField, LockStep;
    OnlyVoteDecides(e, b, c, []);
    var padding := Padding(|BallotField(e, b).value|);
    OnlyVoteDecides(e, b, c, padding);
    OutOfStepUnreadable(listed, stray, padding);
  }
}
