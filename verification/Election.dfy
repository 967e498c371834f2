/** Elections, ballots, and the lookups the ballot codec makes in them. */
module Election {
  import opened Wrappers
  import opened Bits

  datatype Candidate = Candidate(
    id: string,
    name: string,
    partyIds: Option<seq<string>>,
    isWriteIn: bool,
    writeInIndex: Option<nat>)

  /** One entry of a vote: votes are untyped arrays until their contest is known. */
  datatype Choice = Yes | No | Pick(candidate: Candidate)

  type Vote = seq<Choice>
  type Votes = map<string, Vote>

  datatype ContestKind =
    | YesNoContest
    | CandidateContest(seats: nat, candidates: seq<Candidate>, allowWriteIns: bool, partyId: Option<string>)

  datatype Contest = Contest(id: string, districtId: string, kind: ContestKind)

  datatype Precinct = Precinct(id: string)

  datatype BallotStyle = BallotStyle(id: string, districts: seq<string>, partyId: Option<string>)

  datatype Election = Election(
    precincts: seq<Precinct>,
    ballotStyles: seq<BallotStyle>,
    contests: seq<Contest>)

  /** A ballot id is kept as the bytes of its UTF-8 encoding. */
  datatype Ballot = Ballot(
    electionHash: string,
    ballotStyleId: string,
    precinctId: string,
    ballotId: Option<seq<byte>>,
    votes: Votes,
    isTestMode: bool,
    ballotType: nat)

  predicate OnBallotStyle(style: BallotStyle, c: Contest) {
    && c.districtId in style.districts
    && match c.kind {
         case YesNoContest => true
         case CandidateContest(_, _, _, partyId) => partyId in {None, Some("")} || style.partyId == partyId
       }
  }

  function GetContests(style: BallotStyle, contests: seq<Contest>): seq<Contest> {
    if contests == [] then []
    else (if OnBallotStyle(style, contests[0]) then [contests[0]] else []) + GetContests(style, contests[1..])
  }

  function FindBallotStyle(styles: seq<BallotStyle>, id: string): (i: Option<nat>)
    ensures i.Some? ==> i.value < |styles| && styles[i.value].id == id
    ensures i.None? <==> forall s :: s in styles ==> s.id != id
    ensures i.Some? ==> forall j :: 0 <= j < i.value ==> styles[j].id != id
  {
    if styles == [] then None
    else if styles[0].id == id then Some(0)
    else
      var i :- FindBallotStyle(styles[1..], id);
      Some(i + 1)
  }

  function FindPrecinct(precincts: seq<Precinct>, id: string): (i: Option<nat>)
    ensures i.Some? ==> i.value < |precincts| && precincts[i.value].id == id
    ensures i.None? <==> forall p :: p in precincts ==> p.id != id
    ensures i.Some? ==> forall j :: 0 <= j < i.value ==> precincts[j].id != id
  {
    if precincts == [] then None
    else if precincts[0].id == id then Some(0)
    else
      var i :- FindPrecinct(precincts[1..], id);
      Some(i + 1)
  }

  predicate IsVotePresent(votes: Votes, contestId: string) {
    contestId in votes && votes[contestId] != []
  }

  /** Every contest voted on is one of `contests`. */
  predicate ValidateVotes(contests: seq<Contest>, votes: Votes) {
    forall id :: id in votes ==> exists c :: c in contests && c.id == id
  }

  predicate UniqueContestIds(contests: seq<Contest>) {
    forall i, j :: 0 <= i < j < |contests| ==> contests[i].id != contests[j].id
  }

  predicate UniqueCandidateIds(candidates: seq<Candidate>) {
    forall i, j :: 0 <= i < j < |candidates| ==> candidates[i].id != candidates[j].id
  }

  lemma {:induction false} GetContestsMembers(style: BallotStyle, contests: seq<Contest>)
    ensures forall c :: c in GetContests(style, contests) <==> c in contests && OnBallotStyle(style, c)
  {
    if contests != [] {
      GetContestsMembers(style, contests[1..]);
    }
  }

  /** A contest is open to a ballot style in its district, unless it is a candidate contest of another party. */
  predicate OpenTo(style: BallotStyle, c: Contest) {
    && c.districtId in style.districts
    && (c.kind.YesNoContest? || c.kind.partyId.None? || c.kind.partyId == Some("") || c.kind.partyId == style.partyId)
  }

  /** The contests of a ballot style are those open to it. */
  lemma ContestsAreOpen(style: BallotStyle, contests: seq<Contest>)
    ensures forall c :: c in GetContests(style, contests) <==>
              c in contests && OpenTo(style, c)
  {
    GetContestsMembers(style, contests);
  }

  lemma {:induction false} GetContestsUnique(style: BallotStyle, contests: seq<Contest>)
    requires UniqueContestIds(contests)
    ensures UniqueContestIds(GetContests(style, contests))
  {
    if contests != [] {
      GetContestsUnique(style, contests[1..]);
      GetContestsMembers(style, contests[1..]);
      var others := GetContests(style, contests[1..]);
      forall k | 0 <= k < |others|
        ensures others[k].id != contests[0].id
      {
        assert others[k] in contests[1..];
      }
    }
  }

  /** The contests of a ballot style are those on it, as often and in the order in which they are listed. */
  lemma {:induction false} GetContestsInOrder(style: BallotStyle, contests: seq<Contest>) returns (at: seq<nat>)
    ensures |at| == |GetContests(style, contests)|
    ensures forall k :: 0 <= k < |at| ==> at[k] < |contests| && contests[at[k]] == GetContests(style, contests)[k]
    ensures forall j, k :: 0 <= j < k < |at| ==> at[j] < at[k]
    ensures forall i :: 0 <= i < |contests| ==> (OnBallotStyle(style, contests[i]) <==> i in at)
  {
    at := [];
    if contests != [] {
      var last, front := contests[|contests| - 1], contests[..|contests| - 1];
      at := GetContestsInOrder(style, front);
      GetContestsSnoc(style, front, last);
      assert contests == front + [last];
      if OnBallotStyle(style, last) {
        at := at + [|front|];
      }
      forall i | 0 <= i < |contests|
        ensures OnBallotStyle(style, contests[i]) <==> i in at
      {
        assert i < |front| ==> contests[i] == front[i];
      }
    }
  }

  lemma {:induction false} GetContestsSnoc(style: BallotStyle, front: seq<Contest>, last: Contest)
    ensures GetContests(style, front + [last]) == GetContests(style, front) + if OnBallotStyle(style, last) then [last] else []
  {
    hide OnBallotStyle;
    var contests := front + [last];
    if front == [] {
      assert contests[1..] == [] && contests[0] == last;
    } else {
      assert contests[1..] == front[1..] + [last] && contests[0] == front[0];
      GetContestsSnoc(style, front[1..], last);
    }
  }
}
