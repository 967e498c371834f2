/** What the correspondence of calls and expectations looks like in every run of a mock. */
module MockFunctionRuns {
  import opened Wrappers
  import opened MockFunctions

  predicate Matched(s: State, i: nat)
    requires i < |s.actual|
  {
    s.actual[i].matching.Some?
  }

  /** The i-th call uses the same expectation as the one before it. */
  predicate Stays(s: State, i: nat)
    requires i < |s.actual|
  {
    i > 0 && Matched(s, i) && s.actual[i - 1].matching == s.actual[i].matching
  }

  /**
   Matched indices start at 0, never decrease and skip none; each stands for equal arguments; only a
   repeated expectation is used again; and only the last call may be unmatched.
   */
  ghost predicate InOrder(s: State) {
    forall i :: 0 <= i < |s.actual| ==> InPlace(s, i)
  }

  predicate InPlace(s: State, i: nat)
    requires i < |s.actual|
  {
    && (i > 0 ==> Matched(s, i - 1))
    && (Matched(s, i) ==>
          var j := s.actual[i].matching.value;
          && j < |s.expected| && s.actual[i].input == s.expected[j].input
          && (if i == 0 then j == 0
              else
                var before := s.actual[i - 1].matching.value;
                j == before + 1 || (j == before && s.expected[j].repeated)))
  }

  lemma {:induction false} RunsInOrder(es: seq<Event>)
    ensures InOrder(Run(es))
  {
    if es != [] {
      var s, e := Run(es[..|es| - 1]), es[|es| - 1];
      RunsInOrder(es[..|es| - 1]);
      match e
      case Reset =>
      case Expect(call) =>
        forall i | 0 <= i < |s.actual|
          ensures InPlace(Run(es), i)
        {
          assert InPlace(s, i);
        }
      case Call(input) =>
        CallKeepsOrder(s, input);
    }
  }

  lemma CallKeepsOrder(s: State, input: seq<Arg>)
    requires InOrder(s)
    ensures InOrder(Called(s, input).0)
  {
    var s' := Called(s, input).0;
    var n := |s.actual|;
    forall i | 0 <= i < |s'.actual|
      ensures InPlace(s', i)
    {
      if i < n {
        assert InPlace(s, i);
      } else if n > 0 {
        assert InPlace(s, n - 1);
      }
    }
  }

  lemma {:induction false} RecordedNormalized(es: seq<Event>)
    ensures forall i :: 0 <= i < |Run(es).actual| ==> Run(es).actual[i].input != [Undefined]
  {
    if es != [] {
      RecordedNormalized(es[..|es| - 1]);
    }
  }

  /** No run ever matches an expectation of a single undefined argument. */
  lemma UndefinedNeverMatched(es: seq<Event>, i: nat)
    requires i < |Run(es).actual| && Matched(Run(es), i)
    ensures Run(es).actual[i].matching.value < |Run(es).expected|
    ensures Run(es).expected[Run(es).actual[i].matching.value].input != [Undefined]
  {
    RunsInOrder(es);
    RecordedNormalized(es);
    assert InPlace(Run(es), i);
  }

  // ---- the recomputed correspondence

  /** Recomputing finds, for each matched call, the expectation it matched. */
  ghost predicate Agrees(s: State) {
    forall i :: 0 <= i < |s.actual| && Matched(s, i) ==> Find(s, i) == Use(s.actual[i].matching.value)
  }

  /** Some expectation has been used more than once. */
  ghost predicate UsedAgain(s: State) {
    exists i :: 0 <= i < |s.actual| && Stays(s, i)
  }

  lemma AgreesWhenLast(s: State)
    requires InOrder(s)
    ensures Agrees(s) <==> forall i :: 0 <= i < |s.actual| && Stays(s, i) ==> s.actual[i].matching.value == |s.expected| - 1
  {
    forall i | 0 <= i < |s.actual| && Matched(s, i)
      ensures Find(s, i) == Use(s.actual[i].matching.value)
         <==> (Stays(s, i) ==> s.actual[i].matching.value == |s.expected| - 1)
    {
      assert InPlace(s, i);
    }
  }

  /** An expectation was added after another had been used more than once. */
  ghost predicate AddedLate(es: seq<Event>) {
    if es == [] || es[|es| - 1].Reset? then false
    else
      var before := es[..|es| - 1];
      AddedLate(before) || (es[|es| - 1].Expect? && UsedAgain(Run(before)))
  }

  /**
   The correspondence `assertComplete` recomputes is the recorded one exactly when no expectation
   was added after a repeated one had been used more than once.
   */
  lemma {:induction false} AgreesExactly(es: seq<Event>)
    ensures Agrees(Run(es)) <==> !AddedLate(es)
  {
    if es != [] {
      hide InOrder, Called, Stays;
      var before, e := es[..|es| - 1], es[|es| - 1];
      var s := Run(before);
      AgreesExactly(before);
      RunsInOrder(before);
      match e
      case Reset =>
      case Expect(call) =>
        AddedDisagrees(s, call);
      case Call(input) =>
        CallAgrees(s, input);
    }
  }

  lemma AddedDisagrees(s: State, call: Expected)
    requires InOrder(s)
    ensures Agrees(s.(expected := s.expected + [call])) <==> Agrees(s) && !UsedAgain(s)
  {
    hide Find;
    var s' := s.(expected := s.expected + [call]);
    forall i | 0 <= i < |s.actual|
      ensures InPlace(s', i) && (Stays(s', i) <==> Stays(s, i))
      ensures Stays(s, i) ==> s.actual[i].matching.value < |s.expected|
    {
      assert InPlace(s, i);
    }
    AgreesWhenLast(s);
    AgreesWhenLast(s');
  }

  lemma CallAgrees(s: State, input: seq<Arg>)
    requires InOrder(s)
    ensures Agrees(Called(s, input).0) <==> Agrees(s)
  {
    CallKeepsOrder(s, input);
    CallStays(s, input);
    hide Find, Called;
    AgreesWhenLast(s);
    AgreesWhenLast(Called(s, input).0);
  }

  lemma CallStays(s: State, input: seq<Arg>)
    requires InOrder(s)
    ensures var s' := Called(s, input).0;
            && s'.expected == s.expected && |s.actual| <= |s'.actual| <= |s.actual| + 1
            && (forall i :: 0 <= i < |s.actual| ==> s'.actual[i] == s.actual[i] && (Stays(s', i) <==> Stays(s, i)))
            && (|s'.actual| > |s.actual| && Stays(s', |s.actual|) ==>
                  s'.actual[|s.actual|].matching.value == |s.expected| - 1)
  {
    if s.actual != [] {
      assert InPlace(s, |s.actual| - 1);
    }
  }

  /** In every run a call returns exactly when it is recorded as matching an expectation, and then what that one says. */
  lemma AnswersWhatItMatched(es: seq<Event>, input: seq<Arg>)
    ensures var s := Run(es);
            var (after, answer) := Called(s, input);
            if answer.Output? then
              && |after.actual| == |s.actual| + 1 && Matched(after, |s.actual|)
              && var j := after.actual[|s.actual|].matching.value;
                 j < |s.expected| && answer.output == s.expected[j].output && AsExpected(input, s.expected[j].input)
            else
              after == s || (|after.actual| == |s.actual| + 1 && !Matched(after, |s.actual|))
  {
  }

  // ---- all expectations first

  /** The calls follow the expectations one by one, and a repeated last one from then on. */
  predicate Follows(expected: seq<Expected>, calls: seq<seq<Arg>>) {
    forall i :: 0 <= i < |calls| ==> FollowsAt(expected, i, calls[i])
  }

  predicate FollowsAt(expected: seq<Expected>, i: nat, call: seq<Arg>) {
    && expected != []
    && (i >= |expected| ==> expected[|expected| - 1].repeated)
    && AsExpected(call, expected[Slot(expected, i)].input)
  }

  /** The arguments are the expected ones; one undefined argument counts as none. */
  predicate AsExpected(call: seq<Arg>, input: seq<Arg>) {
    if call == [Undefined] then input == [] else call == input
  }

  function Slot(expected: seq<Expected>, i: nat): (j: nat)
    requires expected != []
    ensures j < |expected|
  {
    if i < |expected| then i else |expected| - 1
  }

  function AfterCalls(expected: seq<Expected>, calls: seq<seq<Arg>>): State {
    if calls == [] then State(expected, [])
    else Called(AfterCalls(expected, calls[..|calls| - 1]), calls[|calls| - 1]).0
  }

  /** The state after the calls: all in their slots, or a call that matched nothing. */
  lemma {:induction false} CallsRecorded(expected: seq<Expected>, calls: seq<seq<Arg>>)
    ensures var s := AfterCalls(expected, calls);
            && s.expected == expected
            && if Follows(expected, calls) then
                 |s.actual| == |calls| && forall i :: 0 <= i < |calls| ==> s.actual[i].matching == Some(Slot(expected, i))
               else s.actual != [] && s.actual[|s.actual| - 1].matching == None
  {
    hide Called, FollowsAt, Slot;
    if calls != [] {
      var before, n := calls[..|calls| - 1], |calls| - 1;
      CallsRecorded(expected, before);
      FollowsOneMore(expected, calls);
      if Follows(expected, before) {
        if n > 0 {
          FollowsFirst(expected, before);
        }
        NextCallRecorded(AfterCalls(expected, before), n, calls[n]);
      } else {
        NoCallAfterMismatch(AfterCalls(expected, before), calls[n]);
      }
    }
  }

  lemma NoCallAfterMismatch(s: State, call: seq<Arg>)
    requires s.actual != [] && s.actual[|s.actual| - 1].matching == None
    ensures Called(s, call) == (s, MockFunctionError)
  {
  }

  lemma FollowsOneMore(expected: seq<Expected>, calls: seq<seq<Arg>>)
    requires calls != []
    ensures Follows(expected, calls)
       <==> Follows(expected, calls[..|calls| - 1]) && FollowsAt(expected, |calls| - 1, calls[|calls| - 1])
  {
    hide FollowsAt;
    var before := calls[..|calls| - 1];
    assert forall i :: 0 <= i < |before| ==> before[i] == calls[i];
  }

  lemma NextCallRecorded(s: State, n: nat, call: seq<Arg>)
    requires |s.actual| == n
    requires n > 0 ==> s.expected != [] && s.actual[n - 1].matching == Some(Slot(s.expected, n - 1))
    ensures Called(s, call).0 ==
              s.(actual := s.actual + [Actual(Normalized(call),
                                              if FollowsAt(s.expected, n, call) then Some(Slot(s.expected, n)) else None)])
    ensures FollowsAt(s.expected, n, call) ==> s.expected != []
    ensures Called(s, call).1
         == if FollowsAt(s.expected, n, call) then Output(s.expected[Slot(s.expected, n)].output) else MockFunctionError
  {
  }

  /** A call answers with the output of the expectation in its place if every call so far was as expected, and else fails. */
  lemma AnswersAsExpected(expected: seq<Expected>, calls: seq<seq<Arg>>, call: seq<Arg>)
    ensures Follows(expected, calls + [call]) ==> expected != []
    ensures Called(AfterCalls(expected, calls), call).1
         == if Follows(expected, calls + [call]) then Output(expected[Slot(expected, |calls|)].output) else MockFunctionError
  {
    hide AfterCalls, Called, FollowsAt, Slot, Follows;
    var s, n := AfterCalls(expected, calls), |calls|;
    CallsRecorded(expected, calls);
    assert (calls + [call])[..n] == calls && (calls + [call])[n] == call;
    FollowsOneMore(expected, calls + [call]);
    if Follows(expected, calls) {
      if n > 0 {
        FollowsFirst(expected, calls);
      }
      NextCallRecorded(s, n, call);
    } else {
      NoCallAfterMismatch(s, call);
    }
  }

  lemma FollowsFirst(expected: seq<Expected>, calls: seq<seq<Arg>>)
    requires Follows(expected, calls) && calls != []
    ensures expected != []
  {
    assert FollowsAt(expected, 0, calls[0]);
  }

  /**
   With every expectation registered first, `assertComplete` returns normally exactly when call i
   equals expectation i for every expectation, and any further calls equal a repeated last one.
   */
  lemma CompleteExactly(expected: seq<Expected>, calls: seq<seq<Arg>>)
    ensures Complete(AfterCalls(expected, calls)) <==> Follows(expected, calls) && |calls| >= |expected|
  {
    var s := AfterCalls(expected, calls);
    CallsRecorded(expected, calls);
    assert Follows(expected, calls) && calls != [] ==> expected != [] by {
      assert Follows(expected, calls) && calls != [] ==> FollowsAt(expected, 0, calls[0]);
    }
    hide AfterCalls, FollowsAt, Find;
    if Follows(expected, calls) {
      forall i | 0 <= i < |calls|
        ensures Find(s, i) == Use(Slot(expected, i)) && Paired(s, i)
      {
        assert FollowsAt(expected, i, calls[i]);
        FoundInSlot(s, i, calls[i]);
      }
      SlotsUsed(s, |calls|);
    } else {
      assert !Paired(s, |s.actual| - 1);
    }
  }

  lemma FoundInSlot(s: State, i: nat, call: seq<Arg>)
    requires i < |s.actual| && FollowsAt(s.expected, i, call)
    requires i > 0 ==> s.actual[i - 1].matching == Some(Slot(s.expected, i - 1))
    ensures Find(s, i) == Use(Slot(s.expected, i))
  {
  }

  lemma SlotsUsed(s: State, n: nat)
    requires n == |s.actual| && (n > 0 ==> s.expected != [])
    requires forall i :: 0 <= i < n ==> Find(s, i) == Use(Slot(s.expected, i))
    ensures (forall j :: 0 <= j < |s.expected| ==> UsedBy(s, n, j)) <==> n >= |s.expected|
  {
    hide Find;
    if n >= |s.expected| {
      forall j | 0 <= j < |s.expected|
        ensures UsedBy(s, n, j)
      {
        assert Find(s, j) == Use(j);
      }
    } else {
      assert !UsedBy(s, n, n);
    }
  }

  /** `AfterCalls` is the run that registers the expectations and then makes the calls. */
  lemma {:induction false} AfterCallsIsRun(expected: seq<Expected>, calls: seq<seq<Arg>>)
    ensures Run(Registrations(expected) + Invocations(calls)) == AfterCalls(expected, calls)
    decreases |calls|, |expected|
  {
    hide Called;
    if calls != [] {
      var front := calls[..|calls| - 1];
      var es := Registrations(expected) + Invocations(calls);
      assert Invocations(calls) == Invocations(front) + [Call(calls[|calls| - 1])];
      assert es[..|es| - 1] == Registrations(expected) + Invocations(front);
      AfterCallsIsRun(expected, front);
    } else if expected != [] {
      var front := expected[..|expected| - 1];
      var es := Registrations(expected) + Invocations(calls);
      assert es[..|es| - 1] == Registrations(front) + Invocations(calls);
      AfterCallsIsRun(front, calls);
    }
  }

  function Registrations(expected: seq<Expected>): seq<Event> {
    seq(|expected|, i requires 0 <= i < |expected| => Expect(expected[i]))
  }

  function Invocations(calls: seq<seq<Arg>>): seq<Event> {
    seq(|calls|, i requires 0 <= i < |calls| => Call(calls[i]))
  }
}
