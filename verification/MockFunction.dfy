/** A mock that insists on being called as expected, in order. */
module MockFunctions {
  import opened Wrappers

  datatype Arg = Undefined | Arg(v: int)

  datatype Output = Returns(value: int) | Throws(error: string)

  datatype Expected = Expected(input: seq<Arg>, output: Output, repeated: bool)

  /** A call made, and the index of the expected call it matched. */
  datatype Actual = Actual(input: seq<Arg>, matching: Option<nat>)

  datatype State = State(expected: seq<Expected>, actual: seq<Actual>)

  const INITIAL := State([], [])

  datatype Found = PreviousMismatch | Nothing | Use(index: nat)

  /** The expected call that the call at position `i` should use. */
  function Find(s: State, i: nat): Found
    requires i <= |s.actual|
  {
    if i == 0 then
      if s.expected == [] then Nothing else Use(0)
    else
      match s.actual[i - 1].matching
      case None => PreviousMismatch
      case Some(j) =>
        if j + 1 < |s.expected| then Use(j + 1)
        else if j < |s.expected| && s.expected[j].repeated then Use(j)
        else Nothing
  }

  /** `[undefined]` and `[]` are the same arguments. */
  function Normalized(input: seq<Arg>): seq<Arg> {
    if input == [Undefined] then [] else input
  }

  datatype Answer = Output(output: Output) | MockFunctionError

  function Called(s: State, input: seq<Arg>): (State, Answer) {
    var found, args := Find(s, |s.actual|), Normalized(input);
    match found
    case PreviousMismatch => (s, MockFunctionError)
    case Nothing => (s.(actual := s.actual + [Actual(args, None)]), MockFunctionError)
    case Use(j) =>
      if j < |s.expected| && args == s.expected[j].input
      then (s.(actual := s.actual + [Actual(args, Some(j))]), Output(s.expected[j].output))
      else (s.(actual := s.actual + [Actual(args, None)]), MockFunctionError)
  }

  datatype Event = Expect(call: Expected) | Call(input: seq<Arg>) | Reset

  function Apply(s: State, e: Event): State {
    match e
    case Expect(call) => s.(expected := s.expected + [call])
    case Call(input) => Called(s, input).0
    case Reset => INITIAL
  }

  function Run(es: seq<Event>): State {
    if es == [] then INITIAL else Apply(Run(es[..|es| - 1]), es[|es| - 1])
  }

  /** The call found an expectation now, and matched one when it was made. */
  predicate Paired(s: State, i: nat)
    requires i < |s.actual|
  {
    Find(s, i).Use? && s.actual[i].matching.Some?
  }

  /** One of the first `n` calls should use expectation `j`. */
  ghost predicate UsedBy(s: State, n: nat, j: nat)
    requires n <= |s.actual|
  {
    exists i :: 0 <= i < n && Find(s, i) == Use(j)
  }

  /** What `assertComplete` accepts: the recomputed correspondence has no gap on either side. */
  ghost predicate Complete(s: State) {
    && (forall i :: 0 <= i < |s.actual| ==> Paired(s, i))
    && (forall j :: 0 <= j < |s.expected| ==> UsedBy(s, |s.actual|, j))
  }

  lemma UsedByOneMore(s: State, n: nat, j: nat)
    requires n < |s.actual|
    ensures UsedBy(s, n + 1, j) <==> UsedBy(s, n, j) || Find(s, n) == Use(j)
  {
    hide Find;
    if UsedBy(s, n, j) {
      var i :| 0 <= i < n && Find(s, i) == Use(j);
      assert i < n + 1;
    }
  }

  class MockFunction {
    var expectedCalls: seq<Expected>
    var actualCalls: seq<Actual>

    ghost function Abstract(): State
      reads this
    {
      State(expectedCalls, actualCalls)
    }

    constructor ()
      ensures Abstract() == INITIAL
    {
      expectedCalls, actualCalls := [], [];
    }

    method FindExpectedCallForActualCallIndex(actualCallIndex: nat) returns (found: Found)
      requires actualCallIndex <= |actualCalls|
      ensures found == Find(Abstract(), actualCallIndex)
    {
      if actualCallIndex == 0 {
        return if |expectedCalls| == 0 then Nothing else Use(0);
      }
      var previousActualCall := actualCalls[actualCallIndex - 1];
      if previousActualCall.matching.None? {
        return PreviousMismatch;
      }
      var nextExpectedCallIndex := previousActualCall.matching.value + 1;
      if nextExpectedCallIndex < |expectedCalls| {
        return Use(nextExpectedCallIndex);
      }
      var j := previousActualCall.matching.value;
      if j < |expectedCalls| && expectedCalls[j].repeated {
        return Use(j);
      }
      return Nothing;
    }

    method Invoke(input: seq<Arg>) returns (answer: Answer)
      modifies this
      ensures (Abstract(), answer) == Called(old(Abstract()), input)
    {
      var args := input;
      if |input| == 1 && input[0] == Undefined {
        args := [];
      }
      assert args == Normalized(input);
      var found := FindExpectedCallForActualCallIndex(|actualCalls|);
      if found == PreviousMismatch {
        return MockFunctionError;
      }
      var callMatches := found.Use? && found.index < |expectedCalls| && args == expectedCalls[found.index].input;
      actualCalls := actualCalls + [Actual(args, if callMatches then Some(found.index) else None)];
      if !callMatches {
        return MockFunctionError;
      }
      return Output(expectedCalls[found.index].output);
    }

    method ExpectCallWith(input: seq<Arg>, output: Output)
      modifies this
      ensures Abstract() == Apply(old(Abstract()), Expect(Expected(input, output, false)))
    {
      expectedCalls := expectedCalls + [Expected(input, output, false)];
    }

    method ExpectRepeatedCallsWith(input: seq<Arg>, value: int)
      modifies this
      ensures Abstract() == Apply(old(Abstract()), Expect(Expected(input, Returns(value), true)))
    {
      expectedCalls := expectedCalls + [Expected(input, Returns(value), true)];
    }

    method ResetMock()
      modifies this
      ensures Abstract() == INITIAL
    {
      expectedCalls, actualCalls := [], [];
    }

    /** Returns normally exactly when every call has its expectation and every expectation its call. */
    method AssertComplete() returns (r: Outcome)
      ensures r.Pass? <==> Complete(Abstract())
    {
      hide Find;
      ghost var s := Abstract();
      var used: set<nat> := {};
      var mismatched := false;
      for i := 0 to |actualCalls|
        invariant forall j: nat :: j in used <==> UsedBy(s, i, j)
        invariant mismatched <==> exists k :: 0 <= k < i && !Paired(s, k)
      {
        var expectedCall := FindExpectedCallForActualCallIndex(i);
        if expectedCall == PreviousMismatch {
          assert !Paired(s, i);
          return Fail;
        }
        forall j: nat
          ensures UsedBy(s, i + 1, j) <==> UsedBy(s, i, j) || Find(s, i) == Use(j)
        {
          UsedByOneMore(s, i, j);
        }
        if expectedCall.Use? {
          used := used + {expectedCall.index};
        }
        if expectedCall == Nothing || actualCalls[i].matching.None? {
          assert !Paired(s, i);
          mismatched := true;
        }
      }
      var unused := exists j: nat | j < |expectedCalls| :: j !in used;
      return if mismatched || unused then Fail else Pass;
    }
  }
}
