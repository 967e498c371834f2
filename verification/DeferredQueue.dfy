/** An asynchronous FIFO queue that pairs gets with settlements arriving in either order. */
module DeferredQueues {
  import opened Wrappers

  datatype Settlement<T> = Fulfilled(value: T) | Rejected(reason: string)

  /** The promise one `get` hands out. */
  datatype Promise<T> = Pending | Settled(settlement: Settlement<T>)

  datatype Op<T> = Get | Settle(settlement: Settlement<T>) | SettleAll(settlement: Settlement<T>)

  // ---- the meaning of a history: the k-th get pairs with the k-th settlement

  function Gets<T>(ops: seq<Op<T>>): nat {
    if ops == [] then 0 else Gets(ops[..|ops| - 1]) + (if ops[|ops| - 1].Get? then 1 else 0)
  }

  /** The settlement given to all remaining gets, once there is one. */
  function ForAll<T>(ops: seq<Op<T>>): Option<Settlement<T>> {
    if ops == [] then None
    else
      var before, last := ForAll(ops[..|ops| - 1]), ops[|ops| - 1];
      if before.None? && last.SettleAll? then Some(last.settlement) else before
  }

  /** The settlements accepted one by one, that is, before there was one for all. */
  function Settlements<T>(ops: seq<Op<T>>): seq<Settlement<T>> {
    if ops == [] then []
    else
      var before, last := ops[..|ops| - 1], ops[|ops| - 1];
      Settlements(before) + (if last.Settle? && ForAll(before).None? then [last.settlement] else [])
  }

  /** What has become of the k-th get. */
  function PromiseOf<T>(ops: seq<Op<T>>, k: nat): Promise<T> {
    if k < |Settlements(ops)| then Settled(Settlements(ops)[k])
    else
      match ForAll(ops)
      case Some(settlement) => Settled(settlement)
      case None => Pending
  }

  // ---- the queue

  class DeferredQueue<T> {
    // The positions, among all promises handed out, of those still deferred.
    var deferredGets: seq<nat>
    var settlements: seq<Settlement<T>>
    var settleAllWith: Option<Settlement<T>>
    // Every promise handed out, in order.
    var promises: seq<Promise<T>>
    // Every call made so far.
    ghost var history: seq<Op<T>>

    /** Each promise is what the history makes of it, and each list holds exactly the unpaired ones. */
    ghost predicate Valid()
      reads this
    {
      var gets, settled := Gets(history), Settlements(history);
      && |promises| == gets
      && (forall k :: 0 <= k < gets ==> promises[k] == PromiseOf(history, k))
      && settleAllWith == ForAll(history)
      && settlements == (if gets < |settled| then settled[gets..] else [])
      && |deferredGets| == (if settleAllWith.None? && |settled| < gets then gets - |settled| else 0)
      && (forall i :: 0 <= i < |deferredGets| ==> deferredGets[i] == |settled| + i)
    }

    constructor ()
      ensures Valid() && history == []
    {
      deferredGets, settlements, settleAllWith, promises, history := [], [], None, [], [];
    }

    method IsEmpty() returns (b: bool)
      requires Valid()
      ensures b <==> |Settlements(history)| <= Gets(history)
    {
      b := |settlements| == 0;
    }

    ghost method Record(op: Op<T>)
      modifies this`history
      ensures history == old(history) + [op] && history[..|history| - 1] == old(history)
    {
      history := history + [op];
    }

    method SettlePromise(k: nat, settlement: Settlement<T>)
      requires k < |promises| && promises[k].Pending?
      modifies this`promises
      ensures promises == old(promises)[k := Settled(settlement)]
    {
      promises := promises[k := Settled(settlement)];
    }

    /** The new promise is the k-th, and only it is added. */
    method GetNext() returns (k: nat)
      requires Valid()
      modifies this
      ensures Valid() && history == old(history) + [Get]
      ensures k == Gets(old(history)) && promises[..k] == old(promises) && |promises| == k + 1
      ensures promises[k] == PromiseOf(history, k)
    {
      Record(Get);
      k := |promises|;
      if |settlements| > 0 {
        var nextSettlement := settlements[0];
        settlements := settlements[1..];
        promises := promises + [Settled(nextSettlement)];
      } else if settleAllWith.Some? {
        promises := promises + [Settled(settleAllWith.value)];
      } else {
        promises := promises + [Pending];
        deferredGets := deferredGets + [k];
      }
    }

    method AddSettlement(settlement: Settlement<T>) returns (r: Outcome)
      requires Valid()
      modifies this
      ensures Valid() && (r.Pass? <==> ForAll(old(history)).None?)
      ensures history == old(history) + [Settle(settlement)]
      ensures r.Fail? ==> promises == old(promises) && settlements == old(settlements)
    {
      Record(Settle(settlement));
      if settleAllWith.Some? {
        return Fail;
      }
      if |deferredGets| > 0 {
        var nextDeferredGet := deferredGets[0];
        deferredGets := deferredGets[1..];
        SettlePromise(nextDeferredGet, settlement);
      } else {
        settlements := settlements + [settlement];
      }
      return Pass;
    }

    method AddForAll(settlement: Settlement<T>) returns (r: Outcome)
      requires Valid()
      modifies this
      ensures Valid() && (r.Pass? <==> ForAll(old(history)).None?)
      ensures history == old(history) + [SettleAll(settlement)]
      ensures r.Fail? ==> promises == old(promises) && settlements == old(settlements)
    {
      Record(SettleAll(settlement));
      if settleAllWith.Some? {
        return Fail;
      }
      settleAllWith := Some(settlement);
      ghost var before, first := promises, |promises| - |deferredGets|;
      for i := 0 to |deferredGets|
        modifies this`promises
        invariant |promises| == |before|
        invariant forall k :: 0 <= k < |before| ==>
                    promises[k] == if first <= k < first + i then Settled(settlement) else before[k]
      {
        SettlePromise(deferredGets[i], settlement);
      }
      deferredGets := [];
      return Pass;
    }

    method Resolve(value: T) returns (r: Outcome)
      requires Valid()
      modifies this
      ensures Valid() && (r.Pass? <==> ForAll(old(history)).None?)
      ensures history == old(history) + [Settle(Fulfilled(value))]
    {
      r := AddSettlement(Fulfilled(value));
    }

    method Reject(reason: string) returns (r: Outcome)
      requires Valid()
      modifies this
      ensures Valid() && (r.Pass? <==> ForAll(old(history)).None?)
      ensures history == old(history) + [Settle(Rejected(reason))]
    {
      r := AddSettlement(Rejected(reason));
    }

    method ResolveAll(value: T) returns (r: Outcome)
      requires Valid()
      modifies this
      ensures Valid() && (r.Pass? <==> ForAll(old(history)).None?)
      ensures history == old(history) + [SettleAll(Fulfilled(value))]
    {
      r := AddForAll(Fulfilled(value));
    }

    method RejectAll(reason: string) returns (r: Outcome)
      requires Valid()
      modifies this
      ensures Valid() && (r.Pass? <==> ForAll(old(history)).None?)
      ensures history == old(history) + [SettleAll(Rejected(reason))]
    {
      r := AddForAll(Rejected(reason));
    }

    /** Pending gets and stored settlements are never both there. */
    lemma NeverBoth()
      requires Valid()
      ensures deferredGets == [] || settlements == []
      ensures deferredGets != [] <==> exists k :: 0 <= k < |promises| && promises[k].Pending?
    {
      if deferredGets != [] {
        assert promises[deferredGets[0]].Pending?;
      }
    }
  }

  // ---- histories

  /** A promise, once settled, keeps its settlement whatever is called next. */
  lemma SettledOnce<T>(ops: seq<Op<T>>, more: seq<Op<T>>, k: nat)
    requires PromiseOf(ops, k).Settled?
    ensures PromiseOf(ops + more, k) == PromiseOf(ops, k)
  {
    Persists(ops, more);
  }

  /** Nothing called after a settle-all changes what anything is or will be settled with. */
  lemma {:induction false} Persists<T>(ops: seq<Op<T>>, more: seq<Op<T>>)
    ensures Settlements(ops) <= Settlements(ops + more)
    ensures ForAll(ops).Some? ==> ForAll(ops + more) == ForAll(ops) && Settlements(ops + more) == Settlements(ops)
    decreases |more|
  {
    if more == [] {
      assert ops + more == ops;
    } else {
      var before, last := more[..|more| - 1], more[|more| - 1];
      Persists(ops, before);
      assert (ops + more)[..|ops + more| - 1] == ops + before && (ops + more)[|ops + more| - 1] == last;
    }
  }

  /** So after a settle-all every get, made or still to come, has its outcome fixed. */
  lemma SettledForGood<T>(ops: seq<Op<T>>, more: seq<Op<T>>, k: nat)
    requires ForAll(ops).Some?
    ensures PromiseOf(ops + more, k) == PromiseOf(ops, k) && PromiseOf(ops, k).Settled?
  {
    SettledOnce(ops, more, k);
  }

  // ---- which call settles which get

  predicate NoSettleAll<T>(ops: seq<Op<T>>) {
    forall i :: 0 <= i < |ops| ==> !ops[i].SettleAll?
  }

  function SettleCount<T>(ops: seq<Op<T>>): nat {
    if ops == [] then 0 else SettleCount(ops[..|ops| - 1]) + (if ops[|ops| - 1].Settle? then 1 else 0)
  }

  lemma {:induction false} BeforeSettleAll<T>(ops: seq<Op<T>>)
    ensures ForAll(ops).None? <==> NoSettleAll(ops)
    ensures NoSettleAll(ops) ==> |Settlements(ops)| == SettleCount(ops)
  {
    if ops != [] {
      BeforeSettleAll(ops[..|ops| - 1]);
    }
  }

  /** A resolve or reject before any settle-all settles the get that has as many before it, with what it was called with. */
  lemma SettlesItsGet<T>(ops: seq<Op<T>>, i: nat)
    requires i < |ops| && ops[i].Settle? && NoSettleAll(ops[..i])
    ensures PromiseOf(ops, SettleCount(ops[..i])) == Settled(ops[i].settlement)
  {
    BeforeSettleAll(ops[..i]);
    assert ops[..i + 1][..i] == ops[..i];
    assert ops[..i + 1] + ops[i + 1..] == ops;
    SettledOnce(ops[..i + 1], ops[i + 1..], SettleCount(ops[..i]));
  }

  /** The first settle-all settles every get beyond those. */
  lemma SettlesTheRest<T>(ops: seq<Op<T>>, i: nat, k: nat)
    requires i < |ops| && ops[i].SettleAll? && NoSettleAll(ops[..i]) && k >= SettleCount(ops[..i])
    ensures PromiseOf(ops, k) == Settled(ops[i].settlement)
  {
    BeforeSettleAll(ops[..i]);
    assert ops[..i + 1][..i] == ops[..i];
    assert ops[..i + 1] + ops[i + 1..] == ops;
    SettledOnce(ops[..i + 1], ops[i + 1..], k);
  }

  /** And a get is pending exactly when neither has happened. */
  lemma PendingExactly<T>(ops: seq<Op<T>>, k: nat)
    ensures PromiseOf(ops, k) == Pending <==> NoSettleAll(ops) && k >= SettleCount(ops)
  {
    BeforeSettleAll(ops);
  }
}
