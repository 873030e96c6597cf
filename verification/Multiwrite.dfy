/** Completion of a multiwrite (qemu/block.c:2239-2280, 2388-2474): completions may fire while
    requests are still being submitted, and submissions may fail. */
module Multiwrite {
  import opened Common

  /** The first negative number of a sequence, or 0. */
  function FirstNegative(rets: seq<int>): (e: int)
    ensures e <= 0
  {
    if rets == [] then 0
    else if FirstNegative(rets[..|rets| - 1]) != 0 then FirstNegative(rets[..|rets| - 1])
    else if rets[|rets| - 1] < 0 then rets[|rets| - 1] else 0
  }

  /** It is one of the results, all results before it are not negative, and it is 0 only if no
      result is negative. */
  lemma {:induction false} FirstNegativeIsFirst(rets: seq<int>)
    ensures FirstNegative(rets) == 0 <==> forall i :: 0 <= i < |rets| ==> rets[i] >= 0
    ensures FirstNegative(rets) != 0 ==>
              exists i :: 0 <= i < |rets| && rets[i] == FirstNegative(rets) && forall j :: 0 <= j < i ==> rets[j] >= 0
  {
    if rets != [] {
      var init := rets[..|rets| - 1];
      FirstNegativeIsFirst(init);
      if FirstNegative(init) != 0 {
        var i :| 0 <= i < |init| && init[i] == FirstNegative(init) && forall j :: 0 <= j < i ==> init[j] >= 0;
        assert rets[i] == FirstNegative(rets);
      } else {
        forall j | 0 <= j < |init| ensures rets[j] >= 0 { assert init[j] >= 0; }
      }
    }
  }

  /** e is the first negative one of rets, or 0 if none is. */
  ghost predicate FirstError(e: int, rets: seq<int>) {
    if e == 0 then forall i :: 0 <= i < |rets| ==> rets[i] >= 0
    else e < 0 && exists i :: 0 <= i < |rets| && rets[i] == e && forall j :: 0 <= j < i ==> rets[j] >= 0
  }

  /** A call of a user's callback: which one, and with what result. */
  datatype Call = Call(callback: nat, ret: int)

  /** Every callback once, in order, with result e. */
  function AllCalls(n: nat, e: int): seq<Call> { seq(n, i requires 0 <= i => Call(i, e)) }

  /** How the driver answers one submission: whether it takes the request, and the results of the
      requests that complete before bdrv_aio_writev returns. */
  datatype Answer = Answer(accepted: bool, early: seq<int>)

  /** No request completes that was not accepted, or completes twice. */
  ghost predicate Plausible(answers: seq<Answer>, outstanding: nat)
    decreases |answers|
  {
    answers == [] ||
    var now := outstanding + if answers[0].accepted then 1 else 0;
    |answers[0].early| <= now && Plausible(answers[1..], now - |answers[0].early|)
  }

  /** How many requests are still with the driver when the submission loop ends. */
  ghost function OutstandingAfter(answers: seq<Answer>, outstanding: nat): nat
    requires Plausible(answers, outstanding)
    decreases |answers|
  {
    if answers == [] then outstanding
    else
      var now := outstanding + (if answers[0].accepted then 1 else 0) - |answers[0].early|;
      if answers[0].accepted then OutstandingAfter(answers[1..], now) else now
  }

  /** The results multiwrite_cb gets during the submission loop, in order: early completions, -EIO
      for a refused request, which also ends the loop, and at last the 0 of the dummy request. */
  function Seen(answers: seq<Answer>): seq<int> {
    if answers == [] then [0]
    else answers[0].early + if answers[0].accepted then Seen(answers[1..]) else [-EIO, 0]
  }

  class MultiwriteCb {
    var error: int
    var numRequests: nat
    const numCallbacks: nat
    var calls: seq<Call>            // what the users have seen
    ghost var results: seq<int>     // the results multiwrite_cb was called with, in order
    ghost var outstanding: nat      // accepted and not completed
    ghost var held: nat             // counted requests that are not with the driver

    /** The counter counts what is outstanding; the users are called when it reaches 0. */
    ghost predicate Valid()
      reads this
    {
      && numRequests == outstanding + held
      && error == FirstNegative(results)
      && calls == if numRequests == 0 then AllCalls(numCallbacks, error) else []
    }

    constructor (numCallbacks: nat)
      ensures Valid() && this.numCallbacks == numCallbacks && numRequests == 1
      ensures results == [] && outstanding == 0 && held == 1
    {
      error, numRequests, this.numCallbacks, calls := 0, 1, numCallbacks, [];
      results, outstanding, held := [], 0, 1;
    }

    method UserCb()
      requires calls == []
      modifies this`calls
      ensures calls == AllCalls(numCallbacks, error)
    {
      for i := 0 to numCallbacks
        invariant calls == AllCalls(i, error)
      {
        calls := calls + [Call(i, error)];
      }
    }

    /** multiwrite_cb, for a request the driver completes or for one that is held. */
    method Complete(ret: int, ghost fromDriver: bool)
      requires Valid() && (if fromDriver then outstanding > 0 else held > 0)
      modifies this
      ensures Valid() && results == old(results) + [ret]
      ensures outstanding == old(outstanding) - (if fromDriver then 1 else 0)
      ensures held == old(held) - (if fromDriver then 0 else 1)
    {
      assert (results + [ret])[..|results|] == results;
      if ret < 0 && error == 0 { error := ret; }
      numRequests := numRequests - 1;
      results := results + [ret];
      if fromDriver { outstanding := outstanding - 1; } else { held := held - 1; }
      if numRequests == 0 { UserCb(); }
    }

    method CompleteAll(rets: seq<int>)
      requires Valid() && |rets| <= outstanding
      modifies this
      ensures Valid() && results == old(results) + rets
      ensures outstanding == old(outstanding) - |rets| && held == old(held)
    {
      for i := 0 to |rets|
        invariant Valid() && results == old(results) + rets[..i]
        invariant outstanding == old(outstanding) - i && held == old(held)
      {
        Complete(rets[i], true);
      }
    }

    /** mcb->num_requests++ before a request goes to the driver. */
    method Count(accepted: bool)
      requires Valid() && held > 0
      modifies this`numRequests, this`outstanding, this`held
      ensures Valid() && outstanding == old(outstanding) + (if accepted then 1 else 0)
      ensures held == old(held) + (if accepted then 0 else 1)
    {
      numRequests := numRequests + 1;
      if accepted { outstanding := outstanding + 1; } else { held := held + 1; }
    }

    /** The submission loop; ok is false when the very first request is refused. */
    method Submit(answers: seq<Answer>) returns (ok: bool)
      requires Valid() && held == 1 && results == [] && outstanding == 0 && Plausible(answers, 0)
      modifies this
      ensures Valid()
      ensures ok <==> answers == [] || answers[0].accepted
      ensures ok ==> held == 0 && results == Seen(answers) && outstanding == OutstandingAfter(answers, 0)
      ensures !ok ==> calls == []
    {
      hide FirstNegative, AllCalls, ToCome, Seen, OutstandingAfter, Plausible;
      NothingYet(answers);
      assert answers[0..] == answers;
      for i := 0 to |answers|
        invariant Valid() && held == 1 && (i == 0 ==> outstanding == 0 && calls == []) && (i > 0 ==>
            answers[0].accepted)
        invariant ToCome(answers[i..], outstanding, results, answers)
      {
        var a := answers[i];
        assert answers[i..][0] == a && answers[i..][1..] == answers[i + 1..];
        NextAnswer(answers[i..], outstanding, results, answers);
        Count(a.accepted);
        CompleteAll(a.early);
        if !a.accepted {
          if i == 0 { return false; }
          Complete(-EIO, false);
          Complete(0, false);
          return true;
        }
      }
      AllAnswered(outstanding, results, answers);
      Complete(0, false);
      return true;
    }
  }

  lemma NothingYet(answers: seq<Answer>)
    requires Plausible(answers, 0)
    ensures ToCome(answers, 0, [], answers)
  {
    assert [] + Seen(answers) == Seen(answers);
  }

  lemma NextAnswer(rest: seq<Answer>, outstanding: nat, results: seq<int>, answers: seq<Answer>)
    requires Plausible(answers, 0) && rest != [] && ToCome(rest, outstanding, results, answers)
    ensures var a, now := rest[0], outstanding + if rest[0].accepted then 1 else 0;
            && |a.early| <= now
            && (a.accepted ==> ToCome(rest[1..], now - |a.early|, results + a.early, answers))
            && (!a.accepted ==>
                results + a.early + [-EIO] + [0] == Seen(answers) && now - |a.early| == OutstandingAfter(answers, 0))
  {
    var early := rest[0].early;
    Regroup(results, early, Seen(rest[1..]));
    Regroup(results + early, [-EIO], [0]);
    Regroup(results, early, [-EIO] + [0]);
    assert [-EIO] + [0] == [-EIO, 0];
  }

  lemma Regroup(a: seq<int>, b: seq<int>, c: seq<int>)
    ensures (a + b) + c == a + (b + c)
  {}

  lemma AllAnswered(outstanding: nat, results: seq<int>, answers: seq<Answer>)
    requires Plausible(answers, 0) && ToCome([], outstanding, results, answers)
    ensures results + [0] == Seen(answers) && outstanding == OutstandingAfter(answers, 0)
  {}

  /** With rest still to be submitted, the loop is on its way to what answers leads to. */
  ghost predicate ToCome(rest: seq<Answer>, outstanding: nat, results: seq<int>, answers: seq<Answer>)
    requires Plausible(answers, 0)
  {
    && Plausible(rest, outstanding)
    && results + Seen(rest) == Seen(answers)
    && OutstandingAfter(rest, outstanding) == OutstandingAfter(answers, 0)
  }

  /** bdrv_aio_multiwrite.  After 0, the users' callbacks have run, once each, exactly when no
      request is outstanding any more; after -1 none has run and every request carries an error. */
  method AioMultiwrite(hasMedium: bool, errors: array<int>, answers: seq<Answer>)
    returns (ret: int, mcb: MultiwriteCb?)
    requires Plausible(answers, 0) && (answers == [] <==> errors.Length == 0)
    modifies errors
    ensures ret == 0 || ret == -1
    ensures ret == 0 <==> hasMedium && (answers == [] || answers[0].accepted)
    ensures ret == -1 ==> forall i :: 0 <= i < errors.Length ==> errors[i] == if hasMedium then -5 else -123
    ensures ret == 0 ==> errors[..] == old(errors[..])
    ensures ret == 0 && answers != [] ==> mcb != null
    ensures mcb != null ==>
      && fresh(mcb) && mcb.Valid() && mcb.numCallbacks == errors.Length
      && (ret == -1 ==> mcb.calls == [])
      && (ret == 0 ==> mcb.held == 0 && mcb.results == Seen(answers) && mcb.outstanding == OutstandingAfter(answers, 0))
  {
    mcb := null;
    if !hasMedium {
      SetErrors(errors, -ENOMEDIUM);
      return -1, mcb;
    }
    if errors.Length == 0 { return 0, mcb; }
    mcb := new MultiwriteCb(errors.Length);
    var ok := mcb.Submit(answers);
    if ok { return 0, mcb; }
    SetErrors(errors, -EIO);
    ret := -1;
  }

  method SetErrors(errors: array<int>, e: int)
    modifies errors
    ensures forall i :: 0 <= i < errors.Length ==> errors[i] == e
  {
    for i := 0 to errors.Length
      invariant forall j :: 0 <= j < i ==> errors[j] == e
    {
      errors[i] := e;
    }
  }

  /** The whole life of a multiwrite, for every schedule: once all accepted requests have
      completed, each original callback has run exactly once, with the first negative result. */
  method RunMultiwrite(errors: array<int>, answers: seq<Answer>, late: seq<int>) returns (mcb: MultiwriteCb)
    requires Plausible(answers, 0) && answers != [] && answers[0].accepted && errors.Length > 0
    requires |late| == OutstandingAfter(answers, 0)
    modifies errors
    ensures fresh(mcb) && mcb.outstanding == 0
    ensures mcb.calls == AllCalls(errors.Length, FirstNegative(Seen(answers) + late))
    ensures |mcb.calls| == errors.Length && forall i :: 0 <= i < |mcb.calls| ==>
        mcb.calls[i].callback == i && FirstError(mcb.calls[i].ret, Seen(answers) + late)
  {
    var _, m := AioMultiwrite(true, errors, answers);
    mcb := m;
    mcb.CompleteAll(late);
    FirstNegativeIsFirst(Seen(answers) + late);
  }
}
