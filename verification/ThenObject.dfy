/** deferred.then with its variable `maxDepth` updated in place, settling the deferred it
    returns; proved against modules Then and Deferred. */
module ThenObject {
  import opened Collections
  import D = Deferred
  import O = DeferredObject
  import T = Then

  class Chain {
    const deferred: O.DeferredObject
    const encode: T.Payload -> nat
    var maxDepth: nat
    var frames: seq<T.Frame>
    ghost var started: bool
    ghost var attempts: seq<T.Attempt>
    ghost var ops: seq<D.Op>

    ghost function Now(): T.State
      reads this
    {
      T.State(maxDepth, frames, started, attempts)
    }

    /** What has been asked of the new deferred is what `then` attempted, in between calls of
        its other methods. */
    ghost predicate Valid()
      reads this, deferred, deferred.done, deferred.fail
    {
      deferred.Valid() && deferred.Now() == D.Run(ops) && T.Reflects(ops, attempts, encode)
    }

    constructor (encode: T.Payload -> nat)
      ensures Valid() && Now() == T.Initial() && ops == []
      ensures fresh(deferred) && fresh(deferred.done) && fresh(deferred.fail)
    {
      deferred := new O.DeferredObject();
      this.encode := encode;
      maxDepth, frames := 0, [];
      started, attempts, ops := false, [], [];
    }

    /** resolveWith or rejectWith on the new deferred. */
    method Settle(side: D.Side, payload: T.Payload, ghost source: nat)
      requires Valid()
      modifies this, deferred, deferred.done, deferred.fail
      ensures Valid() && Now() == T.Try(old(Now()), side, payload, source)
    {
      deferred.Settle(side, encode(payload));
      ghost var op, attempt := D.Settle(side, encode(payload)), T.Attempt(side, payload, source, maxDepth);
      Snoc(ops, op);
      SnocAttempt(ops, op, attempts, attempt, encode);
      attempts, ops := attempts + [attempt], ops + [op];
    }

    /** done or fail of the promise that `then` returned. */
    method Listen(side: D.Side, fns: seq<D.UserFn>)
      requires Valid()
      modifies this`ops, deferred, deferred.done, deferred.fail
      ensures Valid() && Now() == old(Now()) && ops == old(ops) + [D.Listen(side, fns)]
    {
      deferred.Listen(side, fns);
      Snoc(ops, D.Listen(side, fns));
      ops := ops + [D.Listen(side, fns)];
    }

    /** A callback of the new deferred returns. */
    method Return(side: D.Side)
      requires Valid() && deferred.Side(side).firing
      modifies this`ops, deferred, deferred.done, deferred.fail
      ensures Valid() && Now() == old(Now()) && ops == old(ops) + [D.Return(side)]
    {
      deferred.Return(side);
      Snoc(ops, D.Return(side));
      ops := ops + [D.Return(side)];
    }

    /** A closure made by `resolve( depth, deferred, handler )` is called. */
    method Start(depth: nat, handler: T.Handler, args: nat)
      requires Valid()
      modifies this`frames, this`started
      ensures Valid() && Now() == T.Step(old(Now()), T.Start(depth, handler, args))
    {
      started := true;
      if depth < maxDepth {
        return;
      }
      frames := frames + [T.Frame(depth, handler, args, None, T.Handling)];
    }

    /** The innermost closure is in a new phase. */
    method Retop(f: T.Frame)
      requires frames != []
      modifies this`frames
      ensures Now() == T.Retop(old(Now()), f)
    {
      frames := frames[..|frames| - 1] + [f];
    }

    /** What the innermost closure is doing throws: to its catch clause, which calls the
        exceptionHook, or, from there, out of the closure. */
    method Throw(e: nat)
      requires Valid() && frames != []
      modifies this`frames
      ensures Valid() && Now() == T.Step(old(Now()), T.Throw(e))
    {
      var top := frames[|frames| - 1];
      if top.phase.Hooking? || top.phase.Rejecting? {
        frames := frames[..|frames| - 1];
      } else {
        Retop(top.(phase := T.Hooking(e)));
      }
    }

    /** The exceptionHook returns: the rest of the catch clause. */
    method Catch()
      requires Valid() && frames != [] && frames[|frames| - 1].phase.Hooking?
      modifies this, deferred, deferred.done, deferred.fail
      ensures Valid() && Now() == T.Step(old(Now()), T.HookReturns)
    {
      var top := frames[|frames| - 1];
      if top.depth + 1 >= maxDepth {
        Retop(top.(phase := T.Rejecting));
        Settle(D.Fail, if top.handler.Thrower? then T.Original(top.args) else T.Single(top.phase.e), T.Source(top));
      } else {
        frames := frames[..|frames| - 1];
      }
    }

    /** Its handler gives back a value that is no thenable. */
    method Give(value: nat)
      requires Valid() && frames != []
      modifies this, deferred, deferred.done, deferred.fail
      ensures Valid() && Now() == T.Step(old(Now()), T.Give(value))
    {
      var top := frames[|frames| - 1];
      Retop(top.(phase := T.Resolving));
      Settle(D.Done, if top.handler.Identity? then T.Original(top.args) else T.Single(value), T.Source(top));
    }

    /** Its handler gives back a thenable, whose `then` is called. */
    method GiveThenable()
      requires Valid() && frames != []
      modifies this`maxDepth, this`frames
      ensures Valid() && Now() == T.Step(old(Now()), T.GiveThenable)
    {
      var top := frames[|frames| - 1];
      maxDepth := maxDepth + 1;
      Retop(top.(adopted := Some(maxDepth), phase := T.Calling));
    }

    /** That `then`, or the callbacks of the new deferred, return. */
    method Ends()
      requires Valid() && frames != []
      modifies this`frames
      ensures Valid() && Now() == T.Step(old(Now()), T.Ends)
    {
      frames := frames[..|frames| - 1];
    }

    /** Whatever run led here, the new deferred shows the first attempt, which spoke for the
        source adopted last iff no closure had been overtaken. */
    lemma Settled(events: seq<T.Event>)
      requires Valid() && T.Possible(events) && Now() == T.Run(events)
      ensures T.Shows(deferred.Now(), ops, attempts, encode)
      ensures (attempts != [] ==> T.FromLatest(attempts[0])) <==> T.NoneOvertakenInTime(events)
    {
      T.ChainSettlesOnce(events, ops, encode);
    }
  }

  lemma Snoc(ops: seq<D.Op>, op: D.Op)
    ensures D.Run(ops + [op]) == D.Step(D.Run(ops), op)
    ensures (ops + [op])[..|ops + [op]| - 1] == ops
  {
    assert (ops + [op])[..|ops + [op]| - 1] == ops;
  }

  lemma SnocAttempt(ops: seq<D.Op>, op: D.Op, attempts: seq<T.Attempt>, attempt: T.Attempt, encode: T.Payload -> nat)
    requires T.Reflects(ops, attempts, encode) && op == D.Settle(attempt.side, encode(attempt.payload))
    ensures T.Reflects(ops + [op], attempts + [attempt], encode)
  {
    Snoc(ops, op);
    assert (attempts + [attempt])[..|attempts + [attempt]| - 1] == attempts;
  }
}
