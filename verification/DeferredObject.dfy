/** jQuery.Deferred as an object over two callback lists, proved against module Deferred. */
module DeferredObject {
  import C = Callbacks
  import D = Deferred
  import L = CallbackList

  class DeferredObject {
    var status: D.Status
    const done: L.CallbackList
    const fail: L.CallbackList

    ghost function Now(): D.State
      reads this, done, fail
    {
      D.State(status, done.Now(), fail.Now())
    }

    ghost predicate Valid()
      reads this, done, fail
    {
      done != fail && done.Valid() && fail.Valid()
    }

    constructor ()
      ensures Valid() && fresh(done) && fresh(fail)
      ensures Now() == D.Initial()
    {
      status := D.Pending;
      done := new L.CallbackList(D.OPTIONS);
      fail := new L.CallbackList(D.OPTIONS);
      new;
      var internals := [L.Fn(0), L.Fn(1), L.Fn(2), L.Fn(3)];
      assert L.Flatten(internals) == D.INTERNAL by {
        FlattenFns(D.INTERNAL);
        assert Fns(D.INTERNAL) == internals;
      }
      done.Add(internals);
      fail.Add(internals);
    }

    function Side(side: D.Side): L.CallbackList {
      if side.Done? then done else fail
    }

    /** Internal callbacks run and return until a user's callback runs, or none. */
    method Drive(side: D.Side)
      requires Valid()
      modifies this, done, fail
      ensures Valid() && Now() == D.Drive(old(Now()), side)
    {
      var list := Side(side);
      while list.firing && 0 <= list.firingIndex < list.Length() && list.list.value[list.firingIndex].fn < 4
        invariant Valid() && D.Drive(Now(), side) == D.Drive(old(Now()), side)
        decreases list.firing, |list.queue|, |C.Pending(list.Now())|
      {
        D.ContinueDecreases(list.Now());
        RunOne(side);
      }
    }

    /** One internal callback runs and returns. */
    method RunOne(side: D.Side)
      requires Valid() && D.RunsInternal(Side(side).Now())
      modifies this, done, fail
      ensures Valid()
      ensures var l := old(Side(side).Now());
              Now() == D.With(D.Effect(old(Now()), side, C.Entries(l)[l.firingIndex].fn), side, C.Continue(l))
      ensures Side(side).Now() == C.Continue(old(Side(side).Now()))
    {
      var list, other := Side(side), Side(D.Other(side));
      var fn := list.list.value[list.firingIndex].fn;
      if fn == D.SET_STATE {
        status := D.Settled(side);
      } else if fn == D.DISABLE_OTHER {
        other.Disable();
      }
      list.Return();
    }

    /** resolveWith and rejectWith. */
    method Settle(side: D.Side, args: C.Args)
      requires Valid()
      modifies this, done, fail
      ensures Valid() && Now() == D.Step(old(Now()), D.Settle(side, args))
    {
      Side(side).FireWith(args);
      Drive(side);
    }

    /** done and fail, with functions only. */
    method Listen(side: D.Side, fns: seq<D.UserFn>)
      requires Valid()
      modifies this, done, fail
      ensures Valid() && Now() == D.Step(old(Now()), D.Listen(side, fns))
    {
      FlattenFns(fns);
      Side(side).Add(Fns(fns));
      Drive(side);
    }

    /** The user's callback that runs on `side` returns. */
    method Return(side: D.Side)
      requires Valid() && Side(side).firing
      modifies this, done, fail
      ensures Valid() && Now() == D.Step(old(Now()), D.Return(side))
    {
      Side(side).Return();
      Drive(side);
    }
  }

  function Fns(fns: seq<nat>): seq<L.Arg> {
    if fns == [] then [] else [L.Fn(fns[0])] + Fns(fns[1..])
  }

  lemma {:induction false} FlattenFns(fns: seq<nat>)
    ensures L.Flatten(Fns(fns)) == fns
    decreases |fns|
  {
    if fns != [] {
      FlattenFns(fns[1..]);
    }
  }
}
