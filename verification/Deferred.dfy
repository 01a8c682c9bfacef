/** jQuery.Deferred: two "once memory" callback lists wired so that only one outcome can
    happen.  The progress list, which no outcome depends on, is not modelled. */
module Deferred {
  import opened Collections
  import C = Callbacks

  /** Functions 0 to 3 are the ones a Deferred registers on its own lists: set the state,
      disable the opposite list, lock the progress list, fire the list that `then` uses. */
  const SET_STATE := 0
  const DISABLE_OTHER := 1

  type UserFn = f: nat | 4 <= f witness 4

  datatype Side = Done | Fail

  datatype Status = Pending | Settled(side: Side)

  datatype State = State(status: Status, done: C.State, fail: C.State)

  const OPTIONS := C.Options(true, true, false)

  const INTERNAL: seq<nat> := [0, 1, 2, 3]

  function Initial(): State {
    var l := C.Add(C.Initial(OPTIONS), INTERNAL);
    State(Pending, l, l)
  }

  function List(d: State, side: Side): C.State {
    if side.Done? then d.done else d.fail
  }

  function Other(side: Side): Side {
    if side.Done? then Fail else Done
  }

  function With(d: State, side: Side, l: C.State): State {
    if side.Done? then d.(done := l) else d.(fail := l)
  }

  /** A callback that the Deferred registered itself is running. */
  predicate RunsInternal(l: C.State) {
    l.firing && 0 <= l.firingIndex < |C.Entries(l)| && C.Entries(l)[l.firingIndex].fn < 4
  }

  /** What such a callback does when it runs. */
  function Effect(d: State, side: Side, fn: nat): State {
    if fn == SET_STATE then d.(status := Settled(side))
    else if fn == DISABLE_OTHER then With(d, Other(side), C.Disable(List(d, Other(side))))
    else d
  }

  lemma ContinueDecreases(l: C.State)
    requires RunsInternal(l)
    ensures var n := C.Continue(l);
            n.firing ==> |n.queue| < |l.queue| || (|n.queue| == |l.queue| && |C.Pending(n)| < |C.Pending(l)|)
  {
    if !C.More(l) {
      NextPassShrinks(C.EndPass(l));
    }
  }

  lemma {:induction false} NextPassShrinks(l: C.State)
    ensures |C.NextPass(l).queue| <= |l.queue|
    ensures C.NextPass(l).firing ==> |C.NextPass(l).queue| < |l.queue|
    decreases |l.queue|
  {
    if l.queue != [] && !C.More(C.StartPass(l)) {
      NextPassShrinks(C.EndPass(C.StartPass(l)));
    }
  }

  /** Runs internal callbacks, which return at once, until a user's callback runs or none. */
  function Drive(d: State, side: Side): State
    decreases List(d, side).firing, |List(d, side).queue|, |C.Pending(List(d, side))|
  {
    var l := List(d, side);
    if RunsInternal(l) then
      ContinueDecreases(l);
      Drive(With(Effect(d, side, C.Entries(l)[l.firingIndex].fn), side, C.Continue(l)), side)
    else d
  }

  datatype Op = Settle(side: Side, args: C.Args) | Listen(side: Side, fns: seq<UserFn>) | Return(side: Side)

  /** resolveWith / rejectWith, done / fail, and the return of a running callback. */
  function Step(d: State, op: Op): State {
    match op
    case Settle(side, args) => Drive(With(d, side, C.FireWith(List(d, side), args)), side)
    case Listen(side, fns) => Drive(With(d, side, C.Add(List(d, side), fns)), side)
    case Return(side) =>
      if List(d, side).firing then Drive(With(d, side, C.Continue(List(d, side))), side) else d
  }

  function Run(ops: seq<Op>): State
    decreases |ops|
  {
    if ops == [] then Initial() else Step(Run(ops[..|ops| - 1]), ops[|ops| - 1])
  }

  // ----- What the operations so far ask for

  datatype Outcome = Undecided | Chosen(side: Side, args: C.Args)

  /** The first operation that settles decides the outcome and its arguments. */
  function First(ops: seq<Op>): Outcome
    decreases |ops|
  {
    if ops == [] then Undecided
    else
      var last := ops[|ops| - 1];
      var before := First(ops[..|ops| - 1]);
      if before.Chosen? then before else if last.Settle? then Chosen(last.side, last.args) else Undecided
  }

  /** Every user callback handed to `side`, in order. */
  function Registered(ops: seq<Op>, side: Side): seq<UserFn>
    decreases |ops|
  {
    if ops == [] then []
    else
      var last := ops[|ops| - 1];
      Registered(ops[..|ops| - 1], side) + if last.Listen? && last.side == side then last.fns else []
  }

  /** The calls a list has made: which function, with which arguments. */
  type Call = (nat, C.Args)

  function Tag(l: seq<C.Entry>, args: C.Args): seq<Call> {
    if l == [] then [] else Tag(l[..|l| - 1], args) + [(l[|l| - 1].fn, args)]
  }

  function PassLog(passes: seq<C.Pass>): seq<Call> {
    if passes == [] then []
    else PassLog(passes[..|passes| - 1]) + Tag(passes[|passes| - 1].called, passes[|passes| - 1].args)
  }

  function Log(l: C.State): seq<Call> {
    PassLog(l.finished) + if l.current.Some? then Tag(l.current.value.called, l.current.value.args) else []
  }

  function Calls(fns: seq<nat>, args: C.Args): seq<Call> {
    if fns == [] then [] else Calls(fns[..|fns| - 1], args) + [(fns[|fns| - 1], args)]
  }

  // ----- The three conditions a list can be in

  ghost predicate Quiet(l: C.State) {
    l.queue == [] && !l.firing && l.firingIndex == -1 && l.memory.None? && l.finished == [] && l.current.None?
  }

  function Fns(l: seq<C.Entry>): seq<nat> {
    if l == [] then [] else Fns(l[..|l| - 1]) + [l[|l| - 1].fn]
  }

  /** Not yet fired: the internal callbacks and then the user's are waiting. */
  ghost predicate Fresh(l: C.State, us: seq<UserFn>) {
    && l.options == OPTIONS && Quiet(l) && !l.locked
    && l.list.Some? && Fns(l.list.value) == INTERNAL + us
  }

  /** Disabled before it ever fired. */
  ghost predicate Dead(l: C.State) {
    Quiet(l) && l.locked && l.list.None?
  }

  /** Fired once with `args`, for good. */
  ghost predicate Shape(l: C.State, args: C.Args) {
    && l.options == OPTIONS && l.locked && l.queue == [] && l.memory == Some(args) && l.list.Some?
    && (l.firing ==> l.current.Some? && 0 <= l.firingIndex < |l.list.value| && l.current.value.args == args)
    && (!l.firing ==> l.current.None? && l.list.value == [] && l.firingIndex == -1)
  }

  /** What the list has called and what is pending are, in order, everything registered. */
  ghost predicate Delivers(l: C.State, us: seq<UserFn>, args: C.Args) {
    Log(l) + Tag(C.Pending(l), args) == Calls(INTERNAL + us, args)
  }

  /** The last call logged is the callback that is running. */
  ghost predicate Current(l: C.State) {
    l.firing && 0 <= l.firingIndex < |C.Entries(l)| ==>
      Log(l) != [] && Log(l)[|Log(l)| - 1].0 == C.Entries(l)[l.firingIndex].fn
  }

  ghost predicate Live(l: C.State, us: seq<UserFn>, args: C.Args) {
    Shape(l, args) && Delivers(l, us, args) && Current(l)
  }

  // ----- Lemmas on logs

  lemma {:induction false} TagAppend(a: seq<C.Entry>, b: seq<C.Entry>, args: C.Args)
    ensures Tag(a + b, args) == Tag(a, args) + Tag(b, args)
    decreases |b|
  {
    if b == [] {
      assert a + b == a;
    } else {
      assert (a + b)[..|a + b| - 1] == a + b[..|b| - 1];
      TagAppend(a, b[..|b| - 1], args);
    }
  }

  lemma {:induction false} CallsAppend(a: seq<nat>, b: seq<nat>, args: C.Args)
    ensures Calls(a + b, args) == Calls(a, args) + Calls(b, args)
    decreases |b|
  {
    if b == [] {
      assert a + b == a;
    } else {
      assert (a + b)[..|a + b| - 1] == a + b[..|b| - 1];
      CallsAppend(a, b[..|b| - 1], args);
    }
  }

  lemma {:induction false} TagIsCalls(l: seq<C.Entry>, args: C.Args)
    ensures Tag(l, args) == Calls(Fns(l), args) && |Fns(l)| == |l| == |Tag(l, args)|
    decreases |l|
  {
    if l != [] {
      TagIsCalls(l[..|l| - 1], args);
    }
  }

  lemma {:induction false} FnsAt(l: seq<C.Entry>, i: nat)
    requires i < |l|
    ensures |Fns(l)| == |l| && Fns(l)[i] == l[i].fn
    decreases |l|
  {
    TagIsCalls(l, 0);
    TagIsCalls(l[..|l| - 1], 0);
    if i < |l| - 1 {
      FnsAt(l[..|l| - 1], i);
    }
  }

  lemma {:induction false} CallsAt(fns: seq<nat>, args: C.Args, i: nat)
    ensures |Calls(fns, args)| == |fns|
    ensures i < |fns| ==> Calls(fns, args)[i] == (fns[i], args)
    decreases |fns|
  {
    if fns != [] {
      CallsAt(fns[..|fns| - 1], args, i);
    }
  }

  lemma {:induction false} FnsAppend(a: seq<C.Entry>, b: seq<C.Entry>)
    ensures Fns(a + b) == Fns(a) + Fns(b)
    decreases |b|
  {
    if b == [] {
      assert a + b == a;
    } else {
      assert (a + b)[..|a + b| - 1] == a + b[..|b| - 1];
      FnsAppend(a, b[..|b| - 1]);
    }
  }

  /** Without `unique`, every function is pushed. */
  lemma {:induction false} AppendFns(l: seq<C.Entry>, id: nat, fns: seq<nat>)
    ensures Fns(C.Append(false, l, id, fns)[|l|..]) == fns
    decreases |fns|
  {
    var r := C.Append(false, l, id, fns);
    if fns == [] {
      assert r[|l|..] == [];
    } else {
      var e := C.Entry(fns[0], id);
      AppendFns(l + [e], id + 1, fns[1..]);
      assert r[..|l| + 1] == l + [e];
      assert r[|l|..] == [e] + r[|l| + 1..];
      FnsAppend([e], r[|l| + 1..]);
      assert [e][..0] == [] && Fns([e]) == [fns[0]];
    }
  }

  // ----- Steps of a list

  lemma FreshAdd(l: C.State, us: seq<UserFn>, fns: seq<UserFn>)
    requires Fresh(l, us)
    ensures Fresh(C.Add(l, fns), us + fns)
  {
    var entries := l.list.value;
    var r := C.Append(false, entries, l.nextId, fns);
    AppendFns(entries, l.nextId, fns);
    assert r == entries + r[|entries|..];
    FnsAppend(entries, r[|entries|..]);
    assert INTERNAL + us + fns == INTERNAL + (us + fns);
  }

  lemma TagSnoc(l: seq<C.Entry>, e: C.Entry, args: C.Args)
    ensures Tag(l + [e], args) == Tag(l, args) + [(e.fn, args)]
  {
    assert (l + [e])[..|l + [e]| - 1] == l;
  }

  lemma TagCons(e: C.Entry, l: seq<C.Entry>, args: C.Args)
    ensures Tag([e] + l, args) == [(e.fn, args)] + Tag(l, args)
  {
    TagAppend([e], l, args);
    TagSnoc([], e, args);
    assert [] + [e] == [e];
  }

  lemma PendingCons(l: C.State)
    requires C.More(l)
    ensures C.Pending(l) == [C.Entries(l)[l.firingIndex + 1]] + C.Pending(C.CallNext(l))
  {
  }

  /** Running the next callback logs one call. */
  lemma CallNextLogs(l: C.State)
    requires l.current.Some? && C.More(l)
    ensures Log(C.CallNext(l)) == Log(l) + [(C.Entries(l)[l.firingIndex + 1].fn, l.current.value.args)]
  {
    var next, p := C.Entries(l)[l.firingIndex + 1], l.current.value;
    TagSnoc(p.called, next, p.args);
    Assoc(PassLog(l.finished), Tag(p.called, p.args), [(next.fn, p.args)]);
  }

  lemma CallNextDelivers(l: C.State, us: seq<UserFn>, args: C.Args)
    requires l.current.Some? && l.current.value.args == args && C.More(l) && Delivers(l, us, args)
    ensures Delivers(C.CallNext(l), us, args) && Current(C.CallNext(l))
    ensures |Log(C.CallNext(l))| == |Log(l)| + 1
  {
    CallNextLogs(l);
    PendingCons(l);
    var rest, next := C.Pending(C.CallNext(l)), C.Entries(l)[l.firingIndex + 1];
    TagCons(next, rest, args);
    Assoc(Log(l), [(next.fn, args)], Tag(rest, args));
  }

  /** Ending the pass moves its calls into the history. */
  lemma EndPassLogs(l: C.State)
    requires l.current.Some?
    ensures Log(C.EndPass(l)) == Log(l)
  {
    var e := C.EndPass(l);
    assert e.finished[..|l.finished|] == l.finished;
  }

  lemma EndDelivers(l: C.State, us: seq<UserFn>, args: C.Args)
    requires l.current.Some? && l.options == OPTIONS && l.locked && l.memory == Some(args) && l.queue == []
    requires -1 <= l.firingIndex && !C.More(l) && Delivers(l, us, args)
    ensures C.Continue(l) == C.Finish(C.EndPass(l))
    ensures Live(C.Continue(l), us, args) && !C.Continue(l).firing && Log(C.Continue(l)) == Log(l)
  {
    EndPassLogs(l);
    var n := C.Finish(C.EndPass(l));
    assert C.Pending(l) == [] && C.Pending(n) == [];
    assert Log(n) == Log(l);
  }

  /** The first callback runs: the list was never fired, so it starts from its front. */
  lemma FreshFire(l: C.State, us: seq<UserFn>, args: C.Args)
    requires Fresh(l, us)
    ensures var n := C.FireWith(l, args);
            Live(n, us, args) && n.firing && |Log(n)| == 1
  {
    var entries := l.list.value;
    TagIsCalls(entries, args);
    assert l.queue + [args] == [args] && [args][1..] == [];
    var q := l.(queue := [args], accepted := l.accepted + [args], locked := true, fired := true, firing := true);
    var s := C.StartPass(q);
    assert C.FireWith(l, args) == C.Continue(s);
    assert C.Pending(s) == entries && Log(s) == [];
    assert Delivers(s, us, args);
    CallNextDelivers(s, us, args);
  }

  lemma LiveReturn(l: C.State, us: seq<UserFn>, args: C.Args)
    requires Live(l, us, args) && l.firing
    ensures var n := C.Continue(l);
            Live(n, us, args) && (if n.firing then |Log(n)| == |Log(l)| + 1 else Log(n) == Log(l))
  {
    if C.More(l) {
      CallNextDelivers(l, us, args);
    } else {
      EndDelivers(l, us, args);
    }
  }

  /** What add pushes on a Deferred's list. */
  lemma AddedEntries(l: C.State, fns: seq<UserFn>) returns (new_: seq<C.Entry>)
    requires l.options == OPTIONS && l.list.Some? && -1 <= l.firingIndex < |l.list.value|
    ensures C.Added(l, fns).list == Some(l.list.value + new_) && Fns(new_) == fns
    ensures C.Pending(C.Added(l, fns)) == C.Pending(l) + new_
  {
    new_ := C.Novel(l, fns);
    NovelFns(l, fns);
    C.AddedPending(l, fns);
  }

  lemma RegisterMore(a: seq<Call>, us: seq<UserFn>, args: C.Args, fns: seq<UserFn>)
    requires a == Calls(INTERNAL + us, args)
    ensures a + Calls(fns, args) == Calls(INTERNAL + (us + fns), args)
  {
    Assoc(INTERNAL, us, fns);
    CallsAppend(INTERNAL + us, fns, args);
  }

  lemma AddedDelivers(l: C.State, us: seq<UserFn>, args: C.Args, fns: seq<UserFn>)
    requires l.options == OPTIONS && l.list.Some? && -1 <= l.firingIndex < |l.list.value| && Delivers(l, us, args)
    ensures Delivers(C.Added(l, fns), us + fns, args) && Log(C.Added(l, fns)) == Log(l)
  {
    var new_ := AddedEntries(l, fns);
    TagAppend(C.Pending(l), new_, args);
    TagIsCalls(new_, args);
    Assoc(Log(l), Tag(C.Pending(l), args), Tag(new_, args));
    RegisterMore(Log(l) + Tag(C.Pending(l), args), us, args, fns);
  }

  /** A callback added while the list runs joins the pending ones. */
  lemma LiveAddFiring(l: C.State, us: seq<UserFn>, args: C.Args, fns: seq<UserFn>)
    requires Live(l, us, args) && l.firing
    ensures Live(C.Add(l, fns), us + fns, args) && C.Add(l, fns).firing && Log(C.Add(l, fns)) == Log(l)
  {
    AddedDelivers(l, us, args, fns);
    var new_ := AddedEntries(l, fns);
    assert C.Add(l, fns) == C.Added(l, fns);
    assert C.Entries(C.Added(l, fns))[l.firingIndex] == C.Entries(l)[l.firingIndex];
  }

  lemma NovelFns(l: C.State, fns: seq<UserFn>)
    requires l.options == OPTIONS && l.list.Some?
    ensures Fns(C.Novel(l, fns)) == fns
  {
    AppendFns(l.list.value, l.nextId, fns);
  }

  lemma RecallDelivers(l: C.State, us: seq<UserFn>, args: C.Args, fns: seq<UserFn>)
    requires Live(l, us, args) && !l.firing
    ensures Delivers(C.RecallStart(l, fns), us + fns, args) && Log(C.RecallStart(l, fns)) == Log(l)
  {
    C.RecallPending(l, fns);
    NovelFns(l, fns);
    TagIsCalls(C.Novel(l, fns), args);
    assert C.Pending(l) == [] && Log(l) + [] == Log(l);
    RegisterMore(Log(l), us, args, fns);
  }

  /** A callback added after the fact: the remembered arguments are fired at once. */
  lemma LiveRecall(l: C.State, us: seq<UserFn>, args: C.Args, fns: seq<UserFn>)
    requires Live(l, us, args) && !l.firing
    ensures var n := C.Add(l, fns);
            Live(n, us + fns, args) && (n.firing ==> |Log(n)| == |Log(l)| + 1)
  {
    var s := C.RecallStart(l, fns);
    C.AddIsRecall(l, fns);
    C.RecallPending(l, fns);
    RecallDelivers(l, us, args, fns);
    if C.More(s) {
      CallNextDelivers(s, us + fns, args);
    } else {
      EndDelivers(s, us + fns, args);
    }
  }

  // ----- Runs of a Deferred

  lemma RunningFn(l: C.State, us: seq<UserFn>, args: C.Args)
    requires Live(l, us, args)
    ensures |Log(l)| <= 4 + |us|
    ensures l.firing ==> 0 < |Log(l)| && C.Entries(l)[l.firingIndex].fn == (INTERNAL + us)[|Log(l)| - 1]
    ensures !l.firing ==> |Log(l)| == 4 + |us|
  {
    var all := Calls(INTERNAL + us, args);
    CallsAt(INTERNAL + us, args, if |Log(l)| > 0 then |Log(l)| - 1 else 0);
    assert |Log(l)| > 0 ==> all[|Log(l)| - 1] == Log(l)[|Log(l)| - 1];
    if !l.firing {
      assert C.Pending(l) == [];
    }
  }

  /** Settled for good: one list has the outcome, the other is dead. */
  ghost predicate Decided(d: State, side: Side, us: seq<UserFn>, args: C.Args) {
    && d.status == Settled(side)
    && Live(List(d, side), us, args)
    && (List(d, side).firing ==> |Log(List(d, side))| > 4)
    && Dead(List(d, Other(side)))
  }

  /** The internal callbacks run first and at once; when the first `k` have, the state is set
      (k > 0) and the opposite list is dead (k > 1). */
  lemma {:induction false} DriveInternal(d: State, side: Side, us: seq<UserFn>, vs: seq<UserFn>, args: C.Args, k: nat)
    requires k <= 4 && Live(List(d, side), us, args)
    requires if List(d, side).firing then |Log(List(d, side))| == k + 1 else k == 4
    requires if k == 0 then d.status.Pending? else d.status == Settled(side)
    requires if k <= 1 then Fresh(List(d, Other(side)), vs) else Dead(List(d, Other(side)))
    ensures Decided(Drive(d, side), side, us, args)
    decreases 4 - k
  {
    var l := List(d, side);
    if k < 4 {
      InternalRuns(l, us, args, k);
      InternalReturns(l, us, args, k);
      EffectOnOther(d, side, vs, k);
      DriveStep(d, side, k);
      DriveInternal(Driven(d, side, k), side, us, vs, args, if C.Continue(l).firing then k + 1 else 4);
    } else {
      RunningFn(l, us, args);
    }
  }

  /** Once the internal callback `fn` has run and returned. */
  function Driven(d: State, side: Side, fn: nat): State {
    With(Effect(d, side, fn), side, C.Continue(List(d, side)))
  }

  lemma DriveStep(d: State, side: Side, fn: nat)
    requires RunsInternal(List(d, side)) && C.Entries(List(d, side))[List(d, side).firingIndex].fn == fn
    ensures Drive(d, side) == Drive(Driven(d, side, fn), side)
    ensures var d' := Driven(d, side, fn);
            && List(d', side) == C.Continue(List(d, side)) && d'.status == Effect(d, side, fn).status
            && List(d', Other(side)) == List(Effect(d, side, fn), Other(side))
  {
  }

  lemma InternalAt(us: seq<UserFn>, k: nat)
    requires k < 4
    ensures (INTERNAL + us)[k] == k
  {
    assert (INTERNAL + us)[k] == INTERNAL[k];
  }

  /** The k-th internal callback is the k-th to be called. */
  lemma InternalRuns(l: C.State, us: seq<UserFn>, args: C.Args, k: nat)
    requires Live(l, us, args) && l.firing && |Log(l)| == k + 1 && k < 4
    ensures RunsInternal(l) && C.Entries(l)[l.firingIndex].fn == k
  {
    RunningFn(l, us, args);
    InternalAt(us, k);
  }

  lemma InternalReturns(l: C.State, us: seq<UserFn>, args: C.Args, k: nat)
    requires Live(l, us, args) && l.firing && |Log(l)| == k + 1 && k < 4
    ensures var n := C.Continue(l); Live(n, us, args) && if n.firing then |Log(n)| == k + 2 else k == 3
  {
    LiveReturn(l, us, args);
    var n := C.Continue(l);
    if !n.firing {
      LoggedAll(n, us, args);
    }
  }

  lemma LoggedAll(l: C.State, us: seq<UserFn>, args: C.Args)
    requires Live(l, us, args) && !l.firing
    ensures |Log(l)| == 4 + |us|
  {
    RunningFn(l, us, args);
  }

  lemma EffectOnOther(d: State, side: Side, vs: seq<UserFn>, k: nat)
    requires k < 4 && if k <= 1 then Fresh(List(d, Other(side)), vs) else Dead(List(d, Other(side)))
    ensures var o := List(Effect(d, side, k), Other(side)); if k == 0 then Fresh(o, vs) else Dead(o)
    ensures Effect(d, side, k).status == if k == 0 then Settled(side) else d.status
  {
  }

  lemma DecidedStops(d: State, side: Side, us: seq<UserFn>, args: C.Args)
    requires Decided(d, side, us, args)
    ensures Drive(d, side) == d && Drive(d, Other(side)) == d
  {
    RunningFn(List(d, side), us, args);
  }

  ghost predicate Good(d: State, outcome: Outcome, us: seq<UserFn>, vs: seq<UserFn>) {
    match outcome
    case Undecided => d.status.Pending? && Fresh(d.done, us) && Fresh(d.fail, vs)
    case Chosen(side, args) => Decided(d, side, if side.Done? then us else vs, args)
  }

  lemma PendingStep(d: State, us: seq<UserFn>, vs: seq<UserFn>, op: Op)
    requires d.status.Pending? && Fresh(d.done, us) && Fresh(d.fail, vs)
    ensures Good(Step(d, op), if op.Settle? then Chosen(op.side, op.args) else Undecided,
                 us + if op.Listen? && op.side.Done? then op.fns else [],
                 vs + if op.Listen? && op.side.Fail? then op.fns else [])
  {
    assert us + [] == us && vs + [] == vs;
    match op {
      case Settle(side, args) =>
        var mine, theirs := if side.Done? then us else vs, if side.Done? then vs else us;
        FreshFire(List(d, side), mine, args);
        DriveInternal(With(d, side, C.FireWith(List(d, side), args)), side, mine, theirs, args, 0);
      case Listen(side, fns) =>
        FreshAdd(List(d, side), if side.Done? then us else vs, fns);
      case Return(side) =>
    }
  }

  lemma DecidedSettle(d: State, side: Side, us: seq<UserFn>, args: C.Args, s: Side, a: C.Args)
    requires Decided(d, side, us, args)
    ensures Step(d, Settle(s, a)) == d
  {
    assert With(d, s, C.FireWith(List(d, s), a)) == d;
    DecidedStops(d, side, us, args);
  }

  lemma DecidedListen(d: State, side: Side, us: seq<UserFn>, args: C.Args, fns: seq<UserFn>)
    requires Decided(d, side, us, args)
    ensures Decided(Step(d, Listen(side, fns)), side, us + fns, args)
  {
    var l := List(d, side);
    if l.firing {
      LiveAddFiring(l, us, args, fns);
    } else {
      LiveRecall(l, us, args, fns);
      RunningFn(l, us, args);
    }
    DecidedStops(With(d, side, C.Add(l, fns)), side, us + fns, args);
  }

  lemma DecidedListenOther(d: State, side: Side, us: seq<UserFn>, args: C.Args, fns: seq<UserFn>)
    requires Decided(d, side, us, args)
    ensures Step(d, Listen(Other(side), fns)) == d
  {
    var s := Other(side);
    assert With(d, s, C.Add(List(d, s), fns)) == d;
    DecidedStops(d, side, us, args);
  }

  lemma DecidedReturn(d: State, side: Side, us: seq<UserFn>, args: C.Args, s: Side)
    requires Decided(d, side, us, args)
    ensures Decided(Step(d, Return(s)), side, us, args)
  {
    var l := List(d, side);
    if s == side && l.firing {
      LiveReturn(l, us, args);
      DecidedStops(With(d, side, C.Continue(l)), side, us, args);
    }
  }

  lemma DecidedStep(d: State, side: Side, us: seq<UserFn>, args: C.Args, op: Op)
    requires Decided(d, side, us, args)
    ensures Decided(Step(d, op), side, us + if op.Listen? && op.side == side then op.fns else [], args)
  {
    assert us + [] == us;
    match op {
      case Settle(s, a) => DecidedSettle(d, side, us, args, s, a);
      case Listen(s, fns) =>
        if s == side {
          DecidedListen(d, side, us, args, fns);
        } else {
          DecidedListenOther(d, side, us, args, fns);
        }
      case Return(s) => DecidedReturn(d, side, us, args, s);
    }
  }

  lemma InitialIsFresh()
    ensures Good(Initial(), Undecided, [], [])
  {
    var i := C.Initial(OPTIONS);
    var r := C.Append(false, [], 0, INTERNAL);
    AppendFns([], 0, INTERNAL);
    assert r[0..] == r && INTERNAL + [] == INTERNAL;
  }

  lemma {:induction false} RunIsGood(ops: seq<Op>)
    ensures Good(Run(ops), First(ops), Registered(ops, Done), Registered(ops, Fail))
    decreases |ops|
  {
    if ops == [] {
      InitialIsFresh();
    } else {
      var before, op := ops[..|ops| - 1], ops[|ops| - 1];
      RunIsGood(before);
      match First(before) {
        case Undecided => PendingStep(Run(before), Registered(before, Done), Registered(before, Fail), op);
        case Chosen(side, args) => DecidedStep(Run(before), side, Registered(before, side), args, op);
      }
    }
  }

  /** The function that is running. */
  function Running(l: C.State): nat {
    if 0 <= l.firingIndex < |C.Entries(l)| then C.Entries(l)[l.firingIndex].fn else 0
  }

  /** The first call that settles decides the state and the arguments; the losing side calls
      nothing; the winning side has called, in registration order, a prefix of the internal
      callbacks followed by everything ever registered on it, and all of it once none runs. */
  ghost predicate Promised(d: State, ops: seq<Op>) {
    var outcome := First(ops);
    if outcome.Undecided? then d.status.Pending? && Log(d.done) == [] && Log(d.fail) == []
    else
      var winner, all := List(d, outcome.side), Calls(INTERNAL + Registered(ops, outcome.side), outcome.args);
      && d.status == Settled(outcome.side)
      && Log(List(d, Other(outcome.side))) == []
      && 4 <= |Log(winner)| && Log(winner) <= all
      && (!winner.firing ==> Log(winner) == all)
      && (winner.firing ==> 4 < |Log(winner)| && Running(winner) == Log(winner)[|Log(winner)| - 1].0)
  }

  lemma DecidedLogs(d: State, side: Side, us: seq<UserFn>, args: C.Args)
    requires Decided(d, side, us, args)
    ensures var log, all := Log(List(d, side)), Calls(INTERNAL + us, args);
            4 <= |log| && log <= all && (!List(d, side).firing ==> log == all)
    ensures Log(List(d, Other(side))) == []
    ensures var l := List(d, side); l.firing ==> 4 < |Log(l)| && Running(l) == Log(l)[|Log(l)| - 1].0
  {
    var l := List(d, side);
    RunningFn(l, us, args);
    assert Log(l) + Tag(C.Pending(l), args) == Calls(INTERNAL + us, args);
    CallsAt(INTERNAL + us, args, 0);
  }

  lemma DecidedIsPromised(d: State, ops: seq<Op>, side: Side, args: C.Args)
    requires First(ops) == Chosen(side, args) && Decided(d, side, Registered(ops, side), args)
    ensures Promised(d, ops)
  {
    DecidedLogs(d, side, Registered(ops, side), args);
  }

  lemma FreshLogs(l: C.State, us: seq<UserFn>)
    requires Fresh(l, us)
    ensures Log(l) == []
  {
  }

  /** Over every run of nested or repeated operations. */
  lemma SettlesOnce(ops: seq<Op>)
    ensures Promised(Run(ops), ops)
  {
    RunIsGood(ops);
    match First(ops) {
      case Undecided =>
        FreshLogs(Run(ops).done, Registered(ops, Done));
        FreshLogs(Run(ops).fail, Registered(ops, Fail));
      case Chosen(side, args) =>
        DecidedIsPromised(Run(ops), ops, side, args);
    }
  }

  /** Once settled, no later operation changes the state. */
  lemma {:induction false} StateIsFinal(ops: seq<Op>, more: seq<Op>)
    requires !Run(ops).status.Pending?
    ensures Run(ops + more).status == Run(ops).status
    decreases |more|
  {
    SettlesOnce(ops);
    SettlesOnce(ops + more);
    FirstIsFinal(ops, more);
  }

  lemma {:induction false} FirstIsFinal(ops: seq<Op>, more: seq<Op>)
    requires First(ops).Chosen?
    ensures First(ops + more) == First(ops)
    decreases |more|
  {
    if more == [] {
      assert ops + more == ops;
    } else {
      assert (ops + more)[..|ops + more| - 1] == ops + more[..|more| - 1];
      FirstIsFinal(ops, more[..|more| - 1]);
    }
  }

  // ----- Delivery makes progress

  /** The list that the outcome has chosen. */
  function Winner(ops: seq<Op>): C.State
    requires First(ops).Chosen?
  {
    List(Run(ops), First(ops).side)
  }

  /** All calls that the winning side owes. */
  function Due(ops: seq<Op>): seq<Call>
    requires First(ops).Chosen?
  {
    Calls(INTERNAL + Registered(ops, First(ops).side), First(ops).args)
  }

  lemma ReturnChoosesNothing(ops: seq<Op>, side: Side)
    ensures First(ops + [Return(side)]) == First(ops)
    ensures forall s :: Registered(ops + [Return(side)], s) == Registered(ops, s)
    ensures Run(ops + [Return(side)]) == Step(Run(ops), Return(side))
  {
    assert (ops + [Return(side)])[..|ops + [Return(side)]| - 1] == ops;
    forall s ensures Registered(ops, s) + [] == Registered(ops, s) {
    }
  }

  /** The return of a callback has the next one called, or ends the firing with everything
      called. */
  lemma ReturnProgress(ops: seq<Op>)
    requires First(ops).Chosen? && Winner(ops).firing
    ensures var more := ops + [Return(First(ops).side)];
            && First(more) == First(ops) && Due(more) == Due(ops)
            && if Winner(more).firing then |Log(Winner(more))| == |Log(Winner(ops))| + 1 else Log(Winner(more)) == Log(Winner(ops)) == Due(ops)
  {
    var outcome := First(ops);
    RunIsGood(ops);
    ReturnChoosesNothing(ops, outcome.side);
    ReturnOnce(Run(ops), outcome.side, Registered(ops, outcome.side), outcome.args);
  }

  lemma ReturnOnce(d: State, side: Side, us: seq<UserFn>, args: C.Args)
    requires Decided(d, side, us, args) && List(d, side).firing
    ensures var l, l' := List(d, side), List(Step(d, Return(side)), side);
            if l'.firing then |Log(l')| == |Log(l)| + 1 else Log(l') == Log(l) == Calls(INTERNAL + us, args)
  {
    LiveReturn(List(d, side), us, args);
    ReturnIsContinue(d, side, us, args);
    DecidedReturn(d, side, us, args, side);
    DecidedLogs(Step(d, Return(side)), side, us, args);
  }

  lemma ReturnIsContinue(d: State, side: Side, us: seq<UserFn>, args: C.Args)
    requires Decided(d, side, us, args) && List(d, side).firing
    ensures List(Step(d, Return(side)), side) == C.Continue(List(d, side))
  {
    LiveReturn(List(d, side), us, args);
    ContinueDecided(d, side, us, args);
    DecidedStops(With(d, side, C.Continue(List(d, side))), side, us, args);
  }

  lemma ContinueDecided(d: State, side: Side, us: seq<UserFn>, args: C.Args)
    requires Decided(d, side, us, args) && List(d, side).firing
    ensures Decided(With(d, side, C.Continue(List(d, side))), side, us, args)
  {
    LiveReturn(List(d, side), us, args);
  }

  function Returns(side: Side, n: nat): seq<Op> {
    if n == 0 then [] else [Return(side)] + Returns(side, n - 1)
  }

  lemma ReturnsFirst(ops: seq<Op>, side: Side, n: nat)
    requires n > 0
    ensures ops + Returns(side, n) == (ops + [Return(side)]) + Returns(side, n - 1)
  {
  }

  /** From every run, finitely many returns bring the winning side to rest, and then it has
      called everything ever registered on it, once each, in order and with the first
      arguments. */
  lemma {:induction false} AllAreCalled(ops: seq<Op>) returns (n: nat)
    requires First(ops).Chosen?
    ensures var more := ops + Returns(First(ops).side, n);
            First(more) == First(ops) && !Winner(more).firing && Log(Winner(more)) == Due(ops)
    decreases |Due(ops)| - |Log(Winner(ops))|, Winner(ops).firing
  {
    var side := First(ops).side;
    if Winner(ops).firing {
      var more := ops + [Return(side)];
      ReturnProgress(ops);
      LogIsPart(more);
      var m := AllAreCalled(more);
      n := m + 1;
      ReturnsFirst(ops, side, n);
    } else {
      n := 0;
      LogIsPart(ops);
      assert ops + [] == ops;
    }
  }

  lemma LogIsPart(ops: seq<Op>)
    requires First(ops).Chosen?
    ensures |Log(Winner(ops))| <= |Due(ops)|
    ensures !Winner(ops).firing ==> Log(Winner(ops)) == Due(ops)
  {
    SettlesOnce(ops);
  }
}
