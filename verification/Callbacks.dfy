/** jQuery.Callbacks: a list whose callbacks may add and remove callbacks, or fire the list
    again, while they run.  JavaScript runs one callback at a time, so every run is a sequence
    of operations in which `Return` marks that the running callback has ended. */
module Callbacks {
  import opened Collections

  type Args = nat

  /** The options that matter here; stopOnFalse is not among them. */
  datatype Options = Options(once: bool, memory: bool, unique: bool)

  /** One registration.  The code only ever looks at `fn`; `id` numbers registrations so that
      two registrations of one function can be told apart. */
  datatype Entry = Entry(fn: nat, id: nat)

  /** One traversal of the list: its arguments, the list and the pending part of it when the
      pass began, the registrations it had to serve, those it ran, and the ids of those
      withdrawn before their turn. */
  datatype Pass = Pass(
    args: Args, whole: seq<Entry>, first: seq<Entry>, roster: seq<Entry>, called: seq<Entry>, dropped: set<nat>)

  /** The variables of the closure, then the history.  `list` is None once it is `""`, and
      `memory` is None while it is falsy.  `accepted` are the values queued and not aborted;
      `recalls` are the indices among them of those that add queued from memory. */
  datatype State = State(
    options: Options, list: Option<seq<Entry>>, queue: seq<Args>, firing: bool, firingIndex: int,
    memory: Option<Args>, locked: bool, fired: bool,
    nextId: nat, finished: seq<Pass>, current: Option<Pass>, accepted: seq<Args>, recalls: set<nat>)

  function Initial(o: Options): State {
    State(o, Some([]), [], false, -1, None, false, false, 0, [], None, [], {})
  }

  // ----- The operations

  predicate Has(l: seq<Entry>, fn: nat) {
    exists i :: 0 <= i < |l| && l[i].fn == fn
  }

  /** list.push for every function, skipping known ones when `unique` is set. */
  function Append(unique: bool, l: seq<Entry>, id: nat, fns: seq<nat>): (r: seq<Entry>)
    ensures |l| <= |r| && r[..|l|] == l
    decreases |fns|
  {
    if fns == [] then l
    else if unique && Has(l, fns[0]) then Append(unique, l, id, fns[1..])
    else Append(unique, l + [Entry(fns[0], id)], id + 1, fns[1..])
  }

  function Without(l: seq<Entry>, fn: nat): seq<Entry> {
    if l == [] then [] else (if l[0].fn == fn then [] else [l[0]]) + Without(l[1..], fn)
  }

  function Ids(l: seq<Entry>): set<nat> {
    set i | 0 <= i < |l| :: l[i].id
  }

  function IdsOf(l: seq<Entry>, fn: nat): set<nat> {
    set i | 0 <= i < |l| && l[i].fn == fn :: l[i].id
  }

  function Entries(s: State): seq<Entry> {
    if s.list.Some? then s.list.value else []
  }

  /** The part of the list after firingIndex. */
  function Pending(s: State): seq<Entry> {
    if More(s) then Entries(s)[s.firingIndex + 1..] else []
  }

  function Drop(p: Option<Pass>, ids: set<nat>): Option<Pass> {
    if p.Some? then Some(p.value.(dropped := p.value.dropped + ids)) else None
  }

  predicate More(s: State) {
    0 <= s.firingIndex + 1 < |Entries(s)|
  }

  function CallNext(s: State): State
    requires More(s)
  {
    var i := s.firingIndex + 1;
    s.(firingIndex := i,
       current := if s.current.None? then None
                  else Some(s.current.value.(called := s.current.value.called + [Entries(s)[i]])))
  }

  function EndPass(s: State): State {
    s.(firingIndex := -1, current := None,
       finished := if s.current.Some? then s.finished + [s.current.value] else s.finished)
  }

  function StartPass(s: State): State
    requires s.queue != []
  {
    s.(memory := Some(s.queue[0]), queue := s.queue[1..],
       current := Some(Pass(s.queue[0], Entries(s), Pending(s), Pending(s), [], {})))
  }

  /** The inner loop of fire, up to the next callback that it runs. */
  function Continue(s: State): State
    decreases |s.queue|, 1
  {
    if More(s) then CallNext(s) else NextPass(EndPass(s))
  }

  /** The outer loop of fire. */
  function NextPass(s: State): State
    decreases |s.queue|, 0
  {
    if s.queue == [] then Finish(s) else Continue(StartPass(s))
  }

  function Finish(s: State): State {
    var memory := if s.options.memory then s.memory else None;
    s.(memory := memory, firing := false,
       list := if !s.locked then s.list else if memory.Some? then Some([]) else None)
  }

  function Fire(s: State): State {
    NextPass(s.(locked := s.options.once, fired := true, firing := true))
  }

  function Added(s: State, fns: seq<nat>): State {
    var l := Entries(s);
    var r := Append(s.options.unique, l, s.nextId, fns);
    s.(list := Some(r), nextId := s.nextId + |r| - |l|,
       current := Grown(s.current, r[|l|..]))
  }

  function Grown(p: Option<Pass>, new_: seq<Entry>): Option<Pass> {
    if p.Some? then Some(p.value.(roster := p.value.roster + new_)) else None
  }

  /** The registrations that add makes. */
  function Novel(s: State, fns: seq<nat>): seq<Entry> {
    Append(s.options.unique, Entries(s), s.nextId, fns)[|Entries(s)|..]
  }

  /** The list as add leaves it just before it fires the remembered value again. */
  function Recalled(s: State): State
    requires s.list.Some? && s.memory.Some?
  {
    s.(firingIndex := |s.list.value| - 1, queue := s.queue + [s.memory.value],
       accepted := s.accepted + [s.memory.value], recalls := s.recalls + {|s.accepted|})
  }

  function Add(s: State, fns: seq<nat>): State {
    if s.list.None? then s
    else if s.memory.Some? && !s.firing then
      Fire(Added(Recalled(s), fns))
    else Added(s, fns)
  }

  /** Removing one function: its registrations leave both sides of firingIndex. */
  function Remove(s: State, fn: nat): State {
    if s.list.None? then s
    else
      var l := s.list.value;
      var split := if s.firingIndex + 1 < 0 then 0 else if s.firingIndex + 1 <= |l| then s.firingIndex + 1 else |l|;
      s.(list := Some(Without(l, fn)),
         firingIndex := s.firingIndex - (split - |Without(l[..split], fn)|),
         current := Drop(s.current, IdsOf(Pending(s), fn)))
  }

  function RemoveAll(s: State, fns: seq<nat>): State
    decreases |fns|
  {
    if fns == [] then s else RemoveAll(Remove(s, fns[0]), fns[1..])
  }

  function Unqueued(s: State): seq<Args> {
    if |s.queue| <= |s.accepted| then s.accepted[..|s.accepted| - |s.queue|] else []
  }

  function Disable(s: State): State {
    s.(locked := true, queue := [], list := None, memory := None, accepted := Unqueued(s),
       current := Drop(s.current, Ids(Pending(s))))
  }

  function Lock(s: State): State {
    var s := s.(locked := true, queue := [], accepted := Unqueued(s));
    if s.memory.None? && !s.firing then s.(list := None) else s
  }

  function FireWith(s: State, args: Args): State {
    if s.locked then s
    else
      var s := s.(queue := s.queue + [args], accepted := s.accepted + [args]);
      if s.firing then s else Fire(s)
  }

  datatype Op = OpAdd(fns: seq<nat>) | OpRemove(fn: nat) | OpFireWith(args: Args) | OpLock | OpDisable | OpReturn

  function Step(s: State, op: Op): State {
    match op
    case OpAdd(fns) => Add(s, fns)
    case OpRemove(fn) => Remove(s, fn)
    case OpFireWith(args) => FireWith(s, args)
    case OpLock => Lock(s)
    case OpDisable => Disable(s)
    case OpReturn => if s.firing then Continue(s) else s
  }

  function Run(s: State, ops: seq<Op>): State
    decreases |ops|
  {
    if ops == [] then s else Step(Run(s, ops[..|ops| - 1]), ops[|ops| - 1])
  }

  // ----- What every run keeps

  /** The registrations of `l` that are not withdrawn, in order. */
  function Keep(l: seq<Entry>, dropped: set<nat>): seq<Entry> {
    if l == [] then [] else (if l[0].id in dropped then [] else [l[0]]) + Keep(l[1..], dropped)
  }

  /** The ids of `l` increase, from `lo` on and below `hi`. */
  predicate Ordered(l: seq<Entry>, lo: nat, hi: nat)
    decreases |l|
  {
    if l == [] then lo <= hi else lo <= l[0].id && Ordered(l[1..], l[0].id + 1, hi)
  }

  function ArgsOf(passes: seq<Pass>): seq<Args> {
    if passes == [] then [] else ArgsOf(passes[..|passes| - 1]) + [passes[|passes| - 1].args]
  }

  function Shown(s: State): seq<Args> {
    ArgsOf(s.finished) + (if s.current.Some? then [s.current.value.args] else []) + s.queue
  }

  /** A finished pass ran exactly its roster less what was withdrawn in time, once each and
      in registration order. */
  ghost predicate Exact(p: Pass) {
    p.called == Keep(p.roster, p.dropped) && Ordered(p.roster, 0, End(p.roster))
  }

  function End(l: seq<Entry>): nat {
    if l == [] then 0 else l[|l| - 1].id + 1
  }

  ghost predicate Indexed(s: State) {
    && -1 <= s.firingIndex
    && (s.list.Some? ==> s.firingIndex < |s.list.value|)
    && Ordered(Entries(s), 0, s.nextId)
  }

  /** A pass in progress has run, and still has to run, its roster less what was withdrawn. */
  ghost predicate OnTrack(s: State) {
    s.current.Some? ==>
      var p := s.current.value;
      && p.called + Pending(s) == Keep(p.roster, p.dropped)
      && Ordered(p.roster, 0, s.nextId)
      && forall d :: d in p.dropped ==> d < s.nextId
  }

  ghost predicate Invariant(s: State) {
    && Indexed(s) && OnTrack(s)
    && (s.firing <==> s.current.Some?)
    && (!s.firing ==> s.queue == [] && s.firingIndex == -1)
    && Shown(s) == s.accepted
    && forall i :: 0 <= i < |s.finished| ==> Exact(s.finished[i])
  }

  // ----- Filtering registrations

  lemma {:induction false} KeepAppend(a: seq<Entry>, b: seq<Entry>, d: set<nat>)
    ensures Keep(a + b, d) == Keep(a, d) + Keep(b, d)
    decreases |a|
  {
    if a == [] {
      assert a + b == b;
    } else {
      assert (a + b)[1..] == a[1..] + b;
      KeepAppend(a[1..], b, d);
    }
  }

  lemma {:induction false} KeepAll(l: seq<Entry>, d: set<nat>)
    requires forall i :: 0 <= i < |l| ==> l[i].id !in d
    ensures Keep(l, d) == l
    decreases |l|
  {
    if l != [] {
      KeepAll(l[1..], d);
    }
  }

  lemma {:induction false} KeepTwice(l: seq<Entry>, d: set<nat>, x: set<nat>)
    ensures Keep(Keep(l, d), x) == Keep(l, d + x)
    decreases |l|
  {
    if l != [] {
      KeepTwice(l[1..], d, x);
      KeepAppend(if l[0].id in d then [] else [l[0]], Keep(l[1..], d), x);
    }
  }

  lemma {:induction false} WithoutAppend(a: seq<Entry>, b: seq<Entry>, fn: nat)
    ensures Without(a + b, fn) == Without(a, fn) + Without(b, fn)
    decreases |a|
  {
    if a == [] {
      assert a + b == b;
    } else {
      assert (a + b)[1..] == a[1..] + b;
      WithoutAppend(a[1..], b, fn);
    }
  }

  lemma {:induction false} OrderedWiden(l: seq<Entry>, lo: nat, hi: nat, lo': nat, hi': nat)
    requires Ordered(l, lo, hi) && lo' <= lo && hi <= hi'
    ensures Ordered(l, lo', hi')
    decreases |l|
  {
    if l != [] {
      OrderedWiden(l[1..], l[0].id + 1, hi, l[0].id + 1, hi');
    }
  }

  lemma {:induction false} OrderedTight(l: seq<Entry>, lo: nat, hi: nat)
    requires Ordered(l, lo, hi)
    ensures l != [] ==> Ordered(l, lo, End(l))
    decreases |l|
  {
    if l != [] {
      OrderedTight(l[1..], l[0].id + 1, hi);
    }
  }

  lemma {:induction false} OrderedBounds(l: seq<Entry>, lo: nat, hi: nat)
    requires Ordered(l, lo, hi)
    ensures lo <= hi && forall i :: 0 <= i < |l| ==> lo <= l[i].id < hi
    decreases |l|
  {
    if l != [] {
      OrderedBounds(l[1..], l[0].id + 1, hi);
    }
  }

  lemma {:induction false} OrderedConcat(a: seq<Entry>, b: seq<Entry>, lo: nat, mid: nat, hi: nat)
    requires Ordered(a, lo, mid) && Ordered(b, mid, hi)
    ensures Ordered(a + b, lo, hi)
    decreases |a|
  {
    if a == [] {
      assert a + b == b;
      OrderedWiden(b, mid, hi, lo, hi);
    } else {
      assert (a + b)[1..] == a[1..] + b;
      OrderedConcat(a[1..], b, a[0].id + 1, mid, hi);
    }
  }

  lemma {:induction false} OrderedSplit(a: seq<Entry>, b: seq<Entry>, lo: nat, hi: nat)
    requires Ordered(a + b, lo, hi)
    ensures Ordered(b, lo, hi)
    ensures forall i, j :: 0 <= i < |a| && 0 <= j < |b| ==> a[i].id < b[j].id
    decreases |a|
  {
    if a == [] {
      assert a + b == b;
    } else {
      assert (a + b)[1..] == a[1..] + b;
      OrderedSplit(a[1..], b, a[0].id + 1, hi);
      OrderedBounds(b, a[0].id + 1, hi);
      OrderedWiden(b, a[0].id + 1, hi, lo, hi);
    }
  }

  lemma {:induction false} KeepOrdered(l: seq<Entry>, d: set<nat>, lo: nat, hi: nat)
    requires Ordered(l, lo, hi)
    ensures Ordered(Keep(l, d), lo, hi)
    decreases |l|
  {
    if l != [] {
      KeepOrdered(l[1..], d, l[0].id + 1, hi);
      if l[0].id in d {
        assert Keep(l, d) == Keep(l[1..], d);
        OrderedWiden(Keep(l[1..], d), l[0].id + 1, hi, lo, hi);
      } else {
        assert Keep(l, d)[0] == l[0] && Keep(l, d)[1..] == Keep(l[1..], d);
      }
    }
  }

  lemma {:induction false} WithoutOrdered(l: seq<Entry>, fn: nat, lo: nat, hi: nat)
    requires Ordered(l, lo, hi)
    ensures Ordered(Without(l, fn), lo, hi) && |Without(l, fn)| <= |l|
    decreases |l|
  {
    if l != [] {
      WithoutOrdered(l[1..], fn, l[0].id + 1, hi);
      if l[0].fn == fn {
        assert Without(l, fn) == Without(l[1..], fn);
        OrderedWiden(Without(l[1..], fn), l[0].id + 1, hi, lo, hi);
      } else {
        assert Without(l, fn)[0] == l[0] && Without(l, fn)[1..] == Without(l[1..], fn);
      }
    }
  }

  /** Ids tell the registrations of one function apart from the others. */
  lemma {:induction false} IdsOfExact(l: seq<Entry>, fn: nat, lo: nat, hi: nat)
    requires Ordered(l, lo, hi)
    ensures forall i :: 0 <= i < |l| ==> (l[i].id in IdsOf(l, fn) <==> l[i].fn == fn)
  {
    forall i, j | 0 <= i < j < |l| ensures l[i].id < l[j].id {
      assert l == l[..j] + l[j..];
      OrderedSplit(l[..j], l[j..], lo, hi);
      assert l[..j][i].id < l[j..][0].id;
    }
  }

  /** Withdrawing a function and withdrawing its ids are the same where ids are distinct. */
  lemma {:induction false} WithoutIsKeep(l: seq<Entry>, fn: nat, ids: set<nat>)
    requires forall i :: 0 <= i < |l| ==> (l[i].id in ids <==> l[i].fn == fn)
    ensures Without(l, fn) == Keep(l, ids)
    decreases |l|
  {
    if l != [] {
      assert forall i :: 0 <= i < |l[1..]| ==> l[1..][i] == l[i + 1];
      WithoutIsKeep(l[1..], fn, ids);
    }
  }

  lemma {:induction false} AppendOrdered(unique: bool, l: seq<Entry>, id: nat, fns: seq<nat>)
    ensures Ordered(Append(unique, l, id, fns)[|l|..], id, id + |Append(unique, l, id, fns)| - |l|)
    decreases |fns|
  {
    if fns != [] {
      if unique && Has(l, fns[0]) {
        AppendOrdered(unique, l, id, fns[1..]);
      } else {
        var l' := l + [Entry(fns[0], id)];
        AppendOrdered(unique, l', id + 1, fns[1..]);
        var r := Append(unique, l', id + 1, fns[1..]);
        assert r[|l|] == r[..|l'|][|l|] == Entry(fns[0], id);
        assert r[|l|..][1..] == r[|l'|..];
      }
    }
  }

  // ----- Every step keeps the invariant

  /** Between two passes of fire. */
  ghost predicate Between(s: State) {
    && Indexed(s) && s.firing && s.current.None?
    && (s.queue == [] ==> s.firingIndex == -1)
    && Shown(s) == s.accepted
    && forall i :: 0 <= i < |s.finished| ==> Exact(s.finished[i])
  }

  lemma OrderedDrop(l: seq<Entry>, k: nat, lo: nat, hi: nat)
    requires k <= |l| && Ordered(l, lo, hi)
    ensures Ordered(l[k..], lo, hi)
  {
    assert l == l[..k] + l[k..];
    OrderedSplit(l[..k], l[k..], lo, hi);
  }

  lemma PendingOrdered(s: State)
    requires Indexed(s)
    ensures Ordered(Pending(s), 0, s.nextId)
  {
    if s.list.Some? {
      OrderedDrop(s.list.value, s.firingIndex + 1, 0, s.nextId);
    }
  }

  lemma StartPassShown(s: State)
    requires s.current.None? && s.queue != []
    ensures Shown(StartPass(s)) == Shown(s)
  {
    assert s.queue == [s.queue[0]] + s.queue[1..];
  }

  lemma StartPassKeeps(s: State)
    requires Between(s) && s.queue != []
    ensures Invariant(StartPass(s))
  {
    PendingOrdered(s);
    FreshPass(Pending(s));
    StartPassShown(s);
    StartPassPending(s);
  }

  lemma StartPassPending(s: State)
    requires s.queue != []
    ensures Pending(StartPass(s)) == Pending(s) && (Indexed(s) ==> Indexed(StartPass(s)))
  {
  }

  lemma FreshPass(pending: seq<Entry>)
    ensures [] + pending == Keep(pending, {})
  {
    KeepAll(pending, {});
    assert [] + pending == pending;
  }

  lemma CallNextKeeps(s: State)
    requires Invariant(s) && s.firing && More(s)
    ensures Invariant(CallNext(s))
  {
    PendingNext(s, s.current.value.called);
    assert Shown(CallNext(s)) == Shown(s);
  }

  lemma PendingNext(s: State, called: seq<Entry>)
    requires More(s)
    ensures called + Pending(s) == (called + [Entries(s)[s.firingIndex + 1]]) + Pending(CallNext(s))
  {
    assert Pending(s) == [Entries(s)[s.firingIndex + 1]] + Pending(CallNext(s));
  }

  lemma EndPassKeeps(s: State)
    requires Invariant(s) && s.firing && Pending(s) == []
    ensures Between(EndPass(s))
  {
    PassIsExact(s.current.value, s.nextId);
    EndPassShown(s);
    var e := EndPass(s);
    forall i | 0 <= i < |e.finished| ensures Exact(e.finished[i]) {
      assert i < |s.finished| ==> e.finished[i] == s.finished[i];
    }
  }

  lemma PassIsExact(p: Pass, bound: nat)
    requires p.called + [] == Keep(p.roster, p.dropped) && Ordered(p.roster, 0, bound)
    ensures Exact(p)
  {
    assert p.called + [] == p.called;
    OrderedTight(p.roster, 0, bound);
  }

  lemma EndPassShown(s: State)
    requires s.current.Some?
    ensures Shown(EndPass(s)) == Shown(s)
  {
    assert EndPass(s).finished[..|s.finished|] == s.finished;
  }

  lemma FinishKeeps(s: State)
    requires Between(s) && s.queue == []
    ensures Invariant(Finish(s))
  {
    assert Shown(Finish(s)) == Shown(s);
  }

  lemma {:induction false} NextPassKeeps(s: State)
    requires Between(s)
    ensures Invariant(NextPass(s))
    decreases |s.queue|, 0
  {
    if s.queue == [] {
      FinishKeeps(s);
    } else {
      StartPassKeeps(s);
      ContinueKeeps(StartPass(s));
    }
  }

  lemma {:induction false} ContinueKeeps(s: State)
    requires Invariant(s) && s.firing
    ensures Invariant(Continue(s))
    decreases |s.queue|, 1
  {
    if More(s) {
      CallNextKeeps(s);
    } else {
      assert Pending(s) == [];
      EndPassKeeps(s);
      NextPassKeeps(EndPass(s));
    }
  }

  lemma AddedKeeps(s: State, fns: seq<nat>)
    requires Indexed(s) && OnTrack(s) && s.list.Some?
    ensures Indexed(Added(s, fns)) && OnTrack(Added(s, fns))
    ensures Shown(Added(s, fns)) == Shown(s)
  {
    AddedIndexed(s, fns);
    if s.current.Some? {
      AddedOnTrack(s, fns);
    }
  }

  lemma AddedIndexed(s: State, fns: seq<nat>)
    requires Indexed(s) && s.list.Some?
    ensures Indexed(Added(s, fns))
  {
    var l := s.list.value;
    var r := Append(s.options.unique, l, s.nextId, fns);
    AppendOrdered(s.options.unique, l, s.nextId, fns);
    assert r == l + r[|l|..];
    OrderedConcat(l, r[|l|..], 0, s.nextId, s.nextId + |r| - |l|);
  }

  lemma AddedOnTrack(s: State, fns: seq<nat>)
    requires Indexed(s) && OnTrack(s) && s.list.Some? && s.current.Some?
    ensures OnTrack(Added(s, fns))
  {
    NovelOrdered(s, fns);
    AddedPending(s, fns);
    RosterGrows(s.current.value, Pending(s), Novel(s, fns), s.nextId, Added(s, fns).nextId);
  }

  lemma NovelOrdered(s: State, fns: seq<nat>)
    requires s.list.Some?
    ensures Ordered(Novel(s, fns), s.nextId, Added(s, fns).nextId)
  {
    AppendOrdered(s.options.unique, s.list.value, s.nextId, fns);
  }

  lemma AddedPending(s: State, fns: seq<nat>)
    requires s.list.Some? && -1 <= s.firingIndex < |s.list.value|
    ensures Pending(Added(s, fns)) == Pending(s) + Novel(s, fns) && Entries(Added(s, fns)) == s.list.value + Novel(s, fns)
  {
    assert Entries(Added(s, fns)) == s.list.value + Novel(s, fns);
  }

  /** New registrations join both the roster and the pending part of the list. */
  lemma RosterGrows(p: Pass, pending: seq<Entry>, new_: seq<Entry>, bound: nat, bound': nat)
    requires p.called + pending == Keep(p.roster, p.dropped) && Ordered(p.roster, 0, bound)
    requires forall d :: d in p.dropped ==> d < bound
    requires Ordered(new_, bound, bound')
    ensures p.called + (pending + new_) == Keep(p.roster + new_, p.dropped)
    ensures Ordered(p.roster + new_, 0, bound')
  {
    KeepAppend(p.roster, new_, p.dropped);
    OrderedBounds(new_, bound, bound');
    KeepAll(new_, p.dropped);
    OrderedConcat(p.roster, new_, 0, bound, bound');
    assert p.called + (pending + new_) == (p.called + pending) + new_;
  }

  lemma FireKeeps(s: State)
    requires Indexed(s) && s.current.None? && s.queue != [] && Shown(s) == s.accepted
    requires forall i :: 0 <= i < |s.finished| ==> Exact(s.finished[i])
    ensures Invariant(Fire(s))
  {
    var f := s.(locked := s.options.once, fired := true, firing := true);
    assert Shown(f) == Shown(s);
    NextPassKeeps(f);
  }

  lemma AddKeeps(s: State, fns: seq<nat>)
    requires Invariant(s)
    ensures Invariant(Add(s, fns))
  {
    if s.list.Some? {
      if s.memory.Some? && !s.firing {
        var s' := Recalled(s);
        assert Shown(s') == Shown(s) + [s.memory.value];
        AddedKeeps(s', fns);
        FireKeeps(Added(s', fns));
        assert Add(s, fns) == Fire(Added(s', fns));
      } else {
        AddedKeeps(s, fns);
      }
    }
  }

  /** Removal splits at firingIndex. */
  lemma RemoveSplits(s: State, fn: nat)
    requires Indexed(s) && s.list.Some?
    ensures Indexed(Remove(s, fn)) && Pending(Remove(s, fn)) == Without(Pending(s), fn)
  {
    var l := s.list.value;
    var before, pending := l[..s.firingIndex + 1], l[s.firingIndex + 1..];
    assert l == before + pending;
    WithoutAppend(before, pending, fn);
    WithoutOrdered(l, fn, 0, s.nextId);
    assert Remove(s, fn).firingIndex + 1 == |Without(before, fn)|;
  }

  lemma RemoveKeeps(s: State, fn: nat)
    requires Invariant(s)
    ensures Invariant(Remove(s, fn))
  {
    if s.list.Some? {
      RemoveSplits(s, fn);
      if s.current.Some? {
        var p, pending := s.current.value, Pending(s);
        DropKeeps(p, pending, IdsOf(pending, fn), s.nextId);
        IdsOfExact(pending, fn, 0, s.nextId);
        WithoutIsKeep(pending, fn, IdsOf(pending, fn));
      }
      assert Shown(Remove(s, fn)) == Shown(s);
    }
  }

  /** Withdrawing pending registrations leaves those already run untouched. */
  lemma DropKeeps(p: Pass, pending: seq<Entry>, ids: set<nat>, bound: nat)
    requires p.called + pending == Keep(p.roster, p.dropped) && Ordered(p.roster, 0, bound)
    requires ids <= Ids(pending)
    ensures Keep(p.roster, p.dropped + ids) == p.called + Keep(pending, ids)
    ensures Ordered(pending, 0, bound)
    ensures forall d :: d in ids ==> d < bound
  {
    KeepTwice(p.roster, p.dropped, ids);
    KeepAppend(p.called, pending, ids);
    KeepOrdered(p.roster, p.dropped, 0, bound);
    OrderedSplit(p.called, pending, 0, bound);
    OrderedBounds(pending, 0, bound);
    KeepAll(p.called, ids);
  }

  lemma DisableKeeps(s: State)
    requires Invariant(s)
    ensures Invariant(Disable(s))
  {
    ShownUnqueued(s);
    assert Shown(Disable(s)) == Disable(s).accepted;
    if s.current.Some? {
      var pending := Pending(s);
      DropKeeps(s.current.value, pending, Ids(pending), s.nextId);
      KeepNone(pending, Ids(pending));
    }
  }

  lemma {:induction false} KeepNone(l: seq<Entry>, d: set<nat>)
    requires Ids(l) <= d
    ensures Keep(l, d) == []
    decreases |l|
  {
    if l != [] {
      assert l[0].id in Ids(l);
      assert forall i :: 0 <= i < |l[1..]| ==> l[1..][i] == l[i + 1];
      KeepNone(l[1..], d);
    }
  }

  lemma FireWithKeeps(s: State, args: Args)
    requires Invariant(s)
    ensures Invariant(FireWith(s, args))
  {
    var s' := s.(queue := s.queue + [args], accepted := s.accepted + [args]);
    assert Shown(s') == Shown(s) + [args];
    if !s.locked && !s.firing {
      FireKeeps(s');
    }
  }

  function Aborted(s: State): State {
    s.(locked := true, queue := [], accepted := Unqueued(s))
  }

  lemma AbortKeeps(s: State)
    requires Invariant(s)
    ensures Invariant(Aborted(s))
  {
    ShownUnqueued(s);
    assert Shown(Aborted(s)) == Unqueued(s);
    assert Pending(Aborted(s)) == Pending(s);
  }

  lemma LockKeeps(s: State)
    requires Invariant(s)
    ensures Invariant(Lock(s))
  {
    AbortKeeps(s);
    var a := Aborted(s);
    if s.memory.None? && !s.firing {
      assert Lock(s) == a.(list := None) && Shown(Lock(s)) == Shown(a);
    } else {
      assert Lock(s) == a;
    }
  }

  /** Aborting what is queued leaves the values of the passes. */
  lemma ShownUnqueued(s: State)
    requires s.accepted == Shown(s)
    ensures Unqueued(s) == ArgsOf(s.finished) + if s.current.Some? then [s.current.value.args] else []
  {
  }

  lemma StepInvariant(s: State, op: Op)
    requires Invariant(s)
    ensures Invariant(Step(s, op))
  {
    match op {
      case OpAdd(fns) => AddKeeps(s, fns);
      case OpRemove(fn) => RemoveKeeps(s, fn);
      case OpFireWith(args) => FireWithKeeps(s, args);
      case OpLock => LockKeeps(s);
      case OpDisable => DisableKeeps(s);
      case OpReturn =>
        if s.firing {
          ContinueKeeps(s);
        }
    }
  }

  lemma {:induction false} RunInvariant(o: Options, ops: seq<Op>)
    ensures Invariant(Run(Initial(o), ops))
    decreases |ops|
  {
    if ops != [] {
      RunInvariant(o, ops[..|ops| - 1]);
      StepInvariant(Run(Initial(o), ops[..|ops| - 1]), ops[|ops| - 1]);
    }
  }

  // ----- Passes are whole

  /** The pass began with the whole list, unless add recalled a value for new registrations;
      what was added since comes after what it began with. */
  ghost predicate Whole(p: Pass, recalled: bool) {
    p.first <= p.roster && (!recalled ==> p.first == p.whole)
  }

  ghost predicate Served(s: State) {
    && (forall i :: 0 <= i < |s.finished| ==> Whole(s.finished[i], i in s.recalls))
    && (s.current.Some? ==> Whole(s.current.value, |s.finished| in s.recalls))
    && forall r :: r in s.recalls ==> r < |s.finished| + if s.current.Some? then 1 else 0
  }

  /** Between two passes, or before the first: only a recall starts behind the front. */
  ghost predicate ServedBetween(s: State) {
    && s.current.None? && -1 <= s.firingIndex
    && (forall i :: 0 <= i < |s.finished| ==> Whole(s.finished[i], i in s.recalls))
    && (forall r :: r in s.recalls ==> r < |s.finished| || (r == |s.finished| && s.queue != []))
    && (|s.finished| !in s.recalls ==> s.firingIndex == -1)
  }

  lemma StartServed(s: State)
    requires ServedBetween(s) && s.queue != []
    ensures Served(StartPass(s))
  {
    assert Entries(s)[0..] == Entries(s);
  }

  lemma EndServed(s: State)
    requires Served(s) && s.current.Some?
    ensures ServedBetween(EndPass(s))
  {
    var e := EndPass(s);
    forall i | 0 <= i < |e.finished| ensures Whole(e.finished[i], i in e.recalls) {
      assert i < |s.finished| ==> e.finished[i] == s.finished[i];
    }
  }

  lemma {:induction false} NextPassServed(s: State)
    requires ServedBetween(s)
    ensures Served(NextPass(s))
    decreases |s.queue|, 0
  {
    if s.queue != [] {
      StartServed(s);
      ContinueServed(StartPass(s));
    }
  }

  lemma {:induction false} ContinueServed(s: State)
    requires Served(s) && s.current.Some?
    ensures Served(Continue(s))
    decreases |s.queue|, 1
  {
    if !More(s) {
      EndServed(s);
      NextPassServed(EndPass(s));
    }
  }

  lemma {:induction false} PassCount(passes: seq<Pass>)
    ensures |ArgsOf(passes)| == |passes|
    decreases |passes|
  {
    if passes != [] {
      PassCount(passes[..|passes| - 1]);
    }
  }

  lemma AddServed(s: State, fns: seq<nat>)
    requires Invariant(s) && Served(s)
    ensures Served(Add(s, fns))
  {
    if s.list.Some? && s.memory.Some? && !s.firing {
      RecalledServed(s);
      var a := Added(Recalled(s), fns);
      NextPassServed(a.(locked := a.options.once, fired := true, firing := true));
    }
  }

  lemma RecalledServed(s: State)
    requires Invariant(s) && Served(s) && s.list.Some? && s.memory.Some? && !s.firing
    ensures ServedBetween(Recalled(s)) && Recalled(s).queue != []
  {
    PassCount(s.finished);
    assert s.accepted == ArgsOf(s.finished) + [] + [];
  }

  lemma FireWithServed(s: State, args: Args)
    requires Invariant(s) && Served(s)
    ensures Served(FireWith(s, args))
  {
    if !s.locked && !s.firing {
      var q := s.(queue := s.queue + [args], accepted := s.accepted + [args]);
      NextPassServed(q.(locked := q.options.once, fired := true, firing := true));
    }
  }

  lemma StepServed(s: State, op: Op)
    requires Invariant(s) && Served(s)
    ensures Served(Step(s, op))
  {
    match op {
      case OpAdd(fns) => AddServed(s, fns);
      case OpRemove(_) =>
      case OpFireWith(args) => FireWithServed(s, args);
      case OpLock =>
      case OpDisable =>
      case OpReturn =>
        if s.firing {
          ContinueServed(s);
        }
    }
  }

  lemma StepKeeps(s: State, op: Op)
    requires Invariant(s) && Served(s)
    ensures Invariant(Step(s, op)) && Served(Step(s, op))
  {
    StepInvariant(s, op);
    StepServed(s, op);
  }

  /** Over every run: each finished pass ran its roster less what was withdrawn in time, once
      each and in registration order; the pass in progress is on its way to the same; the values
      of finished passes, the current one and the queue are the accepted values in the order in
      which they were fired; and the pass of every value that was fired, at once or from the
      queue, begins with the whole list as it then is, while only the values that add recalls
      are for the new registrations alone. */
  lemma {:induction false} RunKeeps(o: Options, ops: seq<Op>)
    ensures Invariant(Run(Initial(o), ops)) && Served(Run(Initial(o), ops))
    decreases |ops|
  {
    if ops != [] {
      RunKeeps(o, ops[..|ops| - 1]);
      StepKeeps(Run(Initial(o), ops[..|ops| - 1]), ops[|ops| - 1]);
    }
  }

  // ----- What a list remembers, and when it is locked

  function LastArgs(passes: seq<Pass>): Option<Args> {
    if passes == [] then None else Some(passes[|passes| - 1].args)
  }

  /** A spent list remembers nothing; a pass in progress, its own value; an idle list, the value
      of its last pass if it has the memory option, and else nothing. */
  ghost predicate Remembers(s: State) {
    && (s.list.None? ==> s.locked && s.queue == [] && s.memory.None?)
    && (s.current.Some? && s.list.Some? ==> s.memory == Some(s.current.value.args))
    && (s.current.None? ==> s.memory == if s.options.memory && s.list.Some? then LastArgs(s.finished) else None)
    && (s.fired <==> s.finished != [] || s.current.Some?)
    && (s.options.once && s.fired ==> s.locked)
    && (s.options.once ==> |s.accepted| <= |s.recalls| + if s.fired then 1 else 0)
  }

  /** Between two passes, or before the first. */
  ghost predicate RemembersBetween(s: State) {
    && s.current.None? && s.fired && (s.options.once ==> s.locked && |s.accepted| <= |s.recalls| + 1)
    && (s.list.None? ==> s.locked && s.queue == [] && s.memory.None?)
    && (s.queue == [] ==> s.finished != [] && (s.list.Some? ==> s.memory == LastArgs(s.finished)))
  }

  lemma EndRemembers(s: State)
    requires Remembers(s) && s.current.Some?
    ensures RemembersBetween(EndPass(s))
  {
  }

  lemma StartRemembers(s: State)
    requires RemembersBetween(s) && s.queue != []
    ensures Remembers(StartPass(s))
  {
  }

  lemma FinishRemembers(s: State)
    requires RemembersBetween(s) && s.queue == []
    ensures Remembers(Finish(s))
  {
  }

  lemma {:induction false} NextPassRemembers(s: State)
    requires RemembersBetween(s)
    ensures Remembers(NextPass(s))
    decreases |s.queue|, 0
  {
    if s.queue == [] {
      FinishRemembers(s);
    } else {
      StartRemembers(s);
      ContinueRemembers(StartPass(s));
    }
  }

  lemma {:induction false} ContinueRemembers(s: State)
    requires Remembers(s) && s.current.Some?
    ensures Remembers(Continue(s))
    decreases |s.queue|, 1
  {
    if !More(s) {
      EndRemembers(s);
      NextPassRemembers(EndPass(s));
    }
  }

  lemma AddRemembers(s: State, fns: seq<nat>)
    requires Invariant(s) && Served(s) && Remembers(s)
    ensures Remembers(Add(s, fns))
  {
    if s.list.Some? && s.memory.Some? && !s.firing {
      AddIsRecall(s, fns);
      RecallRemembers(s, fns);
      ContinueRemembers(RecallStart(s, fns));
    }
  }

  lemma RecallRemembers(s: State, fns: seq<nat>)
    requires Invariant(s) && Served(s) && Remembers(s) && s.list.Some? && s.memory.Some? && !s.firing
    ensures Remembers(RecallStart(s, fns)) && RecallStart(s, fns).current.Some?
  {
    PassCount(s.finished);
    assert |s.accepted| == |s.finished| && |s.accepted| !in s.recalls;
    RecallPending(s, fns);
    RecallCounts(s, fns);
  }

  lemma RecallCounts(s: State, fns: seq<nat>)
    requires s.list.Some? && s.memory.Some?
    ensures var start := RecallStart(s, fns);
            && start.accepted == s.accepted + [s.memory.value] && start.recalls == s.recalls + {|s.accepted|}
            && start.options == s.options && start.fired && start.locked == s.options.once && start.firing
  {
  }

  lemma FireWithRemembers(s: State, args: Args)
    requires Invariant(s) && Remembers(s)
    ensures Remembers(FireWith(s, args))
  {
    if !s.locked && !s.firing {
      var q := s.(queue := s.queue + [args], accepted := s.accepted + [args]);
      NextPassRemembers(q.(locked := q.options.once, fired := true, firing := true));
    }
  }

  lemma StepRemembers(s: State, op: Op)
    requires Invariant(s) && Served(s) && Remembers(s)
    ensures Remembers(Step(s, op))
  {
    match op {
      case OpAdd(fns) => AddRemembers(s, fns);
      case OpRemove(_) =>
      case OpFireWith(args) => FireWithRemembers(s, args);
      case OpLock =>
      case OpDisable =>
      case OpReturn =>
        if s.firing {
          ContinueRemembers(s);
        }
    }
  }

  /** Over every run: a list without the memory option recalls nothing once it is idle, one with
      it recalls exactly the value of its last pass until it is disabled; a "once" list accepts
      one value. */
  lemma {:induction false} RunRemembers(o: Options, ops: seq<Op>)
    ensures Remembers(Run(Initial(o), ops))
    decreases |ops|
  {
    if ops != [] {
      RunRemembers(o, ops[..|ops| - 1]);
      RunKeeps(o, ops[..|ops| - 1]);
      StepRemembers(Run(Initial(o), ops[..|ops| - 1]), ops[|ops| - 1]);
    }
  }

  /** So add on an idle list that has run a pass starts another one, with the same value and for
      the new registrations alone, if the list has the memory option; and none otherwise. */
  lemma IdleAdd(s: State, fns: seq<nat>) returns (start: State)
    requires Invariant(s) && Remembers(s) && s.list.Some? && !s.firing
    ensures s.options.memory && s.finished != [] ==>
              Begins(start, s.finished[|s.finished| - 1].args, Novel(s, fns)) && Step(s, OpAdd(fns)) == Continue(start)
    ensures !(s.options.memory && s.finished != []) ==>
              var t := Step(s, OpAdd(fns));
              !t.firing && t.finished == s.finished && t.accepted == s.accepted && t.list == Some(s.list.value + Novel(s, fns))
  {
    start := s;
    if s.memory.Some? {
      start := RecallEffect(s, fns);
    } else {
      AddEffect(s, fns);
    }
  }

  lemma {:induction false} ContinueLocked(s: State)
    ensures Continue(s).locked == s.locked
    decreases |s.queue|
  {
    if !More(s) && EndPass(s).queue != [] {
      ContinueLocked(StartPass(EndPass(s)));
    }
  }

  /** A locked list stays locked except when add recalls a value on a list that is not "once":
      firing for the new registrations sets the lock to that option. */
  lemma LockIsLostIff(s: State, op: Op)
    requires Invariant(s) && s.locked
    ensures !Step(s, op).locked <==>
            op.OpAdd? && s.list.Some? && s.memory.Some? && !s.firing && !s.options.once
  {
    ContinueLocked(s);
    if op.OpAdd? && s.list.Some? && s.memory.Some? && !s.firing {
      AddIsRecall(s, op.fns);
      ContinueLocked(RecallStart(s, op.fns));
    }
  }

  // ----- What a pass means

  /** What an exact pass means for each registration: it ran if and only if it was to be
      served and not withdrawn in time, and no two calls were of the same registration. */
  lemma {:induction false} ExactlyOnce(p: Pass, e: Entry)
    requires Exact(p)
    ensures multiset(p.called)[e] == if e in p.roster && e.id !in p.dropped then 1 else 0
  {
    KeepCounts(p.roster, p.dropped, 0, End(p.roster), e);
  }

  lemma {:induction false} KeepCounts(l: seq<Entry>, d: set<nat>, lo: nat, hi: nat, e: Entry)
    requires Ordered(l, lo, hi)
    ensures multiset(Keep(l, d))[e] == if e in l && e.id !in d then 1 else 0
    decreases |l|
  {
    if l != [] {
      KeepCounts(l[1..], d, l[0].id + 1, hi, e);
      OrderedBounds(l[1..], l[0].id + 1, hi);
      assert l == [l[0]] + l[1..];
      assert multiset(Keep(l, d)) == (if l[0].id in d then multiset{} else multiset{l[0]}) + multiset(Keep(l[1..], d));
    }
  }

  // ----- What each operation does

  /** Without `unique` every function is registered, in order; with it, exactly those not yet
      in the list, once each. */
  lemma {:induction false} AppendExact(unique: bool, l: seq<Entry>, id: nat, fns: seq<nat>)
    ensures var r := Append(unique, l, id, fns);
            && (!unique ==> |r| == |l| + |fns| && forall i :: 0 <= i < |fns| ==> r[|l| + i] == Entry(fns[i], id + i))
            && (unique ==> (forall f :: Has(r, f) <==> Has(l, f) || f in fns) &&
                           (forall i, j :: |l| <= j < |r| && 0 <= i < j ==> r[i].fn != r[j].fn))
    decreases |fns|
  {
    if fns != [] {
      var skip := unique && Has(l, fns[0]);
      var l' := if skip then l else l + [Entry(fns[0], id)];
      var id' := if skip then id else id + 1;
      AppendExact(unique, l', id', fns[1..]);
      assert fns == [fns[0]] + fns[1..];
      if !skip {
        HasSnoc(l, Entry(fns[0], id));
        AppendFirst(unique, l, id, fns);
      }
    }
  }

  lemma HasSnoc(l: seq<Entry>, e: Entry)
    ensures forall f :: Has(l + [e], f) <==> Has(l, f) || f == e.fn
  {
    forall f ensures Has(l + [e], f) <==> Has(l, f) || f == e.fn {
      assert (l + [e])[|l|] == e;
      if Has(l, f) {
        var i :| 0 <= i < |l| && l[i].fn == f;
        assert (l + [e])[i].fn == f;
      }
    }
  }

  lemma AppendFirst(unique: bool, l: seq<Entry>, id: nat, fns: seq<nat>)
    requires fns != [] && !(unique && Has(l, fns[0]))
    ensures var r := Append(unique, l, id, fns);
            |r| > |l| && r[|l|] == Entry(fns[0], id) && r[..|l|] == l &&
            (unique ==> forall i :: 0 <= i < |l| ==> r[i].fn != r[|l|].fn)
  {
    var r := Append(unique, l, id, fns);
    var l' := l + [Entry(fns[0], id)];
    assert r == Append(unique, l', id + 1, fns[1..]);
    assert r[|l|] == r[..|l'|][|l|];
    assert forall i :: 0 <= i < |l| ==> r[i] == r[..|l|][i] == l[i];
  }

  /** A pass that is about to begin. */
  ghost predicate Begins(s: State, args: Args, roster: seq<Entry>) {
    && s.firing && Pending(s) == roster && s.memory == Some(args)
    && s.current == Some(Pass(args, Entries(s), roster, roster, [], {}))
  }

  /** add during a pass, or with nothing remembered: the new registrations come after all
      others, and are served by the pass in progress. */
  lemma AddEffect(s: State, fns: seq<nat>)
    requires Invariant(s) && s.list.Some? && (s.firing || s.memory.None?)
    ensures var t := Step(s, OpAdd(fns));
            && t.list == Some(s.list.value + Novel(s, fns)) && Pending(t) == Pending(s) + Novel(s, fns)
            && t.queue == s.queue && t.firing == s.firing && t.memory == s.memory && t.locked == s.locked
  {
    AddedPending(s, fns);
  }

  /** The pass that add begins with a remembered value. */
  function RecallStart(s: State, fns: seq<nat>): State
    requires s.list.Some? && s.memory.Some?
  {
    StartPass(Added(Recalled(s), fns).(locked := s.options.once, fired := true, firing := true))
  }

  lemma AddIsRecall(s: State, fns: seq<nat>)
    requires s.list.Some? && s.memory.Some? && !s.firing
    ensures Add(s, fns) == Continue(RecallStart(s, fns))
  {
  }

  lemma RecallPending(s: State, fns: seq<nat>)
    requires s.list.Some? && s.memory.Some? && s.queue == []
    ensures var start := RecallStart(s, fns);
            && Pending(start) == Novel(s, fns) && start.list == Some(s.list.value + Novel(s, fns))
            && start.queue == [] && start.memory == s.memory && start.finished == s.finished
            && start.current == Some(Pass(s.memory.value, Entries(start), Novel(s, fns), Novel(s, fns), [], {}))
  {
    var r := Recalled(s);
    assert r.queue == [s.memory.value];
    AddedPending(r, fns);
    assert Pending(r) == [] && [] + Novel(s, fns) == Novel(s, fns);
  }

  /** add with a remembered value: the new registrations get a pass of their own with that
      value, which the older ones are spared. */
  lemma RecallEffect(s: State, fns: seq<nat>) returns (start: State)
    requires Invariant(s) && s.list.Some? && !s.firing && s.memory.Some?
    ensures Begins(start, s.memory.value, Novel(s, fns)) && start.queue == [] && Step(s, OpAdd(fns)) == Continue(start)
    ensures start.list == Some(s.list.value + Novel(s, fns))
  {
    AddIsRecall(s, fns);
    RecallPending(s, fns);
    start := RecallStart(s, fns);
  }

  /** fireWith: nothing once locked; during a pass the value waits for a pass of its own; else
      a pass over the whole list begins. */
  lemma FireWithEffect(s: State, args: Args) returns (start: State)
    requires Invariant(s)
    ensures s.locked ==> Step(s, OpFireWith(args)) == s
    ensures !s.locked && s.firing ==>
              Step(s, OpFireWith(args)) == s.(queue := s.queue + [args], accepted := s.accepted + [args])
    ensures !s.locked && !s.firing ==>
              Begins(start, args, Entries(s)) && start.queue == [] && Step(s, OpFireWith(args)) == Continue(start)
  {
    start := s;
    if !s.locked && !s.firing {
      var q := s.(queue := s.queue + [args], accepted := s.accepted + [args]);
      start := StartPass(q.(locked := q.options.once, fired := true, firing := true));
      assert q.queue == [args] && q.queue[1..] == [];
    }
  }

  /** The return of a callback: the next pending one is called; else the pass is over, and the
      next queued value, if there is one, gets a pass over the whole list. */
  lemma ReturnEffect(s: State) returns (start: State)
    requires Invariant(s) && s.firing
    ensures Pending(s) != [] ==>
              var t := Step(s, OpReturn);
              && t.current == Some(s.current.value.(called := s.current.value.called + [Pending(s)[0]]))
              && Pending(t) == Pending(s)[1..] && t.queue == s.queue && t.firing && t.list == s.list
    ensures Pending(s) == [] ==> s.finished + [s.current.value] <= Step(s, OpReturn).finished
    ensures Pending(s) == [] && s.queue == [] ==>
              !Step(s, OpReturn).firing && Step(s, OpReturn).finished == s.finished + [s.current.value]
    ensures Pending(s) == [] && s.queue != [] ==>
              Begins(start, s.queue[0], Entries(s)) && start.queue == s.queue[1..] &&
              start.finished == s.finished + [s.current.value] && Step(s, OpReturn) == Continue(start)
  {
    start := s;
    if !More(s) {
      FinishedGrows(EndPass(s));
      if s.queue != [] {
        start := StartPass(EndPass(s));
        assert Entries(s)[0..] == Entries(s);
      }
    }
  }

  lemma {:induction false} FinishedGrows(s: State)
    ensures s.finished <= NextPass(s).finished
    decreases |s.queue|
  {
    if s.queue != [] && !More(StartPass(s)) {
      FinishedGrows(EndPass(StartPass(s)));
    }
  }

  lemma {:induction false} WithoutMembers(l: seq<Entry>, fn: nat)
    ensures forall e :: e in Without(l, fn) <==> e in l && e.fn != fn
    decreases |l|
  {
    if l != [] {
      WithoutMembers(l[1..], fn);
      assert l == [l[0]] + l[1..];
    }
  }

  /** remove: exactly the registrations of the function leave, from the list and from what is
      pending, and the rest stay in order. */
  lemma RemoveEffect(s: State, fn: nat)
    requires Invariant(s) && s.list.Some?
    ensures var t := Step(s, OpRemove(fn));
            && t.list.Some? && (forall e :: e in t.list.value <==> e in s.list.value && e.fn != fn) && Ordered(t.list.value, 0, s.nextId)
            && Pending(t) == Without(Pending(s), fn) && (forall e :: e in Pending(t) <==> e in Pending(s) && e.fn != fn)
            && t.queue == s.queue && t.firing == s.firing && t.memory == s.memory && t.locked == s.locked && t.finished == s.finished
  {
    RemoveSplits(s, fn);
    WithoutMembers(s.list.value, fn);
    WithoutMembers(Pending(s), fn);
    WithoutOrdered(s.list.value, fn, 0, s.nextId);
  }

  ghost predicate Leaves(l: seq<Entry>, rest: seq<Entry>, fns: seq<nat>) {
    forall e :: e in rest <==> e in l && e.fn !in fns
  }

  lemma LeavesMore(l: seq<Entry>, mid: seq<Entry>, rest: seq<Entry>, fn: nat, fns: seq<nat>)
    requires Leaves(l, mid, [fn]) && Leaves(mid, rest, fns)
    ensures Leaves(l, rest, [fn] + fns)
  {
  }

  /** remove with several functions: exactly their registrations leave. */
  lemma {:induction false} RemoveAllEffect(s: State, fns: seq<nat>)
    requires Invariant(s) && s.list.Some?
    ensures var t := RemoveAll(s, fns);
            Invariant(t) && t.list.Some? && Leaves(s.list.value, t.list.value, fns) && Leaves(Pending(s), Pending(t), fns)
    decreases |fns|
  {
    if fns != [] {
      var m := Remove(s, fns[0]);
      RemoveEffect(s, fns[0]);
      RemoveKeeps(s, fns[0]);
      RemoveAllEffect(m, fns[1..]);
      var t := RemoveAll(s, fns);
      assert [fns[0]] + fns[1..] == fns;
      LeavesMore(s.list.value, m.list.value, t.list.value, fns[0], fns[1..]);
      LeavesMore(Pending(s), Pending(m), Pending(t), fns[0], fns[1..]);
    }
  }

  /** lock: the queued values are discarded and no value is accepted any more, but the pass in
      progress still serves everything that is pending. */
  lemma LockEffect(s: State, args: Args, fns: seq<nat>)
    requires Invariant(s)
    ensures var l := Step(s, OpLock);
            && l.queue == [] && Step(l, OpFireWith(args)) == l
            && (s.firing ==> Pending(l) == Pending(s) && l.current == s.current)
            && (!s.firing && s.memory.None? ==> Step(l, OpAdd(fns)) == l)
            && (s.accepted == l.accepted + s.queue)
  {
    LockAborts(s);
    var l := Lock(s);
    assert l.locked && Step(l, OpFireWith(args)) == FireWith(l, args) == l;
    if !s.firing && s.memory.None? {
      assert l.list.None? && Step(l, OpAdd(fns)) == Add(l, fns) == l;
    }
  }

  lemma LockAborts(s: State)
    requires Invariant(s)
    ensures var l := Lock(s); s.accepted == l.accepted + s.queue && (s.firing ==> l == Aborted(s) && Pending(l) == Pending(s))
  {
    ShownUnqueued(s);
  }

  /** disable: nothing that is pending or queued is run, and nothing is accepted any more. */
  lemma DisableEffect(s: State, args: Args, fns: seq<nat>)
    requires Invariant(s)
    ensures var d := Step(s, OpDisable);
            && Pending(d) == [] && d.queue == [] && Step(d, OpFireWith(args)) == d && Step(d, OpAdd(fns)) == d
            && (s.firing ==> !Step(d, OpReturn).firing && Step(d, OpReturn).finished == s.finished + [d.current.value] &&
                             d.current.value.called == s.current.value.called)
            && (s.accepted == d.accepted + s.queue)
  {
    ShownUnqueued(s);
    if s.firing {
      var d := Disable(s);
      assert Step(d, OpReturn) == Continue(d) && Continue(d) == NextPass(EndPass(d)) && NextPass(EndPass(d)) == Finish(EndPass(d));
    }
  }

  // ----- Reachable states

  ghost predicate Reachable(s: State) {
    exists ops :: s == Run(Initial(s.options), ops)
  }

  lemma {:induction false} ContinueOptions(s: State)
    ensures Continue(s).options == s.options
    decreases |s.queue|
  {
    if !More(s) && EndPass(s).queue != [] {
      ContinueOptions(StartPass(EndPass(s)));
    }
  }

  lemma StepOptions(s: State, op: Op)
    ensures Step(s, op).options == s.options
  {
    forall f: State | f.queue != [] ensures NextPass(f).options == f.options {
      ContinueOptions(StartPass(f));
    }
    ContinueOptions(s);
  }

  lemma ReachableStep(s: State, op: Op)
    requires Reachable(s)
    ensures Reachable(Step(s, op))
  {
    var ops :| s == Run(Initial(s.options), ops);
    var more := ops + [op];
    assert more[..|more| - 1] == ops;
    StepOptions(s, op);
    assert Step(s, op) == Run(Initial(s.options), more);
  }

  lemma ReachableInvariant(s: State)
    requires Reachable(s)
    ensures Invariant(s)
  {
    var ops :| s == Run(Initial(s.options), ops);
    RunInvariant(s.options, ops);
  }

  lemma ReachableBounds(s: State)
    requires Reachable(s)
    ensures -1 <= s.firingIndex && (s.list.Some? ==> s.firingIndex < |s.list.value|)
    ensures s.firing <==> s.current.Some?
  {
    ReachableInvariant(s);
  }
}
