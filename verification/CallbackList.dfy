/** The closure behind jQuery.Callbacks, with its variables updated in place; each method is
    proved against the operation of the same name in module Callbacks. */
module CallbackList {
  import opened Collections
  import C = Callbacks

  /** An argument of add: a function, an array-like of arguments, or anything else. */
  datatype Arg = Fn(fn: nat) | Arr(args: seq<Arg>) | Other

  function Flatten(args: seq<Arg>): seq<nat>
    decreases args
  {
    if args == [] then [] else FlattenOne(args[0]) + Flatten(args[1..])
  }

  function FlattenOne(arg: Arg): seq<nat>
    decreases arg
  {
    match arg case Fn(fn) => [fn] case Arr(inner) => Flatten(inner) case Other => []
  }

  lemma {:induction false} FlattenAppend(a: seq<Arg>, b: seq<Arg>)
    ensures Flatten(a + b) == Flatten(a) + Flatten(b)
    decreases |a|
  {
    if a == [] {
      assert a + b == b;
    } else {
      assert (a + b)[1..] == a[1..] + b;
      FlattenAppend(a[1..], b);
      Assoc(FlattenOne(a[0]), Flatten(a[1..]), Flatten(b));
    }
  }

  /** Nesting makes no difference to what add registers, what is neither a function nor a list
      is passed over, and functions come in the order given: the three settle it. */
  lemma NestingIsIrrelevant(a: seq<Arg>, inner: seq<Arg>, fn: nat, b: seq<Arg>)
    ensures Flatten(a + [Arr(inner)] + b) == Flatten(a + inner + b)
    ensures Flatten(a + [Other] + b) == Flatten(a + b)
    ensures Flatten(a + [Fn(fn)] + b) == Flatten(a) + [fn] + Flatten(b)
  {
    FlattenAround(a, [Arr(inner)], b);
    FlattenAround(a, inner, b);
    FlattenAround(a, [Other], b);
    FlattenAround(a, [], b);
    FlattenAround(a, [Fn(fn)], b);
    assert a + [] + b == a + b;
    FlattenSingle(Arr(inner));
    FlattenSingle(Other);
    FlattenSingle(Fn(fn));
  }

  lemma FlattenAround(a: seq<Arg>, m: seq<Arg>, b: seq<Arg>)
    ensures Flatten(a + m + b) == Flatten(a) + Flatten(m) + Flatten(b)
  {
    FlattenAppend(a + m, b);
    FlattenAppend(a, m);
  }

  lemma FlattenSingle(arg: Arg)
    ensures Flatten([arg]) == FlattenOne(arg)
    ensures arg.Arr? ==> FlattenOne(arg) == Flatten(arg.args)
    ensures arg.Other? ==> FlattenOne(arg) == Flatten([])
    ensures arg.Fn? ==> FlattenOne(arg) == [arg.fn]
  {
    assert [arg][1..] == [] && FlattenOne(arg) + [] == FlattenOne(arg);
  }

  lemma {:induction false} AppendTwice(unique: bool, l: seq<C.Entry>, id: nat, a: seq<nat>, b: seq<nat>)
    ensures var m := C.Append(unique, l, id, a);
            C.Append(unique, l, id, a + b) == C.Append(unique, m, id + |m| - |l|, b)
    decreases |a|
  {
    if a == [] {
      assert a + b == b;
    } else {
      assert (a + b)[1..] == a[1..] + b;
      if unique && C.Has(l, a[0]) {
        AppendTwice(unique, l, id, a[1..], b);
      } else {
        AppendTwice(unique, l + [C.Entry(a[0], id)], id + 1, a[1..], b);
      }
    }
  }

  class CallbackList {
    const options: C.Options
    var list: Option<seq<C.Entry>>
    var queue: seq<C.Args>
    var firing: bool
    var firingIndex: int
    var memory: Option<C.Args>
    var locked: bool
    var fired: bool
    var nextId: nat
    ghost var finished: seq<C.Pass>
    ghost var current: Option<C.Pass>
    ghost var accepted: seq<C.Args>
    ghost var recalls: set<nat>

    ghost function Now(): C.State
      reads this
    {
      C.State(options, list, queue, firing, firingIndex, memory, locked, fired, nextId, finished, current, accepted, recalls)
    }

    ghost predicate Valid()
      reads this
    {
      C.Reachable(Now())
    }

    constructor (options: C.Options)
      ensures Valid() && Now() == C.Initial(options)
    {
      this.options := options;
      list, queue, firing, firingIndex := Some([]), [], false, -1;
      memory, locked, fired, nextId := None, false, false, 0;
      finished, current, accepted, recalls := [], None, [], {};
      new;
      assert Now() == C.Run(C.Initial(options), []);
    }

    function Length(): nat
      reads this
    {
      if list.Some? then |list.value| else 0
    }

    /** The rest of the loop of fire, from where a callback has just returned up to the next
        call of a callback. */
    method Resume()
      requires -1 <= firingIndex && firing
      modifies this
      ensures Now() == C.Continue(old(Now()))
    {
      ghost var target := C.Continue(Now());
      while true
        invariant firing && -1 <= firingIndex && target == C.Continue(Now())
        decreases |queue|
      {
        firingIndex := firingIndex + 1;
        if firingIndex < Length() {
          Called();
          return;
        }
        PassOver();
        if queue == [] {
          break;
        }
        NextValue();
      }
      End();
    }

    /** The history, when the callback at firingIndex is called. */
    ghost method Called()
      requires 0 <= firingIndex < |C.Entries(Now())|
      modifies this`current
      ensures Now() == C.CallNext(old(Now()).(firingIndex := firingIndex - 1))
    {
      if current.Some? {
        current := Some(current.value.(called := current.value.called + [list.value[firingIndex]]));
      }
    }

    /** `firingIndex = -1` */
    method PassOver()
      modifies this`firingIndex, this`current, this`finished
      ensures Now() == C.EndPass(old(Now()))
    {
      finished := if current.Some? then finished + [current.value] else finished;
      firingIndex, current := -1, None;
    }

    /** `memory = queue.shift()` */
    method NextValue()
      requires queue != []
      modifies this
      ensures Now() == C.StartPass(old(Now()))
    {
      current := Some(C.Pass(queue[0], C.Entries(Now()), C.Pending(Now()), C.Pending(Now()), [], {}));
      memory, queue := Some(queue[0]), queue[1..];
    }

    /** What fire does after its loop. */
    method End()
      modifies this
      ensures Now() == C.Finish(old(Now()))
    {
      if !options.memory {
        memory := None;
      }
      firing := false;
      if locked {
        list := if memory.Some? then Some([]) else None;
      }
    }

    method Fire()
      requires -1 <= firingIndex
      modifies this
      ensures Now() == C.Fire(old(Now()))
    {
      locked := options.once;
      fired, firing := true, true;
      if queue == [] {
        End();
      } else {
        NextValue();
        Resume();
      }
    }

    /** The recursive push of add. */
    method Push(args: seq<Arg>)
      requires list.Some?
      modifies this`list, this`nextId, this`current
      ensures Now() == C.Added(old(Now()), Flatten(args))
      decreases args
    {
      if args == [] {
        AddedNothing(Now());
      } else {
        PushOne(args[0]);
        Push(args[1..]);
        AddedTwice(old(Now()), FlattenOne(args[0]), Flatten(args[1..]));
      }
    }

    method PushOne(arg: Arg)
      requires list.Some?
      modifies this`list, this`nextId, this`current
      ensures Now() == C.Added(old(Now()), FlattenOne(arg))
      decreases arg
    {
      match arg {
        case Fn(fn) =>
          AddedOne(Now(), fn);
          if !options.unique || !C.Has(list.value, fn) {
            var entry := C.Entry(fn, nextId);
            list := Some(list.value + [entry]);
            nextId := nextId + 1;
            current := C.Grown(current, [entry]);
          }
        case Arr(inner) =>
          Push(inner);
        case Other =>
          AddedNothing(Now());
      }
    }

    method Add(args: seq<Arg>)
      requires Valid()
      modifies this
      ensures Valid() && Now() == C.Add(old(Now()), Flatten(args))
    {
      C.ReachableStep(Now(), C.OpAdd(Flatten(args)));
      C.ReachableBounds(Now());
      if list.Some? {
        if memory.Some? && !firing {
          Recall();
        }
        Push(args);
        if memory.Some? && !firing {
          Fire();
        }
      }
    }

    method Recall()
      requires list.Some? && memory.Some?
      modifies this`firingIndex, this`queue, this`accepted, this`recalls
      ensures Now() == C.Recalled(old(Now()))
    {
      firingIndex := |list.value| - 1;
      queue := queue + [memory.value];
      recalls := recalls + {|accepted|};
      accepted := accepted + [memory.value];
    }

    /** jQuery.inArray( fn, list, from ) */
    method InArray(fn: nat, from: nat) returns (index: int)
      requires list.Some? && from <= |list.value|
      ensures -1 <= index < |list.value|
      ensures index == -1 ==> forall k :: from <= k < |list.value| ==> list.value[k].fn != fn
      ensures index >= 0 ==> from <= index && list.value[index].fn == fn && forall k :: from <= k < index ==> list.value[k].fn != fn
    {
      index := from;
      while index < |list.value|
        invariant from <= index <= |list.value|
        invariant forall k :: from <= k < index ==> list.value[k].fn != fn
      {
        if list.value[index].fn == fn {
          return;
        }
        index := index + 1;
      }
      index := -1;
    }

    /** Removes its arguments one by one. */
    method Remove(fns: seq<nat>)
      requires Valid()
      modifies this
      ensures Valid() && Now() == C.RemoveAll(old(Now()), fns)
    {
      var k := 0;
      while k < |fns|
        invariant 0 <= k <= |fns| && Valid()
        invariant C.RemoveAll(Now(), fns[k..]) == C.RemoveAll(old(Now()), fns)
      {
        assert fns[k..][1..] == fns[k + 1..];
        RemoveOne(fns[k]);
        k := k + 1;
      }
    }

    /** Removes one function: splices each of its registrations and moves firingIndex along. */
    method RemoveOne(fn: nat)
      requires Valid()
      modifies this
      ensures Valid() && Now() == C.Remove(old(Now()), fn)
    {
      C.ReachableStep(Now(), C.OpRemove(fn));
      C.ReachableBounds(Now());
      if list.Some? {
        RemoveMeans(Now(), fn);
        current := C.Drop(current, C.IdsOf(C.Pending(Now()), fn));
        SpliceOut(fn);
      }
    }

    method SpliceOut(fn: nat)
      requires list.Some? && -1 <= firingIndex < |list.value|
      modifies this`list, this`firingIndex
      ensures list == Some(C.Without(old(list.value), fn))
      ensures firingIndex + 1 == |C.Without(old(list.value)[..old(firingIndex) + 1], fn)|
    {
      ghost var l, split := list.value, firingIndex + 1;
      ghost var c := 0;
      var index := 0;
      RemovingBegins(l, split, fn);
      while index != -1
        invariant list.Some? && 0 <= c <= |l|
        invariant index != -1 ==> Removing(l, c, split, fn, list.value, index, firingIndex)
        invariant index == -1 ==> Removed(l, split, fn, list.value, firingIndex)
        decreases |l| - c, index != -1
      {
        index, c := SpliceNext(fn, index, l, c, split);
      }
    }

    /** Searches once from `index`, and splices what it finds. */
    method SpliceNext(fn: nat, index: nat, ghost l: seq<C.Entry>, ghost c: nat, ghost split: int)
      returns (next: int, ghost c': nat)
      requires list.Some? && Removing(l, c, split, fn, list.value, index, firingIndex)
      modifies this`list, this`firingIndex
      ensures list.Some? && c <= c' <= |l| && -1 <= next
      ensures if next == -1 then Removed(l, split, fn, list.value, firingIndex)
              else c < c' && Removing(l, c', split, fn, list.value, next, firingIndex)
    {
      next := InArray(fn, index);
      Room(l, c, split, fn, list.value, index, firingIndex);
      c' := if next == -1 then |l| else c + next - index;
      SearchMoves(l, c, c', split, fn, list.value, index, firingIndex);
      if next == -1 {
        RemovingEnds(l, split, fn, list.value, index + c' - c, firingIndex);
      } else {
        SpliceMoves(l, c', split, fn, list.value, next, firingIndex);
        SpliceAt(next);
        c' := c' + 1;
      }
    }

    /** `list.splice( index, 1 )`, "Handle firing indexes" */
    method SpliceAt(index: nat)
      requires list.Some? && index < |list.value|
      modifies this`list, this`firingIndex
      ensures list == Some(old(list).value[..index] + old(list).value[index + 1..])
      ensures firingIndex == old(firingIndex) - if index <= old(firingIndex) then 1 else 0
    {
      list := Some(list.value[..index] + list.value[index + 1..]);
      if index <= firingIndex {
        firingIndex := firingIndex - 1;
      }
    }

    method Lock()
      requires Valid()
      modifies this
      ensures Valid() && Now() == C.Lock(old(Now()))
    {
      C.ReachableStep(Now(), C.OpLock);
      accepted := C.Unqueued(Now());
      locked, queue := true, [];
      if memory.None? && !firing {
        list := None;
      }
    }

    method Disable()
      requires Valid()
      modifies this
      ensures Valid() && Now() == C.Disable(old(Now()))
    {
      C.ReachableStep(Now(), C.OpDisable);
      accepted := C.Unqueued(Now());
      current := C.Drop(current, C.Ids(C.Pending(Now())));
      locked, queue := true, [];
      list, memory := None, None;
    }

    method FireWith(args: C.Args)
      requires Valid()
      modifies this
      ensures Valid() && Now() == C.FireWith(old(Now()), args)
    {
      C.ReachableStep(Now(), C.OpFireWith(args));
      C.ReachableBounds(Now());
      if !locked {
        queue := queue + [args];
        accepted := accepted + [args];
        if !firing {
          Fire();
        }
      }
    }

    /** The callback that is running returns. */
    method Return()
      requires Valid() && firing
      modifies this
      ensures Valid() && Now() == C.Continue(old(Now()))
    {
      C.ReachableStep(Now(), C.OpReturn);
      C.ReachableBounds(Now());
      Resume();
    }
  }

  // ----- Removal by repeated splicing

  /** The list once the registrations of `fn` among the first `c` are gone. */
  function Remaining(l: seq<C.Entry>, c: nat, fn: nat): seq<C.Entry>
    requires c <= |l|
  {
    C.Without(l[..c], fn) + l[c..]
  }

  function Left(l: seq<C.Entry>, c: nat, fn: nat): nat
    requires c <= |l|
  {
    |C.Without(l[..c], fn)|
  }

  lemma LeftStep(l: seq<C.Entry>, c: nat, fn: nat)
    requires c < |l|
    ensures C.Without(l[..c + 1], fn) == C.Without(l[..c], fn) + if l[c].fn == fn then [] else [l[c]]
  {
    assert l[..c + 1] == l[..c] + [l[c]];
    C.WithoutAppend(l[..c], [l[c]], fn);
    assert [l[c]][1..] == [];
  }

  /** Between two hits of the search nothing is removed. */
  lemma {:induction false} Untouched(l: seq<C.Entry>, c: nat, c': nat, fn: nat)
    requires c <= c' <= |l|
    requires forall k :: Left(l, c, fn) <= k < Left(l, c, fn) + c' - c && k < |Remaining(l, c, fn)| ==> Remaining(l, c, fn)[k].fn != fn
    ensures Remaining(l, c', fn) == Remaining(l, c, fn)
    ensures Left(l, c', fn) == Left(l, c, fn) + c' - c
    decreases c' - c
  {
    if c < c' {
      LeftStep(l, c, fn);
      assert Remaining(l, c, fn)[Left(l, c, fn)] == l[c];
      assert l[c..] == [l[c]] + l[c + 1..];
      assert Remaining(l, c + 1, fn) == Remaining(l, c, fn);
      Untouched(l, c + 1, c', fn);
    }
  }

  lemma {:induction false} LeftShrinks(l: seq<C.Entry>, c: nat, c': nat, fn: nat)
    requires c <= c' <= |l|
    ensures Left(l, c, fn) <= Left(l, c', fn) <= Left(l, c, fn) + c' - c
    decreases c' - c
  {
    if c < c' {
      LeftStep(l, c, fn);
      LeftShrinks(l, c + 1, c', fn);
    }
  }

  /** The first `c` of the original entries have been gone through: what is left of them comes
      before `index`.  The entries up to `split` are those up to firingIndex. */
  ghost predicate Removing(l: seq<C.Entry>, c: nat, split: int, fn: nat, now: seq<C.Entry>, index: int, firingIndex: int) {
    && c <= |l| && 0 <= split <= |l| && now == Remaining(l, c, fn) && index == Left(l, c, fn)
    && firingIndex + 1 == if c <= split then Left(l, c, fn) + split - c else Left(l, split, fn)
  }

  ghost predicate Removed(l: seq<C.Entry>, split: int, fn: nat, now: seq<C.Entry>, firingIndex: int) {
    0 <= split <= |l| && now == C.Without(l, fn) && firingIndex + 1 == |C.Without(l[..split], fn)|
  }

  lemma RemovingBegins(l: seq<C.Entry>, split: int, fn: nat)
    requires 0 <= split <= |l|
    ensures Removing(l, 0, split, fn, l, 0, split - 1)
  {
    assert l[..0] == [] && l[0..] == l && [] + l == l;
  }

  lemma Room(l: seq<C.Entry>, c: nat, split: int, fn: nat, now: seq<C.Entry>, index: nat, firingIndex: int)
    requires Removing(l, c, split, fn, now, index, firingIndex)
    ensures |now| == index + |l| - c
  {
  }

  lemma SearchMoves(l: seq<C.Entry>, c: nat, c': nat, split: int, fn: nat, now: seq<C.Entry>, index: nat, firingIndex: int)
    requires Removing(l, c, split, fn, now, index, firingIndex) && c <= c' <= |l|
    requires forall k :: index <= k < index + c' - c && k < |now| ==> now[k].fn != fn
    ensures Removing(l, c', split, fn, now, index + c' - c, firingIndex)
  {
    Untouched(l, c, c', fn);
    if c <= split <= c' {
      Untouched(l, c, split, fn);
    }
  }

  lemma SpliceMoves(l: seq<C.Entry>, c: nat, split: int, fn: nat, now: seq<C.Entry>, index: nat, firingIndex: int)
    requires Removing(l, c, split, fn, now, index, firingIndex) && index < |now| && now[index].fn == fn
    ensures c < |l|
    ensures Removing(l, c + 1, split, fn, now[..index] + now[index + 1..], index,
                     firingIndex - if index <= firingIndex then 1 else 0)
  {
    assert c < |l| by {
      assert |now| == index + |l| - c;
    }
    assert now[index] == l[c];
    LeftStep(l, c, fn);
    assert l[c..] == [l[c]] + l[c + 1..];
    if split <= c {
      LeftShrinks(l, split, c, fn);
    }
  }

  lemma RemovingEnds(l: seq<C.Entry>, split: int, fn: nat, now: seq<C.Entry>, index: int, firingIndex: int)
    requires Removing(l, |l|, split, fn, now, index, firingIndex)
    ensures Removed(l, split, fn, now, firingIndex)
  {
    assert l[..|l|] == l && l[|l|..] == [];
  }

  lemma RemoveMeans(s: C.State, fn: nat)
    requires s.list.Some? && -1 <= s.firingIndex < |s.list.value|
    ensures C.Remove(s, fn) == s.(list := Some(C.Without(s.list.value, fn)),
                                  firingIndex := |C.Without(s.list.value[..s.firingIndex + 1], fn)| - 1,
                                  current := C.Drop(s.current, C.IdsOf(C.Pending(s), fn)))
  {
  }

  lemma AddedNothing(s: C.State)
    requires s.list.Some?
    ensures C.Added(s, []) == s
  {
    var l := s.list.value;
    assert l[|l|..] == [];
    if s.current.Some? {
      assert s.current.value.roster + [] == s.current.value.roster;
    }
  }

  lemma AddedOne(s: C.State, fn: nat)
    requires s.list.Some?
    ensures
      var l, e := s.list.value, C.Entry(fn, s.nextId);
      C.Added(s, [fn]) ==
      if s.options.unique && C.Has(l, fn) then s
      else s.(list := Some(l + [e]), nextId := s.nextId + 1,
              current := C.Grown(s.current, [e]))
  {
    var l, e := s.list.value, C.Entry(fn, s.nextId);
    assert [fn][1..] == [];
    if s.options.unique && C.Has(l, fn) {
      AddedNothing(s);
    } else {
      assert C.Append(s.options.unique, l, s.nextId, [fn]) == l + [e];
      assert (l + [e])[|l|..] == [e];
    }
  }

  lemma AddedTwice(s: C.State, a: seq<nat>, b: seq<nat>)
    requires s.list.Some?
    ensures C.Added(C.Added(s, a), b) == C.Added(s, a + b)
  {
    AppendTwice(s.options.unique, s.list.value, s.nextId, a, b);
    var l, m := s.list.value, C.Append(s.options.unique, s.list.value, s.nextId, a);
    var r := C.Append(s.options.unique, l, s.nextId, a + b);
    assert r == C.Append(s.options.unique, m, s.nextId + |m| - |l|, b);
    GrownTwice(s.current, l, m, r);
  }

  lemma GrownTwice(p: Option<C.Pass>, l: seq<C.Entry>, m: seq<C.Entry>, r: seq<C.Entry>)
    requires |l| <= |m| <= |r| && r[..|m|] == m
    ensures C.Grown(C.Grown(p, m[|l|..]), r[|m|..]) == C.Grown(p, r[|l|..])
  {
    assert r == m + r[|m|..];
    if p.Some? {
      assert p.value.roster + r[|l|..] == (p.value.roster + m[|l|..]) + r[|m|..];
    }
  }
}
