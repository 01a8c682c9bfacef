/** The memo that the non-`first` combinators keep on elements: one mutable record per walk,
    shared by every element the walk visits, in a slot per element and direction that all
    combinators of a run compete for. */
module Memo {
  import opened Collections
  import opened Dom
  import opened Selector

  /** Slot 2 of a record, before and after its first assignment. */
  datatype Verdict = Undefined | Known(value: bool)

  /** `newCache = [ dirruns, doneName ]` */
  class Record {
    const run: int
    const doneName: nat
    var verdict: Verdict

    constructor (run: int, doneName: nat)
      ensures this.run == run && this.doneName == doneName && verdict == Undefined
    {
      this.run := run;
      this.doneName := doneName;
      verdict := Undefined;
    }
  }

  type Slot = (Node, Dir)

  /** Every combinator inside `m` is the one `registry` lists under its doneName, its
      doneName is below `n`, and those nested in it are below its own. */
  ghost predicate Registered(m: Matcher, registry: map<nat, Matcher>, n: nat)
    decreases m
  {
    match m
    case Combinator(_, _, d, inner) => d < n && d in registry && registry[d] == m && Registered(inner, registry, d)
    case Leading(_, one, any) => Registered(one, registry, n) && Registered(any, registry, n)
    case All(ms) => forall i :: 0 <= i < |ms| ==> Registered(ms[i], registry, n)
    case _ => true
  }

  /** The answer a record stores for a visited node: the node itself, or one further on. */
  ghost predicate Onwards(env: Env, m: Matcher, x: Node)
    requires m.Combinator?
  {
    Walk(env, m, Some(x))
  }

  class Engine {
    var dirruns: int
    var slots: map<Slot, Record>

    constructor ()
      ensures Valid() && slots == map[] && dirruns == 0
    {
      dirruns := 0;
      slots := map[];
    }

    /** No record comes from a run that has not started. */
    ghost predicate Valid()
      reads this
    {
      forall k :: k in slots ==> slots[k].run <= dirruns
    }

    /** The record in slot `k`, if it belongs to this run, holds the right answer. */
    ghost predicate Correct(env: Env, registry: map<nat, Matcher>, k: Slot)
      requires k in slots
      reads this, slots[k]
    {
      var r := slots[k];
      && r.doneName in registry && registry[r.doneName].Combinator?
      && k.1 == DirOf(registry[r.doneName].relation)
      && r.verdict == Known(Onwards(env, registry[r.doneName], k.0))
    }

    /** The records of combinators below `n` are settled.  A walk of combinator `n` or above
        may be in progress: its own record is not settled yet. */
    ghost predicate Settled(env: Env, registry: map<nat, Matcher>, n: nat)
      reads this, slots.Values
    {
      forall k :: k in slots && slots[k].run == dirruns && slots[k].doneName < n ==> Correct(env, registry, k)
    }

    /** Slots may since have been taken over, but only by combinators below `n`. */
    twostate predicate TakenOverBelow(n: nat)
      reads this
    {
      forall k :: k in slots ==> (k in old(slots) && slots[k] == old(slots[k])) || slots[k].doneName < n
    }

    /** Runs a compiled matcher on one element of the current run. */
    method Match(env: Env, m: Matcher, e: Node, ghost registry: map<nat, Matcher>, ghost n: nat) returns (b: bool)
      requires Valid() && Settled(env, registry, n) && Registered(m, registry, n)
      modifies this`slots
      ensures b == Holds(env, m, e)
      ensures Valid() && Settled(env, registry, n) && TakenOverBelow(n)
      decreases m, 1
    {
      match m {
        case Filter(f) => b := env.accepts(f, e);
        case IsContext => b := env.context == One(e);
        case InContexts => b := env.context.Many? && e in env.context.nodes;
        case Leading(relative, one, any) =>
          if !relative && (env.xml || !env.outermost) {
            b := true;
          } else if env.context.One? {
            b := Match(env, one, e, registry, n);
          } else {
            b := Match(env, any, e, registry, n);
          }
        case All(ms) =>
          var i := |ms|;
          while i > 0
            invariant 0 <= i <= |ms|
            invariant Valid() && Settled(env, registry, n) && TakenOverBelow(n)
            invariant forall j :: i <= j < |ms| ==> Holds(env, ms[j], e)
          {
            i := i - 1;
            var ok := Match(env, ms[i], e, registry, n);
            if !ok {
              return false;
            }
          }
          b := true;
        case Combinator(r, base, d, inner) =>
          if First(r) {
            b := MatchFirst(env, m, e, registry, n);
          } else if env.xml {
            b := MatchUncached(env, m, e, registry, n);
          } else {
            b := MatchCached(env, m, e, registry, n);
          }
      }
    }

    /** Check against the closest ancestor or preceding element. */
    method MatchFirst(env: Env, m: Matcher, e: Node, ghost registry: map<nat, Matcher>, ghost n: nat) returns (b: bool)
      requires Valid() && Settled(env, registry, n) && Registered(m, registry, n) && m.Combinator? && First(m.relation)
      modifies this`slots
      ensures b == Holds(env, m, e)
      ensures Valid() && Settled(env, registry, n) && TakenOverBelow(n)
      decreases m, 0
    {
      var d := DirOf(m.relation);
      var x := Axis(d, e);
      while x.Some?
        invariant Nearest(env.tree, d, m.base, e) ==
                  if x.None? then None
                  else if Qualifies(env.tree, d, m.base, x.value) then x
                  else Nearest(env.tree, d, m.base, x.value)
        invariant slots == old(slots)
        decreases if x.None? then 0 else Rank(d, x.value) + 1
      {
        if Qualifies(env.tree, d, m.base, x.value) {
          b := Match(env, m.inner, x.value, registry, m.doneName);
          return;
        }
        x := Axis(d, x.value);
      }
      b := false;
    }

    /** Check against all ancestor or preceding elements: the branch for XML documents. */
    method MatchUncached(env: Env, m: Matcher, e: Node, ghost registry: map<nat, Matcher>, ghost n: nat) returns (b: bool)
      requires Valid() && Settled(env, registry, n) && Registered(m, registry, n) && m.Combinator? && !First(m.relation)
      modifies this`slots
      ensures b == Holds(env, m, e)
      ensures Valid() && Settled(env, registry, n) && TakenOverBelow(n)
      decreases m, 0
    {
      var d := DirOf(m.relation);
      var x := Axis(d, e);
      while x.Some?
        invariant Walk(env, m, Axis(d, e)) == Walk(env, m, x)
        invariant Valid() && Settled(env, registry, n) && TakenOverBelow(n)
        decreases if x.None? then 0 else Rank(d, x.value) + 1
      {
        if Qualifies(env.tree, d, m.base, x.value) {
          var found := Match(env, m.inner, x.value, registry, m.doneName);
          if found {
            return true;
          }
        }
        x := Axis(d, x.value);
      }
      b := false;
    }

    /** The slots that hold `record` are those of nodes visited before rank `from`, all of
        which await the answer of the rest of the walk. */
    ghost predicate Awaiting(env: Env, m: Matcher, record: Record, rest: bool, from: nat)
      requires m.Combinator?
      reads this
    {
      forall k :: k in slots && slots[k] == record ==>
        && k.1 == DirOf(m.relation) && Rank(k.1, k.0) >= from
        && Onwards(env, m, k.0) == rest
    }

    /** Every record of combinator `d` but the given one is settled, as are those below. */
    ghost predicate SettledBut(env: Env, registry: map<nat, Matcher>, n: nat, record: Record)
      reads this, slots.Values
    {
      forall k :: k in slots && slots[k].run == dirruns && slots[k].doneName < n && slots[k] != record ==>
        Correct(env, registry, k)
    }

    /** Runs the inner matcher on `node`, whose slot `record` has already taken.  The inner
        matcher may take slots over, which disturbs neither the settled records nor those
        that await this walk. */
    method RunInner(env: Env, m: Matcher, node: Node, record: Record, ghost registry: map<nat, Matcher>, ghost n: nat)
      returns (found: bool)
      requires Registered(m, registry, n) && m.Combinator?
      requires Valid() && SettledBut(env, registry, n, record) && record.doneName == m.doneName
      requires Awaiting(env, m, record, Walk(env, m, Some(node)), Rank(DirOf(m.relation), node))
      modifies this`slots, record
      ensures Valid() && SettledBut(env, registry, n, record) && TakenOverBelow(m.doneName)
      ensures Awaiting(env, m, record, Walk(env, m, Some(node)), Rank(DirOf(m.relation), node))
      ensures found == Holds(env, m.inner, node) && record.verdict == Known(found)
      decreases m, 0, 0
    {
      found := Match(env, m.inner, node, registry, m.doneName);
      forall k | k in slots && slots[k].run == dirruns && slots[k].doneName < n && slots[k] != record
        ensures Correct(env, registry, k)
      {
        if k in old(slots) && slots[k] == old(slots[k]) {
          assert old(Correct(env, registry, k));
        }
      }
      record.verdict := Known(found);
    }

    /** Visits one qualifying node: reads its memo, or takes its slot over and runs the inner
        matcher on it.  A hit ends the walk with the verdict left in `record`. */
    method Visit(env: Env, m: Matcher, node: Node, record: Record, ghost registry: map<nat, Matcher>, ghost n: nat)
      returns (hit: bool)
      requires Registered(m, registry, n) && m.Combinator? && !First(m.relation)
      requires Valid() && SettledBut(env, registry, n, record)
      requires Awaiting(env, m, record, Walk(env, m, Some(node)), Rank(DirOf(m.relation), node) + 1)
      requires record.run == dirruns && record.doneName == m.doneName
      requires Qualifies(env.tree, DirOf(m.relation), m.base, node)
      modifies this`slots, record
      ensures Valid() && SettledBut(env, registry, n, record) && TakenOverBelow(n)
      ensures Awaiting(env, m, record, Walk(env, m, Some(node)), Rank(DirOf(m.relation), node))
      ensures hit ==> record.verdict == Known(Walk(env, m, Some(node)))
      ensures !hit ==> record.verdict == Known(false) && !Found(env, m, node)
      decreases m, 0, 1
    {
      var key := (node, DirOf(m.relation));
      if key in slots && slots[key].run == dirruns && slots[key].doneName == m.doneName {
        assert Correct(env, registry, key);
        record.verdict := slots[key].verdict;
        hit := true;
      } else {
        slots := slots[key := record];
        hit := RunInner(env, m, node, record, registry, n);
      }
    }

    /** The same check outside XML: results are remembered and back-propagate to the nodes
        visited earlier in the walk. */
    method MatchCached(env: Env, m: Matcher, e: Node, ghost registry: map<nat, Matcher>, ghost n: nat) returns (b: bool)
      requires Valid() && Settled(env, registry, n) && Registered(m, registry, n) && m.Combinator? && !First(m.relation)
      modifies this`slots
      ensures b == Holds(env, m, e)
      ensures Valid() && Settled(env, registry, n) && TakenOverBelow(n)
      decreases m, 0
    {
      var d := DirOf(m.relation);
      var newCache := new Record(dirruns, m.doneName);
      var x := Axis(d, e);
      while x.Some?
        invariant Walk(env, m, Axis(d, e)) == Walk(env, m, x)
        invariant Valid() && SettledBut(env, registry, n, newCache) && TakenOverBelow(n)
        invariant Awaiting(env, m, newCache, Walk(env, m, x), if x.None? then 0 else Rank(d, x.value) + 1)
        invariant newCache in slots.Values ==> newCache.verdict == Known(false)
        decreases if x.None? then 0 else Rank(d, x.value) + 1
      {
        if Qualifies(env.tree, d, m.base, x.value) {
          var hit := Visit(env, m, x.value, newCache, registry, n);
          if hit {
            return newCache.verdict == Known(true);
          }
        }
        x := Axis(d, x.value);
      }
      b := false;
    }
  }
}
