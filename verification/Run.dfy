/** Whole runs: compile a selector list, then match a list of elements with one engine whose
    memo slots survive from run to run. */
module Run {
  import opened Collections
  import opened Dom
  import opened Selector
  import opened Memo

  // ----- Compilation hands out doneNames in strata

  /** The combinators that compiling the tokens before `i` creates, by doneName. */
  ghost function Created(tokens: seq<Token>, i: nat, done: nat): map<nat, Matcher>
    requires tokens != [] && FirstIndex(tokens) <= i <= |tokens|
    decreases i
  {
    if i == FirstIndex(tokens) then
      var f := Foundation(LeadingRelation(tokens), done);
      map[done := f.matchContext, done + 1 := f.matchAnyContext]
    else
      var (ms, next) := Matchers(tokens, i - 1, done);
      var created := Created(tokens, i - 1, done);
      match tokens[i - 1]
      case Rel(r) => created[next := Combinator(r, false, next, ElementMatcher(ms))]
      case Filt(_) => created
  }

  ghost predicate Within(registry: map<nat, Matcher>, from: nat, to: nat) {
    forall d :: d in registry ==> from <= d < to
  }

  ghost predicate Extends(larger: map<nat, Matcher>, registry: map<nat, Matcher>) {
    forall d :: d in registry ==> d in larger && larger[d] == registry[d]
  }

  lemma {:induction false} RegisteredExtends(m: Matcher, registry: map<nat, Matcher>, n: nat, larger: map<nat, Matcher>, n': nat)
    requires Registered(m, registry, n) && Extends(larger, registry) && n <= n'
    ensures Registered(m, larger, n')
    decreases m
  {
    match m {
      case Combinator(_, _, d, inner) => RegisteredExtends(inner, registry, d, larger, d);
      case Leading(_, one, any) =>
        RegisteredExtends(one, registry, n, larger, n');
        RegisteredExtends(any, registry, n, larger, n');
      case All(ms) =>
        forall i | 0 <= i < |ms| ensures Registered(ms[i], larger, n') {
          RegisteredExtends(ms[i], registry, n, larger, n');
        }
      case _ =>
    }
  }

  ghost predicate AllRegistered(ms: seq<Matcher>, registry: map<nat, Matcher>, n: nat) {
    forall j :: 0 <= j < |ms| ==> Registered(ms[j], registry, n)
  }

  lemma AllRegisteredExtends(ms: seq<Matcher>, registry: map<nat, Matcher>, n: nat, larger: map<nat, Matcher>, n': nat)
    requires AllRegistered(ms, registry, n) && Extends(larger, registry) && n <= n'
    ensures AllRegistered(ms, larger, n')
  {
    forall j | 0 <= j < |ms| ensures Registered(ms[j], larger, n') {
      RegisteredExtends(ms[j], registry, n, larger, n');
    }
  }

  lemma {:induction false} MatchersRegistered(tokens: seq<Token>, i: nat, done: nat)
    requires tokens != [] && FirstIndex(tokens) <= i <= |tokens|
    ensures var (ms, next) := Matchers(tokens, i, done);
            done < next && Within(Created(tokens, i, done), done, next) && AllRegistered(ms, Created(tokens, i, done), next)
    decreases i
  {
    if i > FirstIndex(tokens) {
      MatchersRegistered(tokens, i - 1, done);
      var (ms, next) := Matchers(tokens, i - 1, done);
      var created := Created(tokens, i - 1, done);
      match tokens[i - 1] {
        case Rel(r) =>
          var larger := Created(tokens, i, done);
          AllRegisteredExtends(ms, created, next, larger, next);
          assert Registered(ms[0], larger, next);
        case Filt(_) =>
      }
    } else {
      var f, created := Foundation(LeadingRelation(tokens), done), Created(tokens, i, done);
      assert Registered(f.matchContext, created, done + 2) && Registered(f.matchAnyContext, created, done + 2);
      assert Registered(f, created, done + 2);
    }
  }

  /** Every compiled matcher is stratified: an inner combinator has the smaller doneName. */
  lemma CompileRegistered(tokens: seq<Token>, done: nat)
    requires tokens != []
    ensures var (m, next) := Compile(tokens, done);
            done < next && Within(Created(tokens, |tokens|, done), done, next) &&
            Registered(m, Created(tokens, |tokens|, done), next)
  {
    MatchersRegistered(tokens, |tokens|, done);
    var (ms, next) := Matchers(tokens, |tokens|, done);
    assert Registered(ms[0], Created(tokens, |tokens|, done), next);
  }

  // ----- Selector lists

  ghost predicate TokenLists(groups: seq<seq<Token>>) {
    forall i :: 0 <= i < |groups| ==> groups[i] != []
  }

  /** compile: the groups are compiled from the last to the first. */
  method CompileGroups(groups: seq<seq<Token>>, done: nat)
    returns (matchers: seq<Matcher>, next: nat, ghost registry: map<nat, Matcher>)
    requires TokenLists(groups)
    ensures |matchers| == |groups| && done <= next && Within(registry, done, next)
    ensures AllRegistered(matchers, registry, next)
    ensures forall env: Env, e: Node, j :: 0 <= j < |groups| && WellFormed(env.tree) && InTree(env.tree, e) ==>
              (Holds(env, matchers[j], e) <==> Selects(env, groups[|groups| - 1 - j], e))
  {
    matchers, next, registry := [], done, map[];
    var i := |groups|;
    while i > 0
      invariant 0 <= i <= |groups| && |matchers| == |groups| - i
      invariant done <= next && Within(registry, done, next) && AllRegistered(matchers, registry, next)
      invariant forall env: Env, e: Node, j :: 0 <= j < |matchers| && WellFormed(env.tree) && InTree(env.tree, e) ==>
                  (Holds(env, matchers[j], e) <==> Selects(env, groups[|groups| - 1 - j], e))
    {
      i := i - 1;
      ghost var before := next;
      var m;
      m, next := MatcherFromTokens(groups[i], next);
      CompileRegistered(groups[i], before);
      ghost var larger := registry + Created(groups[i], |groups[i]|, before);
      RegisteredExtends(m, Created(groups[i], |groups[i]|, before), next, larger, next);
      AllRegisteredExtends(matchers, registry, before, larger, next);
      forall env: Env, e | WellFormed(env.tree) && InTree(env.tree, e)
        ensures Holds(env, m, e) <==> Selects(env, groups[i], e)
      {
        CompileMeaning(env, groups[i], before, e);
      }
      registry := larger;
      matchers := matchers + [m];
    }
  }

  /** The elements that some matcher accepts, in order. */
  function Accepted(env: Env, matchers: seq<Matcher>, elems: seq<Node>): seq<Node> {
    if elems == [] then []
    else
      var init, last := elems[..|elems| - 1], elems[|elems| - 1];
      Accepted(env, matchers, init) + if exists j :: 0 <= j < |matchers| && Holds(env, matchers[j], last) then [last] else []
  }

  /** The element loop of superMatcher in an outermost run. */
  method SuperMatcher(engine: Engine, env: Env, matchers: seq<Matcher>, elems: seq<Node>, initial: seq<Node>,
                      ghost registry: map<nat, Matcher>, ghost n: nat)
    returns (results: seq<Node>)
    requires engine.Valid() && AllRegistered(matchers, registry, n)
    modifies engine
    ensures engine.Valid() && engine.dirruns == old(engine.dirruns) + 1
    ensures results == initial + Accepted(env, matchers, elems)
  {
    engine.dirruns := engine.dirruns + 1;
    results := initial;
    var i := 0;
    while i < |elems|
      invariant 0 <= i <= |elems|
      invariant engine.dirruns == old(engine.dirruns) + 1
      invariant engine.Valid() && engine.Settled(env, registry, n)
      invariant results == initial + Accepted(env, matchers, elems[..i])
    {
      var j, found := 0, false;
      while j < |matchers| && !found
        invariant 0 <= j <= |matchers|
        invariant engine.dirruns == old(engine.dirruns) + 1
        invariant engine.Valid() && engine.Settled(env, registry, n)
        invariant found <==> exists k :: 0 <= k < j && Holds(env, matchers[k], elems[i])
      {
        found := engine.Match(env, matchers[j], elems[i], registry, n);
        j := j + 1;
      }
      assert elems[..i + 1][..i] == elems[..i];
      if found {
        results := results + [elems[i]];
      }
      i := i + 1;
    }
    assert elems[..i] == elems;
  }

  ghost predicate SelectedBySome(env: Env, groups: seq<seq<Token>>, e: Node)
    requires TokenLists(groups)
  {
    exists g :: 0 <= g < |groups| && Selects(env, groups[g], e)
  }

  /** The elements that some selector of the list represents, in order. */
  ghost function Selected(env: Env, groups: seq<seq<Token>>, elems: seq<Node>): seq<Node>
    requires TokenLists(groups)
  {
    if elems == [] then []
    else
      var init, last := elems[..|elems| - 1], elems[|elems| - 1];
      Selected(env, groups, init) + if SelectedBySome(env, groups, last) then [last] else []
  }

  ghost function SelectedPlaces(env: Env, groups: seq<seq<Token>>, elems: seq<Node>): set<nat>
    requires TokenLists(groups)
  {
    set i | 0 <= i < |elems| && SelectedBySome(env, groups, elems[i])
  }

  /** The selected elements are those at exactly the places that some selector represents, in
      order. */
  lemma {:induction false} SelectedInOrder(env: Env, groups: seq<seq<Token>>, elems: seq<Node>)
    requires TokenLists(groups)
    ensures Chooses(Selected(env, groups, elems), elems, SelectedPlaces(env, groups, elems))
    decreases |elems|
  {
    if elems == [] {
      ChoosesNone(elems);
      assert SelectedPlaces(env, groups, elems) == {};
    } else {
      var init, last := elems[..|elems| - 1], elems[|elems| - 1];
      SelectedInOrder(env, groups, init);
      assert elems == init + [last];
      if SelectedBySome(env, groups, last) {
        ChoosesMore(Selected(env, groups, init), init, SelectedPlaces(env, groups, init), last);
        assert SelectedPlaces(env, groups, elems) == SelectedPlaces(env, groups, init) + {|init|};
      } else {
        ChoosesSkip(Selected(env, groups, init), init, SelectedPlaces(env, groups, init), last);
        assert SelectedPlaces(env, groups, elems) == SelectedPlaces(env, groups, init);
        assert Selected(env, groups, elems) == Selected(env, groups, init);
      }
    }
  }

  lemma {:induction false} AcceptedIsSelected(env: Env, groups: seq<seq<Token>>, matchers: seq<Matcher>, elems: seq<Node>)
    requires TokenLists(groups) && |matchers| == |groups| && WellFormed(env.tree)
    requires forall i :: 0 <= i < |elems| ==> InTree(env.tree, elems[i])
    requires forall e, j :: 0 <= j < |groups| && InTree(env.tree, e) ==>
               (Holds(env, matchers[j], e) <==> Selects(env, groups[|groups| - 1 - j], e))
    ensures Accepted(env, matchers, elems) == Selected(env, groups, elems)
    decreases |elems|
  {
    if elems != [] {
      var init, last := elems[..|elems| - 1], elems[|elems| - 1];
      AcceptedIsSelected(env, groups, matchers, init);
      if SelectedBySome(env, groups, last) {
        var g :| 0 <= g < |groups| && Selects(env, groups[g], last);
        var j := |groups| - 1 - g;
        assert Holds(env, matchers[j], last) <==> Selects(env, groups[|groups| - 1 - j], last);
      }
    }
  }

  /** Compiling a selector list and running it over `elems`, with whatever records earlier
      runs left behind, yields exactly the elements the selectors represent. */
  method Select(engine: Engine, env: Env, groups: seq<seq<Token>>, elems: seq<Node>, initial: seq<Node>, done: nat)
    returns (results: seq<Node>, next: nat)
    requires engine.Valid() && TokenLists(groups) && WellFormed(env.tree)
    requires forall i :: 0 <= i < |elems| ==> InTree(env.tree, elems[i])
    modifies engine
    ensures engine.Valid() && done <= next
    ensures initial <= results && Chooses(results[|initial|..], elems, SelectedPlaces(env, groups, elems))
  {
    var matchers;
    ghost var registry;
    matchers, next, registry := CompileGroups(groups, done);
    results := SuperMatcher(engine, env, matchers, elems, initial, registry, next);
    AcceptedIsSelected(env, groups, matchers, elems);
    SelectedInOrder(env, groups, elems);
    assert results[|initial|..] == Selected(env, groups, elems);
  }
}
