/** Sizzle's compilation of a token list into a right-to-left matcher, and the declarative
    meaning of the selector (section 8 of Selectors Level 3) that it is proved against. */
module Selector {
  import opened Collections
  import opened Dom

  /** Expr.relative: ">", " ", "+" and "~". */
  datatype Relation = Child | Descendant | Adjacent | Sibling

  function DirOf(r: Relation): Dir {
    if r.Child? || r.Descendant? then ParentNode else PreviousSibling
  }

  predicate First(r: Relation) {
    r.Child? || r.Adjacent?
  }

  /** A token is a combinator or a simple selector; the latter is named by the pure filter
      that Expr.filter builds for it. */
  datatype Token = Rel(relation: Relation) | Filt(filter: nat)

  /** A single context node, or an array of them. */
  datatype Context = One(node: Node) | Many(nodes: seq<Node>)

  /** What stays fixed during one run.  `outermost` is `context === outermostContext`. */
  datatype Env = Env(tree: Tree, accepts: (nat, Node) -> bool, context: Context, outermost: bool, xml: bool)

  /** The closures that compilation builds.  `doneName` is the identifier a combinator takes
      from the global counter `done`. */
  datatype Matcher =
    | Filter(filter: nat)
    | IsContext
    | InContexts
    | Leading(leadingRelative: bool, matchContext: Matcher, matchAnyContext: Matcher)
    | Combinator(relation: Relation, base: bool, doneName: nat, inner: Matcher)
    | All(matchers: seq<Matcher>)

  // ----- What a matcher answers when nothing is cached

  /** `elem.nodeType === 1 || checkNonElements` */
  predicate Qualifies(t: Tree, d: Dir, base: bool, x: Node) {
    IsElement(t, x) || (base && d.ParentNode?)
  }

  function Nearest(t: Tree, d: Dir, base: bool, e: Node): Option<Node>
    decreases Rank(d, e)
  {
    match Axis(d, e)
    case None => None
    case Some(x) => if Qualifies(t, d, base, x) then Some(x) else Nearest(t, d, base, x)
  }

  predicate Holds(env: Env, m: Matcher, e: Node)
    decreases m, 1, 0
  {
    match m
    case Filter(f) => env.accepts(f, e)
    case IsContext => env.context == One(e)
    case InContexts => env.context.Many? && e in env.context.nodes
    case Leading(relative, one, any) =>
      || (!relative && (env.xml || !env.outermost))
      || (if env.context.One? then Holds(env, one, e) else Holds(env, any, e))
    case Combinator(r, base, _, inner) =>
      if First(r) then
        var x := Nearest(env.tree, DirOf(r), base, e);
        x.Some? && Holds(env, inner, x.value)
      else
        Walk(env, m, Axis(DirOf(r), e))
    case All(ms) => forall i :: 0 <= i < |ms| ==> Holds(env, ms[i], e)
  }

  /** Some qualifying node from `from` onwards satisfies the inner matcher of `m`. */
  predicate Walk(env: Env, m: Matcher, from: Option<Node>)
    requires m.Combinator?
    decreases m, 0, if from.None? then 0 else Rank(DirOf(m.relation), from.value) + 1
  {
    from.Some? && (Found(env, m, from.value) || Walk(env, m, Axis(DirOf(m.relation), from.value)))
  }

  predicate Found(env: Env, m: Matcher, x: Node)
    requires m.Combinator?
    decreases m, 0, 0
  {
    Qualifies(env.tree, DirOf(m.relation), m.base, x) && Holds(env, m.inner, x)
  }

  // ----- Compilation

  function LeadingRelation(tokens: seq<Token>): Option<Relation>
    requires tokens != []
  {
    if tokens[0].Rel? then Some(tokens[0].relation) else None
  }

  function ImplicitRelation(lead: Option<Relation>): Relation {
    if lead.Some? then lead.value else Descendant
  }

  function FirstIndex(tokens: seq<Token>): nat {
    if tokens != [] && tokens[0].Rel? then 1 else 0
  }

  function Foundation(lead: Option<Relation>, done: nat): Matcher {
    Leading(lead.Some?,
            Combinator(ImplicitRelation(lead), true, done, IsContext),
            Combinator(ImplicitRelation(lead), true, done + 1, InContexts))
  }

  function ElementMatcher(ms: seq<Matcher>): Matcher
    requires ms != []
  {
    if |ms| > 1 then All(ms) else ms[0]
  }

  /** The list `matchers` and the counter `done` once the tokens before `i` are consumed. */
  function Matchers(tokens: seq<Token>, i: nat, done: nat): (r: (seq<Matcher>, nat))
    requires tokens != [] && FirstIndex(tokens) <= i <= |tokens|
    ensures r.0 != []
    decreases i
  {
    if i == FirstIndex(tokens) then ([Foundation(LeadingRelation(tokens), done)], done + 2)
    else
      var (ms, next) := Matchers(tokens, i - 1, done);
      match tokens[i - 1]
      case Rel(r) => ([Combinator(r, false, next, ElementMatcher(ms))], next + 1)
      case Filt(f) => (ms + [Filter(f)], next)
  }

  function Compile(tokens: seq<Token>, done: nat): (Matcher, nat)
    requires tokens != []
  {
    var (ms, next) := Matchers(tokens, |tokens|, done);
    (ElementMatcher(ms), next)
  }

  /** matcherFromTokens, for a token list without positional filters. */
  method MatcherFromTokens(tokens: seq<Token>, done: nat) returns (m: Matcher, next: nat)
    requires tokens != []
    ensures (m, next) == Compile(tokens, done)
  {
    var leading := LeadingRelation(tokens);
    var implicit := ImplicitRelation(leading);
    var i := if leading.Some? then 1 else 0;
    var matchContext := Combinator(implicit, true, done, IsContext);
    var matchAnyContext := Combinator(implicit, true, done + 1, InContexts);
    next := done + 2;
    var matchers := [Leading(leading.Some?, matchContext, matchAnyContext)];
    while i < |tokens|
      invariant FirstIndex(tokens) <= i <= |tokens|
      invariant (matchers, next) == Matchers(tokens, i, done)
    {
      match tokens[i] {
        case Rel(r) =>
          matchers := [Combinator(r, false, next, ElementMatcher(matchers))];
          next := next + 1;
        case Filt(f) =>
          matchers := matchers + [Filter(f)];
      }
      i := i + 1;
    }
    m := ElementMatcher(matchers);
  }

  // ----- The declarative meaning

  predicate EarlierSibling(x: Node, e: Node) {
    x != [] && e != [] && Parent(x) == Parent(e) && ChildIndex(x) < ChildIndex(e)
  }

  predicate ProperAncestor(x: Node, e: Node) {
    |x| < |e| && x == e[..|x|]
  }

  /** `x` stands in relation `r` to the left of `e`.  Only the leading context (`base`) may
      be an ancestor that is no element. */
  ghost predicate Related(t: Tree, r: Relation, base: bool, x: Node, e: Node) {
    match r
    case Descendant => ProperAncestor(x, e) && (base || IsElement(t, x))
    case Child => e != [] && x == Parent(e) && (base || IsElement(t, x))
    case Sibling => EarlierSibling(x, e) && IsElement(t, x)
    case Adjacent =>
      && EarlierSibling(x, e) && IsElement(t, x)
      && forall y :: EarlierSibling(y, e) && IsElement(t, y) ==> ChildIndex(y) <= ChildIndex(x)
  }

  /** Compounds C0..Cn with the combinators between them. */
  datatype Complex = Complex(compounds: seq<seq<nat>>, relations: seq<Relation>)

  function WithFilter(s: Complex, f: nat): (r: Complex)
    requires |s.compounds| == |s.relations| + 1
    ensures |r.compounds| == |r.relations| + 1
  {
    var last := |s.compounds| - 1;
    Complex(s.compounds[..last] + [s.compounds[last] + [f]], s.relations)
  }

  function WithRelation(s: Complex, r: Relation): Complex {
    Complex(s.compounds + [[]], s.relations + [r])
  }

  function Parse(tokens: seq<Token>, i: nat): (s: Complex)
    requires FirstIndex(tokens) <= i <= |tokens|
    ensures |s.compounds| == |s.relations| + 1
    decreases i
  {
    if i == FirstIndex(tokens) then Complex([[]], [])
    else
      var s := Parse(tokens, i - 1);
      match tokens[i - 1]
      case Rel(r) => WithRelation(s, r)
      case Filt(f) => WithFilter(s, f)
  }

  function Filts(compound: seq<nat>): seq<Token> {
    if compound == [] then [] else Filts(compound[..|compound| - 1]) + [Filt(compound[|compound| - 1])]
  }

  /** The tokens of a selector, written out. */
  function Written(lead: Option<Relation>, s: Complex): seq<Token>
    requires |s.compounds| == |s.relations| + 1
    decreases |s.relations|
  {
    var n := |s.relations|;
    if n == 0 then (if lead.Some? then [Rel(lead.value)] else []) + Filts(s.compounds[0])
    else Written(lead, Complex(s.compounds[..n], s.relations[..n - 1])) + [Rel(s.relations[n - 1])] + Filts(s.compounds[n])
  }

  /** Parsing reads the tokens as what they are: written out again, the compounds and relations
      are the same tokens, and what is not led by a combinator starts with a simple selector. */
  lemma ParseReads(tokens: seq<Token>)
    requires tokens != []
    ensures var lead, s := LeadingRelation(tokens), Parse(tokens, |tokens|);
            Written(lead, s) == tokens && (lead.None? ==> s.compounds[0] != [])
  {
    ParseWrites(tokens, |tokens|);
    assert tokens[..|tokens|] == tokens;
  }

  lemma {:induction false} ParseWrites(tokens: seq<Token>, i: nat)
    requires tokens != [] && FirstIndex(tokens) <= i <= |tokens|
    ensures var lead, s := LeadingRelation(tokens), Parse(tokens, i);
            Written(lead, s) == tokens[..i] && (lead.None? && i > 0 ==> s.compounds[0] != [])
    decreases i
  {
    if i > FirstIndex(tokens) {
      ParseWrites(tokens, i - 1);
      var lead, s := LeadingRelation(tokens), Parse(tokens, i - 1);
      assert tokens[..i] == tokens[..i - 1] + [tokens[i - 1]];
      match tokens[i - 1] {
        case Rel(r) => WriteRelation(lead, s, r);
        case Filt(f) => WriteFilter(lead, s, f);
      }
    }
  }

  lemma WriteRelation(lead: Option<Relation>, s: Complex, r: Relation)
    requires |s.compounds| == |s.relations| + 1
    ensures Written(lead, WithRelation(s, r)) == Written(lead, s) + [Rel(r)]
  {
    var s', n := WithRelation(s, r), |s.relations| + 1;
    assert Complex(s'.compounds[..n], s'.relations[..n - 1]) == s;
    assert Written(lead, s) + [Rel(r)] + [] == Written(lead, s) + [Rel(r)];
  }

  lemma WriteFilter(lead: Option<Relation>, s: Complex, f: nat)
    requires |s.compounds| == |s.relations| + 1
    ensures Written(lead, WithFilter(s, f)) == Written(lead, s) + [Filt(f)]
  {
    var s', n := WithFilter(s, f), |s.relations|;
    FiltsSnoc(s.compounds[n], f);
    if n > 0 {
      assert Complex(s'.compounds[..n], s'.relations[..n - 1]) == Complex(s.compounds[..n], s.relations[..n - 1]);
    }
  }

  lemma FiltsSnoc(compound: seq<nat>, f: nat)
    ensures Filts(compound + [f]) == Filts(compound) + [Filt(f)]
  {
    assert (compound + [f])[..|compound + [f]| - 1] == compound;
  }

  predicate Satisfies(env: Env, compound: seq<nat>, x: Node) {
    forall i :: 0 <= i < |compound| ==> env.accepts(compound[i], x)
  }

  predicate IsContextNode(c: Context, x: Node) {
    match c case One(n) => x == n case Many(ns) => x in ns
  }

  /** Without a leading combinator the first compound must lie somewhere below a context node,
      unless the context is not the outermost one (or the document is XML); with one, it must
      stand in that relation to a context node. */
  ghost predicate Anchored(env: Env, lead: Option<Relation>, x: Node) {
    match lead
    case None => env.xml || !env.outermost || exists c :: IsContextNode(env.context, c) && ProperAncestor(c, x)
    case Some(r) => exists c :: IsContextNode(env.context, c) && Related(env.tree, r, true, c, x)
  }

  ghost predicate Assignment(env: Env, lead: Option<Relation>, s: Complex, xs: seq<Node>)
    requires |s.compounds| == |s.relations| + 1
  {
    && |xs| == |s.compounds|
    && Anchored(env, lead, xs[0])
    && (forall i :: 0 <= i < |xs| ==> Satisfies(env, s.compounds[i], xs[i]))
    && (forall i :: 0 <= i < |s.relations| ==> Related(env.tree, s.relations[i], false, xs[i], xs[i + 1]))
  }

  ghost predicate AssignmentTo(env: Env, lead: Option<Relation>, s: Complex, xs: seq<Node>, e: Node)
    requires |s.compounds| == |s.relations| + 1
  {
    Assignment(env, lead, s, xs) && xs[|xs| - 1] == e
  }

  ghost predicate Assignable(env: Env, lead: Option<Relation>, s: Complex, e: Node)
    requires |s.compounds| == |s.relations| + 1
  {
    exists xs :: AssignmentTo(env, lead, s, xs, e)
  }

  /** The selector `tokens` represents `e`. */
  ghost predicate Selects(env: Env, tokens: seq<Token>, e: Node)
    requires tokens != []
  {
    Assignable(env, LeadingRelation(tokens), Parse(tokens, |tokens|), e)
  }

  // ----- Walking an axis finds exactly the related nodes

  ghost predicate Onward(d: Dir, x: Node, e: Node) {
    match d case ParentNode => ProperAncestor(x, e) case PreviousSibling => EarlierSibling(x, e)
  }

  lemma OnwardStep(d: Dir, x: Node, e: Node)
    ensures Onward(d, x, e) <==> Axis(d, e).Some? && (x == Axis(d, e).value || Onward(d, x, Axis(d, e).value))
  {
    if e != [] && d.ParentNode? && |x| < |e| {
      assert e[..|x|] == Parent(e)[..|x|];
    }
    if e != [] && d.PreviousSibling? && ChildIndex(e) > 0 {
      var p := Axis(d, e).value;
      assert Parent(p) == Parent(e) && ChildIndex(p) == ChildIndex(e) - 1;
      if x != [] && Parent(x) == Parent(e) && ChildIndex(x) == ChildIndex(p) {
        assert x == Parent(x) + [ChildIndex(x)];
      }
    }
  }

  lemma {:induction false} WalkMeaning(env: Env, m: Matcher, e: Node)
    requires m.Combinator?
    ensures Walk(env, m, Axis(DirOf(m.relation), e)) <==>
            exists x :: Onward(DirOf(m.relation), x, e) && Found(env, m, x)
    decreases Rank(DirOf(m.relation), e)
  {
    var d := DirOf(m.relation);
    forall x ensures Onward(d, x, e) <==> Axis(d, e).Some? && (x == Axis(d, e).value || Onward(d, x, Axis(d, e).value)) {
      OnwardStep(d, x, e);
    }
    if Axis(d, e).Some? {
      var p := Axis(d, e).value;
      WalkMeaning(env, m, p);
      assert Onward(d, p, e);
      if x :| Onward(d, x, e) && Found(env, m, x) {
        assert x == p || Onward(d, x, p);
      }
      if x :| Onward(d, x, p) && Found(env, m, x) {
        assert Onward(d, x, e);
      }
    }
  }

  /** The nearest qualifying node is onward of `e`, qualifies, and no nearer one qualifies. */
  lemma {:induction false} NearestMeaning(t: Tree, d: Dir, base: bool, e: Node)
    ensures Nearest(t, d, base, e).Some? ==>
              var x := Nearest(t, d, base, e).value;
              && Onward(d, x, e) && Qualifies(t, d, base, x)
              && forall y :: Onward(d, y, e) && Qualifies(t, d, base, y) ==> y == x || Onward(d, y, x)
    ensures Nearest(t, d, base, e).None? ==> forall y :: Onward(d, y, e) ==> !Qualifies(t, d, base, y)
    decreases Rank(d, e)
  {
    forall x ensures Onward(d, x, e) <==> Axis(d, e).Some? && (x == Axis(d, e).value || Onward(d, x, Axis(d, e).value)) {
      OnwardStep(d, x, e);
    }
    if Axis(d, e).Some? {
      NearestMeaning(t, d, base, Axis(d, e).value);
    }
  }

  lemma ParentIsNearest(t: Tree, base: bool, e: Node)
    requires WellFormed(t) && InTree(t, e) && e != []
    ensures base || IsElement(t, Parent(e)) <==> Nearest(t, ParentNode, base, e).Some?
    ensures Nearest(t, ParentNode, base, e).Some? ==> Nearest(t, ParentNode, base, e).value == Parent(e)
  {
    var p := Parent(e);
    ParentInTree(t, e);
    if p != [] {
      assert At(t, p).kind.Element?;
    } else {
      assert Axis(ParentNode, p) == None;
    }
  }

  lemma NearestIsRelated(t: Tree, r: Relation, base: bool, x: Node, e: Node)
    requires WellFormed(t) && InTree(t, e) && First(r)
    ensures Related(t, r, base, x, e) <==> Nearest(t, DirOf(r), base, e) == Some(x)
  {
    if r.Child? {
      if e != [] {
        ParentIsNearest(t, base, e);
      }
    } else {
      NearestMeaning(t, PreviousSibling, base, e);
      if Related(t, r, base, x, e) {
        assert Onward(PreviousSibling, x, e) && Qualifies(t, PreviousSibling, base, x);
        var y := Nearest(t, PreviousSibling, base, e).value;
        assert x == Parent(x) + [ChildIndex(x)];
        assert y == Parent(y) + [ChildIndex(y)];
      }
      forall y | Nearest(t, PreviousSibling, base, e) == Some(x) && EarlierSibling(y, e) && IsElement(t, y)
        ensures ChildIndex(y) <= ChildIndex(x)
      {
        assert Onward(PreviousSibling, y, e) && Qualifies(t, PreviousSibling, base, y);
      }
    }
  }

  /** A compiled combinator accepts `e` iff a related node satisfies what is to its left. */
  lemma CombinatorMeaning(env: Env, m: Matcher, e: Node)
    requires WellFormed(env.tree) && InTree(env.tree, e) && m.Combinator?
    ensures Holds(env, m, e) <==>
            exists x :: Related(env.tree, m.relation, m.base, x, e) && Holds(env, m.inner, x)
  {
    var r, t := m.relation, env.tree;
    if First(r) {
      var n := Nearest(t, DirOf(r), m.base, e);
      if n.Some? {
        NearestIsRelated(t, r, m.base, n.value, e);
      }
      forall x | Related(t, r, m.base, x, e) ensures n == Some(x) {
        NearestIsRelated(t, r, m.base, x, e);
      }
    } else {
      WalkMeaning(env, m, e);
      forall x ensures Related(t, r, m.base, x, e) <==> Onward(DirOf(r), x, e) && Qualifies(t, DirOf(r), m.base, x) {
      }
      if Holds(env, m, e) {
        var x :| Onward(DirOf(r), x, e) && Found(env, m, x);
        assert Related(t, r, m.base, x, e) && Holds(env, m.inner, x);
      }
      if x :| Related(t, r, m.base, x, e) && Holds(env, m.inner, x) {
        assert Onward(DirOf(r), x, e) && Found(env, m, x);
      }
    }
  }

  // ----- Compilation preserves meaning

  lemma FoundationMeaning(env: Env, lead: Option<Relation>, done: nat, e: Node)
    requires WellFormed(env.tree) && InTree(env.tree, e)
    ensures Holds(env, Foundation(lead, done), e) <==> Anchored(env, lead, e)
  {
    var f := Foundation(lead, done);
    var m := if env.context.One? then f.matchContext else f.matchAnyContext;
    CombinatorMeaning(env, m, e);
    forall c ensures Holds(env, m.inner, c) <==> IsContextNode(env.context, c) {
    }
    if lead.None? {
      forall c ensures Related(env.tree, m.relation, true, c, e) <==> ProperAncestor(c, e) {
      }
    }
    assert Holds(env, m, e) <==> exists c :: IsContextNode(env.context, c) && Related(env.tree, m.relation, true, c, e) by {
      forall c ensures Holds(env, m.inner, c) && Related(env.tree, m.relation, true, c, e) <==>
                       IsContextNode(env.context, c) && Related(env.tree, m.relation, true, c, e) {
      }
    }
  }

  predicate AllHold(env: Env, ms: seq<Matcher>, e: Node) {
    forall i :: 0 <= i < |ms| ==> Holds(env, ms[i], e)
  }

  lemma ElementMatcherMeaning(env: Env, ms: seq<Matcher>, e: Node)
    requires ms != []
    ensures Holds(env, ElementMatcher(ms), e) <==> AllHold(env, ms, e)
  {
    assert AllHold(env, ms, e) ==> Holds(env, ms[0], e);
  }

  lemma FoundationAssignable(env: Env, lead: Option<Relation>, done: nat, e: Node)
    requires WellFormed(env.tree) && InTree(env.tree, e)
    ensures AllHold(env, [Foundation(lead, done)], e) <==> Assignable(env, lead, Complex([[]], []), e)
  {
    var s := Complex([[]], []);
    FoundationMeaning(env, lead, done, e);
    assert AllHold(env, [Foundation(lead, done)], e) <==> Holds(env, [Foundation(lead, done)][0], e);
    if Anchored(env, lead, e) {
      assert AssignmentTo(env, lead, s, [e], e);
    }
  }

  lemma FilterStep(env: Env, lead: Option<Relation>, ms: seq<Matcher>, s: Complex, f: nat, e: Node)
    requires |s.compounds| == |s.relations| + 1
    requires AllHold(env, ms, e) <==> Assignable(env, lead, s, e)
    ensures AllHold(env, ms + [Filter(f)], e) <==> Assignable(env, lead, WithFilter(s, f), e)
  {
    FilterExtends(env, lead, s, f, e);
    var all := ms + [Filter(f)];
    assert Holds(env, all[|ms|], e) <==> env.accepts(f, e);
    assert forall i :: 0 <= i < |ms| ==> all[i] == ms[i];
  }

  lemma RelationStep(env: Env, lead: Option<Relation>, m: Matcher, s: Complex, e: Node)
    requires WellFormed(env.tree) && InTree(env.tree, e)
    requires m.Combinator? && !m.base && |s.compounds| == |s.relations| + 1
    requires forall x :: Related(env.tree, m.relation, false, x, e) ==>
               (Holds(env, m.inner, x) <==> Assignable(env, lead, s, x))
    ensures AllHold(env, [m], e) <==> Assignable(env, lead, WithRelation(s, m.relation), e)
  {
    CombinatorMeaning(env, m, e);
    RelationExtends(env, lead, s, m.relation, e);
    assert AllHold(env, [m], e) <==> Holds(env, [m][0], e);
  }

  lemma RelationOnMatchers(env: Env, lead: Option<Relation>, ms: seq<Matcher>, next: nat, s: Complex, r: Relation, e: Node)
    requires WellFormed(env.tree) && InTree(env.tree, e) && ms != [] && |s.compounds| == |s.relations| + 1
    requires forall x :: Related(env.tree, r, false, x, e) ==> (AllHold(env, ms, x) <==> Assignable(env, lead, s, x))
    ensures AllHold(env, [Combinator(r, false, next, ElementMatcher(ms))], e) <==> Assignable(env, lead, WithRelation(s, r), e)
  {
    forall x ensures Holds(env, ElementMatcher(ms), x) <==> AllHold(env, ms, x) {
      ElementMatcherMeaning(env, ms, x);
    }
    RelationStep(env, lead, Combinator(r, false, next, ElementMatcher(ms)), s, e);
  }

  lemma RelatedInTree(t: Tree, r: Relation, base: bool, x: Node, e: Node)
    requires Related(t, r, base, x, e) && !base && InTree(t, e)
    ensures InTree(t, x)
  {
  }

  lemma {:induction false} MatchersMeaning(env: Env, tokens: seq<Token>, i: nat, done: nat, e: Node)
    requires WellFormed(env.tree) && InTree(env.tree, e)
    requires tokens != [] && FirstIndex(tokens) <= i <= |tokens|
    ensures AllHold(env, Matchers(tokens, i, done).0, e) <==>
            Assignable(env, LeadingRelation(tokens), Parse(tokens, i), e)
    decreases i
  {
    var lead := LeadingRelation(tokens);
    if i == FirstIndex(tokens) {
      FoundationAssignable(env, lead, done, e);
    } else {
      var (ms, next) := Matchers(tokens, i - 1, done);
      var before := Parse(tokens, i - 1);
      match tokens[i - 1] {
        case Filt(f) =>
          MatchersMeaning(env, tokens, i - 1, done, e);
          FilterStep(env, lead, ms, before, f, e);
        case Rel(r) =>
          forall x | Related(env.tree, r, false, x, e)
            ensures AllHold(env, ms, x) <==> Assignable(env, lead, before, x)
          {
            RelatedInTree(env.tree, r, false, x, e);
            MatchersMeaning(env, tokens, i - 1, done, x);
          }
          RelationOnMatchers(env, lead, ms, next, before, r, e);
      }
    }
  }

  lemma FilterExtends(env: Env, lead: Option<Relation>, s: Complex, f: nat, e: Node)
    requires |s.compounds| == |s.relations| + 1
    ensures Assignable(env, lead, WithFilter(s, f), e) <==> env.accepts(f, e) && Assignable(env, lead, s, e)
  {
    var last := |s.compounds| - 1;
    var s' := WithFilter(s, f);
    forall x ensures Satisfies(env, s'.compounds[last], x) <==> Satisfies(env, s.compounds[last], x) && env.accepts(f, x) {
      var c := s'.compounds[last];
      assert forall i :: 0 <= i < |s.compounds[last]| ==> c[i] == s.compounds[last][i];
      if Satisfies(env, c, x) {
        assert env.accepts(c[|c| - 1], x);
      }
    }
    forall xs ensures AssignmentTo(env, lead, s', xs, e) <==> AssignmentTo(env, lead, s, xs, e) && env.accepts(f, e) {
    }
  }

  lemma RelationExtends(env: Env, lead: Option<Relation>, s: Complex, r: Relation, e: Node)
    requires |s.compounds| == |s.relations| + 1
    ensures Assignable(env, lead, WithRelation(s, r), e) <==>
            exists x :: Related(env.tree, r, false, x, e) && Assignable(env, lead, s, x)
  {
    if xs :| AssignmentTo(env, lead, WithRelation(s, r), xs, e) {
      RelationDrops(env, lead, s, r, xs, e);
    }
    if x, xs :| Related(env.tree, r, false, x, e) && AssignmentTo(env, lead, s, xs, x) {
      RelationAdds(env, lead, s, r, xs, x, e);
    }
  }

  lemma RelationDrops(env: Env, lead: Option<Relation>, s: Complex, r: Relation, xs: seq<Node>, e: Node)
    requires |s.compounds| == |s.relations| + 1
    requires AssignmentTo(env, lead, WithRelation(s, r), xs, e)
    ensures var n := |s.compounds|;
            Related(env.tree, r, false, xs[n - 1], e) && AssignmentTo(env, lead, s, xs[..n], xs[n - 1])
  {
    var s', n := WithRelation(s, r), |s.compounds|;
    assert Related(env.tree, s'.relations[n - 1], false, xs[n - 1], xs[n]);
    assert forall i :: 0 <= i < |s.relations| ==> s'.relations[i] == s.relations[i];
  }

  lemma RelationAdds(env: Env, lead: Option<Relation>, s: Complex, r: Relation, xs: seq<Node>, x: Node, e: Node)
    requires |s.compounds| == |s.relations| + 1
    requires Related(env.tree, r, false, x, e) && AssignmentTo(env, lead, s, xs, x)
    ensures AssignmentTo(env, lead, WithRelation(s, r), xs + [e], e)
  {
    var s', ys := WithRelation(s, r), xs + [e];
    assert forall i :: 0 <= i < |s.compounds| ==> ys[i] == xs[i] && s'.compounds[i] == s.compounds[i];
  }

  /** matcherFromTokens preserves the meaning of every selector. */
  lemma CompileMeaning(env: Env, tokens: seq<Token>, done: nat, e: Node)
    requires WellFormed(env.tree) && InTree(env.tree, e) && tokens != []
    ensures Holds(env, Compile(tokens, done).0, e) <==> Selects(env, tokens, e)
  {
    ElementMatcherMeaning(env, Matchers(tokens, |tokens|, done).0, e);
    MatchersMeaning(env, tokens, |tokens|, done, e);
    assert Compile(tokens, done).0 == ElementMatcher(Matchers(tokens, |tokens|, done).0);
  }
}
