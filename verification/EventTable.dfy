/** The handlers jQuery.event keeps for one element: per event type an array with the
    delegated handlers in front, and the queue that dispatch builds from it. */
module EventTable {
  import opened Collections
  import opened Dom
  import opened Namespaces

  type EventType = nat

  type Selector = nat

  /** The special events table: the type under which handlers for a type are kept, for
      delegated and for direct handlers. */
  type Special = (EventType, bool) -> EventType

  /** A handleObj; `selector` is None for a directly bound handler. */
  datatype HandleObj = HandleObj(eventType: EventType, origType: EventType, guid: nat, selector: Option<Selector>, namespaces: seq<Text>)

  /** An array of handlers with its delegateCount property. */
  datatype Bucket = Bucket(handlers: seq<HandleObj>, delegateCount: nat)

  /** The selector argument of remove: absent, "**" or a selector. */
  datatype Which = Any | AllDelegated | Only(selector: Selector)

  datatype Criteria = Criteria(mappedTypes: bool, origType: EventType, guid: Option<nat>, namespaces: seq<Text>, which: Which)

  /** The test in the loop of remove. */
  predicate Fits(c: Criteria, h: HandleObj) {
    && (c.mappedTypes || c.origType == h.origType)
    && (c.guid.Some? ==> c.guid.value == h.guid)
    && (c.namespaces != [] ==> multiset(c.namespaces) <= multiset(h.namespaces))
    && match c.which
       case Any => true
       case AllDelegated => h.selector.Some?
       case Only(s) => h.selector == Some(s)
  }

  /** Why remove leaves a handler alone: it was bound for another type, with another function,
      without one of the names asked for, or for another selector. */
  ghost predicate Spared(c: Criteria, h: HandleObj) {
    || (h.origType != c.origType && !c.mappedTypes)
    || (c.guid.Some? && h.guid != c.guid.value)
    || (exists name :: name in c.namespaces && multiset(h.namespaces)[name] < multiset(c.namespaces)[name])
    || (c.which.AllDelegated? && h.selector.None?)
    || (c.which.Only? && (h.selector.None? || h.selector.value != c.which.selector))
  }

  lemma FitsIffNotSpared(c: Criteria, h: HandleObj)
    ensures Fits(c, h) <==> !Spared(c, h)
  {
    if name :| name in c.namespaces && multiset(h.namespaces)[name] < multiset(c.namespaces)[name] {
      assert !(multiset(c.namespaces) <= multiset(h.namespaces));
    }
    if !(multiset(c.namespaces) <= multiset(h.namespaces)) {
      var name :| multiset(c.namespaces)[name] > multiset(h.namespaces)[name];
      assert name in multiset(c.namespaces);
    }
  }

  /** Names as add and remove split and sort them. */
  ghost predicate WellNamed(names: seq<Text>) {
    AllPlain(names) && Sorted(names)
  }

  /** The same with the regular expression that remove builds. */
  ghost predicate FitsTest(c: Criteria, h: HandleObj) {
    Fits(c.(namespaces := []), h) && (c.namespaces != [] ==> Test(Build(c.namespaces), Join(h.namespaces)))
  }

  lemma FitsByExpression(c: Criteria, h: HandleObj)
    requires WellNamed(c.namespaces) && WellNamed(h.namespaces)
    ensures Fits(c, h) <==> FitsTest(c, h)
  {
    if c.namespaces != [] {
      NamespaceMatch(c.namespaces, h.namespaces);
    }
  }

  // ----- How an array relates to the handlers bound, in order of binding

  function Delegated(bound: seq<HandleObj>): seq<HandleObj> {
    if bound == [] then []
    else Delegated(bound[..|bound| - 1]) + if bound[|bound| - 1].selector.Some? then [bound[|bound| - 1]] else []
  }

  function Direct(bound: seq<HandleObj>): seq<HandleObj> {
    if bound == [] then []
    else Direct(bound[..|bound| - 1]) + if bound[|bound| - 1].selector.None? then [bound[|bound| - 1]] else []
  }

  /** Delegated handlers first, both parts in the order of binding. */
  function Arranged(bound: seq<HandleObj>): Bucket {
    Bucket(Delegated(bound) + Direct(bound), |Delegated(bound)|)
  }

  /** The handlers that remove leaves. */
  function Kept(c: Criteria, bound: seq<HandleObj>): seq<HandleObj> {
    if bound == [] then []
    else Kept(c, bound[..|bound| - 1]) + if Fits(c, bound[|bound| - 1]) then [] else [bound[|bound| - 1]]
  }

  lemma {:induction false} KeptAppend(c: Criteria, a: seq<HandleObj>, b: seq<HandleObj>)
    ensures Kept(c, a + b) == Kept(c, a) + Kept(c, b)
    decreases |b|
  {
    if b == [] {
      assert a + b == a;
    } else {
      assert (a + b)[..|a + b| - 1] == a + b[..|b| - 1];
      KeptAppend(c, a, b[..|b| - 1]);
    }
  }

  lemma KeptOne(c: Criteria, h: HandleObj)
    ensures Kept(c, [h]) == if Fits(c, h) then [] else [h]
  {
    assert [h][..0] == [];
  }

  lemma Snoc(c: Criteria, b: seq<HandleObj>, h: HandleObj)
    ensures Delegated(b + [h]) == Delegated(b) + if h.selector.Some? then [h] else []
    ensures Direct(b + [h]) == Direct(b) + if h.selector.None? then [h] else []
    ensures Kept(c, b + [h]) == Kept(c, b) + if Fits(c, h) then [] else [h]
  {
    assert (b + [h])[..|b + [h]| - 1] == b;
  }

  const NOTHING := Criteria(false, 0, None, [], Any)

  /** Removing commutes with arranging. */
  lemma {:induction false} KeptArranged(c: Criteria, bound: seq<HandleObj>)
    ensures Delegated(Kept(c, bound)) == Kept(c, Delegated(bound))
    ensures Direct(Kept(c, bound)) == Kept(c, Direct(bound))
    decreases |bound|
  {
    if bound != [] {
      var init, last := bound[..|bound| - 1], bound[|bound| - 1];
      assert bound == init + [last];
      KeptArranged(c, init);
      Snoc(c, init, last);
      Snoc(c, Kept(c, init), last);
      Snoc(c, Delegated(init), last);
      Snoc(c, Direct(init), last);
      assert Kept(c, bound) == if Fits(c, last) then Kept(c, init) else Kept(c, init) + [last];
      assert Delegated(bound) == if last.selector.Some? then Delegated(init) + [last] else Delegated(init);
      assert Direct(bound) == if last.selector.None? then Direct(init) + [last] else Direct(init);
    }
  }

  lemma {:induction false} PartsAreRight(bound: seq<HandleObj>)
    ensures forall i :: 0 <= i < |Delegated(bound)| ==> Delegated(bound)[i].selector.Some?
    ensures forall i :: 0 <= i < |Direct(bound)| ==> Direct(bound)[i].selector.None?
    ensures |Delegated(bound)| + |Direct(bound)| == |bound|
    decreases |bound|
  {
    if bound != [] {
      PartsAreRight(bound[..|bound| - 1]);
    }
  }

  /** How many of the handlers are delegated. */
  function CountDelegated(hs: seq<HandleObj>): nat {
    if hs == [] then 0 else CountDelegated(hs[..|hs| - 1]) + if hs[|hs| - 1].selector.Some? then 1 else 0
  }

  lemma {:induction false} CountAppend(a: seq<HandleObj>, b: seq<HandleObj>)
    ensures CountDelegated(a + b) == CountDelegated(a) + CountDelegated(b)
    decreases |b|
  {
    if b == [] {
      assert a + b == a;
    } else {
      assert (a + b)[..|a + b| - 1] == a + b[..|b| - 1];
      CountAppend(a, b[..|b| - 1]);
    }
  }

  lemma {:induction false} CountUniform(hs: seq<HandleObj>)
    ensures (forall i :: 0 <= i < |hs| ==> hs[i].selector.Some?) ==> CountDelegated(hs) == |hs|
    ensures (forall i :: 0 <= i < |hs| ==> hs[i].selector.None?) ==> CountDelegated(hs) == 0
    decreases |hs|
  {
    if hs != [] {
      CountUniform(hs[..|hs| - 1]);
    }
  }

  lemma CountArranged(bound: seq<HandleObj>)
    ensures CountDelegated(Arranged(bound).handlers) == Arranged(bound).delegateCount
  {
    PartsAreRight(bound);
    CountUniform(Delegated(bound));
    CountUniform(Direct(bound));
    CountAppend(Delegated(bound), Direct(bound));
  }

  // ----- What the four selections of handlers pick, and in what order

  /** `idx` are the places in `hs` of what satisfies `p`, and `sub` is what stands there. */
  ghost predicate PickedAt(idx: seq<nat>, sub: seq<HandleObj>, hs: seq<HandleObj>, p: HandleObj -> bool) {
    && Ascending(idx) && |sub| == |idx|
    && (forall k :: 0 <= k < |idx| ==> idx[k] < |hs| && sub[k] == hs[idx[k]])
    && (forall i: nat :: i in idx <==> i < |hs| && p(hs[i]))
  }

  /** `sub` holds exactly the handlers of `hs` that satisfy `p`, each as often as it is there,
      in their order. */
  ghost predicate Picks(sub: seq<HandleObj>, hs: seq<HandleObj>, p: HandleObj -> bool) {
    exists idx :: PickedAt(idx, sub, hs, p)
  }

  lemma PicksNone(p: HandleObj -> bool)
    ensures Picks([], [], p)
  {
    assert PickedAt([], [], [], p);
  }

  lemma PicksSnoc(sub: seq<HandleObj>, hs: seq<HandleObj>, p: HandleObj -> bool)
    requires hs != [] && Picks(sub, hs[..|hs| - 1], p)
    ensures Picks(sub + if p(hs[|hs| - 1]) then [hs[|hs| - 1]] else [], hs, p)
  {
    var n := |hs| - 1;
    var idx :| PickedAt(idx, sub, hs[..n], p);
    if p(hs[n]) {
      PickedMore(idx, sub, hs, p);
    } else {
      PickedSame(idx, sub, hs, p);
      assert sub + [] == sub;
    }
  }

  lemma PickedMore(idx: seq<nat>, sub: seq<HandleObj>, hs: seq<HandleObj>, p: HandleObj -> bool)
    requires hs != [] && PickedAt(idx, sub, hs[..|hs| - 1], p) && p(hs[|hs| - 1])
    ensures PickedAt(idx + [|hs| - 1], sub + [hs[|hs| - 1]], hs, p)
  {
    var n := |hs| - 1;
    forall i: nat ensures i in idx + [n] <==> i < |hs| && p(hs[i]) {
      assert i in idx + [n] <==> i in idx || i == n;
      assert i < n ==> hs[..n][i] == hs[i];
    }
  }

  lemma PickedSame(idx: seq<nat>, sub: seq<HandleObj>, hs: seq<HandleObj>, p: HandleObj -> bool)
    requires hs != [] && PickedAt(idx, sub, hs[..|hs| - 1], p) && !p(hs[|hs| - 1])
    ensures PickedAt(idx, sub, hs, p)
  {
    var n := |hs| - 1;
    forall i: nat ensures i in idx <==> i < |hs| && p(hs[i]) {
      assert i < n ==> hs[..n][i] == hs[i];
    }
  }

  /** Only one list is picked. */
  lemma {:induction false} PicksOnce(a: seq<HandleObj>, b: seq<HandleObj>, hs: seq<HandleObj>, p: HandleObj -> bool)
    requires Picks(a, hs, p) && Picks(b, hs, p)
    ensures a == b
  {
    var i :| PickedAt(i, a, hs, p);
    var j :| PickedAt(j, b, hs, p);
    SameAscending(i, j);
  }

  lemma LastIsLargest(a: seq<nat>, x: nat)
    requires Ascending(a) && x in a
    ensures a != [] && x <= a[|a| - 1] && (x in a[..|a| - 1] <==> x != a[|a| - 1])
  {
  }

  ghost predicate SameMembers(a: seq<nat>, b: seq<nat>) {
    forall i: nat :: i in a <==> i in b
  }

  lemma SameInits(a: seq<nat>, b: seq<nat>)
    requires Ascending(a) && Ascending(b) && SameMembers(a, b)
    requires a != [] && b != []
    ensures a[|a| - 1] == b[|b| - 1] && SameMembers(a[..|a| - 1], b[..|b| - 1])
  {
    var c, d := a[..|a| - 1], b[..|b| - 1];
    LastIsLargest(b, a[|a| - 1]);
    LastIsLargest(a, b[|b| - 1]);
    forall i: nat ensures i in c <==> i in d {
      if i in a {
        LastIsLargest(a, i);
        LastIsLargest(b, i);
      }
    }
  }

  lemma {:induction false} SameAscending(a: seq<nat>, b: seq<nat>)
    requires Ascending(a) && Ascending(b) && SameMembers(a, b)
    ensures a == b
    decreases |a|
  {
    assert (a == [] || a[0] in a) && (b == [] || b[0] in b);
    if a != [] {
      SameInits(a, b);
      SameAscending(a[..|a| - 1], b[..|b| - 1]);
      assert a == a[..|a| - 1] + [a[|a| - 1]] && b == b[..|b| - 1] + [b[|b| - 1]];
    }
  }

  const IS_DELEGATED := (h: HandleObj) => h.selector.Some?

  const IS_DIRECT := (h: HandleObj) => h.selector.None?

  function Survives(c: Criteria): HandleObj -> bool {
    (h: HandleObj) => !Fits(c, h)
  }

  lemma {:induction false} PartsPick(bound: seq<HandleObj>)
    ensures Picks(Delegated(bound), bound, IS_DELEGATED) && Picks(Direct(bound), bound, IS_DIRECT)
    decreases |bound|
  {
    if bound == [] {
      PicksNone(IS_DELEGATED);
      PicksNone(IS_DIRECT);
    } else {
      PartsPick(bound[..|bound| - 1]);
      PicksSnoc(Delegated(bound[..|bound| - 1]), bound, IS_DELEGATED);
      PicksSnoc(Direct(bound[..|bound| - 1]), bound, IS_DIRECT);
    }
  }

  lemma {:induction false} KeptPicks(c: Criteria, bound: seq<HandleObj>)
    ensures Picks(Kept(c, bound), bound, Survives(c))
    decreases |bound|
  {
    if bound == [] {
      PicksNone(Survives(c));
    } else {
      KeptPicks(c, bound[..|bound| - 1]);
      PicksSnoc(Kept(c, bound[..|bound| - 1]), bound, Survives(c));
    }
  }

  // ----- Dispatch

  /** What dispatch runs on one element. */
  datatype Stop = Stop(elem: Node, handlers: seq<HandleObj>)

  /** The nodes from the target outwards, up to but without the element itself. */
  function Path(target: Node, self: Node): seq<Node>
    decreases |target|
  {
    if target == self then [] else if target == [] then [target] else [target] + Path(Parent(target), self)
  }

  /** Handlers whose selector matches `elem`, in order. */
  function Matching(hs: seq<HandleObj>, matches: (Selector, Node) -> bool, elem: Node): seq<HandleObj> {
    if hs == [] then []
    else
      var h := hs[|hs| - 1];
      Matching(hs[..|hs| - 1], matches, elem) + if h.selector.Some? && matches(h.selector.value, elem) then [h] else []
  }

  function MatchedBy(matches: (Selector, Node) -> bool, elem: Node): HandleObj -> bool {
    (h: HandleObj) => h.selector.Some? && matches(h.selector.value, elem)
  }

  lemma {:induction false} MatchingPicks(hs: seq<HandleObj>, matches: (Selector, Node) -> bool, elem: Node)
    ensures Picks(Matching(hs, matches, elem), hs, MatchedBy(matches, elem))
    decreases |hs|
  {
    if hs == [] {
      PicksNone(MatchedBy(matches, elem));
    } else {
      MatchingPicks(hs[..|hs| - 1], matches, elem);
      PicksSnoc(Matching(hs[..|hs| - 1], matches, elem), hs, MatchedBy(matches, elem));
    }
  }

  /** The delegated part of the queue: for every eligible node of the path that matches some
      handler, the handlers it matches. */
  function DelegateStops(path: seq<Node>, hs: seq<HandleObj>, matches: (Selector, Node) -> bool, eligible: Node -> bool): seq<Stop> {
    if path == [] then []
    else
      var m := Matching(hs, matches, path[0]);
      (if eligible(path[0]) && m != [] then [Stop(path[0], m)] else []) + DelegateStops(path[1..], hs, matches, eligible)
  }

  /** The whole queue, in terms of the handlers bound. */
  function Queue(bound: seq<HandleObj>, target: Node, self: Node, delegates: bool,
                 matches: (Selector, Node) -> bool, eligible: Node -> bool): seq<Stop>
  {
    (if delegates then DelegateStops(Path(target, self), Delegated(bound), matches, eligible) else []) +
    if Direct(bound) == [] then [] else [Stop(self, Direct(bound))]
  }

  ghost predicate Rising(path: seq<Node>) {
    forall i, j :: 0 <= i < j < |path| ==> |path[i]| > |path[j]|
  }

  function Elems(stops: seq<Stop>): (r: seq<Node>)
    ensures |r| == |stops|
  {
    seq(|stops|, i requires 0 <= i < |stops| => stops[i].elem)
  }

  /** A node stops the dispatch iff it is on the path, eligible and matched by some handler;
      it then runs the handlers that match it, in the order of binding. */
  lemma {:induction false} StopsExact(path: seq<Node>, hs: seq<HandleObj>, matches: (Selector, Node) -> bool, eligible: Node -> bool, stop: Stop)
    ensures stop in DelegateStops(path, hs, matches, eligible) <==>
            stop.elem in path && eligible(stop.elem) && stop.handlers == Matching(hs, matches, stop.elem) && stop.handlers != []
    decreases |path|
  {
    if path != [] {
      StopsExact(path[1..], hs, matches, eligible, stop);
      assert path == [path[0]] + path[1..];
    }
  }

  /** The handlers of a deeper node run before those of a node that contains it. */
  lemma {:induction false} DeepestFirst(path: seq<Node>, hs: seq<HandleObj>, matches: (Selector, Node) -> bool, eligible: Node -> bool)
    requires Rising(path)
    ensures Rising(Elems(DelegateStops(path, hs, matches, eligible)))
    decreases |path|
  {
    if path != [] {
      var rest := DelegateStops(path[1..], hs, matches, eligible);
      var stops := DelegateStops(path, hs, matches, eligible);
      DeepestFirst(path[1..], hs, matches, eligible);
      forall i | 0 <= i < |rest| ensures |rest[i].elem| < |path[0]| {
        StopsExact(path[1..], hs, matches, eligible, rest[i]);
        var k :| 0 <= k < |path[1..]| && path[1..][k] == rest[i].elem;
        assert path[k + 1] == rest[i].elem;
      }
      var extra := |stops| - |rest|;
      forall i, j | 0 <= i < j < |stops| ensures |Elems(stops)[i]| > |Elems(stops)[j]| {
        assert stops[j] == rest[j - extra];
        if i >= extra {
          assert stops[i] == rest[i - extra];
          assert |Elems(rest)[i - extra]| > |Elems(rest)[j - extra]|;
        }
      }
    }
  }

  /** From the target outwards every node is shallower than the one before. */
  lemma {:induction false} PathRises(target: Node, self: Node)
    ensures Rising(Path(target, self))
    ensures forall i :: 0 <= i < |Path(target, self)| ==> |Path(target, self)[i]| <= |target|
    decreases |target|
  {
    if target != self && target != [] {
      PathRises(Parent(target), self);
    }
  }

  predicate Within(target: Node, self: Node) {
    |self| <= |target| && self == target[..|self|]
  }

  /** For an event inside the element, the path holds the target and those of its ancestors
      that lie below the element. */
  lemma {:induction false} PathExact(target: Node, self: Node, n: Node)
    requires Within(target, self)
    ensures n in Path(target, self) <==> Within(target, n) && |self| < |n|
    decreases |target|
  {
    if target == self {
      assert |n| == |target| ==> target[..|n|] == target;
    } else {
      assert |self| < |target| && Within(Parent(target), self);
      PathExact(Parent(target), self, n);
      assert target[..|target|] == target;
      assert |n| < |target| ==> target[..|n|] == Parent(target)[..|n|];
    }
  }

  /** What dispatch runs for an event inside the element: exactly the delegated handlers at the
      nodes they match, unless the event is not for them, and the direct handlers at the
      element. */
  lemma QueueExact(bound: seq<HandleObj>, target: Node, self: Node, delegates: bool, matches: (Selector, Node) -> bool, eligible: Node -> bool, stop: Stop)
    requires Within(target, self)
    ensures stop in Queue(bound, target, self, delegates, matches, eligible) <==>
            || (delegates && Within(target, stop.elem) && |self| < |stop.elem| && eligible(stop.elem) &&
                Picks(stop.handlers, Delegated(bound), MatchedBy(matches, stop.elem)) && stop.handlers != [])
            || (stop.elem == self && Picks(stop.handlers, bound, IS_DIRECT) && stop.handlers != [])
  {
    PathExact(target, self, stop.elem);
    PartsPick(bound);
    MatchingPicks(Delegated(bound), matches, stop.elem);
    if Picks(stop.handlers, Delegated(bound), MatchedBy(matches, stop.elem)) {
      PicksOnce(stop.handlers, Matching(Delegated(bound), matches, stop.elem), Delegated(bound), MatchedBy(matches, stop.elem));
    }
    if Picks(stop.handlers, bound, IS_DIRECT) {
      PicksOnce(stop.handlers, Direct(bound), bound, IS_DIRECT);
    }
    StopsExact(Path(target, self), Delegated(bound), matches, eligible, stop);
  }

  /** In what order: from the deepest node outwards, the direct handlers last. */
  lemma QueueOrder(bound: seq<HandleObj>, target: Node, self: Node, delegates: bool, matches: (Selector, Node) -> bool, eligible: Node -> bool)
    requires Within(target, self)
    ensures Rising(Elems(Queue(bound, target, self, delegates, matches, eligible)))
  {
    var front := DelegateStops(Path(target, self), Delegated(bound), matches, eligible);
    PathRises(target, self);
    DeepestFirst(Path(target, self), Delegated(bound), matches, eligible);
    forall i | 0 <= i < |front| ensures |front[i].elem| > |self| {
      StopsExact(Path(target, self), Delegated(bound), matches, eligible, front[i]);
      PathExact(target, self, front[i].elem);
    }
    RisingSnoc(front, Stop(self, Direct(bound)));
    assert [] + [Stop(self, Direct(bound))] == [Stop(self, Direct(bound))] && front + [] == front;
  }

  lemma RisingSnoc(front: seq<Stop>, last: Stop)
    requires Rising(Elems(front)) && forall i :: 0 <= i < |front| ==> |front[i].elem| > |last.elem|
    ensures Rising(Elems(front + [last]))
  {
    var all := front + [last];
    forall i, j | 0 <= i < j < |all| ensures |Elems(all)[i]| > |Elems(all)[j]| {
      if j < |front| {
        assert |Elems(front)[i]| > |Elems(front)[j]|;
      }
    }
  }

  // ----- The table of one element

  /** Every array is the arrangement of the handlers bound and not removed since. */
  ghost predicate Tracks(events: map<EventType, Bucket>, bound: map<EventType, seq<HandleObj>>) {
    && events.Keys == bound.Keys
    && forall t :: t in events ==> bound[t] != [] && events[t] == Arranged(bound[t])
  }

  function BoundUnder(bound: map<EventType, seq<HandleObj>>, t: EventType): seq<HandleObj> {
    if t in bound then bound[t] else []
  }

  lemma TracksPut(events: map<EventType, Bucket>, bound: map<EventType, seq<HandleObj>>, t: EventType, hs: seq<HandleObj>)
    requires Tracks(events, bound)
    ensures hs != [] ==> Tracks(events[t := Arranged(hs)], bound[t := hs])
    ensures Tracks(events - {t}, bound - {t})
  {
  }

  /** All handlers have names as add splits and sorts them. */
  ghost predicate Named(bound: map<EventType, seq<HandleObj>>) {
    forall t :: t in bound ==> AllWellNamed(bound[t])
  }

  ghost predicate AllWellNamed(hs: seq<HandleObj>) {
    forall h :: h in hs ==> WellNamed(h.namespaces)
  }

  lemma NamedPut(bound: map<EventType, seq<HandleObj>>, t: EventType, h: HandleObj)
    requires Named(bound) && WellNamed(h.namespaces)
    ensures Named(bound[t := BoundUnder(bound, t) + [h]])
  {
    assert AllWellNamed(BoundUnder(bound, t) + [h]);
  }

  lemma NamedKept(bound: map<EventType, seq<HandleObj>>, t: EventType, c: Criteria)
    requires Named(bound)
    ensures Named(bound[t := Kept(c, BoundUnder(bound, t))]) && Named(bound - {t}) && AllWellNamed(BoundUnder(bound, t))
  {
    KeptExact(c, BoundUnder(bound, t));
    assert AllWellNamed(Kept(c, BoundUnder(bound, t)));
  }

  lemma RemoveStays(bound: map<EventType, seq<HandleObj>>, t: EventType, c: Criteria)
    ensures t !in bound ==> Kept(c, BoundUnder(bound, t)) == [] && bound - {t} == bound
  {
  }

  /** What remove leaves, by the expression. */
  lemma KeptByExpression(c: Criteria, bound: seq<HandleObj>)
    requires WellNamed(c.namespaces) && AllWellNamed(bound)
    ensures forall h :: h in Kept(c, bound) <==> h in bound && !FitsTest(c, h)
  {
    KeptExact(c, bound);
    forall h | h in bound ensures Fits(c, h) <==> FitsTest(c, h) {
      FitsByExpression(c, h);
    }
  }

  // ----- What is bound after any sequence of adds and removes

  /** One type of a call of add or remove, as mapped by the special events. */
  datatype Op = OpAdd(t: EventType, h: HandleObj) | OpRemove(t: EventType, c: Criteria)

  function Bind(bound: map<EventType, seq<HandleObj>>, op: Op): map<EventType, seq<HandleObj>> {
    match op
    case OpAdd(t, h) => bound[t := BoundUnder(bound, t) + [h]]
    case OpRemove(t, c) =>
      var kept := Kept(c, BoundUnder(bound, t));
      if kept == [] then bound - {t} else bound[t := kept]
  }

  function BindAll(ops: seq<Op>): map<EventType, seq<HandleObj>> {
    if ops == [] then map[] else Bind(BindAll(ops[..|ops| - 1]), ops[|ops| - 1])
  }

  /** Operation `i` has bound a handler under `t` that no later one removes. */
  ghost predicate Lasts(ops: seq<Op>, t: EventType, i: nat) {
    && i < |ops| && ops[i].OpAdd? && ops[i].t == t
    && forall j :: i < j < |ops| && ops[j].OpRemove? && ops[j].t == t ==> !Fits(ops[j].c, ops[i].h)
  }

  ghost predicate BoundAt(idx: seq<nat>, hs: seq<HandleObj>, ops: seq<Op>, t: EventType) {
    && Ascending(idx) && |idx| == |hs|
    && (forall k :: 0 <= k < |idx| ==> Lasts(ops, t, idx[k]) && ops[idx[k]].h == hs[k])
    && (forall i: nat :: Lasts(ops, t, i) ==> i in idx)
  }

  ghost predicate HasHistory(hs: seq<HandleObj>, ops: seq<Op>, t: EventType) {
    exists idx :: BoundAt(idx, hs, ops, t)
  }

  /** Bound under a type are exactly the handlers added there and not removed since, in the
      order in which they were added. */
  lemma {:induction false} BoundIsHistory(ops: seq<Op>, t: EventType)
    ensures HasHistory(BoundUnder(BindAll(ops), t), ops, t)
    decreases |ops|
  {
    if ops == [] {
      assert BoundAt([], [], ops, t);
    } else {
      var before, op := ops[..|ops| - 1], ops[|ops| - 1];
      BoundIsHistory(before, t);
      UnderBind(BindAll(before), op, t);
      HistorySnoc(BoundUnder(BindAll(before), t), before, op, t);
      assert ops == before + [op];
    }
  }

  function UnderAfter(hs: seq<HandleObj>, op: Op, t: EventType): seq<HandleObj> {
    if op.t != t then hs else if op.OpAdd? then hs + [op.h] else Kept(op.c, hs)
  }

  lemma UnderBind(bound: map<EventType, seq<HandleObj>>, op: Op, t: EventType)
    ensures BoundUnder(Bind(bound, op), t) == UnderAfter(BoundUnder(bound, t), op, t)
  {
  }

  lemma HistorySnoc(hs: seq<HandleObj>, ops: seq<Op>, op: Op, t: EventType)
    requires HasHistory(hs, ops, t)
    ensures HasHistory(UnderAfter(hs, op, t), ops + [op], t)
  {
    var idx :| BoundAt(idx, hs, ops, t);
    if op.t != t {
      HistoryOther(idx, hs, ops, op, t);
    } else if op.OpAdd? {
      HistoryAdds(idx, hs, ops, op, t);
    } else {
      KeptPicks(op.c, hs);
      var places :| PickedAt(places, Kept(op.c, hs), hs, Survives(op.c));
      HistoryRemoves(idx, hs, ops, op, t, places, Kept(op.c, hs));
    }
  }

  lemma LastsSnoc(ops: seq<Op>, op: Op, t: EventType, i: nat)
    ensures i < |ops| ==>
              (Lasts(ops + [op], t, i) <==> Lasts(ops, t, i) && !(op.OpRemove? && op.t == t && Fits(op.c, ops[i].h)))
    ensures Lasts(ops + [op], t, |ops|) <==> op.OpAdd? && op.t == t
  {
    var more := ops + [op];
    assert more[|ops|] == op && forall j :: 0 <= j < |ops| ==> more[j] == ops[j];
    if i < |ops| && Lasts(more, t, i) && op.OpRemove? && op.t == t {
      assert i < |ops| < |more| && more[|ops|].OpRemove?;
    }
  }

  lemma HistoryOther(idx: seq<nat>, hs: seq<HandleObj>, ops: seq<Op>, op: Op, t: EventType)
    requires BoundAt(idx, hs, ops, t) && op.t != t
    ensures BoundAt(idx, hs, ops + [op], t)
  {
    forall i: nat ensures Lasts(ops + [op], t, i) <==> Lasts(ops, t, i) {
      LastsSnoc(ops, op, t, i);
    }
  }

  lemma HistoryAdds(idx: seq<nat>, hs: seq<HandleObj>, ops: seq<Op>, op: Op, t: EventType)
    requires BoundAt(idx, hs, ops, t) && op.OpAdd? && op.t == t
    ensures BoundAt(idx + [|ops|], hs + [op.h], ops + [op], t)
  {
    forall i: nat ensures Lasts(ops + [op], t, i) <==> Lasts(ops, t, i) || i == |ops| {
      LastsSnoc(ops, op, t, i);
    }
    var more := idx + [|ops|];
    forall i: nat | Lasts(ops + [op], t, i) ensures i in more {
      assert i == more[|idx|] || i in idx;
    }
  }

  lemma HistoryRemoves(idx: seq<nat>, hs: seq<HandleObj>, ops: seq<Op>, op: Op, t: EventType, places: seq<nat>, kept: seq<HandleObj>)
    requires BoundAt(idx, hs, ops, t) && op.OpRemove? && op.t == t && PickedAt(places, kept, hs, Survives(op.c))
    ensures HasHistory(kept, ops + [op], t)
  {
    var rest := seq(|places|, m requires 0 <= m < |places| => idx[places[m]]);
    forall i: nat ensures Lasts(ops + [op], t, i) <==> Lasts(ops, t, i) && Survives(op.c)(ops[i].h) {
      LastsSnoc(ops, op, t, i);
    }
    forall k | 0 <= k < |rest| ensures Lasts(ops + [op], t, rest[k]) && (ops + [op])[rest[k]].h == kept[k] {
      assert places[k] in places && rest[k] == idx[places[k]];
    }
    forall i: nat | Lasts(ops + [op], t, i) ensures i in rest {
      var k :| 0 <= k < |idx| && idx[k] == i;
      assert k in places;
      var m :| 0 <= m < |places| && places[m] == k;
      assert rest[m] == i;
    }
    assert BoundAt(rest, kept, ops + [op], t);
  }

  class EventTable {
    var events: map<EventType, Bucket>
    ghost var bound: map<EventType, seq<HandleObj>>

    ghost predicate Valid()
      reads this
    {
      Tracks(events, bound) && Named(bound)
    }

    constructor ()
      ensures Valid() && bound == map[]
    {
      events := map[];
      bound := map[];
    }

    ghost function Bound(t: EventType): seq<HandleObj>
      reads this
    {
      BoundUnder(bound, t)
    }

    /** add for one type. */
    method Add(origType: EventType, h: HandleObj, special: Special)
      requires Valid() && WellNamed(h.namespaces)
      modifies this
      ensures Valid() && Bound(special(origType, h.selector.Some?)) == old(Bound(special(origType, h.selector.Some?))) + [h]
      ensures bound == Bind(old(bound), OpAdd(special(origType, h.selector.Some?), h))
      ensures events - {special(origType, h.selector.Some?)} == old(events) - {special(origType, h.selector.Some?)}
    {
      var t := special(origType, h.selector.Some?);
      var b := if t in events then events[t] else Bucket([], 0);
      ghost var after := Bound(t) + [h];
      TracksPut(events, bound, t, after);
      NamedPut(bound, t, h);
      b := SpliceIn(b, h, Bound(t));
      Put(t, b, after);
    }

    method Put(t: EventType, b: Bucket, ghost after: seq<HandleObj>)
      modifies this
      ensures events == old(events)[t := b] && bound == old(bound)[t := after]
      ensures events - {t} == old(events) - {t}
    {
      events, bound := events[t := b], bound[t := after];
    }

    /** Delegates in front. */
    method SpliceIn(start: Bucket, h: HandleObj, ghost before: seq<HandleObj>) returns (b: Bucket)
      requires start == Arranged(before)
      ensures b == Arranged(before + [h])
    {
      Inserted(before, h);
      if h.selector.Some? {
        b := Bucket(start.handlers[..start.delegateCount] + [h] + start.handlers[start.delegateCount..], start.delegateCount + 1);
      } else {
        b := Bucket(start.handlers + [h], start.delegateCount);
      }
    }

    /** remove for one type: splices matching handlers from the back, counting down the
        delegated ones, and drops the type once its array is empty. */
    method Remove(origType: EventType, c: Criteria, special: Special)
      requires Valid() && WellNamed(c.namespaces)
      modifies this
      ensures Valid()
      ensures var t := special(origType, c.which != Any);
              forall h :: h in Bound(t) <==> h in old(Bound(t)) && !FitsTest(c, h)
      ensures var t := special(origType, c.which != Any);
              bound == Bind(old(bound), OpRemove(t, c))
    {
      var t := special(origType, c.which != Any);
      NamedKept(bound, t, c);
      KeptByExpression(c, Bound(t));
      RemoveStays(bound, t, c);
      if t in events {
        var b := SpliceMatching(events[t], c, bound[t]);
        Leave(t, b, Kept(c, bound[t]));
      }
    }

    /** "Remove generic event handler if we removed something and no more handlers exist" */
    method Leave(t: EventType, b: Bucket, ghost kept: seq<HandleObj>)
      requires Valid() && b == Arranged(kept) && Named(bound[t := kept]) && Named(bound - {t})
      modifies this
      ensures Valid() && Bound(t) == kept
      ensures bound == if kept == [] then old(bound) - {t} else old(bound)[t := kept]
    {
      PartsAreRight(kept);
      TracksPut(events, bound, t, kept);
      events := if b.handlers == [] then events - {t} else events[t := b];
      bound := if kept == [] then bound - {t} else bound[t := kept];
    }

    /** The loop of remove. */
    method SpliceMatching(start: Bucket, c: Criteria, ghost before: seq<HandleObj>) returns (b: Bucket)
      requires start == Arranged(before)
      ensures b == Arranged(Kept(c, before))
    {
      b := start;
      ghost var all := start.handlers;
      var j := |b.handlers|;
      CountArranged(before);
      assert all[j..] == [] && all[..j] == all;
      while j > 0
        invariant 0 <= j <= |all| && PartlySpliced(b, c, all, j)
      {
        j := j - 1;
        b := SpliceAt(b, c, j, all);
      }
      assert all[0..] == all && b.handlers == Kept(c, all);
      KeptAppend(c, Delegated(before), Direct(before));
      KeptArranged(c, before);
      CountArranged(Kept(c, before));
    }

    /** One handler is tested and, if it fits, spliced out. */
    method SpliceAt(start: Bucket, c: Criteria, j: nat, ghost all: seq<HandleObj>) returns (b: Bucket)
      requires j < |all| && PartlySpliced(start, c, all, j + 1)
      ensures PartlySpliced(b, c, all, j)
    {
      b := start;
      RemoveStep(c, all, j);
      var h := b.handlers[j];
      if Fits(c, h) {
        CountSplice(b.handlers, j);
        b := Bucket(b.handlers[..j] + b.handlers[j + 1..], if h.selector.Some? then b.delegateCount - 1 else b.delegateCount);
      }
    }

    /** handlers: `delegates` says that the event may reach delegated handlers (a node as its
        target, and no click with another button). */
    method Handlers(t: EventType, target: Node, self: Node, delegates: bool,
                    matches: (Selector, Node) -> bool, eligible: Node -> bool)
      returns (queue: seq<Stop>)
      requires Valid()
      ensures queue == Queue(Bound(t), target, self, delegates, matches, eligible)
    {
      var b := if t in events then events[t] else Bucket([], 0);
      assert b == Arranged(Bound(t));
      PartsAreRight(Bound(t));
      assert b.handlers[..b.delegateCount] == Delegated(Bound(t)) && b.handlers[b.delegateCount..] == Direct(Bound(t));
      queue := [];
      if b.delegateCount > 0 && delegates {
        queue := WalkUp(b, target, self, matches, eligible);
      } else {
        NoStops(Path(target, self), matches, eligible);
      }
      if b.delegateCount < |b.handlers| {
        queue := queue + [Stop(self, b.handlers[b.delegateCount..])];
      }
    }

    /** The walk from the target up to the element itself. */
    method WalkUp(b: Bucket, target: Node, self: Node, matches: (Selector, Node) -> bool, eligible: Node -> bool)
      returns (queue: seq<Stop>)
      requires b.delegateCount <= |b.handlers|
      requires forall i :: 0 <= i < b.delegateCount ==> b.handlers[i].selector.Some?
      ensures queue == DelegateStops(Path(target, self), b.handlers[..b.delegateCount], matches, eligible)
    {
      ghost var hs := b.handlers[..b.delegateCount];
      ghost var rest := DelegateStops(Path(target, self), hs, matches, eligible);
      ghost var all := rest;
      queue := [];
      var cur, onWay := target, true;
      while onWay && cur != self
        invariant rest == if onWay then DelegateStops(Path(cur, self), hs, matches, eligible) else []
        invariant queue + rest == all
        decreases onWay, |cur|
      {
        StopsStep(cur, self, hs, matches, eligible);
        var matched := [];
        if eligible(cur) {
          matched := SelectMatching(b, cur, matches);
        }
        if matched != [] {
          MoveOne(queue, rest);
          queue, rest := queue + [Stop(cur, matched)], rest[1..];
        }
        if cur == [] {
          onWay := false;
        } else {
          cur := Parent(cur);
        }
      }
    }

    /** The inner loop, which tests each selector once per node. */
    method SelectMatching(b: Bucket, cur: Node, matches: (Selector, Node) -> bool) returns (matched: seq<HandleObj>)
      requires b.delegateCount <= |b.handlers|
      requires forall i :: 0 <= i < b.delegateCount ==> b.handlers[i].selector.Some?
      ensures matched == Matching(b.handlers[..b.delegateCount], matches, cur)
    {
      matched := [];
      var matchedSelectors: map<Selector, bool> := map[];
      var i := 0;
      while i < b.delegateCount
        invariant 0 <= i <= b.delegateCount
        invariant forall s :: s in matchedSelectors ==> matchedSelectors[s] == matches(s, cur)
        invariant matched == Matching(b.handlers[..i], matches, cur)
      {
        var sel := b.handlers[i].selector.value;
        if sel !in matchedSelectors {
          matchedSelectors := matchedSelectors[sel := matches(sel, cur)];
        }
        assert b.handlers[..i + 1][..i] == b.handlers[..i];
        if matchedSelectors[sel] {
          matched := matched + [b.handlers[i]];
        }
        i := i + 1;
      }
    }
  }

  lemma MoveOne(queue: seq<Stop>, rest: seq<Stop>)
    requires rest != []
    ensures queue + rest == (queue + [rest[0]]) + rest[1..]
  {
  }

  lemma StopsStep(cur: Node, self: Node, hs: seq<HandleObj>, matches: (Selector, Node) -> bool, eligible: Node -> bool)
    requires cur != self
    ensures DelegateStops(Path(cur, self), hs, matches, eligible) ==
            (if eligible(cur) && Matching(hs, matches, cur) != [] then [Stop(cur, Matching(hs, matches, cur))] else []) +
            if cur == [] then [] else DelegateStops(Path(Parent(cur), self), hs, matches, eligible)
  {
    var path := Path(cur, self);
    assert path[0] == cur && path[1..] == if cur == [] then [] else Path(Parent(cur), self);
  }

  /** The handlers from index `j` on have been through the loop of remove. */
  ghost predicate PartlySpliced(b: Bucket, c: Criteria, all: seq<HandleObj>, j: nat) {
    j <= |all| && b.handlers == all[..j] + Kept(c, all[j..]) && b.delegateCount == CountDelegated(b.handlers)
  }

  lemma RemoveStep(c: Criteria, all: seq<HandleObj>, j: nat)
    requires j < |all|
    ensures var now, rest := all[..j + 1] + Kept(c, all[j + 1..]), Kept(c, all[j + 1..]);
            && now[j] == all[j] && now[..j] + now[j + 1..] == all[..j] + rest
            && all[..j] + Kept(c, all[j..]) == if Fits(c, all[j]) then all[..j] + rest else now
  {
    var rest := Kept(c, all[j + 1..]);
    assert all[j..] == [all[j]] + all[j + 1..];
    KeptAppend(c, [all[j]], all[j + 1..]);
    KeptOne(c, all[j]);
    SeqStep(all, j, rest);
  }

  lemma SeqStep(all: seq<HandleObj>, j: nat, rest: seq<HandleObj>)
    requires j < |all|
    ensures var now := all[..j + 1] + rest;
            now[j] == all[j] && now[..j] + now[j + 1..] == all[..j] + rest && now == all[..j] + ([all[j]] + rest)
    ensures [] + rest == rest
  {
  }

  lemma CountSplice(hs: seq<HandleObj>, j: nat)
    requires j < |hs|
    ensures CountDelegated(hs) == CountDelegated(hs[..j] + hs[j + 1..]) + if hs[j].selector.Some? then 1 else 0
  {
    CountSplit(hs, j + 1);
    CountAppend(hs[..j], hs[j + 1..]);
    CountLast(hs, j);
  }

  lemma CountSplit(hs: seq<HandleObj>, j: nat)
    requires j <= |hs|
    ensures CountDelegated(hs) == CountDelegated(hs[..j]) + CountDelegated(hs[j..])
  {
    assert hs == hs[..j] + hs[j..];
    CountAppend(hs[..j], hs[j..]);
  }

  lemma CountLast(hs: seq<HandleObj>, j: nat)
    requires j < |hs|
    ensures CountDelegated(hs[..j + 1]) == CountDelegated(hs[..j]) + if hs[j].selector.Some? then 1 else 0
  {
    assert hs[..j + 1][..j] == hs[..j];
  }

  lemma {:induction false} NoStops(path: seq<Node>, matches: (Selector, Node) -> bool, eligible: Node -> bool)
    ensures DelegateStops(path, [], matches, eligible) == []
    decreases |path|
  {
    if path != [] {
      NoStops(path[1..], matches, eligible);
    }
  }

  /** Where add puts a handler. */
  lemma Inserted(bound: seq<HandleObj>, h: HandleObj)
    ensures var b, n := Arranged(bound), Arranged(bound).delegateCount;
            Arranged(bound + [h]) ==
            if h.selector.Some? then Bucket(b.handlers[..n] + [h] + b.handlers[n..], n + 1) else Bucket(b.handlers + [h], n)
  {
    Snoc(NOTHING, bound, h);
    var d, e := Delegated(bound), Direct(bound);
    assert (d + e)[..|d|] == d && (d + e)[|d|..] == e;
    assert d + (e + [h]) == (d + e) + [h];
  }

  // ----- Cloning

  /** An array is recovered by binding its handlers in the order in which it lists them. */
  lemma ArrangedTwice(bound: seq<HandleObj>)
    ensures Arranged(Arranged(bound).handlers) == Arranged(bound)
  {
    PartsAreRight(bound);
    SplitParts(Delegated(bound), Direct(bound));
  }

  lemma {:induction false} SplitParts(a: seq<HandleObj>, b: seq<HandleObj>)
    requires forall i :: 0 <= i < |a| ==> a[i].selector.Some?
    requires forall i :: 0 <= i < |b| ==> b[i].selector.None?
    ensures Delegated(a + b) == a && Direct(a + b) == b
    decreases |a| + |b|
  {
    if b != [] {
      var init, last := b[..|b| - 1], b[|b| - 1];
      assert b == init + [last] && a + b == (a + init) + [last];
      SplitParts(a, init);
      Snoc(NOTHING, a + init, last);
    } else if a != [] {
      var init, last := a[..|a| - 1], a[|a| - 1];
      assert a == init + [last] && a + b == init + [last] && init + b == init;
      SplitParts(init, b);
      Snoc(NOTHING, init, last);
    }
  }

  /** Mapping the type under which a handler is kept leaves that type alone. */
  ghost predicate Stable(bound: map<EventType, seq<HandleObj>>, special: Special) {
    forall t, h :: t in bound && h in bound[t] ==> special(t, h.selector.Some?) == t
  }

  /** add and remove keep Stable if no special event is mapped to another special event. */
  lemma StableKept(bound: map<EventType, seq<HandleObj>>, special: Special, origType: EventType, h: HandleObj, c: Criteria)
    requires Stable(bound, special)
    requires forall t, d :: special(special(t, d), d) == special(t, d)
    ensures var t := special(origType, h.selector.Some?);
            Stable(bound[t := BoundUnder(bound, t) + [h]], special)
    ensures var t := special(origType, c.which != Any);
            Stable(bound[t := Kept(c, BoundUnder(bound, t))], special)
  {
    KeptExact(c, BoundUnder(bound, special(origType, c.which != Any)));
  }

  /** remove leaves exactly the handlers that do not fit. */
  lemma {:induction false} KeptExact(c: Criteria, bound: seq<HandleObj>)
    ensures forall h :: h in Kept(c, bound) <==> h in bound && !Fits(c, h)
    decreases |bound|
  {
    if bound != [] {
      KeptExact(c, bound[..|bound| - 1]);
      assert bound == bound[..|bound| - 1] + [bound[|bound| - 1]];
    }
  }

  lemma {:induction false} ArrangedExact(bound: seq<HandleObj>)
    ensures forall h :: h in Arranged(bound).handlers <==> h in bound
    decreases |bound|
  {
    if bound != [] {
      var init, last := bound[..|bound| - 1], bound[|bound| - 1];
      ArrangedExact(init);
      assert bound == init + [last];
      Snoc(NOTHING, init, last);
    }
  }

  lemma StableTypes(bound: map<EventType, seq<HandleObj>>, special: Special, t: EventType)
    requires Stable(bound, special) && t in bound
    ensures StableUnder(bound[t], t, special)
  {
  }

  /** Mapping the type under which the handlers are kept leaves it alone, for each of them. */
  ghost predicate StableUnder(hs: seq<HandleObj>, t: EventType, special: Special) {
    forall h :: h in hs ==> special(t, h.selector.Some?) == t
  }

  /** cloneCopyEvent for one type and its array: the handlers are added one by one. */
  method CloneType(src: Bucket, dest: EventTable, t: EventType, special: Special, ghost b: seq<HandleObj>)
    requires src == Arranged(b) && b != [] && AllWellNamed(b) && StableUnder(b, t, special)
    requires dest.Valid() && t !in dest.events
    modifies dest
    ensures dest.Valid() && dest.events == old(dest.events)[t := src]
  {
    PartsAreRight(b);
    ArrangedExact(b);
    CloneList(src.handlers, dest, t, special);
    ArrangedTwice(b);
  }

  method CloneList(list: seq<HandleObj>, dest: EventTable, t: EventType, special: Special)
    requires dest.Valid() && t !in dest.events && list != [] && AllWellNamed(list)
    requires StableUnder(list, t, special)
    modifies dest
    ensures dest.Valid() && dest.events == old(dest.events)[t := Arranged(list)]
  {
    ghost var others := dest.events;
    var i := 0;
    while i < |list|
      invariant 0 <= i <= |list| && dest.Valid() && dest.Bound(t) == list[..i]
      invariant dest.events - {t} == others && (i > 0 ==> t in dest.events)
    {
      assert list[..i + 1] == list[..i] + [list[i]];
      assert special(t, list[i].selector.Some?) == t;
      dest.Add(t, list[i], special);
      i := i + 1;
    }
    assert list[..i] == list;
  }

  lemma MapStep(m: map<EventType, Bucket>, todo: set<EventType>, t: EventType)
    requires t in todo && t in m
    ensures (m - todo)[t := m[t]] == m - (todo - {t})
  {
  }

  /** cloneCopyEvent: the loop over the types, in any order. */
  method CloneEvents(src: EventTable, dest: EventTable, special: Special)
    requires src != dest && src.Valid() && dest.Valid() && dest.events == map[]
    requires Stable(src.bound, special)
    modifies dest
    ensures dest.Valid() && dest.events == src.events
  {
    var todo := src.events.Keys;
    while todo != {}
      invariant dest.Valid() && todo <= src.events.Keys
      invariant dest.events == src.events - todo
      decreases |todo|
    {
      var t :| t in todo;
      MapStep(src.events, todo, t);
      TypeIsCloneable(src, t, special);
      CloneType(src.events[t], dest, t, special, src.bound[t]);
      todo := todo - {t};
    }
  }

  lemma TypeIsCloneable(src: EventTable, t: EventType, special: Special)
    requires src.Valid() && Stable(src.bound, special) && t in src.events
    ensures t in src.bound && src.bound[t] != [] && src.events[t] == Arranged(src.bound[t])
    ensures AllWellNamed(src.bound[t]) && StableUnder(src.bound[t], t, special)
  {
    StableTypes(src.bound, special, t);
  }
}
