/** superMatcher with a seed, when a selector list has both element matchers and positional
    (set) matchers: two sources of matches are merged back into seed order.  The set matchers
    are those that setMatcher builds, by their branch for a seed. */
module SeededMerge {
  import opened Collections
  import opened Dom

  /** An array slot that may hold an element or something falsy. */
  type Slots = seq<Option<Node>>

  type ElementMatcher = Node -> bool

  /** A positional filter, or another one that works on a whole set, picks indices and moves
      those elements to its matches: `seed[j] = !(matches[j] = seed[j])`. */
  type Picks = Slots -> set<nat>

  /** A post finder, applied to the elements found so far in the order in which they are
      collected, finds elements in any order. */
  type Finder = seq<Node> -> seq<Node>

  /** What setMatcher returns.  A filter without positional part becomes a Plain one, and is a
      post filter only. */
  datatype SetMatcher =
    | Plain(filter: ElementMatcher)
    | Positional(pre: Option<ElementMatcher>, picks: Picks, post: Option<SetMatcher>, finder: Option<Finder>)

  datatype Sets = Sets(unmatched: Slots, matches: Slots)

  // ----- One set matcher on the array of unmatched elements and the array of its matches

  function Nothing(n: nat): (r: Slots)
    ensures |r| == n && forall i :: 0 <= i < n ==> r[i].None?
  {
    seq(n, _ => None)
  }

  function Untake(slots: Slots, picks: set<nat>): (r: Slots)
    ensures |r| == |slots| && forall i :: 0 <= i < |r| ==> r[i] == if i in picks then None else slots[i]
  {
    seq(|slots|, i requires 0 <= i < |slots| => if i in picks then None else slots[i])
  }

  /** `matches` with the elements that `unmatched` holds at `picks`. */
  function Take(unmatched: Slots, matches: Slots, picks: set<nat>): (r: Slots)
    requires |unmatched| == |matches|
    ensures |r| == |matches|
    ensures forall i :: 0 <= i < |r| ==> r[i] == if i in picks && unmatched[i].Some? then unmatched[i] else matches[i]
  {
    seq(|matches|, i requires 0 <= i < |matches| => if i in picks && unmatched[i].Some? then unmatched[i] else matches[i])
  }

  function Pick(s: Sets, picks: set<nat>): (r: Sets)
    requires |s.unmatched| == |s.matches|
    ensures |r.unmatched| == |r.matches| == |s.matches|
  {
    Sets(Untake(s.unmatched, picks), Take(s.unmatched, s.matches, picks))
  }

  /** condense with a map: the indices of the elements that pass the filter, in order. */
  function Where(slots: Slots, filter: ElementMatcher, n: nat): (r: seq<nat>)
    requires n <= |slots|
    ensures forall k :: 0 <= k < |r| ==> r[k] < n && slots[r[k]].Some? && filter(slots[r[k]].value)
    ensures forall i :: 0 <= i < n && slots[i].Some? && filter(slots[i].value) ==> i in r
    ensures forall k, l :: 0 <= k < l < |r| ==> r[k] < r[l]
    decreases n
  {
    if n == 0 then []
    else Where(slots, filter, n - 1) + if slots[n - 1].Some? && filter(slots[n - 1].value) then [n - 1] else []
  }

  function Gather(slots: Slots, indices: seq<nat>): (r: Slots)
    requires forall k :: 0 <= k < |indices| ==> indices[k] < |slots|
    ensures |r| == |indices| && forall k :: 0 <= k < |r| ==> r[k] == slots[indices[k]]
  {
    seq(|indices|, k requires 0 <= k < |indices| => slots[indices[k]])
  }

  /** Those of the indices at whose place `slots` holds something. */
  function Selected(indices: seq<nat>, slots: Slots): (r: set<nat>)
    requires |indices| == |slots|
    ensures forall i :: i in r <==> exists k :: 0 <= k < |slots| && slots[k].Some? && indices[k] == i
  {
    set k | 0 <= k < |slots| && slots[k].Some? :: indices[k]
  }

  function Passing(slots: Slots, filter: ElementMatcher): set<nat> {
    set i | 0 <= i < |slots| && slots[i].Some? && filter(slots[i].value)
  }

  const ANYTHING: ElementMatcher := _ => true

  /** "Un-match failing elements by moving them back". */
  function Unmatch(s: Sets, failing: set<nat>): (r: Sets)
    requires |s.unmatched| == |s.matches|
    ensures |r.unmatched| == |r.matches| == |s.matches|
  {
    Sets(Take(s.matches, s.unmatched, failing), Untake(s.matches, failing))
  }

  /** The indices of the elements among the matches that the post filter leaves over. */
  function Failing(post: SetMatcher, matches: Slots): set<nat>
    decreases post, 1
  {
    var indices := Where(matches, ANYTHING, |matches|);
    var temp := Gather(matches, indices);
    Selected(indices, Applied(post, Sets(temp, Nothing(|temp|))).unmatched)
  }

  function Filtered(post: Option<SetMatcher>, s: Sets): (r: Sets)
    requires |s.unmatched| == |s.matches|
    ensures |r.unmatched| == |r.matches| == |s.matches|
    decreases post, 0
  {
    if post.None? then s else Unmatch(s, Failing(post.value, s.matches))
  }

  /** The elements held, from the last to the first. */
  function Backwards(slots: Slots): seq<Node> {
    if slots == [] then [] else Held(slots[|slots| - 1]) + Backwards(slots[..|slots| - 1])
  }

  function Held(slot: Option<Node>): seq<Node> {
    if slot.Some? then [slot.value] else []
  }

  /** `indexOf( seed, elem )`, or None for -1. */
  function IndexOf(slots: Slots, x: Node): (r: Option<nat>)
    ensures r.Some? ==> r.value < |slots| && slots[r.value] == Some(x) && forall k :: 0 <= k < r.value ==> slots[k] != Some(x)
    ensures r.None? ==> Some(x) !in slots
  {
    if slots == [] then None
    else if slots[0] == Some(x) then Some(0)
    else
      var rest := IndexOf(slots[1..], x);
      if rest.Some? then Some(rest.value + 1) else None
  }

  /** Moves what was found, from the last to the first, wherever it is still unmatched. */
  function Claim(s: Sets, found: seq<Node>): (r: Sets)
    requires |s.unmatched| == |s.matches|
    ensures |r.unmatched| == |r.matches| == |s.matches|
    decreases |found|
  {
    if found == [] then s
    else
      var i := IndexOf(s.unmatched, found[|found| - 1]);
      Claim(if i.Some? then Pick(s, {i.value}) else s, found[..|found| - 1])
  }

  /** The branch for a seed. */
  function Applied(m: SetMatcher, s: Sets): (r: Sets)
    requires |s.unmatched| == |s.matches|
    ensures |r.unmatched| == |r.matches| == |s.matches|
    decreases m, 0
  {
    match m
    case Plain(filter) => Pick(s, Passing(s.unmatched, filter))
    case Positional(pre, picks, post, finder) =>
      if pre.None? && finder.None? then
        // the matches themselves are the positional filter's output
        Filtered(post, Pick(s, picks(s.unmatched)))
      else
        var preMap := Where(s.unmatched, if pre.Some? then pre.value else ANYTHING, |s.unmatched|);
        var input := if pre.Some? then Gather(s.unmatched, preMap) else s.unmatched;
        var out := Filtered(post, Pick(Sets(input, Nothing(|input|)), picks(input)));
        if finder.Some? then Claim(s, finder.value(Backwards(out.matches)))
        else Pick(s, Selected(preMap, out.matches))
  }

  // ----- Every set matcher keeps each element in exactly one of the two arrays

  /** Every element of `start` is either still unmatched or matched, at its own index. */
  ghost predicate Split(start: Slots, s: Sets) {
    && |s.unmatched| == |s.matches| == |start|
    && forall i :: 0 <= i < |start| ==>
         (s.unmatched[i] == start[i] && s.matches[i].None?) || (s.unmatched[i].None? && s.matches[i] == start[i])
  }

  lemma PickSplits(start: Slots, s: Sets, picks: set<nat>)
    requires Split(start, s)
    ensures Split(start, Pick(s, picks))
  {
  }

  lemma {:induction false} ClaimSplits(start: Slots, s: Sets, found: seq<Node>)
    requires Split(start, s)
    ensures Split(start, Claim(s, found))
    decreases |found|
  {
    if found != [] {
      var i := IndexOf(s.unmatched, found[|found| - 1]);
      if i.Some? {
        PickSplits(start, s, {i.value});
      }
      ClaimSplits(start, if i.Some? then Pick(s, {i.value}) else s, found[..|found| - 1]);
    }
  }

  lemma FilteredSplits(start: Slots, post: Option<SetMatcher>, s: Sets)
    requires Split(start, s)
    ensures Split(start, Filtered(post, s))
  {
  }

  lemma AppliedSplits(start: Slots, m: SetMatcher, s: Sets)
    requires Split(start, s)
    ensures Split(start, Applied(m, s))
  {
    match m
    case Plain(filter) => PickSplits(start, s, Passing(s.unmatched, filter));
    case Positional(pre, picks, post, finder) =>
      if pre.None? && finder.None? {
        PickSplits(start, s, picks(s.unmatched));
        FilteredSplits(start, post, Pick(s, picks(s.unmatched)));
      } else {
        var preMap := Where(s.unmatched, if pre.Some? then pre.value else ANYTHING, |s.unmatched|);
        var input := if pre.Some? then Gather(s.unmatched, preMap) else s.unmatched;
        var out := Filtered(post, Pick(Sets(input, Nothing(|input|)), picks(input)));
        if finder.Some? {
          ClaimSplits(start, s, finder.value(Backwards(out.matches)));
        } else {
          PickSplits(start, s, Selected(preMap, out.matches));
        }
      }
  }

  // ----- What a set matcher matches, and what it un-matches

  ghost predicate Adds(m: SetMatcher, s: Sets, i: nat)
    requires |s.unmatched| == |s.matches|
  {
    i < |s.matches| && s.matches[i].None? && Applied(m, s).matches[i].Some?
  }

  ghost predicate Removes(m: SetMatcher, s: Sets, i: nat)
    requires |s.unmatched| == |s.matches|
  {
    i < |s.matches| && s.matches[i].Some? && Applied(m, s).matches[i].None?
  }

  /** The matches of all set matchers serve it as the output of its positional filter. */
  predicate Direct(m: SetMatcher) {
    m.Positional? && m.pre.None? && m.finder.None?
  }

  /** The element at `i`, once the positional filter has picked, passes the post filter. */
  ghost predicate Passes(post: Option<SetMatcher>, s: Sets, i: nat) {
    post.Some? ==> i !in Failing(post.value, s.matches)
  }

  /** A post filter without positional part lets through what it accepts. */
  lemma PlainPost(filter: ElementMatcher, matches: Slots, i: nat)
    requires i < |matches|
    ensures i in Failing(Plain(filter), matches) <==> matches[i].Some? && !filter(matches[i].value)
  {
    FailingIsHeld(Plain(filter), matches, i);
    if matches[i].Some? {
      var list := Gather(matches, Where(matches, ANYTHING, |matches|));
      PostByPlace(Plain(filter), matches, i);
      PlainPicks(filter, list, HeldBefore(matches, i));
    }
  }

  lemma PlainPicks(filter: ElementMatcher, list: Slots, k: nat)
    requires k < |list| && list[k].Some?
    ensures Applied(Plain(filter), Sets(list, Nothing(|list|))).matches[k].Some? <==> filter(list[k].value)
  {
  }

  lemma FailingIsHeld(post: SetMatcher, matches: Slots, i: nat)
    requires i < |matches|
    ensures i in Failing(post, matches) ==> matches[i].Some?
  {
  }

  /** How many elements the array holds before `i`. */
  function HeldBefore(slots: Slots, i: nat): nat
    requires i <= |slots|
    decreases i
  {
    if i == 0 then 0 else HeldBefore(slots, i - 1) + if slots[i - 1].Some? then 1 else 0
  }

  lemma WhereGrows(slots: Slots, n: nat)
    requires 0 < n <= |slots|
    ensures Where(slots, ANYTHING, n) == Where(slots, ANYTHING, n - 1) + if slots[n - 1].Some? then [n - 1] else []
  {
    assert slots[n - 1].Some? ==> ANYTHING(slots[n - 1].value);
  }

  lemma {:induction false} WhereLength(slots: Slots, n: nat)
    requires n <= |slots|
    ensures |Where(slots, ANYTHING, n)| == HeldBefore(slots, n)
    decreases n
  {
    if n > 0 {
      WhereGrows(slots, n);
      WhereLength(slots, n - 1);
    }
  }

  ghost predicate PlaceOf(w: seq<nat>, k: nat, i: nat) {
    k < |w| && w[k] == i
  }

  lemma WhereEnds(slots: Slots, n: nat)
    requires 0 < n <= |slots| && slots[n - 1].Some?
    ensures PlaceOf(Where(slots, ANYTHING, n), HeldBefore(slots, n - 1), n - 1)
  {
    WhereGrows(slots, n);
    WhereLength(slots, n - 1);
    LastPlace(Where(slots, ANYTHING, n - 1), n - 1);
  }

  lemma {:induction false} WhereAt(slots: Slots, n: nat, i: nat)
    requires i < n <= |slots| && slots[i].Some?
    ensures PlaceOf(Where(slots, ANYTHING, n), HeldBefore(slots, i), i)
    decreases n
  {
    if i == n - 1 {
      WhereEnds(slots, n);
    } else {
      WhereAt(slots, n - 1, i);
      PlaceInNext(slots, n, HeldBefore(slots, i), i);
    }
  }

  lemma PlaceInNext(slots: Slots, n: nat, k: nat, i: nat)
    requires 0 < n <= |slots| && PlaceOf(Where(slots, ANYTHING, n - 1), k, i)
    ensures PlaceOf(Where(slots, ANYTHING, n), k, i)
  {
    WhereGrows(slots, n);
    PlaceStays(Where(slots, ANYTHING, n - 1), if slots[n - 1].Some? then [n - 1] else [], k, i);
  }

  lemma LastPlace(w: seq<nat>, i: nat)
    ensures PlaceOf(w + [i], |w|, i)
  {
  }

  lemma PlaceStays(w: seq<nat>, more: seq<nat>, k: nat, i: nat)
    requires PlaceOf(w, k, i)
    ensures PlaceOf(w + more, k, i)
  {
  }

  /** Any post filter, positional or not, works on the list of the elements matched so far: an
      element fails it iff it is not matched there, at its place in that list. */
  lemma PostByPlace(post: SetMatcher, matches: Slots, i: nat)
    requires i < |matches| && matches[i].Some?
    ensures var list := Gather(matches, Where(matches, ANYTHING, |matches|));
            && HeldBefore(matches, i) < |list| && list[HeldBefore(matches, i)] == matches[i]
            && (i in Failing(post, matches) <==> Applied(post, Sets(list, Nothing(|list|))).matches[HeldBefore(matches, i)].None?)
  {
    var indices := Where(matches, ANYTHING, |matches|);
    var list := Gather(matches, indices);
    WhereAt(matches, |matches|, i);
    AppliedSplits(list, post, Sets(list, Nothing(|list|)));
    SelectedAt(indices, Applied(post, Sets(list, Nothing(|list|))).unmatched, HeldBefore(matches, i));
  }

  lemma SelectedAt(indices: seq<nat>, slots: Slots, k: nat)
    requires |indices| == |slots| && k < |slots| && forall a, b :: 0 <= a < b < |indices| ==> indices[a] < indices[b]
    ensures indices[k] in Selected(indices, slots) <==> slots[k].Some?
  {
    if l :| 0 <= l < |slots| && slots[l].Some? && indices[l] == indices[k] {
      assert l == k;
    }
  }

  lemma DirectApplied(m: SetMatcher, s: Sets)
    requires |s.unmatched| == |s.matches| && Direct(m)
    ensures Applied(m, s) == Filtered(m.post, Pick(s, m.picks(s.unmatched)))
  {
  }

  lemma FilteredMatches(post: Option<SetMatcher>, s: Sets, i: nat)
    requires |s.unmatched| == |s.matches| && i < |s.matches|
    ensures Filtered(post, s).matches[i] == if Passes(post, s, i) then s.matches[i] else None
  {
  }

  /** A direct set matcher matches what it picks and its post filter lets through. */
  lemma DirectAdds(m: SetMatcher, s: Sets, start: Slots, i: nat)
    requires Split(start, s) && Direct(m) && i < |start|
    ensures Adds(m, s, i) <==>
            s.unmatched[i].Some? && i in m.picks(s.unmatched) && Passes(m.post, Pick(s, m.picks(s.unmatched)), i)
  {
    DirectApplied(m, s);
    FilteredMatches(m.post, Pick(s, m.picks(s.unmatched)), i);
  }

  /** What was matched before is un-matched exactly by direct set matchers, if it fails their
      post filter. */
  lemma RemovesIff(m: SetMatcher, s: Sets, start: Slots, i: nat)
    requires Split(start, s) && i < |start| && s.matches[i].Some?
    ensures Removes(m, s, i) <==> Direct(m) && !Passes(m.post, Pick(s, m.picks(s.unmatched)), i)
  {
    if Direct(m) {
      DirectApplied(m, s);
      FilteredMatches(m.post, Pick(s, m.picks(s.unmatched)), i);
    } else if m.Positional? && m.finder.Some? {
      var preMap := Where(s.unmatched, if m.pre.Some? then m.pre.value else ANYTHING, |s.unmatched|);
      var input := if m.pre.Some? then Gather(s.unmatched, preMap) else s.unmatched;
      var out := Filtered(m.post, Pick(Sets(input, Nothing(|input|)), m.picks(input)));
      ClaimKeeps(start, s, m.finder.value(Backwards(out.matches)), i);
    }
  }

  lemma {:induction false} ClaimKeeps(start: Slots, s: Sets, found: seq<Node>, i: nat)
    requires Split(start, s) && i < |start| && s.matches[i].Some?
    ensures Claim(s, found).matches[i].Some?
    decreases |found|
  {
    if found != [] {
      var k := IndexOf(s.unmatched, found[|found| - 1]);
      if k.Some? {
        PickSplits(start, s, {k.value});
      }
      ClaimKeeps(start, if k.Some? then Pick(s, {k.value}) else s, found[..|found| - 1], i);
    }
  }

  /** With a pre filter, the positional filter picks from the elements that pass it, and sees
      neither what was matched before nor what fails. */
  lemma PreAdds(m: SetMatcher, s: Sets, start: Slots, i: nat)
    requires Split(start, s) && m.Positional? && m.pre.Some? && m.finder.None? && i < |start|
    ensures var preMap := Where(s.unmatched, m.pre.value, |s.unmatched|);
            var input := Gather(s.unmatched, preMap);
            Adds(m, s, i) <==>
              exists k :: 0 <= k < |preMap| && preMap[k] == i && k in m.picks(input) &&
                          Passes(m.post, Pick(Sets(input, Nothing(|input|)), m.picks(input)), k)
  {
    var preMap := Where(s.unmatched, m.pre.value, |s.unmatched|);
    var input := Gather(s.unmatched, preMap);
    var picked := Pick(Sets(input, Nothing(|input|)), m.picks(input));
    var out := Filtered(m.post, picked);
    forall k | 0 <= k < |preMap|
      ensures out.matches[k].Some? <==> k in m.picks(input) && Passes(m.post, picked, k)
    {
      assert input[k].Some?;
    }
  }

  /** With a post finder, exactly the elements found that were unmatched are matched. */
  lemma FinderAdds(m: SetMatcher, s: Sets, start: Slots, x: Node)
    requires Split(start, s) && m.Positional? && m.finder.Some?
    ensures var preMap := Where(s.unmatched, if m.pre.Some? then m.pre.value else ANYTHING, |s.unmatched|);
            var input := if m.pre.Some? then Gather(s.unmatched, preMap) else s.unmatched;
            var out := Filtered(m.post, Pick(Sets(input, Nothing(|input|)), m.picks(input)));
            (exists i: nat :: Adds(m, s, i) && start[i] == Some(x)) <==>
              Some(x) in s.unmatched && x in m.finder.value(Backwards(out.matches))
  {
    var preMap := Where(s.unmatched, if m.pre.Some? then m.pre.value else ANYTHING, |s.unmatched|);
    var input := if m.pre.Some? then Gather(s.unmatched, preMap) else s.unmatched;
    var out := Filtered(m.post, Pick(Sets(input, Nothing(|input|)), m.picks(input)));
    ClaimAdds(start, s, m.finder.value(Backwards(out.matches)), x);
    assert forall i: nat :: Adds(m, s, i) <==> Claims(s, m.finder.value(Backwards(out.matches)), i);
  }

  ghost predicate Claims(s: Sets, found: seq<Node>, i: nat)
    requires |s.unmatched| == |s.matches|
  {
    i < |s.matches| && s.matches[i].None? && Claim(s, found).matches[i].Some?
  }

  lemma {:induction false} ClaimAdds(start: Slots, s: Sets, found: seq<Node>, x: Node)
    requires Split(start, s)
    ensures (exists i: nat :: Claims(s, found, i) && start[i] == Some(x)) <==> Some(x) in s.unmatched && x in found
    decreases |found|
  {
    if found != [] {
      var init, last := found[..|found| - 1], found[|found| - 1];
      var k := IndexOf(s.unmatched, last);
      var s' := if k.Some? then Pick(s, {k.value}) else s;
      assert found == init + [last];
      if k.Some? {
        PickSplits(start, s, {k.value});
        ClaimKeeps(start, s', init, k.value);
        assert Claims(s, found, k.value);
      }
      ClaimAdds(start, s', init, x);
      forall i: nat ensures Claims(s, found, i) <==> Claims(s', init, i) || (k.Some? && i == k.value) {
      }
      if i: nat :| Claims(s, found, i) && start[i] == Some(x) {
        assert s.unmatched[i] == Some(x);
      }
      if Some(x) in s.unmatched && x in found && x != last {
        assert Some(x) in s'.unmatched by {
          var i :| 0 <= i < |s.unmatched| && s.unmatched[i] == Some(x);
          assert s'.unmatched[i] == Some(x);
        }
        var i: nat :| Claims(s', init, i) && start[i] == Some(x);
        assert Claims(s, found, i);
      }
    }
  }

  // ----- All set matchers, one after the other

  /** `unmatched` and `setMatched` after the first `j` set matchers. */
  function AfterSets(start: Slots, sets: seq<SetMatcher>, j: nat): (r: Sets)
    requires j <= |sets|
    ensures |r.unmatched| == |r.matches| == |start|
    decreases j
  {
    if j == 0 then Sets(start, Nothing(|start|)) else Applied(sets[j - 1], AfterSets(start, sets, j - 1))
  }

  lemma {:induction false} AfterSplits(start: Slots, sets: seq<SetMatcher>, j: nat)
    requires j <= |sets|
    ensures Split(start, AfterSets(start, sets, j))
    decreases j
  {
    if j > 0 {
      AfterSplits(start, sets, j - 1);
      AppliedSplits(start, sets[j - 1], AfterSets(start, sets, j - 1));
    }
  }

  // ----- The history of one element

  /** Whether the element is matched, before the first set matcher and after each. */
  function History(start: Slots, sets: seq<SetMatcher>, i: nat): (h: seq<bool>)
    requires i < |start|
    ensures |h| == |sets| + 1 && forall j :: 0 <= j < |h| ==> h[j] == AfterSets(start, sets, j).matches[i].Some?
  {
    seq(|sets| + 1, j requires 0 <= j < |sets| + 1 => AfterSets(start, sets, j).matches[i].Some?)
  }

  predicate Rises(h: seq<bool>, k: nat) {
    k + 1 < |h| && !h[k] && h[k + 1]
  }

  predicate Falls(h: seq<bool>, k: nat) {
    k + 1 < |h| && h[k] && !h[k + 1]
  }

  /** Set matcher `k` matches, or un-matches, element `i`. */
  ghost predicate AddedAt(start: Slots, sets: seq<SetMatcher>, k: nat, i: nat) {
    i < |start| && Rises(History(start, sets, i), k)
  }

  ghost predicate RemovedAt(start: Slots, sets: seq<SetMatcher>, k: nat, i: nat) {
    i < |start| && Falls(History(start, sets, i), k)
  }

  lemma StepOfHistory(start: Slots, sets: seq<SetMatcher>, k: nat, i: nat)
    requires k < |sets| && i < |start|
    ensures AddedAt(start, sets, k, i) <==> Adds(sets[k], AfterSets(start, sets, k), i)
    ensures RemovedAt(start, sets, k, i) <==> Removes(sets[k], AfterSets(start, sets, k), i)
  {
    assert AfterSets(start, sets, k + 1) == Applied(sets[k], AfterSets(start, sets, k));
  }

  /** It rises before `j`, and does not fall again. */
  ghost predicate StaysUp(h: seq<bool>, j: nat) {
    exists k: nat :: k < j && Rises(h, k) && forall l: nat :: k < l < j ==> !Falls(h, l)
  }

  lemma {:induction false} UpIffStays(h: seq<bool>, j: nat)
    requires j < |h| && !h[0]
    ensures h[j] <==> StaysUp(h, j)
    decreases j
  {
    if j > 0 {
      UpIffStays(h, j - 1);
      if h[j - 1] && h[j] {
        var k: nat :| k < j - 1 && Rises(h, k) && forall l: nat :: k < l < j - 1 ==> !Falls(h, l);
        assert !Falls(h, j - 1);
        assert StaysUp(h, j);
      }
      if !h[j - 1] && h[j] {
        assert Rises(h, j - 1);
        assert StaysUp(h, j);
      }
      if StaysUp(h, j) {
        var k: nat :| k < j && Rises(h, k) && forall l: nat :: k < l < j ==> !Falls(h, l);
        if k < j - 1 {
          assert StaysUp(h, j - 1);
          assert !Falls(h, j - 1);
        }
      }
    }
  }

  ghost predicate RisesAgain(h: seq<bool>, k: nat) {
    exists l: nat :: k < l && Rises(h, l)
  }

  ghost predicate RisesOnce(h: seq<bool>) {
    exists k: nat :: Rises(h, k)
  }

  lemma {:induction false} LastFall(h: seq<bool>, j: nat, n: nat)
    requires j <= n < |h| && h[j] && !h[n]
    ensures exists k: nat :: k < n && Falls(h, k) && forall l: nat :: k < l < n ==> !Rises(h, l)
    decreases n
  {
    if h[n - 1] {
      assert Falls(h, n - 1);
    } else {
      LastFall(h, j, n - 1);
      var k: nat :| k < n - 1 && Falls(h, k) && forall l: nat :: k < l < n - 1 ==> !Rises(h, l);
      assert !Rises(h, n - 1);
    }
  }

  lemma EndsUpIff(h: seq<bool>)
    requires h != [] && !h[0]
    ensures (h[|h| - 1] <==> RisesOnce(h)) <==> forall k: nat :: Falls(h, k) ==> RisesAgain(h, k)
  {
    var n := |h| - 1;
    UpIffStays(h, n);
    if RisesOnce(h) && !h[n] {
      var k: nat :| Rises(h, k);
      LastFall(h, k + 1, n);
      var l: nat :| l < n && Falls(h, l) && forall m: nat :: l < m < n ==> !Rises(h, m);
      assert !RisesAgain(h, l);
    } else {
      forall k: nat | Falls(h, k) ensures RisesAgain(h, k) {
        UpIffStays(h, k);
        var k0: nat :| k0 < k && Rises(h, k0);
        assert RisesOnce(h);
        var k1: nat :| k1 < n && Rises(h, k1) && forall l: nat :: k1 < l < n ==> !Falls(h, l);
        assert k < k1;
      }
    }
  }

  /** Some set matcher matches the element, and none after it un-matches it. */
  ghost predicate Stays(start: Slots, sets: seq<SetMatcher>, i: nat)
    requires i < |start|
  {
    StaysUp(History(start, sets, i), |sets|)
  }

  lemma MatchedIffStays(start: Slots, sets: seq<SetMatcher>, i: nat)
    requires i < |start|
    ensures AfterSets(start, sets, |sets|).matches[i].Some? <==> Stays(start, sets, i)
  {
    UpIffStays(History(start, sets, i), |sets|);
  }

  /** Element `i` ends as matched iff some set matcher has matched it. */
  ghost predicate InUnion(start: Slots, sets: seq<SetMatcher>, i: nat)
    requires i < |start|
  {
    AfterSets(start, sets, |sets|).matches[i].Some? <==> exists k: nat :: AddedAt(start, sets, k, i)
  }

  ghost predicate AddedAgain(start: Slots, sets: seq<SetMatcher>, k: nat, i: nat) {
    exists l: nat :: k < l && AddedAt(start, sets, l, i)
  }

  /** The set matchers match, together, exactly what some of them matches, if and only if
      whatever one of them un-matches is matched again by a later one. */
  lemma UnionIff(start: Slots, sets: seq<SetMatcher>)
    ensures (forall i :: 0 <= i < |start| ==> InUnion(start, sets, i)) <==>
            (forall i: nat, k: nat :: RemovedAt(start, sets, k, i) ==> AddedAgain(start, sets, k, i))
  {
    forall i | 0 <= i < |start|
      ensures InUnion(start, sets, i) <==> forall k: nat :: RemovedAt(start, sets, k, i) ==> AddedAgain(start, sets, k, i)
    {
      UnionAt(start, sets, i);
    }
    if forall i :: 0 <= i < |start| ==> InUnion(start, sets, i) {
      forall i: nat, k: nat | RemovedAt(start, sets, k, i) ensures AddedAgain(start, sets, k, i) {
        assert InUnion(start, sets, i);
      }
    }
  }

  lemma UnionAt(start: Slots, sets: seq<SetMatcher>, i: nat)
    requires i < |start|
    ensures InUnion(start, sets, i) <==> forall k: nat :: RemovedAt(start, sets, k, i) ==> AddedAgain(start, sets, k, i)
  {
    var h := History(start, sets, i);
    EndsUpIff(h);
    forall k: nat ensures (AddedAt(start, sets, k, i) <==> Rises(h, k)) && (RemovedAt(start, sets, k, i) <==> Falls(h, k)) {
    }
    forall k: nat ensures AddedAgain(start, sets, k, i) <==> RisesAgain(h, k) {
      if l: nat :| k < l && Rises(h, l) {
        assert AddedAt(start, sets, l, i);
      }
    }
    if k: nat :| Rises(h, k) {
      assert AddedAt(start, sets, k, i);
    }
    assert RisesOnce(h) <==> exists k: nat :: AddedAt(start, sets, k, i);
  }

  /** Set matcher `k` lets stand what was matched before it. */
  ghost predicate LetsStand(start: Slots, sets: seq<SetMatcher>, k: nat, i: nat)
    requires k < |sets| && i < |start|
  {
    var s := AfterSets(start, sets, k);
    s.matches[i].Some? && Direct(sets[k]) ==> Passes(sets[k].post, Pick(s, sets[k].picks(s.unmatched)), i)
  }

  lemma RemovedIffFails(start: Slots, sets: seq<SetMatcher>, k: nat, i: nat)
    requires k < |sets| && i < |start|
    ensures RemovedAt(start, sets, k, i) <==> !LetsStand(start, sets, k, i)
  {
    var s := AfterSets(start, sets, k);
    StepOfHistory(start, sets, k, i);
    if s.matches[i].Some? {
      AfterSplits(start, sets, k);
      RemovesIff(sets[k], s, start, i);
    }
  }

  /** Nothing is ever un-matched if and only if every element matched earlier passes the post
      filter of each later set matcher that writes to the matches directly. */
  lemma NeverRemovedIff(start: Slots, sets: seq<SetMatcher>)
    ensures (forall i: nat, k: nat :: !RemovedAt(start, sets, k, i)) <==>
            (forall i, k :: 0 <= k < |sets| && 0 <= i < |start| ==> LetsStand(start, sets, k, i))
  {
    forall i, k | 0 <= k < |sets| && 0 <= i < |start|
      ensures RemovedAt(start, sets, k, i) <==> !LetsStand(start, sets, k, i)
    {
      RemovedIffFails(start, sets, k, i);
    }
  }

  // ----- An element that one set matcher matches and a later one un-matches

  const FIRST: Picks := slots => {0}

  const LAST: Picks := slots => if slots == [] then {} else {|slots| - 1}

  /** The selector list ":first.foo, :last", compiled from the last group to the first, on a
      seed of two elements of which only the first has the class. */
  lemma UnmatchedByLater(a: Node, b: Node, foo: ElementMatcher)
    requires a != b && foo(a) && !foo(b)
    ensures var start, sets := [Some(a), Some(b)], [Positional(None, LAST, None, None), Positional(None, FIRST, Some(Plain(foo)), None)];
            && AddedAt(start, sets, 0, 1) && RemovedAt(start, sets, 1, 1)
            && AfterSets(start, sets, 2).matches == [Some(a), None]
  {
    var last, first := Positional(None, LAST, None, None), Positional(None, FIRST, Some(Plain(foo)), None);
    var start, sets := [Some(a), Some(b)], [last, first];
    AfterOne(start, sets, 0);
    AfterOne(start, sets, 1);
    LastPicks(a, b, last);
    FirstPicks(a, b, foo, first);
    assert !History(start, sets, 1)[0] && History(start, sets, 1)[1] && !History(start, sets, 1)[2];
  }

  lemma AfterOne(start: Slots, sets: seq<SetMatcher>, k: nat)
    requires k < |sets|
    ensures AfterSets(start, sets, 0) == Sets(start, Nothing(|start|))
    ensures AfterSets(start, sets, k + 1) == Applied(sets[k], AfterSets(start, sets, k))
  {
  }

  lemma LastPicks(a: Node, b: Node, last: SetMatcher)
    requires last == Positional(None, LAST, None, None)
    ensures Applied(last, Sets([Some(a), Some(b)], Nothing(2))) == Sets([Some(a), None], [None, Some(b)])
  {
    var s := Sets([Some(a), Some(b)], Nothing(2));
    DirectApplied(last, s);
    assert Pick(s, {1}) == Sets([Some(a), None], [None, Some(b)]);
  }

  lemma FirstPicks(a: Node, b: Node, foo: ElementMatcher, first: SetMatcher)
    requires foo(a) && !foo(b) && first == Positional(None, FIRST, Some(Plain(foo)), None)
    ensures Applied(first, Sets([Some(a), None], [None, Some(b)])).matches == [Some(a), None]
  {
    var s := Sets([Some(a), None], [None, Some(b)]);
    var p := Pick(s, {0});
    DirectApplied(first, s);
    assert p.matches == [Some(a), Some(b)];
    PlainPost(foo, p.matches, 0);
    PlainPost(foo, p.matches, 1);
    FilteredMatches(first.post, p, 0);
    FilteredMatches(first.post, p, 1);
  }

  // ----- Merging with the element matches

  /** condense: the elements held, in order. */
  function Condense(slots: Slots): seq<Node> {
    if slots == [] then [] else Condense(slots[..|slots| - 1]) + Held(slots[|slots| - 1])
  }

  predicate ByElement(matchers: seq<ElementMatcher>, x: Node) {
    exists j :: 0 <= j < |matchers| && matchers[j](x)
  }

  /** What is left for the set matchers: the seed without the elements matched so far. */
  function Leftover(matchers: seq<ElementMatcher>, seed: seq<Node>): (r: Slots)
    ensures |r| == |seed|
  {
    seq(|seed|, i requires 0 <= i < |seed| => if ByElement(matchers, seed[i]) then None else Some(seed[i]))
  }

  /** Seed element `i` is matched by an element matcher, or by a set matcher to stay. */
  ghost predicate Matched(matchers: seq<ElementMatcher>, sets: seq<SetMatcher>, seed: seq<Node>, i: nat)
    requires i < |seed|
  {
    (exists matcher :: matcher in matchers && matcher(seed[i])) || Stays(Leftover(matchers, seed), sets, i)
  }

  /** The matched elements among the first `n`, once each and in seed order. */
  ghost function MatchedAmong(matchers: seq<ElementMatcher>, sets: seq<SetMatcher>, seed: seq<Node>, n: nat): seq<Node>
    requires n <= |seed|
    decreases n
  {
    if n == 0 then []
    else MatchedAmong(matchers, sets, seed, n - 1) + if Matched(matchers, sets, seed, n - 1) then [seed[n - 1]] else []
  }

  /** Where neither source left anything, an element match belongs. */
  function Merged(s: Sets, seed: seq<Node>): (r: Slots)
    requires |s.unmatched| == |s.matches| == |seed|
    ensures |r| == |seed|
  {
    seq(|seed|, i requires 0 <= i < |seed| => if s.unmatched[i].None? && s.matches[i].None? then Some(seed[i]) else s.matches[i])
  }

  lemma {:induction false} MergedIsMatched(matchers: seq<ElementMatcher>, sets: seq<SetMatcher>, seed: seq<Node>, n: nat)
    requires n <= |seed|
    ensures Condense(Merged(AfterSets(Leftover(matchers, seed), sets, |sets|), seed)[..n]) == MatchedAmong(matchers, sets, seed, n)
    decreases n
  {
    if n > 0 {
      MergedIsMatched(matchers, sets, seed, n - 1);
      MergedStep(matchers, sets, seed, n);
    }
  }

  lemma MergedStep(matchers: seq<ElementMatcher>, sets: seq<SetMatcher>, seed: seq<Node>, n: nat)
    requires 0 < n <= |seed|
    ensures var m := Merged(AfterSets(Leftover(matchers, seed), sets, |sets|), seed);
            var more := if Matched(matchers, sets, seed, n - 1) then [seed[n - 1]] else [];
            && Condense(m[..n]) == Condense(m[..n - 1]) + more
            && MatchedAmong(matchers, sets, seed, n) == MatchedAmong(matchers, sets, seed, n - 1) + more
  {
    CondenseStep(Merged(AfterSets(Leftover(matchers, seed), sets, |sets|), seed), n);
    SlotIsMatched(matchers, sets, seed, n - 1);
  }

  lemma CondenseStep(m: Slots, n: nat)
    requires 0 < n <= |m|
    ensures Condense(m[..n]) == Condense(m[..n - 1]) + Held(m[n - 1])
  {
    assert m[..n][..n - 1] == m[..n - 1];
  }

  lemma SlotIsMatched(matchers: seq<ElementMatcher>, sets: seq<SetMatcher>, seed: seq<Node>, i: nat)
    requires i < |seed|
    ensures Held(Merged(AfterSets(Leftover(matchers, seed), sets, |sets|), seed)[i]) ==
            if Matched(matchers, sets, seed, i) then [seed[i]] else []
  {
    AfterSplits(Leftover(matchers, seed), sets, |sets|);
    MatchedIffStays(Leftover(matchers, seed), sets, i);
    ByElementIs(matchers, seed[i]);
  }

  lemma ByElementIs(matchers: seq<ElementMatcher>, x: Node)
    ensures ByElement(matchers, x) <==> exists matcher :: matcher in matchers && matcher(x)
  {
    if matcher :| matcher in matchers && matcher(x) {
      var j :| 0 <= j < |matchers| && matchers[j] == matcher;
      assert matchers[j](x);
    }
    if j :| 0 <= j < |matchers| && matchers[j](x) {
      assert matchers[j] in matchers;
    }
  }

  lemma MergedAll(matchers: seq<ElementMatcher>, sets: seq<SetMatcher>, seed: seq<Node>)
    ensures Condense(Merged(AfterSets(Leftover(matchers, seed), sets, |sets|), seed)) == MatchedAmong(matchers, sets, seed, |seed|)
  {
    var m := Merged(AfterSets(Leftover(matchers, seed), sets, |sets|), seed);
    assert m[..|seed|] == m;
    MergedIsMatched(matchers, sets, seed, |seed|);
  }

  /** The element matches among the first `n`: what the element loop pushes to `results`. */
  function Pushed(matchers: seq<ElementMatcher>, seed: seq<Node>, n: nat): seq<Node>
    requires n <= |seed|
    decreases n
  {
    if n == 0 then []
    else Pushed(matchers, seed, n - 1) + if ByElement(matchers, seed[n - 1]) then [seed[n - 1]] else []
  }

  lemma {:induction false} PushedCount(matchers: seq<ElementMatcher>, seed: seq<Node>, n: nat)
    requires n <= |seed|
    ensures |Pushed(matchers, seed, n)| <= n
    ensures |Pushed(matchers, seed, n)| == n ==> forall i :: 0 <= i < n ==> ByElement(matchers, seed[i])
    ensures |Pushed(matchers, seed, n)| == 0 ==> forall i :: 0 <= i < n ==> !ByElement(matchers, seed[i])
    decreases n
  {
    if n > 0 {
      PushedCount(matchers, seed, n - 1);
    }
  }

  /** When the set filters are skipped, the element loop has pushed every match already. */
  lemma {:induction false} PushedIsMatched(matchers: seq<ElementMatcher>, sets: seq<SetMatcher>, seed: seq<Node>, n: nat)
    requires n <= |seed|
    requires sets == [] || forall i :: 0 <= i < |seed| ==> ByElement(matchers, seed[i])
    ensures Pushed(matchers, seed, n) == MatchedAmong(matchers, sets, seed, n)
    decreases n
  {
    if n > 0 {
      PushedIsMatched(matchers, sets, seed, n - 1);
    }
  }

  /** The elements that any matcher of either kind matches are exactly those merged, if and only
      if whatever a set matcher un-matches is matched again by a later one. */
  lemma MatchedIsUnionIff(matchers: seq<ElementMatcher>, sets: seq<SetMatcher>, seed: seq<Node>)
    ensures var start := Leftover(matchers, seed);
            (forall i :: 0 <= i < |seed| ==>
               (Matched(matchers, sets, seed, i) <==> ByElement(matchers, seed[i]) || exists k: nat :: AddedAt(start, sets, k, i)))
            <==> (forall i: nat, k: nat :: RemovedAt(start, sets, k, i) ==> AddedAgain(start, sets, k, i))
  {
    var start := Leftover(matchers, seed);
    UnionIff(start, sets);
    forall i | 0 <= i < |seed|
      ensures (Matched(matchers, sets, seed, i) <==> ByElement(matchers, seed[i]) || exists k: nat :: AddedAt(start, sets, k, i))
              <==> InUnion(start, sets, i)
    {
      MatchedIffStays(start, sets, i);
      NeverWithoutElement(start, sets, i);
    }
  }

  lemma NeverWithoutElement(start: Slots, sets: seq<SetMatcher>, i: nat)
    requires i < |start|
    ensures start[i].None? ==> AfterSets(start, sets, |sets|).matches[i].None? && forall k: nat :: !AddedAt(start, sets, k, i)
  {
    forall j | 0 <= j <= |sets| ensures start[i].None? ==> AfterSets(start, sets, j).matches[i].None? {
      AfterSplits(start, sets, j);
    }
  }

  lemma NothingToMerge(matchers: seq<ElementMatcher>, sets: seq<SetMatcher>, seed: seq<Node>)
    requires forall i :: 0 <= i < |seed| ==> !ByElement(matchers, seed[i])
    ensures var s := AfterSets(Leftover(matchers, seed), sets, |sets|);
            Merged(s, seed) == s.matches
  {
    AfterSplits(Leftover(matchers, seed), sets, |sets|);
  }

  ghost function MatchedPlaces(matchers: seq<ElementMatcher>, sets: seq<SetMatcher>, seed: seq<Node>, n: nat): set<nat>
    requires n <= |seed|
  {
    set i | 0 <= i < n && Matched(matchers, sets, seed, i)
  }

  /** The matched elements are those at exactly the matched places, in seed order. */
  lemma {:induction false} MatchedInOrder(matchers: seq<ElementMatcher>, sets: seq<SetMatcher>, seed: seq<Node>, n: nat)
    requires n <= |seed|
    ensures Chooses(MatchedAmong(matchers, sets, seed, n), seed[..n], MatchedPlaces(matchers, sets, seed, n))
    decreases n
  {
    if n == 0 {
      ChoosesNone(seed[..0]);
      assert MatchedPlaces(matchers, sets, seed, 0) == {};
    } else {
      MatchedInOrder(matchers, sets, seed, n - 1);
      PlacesStep(matchers, sets, seed, n);
      assert seed[..n] == seed[..n - 1] + [seed[n - 1]];
      if Matched(matchers, sets, seed, n - 1) {
        ChoosesMore(MatchedAmong(matchers, sets, seed, n - 1), seed[..n - 1], MatchedPlaces(matchers, sets, seed, n - 1), seed[n - 1]);
      } else {
        ChoosesSkip(MatchedAmong(matchers, sets, seed, n - 1), seed[..n - 1], MatchedPlaces(matchers, sets, seed, n - 1), seed[n - 1]);
      }
    }
  }

  lemma PlacesStep(matchers: seq<ElementMatcher>, sets: seq<SetMatcher>, seed: seq<Node>, n: nat)
    requires 0 < n <= |seed|
    ensures var before, last := MatchedPlaces(matchers, sets, seed, n - 1), Matched(matchers, sets, seed, n - 1);
            && MatchedPlaces(matchers, sets, seed, n) == (if last then before + {n - 1} else before)
            && MatchedAmong(matchers, sets, seed, n) ==
               if last then MatchedAmong(matchers, sets, seed, n - 1) + [seed[n - 1]] else MatchedAmong(matchers, sets, seed, n - 1)
  {
  }

  /** A post finder gets what was found from the last to the first. */
  lemma {:induction false} BackwardsReverses(slots: Slots)
    ensures Reverses(Backwards(slots), Condense(slots))
    decreases |slots|
  {
    if slots != [] {
      var init, last := slots[..|slots| - 1], slots[|slots| - 1];
      BackwardsReverses(init);
      if last.Some? {
        ReversesSnoc(Backwards(init), Condense(init), last.value);
      } else {
        assert Condense(init) + [] == Condense(init) && [] + Backwards(init) == Backwards(init);
      }
    }
  }

  ghost predicate Reverses(a: seq<Node>, b: seq<Node>) {
    |a| == |b| && forall k :: 0 <= k < |a| ==> a[k] == b[|b| - 1 - k]
  }

  lemma ReversesSnoc(a: seq<Node>, b: seq<Node>, x: Node)
    requires Reverses(a, b)
    ensures Reverses([x] + a, b + [x])
  {
  }

  // ----- The closure that setMatcher returns

  /** The loop of a positional filter. */
  method PickIndices(picks: set<nat>, seed: Slots, matches: Slots) returns (seed': Slots, matches': Slots)
    requires |seed| == |matches|
    ensures Sets(seed', matches') == Pick(Sets(seed, matches), picks)
  {
    seed', matches' := seed, matches;
    var j := |seed|;
    while j > 0
      invariant 0 <= j <= |seed| && |seed'| == |matches'| == |seed|
      invariant forall i :: 0 <= i < |seed| ==>
                  && seed'[i] == (if j <= i && i in picks then None else seed[i])
                  && matches'[i] == (if j <= i && i in picks && seed[i].Some? then seed[i] else matches[i])
    {
      j := j - 1;
      if j in picks && seed[j].Some? {
        matches' := matches'[j := seed[j]];
        seed' := seed'[j := None];
      }
    }
  }

  lemma WhereStep(slots: Slots, filter: ElementMatcher, i: nat)
    requires i < |slots|
    ensures var w := Where(slots, filter, i);
            if slots[i].Some? && filter(slots[i].value) then
              Where(slots, filter, i + 1) == w + [i] && Gather(slots, w + [i]) == Gather(slots, w) + [slots[i]]
            else Where(slots, filter, i + 1) == w
  {
  }

  ghost predicate PartlyCondensed(slots: Slots, filter: ElementMatcher, i: nat, elems: Slots, indices: seq<nat>) {
    i <= |slots| && indices == Where(slots, filter, i) && elems == Gather(slots, indices)
  }

  lemma CondenseOn(slots: Slots, filter: ElementMatcher, i: nat, elems: Slots, indices: seq<nat>)
    requires i < |slots| && PartlyCondensed(slots, filter, i, elems, indices)
    ensures if slots[i].Some? && filter(slots[i].value) then PartlyCondensed(slots, filter, i + 1, elems + [slots[i]], indices + [i])
            else PartlyCondensed(slots, filter, i + 1, elems, indices)
  {
    WhereStep(slots, filter, i);
  }

  /** condense, with a filter and a map. */
  method CondenseMap(slots: Slots, filter: ElementMatcher) returns (elems: Slots, indices: seq<nat>)
    ensures indices == Where(slots, filter, |slots|) && elems == Gather(slots, indices)
  {
    elems, indices := [], [];
    var i := 0;
    while i < |slots|
      invariant 0 <= i <= |slots| && PartlyCondensed(slots, filter, i, elems, indices)
    {
      CondenseOn(slots, filter, i, elems, indices);
      if slots[i].Some? && filter(slots[i].value) {
        elems, indices := elems + [slots[i]], indices + [i];
      }
      i := i + 1;
    }
  }

  /** "Move matched elements from seed to results to keep them synchronized" */
  method MoveMatched(seed: Slots, results: Slots, indices: seq<nat>, found: Slots) returns (seed': Slots, results': Slots)
    requires |seed| == |results| && |indices| == |found|
    requires forall k :: 0 <= k < |found| && found[k].Some? ==> indices[k] < |seed| && seed[indices[k]] == found[k]
    requires forall k, l :: 0 <= k < l < |indices| ==> indices[k] < indices[l]
    ensures Sets(seed', results') == Pick(Sets(seed, results), Selected(indices, found))
  {
    seed', results' := seed, results;
    var i := |found|;
    assert indices[i..] == [] && found[i..] == [];
    while i > 0
      invariant 0 <= i <= |found|
      invariant Sets(seed', results') == Pick(Sets(seed, results), Selected(indices[i..], found[i..]))
    {
      i := i - 1;
      SelectedStep(indices, found, i);
      if found[i].Some? {
        results' := results'[indices[i] := found[i]];
        seed' := seed'[indices[i] := None];
      }
    }
    assert indices[0..] == indices && found[0..] == found;
  }

  lemma SelectedStep(indices: seq<nat>, slots: Slots, i: nat)
    requires |indices| == |slots| && i < |slots|
    ensures Selected(indices[i..], slots[i..]) ==
            Selected(indices[i + 1..], slots[i + 1..]) + if slots[i].Some? then {indices[i]} else {}
  {
    var all, rest := Selected(indices[i..], slots[i..]), Selected(indices[i + 1..], slots[i + 1..]);
    forall x ensures x in all <==> x in rest || (slots[i].Some? && x == indices[i]) {
      if x in all {
        var k :| 0 <= k < |slots[i..]| && slots[i..][k].Some? && indices[i..][k] == x;
        if k > 0 {
          assert slots[i + 1..][k - 1].Some? && indices[i + 1..][k - 1] == x;
        }
      }
      if x in rest {
        var k :| 0 <= k < |slots[i + 1..]| && slots[i + 1..][k].Some? && indices[i + 1..][k] == x;
        assert slots[i..][k + 1].Some? && indices[i..][k + 1] == x;
      }
      if slots[i].Some? {
        assert slots[i..][0].Some? && indices[i..][0] == indices[i];
      }
    }
  }

  /** "Un-match failing elements by moving them back to matcherIn" */
  method MoveBack(matcherIn: Slots, matcherOut: Slots, indices: seq<nat>, failing: Slots) returns (in': Slots, out': Slots)
    requires |matcherIn| == |matcherOut| && |indices| == |failing|
    requires forall k :: 0 <= k < |failing| && failing[k].Some? ==> indices[k] < |matcherOut| && matcherOut[indices[k]] == failing[k]
    requires forall k, l :: 0 <= k < l < |indices| ==> indices[k] < indices[l]
    ensures Sets(in', out') == Unmatch(Sets(matcherIn, matcherOut), Selected(indices, failing))
  {
    out', in' := MoveMatched(matcherOut, matcherIn, indices, failing);
  }

  /** "Apply postFilter" */
  method ApplyPostFilter(post: SetMatcher, matcherIn: Slots, matcherOut: Slots) returns (in': Slots, out': Slots)
    requires |matcherIn| == |matcherOut|
    ensures Sets(in', out') == Filtered(Some(post), Sets(matcherIn, matcherOut))
    decreases post, 3
  {
    var temp, postMap := CondenseMap(matcherOut, ANYTHING);
    var left, _ := ApplySetMatcher(post, temp, Nothing(|temp|));
    AppliedSplits(temp, post, Sets(temp, Nothing(|temp|)));
    in', out' := MoveBack(matcherIn, matcherOut, postMap, left);
  }

  lemma BackwardsStep(slots: Slots, i: nat, contexts: seq<Node>)
    requires 0 < i <= |slots|
    ensures contexts + Backwards(slots[..i]) == contexts + Held(slots[i - 1]) + Backwards(slots[..i - 1])
    ensures slots[i - 1].None? ==> contexts + Held(slots[i - 1]) == contexts
  {
    assert slots[..i][..i - 1] == slots[..i - 1];
  }

  /** "Restore matcherIn since elem is not yet a final match" */
  method Collect(matcherIn: Slots, matcherOut: Slots) returns (contexts: seq<Node>, in': Slots)
    requires |matcherIn| == |matcherOut|
    ensures contexts == Backwards(matcherOut)
    ensures |in'| == |matcherIn| && forall k :: 0 <= k < |in'| ==> in'[k] == if matcherOut[k].Some? then matcherOut[k] else matcherIn[k]
  {
    contexts, in' := [], matcherIn;
    var i := |matcherOut|;
    assert matcherOut[..i] == matcherOut;
    while i > 0
      invariant 0 <= i <= |matcherOut| == |in'|
      invariant contexts + Backwards(matcherOut[..i]) == Backwards(matcherOut)
      invariant forall k :: 0 <= k < |in'| ==> in'[k] == if k >= i && matcherOut[k].Some? then matcherOut[k] else matcherIn[k]
    {
      BackwardsStep(matcherOut, i, contexts);
      i := i - 1;
      if matcherOut[i].Some? {
        in' := in'[i := matcherOut[i]];
        contexts := contexts + [matcherOut[i].value];
      }
    }
  }

  /** The same loop for what the post finder found. */
  method ClaimFound(seed: Slots, results: Slots, found: seq<Node>) returns (seed': Slots, results': Slots)
    requires |seed| == |results|
    ensures Sets(seed', results') == Claim(Sets(seed, results), found)
  {
    seed', results' := seed, results;
    var i := |found|;
    assert found[..i] == found;
    while i > 0
      invariant 0 <= i <= |found| && |seed'| == |results'|
      invariant Claim(Sets(seed', results'), found[..i]) == Claim(Sets(seed, results), found)
    {
      assert found[..i][..i - 1] == found[..i - 1];
      i := i - 1;
      var temp := IndexOf(seed', found[i]);
      if temp.Some? {
        seed', results' := PickIndices({temp.value}, seed', results');
      }
    }
  }

  /** The closure itself, called with a seed. */
  method ApplySetMatcher(m: SetMatcher, seed: Slots, results: Slots) returns (seed': Slots, results': Slots)
    requires |seed| == |results|
    ensures Sets(seed', results') == Applied(m, Sets(seed, results))
    decreases m, 2
  {
    match m {
      case Plain(filter) =>
        var matcherIn, preMap := CondenseMap(seed, filter);
        PassingIsSelected(seed, filter);
        seed', results' := MoveMatched(seed, results, preMap, matcherIn);
      case Positional(pre, picks, post, finder) =>
        if pre.None? && finder.None? {
          seed', results' := PickIndices(picks(seed), seed, results);
          if post.Some? {
            seed', results' := ApplyPostFilter(post.value, seed', results');
          }
        } else {
          seed', results' := ApplyIndirect(m, seed, results);
        }
    }
  }

  lemma PassingIsSelected(slots: Slots, filter: ElementMatcher)
    ensures Selected(Where(slots, filter, |slots|), Gather(slots, Where(slots, filter, |slots|))) == Passing(slots, filter)
  {
    var w := Where(slots, filter, |slots|);
    var g := Gather(slots, w);
    forall i ensures i in Selected(w, g) <==> i in Passing(slots, filter) {
      if i in Passing(slots, filter) {
        var k :| 0 <= k < |w| && w[k] == i;
        assert g[k].Some?;
      }
    }
  }

  /** With a pre filter or a post finder, "intermediate processing is necessary". */
  method ApplyIndirect(m: SetMatcher, seed: Slots, results: Slots) returns (seed': Slots, results': Slots)
    requires |seed| == |results| && m.Positional? && !Direct(m)
    ensures Sets(seed', results') == Applied(m, Sets(seed, results))
    decreases m, 1
  {
    if m.pre.Some? {
      var input, preMap := CondenseMap(seed, m.pre.value);
      var matcherIn, matcherOut := Intermediate(m, input);
      if m.finder.Some? {
        var contexts;
        contexts, matcherIn := Collect(matcherIn, matcherOut);
        seed', results' := ClaimFound(seed, results, m.finder.value(contexts));
      } else {
        seed', results' := MoveMatched(seed, results, preMap, matcherOut);
      }
    } else {
      // the positional filter works on the seed itself, which is then restored
      var matcherIn, matcherOut := Intermediate(m, seed);
      var contexts;
      contexts, matcherIn := Collect(matcherIn, matcherOut);
      assert matcherIn == seed;
      seed', results' := ClaimFound(matcherIn, results, m.finder.value(contexts));
    }
  }

  method Intermediate(m: SetMatcher, input: Slots) returns (matcherIn: Slots, matcherOut: Slots)
    requires m.Positional?
    ensures Sets(matcherIn, matcherOut) == Filtered(m.post, Pick(Sets(input, Nothing(|input|)), m.picks(input)))
    ensures Split(input, Sets(matcherIn, matcherOut))
    decreases m, 0
  {
    ghost var picked := Pick(Sets(input, Nothing(|input|)), m.picks(input));
    PickSplits(input, Sets(input, Nothing(|input|)), m.picks(input));
    FilteredSplits(input, m.post, picked);
    matcherIn, matcherOut := PickIndices(m.picks(input), input, Nothing(|input|));
    if m.post.Some? {
      matcherIn, matcherOut := ApplyPostFilter(m.post.value, matcherIn, matcherOut);
    }
  }

  /** A slot that is empty in both arrays belongs to the element match pushed last so far. */
  lemma SlotOfPushed(matchers: seq<ElementMatcher>, sets: seq<SetMatcher>, seed: seq<Node>, i: nat, front: seq<Node>)
    requires i < |seed|
    ensures var s, before := AfterSets(Leftover(matchers, seed), sets, |sets|), front + Pushed(matchers, seed, i);
            front + Pushed(matchers, seed, i + 1) ==
            if s.unmatched[i].None? && s.matches[i].None? then before + [seed[i]] else before
  {
    AfterSplits(Leftover(matchers, seed), sets, |sets|);
    Assoc(front, Pushed(matchers, seed, i), [seed[i]]);
  }

  lemma NonePushed(matchers: seq<ElementMatcher>, sets: seq<SetMatcher>, seed: seq<Node>)
    requires |Pushed(matchers, seed, |seed|)| == 0
    ensures var s := AfterSets(Leftover(matchers, seed), sets, |sets|); Merged(s, seed) == s.matches
  {
    PushedCount(matchers, seed, |seed|);
    NothingToMerge(matchers, sets, seed);
  }

  class SuperMatcher {
    var results: seq<Node>

    constructor (results: seq<Node>)
      ensures this.results == results
    {
      this.results := results;
    }

    /** The element loop, with the bookkeeping for set matchers. */
    method MatchElements(matchers: seq<ElementMatcher>, seed: seq<Node>) returns (unmatched: Slots, matchedCount: int)
      modifies this
      ensures unmatched == Leftover(matchers, seed)
      ensures results == old(results) + Pushed(matchers, seed, |seed|)
      ensures matchedCount == |Pushed(matchers, seed, |seed|)|
    {
      unmatched, matchedCount := [], 0;
      var i := 0;
      while i < |seed|
        invariant 0 <= i <= |seed| == |Leftover(matchers, seed)| && unmatched == Leftover(matchers, seed)[..i]
        invariant results == old(results) + Pushed(matchers, seed, i)
        invariant matchedCount + i == |Pushed(matchers, seed, i)|
      {
        var elem := seed[i];
        var j, found := 0, false;
        while j < |matchers| && !found
          invariant 0 <= j <= |matchers|
          invariant found <==> exists k :: 0 <= k < j && matchers[k](elem)
        {
          found := matchers[j](elem);
          j := j + 1;
        }
        if found {
          results := results + [elem];
        } else {
          matchedCount := matchedCount - 1;
        }
        unmatched := unmatched + [if found then None else Some(elem)];
        i := i + 1;
      }
      matchedCount := matchedCount + i;
    }

    /** `while ( i-- )`: element matches, popped from the back, fill the slots that neither
        source left anything in. */
    method Reintegrate(matchers: seq<ElementMatcher>, sets: seq<SetMatcher>, seed: seq<Node>, unmatched: Slots, setMatched: Slots)
      returns (merged: Slots)
      requires Sets(unmatched, setMatched) == AfterSets(Leftover(matchers, seed), sets, |sets|)
      requires |Pushed(matchers, seed, |seed|)| <= |results|
      requires Pushed(matchers, seed, |seed|) == results[|results| - |Pushed(matchers, seed, |seed|)|..]
      modifies this
      ensures merged == Merged(Sets(unmatched, setMatched), seed)
      ensures results == old(results)[..|old(results)| - |Pushed(matchers, seed, |seed|)|]
    {
      merged := setMatched;
      ghost var front := results[..|results| - |Pushed(matchers, seed, |seed|)|];
      ghost var target := Merged(Sets(unmatched, setMatched), seed);
      AfterSplits(Leftover(matchers, seed), sets, |sets|);
      var i := |seed|;
      while i > 0
        invariant 0 <= i <= |seed| == |merged|
        invariant forall k :: 0 <= k < |seed| ==> merged[k] == if k < i then setMatched[k] else target[k]
        invariant results == front + Pushed(matchers, seed, i)
      {
        i := i - 1;
        SlotOfPushed(matchers, sets, seed, i, front);
        if unmatched[i].None? && merged[i].None? {
          merged := merged[i := Some(results[|results| - 1])];
          results := results[..|results| - 1];
        }
      }
    }

    /** `while ( (matcher = setMatchers[j++]) )` */
    method ApplyAll(sets: seq<SetMatcher>, start: Slots) returns (unmatched: Slots, setMatched: Slots)
      ensures Sets(unmatched, setMatched) == AfterSets(start, sets, |sets|)
    {
      unmatched, setMatched := start, Nothing(|start|);
      var j := 0;
      while j < |sets|
        invariant 0 <= j <= |sets| && Sets(unmatched, setMatched) == AfterSets(start, sets, j)
      {
        unmatched, setMatched := ApplySetMatcher(sets[j], unmatched, setMatched);
        j := j + 1;
      }
    }

    /** The whole of superMatcher for a seed without gaps. */
    method Run(matchers: seq<ElementMatcher>, sets: seq<SetMatcher>, seed: seq<Node>)
      modifies this
      ensures old(results) <= results
      ensures Chooses(results[|old(results)|..], seed, MatchedPlaces(matchers, sets, seed, |seed|))
    {
      RunAll(matchers, sets, seed);
      MatchedInOrder(matchers, sets, seed, |seed|);
      assert seed[..|seed|] == seed && results[|old(results)|..] == MatchedAmong(matchers, sets, seed, |seed|);
    }

    method RunAll(matchers: seq<ElementMatcher>, sets: seq<SetMatcher>, seed: seq<Node>)
      modifies this
      ensures results == old(results) + MatchedAmong(matchers, sets, seed, |seed|)
    {
      var unmatched, matchedCount := MatchElements(matchers, seed);
      PushedCount(matchers, seed, |seed|);
      if sets != [] && |seed| != matchedCount {
        RunSets(matchers, sets, seed, unmatched, matchedCount);
      } else {
        PushedIsMatched(matchers, sets, seed, |seed|);
      }
    }

    /** "Apply set filters to unmatched elements" */
    method RunSets(matchers: seq<ElementMatcher>, sets: seq<SetMatcher>, seed: seq<Node>, leftover: Slots, matchedCount: int)
      requires leftover == Leftover(matchers, seed) && matchedCount == |Pushed(matchers, seed, |seed|)|
      requires matchedCount <= |results| && Pushed(matchers, seed, |seed|) == results[|results| - matchedCount..]
      modifies this
      ensures results == old(results)[..|old(results)| - matchedCount] + MatchedAmong(matchers, sets, seed, |seed|)
    {
      var unmatched, setMatched := ApplyAll(sets, leftover);
      setMatched := Integrate(matchers, sets, seed, unmatched, setMatched, matchedCount);
      MergedAll(matchers, sets, seed);
      results := results + Condense(setMatched);
    }

    /** "Reintegrate element matches to eliminate the need for sorting", if there are any. */
    method Integrate(matchers: seq<ElementMatcher>, sets: seq<SetMatcher>, seed: seq<Node>, unmatched: Slots, setMatched: Slots, matchedCount: int)
      returns (merged: Slots)
      requires Sets(unmatched, setMatched) == AfterSets(Leftover(matchers, seed), sets, |sets|)
      requires matchedCount == |Pushed(matchers, seed, |seed|)| <= |results|
      requires Pushed(matchers, seed, |seed|) == results[|results| - matchedCount..]
      modifies this
      ensures merged == Merged(Sets(unmatched, setMatched), seed)
      ensures results == old(results)[..|old(results)| - matchedCount]
    {
      if matchedCount > 0 {
        merged := Reintegrate(matchers, sets, seed, unmatched, setMatched);
      } else {
        NonePushed(matchers, sets, seed);
        merged := setMatched;
      }
    }
  }
}
