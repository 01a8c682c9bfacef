/** The comparator Sizzle falls back on where compareDocumentPosition is missing, proved to
    be preorder. */
module DocumentOrder {
  import opened Collections
  import opened Dom

  // ----- Preorder, by traversal

  /** The nodes of `t`, placed at `at`, in document order. */
  function Preorder(t: Tree, at: Node): seq<Node>
    decreases t, |t.kids| + 1
  {
    [at] + Forest(t, at, 0)
  }

  function Forest(t: Tree, at: Node, from: nat): seq<Node>
    requires from <= |t.kids|
    decreases t, |t.kids| - from
  {
    if from == |t.kids| then [] else Preorder(t.kids[from], at + [from]) + Forest(t, at, from + 1)
  }

  /** `a` comes before `b` in the traversal of the whole tree. */
  ghost predicate Precedes(t: Tree, a: Node, b: Node) {
    exists i, j :: 0 <= i < j < |Preorder(t, [])| && Preorder(t, [])[i] == a && Preorder(t, [])[j] == b
  }

  // ----- Preorder is the lexicographic order of paths

  predicate Lex(a: Node, b: Node)
    decreases a
  {
    b != [] && (a == [] || a[0] < b[0] || (a[0] == b[0] && Lex(a[1..], b[1..])))
  }

  lemma {:induction false} LexTotal(a: Node, b: Node)
    ensures Lex(a, b) ==> !Lex(b, a) && a != b
    ensures Lex(a, b) || Lex(b, a) || a == b
    decreases a
  {
    if a != [] && b != [] && a[0] == b[0] {
      LexTotal(a[1..], b[1..]);
      assert a == [a[0]] + a[1..] && b == [b[0]] + b[1..];
    }
  }

  lemma {:induction false} LexTransitive(a: Node, b: Node, c: Node)
    requires Lex(a, b) && Lex(b, c)
    ensures Lex(a, c)
    decreases a
  {
    if a != [] && a[0] == b[0] == c[0] {
      LexTransitive(a[1..], b[1..], c[1..]);
    }
  }

  /** Two paths with a common beginning compare as what follows it. */
  lemma {:induction false} LexDrop(p: Node, a: Node, b: Node)
    ensures Lex(p + a, p + b) <==> Lex(a, b)
    decreases p
  {
    if p == [] {
      assert p + a == a && p + b == b;
    } else {
      assert (p + a)[1..] == p[1..] + a && (p + b)[1..] == p[1..] + b;
      LexDrop(p[1..], a, b);
    }
  }

  ghost predicate Below(at: Node, from: nat, p: Node) {
    |at| < |p| && p[..|at|] == at && from <= p[|at|]
  }

  lemma BelowIsLater(at: Node, from: nat, p: Node, q: Node)
    requires Below(at, from, q)
    requires p == at || (|at| < |p| && p[..|at|] == at && p[|at|] < from)
    ensures Lex(p, q)
  {
    assert q == at + q[|at|..];
    assert p == at + p[|at|..];
    LexDrop(at, p[|at|..], q[|at|..]);
  }

  ghost predicate Increasing(s: seq<Node>) {
    forall i, j :: 0 <= i < j < |s| ==> Lex(s[i], s[j])
  }

  ghost predicate StartsWith(p: Node, at: Node) {
    |at| <= |p| && p[..|at|] == at
  }

  lemma {:induction false} PreorderIncreases(t: Tree, at: Node)
    ensures Increasing(Preorder(t, at))
    ensures forall p :: p in Preorder(t, at) ==> StartsWith(p, at)
    decreases t, |t.kids| + 1
  {
    ForestIncreases(t, at, 0);
    var s := Preorder(t, at);
    forall i, j | 0 <= i < j < |s| ensures Lex(s[i], s[j]) {
      if i == 0 {
        assert s[j] in Forest(t, at, 0);
        BelowIsLater(at, 0, at, s[j]);
      }
    }
  }

  lemma {:induction false} ForestIncreases(t: Tree, at: Node, from: nat)
    requires from <= |t.kids|
    ensures Increasing(Forest(t, at, from))
    ensures forall p :: p in Forest(t, at, from) ==> Below(at, from, p)
    decreases t, |t.kids| - from
  {
    if from < |t.kids| {
      var front, rest := Preorder(t.kids[from], at + [from]), Forest(t, at, from + 1);
      PreorderIncreases(t.kids[from], at + [from]);
      ForestIncreases(t, at, from + 1);
      forall p | p in front ensures |at| < |p| && p[..|at|] == at && p[|at|] == from {
        assert StartsWith(p, at + [from]);
        assert p[..|at|] == p[..|at| + 1][..|at|];
        assert p[|at|] == p[..|at| + 1][|at|];
      }
      var s := front + rest;
      forall i, j | 0 <= i < j < |s| ensures Lex(s[i], s[j]) {
        if i < |front| <= j {
          assert s[i] in front && s[j] in rest;
          BelowIsLater(at, from + 1, s[i], s[j]);
        }
      }
    }
  }

  lemma {:induction false} PreorderVisits(t: Tree, at: Node, p: Node)
    requires InTree(t, p)
    ensures at + p in Preorder(t, at)
    decreases t, |t.kids| + 1
  {
    if p == [] {
      assert at + p == at;
    } else {
      PreorderVisits(t.kids[p[0]], at + [p[0]], p[1..]);
      assert at + [p[0]] + p[1..] == at + p;
      ForestVisits(t, at, 0, p[0], at + p);
    }
  }

  lemma {:induction false} ForestVisits(t: Tree, at: Node, from: nat, k: nat, p: Node)
    requires from <= k < |t.kids| && p in Preorder(t.kids[k], at + [k])
    ensures p in Forest(t, at, from)
    decreases k - from
  {
    if from < k {
      ForestVisits(t, at, from + 1, k, p);
    }
  }

  /** The traversal order of two nodes of the tree is the order of their paths. */
  lemma PrecedesIsLex(t: Tree, a: Node, b: Node)
    requires InTree(t, a) && InTree(t, b)
    ensures Precedes(t, a, b) <==> Lex(a, b)
  {
    var s := Preorder(t, []);
    PreorderIncreases(t, []);
    if Lex(a, b) {
      PreorderVisits(t, [], a);
      PreorderVisits(t, [], b);
      assert [] + a == a && [] + b == b;
      var i :| 0 <= i < |s| && s[i] == a;
      var j :| 0 <= j < |s| && s[j] == b;
      LexTotal(a, b);
      assert i < j;
    }
  }

  // ----- The comparator

  function NextSibling(t: Tree, p: Node): Option<Node>
    requires InTree(t, p)
  {
    if p == [] then None
    else
      ParentInTree(t, p);
      if ChildIndex(p) + 1 < |At(t, Parent(p)).kids| then Some(Parent(p) + [ChildIndex(p) + 1]) else None
  }

  /** sourceIndex, where the platform has it, follows document order. */
  ghost predicate FollowsOrder(sourceIndex: map<Node, int>) {
    forall x, y :: x in sourceIndex && y in sourceIndex && Lex(x, y) ==> sourceIndex[x] < sourceIndex[y]
  }

  lemma SiblingsLex(a: Node, b: Node)
    requires a != [] && b != [] && Parent(a) == Parent(b)
    ensures Lex(a, b) <==> ChildIndex(a) < ChildIndex(b)
  {
    var p := Parent(a);
    assert a == p + [ChildIndex(a)] && b == p + [ChildIndex(b)];
    LexDrop(p, [ChildIndex(a)], [ChildIndex(b)]);
  }

  /** siblingCheck: two siblings, or one node missing where its path has ended. */
  method SiblingCheck(t: Tree, sourceIndex: map<Node, int>, a: Option<Node>, b: Option<Node>) returns (c: int)
    requires FollowsOrder(sourceIndex)
    requires a.Some? || b.Some?
    requires a.Some? && b.Some? ==>
               && a != b && InTree(t, a.value) && InTree(t, b.value)
               && a.value != [] && b.value != [] && Parent(a.value) == Parent(b.value)
    ensures c != 0
    ensures c < 0 <==> a.None? || (b.Some? && Lex(a.value, b.value))
  {
    if a.Some? && b.Some? {
      var x, y := a.value, b.value;
      SiblingsLex(x, y);
      LexTotal(x, y);
      if IsElement(t, x) && IsElement(t, y) && x in sourceIndex && y in sourceIndex {
        var diff := sourceIndex[x] - sourceIndex[y];
        if diff != 0 {
          return diff;
        }
      }
      ParentInTree(t, x);
      ParentInTree(t, y);
      assert y == Parent(x) + [ChildIndex(y)];
      KidInTree(t, Parent(x), ChildIndex(x) + 1);
      var cur := NextSibling(t, x);
      while cur.Some?
        invariant cur.Some? ==>
                    InTree(t, cur.value) && cur.value != [] && Parent(cur.value) == Parent(x) &&
                    ChildIndex(cur.value) > ChildIndex(x)
        invariant ChildIndex(x) < ChildIndex(y) ==> cur.Some? && ChildIndex(cur.value) <= ChildIndex(y)
        decreases if cur.None? then 0 else |At(t, Parent(x)).kids| - ChildIndex(cur.value)
      {
        if cur == b {
          return -1;
        }
        assert cur.value == Parent(x) + [ChildIndex(cur.value)];
        ParentInTree(t, cur.value);
        KidInTree(t, Parent(x), ChildIndex(cur.value) + 1);
        cur := NextSibling(t, cur.value);
      }
    }
    return if a.Some? then 1 else -1;
  }

  function Item(s: seq<Node>, i: nat): Option<Node> {
    if i < |s| then Some(s[i]) else None
  }

  /** The ancestors of `a` from the root down to `a` itself. */
  method Ancestry(a: Node) returns (path: seq<Node>)
    ensures |path| == |a| + 1 && forall k :: 0 <= k <= |a| ==> path[k] == a[..k]
  {
    path := [a];
    var cur := a;
    while cur != []
      invariant |cur| <= |a| && cur == a[..|cur|] && |path| == |a| + 1 - |cur|
      invariant forall k :: 0 <= k < |path| ==> path[k] == a[..|cur| + k]
      decreases |cur|
    {
      cur := Parent(cur);
      path := [cur] + path;
    }
  }

  lemma DivergeAt(t: Tree, a: Node, b: Node, i: nat)
    requires InTree(t, a) && InTree(t, b) && a != b && 0 < i && i <= |a| + 1 && i <= |b| + 1
    requires forall k :: 0 <= k < i ==> a[..k] == b[..k]
    requires i <= |a| && i <= |b| ==> a[..i] != b[..i]
    ensures i <= |a| || i <= |b|
    ensures i > |a| ==> Lex(a, b)
    ensures i > |b| ==> Lex(b, a)
    ensures i <= |a| && i <= |b| ==>
              && InTree(t, a[..i]) && InTree(t, b[..i]) && Parent(a[..i]) == Parent(b[..i])
              && (Lex(a, b) <==> Lex(a[..i], b[..i]))
  {
    var p := a[..i - 1];
    assert p == b[..i - 1];
    assert a == p + a[i - 1..] && b == p + b[i - 1..];
    LexDrop(p, a[i - 1..], b[i - 1..]);
    LexDrop(p, b[i - 1..], a[i - 1..]);
    if i <= |a| && i <= |b| {
      PrefixInTree(t, a, i);
      PrefixInTree(t, b, i);
      assert Parent(a[..i]) == p && Parent(b[..i]) == p;
      SiblingsLex(a[..i], b[..i]);
      assert a[..i] == p + [a[i - 1]] && b[..i] == p + [b[i - 1]];
    }
  }

  /** sortOrder on nodes of one tree whose root is the document.  `flagged` reports that two
      identical nodes were compared. */
  method SortOrder(t: Tree, sourceIndex: map<Node, int>, a: Node, b: Node) returns (c: int, flagged: bool)
    requires InTree(t, a) && InTree(t, b) && FollowsOrder(sourceIndex)
    ensures flagged <==> a == b
    ensures c < 0 <==> Precedes(t, a, b)
    ensures c > 0 <==> Precedes(t, b, a)
    ensures c == 0 <==> a == b
  {
    PrecedesIsLex(t, a, b);
    PrecedesIsLex(t, b, a);
    LexTotal(a, b);
    LexTotal(b, a);
    flagged := a == b;
    if a == b {
      return 0, true;
    }
    if a == [] || b == [] {
      return if a == [] then -1 else 1, false;
    }
    if Parent(a) == Parent(b) {
      c := SiblingCheck(t, sourceIndex, Some(a), Some(b));
      return;
    }
    var ap := Ancestry(a);
    var bp := Ancestry(b);
    var i := 0;
    while Item(ap, i) == Item(bp, i)
      invariant 0 <= i <= |a| + 1 && i <= |b| + 1
      invariant forall k :: 0 <= k < i ==> a[..k] == b[..k]
      decreases |a| + 1 - i
    {
      assert i <= |a| && i <= |b| by {
        assert a == a[..|a|] && b == b[..|b|];
      }
      i := i + 1;
    }
    assert a[..0] == b[..0];
    assert i > 0;
    DivergeAt(t, a, b, i);
    c := SiblingCheck(t, sourceIndex, Item(ap, i), Item(bp, i));
  }

  /** The order the comparator decides is a strict total order on the nodes of the tree. */
  lemma StrictTotalOrder(t: Tree, a: Node, b: Node, c: Node)
    requires InTree(t, a) && InTree(t, b) && InTree(t, c)
    ensures !Precedes(t, a, a)
    ensures a != b ==> Precedes(t, a, b) != Precedes(t, b, a)
    ensures Precedes(t, a, b) && Precedes(t, b, c) ==> Precedes(t, a, c)
  {
    PrecedesIsLex(t, a, a);
    PrecedesIsLex(t, a, b);
    PrecedesIsLex(t, b, a);
    PrecedesIsLex(t, b, c);
    PrecedesIsLex(t, a, c);
    LexTotal(a, a);
    LexTotal(a, b);
    if Lex(a, b) && Lex(b, c) {
      LexTransitive(a, b, c);
    }
  }
}
