/** `:nth-child(an+b)` outside XML: the element index is sought from an index remembered on the
    parent during the same run, wrapping to the first child at most once. */
module NthChild {
  import opened Collections
  import opened Dom

  /** How many of the first `n` children are elements. */
  function ElementsAmong(kids: seq<Tree>, n: nat): nat
    requires n <= |kids|
  {
    if n == 0 then 0 else ElementsAmong(kids, n - 1) + if kids[n - 1].kind.Element? then 1 else 0
  }

  /** The 1-based index of `e` among the element children of its parent. */
  function ElementIndex(t: Tree, e: Node): nat
    requires InTree(t, e) && e != []
  {
    ParentInTree(t, e);
    ElementsAmong(At(t, Parent(e)).kids, ChildIndex(e) + 1)
  }

  function ElementsUpTo(kids: seq<Tree>, k: nat): set<nat>
    requires k < |kids|
  {
    set i | 0 <= i <= k && kids[i].kind == Element
  }

  lemma {:induction false} AmongCounts(kids: seq<Tree>, k: nat)
    requires k < |kids|
    ensures ElementsAmong(kids, k + 1) == |ElementsUpTo(kids, k)|
    decreases k
  {
    if k == 0 {
      assert ElementsUpTo(kids, 0) == if kids[0].kind.Element? then {0} else {};
    } else {
      AmongCounts(kids, k - 1);
      assert ElementsUpTo(kids, k) == ElementsUpTo(kids, k - 1) + if kids[k].kind.Element? then {k} else {};
    }
  }

  /** The index counts the element children of the parent up to the element itself. */
  lemma IndexCounts(t: Tree, e: Node)
    requires InTree(t, e) && e != []
    ensures InTree(t, Parent(e)) && ChildIndex(e) < |At(t, Parent(e)).kids|
    ensures ElementIndex(t, e) == |ElementsUpTo(At(t, Parent(e)).kids, ChildIndex(e))|
  {
    ParentInTree(t, e);
    AmongCounts(At(t, Parent(e)).kids, ChildIndex(e));
  }

  /** Section 6.6.5.2 of Selectors Level 3: `index == a * n + b` for some n >= 0. */
  ghost predicate Represents(a: int, b: int, index: int) {
    exists n: nat :: index == a * n + b
  }

  // ----- JavaScript's % and / on integers

  function Abs(x: int): nat {
    if x < 0 then -x else x
  }

  /** `x % y`, whose sign is that of `x`. */
  function Remainder(x: int, y: int): int
    requires y != 0
  {
    if x < 0 then -(Abs(x) % Abs(y)) else x % Abs(y)
  }

  /** `diff === first || ( diff % first === 0 && diff / first >= 0 )`; modulo 0 gives NaN. */
  predicate InCycle(diff: int, first: int) {
    diff == first || (first != 0 && Remainder(diff, first) == 0 && (diff == 0 || (diff < 0 <==> first < 0)))
  }

  lemma MultipleOf(x: nat, y: nat)
    requires y > 0 && x % y == 0
    ensures x == y * (x / y)
  {
  }

  lemma ScaleBound(y: nat, d: int)
    ensures d >= 1 ==> y * d >= y
    ensures d <= -1 ==> y * d + y <= 0
  {
  }

  lemma NoRemainder(n: nat, y: nat)
    requires y > 0
    ensures (y * n) % y == 0
  {
    var x := y * n;
    var d := n - x / y;
    assert x % y == y * d;
    ScaleBound(y, d);
  }

  /** The test on the offset index decides membership in the cycle. */
  lemma InCycleIsRepresents(index: int, a: int, b: int)
    ensures InCycle(index - b, a) <==> Represents(a, b, index)
  {
    var diff := index - b;
    if diff == a {
      assert index == a * 1 + b;
    } else if a != 0 && InCycle(diff, a) {
      var q: nat := Abs(diff) / Abs(a);
      MultipleOf(Abs(diff), Abs(a));
      if diff == 0 {
        assert index == a * 0 + b;
      } else {
        assert index == a * q + b;
      }
    }
    if n: nat :| index == a * n + b && a != 0 {
      MultipleInCycle(a, n);
      assert diff == a * n;
    }
  }

  lemma MultipleInCycle(a: int, n: nat)
    requires a != 0
    ensures InCycle(a * n, a)
  {
    NoRemainder(n, Abs(a));
    SignOfMultiple(a, n);
    assert Abs(a * n) == Abs(a) * n;
  }

  lemma SignOfMultiple(a: int, n: nat)
    ensures a < 0 ==> a * n == -(Abs(a) * n)
    ensures a > 0 ==> a * n == Abs(a) * n
    ensures Abs(a) * n >= 0 && (Abs(a) * n == 0 <==> a == 0 || n == 0)
  {
  }

  // ----- The cache

  /** `[ dirruns, nodeIndex, diff ]` */
  datatype Entry = Entry(run: int, nodeIndex: nat, diff: nat)

  class ChildCache {
    var dirruns: int
    var slots: map<Node, Entry>

    constructor ()
      ensures forall t :: Valid(t)
    {
      dirruns := 0;
      slots := map[];
    }

    /** An entry of this run remembers an element child and how many element children there
        are up to it. */
    ghost predicate Valid(t: Tree)
      reads this
    {
      forall p :: p in slots ==>
        && slots[p].run <= dirruns
        && (slots[p].run == dirruns ==>
              && InTree(t, p) && slots[p].nodeIndex < |At(t, p).kids|
              && At(t, p).kids[slots[p].nodeIndex].kind.Element?
              && slots[p].diff == ElementsAmong(At(t, p).kids, slots[p].nodeIndex + 1))
    }

    /** A new run, on whatever the tree has become. */
    method BeginRun(t: Tree, previous: Tree)
      requires Valid(previous)
      modifies this
      ensures Valid(t) && slots == old(slots) && dirruns == old(dirruns) + 1
    {
      dirruns := dirruns + 1;
    }

    /** The filter that Expr.filter.CHILD builds for "nth-child". */
    method NthChild(t: Tree, first: int, last: int, e: Node) returns (b: bool)
      requires Valid(t) && IsElement(t, e)
      modifies this`slots
      ensures Valid(t)
      ensures b <==> e != [] && Represents(first, last, ElementIndex(t, e))
    {
      if first == 1 && last == 0 {
        if e != [] {
          assert ElementIndex(t, e) == 1 * ElementIndex(t, e) + 0;
        }
        return e != [];
      }
      if e == [] {
        return false;
      }
      var diff, wraps := Seek(t, e);
      InCycleIsRepresents(diff, first, last);
      b := InCycle(diff - last, first);
    }

    /** Seeks `e` from the remembered index, falling back to the first child once. */
    method Seek(t: Tree, e: Node) returns (diff: nat, ghost wraps: nat)
      requires Valid(t) && IsElement(t, e) && e != []
      modifies this`slots
      ensures Valid(t) && diff == ElementIndex(t, e) && wraps <= 1
      ensures slots == old(slots)[Parent(e) := Entry(dirruns, ChildIndex(e), diff)]
    {
      var parent, k := Parent(e), ChildIndex(e);
      ParentInTree(t, e);
      var kids := At(t, parent).kids;
      var start: Option<nat> := Some(0);
      var nodeIndex: nat, node: Option<nat> := 0, None;
      diff, wraps := 0, 0;
      if parent in slots && slots[parent].run == dirruns && slots[parent].nodeIndex != 0 {
        nodeIndex := slots[parent].nodeIndex;
        diff := slots[parent].diff;
        node := Some(nodeIndex);
      }
      while true
        invariant (node.None? ==> start.Some?) && (start.Some? ==> start.value == 0)
        invariant node.Some? ==>
                    && nodeIndex == node.value < |kids| && diff == ElementsAmong(kids, node.value + 1)
                    && (start.None? ==> node.value < k)
        invariant wraps == if start.None? then 1 else 0
        invariant Valid(t) && slots == old(slots)
        decreases if start.Some? then 1 else 0, if node.Some? then |kids| - node.value else |kids| + 1
      {
        nodeIndex := nodeIndex + 1;
        if node.Some? && node.value + 1 < |kids| {
          node := Some(node.value + 1);
        } else {
          diff, nodeIndex := 0, 0;
          node, start := start, None;
          wraps := wraps + 1;
        }
        assert node.Some?;
        if kids[node.value].kind.Element? {
          diff := diff + 1;
          if node.value == k {
            slots := slots[parent := Entry(dirruns, nodeIndex, diff)];
            break;
          }
        }
      }
    }
  }
}
