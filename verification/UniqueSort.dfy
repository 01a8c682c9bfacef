/** Sizzle.uniqueSort: after the platform has sorted the list with the comparator of module
    DocumentOrder, duplicates are noted by index and then spliced out from the back. */
module UniqueSort {
  import opened Dom
  import opened DocumentOrder

  ghost predicate AllInTree(t: Tree, s: seq<Node>) {
    forall i :: 0 <= i < |s| ==> InTree(t, s[i])
  }

  /** What the platform's sort promises for a consistent comparator. */
  ghost predicate Sorted(t: Tree, s: seq<Node>) {
    forall i, j :: 0 <= i < j < |s| ==> s[i] == s[j] || Precedes(t, s[i], s[j])
  }

  ghost predicate StrictlySorted(t: Tree, s: seq<Node>) {
    forall i, j :: 0 <= i < j < |s| ==> Precedes(t, s[i], s[j])
  }

  ghost predicate NoDuplicates(s: seq<Node>) {
    forall i, j :: 0 <= i < j < |s| ==> s[i] != s[j]
  }

  predicate Repeats(s: seq<Node>, k: nat)
    requires k < |s|
  {
    k > 0 && s[k] == s[k - 1]
  }

  /** The elements from index `m` on that do not repeat their predecessor. */
  function KeptFrom(s: seq<Node>, m: nat): seq<Node>
    requires m <= |s|
    decreases |s| - m
  {
    if m == |s| then [] else (if Repeats(s, m) then [] else [s[m]]) + KeptFrom(s, m + 1)
  }

  lemma {:induction false} Slide(s: seq<Node>, m: nat, m': nat)
    requires m <= m' <= |s| && forall k :: m <= k < m' ==> !Repeats(s, k)
    ensures s[..m] + KeptFrom(s, m) == s[..m'] + KeptFrom(s, m')
    decreases m' - m
  {
    if m < m' {
      Slide(s, m + 1, m');
      assert s[..m + 1] == s[..m] + [s[m]];
    }
  }

  lemma {:induction false} KeptMembers(s: seq<Node>, m: nat, x: Node)
    requires m <= |s| && x in KeptFrom(s, m)
    ensures exists i :: m <= i < |s| && s[i] == x && !Repeats(s, i)
    decreases |s| - m
  {
    if !Repeats(s, m) && x == s[m] {
    } else {
      KeptMembers(s, m + 1, x);
    }
  }

  lemma {:induction false} KeptCovers(s: seq<Node>, i: nat)
    requires i < |s|
    ensures s[i] in KeptFrom(s, 0)
    decreases i
  {
    if Repeats(s, i) {
      KeptCovers(s, i - 1);
    } else {
      KeptHas(s, 0, i);
    }
  }

  lemma {:induction false} KeptHas(s: seq<Node>, m: nat, i: nat)
    requires m <= i < |s| && !Repeats(s, i)
    ensures s[i] in KeptFrom(s, m)
    decreases i - m
  {
    if m < i {
      KeptHas(s, m + 1, i);
    }
  }

  ghost predicate Ascending(s: seq<Node>) {
    forall i, j :: 0 <= i < j < |s| ==> s[i] == s[j] || Lex(s[i], s[j])
  }

  lemma SortedIsAscending(t: Tree, s: seq<Node>)
    requires AllInTree(t, s) && Sorted(t, s)
    ensures Ascending(s)
  {
    forall i, j | 0 <= i < j < |s| ensures s[i] == s[j] || Lex(s[i], s[j]) {
      PrecedesIsLex(t, s[i], s[j]);
    }
  }

  lemma IncreasingIsStrict(t: Tree, s: seq<Node>)
    requires AllInTree(t, s) && Increasing(s)
    ensures StrictlySorted(t, s)
  {
    forall i, j | 0 <= i < j < |s| ensures Precedes(t, s[i], s[j]) {
      assert Lex(s[i], s[j]);
      PrecedesIsLex(t, s[i], s[j]);
    }
  }

  lemma {:induction false} KeptIncreases(s: seq<Node>, m: nat)
    requires m <= |s| && Ascending(s)
    ensures Increasing(KeptFrom(s, m))
    decreases |s| - m
  {
    if m < |s| {
      KeptIncreases(s, m + 1);
      var rest := KeptFrom(s, m + 1);
      forall j | 0 <= j < |rest| ensures Lex(s[m], rest[j]) {
        KeptMembers(s, m + 1, rest[j]);
        var i :| m + 1 <= i < |s| && s[i] == rest[j] && !Repeats(s, i);
        assert s[m] == s[i - 1] || Lex(s[m], s[i - 1]);
        if s[m] != s[i - 1] {
          LexTransitive(s[m], s[i - 1], s[i]);
        }
      }
    }
  }

  lemma KeptIsResult(t: Tree, s: seq<Node>)
    requires AllInTree(t, s) && Sorted(t, s)
    ensures forall x :: x in KeptFrom(s, 0) <==> x in s
    ensures StrictlySorted(t, KeptFrom(s, 0))
  {
    forall x ensures x in KeptFrom(s, 0) <==> x in s {
      if x in s {
        var k :| 0 <= k < |s| && s[k] == x;
        KeptCovers(s, k);
      }
      if x in KeptFrom(s, 0) {
        KeptMembers(s, 0, x);
      }
    }
    SortedIsAscending(t, s);
    KeptIncreases(s, 0);
    forall i | 0 <= i < |KeptFrom(s, 0)| ensures InTree(t, KeptFrom(s, 0)[i]) {
      assert KeptFrom(s, 0)[i] in s;
    }
    IncreasingIsStrict(t, KeptFrom(s, 0));
  }

  /** `duplicates` lists, in ascending order, the indices before `to` that repeat. */
  ghost predicate Notes(s: seq<Node>, duplicates: seq<nat>, to: nat) {
    && (forall k :: 0 <= k < |duplicates| ==> duplicates[k] < to && duplicates[k] < |s| && Repeats(s, duplicates[k]))
    && (forall k, l :: 0 <= k < l < |duplicates| ==> duplicates[k] < duplicates[l])
    && (forall d :: 0 <= d < |s| && d < to && Repeats(s, d) ==> d in duplicates)
  }

  class ResultList {
    var items: seq<Node>

    /** `sorted` is what the platform's sort makes of the list, and `hasDuplicate` what the
        comparator (or the platform probe) has recorded meanwhile. */
    method UniqueSort(t: Tree, sorted: seq<Node>, hasDuplicate: bool)
      requires AllInTree(t, items)
      requires multiset(sorted) == multiset(items) && Sorted(t, sorted)
      requires !hasDuplicate ==> NoDuplicates(items)
      modifies this
      ensures StrictlySorted(t, items)
      ensures forall x :: x in items <==> x in old(items)
    {
      SameElements(items, sorted);
      forall i | 0 <= i < |sorted| ensures InTree(t, sorted[i]) {
        assert sorted[i] in items;
      }
      if !hasDuplicate {
        PermutedDistinct(items, sorted);
      }
      items := sorted;
      if hasDuplicate {
        var duplicates := NoteDuplicates();
        SpliceAll(duplicates);
        KeptIsResult(t, sorted);
      }
    }

    method NoteDuplicates() returns (duplicates: seq<nat>)
      ensures Notes(items, duplicates, |items|)
    {
      duplicates := [];
      var i := 0;
      while i < |items|
        invariant i <= |items| && Notes(items, duplicates, i + 1)
      {
        var elem := items[i];
        i := i + 1;
        if i < |items| && elem == items[i] {
          duplicates := duplicates + [i];
        }
      }
    }

    method SpliceAll(duplicates: seq<nat>)
      requires Notes(items, duplicates, |items|)
      modifies this
      ensures items == KeptFrom(old(items), 0)
    {
      var j := |duplicates|;
      ghost var s, kept := items, |items|;
      while j > 0
        invariant 0 <= j <= |duplicates| && kept == if j < |duplicates| then duplicates[j] else |s|
        invariant items == s[..kept] + KeptFrom(s, kept)
      {
        j := j - 1;
        var d := duplicates[j];
        SpliceStep(s, duplicates, j, kept);
        items := items[..d] + items[d + 1..];
        kept := d;
      }
      NoneBefore(s, duplicates, kept);
    }
  }

  lemma NoneBefore(s: seq<Node>, duplicates: seq<nat>, kept: nat)
    requires Notes(s, duplicates, |s|) && kept == if 0 < |duplicates| then duplicates[0] else |s|
    ensures s[..kept] + KeptFrom(s, kept) == KeptFrom(s, 0)
  {
    forall k | 0 <= k < kept ensures !Repeats(s, k) {
      assert Repeats(s, k) ==> k in duplicates;
    }
    Slide(s, 0, kept);
  }

  lemma SpliceStep(s: seq<Node>, duplicates: seq<nat>, j: nat, kept: nat)
    requires Notes(s, duplicates, |s|) && j < |duplicates|
    requires kept == if j + 1 < |duplicates| then duplicates[j + 1] else |s|
    ensures var d, items := duplicates[j], s[..kept] + KeptFrom(s, kept);
            d < kept && items[..d] + items[d + 1..] == s[..d] + KeptFrom(s, d)
  {
    var d := duplicates[j];
    forall k | d + 1 <= k < kept ensures !Repeats(s, k) {
      NotBetween(s, duplicates, j, k);
    }
    Slide(s, d + 1, kept);
    var items := s[..kept] + KeptFrom(s, kept);
    assert items == s[..d + 1] + KeptFrom(s, d + 1);
    assert Repeats(s, d) && KeptFrom(s, d) == KeptFrom(s, d + 1);
    assert items[..d] == s[..d] && items[d + 1..] == KeptFrom(s, d + 1);
  }

  lemma NotBetween(s: seq<Node>, duplicates: seq<nat>, j: nat, k: nat)
    requires Notes(s, duplicates, |s|) && j < |duplicates| && duplicates[j] < k < |s|
    requires j + 1 < |duplicates| ==> k < duplicates[j + 1]
    ensures !Repeats(s, k)
  {
    if Repeats(s, k) {
      var l :| 0 <= l < |duplicates| && duplicates[l] == k;
      assert false;
    }
  }

  lemma SameElements(a: seq<Node>, b: seq<Node>)
    requires multiset(a) == multiset(b)
    ensures forall x :: x in a <==> x in b
  {
    forall x ensures x in a <==> x in b {
      assert x in a <==> x in multiset(a);
      assert x in b <==> x in multiset(b);
    }
  }

  lemma PermutedDistinct(a: seq<Node>, b: seq<Node>)
    requires multiset(a) == multiset(b) && NoDuplicates(a)
    ensures NoDuplicates(b)
  {
    forall i, j | 0 <= i < j < |b| ensures b[i] != b[j] {
      if b[i] == b[j] {
        var x := b[i];
        assert b == b[..i] + [b[i]] + b[i + 1..j] + [b[j]] + b[j + 1..];
        assert multiset(a)[x] >= 2;
        CountTwice(a, x);
      }
    }
  }

  lemma {:induction false} CountTwice(a: seq<Node>, x: Node)
    requires multiset(a)[x] >= 2
    ensures !NoDuplicates(a)
    decreases |a|
  {
    var rest := a[1..];
    assert a == [a[0]] + rest;
    if a[0] == x {
      assert x in multiset(rest);
      var k :| 0 <= k < |rest| && rest[k] == x;
      assert a[k + 1] == a[0];
    } else {
      CountTwice(rest, x);
      var i, j :| 0 <= i < j < |rest| && rest[i] == rest[j];
      assert a[i + 1] == a[j + 1];
    }
  }
}
