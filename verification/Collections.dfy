/** Option, and facts about sequences and sets that several modules need. */
module Collections {
  datatype Option<+T> = None | Some(value: T)

  lemma Assoc<T>(a: seq<T>, b: seq<T>, c: seq<T>)
    ensures (a + b) + c == a + (b + c)
  {
  }

  /** Two sets that differ in one element at most. */
  lemma Resize<T>(a: set<T>, b: set<T>, t: T)
    requires a - {t} == b - {t}
    ensures |b| == |a| + (if t in b then 1 else 0) - (if t in a then 1 else 0)
  {
    assert t in a ==> a == (a - {t}) + {t};
    assert t in b ==> b == (b - {t}) + {t};
    assert t !in a ==> a == a - {t};
    assert t !in b ==> b == b - {t};
  }

  ghost predicate Ascending(idx: seq<nat>) {
    forall k, l :: 0 <= k < l < |idx| ==> idx[k] < idx[l]
  }

  ghost predicate ChosenAt<T>(idx: seq<nat>, sub: seq<T>, s: seq<T>, chosen: set<nat>) {
    && Ascending(idx) && |sub| == |idx|
    && (forall k :: 0 <= k < |idx| ==> idx[k] < |s| && sub[k] == s[idx[k]])
    && (forall i: nat :: i in idx <==> i in chosen)
  }

  /** `sub` is what stands in `s` at the chosen places, in the order of `s`. */
  ghost predicate Chooses<T>(sub: seq<T>, s: seq<T>, chosen: set<nat>) {
    exists idx: seq<nat> :: ChosenAt(idx, sub, s, chosen)
  }

  lemma ChoosesNone<T>(s: seq<T>)
    ensures Chooses([], s, {})
  {
    assert ChosenAt([], [], s, {});
  }

  lemma ChoosesSkip<T>(sub: seq<T>, s: seq<T>, chosen: set<nat>, x: T)
    requires Chooses(sub, s, chosen)
    ensures Chooses(sub, s + [x], chosen)
  {
    var idx: seq<nat> :| ChosenAt(idx, sub, s, chosen);
    assert ChosenAt(idx, sub, s + [x], chosen);
  }

  lemma ChoosesMore<T>(sub: seq<T>, s: seq<T>, chosen: set<nat>, x: T)
    requires Chooses(sub, s, chosen)
    ensures Chooses(sub + [x], s + [x], chosen + {|s|})
  {
    var idx: seq<nat> :| ChosenAt(idx, sub, s, chosen);
    var more: seq<nat> := idx + [|s|];
    forall i: nat ensures i in more <==> i in chosen + {|s|} {
      assert i in more <==> i in idx || i == |s|;
    }
    assert ChosenAt(more, sub + [x], s + [x], chosen + {|s|});
  }
}
