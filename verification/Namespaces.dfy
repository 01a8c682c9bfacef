/** The regular expression by which event handlers are selected by namespace, and what it
    decides about the names a handler was bound with. */
module Namespaces {
  type Text = seq<nat>

  const DOT := 0x2E

  predicate IsLineTerminator(u: nat) {
    u == 10 || u == 13 || u == 0x2028 || u == 0x2029
  }

  /** The characters with a meaning in a regular expression: $ ( ) * + . ? [ \ ] ^ { | } */
  predicate IsSyntax(u: nat) {
    u == 0x24 || 0x28 <= u <= 0x2B || u == DOT || u == 0x3F || 0x5B <= u <= 0x5E || 0x7B <= u <= 0x7D
  }

  /** A name that stands for itself in a regular expression and in a dotted list. */
  predicate Plain(name: Text) {
    name != [] && forall i :: 0 <= i < |name| ==> !IsSyntax(name[i]) && !IsLineTerminator(name[i])
  }

  ghost predicate AllPlain(names: seq<Text>) {
    forall i :: 0 <= i < |names| ==> Plain(names[i])
  }

  // ----- Regular expressions

  /** `^`, `$`, a literal, `.*`, the empty expression, and their combinations. */
  datatype Re = Start | End | Lit(text: Text) | AnyStar | Empty | Cat(left: Re, right: Re) | Alt(one: Re, other: Re)

  /** `re` matches `text` from `i` to `j`. */
  ghost predicate Matches(re: Re, text: Text, i: nat, j: nat) {
    && i <= j <= |text|
    && match re
       case Start => i == 0 && j == 0
       case End => i == j == |text|
       case Lit(l) => text[i..j] == l
       case AnyStar => forall k :: i <= k < j ==> !IsLineTerminator(text[k])
       case Empty => i == j
       case Cat(a, b) => exists k: nat :: Matches(a, text, i, k) && Matches(b, text, k, j)
       case Alt(a, b) => Matches(a, text, i, j) || Matches(b, text, i, j)
  }

  ghost predicate Test(re: Re, text: Text) {
    exists i: nat, j: nat :: Matches(re, text, i, j)
  }

  const LITERAL_DOT := Lit([DOT])

  /** `(?:.*\.|)` */
  const GAP := Alt(Cat(AnyStar, LITERAL_DOT), Empty)

  /** `(\.|$)` */
  const TAIL := Alt(LITERAL_DOT, End)

  /** `names.join("\\.(?:.*\\.|)")` */
  function Body(names: seq<Text>): Re
    requires names != []
  {
    if |names| == 1 then Lit(names[0]) else Cat(Lit(names[0]), Cat(LITERAL_DOT, Cat(GAP, Body(names[1..]))))
  }

  /** `"(^|\\.)" + ... + "(\\.|$)"` */
  function Build(names: seq<Text>): Re
    requires names != []
  {
    Cat(Alt(Start, LITERAL_DOT), Cat(Body(names), TAIL))
  }

  // ----- What the expression looks for

  /** `name` stands at the front of `s`, up to a dot or the end. */
  predicate Leads(name: Text, s: Text) {
    name <= s && (|s| == |name| || s[|name|] == DOT)
  }

  /** The front of the text, or just behind a dot. */
  predicate Boundary(s: Text, p: nat) {
    p <= |s| && (p == 0 || s[p - 1] == DOT)
  }

  /** The names stand in `s` one behind the other, the first at the front. */
  ghost predicate Head(names: seq<Text>, s: Text)
    requires names != []
    decreases |names|, 0
  {
    Leads(names[0], s) && (|names| == 1 || (|names[0]| < |s| && Scan(names[1..], s[|names[0]| + 1..])))
  }

  ghost predicate Scan(names: seq<Text>, s: Text)
    requires names != []
    decreases |names|, 1
  {
    exists p: nat :: Boundary(s, p) && Head(names, s[p..])
  }

  ghost predicate OneLine(s: Text) {
    forall i :: 0 <= i < |s| ==> !IsLineTerminator(s[i])
  }

  lemma CatSplit(a: Re, b: Re, text: Text, i: nat, j: nat) returns (k: nat)
    requires Matches(Cat(a, b), text, i, j)
    ensures Matches(a, text, i, k) && Matches(b, text, k, j)
  {
    k :| Matches(a, text, i, k) && Matches(b, text, k, j);
  }

  lemma CatJoin(a: Re, b: Re, text: Text, i: nat, k: nat, j: nat)
    requires Matches(a, text, i, k) && Matches(b, text, k, j)
    ensures Matches(Cat(a, b), text, i, j)
  {
  }

  lemma GapMatches(text: Text, x: nat, g: nat)
    requires OneLine(text) && x <= |text|
    ensures Matches(GAP, text, x, g) <==> x <= g && Boundary(text[x..], g - x)
  {
    var s := text[x..];
    if x < g <= |text| && s[g - x - 1] == DOT {
      assert text[g - 1..g] == [DOT];
      assert Matches(AnyStar, text, x, g - 1) && Matches(LITERAL_DOT, text, g - 1, g);
      CatJoin(AnyStar, LITERAL_DOT, text, x, g - 1, g);
    }
    if Matches(Cat(AnyStar, LITERAL_DOT), text, x, g) {
      var k := CatSplit(AnyStar, LITERAL_DOT, text, x, g);
      assert text[k..g][0] == DOT && g == k + 1;
    }
    assert Matches(Empty, text, x, g) <==> x == g;
  }

  /** Body and tail match somewhere from `i` on. */
  ghost predicate Onward(names: seq<Text>, text: Text, i: nat)
    requires names != []
  {
    exists k: nat, j: nat :: Matches(Body(names), text, i, k) && Matches(TAIL, text, k, j)
  }

  lemma TailMatches(text: Text, k: nat)
    requires k <= |text|
    ensures (exists j: nat :: Matches(TAIL, text, k, j)) <==> k == |text| || text[k] == DOT
  {
    if k == |text| {
      assert Matches(End, text, k, k);
      assert Matches(TAIL, text, k, k);
    } else if text[k] == DOT {
      assert text[k..k + 1] == [DOT];
      assert Matches(LITERAL_DOT, text, k, k + 1);
      assert Matches(TAIL, text, k, k + 1);
    }
    if j: nat :| Matches(TAIL, text, k, j) {
      if Matches(LITERAL_DOT, text, k, j) {
        assert text[k..j][0] == DOT;
      }
    }
  }

  lemma LitMatches(l: Text, text: Text, i: nat, k: nat)
    requires i <= |text|
    ensures Matches(Lit(l), text, i, k) <==> l <= text[i..] && k == i + |l|
  {
    if l <= text[i..] {
      assert text[i..i + |l|] == text[i..][..|l|];
    }
    if Matches(Lit(l), text, i, k) {
      assert text[i..][..k - i] == l;
    }
  }

  lemma {:induction false} OnwardIsHead(names: seq<Text>, text: Text, i: nat)
    requires names != [] && OneLine(text) && i <= |text|
    ensures Onward(names, text, i) <==> Head(names, text[i..])
    decreases |names|, 1
  {
    if |names| > 1 {
      if Onward(names, text, i) {
        OnwardThenHead(names, text, i);
      }
      if Head(names, text[i..]) {
        HeadThenOnward(names, text, i);
      }
    } else {
      var n, x := names[0], i + |names[0]|;
      forall k: nat ensures Matches(Lit(n), text, i, k) <==> n <= text[i..] && k == x {
        LitMatches(n, text, i, k);
      }
      if n <= text[i..] {
        TailMatches(text, x);
        assert Matches(Body(names), text, i, x);
        if Leads(n, text[i..]) {
          var j: nat :| Matches(TAIL, text, x, j);
          assert Onward(names, text, i);
        }
        if Onward(names, text, i) {
          var k: nat, j: nat :| Matches(Body(names), text, i, k) && Matches(TAIL, text, k, j);
          assert k == x && Matches(TAIL, text, x, j);
        }
      }
    }
  }

  /** With more names to come: the name, a dot, a gap, and then the rest. */
  lemma {:induction false} OnwardThenHead(names: seq<Text>, text: Text, i: nat)
    requires |names| > 1 && OneLine(text) && i <= |text| && Onward(names, text, i)
    ensures Head(names, text[i..])
    decreases |names|, 0
  {
    var n, rest := names[0], names[1..];
    var k: nat, j: nat :| Matches(Body(names), text, i, k) && Matches(TAIL, text, k, j);
    var x := CatSplit(Lit(n), Cat(LITERAL_DOT, Cat(GAP, Body(rest))), text, i, k);
    LitMatches(n, text, i, x);
    var y := CatSplit(LITERAL_DOT, Cat(GAP, Body(rest)), text, x, k);
    LitMatches([DOT], text, x, y);
    assert text[x..][0] == DOT;
    var g := CatSplit(GAP, Body(rest), text, y, k);
    GapMatches(text, y, g);
    assert Onward(rest, text, g);
    OnwardIsHead(rest, text, g);
    HeadFollows(names, text, i, g);
  }

  lemma HeadFollows(names: seq<Text>, text: Text, i: nat, g: nat)
    requires |names| > 1 && i <= |text| && names[0] <= text[i..]
    requires var y := i + |names[0]| + 1;
             y <= g <= |text| && text[y - 1] == DOT && Boundary(text[y..], g - y) && Head(names[1..], text[g..])
    ensures Head(names, text[i..])
  {
    var y := i + |names[0]| + 1;
    assert text[i..][|names[0]| + 1..] == text[y..];
    assert text[y..][g - y..] == text[g..];
    assert Scan(names[1..], text[y..]);
  }

  lemma {:induction false} HeadThenOnward(names: seq<Text>, text: Text, i: nat)
    requires |names| > 1 && OneLine(text) && i <= |text| && Head(names, text[i..])
    ensures Onward(names, text, i)
    decreases |names|, 0
  {
    var n, rest, x := names[0], names[1..], i + |names[0]|;
    var y := x + 1;
    assert text[i..][|n|] == text[x] == DOT;
    assert text[i..][|n| + 1..] == text[y..];
    assert Scan(rest, text[y..]);
    var p: nat :| Boundary(text[y..], p) && Head(rest, text[y..][p..]);
    var g := y + p;
    assert text[y..][p..] == text[g..];
    OnwardIsHead(rest, text, g);
    var k: nat, j: nat :| Matches(Body(rest), text, g, k) && Matches(TAIL, text, k, j);
    GapMatches(text, y, g);
    LitMatches([DOT], text, x, y);
    LitMatches(n, text, i, x);
    CatJoin(GAP, Body(rest), text, y, g, k);
    CatJoin(LITERAL_DOT, Cat(GAP, Body(rest)), text, x, y, k);
    CatJoin(Lit(n), Cat(LITERAL_DOT, Cat(GAP, Body(rest))), text, i, x, k);
  }

  lemma TestScans(names: seq<Text>, text: Text)
    requires names != [] && OneLine(text) && Test(Build(names), text)
    ensures Scan(names, text)
  {
    var i: nat, j: nat :| Matches(Build(names), text, i, j);
    var p := CatSplit(Alt(Start, LITERAL_DOT), Cat(Body(names), TAIL), text, i, j);
    StartIsBoundary(text, i, p);
    var k := CatSplit(Body(names), TAIL, text, p, j);
    OnwardIsHead(names, text, p);
    assert Boundary(text, p) && Head(names, text[p..]);
  }

  lemma StartIsBoundary(text: Text, i: nat, p: nat)
    requires Matches(Alt(Start, LITERAL_DOT), text, i, p)
    ensures Boundary(text, p)
  {
    if Matches(LITERAL_DOT, text, i, p) {
      assert text[i..p][0] == DOT && p == i + 1;
    }
  }

  lemma BoundaryIsStart(text: Text, p: nat) returns (i: nat)
    requires Boundary(text, p)
    ensures Matches(Alt(Start, LITERAL_DOT), text, i, p)
  {
    i := if p == 0 then 0 else p - 1;
    if p > 0 {
      assert text[i..p] == [DOT];
      assert Matches(LITERAL_DOT, text, i, p);
    } else {
      assert Matches(Start, text, i, p);
    }
  }

  lemma ScanTests(names: seq<Text>, text: Text)
    requires names != [] && OneLine(text) && Scan(names, text)
    ensures Test(Build(names), text)
  {
    var p: nat :| Boundary(text, p) && Head(names, text[p..]);
    OnwardIsHead(names, text, p);
    var k: nat, j: nat :| Matches(Body(names), text, p, k) && Matches(TAIL, text, k, j);
    CatJoin(Body(names), TAIL, text, p, k, j);
    var i := BoundaryIsStart(text, p);
    CatJoin(Alt(Start, LITERAL_DOT), Cat(Body(names), TAIL), text, i, p, j);
  }

  /** The expression finds the names, in order, behind boundaries. */
  lemma TestIsScan(names: seq<Text>, text: Text)
    requires names != [] && OneLine(text)
    ensures Test(Build(names), text) <==> Scan(names, text)
  {
    if Test(Build(names), text) {
      TestScans(names, text);
    }
    if Scan(names, text) {
      ScanTests(names, text);
    }
  }

  // ----- Dotted lists

  /** `names.join(".")` */
  function Join(names: seq<Text>): Text {
    if names == [] then [] else if |names| == 1 then names[0] else names[0] + [DOT] + Join(names[1..])
  }

  lemma {:induction false} JoinOneLine(hs: seq<Text>)
    requires AllPlain(hs)
    ensures OneLine(Join(hs))
    decreases |hs|
  {
    if |hs| == 1 {
      assert Plain(hs[0]);
    } else if |hs| > 1 {
      assert Plain(hs[0]);
      JoinOneLine(hs[1..]);
    }
  }

  /** A plain name leads a dotted list iff it is its first entry. */
  lemma LeadsIsFirst(name: Text, hs: seq<Text>)
    requires Plain(name) && AllPlain(hs) && hs != []
    ensures Leads(name, Join(hs)) <==> name == hs[0]
  {
    var s, h := Join(hs), hs[0];
    assert Plain(h);
    assert h <= s && (|s| == |h| || s[|h|] == DOT);
    assert forall i :: 0 <= i < |h| ==> s[i] == h[i] != DOT;
    if Leads(name, s) {
      assert forall i :: 0 <= i < |name| ==> s[i] == name[i] != DOT;
      assert |name| == |h|;
      assert name == s[..|name|] && h == s[..|h|];
    }
  }

  /** Boundaries are exactly the places where an entry begins. */
  lemma {:induction false} BoundaryIsEntry(hs: seq<Text>, p: nat)
    requires AllPlain(hs) && hs != [] && Boundary(Join(hs), p)
    ensures exists k :: 0 <= k < |hs| && Join(hs)[p..] == Join(hs[k..])
    decreases |hs|
  {
    var s, h := Join(hs), hs[0];
    assert Plain(h);
    assert forall i :: 0 <= i < |h| ==> s[i] == h[i] != DOT;
    if p == 0 {
      assert hs[0..] == hs && s[p..] == s;
    } else {
      assert p > |h|;
      var q := p - (|h| + 1);
      var t := Join(hs[1..]);
      assert s == h + [DOT] + t;
      assert q > 0 ==> t[q - 1] == s[p - 1];
      BoundaryIsEntry(hs[1..], q);
      var k :| 0 <= k < |hs[1..]| && t[q..] == Join(hs[1..][k..]);
      assert hs[1..][k..] == hs[k + 1..] && s[p..] == t[q..];
    }
  }

  lemma {:induction false} EntryIsBoundary(hs: seq<Text>, k: nat)
    requires AllPlain(hs) && k < |hs|
    ensures exists p: nat :: Boundary(Join(hs), p) && Join(hs)[p..] == Join(hs[k..])
    decreases k
  {
    if k == 0 {
      assert hs[0..] == hs && Boundary(Join(hs), 0) && Join(hs)[0..] == Join(hs);
    } else {
      EntryIsBoundary(hs[1..], k - 1);
      var s, h, t := Join(hs), hs[0], Join(hs[1..]);
      var q: nat :| Boundary(t, q) && t[q..] == Join(hs[1..][k - 1..]);
      var p := |h| + 1 + q;
      assert s == h + [DOT] + t;
      assert hs[1..][k - 1..] == hs[k..] && s[p..] == t[q..];
      assert q > 0 ==> s[p - 1] == t[q - 1];
      assert Boundary(s, p);
    }
  }

  /** The names occur among the entries in this order. */
  ghost predicate Subsequence(names: seq<Text>, hs: seq<Text>)
    decreases |names|
  {
    names == [] || exists k :: 0 <= k < |hs| && hs[k] == names[0] && Subsequence(names[1..], hs[k + 1..])
  }

  lemma {:induction false} ScanIsSubsequence(names: seq<Text>, hs: seq<Text>)
    requires names != [] && AllPlain(names) && AllPlain(hs)
    ensures Scan(names, Join(hs)) <==> Subsequence(names, hs)
    decreases |names|
  {
    var s := Join(hs);
    if Scan(names, s) {
      var p: nat :| Boundary(s, p) && Head(names, s[p..]);
      assert Plain(names[0]);
      BoundaryIsEntry(hs, p);
      var k :| 0 <= k < |hs| && s[p..] == Join(hs[k..]);
      HeadIsEntry(names, hs, k);
      assert hs[k] == names[0] && Subsequence(names[1..], hs[k + 1..]);
    }
    if Subsequence(names, hs) {
      var k :| 0 <= k < |hs| && hs[k] == names[0] && Subsequence(names[1..], hs[k + 1..]);
      EntryIsBoundary(hs, k);
      var p: nat :| Boundary(s, p) && s[p..] == Join(hs[k..]);
      HeadIsEntry(names, hs, k);
    }
  }

  lemma {:induction false} HeadIsEntry(names: seq<Text>, hs: seq<Text>, k: nat)
    requires names != [] && AllPlain(names) && AllPlain(hs) && k < |hs|
    ensures Head(names, Join(hs[k..])) <==> hs[k] == names[0] && Subsequence(names[1..], hs[k + 1..])
    decreases |names|, 0
  {
    var from := hs[k..];
    var s := Join(from);
    assert Plain(names[0]);
    LeadsIsFirst(names[0], from);
    if Leads(names[0], s) {
      assert from[1..] == hs[k + 1..];
      if |names| > 1 {
        ScanIsSubsequence(names[1..], hs[k + 1..]);
        if |from| > 1 {
          assert s[|names[0]| + 1..] == Join(from[1..]);
        } else {
          assert |s| == |names[0]|;
        }
      }
    }
  }

  // ----- Sorted lists of names

  /** The order of Array.prototype.sort on strings. */
  predicate Le(a: Text, b: Text)
    decreases a
  {
    a == [] || (b != [] && (a[0] < b[0] || (a[0] == b[0] && Le(a[1..], b[1..]))))
  }

  lemma {:induction false} LeAntisymmetric(a: Text, b: Text)
    requires Le(a, b) && Le(b, a)
    ensures a == b
    decreases a
  {
    if a != [] {
      LeAntisymmetric(a[1..], b[1..]);
      assert a == [a[0]] + a[1..] && b == [b[0]] + b[1..];
    }
  }

  lemma {:induction false} LeTotal(a: Text, b: Text)
    ensures Le(a, b) || Le(b, a)
    decreases a
  {
    if a != [] && b != [] && a[0] == b[0] {
      LeTotal(a[1..], b[1..]);
    }
  }

  ghost predicate Sorted(names: seq<Text>) {
    forall i, j :: 0 <= i <= j < |names| ==> Le(names[i], names[j])
  }

  /** Every name, counted with its multiplicity, is among the entries. */
  ghost predicate SubMultiset(names: seq<Text>, hs: seq<Text>) {
    multiset(names) <= multiset(hs)
  }

  lemma {:induction false} SubsequenceCounts(names: seq<Text>, hs: seq<Text>)
    requires Subsequence(names, hs)
    ensures SubMultiset(names, hs)
    decreases |names|
  {
    if names != [] {
      var k :| 0 <= k < |hs| && hs[k] == names[0] && Subsequence(names[1..], hs[k + 1..]);
      SubsequenceCounts(names[1..], hs[k + 1..]);
      CountsAround(names, 0);
      CountsAround(hs, k);
    }
  }

  lemma CountsAround(hs: seq<Text>, k: nat)
    requires k < |hs|
    ensures multiset(hs) == multiset(hs[..k]) + multiset{hs[k]} + multiset(hs[k + 1..])
  {
    assert hs == hs[..k] + [hs[k]] + hs[k + 1..];
  }

  /** In sorted lists, counting is enough: what precedes the first occurrence of the smallest
      name asked for is smaller than all of them. */
  lemma {:induction false} CountsSubsequence(names: seq<Text>, hs: seq<Text>)
    requires Sorted(names) && Sorted(hs) && SubMultiset(names, hs)
    ensures Subsequence(names, hs)
    decreases |names|
  {
    if names != [] {
      var n := names[0];
      assert n in multiset(names);
      assert n in multiset(hs);
      var k := FirstIndex(n, hs);
      RestCounts(names, hs, k);
      CountsSubsequence(names[1..], hs[k + 1..]);
    }
  }

  lemma FirstIndex(n: Text, hs: seq<Text>) returns (k: nat)
    requires n in hs
    ensures k < |hs| && hs[k] == n && n !in hs[..k]
  {
    k := 0;
    while hs[k] != n
      invariant k < |hs| && n !in hs[..k] && n in hs[k..]
      decreases |hs| - k
    {
      assert hs[..k + 1] == hs[..k] + [hs[k]];
      assert hs[k..] == [hs[k]] + hs[k + 1..];
      k := k + 1;
    }
  }

  /** What comes after the first name is not smaller, what comes before it is not larger. */
  lemma NotBoth(names: seq<Text>, hs: seq<Text>, k: nat, x: Text)
    requires names != [] && Sorted(names) && Sorted(hs)
    requires k < |hs| && hs[k] == names[0] && names[0] !in hs[..k]
    ensures !(x in names[1..] && x in hs[..k])
  {
    if x in names[1..] && x in hs[..k] {
      var i :| 0 <= i < |names[1..]| && names[1..][i] == x;
      var j :| 0 <= j < k && hs[..k][j] == x;
      assert Le(names[0], names[i + 1]) && Le(hs[j], hs[k]);
      LeAntisymmetric(names[0], x);
      assert false;
    }
  }

  lemma RestCounts(names: seq<Text>, hs: seq<Text>, k: nat)
    requires names != [] && Sorted(names) && Sorted(hs) && SubMultiset(names, hs)
    requires k < |hs| && hs[k] == names[0] && names[0] !in hs[..k]
    ensures SubMultiset(names[1..], hs[k + 1..])
  {
    var n := names[0];
    CountsAround(names, 0);
    CountsAround(hs, k);
    forall x ensures multiset(names[1..])[x] <= multiset(hs[k + 1..])[x] {
      if x in names[1..] && x in hs[..k] {
        NotBoth(names, hs, k, x);
      }
      assert x in multiset(names[1..]) ==> x in names[1..];
      assert x in multiset(hs[..k]) ==> x in hs[..k];
      assert multiset(names)[x] <= multiset(hs)[x];
    }
  }

  /** The expression built from the sorted names asked for matches a handler's sorted, dotted
      namespace if and only if the names are, with multiplicity, among the handler's. */
  lemma NamespaceMatch(names: seq<Text>, hs: seq<Text>)
    requires names != [] && AllPlain(names) && AllPlain(hs) && Sorted(names) && Sorted(hs)
    ensures Test(Build(names), Join(hs)) <==> SubMultiset(names, hs)
  {
    JoinOneLine(hs);
    TestIsScan(names, Join(hs));
    ScanIsSubsequence(names, hs);
    if Subsequence(names, hs) {
      SubsequenceCounts(names, hs);
    }
    if SubMultiset(names, hs) {
      CountsSubsequence(names, hs);
    }
  }
}
