/** addClass, removeClass, toggleClass and hasClass work on the text of the class attribute,
    padded with spaces; here that text is related to the list of class names it stands for. */
module ClassList {
  import opened Collections

  type Text = seq<nat>

  const SPACE: nat := 0x20

  /** HTML whitespace. */
  predicate IsSpace(u: nat) {
    u == SPACE || u == 9 || u == 10 || u == 12 || u == 13
  }

  /** A class name. */
  predicate Plain(c: Text) {
    c != [] && forall i :: 0 <= i < |c| ==> !IsSpace(c[i])
  }

  /** How many characters before the first whitespace. */
  function Word(s: Text): (n: nat)
    ensures n <= |s| && (forall i :: 0 <= i < n ==> !IsSpace(s[i])) && (n < |s| ==> IsSpace(s[n]))
  {
    if s == [] || IsSpace(s[0]) then 0 else 1 + Word(s[1..])
  }

  /** `s.match( rnothtmlwhite ) || []` */
  function Tokens(s: Text): seq<Text>
    decreases |s|
  {
    if s == [] then []
    else if IsSpace(s[0]) then Tokens(s[1..])
    else [s[..Word(s)]] + Tokens(s[Word(s)..])
  }

  /** `tokens.join( " " )` */
  function Join(ts: seq<Text>): Text {
    if ts == [] then [] else if |ts| == 1 then ts[0] else ts[0] + [SPACE] + Join(ts[1..])
  }

  /** stripAndCollapse */
  function Collapse(s: Text): Text {
    Join(Tokens(s))
  }

  /** `" " + text + " "` */
  function Pad(s: Text): Text {
    [SPACE] + s + [SPACE]
  }

  predicate OccursAt(s: Text, c: Text, i: nat) {
    i + |c| <= |s| && s[i..i + |c|] == c
  }

  predicate Contains(s: Text, c: Text) {
    exists i: nat :: i <= |s| && OccursAt(s, c, i)
  }

  ghost predicate AllPlain(ts: seq<Text>) {
    forall i :: 0 <= i < |ts| ==> Plain(ts[i])
  }

  // ----- Tokens of padded text

  lemma {:induction false} TokensArePlain(s: Text)
    ensures AllPlain(Tokens(s))
    decreases |s|
  {
    if s != [] {
      TokensArePlain(if IsSpace(s[0]) then s[1..] else s[Word(s)..]);
    }
  }

  lemma {:induction false} WordOf(a: Text, b: Text)
    ensures Word(a) < |a| ==> Word(a + b) == Word(a)
    ensures Word(a) == |a| && b != [] && IsSpace(b[0]) ==> Word(a + b) == |a|
    decreases |a|
  {
    if a != [] {
      assert (a + b)[1..] == a[1..] + b;
      WordOf(a[1..], b);
    } else {
      assert a + b == b;
    }
  }

  lemma FirstToken(s: Text)
    requires s != [] && !IsSpace(s[0])
    ensures Word(s) > 0 && Tokens(s) == [s[..Word(s)]] + Tokens(s[Word(s)..])
  {
  }

  lemma WordSplit(a: Text, w: nat, b: Text)
    requires a != [] && !IsSpace(a[0]) && IsSpace(w)
    ensures var s, n := a + [w] + b, Word(a);
            0 < n && Word(s) == n && s[..n] == a[..n] && s[n..] == a[n..] + [w] + b
  {
    Assoc(a, [w], b);
    WordOf(a, [w] + b);
    Slices(a, [w] + b, Word(a));
    Assoc(a[Word(a)..], [w], b);
  }

  lemma Slices(a: Text, b: Text, n: nat)
    requires n <= |a|
    ensures (a + b)[..n] == a[..n] && (a + b)[n..] == a[n..] + b
  {
  }

  lemma FirstTokens(a: Text, w: nat, b: Text)
    requires a != [] && !IsSpace(a[0]) && IsSpace(w)
    ensures 0 < Word(a) && Tokens(a) == [a[..Word(a)]] + Tokens(a[Word(a)..])
    ensures Tokens(a + [w] + b) == [a[..Word(a)]] + Tokens(a[Word(a)..] + [w] + b)
  {
    WordSplit(a, w, b);
    FirstToken(a);
    FirstToken(a + [w] + b);
  }

  lemma SkipSpace(a: Text, w: nat, b: Text)
    requires (a == [] || IsSpace(a[0])) && IsSpace(w)
    ensures a == [] ==> Tokens(a + [w] + b) == Tokens(b)
    ensures a != [] ==> Tokens(a) == Tokens(a[1..]) && Tokens(a + [w] + b) == Tokens(a[1..] + [w] + b)
  {
    var s := a + [w] + b;
    assert s[1..] == if a == [] then b else a[1..] + [w] + b;
  }

  lemma {:induction false} SpaceSplits(a: Text, w: nat, b: Text)
    requires IsSpace(w)
    ensures Tokens(a + [w] + b) == Tokens(a) + Tokens(b)
    decreases |a|
  {
    if a == [] {
      SkipSpace(a, w, b);
    } else if IsSpace(a[0]) {
      SkipSpace(a, w, b);
      SpaceSplits(a[1..], w, b);
    } else {
      FirstTokens(a, w, b);
      SpaceSplits(a[Word(a)..], w, b);
      Assoc([a[..Word(a)]], Tokens(a[Word(a)..]), Tokens(b));
    }
  }

  /** A space separates tokens. */
  lemma TokensSplit(a: Text, b: Text)
    ensures Tokens(a + [SPACE] + b) == Tokens(a) + Tokens(b)
  {
    SpaceSplits(a, SPACE, b);
  }

  /** The white space of HTML: space, tab, line feed, form feed, carriage return. */
  const BLANKS: set<nat> := {0x20, 0x09, 0x0A, 0x0C, 0x0D}

  /** Each of these characters separates names, and text without any of them is one name: the
      two together settle what the names of any text are. */
  lemma BlankSplits(a: Text, w: nat, b: Text)
    requires w in BLANKS
    ensures Tokens(a + [w] + b) == Tokens(a) + Tokens(b)
  {
    SpaceSplits(a, w, b);
  }

  lemma NoBlankIsName(c: Text)
    requires c != [] && forall i :: 0 <= i < |c| ==> c[i] !in BLANKS
    ensures Tokens(c) == [c] && Tokens([]) == []
  {
    TokensOfPlain(c);
  }

  lemma {:induction false} WordOfPlain(c: Text)
    requires Plain(c)
    ensures Word(c) == |c|
    decreases |c|
  {
    if |c| > 1 {
      WordOfPlain(c[1..]);
    }
  }

  lemma TokensOfPlain(c: Text)
    requires Plain(c)
    ensures Tokens(c) == [c]
  {
    WordOfPlain(c);
    FirstToken(c);
    assert c[..|c|] == c && c[|c|..] == [];
  }

  lemma {:induction false} TokensOfJoin(ts: seq<Text>)
    requires AllPlain(ts)
    ensures Tokens(Join(ts)) == ts
    decreases |ts|
  {
    if |ts| == 1 {
      TokensOfPlain(ts[0]);
    } else if |ts| > 1 {
      TokensSplit(ts[0], Join(ts[1..]));
      TokensOfPlain(ts[0]);
      TokensOfJoin(ts[1..]);
    }
  }

  lemma TokensOfPad(s: Text)
    ensures Tokens(Pad(s)) == Tokens(s)
  {
    TokensSplit([], s + [SPACE]);
    assert [] + [SPACE] + (s + [SPACE]) == Pad(s);
    TokensSplit(s, []);
    assert s + [SPACE] + [] == s + [SPACE];
  }

  /** Text as the class functions build it: spaces are the only whitespace, one in front and
      one behind. */
  ghost predicate Padded(s: Text) {
    s != [] && s[0] == SPACE && s[|s| - 1] == SPACE && Spaced(s)
  }

  ghost predicate Spaced(s: Text) {
    forall i :: 0 <= i < |s| && IsSpace(s[i]) ==> s[i] == SPACE
  }

  lemma {:induction false} JoinIsSpaced(ts: seq<Text>)
    requires AllPlain(ts)
    ensures Spaced(Join(ts))
    decreases |ts|
  {
    if |ts| == 1 {
      assert Plain(ts[0]);
    } else if |ts| > 1 {
      assert Plain(ts[0]);
      JoinIsSpaced(ts[1..]);
    }
  }

  lemma PadIsPadded(ts: seq<Text>)
    requires AllPlain(ts)
    ensures Padded(Pad(Join(ts))) && Tokens(Pad(Join(ts))) == ts
  {
    JoinIsSpaced(ts);
    TokensOfPad(Join(ts));
    TokensOfJoin(ts);
  }

  /** `c` stands at `i`, behind the front or a space, and before a space. */
  predicate StandsAt(s: Text, c: Text, i: nat) {
    OccursAt(s, c + [SPACE], i) && (i == 0 || s[i - 1] == SPACE)
  }

  lemma StandsLater(s: Text, c: Text, k: nat, j: nat)
    requires 0 < k <= |s| && s[k - 1] == SPACE && StandsAt(s[k..], c, j)
    ensures StandsAt(s, c, k + j)
  {
    assert s[k + j..k + j + |c + [SPACE]|] == s[k..][j..j + |c + [SPACE]|];
    assert j > 0 ==> s[k + j - 1] == s[k..][j - 1];
  }

  /** Behind the first word (or none) and the space after it, the same holds again. */
  lemma Advance(s: Text) returns (k: nat)
    requires s != [] && s[|s| - 1] == SPACE && Spaced(s)
    ensures k == Word(s) + 1 <= |s| && s[k - 1] == SPACE && Spaced(s[k..])
    ensures Tokens(s) == (if Word(s) == 0 then [] else [s[..Word(s)]]) + Tokens(s[k..])
  {
    var n := Word(s);
    k := n + 1;
    if n > 0 {
      FirstToken(s);
      assert s[n..][1..] == s[k..];
    }
    assert forall i :: 0 <= i < |s[k..]| ==> s[k..][i] == s[k + i];
  }

  lemma FirstStands(s: Text, n: nat)
    requires n < |s| && s[n] == SPACE
    ensures StandsAt(s, s[..n], 0)
  {
    assert s[..n + 1] == s[..n] + [SPACE];
  }

  lemma {:induction false} TokenStands(s: Text, c: Text) returns (i: nat)
    requires s != [] && s[|s| - 1] == SPACE && Spaced(s) && c in Tokens(s)
    ensures StandsAt(s, c, i)
    decreases |s|
  {
    var n := Word(s);
    var k := Advance(s);
    if n > 0 && c == s[..n] {
      FirstStands(s, n);
      i := 0;
    } else {
      assert c in Tokens(s[k..]);
      var j := TokenStands(s[k..], c);
      StandsLater(s, c, k, j);
      i := k + j;
    }
  }

  lemma StandsOccurs(s: Text, c: Text, i: nat)
    requires s != [] && s[0] == SPACE && StandsAt(s[1..], c, i)
    ensures OccursAt(s, Pad(c), i)
  {
    var p, t := c + [SPACE], s[1..];
    assert s[i] == if i == 0 then s[0] else t[i - 1];
    assert [SPACE] + p == Pad(c);
    assert i + |Pad(c)| <= |s|;
    assert t[i..i + |p|] == s[i + 1..i + 1 + |p|];
    assert s[i..i + 1 + |p|] == [s[i]] + s[i + 1..i + 1 + |p|];
  }

  lemma MemberOccurs(s: Text, c: Text)
    requires Padded(s) && c in Tokens(s)
    ensures Contains(s, Pad(c))
  {
    var t := s[1..];
    assert Tokens(s) == Tokens(t) && t != [];
    assert forall k :: 0 <= k < |t| ==> t[k] == s[k + 1];
    var i := TokenStands(t, c);
    StandsOccurs(s, c, i);
  }

  /** In padded text, the padded name occurs iff it is one of the names. */
  lemma ContainsIsMembership(s: Text, c: Text)
    requires Padded(s) && Plain(c)
    ensures Contains(s, Pad(c)) <==> c in Tokens(s)
  {
    if Contains(s, Pad(c)) {
      var i: nat :| i <= |s| && OccursAt(s, Pad(c), i);
      SplitAt(s, c, i);
    }
    if c in Tokens(s) {
      MemberOccurs(s, c);
    }
  }

  lemma SplitAround(s: Text, c: Text, i: nat)
    requires OccursAt(s, Pad(c), i)
    ensures Tokens(s) == Tokens(s[..i]) + (Tokens(c) + Tokens(s[i + |Pad(c)|..]))
  {
    var u, v := s[..i], s[i + |Pad(c)|..];
    assert s == u + Pad(c) + v;
    assert s == u + [SPACE] + (c + [SPACE] + v);
    TokensSplit(u, c + [SPACE] + v);
    TokensSplit(c, v);
  }

  /** An occurrence of a padded name splits the tokens around it. */
  lemma SplitAt(s: Text, c: Text, i: nat)
    requires Plain(c) && OccursAt(s, Pad(c), i)
    ensures Tokens(s) == Tokens(s[..i]) + [c] + Tokens(s[i + |Pad(c)|..])
    ensures Tokens(s[..i] + [SPACE] + s[i + |Pad(c)|..]) == Tokens(s[..i]) + Tokens(s[i + |Pad(c)|..])
  {
    SplitAround(s, c, i);
    TokensOfPlain(c);
    TokensSplit(s[..i], s[i + |Pad(c)|..]);
  }

  // ----- What occurs in the text of a list of names

  /** Every name followed by a space. */
  function Spread(ts: seq<Text>): Text {
    if ts == [] then [] else ts[0] + [SPACE] + Spread(ts[1..])
  }

  lemma {:induction false} SpreadIsJoin(ts: seq<Text>)
    requires ts != []
    ensures Spread(ts) == Join(ts) + [SPACE] && Pad(Join(ts)) == [SPACE] + Spread(ts)
    decreases |ts|
  {
    if |ts| == 1 {
      assert ts[1..] == [] && ts[0] + [SPACE] + [] == ts[0] + [SPACE];
    } else {
      SpreadIsJoin(ts[1..]);
      Assoc(ts[0] + [SPACE], Join(ts[1..]), [SPACE]);
    }
    Assoc([SPACE], Join(ts), [SPACE]);
  }

  lemma {:induction false} SpreadAppend(a: seq<Text>, b: seq<Text>)
    ensures Spread(a + b) == Spread(a) + Spread(b)
    decreases |a|
  {
    if a == [] {
      assert a + b == b;
    } else {
      assert (a + b)[1..] == a[1..] + b;
      SpreadAppend(a[1..], b);
      Assoc(a[0] + [SPACE], Spread(a[1..]), Spread(b));
    }
  }

  lemma {:induction false} SpreadEnds(ts: seq<Text>)
    ensures ts != [] ==> Spread(ts) != [] && Spread(ts)[|Spread(ts)| - 1] == SPACE
    decreases |ts|
  {
    if |ts| > 1 {
      SpreadEnds(ts[1..]);
    }
  }

  /** Names in a row occur, joined and padded. */
  lemma RunOccurs(a: seq<Text>, run: seq<Text>, b: seq<Text>)
    requires run != []
    ensures Contains(Pad(Join(a + run + b)), Pad(Join(run)))
  {
    var text, p := Pad(Join(a + run + b)), |Spread(a)|;
    SpreadIsJoin(a + run + b);
    SpreadIsJoin(run);
    SpreadAppend(a + run, b);
    SpreadAppend(a, run);
    SpreadEnds(a);
    OccursBetween(Spread(a), Spread(run), Spread(b));
    assert OccursAt(text, Pad(Join(run)), p);
  }

  lemma OccursBetween(a: Text, m: Text, b: Text)
    requires a == [] || a[|a| - 1] == SPACE
    ensures OccursAt([SPACE] + (a + m + b), [SPACE] + m, |a|)
  {
    var text, p := [SPACE] + (a + m + b), |a|;
    assert text[p] == SPACE;
    assert text[p + 1..p + 1 + |m|] == m;
  }

  ghost predicate NoGap(s: Text) {
    forall i :: 0 <= i < |s| - 1 ==> s[i] != SPACE || s[i + 1] != SPACE
  }

  lemma {:induction false} SpreadHasNoGap(ts: seq<Text>)
    requires AllPlain(ts)
    ensures NoGap(Spread(ts)) && (ts != [] ==> Spread(ts)[0] != SPACE) && Spaced(Spread(ts))
    decreases |ts|
  {
    if ts != [] {
      assert Plain(ts[0]);
      SpreadHasNoGap(ts[1..]);
      GapBetween(ts[0], Spread(ts[1..]));
    }
  }

  lemma GapBetween(c: Text, rest: Text)
    requires Plain(c) && NoGap(rest) && (rest != [] ==> rest[0] != SPACE) && Spaced(rest)
    ensures NoGap(c + [SPACE] + rest) && (c + [SPACE] + rest)[0] != SPACE && Spaced(c + [SPACE] + rest)
  {
  }

  /** Text with single spaces between names and nowhere else. */
  ghost predicate Neat(s: Text) {
    s != [] && s[0] != SPACE && s[|s| - 1] != SPACE && NoGap(s) && Spaced(s)
  }

  lemma RestIsNeat(s: Text, n: nat)
    requires Neat(s) && n < |s| && s[n] == SPACE
    ensures Neat(s[n + 1..])
  {
    assert n + 1 < |s|;
    var rest := s[n + 1..];
    assert forall i :: 0 <= i < |rest| ==> rest[i] == s[n + 1 + i];
  }

  lemma JoinCons(c: Text, ts: seq<Text>)
    ensures Join([c] + ts) == if ts == [] then c else c + [SPACE] + Join(ts)
  {
    assert ([c] + ts)[1..] == ts;
  }

  lemma FirstNeat(s: Text)
    requires Neat(s)
    ensures var n := Word(s);
            if n < |s| then s[n] == SPACE && s == s[..n] + [SPACE] + s[n + 1..] && Tokens(s) == [s[..n]] + Tokens(s[n + 1..])
            else Tokens(s) == [s]
  {
    var n := Word(s);
    FirstToken(s);
    if n < |s| {
      CutAt(s, n);
      SkipOne(s[n..]);
    } else {
      assert s[..n] == s && s[n..] == [];
    }
  }

  lemma CutAt(s: Text, n: nat)
    requires n < |s| && s[n] == SPACE
    ensures s == s[..n] + [SPACE] + s[n + 1..] && s[n..] != [] && s[n..][0] == SPACE && s[n..][1..] == s[n + 1..]
  {
  }

  lemma SkipOne(s: Text)
    requires s != [] && s[0] == SPACE
    ensures Tokens(s) == Tokens(s[1..])
  {
  }

  lemma {:induction false} NeatIsJoined(s: Text)
    requires Neat(s)
    ensures Tokens(s) != [] && Join(Tokens(s)) == s
    decreases |s|
  {
    var n := Word(s);
    FirstNeat(s);
    if n < |s| {
      RestIsNeat(s, n);
      NeatIsJoined(s[n + 1..]);
      JoinCons(s[..n], Tokens(s[n + 1..]));
    } else {
      JoinCons(s, []);
      assert [s] + [] == [s];
    }
  }

  /** What occurs, padded, is a row of names. */
  lemma OccursAsRun(ts: seq<Text>, c: Text) returns (i: nat, j: nat)
    requires AllPlain(ts) && c != [] && Contains(Pad(Join(ts)), Pad(c))
    ensures i < j <= |ts| && c == Join(ts[i..j])
  {
    var s := Pad(Join(ts));
    var p: nat :| p <= |s| && OccursAt(s, Pad(c), p);
    TextHasNoGap(ts);
    OccurrenceIsNeat(s, c, p);
    NeatIsJoined(c);
    PadIsPadded(ts);
    SplitAround(s, c, p);
    i, j := MiddleOf(Tokens(s[..p]), Tokens(c), Tokens(s[p + |Pad(c)|..]));
  }

  lemma MiddleOf(a: seq<Text>, m: seq<Text>, b: seq<Text>) returns (i: nat, j: nat)
    ensures i == |a| && j == |a| + |m| && j <= |a + (m + b)| && (a + (m + b))[i..j] == m
  {
    i, j := |a|, |a| + |m|;
  }

  lemma TextHasNoGap(ts: seq<Text>)
    requires AllPlain(ts)
    ensures ts != [] ==> NoGap(Pad(Join(ts))) && Spaced(Pad(Join(ts)))
    ensures ts == [] ==> |Pad(Join(ts))| == 2
  {
    if ts != [] {
      SpreadIsJoin(ts);
      SpreadHasNoGap(ts);
    }
  }

  lemma OccurrenceIsNeat(s: Text, c: Text, p: nat)
    requires c != [] && NoGap(s) && Spaced(s) && OccursAt(s, Pad(c), p)
    ensures Neat(c)
  {
    assert forall k :: 0 <= k < |Pad(c)| ==> s[p + k] == Pad(c)[k];
    assert forall k :: 0 <= k < |c| ==> s[p + 1 + k] == Pad(c)[1 + k] == c[k];
    assert s[p] == SPACE && s[p + 1 + |c|] == Pad(c)[1 + |c|] == SPACE;
  }

  /** Exactly what hasClass finds: a name or, strangely, several names in a row joined by single
      spaces; and nothing at all where there are no names. */
  ghost predicate Finds(ts: seq<Text>, selector: Text) {
    if selector == [] then ts == [] else exists i, j :: 0 <= i < j <= |ts| && selector == Join(ts[i..j])
  }

  lemma ContainsIsFinds(ts: seq<Text>, selector: Text)
    requires AllPlain(ts)
    ensures Contains(Pad(Join(ts)), Pad(selector)) <==> Finds(ts, selector)
  {
    if selector == [] {
      if ts == [] {
        assert OccursAt(Pad(Join(ts)), Pad(selector), 0);
      } else {
        TextHasNoGap(ts);
        NoEmptyName(Pad(Join(ts)));
      }
    } else {
      if Contains(Pad(Join(ts)), Pad(selector)) {
        var i, j := OccursAsRun(ts, selector);
      }
      if i, j :| 0 <= i < j <= |ts| && selector == Join(ts[i..j]) {
        assert ts == ts[..i] + ts[i..j] + ts[j..];
        RunOccurs(ts[..i], ts[i..j], ts[j..]);
      }
    }
  }

  lemma TwoSpaces(s: Text, p: nat)
    requires OccursAt(s, Pad([]), p)
    ensures p + 1 < |s| && s[p] == SPACE && s[p + 1] == SPACE
  {
    assert s[p] == s[p..p + 2][0] && s[p + 1] == s[p..p + 2][1];
  }

  lemma NoEmptyName(s: Text)
    requires NoGap(s)
    ensures !Contains(s, Pad([]))
  {
    forall p: nat | p <= |s| ensures !OccursAt(s, Pad([]), p) {
      if OccursAt(s, Pad([]), p) {
        TwoSpaces(s, p);
        assert false;
      }
    }
  }

  /** A single name is found iff it is one of the names. */
  lemma FindsName(ts: seq<Text>, c: Text)
    requires AllPlain(ts) && Plain(c)
    ensures Finds(ts, c) <==> c in ts
  {
    PadIsPadded(ts);
    ContainsIsFinds(ts, c);
    ContainsIsMembership(Pad(Join(ts)), c);
  }

  // ----- What the operations mean for the list of names

  /** Appends each name that is not there yet. */
  function AddAll(ts: seq<Text>, cs: seq<Text>): seq<Text>
    decreases |cs|
  {
    if cs == [] then ts else AddAll(if cs[0] in ts then ts else ts + [cs[0]], cs[1..])
  }

  /** Deletes every occurrence of a name. */
  function Without(ts: seq<Text>, c: Text): seq<Text> {
    if ts == [] then [] else (if ts[0] == c then [] else [ts[0]]) + Without(ts[1..], c)
  }

  function RemoveAll(ts: seq<Text>, cs: seq<Text>): seq<Text>
    decreases |cs|
  {
    if cs == [] then ts else RemoveAll(Without(ts, cs[0]), cs[1..])
  }

  function Toggle(ts: seq<Text>, c: Text): seq<Text> {
    if c in ts then Without(ts, c) else ts + [c]
  }

  function ToggleAll(ts: seq<Text>, cs: seq<Text>): seq<Text>
    decreases |cs|
  {
    if cs == [] then ts else ToggleAll(Toggle(ts, cs[0]), cs[1..])
  }

  lemma {:induction false} WithoutAppend(a: seq<Text>, b: seq<Text>, c: Text)
    ensures Without(a + b, c) == Without(a, c) + Without(b, c)
    decreases |a|
  {
    if a == [] {
      assert a + b == b;
    } else {
      assert (a + b)[1..] == a[1..] + b;
      WithoutAppend(a[1..], b, c);
    }
  }

  lemma {:induction false} WithoutMembers(ts: seq<Text>, c: Text)
    ensures forall x :: x in Without(ts, c) <==> x in ts && x != c
    ensures c !in ts ==> Without(ts, c) == ts
    ensures AllPlain(ts) ==> AllPlain(Without(ts, c))
    decreases |ts|
  {
    if ts != [] {
      WithoutMembers(ts[1..], c);
      assert ts == [ts[0]] + ts[1..];
      if AllPlain(ts) {
        assert Plain(ts[0]);
        assert AllPlain(ts[1..]);
      }
    }
  }

  /** addClass keeps the names there are, and appends exactly the absent ones of those given,
      once each and in the order given. */
  lemma {:induction false} AddAllMeaning(ts: seq<Text>, cs: seq<Text>)
    ensures ts <= AddAll(ts, cs)
    ensures forall x :: x in AddAll(ts, cs) <==> x in ts || x in cs
    ensures forall i, j :: |ts| <= j < |AddAll(ts, cs)| && 0 <= i < j ==> AddAll(ts, cs)[i] != AddAll(ts, cs)[j]
    ensures Ascends(AddAll(ts, cs)[|ts|..], cs)
    decreases |cs|
  {
    if cs != [] {
      var c := cs[0];
      var ts' := if c in ts then ts else ts + [c];
      AddAllMeaning(ts', cs[1..]);
      var r := AddAll(ts, cs);
      assert cs == [c] + cs[1..];
      if c in ts {
        AscendsMore(r[|ts|..], c, cs[1..]);
      } else {
        assert r[|ts|..] == [c] + r[|ts'|..];
        assert r[..|ts'|] == ts';
        assert forall i :: 0 <= i < |ts| ==> r[i] == ts'[i] == ts[i];
        assert [c] + cs[1..] == cs;
      }
    }
  }

  /** `xs` is a subsequence of `cs`. */
  predicate Ascends(xs: seq<Text>, cs: seq<Text>)
    decreases |cs|
  {
    xs == [] || (cs != [] && ((xs[0] == cs[0] && Ascends(xs[1..], cs[1..])) || Ascends(xs, cs[1..])))
  }

  lemma AscendsMore(xs: seq<Text>, c: Text, cs: seq<Text>)
    requires Ascends(xs, cs)
    ensures Ascends(xs, [c] + cs)
  {
    assert ([c] + cs)[1..] == cs;
  }

  /** removeClass keeps exactly the names not given, each as often as before, in order. */
  lemma {:induction false} RemoveAllMeaning(ts: seq<Text>, cs: seq<Text>)
    ensures RemoveAll(ts, cs) == Filtered(ts, cs)
    decreases |cs|
  {
    if cs == [] {
      FilteredNone(ts);
    } else {
      RemoveAllMeaning(Without(ts, cs[0]), cs[1..]);
      FilteredStep(ts, cs);
    }
  }

  function Filtered(ts: seq<Text>, cs: seq<Text>): seq<Text> {
    if ts == [] then [] else (if ts[0] in cs then [] else [ts[0]]) + Filtered(ts[1..], cs)
  }

  lemma {:induction false} FilteredNone(ts: seq<Text>)
    ensures Filtered(ts, []) == ts
    decreases |ts|
  {
    if ts != [] {
      FilteredNone(ts[1..]);
    }
  }

  lemma {:induction false} FilteredStep(ts: seq<Text>, cs: seq<Text>)
    requires cs != []
    ensures Filtered(Without(ts, cs[0]), cs[1..]) == Filtered(ts, cs)
    decreases |ts|
  {
    if ts != [] {
      FilteredStep(ts[1..], cs);
      var rest := Without(ts[1..], cs[0]);
      assert cs == [cs[0]] + cs[1..];
      if ts[0] != cs[0] {
        assert Without(ts, cs[0])[0] == ts[0] && Without(ts, cs[0])[1..] == rest;
      } else {
        assert Without(ts, cs[0]) == rest;
      }
    }
  }

  lemma ToggleMeaning(ts: seq<Text>, c: Text, x: Text)
    ensures x in Toggle(ts, c) <==> ((x in ts) != (x == c))
  {
    WithoutMembers(ts, c);
  }

  /** Toggling one name is adding it, behind the others, or removing it. */
  lemma ToggleIs(ts: seq<Text>, c: Text)
    ensures Toggle(ts, c) == if c in ts then RemoveAll(ts, [c]) else AddAll(ts, [c])
  {
    assert [c][1..] == [];
  }

  /** Toggling changes membership once for each time a name is given. */
  lemma {:induction false} ToggleAllMeaning(ts: seq<Text>, cs: seq<Text>, x: Text)
    ensures x in ToggleAll(ts, cs) <==> ((x in ts) != (multiset(cs)[x] % 2 == 1))
    decreases |cs|
  {
    if cs != [] {
      ToggleMeaning(ts, cs[0], x);
      ToggleAllMeaning(Toggle(ts, cs[0]), cs[1..], x);
      CountFirst(cs, x);
    }
  }

  lemma CountFirst(cs: seq<Text>, x: Text)
    requires cs != []
    ensures multiset(cs)[x] == multiset(cs[1..])[x] + if x == cs[0] then 1 else 0
  {
    assert cs == [cs[0]] + cs[1..];
  }

  /** Toggling the same names twice restores the set of names. */
  lemma ToggleTwice(ts: seq<Text>, cs: seq<Text>, x: Text)
    ensures x in ToggleAll(ToggleAll(ts, cs), cs) <==> x in ts
  {
    ToggleAllMeaning(ts, cs, x);
    ToggleAllMeaning(ToggleAll(ts, cs), cs, x);
  }

  // ----- The operations on the attribute

  class Element {
    var attr: Text

    constructor (attr: Text)
      ensures this.attr == attr
    {
      this.attr := attr;
    }

    /** The list of names the attribute stands for. */
    function Names(): seq<Text>
      reads this
    {
      Tokens(attr)
    }

    /** `s.indexOf( c )` */
    method IndexOf(s: Text, c: Text) returns (i: int)
      ensures -1 <= i
      ensures i == -1 <==> !Contains(s, c)
      ensures i >= 0 ==> OccursAt(s, c, i)
    {
      i := 0;
      while i <= |s|
        invariant 0 <= i <= |s| + 1
        invariant forall k: nat :: k < i && k <= |s| ==> !OccursAt(s, c, k)
      {
        if OccursAt(s, c, i) {
          return;
        }
        i := i + 1;
      }
      i := -1;
    }

    method HasClass(selector: Text) returns (b: bool)
      ensures b <==> Finds(Names(), selector)
      ensures Plain(selector) ==> (b <==> selector in Names())
    {
      var i := IndexOf(Pad(Collapse(attr)), Pad(selector));
      b := i > -1;
      TokensArePlain(attr);
      ContainsIsFinds(Tokens(attr), selector);
      if Plain(selector) {
        FindsName(Tokens(attr), selector);
      }
    }

    method AddClass(value: Text)
      modifies this
      ensures value == [] ==> attr == old(attr)
      ensures value != [] ==> attr == Join(AddAll(old(Names()), Tokens(value))) && Names() == AddAll(old(Names()), Tokens(value))
    {
      if value == [] {
        return;
      }
      var classes := Tokens(value);
      TokensArePlain(value);
      TokensArePlain(attr);
      PadIsPadded(Tokens(attr));
      var cur := Pad(Collapse(attr));
      var j := 0;
      while j < |classes|
        invariant 0 <= j <= |classes| && Padded(cur) && AllPlain(Tokens(cur))
        invariant AddAll(Tokens(cur), classes[j..]) == AddAll(old(Names()), classes)
      {
        var clazz := classes[j];
        assert Plain(clazz) && classes[j..][1..] == classes[j + 1..];
        var i := IndexOf(cur, Pad(clazz));
        ContainsIsMembership(cur, clazz);
        if i < 0 {
          Appended(cur, clazz);
          cur := cur + clazz + [SPACE];
        }
        j := j + 1;
      }
      assert classes[j..] == [];
      var finalValue := Collapse(cur);
      TokensOfJoin(Tokens(cur));
      if attr != finalValue {
        attr := finalValue;
      }
    }

    /** `value` is None when the method is called without arguments. */
    method RemoveClass(value: Option<Text>)
      modifies this
      ensures value.None? ==> attr == []
      ensures value == Some([]) ==> attr == old(attr)
      ensures value.Some? && value.value != [] ==>
                attr == Join(RemoveAll(old(Names()), Tokens(value.value))) && Names() == RemoveAll(old(Names()), Tokens(value.value))
    {
      if value.None? {
        attr := [];
        return;
      }
      if value.value == [] {
        return;
      }
      var classes := Tokens(value.value);
      TokensArePlain(value.value);
      TokensArePlain(attr);
      PadIsPadded(Tokens(attr));
      var cur := Pad(Collapse(attr));
      var j := 0;
      while j < |classes|
        invariant 0 <= j <= |classes| && Padded(cur) && AllPlain(Tokens(cur))
        invariant RemoveAll(Tokens(cur), classes[j..]) == RemoveAll(old(Names()), classes)
      {
        var clazz := classes[j];
        assert Plain(clazz) && classes[j..][1..] == classes[j + 1..];
        cur := RemoveInstances(cur, clazz);
        j := j + 1;
      }
      assert classes[j..] == [];
      var finalValue := Collapse(cur);
      TokensOfJoin(Tokens(cur));
      if attr != finalValue {
        attr := finalValue;
      }
    }

    /** Replaces the padded name by a space while it occurs. */
    method RemoveInstances(s: Text, clazz: Text) returns (cur: Text)
      requires Padded(s) && Plain(clazz) && AllPlain(Tokens(s))
      ensures Padded(cur) && Tokens(cur) == Without(Tokens(s), clazz) && AllPlain(Tokens(cur))
    {
      cur := s;
      WithoutMembers(Tokens(s), clazz);
      while true
        invariant Padded(cur) && Without(Tokens(cur), clazz) == Without(Tokens(s), clazz)
        decreases |cur|
      {
        var i := IndexOf(cur, Pad(clazz));
        ContainsIsMembership(cur, clazz);
        if i == -1 {
          WithoutMembers(Tokens(cur), clazz);
          break;
        }
        Replaced(cur, clazz, i);
        cur := cur[..i] + [SPACE] + cur[i + |Pad(clazz)|..];
      }
    }

    method ToggleClass(value: Text)
      modifies this
      ensures Names() == ToggleAll(old(Names()), Tokens(value))
    {
      var classNames := Tokens(value);
      TokensArePlain(value);
      var i := 0;
      while i < |classNames|
        invariant 0 <= i <= |classNames|
        invariant ToggleAll(Names(), classNames[i..]) == ToggleAll(old(Names()), classNames)
      {
        var className := classNames[i];
        assert Plain(className) && classNames[i..][1..] == classNames[i + 1..];
        TokensOfPlain(className);
        assert classNames[i..i + 1] == [className] && [className][1..] == classNames[0..0];
        var has := HasClass(className);
        if has {
          RemoveClass(Some(className));
        } else {
          AddClass(className);
        }
        i := i + 1;
      }
    }
  }

  lemma Appended(cur: Text, c: Text)
    requires Padded(cur) && Plain(c) && AllPlain(Tokens(cur))
    ensures Padded(cur + c + [SPACE]) && Tokens(cur + c + [SPACE]) == Tokens(cur) + [c]
    ensures AllPlain(Tokens(cur) + [c])
  {
    var u := cur[..|cur| - 1];
    assert cur == u + [SPACE];
    TokensBeforeSpace(u);
    TokensBeforeSpace(c);
    Assoc(u + [SPACE], c, [SPACE]);
    TokensSplit(u, c + [SPACE]);
    TokensOfPlain(c);
    AppendedIsPadded(cur, c);
  }

  lemma TokensBeforeSpace(u: Text)
    ensures Tokens(u + [SPACE]) == Tokens(u)
  {
    TokensSplit(u, []);
    assert u + [SPACE] + [] == u + [SPACE];
  }

  lemma AppendedIsPadded(cur: Text, c: Text)
    requires Padded(cur) && Plain(c)
    ensures Padded(cur + c + [SPACE])
  {
  }

  lemma Replaced(cur: Text, c: Text, i: nat)
    requires Padded(cur) && Plain(c) && OccursAt(cur, Pad(c), i)
    ensures var r := cur[..i] + [SPACE] + cur[i + |Pad(c)|..];
            Padded(r) && |r| < |cur| && Without(Tokens(r), c) == Without(Tokens(cur), c)
  {
    SplitAt(cur, c, i);
    DropOne(Tokens(cur[..i]), c, Tokens(cur[i + |Pad(c)|..]));
    ReplacedIsPadded(cur, c, i);
  }

  lemma DropOne(a: seq<Text>, c: Text, b: seq<Text>)
    ensures Without(a + [c] + b, c) == Without(a + b, c)
  {
    WithoutAppend(a + [c], b, c);
    WithoutAppend(a, [c], c);
    WithoutAppend(a, b, c);
    assert [c][1..] == [];
  }

  lemma ReplacedIsPadded(cur: Text, c: Text, i: nat)
    requires Padded(cur) && Plain(c) && OccursAt(cur, Pad(c), i)
    ensures var r := cur[..i] + [SPACE] + cur[i + |Pad(c)|..]; Padded(r) && |r| < |cur|
  {
    var v := cur[i + |Pad(c)|..];
    assert forall k :: 0 <= k < |v| ==> v[k] == cur[i + |Pad(c)| + k];
  }
}
